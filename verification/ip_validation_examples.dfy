/** The edge cases of the two validators of src/utils/ip.ts, worked out on concrete strings. */
module IpValidationExamples {
  import opened DotGroups
  import opened IpValidation

  lemma QuadIsAddress(a: string, b: string, c: string, d: string, s: string)
    requires Dot !in a && Dot !in b && Dot !in c && Dot !in d && s == Dotted4(a, b, c, d)
    ensures IsValidIPAddress(s) <==> IsOctet(a) && IsOctet(b) && IsOctet(c) && IsOctet(d)
    ensures IsValidDomain(s) <==> IsLabel(a) && IsLabel(b) && IsLabel(c) && IsLabel(d)
  {
    SplitOfDotted4(a, b, c, d);
    var g := Split(s);
    assert g[0] == a && g[1] == b && g[2] == c && g[3] == d;
  }

  lemma OneGroupIsDomain(a: string)
    requires Dot !in a
    ensures IsValidDomain(a) <==> IsLabel(a)
    ensures !IsValidIPAddress(a)
  {
    SplitWithoutDot(a);
    assert Split(a)[0] == a;
  }

  lemma TwoGroupsAreDomain(a: string, b: string, s: string)
    requires Dot !in a && Dot !in b && s == a + [Dot] + b
    ensures IsValidDomain(s) <==> IsLabel(a) && IsLabel(b)
    ensures !IsValidIPAddress(s)
  {
    OneGroupIsDomain(a);
    OneGroupIsDomain(b);
    DomainConcat(a, b);
    SplitAtDot(a, b);
    SplitWithoutDot(a);
    SplitWithoutDot(b);
    assert |Split(s)| == 2;
  }

  lemma ThreeGroupsAreDomain(a: string, b: string, c: string, s: string)
    requires Dot !in a && Dot !in b && Dot !in c && s == a + [Dot] + b + [Dot] + c
    ensures IsValidDomain(s) <==> IsLabel(a) && IsLabel(b) && IsLabel(c)
  {
    assert s == a + [Dot] + (b + [Dot] + c);
    OneGroupIsDomain(a);
    TwoGroupsAreDomain(b, c, b + [Dot] + c);
    DomainConcat(a, b + [Dot] + c);
  }

  /** Dotted quads are addresses. */
  lemma IpAddressAccepted(s: string)
    requires s == "192.168.1.1"
    ensures IsValidIPAddress(s)
  {
    assert IsOctet("192") && IsOctet("168") && IsOctet("1");
    QuadIsAddress("192", "168", "1", "1", s);
  }

  /** Leading zeros are allowed in every group. */
  lemma LeadingZerosAccepted(s: string)
    requires s == "001.02.0.00"
    ensures IsValidIPAddress(s)
  {
    assert IsOctet("001") && IsOctet("02") && IsOctet("0") && IsOctet("00");
    QuadIsAddress("001", "02", "0", "00", s);
  }

  lemma HighestAddressAccepted(s: string)
    requires s == "255.255.255.255"
    ensures IsValidIPAddress(s)
  {
    assert IsOctet("255");
    QuadIsAddress("255", "255", "255", "255", s);
  }

  lemma IpAddressOctetTooLarge(s: string)
    requires s == "256.1.1.1"
    ensures !IsValidIPAddress(s)
  {
    assert !IsOctet("256");
    QuadIsAddress("256", "1", "1", "1", s);
  }

  lemma IpAddressTooFewGroups(s: string)
    requires s == "1.2.3"
    ensures !IsValidIPAddress(s)
  {
    assert s == "1" + [Dot] + ("2" + [Dot] + "3");
    SplitAtDot("1", "2" + [Dot] + "3");
    SplitAtDot("2", "3");
    SplitWithoutDot("1"); SplitWithoutDot("2"); SplitWithoutDot("3");
    assert |Split(s)| == 3;
  }

  lemma IpAddressTooManyGroups(s: string)
    requires s == "1.2.3.4.5"
    ensures !IsValidIPAddress(s)
  {
    assert s == "1" + [Dot] + Dotted4("2", "3", "4", "5");
    SplitOfDotted4("2", "3", "4", "5");
    SplitAtDot("1", Dotted4("2", "3", "4", "5"));
    SplitWithoutDot("1");
    assert |Split(s)| == 5;
  }

  /** The whole string must match: the empty string is rejected by both validators. */
  lemma EmptyStringRejected(s: string)
    requires s == ""
    ensures !IsValidIPAddress(s) && !IsValidDomain(s)
  {
    OneGroupIsDomain(s);
  }

  /** An address with a space before or after it is rejected. */
  lemma SurroundingSpaceRejected(s: string, t: string)
    requires s == " 1.2.3.4" && t == "1.2.3.4 "
    ensures !IsValidIPAddress(s) && !IsValidDomain(s)
    ensures !IsValidIPAddress(t) && !IsValidDomain(t)
  {
    ForeignCharacterRejected(s, 0);
    ForeignCharacterRejected(t, 7);
  }

  /** A name without a dot, such as a host name on a local network, is a domain. */
  lemma SingleLabelAccepted(s: string)
    requires s == "localhost"
    ensures IsValidDomain(s)
  {
    assert IsLabel(s);
    OneGroupIsDomain(s);
  }

  lemma DomainAccepted(s: string)
    requires s == "example.com"
    ensures IsValidDomain(s) && !IsValidIPAddress(s)
  {
    assert IsLabel("example") && IsLabel("com");
    TwoGroupsAreDomain("example", "com", s);
  }

  /** No rule asks the last label to hold a letter. */
  lemma NumericTopLevelLabelAccepted(s: string)
    requires s == "example.12"
    ensures IsValidDomain(s)
  {
    assert IsLabel("example") && IsLabel("12");
    TwoGroupsAreDomain("example", "12", s);
  }

  lemma HyphenatedDomainAccepted(s: string)
    requires s == "my-host.example.org"
    ensures IsValidDomain(s)
  {
    assert IsLabel("my-host") && IsLabel("example") && IsLabel("org");
    ThreeGroupsAreDomain("my-host", "example", "org", s);
  }

  lemma DomainOneCharacterLabel(s: string)
    requires s == "a.com"
    ensures !IsValidDomain(s)
  {
    assert !IsLabel("a");
    TwoGroupsAreDomain("a", "com", s);
  }

  lemma DomainInnerEmptyLabel(s: string)
    requires s == "a..bc"
    ensures !IsValidDomain(s)
  {
    assert !IsLabel("");
    ThreeGroupsAreDomain("a", "", "bc", s);
  }

  lemma DomainOuterEmptyLabel(s: string, t: string)
    requires s == ".ab" && t == "ab."
    ensures !IsValidDomain(s) && !IsValidDomain(t)
  {
    assert !IsLabel("");
    TwoGroupsAreDomain("", "ab", s);
    TwoGroupsAreDomain("ab", "", t);
  }

  /** A label may neither start nor end with '-'. */
  lemma DomainHyphenAtLabelEnds(s: string, t: string)
    requires s == "-bad-.com" && t == "ab-.com"
    ensures !IsValidDomain(s) && !IsValidDomain(t)
  {
    assert !IsLabel("-bad-") && !IsLabel("ab-");
    TwoGroupsAreDomain("-bad-", "com", s);
    TwoGroupsAreDomain("ab-", "com", t);
  }

  /** URLs and ports are not stripped before matching: they are rejected. */
  lemma UrlNotStripped(s: string)
    requires s == "https://www.example.com/path"
    ensures !IsValidDomain(s)
  {
    ForeignCharacterRejected(s, 5);
  }

  lemma PortNotStripped(s: string)
    requires s == "example.com:8080"
    ensures !IsValidDomain(s)
  {
    ForeignCharacterRejected(s, 11);
  }

  function Repeat(c: char, n: nat): (s: string)
    ensures |s| == n && forall i | 0 <= i < n :: s[i] == c
  {
    if n == 0 then [] else [c] + Repeat(c, n - 1)
  }

  /** A label may be up to 63 characters long and no longer. */
  lemma LabelLengthLimit(n: nat)
    requires n >= 2
    ensures IsValidDomain(Repeat('a', n)) <==> n <= 63
  {
    var run := Repeat('a', n);
    assert Dot !in run;
    OneGroupIsDomain(run);
  }

  /** A name of `k + 1` two-character labels: "ab.ab. ... .ab". */
  function Chain(k: nat): string {
    if k == 0 then "ab" else "ab" + [Dot] + Chain(k - 1)
  }

  lemma {:induction false} ChainIsDomain(k: nat)
    ensures IsValidDomain(Chain(k)) && |Chain(k)| == 3 * k + 2
  {
    OneGroupIsDomain("ab");
    if k > 0 {
      ChainIsDomain(k - 1);
      DomainConcat("ab", Chain(k - 1));
    }
  }

  /** There is no limit on the total length of a domain (253 characters or any other). */
  lemma NoTotalLengthLimit(n: nat)
    ensures exists s :: |s| > n && IsValidDomain(s)
  {
    ChainIsDomain(n);
  }

  /** The validators overlap: a quad of two-digit numbers passes both. */
  lemma ValidatorsOverlap(s: string)
    requires s == "10.20.30.40"
    ensures IsValidIPAddress(s) && IsValidDomain(s)
  {
    assert IsOctet("10") && IsOctet("20") && IsOctet("30") && IsOctet("40");
    assert IsLabel("10") && IsLabel("20") && IsLabel("30") && IsLabel("40");
    QuadIsAddress("10", "20", "30", "40", s);
  }

  /** A quad with one-digit groups is an address and not a domain. */
  lemma AddressNotDomain(s: string)
    requires s == "1.2.3.4"
    ensures IsValidIPAddress(s) && !IsValidDomain(s)
  {
    assert IsOctet("1") && IsOctet("2") && IsOctet("3") && IsOctet("4") && !IsLabel("1");
    QuadIsAddress("1", "2", "3", "4", s);
  }
}
