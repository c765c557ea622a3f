/**
  The two validators of src/utils/ip.ts. Each is an anchored regular expression
  built from one sub-expression (the octet alternation, the label expression)
  that matches no '.', separated by literal '.'s. So a string matches exactly
  when its '.'-separated groups each match the sub-expression: the predicates
  below split on '.' and check every group, and the ghost predicates
  `MatchesIpRegex` and `MatchesDomainRegex` state the regular languages
  directly, for comparison.
*/
module IpValidation {
  import opened DotGroups

  predicate IsDigit(c: char) { '0' <= c <= '9' }

  /** [a-zA-Z0-9] */
  predicate IsAsciiAlnum(c: char) { ('a' <= c <= 'z') || ('A' <= c <= 'Z') || IsDigit(c) }

  /** [a-zA-Z0-9-] */
  predicate IsLabelChar(c: char) { IsAsciiAlnum(c) || c == '-' }

  /** [A-Za-z0-9.-]: every character either validator lets through */
  predicate IsHostChar(c: char) { IsLabelChar(c) || c == Dot }

  // ---------------------------------------------------------------- IPv4

  /** 25[0-5] */
  predicate IsOctet250(g: string) {
    |g| == 3 && g[0] == '2' && g[1] == '5' && '0' <= g[2] <= '5'
  }

  /** 2[0-4][0-9] */
  predicate IsOctet200(g: string) {
    |g| == 3 && g[0] == '2' && '0' <= g[1] <= '4' && IsDigit(g[2])
  }

  /** [01]?[0-9][0-9]? : an optional '0' or '1', a digit, an optional digit */
  predicate IsOctetSmall(g: string) {
    || (|g| >= 1 && IsDigit(g[0]) && (|g| == 1 || (|g| == 2 && IsDigit(g[1]))))
    || (|g| >= 2 && (g[0] == '0' || g[0] == '1') && IsDigit(g[1]) && (|g| == 2 || (|g| == 3 && IsDigit(g[2]))))
  }

  /** (?:25[0-5]|2[0-4][0-9]|[01]?[0-9][0-9]?) */
  predicate IsOctet(g: string)
    ensures IsOctet(g) ==> 1 <= |g| <= 3 && AllDigits(g)
  {
    IsOctet250(g) || IsOctet200(g) || IsOctetSmall(g)
  }

  /** isValidIPAddress: exactly four '.'-separated groups, each an octet. */
  predicate IsValidIPAddress(s: string)
    ensures IsValidIPAddress(s) ==> 7 <= |s| <= 15
  {
    var groups := Split(s);
    JoinSplit(s);
    if |groups| == 4 then
      JoinOfFour(groups[0], groups[1], groups[2], groups[3]);
      assert groups == [groups[0], groups[1], groups[2], groups[3]];
      forall i | 0 <= i < 4 :: IsOctet(groups[i])
    else
      false
  }

  function Dotted4(a: string, b: string, c: string, d: string): string {
    a + [Dot] + b + [Dot] + c + [Dot] + d
  }

  /** The language of ^(?:(?:O)\.){3}(?:O)$ with O the octet alternation. */
  ghost predicate MatchesIpRegex(s: string)
    ensures MatchesIpRegex(s) ==> 7 <= |s| <= 15
  {
    exists a, b, c, d :: s == Dotted4(a, b, c, d) && IsOctet(a) && IsOctet(b) && IsOctet(c) && IsOctet(d)
  }

  predicate AllDigits(g: string) { forall i | 0 <= i < |g| :: IsDigit(g[i]) }

  function DigitValue(c: char): (v: nat)
    requires IsDigit(c)
    ensures v <= 9
  {
    c as int - '0' as int
  }

  /** The number a string of decimal digits denotes (leading zeros allowed). */
  function DecimalValue(g: string): nat
    requires AllDigits(g)
  {
    if g == [] then 0 else 10 * DecimalValue(g[..|g| - 1]) + DigitValue(g[|g| - 1])
  }

  /** One to three decimal digits denoting at most 255. */
  predicate IsDecimalOctet(g: string) {
    1 <= |g| <= 3 && AllDigits(g) && DecimalValue(g) <= 255
  }

  // Unfolds DecimalValue once for a single digit; callers need it spelled out to stay cheap.
  lemma DecimalValueOfOne(g: string)
    requires |g| == 1 && AllDigits(g)
    ensures DecimalValue(g) == DigitValue(g[0])
  {
    assert g[..0] == [];
  }

  lemma DecimalValueOfThree(g: string)
    requires |g| == 3 && AllDigits(g)
    ensures DecimalValue(g) == 100 * DigitValue(g[0]) + 10 * DigitValue(g[1]) + DigitValue(g[2])
  {
    assert g[..2][..1] == g[..1];
    DecimalValueOfOne(g[..1]);
  }

  /** The octet alternation accepts exactly the 1-3 digit numerals of 0..255,
      leading zeros included. */
  lemma OctetIsDecimalOctet(g: string)
    ensures IsOctet(g) <==> IsDecimalOctet(g)
  {
    if |g| == 1 {
      assert AllDigits(g) <==> IsDigit(g[0]);
      if AllDigits(g) {
        DecimalValueOfOne(g);
      }
    } else if |g| == 2 && AllDigits(g) {
      DecimalValueOfOne(g[..1]);
      assert DecimalValue(g) == 10 * DigitValue(g[0]) + DigitValue(g[1]);
    } else if |g| == 3 && AllDigits(g) {
      DecimalValueOfThree(g);
    }
  }

  /** isValidIPAddress holds iff there are four groups, each 1-3 digits worth at most 255. */
  lemma IpAddressIsFourDecimalOctets(s: string)
    ensures IsValidIPAddress(s) <==>
      var groups := Split(s); |groups| == 4 && forall i | 0 <= i < 4 :: IsDecimalOctet(groups[i])
  {
    var groups := Split(s);
    forall i | 0 <= i < |groups| ensures IsOctet(groups[i]) <==> IsDecimalOctet(groups[i]) {
      OctetIsDecimalOctet(groups[i]);
    }
  }

  lemma OctetHasNoDot(g: string)
    requires IsOctet(g)
    ensures Dot !in g
  {
  }

  /** Splitting on '.' agrees with the regular expression's own language. */
  lemma IpAddressMatchesRegex(s: string)
    ensures IsValidIPAddress(s) <==> MatchesIpRegex(s)
  {
    if IsValidIPAddress(s) {
      var g := Split(s);
      JoinSplit(s);
      JoinOfFour(g[0], g[1], g[2], g[3]);
      assert g == [g[0], g[1], g[2], g[3]];
      assert s == Dotted4(g[0], g[1], g[2], g[3]);
    }
    if MatchesIpRegex(s) {
      var a, b, c, d :| s == Dotted4(a, b, c, d) && IsOctet(a) && IsOctet(b) && IsOctet(c) && IsOctet(d);
      OctetHasNoDot(a); OctetHasNoDot(b); OctetHasNoDot(c); OctetHasNoDot(d);
      SplitOfDotted4(a, b, c, d);
    }
  }

  lemma JoinOfFour(a: string, b: string, c: string, d: string)
    ensures Join([a, b, c, d]) == Dotted4(a, b, c, d)
  {
    var g := [a, b, c, d];
    assert g[1..] == [b, c, d] && g[1..][1..] == [c, d] && g[1..][1..][1..] == [d];
    assert Join([c, d]) == c + [Dot] + d;
    assert Join([b, c, d]) == b + [Dot] + (c + [Dot] + d);
    assert Join(g) == a + [Dot] + (b + [Dot] + (c + [Dot] + d));
  }

  /** The four groups of a dotted quad whose parts hold no '.'. */
  lemma SplitOfDotted4(a: string, b: string, c: string, d: string)
    requires Dot !in a && Dot !in b && Dot !in c && Dot !in d
    ensures Split(Dotted4(a, b, c, d)) == [a, b, c, d]
  {
    JoinOfFour(a, b, c, d);
    assert NoDots([a, b, c, d]);
    SplitJoin([a, b, c, d]);
  }

  // ---------------------------------------------------------------- domains

  /** [a-zA-Z0-9][a-zA-Z0-9-]{0,61}[a-zA-Z0-9] */
  predicate IsLabel(g: string)
    ensures IsLabel(g) ==> forall i | 0 <= i < |g| :: IsLabelChar(g[i])
  {
    && 2 <= |g| <= 63
    && IsAsciiAlnum(g[0]) && IsAsciiAlnum(g[|g| - 1])
    && forall i | 1 <= i < |g| - 1 :: IsLabelChar(g[i])
  }

  /** isValidDomain: every '.'-separated group (at least one) is a label. */
  predicate IsValidDomain(s: string)
    ensures IsValidDomain(s) ==> |s| >= 2 && IsAsciiAlnum(s[0]) && IsAsciiAlnum(s[|s| - 1])
  {
    var groups := Split(s);
    FirstGroupIsPrefix(s);
    LastGroupIsSuffix(s);
    forall i | 0 <= i < |groups| :: IsLabel(groups[i])
  }

  predicate AllLabels(labels: seq<string>) {
    forall i | 0 <= i < |labels| :: IsLabel(labels[i])
  }

  /** The language of ^L(?:\.L)*$ with L the label expression. */
  ghost predicate MatchesDomainRegex(s: string)
    ensures MatchesDomainRegex(s) ==> |s| >= 2 && IsAsciiAlnum(s[0])
  {
    exists labels: seq<string> :: |labels| >= 1 && AllLabels(labels) && s == Join(labels)
  }

  lemma LabelHasNoDot(g: string)
    requires IsLabel(g)
    ensures Dot !in g
  {
    forall i | 0 <= i < |g| ensures g[i] != Dot {
      if 0 < i < |g| - 1 {
        assert IsLabelChar(g[i]);
      }
    }
  }

  /** Splitting on '.' agrees with the regular expression's own language. */
  lemma DomainMatchesRegex(s: string)
    ensures IsValidDomain(s) <==> MatchesDomainRegex(s)
  {
    if IsValidDomain(s) {
      JoinSplit(s);
      assert AllLabels(Split(s));
    }
    if MatchesDomainRegex(s) {
      var labels :| |labels| >= 1 && AllLabels(labels) && s == Join(labels);
      assert NoDots(labels) by {
        forall i | 0 <= i < |labels| ensures Dot !in labels[i] { LabelHasNoDot(labels[i]); }
      }
      SplitJoin(labels);
    }
  }

  /** Two valid domains joined by '.' form a valid domain, and a valid domain
      split at any '.' leaves two valid domains. */
  lemma DomainConcat(a: string, b: string)
    ensures IsValidDomain(a + [Dot] + b) <==> IsValidDomain(a) && IsValidDomain(b)
  {
    SplitAtDot(a, b);
    var ga, gb := Split(a), Split(b);
    if IsValidDomain(a + [Dot] + b) {
      forall i | 0 <= i < |ga| ensures IsLabel(ga[i]) { assert ga[i] == (ga + gb)[i]; }
      forall i | 0 <= i < |gb| ensures IsLabel(gb[i]) { assert gb[i] == (ga + gb)[|ga| + i]; }
    }
    if IsValidDomain(a) && IsValidDomain(b) {
      forall i | 0 <= i < |ga + gb| ensures IsLabel((ga + gb)[i]) {
        if i >= |ga| { assert (ga + gb)[i] == gb[i - |ga|]; } else { assert (ga + gb)[i] == ga[i]; }
      }
      assert IsValidDomain(a + [Dot] + b);
    }
  }

  /** The character at the start of each label is alphanumeric and the label
      goes on for at least one more character, which is not a '.'. */
  lemma DomainLabelStart(s: string, k: nat)
    requires IsValidDomain(s) && k <= |s| && (k == 0 || s[k - 1] == Dot)
    ensures k + 1 < |s| && IsAsciiAlnum(s[k]) && s[k + 1] != Dot
  {
    var rest := s[k..];
    if k > 0 {
      assert s == s[..k - 1] + [Dot] + rest;
      DomainConcat(s[..k - 1], rest);
    } else {
      assert rest == s;
    }
    FirstGroupIsPrefix(rest);
    var g := Split(rest)[0];
    assert IsLabel(g) && g[0] == rest[0] && g[1] == rest[1];
    assert IsLabelChar(g[1]);
  }

  /** The character at the end of each label is alphanumeric and is preceded
      by at least one more character, which is not a '.'. */
  lemma DomainLabelEnd(s: string, k: nat)
    requires IsValidDomain(s) && k < |s| && (k == |s| - 1 || s[k + 1] == Dot)
    ensures k >= 1 && IsAsciiAlnum(s[k]) && s[k - 1] != Dot
  {
    var front := s[..k + 1];
    if k < |s| - 1 {
      assert s == front + [Dot] + s[k + 2..];
      DomainConcat(front, s[k + 2..]);
    } else {
      assert front == s;
    }
    LastGroupIsSuffix(front);
    var gs := Split(front);
    var g := gs[|gs| - 1];
    assert IsLabel(g);
    assert g[|g| - 1] == front[k] && g[|g| - 2] == front[k - 1];
    assert IsLabelChar(g[|g| - 2]) || |g| == 2;
  }

  /** What the label grammar implies about the whole string: it starts and
      ends with an alphanumeric character, and every '.' sits between two
      alphanumeric characters, so no label is empty, none is a single
      character at either end, and no label starts or ends with '-'. */
  lemma DomainBoundaries(s: string)
    requires IsValidDomain(s)
    ensures |s| >= 2 && IsAsciiAlnum(s[0]) && IsAsciiAlnum(s[|s| - 1])
    ensures forall k | 0 <= k < |s| && s[k] == Dot ::
      2 <= k <= |s| - 3 && IsAsciiAlnum(s[k - 1]) && IsAsciiAlnum(s[k + 1])
  {
    DomainLabelStart(s, 0);
    DomainLabelEnd(s, |s| - 1);
    forall k | 0 <= k < |s| && s[k] == Dot
      ensures 2 <= k <= |s| - 3 && IsAsciiAlnum(s[k - 1]) && IsAsciiAlnum(s[k + 1])
    {
      DomainLabelStart(s, k + 1);
      DomainLabelEnd(s, k - 1);
    }
  }

  // ---------------------------------------------------------------- both

  /** Whatever either validator accepts is non-empty and made of [A-Za-z0-9.-] only. */
  lemma AcceptedCharacters(s: string)
    requires IsValidIPAddress(s) || IsValidDomain(s)
    ensures s != []
    ensures forall k | 0 <= k < |s| :: IsHostChar(s[k])
  {
    var groups := Split(s);
    JoinSplit(s);
    assert forall i | 0 <= i < |groups| :: forall j | 0 <= j < |groups[i]| :: IsLabelChar(groups[i][j]) by {
      forall i, j | 0 <= i < |groups| && 0 <= j < |groups[i]| ensures IsLabelChar(groups[i][j]) {
        if IsValidDomain(s) {
          assert IsLabel(groups[i]);
        } else {
          assert IsOctet(groups[i]);
        }
      }
    }
    forall k | 0 <= k < |s| ensures IsHostChar(s[k]) {
      JoinCharacters(groups, k);
    }
  }

  /** A character outside [A-Za-z0-9.-] anywhere in the string (a space
      around an address, say) makes both validators reject it. */
  lemma ForeignCharacterRejected(s: string, k: nat)
    requires k < |s| && !IsHostChar(s[k])
    ensures !IsValidIPAddress(s) && !IsValidDomain(s)
  {
    if IsValidIPAddress(s) || IsValidDomain(s) {
      AcceptedCharacters(s);
    }
  }
}
