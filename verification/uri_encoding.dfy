/**
  encodeURIComponent of ECMAScript (sections 19.2.6.5 and 19.2.6.6 of ECMA-262):
  every code point outside the unescaped set is written as the UTF-8 octets of
  its encoding, each as '%' followed by two upper-case hexadecimal digits.
*/
module UriEncoding {

  /** uriUnescaped of ECMA-262: ASCII letters, decimal digits and the marks - _ . ! ~ * ' ( ) */
  predicate IsUriUnescaped(c: char) {
    || ('A' <= c <= 'Z') || ('a' <= c <= 'z') || ('0' <= c <= '9')
    || c == '-' || c == '_' || c == '.' || c == '!' || c == '~' || c == '*'
    || c == '\'' || c == '(' || c == ')'
  }

  predicate IsUpperHexDigit(c: char) {
    ('0' <= c <= '9') || ('A' <= c <= 'F')
  }

  function HexDigit(n: nat): (c: char)
    requires n < 16
    ensures IsUpperHexDigit(c)
  {
    if n < 10 then ('0' as int + n) as char else ('A' as int + n - 10) as char
  }

  /** The UTF-8 encoding (section 3 of RFC 3629) of one Unicode scalar value. */
  function Utf8(cp: nat): (octets: seq<nat>)
    requires cp < 0x11_0000
    ensures 1 <= |octets| <= 4
    ensures forall i | 0 <= i < |octets| :: octets[i] < 0x100
    ensures (|octets| == 1) <==> (cp < 0x80)
  {
    if cp < 0x80 then [cp]
    else if cp < 0x800 then [0xC0 + cp / 0x40, 0x80 + cp % 0x40]
    else if cp < 0x1_0000 then [0xE0 + cp / 0x1000, 0x80 + (cp / 0x40) % 0x40, 0x80 + cp % 0x40]
    else [0xF0 + cp / 0x4_0000, 0x80 + (cp / 0x1000) % 0x40, 0x80 + (cp / 0x40) % 0x40, 0x80 + cp % 0x40]
  }

  /** Each octet written as "%XY". */
  function PercentOctets(octets: seq<nat>): (r: string)
    requires forall i | 0 <= i < |octets| :: octets[i] < 0x100
    ensures |r| == 3 * |octets|
    ensures forall i | 0 <= i < |r| :: r[i] == '%' || IsUpperHexDigit(r[i])
  {
    if octets == [] then []
    else ['%', HexDigit(octets[0] / 16), HexDigit(octets[0] % 16)] + PercentOctets(octets[1..])
  }

  function EncodeChar(c: char): (r: string)
    ensures IsUriUnescaped(c) ==> r == [c]
    ensures !IsUriUnescaped(c) ==> 3 <= |r| <= 12 && r[0] == '%'
  {
    if IsUriUnescaped(c) then [c] else PercentOctets(Utf8(c as int))
  }

  /** `encodeURIComponent(s)`; Dafny characters are Unicode scalar values, so the
      lone-surrogate URIError of ECMA-262 cannot arise. */
  function EncodeUriComponent(s: string): (r: string)
    ensures |r| >= |s|
    ensures |r| == |s| <==> AllUnescaped(s)
  {
    if s == [] then []
    else
      var head, tail := EncodeChar(s[0]), EncodeUriComponent(s[1..]);
      assert AllUnescaped(s) <==> IsUriUnescaped(s[0]) && AllUnescaped(s[1..]) by {
        if IsUriUnescaped(s[0]) && AllUnescaped(s[1..]) {
          forall i | 0 <= i < |s| ensures IsUriUnescaped(s[i]) {
            if i > 0 { assert s[i] == s[1..][i - 1]; }
          }
        }
        if AllUnescaped(s) {
          forall i | 0 <= i < |s| - 1 ensures IsUriUnescaped(s[1..][i]) {
            assert s[1..][i] == s[i + 1];
          }
        }
      }
      head + tail
  }

  predicate AllUnescaped(s: string) {
    forall i | 0 <= i < |s| :: IsUriUnescaped(s[i])
  }

  /** A string made of unescaped characters is left exactly as it is. */
  lemma {:induction false} EncodeUnescapedIsIdentity(s: string)
    requires AllUnescaped(s)
    ensures EncodeUriComponent(s) == s
  {
    if s != [] {
      assert IsUriUnescaped(s[0]);
      assert AllUnescaped(s[1..]) by {
        forall i | 0 <= i < |s| - 1 ensures IsUriUnescaped(s[1..][i]) {
          assert s[1..][i] == s[i + 1];
        }
      }
      EncodeUnescapedIsIdentity(s[1..]);
      assert s == [s[0]] + s[1..];
    }
  }

  /** Every character of an encoding is unescaped, '%' or an upper-case hex digit. */
  lemma {:induction false} EncodeAlphabet(s: string)
    ensures forall i | 0 <= i < |EncodeUriComponent(s)| ::
      var c := EncodeUriComponent(s)[i]; IsUriUnescaped(c) || c == '%' || IsUpperHexDigit(c)
  {
    if s != [] {
      EncodeAlphabet(s[1..]);
      var head, tail := EncodeChar(s[0]), EncodeUriComponent(s[1..]);
      forall i | 0 <= i < |head + tail|
        ensures var c := (head + tail)[i]; IsUriUnescaped(c) || c == '%' || IsUpperHexDigit(c)
      {
        if i >= |head| {
          assert (head + tail)[i] == tail[i - |head|];
        } else if IsUriUnescaped(s[0]) {
          assert head == [s[0]];
        }
      }
    }
  }

  lemma EncodeExamples()
    ensures EncodeUriComponent(" ") == "%20"
    ensures EncodeUriComponent("&") == "%26"
    ensures EncodeUriComponent("\U{00E9}") == "%C3%A9"
  {
    assert EncodeUriComponent(" ") == EncodeChar(' ') + EncodeUriComponent([]);
    assert EncodeUriComponent("&") == EncodeChar('&') + EncodeUriComponent([]);
    assert EncodeUriComponent("\U{00E9}") == EncodeChar('\U{00E9}') + EncodeUriComponent([]);
    assert Utf8(0xE9) == [0xC3, 0xA9];
    assert PercentOctets([0xA9]) == ['%', HexDigit(10), HexDigit(9)] + PercentOctets([]);
    assert PercentOctets([0xC3, 0xA9]) == ['%', HexDigit(12), HexDigit(3)] + PercentOctets([0xA9]);
  }
}
