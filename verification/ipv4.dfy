/** IP_ADDRESS_STRING: dotted-quad IPv4 literals.

    Each octet is one of a fixed list of spellings; the first octet has no
    single "0", the two middle octets add "0", and the last octet accepts any
    single digit. Three-digit spellings may start with 0 or 1, so "012" and
    "000" are accepted while "01" is not. */
module Ipv4 {
  import opened Chars
  import opened Seqs

  function DigitValue(c: char): int { c as int - '0' as int }

  /** The number a string of decimal digits spells. */
  function DecimalValue(t: string): int {
    if |t| == 0 then 0 else 10 * DecimalValue(t[..|t| - 1]) + DigitValue(t[|t| - 1])
  }

  // The spellings the octet alternatives admit.

  /** "250" to "255" */
  predicate Is250To255(t: string) { |t| == 3 && t[0] == '2' && t[1] == '5' && '0' <= t[2] <= '5' }
  /** "200" to "249" */
  predicate Is200To249(t: string) { |t| == 3 && t[0] == '2' && '0' <= t[1] <= '4' && IsAsciiDigit(t[2]) }
  /** "000" to "199", leading zeros allowed */
  predicate IsThreeDigitsBelow200(t: string) { |t| == 3 && '0' <= t[0] <= '1' && IsAsciiDigit(t[1]) && IsAsciiDigit(t[2]) }
  /** "10" to "99" */
  predicate Is10To99(t: string) { |t| == 2 && '1' <= t[0] <= '9' && IsAsciiDigit(t[1]) }
  /** "1" to "9" */
  predicate Is1To9(t: string) { |t| == 1 && '1' <= t[0] <= '9' }

  predicate IsFirstOctet(t: string) {
    Is250To255(t) || Is200To249(t) || IsThreeDigitsBelow200(t) || Is10To99(t) || Is1To9(t)
  }

  predicate IsMiddleOctet(t: string) {
    Is250To255(t) || Is200To249(t) || IsThreeDigitsBelow200(t) || Is10To99(t) || Is1To9(t) || t == "0"
  }

  predicate IsLastOctet(t: string) {
    Is250To255(t) || Is200To249(t) || IsThreeDigitsBelow200(t) || Is10To99(t) || (|t| == 1 && IsAsciiDigit(t[0]))
  }

  /** Middle octet, '.', last octet. */
  predicate IsLastTwo(s: string) {
    exists k | 0 <= k < |s| :: s[k] == '.' && IsMiddleOctet(s[..k]) && IsLastOctet(s[k + 1..])
  }

  /** Middle octet, '.', then the last two octets. */
  predicate IsLastThree(s: string) {
    exists k | 0 <= k < |s| :: s[k] == '.' && IsMiddleOctet(s[..k]) && IsLastTwo(s[k + 1..])
  }

  /** IP_ADDRESS_STRING as a whole-string match. */
  predicate IsIpAddress(s: string) {
    exists k | 0 <= k < |s| :: s[k] == '.' && IsFirstOctet(s[..k]) && IsLastThree(s[k + 1..])
  }

  /** Reference reading of an octet: one to three decimal digits whose value is
      at most 255, where a two-digit spelling has no leading zero. */
  predicate IsOctetText(t: string) {
    && 1 <= |t| <= 3
    && All(t, IsAsciiDigit)
    && DecimalValue(t) <= 255
    && (|t| == 2 ==> t[0] != '0')
  }

  lemma DecimalValueShort(t: string)
    requires 1 <= |t| <= 3
    ensures |t| == 1 ==> DecimalValue(t) == DigitValue(t[0])
    ensures |t| == 2 ==> DecimalValue(t) == 10 * DigitValue(t[0]) + DigitValue(t[1])
    ensures |t| == 3 ==> DecimalValue(t) == 100 * DigitValue(t[0]) + 10 * DigitValue(t[1]) + DigitValue(t[2])
  {
    var u := t[..|t| - 1];
    if |t| >= 2 {
      var v := u[..|u| - 1];
      if |t| == 3 {
        assert DecimalValue(v[..0]) == 0;
      } else {
        assert DecimalValue(v) == 0;
      }
    } else {
      assert DecimalValue(u) == 0;
    }
  }

  /** The middle-octet alternatives spell exactly the octets 0..255, without a
      leading zero on two digits. */
  lemma MiddleOctetText(t: string)
    ensures IsMiddleOctet(t) <==> IsOctetText(t)
  {
    if 1 <= |t| <= 3 {
      DecimalValueShort(t);
    }
  }

  /** The last octet admits the same spellings as a middle one. */
  lemma LastOctetText(t: string)
    ensures IsLastOctet(t) <==> IsOctetText(t)
  {
    if 1 <= |t| <= 3 {
      DecimalValueShort(t);
    }
  }

  /** The first octet admits every octet spelling but the single digit 0;
      "00" is excluded as every two-digit spelling with a leading zero is,
      while "000" is accepted. */
  lemma FirstOctetText(t: string)
    ensures IsFirstOctet(t) <==> IsOctetText(t) && t != "0"
  {
    if 1 <= |t| <= 3 {
      DecimalValueShort(t);
    }
  }

  lemma OctetTextHasNoDot(t: string)
    requires IsOctetText(t)
    ensures '.' !in t
  {
  }

  lemma LastTwoBySplit(s: string)
    ensures IsLastTwo(s) <==>
      var ps := Split(s, '.');
      |ps| == 2 && IsMiddleOctet(ps[0]) && IsLastOctet(ps[1])
  {
    var ps := Split(s, '.');
    if IsLastTwo(s) {
      var k :| 0 <= k < |s| && s[k] == '.' && IsMiddleOctet(s[..k]) && IsLastOctet(s[k + 1..]);
      MiddleOctetText(s[..k]);
      LastOctetText(s[k + 1..]);
      OctetTextHasNoDot(s[..k]);
      OctetTextHasNoDot(s[k + 1..]);
      SplitAtFirst(s, '.', k);
      SplitNoSeparator(s[k + 1..], '.');
    }
    if |ps| == 2 && IsMiddleOctet(ps[0]) && IsLastOctet(ps[1]) {
      SplitHead(s, '.');
      var k := |ps[0]|;
      assert Join(Split(s[k + 1..], '.'), '.') == s[k + 1..];
    }
  }

  lemma LastThreeBySplit(s: string)
    ensures IsLastThree(s) <==>
      var ps := Split(s, '.');
      |ps| == 3 && IsMiddleOctet(ps[0]) && IsMiddleOctet(ps[1]) && IsLastOctet(ps[2])
  {
    var ps := Split(s, '.');
    if IsLastThree(s) {
      var k :| 0 <= k < |s| && s[k] == '.' && IsMiddleOctet(s[..k]) && IsLastTwo(s[k + 1..]);
      MiddleOctetText(s[..k]);
      OctetTextHasNoDot(s[..k]);
      SplitAtFirst(s, '.', k);
      LastTwoBySplit(s[k + 1..]);
    }
    if |ps| == 3 && IsMiddleOctet(ps[0]) && IsMiddleOctet(ps[1]) && IsLastOctet(ps[2]) {
      SplitHead(s, '.');
      var k := |ps[0]|;
      LastTwoBySplit(s[k + 1..]);
    }
  }

  /** The nested alternatives of IP_ADDRESS_STRING are the four pieces of the
      string between its dots. */
  lemma IpAddressBySplit(s: string)
    ensures IsIpAddress(s) <==>
      var ps := Split(s, '.');
      && |ps| == 4
      && IsFirstOctet(ps[0]) && IsMiddleOctet(ps[1]) && IsMiddleOctet(ps[2]) && IsLastOctet(ps[3])
  {
    var ps := Split(s, '.');
    if IsIpAddress(s) {
      var k :| 0 <= k < |s| && s[k] == '.' && IsFirstOctet(s[..k]) && IsLastThree(s[k + 1..]);
      FirstOctetText(s[..k]);
      OctetTextHasNoDot(s[..k]);
      SplitAtFirst(s, '.', k);
      LastThreeBySplit(s[k + 1..]);
    }
    if |ps| == 4 && IsFirstOctet(ps[0]) && IsMiddleOctet(ps[1]) && IsMiddleOctet(ps[2]) && IsLastOctet(ps[3]) {
      SplitHead(s, '.');
      var k := |ps[0]|;
      LastThreeBySplit(s[k + 1..]);
    }
  }

  /** An accepted IPv4 literal has exactly four dot-separated octets, each of
      one to three digits with a value of at most 255, and the first is not the
      single digit 0; every such string is accepted. */
  lemma IpAddressOctets(s: string)
    ensures IsIpAddress(s) <==>
      var ps := Split(s, '.');
      && |ps| == 4
      && (forall i | 0 <= i < 4 :: IsOctetText(ps[i]))
      && ps[0] != "0"
  {
    IpAddressBySplit(s);
    var ps := Split(s, '.');
    if |ps| == 4 {
      FirstOctetText(ps[0]);
      MiddleOctetText(ps[1]);
      MiddleOctetText(ps[2]);
      LastOctetText(ps[3]);
      var spelled := IsOctetText(ps[0]) && IsOctetText(ps[1]) && IsOctetText(ps[2]) && IsOctetText(ps[3]);
      assert (forall i | 0 <= i < 4 :: IsOctetText(ps[i])) <==> spelled by {
        if spelled {
          forall i | 0 <= i < 4 ensures IsOctetText(ps[i]) {
            if i == 0 {} else if i == 1 {} else if i == 2 {} else {}
          }
        }
      }
    }
  }

  function DigitChar(d: int): (c: char)
    requires 0 <= d <= 9
    ensures IsAsciiDigit(c) && DigitValue(c) == d
  {
    ('0' as int + d) as char
  }

  /** The shortest decimal spelling of an octet value. */
  function OctetText(n: int): (t: string)
    requires 0 <= n <= 255
    ensures IsOctetText(t) && DecimalValue(t) == n
    ensures t == "0" <==> n == 0
  {
    if n < 10 then OneDigitText(n)
    else if n < 100 then TwoDigitText(n)
    else ThreeDigitText(n)
  }

  function OneDigitText(n: int): (t: string)
    requires 0 <= n <= 9
    ensures |t| == 1 && All(t, IsAsciiDigit) && DecimalValue(t) == n
    ensures t == "0" <==> n == 0
  {
    var t := [DigitChar(n)];
    DecimalValueShort(t);
    t
  }

  function TwoDigitText(n: int): (t: string)
    requires 10 <= n <= 99
    ensures |t| == 2 && All(t, IsAsciiDigit) && DecimalValue(t) == n && t[0] != '0'
  {
    var t := [DigitChar(n / 10), DigitChar(n % 10)];
    DecimalValueShort(t);
    t
  }

  function ThreeDigitText(n: int): (t: string)
    requires 100 <= n <= 255
    ensures |t| == 3 && All(t, IsAsciiDigit) && DecimalValue(t) == n
  {
    var t := [DigitChar(n / 100), DigitChar(n / 10 % 10), DigitChar(n % 10)];
    DecimalValueShort(t);
    t
  }

  /** The usual rendering of four octet values. */
  function DottedQuad(a: int, b: int, c: int, d: int): string
    requires 0 <= a <= 255 && 0 <= b <= 255 && 0 <= c <= 255 && 0 <= d <= 255
  {
    OctetText(a) + "." + OctetText(b) + "." + OctetText(c) + "." + OctetText(d)
  }

  /** Every dotted quad with octets 0..255 is accepted exactly when its first
      octet is not 0. */
  lemma DottedQuadAccepted(a: int, b: int, c: int, d: int)
    requires 0 <= a <= 255 && 0 <= b <= 255 && 0 <= c <= 255 && 0 <= d <= 255
    ensures IsIpAddress(DottedQuad(a, b, c, d)) <==> a != 0
  {
    var ps := [OctetText(a), OctetText(b), OctetText(c), OctetText(d)];
    forall i | 0 <= i < 4 ensures '.' !in ps[i] {
      OctetTextHasNoDot(ps[i]);
    }
    assert Join(ps[3..], '.') == OctetText(d);
    assert Join(ps[2..], '.') == OctetText(c) + "." + OctetText(d);
    assert Join(ps[1..], '.') == OctetText(b) + "." + OctetText(c) + "." + OctetText(d);
    assert Join(ps, '.') == DottedQuad(a, b, c, d);
    SplitJoin(ps, '.');
    IpAddressOctets(DottedQuad(a, b, c, d));
  }
}
