/** Host names of the Validator grammars: IRI_LABEL, PUNYCODE_TLD, TLD,
    HOST_NAME, and DOMAIN_NAME_STR (a host name or an IPv4 literal). */
module HostName {
  import opened Chars
  import opened Seqs
  import Ipv4

  predicate IsLabelOrHyphen(c: char) { IsLabelChar(c) || c == '-' }

  /** The characters a host name or IPv4 literal can contain. */
  predicate IsHostChar(c: char) { IsLabelChar(c) || c == '-' || c == '_' || c == '.' }

  /** IRI_LABEL: a label character, optionally followed by up to 61 label
      characters or hyphens and a closing label character. */
  predicate IsIriLabel(s: string) {
    && |s| >= 1
    && IsLabelChar(s[0])
    && (|s| == 1 || (Repeats(s[1..|s| - 1], IsLabelOrHyphen, 0, 61) && IsLabelChar(s[|s| - 1])))
  }

  /** The repetition bounds of IRI_LABEL give labels of 1 to 1 + 61 + 1 = 63
      characters, the 63 of section 2.3.4 of RFC 1035 counted in characters. */
  lemma IriLabelLength(s: string)
    requires IsIriLabel(s)
    ensures 1 <= |s| <= 63
  {
  }

  /** The 63 of section 2.3.4 of RFC 1035 counts octets, but IRI_LABEL counts
      characters: 63 copies of U+00E9 form a label of 126 UTF-8 octets. */
  lemma IriLabelOver63Octets()
    ensures var s := seq(63, _ => '\U{E9}');
      IsIriLabel(s) && Utf8Length(s) == 126
  {
    var s := seq(63, _ => '\U{E9}');
    assert IsLabelChar('\U{E9}');
    assert forall i | 0 <= i < |s| :: s[i] == '\U{E9}';
    assert All(s[1..|s| - 1], IsLabelOrHyphen);
    Utf8LengthOfRun('\U{E9}', 63);
  }

  /** A label is 1 to 63 label characters or hyphens that neither starts nor
      ends with a hyphen (the 63 of section 2.3.4 of RFC 1035, counted in
      characters). */
  lemma IriLabelShape(s: string)
    ensures IsIriLabel(s) <==>
      && 1 <= |s| <= 63
      && All(s, IsLabelOrHyphen)
      && s[0] != '-'
      && s[|s| - 1] != '-'
  {
  }

  predicate IsWordOrHyphen(c: char) { IsWordChar(c) || c == '-' }

  /** PUNYCODE_TLD: the case-sensitive prefix "xn--", up to 58 word characters
      or hyphens, and a final word character. */
  predicate IsPunycodeTld(s: string) {
    && |s| > 4
    && s[..4] == "xn--"
    && Repeats(s[4..|s| - 1], IsWordOrHyphen, 0, 58)
    && IsWordChar(s[|s| - 1])
  }

  /** The repetition bounds of PUNYCODE_TLD give 4 + 0 + 1 = 5 to 4 + 58 + 1 =
      63 characters, the 63-character limit of RFC 3492 on Punycode output. */
  lemma PunycodeTldLength(s: string)
    requires IsPunycodeTld(s)
    ensures 5 <= |s| <= 63
  {
  }

  /** TLD: a Punycode TLD, or 2 to 63 TLD characters. */
  predicate IsTld(s: string) {
    IsPunycodeTld(s) || (2 <= |s| <= 63 && All(s, IsTldChar))
  }

  /** Both TLD forms are 2 to 63 characters long, dot-free and made of host
      characters; the plain form has neither digits nor hyphens, and no string
      has both forms. */
  lemma TldShape(s: string)
    requires IsTld(s)
    ensures 2 <= |s| <= 63
    ensures '.' !in s
    ensures All(s, IsHostChar)
    ensures !IsPunycodeTld(s) ==> forall i | 0 <= i < |s| :: !IsAsciiDigit(s[i]) && s[i] != '-'
    ensures IsPunycodeTld(s) ==> !All(s, IsTldChar)
  {
    if IsPunycodeTld(s) {
      assert s[2] == '-';
      assert !IsTldChar(s[2]);
      forall i | 0 <= i < |s| ensures IsHostChar(s[i]) && s[i] != '.' {
        if i < 4 {
          assert s[i] == "xn--"[i];
        } else if i < |s| - 1 {
          assert s[i] == s[4..|s| - 1][i - 4];
        }
      }
    } else {
      forall i | 0 <= i < |s|
        ensures IsHostChar(s[i]) && s[i] != '.' && !IsAsciiDigit(s[i]) && s[i] != '-'
      {
        if IsUcsChar(s[i]) {
          UcsCharIsNotAscii(s[i]);
        }
      }
    }
  }

  /** HOST_NAME: one or more labels each followed by '.', then a TLD. */
  predicate IsHostName(s: string)
    decreases |s|
  {
    exists k | 0 <= k < |s| ::
      && s[k] == '.'
      && IsIriLabel(s[..k])
      && (IsTld(s[k + 1..]) || IsHostName(s[k + 1..]))
  }

  /** The dot-separated pieces of a host name: at least two, a label each but
      the last, which is a TLD. */
  predicate IsLabelsThenTld(ps: seq<string>) {
    && |ps| >= 2
    && (forall i | 0 <= i < |ps| - 1 :: IsIriLabel(ps[i]))
    && IsTld(ps[|ps| - 1])
  }

  lemma IriLabelHasNoDot(s: string)
    requires IsIriLabel(s)
    ensures '.' !in s
    ensures All(s, IsHostChar)
  {
    forall i | 0 <= i < |s| ensures IsLabelOrHyphen(s[i]) && s[i] != '.' {
      if 0 < i < |s| - 1 {
        assert s[i] == s[1..|s| - 1][i - 1];
      }
      if IsUcsChar(s[i]) {
        UcsCharIsNotAscii(s[i]);
      }
    }
  }

  lemma ConsLabel(first: string, qs: seq<string>)
    requires IsIriLabel(first) && IsLabelsThenTld(qs)
    ensures IsLabelsThenTld([first] + qs)
  {
    var ps := [first] + qs;
    forall i | 0 <= i < |ps| - 1 ensures IsIriLabel(ps[i]) {
      if i > 0 {
        assert ps[i] == qs[i - 1];
      }
    }
    assert ps[|ps| - 1] == qs[|qs| - 1];
  }

  lemma LabelThenTld(first: string, rest: string)
    requires IsIriLabel(first) && IsTld(rest)
    ensures IsLabelsThenTld([first] + Split(rest, '.'))
  {
    TldShape(rest);
    SplitNoSeparator(rest, '.');
  }

  lemma {:induction false} HostNameSplits(s: string)
    requires IsHostName(s)
    ensures IsLabelsThenTld(Split(s, '.'))
    decreases |s|
  {
    var k :| 0 <= k < |s| && s[k] == '.' && IsIriLabel(s[..k]) && (IsTld(s[k + 1..]) || IsHostName(s[k + 1..]));
    var first, rest := s[..k], s[k + 1..];
    IriLabelHasNoDot(first);
    SplitAtFirst(s, '.', k);
    if IsTld(rest) {
      LabelThenTld(first, rest);
    } else {
      HostNameSplits(rest);
      ConsLabel(first, Split(rest, '.'));
    }
  }

  lemma DropLabel(ps: seq<string>)
    requires IsLabelsThenTld(ps) && |ps| > 2
    ensures IsLabelsThenTld(ps[1..])
  {
    var qs := ps[1..];
    forall i | 0 <= i < |qs| - 1 ensures IsIriLabel(qs[i]) {
      assert qs[i] == ps[i + 1];
    }
    assert qs[|qs| - 1] == ps[|ps| - 1];
  }

  lemma {:induction false} SplitsToHostName(s: string)
    requires IsLabelsThenTld(Split(s, '.'))
    ensures IsHostName(s)
    decreases |s|
  {
    var ps := Split(s, '.');
    SplitHead(s, '.');
    var k := |ps[0]|;
    var rest := s[k + 1..];
    assert s[..k] == ps[0];
    if |ps| == 2 {
      assert Join(Split(rest, '.'), '.') == rest;
      assert IsTld(rest);
    } else {
      DropLabel(ps);
      SplitsToHostName(rest);
    }
  }

  /** A string is a host name exactly when its pieces between dots are labels
      followed by one TLD. */
  lemma HostNameBySplit(s: string)
    ensures IsHostName(s) <==> IsLabelsThenTld(Split(s, '.'))
  {
    if IsHostName(s) {
      HostNameSplits(s);
    }
    if IsLabelsThenTld(Split(s, '.')) {
      SplitsToHostName(s);
    }
  }

  /** A host name is at least 4 characters long, contains a dot and does not
      end with one. */
  lemma {:induction false} HostNameShape(s: string)
    requires IsHostName(s)
    ensures |s| >= 4
    ensures '.' in s
    ensures s[|s| - 1] != '.'
    decreases |s|, 0
  {
    var k :| 0 <= k < |s| && s[k] == '.' && IsIriLabel(s[..k]) && (IsTld(s[k + 1..]) || IsHostName(s[k + 1..]));
    var rest := s[k + 1..];
    AfterLabelShape(rest);
    assert s[|s| - 1] == rest[|rest| - 1];
  }

  /** What follows the first label and its dot: a TLD or a host name, either
      way at least 2 characters long and not ending with a dot. */
  lemma {:induction false} AfterLabelShape(rest: string)
    requires IsTld(rest) || IsHostName(rest)
    ensures |rest| >= 2 && rest[|rest| - 1] != '.'
    decreases |rest|, 1
  {
    if IsHostName(rest) {
      HostNameShape(rest);
    } else {
      TldShape(rest);
      assert rest[|rest| - 1] in rest;
    }
  }

  lemma LabelsThenTldChars(ps: seq<string>)
    requires IsLabelsThenTld(ps)
    ensures forall i, j | 0 <= i < |ps| && 0 <= j < |ps[i]| :: IsHostChar(ps[i][j])
  {
    forall i | 0 <= i < |ps| ensures All(ps[i], IsHostChar) {
      if i < |ps| - 1 {
        IriLabelHasNoDot(ps[i]);
      } else {
        TldShape(ps[i]);
      }
    }
  }

  /** Every character of a host name is a host character. */
  lemma HostNameChars(s: string)
    requires IsHostName(s)
    ensures All(s, IsHostChar)
  {
    HostNameSplits(s);
    var ps := Split(s, '.');
    LabelsThenTldChars(ps);
    JoinAll(ps, '.', IsHostChar);
  }

  /** DOMAIN_NAME_STR: a host name or an IPv4 literal. */
  predicate IsDomainName(s: string) {
    IsHostName(s) || Ipv4.IsIpAddress(s)
  }

  /** Every character of a domain name is a host character; in particular it
      has no '@', '/', '?', ':' or space. */
  lemma DomainNameChars(s: string)
    requires IsDomainName(s)
    ensures |s| >= 1
    ensures All(s, IsHostChar)
  {
    if IsHostName(s) {
      HostNameShape(s);
      HostNameChars(s);
    } else {
      Ipv4.IpAddressOctets(s);
      var ps := Split(s, '.');
      forall i, j | 0 <= i < |ps| && 0 <= j < |ps[i]| ensures IsHostChar(ps[i][j]) {
        assert Ipv4.IsOctetText(ps[i]);
      }
      JoinAll(ps, '.', IsHostChar);
      assert |ps[0]| >= 1;
    }
  }
}
