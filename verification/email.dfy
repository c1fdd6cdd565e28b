/** The two email grammars of the Validator: AUTOLINK_EMAIL_ADDRESS, a local
    part and a host name shaped after RFC 5321, and EMAIL_ADDRESS, a simpler
    ASCII-only pattern. Both are matched against a whole string; at the start
    and end of the input the word-boundary groups around
    AUTOLINK_EMAIL_ADDRESS always match. */
module Email {
  import opened Chars
  import opened Seqs
  import HostName

  /** EMAIL_CHAR: label characters plus '+', '-', '_', '%' and the apostrophe. */
  predicate IsEmailChar(c: char) {
    IsLabelChar(c) || c == '+' || c == '-' || c == '_' || c == '%' || c == '\''
  }

  predicate IsEmailCharOrDot(c: char) { IsEmailChar(c) || c == '.' }

  /** EMAIL_ADDRESS_LOCAL_PART: an email character, optionally followed by up
      to 62 email characters or dots and a closing email character. */
  predicate IsLocalPart(s: string) {
    && |s| >= 1
    && IsEmailChar(s[0])
    && (|s| == 1 || (Repeats(s[1..|s| - 1], IsEmailCharOrDot, 0, 62) && IsEmailChar(s[|s| - 1])))
  }

  /** The repetition bounds give local parts of 1 to 1 + 62 + 1 = 64
      characters. */
  lemma LocalPartLength(s: string)
    requires IsLocalPart(s)
    ensures 1 <= |s| <= 64
  {
  }

  /** A local part is 1 to 64 email characters or dots that neither starts
      nor ends with a dot; dots inside may be consecutive. */
  lemma LocalPartShape(s: string)
    ensures IsLocalPart(s) <==>
      && 1 <= |s| <= 64
      && All(s, IsEmailCharOrDot)
      && s[0] != '.'
      && s[|s| - 1] != '.'
  {
    if IsLocalPart(s) {
      EmailCharIsNotDot(s[0]);
      EmailCharIsNotDot(s[|s| - 1]);
      forall i | 0 < i < |s| - 1 ensures IsEmailCharOrDot(s[i]) {
        assert s[i] == s[1..|s| - 1][i - 1];
      }
    }
    if 2 <= |s| <= 64 && All(s, IsEmailCharOrDot) && s[0] != '.' && s[|s| - 1] != '.' {
      var mid := s[1..|s| - 1];
      forall j | 0 <= j < |mid| ensures IsEmailCharOrDot(mid[j]) {
        assert mid[j] == s[j + 1];
      }
    }
  }

  lemma EmailCharIsNotDot(c: char)
    requires IsEmailChar(c)
    ensures c != '.'
  {
    if IsUcsChar(c) {
      UcsCharIsNotAscii(c);
    }
  }

  /** The characters of RFC 5321 atoms that EMAIL_CHAR leaves out, and the
      double quote of quoted local parts. */
  predicate IsOmittedSpecial(c: char) {
    || c == '#' || c == '&' || c == '~' || c == '!' || c == '^' || c == '`' || c == '{' || c == '}'
    || c == '/' || c == '=' || c == '$' || c == '*' || c == '?' || c == '|' || c == '"'
  }

  lemma EmailCharOrDotIsNotOmitted(c: char)
    requires IsEmailCharOrDot(c)
    ensures !IsOmittedSpecial(c)
  {
    if IsUcsChar(c) {
      UcsCharIsNotAscii(c);
    }
  }

  /** A local part contains none of the omitted specials, so no quoted local
      part is accepted. */
  lemma LocalPartOmitsSpecials(s: string)
    requires IsLocalPart(s)
    ensures forall i | 0 <= i < |s| :: !IsOmittedSpecial(s[i])
  {
    LocalPartShape(s);
    forall i | 0 <= i < |s| ensures !IsOmittedSpecial(s[i]) {
      EmailCharOrDotIsNotOmitted(s[i]);
    }
  }

  lemma ConsecutiveDotsInLocalPart()
    ensures IsLocalPart("a..b")
    ensures !IsLocalPart(".ab") && !IsLocalPart("ab.")
  {
    LocalPartShape(".ab");
    LocalPartShape("ab.");
  }

  /** The 64 of section 4.5.3.1.1 of RFC 5321 counts octets, but the grammar
      counts characters: an accepted local part needs up to 256 octets, and
      64 copies of U+00E9 are accepted while needing 128. */
  lemma LocalPartOctets(s: string)
    requires IsLocalPart(s)
    ensures Utf8Length(s) <= 256
  {
    Utf8LengthBound(s);
  }

  lemma LocalPartOver64Octets()
    ensures var s := seq(64, _ => '\U{E9}');
      IsLocalPart(s) && Utf8Length(s) == 128
  {
    Utf8LengthOfRun('\U{E9}', 64);
  }

  /** The look-ahead in front of EMAIL_ADDRESS_DOMAIN: 1 to 255 characters
      other than line terminators, then a space character or the end of the
      input. Without MULTILINE, Java's `$` also matches right before a line
      terminator (or "\r\n") that ends the input. Its start-of-input
      alternative cannot hold after the '@'. */
  predicate DomainLookahead(d: string) {
    exists k | 1 <= k <= |d| :: LookaheadEndsAt(d, k)
  }

  /** The look-ahead's `.{1,255}` takes the first k characters of d. */
  predicate LookaheadEndsAt(d: string, k: int) {
    && 1 <= k <= 255 && k <= |d|
    && (forall i | 0 <= i < k :: !IsLineTerminator(d[i]))
    && (|| k == |d|
        || IsRegexSpace(d[k])
        || (k == |d| - 1 && IsLineTerminator(d[k]))
        || (k == |d| - 2 && d[k] == '\r' && d[k + 1] == '\n'))
  }

  /** EMAIL_ADDRESS_DOMAIN: the look-ahead, then a host name reaching the end
      of the input. */
  predicate IsEmailDomain(d: string) {
    DomainLookahead(d) && HostName.IsHostName(d)
  }

  lemma HostCharIsNotSpace(c: char)
    requires HostName.IsHostChar(c)
    ensures !IsRegexSpace(c) && !IsLineTerminator(c) && c != '@'
  {
    if IsUcsChar(c) {
      UcsCharIsNotAscii(c);
    }
  }

  /** On a string of host characters the look-ahead is exactly a bound of 255
      on its length, since no host character is a space or a line terminator. */
  lemma LookaheadIsLengthBound(d: string)
    requires All(d, HostName.IsHostChar)
    ensures DomainLookahead(d) <==> 1 <= |d| <= 255
  {
    forall i | 0 <= i < |d| ensures !IsRegexSpace(d[i]) && !IsLineTerminator(d[i]) {
      HostCharIsNotSpace(d[i]);
    }
    if DomainLookahead(d) {
      var k :| 1 <= k <= |d| && LookaheadEndsAt(d, k);
    }
    if 1 <= |d| <= 255 {
      assert LookaheadEndsAt(d, |d|);
    }
  }

  /** The domain of an address is a host name of at most 255 characters (the
      255 of section 4.5.3.1.2 of RFC 5321, counted in characters). */
  lemma EmailDomainLength(d: string)
    ensures IsEmailDomain(d) <==> HostName.IsHostName(d) && |d| <= 255
  {
    if HostName.IsHostName(d) {
      HostName.HostNameChars(d);
      HostName.HostNameShape(d);
      LookaheadIsLengthBound(d);
    }
  }

  /** The 255 of section 4.5.3.1.2 of RFC 5321 counts octets, but the
      look-ahead counts characters: two labels of 63 copies of U+4E00 around a
      dot form an accepted domain of 127 characters and 379 UTF-8 octets. */
  lemma EmailDomainOver255Octets()
    ensures var l := seq(63, _ => '\U{4E00}');
      var d := l + "." + l;
      IsEmailDomain(d) && Utf8Length(d) == 379
  {
    var l := seq(63, _ => '\U{4E00}');
    var d := l + "." + l;
    HanLabel(l);
    assert d[63] == '.' && d[..63] == l && d[64..] == l;
    assert HostName.IsHostName(d);
    EmailDomainLength(d);
    Utf8LengthOfRun('\U{4E00}', 63);
    Utf8LengthConcat(l, ".");
    Utf8LengthConcat(l + ".", l);
  }

  lemma HanLabel(l: string)
    requires l == seq(63, _ => '\U{4E00}')
    ensures HostName.IsIriLabel(l) && HostName.IsTld(l)
  {
    assert IsUcsChar('\U{4E00}');
    assert forall i | 0 <= i < |l| :: l[i] == '\U{4E00}';
    assert All(l[1..|l| - 1], HostName.IsLabelOrHyphen);
    assert All(l, IsTldChar);
  }

  /** AUTOLINK_EMAIL_ADDRESS as a whole-string match. */
  predicate IsAutolinkEmail(s: string) {
    exists p | 0 <= p < |s| :: s[p] == '@' && IsLocalPart(s[..p]) && IsEmailDomain(s[p + 1..])
  }

  lemma LocalPartHasNoAt(s: string)
    requires IsLocalPart(s)
    ensures '@' !in s
  {
    forall i | 0 <= i < |s| ensures s[i] != '@' {
      assert IsEmailCharOrDot(s[i]);
      if IsUcsChar(s[i]) {
        UcsCharIsNotAscii(s[i]);
      }
    }
  }

  lemma HostNameHasNoAt(d: string)
    requires HostName.IsHostName(d)
    ensures '@' !in d
  {
    HostName.HostNameChars(d);
    forall i | 0 <= i < |d| ensures d[i] != '@' {
      HostCharIsNotSpace(d[i]);
    }
  }

  /** Two positions of '@' around which a string splits into an '@'-free
      prefix and an '@'-free suffix are the same position. */
  lemma AtIsUnique(s: string, p: int, q: int)
    requires 0 <= p < |s| && 0 <= q < |s| && s[p] == '@' && s[q] == '@'
    requires '@' !in s[..p] && '@' !in s[p + 1..]
    ensures p == q
  {
    forall i | 0 <= i < p ensures s[i] != '@' {
      assert s[..p][i] == s[i];
    }
    forall i | p < i < |s| ensures s[i] != '@' {
      assert s[p + 1..][i - p - 1] == s[i];
    }
  }

  /** An address has exactly one '@'; splitting at it, the address is accepted
      exactly when the local part is one and the rest is a host name of at most
      255 characters. */
  lemma AutolinkEmailAt(s: string, p: int)
    requires 0 <= p < |s| && s[p] == '@'
    ensures IsAutolinkEmail(s) <==>
      IsLocalPart(s[..p]) && HostName.IsHostName(s[p + 1..]) && |s| - p - 1 <= 255
  {
    EmailDomainLength(s[p + 1..]);
    if IsAutolinkEmail(s) {
      var q :| 0 <= q < |s| && s[q] == '@' && IsLocalPart(s[..q]) && IsEmailDomain(s[q + 1..]);
      AutolinkAtIsUnique(s, q, p);
    }
  }

  lemma AutolinkAtIsUnique(s: string, q: int, p: int)
    requires 0 <= q < |s| && s[q] == '@' && IsLocalPart(s[..q]) && IsEmailDomain(s[q + 1..])
    requires 0 <= p < |s| && s[p] == '@'
    ensures p == q
  {
    LocalPartHasNoAt(s[..q]);
    HostNameHasNoAt(s[q + 1..]);
    AtIsUnique(s, q, p);
  }

  /** The characters of EMAIL_ADDRESS before the '@'. */
  predicate IsSimpleLocalChar(c: char) {
    IsAsciiAlnum(c) || c == '+' || c == '.' || c == '_' || c == '%' || c == '-'
  }

  /** An ASCII letter or digit followed by letters, digits or hyphens, at most
      `most` characters in all. */
  predicate IsSimpleLabel(t: string, most: int) {
    && 1 <= |t| <= most
    && IsAsciiAlnum(t[0])
    && forall i | 1 <= i < |t| :: IsAsciiAlnum(t[i]) || t[i] == '-'
  }

  /** One or more groups of '.' and a label of at most 26 characters. */
  predicate IsSimpleTail(t: string)
    decreases |t|
  {
    && |t| >= 2
    && t[0] == '.'
    && (|| IsSimpleLabel(t[1..], 26)
        || exists q | 1 < q < |t| :: t[q] == '.' && IsSimpleLabel(t[1..q], 26) && IsSimpleTail(t[q..]))
  }

  /** The part of EMAIL_ADDRESS after the '@': a label of at most 65
      characters, then the tail. */
  predicate IsSimpleDomain(d: string) {
    exists q | 0 < q < |d| :: d[q] == '.' && IsSimpleLabel(d[..q], 65) && IsSimpleTail(d[q..])
  }

  /** EMAIL_ADDRESS as a whole-string match. */
  predicate IsSimpleEmail(s: string) {
    exists p | 0 <= p < |s| :: SimpleEmailSplitsAt(s, p)
  }

  /** The '@' of EMAIL_ADDRESS at position p: 1 to 256 local characters
      before it and a simple domain after it. */
  predicate SimpleEmailSplitsAt(s: string, p: int) {
    && 0 <= p < |s|
    && s[p] == '@'
    && 1 <= p <= 256
    && All(s[..p], IsSimpleLocalChar)
    && IsSimpleDomain(s[p + 1..])
  }

  /** Every piece is a label of at most `most` characters. */
  predicate AllSimpleLabels(ps: seq<string>, most: int) {
    forall i | 0 <= i < |ps| :: IsSimpleLabel(ps[i], most)
  }

  lemma SimpleLabelHasNoDot(t: string, most: int)
    requires IsSimpleLabel(t, most)
    ensures '.' !in t && '@' !in t
  {
  }

  lemma ConsSimpleLabel(first: string, qs: seq<string>, most: int)
    requires IsSimpleLabel(first, most) && AllSimpleLabels(qs, most)
    ensures AllSimpleLabels([first] + qs, most)
  {
    var ps := [first] + qs;
    forall i | 0 <= i < |ps| ensures IsSimpleLabel(ps[i], most) {
      if i > 0 {
        assert ps[i] == qs[i - 1];
      }
    }
  }

  lemma {:induction false} SimpleTailSplits(t: string)
    requires IsSimpleTail(t)
    ensures AllSimpleLabels(Split(t[1..], '.'), 26)
    decreases |t|, 1
  {
    var r := t[1..];
    if IsSimpleLabel(r, 26) {
      SimpleLabelHasNoDot(r, 26);
      SplitNoSeparator(r, '.');
    } else {
      var q :| 1 < q < |t| && t[q] == '.' && IsSimpleLabel(t[1..q], 26) && IsSimpleTail(t[q..]);
      SimpleTailSplitsAt(t, q);
    }
  }

  lemma {:induction false} SimpleTailSplitsAt(t: string, q: int)
    requires 1 < q < |t| && t[q] == '.' && IsSimpleLabel(t[1..q], 26) && IsSimpleTail(t[q..])
    ensures AllSimpleLabels(Split(t[1..], '.'), 26)
    decreases |t|, 0
  {
    var r := t[1..];
    var first := t[1..q];
    assert r[q - 1] == '.' && r[..q - 1] == first;
    assert t[q..][1..] == r[q..];
    SimpleLabelHasNoDot(first, 26);
    SplitAtFirst(r, '.', q - 1);
    SimpleTailSplits(t[q..]);
    ConsSimpleLabel(first, Split(r[q..], '.'), 26);
  }

  lemma {:induction false} SplitsToSimpleTail(t: string)
    requires |t| >= 1 && t[0] == '.'
    requires AllSimpleLabels(Split(t[1..], '.'), 26)
    ensures IsSimpleTail(t)
    decreases |t|
  {
    var r := t[1..];
    var ps := Split(r, '.');
    assert IsSimpleLabel(ps[0], 26);
    if |ps| == 1 {
      assert r == ps[0];
    } else {
      SplitHead(r, '.');
      var k := |ps[0]|;
      var q := k + 1;
      assert t[q] == '.' && t[1..q] == ps[0];
      assert t[q..][1..] == r[k + 1..];
      forall i | 0 <= i < |ps[1..]| ensures IsSimpleLabel(ps[1..][i], 26) {
        assert ps[1..][i] == ps[i + 1];
      }
      SplitsToSimpleTail(t[q..]);
    }
  }

  /** A tail is a '.' followed by dot-separated labels of at most 26 characters. */
  lemma SimpleTailBySplit(t: string)
    ensures IsSimpleTail(t) <==> |t| >= 1 && t[0] == '.' && AllSimpleLabels(Split(t[1..], '.'), 26)
  {
    if IsSimpleTail(t) {
      SimpleTailSplits(t);
    }
    if |t| >= 1 && t[0] == '.' && AllSimpleLabels(Split(t[1..], '.'), 26) {
      SplitsToSimpleTail(t);
    }
  }

  lemma SimpleDomainSplitsAt(d: string, q: int)
    requires 0 < q < |d| && d[q] == '.' && IsSimpleLabel(d[..q], 65) && IsSimpleTail(d[q..])
    ensures var ps := Split(d, '.');
      |ps| >= 2 && IsSimpleLabel(ps[0], 65) && AllSimpleLabels(ps[1..], 26)
  {
    SimpleLabelHasNoDot(d[..q], 65);
    SplitAtFirst(d, '.', q);
    assert d[q..][1..] == d[q + 1..];
    SimpleTailSplits(d[q..]);
    var ps := Split(d, '.');
    assert ps[1..] == Split(d[q + 1..], '.');
  }

  lemma SplitsToSimpleDomain(d: string)
    requires var ps := Split(d, '.');
      |ps| >= 2 && IsSimpleLabel(ps[0], 65) && AllSimpleLabels(ps[1..], 26)
    ensures IsSimpleDomain(d)
  {
    var ps := Split(d, '.');
    SplitHead(d, '.');
    var q := |ps[0]|;
    assert d[q..][1..] == d[q + 1..];
    assert d[..q] == ps[0];
    SplitsToSimpleTail(d[q..]);
  }

  /** The domain of EMAIL_ADDRESS is at least two dot-separated labels, each
      starting with an ASCII letter or digit: the first of at most 65
      characters, the others of at most 26. */
  lemma SimpleDomainBySplit(d: string)
    ensures IsSimpleDomain(d) <==>
      var ps := Split(d, '.');
      |ps| >= 2 && IsSimpleLabel(ps[0], 65) && AllSimpleLabels(ps[1..], 26)
  {
    var ps := Split(d, '.');
    if IsSimpleDomain(d) {
      var q :| 0 < q < |d| && d[q] == '.' && IsSimpleLabel(d[..q], 65) && IsSimpleTail(d[q..]);
      SimpleDomainSplitsAt(d, q);
    }
    if |ps| >= 2 && IsSimpleLabel(ps[0], 65) && AllSimpleLabels(ps[1..], 26) {
      SplitsToSimpleDomain(d);
    }
  }

  lemma SimpleLabelsHaveNoAt(ps: seq<string>)
    requires |ps| >= 1 && IsSimpleLabel(ps[0], 65) && AllSimpleLabels(ps[1..], 26)
    ensures '@' !in Join(ps, '.')
  {
    forall i | 0 <= i < |ps| ensures '@' !in ps[i] {
      if i == 0 {
        SimpleLabelHasNoAt(ps[0], 65);
      } else {
        assert ps[i] == ps[1..][i - 1];
        SimpleLabelHasNoAt(ps[i], 26);
      }
    }
    JoinAll(ps, '.', c => c != '@');
  }

  lemma SimpleLabelHasNoAt(t: string, most: int)
    requires IsSimpleLabel(t, most)
    ensures '@' !in t
  {
  }

  lemma SimpleDomainHasNoAt(d: string)
    requires IsSimpleDomain(d)
    ensures '@' !in d
  {
    SimpleDomainBySplit(d);
    SimpleLabelsHaveNoAt(Split(d, '.'));
  }

  /** EMAIL_ADDRESS has exactly one '@'; splitting at it, the address is
      accepted exactly when 1 to 256 local characters precede it and a
      simple domain follows it. */
  lemma SimpleEmailAt(s: string, p: int)
    requires 0 <= p < |s| && s[p] == '@'
    ensures IsSimpleEmail(s) <==>
      1 <= p <= 256 && All(s[..p], IsSimpleLocalChar) && IsSimpleDomain(s[p + 1..])
  {
    if IsSimpleEmail(s) {
      var q := SimpleEmailSplit(s);
      SimpleAtIsUnique(s, q, p);
      assert SimpleEmailSplitsAt(s, p);
    }
    if 1 <= p <= 256 && All(s[..p], IsSimpleLocalChar) && IsSimpleDomain(s[p + 1..]) {
      SimpleEmailFromSplit(s, p);
    }
  }

  lemma SimpleEmailSplit(s: string) returns (q: int)
    requires IsSimpleEmail(s)
    ensures SimpleEmailSplitsAt(s, q)
  {
    q :| 0 <= q < |s| && SimpleEmailSplitsAt(s, q);
  }

  lemma SimpleEmailFromSplit(s: string, p: int)
    requires 0 <= p < |s| && s[p] == '@'
    requires 1 <= p <= 256 && All(s[..p], IsSimpleLocalChar) && IsSimpleDomain(s[p + 1..])
    ensures IsSimpleEmail(s)
  {
    assert SimpleEmailSplitsAt(s, p);
  }

  lemma SimpleAtIsUnique(s: string, q: int, p: int)
    requires SimpleEmailSplitsAt(s, q)
    requires 0 <= p < |s| && s[p] == '@'
    ensures p == q
  {
    assert forall i | 0 <= i < q :: s[..q][i] != '@';
    SimpleDomainHasNoAt(s[q + 1..]);
    AtIsUnique(s, q, p);
  }
}
