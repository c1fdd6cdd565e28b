/** WEB_URL: an optional scheme with optional user information, a host name
    or IPv4 literal, an optional port and an optional path and query, matched
    against a whole string. At the end of the input the trailing word-boundary
    group always matches (its end-of-input alternative), so a whole-string
    match is the concatenation of the parts alone. */
module WebUrl {
  import opened Chars
  import opened Seqs
  import HostName
  import Ipv4

  /** Letter-case-blind equality as `(?i)` applies it without UNICODE_CASE:
      only ASCII letters fold. */
  predicate EqualsIgnoringAsciiCase(a: string, b: string) {
    |a| == |b| && forall i | 0 <= i < |a| :: ToLowerAscii(a[i]) == ToLowerAscii(b[i])
  }

  /** Lower-casing of the ASCII letters of a string: the result has no
      upper-case ASCII letter and equals the input ignoring case. */
  function LowerAscii(s: string): (r: string)
    ensures |r| == |s|
    ensures forall i | 0 <= i < |r| :: !IsAsciiUpper(r[i])
    ensures EqualsIgnoringAsciiCase(r, s)
  {
    seq(|s|, i requires 0 <= i < |s| => ToLowerAscii(s[i]))
  }

  lemma LowerAsciiIdempotent(s: string)
    ensures LowerAscii(LowerAscii(s)) == LowerAscii(s)
  {
  }

  /** Two strings are equal ignoring ASCII case exactly when their ASCII
      lower-casings are equal. */
  lemma EqualsIgnoringCaseByLower(a: string, b: string)
    ensures EqualsIgnoringAsciiCase(a, b) <==> LowerAscii(a) == LowerAscii(b)
  {
    if |a| == |b| && LowerAscii(a) == LowerAscii(b) {
      forall i | 0 <= i < |a| ensures ToLowerAscii(a[i]) == ToLowerAscii(b[i]) {
        assert LowerAscii(a)[i] == LowerAscii(b)[i];
      }
    }
  }

  /** PROTOCOL: http, https or rtsp in any letter case, then "://". */
  predicate IsProtocol(s: string) {
    && |s| >= 3
    && s[|s| - 3..] == "://"
    && var name := s[..|s| - 3];
       || EqualsIgnoringAsciiCase(name, "http")
       || EqualsIgnoringAsciiCase(name, "https")
       || EqualsIgnoringAsciiCase(name, "rtsp")
  }

  lemma EqualsIgnoringCaseLower(a: string, b: string)
    requires LowerAscii(b) == b
    ensures EqualsIgnoringAsciiCase(a, b) <==> LowerAscii(a) == b
  {
    if LowerAscii(a) == b {
      forall i | 0 <= i < |a| ensures ToLowerAscii(a[i]) == ToLowerAscii(b[i]) {
        assert LowerAscii(b)[i] == b[i];
      }
    }
  }

  lemma LowerAsciiOfSeparator(t: string)
    ensures LowerAscii(t) == "://" <==> t == "://"
  {
    if LowerAscii(t) == "://" {
      forall i | 0 <= i < 3 ensures t[i] == "://"[i] {
        assert ToLowerAscii(t[i]) == "://"[i];
      }
    }
  }

  lemma SchemeOfLower(low: string, name: string, tail: string, w: string)
    requires |tail| == 3 && low == LowerAscii(name) + LowerAscii(tail)
    ensures low == w + "://" <==> LowerAscii(name) == w && LowerAscii(tail) == "://"
  {
    if low == w + "://" {
      assert low[..|low| - 3] == w;
      assert low[..|low| - 3] == LowerAscii(name);
      assert low[|low| - 3..] == LowerAscii(tail);
    }
  }

  /** A scheme is accepted exactly when lower-casing its ASCII letters gives
      "http://", "https://" or "rtsp://". */
  lemma ProtocolByLowerCase(s: string)
    ensures IsProtocol(s) <==>
      LowerAscii(s) == "http://" || LowerAscii(s) == "https://" || LowerAscii(s) == "rtsp://"
  {
    if |s| >= 3 {
      var name, tail := s[..|s| - 3], s[|s| - 3..];
      var low := LowerAscii(s);
      assert low == LowerAscii(name) + LowerAscii(tail);
      assert low[..|s| - 3] == LowerAscii(name) && low[|s| - 3..] == LowerAscii(tail);
      assert LowerAscii("http") == "http";
      assert LowerAscii("https") == "https";
      assert LowerAscii("rtsp") == "rtsp";
      EqualsIgnoringCaseLower(name, "http");
      EqualsIgnoringCaseLower(name, "https");
      EqualsIgnoringCaseLower(name, "rtsp");
      LowerAsciiOfSeparator(tail);
      SchemeOfLower(low, name, tail, "http");
      SchemeOfLower(low, name, tail, "https");
      SchemeOfLower(low, name, tail, "rtsp");
    } else {
      assert |LowerAscii(s)| < 3;
    }
  }

  /** Changing the letter case of a scheme never changes whether it is accepted. */
  lemma ProtocolCaseInsensitive(s: string, t: string)
    requires EqualsIgnoringAsciiCase(s, t)
    ensures IsProtocol(s) <==> IsProtocol(t)
  {
    ProtocolByLowerCase(s);
    ProtocolByLowerCase(t);
    EqualsIgnoringCaseByLower(s, t);
  }

  /** The characters USER_INFO admits without escaping. */
  predicate IsUserChar(c: char) {
    || IsAsciiAlnum(c)
    || c == '$' || c == '-' || c == '_' || c == '.' || c == '+' || c == '!' || c == '*' || c == '\''
    || c == '(' || c == ')' || c == ',' || c == ';' || c == '?' || c == '&' || c == '='
  }

  /** A percent sign followed by two hexadecimal digits. */
  predicate IsEscape(t: string) {
    |t| == 3 && t[0] == '%' && IsHexDigit(t[1]) && IsHexDigit(t[2])
  }

  /** `s` is exactly `n` user-information units, each an unescaped character
      or a percent escape; the repetition bounds of USER_INFO count units. */
  predicate IsUserUnits(s: string, n: nat)
    decreases n
  {
    if n == 0 then s == []
    else
      || (|s| >= 1 && IsUserChar(s[0]) && IsUserUnits(s[1..], n - 1))
      || (|s| >= 3 && IsEscape(s[..3]) && IsUserUnits(s[3..], n - 1))
  }

  /** One to `most` user-information units. */
  predicate IsUserField(s: string, most: nat) {
    exists n | 1 <= n <= most :: IsUserUnits(s, n)
  }

  /** USER_INFO: a name of 1 to 64 units, optionally ':' and a password of 1
      to 25 units, then '@'. */
  predicate IsUserInfo(s: string) {
    && |s| >= 1
    && s[|s| - 1] == '@'
    && var body := s[..|s| - 1];
       || IsUserField(body, 64)
       || exists k | 0 <= k < |body| :: body[k] == ':' && IsUserField(body[..k], 64) && IsUserField(body[k + 1..], 25)
  }

  /** `n` units span n to 3n characters, none of them '@' or ':'. */
  lemma {:induction false} UserUnitsShape(s: string, n: nat)
    requires IsUserUnits(s, n)
    ensures n <= |s| <= 3 * n
    ensures '@' !in s && ':' !in s
    decreases n
  {
    if n > 0 {
      if |s| >= 1 && IsUserChar(s[0]) && IsUserUnits(s[1..], n - 1) {
        UserUnitsShape(s[1..], n - 1);
        assert s == [s[0]] + s[1..];
      } else {
        UserUnitsShape(s[3..], n - 1);
        assert s == s[..3] + s[3..];
      }
    }
  }

  /** The split of a string into units is unambiguous: '%' is never an
      unescaped character, so the unit count is determined by the string. */
  lemma {:induction false} UserUnitsUnique(s: string, n: nat, m: nat)
    requires IsUserUnits(s, n) && IsUserUnits(s, m)
    ensures n == m
    decreases n
  {
    if n > 0 && m > 0 {
      if s[0] == '%' {
        assert !IsUserChar(s[0]);
        UserUnitsUnique(s[3..], n - 1, m - 1);
      } else {
        UserUnitsUnique(s[1..], n - 1, m - 1);
      }
    }
  }

  /** A field of 1 to `most` units spans 1 to 3 * most characters, none of
      them '@' or ':'. */
  lemma UserFieldShape(t: string, most: nat)
    requires IsUserField(t, most)
    ensures 1 <= |t| <= 3 * most
    ensures '@' !in t && ':' !in t
  {
    var n :| 1 <= n <= most && IsUserUnits(t, n);
    UserUnitsShape(t, n);
  }

  lemma NameAndPasswordShape(body: string, k: int)
    requires 0 <= k < |body| && body[k] == ':'
    requires IsUserField(body[..k], 64) && IsUserField(body[k + 1..], 25)
    ensures 3 <= |body| <= 268
    ensures '@' !in body
  {
    UserFieldShape(body[..k], 64);
    UserFieldShape(body[k + 1..], 25);
    forall i | 0 <= i < |body| ensures body[i] != '@' {
      if i < k {
        assert body[i] == body[..k][i];
      } else if i > k {
        assert body[i] == body[k + 1..][i - k - 1];
      }
    }
  }

  /** User information ends with its only '@', and spans 2 to 64 * 3 + 1 +
      25 * 3 + 1 = 269 characters. */
  lemma UserInfoShape(s: string)
    requires IsUserInfo(s)
    ensures 2 <= |s| <= 269
    ensures s[|s| - 1] == '@'
    ensures forall i | 0 <= i < |s| - 1 :: s[i] != '@'
  {
    var body := s[..|s| - 1];
    if IsUserField(body, 64) {
      UserFieldShape(body, 64);
    } else {
      var k :| 0 <= k < |body| && body[k] == ':' && IsUserField(body[..k], 64) && IsUserField(body[k + 1..], 25);
      NameAndPasswordShape(body, k);
    }
    assert forall i | 0 <= i < |s| - 1 :: s[i] == body[i];
  }

  /** Reference reading of user-information text: every character is an
      unescaped user character or a '%' followed by two hexadecimal digits. */
  predicate IsUserEscapedText(s: string) {
    forall i | 0 <= i < |s| ::
      || IsUserChar(s[i])
      || (s[i] == '%' && i + 2 < |s| && IsHexDigit(s[i + 1]) && IsHexDigit(s[i + 2]))
  }

  /** The number of percent signs in `s`. */
  function PercentCount(s: string): nat {
    if |s| == 0 then 0 else (if s[0] == '%' then 1 else 0) + PercentCount(s[1..])
  }

  lemma HexDigitIsUserChar(c: char)
    requires IsHexDigit(c)
    ensures IsUserChar(c) && c != '%'
  {
  }

  lemma PercentCountOfEscape(s: string)
    requires |s| >= 3 && IsEscape(s[..3])
    ensures PercentCount(s) == 1 + PercentCount(s[3..])
  {
    HexDigitIsUserChar(s[1]);
    HexDigitIsUserChar(s[2]);
    assert s[1..][1..] == s[2..];
    assert s[2..][1..] == s[3..];
    assert PercentCount(s[2..]) == PercentCount(s[3..]);
    assert PercentCount(s[1..]) == PercentCount(s[2..]);
  }

  lemma {:induction false} UserUnitsAreEscapedText(s: string, n: nat)
    requires IsUserUnits(s, n)
    ensures IsUserEscapedText(s)
    ensures n == |s| - 2 * PercentCount(s)
    decreases n
  {
    if n > 0 {
      if |s| >= 1 && IsUserChar(s[0]) && IsUserUnits(s[1..], n - 1) {
        UserUnitsAreEscapedText(s[1..], n - 1);
        assert forall i | 1 <= i < |s| :: s[i] == s[1..][i - 1];
      } else {
        UserUnitsAreEscapedText(s[3..], n - 1);
        assert forall i | 3 <= i < |s| :: s[i] == s[3..][i - 3];
        HexDigitIsUserChar(s[1]);
        HexDigitIsUserChar(s[2]);
        PercentCountOfEscape(s);
      }
    }
  }

  lemma {:induction false} EscapedTextAreUserUnits(s: string)
    requires IsUserEscapedText(s)
    ensures |s| - 2 * PercentCount(s) >= 0
    ensures IsUserUnits(s, |s| - 2 * PercentCount(s))
    decreases |s|
  {
    if |s| > 0 {
      if IsUserChar(s[0]) {
        assert forall i | 0 <= i < |s| - 1 :: s[1..][i] == s[i + 1];
        EscapedTextAreUserUnits(s[1..]);
      } else {
        assert s[0] == '%' && 2 < |s|;
        assert forall i | 0 <= i < |s| - 3 :: s[3..][i] == s[i + 3];
        EscapedTextAreUserUnits(s[3..]);
        PercentCountOfEscape(s);
      }
    }
  }

  /** A string is `n` user-information units exactly when every '%' starts an
      escape, every other character is a user character, and `n` is the
      length less two for each escape. */
  lemma UserUnitsByEscapes(s: string, n: nat)
    ensures IsUserUnits(s, n) <==> IsUserEscapedText(s) && n == |s| - 2 * PercentCount(s)
  {
    if IsUserUnits(s, n) {
      UserUnitsAreEscapedText(s, n);
    }
    if IsUserEscapedText(s) && n == |s| - 2 * PercentCount(s) {
      EscapedTextAreUserUnits(s);
    }
  }

  /** A field of USER_INFO is escaped user text of 1 to `most` units. */
  lemma UserFieldByEscapes(s: string, most: nat)
    ensures IsUserField(s, most) <==>
      IsUserEscapedText(s) && 1 <= |s| - 2 * PercentCount(s) <= most
  {
    if IsUserField(s, most) {
      var n :| 1 <= n <= most && IsUserUnits(s, n);
      UserUnitsAreEscapedText(s, n);
    }
    if IsUserEscapedText(s) && 1 <= |s| - 2 * PercentCount(s) <= most {
      EscapedTextAreUserUnits(s);
      var n := |s| - 2 * PercentCount(s);
      assert 1 <= n <= most && IsUserUnits(s, n);
    }
  }

  /** The pieces of user information between its colons: a name of 1 to 64
      units, optionally followed by a password of 1 to 25 units. */
  predicate AreUserFields(ps: seq<string>) {
    && 1 <= |ps| <= 2
    && IsUserField(ps[0], 64)
    && (|ps| == 2 ==> IsUserField(ps[1], 25))
  }

  lemma NameAndPasswordBySplit(body: string, k: int)
    requires 0 <= k < |body| && body[k] == ':'
    requires IsUserField(body[..k], 64) && IsUserField(body[k + 1..], 25)
    ensures Split(body, ':') == [body[..k], body[k + 1..]]
  {
    UserFieldShape(body[..k], 64);
    UserFieldShape(body[k + 1..], 25);
    SplitAtFirst(body, ':', k);
    SplitNoSeparator(body[k + 1..], ':');
  }

  lemma NameAndPasswordFromSplit(body: string) returns (k: int)
    requires |Split(body, ':')| == 2
    ensures 0 <= k < |body| && body[k] == ':'
    ensures body[..k] == Split(body, ':')[0] && body[k + 1..] == Split(body, ':')[1]
  {
    var ps := Split(body, ':');
    SplitHead(body, ':');
    k := |ps[0]|;
    var tail := Split(body[k + 1..], ':');
    assert tail == ps[1..] == [ps[1]];
    assert Join(tail, ':') == ps[1];
  }

  /** The text before the '@' of user information is a name or a name, ':'
      and a password exactly when its colon-separated pieces are user fields. */
  lemma UserBodyBySplit(body: string)
    ensures (|| IsUserField(body, 64)
             || exists k | 0 <= k < |body| :: body[k] == ':' && IsUserField(body[..k], 64) && IsUserField(body[k + 1..], 25))
      <==> AreUserFields(Split(body, ':'))
  {
    var ps := Split(body, ':');
    if IsUserField(body, 64) {
      UserFieldShape(body, 64);
      SplitNoSeparator(body, ':');
    } else if exists k | 0 <= k < |body| :: body[k] == ':' && IsUserField(body[..k], 64) && IsUserField(body[k + 1..], 25) {
      var k :| 0 <= k < |body| && body[k] == ':' && IsUserField(body[..k], 64) && IsUserField(body[k + 1..], 25);
      NameAndPasswordBySplit(body, k);
    }
    if AreUserFields(ps) {
      if |ps| == 1 {
        assert Join(ps, ':') == ps[0];
      } else {
        var k := NameAndPasswordFromSplit(body);
      }
    }
  }

  /** USER_INFO read through the colon split: text ending in '@' whose
      remainder splits at ':' into a name of 1 to 64 units and at most one
      password of 1 to 25 units. */
  lemma UserInfoBySplit(s: string)
    ensures IsUserInfo(s) <==>
      |s| >= 1 && s[|s| - 1] == '@' && AreUserFields(Split(s[..|s| - 1], ':'))
  {
    if |s| >= 1 {
      UserBodyBySplit(s[..|s| - 1]);
    }
  }

  /** PORT_NUMBER: ':' and one to five digits, with no check of the value. */
  predicate IsPort(s: string) {
    2 <= |s| <= 6 && s[0] == ':' && forall i | 1 <= i < |s| :: IsAsciiDigit(s[i])
  }

  /** The characters PATH_AND_QUERY admits without escaping. */
  predicate IsPathChar(c: char) {
    || IsLabelChar(c)
    || c == ';' || c == '/' || c == '?' || c == ':' || c == '@' || c == '&' || c == '=' || c == '#'
    || c == '~' || c == '-' || c == '.' || c == '+' || c == '!' || c == '*' || c == '\''
    || c == '(' || c == ')' || c == ',' || c == '_' || c == '$'
  }

  /** Any number of path units, each an unescaped character or a percent escape. */
  predicate IsPathUnits(s: string)
    decreases |s|
  {
    || |s| == 0
    || (IsPathChar(s[0]) && IsPathUnits(s[1..]))
    || (|s| >= 3 && IsEscape(s[..3]) && IsPathUnits(s[3..]))
  }

  /** Reference reading of the path units: every character is a path
      character or a '%' followed by two hexadecimal digits. */
  predicate IsEscapedText(s: string) {
    forall i | 0 <= i < |s| ::
      || IsPathChar(s[i])
      || (s[i] == '%' && i + 2 < |s| && IsHexDigit(s[i + 1]) && IsHexDigit(s[i + 2]))
  }

  lemma HexDigitIsPathChar(c: char)
    requires IsHexDigit(c)
    ensures IsPathChar(c) && c != '%'
  {
  }

  lemma {:induction false} PathUnitsAreEscapedText(s: string)
    requires IsPathUnits(s)
    ensures IsEscapedText(s)
    decreases |s|
  {
    if |s| > 0 {
      if IsPathChar(s[0]) && IsPathUnits(s[1..]) {
        PathUnitsAreEscapedText(s[1..]);
        assert forall i | 1 <= i < |s| :: s[i] == s[1..][i - 1];
      } else {
        PathUnitsAreEscapedText(s[3..]);
        assert forall i | 3 <= i < |s| :: s[i] == s[3..][i - 3];
        HexDigitIsPathChar(s[1]);
        HexDigitIsPathChar(s[2]);
      }
    }
  }

  lemma {:induction false} EscapedTextArePathUnits(s: string)
    requires IsEscapedText(s)
    ensures IsPathUnits(s)
    decreases |s|
  {
    if |s| > 0 {
      if IsPathChar(s[0]) {
        assert forall i | 0 <= i < |s| - 1 :: s[1..][i] == s[i + 1];
        EscapedTextArePathUnits(s[1..]);
      } else {
        assert s[0] == '%' && 2 < |s|;
        assert forall i | 0 <= i < |s| - 3 :: s[3..][i] == s[i + 3];
        EscapedTextArePathUnits(s[3..]);
      }
    }
  }

  /** The units of a path decompose exactly when every '%' starts an escape
      and every other character is a path character. */
  lemma PathUnitsByEscapes(s: string)
    ensures IsPathUnits(s) <==> IsEscapedText(s)
  {
    if IsPathUnits(s) {
      PathUnitsAreEscapedText(s);
    }
    if IsEscapedText(s) {
      EscapedTextArePathUnits(s);
    }
  }

  /** PATH_AND_QUERY: '/' or '?', then any number of path units. */
  predicate IsPathAndQuery(s: string) {
    |s| >= 1 && (s[0] == '/' || s[0] == '?') && IsPathUnits(s[1..])
  }

  /** Nothing, a scheme, or a scheme followed by user information: user
      information is only admitted after a scheme. */
  predicate IsSchemePrefix(t: string) {
    || t == []
    || IsProtocol(t)
    || exists j | 0 < j < |t| :: IsProtocol(t[..j]) && IsUserInfo(t[j..])
  }

  /** An optional port, then an optional path and query. */
  predicate IsPortAndPath(v: string) {
    exists m | 0 <= m <= |v| :: (m == 0 || IsPort(v[..m])) && (m == |v| || IsPathAndQuery(v[m..]))
  }

  /** A host name or IPv4 literal, then an optional port and path. */
  predicate IsHostAndRest(u: string) {
    exists k | 0 < k <= |u| :: HostName.IsDomainName(u[..k]) && IsPortAndPath(u[k..])
  }

  /** WEB_URL as a whole-string match. */
  predicate IsWebUrl(s: string) {
    exists i | 0 <= i <= |s| :: IsSchemePrefix(s[..i]) && IsHostAndRest(s[i..])
  }

  /** The five parts of a URL, each possibly empty except the host. */
  predicate AreUrlParts(scheme: string, userInfo: string, host: string, port: string, path: string) {
    && (scheme == [] || IsProtocol(scheme))
    && (userInfo == [] || (scheme != [] && IsUserInfo(userInfo)))
    && HostName.IsDomainName(host)
    && (port == [] || IsPort(port))
    && (path == [] || IsPathAndQuery(path))
  }

  lemma PortAndPathFromParts(port: string, path: string)
    requires port == [] || IsPort(port)
    requires path == [] || IsPathAndQuery(path)
    ensures IsPortAndPath(port + path)
  {
    var v := port + path;
    assert v[..|port|] == port && v[|port|..] == path;
  }

  lemma HostAndRestFromParts(host: string, v: string)
    requires HostName.IsDomainName(host)
    requires IsPortAndPath(v)
    ensures IsHostAndRest(host + v)
  {
    HostName.DomainNameChars(host);
    var u := host + v;
    assert u[..|host|] == host && u[|host|..] == v;
  }

  lemma SchemePrefixFromParts(scheme: string, userInfo: string)
    requires scheme == [] || IsProtocol(scheme)
    requires userInfo == [] || (scheme != [] && IsUserInfo(userInfo))
    ensures IsSchemePrefix(scheme + userInfo)
  {
    if userInfo != [] {
      var t := scheme + userInfo;
      UserInfoShape(userInfo);
      assert t[..|scheme|] == scheme && t[|scheme|..] == userInfo;
    } else {
      assert scheme + userInfo == scheme;
    }
  }

  lemma UrlFromPrefix(prefix: string, u: string)
    requires IsSchemePrefix(prefix)
    requires IsHostAndRest(u)
    ensures IsWebUrl(prefix + u)
  {
    var s := prefix + u;
    assert s[..|prefix|] == prefix && s[|prefix|..] == u;
  }

  /** Every combination of parts is a URL: the scheme, the user information
      after a scheme, the port and the path are each optional. */
  lemma WebUrlFromParts(scheme: string, userInfo: string, host: string, port: string, path: string)
    requires AreUrlParts(scheme, userInfo, host, port, path)
    ensures IsWebUrl(scheme + userInfo + host + port + path)
  {
    GroupParts(scheme, userInfo, host, port, path);
    PortAndPathFromParts(port, path);
    HostAndRestFromParts(host, port + path);
    SchemePrefixFromParts(scheme, userInfo);
    UrlFromPrefix(scheme + userInfo, host + (port + path));
  }

  /** Regrouping of the five parts, kept out of the part lemmas to keep
      their proofs small. */
  lemma GroupParts(a: string, b: string, c: string, d: string, e: string)
    ensures a + b + c + d + e == (a + b) + (c + (d + e))
  {
  }

  /** Flattening of a nested concatenation, kept out of the part lemmas to
      keep their proofs small. */
  lemma ConcatParts(s: string, t: string, u: string, a: string, b: string, c: string, d: string, e: string)
    requires s == t + u && t == a + b && u == c + d + e
    ensures s == a + b + c + d + e
  {
  }

  lemma SchemePrefixToParts(t: string) returns (scheme: string, userInfo: string)
    requires IsSchemePrefix(t)
    ensures scheme == [] || IsProtocol(scheme)
    ensures userInfo == [] || (scheme != [] && IsUserInfo(userInfo))
    ensures t == scheme + userInfo
  {
    if t == [] || IsProtocol(t) {
      scheme, userInfo := t, [];
    } else {
      var j :| 0 < j < |t| && IsProtocol(t[..j]) && IsUserInfo(t[j..]);
      scheme, userInfo := SplitAtUserInfo(t, j);
    }
  }

  lemma SplitAtUserInfo(t: string, j: int) returns (scheme: string, userInfo: string)
    requires 0 < j < |t| && IsProtocol(t[..j]) && IsUserInfo(t[j..])
    ensures scheme != [] && IsProtocol(scheme) && IsUserInfo(userInfo)
    ensures t == scheme + userInfo
  {
    scheme, userInfo := t[..j], t[j..];
    assert t == scheme + userInfo;
  }

  lemma PortAndPathToParts(v: string) returns (port: string, path: string)
    requires IsPortAndPath(v)
    ensures port == [] || IsPort(port)
    ensures path == [] || IsPathAndQuery(path)
    ensures v == port + path
  {
    var m :| 0 <= m <= |v| && (m == 0 || IsPort(v[..m])) && (m == |v| || IsPathAndQuery(v[m..]));
    port, path := v[..m], v[m..];
    assert v == port + path;
  }

  /** A slice point and the split of the remainder give three pieces; a lemma
      of its own so the caller's context stays free of slice reasoning. */
  lemma SplitInThree(u: string, k: int, port: string, path: string)
    requires 0 <= k <= |u| && u[k..] == port + path
    ensures u == u[..k] + port + path
  {
    assert u == u[..k] + u[k..];
  }

  lemma HostAndRestToParts(u: string) returns (host: string, port: string, path: string)
    requires IsHostAndRest(u)
    ensures HostName.IsDomainName(host)
    ensures port == [] || IsPort(port)
    ensures path == [] || IsPathAndQuery(path)
    ensures u == host + port + path
  {
    var k :| 0 < k <= |u| && HostName.IsDomainName(u[..k]) && IsPortAndPath(u[k..]);
    host := u[..k];
    port, path := PortAndPathToParts(u[k..]);
    SplitInThree(u, k, port, path);
  }

  lemma PrefixAndRestToParts(t: string, u: string) returns (scheme: string, userInfo: string, host: string, port: string, path: string)
    requires IsSchemePrefix(t) && IsHostAndRest(u)
    ensures AreUrlParts(scheme, userInfo, host, port, path)
    ensures t == scheme + userInfo && u == host + port + path
  {
    scheme, userInfo := SchemePrefixToParts(t);
    host, port, path := HostAndRestToParts(u);
  }

  lemma UrlToPartsAt(s: string, i: int) returns (scheme: string, userInfo: string, host: string, port: string, path: string)
    requires 0 <= i <= |s| && IsSchemePrefix(s[..i]) && IsHostAndRest(s[i..])
    ensures AreUrlParts(scheme, userInfo, host, port, path)
    ensures s == scheme + userInfo + host + port + path
  {
    var t, u := s[..i], s[i..];
    assert s == t + u;
    scheme, userInfo, host, port, path := PrefixAndRestToParts(t, u);
    ConcatParts(s, t, u, scheme, userInfo, host, port, path);
  }

  /** Every URL splits into parts; with WebUrlFromParts, the URLs are exactly
      the concatenations of parts. */
  lemma WebUrlToParts(s: string) returns (scheme: string, userInfo: string, host: string, port: string, path: string)
    requires IsWebUrl(s)
    ensures AreUrlParts(scheme, userInfo, host, port, path)
    ensures s == scheme + userInfo + host + port + path
  {
    var i :| 0 <= i <= |s| && IsSchemePrefix(s[..i]) && IsHostAndRest(s[i..]);
    scheme, userInfo, host, port, path := UrlToPartsAt(s, i);
  }

  /** The start of `s` is an accepted scheme. */
  predicate StartsWithProtocol(s: string) {
    exists k | 0 < k <= |s| :: IsProtocol(s[..k])
  }

  lemma AtSignsAfterPathStart(s: string, host: string, port: string, path: string)
    requires s == host + port + path
    requires All(host, HostName.IsHostChar)
    requires port == [] || IsPort(port)
    requires path == [] || IsPathAndQuery(path)
    ensures forall i | 0 <= i < |s| && s[i] == '@' :: exists j | 0 <= j < i :: s[j] == '/' || s[j] == '?'
  {
    var j := |host| + |port|;
    forall i | 0 <= i < |host| ensures s[i] != '@' {
      assert s[i] == host[i] && HostName.IsHostChar(host[i]);
    }
    forall i | |host| <= i < j ensures s[i] != '@' {
      assert s[i] == port[i - |host|];
    }
    forall i | 0 <= i < |s| && s[i] == '@' ensures exists j | 0 <= j < i :: s[j] == '/' || s[j] == '?' {
      assert s[j] == path[0];
    }
  }

  lemma LeadingScheme(s: string, scheme: string, rest: string)
    requires s == scheme + rest
    requires scheme == [] || IsProtocol(scheme)
    ensures scheme == [] || StartsWithProtocol(s)
  {
    if scheme != [] {
      assert s[..|scheme|] == scheme;
    }
  }

  lemma SchemeOfParts(s: string, scheme: string, userInfo: string, host: string, port: string, path: string)
    requires scheme == [] || IsProtocol(scheme)
    requires s == scheme + userInfo + host + port + path
    ensures scheme == [] || StartsWithProtocol(s)
  {
    assert s == scheme + (userInfo + host + port + path);
    LeadingScheme(s, scheme, userInfo + host + port + path);
  }

  /** Empty scheme and user information drop out of the concatenation; a
      lemma of its own so the caller's context stays free of it. */
  lemma DropEmptyParts(s: string, scheme: string, userInfo: string, host: string, port: string, path: string)
    requires scheme == [] && userInfo == []
    requires s == scheme + userInfo + host + port + path
    ensures s == host + port + path
  {
  }

  /** User information needs a scheme: in a URL that does not start with one,
      every '@' comes after a '/' or '?' that opens the path. */
  lemma NoUserInfoWithoutScheme(s: string)
    requires IsWebUrl(s)
    requires !StartsWithProtocol(s)
    ensures forall i | 0 <= i < |s| && s[i] == '@' :: exists j | 0 <= j < i :: s[j] == '/' || s[j] == '?'
  {
    var scheme, userInfo, host, port, path := WebUrlToParts(s);
    SchemeOfParts(s, scheme, userInfo, host, port, path);
    DropEmptyParts(s, scheme, userInfo, host, port, path);
    HostName.DomainNameChars(host);
    AtSignsAfterPathStart(s, host, port, path);
  }

  /** A port of one to five digits. */
  lemma DigitsArePort(digits: string)
    requires 1 <= |digits| <= 5 && All(digits, IsAsciiDigit)
    ensures IsPort(":" + digits)
  {
    var port := ":" + digits;
    assert forall i | 1 <= i < |port| :: port[i] == digits[i - 1];
  }

  /** Any one to five digits are accepted as a port, 99999 included: the
      grammar does not bound the value by 65535. */
  lemma AnyFiveDigitPort(scheme: string, host: string, digits: string)
    requires scheme == [] || IsProtocol(scheme)
    requires HostName.IsDomainName(host)
    requires 1 <= |digits| <= 5 && All(digits, IsAsciiDigit)
    ensures IsWebUrl(scheme + host + ":" + digits)
  {
    DigitsArePort(digits);
    var s := scheme + host + ":" + digits;
    assert s == scheme + [] + host + (":" + digits) + [];
    WebUrlFromParts(scheme, [], host, ":" + digits, []);
  }

  lemma HttpIsProtocol()
    ensures IsProtocol("http://")
  {
    var s := "http://";
    assert s[..4] == "http";
    assert s[4..] == "://";
  }

  /** "http://" followed by a dotted quad whose first octet is not 0 is a URL. */
  lemma IpUrl(a: int, b: int, c: int, d: int)
    requires 1 <= a <= 255 && 0 <= b <= 255 && 0 <= c <= 255 && 0 <= d <= 255
    ensures IsWebUrl("http://" + Ipv4.DottedQuad(a, b, c, d))
  {
    var quad := Ipv4.DottedQuad(a, b, c, d);
    assert "http://" + quad == "http://" + [] + quad + [] + [];
    Ipv4.DottedQuadAccepted(a, b, c, d);
    HttpIsProtocol();
    WebUrlFromParts("http://", [], quad, [], []);
  }
}
