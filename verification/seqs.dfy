/** Splitting a string at every occurrence of a separator, and joining the
    pieces back. The dotted grammars (IPv4 literals, host names, the simple
    email domain) are characterised through these: their components never
    contain the separator, so a match decomposes uniquely at the dots. */
module Seqs {

  /** The pieces of `parts` with `sep` between consecutive ones. */
  function Join(parts: seq<string>, sep: char): string
    requires |parts| >= 1
  {
    if |parts| == 1 then parts[0] else parts[0] + [sep] + Join(parts[1..], sep)
  }

  predicate NoSeparator(parts: seq<string>, sep: char) {
    forall i | 0 <= i < |parts| :: sep !in parts[i]
  }

  /** The maximal separator-free pieces of `s`, left to right, some possibly
      empty; joining them back gives `s`. */
  function Split(s: string, sep: char): (parts: seq<string>)
    ensures |parts| >= 1
    ensures NoSeparator(parts, sep)
    ensures Join(parts, sep) == s
  {
    if |s| == 0 then [[]]
    else
      var rest := Split(s[1..], sep);
      assert s == [s[0]] + s[1..];
      if s[0] == sep then
        assert ([[]] + rest)[1..] == rest;
        [[]] + rest
      else
        var r := [[s[0]] + rest[0]] + rest[1..];
        assert r[1..] == rest[1..];
        r
  }

  /** A separator-free string is its own single piece. */
  lemma {:induction false} SplitNoSeparator(a: string, sep: char)
    requires sep !in a
    ensures Split(a, sep) == [a]
  {
    if |a| > 0 {
      SplitNoSeparator(a[1..], sep);
      assert a == [a[0]] + a[1..];
    }
  }

  /** Splitting after a separator-free prefix and one separator. */
  lemma {:induction false} SplitAfterPiece(a: string, sep: char, b: string)
    requires sep !in a
    ensures Split(a + [sep] + b, sep) == [a] + Split(b, sep)
  {
    if |a| == 0 {
      assert a + [sep] + b == [sep] + b;
      assert ([sep] + b)[1..] == b;
    } else {
      var s := a + [sep] + b;
      assert s[1..] == a[1..] + [sep] + b;
      assert s[0] == a[0] && a[0] != sep;
      SplitAfterPiece(a[1..], sep, b);
      var rest := Split(s[1..], sep);
      assert rest == [a[1..]] + Split(b, sep);
      assert Split(s, sep) == [[a[0]] + rest[0]] + rest[1..];
      assert [a[0]] + a[1..] == a;
    }
  }

  /** Splitting at a separator that no earlier position holds. */
  lemma SplitAtFirst(s: string, sep: char, k: int)
    requires 0 <= k < |s| && s[k] == sep && sep !in s[..k]
    ensures Split(s, sep) == [s[..k]] + Split(s[k + 1..], sep)
  {
    assert s == s[..k] + [sep] + s[k + 1..];
    SplitAfterPiece(s[..k], sep, s[k + 1..]);
  }

  /** Join and Split are inverse on separator-free pieces. */
  lemma {:induction false} SplitJoin(parts: seq<string>, sep: char)
    requires |parts| >= 1
    requires NoSeparator(parts, sep)
    ensures Split(Join(parts, sep), sep) == parts
  {
    if |parts| == 1 {
      SplitNoSeparator(parts[0], sep);
    } else {
      assert sep !in parts[0];
      SplitJoin(parts[1..], sep);
      SplitAfterPiece(parts[0], sep, Join(parts[1..], sep));
      assert [parts[0]] + parts[1..] == parts;
    }
  }

  /** The first piece of a string with a separator ends right before the first
      separator, and the rest of the pieces split what follows it. */
  lemma SplitHead(s: string, sep: char)
    requires |Split(s, sep)| >= 2
    ensures var ps := Split(s, sep);
      && |ps[0]| < |s|
      && s[..|ps[0]|] == ps[0]
      && s[|ps[0]|] == sep
      && Split(s[|ps[0]| + 1..], sep) == ps[1..]
  {
    var ps := Split(s, sep);
    var tail := Join(ps[1..], sep);
    assert s == ps[0] + [sep] + tail;
    assert s[..|ps[0]|] == ps[0];
    assert s[|ps[0]| + 1..] == tail;
    SplitJoin(ps[1..], sep);
  }

  /** A property every piece and the separator have holds of every character of the join. */
  lemma {:induction false} JoinAll(parts: seq<string>, sep: char, p: char -> bool)
    requires |parts| >= 1
    requires p(sep)
    requires forall i, j | 0 <= i < |parts| && 0 <= j < |parts[i]| :: p(parts[i][j])
    ensures forall j | 0 <= j < |Join(parts, sep)| :: p(Join(parts, sep)[j])
  {
    if |parts| > 1 {
      JoinAll(parts[1..], sep, p);
      var tail := Join(parts[1..], sep);
      var s := Join(parts, sep);
      assert s == parts[0] + [sep] + tail;
      forall j | 0 <= j < |s| ensures p(s[j]) {
        if j < |parts[0]| {
          assert s[j] == parts[0][j];
        } else if j > |parts[0]| {
          assert s[j] == tail[j - |parts[0]| - 1];
        }
      }
    }
  }
}
