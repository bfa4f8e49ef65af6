/**
 * The JavaScript string primitives the dashboard script relies on:
 * `String.prototype.split` with a one-character separator,
 * `String.prototype.trim`, and the relational `>` on strings.
 */
module Strings {

  /** The code points `String.prototype.trim` removes: ECMAScript WhiteSpace and LineTerminator. */
  predicate IsWhitespace(c: char) {
    || c == ' ' || c == '\t' || c == '\n' || c == '\r'
    || c == '\U{000B}' || c == '\U{000C}' || c == '\U{00A0}' || c == '\U{FEFF}'
    || c == '\U{1680}' || ('\U{2000}' <= c <= '\U{200A}')
    || c == '\U{2028}' || c == '\U{2029}' || c == '\U{202F}' || c == '\U{205F}' || c == '\U{3000}'
  }

  /**
   * `s.split(sep)`: the maximal pieces of `s` between occurrences of `sep`.
   * There is always at least one piece; the empty string splits into `[""]`.
   */
  function Split(s: string, sep: char): (pieces: seq<string>)
    ensures |pieces| >= 1
    ensures forall i :: 0 <= i < |pieces| ==> sep !in pieces[i]
    ensures Join(pieces, sep) == s
  {
    if s == [] then [[]]
    else
      var rest := Split(s[1..], sep);
      if s[0] == sep then [[]] + rest
      else [[s[0]] + rest[0]] + rest[1..]
  }

  /** `pieces.join(sep)`, the inverse of `Split`. */
  function Join(pieces: seq<string>, sep: char): string
    requires |pieces| >= 1
    decreases |pieces|
  {
    if |pieces| == 1 then pieces[0] else pieces[0] + [sep] + Join(pieces[1..], sep)
  }

  /** Splitting text that holds no separator gives the text back as the only piece. */
  lemma {:induction false} SplitNoSeparator(s: string, sep: char)
    requires sep !in s
    ensures Split(s, sep) == [s]
  {
    if s != [] {
      SplitNoSeparator(s[1..], sep);
    }
  }

  /** A separator-free prefix followed by a separator becomes the first piece. */
  lemma {:induction false} SplitAfterPiece(p: string, sep: char, t: string)
    requires sep !in p
    ensures Split(p + [sep] + t, sep) == [p] + Split(t, sep)
  {
    if p == [] {
      assert p + [sep] + t == [sep] + t;
      assert ([sep] + t)[1..] == t;
    } else {
      var s := p + [sep] + t;
      assert s[1..] == p[1..] + [sep] + t;
      SplitAfterPiece(p[1..], sep, t);
      var rest := Split(s[1..], sep);
      assert rest[0] == p[1..] && rest[1..] == Split(t, sep);
      assert [s[0]] + rest[0] == p;
    }
  }

  /** Round trip: pieces without the separator are recovered by splitting their join. */
  lemma {:induction false} SplitJoin(pieces: seq<string>, sep: char)
    requires |pieces| >= 1
    requires forall i :: 0 <= i < |pieces| ==> sep !in pieces[i]
    ensures Split(Join(pieces, sep), sep) == pieces
  {
    if |pieces| == 1 {
      SplitNoSeparator(pieces[0], sep);
    } else {
      SplitJoin(pieces[1..], sep);
      SplitAfterPiece(pieces[0], sep, Join(pieces[1..], sep));
      assert [pieces[0]] + pieces[1..] == pieces;
    }
  }

  /** There is one piece more than there are separators. */
  lemma {:induction false} SplitCount(s: string, sep: char)
    ensures |Split(s, sep)| == multiset(s)[sep] + 1
  {
    if s != [] {
      SplitCount(s[1..], sep);
      assert s == [s[0]] + s[1..];
      assert multiset(s) == multiset([s[0]]) + multiset(s[1..]);
    }
  }

  /** A separator at the very end adds one empty last piece. */
  lemma {:induction false} SplitTrailingSeparator(s: string, sep: char)
    ensures Split(s + [sep], sep) == Split(s, sep) + [[]]
  {
    if s == [] {
      assert ([sep])[1..] == [];
    } else {
      assert (s + [sep])[1..] == s[1..] + [sep];
      SplitTrailingSeparator(s[1..], sep);
      var rest := Split(s[1..], sep);
      assert Split(s[1..] + [sep], sep) == rest + [[]];
      assert (rest + [[]])[0] == rest[0] && (rest + [[]])[1..] == rest[1..] + [[]];
    }
  }

  /** The first piece is the prefix of `s` before its first separator. */
  lemma {:induction false} SplitFirstPiece(s: string, sep: char)
    ensures var p := Split(s, sep)[0];
      p == s[..|p|] && (|p| < |s| ==> s[|p|] == sep)
  {
    if s != [] && s[0] != sep {
      SplitFirstPiece(s[1..], sep);
    }
  }

  /** The last piece is the suffix of `s` after its last separator. */
  lemma SplitLastPiece(s: string, sep: char)
    ensures var ps := Split(s, sep); var p := ps[|ps| - 1];
      |p| <= |s| && p == s[|s| - |p|..] && (|p| < |s| ==> s[|s| - |p| - 1] == sep)
  {
    var ps := Split(s, sep);
    if |ps| > 1 {
      JoinLast(ps, sep);
    }
  }

  /** Joining ends with the separator and the last piece. */
  lemma {:induction false} JoinLast(ps: seq<string>, sep: char)
    requires |ps| >= 2
    ensures Join(ps, sep) == Join(ps[..|ps| - 1], sep) + [sep] + ps[|ps| - 1]
  {
    if |ps| > 2 {
      JoinLast(ps[1..], sep);
      assert ps[1..][..|ps| - 2] == ps[..|ps| - 1][1..];
    }
  }

  /** `s.trimStart()`: drops the leading whitespace. */
  function TrimStart(s: string): string {
    if s != [] && IsWhitespace(s[0]) then TrimStart(s[1..]) else s
  }

  /** `s.trimEnd()`: drops the trailing whitespace. */
  function TrimEnd(s: string): string {
    if s != [] && IsWhitespace(s[|s| - 1]) then TrimEnd(s[..|s| - 1]) else s
  }

  /** `s.trim()`. */
  function Trim(s: string): string {
    TrimEnd(TrimStart(s))
  }

  /** `TrimStart` removes exactly the leading run of whitespace. */
  lemma {:induction false} TrimStartSpec(s: string)
    ensures var r := TrimStart(s);
      && |r| <= |s| && r == s[|s| - |r|..]
      && (forall i :: 0 <= i < |s| - |r| ==> IsWhitespace(s[i]))
      && (r == [] || !IsWhitespace(r[0]))
  {
    if s != [] && IsWhitespace(s[0]) {
      TrimStartSpec(s[1..]);
      var r := TrimStart(s[1..]);
      assert s[1..][|s| - 1 - |r|..] == s[|s| - |r|..];
      forall i | 1 <= i < |s| - |r|
        ensures IsWhitespace(s[i])
      {
        assert s[i] == s[1..][i - 1];
      }
    }
  }

  /** `TrimEnd` removes exactly the trailing run of whitespace. */
  lemma {:induction false} TrimEndSpec(s: string)
    ensures var r := TrimEnd(s);
      && |r| <= |s| && r == s[..|r|]
      && (forall i :: |r| <= i < |s| ==> IsWhitespace(s[i]))
      && (r == [] || !IsWhitespace(r[|r| - 1]))
  {
    if s != [] && IsWhitespace(s[|s| - 1]) {
      TrimEndSpec(s[..|s| - 1]);
    }
  }

  /**
   * `Trim(s)` is the factor of `s` starting at `start`: everything before and
   * after it is whitespace, and it neither starts nor ends with whitespace.
   */
  lemma TrimFactor(s: string) returns (start: nat)
    ensures var r := Trim(s);
      && start + |r| <= |s| && r == s[start..start + |r|]
      && (forall i :: 0 <= i < start ==> IsWhitespace(s[i]))
      && (forall i :: start + |r| <= i < |s| ==> IsWhitespace(s[i]))
      && (r == [] || (!IsWhitespace(r[0]) && !IsWhitespace(r[|r| - 1])))
  {
    var t := TrimStart(s);
    TrimStartSpec(s);
    TrimEndSpec(t);
    start := |s| - |t|;
    var r := Trim(s);
    assert r == t[..|r|];
    forall i | start + |r| <= i < |s|
      ensures IsWhitespace(s[i])
    {
      assert s[i] == t[i - start];
    }
  }

  /** Text with no whitespace at either end is left as it is. */
  lemma TrimUnchanged(s: string)
    requires s == [] || (!IsWhitespace(s[0]) && !IsWhitespace(s[|s| - 1]))
    ensures Trim(s) == s
  {
    if s != [] {
      assert TrimStart(s) == s;
    }
  }

  /** Trimming twice is trimming once. */
  lemma TrimIdempotent(s: string)
    ensures Trim(Trim(s)) == Trim(s)
  {
    var _ := TrimFactor(s);
    TrimUnchanged(Trim(s));
  }

  /**
   * `a < b` on JavaScript strings: lexicographic order, character by character,
   * where a proper prefix comes first.
   */
  predicate LexLess(a: string, b: string) {
    if a == [] then b != []
    else if b == [] then false
    else a[0] < b[0] || (a[0] == b[0] && LexLess(a[1..], b[1..]))
  }

  lemma {:induction false} LexLessIrreflexive(a: string)
    ensures !LexLess(a, a)
  {
    if a != [] {
      LexLessIrreflexive(a[1..]);
    }
  }

  lemma {:induction false} LexLessTransitive(a: string, b: string, c: string)
    requires LexLess(a, b) && LexLess(b, c)
    ensures LexLess(a, c)
  {
    if a != [] && a[0] == b[0] && b[0] == c[0] {
      LexLessTransitive(a[1..], b[1..], c[1..]);
    }
  }

  /** Any two different strings are ordered one way or the other. */
  lemma {:induction false} LexLessTotal(a: string, b: string)
    requires a != b
    ensures LexLess(a, b) || LexLess(b, a)
  {
    if a != [] && b != [] && a[0] == b[0] {
      assert a == [a[0]] + a[1..] && b == [b[0]] + b[1..];
      LexLessTotal(a[1..], b[1..]);
    }
  }

  /**
   * The order as usually defined: `a` is a proper prefix of `b`, or at the first
   * position where they differ `a` has the smaller character.
   */
  lemma LexLessFirstDifference(a: string, b: string)
    ensures LexLess(a, b) <==>
      (|a| < |b| && a == b[..|a|]) ||
      (exists k :: 0 <= k < |a| && k < |b| && a[..k] == b[..k] && a[k] < b[k])
  {
    if LexLess(a, b) {
      LexLessWitness(a, b);
    }
    if |a| < |b| && a == b[..|a|] {
      PrefixLexLess(a, b);
    }
    if exists k :: 0 <= k < |a| && k < |b| && a[..k] == b[..k] && a[k] < b[k] {
      var k :| 0 <= k < |a| && k < |b| && a[..k] == b[..k] && a[k] < b[k];
      DifferenceLexLess(a, b, k);
    }
  }

  lemma {:induction false} LexLessWitness(a: string, b: string)
    requires LexLess(a, b)
    ensures (|a| < |b| && a == b[..|a|]) ||
      (exists k :: 0 <= k < |a| && k < |b| && a[..k] == b[..k] && a[k] < b[k])
  {
    if a == [] {
      assert a == b[..0];
    } else if a[0] < b[0] {
      assert a[..0] == b[..0];
    } else {
      LexLessWitness(a[1..], b[1..]);
      if |a| - 1 < |b| - 1 && a[1..] == b[1..][..|a| - 1] {
        assert a == [a[0]] + a[1..] && b[..|a|] == [b[0]] + b[1..][..|a| - 1];
      } else {
        var k :| 0 <= k < |a| - 1 && k < |b| - 1 && a[1..][..k] == b[1..][..k] && a[1..][k] < b[1..][k];
        assert a[..k + 1] == [a[0]] + a[1..][..k];
        assert b[..k + 1] == [b[0]] + b[1..][..k];
      }
    }
  }

  lemma {:induction false} PrefixLexLess(a: string, b: string)
    requires |a| < |b| && a == b[..|a|]
    ensures LexLess(a, b)
  {
    if a != [] {
      assert a[1..] == b[1..][..|a| - 1];
      PrefixLexLess(a[1..], b[1..]);
    }
  }

  lemma {:induction false} DifferenceLexLess(a: string, b: string, k: nat)
    requires k < |a| && k < |b| && a[..k] == b[..k] && a[k] < b[k]
    ensures LexLess(a, b)
  {
    if k > 0 {
      assert a[0] == a[..k][0] && b[0] == b[..k][0];
      assert a[1..][..k - 1] == a[..k][1..] && b[1..][..k - 1] == b[..k][1..];
      DifferenceLexLess(a[1..], b[1..], k - 1);
    }
  }
}
