/**
 * The two pieces of Go's `strings` package that the generator relies on:
 * `strings.Split` with a one-character separator and `strings.Join` with an
 * empty separator.
 */
module Strings {

  /** `strings.Split(s, string(sep))`: the pieces between the separators, in order. */
  function Split(s: string, sep: char): (parts: seq<string>)
    ensures |parts| >= 1
  {
    if s == [] then [""]
    else
      var rest := Split(s[1..], sep);
      if s[0] == sep then [""] + rest
      else [[s[0]] + rest[0]] + rest[1..]
  }

  /**
   * No piece contains the separator; there is one piece, the string itself,
   * when the separator is absent, and at least two when it is present.
   */
  lemma {:induction false} SplitPieces(s: string, sep: char)
    ensures var parts := Split(s, sep);
      && (forall i :: 0 <= i < |parts| ==> sep !in parts[i])
      && (sep !in s ==> parts == [s])
      && (sep in s ==> |parts| >= 2)
  {
    if s != [] {
      SplitPieces(s[1..], sep);
      var rest := Split(s[1..], sep);
      var parts := Split(s, sep);
      assert s == [s[0]] + s[1..];
      if s[0] != sep {
        assert parts[0] == [s[0]] + rest[0];
        forall i | 0 < i < |parts|
          ensures sep !in parts[i]
        {
          assert parts[i] == rest[i];
        }
      } else {
        forall i | 0 < i < |parts|
          ensures sep !in parts[i]
        {
          assert parts[i] == rest[i - 1];
        }
      }
    }
  }

  /** The last piece of `Split(s, sep)`: `p[len(p)-1]` in Go. */
  function LastPiece(s: string, sep: char): (r: string)
  {
    var parts := Split(s, sep);
    parts[|parts| - 1]
  }

  /** `strings.Join(parts, "")`. */
  function Concat(parts: seq<string>): (r: string)
  {
    if parts == [] then "" else parts[0] + Concat(parts[1..])
  }

  /**
   * The last piece is the text after the last separator: a suffix of `s` free
   * of `sep` that is either all of `s` or preceded by `sep`.
   */
  lemma {:induction false} LastPieceIsTail(s: string, sep: char)
    ensures var r := LastPiece(s, sep);
      && sep !in r
      && |r| <= |s|
      && s[|s| - |r|..] == r
      && (|r| < |s| ==> s[|s| - |r| - 1] == sep)
  {
    if s != [] {
      var tail := s[1..];
      assert s == [s[0]] + tail;
      LastPieceCons(s[0], tail, sep);
      LastPieceIsTail(tail, sep);
      SplitPieces(tail, sep);
      if s[0] != sep && |Split(tail, sep)| == 1 {
        assert s[0..] == s;
      } else {
        var r := LastPiece(tail, sep);
        assert s[|s| - |r|..] == tail[|tail| - |r|..];
      }
    }
  }

  /** The last piece of a string, in terms of its first character and the rest. */
  lemma LastPieceCons(c: char, t: string, sep: char)
    ensures LastPiece([c] + t, sep) == if c != sep && |Split(t, sep)| == 1 then [c] + t else LastPiece(t, sep)
  {
    SplitCons(c, t, sep);
    SplitPieces(t, sep);
  }

  /** `Split` of a string, in terms of its first character and the split of the rest. */
  lemma SplitCons(c: char, t: string, sep: char)
    ensures var rest := Split(t, sep);
      Split([c] + t, sep) == if c == sep then [""] + rest else [[c] + rest[0]] + rest[1..]
  {
    var s := [c] + t;
    assert s[0] == c && s[1..] == t;
  }

  /** Splitting at a separator that is present splits the two sides independently. */
  lemma {:induction false} SplitAround(a: string, sep: char, b: string)
    ensures Split(a + [sep] + b, sep) == Split(a, sep) + Split(b, sep)
  {
    if a == [] {
      assert a + [sep] + b == [sep] + b;
      SplitCons(sep, b, sep);
    } else {
      var t := a[1..];
      SplitAround(t, sep, b);
      SplitAroundCons(a[0], t, sep, b);
      assert a == [a[0]] + t;
      assert a + [sep] + b == [a[0]] + (t + [sep] + b);
    }
  }

  /** The step of `SplitAround`: one more character in front of the separator. */
  lemma SplitAroundCons(c: char, t: string, sep: char, b: string)
    requires Split(t + [sep] + b, sep) == Split(t, sep) + Split(b, sep)
    ensures Split([c] + (t + [sep] + b), sep) == Split([c] + t, sep) + Split(b, sep)
  {
    SplitCons(c, t + [sep] + b, sep);
    SplitCons(c, t, sep);
    JoinFirst(c, sep, Split(t, sep), Split(b, sep));
  }

  /** The two shapes of `SplitCons` commute with appending more pieces. */
  lemma JoinFirst(c: char, sep: char, x: seq<string>, y: seq<string>)
    requires x != []
    ensures (if c == sep then [""] + (x + y) else [[c] + (x + y)[0]] + (x + y)[1..])
         == (if c == sep then [""] + x else [[c] + x[0]] + x[1..]) + y
  {
    if c == sep {
      assert [""] + (x + y) == ([""] + x) + y;
    } else {
      assert (x + y)[0] == x[0];
      assert (x + y)[1..] == x[1..] + y;
    }
  }

  /** Whatever comes before the last separator, the last piece is what follows it. */
  lemma LastPieceAfterSeparator(a: string, sep: char, b: string)
    requires sep !in b
    ensures LastPiece(a + [sep] + b, sep) == b
  {
    SplitAround(a, sep, b);
    SplitPieces(b, sep);
  }
}
