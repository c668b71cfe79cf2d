/**
 * Identifier spelling in generator.go: `removePkg`, `upperCaseFirst` and
 * `camelCase`. Case mapping is restricted to ASCII letters.
 */
module Naming {
  import opened Options
  import opened Strings

  /** `removePkg`: the text after the last `.` of a qualified type name. */
  function RemovePkg(s: string): (r: string)
    ensures '.' !in r
    ensures |r| <= |s| && s[|s| - |r|..] == r
    ensures |r| < |s| ==> s[|s| - |r| - 1] == '.'
  {
    LastPieceIsTail(s, '.');
    LastPiece(s, '.')
  }

  /** `strings.ToUpper` on one ASCII character. */
  function UpperAscii(c: char): (u: char)
    ensures 'a' <= c <= 'z' ==> 'A' <= u <= 'Z' && u as int == c as int - 32
    ensures !('a' <= c <= 'z') ==> u == c
  {
    if 'a' <= c <= 'z' then (c as int - 32) as char else c
  }

  /**
   * `upperCaseFirst`: the first character upper-cased, the rest kept. Go
   * panics on the empty string (`s[0:1]` is out of range), hence the
   * precondition.
   */
  function UpperCaseFirst(s: string): (r: string)
    requires |s| >= 1
    ensures |r| == |s| && r[0] == UpperAscii(s[0])
    ensures forall k :: 1 <= k < |s| ==> r[k] == s[k]
  {
    [UpperAscii(s[0])] + s[1..]
  }

  /**
   * Reference meaning of `camelCase`, one character at a time: every `_` is
   * dropped and the character after it is upper-cased. `None` stands for the
   * Go panic that `camelCase` raises when a piece after the first is empty
   * (an `_` at the end or directly before another `_`).
   */
  function CamelName(s: string, capitalizeNext: bool): (r: Option<string>)
  {
    if s == [] then (if capitalizeNext then None else Some(""))
    else if s[0] == '_' then (if capitalizeNext then None else CamelName(s[1..], true))
    else
      match CamelName(s[1..], false)
      case None => None
      case Some(t) => Some([if capitalizeNext then UpperAscii(s[0]) else s[0]] + t)
  }

  /**
   * What the loop of `camelCase` followed by `strings.Join` produces from the
   * pieces, the first one kept when `first` holds; `None` where `p[0:1]`
   * panics on an empty piece.
   */
  function JoinCapitalized(parts: seq<string>, first: bool): (r: Option<string>)
  {
    if parts == [] then Some("")
    else if !first && parts[0] == "" then None
    else
      var head := if first then parts[0] else UpperCaseFirst(parts[0]);
      match JoinCapitalized(parts[1..], false)
      case None => None
      case Some(t) => Some(head + t)
  }

  /** Splitting at `_` and capitalizing the pieces is the character-wise rule. */
  lemma {:induction false} CamelNameBySplit(s: string, capitalizeNext: bool)
    ensures CamelName(s, capitalizeNext) == JoinCapitalized(Split(s, '_'), !capitalizeNext)
  {
    if s == [] {
      assert Split(s, '_') == [""] + [];
      JoinCapitalizedCons("", [], !capitalizeNext);
      assert "" + "" == "";
    } else {
      var c, t := s[0], s[1..];
      assert s == [c] + t;
      SplitCons(c, t, '_');
      CamelNameCons(c, t, capitalizeNext);
      var rest := Split(t, '_');
      if c == '_' {
        CamelNameBySplit(t, true);
        SplitStepUnderscore(rest, capitalizeNext, CamelName(t, true));
      } else {
        CamelNameBySplit(t, false);
        SplitStepLetter(c, rest, capitalizeNext, CamelName(t, false));
      }
    }
  }

  /** `JoinCapitalized` of a list of pieces, in terms of its first piece and the rest. */
  lemma JoinCapitalizedCons(p: string, ps: seq<string>, first: bool)
    ensures JoinCapitalized([p] + ps, first) ==
      if !first && p == "" then None
      else match JoinCapitalized(ps, false)
        case None => None
        case Some(u) => Some((if first then p else UpperCaseFirst(p)) + u)
  {
    var parts := [p] + ps;
    assert parts[0] == p && parts[1..] == ps;
  }

  /** The step of `CamelNameBySplit` at a leading `_`: an empty first piece. */
  lemma SplitStepUnderscore(rest: seq<string>, capitalizeNext: bool, tail: Option<string>)
    requires tail == JoinCapitalized(rest, false)
    ensures (if capitalizeNext then None else tail) == JoinCapitalized([""] + rest, !capitalizeNext)
  {
    JoinCapitalizedCons("", rest, !capitalizeNext);
    if !capitalizeNext && tail.Some? {
      assert "" + tail.value == tail.value;
    }
  }

  /** The step of `CamelNameBySplit` at a leading letter: it joins the first piece. */
  lemma SplitStepLetter(c: char, rest: seq<string>, capitalizeNext: bool, tail: Option<string>)
    requires rest != [] && tail == JoinCapitalized(rest, true)
    ensures (match tail
      case None => None
      case Some(u) => Some([if capitalizeNext then UpperAscii(c) else c] + u))
      == JoinCapitalized([[c] + rest[0]] + rest[1..], !capitalizeNext)
  {
    var x := if capitalizeNext then UpperAscii(c) else c;
    assert rest == [rest[0]] + rest[1..];
    JoinCapitalizedCons(rest[0], rest[1..], true);
    JoinCapitalizedCons([c] + rest[0], rest[1..], !capitalizeNext);
    assert capitalizeNext ==> UpperCaseFirst([c] + rest[0]) == [x] + rest[0];
    match JoinCapitalized(rest[1..], false)
    case None =>
    case Some(u) => assert [x] + (rest[0] + u) == ([x] + rest[0]) + u;
  }

  /** Converted pieces joined together give the value of `JoinCapitalized`. */
  lemma {:induction false} JoinCapitalizedOf(pieces: seq<string>, parts: seq<string>, first: bool)
    requires |parts| == |pieces|
    requires first && |pieces| > 0 ==> parts[0] == pieces[0]
    requires forall k :: 0 <= k < |pieces| && !(first && k == 0) ==>
      pieces[k] != "" && parts[k] == UpperCaseFirst(pieces[k])
    ensures JoinCapitalized(pieces, first) == Some(Concat(parts))
  {
    if pieces != [] {
      JoinCapitalizedOf(pieces[1..], parts[1..], false);
    }
  }

  /** An empty piece after the first makes the whole conversion panic. */
  lemma {:induction false} JoinCapitalizedPanics(pieces: seq<string>, first: bool, k: nat)
    requires k < |pieces| && !(first && k == 0) && pieces[k] == ""
    ensures JoinCapitalized(pieces, first) == None
  {
    if k > 0 && (first || pieces[0] != "") {
      JoinCapitalizedPanics(pieces[1..], false, k - 1);
    }
  }

  /**
   * `camelCase`: split at `_`, keep the first piece, upper-case the first
   * character of every later piece in place, and join the pieces. The result
   * is the character-wise rule `CamelName`, including when Go panics.
   */
  method CamelCase(s: string) returns (r: Option<string>)
    ensures r == CamelName(s, false)
  {
    var parts := Split(s, '_');
    ghost var pieces := parts;
    CamelNameBySplit(s, false);
    var i := 0;
    while i < |parts|
      invariant 0 <= i <= |parts| == |pieces|
      invariant parts[i..] == pieces[i..]
      invariant i > 0 ==> parts[0] == pieces[0]
      invariant forall k :: 0 < k < i ==> pieces[k] != "" && parts[k] == UpperCaseFirst(pieces[k])
    {
      var p := parts[i];
      if i == 0 {
        parts := parts[i := p];
      } else {
        if p == "" {
          JoinCapitalizedPanics(pieces, true, i);
          return None;
        }
        parts := parts[i := UpperCaseFirst(p)];
      }
      i := i + 1;
    }
    JoinCapitalizedOf(pieces, parts, true);
    r := Some(Concat(parts));
  }

  /**
   * `camelCase` panics exactly when some `_` ends the name or is followed by
   * another `_` (or, when a capital is pending, when the name is empty or
   * starts with `_`).
   */
  lemma {:induction false} CamelNamePanicsIff(s: string, capitalizeNext: bool)
    ensures CamelName(s, capitalizeNext) == None <==>
      (capitalizeNext && (s == [] || s[0] == '_')) ||
      (exists k :: 0 <= k < |s| && s[k] == '_' && (k + 1 == |s| || s[k + 1] == '_'))
  {
    if s != [] {
      var tail := s[1..];
      if s[0] == '_' {
        CamelNamePanicsIff(tail, true);
        if !capitalizeNext {
          if tail == [] || tail[0] == '_' {
            assert s[0] == '_' && (0 + 1 == |s| || s[0 + 1] == '_');
          }
          if exists k :: 0 <= k < |tail| && tail[k] == '_' && (k + 1 == |tail| || tail[k + 1] == '_') {
            var k :| 0 <= k < |tail| && tail[k] == '_' && (k + 1 == |tail| || tail[k + 1] == '_');
            assert s[k + 1] == '_' && (k + 2 == |s| || s[k + 2] == '_');
          }
          if exists k :: 0 <= k < |s| && s[k] == '_' && (k + 1 == |s| || s[k + 1] == '_') {
            var k :| 0 <= k < |s| && s[k] == '_' && (k + 1 == |s| || s[k + 1] == '_');
            if k > 0 {
              assert tail[k - 1] == '_' && (k == |tail| || tail[k] == '_');
            }
          }
        }
      } else {
        CamelNamePanicsIff(tail, false);
        if exists k :: 0 <= k < |tail| && tail[k] == '_' && (k + 1 == |tail| || tail[k + 1] == '_') {
          var k :| 0 <= k < |tail| && tail[k] == '_' && (k + 1 == |tail| || tail[k + 1] == '_');
          assert s[k + 1] == '_' && (k + 2 == |s| || s[k + 2] == '_');
        }
        if exists k :: 0 <= k < |s| && s[k] == '_' && (k + 1 == |s| || s[k + 1] == '_') {
          var k :| 0 <= k < |s| && s[k] == '_' && (k + 1 == |s| || s[k + 1] == '_');
          assert k > 0;
          assert tail[k - 1] == '_' && (k == |tail| || tail[k] == '_');
        }
      }
    }
  }

  /** `s` with every `_` removed. */
  function Unscored(s: string): (r: string)
    ensures '_' !in r && |r| <= |s|
  {
    if s == [] then ""
    else if s[0] == '_' then Unscored(s[1..])
    else [s[0]] + Unscored(s[1..])
  }

  /**
   * A successful `camelCase` drops every `_` and changes nothing but the case
   * of the remaining characters, which stay in order.
   */
  lemma {:induction false} CamelNameDropsUnderscores(s: string, capitalizeNext: bool)
    requires CamelName(s, capitalizeNext).Some?
    ensures var r := CamelName(s, capitalizeNext).value;
      && '_' !in r
      && |r| == |Unscored(s)|
      && forall k :: 0 <= k < |r| ==> r[k] == Unscored(s)[k] || r[k] == UpperAscii(Unscored(s)[k])
  {
    if s != [] {
      if s[0] == '_' {
        CamelNameDropsUnderscores(s[1..], true);
      } else {
        CamelNameDropsUnderscores(s[1..], false);
      }
    }
  }

  /** A name without `_` is its own camel-case spelling. */
  lemma {:induction false} CamelNameWithoutUnderscore(s: string)
    requires '_' !in s
    ensures CamelName(s, false) == Some(s)
  {
    if s != [] {
      assert '_' !in s[1..];
      CamelNameWithoutUnderscore(s[1..]);
      assert s == [s[0]] + s[1..];
    }
  }

  /** The example the generator is written for: `foo_bar_baz` becomes `fooBarBaz`. */
  lemma CamelNameExample()
    ensures CamelName("foo_bar_baz", false) == Some("fooBarBaz")
  {
    CamelNameTailExample();
    CamelNameWithoutUnderscore("foo");
    assert "foo" + "_bar_baz" == "foo_bar_baz" && "foo" + "BarBaz" == "fooBarBaz";
    CamelNameConcat("foo", "_bar_baz", "foo", "BarBaz");
  }

  /** The part of the example after its first word. */
  lemma CamelNameTailExample()
    ensures CamelName("_bar_baz", false) == Some("BarBaz")
  {
    UnderscoreThenWord('b', "ar", "Bar");
    UnderscoreThenWord('b', "az", "Baz");
    assert "_bar" + "_baz" == "_bar_baz" && "Bar" + "Baz" == "BarBaz";
    CamelNameConcat("_bar", "_baz", "Bar", "Baz");
  }

  /** `_` followed by a word without `_` capitalizes the word. */
  lemma UnderscoreThenWord(c: char, rest: string, r: string)
    requires 'a' <= c <= 'z' && '_' !in rest && r == [UpperAscii(c)] + rest
    ensures CamelName(['_', c] + rest, false) == Some(r)
  {
    var s := ['_', c] + rest;
    CamelNameWithoutUnderscore(rest);
    assert s[0] == '_' && s[1..] == [c] + rest && s[1..][1..] == rest;
  }

  /** Converting a name piecewise, when the second part starts with `_`. */
  lemma {:induction false} CamelNameConcat(a: string, b: string, ra: string, rb: string)
    requires CamelName(a, false) == Some(ra) && CamelName(b, false) == Some(rb)
    requires b != [] && b[0] == '_'
    ensures CamelName(a + b, false) == Some(ra + rb)
  {
    if a == [] {
      assert a + b == b && ra + rb == rb;
    } else {
      var c, t := a[0], a[1..];
      assert a == [c] + t && a + b == [c] + (t + b);
      CamelNameCons(c, t, false);
      CamelNameCons(c, t + b, false);
      if c == '_' {
        CamelNameConcatPending(t, b, ra, rb);
      } else {
        var u := CamelName(t, false).value;
        CamelNameConcat(t, b, u, rb);
        assert [c] + (u + rb) == ([c] + u) + rb;
      }
    }
  }

  /** `CamelNameConcat` with a capital pending at the start. */
  lemma {:induction false} CamelNameConcatPending(a: string, b: string, ra: string, rb: string)
    requires CamelName(a, true) == Some(ra) && CamelName(b, false) == Some(rb)
    requires b != [] && b[0] == '_'
    ensures CamelName(a + b, true) == Some(ra + rb)
  {
    var c, t := a[0], a[1..];
    assert a == [c] + t && a + b == [c] + (t + b);
    CamelNameCons(c, t, true);
    CamelNameCons(c, t + b, true);
    var u := CamelName(t, false).value;
    CamelNameConcat(t, b, u, rb);
    assert [UpperAscii(c)] + (u + rb) == ([UpperAscii(c)] + u) + rb;
  }

  /** `CamelName` of a string, in terms of its first character and the rest. */
  lemma CamelNameCons(c: char, t: string, capitalizeNext: bool)
    ensures CamelName([c] + t, capitalizeNext) ==
      if c == '_' then (if capitalizeNext then None else CamelName(t, true))
      else match CamelName(t, false)
        case None => None
        case Some(u) => Some([if capitalizeNext then UpperAscii(c) else c] + u)
  {
    var s := [c] + t;
    assert s[0] == c && s[1..] == t;
  }

}
