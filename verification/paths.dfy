/**
 * Import names and paths derived from a schema file name: `tsImportName`,
 * `tsImportPath` and `tsFileName`, over Go's `path.Base` and `path.Ext`.
 */
module ImportPaths {
  import opened Strings

  /** `path` with its trailing slashes removed. */
  function TrimTrailingSlashes(p: string): (r: string)
    ensures |r| <= |p| && p[..|r|] == r
    ensures r == [] || r[|r| - 1] != '/'
    ensures p != [] && p[|p| - 1] != '/' ==> r == p
  {
    if p != [] && p[|p| - 1] == '/' then TrimTrailingSlashes(p[..|p| - 1]) else p
  }

  /**
   * Go's `path.Base`: "." for the empty path, "/" for a path of slashes only,
   * otherwise the last element once trailing slashes are removed.
   */
  function Base(p: string): (r: string)
    ensures |r| >= 1
    ensures p != [] ==> |r| <= |p|
    ensures p != [] && p[|p| - 1] != '/' ==> '/' !in r && p[|p| - |r|..] == r
    ensures p != [] && p[|p| - 1] != '/' && |r| < |p| ==> p[|p| - |r| - 1] == '/'
  {
    if p == [] then "."
    else
      var t := TrimTrailingSlashes(p);
      LastPieceIsTail(t, '/');
      var b := LastPiece(t, '/');
      if b == [] then "/" else b
  }

  /**
   * Go's `path.Ext`: the suffix starting at the final `.` of the last
   * element, or "" when that element has no `.`.
   */
  function Ext(p: string): (r: string)
    ensures |r| <= |p| && p[|p| - |r|..] == r
    ensures r != [] ==> r[0] == '.' && '/' !in r && '.' !in r[1..]
  {
    if p == [] || p[|p| - 1] == '/' then ""
    else if p[|p| - 1] == '.' then "."
    else
      var e := Ext(p[..|p| - 1]);
      if e == [] then "" else e + [p[|p| - 1]]
  }

  /** `tsImportName`: the base name with its extension stripped. */
  function TsImportName(name: string): (r: string)
    ensures var b := Base(name); |r| <= |b| && r == b[..|r|]
  {
    var b := Base(name);
    b[..|b| - |Ext(b)|]
  }

  /**
   * `tsImportPath`: the whole name with the extension of its base stripped.
   * Go slices out of range (a panic) for the empty name, whose base is ".".
   */
  function TsImportPath(name: string): (r: string)
    requires name != []
    ensures |r| <= |name| && name[..|r|] == r
  {
    name[..|name| - |Ext(Base(name))|]
  }

  /** `tsFileName`: the generated TypeScript file sits where the import path points. */
  function TsFileName(name: string): (r: string)
    requires name != []
    ensures |r| >= 3 && r[|r| - 3..] == ".ts"
    ensures |r| - 3 <= |name| && r[..|r| - 3] == name[..|r| - 3]
  {
    TsImportPath(name) + ".ts"
  }

  /**
   * For a name that does not end in `/`: the import path is the name without
   * its extension (directories kept), and the import name is the last
   * element of that path.
   */
  lemma ImportNameWithinPath(name: string)
    requires name != [] && name[|name| - 1] != '/'
    ensures var ext, n, p := Ext(Base(name)), TsImportName(name), TsImportPath(name);
      && p + ext == name
      && (ext == [] || (ext[0] == '.' && '.' !in ext[1..] && '/' !in ext))
      && '/' !in n
      && |n| <= |p| && p[|p| - |n|..] == n
      && (|n| < |p| ==> p[|p| - |n| - 1] == '/')
  {
    var b := Base(name);
    var ext := Ext(b);
    var n, p := TsImportName(name), TsImportPath(name);
    assert n == b[..|b| - |ext|];
    assert p == name[..|name| - |ext|];
    NestedSuffixes(name, b, ext);
    assert |p| - |n| == |name| - |b|;
    assert forall c :: c in n ==> c in b;
    if |n| < |p| {
      assert p[|p| - |n| - 1] == name[|name| - |b| - 1];
    }
  }

  /** Slicing facts for a suffix `ext` of a suffix `b` of `name`. */
  lemma NestedSuffixes(name: string, b: string, ext: string)
    requires |b| <= |name| && name[|name| - |b|..] == b
    requires |ext| <= |b| && b[|b| - |ext|..] == ext
    ensures name[..|name| - |ext|] + ext == name
    ensures name[..|name| - |ext|][|name| - |b|..] == b[..|b| - |ext|]
  {
    assert name[|name| - |ext|..] == ext;
  }

  /** The extension of a last element is everything from its final dot. */
  lemma {:induction false} ExtAfterDot(a: string, e: string)
    requires '.' !in e && '/' !in e
    ensures Ext(a + ['.'] + e) == ['.'] + e
  {
    var p := a + ['.'] + e;
    if e == [] {
      assert p[|p| - 1] == '.';
    } else {
      var init := e[..|e| - 1];
      assert p[..|p| - 1] == a + ['.'] + init;
      assert '.' !in init && '/' !in init by {
        assert forall c :: c in init ==> c in e;
      }
      ExtAfterDot(a, init);
      assert ['.'] + init + [e[|e| - 1]] == ['.'] + e;
    }
  }

  /** A file in a sub-directory: its import name, import path and generated file name. */
  lemma ImportNamingExample(name: string)
    requires name == "a/b/common.proto"
    ensures TsImportName(name) == "common"
    ensures TsImportPath(name) == "a/b/common"
    ensures TsFileName(name) == "a/b/common.ts"
  {
    var base := "common.proto";
    BaseExample(name);
    ExtExample(base);
    assert base[..|base| - 6] == "common";
    assert name[..|name| - 6] == "a/b/common";
  }

  lemma BaseExample(name: string)
    requires name == "a/b/common.proto"
    ensures Base(name) == "common.proto"
  {
    var dir, base := "a/b", "common.proto";
    assert name == dir + ['/'] + base;
    assert name[|name| - 1] == 'o';
    LastPieceAfterSeparator(dir, '/', base);
  }

  lemma ExtExample(base: string)
    requires base == "common.proto"
    ensures Ext(base) == ".proto"
  {
    var stem, ext := "common", "proto";
    assert base == stem + ['.'] + ext;
    ExtAfterDot(stem, ext);
  }
}
