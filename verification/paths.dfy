/**
 * The POSIX flavour of `os.path` the converter calls: `basename`, `dirname`,
 * `join` of two components and `splitext`.
 */
module Paths {
  import opened Results
  import opened Text

  /** `os.path.basename`: the text after the last `/`. */
  function Basename(p: string): (r: string)
    ensures IsLastField(p, '/', r)
  {
    var k := FieldStart(p, '/');
    assert forall j :: 0 <= j < |p| - k ==> p[k..][j] == p[k + j];
    p[k..]
  }

  /** The base name of `prefix + name` is `name` when `prefix` is empty or
      ends a directory and `name` holds no `/`. */
  lemma BasenameAfterSlash(prefix: string, name: string)
    requires prefix == "" || prefix[|prefix| - 1] == '/'
    requires '/' !in name
    ensures Basename(prefix + name) == name
  {
    var p := prefix + name;
    assert p[|p| - |name|..] == name;
    assert |name| < |p| ==> p[|p| - |name| - 1] == prefix[|prefix| - 1];
    LastFieldUnique(p, '/', Basename(p), name);
  }

  predicate AllSlashes(s: string) {
    forall i :: 0 <= i < |s| ==> s[i] == '/'
  }

  /** `s.rstrip("/")`. */
  function TrimSlashes(s: string): (r: string)
    ensures |r| <= |s| && r == s[..|r|]
    ensures AllSlashes(s[|r|..])
    ensures r == [] || r[|r| - 1] != '/'
    decreases |s|
  {
    if |s| > 0 && s[|s| - 1] == '/' then
      var t := s[..|s| - 1];
      var r := TrimSlashes(t);
      assert s[|r|..] == t[|r|..] + ['/'];
      r
    else s
  }

  /** `os.path.dirname`: everything up to the last `/`, with trailing slashes
      removed unless the head consists of slashes only. */
  function Dirname(p: string): (r: string)
    ensures '/' !in p ==> r == ""
    ensures |r| <= |p| && r == p[..|r|]
  {
    var head := p[..|p| - |Basename(p)|];
    if head != "" && !AllSlashes(head) then TrimSlashes(head) else head
  }

  lemma NoSlashNoLeadingSlash(name: string)
    requires '/' !in name
    ensures !StartsWith(name, "/")
  {
    assert |name| >= 1 ==> name[..1] == [name[0]];
  }

  /** `os.path.join(a, b)` for two components. */
  function Join(a: string, b: string): string {
    if StartsWith(b, "/") then b
    else if a == "" || a[|a| - 1] == '/' then a + b
    else a + "/" + b
  }

  /** A file joined onto a directory keeps its own name as base name. */
  lemma BasenameOfJoin(dir: string, name: string)
    requires '/' !in name
    ensures Basename(Join(dir, name)) == name
  {
    NoSlashNoLeadingSlash(name);
    if dir == "" || dir[|dir| - 1] == '/' {
      BasenameAfterSlash(dir, name);
    } else {
      assert dir + "/" + name == (dir + "/") + name;
      BasenameAfterSlash(dir + "/", name);
    }
  }

  /** ... and the directory part of the joined path is the directory again. */
  lemma DirnameOfJoin(dir: string, name: string)
    requires '/' !in name
    requires dir == "" || dir[|dir| - 1] != '/'
    ensures Dirname(Join(dir, name)) == dir
  {
    var p := Join(dir, name);
    BasenameOfJoin(dir, name);
    NoSlashNoLeadingSlash(name);
    if dir == "" {
      assert p == name;
    } else {
      assert p == dir + "/" + name;
      assert p[..|p| - |name|] == dir + "/";
      assert (dir + "/")[|dir| - 1] != '/';
      assert TrimSlashes(dir + "/") == dir;
    }
  }

  predicate AllDots(s: string) {
    forall i :: 0 <= i < |s| ==> s[i] == '.'
  }

  /** The last component of `p` has a dot with some other character before it
      in that component. */
  ghost predicate HasExtension(p: string) {
    exists i, j :: FieldStart(p, '/') <= i < j < |p| && p[i] != '.' && p[j] == '.'
  }

  /** A dot followed by characters that are neither dots nor slashes. */
  predicate IsExtension(e: string) {
    && |e| > 0 && e[0] == '.'
    && forall j :: 0 < j < |e| ==> e[j] != '.' && e[j] != '/'
  }

  /** `os.path.splitext`: the extension starts at the last dot of the last
      path component, provided some character before that dot in the
      component is not a dot (so `.bashrc` and `..` have no extension). */
  function SplitExt(p: string): (r: (string, string))
    ensures r.0 + r.1 == p
    ensures r.1 != "" <==> HasExtension(p)
    ensures r.1 != "" ==> IsExtension(r.1)
  {
    var s := FieldStart(p, '/');
    var d := FieldStart(p, '.');
    if d > s && !AllDots(p[s..d - 1]) then
      ExtensionAt(p, s, d);
      (p[..d - 1], p[d - 1..])
    else
      NoExtension(p, s, d);
      (p, "")
  }

  lemma ExtensionAt(p: string, s: nat, d: nat)
    requires s == FieldStart(p, '/') && d == FieldStart(p, '.')
    requires d > s && !AllDots(p[s..d - 1])
    ensures HasExtension(p)
    ensures p[..d - 1] + p[d - 1..] == p
    ensures IsExtension(p[d - 1..])
  {
    LastDotStartsExtension(p, s, d);
    assert p[..d - 1] + p[d - 1..] == p;
    NonDotIn(p, s, d - 1);
    var i :| s <= i < d - 1 && p[i] != '.';
    ExtensionWitness(p, i, d - 1);
  }

  lemma NonDotIn(p: string, s: nat, e: nat)
    requires s <= e <= |p| && !AllDots(p[s..e])
    ensures exists i :: s <= i < e && p[i] != '.'
  {
    var k :| 0 <= k < e - s && p[s..e][k] != '.';
    assert p[s + k] == p[s..e][k];
  }

  lemma ExtensionWitness(p: string, i: nat, j: nat)
    requires FieldStart(p, '/') <= i < j < |p| && p[i] != '.' && p[j] == '.'
    ensures HasExtension(p)
  {
  }

  /** From the last dot of the last component on, the text is an extension. */
  lemma LastDotStartsExtension(p: string, s: nat, d: nat)
    requires IsFieldStart(p, '/', s) && IsFieldStart(p, '.', d) && d > s
    ensures IsExtension(p[d - 1..])
  {
    var e := p[d - 1..];
    forall j | 0 < j < |e| ensures e[j] != '.' && e[j] != '/' {
      assert e[j] == p[d - 1 + j];
    }
  }

  lemma NoExtension(p: string, s: nat, d: nat)
    requires s == FieldStart(p, '/') && d == FieldStart(p, '.')
    requires !(d > s && !AllDots(p[s..d - 1]))
    ensures !HasExtension(p)
  {
    forall i, j | s <= i < j < |p| && p[j] == '.' ensures p[i] == '.' {
      assert p[s..d - 1][i - s] == p[i];
    }
  }

  /** The base name of `stem.ext` is that of `stem`, followed by `.ext`. */
  lemma BasenameOfDotted(stem: string, ext: string)
    requires '/' !in ext
    ensures Basename(stem + "." + ext) == Basename(stem) + "." + ext
  {
    var x := "." + ext;
    var b := Basename(stem);
    assert stem + "." + ext == stem + x;
    assert b + "." + ext == b + x;
    assert '/' !in x by {
      forall j | 0 <= j < |x| ensures x[j] != '/' {
        if j > 0 {
          assert x[j] == ext[j - 1];
        }
      }
    }
    LastFieldExtends(stem, '/', b, x);
    LastFieldUnique(stem + x, '/', Basename(stem + x), b + x);
  }

  /** Splitting off the extension of `stem.ext` gives back `stem` and `.ext`
      when the base name of `stem` is not made of dots only. */
  lemma SplitExtOfDotted(stem: string, ext: string)
    requires '/' !in ext && '.' !in ext
    requires !AllDots(Basename(stem))
    ensures SplitExt(stem + "." + ext) == (stem, "." + ext)
  {
    var x := "." + ext;
    var p := stem + x;
    assert stem + "." + ext == p;
    var s := FieldStart(stem, '/');
    DottedFieldStarts(stem, ext);
    assert Basename(stem) == stem[s..];
    NotAllDotsKept(stem, x, s);
    SplitExtAt(p, |stem|);
    assert p[..|stem|] == stem;
    assert p[|stem|..] == x;
  }

  /** Text appended after `stem` does not change what lies inside it. */
  lemma NotAllDotsKept(stem: string, x: string, s: nat)
    requires s <= |stem| && !AllDots(stem[s..])
    ensures !AllDots((stem + x)[s..|stem|])
  {
    assert (stem + x)[s..|stem|] == stem[s..];
  }

  /** The split happens at the last dot of the last component when the
      component has something other than dots before it. */
  lemma SplitExtAt(p: string, d: nat)
    requires d < |p| && FieldStart(p, '.') == d + 1 && FieldStart(p, '/') <= d
    requires !AllDots(p[FieldStart(p, '/')..d])
    ensures SplitExt(p) == (p[..d], p[d..])
  {
  }

  lemma DottedFieldStarts(stem: string, ext: string)
    requires '/' !in ext && '.' !in ext
    ensures FieldStart(stem + "." + ext, '/') == FieldStart(stem, '/')
    ensures FieldStart(stem + "." + ext, '.') == |stem| + 1
  {
    var p := stem + "." + ext;
    var s := FieldStart(stem, '/');
    forall j | |stem| + 1 <= j < |p| ensures p[j] != '/' && p[j] != '.' {
      assert p[j] == ext[j - |stem| - 1];
    }
    FieldStartUnique(p, '/', s);
    FieldStartUnique(p, '.', |stem| + 1);
  }
}
