/**
 * The POSIX flavour of Python's `os.path` functions that derive the
 * extraction directory and the archive paths: `basename`, `dirname`,
 * `splitext` and two-argument `join`, over paths whose separator is '/'.
 */
module PosixPath {
  import opened Text

  predicate AllSlashes(s: string) {
    forall k | 0 <= k < |s| :: s[k] == '/'
  }

  /** `os.path.basename(p)`: the part after the last '/'. */
  function BaseName(p: string): (r: string)
    ensures '/' !in r
    ensures |r| <= |p| && p[|p| - |r|..] == r
    ensures |r| < |p| ==> p[|p| - |r| - 1] == '/'
  {
    p[RFind(p, '/') + 1..]
  }

  /** `s.rstrip('/')` */
  function StripTrailingSlashes(s: string): (r: string)
    ensures |r| <= |s| && r == s[..|r|]
    ensures AllSlashes(s[|r|..])
    ensures r == [] || r[|r| - 1] != '/'
  {
    if s != [] && s[|s| - 1] == '/' then
      var r := StripTrailingSlashes(s[..|s| - 1]);
      assert s[|r|..] == s[..|s| - 1][|r|..] + ['/'];
      r
    else s
  }

  /** A folder as `dirname` writes it: without its trailing slashes, unless
      it consists of slashes only. */
  function DirPart(folder: string): (r: string)
    ensures |r| <= |folder| && r == folder[..|r|] && AllSlashes(folder[|r|..])
    ensures r == [] <==> folder == []
    ensures r != [] && r[|r| - 1] == '/' ==> r == folder && AllSlashes(r)
  {
    if AllSlashes(folder) then folder else StripTrailingSlashes(folder)
  }

  /** `os.path.dirname(p)`: everything up to the last '/', without the
      trailing slashes unless it consists of slashes only. */
  function DirName(p: string): (r: string)
    ensures |r| <= |p| && r == p[..|r|]
    ensures r == [] <==> '/' !in p
    ensures r != [] && r[|r| - 1] == '/' ==> AllSlashes(r)
  {
    var head := p[..RFind(p, '/') + 1];
    if head != [] && !AllSlashes(head) then StripTrailingSlashes(head) else head
  }

  /** A path is its `DirName`, then slashes only, then its `BaseName`; the
      slashes are dropped from the directory unless it has nothing else. */
  lemma DirNameSplit(p: string)
    ensures var r, b := DirName(p), BaseName(p);
            && |r| + |b| <= |p| && p[..|r|] == r
            && AllSlashes(p[|r|..|p| - |b|])
            && (AllSlashes(r) ==> |r| + |b| == |p|)
            && DirName(p) == DirPart(p[..|p| - |b|])
  {
    var head := p[..RFind(p, '/') + 1];
    var r := DirName(p);
    assert |head| == |p| - |BaseName(p)|;
    if head != [] && !AllSlashes(head) {
      assert p[|r|..|p| - |BaseName(p)|] == head[|r|..];
    }
  }

  /** `os.path.splitext(p)`: `(root, ext)` where `ext` is the last extension
      of the final component, unless every character before its dot is a
      dot too. */
  function SplitExt(p: string): (r: (string, string))
    ensures r.0 + r.1 == p
    ensures r.1 == [] || (r.1[0] == '.' && '.' !in r.1[1..] && '/' !in r.1)
  {
    var sep, dot := RFind(p, '/'), RFind(p, '.');
    if sep < dot && exists k | sep < k < dot :: p[k] != '.' then (p[..dot], p[dot..]) else (p, [])
  }

  /** For a name without '/', there is an extension exactly when some
      character other than a dot comes before some dot: `a.tar.gz` has one,
      `.zip` and `..zip` have none. */
  lemma ExtensionIff(name: string)
    requires '/' !in name
    ensures SplitExt(name).1 != [] <==> exists i, j | 0 <= i < j < |name| :: name[i] != '.' && name[j] == '.'
  {
    var dot := RFind(name, '.');
    assert RFind(name, '/') == -1;
    if exists i, j | 0 <= i < j < |name| :: name[i] != '.' && name[j] == '.' {
      var i, j :| 0 <= i < j < |name| && name[i] != '.' && name[j] == '.';
      assert j <= dot;
      assert -1 < i < dot && name[i] != '.';
    }
    if SplitExt(name).1 != [] {
      var k :| -1 < k < dot && name[k] != '.';
      assert name[dot] == '.';
    }
  }

  /** Splitting a name that ends in an extension, after a root holding a
      character other than a dot, gives back that root and that extension. */
  lemma SplitExtOfLastExtension(root: string, ext: string)
    requires '/' !in root && exists i | 0 <= i < |root| :: root[i] != '.'
    requires ext != [] && ext[0] == '.' && '.' !in ext[1..] && '/' !in ext
    ensures SplitExt(root + ext) == (root, ext)
  {
    var name := root + ext;
    assert forall k | |root| < k < |name| :: name[k] == ext[k - |root|] && name[k] != '.' by {
      assert forall k | 1 <= k < |ext| :: ext[k] == ext[1..][k - 1];
    }
    assert name[|root|] == '.';
    assert RFind(name, '.') == |root|;
    assert forall k | 0 <= k < |name| :: name[k] != '/' by {
      assert forall k | 0 <= k < |root| :: name[k] == root[k];
    }
    assert RFind(name, '/') == -1;
    var i :| 0 <= i < |root| && root[i] != '.';
    assert name[i] != '.';
    assert name[..|root|] == root && name[|root|..] == ext;
  }

  /** The root of a non-empty name is non-empty. */
  lemma RootOfName(name: string)
    requires name != [] && '/' !in name
    ensures SplitExt(name).0 != [] && '/' !in SplitExt(name).0
  {
    var r := SplitExt(name);
    if r.1 != [] {
      ExtensionIff(name);
      var i, j :| 0 <= i < j < |name| && name[i] != '.' && name[j] == '.';
      assert r.0 + r.1 == name;
      assert forall k | |r.0| <= k < |name| :: name[k] == r.1[k - |r.0|];
      assert forall k | 0 < k < |r.1| :: r.1[k] != '.';
    }
    assert forall k | 0 <= k < |r.0| :: r.0[k] == name[k] by {
      assert r.0 + r.1 == name;
    }
  }

  /** `os.path.join(a, b)` for two components. */
  function Join(a: string, b: string): string {
    if b != [] && b[0] == '/' then b
    else if a == [] || a[|a| - 1] == '/' then a + b
    else a + "/" + b
  }

  /** The last '/' of `prefix + name` is the one ending `prefix`. */
  lemma LastSlashBeforeName(prefix: string, name: string)
    requires prefix == [] || prefix[|prefix| - 1] == '/'
    requires '/' !in name
    ensures RFind(prefix + name, '/') == |prefix| - 1
  {
    var p := prefix + name;
    assert forall k | |prefix| <= k < |p| :: p[k] == name[k - |prefix|] && p[k] != '/';
    assert prefix != [] ==> p[|prefix| - 1] == '/';
  }

  /** A name without '/' joined onto any folder is recovered by `BaseName`. */
  lemma BaseNameJoin(folder: string, name: string)
    requires '/' !in name
    ensures BaseName(Join(folder, name)) == name
  {
    var prefix := if folder == [] || folder[|folder| - 1] == '/' then folder else folder + "/";
    assert Join(folder, name) == prefix + name;
    LastSlashBeforeName(prefix, name);
    assert (prefix + name)[|prefix|..] == name;
  }

  /** A name without '/' joined onto any folder has that folder, as
      `DirPart` writes it, as its `DirName`. */
  lemma DirNameJoin(folder: string, name: string)
    requires name != [] && '/' !in name
    ensures DirName(Join(folder, name)) == DirPart(folder)
  {
    var prefix := if folder == [] || folder[|folder| - 1] == '/' then folder else folder + "/";
    assert Join(folder, name) == prefix + name;
    LastSlashBeforeName(prefix, name);
    assert (prefix + name)[..|prefix|] == prefix;
    if prefix != folder {
      assert folder[|folder| - 1] != '/';
      assert !AllSlashes(prefix) by {
        assert prefix[|folder| - 1] != '/';
      }
      assert prefix[..|folder|] == folder;
    }
  }

  /** `DirPart` leaves a `DirName` as it is. */
  lemma DirPartOfDirName(p: string)
    ensures DirPart(DirName(p)) == DirName(p)
  {
    var d := DirName(p);
    if d != [] && !AllSlashes(d) {
      assert d[|d| - 1] != '/';
    }
  }

  /** On a folder with at most one trailing slash (or only slashes), joining
      onto the folder as `DirPart` writes it gives the same path. */
  lemma JoinDirPart(folder: string, name: string)
    requires name != [] && '/' !in name
    requires AllSlashes(folder) || |folder| < 2 || folder[|folder| - 2] != '/'
    ensures Join(DirPart(folder), name) == Join(folder, name)
  {
    if !AllSlashes(folder) && folder[|folder| - 1] == '/' {
      var stem := folder[..|folder| - 1];
      assert stem != [] && stem[|stem| - 1] != '/';
      assert StripTrailingSlashes(stem) == stem;
      assert folder == stem + "/";
    }
  }
}
