/** POSIX `os.path.join` and `os.makedirs(path, exist_ok=True)`, with the
    file system reduced to the set of directory paths that exist. */
module OsPath {

  const Sep: char := '/'

  predicate IsAbsolute(p: string) {
    |p| > 0 && p[0] == Sep
  }

  /** `os.path.join(a, b)`: an absolute b replaces a; otherwise b is
      appended, with a separator unless a is empty or already ends in one. */
  function Join(a: string, b: string): (r: string)
    ensures IsAbsolute(b) ==> r == b
    ensures !IsAbsolute(b) ==> |r| >= |a| + |b| && r[..|a|] == a && r[|r| - |b|..] == b
    ensures !IsAbsolute(b) ==> |r| == |a| + |b| + (if a == [] || a[|a| - 1] == Sep then 0 else 1)
    ensures !IsAbsolute(b) && |r| > |a| + |b| ==> r[|a|] == Sep
  {
    if IsAbsolute(b) then b
    else if a == [] || a[|a| - 1] == Sep then a + b
    else a + [Sep] + b
  }

  /** The directories that exist once `makedirs(p)` has succeeded: p itself
      (less any trailing separator) and every ancestor named in p. */
  function DirChain(p: string): (ds: set<string>)
    ensures forall d :: d in ds ==>
              0 < |d| <= |p| && p[..|d|] == d && d[|d| - 1] != Sep && (|d| == |p| || p[|d|] == Sep)
  {
    set i | 0 < i <= |p| && (i == |p| || p[i] == Sep) && p[i - 1] != Sep :: p[..i]
  }

  /** Every ancestor named in p, up to a separator, is created. */
  lemma AncestorCreated(p: string, i: nat)
    requires 0 < i <= |p| && (i == |p| || p[i] == Sep) && p[i - 1] != Sep
    ensures p[..i] in DirChain(p)
  {
  }

  /** A path that does not end in a separator is created by makedirs. */
  lemma TargetCreated(p: string)
    requires p != [] && p[|p| - 1] != Sep
    ensures p in DirChain(p)
  {
    assert p[..|p|] == p;
  }

  /** A path `q/` with a trailing separator creates q. */
  lemma TrailingSepTargetCreated(q: string)
    requires q != [] && q[|q| - 1] != Sep
    ensures q in DirChain(q + [Sep])
  {
    assert (q + [Sep])[..|q|] == q;
  }

  class FileSystem {
    var dirs: set<string>

    constructor (existing: set<string>)
      ensures dirs == existing
    {
      dirs := existing;
    }

    /** `os.makedirs(p, exist_ok=True)`: fails only on the empty path;
        otherwise adds p and its ancestors, and changes nothing when they
        all exist already. */
    method MakeDirs(p: string) returns (ok: bool)
      modifies this
      ensures ok <==> p != []
      ensures dirs == old(dirs) + DirChain(p)
      ensures DirChain(p) <= old(dirs) ==> dirs == old(dirs)
    {
      ok := p != [];
      if ok {
        dirs := dirs + DirChain(p);
      } else {
        assert DirChain(p) == {};
      }
    }
  }
}
