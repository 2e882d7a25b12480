/**
  The directory tree the installer reads and writes, and the three
  filesystem primitives it calls: `Path.mkdir(parents=True, exist_ok=True)`,
  `shutil.copytree(..., dirs_exist_ok=True)` and `shutil.copy2`.
  A tree maps every existing path to a directory or to a file's contents.
*/
module FileTree {

  import opened Wrappers
  import opened Paths

  datatype Node = Dir | File(content: string)

  type Tree = map<Path, Node>

  /** The OS errors the primitives raise. */
  datatype Fault = NotFound | NotADirectory | IsADirectory | FileExists | SameFile | KindMismatch

  predicate IsDir(t: Tree, p: Path) {
    p in t && t[p] == Dir
  }

  predicate IsFile(t: Tree, p: Path) {
    p in t && t[p].File?
  }

  function Parent(p: Path): Path
    requires p != []
  {
    p[..|p| - 1]
  }

  /** The working directory exists, and every entry sits in a directory. */
  predicate Valid(t: Tree) {
    IsDir(t, []) && forall p {:trigger Parent(p)} :: p in t && p != [] ==> IsDir(t, Parent(p))
  }

  /** Nothing was removed and no directory was replaced. */
  predicate Grows(t: Tree, u: Tree) {
    forall p :: p in t ==> p in u && (t[p] == Dir ==> u[p] == Dir)
  }

  /** `t` and `u` agree everywhere outside the subtree rooted at `root`. */
  predicate SameOutside(t: Tree, u: Tree, root: Path) {
    && (forall p :: p in t && !(root <= p) ==> p in u && u[p] == t[p])
    && (forall p :: p in u && !(root <= p) ==> p in t)
  }

  /** Every proper ancestor of an entry is a directory. */
  lemma {:induction false} AncestorsAreDirs(t: Tree, p: Path, k: nat)
    requires Valid(t) && p in t && k < |p|
    ensures IsDir(t, p[..k])
    decreases |p| - k
  {
    if k < |p| - 1 {
      assert Parent(p)[..k] == p[..k];
      AncestorsAreDirs(t, Parent(p), k);
    }
  }

  /** `p` and all its ancestors, the working directory included. */
  function Prefixes(p: Path): (s: set<Path>)
    ensures forall q :: q in s <==> q <= p
  {
    var s := set k | 0 <= k <= |p| :: p[..k];
    assert forall q :: q <= p ==> q == p[..|q|];
    s
  }

  /** A file stands at `p` or on the way to it. */
  predicate Blocked(t: Tree, p: Path) {
    exists q :: q in t && q <= p && t[q].File?
  }

  /**
    `Path.mkdir(parents=True, exist_ok=True)`: creates `p` and every missing
    ancestor; fails when a file stands at `p` or on the way to it.
  */
  function MakeDirs(t: Tree, p: Path): (r: Result<Tree, Fault>)
    requires Valid(t)
    ensures r.Err? <==> Blocked(t, p)
    ensures r.Ok? ==> Valid(r.value) && IsDir(r.value, p) && Grows(t, r.value)
    ensures r.Ok? ==> r.value.Keys == t.Keys + Prefixes(p)
    ensures r.Ok? ==> forall q :: q in t ==> r.value[q] == t[q]
  {
    if Blocked(t, p) then Err(if p in t then FileExists else NotADirectory)
    else
      var u := t + map q | q in Prefixes(p) :: Dir;
      assert Valid(u) by {
        forall q | q in u && q != [] ensures IsDir(u, Parent(q)) {
          if q in Prefixes(p) {
            assert Parent(q) in Prefixes(p);
          } else {
            assert IsDir(t, Parent(q));
          }
        }
      }
      Ok(u)
  }

  /** Creating a directory that already exists changes nothing. */
  lemma MakeDirsExisting(t: Tree, p: Path)
    requires Valid(t) && IsDir(t, p)
    ensures MakeDirs(t, p) == Ok(t)
  {
    forall q | q in t && q <= p ensures t[q] == Dir {
      if q != p {
        assert q == p[..|q|];
        AncestorsAreDirs(t, p, |q|);
      }
    }
    assert !Blocked(t, p);
    var u := MakeDirs(t, p).value;
    assert forall q :: q in u && q in t ==> u[q] == t[q];
    assert u.Keys == t.Keys by {
      forall q | q in Prefixes(p) ensures q in t {
        if q != p {
          assert q == p[..|q|];
          AncestorsAreDirs(t, p, |q|);
        }
      }
    }
    assert u == t;
  }

  /** Running the directory creation a second time is not an error and changes nothing. */
  lemma MakeDirsIdempotent(t: Tree, p: Path)
    requires Valid(t) && MakeDirs(t, p).Ok?
    ensures MakeDirs(MakeDirs(t, p).value, p) == MakeDirs(t, p)
  {
    MakeDirsExisting(MakeDirs(t, p).value, p);
  }

  /** A path with prefix `a` is `a` followed by the rest of it. */
  lemma SplitAtPrefix()
    ensures forall a: Path, b: Path :: a <= b ==> a + b[|a|..] == b
  {
    forall a: Path, b: Path | a <= b ensures a + b[|a|..] == b {
      assert b == b[..|a|] + b[|a|..];
    }
  }

  /** The places below `dst` that correspond to entries at or below `src`. */
  function Targets(t: Tree, src: Path, dst: Path): set<Path> {
    set q | q in t && src <= q :: dst + q[|src|..]
  }

  /** Each target comes from the entry at the same place below `src`. */
  lemma TargetSources(t: Tree, src: Path, dst: Path)
    ensures forall p :: p in Targets(t, src, dst) ==> dst <= p && src + p[|dst|..] in t
  {
    SplitAtPrefix();
  }

  /** The entries at or below `src`, moved below `dst`, with their kinds and contents. */
  function Graft(t: Tree, src: Path, dst: Path): Tree {
    TargetSources(t, src, dst);
    map p | p in Targets(t, src, dst) :: t[src + p[|dst|..]]
  }

  /** The graft holds exactly the entries below `src`, at their places below `dst`. */
  lemma GraftEntries(t: Tree, src: Path, dst: Path)
    ensures var g := Graft(t, src, dst);
      && (forall q :: q in t && src <= q ==> dst + q[|src|..] in g && g[dst + q[|src|..]] == t[q])
      && (forall p :: p in g ==> dst <= p && src + p[|dst|..] in t && g[p] == t[src + p[|dst|..]])
  {
    SplitAtPrefix();
  }

  /** An entry below `src` and the entry at the same place below `dst` differ in kind. */
  predicate Clash(t: Tree, src: Path, dst: Path) {
    exists q :: q in t && src <= q && dst + q[|src|..] in t && t[dst + q[|src|..]].Dir? != t[q].Dir?
  }

  /**
    `shutil.copytree(src, dst, dirs_exist_ok=True)`: `src` must be a
    directory; `dst` and its ancestors are created, then every entry below
    `src` is written at the same place below `dst`, merging with what is
    already there. A file where the source has a directory, or the other
    way round, is an error.
  */
  function CopyTree(t: Tree, src: Path, dst: Path): (r: Result<Tree, Fault>)
    requires Valid(t)
    ensures r.Err? <==> !IsDir(t, src) || Blocked(t, dst) || Clash(t, src, dst)
    ensures r.Ok? ==> Valid(r.value) && Grows(t, r.value)
  {
    if !IsDir(t, src) then Err(if src in t then NotADirectory else NotFound)
    else match MakeDirs(t, dst)
      case Err(e) => Err(e)
      case Ok(made) =>
        if Clash(t, src, dst) then Err(KindMismatch)
        else
          var u := made + Graft(t, src, dst);
          CopyTreeValid(t, src, dst, made, u);
          Ok(u)
  }

  /** Without a clash, grafting never puts a file where a directory was. */
  lemma GraftKeepsDirs(t: Tree, src: Path, dst: Path, made: Tree, p: Path)
    requires Valid(t) && IsDir(t, src) && !Clash(t, src, dst)
    requires MakeDirs(t, dst) == Ok(made)
    requires p in made && p in Graft(t, src, dst) && made[p] == Dir
    ensures Graft(t, src, dst)[p] == Dir
  {
    GraftEntries(t, src, dst);
    var q := src + p[|dst|..];
    assert q in t && src <= q;
    SplitAtPrefix();
    if p !in t {
      assert p <= dst;
      assert p == dst;
      assert q == src;
    }
  }

  /** A grafted entry strictly below `dst` has its grafted parent, a directory, above it. */
  lemma GraftParent(t: Tree, src: Path, dst: Path, p: Path)
    requires Valid(t) && p in Graft(t, src, dst) && p != dst
    ensures IsDir(Graft(t, src, dst), Parent(p))
  {
    GraftEntries(t, src, dst);
    var q := src + p[|dst|..];
    assert dst <= p && q in t;
    assert |p| > |dst|;
    assert q != src && q != [];
    assert IsDir(t, Parent(q));
    assert src <= Parent(q);
    assert Parent(q)[|src|..] == Parent(p)[|dst|..];
    SplitAtPrefix();
  }

  /** Every entry of the merged tree sits in a directory. */
  lemma CopyTreeParent(t: Tree, src: Path, dst: Path, made: Tree, p: Path)
    requires Valid(t) && IsDir(t, src) && !Clash(t, src, dst)
    requires MakeDirs(t, dst) == Ok(made)
    requires p in made + Graft(t, src, dst) && p != []
    ensures IsDir(made + Graft(t, src, dst), Parent(p))
  {
    GraftEntries(t, src, dst);
    var g := Graft(t, src, dst);
    if p in g && p != dst {
      GraftParent(t, src, dst, p);
    } else if p in g {
      assert Parent(p) <= dst;
      assert Parent(p) !in g;
    } else {
      assert IsDir(made, Parent(p));
      if Parent(p) in g {
        GraftKeepsDirs(t, src, dst, made, Parent(p));
      }
    }
  }

  /**
    What a successful copytree leaves: every entry below `src` at the same
    place below `dst`; every other entry as it was; nothing new but those
    and the ancestors of `dst`.
  */
  lemma CopyTreeContents(t: Tree, src: Path, dst: Path)
    requires Valid(t) && CopyTree(t, src, dst).Ok?
    ensures var u := CopyTree(t, src, dst).value;
      && (forall q :: q in t && src <= q ==> dst + q[|src|..] in u && u[dst + q[|src|..]] == t[q])
      && (forall q :: q in t && !(dst <= q && src + q[|dst|..] in t) ==> q in u && u[q] == t[q])
      && (forall q :: q in u ==> q in t || q <= dst || (dst <= q && src + q[|dst|..] in t))
  {
    GraftEntries(t, src, dst);
  }

  lemma CopyTreeValid(t: Tree, src: Path, dst: Path, made: Tree, u: Tree)
    requires Valid(t) && IsDir(t, src) && !Clash(t, src, dst)
    requires MakeDirs(t, dst) == Ok(made) && u == made + Graft(t, src, dst)
    ensures Valid(u) && Grows(t, u)
  {
    var g := Graft(t, src, dst);
    forall p | p in u && p != [] ensures IsDir(u, Parent(p)) {
      CopyTreeParent(t, src, dst, made, p);
    }
    forall p | p in t && t[p] == Dir ensures u[p] == Dir {
      if p in g {
        GraftKeepsDirs(t, src, dst, made, p);
      }
    }
    if [] in g {
      GraftKeepsDirs(t, src, dst, made, []);
    }
  }

  /** Where `shutil.copy2(src, dst)` writes: into `dst` when `dst` is a directory. */
  function CopyTarget(t: Tree, src: Path, dst: Path): (target: Path)
    requires Valid(t)
    ensures target != []
  {
    if IsDir(t, dst) then dst + [Name(src)] else dst
  }

  /**
    `shutil.copy2(src, dst)`: the file `src` is copied to `dst`, or into it
    when `dst` is a directory; copying a file onto itself, copying a
    directory, a missing source, a missing parent or a directory in the way
    are errors.
  */
  function Copy2(t: Tree, src: Path, dst: Path): (r: Result<Tree, Fault>)
    requires Valid(t)
    ensures r.Err? <==> (
      var target := CopyTarget(t, src, dst);
      !IsFile(t, src) || target == src || !IsDir(t, Parent(target)) || IsDir(t, target))
    ensures r.Ok? ==> Valid(r.value) && Grows(t, r.value)
    ensures r.Ok? ==> var target := CopyTarget(t, src, dst);
      && r.value.Keys == t.Keys + {target}
      && r.value[target] == t[src]
      && forall q :: q in t && q != target ==> r.value[q] == t[q]
  {
    var target := CopyTarget(t, src, dst);
    if src in t && target == src then Err(SameFile)
    else if src !in t then Err(NotFound)
    else if t[src] == Dir then Err(IsADirectory)
    else if !IsDir(t, Parent(target)) then Err(if Parent(target) in t then NotADirectory else NotFound)
    else if IsDir(t, target) then Err(IsADirectory)
    else Ok(t[target := t[src]])
  }
}
