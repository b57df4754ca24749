/** Paths as sequences of name segments, and the two filesystem primitives the
    tool uses, `mkdirSync` and a recursive forced `rmSync`, over an abstract
    set of existing paths. */
module Paths {
  import opened Wrappers

  type Name = string

  /** A path from the filesystem root; `[]` is the root itself. */
  type Path = seq<Name>

  /** `path.join(base, name)` for a single-segment `name`. */
  function Child(base: Path, name: Name): (p: Path)
    ensures |p| == |base| + 1 && p[..|base|] == base && p[|base|] == name
  {
    base + [name]
  }

  function Parent(p: Path): Path
    requires p != []
  {
    p[..|p| - 1]
  }

  /** A set of paths that can exist on a filesystem: it holds the root and the
      parent of every path it holds. */
  predicate Closed(fs: set<Path>)
  {
    [] in fs && forall p :: p in fs && p != [] ==> Parent(p) in fs
  }

  /** The errors `mkdirSync` raises in this model. */
  datatype FsError =
    | NoEntry(path: Path)        // ENOENT: the parent directory does not exist
    | AlreadyExists(path: Path)  // EEXIST: the path is already there

  /** `fs.mkdirSync(p)`, non-recursive: it fails when `p` exists or when its
      parent does not. */
  function Mkdir(fs: set<Path>, p: Path): (r: Result<set<Path>, FsError>)
    ensures r.Success? <==> p != [] && p !in fs && Parent(p) in fs
    ensures r.Success? ==> r.value == fs + {p}
    ensures r.Failure? && p != [] && p !in fs ==> r.error == NoEntry(p)
    ensures r.Success? && Closed(fs) ==> Closed(r.value)
  {
    if p == [] || p in fs then Failure(AlreadyExists(p))
    else if Parent(p) !in fs then Failure(NoEntry(p))
    else Success(fs + {p})
  }

  /** `fs.rmSync(p, { recursive: true, force: true })`: `p` and every path
      beneath it disappear. */
  function RemoveTree(fs: set<Path>, p: Path): (r: set<Path>)
    ensures r <= fs && p !in r
    ensures forall q :: q in fs && !(p <= q) ==> q in r
    ensures forall q :: q in r ==> !(p <= q)
    ensures Closed(fs) && p != [] ==> Closed(r)
  {
    set q | q in fs && !(p <= q)
  }

  /** In a closed set, every prefix of a present path is present. */
  lemma {:induction false} AncestorPresent(fs: set<Path>, a: Path, q: Path)
    requires Closed(fs) && q in fs && a <= q
    ensures a in fs
    decreases |q| - |a|
  {
    if |a| < |q| {
      var longer := q[..|a| + 1];
      AncestorPresent(fs, longer, q);
      assert Parent(longer) == a;
    } else {
      assert a == q;
    }
  }

  /** Removing a tree whose root is absent changes nothing (the `force` flag). */
  lemma RemoveAbsentTree(fs: set<Path>, p: Path)
    requires p !in fs
    ensures Closed(fs) ==> RemoveTree(fs, p) == fs
  {
    if Closed(fs) {
      forall q | q in fs && p <= q
        ensures false
      {
        AncestorPresent(fs, p, q);
      }
    }
  }

  /** Two children of the same directory are nested only when they are equal. */
  lemma ChildPrefix(base: Path, a: Name, b: Name)
    ensures Child(base, a) <= Child(base, b) <==> a == b
  {
    if Child(base, a) <= Child(base, b) {
      assert Child(base, a)[|base|] == Child(base, b)[|base|];
    }
  }
}
