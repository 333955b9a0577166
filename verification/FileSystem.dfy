/** A file system as one map from locations to nodes, with subtrees taken out and put in. */
module FileSystem {
  import opened Wire

  /** The names from the root down. */
  type Location = seq<bytes>

  /** A directory or anything else; `attributes` stands for all the metadata of the node. */
  datatype Node = Folder(attributes: bytes) | Leaf(attributes: bytes, content: bytes)

  type Disk = map<Location, Node>

  function Above(at: Location): (parent: Location)
    requires at != []
  {
    at[..|at| - 1]
  }

  /** `k` is `at` or lies somewhere below it. */
  predicate Within(k: Location, at: Location) { at <= k }

  /** Everything lies in a directory that is there. */
  predicate Closed(d: Disk) {
    forall k :: k in d && k != [] ==> Above(k) in d && d[Above(k)].Folder?
  }

  /** A closed directory tree, its own root at the empty location. */
  predicate IsTree(t: Disk) {
    [] in t && t[[]].Folder? && Closed(t)
  }

  lemma {:induction false} AboveExists(d: Disk, at: Location, k: Location)
    requires Closed(d) && k in d && Within(k, at)
    ensures at in d
    decreases |k| - |at|
  {
    if at != k {
      assert Within(Above(k), at);
      AboveExists(d, at, Above(k));
    }
  }

  function Without(d: Disk, at: Location): (r: Disk) {
    map k | k in d && !Within(k, at) :: d[k]
  }

  /** What lies at or below `at`, seen from there. */
  function Subtree(d: Disk, at: Location): (t: Disk)
  {
    assert forall k :: k in d && Within(k, at) ==> at + k[|at|..] == k;
    map r | r in (set k | k in d && Within(k, at) :: k[|at|..]) :: d[at + r]
  }

  /** `d` with exactly `t` at and below `at`. */
  function Graft(d: Disk, at: Location, t: Disk): (g: Disk)
  {
    assert forall r: Location :: (at + r)[|at|..] == r;
    Without(d, at) + map k | k in (set r | r in t :: at + r) :: t[k[|at|..]]
  }

  lemma WithoutMeans(d: Disk, at: Location)
    ensures forall k :: k in Without(d, at) <==> k in d && !Within(k, at)
    ensures forall k :: k in Without(d, at) ==> Without(d, at)[k] == d[k]
  {
  }

  lemma SubtreeMeans(d: Disk, at: Location)
    ensures forall r :: r in Subtree(d, at) <==> at + r in d
    ensures forall r :: r in Subtree(d, at) ==> Subtree(d, at)[r] == d[at + r]
  {
    assert forall k :: k in d && Within(k, at) ==> at + k[|at|..] == k;
    assert forall r :: at + r in d ==> (at + r)[|at|..] == r && Within(at + r, at);
  }

  lemma GraftMeans(d: Disk, at: Location, t: Disk)
    ensures forall k :: k in Graft(d, at, t) <==> if Within(k, at) then k[|at|..] in t else k in d
    ensures forall k :: k in Graft(d, at, t) ==> Graft(d, at, t)[k] == if Within(k, at) then t[k[|at|..]] else d[k]
  {
    assert forall r: Location :: (at + r)[|at|..] == r;
    assert forall k :: Within(k, at) ==> at + k[|at|..] == k;
  }

  lemma SubtreeOfGraft(d: Disk, at: Location, t: Disk)
    ensures Subtree(Graft(d, at, t), at) == t
  {
    hide Subtree, Graft;
    SubtreeMeans(Graft(d, at, t), at);
    GraftMeans(d, at, t);
    assert forall r: Location :: (at + r)[|at|..] == r && Within(at + r, at);
  }

  lemma SameSubtree(d: Disk, e: Disk, at: Location)
    requires SameBelow(d, e, at)
    ensures Subtree(d, at) == Subtree(e, at)
  {
    hide Subtree;
    SubtreeMeans(d, at);
    SubtreeMeans(e, at);
    assert forall r: Location :: Within(at + r, at);
  }

  lemma WithoutClosed(d: Disk, at: Location)
    requires Closed(d)
    ensures Closed(Without(d, at))
  {
  }

  lemma GraftClosed(d: Disk, at: Location, t: Disk)
    requires Closed(d) && IsTree(t) && at != [] && Above(at) in d && d[Above(at)].Folder?
    ensures Closed(Graft(d, at, t))
  {
    hide Graft;
    GraftMeans(d, at, t);
    var g := Graft(d, at, t);
    forall k | k in g && k != [] ensures Above(k) in g && g[Above(k)].Folder? {
      if Within(k, at) {
        var r := k[|at|..];
        if r == [] {
          assert k == at;
        } else {
          assert Above(k)[|at|..] == Above(r) && Within(Above(k), at);
        }
      }
    }
  }

  lemma SubtreeIsTree(d: Disk, at: Location)
    requires Closed(d) && at in d && d[at].Folder?
    ensures IsTree(Subtree(d, at))
  {
    hide Subtree;
    SubtreeMeans(d, at);
    assert at + [] == at;
    forall r | r in Subtree(d, at) && r != [] ensures Above(r) in Subtree(d, at) && Subtree(d, at)[Above(r)].Folder? {
      assert Above(at + r) == at + Above(r);
    }
  }

  /** What is not there has nothing below it. */
  lemma NothingBelow(d: Disk, at: Location)
    requires Closed(d) && at !in d
    ensures forall k :: Within(k, at) ==> k !in d
  {
    forall k | Within(k, at) ensures k !in d {
      if k in d {
        AboveExists(d, at, k);
      }
    }
  }

  /** Nothing at or below `at` differs. */
  ghost predicate SameBelow(d: Disk, e: Disk, at: Location) {
    forall k :: Within(k, at) ==> (k in d <==> k in e) && (k in d ==> d[k] == e[k])
  }
}
