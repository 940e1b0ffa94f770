/**
 * The hierarchical configuration tree that module options and waypoints are
 * read from and written to.  A tree is stored as its leaves: a map from the
 * path of each leaf (a sequence of keys) to the scalar it holds.  A node is
 * "virtual" when no leaf lies at or below its path; setting a node replaces
 * everything at and below it, and any scalar held by one of its ancestors.
 */
module ConfigTree {

  /** A Java `int`. */
  type Int32 = i: int | -0x8000_0000 <= i < 0x8000_0000

  /** The value stored at a leaf. */
  datatype Scalar = Str(text: string) | Int(number: Int32) | Bool(flag: bool)

  type Path = seq<string>

  type Tree = map<Path, Scalar>

  /** One of the two paths lies on the other's way from the root. */
  predicate Overlaps(p: Path, q: Path) {
    p <= q || q <= p
  }

  /** Two prefixes of the same path are comparable. */
  lemma PrefixesOverlap(p: Path, q: Path, k: Path)
    requires p <= k && q <= k
    ensures Overlaps(p, q)
  {
    if |p| <= |q| {
      assert q[..|p|] == k[..|p|];
    } else {
      assert p[..|q|] == k[..|q|];
    }
  }

  /** Two paths that differ at some position lie apart. */
  lemma ApartAt(p: Path, q: Path, i: nat)
    requires i < |p| && i < |q| && p[i] != q[i]
    ensures !Overlaps(p, q)
  {
  }

  /** Paths that lie apart still do below a common parent. */
  lemma ApartBelow(n: Path, p: Path, q: Path)
    requires !Overlaps(p, q)
    ensures !Overlaps(n + p, n + q)
  {
    if n + p <= n + q {
      PrefixBelow(n, p, q);
    }
    if n + q <= n + p {
      PrefixBelow(n, q, p);
    }
  }

  lemma PrefixBelow(n: Path, p: Path, q: Path)
    requires n + p <= n + q
    ensures p <= q
  {
    assert q[..|p|] == (n + q)[..|n + p|][|n|..];
  }

  /** No path of the list lies on or under another. */
  predicate PairwiseApart(ps: seq<Path>) {
    forall i, j :: 0 <= i < |ps| && 0 <= j < |ps| && i != j ==> !Overlaps(ps[i], ps[j])
  }

  /** `hasChild(p)`: the node at `p` is not virtual. */
  predicate Present(t: Tree, p: Path) {
    exists k :: k in t && p <= k
  }

  lemma SplitAtPrefix(p: Path, k: Path)
    requires p <= k
    ensures p + k[|p|..] == k
  {
  }

  /** The paths below `p` of the leaves at or below `p`, relative to `p`. */
  function Below(t: Tree, p: Path): set<Path> {
    set k | k in t && p <= k :: k[|p|..]
  }

  lemma BelowMember(t: Tree, p: Path, s: Path)
    ensures s in Below(t, p) <==> p + s in t
  {
    if p + s in t {
      assert (p + s)[|p|..] == s;
    }
    if s in Below(t, p) {
      var k :| k in t && p <= k && s == k[|p|..];
      SplitAtPrefix(p, k);
    }
  }

  /** `node(p)`: the tree seen from the node at `p`. */
  function Subtree(t: Tree, p: Path): Tree {
    map s | s in Below(t, p) && p + s in t :: t[p + s]
  }

  /** The leaves of the tree seen from `p` are the leaves at or below `p`. */
  lemma SubtreeAt(t: Tree, p: Path)
    ensures forall k :: k in Subtree(t, p) <==> p + k in t
    ensures forall k :: k in Subtree(t, p) ==> Subtree(t, p)[k] == t[p + k]
  {
    forall k ensures k in Subtree(t, p) <==> p + k in t {
      BelowMember(t, p, k);
    }
  }

  /** One leaf of the tree seen from `p`. */
  lemma SubtreeMember(t: Tree, p: Path, k: Path)
    ensures k in Subtree(t, p) <==> p + k in t
    ensures k in Subtree(t, p) ==> Subtree(t, p)[k] == t[p + k]
  {
    BelowMember(t, p, k);
  }

  /** A node is present exactly when the tree seen from it has a leaf. */
  lemma PresentIffSubtreeNonEmpty(t: Tree, p: Path)
    ensures Present(t, p) <==> Subtree(t, p) != map[]
  {
    SubtreeAt(t, p);
    if Present(t, p) {
      var k :| k in t && p <= k;
      SplitAtPrefix(p, k);
      assert k[|p|..] in Subtree(t, p);
    }
    if Subtree(t, p) != map[] {
      var s :| s in Subtree(t, p);
      assert p <= p + s;
    }
  }

  /** The paths of the leaves of `sub` once it is placed at `p`. */
  function Above(p: Path, sub: Tree): (above: set<Path>)
    ensures forall k :: k in above <==> p <= k && k[|p|..] in sub
  {
    var above := set s | s in sub :: p + s;
    assert forall k :: k in above <==> p <= k && k[|p|..] in sub by {
      forall k ensures k in above <==> p <= k && k[|p|..] in sub {
        if p <= k && k[|p|..] in sub {
          SplitAtPrefix(p, k);
        }
        if k in above {
          var s :| s in sub && k == p + s;
          assert k[|p|..] == s;
        }
      }
    }
    above
  }

  /** `node(p).set(sub)`: replace the node at `p` by `sub` (an empty `sub` removes it). */
  function Graft(t: Tree, p: Path, sub: Tree): Tree {
    var kept := set k | k in t && !Overlaps(p, k);
    map k | k in kept + Above(p, sub) :: if k in kept then t[k] else sub[k[|p|..]]
  }

  /** The leaves after grafting: those of `t` off `p`, and those of `sub` placed at `p`. */
  lemma GraftEffect(t: Tree, p: Path, sub: Tree)
    ensures forall k :: k in Graft(t, p, sub) <==> (k in t && !Overlaps(p, k)) || (p <= k && k[|p|..] in sub)
    ensures forall k :: k in Graft(t, p, sub) && !Overlaps(p, k) ==> Graft(t, p, sub)[k] == t[k]
    ensures forall s :: s in sub ==> p + s in Graft(t, p, sub) && Graft(t, p, sub)[p + s] == sub[s]
  {
    forall s | s in sub
      ensures p + s in Graft(t, p, sub) && Graft(t, p, sub)[p + s] == sub[s]
    {
      assert (p + s)[|p|..] == s;
    }
  }

  /** `node(p).set(v)` for a scalar `v`. */
  function SetLeaf(t: Tree, p: Path, v: Scalar): Tree {
    var kept := set k | k in t && !Overlaps(p, k);
    map k | k in kept + {p} :: if k == p then v else t[k]
  }

  /** Setting a scalar is grafting the one-leaf tree that holds it. */
  lemma SetLeafIsGraft(t: Tree, p: Path, v: Scalar)
    ensures SetLeaf(t, p, v) == Graft(t, p, map[[] := v])
  {
    var r, g := SetLeaf(t, p, v), Graft(t, p, map[[] := v]);
    GraftEffect(t, p, map[[] := v]);
    assert p + [] == p;
    forall k
      ensures k in r <==> k in g
      ensures k in r ==> r[k] == g[k]
    {
      if k in g && !(k in t && !Overlaps(p, k)) {
        SplitAtPrefix(p, k);
      }
    }
    SameLeaves(r, g);
  }

  /** After setting a scalar at `p`, the leaf at `p` holds it. */
  lemma SetLeafHolds(t: Tree, p: Path, v: Scalar)
    ensures p in SetLeaf(t, p, v) && SetLeaf(t, p, v)[p] == v
  {
  }

  /** Setting a scalar at `p` keeps every leaf that does not overlap `p`. */
  lemma SetLeafKeeps(t: Tree, p: Path, v: Scalar, k: Path)
    requires k in t && !Overlaps(p, k)
    ensures k in SetLeaf(t, p, v) && SetLeaf(t, p, v)[k] == t[k]
  {
  }

  /** Every other leaf after setting a scalar at `p` was there before, apart from `p`. */
  lemma SetLeafOnly(t: Tree, p: Path, v: Scalar, k: Path)
    requires k in SetLeaf(t, p, v) && k != p
    ensures k in t && SetLeaf(t, p, v)[k] == t[k] && !Overlaps(p, k)
  {
  }

  /** Looking below `p` and then below `q` is looking below `p + q`. */
  lemma SubtreeOfSubtree(t: Tree, p: Path, q: Path)
    ensures Subtree(Subtree(t, p), q) == Subtree(t, p + q)
  {
    var inner, outer := Subtree(Subtree(t, p), q), Subtree(t, p + q);
    forall k
      ensures k in inner <==> k in outer
      ensures k in inner ==> inner[k] == outer[k]
    {
      SubtreeOfSubtreeAt(t, p, q, k);
    }
    SameLeaves(inner, outer);
  }

  lemma SubtreeOfSubtreeAt(t: Tree, p: Path, q: Path, k: Path)
    ensures k in Subtree(Subtree(t, p), q) <==> k in Subtree(t, p + q)
    ensures k in Subtree(t, p + q) ==> Subtree(Subtree(t, p), q)[k] == Subtree(t, p + q)[k]
  {
    SubtreeMember(Subtree(t, p), q, k);
    SubtreeMember(t, p, q + k);
    SubtreeMember(t, p + q, k);
    assert p + (q + k) == (p + q) + k;
  }

  /** Two trees with the same leaves holding the same values are the same tree. */
  lemma SameLeaves(a: Tree, b: Tree)
    requires forall k :: k in a <==> k in b
    requires forall k :: k in a ==> a[k] == b[k]
    ensures a == b
  {
  }

  /** Grafting `sub` at `p` makes `sub` the tree seen from `p`. */
  lemma SubtreeOfGraft(t: Tree, p: Path, sub: Tree)
    ensures Subtree(Graft(t, p, sub), p) == sub
  {
    var r := Graft(t, p, sub);
    GraftEffect(t, p, sub);
    SubtreeAt(r, p);
    forall s ensures s in Subtree(r, p) <==> s in sub {
      assert (p + s)[|p|..] == s;
    }
  }

  /** Grafting at `p` leaves every node that does not overlap `p` as it was. */
  lemma GraftElsewhere(t: Tree, p: Path, sub: Tree, q: Path)
    requires !Overlaps(p, q)
    ensures Subtree(Graft(t, p, sub), q) == Subtree(t, q)
  {
    var r := Graft(t, p, sub);
    GraftEffect(t, p, sub);
    SubtreeAt(r, q);
    SubtreeAt(t, q);
    forall s ensures q + s in r <==> q + s in t {
      assert q <= q + s;
      if p <= q + s {
        PrefixesOverlap(p, q, q + s);
      }
    }
  }

  /** Mutable handle on a configuration tree, as handed to serializers. */
  class ConfigNode {
    var leaves: Tree

    constructor (t: Tree)
      ensures leaves == t
    {
      leaves := t;
    }

    /** `node(p).set(sub)`. */
    method Set(p: Path, sub: Tree)
      modifies this
      ensures leaves == Graft(old(leaves), p, sub)
    {
      leaves := Graft(leaves, p, sub);
    }

    /** `node(p).set(v)` for a scalar. */
    method SetScalar(p: Path, v: Scalar)
      modifies this
      ensures leaves == SetLeaf(old(leaves), p, v)
    {
      leaves := SetLeaf(leaves, p, v);
    }

    /** `raw(null)`: the node loses its value and all its children. */
    method Clear()
      modifies this
      ensures leaves == map[]
    {
      leaves := map[];
    }
  }
}
