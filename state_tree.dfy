/**
 * The state tree of StateNode objects, as values.
 *
 * A StateNode owns its children through unique pointers and no node is
 * ever shared, so the tree is modelled as a recursive datatype owned by the
 * state history sink.  A reference to a node (a StateNode&) is a Handle: the
 * path of child quarks that leads to it from the root.  The children of a
 * node are an unordered map in the source; here `keys[i]` is the quark of
 * child `kids[i]` and the order of `keys` (insertion order) stands for the
 * map's iteration order.
 */
module StateTree {
  import opened Wrappers
  import opened StateValues
  import opened StringDbs

  type NodeId = nat

  /** A path of child quarks from the root: the model of a reference to a node. */
  type Handle = seq<Quark>

  /** The quark a traversal passes for the root, which has no name (0xffffffff). */
  const ROOT_QUARK: Quark := 0xffff_ffff

  datatype Node = Node(id: NodeId, value: StateValue, beginTs: int, keys: seq<Quark>, kids: seq<Node>)

  /** A node as the StateNode constructor builds it: null value and no children. */
  function Leaf(id: NodeId, beginTs: int): (n: Node)
    ensures n.id == id && n.beginTs == beginTs && n.value == NullValue && n.keys == [] && n.kids == []
  {
    Node(id, NullValue, beginTs, [], [])
  }

  /** The explicit bool conversion of a node: its value is not null. */
  predicate Active(n: Node) {
    ToBool(n.value)
  }

  predicate DistinctKeys(keys: seq<Quark>) {
    forall i, j | 0 <= i < j < |keys| :: keys[i] != keys[j]
  }

  /** Every node has one key per child and no key twice. */
  predicate WellFormed(n: Node) {
    |n.keys| == |n.kids| && DistinctKeys(n.keys)
    && forall i | 0 <= i < |n.kids| :: WellFormed(n.kids[i])
  }

  function ChildIndex(keys: seq<Quark>, q: Quark): (i: nat)
    requires q in keys
    ensures i < |keys| && keys[i] == q
    ensures forall j | 0 <= j < i :: keys[j] != q
  {
    if keys[0] == q then 0 else 1 + ChildIndex(keys[1..], q)
  }

  lemma ChildIndexOf(keys: seq<Quark>, i: nat)
    requires DistinctKeys(keys) && i < |keys|
    ensures ChildIndex(keys, keys[i]) == i
  {
  }

  /** StateNode::childExists: map membership, whatever the child's value. */
  predicate ChildExists(n: Node, q: Quark) {
    q in n.keys
  }

  /** The child under q, if it exists. */
  function Child(n: Node, q: Quark): (c: Option<Node>)
    ensures c.Some? ==> ChildExists(n, q)
  {
    if q in n.keys && ChildIndex(n.keys, q) < |n.kids| then Some(n.kids[ChildIndex(n.keys, q)]) else None
  }

  /** StateNode::hasChild(quark): the child exists and its value is not null. */
  predicate HasChild(n: Node, q: Quark) {
    Child(n, q).Some? && Active(Child(n, q).value)
  }

  lemma HasChildExact(n: Node, q: Quark)
    requires WellFormed(n)
    ensures HasChild(n, q) <==> exists i :: 0 <= i < |n.keys| && n.keys[i] == q && Active(n.kids[i])
  {
    if exists i :: 0 <= i < |n.keys| && n.keys[i] == q && Active(n.kids[i]) {
      var i :| 0 <= i < |n.keys| && n.keys[i] == q && Active(n.kids[i]);
      ChildIndexOf(n.keys, i);
    }
  }

  /** The node a handle denotes, if the path exists. */
  function Get(n: Node, h: Handle): Option<Node>
    decreases |h|
  {
    if h == [] then Some(n)
    else
      match Child(n, h[0])
      case None => None
      case Some(c) => Get(c, h[1..])
  }

  predicate IsHandle(n: Node, h: Handle) {
    Get(n, h).Some?
  }

  /** The tree with the subtree at h replaced by m. */
  function Replace(n: Node, h: Handle, m: Node): Node
    requires IsHandle(n, h)
    decreases |h|
  {
    if h == [] then m
    else
      var i := ChildIndex(n.keys, h[0]);
      n.(kids := n.kids[i := Replace(n.kids[i], h[1..], m)])
  }

  lemma {:induction false} GetReplace(n: Node, h: Handle, m: Node)
    requires IsHandle(n, h)
    ensures Get(Replace(n, h, m), h) == Some(m)
    decreases |h|
  {
    if h != [] {
      var i := ChildIndex(n.keys, h[0]);
      GetReplace(n.kids[i], h[1..], m);
    }
  }

  /** Replacing the same subtree twice keeps only the second replacement. */
  lemma {:induction false} ReplaceTwice(n: Node, h: Handle, a: Node, b: Node)
    requires IsHandle(n, h)
    ensures IsHandle(Replace(n, h, a), h)
    ensures Replace(Replace(n, h, a), h, b) == Replace(n, h, b)
    decreases |h|
  {
    GetReplace(n, h, a);
    if h != [] {
      var i := ChildIndex(n.keys, h[0]);
      ReplaceTwice(n.kids[i], h[1..], a, b);
    }
  }

  lemma {:induction false} ReplaceWellFormed(n: Node, h: Handle, m: Node)
    requires IsHandle(n, h) && WellFormed(n) && WellFormed(m)
    ensures WellFormed(Replace(n, h, m))
    decreases |h|
  {
    if h != [] {
      var i := ChildIndex(n.keys, h[0]);
      ReplaceWellFormed(n.kids[i], h[1..], m);
    }
  }

  /** Replacing a child of a replaced node is one replacement of the parent. */
  lemma {:induction false} ReplaceChild(n: Node, h: Handle, a: Node, q: Quark, b: Node)
    requires IsHandle(n, h) && q in a.keys && ChildIndex(a.keys, q) < |a.kids|
    ensures IsHandle(Replace(n, h, a), h + [q])
    ensures Replace(Replace(n, h, a), h + [q], b) == Replace(n, h, a.(kids := a.kids[ChildIndex(a.keys, q) := b]))
    decreases |h|
  {
    GetReplace(n, h, a);
    if h == [] {
      assert (h + [q])[1..] == [];
    } else {
      var i := ChildIndex(n.keys, h[0]);
      assert (h + [q])[0] == h[0];
      assert (h + [q])[1..] == h[1..] + [q];
      ReplaceChild(n.kids[i], h[1..], a, q, b);
    }
  }

  lemma {:induction false} GetChild(n: Node, h: Handle, q: Quark)
    requires IsHandle(n, h)
    ensures Get(n, h + [q]) == Child(Get(n, h).value, q)
    decreases |h|
  {
    if h == [] {
      assert (h + [q])[1..] == [];
    } else {
      assert (h + [q])[0] == h[0];
      assert (h + [q])[1..] == h[1..] + [q];
      GetChild(Child(n, h[0]).value, h[1..], q);
    }
  }

  /** The subtree a handle reaches keeps the shape invariants of the whole tree. */
  lemma {:induction false} GetShape(n: Node, h: Handle)
    requires IsHandle(n, h)
    ensures WellFormed(n) ==> WellFormed(Get(n, h).value)
    ensures Distinct(n) ==> Distinct(Get(n, h).value)
    decreases |h|
  {
    if h != [] {
      var i := ChildIndex(n.keys, h[0]);
      GetShape(n.kids[i], h[1..]);
    }
  }

  // ---------------------------------------------------------------------
  // Node identifiers
  // ---------------------------------------------------------------------

  function Ids(n: Node): set<NodeId>
    decreases n
  {
    {n.id} + IdsOf(n.kids)
  }

  function IdsOf(ns: seq<Node>): set<NodeId>
    decreases ns
  {
    if ns == [] then {} else Ids(ns[0]) + IdsOf(ns[1..])
  }

  predicate PairwiseDisjoint(ns: seq<Node>) {
    forall i, j | 0 <= i < j < |ns| :: Ids(ns[i]) !! Ids(ns[j])
  }

  /** No two nodes of the tree share an identifier. */
  predicate Distinct(n: Node)
    decreases n
  {
    n.id !in IdsOf(n.kids)
    && PairwiseDisjoint(n.kids)
    && (forall i | 0 <= i < |n.kids| :: Distinct(n.kids[i]))
  }

  lemma {:induction false} IdsOfMember(ns: seq<Node>, i: nat)
    requires i < |ns|
    ensures Ids(ns[i]) <= IdsOf(ns)
    decreases ns
  {
    if i > 0 {
      IdsOfMember(ns[1..], i - 1);
    }
  }

  lemma {:induction false} IdsOfElement(ns: seq<Node>, x: NodeId)
    requires x in IdsOf(ns)
    ensures exists i :: 0 <= i < |ns| && x in Ids(ns[i])
    decreases ns
  {
    if x !in Ids(ns[0]) {
      IdsOfElement(ns[1..], x);
      var i :| 0 <= i < |ns[1..]| && x in Ids(ns[1..][i]);
      assert ns[1..][i] == ns[i + 1];
    }
  }

  lemma {:induction false} IdsOfUpdate(ns: seq<Node>, i: nat, k: Node, extra: set<NodeId>)
    requires i < |ns| && Ids(k) == Ids(ns[i]) + extra
    ensures IdsOf(ns[i := k]) == IdsOf(ns) + extra
    decreases ns
  {
    if i == 0 {
      assert ns[i := k][1..] == ns[1..];
    } else {
      assert ns[i := k][1..] == ns[1..][i - 1 := k];
      IdsOfUpdate(ns[1..], i - 1, k, extra);
    }
  }

  /** The id of every node reached by a handle is in the tree. */
  lemma {:induction false} GetIdIn(n: Node, h: Handle)
    requires IsHandle(n, h)
    ensures Ids(Get(n, h).value) <= Ids(n)
    ensures h != [] ==> Get(n, h).value.id in IdsOf(n.kids)
    decreases |h|
  {
    if h != [] {
      var i := ChildIndex(n.keys, h[0]);
      GetIdIn(n.kids[i], h[1..]);
      IdsOfMember(n.kids, i);
    }
  }

  /** Replacing a subtree by one that has the same ids plus `extra` adds exactly `extra`. */
  lemma {:induction false} ReplaceIds(n: Node, h: Handle, m: Node, extra: set<NodeId>)
    requires IsHandle(n, h) && Ids(m) == Ids(Get(n, h).value) + extra
    ensures Ids(Replace(n, h, m)) == Ids(n) + extra
    decreases |h|
  {
    if h != [] {
      var i := ChildIndex(n.keys, h[0]);
      ReplaceIds(n.kids[i], h[1..], m, extra);
      IdsOfUpdate(n.kids, i, Replace(n.kids[i], h[1..], m), extra);
    }
  }

  /** ... and keeps the ids distinct when the new ids are fresh. */
  lemma {:induction false} ReplaceDistinct(n: Node, h: Handle, m: Node, extra: set<NodeId>)
    requires IsHandle(n, h) && Distinct(n) && Distinct(m)
    requires Ids(m) == Ids(Get(n, h).value) + extra && extra !! Ids(n)
    ensures Distinct(Replace(n, h, m))
    decreases |h|
  {
    if h != [] {
      var i := ChildIndex(n.keys, h[0]);
      var old_k := n.kids[i];
      var k := Replace(old_k, h[1..], m);
      IdsOfMember(n.kids, i);
      ReplaceDistinct(old_k, h[1..], m, extra);
      ReplaceIds(old_k, h[1..], m, extra);
      IdsOfUpdate(n.kids, i, k, extra);
      var r := Replace(n, h, m);
      assert r.kids == n.kids[i := k];
      forall a, b | 0 <= a < b < |r.kids| ensures Ids(r.kids[a]) !! Ids(r.kids[b]) {
        if a == i {
          IdsOfMember(n.kids, b);
        } else if b == i {
          IdsOfMember(n.kids, a);
        }
      }
    }
  }

  /** Node equality is identity: in a tree with distinct ids, two handles reach the same id only if they are the same path. */
  lemma {:induction false} HandleIdentity(n: Node, g1: Handle, g2: Handle)
    requires WellFormed(n) && Distinct(n) && IsHandle(n, g1) && IsHandle(n, g2)
    requires Get(n, g1).value.id == Get(n, g2).value.id
    ensures g1 == g2
    decreases |g1|
  {
    GetIdIn(n, g1);
    GetIdIn(n, g2);
    if g1 != [] && g2 != [] {
      var i1 := ChildIndex(n.keys, g1[0]);
      var i2 := ChildIndex(n.keys, g2[0]);
      GetIdIn(n.kids[i1], g1[1..]);
      GetIdIn(n.kids[i2], g2[1..]);
      assert i1 == i2;
      HandleIdentity(n.kids[i1], g1[1..], g2[1..]);
    }
  }

  // ---------------------------------------------------------------------
  // Growth: handles stay valid and keep denoting the same node
  // ---------------------------------------------------------------------

  /** `a` is `b` with possibly other values and more children appended at any level. */
  predicate Extends(a: Node, b: Node)
    decreases b
  {
    a.id == b.id && |b.keys| <= |a.keys| && a.keys[..|b.keys|] == b.keys && |b.kids| <= |a.kids|
    && forall i | 0 <= i < |b.kids| :: Extends(a.kids[i], b.kids[i])
  }

  lemma {:induction false} ExtendsRefl(n: Node)
    ensures Extends(n, n)
    decreases n
  {
    forall i | 0 <= i < |n.kids| ensures Extends(n.kids[i], n.kids[i]) {
      ExtendsRefl(n.kids[i]);
    }
  }

  /** In a grown tree every old handle still exists and denotes the node with the same id. */
  lemma {:induction false} ExtendsHandle(a: Node, b: Node, g: Handle)
    requires Extends(a, b) && IsHandle(b, g)
    ensures IsHandle(a, g) && Extends(Get(a, g).value, Get(b, g).value)
    decreases |g|
  {
    if g != [] {
      var q := g[0];
      var i := ChildIndex(b.keys, q);
      assert a.keys[i] == q;
      assert forall j | 0 <= j < i :: a.keys[j] == b.keys[j];
      assert ChildIndex(a.keys, q) == i;
      ExtendsHandle(a.kids[i], b.kids[i], g[1..]);
    }
  }

  lemma {:induction false} ReplaceExtends(n: Node, h: Handle, m: Node)
    requires IsHandle(n, h) && Extends(m, Get(n, h).value)
    ensures Extends(Replace(n, h, m), n)
    decreases |h|
  {
    if h != [] {
      var i := ChildIndex(n.keys, h[0]);
      ReplaceExtends(n.kids[i], h[1..], m);
      var r := Replace(n, h, m);
      forall j | 0 <= j < |n.kids| ensures Extends(r.kids[j], n.kids[j]) {
        if j != i {
          ExtendsRefl(n.kids[j]);
        }
      }
    }
  }

  // ---------------------------------------------------------------------
  // Creating children (operator[] on a missing quark)
  // ---------------------------------------------------------------------

  /** The node with one more child k under q, inserted after the existing ones. */
  function AddChild(n: Node, q: Quark, k: Node): (r: Node)
    ensures r.id == n.id && r.value == n.value && r.beginTs == n.beginTs
    ensures r.keys == n.keys + [q] && r.kids == n.kids + [k]
  {
    n.(keys := n.keys + [q], kids := n.kids + [k])
  }

  lemma {:induction false} IdsOfAppend(ns: seq<Node>, k: Node)
    ensures IdsOf(ns + [k]) == IdsOf(ns) + Ids(k)
    decreases ns
  {
    if ns == [] {
      assert ([] + [k])[1..] == [];
    } else {
      assert (ns + [k])[1..] == ns[1..] + [k];
      IdsOfAppend(ns[1..], k);
    }
  }

  /**
   * Adding a child under a new quark: the new child is found under q, every
   * other quark finds the child it found before, and the tree only grows.
   */
  lemma AddChildChildren(n: Node, q: Quark, k: Node)
    requires WellFormed(n) && q !in n.keys
    ensures Child(AddChild(n, q, k), q) == Some(k)
    ensures forall p | p != q :: Child(AddChild(n, q, k), p) == Child(n, p)
    ensures Extends(AddChild(n, q, k), n)
    ensures WellFormed(k) ==> WellFormed(AddChild(n, q, k))
  {
    var r := AddChild(n, q, k);
    assert forall j | 0 <= j < |n.keys| :: r.keys[j] == n.keys[j];
    forall p | p != q ensures Child(r, p) == Child(n, p) {
      if p in n.keys {
        assert ChildIndex(r.keys, p) == ChildIndex(n.keys, p);
      }
    }
    forall i | 0 <= i < |n.kids| ensures Extends(r.kids[i], n.kids[i]) {
      ExtendsRefl(n.kids[i]);
    }
  }

  /** ... it adds the new child's ids and keeps all ids distinct when they are fresh. */
  lemma AddChildIds(n: Node, q: Quark, k: Node)
    ensures Ids(AddChild(n, q, k)) == Ids(n) + Ids(k)
    ensures Distinct(n) && Distinct(k) && Ids(k) !! Ids(n) ==> Distinct(AddChild(n, q, k))
  {
    var r := AddChild(n, q, k);
    IdsOfAppend(n.kids, k);
    if Distinct(n) && Distinct(k) && Ids(k) !! Ids(n) {
      forall i, j | 0 <= i < j < |r.kids| ensures Ids(r.kids[i]) !! Ids(r.kids[j]) {
        if j == |n.kids| {
          IdsOfMember(n.kids, i);
        } else {
          assert Ids(n.kids[i]) !! Ids(n.kids[j]);
        }
      }
    }
  }

  // ---------------------------------------------------------------------
  // Counting non-null nodes
  // ---------------------------------------------------------------------

  /** The ids of the nodes whose value is not null. */
  function ActiveIds(n: Node): (r: set<NodeId>)
    decreases n
  {
    (if Active(n) then {n.id} else {}) + ActiveIdsOf(n.kids)
  }

  function ActiveIdsOf(ns: seq<Node>): set<NodeId>
    decreases ns
  {
    if ns == [] then {} else ActiveIds(ns[0]) + ActiveIdsOf(ns[1..])
  }

  /** How many nodes of the tree are not null, counted node by node. */
  function ActiveCount(n: Node): nat
    decreases n
  {
    (if Active(n) then 1 else 0) + ActiveCountOf(n.kids)
  }

  function ActiveCountOf(ns: seq<Node>): nat
    decreases ns
  {
    if ns == [] then 0 else ActiveCount(ns[0]) + ActiveCountOf(ns[1..])
  }

  lemma {:induction false} ActiveIdsWithin(n: Node)
    ensures ActiveIds(n) <= Ids(n)
    decreases n
  {
    ActiveIdsOfWithin(n.kids);
  }

  lemma {:induction false} ActiveIdsOfWithin(ns: seq<Node>)
    ensures ActiveIdsOf(ns) <= IdsOf(ns)
    decreases ns
  {
    if ns != [] {
      ActiveIdsWithin(ns[0]);
      ActiveIdsOfWithin(ns[1..]);
    }
  }

  lemma PairwiseDisjointTail(ns: seq<Node>)
    requires ns != [] && PairwiseDisjoint(ns)
    ensures PairwiseDisjoint(ns[1..])
  {
    forall i, j | 0 <= i < j < |ns| - 1 ensures Ids(ns[1..][i]) !! Ids(ns[1..][j]) {
      assert ns[1..][i] == ns[i + 1] && ns[1..][j] == ns[j + 1];
    }
  }

  lemma PairwiseDisjointHead(ns: seq<Node>)
    requires ns != [] && PairwiseDisjoint(ns)
    ensures Ids(ns[0]) !! IdsOf(ns[1..])
  {
    forall x | x in IdsOf(ns[1..]) ensures x !in Ids(ns[0]) {
      IdsOfElement(ns[1..], x);
      var j :| 0 <= j < |ns[1..]| && x in Ids(ns[1..][j]);
      assert ns[1..][j] == ns[j + 1];
    }
  }

  /** With distinct ids, counting non-null nodes node by node gives the number of distinct non-null nodes. */
  lemma {:induction false} ActiveCountIsCardinality(n: Node)
    requires Distinct(n)
    ensures ActiveCount(n) == |ActiveIds(n)|
    decreases n
  {
    ActiveCountOfIsCardinality(n.kids);
    ActiveIdsOfWithin(n.kids);
  }

  lemma {:induction false} ActiveCountOfIsCardinality(ns: seq<Node>)
    requires forall i | 0 <= i < |ns| :: Distinct(ns[i])
    requires PairwiseDisjoint(ns)
    ensures ActiveCountOf(ns) == |ActiveIdsOf(ns)|
    decreases ns
  {
    if ns != [] {
      ActiveCountIsCardinality(ns[0]);
      PairwiseDisjointTail(ns);
      ActiveCountOfIsCardinality(ns[1..]);
      PairwiseDisjointHead(ns);
      ActiveIdsWithin(ns[0]);
      ActiveIdsOfWithin(ns[1..]);
      assert ActiveIds(ns[0]) !! ActiveIdsOf(ns[1..]);
    }
  }

  /** Children with the same ids (and distinct ones where they were) keep a node's ids and distinctness. */
  lemma {:induction false} IdsOfPointwise(a: seq<Node>, b: seq<Node>)
    requires |a| == |b| && forall i | 0 <= i < |a| :: Ids(a[i]) == Ids(b[i])
    ensures IdsOf(a) == IdsOf(b)
    decreases a
  {
    if a != [] {
      IdsOfPointwise(a[1..], b[1..]);
    }
  }

  lemma SameKidsIds(n: Node, ks: seq<Node>)
    requires |ks| == |n.kids|
    requires forall i | 0 <= i < |ks| :: Ids(ks[i]) == Ids(n.kids[i]) && (Distinct(n.kids[i]) ==> Distinct(ks[i]))
    ensures Ids(n.(kids := ks)) == Ids(n)
    ensures Distinct(n) ==> Distinct(n.(kids := ks))
  {
    IdsOfPointwise(ks, n.kids);
    var m := n.(kids := ks);
    assert PairwiseDisjoint(n.kids) ==> PairwiseDisjoint(m.kids) by {
      if PairwiseDisjoint(n.kids) {
        forall i, j | 0 <= i < j < |ks| ensures Ids(ks[i]) !! Ids(ks[j]) {
          assert Ids(n.kids[i]) !! Ids(n.kids[j]);
        }
      }
    }
  }

  // ---------------------------------------------------------------------
  // Null-skipping views of the children
  // ---------------------------------------------------------------------

  /** Which children convert to true, in map order. */
  function Liveness(n: Node): (r: seq<bool>)
    ensures |r| == |n.kids|
    ensures forall i | 0 <= i < |n.kids| :: r[i] == Active(n.kids[i])
  {
    seq(|n.kids|, i requires 0 <= i < |n.kids| => Active(n.kids[i]))
  }

  /** The keys of the first k children whose flag is set, in order. */
  function LiveKeys(keys: seq<Quark>, live: seq<bool>, k: nat): (r: seq<Quark>)
    requires k <= |keys| == |live|
    ensures |r| <= k
    decreases k
  {
    if k == 0 then []
    else LiveKeys(keys, live, k - 1) + (if live[k - 1] then [keys[k - 1]] else [])
  }

  /** Each further child adds one key exactly when it is live. */
  lemma LiveKeysStep(keys: seq<Quark>, live: seq<bool>, k: nat)
    requires k < |keys| == |live|
    ensures |LiveKeys(keys, live, k + 1)| == |LiveKeys(keys, live, k)| + (if live[k] then 1 else 0)
  {
  }

  /** A key is listed exactly when one of the first k children carries it and is live. */
  lemma {:induction false} LiveKeysMembers(keys: seq<Quark>, live: seq<bool>, k: nat, q: Quark)
    requires k <= |keys| == |live|
    ensures q in LiveKeys(keys, live, k) <==> exists i :: 0 <= i < k && keys[i] == q && live[i]
    decreases k
  {
    if k > 0 {
      LiveKeysMembers(keys, live, k - 1, q);
      if keys[k - 1] == q && live[k - 1] {
        assert q in LiveKeys(keys, live, k);
      }
    }
  }

  /** So the live keys of a node are exactly the quarks q with HasChild(n, q). */
  lemma LiveKeysAreChildren(n: Node, q: Quark)
    requires WellFormed(n)
    ensures q in LiveKeys(n.keys, Liveness(n), |n.kids|) <==> HasChild(n, q)
  {
    LiveKeysMembers(n.keys, Liveness(n), |n.kids|, q);
    HasChildExact(n, q);
  }

  /** Skipping only dead children adds no key. */
  lemma {:induction false} LiveKeysSkip(keys: seq<Quark>, live: seq<bool>, lo: nat, hi: nat)
    requires lo <= hi <= |keys| == |live|
    requires forall i | lo <= i < hi :: !live[i]
    ensures LiveKeys(keys, live, hi) == LiveKeys(keys, live, lo)
    decreases hi
  {
    if hi > lo {
      LiveKeysSkip(keys, live, lo, hi - 1);
    }
  }

  // ---------------------------------------------------------------------
  // Read traversal (acceptRead): preorder event stream
  // ---------------------------------------------------------------------

  /** What a read visitor is told: entering or leaving a node reached under a quark. */
  datatype VisitEvent = Enter(quark: Quark, node: Node) | Leave(quark: Quark, node: Node)

  /** StateNode::acceptRead: enter the node, visit each child subtree in map order, leave the node. */
  function Visit(n: Node, q: Quark): (r: seq<VisitEvent>)
    ensures |r| >= 2 && r[0] == Enter(q, n) && r[|r| - 1] == Leave(q, n)
    decreases n
  {
    [Enter(q, n)] + VisitOf(n.keys, n.kids) + [Leave(q, n)]
  }

  function VisitOf(keys: seq<Quark>, ns: seq<Node>): seq<VisitEvent>
    decreases ns
  {
    if ns == [] || keys == [] then [] else Visit(ns[0], keys[0]) + VisitOf(keys[1..], ns[1..])
  }

  /** StateNodeCounterVisitor: one count per Enter event whose node converts to true. */
  function CountActiveEnters(events: seq<VisitEvent>): nat
  {
    if events == [] then 0
    else
      var e := events[|events| - 1];
      CountActiveEnters(events[..|events| - 1]) + (if e.Enter? && Active(e.node) then 1 else 0)
  }

  lemma {:induction false} CountActiveEntersAppend(a: seq<VisitEvent>, b: seq<VisitEvent>)
    ensures CountActiveEnters(a + b) == CountActiveEnters(a) + CountActiveEnters(b)
    decreases |b|
  {
    if b == [] {
      assert a + b == a;
    } else {
      assert (a + b)[..|a + b| - 1] == a + b[..|b| - 1];
      CountActiveEntersAppend(a, b[..|b| - 1]);
    }
  }

  /** The counter visitor sees each node of the tree exactly once, on entry. */
  lemma {:induction false} CountVisit(n: Node, q: Quark)
    requires WellFormed(n)
    ensures CountActiveEnters(Visit(n, q)) == ActiveCount(n)
    decreases n
  {
    CountVisitOf(n.keys, n.kids);
    CountActiveEntersAppend([Enter(q, n)], VisitOf(n.keys, n.kids));
    CountActiveEntersAppend([Enter(q, n)] + VisitOf(n.keys, n.kids), [Leave(q, n)]);
    assert CountActiveEnters([Enter(q, n)]) == if Active(n) then 1 else 0 by {
      assert [Enter(q, n)][..0] == [];
    }
    assert CountActiveEnters([Leave(q, n)]) == 0 by {
      assert [Leave(q, n)][..0] == [];
    }
  }

  lemma {:induction false} CountVisitOf(keys: seq<Quark>, ns: seq<Node>)
    requires |keys| == |ns| && forall i | 0 <= i < |ns| :: WellFormed(ns[i])
    ensures CountActiveEnters(VisitOf(keys, ns)) == ActiveCountOf(ns)
    decreases ns
  {
    if ns != [] {
      CountVisit(ns[0], keys[0]);
      CountVisitOf(keys[1..], ns[1..]);
      CountActiveEntersAppend(Visit(ns[0], keys[0]), VisitOf(keys[1..], ns[1..]));
    }
  }

  /** Number of nodes in a tree. */
  function Size(n: Node): nat
    decreases n
  {
    1 + SizeOf(n.kids)
  }

  function SizeOf(ns: seq<Node>): nat
    decreases ns
  {
    if ns == [] then 0 else Size(ns[0]) + SizeOf(ns[1..])
  }

  /** Every node is entered once and left once. */
  lemma {:induction false} VisitLength(n: Node, q: Quark)
    requires WellFormed(n)
    ensures |Visit(n, q)| == 2 * Size(n)
    decreases n
  {
    VisitOfLength(n.keys, n.kids);
  }

  lemma {:induction false} VisitOfLength(keys: seq<Quark>, ns: seq<Node>)
    requires |keys| == |ns| && forall i | 0 <= i < |ns| :: WellFormed(ns[i])
    ensures |VisitOf(keys, ns)| == 2 * SizeOf(ns)
    decreases ns
  {
    if ns != [] {
      VisitLength(ns[0], keys[0]);
      VisitOfLength(keys[1..], ns[1..]);
    }
  }

  // ---------------------------------------------------------------------
  // Assignment and nullification
  // ---------------------------------------------------------------------

  /** One entry of the interval history: [begin, end] of a value held by node `key`. */
  datatype Interval = Interval(begin: int, end: int, key: NodeId, value: StateValue)

  /** What writeInterval records for a node when the current timestamp is ts: nothing for a null value. */
  function IntervalOf(n: Node, ts: int): (r: seq<Interval>)
    ensures |r| == if Active(n) then 1 else 0
    ensures Active(n) ==> r[0] == Interval(n.beginTs, ts, n.id, n.value)
  {
    if Active(n) then [Interval(n.beginTs, ts, n.id, n.value)] else []
  }

  /** The node after the template operator=: new value, beginTs moved to ts, children untouched. */
  function Assigned(n: Node, v: StateValue, ts: int): (r: Node)
    ensures r.id == n.id && r.keys == n.keys && r.kids == n.kids
    ensures r.value == v && r.beginTs == ts
  {
    n.(value := v, beginTs := ts)
  }

  lemma AssignedExtends(n: Node, v: StateValue, ts: int)
    ensures Extends(Assigned(n, v, ts), n) && Ids(Assigned(n, v, ts)) == Ids(n)
    ensures WellFormed(n) ==> WellFormed(Assigned(n, v, ts))
    ensures Distinct(n) ==> Distinct(Assigned(n, v, ts))
  {
    ExtendsRefl(n);
  }

  /** The tree after the nullifier visitor has set every node to null at timestamp ts. */
  function NullifyAll(n: Node, ts: int): (r: Node)
    ensures r.id == n.id && r.keys == n.keys && |r.kids| == |n.kids|
    decreases n
  {
    Node(n.id, NullValue, ts, n.keys, seq(|n.kids|, i requires 0 <= i < |n.kids| => NullifyAll(n.kids[i], ts)))
  }

  /** The intervals the nullifier writes, in preorder. */
  function ClosingIntervals(n: Node, ts: int): seq<Interval>
    decreases n
  {
    IntervalOf(n, ts) + ClosingIntervalsOf(n.kids, ts)
  }

  function ClosingIntervalsOf(ns: seq<Node>, ts: int): seq<Interval>
    decreases ns
  {
    if ns == [] then [] else ClosingIntervals(ns[0], ts) + ClosingIntervalsOf(ns[1..], ts)
  }

  lemma {:induction false} ActiveIdsOfNone(ns: seq<Node>)
    requires forall i | 0 <= i < |ns| :: ActiveIds(ns[i]) == {}
    ensures ActiveIdsOf(ns) == {}
    decreases ns
  {
    if ns != [] {
      ActiveIdsOfNone(ns[1..]);
    }
  }

  /** After nullification no node is active and the tree keeps its shape and ids. */
  lemma {:induction false} NullifyAllShape(n: Node, ts: int)
    ensures ActiveIds(NullifyAll(n, ts)) == {}
    ensures Ids(NullifyAll(n, ts)) == Ids(n)
    ensures Extends(NullifyAll(n, ts), n)
    ensures WellFormed(n) ==> WellFormed(NullifyAll(n, ts))
    ensures Distinct(n) ==> Distinct(NullifyAll(n, ts))
    decreases n
  {
    var r := NullifyAll(n, ts);
    forall i | 0 <= i < |n.kids|
      ensures ActiveIds(r.kids[i]) == {} && Ids(r.kids[i]) == Ids(n.kids[i]) && Extends(r.kids[i], n.kids[i])
      ensures WellFormed(n.kids[i]) ==> WellFormed(r.kids[i])
      ensures Distinct(n.kids[i]) ==> Distinct(r.kids[i])
    {
      NullifyAllShape(n.kids[i], ts);
    }
    ActiveIdsOfNone(r.kids);
    SameKidsIds(n, r.kids);
    assert r == n.(kids := r.kids).(value := NullValue, beginTs := ts);
  }

  lemma {:induction false} ClosingCount(n: Node, ts: int)
    ensures |ClosingIntervals(n, ts)| == ActiveCount(n)
    decreases n
  {
    ClosingCountOf(n.kids, ts);
  }

  lemma {:induction false} ClosingCountOf(ns: seq<Node>, ts: int)
    ensures |ClosingIntervalsOf(ns, ts)| == ActiveCountOf(ns)
    decreases ns
  {
    if ns != [] {
      ClosingCount(ns[0], ts);
      ClosingCountOf(ns[1..], ts);
    }
  }

  lemma {:induction false} ClosingIntervalsOfAppend(a: seq<Node>, b: seq<Node>, ts: int)
    ensures ClosingIntervalsOf(a + b, ts) == ClosingIntervalsOf(a, ts) + ClosingIntervalsOf(b, ts)
    decreases a
  {
    if a == [] {
      assert a + b == b;
    } else {
      assert (a + b)[1..] == a[1..] + b;
      ClosingIntervalsOfAppend(a[1..], b, ts);
    }
  }

  /** The intervals of one more child of a prefix follow those of the prefix. */
  lemma ClosingIntervalsOfStep(ns: seq<Node>, i: nat, ts: int)
    requires i < |ns|
    ensures ClosingIntervalsOf(ns[..i + 1], ts) == ClosingIntervalsOf(ns[..i], ts) + ClosingIntervals(ns[i], ts)
  {
    assert ns[..i + 1] == ns[..i] + [ns[i]];
    ClosingIntervalsOfAppend(ns[..i], [ns[i]], ts);
    assert [ns[i]][1..] == [];
  }

  /** The set of nodes an interval list speaks about. */
  function IntervalKeys(s: seq<Interval>): set<NodeId> {
    set iv | iv in s :: iv.key
  }

  lemma IntervalKeysAppend(a: seq<Interval>, b: seq<Interval>)
    ensures IntervalKeys(a + b) == IntervalKeys(a) + IntervalKeys(b)
  {
    assert forall iv :: iv in a + b <==> iv in a || iv in b;
  }

  /** The nullifier closes exactly the active nodes, each at ts and with a non-null value. */
  lemma {:induction false} ClosingIntervalsKeys(n: Node, ts: int)
    ensures IntervalKeys(ClosingIntervals(n, ts)) == ActiveIds(n)
    ensures forall iv | iv in ClosingIntervals(n, ts) :: iv.end == ts && iv.value != NullValue
    decreases n
  {
    ClosingIntervalsOfKeys(n.kids, ts);
    IntervalKeysAppend(IntervalOf(n, ts), ClosingIntervalsOf(n.kids, ts));
  }

  lemma {:induction false} ClosingIntervalsOfKeys(ns: seq<Node>, ts: int)
    ensures IntervalKeys(ClosingIntervalsOf(ns, ts)) == ActiveIdsOf(ns)
    ensures forall iv | iv in ClosingIntervalsOf(ns, ts) :: iv.end == ts && iv.value != NullValue
    decreases ns
  {
    if ns != [] {
      ClosingIntervalsKeys(ns[0], ts);
      ClosingIntervalsOfKeys(ns[1..], ts);
      IntervalKeysAppend(ClosingIntervals(ns[0], ts), ClosingIntervalsOf(ns[1..], ts));
    }
  }

  /**
   * setNullRecursive part-way: the node and its first `upTo` children set to
   * null at ts; later children and all grandchildren untouched.
   */
  function NullifyShallow(n: Node, ts: int, upTo: nat): (r: Node)
    requires upTo <= |n.kids|
    ensures r.id == n.id && r.keys == n.keys && |r.kids| == |n.kids|
    ensures r.value == NullValue && r.beginTs == ts
  {
    Assigned(n, NullValue, ts).(kids := seq(|n.kids|, i requires 0 <= i < |n.kids| =>
      if i < upTo then Assigned(n.kids[i], NullValue, ts) else n.kids[i]))
  }

  /** Each child's grandchildren are untouched. */
  lemma NullifyShallowGrandchildren(n: Node, ts: int, upTo: nat, i: nat)
    requires upTo <= |n.kids| && i < |n.kids|
    ensures NullifyShallow(n, ts, upTo).kids[i].kids == n.kids[i].kids
    ensures NullifyShallow(n, ts, upTo).kids[i].id == n.kids[i].id
    ensures i < upTo ==> NullifyShallow(n, ts, upTo).kids[i].value == NullValue
    ensures upTo <= i ==> NullifyShallow(n, ts, upTo).kids[i] == n.kids[i]
  {
  }

  /** One more child done. */
  lemma NullifyShallowStep(n: Node, ts: int, upTo: nat)
    requires upTo < |n.kids|
    ensures NullifyShallow(n, ts, upTo + 1)
         == NullifyShallow(n, ts, upTo).(kids := NullifyShallow(n, ts, upTo).kids[upTo := Assigned(n.kids[upTo], NullValue, ts)])
  {
  }

  lemma NullifyShallowShape(n: Node, ts: int, upTo: nat)
    requires upTo <= |n.kids|
    ensures Extends(NullifyShallow(n, ts, upTo), n) && Ids(NullifyShallow(n, ts, upTo)) == Ids(n)
    ensures WellFormed(n) ==> WellFormed(NullifyShallow(n, ts, upTo))
    ensures Distinct(n) ==> Distinct(NullifyShallow(n, ts, upTo))
  {
    var r := NullifyShallow(n, ts, upTo);
    forall i | 0 <= i < |n.kids|
      ensures Extends(r.kids[i], n.kids[i]) && Ids(r.kids[i]) == Ids(n.kids[i])
      ensures WellFormed(n.kids[i]) ==> WellFormed(r.kids[i])
      ensures Distinct(n.kids[i]) ==> Distinct(r.kids[i])
    {
      AssignedExtends(n.kids[i], NullValue, ts);
      ExtendsRefl(n.kids[i]);
    }
    SameKidsIds(n, r.kids);
    assert r == n.(kids := r.kids).(value := NullValue, beginTs := ts);
  }

  /** The intervals setNullRecursive writes: the node's, then its first `upTo` children's in map order. */
  function ShallowIntervals(n: Node, ts: int, upTo: nat): (r: seq<Interval>)
    requires upTo <= |n.kids|
    ensures IntervalKeys(r) <= Ids(n)
  {
    if upTo == 0 then IntervalOf(n, ts)
    else
      IdsOfMember(n.kids, upTo - 1);
      IntervalKeysAppend(ShallowIntervals(n, ts, upTo - 1), IntervalOf(n.kids[upTo - 1], ts));
      ShallowIntervals(n, ts, upTo - 1) + IntervalOf(n.kids[upTo - 1], ts)
  }

  // ---------------------------------------------------------------------
  // Nodes map: the JSON written by the tree-to-JSON visitor
  // ---------------------------------------------------------------------

  /** The calls made on the YAJL generator. */
  datatype JsonToken = JString(str: string) | JInteger(number: int) | MapOpen | MapClose

  /** What the visitor emits on entering a node: its subpath (unless it is the root), then its map header. */
  function EnterTokens(q: Quark, n: Node, subpaths: StringDb): Result<seq<JsonToken>, WrongQuark>
  {
    var header := HeaderTokens(n);
    if q == ROOT_QUARK then Success(header)
    else
      var name := GetQuarkString(subpaths, q);
      if name.Failure? then Failure(name.error) else Success([JString(name.value)] + header)
  }

  /** A node's map header: its "id" member and, when it has children, the opening of its "children" map. */
  function HeaderTokens(n: Node): seq<JsonToken> {
    [MapOpen, JString("id"), JInteger(n.id)] + (if |n.kids| > 0 then [JString("children"), MapOpen] else [])
  }

  /** What the visitor emits on leaving a node: close its children map, if open, and its own map. */
  function LeaveTokens(n: Node): seq<JsonToken> {
    (if |n.kids| > 0 then [MapClose] else []) + [MapClose]
  }

  function EventTokens(e: VisitEvent, subpaths: StringDb): Result<seq<JsonToken>, WrongQuark> {
    if e.Enter? then EnterTokens(e.quark, e.node, subpaths) else Success(LeaveTokens(e.node))
  }

  /** The generator's output for a stream of visit events; an unknown subpath quark aborts with WrongQuark. */
  function NodesMapTokens(events: seq<VisitEvent>, subpaths: StringDb): Result<seq<JsonToken>, WrongQuark>
  {
    if events == [] then Success([])
    else
      var first := EventTokens(events[0], subpaths);
      var rest := NodesMapTokens(events[1..], subpaths);
      if first.Failure? then first
      else if rest.Failure? then rest
      else Success(first.value + rest.value)
  }

  /** A JSON document: an object lists its member names and values in order. */
  datatype Json = JObject(names: seq<string>, values: seq<Json>) | JNumber(num: int)

  /** Every child quark of the tree has a subpath string and is not the root marker. */
  predicate KeysKnown(n: Node, subpaths: StringDb)
    decreases n
  {
    (forall q | q in n.keys :: q in subpaths.right && q != ROOT_QUARK)
    && forall i | 0 <= i < |n.kids| :: KeysKnown(n.kids[i], subpaths)
  }

  /**
   * The intended document: each node is an object with its "id" and, when
   * it has any children (null or not), a "children" object keyed by subpath.
   */
  function NodeJson(n: Node, subpaths: StringDb): (j: Json)
    requires WellFormed(n) && KeysKnown(n, subpaths)
    ensures j.JObject? && |j.names| == |j.values|
    decreases n
  {
    if |n.kids| == 0 then JObject(["id"], [JNumber(n.id)])
    else
      var children := JObject(ChildNames(n.keys, subpaths), ChildrenJson(n.kids, subpaths));
      JObject(["id", "children"], [JNumber(n.id), children])
  }

  function ChildNames(keys: seq<Quark>, subpaths: StringDb): (r: seq<string>)
    requires forall q | q in keys :: q in subpaths.right
    ensures |r| == |keys|
  {
    if keys == [] then [] else [subpaths.right[keys[0]]] + ChildNames(keys[1..], subpaths)
  }

  function ChildrenJson(ns: seq<Node>, subpaths: StringDb): (r: seq<Json>)
    requires forall i | 0 <= i < |ns| :: WellFormed(ns[i]) && KeysKnown(ns[i], subpaths)
    ensures |r| == |ns|
    decreases ns
  {
    if ns == [] then [] else [NodeJson(ns[0], subpaths)] + ChildrenJson(ns[1..], subpaths)
  }

  /** The generator calls that write a JSON document. */
  function Serialize(j: Json): seq<JsonToken>
    decreases j
  {
    match j
    case JNumber(x) => [JInteger(x)]
    case JObject(names, values) => [MapOpen] + SerializeMembers(names, values) + [MapClose]
  }

  function SerializeMembers(names: seq<string>, values: seq<Json>): seq<JsonToken>
    decreases values
  {
    if names == [] || values == [] then []
    else [JString(names[0])] + Serialize(values[0]) + SerializeMembers(names[1..], values[1..])
  }

  lemma {:induction false} NodesMapTokensAppend(a: seq<VisitEvent>, b: seq<VisitEvent>, subpaths: StringDb)
    requires NodesMapTokens(a, subpaths).Success? && NodesMapTokens(b, subpaths).Success?
    ensures NodesMapTokens(a + b, subpaths)
         == Success(NodesMapTokens(a, subpaths).value + NodesMapTokens(b, subpaths).value)
    decreases |a|
  {
    if a == [] {
      assert a + b == b;
      assert [] + NodesMapTokens(b, subpaths).value == NodesMapTokens(b, subpaths).value;
    } else {
      assert (a + b)[0] == a[0] && (a + b)[1..] == a[1..] + b;
      NodesMapTokensAppend(a[1..], b, subpaths);
      var f, x, y := EventTokens(a[0], subpaths).value, NodesMapTokens(a[1..], subpaths).value, NodesMapTokens(b, subpaths).value;
      assert f + (x + y) == (f + x) + y;
    }
  }

  lemma NodesMapTokensSingle(e: VisitEvent, subpaths: StringDb)
    ensures NodesMapTokens([e], subpaths) == EventTokens(e, subpaths)
  {
    assert [e][1..] == [];
    var first := EventTokens(e, subpaths);
    if first.Success? {
      assert first.value + [] == first.value;
    }
  }

  /** Writing an object with one member. */
  lemma SerializeOneMember(name: string, v: Json)
    ensures SerializeMembers([name], [v]) == [JString(name)] + Serialize(v)
  {
    assert [name][1..] == [] && [v][1..] == [];
  }

  /** Writing an object with two members. */
  lemma SerializeTwoMembers(a: string, b: string, u: Json, v: Json)
    ensures SerializeMembers([a, b], [u, v]) == [JString(a)] + Serialize(u) + [JString(b)] + Serialize(v)
  {
    assert [a, b][1..] == [b] && [u, v][1..] == [v];
    SerializeOneMember(b, v);
  }

  /** The document of a node, written out: its header, its children's members, its closing tokens. */
  lemma SerializeNodeJson(n: Node, subpaths: StringDb)
    requires WellFormed(n) && KeysKnown(n, subpaths)
    ensures Serialize(NodeJson(n, subpaths))
         == HeaderTokens(n) + SerializeMembers(ChildNames(n.keys, subpaths), ChildrenJson(n.kids, subpaths)) + LeaveTokens(n)
  {
    if |n.kids| == 0 {
      SerializeLeafJson(n, subpaths);
    } else {
      SerializeInnerJson(n, subpaths);
    }
  }

  lemma SerializeLeafJson(n: Node, subpaths: StringDb)
    requires WellFormed(n) && KeysKnown(n, subpaths) && |n.kids| == 0
    ensures Serialize(NodeJson(n, subpaths))
         == HeaderTokens(n) + SerializeMembers(ChildNames(n.keys, subpaths), ChildrenJson(n.kids, subpaths)) + LeaveTokens(n)
  {
    SerializeOneMember("id", JNumber(n.id));
    assert ChildrenJson(n.kids, subpaths) == [];
  }

  lemma SerializeInnerJson(n: Node, subpaths: StringDb)
    requires WellFormed(n) && KeysKnown(n, subpaths) && |n.kids| > 0
    ensures Serialize(NodeJson(n, subpaths))
         == HeaderTokens(n) + SerializeMembers(ChildNames(n.keys, subpaths), ChildrenJson(n.kids, subpaths)) + LeaveTokens(n)
  {
    var names, values := ChildNames(n.keys, subpaths), ChildrenJson(n.kids, subpaths);
    var m := SerializeMembers(names, values);
    var cs := JObject(names, values);
    assert NodeJson(n, subpaths) == JObject(["id", "children"], [JNumber(n.id), cs]);
    SerializeTwoMembers("id", "children", JNumber(n.id), cs);
    assert Serialize(cs) == [MapOpen] + m + [MapClose];
    InnerTokens(n.id, m);
  }

  /** The tokens of an object whose "children" member holds the members m, regrouped as header, members, closing. */
  lemma InnerTokens(id: int, m: seq<JsonToken>)
    ensures [MapOpen] + ([JString("id")] + [JInteger(id)] + [JString("children")] + ([MapOpen] + m + [MapClose])) + [MapClose]
         == [MapOpen, JString("id"), JInteger(id)] + [JString("children"), MapOpen] + m + ([MapClose] + [MapClose])
  {
  }

  /**
   * The visitor's stream is the serialization of the intended document:
   * an "id" per node and a "children" map iff the node has at least one child.
   */
  lemma {:induction false} NodesMapIsJson(n: Node, q: Quark, subpaths: StringDb)
    requires WellFormed(n) && KeysKnown(n, subpaths)
    requires q == ROOT_QUARK || q in subpaths.right
    ensures var prefix := if q == ROOT_QUARK then [] else [JString(subpaths.right[q])];
            NodesMapTokens(Visit(n, q), subpaths) == Success(prefix + Serialize(NodeJson(n, subpaths)))
    decreases n
  {
    var prefix := if q == ROOT_QUARK then [] else [JString(subpaths.right[q])];
    var m := SerializeMembers(ChildNames(n.keys, subpaths), ChildrenJson(n.kids, subpaths));
    EnterTokensKnown(q, n, subpaths);
    NodesMapTokensSingle(Enter(q, n), subpaths);
    NodesMapTokensSingle(Leave(q, n), subpaths);
    NodesMapOfIsJson(n.keys, n.kids, subpaths);
    NodesMapTokensThree([Enter(q, n)], VisitOf(n.keys, n.kids), [Leave(q, n)], subpaths,
                        prefix + HeaderTokens(n), m, LeaveTokens(n));
    SerializeNodeJson(n, subpaths);
    TokensRegroup(prefix, HeaderTokens(n), m, LeaveTokens(n));
  }

  lemma TokensRegroup(a: seq<JsonToken>, b: seq<JsonToken>, c: seq<JsonToken>, d: seq<JsonToken>)
    ensures a + b + c + d == a + (b + c + d)
  {
  }

  /** What the visitor emits on entering a node whose name is known: the name, unless it is the root, then the header. */
  lemma EnterTokensKnown(q: Quark, n: Node, subpaths: StringDb)
    requires q == ROOT_QUARK || q in subpaths.right
    ensures var prefix := if q == ROOT_QUARK then [] else [JString(subpaths.right[q])];
            EventTokens(Enter(q, n), subpaths) == Success(prefix + HeaderTokens(n))
  {
    if q == ROOT_QUARK {
      assert [] + HeaderTokens(n) == HeaderTokens(n);
    }
  }

  /** The generator's output for three streams in a row. */
  lemma NodesMapTokensThree(a: seq<VisitEvent>, b: seq<VisitEvent>, c: seq<VisitEvent>, subpaths: StringDb,
                            x: seq<JsonToken>, y: seq<JsonToken>, z: seq<JsonToken>)
    requires NodesMapTokens(a, subpaths) == Success(x)
    requires NodesMapTokens(b, subpaths) == Success(y)
    requires NodesMapTokens(c, subpaths) == Success(z)
    ensures NodesMapTokens(a + b + c, subpaths) == Success(x + y + z)
  {
    NodesMapTokensAppend(a, b, subpaths);
    NodesMapTokensAppend(a + b, c, subpaths);
  }

  lemma {:induction false} NodesMapOfIsJson(keys: seq<Quark>, ns: seq<Node>, subpaths: StringDb)
    requires |keys| == |ns|
    requires forall q | q in keys :: q in subpaths.right && q != ROOT_QUARK
    requires forall i | 0 <= i < |ns| :: WellFormed(ns[i]) && KeysKnown(ns[i], subpaths)
    ensures NodesMapTokens(VisitOf(keys, ns), subpaths)
         == Success(SerializeMembers(ChildNames(keys, subpaths), ChildrenJson(ns, subpaths)))
    decreases ns
  {
    if ns != [] {
      NodesMapIsJson(ns[0], keys[0], subpaths);
      NodesMapOfIsJson(keys[1..], ns[1..], subpaths);
      NodesMapTokensAppend(Visit(ns[0], keys[0]), VisitOf(keys[1..], ns[1..]), subpaths);
    }
  }
}
