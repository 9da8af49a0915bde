/**
 * StateHistorySink together with the StateNode operations, which all act
 * through the sink that owns the tree.
 *
 * The sink owns the root node, the two string databases (subpaths and
 * string values) with their quark counters, the node id counter and the
 * state change counter.  A StateNode& is a Handle into `root`; what the
 * interval file sink receives is the `history` field, and the files written
 * on close are the `subpathsImage`, `valuesImage` and `nodesMap` fields.
 */
module StateHistorySinks {
  import opened Wrappers
  import opened FixedWidth
  import opened Decimal
  import opened StateValues
  import opened StringDbs
  import opened StateTree
  import opened EventValues
  import opened StateNodeIterators

  /** std::to_string of the integer event values used as keys, "" for keys of any other type. */
  function EventValueSubpath(v: EventValue): (s: string)
    ensures v.SintV? ==> s == IntToString(v.sint)
    ensures v.UintV? ==> s == IntToString(v.uint)
    ensures v.StringV? ==> s == v.str
    ensures !(v.SintV? || v.UintV? || v.StringV?) ==> s == ""
  {
    if v.SintV? then IntToString(v.sint)
    else if v.UintV? then IntToString(v.uint)
    else if v.StringV? then v.str
    else ""
  }

  /** An integer key names the same child as the string of its decimal digits; other keys name the child "". */
  lemma EventValueSubpathAliases(x: int64, v: EventValue)
    ensures EventValueSubpath(SintV(x)) == EventValueSubpath(StringV(IntToString(x)))
    ensures x >= 0 ==> EventValueSubpath(SintV(x)) == EventValueSubpath(UintV(x))
    ensures !(v.SintV? || v.UintV? || v.StringV?) ==> EventValueSubpath(v) == EventValueSubpath(StringV(""))
  {
  }

  /** The implicit float-to-quark_t conversion: truncation toward zero. */
  function FloatToQuark(f: real): (q: Quark)
    requires -1.0 < f < TWO_32 as real
    ensures q < TWO_32
    ensures f >= 0.0 ==> q as real <= f < q as real + 1.0
    ensures f < 0.0 ==> q == 0
  {
    if f < 0.0 then 0 else f.Floor
  }

  lemma AppendAssoc<T>(a: seq<T>, b: seq<T>, c: seq<T>)
    ensures a + b + c == a + (b + c)
  {
  }

  /** The tree is well formed with distinct ids, all below the id counter. */
  ghost predicate TreeOk(root: Node, nextNodeId: nat) {
    WellFormed(root) && Distinct(root) && (forall x | x in Ids(root) :: x < nextNodeId)
  }

  /** A string database is a consistent bimap below its counter, and uses every quark below it while the sink is open. */
  ghost predicate DbOk(db: StringDb, next: nat, isOpen: bool) {
    Consistent(db) && Below(db, next) && (isOpen ==> Dense(db, next))
  }

  /** The change counter counts the intervals written, none of which has a null value. */
  ghost predicate HistoryOk(history: seq<Interval>, count: nat) {
    count == |history| && forall iv | iv in history :: iv.value != NullValue
  }

  /** The state open() leaves: a single leaf below the id counter, empty databases, no history. */
  lemma FreshStateOk(root: Node, next: nat)
    requires root.id < next && root.keys == [] && root.kids == []
    ensures TreeOk(root, next) && DbOk(EmptyDb, 0, true) && HistoryOk([], 0)
  {
    assert Ids(root) == {root.id};
  }

  /** Adding a new null leaf with the next id under a node keeps the tree valid and changes nothing else. */
  lemma AddLeafOk(root: Node, h: Handle, q: Quark, leaf: Node, next: nat)
    requires TreeOk(root, next) && IsHandle(root, h) && !ChildExists(Get(root, h).value, q)
    requires leaf.id == next && leaf.keys == [] && leaf.kids == []
    ensures var n := Get(root, h).value;
            var r := Replace(root, h, AddChild(n, q, leaf));
            TreeOk(r, next + 1) && Extends(r, root)
            && Get(r, h) == Some(AddChild(n, q, leaf)) && Get(r, h + [q]) == Some(leaf)
            && forall p | p != q :: Child(AddChild(n, q, leaf), p) == Child(n, p)
  {
    AddLeafTree(root, h, q, leaf, next);
    AddLeafPaths(root, h, q, leaf);
  }

  /** The tree with the new leaf is well formed, has distinct ids below the advanced counter and extends the old one. */
  lemma AddLeafTree(root: Node, h: Handle, q: Quark, leaf: Node, next: nat)
    requires TreeOk(root, next) && IsHandle(root, h) && !ChildExists(Get(root, h).value, q)
    requires leaf.id == next && leaf.keys == [] && leaf.kids == []
    ensures var r := Replace(root, h, AddChild(Get(root, h).value, q, leaf));
            TreeOk(r, next + 1) && Extends(r, root)
  {
    var n := Get(root, h).value;
    GetShape(root, h);
    var m := AddChild(n, q, leaf);
    assert WellFormed(leaf) && Distinct(leaf) && Ids(leaf) == {next};
    AddChildChildren(n, q, leaf);
    AddChildIds(n, q, leaf);
    GetIdIn(root, h);
    ReplaceWellFormed(root, h, m);
    ReplaceIds(root, h, m, {leaf.id});
    ReplaceDistinct(root, h, m, {leaf.id});
    ReplaceExtends(root, h, m);
  }

  /** In the tree with the new leaf, the handle reaches the grown node and the handle extended by q the leaf. */
  lemma AddLeafPaths(root: Node, h: Handle, q: Quark, leaf: Node)
    requires WellFormed(root) && IsHandle(root, h) && !ChildExists(Get(root, h).value, q)
    ensures var n := Get(root, h).value;
            var r := Replace(root, h, AddChild(n, q, leaf));
            Get(r, h) == Some(AddChild(n, q, leaf)) && Get(r, h + [q]) == Some(leaf)
            && forall p | p != q :: Child(AddChild(n, q, leaf), p) == Child(n, p)
  {
    var n := Get(root, h).value;
    GetShape(root, h);
    var m := AddChild(n, q, leaf);
    AddChildChildren(n, q, leaf);
    GetReplace(root, h, m);
    GetChild(Replace(root, h, m), h, q);
  }

  class StateHistorySink {
    const beginTs: int
    var ts: int
    var isOpen: bool
    var subpathsDb: StringDb
    var nextPathQuark: nat
    var strValuesDb: StringDb
    var nextStrValueQuark: nat
    var nextNodeId: nat
    var stateChangesCount: nat
    var root: Node
    /** The intervals given to the interval file sink since it was last opened. */
    var history: seq<Interval>
    var subpathsImage: seq<byte>
    var valuesImage: seq<byte>
    var nodesMap: Result<seq<JsonToken>, WrongQuark>

    /**
     * The tree is well formed with distinct ids, all below the id counter;
     * the databases are consistent bimaps below their counters (and use
     * every quark below them while the sink is open); the change counter
     * counts the intervals written, none of which has a null value.
     */
    ghost predicate Valid()
      reads this`root, this`nextNodeId, this`isOpen, this`subpathsDb, this`nextPathQuark
      reads this`strValuesDb, this`nextStrValueQuark, this`history, this`stateChangesCount
    {
      TreeOk(root, nextNodeId)
      && DbOk(subpathsDb, nextPathQuark, isOpen) && DbOk(strValuesDb, nextStrValueQuark, isOpen)
      && HistoryOk(history, stateChangesCount)
    }

    twostate predicate DbsKept()
      reads this
    {
      unchanged(this`subpathsDb, this`nextPathQuark, this`strValuesDb, this`nextStrValueQuark)
    }

    twostate predicate FilesKept()
      reads this
    {
      unchanged(this`isOpen, this`ts, this`subpathsImage, this`valuesImage, this`nodesMap)
    }

    twostate predicate TreeKept()
      reads this
    {
      unchanged(this`root, this`nextNodeId, this`history, this`stateChangesCount)
    }

    /** The node a handle denotes. */
    function NodeAt(h: Handle): (n: Node)
      reads this
      requires IsHandle(root, h)
      ensures Some(n) == Get(root, h)
    {
      Get(root, h).value
    }

    // -------------------------------------------------------------------
    // Construction, open and close
    // -------------------------------------------------------------------

    /** The constructor starts every counter at 0 and opens the sink. */
    constructor(beginTs: int)
      ensures Valid() && isOpen
      ensures this.beginTs == beginTs && ts == beginTs
      ensures root == Leaf(0, beginTs) && nextNodeId == 1
      ensures subpathsDb == EmptyDb && strValuesDb == EmptyDb && nextPathQuark == 0 && nextStrValueQuark == 0
      ensures history == [] && stateChangesCount == 0
    {
      this.beginTs := beginTs;
      ts := beginTs;
      isOpen := false;
      subpathsDb, nextPathQuark := EmptyDb, 0;
      strValuesDb, nextStrValueQuark := EmptyDb, 0;
      nextNodeId := 0;
      stateChangesCount := 0;
      root := Leaf(0, beginTs);
      history := [];
      subpathsImage, valuesImage := [], [];
      nodesMap := Success([]);
      new;
      Open();
    }

    /**
     * open(): reset the timestamp, both databases and their counters and
     * the change counter, start a new interval file and build a new root.
     * The node id counter is not reset.
     */
    method Open()
      modifies this
      ensures Valid() && isOpen
      ensures ts == beginTs && history == [] && stateChangesCount == 0
      ensures subpathsDb == EmptyDb && strValuesDb == EmptyDb && nextPathQuark == 0 && nextStrValueQuark == 0
      ensures root == Leaf(old(nextNodeId), beginTs) && nextNodeId == old(nextNodeId) + 1
      ensures subpathsImage == old(subpathsImage) && valuesImage == old(valuesImage) && nodesMap == old(nodesMap)
    {
      var n := BuildStateNode();
      FreshStateOk(n, nextNodeId);
      history, ts, stateChangesCount := [], beginTs, 0;
      subpathsDb, nextPathQuark, strValuesDb, nextStrValueQuark := EmptyDb, 0, EmptyDb, 0;
      root, isOpen := n, true;
    }

    /**
     * close(): nothing at all on a closed sink.  Otherwise every node is
     * nullified at the current timestamp, the two databases and the nodes
     * map are written, the databases are cleared and the sink is closed.
     */
    method Close()
      requires Valid()
      modifies this
      ensures Valid() && !isOpen
      ensures !old(isOpen) ==> unchanged(this)
      ensures old(isOpen) ==>
        root == NullifyAll(old(root), old(ts))
        && history == old(history) + ClosingIntervals(old(root), old(ts))
        && subpathsImage == Image(Entries(old(subpathsDb), old(nextPathQuark)))
        && valuesImage == Image(Entries(old(strValuesDb), old(nextStrValueQuark)))
        && nodesMap == NodesMapTokens(Visit(root, ROOT_QUARK), old(subpathsDb))
        && subpathsDb == EmptyDb && strValuesDb == EmptyDb
        && nextPathQuark == old(nextPathQuark) && nextStrValueQuark == old(nextStrValueQuark)
        && nextNodeId == old(nextNodeId) && ts == old(ts)
      ensures old(isOpen) ==> ActiveIds(root) == {} && Ids(root) == Ids(old(root))
    {
      if !isOpen {
        return;
      }
      NullifyAllNodes();
      NullifyAllShape(old(root), ts);
      WriteFiles();
      ClearDbs();
    }

    /**
     * The writing half of close(): the two database files and the nodes
     * map, all taken from the state before anything is cleared.
     */
    method WriteFiles()
      modifies this`subpathsImage, this`valuesImage, this`nodesMap
      ensures subpathsImage == Image(Entries(subpathsDb, nextPathQuark))
      ensures valuesImage == Image(Entries(strValuesDb, nextStrValueQuark))
      ensures nodesMap == NodesMapTokens(Visit(root, ROOT_QUARK), subpathsDb)
      ensures unchanged(this`root, this`nextNodeId, this`history, this`isOpen, this`ts)
      ensures unchanged(this`subpathsDb, this`strValuesDb)
    {
      WriteDbImages();
      WriteNodesMap();
    }

    /** The subpaths and string values databases, each written sorted by string. */
    method WriteDbImages()
      modifies this`subpathsImage, this`valuesImage
      ensures subpathsImage == Image(Entries(subpathsDb, nextPathQuark))
      ensures valuesImage == Image(Entries(strValuesDb, nextStrValueQuark))
    {
      subpathsImage := WriteStringDb(subpathsDb, nextPathQuark);
      valuesImage := WriteStringDb(strValuesDb, nextStrValueQuark);
    }

    /** The last step of close(): both databases emptied (their counters kept) and the sink closed. */
    method ClearDbs()
      requires Valid()
      modifies this
      ensures Valid() && !isOpen
      ensures subpathsDb == EmptyDb && strValuesDb == EmptyDb
      ensures nextPathQuark == old(nextPathQuark) && nextStrValueQuark == old(nextStrValueQuark)
      ensures TreeKept() && unchanged(this`ts, this`subpathsImage, this`valuesImage, this`nodesMap)
    {
      subpathsDb, strValuesDb, isOpen := EmptyDb, EmptyDb, false;
    }

    method SetCurrentTimestamp(t: int)
      modifies this
      ensures ts == t && TreeKept() && DbsKept()
      ensures isOpen == old(isOpen) && subpathsImage == old(subpathsImage)
      ensures valuesImage == old(valuesImage) && nodesMap == old(nodesMap)
    {
      ts := t;
    }

    /** buildStateNode: a fresh null node with the next id and the sink's begin timestamp. */
    method BuildStateNode() returns (n: Node)
      modifies this
      ensures n == Leaf(old(nextNodeId), beginTs) && nextNodeId == old(nextNodeId) + 1
      ensures root == old(root) && history == old(history) && stateChangesCount == old(stateChangesCount)
      ensures DbsKept() && FilesKept()
    {
      n := Leaf(nextNodeId, beginTs);
      nextNodeId := nextNodeId + 1;
    }

    // -------------------------------------------------------------------
    // String databases
    // -------------------------------------------------------------------

    /** getSubpathQuark: intern into the subpaths database; the values database is untouched. */
    method GetSubpathQuark(s: string) returns (q: Quark)
      requires Valid()
      modifies this
      ensures Valid()
      ensures var r := GetQuark(old(subpathsDb), s, old(nextPathQuark));
              subpathsDb == r.db && nextPathQuark == r.next && q == r.quark
      ensures GetSubpathString(q) == Success(s)
      ensures strValuesDb == old(strValuesDb) && nextStrValueQuark == old(nextStrValueQuark)
      ensures TreeKept() && FilesKept()
    {
      InternRoundTrip(subpathsDb, s, nextPathQuark);
      if isOpen {
        InternValid(subpathsDb, s, nextPathQuark);
      }
      var r := GetQuark(subpathsDb, s, nextPathQuark);
      subpathsDb, nextPathQuark, q := r.db, r.next, r.quark;
    }

    /** getStringValueQuark: intern into the values database; the subpaths database is untouched. */
    method GetStringValueQuark(s: string) returns (q: Quark)
      requires Valid()
      modifies this
      ensures Valid()
      ensures var r := GetQuark(old(strValuesDb), s, old(nextStrValueQuark));
              strValuesDb == r.db && nextStrValueQuark == r.next && q == r.quark
      ensures GetStringValueString(q) == Success(s)
      ensures subpathsDb == old(subpathsDb) && nextPathQuark == old(nextPathQuark)
      ensures TreeKept() && FilesKept()
    {
      InternRoundTrip(strValuesDb, s, nextStrValueQuark);
      if isOpen {
        InternValid(strValuesDb, s, nextStrValueQuark);
      }
      var r := GetQuark(strValuesDb, s, nextStrValueQuark);
      strValuesDb, nextStrValueQuark, q := r.db, r.next, r.quark;
    }

    /**
     * getSubpathString: the string a subpath quark stands for, which interns
     * back to that quark; on an open sink the known quarks are exactly those
     * below the counter, and any other quark is a WrongQuark.
     */
    function GetSubpathString(q: Quark): (r: Result<string, WrongQuark>)
      reads this
      ensures r.Failure? <==> q !in subpathsDb.right
      ensures r.Failure? ==> r.error == WrongQuark(q)
      ensures Valid() && r.Success? ==> r.value in subpathsDb.left && subpathsDb.left[r.value] == q
      ensures Valid() && isOpen ==> (r.Success? <==> q < nextPathQuark)
    {
      GetQuarkString(subpathsDb, q)
    }

    /** getStringValueString: the same for the string values database. */
    function GetStringValueString(q: Quark): (r: Result<string, WrongQuark>)
      reads this
      ensures r.Failure? <==> q !in strValuesDb.right
      ensures r.Failure? ==> r.error == WrongQuark(q)
      ensures Valid() && r.Success? ==> r.value in strValuesDb.left && strValuesDb.left[r.value] == q
      ensures Valid() && isOpen ==> (r.Success? <==> q < nextStrValueQuark)
    {
      GetQuarkString(strValuesDb, q)
    }

    // -------------------------------------------------------------------
    // Intervals
    // -------------------------------------------------------------------

    /** writeInterval: a non-null value is closed as [beginTs, ts] under the node's id and counted. */
    method WriteInterval(n: Node)
      modifies this`history, this`stateChangesCount
      ensures history == old(history) + IntervalOf(n, ts)
      ensures stateChangesCount == old(stateChangesCount) + |IntervalOf(n, ts)|
      ensures unchanged(this`root, this`nextNodeId) && DbsKept() && FilesKept()
    {
      if !StateValues.ToBool(n.value) {
        return;
      }
      history := history + [Interval(n.beginTs, ts, n.id, n.value)];
      stateChangesCount := stateChangesCount + 1;
    }

    /** The template operator=: write the old value's interval, move beginTs to ts, store v. */
    method Assign(h: Handle, v: StateValue)
      requires Valid() && IsHandle(root, h)
      modifies this
      ensures Valid() && IsHandle(root, h)
      ensures root == Replace(old(root), h, Assigned(old(NodeAt(h)), v, ts))
      ensures NodeAt(h) == Assigned(old(NodeAt(h)), v, ts)
      ensures history == old(history) + IntervalOf(old(NodeAt(h)), ts)
      ensures Extends(root, old(root)) && Ids(root) == Ids(old(root))
      ensures nextNodeId == old(nextNodeId) && DbsKept() && FilesKept()
    {
      var n := Get(root, h).value;
      WriteInterval(n);
      var m := Assigned(n, v, ts);
      GetShape(root, h);
      AssignedExtends(n, v, ts);
      ReplaceWellFormed(root, h, m);
      ReplaceIds(root, h, m, {});
      ReplaceDistinct(root, h, m, {});
      ReplaceExtends(root, h, m);
      GetReplace(root, h, m);
      root := Replace(root, h, m);
    }

    /** operator=(StateNode): take the other node's current value. */
    method AssignNode(h: Handle, g: Handle)
      requires Valid() && IsHandle(root, h) && IsHandle(root, g)
      modifies this
      ensures Valid() && IsHandle(root, h)
      ensures NodeAt(h) == Assigned(old(NodeAt(h)), old(NodeAt(g)).value, ts)
      ensures history == old(history) + IntervalOf(old(NodeAt(h)), ts)
      ensures nextNodeId == old(nextNodeId) && DbsKept() && FilesKept()
    {
      Assign(h, NodeAt(g).value);
    }

    /** operator=(string): the value stored is the quark of s in the values database. */
    method AssignString(h: Handle, s: string)
      requires Valid() && IsHandle(root, h)
      modifies this
      ensures Valid() && IsHandle(root, h)
      ensures NodeAt(h).value.QuarkValue? && GetStringValueString(NodeAt(h).value.quark) == Success(s)
      ensures NodeAt(h) == Assigned(old(NodeAt(h)), QuarkValue(GetQuark(old(strValuesDb), s, old(nextStrValueQuark)).quark), ts)
      ensures history == old(history) + IntervalOf(old(NodeAt(h)), ts)
      ensures subpathsDb == old(subpathsDb) && nextPathQuark == old(nextPathQuark)
      ensures nextNodeId == old(nextNodeId) && FilesKept()
    {
      var q := GetStringValueQuark(s);
      Assign(h, QuarkValue(q));
    }

    /**
     * operator=(AbstractEventValue): a signed value is stored as sint64, an
     * unsigned one as uint64, a string through the values database, a float
     * as float32; a value of any other type changes nothing.
     */
    method AssignEventValue(h: Handle, v: EventValue)
      requires Valid() && IsHandle(root, h)
      modifies this
      ensures Valid() && IsHandle(root, h)
      ensures v.SintV? ==> NodeAt(h) == Assigned(old(NodeAt(h)), Sint64Value(v.sint), ts)
      ensures v.UintV? ==> NodeAt(h) == Assigned(old(NodeAt(h)), Uint64Value(v.uint), ts)
      ensures v.FloatV? ==> NodeAt(h) == Assigned(old(NodeAt(h)), Float32Value(v.float), ts)
      ensures v.StringV? ==> NodeAt(h).value.QuarkValue? && GetStringValueString(NodeAt(h).value.quark) == Success(v.str)
      ensures v.SintV? || v.UintV? || v.FloatV? || v.StringV? ==>
                history == old(history) + IntervalOf(old(NodeAt(h)), ts)
      ensures !(v.SintV? || v.UintV? || v.FloatV? || v.StringV?) ==> TreeKept() && DbsKept()
      ensures nextNodeId == old(nextNodeId) && FilesKept()
    {
      if v.SintV? {
        Assign(h, Sint64Value(v.sint));
      } else if v.UintV? {
        Assign(h, Uint64Value(v.uint));
      } else if v.StringV? {
        AssignString(h, v.str);
      } else if v.FloatV? {
        Assign(h, Float32Value(v.float));
      }
    }

    /** setNull: assignment of the null value, which still closes the current value. */
    method SetNull(h: Handle)
      requires Valid() && IsHandle(root, h)
      modifies this
      ensures Valid() && IsHandle(root, h)
      ensures root == Replace(old(root), h, Assigned(old(NodeAt(h)), NullValue, ts))
      ensures !Active(NodeAt(h)) && NodeAt(h).beginTs == ts
      ensures history == old(history) + IntervalOf(old(NodeAt(h)), ts)
      ensures nextNodeId == old(nextNodeId) && DbsKept() && FilesKept()
    {
      Assign(h, NullValue);
    }

    /** setNullRecursive: the node, then each of its direct children in map order; grandchildren are left alone. */
    method SetNullRecursive(h: Handle)
      requires Valid() && IsHandle(root, h)
      modifies this
      ensures Valid() && IsHandle(root, h)
      ensures root == Replace(old(root), h, NullifyShallow(old(NodeAt(h)), ts, |old(NodeAt(h)).kids|))
      ensures history == old(history) + ShallowIntervals(old(NodeAt(h)), ts, |old(NodeAt(h)).kids|)
      ensures nextNodeId == old(nextNodeId) && DbsKept() && FilesKept()
    {
      var n := Get(root, h).value;
      GetShape(root, h);
      SetNull(h);
      assert NullifyShallow(n, ts, 0) == Assigned(n, NullValue, ts);
      NullChildren(old(root), h, n, old(history));
    }

    /** The loop of setNullRecursive over the children of the node at h, whose own value is already null. */
    method NullChildren(ghost r0: Node, h: Handle, n: Node, ghost h0: seq<Interval>)
      requires Valid() && IsHandle(r0, h) && Get(r0, h) == Some(n) && WellFormed(n)
      requires root == Replace(r0, h, NullifyShallow(n, ts, 0)) && history == h0 + ShallowIntervals(n, ts, 0)
      modifies this
      ensures Valid() && IsHandle(root, h)
      ensures root == Replace(r0, h, NullifyShallow(n, ts, |n.kids|))
      ensures history == h0 + ShallowIntervals(n, ts, |n.kids|)
      ensures nextNodeId == old(nextNodeId) && DbsKept() && FilesKept()
    {
      var i := 0;
      while i < |n.kids|
        invariant 0 <= i <= |n.kids|
        invariant Valid() && root == Replace(r0, h, NullifyShallow(n, ts, i))
        invariant history == h0 + ShallowIntervals(n, ts, i)
        invariant nextNodeId == old(nextNodeId) && DbsKept() && FilesKept()
      {
        NullChild(r0, h, n, i, h0);
        i := i + 1;
      }
      GetReplace(r0, h, NullifyShallow(n, ts, i));
    }

    /** One step of setNullRecursive: child number i of the node at h is set to null. */
    method NullChild(ghost r0: Node, h: Handle, n: Node, i: nat, ghost h0: seq<Interval>)
      requires Valid() && IsHandle(r0, h) && Get(r0, h) == Some(n) && WellFormed(n)
      requires i < |n.kids| && root == Replace(r0, h, NullifyShallow(n, ts, i))
      requires history == h0 + ShallowIntervals(n, ts, i)
      modifies this
      ensures Valid() && root == Replace(r0, h, NullifyShallow(n, ts, i + 1))
      ensures history == h0 + ShallowIntervals(n, ts, i + 1)
      ensures nextNodeId == old(nextNodeId) && DbsKept() && FilesKept()
    {
      var q := n.keys[i];
      ghost var s := NullifyShallow(n, ts, i);
      GetReplace(r0, h, s);
      ChildIndexOf(n.keys, i);
      GetChild(root, h, q);
      NullifyShallowGrandchildren(n, ts, i, i);
      SetNull(h + [q]);
      ReplaceChild(r0, h, s, q, Assigned(n.kids[i], NullValue, ts));
      NullifyShallowStep(n, ts, i);
      AppendAssoc(h0, ShallowIntervals(n, ts, i), IntervalOf(n.kids[i], ts));
    }

    /**
     * += and -= by delta: an integer value moves with wrap-around at its
     * width, through the template operator= (its interval is written and
     * beginTs moves to ts); any other value is left alone.
     */
    method AddDelta(h: Handle, delta: int)
      requires Valid() && IsHandle(root, h)
      modifies this
      ensures Valid() && IsHandle(root, h)
      ensures NodeAt(h).value == Incremented(old(NodeAt(h)).value, delta)
      ensures StateValues.IsInteger(old(NodeAt(h)).value) ==>
                root == Replace(old(root), h, Assigned(old(NodeAt(h)), Incremented(old(NodeAt(h)).value, delta), ts))
                && NodeAt(h) == Assigned(old(NodeAt(h)), Incremented(old(NodeAt(h)).value, delta), ts)
                && history == old(history) + IntervalOf(old(NodeAt(h)), ts)
      ensures !StateValues.IsInteger(old(NodeAt(h)).value) ==> TreeKept()
      ensures nextNodeId == old(nextNodeId) && DbsKept() && FilesKept()
    {
      var v := NodeAt(h).value;
      if StateValues.IsInteger(v) {
        Assign(h, Incremented(v, delta));
      }
    }

    /** operator+=(int64). */
    method AddAssign(h: Handle, inc: int64)
      requires Valid() && IsHandle(root, h)
      modifies this
      ensures Valid() && IsHandle(root, h)
      ensures NodeAt(h).value == Incremented(old(NodeAt(h)).value, inc)
      ensures StateValues.IsInteger(old(NodeAt(h)).value) ==>
                root == Replace(old(root), h, Assigned(old(NodeAt(h)), Incremented(old(NodeAt(h)).value, inc), ts))
                && history == old(history) + IntervalOf(old(NodeAt(h)), ts)
      ensures !StateValues.IsInteger(old(NodeAt(h)).value) ==> TreeKept()
      ensures nextNodeId == old(nextNodeId) && DbsKept() && FilesKept()
    {
      AddDelta(h, inc);
    }

    /** operator-=(int64): the difference is taken before the cast, so it is an increment by -dec. */
    method SubAssign(h: Handle, dec: int64)
      requires Valid() && IsHandle(root, h)
      modifies this
      ensures Valid() && IsHandle(root, h)
      ensures NodeAt(h).value == Incremented(old(NodeAt(h)).value, -(dec as int))
      ensures StateValues.IsInteger(old(NodeAt(h)).value) ==>
                root == Replace(old(root), h, Assigned(old(NodeAt(h)), Incremented(old(NodeAt(h)).value, -(dec as int)), ts))
                && history == old(history) + IntervalOf(old(NodeAt(h)), ts)
      ensures !StateValues.IsInteger(old(NodeAt(h)).value) ==> TreeKept()
      ensures nextNodeId == old(nextNodeId) && DbsKept() && FilesKept()
    {
      AddDelta(h, -(dec as int));
    }

    /** operator++: += 1. */
    method PreIncrement(h: Handle)
      requires Valid() && IsHandle(root, h)
      modifies this
      ensures Valid() && IsHandle(root, h)
      ensures NodeAt(h).value == Incremented(old(NodeAt(h)).value, 1)
      ensures StateValues.IsInteger(old(NodeAt(h)).value) ==>
                root == Replace(old(root), h, Assigned(old(NodeAt(h)), Incremented(old(NodeAt(h)).value, 1), ts))
                && history == old(history) + IntervalOf(old(NodeAt(h)), ts)
      ensures !StateValues.IsInteger(old(NodeAt(h)).value) ==> TreeKept()
      ensures nextNodeId == old(nextNodeId) && DbsKept() && FilesKept()
    {
      AddAssign(h, 1);
    }

    /** operator--: -= 1. */
    method PreDecrement(h: Handle)
      requires Valid() && IsHandle(root, h)
      modifies this
      ensures Valid() && IsHandle(root, h)
      ensures NodeAt(h).value == Incremented(old(NodeAt(h)).value, -1)
      ensures StateValues.IsInteger(old(NodeAt(h)).value) ==>
                root == Replace(old(root), h, Assigned(old(NodeAt(h)), Incremented(old(NodeAt(h)).value, -1), ts))
                && history == old(history) + IntervalOf(old(NodeAt(h)), ts)
      ensures !StateValues.IsInteger(old(NodeAt(h)).value) ==> TreeKept()
      ensures nextNodeId == old(nextNodeId) && DbsKept() && FilesKept()
    {
      SubAssign(h, 1);
    }

    /**
     * ++ then --: the value comes back, but both steps went through
     * operator=, so two intervals are written (the old value's, then the
     * incremented one's, which lasted zero time) and beginTs is now ts.
     */
    method PreIncrementThenDecrement(h: Handle)
      requires Valid() && IsHandle(root, h)
      modifies this
      ensures Valid() && IsHandle(root, h)
      ensures NodeAt(h).value == old(NodeAt(h)).value
      ensures StateValues.IsInteger(old(NodeAt(h)).value) ==>
                root == Replace(old(root), h, Assigned(old(NodeAt(h)), old(NodeAt(h)).value, ts))
                && history == old(history) + IntervalOf(old(NodeAt(h)), ts)
                                + IntervalOf(Assigned(old(NodeAt(h)), Incremented(old(NodeAt(h)).value, 1), ts), ts)
      ensures !StateValues.IsInteger(old(NodeAt(h)).value) ==> TreeKept()
      ensures nextNodeId == old(nextNodeId) && DbsKept() && FilesKept()
    {
      ghost var r0, n0, h0 := root, NodeAt(h), history;
      PreIncrement(h);
      ghost var r1, n1 := root, NodeAt(h);
      PreDecrement(h);
      IncrementedInverse(n0.value, 1);
      if StateValues.IsInteger(n0.value) {
        GetReplace(r0, h, Assigned(n0, Incremented(n0.value, 1), ts));
        ReplaceTwice(r0, h, n1, Assigned(n1, n0.value, ts));
        assert Assigned(n1, n0.value, ts) == Assigned(n0, n0.value, ts);
      }
    }

    // -------------------------------------------------------------------
    // Children
    // -------------------------------------------------------------------

    /**
     * operator[](quark): the existing child under q, or else a new null
     * child built by buildStateNode; no other child changes.
     */
    method ChildByQuark(h: Handle, q: Quark) returns (c: Handle)
      requires Valid() && IsHandle(root, h)
      modifies this
      ensures Valid() && c == h + [q] && IsHandle(root, c) && IsHandle(root, h)
      ensures ChildExists(old(NodeAt(h)), q) ==> root == old(root) && nextNodeId == old(nextNodeId)
      ensures !ChildExists(old(NodeAt(h)), q) ==>
                root == Replace(old(root), h, AddChild(old(NodeAt(h)), q, Leaf(old(nextNodeId), beginTs)))
                && NodeAt(c) == Leaf(old(nextNodeId), beginTs)
                && nextNodeId == old(nextNodeId) + 1
      ensures forall p | p != q :: Child(NodeAt(h), p) == Child(old(NodeAt(h)), p)
      ensures Extends(root, old(root))
      ensures history == old(history) && stateChangesCount == old(stateChangesCount)
      ensures DbsKept() && FilesKept()
    {
      var n := Get(root, h).value;
      GetShape(root, h);
      c := h + [q];
      if q in n.keys {
        GetChild(root, h, q);
        ExtendsRefl(root);
        return;
      }
      var leaf := BuildStateNode();
      AddLeafOk(root, h, q, leaf, old(nextNodeId));
      root := Replace(root, h, AddChild(n, q, leaf));
    }

    /** operator[](string): the subpath is interned into the subpaths database first. */
    method ChildByName(h: Handle, name: string) returns (c: Handle)
      requires Valid() && IsHandle(root, h)
      modifies this
      ensures Valid() && IsHandle(root, c)
      ensures c == h + [GetQuark(old(subpathsDb), name, old(nextPathQuark)).quark]
      ensures GetSubpathString(c[|h|]) == Success(name)
      ensures Extends(root, old(root))
      ensures strValuesDb == old(strValuesDb) && nextStrValueQuark == old(nextStrValueQuark)
      ensures history == old(history) && FilesKept()
    {
      var q := GetSubpathQuark(name);
      c := ChildByQuark(h, q);
    }

    /** getIntChild: the child named by the decimal representation of the key. */
    method IntChild(h: Handle, key: int) returns (c: Handle)
      requires Valid() && IsHandle(root, h)
      requires -TWO_63 <= key < TWO_64
      modifies this
      ensures Valid() && IsHandle(root, c)
      ensures |c| == |h| + 1 && c[..|h|] == h
      ensures GetSubpathString(c[|h|]) == Success(IntToString(key))
      ensures Extends(root, old(root))
      ensures strValuesDb == old(strValuesDb) && history == old(history) && FilesKept()
    {
      c := ChildByName(h, IntToString(key));
      assert c[..|h|] == h;
    }

    /** operator[](AbstractEventValue): sint and uint by their decimal string, a string as is, anything else as "". */
    method ChildByEventValue(h: Handle, v: EventValue) returns (c: Handle)
      requires Valid() && IsHandle(root, h)
      modifies this
      ensures Valid() && IsHandle(root, c)
      ensures |c| == |h| + 1 && c[..|h|] == h
      ensures GetSubpathString(c[|h|]) == Success(EventValueSubpath(v))
      ensures Extends(root, old(root))
      ensures strValuesDb == old(strValuesDb) && history == old(history) && FilesKept()
    {
      if v.SintV? {
        c := IntChild(h, v.sint);
      } else if v.UintV? {
        c := IntChild(h, v.uint);
      } else if v.StringV? {
        c := ChildByName(h, v.str);
        assert c[..|h|] == h;
      } else {
        c := ChildByName(h, "");
        assert c[..|h|] == h;
      }
    }

    /**
     * operator[] on the concrete state values: integers by their decimal
     * string, a float through the implicit conversion to quark_t, a quark
     * value through the string it stands for in the values database, which
     * throws WrongQuark when the quark is unknown.
     */
    method ChildByStateValue(h: Handle, v: StateValue) returns (r: Result<Handle, WrongQuark>)
      requires Valid() && IsHandle(root, h) && v != NullValue
      requires v.Float32Value? ==> -1.0 < v.f32 < TWO_32 as real
      modifies this
      ensures Valid()
      ensures r.Failure? <==> v.QuarkValue? && v.quark !in old(strValuesDb).right
      ensures r.Failure? ==> r.error == WrongQuark(v.quark) && TreeKept() && DbsKept()
      ensures r.Success? ==> IsHandle(root, r.value) && |r.value| == |h| + 1 && r.value[..|h|] == h
      ensures v.Float32Value? ==> r == Success(h + [FloatToQuark(v.f32)])
      ensures v.QuarkValue? && r.Success? ==>
                GetSubpathString(r.value[|h|]) == old(GetStringValueString(v.quark))
      ensures Extends(root, old(root))
      ensures strValuesDb == old(strValuesDb) && history == old(history) && FilesKept()
    {
      match v
      case Sint32Value(x) =>
        var c := IntChild(h, x);
        r := Success(c);
      case Sint64Value(x) =>
        var c := IntChild(h, x);
        r := Success(c);
      case Uint32Value(x) =>
        var c := IntChild(h, x);
        r := Success(c);
      case Uint64Value(x) =>
        var c := IntChild(h, x);
        r := Success(c);
      case Float32Value(f) =>
        var c := ChildByQuark(h, FloatToQuark(f));
        r := Success(c);
      case QuarkValue(q) =>
        var str := GetStringValueString(q);
        if str.Failure? {
          ExtendsRefl(root);
          return Failure(str.error);
        }
        var c := ChildByName(h, str.value);
        assert c[..|h|] == h;
        r := Success(c);
    }

    /** hasChild(quark) is StateTree.HasChild of the node; hasChild(string) interns first. */
    method HasChildByName(h: Handle, name: string) returns (b: bool)
      requires Valid() && IsHandle(root, h)
      modifies this
      ensures Valid() && TreeKept()
      ensures b == HasChild(NodeAt(h), GetQuark(old(subpathsDb), name, old(nextPathQuark)).quark)
      ensures var r := GetQuark(old(subpathsDb), name, old(nextPathQuark));
              subpathsDb == r.db && nextPathQuark == r.next
      ensures strValuesDb == old(strValuesDb) && FilesKept()
    {
      var q := GetSubpathQuark(name);
      b := HasChild(NodeAt(h), q);
    }

    /** hasIntChild: by the decimal representation of the key. */
    method HasIntChild(h: Handle, key: int) returns (b: bool)
      requires Valid() && IsHandle(root, h)
      modifies this
      ensures Valid() && TreeKept()
      ensures b == HasChild(NodeAt(h), GetQuark(old(subpathsDb), IntToString(key), old(nextPathQuark)).quark)
      ensures strValuesDb == old(strValuesDb) && FilesKept()
    {
      b := HasChildByName(h, IntToString(key));
    }

    /** hasChild(AbstractEventValue): false without interning for a key that is not sint, uint or string. */
    method HasChildByEventValue(h: Handle, v: EventValue) returns (b: bool)
      requires Valid() && IsHandle(root, h)
      modifies this
      ensures Valid() && TreeKept()
      ensures v.SintV? || v.UintV? || v.StringV? ==>
                b == HasChild(NodeAt(h), GetQuark(old(subpathsDb), EventValueSubpath(v), old(nextPathQuark)).quark)
      ensures !(v.SintV? || v.UintV? || v.StringV?) ==> !b && DbsKept()
      ensures strValuesDb == old(strValuesDb) && FilesKept()
    {
      if v.SintV? {
        b := HasIntChild(h, v.sint);
      } else if v.UintV? {
        b := HasIntChild(h, v.uint);
      } else if v.StringV? {
        b := HasChildByName(h, v.str);
      } else {
        b := false;
      }
    }

    /** getChildrenCount: the number of non-null children, which never exceeds the number of children. */
    method GetChildrenCount(h: Handle) returns (count: nat)
      requires Valid() && IsHandle(root, h)
      ensures WellFormed(NodeAt(h))
      ensures count == |LiveKeys(NodeAt(h).keys, Liveness(NodeAt(h)), |NodeAt(h).kids|)|
      ensures count <= GetAllChildrenCount(h)
    {
      var n := NodeAt(h);
      GetShape(root, h);
      ghost var live := Liveness(n);
      count := 0;
      var i := 0;
      while i < |n.kids|
        invariant 0 <= i <= |n.kids|
        invariant count == |LiveKeys(n.keys, live, i)|
      {
        LiveKeysStep(n.keys, live, i);
        if StateValues.ToBool(n.kids[i].value) {
          count := count + 1;
        }
        i := i + 1;
      }
    }

    /** getAllChildrenCount: the size of the children map, null children included. */
    function GetAllChildrenCount(h: Handle): (k: nat)
      reads this
      requires IsHandle(root, h)
      ensures WellFormed(NodeAt(h)) ==> k == |NodeAt(h).keys|
    {
      |NodeAt(h).kids|
    }

    /** begin(): an iterator at the first non-null child. */
    method Begin(h: Handle) returns (it: StateNodeIterator)
      requires Valid() && IsHandle(root, h)
      ensures fresh(it) && it.AtValid()
      ensures it.keys == NodeAt(h).keys && it.live == Liveness(NodeAt(h))
      ensures it.pos == NextLive(Liveness(NodeAt(h)), 0)
    {
      GetShape(root, h);
      var n := NodeAt(h);
      it := new StateNodeIterator(n.keys, Liveness(n), 0);
    }

    /** end(): an iterator at the end of the children. */
    method End(h: Handle) returns (it: StateNodeIterator)
      requires Valid() && IsHandle(root, h)
      ensures fresh(it) && it.AtValid()
      ensures it.keys == NodeAt(h).keys && it.live == Liveness(NodeAt(h)) && it.pos == |NodeAt(h).keys|
    {
      GetShape(root, h);
      var n := NodeAt(h);
      it := new StateNodeIterator(n.keys, Liveness(n), |n.keys|);
    }

    // -------------------------------------------------------------------
    // Whole-tree visitors
    // -------------------------------------------------------------------

    /** getNodesCount: the counter visitor's count is the number of non-null nodes, the root included. */
    method GetNodesCount() returns (count: nat)
      requires Valid()
      ensures count == |ActiveIds(root)|
    {
      var events := Visit(root, ROOT_QUARK);
      count := 0;
      var i := 0;
      while i < |events|
        invariant 0 <= i <= |events|
        invariant count == CountActiveEnters(events[..i])
      {
        var e := events[i];
        assert events[..i + 1][..i] == events[..i];
        if e.Enter? && Active(e.node) {
          count := count + 1;
        }
        i := i + 1;
      }
      assert events[..i] == events;
      CountVisit(root, ROOT_QUARK);
      ActiveCountIsCardinality(root);
    }

    /** The nullifier visitor on a subtree: set each node to null on entry, then its children in map order. */
    method NullifySubtree(n: Node) returns (r: Node)
      requires stateChangesCount == |history|
      modifies this`history, this`stateChangesCount
      ensures r == NullifyAll(n, ts)
      ensures history == old(history) + ClosingIntervals(n, ts)
      ensures stateChangesCount == |history|
      ensures unchanged(this`root, this`nextNodeId) && DbsKept() && FilesKept()
      decreases n
    {
      WriteInterval(n);
      ghost var h1 := history;
      var kids: seq<Node> := [];
      var i := 0;
      while i < |n.kids|
        invariant 0 <= i <= |n.kids|
        invariant |kids| == i && forall j | 0 <= j < i :: kids[j] == NullifyAll(n.kids[j], ts)
        invariant history == h1 + ClosingIntervalsOf(n.kids[..i], ts)
        invariant stateChangesCount == |history|
      {
        var k := NullifySubtree(n.kids[i]);
        kids := kids + [k];
        ClosingIntervalsOfStep(n.kids, i, ts);
        AppendAssoc(h1, ClosingIntervalsOf(n.kids[..i], ts), ClosingIntervals(n.kids[i], ts));
        i := i + 1;
      }
      assert n.kids[..i] == n.kids;
      AppendAssoc(old(history), IntervalOf(n, ts), ClosingIntervalsOf(n.kids, ts));
      r := Node(n.id, NullValue, ts, n.keys, kids);
    }

    /** nullifyAllNodes: run the nullifier over the whole tree. */
    method NullifyAllNodes()
      requires Valid()
      modifies this
      ensures Valid()
      ensures root == NullifyAll(old(root), ts)
      ensures history == old(history) + ClosingIntervals(old(root), ts)
      ensures nextNodeId == old(nextNodeId) && DbsKept() && FilesKept()
    {
      var r := NullifySubtree(root);
      NullifyAllShape(old(root), ts);
      ClosingIntervalsKeys(old(root), ts);
      root := r;
    }

    /** writeNodesMap: the tokens the tree-to-JSON visitor gives the generator. */
    method WriteNodesMap()
      modifies this`nodesMap
      ensures nodesMap == NodesMapTokens(Visit(root, ROOT_QUARK), subpathsDb)
    {
      nodesMap := NodesMapTokens(Visit(root, ROOT_QUARK), subpathsDb);
    }
  }
}
