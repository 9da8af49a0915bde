# tigerbeetle state-history core, modelled in Dafny

This project models the core of tigerbeetle's state-history builder (`tibeebuild`) and of its progress
window, and proves properties of the model. The modelled parts are:

- **State tree and history sink.** Modelled in `state_tree.dfy`, `state_history_sink.dfy`,
  `state_node_iterator.dfy`, `state_value.dfy` and `string_db.dfy`.
  - `StateHistorySink` is a class. It holds the current timestamp, the open flag, the node-id and
    state-change counters, the two string databases (subpaths and string values) with their quark
    counters, the state tree and the intervals written so far.
  - A `StateNode` is a value `Node(id, value, beginTs, keys, kids)`. Its children are kept in map order,
    and the sink owns the whole tree. A `StateNode&` becomes a *handle*: the path of quarks from the
    root. Every `StateNode` operation becomes a sink method that takes a handle.
  - The visitors (counter, nullifier, tree-to-JSON) are the preorder walk `Visit` and what each visitor
    does with it.
  - `writeStringDb` and `writeNodesMap` are modelled as the bytes and the JSON generator tokens they
    produce.
- **State values.** The tagged `AbstractStateValue` is modelled with its type predicates, its
  accessors and the wrap-around of `+=`/`-=`.
- **Event-callback registry.** `AbstractStateProvider` (`state_provider.dfy`) models
  `onInit`/`onEvent`/`onFini` and the two registration loops over the current trace set.
- **Build configuration.**
  - `BuilderBeetle` (`builder_beetle.dfy`).
  - `StateHistoryBuilder` (`state_history_builder.dfy`).
  - `StateProviderConfig` (`provider_config.dfy`).
  - `StateProviderParamValue` (`param_value.dfy`).
  - `TraceInfos` (`trace_infos.dfy`).
  - The file system is an oracle value `FileSystem` that records which paths exist, which are directories, and which provider files give a provider object (the library loads, the script runs).
- **Event values.**
  - `AbstractEventValue` and `AbstractIntegerEventValue` (`event_value.dfy`, `event_value_bits.dfy`).
    Integer widths are written out explicitly in `fixed_width.dfy`.
  - `Event` (`event.dfy`) models its lazy scope caches.
- **Progress display.**
  - `qprogressmainwindow.py` (`progress_window.dfy`): the nanosecond split, the duration text,
    thousands grouping and line joining. The calendar part of a timestamp's text is a parameter.
  - `TermModifier` (`term_modifier.dfy`): the SGR escape code.

Where the code and the documented design differ, the model follows the code:

- `setNullRecursive` nullifies the node and its direct children only. Its doc comment says the whole
  subtree.
- `registerEventCallback` returns true only when it newly stored a callback for some pair. Its
  documentation says "matched".
- With `force`, a database directory that does not exist is refused, because `!is_directory` holds for
  it.
- `StateHistoryBuilder`'s constructor takes the provider names. `BuilderBeetle::run` passes it the
  configurations, which is a revision mismatch. The model passes the configurations' names.
- The string databases are Boost bimaps in `StateHistorySink.cpp`, and their left view iterates in
  string order. `StateHistorySink.hpp` still declares them as `std::map`. The model follows the `.cpp`.

## Model

| member | source | states |
|---|---|---|
| StateValues.GetType | src/common/state/AbstractStateValue.hpp:71-74 | the tag is NUL exactly for the null value (the full tag/constructor correspondence is TypeMatchesConstructor) |
| StateValues.ToBool | src/common/state/AbstractStateValue.hpp:285-288 | the bool conversion holds iff the value is not null |
| StateValues.AsSint32 | src/common/state/AbstractStateValue.cpp:44-54 | requires the sint32 tag (the assert) and returns the payload the value was built with |
| StateValues.AsUint32 | src/common/state/AbstractStateValue.cpp:56-66 | requires the uint32 tag and returns the stored payload |
| StateValues.AsSint64 | src/common/state/AbstractStateValue.cpp:68-78 | requires the sint64 tag and returns the stored payload |
| StateValues.AsUint64 | src/common/state/AbstractStateValue.cpp:80-90 | requires the uint64 tag and returns the stored payload |
| StateValues.AsFloat32 | src/common/state/AbstractStateValue.cpp:92-102 | requires the float32 tag and returns the stored payload |
| StateValues.AsQuark | src/common/state/AbstractStateValue.cpp:104-114 | requires the quark tag and returns the stored quark |
| StateValues.ExactlyOneType | src/common/state/AbstractStateValue.hpp:207-274 | exactly one of isSint32/isSint64/isUint32/isUint64/isFloat32/isQuark/isNull holds for any value |
| StateValues.TypeMatchesConstructor | src/common/state/AbstractStateValue.hpp:207-274 | each is* predicate holds exactly for the values built by the matching constructor |
| StateValues.Uint32Scenario | tests/cppunit/tests/common/state/Uint32StateValueTest.cpp:42-67 | a uint32 value 42 is only a uint32, converts to true and gives back 42 |
| StateValues.Incremented | src/common/state/StateNode.cpp:401-453 | an integer value moves by delta modulo its own width and keeps its type; null, float and quark values are unchanged |
| StateValues.IncrementedInverse | src/common/state/StateNode.cpp:401-453 | `-=` by d undoes `+=` by d, wrap-around included |
| StateValues.IncrementedInRange | src/common/state/StateNode.cpp:401-426 | away from the bounds an increment is plain addition; at the maximum, uint32 wraps to 0 and int32 to -2^31 |
| FixedWidth.WrapU32 | src/common/state/StateNode.cpp:413-415 | the uint32 cast: a value in [0, 2^32) congruent to x modulo 2^32, and x itself when it fits |
| FixedWidth.WrapS32 | src/common/state/StateNode.cpp:409-411 | the int32 cast: a value in [-2^31, 2^31) congruent to x modulo 2^32, and x itself when it fits |
| FixedWidth.WrapU64 | src/common/state/StateNode.cpp:421-423 | the uint64 cast: a value in [0, 2^64) congruent to x modulo 2^64, and x itself when it fits |
| FixedWidth.WrapS64 | src/common/trace/AbstractIntegerEventValue.hpp:88-91 | the int64 result: a value in [-2^63, 2^63) congruent to x modulo 2^64, and x itself when it fits |
| FixedWidth.TruncDiv | src/common/trace/AbstractIntegerEventValue.hpp:214-217 | C++ division truncates toward zero: |q| = |a| / |b|, and a non-zero q is negative exactly when the operands' signs differ |
| FixedWidth.S64U64RoundTrip | src/common/trace/AbstractIntegerEventValue.hpp:256-281 | casting an int64 to uint64 and back to int64 gives the original value |
| Decimal.NatToString | src/common/state/StateNode.cpp:84-102 | std::to_string of a natural: non-empty digits with no leading zero |
| Decimal.IntToString | src/common/state/StateNode.cpp:84-102 | std::to_string of an integer: a '-' before the digits exactly when it is negative |
| Decimal.NatToStringRoundTrip | src/common/state/StateNode.cpp:84-102 | the digits of std::to_string read back as the number |
| Decimal.NatToStringInjective | src/common/state/StateNode.cpp:84-102 | distinct naturals give distinct decimal texts |
| Decimal.IntToStringInjective | src/common/state/StateNode.cpp:84-102 | distinct integers, negative ones included, give distinct std::to_string texts |
| Decimal.PadNat | src/qtibeeprogress/qtibeeprogress/qprogressmainwindow.py:112 | `{:0W}`: at least W characters, all digits |
| Decimal.PadNatValue | src/qtibeeprogress/qtibeeprogress/qprogressmainwindow.py:112 | the zero-padded text reads back as the number |
| StringDbs.GetQuark | src/common/state/StateHistorySink.cpp:369-384 | a known string returns its quark and leaves db and counter unchanged; a new one gets quark `next`, is inserted, and the counter rises by 1 |
| StringDbs.GetQuarkString | src/common/state/StateHistorySink.cpp:386-396 | the string of a known quark, otherwise WrongQuark(quark) |
| StringDbs.InternTwice | src/common/state/StateHistorySink.cpp:369-384 | interning the same string again returns the same quark and does not move the counter |
| StringDbs.InternValid | src/common/state/StateHistorySink.cpp:375-380 | interning keeps the bimap consistent and the quarks dense below the counter, and never issues a quark twice |
| StringDbs.InternRoundTrip | src/common/state/StateHistorySink.cpp:386-396 | getQuarkString(getQuark(s)) == s |
| StringDbs.EmptyKnowsNothing | src/common/state/StateHistorySink.cpp:386-396 | in a cleared database every quark raises WrongQuark |
| StringDbs.InternStep | src/common/state/StateHistorySink.cpp:375-380 | one interning step keeps the database valid and its size equal to the quark counter |
| StringDbs.InternAllDense | src/common/state/StateHistorySink.cpp:375-380 | interning a sequence keeps the quarks dense below the counter and the size equal to the counter, and the database gains exactly the strings of the sequence |
| StringDbs.AlignUp | src/common/state/StateHistorySink.cpp:459-460 | the aligned stream position is the least multiple of sizeof(quark) at or after pos |
| StringDbs.QuarkBytes | src/common/state/StateHistorySink.cpp:462-463 | a quark is written as 4 bytes, the size of quark_t |
| StringDbs.QuarkBytesRoundTrip | src/common/state/StateHistorySink.cpp:462-463 | the 4 bytes read back little-endian give the quark modulo 2^32 |
| StringDbs.Image | src/common/state/StateHistorySink.cpp:444-469 | the file is a whole number of quark-sized words long |
| StringDbs.ImageSnoc | src/common/state/StateHistorySink.cpp:453-464 | writing one more record at the current end of the stream extends the image by that record |
| StringDbs.RecordLayout | src/common/state/StateHistorySink.cpp:453-464 | a record is the string bytes, a NUL, zero padding to the next multiple of 4, then the quark, which starts at an aligned offset |
| StringDbs.ImageRoundTrip | src/common/state/StateHistorySink.cpp:444-469 | decoding the image of NUL-free strings gives back every pair, with each quark reduced to 32 bits |
| StringDbs.SortByString | src/common/state/StateHistorySink.cpp:453 | the pairs reordered by string are a permutation of the input |
| StringDbs.SortByStringSorted | src/common/state/StateHistorySink.cpp:453 | the reordered pairs are sorted by string |
| StringDbs.EntriesExact | src/common/state/StateHistorySink.cpp:453 | the left view's pairs are sorted by string and are exactly the pairs of the database |
| StringDbs.WriteStringDb | src/common/state/StateHistorySink.cpp:444-469 | the bytes written are the image of the database's pairs in string order |
| StringDbs.WriteRecords | src/common/state/StateHistorySink.cpp:453-464 | the write loop produces the image of the pairs it is given |
| StateTree.Leaf | src/common/state/StateNode.cpp:33-41 | a new node has the given id and begin timestamp, a null value and no children |
| StateTree.Child | src/common/state/StateNode.hpp:937-940 | a child is found only under a quark that is a key of the children map, whether the child is null or not |
| StateTree.HasChildExact | src/common/state/StateNode.cpp:185-194 | hasChild(q) holds iff a child exists under q and its value is not null |
| StateTree.HandleIdentity | src/common/state/StateNode.hpp:898-902 | in a tree with distinct ids, two handles reach the same node id only if they are the same handle, so node equality is identity |
| StateTree.ExtendsHandle | src/common/state/StateNode.cpp:56-68 | in a grown tree every old handle still exists and denotes the node with the same id |
| StateTree.AddChild | src/common/state/StateNode.cpp:64-65 | the node gains exactly one child, under q, after the existing ones; id, value and begin timestamp are unchanged |
| StateTree.AddChildChildren | src/common/state/StateNode.cpp:56-68 | after the insertion q finds the new child, every other quark finds what it found before, and the tree only grows |
| StateTree.AddChildIds | src/common/state/StateHistorySink.cpp:471-480 | a child with fresh ids adds exactly those ids and keeps all ids distinct |
| StateTree.ActiveCountIsCardinality | src/common/state/StateHistorySink.cpp:482-496 | counting non-null nodes one by one gives the number of distinct non-null node ids |
| StateTree.Liveness | src/common/state/StateNode.cpp:253-257 | flag i is the bool conversion of child i |
| StateTree.LiveKeysMembers | src/common/state/StateNode.cpp:169-183 | a quark is listed exactly when one of the first k children carries it and is not null |
| StateTree.LiveKeysAreChildren | src/common/state/StateNode.cpp:185-194 | the quarks listed for a node are exactly those q with hasChild(q) |
| StateTree.LiveKeysStep | src/common/state/StateNode.cpp:248-260 | each further child adds one key exactly when it is not null |
| StateTree.LiveKeysSkip | src/common/state/StateNodeIterator.cpp:61-80 | skipping only null children adds no key |
| StateTree.Visit | src/common/state/StateNode.cpp:470-483 | the walk starts by entering the node and ends by leaving it |
| StateTree.VisitLength | src/common/state/StateNode.cpp:470-483 | preorder: every node of the tree is entered once and left once |
| StateTree.CountVisit | src/common/state/StateHistorySink.cpp:53-73 | the counter visitor's count over the walk is the number of non-null nodes |
| StateTree.IntervalOf | src/common/state/StateHistorySink.cpp:418-442 | nothing for a null value; otherwise one interval [beginTs, ts] keyed by the node id with its value |
| StateTree.Assigned | src/common/state/StateNode.hpp:987-1000 | after the template operator= the value is the new one and beginTs is the current timestamp; id and children are unchanged |
| StateTree.AssignedExtends | src/common/state/StateNode.hpp:987-1000 | an assignment keeps the tree's shape, ids and invariants |
| StateTree.NullifyAll | src/common/state/StateHistorySink.cpp:170-183 | the nullifier keeps each node's id, keys and number of children |
| StateTree.NullifyAllShape | src/common/state/StateHistorySink.cpp:530-538 | after nullification no node is non-null, and the tree keeps its shape and ids |
| StateTree.ClosingCount | src/common/state/StateHistorySink.cpp:170-183 | the nullifier writes one interval per non-null node |
| StateTree.ClosingIntervalsKeys | src/common/state/StateHistorySink.cpp:170-183 | the nullifier closes exactly the non-null nodes, each at ts and with a non-null value |
| StateTree.NullifyShallow | src/common/state/StateNode.cpp:378-389 | part-way through setNullRecursive the node is null with beginTs = ts |
| StateTree.NullifyShallowGrandchildren | src/common/state/StateNode.cpp:378-389 | the first upTo children are null, the later ones are untouched, and no grandchild changes |
| StateTree.NullifyShallowShape | src/common/state/StateNode.cpp:378-389 | setNullRecursive keeps the tree's shape, ids and invariants |
| StateTree.ShallowIntervals | src/common/state/StateNode.cpp:378-389 | every interval setNullRecursive writes belongs to a node of that subtree |
| StateTree.NodeJson | src/common/state/StateHistorySink.cpp:80-90 | each node's document is an object with as many names as values |
| StateTree.NodesMapIsJson | src/common/state/StateHistorySink.cpp:112-154 | the tree-to-JSON visitor's tokens are the serialization of a document with an "id" per node and a "children" object exactly when the node has children, named by subpath |
| StateNodeIterators.NextLive | src/common/state/StateNodeIterator.cpp:61-80 | the first non-null position at or after `from`, or the end when none is left |
| StateNodeIterators.NextLiveUnique | src/common/state/StateNodeIterator.cpp:61-80 | a position that skips only null children and stops at a non-null child, or at the end, is NextLive |
| StateNodeIterators.StateNodeIterator.End | src/common/state/StateNode.cpp:177-183 | end() is the position after the last child |
| StateNodeIterators.StateNodeIterator.constructor | src/common/state/StateNodeIterator.cpp:26-32 | the new iterator is at the first non-null child at or after its start, or at the end |
| StateNodeIterators.StateNodeIterator.Copy | src/common/state/StateNodeIterator.cpp:34-39 | the copy has the other's children and is moved past a null child |
| StateNodeIterators.StateNodeIterator.Assign | src/common/state/StateNodeIterator.cpp:41-49 | operator= takes the other's positions and then moves past a null child |
| StateNodeIterators.StateNodeIterator.FindNextValidNode | src/common/state/StateNodeIterator.cpp:51-59 | afterwards the iterator is at the first non-null child at or after its old position, or at the end |
| StateNodeIterators.StateNodeIterator.Increment | src/common/state/StateNodeIterator.cpp:61-80 | ++ advances at least once, skips every null child and stops at the end when none remains |
| StateNodeIterators.StateNodeIterator.Deref | src/common/state/StateNodeIterator.cpp:92-95 | operator* is the quark of the current child |
| StateNodeIterators.StateNodeIterator.Equals | src/common/state/StateNodeIterator.cpp:82-90 | two iterators over the same node are equal iff both are at the end or both are at the child of the same quark |
| StateNodeIterators.LiveChildKeys | src/common/state/StateNodeIterator.cpp:61-95 | iterating from begin() until end() gives exactly the quarks of the non-null children, in map order |
| StateHistorySinks.EventValueSubpath | src/common/state/StateNode.cpp:119-130 | a sint or uint key names the child by its decimal string and a string key by itself; any other key names the child "" |
| StateHistorySinks.EventValueSubpathAliases | src/common/state/StateNode.cpp:84-130 | an integer key and the string of its digits name the same child |
| StateHistorySinks.FloatToQuark | src/common/state/StateNode.cpp:152-155 | the float-to-quark_t conversion truncates toward zero |
| StateHistorySinks.FreshStateOk | src/common/state/StateHistorySink.cpp:326-343 | the state open() leaves satisfies the sink invariant |
| StateHistorySinks.AddLeafOk | src/common/state/StateNode.cpp:56-68 | inserting a fresh null leaf keeps the sink invariant and leaves every other child as it was |
| StateHistorySinks.StateHistorySink.constructor | src/common/state/StateHistorySink.cpp:185-211 | the counters start at 0, the sink is open, the root is the leaf with id 0, and nothing has been written |
| StateHistorySinks.StateHistorySink.Open | src/common/state/StateHistorySink.cpp:326-343 | resets ts, both databases, their counters and the change count; builds a root with the next node id, which is not reset; ends open |
| StateHistorySinks.StateHistorySink.Close | src/common/state/StateHistorySink.cpp:345-367 | on a closed sink, nothing changes; otherwise every node is nullified at ts, the files are written, the databases are cleared and the sink ends closed |
| StateHistorySinks.StateHistorySink.WriteFiles | src/common/state/StateHistorySink.cpp:355-360 | the two database images and the nodes map are written from the current state; the tree, the databases, the open flag and the timestamp are unchanged |
| StateHistorySinks.StateHistorySink.WriteDbImages | src/common/state/StateHistorySink.cpp:357-358 | each database file is the image of its pairs in string order |
| StateHistorySinks.StateHistorySink.ClearDbs | src/common/state/StateHistorySink.cpp:362-366 | both databases are emptied while their counters are kept, and the sink is closed |
| StateHistorySinks.StateHistorySink.SetCurrentTimestamp | src/common/state/StateHistorySink.hpp:68-74 | sets the current timestamp and nothing else |
| StateHistorySinks.StateHistorySink.BuildStateNode | src/common/state/StateHistorySink.cpp:471-480 | a null leaf with the next node id and the sink's begin timestamp; the id counter rises by 1 |
| StateHistorySinks.StateHistorySink.GetSubpathQuark | src/common/state/StateHistorySink.cpp:398-401 | interns into the subpaths database; the quark reads back as the string; the values database is untouched |
| StateHistorySinks.StateHistorySink.GetStringValueQuark | src/common/state/StateHistorySink.cpp:403-406 | interns into the values database; the quark reads back as the string; the subpaths database is untouched |
| StateHistorySinks.StateHistorySink.GetSubpathString | src/common/state/StateHistorySink.cpp:408-411 | a known subpath quark gives the string that interns back to it; on an open sink the known quarks are those below the counter; any other quark is WrongQuark |
| StateHistorySinks.StateHistorySink.GetStringValueString | src/common/state/StateHistorySink.cpp:413-416 | a known value quark gives the string that interns back to it; on an open sink the known quarks are those below the counter; any other quark is WrongQuark |
| StateHistorySinks.StateHistorySink.WriteInterval | src/common/state/StateHistorySink.cpp:418-442 | a null value writes nothing and does not count; otherwise [beginTs, ts] keyed by the node id is appended and counted |
| StateHistorySinks.StateHistorySink.Assign | src/common/state/StateNode.hpp:987-1000 | the old value's interval is written first, then beginTs becomes ts and the value v; only that node changes |
| StateHistorySinks.StateHistorySink.AssignNode | src/common/state/StateNode.cpp:287-290 | the node takes the other node's current value |
| StateHistorySinks.StateHistorySink.AssignString | src/common/state/StateNode.cpp:297-304 | the stored value is the quark of s in the values database; the subpaths database is untouched |
| StateHistorySinks.StateHistorySink.AssignEventValue | src/common/state/StateNode.cpp:358-371 | sint becomes sint64, uint becomes uint64, a string is interned, a float becomes float32; any other type changes nothing |
| StateHistorySinks.StateHistorySink.SetNull | src/common/state/StateNode.cpp:373-376 | the node becomes null at ts, and its previous value's interval is written |
| StateHistorySinks.StateHistorySink.SetNullRecursive | src/common/state/StateNode.cpp:378-389 | the node and then each direct child are set to null in map order; grandchildren are untouched |
| StateHistorySinks.StateHistorySink.NullChildren | src/common/state/StateNode.cpp:384-386 | the loop over the children sets each of them to null and writes their intervals in order |
| StateHistorySinks.StateHistorySink.NullChild | src/common/state/StateNode.cpp:385 | one more child is set to null |
| StateHistorySinks.StateHistorySink.AddDelta | src/common/state/StateNode.cpp:401-453 | for an integer value, the node is replaced by one holding Incremented(value, delta) with beginTs set to the current timestamp, every other node is kept (the root is Replace of the old root at the handle), and the old value's interval is appended; a non-integer value leaves the tree and the history unchanged |
| StateHistorySinks.StateHistorySink.AddAssign | src/common/state/StateNode.cpp:401-426 | += inc: for an integer value, the node alone is replaced by one holding Incremented(value, inc) that begins now, and the old value's interval is appended; a non-integer value changes nothing |
| StateHistorySinks.StateHistorySink.SubAssign | src/common/state/StateNode.cpp:428-453 | -= dec: for an integer value, the node alone is replaced by one holding Incremented(value, -dec) that begins now, and the old value's interval is appended; a non-integer value changes nothing |
| StateHistorySinks.StateHistorySink.PreIncrement | src/common/state/StateNode.cpp:391-394 | ++ is += 1: for an integer value the node alone is replaced by one holding Incremented(value, 1) that begins now, with the old value's interval appended; a non-integer value changes nothing |
| StateHistorySinks.StateHistorySink.PreDecrement | src/common/state/StateNode.cpp:396-399 | -- is -= 1: for an integer value the node alone is replaced by one holding Incremented(value, -1) that begins now, with the old value's interval appended; a non-integer value changes nothing |
| StateHistorySinks.StateHistorySink.PreIncrementThenDecrement | src/common/state/StateNode.cpp:391-399 | ++ then --: the value comes back, the node begins at the current timestamp, no other node changes, and two intervals are appended (the old value, then the incremented one); a non-integer value changes nothing |
| StateHistorySinks.StateHistorySink.ChildByQuark | src/common/state/StateNode.cpp:56-68 | an existing child is returned with nothing changed; otherwise exactly one fresh null child with the next id is added; no other child changes |
| StateHistorySinks.StateHistorySink.ChildByName | src/common/state/StateNode.cpp:70-77 | the subpath is interned into the subpaths database and names the child; the values database is untouched |
| StateHistorySinks.StateHistorySink.IntChild | src/common/state/StateNode.cpp:84-102 | the child is named by the decimal string of the key |
| StateHistorySinks.StateHistorySink.ChildByEventValue | src/common/state/StateNode.cpp:119-130 | the child is named by EventValueSubpath of the key |
| StateHistorySinks.StateHistorySink.ChildByStateValue | src/common/state/StateNode.cpp:132-167 | integers by their decimal string; a float by its conversion to quark_t; a quark value by its string in the values database (WrongQuark when unknown, with nothing changed) |
| StateHistorySinks.StateHistorySink.HasChildByName | src/common/state/StateNode.cpp:196-203 | the answer is hasChild of the interned subpath quark; the tree is unchanged |
| StateHistorySinks.StateHistorySink.HasIntChild | src/common/state/StateNode.cpp:210-218 | hasChild of the key's decimal string |
| StateHistorySinks.StateHistorySink.HasChildByEventValue | src/common/state/StateNode.cpp:235-246 | by the key's subpath for sint, uint and string keys; false with no interning for any other key |
| StateHistorySinks.StateHistorySink.GetChildrenCount | src/common/state/StateNode.cpp:248-260 | the number of non-null children, never more than getAllChildrenCount |
| StateHistorySinks.StateHistorySink.GetAllChildrenCount | src/common/state/StateNode.cpp:262-265 | the size of the children map, null children included |
| StateHistorySinks.StateHistorySink.Begin | src/common/state/StateNode.cpp:169-175 | an iterator at the first non-null child of the node |
| StateHistorySinks.StateHistorySink.End | src/common/state/StateNode.cpp:177-183 | an iterator at the end of the node's children |
| StateHistorySinks.StateHistorySink.GetNodesCount | src/common/state/StateHistorySink.cpp:482-496 | the number of non-null nodes in the tree, the root included |
| StateHistorySinks.StateHistorySink.NullifySubtree | src/common/state/StateNode.cpp:455-468 | the nullifier's walk: the subtree is NullifyAll of it, and the intervals of its non-null nodes are appended |
| StateHistorySinks.StateHistorySink.NullifyAllNodes | src/common/state/StateHistorySink.cpp:530-538 | every node is nullified at ts, and one interval per non-null node is appended |
| StateHistorySinks.StateHistorySink.WriteNodesMap | src/common/state/StateHistorySink.cpp:498-528 | the nodes map is the token stream the tree-to-JSON visitor produces over the whole tree |
| EventValues.AsSint | src/common/trace/AbstractEventValue.cpp:39-49 | requires the sint tag (the assert) and returns the stored value |
| EventValues.AsUint | src/common/trace/AbstractEventValue.cpp:51-61 | requires the uint tag and returns the stored value |
| EventValues.AsFloat | src/common/trace/AbstractEventValue.cpp:63-73 | requires the float tag and returns the stored value |
| EventValues.AsEnumInt | src/common/trace/AbstractEventValue.cpp:75-85 | requires the enum tag and returns its integer |
| EventValues.AsEnumLabel | src/common/trace/AbstractEventValue.cpp:75-90 | requires the enum tag and returns its label |
| EventValues.AsString | src/common/trace/AbstractEventValue.cpp:92-102 | requires the string tag and returns the stored string |
| EventValues.AsArray | src/common/trace/AbstractEventValue.cpp:104-109 | requires the array tag and returns its items |
| EventValues.AsDict | src/common/trace/AbstractEventValue.cpp:111-116 | requires the dict tag and returns its entries |
| EventValues.DefaultField | src/common/trace/AbstractEventValue.cpp:138-146 | a value that is neither a dictionary nor an array answers a value that converts to false and is not an integer |
| EventValues.IntValue | src/common/trace/AbstractIntegerEventValue.hpp:306-309 | getValue of a sint or uint; a uint is non-negative |
| EventValues.IntPlus | src/common/trace/AbstractIntegerEventValue.hpp:312-321 | the sum reduced to int64, and equal to the sum when that fits |
| EventValues.IntMinus | src/common/trace/AbstractIntegerEventValue.hpp:324-333 | the difference reduced to int64, and equal to the difference when that fits |
| EventValues.IntTimes | src/common/trace/AbstractIntegerEventValue.hpp:336-345 | the product reduced to int64, and equal to the product when that fits |
| EventValues.IntDivide | src/common/trace/AbstractIntegerEventValue.hpp:348-357 | truncating int64 division for two sints; otherwise uint64 division of the reinterpreted operands |
| EventValues.DivideNonNegative | src/common/trace/AbstractIntegerEventValue.hpp:348-357 | for a non-negative dividend below 2^63 and a positive divisor, both divisions are exact division |
| EventValues.EqualsAcrossSigns | src/common/trace/AbstractIntegerEventValue.hpp:256-291 | ==(int64) and ==(uint64) agree through the cast, != is the negation of ==, and uint 2^64-1 equals sint -1 |
| EventValues.EqualsSint | src/common/trace/AbstractIntegerEventValue.hpp:256-291 | ==(int64) holds iff the value and the operand have the same 64-bit pattern |
| EventValues.EqualsUint | src/common/trace/AbstractIntegerEventValue.hpp:256-291 | ==(uint64) holds iff the value and the operand have the same 64-bit pattern |
| EventValues.NotEqualsSint | src/common/trace/AbstractIntegerEventValue.hpp:256-291 | !=(int64) holds iff the 64-bit patterns differ |
| EventValues.NotEqualsUint | src/common/trace/AbstractIntegerEventValue.hpp:256-291 | !=(uint64) holds iff the 64-bit patterns differ |
| EventValues.DisplayBase | src/common/trace/AbstractIntegerEventValue.hpp:69-79 | -1 for a negative base, otherwise the base |
| EventValues.Plus | src/common/trace/AbstractEventValue.cpp:170-187 | 0 unless both operands are integers, otherwise the int64 sum |
| EventValues.Minus | src/common/trace/AbstractEventValue.cpp:211-228 | 0 unless both operands are integers, otherwise the int64 difference |
| EventValues.Times | src/common/trace/AbstractEventValue.cpp:252-269 | 0 unless both operands are integers, otherwise the int64 product |
| EventValues.Divide | src/common/trace/AbstractEventValue.cpp:293-310 | 0 unless both operands are integers, otherwise the integer division; the divisor must not be 0 |
| EventValues.PlusSint | src/common/trace/AbstractEventValue.cpp:148-157 | 0 unless the receiver is an integer, otherwise congruent to the sum modulo 2^64 |
| EventValues.PlusUint | src/common/trace/AbstractEventValue.cpp:159-168 | 0 unless the receiver is an integer, otherwise congruent to the sum modulo 2^64 |
| EventValues.MinusSint | src/common/trace/AbstractEventValue.cpp:189-198 | 0 unless the receiver is an integer, otherwise congruent to the difference modulo 2^64 |
| EventValues.MinusUint | src/common/trace/AbstractEventValue.cpp:200-209 | 0 unless the receiver is an integer, otherwise congruent to the difference modulo 2^64 |
| EventValues.TimesSint | src/common/trace/AbstractEventValue.cpp:230-239 | 0 unless the receiver is an integer, otherwise congruent to the product modulo 2^64 |
| EventValues.TimesUint | src/common/trace/AbstractEventValue.cpp:241-250 | 0 unless the receiver is an integer, otherwise congruent to the product modulo 2^64 |
| EventValues.DivideSint | src/common/trace/AbstractEventValue.cpp:271-280 | 0 unless the receiver is an integer; a sint receiver gives the wrapped truncated quotient, which is the quotient itself except for INT64_MIN / -1; a uint receiver gives the uint64 quotient by the reinterpreted scalar, cast to int64 |
| EventValues.DivideUint | src/common/trace/AbstractEventValue.cpp:282-291 | 0 unless the receiver is an integer, otherwise uint64 division of the reinterpreted receiver, cast back to int64 |
| EventValues.ValueOperatorsAreScalar | src/common/trace/AbstractEventValue.cpp:170-310 | value ⊕ value equals value ⊕ the second operand's getValue() |
| EventValues.PlusTimesCommute | src/common/trace/AbstractEventValue.cpp:170-269 | + and * do not depend on operand order; times 0 is 0 |
| EventValueBits.BitAnd | src/common/trace/AbstractEventValue.cpp:317-320 | requires uint operands; every binary digit of the result is 1 iff that digit is 1 in both operands; the result is at most each operand and is the operand itself for equal operands |
| EventValueBits.BitOr | src/common/trace/AbstractEventValue.cpp:327-330 | requires uint operands; every binary digit of the result is 1 iff that digit is 1 in either operand; the result is at least each operand and is the operand itself for equal operands |
| EventValueBits.AndDigit | src/common/trace/AbstractEventValue.cpp:312-320 | digit i of x & y is the product of digit i of x and digit i of y |
| EventValueBits.OrDigit | src/common/trace/AbstractEventValue.cpp:322-330 | digit i of x | y is 1 iff digit i of x or of y is 1 |
| EventValueBits.BitXor | src/common/trace/AbstractEventValue.cpp:337-340 | requires uint operands; xor of the result with w gives back v, and the result is 0 iff the operands are equal |
| EventValueBits.BitNot | src/common/trace/AbstractEventValue.cpp:342-345 | requires a uint; ~v + v == 2^64 - 1 |
| EventValueBits.BitAndScalar | src/common/trace/AbstractEventValue.cpp:312-315 | & with a uint64 scalar is & with that uint value |
| EventValueBits.BitOrScalar | src/common/trace/AbstractEventValue.cpp:322-325 | \| with a uint64 scalar is \| with that uint value |
| EventValueBits.BitXorScalar | src/common/trace/AbstractEventValue.cpp:332-335 | ^ with a uint64 scalar is ^ with that uint value |
| EventValueBits.BitwiseLaws | src/common/trace/AbstractEventValue.cpp:312-345 | &, \| and ^ commute, xor twice is the identity, and ~~x == x |
| EventValueBits.XorTwice | src/common/trace/AbstractEventValue.cpp:332-340 | exclusive or with the same operand twice gives back the original value |
| Events.TopLevelScope | src/common/trace/Event.cpp:56-70 | the scope's dictionary when it exists and is a struct, otherwise the null value |
| Events.FirstNamedIsFirst | src/common/trace/Event.cpp:116-122 | the field at the smallest index with that name; null when there is none |
| Events.FieldByNameMissing | src/common/trace/Event.cpp:108-125 | no fields scope, or no field with that name, gives the null value |
| Events.Event.constructor | src/common/trace/Event.cpp:31-34 | a new event has no cached scope |
| Events.Event.SetPrivateEvent | src/common/trace/Event.cpp:145-154 | the new event replaces the old one and all four caches are reset |
| Events.Event.Id | src/common/trace/Event.cpp:166-170 | the event id of the current event |
| Events.Event.TraceId | src/common/trace/Event.cpp:172-176 | the trace id of the current event |
| Events.Event.GetScope | src/common/trace/Event.cpp:72-106 | returns the scope's top-level value and caches it; it is built only when not already cached |
| Events.Event.GetFields | src/common/trace/Event.cpp:72-79 | the event fields scope, cached |
| Events.Event.GetContext | src/common/trace/Event.cpp:81-88 | the event context scope, cached |
| Events.Event.GetStreamEventContext | src/common/trace/Event.cpp:90-97 | the stream event context scope, cached |
| Events.Event.GetStreamPacketContext | src/common/trace/Event.cpp:99-106 | the stream packet context scope, cached |
| Events.Event.FieldNamed | src/common/trace/Event.cpp:108-125 | operator[](name) is the first field with that name, or null |
| Events.Event.FieldAt | src/common/trace/Event.cpp:132-143 | operator[](index) is the field at that index, or null when there is no fields dictionary |
| Events.BuiltAtMostOnce | src/common/trace/Event.cpp:72-106 | what Valid(), which the constructor, setPrivateEvent and every getter keep, means for one scope: it was built at most once since the last setPrivateEvent, and built iff it is cached |
| ParamValues.Stoll | src/common/stateprov/StateProviderParamValue.cpp:33 | std::stoll succeeds iff the text has a decimal reading whose signed value is in int64, and then gives that value |
| ParamValues.Stoull | src/common/stateprov/StateProviderParamValue.cpp:42 | std::stoull succeeds iff the text has a decimal reading whose magnitude is below 2^64, and then gives the magnitude, or its negation modulo 2^64 after a minus sign |
| ParamValues.AsString | src/common/stateprov/StateProviderParamValue.hpp:49-52 | the stored string, unchanged |
| ParamValues.AsSint | src/common/stateprov/StateProviderParamValue.cpp:30-37 | -1 when parsing fails, otherwise the signed value read |
| ParamValues.AsUint | src/common/stateprov/StateProviderParamValue.cpp:39-46 | -1 cast to uint64, that is 2^64-1, when parsing fails, otherwise the signed value read taken modulo 2^64 |
| ParamValues.AsBool | src/common/stateprov/StateProviderParamValue.cpp:57-66 | true for the three spellings of true, false for the three of false, otherwise asUint() != 0 |
| ParamValues.AsSintRoundTrip | src/common/stateprov/StateProviderParamValue.cpp:30-37 | the to_string text of an int64 reads back as it |
| ParamValues.AsUintRoundTrip | src/common/stateprov/StateProviderParamValue.cpp:39-46 | the decimal text of a uint64 reads back as it, and asBool of it is "not zero" |
| ParamValues.NoDigitsFallBack | src/common/stateprov/StateProviderParamValue.cpp:30-66 | text without digits gives -1, 2^64-1 and (unless it spells false) true |
| ParamValues.BoolFromDigits | src/common/stateprov/StateProviderParamValue.cpp:57-66 | "0" is false and "1" is true |
| ProviderConfigs.StateProviderConfig.constructor | src/common/stateprov/StateProviderConfig.hpp:51-56 | name and instance are stored verbatim; there are no parameters |
| ProviderConfigs.StateProviderConfig.Get | src/common/stateprov/StateProviderConfig.hpp:131-134 | the parameter under key exactly when hasParam(key), otherwise the out-of-range error |
| ProviderConfigs.StateProviderConfig.SetParams | src/common/stateprov/StateProviderConfig.hpp:116-119 | the parameters are replaced wholesale; hasParam(k) iff k is a key of the new map |
| ProviderConfigs.StateProviderConfig.PutParam | src/common/stateprov/StateProviderConfig.hpp:106-109 | adding through the mutable getParams changes only that key |
| StateProviders.Store | src/common/stateprov/AbstractStateProvider.cpp:113-116 | the slot for (traceId, eventId) holds cb; every other slot is unchanged |
| StateProviders.NamesMatchSimpleLaws | src/common/stateprov/AbstractStateProvider.cpp:166-170 | the empty name matches anything, a name matches itself, and a non-empty different name does not match |
| StateProviders.FirstRegistrationWins | src/common/stateprov/AbstractStateProvider.cpp:113-116 | a second registration never overwrites a callback already stored |
| StateProviders.StateProvider.constructor | src/common/stateprov/AbstractStateProvider.cpp:27-30 | a new provider has no trace set and no callbacks |
| StateProviders.StateProvider.OnInit | src/common/stateprov/AbstractStateProvider.cpp:36-46 | the trace set is remembered and the map is cleared |
| StateProviders.StateProvider.OnFini | src/common/stateprov/AbstractStateProvider.cpp:76-82 | the map is cleared after the hook |
| StateProviders.StateProvider.OnEvent | src/common/stateprov/AbstractStateProvider.cpp:48-74 | the registered callback's answer, or true when the pair has no non-empty callback |
| StateProviders.StateProvider.RegisterMatching | src/common/stateprov/AbstractStateProvider.cpp:101-122 | every matched empty pair takes cb, every other slot is unchanged, and the result holds iff some matched pair was empty |
| StateProviders.StateProvider.RegisterEventCallback | src/common/stateprov/AbstractStateProvider.cpp:95-123 | RegisterMatching with namesMatchSimple on the trace type and on the event name |
| StateProviders.StateProvider.RegisterEventCallbackRegex | src/common/stateprov/AbstractStateProvider.cpp:125-164 | a pattern that does not compile gives false with the map unchanged; otherwise RegisterMatching with the patterns' search |
| StateProviders.Visit | src/common/stateprov/AbstractStateProvider.cpp:113-116 | the latch rises exactly when a selected pair was empty |
| StateProviders.SkipUnmatchedTrace | src/common/stateprov/AbstractStateProvider.cpp:106 | a trace whose type does not match changes nothing |
| StateProviders.RegisterUpToMeaning | src/common/stateprov/AbstractStateProvider.cpp:101-122 | after any prefix of the loops, every selected empty pair holds cb, every other slot is unchanged, and the latch says an empty pair was selected |
| StateProviders.ProgressStep | src/common/stateprov/AbstractStateProvider.cpp:108-117 | one inner-loop step keeps that invariant |
| TraceInfo.TraceType | src/common/trace/TraceInfos.cpp:35-49 | "lttng-kernel" iff domain is "kernel", "lttng-ust" iff domain is "ust", "unknown" otherwise, including when there is no domain |
| TraceInfo.NewTraceInfos | src/common/trace/TraceInfos.cpp:27-50 | stores path, id, environment and event map, and derives the trace type from the environment |
| TraceInfo.Spaces | src/common/trace/TraceInfos.cpp:63 | the indentation: k spaces |
| TraceInfo.Outline | src/common/trace/TraceInfos.cpp:55-72 | nothing for null infos; otherwise the node's own line first, at its level |
| TraceInfo.OutlineLevels | src/common/trace/TraceInfos.cpp:67-70 | the listing starts at the node's own level, every later line (its members' lines) is deeper, and the indentation grows by at most one level from a line to the next |
| TraceInfo.PrintFieldInfos | src/common/trace/TraceInfos.cpp:55-72 | a null pointer prints nothing and only it does; a description prints its own line (indent, index, space, name, newline) first |
| TraceInfo.PrintIsOutline | src/common/trace/TraceInfos.cpp:55-72 | the printed text is the outline rendered as `2*level` spaces, index, a space, name and a newline per line |
| StateHistoryBuilders.LastIndexOf | src/tibeebuild/StateHistoryBuilder.cpp:60 | the position of the last occurrence of c, or none |
| StateHistoryBuilders.ExtensionShape | src/tibeebuild/StateHistoryBuilder.cpp:60 | an extension is empty or a '.' followed by neither '.' nor '/', and it ends the path |
| StateHistoryBuilders.FileNameShape | src/tibeebuild/StateHistoryBuilder.cpp:60 | the file name part of a path has no '/' and ends the path |
| StateHistoryBuilders.Classify | src/tibeebuild/StateHistoryBuilder.cpp:43-74 | a failure names the provider; the checks run in order and, for a known extension, the provider object is built |
| StateHistoryBuilders.ClassifyOrder | src/tibeebuild/StateHistoryBuilder.cpp:47-74 | missing gives StateProviderNotFound; else a directory gives WrongStateProvider; else an unknown extension gives UnknownStateProviderType; else .so/.dll/.dylib is a dynamic library and .py is Python when the provider object builds, and ProviderNotBuilt when it does not |
| StateHistoryBuilders.CollectFailure | src/tibeebuild/StateHistoryBuilder.cpp:43-77 | a failing collection reports the first failed classification |
| StateHistoryBuilders.ClassifyAllMeaning | src/tibeebuild/StateHistoryBuilder.cpp:43-77 | success iff every provider classifies, with the kinds in order; otherwise the error of the first that does not |
| StateHistoryBuilders.StateHistoryBuilder.constructor | src/tibeebuild/StateHistoryBuilder.cpp:38-42 | stores the database directory, the names and the providers; there is no sink yet |
| StateHistoryBuilders.StateHistoryBuilder.OnStart | src/tibeebuild/StateHistoryBuilder.cpp:84-101 | the previous sink, if any, is closed (its open nodes end at its timestamp and their intervals are written), then a fresh open sink with no history starts at beginTs, then onInit runs on every provider with the trace set; returns true |
| StateHistoryBuilders.StateHistoryBuilder.InitProviders | src/tibeebuild/StateHistoryBuilder.cpp:95-98 | every provider has been given the trace set and has an empty callback map |
| StateHistoryBuilders.StateHistoryBuilder.OnEvent | src/tibeebuild/StateHistoryBuilder.cpp:103-109 | every provider gets the event in order; the answers, which are ignored, are each provider's onEvent |
| StateHistoryBuilders.StateHistoryBuilder.OnStop | src/tibeebuild/StateHistoryBuilder.cpp:111-119 | onFini on every provider; each map is cleared; returns true |
| StateHistoryBuilders.ClassifyProviders | src/tibeebuild/StateHistoryBuilder.cpp:43-77 | the constructor's loop computes ClassifyAll |
| StateHistoryBuilders.MakeProviders | src/tibeebuild/StateHistoryBuilder.cpp:76 | one new provider per name, in input order |
| StateHistoryBuilders.NewStateHistoryBuilder | src/tibeebuild/StateHistoryBuilder.cpp:38-78 | succeeds iff every provider passes its checks and its provider object builds; otherwise throws the error of the first provider that does not, in input order; keeps the providers in input order |
| BuilderBeetles.FirstMissing | src/tibeebuild/BuilderBeetle.cpp:54-68 | none iff every trace path exists; otherwise the first missing one in command-line order |
| BuilderBeetles.JoinPath | src/tibeebuild/BuilderBeetle.cpp:72 | the joined path begins with the directory and ends with the leaf |
| BuilderBeetles.DbDir | src/tibeebuild/BuilderBeetle.cpp:71-75 | the given directory, or current_path/"tibee" when it is empty |
| BuilderBeetles.DbDirCheck | src/tibeebuild/BuilderBeetle.cpp:78-88 | without force, an existing directory is refused; with force, anything that is not an existing directory is refused |
| BuilderBeetles.CreateDirectory | src/tibeebuild/BuilderBeetle.cpp:91 | afterwards the directory exists and is a directory |
| BuilderBeetles.SplitProviderName | src/tibeebuild/BuilderBeetle.cpp:94-110 | a non-empty instance matches the pattern and is followed by ':' and a non-empty name; otherwise the whole text is the name |
| BuilderBeetles.SplitProviderNameComplete | src/tibeebuild/BuilderBeetle.cpp:94-110 | every `instance:name` the pattern accepts is split exactly that way |
| BuilderBeetles.NoColonNoInstance | src/tibeebuild/BuilderBeetle.cpp:102-109 | text without ':' has no instance name |
| BuilderBeetles.DuplicateMeaning | src/tibeebuild/BuilderBeetle.cpp:118-136 | no duplicate is reported iff the non-empty instance names are unique; a reported duplicate is non-empty and occurs twice |
| BuilderBeetles.FindDuplicateInstance | src/tibeebuild/BuilderBeetle.cpp:118-136 | the loop with its set finds the duplicate the reference definition reports |
| BuilderBeetles.ValidatedMeaning | src/tibeebuild/BuilderBeetle.cpp:51-141 | accepted iff every trace exists, the directory rule holds and instance names are unique; accepted traces and providers keep their order |
| BuilderBeetles.Validated | src/tibeebuild/BuilderBeetle.cpp:51-141 | the checks run in order: a missing trace is reported first, a directory error only when every trace exists, names the chosen directory and follows force, and a duplicate instance only when the directory rule holds |
| BuilderBeetles.DirectoryStep | src/tibeebuild/BuilderBeetle.cpp:51-100 | the directory is created iff validation succeeds or fails only on a duplicate instance name; otherwise the file system is unchanged |
| BuilderBeetles.TracesCheckedFirst | src/tibeebuild/BuilderBeetle.cpp:54-88 | a missing trace is reported before any directory problem |
| BuilderBeetles.BuilderFailure | src/tibeebuild/BuilderBeetle.cpp:171-192 | each of the three named exceptions of the builder's constructor becomes its own BuilderBeetleError carrying the provider name, and any other exception becomes "unknown error" |
| BuilderBeetles.UnknownErrorMeaning | src/tibeebuild/BuilderBeetle.cpp:190-191 | run fails with "unknown error" iff every trace loads and the first provider that fails is of a known kind whose provider object could not be built |
| BuilderBeetles.Names | src/tibeebuild/BuilderBeetle.cpp:165-169 | the configurations' names, one per configuration, in order |
| BuilderBeetles.BuilderBeetle.constructor | src/tibeebuild/BuilderBeetle.cpp:45-49 | nothing is kept before validation |
| BuilderBeetles.BuilderBeetle.ValidateSaveArguments | src/tibeebuild/BuilderBeetle.cpp:51-141 | succeeds iff Validated does and then keeps what Validated gives; the file system gains the directory once the trace and directory checks pass, so a duplicate instance name leaves it created, and an earlier error leaves the file system unchanged |
| BuilderBeetles.BuilderBeetle.SaveTraces | src/tibeebuild/BuilderBeetle.cpp:54-68 | reports the first missing trace; otherwise all traces are kept in order |
| BuilderBeetles.BuilderBeetle.SaveProviders | src/tibeebuild/BuilderBeetle.cpp:96-116 | one new configuration per specification, split into instance and name, in order, with no parameters |
| BuilderBeetles.BuilderBeetle.RunSetup | src/tibeebuild/BuilderBeetle.cpp:143-222 | fails exactly with RunError (trace refused, then the builder's errors including "unknown error", then binding); otherwise the listeners are Listeners: the history builder, then, iff the bind address is non-empty, a publisher with the trace set's range, the traces, the provider specifications and that builder (see Findings) |
| BuilderBeetles.Listeners | src/tibeebuild/BuilderBeetle.cpp:194-220 | the intended listener list: the builder, then for a non-empty address a publisher with the trace set's range, the traces, the providers, the constants 2801 and 200 and that same builder |
| BuilderBeetles.ListenersAsWritten | src/tibeebuild/BuilderBeetle.cpp:194-207 | as written: the builder is moved into the list first, so the publisher gets a null builder |
| BuilderBeetles.PublisherLosesBuilder | src/tibeebuild/BuilderBeetle.cpp:194-207 | the written and intended lists differ iff the bind address is non-empty, and then only in the publisher's builder |
| BuilderBeetles.NewBuilderBeetle | src/tibeebuild/BuilderBeetle.cpp:45-49 | a new object iff the arguments validate, keeping the validated values; otherwise the InvalidArgument; the file system afterwards is DirectoryStep |
| TermModifiers.CodeValue | src/common/utils/TermModifier.hpp:37-65 | the value of each enumerator, at most 107 |
| TermModifiers.CodeValueInverse | src/common/utils/TermModifier.hpp:37-65 | each enumerator's value finds it back |
| TermModifiers.CodeValueInjective | src/common/utils/TermModifier.hpp:37-65 | no two enumerators share a value |
| TermModifiers.Render | src/common/utils/TermModifier.hpp:79-82 | the output starts with ESC '[', ends with 'm', and holds only digits in between |
| TermModifiers.RenderRoundTrip | src/common/utils/TermModifier.hpp:74-82 | the digits between '[' and 'm' parse back to the code |
| TermModifiers.RenderInjective | src/common/utils/TermModifier.hpp:79-82 | distinct codes render differently |
| ProgressWindow.FloorDiv | src/qtibeeprogress/qtibeeprogress/qprogressmainwindow.py:103 | Python's `//`: q*b <= a < q*b + b |
| ProgressWindow.NsFromTs | src/qtibeeprogress/qtibeeprogress/qprogressmainwindow.py:102-103 | ns lies in [0, 10^9) and (ts // 10^9) * 10^9 + ns == ts |
| ProgressWindow.FormatTimeEnd | src/qtibeeprogress/qtibeeprogress/qprogressmainwindow.py:106-114 | the text ends with " + ", nine digits and " ns"; the digits are the nanoseconds and, with the calendar's seconds, give back ts |
| ProgressWindow.FormatTime | src/qtibeeprogress/qtibeeprogress/qprogressmainwindow.py:106-114 | the text is the calendar text, " + ", nine characters and " ns" |
| ProgressWindow.PadNine | src/qtibeeprogress/qtibeeprogress/qprogressmainwindow.py:112 | `{:09}` of the nanoseconds is exactly nine digits that read back as them |
| ProgressWindow.SplitSeconds | src/qtibeeprogress/qtibeeprogress/qprogressmainwindow.py:120-126 | hours < 24, minutes < 60, seconds < 60, and the parts recombine to the seconds |
| ProgressWindow.Decompose | src/qtibeeprogress/qtibeeprogress/qprogressmainwindow.py:118-126 | the parts are in range and recombine to the difference |
| ProgressWindow.DecomposeUnique | src/qtibeeprogress/qtibeeprogress/qprogressmainwindow.py:118-126 | any in-range split of the difference is this one |
| ProgressWindow.SplitDuration | src/qtibeeprogress/qtibeeprogress/qprogressmainwindow.py:118-126 | the successive floor divisions and subtractions compute Decompose |
| ProgressWindow.FormatDuration | src/qtibeeprogress/qtibeeprogress/qprogressmainwindow.py:117-140 | the text of the decomposed difference (days prefix as intended, see Findings) |
| ProgressWindow.BuildDurationText | src/qtibeeprogress/qtibeeprogress/qprogressmainwindow.py:128-140 | the pieces appended in order make DurationText |
| ProgressWindow.FormatDurationAsWritten | src/qtibeeprogress/qtibeeprogress/qprogressmainwindow.py:117-140 | the code as written succeeds iff the difference is in [0, 1 day), and then it gives the intended text; otherwise the KeyError names the soft hyphen |
| ProgressWindow.DaysPrefixRaises | src/qtibeeprogress/qtibeeprogress/qprogressmainwindow.py:130-131 | one day and one second: the code as written raises; the intended text is "1 days + 0:01 + 0 ns" |
| ProgressWindow.ZeroDuration | src/qtibeeprogress/qtibeeprogress/qprogressmainwindow.py:133-138 | a zero difference gives "0:00 + 0 ns" |
| ProgressWindow.NinetySeconds | src/qtibeeprogress/qtibeeprogress/qprogressmainwindow.py:133-138 | ninety seconds show bare minutes: "1:30 + 0 ns" |
| ProgressWindow.OneHourOneMinuteOneSecond | src/qtibeeprogress/qtibeeprogress/qprogressmainwindow.py:133-138 | with hours the minutes are padded: "1:01:01 + 0 ns" |
| ProgressWindow.GroupThousands | src/qtibeeprogress/qtibeeprogress/qprogressmainwindow.py:183 | `{0:,}` of a counter starts with a digit, and without its commas it is a digit string that reads back as the counter |
| ProgressWindow.FormatCount | src/qtibeeprogress/qtibeeprogress/qprogressmainwindow.py:183-191 | `{0:,}` starts with '-' iff the counter is negative, and the rest without its commas reads back as the magnitude |
| ProgressWindow.GroupThousandsShape | src/qtibeeprogress/qtibeeprogress/qprogressmainwindow.py:183 | from 1000 on, the grouping ends with ',' and three digits, after the grouping of n // 1000 |
| ProgressWindow.GroupThousand | src/qtibeeprogress/qtibeeprogress/qprogressmainwindow.py:183 | 1234 is written "1,234" |
| ProgressWindow.GroupMillion | src/qtibeeprogress/qtibeeprogress/qprogressmainwindow.py:191 | 1234567 is written "1,234,567" |
| ProgressWindow.JoinLines | src/qtibeeprogress/qtibeeprogress/qprogressmainwindow.py:194 | no parts join to the empty text; splitting the joined text on newlines gives back the parts when none holds a newline |
| ProgressWindow.JoinNothing | src/qtibeeprogress/qtibeeprogress/qprogressmainwindow.py:197 | an empty list joins to the empty text |
| ProgressWindow.QProgressMainWindow.constructor | src/qtibeeprogress/qtibeeprogress/qprogressmainwindow.py:13-18 | the window keeps the calendar conversion it is given |
| ProgressWindow.QProgressMainWindow.OnUpdateProgress | src/qtibeeprogress/qtibeeprogress/qprogressmainwindow.py:79-82 | nothing changes, whether or not the update is valid |
| ProgressWindow.QProgressMainWindow.SetProgressUpdate | src/qtibeeprogress/qtibeeprogress/qprogressmainwindow.py:142-197 | an empty range (end equal to begin) raises ZeroDivisionError before any label is set and changes nothing; otherwise the three times are formatted, the duration is the text of end - begin (duration text as intended, see Findings), the counters are grouped by thousands, and the lists are joined with newlines |
| ProgressWindow.QProgressMainWindow.ShowUpdate | src/qtibeeprogress/qtibeeprogress/qprogressmainwindow.py:170-197 | the labels: the three formatted times, the duration text of end - begin, the grouped counters and the joined lists |
| ProgressWindow.QProgressMainWindow.ShowTimes | src/qtibeeprogress/qtibeeprogress/qprogressmainwindow.py:170-180 | the begin, end and current labels are the formatted timestamps and the duration label is the duration text of end - begin |
| ProgressWindow.QProgressMainWindow.ShowCounts | src/qtibeeprogress/qtibeeprogress/qprogressmainwindow.py:182-197 | the counters are grouped by thousands and the two lists joined by newlines; the time labels are unchanged |

## Left out

- Interval file output (`delo::HistoryFileSink`) and the YAJL and ofstream I/O are left out. The model keeps the intervals as a sequence, the database files as byte sequences and the nodes map as generator tokens. File errors are not modelled.
- The interval translators' output types are not modelled: an interval carries the node's state value.
- Float values are `real`. The rounding of float32 and double, `asFloat`, and the `{:.2f}` percent and elapsed-time labels with the progress fraction are left out.
- The local-time calendar conversion (`datetime.fromtimestamp`, `strftime`) is a parameter of the window.
- Qt widget setup, styling, the window title, `set_waiting` and UI loading are not modelled.
- `ProgressPublisher` is not part of this model. Only its creation condition, its constructor arguments and its bind failure are.
- TraceDeck playback, `BuilderBeetle::stop`, and trace loading are oracle inputs (`loadable`, `bindOk`). The trace set's begin and end timestamps are parameters of `RunSetup`; how the trace set computes them is left out.
- Exception message texts are left out. Errors are datatype values that carry the offending name.
- `create_directories` is modelled as adding the directory. Parent creation and failures are left out.
- Boost regex compilation and search are an abstract `compile` function and its matcher.
- `unordered_map` iteration order is unspecified in the source. The model uses insertion order, so the children order and the visitor order are this one order.
- Quarks are natural numbers. The 32-bit `quark_t` wrap after 2^32 strings is not modelled, except that `ImageRoundTrip` reduces quarks to 32 bits as the file does.
- Node ids and timestamps are unbounded integers.
- Signed int64 overflow in the event-value arithmetic (`+`, `-`, `*`, `INT64_MIN / -1`) is undefined behaviour in C++. The model gives every such result the two's-complement wrapped value.
- StateHistoryBuilders.StateHistoryBuilder.OnStart: the sink follows the constructor in `src/common/state/StateHistorySink.cpp:185-211`, which takes four paths and a begin timestamp. The builder's call at `src/tibeebuild/StateHistoryBuilder.cpp:86-93` passes three paths and no timestamp, which is a revision mismatch. The model takes `beginTs` as a parameter and leaves the paths out.
- Event IDs derived from CTF stream and event ids are abstracted as fields of the current event.
- Babeltrace value construction, memory pools and `toString` are left out.
- StateNodeIterators.StateNodeIterator.constructor: the iterator works on a snapshot of the node's keys and null flags. It does not observe later changes to the children map, which would invalidate a real iterator anyway.
- StateHistorySinks.FloatToQuark: it requires the float to lie in (-1, 2^32), because converting a float outside that range to `quark_t` is undefined behaviour in C++.
- StateHistorySinks.StateHistorySink.ChildByStateValue: it has the same float range requirement as `FloatToQuark`.
- StateHistorySinks.StateHistorySink.IntChild: the key lies in the int64 or uint64 range, as the overloads' parameter types require.
- EventValues.IntDivide: it requires a non-zero divisor, because division by zero is undefined behaviour in the source. `INT64_MIN / -1` is given its wrapped value.
- EventValues.Divide: it has the same non-zero divisor requirement.
- EventValues.DivideSint: `INT64_MIN / -1` overflows, which is undefined behaviour in the source. The model gives it the wrapped value.
- Events.Event.FieldAt: it requires the index to be within the fields dictionary, because an out-of-range index is undefined in the source.
- ParamValues.Stoll: locale-dependent white space is reduced to ASCII white space. Only base 10 is modelled, which is the base the source uses.
- ParamValues.Stoull: it has the same white-space and base reductions as `Stoll`.
- StateTree.NodeJson: its own contract gives the object's shape only. `NodesMapIsJson` states the whole correspondence with the visitor's output.
- StateHistoryBuilders.Classify: its own contract says only that errors name the provider. `ClassifyOrder` states the full decision.
- BuilderBeetles.BuilderBeetle.RunSetup: the constructors of `DynamicLibraryStateProvider` and `PythonStateProvider` are not part of this model. Whether a provider object builds is the oracle `FileSystem.loading`. Whatever such a constructor throws is modelled as an exception none of the three named catch clauses takes, so it reaches the `catch (...)` at `src/tibeebuild/BuilderBeetle.cpp:190-191` ("unknown error").
- ProgressWindow.QProgressMainWindow.SetProgressUpdate: it uses the intended duration text. As written, a difference outside [0, 1 day) raises KeyError after the begin and end labels are set; `FormatDurationAsWritten` models that, see Findings.
- StringDbs.QuarkBytes: the source writes the quark's in-memory bytes, so the byte order is the host's. The model fixes little-endian.

## Findings

| source | as written | input that shows it | evidently intended | confidence | as-written member | corrected member |
|---|---|---|---|---|---|---|
| src/qtibeeprogress/qtibeeprogress/qprogressmainwindow.py:130-131 | the days format field is `{­}`, holding a soft hyphen (U+00AD), so `str.format` looks up a keyword argument named by that character and raises KeyError whenever days is not 0 | ts1 = 0, ts2 = 86401 * 10^9 (one day and one second) | `'{} days + '`, giving "1 days + 0:01 + 0 ns" | high, not executed | ProgressWindow.DaysPrefixRaises | ProgressWindow.FormatDuration |
| src/tibeebuild/BuilderBeetle.cpp:194-207 | the history builder's `unique_ptr` is moved into the listener list, and only then is `stateHistoryBuilder.get()` passed to the `ProgressPublisher` constructor, so the publisher receives a null builder | any run with a non-empty progress bind address that binds | the publisher receives the state history builder that is playing | high, not executed | BuilderBeetles.ListenersAsWritten | BuilderBeetles.Listeners |
