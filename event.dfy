/**
 * Event: the current event of a trace, read through babeltrace.  The
 * babeltrace event is seen through `BtEvent`: what each of its four
 * top-level scopes decodes to, and the two ids computed from its stream.
 * The four scope dictionaries are cached lazily and the cache is reset
 * whenever the event is replaced.
 */
module Events {
  import opened Wrappers
  import opened EventValues

  /** The four top-level scopes of a CTF event. */
  datatype Scope = EventFields | EventContext | StreamEventContext | StreamPacketContext

  /**
   * A babeltrace event: the decoded value of each scope that has a
   * definition (a missing key is a null definition), the event id that
   * TraceUtils derives from the stream id and the CTF event id, and the
   * trace handle id.
   */
  datatype BtEvent = BtEvent(name: string, timestamp: int, scopes: map<Scope, EventValue>, id: nat, traceId: nat)

  /** getTopLevelScope: the scope's dictionary when it exists and is a struct, the null value otherwise. */
  function TopLevelScope(e: BtEvent, s: Scope): (v: EventValue)
    ensures v.DictV? || v.NullV?
    ensures v.DictV? <==> s in e.scopes && e.scopes[s].DictV?
    ensures v.DictV? ==> v == e.scopes[s]
  {
    if s in e.scopes && e.scopes[s].DictV? then e.scopes[s] else NullV
  }

  /** The value of the first field called `name`, or the null value when none is. */
  function FirstNamed(entries: seq<Field>, name: string): (r: EventValue)
  {
    if entries == [] then NullV
    else if entries[0].name == name then entries[0].value
    else FirstNamed(entries[1..], name)
  }

  /** FirstNamed picks the field at the smallest index carrying the name; with no such field it is null. */
  lemma {:induction false} FirstNamedIsFirst(entries: seq<Field>, name: string)
    ensures (forall j | 0 <= j < |entries| :: entries[j].name != name) ==> FirstNamed(entries, name) == NullV
    ensures forall i | 0 <= i < |entries| && entries[i].name == name && (forall j | 0 <= j < i :: entries[j].name != name) ::
              FirstNamed(entries, name) == entries[i].value
  {
    if entries != [] {
      FirstNamedIsFirst(entries[1..], name);
      forall i | 0 < i < |entries| && entries[i].name == name && (forall j | 0 <= j < i :: entries[j].name != name)
        ensures FirstNamed(entries, name) == entries[i].value
      {
        assert entries[1..][i - 1] == entries[i];
        assert entries[0].name != name;
        forall j | 0 <= j < i - 1 ensures entries[1..][j].name != name {
          assert entries[1..][j] == entries[j + 1];
        }
      }
      if forall j | 0 <= j < |entries| :: entries[j].name != name {
        assert entries[0].name != name;
        forall j | 0 <= j < |entries| - 1 ensures entries[1..][j].name != name {
          assert entries[1..][j] == entries[j + 1];
        }
      }
    }
  }

  /** What operator[](name) answers for an event. */
  function FieldByName(e: BtEvent, name: string): (r: EventValue)
  {
    var fields := TopLevelScope(e, EventFields);
    if fields.DictV? then FirstNamed(fields.entries, name) else NullV
  }

  /** No fields scope, or no field of that name: the null value. */
  lemma FieldByNameMissing(e: BtEvent, name: string)
    ensures EventFields !in e.scopes ==> FieldByName(e, name) == NullV
    ensures TopLevelScope(e, EventFields).DictV? && (forall f | f in TopLevelScope(e, EventFields).entries :: f.name != name) ==> FieldByName(e, name) == NullV
  {
    var fields := TopLevelScope(e, EventFields);
    if fields.DictV? {
      FirstNamedIsFirst(fields.entries, name);
    }
  }

  class Event {
    var btEvent: BtEvent
    /** The cached scope dictionaries (_fieldsDict, _contextDict, ...): a scope absent from the map is a null pointer. */
    var cache: map<Scope, EventValue>
    /** How many times each scope was built since the event was last set. */
    ghost var builds: multiset<Scope>

    /** A cached dictionary is the one the current event gives, and a scope is built only when it is cached. */
    ghost predicate Valid()
      reads this
    {
      (forall s | s in cache :: cache[s] == TopLevelScope(btEvent, s))
      && (forall s: Scope :: builds[s] == if s in cache then 1 else 0)
    }

    /** Construction and a first setPrivateEvent. */
    constructor(e: BtEvent)
      ensures Valid() && btEvent == e && cache == map[]
    {
      btEvent := e;
      cache := map[];
      builds := multiset{};
    }

    /** setPrivateEvent: the new event replaces the old one and every cached scope is dropped. */
    method SetPrivateEvent(e: BtEvent)
      modifies this
      ensures Valid() && btEvent == e && cache == map[]
    {
      btEvent := e;
      cache := map[];
      builds := multiset{};
    }

    /** getId and getTraceId. */
    function Id(): (id: nat)
      reads this
      ensures id == btEvent.id
    {
      btEvent.id
    }

    function TraceId(): (id: nat)
      reads this
      ensures id == btEvent.traceId
    {
      btEvent.traceId
    }

    /** The lazy getter shared by getFields, getContext, getStreamEventContext and getStreamPacketContext. */
    method GetScope(s: Scope) returns (v: EventValue)
      requires Valid()
      modifies this
      ensures Valid() && btEvent == old(btEvent)
      ensures v == TopLevelScope(btEvent, s)
      ensures cache == old(cache)[s := v]
      ensures builds[s] == 1 && builds[s] == old(builds)[s] + (if s in old(cache) then 0 else 1)
    {
      if s !in cache {
        cache := cache[s := TopLevelScope(btEvent, s)];
        builds := builds + multiset{s};
      }
      v := cache[s];
    }

    method GetFields() returns (v: EventValue)
      requires Valid()
      modifies this
      ensures Valid() && btEvent == old(btEvent) && cache == old(cache)[EventFields := v]
      ensures v == TopLevelScope(btEvent, EventFields)
    {
      v := GetScope(EventFields);
    }

    method GetContext() returns (v: EventValue)
      requires Valid()
      modifies this
      ensures Valid() && btEvent == old(btEvent) && cache == old(cache)[EventContext := v]
      ensures v == TopLevelScope(btEvent, EventContext)
    {
      v := GetScope(EventContext);
    }

    method GetStreamEventContext() returns (v: EventValue)
      requires Valid()
      modifies this
      ensures Valid() && btEvent == old(btEvent) && cache == old(cache)[StreamEventContext := v]
      ensures v == TopLevelScope(btEvent, StreamEventContext)
    {
      v := GetScope(StreamEventContext);
    }

    method GetStreamPacketContext() returns (v: EventValue)
      requires Valid()
      modifies this
      ensures Valid() && btEvent == old(btEvent) && cache == old(cache)[StreamPacketContext := v]
      ensures v == TopLevelScope(btEvent, StreamPacketContext)
    {
      v := GetScope(StreamPacketContext);
    }

    /** operator[](name): a linear search for the first field with that name. */
    method FieldNamed(name: string) returns (r: EventValue)
      requires Valid()
      modifies this
      ensures Valid() && btEvent == old(btEvent)
      ensures r == FieldByName(btEvent, name)
    {
      var fields := GetFields();
      if !ToBool(fields) {
        return NullV;
      }
      var dict := AsDict(fields);
      var i := 0;
      while i < |dict|
        invariant 0 <= i <= |dict|
        invariant FirstNamed(dict[i..], name) == FirstNamed(dict, name)
      {
        if dict[i].name == name {
          return dict[i].value;
        }
        assert dict[i..][1..] == dict[i + 1..];
        i := i + 1;
      }
      r := NullV;
    }

    /** operator[](index): the field at that position; the null value when the event has no fields. */
    method FieldAt(index: nat) returns (r: EventValue)
      requires Valid()
      requires TopLevelScope(btEvent, EventFields).DictV? ==> index < |TopLevelScope(btEvent, EventFields).entries|
      modifies this
      ensures Valid() && btEvent == old(btEvent)
      ensures !TopLevelScope(btEvent, EventFields).DictV? ==> r == NullV
      ensures TopLevelScope(btEvent, EventFields).DictV? ==> r == TopLevelScope(btEvent, EventFields).entries[index].value
    {
      var fields := GetFields();
      if !ToBool(fields) {
        return NullV;
      }
      r := AsDict(fields)[index].value;
    }
  }

  /** Between two setPrivateEvent calls no scope is built twice, however often the getters run. */
  lemma BuiltAtMostOnce(e: Event, s: Scope)
    requires e.Valid()
    ensures e.builds[s] <= 1
    ensures e.builds[s] == 1 <==> s in e.cache
  {
  }
}
