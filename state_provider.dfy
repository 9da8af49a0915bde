/**
 * AbstractStateProvider: the registry of event callbacks of one state
 * provider.  A callback is registered for (trace type, event name) and
 * stored under every (trace id, event id) pair of the current trace set
 * that the two names match; the first callback stored under a pair stays.
 * onEvent dispatches an event to the callback stored under its pair.
 */
module StateProviders {
  import opened Wrappers
  import opened TraceInfo

  /** An OnEventFunc: empty, or one of the provider's callback functions. */
  datatype Callback = NoCallback | Callback(handle: nat)

  /** The two-level map trace id -> event id -> callback. */
  type CallbackMap = map<nat, map<nat, Callback>>

  /** The callback under (traceId, eventId); a missing entry behaves as an empty callback. */
  function Slot(m: CallbackMap, traceId: nat, eventId: nat): Callback {
    if traceId in m && eventId in m[traceId] then m[traceId][eventId] else NoCallback
  }

  /** The map with the callback under (traceId, eventId) set to cb. */
  function Store(m: CallbackMap, traceId: nat, eventId: nat, cb: Callback): (r: CallbackMap)
    ensures Slot(r, traceId, eventId) == cb
    ensures forall t: nat, e: nat | (t, e) != (traceId, eventId) :: Slot(r, t, e) == Slot(m, t, e)
  {
    var inner := if traceId in m then m[traceId] else map[];
    m[traceId := inner[eventId := cb]]
  }

  /** namesMatchSimple: an empty name matches anything, any other name only itself. */
  predicate NamesMatchSimple(asked: string, candidate: string)
  {
    asked == "" || asked == candidate
  }

  lemma NamesMatchSimpleLaws(asked: string, candidate: string)
    ensures NamesMatchSimple("", candidate)
    ensures NamesMatchSimple(candidate, candidate)
    ensures asked != "" && asked != candidate ==> !NamesMatchSimple(asked, candidate)
  {
  }

  /** How a registration selects names: simple matching, or the search of a compiled regular expression. */
  datatype Matcher = Simple(asked: string) | Regex(search: string -> bool)

  predicate Matches(m: Matcher, name: string) {
    match m
    case Simple(asked) => NamesMatchSimple(asked, name)
    case Regex(search) => search(name)
  }

  /**
   * The (trace id, event id) pairs selected by the two matchers among the
   * traces before index i and the first j events of trace i.
   */
  ghost function Matched(traces: seq<TraceInfos>, mt: Matcher, me: Matcher, i: nat, j: nat): set<(nat, nat)>
  {
    set a, b | 0 <= a < |traces| && 0 <= b < |traces[a].eventMap| && (a < i || (a == i && b < j))
                 && Matches(mt, traces[a].traceType) && Matches(me, traces[a].eventMap[b].name)
      :: (traces[a].id, traces[a].eventMap[b].id)
  }

  /** All the pairs a registration selects in a trace set. */
  ghost function AllMatched(traces: seq<TraceInfos>, mt: Matcher, me: Matcher): set<(nat, nat)>
  {
    Matched(traces, mt, me, |traces|, 0)
  }

  /** The callback under a pair after registering cb for the pairs in `matched`: an empty slot takes cb, a set one stays. */
  function Registered(m: CallbackMap, matched: set<(nat, nat)>, cb: Callback, t: nat, e: nat): Callback {
    if Slot(m, t, e).Callback? then Slot(m, t, e) else if (t, e) in matched then cb else NoCallback
  }

  /** Registering twice: a pair keeps the first non-empty callback it received. */
  lemma FirstRegistrationWins(m: CallbackMap, m1: CallbackMap, s1: set<(nat, nat)>, s2: set<(nat, nat)>,
                              cb1: Callback, cb2: Callback, t: nat, e: nat)
    requires forall t': nat, e': nat :: Slot(m1, t', e') == Registered(m, s1, cb1, t', e')
    requires (t, e) in s1 && cb1.Callback? && Slot(m, t, e).NoCallback?
    ensures Registered(m1, s2, cb2, t, e) == cb1
  {
    assert Slot(m1, t, e) == cb1;
  }

  class StateProvider {
    const path: string
    /** The trace set given to the last onInit. */
    var curTraceSet: seq<TraceInfos>
    var callbacks: CallbackMap

    constructor(path: string)
      ensures this.path == path && curTraceSet == [] && callbacks == map[]
    {
      this.path := path;
      curTraceSet := [];
      callbacks := map[];
    }

    /** onInit: remember the trace set and clear the map before the implementation hook runs. */
    method OnInit(traceSet: seq<TraceInfos>)
      modifies this
      ensures curTraceSet == traceSet && callbacks == map[]
      ensures forall t: nat, e: nat :: Slot(callbacks, t, e) == NoCallback
    {
      curTraceSet := traceSet;
      callbacks := map[];
    }

    /** onFini: the implementation hook runs, then the map is cleared. */
    method OnFini()
      modifies this
      ensures curTraceSet == old(curTraceSet) && callbacks == map[]
    {
      callbacks := map[];
    }

    /**
     * onEvent: the result of the callback under the event's pair, the
     * callback being run by `run`; true when the pair has no non-empty
     * callback.
     */
    function OnEvent(traceId: nat, eventId: nat, run: Callback -> bool): (b: bool)
      reads this
      ensures Slot(callbacks, traceId, eventId).NoCallback? ==> b
      ensures Slot(callbacks, traceId, eventId).Callback? ==> b == run(Slot(callbacks, traceId, eventId))
    {
      if traceId in callbacks then
        var inner := callbacks[traceId];
        if eventId in inner then
          var cb := inner[eventId];
          if cb.Callback? then run(cb) else true
        else true
      else true
    }

    /**
     * The loops shared by both registrations: for every trace whose type
     * matches and every event of it whose name matches, store cb under the
     * pair unless the pair already holds a non-empty callback.  The latch
     * is set when a pair was found empty.
     */
    method RegisterMatching(mt: Matcher, me: Matcher, cb: Callback) returns (latch: bool)
      modifies this
      ensures curTraceSet == old(curTraceSet)
      ensures forall t: nat, e: nat :: Slot(callbacks, t, e) == Registered(old(callbacks), AllMatched(curTraceSet, mt, me), cb, t, e)
      ensures latch <==> exists p | p in AllMatched(curTraceSet, mt, me) :: Slot(old(callbacks), p.0, p.1).NoCallback?
    {
      ghost var start := callbacks;
      var traces := curTraceSet;
      var m := callbacks;
      latch := false;
      var i := 0;
      while i < |traces|
        invariant 0 <= i <= |traces| && traces == curTraceSet == old(curTraceSet)
        invariant Registration(m, latch) == RegisterUpTo(start, traces, mt, me, cb, i, 0)
      {
        var ti := traces[i];
        if Matches(mt, ti.traceType) {
          var j := 0;
          while j < |ti.eventMap|
            invariant 0 <= j <= |ti.eventMap| && traces == curTraceSet == old(curTraceSet)
            invariant Registration(m, latch) == RegisterUpTo(start, traces, mt, me, cb, i, j)
          {
            var ev := ti.eventMap[j];
            if Matches(me, ev.name) && Slot(m, ti.id, ev.id).NoCallback? {
              m := Store(m, ti.id, ev.id, cb);
              latch := true;
            }
            j := j + 1;
          }
        } else {
          SkipUnmatchedTrace(start, traces, mt, me, cb, i, |ti.eventMap|);
        }
        i := i + 1;
      }
      RegisterUpToMeaning(start, traces, mt, me, cb, |traces|, 0);
      callbacks := m;
    }

    /** registerEventCallback: simple name matching against the current trace set. */
    method RegisterEventCallback(traceType: string, eventName: string, cb: Callback) returns (latch: bool)
      modifies this
      ensures curTraceSet == old(curTraceSet)
      ensures forall t: nat, e: nat :: Slot(callbacks, t, e)
                == Registered(old(callbacks), AllMatched(curTraceSet, Simple(traceType), Simple(eventName)), cb, t, e)
      ensures latch <==> exists p | p in AllMatched(curTraceSet, Simple(traceType), Simple(eventName)) ::
                           Slot(old(callbacks), p.0, p.1).NoCallback?
    {
      latch := RegisterMatching(Simple(traceType), Simple(eventName), cb);
    }

    /**
     * registerEventCallbackRegex: `compile` stands for building a regular
     * expression, None for a pattern that does not compile; then false is
     * returned and nothing changes.
     */
    method RegisterEventCallbackRegex(traceTypeRe: string, eventNameRe: string, cb: Callback,
                                      compile: string -> Option<string -> bool>) returns (latch: bool)
      modifies this
      ensures curTraceSet == old(curTraceSet)
      ensures compile(traceTypeRe).None? || compile(eventNameRe).None? ==> !latch && callbacks == old(callbacks)
      ensures compile(traceTypeRe).Some? && compile(eventNameRe).Some? ==>
                var mt, me := Regex(compile(traceTypeRe).value), Regex(compile(eventNameRe).value);
                (forall t: nat, e: nat :: Slot(callbacks, t, e) == Registered(old(callbacks), AllMatched(curTraceSet, mt, me), cb, t, e))
                && (latch <==> exists p | p in AllMatched(curTraceSet, mt, me) :: Slot(old(callbacks), p.0, p.1).NoCallback?)
    {
      var traceTypeBre := compile(traceTypeRe);
      var eventNameBre := compile(eventNameRe);
      if traceTypeBre.None? || eventNameBre.None? {
        return false;
      }
      latch := RegisterMatching(Regex(traceTypeBre.value), Regex(eventNameBre.value), cb);
    }
  }

  /** The map and the latch of a registration in progress. */
  datatype Registration = Registration(callbacks: CallbackMap, latch: bool)

  /** One pair considered: a selected pair that is empty takes cb and sets the latch. */
  function Visit(r: Registration, t: nat, e: nat, selected: bool, cb: Callback): (r': Registration)
    ensures r'.latch == (r.latch || (selected && Slot(r.callbacks, t, e).NoCallback?))
  {
    if selected && Slot(r.callbacks, t, e).NoCallback? then Registration(Store(r.callbacks, t, e, cb), true) else r
  }

  /** Whether a position (i, j) of the two loops exists: trace i has at least j events, or i is the end. */
  predicate InLoops(traces: seq<TraceInfos>, i: nat, j: nat) {
    i <= |traces| && (i < |traces| ==> j <= |traces[i].eventMap|) && (i == |traces| ==> j == 0)
  }

  /** The registration after the loops have visited every pair before position (i, j), starting from map m. */
  function RegisterUpTo(m: CallbackMap, traces: seq<TraceInfos>, mt: Matcher, me: Matcher, cb: Callback, i: nat, j: nat): Registration
    requires InLoops(traces, i, j)
    decreases i, j
  {
    if j > 0 then
      Visit(RegisterUpTo(m, traces, mt, me, cb, i, j - 1), traces[i].id, traces[i].eventMap[j - 1].id,
            Matches(mt, traces[i].traceType) && Matches(me, traces[i].eventMap[j - 1].name), cb)
    else if i > 0 then RegisterUpTo(m, traces, mt, me, cb, i - 1, |traces[i - 1].eventMap|)
    else Registration(m, false)
  }

  /** When the trace type does not match, its events change nothing. */
  lemma {:induction false} SkipUnmatchedTrace(m: CallbackMap, traces: seq<TraceInfos>, mt: Matcher, me: Matcher, cb: Callback, i: nat, j: nat)
    requires i < |traces| && j <= |traces[i].eventMap| && !Matches(mt, traces[i].traceType)
    ensures RegisterUpTo(m, traces, mt, me, cb, i, j) == RegisterUpTo(m, traces, mt, me, cb, i, 0)
  {
    if j > 0 {
      SkipUnmatchedTrace(m, traces, mt, me, cb, i, j - 1);
    }
  }

  /** What the loops compute: every selected empty pair holds cb, others are unchanged; the latch says an empty pair was selected. */
  lemma {:induction false} RegisterUpToMeaning(m: CallbackMap, traces: seq<TraceInfos>, mt: Matcher, me: Matcher, cb: Callback, i: nat, j: nat)
    requires InLoops(traces, i, j)
    ensures var r := RegisterUpTo(m, traces, mt, me, cb, i, j); Progress(m, r.callbacks, traces, mt, me, cb, i, j, r.latch)
    decreases i, j
  {
    if j > 0 {
      RegisterUpToMeaning(m, traces, mt, me, cb, i, j - 1);
      var r := RegisterUpTo(m, traces, mt, me, cb, i, j - 1);
      var selected := Matches(mt, traces[i].traceType) && Matches(me, traces[i].eventMap[j - 1].name);
      var t, e := traces[i].id, traces[i].eventMap[j - 1].id;
      var stored := selected && Slot(r.callbacks, t, e).NoCallback?;
      var r' := Visit(r, t, e, selected, cb);
      assert RegisterUpTo(m, traces, mt, me, cb, i, j) == r';
      ProgressStep(m, r.callbacks, r'.callbacks, traces, mt, me, cb, i, j - 1, r.latch, stored);
    } else if i > 0 {
      RegisterUpToMeaning(m, traces, mt, me, cb, i - 1, |traces[i - 1].eventMap|);
      var r := RegisterUpTo(m, traces, mt, me, cb, i - 1, |traces[i - 1].eventMap|);
      ProgressNextTrace(m, r.callbacks, traces, mt, me, cb, i - 1, |traces[i - 1].eventMap|, r.latch);
    } else {
      MatchedNothing(traces, mt, me);
    }
  }

  /** The registration loops' invariant after the pairs of Matched(traces, mt, me, i, j) were visited. */
  ghost predicate Progress(start: CallbackMap, m: CallbackMap, traces: seq<TraceInfos>, mt: Matcher, me: Matcher,
                           cb: Callback, i: nat, j: nat, latch: bool)
  {
    ProgressOn(start, m, Matched(traces, mt, me, i, j), cb, latch)
  }

  /** The map holds what Registered says for the pairs visited, and the latch says whether one of them was empty at the start. */
  ghost predicate ProgressOn(start: CallbackMap, m: CallbackMap, visited: set<(nat, nat)>, cb: Callback, latch: bool)
  {
    (forall t: nat, e: nat :: Slot(m, t, e) == Registered(start, visited, cb, t, e))
    && (latch <==> exists p | p in visited :: Slot(start, p.0, p.1).NoCallback?)
  }

  /** Before the loops start, nothing has been visited. */
  lemma MatchedNothing(traces: seq<TraceInfos>, mt: Matcher, me: Matcher)
    ensures Matched(traces, mt, me, 0, 0) == {}
  {
  }

  /** One more event of trace i considered. */
  lemma MatchedStep(traces: seq<TraceInfos>, mt: Matcher, me: Matcher, i: nat, j: nat)
    requires i < |traces| && j < |traces[i].eventMap|
    ensures Matched(traces, mt, me, i, j + 1)
         == Matched(traces, mt, me, i, j)
            + (if Matches(mt, traces[i].traceType) && Matches(me, traces[i].eventMap[j].name)
               then {(traces[i].id, traces[i].eventMap[j].id)} else {})
  {
  }

  /** Visiting event j of trace i keeps the loop invariant. */
  lemma ProgressStep(start: CallbackMap, m: CallbackMap, m': CallbackMap, traces: seq<TraceInfos>, mt: Matcher, me: Matcher,
                     cb: Callback, i: nat, j: nat, latch: bool, stored: bool)
    requires i < |traces| && j < |traces[i].eventMap|
    requires Progress(start, m, traces, mt, me, cb, i, j, latch)
    requires var t, e := traces[i].id, traces[i].eventMap[j].id;
             stored <==> Matches(mt, traces[i].traceType) && Matches(me, traces[i].eventMap[j].name) && Slot(m, t, e).NoCallback?
    requires var t, e := traces[i].id, traces[i].eventMap[j].id;
             if stored then m' == Store(m, t, e, cb) else m' == m
    ensures Progress(start, m', traces, mt, me, cb, i, j + 1, latch || stored)
  {
    MatchedStep(traces, mt, me, i, j);
    var t, e := traces[i].id, traces[i].eventMap[j].id;
    var selected := Matches(mt, traces[i].traceType) && Matches(me, traces[i].eventMap[j].name);
    ProgressOnStep(start, m, m', Matched(traces, mt, me, i, j), Matched(traces, mt, me, i, j + 1), cb, t, e, selected, stored, latch);
  }

  lemma ProgressOnStep(start: CallbackMap, m: CallbackMap, m': CallbackMap, before: set<(nat, nat)>, after: set<(nat, nat)>,
                       cb: Callback, t: nat, e: nat, selected: bool, stored: bool, latch: bool)
    requires ProgressOn(start, m, before, cb, latch)
    requires after == before + (if selected then {(t, e)} else {})
    requires stored <==> selected && Slot(m, t, e).NoCallback?
    requires if stored then m' == Store(m, t, e, cb) else m' == m
    ensures ProgressOn(start, m', after, cb, latch || stored)
  {
    StepMap(start, m, m', before, after, cb, t, e, selected, stored);
    StepLatch(start, m, before, after, cb, t, e, selected, stored, latch);
  }

  /** One pair visited: the map still holds what Registered says, for the grown set of selected pairs. */
  lemma StepMap(start: CallbackMap, m: CallbackMap, m': CallbackMap, before: set<(nat, nat)>, after: set<(nat, nat)>,
                cb: Callback, t: nat, e: nat, selected: bool, stored: bool)
    requires forall t': nat, e': nat :: Slot(m, t', e') == Registered(start, before, cb, t', e')
    requires after == before + (if selected then {(t, e)} else {})
    requires stored <==> selected && Slot(m, t, e).NoCallback?
    requires if stored then m' == Store(m, t, e, cb) else m' == m
    ensures forall t': nat, e': nat :: Slot(m', t', e') == Registered(start, after, cb, t', e')
  {
    assert Slot(m, t, e) == Registered(start, before, cb, t, e);
    forall t': nat, e': nat ensures Slot(m', t', e') == Registered(start, after, cb, t', e') {
      assert Slot(m, t', e') == Registered(start, before, cb, t', e');
    }
  }

  /** One pair visited: the latch is set exactly when some selected pair was empty at the start. */
  lemma StepLatch(start: CallbackMap, m: CallbackMap, before: set<(nat, nat)>, after: set<(nat, nat)>,
                  cb: Callback, t: nat, e: nat, selected: bool, stored: bool, latch: bool)
    requires forall t': nat, e': nat :: Slot(m, t', e') == Registered(start, before, cb, t', e')
    requires latch <==> exists p | p in before :: Slot(start, p.0, p.1).NoCallback?
    requires after == before + (if selected then {(t, e)} else {})
    requires stored <==> selected && Slot(m, t, e).NoCallback?
    ensures latch || stored <==> exists p | p in after :: Slot(start, p.0, p.1).NoCallback?
  {
    assert Slot(m, t, e) == Registered(start, before, cb, t, e);
    if stored {
      assert (t, e) in after;
    } else if selected && Slot(start, t, e).NoCallback? {
      assert (t, e) in before;
    }
  }

  lemma ProgressNextTrace(start: CallbackMap, m: CallbackMap, traces: seq<TraceInfos>, mt: Matcher, me: Matcher,
                          cb: Callback, i: nat, j: nat, latch: bool)
    requires i < |traces| && j <= |traces[i].eventMap|
    requires j == |traces[i].eventMap| || (j == 0 && !Matches(mt, traces[i].traceType))
    requires Progress(start, m, traces, mt, me, cb, i, j, latch)
    ensures Progress(start, m, traces, mt, me, cb, i + 1, 0, latch)
  {
    MatchedNextTrace(traces, mt, me, i, j);
  }

  /** Trace i done (all its events, or none when its type does not match). */
  lemma MatchedNextTrace(traces: seq<TraceInfos>, mt: Matcher, me: Matcher, i: nat, j: nat)
    requires i < |traces| && j <= |traces[i].eventMap|
    requires j == |traces[i].eventMap| || (j == 0 && !Matches(mt, traces[i].traceType))
    ensures Matched(traces, mt, me, i, j) == Matched(traces, mt, me, i + 1, 0)
  {
  }
}
