/**
 * StateHistoryBuilder: the trace playback listener that owns the state
 * providers of a build and the state history sink they write to.  Each
 * provider named on the command line is checked against the file system
 * and classified by its file extension; at the start of a playback a new
 * sink is created and every provider is initialised, each event is handed
 * to every provider, and at the end every provider is finalised, always in
 * the order the providers were given.
 */
module StateHistoryBuilders {
  import opened Wrappers
  import opened TraceInfo
  import opened StateProviders
  import StateHistorySinks
  import StateTree

  /**
   * What the build sees of the file system: the paths that exist, those
   * that are directories, and the provider files whose provider object
   * can be built (the library loads, the script runs).
   */
  datatype FileSystem = FileSystem(present: set<string>, directories: set<string>, loading: set<string>)

  /** The position of the last c among the first `end` characters of s. */
  function LastIndexOf(s: string, c: char, end: nat): (r: Option<nat>)
    requires end <= |s|
    ensures r.Some? ==> r.value < end && s[r.value] == c && forall k | r.value < k < end :: s[k] != c
    ensures r.None? ==> forall k | 0 <= k < end :: s[k] != c
    decreases end
  {
    if end == 0 then None else if s[end - 1] == c then Some(end - 1) else LastIndexOf(s, c, end - 1)
  }

  /** The file name of a path: what follows its last '/'. */
  function FileName(p: string): string
  {
    match LastIndexOf(p, '/', |p|)
    case None => p
    case Some(k) => p[k + 1..]
  }

  /**
   * path::extension() of Boost.Filesystem version 3: the file name from its
   * last '.' on; empty when the file name has no '.', and for "." and "..".
   */
  function Extension(p: string): string
  {
    var f := FileName(p);
    if f == "." || f == ".." then ""
    else match LastIndexOf(f, '.', |f|)
      case None => ""
      case Some(k) => f[k..]
  }

  /** A file name has no '/' and ends the path. */
  lemma FileNameShape(p: string)
    ensures var f := FileName(p); '/' !in f && |f| <= |p| && f == p[|p| - |f|..]
  {
    match LastIndexOf(p, '/', |p|)
    case None =>
    case Some(k) =>
      var f := p[k + 1..];
      assert forall i | 0 <= i < |f| :: f[i] == p[k + 1 + i];
  }

  /** An extension is empty or a '.' followed by neither '.' nor '/', and it ends the path. */
  lemma ExtensionShape(p: string)
    ensures var e := Extension(p);
      (e == "" || (e[0] == '.' && '.' !in e[1..] && '/' !in e)) && |e| <= |p| && e == p[|p| - |e|..]
  {
    var f := FileName(p);
    FileNameShape(p);
    var e := Extension(p);
    if e != "" {
      var k := LastIndexOf(f, '.', |f|).value;
      assert e == f[k..];
      var start := |p| - |f|;
      assert forall i | 0 <= i < |e| :: e[i] == f[k + i] == p[start + k + i];
      assert e == p[start + k..];
    }
  }

  /** The two kinds of state provider the builder knows. */
  datatype ProviderKind = DynamicLibrary | Python

  /** The exceptions of provider classification. */
  datatype ProviderError =
    | StateProviderNotFound(name: string)
    | WrongStateProvider(what: string, name: string)
    | UnknownStateProviderType(name: string)
    /** Anything else the provider object's constructor throws. */
    | ProviderNotBuilt(name: string)

  /**
   * The steps of the constructor for one provider, in their order:
   * existence, not a directory, a known extension, then the provider
   * object of that kind.
   */
  function Classify(fs: FileSystem, name: string): (r: Result<ProviderKind, ProviderError>)
    ensures r.Failure? ==> r.error.name == name
  {
    if name !in fs.present then Failure(StateProviderNotFound(name))
    else if name in fs.directories then Failure(WrongStateProvider("provider is a directory", name))
    else
      var extension := Extension(name);
      if extension == ".so" || extension == ".dll" || extension == ".dylib" then Built(fs, name, DynamicLibrary)
      else if extension == ".py" then Built(fs, name, Python)
      else Failure(UnknownStateProviderType(name))
  }

  /** Building the provider object of a known kind. */
  function Built(fs: FileSystem, name: string, kind: ProviderKind): (r: Result<ProviderKind, ProviderError>)
  {
    if name in fs.loading then Success(kind) else Failure(ProviderNotBuilt(name))
  }

  /**
   * A missing provider is not found, whatever it is called; an existing
   * directory is a wrong provider, whatever its extension; only then does
   * the extension decide, and only for a known extension is the provider
   * object built.
   */
  lemma ClassifyOrder(fs: FileSystem, name: string)
    ensures name !in fs.present <==> Classify(fs, name) == Failure(StateProviderNotFound(name))
    ensures Classify(fs, name) == Failure(WrongStateProvider("provider is a directory", name))
        <==> name in fs.present && name in fs.directories
    ensures Classify(fs, name) == Success(DynamicLibrary)
        <==> name in fs.present && name !in fs.directories && Extension(name) in {".so", ".dll", ".dylib"}
             && name in fs.loading
    ensures Classify(fs, name) == Success(Python)
        <==> name in fs.present && name !in fs.directories && Extension(name) == ".py" && name in fs.loading
    ensures Classify(fs, name) == Failure(UnknownStateProviderType(name))
        <==> name in fs.present && name !in fs.directories && !(Extension(name) in {".so", ".dll", ".dylib", ".py"})
    ensures Classify(fs, name) == Failure(ProviderNotBuilt(name))
        <==> name in fs.present && name !in fs.directories && Extension(name) in {".so", ".dll", ".dylib", ".py"}
             && name !in fs.loading
  {
  }

  /** The classification of each provider, in order. */
  function Classifications(fs: FileSystem, names: seq<string>): (rs: seq<Result<ProviderKind, ProviderError>>)
    ensures |rs| == |names| && forall i | 0 <= i < |names| :: rs[i] == Classify(fs, names[i])
  {
    seq(|names|, i requires 0 <= i < |names| => Classify(fs, names[i]))
  }

  /** The first error of a list of classifications, or all the kinds in order. */
  function Collect(rs: seq<Result<ProviderKind, ProviderError>>): Result<seq<ProviderKind>, ProviderError>
  {
    if rs == [] then Success([])
    else match rs[0]
      case Failure(err) => Failure(err)
      case Success(kind) =>
        match Collect(rs[1..])
        case Failure(err) => Failure(err)
        case Success(kinds) => Success([kind] + kinds)
  }

  /** Classifying a list of providers: the first error, or the kinds in the given order. */
  function ClassifyAll(fs: FileSystem, names: seq<string>): Result<seq<ProviderKind>, ProviderError>
  {
    Collect(Classifications(fs, names))
  }

  /** Collect succeeds exactly when every classification does, and then lists their kinds in order. */
  lemma {:induction false} CollectSuccess(rs: seq<Result<ProviderKind, ProviderError>>)
    ensures Collect(rs).Success? <==> forall i | 0 <= i < |rs| :: rs[i].Success?
    ensures Collect(rs).Success? ==> |Collect(rs).value| == |rs| && forall i | 0 <= i < |rs| :: Collect(rs).value[i] == rs[i].value
  {
    if rs != [] {
      CollectSuccess(rs[1..]);
      assert forall i | 0 < i < |rs| :: rs[i] == rs[1..][i - 1];
    }
  }

  /** A failing Collect reports the error of the first classification that failed. */
  lemma {:induction false} CollectFailure(rs: seq<Result<ProviderKind, ProviderError>>)
    requires Collect(rs).Failure?
    ensures exists k | 0 <= k < |rs| :: rs[k] == Failure(Collect(rs).error) && forall i | 0 <= i < k :: rs[i].Success?
  {
    var err := Collect(rs).error;
    if rs[0].Success? {
      CollectFailure(rs[1..]);
      var k :| 0 <= k < |rs[1..]| && rs[1..][k] == Failure(err) && forall i | 0 <= i < k :: rs[1..][i].Success?;
      assert rs[k + 1] == rs[1..][k];
      forall i | 0 <= i < k + 1 ensures rs[i].Success? {
        if i > 0 { assert rs[i] == rs[1..][i - 1]; }
      }
    }
  }

  /** The first failed classification decides the error of Collect. */
  lemma {:induction false} CollectAt(rs: seq<Result<ProviderKind, ProviderError>>, i: nat)
    requires i < |rs| && rs[i].Failure? && forall k | 0 <= k < i :: rs[k].Success?
    ensures Collect(rs) == Failure(rs[i].error)
  {
    if i > 0 {
      assert forall k | 0 <= k < i - 1 :: rs[1..][k] == rs[k + 1];
      CollectAt(rs[1..], i - 1);
    }
  }

  /** Collecting two lists one after the other: the first error of the first, else the first error of the second, else both kinds. */
  lemma {:induction false} CollectAppend(a: seq<Result<ProviderKind, ProviderError>>, b: seq<Result<ProviderKind, ProviderError>>)
    ensures Collect(a + b) == match Collect(a)
      case Failure(err) => Failure(err)
      case Success(ka) => match Collect(b)
        case Failure(err) => Failure(err)
        case Success(kb) => Success(ka + kb)
  {
    if a == [] {
      assert a + b == b;
      if Collect(b).Success? {
        assert [] + Collect(b).value == Collect(b).value;
      }
    } else {
      assert (a + b)[0] == a[0] && (a + b)[1..] == a[1..] + b;
      CollectAppend(a[1..], b);
      if Collect(a).Success? && Collect(b).Success? {
        assert [a[0].value] + Collect(a[1..]).value + Collect(b).value == [a[0].value] + (Collect(a[1..]).value + Collect(b).value);
      }
    }
  }

  /** A sequence is its prefix followed by its suffix, and the prefix grows one element at a time. */
  lemma SplitAt<T>(s: seq<T>, i: nat)
    requires i <= |s|
    ensures s == s[..i] + s[i..]
    ensures i == |s| ==> s[..i] == s
    ensures i < |s| ==> s[..i + 1] == s[..i] + [s[i]] && s[i..][0] == s[i]
  {
  }

  /** One more successful classification: its kind is appended. */
  lemma CollectSnoc(a: seq<Result<ProviderKind, ProviderError>>, r: Result<ProviderKind, ProviderError>)
    requires Collect(a).Success? && r.Success?
    ensures Collect(a + [r]) == Success(Collect(a).value + [r.value])
  {
    CollectAppend(a, [r]);
    assert [r][1..] == [];
    assert Collect([r][1..]) == Success([]);
    assert [r.value] + [] == [r.value];
  }

  /** After successful classifications, a failed one decides the result, whatever follows it. */
  lemma CollectStop(a: seq<Result<ProviderKind, ProviderError>>, b: seq<Result<ProviderKind, ProviderError>>)
    requires Collect(a).Success? && |b| > 0 && b[0].Failure?
    ensures Collect(a + b) == Failure(b[0].error)
  {
    CollectAppend(a, b);
  }

  /** ClassifyAll succeeds iff every provider classifies; when it fails, the first provider that does not gives the error. */
  lemma ClassifyAllMeaning(fs: FileSystem, names: seq<string>)
    ensures ClassifyAll(fs, names).Success? <==> forall i | 0 <= i < |names| :: Classify(fs, names[i]).Success?
    ensures ClassifyAll(fs, names).Success? ==>
              |ClassifyAll(fs, names).value| == |names|
              && forall i | 0 <= i < |names| :: ClassifyAll(fs, names).value[i] == Classify(fs, names[i]).value
    ensures ClassifyAll(fs, names).Failure? ==>
              exists k | 0 <= k < |names| :: Classify(fs, names[k]) == Failure(ClassifyAll(fs, names).error)
                                           && forall i | 0 <= i < k :: Classify(fs, names[i]).Success?
  {
    var rs := Classifications(fs, names);
    CollectSuccess(rs);
    if Collect(rs).Failure? {
      CollectFailure(rs);
    }
  }

  class StateHistoryBuilder {
    const dbDir: string
    const providersNames: seq<string>
    /** The provider objects, in the order of their names. */
    const providers: seq<StateProvider>
    const kinds: seq<ProviderKind>
    /** The sink of the current playback; none before the first start. */
    var sink: StateHistorySinks.StateHistorySink?

    /** Provider i was built from name i and is of kind i. */
    predicate Valid()
    {
      |providers| == |providersNames| == |kinds|
      && forall i | 0 <= i < |providers| :: providers[i].path == providersNames[i]
    }

    constructor(dbDir: string, names: seq<string>, providers: seq<StateProvider>, kinds: seq<ProviderKind>)
      ensures this.dbDir == dbDir && providersNames == names && this.providers == providers && this.kinds == kinds
      ensures sink == null
    {
      this.dbDir := dbDir;
      providersNames := names;
      this.providers := providers;
      this.kinds := kinds;
      sink := null;
    }

    /**
     * onStartImpl: a new sink replaces the previous one, then every
     * provider is initialised in order.  Replacing the owning pointer
     * destroys the previous sink, whose destructor closes it: its open
     * nodes are ended at its current timestamp and its files are written.
     */
    method OnStart(traceSet: seq<TraceInfos>, beginTs: int) returns (ok: bool)
      requires sink != null ==> sink.Valid()
      modifies this, sink, set p | p in providers
      ensures ok
      ensures sink != null && fresh(sink) && sink.Valid() && sink.isOpen && sink.history == []
      ensures sink.beginTs == beginTs
      ensures forall p | p in providers :: p.curTraceSet == traceSet && p.callbacks == map[]
      ensures old(sink) != null ==> !old(sink).isOpen
      ensures old(sink) != null && old(sink.isOpen) ==>
                old(sink).root == StateTree.NullifyAll(old(sink.root), old(sink.ts))
                && old(sink).history == old(sink.history) + StateTree.ClosingIntervals(old(sink.root), old(sink.ts))
      ensures old(sink) != null && !old(sink.isOpen) ==> old(sink).history == old(sink.history)
    {
      if sink != null {
        sink.Close();
      }
      sink := new StateHistorySinks.StateHistorySink(beginTs);
      InitProviders(traceSet);
      ok := true;
    }

    /** The loop of onStartImpl: every provider is initialised with the trace set, in order. */
    method InitProviders(traceSet: seq<TraceInfos>)
      modifies set p | p in providers
      ensures forall p | p in providers :: p.curTraceSet == traceSet && p.callbacks == map[]
    {
      var i := 0;
      while i < |providers|
        invariant 0 <= i <= |providers|
        invariant forall k | 0 <= k < i :: providers[k].curTraceSet == traceSet && providers[k].callbacks == map[]
      {
        providers[i].OnInit(traceSet);
        i := i + 1;
      }
    }

    /** onEventImpl: every provider sees the event, in order; the answers, which the builder ignores, are returned. */
    method OnEvent(traceId: nat, eventId: nat, run: Callback -> bool) returns (answers: seq<bool>)
      ensures |answers| == |providers|
      ensures forall i | 0 <= i < |providers| :: answers[i] == providers[i].OnEvent(traceId, eventId, run)
    {
      answers := [];
      var i := 0;
      while i < |providers|
        invariant 0 <= i <= |providers| && |answers| == i
        invariant forall k | 0 <= k < i :: answers[k] == providers[k].OnEvent(traceId, eventId, run)
      {
        answers := answers + [providers[i].OnEvent(traceId, eventId, run)];
        i := i + 1;
      }
    }

    /** onStopImpl: every provider is finalised in order. */
    method OnStop() returns (ok: bool)
      modifies set p | p in providers
      ensures ok
      ensures forall p | p in providers :: p.callbacks == map[] && p.curTraceSet == old(p.curTraceSet)
    {
      var i := 0;
      while i < |providers|
        invariant 0 <= i <= |providers|
        invariant forall k | 0 <= k < i :: providers[k].callbacks == map[]
        invariant forall p | p in providers :: p.curTraceSet == old(p.curTraceSet)
      {
        providers[i].OnFini();
        i := i + 1;
      }
      ok := true;
    }
  }

  /** The classification loop of the constructor: the providers in order, stopping at the first that does not classify. */
  method ClassifyProviders(fs: FileSystem, names: seq<string>) returns (r: Result<seq<ProviderKind>, ProviderError>)
    ensures r == ClassifyAll(fs, names)
  {
    ghost var rs := Classifications(fs, names);
    var kinds: seq<ProviderKind> := [];
    var i := 0;
    while i < |names|
      invariant 0 <= i <= |names| && Collect(rs[..i]) == Success(kinds)
    {
      var kind := Classify(fs, names[i]);
      ghost var done := rs[..i];
      assert rs[i] == kind;
      SplitAt(rs, i);
      if kind.Failure? {
        CollectStop(done, rs[i..]);
        return Failure(kind.error);
      }
      CollectSnoc(done, kind);
      kinds := kinds + [kind.value];
      i := i + 1;
    }
    SplitAt(rs, i);
    r := Success(kinds);
  }

  /** One new provider object per name, in order. */
  method MakeProviders(names: seq<string>) returns (providers: seq<StateProvider>)
    ensures |providers| == |names| && forall k | 0 <= k < |names| :: providers[k].path == names[k]
    ensures forall p | p in providers :: fresh(p) && p.curTraceSet == [] && p.callbacks == map[]
  {
    providers := [];
    var i := 0;
    while i < |names|
      invariant 0 <= i <= |names| && |providers| == i
      invariant forall k | 0 <= k < i :: providers[k].path == names[k]
      invariant forall p | p in providers :: fresh(p) && p.curTraceSet == [] && p.callbacks == map[]
    {
      var provider := new StateProvider(names[i]);
      providers := providers + [provider];
      i := i + 1;
    }
  }

  /**
   * The constructor: every provider classified in order, the first failing
   * check thrown, and one provider object per name kept in that order.
   */
  method NewStateHistoryBuilder(fs: FileSystem, dbDir: string, names: seq<string>)
    returns (r: Result<StateHistoryBuilder, ProviderError>)
    ensures r.Success? <==> ClassifyAll(fs, names).Success?
    ensures r.Failure? ==> r.error == ClassifyAll(fs, names).error
    ensures r.Success? ==> fresh(r.value) && r.value.Valid() && r.value.dbDir == dbDir && r.value.sink == null
    ensures r.Success? ==> r.value.providersNames == names && r.value.kinds == ClassifyAll(fs, names).value
    ensures r.Success? ==> forall p | p in r.value.providers :: fresh(p) && p.curTraceSet == [] && p.callbacks == map[]
  {
    var kinds := ClassifyProviders(fs, names);
    if kinds.Failure? {
      return Failure(kinds.error);
    }
    CollectSuccess(Classifications(fs, names));
    var providers := MakeProviders(names);
    var b := new StateHistoryBuilder(dbDir, names, providers, kinds.value);
    r := Success(b);
  }
}
