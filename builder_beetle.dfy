/**
 * BuilderBeetle: the driver of a state history build.  Its constructor
 * validates the command line (every trace exists, the database directory
 * rules, `instance:name` provider specifications with unique instance
 * names) and keeps what it accepted; `run` creates the trace set, the state
 * history builder and, when a bind address was given, a progress publisher,
 * and hands them to the trace deck.
 *
 * The file system, the current directory, trace loading, address binding
 * and the playback itself are parameters (oracles) of the model.
 */
module BuilderBeetles {
  import opened Wrappers
  import opened StateHistoryBuilders
  import opened ProviderConfigs

  /** The parsed command line. */
  datatype Arguments = Arguments(
    traces: seq<string>, dbDir: string, force: bool, stateProviders: seq<string>, bindProgress: string)

  /** The InvalidArgument exceptions of validateSaveArguments, by cause. */
  datatype InvalidArgument =
    | TraceDoesNotExist(path: string)
    | DbDirExists(dir: string)
    | DbDirNotDirectory(dir: string)
    | DuplicateInstanceName(instance: string)

  // ---------------------------------------------------------------------
  // Traces
  // ---------------------------------------------------------------------

  /** The first trace path, in command-line order, that does not exist. */
  function FirstMissing(fs: FileSystem, traces: seq<string>): (r: Option<string>)
    ensures r.None? <==> forall i | 0 <= i < |traces| :: traces[i] in fs.present
    ensures r.Some? ==> exists i | 0 <= i < |traces| ::
              traces[i] == r.value && r.value !in fs.present && forall k | 0 <= k < i :: traces[k] in fs.present
  {
    if traces == [] then None
    else if traces[0] !in fs.present then Some(traces[0])
    else
      var rest := FirstMissing(fs, traces[1..]);
      assert rest.Some? ==> exists i | 1 <= i < |traces| ::
        traces[i] == rest.value && rest.value !in fs.present && forall k | 0 <= k < i :: traces[k] in fs.present
      by {
        if rest.Some? {
          var j :| 0 <= j < |traces| - 1 && traces[1..][j] == rest.value && rest.value !in fs.present
                   && forall k | 0 <= k < j :: traces[1..][k] in fs.present;
          assert forall k | 0 <= k < j + 1 :: traces[k] in fs.present by {
            forall k | 0 <= k < j + 1 ensures traces[k] in fs.present {
              if k > 0 { assert traces[k] == traces[1..][k - 1]; }
            }
          }
        }
      }
      assert rest.None? ==> forall i | 0 <= i < |traces| :: traces[i] in fs.present by {
        if rest.None? {
          forall i | 0 <= i < |traces| ensures traces[i] in fs.present {
            if i > 0 { assert traces[i] == traces[1..][i - 1]; }
          }
        }
      }
      rest
  }

  // ---------------------------------------------------------------------
  // Database directory
  // ---------------------------------------------------------------------

  /** Boost's path operator/: a separator is inserted unless the left side is empty or already ends with one. */
  function JoinPath(dir: string, leaf: string): (p: string)
    ensures |p| >= |dir| + |leaf| && p[..|dir|] == dir && p[|p| - |leaf|..] == leaf
  {
    if dir == [] || dir[|dir| - 1] == '/' then dir + leaf else dir + "/" + leaf
  }

  /** The database directory: the one given, or "tibee" in the current directory when none is given. */
  function DbDir(args: Arguments, cwd: string): (d: string)
    ensures args.dbDir != "" ==> d == args.dbDir
    ensures args.dbDir == "" ==> d == JoinPath(cwd, "tibee")
  {
    if args.dbDir == "" then JoinPath(cwd, "tibee") else args.dbDir
  }

  /**
   * Without force the directory must not exist; with force it must be an
   * existing directory, so a directory that does not exist is refused too.
   */
  function DbDirCheck(fs: FileSystem, dir: string, force: bool): (r: Option<InvalidArgument>)
    ensures r.None? <==> (if force then dir in fs.directories else dir !in fs.present)
    ensures r.Some? ==> r.value == (if force then DbDirNotDirectory(dir) else DbDirExists(dir))
  {
    if !force && dir in fs.present then Some(DbDirExists(dir))
    else if force && dir !in fs.directories then Some(DbDirNotDirectory(dir))
    else None
  }

  /** create_directories: afterwards the directory exists and is a directory. */
  function CreateDirectory(fs: FileSystem, dir: string): (fs': FileSystem)
    ensures fs'.present == fs.present + {dir} && fs'.directories == fs.directories + {dir}
  {
    fs.(present := fs.present + {dir}, directories := fs.directories + {dir})
  }

  // ---------------------------------------------------------------------
  // Instance names: ([A-Za-z0-9_][A-Za-z0-9_-]*):(.+)
  // ---------------------------------------------------------------------

  predicate IsInstanceStart(c: char) {
    'A' <= c <= 'Z' || 'a' <= c <= 'z' || '0' <= c <= '9' || c == '_'
  }

  predicate IsInstanceChar(c: char) {
    IsInstanceStart(c) || c == '-'
  }

  /** A string the instance group of the pattern matches. */
  predicate IsInstanceName(s: string) {
    |s| > 0 && IsInstanceStart(s[0]) && forall i | 1 <= i < |s| :: IsInstanceChar(s[i])
  }

  /** The end of the run of instance characters that starts at i. */
  function InstanceCharsEnd(s: string, i: nat): (k: nat)
    requires i <= |s|
    ensures i <= k <= |s|
    ensures forall j | i <= j < k :: IsInstanceChar(s[j])
    ensures k < |s| ==> !IsInstanceChar(s[k])
    decreases |s| - i
  {
    if i == |s| || !IsInstanceChar(s[i]) then i else InstanceCharsEnd(s, i + 1)
  }

  /** A provider specification split into its instance name (empty when there is none) and its name. */
  datatype ProviderName = ProviderName(instance: string, name: string)

  /**
   * The regex_match of the specification: when it matches, the instance is
   * what precedes the first ':' and the name the non-empty rest; otherwise
   * the whole specification is the name and the instance is empty.
   */
  function SplitProviderName(full: string): (r: ProviderName)
    ensures r.instance != "" ==> IsInstanceName(r.instance) && r.name != "" && full == r.instance + ":" + r.name
    ensures r.instance == "" ==> r.name == full
  {
    var k := InstanceCharsEnd(full, 0);
    if 0 < k && IsInstanceStart(full[0]) && k + 1 < |full| && full[k] == ':' then
      assert full == full[..k] + ":" + full[k + 1..];
      ProviderName(full[..k], full[k + 1..])
    else ProviderName("", full)
  }

  /**
   * Every way of writing the specification as instance, ':' and a non-empty
   * name that the pattern accepts is the split chosen: the split is unique,
   * and when no such way exists the instance is empty.
   */
  lemma SplitProviderNameComplete(instance: string, name: string)
    requires IsInstanceName(instance) && name != ""
    ensures SplitProviderName(instance + ":" + name) == ProviderName(instance, name)
  {
    var full := instance + ":" + name;
    var k := InstanceCharsEnd(full, 0);
    assert forall j | 0 <= j < |instance| :: full[j] == instance[j];
    assert full[|instance|] == ':';
    assert k == |instance|;
    assert full[..k] == instance;
    assert full[k + 1..] == name;
  }

  /** A specification without any ':' has no instance name. */
  lemma NoColonNoInstance(full: string)
    requires ':' !in full
    ensures SplitProviderName(full) == ProviderName("", full)
  {
  }

  // ---------------------------------------------------------------------
  // Unique instance names
  // ---------------------------------------------------------------------

  /** No non-empty instance name appears twice; empty ones may repeat. */
  predicate UniqueInstances(insts: seq<string>) {
    forall i, j | 0 <= i < j < |insts| :: insts[j] != "" ==> insts[i] != insts[j]
  }

  /** The first non-empty instance name already in `seen` or earlier in the sequence. */
  function DuplicateFrom(insts: seq<string>, seen: set<string>): Option<string>
    decreases |insts|
  {
    if insts == [] then None
    else if insts[0] != "" && insts[0] in seen then Some(insts[0])
    else DuplicateFrom(insts[1..], if insts[0] != "" then seen + {insts[0]} else seen)
  }

  lemma {:induction false} DuplicateFromMeaning(insts: seq<string>, seen: set<string>)
    ensures DuplicateFrom(insts, seen).None?
        <==> UniqueInstances(insts) && forall j | 0 <= j < |insts| :: insts[j] != "" ==> insts[j] !in seen
    ensures var d := DuplicateFrom(insts, seen);
            d.Some? ==> d.value != "" && ((d.value in seen && d.value in insts)
                                         || exists i, j | 0 <= i < j < |insts| :: insts[i] == d.value && insts[j] == d.value)
    decreases |insts|
  {
    if insts != [] {
      var x := insts[0];
      var seen' := if x != "" then seen + {x} else seen;
      var rest := insts[1..];
      DuplicateFromMeaning(rest, seen');
      assert forall j | 1 <= j < |insts| :: insts[j] == rest[j - 1];
      if !(x != "" && x in seen) {
        var d := DuplicateFrom(rest, seen');
        if d.Some? {
          if d.value in seen' && d.value in rest {
            if d.value !in seen {
              var j :| 0 <= j < |rest| && rest[j] == d.value;
              assert insts[0] == d.value && insts[j + 1] == d.value;
            }
          } else {
            var i, j :| 0 <= i < j < |rest| && rest[i] == d.value && rest[j] == d.value;
            assert insts[i + 1] == d.value && insts[j + 1] == d.value;
          }
        } else {
          assert UniqueInstances(insts) by {
            forall i, j | 0 <= i < j < |insts| && insts[j] != "" ensures insts[i] != insts[j] {
              if i == 0 {
                assert insts[j] == rest[j - 1] && insts[j] !in seen';
              } else {
                assert rest[i - 1] != rest[j - 1];
              }
            }
          }
        }
      }
    }
  }

  /** The duplicate the check reports: none exactly when the instance names are unique. */
  lemma DuplicateMeaning(insts: seq<string>)
    ensures DuplicateFrom(insts, {}).None? <==> UniqueInstances(insts)
    ensures var d := DuplicateFrom(insts, {});
            d.Some? ==> d.value != "" && exists i, j | 0 <= i < j < |insts| :: insts[i] == d.value && insts[j] == d.value
  {
    DuplicateFromMeaning(insts, {});
  }

  /** The (instance, name) pairs of the configurations, in order. */
  function Specs(configs: seq<StateProviderConfig>): (r: seq<ProviderName>)
    ensures |r| == |configs|
    ensures forall i | 0 <= i < |configs| :: r[i] == ProviderName(configs[i].instance, configs[i].name)
  {
    seq(|configs|, i requires 0 <= i < |configs| => ProviderName(configs[i].instance, configs[i].name))
  }

  /** The uniqueness loop of validateSaveArguments: a set of the instance names met so far. */
  method FindDuplicateInstance(configs: seq<StateProviderConfig>) returns (dup: Option<string>)
    ensures dup == DuplicateFrom(InstancesOf(Specs(configs)), {})
    ensures dup.None? <==> UniqueInstances(InstancesOf(Specs(configs)))
  {
    var insts := InstancesOf(Specs(configs));
    var seen: set<string> := {};
    var k := 0;
    while k < |configs|
      invariant 0 <= k <= |configs|
      invariant DuplicateFrom(insts, {}) == DuplicateFrom(insts[k..], seen)
    {
      assert insts[k..][1..] == insts[k + 1..];
      var instance := configs[k].instance;
      if instance != "" {
        if instance in seen {
          DuplicateMeaning(insts);
          return Some(instance);
        }
        seen := seen + {instance};
      }
      k := k + 1;
    }
    DuplicateMeaning(insts);
    dup := None;
  }

  // ---------------------------------------------------------------------
  // validateSaveArguments as a whole
  // ---------------------------------------------------------------------

  /** What validateSaveArguments keeps. */
  datatype Settings = Settings(tracesPaths: seq<string>, dbDir: string, providers: seq<ProviderName>, bindProgress: string)

  function SplitAll(specs: seq<string>): (r: seq<ProviderName>)
    ensures |r| == |specs| && forall i | 0 <= i < |specs| :: r[i] == SplitProviderName(specs[i])
  {
    seq(|specs|, i requires 0 <= i < |specs| => SplitProviderName(specs[i]))
  }

  /** The instance names of split provider specifications, in order. */
  function InstancesOf(ps: seq<ProviderName>): (r: seq<string>)
    ensures |r| == |ps| && forall i | 0 <= i < |ps| :: r[i] == ps[i].instance
  {
    seq(|ps|, i requires 0 <= i < |ps| => ps[i].instance)
  }

  /** The checks in their order: traces, database directory, unique instance names. */
  function Validated(args: Arguments, fs: FileSystem, cwd: string): (r: Result<Settings, InvalidArgument>)
    ensures r.Failure? && r.error.TraceDoesNotExist? ==> r.error.path in args.traces && r.error.path !in fs.present
    ensures r.Failure? && !r.error.TraceDoesNotExist? ==> forall i | 0 <= i < |args.traces| :: args.traces[i] in fs.present
    ensures r.Failure? && (r.error.DbDirExists? || r.error.DbDirNotDirectory?) ==>
              r.error.dir == DbDir(args, cwd) && (r.error.DbDirNotDirectory? <==> args.force)
    ensures r.Failure? && r.error.DuplicateInstanceName? ==> DbDirCheck(fs, DbDir(args, cwd), args.force).None?
  {
    var missing := FirstMissing(fs, args.traces);
    var dir := DbDir(args, cwd);
    var dirError := DbDirCheck(fs, dir, args.force);
    var providers := SplitAll(args.stateProviders);
    var dup := DuplicateFrom(InstancesOf(providers), {});
    if missing.Some? then Failure(TraceDoesNotExist(missing.value))
    else if dirError.Some? then Failure(dirError.value)
    else if dup.Some? then Failure(DuplicateInstanceName(dup.value))
    else Success(Settings(args.traces, dir, providers, args.bindProgress))
  }

  /**
   * The file system after validation: the database directory is created
   * once the traces and the directory rule pass, before instance names are
   * checked, so a duplicate instance name leaves the directory behind; an
   * earlier error leaves the file system as it was.
   */
  function DirectoryStep(args: Arguments, fs: FileSystem, cwd: string): (fs': FileSystem)
    ensures Validated(args, fs, cwd).Success? ==> fs' == CreateDirectory(fs, DbDir(args, cwd))
    ensures Validated(args, fs, cwd).Failure? && Validated(args, fs, cwd).error.DuplicateInstanceName?
            ==> fs' == CreateDirectory(fs, DbDir(args, cwd))
    ensures Validated(args, fs, cwd).Failure? && !Validated(args, fs, cwd).error.DuplicateInstanceName?
            ==> fs' == fs
  {
    if FirstMissing(fs, args.traces).None? && DbDirCheck(fs, DbDir(args, cwd), args.force).None?
    then CreateDirectory(fs, DbDir(args, cwd))
    else fs
  }

  /**
   * The arguments are accepted exactly when every trace exists, the
   * database directory obeys the force rule and no non-empty instance name
   * repeats; accepted traces keep their order and the bind address is kept
   * verbatim.
   */
  lemma ValidatedMeaning(args: Arguments, fs: FileSystem, cwd: string)
    ensures var r := Validated(args, fs, cwd);
            var dir := DbDir(args, cwd);
            r.Success? <==> (forall t | t in args.traces :: t in fs.present)
                            && (if args.force then dir in fs.directories else dir !in fs.present)
                            && UniqueInstances(InstancesOf(SplitAll(args.stateProviders)))
    ensures var r := Validated(args, fs, cwd);
            r.Success? ==> r.value.tracesPaths == args.traces && r.value.bindProgress == args.bindProgress
                           && r.value.dbDir == DbDir(args, cwd)
    ensures var r := Validated(args, fs, cwd);
            r.Failure? && r.error.DuplicateInstanceName? ==> r.error.instance != ""
  {
    DuplicateMeaning(InstancesOf(SplitAll(args.stateProviders)));
    var ts := args.traces;
    assert (forall i | 0 <= i < |ts| :: ts[i] in fs.present) <==> (forall t | t in ts :: t in fs.present) by {
      if forall i | 0 <= i < |ts| :: ts[i] in fs.present {
        forall t | t in ts ensures t in fs.present {
          var i :| 0 <= i < |ts| && ts[i] == t;
        }
      }
    }
  }

  /** A trace that does not exist is reported before any database directory problem. */
  lemma TracesCheckedFirst(args: Arguments, fs: FileSystem, cwd: string, i: nat)
    requires i < |args.traces| && args.traces[i] !in fs.present
    ensures Validated(args, fs, cwd).Failure? && Validated(args, fs, cwd).error.TraceDoesNotExist?
  {
  }

  // ---------------------------------------------------------------------
  // run: the listeners handed to the trace deck
  // ---------------------------------------------------------------------

  /** The BuilderBeetleError exceptions of run, by cause. */
  datatype BuilderBeetleError =
    | CouldNotAddTrace(path: string)
    | WrongStateProviderError(name: string, what: string)
    | UnknownStateProviderTypeError(name: string)
    | CannotFindStateProvider(name: string)
    | CannotBind(bindAddr: string)
    | UnknownError

  /** The catch clauses around the state history builder's constructor. */
  function BuilderFailure(e: ProviderError): (r: BuilderBeetleError)
    ensures e.WrongStateProvider? <==> r.WrongStateProviderError?
    ensures e.UnknownStateProviderType? <==> r.UnknownStateProviderTypeError?
    ensures e.StateProviderNotFound? <==> r.CannotFindStateProvider?
    ensures e.ProviderNotBuilt? <==> r.UnknownError?
    ensures !r.CouldNotAddTrace? && !r.CannotBind?
    ensures !e.ProviderNotBuilt? ==> r.name == e.name
  {
    match e
    case WrongStateProvider(what, name) => WrongStateProviderError(name, what)
    case UnknownStateProviderType(name) => UnknownStateProviderTypeError(name)
    case StateProviderNotFound(name) => CannotFindStateProvider(name)
    case ProviderNotBuilt(_) => UnknownError
  }

  /**
   * The trace playback listeners: the state history builder, then possibly
   * a progress publisher, built with the bind address, the trace set's
   * range, the traces, the provider specifications, the builder it reports
   * on (None for a null pointer) and the constants 2801 and 200
   * (ProgressPublisher is not part of this model).
   */
  datatype Listener =
    | HistoryBuilder(builder: StateHistoryBuilder)
    | ProgressPublisher(bindAddr: string, beginTs: int, endTs: int, tracesPaths: seq<string>,
                        providers: seq<ProviderName>, builderOf: Option<StateHistoryBuilder>,
                        first: int, second: int)

  /**
   * The listener list of run as intended: the builder, then, for a non-empty
   * bind address, a publisher that reports on that same builder.
   */
  function Listeners(builder: StateHistoryBuilder, bindAddr: string, beginTs: int, endTs: int,
                     tracesPaths: seq<string>, providers: seq<ProviderName>): (r: seq<Listener>)
    ensures |r| == (if bindAddr == "" then 1 else 2) && r[0] == HistoryBuilder(builder)
    ensures bindAddr != "" ==> r[1].ProgressPublisher? && r[1].builderOf == Some(r[0].builder)
    ensures bindAddr != "" ==> r[1].bindAddr == bindAddr && r[1].beginTs == beginTs && r[1].endTs == endTs
                               && r[1].tracesPaths == tracesPaths && r[1].providers == providers
                               && r[1].first == 2801 && r[1].second == 200
  {
    [HistoryBuilder(builder)]
    + (if bindAddr == "" then []
       else [ProgressPublisher(bindAddr, beginTs, endTs, tracesPaths, providers, Some(builder), 2801, 200)])
  }

  /**
   * The listener list of run as written: the builder's unique_ptr is moved
   * into the list before the publisher is built from the same, now empty,
   * pointer, so the publisher receives a null builder.
   */
  function ListenersAsWritten(builder: StateHistoryBuilder, bindAddr: string, beginTs: int, endTs: int,
                              tracesPaths: seq<string>, providers: seq<ProviderName>): (r: seq<Listener>)
    ensures |r| == (if bindAddr == "" then 1 else 2) && r[0] == HistoryBuilder(builder)
    ensures bindAddr != "" ==> r[1].ProgressPublisher? && r[1].builderOf == None
  {
    [HistoryBuilder(builder)]
    + (if bindAddr == "" then []
       else [ProgressPublisher(bindAddr, beginTs, endTs, tracesPaths, providers, None, 2801, 200)])
  }

  /**
   * The two lists agree except for the publisher's builder: with any
   * progress address, the written code hands the publisher no builder.
   */
  lemma PublisherLosesBuilder(builder: StateHistoryBuilder, bindAddr: string, beginTs: int, endTs: int,
                              tracesPaths: seq<string>, providers: seq<ProviderName>)
    ensures var written := ListenersAsWritten(builder, bindAddr, beginTs, endTs, tracesPaths, providers);
            var intended := Listeners(builder, bindAddr, beginTs, endTs, tracesPaths, providers);
            (written == intended <==> bindAddr == "")
            && (bindAddr != "" ==> written[1] == intended[1].(builderOf := None))
  {
  }

  /** The names of the configurations, which is what the state history builder receives. */
  function Names(configs: seq<StateProviderConfig>): (r: seq<string>)
    ensures |r| == |configs| && forall i | 0 <= i < |configs| :: r[i] == configs[i].name
  {
    seq(|configs|, i requires 0 <= i < |configs| => configs[i].name)
  }

  /**
   * The outcome of run before playback: the first trace the trace set
   * refuses, then the builder's errors (including "unknown error" for a
   * provider object that could not be built), then binding.
   */
  function RunError(tracesPaths: seq<string>, loadable: set<string>, fs: FileSystem, names: seq<string>,
                    bindProgress: string, bindOk: bool): Option<BuilderBeetleError>
  {
    var refused := FirstMissing(FileSystem(loadable, {}, {}), tracesPaths);
    var kinds := ClassifyAll(fs, names);
    if refused.Some? then Some(CouldNotAddTrace(refused.value))
    else if kinds.Failure? then Some(BuilderFailure(kinds.error))
    else if bindProgress != "" && !bindOk then Some(CannotBind(bindProgress))
    else None
  }

  /**
   * run fails with "unknown error" exactly when every trace loads and the
   * first provider that does not pass the builder's checks is one of a
   * known kind whose provider object could not be built.
   */
  lemma {:induction false} UnknownErrorMeaning(tracesPaths: seq<string>, loadable: set<string>, fs: FileSystem,
                                               names: seq<string>, bindProgress: string, bindOk: bool)
    ensures RunError(tracesPaths, loadable, fs, names, bindProgress, bindOk) == Some(UnknownError)
        <==> FirstMissing(FileSystem(loadable, {}, {}), tracesPaths).None?
             && exists k | 0 <= k < |names| :: Classify(fs, names[k]) == Failure(ProviderNotBuilt(names[k]))
                                              && forall i | 0 <= i < k :: Classify(fs, names[i]).Success?
  {
    ClassifyAllMeaning(fs, names);
    if exists k | 0 <= k < |names| :: Classify(fs, names[k]) == Failure(ProviderNotBuilt(names[k]))
                                     && forall i | 0 <= i < k :: Classify(fs, names[i]).Success? {
      var k :| 0 <= k < |names| && Classify(fs, names[k]) == Failure(ProviderNotBuilt(names[k]))
                                && forall i | 0 <= i < k :: Classify(fs, names[i]).Success?;
      CollectAt(Classifications(fs, names), k);
    }
  }

  class BuilderBeetle {
    var tracesPaths: seq<string>
    var dbDir: string
    var stateProviders: seq<StateProviderConfig>
    var bindProgress: string

    /** The kept settings, as values. */
    function Kept(): Settings
      reads this
    {
      Settings(tracesPaths, dbDir, Specs(stateProviders), bindProgress)
    }

    /** An object before validation: nothing kept yet. */
    constructor()
      ensures tracesPaths == [] && stateProviders == [] && dbDir == "" && bindProgress == ""
    {
      tracesPaths, dbDir, stateProviders, bindProgress := [], "", [], "";
    }

    /**
     * validateSaveArguments: check every trace (keeping them in order),
     * decide and check the database directory, create it, split every
     * provider specification and check that instance names are unique.
     * On success the file system holds the created directory.
     */
    method ValidateSaveArguments(args: Arguments, fs: FileSystem, cwd: string)
      returns (r: Option<InvalidArgument>, fs': FileSystem)
      requires tracesPaths == [] && stateProviders == []
      modifies this
      ensures r.None? <==> Validated(args, fs, cwd).Success?
      ensures r.Some? ==> r.value == Validated(args, fs, cwd).error
      ensures r.None? ==> Kept() == Validated(args, fs, cwd).value && fs' == CreateDirectory(fs, dbDir)
      ensures r.None? ==> forall c | c in stateProviders :: fresh(c) && c.params == map[]
      ensures fs' == DirectoryStep(args, fs, cwd)
    {
      fs' := fs;
      var missing := SaveTraces(args.traces, fs);
      if missing.Some? {
        r := Some(TraceDoesNotExist(missing.value));
        return;
      }
      if args.dbDir == "" {
        dbDir := JoinPath(cwd, "tibee");
      } else {
        dbDir := args.dbDir;
      }
      if !args.force && dbDir in fs.present {
        r := Some(DbDirExists(dbDir));
        return;
      } else if args.force && dbDir !in fs.directories {
        r := Some(DbDirNotDirectory(dbDir));
        return;
      }
      fs' := CreateDirectory(fs, dbDir);
      SaveProviders(args.stateProviders);
      assert InstancesOf(Specs(stateProviders)) == InstancesOf(SplitAll(args.stateProviders));
      var dup := FindDuplicateInstance(stateProviders);
      if dup.Some? {
        r := Some(DuplicateInstanceName(dup.value));
        return;
      }
      bindProgress := args.bindProgress;
      r := None;
    }

    /** The trace loop: each trace that exists is appended; the first that does not is reported. */
    method SaveTraces(traces: seq<string>, fs: FileSystem) returns (missing: Option<string>)
      requires tracesPaths == []
      modifies this`tracesPaths
      ensures missing == FirstMissing(fs, traces)
      ensures missing.None? ==> tracesPaths == traces
    {
      var i := 0;
      while i < |traces|
        invariant 0 <= i <= |traces| && tracesPaths == traces[..i]
        invariant FirstMissing(fs, traces) == FirstMissing(fs, traces[i..])
      {
        assert traces[i..][1..] == traces[i + 1..];
        var path := traces[i];
        if path !in fs.present {
          return Some(path);
        }
        tracesPaths := tracesPaths + [path];
        i := i + 1;
      }
      assert tracesPaths == traces;
      missing := None;
    }

    /** The provider loop: one new configuration per specification, split into instance and name, in order. */
    method SaveProviders(specs: seq<string>)
      requires stateProviders == []
      modifies this`stateProviders
      ensures Specs(stateProviders) == SplitAll(specs)
      ensures forall c | c in stateProviders :: fresh(c) && c.params == map[]
    {
      var j := 0;
      while j < |specs|
        invariant 0 <= j <= |specs| && |stateProviders| == j
        invariant Specs(stateProviders) == SplitAll(specs)[..j]
        invariant forall c | c in stateProviders :: fresh(c) && c.params == map[]
      {
        var split := SplitProviderName(specs[j]);
        var config := new StateProviderConfig(split.name, split.instance);
        stateProviders := stateProviders + [config];
        j := j + 1;
      }
    }

    /**
     * The setup part of run: every kept trace is added to a trace set (the
     * ones in `loadable` load), the state history builder is constructed
     * and a progress publisher is added only for a non-empty bind address;
     * the first failure becomes a BuilderBeetleError.  The playback by the
     * trace deck is not part of this model.
     */
    method RunSetup(fs: FileSystem, loadable: set<string>, beginTs: int, endTs: int, bindOk: bool)
      returns (r: Result<seq<Listener>, BuilderBeetleError>)
      ensures r.Failure? <==> RunError(tracesPaths, loadable, fs, Names(stateProviders), bindProgress, bindOk).Some?
      ensures r.Failure? ==> r.error == RunError(tracesPaths, loadable, fs, Names(stateProviders), bindProgress, bindOk).value
      ensures r.Success? ==> |r.value| >= 1 && r.value[0].HistoryBuilder?
      ensures r.Success? ==> r.value[0].builder.dbDir == dbDir && r.value[0].builder.providersNames == Names(stateProviders)
      ensures r.Success? ==> r.value == Listeners(r.value[0].builder, bindProgress, beginTs, endTs, tracesPaths,
                                                  Specs(stateProviders))
    {
      var i := 0;
      while i < |tracesPaths|
        invariant 0 <= i <= |tracesPaths|
        invariant FirstMissing(FileSystem(loadable, {}, {}), tracesPaths)
               == FirstMissing(FileSystem(loadable, {}, {}), tracesPaths[i..])
      {
        assert tracesPaths[i..][1..] == tracesPaths[i + 1..];
        if tracesPaths[i] !in loadable {
          return Failure(CouldNotAddTrace(tracesPaths[i]));
        }
        i := i + 1;
      }
      var built := NewStateHistoryBuilder(fs, dbDir, Names(stateProviders));
      if built.Failure? {
        return Failure(BuilderFailure(built.error));
      }
      if bindProgress != "" && !bindOk {
        return Failure(CannotBind(bindProgress));
      }
      r := Success(Listeners(built.value, bindProgress, beginTs, endTs, tracesPaths, Specs(stateProviders)));
    }
  }

  /** The constructor: a new object that keeps the validated arguments, or the InvalidArgument thrown. */
  method NewBuilderBeetle(args: Arguments, fs: FileSystem, cwd: string)
    returns (r: Result<BuilderBeetle, InvalidArgument>, fs': FileSystem)
    ensures r.Success? <==> Validated(args, fs, cwd).Success?
    ensures r.Failure? ==> r.error == Validated(args, fs, cwd).error
    ensures r.Success? ==> fresh(r.value) && r.value.Kept() == Validated(args, fs, cwd).value
    ensures fs' == DirectoryStep(args, fs, cwd)
  {
    var b := new BuilderBeetle();
    var err;
    err, fs' := b.ValidateSaveArguments(args, fs, cwd);
    if err.Some? {
      return Failure(err.value), fs';
    }
    r := Success(b);
  }
}
