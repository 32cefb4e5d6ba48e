/** The cache of compiled units (src/lib/compiler.cpp:135-164, 311-430, 816-958):
    several workers, each with its own cache, over one disk and one lock.

    One unit is modelled.  A time stamp is the clock in whole seconds, which never
    goes back, so any number of writes may share one; a signature stands for the
    inputs it hashes. */
module UnitCache {
  import opened Text

  datatype Inputs = Inputs(source: string, template: string, abi: nat)

  /** A shared object: what it was built from, and which build it is. */
  datatype Build = Build(inputs: Inputs, token: nat)

  /** The metadata file. */
  datatype Meta = Meta(inputs: Inputs, token: nat)

  datatype Stamped<+T> = Stamped(value: T, time: nat)

  datatype Disk = Disk(
    source: Option<Stamped<string>>, template: Stamped<string>, abi: Stamped<nat>,
    so: Option<Stamped<Build>>, meta: Option<Meta>, output: Option<nat>)

  /** A cached unit: the object it has loaded, if any, and what the disk looked
      like when it was cached. */
  datatype Unit = Unit(build: Option<Build>, observedTime: nat, observedMeta: Option<Meta>)

  /** `building` is the worker that has written an object but not its metadata
      yet; it holds the lock. */
  datatype State = State(
    disk: Disk, clock: nat, nextToken: nat, compiles: nat,
    caches: seq<Option<Unit>>, building: Option<nat>)

  // ----- looking at the disk -----

  function Current(d: Disk): Option<Inputs> {
    if d.source.None? then None else Some(Inputs(d.source.value.value, d.template.value, d.abi.value))
  }

  function SourceTime(d: Disk): nat {
    match d.source case None => 0 case Some(f) => f.time
  }

  function Max(a: nat, b: nat): nat {
    if a < b then b else a
  }

  function RequiredTime(d: Disk): nat {
    Max(SourceTime(d), Max(d.template.time, d.abi.time))
  }

  function CompiledTime(d: Disk): nat {
    match d.so case None => 0 case Some(f) => f.time
  }

  /** `shared_unit_compile_check` */
  predicate NeedsCompile(d: Disk) {
    || d.source.None?
    || CompiledTime(d) == 0
    || CompiledTime(d) < RequiredTime(d)
    || d.meta.None?
    || d.meta.value.inputs.abi != d.abi.value
    || Some(d.meta.value.inputs) != Current(d)
  }

  /** `compiler_failure_retry_deferred` */
  predicate Deferred(d: Disk) {
    && d.output.Some? && d.output.value != 0
    && SourceTime(d) != 0
    && d.output.value >= RequiredTime(d)
  }

  /** `shared_unit_cache_is_stale` */
  predicate Stale(d: Disk, u: Unit) {
    NeedsCompile(d) || CompiledTime(d) != u.observedTime || d.meta != u.observedMeta
  }

  /** `compiler_reusable_cached_unit` on an unforced request. */
  predicate Reusable(s: State, w: nat)
    requires w < |s.caches|
  {
    s.caches[w].Some? && !Stale(s.disk, s.caches[w].value)
  }

  // ----- one request -----

  /** What loading an object comes to.  A load that fails always leaves a message. */
  datatype Load = LoadOk | LoadFails

  /** A script that prints has failed, whatever it leaves on disk: the object that
      was there, none, or a new one.  One that prints nothing has written the object. */
  datatype Script = ScriptFails | ScriptRemoves | ScriptWarns | ScriptWrites

  /** The unit is cached with the disk as it is now. */
  function Settle(s: State, w: nat, b: Option<Build>): State
    requires w < |s.caches|
  {
    s.(caches := s.caches[w := Some(Unit(b, CompiledTime(s.disk), s.disk.meta))])
  }

  function WriteOutput(s: State): State {
    s.(disk := s.disk.(output := Some(s.clock)))
  }

  function WriteObject(s: State, inputs: Inputs): State {
    s.(disk := s.disk.(so := Some(Stamped(Build(inputs, s.nextToken), s.clock))), nextToken := s.nextToken + 1)
  }

  function RemoveObject(s: State): State {
    s.(disk := s.disk.(so := None))
  }

  /** `compile_shared_unit`, up to the point where a new object is to be loaded. */
  function Compile(s: State, w: nat, script: Script): State
    requires w < |s.caches|
  {
    var t := s.(compiles := s.compiles + 1);
    match Current(s.disk)
    case None => Settle(WriteOutput(t), w, None)
    case Some(inputs) =>
      match script
      case ScriptFails => Settle(WriteOutput(t), w, None)
      case ScriptRemoves => Settle(WriteOutput(RemoveObject(t)), w, None)
      case ScriptWarns => Settle(WriteOutput(WriteObject(t, inputs)), w, None)
      case ScriptWrites => WriteObject(t, inputs).(caches := t.caches[w := None], building := Some(w))
  }

  /** A compile that has written its object and not loaded it yet. */
  predicate IsBuilding(s: State) {
    s.building.Some? && s.building.value < |s.caches| && s.disk.so.Some? && s.disk.source.Some?
  }

  /** The rest of `compile_shared_unit` and of the request.  The metadata gets the
      signature of the files as they are. */
  function Finish(s: State, load: Load): State
    requires IsBuilding(s)
  {
    var w, b := s.building.value, s.disk.so.value.value;
    var t := s.(building := None);
    match load
    case LoadOk =>
      Settle(t.(disk := t.disk.(meta := Some(Meta(Current(s.disk).value, b.token)), output := None)), w, Some(b))
    case LoadFails => Settle(WriteOutput(t), w, None)
  }

  /** `compiler_get_shared_unit_internal`, with the lock free. */
  function Request(s: State, w: nat, force: bool, jit: bool, load: Load, script: Script): State
    requires w < |s.caches|
  {
    if !force && Reusable(s, w) then s
    else if !force && !NeedsCompile(s.disk) && load.LoadOk?
        && s.disk.so.Some? then Settle(s, w, Some(s.disk.so.value.value))
    else if !force && (Deferred(s.disk) || !jit) then Settle(s, w, None)
    else Compile(s, w, script)
  }

  // ----- the system -----

  datatype Step =
    | Ask(worker: nat, force: bool, jit: bool, load: Load, script: Script)
    | Complete(load: Load)
    | EditSource(content: Option<string>)
    | EditTemplate(template: string)
    | Upgrade(abi: nat)
    | Crash(worker: nat)
    | Pass(seconds: nat)

  /** A request that cannot be served from the cache waits for the lock; a compile
      is not disturbed by edits. */
  predicate Enabled(s: State, step: Step) {
    match step
    case Ask(w, force, _, _, _) => w < |s.caches| && (s.building.None? || (!force && Reusable(s, w)))
    case Complete(_) => IsBuilding(s)
    case Crash(w) => w < |s.caches|
    case Pass(_) => true
    case _ => s.building.None?
  }

  function NoCaches(n: nat): seq<Option<Unit>> {
    seq(n, _ => None)
  }

  function Next(s: State, step: Step): State
    requires Enabled(s, step)
  {
    match step
    case Ask(w, force, jit, load, script) => Request(s, w, force, jit, load, script)
    case Complete(load) => Finish(s, load)
    case EditSource(None) => s.(disk := s.disk.(source := None))
    case EditSource(Some(c)) => s.(disk := s.disk.(source := Some(Stamped(c, s.clock))))
    case EditTemplate(c) => s.(disk := s.disk.(template := Stamped(c, s.clock)))
    case Upgrade(abi) => s.(disk := s.disk.(abi := Stamped(abi, s.clock)), caches := NoCaches(|s.caches|))
    case Crash(w) =>
      s.(caches := s.caches[w := None], building := if s.building == Some(w) then None else s.building)
    case Pass(seconds) => s.(clock := s.clock + seconds)
  }

  /** Nothing is built; the sources, if any, are not from the future. */
  predicate Fresh(s: State) {
    && s.disk.so.None? && s.disk.meta.None? && s.disk.output.None? && s.building.None?
    && s.caches == NoCaches(|s.caches|) && s.clock > 0
    && SourceTime(s.disk) <= s.clock && s.disk.template.time <= s.clock && s.disk.abi.time <= s.clock
    && (s.disk.source.Some? ==> s.disk.source.value.time > 0)
  }

  function After(start: State, run: seq<Step>): Option<State>
    decreases |run|
  {
    if run == [] then Some(start)
    else match After(start, run[..|run| - 1])
      case None => None
      case Some(s) => if Enabled(s, run[|run| - 1]) then Some(Next(s, run[|run| - 1])) else None
  }

  // ----- what every run keeps -----

  /** No stamp lies in the future. */
  predicate Past(d: Disk, clock: nat) {
    && clock > 0
    && SourceTime(d) <= clock && d.template.time <= clock && d.abi.time <= clock
    && CompiledTime(d) <= clock && (d.output.Some? ==> d.output.value <= clock)
    && (d.source.Some? ==> d.source.value.time > 0) && (d.so.Some? ==> d.so.value.time > 0)
  }

  /** An object strictly younger than all inputs was built from them as they are. */
  predicate YoungIsCurrent(d: Disk) {
    d.so.Some? && d.source.Some? && d.so.value.time > RequiredTime(d) ==>
      Some(d.so.value.value.inputs) == Current(d)
  }

  /** The metadata is of the object on disk or of an earlier one. */
  predicate MetaTells(d: Disk, nextToken: nat) {
    && (d.so.Some? ==> d.so.value.value.token < nextToken)
    && (d.meta.Some? ==> d.meta.value.token < nextToken)
    && (d.so.Some? && d.meta.Some? ==>
          && d.meta.value.token <= d.so.value.value.token
          && (d.meta.value.token == d.so.value.value.token ==> d.meta.value.inputs == d.so.value.value.inputs))
  }

  /** A loaded object is the one on disk or an earlier one, and no older than the
      metadata it was cached with. */
  predicate UnitTells(d: Disk, clock: nat, nextToken: nat, u: Unit) {
    u.build.Some? ==>
      var b := u.build.value;
      && u.observedTime <= clock && b.token < nextToken
      && (d.source.Some? && u.observedTime > RequiredTime(d) ==> Some(b.inputs) == Current(d))
      && (d.so.Some? ==>
            b.token <= d.so.value.value.token && (b.token == d.so.value.value.token ==> b == d.so.value.value))
      && (u.observedMeta.Some? ==>
            && u.observedMeta.value.token <= b.token
            && (u.observedMeta.value.token == b.token ==> u.observedMeta.value.inputs == b.inputs))
  }

  predicate DiskTells(s: State) {
    && Past(s.disk, s.clock) && YoungIsCurrent(s.disk) && MetaTells(s.disk, s.nextToken)
    && (s.building.Some? ==>
          IsBuilding(s) && s.disk.so.value.time >= RequiredTime(s.disk)
          && Some(s.disk.so.value.value.inputs) == Current(s.disk))
  }

  predicate CachesTell(s: State) {
    forall w | 0 <= w < |s.caches| && s.caches[w].Some? ::
      UnitTells(s.disk, s.clock, s.nextToken, s.caches[w].value)
  }

  predicate Inv(s: State) {
    DiskTells(s) && CachesTell(s)
  }

  lemma SettleKeeps(s: State, w: nat, b: Option<Build>)
    requires Inv(s) && w < |s.caches| && (b.Some? ==> s.disk.so.Some? && s.disk.so.value.value == b.value)
    ensures Inv(Settle(s, w, b))
  {
  }

  lemma WritesKeep(s: State)
    requires Inv(s)
    ensures Inv(WriteOutput(s))
    ensures s.building.None? ==> Inv(RemoveObject(s))
    ensures s.building.None? && s.disk.source.Some? ==> Inv(WriteObject(s, Current(s.disk).value))
  {
    RequiredIsPast(s.disk, s.clock);
  }

  lemma RequiredIsPast(d: Disk, clock: nat)
    requires Past(d, clock)
    ensures RequiredTime(d) <= clock
  {
  }

  lemma CompileKeeps(s: State, w: nat, script: Script)
    requires Inv(s) && w < |s.caches| && s.building.None?
    ensures Inv(Compile(s, w, script))
  {
    hide Past, YoungIsCurrent, MetaTells, UnitTells;
    var t := s.(compiles := s.compiles + 1);
    assert Inv(t);
    WritesKeep(t);
    SettleKeeps(WriteOutput(t), w, None);
    WritesKeep(RemoveObject(t));
    SettleKeeps(WriteOutput(RemoveObject(t)), w, None);
    if s.disk.source.Some? {
      var c := WriteObject(t, Current(s.disk).value);
      WritesKeep(c);
      SettleKeeps(WriteOutput(c), w, None);
      assert RequiredTime(c.disk) <= c.clock by { RequiredIsPast(c.disk, c.clock); }
      assert DiskTells(c);
    }
  }

  lemma FinishKeeps(s: State, load: Load)
    requires Inv(s) && s.building.Some?
    ensures Inv(Finish(s, load))
  {
    var w, b := s.building.value, s.disk.so.value.value;
    var t := s.(building := None);
    assert Inv(t);
    if load.LoadOk? {
      var d := t.(disk := t.disk.(meta := Some(Meta(Current(s.disk).value, b.token)), output := None));
      assert Inv(d);
      SettleKeeps(d, w, Some(b));
    } else {
      WritesKeep(t);
      SettleKeeps(WriteOutput(t), w, None);
    }
  }

  lemma NextKeeps(s: State, step: Step)
    requires Inv(s) && Enabled(s, step)
    ensures Inv(Next(s, step))
  {
    match step
    case Ask(w, force, jit, load, script) => RequestKeeps(s, w, force, jit, load, script);
    case Complete(load) => FinishKeeps(s, load);
    case Crash(_) =>
    case Pass(_) =>
    case _ => EditKeeps(s, step);
  }

  lemma RequestKeeps(s: State, w: nat, force: bool, jit: bool, load: Load, script: Script)
    requires Inv(s) && w < |s.caches| && (s.building.None? || (!force && Reusable(s, w)))
    ensures Inv(Request(s, w, force, jit, load, script))
  {
    hide Inv, Compile, Settle;
    if force || !Reusable(s, w) {
      CompileKeeps(s, w, script);
      SettleKeeps(s, w, None);
      if s.disk.so.Some? { SettleKeeps(s, w, Some(s.disk.so.value.value)); }
    }
  }

  /** After an edit no object is strictly younger than its inputs. */
  lemma EditKeeps(s: State, step: Step)
    requires Inv(s) && s.building.None? && (step.EditSource? || step.EditTemplate? || step.Upgrade?)
    ensures Inv(Next(s, step))
  {
    var t := Next(s, step);
    assert t.disk.source.Some? ==> RequiredTime(t.disk) == s.clock;
    assert Past(t.disk, t.clock);
  }

  lemma {:induction false} ReachableInv(start: State, run: seq<Step>)
    requires Fresh(start)
    ensures match After(start, run) case None => true case Some(s) => Inv(s)
    decreases |run|
  {
    hide Inv, Next, Enabled;
    if run == [] {
      FreshInv(start);
    } else {
      var front := run[..|run| - 1];
      ReachableInv(start, front);
      var s := After(start, front);
      if s.Some? && Enabled(s.value, run[|run| - 1]) { NextKeeps(s.value, run[|run| - 1]); }
    }
  }

  lemma FreshInv(s: State)
    requires Fresh(s)
    ensures Inv(s)
  {
  }

  // ----- which build the metadata describes -----

  /** The metadata describes the object on disk: same build. */
  predicate Described(d: Disk) {
    d.so.Some? && d.meta.Some? && d.meta.value == Meta(d.so.value.value.inputs, d.so.value.value.token)
  }

  /** In the run, the last change of the object on disk was followed by its load at
      the end of the compile. */
  predicate LastObjectLoaded(start: State, run: seq<Step>)
    decreases |run|
  {
    run != [] &&
    var front := run[..|run| - 1];
    match (After(start, front), After(start, run))
    case (Some(s), Some(t)) =>
      run[|run| - 1] == Complete(LoadOk) || (t.disk.so == s.disk.so && LastObjectLoaded(start, front))
    case _ => false
  }

  lemma NothingDescribed(start: State)
    requires Fresh(start)
    ensures !Described(start.disk)
  {
  }

  lemma StepDescribes(s: State, step: Step)
    requires Inv(s) && Enabled(s, step)
    ensures var t := Next(s, step);
      Described(t.disk) <==> step == Complete(LoadOk) || (t.disk.so == s.disk.so && Described(s.disk))
  {
  }

  lemma {:induction false} DescribedIff(start: State, run: seq<Step>)
    requires Fresh(start)
    ensures match After(start, run)
      case None => true
      case Some(s) => Described(s.disk) <==> LastObjectLoaded(start, run)
    decreases |run|
  {
    hide Inv, Next, Enabled, Described;
    if run == [] {
      NothingDescribed(start);
    } else {
      var front := run[..|run| - 1];
      ReachableInv(start, front);
      DescribedIff(start, front);
      var s := After(start, front);
      if s.Some? && Enabled(s.value, run[|run| - 1]) { StepDescribes(s.value, run[|run| - 1]); }
    }
  }

  // ----- what is served -----

  /** A request of worker w that needs no lock is answered with a loaded object. */
  predicate Served(s: State, w: nat) {
    w < |s.caches| && Reusable(s, w) && s.caches[w].value.build.Some?
  }

  /** The run up to the step that put the unit of worker w into its cache. */
  function Entered(start: State, run: seq<Step>, w: nat): seq<Step>
    decreases |run|
  {
    if run == [] then run
    else
      var front := run[..|run| - 1];
      match (After(start, front), After(start, run))
      case (Some(s), Some(t)) =>
        if w < |s.caches| && w < |t.caches| && s.caches[w] == t.caches[w] then Entered(start, front, w) else run
      case _ => run
  }

  /** A unit carries the token of the metadata it was cached with. */
  predicate Matched(u: Unit) {
    u.build.Some? && u.observedMeta == Some(Meta(u.build.value.inputs, u.build.value.token))
  }

  /** A step that changes a cache makes it agree with the disk. */
  lemma EntryDescribes(s: State, step: Step, w: nat)
    requires Inv(s) && Enabled(s, step) && w < |s.caches|
    ensures var t := Next(s, step);
      |t.caches| == |s.caches|
      && (t.caches[w] != s.caches[w] && t.caches[w].Some? && t.caches[w].value.build.Some? ==>
            (Matched(t.caches[w].value) <==> Described(t.disk)))
  {
    hide NeedsCompile, Stale, Deferred, UnitTells, MetaTells, Past, YoungIsCurrent;
  }

  lemma {:induction false} MatchedIff(start: State, run: seq<Step>, w: nat)
    requires Fresh(start)
    ensures match After(start, run)
      case None => true
      case Some(s) =>
        w < |s.caches| && s.caches[w].Some? && s.caches[w].value.build.Some? ==>
          (Matched(s.caches[w].value) <==> LastObjectLoaded(start, Entered(start, run, w)))
    decreases |run|
  {
    hide Inv, Next, Enabled, Described, Fresh, Matched, LastObjectLoaded;
    if run == [] {
      if w < |start.caches| { NothingCached(start, w); }
    } else {
      var front := run[..|run| - 1];
      var step := run[|run| - 1];
      ReachableInv(start, front);
      MatchedIff(start, front, w);
      DescribedIff(start, run);
      var s := After(start, front);
      if s.Some? && Enabled(s.value, step) {
        if w < |s.value.caches| {
          EntryDescribes(s.value, step, w);
        } else {
          SameWorkers(s.value, step);
        }
      }
    }
  }

  lemma NothingCached(s: State, w: nat)
    requires Fresh(s) && w < |s.caches|
    ensures s.caches[w].None?
  {
  }

  lemma SameWorkers(s: State, step: Step)
    requires Enabled(s, step)
    ensures |Next(s, step).caches| == |s.caches|
  {
  }

  /** What the token and the signature say, whatever the workers, edits, crashes and
      compiles did before, in one second or in many, and even in the middle of
      another worker's compile.  A unit served from a cache is the build that the
      metadata on disk describes if and only if, when it was cached, the last object
      written had been loaded; then its inputs are the source, template and ABI
      version as they are now.  They are so too if the object is strictly younger
      than they.  And if the last object written by now has been loaded, every
      served unit is the object on disk. */
  lemma ServedIsDescribedIff(start: State, run: seq<Step>, w: nat)
    requires Fresh(start)
    ensures match After(start, run)
      case None => true
      case Some(s) =>
        Served(s, w) ==>
          var b := s.caches[w].value.build.value;
          && (s.disk.meta == Some(Meta(b.inputs, b.token)) <==> LastObjectLoaded(start, Entered(start, run, w)))
          && (LastObjectLoaded(start, Entered(start, run, w)) || CompiledTime(s.disk) > RequiredTime(s.disk) ==>
                Some(b.inputs) == Current(s.disk))
          && (LastObjectLoaded(start, run) ==>
                s.disk.so.Some? && s.disk.so.value.value == b && LastObjectLoaded(start, Entered(start, run, w)))
  {
    hide After, LastObjectLoaded, Entered;
    ReachableInv(start, run);
    MatchedIff(start, run, w);
    DescribedIff(start, run);
    if After(start, run).Some? {
      var s := After(start, run).value;
      if Served(s, w) { assert UnitTells(s.disk, s.clock, s.nextToken, s.caches[w].value); }
    }
  }

  // ----- runs in which every object that is written is loaded -----

  /** No load fails at the end of a compile, no worker dies in one, and no script
      that prints leaves a new object. */
  predicate CleanStep(s: State, step: Step) {
    match step
    case Ask(_, _, _, _, script) => !script.ScriptWarns?
    case Complete(load) => load.LoadOk?
    case Crash(w) => s.building != Some(w)
    case _ => true
  }

  predicate CleanRun(start: State, run: seq<Step>)
    decreases |run|
  {
    run != [] ==>
      var front := run[..|run| - 1];
      CleanRun(start, front) && match After(start, front) case None => true case Some(s) => CleanStep(s, run[|run| - 1])
  }

  /** Between compiles the metadata describes the object, and every cached object
      carries the token of the metadata it was cached with. */
  predicate AllDescribed(s: State) {
    && (s.building.None? && s.disk.so.Some? ==> Described(s.disk))
    && forall w | 0 <= w < |s.caches| && s.caches[w].Some? && s.caches[w].value.build.Some? ::
        Matched(s.caches[w].value)
  }

  lemma CleanStepDescribes(s: State, step: Step)
    requires Inv(s) && Enabled(s, step) && AllDescribed(s) && CleanStep(s, step)
    ensures AllDescribed(Next(s, step))
  {
    hide Described, Matched, Inv;
    var t := Next(s, step);
    StepDescribes(s, step);
    SameWorkers(s, step);
    CleanWrites(s, step);
    forall w | 0 <= w < |t.caches| && t.caches[w].Some? && t.caches[w].value.build.Some?
      ensures Matched(t.caches[w].value)
    {
      EntryDescribes(s, step, w);
      LoadedIsSettled(s, step, w);
    }
  }

  /** The object on disk changes only by a compile that goes on to load it. */
  lemma CleanWrites(s: State, step: Step)
    requires Inv(s) && Enabled(s, step) && CleanStep(s, step)
    ensures var t := Next(s, step);
      t.building.None? && t.disk.so.Some? ==> step == Complete(LoadOk) || (t.disk.so == s.disk.so && s.building.None?)
  {
    hide CachesTell, Past, YoungIsCurrent, MetaTells, NeedsCompile, Stale, Deferred;
  }

  lemma LoadedIsSettled(s: State, step: Step, w: nat)
    requires Inv(s) && Enabled(s, step) && w < |s.caches|
    ensures var t := Next(s, step);
      |t.caches| == |s.caches|
      && (t.caches[w] != s.caches[w] && t.caches[w].Some? && t.caches[w].value.build.Some? ==>
            t.building.None? && t.disk.so.Some?)
  {
    hide CachesTell, Past, YoungIsCurrent, MetaTells, NeedsCompile, Stale, Deferred;
  }

  lemma {:induction false} CleanRunDescribes(start: State, run: seq<Step>)
    requires Fresh(start) && CleanRun(start, run)
    ensures match After(start, run) case None => true case Some(s) => AllDescribed(s)
    decreases |run|
  {
    hide Inv, Next, Enabled, AllDescribed, CleanStep;
    if run == [] {
      FreshDescribed(start);
    } else {
      var front := run[..|run| - 1];
      ReachableInv(start, front);
      CleanRunDescribes(start, front);
      var s := After(start, front);
      if s.Some? && Enabled(s.value, run[|run| - 1]) { CleanStepDescribes(s.value, run[|run| - 1]); }
    }
  }

  lemma FreshDescribed(s: State)
    requires Fresh(s)
    ensures AllDescribed(s)
  {
  }

  /** As long as every object that is written is loaded, every unit served from a
      cache is the build the metadata describes, of the source, template and ABI
      version as they are; between compiles it is the object on disk. */
  lemma CleanRunServesCurrent(start: State, run: seq<Step>, w: nat)
    requires Fresh(start) && CleanRun(start, run)
    ensures match After(start, run)
      case None => true
      case Some(s) =>
        Served(s, w) ==>
          var b := s.caches[w].value.build.value;
          && s.disk.meta == Some(Meta(b.inputs, b.token)) && Some(b.inputs) == Current(s.disk)
          && (s.building.None? ==> s.disk.so.Some? && s.disk.so.value.value == b)
  {
    hide After, CleanRun;
    ReachableInv(start, run);
    CleanRunDescribes(start, run);
    if After(start, run).Some? {
      var s := After(start, run).value;
      if Served(s, w) { assert UnitTells(s.disk, s.clock, s.nextToken, s.caches[w].value); }
    }
  }

  // ----- runs in which one is not -----

  /** Two workers, a source and no build yet. */
  predicate Ready(s: State) {
    Fresh(s) && |s.caches| > 1 && s.disk.source.Some?
  }

  /** An unforced request whose compile and load go well. */
  function Plain(w: nat): Step {
    Ask(w, false, true, LoadOk, ScriptWrites)
  }

  lemma Then(start: State, run: seq<Step>, k: nat, s: State)
    requires k < |run| && After(start, run[..k]) == Some(s) && Enabled(s, run[k])
    ensures After(start, run[..k + 1]) == Some(Next(s, run[k]))
  {
    assert run[..k + 1][..k] == run[..k];
  }

  /** A unit that was built within this second and has not failed. */
  predicate JustBuilt(s: State) {
    && s.building.None? && |s.caches| > 1 && s.caches[1].None? && s.disk.output.None?
    && Described(s.disk) && s.disk.so.value.time == s.clock > 0 && RequiredTime(s.disk) <= s.clock
    && Some(s.disk.so.value.value.inputs) == Current(s.disk) && s.disk.so.value.value.token < s.nextToken
  }

  /** The first build of a unit. */
  lemma BuiltOnce(start: State, run: seq<Step>) returns (s: State)
    requires Ready(start) && |run| > 2 && run[0] == Plain(0) && run[1] == Complete(LoadOk)
    ensures After(start, run[..2]) == Some(s) && JustBuilt(s) && Current(s.disk) == Current(start.disk)
  {
    assert run[..0] == [];
    Then(start, run, 0, start);
    hide After;
    var t := Next(start, Plain(0));
    Then(start, run, 1, t);
    s := Next(t, Complete(LoadOk));
  }

  /** A forced compile whose load fails. */
  lemma LoadLost(a: State) returns (b: State, c: State)
    requires JustBuilt(a)
    ensures Enabled(a, Forced()) && b == Next(a, Forced()) && Enabled(b, Complete(LoadFails))
    ensures c == Next(b, Complete(LoadFails)) && Enabled(c, Plain(1))
    ensures var d := Next(c, Plain(1));
      Served(d, 1) && d.disk.meta == a.disk.meta && d.caches[1].value.build.value.token == a.nextToken
  {
    b := Next(a, Forced());
    c := Next(b, Complete(LoadFails));
  }

  function Forced(): Step {
    Ask(0, true, true, LoadOk, ScriptWrites)
  }

  /** Where the token differs: after a forced compile whose load fails, the other
      worker serves a build that the metadata does not describe. */
  lemma OtherBuildIsServed(start: State)
    requires Ready(start)
    ensures match After(start, [Plain(0), Complete(LoadOk), Forced(), Complete(LoadFails), Plain(1)])
      case None => false
      case Some(s) =>
        Served(s, 1) && s.disk.meta.Some? && s.caches[1].value.build.value.token != s.disk.meta.value.token
  {
    hide After, Next, Enabled, Served;
    var run := [Plain(0), Complete(LoadOk), Forced(), Complete(LoadFails), Plain(1)];
    var a := BuiltOnce(start, run);
    var b, c := LoadLost(a);
    Then(start, run, 2, a);
    Then(start, run, 3, b);
    Then(start, run, 4, c);
    assert run[..5] == run;
  }

  /** On disk lies a build of `edited`, from within this second, that the metadata
      does not describe. */
  predicate LostTo(d: State, edited: string) {
    && d.building.None? && d.clock > 0 && |d.caches| > 1 && d.caches[0].None?
    && d.disk.template.time <= d.clock && d.disk.abi.time <= d.clock && d.disk.meta.Some?
    && d.disk.so.Some? && d.disk.so.value.time == d.clock && d.disk.so.value.value.inputs.source == edited
  }

  /** An edit and a compile by a worker that dies before it writes the metadata. */
  lemma BuildLost(a: State, edited: string) returns (b: State, c: State, d: State)
    requires JustBuilt(a) && a.disk.source.value.value != edited
    ensures Enabled(a, EditSource(Some(edited))) && b == Next(a, EditSource(Some(edited)))
    ensures Enabled(b, Plain(0)) && c == Next(b, Plain(0))
    ensures Enabled(c, Crash(0)) && d == Next(c, Crash(0))
    ensures LostTo(d, edited)
    ensures d.disk.meta == a.disk.meta && d.disk.template == a.disk.template && d.disk.abi == a.disk.abi
  {
    b := Next(a, EditSource(Some(edited)));
    c := Next(b, Plain(0));
    assert c.building == Some(0);
    d := Next(c, Crash(0));
  }

  function EditAndBack(original: string, edited: string): seq<Step> {
    [Plain(0), Complete(LoadOk), EditSource(Some(edited)), Plain(0), Crash(0), EditSource(Some(original)), Plain(0)]
  }

  lemma AfterLost(start: State, edited: string) returns (d: State)
    requires Ready(start) && edited != start.disk.source.value.value
    ensures After(start, EditAndBack(start.disk.source.value.value, edited)[..5]) == Some(d) && LostTo(d, edited)
    ensures d.disk.meta.value.inputs ==
      Inputs(start.disk.source.value.value, d.disk.template.value, d.disk.abi.value)
  {
    hide After, Next, Enabled;
    var run := EditAndBack(start.disk.source.value.value, edited);
    var a := BuiltOnce(start, run);
    var b, c;
    b, c, d := BuildLost(a, edited);
    Then(start, run, 2, a);
    Then(start, run, 3, b);
    Then(start, run, 4, c);
  }

  /** The source as it was first, asked for within the same second. */
  lemma EditedBack(d: State, original: string, edited: string) returns (e: State)
    requires LostTo(d, edited) && edited != original
    requires d.disk.meta.value.inputs == Inputs(original, d.disk.template.value, d.disk.abi.value)
    ensures Enabled(d, EditSource(Some(original))) && e == Next(d, EditSource(Some(original))) && Enabled(e, Plain(0))
    ensures var f := Next(e, Plain(0));
      Served(f, 0) && f.caches[0].value.build.value.inputs.source == edited && f.disk.source.Some?
      && f.disk.source.value.value == original
  {
    e := Next(d, EditSource(Some(original)));
  }

  /** Where the inputs differ: all within one second, the source is built, edited,
      built again by a worker that dies before it writes the metadata, and edited
      back.  The build of the edit is served for the original. */
  lemma StaleBuildIsServed(start: State, edited: string)
    requires Ready(start) && edited != start.disk.source.value.value
    ensures var original := start.disk.source.value.value;
      match After(start, EditAndBack(original, edited))
      case None => false
      case Some(s) =>
        Served(s, 0) && s.caches[0].value.build.value.inputs.source == edited && s.disk.source.Some?
        && s.disk.source.value.value == original
  {
    var original := start.disk.source.value.value;
    hide After, Next, Enabled, Served, LostTo, Fresh;
    var run := EditAndBack(original, edited);
    var d := AfterLost(start, edited);
    var e := EditedBack(d, original, edited);
    Then(start, run, 5, d);
    Then(start, run, 6, e);
    assert run[..7] == run;
  }

  // ----- when a unit is compiled again -----

  /** Requests that cost no compile: the last failure still stands, or the object
      is good. */
  predicate Quiet(d: Disk) {
    Deferred(d) || !NeedsCompile(d)
  }

  /** A compile, to its end. */
  function Compiled(s: State, w: nat, script: Script, load: Load): State
    requires w < |s.caches| && s.building.None?
  {
    var c := Compile(s, w, script);
    if c.building.Some? then Finish(c, load) else c
  }

  /** After a compile, however it ends, the unit is quiet if and only if there was a
      source. */
  lemma QuietAfterCompileIff(s: State, w: nat, script: Script, load: Load)
    requires Inv(s) && w < |s.caches| && s.building.None?
    ensures var after := Compiled(s, w, script, load);
      && after.building.None? && after.compiles == s.compiles + 1
      && (Quiet(after.disk) <==> s.disk.source.Some?)
      && (s.disk.source.Some? && !(script.ScriptWrites? && load.LoadOk?) ==> Deferred(after.disk))
  {
    hide CachesTell;
    RequiredIsPast(s.disk, s.clock);
  }

  /** An unforced request while nothing is written: `load` is what loading the object
      on disk comes to, `script` and `reload` how a compile ends, if there is one. */
  datatype Query = Query(worker: nat, jit: bool, load: Load, script: Script, reload: Load)

  function Answered(s: State, q: Query): State
    requires q.worker < |s.caches| && s.building.None?
  {
    var t := Request(s, q.worker, false, q.jit, q.load, q.script);
    if IsBuilding(t) then Finish(t, q.reload) else t
  }

  /** What an answer leaves: either nothing is compiled and the disk is as it was,
      or one compile was made because the unit was not quiet or its object did not
      load. */
  lemma AnswerCases(s: State, q: Query)
    requires Inv(s) && s.building.None? && q.worker < |s.caches| && s.disk.source.Some?
    ensures var t := Answered(s, q);
      && Inv(t) && t.building.None? && |t.caches| == |s.caches| && t.disk.source == s.disk.source
      && (|| (t.compiles == s.compiles && t.disk == s.disk)
          || (t.compiles == s.compiles + 1 && Quiet(t.disk) && !Deferred(s.disk)
              && (Quiet(s.disk) ==> q.load.LoadFails?)))
  {
    hide CachesTell, Past, YoungIsCurrent, MetaTells;
    var t := Request(s, q.worker, false, q.jit, q.load, q.script);
    RequestKeeps(s, q.worker, false, q.jit, q.load, q.script);
    if IsBuilding(t) { FinishKeeps(t, q.reload); }
    CompiledIsAnswered(s, q);
    QuietAfterCompileIff(s, q.worker, q.script, q.reload);
  }

  lemma CompiledIsAnswered(s: State, q: Query)
    requires q.worker < |s.caches| && s.building.None? && s.disk.source.Some?
    ensures
      || Answered(s, q) == Compiled(s, q.worker, q.script, q.reload)
      || (Answered(s, q).compiles == s.compiles && Answered(s, q).disk == s.disk)
  {
  }

  /** Worker w has been given a unit with a loaded object. */
  predicate HasBuild(s: State, w: nat) {
    w < |s.caches| && s.caches[w].Some? && s.caches[w].value.build.Some?
  }

  /** The request ends in a compile. */
  predicate Compiles(s: State, q: Query)
    requires q.worker < |s.caches|
  {
    && !Reusable(s, q.worker) && (NeedsCompile(s.disk) || q.load.LoadFails?)
    && !Deferred(s.disk) && q.jit
  }

  /** Who gets an object.  A worker with a reusable unit keeps it, loaded or not.
      Any other is given one if and only if the object on disk is good and loads, or
      a compile is made and goes well: then it is the new build of the files as they
      are, and the one that the metadata describes.  And what it is given serves its
      next request. */
  lemma AnswerServesIff(s: State, q: Query)
    requires Inv(s) && s.building.None? && q.worker < |s.caches| && s.disk.source.Some?
    ensures var t := Answered(s, q);
      && (HasBuild(t, q.worker) <==>
            if Reusable(s, q.worker) then HasBuild(s, q.worker)
            else if Compiles(s, q) then q.script.ScriptWrites? && q.reload.LoadOk?
            else !NeedsCompile(s.disk) && q.load.LoadOk?)
      && (HasBuild(t, q.worker) ==>
            var b := t.caches[q.worker].value.build.value;
            && Served(t, q.worker)
            && (Compiles(s, q) ==>
                  b == Build(Current(s.disk).value, s.nextToken) && Described(t.disk) && t.disk.so.value.value == b)
            && (!Compiles(s, q) && !Reusable(s, q.worker) ==>
                  t.disk == s.disk && s.disk.so.Some? && b == s.disk.so.value.value)
            && (Reusable(s, q.worker) ==> t == s))
  {
    hide CachesTell, YoungIsCurrent, MetaTells;
    RequiredIsPast(s.disk, s.clock);
  }

  /** A request by worker w that meets no failure. */
  function Good(w: nat, jit: bool): Query {
    Query(w, jit, LoadOk, ScriptWrites, LoadOk)
  }

  /** A failed load is remembered: with compiling on request switched off, a worker
      that once could not load a good object is given none by any later request
      either, although it would load now. */
  lemma FailureIsRemembered(s: State, w: nat, script: Script, reload: Load, jit: bool)
    requires Inv(s) && s.building.None? && w < |s.caches| && !NeedsCompile(s.disk) && !Reusable(s, w)
    ensures var t := Answered(s, Query(w, false, LoadFails, script, reload));
      Inv(t) && t.building.None? && Reusable(t, w) && !HasBuild(Answered(t, Good(w, jit)), w)
  {
    RequestKeeps(s, w, false, false, LoadFails, script);
  }

  /** In every run in which each object that is written is loaded: a request that
      meets no failure leaves the worker with an object of the source, template and
      ABI version as they are, if and only if no failed load is remembered for it,
      and the object on disk is good or may be compiled now. */
  lemma RequestServesCurrentIff(start: State, run: seq<Step>, w: nat, jit: bool)
    requires Fresh(start) && CleanRun(start, run)
    ensures match After(start, run)
      case None => true
      case Some(s) =>
        s.building.None? && w < |s.caches| && s.disk.source.Some? ==>
          var t := Answered(s, Good(w, jit));
          HasBuild(t, w) && Some(t.caches[w].value.build.value.inputs) == Current(t.disk) <==>
            && (Reusable(s, w) ==> HasBuild(s, w))
            && (NeedsCompile(s.disk) ==> !Deferred(s.disk) && jit)
  {
    hide After, CleanRun;
    ReachableInv(start, run);
    CleanRunDescribes(start, run);
    CleanRunServesCurrent(start, run, w);
    if After(start, run).Some? {
      var s := After(start, run).value;
      if s.building.None? && w < |s.caches| && s.disk.source.Some? {
        hide Inv, Answered;
        AnswerServesIff(s, Good(w, jit));
        AnswerKeepsFiles(s, Good(w, jit));
      }
    }
  }

  lemma AnswerKeepsFiles(s: State, q: Query)
    requires s.building.None? && q.worker < |s.caches| && s.disk.source.Some?
    ensures Current(Answered(s, q).disk) == Current(s.disk)
  {
  }

  /** A forced request whose compile goes well leaves the worker with the new build,
      whatever was cached, deferred or switched off before. */
  lemma ForcedServes(s: State, w: nat, jit: bool, load: Load)
    requires Inv(s) && s.building.None? && w < |s.caches| && s.disk.source.Some?
    ensures var c := Request(s, w, true, jit, load, ScriptWrites);
      && IsBuilding(c)
      && var t := Finish(c, LoadOk);
         && Served(t, w) && t.caches[w].value.build == Some(Build(Current(s.disk).value, s.nextToken))
         && Described(t.disk) && t.disk.so.value.value.token == s.nextToken
  {
    hide CachesTell, YoungIsCurrent, MetaTells;
    RequiredIsPast(s.disk, s.clock);
  }

  function AskAll(s: State, qs: seq<Query>): State
    requires Inv(s) && s.building.None? && s.disk.source.Some?
    requires forall i | 0 <= i < |qs| :: qs[i].worker < |s.caches|
    decreases |qs|
  {
    if qs == [] then s
    else
      AnswerCases(s, qs[0]);
      AskAll(Answered(s, qs[0]), qs[1..])
  }

  /** How many of the requests find an object that does not load. */
  function LoadFailures(qs: seq<Query>): nat {
    if qs == [] then 0 else (if qs[0].load.LoadFails? then 1 else 0) + LoadFailures(qs[1..])
  }

  /** With unchanged files, any number of unforced requests by any workers: at most
      one compile is made to begin with, none if the unit is quiet, and at most one
      more for each time that a good object does not load.  Once a failure stands
      there are no more, and as long as objects load the disk stays as it is. */
  lemma {:induction false} CompilesBounded(s: State, qs: seq<Query>)
    requires Inv(s) && s.building.None? && s.disk.source.Some?
    requires forall i | 0 <= i < |qs| :: qs[i].worker < |s.caches|
    ensures var t := AskAll(s, qs);
      && t.compiles <= s.compiles + (if Quiet(s.disk) then 0 else 1) + LoadFailures(qs)
      && (Deferred(s.disk) || (Quiet(s.disk) && LoadFailures(qs) == 0) ==>
            t.compiles == s.compiles && t.disk == s.disk)
    decreases |qs|
  {
    if qs != [] {
      hide Deferred, NeedsCompile, Inv, Answered;
      AnswerCases(s, qs[0]);
      CompilesBounded(Answered(s, qs[0]), qs[1..]);
    }
  }

  /** A missing source is reported anew by every request that may compile. */
  lemma MissingSourceCompiles(s: State, w: nat, load: Load, script: Script)
    requires Inv(s) && w < |s.caches| && s.disk.source.None?
    ensures Request(s, w, false, true, load, script).compiles == s.compiles + 1
  {
  }

  // ----- the same as an object that is updated in place -----

  class Server {
    var disk: Disk
    var clock: nat
    var nextToken: nat
    var compiles: nat
    var caches: seq<Option<Unit>>
    var building: Option<nat>

    constructor (start: State)
      ensures Value() == start
    {
      disk, clock, nextToken, compiles := start.disk, start.clock, start.nextToken, start.compiles;
      caches, building := start.caches, start.building;
    }

    function Value(): State
      reads this
    {
      State(disk, clock, nextToken, compiles, caches, building)
    }

    /** Records what was observed and enters the unit. */
    method Enter(w: nat, b: Option<Build>)
      requires w < |caches|
      modifies this
      ensures Value() == Settle(old(Value()), w, b)
    {
      caches := caches[w := Some(Unit(b, CompiledTime(disk), disk.meta))];
    }

    method WriteFailure()
      modifies this
      ensures Value() == WriteOutput(old(Value()))
    {
      disk := disk.(output := Some(clock));
    }

    /** The object in place, built from the files as they are. */
    method PutObject()
      requires disk.source.Some?
      modifies this
      ensures Value() == WriteObject(old(Value()), Current(old(disk)).value)
    {
      var b := Build(Inputs(disk.source.value.value, disk.template.value, disk.abi.value), nextToken);
      disk := disk.(so := Some(Stamped(b, clock)));
      nextToken := nextToken + 1;
    }

    /** `compile_shared_unit` until the object is to be loaded, if it is. */
    method CompileSharedUnit(w: nat, script: Script)
      requires w < |caches|
      modifies this
      ensures Value() == Compile(old(Value()), w, script)
    {
      compiles := compiles + 1;
      if disk.source.None? {
        WriteFailure();
        Enter(w, None);
        return;
      }
      if script.ScriptRemoves? { disk := disk.(so := None); }
      if script.ScriptWarns? || script.ScriptWrites? { PutObject(); }
      if script.ScriptWrites? {
        caches := caches[w := None];
        building := Some(w);
      } else {
        WriteFailure();
        Enter(w, None);
      }
    }

    method FinishCompile(load: Load)
      requires IsBuilding(Value())
      modifies this
      ensures Value() == Finish(old(Value()), load)
    {
      var w, b := building.value, disk.so.value.value;
      building := None;
      if load.LoadOk? {
        disk := disk.(meta := Some(Meta(Current(disk).value, b.token)));
        disk := disk.(output := None);
        Enter(w, Some(b));
      } else {
        WriteFailure();
        Enter(w, None);
      }
    }

    /** `compiler_get_shared_unit_internal` */
    method GetSharedUnit(w: nat, force: bool, jit: bool, load: Load, script: Script)
      requires w < |caches|
      modifies this
      ensures Value() == Request(old(Value()), w, force, jit, load, script)
    {
      if !force && caches[w].Some? && !Stale(disk, caches[w].value) { return; }
      if force || NeedsCompile(disk) {
        if !force && (Deferred(disk) || !jit) {
          Enter(w, None);
        } else {
          CompileSharedUnit(w, script);
        }
      } else if load.LoadOk? {
        Enter(w, Some(disk.so.value.value));
      } else if Deferred(disk) || !jit {
        Enter(w, None);
      } else {
        CompileSharedUnit(w, script);
      }
    }
  }
}
