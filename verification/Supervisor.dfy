/** Callers that start, restart and wait for the daemon, interleaved step by step with one another and the system. */
module Supervisor {
  import opened Results
  import opened Sidecar

  /** What follows a start: an answer, or the rest of a restart that found `previous` running. */
  datatype Then = Reply | Restart(previous: Option<nat>)

  datatype Outcome =
    | Started(pid: nat)
    | AlreadyRunning(pid: nat)
    | SpawnError
    | ForceFailed
    | NotStopped(pid: nat)
    | Ready(pid: nat, prior: Option<nat>)
    | StillStarting
    | Exited(code: int)
    | TimedOut

  /** Where a caller is: each step takes the slot's lock at most once, or touches daemon.json once. */
  datatype Caller =
    | Idle
    | ReadPrevious
    | CheckPrevious(pid: nat)
    | Stop(pid: nat)
    | AwaitExit(pid: nat, forced: bool)
    | Force(pid: nat)
    | ReadStale(pid: nat)
    | DropStale(pid: nat)
    | ReadBeforeStart(next: Then)
    | CheckBeforeStart(next: Then, pid: nat)
    | Spawn(next: Then)
    | ReadAnnounced(prior: Option<nat>)
    | CheckAnnounced(prior: Option<nat>, pid: nat)
    | CheckSlot(prior: Option<nat>)
    | Done(outcome: Outcome)

  /** `json` is the PID that daemon.json names, if it can be read. */
  datatype World = World(host: Host, json: Option<nat>, callers: seq<Caller>)

  /** What a caller does not decide itself: whether time is up, whether a command worked, the child the system made. */
  datatype Chance = Chance(expired: bool, worked: bool, child: Option<nat>)

  datatype Step =
    | Begin(who: nat, at: Caller)
    | Go(who: nat, chance: Chance)
    | Exit(pid: nat, code: int)
    | Reap(pid: nat)
    | Foreign(pid: nat)
    | Write(json: Option<nat>)

  // ---- one caller's step --------------------------------------------------------------

  predicate IsEntry(c: Caller) {
    c == ReadPrevious || c == ReadBeforeStart(Reply) || c == ReadAnnounced(None)
  }

  function AfterExit(pid: nat, alive: bool, forced: bool, expired: bool): Caller {
    if !alive then ReadStale(pid)
    else if !expired then AwaitExit(pid, forced)
    else if forced then Done(NotStopped(pid))
    else Force(pid)
  }

  function AfterSpawn(next: Then, outcome: SpawnOutcome): Caller {
    match outcome
    case SpawnFailed => Done(SpawnError)
    case _ =>
      match next
      case Reply => Done(Started(outcome.pid))
      case Restart(previous) => ReadAnnounced(previous)
  }

  function AfterSlot(slot: Option<Spawned>, prior: Option<nat>, expired: bool): Caller {
    match slot
    case None => if expired then Done(TimedOut) else ReadAnnounced(prior)
    case Some(d) =>
      match d.exit
      case Some(code) => Done(Exited(code))
      case None => if expired then Done(StillStarting) else ReadAnnounced(prior)
  }

  function HostAfter(h: Host, c: Caller, chance: Chance): Host {
    match c
    case CheckPrevious(pid) => Asked(h, pid).0
    case AwaitExit(pid, _) => Asked(h, pid).0
    case CheckBeforeStart(_, pid) => Asked(h, pid).0
    case Spawn(_) => SpawnedDaemon(h, chance.child).0
    case CheckAnnounced(_, pid) => Asked(h, pid).0
    case CheckSlot(_) => Polled(h)
    case _ => h
  }

  function CallerAfter(h: Host, json: Option<nat>, c: Caller, chance: Chance): Caller {
    match c
    case Idle => Idle
    case ReadPrevious => if json.Some? then CheckPrevious(json.value) else ReadBeforeStart(Restart(None))
    case CheckPrevious(pid) => if Asked(h, pid).1 then Stop(pid) else ReadBeforeStart(Restart(None))
    case Stop(pid) => AwaitExit(pid, false)
    case AwaitExit(pid, forced) => AfterExit(pid, Asked(h, pid).1, forced, chance.expired)
    case Force(pid) => if chance.worked then AwaitExit(pid, true) else Done(ForceFailed)
    case ReadStale(pid) => if json == Some(pid) then DropStale(pid) else ReadBeforeStart(Restart(Some(pid)))
    case DropStale(pid) => ReadBeforeStart(Restart(Some(pid)))
    case ReadBeforeStart(next) => if json.Some? then CheckBeforeStart(next, json.value) else Spawn(next)
    case CheckBeforeStart(next, pid) => if Asked(h, pid).1 then Done(AlreadyRunning(pid)) else Spawn(next)
    case Spawn(next) => AfterSpawn(next, SpawnedDaemon(h, chance.child).1)
    case ReadAnnounced(prior) =>
      if json.Some? && json != prior then CheckAnnounced(prior, json.value) else CheckSlot(prior)
    case CheckAnnounced(prior, pid) => if Asked(h, pid).1 then Done(Ready(pid, prior)) else CheckSlot(prior)
    case CheckSlot(prior) => AfterSlot(Polled(h).slot, prior, chance.expired)
    case Done(_) => c
  }

  // ---- the world's steps --------------------------------------------------------------

  /** PIDs the system hands out are new; only a parent reaps, and the app is the parent of the daemons it spawned. */
  predicate Possible(w: World, s: Step) {
    match s
    case Begin(who, at) => who < |w.callers| && (w.callers[who].Idle? || w.callers[who].Done?) && IsEntry(at)
    case Go(who, chance) =>
      who < |w.callers| && (chance.child.Some? ==> chance.child.value !in w.host.procs)
    case Exit(pid, _) => pid in w.host.procs && w.host.procs[pid].life.Running?
    case Reap(pid) => pid in w.host.procs && !w.host.procs[pid].ours && w.host.procs[pid].life.Zombie?
    case Foreign(pid) => pid !in w.host.procs
    case Write(_) => true
  }

  function WithLife(h: Host, pid: nat, life: Life): Host
    requires pid in h.procs
  {
    h.(procs := h.procs[pid := Process(h.procs[pid].ours, life)])
  }

  function Apply(w: World, s: Step): World
    requires Possible(w, s)
  {
    match s
    case Begin(who, at) => w.(callers := w.callers[who := at])
    case Go(who, chance) =>
      var c := w.callers[who];
      World(
        HostAfter(w.host, c, chance),
        if c.DropStale? then None else w.json,
        w.callers[who := CallerAfter(w.host, w.json, c, chance)])
    case Exit(pid, code) => w.(host := WithLife(w.host, pid, Zombie(code)))
    case Reap(pid) => w.(host := WithLife(w.host, pid, Gone(w.host.procs[pid].life.code)))
    case Foreign(pid) => w.(host := w.host.(procs := w.host.procs[pid := Process(false, Running)]))
    case Write(json) => w.(json := json)
  }

  // ---- invariants ---------------------------------------------------------------------

  ghost predicate HasExited(h: Host, pid: nat) { pid in h.procs && !h.procs[pid].life.Running? }

  ghost predicate OldExited(h: Host, prior: Option<nat>) { prior.Some? ==> HasExited(h, prior.value) }

  ghost predicate ThenInv(h: Host, next: Then) { next.Restart? ==> OldExited(h, next.previous) }

  /** A restart that has got past its wait goes on only with the previous daemon gone. */
  ghost predicate CallerInv(h: Host, c: Caller) {
    match c
    case ReadStale(pid) => HasExited(h, pid)
    case DropStale(pid) => HasExited(h, pid)
    case Stop(pid) => pid in h.procs
    case AwaitExit(pid, _) => pid in h.procs
    case Force(pid) => pid in h.procs
    case ReadBeforeStart(next) => ThenInv(h, next)
    case CheckBeforeStart(next, _) => ThenInv(h, next)
    case Spawn(next) => ThenInv(h, next)
    case ReadAnnounced(prior) => OldExited(h, prior)
    case CheckAnnounced(prior, pid) => OldExited(h, prior) && Some(pid) != prior
    case CheckSlot(prior) => OldExited(h, prior)
    case Done(Ready(pid, prior)) => OldExited(h, prior) && Some(pid) != prior
    case _ => true
  }

  ghost predicate WorldInv(w: World) {
    HostInv(w.host) && forall i :: 0 <= i < |w.callers| ==> CallerInv(w.host, w.callers[i])
  }

  /** Processes are only added, and only move from running to exited to gone. */
  ghost predicate Grows(h: Host, g: Host) {
    forall p :: p in h.procs ==>
      && p in g.procs && g.procs[p].ours == h.procs[p].ours
      && (h.procs[p].life.Zombie? ==> g.procs[p].life.Zombie? || g.procs[p].life.Gone?)
      && (h.procs[p].life.Zombie? ==> g.procs[p].life.code == h.procs[p].life.code)
      && (h.procs[p].life.Gone? ==> g.procs[p].life == h.procs[p].life)
  }

  lemma PolledKeeps(h: Host)
    requires HostInv(h)
    ensures HostInv(Polled(h)) && Grows(h, Polled(h))
    ensures h.slot.Some? ==>
              && Polled(h).slot.Some? && Polled(h).slot.value.pid == h.slot.value.pid
              && (Polled(h).slot.value.exit.None? <==> h.procs[h.slot.value.pid].life.Running?)
  {
  }

  /**
   * Asked about the daemon it spawned, the app knows at once whether it still runs, a zombie
   * counting as exited; of other processes it knows what the system does.
   */
  lemma AskedMeans(h: Host, pid: nat)
    requires HostInv(h)
    ensures HostInv(Asked(h, pid).0) && Grows(h, Asked(h, pid).0)
    ensures Asked(h, pid).1 <==>
            if h.slot.Some? && h.slot.value.pid == pid then h.procs[pid].life.Running?
            else pid in h.procs && !h.procs[pid].life.Gone?
    ensures h.slot.Some? && h.slot.value.pid == pid && h.procs[pid].life.Zombie? ==>
              AliveInOs(h, pid) && !Asked(h, pid).1
  {
    PolledKeeps(h);
  }

  lemma SpawnedKeeps(h: Host, child: Option<nat>)
    requires HostInv(h) && (child.Some? ==> child.value !in h.procs)
    ensures var (g, outcome) := SpawnedDaemon(h, child);
            && HostInv(g) && Grows(h, g)
            && (outcome.New? ==> forall p :: p in h.procs && h.procs[p].ours ==> !h.procs[p].life.Running?)
            && (outcome.AlreadyStarting? ==> outcome.pid in h.procs && h.procs[outcome.pid].life.Running?)
  {
    PolledKeeps(h);
  }

  lemma HostKeeps(h: Host, c: Caller, chance: Chance)
    requires HostInv(h) && (chance.child.Some? ==> chance.child.value !in h.procs)
    ensures HostInv(HostAfter(h, c, chance)) && Grows(h, HostAfter(h, c, chance))
  {
    hide HostInv, Polled, Asked, SpawnedDaemon;
    match c
    case CheckPrevious(pid) => AskedMeans(h, pid);
    case AwaitExit(pid, _) => AskedMeans(h, pid);
    case CheckBeforeStart(_, pid) => AskedMeans(h, pid);
    case Spawn(_) => SpawnedKeeps(h, chance.child);
    case CheckAnnounced(_, pid) => AskedMeans(h, pid);
    case CheckSlot(_) => PolledKeeps(h);
    case _ =>
  }

  lemma GrowsKeeps(h: Host, g: Host, c: Caller)
    requires CallerInv(h, c) && Grows(h, g)
    ensures CallerInv(g, c)
  {
    assert forall p :: p in h.procs && !h.procs[p].life.Running? ==> HasExited(g, p);
  }

  /** The step of the caller itself: its new place is right for the host it leaves behind. */
  lemma CallerKeeps(h: Host, json: Option<nat>, c: Caller, chance: Chance)
    requires HostInv(h) && CallerInv(h, c) && (chance.child.Some? ==> chance.child.value !in h.procs)
    ensures CallerInv(HostAfter(h, c, chance), CallerAfter(h, json, c, chance))
  {
    hide Polled, Asked, SpawnedDaemon;
    HostKeeps(h, c, chance);
    var g := HostAfter(h, c, chance);
    match c
    case CheckPrevious(pid) => AskedMeans(h, pid);
    case AwaitExit(pid, forced) =>
      AskedMeans(h, pid);
      if !Asked(h, pid).1 { assert HasExited(h, pid); GrowsKeeps(h, g, ReadStale(pid)); }
    case CheckBeforeStart(next, pid) => GrowsKeeps(h, g, Spawn(next));
    case Spawn(next) => if next.Restart? { GrowsKeeps(h, g, ReadAnnounced(next.previous)); }
    case CheckAnnounced(prior, pid) => GrowsKeeps(h, g, c);
    case CheckSlot(prior) => GrowsKeeps(h, g, ReadAnnounced(prior));
    case _ =>
  }

  lemma SystemKeeps(w: World, s: Step)
    requires WorldInv(w) && Possible(w, s) && !s.Go?
    ensures HostInv(Apply(w, s).host) && Grows(w.host, Apply(w, s).host)
  {
  }

  lemma StepInv(w: World, s: Step)
    requires WorldInv(w) && Possible(w, s)
    ensures WorldInv(Apply(w, s)) && Grows(w.host, Apply(w, s).host)
  {
    hide HostInv, CallerInv, Grows, HostAfter, CallerAfter;
    var v := Apply(w, s);
    if s.Go? {
      HostKeeps(w.host, w.callers[s.who], s.chance);
      CallerKeeps(w.host, w.json, w.callers[s.who], s.chance);
    } else {
      SystemKeeps(w, s);
    }
    forall i | 0 <= i < |v.callers| ensures CallerInv(v.host, v.callers[i]) {
      if v.callers[i] == w.callers[i] {
        GrowsKeeps(w.host, v.host, w.callers[i]);
      } else if s.Begin? {
        EntryInv(v.host, v.callers[i]);
      }
    }
  }

  lemma EntryInv(h: Host, c: Caller)
    requires IsEntry(c)
    ensures CallerInv(h, c)
  {
  }

  // ---- whole runs ---------------------------------------------------------------------

  /** The app has just started: nothing spawned, every caller idle, any other processes about. */
  ghost predicate Launched(w: World) {
    && w.host.slot.None? && (forall p :: p in w.host.procs ==> !w.host.procs[p].ours)
    && forall i :: 0 <= i < |w.callers| ==> w.callers[i].Idle?
  }

  ghost predicate IsRun(w: World, steps: seq<Step>)
    decreases |steps|
  {
    steps == [] || (Possible(w, steps[0]) && IsRun(Apply(w, steps[0]), steps[1..]))
  }

  function After(w: World, steps: seq<Step>): World
    requires IsRun(w, steps)
    decreases |steps|
  {
    if steps == [] then w else After(Apply(w, steps[0]), steps[1..])
  }

  lemma {:induction false} RunInv(w: World, steps: seq<Step>)
    requires WorldInv(w) && IsRun(w, steps)
    ensures WorldInv(After(w, steps))
    decreases |steps|
  {
    hide WorldInv, Apply, Possible, Grows;
    if steps != [] {
      StepInv(w, steps[0]);
      RunInv(Apply(w, steps[0]), steps[1..]);
    }
  }

  /**
   * However callers interleave and whenever processes exit, at most one daemon the app spawned
   * runs, and it is the one in the slot.
   */
  lemma OneDaemon(w: World, steps: seq<Step>, p: nat)
    requires Launched(w) && IsRun(w, steps)
    ensures var h := After(w, steps).host;
            p in h.procs && h.procs[p].ours && h.procs[p].life.Running? ==> h.slot == Some(Spawned(p, None))
  {
    RunInv(w, steps);
  }

  /**
   * A daemon is spawned only while no other of the app's runs; and the one a restart spawns, only
   * after the daemon that was running when the restart began has exited.
   */
  lemma RestartWaitsForExit(w: World, steps: seq<Step>, s: Step, p: nat)
    requires Launched(w) && IsRun(w, steps) && Possible(After(w, steps), s) && s.Go?
    requires p in Apply(After(w, steps), s).host.procs && p !in After(w, steps).host.procs
    ensures var v := After(w, steps);
            && v.callers[s.who].Spawn?
            && (forall q :: q in v.host.procs && v.host.procs[q].ours ==> !v.host.procs[q].life.Running?)
            && (v.callers[s.who].next.Restart? && v.callers[s.who].next.previous.Some? ==>
                  HasExited(v.host, v.callers[s.who].next.previous.value))
  {
    hide IsRun, After, HostInv, Grows;
    LaunchedInv(w);
    RunInv(w, steps);
    var v := After(w, steps);
    if v.callers[s.who].Spawn? { SpawnedKeeps(v.host, s.chance.child); }
    assert CallerInv(v.host, v.callers[s.who]);
  }

  lemma LaunchedInv(w: World)
    requires Launched(w)
    ensures WorldInv(w)
  {
  }

  /**
   * `Ready` names a daemon that answers as alive and is not the one the restart replaced, which has
   * exited; `Exited` carries the exit code of the daemon in the slot; `StillStarting` and `Started`
   * mean that daemon runs; `AlreadyRunning` and `NotStopped` name a process that answers as alive; and
   * `SpawnError` means that none of the app's runs.
   */
  ghost predicate OutcomeHolds(h: Host, outcome: Outcome) {
    match outcome
    case AlreadyRunning(pid) => Answers(h, pid)
    case NotStopped(pid) => Answers(h, pid)
    case SpawnError => forall p :: p in h.procs && h.procs[p].ours ==> !h.procs[p].life.Running?
    case Ready(pid, prior) =>
      Some(pid) != prior && OldExited(h, prior) && Answers(h, pid)
    case Exited(code) =>
      h.slot.Some? && h.slot.value.pid in h.procs && h.procs[h.slot.value.pid].life == Gone(code)
    case StillStarting =>
      h.slot.Some? && h.slot.value.pid in h.procs && h.procs[h.slot.value.pid].life.Running?
    case Started(pid) => h.slot == Some(Spawned(pid, None)) && pid in h.procs && h.procs[pid].life.Running?
    case TimedOut => h.slot.None?
    case ForceFailed => true
  }

  /** A process that is there and not gone; the app's own has to be running. */
  ghost predicate Answers(h: Host, pid: nat) {
    && pid in h.procs && !h.procs[pid].life.Gone?
    && (h.slot.Some? && h.slot.value.pid == pid ==> h.procs[pid].life.Running?)
  }

  /** Whatever a caller reports is true in the step that reports it. */
  lemma OutcomesAreTrue(w: World, steps: seq<Step>, s: Step)
    requires Launched(w) && IsRun(w, steps) && Possible(After(w, steps), s) && s.Go?
    requires !After(w, steps).callers[s.who].Done? && Apply(After(w, steps), s).callers[s.who].Done?
    ensures OutcomeHolds(Apply(After(w, steps), s).host, Apply(After(w, steps), s).callers[s.who].outcome)
  {
    hide OutcomeHolds, HostInv, IsRun, After, CallerInv, HostAfter, CallerAfter, Launched;
    LaunchedInv(w);
    RunInv(w, steps);
    var v := After(w, steps);
    OutcomeIsTrue(v.host, v.json, v.callers[s.who], s.chance);
  }

  lemma OutcomeIsTrue(h: Host, json: Option<nat>, c: Caller, chance: Chance)
    requires HostInv(h) && CallerInv(h, c) && (chance.child.Some? ==> chance.child.value !in h.procs)
    requires !c.Done? && CallerAfter(h, json, c, chance).Done?
    ensures OutcomeHolds(HostAfter(h, c, chance), CallerAfter(h, json, c, chance).outcome)
  {
    CallerKeeps(h, json, c, chance);
    PolledKeeps(h);
  }

  // ---- what each caller decides -------------------------------------------------------

  /** What a caller's step sees and changes. */
  datatype Local = Local(host: Host, json: Option<nat>, caller: Caller)

  function Take(l: Local, chance: Chance): Local {
    Local(
      HostAfter(l.host, l.caller, chance), if l.caller.DropStale? then None else l.json,
      CallerAfter(l.host, l.json, l.caller, chance))
  }

  function LocalOf(w: World, who: nat): Local
    requires who < |w.callers|
  {
    Local(w.host, w.json, w.callers[who])
  }

  lemma TakeIsGo(w: World, who: nat, chance: Chance)
    requires Possible(w, Go(who, chance))
    ensures LocalOf(Apply(w, Go(who, chance)), who) == Take(LocalOf(w, who), chance)
  {
  }

  lemma AskedAnswers(h: Host, pid: nat)
    requires HostInv(h)
    ensures Asked(h, pid).1 <==> Answers(h, pid)
    ensures HostInv(Asked(h, pid).0) && Grows(h, Asked(h, pid).0)
  {
    AskedMeans(h, pid);
  }

  ghost predicate NoneOfOursRuns(h: Host) { forall p :: p in h.procs && h.procs[p].ours ==> !h.procs[p].life.Running? }

  /** Where a caller goes once its daemon is started. */
  function Onward(next: Then, pid: nat): Caller {
    match next case Reply => Done(Started(pid)) case Restart(previous) => ReadAnnounced(previous)
  }

  /** The read and check before a start: it goes on to spawn exactly when daemon.json names nothing that answers. */
  lemma StartDecides(l: Local, next: Then, x: Chance, y: Chance)
    requires HostInv(l.host) && l.caller == ReadBeforeStart(next)
    ensures var read := Take(l, x);
            if l.json.None? then read == l.(caller := Spawn(next))
            else
              var checked := Take(read, y);
              checked.caller ==
                if Answers(l.host, l.json.value) then Done(AlreadyRunning(l.json.value)) else Spawn(next)
  {
    hide Asked;
    if l.json.Some? { AskedAnswers(l.host, l.json.value); }
  }

  /** A spawn makes a daemon, and puts it in the slot, exactly when none of the app's runs and the system obliges. */
  lemma SpawnDecides(l: Local, next: Then, x: Chance)
    requires HostInv(l.host) && l.caller == Spawn(next) && (x.child.Some? ==> x.child.value !in l.host.procs)
    ensures var spawned := Take(l, x);
            && (NoneOfOursRuns(l.host) && x.child.Some? ==>
                  && spawned.caller == Onward(next, x.child.value)
                  && spawned.host.slot == Some(Spawned(x.child.value, None)) && x.child.value in spawned.host.procs
                  && spawned.host.procs[x.child.value] == Process(true, Running))
            && (NoneOfOursRuns(l.host) && x.child.None? ==> spawned.caller == Done(SpawnError))
            && (!NoneOfOursRuns(l.host) ==>
                  && spawned.host == l.host && l.host.slot.Some?
                  && spawned.caller == Onward(next, l.host.slot.value.pid))
  {
  }

  /** A restart stops the daemon that daemon.json names exactly when it answers, and starts at once otherwise. */
  lemma RestartDecides(l: Local, x: Chance, y: Chance, z: Chance)
    requires HostInv(l.host) && l.caller == ReadPrevious
    ensures var read := Take(l, x);
            if l.json.None? then read == l.(caller := ReadBeforeStart(Restart(None)))
            else
              var checked := Take(read, y);
              if !Answers(l.host, l.json.value) then checked.caller == ReadBeforeStart(Restart(None))
              else checked.caller == Stop(l.json.value) && Take(checked, z).caller == AwaitExit(l.json.value, false)
  {
    hide Asked;
    if l.json.Some? { AskedAnswers(l.host, l.json.value); }
  }

  /**
   * The wait for the previous daemon goes on while it answers and there is time, then it is stopped by
   * force once, then given up; as soon as it has gone its stale announcement, and no other, is dropped
   * and the start begins.
   */
  lemma AwaitDecides(l: Local, pid: nat, forced: bool, x: Chance, y: Chance, z: Chance)
    requires HostInv(l.host) && l.caller == AwaitExit(pid, forced)
    ensures var asked := Take(l, x);
            if Answers(l.host, pid) then
              if !x.expired then asked.caller == AwaitExit(pid, forced)
              else if forced then asked.caller == Done(NotStopped(pid))
              else
                && asked.caller == Force(pid)
                && Take(asked, y).caller == if y.worked then AwaitExit(pid, true) else Done(ForceFailed)
            else
              && asked.caller == ReadStale(pid)
              && var read := Take(asked, y);
              if l.json == Some(pid) then
                && read.caller == DropStale(pid)
                && Take(read, z).json == None && Take(read, z).caller == ReadBeforeStart(Restart(Some(pid)))
              else
                read.json == l.json && read.caller == ReadBeforeStart(Restart(Some(pid)))
  {
    hide Asked;
    AskedAnswers(l.host, pid);
  }

  /**
   * The wait for a new daemon ends at once when daemon.json names one that answers and is not the old
   * one, or when the app's own has exited; otherwise it goes on until time is up.
   */
  lemma WaitDecides(l: Local, prior: Option<nat>, x: Chance, y: Chance)
    requires HostInv(l.host)
    ensures l.caller == ReadAnnounced(prior) ==>
              var read := Take(l, x);
              if l.json.None? || l.json == prior then read == l.(caller := CheckSlot(prior))
              else
                Take(read, y).caller ==
                  if Answers(l.host, l.json.value) then Done(Ready(l.json.value, prior)) else CheckSlot(prior)
    ensures l.caller == CheckSlot(prior) ==>
              Take(l, x).caller ==
                if l.host.slot.None? then (if x.expired then Done(TimedOut) else ReadAnnounced(prior))
                else
                  match l.host.procs[l.host.slot.value.pid].life
                  case Running => if x.expired then Done(StillStarting) else ReadAnnounced(prior)
                  case Zombie(code) => Done(Exited(code))
                  case Gone(code) => Done(Exited(code))
  {
    if l.json.Some? { AskedAnswers(l.host, l.json.value); }
  }
}
