/** The desktop app's hold on the daemon it spawned: one slot behind a lock, asked and refilled by any caller. */
module Sidecar {
  import opened Results

  /** A process runs, then has exited but is not yet waited for, then is gone; the exit code stays the same. */
  datatype Life = Running | Zombie(code: int) | Gone(code: int)

  datatype Process = Process(ours: bool, life: Life)

  /** The spawned daemon: `exit` is remembered once the child has been reaped. */
  datatype Spawned = Spawned(pid: nat, exit: Option<int>)

  datatype Host = Host(procs: map<nat, Process>, slot: Option<Spawned>)

  /** What the slot's child and the processes agree on, and that no other daemon of ours runs. */
  ghost predicate HostInv(h: Host) {
    && (forall p :: p in h.procs && h.procs[p].ours && h.procs[p].life.Running? ==>
          h.slot.Some? && h.slot.value == Spawned(p, None))
    && (h.slot.Some? ==>
          && h.slot.value.pid in h.procs && h.procs[h.slot.value.pid].ours
          && match h.slot.value.exit
             case None => !h.procs[h.slot.value.pid].life.Gone?
             case Some(code) => h.procs[h.slot.value.pid].life == Gone(code))
  }

  // ---- asking the slot ----------------------------------------------------------------

  /** `try_wait` on the child unless its exit is already known; an exited child is reaped. */
  function Polled(h: Host): Host {
    if h.slot.Some? && h.slot.value.exit.None? && h.slot.value.pid in h.procs then
      var p := h.slot.value.pid;
      match h.procs[p].life
      case Zombie(code) => Host(h.procs[p := Process(h.procs[p].ours, Gone(code))], Some(Spawned(p, Some(code))))
      case _ => h
    else h
  }

  /** Signal 0: an exited process answers until its parent has waited for it. */
  predicate AliveInOs(h: Host, pid: nat) { pid in h.procs && !h.procs[pid].life.Gone? }

  /** Whether `pid` is alive, and the host after asking: the slot's child itself, or the system. */
  function Asked(h: Host, pid: nat): (Host, bool) {
    if h.slot.Some? && h.slot.value.pid == pid then
      var g := Polled(h);
      (g, g.slot.Some? && g.slot.value.exit.None?)
    else (h, AliveInOs(h, pid))
  }

  datatype SpawnOutcome = New(pid: nat) | AlreadyStarting(pid: nat) | SpawnFailed

  /** Check and spawn under one lock; `child` is the process the system makes, if it makes one. */
  function SpawnedDaemon(h: Host, child: Option<nat>): (Host, SpawnOutcome) {
    var g := Polled(h);
    if g.slot.Some? && g.slot.value.exit.None? then (g, AlreadyStarting(g.slot.value.pid))
    else
      match child
      case None => (g, SpawnFailed)
      case Some(p) => (Host(g.procs[p := Process(true, Running)], Some(Spawned(p, None))), New(p))
  }

  class Slot {
    var procs: map<nat, Process>
    var held: Option<Spawned>

    function View(): Host
      reads this
    {
      Host(procs, held)
    }

    constructor (procs: map<nat, Process>)
      ensures View() == Host(procs, None)
    {
      this.procs, held := procs, None;
    }

    /** Asks the child once more, unless its end is already known. */
    method Poll() returns (exit: Option<int>)
      requires held.Some? && held.value.pid in procs
      modifies this
      ensures View() == Polled(old(View())) && held.Some? && exit == held.value.exit
    {
      var d := held.value;
      if d.exit.None? {
        match procs[d.pid].life
        case Zombie(code) =>
          procs := procs[d.pid := Process(procs[d.pid].ours, Gone(code))];
          held := Some(Spawned(d.pid, Some(code)));
        case _ =>
      }
      exit := held.value.exit;
    }

    method IsPidAlive(pid: nat) returns (alive: bool)
      requires held.Some? ==> held.value.pid in procs
      modifies this
      ensures (View(), alive) == Asked(old(View()), pid)
    {
      if held.Some? && held.value.pid == pid {
        var exit := Poll();
        return exit.None?;
      }
      return AliveInOs(View(), pid);
    }

    method SpawnDaemon(child: Option<nat>) returns (outcome: SpawnOutcome)
      requires held.Some? ==> held.value.pid in procs
      modifies this
      ensures (View(), outcome) == SpawnedDaemon(old(View()), child)
    {
      if held.Some? {
        var exit := Poll();
        if exit.None? { return AlreadyStarting(held.value.pid); }
      }
      match child
      case None => return SpawnFailed;
      case Some(pid) =>
        procs := procs[pid := Process(true, Running)];
        held := Some(Spawned(pid, None));
        return New(pid);
    }
  }

  // ---- the last lines of stderr -------------------------------------------------------

  const STDERR_TAIL_LINES := 20

  /** Unicode white space. */
  predicate IsSpace(c: char) {
    var n := c as int;
    || 9 <= n <= 13 || n == 0x20 || n == 0x85 || n == 0xA0 || n == 0x1680 || 0x2000 <= n <= 0x200A
    || n == 0x2028 || n == 0x2029 || n == 0x202F || n == 0x205F || n == 0x3000
  }

  /** The twenty-five characters that are white space. */
  lemma SpaceCodes(c: char)
    ensures IsSpace(c) <==> c as int in {
      9, 10, 11, 12, 13, 32, 133, 160, 5760,
      8192, 8193, 8194, 8195, 8196, 8197, 8198, 8199, 8200, 8201, 8202, 8232, 8233, 8239, 8287, 12288}
  {
  }

  function TrimEnd(s: string): string
    decreases |s|
  {
    if s != "" && IsSpace(s[|s| - 1]) then TrimEnd(s[..|s| - 1]) else s
  }

  /** Only white space is cut, and all of it that the line ends in. */
  lemma {:induction false} TrimEndMeans(s: string)
    ensures var t := TrimEnd(s);
      && t <= s && (t == "" || !IsSpace(t[|t| - 1]))
      && forall i :: |t| <= i < |s| ==> IsSpace(s[i])
    decreases |s|
  {
    hide IsSpace;
    if s != "" && IsSpace(s[|s| - 1]) {
      TrimEndMeans(s[..|s| - 1]);
    }
  }

  /** The last `n` lines, or all of them, each without its trailing white space. */
  function LastLines(lines: seq<string>, n: nat): seq<string> {
    var kept := if |lines| <= n then lines else lines[|lines| - n..];
    seq(|kept|, i requires 0 <= i < |kept| => TrimEnd(kept[i]))
  }

  /** What the reader thread does with each line; `seen` is every line read. */
  class Tail {
    var lines: seq<string>
    ghost var seen: seq<string>

    ghost predicate Valid()
      reads this
    {
      lines == LastLines(seen, 20)
    }

    constructor ()
      ensures Valid() && seen == []
    {
      lines, seen := [], [];
    }

    method Push(line: string)
      requires Valid()
      modifies this
      ensures Valid() && seen == old(seen) + [line]
    {
      if |lines| == STDERR_TAIL_LINES { lines := lines[1..]; }
      lines := lines + [TrimEnd(line)];
      seen := seen + [line];
    }

    method ReadAll(stderr: seq<string>)
      requires Valid()
      modifies this
      ensures Valid() && seen == old(seen) + stderr
      ensures |lines| == (if |seen| < 20 then |seen| else 20)
      ensures forall i :: 0 <= i < |lines| ==> lines[i] == TrimEnd(seen[|seen| - |lines| + i])
    {
      for i := 0 to |stderr|
        invariant Valid() && seen == old(seen) + stderr[..i]
      {
        Push(stderr[i]);
      }
    }
  }
}
