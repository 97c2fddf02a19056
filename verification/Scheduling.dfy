/**
 * The process table of kernel/process.c as a transition system: timer ticks, self-exits, and
 * `process_create` cut at every point where the timer may interrupt it.
 */
module Scheduling {

  const MAX_PROCESSES: nat := 64
  const STACK_SIZE: nat := 16384

  datatype Status = Dead | Ready | Running | Sleeping

  /** The registers a context switch saves and loads. */
  datatype Context = Context(rip: nat, cs: nat, rflags: nat, rsp: nat, ss: nat, general: seq<nat>)

  datatype Process = Process(
    pid: nat,
    status: Status,
    context: Context,
    kernelStack: nat,
    stackBase: nat)

  /** How far `process_create` has come, and what it holds in local variables. */
  datatype Creation =
    | Idle
    | Found(slot: nat, entry: nat)
    | Numbered(slot: nat, entry: nat)
    | Reserved(slot: nat, entry: nat)
    | Stacked(slot: nat, entry: nat, stack: nat)
    | Based(slot: nat, entry: nat, stack: nat)
    | Topped(slot: nat, entry: nat, stack: nat)
    | Cleared(slot: nat, entry: nat, stack: nat, stores: nat)
    | Filled(slot: nat, entry: nat, stack: nat)

  /** `creator` is the table index of the process inside `process_create`; `stacks` are the live stack blocks. */
  datatype State = State(
    procs: seq<Process>,
    current: nat,
    nextPid: nat,
    creation: Creation,
    creator: nat,
    stacks: set<nat>,
    kernelCs: nat,
    kernelSs: nat)

  datatype Event =
    | Tick(cpu: Context)
    | Exit
    | Find(slot: nat, entry: nat)
    | Number
    | Reserve
    | Allocate(stack: nat)
    | SetBase
    | SetTop
    | Clear
    | Fill
    | Publish

  const ZERO_CONTEXT: Context := Context(0, 0, 0, 0, 0, [])

  /** The context a process starts with. */
  function StartContext(entry: nat, stack: nat, cs: nat, ss: nat): Context {
    Context(entry, cs, 0x202, StackTop(stack), ss, [])
  }

  /** The same after the first `stores` of the five fields that are set one by one. */
  function Partial(entry: nat, stack: nat, cs: nat, ss: nat, stores: nat): Context {
    Context(if stores > 0 then entry else 0, if stores > 2 then cs else 0, if stores > 4 then 0x202 else 0,
            if stores > 1 then StackTop(stack) else 0, if stores > 3 then ss else 0, [])
  }

  /** The context of a slot after the next of the five stores. */
  function StoreNext(p: Process, c: Creation, cs: nat, ss: nat): Context
    requires c.Cleared?
  {
    match c.stores
    case 0 => p.context.(rip := c.entry)
    case 1 => p.context.(rsp := p.kernelStack)
    case 2 => p.context.(cs := cs)
    case 3 => p.context.(ss := ss)
    case _ => p.context.(rflags := 0x202)
  }

  function StackTop(stack: nat): nat {
    (stack + STACK_SIZE) / 16 * 16
  }

  /** A process starts at its entry point in the kernel's segments, interrupts on, at the aligned top of its stack. */
  lemma StartsAtTop(entry: nat, stack: nat, cs: nat, ss: nat)
    ensures StackTop(stack) % 16 == 0 && stack + 16384 - 16 < StackTop(stack) <= stack + 16384
    ensures StartContext(entry, stack, cs, ss) == Context(entry, cs, 0x202, StackTop(stack), ss, [])
  {
    var q := (stack + 16384) / 16;
    assert StackTop(stack) == 16 * q;
  }

  // The timer interrupt.

  /** The process after its registers were saved. */
  function Saved(p: Process, cpu: Context): Process {
    p.(context := cpu, status := if p.status.Running? then Ready else p.status)
  }

  /** The first ready slot at or after `from` in cyclic order, among the next `n`; `None` as 64. */
  function NextReady(procs: seq<Process>, from: nat, n: nat): (r: nat)
    requires |procs| == MAX_PROCESSES && from < MAX_PROCESSES
    ensures r <= MAX_PROCESSES && (r < MAX_PROCESSES ==> procs[r].status.Ready?)
    decreases n
  {
    if n == 0 then MAX_PROCESSES
    else if procs[from].status.Ready? then from
    else NextReady(procs, (from + 1) % MAX_PROCESSES, n - 1)
  }

  /** A dead process that is not current loses its stack. */
  function Reaped(p: Process, keep: bool): Process {
    if !keep && p.status.Dead? && p.stackBase != 0 then p.(stackBase := 0, kernelStack := 0) else p
  }

  predicate Reaps(procs: seq<Process>, i: nat, current: nat) {
    1 <= i < |procs| && i != current && procs[i].status.Dead? && procs[i].stackBase != 0
  }

  function Chosen(s: State, cpu: Context): (next: nat)
    requires |s.procs| == MAX_PROCESSES && s.current < MAX_PROCESSES
    ensures next < MAX_PROCESSES
  {
    var saved := s.procs[s.current := Saved(s.procs[s.current], cpu)];
    var r := NextReady(saved, (s.current + 1) % MAX_PROCESSES, MAX_PROCESSES);
    if r == MAX_PROCESSES then 0 else r
  }

  /** The table after saving, choosing and marking, before dead stacks are given back. */
  function Switched(s: State, cpu: Context): (procs: seq<Process>)
    requires |s.procs| == MAX_PROCESSES && s.current < MAX_PROCESSES
    ensures |procs| == MAX_PROCESSES
  {
    var saved := s.procs[s.current := Saved(s.procs[s.current], cpu)];
    var next := Chosen(s, cpu);
    saved[next := saved[next].(status := Running)]
  }

  /** The stacks a tick gives back. */
  ghost function Freed(s: State, cpu: Context): set<nat>
    requires |s.procs| == MAX_PROCESSES && s.current < MAX_PROCESSES
  {
    var procs := Switched(s, cpu);
    set i | 1 <= i < |procs| && Reaps(procs, i, Chosen(s, cpu)) :: procs[i].stackBase
  }

  ghost function TickStep(s: State, cpu: Context): (s': State)
    requires |s.procs| == MAX_PROCESSES && s.current < MAX_PROCESSES
    ensures |s'.procs| == MAX_PROCESSES
  {
    var procs, next := Switched(s, cpu), Chosen(s, cpu);
    s.(procs := seq(MAX_PROCESSES, i requires 0 <= i < MAX_PROCESSES => Reaped(procs[i], i == 0 || i == next)),
       current := next,
       stacks := s.stacks - Freed(s, cpu))
  }

  // All steps.

  ghost predicate Enabled(s: State, e: Event) {
    && |s.procs| == MAX_PROCESSES && s.current < MAX_PROCESSES
    && var c := s.creation;
       var running := s.procs[s.current].status.Running?;
       var creating := running && s.creator == s.current && (!c.Idle? ==> c.slot < MAX_PROCESSES);
    match e
    case Tick(_) => true
    case Exit => running && s.current != 0 && (c.Idle? || s.creator != s.current)
    case Find(slot, _) => running && c.Idle? && 1 <= slot < MAX_PROCESSES && s.procs[slot].status.Dead?
    case Number => creating && c.Found?
    case Reserve => creating && c.Numbered?
    case Allocate(stack) => creating && c.Reserved? && stack !in s.stacks
    case SetBase => creating && c.Stacked?
    case SetTop => creating && c.Based?
    case Clear => creating && c.Topped?
    case Fill => creating && c.Cleared?
    case Publish => creating && c.Filled?
  }

  ghost function Step(s: State, e: Event): (s': State)
    requires Enabled(s, e)
    ensures |s'.procs| == MAX_PROCESSES
  {
    var c := s.creation;
    match e
    case Tick(cpu) => TickStep(s, cpu)
    case Exit => s.(procs := s.procs[s.current := s.procs[s.current].(status := Dead)])
    case Find(slot, entry) => s.(creation := Found(slot, entry), creator := s.current)
    case Number => s.(procs := s.procs[c.slot := s.procs[c.slot].(pid := s.nextPid)], nextPid := s.nextPid + 1,
      creation := Numbered(c.slot, c.entry))
    case Reserve => s.(procs := s.procs[c.slot := s.procs[c.slot].(status := Sleeping)],
      creation := Reserved(c.slot, c.entry))
    case Allocate(stack) =>
      if stack == 0 then s.(procs := s.procs[c.slot := s.procs[c.slot].(status := Dead)], creation := Idle)
      else s.(stacks := s.stacks + {stack}, creation := Stacked(c.slot, c.entry, stack))
    case SetBase => s.(procs := s.procs[c.slot := s.procs[c.slot].(stackBase := c.stack)],
      creation := Based(c.slot, c.entry, c.stack))
    case SetTop => s.(procs := s.procs[c.slot := s.procs[c.slot].(kernelStack := StackTop(c.stack))],
      creation := Topped(c.slot, c.entry, c.stack))
    case Clear => s.(procs := s.procs[c.slot := s.procs[c.slot].(context := ZERO_CONTEXT)],
      creation := Cleared(c.slot, c.entry, c.stack, 0))
    case Fill =>
      var p := s.procs[c.slot];
      s.(procs := s.procs[c.slot := p.(context := StoreNext(p, c, s.kernelCs, s.kernelSs))],
         creation := if c.stores < 4 then c.(stores := c.stores + 1) else Filled(c.slot, c.entry, c.stack))
    case Publish => s.(procs := s.procs[c.slot := s.procs[c.slot].(status := Ready)], creation := Idle)
  }

  // The invariant.

  /** The slot a creation in progress works on. */
  ghost predicate Building(s: State, i: nat) {
    !s.creation.Idle? && s.creation.slot == i
  }

  /** What `process_create` has established when it was interrupted. */
  ghost predicate CreationOk(s: State)
    requires |s.procs| == MAX_PROCESSES
  {
    var c := s.creation;
    c.Idle? ||
    (&& 1 <= c.slot < MAX_PROCESSES && s.creator < MAX_PROCESSES && s.creator != c.slot && c.slot != s.current
     && (s.procs[s.creator].status.Running? || s.procs[s.creator].status.Ready?)
     && SlotOk(s, s.procs[c.slot], c))
  }

  /** What has been written to the slot so far. */
  ghost predicate SlotOk(s: State, p: Process, c: Creation)
    requires !c.Idle?
  {
    && (c.Found? || p.pid != 0)
    && (c.Found? || c.Numbered? ==> p.status.Dead? && p.stackBase == 0)
    && (!c.Found? && !c.Numbered? ==> p.status.Sleeping?)
    && (c.Reserved? || c.Stacked? ==> p.stackBase == 0)
    && (c.Stacked? ==> c.stack != 0 && c.stack in s.stacks)
    && (c.Based? || c.Topped? || c.Cleared? || c.Filled? ==> c.stack != 0 && p.stackBase == c.stack)
    && (c.Topped? || c.Cleared? || c.Filled? ==> p.kernelStack == StackTop(c.stack))
    && (c.Cleared? ==> c.stores < 5 && p.context == Partial(c.entry, c.stack, s.kernelCs, s.kernelSs, c.stores))
    && (c.Filled? ==> p.context == StartContext(c.entry, c.stack, s.kernelCs, s.kernelSs))
  }

  /** A stack held only in a local variable of `process_create`. */
  ghost predicate Pending(s: State, stack: nat) {
    s.creation.Stacked? && s.creation.stack == stack
  }

  /** The statuses: only the current slot runs, only slots being created sleep, slot 0 is always alive. */
  ghost predicate StatusOk(s: State)
    requires |s.procs| == MAX_PROCESSES
  {
    && s.current < MAX_PROCESSES
    && (s.procs[s.current].status.Running? || (s.current != 0 && s.procs[s.current].status.Dead?))
    && (forall i :: 0 <= i < MAX_PROCESSES && s.procs[i].status.Running? ==> i == s.current)
    && (forall i :: 0 <= i < MAX_PROCESSES && s.procs[i].status.Sleeping? ==> Building(s, i))
    && (s.procs[0].status.Ready? || s.procs[0].status.Running?)
  }

  ghost predicate Recorded(procs: seq<Process>, stack: nat) {
    exists i :: 0 <= i < |procs| && procs[i].stackBase == stack
  }

  /** Every live stack is recorded or pending: none is lost. */
  ghost predicate NoneLost(s: State) {
    forall k :: k in s.stacks ==> Pending(s, k) || Recorded(s.procs, k)
  }

  /** Stacks: every one recorded is live and recorded once, and non-current dead slots have none. */
  ghost predicate StacksOk(s: State)
    requires |s.procs| == MAX_PROCESSES
  {
    && 0 !in s.stacks
    && s.procs[0].stackBase == 0
    && (forall i :: 0 <= i < MAX_PROCESSES && s.procs[i].stackBase != 0 ==>
          s.procs[i].stackBase in s.stacks && !Pending(s, s.procs[i].stackBase))
    && (forall i, j :: 0 <= i < j < MAX_PROCESSES && s.procs[i].stackBase != 0 ==>
          s.procs[i].stackBase != s.procs[j].stackBase)
    && (forall i :: 1 <= i < MAX_PROCESSES && (s.procs[i].status.Ready? || s.procs[i].status.Running?) ==>
          s.procs[i].stackBase != 0)
    && (forall i :: 0 <= i < MAX_PROCESSES && s.procs[i].status.Dead? && i != s.current ==> s.procs[i].stackBase == 0)
  }

  /** Identifiers: none is used twice, and only the kernel's own process has number 0 while alive. */
  ghost predicate PidsOk(s: State)
    requires |s.procs| == MAX_PROCESSES
  {
    && s.nextPid >= 1 && s.procs[0].pid == 0
    && (forall i :: 0 <= i < MAX_PROCESSES ==> s.procs[i].pid < s.nextPid)
    && (forall i, j :: 0 <= i < j < MAX_PROCESSES && s.procs[i].pid == s.procs[j].pid ==> s.procs[j].pid == 0)
    && (forall i :: 1 <= i < MAX_PROCESSES && s.procs[i].pid == 0 ==> s.procs[i].status.Dead?)
  }

  ghost predicate Inv(s: State) {
    |s.procs| == MAX_PROCESSES && StatusOk(s) && StacksOk(s) && NoneLost(s) && PidsOk(s) && CreationOk(s)
  }

  // Steps other than ticks.

  lemma NoneLostSame(s: State, s': State)
    requires NoneLost(s) && s'.stacks == s.stacks && |s'.procs| == |s.procs|
    requires forall i :: 0 <= i < |s.procs| ==> s'.procs[i].stackBase == s.procs[i].stackBase
    requires forall k :: Pending(s, k) ==> Pending(s', k) || Recorded(s'.procs, k)
    ensures NoneLost(s')
  {
    forall k | k in s'.stacks ensures Pending(s', k) || Recorded(s'.procs, k) {
      if Recorded(s.procs, k) {
        var i :| 0 <= i < |s.procs| && s.procs[i].stackBase == k;
        assert s'.procs[i].stackBase == k;
      }
    }
  }

  lemma ExitKeeps(s: State)
    requires Inv(s) && Enabled(s, Exit)
    ensures Inv(Step(s, Exit))
  {
    hide NoneLost, Recorded;
    NoneLostSame(s, Step(s, Exit));
  }

  lemma FindKeeps(s: State, slot: nat, entry: nat)
    requires Inv(s) && Enabled(s, Find(slot, entry))
    ensures Inv(Step(s, Find(slot, entry)))
  {
    hide NoneLost, Recorded;
    NoneLostSame(s, Step(s, Find(slot, entry)));
  }

  lemma NumberKeeps(s: State)
    requires Inv(s) && Enabled(s, Number)
    ensures Inv(Step(s, Number))
  {
    hide NoneLost, Recorded;
    NoneLostSame(s, Step(s, Number));
  }

  lemma ReserveKeeps(s: State)
    requires Inv(s) && Enabled(s, Reserve)
    ensures Inv(Step(s, Reserve))
  {
    hide NoneLost, Recorded;
    NoneLostSame(s, Step(s, Reserve));
  }

  lemma SetTopKeeps(s: State)
    requires Inv(s) && Enabled(s, SetTop)
    ensures Inv(Step(s, SetTop))
  {
    hide NoneLost, Recorded;
    NoneLostSame(s, Step(s, SetTop));
  }

  lemma ClearKeeps(s: State)
    requires Inv(s) && Enabled(s, Clear)
    ensures Inv(Step(s, Clear))
  {
    hide NoneLost, Recorded;
    NoneLostSame(s, Step(s, Clear));
  }

  lemma FillKeeps(s: State)
    requires Inv(s) && Enabled(s, Fill)
    ensures Inv(Step(s, Fill))
  {
    hide NoneLost, Recorded;
    NoneLostSame(s, Step(s, Fill));
  }

  lemma PublishKeeps(s: State)
    requires Inv(s) && Enabled(s, Publish)
    ensures Inv(Step(s, Publish))
  {
    hide NoneLost, Recorded;
    NoneLostSame(s, Step(s, Publish));
  }

  lemma AllocateKeeps(s: State, stack: nat)
    requires Inv(s) && Enabled(s, Allocate(stack))
    ensures Inv(Step(s, Allocate(stack)))
  {
    var s' := Step(s, Allocate(stack));
    if stack == 0 {
      hide NoneLost, Recorded;
      NoneLostSame(s, s');
    } else {
      hide TickStep, StatusOk, StacksOk, PidsOk;
      assert s'.procs == s.procs;
      StackPending(s, s', stack);
    }
  }

  /** The stack `kmalloc` gave is held in a local variable. */
  lemma StackPending(s: State, s': State, stack: nat)
    requires Inv(s) && s.creation.Reserved? && stack !in s.stacks && stack != 0 && s.creation.slot < MAX_PROCESSES
    requires s' == s.(stacks := s.stacks + {stack}, creation := Stacked(s.creation.slot, s.creation.entry, stack))
    ensures StatusOk(s') && StacksOk(s') && PidsOk(s')
  {
    hide NoneLost, Recorded;
  }

  lemma SetBaseKeeps(s: State)
    requires Inv(s) && Enabled(s, SetBase)
    ensures Inv(Step(s, SetBase))
  {
    hide Recorded;
    SetBaseRecords(s);
  }

  /** The stack leaves the local variable for the table. */
  lemma SetBaseRecords(s: State)
    requires Inv(s) && Enabled(s, SetBase)
    ensures NoneLost(Step(s, SetBase))
  {
    var s' := Step(s, SetBase);
    var c := s.creation;
    forall k | k in s'.stacks ensures Recorded(s'.procs, k) {
      if k == c.stack {
        assert s'.procs[c.slot].stackBase == k;
      } else {
        var i :| 0 <= i < |s.procs| && s.procs[i].stackBase == k;
        assert s'.procs[i].stackBase == k;
      }
    }
  }

  // Ticks.

  /** How many steps around the table lead from slot `a` to slot `b`. */
  function Dist(a: nat, b: nat): int {
    if a <= b then b - a else b + MAX_PROCESSES - a
  }

  /** The search finds the ready slot nearest to where it starts. */
  lemma {:induction false} NextReadyNearest(procs: seq<Process>, from: nat, n: nat, j: nat)
    requires |procs| == MAX_PROCESSES && from < MAX_PROCESSES && j < MAX_PROCESSES
    requires procs[j].status.Ready? && Dist(from, j) < n
    ensures NextReady(procs, from, n) < MAX_PROCESSES
    ensures Dist(from, NextReady(procs, from, n)) <= Dist(from, j)
    decreases n
  {
    if !procs[from].status.Ready? {
      var from' := (from + 1) % MAX_PROCESSES;
      assert Dist(from', j) == Dist(from, j) - 1;
      NextReadyNearest(procs, from', n - 1, j);
    }
  }

  ghost function SavedTable(s: State, cpu: Context): seq<Process>
    requires s.current < |s.procs|
  {
    s.procs[s.current := Saved(s.procs[s.current], cpu)]
  }

  /** A tick always finds a ready slot, so the fallback to slot 0 is never taken. */
  lemma FallbackNeverNeeded(s: State, cpu: Context)
    requires Inv(s)
    ensures NextReady(SavedTable(s, cpu), (s.current + 1) % MAX_PROCESSES, MAX_PROCESSES) < MAX_PROCESSES
    ensures SavedTable(s, cpu)[Chosen(s, cpu)].status.Ready?
    ensures Chosen(s, cpu) == NextReady(SavedTable(s, cpu), (s.current + 1) % MAX_PROCESSES, MAX_PROCESSES)
  {
    hide StacksOk, NoneLost, PidsOk, CreationOk;
    NextReadyNearest(SavedTable(s, cpu), (s.current + 1) % MAX_PROCESSES, MAX_PROCESSES, 0);
  }

  lemma NearestAfter(procs: seq<Process>, current: nat, j: nat)
    requires |procs| == MAX_PROCESSES && current < MAX_PROCESSES && j < MAX_PROCESSES && j != current
    requires procs[j].status.Ready?
    ensures var r := NextReady(procs, (current + 1) % MAX_PROCESSES, MAX_PROCESSES);
            r < MAX_PROCESSES && 1 <= Dist(current, r) <= Dist(current, j)
  {
    var from := (current + 1) % MAX_PROCESSES;
    DistNext(current, j);
    hide NextReady, Dist;
    NextReadyNearest(procs, from, MAX_PROCESSES, j);
    DistNext(current, NextReady(procs, from, MAX_PROCESSES));
  }

  /** The chosen slot is at least as near as any other ready one. */
  lemma ChosenNearest(s: State, cpu: Context, j: nat)
    requires Inv(s) && j < MAX_PROCESSES && SavedTable(s, cpu)[j].status.Ready? && j != s.current
    ensures 1 <= Dist(s.current, Chosen(s, cpu)) <= Dist(s.current, j)
  {
    FallbackNeverNeeded(s, cpu);
    hide Inv, NextReady, Chosen, Dist, SavedTable;
    NearestAfter(SavedTable(s, cpu), s.current, j);
  }

  lemma DistNext(a: nat, b: nat)
    requires a < MAX_PROCESSES && b < MAX_PROCESSES
    ensures Dist((a + 1) % MAX_PROCESSES, b) == if a == b then MAX_PROCESSES - 1 else Dist(a, b) - 1
    ensures 0 <= Dist(a, b) < MAX_PROCESSES && (Dist(a, b) == 0 <==> a == b)
  {
  }

  /** What a tick does to slot `i`. */
  lemma TickAt(s: State, cpu: Context, i: nat)
    requires Inv(s) && i < MAX_PROCESSES
    ensures var p, p', next := s.procs[i], TickStep(s, cpu).procs[i], Chosen(s, cpu);
            && p'.pid == p.pid
            && p'.context == (if i == s.current then cpu else p.context)
            && p'.status == (if i == next then Running else if i == s.current
               && p.status.Running? then Ready else p.status)
            && p'.stackBase == (if i == s.current && p.status.Dead? then 0 else p.stackBase)
            && (p'.stackBase != 0 ==> p'.kernelStack == p.kernelStack)
    ensures i == Chosen(s, cpu) ==> s.procs[i].status.Ready? || (i == s.current && s.procs[i].status.Running?)
  {
    FallbackNeverNeeded(s, cpu);
    hide NextReady, NoneLost, PidsOk, CreationOk;
  }

  /** A tick gives back the stack of the process that just exited, and nothing else. */
  lemma FreedStacks(s: State, cpu: Context)
    requires Inv(s)
    ensures Freed(s, cpu) ==
            if s.procs[s.current].status.Dead?
                && s.procs[s.current].stackBase != 0 then {s.procs[s.current].stackBase} else {}
    ensures Freed(s, cpu) <= s.stacks
  {
    forall i: nat | i < MAX_PROCESSES
      ensures Reaps(Switched(s, cpu), i, Chosen(s, cpu)) <==>
              i == s.current && s.procs[i].status.Dead? && s.procs[i].stackBase != 0
      ensures Switched(s, cpu)[i].stackBase == s.procs[i].stackBase
    {
      ReapsOnlyCurrent(s, cpu, i);
    }
    var base := s.procs[s.current].stackBase;
    hide Switched, Chosen, Reaps, NoneLost, PidsOk, CreationOk;
    var f := Freed(s, cpu);
    forall k | k in f ensures k == base && s.procs[s.current].status.Dead? && base != 0 {
    }
    if s.procs[s.current].status.Dead? && base != 0 {
      assert Switched(s, cpu)[s.current].stackBase in f;
    }
  }

  lemma ReapsOnlyCurrent(s: State, cpu: Context, i: nat)
    requires Inv(s) && i < MAX_PROCESSES
    ensures Reaps(Switched(s, cpu), i, Chosen(s, cpu)) <==>
            i == s.current && s.procs[i].status.Dead? && s.procs[i].stackBase != 0
    ensures Switched(s, cpu)[i].stackBase == s.procs[i].stackBase
  {
    FallbackNeverNeeded(s, cpu);
    hide NextReady, Chosen, NoneLost, PidsOk, CreationOk;
  }

  function StatusAfter(p: Process, chosen: bool, current: bool): Status {
    if chosen then Running else if current && p.status.Running? then Ready else p.status
  }

  function BaseAfter(p: Process, current: bool): nat {
    if current && p.status.Dead? then 0 else p.stackBase
  }

  /** What a tick does to every slot. */
  lemma TickTable(s: State, cpu: Context)
    requires Inv(s)
    ensures Chosen(s, cpu) < MAX_PROCESSES
    ensures var next := Chosen(s, cpu);
            s.procs[next].status.Ready? || (next == s.current && s.procs[next].status.Running?)
    ensures forall i :: 0 <= i < MAX_PROCESSES ==> TickStep(s, cpu).procs[i].pid == s.procs[i].pid
    ensures forall i :: 0 <= i < MAX_PROCESSES ==>
              TickStep(s, cpu).procs[i].context == if i == s.current then cpu else s.procs[i].context
    ensures forall i :: 0 <= i < MAX_PROCESSES ==>
              TickStep(s, cpu).procs[i].status == StatusAfter(s.procs[i], i == Chosen(s, cpu), i == s.current)
    ensures forall i :: 0 <= i < MAX_PROCESSES ==>
              TickStep(s, cpu).procs[i].stackBase == BaseAfter(s.procs[i], i == s.current)
    ensures forall i :: 0 <= i < MAX_PROCESSES && TickStep(s, cpu).procs[i].stackBase != 0 ==>
              TickStep(s, cpu).procs[i].kernelStack == s.procs[i].kernelStack
  {
    TickAt(s, cpu, Chosen(s, cpu));
    forall i: nat | i < MAX_PROCESSES
      ensures TickStep(s, cpu).procs[i].pid == s.procs[i].pid
      ensures TickStep(s, cpu).procs[i].context == if i == s.current then cpu else s.procs[i].context
      ensures TickStep(s, cpu).procs[i].status == StatusAfter(s.procs[i], i == Chosen(s, cpu), i == s.current)
      ensures TickStep(s, cpu).procs[i].stackBase == BaseAfter(s.procs[i], i == s.current)
      ensures TickStep(s, cpu).procs[i].stackBase != 0 ==>
              TickStep(s, cpu).procs[i].kernelStack == s.procs[i].kernelStack
    {
      hide TickStep, Chosen, Inv;
      TickAt(s, cpu, i);
    }
  }

  /** What a tick does to the rest of the state. */
  lemma TickRest(s: State, cpu: Context)
    requires |s.procs| == MAX_PROCESSES && s.current < MAX_PROCESSES
    ensures var s' := TickStep(s, cpu);
            && |s'.procs| == MAX_PROCESSES && s'.current == Chosen(s, cpu)
            && s'.nextPid == s.nextPid && s'.creation == s.creation && s'.creator == s.creator
            && s'.kernelCs == s.kernelCs && s'.kernelSs == s.kernelSs && s'.stacks == s.stacks - Freed(s, cpu)
  {
  }

  lemma TickStatus(s: State, cpu: Context)
    requires Inv(s)
    ensures StatusOk(TickStep(s, cpu))
  {
    TickTable(s, cpu);
    TickRest(s, cpu);
    hide TickStep, Chosen, Freed, StacksOk, NoneLost, PidsOk, CreationOk;
  }

  lemma TickPids(s: State, cpu: Context)
    requires Inv(s)
    ensures PidsOk(TickStep(s, cpu))
  {
    TickTable(s, cpu);
    TickRest(s, cpu);
    hide TickStep, Chosen, Freed, StacksOk, NoneLost, CreationOk;
  }

  lemma TickCreation(s: State, cpu: Context)
    requires Inv(s)
    ensures CreationOk(TickStep(s, cpu))
  {
    TickTable(s, cpu);
    TickRest(s, cpu);
    FreedStacks(s, cpu);
    hide TickStep, Chosen, Freed, NoneLost, PidsOk;
  }

  lemma TickStacks(s: State, cpu: Context)
    requires Inv(s)
    ensures StacksOk(TickStep(s, cpu))
  {
    TickTable(s, cpu);
    TickRest(s, cpu);
    FreedStacks(s, cpu);
    hide TickStep, Chosen, Freed, NoneLost, PidsOk, CreationOk;
  }

  lemma TickNoneLost(s: State, cpu: Context)
    requires Inv(s)
    ensures NoneLost(TickStep(s, cpu))
  {
    TickTable(s, cpu);
    TickRest(s, cpu);
    FreedStacks(s, cpu);
    hide TickStep, Chosen, Freed, PidsOk, CreationOk, StacksOk;
    var s' := TickStep(s, cpu);
    forall k | k in s'.stacks ensures Pending(s', k) || Recorded(s'.procs, k) {
      if !Pending(s, k) {
        var i :| 0 <= i < |s.procs| && s.procs[i].stackBase == k;
        assert s'.procs[i].stackBase == k;
      }
    }
  }

  lemma TickKeeps(s: State, cpu: Context)
    requires Inv(s)
    ensures Inv(TickStep(s, cpu))
  {
    hide TickStep, StatusOk, StacksOk, NoneLost, PidsOk, CreationOk;
    TickStatus(s, cpu);
    TickPids(s, cpu);
    TickStacks(s, cpu);
    TickNoneLost(s, cpu);
    TickCreation(s, cpu);
  }

  /** Every step keeps the invariant. */
  lemma StepKeeps(s: State, e: Event)
    requires Inv(s) && Enabled(s, e)
    ensures Inv(Step(s, e))
  {
    hide Inv, TickStep;
    match e
    case Tick(cpu) => TickKeeps(s, cpu);
    case Exit => ExitKeeps(s);
    case Find(slot, entry) => FindKeeps(s, slot, entry);
    case Number => NumberKeeps(s);
    case Reserve => ReserveKeeps(s);
    case Allocate(stack) => AllocateKeeps(s, stack);
    case SetBase => SetBaseKeeps(s);
    case SetTop => SetTopKeeps(s);
    case Clear => ClearKeeps(s);
    case Fill => FillKeeps(s);
    case Publish => PublishKeeps(s);
  }

  // Runs.

  /** `process_init`: the kernel itself is process 0. */
  ghost predicate Init(s: State) {
    && |s.procs| == MAX_PROCESSES && s.current == 0 && s.nextPid == 1 && s.creation.Idle? && s.stacks == {}
    && s.procs[0].pid == 0 && s.procs[0].status.Running? && s.procs[0].stackBase == 0
    && (forall i :: 1 <= i < MAX_PROCESSES ==>
          s.procs[i].pid == 0 && s.procs[i].status.Dead? && s.procs[i].stackBase == 0)
  }

  /** `states` is what the enabled `events` make of `states[0]`. */
  ghost predicate Run(states: seq<State>, events: seq<Event>) {
    && |states| == |events| + 1 && Init(states[0])
    && forall k :: 0 <= k < |events| ==> Enabled(states[k], events[k]) && states[k + 1] == Step(states[k], events[k])
  }

  lemma RunAt(states: seq<State>, events: seq<Event>, k: nat)
    requires Run(states, events) && k < |events|
    ensures |states| == |events| + 1 && Enabled(states[k], events[k]) && states[k + 1] == Step(states[k], events[k])
  {
  }

  /**
   * Safety of every run: only the current slot runs, only a slot being created sleeps, every ready slot
   * owns a live stack of its own, stacks are neither lost nor freed twice, identifiers are unique.
   */
  lemma {:induction false} RunSafe(states: seq<State>, events: seq<Event>, k: nat)
    requires Run(states, events) && k < |states|
    ensures Inv(states[k])
    decreases k
  {
    if k > 0 {
      RunSafe(states, events, k - 1);
      hide Inv, Init, Step, Enabled;
      StepKeeps(states[k - 1], events[k - 1]);
    } else {
      assert Inv(states[0]);
    }
  }

  // Bounded waiting.

  /** How many of the events from `a` up to `b` are ticks. */
  ghost function Ticks(events: seq<Event>, a: nat, b: nat): nat
    requires b <= |events|
  {
    if b <= a then 0 else Ticks(events, a, b - 1) + if events[b - 1].Tick? then 1 else 0
  }

  /** Slot `j` is ready in every state from `a` to `b`. */
  ghost predicate StaysReady(states: seq<State>, a: nat, b: nat, j: nat) {
    forall k :: a <= k <= b && k < |states| ==> j < |states[k].procs| && states[k].procs[j].status.Ready?
  }

  /** A ready slot that a tick passes over comes nearer; other steps do not move it. */
  lemma WaitStep(s: State, e: Event, j: nat)
    requires Inv(s) && Enabled(s, e) && j < MAX_PROCESSES
    requires s.procs[j].status.Ready? && Step(s, e).procs[j].status.Ready?
    ensures 1 <= Dist(s.current, j) && 1 <= Dist(Step(s, e).current, j)
    ensures Dist(Step(s, e).current, j) <= Dist(s.current, j) - if e.Tick? then 1 else 0
  {
    if e.Tick? {
      TickTable(s, e.cpu);
      TickRest(s, e.cpu);
      ChosenNearest(s, e.cpu, j);
      hide TickStep, Chosen, StacksOk, NoneLost, PidsOk, CreationOk;
      DistNext(s.current, j);
    }
  }

  lemma ReadyIsAway(s: State, j: nat)
    requires Inv(s) && j < MAX_PROCESSES && s.procs[j].status.Ready?
    ensures 1 <= Dist(s.current, j) <= 63
  {
    hide StacksOk, NoneLost, PidsOk, CreationOk;
    DistNext(s.current, j);
  }

  /**
   * Bounded waiting: while slot `j` stays ready, fewer ticks pass than it was steps away, whatever is
   * created or exits meanwhile; so it runs within 63 ticks.
   */
  lemma {:induction false} BoundedWaiting(states: seq<State>, events: seq<Event>, a: nat, b: nat, j: nat)
    requires Run(states, events) && |states| == |events| + 1 && a <= b < |states| && j < MAX_PROCESSES
    requires StaysReady(states, a, b, j)
    ensures 1 <= Dist(states[b].current, j)
    ensures Ticks(events, a, b) + Dist(states[b].current, j) <= Dist(states[a].current, j) <= 63
    decreases b
  {
    hide Run, Inv, Step, Enabled, Dist;
    RunSafe(states, events, a);
    RunSafe(states, events, b);
    ReadyIsAway(states[a], j);
    ReadyIsAway(states[b], j);
    if a < b {
      RunAt(states, events, b - 1);
      RunSafe(states, events, b - 1);
      BoundedWaiting(states, events, a, b - 1, j);
      WaitStep(states[b - 1], events[b - 1], j);
    }
  }

  /** A ready slot is chosen by one of the next 63 ticks. */
  lemma {:induction false} ChosenInTime(states: seq<State>, events: seq<Event>, a: nat, b: nat, j: nat) returns (k: nat)
    requires Run(states, events) && a <= b <= |events| && j < MAX_PROCESSES && a < |states|
    requires |states[a].procs| == MAX_PROCESSES && states[a].procs[j].status.Ready? && Ticks(events, a, b) >= 63
    ensures a <= k < b && events[k].Tick? && k + 1 < |states| && states[k + 1].current == j
    ensures StaysReady(states, a, k, j) && Ticks(events, a, k) < 63
  {
    hide Run, Inv, Step, Enabled, Dist;
    RunSized(states, events, a);
    k := a;
    while k < b
      invariant a <= k <= b && StaysReady(states, a, k, j) && j < |states[k].procs|
      decreases b - k
    {
      RunSafe(states, events, k);
      RunAt(states, events, k);
      RunSized(states, events, k + 1);
      BoundedWaiting(states, events, a, k, j);
      ReadyKeepsContext(states[k], events[k], j);
      if !states[k + 1].procs[j].status.Ready? {
        return;
      }
      k := k + 1;
    }
    BoundedWaiting(states, events, a, k, j);
  }

  // Context preservation.

  /** A ready slot keeps its context until it is chosen. */
  lemma ReadyKeepsContext(s: State, e: Event, j: nat)
    requires Inv(s) && Enabled(s, e) && j < MAX_PROCESSES && s.procs[j].status.Ready?
    ensures Step(s, e).procs[j].context == s.procs[j].context
    ensures Step(s, e).procs[j].status.Ready? || (e.Tick? && Step(s, e).current == j)
  {
    if e.Tick? {
      TickTable(s, e.cpu);
      TickRest(s, e.cpu);
      hide TickStep, Chosen, StacksOk, NoneLost, PidsOk;
    }
  }

  /** What the processor resumes with: the context of the slot the tick chose. */
  ghost function Loaded(s: State): Context
    requires s.current < |s.procs|
  {
    s.procs[s.current].context
  }

  /** From the moment slot `j` is ready with context `c` until a tick chooses it, `c` is what it has. */
  lemma {:induction false} ContextWaits(states: seq<State>, events: seq<Event>, a: nat, b: nat, j: nat, c: Context)
    requires Run(states, events) && a <= b < |states| && j < MAX_PROCESSES && |states[a].procs| == MAX_PROCESSES
    requires states[a].procs[j].status.Ready? && states[a].procs[j].context == c
    requires forall k :: a < k <= b ==> states[k].current != j
    ensures |states[b].procs| == MAX_PROCESSES && states[b].procs[j].status.Ready? && states[b].procs[j].context == c
    decreases b
  {
    if a < b {
      ContextWaits(states, events, a, b - 1, j, c);
      RunSafe(states, events, b - 1);
      ReadyKeepsContext(states[b - 1], events[b - 1], j);
    }
  }

  /**
   * Context preservation: a slot descheduled with registers `c` and not run since resumes with exactly
   * `c`, however many others ran, exited or were created in between, and also when it is chosen again at once.
   */
  lemma ContextPreserved(states: seq<State>, events: seq<Event>, a: nat, b: nat, j: nat)
    requires Run(states, events) && a <= b < |events| && events[a].Tick? && events[b].Tick?
    requires j < MAX_PROCESSES && states[a].current == j
    requires |states[a].procs| == MAX_PROCESSES && states[a].procs[j].status.Running?
    requires (forall k :: a < k <= b ==> states[k].current != j) && states[b + 1].current == j
    ensures j < |states[b + 1].procs| && Loaded(states[b + 1]) == events[a].cpu
  {
    RunSafe(states, events, a);
    RunSafe(states, events, b);
    TickTable(states[a], events[a].cpu);
    TickRest(states[a], events[a].cpu);
    hide TickStep, Chosen, StacksOk, NoneLost, PidsOk, CreationOk;
    if a < b {
      ContextWaits(states, events, a + 1, b, j, events[a].cpu);
      ReadyKeepsContext(states[b], events[b], j);
    }
  }

  /** A process that never ran starts with the context `process_create` gave it. */
  lemma FirstRun(states: seq<State>, events: seq<Event>, a: nat, b: nat, j: nat)
    requires Run(states, events) && a < b < |events| && events[a].Publish? && events[b].Tick?
    requires states[a].creation.Filled? && states[a].creation.slot == j
    requires (forall k :: a < k <= b ==> states[k].current != j) && states[b + 1].current == j
    ensures j < |states[b + 1].procs|
    ensures var c := states[a].creation;
            var x := Loaded(states[b + 1]);
            && x == StartContext(c.entry, c.stack, states[a].kernelCs, states[a].kernelSs)
            && x == Context(c.entry, states[a].kernelCs, 0x202, x.rsp, states[a].kernelSs, [])
            && x.rsp % 16 == 0 && c.stack + 16384 - 16 < x.rsp <= c.stack + 16384
  {
    RunSafe(states, events, a);
    RunSafe(states, events, b);
    var c := states[a].creation;
    ContextWaits(states, events, a + 1, b, j, StartContext(c.entry, c.stack, states[a].kernelCs, states[a].kernelSs));
    StartsAtTop(c.entry, c.stack, states[a].kernelCs, states[a].kernelSs);
    hide TickStep, StacksOk, NoneLost, PidsOk, StartContext;
    ReadyKeepsContext(states[b], events[b], j);
  }

  // Where contexts come from.

  /** Event `a` made slot `j` ready: a tick stopped it, or `process_create` published it. */
  ghost predicate Origin(states: seq<State>, events: seq<Event>, a: nat, j: nat) {
    && a < |events| && a < |states| && j < |states[a].procs|
    && ((events[a].Tick? && states[a].current == j && states[a].procs[j].status.Running?)
        || (events[a].Publish? && states[a].creation.Filled? && states[a].creation.slot == j))
  }

  /** The registers saved by a tick, or those a creation starts with. */
  ghost function OriginContext(states: seq<State>, events: seq<Event>, a: nat): Context
    requires a < |events| && a < |states| && (events[a].Tick? || states[a].creation.Filled?)
  {
    if events[a].Tick? then events[a].cpu
    else
      var c := states[a].creation;
      StartContext(c.entry, c.stack, states[a].kernelCs, states[a].kernelSs)
  }

  /** A step makes a slot ready only with a saved or a complete context. */
  lemma BecomesReady(s: State, e: Event, j: nat)
    requires Inv(s) && Enabled(s, e) && j < MAX_PROCESSES && Step(s, e).procs[j].status.Ready?
    ensures var p := Step(s, e).procs[j];
            || (s.procs[j].status.Ready? && p.context == s.procs[j].context)
            || (e.Tick? && s.current == j && s.procs[j].status.Running? && p.context == e.cpu)
            || (e.Publish? && s.creation.Filled? && s.creation.slot == j
                && p.context == StartContext(s.creation.entry, s.creation.stack, s.kernelCs, s.kernelSs))
  {
    if e.Tick? {
      TickTable(s, e.cpu);
      TickRest(s, e.cpu);
      hide TickStep, Chosen, StacksOk, NoneLost, PidsOk, CreationOk;
    } else {
      hide TickStep, StacksOk, NoneLost, PidsOk;
    }
  }

  lemma RunSized(states: seq<State>, events: seq<Event>, k: nat)
    requires Run(states, events) && k < |states|
    ensures |states[k].procs| == MAX_PROCESSES && states[k].current < MAX_PROCESSES && |states| == |events| + 1
  {
    RunSafe(states, events, k);
  }

  lemma NoneReadyAtFirst(states: seq<State>, events: seq<Event>)
    requires Run(states, events)
    ensures |states| > 0 && forall j :: 0 <= j < |states[0].procs| ==> !states[0].procs[j].status.Ready?
  {
  }

  /**
   * In every state of every run, a ready slot has been ready since a tick stopped it or `process_create`
   * published it, and its context is the one saved or completed then.
   */
  lemma {:induction false} ReadyOrigin(states: seq<State>, events: seq<Event>, k: nat, j: nat) returns (a: nat)
    requires Run(states, events) && k < |states| && j < |states[k].procs| && states[k].procs[j].status.Ready?
    ensures a < k && Origin(states, events, a, j) && StaysReady(states, a + 1, k, j)
    ensures states[k].procs[j].context == OriginContext(states, events, a)
    decreases k
  {
    hide Run, Inv, Step, Enabled, StartContext;
    RunSized(states, events, k);
    NoneReadyAtFirst(states, events);
    RunSafe(states, events, k - 1);
    RunSized(states, events, k - 1);
    RunAt(states, events, k - 1);
    BecomesReady(states[k - 1], events[k - 1], j);
    if Origin(states, events, k - 1, j) && states[k].procs[j].context == OriginContext(states, events, k - 1) {
      a := k - 1;
    } else {
      a := ReadyOrigin(states, events, k - 1, j);
    }
  }

  /**
   * Every resume of every run: the registers loaded are those saved when the slot was last stopped, or its
   * creation context if it never ran. `a == b` is the tick that chooses the slot it stops.
   */
  lemma ResumeOrigin(states: seq<State>, events: seq<Event>, b: nat) returns (a: nat)
    requires Run(states, events) && b < |events| && events[b].Tick?
    ensures b + 1 < |states| && states[b + 1].current < |states[b + 1].procs|
    ensures var j := states[b + 1].current;
            && a <= b && Origin(states, events, a, j) && StaysReady(states, a + 1, b, j)
            && Loaded(states[b + 1]) == OriginContext(states, events, a)
  {
    RunSafe(states, events, b);
    RunAt(states, events, b);
    hide Run;
    var s, cpu := states[b], events[b].cpu;
    TickTable(s, cpu);
    TickRest(s, cpu);
    hide TickStep, Chosen, Inv, StartContext, Enabled;
    var j := states[b + 1].current;
    if s.procs[j].status.Ready? {
      a := ReadyOrigin(states, events, b, j);
      NotCurrent(s, j);
    } else {
      a := b;
    }
  }

  lemma NotCurrent(s: State, j: nat)
    requires Inv(s) && j < MAX_PROCESSES && s.procs[j].status.Ready?
    ensures j != s.current
  {
    hide StacksOk, NoneLost, PidsOk, CreationOk;
  }
}
