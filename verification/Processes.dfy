/** kernel/process.c itself: the loops over the process table, each tied to a step of the transition system. */
module Processes {
  import opened Scheduling
  import Pmm

  const MAX_ALLOCATIONS: nat := 128

  class Scheduler {
    const processes: array<Process>
    /** The frames recorded for each slot. */
    const allocations: array<seq<nat>>
    var current: nat
    var nextPid: nat
    var kernelCs: nat
    var kernelSs: nat
    /** The stack blocks the heap holds for processes. */
    var stacks: set<nat>

    ghost predicate Sized()
      reads `current
    {
      processes.Length == MAX_PROCESSES && allocations.Length == MAX_PROCESSES && current < MAX_PROCESSES
    }

    /** The table as a state of the transition system, between calls of `process_create`. */
    ghost function Now(): State
      reads this, processes
    {
      State(processes[..], current, nextPid, Idle, 0, stacks, kernelCs, kernelSs)
    }

    /** The search of `process_schedule`. */
    method FindReady(from: nat) returns (found: bool, next: nat)
      requires Sized() && from < MAX_PROCESSES
      ensures next < MAX_PROCESSES
      ensures var r := NextReady(processes[..], from, MAX_PROCESSES);
              if found then next == r else r == MAX_PROCESSES
    {
      next := from;
      found := false;
      var i := 0;
      while i < MAX_PROCESSES
        invariant i <= MAX_PROCESSES && next < MAX_PROCESSES
        invariant NextReady(processes[..], next, MAX_PROCESSES - i) == NextReady(processes[..], from, MAX_PROCESSES)
      {
        if processes[next].status.Ready? {
          return true, next;
        }
        next := (next + 1) % MAX_PROCESSES;
        i := i + 1;
      }
    }

    /** The loop that gives the stacks of dead processes back. */
    method ReapDead()
      requires Sized()
      modifies processes, this`stacks
      ensures forall i :: 0 <= i < MAX_PROCESSES ==> processes[i] == Reaped(old(processes[i]), i == 0 || i == current)
      ensures stacks == old(stacks) - (set i | 1 <= i < MAX_PROCESSES
              && Reaps(old(processes[..]), i, current) :: old(processes[..])[i].stackBase)
    {
      ghost var table := processes[..];
      var i := 1;
      while i < MAX_PROCESSES
        invariant 1 <= i <= MAX_PROCESSES
        invariant forall k :: 0 <= k < i ==> processes[k] == Reaped(table[k], k == 0 || k == current)
        invariant forall k :: i <= k < MAX_PROCESSES ==> processes[k] == table[k]
        invariant stacks == old(stacks) - (set k | 1 <= k < i && Reaps(table, k, current) :: table[k].stackBase)
      {
        if i != current && processes[i].status.Dead? && processes[i].stackBase != 0 {
          assert Reaps(table, i, current);
          stacks := stacks - {processes[i].stackBase};
          processes[i] := processes[i].(stackBase := 0, kernelStack := 0);
        }
        i := i + 1;
      }
    }

    /** `process_schedule`: one tick of the transition system; the registers come back as those to resume with. */
    method Schedule(cpu: Context) returns (loaded: Context)
      requires Sized()
      modifies processes, this`current, this`stacks
      ensures Sized() && Now() == TickStep(old(Now()), cpu) && loaded == processes[current].context
    {
      hide NextReady;
      ghost var s := Now();
      processes[current] := processes[current].(context := cpu);
      if processes[current].status.Running? {
        processes[current] := processes[current].(status := Ready);
      }
      assert processes[..] == SavedTable(s, cpu);
      var found, next := FindReady((current + 1) % MAX_PROCESSES);
      if !found {
        next := 0;
      }
      current := next;
      processes[current] := processes[current].(status := Running);
      assert processes[..] == Switched(s, cpu) && current == Chosen(s, cpu);
      loaded := processes[current].context;
      ReapDead();
      assert Now().procs == TickStep(s, cpu).procs;
    }

    /**
     * `process_create` when no tick falls into it: the first dead slot is given the next number and, when the
     * heap has a stack for it, is published with its start context. `stack` is what `kmalloc` answers.
     */
    method Create(entry: nat, stack: nat) returns (pid: nat)
      requires Sized() && Inv(Now()) && processes[current].status.Running? && stack !in stacks
      modifies processes, allocations, this`nextPid, this`stacks
      ensures Sized() && Inv(Now()) && current == old(current)
      ensures pid != 0 <==> stack != 0 && exists i :: 1 <= i < MAX_PROCESSES && old(processes[i]).status.Dead?
      ensures stacks == if pid == 0 then old(stacks) else old(stacks) + {stack}
      ensures pid != 0 ==>
                && pid == old(nextPid) && nextPid == pid + 1
                && (exists i ::
                      && 1 <= i < MAX_PROCESSES && old(processes[i]).status.Dead?
                      && (forall k :: 1 <= k < i ==> !old(processes[k]).status.Dead?)
                      && (forall k :: 0 <= k < MAX_PROCESSES && k != i ==> processes[k] == old(processes[k]))
                      && (forall k :: 0 <= k < MAX_PROCESSES && k != i ==> allocations[k] == old(allocations[k]))
                      && processes[i].pid == pid && processes[i].status.Ready? && processes[i].stackBase == stack
                      && processes[i].kernelStack % 16 == 0
                      && stack + 16384 - 16 < processes[i].kernelStack <= stack + 16384
                      && processes[i].context ==
                         Context(entry, kernelCs, 0x202, processes[i].kernelStack, kernelSs, [])
                      && allocations[i] == [])
      ensures pid == 0 ==>
              forall k :: 0 <= k < MAX_PROCESSES ==> processes[k].(pid := 0) == old(processes[k]).(pid := 0)
    {
      hide Inv, StackTop, StartContext;
      ghost var s := Now();
      NoNullStack(s);
      var i := 1;
      while i < MAX_PROCESSES && !processes[i].status.Dead?
        invariant 1 <= i <= MAX_PROCESSES
        invariant forall k :: 1 <= k < i ==> !processes[k].status.Dead?
      {
        i := i + 1;
      }
      if i == MAX_PROCESSES {
        return 0;
      }
      pid := nextPid;
      Uninterrupted(s, i, entry, stack);
      processes[i] := processes[i].(pid := pid, status := Sleeping);
      nextPid := nextPid + 1;
      allocations[i] := [];
      if stack == 0 {
        processes[i] := processes[i].(status := Dead);
        assert Now() == FailedCreate(s, i);
        return 0;
      }
      stacks := stacks + {stack};
      processes[i] := processes[i].(stackBase := stack, kernelStack := StackTop(stack), context := ZERO_CONTEXT);
      processes[i] := processes[i].(context := StartContext(entry, stack, kernelCs, kernelSs), status := Ready);
      StartsAtTop(entry, stack, kernelCs, kernelSs);
      assert Now() == Created(s, i, entry, stack);
    }

    /** `process_get_current_pid` */
    function CurrentPid(): nat
      requires Sized()
      reads this, processes
    {
      processes[current].pid
    }

    /** The slot a live process number belongs to, as `process_exit` and `process_track_allocation` search for it. */
    method FindLive(pid: nat) returns (i: nat)
      requires Sized()
      ensures i <= MAX_PROCESSES
      ensures i < MAX_PROCESSES ==> processes[i].pid == pid && !processes[i].status.Dead?
      ensures forall k :: 0 <= k < i ==> !(processes[k].pid == pid && !processes[k].status.Dead?)
    {
      i := 0;
      while i < MAX_PROCESSES
        invariant i <= MAX_PROCESSES
        invariant forall k :: 0 <= k < i ==> !(processes[k].pid == pid && !processes[k].status.Dead?)
      {
        if processes[i].pid == pid && !processes[i].status.Dead? {
          return;
        }
        i := i + 1;
      }
    }

    /** `process_track_allocation`: at most 128 frames are remembered, later ones are forgotten. */
    method Track(pid: nat, frame: nat)
      requires Sized() && Inv(Now()) && pid == CurrentPid() && processes[current].status.Running?
      modifies allocations
      ensures forall i :: 0 <= i < MAX_PROCESSES ==>
                allocations[i] ==
                if i == current && |old(allocations[i])| < MAX_ALLOCATIONS then old(allocations[i]) + [frame]
                else old(allocations[i])
    {
      var i := FindLive(pid);
      OwnSlot(i, pid);
      if i < MAX_PROCESSES && |allocations[i]| < MAX_ALLOCATIONS {
        allocations[i] := allocations[i] + [frame];
      }
    }

    /** A running process finds itself under its own number. */
    lemma OwnSlot(i: nat, pid: nat)
      requires Sized() && Inv(Now()) && pid == CurrentPid() && processes[current].status.Running?
      requires i <= MAX_PROCESSES && (i < MAX_PROCESSES ==> processes[i].pid == pid && !processes[i].status.Dead?)
      requires forall k :: 0 <= k < i ==> !(processes[k].pid == pid && !processes[k].status.Dead?)
      ensures i == current
    {
      hide StacksOk, NoneLost, CreationOk, StatusOk;
      var s := Now();
      assert s.procs[current] == processes[current];
      assert i < MAX_PROCESSES ==> s.procs[i] == processes[i];
    }

    /** The frames recorded for a slot are in use, managed by `pmm`, and recorded once. */
    ghost predicate FramesHeld(frames: seq<nat>, pmm: Pmm.FrameAllocator)
      reads pmm, pmm.bitmap
    {
      && pmm.Ready()
      && (forall k :: 0 <= k < |frames| ==> Pmm.LOW_FRAMES <= frames[k] < pmm.totalPages && frames[k] !in pmm.Free())
      && (forall j, k :: 0 <= j < k < |frames| ==> frames[j] != frames[k])
    }

    /**
     * `process_exit` of the running process: its slot dies, everything else in the table stays, and the
     * free memory grows by exactly the frames recorded for it.
     */
    method Exit(pid: nat, pmm: Pmm.FrameAllocator)
      requires Sized() && Inv(Now()) && pid == CurrentPid() && processes[current].status.Running? && current != 0
      requires pmm.Valid() && FramesHeld(allocations[current], pmm)
      modifies processes, allocations, pmm`freeMemory, pmm.bitmap
      ensures pmm.Valid() && pmm.freeMemory == old(pmm.freeMemory) + 4096 * |old(allocations[current])|
      ensures pmm.Free() == old(pmm.Free()) + Elements(old(allocations[current]), |old(allocations[current])|)
      ensures Enabled(old(Now()), Scheduling.Exit) && Now() == Step(old(Now()), Scheduling.Exit)
      ensures allocations[current] == []
      ensures forall i :: 0 <= i < MAX_PROCESSES && i != current ==> allocations[i] == old(allocations[i])
    {
      hide Inv, Elements, TickStep, Pmm.FrameAllocator.InUse;
      var i := FindLive(pid);
      OwnSlot(i, pid);
      ReturnFrames(allocations[i], pmm);
      allocations[i] := [];
      processes[i] := processes[i].(status := Dead);
      assert Now().procs == Step(old(Now()), Scheduling.Exit).procs;
    }

    method ReturnFrames(frames: seq<nat>, pmm: Pmm.FrameAllocator)
      requires pmm.Valid() && FramesHeld(frames, pmm)
      modifies pmm`freeMemory, pmm.bitmap
      ensures pmm.Valid() && pmm.freeMemory == old(pmm.freeMemory) + 4096 * |frames|
      ensures pmm.Free() == old(pmm.Free()) + Elements(frames, |frames|)
    {
      hide Pmm.FrameAllocator.InUse, Elements;
      ghost var free := pmm.Free();
      var j := 0;
      ElementsNone(frames);
      while j < |frames|
        invariant j <= |frames| && pmm.Valid() && pmm.Ready() && pmm.freeMemory == old(pmm.freeMemory) + 4096 * j
        invariant pmm.Free() == free + Elements(frames, j)
      {
        ElementsNext(frames, j);
        pmm.FreePage(frames[j] * 4096);
        j := j + 1;
      }
    }
  }

  /** The first `n` members of `frames`. */
  ghost function Elements(frames: seq<nat>, n: nat): (s: set<nat>)
    requires n <= |frames|
  {
    set k | 0 <= k < n :: frames[k]
  }

  lemma ElementsNone(frames: seq<nat>)
    ensures Elements(frames, 0) == {}
  {
  }

  lemma ElementsNext(frames: seq<nat>, n: nat)
    requires n < |frames| && forall j, k :: 0 <= j < k < |frames| ==> frames[j] != frames[k]
    ensures Elements(frames, n + 1) == Elements(frames, n) + {frames[n]} && frames[n] !in Elements(frames, n)
  {
  }

  /** The table once slot `i` is published. */
  ghost function Created(s: State, i: nat, entry: nat, stack: nat): State
    requires i < |s.procs|
  {
    s.(procs := s.procs[i := Process(s.nextPid, Ready, StartContext(entry, stack, s.kernelCs, s.kernelSs),
        StackTop(stack), stack)],
       nextPid := s.nextPid + 1, stacks := s.stacks + {stack})
  }

  /** The table once slot `i` was given up for want of a stack. */
  ghost function FailedCreate(s: State, i: nat): State
    requires i < |s.procs|
  {
    s.(procs := s.procs[i := s.procs[i].(pid := s.nextPid)], nextPid := s.nextPid + 1)
  }

  /** The running process works on another slot, `i`. */
  ghost predicate WorksOn(s: State, i: nat) {
    && |s.procs| == MAX_PROCESSES && s.current < MAX_PROCESSES && 1 <= i < MAX_PROCESSES && i != s.current
    && s.procs[s.current].status.Running? && (s.creation.Idle? || s.creator == s.current)
  }

  /** The table with slot `i` holding `p`, `process_create` being as far as `c`. */
  ghost function Midway(s: State, i: nat, p: Process, c: Creation): State
    requires WorksOn(s, i)
  {
    s.(procs := s.procs[i := p], creation := c, creator := s.current)
  }

  /** The steps of `process_create` up to the reserved slot. */
  lemma UpToReserve(s: State, i: nat, entry: nat)
    requires WorksOn(s, i) && s.creation.Idle? && s.procs[i].status.Dead? && Inv(s)
    ensures var p := s.procs[i].(pid := s.nextPid, status := Sleeping);
            Inv(Midway(s, i, p, Reserved(i, entry)).(nextPid := s.nextPid + 1))
  {
    hide Inv, TickStep;
    var s1 := After(s, Find(i, entry));
    var s2 := After(s1, Number);
    var s3 := After(s2, Reserve);
    assert s3.procs == s.procs[i := s.procs[i].(pid := s.nextPid, status := Sleeping)];
  }

  /** The step of `process_create` without a stack. */
  lemma GiveUp(s: State, i: nat, entry: nat)
    requires WorksOn(s, i) && s.creation == Reserved(i, entry) && 0 !in s.stacks && Inv(s)
    ensures Inv(Midway(s, i, s.procs[i].(status := Dead), Idle))
  {
    hide Inv, TickStep;
    var s1 := After(s, Allocate(0));
  }

  /** The steps of `process_create` that record the stack. */
  lemma UpToTop(s: State, i: nat, entry: nat, stack: nat)
    requires WorksOn(s, i) && s.creation == Reserved(i, entry) && stack !in s.stacks && stack != 0 && Inv(s)
    ensures var p := s.procs[i].(stackBase := stack, kernelStack := StackTop(stack));
            Inv(Midway(s, i, p, Topped(i, entry, stack)).(stacks := s.stacks + {stack}))
  {
    hide Inv, TickStep, StackTop;
    var s1 := After(s, Allocate(stack));
    var s2 := After(s1, SetBase);
    var s3 := After(s2, SetTop);
    assert s3.procs == s.procs[i := s.procs[i].(stackBase := stack, kernelStack := StackTop(stack))];
  }

  /** The steps of `process_create` that fill the context and publish the slot. */
  lemma UpToPublish(s: State, i: nat, entry: nat, stack: nat)
    requires WorksOn(s, i) && s.creation == Topped(i, entry, stack)
    requires s.procs[i].kernelStack == StackTop(stack) && Inv(s)
    ensures var p := s.procs[i].(context := StartContext(entry, stack, s.kernelCs, s.kernelSs), status := Ready);
            Inv(Midway(s, i, p, Idle))
  {
    hide Inv, TickStep, StartContext;
    var s1 := After(s, Clear);
    var s2 := AfterFills(s1, i, entry, stack);
    var s3 := After(s2, Publish);
    var start := StartContext(entry, stack, s.kernelCs, s.kernelSs);
    assert s3.procs == s.procs[i := s.procs[i].(context := start, status := Ready)];
  }

  /** The five stores that fill a cleared context. */
  ghost function AfterFills(s: State, i: nat, entry: nat, stack: nat): (s': State)
    requires WorksOn(s, i) && s.creation == Cleared(i, entry, stack, 0) && s.procs[i].context == ZERO_CONTEXT
    requires s.procs[i].kernelStack == StackTop(stack) && Inv(s)
    ensures var start := StartContext(entry, stack, s.kernelCs, s.kernelSs);
            Inv(s') && s' == Midway(s, i, s.procs[i].(context := start), Filled(i, entry, stack))
  {
    FillFive(s, i, entry, stack);
    Midway(s, i, s.procs[i].(context := StartContext(entry, stack, s.kernelCs, s.kernelSs)), Filled(i, entry, stack))
  }

  /** One of them. */
  lemma FillOne(s: State, i: nat, entry: nat, stack: nat, k: nat)
    requires WorksOn(s, i) && s.creation == Cleared(i, entry, stack, k) && k < 5
    requires s.procs[i].kernelStack == StackTop(stack)
    requires s.procs[i].context == Partial(entry, stack, s.kernelCs, s.kernelSs, k) && Inv(s)
    ensures Inv(Midway(s, i, s.procs[i].(context := Partial(entry, stack, s.kernelCs, s.kernelSs, k + 1)),
                       if k < 4 then Cleared(i, entry, stack, k + 1) else Filled(i, entry, stack)))
  {
    hide Inv, TickStep, StackTop;
    var s1 := After(s, Fill);
  }

  lemma FillFive(s: State, i: nat, entry: nat, stack: nat)
    requires WorksOn(s, i) && s.creation == Cleared(i, entry, stack, 0) && s.procs[i].context == ZERO_CONTEXT
    requires s.procs[i].kernelStack == StackTop(stack) && Inv(s)
    ensures var start := StartContext(entry, stack, s.kernelCs, s.kernelSs);
            Inv(Midway(s, i, s.procs[i].(context := start), Filled(i, entry, stack)))
  {
    hide Inv, StackTop;
    var k, t := 0, s;
    assert s.procs == s.procs[i := s.procs[i].(context := Partial(entry, stack, s.kernelCs, s.kernelSs, 0))];
    while k < 5
      invariant k <= 5 && Inv(t)
      invariant t == Midway(s, i, s.procs[i].(context := Partial(entry, stack, s.kernelCs, s.kernelSs, k)),
                            if k < 5 then Cleared(i, entry, stack, k) else Filled(i, entry, stack))
    {
      FillOne(t, i, entry, stack, k);
      var c := if k < 4 then Cleared(i, entry, stack, k + 1) else Filled(i, entry, stack);
      t := Midway(t, i, t.procs[i].(context := Partial(entry, stack, s.kernelCs, s.kernelSs, k + 1)), c);
      k := k + 1;
    }
  }

  /** The steps of `process_create` one after the other. */
  lemma Uninterrupted(s: State, i: nat, entry: nat, stack: nat)
    requires WorksOn(s, i) && s.creation.Idle? && s.creator == 0 && stack !in s.stacks && s.procs[i].status.Dead?
    requires 0 !in s.stacks && Inv(s)
    ensures if stack == 0 then Inv(FailedCreate(s, i)) else Inv(Created(s, i, entry, stack))
  {
    hide Inv, StackTop, StartContext;
    UpToReserve(s, i, entry);
    var p := s.procs[i].(pid := s.nextPid, status := Sleeping);
    var s3 := Midway(s, i, p, Reserved(i, entry)).(nextPid := s.nextPid + 1);
    if stack == 0 {
      GiveUp(s3, i, entry);
      var s4 := Midway(s3, i, p.(status := Dead), Idle);
      assert s4.procs == FailedCreate(s, i).procs;
      CreatorIdle(s4);
    } else {
      UpToTop(s3, i, entry, stack);
      var q := p.(stackBase := stack, kernelStack := StackTop(stack));
      var s6 := Midway(s3, i, q, Topped(i, entry, stack)).(stacks := s.stacks + {stack});
      UpToPublish(s6, i, entry, stack);
      var s9 := Midway(s6, i, Created(s, i, entry, stack).procs[i], Idle);
      assert s9.procs == Created(s, i, entry, stack).procs;
      CreatorIdle(s9);
    }
  }

  /** One step of a run that keeps the invariant. */
  ghost function After(s: State, e: Event): (s': State)
    requires Inv(s) && Enabled(s, e)
    ensures s' == Step(s, e) && Inv(s')
  {
    StepKeeps(s, e);
    Step(s, e)
  }

  lemma NoNullStack(s: State)
    requires Inv(s)
    ensures 0 !in s.stacks && s.nextPid >= 1
  {
  }

  /** Outside `process_create` nothing depends on who created last. */
  lemma CreatorIdle(s: State)
    requires Inv(s) && s.creation.Idle?
    ensures Inv(s.(creator := 0))
  {
  }
}
