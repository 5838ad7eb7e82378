/** The thread locks of k11_extension/source/synchronization.c: while a Rosalina menu is open,
    groups of threads are kept off the scheduler. */
module RosalinaLock {
  // ----- which threads a mask selects -----

  /** The process a thread belongs to. */
  datatype Owner = NoProcess | Process(id: bv32, titleId: bv64)

  const SYSMODULES: bv32 := 0x0004_0130

  function HighTitleId(o: Owner): bv32
    requires o.Process?
  {
    (o.titleId >> 32) as bv32
  }

  /** The low half without the New 3DS and SAFE_FIRM bits. */
  function LowTitleId(o: Owner): bv32
    requires o.Process?
  {
    (o.titleId & 0x0FFF_FFFE) as bv32
  }

  predicate Has(mask: bv32, bits: bv32) {
    mask & bits != 0
  }

  predicate Selected(o: Owner, nbSection0Modules: bv32, mask: bv32) {
    if o.NoProcess? || o.id < nbSection0Modules then
      false
    else if Has(mask, 1) then
      if HighTitleId(o) != SYSMODULES then true
      else LowTitleId(o) == 0x1A02 || LowTitleId(o) == 0x2702
    else if Has(mask, 2) then
      if HighTitleId(o) != SYSMODULES then false
      else LowTitleId(o) == 0x1C02
    else if Has(mask, 4) then
      if HighTitleId(o) != SYSMODULES then false
      else LowTitleId(o) == 0x1D02 || LowTitleId(o) == 0x3302
    else
      false
  }

  /** 1: applications, applets, dsp and csnd; 2: gsp; 4: hid and ir; 0: never locked. */
  function GroupOf(o: Owner, nbSection0Modules: bv32): (g: bv32)
    ensures g in {0, 1, 2, 4}
  {
    if o.NoProcess? || o.id < nbSection0Modules then 0
    else if HighTitleId(o) != SYSMODULES || LowTitleId(o) in {0x1A02, 0x2702} then 1
    else if LowTitleId(o) == 0x1C02 then 2
    else if LowTitleId(o) in {0x1D02, 0x3302} then 4
    else 0
  }

  /** The groups by the digits of the title id: its high half, and its low half without the
      variant bits, which are the highest four and the lowest one. */
  lemma GroupDigits(id: bv32, titleId: bv64, nb: bv32)
    requires id >= nb
    ensures var high, low := titleId / 0x1_0000_0000, titleId % 0x1000_0000 - titleId % 2;
      GroupOf(Process(id, titleId), nb) ==
        if high != 0x40130 || low == 0x1A02 || low == 0x2702 then 1
        else if low == 0x1C02 then 2
        else if low == 0x1D02 || low == 0x3302 then 4
        else 0
  {
    TitleHalves(titleId);
  }

  lemma TitleHalves(t: bv64)
    ensures (t >> 32) as bv32 == (t / 0x1_0000_0000) as bv32 && t / 0x1_0000_0000 < 0x1_0000_0000
    ensures (t & 0x0FFF_FFFE) as bv32 == (t % 0x1000_0000 - t % 2) as bv32
    ensures t % 0x1000_0000 - t % 2 < 0x1_0000_0000
  {
  }

  function LowestGroup(mask: bv32): bv32 {
    if Has(mask, 1) then 1 else if Has(mask, 2) then 2 else if Has(mask, 4) then 4 else 0
  }

  lemma HasGroups(v: bv32)
    requires v in {1, 2, 4}
    ensures forall u :: u in {1, 2, 4} ==> (Has(v, u) <==> u == v)
  {
    assert 1 & 2 == 0 as bv32 && 1 & 4 == 0 as bv32 && 2 & 4 == 0 as bv32;
  }

  /** Every thread is in at most one group, and a mask with several groups in it selects
      only the lowest one. */
  lemma SelectedByLowestGroup(o: Owner, nb: bv32, mask: bv32)
    ensures Selected(o, nb, mask) <==> GroupOf(o, nb) != 0 && GroupOf(o, nb) == LowestGroup(mask)
  {
    hide Has, HighTitleId, LowTitleId;
  }

  // ----- what the operations do to one thread -----

  /** Bit 0x40 of a scheduling mask. */
  predicate IsLocked(m: bv8) {
    m & 0x40 != 0
  }

  predicate IsTerminating(m: bv8) {
    m & 0xF == 2
  }

  function WithLock(m: bv8, lock: bool): bv8 {
    if lock then m | 0x40 else m & 0xBF
  }

  lemma LockBits(m: bv8, lock: bool)
    ensures IsLocked(WithLock(m, lock)) == lock
    ensures IsTerminating(WithLock(m, lock)) == IsTerminating(m)
    ensures WithLock(m, lock) == m <==> IsLocked(m) == lock
    ensures WithLock(WithLock(m, lock), IsLocked(m)) == m
  {
  }

  /** The same in numbers. */
  lemma MaskNumbers(m: bv8)
    ensures IsLocked(m) <==> m as int / 0x40 % 2 == 1
    ensures IsTerminating(m) <==> m as int % 0x10 == 2
    ensures WithLock(m, true) as int == if m as int / 0x40 % 2 == 1 then m as int else m as int + 0x40
    ensures WithLock(m, false) as int == if m as int / 0x40 % 2 == 1 then m as int - 0x40 else m as int
  {
  }

  function AfterLock(selected: bool, holdsMutex: bool, m: bv8): bv8 {
    if selected && !holdsMutex then WithLock(m, true) else m
  }

  function AfterUnlock(selected: bool, m: bv8): bv8 {
    if !IsTerminating(m) && selected then WithLock(m, false) else m
  }

  function Toggled(state: bv32, arg: bv32): bv32 {
    state ^ arg
  }

  lemma LockChanges(selected: bool, holdsMutex: bool, m: bv8)
    ensures AfterLock(selected, holdsMutex, m) ==
      if selected && !holdsMutex && !IsLocked(m) then WithLock(m, true) else m
  {
    LockBits(m, true);
  }

  /** Locking adds 0x40 to a mask whose bit 0x40 is clear, and nothing else. */
  lemma LockedMask(selected: bool, holdsMutex: bool, m: bv8)
    ensures AfterLock(selected, holdsMutex, m) as int ==
      if selected && !holdsMutex && m as int / 0x40 % 2 == 0 then m as int + 0x40 else m as int
  {
    MaskNumbers(m);
    hide WithLock;
  }

  /** Unlocking takes it away again, unless the scheduling state in the low four bits is 2. */
  lemma UnlockedMask(selected: bool, m: bv8)
    ensures AfterUnlock(selected, m) as int ==
      if selected && m as int / 0x40 % 2 == 1 && m as int % 0x10 != 2 then m as int - 0x40 else m as int
  {
    MaskNumbers(m);
    hide WithLock, IsLocked, IsTerminating;
  }

  /** One round of the loop over the groups, for a thread of group g. */
  function AfterGroup(g: bv32, v: bv32, state: bv32, arg: bv32, holdsMutex: bool, m: bv8): bv8 {
    if !Has(arg, v) then m
    else if Has(state, v) then AfterLock(g == v, holdsMutex, m)
    else AfterUnlock(g == v, m)
  }

  function AfterToggle(g: bv32, state: bv32, arg: bv32, holdsMutex: bool, m: bv8): bv8 {
    if g == 0 || !Has(arg, g) then m
    else if Has(state, g) then AfterLock(true, holdsMutex, m)
    else AfterUnlock(true, m)
  }

  /** A toggle in numbers: the groups are bits, and the lock is 0x40. */
  lemma ToggledMask(g: bv32, state: bv32, arg: bv32, holdsMutex: bool, m: bv8)
    requires g in {0, 1, 2, 4}
    ensures var was, active := m as int, (state ^ arg) & g != 0;
      AfterToggle(g, Toggled(state, arg), arg, holdsMutex, m) as int ==
        if arg & g != 0 && active && !holdsMutex && was / 0x40 % 2 == 0 then was + 0x40
        else if arg & g != 0 && !active && was / 0x40 % 2 == 1 && was % 0x10 != 2 then was - 0x40
        else was
  {
    LockedMask(true, holdsMutex, m);
    UnlockedMask(true, m);
    hide AfterLock, AfterUnlock;
  }

  /** The three rounds do not interfere. */
  lemma GroupsApart(g: bv32, state: bv32, arg: bv32, holdsMutex: bool, m: bv8)
    requires g in {0, 1, 2, 4}
    ensures var m4 := AfterGroup(g, 4, state, arg, holdsMutex, m);
      var m2 := AfterGroup(g, 2, state, arg, holdsMutex, m4);
      AfterGroup(g, 1, state, arg, holdsMutex, m2) == AfterToggle(g, state, arg, holdsMutex, m)
  {
    hide Has, AfterLock, AfterUnlock;
    var m4 := AfterGroup(g, 4, state, arg, holdsMutex, m);
    var m2 := AfterGroup(g, 2, state, arg, holdsMutex, m4);
    NotSelected(holdsMutex, m);
    NotSelected(holdsMutex, m4);
    NotSelected(holdsMutex, m2);
  }

  lemma NotSelected(holdsMutex: bool, m: bv8)
    ensures AfterLock(false, holdsMutex, m) == m && AfterUnlock(false, m) == m
  {
  }

  function AfterSvc(g: bv32, state: bv32, shallTerminate: bool, m: bv8): bv8 {
    if !shallTerminate && g != 0 && g == LowestGroup(state & 5) then WithLock(m, true) else m
  }

  // ----- the kernel objects -----

  class KThread {
    var schedulingMask: bv8
    const owner: Owner
    const coreId: nat

    constructor (owner: Owner, coreId: nat, mask: bv8)
      ensures this.owner == owner && this.coreId == coreId && schedulingMask == mask
    {
      this.owner, this.coreId, schedulingMask := owner, coreId, mask;
    }
  }

  class KScheduler {
    var triggerCrossCoreInterrupt: bool
    const coreNumber: nat

    constructor (coreNumber: nat)
      ensures this.coreNumber == coreNumber && !triggerCrossCoreInterrupt
    {
      this.coreNumber, triggerCrossCoreInterrupt := coreNumber, false;
    }
  }

  /** A call to the scheduler: the thread whose mask has changed, and its old mask. */
  datatype Adjusted = Adjusted(thread: KThread, oldMask: bv8)

  class Kernel {
    const nbSection0Modules: bv32
    const schedulers: seq<KScheduler>
    var threads: seq<KThread>
    var currentThreads: seq<KThread?>
    var mutexOwner: KThread?
    var currentCore: nat
    var rosalinaState: bv32
    var lockDepth: nat
    var adjusted: seq<Adjusted>
    var interrupts: seq<nat>

    /** A kernel at work: one scheduler and one running thread, if any, for each core. */
    constructor (nbSection0Modules: bv32, schedulers: seq<KScheduler>, threads: seq<KThread>,
                 currentThreads: seq<KThread?>, mutexOwner: KThread?, currentCore: nat)
      requires currentCore < |schedulers| == |currentThreads|
      requires forall i :: 0 <= i < |schedulers| ==> schedulers[i].coreNumber == i
      requires forall t :: t in threads ==> t.coreId < |schedulers|
      ensures Valid() && this.nbSection0Modules == nbSection0Modules && this.schedulers == schedulers
      ensures this.threads == threads && this.currentThreads == currentThreads
      ensures this.mutexOwner == mutexOwner && this.currentCore == currentCore
      ensures rosalinaState == 0 && lockDepth == 0 && adjusted == [] && interrupts == []
    {
      this.nbSection0Modules, this.schedulers, this.threads := nbSection0Modules, schedulers, threads;
      this.currentThreads, this.mutexOwner, this.currentCore := currentThreads, mutexOwner, currentCore;
      rosalinaState, lockDepth, adjusted, interrupts := 0, 0, [], [];
    }

    ghost predicate Valid()
      reads `threads, `currentThreads, `currentCore
    {
      && currentCore < |schedulers| == |currentThreads|
      && (forall i :: 0 <= i < |schedulers| ==> schedulers[i].coreNumber == i)
      && (forall t :: t in threads ==> t.coreId < |schedulers|)
    }

    predicate Picks(t: KThread, mask: bv32) {
      Selected(t.owner, nbSection0Modules, mask)
    }

    predicate IsCurrent(t: KThread)
      requires t.coreId < |currentThreads|
      reads `currentThreads
    {
      t == currentThreads[t.coreId]
    }

    method RescheduleThread(t: KThread, lock: bool)
      modifies t`schedulingMask, this`lockDepth, this`adjusted
      ensures lockDepth == old(lockDepth)
      ensures t.schedulingMask == WithLock(old(t.schedulingMask), lock)
      ensures adjusted == old(adjusted) +
        if IsLocked(old(t.schedulingMask)) == lock then [] else [Adjusted(t, old(t.schedulingMask))]
    {
      lockDepth := lockDepth + 1;
      var oldSchedulingMask := t.schedulingMask;
      t.schedulingMask := WithLock(t.schedulingMask, lock);
      LockBits(oldSchedulingMask, lock);
      if oldSchedulingMask != t.schedulingMask {
        adjusted := adjusted + [Adjusted(t, oldSchedulingMask)];
      }
      lockDepth := lockDepth - 1;
    }

    method LockThread(t: KThread)
      modifies t`schedulingMask, this`lockDepth, this`adjusted
      ensures lockDepth == old(lockDepth)
      ensures t.schedulingMask == AfterLock(true, t == mutexOwner, old(t.schedulingMask))
      ensures adjusted == old(adjusted) +
        if t == mutexOwner || IsLocked(old(t.schedulingMask)) then [] else [Adjusted(t, old(t.schedulingMask))]
    {
      if t != mutexOwner { RescheduleThread(t, true); }
    }

    // ----- locking a group -----

    ghost function Masks(): (m: map<KThread, bv8>)
      reads `threads, threads
      ensures forall t :: t in threads ==> t in m && m[t] == t.schedulingMask
    {
      map t | t in threads :: t.schedulingMask
    }

    /** The threads that a lock changes: selected, not yet locked, not holding the mutex. */
    ghost predicate Changes(t: KThread, mask: bv32, was: map<KThread, bv8>)
      requires t in was
      reads `mutexOwner
    {
      Picks(t, mask) && t != mutexOwner && !IsLocked(was[t])
    }

    ghost predicate MasksAfter(was: map<KThread, bv8>, changed: set<KThread>, lock: bool := true)
      reads `threads, threads
    {
      forall t :: t in threads ==>
        t in was && t.schedulingMask == if t in changed then WithLock(was[t], lock) else was[t]
    }

    /** Lock one thread of the list. */
    method LockListed(t: KThread, mask: bv32, ghost was: map<KThread, bv8>, ghost changed: set<KThread>,
                      ghost log: seq<Adjusted>)
      returns (ghost changed': set<KThread>, ghost log': seq<Adjusted>)
      requires Valid() && MasksAfter(was, changed) && t in threads && Picks(t, mask)
      requires Logs(log, changed, was)
      modifies t`schedulingMask, this`lockDepth, this`adjusted
      ensures lockDepth == old(lockDepth)
      ensures MasksAfter(was, changed')
      ensures changed' == if Changes(t, mask, was) then changed + {t} else changed
      ensures Logs(log', changed', was) && log <= log'
      ensures log' == log || (t !in changed && log' == log + [Adjusted(t, was[t])])
      ensures adjusted == old(adjusted) + log'[|log|..]
    {
      hide WithLock, IsLocked, Selected;
      LockBits(was[t], true);
      LockBits(t.schedulingMask, true);
      LockThread(t);
      changed', log' := changed, log;
      if Changes(t, mask, was) {
        changed' := changed + {t};
        if t in changed {
          assert changed' == changed;
        } else {
          log' := log + [Adjusted(t, was[t])];
          LogAppend(log, changed, was, t);
        }
      }
    }

    ghost predicate SelectedIsRunning(mask: bv32)
      requires Valid()
      reads `threads, `currentThreads, `currentCore
    {
      exists k :: 0 <= k < |threads| && Picks(threads[k], mask) && threads[k] == currentThreads[threads[k].coreId]
    }

    /** The cores of the selected threads that the first pass leaves unlocked: running threads,
        and the holder of the mutex. */
    ghost function CoresLeft(mask: bv32, was: map<KThread, bv8>): set<nat>
      requires Valid()
      reads `threads, `currentThreads, `currentCore, `mutexOwner
    {
      set t | t in threads && t in was && Picks(t, mask) && !IsLocked(was[t]) &&
        (t == currentThreads[t.coreId] || t == mutexOwner) :: t.coreId
    }

    /** First pass: every selected thread that is not running on its core. */
    method LockOthers(mask: bv32, ghost was: map<KThread, bv8>)
      returns (currentThreadsFound: bool, ghost changed: set<KThread>, ghost log: seq<Adjusted>)
      requires Valid() && MasksAfter(was, {})
      modifies threads, this`lockDepth, this`adjusted
      ensures lockDepth == old(lockDepth) && Valid() && MasksAfter(was, changed)
      ensures forall t :: t in threads ==> (t in changed <==> Changes(t, mask, was) && !IsCurrent(t))
      ensures forall t :: t in changed ==> t in threads
      ensures currentThreadsFound == SelectedIsRunning(mask)
      ensures Logs(log, changed, was) && adjusted == old(adjusted) + log
    {
      EmptyLog(was);
      hide Selected, Picks, WithLock, IsLocked, Logs;
      currentThreadsFound, changed, log := false, {}, [];
      for i := 0 to |threads|
        invariant lockDepth == old(lockDepth) && Valid() && MasksAfter(was, changed)
        invariant forall t :: t in changed ==> t in threads && Changes(t, mask, was) && !IsCurrent(t)
        invariant forall k :: 0 <= k < i && Changes(threads[k], mask, was) && !IsCurrent(threads[k]) ==>
          threads[k] in changed
        invariant currentThreadsFound <==> exists k :: 0 <= k < i && Picks(threads[k], mask) && IsCurrent(threads[k])
        invariant Logs(log, changed, was) && adjusted == old(adjusted) + log
      {
        var t := threads[i];
        if Picks(t, mask) {
          if IsCurrent(t) {
            currentThreadsFound := true;
          } else {
            changed, log := LockListed(t, mask, was, changed, log);
          }
        }
      }
    }

    /** The flag of the current core. */
    predicate Flagged()
      requires Valid()
      reads `threads, `currentThreads, `currentCore, schedulers
    {
      schedulers[currentCore].triggerCrossCoreInterrupt
    }

    /** The flags of the other cores after those in flagged have been asked to reschedule. */
    ghost predicate FlagsAfter(had: seq<bool>, flagged: set<nat>)
      reads `currentCore, schedulers
    {
      |had| == |schedulers| &&
      forall c :: 0 <= c < |schedulers| && c != currentCore ==>
        schedulers[c].triggerCrossCoreInterrupt == (had[c] || c in flagged)
    }

    ghost function Flags(): (flags: seq<bool>)
      reads schedulers
    {
      seq(|schedulers|, c requires 0 <= c < |schedulers| reads schedulers => schedulers[c].triggerCrossCoreInterrupt)
    }

    method FlagCore(core: nat, ghost had: seq<bool>, ghost flagged: set<nat>)
      requires Valid() && core < |schedulers| && FlagsAfter(had, flagged)
      modifies schedulers, this`lockDepth
      ensures lockDepth == old(lockDepth) && FlagsAfter(had, flagged + {core})
    {
      lockDepth := lockDepth + 1;
      if core != currentCore {
        schedulers[core].triggerCrossCoreInterrupt := true;
        schedulers[currentCore].triggerCrossCoreInterrupt := true;
      }
      lockDepth := lockDepth - 1;
    }

    /** A selected thread that the first pass did not lock: it was running, or holds the mutex. */
    ghost predicate LeftOver(t: KThread, mask: bv32, was: map<KThread, bv8>, others: set<KThread>)
    {
      t in was && Picks(t, mask) && !IsLocked(was[t]) && t !in others
    }

    /** Such a thread is on this core. */
    ghost predicate LeftOn(c: nat, mask: bv32, was: map<KThread, bv8>, others: set<KThread>)
      reads `threads
    {
      exists k :: 0 <= k < |threads| && LeftOver(threads[k], mask, was, others) && threads[k].coreId == c
    }

    method LockLeftOver(t: KThread, mask: bv32, ghost was: map<KThread, bv8>, ghost changed: set<KThread>,
                        ghost log: seq<Adjusted>, ghost had: seq<bool>, ghost flagged: set<nat>)
      returns (ghost changed': set<KThread>, ghost log': seq<Adjusted>, ghost flagged': set<nat>)
      requires Valid() && MasksAfter(was, changed) && t in threads && Picks(t, mask)
      requires Logs(log, changed, was) && FlagsAfter(had, flagged)
      modifies t`schedulingMask, schedulers, this`lockDepth, this`adjusted
      ensures lockDepth == old(lockDepth)
      ensures MasksAfter(was, changed') && FlagsAfter(had, flagged')
      ensures changed' == if Changes(t, mask, was) then changed + {t} else changed
      ensures flagged' == if IsLocked(was[t]) || t in changed then flagged else flagged + {t.coreId}
      ensures Logs(log', changed', was) && log <= log'
      ensures adjusted == old(adjusted) + log'[|log|..]
    {
      hide Selected, Picks, WithLock, IsLocked, Logs, FlagsAfter;
      changed', log', flagged' := changed, log, flagged;
      NotLockedYet(was[t]);
      if IsLocked(t.schedulingMask) {
        assert Changes(t, mask, was) ==> changed + {t} == changed;
      } else {
        changed', log' := LockListed(t, mask, was, changed, log);
        FlagCore(t.coreId, had, flagged);
        flagged' := flagged + {t.coreId};
      }
    }

    /** Second pass, taken only when a selected thread is running: the threads that are left. */
    method LockCurrent(mask: bv32, ghost was: map<KThread, bv8>, ghost others: set<KThread>,
                       ghost logged: seq<Adjusted>, ghost had: seq<bool>)
      returns (ghost changed: set<KThread>, ghost log: seq<Adjusted>, ghost flagged: set<nat>)
      requires Valid() && MasksAfter(was, others) && Logs(logged, others, was) && FlagsAfter(had, {})
      requires forall t :: t in others ==> t in threads && Changes(t, mask, was)
      modifies threads, schedulers, this`lockDepth, this`adjusted
      ensures lockDepth == old(lockDepth) && Valid() && MasksAfter(was, changed) && FlagsAfter(had, flagged)
      ensures others <= changed
      ensures forall t :: t in threads ==> (t in changed <==> Changes(t, mask, was))
      ensures forall t :: t in changed ==> t in threads
      ensures Logs(log, changed, was) && logged <= log && adjusted == old(adjusted) + log[|logged|..]
      ensures forall c :: c in flagged <==> LeftOn(c, mask, was, others)
    {
      hide Selected, Picks, WithLock, IsLocked, Logs, FlagsAfter;
      changed, log, flagged := others, logged, {};
      for i := 0 to |threads|
        invariant lockDepth == old(lockDepth) && Valid() && MasksAfter(was, changed) && FlagsAfter(had, flagged)
        invariant others <= changed
        invariant forall t :: t in changed ==> t in threads && Changes(t, mask, was)
        invariant forall k :: 0 <= k < i && Changes(threads[k], mask, was) ==> threads[k] in changed
        invariant forall k :: 0 <= k < i && LeftOver(threads[k], mask, was, others) ==> threads[k].coreId in flagged
        invariant forall t :: t in changed && t !in others ==> t.coreId in flagged
        invariant forall c :: c in flagged ==> LeftOn(c, mask, was, others)
        invariant Logs(log, changed, was) && logged <= log && adjusted == old(adjusted) + log[|logged|..]
      {
        var t := threads[i];
        if Picks(t, mask) {
          changed, log, flagged := LockLeftOver(t, mask, was, changed, log, had, flagged);
        }
      }
    }

    /** The second pass reports exactly the running threads. */
    lemma RunningLast(log: seq<Adjusted>, changed: set<KThread>, logged: seq<Adjusted>, others: set<KThread>,
                      was: map<KThread, bv8>, mask: bv32)
      requires Valid() && logged <= log && Logs(logged, others, was) && Logs(log, changed, was)
      requires forall t :: t in threads ==> t in was
      requires forall t :: t in changed ==> t in threads && Changes(t, mask, was)
      requires forall t :: t in threads ==> (t in others <==> Changes(t, mask, was) && !IsCurrent(t))
      ensures forall k :: 0 <= k < |log| ==> log[k].thread in threads && (IsCurrent(log[k].thread) <==> |logged| <= k)
    {
      hide Selected, Picks, IsLocked;
      forall k, u | |logged| <= k < |log| && u in others ensures u != log[k].thread {
        var j :| 0 <= j < |logged| && logged[j].thread == u;
        assert log[j].thread == u;
      }
    }

    method TriggerCrossCoreInterrupt(core: nat)
      requires core < |schedulers|
      modifies schedulers[core], this`interrupts
      ensures !schedulers[core].triggerCrossCoreInterrupt
      ensures interrupts == old(interrupts) + OtherCores(schedulers[core].coreNumber, |schedulers|)
    {
      schedulers[core].triggerCrossCoreInterrupt := false;
      for i := 0 to |schedulers|
        invariant !schedulers[core].triggerCrossCoreInterrupt
        invariant interrupts == old(interrupts) + OtherCores(schedulers[core].coreNumber, i)
      {
        if schedulers[core].coreNumber != i { interrupts := interrupts + [i]; }
      }
    }

    /** What the first pass leaves unlocked. */
    lemma CoresLeftOver(mask: bv32, was: map<KThread, bv8>, others: set<KThread>, flagged: set<nat>)
      requires Valid()
      requires forall t :: t in threads ==> t in was
      requires forall t :: t in threads ==> (t in others <==> Changes(t, mask, was) && !IsCurrent(t))
      requires forall c :: c in flagged <==> LeftOn(c, mask, was, others)
      ensures flagged == CoresLeft(mask, was)
    {
      hide Selected, Picks, IsLocked;
    }

    ghost predicate RunningLastIn(log: seq<Adjusted>)
      requires Valid()
      reads `threads, `currentThreads, `currentCore
    {
      && (forall k :: 0 <= k < |log| ==> log[k].thread in threads)
      && (forall j, k :: 0 <= j < k < |log| && IsCurrent(log[j].thread) ==> IsCurrent(log[k].thread))
    }

    /** That is: in such a log, no thread that is running on its core comes before one that is not. */
    lemma LogInOrder(log: seq<Adjusted>)
      requires Valid() && RunningLastIn(log)
      ensures forall k :: 0 <= k < |log| ==> log[k].thread in threads
      ensures forall j, k :: 0 <= j < k < |log| && log[j].thread == currentThreads[log[j].thread.coreId] ==>
        log[k].thread == currentThreads[log[k].thread.coreId]
    {
    }

    /** The two passes. */
    method LockBoth(mask: bv32, ghost was: map<KThread, bv8>, ghost had: seq<bool>)
      returns (found: bool, ghost changed: set<KThread>, ghost log: seq<Adjusted>)
      requires Valid() && MasksAfter(was, {}) && FlagsAfter(had, {})
      modifies threads, schedulers, this`lockDepth, this`adjusted
      ensures lockDepth == old(lockDepth) && MasksAfter(was, changed) && found == SelectedIsRunning(mask)
      ensures forall t :: t in threads ==> (t in changed <==> Changes(t, mask, was))
      ensures adjusted == old(adjusted) + log && Logs(log, changed, was) && RunningLastIn(log)
      ensures FlagsAfter(had, if found then CoresLeft(mask, was) else {})
      ensures !found ==> Flagged() == old(Flagged())
    {
      hide Selected, Picks, WithLock, IsLocked, Logs, FlagsAfter, CoresLeft;
      found, changed, log := LockOthers(mask, was);
      ghost var others, logged := changed, log;
      if found {
        ghost var flagged;
        changed, log, flagged := LockCurrent(mask, was, others, logged, had);
        CoresLeftOver(mask, was, others, flagged);
      }
      RunningLast(log, changed, logged, others, was, mask);
    }

    /** Lock every selected thread except the holder of the mutex. Each changed thread is
        reported to the scheduler once, running threads last, and only if a selected thread
        was running are the other cores told to reschedule, and the flag of this one cleared. */
    method LockThreads(mask: bv32) returns (ghost changed: set<KThread>, ghost log: seq<Adjusted>)
      requires Valid()
      modifies threads, schedulers, this`lockDepth, this`adjusted, this`interrupts
      ensures lockDepth == old(lockDepth)
      ensures forall t :: t in threads ==>
        t.schedulingMask == AfterLock(Picks(t, mask), t == mutexOwner, old(t.schedulingMask))
      ensures forall t :: t in threads ==> (t in changed <==> Changes(t, mask, old(Masks())))
      ensures adjusted == old(adjusted) + log && Logs(log, changed, old(Masks())) && RunningLastIn(log)
      ensures forall c :: 0 <= c < |schedulers| && c != currentCore ==>
        schedulers[c].triggerCrossCoreInterrupt == (old(schedulers[c].triggerCrossCoreInterrupt)
          || (SelectedIsRunning(mask) && c in CoresLeft(mask, old(Masks()))))
      ensures schedulers[currentCore].triggerCrossCoreInterrupt ==
        (old(schedulers[currentCore].triggerCrossCoreInterrupt) && !SelectedIsRunning(mask))
      ensures interrupts == old(interrupts) +
        if SelectedIsRunning(mask) then OtherCores(currentCore, |schedulers|) else []
    {
      hide Selected, Picks, WithLock, IsLocked, Logs, SelectedIsRunning, RunningLastIn, AfterLock, CoresLeft,
           OtherCores;
      ghost var was := Masks();
      lockDepth := lockDepth + 1;
      var found;
      found, changed, log := LockBoth(mask, was, Flags());
      if found { TriggerCrossCoreInterrupt(currentCore); }
      lockDepth := lockDepth - 1;
      forall t | t in threads ensures t.schedulingMask == AfterLock(Picks(t, mask), t == mutexOwner, was[t]) {
        LockChanges(Picks(t, mask), t == mutexOwner, was[t]);
      }
    }

    // ----- unlocking a group -----

    ghost predicate Frees(t: KThread, mask: bv32, was: map<KThread, bv8>)
      requires t in was
    {
      Picks(t, mask) && IsLocked(was[t]) && !IsTerminating(was[t])
    }

    method UnlockListed(t: KThread, mask: bv32, ghost was: map<KThread, bv8>, ghost changed: set<KThread>,
                        ghost log: seq<Adjusted>)
      returns (ghost changed': set<KThread>, ghost log': seq<Adjusted>)
      requires MasksAfter(was, changed, false) && Logs(log, changed, was) && t in threads
      modifies t`schedulingMask, this`lockDepth, this`adjusted
      ensures lockDepth == old(lockDepth) && MasksAfter(was, changed', false)
      ensures changed' == if Frees(t, mask, was) then changed + {t} else changed
      ensures Logs(log', changed', was) && log <= log' && adjusted == old(adjusted) + log'[|log|..]
    {
      hide WithLock, IsLocked, IsTerminating, Selected, Logs;
      changed', log' := changed, log;
      LockBits(was[t], false);
      if t in changed { assert changed + {t} == changed; }
      if IsTerminating(t.schedulingMask) { return; }
      if IsLocked(t.schedulingMask) && Picks(t, mask) {
        LogAppend(log, changed, was, t);
        changed', log' := changed + {t}, log + [Adjusted(t, was[t])];
        RescheduleThread(t, false);
      }
    }

    /** Unlock every selected thread that is not terminating, reporting each changed one once. */
    method UnlockThreads(mask: bv32) returns (ghost changed: set<KThread>, ghost log: seq<Adjusted>)
      modifies threads, this`lockDepth, this`adjusted
      ensures lockDepth == old(lockDepth)
      ensures forall t :: t in threads ==> t.schedulingMask == AfterUnlock(Picks(t, mask), old(t.schedulingMask))
      ensures forall t :: t in threads ==>
        var was := old(t.schedulingMask) as int;
        t.schedulingMask as int == if Picks(t, mask) && was / 0x40 % 2 == 1 && was % 0x10 != 2 then was - 0x40 else was
      ensures forall t :: t in threads ==> (t in changed <==> Frees(t, mask, old(Masks())))
      ensures adjusted == old(adjusted) + log && Logs(log, changed, old(Masks()))
    {
      hide WithLock, IsLocked, IsTerminating, Selected, Logs;
      ghost var was := Masks();
      changed, log := UnlockAll(mask, was);
      forall t | t in threads ensures t.schedulingMask == AfterUnlock(Picks(t, mask), was[t]) {
        LockBits(was[t], false);
      }
      forall t | t in threads
        ensures t.schedulingMask as int ==
          if Picks(t, mask) && was[t] as int / 0x40 % 2 == 1 && was[t] as int % 0x10 != 2 then was[t] as int - 0x40
          else was[t] as int
      {
        UnlockedMask(Picks(t, mask), was[t]);
      }
    }

    method UnlockAll(mask: bv32, ghost was: map<KThread, bv8>)
      returns (ghost changed: set<KThread>, ghost log: seq<Adjusted>)
      requires MasksAfter(was, {}, false)
      modifies threads, this`lockDepth, this`adjusted
      ensures lockDepth == old(lockDepth) && MasksAfter(was, changed, false)
      ensures forall t :: t in threads ==> (t in changed <==> Frees(t, mask, was))
      ensures adjusted == old(adjusted) + log && Logs(log, changed, was)
    {
      EmptyLog(was);
      hide WithLock, IsLocked, IsTerminating, Selected, Frees, Logs;
      changed, log := {}, [];
      for i := 0 to |threads|
        invariant lockDepth == old(lockDepth) && MasksAfter(was, changed, false)
        invariant forall t :: t in changed ==> t in threads && Frees(t, mask, was)
        invariant forall k :: 0 <= k < i && Frees(threads[k], mask, was) ==> threads[k] in changed
        invariant Logs(log, changed, was) && adjusted == old(adjusted) + log
      {
        changed, log := UnlockListed(threads[i], mask, was, changed, log);
      }
    }

    // ----- the system calls -----

    /** Toggle the groups in arg: lock those that become active, unlock the others. */
    method SetState(arg: bv32)
      requires Valid()
      modifies threads, schedulers, this`lockDepth, this`adjusted, this`interrupts, this`rosalinaState
      ensures lockDepth == old(lockDepth) && rosalinaState == Toggled(old(rosalinaState), arg)
      ensures forall t :: t in threads ==> t.schedulingMask == AfterToggle(
                GroupOf(t.owner, nbSection0Modules), rosalinaState, arg, t == mutexOwner, old(t.schedulingMask))
    {
      hide Selected, GroupOf, AfterGroup, Has;
      rosalinaState := Toggled(rosalinaState, arg);
      SetGroup(arg, 4);
      SetGroup(arg, 2);
      SetGroup(arg, 1);
      forall t | t in threads
        ensures t.schedulingMask == AfterToggle(GroupOf(t.owner, nbSection0Modules),
                                                rosalinaState, arg, t == mutexOwner, old(t.schedulingMask))
      {
        GroupsApart(GroupOf(t.owner, nbSection0Modules), rosalinaState, arg, t == mutexOwner, old(t.schedulingMask));
      }
    }

    method SetGroup(arg: bv32, v: bv32)
      requires Valid() && v in {1, 2, 4}
      modifies threads, schedulers, this`lockDepth, this`adjusted, this`interrupts
      ensures lockDepth == old(lockDepth)
      ensures forall t :: t in threads ==> t.schedulingMask == AfterGroup(
                GroupOf(t.owner, nbSection0Modules), v, rosalinaState, arg, t == mutexOwner, old(t.schedulingMask))
    {
      hide Selected, GroupOf, Has, Logs, AfterLock, AfterUnlock;
      forall t | t in threads ensures Picks(t, v) == (GroupOf(t.owner, nbSection0Modules) == v) {
        SelectedByLowestGroup(t.owner, nbSection0Modules, v);
        HasGroups(v);
      }
      if Has(arg, v) {
        if Has(rosalinaState, v) {
          ghost var changed, log := LockThreads(v);
        } else {
          ghost var changed, log := UnlockThreads(v);
        }
      }
    }

    /** On return from a system call, a thread of an active group is stopped. */
    method PostprocessSvc(t: KThread, shallTerminate: bool)
      modifies t`schedulingMask, this`lockDepth, this`adjusted
      ensures lockDepth == old(lockDepth)
      ensures t.schedulingMask ==
        AfterSvc(GroupOf(t.owner, nbSection0Modules), rosalinaState, shallTerminate, old(t.schedulingMask))
    {
      hide Selected, GroupOf, Has;
      SelectedByLowestGroup(t.owner, nbSection0Modules, rosalinaState & 5);
      if !shallTerminate && Selected(t.owner, nbSection0Modules, rosalinaState & 5) {
        RescheduleThread(t, true);
      }
    }
  }

  /** Every changed thread was reported once, with the mask it had before. */
  ghost predicate Logs(log: seq<Adjusted>, changed: set<KThread>, was: map<KThread, bv8>) {
    && (forall k :: 0 <= k < |log| ==>
          log[k].thread in changed && log[k].thread in was && log[k].oldMask == was[log[k].thread])
    && (forall j, k :: 0 <= j < k < |log| ==> log[j].thread != log[k].thread)
    && (forall t :: t in changed ==> exists k :: 0 <= k < |log| && log[k].thread == t)
  }

  /** In other words, the report of a changed thread is in the log, and there are as many reports
      as changed threads. */
  lemma {:induction false} LogsMean(log: seq<Adjusted>, changed: set<KThread>, was: map<KThread, bv8>)
    requires Logs(log, changed, was)
    ensures forall t :: t in changed <==> t in was && Adjusted(t, was[t]) in log
    ensures |log| == |changed|
  {
    forall t | t in changed ensures t in was && Adjusted(t, was[t]) in log {
      var k :| 0 <= k < |log| && log[k].thread == t;
      assert log[k] == Adjusted(t, was[t]);
    }
    if log == [] {
      assert changed == {};
    } else {
      var last := log[|log| - 1];
      var rest := log[..|log| - 1];
      forall t | t in changed - {last.thread} ensures exists k :: 0 <= k < |rest| && rest[k].thread == t {
        var k :| 0 <= k < |log| && log[k].thread == t;
        assert rest[k].thread == t;
      }
      LogsMean(rest, changed - {last.thread}, was);
    }
  }

  lemma LogAppend(log: seq<Adjusted>, changed: set<KThread>, was: map<KThread, bv8>, t: KThread)
    requires Logs(log, changed, was) && t !in changed && t in was
    ensures Logs(log + [Adjusted(t, was[t])], changed + {t}, was)
  {
    var log' := log + [Adjusted(t, was[t])];
    forall u | u in changed + {t} ensures exists k :: 0 <= k < |log'| && log'[k].thread == u {
      if u == t {
        assert log'[|log|].thread == t;
      } else {
        var k :| 0 <= k < |log| && log[k].thread == u;
        assert log'[k].thread == u;
      }
    }
  }

  lemma NotLockedYet(m: bv8)
    ensures IsLocked(WithLock(m, true))
  {
    LockBits(m, true);
  }

  lemma EmptyLog(was: map<KThread, bv8>)
    ensures Logs([], {}, was)
  {
  }

  /** Every core below n but one, in order. */
  function OtherCores(me: nat, n: nat): seq<nat> {
    if n == 0 then [] else OtherCores(me, n - 1) + if n - 1 == me then [] else [n - 1]
  }

  // ----- runs -----

  /** What can happen to a thread: a menu toggles groups while the thread may hold the mutex,
      the thread returns from a system call, or the kernel changes the rest of its mask. */
  datatype Event =
    | Toggle(arg: bv32, holdsMutex: bool)
    | SvcReturn(shallTerminate: bool)
    | Scheduled(bits: bv8)

  datatype View = View(state: bv32, mask: bv8)

  function KeepLock(m: bv8, bits: bv8): bv8 {
    (m & 0x40) | (bits & 0xBF)
  }

  function After(g: bv32, v: View, e: Event): View {
    match e
    case Toggle(arg, holdsMutex) =>
      var state := Toggled(v.state, arg);
      View(state, AfterToggle(g, state, arg, holdsMutex, v.mask))
    case SvcReturn(shallTerminate) => View(v.state, AfterSvc(g, v.state, shallTerminate, v.mask))
    case Scheduled(bits) => View(v.state, KeepLock(v.mask, bits))
  }

  function Run(g: bv32, v: View, events: seq<Event>): View
    decreases |events|
  {
    if events == [] then v else Run(g, After(g, v, events[0]), events[1..])
  }

  /** The thread is never terminating when a menu opens or closes. */
  predicate NeverTerminating(g: bv32, v: View, events: seq<Event>)
    decreases |events|
  {
    events == [] ||
    (!(events[0].Toggle? && IsTerminating(v.mask)) && NeverTerminating(g, After(g, v, events[0]), events[1..]))
  }

  /** In other words: in the state in which a toggle finds the thread, the low bits are not 2. */
  lemma {:induction false} TogglesFind(g: bv32, v: View, events: seq<Event>)
    ensures NeverTerminating(g, v, events) <==>
      forall k :: 0 <= k < |events| && events[k].Toggle? ==> Run(g, v, events[..k]).mask & 0xF != 2
    decreases |events|
  {
    if events != [] {
      var w, rest := After(g, v, events[0]), events[1..];
      hide After;
      TogglesFind(g, w, rest);
      forall k | 0 <= k < |rest| ensures Run(g, w, rest[..k]) == Run(g, v, events[..k + 1]) {
        assert events[..k + 1][0] == events[0] && events[..k + 1][1..] == rest[..k];
      }
      assert Run(g, v, events[..0]) == v;
      forall k | 0 <= k < |rest| ensures rest[k] == events[k + 1] {}
      if NeverTerminating(g, v, events) {
        forall k | 0 <= k < |events| && events[k].Toggle? ensures Run(g, v, events[..k]).mask & 0xF != 2 {
          if k > 0 { assert rest[k - 1].Toggle?; }
        }
      }
    }
  }

  /** A menu is opened and closed: a thread of its group that runs is stopped in between. */
  lemma MenuOpensAndCloses(m: bv8)
    requires m & 0x40 == 0 && m & 0xF != 2
    ensures Run(1, View(0, m), [Toggle(1, false)]) == View(1, m | 0x40)
    ensures Run(1, View(0, m), [Toggle(1, false), SvcReturn(false), Toggle(1, false)]) == View(0, m)
    ensures NeverTerminating(1, View(0, m), [Toggle(1, false), SvcReturn(false), Toggle(1, false)])
  {
    var v0, v1 := View(0, m), View(1, m | 0x40);
    MenuSteps(m);
    hide After;
    var es := [Toggle(1, false), SvcReturn(false), Toggle(1, false)];
    assert es[1..] == [SvcReturn(false), Toggle(1, false)] && es[1..][1..] == [Toggle(1, false)];
    assert [Toggle(1, false)][1..] == [];
    assert Run(1, v1, [Toggle(1, false)]) == Run(1, v0, []) == v0;
    assert Run(1, v0, [Toggle(1, false)]) == Run(1, v1, []) == v1;
    assert NeverTerminating(1, v1, [Toggle(1, false)]) && NeverTerminating(1, v0, []);
    assert NeverTerminating(1, v1, es[1..]);
  }

  lemma MenuSteps(m: bv8)
    requires m & 0x40 == 0 && m & 0xF != 2
    ensures After(1, View(0, m), Toggle(1, false)) == View(1, m | 0x40)
    ensures After(1, View(1, m | 0x40), SvcReturn(false)) == View(1, m | 0x40)
    ensures After(1, View(1, m | 0x40), Toggle(1, false)) == View(0, m)
    ensures !IsTerminating(m) && !IsTerminating(m | 0x40)
  {
  }

  predicate IsActive(g: bv32, state: bv32) {
    g != 0 && Has(state, g)
  }

  lemma TogglesOne(state: bv32, arg: bv32, g: bv32)
    requires g in {1, 2, 4}
    ensures Has(Toggled(state, arg), g) == (Has(state, g) != Has(arg, g))
  {
  }

  lemma KeepLockBits(m: bv8, bits: bv8)
    ensures IsLocked(KeepLock(m, bits)) == IsLocked(m) && KeepLock(m, bits) & 0xBF == bits & 0xBF
  {
  }

  lemma SvcGroups(state: bv32)
    ensures Has(state & 5, 1) == Has(state, 1) && !Has(state & 5, 2) && Has(state & 5, 4) == Has(state, 4)
  {
  }

  lemma StepKeepsLockInGroup(g: bv32, v: View, e: Event)
    requires g in {0, 1, 2, 4} && (IsLocked(v.mask) ==> IsActive(g, v.state))
    requires !(e.Toggle? && IsTerminating(v.mask))
    ensures var w := After(g, v, e); IsLocked(w.mask) ==> IsActive(g, w.state)
    ensures !(e.Toggle? && e.holdsMutex) && (IsActive(g, v.state) ==> IsLocked(v.mask)) ==>
      var w := After(g, v, e); IsActive(g, w.state) ==> IsLocked(w.mask)
  {
    hide Has, IsLocked, IsTerminating, WithLock, KeepLock, Toggled;
    LockBits(v.mask, true);
    LockBits(v.mask, false);
    match e
    case Toggle(arg, _) =>
      if g != 0 { TogglesOne(v.state, arg, g); }
    case SvcReturn(_) => SvcGroups(v.state);
    case Scheduled(bits) => KeepLockBits(v.mask, bits);
  }

  /** In every run, a thread that was not locked at the start is locked only while its group is
      active: closing the menus leaves nothing stopped. */
  lemma {:induction false} LockedOnlyWhileActive(g: bv32, v: View, events: seq<Event>)
    requires g in {0, 1, 2, 4} && (IsLocked(v.mask) ==> IsActive(g, v.state))
    requires NeverTerminating(g, v, events)
    ensures var w := Run(g, v, events); IsLocked(w.mask) ==> IsActive(g, w.state)
    decreases |events|
  {
    hide After, IsLocked, IsActive;
    if events != [] {
      StepKeepsLockInGroup(g, v, events[0]);
      LockedOnlyWhileActive(g, After(g, v, events[0]), events[1..]);
    }
  }

  /** A thread that in addition never holds the mutex when a menu opens is locked exactly
      while its group is active. */
  lemma {:induction false} LockedExactlyWhileActive(g: bv32, v: View, events: seq<Event>)
    requires g in {0, 1, 2, 4} && (IsLocked(v.mask) <==> IsActive(g, v.state))
    requires NeverTerminating(g, v, events) && forall e <- events :: e.Toggle? ==> !e.holdsMutex
    ensures var w := Run(g, v, events); IsLocked(w.mask) <==> IsActive(g, w.state)
    decreases |events|
  {
    hide After, IsLocked, IsActive;
    if events != [] {
      StepKeepsLockInGroup(g, v, events[0]);
      assert events[0] in events;
      LockedExactlyWhileActive(g, After(g, v, events[0]), events[1..]);
    }
  }

  /** Locking a group and unlocking it again restores a thread of that group if and only if
      the thread was not already locked; a terminating thread keeps what the lock did to it. */
  lemma LockThenUnlock(holdsMutex: bool, m: bv8)
    ensures AfterUnlock(true, AfterLock(true, holdsMutex, m)) == m <==>
      if IsTerminating(m) then holdsMutex || IsLocked(m) else !IsLocked(m)
  {
    hide IsLocked, IsTerminating, WithLock;
    LockBits(m, true);
    LockBits(m, false);
    LockBits(WithLock(m, true), false);
  }

  /** A thread that kept running because it held the mutex is stopped when it next returns from
      a system call, if it is in group 1, or in group 4 while group 1 is not active. Threads of
      group 4 are not caught while group 1 is active, and threads of group 2 never are. */
  lemma CaughtOnSvcReturn(g: bv32, v: View)
    requires g in {0, 1, 2, 4} && !IsLocked(v.mask)
    ensures IsLocked(After(g, v, SvcReturn(false)).mask) <==>
      IsActive(g, v.state) && (g == 1 || (g == 4 && !IsActive(1, v.state)))
  {
    hide Has, IsLocked, WithLock;
    SvcGroups(v.state);
    LockBits(v.mask, true);
  }
}
