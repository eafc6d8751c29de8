/** The task queue of tos/system/sched.c: a ring of task pointers shared by interrupts and the main loop.
    Posting and taking are critical sections, so every run is some sequence of them. */
module Sched {
  import opened DivMod

  /** A task pointer; NULL marks a free slot. */
  type Task = nat

  const NULL: Task := 0

  /** TOSH_MAX_TASKS for TOSH_MAX_TASKS_LOG2 from 0 to 8 (5 if it is not set). */
  function MaxTasks(log2: nat): (n: nat)
    requires log2 <= 8
    ensures 1 <= n <= 256
  {
    [1, 2, 4, 8, 16, 32, 64, 128, 256][log2]
  }

  /** It is a power of two: 1, and double for the next logarithm. */
  lemma MaxTasksDoubles(log2: nat)
    requires log2 <= 8
    ensures MaxTasks(0) == 1 && (log2 > 0 ==> MaxTasks(log2) == 2 * MaxTasks(log2 - 1))
  {
  }

  /** x & TOSH_TASK_BITMASK, for a power of two n */
  function Mask(x: nat, n: nat): nat
    requires n > 0
  {
    x % n
  }

  /** Slot k of the ring from slot start on. */
  function Slot(start: nat, k: nat, n: nat): nat {
    if start + k < n then start + k else start + k - n
  }

  lemma MaskNext(x: nat, n: nat)
    requires x < n
    ensures Mask(x + 1, n) == Slot(x, 1, n) && Slot(x, 1, n) < n
  {
  }

  /** The ring holds exactly the tasks of pending, from slot full on, and free is the slot behind them. */
  ghost predicate Holds(ring: seq<Task>, full: nat, free: nat, pending: seq<Task>) {
    var n := |ring|;
    && full < n && free < n && |pending| <= n
    && free == (if |pending| == n then full else Slot(full, |pending|, n))
    && (forall k: nat {:trigger Slot(full, k, n)} :: k < n ==>
          ring[Slot(full, k, n)] == if k < |pending| then pending[k] else NULL)
    && forall k :: 0 <= k < |pending| ==> pending[k] != NULL
  }

  /** The free slot is empty exactly when not all slots are occupied. */
  lemma FreeSlot(ring: seq<Task>, full: nat, free: nat, pending: seq<Task>)
    requires Holds(ring, full, free, pending)
    ensures ring[free] == NULL <==> |pending| < |ring|
    ensures ring[full] == NULL <==> pending == []
  {
    var n := |ring|;
    assert ring[Slot(full, 0, n)] == ring[full];
    if |pending| < n {
      assert ring[Slot(full, |pending|, n)] == NULL;
    }
  }

  lemma PostHolds(ring: seq<Task>, full: nat, free: nat, pending: seq<Task>, tp: Task)
    requires Holds(ring, full, free, pending) && |pending| < |ring| && tp != NULL
    ensures Holds(ring[free := tp], full, Mask(free + 1, |ring|), pending + [tp])
  {
    var n := |ring|;
    MaskNext(free, n);
    var r := ring[free := tp];
    forall k: nat {:trigger Slot(full, k, n)} | k < n
      ensures r[Slot(full, k, n)] == if k < |pending + [tp]| then (pending + [tp])[k] else NULL
    {
      assert ring[Slot(full, k, n)] == if k < |pending| then pending[k] else NULL;
      assert Slot(full, k, n) == free <==> k == |pending|;
    }
  }

  lemma TakeHolds(ring: seq<Task>, full: nat, free: nat, pending: seq<Task>)
    requires Holds(ring, full, free, pending) && pending != []
    ensures ring[full] == pending[0]
    ensures Holds(ring[full := NULL], Mask(full + 1, |ring|), free, pending[1..])
  {
    var n := |ring|;
    MaskNext(full, n);
    var r, f := ring[full := NULL], Slot(full, 1, n);
    assert ring[Slot(full, 0, n)] == pending[0];
    forall k: nat {:trigger Slot(f, k, n)} | k < n
      ensures r[Slot(f, k, n)] == if k < |pending[1..]| then pending[1..][k] else NULL
    {
      if k + 1 < n {
        assert Slot(f, k, n) == Slot(full, k + 1, n) != full;
      } else {
        assert Slot(f, k, n) == full;
      }
    }
  }

  class Scheduler {
    const TOSH_queue: array<Task>
    var TOSH_sched_full: nat
    var TOSH_sched_free: nat

    /** What the ring is to hold. */
    ghost var pending: seq<Task>

    ghost predicate Shape()
      reads this
    {
      TOSH_sched_full < TOSH_queue.Length && TOSH_sched_free < TOSH_queue.Length
    }

    ghost predicate Valid()
      reads this, TOSH_queue
    {
      Shape() && Holds(TOSH_queue[..], TOSH_sched_full, TOSH_sched_free, pending)
    }

    /** TOSH_sched_init */
    constructor (log2: nat)
      requires log2 <= 8
      ensures Valid() && fresh(TOSH_queue) && TOSH_queue.Length == MaxTasks(log2) && pending == []
      ensures TOSH_sched_full == 0 && TOSH_sched_free == 0
    {
      TOSH_sched_free := 0;
      TOSH_sched_full := 0;
      TOSH_queue := new Task[MaxTasks(log2)];
      pending := [];
      new;
      for i := 0 to TOSH_queue.Length
        invariant forall k :: 0 <= k < i ==> TOSH_queue[k] == NULL
        invariant Shape() && TOSH_sched_full == 0 && TOSH_sched_free == 0 && pending == []
      {
        TOSH_queue[i] := NULL;
      }
    }

    /** TOS_post. For a task that is not NULL it fails exactly when every slot is occupied. */
    method TOS_post(tp: Task) returns (ok: bool)
      requires Shape()
      modifies this`TOSH_sched_free, this`pending, TOSH_queue
      ensures Shape() && ok == (old(TOSH_queue[TOSH_sched_free]) == NULL)
      ensures !ok ==> TOSH_queue[..] == old(TOSH_queue[..]) && TOSH_sched_free == old(TOSH_sched_free)
      ensures ok ==> && TOSH_queue[..] == old(TOSH_queue[..])[old(TOSH_sched_free) := tp]
                     && TOSH_sched_free == Slot(old(TOSH_sched_free), 1, TOSH_queue.Length)
      ensures old(Valid()) && tp != NULL ==>
                && Valid() && ok == (|old(pending)| < TOSH_queue.Length)
                && pending == if ok then old(pending) + [tp] else old(pending)
    {
      hide Holds;
      if Valid() {
        FreeSlot(TOSH_queue[..], TOSH_sched_full, TOSH_sched_free, pending);
        if |pending| < TOSH_queue.Length && tp != NULL {
          PostHolds(TOSH_queue[..], TOSH_sched_full, TOSH_sched_free, pending, tp);
        }
      }
      MaskNext(TOSH_sched_free, TOSH_queue.Length);
      var tmp := TOSH_sched_free;
      if TOSH_queue[tmp] == NULL {
        TOSH_sched_free := Mask(tmp + 1, TOSH_queue.Length);
        TOSH_queue[tmp] := tp;
        pending := pending + [tp];
        return true;
      } else {
        return false;
      }
    }

    /** TOSH_run_next_task: the task at the head, which is to run next, or NULL if there is none. */
    method TOSH_run_next_task() returns (func: Task)
      requires Shape()
      modifies this`TOSH_sched_full, this`pending, TOSH_queue
      ensures Shape() && func == old(TOSH_queue[TOSH_sched_full])
      ensures func == NULL ==> && TOSH_queue[..] == old(TOSH_queue[..]) && pending == old(pending)
                               && TOSH_sched_full == old(TOSH_sched_full)
      ensures func != NULL ==> && TOSH_queue[..] == old(TOSH_queue[..])[old(TOSH_sched_full) := NULL]
                               && TOSH_sched_full == Slot(old(TOSH_sched_full), 1, TOSH_queue.Length)
      ensures old(Valid()) ==> && Valid() && (func == NULL <==> old(pending) == [])
                               && (func != NULL ==> old(pending) == [func] + pending)
    {
      hide Holds;
      if Valid() {
        FreeSlot(TOSH_queue[..], TOSH_sched_full, TOSH_sched_free, pending);
        if pending != [] {
          TakeHolds(TOSH_queue[..], TOSH_sched_full, TOSH_sched_free, pending);
        }
      }
      MaskNext(TOSH_sched_full, TOSH_queue.Length);
      var old_full := TOSH_sched_full;
      func := TOSH_queue[old_full];
      if func == NULL {
        return;
      }
      TOSH_queue[old_full] := NULL;
      TOSH_sched_full := Mask(old_full + 1, TOSH_queue.Length);
      pending := if pending != [] then pending[1..] else [];
    }
  }

  // ---- Runs ----

  /** One critical section: a post, by an interrupt or by a running task, or the main loop taking the next
      task. */
  datatype Event = Post(tp: Task) | Next

  /** What a bounded queue of length max does: which posts are accepted, and which tasks run. */
  datatype History = History(accepted: seq<Task>, ran: seq<Task>, pending: seq<Task>)

  function Serve(h: History, max: nat, e: Event): History {
    match e
    case Post(tp) =>
      if |h.pending| < max then History(h.accepted + [tp], h.ran, h.pending + [tp]) else h
    case Next =>
      if h.pending == [] then h else History(h.accepted, h.ran + [h.pending[0]], h.pending[1..])
  }

  function ServeAll(h: History, max: nat, events: seq<Event>): History
    decreases |events|
  {
    if events == [] then h else ServeAll(Serve(h, max, events[0]), max, events[1..])
  }

  /** Over every interleaving, the tasks that ran and those still waiting are the accepted posts, each
      once and in order; in particular what ran is a prefix of what was accepted. */
  lemma {:induction false} RunsAcceptedInOrder(h: History, max: nat, events: seq<Event>)
    requires h.accepted == h.ran + h.pending
    ensures var g := ServeAll(h, max, events);
            g.accepted == g.ran + g.pending && g.ran <= g.accepted && h.ran <= g.ran && h.accepted <= g.accepted
    decreases |events|
  {
    if events != [] {
      var g := Serve(h, max, events[0]);
      assert g.accepted == g.ran + g.pending;
      RunsAcceptedInOrder(g, max, events[1..]);
    }
  }

  lemma ServeFirst(h: History, max: nat, events: seq<Event>, n: nat)
    requires n < |events|
    ensures ServeAll(h, max, events[n..]) == ServeAll(Serve(h, max, events[n]), max, events[n + 1..])
  {
  }

  lemma ServeNone(h: History, max: nat, events: seq<Event>)
    ensures ServeAll(h, max, events[|events|..]) == h
  {
  }

  /** The scheduler, driven through any interleaving of posts of real tasks and turns of the main loop,
      accepts and runs what the bounded queue of all its slots does. */
  method Drive(s: Scheduler, events: seq<Event>) returns (accepted: seq<Task>, ran: seq<Task>)
    requires s.Valid()
    requires forall i :: 0 <= i < |events| && events[i].Post? ==> events[i].tp != NULL
    modifies s, s.TOSH_queue
    ensures s.Valid()
    ensures History(old(s.pending) + accepted, ran, s.pending)
         == ServeAll(History(old(s.pending), [], old(s.pending)), s.TOSH_queue.Length, events)
    ensures old(s.pending) + accepted == ran + s.pending
  {
    hide Holds, ServeAll;
    ghost var before, max := s.pending, s.TOSH_queue.Length;
    ghost var start := History(before, [], before);
    RunsAcceptedInOrder(start, max, events);
    accepted, ran := [], [];
    assert before + [] == before && events[0..] == events;
    for n := 0 to |events|
      invariant s.Valid()
      invariant s.TOSH_queue.Length == max
      invariant ServeAll(History(before + accepted, ran, s.pending), max, events[n..]) == ServeAll(start, max, events)
    {
      ghost var h := History(before + accepted, ran, s.pending);
      ServeFirst(h, max, events, n);
      match events[n]
      case Post(tp) =>
        var ok := s.TOS_post(tp);
        if ok {
          assert before + accepted + [tp] == before + (accepted + [tp]);
          accepted := accepted + [tp];
        }
      case Next =>
        var func := s.TOSH_run_next_task();
        if func != NULL {
          ran := ran + [func];
        }
      assert History(before + accepted, ran, s.pending) == Serve(h, max, events[n]);
    }
    ServeNone(History(before + accepted, ran, s.pending), max, events);
  }

  /** The comment in the source keeps one slot empty; the code fills them all. */
  method FillAllSlots(log2: nat) returns (s: Scheduler)
    requires log2 <= 8
    ensures s.Valid() && |s.pending| == s.TOSH_queue.Length == MaxTasks(log2)
  {
    s := new Scheduler(log2);
    for i := 0 to MaxTasks(log2)
      invariant s.Valid() && fresh(s) && fresh(s.TOSH_queue)
      invariant s.TOSH_queue.Length == MaxTasks(log2) && |s.pending| == i
    {
      var ok := s.TOS_post(1);
    }
  }

  /** Task j of the pending ones is in its slot, counted from slot start on. */
  predicate WaitsAt(ring: seq<Task>, start: nat, pending: seq<Task>, j: nat)
    requires j < |pending|
  {
    var slot := Slot(start, j, |ring|);
    slot < |ring| && ring[slot] == pending[j] != NULL
  }

  /** All but the first k are. */
  predicate Waiting(ring: seq<Task>, start: nat, k: nat, pending: seq<Task>) {
    forall j: nat :: k <= j < |pending| ==> WaitsAt(ring, start, pending, j)
  }

  lemma StillWaiting(ring: seq<Task>, start: nat, k: nat, pending: seq<Task>, full: nat)
    requires Waiting(ring, start, k, pending) && k < |pending| <= |ring| && start < |ring|
    requires full == Slot(start, k, |ring|)
    ensures full < |ring| && Waiting(ring[full := NULL], start, k + 1, pending)
  {
    hide Slot;
    SlotSteps(start, k, k, |ring|);
    var r := ring[full := NULL];
    forall j: nat | k + 1 <= j < |pending| ensures WaitsAt(r, start, pending, j) {
      assert WaitsAt(ring, start, pending, j);
      SlotSteps(start, j, k, |ring|);
    }
  }

  /** A ring from which k of the pending tasks have been taken since NULL and then tp were posted. */
  ghost predicate Blocked(ring: seq<Task>, start: nat, full: nat, k: nat, pending: seq<Task>, tp: Task) {
    var n := |ring|;
    && start < n && k <= |pending| && |pending| + 2 <= n && full == Slot(start, k, n)
    && Waiting(ring, start, k, pending)
    && ring[Slot(start, |pending|, n)] == NULL && ring[Slot(start, |pending| + 1, n)] == tp
  }

  lemma NowBlocked(ring: seq<Task>, full: nat, free: nat, pending: seq<Task>, tp: Task)
    requires Holds(ring, full, free, pending) && |pending| + 2 <= |ring|
    ensures ring[free] == NULL && ring[free := NULL] == ring
    ensures Slot(free, 1, |ring|) < |ring| && ring[Slot(free, 1, |ring|)] == NULL
    ensures Blocked(ring[Slot(free, 1, |ring|) := tp], full, full, 0, pending, tp)
  {
    hide Slot;
    var n, at := |ring|, Slot(free, 1, |ring|);
    SlotSteps(full, 0, |pending|, n);
    SlotSteps(full, |pending|, |pending| + 1, n);
    assert ring[Slot(full, |pending|, n)] == NULL && ring[Slot(full, |pending| + 1, n)] == NULL;
    var r := ring[at := tp];
    forall j: nat | j < |pending| ensures WaitsAt(r, full, pending, j) {
      SlotSteps(full, |pending| + 1, j, n);
      assert ring[Slot(full, j, n)] == pending[j];
    }
    SlotZero(full, n);
  }

  lemma SlotZero(start: nat, n: nat)
    requires start < n
    ensures Slot(start, 0, n) == start
  {
  }

  /** Slots are counted off one by one, and are different within one turn of the ring. */
  lemma SlotSteps(start: nat, j: nat, k: nat, n: nat)
    requires start < n && j < n && k < n
    ensures Slot(start, k, n) < n
    ensures k + 1 < n ==> Slot(Slot(start, k, n), 1, n) == Slot(start, k + 1, n)
    ensures j != k ==> Slot(start, j, n) != Slot(start, k, n)
  {
  }

  /** What the main loop finds next. */
  lemma NextOfBlocked(ring: seq<Task>, start: nat, full: nat, k: nat, pending: seq<Task>, tp: Task)
    requires Blocked(ring, start, full, k, pending, tp)
    ensures full < |ring| && ring[full] == (if k < |pending| then pending[k] else NULL) && tp in ring
    ensures k < |pending| ==> ring[full] != NULL
  {
    hide Slot;
    SlotSteps(start, 0, k, |ring|);
    SlotSteps(start, 0, |pending| + 1, |ring|);
    assert ring[Slot(start, |pending| + 1, |ring|)] == tp;
    if k < |pending| {
      assert WaitsAt(ring, start, pending, k);
    }
  }

  lemma StillBlocked(ring: seq<Task>, start: nat, full: nat, k: nat, pending: seq<Task>, tp: Task)
    requires Blocked(ring, start, full, k, pending, tp) && k < |pending| && full < |ring|
    ensures Blocked(ring[full := NULL], start, Slot(full, 1, |ring|), k + 1, pending, tp)
  {
    hide Slot, Waiting;
    var n := |ring|;
    StillWaiting(ring, start, k, pending, full);
    SlotSteps(start, |pending|, k, n);
    SlotSteps(start, |pending| + 1, k, n);
    SlotSteps(start, k, |pending|, n);
    SlotSteps(start, k, |pending| + 1, n);
  }

  /** NULL is not to be posted: with two free slots it is accepted, and so is a task posted after it; the tasks
      pending before run, and then the main loop finds nothing to run, with the task still in the queue. */
  method NullBlocks(s: Scheduler, tp: Task) returns (first: bool, second: bool, ran: seq<Task>, func: Task)
    requires s.Valid() && |s.pending| + 2 <= s.TOSH_queue.Length && tp != NULL
    modifies s, s.TOSH_queue
    ensures first && second && ran == old(s.pending) && func == NULL && tp in s.TOSH_queue[..]
  {
    hide Holds, Blocked;
    ghost var start, before, pending := s.TOSH_sched_full, s.TOSH_queue[..], s.pending;
    NowBlocked(before, start, s.TOSH_sched_free, pending, tp);
    first := s.TOS_post(NULL);
    second := s.TOS_post(tp);
    ran, func := RunBlocked(s, start, pending, tp);
  }

  method RunBlocked(s: Scheduler, ghost start: nat, ghost pending: seq<Task>, ghost tp: Task)
    returns (ran: seq<Task>, func: Task)
    requires s.Shape() && Blocked(s.TOSH_queue[..], start, s.TOSH_sched_full, 0, pending, tp)
    modifies s, s.TOSH_queue
    ensures ran == pending && func == NULL && tp in s.TOSH_queue[..]
  {
    hide Holds, Blocked;
    ran := [];
    while true
      invariant |ran| <= |pending| && ran == pending[..|ran|] && s.Shape()
      invariant Blocked(s.TOSH_queue[..], start, s.TOSH_sched_full, |ran|, pending, tp)
      decreases |pending| - |ran|
    {
      ghost var ring, full := s.TOSH_queue[..], s.TOSH_sched_full;
      NextOfBlocked(ring, start, full, |ran|, pending, tp);
      func := s.TOSH_run_next_task();
      if func == NULL {
        return;
      }
      StillBlocked(ring, start, full, |ran|, pending, tp);
      ran := ran + [func];
    }
  }

  /** NULL in the only free slot: it is accepted, and the next task is refused as by a full queue; the tasks
      pending before run; but a task posted after them is accepted and stays behind the NULL. */
  method NullFillsQueue(s: Scheduler, tp: Task)
    returns (first: bool, second: bool, ran: seq<Task>, third: bool, func: Task)
    requires s.Valid() && |s.pending| + 1 == s.TOSH_queue.Length >= 2 && tp != NULL
    modifies s, s.TOSH_queue
    ensures first && !second && ran == old(s.pending)
    ensures third && func == NULL && tp in s.TOSH_queue[..]
  {
    hide Holds;
    ghost var pending, gap := s.pending, s.TOSH_sched_free;
    GapAt(s.TOSH_queue[..], s.TOSH_sched_full, gap, pending);
    first := s.TOS_post(NULL);
    second := s.TOS_post(tp);
    ran := RunToGap(s, gap, pending);
    ghost var at := s.TOSH_sched_free;
    AllEmpty(s.TOSH_queue[..], gap);
    third := s.TOS_post(tp);
    func := s.TOSH_run_next_task();
    assert s.TOSH_queue[..][at] == tp;
  }

  /** The one free slot, and the head behind it. */
  lemma GapAt(ring: seq<Task>, full: nat, free: nat, pending: seq<Task>)
    requires Holds(ring, full, free, pending) && |pending| + 1 == |ring| >= 2
    ensures ring[free] == NULL && ring[free := NULL] == ring
    ensures Slot(free, 1, |ring|) == full && ring[full] != NULL && full != free
  {
    FreeSlot(ring, full, free, pending);
    assert pending != [];
  }

  lemma AllEmpty(ring: seq<Task>, full: nat)
    requires Holds(ring, full, full, []) && |ring| >= 2
    ensures Slot(full, 1, |ring|) != full && ring[full] == NULL && ring[Slot(full, 1, |ring|)] == NULL
  {
    assert ring[Slot(full, 0, |ring|)] == NULL;
  }

  /** The main loop takes what is pending, up to the gap. */
  method RunToGap(s: Scheduler, ghost gap: nat, ghost pending: seq<Task>) returns (ran: seq<Task>)
    requires s.Shape() && Holds(s.TOSH_queue[..], s.TOSH_sched_full, gap, pending)
    modifies s, s.TOSH_queue
    ensures ran == pending && s.Shape() && Holds(s.TOSH_queue[..], gap, gap, []) && s.TOSH_sched_full == gap
    ensures s.TOSH_sched_free == old(s.TOSH_sched_free)
  {
    hide Holds;
    ran := [];
    while true
      invariant |ran| <= |pending| && ran == pending[..|ran|] && s.Shape()
      invariant Holds(s.TOSH_queue[..], s.TOSH_sched_full, gap, pending[|ran|..])
      invariant s.TOSH_sched_free == old(s.TOSH_sched_free)
      decreases |pending| - |ran|
    {
      ghost var ring, full, rest := s.TOSH_queue[..], s.TOSH_sched_full, pending[|ran|..];
      FreeSlot(ring, full, gap, rest);
      var func := s.TOSH_run_next_task();
      if func == NULL {
        EmptyAt(ring, full, gap);
        return;
      }
      TakeHolds(ring, full, gap, rest);
      MaskNext(full, |ring|);
      assert rest[1..] == pending[|ran| + 1..];
      ran := ran + [func];
    }
  }

  lemma EmptyAt(ring: seq<Task>, full: nat, free: nat)
    requires Holds(ring, full, free, [])
    ensures full == free
  {
  }
}
