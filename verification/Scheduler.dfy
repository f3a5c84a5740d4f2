/**
 * Scheduling on eight harts as atomic steps on a value: per-hart queues of ready processes and the
 * process each hart runs.
 */
module SchedulerSpec {
  import opened Base

  const HARTS := 8

  type Pid = nat

  datatype ProcState = Free | Ready | Running | Exited | Waiting

  /** A process: its state and the hart it is pinned to, or -1. */
  datatype Proc = Proc(state: ProcState, affinity: int)

  datatype Sched = Sched(procs: map<Pid, Proc>, queues: seq<seq<Pid>>, current: seq<Option<Pid>>)

  predicate Sized(s: Sched) {
    |s.queues| == |s.current| == HARTS
  }

  function StateOf(s: Sched, p: Pid): ProcState {
    if p in s.procs then s.procs[p].state else Free
  }

  function Affinity(s: Sched, p: Pid): int {
    if p in s.procs then s.procs[p].affinity else -1
  }

  /** A process that must not run on hart `h`. */
  predicate Pinned(s: Sched, p: Pid, h: nat) {
    0 <= Affinity(s, p) < HARTS && Affinity(s, p) != h
  }

  // ----- steps

  function SetState(s: Sched, p: Pid, state: ProcState): (r: Sched)
    ensures r.queues == s.queues && r.current == s.current
  {
    if p in s.procs then Sched(s.procs[p := Proc(state, s.procs[p].affinity)], s.queues, s.current) else s
  }

  function WithQueue(s: Sched, h: nat, q: seq<Pid>): (r: Sched)
    requires Sized(s) && h < HARTS
    ensures Sized(r)
  {
    Sched(s.procs, s.queues[h := q], s.current)
  }

  function WithCurrent(s: Sched, h: nat, c: Option<Pid>): (r: Sched)
    requires Sized(s) && h < HARTS
    ensures Sized(r)
  {
    Sched(s.procs, s.queues, s.current[h := c])
  }

  function Enqueue(s: Sched, h: nat, p: Pid): (r: Sched)
    requires Sized(s) && h < HARTS
    ensures Sized(r)
  {
    WithQueue(s, h, s.queues[h] + [p])
  }

  function Dequeue(s: Sched, h: nat): (r: (Sched, Option<Pid>))
    requires Sized(s) && h < HARTS
    ensures Sized(r.0)
  {
    if s.queues[h] == [] then (s, None) else (WithQueue(s, h, s.queues[h][1..]), Some(s.queues[h][0]))
  }

  function Run(s: Sched, h: nat, p: Pid): (r: Sched)
    requires Sized(s) && h < HARTS
    ensures Sized(r)
  {
    WithCurrent(SetState(s, p, Running), h, Some(p))
  }

  function Victim(h: nat, i: nat): (v: nat)
    ensures v < HARTS
  {
    (h + i) % HARTS
  }

  /** Takes the first queue head that may run on `h`, from the hart `i` after it on. */
  function Steal(s: Sched, h: nat, i: nat): (r: (Sched, Option<Pid>))
    requires Sized(s) && h < HARTS && 1 <= i <= HARTS
    ensures Sized(r.0)
    decreases HARTS - i
  {
    if i == HARTS then (s, None)
    else
      var (s', p) := Dequeue(s, Victim(h, i));
      if p.None? then Steal(s, h, i + 1)
      else if Pinned(s', p.value, h) then Steal(Enqueue(s', Victim(h, i), p.value), h, i + 1)
      else (s', p)
  }

  predicate InQueue(s: Sched, p: Pid) {
    exists h: nat :: h < |s.queues| && p in s.queues[h]
  }

  /** Puts the running process of `h` back in its queue, unless it is in one already. */
  function Requeue(s: Sched, h: nat): (r: Sched)
    requires Sized(s) && h < HARTS
    ensures Sized(r)
  {
    var c := s.current[h];
    if c.None? || StateOf(s, c.value) != Running then s
    else if InQueue(s, c.value) then SetState(s, c.value, Ready)
    else Enqueue(SetState(s, c.value, Ready), h, c.value)
  }

  /** The next process from the hart's own queue; one pinned elsewhere is sent there first. */
  function PickOwn(s: Sched, h: nat): (r: (Sched, Option<Pid>))
    requires Sized(s) && h < HARTS
    ensures Sized(r.0)
  {
    var (s', p) := Dequeue(s, h);
    if p.Some? && Pinned(s', p.value, h) then Dequeue(Enqueue(s', Affinity(s', p.value), p.value), h) else (s', p)
  }

  /** No process was found: an exited one is dropped, any other goes on running. */
  function Resume(s: Sched, h: nat): (r: Sched)
    requires Sized(s) && h < HARTS
    ensures Sized(r)
  {
    var c := s.current[h];
    if c.None? then s
    else if StateOf(s, c.value) == Exited then WithCurrent(s, h, None)
    else SetState(s, c.value, Running)
  }

  /** Finds the next process, here or elsewhere, and switches to it. */
  function Switch(s: Sched, h: nat): (r: Sched)
    requires Sized(s) && h < HARTS
    ensures Sized(r)
  {
    var (s1, own) := PickOwn(s, h);
    if own.Some? then Run(s1, h, own.value)
    else
      var (s2, stolen) := Steal(s1, h, 1);
      if stolen.Some? then Run(s2, h, stolen.value)
      else
        var (s3, late) := Dequeue(s2, h);
        if late.Some? then Run(s3, h, late.value) else Resume(s3, h)
  }

  /** A whole yield on hart `h`. */
  function Yield(s: Sched, h: nat): (r: Sched)
    requires Sized(s) && h < HARTS
    ensures Sized(r)
  {
    Switch(Requeue(s, h), h)
  }

  // ----- where processes are

  /** How often `p` is in a queue. */
  ghost function Times(q: seq<Pid>, p: Pid): nat {
    multiset(q)[p]
  }

  /** How often `p` is in the first `n` queues. */
  ghost function Queued(queues: seq<seq<Pid>>, n: nat, p: Pid): nat
    requires n <= |queues|
  {
    if n == 0 then 0 else Queued(queues, n - 1, p) + Times(queues[n - 1], p)
  }

  /** How many of the first `n` harts, `h` not counted, run `p`. */
  ghost function RunBy(current: seq<Option<Pid>>, n: nat, h: int, p: Pid): nat
    requires n <= |current|
  {
    if n == 0 then 0 else RunBy(current, n - 1, h, p) + if n - 1 != h && current[n - 1] == Some(p) then 1 else 0
  }

  lemma {:induction false} QueuedUpdate(queues: seq<seq<Pid>>, n: nat, h: nat, q: seq<Pid>, p: Pid)
    requires n <= |queues| && h < |queues|
    ensures Queued(queues[h := q], n, p)
            == if h < n then Queued(queues, n, p) - Times(queues[h], p) + Times(q, p) else Queued(queues, n, p)
  {
    hide Times;
    if n > 0 {
      QueuedUpdate(queues, n - 1, h, q, p);
    }
  }

  lemma {:induction false} RunByUpdate(current: seq<Option<Pid>>, n: nat, h: nat, c: Option<Pid>, p: Pid)
    requires n <= |current| && h < |current|
    ensures RunBy(current[h := c], n, h, p) == RunBy(current, n, h, p)
    ensures RunBy(current, n, -1, p) == RunBy(current, n, h, p) + if h < n && current[h] == Some(p) then 1 else 0
  {
    if n > 0 {
      RunByUpdate(current, n - 1, h, c, p);
    }
  }

  /** How often `p` waits in queues. */
  ghost function Q(s: Sched, p: Pid): nat
    requires Sized(s)
  {
    Queued(s.queues, HARTS, p)
  }

  /** How many harts run `p`, `h` not counted; all are for -1. */
  ghost function C(s: Sched, h: int, p: Pid): nat
    requires Sized(s)
  {
    RunBy(s.current, HARTS, h, p)
  }

  /** A process taken out of a queue and not yet running. */
  ghost function Held(f: Option<Pid>, p: Pid): nat {
    if f == Some(p) then 1 else 0
  }

  /**
   * One process, hart `h` left out and process `f` held: it is in one place at most, in a queue (or
   * held) exactly when ready, and run by a hart only when running or exited.
   */
  ghost predicate PlacedOnce(s: Sched, h: int, f: Option<Pid>, p: Pid)
    requires Sized(s)
  {
    && Q(s, p) + Held(f, p) + C(s, h, p) <= 1
    && (StateOf(s, p) == Ready <==> Q(s, p) + Held(f, p) == 1)
    && (StateOf(s, p) == Running ==> C(s, h, p) == 1)
    && (C(s, h, p) == 1 ==> StateOf(s, p) in {Running, Exited})
  }

  /** The invariant with hart `h` left out and process `f` held. */
  ghost predicate Mid(s: Sched, h: int, f: Option<Pid>) {
    Sized(s) && forall p: Pid :: PlacedOnce(s, h, f, p)
  }

  /** The invariant of every reachable state. */
  ghost predicate Inv(s: Sched) {
    Mid(s, -1, None)
  }

  lemma EnqueueCount(s: Sched, h: nat, x: Pid, p: Pid)
    requires Sized(s) && h < HARTS
    ensures Q(Enqueue(s, h, x), p) == Q(s, p) + if x == p then 1 else 0
  {
    QueuedUpdate(s.queues, HARTS, h, s.queues[h] + [x], p);
  }

  lemma DequeueCount(s: Sched, h: nat, p: Pid)
    requires Sized(s) && h < HARTS
    ensures Q(Dequeue(s, h).0, p) + Held(Dequeue(s, h).1, p) == Q(s, p)
  {
    var q := s.queues[h];
    if q != [] {
      QueuedUpdate(s.queues, HARTS, h, q[1..], p);
      assert q == [q[0]] + q[1..];
    }
  }

  lemma DequeueMid(s: Sched, i: nat, h: int)
    requires Mid(s, h, None) && i < HARTS
    ensures Mid(Dequeue(s, i).0, h, Dequeue(s, i).1)
  {
    hide Queued, RunBy, Q;
    var (s', f) := Dequeue(s, i);
    forall p: Pid
      ensures PlacedOnce(s', h, f, p)
    {
      DequeueCount(s, i, p);
      assert PlacedOnce(s, h, None, p);
    }
  }

  lemma EnqueueMid(s: Sched, i: nat, h: int, x: Pid)
    requires Mid(s, h, Some(x)) && i < HARTS
    ensures Mid(Enqueue(s, i, x), h, None)
  {
    hide Queued, RunBy, Q;
    var s' := Enqueue(s, i, x);
    forall p: Pid
      ensures PlacedOnce(s', h, None, p)
    {
      EnqueueCount(s, i, x, p);
      assert PlacedOnce(s, h, Some(x), p);
    }
  }

  lemma {:induction false} StealMid(s: Sched, h: nat, i: nat)
    requires Mid(s, h, None) && h < HARTS && 1 <= i <= HARTS
    ensures Mid(Steal(s, h, i).0, h, Steal(s, h, i).1)
    decreases HARTS - i
  {
    hide PlacedOnce;
    if i < HARTS {
      var v := Victim(h, i);
      var (s', f) := Dequeue(s, v);
      DequeueMid(s, v, h);
      if f.None? {
        StealMid(s, h, i + 1);
      } else if Pinned(s', f.value, h) {
        EnqueueMid(s', v, h, f.value);
        StealMid(Enqueue(s', v, f.value), h, i + 1);
      }
    }
  }

  lemma PickOwnMid(s: Sched, h: nat)
    requires Mid(s, h, None) && h < HARTS
    ensures Mid(PickOwn(s, h).0, h, PickOwn(s, h).1)
  {
    hide PlacedOnce;
    var (s', f) := Dequeue(s, h);
    DequeueMid(s, h, h);
    if f.Some? && Pinned(s', f.value, h) {
      EnqueueMid(s', Affinity(s', f.value), h, f.value);
      DequeueMid(Enqueue(s', Affinity(s', f.value), f.value), h, h);
    }
  }

  lemma RunInv(s: Sched, h: nat, x: Pid)
    requires Mid(s, h, Some(x)) && h < HARTS
    ensures Inv(Run(s, h, x))
  {
    hide Queued, RunBy;
    var s' := Run(s, h, x);
    forall p: Pid
      ensures PlacedOnce(s', -1, None, p)
    {
      RunByUpdate(s.current, HARTS, h, Some(x), p);
      RunByUpdate(s'.current, HARTS, h, Some(x), p);
      assert PlacedOnce(s, h, Some(x), p) && PlacedOnce(s, h, Some(x), x);
    }
  }

  /** The hart's own process, seen with the hart left out. */
  lemma OwnCount(s: Sched, h: nat, p: Pid)
    requires Sized(s) && h < HARTS
    ensures C(s, -1, p) == C(s, h, p) + if s.current[h] == Some(p) then 1 else 0
  {
    RunByUpdate(s.current, HARTS, h, None, p);
  }

  lemma RequeueMid(s: Sched, h: nat)
    requires Inv(s) && h < HARTS
    ensures Mid(Requeue(s, h), h, None)
    ensures s.current[h].Some? ==>
            C(s, h, s.current[h].value) == 0 && StateOf(s, s.current[h].value) in {Running, Exited}
  {
    if s.current[h].Some? {
      CurrentNotQueued(s, h);
    }
    hide Queued, RunBy, Q, InQueue;
    var s', c := Requeue(s, h), s.current[h];
    forall p: Pid
      ensures PlacedOnce(s', h, None, p)
    {
      OwnCount(s, h, p);
      if c.Some? {
        EnqueueCount(SetState(s, c.value, Ready), h, c.value, p);
        StateKeepsQueues(s, c.value, Ready, p);
      }
      assert PlacedOnce(s, -1, None, p);
    }
    if c.Some? {
      OwnCount(s, h, c.value);
      assert PlacedOnce(s, -1, None, c.value);
    }
  }

  /** A process that no queue counts is in none. */
  lemma NotCounted(s: Sched, p: Pid)
    requires Sized(s) && Q(s, p) == 0
    ensures !InQueue(s, p)
  {
    forall h: nat | h < HARTS
      ensures p !in s.queues[h]
    {
      InQueueCounts(s.queues, HARTS, h, p);
    }
  }

  /** The process a hart runs is in no queue. */
  lemma CurrentNotQueued(s: Sched, h: nat)
    requires Inv(s) && h < HARTS && s.current[h].Some?
    ensures !InQueue(s, s.current[h].value)
  {
    var c := s.current[h].value;
    hide Queued, RunBy;
    OwnCount(s, h, c);
    assert PlacedOnce(s, -1, None, c);
    NotCounted(s, c);
  }

  lemma StateKeepsQueues(s: Sched, x: Pid, state: ProcState, p: Pid)
    requires Sized(s)
    ensures Q(SetState(s, x, state), p) == Q(s, p)
  {
  }

  /** Going on without a new process is sound exactly when the old one was not queued meanwhile. */
  lemma ResumeInvIff(s: Sched, h: nat)
    requires Mid(s, h, None) && h < HARTS
    requires s.current[h].Some? ==> C(s, h, s.current[h].value) == 0 && s.current[h].value in s.procs
    ensures Inv(Resume(s, h)) <==> (s.current[h].Some? ==> StateOf(s, s.current[h].value) != Ready)
  {
    hide Queued, RunBy;
    var s', c := Resume(s, h), s.current[h];
    if c.Some? && StateOf(s, c.value) == Ready {
      OwnCount(s', h, c.value);
      StateKeepsQueues(s, c.value, Running, c.value);
      assert PlacedOnce(s, h, None, c.value);
      assert !PlacedOnce(s', -1, None, c.value);
    } else {
      forall p: Pid
        ensures PlacedOnce(s', -1, None, p)
      {
        OwnCount(s', h, p);
        RunByUpdate(s.current, HARTS, h, None, p);
        if c.Some? {
          StateKeepsQueues(s, c.value, Running, p);
        }
        assert PlacedOnce(s, h, None, p);
      }
    }
  }

  // ----- stealing

  /** Hart `v` has a head that may run on `h`. */
  predicate Stealable(s: Sched, v: nat, h: nat)
    requires Sized(s) && v < HARTS
  {
    s.queues[v] != [] && !Pinned(s, s.queues[v][0], h)
  }

  lemma VictimsDiffer(h: nat, i: nat, j: nat)
    requires h < HARTS && 1 <= i < j < HARTS
    ensures Victim(h, i) != Victim(h, j) && Victim(h, i) != h
  {
  }

  /** Sending a victim's head to its tail leaves the other queues alone. */
  lemma RotateKeeps(s: Sched, v: nat, w: nat, h: nat)
    requires Sized(s) && v < HARTS && w < HARTS && v != w && s.queues[v] != []
    ensures var s' := Enqueue(Dequeue(s, v).0, v, s.queues[v][0]);
            && s'.procs == s.procs && s'.current == s.current && s'.queues[w] == s.queues[w]
            && Stealable(s', w, h) == Stealable(s, w, h)
  {
  }

  /** Stealing touches neither the hart's own queue nor any process. */
  lemma {:induction false} StealFrame(s: Sched, h: nat, i: nat)
    requires Sized(s) && h < HARTS && 1 <= i <= HARTS
    ensures var s' := Steal(s, h, i).0;
            s'.queues[h] == s.queues[h] && s'.current == s.current && s'.procs == s.procs
    decreases HARTS - i
  {
    if i < HARTS {
      var v := Victim(h, i);
      var (s', f) := Dequeue(s, v);
      if f.None? {
        StealFrame(s, h, i + 1);
      } else if Pinned(s', f.value, h) {
        StealFrame(Enqueue(s', v, f.value), h, i + 1);
      }
    }
  }

  /** It comes back empty-handed only if no victim has a head to give. */
  lemma {:induction false} StealMisses(s: Sched, h: nat, i: nat, j: nat)
    requires Sized(s) && h < HARTS && 1 <= i <= j < HARTS && Steal(s, h, i).1 == None
    ensures !Stealable(s, Victim(h, j), h)
    decreases HARTS - i
  {
    var v := Victim(h, i);
    var (s', f) := Dequeue(s, v);
    if i < j {
      VictimsDiffer(h, i, j);
      if f.None? {
        StealMisses(s, h, i + 1, j);
      } else {
        RotateKeeps(s, v, Victim(h, j), h);
        StealMisses(Enqueue(s', v, f.value), h, i + 1, j);
      }
    }
  }

  /** It finds a process only where there was one to give. */
  lemma {:induction false} StealFinds(s: Sched, h: nat, i: nat) returns (j: nat)
    requires Sized(s) && h < HARTS && 1 <= i <= HARTS && Steal(s, h, i).1.Some?
    ensures i <= j < HARTS && Stealable(s, Victim(h, j), h)
    decreases HARTS - i
  {
    var v := Victim(h, i);
    var (s', f) := Dequeue(s, v);
    if f.None? {
      j := StealFinds(s, h, i + 1);
    } else if Pinned(s', f.value, h) {
      j := StealFinds(Enqueue(s', v, f.value), h, i + 1);
      VictimsDiffer(h, i, j);
      RotateKeeps(s, v, Victim(h, j), h);
    } else {
      j := i;
    }
  }

  lemma StealFailsIff(s: Sched, h: nat)
    requires Sized(s) && h < HARTS
    ensures Steal(s, h, 1).1 == None <==> forall v: nat | v < HARTS && v != h :: !Stealable(s, v, h)
  {
    hide Stealable, Steal;
    if Steal(s, h, 1).1 == None {
      forall v: nat | v < HARTS && v != h
        ensures !Stealable(s, v, h)
      {
        var j := if v > h then v - h else v + HARTS - h;
        assert v == Victim(h, j);
        StealMisses(s, h, 1, j);
      }
    } else {
      var j := StealFinds(s, h, 1);
      assert Victim(h, j) != h;
    }
  }

  // ----- a whole yield

  /**
   * The one situation a yield cannot handle: the running process is pinned to another hart, nothing
   * else is queued here, and no other hart has a head to give.
   */
  predicate Stranded(s: Sched, h: nat)
    requires Sized(s) && h < HARTS
  {
    && s.current[h].Some? && StateOf(s, s.current[h].value) == Running && Pinned(s, s.current[h].value, h)
    && s.queues[h] == [] && forall v: nat | v < HARTS && v != h :: !Stealable(s, v, h)
  }

  /** With the running process back in its queue, only a stranded one leaves the hart without any. */
  lemma RequeuedFindsOne(s: Sched, h: nat)
    requires Sized(s) && h < HARTS && s.current[h].Some? && StateOf(s, s.current[h].value) == Running
    requires !InQueue(s, s.current[h].value)
    ensures var (s1, own) := PickOwn(Requeue(s, h), h);
            && (own == None <==> s.queues[h] == [] && Pinned(s, s.current[h].value, h))
            && (own == None ==> s1.queues[h] == [] && StateOf(s1, s.current[h].value) == Ready
                                && forall v: nat | v < HARTS && v != h :: Stealable(s1, v, h) == Stealable(s, v, h))
  {
    var c := s.current[h].value;
    var s0 := Requeue(s, h);
    assert s0.queues[h] == s.queues[h] + [c];
    assert forall p :: Affinity(s0, p) == Affinity(s, p);
  }

  /** PickOwn changes only queues. */
  lemma PickOwnFrame(s: Sched, h: nat)
    requires Sized(s) && h < HARTS
    ensures var s1 := PickOwn(s, h).0; s1.current == s.current && s1.procs == s.procs
    ensures PickOwn(s, h).1 == None ==> PickOwn(s, h).0.queues[h] == []
  {
  }

  /** The old process of hart `h` is known, and no other hart runs it. */
  ghost predicate OwnOnly(s: Sched, h: nat)
    requires Sized(s) && h < HARTS
  {
    s.current[h].Some? ==> s.current[h].value in s.procs && C(s, h, s.current[h].value) == 0
  }

  /** Switching is sound unless nothing is found and the old process has been queued meanwhile. */
  lemma SwitchInvIff(s: Sched, h: nat)
    requires Mid(s, h, None) && h < HARTS && OwnOnly(s, h)
    ensures Inv(Switch(s, h)) <==>
              !(PickOwn(s, h).1 == None && Steal(PickOwn(s, h).0, h, 1).1 == None
                && s.current[h].Some? && StateOf(s, s.current[h].value) == Ready)
  {
    hide PlacedOnce, Steal, PickOwn, Resume, Run, Q, RunBy;
    PickOwnMid(s, h);
    PickOwnFrame(s, h);
    var (s1, own) := PickOwn(s, h);
    if own.Some? {
      RunInv(s1, h, own.value);
    } else {
      StealMid(s1, h, 1);
      StealFrame(s1, h, 1);
      var (s2, stolen) := Steal(s1, h, 1);
      if stolen.Some? {
        RunInv(s2, h, stolen.value);
      } else {
        ResumeInvIff(s2, h);
      }
    }
  }

  /**
   * A yield keeps the invariant exactly when the hart's process is not stranded. In particular a
   * process that is not pinned to another hart can always yield.
   */
  lemma YieldInvIff(s: Sched, h: nat)
    requires Inv(s) && h < HARTS
    ensures Inv(Yield(s, h)) <==> !Stranded(s, h)
  {
    var c := s.current[h];
    var s0 := Requeue(s, h);
    RequeueMid(s, h);
    assert OwnOnly(s0, h);
    SwitchInvIff(s0, h);
    if c.Some? && StateOf(s, c.value) == Running {
      CurrentNotQueued(s, h);
      RequeuedFindsOne(s, h);
      var s1 := PickOwn(s0, h).0;
      hide PlacedOnce, Steal, PickOwn, Stealable, Switch, Inv, Mid, Requeue;
      StealFailsIff(s1, h);
    }
  }

  /** Blocking on hart `h`: its process is marked waiting and the hart yields. */
  function Block(s: Sched, h: nat): (r: Sched)
    requires Sized(s) && h < HARTS
    ensures Sized(r)
  {
    if s.current[h].Some? then Yield(SetState(s, s.current[h].value, Waiting), h) else Yield(s, h)
  }

  lemma BlockInv(s: Sched, h: nat)
    requires Inv(s) && h < HARTS
    ensures Inv(Block(s, h))
  {
    var c := s.current[h];
    if c.None? {
      YieldInvIff(s, h);
    } else {
      var s0 := SetState(s, c.value, Waiting);
      hide Queued, RunBy;
      forall p: Pid
        ensures PlacedOnce(s0, h, None, p)
      {
        OwnCount(s, h, p);
        assert PlacedOnce(s, -1, None, p) && PlacedOnce(s, -1, None, c.value);
      }
      OwnCount(s, h, c.value);
      assert PlacedOnce(s, -1, None, c.value);
      SwitchInvIff(s0, h);
    }
  }

  /** A process pinned to hart 0 that runs on hart 1, alone on the machine. */
  function Alone(): Sched {
    Sched(map[1 := Proc(Running, 0)], seq(HARTS, _ => []), seq(HARTS, (h: nat) => if h == 1 then Some(1) else None))
  }

  lemma AloneInv()
    ensures Inv(Alone()) && Stranded(Alone(), 1)
  {
    var s := Alone();
    forall p: Pid
      ensures PlacedOnce(s, -1, None, p)
    {
      NoneQueued(s.queues, HARTS, p);
      OwnCount(s, 1, p);
      NoneRun(s.current, HARTS, 1, p);
    }
  }

  lemma AloneRequeued()
    ensures var s1 := PickOwn(Requeue(Alone(), 1), 1).0;
            && s1.queues[0] == [1] && Pinned(s1, 1, 1) && s1.current[1] == Some(1) && StateOf(s1, 1) == Ready
            && forall v: nat | 1 <= v < HARTS :: s1.queues[v] == []
  {
    assert !InQueue(Alone(), 1);
    var s0 := Requeue(Alone(), 1);
    assert s0.queues[1] == [1];
  }

  /** When it yields it ends up queued on hart 0 and still running on hart 1. */
  lemma AloneStranded()
    ensures Inv(Alone()) && Stranded(Alone(), 1)
    ensures var s := Yield(Alone(), 1); s.queues[0] == [1] && s.current[1] == Some(1) && !Inv(s)
  {
    AloneInv();
    YieldInvIff(Alone(), 1);
    AloneRequeued();
    assert !InQueue(Alone(), 1);
    RequeuedFindsOne(Alone(), 1);
    hide Inv, Stranded, Alone, Requeue, PickOwn;
    var s1 := PickOwn(Requeue(Alone(), 1), 1).0;
    StealNothing(s1);
    StealFrame(s1, 1, 1);
  }

  lemma {:induction false} NoneQueued(queues: seq<seq<Pid>>, n: nat, p: Pid)
    requires n <= |queues| && forall h: nat | h < n :: queues[h] == []
    ensures Queued(queues, n, p) == 0
  {
    if n > 0 {
      NoneQueued(queues, n - 1, p);
    }
  }

  lemma {:induction false} NoneRun(current: seq<Option<Pid>>, n: nat, h: nat, p: Pid)
    requires n <= |current| && forall k: nat | k < n && k != h :: current[k] == None
    ensures RunBy(current, n, h, p) == 0
  {
    if n > 0 {
      NoneRun(current, n - 1, h, p);
    }
  }

  /** A single queue entry that may not be taken stays where it is. */
  lemma StealNothing(s: Sched)
    requires Sized(s) && s.queues[0] == [1] && Pinned(s, 1, 1) && forall v: nat | 1 <= v < HARTS :: s.queues[v] == []
    ensures Steal(s, 1, 1).0.queues[0] == [1] && Steal(s, 1, 1).1 == None
  {
    assert Steal(s, 1, 1) == Steal(s, 1, 2) == Steal(s, 1, 3) == Steal(s, 1, 4) == Steal(s, 1, 5);
    assert Steal(s, 1, 5) == Steal(s, 1, 6) == Steal(s, 1, 7);
    var s' := Enqueue(Dequeue(s, 0).0, 0, 1);
    assert Steal(s, 1, 7) == Steal(s', 1, 8);
  }

  // ----- creation, exit and wake-up

  /** A new process, queued on the creating hart. */
  function Create(s: Sched, h: nat, p: Pid, affinity: int): (r: Sched)
    requires Sized(s) && h < HARTS
    ensures Sized(r)
  {
    Enqueue(Sched(s.procs[p := Proc(Ready, affinity)], s.queues, s.current), h, p)
  }

  lemma CreateInv(s: Sched, h: nat, p: Pid, affinity: int)
    requires Inv(s) && h < HARTS && StateOf(s, p) == Free
    ensures Inv(Create(s, h, p, affinity))
  {
    hide Queued, RunBy;
    var s0 := Sched(s.procs[p := Proc(Ready, affinity)], s.queues, s.current);
    forall x: Pid
      ensures PlacedOnce(s0, -1, Some(p), x)
    {
      assert PlacedOnce(s, -1, None, x);
    }
    EnqueueMid(s0, h, -1, p);
  }

  /** A waiting process made ready by a signal or by the exit of a child, queued on hart `h`. */
  function Wake(s: Sched, h: nat, p: Pid): (r: Sched)
    requires Sized(s) && h < HARTS
    ensures Sized(r)
  {
    if StateOf(s, p) == Waiting then Enqueue(SetState(s, p, Ready), h, p) else s
  }

  lemma WakeInv(s: Sched, h: nat, p: Pid)
    requires Inv(s) && h < HARTS
    ensures Inv(Wake(s, h, p))
  {
    if StateOf(s, p) == Waiting {
      hide Queued, RunBy;
      var s0 := SetState(s, p, Ready);
      forall x: Pid
        ensures PlacedOnce(s0, -1, Some(p), x)
      {
        assert PlacedOnce(s, -1, None, x);
      }
      EnqueueMid(s0, h, -1, p);
    }
  }

  /** The process of hart `h` exits and its parent, if waiting, is woken. */
  function Exit(s: Sched, h: nat, parent: Pid): (r: Sched)
    requires Sized(s) && h < HARTS
    ensures Sized(r)
  {
    if s.current[h].Some? then Wake(SetState(s, s.current[h].value, Exited), h, parent) else s
  }

  lemma ExitedInv(s: Sched, h: nat)
    requires Inv(s) && h < HARTS && s.current[h].Some?
    ensures Inv(SetState(s, s.current[h].value, Exited))
  {
    hide Queued, RunBy;
    var c := s.current[h].value;
    var s0 := SetState(s, c, Exited);
    forall x: Pid
      ensures PlacedOnce(s0, -1, None, x)
    {
      OwnCount(s, h, x);
      assert PlacedOnce(s, -1, None, x) && PlacedOnce(s, -1, None, c);
    }
  }

  lemma ExitInv(s: Sched, h: nat, parent: Pid)
    requires Inv(s) && h < HARTS
    ensures Inv(Exit(s, h, parent))
  {
    if s.current[h].Some? {
      ExitedInv(s, h);
      WakeInv(SetState(s, s.current[h].value, Exited), h, parent);
    }
  }

  /** A process is pinned to a hart, or set free with -1. */
  function Pin(s: Sched, p: Pid, affinity: int): (r: Sched)
    ensures r.queues == s.queues && r.current == s.current
  {
    if p in s.procs then Sched(s.procs[p := Proc(s.procs[p].state, affinity)], s.queues, s.current) else s
  }

  lemma PinInv(s: Sched, p: Pid, affinity: int)
    requires Inv(s)
    ensures Inv(Pin(s, p, affinity))
  {
    hide Queued, RunBy;
    forall x: Pid
      ensures PlacedOnce(Pin(s, p, affinity), -1, None, x)
    {
      assert PlacedOnce(s, -1, None, x);
    }
  }

  /**
   * The channels' wake-up: every process on the waiting list is marked ready, whatever its state,
   * and put in no queue.
   */
  function ChannelWake(s: Sched, waiting: seq<Pid>): (r: Sched)
    ensures r.queues == s.queues && r.current == s.current
    decreases |waiting|
  {
    if waiting == [] then s else ChannelWake(SetState(s, waiting[0], Ready), waiting[1..])
  }

  lemma {:induction false} ChannelWakeStep(s: Sched, waiting: seq<Pid>, i: nat)
    requires i < |waiting|
    ensures ChannelWake(s, waiting[i..]) == ChannelWake(SetState(s, waiting[i], Ready), waiting[i + 1..])
  {
    assert waiting[i..][0] == waiting[i] && waiting[i..][1..] == waiting[i + 1..];
  }

  /** It marks the listed processes, and no others. */
  lemma {:induction false} ChannelWakeMarks(s: Sched, waiting: seq<Pid>, p: Pid)
    ensures StateOf(ChannelWake(s, waiting), p) == if p in waiting && p in s.procs then Ready else StateOf(s, p)
    ensures p in ChannelWake(s, waiting).procs <==> p in s.procs
    decreases |waiting|
  {
    if waiting != [] {
      ChannelWakeMarks(SetState(s, waiting[0], Ready), waiting[1..], p);
    }
  }

  lemma {:induction false} ChannelWakeNothing(s: Sched, waiting: seq<Pid>)
    requires forall p | p in waiting :: StateOf(s, p) == Ready
    ensures ChannelWake(s, waiting) == s
    decreases |waiting|
  {
    if waiting != [] {
      var p := waiting[0];
      assert p in waiting && p in s.procs;
      assert s.procs[p := Proc(Ready, s.procs[p].affinity)] == s.procs;
      ChannelWakeNothing(s, waiting[1..]);
    }
  }

  /** It loses every process it changes: the invariant survives exactly when all listed ones were ready. */
  lemma ChannelWakeInvIff(s: Sched, waiting: seq<Pid>)
    requires Inv(s) && forall p | p in waiting :: p in s.procs
    ensures Inv(ChannelWake(s, waiting)) <==> forall p | p in waiting :: StateOf(s, p) == Ready
  {
    if p :| p in waiting && StateOf(s, p) != Ready {
      hide Queued, RunBy;
      ChannelWakeMarks(s, waiting, p);
      assert PlacedOnce(s, -1, None, p);
      assert !PlacedOnce(ChannelWake(s, waiting), -1, None, p);
    } else {
      ChannelWakeNothing(s, waiting);
    }
  }

  /**
   * A process alone on the machine waits on an empty channel: nobody else can run, so it goes on
   * running, still listed. The next message marks it ready although a hart runs it.
   */
  lemma LoneReceiverLost()
    ensures var s := Block(Alone(), 1);
            && Inv(s) && StateOf(s, 1) == Running && s.current[1] == Some(1)
            && StateOf(ChannelWake(s, [1]), 1) == Ready && !Inv(ChannelWake(s, [1]))
  {
    AloneInv();
    BlockInv(Alone(), 1);
    var s0 := SetState(Alone(), 1, Waiting);
    assert PickOwn(s0, 1) == (s0, None);
    StealEmpty(s0, 1, 1);
    assert Block(Alone(), 1) == SetState(s0, 1, Running);
    var s := Block(Alone(), 1);
    hide Inv, Block, ChannelWake;
    ChannelWakeMarks(s, [1], 1);
    ChannelWakeInvIff(s, [1]);
  }

  /** With all queues empty there is nothing to steal. */
  lemma {:induction false} StealEmpty(s: Sched, h: nat, i: nat)
    requires Sized(s) && h < HARTS && 1 <= i <= HARTS && forall v: nat | v < HARTS :: s.queues[v] == []
    ensures Steal(s, h, i) == (s, None)
    decreases HARTS - i
  {
    if i < HARTS {
      StealEmpty(s, h, i + 1);
    }
  }

  // ----- booting

  /** No process, and every hart idle. */
  function Empty(): Sched {
    Sched(map[], seq(HARTS, _ => []), seq(HARTS, _ => None))
  }

  lemma EmptyInv()
    ensures Inv(Empty())
  {
    var s := Empty();
    forall p: Pid
      ensures PlacedOnce(s, -1, None, p)
    {
      NoneQueued(s.queues, HARTS, p);
      OwnCount(s, 0, p);
      NoneRun(s.current, HARTS, 0, p);
    }
  }

  /** The first process is entered: hart `h` runs it while it stays in its queue. */
  function EnterUser(s: Sched, h: nat, p: Pid): (r: Sched)
    requires Sized(s) && h < HARTS
    ensures Sized(r)
  {
    WithCurrent(SetState(s, p, Running), h, Some(p))
  }

  /** Hart `h` finds a process to run, in its own queue or in another. */
  predicate FindsOne(s: Sched, h: nat)
    requires Sized(s) && h < HARTS
  {
    PickOwn(s, h).1.Some? || Steal(PickOwn(s, h).0, h, 1).1.Some?
  }

  /**
   * A process entered while ready is both queued and running. Its hart's next yield puts that
   * right exactly when the hart finds a process, and so it does if it finds that process itself.
   */
  lemma FirstYieldInvIff(s: Sched, h: nat, p: Pid)
    requires Inv(s) && h < HARTS && s.current[h] == None && StateOf(s, p) == Ready
    ensures !Inv(EnterUser(s, h, p))
    ensures Inv(Yield(EnterUser(s, h, p), h)) <==> FindsOne(WithCurrent(s, h, Some(p)), h)
    ensures p in s.queues[h] && !Pinned(s, p, h) ==> Inv(Yield(EnterUser(s, h, p), h))
  {
    var s' := WithCurrent(s, h, Some(p));
    EnteredTwice(s, h, p);
    EnteredRequeued(s, h, p);
    EnteredMid(s, h, p);
    hide PlacedOnce, Steal, Inv, Mid, EnterUser, OwnOnly, Requeue, Switch;
    SwitchInvIff(s', h);
  }

  lemma EnteredTwice(s: Sched, h: nat, p: Pid)
    requires Inv(s) && h < HARTS && s.current[h] == None && StateOf(s, p) == Ready
    ensures !Inv(EnterUser(s, h, p))
  {
    var e := EnterUser(s, h, p);
    hide Queued, RunBy;
    assert PlacedOnce(s, -1, None, p);
    OwnCount(e, h, p);
    assert !PlacedOnce(e, -1, None, p);
  }

  /** The yield finds it queued, so it only marks it ready again. */
  lemma EnteredRequeued(s: Sched, h: nat, p: Pid)
    requires Inv(s) && h < HARTS && StateOf(s, p) == Ready
    ensures Requeue(EnterUser(s, h, p), h) == WithCurrent(s, h, Some(p))
  {
    InvMeans(s, p, h, h, 0, 0);
    hide Inv;
    var e := EnterUser(s, h, p);
    assert InQueue(e, p) by {
      var k: nat :| k < HARTS && p in s.queues[k];
      assert p in e.queues[k];
    }
    assert e.procs[p := Proc(Ready, e.procs[p].affinity)] == s.procs;
  }

  lemma EnteredMid(s: Sched, h: nat, p: Pid)
    requires Inv(s) && h < HARTS && s.current[h] == None && StateOf(s, p) == Ready
    ensures Mid(WithCurrent(s, h, Some(p)), h, None) && OwnOnly(WithCurrent(s, h, Some(p)), h)
  {
    var s' := WithCurrent(s, h, Some(p));
    hide Queued, RunBy;
    forall x: Pid
      ensures PlacedOnce(s', h, None, x)
    {
      RunByUpdate(s.current, HARTS, h, Some(p), x);
      assert PlacedOnce(s, -1, None, x);
    }
    RunByUpdate(s.current, HARTS, h, Some(p), p);
    assert PlacedOnce(s, -1, None, p);
  }

  /** The kernel's start: process 1 created on hart 0, entered there, and the first yield. */
  function Booted(): Sched {
    Yield(EnterUser(Create(Empty(), 0, 1, 0), 0, 1), 0)
  }

  lemma BootedInv()
    ensures Inv(Booted())
  {
    EmptyInv();
    CreateInv(Empty(), 0, 1, 0);
    var s := Create(Empty(), 0, 1, 0);
    assert s.queues[0] == [1] && s.current[0] == None && StateOf(s, 1) == Ready && !Pinned(s, 1, 0);
    hide Inv, Yield, EnterUser, Create, Empty;
    FirstYieldInvIff(s, 0, 1);
  }

  // ----- runs

  datatype Step =
    | DoYield(h: nat)
    | DoBlock(h: nat)
    | DoCreate(h: nat, p: Pid, affinity: int)
    | DoWake(h: nat, p: Pid)
    | DoExit(h: nat, parent: Pid)
    | DoPin(h: nat, p: Pid, affinity: int)

  /** A step that the kernel may take: its hart exists, a new pid is new, a yield is not stranded. */
  predicate Allowed(s: Sched, step: Step)
    requires Sized(s)
  {
    && step.h < HARTS
    && (step.DoYield? ==> !Stranded(s, step.h))
    && (step.DoCreate? ==> StateOf(s, step.p) == Free)
  }

  function Apply(s: Sched, step: Step): (r: Sched)
    requires Sized(s) && step.h < HARTS
    ensures Sized(r)
  {
    match step
    case DoYield(h) => Yield(s, h)
    case DoBlock(h) => Block(s, h)
    case DoCreate(h, p, affinity) => Create(s, h, p, affinity)
    case DoWake(h, p) => Wake(s, h, p)
    case DoExit(h, parent) => Exit(s, h, parent)
    case DoPin(_, p, affinity) => Pin(s, p, affinity)
  }

  predicate IsRun(states: seq<Sched>, steps: seq<Step>) {
    && |states| == |steps| + 1 && Sized(states[0])
    && forall i: nat | i < |steps| ::
         Sized(states[i]) && Allowed(states[i], steps[i]) && states[i + 1] == Apply(states[i], steps[i])
  }

  /** Every state of every interleaving satisfies the invariant. */
  lemma {:induction false} RunKeepsInv(states: seq<Sched>, steps: seq<Step>, i: nat)
    requires IsRun(states, steps) && Inv(states[0]) && i < |states|
    ensures Inv(states[i])
  {
    hide Inv, Yield, Block, Create, Wake, Exit, Pin, Stranded;
    if i > 0 {
      RunKeepsInv(states, steps, i - 1);
      var s := states[i - 1];
      match steps[i - 1]
      case DoYield(h) => YieldInvIff(s, h);
      case DoBlock(h) => BlockInv(s, h);
      case DoCreate(h, p, affinity) => CreateInv(s, h, p, affinity);
      case DoWake(h, p) => WakeInv(s, h, p);
      case DoExit(h, parent) => ExitInv(s, h, parent);
      case DoPin(_, p, affinity) => PinInv(s, p, affinity);
    }
  }

  /** In particular every state the kernel reaches from its start does. */
  lemma BootKeepsInv(states: seq<Sched>, steps: seq<Step>, i: nat)
    requires IsRun(states, steps) && states[0] == Booted() && i < |states|
    ensures Inv(states[i])
  {
    hide Inv, Booted;
    BootedInv();
    RunKeepsInv(states, steps, i);
  }

  /** What the invariant says about one process, in plain terms. */
  lemma InvMeans(s: Sched, p: Pid, h: nat, h': nat, i: nat, j: nat)
    requires Inv(s) && h < HARTS && h' < HARTS
    ensures i < |s.queues[h]| && s.queues[h][i] == p ==> StateOf(s, p) == Ready && s.current[h'] != Some(p)
    ensures i < |s.queues[h]| && j < |s.queues[h']| && s.queues[h][i] == p == s.queues[h'][j] ==> (h, i) == (h', j)
    ensures s.current[h] == Some(p) == s.current[h'] ==> h == h'
    ensures StateOf(s, p) == Ready ==> exists k: nat :: k < HARTS && p in s.queues[k]
  {
    assert PlacedOnce(s, -1, None, p);
    InQueueCounts(s.queues, HARTS, h, p);
    InQueueCounts(s.queues, HARTS, h', p);
    if h != h' {
      TwoQueuesCount(s.queues, HARTS, h, h', p);
    }
    TwoHartsCount(s.current, HARTS, h, h', p);
    if i < |s.queues[h]| && j < |s.queues[h]| && s.queues[h][i] == p == s.queues[h][j] && i != j {
      TwiceCounts(s.queues[h], i, j, p);
    }
    if StateOf(s, p) == Ready {
      CountFinds(s.queues, HARTS, p);
    }
  }

  lemma {:induction false} InQueueCounts(queues: seq<seq<Pid>>, n: nat, h: nat, p: Pid)
    requires n <= |queues| && h < |queues|
    ensures h < n ==> Queued(queues, n, p) >= Times(queues[h], p)
  {
    if n > 0 {
      InQueueCounts(queues, n - 1, h, p);
    }
  }

  lemma {:induction false} TwoQueuesCount(queues: seq<seq<Pid>>, n: nat, h: nat, h': nat, p: Pid)
    requires n <= |queues| && h < |queues| && h' < |queues| && h != h'
    ensures h < n && h' < n ==> Queued(queues, n, p) >= Times(queues[h], p) + Times(queues[h'], p)
  {
    if n > 0 {
      TwoQueuesCount(queues, n - 1, h, h', p);
      InQueueCounts(queues, n - 1, h, p);
      InQueueCounts(queues, n - 1, h', p);
    }
  }

  lemma {:induction false} TwoHartsCount(current: seq<Option<Pid>>, n: nat, h: nat, h': nat, p: Pid)
    requires n <= |current| && h < |current| && h' < |current|
    ensures h < n && current[h] == Some(p) ==> RunBy(current, n, -1, p) >= 1
    ensures h' < n && current[h'] == Some(p) ==> RunBy(current, n, -1, p) >= 1
    ensures h != h' && h < n && h' < n && current[h] == Some(p) == current[h'] ==> RunBy(current, n, -1, p) >= 2
  {
    if n > 0 {
      TwoHartsCount(current, n - 1, h, h', p);
    }
  }

  lemma TwiceCounts(q: seq<Pid>, i: nat, j: nat, p: Pid)
    requires i < |q| && j < |q| && i != j && q[i] == p == q[j]
    ensures Times(q, p) >= 2
  {
    var lo, hi := if i < j then i else j, if i < j then j else i;
    assert q == q[..lo] + [p] + q[lo + 1..hi] + [p] + q[hi + 1..];
  }

  lemma {:induction false} CountFinds(queues: seq<seq<Pid>>, n: nat, p: Pid)
    requires n <= |queues| && Queued(queues, n, p) >= 1
    ensures exists k: nat :: k < n && p in queues[k]
  {
    if Times(queues[n - 1], p) == 0 {
      CountFinds(queues, n - 1, p);
    }
  }
}
