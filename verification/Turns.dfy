/** Whose turn it is: which process a hart runs next, and what becomes of the others. */
module SchedulerTurns {
  import opened Base
  import opened SchedulerSpec

  /** The processes a yield of hart `h` chooses from: its queue, and the running one behind it. */
  function Line(s: Sched, h: nat): seq<Pid>
    requires Sized(s) && h < HARTS
  {
    s.queues[h] + match s.current[h] { case Some(c) => if StateOf(s, c) == Running then [c] else [] case None => [] }
  }

  /** A process pinned to another hart that exists. */
  predicate Elsewhere(s: Sched, p: Pid, h: nat) {
    p in s.procs && 0 <= s.procs[p].affinity < 8 && s.procs[p].affinity != h
  }

  /** Only the processes in `ps` differ, and only in their state. */
  ghost predicate OthersSame(s: Sched, s': Sched, ps: set<Pid>) {
    && s'.procs.Keys == s.procs.Keys
    && (forall p | p in s.procs :: s'.procs[p].affinity == s.procs[p].affinity)
    && forall p | p in s.procs && p !in ps :: s'.procs[p] == s.procs[p]
  }

  lemma RequeueLine(s: Sched, h: nat)
    requires Inv(s) && h < HARTS
    ensures var s0 := Requeue(s, h);
            && s0.queues == s.queues[h := Line(s, h)] && s0.current == s.current
            && OthersSame(s, s0, if s.current[h].Some? then {s.current[h].value} else {})
            && forall p | p in Line(s, h) :: p in s0.procs && s0.procs[p].state == Ready
  {
    var c := s.current[h];
    if c.Some? {
      CurrentNotQueued(s, h);
    }
    forall p | p in s.queues[h]
      ensures StateOf(s, p) == Ready && InQueue(s, p)
    {
      QueuedReady(s, h, p);
    }
    hide Inv;
    assert s.queues[h := s.queues[h]] == s.queues;
    var s0 := Requeue(s, h);
    if c.Some? && StateOf(s, c.value) == Running {
      assert s0 == Enqueue(SetState(s, c.value, Ready), h, c.value);
    } else {
      assert s0 == s && Line(s, h) == s.queues[h];
    }
  }

  lemma QueuedReady(s: Sched, h: nat, p: Pid)
    requires Inv(s) && h < HARTS && p in s.queues[h]
    ensures StateOf(s, p) == Ready
  {
    assert PlacedOnce(s, -1, None, p);
    hide Queued, RunBy;
    QueuedAtLeast(s.queues, HARTS, h, p);
  }

  lemma {:induction false} QueuedAtLeast(queues: seq<seq<Pid>>, n: nat, h: nat, p: Pid)
    requires h < n <= |queues| && p in queues[h]
    ensures Queued(queues, n, p) > 0
  {
    if h < n - 1 {
      QueuedAtLeast(queues, n - 1, h, p);
    }
  }

  /** The first in line runs next, and the process that ran goes to the end of the line. */
  lemma YieldTakesFirst(s: Sched, h: nat)
    requires Inv(s) && h < HARTS && Line(s, h) != [] && !Elsewhere(s, Line(s, h)[0], h)
    ensures var s', p := Yield(s, h), Line(s, h)[0];
            && s'.current == s.current[h := Some(p)] && s'.queues == s.queues[h := Line(s, h)[1..]]
            && StateOf(s', p) == Running
            && OthersSame(s, s', {p} + if s.current[h].Some? then {s.current[h].value} else {})
            && forall q | q in Line(s, h)[1..] && q != p :: StateOf(s', q) == Ready
  {
    RequeueLine(s, h);
  }

  /** One that is pinned elsewhere goes to the end of that hart's queue, and the second in line runs. */
  lemma YieldSendsFirst(s: Sched, h: nat)
    requires Inv(s) && h < HARTS && |Line(s, h)| > 1 && Elsewhere(s, Line(s, h)[0], h)
    ensures var s', l := Yield(s, h), Line(s, h);
            var a := s.procs[l[0]].affinity;
            && s'.current == s.current[h := Some(l[1])] && StateOf(s', l[1]) == Running
            && s'.queues == s.queues[h := l[2..]][a := s.queues[a] + [l[0]]]
            && OthersSame(s, s', {l[1]} + if s.current[h].Some? then {s.current[h].value} else {})
  {
    RequeueLine(s, h);
  }

  /** From hart `i` after `h` on, stealing takes the first head that may run here. */
  lemma {:induction false} StealTakes(s: Sched, h: nat, i: nat, j: nat)
    requires Sized(s) && h < HARTS && 1 <= i <= j < HARTS && Stealable(s, (h + j) % 8, h)
    requires forall k: nat | i <= k < j :: !Stealable(s, Victim(h, k), h)
    ensures var v := (h + j) % 8;
            && Steal(s, h, i).1 == Some(s.queues[v][0]) && Steal(s, h, i).0.queues[v] == s.queues[v][1..]
            && Steal(s, h, i).0.procs == s.procs && Steal(s, h, i).0.current == s.current
    decreases j - i
  {
    var v := Victim(h, i);
    if i < j {
      assert !Stealable(s, v, h);
      VictimsDiffer(h, i, j);
      if s.queues[v] == [] {
        StealTakes(s, h, i + 1, j);
      } else {
        var s' := Enqueue(Dequeue(s, v).0, v, s.queues[v][0]);
        RotateKeeps(s, v, Victim(h, j), h);
        forall k: nat | i + 1 <= k < j
          ensures !Stealable(s', Victim(h, k), h)
        {
          VictimsDiffer(h, i, k);
          RotateKeeps(s, v, Victim(h, k), h);
          assert !Stealable(s, Victim(h, k), h);
        }
        StealTakes(s', h, i + 1, j);
      }
    }
  }

  /** With nobody in line the nearest hart that can give a process gives its first. */
  lemma YieldSteals(s: Sched, h: nat, j: nat)
    requires Inv(s) && h < HARTS && Line(s, h) == [] && 1 <= j < HARTS && Stealable(s, (h + j) % 8, h)
    requires forall k: nat | 1 <= k < j :: !Stealable(s, Victim(h, k), h)
    ensures var s', v := Yield(s, h), (h + j) % 8;
            && s'.current == s.current[h := Some(s.queues[v][0])] && s'.queues[v] == s.queues[v][1..]
            && StateOf(s', s.queues[v][0]) == Running && OthersSame(s, s', {s.queues[v][0]})
  {
    var v := Victim(h, j);
    assert Requeue(s, h) == s && PickOwn(s, h) == (s, None);
    QueuedReady(s, v, s.queues[v][0]);
    StealTakes(s, h, 1, j);
    hide Inv, Steal;
  }

  /** With nobody to run, an exited process is dropped and any other goes on. */
  lemma YieldStays(s: Sched, h: nat)
    requires Inv(s) && h < HARTS && Line(s, h) == []
    requires forall v: nat | v < HARTS && v != h :: !Stealable(s, v, h)
    ensures var s' := Yield(s, h);
            match s.current[h]
            case None => s'.current == s.current && s'.procs == s.procs
            case Some(c) =>
              if StateOf(s, c) == Exited then s'.current == s.current[h := None] && s'.procs == s.procs
              else s'.current == s.current && OthersSame(s, s', {c}) && (c in s.procs ==> StateOf(s', c) == Running)
  {
    assert Requeue(s, h) == s && PickOwn(s, h) == (s, None);
    StealFailsIff(s, h);
    StealFrame(s, h, 1);
    hide Inv, Steal;
  }

  // ----- turns

  ghost function Yields(s: Sched, h: nat, n: nat): (r: Sched)
    requires Sized(s) && h < HARTS
    ensures Sized(r)
    decreases n
  {
    if n == 0 then s else Yields(Yield(s, h), h, n - 1)
  }

  /** Whoever is queued at place `i` runs after `i + 1` yields, if nobody up to there belongs elsewhere. */
  lemma {:induction false} TurnComes(s: Sched, h: nat, i: nat)
    requires Inv(s) && h < HARTS && i < |s.queues[h]|
    requires forall k: nat | k <= i :: !Elsewhere(s, s.queues[h][k], h)
    ensures Yields(s, h, i + 1).current[h] == Some(s.queues[h][i])
    decreases i
  {
    assert Sized(s) && Line(s, h)[0] == s.queues[h][0] && !Stranded(s, h);
    hide Inv, Yield, Stranded;
    var s' := Yield(s, h);
    YieldTakesFirst(s, h);
    YieldInvIff(s, h);
    if i > 0 {
      assert forall k: nat | k < i :: s'.queues[h][k] == s.queues[h][k + 1];
      TurnComes(s', h, i - 1);
      assert Yields(s, h, i + 1) == Yields(s', h, i);
    } else {
      assert Yields(s, h, 1) == Yields(s', h, 0) == s';
    }
  }

  // ----- the other steps

  /** An exit marks the process, and a waiting parent becomes ready at the end of this hart's queue. */
  lemma ExitDoes(s: Sched, h: nat, parent: Pid)
    requires Inv(s) && h < HARTS && s.current[h].Some? && s.current[h].value in s.procs && s.current[h].value != parent
    ensures var s', c := Exit(s, h, parent), s.current[h].value;
            var wakes := StateOf(s, parent) == Waiting;
            && s'.current == s.current && StateOf(s', c) == Exited
            && s'.queues == (if wakes then s.queues[h := s.queues[h] + [parent]] else s.queues)
            && StateOf(s', parent) == (if wakes then Ready else StateOf(s, parent))
            && OthersSame(s, s', {c} + if wakes then {parent} else {})
  {
  }

  /** A wake-up makes a waiting process ready at the end of the queue, and leaves any other alone. */
  lemma WakeDoes(s: Sched, h: nat, p: Pid)
    requires Inv(s) && h < HARTS
    ensures var s' := Wake(s, h, p);
            if StateOf(s, p) == Waiting
            then && StateOf(s', p) == Ready && s'.queues == s.queues[h := s.queues[h] + [p]]
                 && s'.current == s.current && OthersSame(s, s', {p})
            else s' == s
  {
  }

  /** A new process is ready, pinned as asked, at the end of the creating hart's queue. */
  lemma CreateDoes(s: Sched, h: nat, p: Pid, affinity: int)
    requires Sized(s) && h < HARTS && p !in s.procs
    ensures var s' := Create(s, h, p, affinity);
            && s'.procs == s.procs[p := Proc(Ready, affinity)] && s'.current == s.current
            && s'.queues == s.queues[h := s.queues[h] + [p]]
  {
  }

  /** A process that blocks waits, in no queue, if its hart finds another one to run. */
  lemma BlockWaits(s: Sched, h: nat)
    requires Inv(s) && h < HARTS && s.current[h].Some? && s.current[h].value in s.procs
    requires s.queues[h] != [] && !Elsewhere(s, s.queues[h][0], h)
    ensures var s', c, p := Block(s, h), s.current[h].value, s.queues[h][0];
            && s'.current == s.current[h := Some(p)] && s'.queues == s.queues[h := s.queues[h][1..]]
            && StateOf(s', c) == Waiting && StateOf(s', p) == Running && OthersSame(s, s', {c, p})
  {
    var c, p := s.current[h].value, s.queues[h][0];
    CurrentNotQueued(s, h);
    QueuedReady(s, h, p);
    assert c != p;
  }
}
