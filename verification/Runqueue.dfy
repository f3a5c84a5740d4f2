/** The run queues as the kernel keeps them: processes linked through a `next` field. */
module Runqueue {
  import opened Base
  import S = SchedulerSpec

  type Pid = S.Pid

  const HARTS := S.HARTS

  /** The scheduling fields of a process. */
  datatype Pcb = Pcb(state: S.ProcState, affinity: int, onRq: bool, next: Option<Pid>)

  type Pcbs = map<Pid, Pcb>

  /** The process after index `i` of a queue. */
  function After(q: seq<Pid>, i: nat): Option<Pid> {
    if i + 1 < |q| then Some(q[i + 1]) else None
  }

  ghost predicate LinkAt(procs: Pcbs, q: seq<Pid>, i: nat)
    requires i < |q|
  {
    q[i] in procs && procs[q[i]].onRq && procs[q[i]].next == After(q, i)
  }

  /** `q` is the list from `head` to `tail`, linked through `next`. */
  ghost predicate Linked(procs: Pcbs, head: Option<Pid>, tail: Option<Pid>, q: seq<Pid>) {
    && (q == [] ==> head == None && tail == None)
    && (q != [] ==> head == Some(q[0]) && tail == Some(q[|q| - 1]))
    && forall i: nat | i < |q| :: LinkAt(procs, q, i)
  }

  /** No process is twice in the queues. */
  ghost predicate Distinct(queues: seq<seq<Pid>>) {
    forall h: nat, i: nat, k: nat, j: nat | h < |queues| && i < |queues[h]| && k < |queues| && j < |queues[k]| ::
      queues[h][i] == queues[k][j] ==> h == k && i == j
  }

  ghost predicate Anywhere(queues: seq<seq<Pid>>, p: Pid) {
    exists h: nat :: h < |queues| && p in queues[h]
  }

  /** A waiting list: the process at place `j` leads to the next one. */
  ghost predicate WaitsAt(waitNext: map<Pid, Option<Pid>>, l: seq<Pid>, j: nat) {
    j < |l| && l[j] in waitNext && waitNext[l[j]] == After(l, j)
  }

  /** `l` is the waiting list that starts at `list`; nobody is listed twice. */
  ghost predicate WaitList(waitNext: map<Pid, Option<Pid>>, list: Option<Pid>, l: seq<Pid>) {
    && list == (if l == [] then None else Some(l[0]))
    && (forall j: nat | j < |l| :: WaitsAt(waitNext, l, j))
    && (forall i: nat, j: nat | i < j < |l| :: l[i] != l[j])
  }

  /** All queues are linked as they should be, and `onRq` is exact. */
  ghost predicate Rep(procs: Pcbs, head: seq<Option<Pid>>, tail: seq<Option<Pid>>, queues: seq<seq<Pid>>) {
    && |head| == |tail| == |queues|
    && (forall h: nat | h < |queues| :: Linked(procs, head[h], tail[h], queues[h]))
    && Distinct(queues)
    && (forall p | p in procs && procs[p].onRq :: Anywhere(queues, p))
  }

  lemma LinkedFrame(procs: Pcbs, procs': Pcbs, head: Option<Pid>, tail: Option<Pid>, q: seq<Pid>)
    requires Linked(procs, head, tail, q)
    requires forall i: nat | i < |q| :: q[i] in procs && q[i] in procs' && procs'[q[i]] == procs[q[i]]
    ensures Linked(procs', head, tail, q)
  {
    forall i: nat | i < |q|
      ensures LinkAt(procs', q, i)
    {
      assert LinkAt(procs, q, i);
    }
  }

  /** The links after `p` has been hung behind the last process of a queue. */
  function Hung(procs: Pcbs, tail: Option<Pid>, p: Pid): Pcbs
    requires p in procs
  {
    var procs' := procs[p := procs[p].(onRq := true, next := None)];
    if tail.Some? && tail.value in procs' then procs'[tail.value := procs'[tail.value].(next := Some(p))] else procs'
  }

  lemma HungLinked(procs: Pcbs, head: Option<Pid>, tail: Option<Pid>, q: seq<Pid>, p: Pid)
    requires Linked(procs, head, tail, q) && p in procs && p !in q
    requires forall i: nat, j: nat | i < j < |q| :: q[i] != q[j]
    ensures Linked(Hung(procs, tail, p), if tail.None? then Some(p) else head, Some(p), q + [p])
  {
    var procs', q' := Hung(procs, tail, p), q + [p];
    forall i: nat | i < |q'|
      ensures LinkAt(procs', q', i)
    {
      if i < |q| {
        assert LinkAt(procs, q, i) && LinkAt(procs, q, |q| - 1);
        assert q'[i] == q[i] && (i < |q| - 1 ==> q[i] != q[|q| - 1]);
      }
    }
  }

  lemma HungElsewhere(procs: Pcbs, head: seq<Option<Pid>>, tail: seq<Option<Pid>>, queues: seq<seq<Pid>>, h: nat,
                      p: Pid, k: nat, i: nat)
    requires Rep(procs, head, tail, queues) && h < |queues| && p in procs && !Anywhere(queues, p)
    requires k < |queues| && k != h && i < |queues[k]|
    ensures queues[k][i] in procs && Hung(procs, tail[h], p)[queues[k][i]] == procs[queues[k][i]]
  {
    assert queues[k][i] in queues[k] && LinkAt(procs, queues[k], i);
    assert Linked(procs, head[h], tail[h], queues[h]);
    if queues[h] != [] {
      assert queues[h][|queues[h]| - 1] != queues[k][i];
    }
  }

  lemma HungRep(procs: Pcbs, head: seq<Option<Pid>>, tail: seq<Option<Pid>>, queues: seq<seq<Pid>>, h: nat, p: Pid)
    requires Rep(procs, head, tail, queues) && h < |queues| && p in procs && !Anywhere(queues, p)
    ensures Rep(Hung(procs, tail[h], p), if tail[h].None? then head[h := Some(p)] else head, tail[h := Some(p)],
                queues[h := queues[h] + [p]])
  {
    var procs', queues' := Hung(procs, tail[h], p), queues[h := queues[h] + [p]];
    var head', tail' := if tail[h].None? then head[h := Some(p)] else head, tail[h := Some(p)];
    assert p !in queues[h];
    HungLinked(procs, head[h], tail[h], queues[h], p);
    forall k: nat | k < |queues| && k != h
      ensures Linked(procs', head'[k], tail'[k], queues'[k])
    {
      forall i: nat | i < |queues[k]|
        ensures queues[k][i] in procs && queues[k][i] in procs' && procs'[queues[k][i]] == procs[queues[k][i]]
      {
        assert queues[k][i] in queues[k] && LinkAt(procs, queues[k], i);
        HungElsewhere(procs, head, tail, queues, h, p, k, i);
      }
      LinkedFrame(procs, procs', head[k], tail[k], queues[k]);
    }
    DistinctAppend(queues, h, p);
    AnywhereAppend(queues, h, p);
    forall x | x in procs' && procs'[x].onRq
      ensures Anywhere(queues', x)
    {
      if x != p {
        assert Anywhere(queues, x);
      }
    }
  }

  lemma DistinctAppend(queues: seq<seq<Pid>>, h: nat, p: Pid)
    requires Distinct(queues) && h < |queues| && !Anywhere(queues, p)
    ensures Distinct(queues[h := queues[h] + [p]])
  {
    var queues' := queues[h := queues[h] + [p]];
    forall k: nat, i: nat | k < |queues| && i < |queues[k]|
      ensures queues[k][i] != p
    {
      assert queues[k][i] in queues[k];
    }
    forall k: nat, i: nat | k < |queues'| && i < |queues'[k]|
      ensures queues'[k][i] == if k == h && i == |queues[h]| then p else queues[k][i]
    {
    }
  }

  lemma AnywhereAppend(queues: seq<seq<Pid>>, h: nat, p: Pid)
    requires h < |queues|
    ensures forall x :: Anywhere(queues[h := queues[h] + [p]], x) <==> Anywhere(queues, x) || x == p
  {
    var queues' := queues[h := queues[h] + [p]];
    forall x
      ensures Anywhere(queues', x) <==> Anywhere(queues, x) || x == p
    {
      if k: nat :| k < |queues| && x in queues[k] {
        assert x in queues'[k];
      }
      if x == p {
        assert x in queues'[h];
      }
      if k: nat :| k < |queues'| && x in queues'[k] {
        assert x in queues[k] || x == p;
      }
    }
  }

  /** A queue without its process at `i`. */
  function Without(q: seq<Pid>, i: nat): seq<Pid>
    requires i < |q|
  {
    q[..i] + q[i + 1..]
  }

  /** The process before index `i` of a queue. */
  function Before(q: seq<Pid>, i: nat): Option<Pid>
    requires i <= |q|
  {
    if i == 0 then None else Some(q[i - 1])
  }

  /** The links after `x`, which comes after `prev`, has been taken out. */
  function Cut(procs: Pcbs, prev: Option<Pid>, x: Pid): Pcbs
    requires x in procs
  {
    var procs' := if prev.Some? && prev.value in procs
                  then procs[prev.value := procs[prev.value].(next := procs[x].next)] else procs;
    procs'[x := procs'[x].(next := None, onRq := false)]
  }

  lemma CutLinked(procs: Pcbs, head: Option<Pid>, tail: Option<Pid>, q: seq<Pid>, i: nat)
    requires Linked(procs, head, tail, q) && i < |q| && q[i] in procs
    requires forall j: nat, k: nat | j < k < |q| :: q[j] != q[k]
    ensures Linked(Cut(procs, Before(q, i), q[i]), if i == 0 then procs[q[i]].next else head,
                   if i == |q| - 1 then Before(q, i) else tail, Without(q, i))
  {
    var procs', q' := Cut(procs, Before(q, i), q[i]), Without(q, i);
    assert LinkAt(procs, q, i);
    assert i > 0 ==> LinkAt(procs, q, i - 1);
    assert forall j: nat | j < |q'| :: q'[j] == if j < i then q[j] else q[j + 1];
    forall j: nat | j < |q'|
      ensures LinkAt(procs', q', j)
    {
      var k := if j < i then j else j + 1;
      assert LinkAt(procs, q, k);
      assert q[k] != q[i] && (i > 0 && k != i - 1 ==> q[k] != q[i - 1]);
    }
  }

  /** Where an entry of the shortened queues was before. */
  function Origin(h: nat, i: nat, k: nat, j: nat): nat {
    if k == h && j >= i then j + 1 else j
  }

  lemma OriginAt(queues: seq<seq<Pid>>, h: nat, i: nat, k: nat, j: nat)
    requires h < |queues| && i < |queues[h]|
    requires k < |queues| && j < |queues[h := Without(queues[h], i)][k]|
    ensures var o := Origin(h, i, k, j);
            o < |queues[k]| && (k == h ==> o != i) && queues[h := Without(queues[h], i)][k][j] == queues[k][o]
  {
  }

  lemma DistinctWithout(queues: seq<seq<Pid>>, queues': seq<seq<Pid>>, h: nat, i: nat)
    requires h < |queues| && i < |queues[h]| && Distinct(queues) && queues' == queues[h := Without(queues[h], i)]
    ensures Distinct(queues')
  {
    hide Without;
    forall k: nat, j: nat, k': nat, j': nat
      | k < |queues'| && j < |queues'[k]| && k' < |queues'| && j' < |queues'[k']| && queues'[k][j] == queues'[k'][j']
      ensures k == k' && j == j'
    {
      OriginAt(queues, h, i, k, j);
      OriginAt(queues, h, i, k', j');
    }
  }

  lemma AnywhereWithoutAt(queues: seq<seq<Pid>>, queues': seq<seq<Pid>>, h: nat, i: nat, x: Pid)
    requires h < |queues| && i < |queues[h]| && Distinct(queues) && queues' == queues[h := Without(queues[h], i)]
    ensures Anywhere(queues', x) <==> Anywhere(queues, x) && x != queues[h][i]
  {
    if Anywhere(queues', x) {
      var k: nat :| k < |queues'| && x in queues'[k];
      var j: nat :| j < |queues'[k]| && queues'[k][j] == x;
      OriginAt(queues, h, i, k, j);
      assert x in queues[k];
    }
    if Anywhere(queues, x) && x != queues[h][i] {
      var k: nat :| k < |queues| && x in queues[k];
      var j: nat :| j < |queues[k]| && queues[k][j] == x;
      assert x == queues'[k][if k == h && j > i then j - 1 else j];
      assert x in queues'[k];
    }
  }

  lemma AnywhereWithout(queues: seq<seq<Pid>>, queues': seq<seq<Pid>>, h: nat, i: nat)
    requires h < |queues| && i < |queues[h]| && Distinct(queues) && queues' == queues[h := Without(queues[h], i)]
    ensures Distinct(queues')
    ensures forall x :: Anywhere(queues', x) <==> Anywhere(queues, x) && x != queues[h][i]
  {
    DistinctWithout(queues, queues', h, i);
    hide Distinct, Anywhere, Without;
    forall x
      ensures Anywhere(queues', x) <==> Anywhere(queues, x) && x != queues[h][i]
    {
      AnywhereWithoutAt(queues, queues', h, i, x);
    }
  }

  lemma CutElsewhere(procs: Pcbs, queues: seq<seq<Pid>>, h: nat, i: nat, k: nat)
    requires Distinct(queues) && h < |queues| && i < |queues[h]| && k < |queues| && k != h && queues[h][i] in procs
    requires forall j: nat | j < |queues[k]| :: queues[k][j] in procs
    ensures var procs' := Cut(procs, Before(queues[h], i), queues[h][i]);
            forall j: nat | j < |queues[k]| :: queues[k][j] in procs' && procs'[queues[k][j]] == procs[queues[k][j]]
  {
    var q := queues[h];
    forall j: nat | j < |queues[k]|
      ensures queues[k][j] != q[i] && (i > 0 ==> queues[k][j] != q[i - 1])
    {
    }
  }

  /** A cut leaves the queues of the other harts alone. */
  lemma CutOther(procs: Pcbs, head: seq<Option<Pid>>, tail: seq<Option<Pid>>, queues: seq<seq<Pid>>, h: nat, i: nat,
                 k: nat)
    requires Rep(procs, head, tail, queues) && h < |queues| && i < |queues[h]| && queues[h][i] in procs
    requires k < |queues| && k != h
    ensures Linked(Cut(procs, Before(queues[h], i), queues[h][i]), head[k], tail[k], queues[k])
  {
    forall j: nat | j < |queues[k]|
      ensures queues[k][j] in procs
    {
      assert LinkAt(procs, queues[k], j);
    }
    CutElsewhere(procs, queues, h, i, k);
    LinkedFrame(procs, Cut(procs, Before(queues[h], i), queues[h][i]), head[k], tail[k], queues[k]);
  }

  lemma CutRep(procs: Pcbs, head: seq<Option<Pid>>, tail: seq<Option<Pid>>, queues: seq<seq<Pid>>, h: nat, i: nat)
    requires Rep(procs, head, tail, queues) && h < |queues| && i < |queues[h]| && queues[h][i] in procs
    ensures var q := queues[h];
            Rep(Cut(procs, Before(q, i), q[i]), if i == 0 then head[h := procs[q[i]].next] else head,
                if i == |q| - 1 then tail[h := Before(q, i)] else tail, queues[h := Without(q, i)])
  {
    var q := queues[h];
    var procs', queues' := Cut(procs, Before(q, i), q[i]), queues[h := Without(q, i)];
    var head' := if i == 0 then head[h := procs[q[i]].next] else head;
    var tail' := if i == |q| - 1 then tail[h := Before(q, i)] else tail;
    CutLinked(procs, head[h], tail[h], q, i);
    forall k: nat | k < |queues| && k != h
      ensures Linked(procs', head'[k], tail'[k], queues'[k])
    {
      CutOther(procs, head, tail, queues, h, i, k);
    }
    AnywhereWithout(queues, queues', h, i);
    hide Distinct, Linked, Anywhere;
    forall x | x in procs' && procs'[x].onRq
      ensures Anywhere(queues', x)
    {
      assert Anywhere(queues, x);
    }
  }

  /** States and affinities, as the scheduler sees them. */
  ghost function Abs(procs: Pcbs): map<Pid, S.Proc> {
    map p | p in procs :: S.Proc(procs[p].state, procs[p].affinity)
  }

  lemma HungAbs(procs: Pcbs, tail: Option<Pid>, p: Pid)
    requires p in procs
    ensures Abs(Hung(procs, tail, p)) == Abs(procs) && Hung(procs, tail, p).Keys == procs.Keys
            && Hung(procs, tail, p)[p].onRq
  {
  }

  lemma CutAbs(procs: Pcbs, prev: Option<Pid>, x: Pid)
    requires x in procs
    ensures Abs(Cut(procs, prev, x)) == Abs(procs) && Cut(procs, prev, x).Keys == procs.Keys
            && !Cut(procs, prev, x)[x].onRq
  {
  }

  /** Every count is the length of its queue. */
  ghost predicate Counted(nrReady: seq<nat>, queues: seq<seq<Pid>>) {
    |nrReady| == |queues| && forall h: nat | h < |queues| :: nrReady[h] == |queues[h]|
  }

  lemma CountedUpdate(nrReady: seq<nat>, queues: seq<seq<Pid>>, h: nat, n: nat, q: seq<Pid>)
    requires Counted(nrReady, queues) && h < |queues| && n == |q|
    ensures nrReady[h] == |queues[h]| && Counted(nrReady[h := n], queues[h := q])
  {
  }

  class RunQueues {
    var procs: Pcbs
    var head: seq<Option<Pid>>
    var tail: seq<Option<Pid>>
    var nrReady: seq<nat>
    var current: seq<Option<Pid>>
    /** The contents of each queue. */
    ghost var queues: seq<seq<Pid>>

    /** The links spell out the queues, `onRq` is exact, and so is every count. */
    ghost predicate Valid()
      reads this
    {
      && |current| == |nrReady| == |head| == |tail| == |queues| == HARTS && Rep(procs, head, tail, queues)
      && Counted(nrReady, queues)
    }

    /** The scheduler state as a value. */
    ghost function A(): S.Sched
      reads this
    {
      S.Sched(Abs(procs), queues, current)
    }

    constructor ()
      ensures Valid() && A() == S.Empty() && S.Inv(A())
    {
      procs := map[];
      head, tail, current := seq(HARTS, _ => None), seq(HARTS, _ => None), seq(HARTS, _ => None);
      nrReady := seq(HARTS, _ => 0);
      queues := seq(HARTS, _ => []);
      S.EmptyInv();
      new;
      assert A() == S.Empty();
    }

    /** Hangs a process behind the last one of a queue. */
    method LinkLast(h: nat, p: Pid)
      requires |head| == |tail| == HARTS && h < HARTS && p in procs && (tail[h].Some? ==> tail[h].value in procs)
      modifies this`procs, this`head, this`tail
      ensures procs == Hung(old(procs), old(tail)[h], p) && tail == old(tail)[h := Some(p)]
      ensures head == if old(tail)[h].None? then old(head)[h := Some(p)] else old(head)
    {
      procs := procs[p := procs[p].(onRq := true, next := None)];
      if tail[h].None? {
        head := head[h := Some(p)];
      } else {
        var last := tail[h].value;
        procs := procs[last := procs[last].(next := Some(p))];
      }
      tail := tail[h := Some(p)];
    }

    /** Unhangs the first process of a queue. */
    method UnlinkFirst(h: nat, x: Pid)
      requires |head| == |tail| == HARTS && h < HARTS && x in procs
      modifies this`procs, this`head, this`tail
      ensures procs == Cut(old(procs), None, x) && head == old(head)[h := old(procs)[x].next]
      ensures tail == if old(procs)[x].next.None? then old(tail)[h := None] else old(tail)
    {
      head := head[h := procs[x].next];
      if head[h].None? {
        tail := tail[h := None];
      }
      procs := procs[x := procs[x].(next := None, onRq := false)];
    }

    lemma EnqueueFacts(h: nat, p: Pid)
      requires Valid() && h < HARTS && p in procs && !procs[p].onRq
      ensures tail[h].Some? ==> tail[h].value in procs
      ensures Rep(Hung(procs, tail[h], p), if tail[h].None? then head[h := Some(p)] else head, tail[h := Some(p)],
                  queues[h := queues[h] + [p]])
      ensures Abs(Hung(procs, tail[h], p)) == Abs(procs) && Hung(procs, tail[h], p).Keys == procs.Keys
    {
      NotAnywhere(p);
      HungRep(procs, head, tail, queues, h, p);
      HungAbs(procs, tail[h], p);
      assert Linked(procs, head[h], tail[h], queues[h]);
      if queues[h] != [] {
        assert LinkAt(procs, queues[h], |queues[h]| - 1);
      }
    }

    lemma DequeueFacts(h: nat)
      requires Valid() && h < HARTS
      ensures head[h] == None <==> queues[h] == []
      ensures queues[h] != [] ==>
                var x := queues[h][0];
                && head[h] == Some(x) && x in procs && (procs[x].next.None? <==> |queues[h]| == 1)
                && Rep(Cut(procs, None, x), head[h := procs[x].next],
                       if |queues[h]| == 1 then tail[h := None] else tail,
                       queues[h := queues[h][1..]])
                && Abs(Cut(procs, None, x)) == Abs(procs) && Cut(procs, None, x).Keys == procs.Keys
    {
      assert Linked(procs, head[h], tail[h], queues[h]);
      if queues[h] != [] {
        assert LinkAt(procs, queues[h], 0);
        CutRep(procs, head, tail, queues, h, 0);
        CutAbs(procs, None, queues[h][0]);
        assert Without(queues[h], 0) == queues[h][1..];
      }
    }

    /** Appends a process to a queue, unless it is in one already. */
    method Enqueue(h: nat, p: Pid)
      requires Valid() && h < HARTS && p in procs
      modifies this
      ensures Valid() && procs.Keys == old(procs).Keys
      ensures A() == if old(procs)[p].onRq then old(A()) else S.Enqueue(old(A()), h, p)
    {
      hide Rep, Abs;
      if !procs[p].onRq {
        Append(h, p);
      }
    }

    /** Links a process behind the last one of a queue and counts it. */
    method Append(h: nat, p: Pid)
      requires Valid() && h < HARTS && p in procs && !procs[p].onRq
      modifies this
      ensures Valid() && procs.Keys == old(procs).Keys && A() == S.Enqueue(old(A()), h, p)
    {
      EnqueueFacts(h, p);
      ghost var q := queues[h] + [p];
      CountedUpdate(nrReady, queues, h, |queues[h]| + 1, q);
      hide Rep, Abs, Hung, Counted;
      LinkLast(h, p);
      nrReady := nrReady[h := nrReady[h] + 1];
      queues := queues[h := q];
    }

    /** Takes the first process of a queue. */
    method Dequeue(h: nat) returns (p: Option<Pid>)
      requires Valid() && h < HARTS
      modifies this
      ensures Valid() && procs.Keys == old(procs).Keys
      ensures (A(), p) == S.Dequeue(old(A()), h)
      ensures p.Some? ==> p.value in procs && !procs[p.value].onRq
    {
      DequeueFacts(h);
      p := head[h];
      if p.Some? {
        CutAbs(procs, None, p.value);
        CountedUpdate(nrReady, queues, h, |queues[h]| - 1, queues[h][1..]);
        hide Rep, Abs, Cut, Counted;
        UnlinkFirst(h, p.value);
        nrReady := nrReady[h := nrReady[h] - 1];
        queues := queues[h := queues[h][1..]];
      }
    }

    lemma NotAnywhere(p: Pid)
      requires Valid() && p in procs && !procs[p].onRq
      ensures !Anywhere(queues, p)
    {
      forall h: nat | h < HARTS
        ensures p !in queues[h]
      {
        assert Linked(procs, head[h], tail[h], queues[h]);
        forall i: nat | i < |queues[h]|
          ensures queues[h][i] != p
        {
          assert LinkAt(procs, queues[h], i);
        }
      }
    }

    /** Follows the links of a queue to a process, remembering the one before it. */
    method FindQueued(h: nat, p: Pid) returns (found: bool, prev: Option<Pid>, ghost i: nat)
      requires Valid() && h < HARTS
      ensures found == (p in queues[h])
      ensures found ==> i < |queues[h]| && queues[h][i] == p && prev == Before(queues[h], i)
    {
      ghost var q := queues[h];
      assert Linked(procs, head[h], tail[h], q);
      hide Rep, Linked;
      var cur := head[h];
      prev, i := None, 0;
      while cur.Some?
        invariant i <= |q| && prev == Before(q, i) && cur == (if i < |q| then Some(q[i]) else None)
        invariant p !in q[..i]
        decreases |q| - i
      {
        assert LinkAt(procs, q, i);
        if cur.value == p {
          return true, prev, i;
        }
        prev, cur, i := cur, procs[cur.value].next, i + 1;
      }
      return false, prev, i;
    }

    /** Takes a process out of the middle of a queue; `i` is its place there. */
    method Remove(h: nat, p: Pid) returns (found: bool, ghost i: nat)
      requires Valid() && h < HARTS && p in procs
      modifies this
      ensures Valid() && procs.Keys == old(procs).Keys && current == old(current)
      ensures found == (p in old(queues)[h])
      ensures !found ==> A() == old(A())
      ensures found ==>
                && i < |old(queues)[h]| && old(queues)[h][i] == p
                && A() == S.WithQueue(old(A()), h, Without(old(queues)[h], i))
    {
      if !procs[p].onRq {
        NotAnywhere(p);
        return false, 0;
      }
      var prev;
      found, prev, i := FindQueued(h, p);
      if found {
        RemoveFacts(h, prev, p, i);
        hide Rep, Abs;
        UnlinkAt(h, prev, p, i);
      }
    }

    lemma RemoveFacts(h: nat, prev: Option<Pid>, p: Pid, i: nat)
      requires Valid() && h < HARTS && p in procs
      requires i < |queues[h]| && queues[h][i] == p && prev == Before(queues[h], i)
      ensures prev.Some? ==> prev.value in procs
      ensures tail[h] == Some(queues[h][|queues[h]| - 1])
      ensures forall j: nat, k: nat | j < k < |queues[h]| :: queues[h][j] != queues[h][k]
      ensures Rep(Cut(procs, prev, p), if i == 0 then head[h := procs[p].next] else head,
                  if i == |queues[h]| - 1 then tail[h := prev] else tail, queues[h := Without(queues[h], i)])
      ensures Abs(Cut(procs, prev, p)) == Abs(procs) && Cut(procs, prev, p).Keys == procs.Keys
    {
      assert Linked(procs, head[h], tail[h], queues[h]);
      assert i > 0 ==> LinkAt(procs, queues[h], i - 1);
      CutRep(procs, head, tail, queues, h, i);
      CutAbs(procs, prev, p);
    }

    /** The surgery of `Remove` at index `i`. */
    method UnlinkAt(h: nat, prev: Option<Pid>, p: Pid, ghost i: nat)
      requires |current| == |nrReady| == |head| == |tail| == |queues| == HARTS && h < HARTS && p in procs
      requires Counted(nrReady, queues)
      requires i < |queues[h]| && queues[h][i] == p && prev == Before(queues[h], i)
      requires prev.Some? ==> prev.value in procs
      requires tail[h] == Some(queues[h][|queues[h]| - 1])
      requires forall j: nat, k: nat | j < k < |queues[h]| :: queues[h][j] != queues[h][k]
      requires Rep(Cut(procs, prev, p), if i == 0 then head[h := procs[p].next] else head,
                   if i == |queues[h]| - 1 then tail[h := prev] else tail, queues[h := Without(queues[h], i)])
      modifies this
      ensures Valid() && procs == Cut(old(procs), prev, p) && current == old(current)
      ensures queues == old(queues)[h := Without(old(queues)[h], i)]
    {
      CountedUpdate(nrReady, queues, h, |queues[h]| - 1, Without(queues[h], i));
      assert (tail[h] == Some(p)) == (i == |queues[h]| - 1) && prev.None? == (i == 0);
      hide Rep, Counted, Without, Before, Cut;
      UnlinkBetween(h, prev, p);
      nrReady := nrReady[h := nrReady[h] - 1];
      queues := queues[h := Without(queues[h], i)];
    }

    /** Unhangs a process from behind `prev`, or from the head of a queue. */
    method UnlinkBetween(h: nat, prev: Option<Pid>, p: Pid)
      requires |head| == |tail| == HARTS && h < HARTS && p in procs && (prev.Some? ==> prev.value in procs)
      modifies this`procs, this`head, this`tail
      ensures procs == Cut(old(procs), prev, p)
      ensures head == if prev.None? then old(head)[h := old(procs)[p].next] else old(head)
      ensures tail == if old(tail)[h] == Some(p) then old(tail)[h := prev] else old(tail)
    {
      if prev.None? {
        head := head[h := procs[p].next];
      } else {
        procs := procs[prev.value := procs[prev.value].(next := procs[p].next)];
      }
      if tail[h] == Some(p) {
        tail := tail[h := prev];
      }
      procs := procs[p := procs[p].(next := None, onRq := false)];
    }

    /** Changes the state of a process. */
    method SetState(p: Pid, state: S.ProcState)
      requires Valid() && p in procs
      modifies this`procs
      ensures Valid() && procs == old(procs)[p := old(procs)[p].(state := state)]
      ensures A() == S.SetState(old(A()), p, state)
    {
      StateRep(procs, head, tail, queues, p, state);
      hide Rep;
      procs := procs[p := procs[p].(state := state)];
    }

    /** A process pinned to another hart than `h`. */
    predicate Pinned(p: Pid, h: nat)
      reads this
    {
      p in procs && 0 <= procs[p].affinity < HARTS && procs[p].affinity != h
    }

    /** Tries the other harts' queues in turn for a process that may run on `h`. */
    method Steal(h: nat) returns (p: Option<Pid>)
      requires Valid() && h < HARTS
      modifies this
      ensures Valid() && procs.Keys == old(procs).Keys
      ensures (A(), p) == S.Steal(old(A()), h, 1)
      ensures p.Some? ==> p.value in procs
    {
      hide Rep;
      for i := 1 to HARTS
        invariant Valid() && procs.Keys == old(procs).Keys
        invariant S.Steal(A(), h, i) == S.Steal(old(A()), h, 1)
      {
        var victim := (h + i) % HARTS;
        p := Dequeue(victim);
        if p.Some? {
          if !Pinned(p.value, h) {
            return;
          }
          Enqueue(victim, p.value);
        }
      }
      p := None;
    }

    /** The next process from the hart's own queue, sending one pinned elsewhere to its hart. */
    method PickOwn(h: nat) returns (p: Option<Pid>)
      requires Valid() && h < HARTS
      modifies this
      ensures Valid() && procs.Keys == old(procs).Keys
      ensures (A(), p) == S.PickOwn(old(A()), h)
      ensures p.Some? ==> p.value in procs
    {
      hide Rep;
      p := Dequeue(h);
      if p.Some? && Pinned(p.value, h) {
        Enqueue(procs[p.value].affinity, p.value);
        p := Dequeue(h);
      }
    }

    method Run(h: nat, p: Pid)
      requires Valid() && h < HARTS && p in procs
      modifies this
      ensures Valid() && procs.Keys == old(procs).Keys && A() == S.Run(old(A()), h, p)
    {
      SetState(p, S.Running);
      hide Rep;
      current := current[h := Some(p)];
    }

    /** The running process of a hart is known and in no queue. */
    lemma CurrentNotQueued(h: nat)
      requires Valid() && S.Inv(A()) && h < HARTS && current[h].Some?
      ensures current[h].value in procs && !procs[current[h].value].onRq
    {
      S.RequeueMid(A(), h);
      S.CurrentNotQueued(A(), h);
      OnRqIff(current[h].value);
    }

    /** `onRq` is exact. */
    lemma OnRqIff(p: Pid)
      requires Valid() && p in procs
      ensures procs[p].onRq <==> S.InQueue(A(), p)
    {
      if !procs[p].onRq {
        NotAnywhere(p);
      }
    }

    /** Puts the running process of a hart back in its queue, unless it is in one already. */
    method Requeue(h: nat)
      requires Valid() && h < HARTS && (current[h].Some? ==> current[h].value in procs)
      modifies this
      ensures Valid() && procs.Keys == old(procs).Keys && A() == S.Requeue(old(A()), h) && current == old(current)
    {
      var c := current[h];
      if c.Some? {
        OnRqIff(c.value);
        hide Rep, S.InQueue;
        if procs[c.value].state == S.Running {
          SetState(c.value, S.Ready);
          Enqueue(h, c.value);
        }
      }
    }

    /** Finds the next process, here or elsewhere, and switches to it. */
    method Switch(h: nat)
      requires Valid() && h < HARTS && (current[h].Some? ==> current[h].value in procs)
      modifies this
      ensures Valid() && procs.Keys == old(procs).Keys && A() == S.Switch(old(A()), h)
    {
      hide Rep, S.Steal, S.PickOwn, S.Run;
      var c := current[h];
      S.PickOwnFrame(A(), h);
      var next := PickOwn(h);
      if next.None? {
        S.StealFrame(A(), h, 1);
        next := Steal(h);
        if next.None? {
          next := Dequeue(h);
        }
      }
      if next.Some? {
        Run(h, next.value);
      } else if c.Some? {
        if procs[c.value].state == S.Exited {
          current := current[h := None];
        } else {
          SetState(c.value, S.Running);
        }
      }
    }

    /**
     * The scheduler's yield: the whole effect of one call, as one atomic step. It works in any
     * state, such as the one in which the first process is both queued and running.
     */
    method SchedYield(h: nat)
      requires Valid() && h < HARTS && (current[h].Some? ==> current[h].value in procs)
      modifies this
      ensures Valid() && procs.Keys == old(procs).Keys && A() == S.Yield(old(A()), h)
      ensures S.Inv(old(A())) ==> (S.Inv(A()) <==> !S.Stranded(old(A()), h))
    {
      hide Rep, S.Inv, S.Switch, S.Requeue, S.Stranded;
      if S.Inv(A()) {
        S.YieldInvIff(A(), h);
      }
      Requeue(h);
      Switch(h);
    }

    /** Enters the first process on a hart: it runs there and stays in its queue. */
    method EnterUser(h: nat, p: Pid)
      requires Valid() && h < HARTS && p in procs
      modifies this
      ensures Valid() && procs.Keys == old(procs).Keys && A() == S.EnterUser(old(A()), h, p)
    {
      SetState(p, S.Running);
      hide Rep;
      current := current[h := Some(p)];
    }

    /** Adds a new ready process and queues it. */
    method CreateUser(h: nat, p: Pid, affinity: int)
      requires Valid() && S.Inv(A()) && h < HARTS && p !in procs
      modifies this
      ensures Valid() && S.Inv(A()) && A() == S.Create(old(A()), h, p, affinity)
    {
      S.CreateInv(A(), h, p, affinity);
      NewRep(procs, head, tail, queues, p, Pcb(S.Ready, affinity, false, None));
      hide Rep, S.Inv;
      procs := procs[p := Pcb(S.Ready, affinity, false, None)];
      Enqueue(h, p);
    }

    /** The process of a hart exits and wakes its parent. */
    method Exit(h: nat, parent: Pid)
      requires Valid() && S.Inv(A()) && h < HARTS
      modifies this
      ensures Valid() && S.Inv(A()) && A() == S.Exit(old(A()), h, parent)
    {
      S.ExitInv(A(), h, parent);
      if current[h].Some? {
        CurrentNotQueued(h);
        S.ExitedInv(A(), h);
        hide Rep, S.Inv;
        SetState(current[h].value, S.Exited);
        Wake(h, parent);
      }
    }

    /** Waits for a child: the process is marked waiting and the hart yields. */
    method Wait(h: nat)
      requires Valid() && S.Inv(A()) && h < HARTS
      modifies this
      ensures Valid() && S.Inv(A()) && A() == S.Block(old(A()), h)
    {
      S.BlockInv(A(), h);
      if current[h].Some? {
        CurrentNotQueued(h);
        hide Rep, S.Inv, S.Switch;
        SetState(current[h].value, S.Waiting);
        Switch(h);
      } else {
        hide Rep, S.Inv, S.Switch, S.Requeue;
        Requeue(h);
        Switch(h);
      }
    }

    /** Makes a waiting process ready and queues it, as signals and exits do. */
    method Wake(h: nat, p: Pid)
      requires Valid() && S.Inv(A()) && h < HARTS
      modifies this
      ensures Valid() && S.Inv(A()) && A() == S.Wake(old(A()), h, p)
    {
      S.WakeInv(A(), h, p);
      if p in procs && procs[p].state == S.Waiting {
        if procs[p].onRq {
          ReadyIfQueued(p);
        }
        hide Rep, S.Inv;
        SetState(p, S.Ready);
        Enqueue(h, p);
      }
    }

    lemma ReadyIfQueued(p: Pid)
      requires Valid() && S.Inv(A()) && p in procs && procs[p].onRq
      ensures procs[p].state == S.Ready
    {
      var k: nat :| k < HARTS && p in queues[k];
      var i: nat :| i < |queues[k]| && queues[k][i] == p;
      S.InvMeans(A(), p, k, 0, i, 0);
    }
  }

  lemma StateRep(procs: Pcbs, head: seq<Option<Pid>>, tail: seq<Option<Pid>>, queues: seq<seq<Pid>>, p: Pid,
                 state: S.ProcState)
    requires Rep(procs, head, tail, queues) && p in procs
    ensures Rep(procs[p := procs[p].(state := state)], head, tail, queues)
    ensures Abs(procs[p := procs[p].(state := state)]) == Abs(procs)[p := S.Proc(state, procs[p].affinity)]
  {
    var procs' := procs[p := procs[p].(state := state)];
    forall h: nat | h < |queues|
      ensures Linked(procs', head[h], tail[h], queues[h])
    {
      forall i: nat | i < |queues[h]|
        ensures LinkAt(procs', queues[h], i)
      {
        assert LinkAt(procs, queues[h], i);
      }
    }
  }

  lemma NewRep(procs: Pcbs, head: seq<Option<Pid>>, tail: seq<Option<Pid>>, queues: seq<seq<Pid>>, p: Pid, pcb: Pcb)
    requires Rep(procs, head, tail, queues) && p !in procs && !pcb.onRq
    ensures Rep(procs[p := pcb], head, tail, queues)
    ensures Abs(procs[p := pcb]) == Abs(procs)[p := S.Proc(pcb.state, pcb.affinity)]
  {
    var procs' := procs[p := pcb];
    forall h: nat | h < |queues|
      ensures Linked(procs', head[h], tail[h], queues[h])
    {
      forall i: nat | i < |queues[h]|
        ensures LinkAt(procs', queues[h], i)
      {
        assert LinkAt(procs, queues[h], i);
      }
    }
  }

  // ----- waiting lists

  function NextWaiter(waitNext: map<Pid, Option<Pid>>, p: Pid): Option<Pid> {
    if p in waitNext then waitNext[p] else None
  }

  /** The processes whose link leads on. */
  ghost function Links(waitNext: map<Pid, Option<Pid>>): set<Pid> {
    set p | p in waitNext && waitNext[p].Some?
  }

  /** How far a walk that clears each link behind it can still go. */
  ghost function Ahead(waitNext: map<Pid, Option<Pid>>, cur: Option<Pid>): nat {
    |Links(waitNext)| + if cur.Some? then 1 else 0
  }

  lemma AheadLess(waitNext: map<Pid, Option<Pid>>, p: Pid)
    ensures Ahead(waitNext[p := None], NextWaiter(waitNext, p)) < Ahead(waitNext, Some(p))
  {
    if NextWaiter(waitNext, p).Some? {
      assert Links(waitNext[p := None]) == Links(waitNext) - {p};
    } else {
      assert Links(waitNext[p := None]) == Links(waitNext);
    }
  }

  /** The processes that such a walk meets, whatever the links are. */
  ghost function Visited(waitNext: map<Pid, Option<Pid>>, cur: Option<Pid>): (l: seq<Pid>)
    ensures cur.Some? ==> l != [] && l[0] == cur.value
    decreases Ahead(waitNext, cur)
  {
    if cur.None? then [] else
    AheadLess(waitNext, cur.value);
    [cur.value] + Visited(waitNext[cur.value := None], NextWaiter(waitNext, cur.value))
  }

  lemma VisitedNone(waitNext: map<Pid, Option<Pid>>)
    ensures Visited(waitNext, None) == []
  {
  }

  lemma VisitedStep(waitNext: map<Pid, Option<Pid>>, p: Pid, l: seq<Pid>, i: nat)
    requires i <= |l| && l[i..] == Visited(waitNext, Some(p))
    ensures i < |l| && l[i] == p && l[i + 1..] == Visited(waitNext[p := None], NextWaiter(waitNext, p))
    ensures l[..i + 1] == l[..i] + [p]
  {
    assert l[i..] == [p] + Visited(waitNext[p := None], NextWaiter(waitNext, p));
    assert l[i] == l[i..][0] && l[i + 1..] == l[i..][1..];
  }

  /** On a list that holds nobody twice it meets everybody, in order. */
  lemma {:induction false} VisitedList(waitNext: map<Pid, Option<Pid>>, list: Option<Pid>, l: seq<Pid>)
    requires WaitList(waitNext, list, l)
    ensures Visited(waitNext, list) == l
    decreases |l|
  {
    if l != [] {
      var rest := waitNext[l[0] := None];
      assert WaitsAt(waitNext, l, 0);
      forall j: nat | j < |l[1..]|
        ensures WaitsAt(rest, l[1..], j)
      {
        assert WaitsAt(waitNext, l, j + 1);
      }
      VisitedList(rest, NextWaiter(waitNext, l[0]), l[1..]);
      assert l == [l[0]] + l[1..];
    }
  }

  /** Waiting keeps a list in order exactly when the process is not on it yet. */
  lemma ListedIff(waitNext: map<Pid, Option<Pid>>, list: Option<Pid>, l: seq<Pid>, p: Pid)
    requires WaitList(waitNext, list, l)
    ensures WaitList(waitNext[p := list], Some(p), [p] + l) <==> p !in l
  {
    var l', w := [p] + l, waitNext[p := list];
    if p in l {
      var i: nat :| i < |l| && l[i] == p;
      assert l'[0] == l'[i + 1];
    } else {
      forall j: nat | j < |l'|
        ensures WaitsAt(w, l', j)
      {
        assert j > 0 ==> WaitsAt(waitNext, l, j - 1);
      }
    }
  }

  /** A process that waits again while listed cuts off everybody behind its old place. */
  lemma RelistedLosesRest(waitNext: map<Pid, Option<Pid>>, list: Option<Pid>, l: seq<Pid>, i: nat)
    requires WaitList(waitNext, list, l) && i < |l|
    ensures Visited(waitNext[l[i] := list], Some(l[i])) == [l[i]] + l[..i + 1]
    ensures forall j: nat | i < j < |l| :: l[j] !in Visited(waitNext[l[i] := list], Some(l[i]))
  {
    var p, kept := l[i], l[..i + 1];
    var w, rest := waitNext[p := list], waitNext[p := None];
    forall j: nat | j < |kept|
      ensures WaitsAt(rest, kept, j)
    {
      assert WaitsAt(waitNext, l, j);
    }
    VisitedList(rest, list, kept);
    assert w[p := None] == rest && NextWaiter(w, p) == list;
  }

  /** The links of the processes in `l` are cleared; the others are as before. */
  ghost predicate Unlinked(waitNext: map<Pid, Option<Pid>>, waitNext': map<Pid, Option<Pid>>, l: seq<Pid>) {
    forall p: Pid :: NextWaiter(waitNext', p) == if p in l then None else NextWaiter(waitNext, p)
  }

  /** Every process with a link, and every one it leads to, exists. */
  ghost predicate WaitersExist(waitNext: map<Pid, Option<Pid>>, known: set<Pid>) {
    forall p | p in waitNext :: p in known && (waitNext[p].Some? ==> waitNext[p].value in known)
  }

  lemma {:induction false} VisitedExist(waitNext: map<Pid, Option<Pid>>, cur: Option<Pid>, known: set<Pid>)
    requires WaitersExist(waitNext, known) && (cur.Some? ==> cur.value in known)
    ensures forall p | p in Visited(waitNext, cur) :: p in known
    decreases Ahead(waitNext, cur)
  {
    if cur.Some? {
      AheadLess(waitNext, cur.value);
      VisitedExist(waitNext[cur.value := None], NextWaiter(waitNext, cur.value), known);
    }
  }

  /** The waiting lists of the channels: one link in each process. */
  class WaitLists {
    const rq: RunQueues
    var waitNext: map<Pid, Option<Pid>>

    ghost predicate Valid()
      reads this, rq
    {
      rq.Valid() && WaitersExist(waitNext, rq.procs.Keys)
    }

    constructor (rq: RunQueues)
      requires rq.Valid()
      ensures Valid() && this.rq == rq && waitNext == map[]
    {
      this.rq, waitNext := rq, map[];
    }

    /** Lists the process of a hart at the front of a waiting list and yields. */
    method ChannelWait(h: nat, list: Option<Pid>) returns (list': Option<Pid>)
      requires Valid() && h < HARTS && (list.Some? ==> list.value in rq.procs)
      requires rq.current[h].Some? ==> rq.current[h].value in rq.procs
      modifies this, rq
      ensures Valid() && rq.procs.Keys == old(rq.procs.Keys) && rq.A() == S.Block(old(rq.A()), h)
      ensures S.Inv(old(rq.A())) ==> S.Inv(rq.A())
      ensures old(rq.current)[h] == None ==> list' == list && waitNext == old(waitNext)
      ensures old(rq.current)[h].Some? ==>
                list' == old(rq.current)[h] && list'.value in rq.procs && waitNext == old(waitNext)[list'.value := list]
    {
      hide Rep, S.Inv, S.Yield, S.SetState;
      ghost var a := rq.A();
      if S.Inv(a) {
        S.BlockInv(a, h);
      }
      list' := list;
      if rq.current[h].Some? {
        waitNext := waitNext[rq.current[h].value := list];
        list' := rq.current[h];
        rq.SetState(rq.current[h].value, S.Waiting);
      }
      rq.SchedYield(h);
    }

    /**
     * Marks every process that the list leads to ready, whatever its state, clears their links, and
     * leaves the list empty. It ends on every list, even one that leads back to itself.
     */
    method WaitWakeAll(list: Option<Pid>) returns (list': Option<Pid>)
      requires Valid() && (list.Some? ==> list.value in rq.procs)
      modifies this, rq
      ensures Valid() && rq.procs.Keys == old(rq.procs.Keys) && list' == None
      ensures rq.A() == S.ChannelWake(old(rq.A()), Visited(old(waitNext), list))
      ensures Unlinked(old(waitNext), waitNext, Visited(old(waitNext), list))
      ensures S.Inv(old(rq.A())) ==>
                (S.Inv(rq.A()) <==> forall p | p in Visited(old(waitNext), list) ::
                  S.StateOf(old(rq.A()), p) == S.Ready)
    {
      hide WaitLists.Waking, WaitLists.Valid, S.Inv, S.ChannelWake, RunQueues.A, RunQueues.Valid, Visited, Ahead,
           S.StateOf, Unlinked;
      ghost var a, l, i, w := rq.A(), Visited(waitNext, list), 0, waitNext;
      WakeStart(list);
      var cur := list;
      while cur.Some?
        invariant Waking(a, w, l, i, cur, old(rq.procs.Keys))
        decreases Ahead(waitNext, cur)
      {
        cur := WakeOne(cur.value, a, w, l, i, old(rq.procs.Keys));
        i := i + 1;
      }
      WakeEnd(a, w, l, i, old(rq.procs.Keys));
      return None;
    }

    /** The walk has woken the first `i` of the processes that it meets. */
    ghost predicate Waking(a: S.Sched, w: map<Pid, Option<Pid>>, l: seq<Pid>, i: nat, cur: Option<Pid>,
                           known: set<Pid>)
      reads this, rq
    {
      && Valid() && rq.procs.Keys == known == a.procs.Keys && (cur.Some? ==> cur.value in known) && i <= |l|
      && l[i..] == Visited(waitNext, cur) && S.ChannelWake(rq.A(), l[i..]) == S.ChannelWake(a, l)
      && Unlinked(w, waitNext, l[..i]) && forall p | p in l :: p in known
    }

    lemma WakeStart(list: Option<Pid>)
      requires Valid() && (list.Some? ==> list.value in rq.procs)
      ensures Waking(rq.A(), waitNext, Visited(waitNext, list), 0, list, rq.procs.Keys)
    {
      hide Visited, S.ChannelWake, Rep;
      var l := Visited(waitNext, list);
      VisitedExist(waitNext, list, rq.procs.Keys);
      assert l[0..] == l;
    }

    /** One turn of the walk. */
    method WakeOne(p: Pid, ghost a: S.Sched, ghost w: map<Pid, Option<Pid>>, ghost l: seq<Pid>, ghost i: nat,
                   ghost known: set<Pid>)
      returns (next: Option<Pid>)
      requires Waking(a, w, l, i, Some(p), known)
      modifies this, rq
      ensures Waking(a, w, l, i + 1, next, known)
      ensures Ahead(waitNext, next) < old(Ahead(waitNext, Some(p)))
    {
      hide S.SetState, S.ChannelWake, RunQueues.A, RunQueues.Valid, Visited, Ahead;
      VisitedStep(waitNext, p, l, i);
      S.ChannelWakeStep(rq.A(), l, i);
      AheadLess(waitNext, p);
      next := NextWaiter(waitNext, p);
      rq.SetState(p, S.Ready);
      waitNext := waitNext[p := None];
    }

    lemma WakeEnd(a: S.Sched, w: map<Pid, Option<Pid>>, l: seq<Pid>, i: nat, known: set<Pid>)
      requires Waking(a, w, l, i, None, known)
      ensures Valid() && rq.procs.Keys == known && rq.A() == S.ChannelWake(a, l)
      ensures Unlinked(w, waitNext, l)
      ensures S.Inv(a) ==> (S.Inv(rq.A()) <==> forall p | p in l :: S.StateOf(a, p) == S.Ready)
    {
      hide S.Inv, S.ChannelWake, RunQueues.A, RunQueues.Valid, Visited, S.StateOf;
      VisitedNone(waitNext);
      assert l[..i] == l;
      WokenAll(rq.A(), a, l);
    }
  }

  lemma WokenAll(s: S.Sched, a: S.Sched, l: seq<Pid>)
    requires S.ChannelWake(s, []) == S.ChannelWake(a, l) && forall p | p in l :: p in a.procs
    ensures s == S.ChannelWake(a, l)
    ensures S.Inv(a) ==> (S.Inv(s) <==> forall p | p in l :: S.StateOf(a, p) == S.Ready)
  {
    if S.Inv(a) {
      S.ChannelWakeInvIff(a, l);
    }
  }
}
