/** IPC channels: a 4096-byte ring with 32-bit counters that wrap. */
module Channels {
  import opened Base
  import opened Ring
  import S = SchedulerSpec
  import opened Runqueue

  const BUF_SIZE := 4096

  /** A call on a channel, and by whom. */
  datatype Call = Send(pid: nat, bytes: seq<Byte>) | Recv(pid: nat, len: nat) | Close

  class Channel {
    const buf: array<Byte>
    var head: nat
    var tail: nat
    var used: bool
    var closed: bool
    /** Processes that may use the channel. */
    var allowed: set<nat>
    /** The heads of the lists of processes that wait for room and for bytes. */
    var sendWait: Option<nat>
    var recvWait: Option<nat>
    /** Every byte ever accepted, and how many of them have been received. */
    ghost var sent: seq<Byte>
    ghost var received: nat

    ghost predicate Valid()
      reads this, buf
    {
      && buf.Length == BUF_SIZE && Window(buf[..], sent, received)
      && head == received % WORD && tail == |sent| % WORD
    }

    constructor (allowed: set<nat>)
      ensures Valid() && used && !closed && sent == [] && received == 0 && this.allowed == allowed && fresh(buf)
      ensures sendWait == None && recvWait == None
    {
      buf := new Byte[BUF_SIZE](_ => 0);
      head, tail, used, closed := 0, 0, true, false;
      this.allowed, sendWait, recvWait := allowed, None, None;
      sent, received := [], 0;
    }

    /** The bytes in flight. */
    ghost function InFlight(): seq<Byte>
      requires Valid()
      reads this, buf
    {
      sent[received..]
    }

    /** Why a call is refused before it looks at the ring. */
    function Refusal(pid: nat): Option<Errno>
      reads this
    {
      if !used || closed then Some(Pipe) else if pid !in allowed then Some(Perm) else None
    }

    /** The number of bytes in flight, from the wrapped counters. */
    method Count() returns (n: nat)
      requires Valid()
      ensures n == |sent| - received <= BUF_SIZE
    {
      WrapDifference(|sent|, received);
      n := (tail - head) % WORD;
    }

    /** Accepts all of `bytes` or, when they do not fit, none. */
    method SendBytes(pid: nat, bytes: seq<Byte>) returns (r: Result<nat>)
      requires Valid() && |bytes| < WORD
      modifies this`tail, this`sent, buf
      ensures Valid() && received == old(received)
      ensures r == if Refusal(pid).Some? then Err(Refusal(pid).value)
                   else if |old(InFlight())| + |bytes| > BUF_SIZE then Err(Busy) else Ok(|bytes|)
      ensures r == Err(Pipe) <==> !used || closed
      ensures r == Err(Perm) <==> used && !closed && pid !in allowed
      ensures sent == old(sent) + if r.Ok? then bytes else []
    {
      if Refusal(pid).Some? {
        return Err(Refusal(pid).value);
      }
      var count := Count();
      if BUF_SIZE - count < |bytes| {
        return Err(Busy);
      }
      var written := 0;
      while written < |bytes|
        invariant written <= |bytes| && Valid() && received == old(received) && sent == old(sent) + bytes[..written]
      {
        WrapFindsCell(|sent|);
        WrapStep(|sent|);
        WindowPut(buf[..], sent, received, bytes[written]);
        var idx := tail % BUF_SIZE;
        ghost var cells := buf[..];
        buf[idx] := bytes[written];
        assert buf[..] == cells[|sent| % BUF_SIZE := bytes[written]];
        tail := (tail + 1) % WORD;
        sent := sent + [bytes[written]];
        written := written + 1;
      }
      return Ok(written);
    }

    /** Takes the oldest bytes, as many as asked for or in flight. */
    method RecvBytes(pid: nat, len: nat) returns (r: Result<seq<Byte>>)
      requires Valid()
      modifies this`head, this`received
      ensures Valid()
      ensures r == if Refusal(pid).Some? then Err(Refusal(pid).value)
                   else Ok(old(InFlight())[..if len < |old(InFlight())| then len else |old(InFlight())|])
      ensures r == Err(Pipe) <==> !used || closed
      ensures r == Err(Perm) <==> used && !closed && pid !in allowed
      ensures received == old(received) + if r.Ok? then |r.value| else 0
    {
      if Refusal(pid).Some? {
        return Err(Refusal(pid).value);
      }
      var count := Count();
      var toRead := if len < count then len else count;
      var out: seq<Byte> := [];
      while |out| < toRead
        invariant |out| <= toRead && Valid() && received == old(received) + |out|
        invariant out == sent[old(received)..old(received) + |out|]
        decreases toRead - |out|
      {
        WrapFindsCell(received);
        WrapStep(received);
        WindowTake(buf[..], sent, received);
        out := out + [buf[head % BUF_SIZE]];
        head := (head + 1) % WORD;
        received := received + 1;
      }
      assert sent[old(received)..][..toRead] == sent[old(received)..old(received) + toRead];
      return Ok(out);
    }

    /** Closes the channel; from then on every call is refused. */
    method CloseChannel() returns (r: Result<()>)
      requires Valid()
      modifies this`used, this`closed
      ensures Valid() && !used && r == (if old(used) then Ok(()) else Err(NoEnt))
      ensures closed == (old(closed) || old(used)) && forall pid: nat :: Refusal(pid) == Some(Pipe)
    {
      if !used {
        return Err(NoEnt);
      }
      closed, used := true, false;
      return Ok(());
    }

    /** The processes at the heads of the waiting lists exist. */
    ghost predicate HeadsExist(known: set<nat>)
      reads this
    {
      (sendWait.Some? ==> sendWait.value in known) && (recvWait.Some? ==> recvWait.value in known)
    }

    /**
     * The send call of the process on hart `h`. When it accepts bytes it wakes every waiting
     * receiver; a blocking caller for whose bytes there is no room is listed and yields.
     */
    method SendCall(h: nat, bytes: seq<Byte>, blocking: bool, wl: WaitLists) returns (r: Result<nat>)
      requires Valid() && |bytes| < WORD && wl.Valid() && h < S.HARTS && HeadsExist(wl.rq.procs.Keys)
      requires wl.rq.current[h].Some? && wl.rq.current[h].value in wl.rq.procs
      modifies this, buf, wl, wl.rq
      ensures Valid() && wl.Valid() && HeadsExist(wl.rq.procs.Keys) && received == old(received)
      ensures var pid := old(wl.rq.current[h].value);
              r == if old(Refusal(pid)).Some? then Err(old(Refusal(pid)).value)
                   else if |old(InFlight())| + |bytes| > BUF_SIZE then Err(Busy) else Ok(|bytes|)
      ensures sent == old(sent) + if r.Ok? then bytes else []
      ensures r == Err(Pipe) <==> !used || closed
      ensures r == Err(Perm) <==> used && !closed && old(wl.rq.current[h].value) !in allowed
      ensures used == old(used) && closed == old(closed) && allowed == old(allowed)
      ensures Called(old(wl.rq.A()), wl.rq.A(), old(wl.waitNext), wl.waitNext, h, old(sendWait), sendWait,
                     old(recvWait), recvWait, r.Ok?, r == Err(Busy) && blocking)
    {
      hide Rep, Counted, Abs, S.Block, S.ChannelWake, S.Inv, Visited, Window, Unlinked;
      var pid := wl.rq.current[h].value;
      r := SendBytes(pid, bytes);
      if r == Err(Busy) && blocking {
        sendWait := wl.ChannelWait(h, sendWait);
      } else if r.Ok? {
        recvWait := wl.WaitWakeAll(recvWait);
      }
    }

    /**
     * The receive call of the process on hart `h`. When it finds bytes it wakes every waiting
     * sender; a blocking caller that finds none is listed and yields.
     */
    method RecvCall(h: nat, len: nat, blocking: bool, wl: WaitLists) returns (r: Result<seq<Byte>>)
      requires Valid() && wl.Valid() && h < S.HARTS && HeadsExist(wl.rq.procs.Keys)
      requires wl.rq.current[h].Some? && wl.rq.current[h].value in wl.rq.procs
      modifies this, wl, wl.rq
      ensures Valid() && wl.Valid() && HeadsExist(wl.rq.procs.Keys) && sent == old(sent)
      ensures var pid := old(wl.rq.current[h].value);
              r == if old(Refusal(pid)).Some? then Err(old(Refusal(pid)).value)
                   else Ok(old(InFlight())[..if len < |old(InFlight())| then len else |old(InFlight())|])
      ensures received == old(received) + if r.Ok? then |r.value| else 0
      ensures r == Err(Pipe) <==> !used || closed
      ensures r == Err(Perm) <==> used && !closed && old(wl.rq.current[h].value) !in allowed
      ensures used == old(used) && closed == old(closed) && allowed == old(allowed)
      ensures Called(old(wl.rq.A()), wl.rq.A(), old(wl.waitNext), wl.waitNext, h, old(recvWait), recvWait,
                     old(sendWait), sendWait,
                     r.Ok? && old(InFlight()) != [], r.Ok? && old(InFlight()) == [] && blocking)
    {
      hide Rep, Counted, Abs, S.Block, S.ChannelWake, S.Inv, Visited, Window, Unlinked;
      var pid := wl.rq.current[h].value;
      var count := Count();
      r := RecvBytes(pid, len);
      if r.Ok? && count == 0 && blocking {
        recvWait := wl.ChannelWait(h, recvWait);
      } else if r.Ok? && count > 0 {
        sendWait := wl.WaitWakeAll(sendWait);
      }
    }

    /**
     * Any run of calls by any processes: what was accepted is what has been received followed by
     * what is still in flight, however often the counters wrap. After a close nothing moves.
     */
    method Run(calls: seq<Call>) returns (ins: seq<Byte>, outs: seq<Byte>)
      requires Valid() && sent == [] && forall c | c in calls && c.Send? :: |c.bytes| < WORD
      modifies this, buf
      ensures Valid() && ins == outs + InFlight() && |InFlight()| <= BUF_SIZE
      ensures Close in calls ==> !used
    {
      ins, outs := [], [];
      for k := 0 to |calls|
        invariant Valid() && sent == ins && received == |outs| && outs == sent[..received]
        invariant Close in calls[..k] ==> !used
        invariant !used ==> forall pid: nat :: Refusal(pid).Some?
      {
        match calls[k]
        case Send(pid, bytes) =>
          var r := SendBytes(pid, bytes);
          if r.Ok? {
            ins := ins + bytes;
          }
        case Recv(pid, len) =>
          var r := RecvBytes(pid, len);
          if r.Ok? {
            outs := outs + r.value;
          }
        case Close =>
          var _ := CloseChannel();
      }
      assert sent == sent[..received] + sent[received..];
    }
  }

  /**
   * What a call does to the processes: a caller that waits is put at the front of its own list and
   * yields; a call that moved bytes marks every process on the other list ready and empties it.
   */
  ghost predicate Called(a: S.Sched, a': S.Sched, waitNext: map<nat, Option<nat>>, waitNext': map<nat, Option<nat>>,
                         h: nat, own: Option<nat>, own': Option<nat>, other: Option<nat>, other': Option<nat>,
                         moved: bool, waits: bool)
    requires S.Sized(a) && h < S.HARTS
  {
    if waits then
      && a' == S.Block(a, h) && own' == a.current[h] && other' == other
      && own'.Some? && waitNext' == waitNext[own'.value := own]
    else if moved then
      && a' == S.ChannelWake(a, Visited(waitNext, other)) && own' == own && other' == None
      && Unlinked(waitNext, waitNext', Visited(waitNext, other))
    else
      a' == a && own' == own && other' == other && waitNext' == waitNext
  }
}
