/**
 * The receive side of a TCP connection (sequence numbers as in section 3.4 of RFC 9293): segments
 * may come in any order, twice or not at all, and the ring holds 2048 bytes.
 */
module Tcp {
  import opened Base
  import opened Ring

  const BUF_SIZE := 2048

  datatype Segment = Segment(seqNo: nat, ackNo: nat, syn: bool, ack: bool, fin: bool, payload: seq<Byte>)

  datatype Event = Arrives(s: Segment) | Reads(len: nat)

  /** The place in the peer's stream that a sequence number names. */
  function Place(isn: nat, seqNo: nat): nat {
    (seqNo - isn - 1) % WORD
  }

  /** A segment of the peer whose stream is `stream`, numbered from `isn` on. */
  ghost predicate Agrees(stream: seq<Byte>, isn: nat, s: Segment) {
    && s.seqNo < WORD && s.ackNo < WORD
    && (s.syn && s.ack ==> s.seqNo == isn)
    && (s.payload != [] ==>
          var p := Place(isn, s.seqNo);
          p + |s.payload| <= |stream| && s.payload == stream[p..p + |s.payload|])
  }

  /** Below 2^32 bytes, the number of the next byte names only that place. */
  lemma PlaceOfNext(isn: nat, got: nat)
    requires got < WORD && isn < WORD
    ensures Place(isn, (isn + 1 + got) % WORD) == got
  {
    if isn + 1 + got >= WORD {
      assert (isn + 1 + got) % WORD == isn + 1 + got - WORD;
    }
  }

  /** How many bytes of a segment a connection takes: those that are next and fit. */
  function Taken(s: Segment, rcvNxt: nat, recvLen: nat): (n: nat)
    requires recvLen <= BUF_SIZE
    ensures n <= |s.payload| && n <= BUF_SIZE - recvLen
  {
    if s.seqNo != rcvNxt then 0
    else if |s.payload| < BUF_SIZE - recvLen then |s.payload| else BUF_SIZE - recvLen
  }

  class Conn {
    var state: nat    // 1 connecting, 2 established, 3 closing, 4 closed
    var sndNxt: nat
    var rcvNxt: nat
    const recvBuf: array<Byte>
    var recvLen: nat
    var recvHead: nat
    /** What the peer sends, its first sequence number, and how much was taken and handed out. */
    ghost const stream: seq<Byte>
    ghost const isn: nat
    ghost var got: nat
    ghost var delivered: nat

    ghost predicate Valid()
      reads this, recvBuf
    {
      && |stream| < WORD && isn < WORD && got <= |stream| && recvBuf.Length == BUF_SIZE
      && sndNxt < WORD && rcvNxt < WORD
      && Window(recvBuf[..], stream[..got], delivered)
      && recvHead == delivered % BUF_SIZE && recvLen == got - delivered <= BUF_SIZE
      && (state == 1 ==> got == 0)
      && (state == 2 ==> rcvNxt == (isn + 1 + got) % WORD)
    }

    /** A connection that has sent its SYN. */
    constructor (port: nat, ghost stream: seq<Byte>, ghost isn: nat)
      requires |stream| < WORD && isn < WORD && port < 0x1_0000
      ensures Valid() && state == 1 && delivered == 0 && this.stream == stream && this.isn == isn && fresh(recvBuf)
    {
      state, sndNxt, rcvNxt, recvLen, recvHead := 1, port + 1, 0, 0, 0;
      recvBuf := new Byte[BUF_SIZE](_ => 0);
      this.stream, this.isn, this.got, this.delivered := stream, isn, 0, 0;
    }

    /** Copies the first `n` bytes of a payload that continues the stream into the ring. */
    method Accept(payload: seq<Byte>, n: nat)
      requires Valid() && n <= |payload| && n <= BUF_SIZE - recvLen
      requires got + n <= |stream| && payload[..n] == stream[got..got + n] && state == 2
      modifies this`recvLen, this`rcvNxt, this`got, recvBuf
      ensures Valid() && got == old(got) + n && rcvNxt == (old(rcvNxt) + n) % WORD
    {
      hide Window;
      var start := (recvHead + recvLen) % BUF_SIZE;
      StartCell(delivered, recvLen);
      ghost var g := got;
      var k := 0;
      while k < n
        modifies recvBuf
        invariant k <= n && g + k <= |stream| && Window(recvBuf[..], stream[..g + k], delivered)
      {
        StartCell(g, k);
        assert payload[..n][k] == stream[g..g + n][k];
        NextByte(recvBuf[..], stream, g + k, delivered);
        ghost var cells := recvBuf[..];
        recvBuf[(start + k) % BUF_SIZE] := payload[k];
        assert recvBuf[..] == cells[(g + k) % BUF_SIZE := payload[k]];
        k := k + 1;
      }
      WrapAdd(isn + 1 + got, n);
      recvLen := recvLen + n;
      rcvNxt := (rcvNxt + n) % WORD;
      got := got + n;
    }

    /** A segment arrives. */
    method Handle(s: Segment)
      requires Valid() && Agrees(stream, isn, s)
      modifies this, recvBuf
      ensures Valid() && delivered == old(delivered)
      ensures old(state) != 2 || s.seqNo != old(rcvNxt) ==> got == old(got)
      ensures old(state) == 2 && s.seqNo == old(rcvNxt) ==>
                && old(got) <= got <= old(got) + |s.payload| && recvLen <= 2048
                && (got == old(got) + |s.payload| || recvLen == 2048)
      ensures sndNxt == if old(state) == 1 && s.syn && s.ack then s.ackNo else old(sndNxt)
      ensures rcvNxt == if (old(state) == 1 && s.syn && s.ack) || (old(state) == 2 && s.fin) then (s.seqNo + 1) % WORD
                        else (old(rcvNxt) + got - old(got)) % WORD
      ensures state == if old(state) == 1 && s.syn && s.ack then 2
                       else if old(state) == 2 && s.fin then 4
                       else if old(state) == 3 && s.ack then 4
                       else old(state)
    {
      hide Window, Place;
      if state == 1 {
        if s.syn && s.ack {
          state, sndNxt, rcvNxt := 2, s.ackNo, (s.seqNo + 1) % WORD;
        }
      } else if state == 2 {
        if s.seqNo == rcvNxt && |s.payload| > 0 {
          PlaceOfNext(isn, got);
          var n := Taken(s, rcvNxt, recvLen);
          Accept(s.payload, n);
        }
        if s.fin {
          state, rcvNxt := 4, (s.seqNo + 1) % WORD;
        }
      } else if state == 3 && s.ack {
        state := 4;
      }
    }

    /** Hands out the oldest bytes, as many as asked for or there. */
    method Receive(len: nat) returns (r: Result<seq<Byte>>)
      requires Valid()
      modifies this`recvLen, this`recvHead, this`delivered
      ensures Valid()
      ensures r == if old(delivered) == got then Err(NoEnt)
                   else Ok(stream[old(delivered)..old(delivered) + if len < old(recvLen) then len else old(recvLen)])
      ensures delivered == old(delivered) + if r.Ok? then |r.value| else 0
    {
      hide Window;
      if recvLen == 0 {
        return Err(NoEnt);
      }
      var n := if len < recvLen then len else recvLen;
      var out: seq<Byte> := [];
      ghost var d := delivered;
      while |out| < n
        invariant |out| <= n && out == stream[d..d + |out|] && Window(recvBuf[..], stream[..got], d + |out|)
        decreases n - |out|
        modifies {}
      {
        StartCell(d, |out|);
        TakeByte(recvBuf[..], stream, got, d + |out|);
        out := out + [recvBuf[(recvHead + |out|) % BUF_SIZE]];
      }
      StartCell(d, n);
      recvHead := (recvHead + n) % BUF_SIZE;
      recvLen := recvLen - n;
      delivered := delivered + n;
      return Ok(out);
    }

    /**
     * Whatever arrives in whatever order, and whenever the program reads, all it has read is a
     * prefix of the peer's stream.
     */
    method Run(events: seq<Event>) returns (out: seq<Byte>)
      requires Valid() && delivered == 0 && forall e | e in events && e.Arrives? :: Agrees(stream, isn, e.s)
      modifies this, recvBuf
      ensures Valid() && out == stream[..delivered] && out <= stream
    {
      out := [];
      for k := 0 to |events|
        invariant Valid() && delivered <= |stream| && out == stream[..delivered]
      {
        match events[k]
        case Arrives(s) =>
          assert events[k] in events;
          Handle(s);
        case Reads(len) =>
          var r := Receive(len);
          if r.Ok? {
            out := out + r.value;
          }
      }
    }
  }

  lemma NextByte(cells: seq<Byte>, stream: seq<Byte>, g: nat, lo: nat)
    requires g < |stream| && Window(cells, stream[..g], lo) && g < lo + |cells|
    ensures Window(cells[g % |cells| := stream[g]], stream[..g + 1], lo)
  {
    WindowPut(cells, stream[..g], lo, stream[g]);
    assert stream[..g] + [stream[g]] == stream[..g + 1];
  }

  lemma TakeByte(cells: seq<Byte>, stream: seq<Byte>, got: nat, lo: nat)
    requires |cells| == BUF_SIZE && lo < got <= |stream| && Window(cells, stream[..got], lo)
    ensures cells[lo % BUF_SIZE] == stream[lo] && Window(cells, stream[..got], lo + 1)
  {
    WindowTake(cells, stream[..got], lo);
  }

  lemma StartCell(base: nat, k: nat)
    ensures (base % BUF_SIZE + k) % BUF_SIZE == (base + k) % BUF_SIZE
  {
  }
}
