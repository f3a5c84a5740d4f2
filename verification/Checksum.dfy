/** The Internet checksum (section 1 of RFC 1071) of IP headers and TCP segments. */
module Checksums {
  import opened Base

  const WORD := 0x1_0000_0000

  /** A 16-bit word in network order. */
  function Be16(a: Byte, b: Byte): (w: nat)
    ensures w < 0x1_0000
  {
    256 * a + b
  }

  function ToBe16(w: nat): (r: seq<Byte>)
    requires w < 0x1_0000
    ensures |r| == 2 && Be16(r[0], r[1]) == w
  {
    [w / 256, w % 256]
  }

  /** The sum of the words of `s`; an odd last byte counts as if a zero followed it. */
  function Sum(s: seq<Byte>): nat {
    if |s| == 0 then 0
    else if |s| == 1 then Be16(s[0], 0)
    else Be16(s[0], s[1]) + Sum(s[2..])
  }

  /** The sum of every second byte. */
  function EverySecond(s: seq<Byte>): nat {
    if |s| == 0 then 0 else s[0] + if |s| == 1 then 0 else EverySecond(s[2..])
  }

  /** Bytes at even places weigh 256, those at odd places 1. */
  lemma {:induction false} SumWeights(s: seq<Byte>)
    ensures Sum(s) == 256 * EverySecond(s) + if |s| == 0 then 0 else EverySecond(s[1..])
    decreases |s|
  {
    if |s| >= 2 {
      SumWeights(s[2..]);
      if |s| >= 3 {
        assert s[1..][2..] == s[2..][1..];
      }
    }
  }

  /** One's complement addition folds a sum into 16 bits: its rest modulo 65535, but never 0 for a positive sum. */
  function Fold(s: nat): (f: nat)
    ensures f < 0x1_0000
  {
    if s == 0 then 0 else if s % 0xFFFF == 0 then 0xFFFF else s % 0xFFFF
  }

  function Wrap32(x: nat): (r: nat)
    ensures r < WORD && (x < WORD ==> r == x)
  {
    x % WORD
  }

  /** What `checksum` returns when the 32-bit accumulator does not wrap. */
  function Checksum(s: seq<Byte>): (c: nat)
    ensures c < 0x1_0000
  {
    0xFFFF - Fold(Sum(s))
  }

  lemma {:induction false} SumAdd(a: seq<Byte>, b: seq<Byte>)
    requires |a| % 2 == 0
    ensures Sum(a + b) == Sum(a) + Sum(b)
    decreases |a|
  {
    if a == [] {
      assert a + b == b;
    } else {
      SumAdd(a[2..], b);
      assert (a + b)[2..] == a[2..] + b;
    }
  }

  lemma {:induction false} SumBound(s: seq<Byte>)
    ensures Sum(s) <= 0xFFFF * ((|s| + 1) / 2)
    decreases |s|
  {
    if |s| > 1 {
      SumBound(s[2..]);
    }
  }

  /** No 32-bit accumulator wraps below 128 KiB. */
  lemma {:induction false} NoWrap(s: seq<Byte>)
    requires |s| < 0x2_0000
    ensures Sum(s) < WORD
  {
    SumBound(s);
  }

  /** Folding once keeps the value modulo 65535 and keeps a positive sum positive. */
  lemma FoldStep(s: nat)
    ensures Fold(s % 0x1_0000 + s / 0x1_0000) == Fold(s)
    ensures s >= 0x1_0000 ==> s % 0x1_0000 + s / 0x1_0000 < s
    ensures s < 0x1_0000 ==> Fold(s) == s
  {
    var q, r := s / 0x1_0000, s % 0x1_0000;
    assert s == (q + r) + 0xFFFF * q;
    ModDrop(q + r, q);
  }

  lemma {:induction false} ModDrop(x: nat, q: nat)
    ensures (x + 0xFFFF * q) % 0xFFFF == x % 0xFFFF
  {
    if q > 0 {
      ModDrop(x, q - 1);
      assert x + 0xFFFF * q == (x + 0xFFFF * (q - 1)) + 0xFFFF;
    }
  }

  /** A sum plus the complement of its fold is all ones. */
  lemma ComplementFills(s: nat)
    ensures Fold(s + (0xFFFF - Fold(s))) == 0xFFFF
  {
    var q, r := s / 0xFFFF, s % 0xFFFF;
    assert s == 0xFFFF * q + r;
    if s > 0 {
      if r == 0 {
        assert s + (0xFFFF - Fold(s)) == s;
      } else {
        assert s + (0xFFFF - Fold(s)) == 0 + 0xFFFF * (q + 1);
        ModDrop(0, q + 1);
      }
    }
  }

  /** `s` with the word `w` stored at an even offset. */
  function Stored(s: seq<Byte>, off: nat, w: nat): (r: seq<Byte>)
    requires off + 2 <= |s| && w < 0x1_0000
    ensures |r| == |s|
  {
    s[..off] + ToBe16(w) + s[off + 2..]
  }

  lemma {:induction false} SumPair(a: Byte, b: Byte, c: seq<Byte>)
    ensures Sum([a, b] + c) == Be16(a, b) + Sum(c) && Sum([a, b]) == Be16(a, b)
  {
    assert ([a, b] + c)[2..] == c && [a, b][2..] == [];
  }

  lemma {:induction false} StoredSum(s: seq<Byte>, off: nat, w: nat)
    requires off + 2 <= |s| && off % 2 == 0 && w < 0x1_0000 && s[off] == 0 && s[off + 1] == 0
    ensures Sum(Stored(s, off, w)) == Sum(s) + w
  {
    hide Sum;
    var a, c, b := s[..off], s[off + 2..], ToBe16(w);
    assert s == a + ([0, 0] + c) && Stored(s, off, w) == a + ([b[0], b[1]] + c);
    SumAdd(a, [0, 0] + c);
    SumAdd(a, [b[0], b[1]] + c);
    SumPair(0, 0, c);
    SumPair(b[0], b[1], c);
  }

  /** Storing the checksum in its zeroed field makes the whole sum to zero, for every content. */
  lemma {:induction false} Rechecks(s: seq<Byte>, off: nat)
    requires off + 2 <= |s| && off % 2 == 0 && s[off] == 0 && s[off + 1] == 0
    ensures Checksum(Stored(s, off, Checksum(s))) == 0
  {
    hide Sum, Stored;
    StoredSum(s, off, Checksum(s));
    ComplementFills(Sum(s));
  }

  /** The same holds behind a prefix of even length, such as a pseudo-header. */
  lemma {:induction false} RechecksBehind(p: seq<Byte>, s: seq<Byte>, off: nat)
    requires |p| % 2 == 0 && off + 2 <= |s| && off % 2 == 0 && s[off] == 0 && s[off + 1] == 0
    ensures Checksum(p + Stored(s, off, Checksum(p + s))) == 0
  {
    hide Checksum;
    var c, ps := Checksum(p + s), p + s;
    Rechecks(ps, |p| + off);
    assert ps[..|p| + off] == p + s[..off] && ps[|p| + off + 2..] == s[off + 2..];
    assert Stored(ps, |p| + off, c) == p + Stored(s, off, c);
  }

  /** What is put before a segment for its checksum (section 3.1 of RFC 9293). */
  function PseudoHeader(src: seq<Byte>, dst: seq<Byte>, len: nat): (p: seq<Byte>)
    requires |src| == |dst| == 4 && len < 0x1_0000
    ensures |p| == 12
  {
    src + dst + LengthWords(len)
  }

  /** Zero, the protocol number of TCP, and the length. */
  function LengthWords(len: nat): (r: seq<Byte>)
    requires len < 0x1_0000
    ensures |r| == 4 && Be16(r[0], r[1]) == 6 && Be16(r[2], r[3]) == len
  {
    [0, 6, len / 256, len % 256]
  }

  lemma {:induction false} PseudoSum(src: seq<Byte>, dst: seq<Byte>, seg: seq<Byte>)
    requires |src| == |dst| == 4 && |seg| < 0x1_0000
    ensures Sum(PseudoHeader(src, dst, |seg|) + seg) == Sum(src) + Sum(dst) + 6 + |seg| + Sum(seg)
  {
    var tail := LengthWords(|seg|);
    hide Sum, LengthWords, Be16;
    SumParts(src, dst, tail, seg);
    FourBytes(tail);
  }

  lemma {:induction false} SumParts(a: seq<Byte>, b: seq<Byte>, c: seq<Byte>, d: seq<Byte>)
    requires |a| == |b| == |c| == 4
    ensures Sum(a + b + c + d) == Sum(a) + Sum(b) + Sum(c) + Sum(d)
  {
    hide Sum;
    SumAdd(a + b + c, d);
    SumAdd(a + b, c);
    SumAdd(a, b);
  }

  // ----- the loops

  /** Folds a 32-bit sum by adding its halves until it fits 16 bits, and complements it. */
  method Finish(total: nat) returns (c: nat)
    ensures c == 0xFFFF - Fold(total)
  {
    var sum := total;
    while sum / 0x1_0000 != 0
      invariant Fold(sum) == Fold(total)
      decreases sum
    {
      FoldStep(sum);
      sum := sum % 0x1_0000 + sum / 0x1_0000;
    }
    FoldStep(sum);
    c := 0xFFFF - sum;
  }

  lemma {:induction false} SumStep(s: seq<Byte>, i: nat)
    requires i < |s|
    ensures i + 1 < |s| ==> Sum(s[i..]) == Be16(s[i], s[i + 1]) + Sum(s[i + 2..])
    ensures i + 1 == |s| ==> Sum(s[i..]) == Be16(s[i], 0)
  {
    if i + 1 < |s| {
      assert s[i..][2..] == s[i + 2..];
    }
  }

  /** `checksum`, for any data: the accumulator wraps at 32 bits. */
  method ComputeChecksum(data: seq<Byte>) returns (c: nat)
    ensures c == 0xFFFF - Fold(Wrap32(Sum(data)))
    ensures |data| < 0x2_0000 ==> c == Checksum(data)
  {
    var sum: nat, i: nat := 0, 0;
    assert data[0..] == data;
    assert Sum(data[|data|..]) == 0;
    hide Sum, Be16, Fold, Wrap32;
    while i + 1 < |data|
      invariant i <= |data| && sum < WORD && Wrap32(sum + Sum(data[i..])) == Wrap32(Sum(data))
    {
      SumStep(data, i);
      Accumulate(sum, Be16(data[i], data[i + 1]), Sum(data[i + 2..]));
      sum := Wrap32(sum + Be16(data[i], data[i + 1]));
      i := i + 2;
    }
    if i < |data| {
      SumStep(data, i);
      Accumulate(sum, Be16(data[i], 0), 0);
      sum := Wrap32(sum + Be16(data[i], 0));
    }
    c := Finish(sum);
    if |data| < 0x2_0000 {
      NoWrap(data);
    }
  }

  lemma Accumulate(sum: nat, w: nat, rest: nat)
    ensures Wrap32(Wrap32(sum + w) + rest) == Wrap32(sum + (w + rest))
  {
    var q := (sum + w) / WORD;
    assert sum + (w + rest) == ((sum + w) % WORD + rest) + WORD * q;
  }

  /**
   * `tcp_checksum`: the pseudo-header is added up from its parts. For every segment below 65536
   * bytes this is `checksum` over pseudo-header and segment.
   */
  method TcpChecksum(src: seq<Byte>, dst: seq<Byte>, seg: seq<Byte>) returns (c: nat)
    requires |src| == |dst| == 4 && |seg| < 0x1_0000
    ensures c == Checksum(PseudoHeader(src, dst, |seg|) + seg)
  {
    PseudoSum(src, dst, seg);
    NoWrap(PseudoHeader(src, dst, |seg|) + seg);
    FourBytes(src);
    FourBytes(dst);
    hide Sum, Be16, Fold, PseudoHeader;
    var sum: nat := Be16(src[0], src[1]) + Be16(src[2], src[3]);
    sum := sum + (Be16(dst[0], dst[1]) + Be16(dst[2], dst[3]));
    sum := sum + 6 + |seg|;
    sum := AddSegment(sum, seg);
    c := Finish(sum);
  }

  /** Adds the words of a segment, padded to an even length. */
  method AddSegment(start: nat, seg: seq<Byte>) returns (sum: nat)
    requires start + Sum(seg) < WORD
    ensures sum == start + Sum(seg)
  {
    var pad := if |seg| % 2 != 0 then 1 else 0;
    var i: nat := 0;
    sum := start;
    assert seg[0..] == seg && Sum([]) == 0;
    hide Sum, Be16;
    while i + 1 < |seg| + pad
      invariant i <= |seg| + pad && i % 2 == 0
      invariant sum + (if i < |seg| then Sum(seg[i..]) else 0) == start + Sum(seg)
    {
      SumStep(seg, i);
      var b0 := if i < |seg| then seg[i] else 0;
      var b1 := if i + 1 < |seg| then seg[i + 1] else 0;
      if i + 2 == |seg| {
        assert seg[i + 2..] == [];
      }
      sum := Wrap32(sum + Be16(b0, b1));
      i := i + 2;
    }
  }

  lemma {:induction false} FourBytes(s: seq<Byte>)
    requires |s| == 4
    ensures Sum(s) == Be16(s[0], s[1]) + Be16(s[2], s[3])
  {
    SumPair(s[2], s[3], []);
    assert s[2..] == [s[2], s[3]];
  }

  const IP_HLEN := 20

  /** The header that `send_packet` puts before a payload, with its checksum in place. */
  method IpHeader(src: seq<Byte>, dst: seq<Byte>, protocol: Byte, payloadLen: nat, id: nat) returns (h: seq<Byte>)
    requires |src| == |dst| == 4 && id < 0x1_0000
    ensures |h| == IP_HLEN && Checksum(h) == 0
    ensures h[0] == 0x45 && h[1] == 0 && h[6] == 0 && h[7] == 0 && h[8] == 64 && h[9] == protocol
    ensures 256 * h[2] as nat + h[3] == (20 + payloadLen) % 0x1_0000 && 256 * h[4] as nat + h[5] == id
    ensures h[12..16] == src && h[16..20] == dst
  {
    var zeroed := ZeroedHeader(src, dst, protocol, (IP_HLEN + payloadLen) % 0x1_0000, id);
    assert Be16(zeroed[2], zeroed[3]) == 256 * zeroed[2] as nat + zeroed[3];
    assert Be16(zeroed[4], zeroed[5]) == 256 * zeroed[4] as nat + zeroed[5];
    hide Sum, Checksum, Fold, ZeroedHeader;
    var ck := ComputeChecksum(zeroed);
    Rechecks(zeroed, 10);
    h := Stored(zeroed, 10, ck);
    assert h[12..16] == zeroed[12..16] && h[16..20] == zeroed[16..20];
  }

  /** The header before its checksum is known. */
  function ZeroedHeader(src: seq<Byte>, dst: seq<Byte>, protocol: Byte, len: nat, id: nat): (h: seq<Byte>)
    requires |src| == |dst| == 4 && len < 0x1_0000 && id < 0x1_0000
    ensures |h| == IP_HLEN && h[0] == 0x45 && h[1] == 0 && h[6] == 0 && h[7] == 0
    ensures h[8] == 64 && h[9] == protocol && h[10] == 0 && h[11] == 0
    ensures h[12..16] == src && h[16..20] == dst && Be16(h[2], h[3]) == len && Be16(h[4], h[5]) == id
  {
    var l, n := ToBe16(len), ToBe16(id);
    [0x45, 0, l[0], l[1], n[0], n[1], 0, 0, 64, protocol, 0, 0,
     src[0], src[1], src[2], src[3], dst[0], dst[1], dst[2], dst[3]]
  }

  /** A segment as `send_tcp_seg` sends it: the receiver's sum over pseudo-header and segment is 0. */
  method SealSegment(src: seq<Byte>, dst: seq<Byte>, seg: seq<Byte>) returns (r: seq<Byte>)
    requires |src| == |dst| == 4 && 20 <= |seg| < 0x1_0000 && seg[16] == 0 && seg[17] == 0
    ensures |r| == |seg| && r[..16] == seg[..16] && r[18..] == seg[18..]
    ensures Checksum(PseudoHeader(src, dst, |r|) + r) == 0
  {
    var ck := TcpChecksum(src, dst, seg);
    RechecksBehind(PseudoHeader(src, dst, |seg|), seg, 16);
    r := Stored(seg, 16, ck);
  }
}
