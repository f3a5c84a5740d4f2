/**
 * Run-length compression, as the snapshot code and the `elf2onx` tool share it. A packet is either
 * a run (tag 128 + n - 1, then the value) or a literal (tag n - 1, then n bytes), with n <= 128.
 */
module Rle {
  import opened Base

  /** Three equal bytes start at `j`. */
  predicate Triple(s: seq<Byte>, j: nat) {
    j + 2 < |s| && s[j] == s[j + 1] == s[j + 2]
  }

  /** The length of the run at `i`, at most 128, given that its first `run` bytes are equal. */
  function RunLen(s: seq<Byte>, i: nat, run: nat): (n: nat)
    requires i < |s| && 1 <= run <= 128 && i + run <= |s|
    requires forall k: nat | i <= k < i + run :: s[k] == s[i]
    ensures run <= n <= 128 && i + n <= |s|
    ensures forall k: nat | i <= k < i + n :: s[k] == s[i]
    ensures n < 128 && i + n < |s| ==> s[i + n] != s[i]
    decreases 128 - run
  {
    if i + run < |s| && s[i + run] == s[i] && run < 128 then RunLen(s, i, run + 1) else run
  }

  /** The length of the literal at `i`: up to 128 bytes, none of which starts three equal ones. */
  function LitLen(s: seq<Byte>, i: nat, lit: nat): (n: nat)
    requires lit <= 128 && i + lit <= |s|
    ensures lit <= n <= 128 && i + n <= |s|
    ensures n == 128 || i + n == |s| || Triple(s, i + n)
    decreases 128 - lit
  {
    if i + lit < |s| && lit < 128 && !Triple(s, i + lit) then LitLen(s, i, lit + 1) else lit
  }

  /** The first packet for `s[i..]` and the number of bytes it stands for. */
  function Packet(s: seq<Byte>, i: nat): (r: (seq<Byte>, nat))
    requires i < |s|
    ensures 1 <= r.1 <= 128 && i + r.1 <= |s|
  {
    var run := RunLen(s, i, 1);
    if run >= 3 then ([0x80 + (run - 1), s[i]], run)
    else
      var lit := LitLen(s, i, 0);
      ([lit - 1] + s[i..i + lit], lit)
  }

  /** The compressed form of `s[i..]`. */
  function Compress(s: seq<Byte>, i: nat): seq<Byte>
    requires i <= |s|
    decreases |s| - i
  {
    if i == |s| then [] else Packet(s, i).0 + Compress(s, i + Packet(s, i).1)
  }

  /** `out` followed by the expansion of `src`, or None when `src` is cut short or exceeds `cap`. */
  function Expand(src: seq<Byte>, out: seq<Byte>, cap: nat): Option<seq<Byte>>
    decreases |src|
  {
    if |src| == 0 || |out| >= cap then Some(out)
    else if src[0] >= 0x80 then
      var count := src[0] - 0x80 + 1;
      if |src| < 2 || |out| + count > cap then None
      else Expand(src[2..], out + seq(count, _ => src[1]), cap)
    else
      var count := src[0] + 1;
      if 1 + count > |src| || |out| + count > cap then None
      else Expand(src[1 + count..], out + src[1..1 + count], cap)
  }

  lemma ExpandStep(src: seq<Byte>, out: seq<Byte>, cap: nat)
    requires |src| > 0 && |out| < cap
    requires src[0] >= 0x80 ==> |src| >= 2 && |out| + (src[0] - 0x80 + 1) <= cap
    requires src[0] < 0x80 ==> |src| >= src[0] + 2 && |out| + (src[0] + 1) <= cap
    ensures src[0] >= 0x80 ==> Expand(src, out, cap) == Expand(src[2..], out + seq(src[0] - 0x80 + 1, _ => src[1]), cap)
    ensures src[0] < 0x80 ==> Expand(src, out, cap) == Expand(src[src[0] + 2..], out + src[1..src[0] + 2], cap)
  {
  }

  lemma ExpandFails(src: seq<Byte>, out: seq<Byte>, cap: nat)
    requires |src| > 0 && |out| < cap
    requires src[0] >= 0x80 ==> |src| < 2 || |out| + (src[0] - 0x80 + 1) > cap
    requires src[0] < 0x80 ==> |src| < src[0] + 2 || |out| + (src[0] + 1) > cap
    ensures Expand(src, out, cap) == None
  {
  }

  lemma ExpandDone(src: seq<Byte>, out: seq<Byte>, cap: nat)
    requires |src| == 0 || |out| >= cap
    ensures Expand(src, out, cap) == Some(out)
  {
  }

  lemma RunExpands(s: seq<Byte>, i: nat, n: nat, rest: seq<Byte>, cap: nat)
    requires i + n <= |s| <= cap && 1 <= n <= 128
    requires forall k: nat | i <= k < i + n :: s[k] == s[i]
    ensures Expand([0x80 + (n - 1), s[i]] + rest, s[..i], cap) == Expand(rest, s[..i + n], cap)
  {
    hide Expand;
    var src := [0x80 + (n - 1), s[i]] + rest;
    ExpandStep(src, s[..i], cap);
    assert src[2..] == rest;
    assert s[..i] + seq(n, _ => src[1]) == s[..i + n];
  }

  lemma LiteralExpands(s: seq<Byte>, i: nat, n: nat, rest: seq<Byte>, cap: nat)
    requires i + n <= |s| <= cap && 1 <= n <= 128
    ensures Expand([n - 1] + s[i..i + n] + rest, s[..i], cap) == Expand(rest, s[..i + n], cap)
  {
    hide Expand;
    var src := [n - 1] + s[i..i + n] + rest;
    ExpandStep(src, s[..i], cap);
    assert src[1 + n..] == rest;
    assert src[1..1 + n] == s[i..i + n];
    assert s[..i] + s[i..i + n] == s[..i + n];
  }

  /** Expanding one packet appends the bytes it stands for. */
  lemma PacketExpands(s: seq<Byte>, i: nat, rest: seq<Byte>, cap: nat)
    requires i < |s| <= cap
    ensures Expand(Packet(s, i).0 + rest, s[..i], cap) == Expand(rest, s[..i + Packet(s, i).1], cap)
  {
    hide Expand;
    var n := Packet(s, i).1;
    if RunLen(s, i, 1) >= 3 {
      RunExpands(s, i, n, rest, cap);
    } else {
      LiteralExpands(s, i, n, rest, cap);
    }
  }

  lemma {:induction false} ExpandsFrom(s: seq<Byte>, i: nat, cap: nat)
    requires i <= |s| <= cap
    ensures Expand(Compress(s, i), s[..i], cap) == Some(s)
    decreases |s| - i
  {
    hide Packet, Expand;
    if i == |s| {
      assert s[..i] == s;
      ExpandDone([], s, cap);
    } else {
      var n := Packet(s, i).1;
      PacketExpands(s, i, Compress(s, i + n), cap);
      ExpandsFrom(s, i + n, cap);
    }
  }

  /** Decompressing a compressed sequence gives it back, in any buffer that can hold it. */
  lemma RoundTrip(s: seq<Byte>, cap: nat)
    requires |s| <= cap
    ensures Expand(Compress(s, 0), [], cap) == Some(s)
  {
    ExpandsFrom(s, 0, cap);
    assert s[..0] == [];
  }

  /** The bytes compression may add: one per started 128. */
  function Extra(n: nat): nat {
    (n + 127) / 128
  }

  lemma ExtraSteps(n: nat, m: nat)
    requires m <= n
    ensures Extra(m) <= Extra(n)
    ensures n - m >= 128 ==> Extra(m) + 1 <= Extra(n)
    ensures m == 0 < n ==> 1 <= Extra(n)
  {
  }

  lemma TripleStartsRun(s: seq<Byte>, j: nat)
    requires Triple(s, j)
    ensures Packet(s, j).1 >= 3 && |Packet(s, j).0| == 2
  {
    var run := RunLen(s, j, 1);
    assert run >= 3;
  }

  /** A packet saves a byte, or costs one and is full, last, or followed by three equal bytes. */
  lemma PacketShape(s: seq<Byte>, i: nat)
    requires i < |s|
    ensures var (packet, n) := Packet(s, i);
            || |packet| == 2 < n
            || (|packet| == n + 1 && (n == 128 || i + n == |s| || Triple(s, i + n)))
  {
  }

  /**
   * Compression adds at most one byte per started 128. A literal shorter than 128 that is not the
   * last packet is followed by a run, which saves the byte its tag costs.
   */
  lemma {:induction false} SizeBound(s: seq<Byte>, i: nat)
    requires i <= |s|
    ensures |Compress(s, i)| <= (|s| - i) + Extra(|s| - i)
    decreases |s| - i
  {
    hide Packet, Extra, Triple;
    if i < |s| {
      PacketShape(s, i);
      var j := i + Packet(s, i).1;
      SizeBound(s, j);
      ExtraSteps(|s| - i, |s| - j);
      if j < |s| && Triple(s, j) {
        TripleStartsRun(s, j);
        var k := j + Packet(s, j).1;
        SizeBound(s, k);
        ExtraSteps(|s| - i, |s| - k);
        assert |Compress(s, j)| == 2 + |Compress(s, k)|;
      }
    }
  }

  lemma {:induction false} LiteralGoesOn(s: seq<Byte>, i: nat, lit: nat)
    requires lit <= 128 && i + lit <= |s| && forall j: nat | i <= j < |s| :: !Triple(s, j)
    ensures LitLen(s, i, lit) == if |s| - i < 128 then |s| - i else 128
    decreases 128 - lit
  {
    if i + lit < |s| && lit < 128 {
      LiteralGoesOn(s, i, lit + 1);
    }
  }

  /** The bound is reached wherever no three equal bytes follow each other. */
  lemma {:induction false} SizeReached(s: seq<Byte>, i: nat)
    requires i <= |s| && forall j: nat | i <= j < |s| :: !Triple(s, j)
    ensures |Compress(s, i)| == (|s| - i) + Extra(|s| - i)
    decreases |s| - i
  {
    if i < |s| {
      LiteralGoesOn(s, i, 0);
      assert RunLen(s, i, 1) < 3 by {
        assert !Triple(s, i);
      }
      var n := Packet(s, i).1;
      assert |Packet(s, i).0| == 1 + n;
      hide LitLen, Packet, RunLen;
      SizeReached(s, i + n);
    }
  }

  // ----- no sequence is its own compressed form

  /** The byte after the tag of a packet is the first byte it stands for. */
  lemma SecondByte(s: seq<Byte>, i: nat)
    requires i < |s|
    ensures |Packet(s, i).0| >= 2 && Packet(s, i).0[1] == s[i]
  {
  }

  /** A tag from 0x82 on belongs to a run of that length, which does not go on unless it is full. */
  lemma TagMeansRun(s: seq<Byte>, i: nat)
    requires i < |s| && |Packet(s, i).0| > 0 && Packet(s, i).0[0] >= 0x80
    ensures var n := Packet(s, i).1;
            && Packet(s, i).0 == [0x80 + (n - 1), s[i]] && n >= 3
            && (forall k: nat | i <= k < i + n :: s[k] == s[i])
            && (n < 128 && i + n < |s| ==> s[i + n] != s[i])
  {
  }

  /** A form that starts with a literal starts with its tag and at least the bytes up to a triple. */
  lemma LiteralFirst(s: seq<Byte>)
    requires |s| > 0 && RunLen(s, 0, 1) < 3
    ensures |Compress(s, 0)| >= 2 && Compress(s, 0)[1] == s[0]
    ensures |s| >= 2 && !Triple(s, 1) ==> |Compress(s, 0)| >= 3 && Compress(s, 0)[2] == s[1]
    ensures |s| <= 2 ==> |Compress(s, 0)| > |s|
  {
    var n := LitLen(s, 0, 0);
    assert Packet(s, 0) == ([n - 1] + s[0..n], n);
    assert Compress(s, 0) == ([n - 1] + s[0..n]) + Compress(s, n);
    hide Packet, Compress, LitLen;
  }

  /** After a literal, the form differs in the byte after the first two equal ones, if not before. */
  lemma LiteralNotOwn(s: seq<Byte>)
    requires |s| > 0 && RunLen(s, 0, 1) < 3
    ensures Compress(s, 0) != s
  {
    LiteralFirst(s);
    assert !Triple(s, 0);
    hide Compress, RunLen;
  }

  /** Full runs of 255 are shorter compressed, so the form differs where they end. */
  lemma {:induction false} FullRunsNotOwn(s: seq<Byte>, f: nat)
    requires f >= 1 && 128 * f <= |s| && Compress(s, 0) == seq(2 * f, _ => 255) + Compress(s, 128 * f)
    requires forall k: nat | k < 128 * f :: s[k] == 255
    ensures Compress(s, 0) != s
    decreases |s| - 128 * f
  {
    hide Packet;
    if 128 * f < |s| {
      var c, packet := Compress(s, 0), Packet(s, 128 * f).0;
      SecondByte(s, 128 * f);
      assert c[2 * f] == packet[0] && c[2 * f + 1] == s[128 * f];
      if packet[0] == 255 && s[128 * f] == 255 {
        TagMeansRun(s, 128 * f);
        FullRunsNotOwn(s, f + 1);
      }
    }
  }

  /** The first bytes of a form that starts with a run of `n`. */
  lemma AfterRun(s: seq<Byte>, n: nat, x: Byte, y: Byte)
    requires 0 < n < |s| && Compress(s, 0) == [x, y] + Compress(s, n)
    ensures |Compress(s, 0)| >= 4 && Compress(s, 0)[2] == Packet(s, n).0[0] && Compress(s, 0)[3] == s[n]
  {
    hide Packet;
    SecondByte(s, n);
  }

  /** Two runs of three with tag 0x82 would have to be followed by the second value again. */
  lemma ThreesNotOwn(s: seq<Byte>)
    requires |s| > 3 && Compress(s, 0) == [0x82, 0x82] + Compress(s, 3) && Packet(s, 3).0[0] == 0x82
    ensures Compress(s, 0) != s
  {
    TagMeansRun(s, 3);
    var c := Compress(s, 0);
    assert c == [0x82, 0x82] + (Packet(s, 3).0 + Compress(s, 6));
    hide Packet;
    if |s| > 6 {
      SecondByte(s, 6);
      assert c[5] == Compress(s, 6)[1] == s[6];
    }
  }

  /** After a run, the next packet would have to be one with the same tag. */
  lemma RunNotOwn(s: seq<Byte>)
    requires |s| > 0 && RunLen(s, 0, 1) >= 3
    ensures Compress(s, 0) != s
  {
    var n, v := Packet(s, 0).1, s[0];
    TagMeansRun(s, 0);
    assert Compress(s, 0) == [0x80 + (n - 1), v] + Compress(s, n);
    hide Packet, RunLen, Compress;
    if n < |s| && v == 0x80 + (n - 1) {
      AfterRun(s, n, v, v);
      if n == 3 && Packet(s, n).0[0] == v {
        ThreesNotOwn(s);
      } else if n == 128 && s[n] == v {
        assert [v, v] == seq(2, _ => 255);
        FullRunsNotOwn(s, 1);
      }
    } else if n == |s| {
      NothingLeft(s);
    }
  }

  lemma NothingLeft(s: seq<Byte>)
    ensures Compress(s, |s|) == []
  {
  }

  /** Only the empty sequence compresses to itself. */
  lemma NotOwnCompression(s: seq<Byte>)
    requires |s| > 0
    ensures Compress(s, 0) != s
  {
    if RunLen(s, 0, 1) >= 3 {
      RunNotOwn(s);
    } else {
      LiteralNotOwn(s);
    }
  }

  /** The run at `i` is `n` long if it is `n` equal bytes and then a different one. */
  lemma RunIs(s: seq<Byte>, i: nat, n: nat)
    requires 1 <= n < 128 && i + n < |s| && s[i + n] != s[i]
    requires forall k: nat | i <= k < i + n :: s[k] == s[i]
    ensures RunLen(s, i, 1) == n
  {
    var m := RunLen(s, i, 1);
  }

  // ----- the loops

  method ScanRun(s: seq<Byte>, i: nat) returns (run: nat)
    requires i < |s|
    ensures run == RunLen(s, i, 1)
  {
    run := 1;
    while i + run < |s| && s[i + run] == s[i] && run < 128
      invariant 1 <= run <= 128 && i + run <= |s|
      invariant forall k: nat | i <= k < i + run :: s[k] == s[i]
      invariant RunLen(s, i, run) == RunLen(s, i, 1)
    {
      run := run + 1;
    }
  }

  /** Counts up to three bytes equal to the one at `j`. */
  method ScanTriple(s: seq<Byte>, j: nat) returns (triple: bool)
    requires j < |s|
    ensures triple == Triple(s, j)
  {
    var k := 0;
    while j + k < |s| && s[j + k] == s[j] && k < 3
      invariant k <= 3 && j + k <= |s|
      invariant k > 1 ==> s[j + 1] == s[j]
      invariant k > 2 ==> s[j + 2] == s[j]
    {
      k := k + 1;
    }
    return k >= 3;
  }

  method ScanLiteral(s: seq<Byte>, i: nat) returns (lit: nat)
    requires i <= |s|
    ensures lit == LitLen(s, i, 0)
  {
    lit := 0;
    while i + lit < |s| && lit < 128
      invariant lit <= 128 && i + lit <= |s|
      invariant LitLen(s, i, lit) == LitLen(s, i, 0)
    {
      var triple := ScanTriple(s, i + lit);
      if triple {
        break;
      }
      lit := lit + 1;
    }
  }

  /** Copies `count` bytes of `src` from `i` on to `out` on. */
  method PutBytes(src: seq<Byte>, i: nat, count: nat, dst: array<Byte>, out: nat)
    requires i + count <= |src| && out + count <= dst.Length
    modifies dst
    ensures dst[..out + count] == old(dst[..out]) + src[i..i + count]
    ensures dst[out + count..] == old(dst[out + count..])
  {
    var j := 0;
    while j < count
      invariant j <= count
      invariant dst[..out + j] == old(dst[..out]) + src[i..i + j]
      invariant dst[out + count..] == old(dst[out + count..])
    {
      dst[out + j] := src[i + j];
      assert dst[..out + j + 1] == dst[..out + j] + [src[i + j]];
      j := j + 1;
    }
  }

  /** Writes `count` copies of `val` at `out` on. */
  method PutRun(val: Byte, count: nat, dst: array<Byte>, out: nat)
    requires out + count <= dst.Length
    modifies dst
    ensures dst[..out + count] == old(dst[..out]) + seq(count, _ => val)
    ensures dst[out + count..] == old(dst[out + count..])
  {
    var j := 0;
    while j < count
      invariant j <= count
      invariant dst[..out + j] == old(dst[..out]) + seq(j, _ => val)
      invariant dst[out + count..] == old(dst[out + count..])
    {
      dst[out + j] := val;
      assert dst[..out + j + 1] == dst[..out + j] + [val];
      j := j + 1;
    }
  }

  method PutRunPacket(run: nat, val: Byte, dst: array<Byte>, out: nat)
    requires 1 <= run <= 128 && out + 2 <= dst.Length
    modifies dst
    ensures dst[..out + 2] == old(dst[..out]) + [0x80 + (run - 1), val]
    ensures dst[out + 2..] == old(dst[out + 2..])
  {
    dst[out] := 0x80 + (run - 1);
    dst[out + 1] := val;
  }

  method PutLiteralPacket(s: seq<Byte>, i: nat, lit: nat, dst: array<Byte>, out: nat)
    requires 1 <= lit <= 128 && i + lit <= |s| && out + 1 + lit <= dst.Length
    modifies dst
    ensures dst[..out + 1 + lit] == old(dst[..out]) + ([lit - 1] + s[i..i + lit])
    ensures dst[out + 1 + lit..] == old(dst[out + 1 + lit..])
  {
    dst[out] := lit - 1;
    assert dst[..out + 1] == old(dst[..out]) + [lit - 1];
    PutBytes(s, i, lit, dst, out + 1);
  }

  /** Writes the first packet for `s[i..]` at `out` if it fits, and says how far it got. */
  method PutPacket(s: seq<Byte>, i: nat, dst: array<Byte>, out: nat) returns (ok: bool, n: nat, len: nat)
    requires i < |s| && out <= dst.Length
    modifies dst
    ensures len == |Packet(s, i).0| && n == Packet(s, i).1 && (ok <==> out + len <= dst.Length)
    ensures !ok ==> dst[..] == old(dst[..])
    ensures ok ==> dst[..out + len] == old(dst[..out]) + Packet(s, i).0 && dst[out + len..] == old(dst[out + len..])
  {
    hide RunLen, LitLen;
    n := ScanRun(s, i);
    if n >= 3 {
      len := 2;
      ok := out + len <= dst.Length;
      if ok {
        PutRunPacket(n, s[i], dst, out);
      }
    } else {
      n := ScanLiteral(s, i);
      len := 1 + n;
      ok := out + len <= dst.Length;
      if ok {
        PutLiteralPacket(s, i, n, dst, out);
      }
    }
  }

  /**
   * Compresses `src` into a buffer. Returns the length, or 0 exactly when the compressed form does
   * not fit (or is empty); the buffer beyond it is untouched.
   */
  method RleCompress(src: seq<Byte>, dst: array<Byte>) returns (n: nat)
    modifies dst
    ensures |Compress(src, 0)| <= dst.Length ==>
              n == |Compress(src, 0)| && dst[..n] == Compress(src, 0) && dst[n..] == old(dst[n..])
    ensures |Compress(src, 0)| > dst.Length ==> n == 0
  {
    hide Packet;
    var i: nat, out: nat := 0, 0;
    while i < |src|
      invariant i <= |src| && out <= dst.Length
      invariant dst[..out] + Compress(src, i) == Compress(src, 0)
      invariant dst[out..] == old(dst[out..])
    {
      ghost var before := dst[..out];
      assert before + Compress(src, i) == (before + Packet(src, i).0) + Compress(src, i + Packet(src, i).1);
      var ok, n, len := PutPacket(src, i, dst, out);
      if !ok {
        return 0;
      }
      i, out := i + n, out + len;
    }
    return out;
  }

  /** Expands the run packet whose tag is at `i`. */
  method ExpandRun(src: seq<Byte>, i: nat, dst: array<Byte>, out: nat) returns (ok: bool, count: nat)
    requires i < |src| && out < dst.Length && src[i] >= 0x80
    modifies dst
    ensures !ok ==> Expand(src[i..], old(dst[..out]), dst.Length) == None
    ensures ok ==>
              && count > 0 && i + 2 <= |src| && out + count <= dst.Length
              && Expand(src[i..], old(dst[..out]), dst.Length) == Expand(src[i + 2..], dst[..out + count], dst.Length)
              && dst[out + count..] == old(dst[out + count..])
  {
    hide Expand;
    count := src[i] - 0x80 + 1;
    ok := i + 1 < |src| && out + count <= dst.Length;
    if ok {
      ExpandStep(src[i..], dst[..out], dst.Length);
      assert src[i..][2..] == src[i + 2..];
      PutRun(src[i + 1], count, dst, out);
    } else {
      ExpandFails(src[i..], dst[..out], dst.Length);
    }
  }

  /** Expands the literal packet whose tag is at `i`. */
  method ExpandLiteral(src: seq<Byte>, i: nat, dst: array<Byte>, out: nat) returns (ok: bool, count: nat)
    requires i < |src| && out < dst.Length && src[i] < 0x80
    modifies dst
    ensures !ok ==> Expand(src[i..], old(dst[..out]), dst.Length) == None
    ensures ok ==>
              && count > 0 && i + 1 + count <= |src| && out + count <= dst.Length
              && Expand(src[i..], old(dst[..out]), dst.Length)
                == Expand(src[i + 1 + count..], dst[..out + count], dst.Length)
              && dst[out + count..] == old(dst[out + count..])
  {
    hide Expand;
    count := src[i] + 1;
    ok := i + 1 + count <= |src| && out + count <= dst.Length;
    if ok {
      ExpandStep(src[i..], dst[..out], dst.Length);
      assert src[i..][1 + count..] == src[i + 1 + count..];
      assert src[i..][1..1 + count] == src[i + 1..i + 1 + count];
      PutBytes(src, i + 1, count, dst, out);
    } else {
      ExpandFails(src[i..], dst[..out], dst.Length);
    }
  }

  /** Expands one packet at `i`, `len` bytes long, to `count` bytes at `out`. */
  method ExpandPacket(src: seq<Byte>, i: nat, dst: array<Byte>, out: nat) returns (ok: bool, len: nat, count: nat)
    requires i < |src| && out < dst.Length
    modifies dst
    ensures !ok ==> Expand(src[i..], old(dst[..out]), dst.Length) == None
    ensures ok ==>
              && len > 0 && count > 0 && i + len <= |src| && out + count <= dst.Length
              && Expand(src[i..], old(dst[..out]), dst.Length) == Expand(src[i + len..], dst[..out + count], dst.Length)
              && dst[out + count..] == old(dst[out + count..])
  {
    hide Expand;
    if src[i] >= 0x80 {
      ok, count := ExpandRun(src, i, dst, out);
      len := 2;
    } else {
      ok, count := ExpandLiteral(src, i, dst, out);
      len := 1 + count;
    }
  }

  /** Decompresses `src` into a buffer: the length, or 0 on truncated input or overflow. */
  method RleDecompress(src: seq<Byte>, dst: array<Byte>) returns (n: nat)
    modifies dst
    ensures match Expand(src, [], dst.Length)
            case Some(o) => n == |o| <= dst.Length && dst[..n] == o && dst[n..] == old(dst[n..])
            case None => n == 0
  {
    assert src[0..] == src && dst[..0] == [];
    hide Expand;
    var i: nat, out: nat := 0, 0;
    while i < |src| && out < dst.Length
      invariant i <= |src| && out <= dst.Length
      invariant Expand(src[i..], dst[..out], dst.Length) == Expand(src, [], dst.Length)
      invariant dst[out..] == old(dst[out..])
    {
      var ok, len, count := ExpandPacket(src, i, dst, out);
      if !ok {
        return 0;
      }
      i, out := i + len, out + count;
    }
    ExpandDone(src[i..], dst[..out], dst.Length);
    return out;
  }

  /** The host tool's compressor: its buffer is always large enough, so it never fails. */
  method HostCompress(src: seq<Byte>) returns (r: seq<Byte>)
    ensures r == Compress(src, 0)
    ensures Expand(r, [], |src|) == Some(src)
  {
    var dst := new Byte[|src| + |src| / 128 + 2](_ => 0);
    SizeBound(src, 0);
    RoundTrip(src, |src|);
    var n := RleCompress(src, dst);
    return dst[..n];
  }
}
