/** Ring buffers: a window onto a growing sequence, kept in a fixed number of cells. */
module Ring {
  import opened Base

  const WORD := 0x1_0000_0000    // counters are 32 bits wide

  /** The cells hold the part of `all` from `lo` on, each byte in the cell of its index. */
  ghost predicate Window(cells: seq<Byte>, all: seq<Byte>, lo: nat) {
    && lo <= |all| <= lo + |cells|
    && forall i: nat | lo <= i < |all| :: InCell(cells, all, i)
  }

  ghost predicate InCell(cells: seq<Byte>, all: seq<Byte>, i: nat) {
    |cells| > 0 && i < |all| && cells[i % |cells|] == all[i]
  }

  lemma Multiple(n: nat, k: int)
    ensures k >= 1 ==> n * k >= n
    ensures k <= 0 ==> n * k <= 0
  {
  }

  /** Indices closer than the number of cells have different cells. */
  lemma CellsDiffer(i: nat, j: nat, n: nat)
    requires i < j < i + n
    ensures i % n != j % n
  {
    var a, b, r, r' := i / n, j / n, i % n, j % n;
    assert i == n * a + r && j == n * b + r';
    assert n * b - n * a == n * (b - a);
    Multiple(n, b - a);
  }

  /** Putting a byte into the next cell grows the window, as long as it is not full. */
  lemma WindowPut(cells: seq<Byte>, all: seq<Byte>, lo: nat, x: Byte)
    requires Window(cells, all, lo) && |all| < lo + |cells|
    ensures Window(cells[|all| % |cells| := x], all + [x], lo)
  {
    var cells', all' := cells[|all| % |cells| := x], all + [x];
    forall i: nat | lo <= i < |all'|
      ensures InCell(cells', all', i)
    {
      if i < |all| {
        assert InCell(cells, all, i);
        CellsDiffer(i, |all|, |cells|);
      }
    }
  }

  /** The oldest byte is in the cell of its index, and dropping it shrinks the window. */
  lemma WindowTake(cells: seq<Byte>, all: seq<Byte>, lo: nat)
    requires Window(cells, all, lo) && lo < |all|
    ensures cells[lo % |cells|] == all[lo] && Window(cells, all, lo + 1)
  {
    assert InCell(cells, all, lo);
  }

  /** A counter that wraps still finds the cell, because the number of cells divides 2^32. */
  lemma WrapFindsCell(count: nat)
    ensures (count % WORD) % 4096 == count % 4096
  {
    assert count == WORD * (count / WORD) + count % WORD;
    assert WORD * (count / WORD) == 4096 * (0x10_0000 * (count / WORD));
  }

  /** The wrapped difference of two wrapped counters that are less than 2^32 apart is exact. */
  lemma WrapDifference(tail: nat, head: nat)
    requires head <= tail < head + WORD
    ensures (tail % WORD - head % WORD) % WORD == tail - head
  {
    var a, b := tail / WORD, head / WORD;
    assert tail == WORD * a + tail % WORD && head == WORD * b + head % WORD;
    assert tail - head == WORD * (a - b) + (tail % WORD - head % WORD);
    if a == b {
    } else {
      assert a == b + 1;
    }
  }

  lemma WrapStep(count: nat)
    ensures (count % WORD + 1) % WORD == (count + 1) % WORD
  {
  }

  lemma WrapAdd(count: nat, n: nat)
    ensures (count % WORD + n) % WORD == (count + n) % WORD
  {
    var a := count / WORD;
    assert count + n == WORD * a + (count % WORD + n);
    ModShift(count % WORD + n, a);
  }

  lemma {:induction false} ModShift(x: nat, a: nat)
    ensures (WORD * a + x) % WORD == x % WORD
  {
    if a > 0 {
      ModShift(x, a - 1);
      assert WORD * a + x == (WORD * (a - 1) + x) + WORD;
    }
  }
}
