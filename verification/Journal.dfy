/**
 * The OnyxFS redo journal. A journal entry is one block: type, target block number, and the first
 * 4088 bytes of the contents to replay.
 */
module JournalSpec {
  import opened Base
  import opened Disks

  const DATA_SIZE := BLOCK_SIZE - 8

  /** Where the journal lies on the device. */
  datatype Area = Area(start: nat, size: nat) {
    predicate Holds(b: nat) {
      start <= b < start + size
    }
  }

  predicate OnDevice(a: Area, d: Disk) {
    0 < a.start && 0 < a.size && a.start + a.size <= |d|
  }

  function Kind(e: Block): nat {
    Le32(e[0..4])
  }

  function Target(e: Block): nat {
    Le32(e[4..8])
  }

  /** A block with its first 4088 bytes taken from a journal entry and its tail kept. */
  function Redone(e: Block, b: Block): Block {
    e[8..] + b[DATA_SIZE..]
  }

  /** The first commit marker from `i` on that no unknown entry precedes. */
  function Scan(a: Area, d: Disk, i: nat): (c: Option<nat>)
    requires OnDevice(a, d) && i <= a.size
    ensures c.Some? ==> i <= c.value < a.size
    decreases a.size - i
  {
    if i == a.size then None
    else
      var kind := Kind(d[a.start + i]);
      if kind == 2 then Some(i) else if kind <= 1 then Scan(a, d, i + 1) else None
  }

  /** Up to the marker every entry is known, and the marker is one. */
  lemma {:induction false} ScanFound(a: Area, d: Disk, i: nat)
    requires OnDevice(a, d) && i <= a.size && Scan(a, d, i).Some?
    ensures var c := Scan(a, d, i).value;
            Kind(d[a.start + c]) == 2 && forall j: nat | a.start + i <= j < a.start + c :: Kind(d[j]) <= 1
    decreases a.size - i
  {
    hide Kind;
    if Kind(d[a.start + i]) <= 1 {
      ScanFound(a, d, i + 1);
    }
  }

  /** Every block write logged before `n` goes to a block of the device outside the journal. */
  predicate TargetsOk(a: Area, d: Disk, n: nat)
    requires OnDevice(a, d) && n <= a.size
  {
    forall j: nat | a.start <= j < a.start + n && Kind(d[j]) == 1 :: Target(d[j]) < |d| && !a.Holds(Target(d[j]))
  }

  lemma PrefixTargets(a: Area, d: Disk, n: nat)
    requires OnDevice(a, d) && n <= a.size && TargetsOk(a, d, n)
    ensures forall m: nat | m <= n :: TargetsOk(a, d, m)
  {
  }

  /** The device after the first `n` journal entries have been replayed. */
  function Replayed(a: Area, d: Disk, n: nat): (r: Disk)
    requires OnDevice(a, d) && n <= a.size && TargetsOk(a, d, n)
    ensures |r| == |d|
  {
    if n == 0 then d
    else
      var r, e := Replayed(a, d, n - 1), d[a.start + n - 1];
      if Kind(e) == 1 then r[Target(e) := Redone(e, r[Target(e)])] else r
  }

  /** The device after the first `n` journal blocks have been cleared. */
  function Cleared(a: Area, d: Disk, n: nat): (r: Disk)
    requires OnDevice(a, d) && n <= a.size
    ensures |r| == |d|
    ensures forall b: nat | b < |d| ::
              r[b] == if a.start <= b < a.start + n then ZeroBlock() else d[b]
  {
    if n == 0 then d else Cleared(a, d, n - 1)[a.start + n - 1 := ZeroBlock()]
  }

  /** A journal that recovery can work with: redo targets are sound if there is a commit. */
  predicate Replayable(a: Area, d: Disk) {
    OnDevice(a, d) && match Scan(a, d, 0) { case Some(c) => TargetsOk(a, d, c) case None => true }
  }

  /** The device after a whole recovery. */
  function Recovered(a: Area, d: Disk): (r: Disk)
    requires Replayable(a, d)
    ensures |r| == |d|
  {
    match Scan(a, d, 0)
    case Some(c) => Cleared(a, Replayed(a, d, c), c + 1)
    case None => d
  }

  /** A device that a power loss during recovery can leave behind: some writes done, in order. */
  predicate CrashState(a: Area, d: Disk, d': Disk)
    requires Replayable(a, d)
  {
    match Scan(a, d, 0)
    case None => d' == d
    case Some(c) =>
      || (exists n: nat :: n <= c && d' == Replayed(a, d, n))
      || (exists n: nat :: n <= c + 1 && d' == Cleared(a, Replayed(a, d, c), n))
  }

  // ----- what a recovery leaves in each block

  /** The last of the first `n` entries that is a write to block `b`. */
  function LastLogged(a: Area, d: Disk, n: nat, b: nat): (j: Option<nat>)
    requires OnDevice(a, d) && n <= a.size
    ensures j.Some? ==> j.value < n
  {
    if n == 0 then None
    else
      var e := d[a.start + n - 1];
      if Kind(e) == 1 && Target(e) == b then Some(n - 1) else LastLogged(a, d, n - 1, b)
  }

  lemma RedoneTwice(e: Block, e': Block, b: Block)
    ensures Redone(e, Redone(e', b)) == Redone(e, b)
  {
    assert (e'[8..] + b[DATA_SIZE..])[DATA_SIZE..] == b[DATA_SIZE..];
  }

  /** Replaying gives each block the bytes logged last for it, over its old tail. */
  lemma {:induction false} ReplayedBlock(a: Area, d: Disk, n: nat, b: nat)
    requires OnDevice(a, d) && n <= a.size && TargetsOk(a, d, n) && b < |d|
    ensures Replayed(a, d, n)[b]
            == match LastLogged(a, d, n, b) { case Some(j) => Redone(d[a.start + j], d[b]) case None => d[b] }
    ensures a.Holds(b) ==> Replayed(a, d, n)[b] == d[b]
  {
    hide Kind, Target, Redone;
    if n > 0 {
      ReplayedBlock(a, d, n - 1, b);
      var e := d[a.start + n - 1];
      match LastLogged(a, d, n - 1, b)
      case Some(j) => RedoneTwice(e, d[a.start + j], d[b]);
      case None =>
    }
  }

  /** What a recovery leaves outside the journal. */
  function Settled(a: Area, d: Disk, b: nat): Block
    requires OnDevice(a, d) && b < |d|
  {
    match Scan(a, d, 0)
    case None => d[b]
    case Some(c) =>
      match LastLogged(a, d, c, b)
      case Some(j) => Redone(d[a.start + j], d[b])
      case None => d[b]
  }

  lemma RecoveredBlock(a: Area, d: Disk, b: nat)
    requires Replayable(a, d) && b < |d| && !a.Holds(b)
    ensures Recovered(a, d)[b] == Settled(a, d, b)
  {
    hide Kind, Target, Redone;
    match Scan(a, d, 0)
    case Some(c) => ReplayedBlock(a, d, c, b);
    case None =>
  }

  /** Entry `j` is a write to block `b`. */
  predicate Logs(a: Area, d: Disk, j: nat, b: nat)
    requires OnDevice(a, d) && j < a.size
  {
    Kind(d[a.start + j]) == 1 && Target(d[a.start + j]) == b
  }

  /** The first commit marker is entry `c`, and only known entries come before it. */
  predicate MarkerAt(a: Area, d: Disk, c: nat)
    requires OnDevice(a, d)
  {
    c < a.size && Kind(d[a.start + c]) == 2 && forall p: nat | a.start <= p < a.start + c :: Kind(d[p]) <= 1
  }

  lemma {:induction false} MarkerScanned(a: Area, d: Disk, c: nat, i: nat)
    requires OnDevice(a, d) && MarkerAt(a, d, c) && i <= c
    ensures Scan(a, d, i) == Some(c)
    decreases c - i
  {
    hide Kind;
    if i < c {
      MarkerScanned(a, d, c, i + 1);
    }
  }

  lemma {:induction false} LastLoggedIs(a: Area, d: Disk, n: nat, b: nat)
    requires OnDevice(a, d) && n <= a.size
    ensures match LastLogged(a, d, n, b)
            case Some(j) => j < n && Logs(a, d, j, b) && forall k: nat | j < k < n :: !Logs(a, d, k, b)
            case None => forall k: nat | k < n :: !Logs(a, d, k, b)
  {
    hide Kind, Target;
    if n > 0 {
      LastLoggedIs(a, d, n - 1, b);
    }
  }

  lemma LoggedTargets(a: Area, d: Disk, c: nat)
    requires OnDevice(a, d) && c <= a.size
    requires forall j: nat, t: nat | j < c && Logs(a, d, j, t) :: t < |d| && !(a.start <= t < a.start + a.size)
    ensures TargetsOk(a, d, c)
  {
    hide Kind, Target;
    forall j: nat | a.start <= j < a.start + c && Kind(d[j]) == 1
      ensures Target(d[j]) < |d| && !a.Holds(Target(d[j]))
    {
      assert Logs(a, d, j - a.start, Target(d[j]));
    }
  }

  lemma RecoveredLog(a: Area, d: Disk, c: nat, b: nat)
    requires OnDevice(a, d) && Scan(a, d, 0) == Some(c) && TargetsOk(a, d, c) && a.Holds(b)
    ensures Recovered(a, d)[b] == if b <= a.start + c then seq(4096, _ => 0) else d[b]
  {
    hide Kind, Target, Redone, Scan;
    ReplayedBlock(a, d, c, b);
    assert ZeroBlock() == seq(4096, _ => 0);
  }

  lemma ScanMarks(a: Area, d: Disk)
    requires OnDevice(a, d) && Scan(a, d, 0).Some?
    ensures MarkerAt(a, d, Scan(a, d, 0).value)
  {
    hide Kind;
    ScanFound(a, d, 0);
  }

  /** A log without a marker that only known entries precede changes nothing. */
  lemma NoMarker(a: Area, d: Disk)
    requires OnDevice(a, d) && forall c: nat | c < a.size :: !MarkerAt(a, d, c)
    ensures Replayable(a, d) && Recovered(a, d) == d
  {
    hide Kind, MarkerAt;
    if Scan(a, d, 0).Some? {
      ScanMarks(a, d);
    }
  }

  /**
   * What a recovery leaves in a block, byte by byte: the 4088 bytes of the last entry before the
   * marker that was logged for it, then its own last eight; without such an entry it is unchanged.
   * In the journal, the entries up to and with the marker are zero.
   */
  lemma RecoveredBytes(a: Area, d: Disk, c: nat, b: nat)
    requires OnDevice(a, d) && MarkerAt(a, d, c) && b < |d|
    requires forall j: nat, t: nat | j < c && Logs(a, d, j, t) :: t < |d| && !(a.start <= t < a.start + a.size)
    ensures Replayable(a, d)
    ensures !a.Holds(b) ==>
              forall j: nat, i: nat
                | j < c && Logs(a, d, j, b) && (forall k: nat | j < k < c :: !Logs(a, d, k, b)) && i < 4096 ::
                Recovered(a, d)[b][i] == if i < 4088 then d[a.start + j][8 + i] else d[b][i]
    ensures !a.Holds(b) && (forall k: nat | k < c :: !Logs(a, d, k, b)) ==> Recovered(a, d)[b] == d[b]
    ensures a.Holds(b) ==>
              Recovered(a, d)[b] == if b <= a.start + c then seq(4096, _ => 0) else d[b]
  {
    MarkerScanned(a, d, c, 0);
    LoggedTargets(a, d, c);
    LastLoggedIs(a, d, c, b);
    if a.Holds(b) {
      RecoveredLog(a, d, c, b);
      return;
    }
    RecoveredBlock(a, d, b);
    hide Scan, Recovered, Replayable, Logs, LastLogged;
    forall j: nat, i: nat
      | j < c && Logs(a, d, j, b) && (forall k: nat | j < k < c :: !Logs(a, d, k, b)) && i < 4096
      ensures Recovered(a, d)[b][i] == if i < 4088 then d[a.start + j][8 + i] else d[b][i]
    {
      assert LastLogged(a, d, c, b) == Some(j);
    }
  }

  // ----- power loss during recovery

  /** The journal reads the same from `i` on. */
  lemma {:induction false} ScanSame(a: Area, d: Disk, d': Disk, i: nat)
    requires OnDevice(a, d) && OnDevice(a, d') && i <= a.size
    requires forall b: nat | a.start + i <= b < a.start + a.size :: d'[b] == d[b]
    ensures Scan(a, d', i) == Scan(a, d, i)
    decreases a.size - i
  {
    hide Kind, Target, Redone;
    if i < a.size {
      ScanSame(a, d, d', i + 1);
    }
  }

  /** Entries that are no marker are scanned through. */
  lemma {:induction false} ScanThrough(a: Area, d: Disk, i: nat, j: nat)
    requires OnDevice(a, d) && i <= j <= a.size
    requires forall b: nat | a.start + i <= b < a.start + j :: Kind(d[b]) <= 1
    ensures Scan(a, d, i) == Scan(a, d, j)
    decreases j - i
  {
    hide Kind, Target, Redone;
    if i < j {
      ScanThrough(a, d, i + 1, j);
    }
  }

  lemma ZeroKind()
    ensures Kind(ZeroBlock()) == 0
  {
  }

  /** A single reachable commit marker: nothing is found when the scan goes on after it. */
  predicate SingleCommit(a: Area, d: Disk) {
    && Replayable(a, d)
    && match Scan(a, d, 0) { case Some(c) => Scan(a, d, c + 1) == None case None => true }
  }

  /** Equal journals. */
  predicate SameLog(a: Area, d: Disk, d': Disk) {
    |d'| == |d| && OnDevice(a, d) && forall b: nat | a.start <= b < a.start + a.size :: d'[b] == d[b]
  }

  lemma SameLogScan(a: Area, d: Disk, d': Disk)
    requires SameLog(a, d, d') && SingleCommit(a, d)
    ensures SingleCommit(a, d') && Scan(a, d', 0) == Scan(a, d, 0)
  {
    hide Kind, Target;
    ScanSame(a, d, d', 0);
    match Scan(a, d, 0)
    case Some(c) => ScanSame(a, d, d', c + 1);
    case None =>
  }

  lemma ReplayedLog(a: Area, d: Disk, n: nat)
    requires OnDevice(a, d) && n <= a.size && TargetsOk(a, d, n)
    ensures SameLog(a, d, Replayed(a, d, n))
  {
    var d' := Replayed(a, d, n);
    forall b: nat | a.start <= b < a.start + a.size
      ensures d'[b] == d[b]
    {
      ReplayedBlock(a, d, n, b);
    }
  }

  lemma {:induction false} LastLoggedSame(a: Area, d: Disk, d': Disk, n: nat, b: nat)
    requires OnDevice(a, d) && OnDevice(a, d') && n <= a.size
    requires forall k: nat | a.start <= k < a.start + n :: d'[k] == d[k]
    ensures LastLogged(a, d', n, b) == LastLogged(a, d, n, b)
  {
    hide Kind, Target, Redone;
    if n > 0 {
      LastLoggedSame(a, d, d', n - 1, b);
    }
  }

  lemma {:induction false} LastLoggedNone(a: Area, d: Disk, n: nat, c: nat, b: nat)
    requires OnDevice(a, d) && n <= c <= a.size && LastLogged(a, d, c, b) == None
    ensures LastLogged(a, d, n, b) == None
  {
    hide Kind, Target, Redone;
    if n < c {
      LastLoggedNone(a, d, n, c - 1, b);
    }
  }

  /** The last logged write survives clearing the entries before it. */
  lemma {:induction false} LastLoggedCleared(a: Area, d: Disk, d': Disk, m: nat, n: nat, b: nat)
    requires OnDevice(a, d) && OnDevice(a, d') && m <= a.size && n <= a.size
    requires forall k: nat | a.start <= k < a.start + n :: d'[k] == if k < a.start + m then ZeroBlock() else d[k]
    ensures LastLogged(a, d', n, b)
            == match LastLogged(a, d, n, b) { case Some(j) => if j < m then None else Some(j) case None => None }
  {
    ZeroKind();
    hide Kind, Target, Redone;
    if n > 0 {
      LastLoggedCleared(a, d, d', m, n - 1, b);
    }
  }

  /** Replaying only the first `n` entries does not change how a block settles. */
  lemma PartlyReplayedSettles(a: Area, d: Disk, c: nat, n: nat, b: nat)
    requires SingleCommit(a, d) && Scan(a, d, 0) == Some(c) && n <= c && b < |d| && !a.Holds(b)
    ensures Settled(a, Replayed(a, d, n), b) == Settled(a, d, b)
  {
    hide Kind, Target, Redone;
    var d' := Replayed(a, d, n);
    ReplayedLog(a, d, n);
    SameLogScan(a, d, d');
    hide SingleCommit, TargetsOk, Scan, LastLogged, Replayed;
    LastLoggedSame(a, d, d', c, b);
    ReplayedBlock(a, d, n, b);
    match LastLogged(a, d, c, b)
    case None => LastLoggedNone(a, d, n, c, b);
    case Some(j) =>
      match LastLogged(a, d, n, b)
      case None =>
      case Some(k) => RedoneTwice(d[a.start + j], d[a.start + k], d[b]);
  }

  /** Once replayed, the entry that settles a block changes nothing any more. */
  lemma ReplayFixed(a: Area, d: Disk, c: nat, b: nat)
    requires Replayable(a, d) && Scan(a, d, 0) == Some(c) && b < |d| && !a.Holds(b)
    ensures var r := Replayed(a, d, c)[b];
            && r == Settled(a, d, b)
            && match LastLogged(a, d, c, b) { case Some(j) => Redone(d[a.start + j], r) == r case None => true }
  {
    hide Kind, Target, Redone;
    ReplayedBlock(a, d, c, b);
    match LastLogged(a, d, c, b)
    case Some(j) => RedoneTwice(d[a.start + j], d[a.start + j], d[b]);
    case None =>
  }

  lemma ClearedFrom(a: Area, d: Disk, c: nat, n: nat)
    requires OnDevice(a, d) && Scan(a, d, 0) == Some(c) && n <= c + 1
    ensures Scan(a, Cleared(a, d, n), 0) == Scan(a, d, n) && (n <= c ==> Scan(a, d, n) == Some(c))
  {
    var d' := Cleared(a, d, n);
    ZeroKind();
    ScanFound(a, d, 0);
    hide Kind, Target, Cleared, ZeroBlock, Scan;
    ScanSame(a, d, d', n);
    ScanThrough(a, d', 0, n);
    if n <= c {
      ScanThrough(a, d, 0, n);
    }
  }

  lemma ClearedTargets(a: Area, d: Disk, c: nat, n: nat)
    requires OnDevice(a, d) && n <= a.size && c <= a.size && TargetsOk(a, d, c)
    ensures TargetsOk(a, Cleared(a, d, n), c)
  {
    ZeroKind();
    hide Kind, Target, Cleared, ZeroBlock;
  }

  /** After `n` entries of a fully replayed log are cleared, the journal still reads consistently. */
  lemma ClearedScan(a: Area, d: Disk, c: nat, n: nat)
    requires SingleCommit(a, d) && Scan(a, d, 0) == Some(c) && n <= c + 1
    ensures var d' := Cleared(a, d, n);
            Scan(a, d', 0) == (if n <= c then Some(c) else None) && SingleCommit(a, d')
  {
    var d' := Cleared(a, d, n);
    hide Kind, Target, Cleared, Scan, TargetsOk;
    ClearedFrom(a, d, c, n);
    ClearedTargets(a, d, c, n);
    if n <= c {
      ScanSame(a, d, d', c + 1);
    }
  }

  lemma ClearedSettles(a: Area, d: Disk, c: nat, n: nat, b: nat, d': Disk)
    requires OnDevice(a, d) && OnDevice(a, d') && Scan(a, d, 0) == Some(c) && n <= c + 1 && b < |d| == |d'|
    requires Scan(a, d', 0) == if n <= c then Some(c) else None
    requires d'[b] == Settled(a, d, b)
    requires match LastLogged(a, d, c, b) { case Some(j) => Redone(d[a.start + j], d'[b]) == d'[b] case None => true }
    requires forall k: nat | a.start <= k < a.start + c :: d'[k] == if k < a.start + n then ZeroBlock() else d[k]
    ensures Settled(a, d', b) == Settled(a, d, b)
  {
    hide Kind, Target, Redone, Scan, LastLogged, ZeroBlock;
    if n <= c {
      LastLoggedCleared(a, d, d', n, c, b);
    }
  }

  /** Clearing entries that have been replayed does not change how a block settles. */
  lemma PartlyClearedSettles(a: Area, d: Disk, c: nat, n: nat, b: nat)
    requires SingleCommit(a, d) && Scan(a, d, 0) == Some(c) && n <= c + 1 && b < |d| && !a.Holds(b)
    ensures Settled(a, Cleared(a, Replayed(a, d, c), n), b) == Settled(a, d, b)
    ensures SingleCommit(a, Cleared(a, Replayed(a, d, c), n))
  {
    var r := Replayed(a, d, c);
    ReplayedLog(a, d, c);
    hide Kind, Target, Redone, TargetsOk, Replayed, Scan, LastLogged, ZeroBlock, Settled;
    SameLogScan(a, d, r);
    ReplayFixed(a, d, c, b);
    hide SingleCommit;
    ClearedScan(a, r, c, n);
    ClearedSettles(a, d, c, n, b, Cleared(a, r, n));
  }

  /**
   * Power loss after any write of a recovery leaves a journal that recovery can still work with,
   * and every block outside the journal settles as it would have.
   */
  lemma CrashKeepsOutcome(a: Area, d: Disk, d': Disk, b: nat)
    requires SingleCommit(a, d) && CrashState(a, d, d') && b < |d| && !a.Holds(b)
    ensures |d'| == |d| && SingleCommit(a, d') && Settled(a, d', b) == Settled(a, d, b)
  {
    hide Kind, Target, Redone, Settled;
    match Scan(a, d, 0)
    case None =>
    case Some(c) =>
      PrefixTargets(a, d, c);
      if n: nat :| n <= c && d' == Replayed(a, d, n) {
        ReplayedLog(a, d, n);
        SameLogScan(a, d, d');
        PartlyReplayedSettles(a, d, c, n, b);
      } else {
        var n: nat :| n <= c + 1 && d' == Cleared(a, Replayed(a, d, c), n);
        PartlyClearedSettles(a, d, c, n, b);
      }
  }

  /** Devices left by recoveries that were each cut short, one after the other. */
  predicate Interrupted(a: Area, runs: seq<Disk>) {
    && |runs| > 0 && SingleCommit(a, runs[0])
    && forall i: nat | i + 1 < |runs| :: SingleCommit(a, runs[i]) && CrashState(a, runs[i], runs[i + 1])
  }

  /**
   * Recovery is re-entrant: however often it is cut short and started again, a recovery that runs
   * to its end leaves every block outside the journal as one undisturbed recovery would have.
   */
  lemma {:induction false} RecoveryReentrant(a: Area, runs: seq<Disk>, b: nat)
    requires Interrupted(a, runs) && b < |runs[0]| && !a.Holds(b)
    ensures var last := runs[|runs| - 1];
            && |last| == |runs[0]| && SingleCommit(a, last)
            && Recovered(a, last)[b] == Recovered(a, runs[0])[b] == Settled(a, runs[0], b)
    decreases |runs|
  {
    hide SingleCommit, CrashState, Settled, Recovered, Replayable;
    assert forall d | SingleCommit(a, d) :: Replayable(a, d) by {
      forall d | SingleCommit(a, d) ensures Replayable(a, d) { SingleIsReplayable(a, d); }
    }
    RecoveredBlock(a, runs[0], b);
    if |runs| > 1 {
      CrashKeepsOutcome(a, runs[0], runs[1], b);
      RecoveryReentrant(a, runs[1..], b);
    }
  }

  lemma SingleIsReplayable(a: Area, d: Disk)
    requires SingleCommit(a, d)
    ensures Replayable(a, d)
  {
  }

  /** A second mount finds nothing to do exactly when the log held a single reachable marker. */
  lemma SecondRunFindsNothing(a: Area, d: Disk)
    requires Replayable(a, d)
    ensures Scan(a, Recovered(a, d), 0) == None <==> SingleCommit(a, d)
  {
    match Scan(a, d, 0)
    case None =>
    case Some(c) =>
      var r := Replayed(a, d, c);
      ReplayedLog(a, d, c);
      ZeroKind();
      hide Kind, Target, Replayed, ZeroBlock, Cleared, Scan;
      ScanSame(a, r, Cleared(a, r, c + 1), c + 1);
      ScanThrough(a, Cleared(a, r, c + 1), 0, c + 1);
      ScanSame(a, d, r, c + 1);
  }

  /** Recovering twice is recovering once, on the whole device, exactly in that case. */
  lemma RecoveryIdempotentIff(a: Area, d: Disk)
    requires Replayable(a, d) && Replayable(a, Recovered(a, d))
    ensures Recovered(a, Recovered(a, d)) == Recovered(a, d) <==> SingleCommit(a, d)
  {
    var d' := Recovered(a, d);
    SecondRunFindsNothing(a, d);
    match Scan(a, d', 0)
    case None =>
    case Some(c) =>
      ScanFound(a, d', 0);
      ZeroKind();
      hide Kind, Target, Replayed, ZeroBlock, Scan, TargetsOk;
      assert Recovered(a, d')[a.start + c] == ZeroBlock();
  }

  // ----- one transaction

  /** The journal entry for writing `x` to block `b`. */
  function Entry(b: nat, x: Block): (e: Block)
    requires b < 0x1_0000_0000
  {
    ToLe32(1) + ToLe32(b) + x[..DATA_SIZE]
  }

  function Marker(): Block {
    ToLe32(2) + ZeroBytes(BLOCK_SIZE - 4)
  }

  lemma EntryFields(b: nat, x: Block)
    requires b < 0x1_0000_0000
    ensures Kind(Entry(b, x)) == 1 && Target(Entry(b, x)) == b && Redone(Entry(b, x), x) == x
  {
    var e := Entry(b, x);
    Le32RoundTrip(b);
    assert e[0..4] == ToLe32(1);
    assert e[4..8] == ToLe32(b);
    assert e[8..] == x[..DATA_SIZE];
  }

  lemma MarkerKind()
    ensures Kind(Marker()) == 2
  {
    assert Marker()[0..4] == ToLe32(2);
  }

  /** A write of block contents, and where it goes. */
  datatype Op = Op(block: nat, bytes: Block)

  predicate OpsOk(a: Area, d: Disk, ops: seq<Op>) {
    && OnDevice(a, d) && |d| <= 0x1_0000_0000 && |ops| <= a.size
    && forall i: nat | i < |ops| :: ops[i].block < |d| && !a.Holds(ops[i].block)
  }

  /** The device after the first `n` operations were logged and then written home. */
  function After(a: Area, d: Disk, ops: seq<Op>, n: nat): (r: Disk)
    requires OpsOk(a, d, ops) && n <= |ops|
    ensures |r| == |d|
    decreases n, 0
  {
    if n == 0 then d else LoggedNext(a, d, ops, n - 1)[ops[n - 1].block := ops[n - 1].bytes]
  }

  /** The device after `n` operations, with the next one logged but not yet written home. */
  function LoggedNext(a: Area, d: Disk, ops: seq<Op>, n: nat): (r: Disk)
    requires OpsOk(a, d, ops) && n < |ops|
    ensures |r| == |d|
    decreases n, 1
  {
    After(a, d, ops, n)[a.start + n := Entry(ops[n].block, ops[n].bytes)]
  }

  /** The device after the whole transaction and its commit; a full log gets no marker. */
  function Committed(a: Area, d: Disk, ops: seq<Op>): Disk
    requires OpsOk(a, d, ops)
  {
    var r := After(a, d, ops, |ops|);
    if 0 < |ops| < a.size then r[a.start + |ops| := Marker()] else r
  }

  /** The log is empty: every journal block reads as the start of a transaction. */
  predicate EmptyLog(a: Area, d: Disk)
    requires OnDevice(a, d)
  {
    forall j: nat | a.start <= j < a.start + a.size :: Kind(d[j]) == 0
  }

  /** The first `n` entries of the log are the first `n` operations, the rest is empty. */
  lemma {:induction false} LogAfter(a: Area, d: Disk, ops: seq<Op>, n: nat, j: nat)
    requires OpsOk(a, d, ops) && EmptyLog(a, d) && n <= |ops| && j < a.size
    ensures After(a, d, ops, n)[a.start + j] == if j < n then Entry(ops[j].block, ops[j].bytes) else d[a.start + j]
  {
    hide Entry, Kind;
    if n > 0 {
      LogAfter(a, d, ops, n - 1, j);
    }
  }

  /** The last write logged for a block is what the block holds. */
  lemma {:induction false} LastLoggedIsHome(a: Area, d: Disk, ops: seq<Op>, n: nat, d': Disk, b: nat)
    requires OpsOk(a, d, ops) && EmptyLog(a, d) && n <= |ops| && b < |d| && !a.Holds(b)
    requires OnDevice(a, d') && forall j: nat | j < n :: d'[a.start + j] == Entry(ops[j].block, ops[j].bytes)
    ensures match LastLogged(a, d', n, b)
            case Some(j) => After(a, d, ops, n)[b] == ops[j].bytes && ops[j].block == b
            case None => After(a, d, ops, n)[b] == d[b]
  {
    hide Entry, Kind, Target;
    if n > 0 {
      LastLoggedIsHome(a, d, ops, n - 1, d', b);
      EntryFields(ops[n - 1].block, ops[n - 1].bytes);
    }
  }

  /** A device on which a transaction from an empty log was cut off: before, at or after commit. */
  ghost predicate CutOff(a: Area, d: Disk, ops: seq<Op>, d': Disk)
    requires OpsOk(a, d, ops)
  {
    || (exists n: nat :: n <= |ops| && d' == After(a, d, ops, n))
    || (exists n: nat :: n < |ops| && d' == LoggedNext(a, d, ops, n))
    || d' == Committed(a, d, ops)
  }

  lemma UncommittedIgnored(a: Area, d: Disk, ops: seq<Op>, n: nat, logged: bool)
    requires OpsOk(a, d, ops) && EmptyLog(a, d) && n <= |ops| && (logged ==> n < |ops|)
    ensures var d' := if logged then LoggedNext(a, d, ops, n) else After(a, d, ops, n);
            Replayable(a, d') && Recovered(a, d') == d'
  {
    var d' := if logged then LoggedNext(a, d, ops, n) else After(a, d, ops, n);
    hide Kind, Replayable, Recovered, EmptyLog;
    forall j: nat | a.start <= j < a.start + a.size
      ensures Kind(d'[j]) <= 1
    {
      UncommittedKind(a, d, ops, n, j - a.start);
    }
    NoMarker(a, d');
  }

  lemma UncommittedKind(a: Area, d: Disk, ops: seq<Op>, n: nat, j: nat)
    requires OpsOk(a, d, ops) && EmptyLog(a, d) && n <= |ops| && j < a.size
    ensures Kind(After(a, d, ops, n)[a.start + j]) <= 1
    ensures n < |ops| ==> Kind(LoggedNext(a, d, ops, n)[a.start + j]) <= 1
  {
    hide Kind, Target, Entry;
    LogAfter(a, d, ops, n, j);
    if j < |ops| {
      EntryFields(ops[j].block, ops[j].bytes);
    }
  }

  lemma CommittedLog(a: Area, d: Disk, ops: seq<Op>)
    requires OpsOk(a, d, ops) && EmptyLog(a, d) && 0 < |ops| < a.size
    ensures var d' := Committed(a, d, ops);
            && Scan(a, d', 0) == Some(|ops|) && Replayable(a, d')
            && forall j: nat | j < |ops| :: d'[a.start + j] == Entry(ops[j].block, ops[j].bytes)
  {
    var d' := Committed(a, d, ops);
    hide Kind, Target, Entry, Marker;
    forall j: nat | j < |ops|
      ensures d'[a.start + j] == Entry(ops[j].block, ops[j].bytes)
      ensures Kind(d'[a.start + j]) == 1 && Target(d'[a.start + j]) == ops[j].block
    {
      LogAfter(a, d, ops, |ops|, j);
      EntryFields(ops[j].block, ops[j].bytes);
    }
    forall b: nat | a.start <= b < a.start + |ops|
      ensures Kind(d'[b]) == 1 && Target(d'[b]) == ops[b - a.start].block
    {
      var j := b - a.start;
      assert Target(d'[a.start + j]) == ops[j].block;
    }
    MarkerKind();
    ScanThrough(a, d', 0, |ops|);
  }

  /** A committed log replays what the blocks already hold. */
  lemma CommittedReplaysNothingNew(a: Area, d: Disk, ops: seq<Op>, b: nat)
    requires OpsOk(a, d, ops) && EmptyLog(a, d) && 0 < |ops| < a.size && b < |d| && !a.Holds(b)
    ensures Replayable(a, Committed(a, d, ops))
    ensures Recovered(a, Committed(a, d, ops))[b] == Committed(a, d, ops)[b]
  {
    var d' := Committed(a, d, ops);
    CommittedLog(a, d, ops);
    RecoveredBlock(a, d', b);
    hide Kind, Target, Entry, Marker, Redone, Scan, Recovered;
    LastLoggedIsHome(a, d, ops, |ops|, d', b);
    match LastLogged(a, d', |ops|, b)
    case Some(j) => EntryFields(ops[j].block, ops[j].bytes);
    case None =>
  }

  /**
   * One transaction on an empty log, cut off at any of its steps: recovery changes no block outside
   * the journal. An uncommitted log is ignored; a committed one holds what is already in place.
   */
  lemma TransactionCrashSafe(a: Area, d: Disk, ops: seq<Op>, d': Disk, b: nat)
    requires OpsOk(a, d, ops) && EmptyLog(a, d) && CutOff(a, d, ops, d') && b < |d| && !a.Holds(b)
    ensures Replayable(a, d') && |d'| == |d| && Recovered(a, d')[b] == d'[b]
  {
    hide Kind, Target, Entry, Marker, Redone, Scan, Recovered, Replayable, EmptyLog;
    if n: nat :| n <= |ops| && d' == After(a, d, ops, n) {
      UncommittedIgnored(a, d, ops, n, false);
    } else if n: nat :| n < |ops| && d' == LoggedNext(a, d, ops, n) {
      UncommittedIgnored(a, d, ops, n, true);
    } else {
      CommittedReplaysNothingNew(a, d, ops, b);
    }
  }

  // ----- a transaction in progress, whatever its operations

  /** The log holds no commit marker and no unknown entry. */
  predicate Unmarked(a: Area, d: Disk) {
    OnDevice(a, d) && forall j: nat | a.start <= j < a.start + a.size :: Kind(d[j]) <= 1
  }

  /** The block holds what the first `n` entries logged last for it, if they did. */
  predicate MirrorsAt(a: Area, d: Disk, n: nat, b: nat)
    requires OnDevice(a, d) && n <= a.size && b < |d|
  {
    match LastLogged(a, d, n, b)
    case Some(j) => Redone(d[a.start + j], d[b]) == d[b]
    case None => true
  }

  /** Replaying the first `n` entries would change nothing. */
  predicate Mirrors(a: Area, d: Disk, n: nat) {
    && OnDevice(a, d) && n <= a.size && TargetsOk(a, d, n)
    && forall b: nat | b < |d| && !a.Holds(b) :: MirrorsAt(a, d, n, b)
  }

  lemma UnmarkedLogged(a: Area, d: Disk, n: nat, b: nat, x: Block)
    requires Unmarked(a, d) && n < a.size && b < 0x1_0000_0000
    ensures Unmarked(a, d[a.start + n := Entry(b, x)])
  {
    EntryFields(b, x);
    hide Kind, Entry;
  }

  /** Logging a block and writing it home keeps the log a mirror of the blocks. */
  lemma MirrorsLogged(a: Area, d: Disk, d': Disk, n: nat, b: nat, x: Block)
    requires Mirrors(a, d, n) && n < a.size && b < |d| && b < 0x1_0000_0000 && !a.Holds(b)
    requires d' == d[a.start + n := Entry(b, x)][b := x]
    ensures Mirrors(a, d', n + 1)
  {
    EntryFields(b, x);
    hide Kind, Target, Entry, Redone;
    forall c: nat | c < |d'| && !a.Holds(c)
      ensures MirrorsAt(a, d', n + 1, c)
    {
      assert MirrorsAt(a, d, n, c);
      LastLoggedSame(a, d, d', n, c);
    }
  }

  /** A marker behind a log that mirrors the blocks: recovery changes no block outside the journal. */
  lemma MarkedRecovers(a: Area, d: Disk, n: nat, d': Disk)
    requires Unmarked(a, d) && Mirrors(a, d, n) && n < a.size && d' == d[a.start + n := Marker()]
    ensures Replayable(a, d') && forall b: nat | b < |d| && !a.Holds(b) :: Recovered(a, d')[b] == d[b]
  {
    MarkerKind();
    hide Kind, Target, Entry, Redone, Marker, Recovered;
    ScanThrough(a, d', 0, n);
    forall b: nat | b < |d| && !a.Holds(b)
      ensures Recovered(a, d')[b] == d[b]
    {
      assert MirrorsAt(a, d, n, b);
      LastLoggedSame(a, d, d', n, b);
      RecoveredBlock(a, d', b);
    }
  }

  // ----- why the single marker matters

  function Newer(): Block {
    [1] + ZeroBytes(BLOCK_SIZE - 1)
  }

  /**
   * Two committed transactions on a zeroed device with a journal of four blocks: three writes of
   * zeros to block 5, then one write of newer bytes to it. The second log is the shorter one.
   */
  function TwoTransactions(): Disk {
    var a := Area(1, 4);
    var d := [ZeroBlock(), ZeroBlock(), ZeroBlock(), ZeroBlock(), ZeroBlock(), ZeroBlock()];
    var zero := Op(5, ZeroBlock());
    Committed(a, Committed(a, d, [zero, zero, zero]), [Op(5, Newer())])
  }

  lemma TwoTransactionsDisk()
    ensures TwoTransactions() == [ZeroBlock(), Entry(5, Newer()), Marker(), Entry(5, ZeroBlock()), Marker(), Newer()]
  {
    hide Marker, ZeroBlock, Newer, Entry;
    var a := Area(1, 4);
    var d := [ZeroBlock(), ZeroBlock(), ZeroBlock(), ZeroBlock(), ZeroBlock(), ZeroBlock()];
    var zero := Op(5, ZeroBlock());
    var e := Entry(5, ZeroBlock());
    var ops := [zero, zero, zero];
    assert After(a, d, ops, 1) == [ZeroBlock(), e, ZeroBlock(), ZeroBlock(), ZeroBlock(), ZeroBlock()];
    assert After(a, d, ops, 2) == [ZeroBlock(), e, e, ZeroBlock(), ZeroBlock(), ZeroBlock()];
    assert After(a, d, ops, 3) == [ZeroBlock(), e, e, e, ZeroBlock(), ZeroBlock()];
    var d1 := Committed(a, d, ops);
    assert d1 == [ZeroBlock(), e, e, e, Marker(), ZeroBlock()];
    assert After(a, d1, [Op(5, Newer())], 1) == [ZeroBlock(), Entry(5, Newer()), e, e, Marker(), Newer()];
  }

  /** Its recovery stops at the first of its two markers. */
  lemma FirstRecovery(d: Disk)
    requires d == [ZeroBlock(), Entry(5, Newer()), Marker(), Entry(5, ZeroBlock()), Marker(), Newer()]
    ensures var a := Area(1, 4);
            && Replayable(a, d) && !SingleCommit(a, d)
            && Recovered(a, d) == [ZeroBlock(), ZeroBlock(), ZeroBlock(), Entry(5, ZeroBlock()), Marker(), Newer()]
  {
    var a := Area(1, 4);
    MarkerKind();
    EntryFields(5, ZeroBlock());
    EntryFields(5, Newer());
    hide Kind, Target, Marker, ZeroBlock, Newer, Entry, Redone;
    assert Scan(a, d, 1) == Some(1) && Scan(a, d, 0) == Some(1);
    assert Scan(a, d, 3) == Some(3) && Scan(a, d, 2) == Some(3);
    var r := Replayed(a, d, 1);
    assert r == d[5 := Redone(d[1], d[5])] == d by {
      assert Replayed(a, d, 0) == d;
    }
    assert Recovered(a, d) == Cleared(a, r, 2);
    assert Recovered(a, d) == [d[0], ZeroBlock(), ZeroBlock(), d[3], d[4], Newer()];
  }

  /** The next one finds the other marker. */
  lemma SecondRecovery(d: Disk)
    requires d == [ZeroBlock(), ZeroBlock(), ZeroBlock(), Entry(5, ZeroBlock()), Marker(), Newer()]
    ensures var a := Area(1, 4);
            Replayable(a, d) && Recovered(a, d)[5] == ZeroBlock()
  {
    var a := Area(1, 4);
    MarkerKind();
    ZeroKind();
    EntryFields(5, ZeroBlock());
    RedoneZero(d[3]);
    hide Kind, Target, Marker, ZeroBlock, Newer, Entry, Redone;
    assert Scan(a, d, 3) == Some(3) && Scan(a, d, 2) == Some(3);
    assert Scan(a, d, 1) == Some(3) && Scan(a, d, 0) == Some(3);
    assert LastLogged(a, d, 3, 5) == Some(2);
    RecoveredBlock(a, d, 5);
  }

  /**
   * The first recovery of that device keeps the newer bytes; a second one, at the next mount, finds
   * the marker the first transaction left behind and takes block 5 back to zeros.
   */
  lemma StaleMarkerReverts()
    ensures var a, d := Area(1, 4), TwoTransactions();
            && |d| == 6 && Replayable(a, d) && !SingleCommit(a, d) && Recovered(a, d)[5] == Newer()
            && Replayable(a, Recovered(a, d)) && Recovered(a, Recovered(a, d))[5] == ZeroBlock() != Newer()
  {
    assert ZeroBlock()[0] == 0 && Newer()[0] == 1;
    hide Marker, ZeroBlock, Newer, Entry, TwoTransactions, Replayable, SingleCommit, Recovered;
    TwoTransactionsDisk();
    FirstRecovery(TwoTransactions());
    SecondRecovery(Recovered(Area(1, 4), TwoTransactions()));
  }

  /** Both blocks end in zeros, so replaying zeros over the newer one gives zeros. */
  lemma RedoneZero(e: Block)
    requires e == Entry(5, ZeroBlock())
    ensures Redone(e, Newer()) == ZeroBlock()
  {
    EntryFields(5, ZeroBlock());
    assert Newer()[DATA_SIZE..] == ZeroBlock()[DATA_SIZE..];
  }
}

/** The journal driver: logging, committing and recovering on a device. */
module Journal {
  import opened Base
  import opened Disks
  import opened JournalSpec

  class Journal {
    const area: Area
    var disk: Disk
    /** Next free journal slot. */
    var head: nat
    /** The device after each block write, in order. */
    ghost var trace: seq<Disk>

    constructor (area: Area, disk: Disk)
      ensures this.area == area && this.disk == disk && head == 0 && trace == []
    {
      this.area, this.disk, this.head, this.trace := area, disk, 0, [];
    }

    /** No journal is configured, or it lies on the device. */
    ghost predicate Valid()
      reads this
    {
      (Configured() ==> OnDevice(area, disk) && head <= area.size) && |disk| <= 0x1_0000_0000
    }

    predicate Configured() {
      area.start != 0 && area.size != 0
    }

    /** One atomic block write; blocks off the device are refused. */
    method WriteBlock(b: nat, x: Block) returns (ok: bool)
      modifies this`disk, this`trace
      ensures ok == (b < old(|disk|))
      ensures ok ==> disk == old(disk)[b := x] && trace == old(trace) + [disk]
      ensures !ok ==> disk == old(disk) && trace == old(trace)
    {
      ok := b < |disk|;
      if ok {
        disk := disk[b := x];
        trace := trace + [disk];
      }
    }

    /** Appends a redo entry with the new contents of a block. */
    method JournalLog(b: nat, x: Block) returns (r: Result<()>)
      requires Valid() && b < 0x1_0000_0000
      modifies this
      ensures Valid()
      ensures !Configured() ==> r.Ok? && disk == old(disk) && head == old(head) && trace == old(trace)
      ensures Configured() ==> (r.Ok? <==> old(head) < area.size) && (r.Err? ==> r.error == NoSpace)
      ensures r.Err? ==> disk == old(disk) && head == old(head) && trace == old(trace)
      ensures Configured() && r.Ok? ==>
                && disk == old(disk)[area.start + old(head) := Entry(b, x)]
                && head == old(head) + 1 && trace == old(trace) + [disk]
    {
      hide Entry;
      if !Configured() {
        return Ok(());
      }
      if head >= area.size {
        return Err(NoSpace);
      }
      var _ := WriteBlock(area.start + head, Entry(b, x));
      head := head + 1;
      return Ok(());
    }

    /** Ends a transaction with a marker, if there is room for one, and rewinds the log. */
    method JournalCommit()
      requires Valid()
      modifies this
      ensures Valid() && (Configured() ==> head == 0)
      ensures if Configured() && 0 < old(head) < area.size
              then disk == old(disk)[area.start + old(head) := Marker()] && trace == old(trace) + [disk]
              else disk == old(disk) && trace == old(trace)
    {
      hide Marker;
      if !Configured() || head == 0 {
        return;
      }
      if head < area.size {
        var _ := WriteBlock(area.start + head, Marker());
      }
      head := 0;
    }

    /**
     * A transaction: each write is logged, then done, and all are committed. With more writes than
     * journal blocks it stops when the log is full.
     */
    method Transaction(ops: seq<Op>) returns (r: Result<()>)
      requires Valid() && Configured() && head == 0
      requires forall i: nat | i < |ops| :: ops[i].block < |disk| && !area.Holds(ops[i].block)
      modifies this
      ensures Valid()
      ensures |ops| <= area.size ==>
                r.Ok? && head == 0 && OpsOk(area, old(disk), ops) && disk == Committed(area, old(disk), ops)
      ensures |ops| > area.size ==> r == Err(NoSpace)
      ensures var done := if |ops| <= area.size then ops else ops[..area.size];
              && OpsOk(area, old(disk), done) && old(trace) <= trace
              && forall k: nat | |old(trace)| <= k < |trace| :: CutOff(area, old(disk), done, trace[k])
    {
      hide Entry, Marker;
      ghost var done := if |ops| <= area.size then ops else ops[..area.size];
      ghost var d := disk;
      var i := 0;
      while i < |ops|
        invariant i <= |done| <= |ops| && head == i && Valid() && OpsOk(area, d, done)
        invariant disk == After(area, d, done, i)
        invariant old(trace) <= trace
        invariant forall k: nat | |old(trace)| <= k < |trace| :: CutOff(area, d, done, trace[k])
      {
        var logged := JournalLog(ops[i].block, ops[i].bytes);
        if logged.Err? {
          return logged;
        }
        assert disk == LoggedNext(area, d, done, i);
        var _ := WriteBlock(ops[i].block, ops[i].bytes);
        assert disk == After(area, d, done, i + 1);
        i := i + 1;
      }
      JournalCommit();
      return Ok(());
    }

    /** Reads the journal up to the first marker. */
    method FindCommit() returns (c: Option<nat>)
      requires Valid() && Configured()
      ensures c == Scan(area, disk, 0)
    {
      hide Kind;
      var i := 0;
      while i < area.size
        invariant i <= area.size && Scan(area, disk, i) == Scan(area, disk, 0)
      {
        var kind := Kind(disk[area.start + i]);
        if kind == 2 {
          return Some(i);
        }
        if kind > 1 {
          return None;
        }
        i := i + 1;
      }
      return None;
    }

    /**
     * Replays the entries before the marker. It fails only on a target off the device. A target
     * that cannot be read is replayed over zeros.
     */
    method Replay(c: nat) returns (ok: bool)
      requires Valid() && Configured() && Scan(area, disk, 0) == Some(c)
      modifies this`disk, this`trace
      ensures Valid() && |disk| == old(|disk|) && old(trace) <= trace
      ensures old(Replayable(area, disk)) ==> ok && disk == Replayed(area, old(disk), c)
      ensures old(Replayable(area, disk)) ==>
                forall k: nat | |old(trace)| <= k < |trace| :: CrashState(area, old(disk), trace[k])
    {
      ghost var d, good := disk, Replayable(area, disk);
      if good {
        PrefixTargets(area, d, c);
      }
      hide Kind, Target, Redone, Scan;
      var j := 0;
      while j < c
        invariant j <= c && Valid() && |disk| == |d| && old(trace) <= trace
        invariant good ==> disk == Replayed(area, d, j)
        invariant good ==> forall k: nat | |old(trace)| <= k < |trace| :: CrashState(area, d, trace[k])
      {
        if good {
          ReplayedLog(area, d, j);
        }
        var e := disk[area.start + j];
        if Kind(e) == 1 {
          var b := Target(e);
          ok := WriteBlock(b, Redone(e, if b < |disk| then disk[b] else ZeroBlock()));
          if !ok {
            return;
          }
          assert good ==> disk == Replayed(area, d, j + 1);
        }
        j := j + 1;
      }
      ok := true;
    }

    /** Clears the entries up to and with the marker. */
    method Clear(c: nat, ghost d: Disk)
      requires Valid() && Configured() && c < area.size
      modifies this`disk, this`trace
      ensures Valid() && disk == Cleared(area, old(disk), c + 1) && old(trace) <= trace
      ensures Replayable(area, d) && Scan(area, d, 0) == Some(c) && old(disk) == Replayed(area, d, c) ==>
                forall k: nat | |old(trace)| <= k < |trace| :: CrashState(area, d, trace[k])
    {
      hide Kind, Target, Redone, Scan, Replayed, ZeroBlock;
      ghost var r := disk;
      ghost var good := Replayable(area, d) && Scan(area, d, 0) == Some(c) && r == Replayed(area, d, c);
      var j := 0;
      while j <= c
        invariant j <= c + 1 && Valid() && |disk| == |r| && disk == Cleared(area, r, j)
        invariant old(trace) <= trace
        invariant good ==> forall k: nat | |old(trace)| <= k < |trace| :: CrashState(area, d, trace[k])
      {
        var _ := WriteBlock(area.start + j, ZeroBlock());
        assert disk == Cleared(area, r, j + 1);
        j := j + 1;
      }
    }

    /**
     * Crash recovery at mount: the device ends as `Recovered` says, and after every single write on
     * the way it is in a state from which recovery can start again. It fails only on a log with a
     * redo target off the device or inside the journal.
     */
    method JournalRecover() returns (r: Result<()>)
      requires Valid()
      modifies this
      ensures Valid() && old(trace) <= trace
      ensures !Configured() ==> r.Ok? && disk == old(disk) && head == old(head) && trace == old(trace)
      ensures r.Err? ==> r.error == Io && Configured() && !old(Replayable(area, disk))
      ensures Configured() && old(Replayable(area, disk)) ==>
                && head == 0 && disk == Recovered(area, old(disk))
                && forall k: nat | |old(trace)| <= k < |trace| :: CrashState(area, old(disk), trace[k])
    {
      if !Configured() {
        return Ok(());
      }
      var c := FindCommit();
      hide Scan, Replayed, Cleared, CrashState;
      if c.Some? {
        ghost var d := disk;
        var ok := Replay(c.value);
        if !ok {
          return Err(Io);
        }
        Clear(c.value, d);
      }
      head := 0;
      return Ok(());
    }
  }
}
