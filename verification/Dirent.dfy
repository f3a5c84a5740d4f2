/** An OnyxFS directory block: 102 slots of 40 bytes that stand for a finite map from names to inodes. */
module Directories {
  import opened Base
  import opened Disks

  const SLOTS := 102
  const SLOT_SIZE := 40
  const NAME_MAX := 32

  type Name = seq<Byte>

  /** What may name a file: one to 32 bytes, none of them NUL. */
  predicate IsName(n: Name) {
    1 <= |n| <= NAME_MAX && forall k: nat | k < |n| :: n[k] != 0
  }

  function Inode(b: Block, i: nat): nat
    requires i < SLOTS
  {
    Le32At(b, SLOT_SIZE * i + 32)
  }

  function NameByte(b: Block, i: nat, k: nat): Byte
    requires i < SLOTS && k < NAME_MAX
  {
    b[SLOT_SIZE * i + k]
  }

  function NameLen(b: Block, i: nat): Byte
    requires i < SLOTS
  {
    b[SLOT_SIZE * i + 37]
  }

  predicate Live(b: Block, i: nat) {
    i < SLOTS && Inode(b, i) != 0
  }

  /** The name in slot `i`, by its length byte. */
  function NameAt(b: Block, i: nat): (n: Name)
    requires i < SLOTS
  {
    b[SLOT_SIZE * i..SLOT_SIZE * i + if NameLen(b, i) <= NAME_MAX then NameLen(b, i) else NAME_MAX]
  }

  /** A slot in order: the length byte and the padding agree, and the name is one. */
  predicate SlotOk(b: Block, i: nat)
    requires i < SLOTS
  {
    && 1 <= NameLen(b, i) <= NAME_MAX
    && forall k: nat | k < NAME_MAX :: NameByte(b, i, k) != 0 <==> k < NameLen(b, i)
  }

  /** Live slots are in order and no name is live twice. */
  ghost predicate DirOk(b: Block) {
    && (forall i: nat | Live(b, i) :: SlotOk(b, i))
    && (forall i: nat, j: nat | Live(b, i) && Live(b, j) && i != j :: NameAt(b, i) != NameAt(b, j))
  }

  /** The map that the first `n` slots of a directory block stand for. */
  ghost function EntriesTo(b: Block, n: nat): map<Name, nat>
    requires n <= SLOTS
  {
    if n == 0 then map[]
    else if Live(b, n - 1) then EntriesTo(b, n - 1)[NameAt(b, n - 1) := Inode(b, n - 1)]
    else EntriesTo(b, n - 1)
  }

  ghost function Entries(b: Block): map<Name, nat> {
    EntriesTo(b, SLOTS)
  }

  /** Every live slot is an entry. */
  lemma {:induction false} EntryIn(b: Block, n: nat, i: nat)
    requires DirOk(b) && i < n <= SLOTS && Live(b, i)
    ensures NameAt(b, i) in EntriesTo(b, n) && EntriesTo(b, n)[NameAt(b, i)] == Inode(b, i)
  {
    if i < n - 1 {
      EntryIn(b, n - 1, i);
    }
  }

  /** Every entry is a live slot. */
  lemma {:induction false} FindEntry(b: Block, n: nat, name: Name) returns (i: nat)
    requires n <= SLOTS && name in EntriesTo(b, n)
    ensures i < n && Live(b, i) && NameAt(b, i) == name
  {
    if Live(b, n - 1) && NameAt(b, n - 1) == name {
      i := n - 1;
    } else {
      i := FindEntry(b, n - 1, name);
    }
  }

  lemma EntryOf(b: Block, i: nat)
    requires DirOk(b) && Live(b, i)
    ensures SlotOk(b, i) && IsName(NameAt(b, i)) && NameAt(b, i) in Entries(b)
            && Entries(b)[NameAt(b, i)] == Inode(b, i)
  {
    EntryIn(b, SLOTS, i);
    assert SlotOk(b, i);
    forall k: nat | k < |NameAt(b, i)|
      ensures NameAt(b, i)[k] != 0
    {
      assert NameAt(b, i)[k] == NameByte(b, i, k);
    }
  }

  lemma NoEntry(b: Block, name: Name)
    requires forall i: nat | Live(b, i) :: NameAt(b, i) != name
    ensures name !in Entries(b)
  {
    if name in Entries(b) {
      var i := FindEntry(b, SLOTS, name);
    }
  }

  lemma FreshKey(m: map<Name, nat>, name: Name, ino: nat)
    requires name !in m
    ensures |m[name := ino]| == |m| + 1
  {
    assert m[name := ino].Keys == m.Keys + {name};
    assert |m.Keys + {name}| == |m.Keys| + 1;
  }

  lemma NotBefore(b: Block, n: nat)
    requires DirOk(b) && n < SLOTS && Live(b, n)
    ensures NameAt(b, n) !in EntriesTo(b, n)
  {
    hide NameAt, EntriesTo, SlotOk, Inode;
    if NameAt(b, n) in EntriesTo(b, n) {
      var i := FindEntry(b, n, NameAt(b, n));
    }
  }

  /** Names being unique, the map is as large as there are live slots; it is full with 102 entries. */
  lemma {:induction false} EntryCount(b: Block, n: nat)
    requires DirOk(b) && n <= SLOTS
    ensures |EntriesTo(b, n)| <= n
    ensures |EntriesTo(b, n)| == n <==> forall i: nat | i < n :: Live(b, i)
  {
    hide NameAt, SlotOk, Inode, DirOk;
    if n > 0 {
      EntryCount(b, n - 1);
      if Live(b, n - 1) {
        NotBefore(b, n - 1);
        FreshKey(EntriesTo(b, n - 1), NameAt(b, n - 1), Inode(b, n - 1));
      }
    }
  }

  /** A zeroed block is the empty directory. */
  lemma EmptyDirectory(b: Block)
    requires forall k: nat | k < BLOCK_SIZE :: b[k] == 0
    ensures DirOk(b) && Entries(b) == map[]
  {
    forall i: nat | i < SLOTS
      ensures !Live(b, i)
    {
      assert b[SLOT_SIZE * i + 32..SLOT_SIZE * i + 36] == [0, 0, 0, 0];
    }
    NoEntries(b, SLOTS);
  }

  lemma {:induction false} NoEntries(b: Block, n: nat)
    requires n <= SLOTS && forall i: nat | i < n :: !Live(b, i)
    ensures EntriesTo(b, n) == map[]
  {
    if n > 0 {
      NoEntries(b, n - 1);
    }
  }

  // ----- changing one slot

  /** Only bytes of slot `i` differ. */
  ghost predicate OnlySlot(b: Block, b': Block, i: nat) {
    forall k: nat | k < BLOCK_SIZE && (k < SLOT_SIZE * i || k >= SLOT_SIZE * i + SLOT_SIZE) :: b'[k] == b[k]
  }

  /** One slot is written, and holds the inode in bytes 32 to 35 and the type in byte 36. */
  ghost predicate SlotWritten(b: Block, b': Block, i: nat, ino: nat, dtype: Byte) {
    i < 102 && OnlySlot(b, b', i) && Le32At(b', 40 * i + 32) == ino && b'[40 * i + 36] == dtype
  }

  lemma SlotKept(b: Block, b': Block, i: nat, j: nat)
    requires OnlySlot(b, b', i) && i < SLOTS && j < SLOTS && j != i
    ensures Inode(b', j) == Inode(b, j) && NameLen(b', j) == NameLen(b, j)
    ensures forall k: nat | k < NAME_MAX :: NameByte(b', j, k) == NameByte(b, j, k)
    ensures NameAt(b', j) == NameAt(b, j)
  {
    var o := SLOT_SIZE * j;
    assert b'[o + 32..o + 36] == b[o + 32..o + 36];
    assert NameLen(b', j) == NameLen(b, j);
    assert b'[o..o + 32] == b[o..o + 32];
    var n := if NameLen(b, j) <= NAME_MAX then NameLen(b, j) else NAME_MAX;
    assert b'[o..o + n] == b'[o..o + 32][..n] && b[o..o + n] == b[o..o + 32][..n];
  }

  lemma OthersKept(b: Block, b': Block, i: nat)
    requires DirOk(b) && OnlySlot(b, b', i) && i < SLOTS
    ensures forall j: nat | j < SLOTS && j != i && Live(b', j) ::
            Live(b, j) && SlotOk(b', j) && NameAt(b', j) == NameAt(b, j)
    ensures forall j: nat | j < SLOTS && j != i && Live(b, j) ::
            Live(b', j) && Inode(b', j) == Inode(b, j) && NameAt(b', j) == NameAt(b, j)
  {
    forall j: nat | j < SLOTS && j != i
      ensures Live(b', j) <==> Live(b, j)
      ensures Live(b, j) ==> SlotOk(b', j) && NameAt(b', j) == NameAt(b, j) && Inode(b', j) == Inode(b, j)
    {
      SlotKept(b, b', i, j);
      if Live(b, j) {
        assert SlotOk(b, j);
      }
    }
  }

  /** Slot `i` now holds `name`, which no other slot does: the map is updated there. */
  lemma EntryPut(b: Block, b': Block, i: nat, name: Name, ino: nat)
    requires DirOk(b) && OnlySlot(b, b', i) && Live(b', i) && SlotOk(b', i) && NameAt(b', i) == name
             && Inode(b', i) == ino
    requires forall j: nat | Live(b, j) && j != i :: NameAt(b, j) != name
    requires Live(b, i) ==> NameAt(b, i) == name
    ensures DirOk(b') && Entries(b') == Entries(b)[name := ino]
  {
    OthersKept(b, b', i);
    hide NameAt, Inode, SlotOk, OnlySlot, EntriesTo;
    assert DirOk(b');
    forall n | n in Entries(b')
      ensures n in Entries(b)[name := ino] && Entries(b')[n] == Entries(b)[name := ino][n]
    {
      var j := FindEntry(b', SLOTS, n);
      EntryOf(b', j);
      if j != i {
        EntryOf(b, j);
      }
    }
    forall n | n in Entries(b)[name := ino]
      ensures n in Entries(b')
    {
      if n == name {
        EntryOf(b', i);
      } else {
        var j := FindEntry(b, SLOTS, n);
        EntryOf(b', j);
      }
    }
  }

  /** Slot `i` held `name` and is now free: the map loses it. */
  lemma EntryDropped(b: Block, b': Block, i: nat, name: Name)
    requires DirOk(b) && OnlySlot(b, b', i) && Live(b, i) && NameAt(b, i) == name && !Live(b', i)
    ensures DirOk(b') && Entries(b') == Entries(b) - {name}
  {
    OthersKept(b, b', i);
    hide NameAt, Inode, SlotOk, OnlySlot, EntriesTo;
    assert DirOk(b');
    forall n | n in Entries(b')
      ensures n in Entries(b) && n != name && Entries(b')[n] == Entries(b)[n]
    {
      var j := FindEntry(b', SLOTS, n);
      EntryOf(b', j);
      EntryOf(b, j);
    }
    forall n | n in Entries(b) && n != name
      ensures n in Entries(b')
    {
      var j := FindEntry(b, SLOTS, n);
      EntryOf(b', j);
    }
  }

  // ----- matching and filling slots

  /** How `add_dirent` and `remove_dirent` compare: byte by byte, then a NUL or the end of the field. */
  predicate Matches(b: Block, i: nat, name: Name)
    requires i < SLOTS
  {
    && |name| <= NAME_MAX && (forall k: nat | k < |name| :: NameByte(b, i, k) == name[k])
    && (|name| == NAME_MAX || NameByte(b, i, |name|) == 0)
  }

  /** A byte string without the NULs at its end: the name it is compared as. */
  function Stripped(name: Name): (n: Name)
    ensures |n| <= |name| && n == name[..|n|] && (n == [] || n[|n| - 1] != 0)
    ensures forall k: nat | |n| <= k < |name| :: name[k] == 0
  {
    if name != [] && name[|name| - 1] == 0 then Stripped(name[..|name| - 1]) else name
  }

  /** The part of a byte string that fits a slot. */
  function Cut(name: Name): (n: Name)
    ensures n <= name && (n == name || |n| == NAME_MAX) && |n| <= NAME_MAX
  {
    if |name| <= NAME_MAX then name else name[..NAME_MAX]
  }

  lemma ProperName(name: Name)
    requires IsName(name)
    ensures Stripped(name) == Cut(name) == name
  {
  }

  /** In a slot in order, that is comparing names, up to NULs at the end. */
  lemma MatchIff(b: Block, i: nat, name: Name)
    requires i < SLOTS && SlotOk(b, i)
    ensures Matches(b, i, name) <==> |name| <= NAME_MAX && NameAt(b, i) == Stripped(name)
  {
    var n, s := NameAt(b, i), Stripped(name);
    assert forall k: nat | k < |n| :: n[k] == NameByte(b, i, k);
    assert s == name[..|s|];
    hide Stripped;
    if Matches(b, i, name) {
      assert s != [] ==> NameByte(b, i, |s| - 1) == name[|s| - 1] == s[|s| - 1];
      assert |s| < |name| ==> NameByte(b, i, |s|) == name[|s|] == 0;
      assert |s| == |n|;
      assert forall k: nat | k < |n| :: n[k] == s[k];
    }
    if |name| <= NAME_MAX && n == s {
      forall k: nat | k < |name|
        ensures NameByte(b, i, k) == name[k]
      {
        assert k < |s| ==> name[k] == s[k] == n[k];
      }
    }
  }

  /** A slot with another inode and type. */
  function Retargeted(b: Block, i: nat, ino: nat, dtype: Byte): Block
    requires i < SLOTS && ino < 0x1_0000_0000
  {
    PutLe32(b, SLOT_SIZE * i + 32, ino)[SLOT_SIZE * i + 36 := dtype]
  }

  lemma RetargetedOk(b: Block, i: nat, ino: nat, dtype: Byte)
    requires i < SLOTS && ino < 0x1_0000_0000
    ensures var b' := Retargeted(b, i, ino, dtype);
            && OnlySlot(b, b', i) && Inode(b', i) == ino && NameAt(b', i) == NameAt(b, i)
            && SlotWritten(b, b', i, ino, dtype) && (SlotOk(b, i) ==> SlotOk(b', i))
  {
    var o, p := SLOT_SIZE * i, PutLe32(b, SLOT_SIZE * i + 32, ino);
    var b' := Retargeted(b, i, ino, dtype);
    PutGet(b, o + 32, ino, o + 32);
    assert b'[o + 32..o + 36] == p[o + 32..o + 36];
    assert b'[o..o + 32] == b[o..o + 32];
    var n := if NameLen(b, i) <= NAME_MAX then NameLen(b, i) else NAME_MAX;
    assert b'[o..o + n] == b'[o..o + 32][..n] && b[o..o + n] == b[o..o + 32][..n];
    forall k: nat | k < NAME_MAX
      ensures NameByte(b', i, k) == NameByte(b, i, k)
    {
    }
  }

  function Padded(name: Name): (r: seq<Byte>)
    requires |name| <= NAME_MAX
    ensures |r| == NAME_MAX
  {
    name + ZeroBytes(NAME_MAX - |name|)
  }

  /** A slot filled anew. */
  function Filled(b: Block, i: nat, name: Name, ino: nat, dtype: Byte): Block
    requires i < SLOTS && ino < 0x1_0000_0000 && |name| <= NAME_MAX
  {
    var o := SLOT_SIZE * i;
    Retargeted(b[..o] + Padded(name) + b[o + 32..], i, ino, dtype)[o + 37 := |name|]
  }

  lemma FilledOk(b: Block, i: nat, name: Name, ino: nat, dtype: Byte)
    requires i < SLOTS && ino < 0x1_0000_0000 && |name| <= NAME_MAX
    ensures var b' := Filled(b, i, name, ino, dtype);
            && OnlySlot(b, b', i) && Inode(b', i) == ino && (SlotOk(b', i) <==> IsName(name)) && NameAt(b', i) == name
            && SlotWritten(b, b', i, ino, dtype)
  {
    var o := SLOT_SIZE * i;
    var p: Block := b[..o] + Padded(name) + b[o + 32..];
    var r := Retargeted(p, i, ino, dtype);
    var b' := Filled(b, i, name, ino, dtype);
    RetargetedOk(p, i, ino, dtype);
    assert b'[o + 32..o + 36] == r[o + 32..o + 36];
    forall k: nat | k < NAME_MAX
      ensures NameByte(b', i, k) == Padded(name)[k]
    {
    }
    assert b'[o..o + |name|] == name;
    if SlotOk(b', i) {
      assert forall k: nat | k < |name| :: name[k] == NameByte(b', i, k);
    }
  }

  /** Removing an entry only zeroes its inode. */
  lemma ClearedOk(b: Block, i: nat)
    requires i < SLOTS
    ensures var b' := PutLe32(b, SLOT_SIZE * i + 32, 0); OnlySlot(b, b', i) && !Live(b', i)
  {
    PutGet(b, SLOT_SIZE * i + 32, 0, SLOT_SIZE * i + 32);
  }

  // ----- the operations

  /** Compares a name with the one in a slot. */
  method MatchName(buf: array<Byte>, i: nat, name: Name) returns (m: bool)
    requires buf.Length == BLOCK_SIZE && i < SLOTS
    ensures m == Matches(buf[..], i, name)
  {
    var off, n := SLOT_SIZE * i, 0;
    while n < |name| && n < NAME_MAX && buf[off + n] == name[n]
      invariant n <= |name| && n <= NAME_MAX && forall k: nat | k < n :: buf[off + k] == name[k]
    {
      n := n + 1;
    }
    m := n == |name| && (n >= NAME_MAX || buf[off + n] == 0);
    if n < |name| && n < NAME_MAX {
      assert NameByte(buf[..], i, n) != name[n];
    }
  }

  method PutInode(buf: array<Byte>, off: nat, ino: nat)
    requires buf.Length == BLOCK_SIZE && off + 4 <= BLOCK_SIZE && ino < 0x1_0000_0000
    modifies buf
    ensures buf[..] == PutLe32(old(buf[..]), off, ino)
  {
    var bytes := ToLe32(ino);
    buf[off], buf[off + 1], buf[off + 2], buf[off + 3] := bytes[0], bytes[1], bytes[2], bytes[3];
    assert buf[..] == old(buf[..off]) + bytes + old(buf[off + 4..]);
  }

  method PutName(buf: array<Byte>, off: nat, name: Name)
    requires buf.Length == BLOCK_SIZE && off + NAME_MAX <= BLOCK_SIZE && |name| <= NAME_MAX
    modifies buf
    ensures buf[..] == old(buf[..off]) + Padded(name) + old(buf[off + NAME_MAX..])
  {
    ghost var b := buf[..];
    var field := Padded(name);
    var j := 0;
    while j < NAME_MAX
      invariant j <= NAME_MAX && buf[..] == b[..off] + field[..j] + b[off + j..]
    {
      buf[off + j] := field[j];
      assert buf[..] == b[..off] + field[..j + 1] + b[off + j + 1..];
      j := j + 1;
    }
    assert field[..NAME_MAX] == field;
  }

  /** The live slot with a name, if there is one. */
  method FindName(buf: array<Byte>, name: Name) returns (r: Option<nat>)
    requires buf.Length == BLOCK_SIZE && DirOk(buf[..])
    ensures r.Some? ==> Live(buf[..], r.value) && |name| <= NAME_MAX && NameAt(buf[..], r.value) == Stripped(name)
    ensures r.None? ==> |name| > NAME_MAX || forall i: nat | Live(buf[..], i) :: NameAt(buf[..], i) != Stripped(name)
  {
    ghost var b := buf[..];
    var i := 0;
    while i < SLOTS
      invariant i <= SLOTS && forall j: nat | j < i && Live(b, j) :: |name| > NAME_MAX || NameAt(b, j) != Stripped(name)
    {
      hide Matches, NameAt, SlotOk;
      var existing := Le32(buf[SLOT_SIZE * i + 32..SLOT_SIZE * i + 36]);
      assert buf[SLOT_SIZE * i + 32..SLOT_SIZE * i + 36] == b[SLOT_SIZE * i + 32..SLOT_SIZE * i + 36];
      if existing != 0 {
        assert Live(b, i);
        MatchIff(b, i, name);
        var m := MatchName(buf, i, name);
        if m {
          return Some(i);
        }
      }
      i := i + 1;
    }
    return None;
  }

  /** The first slot that is not live. */
  method FindFree(buf: array<Byte>) returns (r: Option<nat>)
    requires buf.Length == BLOCK_SIZE
    ensures r.Some? ==> r.value < SLOTS && !Live(buf[..], r.value)
    ensures r.None? ==> forall i: nat | i < SLOTS :: Live(buf[..], i)
  {
    ghost var b := buf[..];
    var i := 0;
    while i < SLOTS
      invariant i <= SLOTS && forall j: nat | j < i :: Live(b, j)
    {
      var existing := Le32(buf[SLOT_SIZE * i + 32..SLOT_SIZE * i + 36]);
      assert buf[SLOT_SIZE * i + 32..SLOT_SIZE * i + 36] == b[SLOT_SIZE * i + 32..SLOT_SIZE * i + 36];
      if existing == 0 {
        return Some(i);
      }
      i := i + 1;
    }
    return None;
  }

  /** A byte string that is compared as a name in the map. */
  predicate Names(m: map<Name, nat>, name: Name) {
    |name| <= NAME_MAX && Stripped(name) in m
  }

  /** Adding keeps a directory in order: the string is there, or nothing goes live, or it is a new name. */
  predicate AddSafe(m: map<Name, nat>, name: Name, ino: nat) {
    Names(m, name) || ino == 0 || (IsName(Cut(name)) && Cut(name) !in m)
  }

  /** The map after adding: inode 0 takes the entry away. */
  function Added(m: map<Name, nat>, name: Name, ino: nat): map<Name, nat> {
    if Names(m, name) then (if ino == 0 then m - {Stripped(name)} else m[Stripped(name) := ino])
    else if ino == 0 then m else m[Cut(name) := ino]
  }

  lemma ProperAdd(m: map<Name, nat>, name: Name, ino: nat)
    requires IsName(name) && ino > 0
    ensures AddSafe(m, name, ino) && Added(m, name, ino) == m[name := ino] && (Names(m, name) <==> name in m)
  {
    ProperName(name);
  }

  /** The slot that an addition fills. */
  lemma FillEntry(b: Block, b': Block, i: nat, name: Name, ino: nat)
    requires DirOk(b) && i < SLOTS && !Live(b, i) && !Names(Entries(b), name)
    requires OnlySlot(b, b', i) && Inode(b', i) == ino && (SlotOk(b', i) <==> IsName(Cut(name)))
             && NameAt(b', i) == Cut(name)
    ensures DirOk(b') <==> AddSafe(Entries(b), name, ino)
    ensures DirOk(b') ==> Entries(b') == Added(Entries(b), name, ino)
  {
    hide NameAt, Inode, SlotOk, OnlySlot, EntriesTo, Stripped;
    var n := Cut(name);
    if ino == 0 {
      DeadSlot(b, b', i);
    } else if !IsName(n) {
      assert Live(b', i) && !SlotOk(b', i);
    } else if n in Entries(b) {
      var j := FindEntry(b, SLOTS, n);
      OthersKept(b, b', i);
      assert Live(b', i) && Live(b', j) && i != j;
    } else {
      forall j: nat | Live(b, j)
        ensures NameAt(b, j) != n
      {
        EntryOf(b, j);
      }
      EntryPut(b, b', i, n, ino);
    }
  }

  /** A change to a free slot that stays free. */
  lemma DeadSlot(b: Block, b': Block, i: nat)
    requires DirOk(b) && OnlySlot(b, b', i) && i < SLOTS && !Live(b, i) && !Live(b', i)
    ensures DirOk(b') && Entries(b') == Entries(b)
  {
    OthersKept(b, b', i);
    hide NameAt, Inode, SlotOk, OnlySlot, EntriesTo;
    assert DirOk(b');
    forall n | n in Entries(b')
      ensures n in Entries(b) && Entries(b')[n] == Entries(b)[n]
    {
      var j := FindEntry(b', SLOTS, n);
      EntryOf(b', j);
      EntryOf(b, j);
    }
    forall n | n in Entries(b)
      ensures n in Entries(b')
    {
      var j := FindEntry(b, SLOTS, n);
      EntryOf(b', j);
    }
  }

  /** The slot that an addition retargets. */
  lemma RetargetEntry(b: Block, b': Block, i: nat, name: Name, ino: nat)
    requires DirOk(b) && Live(b, i) && |name| <= NAME_MAX && NameAt(b, i) == Stripped(name)
    requires OnlySlot(b, b', i) && Inode(b', i) == ino && NameAt(b', i) == NameAt(b, i)
             && (SlotOk(b, i) ==> SlotOk(b', i))
    ensures Names(Entries(b), name) && DirOk(b') && Entries(b') == Added(Entries(b), name, ino)
  {
    EntryOf(b, i);
    hide NameAt, Inode, SlotOk, OnlySlot, EntriesTo, Stripped;
    if ino == 0 {
      EntryDropped(b, b', i, Stripped(name));
    } else {
      EntryPut(b, b', i, Stripped(name), ino);
    }
  }

  lemma NotNamed(b: Block, name: Name)
    requires |name| > NAME_MAX || forall i: nat | Live(b, i) :: NameAt(b, i) != Stripped(name)
    ensures !Names(Entries(b), name)
  {
    if |name| <= NAME_MAX {
      NoEntry(b, Stripped(name));
    }
  }

  /**
   * Adds or retargets an entry, for any byte string and inode. It fails exactly when all 102 slots
   * are live and none has the name; the directory stays in order exactly when the addition is safe,
   * and then the map is updated.
   */
  method AddDirent(buf: array<Byte>, name: Name, ino: nat, dtype: Byte) returns (r: Result<()>)
    requires buf.Length == BLOCK_SIZE && DirOk(buf[..]) && ino < 0x1_0000_0000
    modifies buf
    ensures r.Err? <==> |Entries(old(buf[..]))| == SLOTS && !Names(Entries(old(buf[..])), name)
    ensures r.Ok? ==> (DirOk(buf[..]) <==> AddSafe(Entries(old(buf[..])), name, ino))
    ensures r.Ok? && DirOk(buf[..]) ==> Entries(buf[..]) == Added(Entries(old(buf[..])), name, ino)
    ensures r.Ok? ==> exists i: nat :: SlotWritten(old(buf[..]), buf[..], i, ino, dtype)
    ensures r.Err? ==> r.error == NoSpace && buf[..] == old(buf[..])
  {
    ghost var b: Block := buf[..];
    EntryCount(b, SLOTS);
    hide EntriesTo, NameAt, SlotOk, PutLe32, Retargeted, Filled, DirOk, Stripped, Added, SlotWritten;
    var found := FindName(buf, name);
    if found.Some? {
      RetargetedOk(b, found.value, ino, dtype);
      Retarget(buf, found.value, ino, dtype);
      RetargetEntry(b, buf[..], found.value, name, ino);
      return Ok(());
    }
    assert buf[..] == b;
    NotNamed(b, name);
    var free := FindFree(buf);
    assert free.None? <==> |Entries(b)| == SLOTS;
    if free.None? {
      return Err(NoSpace);
    }
    FilledOk(b, free.value, Cut(name), ino, dtype);
    Fill(buf, free.value, Cut(name), ino, dtype);
    FillEntry(b, buf[..], free.value, name, ino);
    return Ok(());
  }

  method Retarget(buf: array<Byte>, i: nat, ino: nat, dtype: Byte)
    requires buf.Length == BLOCK_SIZE && i < SLOTS && ino < 0x1_0000_0000
    modifies buf
    ensures buf[..] == Retargeted(old(buf[..]), i, ino, dtype)
  {
    PutInode(buf, SLOT_SIZE * i + 32, ino);
    buf[SLOT_SIZE * i + 36] := dtype;
  }

  method Fill(buf: array<Byte>, i: nat, name: Name, ino: nat, dtype: Byte)
    requires buf.Length == BLOCK_SIZE && i < SLOTS && ino < 0x1_0000_0000 && |name| <= NAME_MAX
    modifies buf
    ensures buf[..] == Filled(old(buf[..]), i, name, ino, dtype)
  {
    ghost var b := buf[..];
    PutName(buf, SLOT_SIZE * i, name);
    assert buf[..] == b[..SLOT_SIZE * i] + Padded(name) + b[SLOT_SIZE * i + 32..];
    Retarget(buf, i, ino, dtype);
    buf[SLOT_SIZE * i + 37] := |name|;
  }

  /** Removes an entry, for any byte string: map removal, which fails exactly when there is none. */
  method RemoveDirent(buf: array<Byte>, name: Name) returns (r: Result<()>)
    requires buf.Length == BLOCK_SIZE && DirOk(buf[..])
    modifies buf
    ensures DirOk(buf[..])
    ensures r.Ok? <==> Names(Entries(old(buf[..])), name)
    ensures r.Ok? ==> Entries(buf[..]) == Entries(old(buf[..])) - {Stripped(name)}
    ensures r.Err? ==> r.error == NoEnt && buf[..] == old(buf[..])
  {
    ghost var b: Block := buf[..];
    hide EntriesTo, NameAt, SlotOk, PutLe32, Stripped;
    var found := FindName(buf, name);
    if found.None? {
      NotNamed(b, name);
      return Err(NoEnt);
    }
    EntryOf(b, found.value);
    ClearedOk(b, found.value);
    PutInode(buf, SLOT_SIZE * found.value + 32, 0);
    EntryDropped(b, buf[..], found.value, Stripped(name));
    return Ok(());
  }

  /** The length of the name in a slot: its length byte, or up to the first NUL when that is no length. */
  method ParseLen(b: Block, i: nat) returns (n: nat)
    requires i < SLOTS
    ensures n <= NAME_MAX && (SlotOk(b, i) ==> n == NameLen(b, i))
  {
    n := b[SLOT_SIZE * i + 37];
    if n == 0 || n > NAME_MAX {
      n := 0;
      while n < NAME_MAX && b[SLOT_SIZE * i + n] != 0
        invariant n <= NAME_MAX
      {
        n := n + 1;
      }
    }
  }

  /** Looks a name up: map lookup, for any byte string. */
  method LookupIn(b: Block, name: Name) returns (r: Result<nat>)
    requires DirOk(b)
    ensures r == if name in Entries(b) then Ok(Entries(b)[name]) else Err(NoEnt)
  {
    var i := 0;
    while i < SLOTS
      invariant i <= SLOTS && forall j: nat | j < i && Live(b, j) :: NameAt(b, j) != name
    {
      var ino := Le32(b[SLOT_SIZE * i + 32..SLOT_SIZE * i + 36]);
      if ino != 0 {
        assert Live(b, i);
        assert SlotOk(b, i);
        EntryOf(b, i);
        var nl := ParseLen(b, i);
        hide EntriesTo, SlotOk;
        if nl == |name| && b[SLOT_SIZE * i..SLOT_SIZE * i + nl] == name {
          return Ok(ino);
        }
      }
      i := i + 1;
    }
    NoEntry(b, name);
    return Err(NoEnt);
  }

  // ----- runs

  datatype Change = Add(name: Name, ino: nat, dtype: Byte) | Remove(name: Name)

  predicate ChangeOk(c: Change) {
    IsName(c.name) && (c.Add? ==> 0 < c.ino < 0x1_0000_0000)
  }

  /** A change to the map; adding to a full one does nothing. */
  function Changed(m: map<Name, nat>, c: Change): map<Name, nat> {
    match c
    case Add(name, ino, _) => if name in m || |m| < SLOTS then m[name := ino] else m
    case Remove(name) => m - {name}
  }

  ghost function ChangedAll(m: map<Name, nat>, cs: seq<Change>): map<Name, nat> {
    if cs == [] then m else Changed(ChangedAll(m, cs[..|cs| - 1]), cs[|cs| - 1])
  }

  /** One change does to the block what it does to the map. */
  method ApplyChange(buf: array<Byte>, c: Change)
    requires buf.Length == BLOCK_SIZE && DirOk(buf[..]) && ChangeOk(c)
    modifies buf
    ensures DirOk(buf[..]) && Entries(buf[..]) == Changed(Entries(old(buf[..])), c)
  {
    ghost var before := Entries(buf[..]);
    EntryCount(buf[..], SLOTS);
    ProperName(c.name);
    hide EntriesTo, DirOk, Stripped;
    match c
    case Add(name, ino, dtype) =>
      ProperAdd(before, name, ino);
      var r := AddDirent(buf, name, ino, dtype);
    case Remove(name) =>
      var r := RemoveDirent(buf, name);
      assert r.Err? ==> before - {name} == before;
  }

  /** And so does any run of changes. */
  method RunChanges(buf: array<Byte>, cs: seq<Change>)
    requires buf.Length == BLOCK_SIZE && DirOk(buf[..]) && forall k: nat | k < |cs| :: ChangeOk(cs[k])
    modifies buf
    ensures DirOk(buf[..]) && Entries(buf[..]) == ChangedAll(Entries(old(buf[..])), cs)
  {
    ghost var m := Entries(buf[..]);
    hide Entries, DirOk, Changed;
    for k := 0 to |cs|
      invariant DirOk(buf[..]) && Entries(buf[..]) == ChangedAll(m, cs[..k])
    {
      assert cs[..k + 1][..k] == cs[..k];
      ApplyChange(buf, cs[k]);
    }
    assert cs[..|cs|] == cs;
  }
}
