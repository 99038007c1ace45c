// The fake filesystem of kernel/kernel.c as values: the directory table of
// sixteen FsEntry records, fs_find, and what CREATE, RENAME, DEL and LIST do
// to the table, with the table invariant every command preserves.

module Table {
  import opened CStrings
  import opened Numbers

  const MAX_FILES: nat := 16
  const MAX_NAME: nat := 16

  /** `char name[MAX_NAME]`: the raw bytes of the name field. */
  type NameBuf = s: seq<char> | |s| == MAX_NAME witness seq(MAX_NAME, _ => NUL)

  /** One slot of the directory table. `data` is the address kmalloc
      returned (0 is null), `phys` the physical address it reported. */
  datatype FsEntry = FsEntry(
    name: NameBuf,
    size: uint32,
    allocBytes: uint32,
    data: nat,
    phys: uint32,
    used: bool)

  /** A name field cleared by `memory_set(name, 0, MAX_NAME)`. */
  function ZeroName(): (z: NameBuf)
    ensures forall i :: 0 <= i < MAX_NAME ==> z[i] == NUL
  {
    seq(MAX_NAME, _ => NUL)
  }

  /** A slot as cmd_del leaves it: every field zero. */
  const Vacant: FsEntry := FsEntry(ZeroName(), 0, 0, 0, 0, false)

  /** The outcome a command reports. */
  datatype Status =
    | Ok             // "OK"
    | Usage          // "usage: ..."
    | NameTooLong    // "ERR: name too long"
    | Exists         // "ERR: exists"
    | BadSize        // "ERR: size must be > 0"
    | Full           // "ERR: directory full"
    | KmallocFailed  // "ERR: kmalloc failed"
    | NotFound       // "ERR: not found"

  // ---------------------------------------------------------------------------
  // The table invariant

  /** `g_dir[i].used && strcmp(g_dir[i].name, n) == 0` */
  predicate Named(e: FsEntry, n: Text)
  {
    e.used && Holds(e.name, n)
  }

  /** What CREATE establishes for an entry and RENAME keeps. */
  predicate GoodEntry(e: FsEntry)
  {
    NUL in e.name && 0 < e.size && e.allocBytes == RoundUpPage(e.size) && e.data != 0
  }

  /** Sixteen slots; every used one is well formed; no two used ones share a name. */
  predicate Inv(dir: seq<FsEntry>)
  {
    |dir| == MAX_FILES &&
    (forall i :: 0 <= i < |dir| && dir[i].used ==> GoodEntry(dir[i])) &&
    (forall i, j :: 0 <= i < |dir| && 0 <= j < |dir| && i != j && dir[i].used && dir[j].used ==>
       CStr(dir[i].name) != CStr(dir[j].name))
  }

  // ---------------------------------------------------------------------------
  // kmalloc, abstracted

  /** The kernel allocator as a bump pointer over a pool that ends at `limit`. */
  datatype Heap = Heap(next: nat, limit: nat)

  predicate HeapOk(h: Heap)
  {
    0 < h.next && h.limit <= U32
  }

  /** The addresses in use all lie below the allocator's pointer, and no two
      used entries share one. */
  predicate Owned(dir: seq<FsEntry>, h: Heap)
  {
    HeapOk(h) &&
    (forall i :: 0 <= i < |dir| && dir[i].used ==> dir[i].data < h.next) &&
    (forall i, j :: 0 <= i < |dir| && 0 <= j < |dir| && i != j && dir[i].used && dir[j].used ==>
       dir[i].data != dir[j].data)
  }

  /** `kmalloc(size, 1, &phys)`: null when the pool cannot hold the block,
      otherwise a fresh address, reported as its own physical address. */
  function Kmalloc(h: Heap, size: uint32): (r: (nat, Heap))
    ensures r.0 == 0 ==> r.1 == h
    ensures HeapOk(h) && r.0 != 0 ==>
      r.0 == h.next && r.0 < U32 && h.next < r.1.next && r.0 + size <= r.1.next && HeapOk(r.1)
    ensures HeapOk(h) && r.0 == 0 <==> HeapOk(h) && h.next + size + 1 > h.limit
  {
    if h.next == 0 || h.next + size + 1 > h.limit then (0, h)
    else (h.next, h.(next := h.next + size + 1))
  }

  // ---------------------------------------------------------------------------
  // fs_find and the first free slot

  /** The scan of fs_find from slot `i` on. */
  function FindFrom(dir: seq<FsEntry>, n: Text, i: nat): (r: int)
    requires i <= |dir|
    ensures r == -1 || i <= r < |dir|
    ensures r >= 0 ==> Named(dir[r], n) && forall j :: i <= j < r ==> !Named(dir[j], n)
    ensures r == -1 ==> forall j :: i <= j < |dir| ==> !Named(dir[j], n)
    decreases |dir| - i
  {
    if i == |dir| then -1
    else if Named(dir[i], n) then i
    else FindFrom(dir, n, i + 1)
  }

  /** fs_find: the lowest used slot that holds `n`, or -1 when there is none. */
  function Find(dir: seq<FsEntry>, n: Text): (r: int)
    ensures -1 <= r < |dir|
    ensures r >= 0 ==> Named(dir[r], n)
    ensures r >= 0 ==> forall j :: 0 <= j < r ==> !Named(dir[j], n)
    ensures r == -1 ==> forall j :: 0 <= j < |dir| ==> !Named(dir[j], n)
  {
    FindFrom(dir, n, 0)
  }

  /** In a table that keeps the invariant a name is held by at most one used
      slot, so fs_find finds that slot. */
  lemma FindUnique(dir: seq<FsEntry>, n: Text, i: nat)
    requires Inv(dir) && i < |dir| && Named(dir[i], n)
    ensures Find(dir, n) == i
  {
    var r := Find(dir, n);
    HoldsIff(dir[i].name, n);
    HoldsIff(dir[r].name, n);
  }

  /** fs_find returns the first slot that holds `n`. */
  lemma FindIs(dir: seq<FsEntry>, n: Text, i: nat)
    requires i < |dir| && Named(dir[i], n)
    requires forall j :: 0 <= j < i ==> !Named(dir[j], n)
    ensures Find(dir, n) == i
  {
    var r := Find(dir, n);
    assert Named(dir[r], n);
  }

  /** The free-slot scan returns the first slot not in use. */
  lemma FirstFreeIs(dir: seq<FsEntry>, i: nat)
    requires i < |dir| && !dir[i].used
    requires forall j :: 0 <= j < i ==> dir[j].used
    ensures FirstFree(dir) == i
  {
    var r := FirstFree(dir);
    assert !dir[r].used;
  }

  /** Writing an entry that holds `n` into slot `i`, with no used slot before
      it holding `n`, makes fs_find return `i`. */
  lemma FindAfterWrite(dir: seq<FsEntry>, i: nat, e: FsEntry, n: Text)
    requires i < |dir| && Named(e, n)
    requires forall j :: 0 <= j < i ==> !Named(dir[j], n)
    ensures Find(dir[i := e], n) == i
  {
    var d := dir[i := e];
    assert forall j :: 0 <= j < i ==> d[j] == dir[j];
    FindIs(d, n, i);
  }

  /** A name no used slot holds differs from the string of every used slot. */
  lemma NameUnused(dir: seq<FsEntry>, n: Text)
    requires Inv(dir) && Find(dir, n) == -1
    ensures forall j :: 0 <= j < |dir| && dir[j].used ==> CStr(dir[j].name) != n
  {
    forall j | 0 <= j < |dir| && dir[j].used
      ensures CStr(dir[j].name) != n
    {
      HoldsIff(dir[j].name, n);
      assert !Named(dir[j], n);
    }
  }

  /** Writing a well-formed entry whose name no other used slot has keeps the
      invariant. */
  lemma InvAfterWrite(dir: seq<FsEntry>, i: nat, e: FsEntry)
    requires Inv(dir) && i < |dir| && e.used && GoodEntry(e)
    requires forall j :: 0 <= j < |dir| && j != i && dir[j].used ==> CStr(dir[j].name) != CStr(e.name)
    ensures Inv(dir[i := e])
  {
  }

  /** The scan for a free slot in cmd_create, from slot `i` on. */
  function FirstFreeFrom(dir: seq<FsEntry>, i: nat): (r: int)
    requires i <= |dir|
    ensures r == -1 || i <= r < |dir|
    ensures r >= 0 ==> !dir[r].used && forall j :: i <= j < r ==> dir[j].used
    ensures r == -1 ==> forall j :: i <= j < |dir| ==> dir[j].used
    decreases |dir| - i
  {
    if i == |dir| then -1
    else if !dir[i].used then i
    else FirstFreeFrom(dir, i + 1)
  }

  /** The lowest slot not in use, or -1 when all sixteen are. */
  function FirstFree(dir: seq<FsEntry>): (r: int)
    ensures -1 <= r < |dir|
    ensures r >= 0 ==> !dir[r].used && forall j :: 0 <= j < r ==> dir[j].used
    ensures r == -1 ==> forall j :: 0 <= j < |dir| ==> dir[j].used
  {
    FirstFreeFrom(dir, 0)
  }

  // ---------------------------------------------------------------------------
  // cmd_create

  /** The checks of cmd_create before it allocates, in the order it makes them. */
  datatype Checked = Reject(status: Status) | Accept(slot: nat, req: uint32)

  function CreateCheck(dir: seq<FsEntry>, name: Option<Text>, sizeArg: Option<Text>): (c: Checked)
  {
    if name.None? || name.value == [] || sizeArg.None? || sizeArg.value == [] then Reject(Usage)
    else if |name.value| >= MAX_NAME then Reject(NameTooLong)
    else if Find(dir, name.value) >= 0 then Reject(Exists)
    else if ParseValue(sizeArg.value) == 0 then Reject(BadSize)
    else if FirstFree(dir) < 0 then Reject(Full)
    else Accept(FirstFree(dir), ParseValue(sizeArg.value))
  }

  /** The entry cmd_create writes into a free slot whose old contents are `e`. */
  function NewEntry(e: FsEntry, name: Text, req: uint32, data: nat): (n: FsEntry)
    requires data < U32
  {
    FsEntry(Copied(e.name, name, MAX_NAME), req, RoundUpPage(req), data, data, true)
  }

  /** cmd_create: the status, the table and the allocator afterwards. CREATE
      never reports "not found"; the allocator only moves forward, and it
      moves exactly when CREATE succeeds: memory is never handed back. */
  function CreateFile(dir: seq<FsEntry>, h: Heap, name: Option<Text>, sizeArg: Option<Text>)
    : (r: (Status, seq<FsEntry>, Heap))
    requires HeapOk(h)
    ensures |r.1| == |dir|
    ensures r.0 != NotFound
    ensures HeapOk(r.2) && r.2.limit == h.limit && h.next <= r.2.next
    ensures h.next < r.2.next <==> r.0 == Ok
  {
    match CreateCheck(dir, name, sizeArg)
    case Reject(st) => (st, dir, h)
    case Accept(slot, req) =>
      var m := Kmalloc(h, RoundUpPage(req));
      if m.0 == 0 then (KmallocFailed, dir, h)
      else (Ok, dir[slot := NewEntry(dir[slot], name.value, req, m.0)], m.1)
  }

  /** A rejected CREATE, whatever the reason, changes neither the table nor
      the allocator. */
  lemma CreateRejectedChangesNothing(dir: seq<FsEntry>, h: Heap, name: Option<Text>, sizeArg: Option<Text>)
    requires HeapOk(h)
    ensures var r := CreateFile(dir, h, name, sizeArg);
      r.0 != Ok ==> r.1 == dir && r.2 == h
  {
  }

  /** CREATE succeeds exactly when both arguments are given, the name is
      shorter than sixteen characters and not yet used, the size parses to a
      non-zero number, a slot is free and the pool holds the rounded size. */
  lemma CreateOkIff(dir: seq<FsEntry>, h: Heap, name: Text, sizeArg: Text)
    requires HeapOk(h)
    ensures CreateFile(dir, h, Some(name), Some(sizeArg)).0 == Ok <==>
      name != [] && sizeArg != [] && |name| < MAX_NAME && Find(dir, name) == -1 &&
      ParseValue(sizeArg) != 0 && FirstFree(dir) >= 0 &&
      h.next + RoundUpPage(ParseValue(sizeArg)) + 1 <= h.limit
  {
  }

  /** The error a failing CREATE reports, checked in cmd_create's order: a
      missing or empty argument, a name too long for the slot, a name already
      present (whatever the size), a size that parses to 0, no free slot, and
      a pool too small for the rounded size. */
  lemma CreateStatus(dir: seq<FsEntry>, h: Heap, name: Option<Text>, sizeArg: Option<Text>)
    requires HeapOk(h)
    ensures name.None? || name.value == [] || sizeArg.None? || sizeArg.value == [] ==>
      CreateFile(dir, h, name, sizeArg) == (Usage, dir, h)
    ensures name.Some? && name.value != [] && sizeArg.Some? && sizeArg.value != [] ==>
      var n, sz := name.value, sizeArg.value;
      var v := ParseValue(sz);
      var fits := h.next + RoundUpPage(v) + 1 <= h.limit;
      var st := CreateFile(dir, h, name, sizeArg).0;
      (|n| >= MAX_NAME ==> st == NameTooLong) &&
      (|n| < MAX_NAME && Find(dir, n) >= 0 ==> st == Exists) &&
      (|n| < MAX_NAME && Find(dir, n) < 0 && v == 0 ==> st == BadSize) &&
      (|n| < MAX_NAME && Find(dir, n) < 0 && v != 0 && FirstFree(dir) < 0 ==> st == Full) &&
      (|n| < MAX_NAME && Find(dir, n) < 0 && v != 0 && FirstFree(dir) >= 0 && !fits ==> st == KmallocFailed)
  {
  }

  /** What a successful CREATE computes, spelled out. */
  lemma CreateOkShape(dir: seq<FsEntry>, h: Heap, name: Text, sizeArg: Text)
    requires HeapOk(h)
    requires CreateFile(dir, h, Some(name), Some(sizeArg)).0 == Ok
    ensures 0 <= FirstFree(dir) < |dir| && h.next < U32
    ensures CreateFile(dir, h, Some(name), Some(sizeArg)).1
         == dir[FirstFree(dir) := NewEntry(dir[FirstFree(dir)], name, ParseValue(sizeArg), h.next)]
  {
  }

  /** A successful CREATE writes the lowest free slot and nothing else: the
      slot now holds the name, the parsed size, its page-rounded allocation
      and the address kmalloc returned, and fs_find finds it there. */
  lemma CreateWritesLowestFreeSlot(dir: seq<FsEntry>, h: Heap, name: Text, sizeArg: Text)
    requires HeapOk(h)
    requires CreateFile(dir, h, Some(name), Some(sizeArg)).0 == Ok
    ensures var dir' := CreateFile(dir, h, Some(name), Some(sizeArg)).1;
      var slot := FirstFree(dir);
      0 <= slot < |dir| && !dir[slot].used &&
      (forall j :: 0 <= j < |dir| && j != slot ==> dir'[j] == dir[j]) &&
      dir'[slot].used && Holds(dir'[slot].name, name) &&
      dir'[slot].size == ParseValue(sizeArg) &&
      dir'[slot].allocBytes == RoundUpPage(ParseValue(sizeArg)) &&
      dir'[slot].data == h.next && dir'[slot].phys == h.next &&
      Find(dir', name) == slot
  {
    CreateOkShape(dir, h, name, sizeArg);
    var slot := FirstFree(dir);
    var e := NewEntry(dir[slot], name, ParseValue(sizeArg), h.next);
    CopiedHolds(dir[slot].name, name, MAX_NAME);
    FindAfterWrite(dir, slot, e, name);
  }

  /** With all sixteen slots in use CREATE never succeeds. */
  lemma CreateOnFullTable(dir: seq<FsEntry>, h: Heap, name: Text, sizeArg: Text)
    requires HeapOk(h)
    requires forall j :: 0 <= j < |dir| ==> dir[j].used
    requires name != [] && sizeArg != [] && |name| < MAX_NAME && Find(dir, name) == -1
    requires ParseValue(sizeArg) != 0
    ensures CreateFile(dir, h, Some(name), Some(sizeArg)).0 == Full
  {
  }

  /** CREATE keeps the table invariant and hands out an address no used
      entry holds. */
  lemma CreatePreservesInv(dir: seq<FsEntry>, h: Heap, name: Option<Text>, sizeArg: Option<Text>)
    requires Inv(dir) && Owned(dir, h)
    ensures var r := CreateFile(dir, h, name, sizeArg);
      Inv(r.1) && Owned(r.1, r.2)
  {
    var r := CreateFile(dir, h, name, sizeArg);
    if r.0 == Ok {
      var n := name.value;
      var slot := FirstFree(dir);
      var e := NewEntry(dir[slot], n, ParseValue(sizeArg.value), h.next);
      CreateOkShape(dir, h, n, sizeArg.value);
      CopiedHolds(dir[slot].name, n, MAX_NAME);
      HoldsIff(e.name, n);
      NameUnused(dir, n);
      InvAfterWrite(dir, slot, e);
    }
  }

  // ---------------------------------------------------------------------------
  // cmd_rename

  /** cmd_rename: the status and the table afterwards. The new name's length
      is checked before the old name is looked up. */
  function RenameFile(dir: seq<FsEntry>, oldn: Option<Text>, newn: Option<Text>): (r: (Status, seq<FsEntry>))
    ensures |r.1| == |dir|
    ensures r.0 in {Ok, Usage, NameTooLong, NotFound, Exists}
    ensures forall j :: 0 <= j < |dir| ==> r.1[j] == dir[j].(name := r.1[j].name)
  {
    if oldn.None? || oldn.value == [] || newn.None? || newn.value == [] then (Usage, dir)
    else if |newn.value| >= MAX_NAME then (NameTooLong, dir)
    else
      var idx := Find(dir, oldn.value);
      if idx < 0 then (NotFound, dir)
      else if Find(dir, newn.value) >= 0 then (Exists, dir)
      else (Ok, dir[idx := dir[idx].(name := Copied(dir[idx].name, newn.value, MAX_NAME))])
  }

  lemma RenameRejectedChangesNothing(dir: seq<FsEntry>, oldn: Option<Text>, newn: Option<Text>)
    ensures RenameFile(dir, oldn, newn).0 != Ok ==> RenameFile(dir, oldn, newn).1 == dir
  {
  }

  /** Renaming a file to its own name is refused as "exists"; a too long name
      is refused before the old name is looked up, so even for a missing file. */
  lemma RenameToItself(dir: seq<FsEntry>, n: Text)
    requires n != [] && |n| < MAX_NAME && Find(dir, n) >= 0
    ensures RenameFile(dir, Some(n), Some(n)) == (Exists, dir)
  {
  }

  /** The error a failing RENAME reports, checked in cmd_rename's order: a
      missing or empty name, a new name too long for the slot, an old name not
      present, and a new name already present. */
  lemma RenameStatus(dir: seq<FsEntry>, oldn: Option<Text>, newn: Option<Text>)
    ensures oldn.None? || oldn.value == [] || newn.None? || newn.value == [] ==>
      RenameFile(dir, oldn, newn) == (Usage, dir)
    ensures oldn.Some? && oldn.value != [] && newn.Some? && newn.value != [] ==>
      var st := RenameFile(dir, oldn, newn).0;
      (|newn.value| >= MAX_NAME ==> st == NameTooLong) &&
      (|newn.value| < MAX_NAME && Find(dir, oldn.value) < 0 ==> st == NotFound) &&
      (|newn.value| < MAX_NAME && Find(dir, oldn.value) >= 0 && Find(dir, newn.value) >= 0 ==> st == Exists)
  {
  }

  lemma RenameChecksLengthFirst(dir: seq<FsEntry>, oldn: Text, newn: Text)
    requires oldn != [] && |newn| >= MAX_NAME
    ensures RenameFile(dir, Some(oldn), Some(newn)) == (NameTooLong, dir)
  {
  }

  /** RENAME succeeds exactly when both names are given, the new one is shorter
      than sixteen characters, the old one is found and the new one is not. */
  lemma RenameOkIff(dir: seq<FsEntry>, oldn: Text, newn: Text)
    ensures RenameFile(dir, Some(oldn), Some(newn)).0 == Ok <==>
      oldn != [] && newn != [] && |newn| < MAX_NAME && Find(dir, oldn) >= 0 && Find(dir, newn) == -1
  {
  }

  /** A successful RENAME changes only the name of the slot fs_find found;
      afterwards the new name finds that slot and, in a table that keeps the
      invariant, the old name finds nothing. */
  lemma RenameChangesOnlyName(dir: seq<FsEntry>, oldn: Text, newn: Text)
    requires RenameFile(dir, Some(oldn), Some(newn)).0 == Ok
    ensures var dir' := RenameFile(dir, Some(oldn), Some(newn)).1;
      var idx := Find(dir, oldn);
      0 <= idx < |dir| &&
      (forall j :: 0 <= j < |dir| && j != idx ==> dir'[j] == dir[j]) &&
      dir'[idx] == dir[idx].(name := dir'[idx].name) &&
      Holds(dir'[idx].name, newn) &&
      Find(dir', newn) == idx &&
      (Inv(dir) ==> Find(dir', oldn) == -1)
  {
    var idx := Find(dir, oldn);
    var e := dir[idx].(name := Copied(dir[idx].name, newn, MAX_NAME));
    var dir' := dir[idx := e];
    assert RenameFile(dir, Some(oldn), Some(newn)).1 == dir';
    CopiedHolds(dir[idx].name, newn, MAX_NAME);
    FindAfterWrite(dir, idx, e, newn);
    if Inv(dir) {
      HoldsIff(dir[idx].name, oldn);
      HoldsIff(e.name, newn);
      HoldsIff(e.name, oldn);
      assert !Named(e, oldn);
      forall j | 0 <= j < |dir'| && j != idx
        ensures !Named(dir'[j], oldn)
      {
        HoldsIff(dir[j].name, oldn);
      }
    }
  }

  lemma RenamePreservesInv(dir: seq<FsEntry>, h: Heap, oldn: Option<Text>, newn: Option<Text>)
    requires Inv(dir) && Owned(dir, h)
    ensures var dir' := RenameFile(dir, oldn, newn).1;
      Inv(dir') && Owned(dir', h)
  {
    var r := RenameFile(dir, oldn, newn);
    if r.0 == Ok {
      var n := newn.value;
      var idx := Find(dir, oldn.value);
      var e := dir[idx].(name := Copied(dir[idx].name, n, MAX_NAME));
      assert r.1 == dir[idx := e];
      CopiedHolds(dir[idx].name, n, MAX_NAME);
      HoldsIff(e.name, n);
      NameUnused(dir, n);
      InvAfterWrite(dir, idx, e);
    }
  }

  // ---------------------------------------------------------------------------
  // cmd_del

  /** cmd_del: the status and the table afterwards. DEL only ever turns a
      used slot into a vacant one. */
  function DeleteFile(dir: seq<FsEntry>, name: Option<Text>): (r: (Status, seq<FsEntry>))
    ensures |r.1| == |dir|
    ensures r.0 in {Ok, Usage, NotFound}
    ensures forall j :: 0 <= j < |dir| ==> r.1[j] == dir[j] || (dir[j].used && r.1[j] == Vacant)
  {
    if name.None? || name.value == [] then (Usage, dir)
    else
      var idx := Find(dir, name.value);
      if idx < 0 then (NotFound, dir) else (Ok, dir[idx := Vacant])
  }

  /** A DEL that reports any error, a missing or empty name included, leaves
      the table unchanged. */
  lemma DeleteRejectedChangesNothing(dir: seq<FsEntry>, name: Option<Text>)
    ensures DeleteFile(dir, name).0 != Ok ==> DeleteFile(dir, name).1 == dir
    ensures name.None? || name.value == [] ==> DeleteFile(dir, name) == (Usage, dir)
  {
  }

  /** DEL succeeds exactly when the name is found; it then zeroes that slot,
      leaves every other slot alone, and in a table that keeps the invariant
      the name is gone and the slot is the first free one or after it. */
  lemma DeleteZeroesSlot(dir: seq<FsEntry>, n: Text)
    requires n != []
    ensures var r := DeleteFile(dir, Some(n));
      var idx := Find(dir, n);
      (r.0 == Ok <==> idx >= 0) &&
      (r.0 != Ok ==> r == (NotFound, dir)) &&
      (r.0 == Ok ==>
        r.1[idx] == Vacant &&
        (forall j :: 0 <= j < |dir| && j != idx ==> r.1[j] == dir[j]) &&
        0 <= FirstFree(r.1) <= idx &&
        (Inv(dir) ==> Find(r.1, n) == -1))
  {
    var r := DeleteFile(dir, Some(n));
    var idx := Find(dir, n);
    if r.0 == Ok && Inv(dir) {
      HoldsIff(dir[idx].name, n);
      forall j | 0 <= j < |dir| && j != idx
        ensures !Named(r.1[j], n)
      {
        HoldsIff(dir[j].name, n);
      }
      assert !Named(r.1[idx], n);
    }
  }

  lemma DeletePreservesInv(dir: seq<FsEntry>, h: Heap, name: Option<Text>)
    requires Inv(dir) && Owned(dir, h)
    ensures var dir' := DeleteFile(dir, name).1;
      Inv(dir') && Owned(dir', h)
  {
  }

  // ---------------------------------------------------------------------------
  // cmd_list

  /** The slots cmd_list prints, in the order it prints them. */
  function Listing(dir: seq<FsEntry>): (slots: seq<nat>)
    ensures forall k :: 0 <= k < |slots| ==> slots[k] < |dir| && dir[slots[k]].used
    ensures forall k, l :: 0 <= k < l < |slots| ==> slots[k] < slots[l]
    ensures forall i :: 0 <= i < |dir| && dir[i].used ==> i in slots
  {
    if dir == [] then []
    else
      var rest := Listing(dir[..|dir| - 1]);
      if dir[|dir| - 1].used then rest + [|dir| - 1] else rest
  }
}
