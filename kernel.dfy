// The shell side of kernel/kernel.c: the directory table g_dir as an array
// updated in place, fs_init, fs_find, the four file commands, and the
// dispatch of user_input.

module Kernel {
  import opened CStrings
  import opened Numbers
  import opened Tokenizer
  import opened Table

  /** What LIST prints for one file: its name, its size and its allocation in
      decimal, and the two addresses (printed in hex). */
  datatype ListLine = ListLine(name: Text, size: Text, alloc: Text, data: nat, phys: uint32)

  function LineOf(e: FsEntry): (l: ListLine)
    requires NUL in e.name
  {
    ListLine(CStr(e.name), Decimal(e.size), Decimal(e.allocBytes), e.data, e.phys)
  }

  predicate NamesTerminated(dir: seq<FsEntry>)
  {
    forall i :: 0 <= i < |dir| && dir[i].used ==> NUL in dir[i].name
  }

  /** The lines of cmd_list: one per slot Listing names, in that order. */
  function Lines(dir: seq<FsEntry>): (ls: seq<ListLine>)
    requires NamesTerminated(dir)
    ensures |ls| == |Listing(dir)|
    ensures forall k :: 0 <= k < |ls| ==> ls[k] == LineOf(dir[Listing(dir)[k]])
  {
    if dir == [] then []
    else
      var last := dir[|dir| - 1];
      Lines(dir[..|dir| - 1]) + if last.used then [LineOf(last)] else []
  }

  /** What the shell answers to a line. */
  datatype Reply =
    | Halted                 // END: "Stopping the CPU. Bye!" and hlt
    | PageAt(addr: nat)      // PAGE: the address kmalloc(1000) returned
    | Prompt                 // a blank line: only the prompt
    | Listed(lines: seq<ListLine>)
    | Done(status: Status)   // CREATE, RENAME, DEL
    | UnknownCommand

  /** user_input after parsing: the reply, the table and the allocator. Only
      CREATE, RENAME and DEL change the table; only CREATE and PAGE draw on
      the allocator, which never moves back. */
  function Step(dir: seq<FsEntry>, h: Heap, c: Command): (r: (Reply, seq<FsEntry>, Heap))
    requires Inv(dir) && HeapOk(h)
    ensures |r.1| == |dir|
    ensures !(c.Create? || c.Rename? || c.Del?) ==> r.1 == dir
    ensures !(c.Create? || c.Page?) ==> r.2 == h
    ensures HeapOk(r.2) && h.next <= r.2.next
  {
    match c
    case End => (Halted, dir, h)
    case Page =>
      var m := Table.Kmalloc(h, 1000);
      (PageAt(m.0), dir, m.1)
    case Blank => (Prompt, dir, h)
    case List => (Listed(Lines(dir)), dir, h)
    case Create(name, size) =>
      var r := CreateFile(dir, h, name, size);
      (Done(r.0), r.1, r.2)
    case Rename(from, to) =>
      var r := RenameFile(dir, from, to);
      (Done(r.0), r.1, h)
    case Del(name) =>
      var r := DeleteFile(dir, name);
      (Done(r.0), r.1, h)
    case Unknown => (UnknownCommand, dir, h)
  }

  /** Whatever line the user types, the table invariant still holds after it
      and every used entry's address is still one kmalloc handed out once. */
  lemma StepPreservesInv(dir: seq<FsEntry>, h: Heap, c: Command)
    requires Inv(dir) && Owned(dir, h)
    ensures var r := Step(dir, h, c);
      Inv(r.1) && Owned(r.1, r.2)
  {
    match c
    case Create(name, size) => CreatePreservesInv(dir, h, name, size);
    case Rename(from, to) => RenamePreservesInv(dir, h, from, to);
    case Del(name) => DeletePreservesInv(dir, h, name);
    case _ =>
  }

  /** The file system: the directory table `g_dir` and the allocator. */
  class FileSystem {
    var dir: array<FsEntry>
    var heap: Heap

    ghost predicate Valid()
      reads this, dir
    {
      dir.Length == MAX_FILES && Inv(dir[..]) && Owned(dir[..], heap)
    }

    /** fs_init: the table's memory holds whatever it held before (`garbage`);
        only the `used` flags are cleared. */
    constructor Init(h: Heap, garbage: seq<FsEntry>)
      requires HeapOk(h) && |garbage| == MAX_FILES
      ensures Valid() && fresh(dir) && heap == h
      ensures forall i :: 0 <= i < MAX_FILES ==> dir[i] == garbage[i].(used := false)
    {
      var d := new FsEntry[MAX_FILES](i requires 0 <= i < MAX_FILES => garbage[i]);
      var i := 0;
      while i < MAX_FILES
        invariant 0 <= i <= MAX_FILES
        invariant forall k :: 0 <= k < i ==> d[k] == garbage[k].(used := false)
        invariant forall k :: i <= k < MAX_FILES ==> d[k] == garbage[k]
      {
        d[i] := d[i].(used := false);
        i := i + 1;
      }
      dir := d;
      heap := h;
    }

    /** fs_find */
    method FsFind(n: Text) returns (r: int)
      requires dir.Length == MAX_FILES
      ensures r == Find(dir[..], n)
    {
      var i := 0;
      while i < MAX_FILES
        invariant 0 <= i <= MAX_FILES
        invariant forall j :: 0 <= j < i ==> !Named(dir[j], n)
      {
        if dir[i].used && Holds(dir[i].name, n) {
          FindIs(dir[..], n, i);
          return i;
        }
        i := i + 1;
      }
      return -1;
    }

    /** The scan for the lowest free slot in cmd_create. */
    method FreeSlot() returns (slot: int)
      requires dir.Length == MAX_FILES
      ensures slot == FirstFree(dir[..])
    {
      var i := 0;
      while i < MAX_FILES
        invariant 0 <= i <= MAX_FILES
        invariant forall j :: 0 <= j < i ==> dir[j].used
      {
        if !dir[i].used {
          FirstFreeIs(dir[..], i);
          return i;
        }
        i := i + 1;
      }
      return -1;
    }

    /** The `kmalloc(size, 1, &phys)` call of cmd_create and PAGE; 0 is null. */
    method Kmalloc(size: uint32) returns (data: nat)
      modifies this
      ensures dir == old(dir)
      ensures (data, heap) == Table.Kmalloc(old(heap), size)
    {
      var m := Table.Kmalloc(heap, size);
      data := m.0;
      heap := m.1;
    }

    /** cmd_create */
    method CmdCreate(name: Option<Text>, sizeArg: Option<Text>) returns (st: Status)
      requires Valid()
      modifies this, dir
      ensures Valid() && dir == old(dir)
      ensures (st, dir[..], heap) == CreateFile(old(dir[..]), old(heap), name, sizeArg)
    {
      if name.None? || name.value == [] || sizeArg.None? || sizeArg.value == [] {
        return Usage;
      }
      var n := name.value;
      if |n| >= MAX_NAME {
        return NameTooLong;
      }
      var idx := FsFind(n);
      if idx >= 0 {
        return Exists;
      }
      var req := ParseUint(sizeArg.value);
      if req == 0 {
        return BadSize;
      }
      var slot := FreeSlot();
      if slot < 0 {
        return Full;
      }
      var alloc := RoundUpPage(req);
      var data := Kmalloc(alloc);
      if data == 0 {
        return KmallocFailed;
      }
      var nb := CopyName(dir[slot].name, n);
      dir[slot] := FsEntry(nb, req, alloc, data, data, true);
      CreatePreservesInv(old(dir[..]), old(heap), name, sizeArg);
      st := Ok;
    }

    /** cmd_rename */
    method CmdRename(oldn: Option<Text>, newn: Option<Text>) returns (st: Status)
      requires Valid()
      modifies dir
      ensures Valid()
      ensures (st, dir[..]) == RenameFile(old(dir[..]), oldn, newn)
    {
      if oldn.None? || oldn.value == [] || newn.None? || newn.value == [] {
        return Usage;
      }
      if |newn.value| >= MAX_NAME {
        return NameTooLong;
      }
      var idx := FsFind(oldn.value);
      if idx < 0 {
        return NotFound;
      }
      var other := FsFind(newn.value);
      if other >= 0 {
        return Exists;
      }
      var nb := CopyName(dir[idx].name, newn.value);
      dir[idx] := dir[idx].(name := nb);
      RenamePreservesInv(old(dir[..]), heap, oldn, newn);
      st := Ok;
    }

    /** cmd_del */
    method CmdDel(name: Option<Text>) returns (st: Status)
      requires Valid()
      modifies dir
      ensures Valid()
      ensures (st, dir[..]) == DeleteFile(old(dir[..]), name)
    {
      if name.None? || name.value == [] {
        return Usage;
      }
      var idx := FsFind(name.value);
      if idx < 0 {
        return NotFound;
      }
      dir[idx] := dir[idx].(used := false, name := ZeroName(), size := 0, allocBytes := 0, phys := 0, data := 0);
      DeletePreservesInv(old(dir[..]), heap, name);
      st := Ok;
    }

    /** `copy_bounded(e.name, n, MAX_NAME)` on a slot's name field. */
    static method CopyName(field: NameBuf, n: Text) returns (r: NameBuf)
      ensures r == Copied(field, n, MAX_NAME)
    {
      var buf := new char[MAX_NAME](i requires 0 <= i < MAX_NAME => field[i]);
      assert buf[..] == field;
      CopyBounded(buf, n, MAX_NAME);
      r := buf[..];
    }

    /** The decimal text dec_to_ascii leaves in a 16-character buffer. */
    static method DecimalText(v: uint32) returns (t: Text)
      ensures t == Decimal(v)
    {
      var b := new char[16];
      DecToAscii(v, b);
      CStrAt(b[..], 0, |Decimal(v)|);
      assert b[..][0..] == b[..];
      t := CStr(b[..]);
    }

    /** cmd_list: one line per used slot, lowest slot first. */
    method CmdList() returns (lines: seq<ListLine>)
      requires Valid()
      ensures lines == Lines(dir[..])
    {
      lines := [];
      var i := 0;
      while i < MAX_FILES
        invariant 0 <= i <= MAX_FILES
        invariant NamesTerminated(dir[..i])
        invariant lines == Lines(dir[..i])
      {
        var e := dir[i];
        assert dir[..i + 1][..i] == dir[..i];
        if e.used {
          var size := DecimalText(e.size);
          var alloc := DecimalText(e.allocBytes);
          lines := lines + [ListLine(CStr(e.name), size, alloc, e.data, e.phys)];
        }
        i := i + 1;
      }
      assert dir[..MAX_FILES] == dir[..];
    }

    /** user_input: capitalise the line, parse it, and run the command it names. */
    method UserInput(input: array<char>) returns (reply: Reply)
      requires Valid() && NUL in input[..]
      modifies this, dir, input
      ensures Valid() && dir == old(dir)
      ensures (reply, dir[..], heap) == Step(old(dir[..]), old(heap), Classify(Upcase(CStr(old(input[..])))))
    {
      var c := ParseLine(input);
      match c
      case End =>
        reply := Halted;
      case Page =>
        var page := Kmalloc(1000);
        reply := PageAt(page);
      case Blank =>
        reply := Prompt;
      case List =>
        var lines := CmdList();
        reply := Listed(lines);
      case Create(name, size) =>
        var st := CmdCreate(name, size);
        reply := Done(st);
      case Rename(from, to) =>
        var st := CmdRename(from, to);
        reply := Done(st);
      case Del(name) =>
        var st := CmdDel(name);
        reply := Done(st);
      case Unknown =>
        reply := UnknownCommand;
    }
  }
}
