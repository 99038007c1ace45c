# Mini-OS shell and in-memory file system, in Dafny

This project models the shell of a small bare-metal kernel (`kernel/kernel.c`). The shell reads one line at a time and keeps a "fake file system". That file system is a directory table `g_dir` of sixteen `FsEntry` slots. Each slot records a named memory region obtained from `kmalloc`.

- The commands `CREATE <name> <size>`, `RENAME <old> <new>`, `DEL <name>` and `LIST` work on that table.
- `PAGE` asks `kmalloc` for 1000 bytes.
- `END` stops the CPU.

Modules:

- `CStrings` (`cstrings.dfy`) models C strings.
  - A buffer is a `seq<char>` read up to its first NUL.
  - `Text` is a NUL-free string.
  - `Holds(buf, t)` is `strcmp(buf, t) == 0`.
  - It also holds the in-place helpers `to_upper_inplace` and `copy_bounded`, as methods on `array<char>`.
- `Numbers` (`numbers.dfy`) covers `uint32_t`, which is modelled as a subset of `int`, with wrap-around written out as `% 2^32`.
  - It has `round_up_page`, `parse_uint` and `dec_to_ascii`.
  - round_up_page is the function `RoundUpPage`.
  - The methods `ParseUint` and `DecToAscii` are proved against the functions `ParseValue` and `Decimal`.
- `Tokenizer` (`tokenizer.dfy`) covers `next_token` and `cut_token` on the input buffer.
  - They are proved against a pure parse: `Tokenize` splits a line into command, first argument and second argument, and `Classify` chooses the command.
  - The whole parse of `user_input` is proved against that pure parse.
- `Table` (`table.dfy`) holds the directory table as a value. It has:
  - the table invariant `Inv`;
  - `fs_find` as `Find`;
  - the pure meaning of CREATE, RENAME, DEL and LIST (`CreateFile`, `RenameFile`, `DeleteFile`, `Listing`);
  - the lemmas about them.
- `Kernel` (`kernel.dfy`) holds the class `FileSystem`.
  - Its `array<FsEntry>` is updated in place by `CmdCreate`, `CmdRename` and `CmdDel`.
  - Each method is proved equal to the pure function for its command, and keeps `Valid()`.
  - `UserInput` is proved equal to `Step` applied to the classified, upper-cased line.

The table invariant says:

- there are sixteen slots;
- every used slot has a terminated name, a size > 0, `alloc_bytes == round_up_page(size)` and a non-null address;
- no two used slots hold the same name;
- no two used slots share an address.

Every command preserves it (`StepPreservesInv`).

A vacant slot is not required to be zeroed. `fs_init` only clears the `used` flags and leaves the rest of each slot as it was. Only `DEL` zeroes a slot.

The model follows the code in these details:

- A failed allocation reports `ERR: kmalloc failed`.
- `round_up_page` computes in `uint32_t`, so sizes above `2^32 - 4096` round to 0 rather than to a value at least as large as the size. `RoundUpPage` states both ranges, and `RoundUpPageWraps` exhibits the wrap.
- `RENAME` receives the uncut rest of the line as the new name, because the second argument is never cut: `RENAME A B C` renames `A` to `B C` (`RenamePassesRest`).
- `parse_uint` stops at the first non-digit, so `12AB` is 12 (`ParseNumericPrefix`).
- `END` and `PAGE` are compared with the whole upper-cased line, before it is tokenised.

## Model

| member | source | states |
|---|---|---|
| CStrings.HoldsIff | kernel/kernel.c:71 | `strcmp(buf, t) == 0` holds exactly when the C string in `buf` is `t` |
| CStrings.Upcase | kernel/kernel.c:32-34 | every lower-case ASCII letter becomes its capital (its code minus 32), every other character is kept, and no lower-case letter remains |
| CStrings.ToUpperInPlace | kernel/kernel.c:32-34 | the buffer afterwards holds the old string with every `a`-`z` turned into its capital; nothing from the terminator on changes |
| CStrings.UpcaseLeavesNoLowerCase | kernel/kernel.c:32-34 | after upper-casing no lower-case ASCII letter remains, and upper-casing again changes nothing |
| CStrings.Copied | kernel/kernel.c:40-44 | with `k` the smaller of `maxlen - 1` and the length of `src`: the first `k` characters are `src`'s, position `k` is a NUL, and everything after it is the old buffer |
| CStrings.CopyBounded | kernel/kernel.c:40-44 | a non-positive `maxlen` writes nothing; otherwise the buffer gets at most `maxlen - 1` characters of `src`, then a NUL, and the rest of the buffer is unchanged |
| CStrings.CopiedHolds | kernel/kernel.c:40-44 | after the copy the buffer is terminated and holds `src` cut to `maxlen - 1` characters, so it holds `src` itself whenever `src` is shorter than `maxlen` |
| Numbers.RoundUpPage | kernel/kernel.c:63-66 | the result is a multiple of 4096; for `n <= 2^32 - 4096` it lies in `[n, n + 4096)`; above that the 32-bit sum wraps and the result is 0 |
| Numbers.RoundUpPageIsLeast | kernel/kernel.c:63-66 | below the wrap point the result is no larger than any multiple of 4096 that is at least `n`, so it is the least one |
| Numbers.RoundUpPageWraps | kernel/kernel.c:65 | `2^32 - 1` and `2^32 - 4095` round to 0, and `2^32 - 4096` rounds to itself |
| Numbers.ParseValue | kernel/kernel.c:55-60 | a string of digits parses to its value modulo 2^32; a string with no digit after its leading spaces parses to 0 |
| Numbers.ParseUint | kernel/kernel.c:55-60 | the loop over the buffer returns `ParseValue`: after leading spaces, the value of the longest digit run modulo 2^32, or 0 when there is no digit |
| Numbers.ParseNumericPrefix | kernel/kernel.c:55-60 | spaces, then digits, then anything that is not a digit parse to the digits' value modulo 2^32, so trailing text such as `AB` in `12AB` is ignored |
| Numbers.Decimal | kernel/kernel.c:47-52 | at least one character, all digits, `0` exactly for zero, and no leading zero otherwise |
| Numbers.StoreDigits | kernel/kernel.c:50 | the first loop of dec_to_ascii stores the decimal digits least significant first, at most ten of them, so its `i < 15` bound never stops it |
| Numbers.Uint32Digits | kernel/kernel.c:50 | a 32-bit value has at most ten decimal digits |
| Numbers.DecToAscii | kernel/kernel.c:47-52 | the 16-byte output holds `Decimal(v)`, the at most ten digits that parse back to `v`, then a NUL; the rest of the buffer is unchanged |
| Numbers.ParseDecimalRoundTrip | kernel/kernel.c:47-60 | parsing the decimal text of any 32-bit value gives that value back |
| Tokenizer.Next | kernel/kernel.c:36 | null stays null; a result starts with a non-space and is the end of the input with only spaces before it; a non-null input gives null only when it is all spaces |
| Tokenizer.CutRejoins | kernel/kernel.c:37 | the word holds no space; there is no rest exactly when the word is the whole string; otherwise the word, one space and the rest put together give the string back |
| Tokenizer.NextToken | kernel/kernel.c:36 | the returned index points at the string `Next` gives: null stays null, spaces are skipped, and an all-space rest gives null |
| Tokenizer.CutToken | kernel/kernel.c:37 | the word at `p` is terminated where its space was, and only that byte changes; the result points just past it, or is null when the word ran to the end; both agree with `Cut` |
| Tokenizer.EndWord | kernel/kernel.c:37 | once the scan stops at the terminator or a space, the word is terminated there and only that byte changes; the result is null at the end of the string, else the index after the new NUL, as `Cut` says |
| Tokenizer.Tokenize | kernel/kernel.c:194-198 | the second argument, when there is one, is the whole end of the line |
| Tokenizer.Dispatch | kernel/kernel.c:200-211 | the command token selects its handler: LIST exactly for `LIST`, CREATE exactly for `CREATE`, RENAME exactly for `RENAME`, DEL exactly for `DEL`, unknown for any other token, never END, PAGE or blank; CREATE and RENAME get the first and second arguments, DEL only the first |
| Tokenizer.Classify | kernel/kernel.c:172-211 | END exactly for the line `END`, PAGE exactly for the line `PAGE`, blank exactly when the line is all spaces, and any other line runs the handler its tokens select (`Dispatch` of `Tokenize`) |
| Tokenizer.SplitArgs | kernel/kernel.c:197-198 | the first argument is found and cut when present; the second is the uncut rest; the command token is left intact |
| Tokenizer.SplitLine | kernel/kernel.c:194-198 | the in-place parse of the buffer yields exactly `Tokenize` of the line it held |
| Tokenizer.ParseLine | kernel/kernel.c:172-211 | upper-casing, the END/PAGE tests on the whole line, the tokenising and the choice of handler yield exactly `Classify(Upcase(line))` |
| Tokenizer.TokensShape | kernel/kernel.c:194-198 | tokens are non-empty; the command and first argument hold no space; a second argument starts with a non-space and exists only after a first |
| Tokenizer.BlankIffSpaces | kernel/kernel.c:195 | a line yields no command exactly when it consists only of spaces |
| Tokenizer.TokenizeOne | kernel/kernel.c:194-198 | one word with any spaces around it tokenises to that command with no arguments |
| Tokenizer.TokenizeTwo | kernel/kernel.c:194-198 | two words with any spaces around them tokenise to the command and a first argument, with no second argument |
| Tokenizer.TokenizeThree | kernel/kernel.c:194-198 | a command word, a first argument and a rest, each preceded by any run of spaces, tokenise to exactly those three, with the rest's inner spaces kept |
| Tokenizer.ClassifyThree | kernel/kernel.c:194-211 | a line of a command word, a first argument and a rest is dispatched on the word with the first argument and the whole rest |
| Tokenizer.RenamePassesRest | kernel/kernel.c:198-205 | `RENAME a1 rest` passes the whole rest, spaces included, as the new name |
| Table.Find | kernel/kernel.c:69-73 | the result is the lowest used slot whose name is `n`, or -1 exactly when no used slot holds `n` |
| Table.FindUnique | kernel/kernel.c:69-73 | in a table that keeps the invariant, any used slot holding `n` is the one fs_find returns |
| Table.FirstFree | kernel/kernel.c:113-114 | the lowest unused slot, or -1 exactly when all slots are in use |
| Table.Kmalloc | kernel/kernel.c:119-120 | null leaves the allocator alone; otherwise the block starts at the allocator's pointer, fits below 2^32, and the pointer moves past it; null exactly when the pool cannot hold the block |
| Table.CreateFile | kernel/kernel.c:105-131 | CREATE never reports `not found`; the allocator stays valid and keeps its limit, never moves back, and moves exactly when CREATE succeeds |
| Table.CreateRejectedChangesNothing | kernel/kernel.c:106-120 | a CREATE that reports any error leaves the table and the allocator unchanged |
| Table.CreateStatus | kernel/kernel.c:106-120 | the error CREATE reports follows the order of its checks: a missing or empty argument gives `usage` and changes nothing; then a name of 16 or more gives `name too long`; then a name already present gives `exists` whatever the size; then a size parsing to 0 gives `size must be > 0`; then no free slot gives `directory full`; then a pool too small for the rounded size gives `kmalloc failed` |
| Table.CreateOkIff | kernel/kernel.c:105-131 | CREATE succeeds exactly when both arguments are non-empty, the name is shorter than 16, it is not in use, the size parses to non-zero, a slot is free and the pool holds the rounded size |
| Table.CreateWritesLowestFreeSlot | kernel/kernel.c:113-128 | on success, only the lowest free slot changes; it then holds the name, the parsed size, its page rounding and the new address, and fs_find finds the name there |
| Table.CreateOnFullTable | kernel/kernel.c:113-115 | with all sixteen slots in use a CREATE that passes the earlier checks reports `directory full` |
| Table.CreatePreservesInv | kernel/kernel.c:105-131 | CREATE keeps the table invariant and gives the new entry an address no used entry has |
| Table.RenameFile | kernel/kernel.c:134-141 | RENAME reports only OK, usage, name too long, not found or exists; whatever the outcome, only name fields can differ |
| Table.RenameRejectedChangesNothing | kernel/kernel.c:135-138 | a RENAME that reports any error leaves the table unchanged |
| Table.RenameToItself | kernel/kernel.c:137-138 | renaming an existing file to its own name reports `exists` and changes nothing |
| Table.RenameStatus | kernel/kernel.c:135-138 | the error RENAME reports follows the order of its checks: a missing or empty name gives `usage` and changes nothing; then a new name of 16 or more gives `name too long`; then a missing old name gives `not found`; then a new name already present gives `exists` |
| Table.RenameChecksLengthFirst | kernel/kernel.c:136-137 | a new name of 16 or more characters is refused as `name too long` before the old name is looked up |
| Table.RenameOkIff | kernel/kernel.c:134-141 | RENAME succeeds exactly when both names are non-empty, the new one is shorter than 16, the old one is found and the new one is not |
| Table.RenameChangesOnlyName | kernel/kernel.c:137-139 | on success, only the name field of the found slot changes; the new name finds that slot, and in a table that keeps the invariant the old name no longer finds anything |
| Table.RenamePreservesInv | kernel/kernel.c:134-141 | RENAME keeps the table invariant and the distinct addresses |
| Table.DeleteFile | kernel/kernel.c:144-153 | DEL reports only OK, usage or not found; every slot either is unchanged or was in use and is now vacant |
| Table.DeleteRejectedChangesNothing | kernel/kernel.c:145-147 | a DEL that reports any error leaves the table unchanged, and a missing or empty name reports usage |
| Table.DeleteZeroesSlot | kernel/kernel.c:144-153 | DEL succeeds exactly when the name is found; that slot then has every field zeroed and is free, no other slot changes, the lowest free slot is at or before it, and the name is gone; otherwise it reports `not found` and changes nothing |
| Table.DeletePreservesInv | kernel/kernel.c:144-153 | DEL keeps the table invariant and the distinct addresses |
| Table.Listing | kernel/kernel.c:88-102 | LIST visits exactly the used slots, each once, in increasing slot order |
| Kernel.Lines | kernel/kernel.c:88-102 | LIST prints one line per listed slot, in that order, each with the slot's name, decimal size, decimal allocation and two addresses |
| Kernel.Step | kernel/kernel.c:172-211 | only CREATE, RENAME and DEL can change the table; only CREATE and PAGE can change the allocator, which stays valid and never moves back |
| Kernel.StepPreservesInv | kernel/kernel.c:172-211 | whatever line is typed, the table invariant and the distinct addresses still hold afterwards |
| Kernel.FileSystem.Init | kernel/kernel.c:76-78 | fs_init leaves a valid table in which every slot is unused and otherwise holds what the memory held before |
| Kernel.FileSystem.FsFind | kernel/kernel.c:69-73 | the loop over `g_dir` returns `Find` of the table |
| Kernel.FileSystem.FreeSlot | kernel/kernel.c:113-115 | the loop in cmd_create returns the lowest free slot, or -1 when there is none |
| Kernel.FileSystem.Kmalloc | kernel/kernel.c:119 | the allocation call changes only the allocator, as `Table.Kmalloc` says |
| Kernel.FileSystem.CopyName | kernel/kernel.c:123 | `copy_bounded` into a 16-character name field gives `Copied` of that field |
| Kernel.FileSystem.CmdCreate | kernel/kernel.c:105-131 | the in-place CREATE reports the status and leaves the table and allocator that `CreateFile` gives; the invariant still holds |
| Kernel.FileSystem.CmdRename | kernel/kernel.c:134-141 | the in-place RENAME reports the status and leaves the table that `RenameFile` gives; the invariant still holds |
| Kernel.FileSystem.CmdDel | kernel/kernel.c:144-153 | the in-place DEL reports the status and leaves the table that `DeleteFile` gives; the invariant still holds |
| Kernel.FileSystem.DecimalText | kernel/kernel.c:94-96 | the text dec_to_ascii leaves in LIST's 16-byte buffer is the decimal of the value |
| Kernel.FileSystem.CmdList | kernel/kernel.c:88-102 | the lines LIST produces are `Lines` of the table: used slots only, lowest slot first |
| Kernel.FileSystem.UserInput | kernel/kernel.c:172-212 | the reply, the new table and the allocator are `Step` of the command the upper-cased line classifies to; the invariant still holds |

## Left out

- Screen output (`kprint`) is not modelled. Each command's printed message is represented by its `Status` or `Reply` value.
- The `FILES:` header, the prompts and the hex text of addresses (`hex_to_ascii`) are left out. A LIST line carries the two addresses as numbers.
- Table.Kmalloc: the kernel allocator's internals are not part of this model. `kmalloc` is a bump pointer over a pool that ends at `limit`, and a block of `n` bytes advances it by `n + 1`. Page alignment is not modelled. The physical address is taken to be the virtual one. Failure happens only when the pool is exhausted.
- `memory_set` of a new region's contents (line 121) is not modelled, because the region's bytes are not part of the model.
- Kernel.FileSystem.Init: the `kmalloc` that obtains the table's own memory is represented by the fresh array. It does not draw from the modelled allocator, and its result is not checked, just as in the source. The `FS init` message is not modelled.
- `kernel_main`, interrupt installation, the `int $2`/`int $3` and `hlt` instructions, and collecting keystrokes into a line are left out. `END` is modelled as the reply `Halted`.
- CStrings.CopyBounded: the `src` null check of `copy_bounded` is not modelled, because no caller passes a null source.
- `g_dir_count` is the constant 16. It is the length of the table array.
- Running commands concurrently or from an interrupt handler is left out. Each call runs to completion.
