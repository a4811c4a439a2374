# Candidate collection: a Dafny model

The repository holds two near-identical command-line programs, `hw.cpp` and
`main.cpp`. Each keeps a collection of election candidates in an item collector.
Each reads commands (`load`, `save`, `clean`, `add`, `remove`, `update`, `view`)
and applies them to the collection. This project models the part of both
programs that can be given a contract:

- the `Converter` tables between fraction codes and fraction names
  (`fractions.dfy`, identical in `hw.cpp:28-53` and `main.cpp:28-53`);
- the `Candidate` record, its invariant and its two constructors;
- the field order in which `Candidate::write` stores a record and
  `ItemCollector::read` decodes it;
- the collector as `performCommand` uses it (`collector.dfy`): an ordered
  sequence of slots, each a record plus a "removed" flag. Removal only sets
  the flag, so indices stay stable;
- `performCommand` (`commands.dfy`, `hw.dfy`, `main.dfy`): the command words,
  the argument counts, the default file name `hw.data`, the record built from
  the arguments, and the `view` loop that prints the live slots and counts
  them.

`hw.dfy` (module `HwProgram`) models `hw.cpp`, whose record has a name and a
surname of at most 30 bytes each. `main.dfy` (module `MainProgram`) models
`main.cpp`, whose record has one `fio` field of at most 50 bytes. In both, the
age must lie in 21..120. Income and voices are unconstrained.

How the program's behaviour is represented:

- Text lengths are counted in bytes, as `std::string::size()` and the
  `readString` limit count them. `Utf8.ByteSize` gives the UTF-8 length of a
  string: an ASCII letter takes one byte, a Cyrillic letter two. So a surname
  of 19 Cyrillic letters (38 bytes) fails the 30-byte limit
  (`HwProgram.FromTextCountsBytes`).
- A `Candidate` is a datatype value. The program never changes a candidate
  after construction: there are no setters and copying is deleted. Each
  constructor is a function that returns `None` where the C++ `assert(invariant())`
  would stop the process.
- The `add`/`update` constructor takes `unsigned long` values and stores them
  in `uint` fields. `Tokens.Narrow` writes that truncation out (modulo 2^32).
  So the check sees the narrowed age: `FromTextWrapsAge` shows that an age of
  2^32 + 45 is accepted as 45.
- A stored record is a sequence of field tokens, `Str(s)` or `Num(n)`, one per
  `writeString`/`writeNumber` call. Reading a string takes the field's length
  limit in bytes and fails when the stored string is longer.
- `Converter::toString` has no entry for `FRACTION_UNKNOWN`. So `Write`
  requires a known fraction. A `view` that reaches a live record with an
  unknown fraction has outcome `Undefined`. Such a record can still be
  created: `add` with an unrecognised fraction name yields `Unknown`, and so
  does reading an unrecognised name from a stream.
- `performCommand` is split in two. The pure `Dispatch(args, stoul)` decides
  what the command line means: reject it (`false`), stop the process (a
  `stoul` exception or a constructor assert), or run a command.
  `Commands.Execute` then applies that command to the `Collector` object.
  `stoul` is a parameter: `None` stands for the exception it throws, which
  nothing catches.
- A `remove` or `update` index outside the collector is outside the
  collector's contract; its outcome is `Undefined`.

Income is an unsigned `uint` (`hw.cpp:60`) that the invariant never reads
(`hw.cpp:65-69`), so no income value makes construction fail.

## Model

| member | source | states |
|---|---|---|
| `Fractions.ToString` | hw.cpp:31-47 | name of a code, defined only for the five real fractions; the name is one of the five known names and fits the 20-character read limit |
| `Fractions.ToFraction` | hw.cpp:37-52 | a text maps to a real fraction exactly when it is one of the five known names; any other text maps to `Unknown` |
| `Fractions.CodeRoundTrip` | hw.cpp:31-52 | for every known code, `toFraction(toString(f)) == f` |
| `Fractions.NameRoundTrip` | hw.cpp:31-52 | for every recognised name, `toString(toFraction(s)) == s` |
| `Fractions.KnownCodes` | hw.cpp:37-41 | EDRO, YABLOKO, LDPR, NOVIE LUDI and KPRF map to their own five codes |
| `Tokens.Narrow` | hw.cpp:84-87 | storing an `unsigned long` in a `uint` keeps values below 2^32 and otherwise differs by a multiple of 2^32 |
| `Utf8.ByteSize` | hw.cpp:68 | the `size()` of a text is its UTF-8 length: at least its number of characters, at most four times that, and zero exactly for the empty text |
| `Utf8.AsciiSize` | hw.cpp:68 | a text's byte size equals its character count exactly when every character is ASCII |
| `Utf8.WideSize` | hw.cpp:68 | a text of non-ASCII characters only (Cyrillic, say) takes at least two bytes per character |
| `Tokens.ReadString` | hw.cpp:116 | a string field is read exactly when the next field is a string whose byte size is within the limit; the value read is that string, and the rest of the stream follows it |
| `Tokens.ReadNumber` | hw.cpp:118 | a number field is read exactly when the next field is a number; the value read is that number, and the rest of the stream follows it |
| `Collector.Collector.constructor` | hw.cpp:242 | a new collector has no slots |
| `Collector.Collector.GetSize` | hw.cpp:214 | the number of slots, removed ones included; `view` never lists more rows than that |
| `Collector.Collector.GetItem` | hw.cpp:216 | the record of slot `i`, removed or not; a live slot's record is listed by `view` under index `i` |
| `Collector.Collector.IsRemoved` | hw.cpp:218 | slot `i` is removed exactly when it is not live, that is exactly when `view` does not list it |
| `Collector.Collector.AddItem` | hw.cpp:178 | appends one live slot holding the record and changes nothing else |
| `Collector.Collector.RemoveItem` | hw.cpp:190 | sets the removed flag of slot `i` and keeps every slot in place |
| `Collector.Collector.UpdateItem` | hw.cpp:201 | replaces the record of slot `i`, keeping its flag and every other slot |
| `Collector.Collector.Clean` | hw.cpp:166 | leaves the collector with no slots |
| `Collector.ListingSpec` | hw.cpp:213-231 | the listing holds exactly the live slots, each under its own index with its own record, in increasing index order, and has as many rows as there are live slots, never more than the number of slots |
| `Collector.ListingAfterAdd` | hw.cpp:178 | after `add`, the listing is the old listing plus one row for the new record under the next index |
| `Collector.ListingAfterRemove` | main.cpp:185 | after `remove i`, the listing is the old listing without row `i`: survivors keep their original indices, and the count drops by one when slot `i` was live |
| `Collector.RemoveIdempotent` | hw.cpp:190 | removing a slot twice leaves the same state as removing it once |
| `Collector.RemoveKeepsIndices` | hw.cpp:190 | removal keeps the size and every record; only slot `i`'s flag changes, and it becomes set |
| `Collector.ListingAfterUpdate` | hw.cpp:201 | after `update i`, only row `i` changes: it shows the new record when the slot is live, every other row is unchanged, and the count is unchanged |
| `Commands.Classify` | hw.cpp:132-205 | a recognised command word is the short or the long name of its command; an unrecognised word is neither for any command |
| `Commands.ViewSlots` | hw.cpp:213-231 | the `view` loop prints exactly the listing of the live slots and a count equal to the number of live slots; it is defined only when every live record's fraction has a name |
| `Commands.Execute` | hw.cpp:127-237 | the effect of each decision: reject returns false, stop ends the process, load/save hand over the file name, clean empties, add appends, remove/update change one in-range slot, view prints the listing; the collector is otherwise unchanged |
| `HwProgram.Invariant` | hw.cpp:65-69 | name and surname non-empty and at most 30 bytes, age in 21..120; a valid name and surname therefore have 1 to 30 characters |
| `HwProgram.New` | hw.cpp:75-78 | the typed constructor yields a record exactly when name and surname have 1 to 30 bytes and age is in 21..120, and stores the fields unchanged |
| `HwProgram.FromText` | hw.cpp:80-89 | the text constructor narrows the numbers and maps the fraction text before the check; it yields a record exactly when name and surname have 1 to 30 bytes and the narrowed age is in 21..120 |
| `HwProgram.FromTextExamples` | hw.cpp:65-89 | ages 15 and 200 fail construction; an unrecognised fraction name gives a record with `Unknown` |
| `HwProgram.FromTextCountsBytes` | hw.cpp:68 | a surname of 19 Cyrillic letters fails construction, because it takes more than 30 bytes |
| `HwProgram.FromTextWrapsAge` | hw.cpp:80-88 | an age of 2^32 + 45 passes the invariant as 45 |
| `HwProgram.Read` | hw.cpp:114-124 | every decoded record satisfies the invariant and takes exactly the six fields of the layout |
| `HwProgram.Write` | hw.cpp:98-105 | `write` emits six fields; for a valid record they are of the layout's kinds and within the byte limits `read` passes; `RoundTrip` with `ReadFields` fixes which field holds which value |
| `HwProgram.RoundTrip` | hw.cpp:98-124 | `read(write(c) + rest)` gives back `c` and `rest` for every valid `c` with a known fraction |
| `HwProgram.ReadMalformedIff` | hw.cpp:114-121 | `read` fails to decode exactly when the stream does not begin with string(30), string(30), number, number, string(20), number |
| `HwProgram.ReadFields` | hw.cpp:114-124 | on well-formed fields, `read` yields the record with the fraction mapped through `toFraction` when the invariant holds, and aborts on the assert when the name or surname is empty or the age is outside 21..120 |
| `HwProgram.Arity` | hw.cpp:160-207 | no count for load/save; `add` takes the command word plus one argument per record field (7), `update` one more for the index (8) |
| `HwProgram.BuildRecord` | hw.cpp:178 | the `add`/`update` record: an unparsable number ends the process by exception, a failed invariant by assert, otherwise a valid record with the given name, surname and fraction and the narrowed age, income and voices `stoul` gives |
| `HwProgram.Dispatch` | hw.cpp:127-237 | false exactly for an empty line, an unknown word, or a wrong argument count (clean 1, add 7, remove 2, update 8, view 1); load/save use `hw.data` with one argument and `args[1]` otherwise; a command that runs is the one its command word names; add/update records come from `args[1..6]`/`args[2..7]` |
| `HwProgram.DispatchCompletes` | hw.cpp:171-203 | with the right word and count, `add` runs with the record built from `args[1..6]`, `remove` with index `stoul(args[1])`, `update` with both; a `stoul` failure stops the process by exception, a failed invariant by assert |
| `HwProgram.AddUpdateNeverReject` | hw.cpp:171-203 | once `add` or `update` has the right argument count, the command never returns false |
| `HwProgram.PerformCommand` | hw.cpp:127-238 | the command's outcome and the collector's new state, for every decision `Dispatch` reaches |
| `HwProgram.SingleSlotListing` | hw.cpp:213-231 | one live slot is listed as row 0 with count 1; once removed, no row and count 0 |
| `HwProgram.SessionDecisions` | hw.cpp:171-231 | the lines `add Ivan Petrov 45 60000 EDRO 1200`, `view`, `remove 0`, `v` run add with that record, view, remove slot 0, view |
| `MainProgram.Invariant` | main.cpp:64-68 | fio non-empty and at most 50 bytes, age in 21..120; a valid fio therefore has 1 to 50 characters |
| `MainProgram.New` | main.cpp:74-77 | the typed constructor yields a record exactly when fio has 1 to 50 bytes and age is in 21..120, and stores the fields unchanged |
| `MainProgram.FromText` | main.cpp:79-87 | the text constructor narrows the numbers and maps the fraction text before the check; it yields a record exactly when fio has 1 to 50 bytes and the narrowed age is in 21..120 |
| `MainProgram.FromTextExamples` | main.cpp:64-87 | ages 15 and 200 fail construction; an unrecognised fraction name gives a record with `Unknown` |
| `MainProgram.FromTextCountsBytes` | main.cpp:67 | a Cyrillic fio of 34 characters fails construction, because it takes more than 50 bytes |
| `MainProgram.FromTextWrapsAge` | main.cpp:79-86 | an age of 2^32 + 45 passes the invariant as 45 |
| `MainProgram.Read` | main.cpp:110-119 | every decoded record satisfies the invariant and takes exactly the five fields of the layout |
| `MainProgram.Write` | main.cpp:95-103 | `write` emits five fields; for a valid record they are of the layout's kinds and within the byte limits `read` passes; `RoundTrip` with `ReadFields` fixes which field holds which value |
| `MainProgram.RoundTrip` | main.cpp:95-119 | `read(write(c) + rest)` gives back `c` and `rest` for every valid `c` with a known fraction |
| `MainProgram.ReadMalformedIff` | main.cpp:110-116 | `read` fails to decode exactly when the stream does not begin with string(50), number, number, string(20), number |
| `MainProgram.ReadFields` | main.cpp:110-119 | on well-formed fields, `read` yields the record with the fraction mapped through `toFraction` when the invariant holds, and aborts on the assert when fio is empty or the age is outside 21..120 |
| `MainProgram.Arity` | main.cpp:155-202 | no count for load/save; `add` takes the command word plus one argument per record field (6), `update` one more for the index (7) |
| `MainProgram.BuildRecord` | main.cpp:173 | the `add`/`update` record: an unparsable number ends the process by exception, a failed invariant by assert, otherwise a valid record with the given fio and fraction and the narrowed age, income and voices `stoul` gives |
| `MainProgram.Dispatch` | main.cpp:122-231 | false exactly for an empty line, an unknown word, or a wrong argument count (clean 1, add 6, remove 2, update 7, view 1); load/save use `hw.data` with one argument and `args[1]` otherwise; a command that runs is the one its command word names; add/update records come from `args[1..5]`/`args[2..6]` |
| `MainProgram.DispatchCompletes` | main.cpp:166-198 | with the right word and count, `add` runs with the record built from `args[1..5]`, `remove` with index `stoul(args[1])`, `update` with both; a `stoul` failure stops the process by exception, a failed invariant by assert |
| `MainProgram.AddUpdateNeverReject` | main.cpp:166-198 | once `add` or `update` has the right argument count, the command never returns false |
| `MainProgram.PerformCommand` | main.cpp:122-232 | the command's outcome and the collector's new state, for every decision `Dispatch` reaches |
| `MainProgram.SecondSlotListing` | main.cpp:208-225 | with the first of two slots removed, `view` lists only the second, still as row 1, with count 1 |
| `MainProgram.SessionDecisions` | main.cpp:166-225 | the lines `a Ivanov_I.P. 45 60000 EDRO 1200`, `a Petrov_P.P. 45 60000 KPRF 1200`, `r 0`, `view` run two adds with those records, remove slot 0, view |

`HwProgram.RemoveThenViewScenario` and `MainProgram.RemoveKeepsIndexScenario`
are client methods that pass short command sessions through `PerformCommand`
(add, view, remove, view). Their assertions about the printed rows and counts
are verified against the contracts above; nothing is executed.

## Left out

- The `main()` input loop (`hw.cpp:240-263`, `main.cpp:234-257`): reading lines from standard input and splitting them on whitespace. It is stream I/O. One quirk is not modelled: a line with trailing blanks repeats its last word.
- `stoul`: text-to-number conversion is a parameter of `Dispatch`, not a model of the C library. When arguments are evaluated out of order in `update`, the model takes the index's exception first. Either way the process ends.
- `loadCollection` and `saveCollection`: `collector.h` is not part of this model. For `l`/`s` the model records only which file name is handed over. The result of the file operation, and its effect on the collection, are not modelled.
- The byte-level codec (`writeString`, `readString`, `writeNumber`, `readNumber` in `collector.h`). Records are field tokens. A token of the wrong kind counts as a malformed stream. Host byte order is not modelled.
- `Collector.Collector.UpdateItem`: the model assumes that `updateItem` keeps the removed flag of the slot. `collector.h` is not part of this model.
- All `cout`/`cerr` message text. The `view` output is modelled as its rows (index and record) and its count.
- `FIO_REGEX` and `smatch m`: they are declared but never used by the invariant.
- `shared_ptr` ownership, the deleted copy constructors, and the `static_cast` in `view`.
- `c_str()` conversion: `>>` into a `std::string` stops only at whitespace, so a word can hold a NUL byte, and `c_str()` then cuts the text short at that byte (`hw.cpp:178`). The model passes the whole word to the constructor.
- Byte-level text: strings are sequences of Unicode characters and their size is their UTF-8 length. Input that is not valid UTF-8 is not modelled.
- The constructors' field-by-field assignment: a candidate is built as a whole value. No field is observable between the assignments.
