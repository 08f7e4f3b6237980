# SafeStruct benchmark core, modelled in Dafny

The program measures how a record of two lock-protected `int` slots
(`SafeStruct`) behaves when one to three worker threads replay operation
traces against it. This project models the sequential meaning of the pieces
below the threads and the clock:

- `text.dfy` (module `Text`): C++ `int` as a 32-bit subset type, `std::to_string`
  for it (`Decimal`), and the two formatted extractions the trace parser uses,
  `iss >> word` (`SplitWord`) and `iss >> n` for an `int` (`ReadInt`), with the
  "C" locale's whitespace.
- `record.dfy` (module `Record`): the record as a class over a two-element
  `array<int32>`, with `Set`, `Get` and the string conversion `ToString`.
  The pure functions `Load`, `Store` and `Snapshot` say what each does to the
  abstract value (`Slots`). A lock acquisition and its release do nothing here.
- `trace.dfy` (module `Trace`): the operations `Op` and `Action`, and
  `Execute`, which applies a trace to one record in order. `Replay` is the
  fold that specifies it.
- `trace_file.dfy` (module `TraceFile`): the trace line format. `EncodeOp` maps
  an operation type to the line the generator writes. `DecodeLine` and
  `Decode` give the parser's meaning. `GenerateLines` and `ParseLines` are the
  two loops. The round-trip lemmas connect the encoder and the decoder.
- `partition.dfy` (module `Partition`): how an operation count is split into
  `t` per-worker piece sizes.

Two points of the code are easy to miss:
- The parser keeps or skips a line on its first word alone
  (main.cpp:81-91). A `read` or `write` line whose integers are missing or
  malformed still yields an action, and `DecodeCommand` does the same.
- The string conversion of the record (main.cpp:31-37) returns the text
  `"<d0> <d1>"`, and so does `ToString`. `SnapshotReadsBack` proves that both
  values can be read back from it.

## Model

| member | source | states |
|---|---|---|
| Record.SafeStruct.constructor | main.cpp:15 | a new record holds 0 in both slots, so `get` of either field returns 0 |
| Record.SafeStruct.Set | main.cpp:19-23 | an out-of-range field leaves both slots unchanged; a valid field stores the value in that slot and the other slot keeps its old value |
| Record.SafeStruct.Get | main.cpp:25-29 | returns 0 for an out-of-range field and the stored slot value otherwise; no `modifies` clause, so the record is unchanged |
| Record.SafeStruct.ToString | main.cpp:31-37 | the snapshot is slot 0 in decimal, one space, slot 1 in decimal; the record is unchanged |
| Record.LoadStore | main.cpp:19-29 | a `get` after a `set` returns the stored value on the same valid field and the earlier value on any other field; an ignored `set` changes no `get` |
| Record.SnapshotReadsBack | main.cpp:36 | reading two integers back from the snapshot string yields slot 0, then slot 1, and consumes the whole string |
| Text.SplitWord | main.cpp:79-81 | `iss >> cmd` splits the line after leading whitespace into the word and a remainder that is empty or starts with whitespace |
| Text.SplitWordIsWord | main.cpp:81 | the word taken by `iss >> cmd` contains no whitespace |
| Text.SkipSpaceDropsSpace | main.cpp:81 | before taking the word, `iss >> cmd` drops exactly a prefix made of whitespace and keeps the rest of the line unchanged |
| Text.ReadInt | main.cpp:84 | a successful integer extraction consumes at least one character and stops before the next digit |
| Text.ReadDecimal | main.cpp:36 | the integer reader applied to `std::to_string(n)` followed by a non-digit returns `n` and stops right after the number |
| Text.ReadSpacedDecimal | main.cpp:84 | the same with whitespace before the number, as it stands in a trace line |
| Trace.Execute | main.cpp:97-109 | the record after `execute` is `Replay` of the old record over the actions: each action applied in order, READ through `get`, WRITE through `set`, STR through the string conversion |
| Trace.ReplayAppend | main.cpp:98 | replaying a concatenation equals replaying the first part and then the second, so actions take effect strictly in trace order |
| Trace.ReplayWrites | main.cpp:99-107 | the final record equals the record after the trace's WRITE actions alone, applied in sequence |
| Trace.ReplayWithoutWrites | main.cpp:99-107 | a trace with no WRITE actions leaves the record unchanged; this includes the empty trace |
| Trace.ReplayLastWrite | main.cpp:97-109 | each valid slot ends with the value of the last WRITE to it, or keeps its initial value if no action writes it |
| Trace.WriteThenRead | main.cpp:97-109 | one worker running WRITE 0 7 then READ 0 on a fresh record leaves slot 0 equal to 7 |
| TraceFile.DecodeLine | main.cpp:79-92 | a line yields an action exactly when its first word is `read`, `write` or `string`; that word gives the operation READ, WRITE or STR respectively; a yielded action carries the struct defaults where the parser sets no value |
| TraceFile.DecodeCommand | main.cpp:82-92 | the dispatch on the first word yields an action exactly for the three command words, with READ for `read`, WRITE for `write` and STR for `string` |
| TraceFile.ParseLines | main.cpp:77-94 | the parsing loop returns exactly `Decode` of the lines |
| TraceFile.DecodeAppend | main.cpp:78-93 | parsing goes line by line: the actions of two consecutive blocks of lines are the first block's actions followed by the second's |
| TraceFile.DecodeLength | main.cpp:78-93 | the number of actions equals the number of lines whose first word is a command, and never exceeds the number of lines |
| TraceFile.ReadLineRoundTrip | main.cpp:82-85 | `read <field>` parses back to READ of that field |
| TraceFile.WriteLineRoundTrip | main.cpp:86-89 | `write <field> <value>` parses back to WRITE of that value to that field |
| TraceFile.FormatRoundTrip | main.cpp:82-92 | every well-formed line of each of the three shapes parses back to the action it was formatted from |
| TraceFile.LineRoundTrip | main.cpp:60-66 | each generated line for op_type 0..4 (and the default branch) parses back to READ 0, WRITE 0 1, READ 1, WRITE 1 1 or STR |
| TraceFile.GenerateLines | main.cpp:58-67 | the generator writes one line per drawn operation type, in order, each being that type's line |
| TraceFile.TraceRoundTrip | main.cpp:58-67 | a whole generated trace parses back to one action per line, in order, each the intended action |
| Partition.SplitWork | main.cpp:137-140 | piece `i` gets `num_ops / t`, plus one when `i < num_ops % t`, for each of the `t` pieces, and the sizes sum to `num_ops` |
| Partition.PiecesSum | main.cpp:137-140 | the first `k` pieces hold `k * (num_ops / t)` operations plus one for each of them among the first `num_ops % t` |
| Partition.PartitionExact | main.cpp:137-140 | the `t` piece sizes sum exactly to `num_ops` |
| Partition.PiecesBalanced | main.cpp:140 | sizes never increase from one piece to the next, and any two sizes differ by at most one |

## Left out

- Concurrency: the mutexes, `std::unique_lock`, the deadlock-avoiding `std::lock` in the string conversion, and the thread spawn and join of `run_once` (main.cpp:16, 21, 27, 32-34, 111-119). Locks are treated as no-ops. Interleavings, absence of torn reads and freedom from deadlock cannot be stated in this sequential model.
- Timing and averaging: `measure_time` and the `double` mean in `measure_all` (main.cpp:121-127, 149-174) depend on the wall clock and on floating point.
- Random trace generation: `std::random_device`, `mt19937` and `discrete_distribution` (main.cpp:49-51, 59) are library code. `GenerateLines` takes the drawn operation types as its input.
- File I/O and its error messages (main.cpp:53-57, 72-76): `ParseLines` takes the lines of the file, already split by `getline` and without their newlines. `GenerateLines` returns the lines instead of writing them.
- TraceFile.DecodeCommand: when an integer extraction fails, the model uses 0 for that field or value. The C++ library stores 0 when no digits are found, stores `INT_MAX` or `INT_MIN` on overflow, and leaves the variable uninitialised when the stream has already failed or is at its end. Only lines with well-formed integer tokens have a fully determined meaning, and the round-trip lemmas are stated for those.
- Text.ReadInt: it models decimal extraction in the "C" locale (optional sign, digits, 32-bit range); locale-specific grouping and other bases are not modelled.
- The loops over thread counts and variants in `generate_all_files` and `measure_all`, the file names (main.cpp:141-142, 163-164), `print_results` and `main` (main.cpp:176-212) are configuration and presentation. Only the piece-size formula is modelled (`Partition`).
