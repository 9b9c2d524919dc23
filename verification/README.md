# braindamage, modelled in Dafny

This project models the core of braindamage, a Brainfuck interpreter written in Rust. It has three parts.

- **The tape** (`src/state.rs`). A growable sequence of wrapping 32-bit cells with a checked, non-negative pointer.
  - `Tape` is the pure value. `Move`, `Get`, `Set` and `Add` say what each operation does to it.
  - The class `Tape.State` holds the same fields as the Rust struct. Its methods are proved to compute those functions.
  - Moving below address 0 is a `NegativeAddress` failure rather than a panic.
- **The engine** (`src/interpreter.rs`).
  - `Interpreter.Step` is one iteration of the main loop of `run`, over the machine `(i, tape, loops, skip, skipIndex, input, output)`.
  - `Interpreter.Exec` runs it under a fuel bound.
  - `Interpreter.Run` is the `run` loop itself, with its `continue` jump, proved to return `Exec`.
  - `InterpreterLemmas` states what the engine guarantees:
    - each instruction in each mode;
    - the loop-stack invariant;
    - exact failure conditions;
    - skip-scan correctness: a loop entered with a zero cell runs nothing, however deeply it nests.
- **The value streams** (`src/stream.rs`).
  - The 4-byte little-endian record encoding, with both round trips.
  - The pure parts of the console, file and null backends.
  - `Stream.MemoryStream`, a FIFO queue of `i32` records that is also a byte stream:
    - `Write` gathers bytes four at a time into records;
    - `Read` walks a cursor through the bytes of the front record.
    - Both are specified against `Pending()`, the bytes a reader would see, and against the `Bytes`/`Values` groupings.
  - `InputInterface` and `OutputInterface` are two views of one stream.
  - The source's unit tests appear as methods whose contracts are the tests' expected results.

Files:
- `wrappers.dfy`: `Result` and `Outcome`.
- `words.dfy`: `Int32`, `Byte` and 32-bit wrap-around.
- `state.dfy`, `interpreter.dfy`, `interpreter_lemmas.dfy` and `stream.dfy`: the model itself.

## Model

| member | source | states |
|---|---|---|
| Words.Wrap32 | src/state.rs:61-63 | The wrapped sum is the unique `i32` congruent to the exact sum modulo 2^32, and it equals the exact sum when that fits in `i32` |
| Words.Wrap32Add | src/state.rs:61-71 | Two successive wrapping additions equal one wrapping addition of their total |
| Words.WrapAtBounds | src/state.rs:112-120 | `i32::MAX + 1` wraps to `i32::MIN` (negative) and `i32::MIN - 1` wraps to `i32::MAX` (positive) |
| Tape.Fresh | src/state.rs:22-29 | The tape of `State::new`: pointer 0 on a single cell holding 0, so the pointer addresses a cell |
| Tape.Move | src/state.rs:31-39 | Moving fails (`NegativeAddress`) exactly when the new pointer would be negative. Otherwise the pointer moves by `delta` and stays inside the tape. The length becomes `max(old length, pointer + 1)`, the old cells are kept and the appended cells are 0 |
| Tape.Get | src/state.rs:53-55 | The cell under the pointer; it has no contract of its own and specifies `State.GetValue` |
| Tape.Set | src/state.rs:49-51 | The current cell then reads back the stored value, and every other cell and the length are unchanged |
| Tape.Add | src/state.rs:61-63 | The current cell changes by `delta` modulo 2^32, and every other cell and the length are unchanged |
| Tape.AddAllNet | src/state.rs:61-71 | Wrap-around law: any run of `+`/`-` at a fixed pointer leaves the cell at the wrapped net sum and the other cells as they were |
| Tape.AddAdd | src/state.rs:61-71 | Two additions at the same pointer equal one addition of their total, wrap-around included |
| Tape.AddWrapsAtBounds | src/state.rs:112-120 | Incrementing `i32::MAX` gives `i32::MIN < 0`; decrementing `i32::MIN` gives `i32::MAX > 0` |
| Tape.WalkLength | src/state.rs:31-39 | After any sequence of successful moves the tape has only grown. Its length is `max(old length, highest address visited + 1)` and the old cells are kept |
| Tape.State.constructor | src/state.rs:22-29 | A new tape has pointer 0 and exactly one cell, holding 0 |
| Tape.State.AddToPointer | src/state.rs:31-39 | Success leaves the object holding `Move`'s tape. This is proved through the zero-appending loop's invariants. Failure reports `NegativeAddress` and changes nothing |
| Tape.State.IncrementPointer | src/state.rs:41-43 | The tape becomes `Move(t, 1)`, which never fails |
| Tape.State.DecrementPointer | src/state.rs:45-47 | Fails exactly when the pointer is 0; otherwise the tape becomes `Move(t, -1)` |
| Tape.State.SetValue | src/state.rs:49-51 | The tape becomes `Set(t, v)` |
| Tape.State.GetValue | src/state.rs:53-55 | Returns the cell under the pointer |
| Tape.State.AddToValue | src/state.rs:61-63 | The tape becomes `Add(t, delta)` |
| Tape.State.IncrementValue | src/state.rs:65-67 | The tape becomes `Add(t, 1)` |
| Tape.State.DecrementValue | src/state.rs:69-71 | The tape becomes `Add(t, -1)` |
| Tape.MemoryGrowth | src/state.rs:78-89 | Tape lengths 1, 2, 12 and then 22, the last after ten steps right and ten back left |
| Tape.Persistence | src/state.rs:91-101 | A stored 42 survives a visit to the next cell, and that cell keeps its own increment (1) |
| Tape.InitZero | src/state.rs:103-109 | The first cell and a newly grown cell read 0 |
| Tape.WrapOn32Bits | src/state.rs:111-120 | `MAX + 1` reads negative and `MIN - 1` reads positive |
| Tape.NegativeIndex | src/state.rs:122-127 | Stepping left from a new tape fails with `NegativeAddress` |
| Interpreter.Normalize | src/interpreter.rs:13 | One entry per source character. ASCII characters are kept and every non-ASCII character becomes `_` |
| Interpreter.Start | src/interpreter.rs:8-12 | The engine before its first iteration: a fresh tape, an empty loop stack, normal mode, position 0, nothing printed |
| Interpreter.Step | src/interpreter.rs:15-53 | A successful step keeps the pointer inside the tape. Its behaviour for every instruction in both modes is stated by `OpenBracket`, `CloseBracket`, `SkipTouchesNoData`, `SkipEndsAtMatch`, `UnbalancedExactly` and `DataInstructions` |
| Interpreter.Exec | src/interpreter.rs:14-54 | The main `while i < buffer.len()` loop under a fuel bound. It has no contract of its own; `Run` is proved to compute it, and `ExecKeepsLoopStack`, `ExecFailedAt`, `ExecFinishedPastEnd`, `ArithmeticRun` and `SkippedLoopRunsNothing` state what it does |
| Interpreter.Run | src/interpreter.rs:7-55 | The mutable loop returns exactly `Exec(Normalize(code), Start(input), fuel)`: the same end state, failure or fuel exhaustion |
| InterpreterLemmas.OpenBracket | src/interpreter.rs:36-41 | `[` always pushes its own position, in both modes. In normal mode skip starts exactly when the cell is 0, with `skipIndex` at this `[`. The data is untouched |
| InterpreterLemmas.SkipTouchesNoData | src/interpreter.rs:17-24 | While skipping, tape, input and output are untouched and the position advances by 1. Only brackets change the stack, and the only possible failure is `UnbalancedLoop` |
| InterpreterLemmas.SkipEndsAtMatch | src/interpreter.rs:20-23 | A skipped `]` pops the stack. Skip mode ends exactly when the popped position is `skipIndex`, and execution resumes at the next position |
| InterpreterLemmas.CloseBracket | src/interpreter.rs:43-49 | A normal-mode `]` pops its start. A nonzero cell jumps to that `[` itself with no extra advance; a zero cell moves on by 1 |
| InterpreterLemmas.UnbalancedExactly | src/interpreter.rs:21 | A step fails with `UnbalancedLoop` if and only if it is a `]` with an empty loop stack, in either mode |
| InterpreterLemmas.DataInstructions | src/interpreter.rs:27-35 | Each gives the whole next machine. `,` stores the next input byte (0..255), or 0 at end of input, consumes it and advances; nothing else changes. `.` succeeds exactly when the cell is a Unicode scalar value, and then only appends it to the output and advances; otherwise it fails with `UnprintableValue`. `<` fails exactly at pointer 0 and otherwise moves the tape by `Move(t, -1)`; `>` moves it by `Move(t, 1)`. `+`/`-` add ±1. Every character outside `<>+-.,[]` only advances the position |
| InterpreterLemmas.NegativeUnprintable | src/interpreter.rs:31 | A negative cell is never printed: `.` fails with `UnprintableValue` |
| InterpreterLemmas.StackPush | src/interpreter.rs:36-41 | Pushing the current `[` keeps the stack increasing, made of `[` positions and below the next position |
| InterpreterLemmas.StackPop | src/interpreter.rs:43-47 | After a pop the rest of the stack lies below both the next position and the popped `[` |
| InterpreterLemmas.StepKeepsLoopStack | src/interpreter.rs:14-53 | Every step preserves the invariant. The stack is strictly increasing and each entry indexes a `[` before `i`. While skipping, `skipIndex` is on the stack |
| InterpreterLemmas.SkipNeverUnbalanced | src/interpreter.rs:17-24 | Under the invariant, a skipped `]` never meets an empty stack |
| InterpreterLemmas.ExecKeepsLoopStack | src/interpreter.rs:14-54 | Every machine a run reaches keeps the loop-stack invariant |
| InterpreterLemmas.ExecFinishedPastEnd | src/interpreter.rs:14 | A run that finishes has its position at or past the end of the program |
| InterpreterLemmas.ArithmeticRun | src/interpreter.rs:29-30 | A stretch of `+` and `-` in normal mode takes one iteration per character and leaves the cell at the wrapped net sum, the rest of the machine as it was |
| InterpreterLemmas.ExecFailedAt | src/interpreter.rs:14-54 | A failed run reports the machine at the failing instruction and that instruction's error |
| InterpreterLemmas.RunUnbalancedOnlyInNormalMode | src/interpreter.rs:43-44 | A run from the start fails with `UnbalancedLoop` only at a normal-mode `]` with an empty stack |
| InterpreterLemmas.ScanSegment | src/interpreter.rs:17-24 | Scanning a stretch in skip mode costs one iteration per character and keeps skip mode. It leaves the data alone and never touches the stack below the skipped `[`, and it counts brackets as nesting depth |
| InterpreterLemmas.SkipStep | src/interpreter.rs:17-24 | One skipped character inside a nested stretch: `[` pushes, `]` pops a nested entry and skip mode persists |
| InterpreterLemmas.SkippedLoopRunsNothing | src/interpreter.rs:36-41 | A loop entered with a zero cell executes nothing up to its matching `]`, whatever its nesting and comments. The run resumes after that `]` with the same tape, input, output and loop stack |
| InterpreterLemmas.ArithmeticThenPrint | src/interpreter.rs:27-31 | `--++++++><++++++-+.` on a new tape finishes having printed exactly 10 |
| InterpreterLemmas.ZeroLoopPrintsNothing | src/interpreter.rs:36-41 | `[.]` on a new tape finishes with no output |
| InterpreterLemmas.EndOfInputReadsZero | src/interpreter.rs:32-35 | `+++.,.` with no input prints 3 then 0 |
| InterpreterLemmas.LeftOfOriginFails | src/interpreter.rs:27 | `<` on a new tape fails with `NegativeAddress` before printing anything |
| InterpreterLemmas.NegativeOutputFails | src/interpreter.rs:31 | `-.` fails at the `.` with `UnprintableValue(-1)` |
| Stream.Encode | src/stream.rs:122 | The four bytes of a value, least significant first |
| Stream.Decode | src/stream.rs:180 | The value of four little-endian bytes, as two's complement; it has no contract of its own, and `DecodeEncode`/`EncodeDecode` prove it inverse to `Encode` |
| Stream.DecodeEncode | src/stream.rs:118-127 | Decoding the 4 little-endian bytes of any `i32` gives the value back |
| Stream.EncodeDecode | src/stream.rs:83-92 | Encoding the value of any 4 bytes gives the bytes back |
| Stream.ValuesOfBytes | src/stream.rs:171-188 | The records of the byte stream of a record sequence are that sequence |
| Stream.BytesOfValues | src/stream.rs:143-168 | Every whole-group byte stream is the byte stream of its records |
| Stream.BytesAppend | src/stream.rs:143-168 | The byte stream of concatenated records is the concatenation of their byte streams |
| Stream.ValuesAppend | src/stream.rs:171-188 | The records of concatenated whole-group byte streams are the concatenation of their records |
| Stream.StdinValue | src/stream.rs:77-81 | One input byte widened to `i32` lies in 0..255 and encodes as that byte followed by zeros |
| Stream.StdoutByte | src/stream.rs:110-116 | `value as u8` is the value modulo 256, i.e. its first little-endian byte |
| Stream.EmptyReadValue | src/stream.rs:104-108 | `io::Empty` always reports `UnexpectedEof` |
| Stream.SinkWriteValue | src/stream.rs:135-139 | `io::Sink` accepts every value |
| Stream.WholeGroups | src/stream.rs:176-184 | The bytes that form complete records: a multiple of 4, with fewer than 4 left over |
| Stream.MemoryStream.constructor | src/stream.rs:196-205 | A new stream has an empty queue, an empty byte buffer, cursor 0 and nothing to read |
| Stream.MemoryStream.ReadValue | src/stream.rs:94-102 | Removes and returns the front record, or reports `UnexpectedEof` on an empty queue. The byte cursor and buffer are untouched |
| Stream.MemoryStream.WriteValue | src/stream.rs:128-133 | Appends the record at the back of the queue |
| Stream.MemoryStream.NextByte | src/stream.rs:147-163 | One iteration of the copy loop. It returns the first pending byte and removes it. `ended` reports exactly that nothing is left |
| Stream.MemoryStream.Read | src/stream.rs:143-169 | Returns `min(buf.len(), pending bytes)` and copies that many pending bytes in order. It stops early right after the last byte of the last record, and bytes of `buf` beyond the count are unchanged. The write buffer is untouched |
| Stream.MemoryStream.Write | src/stream.rs:171-189 | Takes all of `buf` and returns its length. Every complete group of 4 buffered bytes becomes one little-endian record at the back of the queue. Fewer than 4 leftover bytes stay in the buffer, and no byte is lost |
| Stream.MemoryStream.Flush | src/stream.rs:190-192 | Always succeeds |
| Stream.NothingPending | src/stream.rs:145 | Nothing is left to read exactly when the queue is empty and the cursor is at 0, the only case where `read` into a non-empty buffer returns 0 |
| Stream.PendingDetermines | src/stream.rs:143-169 | The pending bytes alone fix the cursor (`(4 - len % 4) % 4`) and the record queue (the records of the whole groups after the incomplete head), so byte reads and value reads work on one queue |
| Stream.LoadRecord | src/stream.rs:148-150 | Loading the front record when the cursor is at 0 does not change the pending bytes |
| Stream.TakeByte | src/stream.rs:151-162 | Taking the byte under the cursor removes exactly the first pending byte, and the cursor wraps to 0 after the fourth byte |
| Stream.CompleteGroup | src/stream.rs:176-184 | Turning 4 buffered bytes into a record extends the byte view by exactly those bytes |
| Stream.WriteGroups | src/stream.rs:172-188 | Records plus leftover bytes determine the split: the records are the decoding of the whole groups and the leftover is the tail |
| Stream.InputInterface.constructor | src/stream.rs:36-40 | The view reads from the given stream |
| Stream.InputInterface.ReadValue | src/stream.rs:23-27 | Same contract as `MemoryStream.ReadValue` on the shared stream |
| Stream.InputInterface.Read | src/stream.rs:29-33 | Same contract as `MemoryStream.Read` on the shared stream |
| Stream.OutputInterface.constructor | src/stream.rs:63-67 | The view writes to the given stream |
| Stream.OutputInterface.WriteValue | src/stream.rs:47-51 | Same contract as `MemoryStream.WriteValue` on the shared stream |
| Stream.OutputInterface.Write | src/stream.rs:53-56 | Same contract as `MemoryStream.Write` on the shared stream |
| Stream.OutputInterface.Flush | src/stream.rs:57-59 | Always succeeds |
| Stream.ValueRoundTrip | src/stream.rs:223-228 | Values written with `write_value` come back from `read_value` in the same order (FIFO) |
| Stream.ReadThenValue | src/stream.rs:94-102 | After a byte `read` of `n` bytes, `read_value` returns the first whole record after the unread rest of the current record, or `UnexpectedEof` when none remains |
| Stream.ReadAllBytes | src/stream.rs:236-238 | Iterating over `bytes()` of the input view yields exactly the pending bytes, in order, and leaves nothing to read |
| Stream.WriteAndRead | src/stream.rs:214-221 | Bytes 0, 1, 2, 3 written to a bare stream are read back one at a time as 0, 1, 2, 3 |
| Stream.DrainBytes | src/stream.rs:218-220 | Iterating over `bytes()` of a bare stream yields exactly the pending bytes, in order, and leaves nothing to read |
| Stream.InterfacesRoundTrip | src/stream.rs:230-239 | Any whole number of 4-byte groups written through the output view is read back byte for byte, in order, through the input view |
| Stream.WriteEach | src/stream.rs:241-248 | However bytes are split across writes, the records and leftover bytes are those of a single write of all of them |
| Stream.PartialWrite | src/stream.rs:241-252 | Pieces of 1, 2, 2, 3 and 3 bytes give records `0x03020100` and `0x07060504`, then `UnexpectedEof`. The 3 stray bytes are never readable as a value |
| Stream.TwoGroups | src/stream.rs:244-250 | The test's 11 bytes hold exactly two whole records, `0x03020100` and `0x07060504` |
| Stream.ReadZeroed | src/stream.rs:259-261 | A read into a fresh zero-filled buffer leaves the pending bytes it copied, then zeros |
| Stream.ReadEach | src/stream.rs:254-275 | Successive reads give the counts and buffer contents that `ReadPieces` computes from the pending bytes |
| Stream.PartialRead | src/stream.rs:254-275 | Reads of 1, 2, 2 and 4 bytes over two records return 1, 2, 2 and 3. The buffers hold `[0]`, `[1, 2]`, `[3, 4]` and `[5, 6, 7, 0]` |
| Stream.TestReads | src/stream.rs:259-274 | Computes those counts and contents from the 8 pending bytes |

## Left out

- Integer width of the pointer: `State` keeps the pointer as an unbounded `nat`. The source's `i32` pointer could overflow in `add_to_pointer`, but only ±1 moves are reachable from the engine.
- Tape.State.AddToPointer: on failure the model leaves the object unchanged. The source has already stored the negative pointer when it panics; the process ends there, so nothing observes the difference.
- Panics become results: the panics of `State` (negative address) and the `unwrap`s of the engine (`loops.pop()`, `char::from_u32`) are `Failure` results carrying `NegativeAddress`, `UnbalancedLoop` or `UnprintableValue`.
- Console output of `.`: printing the character and its UTF-8 encoding is I/O. The model appends the cell value to `output` when `char::from_u32` would accept it, and fails otherwise.
  - If `.` emitted any integer value, `---.` would print -3.
  - The code instead panics on a negative or surrogate cell, and the model follows the code (`NegativeOutputFails`).
- Reading for `,`: the input object of `src/input.rs` (files or stdin) is a byte sequence in the model, and end of input reads 0. Its I/O errors are left out; `src/input.rs` is not part of this model.
- Non-termination: a program may loop forever, so `Exec` and `Run` carry a fuel bound and report `OutOfFuel` when it runs out. Runs longer than the fuel are not described.
- The nested-loop example `+++++>++>++++<<[.>[->[->[]<.]<.]<-]`, which prints `5 3 2 1 0 1 0 4 3 2 1`, is not computed: it takes too many iterations to unfold as one concrete run. No lemma states its output; the per-instruction and loop lemmas describe each of its steps.
- OS plumbing of `Stdin`, `File` and `Stdout`: reading and writing the OS streams, and the `unwrap` panics at end of file, are I/O. Only their pure encodings are modelled (`StdinValue`, `Encode`/`Decode`, `StdoutByte`).
- Byte order: `transmute` uses the machine's native order. The model fixes it to little-endian, which is the order the tests require.
- Shared ownership: the `RefCell<Box<dyn InputOutput>>` that both interfaces borrow is one `MemoryStream` object referenced by both views. Dynamic borrow checking is not modelled.
- The `Input`, `Output` and `InputOutput` traits: the backends are separate functions and classes rather than implementations of one interface.
- `write_all` in the tests is modelled as a single `write`, which always takes the whole buffer.
- In `PartialRead` each read uses a fresh zero-filled buffer. The test reuses its 2-byte buffer, but both reads into it overwrite both bytes.
- `position: i8` is a `nat` kept below 4 by `MemoryStream.Valid`.
- `Display` for `State` and the `get_pointer` accessor are formatting helpers; `Vec::with_capacity(30000)` is an allocation hint.
- `src/main.rs` is not part of this model: it only loads the program and calls `run`.
