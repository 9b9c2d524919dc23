/** The execution engine of `src/interpreter.rs`: character normalisation,
    one-character-at-a-time dispatch, and the loop stack with its skip mode
    for loops whose cell is zero on entry.

    `Step` specifies one iteration of the engine's main loop, `Exec` runs it
    under a fuel bound (a program may loop forever), and the method `Run` is
    the engine itself, proved to compute `Exec`. */
module Interpreter {
  import opened Words
  import opened Wrappers
  import Tape

  /** The engine's fatal conditions: `<` at address 0, a `]` with an empty
      loop stack (the `unwrap` of `loops.pop()`), and a `.` whose cell is not
      a Unicode scalar value (the `unwrap` of `char::from_u32`). */
  datatype Error = NegativeAddress | UnbalancedLoop | UnprintableValue(value: Int32)

  /** The variables of the main loop of `run`, plus the input still unread and
      the values printed so far. */
  datatype Machine = Machine(
    i: nat,
    tape: Tape.Tape,
    loops: seq<nat>,
    skip: bool,
    skipIndex: nat,
    input: seq<Byte>,
    output: seq<Int32>)

  datatype RunResult =
    | Finished(m: Machine)
    | Failed(error: Error, m: Machine)
    | OutOfFuel(m: Machine)

  predicate IsAscii(c: char) {
    c as int < 0x80
  }

  /** The program vector: one entry per character of the source, every
      non-ASCII character replaced by `_`. */
  function Normalize(code: string): (prog: string)
    ensures |prog| == |code|
    ensures forall k :: 0 <= k < |prog| ==> IsAscii(prog[k])
    ensures forall k :: 0 <= k < |code| && IsAscii(code[k]) ==> prog[k] == code[k]
    ensures forall k :: 0 <= k < |code| && !IsAscii(code[k]) ==> prog[k] == '_'
  {
    if code == [] then []
    else [if IsAscii(code[0]) then code[0] else '_'] + Normalize(code[1..])
  }

  /** The values `char::from_u32` accepts once the cell is cast to `u32`;
      a negative cell casts to at least 2^31 and is refused too. */
  predicate IsScalarValue(v: int) {
    0 <= v < 0xD800 || 0xE000 <= v <= 0x10FFFF
  }

  /** The engine before its first iteration. */
  function Start(input: seq<Byte>): (m: Machine)
    ensures m.tape.Valid()
  {
    Machine(0, Tape.Fresh(), [], false, 0, input, [])
  }

  function Last(s: seq<nat>): nat
    requires s != []
  {
    s[|s| - 1]
  }

  function DropLast(s: seq<nat>): seq<nat>
    requires s != []
  {
    s[..|s| - 1]
  }

  /** One iteration of the main loop: the instruction at `m.i`. */
  function Step(prog: string, m: Machine): (r: Result<Machine, Error>)
    requires m.i < |prog| && m.tape.Valid()
    ensures r.Success? ==> r.value.tape.Valid()
  {
    var c := prog[m.i];
    if m.skip then
      if c == '[' then Success(m.(i := m.i + 1, loops := m.loops + [m.i]))
      else if c == ']' then
        if m.loops == [] then Failure(UnbalancedLoop)
        else Success(m.(i := m.i + 1, loops := DropLast(m.loops), skip := Last(m.loops) != m.skipIndex))
      else Success(m.(i := m.i + 1))
    else if c == '<' || c == '>' then
      match Tape.Move(m.tape, if c == '<' then -1 else 1)
      case Failure(_) => Failure(NegativeAddress)
      case Success(t) => Success(m.(i := m.i + 1, tape := t))
    else if c == '+' || c == '-' then
      Success(m.(i := m.i + 1, tape := Tape.Add(m.tape, if c == '+' then 1 else -1)))
    else if c == '.' then
      var v := Tape.Get(m.tape);
      if IsScalarValue(v) then Success(m.(i := m.i + 1, output := m.output + [v]))
      else Failure(UnprintableValue(v))
    else if c == ',' then
      if m.input == [] then Success(m.(i := m.i + 1, tape := Tape.Set(m.tape, 0)))
      else Success(m.(i := m.i + 1, tape := Tape.Set(m.tape, m.input[0]), input := m.input[1..]))
    else if c == '[' then
      var zero := Tape.Get(m.tape) == 0;
      Success(m.(i := m.i + 1, loops := m.loops + [m.i], skip := zero,
                 skipIndex := if zero then m.i else m.skipIndex))
    else if c == ']' then
      if m.loops == [] then Failure(UnbalancedLoop)
      else if Tape.Get(m.tape) != 0 then Success(m.(i := Last(m.loops), loops := DropLast(m.loops)))
      else Success(m.(i := m.i + 1, loops := DropLast(m.loops)))
    else Success(m.(i := m.i + 1))
  }

  /** Runs at most `fuel` iterations. `Failed` carries the machine as it was
      when the failing instruction was reached. */
  function Exec(prog: string, m: Machine, fuel: nat): RunResult
    requires m.tape.Valid()
    decreases fuel
  {
    if m.i >= |prog| then Finished(m)
    else if fuel == 0 then OutOfFuel(m)
    else match Step(prog, m)
      case Failure(e) => Failed(e, m)
      case Success(m') => Exec(prog, m', fuel - 1)
  }

  /** `run`, with the input as a byte sequence and the printed values
      collected in `output`; `fuel` bounds the number of iterations. */
  method Run(code: string, input: seq<Byte>, fuel: nat) returns (r: RunResult)
    ensures r == Exec(Normalize(code), Start(input), fuel)
  {
    var state := new Tape.State();
    var loops: seq<nat> := [];
    var skip := false;
    var skipIndex: nat := 0;
    var i: nat := 0;
    var buffer := Normalize(code);
    var unread := input;
    var output: seq<Int32> := [];
    var left := fuel;
    ghost var goal := Exec(buffer, Start(input), fuel);
    while i < |buffer|
      invariant state.Valid()
      invariant Exec(buffer, Machine(i, state.Value(), loops, skip, skipIndex, unread, output), left) == goal
      decreases left
    {
      var m := Machine(i, state.Value(), loops, skip, skipIndex, unread, output);
      if left == 0 {
        return OutOfFuel(m);
      }
      var instruction := buffer[i];
      if skip {
        if instruction == '[' {
          loops := loops + [i];
        } else if instruction == ']' {
          if loops == [] {
            return Failed(UnbalancedLoop, m);
          }
          var top := loops[|loops| - 1];
          loops := loops[..|loops| - 1];
          if top == skipIndex {
            skip := false;
          }
        }
      } else {
        match instruction {
        case '<' =>
          var o := state.DecrementPointer();
          if o.Fail? {
            return Failed(NegativeAddress, m);
          }
        case '>' =>
          state.IncrementPointer();
        case '+' =>
          state.IncrementValue();
        case '-' =>
          state.DecrementValue();
        case '.' =>
          var v := state.GetValue();
          if !IsScalarValue(v) {
            return Failed(UnprintableValue(v), m);
          }
          output := output + [v];
        case ',' =>
          var data: Byte := 0;
          if unread != [] {
            data := unread[0];
            unread := unread[1..];
          }
          state.SetValue(data);
        case '[' =>
          var v := state.GetValue();
          if v == 0 {
            skip := true;
            skipIndex := i;
          }
          loops := loops + [i];
        case ']' =>
          if loops == [] {
            return Failed(UnbalancedLoop, m);
          }
          var start := loops[|loops| - 1];
          loops := loops[..|loops| - 1];
          var v := state.GetValue();
          if v != 0 {
            i := start;
            left := left - 1;
            assert Step(buffer, m) == Success(Machine(i, state.Value(), loops, skip, skipIndex, unread, output));
            continue;
          }
        case _ =>
        }
      }
      assert Step(buffer, m) == Success(Machine(i + 1, state.Value(), loops, skip, skipIndex, unread, output));
      i := i + 1;
      left := left - 1;
    }
    return Finished(Machine(i, state.Value(), loops, skip, skipIndex, unread, output));
  }
}
