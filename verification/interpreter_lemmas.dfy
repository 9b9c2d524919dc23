/** What the engine of `src/interpreter.rs` guarantees, stated about the
    specification `Step` / `Exec` that `Interpreter.Run` is proved to compute. */
module InterpreterLemmas {
  import opened Words
  import opened Wrappers
  import Tape
  import opened Interpreter

  /** The machine's data: everything an instruction other than a bracket
      may touch. */
  predicate SameData(m: Machine, m': Machine) {
    m'.tape == m.tape && m'.input == m.input && m'.output == m.output
  }

  // ---------------------------------------------------------------------
  // Single instructions

  /** `[` pushes its own position in both modes; in normal mode a zero cell
      starts skip mode with `skipIndex` at this `[`. */
  lemma OpenBracket(prog: string, m: Machine)
    requires m.i < |prog| && m.tape.Valid() && prog[m.i] == '['
    ensures Step(prog, m).Success?
    ensures var m' := Step(prog, m).value;
      && m'.loops == m.loops + [m.i]
      && m'.i == m.i + 1
      && SameData(m, m')
      && (m.skip ==> m'.skip && m'.skipIndex == m.skipIndex)
      && (!m.skip ==> (m'.skip <==> Tape.Get(m.tape) == 0))
      && (!m.skip && m'.skip ==> m'.skipIndex == m.i)
      && (!m.skip && !m'.skip ==> m'.skipIndex == m.skipIndex)
  {
  }

  /** In skip mode nothing but the position and the loop stack changes, and
      the stack changes only at brackets. */
  lemma SkipTouchesNoData(prog: string, m: Machine)
    requires m.i < |prog| && m.tape.Valid() && m.skip
    ensures Step(prog, m).Failure? ==> Step(prog, m).error == UnbalancedLoop
    ensures Step(prog, m).Success? ==>
      var m' := Step(prog, m).value;
      && SameData(m, m')
      && m'.i == m.i + 1
      && m'.skipIndex == m.skipIndex
      && (prog[m.i] != '[' && prog[m.i] != ']' ==> m'.loops == m.loops && m'.skip)
  {
  }

  /** A `]` met while skipping pops the stack; skip mode ends exactly when the
      popped position is `skipIndex`, and execution resumes after the `]`. */
  lemma SkipEndsAtMatch(prog: string, m: Machine)
    requires m.i < |prog| && m.tape.Valid() && m.skip && prog[m.i] == ']' && m.loops != []
    ensures Step(prog, m).Success?
    ensures var m' := Step(prog, m).value;
      && m'.loops == m.loops[..|m.loops| - 1]
      && m'.i == m.i + 1
      && (!m'.skip <==> m.loops[|m.loops| - 1] == m.skipIndex)
  {
  }

  /** A `]` in normal mode pops the position of its `[`; a nonzero cell jumps
      back to that `[` itself, a zero cell falls through to the next position. */
  lemma CloseBracket(prog: string, m: Machine)
    requires m.i < |prog| && m.tape.Valid() && !m.skip && prog[m.i] == ']' && m.loops != []
    ensures Step(prog, m).Success?
    ensures var m' := Step(prog, m).value;
      && m'.loops == m.loops[..|m.loops| - 1]
      && SameData(m, m') && !m'.skip && m'.skipIndex == m.skipIndex
      && (Tape.Get(m.tape) != 0 ==> m'.i == m.loops[|m.loops| - 1])
      && (Tape.Get(m.tape) == 0 ==> m'.i == m.i + 1)
  {
  }

  /** A step fails with `UnbalancedLoop` exactly at a `]` met with an empty
      loop stack, in either mode. */
  lemma UnbalancedExactly(prog: string, m: Machine)
    requires m.i < |prog| && m.tape.Valid()
    ensures Step(prog, m) == Failure(UnbalancedLoop) <==> prog[m.i] == ']' && m.loops == []
  {
  }

  /** The data instructions in normal mode. */
  lemma DataInstructions(prog: string, m: Machine)
    requires m.i < |prog| && m.tape.Valid() && !m.skip
    ensures prog[m.i] == ',' ==>
      && Step(prog, m) == Success(m.(i := m.i + 1,
           tape := Tape.Set(m.tape, if m.input == [] then 0 else m.input[0]),
           input := if m.input == [] then [] else m.input[1..]))
      && 0 <= Tape.Get(Step(prog, m).value.tape) < 256
    ensures prog[m.i] == '.' ==>
      && (Step(prog, m).Success? <==> IsScalarValue(Tape.Get(m.tape)))
      && (Step(prog, m).Success? ==>
            Step(prog, m) == Success(m.(i := m.i + 1, output := m.output + [Tape.Get(m.tape)])))
      && (Step(prog, m).Failure? ==> Step(prog, m).error == UnprintableValue(Tape.Get(m.tape)))
    ensures prog[m.i] == '<' ==>
      (Step(prog, m) == Failure(NegativeAddress) <==> m.tape.pointer == 0)
    ensures prog[m.i] == '<' && m.tape.pointer > 0 ==>
      Step(prog, m) == Success(m.(i := m.i + 1, tape := Tape.Move(m.tape, -1).value))
    ensures prog[m.i] == '>' ==>
      Step(prog, m) == Success(m.(i := m.i + 1, tape := Tape.Move(m.tape, 1).value))
    ensures prog[m.i] == '+' ==>
      Step(prog, m) == Success(m.(i := m.i + 1, tape := Tape.Add(m.tape, 1)))
    ensures prog[m.i] == '-' ==>
      Step(prog, m) == Success(m.(i := m.i + 1, tape := Tape.Add(m.tape, -1)))
    ensures prog[m.i] !in "<>+-.,[]" ==> Step(prog, m) == Success(m.(i := m.i + 1))
  {
  }

  /** A negative cell can never be printed. */
  lemma NegativeUnprintable(prog: string, m: Machine)
    requires m.i < |prog| && m.tape.Valid() && !m.skip && prog[m.i] == '.'
    requires Tape.Get(m.tape) < 0
    ensures Step(prog, m) == Failure(UnprintableValue(Tape.Get(m.tape)))
  {
  }

  // ---------------------------------------------------------------------
  // The loop-stack invariant

  /** The loop stack is strictly increasing, every entry is the position of a
      `[` before the current position, and while skipping, the `[` that
      started skip mode is still on the stack. */
  predicate LoopStackValid(prog: string, m: Machine) {
    StackBelow(prog, m.loops, m.i) && (m.skip ==> m.skipIndex in m.loops)
  }

  /** The stack holds positions of `[` in strictly increasing order, all
      before instruction `i`. */
  predicate StackBelow(prog: string, loops: seq<nat>, i: nat) {
    && (forall a, b :: 0 <= a < b < |loops| ==> loops[a] < loops[b])
    && (forall a :: 0 <= a < |loops| ==> loops[a] < i && loops[a] < |prog| && prog[loops[a]] == '[')
  }

  lemma StackAdvance(prog: string, loops: seq<nat>, i: nat)
    requires StackBelow(prog, loops, i)
    ensures StackBelow(prog, loops, i + 1)
  {
  }

  lemma StackPush(prog: string, loops: seq<nat>, i: nat)
    requires StackBelow(prog, loops, i) && i < |prog| && prog[i] == '['
    ensures StackBelow(prog, loops + [i], i + 1)
  {
  }

  /** Popping keeps the rest below both the next instruction and the
      position of the popped `[`, the target of a jump back. */
  lemma StackPop(prog: string, loops: seq<nat>, i: nat)
    requires StackBelow(prog, loops, i) && loops != []
    ensures StackBelow(prog, DropLast(loops), i + 1)
    ensures StackBelow(prog, DropLast(loops), Last(loops))
  {
  }

  lemma StepKeepsLoopStack(prog: string, m: Machine)
    requires m.i < |prog| && m.tape.Valid() && LoopStackValid(prog, m)
    requires Step(prog, m).Success?
    ensures LoopStackValid(prog, Step(prog, m).value)
  {
    var m' := Step(prog, m).value;
    var c := prog[m.i];
    if c == '[' {
      StackPush(prog, m.loops, m.i);
      assert m'.loops == m.loops + [m.i];
      assert m'.skip ==> m'.skipIndex in m'.loops;
    } else if c == ']' {
      StackPop(prog, m.loops, m.i);
      assert m'.loops == DropLast(m.loops);
      if m.skip && m'.skip {
        var n := |m.loops| - 1;
        var k :| 0 <= k < |m.loops| && m.loops[k] == m.skipIndex;
        assert k != n;
        assert m'.loops[k] == m.skipIndex;
      }
    } else {
      StackAdvance(prog, m.loops, m.i);
      assert m'.loops == m.loops && m'.i == m.i + 1;
      assert m'.skip == m.skip && m'.skipIndex == m.skipIndex;
    }
  }

  /** While skipping, the stack holds at least the skipped `[`, so a `]` never
      finds it empty: `UnbalancedLoop` can only arise in normal mode. */
  lemma SkipNeverUnbalanced(prog: string, m: Machine)
    requires m.i < |prog| && m.tape.Valid() && LoopStackValid(prog, m) && m.skip
    ensures Step(prog, m).Success?
  {
  }

  /** Every machine a run reaches keeps the loop-stack invariant. */
  lemma {:induction false} ExecKeepsLoopStack(prog: string, m: Machine, fuel: nat)
    requires m.tape.Valid() && LoopStackValid(prog, m)
    ensures LoopStackValid(prog, Exec(prog, m, fuel).m)
    decreases fuel
  {
    if m.i < |prog| && fuel > 0 && Step(prog, m).Success? {
      StepKeepsLoopStack(prog, m);
      ExecKeepsLoopStack(prog, Step(prog, m).value, fuel - 1);
    }
  }

  /** A run from the start fails with `UnbalancedLoop` only at a `]` met in
      normal mode with an empty stack. */
  lemma RunUnbalancedOnlyInNormalMode(prog: string, input: seq<Byte>, fuel: nat)
    requires Exec(prog, Start(input), fuel).Failed?
    requires Exec(prog, Start(input), fuel).error == UnbalancedLoop
    ensures var m := Exec(prog, Start(input), fuel).m;
      !m.skip && m.loops == [] && m.i < |prog| && prog[m.i] == ']'
  {
    ExecFailedAt(prog, Start(input), fuel);
    ExecKeepsLoopStack(prog, Start(input), fuel);
    var m := Exec(prog, Start(input), fuel).m;
    if m.skip {
      SkipNeverUnbalanced(prog, m);
    }
    UnbalancedExactly(prog, m);
  }

  /** `Failed` reports the machine at the failing instruction and its error. */
  lemma {:induction false} ExecFailedAt(prog: string, m: Machine, fuel: nat)
    requires m.tape.Valid()
    requires Exec(prog, m, fuel).Failed?
    ensures var r := Exec(prog, m, fuel);
      r.m.i < |prog| && r.m.tape.Valid() && Step(prog, r.m) == Failure(r.error)
    decreases fuel
  {
    if Step(prog, m).Success? {
      ExecFailedAt(prog, Step(prog, m).value, fuel - 1);
    }
  }

  /** A run that finishes has reached the end of the program: the main loop
      stops only once `i` has passed the last character. */
  lemma {:induction false} ExecFinishedPastEnd(prog: string, m: Machine, fuel: nat)
    requires m.tape.Valid()
    ensures Exec(prog, m, fuel).Finished? ==> Exec(prog, m, fuel).m.i >= |prog|
    decreases fuel
  {
    if m.i < |prog| && fuel > 0 && Step(prog, m).Success? {
      ExecFinishedPastEnd(prog, Step(prog, m).value, fuel - 1);
    }
  }

  // ---------------------------------------------------------------------
  // Runs of additions

  /** The net amount that the `+` and `-` of `prog[k..j]` add to the cell. */
  function Net(prog: string, k: nat, j: nat): int
    requires k <= j <= |prog|
    decreases j - k
  {
    if k == j then 0 else (if prog[k] == '+' then 1 else -1) + Net(prog, k + 1, j)
  }

  /** `prog[k..j]` holds only `+` and `-`. */
  predicate AddsOnly(prog: string, k: nat, j: nat)
    requires k <= j <= |prog|
    decreases j - k
  {
    k == j || ((prog[k] == '+' || prog[k] == '-') && AddsOnly(prog, k + 1, j))
  }

  /** One `+` or `-` in normal mode, as one iteration of a run. */
  lemma StepAdds(prog: string, m: Machine, fuel: nat)
    requires m.tape.Valid() && !m.skip && m.i < |prog| && fuel > 0
    requires prog[m.i] == '+' || prog[m.i] == '-'
    ensures Exec(prog, m, fuel)
         == Exec(prog, m.(i := m.i + 1, tape := Tape.Add(m.tape, if prog[m.i] == '+' then 1 else -1)), fuel - 1)
  {
  }

  /** In normal mode a stretch of `+` and `-` takes one iteration per
      character and leaves the cell at its wrapped net sum. */
  lemma {:induction false} ArithmeticRun(prog: string, m: Machine, j: nat, fuel: nat)
    requires m.tape.Valid() && !m.skip && m.i <= j <= |prog|
    requires AddsOnly(prog, m.i, j)
    ensures Exec(prog, m, fuel + (j - m.i))
         == Exec(prog, m.(i := j, tape := Tape.Add(m.tape, Net(prog, m.i, j))), fuel)
    decreases j - m.i
  {
    if m.i == j {
      Tape.AddZero(m.tape);
      assert m.(i := j, tape := m.tape) == m;
    } else {
      var d := if prog[m.i] == '+' then 1 else -1;
      var m1 := m.(i := m.i + 1, tape := Tape.Add(m.tape, d));
      var target := m.(i := j, tape := Tape.Add(m.tape, Net(prog, m.i, j)));
      assert m1.(i := j, tape := Tape.Add(m1.tape, Net(prog, m1.i, j))) == target by {
        Tape.AddAdd(m.tape, d, Net(prog, m1.i, j));
      }
      calc {
        Exec(prog, m, fuel + (j - m.i));
        { StepAdds(prog, m, fuel + (j - m.i)); }
        Exec(prog, m1, fuel + (j - m1.i));
        { ArithmeticRun(prog, m1, j, fuel); }
        Exec(prog, target, fuel);
      }
    }
  }

  // ---------------------------------------------------------------------
  // Skip-mode scanning

  function BracketDelta(c: char): int {
    if c == '[' then 1 else if c == ']' then -1 else 0
  }

  /** The nesting depth that `prog[k..j]` adds: `[` count minus `]` count;
      every other character, comments included, counts zero. */
  function Depth(prog: string, k: nat, j: nat): int
    requires k <= j <= |prog|
    decreases j - k
  {
    if k == j then 0 else BracketDelta(prog[k]) + Depth(prog, k + 1, j)
  }

  /** The loop stack after the skip scan has passed `prog[k..j]`. */
  function Scanned(prog: string, loops: seq<nat>, k: nat, j: nat): seq<nat>
    requires k <= j <= |prog|
    decreases j - k
  {
    if k == j then loops
    else if prog[k] == '[' then Scanned(prog, loops + [k], k + 1, j)
    else if prog[k] == ']' && loops != [] then Scanned(prog, DropLast(loops), k + 1, j)
    else Scanned(prog, loops, k + 1, j)
  }

  /** Scanning a stretch in which the brackets opened inside it never close
      more than were open (`extra`): each character costs one iteration, the
      data stays as it was, skip mode persists, and the stack below the
      skipped `[` is never touched. */
  lemma {:induction false} ScanSegment(prog: string, m: Machine, j: nat, base: seq<nat>, extra: seq<nat>, fuel: nat)
    returns (extra': seq<nat>)
    requires m.tape.Valid() && m.skip && m.skipIndex < m.i <= j <= |prog|
    requires m.loops == base + [m.skipIndex] + extra
    requires forall x :: x in extra ==> x > m.skipIndex
    requires forall k :: m.i <= k <= j ==> |extra| + Depth(prog, m.i, k) >= 0
    ensures Scanned(prog, m.loops, m.i, j) == base + [m.skipIndex] + extra'
    ensures |extra'| == |extra| + Depth(prog, m.i, j)
    ensures forall x :: x in extra' ==> x > m.skipIndex
    ensures Exec(prog, m, fuel + (j - m.i)) == Exec(prog, m.(i := j, loops := Scanned(prog, m.loops, m.i, j)), fuel)
    decreases j - m.i
  {
    if m.i == j {
      return extra;
    }
    assert Depth(prog, m.i, m.i + 1) == BracketDelta(prog[m.i]);
    var extra1 := SkipStep(prog, m, j, base, extra);
    var m1 := Step(prog, m).value;
    forall k | m1.i <= k <= j
      ensures |extra1| + Depth(prog, m1.i, k) >= 0
    {
      assert Depth(prog, m.i, k) == BracketDelta(prog[m.i]) + Depth(prog, m1.i, k);
    }
    assert Depth(prog, m.i, j) == BracketDelta(prog[m.i]) + Depth(prog, m1.i, j);
    extra' := ScanSegment(prog, m1, j, base, extra1, fuel);
    assert Exec(prog, m, fuel + (j - m.i)) == Exec(prog, m1, fuel + (j - m1.i));
    assert m1.(i := j, loops := Scanned(prog, m1.loops, m1.i, j))
        == m.(i := j, loops := Scanned(prog, m.loops, m.i, j));
  }

  /** One skip-mode step inside such a stretch: a `[` above the skipped one
      is pushed, a `]` pops one of them and skip mode persists. */
  lemma SkipStep(prog: string, m: Machine, j: nat, base: seq<nat>, extra: seq<nat>)
    returns (extra1: seq<nat>)
    requires m.tape.Valid() && m.skip && m.skipIndex < m.i < j <= |prog|
    requires m.loops == base + [m.skipIndex] + extra
    requires forall x :: x in extra ==> x > m.skipIndex
    requires |extra| + BracketDelta(prog[m.i]) >= 0
    ensures Step(prog, m) == Success(m.(i := m.i + 1, loops := base + [m.skipIndex] + extra1))
    ensures Scanned(prog, m.loops, m.i, j) == Scanned(prog, base + [m.skipIndex] + extra1, m.i + 1, j)
    ensures |extra1| == |extra| + BracketDelta(prog[m.i])
    ensures forall x :: x in extra1 ==> x > m.skipIndex
  {
    if prog[m.i] == '[' {
      extra1 := extra + [m.i];
      assert m.loops + [m.i] == base + [m.skipIndex] + extra1;
    } else if prog[m.i] == ']' {
      assert Last(m.loops) == extra[|extra| - 1] && extra[|extra| - 1] in extra;
      assert m.loops != [] && DropLast(m.loops) == base + [m.skipIndex] + extra[..|extra| - 1];
      extra1 := extra[..|extra| - 1];
      assert forall x :: x in extra1 ==> x in extra;
    } else {
      extra1 := extra;
    }
  }

  /** `prog[k..e]` closes every bracket it opens and never closes one it did
      not open: a `]` at `e` right after it matches the `[` before `k`. */
  predicate Balanced(prog: string, k: nat, e: nat)
    requires k <= e <= |prog|
  {
    Depth(prog, k, e) == 0 && forall j :: k <= j <= e ==> Depth(prog, k, j) >= 0
  }

  /** A loop whose cell is zero on entry runs its body zero times, however
      deeply the body nests and whatever comments it holds: from the `[` at
      `m.i` to its matching `]` at `e`, the run only advances the position,
      and it resumes right after the `]` with the same tape, input, output
      and loop stack. */
  lemma SkippedLoopRunsNothing(prog: string, m: Machine, e: nat, fuel: nat)
    requires m.tape.Valid() && !m.skip && m.i < e < |prog|
    requires prog[m.i] == '[' && Tape.Get(m.tape) == 0 && prog[e] == ']'
    requires Balanced(prog, m.i + 1, e)
    ensures Exec(prog, m, fuel + (e + 1 - m.i)) == Exec(prog, m.(i := e + 1, skipIndex := m.i), fuel)
  {
    var m1 := Step(prog, m).value;
    assert m1 == m.(i := m.i + 1, loops := m.loops + [m.i], skip := true, skipIndex := m.i);
    var extra := ScanSegment(prog, m1, e, m.loops, [], fuel + 1);
    assert extra == [];
    var m2 := m1.(i := e, loops := m.loops + [m.i]);
    assert Step(prog, m2) == Success(m.(i := e + 1, skipIndex := m.i));
  }

  // ---------------------------------------------------------------------
  // Whole programs

  /** A loop entered with a zero cell prints nothing. */
  lemma ZeroLoopPrintsNothing()
    ensures var r := Exec("[.]", Start([]), 3);
      r.Finished? && r.m.output == []
  {
  }

  /** `,` at the end of input stores 0. */
  lemma EndOfInputReadsZero()
    ensures var r := Exec("+++.,.", Start([]), 6);
      r.Finished? && r.m.output == [3, 0]
  {
  }

  /** Additions and subtractions around a move right and back left: the
      second cell is created and left alone, and the first cell ends at 10. */
  lemma ArithmeticThenPrint()
    ensures var r := Exec(MovesAndSums(), Start([]), 19);
      r.Finished? && r.m.output == [10]
  {
    var m1 := Machine(8, Tape.Tape(0, [4]), [], false, 0, [], []);
    var m3 := Machine(10, Tape.Tape(0, [4, 0]), [], false, 0, [], []);
    var m4 := Machine(18, Tape.Tape(0, [10, 0]), [], false, 0, [], []);
    SumsFirst(m1);
    MoveThere(m1, m3);
    SumsSecond(m3, m4);
    PrintLast(m4);
  }

  function MovesAndSums(): string {
    "--++++++><++++++-+."
  }

  lemma SumsFirst(m1: Machine)
    requires m1 == Machine(8, Tape.Tape(0, [4]), [], false, 0, [], [])
    ensures Exec(MovesAndSums(), Start([]), 19) == Exec(MovesAndSums(), m1, 11)
  {
    var prog := MovesAndSums();
    assert AddsOnly(prog, 0, 8);
    ArithmeticRun(prog, Start([]), 8, 11);
    assert Net(prog, 0, 8) == 4;
    assert Tape.Add(Tape.Fresh(), 4) == m1.tape;
  }

  lemma MoveThere(m1: Machine, m3: Machine)
    requires m1 == Machine(8, Tape.Tape(0, [4]), [], false, 0, [], [])
    requires m3 == Machine(10, Tape.Tape(0, [4, 0]), [], false, 0, [], [])
    ensures Exec(MovesAndSums(), m1, 11) == Exec(MovesAndSums(), m3, 9)
  {
    var prog := MovesAndSums();
    var m2 := Machine(9, Tape.Tape(1, [4, 0]), [], false, 0, [], []);
    assert prog[8] == '>' && prog[9] == '<';
    assert [4] + Tape.Zeros(1) == [4, 0];
    assert Tape.Move(m1.tape, 1) == Success(m2.tape);
    assert Tape.Move(m2.tape, -1) == Success(m3.tape);
    assert Step(prog, m1) == Success(m2);
    assert Step(prog, m2) == Success(m3);
  }

  lemma SumsSecond(m3: Machine, m4: Machine)
    requires m3 == Machine(10, Tape.Tape(0, [4, 0]), [], false, 0, [], [])
    requires m4 == Machine(18, Tape.Tape(0, [10, 0]), [], false, 0, [], [])
    ensures Exec(MovesAndSums(), m3, 9) == Exec(MovesAndSums(), m4, 1)
  {
    var prog := MovesAndSums();
    assert AddsOnly(prog, 10, 18);
    ArithmeticRun(prog, m3, 18, 1);
    assert Net(prog, 10, 18) == 6;
    assert Tape.Add(m3.tape, 6) == m4.tape;
  }

  lemma PrintLast(m4: Machine)
    requires m4 == Machine(18, Tape.Tape(0, [10, 0]), [], false, 0, [], [])
    ensures var r := Exec(MovesAndSums(), m4, 1);
      r.Finished? && r.m.output == [10]
  {
    var prog := MovesAndSums();
    assert |prog| == 19 && prog[18] == '.';
    assert m4.output + [Tape.Get(m4.tape)] == [10];
    assert Step(prog, m4) == Success(m4.(i := 19, output := [10]));
  }

  /** Moving left from the first cell stops the run with `NegativeAddress`
      before anything is printed. */
  lemma LeftOfOriginFails()
    ensures var r := Exec("<", Start([]), 1);
      r.Failed? && r.error == NegativeAddress && r.m.output == []
  {
  }

  /** A negative cell cannot be printed: the run stops at the `.`. */
  lemma NegativeOutputFails()
    ensures var r := Exec("-.", Start([]), 2);
      r.Failed? && r.error == UnprintableValue(-1) && r.m.i == 1 && r.m.output == []
  {
  }
}
