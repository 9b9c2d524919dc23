/** The tape of `src/state.rs`: a growable sequence of wrapping 32-bit cells
    addressed by a non-negative pointer. `Tape` is the value a `State` object
    stands for; the functions on it specify the methods of `State`. */
module Tape {
  import opened Words
  import opened Wrappers

  /** The panic "tried to set the pointer to negative address". */
  datatype TapeError = NegativeAddress

  datatype Tape = Tape(pointer: nat, cells: seq<Int32>) {
    /** The pointer always addresses an existing cell. */
    predicate Valid() {
      pointer < |cells|
    }
  }

  function Max(a: int, b: int): int {
    if a < b then b else a
  }

  function Zeros(n: nat): (z: seq<Int32>)
    ensures |z| == n && forall k :: 0 <= k < n ==> z[k] == 0
  {
    seq(n, _ => 0)
  }

  /** The tape of `State::new`: one zero cell, pointer at 0. */
  function Fresh(): (t: Tape)
    ensures t.Valid()
  {
    Tape(0, [0])
  }

  /** Moves the pointer by `delta`: fails below address 0, otherwise grows
      the tape with zero cells until the pointer is inside it. */
  function Move(t: Tape, delta: int): (r: Result<Tape, TapeError>)
    requires t.Valid()
    ensures r.Failure? <==> t.pointer + delta < 0
    ensures r.Failure? ==> r.error == NegativeAddress
    ensures r.Success? ==>
      var u := r.value;
      && u.Valid()
      && u.pointer == t.pointer + delta
      && |u.cells| == Max(|t.cells|, u.pointer + 1)
      && u.cells[..|t.cells|] == t.cells
      && forall k :: |t.cells| <= k < |u.cells| ==> u.cells[k] == 0
  {
    var p := t.pointer + delta;
    if p < 0 then Failure(NegativeAddress)
    else if p < |t.cells| then Success(Tape(p, t.cells))
    else Success(Tape(p, t.cells + Zeros(p + 1 - |t.cells|)))
  }

  /** The value of the current cell. */
  function Get(t: Tape): Int32
    requires t.Valid()
  {
    t.cells[t.pointer]
  }

  /** Stores `v` in the current cell. */
  function Set(t: Tape, v: Int32): (r: Tape)
    requires t.Valid()
    ensures r.Valid() && r.pointer == t.pointer && |r.cells| == |t.cells|
    ensures Get(r) == v
    ensures forall k :: 0 <= k < |t.cells| && k != t.pointer ==> r.cells[k] == t.cells[k]
  {
    t.(cells := t.cells[t.pointer := v])
  }

  /** Adds `delta` to the current cell with 32-bit wrap-around. */
  function Add(t: Tape, delta: int): (r: Tape)
    requires t.Valid()
    ensures r.Valid() && r.pointer == t.pointer && |r.cells| == |t.cells|
    ensures (Get(r) - Get(t) - delta) % TWO_32 == 0
    ensures forall k :: 0 <= k < |t.cells| && k != t.pointer ==> r.cells[k] == t.cells[k]
  {
    Set(t, Wrap32(Get(t) + delta))
  }

  function Sum(ds: seq<int>): int {
    if ds == [] then 0 else ds[0] + Sum(ds[1..])
  }

  /** Applies the additions `ds` to the current cell, first to last. */
  function AddAll(t: Tape, ds: seq<int>): (r: Tape)
    requires t.Valid()
    ensures r.Valid() && r.pointer == t.pointer && |r.cells| == |t.cells|
    decreases |ds|
  {
    if ds == [] then t else AddAll(Add(t, ds[0]), ds[1..])
  }

  /** Wrap-around law: any run of additions at a fixed pointer leaves the cell
      at the wrapped net sum and every other cell as it was. */
  lemma {:induction false} AddAllNet(t: Tape, ds: seq<int>)
    requires t.Valid()
    ensures Get(AddAll(t, ds)) == Wrap32(Get(t) + Sum(ds))
    ensures forall k :: 0 <= k < |t.cells| && k != t.pointer ==> AddAll(t, ds).cells[k] == t.cells[k]
    decreases |ds|
  {
    if ds != [] {
      var t1 := Add(t, ds[0]);
      AddAllNet(t1, ds[1..]);
      assert Get(t1) == Wrap32(Get(t) + ds[0]);
      Wrap32Add(Get(t), ds[0], Sum(ds[1..]));
      assert Get(t) + ds[0] + Sum(ds[1..]) == Get(t) + Sum(ds);
    }
  }

  /** Adding zero leaves the tape as it was. */
  lemma AddZero(t: Tape)
    requires t.Valid()
    ensures Add(t, 0) == t
  {
    assert t.cells[t.pointer := Get(t)] == t.cells;
  }

  /** Two additions at the same pointer are one addition of their total. */
  lemma AddAdd(t: Tape, a: int, b: int)
    requires t.Valid()
    ensures Add(Add(t, a), b) == Add(t, a + b)
  {
    Wrap32Add(Get(t), a, b);
    assert Add(Add(t, a), b).cells == Add(t, a + b).cells;
  }

  /** Incrementing `i32::MAX` gives a negative cell (`i32::MIN`) and
      decrementing `i32::MIN` a positive one (`i32::MAX`). */
  lemma AddWrapsAtBounds(t: Tape)
    requires t.Valid()
    ensures Get(Add(Set(t, I32_MAX), 1)) == I32_MIN < 0
    ensures Get(Add(Set(t, I32_MIN), -1)) == I32_MAX > 0
  {
    WrapAtBounds();
  }

  /** Applies the pointer moves `ds` in order, stopping at the first failure. */
  function Walk(t: Tape, ds: seq<int>): (r: Result<Tape, TapeError>)
    requires t.Valid()
    ensures r.Success? ==> r.value.Valid()
    decreases |ds|
  {
    if ds == [] then Success(t)
    else match Move(t, ds[0])
      case Failure(e) => Failure(e)
      case Success(t1) => Walk(t1, ds[1..])
  }

  /** The highest address the pointer reaches when it starts at `p` and moves
      by `ds`. */
  function Highest(p: int, ds: seq<int>): (h: int)
    ensures h >= p
    decreases |ds|
  {
    if ds == [] then p else Max(p, Highest(p + ds[0], ds[1..]))
  }

  /** The tape only grows, and after a walk its length is one more than the
      highest address ever visited (or its old length, if that is larger). */
  lemma {:induction false} WalkLength(t: Tape, ds: seq<int>)
    requires t.Valid()
    requires Walk(t, ds).Success?
    ensures |Walk(t, ds).value.cells| == Max(|t.cells|, Highest(t.pointer, ds) + 1)
    ensures Walk(t, ds).value.cells[..|t.cells|] == t.cells
    decreases |ds|
  {
    if ds != [] {
      var t1 := Move(t, ds[0]).value;
      WalkLength(t1, ds[1..]);
      assert Walk(t, ds).value.cells[..|t1.cells|][..|t.cells|] == t.cells;
    }
  }

  /** `State`: the tape as the mutable object of the source. */
  class State {
    var pointer: nat
    var memory: seq<Int32>

    ghost predicate Valid()
      reads this
    {
      pointer < |memory|
    }

    /** The tape this object currently holds. */
    function Value(): (t: Tape)
      reads this
      ensures Valid() ==> t.Valid()
    {
      Tape(pointer, memory)
    }

    constructor ()
      ensures Valid() && Value() == Fresh()
      ensures pointer == 0 && memory == [0]
    {
      pointer := 0;
      memory := [0];
    }

    /** `add_to_pointer`: on success the tape is `Move`'s result; moving below
        address 0 fails with `NegativeAddress` and changes nothing. */
    method AddToPointer(delta: int) returns (o: Outcome<TapeError>)
      requires Valid()
      modifies this
      ensures Valid()
      ensures o.Pass? ==> Move(old(Value()), delta) == Success(Value())
      ensures o.Fail? ==> Move(old(Value()), delta) == Failure(o.error) && unchanged(this)
    {
      ghost var t0 := Value();
      if pointer + delta < 0 {
        return Fail(NegativeAddress);
      }
      pointer := pointer + delta;
      while pointer >= |memory|
        invariant pointer == t0.pointer + delta
        invariant old(|memory|) <= |memory| <= Max(old(|memory|), pointer + 1)
        invariant memory[..old(|memory|)] == old(memory)
        invariant forall k :: old(|memory|) <= k < |memory| ==> memory[k] == 0
        decreases pointer + 1 - |memory|
      {
        memory := memory + [0];
      }
      if pointer < |t0.cells| {
        assert memory == t0.cells;
      } else {
        assert memory == t0.cells + Zeros(pointer + 1 - |t0.cells|);
      }
      return Pass;
    }

    method IncrementPointer()
      requires Valid()
      modifies this
      ensures Valid()
      ensures Move(old(Value()), 1) == Success(Value())
    {
      var o := AddToPointer(1);
    }

    method DecrementPointer() returns (o: Outcome<TapeError>)
      requires Valid()
      modifies this
      ensures Valid()
      ensures o.Fail? <==> old(pointer) == 0
      ensures o.Pass? ==> Move(old(Value()), -1) == Success(Value())
      ensures o.Fail? ==> o.error == NegativeAddress && unchanged(this)
    {
      o := AddToPointer(-1);
    }

    method SetValue(v: Int32)
      requires Valid()
      modifies this
      ensures Valid()
      ensures Value() == Set(old(Value()), v)
    {
      memory := memory[pointer := v];
    }

    /** `get_value`: the current cell. */
    method GetValue() returns (v: Int32)
      requires Valid()
      ensures v == memory[pointer] == Get(Value())
    {
      v := memory[pointer];
    }

    method AddToValue(delta: Int32)
      requires Valid()
      modifies this
      ensures Valid()
      ensures Value() == Add(old(Value()), delta)
    {
      memory := memory[pointer := Wrap32(memory[pointer] + delta)];
    }

    method IncrementValue()
      requires Valid()
      modifies this
      ensures Valid()
      ensures Value() == Add(old(Value()), 1)
    {
      AddToValue(1);
    }

    method DecrementValue()
      requires Valid()
      modifies this
      ensures Valid()
      ensures Value() == Add(old(Value()), -1)
    {
      AddToValue(-1);
    }
  }

  /** The `memory_growth` test: the tape has 1 cell, then 2 after one step
      right, 12 after ten more, and stays at 22 after going ten right and ten
      back left. */
  method MemoryGrowth() returns (lengths: seq<nat>)
    ensures lengths == [1, 2, 12, 22]
  {
    var state := new State();
    lengths := [|state.memory|];
    state.IncrementPointer();
    lengths := lengths + [|state.memory|];
    var o := state.AddToPointer(10);
    lengths := lengths + [|state.memory|];
    o := state.AddToPointer(10);
    o := state.AddToPointer(-10);
    lengths := lengths + [|state.memory|];
  }

  /** The `persistence` test: a stored value survives a visit to the next
      cell, whose own increment is kept too. */
  method Persistence() returns (first: Int32, second: Int32)
    ensures first == 42 && second == 1
  {
    var state := new State();
    state.SetValue(42);
    state.IncrementPointer();
    state.IncrementValue();
    var o := state.DecrementPointer();
    first := state.GetValue();
    state.IncrementPointer();
    second := state.GetValue();
  }

  /** The `init_zero` test: the first cell and a newly grown one are 0. */
  method InitZero() returns (first: Int32, second: Int32)
    ensures first == 0 && second == 0
  {
    var state := new State();
    first := state.GetValue();
    state.IncrementPointer();
    second := state.GetValue();
  }

  /** The `wrap_on_32_bits` test: `i32::MAX + 1` is negative and
      `i32::MIN - 1` positive. */
  method WrapOn32Bits() returns (up: Int32, down: Int32)
    ensures up == I32_MIN < 0 && down == I32_MAX > 0
  {
    var state := new State();
    state.SetValue(I32_MAX);
    state.IncrementValue();
    up := state.GetValue();
    state.SetValue(I32_MIN);
    state.DecrementValue();
    down := state.GetValue();
    AddWrapsAtBounds(Fresh());
  }

  /** The `negative_index` test: stepping left from a new tape fails. */
  method NegativeIndex() returns (o: Outcome<TapeError>)
    ensures o == Fail(NegativeAddress)
  {
    var state := new State();
    o := state.DecrementPointer();
  }
}
