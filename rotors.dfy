/**
 * A rotor: an additive substitution over the indices [0, size) whose offset
 * (`position`) steps like a counter wheel.
 */
module Rotors {

  /** The value of a rotor at one moment: its shift, its position and the alphabet size. */
  datatype RotorState = RotorState(shift: nat, position: nat, size: nat)

  /**
   * `Rotor::encode_index`: forward adds shift + position modulo size; reverse
   * subtracts the same amount, written without going below zero.
   */
  function Encode(r: RotorState, idx: nat, reverse: bool): (out: nat)
    requires r.size > 0
    ensures out < r.size
  {
    if reverse then (idx + r.size - (r.shift + r.position) % r.size) % r.size
    else (idx + r.shift + r.position) % r.size
  }

  /** For a fixed rotor state, reverse mode undoes forward mode and forward undoes reverse. */
  lemma {:induction false} EncodeInverse(r: RotorState, idx: nat)
    requires r.size > 0 && idx < r.size
    ensures Encode(r, Encode(r, idx, false), true) == idx
    ensures Encode(r, Encode(r, idx, true), false) == idx
  {
    var n, k := r.size, r.shift + r.position;
    var s := k % n;
    assert k == s + (k / n) * n;
    ModMultiple(idx + s, k / n, n);
    var f := (idx + s) % n;
    if idx + s < n { ModUnique(0, idx + s, n, idx + s); } else { ModUnique(1, idx + s - n, n, idx + s); }
    assert Encode(r, idx, false) == f;
    var b := (idx + n - s) % n;
    if idx + n - s < n { ModUnique(0, idx + n - s, n, idx + n - s); } else { ModUnique(1, idx - s, n, idx + n - s); }
    assert Encode(r, idx, true) == b;
    ModMultiple(b + s, k / n, n);
    if f + n - s < n { ModUnique(0, f + n - s, n, f + n - s); } else { ModUnique(1, f - s, n, f + n - s); }
    if b + s < n { ModUnique(0, b + s, n, b + s); } else { ModUnique(1, b + s - n, n, b + s); }
  }

  /** Adding a multiple of n does not change a remainder modulo n. */
  lemma ModMultiple(a: int, q: int, n: int)
    requires n > 0
    ensures (a + q * n) % n == a % n
  {
    assert a == (a / n) * n + a % n;
    assert a + q * n == (a / n + q) * n + a % n;
    ModUnique(a / n + q, a % n, n, a + q * n);
  }

  /** The remainder is the unique r in [0, n) with x == d * n + r. */
  lemma ModUnique(d: int, r: int, n: int, x: int)
    requires n > 0 && 0 <= r < n && x == d * n + r
    ensures x % n == r
  {
    var m := d - x / n;
    assert x == (x / n) * n + x % n;
    assert m * n == d * n - (x / n) * n;
    assert m * n == x % n - r;
    OnlyZeroMultipleBelow(m, n);
  }

  lemma OnlyZeroMultipleBelow(m: int, n: int)
    requires n > 0 && -n < m * n < n
    ensures m == 0
  {
  }

  /** One step of the wheel: the position advances by one modulo the size. */
  function Advance(r: RotorState): (r': RotorState)
    requires r.size > 0
    ensures r'.shift == r.shift && r'.size == r.size && r'.position < r.size
    ensures r.position < r.size ==> (r'.position == 0 <==> r.position == r.size - 1)
  {
    r.(position := (r.position + 1) % r.size)
  }

  /** Without the modulus: a step adds one, except from the last position, which goes to 0. */
  lemma AdvanceSteps(r: RotorState)
    requires r.size > 0 && r.position < r.size
    ensures Advance(r).position == if r.position == r.size - 1 then 0 else r.position + 1
  {
    if r.position == r.size - 1 {
      ModUnique(1, 0, r.size, r.position + 1);
    } else {
      ModUnique(0, r.position + 1, r.size, r.position + 1);
    }
  }

  /** `Rotor`: shift and size are fixed at construction; the position moves. */
  class Rotor {
    const shift: nat
    const size: nat
    var position: nat

    ghost predicate Valid()
      reads this
    {
      size > 0 && position < size
    }

    function State(): RotorState
      reads this
    {
      RotorState(shift, position, size)
    }

    /** `Rotor::new`: a rotor for an alphabet of `alphabetLen` letters, at position 0. */
    constructor (shift: nat, alphabetLen: nat)
      requires alphabetLen > 0
      ensures Valid()
      ensures State() == RotorState(shift, 0, alphabetLen)
    {
      this.shift := shift;
      this.size := alphabetLen;
      this.position := 0;
    }

    /**
     * `Rotor::rotate`: advances the position modulo size and reports whether
     * it wrapped round to 0 (the carry into the next rotor).
     */
    method Rotate() returns (wrapped: bool)
      requires Valid()
      modifies this
      ensures Valid()
      ensures State() == Advance(old(State()))
      ensures wrapped <==> position == 0
    {
      position := (position + 1) % size;
      wrapped := position == 0;
    }

    /** `Rotor::save_position`: the current position, unchanged. */
    function SavePosition(): (p: nat)
      reads this
      requires Valid()
      ensures p == position && p < size
    {
      position
    }

    /** `Rotor::load_position`: stores the given position reduced modulo size. */
    method LoadPosition(pos: nat)
      requires Valid()
      modifies this
      ensures Valid()
      ensures State() == old(State()).(position := pos % size)
    {
      position := pos % size;
    }
  }
}
