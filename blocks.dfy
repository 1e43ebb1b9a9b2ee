/**
 * A block: an ordered chain of rotors. Its transform composes the rotors in
 * declared order (forward) or undoes them in reversed order (reverse), and
 * it steps like an odometer.
 */
module Blocks {
  import opened Wrappers
  import opened Configs
  import opened Rotors

  /** The colour table of `Block::new`: each colour letter stands for a shift from 1 to 10. */
  function ColourShift(c: char): (r: Option<nat>)
    ensures r.Some? ==> 1 <= r.value <= 10
  {
    match c
    case 'К' => Some(1)
    case 'Б' => Some(2)
    case 'Ч' => Some(3)
    case 'Р' => Some(4)
    case 'З' => Some(5)
    case 'О' => Some(6)
    case 'Ф' => Some(7)
    case 'С' => Some(8)
    case 'Г' => Some(9)
    case 'Л' => Some(10)
    case _ => None
  }

  predicate AllColours(colours: string) {
    forall k :: 0 <= k < |colours| ==> ColourShift(colours[k]).Some?
  }

  /** The first letter of `colours` outside the colour table: the one `Block::new` panics on. */
  function FirstUnknownColour(colours: string): (r: Option<char>)
    ensures r.None? <==> AllColours(colours)
    ensures r.Some? ==> r.value in colours && ColourShift(r.value).None?
  {
    if colours == [] then None
    else if ColourShift(colours[0]).None? then Some(colours[0])
    else FirstUnknownColour(colours[1..])
  }

  /** The rotors `Block::new` creates: one per letter, in order, shift from the table, position 0. */
  function InitialRotors(colours: string, alphabetLen: nat): (rs: seq<RotorState>)
    requires AllColours(colours)
  {
    seq(|colours|, k requires 0 <= k < |colours| => RotorState(ColourShift(colours[k]).value, 0, alphabetLen))
  }

  /** Every rotor has a non-empty range. */
  predicate Turnable(rs: seq<RotorState>) {
    forall i :: 0 <= i < |rs| ==> rs[i].size > 0
  }

  /** Every rotor works over the same n > 0 indices. */
  predicate Uniform(rs: seq<RotorState>, n: nat) {
    n > 0 && forall i :: 0 <= i < |rs| ==> rs[i].size == n
  }

  /** Forward pass: the rotors in declared order, each one's output feeding the next. */
  function Forward(rs: seq<RotorState>, idx: nat): (r: nat)
    requires Turnable(rs)
    ensures |rs| > 0 ==> r < rs[|rs| - 1].size
  {
    if rs == [] then idx
    else Encode(rs[|rs| - 1], Forward(rs[..|rs| - 1], idx), false)
  }

  /** Reverse pass: each rotor's reverse mode, last rotor first. */
  function Backward(rs: seq<RotorState>, idx: nat): (r: nat)
    requires Turnable(rs)
    ensures |rs| > 0 ==> r < rs[0].size
  {
    if rs == [] then idx
    else Backward(rs[..|rs| - 1], Encode(rs[|rs| - 1], idx, true))
  }

  /** `Block::process_index`. */
  function ProcessIndex(rs: seq<RotorState>, idx: nat, reverse: bool): nat
    requires Turnable(rs)
  {
    if reverse then Backward(rs, idx) else Forward(rs, idx)
  }

  /**
   * With the positions held fixed, the reverse transform of a block undoes
   * its forward transform and the other way round; both stay in [0, n).
   */
  lemma ProcessInverse(rs: seq<RotorState>, n: nat, idx: nat)
    requires Uniform(rs, n) && idx < n
    ensures ProcessIndex(rs, idx, false) < n && ProcessIndex(rs, idx, true) < n
    ensures ProcessIndex(rs, ProcessIndex(rs, idx, false), true) == idx
    ensures ProcessIndex(rs, ProcessIndex(rs, idx, true), false) == idx
  {
    BackwardForward(rs, n, idx);
    ForwardBackward(rs, n, idx);
  }

  lemma {:induction false} BackwardForward(rs: seq<RotorState>, n: nat, idx: nat)
    requires Uniform(rs, n) && idx < n
    ensures Forward(rs, idx) < n
    ensures Backward(rs, Forward(rs, idx)) == idx
  {
    if rs != [] {
      var init, last := rs[..|rs| - 1], rs[|rs| - 1];
      BackwardForward(init, n, idx);
      EncodeInverse(last, Forward(init, idx));
    }
  }

  lemma {:induction false} ForwardBackward(rs: seq<RotorState>, n: nat, idx: nat)
    requires Uniform(rs, n) && idx < n
    ensures Backward(rs, idx) < n
    ensures Forward(rs, Backward(rs, idx)) == idx
  {
    if rs != [] {
      var init, last := rs[..|rs| - 1], rs[|rs| - 1];
      ForwardBackward(init, n, Encode(last, idx, true));
      EncodeInverse(last, idx);
    }
  }

  /**
   * Reference odometer: the first rotor always steps; the next one steps
   * only when the first wrapped to 0, and so on.
   */
  function Odometer(rs: seq<RotorState>): (r: seq<RotorState>)
    requires Turnable(rs)
    ensures |r| == |rs|
    ensures forall i :: 0 <= i < |rs| ==> r[i].shift == rs[i].shift && r[i].size == rs[i].size
  {
    if rs == [] then []
    else
      var first := Advance(rs[0]);
      if first.position == 0 then [first] + Odometer(rs[1..]) else [first] + rs[1..]
  }

  /** The carry reaches rotor k: every rotor before it wraps to 0 on this step. */
  ghost predicate Carried(rs: seq<RotorState>, k: nat)
    requires Turnable(rs) && k <= |rs|
  {
    forall i :: 0 <= i < k ==> Advance(rs[i]).position == 0
  }

  /**
   * Rotor k steps exactly when all rotors before it wrapped during this
   * call, and is otherwise unchanged. In particular rotor 0 always steps.
   */
  lemma {:induction false} OdometerAt(rs: seq<RotorState>, k: nat)
    requires Turnable(rs) && k < |rs|
    ensures Odometer(rs)[k] == if Carried(rs, k) then Advance(rs[k]) else rs[k]
  {
    if k > 0 {
      var first := Advance(rs[0]);
      if first.position == 0 {
        OdometerAt(rs[1..], k - 1);
        assert Carried(rs, k) <==> Carried(rs[1..], k - 1) by {
          if Carried(rs[1..], k - 1) {
            forall i | 0 <= i < k ensures Advance(rs[i]).position == 0 {
              if i > 0 { assert rs[i] == rs[1..][i - 1]; }
            }
          }
        }
      } else {
        assert !Carried(rs, k);
      }
    }
  }

  /** The carry reaches rotor k + 1 exactly when it reaches rotor k and rotor k wraps. */
  lemma CarriedNext(rs: seq<RotorState>, k: nat)
    requires Turnable(rs) && k < |rs|
    ensures Carried(rs, k + 1) <==> Carried(rs, k) && Advance(rs[k]).position == 0
  {
  }

  /** Where the carry stops, it stops for good: from rotor k on nothing changes. */
  lemma Settled(rs: seq<RotorState>, k: nat)
    requires Turnable(rs) && k <= |rs| && !Carried(rs, k)
    ensures forall i :: k <= i < |rs| ==> Odometer(rs)[i] == rs[i]
  {
    forall i | k <= i < |rs| ensures Odometer(rs)[i] == rs[i] {
      OdometerAt(rs, i);
      assert !Carried(rs, i);
    }
  }

  /** The reading part-way through a step: rotors before k already turned, the rest not yet. */
  ghost function Partial(rs: seq<RotorState>, k: nat): seq<RotorState>
    requires Turnable(rs) && k <= |rs|
  {
    Odometer(rs)[..k] + rs[k..]
  }

  lemma PartialStart(rs: seq<RotorState>)
    requires Turnable(rs)
    ensures Partial(rs, 0) == rs
  {
  }

  /** While the carry reaches rotor k, stepping rotor k extends the turned prefix. */
  lemma PartialStep(rs: seq<RotorState>, k: nat)
    requires Turnable(rs) && k < |rs| && Carried(rs, k)
    ensures Partial(rs, k)[k] == rs[k]
    ensures Partial(rs, k)[k := Advance(rs[k])] == Partial(rs, k + 1)
  {
    OdometerAt(rs, k);
  }

  /** Once the carry has stopped, the partial reading is the full step. */
  lemma PartialDone(rs: seq<RotorState>, k: nat)
    requires Turnable(rs) && k <= |rs| && (k == |rs| || !Carried(rs, k))
    ensures Partial(rs, k) == Odometer(rs)
  {
    var r := Odometer(rs);
    if k < |rs| {
      SettledTail(rs, k);
    }
    Rejoin(r, k);
  }

  /** Cutting a sequence at k and putting it back together gives the sequence. */
  lemma Rejoin(r: seq<RotorState>, k: nat)
    requires k <= |r|
    ensures r[..k] + r[k..] == r
  {
  }

  lemma SettledTail(rs: seq<RotorState>, k: nat)
    requires Turnable(rs) && k < |rs| && !Carried(rs, k)
    ensures Odometer(rs)[k..] == rs[k..]
  {
    Settled(rs, k);
  }

  /**
   * Once a rotor does not wrap, nothing after it changes.
   */
  lemma StopsAtFirstNonWrap(rs: seq<RotorState>, k: nat, j: nat)
    requires Turnable(rs) && k < j < |rs|
    requires Advance(rs[k]).position != 0
    ensures Odometer(rs)[j] == rs[j]
  {
    OdometerAt(rs, j);
  }

  /** The mixed-radix number the positions spell, least significant rotor first. */
  function Count(rs: seq<RotorState>): nat {
    if rs == [] then 0 else rs[0].position + rs[0].size * Count(rs[1..])
  }

  ghost predicate InRange(rs: seq<RotorState>) {
    forall i :: 0 <= i < |rs| ==> rs[i].position < rs[i].size
  }

  ghost predicate AllAtTop(rs: seq<RotorState>) {
    forall i :: 0 <= i < |rs| ==> rs[i].position == rs[i].size - 1
  }

  /**
   * The odometer counts: one step adds one to the number the positions
   * spell, and the maximal reading rolls over to all zeros.
   */
  lemma {:induction false} OdometerCounts(rs: seq<RotorState>)
    requires Turnable(rs) && InRange(rs)
    ensures InRange(Odometer(rs))
    ensures Count(Odometer(rs)) == if AllAtTop(rs) then 0 else Count(rs) + 1
  {
    if rs != [] {
      if Advance(rs[0]).position == 0 {
        OdometerCounts(rs[1..]);
        CarryCounts(rs);
      } else {
        NoCarryCounts(rs);
      }
    }
  }

  /** The first rotor wraps: it reads 0 and the rest counts up by one (or rolls over). */
  lemma CarryCounts(rs: seq<RotorState>)
    requires Turnable(rs) && InRange(rs) && rs != [] && Advance(rs[0]).position == 0
    requires InRange(Odometer(rs[1..]))
    requires Count(Odometer(rs[1..])) == if AllAtTop(rs[1..]) then 0 else Count(rs[1..]) + 1
    ensures InRange(Odometer(rs))
    ensures Count(Odometer(rs)) == if AllAtTop(rs) then 0 else Count(rs) + 1
  {
    var first, rest := Advance(rs[0]), rs[1..];
    var s := rs[0].size;
    var r := Odometer(rs);
    assert r == [first] + Odometer(rest);
    assert r[1..] == Odometer(rest);
    AdvanceSteps(rs[0]);
    assert AllAtTop(rs) <==> AllAtTop(rest) by {
      if AllAtTop(rest) {
        forall i | 0 < i < |rs| ensures rs[i].position == rs[i].size - 1 {
          assert rs[i] == rest[i - 1];
        }
      }
    }
    var c, c' := Count(rest), Count(Odometer(rest));
    CountHead(r, 0, s, c');
    CountHead(rs, s - 1, s, c);
    CarryArith(s, c, c');
  }

  /** Count unfolded once, with the head's digit and radix and the tail's count named. */
  lemma CountHead(rs: seq<RotorState>, p: nat, s: nat, c: nat)
    requires rs != [] && rs[0].position == p && rs[0].size == s && Count(rs[1..]) == c
    ensures Count(rs) == p + s * c
  {
  }

  lemma CarryArith(s: int, c: int, c': int)
    ensures c' == 0 ==> s * c' == 0
    ensures c' == c + 1 ==> s * c' == (s - 1 + s * c) + 1
  {
  }

  /** The first rotor does not wrap: it alone moves, by one. */
  lemma NoCarryCounts(rs: seq<RotorState>)
    requires Turnable(rs) && InRange(rs) && rs != [] && Advance(rs[0]).position != 0
    ensures InRange(Odometer(rs))
    ensures Count(Odometer(rs)) == if AllAtTop(rs) then 0 else Count(rs) + 1
  {
    var r := Odometer(rs);
    assert r[1..] == rs[1..];
    AdvanceSteps(rs[0]);
    var p, s, c := rs[0].position, rs[0].size, Count(rs[1..]);
    CountHead(r, p + 1, s, c);
    CountHead(rs, p, s, c);
    assert !AllAtTop(rs);
  }

  /** `t` calls of `Block::rotate` in a row. */
  function Turned(rs: seq<RotorState>, t: nat): (r: seq<RotorState>)
    requires Turnable(rs)
    ensures |r| == |rs|
    ensures forall i :: 0 <= i < |rs| ==> r[i].shift == rs[i].shift && r[i].size == rs[i].size
  {
    if t == 0 then rs else Odometer(Turned(rs, t - 1))
  }

  ghost predicate AllZero(rs: seq<RotorState>) {
    forall i :: 0 <= i < |rs| ==> rs[i].position == 0
  }

  /** From all zeros, fewer than n steps move only the first rotor. */
  lemma {:induction false} TurnedFromZero(rs: seq<RotorState>, n: nat, t: nat)
    requires Uniform(rs, n) && AllZero(rs) && 0 < |rs| && t < n
    ensures Turned(rs, t) == FirstAt(rs, t)
  {
    if t == 0 {
      assert rs[0].(position := 0) == rs[0];
    } else {
      calc {
        Turned(rs, t);
        { TurnedStep(rs, t); }
        Odometer(Turned(rs, t - 1));
        { TurnedFromZero(rs, n, t - 1); }
        Odometer(FirstAt(rs, t - 1));
        { FirstRotorSteps(rs, n, t); }
        FirstAt(rs, t);
      }
    }
  }

  lemma TurnedStep(rs: seq<RotorState>, t: nat)
    requires Turnable(rs) && 0 < t
    ensures Turned(rs, t) == Odometer(Turned(rs, t - 1))
  {
  }

  /** The reading with the first rotor at position t. */
  function FirstAt(rs: seq<RotorState>, t: nat): seq<RotorState>
    requires 0 < |rs|
  {
    rs[0 := rs[0].(position := t)]
  }

  lemma FirstRotorSteps(rs: seq<RotorState>, n: nat, t: nat)
    requires Uniform(rs, n) && AllZero(rs) && 0 < |rs| && 0 < t < n
    ensures Odometer(FirstAt(rs, t - 1)) == FirstAt(rs, t)
  {
    var prev := FirstAt(rs, t - 1);
    var want := FirstAt(rs, t);
    ModUnique(0, t, n, t);
    assert Advance(prev[0]).position == t;
    forall k | 0 <= k < |rs| ensures Odometer(prev)[k] == want[k] {
      OdometerAt(prev, k);
      if k > 0 {
        assert !Carried(prev, k);
      }
    }
  }

  /**
   * From all zeros with n >= 2, after n steps the first rotor is back at 0,
   * the second has moved to 1, and the rest are still at 0.
   */
  lemma FullTurn(rs: seq<RotorState>, n: nat)
    requires Uniform(rs, n) && AllZero(rs) && 2 <= |rs| && 2 <= n
    ensures Turned(rs, n) == SecondAt(rs, 1)
  {
    TurnedStep(rs, n);
    TurnedFromZero(rs, n, n - 1);
    FirstWraps(rs, n);
  }

  /** The reading with the first rotor at 0 and the second at position p. */
  function SecondAt(rs: seq<RotorState>, p: nat): seq<RotorState>
    requires 2 <= |rs|
  {
    rs[0 := rs[0].(position := 0)][1 := rs[1].(position := p)]
  }

  /** The first rotor at its last position wraps and carries the second from 0 to 1. */
  lemma FirstWraps(rs: seq<RotorState>, n: nat)
    requires Uniform(rs, n) && AllZero(rs) && 2 <= |rs| && 2 <= n
    ensures Odometer(FirstAt(rs, n - 1)) == SecondAt(rs, 1)
  {
    var prev := FirstAt(rs, n - 1);
    var rest := prev[1..];
    ModUnique(1, 0, n, n);
    ModUnique(0, 1, n, 1);
    var top, second := Advance(prev[0]), Advance(rest[0]);
    assert top == rs[0].(position := 0);
    assert second == rs[1].(position := 1);
    assert Odometer(rest) == [second] + rest[1..];
    assert rest[1..] == rs[2..];
  }

  /** How many distinct readings the rotors can show: the product of their sizes. */
  function Capacity(rs: seq<RotorState>): nat {
    if rs == [] then 1 else rs[0].size * Capacity(rs[1..])
  }

  lemma {:induction false} CapacityPositive(rs: seq<RotorState>)
    requires Turnable(rs)
    ensures Capacity(rs) >= 1
  {
    if rs != [] {
      CapacityPositive(rs[1..]);
      MulAtLeastOne(rs[0].size, Capacity(rs[1..]));
    }
  }

  lemma MulAtLeastOne(a: int, b: int)
    requires a >= 1 && b >= 1
    ensures a * b >= 1
  {
  }

  /** Readings of rotors with the same sizes have the same range. */
  lemma {:induction false} CapacityOfSizes(a: seq<RotorState>, b: seq<RotorState>)
    requires |a| == |b| && forall i :: 0 <= i < |a| ==> a[i].size == b[i].size
    ensures Capacity(a) == Capacity(b)
  {
    if a != [] {
      CapacityOfSizes(a[1..], b[1..]);
    }
  }

  /** A reading in range is below the capacity. */
  lemma {:induction false} CountBelow(rs: seq<RotorState>)
    requires Turnable(rs) && InRange(rs)
    ensures Count(rs) < Capacity(rs)
  {
    if rs != [] {
      var rest := rs[1..];
      CountBelow(rest);
      var p, s, c := rs[0].position, rs[0].size, Count(rest);
      CountHead(rs, p, s, c);
      BelowArith(p, s, c, Capacity(rest));
    }
  }

  lemma BelowArith(p: int, s: int, c: int, cap: int)
    requires 0 <= p < s && 0 <= c < cap
    ensures p + s * c < s * cap
  {
    assert s * cap - s * c == s * (cap - c);
    MulAtLeastOne(s, cap - c);
  }

  /** The maximal reading is the capacity minus one. */
  lemma {:induction false} TopCount(rs: seq<RotorState>)
    requires Turnable(rs) && AllAtTop(rs)
    ensures Count(rs) == Capacity(rs) - 1
  {
    if rs != [] {
      var rest := rs[1..];
      TopCount(rest);
      var s := rs[0].size;
      CountHead(rs, s - 1, s, Capacity(rest) - 1);
      assert s - 1 + s * (Capacity(rest) - 1) == s * Capacity(rest) - 1;
    }
  }

  /** Only the all-zero reading counts zero. */
  lemma {:induction false} ZeroCount(rs: seq<RotorState>)
    requires Turnable(rs)
    ensures Count(rs) == 0 <==> AllZero(rs)
  {
    if rs != [] {
      var rest := rs[1..];
      ZeroCount(rest);
      var p, s, c := rs[0].position, rs[0].size, Count(rest);
      CountHead(rs, p, s, c);
      if c > 0 {
        MulAtLeastOne(s, c);
      }
      if AllZero(rest) && p == 0 {
        forall i | 0 <= i < |rs| ensures rs[i].position == 0 {
          if i > 0 {
            assert rs[i] == rest[i - 1];
          }
        }
      }
    }
  }

  /**
   * The odometer counts: t steps from a reading in range add t to the
   * number it spells, as long as that stays below the capacity.
   */
  lemma {:induction false} TurnedCount(rs: seq<RotorState>, t: nat)
    requires Turnable(rs) && InRange(rs) && Count(rs) + t < Capacity(rs)
    ensures InRange(Turned(rs, t)) && Count(Turned(rs, t)) == Count(rs) + t
  {
    if t > 0 {
      TurnedCount(rs, t - 1);
      var prev := Turned(rs, t - 1);
      var c, cap := Count(prev), Capacity(prev);
      TurnedCapacity(rs, t - 1);
      assert c == Count(rs) + t - 1 && cap == Capacity(rs);
      CountsUp(prev);
      TurnedStep(rs, t);
    }
  }

  /** Turning never changes the sizes, so never the capacity. */
  lemma TurnedCapacity(rs: seq<RotorState>, t: nat)
    requires Turnable(rs)
    ensures Turnable(Turned(rs, t)) && Capacity(Turned(rs, t)) == Capacity(rs)
  {
    CapacityOfSizes(Turned(rs, t), rs);
  }

  /** Below the top reading, a step adds exactly one. */
  lemma CountsUp(rs: seq<RotorState>)
    requires Turnable(rs) && InRange(rs) && Count(rs) + 1 < Capacity(rs)
    ensures InRange(Odometer(rs)) && Count(Odometer(rs)) == Count(rs) + 1
  {
    if AllAtTop(rs) {
      TopCount(rs);
    }
    OdometerCounts(rs);
  }

  /**
   * From all zeros with n >= 2, after n * n steps the first two rotors are
   * back at 0, the third has moved to 1, and the rest are still at 0.
   */
  lemma SecondCarry(rs: seq<RotorState>, n: nat)
    requires Uniform(rs, n) && AllZero(rs) && 3 <= |rs| && 2 <= n
    ensures Turned(rs, n * n) == rs[2 := rs[2].(position := 1)]
  {
    var r := Turned(rs, n * n);
    ZeroCount(rs);
    CapacityAbove(rs, n);
    TurnedCount(rs, n * n);
    var want := rs[2 := rs[2].(position := 1)];
    var rest := r[3..];
    ThreeDigits(r, n);
    ZeroCount(rest);
    forall i | 0 <= i < |rs| ensures r[i] == want[i] {
      if i >= 3 {
        assert r[i] == rest[i - 3];
      }
    }
  }

  /** Three rotors of size n >= 2 and more give room for more than n * n readings. */
  lemma CapacityAbove(rs: seq<RotorState>, n: nat)
    requires Uniform(rs, n) && 3 <= |rs| && 2 <= n
    ensures n * n < Capacity(rs)
  {
    var r1, r2, r3 := rs[1..], rs[2..], rs[3..];
    assert r1[1..] == r2 && r2[1..] == r3;
    CapacityPositive(r3);
    var c3 := Capacity(r3);
    var c2 := Capacity(r2);
    var c1 := Capacity(r1);
    assert c2 == n * c3 && c1 == n * c2 && Capacity(rs) == n * c1;
    CubeAbove(n, c3, c2, c1, Capacity(rs));
  }

  lemma CubeAbove(n: int, c3: int, c2: int, c1: int, c0: int)
    requires n >= 2 && c3 >= 1 && c2 == n * c3 && c1 == n * c2 && c0 == n * c1
    ensures n * n < c0
  {
    assert c2 >= 2;
    assert c1 >= n * 2;
    assert c0 >= n * (n * 2);
  }

  /** The reading n * n of rotors of size n: digits 0, 0, 1 and zero above. */
  lemma ThreeDigits(r: seq<RotorState>, n: nat)
    requires Uniform(r, n) && InRange(r) && 3 <= |r| && 2 <= n && Count(r) == n * n
    ensures r[0].position == 0 && r[1].position == 0 && r[2].position == 1
    ensures Count(r[3..]) == 0
  {
    var r1, r2, r3 := r[1..], r[2..], r[3..];
    assert r1[1..] == r2 && r2[1..] == r3;
    var p0, p1, p2 := r[0].position, r[1].position, r[2].position;
    var c1, c2, c3 := Count(r1), Count(r2), Count(r3);
    CountHead(r, p0, n, c1);
    CountHead(r1, p1, n, c2);
    CountHead(r2, p2, n, c3);
    Digit(p0, c1, n, 0, n);
    Digit(p1, c2, n, 0, 1);
    Digit(p2, c3, n, 1, 0);
  }

  /** Mixed-radix digits are unique: p + n * c == q + n * d with p, q < n forces p == q and c == d. */
  lemma Digit(p: int, c: int, n: int, q: int, d: int)
    requires 0 <= p < n && 0 <= q < n && p + n * c == q + n * d
    ensures p == q && c == d
  {
    ModUnique(c, p, n, p + n * c);
    ModUnique(d, q, n, p + n * c);
    assert n * c == n * d;
    assert n * (c - d) == 0;
  }

  /** `Block::load_positions`: the zip of rotors and positions; rotors past the shorter end keep theirs. */
  function Loaded(rs: seq<RotorState>, pos: seq<nat>): (r: seq<RotorState>)
    requires Turnable(rs)
  {
    seq(|rs|, j requires 0 <= j < |rs| =>
      if j < |pos| then rs[j].(position := pos[j] % rs[j].size) else rs[j])
  }

  /** `Block`: the rotors are owned by the block; only their positions change. */
  class Block {
    const rotors: seq<Rotor>

    ghost function Repr(): set<object> {
      set r | r in rotors
    }

    ghost predicate Valid()
      reads Repr()
    {
      && (forall i, j :: 0 <= i < j < |rotors| ==> rotors[i] != rotors[j])
      && (forall i :: 0 <= i < |rotors| ==> rotors[i].Valid())
    }

    /** All rotors work over an alphabet of n letters. */
    ghost predicate Sized(n: nat) {
      forall i :: 0 <= i < |rotors| ==> rotors[i].size == n
    }

    function State(): seq<RotorState>
      reads Repr()
    {
      seq(|rotors|, i requires 0 <= i < |rotors| reads Repr() => rotors[i].State())
    }

    constructor (rotors: seq<Rotor>)
      requires forall i, j :: 0 <= i < j < |rotors| ==> rotors[i] != rotors[j]
      ensures this.rotors == rotors
    {
      this.rotors := rotors;
    }

    /** `Block::save_positions`: every rotor's position, in order. */
    function SavePositions(): (ps: seq<nat>)
      reads Repr()
      requires Valid()
      ensures |ps| == |rotors|
      ensures forall i :: 0 <= i < |rotors| ==> ps[i] == State()[i].position < State()[i].size
    {
      seq(|rotors|, i requires 0 <= i < |rotors| && rotors[i].Valid() reads Repr() => rotors[i].SavePosition())
    }

    /** `Block::process_index`: the rotors in declared order, or in reverse order in reverse mode. */
    method Process(idx: nat, reverse: bool) returns (out: nat)
      requires Valid()
      ensures out == ProcessIndex(State(), idx, reverse)
    {
      ghost var rs := State();
      out := idx;
      if !reverse {
        for k := 0 to |rotors|
          invariant out == Forward(rs[..k], idx)
        {
          assert rs[..k + 1][..k] == rs[..k];
          out := Encode(rotors[k].State(), out, false);
        }
        assert rs[..|rotors|] == rs;
      } else {
        var k := |rotors|;
        assert rs[..k] == rs;
        while k > 0
          invariant 0 <= k <= |rotors|
          invariant Backward(rs, idx) == Backward(rs[..k], out)
        {
          k := k - 1;
          assert rs[..k + 1][..k] == rs[..k];
          out := Encode(rotors[k].State(), out, true);
        }
      }
    }

    /**
     * `Block::rotate`: steps the first rotor and carries into the next while
     * rotors wrap; stops at the first one that does not.
     */
    method Rotate()
      requires Valid()
      modifies Repr()
      ensures Valid()
      ensures State() == Odometer(old(State()))
    {
      ghost var before := State();
      PartialStart(before);
      var carry := true;
      for k := 0 to |rotors|
        invariant Valid()
        invariant carry <==> Carried(before, k)
        invariant State() == Partial(before, k)
      {
        if carry {
          PartialStep(before, k);
          CarriedNext(before, k);
          carry := StepRotor(k);
        } else {
          PartialDone(before, k);
          break;
        }
      }
      PartialDone(before, |rotors|);
    }

    /** One rotor of the block steps; the others keep their state. */
    method StepRotor(k: nat) returns (wrapped: bool)
      requires Valid() && k < |rotors|
      modifies rotors[k]
      ensures Valid()
      ensures State() == old(State())[k := Advance(old(State())[k])]
      ensures wrapped <==> State()[k].position == 0
    {
      wrapped := rotors[k].Rotate();
    }

    /** `Block::load_positions`: loads `pos[i]` into rotor i for the indices both share. */
    method LoadPositions(pos: seq<nat>)
      requires Valid()
      modifies Repr()
      ensures Valid()
      ensures State() == Loaded(old(State()), pos)
    {
      ghost var before := State();
      var k := 0;
      while k < |rotors| && k < |pos|
        invariant 0 <= k <= |rotors|
        invariant Valid()
        invariant forall i :: 0 <= i < k ==> rotors[i].State() == Loaded(before, pos)[i]
        invariant forall i :: k <= i < |rotors| ==> rotors[i].State() == before[i]
      {
        rotors[k].LoadPosition(pos[k]);
        k := k + 1;
      }
    }
  }

  /**
   * `Block::new`: one fresh rotor per colour letter, in order; the first
   * letter outside the colour table is an error.
   */
  method NewBlock(colours: string, alphabetLen: nat) returns (res: Result<Block, ConfigError>)
    requires alphabetLen > 0
    ensures res.Failure? <==> FirstUnknownColour(colours).Some?
    ensures res.Failure? ==> res.error == UnknownColour(FirstUnknownColour(colours).value)
    ensures res.Success? ==>
      && AllColours(colours)
      && fresh(res.value.Repr())
      && res.value.Valid()
      && res.value.Sized(alphabetLen)
      && res.value.State() == InitialRotors(colours, alphabetLen)
  {
    var made := NewRotors(colours, alphabetLen);
    if made.Failure? {
      return Failure(made.error);
    }
    var b := new Block(made.value);
    assert b.rotors == made.value;
    assert b.State() == InitialRotors(colours, alphabetLen);
    res := Success(b);
  }

  /** The rotors of `Block::new`, one per colour letter, each fresh and at position 0. */
  method NewRotors(colours: string, alphabetLen: nat) returns (res: Result<seq<Rotor>, ConfigError>)
    requires alphabetLen > 0
    ensures res.Failure? <==> FirstUnknownColour(colours).Some?
    ensures res.Failure? ==> res.error == UnknownColour(FirstUnknownColour(colours).value)
    ensures res.Success? ==>
      && AllColours(colours)
      && |res.value| == |colours|
      && (forall i :: 0 <= i < |colours| ==> fresh(res.value[i]) && res.value[i].Valid())
      && (forall i :: 0 <= i < |colours| ==> res.value[i].State() == InitialRotors(colours, alphabetLen)[i])
      && (forall i, j :: 0 <= i < j < |colours| ==> res.value[i] != res.value[j])
  {
    var rotors: seq<Rotor> := [];
    var k := 0;
    while k < |colours| && ColourShift(colours[k]).Some?
      invariant k <= |colours| && |rotors| == k
      invariant FirstUnknownColour(colours) == FirstUnknownColour(colours[k..])
      invariant forall i :: 0 <= i < k ==>
        && ColourShift(colours[i]).Some? && fresh(rotors[i])
        && rotors[i].shift == ColourShift(colours[i]).value && rotors[i].size == alphabetLen && rotors[i].position == 0
      invariant forall i, j :: 0 <= i < j < k ==> rotors[i] != rotors[j]
    {
      assert colours[k..][1..] == colours[k + 1..];
      var r := new Rotor(ColourShift(colours[k]).value, alphabetLen);
      rotors := rotors + [r];
      k := k + 1;
    }
    if k < |colours| {
      return Failure(UnknownColour(colours[k]));
    }
    res := Success(rotors);
  }
}
