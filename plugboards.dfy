/**
 * The plugboard: an index table that starts as the identity and gets one
 * swap written in place per configured character pair.
 */
module Plugboards {
  import opened Wrappers
  import opened Configs
  import opened Alphabet

  function Identity(n: nat): seq<nat> {
    seq(n, i requires 0 <= i < n => i)
  }

  /** The table maps [0, |m|) into itself and undoes itself. */
  predicate Involution(m: seq<nat>) {
    forall i :: 0 <= i < |m| ==> m[i] < |m| && m[m[i]] == i
  }

  predicate InAlphabet(alphabet: seq<char>, pairs: seq<(char, char)>) {
    forall k :: 0 <= k < |pairs| ==> pairs[k].0 in alphabet && pairs[k].1 in alphabet
  }

  /** No character appears in two different pairs (a pair of a letter with itself is allowed). */
  predicate PairsDisjoint(pairs: seq<(char, char)>) {
    forall i, j :: 0 <= i < j < |pairs| ==>
      && pairs[i].0 != pairs[j].0 && pairs[i].0 != pairs[j].1
      && pairs[i].1 != pairs[j].0 && pairs[i].1 != pairs[j].1
  }

  /** The first pair character, first before second and pair by pair, that is not in the alphabet. */
  function FirstStranger(alphabet: seq<char>, pairs: seq<(char, char)>): (r: Option<char>)
    ensures r.None? <==> InAlphabet(alphabet, pairs)
    ensures r.Some? ==> r.value !in alphabet
  {
    if pairs == [] then None
    else if pairs[0].0 !in alphabet then Some(pairs[0].0)
    else if pairs[0].1 !in alphabet then Some(pairs[0].1)
    else FirstStranger(alphabet, pairs[1..])
  }

  /** Where a character of the alphabet sits, as the index table reports it. */
  function Slot(alphabet: seq<char>, c: char): (i: nat)
    requires c in alphabet
    ensures i < |alphabet| && alphabet[i] == c
  {
    LastIndex(alphabet, c).value
  }

  /** Reference table: the identity with the pairs swapped in order, a later write winning. */
  function Wire(alphabet: seq<char>, pairs: seq<(char, char)>): (m: seq<nat>)
    requires InAlphabet(alphabet, pairs)
    ensures |m| == |alphabet|
    ensures forall i :: 0 <= i < |m| ==> m[i] < |m|
  {
    if pairs == [] then Identity(|alphabet|)
    else
      var (a, b) := pairs[|pairs| - 1];
      var m := Wire(alphabet, pairs[..|pairs| - 1]);
      m[Slot(alphabet, a) := Slot(alphabet, b)][Slot(alphabet, b) := Slot(alphabet, a)]
  }

  /**
   * The plugboard part of `EnigmaSudnogoDnya::new`: starts from the identity
   * and for each pair (a, b) writes map[ia] := ib, map[ib] := ia; a pair
   * character the index does not know stops construction.
   */
  method WirePlugboard(ix: AlphabetIndex, ghost alphabet: seq<char>, n: nat, pairs: seq<(char, char)>)
    returns (res: Result<seq<nat>, ConfigError>)
    requires Indexes(ix, alphabet) && n == |alphabet|
    ensures FirstStranger(alphabet, pairs).Some? ==>
      res == Failure(OutsideAlphabet(FirstStranger(alphabet, pairs).value))
    ensures FirstStranger(alphabet, pairs).None? ==> res == Success(Wire(alphabet, pairs))
  {
    var m := new nat[n](i => i);
    assert m[..] == Wire(alphabet, pairs[..0]);
    for k := 0 to |pairs|
      invariant FirstStranger(alphabet, pairs) == FirstStranger(alphabet, pairs[k..])
      invariant InAlphabet(alphabet, pairs[..k])
      invariant m[..] == Wire(alphabet, pairs[..k])
    {
      var (a, b) := pairs[k];
      var ia := Get(ix, a);
      if ia.None? {
        return Failure(OutsideAlphabet(a));
      }
      var ib := Get(ix, b);
      if ib.None? {
        return Failure(OutsideAlphabet(b));
      }
      WireStep(alphabet, pairs, k);
      m[ia.value] := ib.value;
      m[ib.value] := ia.value;
    }
    assert pairs[..|pairs|] == pairs;
    res := Success(m[..]);
  }

  /** One more pair: the scan moves past it and the table gets its two writes. */
  lemma WireStep(alphabet: seq<char>, pairs: seq<(char, char)>, k: nat)
    requires k < |pairs| && InAlphabet(alphabet, pairs[..k])
    requires pairs[k].0 in alphabet && pairs[k].1 in alphabet
    ensures FirstStranger(alphabet, pairs[k..]) == FirstStranger(alphabet, pairs[k + 1..])
    ensures InAlphabet(alphabet, pairs[..k + 1])
    ensures Wire(alphabet, pairs[..k + 1]) ==
      var (a, b) := pairs[k];
      Wire(alphabet, pairs[..k])[Slot(alphabet, a) := Slot(alphabet, b)][Slot(alphabet, b) := Slot(alphabet, a)]
  {
    assert pairs[k..][1..] == pairs[k + 1..];
    assert pairs[..k + 1][..k] == pairs[..k];
  }

  /** No pair mentions index x. */
  ghost predicate Untouched(alphabet: seq<char>, pairs: seq<(char, char)>, x: nat)
    requires InAlphabet(alphabet, pairs)
  {
    forall k :: 0 <= k < |pairs| ==> Slot(alphabet, pairs[k].0) != x && Slot(alphabet, pairs[k].1) != x
  }

  /** Swapping two fixed points of an involution keeps it an involution. */
  lemma SwapFixedPoints(m: seq<nat>, a: nat, b: nat)
    requires Involution(m) && a < |m| && b < |m| && m[a] == a && m[b] == b
    ensures Involution(m[a := b][b := a])
  {
    var m' := m[a := b][b := a];
    forall x | 0 <= x < |m'| ensures m'[x] < |m'| && m'[m'[x]] == x {
      if x != a && x != b {
        assert m[x] != a && m[x] != b;
      }
    }
  }

  /** Every index no pair mentions is left where it is. */
  lemma {:induction false} WireFixes(alphabet: seq<char>, pairs: seq<(char, char)>, x: nat)
    requires InAlphabet(alphabet, pairs) && x < |alphabet| && Untouched(alphabet, pairs, x)
    ensures Wire(alphabet, pairs)[x] == x
  {
    if pairs != [] {
      var init := pairs[..|pairs| - 1];
      assert Untouched(alphabet, init, x) by {
        forall k | 0 <= k < |init| ensures Slot(alphabet, init[k].0) != x && Slot(alphabet, init[k].1) != x {
          assert init[k] == pairs[k];
        }
      }
      WireFixes(alphabet, init, x);
      assert Slot(alphabet, pairs[|pairs| - 1].0) != x && Slot(alphabet, pairs[|pairs| - 1].1) != x;
    }
  }

  /** With pairwise disjoint pairs, the table is an involution. */
  lemma {:induction false} WireInvolution(alphabet: seq<char>, pairs: seq<(char, char)>)
    requires InAlphabet(alphabet, pairs) && PairsDisjoint(pairs)
    ensures Involution(Wire(alphabet, pairs))
  {
    if pairs != [] {
      var init := pairs[..|pairs| - 1];
      var (a, b) := pairs[|pairs| - 1];
      var ia, ib := Slot(alphabet, a), Slot(alphabet, b);
      assert PairsDisjoint(init);
      WireInvolution(alphabet, init);
      LastSlotsUntouched(alphabet, pairs);
      WireFixes(alphabet, init, ia);
      WireFixes(alphabet, init, ib);
      SwapFixedPoints(Wire(alphabet, init), ia, ib);
    }
  }

  /** With pairwise disjoint pairs, no earlier pair mentions the slots of the last one. */
  lemma LastSlotsUntouched(alphabet: seq<char>, pairs: seq<(char, char)>)
    requires InAlphabet(alphabet, pairs) && PairsDisjoint(pairs) && pairs != []
    ensures Untouched(alphabet, pairs[..|pairs| - 1], Slot(alphabet, pairs[|pairs| - 1].0))
    ensures Untouched(alphabet, pairs[..|pairs| - 1], Slot(alphabet, pairs[|pairs| - 1].1))
  {
    var init := pairs[..|pairs| - 1];
    var (a, b) := pairs[|pairs| - 1];
    forall k | 0 <= k < |init|
      ensures Slot(alphabet, init[k].0) != Slot(alphabet, a) && Slot(alphabet, init[k].1) != Slot(alphabet, a)
      ensures Slot(alphabet, init[k].0) != Slot(alphabet, b) && Slot(alphabet, init[k].1) != Slot(alphabet, b)
    {
      assert init[k] == pairs[k];
    }
  }

  /** With pairwise disjoint pairs, each configured pair is swapped by the table. */
  lemma {:induction false} WireSwaps(alphabet: seq<char>, pairs: seq<(char, char)>, k: nat)
    requires InAlphabet(alphabet, pairs) && PairsDisjoint(pairs) && k < |pairs|
    ensures Wire(alphabet, pairs)[Slot(alphabet, pairs[k].0)] == Slot(alphabet, pairs[k].1)
    ensures Wire(alphabet, pairs)[Slot(alphabet, pairs[k].1)] == Slot(alphabet, pairs[k].0)
  {
    var init := pairs[..|pairs| - 1];
    if k < |init| {
      assert init[k] == pairs[k];
      assert PairsDisjoint(init);
      WireSwaps(alphabet, init, k);
      var (a, b) := pairs[|pairs| - 1];
      assert pairs[k].0 != a && pairs[k].0 != b && pairs[k].1 != a && pairs[k].1 != b;
    }
  }

  /**
   * The code does not refuse overlapping pairs: ('a','b') then ('b','c') over
   * the Latin alphabet leaves a table that is not an involution.
   */
  lemma OverlapBreaksInvolution()
    ensures InAlphabet(Latin, [('a', 'b'), ('b', 'c')])
    ensures !Involution(Wire(Latin, [('a', 'b'), ('b', 'c')]))
  {
    LatinSlots();
    var pairs := [('a', 'b'), ('b', 'c')];
    assert pairs[..1] == [('a', 'b')];
    var m1 := Wire(Latin, [('a', 'b')]);
    assert m1 == Identity(26)[0 := 1][1 := 0] by {
      assert [('a', 'b')][..0] == [];
    }
    var m := Wire(Latin, pairs);
    assert m == m1[1 := 2][2 := 1];
    assert m[0] == 1 && m[1] == 2;
  }

  lemma LatinSlots()
    ensures 'a' in Latin && 'b' in Latin && 'c' in Latin && |Latin| == 26
    ensures Slot(Latin, 'a') == 0 && Slot(Latin, 'b') == 1 && Slot(Latin, 'c') == 2
  {
    LatinDistinct();
    LastIndexOfDistinct(Latin, 0);
    LastIndexOfDistinct(Latin, 1);
    LastIndexOfDistinct(Latin, 2);
  }
}
