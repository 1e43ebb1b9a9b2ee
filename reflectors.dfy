/** The reflector: the fixed table i -> len - 1 - i over the alphabet's indices. */
module Reflectors {

  datatype Reflector = Reflector(mapIdx: seq<nat>)

  /** The table of a reflector for n letters. */
  ghost predicate Mirrors(r: Reflector, n: nat) {
    |r.mapIdx| == n && forall i :: 0 <= i < n ==> r.mapIdx[i] == n - 1 - i
  }

  /** `Reflector::new`: fills a table of the alphabet's length, slot i with len - 1 - i. */
  method NewReflector(alphabet: seq<char>) returns (r: Reflector)
    ensures Mirrors(r, |alphabet|)
  {
    var len := |alphabet|;
    var mapIdx := new nat[len](_ => 0);
    for i := 0 to len
      invariant forall j :: 0 <= j < i ==> mapIdx[j] == len - 1 - j
    {
      mapIdx[i] := len - 1 - i;
    }
    r := Reflector(mapIdx[..]);
  }

  /** `Reflector::reflect_index`. */
  function ReflectIndex(r: Reflector, idx: nat): (out: nat)
    requires idx < |r.mapIdx|
    ensures Mirrors(r, |r.mapIdx|) ==> out == |r.mapIdx| - 1 - idx
  {
    r.mapIdx[idx]
  }

  /** Reflecting twice gives the index back: the reflector is an involution on [0, n). */
  lemma ReflectInvolution(r: Reflector, n: nat, idx: nat)
    requires Mirrors(r, n) && idx < n
    ensures ReflectIndex(r, idx) < n
    ensures ReflectIndex(r, ReflectIndex(r, idx)) == idx
  {
  }
}
