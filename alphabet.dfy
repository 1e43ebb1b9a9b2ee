/**
 * The alphabets of the machine and `AlphabetIndex`, the table that maps a
 * character to its position in the alphabet in constant time.
 */
module Alphabet {
  import opened Wrappers

  /** The two built-in alphabets; index order is declaration order. */
  const Latin: string := "abcdefghijklmnopqrstuvwxyz"
  const Cyrillic: string := "абвгдеёжзийклмнопрстуфхцчшщъыьэюя"

  predicate Distinct(s: seq<char>) {
    forall i, j :: 0 <= i < j < |s| ==> s[i] != s[j]
  }

  /**
   * Reference lookup: the position of the last occurrence of `c` in `s`.
   * (The table keeps the last writer when a character repeats.)
   */
  function LastIndex(s: seq<char>, c: char): (r: Option<nat>)
    ensures r.None? <==> c !in s
    ensures r.Some? ==> r.value < |s| && s[r.value] == c
    ensures r.Some? ==> forall j :: r.value < j < |s| ==> s[j] != c
  {
    if s == [] then None
    else if s[|s| - 1] == c then Some(|s| - 1)
    else LastIndex(s[..|s| - 1], c)
  }

  /** In an alphabet without repeats, every character is found at its own position. */
  lemma LastIndexOfDistinct(s: seq<char>, i: nat)
    requires Distinct(s) && i < |s|
    ensures LastIndex(s, s[i]) == Some(i)
  {
  }

  /**
   * The lookup table: slot `k` holds the index of the character whose code
   * is `min + k`, or None when no alphabet character has that code.
   */
  datatype AlphabetIndex = AlphabetIndex(min: nat, indices: seq<Option<nat>>)

  /** `AlphabetIndex::get`: None for every code outside [min, min + |indices|). */
  function Get(ix: AlphabetIndex, c: char): (r: Option<nat>)
    requires |ix.indices| > 0
    ensures r.Some? ==> ix.min <= c as int < ix.min + |ix.indices|
  {
    var code := c as int;
    if code < ix.min || code > ix.min + (|ix.indices| - 1) then None
    else ix.indices[code - ix.min]
  }

  /** The table answers every query as the reference lookup over `alphabet` does. */
  ghost predicate Indexes(ix: AlphabetIndex, alphabet: seq<char>) {
    |ix.indices| > 0 && forall c :: Get(ix, c) == LastIndex(alphabet, c)
  }

  /**
   * `AlphabetIndex::new`: spans the codes from the smallest to the largest
   * character of the alphabet and records every character's index.
   * An empty alphabet makes the source panic (`min().unwrap()`).
   */
  method NewIndex(alphabet: seq<char>) returns (ix: AlphabetIndex)
    requires |alphabet| > 0
    ensures |ix.indices| > 0
    ensures forall i :: 0 <= i < |alphabet| ==> ix.min <= alphabet[i] as int < ix.min + |ix.indices|
    ensures exists i :: 0 <= i < |alphabet| && alphabet[i] as int == ix.min
    ensures exists i :: 0 <= i < |alphabet| && alphabet[i] as int == ix.min + |ix.indices| - 1
    ensures forall c :: Get(ix, c) == LastIndex(alphabet, c)
  {
    var lo, hi := alphabet[0] as int, alphabet[0] as int;
    for k := 1 to |alphabet|
      invariant forall i :: 0 <= i < k ==> lo <= alphabet[i] as int <= hi
      invariant exists i :: 0 <= i < k && alphabet[i] as int == lo
      invariant exists i :: 0 <= i < k && alphabet[i] as int == hi
    {
      var code := alphabet[k] as int;
      if code < lo { lo := code; }
      if code > hi { hi := code; }
    }
    var indices := new Option<nat>[hi - lo + 1](_ => None);
    for i := 0 to |alphabet|
      invariant forall c :: Get(AlphabetIndex(lo, indices[..]), c) == LastIndex(alphabet[..i], c)
    {
      indices[alphabet[i] as int - lo] := Some(i);
      assert alphabet[..i + 1][..i] == alphabet[..i];
      forall c
        ensures Get(AlphabetIndex(lo, indices[..]), c) == LastIndex(alphabet[..i + 1], c)
      {
        if c != alphabet[i] {
          assert c as int != alphabet[i] as int;
        }
      }
    }
    assert alphabet[..|alphabet|] == alphabet;
    ix := AlphabetIndex(lo, indices[..]);
  }

  /** Neither built-in alphabet repeats a character. */
  lemma LatinDistinct()
    ensures |Latin| == 26 && Distinct(Latin)
  {
    assert Ascending(Latin);
    AscendingDistinct(Latin);
  }

  lemma CyrillicDistinct()
    ensures |Cyrillic| == 33 && Distinct(Cyrillic)
  {
    forall i | 0 <= i < |Cyrillic| - 1 ensures Key(Cyrillic[i]) < Key(Cyrillic[i + 1]) {
      if i < 8 {} else if i < 16 {} else if i < 24 {} else {}
    }
    AscendingDistinct(Cyrillic);
  }

  /**
   * A sort key under which both alphabets are strictly increasing: code
   * order, except that 'ё' (which sits after 'е' in the alphabet but far
   * above 'я' in code order) is placed between 'е' and 'ж'.
   */
  function Key(c: char): int {
    if c == 'ё' then 2 * ('е' as int) + 1 else 2 * (c as int)
  }

  predicate Ascending(s: seq<char>) {
    forall i :: 0 <= i < |s| - 1 ==> Key(s[i]) < Key(s[i + 1])
  }

  lemma {:induction false} AscendingBelow(s: seq<char>, i: nat, j: nat)
    requires Ascending(s) && i < j < |s|
    ensures Key(s[i]) < Key(s[j])
    decreases j - i
  {
    if i + 1 < j {
      AscendingBelow(s, i + 1, j);
    }
  }

  lemma AscendingDistinct(s: seq<char>)
    requires Ascending(s)
    ensures Distinct(s)
  {
    forall i, j | 0 <= i < j < |s|
      ensures s[i] != s[j]
    {
      AscendingBelow(s, i, j);
    }
  }
}
