/**
 * `EnigmaSudnogoDnya`: the whole machine. A symbol's index goes through the
 * plugboard, forward through every block, through the reflector, back
 * through the blocks in reverse, and through the plugboard again; then every
 * block steps once. Characters outside the alphabet are copied unchanged and
 * do not step the rotors.
 */
module Enigma {
  import opened Wrappers
  import opened Configs
  import opened Alphabet
  import opened Rotors
  import opened Blocks
  import opened Reflectors
  import opened Plugboards

  /** The parts of a machine that never change after construction. */
  datatype Setup = Setup(alphabet: seq<char>, plugboard: seq<nat>, reflector: Reflector)

  ghost predicate Ready(s: Setup) {
    && |s.alphabet| > 0
    && |s.plugboard| == |s.alphabet|
    && (forall i :: 0 <= i < |s.plugboard| ==> s.plugboard[i] < |s.alphabet|)
    && Mirrors(s.reflector, |s.alphabet|)
  }

  /** Every rotor of every block works over the same n > 0 indices. */
  ghost predicate Sized(bs: seq<seq<RotorState>>, n: nat) {
    n > 0 && forall b :: 0 <= b < |bs| ==> Uniform(bs[b], n)
  }

  predicate AllTurnable(bs: seq<seq<RotorState>>) {
    forall b :: 0 <= b < |bs| ==> Turnable(bs[b])
  }

  /** The forward pass of `encrypt`: the blocks in order, each in forward mode. */
  function Through(bs: seq<seq<RotorState>>, idx: nat): nat
    requires AllTurnable(bs)
  {
    if bs == [] then idx
    else ProcessIndex(bs[|bs| - 1], Through(bs[..|bs| - 1], idx), false)
  }

  /** The return pass of `encrypt`: the blocks in reverse order, each in reverse mode. */
  function Back(bs: seq<seq<RotorState>>, idx: nat): nat
    requires AllTurnable(bs)
  {
    if bs == [] then idx
    else Back(bs[..|bs| - 1], ProcessIndex(bs[|bs| - 1], idx, true))
  }

  /** The return pass undoes the forward pass and the forward pass undoes the return pass. */
  lemma {:induction false} ThroughBack(bs: seq<seq<RotorState>>, n: nat, idx: nat)
    requires Sized(bs, n) && idx < n
    ensures Through(bs, idx) < n && Back(bs, idx) < n
    ensures Back(bs, Through(bs, idx)) == idx
    ensures Through(bs, Back(bs, idx)) == idx
  {
    if bs != [] {
      var init, last := bs[..|bs| - 1], bs[|bs| - 1];
      assert Sized(init, n);
      ThroughBack(init, n, idx);
      ProcessInverse(last, n, Through(init, idx));
      ProcessInverse(last, n, idx);
      ThroughBack(init, n, ProcessIndex(last, idx, true));
    }
  }

  /** The index `encrypt` produces for an alphabet index, at rotor state bs. */
  function Cipher(s: Setup, bs: seq<seq<RotorState>>, idx: nat): (out: nat)
    requires Ready(s) && Sized(bs, |s.alphabet|) && idx < |s.alphabet|
    ensures out < |s.alphabet|
  {
    var n := |s.alphabet|;
    var p := s.plugboard[idx];
    ThroughBack(bs, n, p);
    var f := Through(bs, p);
    var r := ReflectIndex(s.reflector, f);
    ThroughBack(bs, n, r);
    s.plugboard[Back(bs, r)]
  }

  /**
   * At a fixed rotor state the symbol map is an involution when the
   * plugboard is one: encrypting the output gives the input back.
   */
  lemma CipherInvolution(s: Setup, bs: seq<seq<RotorState>>, idx: nat)
    requires Ready(s) && Sized(bs, |s.alphabet|) && idx < |s.alphabet|
    requires Involution(s.plugboard)
    ensures Cipher(s, bs, Cipher(s, bs, idx)) == idx
  {
    var n := |s.alphabet|;
    var p := s.plugboard[idx];
    ThroughBack(bs, n, p);
    var f := Through(bs, p);
    ReflectInvolution(s.reflector, n, f);
    var r := ReflectIndex(s.reflector, f);
    ThroughBack(bs, n, r);
    var b := Back(bs, r);
    assert s.plugboard[s.plugboard[b]] == b;
  }

  /** Every block steps once, as an odometer. */
  function StepAll(bs: seq<seq<RotorState>>): (r: seq<seq<RotorState>>)
    requires AllTurnable(bs)
    ensures |r| == |bs|
    ensures forall b :: 0 <= b < |bs| ==> |r[b]| == |bs[b]|
    ensures forall b, i :: 0 <= b < |bs| && 0 <= i < |bs[b]| ==>
      r[b][i].shift == bs[b][i].shift && r[b][i].size == bs[b][i].size
  {
    seq(|bs|, b requires 0 <= b < |bs| => Odometer(bs[b]))
  }

  /**
   * `encrypt` over a whole text from rotor state bs: the output text and
   * the rotor state afterwards.
   */
  function Run(s: Setup, bs: seq<seq<RotorState>>, text: seq<char>): (r: (seq<char>, seq<seq<RotorState>>))
    requires Ready(s) && Sized(bs, |s.alphabet|)
    ensures |r.0| == |text|
    ensures Sized(r.1, |s.alphabet|)
    ensures |r.1| == |bs|
  {
    if text == [] then ([], bs)
    else
      var (out, st) := Run(s, bs, text[..|text| - 1]);
      var c := text[|text| - 1];
      match LastIndex(s.alphabet, c)
      case None => (out + [c], st)
      case Some(i) => (out + [s.alphabet[Cipher(s, st, i)]], StepAll(st))
  }

  /** How many characters of the text are in the alphabet: the symbols that step the rotors. */
  function Mapped(alphabet: seq<char>, text: seq<char>): (k: nat)
    ensures k <= |text|
    ensures k == |text| <==> forall i :: 0 <= i < |text| ==> text[i] in alphabet
  {
    if text == [] then 0
    else Mapped(alphabet, text[..|text| - 1]) + (if text[|text| - 1] in alphabet then 1 else 0)
  }

  /**
   * Characters outside the alphabet are copied unchanged; characters in it
   * become characters of the alphabet.
   */
  lemma {:induction false} RunShape(s: Setup, bs: seq<seq<RotorState>>, text: seq<char>, k: nat)
    requires Ready(s) && Sized(bs, |s.alphabet|) && k < |text|
    ensures text[k] !in s.alphabet ==> Run(s, bs, text).0[k] == text[k]
    ensures text[k] in s.alphabet ==> Run(s, bs, text).0[k] in s.alphabet
  {
    var init := text[..|text| - 1];
    if k < |init| {
      RunShape(s, bs, init, k);
      assert init[k] == text[k];
    }
  }

  /** After a text, each block has stepped once per character of the text that is in the alphabet. */
  lemma {:induction false} RunSteps(s: Setup, bs: seq<seq<RotorState>>, text: seq<char>, b: nat)
    requires Ready(s) && Sized(bs, |s.alphabet|) && b < |bs|
    ensures Run(s, bs, text).1[b] == Turned(bs[b], Mapped(s.alphabet, text))
  {
    if text != [] {
      var init, c := text[..|text| - 1], text[|text| - 1];
      RunSteps(s, bs, init, b);
      var st := Run(s, bs, init).1;
      var k := Mapped(s.alphabet, init);
      if c in s.alphabet {
        assert Run(s, bs, text).1 == StepAll(st);
        assert Mapped(s.alphabet, text) == k + 1;
        TurnedStep(bs[b], k + 1);
      } else {
        assert Run(s, bs, text).1 == st;
        assert Mapped(s.alphabet, text) == k;
      }
    }
  }

  /**
   * Over an alphabet without repeats and with an involutive plugboard,
   * encrypting the output from the same start state gives back the text,
   * and both runs leave the rotors in the same state.
   */
  lemma {:induction false} RunRoundTrip(s: Setup, bs: seq<seq<RotorState>>, text: seq<char>)
    requires Ready(s) && Sized(bs, |s.alphabet|)
    requires Distinct(s.alphabet) && Involution(s.plugboard)
    ensures Run(s, bs, Run(s, bs, text).0) == (text, Run(s, bs, text).1)
  {
    if text != [] {
      var init := text[..|text| - 1];
      var c := text[|text| - 1];
      RunRoundTrip(s, bs, init);
      var (o, st) := Run(s, bs, init);
      var (out, st') := Run(s, bs, text);
      var d := out[|out| - 1];
      SplitLast(out);
      SplitLast(text);
      match LastIndex(s.alphabet, c)
      case None =>
        assert d == c && st' == st;
        assert Run(s, bs, out) == (init + [c], st);
      case Some(i) =>
        SymbolRoundTrip(s, st, i);
        var j := Cipher(s, st, i);
        assert d == s.alphabet[j] && st' == StepAll(st);
        assert LastIndex(s.alphabet, d) == Some(j);
        assert Run(s, bs, out) == (init + [s.alphabet[Cipher(s, st, j)]], StepAll(st));
        assert s.alphabet[i] == c;
    }
  }

  lemma SplitLast(t: seq<char>)
    requires t != []
    ensures t == t[..|t| - 1] + [t[|t| - 1]]
  {
  }

  /** A character's image is in the alphabet and maps back to the character at the same rotor state. */
  lemma SymbolRoundTrip(s: Setup, bs: seq<seq<RotorState>>, i: nat)
    requires Ready(s) && Sized(bs, |s.alphabet|) && i < |s.alphabet|
    requires Distinct(s.alphabet) && Involution(s.plugboard)
    ensures LastIndex(s.alphabet, s.alphabet[Cipher(s, bs, i)]) == Some(Cipher(s, bs, i))
    ensures s.alphabet[Cipher(s, bs, Cipher(s, bs, i))] == s.alphabet[i]
  {
    LastIndexOfDistinct(s.alphabet, Cipher(s, bs, i));
    CipherInvolution(s, bs, i);
  }

  /** Every block of the configuration names only colours from the table. */
  function ColourError(blocks: seq<string>): (r: Option<char>)
    ensures r.None? <==> forall b :: 0 <= b < |blocks| ==> AllColours(blocks[b])
  {
    if blocks == [] then None
    else if FirstUnknownColour(blocks[0]).Some? then FirstUnknownColour(blocks[0])
    else ColourError(blocks[1..])
  }

  /** The scan of the colour strings from string i: string i's first unknown letter, else the rest. */
  lemma ColourErrorStep(colours: seq<string>, i: nat)
    requires i < |colours|
    ensures ColourError(colours[i..]) ==
      if FirstUnknownColour(colours[i]).Some? then FirstUnknownColour(colours[i]) else ColourError(colours[i + 1..])
  {
    assert colours[i..][1..] == colours[i + 1..];
  }

  /** The alphabet the tag selects: "latin", anything else Cyrillic. */
  function AlphabetOf(cfg: Config): (a: string)
    ensures a == Latin <==> cfg.alphabet == "latin"
  {
    LatinDistinct();
    CyrillicDistinct();
    if cfg.alphabet == "latin" then Latin else Cyrillic
  }

  /**
   * Why `EnigmaSudnogoDnya::new` would give up on cfg, checked in the
   * order the constructor meets the problems: plugboard characters, block
   * colours, then the number of position lists.
   */
  function BuildError(cfg: Config): (r: Option<ConfigError>)
    ensures r.None? <==>
      && InAlphabet(AlphabetOf(cfg), cfg.plugboard)
      && (forall b :: 0 <= b < |cfg.blocks| ==> AllColours(cfg.blocks[b]))
      && (|cfg.rotorPositions| == |cfg.blocks| || |cfg.rotorPositions| == 0)
  {
    match FirstStranger(AlphabetOf(cfg), cfg.plugboard)
    case Some(c) => Some(OutsideAlphabet(c))
    case None => LayoutError(cfg)
  }

  /** The problems met after the plugboard is wired: block colours, then the number of position lists. */
  function LayoutError(cfg: Config): (r: Option<ConfigError>)
    ensures r.None? <==>
      && (forall b :: 0 <= b < |cfg.blocks| ==> AllColours(cfg.blocks[b]))
      && (|cfg.rotorPositions| == |cfg.blocks| || |cfg.rotorPositions| == 0)
  {
    match ColourError(cfg.blocks)
    case Some(c) => Some(UnknownColour(c))
    case None =>
      if |cfg.rotorPositions| == |cfg.blocks| || |cfg.rotorPositions| == 0 then None
      else Some(PositionCountMismatch(|cfg.rotorPositions|, |cfg.blocks|))
  }

  /** The rotor state right after construction: initial rotors, then the positions when one list per block is given. */
  function StartState(cfg: Config, n: nat): (bs: seq<seq<RotorState>>)
    requires n > 0 && forall b :: 0 <= b < |cfg.blocks| ==> AllColours(cfg.blocks[b])
    ensures |bs| == |cfg.blocks| && Sized(bs, n)
  {
    seq(|cfg.blocks|, b requires 0 <= b < |cfg.blocks| => StartBlock(cfg, n, b))
  }

  function StartBlock(cfg: Config, n: nat, b: nat): (rs: seq<RotorState>)
    requires n > 0 && b < |cfg.blocks| && AllColours(cfg.blocks[b])
    ensures Uniform(rs, n)
  {
    if |cfg.rotorPositions| == |cfg.blocks| then Loaded(InitialRotors(cfg.blocks[b], n), cfg.rotorPositions[b])
    else InitialRotors(cfg.blocks[b], n)
  }

  /** `EnigmaSudnogoDnya`: the blocks' rotors are the only state that changes. */
  class Machine {
    const alphabet: seq<char>
    const index: AlphabetIndex
    const plugboard: seq<nat>
    const blocks: seq<Block>
    const reflector: Reflector

    /** The rotors of all blocks: what `Encrypt` may change. */
    ghost const repr: set<object>

    ghost function Repr(): set<object> {
      repr
    }

    function Settings(): Setup {
      Setup(alphabet, plugboard, reflector)
    }

    ghost predicate Valid()
      reads Repr()
    {
      && Ready(Settings())
      && Indexes(index, alphabet)
      && Framed()
      && BlocksValid()
      && (forall b, c :: 0 <= b < c < |blocks| ==> blocks[b].Repr() !! blocks[c].Repr())
    }

    /** The machine's footprint holds every block's. */
    ghost predicate Framed() {
      forall b :: 0 <= b < |blocks| ==> blocks[b].Repr() <= repr
    }

    /** Every block is valid and works over the alphabet's indices. */
    ghost predicate BlocksValid()
      reads Repr()
      requires Framed()
    {
      && |alphabet| > 0
      && forall b :: 0 <= b < |blocks| ==> blocks[b].Valid() && blocks[b].Sized(|alphabet|)
    }

    function State(): seq<seq<RotorState>>
      reads Repr()
      requires Framed()
    {
      seq(|blocks|, b requires 0 <= b < |blocks| reads Repr() => blocks[b].State())
    }

    constructor (alphabet: seq<char>, index: AlphabetIndex, plugboard: seq<nat>, blocks: seq<Block>,
                 reflector: Reflector, ghost repr: set<object>, ghost start: seq<seq<RotorState>>)
      requires Ready(Setup(alphabet, plugboard, reflector)) && Indexes(index, alphabet)
      requires forall b :: 0 <= b < |blocks| ==> blocks[b].Repr() <= repr
      requires forall b :: 0 <= b < |blocks| ==> blocks[b].Valid() && blocks[b].Sized(|alphabet|)
      requires forall b, c :: 0 <= b < c < |blocks| ==> blocks[b].Repr() !! blocks[c].Repr()
      requires |start| == |blocks| && forall b :: 0 <= b < |blocks| ==> blocks[b].State() == start[b]
      ensures Valid() && State() == start
      ensures this.alphabet == alphabet && this.index == index && this.plugboard == plugboard
      ensures this.blocks == blocks && this.reflector == reflector && this.repr == repr
    {
      this.repr := repr;
      this.alphabet := alphabet;
      this.index := index;
      this.plugboard := plugboard;
      this.blocks := blocks;
      this.reflector := reflector;
    }

    /**
     * `EnigmaSudnogoDnya::encrypt` on text already in lower case: the output
     * and the new rotor state are those of the reference run.
     */
    method Encrypt(msg: string) returns (out: string)
      requires Valid()
      modifies Repr()
      ensures Valid()
      ensures (out, State()) == Run(Settings(), old(State()), msg)
    {
      ghost var start := State();
      out := [];
      for k := 0 to |msg|
        invariant Valid()
        invariant (out, State()) == Run(Settings(), start, msg[..k])
      {
        assert msg[..k + 1][..k] == msg[..k];
        ghost var st := State();
        var maybeIdx := Get(index, msg[k]);
        if maybeIdx.Some? {
          var idx := Symbol(maybeIdx.value);
          StepBlocks();
          out := out + [alphabet[idx]];
        } else {
          out := out + [msg[k]];
        }
      }
      assert msg[..|msg|] == msg;
    }

    /** The state of block b is entry b of the machine's state, and the state is sized. */
    lemma StateAt()
      requires Framed() && BlocksValid()
      ensures |State()| == |blocks| && Sized(State(), |alphabet|)
      ensures forall b :: 0 <= b < |blocks| ==> State()[b] == blocks[b].State()
    {
    }

    /** The index path of one symbol, without the stepping. */
    method Symbol(i: nat) returns (idx: nat)
      requires Valid() && i < |alphabet|
      ensures idx == Cipher(Settings(), State(), i)
    {
      StateAt();
      ghost var st := State();
      ThroughBack(st, |alphabet|, plugboard[i]);
      idx := Forth(plugboard[i]);
      assert State() == st;
      assert Mirrors(reflector, |alphabet|);
      idx := ReflectIndex(reflector, idx);
      ThroughBack(st, |alphabet|, idx);
      idx := Return(idx);
      assert State() == st;
      idx := plugboard[idx];
    }

    /** The blocks in order, each in forward mode. */
    method Forth(idx: nat) returns (out: nat)
      requires Framed() && BlocksValid()
      ensures out == Through(State(), idx)
    {
      StateAt();
      ghost var st := State();
      out := idx;
      for j := 0 to |blocks|
        invariant out == Through(st[..j], idx)
      {
        assert st[..j + 1][..j] == st[..j];
        assert st[j] == blocks[j].State();
        ghost var before := out;
        out := blocks[j].Process(out, false);
        assert out == ProcessIndex(st[j], before, false);
      }
      assert st[..|blocks|] == st;
      StateAt();
      assert State() == st;
    }

    /** The blocks in reverse order, each in reverse mode. */
    method Return(idx: nat) returns (out: nat)
      requires Framed() && BlocksValid()
      ensures out == Back(State(), idx)
    {
      StateAt();
      ghost var st := State();
      out := idx;
      var j := |blocks|;
      assert st[..j] == st;
      while j > 0
        invariant 0 <= j <= |blocks|
        invariant Back(st, idx) == Back(st[..j], out)
      {
        j := j - 1;
        assert st[..j + 1][..j] == st[..j];
        assert st[j] == blocks[j].State();
        ghost var before := out;
        out := blocks[j].Process(out, true);
        assert out == ProcessIndex(st[j], before, true);
      }
      StateAt();
      assert State() == st;
    }

    /** Every block rotates once, in order. */
    method StepBlocks()
      requires Valid()
      modifies Repr()
      ensures Valid()
      ensures State() == StepAll(old(State()))
    {
      ghost var st := State();
      StateAt();
      for j := 0 to |blocks|
        invariant Valid()
        invariant State() == StepsDone(st, j)
      {
        StepsDoneNext(st, j);
        StepBlock(j);
      }
      assert StepsDone(st, |blocks|) == StepAll(st);
    }

    /** Block j rotates; every other block keeps its state. */
    method StepBlock(j: nat)
      requires Valid() && j < |blocks|
      modifies blocks[j].Repr()
      ensures Valid()
      ensures State() == old(State())[j := Odometer(old(State())[j])]
    {
      StateAt();
      ghost var st := State();
      blocks[j].Rotate();
      StateAt();
      assert forall b :: 0 <= b < |blocks| && b != j ==> blocks[b].State() == st[b];
    }
  }

  /** The machine state part-way through stepping: blocks before j rotated, the rest not yet. */
  ghost function StepsDone(bs: seq<seq<RotorState>>, j: nat): seq<seq<RotorState>>
    requires AllTurnable(bs) && j <= |bs|
  {
    StepAll(bs)[..j] + bs[j..]
  }

  lemma StepsDoneNext(bs: seq<seq<RotorState>>, j: nat)
    requires AllTurnable(bs) && j < |bs|
    ensures StepsDone(bs, j)[j] == bs[j]
    ensures StepsDone(bs, j)[j := Odometer(bs[j])] == StepsDone(bs, j + 1)
  {
  }

  /**
   * `EnigmaSudnogoDnya::new`: picks the alphabet, builds the index, wires
   * the plugboard, creates the blocks, loads the positions when one list per
   * block is given, and builds the reflector. Where the program panics the
   * model returns the first error it would have met.
   */
  method NewMachine(cfg: Config) returns (res: Result<Machine, ConfigError>)
    ensures res.Failure? <==> BuildError(cfg).Some?
    ensures res.Failure? ==> res.error == BuildError(cfg).value
    ensures res.Success? ==>
      && fresh(res.value.Repr())
      && res.value.Valid()
      && res.value.alphabet == AlphabetOf(cfg)
      && res.value.plugboard == Wire(AlphabetOf(cfg), cfg.plugboard)
      && res.value.State() == StartState(cfg, |AlphabetOf(cfg)|)
  {
    var alphabet := AlphabetOf(cfg);
    var n := |alphabet|;
    var index := NewIndex(alphabet);
    var wired := WirePlugboard(index, alphabet, n, cfg.plugboard);
    if wired.Failure? {
      return Failure(wired.error);
    }
    res := Assemble(cfg, alphabet, index, wired.value);
  }

  /** The rest of `EnigmaSudnogoDnya::new` once the plugboard is wired: blocks, positions, reflector. */
  method Assemble(cfg: Config, alphabet: seq<char>, index: AlphabetIndex, plugboard: seq<nat>)
    returns (res: Result<Machine, ConfigError>)
    requires |alphabet| > 0 && Indexes(index, alphabet) && |plugboard| == |alphabet|
    requires forall i :: 0 <= i < |plugboard| ==> plugboard[i] < |alphabet|
    ensures res.Failure? <==> LayoutError(cfg).Some?
    ensures res.Failure? ==> res.error == LayoutError(cfg).value
    ensures res.Success? ==>
      && fresh(res.value.Repr())
      && res.value.Valid()
      && res.value.alphabet == alphabet
      && res.value.plugboard == plugboard
      && res.value.State() == StartState(cfg, |alphabet|)
  {
    var n := |alphabet|;
    var built, repr := NewBlocks(cfg.blocks, n);
    if built.Failure? {
      return Failure(UnknownColour(built.error));
    }
    var blocks := built.value;
    if |cfg.rotorPositions| == |blocks| {
      LoadAll(blocks, cfg.rotorPositions, repr);
    } else if |cfg.rotorPositions| != 0 {
      return Failure(PositionCountMismatch(|cfg.rotorPositions|, |blocks|));
    }
    assert forall b :: 0 <= b < |blocks| ==> blocks[b].State() == StartState(cfg, n)[b];
    var reflector := NewReflector(alphabet);
    var m := new Machine(alphabet, index, plugboard, blocks, reflector, repr, StartState(cfg, n));
    res := Success(m);
  }

  /**
   * The blocks of `EnigmaSudnogoDnya::new`, one per colour string, in
   * order; the first unknown colour letter stops construction.
   */
  method NewBlocks(colours: seq<string>, n: nat) returns (res: Result<seq<Block>, char>, ghost repr: set<object>)
    requires n > 0
    ensures res.Failure? <==> ColourError(colours).Some?
    ensures res.Failure? ==> res.error == ColourError(colours).value
    ensures res.Success? ==>
      var blocks := res.value;
      && |blocks| == |colours|
      && fresh(repr)
      && (forall b :: 0 <= b < |blocks| ==> blocks[b].Repr() <= repr)
      && (forall b :: 0 <= b < |blocks| ==> blocks[b].Valid() && blocks[b].Sized(n))
      && (forall b :: 0 <= b < |blocks| ==> AllColours(colours[b]) && blocks[b].State() == InitialRotors(colours[b], n))
      && (forall b, c :: 0 <= b < c < |blocks| ==> blocks[b].Repr() !! blocks[c].Repr())
  {
    repr := {};
    var blocks: seq<Block> := [];
    for i := 0 to |colours|
      invariant ColourError(colours) == ColourError(colours[i..])
      invariant |blocks| == i
      invariant fresh(repr)
      invariant forall b :: 0 <= b < i ==> blocks[b].Repr() <= repr
      invariant forall b :: 0 <= b < i ==> blocks[b].Valid()
      invariant forall b :: 0 <= b < i ==> blocks[b].Sized(n)
      invariant forall b :: 0 <= b < i ==> AllColours(colours[b]) && blocks[b].State() == InitialRotors(colours[b], n)
      invariant forall b, c :: 0 <= b < c < i ==> blocks[b].Repr() !! blocks[c].Repr()
    {
      var block := NewBlock(colours[i], n);
      ColourErrorStep(colours, i);
      if block.Failure? {
        return Failure(block.error.c), repr;
      }
      var made := block.value;
      assert AllColours(colours[i]) && made.State() == InitialRotors(colours[i], n);
      blocks := blocks + [made];
      repr := repr + made.Repr();
    }
    res := Success(blocks);
  }

  /** The loop of `EnigmaSudnogoDnya::new` that gives block i the positions of list i. */
  method LoadAll(blocks: seq<Block>, positions: seq<seq<nat>>, ghost repr: set<object>)
    requires |positions| == |blocks|
    requires forall b :: 0 <= b < |blocks| ==> blocks[b].Valid() && blocks[b].Repr() <= repr
    requires forall b, c :: 0 <= b < c < |blocks| ==> blocks[b].Repr() !! blocks[c].Repr()
    modifies repr
    ensures forall b :: 0 <= b < |blocks| ==>
      blocks[b].Valid() && blocks[b].State() == Loaded(old(blocks[b].State()), positions[b])
  {
    for i := 0 to |blocks|
      invariant forall b :: 0 <= b < |blocks| ==> blocks[b].Valid()
      invariant forall b :: 0 <= b < i ==> blocks[b].State() == Loaded(old(blocks[b].State()), positions[b])
      invariant forall b :: i <= b < |blocks| ==> blocks[b].State() == old(blocks[b].State())
    {
      blocks[i].LoadPositions(positions[i]);
    }
  }

  /**
   * Two machines built from the same configuration: the second decrypts
   * what the first encrypts, when no character is in two plugboard pairs.
   */
  method KnownAnswer(cfg: Config, text: string) returns (recovered: string)
    requires BuildError(cfg).None? && PairsDisjoint(cfg.plugboard)
    ensures recovered == text
  {
    var sender := NewMachine(cfg);
    var cipher := sender.value.Encrypt(text);
    var receiver := NewMachine(cfg);
    recovered := receiver.value.Encrypt(cipher);
    LatinDistinct();
    CyrillicDistinct();
    ghost var alphabet := AlphabetOf(cfg);
    WireInvolution(alphabet, cfg.plugboard);
    assert sender.value.reflector == receiver.value.reflector;
    RunRoundTrip(sender.value.Settings(), StartState(cfg, |alphabet|), text);
  }

  /**
   * One block "КБ" (shifts 1 and 2) over the Latin alphabet, no plugboard:
   * "a" encrypts to "t", and only the first rotor has stepped.
   */
  method LatinExample() returns (out: string, positions: seq<nat>)
    ensures out == "t" && positions == [1, 0]
  {
    var m := ExampleMachine();
    LatinExampleRun(m.Settings());
    out := m.Encrypt("a");
    m.StateAt();
    ghost var after := m.blocks[0].State();
    assert after == [RotorState(1, 1, 26), RotorState(2, 0, 26)];
    positions := m.blocks[0].SavePositions();
    assert positions[0] == after[0].position && positions[1] == after[1].position;
  }

  /** The machine of the example, built from its configuration. */
  method ExampleMachine() returns (m: Machine)
    ensures fresh(m.Repr()) && m.Valid() && |m.blocks| == 1
    ensures m.alphabet == Latin && m.plugboard == Identity(26) && Mirrors(m.reflector, 26)
    ensures m.State() == [[RotorState(1, 0, 26), RotorState(2, 0, 26)]]
  {
    var cfg := Config("latin", [], ["КБ"], []);
    ExampleConfig(cfg);
    var built := NewMachine(cfg);
    m := built.value;
    assert m.plugboard == Identity(26) by {
      assert cfg.plugboard == [];
    }
  }

  lemma ExampleConfig(cfg: Config)
    requires cfg == Config("latin", [], ["КБ"], [])
    ensures BuildError(cfg).None? && AlphabetOf(cfg) == Latin && |Latin| == 26
    ensures StartState(cfg, 26) == [[RotorState(1, 0, 26), RotorState(2, 0, 26)]]
  {
    LatinDistinct();
    assert FirstUnknownColour("КБ"[1..][1..]) == None;
    assert InitialRotors("КБ", 26) == [RotorState(1, 0, 26), RotorState(2, 0, 26)];
  }

  lemma LatinExampleRun(s: Setup)
    requires s.alphabet == Latin && s.plugboard == Identity(26) && Mirrors(s.reflector, 26)
    ensures Ready(s) && Sized([[RotorState(1, 0, 26), RotorState(2, 0, 26)]], 26)
    ensures Run(s, [[RotorState(1, 0, 26), RotorState(2, 0, 26)]], "a")
      == ("t", [[RotorState(1, 1, 26), RotorState(2, 0, 26)]])
  {
    ExampleLookup();
    var bs := [[RotorState(1, 0, 26), RotorState(2, 0, 26)]];
    ExampleCipher(s);
    ExampleStep();
    assert "a"[..0] == [] && "a"[0] == 'a';
    assert Run(s, bs, []) == ([], bs);
    assert Run(s, bs, "a") == ([] + [Latin[Cipher(s, bs, 0)]], StepAll(bs));
    assert [] + [Latin[Cipher(s, bs, 0)]] == "t";
  }

  lemma ExampleLookup()
    ensures |Latin| == 26 && LastIndex(Latin, 'a') == Some(0) && Latin[19] == 't'
  {
    LatinDistinct();
    LastIndexOfDistinct(Latin, 0);
  }

  lemma ExampleCipher(s: Setup)
    requires s.alphabet == Latin && s.plugboard == Identity(26) && Mirrors(s.reflector, 26)
    ensures Ready(s) && Sized([[RotorState(1, 0, 26), RotorState(2, 0, 26)]], 26)
    ensures Cipher(s, [[RotorState(1, 0, 26), RotorState(2, 0, 26)]], 0) == 19
  {
    LatinDistinct();
    var r1, r2 := RotorState(1, 0, 26), RotorState(2, 0, 26);
    var bs := [[r1, r2]];
    assert [r1, r2][..1] == [r1] && [r1][..0] == [] && bs[..0] == [];
    assert Forward([r1], 0) == 1;
    assert Forward([r1, r2], 0) == 3;
    assert Through(bs, 0) == 3;
    assert Backward([r1], 20) == 19;
    assert Backward([r1, r2], 22) == 19;
    assert Back(bs, 22) == 19;
  }

  lemma ExampleStep()
    ensures StepAll([[RotorState(1, 0, 26), RotorState(2, 0, 26)]]) == [[RotorState(1, 1, 26), RotorState(2, 0, 26)]]
  {
    var r1, r2 := RotorState(1, 0, 26), RotorState(2, 0, 26);
    assert Advance(r1) == RotorState(1, 1, 26);
    assert [r1, r2][1..] == [r2];
    assert Odometer([r1, r2]) == [RotorState(1, 1, 26), r2];
  }
}
