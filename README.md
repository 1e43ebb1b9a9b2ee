# EnigmaSudnogoDnya — a verified model of the rotor-cipher engine

The program is an Enigma-like rotor machine. A configuration names an
alphabet (Latin, 26 letters, or Cyrillic, 33 letters with 'ё'), a list of
plugboard pairs, one string of colour letters per rotor block, and optional
start positions. Each colour letter stands for a rotor with a fixed shift
from 1 to 10. To encrypt a symbol, the machine takes the symbol's alphabet
index and sends it:

1. through the plugboard;
2. forward through every block, each block's rotors in order;
3. through the reflector `i -> n - 1 - i`;
4. back through the blocks in reverse order, each rotor in reverse mode;
5. through the plugboard again.

Then every block steps once, like an odometer: the first rotor always
moves, and each later rotor moves only when all rotors before it wrapped
to 0. Characters outside the alphabet are copied unchanged and do not step
the rotors. Decryption is encryption from the same start state.

The model follows `src/main.rs` type by type:

| module | file | models |
|---|---|---|
| `Alphabet` | `alphabet.dfy` | the two alphabets and `AlphabetIndex` (the lookup table built in place in an array) |
| `Rotors` | `rotors.dfy` | `Rotor`: a class whose `position` is updated in place |
| `Blocks` | `blocks.dfy` | `Block`: a class owning its rotors, with the odometer step as a loop |
| `Reflectors` | `reflectors.dfy` | `Reflector`: its table is filled in an array |
| `Plugboards` | `plugboards.dfy` | the plugboard table that `EnigmaSudnogoDnya::new` writes in place |
| `Enigma` | `enigma.dfy` | `EnigmaSudnogoDnya`: a class with `new` and `encrypt` |
| `Configs`, `Wrappers` | `configs.dfy`, `wrappers.dfy` | `ConfigData`, the construction errors, Option and Result |

Each imperative operation is proved against a value-level reference
function:

- `Advance` for a rotor's step;
- `Forward`/`Backward` for a block's passes, `Odometer` for its step and `Loaded` for `LoadPositions`;
- `Wire` for the plugboard;
- `Cipher` and `Run` for the machine's encryption, and `StartState` for the rotor state `NewMachine` builds.

The properties are then proved about those functions:

- reverse mode undoes forward mode;
- the reflector and the plugboard are involutions;
- the odometer adds one to the mixed-radix number its positions spell;
- decrypting the ciphertext from the same start state gives back the text.

Where the program panics (an unknown colour, a plugboard character outside
the alphabet, a wrong number of position lists), the model returns a
`ConfigError` instead. The errors come in the same order the program meets
them.

## Model

| member | source | states |
|---|---|---|
| Alphabet.NewIndex | src/main.rs:25-35 | the table spans exactly the smallest to the largest code of the alphabet, and for every character it answers what the reference "last index of c" lookup answers (a repeated character keeps its last index) |
| Alphabet.Get | src/main.rs:38-45 | a found index only comes from a code inside [min, min + len) |
| Alphabet.LastIndex | src/main.rs:31-33 | the reference lookup: None iff c is absent; otherwise a position holding c with no later c |
| Alphabet.LastIndexOfDistinct | src/main.rs:31-33 | in an alphabet without repeats, every character is found at its own position |
| Alphabet.LatinDistinct | src/main.rs:179-184 | the Latin alphabet has 26 letters, none repeated |
| Alphabet.CyrillicDistinct | src/main.rs:179-184 | the Cyrillic alphabet has 33 letters, none repeated ('ё' included) |
| Rotors.Encode | src/main.rs:65-71 | encoding stays inside [0, size) |
| Rotors.EncodeInverse | src/main.rs:65-71 | at a fixed position, reverse mode undoes forward mode and forward undoes reverse |
| Rotors.Advance | src/main.rs:74-77 | a step keeps shift and size and stays in range; it lands on 0 exactly from the last position |
| Rotors.AdvanceSteps | src/main.rs:74-77 | a step adds one, except from size - 1, which goes to 0 |
| Rotors.Rotor.constructor | src/main.rs:56-62 | a new rotor has the given shift, the alphabet's size and position 0 |
| Rotors.Rotor.Rotate | src/main.rs:74-77 | the position advances modulo size; the result is true exactly when it wrapped to 0 |
| Rotors.Rotor.SavePosition | src/main.rs:80-82 | returns the current position, which is below size |
| Rotors.Rotor.LoadPosition | src/main.rs:85-87 | the position becomes pos mod size; nothing else changes |
| Blocks.ColourShift | src/main.rs:100-104 | each known colour letter gives a shift in [1, 10]; other letters give None |
| Blocks.FirstUnknownColour | src/main.rs:96-109 | None iff every letter is a known colour; otherwise a letter of the string outside the table |
| Blocks.Forward | src/main.rs:112-116 | the forward pass ends inside the last rotor's range |
| Blocks.ProcessInverse | src/main.rs:112-123 | at fixed positions, a block's reverse pass undoes its forward pass and the other way round, inside [0, n) |
| Blocks.BackwardForward | src/main.rs:112-123 | the rotors in reverse order, each reversed, undo the rotors in declared order |
| Blocks.ForwardBackward | src/main.rs:112-123 | the rotors in declared order undo the reverse pass |
| Blocks.Block.Process | src/main.rs:112-123 | the loop over the rotors, in declared or reversed order, computes the reference pass |
| Blocks.Odometer | src/main.rs:125-134 | a step keeps the number of rotors and every rotor's shift and size |
| Blocks.OdometerAt | src/main.rs:125-134 | rotor k advances exactly when every rotor before it wraps on this step; otherwise it is unchanged (so rotor 0 always advances) |
| Blocks.StopsAtFirstNonWrap | src/main.rs:128-131 | after the first rotor that does not wrap, no rotor changes |
| Blocks.OdometerCounts | src/main.rs:125-134 | a step adds one to the mixed-radix number the positions spell, and the all-maximal reading rolls over to 0 |
| Blocks.TurnedCount | src/main.rs:125-134 | t steps add t to that number, as long as it stays below the product of the sizes |
| Blocks.TurnedFromZero | src/main.rs:125-134 | from all zeros, fewer than n steps move only the first rotor, to position t |
| Blocks.FullTurn | src/main.rs:125-134 | from all zeros, after n steps the first rotor is at 0, the second at 1 and the rest at 0 |
| Blocks.SecondCarry | src/main.rs:125-134 | from all zeros, after n * n steps the first two rotors are at 0, the third at 1 and the rest at 0 |
| Blocks.ZeroCount | src/main.rs:125-134 | the number spelled is 0 exactly when every rotor is at 0 |
| Blocks.CountBelow | src/main.rs:125-134 | positions in range spell a number below the product of the sizes |
| Blocks.Block.Rotate | src/main.rs:125-134 | the carry loop leaves the block in the reference odometer state |
| Blocks.Block.SavePositions | src/main.rs:136-138 | one position per rotor, in order, each below its rotor's size |
| Blocks.Block.LoadPositions | src/main.rs:140-144 | rotor i gets pos[i] mod size for the indices both lists share; the other rotors keep their positions |
| Blocks.NewRotors | src/main.rs:96-109 | fails iff some letter is not a colour, naming the first one; otherwise one distinct fresh rotor per letter, in order, with the table's shift and position 0 |
| Blocks.NewBlock | src/main.rs:96-109 | the same error, or a valid block whose state is the initial rotors of the colour string |
| Reflectors.NewReflector | src/main.rs:153-160 | the table has the alphabet's length, and slot i holds len - 1 - i |
| Reflectors.ReflectIndex | src/main.rs:163-165 | on such a table, the result is len - 1 - idx |
| Reflectors.ReflectInvolution | src/main.rs:163-165 | reflecting twice gives the index back |
| Plugboards.FirstStranger | src/main.rs:190-192 | None iff every pair character is in the alphabet; otherwise one that is not |
| Plugboards.Slot | src/main.rs:191-192 | the index the table reports for an alphabet character holds that character |
| Plugboards.Wire | src/main.rs:189-195 | the reference table has the alphabet's length and maps indices into [0, n) |
| Plugboards.WirePlugboard | src/main.rs:189-195 | fails iff a pair character is outside the alphabet, naming the first one; otherwise the written array equals the reference table |
| Plugboards.WireFixes | src/main.rs:189-195 | an index no pair mentions maps to itself |
| Plugboards.WireSwaps | src/main.rs:189-195 | with pairwise disjoint pairs, each pair's two letters map to each other |
| Plugboards.WireInvolution | src/main.rs:189-195 | with pairwise disjoint pairs, the table is an involution |
| Plugboards.OverlapBreaksInvolution | src/main.rs:189-195 | the code accepts the overlapping pairs (a,b),(b,c), and the table it builds is not an involution |
| Enigma.ThroughBack | src/main.rs:240-246 | the return pass through the blocks undoes the forward pass and the other way round, inside [0, n) |
| Enigma.Cipher | src/main.rs:238-247 | a symbol's index maps to an index of the alphabet |
| Enigma.CipherInvolution | src/main.rs:238-247 | with an involutive plugboard, at a fixed rotor state, encrypting the output gives the input back |
| Enigma.StepAll | src/main.rs:248-250 | every block steps, keeping the number of blocks and rotors and every shift and size |
| Enigma.Run | src/main.rs:227-270 | the output is as long as the input, and the rotor state stays sized to the alphabet |
| Enigma.Mapped | src/main.rs:237-255 | counts the characters in the alphabet; the count equals the length iff every character is in it |
| Enigma.RunShape | src/main.rs:252-266 | a character outside the alphabet is copied unchanged; one inside becomes a character of the alphabet |
| Enigma.RunSteps | src/main.rs:237-255 | after a text, each block has stepped once per character of the text that is in the alphabet |
| Enigma.RunRoundTrip | src/main.rs:227-270 | with an involutive plugboard, encrypting the ciphertext from the same start state gives back the text, and both runs end in the same rotor state |
| Enigma.ColourError | src/main.rs:197-201 | None iff every block string uses only known colours |
| Enigma.AlphabetOf | src/main.rs:179-184 | the tag "latin" selects Latin, and every other tag selects Cyrillic |
| Enigma.BuildError | src/main.rs:189-214 | None iff every plugboard character is in the alphabet, every colour is known, and the position lists are one per block or none |
| Enigma.LayoutError | src/main.rs:197-214 | None iff every colour is known and the position lists are one per block or none |
| Enigma.StartState | src/main.rs:197-214 | one rotor list per block, every rotor sized to the alphabet |
| Enigma.StartBlock | src/main.rs:203-207 | a block's start rotors are all sized to the alphabet |
| Enigma.Machine.constructor | src/main.rs:218-224 | the machine holds the given parts and the given rotor state |
| Enigma.Machine.Encrypt | src/main.rs:227-270 | the output text and the new rotor state are those of the reference run |
| Enigma.Machine.Symbol | src/main.rs:238-247 | one symbol's path gives the reference cipher index at the current state |
| Enigma.Machine.Forth | src/main.rs:240-242 | the blocks in order, each forward, give the reference forward pass |
| Enigma.Machine.Return | src/main.rs:244-246 | the blocks in reverse order, each reversed, give the reference return pass |
| Enigma.Machine.StepBlocks | src/main.rs:248-250 | every block has taken exactly one odometer step |
| Enigma.NewMachine | src/main.rs:178-225 | fails iff the configuration has a problem, naming the first one the program meets; otherwise a valid machine with the selected alphabet, the reference plugboard and the start state |
| Enigma.Assemble | src/main.rs:197-224 | fails iff a colour or the position count is wrong; otherwise the machine with the start state |
| Enigma.NewBlocks | src/main.rs:197-201 | fails iff some block has an unknown colour, naming the first one; otherwise one valid block per string, with disjoint rotors |
| Enigma.LoadAll | src/main.rs:203-207 | block i gets the positions of list i |
| Enigma.KnownAnswer | src/main.rs:575-588 | a second machine built from the same configuration decrypts what the first encrypts |
| Enigma.LatinExample | src/main.rs:237-251 | block "КБ" over Latin with no plugboard: "a" encrypts to "t", and the positions become [1, 0] |

## Left out

- Everything outside the engine is left out: the menu, `read_line` and console output, the presets, `load_config` and JSON parsing, benchmark timing. These are I/O.
- `random_blocks` and `random_plugboard_pairs` are left out because they use randomness. Shuffling the alphabet and cutting it into pairs always gives pairwise disjoint pairs. `KnownAnswer` takes this as its `PairsDisjoint` precondition.
- `log2_factorial` and the keyspace estimate are left out because they compute in floating point.
- `Enigma.Machine.Encrypt`: `to_lowercase` is not modelled; the text is taken as already lower-case. Unicode case mapping is outside this model.
- `Enigma.Machine.Encrypt`: the source buffers the indices and makes a second pass to build the string. The model builds the output in one pass, which gives the same text.
- `Enigma.NewMachine`: the three panics of the constructor become `ConfigError` results. The program aborts instead.
- `usize` overflow in `idx + shift + position` is not modelled. With shifts of at most 10 and positions below the alphabet size, it cannot occur.
- `Enigma.KnownAnswer` requires pairwise disjoint plugboard pairs. With overlapping pairs the plugboard is not an involution (`OverlapBreaksInvolution`), so the round trip is not promised there.
- What the code does not check, and the model does not check either:
  - Overlapping pairs and pairs of a letter with itself are accepted, and the later write wins (src/main.rs:190-195).
  - The inner position lists are not length-checked; `zip` stops at the shorter list (src/main.rs:141, `Loaded`).
  - After one symbol only a block's first rotor is sure to step (src/main.rs:125-134); `LatinExample` proves the positions [1, 0].
  - No alphabet error can arise, because both alphabets are fixed and proved free of repeats.
