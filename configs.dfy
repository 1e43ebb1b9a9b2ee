/**
 * The configuration record a machine is built from (`ConfigData`), and the
 * configuration errors on which construction gives up.
 */
module Configs {

  /**
   * `alphabet` is the tag "latin" or anything else (then Cyrillic);
   * `plugboard` the character pairs to swap; `blocks` one string of colour
   * letters per block; `rotorPositions` the optional start position of every
   * rotor, one list per block.
   */
  datatype Config = Config(
    alphabet: string,
    plugboard: seq<(char, char)>,
    blocks: seq<string>,
    rotorPositions: seq<seq<nat>>)

  /**
   * Why construction stops. The program panics in each case; the model
   * returns the error instead, in the same order of detection.
   */
  datatype ConfigError =
    | OutsideAlphabet(c: char)                      // a plugboard character not in the alphabet
    | UnknownColour(c: char)                        // a block letter outside the colour table
    | PositionCountMismatch(given: nat, blocks: nat) // rotor_positions neither empty nor one per block
}
