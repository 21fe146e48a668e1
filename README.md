# Replabel codec and spelling utilities of the flashlight text library

This project models, in Dafny, the token-sequence utilities declared in
`flashlight/lib/text/dictionary/Utils.h` that the lexicon trie and the
lexicon beam decoder rely on:

- `packReplabels` replaces consecutive repeats of a token by a "replabel",
  a count token: `"abbccc"` becomes `"ab1c2"`. The count token for r stands
  for r extra copies of the token before it, and at most `maxReps` extra
  copies fit behind one token. The header does not say how longer runs are
  split; the model cuts them from the left into chunks of `maxReps + 1`.
- `unpackReplabels` expands them again: `"ab1c2"` becomes `"abbccc"`.
- `splitWrd` cuts a word into one token per character.
- `tkn2Idx` maps a spelling to token indices through the token dictionary
  and packs the result.
- `tokens2Tensor`, the decoder test's helper, builds a trie lookup key by
  splitting a word, looking each token up, and packing with one count token.

The token dictionary is an external collaborator. The model sees it as a
finite map from spellings to indices (`TokenDictionary.Dictionary`) and
adds the spelling of the count token for each value k. That spelling is
kept abstract: the header comment says `"1"`, `"2"`, …, while the decoder
test registers `"<1>"`. Pack and unpack first look up the indices of the
count tokens for 1 .. maxReps (`Replabels.ReplabelTable`). The codec itself
(`Replabels.Pack`, `Replabels.Unpack`) works on that table.

Files:

- `wrappers.dfy`: `Option`.
- `dictionary.dfy`: the token dictionary as the codec sees it. It also holds
  the requirement that the count tokens 1 .. maxReps are registered.
- `replabels.dfy`: pack, unpack, and their properties, including the round trip.
- `spelling.dfy`: `splitWrd`, `tkn2Idx`, and the header's worked example on a
  concrete dictionary.
- `decoder_test.dfy`: the test helper `tokens2Tensor`, as a loop proved equal
  to `tkn2Idx` of the split word.

## Modelling decisions

- Only the declarations and doc comments of these functions are part of this
  model; their bodies are not. The behaviour follows the doc comments.
- The count token for r stands for r extra copies, as in the header's
  example `"abbccc" -> "ab1c2"`, so one token and its count token stand for
  at most maxReps + 1 copies. The header does not say how longer runs are
  split; the model cuts them from the left, greedily, into chunks of
  maxReps + 1 copies.
- The round-trip lemmas ask for a bijective dictionary (`TokenDictionary.Valid`:
  no two spellings share an index). That is stronger than they need: the
  indices of the count tokens must be pairwise distinct and the letters must
  avoid them.
- With `maxReps <= 0` there are no count tokens, so packing and unpacking
  change nothing.
- Unpacking drops a count token that has no letter right before it, at the
  start or right after another count token. The header does not say what
  happens to such a token (`Replabels.UnpackDropsOrphanCount`,
  `Replabels.UnpackDropsCountAfterCount`).
- A spelling token that is not in the dictionary makes `tkn2Idx` and
  `tokens2Tensor` return `None`. What the dictionary does for a missing
  token (throw, or fall back to a default index) is outside this model.

## Model

| member | source | states |
|---|---|---|
| `Replabels.ReplabelTable` | flashlight/lib/text/dictionary/Utils.h:38-39 | the count tokens "1" .. maxReps looked up in the dictionary: entry k - 1 is the index of count token k, and there are maxReps entries (none when maxReps <= 0) |
| `Replabels.ReplabelTableDistinct` | flashlight/lib/text/dictionary/Utils.h:38-39 | in a bijective dictionary, count tokens with different spellings have different indices |
| `Replabels.ReplabelValue` | flashlight/lib/text/dictionary/Utils.h:46-49 | the repeat value a count token stands for: the k whose table entry is that token (the first such k) |
| `Replabels.RunExtra` | flashlight/lib/text/dictionary/Utils.h:37-38 | the number of consecutive copies of a token that follow it, at most the cap: all counted tokens are copies, and the next one differs when the cap is not reached |
| `Replabels.Pack` | flashlight/lib/text/dictionary/Utils.h:36-44 | packing never lengthens the sequence and keeps its first token |
| `Replabels.PackElements` | flashlight/lib/text/dictionary/Utils.h:36-44 | every packed token is a token of the input or a count token |
| `Replabels.PackReplabels` | flashlight/lib/text/dictionary/Utils.h:36-44 | packReplabels never lengthens its input; each token it emits is a token of the input or the index of count token k for some 1 <= k <= maxReps |
| `Replabels.PackCollapsesRun` | flashlight/lib/text/dictionary/Utils.h:37-38 | a token repeated r + 1 times (1 <= r <= maxReps), where the run ends or the chunk is full, becomes the token followed by the count token for r |
| `Replabels.PackKeepsSingle` | flashlight/lib/text/dictionary/Utils.h:37-38 | a token not followed by a copy of itself is emitted alone |
| `Replabels.PackNoRepeatsIsIdentity` | flashlight/lib/text/dictionary/Utils.h:37-38 | a sequence with no two equal adjacent tokens packs to itself, since only consecutive repeats are replaced |
| `Replabels.PackedHasNoAdjacentRepeats` | flashlight/lib/text/dictionary/Utils.h:37-38 | with at least one count token, a packed letter sequence has no consecutive repeats left |
| `Replabels.PackIdempotent` | flashlight/lib/text/dictionary/Utils.h:37-38 | packing a packed letter sequence again changes nothing |
| `Replabels.PackWithoutTableIsIdentity` | flashlight/lib/text/dictionary/Utils.h:38-44 | with no count tokens (maxReps <= 0) packing returns its input |
| `Replabels.PackDocExample` | flashlight/lib/text/dictionary/Utils.h:37-38 | "abbccc" packs to "ab1c2", for any letters a != b != c and count tokens 1 and 2 |
| `Replabels.Unpack` | flashlight/lib/text/dictionary/Utils.h:46-54 | the unpack scan from the start emits only letters: no emitted token is a count token, and each one is a token of the input |
| `Replabels.UnpackDropsOrphanCount` | flashlight/lib/text/dictionary/Utils.h:46-54 | a count token with no letter before it, at the start of the sequence, is dropped |
| `Replabels.UnpackDropsCountAfterCount` | flashlight/lib/text/dictionary/Utils.h:46-54 | after a letter and its count token r, a second count token is dropped: the three unpack to r + 1 copies of the letter |
| `Replabels.UnpackElements` | flashlight/lib/text/dictionary/Utils.h:46-54 | unpacking emits only letters: no count token, and each token is from the input or is the letter read just before |
| `Replabels.UnpackReplabels` | flashlight/lib/text/dictionary/Utils.h:46-54 | every token unpackReplabels emits is a token of its input and none is the index of a count token 1 .. maxReps |
| `Replabels.UnpackExpandsReplabel` | flashlight/lib/text/dictionary/Utils.h:47-48 | a letter followed by the count token for r unpacks to r + 1 copies of the letter |
| `Replabels.UnpackKeepsLetter` | flashlight/lib/text/dictionary/Utils.h:47-48 | a letter not followed by a count token is kept as it is |
| `Replabels.UnpackLettersIsIdentity` | flashlight/lib/text/dictionary/Utils.h:47-48 | a sequence without count tokens unpacks to itself |
| `Replabels.UnpackDocExample` | flashlight/lib/text/dictionary/Utils.h:47-48 | "ab1c2" unpacks to "abbccc", for any letters and distinct count tokens 1 and 2 |
| `Replabels.UnpackPack` | flashlight/lib/text/dictionary/Utils.h:36-54 | unpacking undoes packing for every sequence of letters, given distinct count tokens |
| `Replabels.PackUnpackRoundTrip` | flashlight/lib/text/dictionary/Utils.h:36-54 | unpackReplabels(packReplabels(x, d, m), d, m) == x whenever the count tokens 1 .. m are registered with distinct spellings in a bijective dictionary and x holds none of them |
| `Spelling.SplitWrd` | flashlight/lib/text/dictionary/Utils.h:32-34 | splitWrd yields one piece per character, piece i is character i, and the pieces joined give the word back |
| `Spelling.Indices` | flashlight/lib/text/dictionary/Utils.h:56-63 | looking up every token of a spelling succeeds exactly when all are registered, and then gives the index of each token in order |
| `Spelling.IndicesSnoc` | flashlight/lib/text/dictionary/Utils.h:56-63 | looking up one more token extends the looked-up indices by that token's index |
| `Spelling.Tkn2Idx` | flashlight/lib/text/dictionary/Utils.h:56-63 | tkn2Idx succeeds exactly when every token of the spelling is registered, and the result is never longer than the spelling |
| `Spelling.Tkn2IdxPacksIndices` | flashlight/lib/text/dictionary/Utils.h:56-63 | tkn2Idx(spelling, d, m) is packReplabels applied to getIndex of each token of the spelling |
| `Spelling.Tkn2IdxUnpacks` | flashlight/lib/text/dictionary/Utils.h:56-63 | the packed spelling of a word unpacks to the index of each of its tokens when no token of the spelling is a count token |
| `Spelling.DocExamplePack` | flashlight/lib/text/dictionary/Utils.h:36-40 | on a dictionary of a, b, c, "1", "2", tkn2Idx of splitWrd("abbccc") is the indices of "ab1c2" |
| `Spelling.DocExampleUnpack` | flashlight/lib/text/dictionary/Utils.h:46-50 | on the same dictionary, the indices of "ab1c2" unpack to those of "abbccc" |
| `DecoderTest.TokensToTensor` | flashlight/lib/text/test/decoder/DecoderTest.cpp:38-49 | the trie lookup key built token by token equals tkn2Idx(splitWrd(word), dict, 1) |

## Left out

- The token dictionary (`Dictionary.h`) is not part of this model. It is reduced to a finite map and the spelling of the count tokens.
- `splitWrd` works here on characters. The byte-level UTF-8 decoding and its handling of malformed input are not part of this model.
- `loadWords`, `createWordDict` and `createCutomVocabularyDict` parse lexicon files and build dictionaries. That is file I/O and construction of the external dictionary.
- `dict_string_format` and `dict_write_log_file` are `snprintf` formatting and appends to a fixed log file. That is foreign calls and I/O.
- The body of the decoder test (`DecoderTest.run`) reads binary files, builds a KenLM model and compares floats within tolerances. That is I/O and floating point.
- The lexicon trie, its smearing, the beam-search decoder and the language model adapter are not part of this model. They belong to the decoder, which uses the dictionary utilities modelled here but is a separate component.
- Indices and `maxReps` are unbounded integers. The C++ `int` width does not matter at the sizes these functions see.
