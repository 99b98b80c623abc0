# A verified model of a character-level BPE engine

`BPE_SCRATCH.py` defines a `BPE` object, a character-level Byte Pair Encoding trainer and codec. The object holds three tables:

- `vocab`: id to symbol;
- `inverse_vocab`: symbol to id;
- `bpe_merges`: pair of ids to new id, in insertion order.

`train(text, vocab_size)` works in three steps:

1. It strips the corpus and writes every space as the marker `_`.
2. Its alphabet is `chr(0) .. chr(255)`, followed by the other characters of the stripped corpus (`preprocess_text(corpus)`) in first-occurrence order.
3. While the next id `new_id` is below `vocab_size`, it merges the most frequent adjacent pair of ids into the next id. On a tie, the pair seen first wins. Each merge rewrites the sequence in one non-overlapping, left-to-right pass. Finally, each merge id gets the concatenated symbol of its pair.

The codec functions work as follows:

- `tokenize`/`encode` look the symbols up and replay the merges in id order.
- `decode` joins the symbols of the ids and turns the marker back into spaces.

## Modules

| module | models |
|---|---|
| `Types` | ids, symbols, pairs, merges, the tables as a value, and the two `KeyError`s, as `UnknownSymbol` and `UnknownId` |
| `Preprocessing` | `str.strip()`, `preprocess_text`, and `decode`'s join and marker replacement |
| `Vocabulary` | `initializing_vocab` as functions on the alphabet |
| `PairCounts` | counting adjacent pairs, and a reference definition of `find_freq_pair`'s answer with its declarative specification |
| `Merging` | `replace_pair` as a function, its inverse, and the spelling through the vocabulary |
| `Codec` | `tokenize`, `encode`, `decode` and the round trip |
| `Training` | the merge loop of `train`, the vocabulary loop of `train`, and what the trained tables satisfy |
| `Engine` | `class Bpe` with the three tables as fields. Its methods are the source's loops, each proved equal to the functions above. |

Design choices:

- Python's insertion-ordered dicts become a `map` plus a `seq` of keys in insertion order (`pair_counts`), or a `seq` of entries (`bpe_merges`).
- Ids are unbounded integers, as in Python.
- `train` is the same deterministic function of `(text, vocab_size)` in every run: `Training.Train`.

Two behaviours of the code are easy to miss:

- **The round trip excludes `_`.** The round trip `decode(encode(t)) == t.strip()` holds only for texts without the marker `_`. A `_` in the input comes back as a space (`Training.MarkerBecomesSpace`).
- **Unknown ids.** `decode` fails on any id missing from the vocabulary, negative ones included, and reports the first.

## Model

| member | source | states |
|---|---|---|
| `Engine.Bpe.constructor` | BPE_SCRATCH.py:2-8 | all three tables start empty |
| `Preprocessing.Strip` | BPE_SCRATCH.py:13 | reference definition of `text.strip()`; its properties are in `StripLeftSpec`, `StripRightSpec`, `StripSpec` and `StripChars` |
| `Preprocessing.Preprocess` | BPE_SCRATCH.py:11-21 | reference definition of `preprocess_text`; its properties are in `PreprocessSpec` and `PreprocessRoundTrip` |
| `Preprocessing.Join` | BPE_SCRATCH.py:129 | reference definition of `"".join(tokens)`; see `JoinSingletons` and `PreprocessRoundTrip` |
| `Preprocessing.Unmark` | BPE_SCRATCH.py:129 | reference definition of `.replace("_", " ")`; see `PreprocessRoundTrip` and `Codec.MarkerDecodesToSpace` |
| `Preprocessing.StripLeftSpec` | BPE_SCRATCH.py:13 | the left strip keeps the suffix after the longest whitespace prefix and starts with non-whitespace |
| `Preprocessing.StripRightSpec` | BPE_SCRATCH.py:13 | the right strip keeps the prefix before the longest whitespace suffix and ends with non-whitespace |
| `Preprocessing.StripSpec` | BPE_SCRATCH.py:13 | `strip` keeps a window `s[i..j]`; only whitespace lies outside it, and the window starts and ends with non-whitespace |
| `Preprocessing.StripChars` | BPE_SCRATCH.py:13 | stripping introduces no character |
| `Preprocessing.PreprocessSpec` | BPE_SCRATCH.py:11-21 | one one-character symbol per stripped character; the symbol is `_` exactly where the character is a space or `_`; any other character is kept unchanged |
| `Engine.Bpe.PreprocessText` | BPE_SCRATCH.py:11-21 | the appending loop returns the preprocessed symbols of `PreprocessSpec` |
| `Preprocessing.PreprocessRoundTrip` | BPE_SCRATCH.py:129 | for a text without `_`, joining the symbols and replacing `_` by a space gives back `text.strip()` |
| `Preprocessing.JoinSingletons` | BPE_SCRATCH.py:129 | joining one-character symbols spells their characters in order |
| `Vocabulary.FirstNew` | BPE_SCRATCH.py:32-34 | reference definition of the characters the appending loop adds to `unique_chars`; its properties are in `FirstNewMembers`, `FirstNewDistinct`, `FirstNewOrder` and `FirstNewKnown` |
| `Vocabulary.FirstNewMembers` | BPE_SCRATCH.py:32-34 | the characters the loop adds are exactly those of the text that are not in the alphabet yet |
| `Vocabulary.FirstNewDistinct` | BPE_SCRATCH.py:32-34 | the loop adds no character twice |
| `Vocabulary.FirstNewOrder` | BPE_SCRATCH.py:32-34 | the added characters keep first-occurrence order |
| `Vocabulary.FirstNewKnown` | BPE_SCRATCH.py:32-34 | a text of known characters adds nothing |
| `Vocabulary.Base` | BPE_SCRATCH.py:29 | reference definition of `[chr(i) for i in range(256)]`; see `BaseSingle` and `AlphabetSpec` |
| `Vocabulary.Alphabet` | BPE_SCRATCH.py:26-38 | reference definition of `unique_chars`; its properties are in `AlphabetSpec`, `AlphabetSingles` and the `FirstNew` lemmas |
| `Vocabulary.VocabOf` | BPE_SCRATCH.py:41 | reference definition of the `vocab` comprehension; see `VocabDense`, `VocabSize` and `VocabInjective` |
| `Vocabulary.InverseOf` | BPE_SCRATCH.py:42 | reference definition of the `inverse_vocab` comprehension, a later id overwriting an earlier one; see `InverseSpec` |
| `Vocabulary.BaseSingle` | BPE_SCRATCH.py:29 | the base alphabet holds exactly the one-character symbols below 256 |
| `Vocabulary.AlphabetSpec` | BPE_SCRATCH.py:26-38 | `unique_chars` is `chr(0..255)` at its own ids, then the new characters; its symbols are distinct; its members are the base ones and those of the text; `_` is `chr(95)`, so the append of lines 37-38 never fires |
| `Vocabulary.AlphabetSingles` | BPE_SCRATCH.py:26-38 | every symbol of `unique_chars` is one character |
| `Vocabulary.VocabDense` | BPE_SCRATCH.py:41 | the vocabulary holds exactly the ids `0 .. N-1`, with `vocab[i]` the `i`-th symbol |
| `Vocabulary.VocabSize` | BPE_SCRATCH.py:41 | the vocabulary has one entry per symbol |
| `Vocabulary.VocabInjective` | BPE_SCRATCH.py:41 | distinct symbols give an injective vocabulary; `Training.BaseVocabSpec` applies it to the base vocabulary |
| `Vocabulary.InverseSpec` | BPE_SCRATCH.py:42 | for distinct symbols, `inverse_vocab` holds exactly the symbols and `inverse_vocab[vocab[i]] == i` |
| `Engine.Bpe.InitializingVocab` | BPE_SCRATCH.py:25-42 | the loop leaves the vocabulary and inverse of the alphabet of `AlphabetSpec`, and the merges untouched |
| `PairCounts.FirstFrom` | BPE_SCRATCH.py:48-53 | the first position from `k` on where a pair occurs |
| `PairCounts.FirstIndex` | BPE_SCRATCH.py:48-53 | a pair's first occurrence: it sits there and nowhere earlier |
| `PairCounts.CountInPositive` | BPE_SCRATCH.py:48-53 | a pair's count up to `k` is positive exactly when it occurs before `k` |
| `PairCounts.OccursCounted` | BPE_SCRATCH.py:48-53 | a pair occurs exactly when its count is positive |
| `PairCounts.Count` | BPE_SCRATCH.py:48-53 | reference definition of a pair's final count in `pair_counts`; see `OccursCounted` and `Engine.Bpe.CountPairs` |
| `PairCounts.FirstIndexAt` | BPE_SCRATCH.py:48-53 | a position where the pair sits and before which it has count zero is its first occurrence |
| `PairCounts.TallySeen` | BPE_SCRATCH.py:50-51 | incrementing a seen pair keeps the counting invariant one position further |
| `PairCounts.TallyNew` | BPE_SCRATCH.py:52-53 | inserting a new pair with count 1 at the end of the order keeps the invariant one position further |
| `Engine.Bpe.CountPairs` | BPE_SCRATCH.py:47-53 | the dictionary holds exactly the occurring pairs with their full counts, keyed in first-occurrence order without repeats |
| `PairCounts.BestIndex` | BPE_SCRATCH.py:56-61 | the running maximum over the first `k` positions is one of them |
| `PairCounts.BestIndexSpec` | BPE_SCRATCH.py:56-61 | no position has a more frequent pair than the best one, and every earlier position has a strictly less frequent pair |
| `PairCounts.FreqPair` | BPE_SCRATCH.py:45-63 | reference definition of `find_freq_pair`'s answer; its meaning is `FreqPairSpec`, its uniqueness `MostFrequentUnique` |
| `PairCounts.FreqPairSpec` | BPE_SCRATCH.py:45-63 | the answer is none exactly for fewer than two ids; otherwise it occurs, no pair is more frequent, and every other equally frequent pair first occurs later |
| `PairCounts.MostFrequentUnique` | BPE_SCRATCH.py:56-61 | at most one pair meets that specification |
| `PairCounts.FreqPairExample` | BPE_SCRATCH.py:45-63 | `[1,2,1,2,3,3]` gives `(1,2)` |
| `PairCounts.FreqPairTieExample` | BPE_SCRATCH.py:58-61 | `[2,2,2,1,1,1]`: `(2,2)` and `(1,1)` tie at two, and the one seen first wins |
| `Engine.CountsArgmax` | BPE_SCRATCH.py:56-63 | the pair the second loop keeps is the most frequent under the first-occurrence tie-break, and equals the reference answer |
| `Engine.CountsNonEmpty` | BPE_SCRATCH.py:47-53 | with two ids or more the dictionary is not empty |
| `Engine.Bpe.FindFreqPair` | BPE_SCRATCH.py:45-63 | both loops together return the reference answer that `FreqPairSpec` characterises |
| `Merging.Replace` | BPE_SCRATCH.py:66-76 | the output is never longer than the input |
| `Merging.ReplaceShrinks` | BPE_SCRATCH.py:66-76 | the output is strictly shorter exactly when the pair occurs, and equals the input when it does not |
| `Merging.ReplaceMembers` | BPE_SCRATCH.py:66-76 | every output id is the new id or an input id |
| `Merging.ReplaceHead` | BPE_SCRATCH.py:70-75 | a non-empty input gives a non-empty output, starting with the new id or the input's first id |
| `Merging.ReplaceCreatesNoPair` | BPE_SCRATCH.py:66-76 | no pair of old ids appears that the input lacked, and the merged pair is gone |
| `Merging.ReplaceNonOverlapping` | BPE_SCRATCH.py:70-72 | `[A,A,A]` with `(A,A)` becomes `[new,A]` |
| `Merging.ReplaceSpell` | BPE_SCRATCH.py:66-76 | when `vocab[new] == vocab[a] + vocab[b]`, the ids stay known and spell the same text |
| `Merging.ExpandReplace` | BPE_SCRATCH.py:66-76 | expanding the new id back into its pair recovers the input, if the new id was not in it |
| `Merging.OccursTail` | BPE_SCRATCH.py:69-75 | a pair occurs in a sequence exactly when it sits at the front or occurs in the tail |
| `Merging.Spell` | BPE_SCRATCH.py:128-129 | reference definition of joining the symbols of ids; see `ReplaceSpell`, `Codec.ApplyMergesSpell` and `Codec.LookupSpell` |
| `Engine.Bpe.ReplacePair` | BPE_SCRATCH.py:66-76 | the `while` loop returns `Replace`, whose properties are above |
| `Training.InsertNew` | BPE_SCRATCH.py:92 | assigning a key the table lacks appends the entry |
| `Training.Insert` | BPE_SCRATCH.py:92 | reference definition of `self.bpe_merges[pair] = new_id` on an insertion-ordered dictionary; see `InsertNew` and `MergeStep` |
| `Training.MergeLoop` | BPE_SCRATCH.py:87-93 | reference definition of `train`'s merge loop; its properties are in `MergeLoopSpec`, `TrainMerges` and `MergeLoopExample` |
| `Training.MergeStep` | BPE_SCRATCH.py:88-93 | one turn keeps the loop invariant: the pair is a new key, ids come out in order, no merged pair remains, and the sequence shrinks but stays non-empty |
| `Training.MergeLoopSpec` | BPE_SCRATCH.py:86-93 | the loop keeps its invariant and only extends the table. It adds at most `max(0, vocab_size - new_id)` merges, and at most one fewer than the ids it starts with. It never empties the sequence, and stops before `vocab_size` only once fewer than two ids remain |
| `Engine.Bpe.MergePairs` | BPE_SCRATCH.py:86-93 | the loop ends in the state of `MergeLoop`, whose properties `MergeLoopSpec` proves, with `new_id` one past the last merge id |
| `Training.AddMerged` | BPE_SCRATCH.py:96-99 | reference definition of `train`'s vocabulary loop; its properties are in `AddMergedSize`, `AddMergedVocab` and `AddMergedInverse` |
| `Training.AddMergedSize` | BPE_SCRATCH.py:96-99 | each merge adds one new id |
| `Training.AddMergedVocab` | BPE_SCRATCH.py:95-99 | the ids stay dense, old entries stay, and every merge id spells its pair |
| `Training.AddMergedInverse` | BPE_SCRATCH.py:99 | every symbol of the inverse names an id that spells it, and one-character entries are untouched |
| `Engine.Bpe.AddMergedTokens` | BPE_SCRATCH.py:95-99 | the loop leaves the tables of `AddMerged` |
| `Training.BaseVocab` | BPE_SCRATCH.py:41 | the base vocabulary holds exactly the ids `0 .. N-1` |
| `Training.BaseVocabSpec` | BPE_SCRATCH.py:41 | the base vocabulary is dense, holds the alphabet at its own ids, has no empty symbol, and gives no symbol two ids |
| `Training.BaseInverseSpec` | BPE_SCRATCH.py:42 | the base inverse holds exactly the alphabet, maps it to its ids, and names for every symbol an id that spells it |
| `Training.BaseTables` | BPE_SCRATCH.py:80-86 | after `initializing_vocab`, every corpus symbol is known, and the corpus ids meet the loop invariant |
| `Training.BaseInverse` | BPE_SCRATCH.py:42 | reference definition of `inverse_vocab` after `initializing_vocab` on the corpus; see `BaseInverseSpec` and `BaseTables` |
| `Training.CorpusIds` | BPE_SCRATCH.py:84 | the corpus ids start the loop in its invariant |
| `Training.CorpusLookup` | BPE_SCRATCH.py:84-86 | line 84 never raises on the corpus, and `new_id` starts at the base size |
| `Training.Run` | BPE_SCRATCH.py:84-93 | reference definition of `train`'s merge loop started from the corpus ids at `new_id = len(self.vocab)`; its properties are in `TrainMerges`, `TrainedMerges` and `TrainExample` |
| `Training.TrainedMerges` | BPE_SCRATCH.py:86-93 | merge `k` creates id `base + k` from two earlier ids |
| `Training.Train` | BPE_SCRATCH.py:79-99 | reference definition of the tables `train` leaves on a fresh object; its properties are in `TrainMerges`, `TrainVocab`, `TrainInverse`, `TrainConsistent` and `TrainedRoundTrip` |
| `Engine.Bpe.Train` | BPE_SCRATCH.py:79-99 | on a fresh object, `train` leaves the tables of `Training.Train`, and they meet what the codec needs |
| `Training.TrainMerges` | BPE_SCRATCH.py:86-93 | merge ids run `base, base+1, ...` from earlier ids; no pair is merged twice. The count is at most `max(0, vocab_size - base)` and at most one less than the stripped corpus length. Training stops short only once fewer than two ids remain |
| `Training.AddMergedOver` | BPE_SCRATCH.py:95-99 | over the base vocabulary, the result is dense with `base + k` ids, keeps the alphabet, and spells every merge |
| `Training.TrainVocab` | BPE_SCRATCH.py:95-99 | the trained vocabulary holds ids `0 .. base+k-1`, keeps the base alphabet, and has `vocab[c] == vocab[a] + vocab[b]` for every merge `(a,b) -> c` |
| `Training.TrainInverse` | BPE_SCRATCH.py:95-99 | the trained inverse names for each of its symbols an id that spells it; a one-character symbol is held exactly when it is in the base alphabet, under its base id |
| `Training.TrainConsistent` | BPE_SCRATCH.py:79-99 | the trained tables are consistent, and the sort by id leaves the merge table unchanged |
| `Training.TrainKnowsChar` | BPE_SCRATCH.py:29-34 | a character is known after training exactly when it is below 256 or occurs in the stripped corpus (`preprocess_text(corpus)`) |
| `Training.TrainedRoundTrip` | BPE_SCRATCH.py:114-129 | after training, `decode(encode(t)) == t.strip()` for every `t` without `_` whose characters are below 256 or occur in the stripped corpus (`preprocess_text(corpus)`) |
| `Training.TrainedUnknownSymbol` | BPE_SCRATCH.py:116 | after training, a character neither below 256 nor in the stripped corpus makes `encode` fail with `UnknownSymbol` rather than be dropped |
| `Training.SpacesRoundTrip` | BPE_SCRATCH.py:114-129 | `"a b  c"` round-trips exactly, double space included, whatever the corpus |
| `Training.MarkerBecomesSpace` | BPE_SCRATCH.py:114-129 | after training, `"a_b"` encodes but decodes to `"a b"` |
| `Training.MergeLoopExample` | BPE_SCRATCH.py:86-93 | on `[97,97,97,97]`, the loop merges `(97,97)` twice in one pass, then `(256,256)`, and stops with one id left |
| `Training.AlphabetExample` | BPE_SCRATCH.py:26-38 | the corpus `"aaaa"` adds nothing to the 256 base characters |
| `Training.CorpusExample` | BPE_SCRATCH.py:84 | the corpus `"aaaa"` becomes `[97,97,97,97]` |
| `Training.TrainExample` | BPE_SCRATCH.py:79-93 | `"aaaa"` with `vocab_size = 600` makes exactly the two merges `(97,97) -> 256` and `(256,256) -> 257` |
| `Codec.Lookup` | BPE_SCRATCH.py:116 | the lookup (also line 84) succeeds exactly when every symbol is known, and then maps each to its id; otherwise it reports the first unknown symbol |
| `Codec.InsertByIdPerm` | BPE_SCRATCH.py:118 | insertion adds exactly the one entry |
| `Codec.InsertByIdSorted` | BPE_SCRATCH.py:118 | insertion keeps the table sorted by id |
| `Codec.SortById` | BPE_SCRATCH.py:118 | reference definition of `sorted(..., key=id)`, a stable sort; see `SortByIdSpec` and `SortByIdIncreasing` |
| `Codec.SortByIdSpec` | BPE_SCRATCH.py:118 | the merge steps are sorted by id, and are a permutation of the table |
| `Codec.SortByIdIncreasing` | BPE_SCRATCH.py:118 | a table with increasing ids is already in sorted order |
| `Codec.ApplyMergesSpell` | BPE_SCRATCH.py:119-120 | replaying spelled merges keeps every id known and the spelling unchanged |
| `Codec.ApplyMerges` | BPE_SCRATCH.py:119-120 | reference definition of `tokenize`'s merge loop; see `ApplyMergesSpell` |
| `Codec.LookupSpell` | BPE_SCRATCH.py:116 | the looked-up ids spell the joined symbols |
| `Codec.EncodeSpec` | BPE_SCRATCH.py:114-125 | `encode` succeeds exactly when every preprocessed symbol is known, and then its ids spell the preprocessed text; otherwise it reports an unknown symbol |
| `Codec.TokenizeSpec` | BPE_SCRATCH.py:114-125 | `tokenize` and `encode` fail together; each token is `(id, vocab[id])` for the id of `encode` at that position |
| `Codec.Tokenize` | BPE_SCRATCH.py:114-122 | reference definition of `tokenize`; see `TokenizeSpec` and `Engine.Bpe.Tokenize` |
| `Codec.Encode` | BPE_SCRATCH.py:124-125 | reference definition of `encode`; see `EncodeSpec`, `RoundTrip` and `Training.TrainedRoundTrip` |
| `Engine.Bpe.Tokenize` | BPE_SCRATCH.py:114-122 | the replay loop returns `Codec.Tokenize` on the object's tables |
| `Engine.Bpe.Encode` | BPE_SCRATCH.py:124-125 | returns `Codec.Encode` on the object's tables |
| `Codec.Decode` | BPE_SCRATCH.py:127-129 | `decode` succeeds exactly when every id is known; otherwise it reports the first unknown id |
| `Codec.RoundTrip` | BPE_SCRATCH.py:114-129 | on consistent tables, a text without `_` whose symbols are all known encodes, and decodes back to `text.strip()` |
| `Codec.MarkerDecodesToSpace` | BPE_SCRATCH.py:127-129 | on consistent tables that know `a`, `b` and `_`, `"a_b"` encodes but decodes to `"a b"` |

## Left out

- `print_vocab` and `print_merges` (lines 102-111) are not modelled: they only write to the console.
- The demo at the end of the file (lines 132-165) is not modelled: it is a hard-coded corpus and `print` calls.
- `Engine.Bpe.Train`: requires a fresh object (`bpe_merges` empty). The source never resets `bpe_merges`, so a second `train` on the same object would carry the old merges. That case is not modelled.
- No claim that the inverse is a bijection for merged symbols. Two pairs can spell the same string, and line 99 then overwrites the earlier id. `Training.TrainInverse` states only that each held symbol names an id that spells it. It is a true inverse only on one-character symbols.
- `Engine.Bpe.FindFreqPair`, `Engine.Bpe.ReplacePair`, `Engine.Bpe.MergePairs`, `Engine.Bpe.AddMergedTokens`, `Engine.Bpe.Tokenize`, `Engine.Bpe.Encode`, `Engine.Bpe.PreprocessText`: each ensures equality with a specification function. The properties are proved about that function, in the rows above.
- The two loops of `train` and the counting loop of `find_freq_pair` are separate methods: `MergePairs`, `AddMergedTokens` and `CountPairs`. `Train` and `FindFreqPair` call them.
- `decode` is modelled only as the function `Codec.Decode`. It has no loop and changes no state.
- Python dictionaries become insertion-ordered sequences and maps. Dictionary iteration order is modelled only as that order.
- The whitespace that `str.strip()` removes is written out as the characters Python's `str.isspace()` accepts. Unicode data beyond that set is not consulted.
- Python strings may hold lone surrogates (code points 0xD800-0xDFFF). Dafny characters cannot, so such text is outside the model.
