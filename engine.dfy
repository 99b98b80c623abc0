/** The `BPE` object: its three tables as fields, and its methods as the
    loops the source runs, each proved against the functions of the other
    modules. */
module Engine {
  import opened Types
  import opened Preprocessing
  import opened Vocabulary
  import opened PairCounts
  import opened Merging
  import Codec
  import Training

  /** What the counting loop of `find_freq_pair` leaves when every pair of
      `order` has its full count: the argmax `order[b]` of the second loop
      is the most frequent pair under the first-occurrence tie-break. */
  lemma CountsArgmax(s: seq<Id>, counts: map<Pair, nat>, order: seq<Pair>, first: seq<nat>, b: nat)
    requires |first| == |order| && b < |order|
    requires forall q :: q in counts <==> q in order
    requires forall j :: 0 <= j < |order| ==>
      first[j] < NumPairs(s) && At(s, first[j]) == order[j] && CountIn(s, order[j], first[j]) == 0
    requires forall j1, j2 :: 0 <= j1 < j2 < |order| ==> first[j1] < first[j2]
    requires forall q :: q in counts ==> counts[q] == Count(s, q)
    requires forall q :: q !in counts ==> Count(s, q) == 0
    requires forall k :: 0 <= k < |order| ==> counts[order[k]] <= counts[order[b]]
    requires forall k :: 0 <= k < b ==> counts[order[k]] < counts[order[b]]
    ensures IsMostFrequent(s, order[b])
    ensures FreqPair(s) == Some(order[b])
  {
    var p := order[b];
    FirstIndexAt(s, p, first[b]);
    forall q | Occurs(s, q) ensures Count(s, q) <= Count(s, p) {
      OccursCounted(s, q);
      var k :| 0 <= k < |order| && order[k] == q;
    }
    forall q | Occurs(s, q) && q != p && Count(s, q) == Count(s, p)
      ensures FirstIndex(s, p) < FirstIndex(s, q)
    {
      OccursCounted(s, q);
      var k :| 0 <= k < |order| && order[k] == q;
      FirstIndexAt(s, q, first[k]);
    }
    FreqPairSpec(s);
    MostFrequentUnique(s, p, FreqPair(s).value);
  }

  /** With two ids or more the counting loop finds at least one pair. */
  lemma CountsNonEmpty(s: seq<Id>, counts: map<Pair, nat>, order: seq<Pair>)
    requires forall q :: q in counts <==> q in order
    requires forall q :: q !in counts ==> Count(s, q) == 0
    ensures |s| >= 2 ==> |order| > 0
  {
    if |s| >= 2 {
      CountInPositive(s, At(s, 0), NumPairs(s));
      assert At(s, 0) in counts;
    }
  }

  class Bpe {
    /** `vocab`: id to symbol. */
    var vocab: map<Id, Symbol>
    /** `inverse_vocab`: symbol to id. */
    var inverseVocab: map<Symbol, Id>
    /** `bpe_merges`: pair to new id, in insertion order. */
    var bpeMerges: seq<Merge>

    /** The three tables as one value. */
    function State(): Tables
      reads this
    {
      Tables(vocab, inverseVocab, bpeMerges)
    }

    /** `__init__`: all tables empty. */
    constructor()
      ensures vocab == map[] && inverseVocab == map[] && bpeMerges == []
    {
      vocab := map[];
      inverseVocab := map[];
      bpeMerges := [];
    }

    /** `preprocess_text`: one one-character symbol per character of the
        stripped text, the marker exactly where the text has a space or
        the marker itself. */
    method PreprocessText(text: string) returns (processed: seq<Symbol>)
      ensures processed == Preprocess(text)
    {
      var t := Strip(text);
      ghost var p := Preprocess(text);
      processed := [];
      for i := 0 to |t|
        invariant processed == p[..i]
      {
        assert p[..i + 1] == p[..i] + [p[i]];
        if t[i] == ' ' {
          processed := processed + [[Marker]];
        } else {
          processed := processed + [[t[i]]];
        }
      }
      assert processed == p[..|p|] == p;
    }

    /** `initializing_vocab`: the base alphabet, the new symbols in
        first-occurrence order, the marker if missing, then both mappings. */
    method InitializingVocab(processedText: seq<Symbol>)
      modifies this`vocab, this`inverseVocab
      ensures vocab == VocabOf(Alphabet(processedText))
      ensures inverseVocab == InverseOf(Alphabet(processedText))
      ensures bpeMerges == old(bpeMerges)
    {
      var uniqueChars := Base();
      for k := 0 to |processedText|
        invariant uniqueChars == Base() + FirstNew(Base(), processedText[..k])
      {
        var c := processedText[k];
        FirstNewMembers(Base(), processedText[..k]);
        assert processedText[..k + 1][..k] == processedText[..k];
        if c !in uniqueChars {
          uniqueChars := uniqueChars + [c];
        }
      }
      assert processedText[..|processedText|] == processedText;
      if [Marker] !in uniqueChars {
        uniqueChars := uniqueChars + [[Marker]];
      }
      vocab := VocabOf(uniqueChars);
      inverseVocab := InverseOf(uniqueChars);
    }

    /** `find_freq_pair`: count the adjacent pairs in a dictionary kept in
        first-occurrence order, then keep the first pair whose count beats
        every earlier one. */
    method FindFreqPair(tokenIds: seq<Id>) returns (maxPair: Option<Pair>)
      ensures maxPair == FreqPair(tokenIds)
    {
      var pairCounts, order, first := CountPairs(tokenIds);
      maxPair := None;
      var maxCount: nat := 0;
      ghost var b: nat := 0;
      for j := 0 to |order|
        invariant j == 0 ==> maxPair == None && maxCount == 0
        invariant b <= j
        invariant j > 0 ==> b < j && maxPair == Some(order[b]) && maxCount == pairCounts[order[b]]
        invariant forall k :: 0 <= k < j ==> pairCounts[order[k]] <= maxCount
        invariant forall k :: 0 <= k < b ==> pairCounts[order[k]] < maxCount
      {
        var pair := order[j];
        if pairCounts[pair] > maxCount {
          maxCount := pairCounts[pair];
          maxPair := Some(pair);
          b := j;
        }
      }
      CountsNonEmpty(tokenIds, pairCounts, order);
      if |order| > 0 {
        CountsArgmax(tokenIds, pairCounts, order, first, b);
      }
    }

    /** The counting loop of `find_freq_pair`: the count of
        every adjacent pair, the pairs in the order the dictionary first
        saw them, and (as a ghost) where each was first seen. */
    method CountPairs(tokenIds: seq<Id>) returns (pairCounts: map<Pair, nat>, order: seq<Pair>, ghost first: seq<nat>)
      ensures |first| == |order|
      ensures forall q :: q in pairCounts <==> q in order
      ensures forall j1, j2 :: 0 <= j1 < j2 < |order| ==> order[j1] != order[j2]
      ensures forall j :: 0 <= j < |order| ==>
        first[j] < NumPairs(tokenIds) && At(tokenIds, first[j]) == order[j] && CountIn(tokenIds, order[j], first[j]) == 0
      ensures forall j1, j2 :: 0 <= j1 < j2 < |order| ==> first[j1] < first[j2]
      ensures forall q :: q in pairCounts ==> pairCounts[q] == Count(tokenIds, q) && pairCounts[q] >= 1
      ensures forall q :: q !in pairCounts ==> Count(tokenIds, q) == 0
    {
      pairCounts, order, first := map[], [], [];
      for i := 0 to NumPairs(tokenIds)
        invariant Tallied(tokenIds, i, pairCounts, order, first)
      {
        var pair := (tokenIds[i], tokenIds[i + 1]);
        assert pair == At(tokenIds, i);
        if pair in pairCounts {
          TallySeen(tokenIds, i, pairCounts, order, first);
          pairCounts := pairCounts[pair := pairCounts[pair] + 1];
        } else {
          TallyNew(tokenIds, i, pairCounts, order, first);
          pairCounts := pairCounts[pair := 1];
          order := order + [pair];
          first := first + [i];
        }
      }
    }

    /** `replace_pair`: scan left to right, writing the new id for each
        match and skipping its second half. */
    method ReplacePair(tokenIds: seq<Id>, pairToMerge: Pair, newId: Id) returns (result: seq<Id>)
      ensures result == Replace(tokenIds, pairToMerge, newId)
    {
      result := [];
      var i := 0;
      while i < |tokenIds|
        invariant 0 <= i <= |tokenIds|
        invariant result + Replace(tokenIds[i..], pairToMerge, newId) == Replace(tokenIds, pairToMerge, newId)
        decreases |tokenIds| - i
      {
        ghost var rest := tokenIds[i..];
        if i < |tokenIds| - 1 && (tokenIds[i], tokenIds[i + 1]) == pairToMerge {
          assert rest[2..] == tokenIds[i + 2..];
          assert Replace(rest, pairToMerge, newId) == [newId] + Replace(tokenIds[i + 2..], pairToMerge, newId);
          AppendAssoc(result, [newId], Replace(tokenIds[i + 2..], pairToMerge, newId));
          result := result + [newId];
          i := i + 2;
        } else {
          assert rest[1..] == tokenIds[i + 1..];
          assert Replace(rest, pairToMerge, newId) == [tokenIds[i]] + Replace(tokenIds[i + 1..], pairToMerge, newId);
          AppendAssoc(result, [tokenIds[i]], Replace(tokenIds[i + 1..], pairToMerge, newId));
          result := result + [tokenIds[i]];
          i := i + 1;
        }
      }
    }

    /** `train` on a fresh object: build the base tables, merge the most
        frequent pair until `vocab_size` ids exist or no pair is left, then
        give every merge id its symbol. */
    method Train(text: string, vocabSize: int)
      requires bpeMerges == []
      modifies this
      ensures State() == Training.Train(text, vocabSize)
      ensures Codec.Consistent(State())
    {
      var processedText := PreprocessText(text);
      InitializingVocab(processedText);
      assert vocab == Training.BaseVocab(text) && inverseVocab == Training.BaseInverse(text);
      Training.CorpusLookup(text);
      var tokenIds := Codec.Lookup(inverseVocab, processedText).value;
      var newId := |vocab|;
      ghost var base: nat := newId;
      assert tokenIds == Training.CorpusIds(text);
      tokenIds, newId := MergePairs(tokenIds, newId, vocabSize, base);
      assert bpeMerges == Training.TrainedMerges(text, vocabSize);
      ghost var baseVocab, baseInverse := vocab, inverseVocab;
      AddMergedTokens(base);
      Training.TrainedState(text, vocabSize, baseVocab, baseInverse, bpeMerges, vocab, inverseVocab);
    }

    /** The merge loop of `train`: while ids below `vocab_size` remain, merge
        the most frequent pair into the next id and record it; stop early
        when no pair is left. */
    method MergePairs(tokenIds0: seq<Id>, newId0: int, vocabSize: int, ghost base: nat)
      returns (tokenIds: seq<Id>, newId: int)
      requires Training.LoopInv(base, tokenIds0, newId0, bpeMerges)
      modifies this`bpeMerges
      ensures (tokenIds, bpeMerges) == Training.MergeLoop(tokenIds0, newId0, vocabSize, old(bpeMerges))
      ensures newId == base + |bpeMerges|
    {
      tokenIds, newId := tokenIds0, newId0;
      while newId < vocabSize
        invariant Training.MergeLoop(tokenIds, newId, vocabSize, bpeMerges)
          == Training.MergeLoop(tokenIds0, newId0, vocabSize, old(bpeMerges))
        invariant Training.LoopInv(base, tokenIds, newId, bpeMerges)
        decreases vocabSize - newId
      {
        var pair := FindFreqPair(tokenIds);
        if pair.None? {
          break;
        }
        Training.MergeStep(base, tokenIds, newId, bpeMerges, pair.value);
        ghost var ids0, merges0 := tokenIds, bpeMerges;
        tokenIds := ReplacePair(tokenIds, pair.value, newId);
        bpeMerges := Training.Insert(bpeMerges, pair.value, newId);
        Training.MergeLoopTurn(ids0, newId, vocabSize, merges0, pair.value, tokenIds, bpeMerges);
        newId := newId + 1;
      }
    }

    /** The vocabulary loop of `train`: for each merge in table order, the symbol of
        its pair's ids concatenated becomes the merge id's symbol, in both
        mappings. */
    method AddMergedTokens(ghost n: int)
      requires Dense(vocab, n) && Training.Chained(n, bpeMerges)
      modifies this`vocab, this`inverseVocab
      ensures (vocab, inverseVocab) == Training.AddMerged(n, old(vocab), old(inverseVocab), bpeMerges)
    {
      for k := 0 to |bpeMerges|
        invariant Dense(vocab, n + k)
        invariant Training.Chained(n + k, bpeMerges[k..])
        invariant Training.AddMerged(n + k, vocab, inverseVocab, bpeMerges[k..])
          == Training.AddMerged(n, old(vocab), old(inverseVocab), bpeMerges)
      {
        var m := bpeMerges[k];
        var mergedToken := vocab[m.0.0] + vocab[m.0.1];
        Training.AddMergedTurn(n, k, vocab, inverseVocab, bpeMerges);
        vocab := vocab[m.1 := mergedToken];
        inverseVocab := inverseVocab[mergedToken := m.1];
      }
    }

    /** `tokenize`: look the symbols up, replay the merges in id order, and
        pair every id with its symbol; a symbol or id missing from the
        tables is the source's `KeyError`. */
    method Tokenize(text: string) returns (r: Result<seq<(Id, Symbol)>>)
      ensures r == Codec.Tokenize(State(), text)
    {
      var processed := PreprocessText(text);
      var lookup := Codec.Lookup(inverseVocab, processed);
      if lookup.Err? {
        return Err(lookup.error);
      }
      var tokenIds := lookup.value;
      var mergeSteps := Codec.SortById(bpeMerges);
      for k := 0 to |mergeSteps|
        invariant tokenIds == Codec.ApplyMerges(lookup.value, mergeSteps[..k])
      {
        assert mergeSteps[..k + 1][..k] == mergeSteps[..k];
        tokenIds := ReplacePair(tokenIds, mergeSteps[k].0, mergeSteps[k].1);
      }
      assert mergeSteps[..|mergeSteps|] == mergeSteps;
      var v := vocab;
      match MissingKey(v, tokenIds)
      case Some(j) =>
        r := Err(UnknownId(tokenIds[j]));
      case None =>
        r := Ok(seq(|tokenIds|, i requires 0 <= i < |tokenIds| => (tokenIds[i], v[tokenIds[i]])));
    }

    /** `encode`: the ids of `tokenize`. */
    method Encode(text: string) returns (r: Result<seq<Id>>)
      ensures r == Codec.Encode(State(), text)
    {
      var tokens := Tokenize(text);
      match tokens
      case Err(e) =>
        r := Err(e);
      case Ok(ts) =>
        r := Ok(seq(|ts|, i requires 0 <= i < |ts| => ts[i].0));
    }
  }
}
