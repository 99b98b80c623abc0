/** `train`: the loop "most frequent pair, then merge" and the symbols of
    the merged ids, with what the trained tables are proved to satisfy. */
module Training {
  import opened Types
  import opened Preprocessing
  import opened Vocabulary
  import opened PairCounts
  import opened Merging
  import opened Codec

  function Max0(x: int): nat
  {
    if x < 0 then 0 else x
  }

  /** `self.bpe_merges[pair] = new_id` on an insertion-ordered dictionary:
      an existing key keeps its place and takes the new id, a new key goes last. */
  function Insert(m: seq<Merge>, p: Pair, v: Id): seq<Merge>
    decreases |m|
  {
    if m == [] then [(p, v)]
    else if m[0].0 == p then [(p, v)] + m[1..]
    else [m[0]] + Insert(m[1..], p, v)
  }

  /** Merge `k` creates id `base + k` from two ids below it. */
  predicate Chained(base: int, m: seq<Merge>)
  {
    forall k :: 0 <= k < |m| ==>
      m[k].1 == base + k && 0 <= m[k].0.0 < base + k && 0 <= m[k].0.1 < base + k
  }

  /** No pair is a key twice. */
  predicate DistinctPairs(m: seq<Merge>)
  {
    forall k1, k2 :: 0 <= k1 < k2 < |m| ==> m[k1].0 != m[k2].0
  }

  /** The merge loop of `train`, from a state `(token_ids, new_id, bpe_merges)`
      to the final token ids and merge table. */
  function MergeLoop(ids: seq<Id>, newId: int, vocabSize: int, merges: seq<Merge>): (seq<Id>, seq<Merge>)
    decreases vocabSize - newId
  {
    if newId >= vocabSize then (ids, merges)
    else
      match FreqPair(ids)
      case None => (ids, merges)
      case Some(p) => MergeLoop(Replace(ids, p, newId), newId + 1, vocabSize, Insert(merges, p, newId))
  }

  /** The vocabulary loop of `train`: give every merge id the concatenation of its pair's
      symbols, in table order, in both directions of the vocabulary. Each
      pair's ids are already known when their merge is reached. */
  function AddMerged(n: int, vocab: map<Id, Symbol>, inverse: map<Symbol, Id>, merges: seq<Merge>)
    : (map<Id, Symbol>, map<Symbol, Id>)
    requires Dense(vocab, n) && Chained(n, merges)
    decreases |merges|
  {
    if merges == [] then (vocab, inverse)
    else
      var m := merges[0];
      var token := vocab[m.0.0] + vocab[m.0.1];
      assert Dense(vocab[m.1 := token], n + 1);
      AddMerged(n + 1, vocab[m.1 := token], inverse[token := m.1], merges[1..])
  }

  /** `unique_chars` for a corpus. */
  function BaseAlphabet(text: string): seq<Symbol>
  {
    Alphabet(Preprocess(text))
  }

  /** `self.vocab` after `initializing_vocab`: ids `0 .. len(unique_chars) - 1`. */
  function BaseVocab(text: string): (r: map<Id, Symbol>)
    ensures Dense(r, |BaseAlphabet(text)|)
  {
    VocabDense(BaseAlphabet(text));
    VocabOf(BaseAlphabet(text))
  }

  /** `self.inverse_vocab` after `initializing_vocab`. */
  function BaseInverse(text: string): map<Symbol, Id>
  {
    InverseOf(BaseAlphabet(text))
  }

  /** The corpus as ids, as `train` looks them up: every symbol is known, so the lookup
      succeeds, and the ids start the training loop in its invariant. */
  function CorpusIds(text: string): (r: seq<Id>)
    ensures LoopInv(|BaseAlphabet(text)|, r, |BaseAlphabet(text)|, [])
  {
    BaseTables(text);
    Lookup(BaseInverse(text), Preprocess(text)).value
  }

  /** The training loop run on the corpus from `new_id = len(self.vocab)`. */
  function Run(text: string, vocabSize: int): (seq<Id>, seq<Merge>)
  {
    MergeLoop(CorpusIds(text), |BaseAlphabet(text)|, vocabSize, [])
  }

  /** `self.bpe_merges` after the loop; each merge id builds on earlier ids. */
  function TrainedMerges(text: string, vocabSize: int): (m: seq<Merge>)
    ensures Chained(|BaseAlphabet(text)|, m)
  {
    MergeLoopSpec(|BaseAlphabet(text)|, CorpusIds(text), |BaseAlphabet(text)|, vocabSize, []);
    Run(text, vocabSize).1
  }

  /** `train(text, vocab_size)` on a fresh object: the tables it leaves. */
  function Train(text: string, vocabSize: int): Tables
  {
    var merges := TrainedMerges(text, vocabSize);
    var r := AddMerged(|BaseAlphabet(text)|, BaseVocab(text), BaseInverse(text), merges);
    Tables(r.0, r.1, merges)
  }

  /** The invariant of the training loop: ids `base, base + 1, ...` handed
      out in order, every token id below the next one, and no merged pair
      left in the token sequence. */
  ghost predicate LoopInv(base: nat, ids: seq<Id>, newId: int, merges: seq<Merge>)
  {
    && newId == base + |merges|
    && Chained(base, merges)
    && DistinctPairs(merges)
    && (forall i :: 0 <= i < |ids| ==> 0 <= ids[i] < newId)
    && (forall k :: 0 <= k < |merges| ==> !Occurs(ids, merges[k].0))
  }

  /** A dictionary assignment to a new key appends. */
  lemma {:induction false} InsertNew(m: seq<Merge>, p: Pair, v: Id)
    requires forall k :: 0 <= k < |m| ==> m[k].0 != p
    ensures Insert(m, p, v) == m + [(p, v)]
    decreases |m|
  {
    if m != [] {
      InsertNew(m[1..], p, v);
      assert m == [m[0]] + m[1..];
    }
  }

  /** One iteration keeps the invariant: the chosen pair occurs, so it is a
      new key of the merge table, and the sequence gets strictly shorter. */
  lemma MergeStep(base: nat, ids: seq<Id>, newId: int, merges: seq<Merge>, p: Pair)
    requires LoopInv(base, ids, newId, merges) && FreqPair(ids) == Some(p)
    ensures Insert(merges, p, newId) == merges + [(p, newId)]
    ensures LoopInv(base, Replace(ids, p, newId), newId + 1, merges + [(p, newId)])
    ensures 1 <= |Replace(ids, p, newId)| < |ids|
  {
    FreqPairSpec(ids);
    var i := FirstIndex(ids, p);
    assert ids[i] == p.0 && ids[i + 1] == p.1;
    forall k | 0 <= k < |merges| ensures merges[k].0 != p {
      assert !Occurs(ids, merges[k].0);
    }
    InsertNew(merges, p, newId);
    ReplaceShrinks(ids, p, newId);
    ReplaceHead(ids, p, newId);
    var r := Replace(ids, p, newId);
    ReplaceMembers(ids, p, newId);
    var m := merges + [(p, newId)];
    forall j | 0 <= j < |r| ensures 0 <= r[j] < newId + 1 {
      assert r[j] in r;
    }
    forall k | 0 <= k < |m| ensures !Occurs(r, m[k].0) {
      ReplaceCreatesNoPair(ids, p, newId, m[k].0);
    }
  }

  /** Where the loop ends from a state that satisfies the invariant: the
      table only grows, by at most the ids left below `vocab_size` and by
      at most one less than the sequence length; each merge shortens the
      sequence and never empties it; and the loop stops before
      `vocab_size` only once fewer than two ids remain. */
  lemma {:induction false} MergeLoopSpec(base: nat, ids: seq<Id>, newId: int, vocabSize: int, merges: seq<Merge>)
    requires LoopInv(base, ids, newId, merges)
    ensures var r := MergeLoop(ids, newId, vocabSize, merges);
      && LoopInv(base, r.0, base + |r.1|, r.1)
      && |merges| <= |r.1| && r.1[..|merges|] == merges
      && |r.1| - |merges| <= Max0(vocabSize - newId)
      && |r.0| + (|r.1| - |merges|) <= |ids|
      && (|ids| >= 1 ==> |r.0| >= 1)
      && (base + |r.1| < vocabSize ==> |r.0| < 2)
    decreases vocabSize - newId
  {
    if newId < vocabSize {
      match FreqPair(ids)
      case None =>
        assert |ids| < 2;
      case Some(p) =>
        MergeStep(base, ids, newId, merges, p);
        var m := merges + [(p, newId)];
        var ids' := Replace(ids, p, newId);
        MergeLoopSpec(base, ids', newId + 1, vocabSize, m);
        var r := MergeLoop(ids, newId, vocabSize, merges);
        assert r == MergeLoop(ids', newId + 1, vocabSize, m);
        assert r.1[..|m|] == m;
        assert r.1[..|merges|] == m[..|merges|];
    }
  }

  /** The first turn of the vocabulary loop: the first merge extends the dense ids
      by one and the rest of the table is chained from there. */
  lemma AddMergedHead(n: int, vocab: map<Id, Symbol>, inverse: map<Symbol, Id>, merges: seq<Merge>)
    requires merges != [] && Dense(vocab, n) && Chained(n, merges)
    ensures var m := merges[0]; var token := vocab[m.0.0] + vocab[m.0.1];
      && Dense(vocab[m.1 := token], n + 1)
      && Chained(n + 1, merges[1..])
      && AddMerged(n + 1, vocab[m.1 := token], inverse[token := m.1], merges[1..])
         == AddMerged(n, vocab, inverse, merges)
  {
  }

  /** Turn `k` of the vocabulary loop, as the loop over the table takes it. */
  lemma AddMergedTurn(n: int, k: nat, vocab: map<Id, Symbol>, inverse: map<Symbol, Id>, merges: seq<Merge>)
    requires k < |merges| && Dense(vocab, n + k) && Chained(n + k, merges[k..])
    ensures var m := merges[k]; var token := vocab[m.0.0] + vocab[m.0.1];
      && Dense(vocab[m.1 := token], n + k + 1)
      && Chained(n + k + 1, merges[k + 1..])
      && AddMerged(n + k + 1, vocab[m.1 := token], inverse[token := m.1], merges[k + 1..])
         == AddMerged(n + k, vocab, inverse, merges[k..])
  {
    AddMergedHead(n + k, vocab, inverse, merges[k..]);
    assert merges[k..][0] == merges[k] && merges[k..][1..] == merges[k + 1..];
  }

  /** Each merge of the vocabulary loop adds one new id. */
  lemma {:induction false} AddMergedSize(n: int, vocab: map<Id, Symbol>, inverse: map<Symbol, Id>, merges: seq<Merge>)
    requires Dense(vocab, n) && Chained(n, merges)
    ensures |AddMerged(n, vocab, inverse, merges).0| == |vocab| + |merges|
    decreases |merges|
  {
    if merges != [] {
      var m := merges[0];
      var token := vocab[m.0.0] + vocab[m.0.1];
      AddMergedHead(n, vocab, inverse, merges);
      assert m.1 !in vocab;
      AddMergedSize(n + 1, vocab[m.1 := token], inverse[token := m.1], merges[1..]);
    }
  }

  /** The symbol side of the vocabulary loop on a dense vocabulary of non-empty
      symbols: the ids stay dense, old entries stay, and every merge id
      spells its pair. */
  lemma {:induction false} AddMergedVocab(n: int, vocab: map<Id, Symbol>, inverse: map<Symbol, Id>, merges: seq<Merge>)
    requires Dense(vocab, n) && Chained(n, merges)
    requires forall i :: i in vocab ==> |vocab[i]| >= 1
    ensures var v := AddMerged(n, vocab, inverse, merges).0;
      && Dense(v, n + |merges|)
      && (forall i :: i in vocab ==> v[i] == vocab[i])
      && (forall i :: i in v ==> |v[i]| >= 1)
      && (forall k :: 0 <= k < |merges| ==> MergeSpelled(v, merges[k]))
    decreases |merges|
  {
    if merges != [] {
      var m := merges[0];
      var token := vocab[m.0.0] + vocab[m.0.1];
      var v1, i1 := vocab[m.1 := token], inverse[token := m.1];
      assert Dense(v1, n + 1);
      AddMergedVocab(n + 1, v1, i1, merges[1..]);
      var v := AddMerged(n, vocab, inverse, merges).0;
      assert v == AddMerged(n + 1, v1, i1, merges[1..]).0;
      forall k | 0 <= k < |merges| ensures MergeSpelled(v, merges[k]) {
        if k > 0 {
          assert merges[k] == merges[1..][k - 1];
        }
      }
    }
  }

  /** The inverse side of the vocabulary loop: every symbol of the inverse still
      names an id that spells it, and one-character entries are untouched
      (a merged symbol has at least two characters). */
  lemma {:induction false} AddMergedInverse(n: int, vocab: map<Id, Symbol>, inverse: map<Symbol, Id>, merges: seq<Merge>)
    requires Dense(vocab, n) && Chained(n, merges)
    requires forall i :: i in vocab ==> |vocab[i]| >= 1
    requires forall s :: s in inverse ==> inverse[s] in vocab && vocab[inverse[s]] == s
    ensures var r := AddMerged(n, vocab, inverse, merges);
      && (forall s :: s in r.1 ==> r.1[s] in r.0 && r.0[r.1[s]] == s)
      && (forall s :: |s| == 1 ==> (s in r.1 <==> s in inverse))
      && (forall s :: |s| == 1 && s in inverse ==> r.1[s] == inverse[s])
    decreases |merges|
  {
    if merges != [] {
      var m := merges[0];
      var token := vocab[m.0.0] + vocab[m.0.1];
      var v1, i1 := vocab[m.1 := token], inverse[token := m.1];
      AddMergedHead(n, vocab, inverse, merges);
      assert |token| >= 2;
      assert forall i :: i in v1 ==> |v1[i]| >= 1;
      forall s | s in i1 ensures i1[s] in v1 && v1[i1[s]] == s {
        if s != token {
          assert inverse[s] in vocab;
        }
      }
      AddMergedInverse(n + 1, v1, i1, merges[1..]);
      var r, r1 := AddMerged(n, vocab, inverse, merges), AddMerged(n + 1, v1, i1, merges[1..]);
      assert r == r1;
      assert forall s :: s in r.1 ==> r.1[s] in r.0 && r.0[r.1[s]] == s;
      assert forall s :: |s| == 1 ==> (s in i1 <==> s in inverse);
    }
  }

  /** `self.vocab` after `initializing_vocab`: ids `0 .. |u| - 1`, the
      alphabet at its own ids, no empty symbol, no symbol at two ids. */
  lemma BaseVocabSpec(text: string)
    ensures var u, v := BaseAlphabet(text), BaseVocab(text);
      && Dense(v, |u|) && |v| == |u|
      && (forall i :: 0 <= i < |u| ==> v[i] == u[i])
      && (forall i :: i in v ==> |v[i]| >= 1)
      && Injective(v)
  {
    var u, v := BaseAlphabet(text), BaseVocab(text);
    AlphabetSingles(Preprocess(text));
    AlphabetSpec(Preprocess(text));
    VocabDense(u);
    VocabInjective(u);
  }

  /** `self.inverse_vocab` after `initializing_vocab`: it holds exactly the
      alphabet, `inverse_vocab[vocab[i]] == i`, and every symbol names an id
      that spells it. */
  lemma BaseInverseSpec(text: string)
    ensures var u, v, inv := BaseAlphabet(text), BaseVocab(text), BaseInverse(text);
      && (forall s :: s in inv <==> s in u)
      && (forall i :: 0 <= i < |u| ==> inv[u[i]] == i)
      && (forall s :: s in inv ==> inv[s] in v && v[inv[s]] == s)
  {
    var u, v, inv := BaseAlphabet(text), BaseVocab(text), BaseInverse(text);
    AlphabetSpec(Preprocess(text));
    InverseSpec(u);
    VocabDense(u);
    forall s | s in inv ensures inv[s] in v && v[inv[s]] == s {
      var i :| 0 <= i < |u| && u[i] == s;
    }
  }

  /** The tables `initializing_vocab` leaves and the ids the loop starts
      from: every corpus symbol is known, with an id below the base size. */
  lemma BaseTables(text: string)
    ensures var u, v, inv := BaseAlphabet(text), BaseVocab(text), BaseInverse(text);
      && Dense(v, |u|)
      && (forall i :: i in v ==> |v[i]| >= 1)
      && (forall s :: s in inv ==> inv[s] in v && v[inv[s]] == s)
      && Lookup(inv, Preprocess(text)).Ok?
      && LoopInv(|u|, Lookup(inv, Preprocess(text)).value, |u|, [])
  {
    var processed := Preprocess(text);
    var u, inv := BaseAlphabet(text), BaseInverse(text);
    BaseVocabSpec(text);
    BaseInverseSpec(text);
    AlphabetSpec(processed);
    forall j | 0 <= j < |processed| ensures processed[j] in inv && 0 <= inv[processed[j]] < |u| {
      assert processed[j] in processed;
      var i :| 0 <= i < |u| && u[i] == processed[j];
    }
  }

  /** Looking the corpus up never fails, and `new_id` starts at the base size. */
  lemma CorpusLookup(text: string)
    ensures Lookup(BaseInverse(text), Preprocess(text)).Ok?
    ensures Lookup(BaseInverse(text), Preprocess(text)).value == CorpusIds(text)
    ensures |BaseVocab(text)| == |BaseAlphabet(text)|
  {
    BaseTables(text);
    VocabDense(BaseAlphabet(text));
  }

  /** One turn of the merge loop when a pair is found. */
  lemma MergeLoopTurn(ids: seq<Id>, newId: int, vocabSize: int, merges: seq<Merge>, p: Pair,
                      ids': seq<Id>, merges': seq<Merge>)
    requires newId < vocabSize && FreqPair(ids) == Some(p)
    requires ids' == Replace(ids, p, newId) && merges' == Insert(merges, p, newId)
    ensures MergeLoop(ids', newId + 1, vocabSize, merges') == MergeLoop(ids, newId, vocabSize, merges)
  {
  }

  /** After training, merge `k` is `(a, b) -> base + k` with `a` and `b`
      made earlier; no pair is merged twice; the number of merges is at most
      `max(0, vocab_size - base)` and at most one less than the corpus
      length; and training stops short of `vocab_size` only once the corpus
      has collapsed to fewer than two ids. */
  lemma TrainMerges(text: string, vocabSize: int)
    ensures var base := |BaseAlphabet(text)|; var m := Train(text, vocabSize).merges;
      && Chained(base, m) && DistinctPairs(m) && IncreasingIds(m)
      && |m| <= Max0(vocabSize - base)
      && |m| <= Max0(|Preprocess(text)| - 1)
      && (base + |m| < vocabSize ==> |Run(text, vocabSize).0| < 2)
  {
    var base := |BaseAlphabet(text)|;
    BaseTables(text);
    MergeLoopSpec(base, CorpusIds(text), base, vocabSize, []);
  }

  /** The vocabulary loop over a dense vocabulary of the alphabet `u`: the result
      holds ids `0 .. |u| + k - 1`, the alphabet at its own ids, and every
      merge spelled. */
  lemma AddMergedOver(u: seq<Symbol>, vocab: map<Id, Symbol>, inverse: map<Symbol, Id>, merges: seq<Merge>)
    requires Dense(vocab, |u|) && |vocab| == |u| && Chained(|u|, merges)
    requires forall i :: 0 <= i < |u| ==> vocab[i] == u[i]
    requires forall i :: i in vocab ==> |vocab[i]| >= 1
    ensures var v := AddMerged(|u|, vocab, inverse, merges).0;
      && Dense(v, |u| + |merges|)
      && |v| == |u| + |merges|
      && (forall i :: 0 <= i < |u| ==> i in v && v[i] == u[i])
      && (forall k :: 0 <= k < |merges| ==> MergeSpelled(v, merges[k]))
  {
    AddMergedVocab(|u|, vocab, inverse, merges);
    AddMergedSize(|u|, vocab, inverse, merges);
  }

  /** The trained vocabulary: ids `0 .. base + k - 1` for `k` merges, the
      base alphabet at its own ids, and `vocab[c] == vocab[a] + vocab[b]`
      for every merge `(a, b) -> c`. */
  lemma TrainVocab(text: string, vocabSize: int)
    ensures var u := BaseAlphabet(text); var t := Train(text, vocabSize);
      && Dense(t.vocab, |u| + |t.merges|)
      && |t.vocab| == |u| + |t.merges|
      && (forall i :: 0 <= i < |u| ==> i in t.vocab && t.vocab[i] == u[i])
      && (forall k :: 0 <= k < |t.merges| ==> MergeSpelled(t.vocab, t.merges[k]))
  {
    BaseVocabSpec(text);
    AddMergedOver(BaseAlphabet(text), BaseVocab(text), BaseInverse(text), TrainedMerges(text, vocabSize));
  }

  /** The trained inverse names, for every symbol it holds, an id with that
      symbol; a one-character symbol is held exactly when it is in the base
      alphabet, and then under its base id. */
  lemma TrainInverse(text: string, vocabSize: int)
    ensures var u := BaseAlphabet(text); var t := Train(text, vocabSize);
      && (forall s :: s in t.inverse ==> t.inverse[s] in t.vocab && t.vocab[t.inverse[s]] == s)
      && (forall s :: |s| == 1 ==> (s in t.inverse <==> s in u))
      && (forall i :: 0 <= i < |u| && |u[i]| == 1 ==> t.inverse[u[i]] == i)
  {
    var u := BaseAlphabet(text);
    var merges := TrainedMerges(text, vocabSize);
    BaseTables(text);
    BaseInverseSpec(text);
    AddMergedInverse(|u|, BaseVocab(text), BaseInverse(text), merges);
  }

  /** The trained tables meet what the codec needs, and the merge table is
      already in id order. */
  lemma TrainConsistent(text: string, vocabSize: int)
    ensures Consistent(Train(text, vocabSize))
    ensures SortById(Train(text, vocabSize).merges) == Train(text, vocabSize).merges
  {
    TrainVocab(text, vocabSize);
    TrainInverse(text, vocabSize);
    TrainMerges(text, vocabSize);
    SortByIdIncreasing(Train(text, vocabSize).merges);
  }

  /** The tables `train` leaves, given its three phases: the base tables,
      the merge table of the loop, and the vocabulary loop over both. */
  lemma TrainedState(text: string, vocabSize: int, vocab0: map<Id, Symbol>, inverse0: map<Symbol, Id>,
                     merges: seq<Merge>, vocab: map<Id, Symbol>, inverse: map<Symbol, Id>)
    requires vocab0 == BaseVocab(text) && inverse0 == BaseInverse(text)
    requires merges == TrainedMerges(text, vocabSize)
    requires (vocab, inverse) == AddMerged(|BaseAlphabet(text)|, vocab0, inverse0, merges)
    ensures Tables(vocab, inverse, merges) == Train(text, vocabSize)
    ensures Consistent(Tables(vocab, inverse, merges))
  {
    TrainConsistent(text, vocabSize);
  }

  /** A one-character symbol is known after training exactly when its
      character is below 256 or occurs in the preprocessed corpus. */
  lemma TrainKnowsChar(text: string, vocabSize: int, c: char)
    ensures [c] in Train(text, vocabSize).inverse <==> c as int < 256 || [c] in Preprocess(text)
  {
    TrainInverse(text, vocabSize);
    AlphabetSpec(Preprocess(text));
    BaseSingle(c);
  }

  /** `decode(encode(t)) == t.strip()` after training, for every text
      without the marker whose characters are below 256 or occur in the
      stripped corpus. */
  lemma TrainedRoundTrip(corpus: string, vocabSize: int, text: string)
    requires Marker !in text
    requires forall c :: c in Strip(text) ==> c as int < 256 || [c] in Preprocess(corpus)
    ensures Encode(Train(corpus, vocabSize), text).Ok?
    ensures Decode(Train(corpus, vocabSize), Encode(Train(corpus, vocabSize), text).value) == Ok(Strip(text))
  {
    var t := Train(corpus, vocabSize);
    TrainConsistent(corpus, vocabSize);
    var p := Preprocess(text);
    TrainKnowsChar(corpus, vocabSize, Marker);
    forall i | 0 <= i < |p| ensures p[i] in t.inverse {
      var c := Strip(text)[i];
      assert c in Strip(text);
      TrainKnowsChar(corpus, vocabSize, c);
    }
    RoundTrip(t, text);
  }

  /** `encode` fails with an unknown symbol on a character that is neither
      below 256 nor in the preprocessed corpus, instead of dropping it. */
  lemma TrainedUnknownSymbol(corpus: string, vocabSize: int, text: string, c: char)
    requires c in Strip(text) && c as int >= 256 && [c] !in Preprocess(corpus)
    ensures Encode(Train(corpus, vocabSize), text).Err?
    ensures Encode(Train(corpus, vocabSize), text).error.UnknownSymbol?
  {
    var t := Train(corpus, vocabSize);
    TrainConsistent(corpus, vocabSize);
    TrainKnowsChar(corpus, vocabSize, c);
    EncodeSpec(t, text);
    var i :| 0 <= i < |Strip(text)| && Strip(text)[i] == c;
    assert Preprocess(text)[i] == [c];
  }

  /** Inner runs of spaces survive the round trip: whatever the corpus,
      `"a b  c"` decodes back with its single and its double space. */
  lemma SpacesRoundTrip(corpus: string, vocabSize: int)
    ensures Encode(Train(corpus, vocabSize), "a b  c").Ok?
    ensures Decode(Train(corpus, vocabSize), Encode(Train(corpus, vocabSize), "a b  c").value) == Ok("a b  c")
  {
    var text := "a b  c";
    assert Strip(text) == text;
    TrainedRoundTrip(corpus, vocabSize, text);
  }

  /** A marker in the input does not come back: `encode("a_b")` succeeds,
      but decoding it gives `"a b"`, since the marker and the space share
      one symbol. */
  lemma MarkerBecomesSpace(corpus: string, vocabSize: int)
    ensures Encode(Train(corpus, vocabSize), "a_b").Ok?
    ensures Decode(Train(corpus, vocabSize), Encode(Train(corpus, vocabSize), "a_b").value) == Ok("a b")
  {
    TrainConsistent(corpus, vocabSize);
    TrainKnowsChar(corpus, vocabSize, 'a');
    TrainKnowsChar(corpus, vocabSize, 'b');
    TrainKnowsChar(corpus, vocabSize, Marker);
    MarkerDecodesToSpace(Train(corpus, vocabSize));
  }

  /** The loop on `[97, 97, 97, 97]` from id 256: `(97, 97)` is merged
      twice in one pass, then `(256, 256)`, and one id is left. */
  lemma MergeLoopExample()
    ensures MergeLoop([97, 97, 97, 97], 256, 600, []) == ([257], [((97, 97), 256), ((256, 256), 257)])
  {
    var s0: seq<Id> := [97, 97, 97, 97];
    assert Count(s0, (97, 97)) == 3;
    assert FreqPair(s0) == Some((97, 97));
    var s1: seq<Id> := [256, 256];
    assert Replace(s0, (97, 97), 256) == s1;
    assert FreqPair(s1) == Some((256, 256));
    var s2: seq<Id> := [257];
    assert Replace(s1, (256, 256), 257) == s2;
    assert FreqPair(s2) == None;
    var m1 := [((97, 97), 256)];
    var m2 := m1 + [((256, 256), 257)];
    assert Insert([], (97, 97), 256) == m1;
    assert Insert(m1, (256, 256), 257) == m2;
    assert MergeLoop(s2, 258, 600, m2) == (s2, m2);
    assert MergeLoop(s1, 257, 600, m1) == (s2, m2);
    assert MergeLoop(s0, 256, 600, []) == MergeLoop(s1, 257, 600, m1);
    assert m2 == [((97, 97), 256), ((256, 256), 257)];
  }

  /** The corpus `"aaaa"` adds nothing to the 256 base characters. */
  lemma AlphabetExample()
    ensures BaseAlphabet("aaaa") == Base()
  {
    var a: Symbol := ['a'];
    assert Strip("aaaa") == "aaaa";
    var p := Preprocess("aaaa");
    assert p == [a, a, a, a];
    assert Base()[97] == a;
    FirstNewKnown(Base(), p);
    assert Base() + FirstNew(Base(), p) == Base();
    assert Base()[95] == [Marker];
  }

  /** The corpus `"aaaa"` starts the loop from the ids `[97, 97, 97, 97]`. */
  lemma CorpusExample()
    ensures CorpusIds("aaaa") == [97, 97, 97, 97]
  {
    var a: Symbol := ['a'];
    assert Strip("aaaa") == "aaaa";
    assert Preprocess("aaaa") == [a, a, a, a];
    AlphabetExample();
    AlphabetSpec(Preprocess("aaaa"));
    InverseSpec(Base());
    assert Base()[97] == a;
    assert BaseInverse("aaaa")[a] == 97;
  }

  /** The corpus `"aaaa"` with `vocab_size = 600` makes exactly two merges,
      `(97, 97) -> 256` and `(256, 256) -> 257`, and then stops with one id left. */
  lemma TrainExample()
    ensures Train("aaaa", 600).merges == [((97, 97), 256), ((256, 256), 257)]
    ensures Run("aaaa", 600).0 == [257]
  {
    AlphabetExample();
    CorpusExample();
    MergeLoopExample();
  }
}
