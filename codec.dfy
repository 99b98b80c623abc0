/** `tokenize`, `encode` and `decode` over a BPE object's tables, and the
    round trip `decode(encode(t)) == t.strip()`. */
module Codec {
  import opened Types
  import opened Preprocessing
  import opened Merging

  /** `[inverse_vocab[char] for char in processed]` in `train` and `tokenize`,
      failing like the source's `KeyError` at the first unknown symbol. */
  function Lookup(inverse: map<Symbol, Id>, symbols: seq<Symbol>): (r: Result<seq<Id>>)
    ensures r.Ok? <==> forall i :: 0 <= i < |symbols| ==> symbols[i] in inverse
    ensures r.Ok? ==> |r.value| == |symbols|
                      && forall i :: 0 <= i < |symbols| ==> r.value[i] == inverse[symbols[i]]
    ensures r.Err? ==> exists j :: 0 <= j < |symbols| && r.error == UnknownSymbol(symbols[j])
                        && symbols[j] !in inverse && forall i :: 0 <= i < j ==> symbols[i] in inverse
  {
    match MissingKey(inverse, symbols)
    case Some(j) => Err(UnknownSymbol(symbols[j]))
    case None => Ok(seq(|symbols|, i requires 0 <= i < |symbols| => inverse[symbols[i]]))
  }

  /** Inserts `m` before the first entry whose id is not smaller. */
  function InsertById(m: Merge, s: seq<Merge>): seq<Merge>
    decreases |s|
  {
    if s == [] then [m] else if m.1 <= s[0].1 then [m] + s else [s[0]] + InsertById(m, s[1..])
  }

  /** `sorted(self.bpe_merges.items(), key=lambda x: x[1])`: a stable sort by id. */
  function SortById(s: seq<Merge>): seq<Merge>
    decreases |s|
  {
    if s == [] then [] else InsertById(s[0], SortById(s[1..]))
  }

  predicate SortedById(s: seq<Merge>)
  {
    forall i, j :: 0 <= i < j < |s| ==> s[i].1 <= s[j].1
  }

  predicate IncreasingIds(s: seq<Merge>)
  {
    forall i, j :: 0 <= i < j < |s| ==> s[i].1 < s[j].1
  }

  /** The merge loop of `tokenize`: replay the merge steps in order. */
  function ApplyMerges(ids: seq<Id>, steps: seq<Merge>): seq<Id>
    decreases |steps|
  {
    if steps == [] then ids
    else
      var last := steps[|steps| - 1];
      Replace(ApplyMerges(ids, steps[..|steps| - 1]), last.0, last.1)
  }

  /** `tokenize(text)`: look the preprocessed symbols up, replay the merges
      sorted by id, and pair every id with its symbol (its final comprehension
      raises `KeyError` for an id missing from the vocabulary). */
  function Tokenize(t: Tables, text: string): Result<seq<(Id, Symbol)>>
  {
    match Lookup(t.inverse, Preprocess(text))
    case Err(e) => Err(e)
    case Ok(ids0) =>
      var ids := ApplyMerges(ids0, SortById(t.merges));
      match MissingKey(t.vocab, ids)
      case Some(j) => Err(UnknownId(ids[j]))
      case None => Ok(seq(|ids|, i requires 0 <= i < |ids| => (ids[i], t.vocab[ids[i]])))
  }

  /** `encode(text)`: the ids of `tokenize(text)`. */
  function Encode(t: Tables, text: string): Result<seq<Id>>
  {
    match Tokenize(t, text)
    case Err(e) => Err(e)
    case Ok(tokens) => Ok(seq(|tokens|, i requires 0 <= i < |tokens| => tokens[i].0))
  }

  /** `decode(token_ids)`: join the symbols of the ids and turn the marker
      back into spaces; fails at the first id the vocabulary lacks. */
  function Decode(t: Tables, ids: seq<Id>): (r: Result<string>)
    ensures r.Ok? <==> forall i :: 0 <= i < |ids| ==> ids[i] in t.vocab
    ensures r.Err? ==> exists j :: 0 <= j < |ids| && r.error == UnknownId(ids[j])
                        && ids[j] !in t.vocab && forall i :: 0 <= i < j ==> ids[i] in t.vocab
  {
    match MissingKey(t.vocab, ids)
    case Some(j) => Err(UnknownId(ids[j]))
    case None => Ok(Unmark(Spell(t.vocab, ids)))
  }

  /** A merge entry `(a, b) -> c` whose symbol is `vocab[a] + vocab[b]`. */
  predicate MergeSpelled(vocab: map<Id, Symbol>, m: Merge)
  {
    m.0.0 in vocab && m.0.1 in vocab && m.1 in vocab && vocab[m.1] == vocab[m.0.0] + vocab[m.0.1]
  }

  /** What the codec needs of the tables: every merge is spelled by its pair,
      and every symbol of `inverse` names an id that spells it. */
  ghost predicate Consistent(t: Tables)
  {
    && (forall k :: 0 <= k < |t.merges| ==> MergeSpelled(t.vocab, t.merges[k]))
    && (forall s :: s in t.inverse ==> t.inverse[s] in t.vocab && t.vocab[t.inverse[s]] == s)
  }

  /** Inserting adds exactly the one entry. */
  lemma {:induction false} InsertByIdPerm(m: Merge, s: seq<Merge>)
    ensures multiset(InsertById(m, s)) == multiset(s) + multiset{m}
    decreases |s|
  {
    if s != [] && m.1 > s[0].1 {
      InsertByIdPerm(m, s[1..]);
      assert s == [s[0]] + s[1..];
    }
  }

  /** Inserting into an id-sorted table keeps it sorted; the new head is the
      entry or the old head. */
  lemma {:induction false} InsertByIdSorted(m: Merge, s: seq<Merge>)
    requires SortedById(s)
    ensures SortedById(InsertById(m, s))
    ensures |s| > 0 ==> InsertById(m, s)[0] == m || InsertById(m, s)[0] == s[0]
    decreases |s|
  {
    if s == [] {
    } else if m.1 <= s[0].1 {
      var r := [m] + s;
      forall i, j | 0 <= i < j < |r| ensures r[i].1 <= r[j].1 {
        if i > 0 {
          assert r[i] == s[i - 1] && r[j] == s[j - 1];
        } else {
          assert r[j] == s[j - 1];
        }
      }
    } else {
      var t := InsertById(m, s[1..]);
      InsertByIdSorted(m, s[1..]);
      var r := [s[0]] + t;
      assert |t| > 0 && s[0].1 <= t[0].1;
      forall i, j | 0 <= i < j < |r| ensures r[i].1 <= r[j].1 {
        assert r[j] == t[j - 1];
        if i > 0 {
          assert r[i] == t[i - 1];
        } else {
          assert t[0].1 <= t[j - 1].1;
        }
      }
    }
  }

  /** The merge steps `tokenize` replays are sorted by id and are exactly the
      entries of the merge table. */
  lemma {:induction false} SortByIdSpec(s: seq<Merge>)
    ensures SortedById(SortById(s))
    ensures multiset(SortById(s)) == multiset(s)
    decreases |s|
  {
    if s != [] {
      SortByIdSpec(s[1..]);
      InsertByIdSorted(s[0], SortById(s[1..]));
      InsertByIdPerm(s[0], SortById(s[1..]));
      assert s == [s[0]] + s[1..];
    }
  }

  /** A table built with increasing ids is already in id order: the sort of
      `tokenize` replays the merges in creation order. */
  lemma {:induction false} SortByIdIncreasing(s: seq<Merge>)
    requires IncreasingIds(s)
    ensures SortById(s) == s
    decreases |s|
  {
    if s != [] {
      SortByIdIncreasing(s[1..]);
      assert s == [s[0]] + s[1..];
    }
  }

  /** Replaying spelled merges keeps every id known and the spelling unchanged. */
  lemma {:induction false} ApplyMergesSpell(vocab: map<Id, Symbol>, ids: seq<Id>, steps: seq<Merge>)
    requires forall i :: 0 <= i < |ids| ==> ids[i] in vocab
    requires forall k :: 0 <= k < |steps| ==> MergeSpelled(vocab, steps[k])
    ensures forall i :: 0 <= i < |ApplyMerges(ids, steps)| ==> ApplyMerges(ids, steps)[i] in vocab
    ensures Spell(vocab, ApplyMerges(ids, steps)) == Spell(vocab, ids)
    decreases |steps|
  {
    if steps != [] {
      var last := steps[|steps| - 1];
      ApplyMergesSpell(vocab, ids, steps[..|steps| - 1]);
      assert MergeSpelled(vocab, last);
      ReplaceSpell(vocab, ApplyMerges(ids, steps[..|steps| - 1]), last.0, last.1);
    }
  }

  /** The looked-up ids spell the joined symbols when `inverse` is a right inverse. */
  lemma {:induction false} LookupSpell(t: Tables, symbols: seq<Symbol>)
    requires Consistent(t)
    requires Lookup(t.inverse, symbols).Ok?
    ensures forall i :: 0 <= i < |symbols| ==> Lookup(t.inverse, symbols).value[i] in t.vocab
    ensures Spell(t.vocab, Lookup(t.inverse, symbols).value) == Join(symbols)
    decreases |symbols|
  {
    if symbols != [] {
      var ids := Lookup(t.inverse, symbols).value;
      LookupSpell(t, symbols[1..]);
      assert ids[1..] == Lookup(t.inverse, symbols[1..]).value;
    }
  }

  /** `encode` succeeds exactly when every preprocessed symbol is known, and
      then its ids spell the preprocessed text; otherwise it reports the
      first unknown symbol. */
  lemma EncodeSpec(t: Tables, text: string)
    requires Consistent(t)
    ensures Encode(t, text).Ok? <==> forall i :: 0 <= i < |Preprocess(text)| ==> Preprocess(text)[i] in t.inverse
    ensures Encode(t, text).Ok? ==>
      (forall i :: 0 <= i < |Encode(t, text).value| ==> Encode(t, text).value[i] in t.vocab)
      && Spell(t.vocab, Encode(t, text).value) == Join(Preprocess(text))
    ensures Encode(t, text).Err? ==> exists j ::
      (&& 0 <= j < |Preprocess(text)| && Preprocess(text)[j] !in t.inverse
       && Encode(t, text).error == UnknownSymbol(Preprocess(text)[j]))
  {
    var p := Preprocess(text);
    var lookup := Lookup(t.inverse, p);
    if lookup.Ok? {
      LookupSpell(t, p);
      var steps := SortById(t.merges);
      SortByIdSpec(t.merges);
      forall k | 0 <= k < |steps| ensures MergeSpelled(t.vocab, steps[k]) {
        assert steps[k] in multiset(t.merges);
      }
      ApplyMergesSpell(t.vocab, lookup.value, steps);
      var ids := ApplyMerges(lookup.value, steps);
      assert MissingKey(t.vocab, ids).None?;
      assert Encode(t, text).value == ids;
    }
  }

  /** `tokenize` and `encode` agree: both succeed or fail together, and each
      token is an id of `encode` with that id's symbol. */
  lemma TokenizeSpec(t: Tables, text: string)
    ensures Tokenize(t, text).Ok? <==> Encode(t, text).Ok?
    ensures Tokenize(t, text).Err? ==> Encode(t, text) == Err(Tokenize(t, text).error)
    ensures Tokenize(t, text).Ok? ==>
      |Tokenize(t, text).value| == |Encode(t, text).value|
      && forall i :: 0 <= i < |Encode(t, text).value| ==>
           Encode(t, text).value[i] in t.vocab
           && Tokenize(t, text).value[i] == (Encode(t, text).value[i], t.vocab[Encode(t, text).value[i]])
  {
  }

  /** Why the round trip excludes the marker: `"a_b"` encodes, but it
      decodes to `"a b"`. */
  lemma MarkerDecodesToSpace(t: Tables)
    requires Consistent(t)
    requires ['a'] in t.inverse && [Marker] in t.inverse && ['b'] in t.inverse
    ensures Encode(t, "a_b").Ok?
    ensures Decode(t, Encode(t, "a_b").value) == Ok("a b")
  {
    var text := "a_b";
    var p := Preprocess(text);
    assert Strip(text) == text;
    assert p == [['a'], [Marker], ['b']];
    EncodeSpec(t, text);
    var ids := Encode(t, text).value;
    JoinSingletons(p);
    assert Join(p) == "a_b";
    assert MissingKey(t.vocab, ids).None?;
    assert Unmark("a_b") == "a b";
  }

  /** The round trip: for a text without the marker whose symbols are all
      known, decoding its encoding gives back the stripped text. */
  lemma RoundTrip(t: Tables, text: string)
    requires Consistent(t)
    requires Marker !in text
    requires forall i :: 0 <= i < |Preprocess(text)| ==> Preprocess(text)[i] in t.inverse
    ensures Encode(t, text).Ok?
    ensures Decode(t, Encode(t, text).value) == Ok(Strip(text))
  {
    EncodeSpec(t, text);
    PreprocessRoundTrip(text);
  }
}
