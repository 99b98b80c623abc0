/** Shared vocabulary of the BPE engine: ids, symbols, pairs, merges,
    the engine's tables, and the two lookup failures of the source. */
module Types {

  /** A token id. Ids handed out by the engine are non-negative; `decode`
      accepts any integer and reports the ones it does not know. */
  type Id = int

  /** A string fragment: one base character or the concatenation of two symbols. */
  type Symbol = string

  /** An adjacent pair of ids. */
  type Pair = (Id, Id)

  /** One merge-table entry: the pair and the id it is rewritten to. */
  type Merge = (Pair, Id)

  datatype Option<T> = None | Some(value: T)

  /** The two `KeyError`s of the source: an unknown symbol during
      tokenization and an unknown id during decoding. */
  datatype Error = UnknownSymbol(symbol: Symbol) | UnknownId(id: Id)

  datatype Result<T> = Ok(value: T) | Err(error: Error)

  /** The state of a `BPE` object as a value: `vocab` (id to symbol),
      `inverse` (symbol to id) and the merge table in insertion order. */
  datatype Tables = Tables(vocab: map<Id, Symbol>, inverse: map<Symbol, Id>, merges: seq<Merge>)

  lemma AppendAssoc<T>(a: seq<T>, b: seq<T>, c: seq<T>)
    ensures (a + b) + c == a + (b + c)
  {
  }

  /** `m` holds exactly the ids `0 .. n-1`. */
  ghost predicate Dense<V>(m: map<Id, V>, n: int)
  {
    forall i :: i in m <==> 0 <= i < n
  }

  /** The index of the first key of `ks` that `m` does not hold, if any;
      this is where a Python comprehension `[m[k] for k in ks]` raises. */
  function MissingKey<K, V>(m: map<K, V>, ks: seq<K>): (r: Option<nat>)
    ensures r.None? <==> forall i :: 0 <= i < |ks| ==> ks[i] in m
    ensures r.Some? ==> r.value < |ks| && ks[r.value] !in m
                        && forall i :: 0 <= i < r.value ==> ks[i] in m
    decreases |ks|
  {
    if ks == [] then None
    else if ks[0] !in m then Some(0)
    else
      match MissingKey(m, ks[1..])
      case None => None
      case Some(j) => Some(j + 1)
  }
}
