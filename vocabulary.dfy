/** `initializing_vocab`: the base alphabet `chr(0) .. chr(255)`, then the
    characters of the training text that are not in it, in first-occurrence
    order, then (if missing) the marker; numbered densely from 0. */
module Vocabulary {
  import opened Types
  import opened Preprocessing

  /** `[chr(i) for i in range(256)]`. */
  function Base(): seq<Symbol>
  {
    seq(256, i requires 0 <= i < 256 => [i as char])
  }

  predicate Distinct(u: seq<Symbol>)
  {
    forall i, j :: 0 <= i < j < |u| ==> u[i] != u[j]
  }

  /** The symbols of `xs` that are not `known`, each once, in the order of
      their first occurrence in `xs`. */
  function FirstNew(known: seq<Symbol>, xs: seq<Symbol>): seq<Symbol>
    decreases |xs|
  {
    if xs == [] then []
    else
      var init, x := xs[..|xs| - 1], xs[|xs| - 1];
      if x in known || x in init then FirstNew(known, init) else FirstNew(known, init) + [x]
  }

  /** `unique_chars` as `initializing_vocab` leaves it. */
  function Alphabet(processed: seq<Symbol>): seq<Symbol>
  {
    var u := Base() + FirstNew(Base(), processed);
    if [Marker] in u then u else u + [[Marker]]
  }

  /** `{i: char for i, char in enumerate(unique_chars)}`. */
  function VocabOf(u: seq<Symbol>): map<Id, Symbol>
  {
    map i | 0 <= i < |u| :: u[i]
  }

  predicate Injective(vocab: map<Id, Symbol>)
  {
    forall i, j :: i in vocab && j in vocab && vocab[i] == vocab[j] ==> i == j
  }

  /** `{char: i for i, char in self.vocab.items()}` over a vocabulary that
      enumerates `u`: items in id order, a later id overwriting an earlier
      one with the same symbol. */
  function InverseOf(u: seq<Symbol>): map<Symbol, Id>
    decreases |u|
  {
    if u == [] then map[] else InverseOf(u[..|u| - 1])[u[|u| - 1] := |u| - 1]
  }

  lemma {:induction false} FirstNewMembers(known: seq<Symbol>, xs: seq<Symbol>)
    ensures forall x :: x in FirstNew(known, xs) <==> x !in known && x in xs
    decreases |xs|
  {
    if xs != [] {
      var init, x := xs[..|xs| - 1], xs[|xs| - 1];
      FirstNewMembers(known, init);
      assert xs == init + [x];
    }
  }

  /** A text made only of known symbols adds nothing. */
  lemma {:induction false} FirstNewKnown(known: seq<Symbol>, xs: seq<Symbol>)
    requires forall i :: 0 <= i < |xs| ==> xs[i] in known
    ensures FirstNew(known, xs) == []
    decreases |xs|
  {
    if xs != [] {
      FirstNewKnown(known, xs[..|xs| - 1]);
    }
  }

  lemma {:induction false} FirstNewDistinct(known: seq<Symbol>, xs: seq<Symbol>)
    ensures Distinct(FirstNew(known, xs))
    decreases |xs|
  {
    if xs != [] {
      var init := xs[..|xs| - 1];
      FirstNewDistinct(known, init);
      FirstNewMembers(known, init);
    }
  }

  /** The added symbols keep first-occurrence order: a symbol listed before
      another has already occurred in `xs` wherever the later one occurs. */
  lemma {:induction false} FirstNewOrder(known: seq<Symbol>, xs: seq<Symbol>)
    ensures forall j1, j2, i ::
      (0 <= j1 < j2 < |FirstNew(known, xs)| && 0 <= i < |xs| && xs[i] == FirstNew(known, xs)[j2])
      ==> FirstNew(known, xs)[j1] in xs[..i]
    decreases |xs|
  {
    if xs != [] {
      var init, x := xs[..|xs| - 1], xs[|xs| - 1];
      var f, f' := FirstNew(known, init), FirstNew(known, xs);
      FirstNewOrder(known, init);
      FirstNewMembers(known, init);
      assert xs == init + [x];
      forall j1, j2, i | 0 <= j1 < j2 < |f'| && 0 <= i < |xs| && xs[i] == f'[j2]
        ensures f'[j1] in xs[..i]
      {
        assert f'[j1] == f[j1] && f[j1] in init;
        if i < |init| {
          assert xs[..i] == init[..i] && init[i] == xs[i];
          if j2 < |f| {
            assert f'[j2] == f[j2];
          }
        } else {
          assert xs[..i] == init;
        }
      }
    }
  }

  /** Python's `chr(i)` for `i < 256`: the base alphabet holds exactly the
      one-character symbols below 256. */
  lemma BaseSingle(c: char)
    ensures [c] in Base() <==> c as int < 256
  {
    if c as int < 256 {
      assert Base()[c as int] == [c];
    }
  }

  /** What `initializing_vocab` builds: `chr(0) .. chr(255)` at their own ids, then
      the new symbols of the text without repeats; the marker `_` is
      `chr(95)`, so it is never appended. */
  lemma AlphabetSpec(processed: seq<Symbol>)
    ensures Alphabet(processed) == Base() + FirstNew(Base(), processed)
    ensures |Alphabet(processed)| >= 256
    ensures forall i :: 0 <= i < 256 ==> Alphabet(processed)[i] == [i as char]
    ensures Distinct(Alphabet(processed))
    ensures forall x :: x in Alphabet(processed) <==> x in Base() || x in processed
  {
    var b, f := Base(), FirstNew(Base(), processed);
    assert b[95] == [Marker];
    FirstNewMembers(b, processed);
    FirstNewDistinct(b, processed);
    var u := b + f;
    forall i, j | 0 <= i < j < |u| ensures u[i] != u[j] {
      if j < 256 {
        assert (i as char) != (j as char);
        assert u[i][0] != u[j][0];
      } else if i >= 256 {
        assert u[i] == f[i - 256] && u[j] == f[j - 256];
      } else {
        assert u[i] in b && u[j] == f[j - 256];
      }
    }
  }

  /** Every symbol of the alphabet is one character when the text's are. */
  lemma AlphabetSingles(processed: seq<Symbol>)
    requires forall i :: 0 <= i < |processed| ==> |processed[i]| == 1
    ensures forall i :: 0 <= i < |Alphabet(processed)| ==> |Alphabet(processed)[i]| == 1
  {
    AlphabetSpec(processed);
    var u := Alphabet(processed);
    forall i | 0 <= i < |u| ensures |u[i]| == 1 {
      if i >= 256 {
        FirstNewMembers(Base(), processed);
        assert u[i] in FirstNew(Base(), processed);
      }
    }
  }

  /** The vocabulary is dense: ids `0 .. |u|-1`, one per symbol of `u`. */
  lemma VocabDense(u: seq<Symbol>)
    ensures Dense(VocabOf(u), |u|) && |VocabOf(u)| == |u|
    ensures forall i :: 0 <= i < |u| ==> VocabOf(u)[i] == u[i]
  {
    VocabSize(u);
  }

  lemma {:induction false} VocabSize(u: seq<Symbol>)
    ensures |VocabOf(u)| == |u|
    decreases |u|
  {
    if u != [] {
      var init := u[..|u| - 1];
      VocabSize(init);
      assert VocabOf(u) == VocabOf(init)[|u| - 1 := u[|u| - 1]];
    } else {
      assert VocabOf(u) == map[];
    }
  }

  lemma VocabInjective(u: seq<Symbol>)
    requires Distinct(u)
    ensures Injective(VocabOf(u))
  {
    var v := VocabOf(u);
    forall i, j | i in v && j in v && v[i] == v[j] ensures i == j {
      assert v[i] == u[i] && v[j] == u[j];
    }
  }

  /** With distinct symbols the inverse is a true inverse: its keys are the
      symbols and `inverse_vocab[vocab[i]] == i`. */
  lemma {:induction false} InverseSpec(u: seq<Symbol>)
    requires Distinct(u)
    ensures forall s :: s in InverseOf(u) <==> s in u
    ensures forall i :: 0 <= i < |u| ==> InverseOf(u)[u[i]] == i
    decreases |u|
  {
    if u != [] {
      var init := u[..|u| - 1];
      InverseSpec(init);
      assert u == init + [u[|u| - 1]];
    }
  }
}
