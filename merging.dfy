/** `replace_pair`: one left-to-right pass that rewrites every
    non-overlapping occurrence of a pair into a new id. */
module Merging {
  import opened Types
  import opened PairCounts

  /** The sequence `replace_pair(s, p, n)` returns: at each position, a
      match of `p` becomes `n` and the scan resumes after it; anything else
      is copied and the scan moves on by one. */
  function Replace(s: seq<Id>, p: Pair, n: Id): (r: seq<Id>)
    ensures |r| <= |s|
    decreases |s|
  {
    if |s| == 0 then []
    else if |s| >= 2 && s[0] == p.0 && s[1] == p.1 then [n] + Replace(s[2..], p, n)
    else [s[0]] + Replace(s[1..], p, n)
  }

  /** The concatenated symbols of `ids`: what `"".join(...)` of their
      vocabulary entries spells. */
  function Spell(vocab: map<Id, Symbol>, ids: seq<Id>): string
    requires forall i :: 0 <= i < |ids| ==> ids[i] in vocab
    decreases |ids|
  {
    if ids == [] then "" else vocab[ids[0]] + Spell(vocab, ids[1..])
  }

  /** Undoes a merge: every `n` becomes the two ids of `p` again. */
  function Expand(s: seq<Id>, p: Pair, n: Id): seq<Id>
    decreases |s|
  {
    if s == [] then [] else (if s[0] == n then [p.0, p.1] else [s[0]]) + Expand(s[1..], p, n)
  }

  /** Every id of the result is the new id or an id of the input. */
  lemma {:induction false} ReplaceMembers(s: seq<Id>, p: Pair, n: Id)
    ensures forall x :: x in Replace(s, p, n) ==> x == n || x in s
    decreases |s|
  {
    if |s| >= 2 && s[0] == p.0 && s[1] == p.1 {
      ReplaceMembers(s[2..], p, n);
      assert forall x :: x in s[2..] ==> x in s;
    } else if |s| > 0 {
      ReplaceMembers(s[1..], p, n);
      assert forall x :: x in s[1..] ==> x in s;
    }
  }

  lemma OccursTail(s: seq<Id>, p: Pair)
    requires |s| >= 2
    ensures Occurs(s, p) <==> At(s, 0) == p || Occurs(s[1..], p)
  {
    if Occurs(s, p) && At(s, 0) != p {
      var i :| 0 <= i < NumPairs(s) && At(s, i) == p;
      assert At(s[1..], i - 1) == p;
    }
    if Occurs(s[1..], p) {
      var i :| 0 <= i < NumPairs(s[1..]) && At(s[1..], i) == p;
      assert At(s, i + 1) == p;
    }
  }

  /** The length never grows; it shrinks exactly when the pair occurs, and
      without an occurrence the sequence comes back unchanged. */
  lemma {:induction false} ReplaceShrinks(s: seq<Id>, p: Pair, n: Id)
    ensures |Replace(s, p, n)| < |s| <==> Occurs(s, p)
    ensures !Occurs(s, p) ==> Replace(s, p, n) == s
    decreases |s|
  {
    if |s| >= 2 {
      OccursTail(s, p);
      if s[0] == p.0 && s[1] == p.1 {
        assert At(s, 0) == p;
      } else {
        ReplaceShrinks(s[1..], p, n);
      }
    } else if |s| == 1 {
      assert Replace(s, p, n) == [s[0]] + Replace(s[1..], p, n);
    }
  }

  lemma ReplaceHead(s: seq<Id>, p: Pair, n: Id)
    requires |s| > 0
    ensures |Replace(s, p, n)| > 0
    ensures Replace(s, p, n)[0] == n || Replace(s, p, n)[0] == s[0]
  {
  }

  /** A merge creates no adjacency the input lacked between ids other than
      the new one, and leaves no occurrence of the merged pair behind. */
  lemma {:induction false} ReplaceCreatesNoPair(s: seq<Id>, p: Pair, n: Id, q: Pair)
    requires n != q.0 && n != q.1
    ensures Occurs(Replace(s, p, n), q) ==> Occurs(s, q) && q != p
    decreases |s|
  {
    var r := Replace(s, p, n);
    if |s| >= 2 && Occurs(r, q) {
      OccursTail(s, q);
      if s[0] == p.0 && s[1] == p.1 {
        var t := Replace(s[2..], p, n);
        assert r == [n] + t;
        if |t| >= 1 {
          OccursTail(r, q);
          assert r[1..] == t;
        }
        ReplaceCreatesNoPair(s[2..], p, n, q);
        if |s| >= 3 {
          OccursTail(s[1..], q);
          assert s[1..][1..] == s[2..];
        }
      } else {
        var t := Replace(s[1..], p, n);
        assert r == [s[0]] + t;
        ReplaceHead(s[1..], p, n);
        OccursTail(r, q);
        assert r[1..] == t;
        ReplaceCreatesNoPair(s[1..], p, n, q);
      }
    }
  }

  /** Non-overlapping, left to right: `[A, A, A]` with the pair `(A, A)` becomes `[N, A]`. */
  lemma ReplaceNonOverlapping(a: Id, n: Id)
    ensures Replace([a, a, a], (a, a), n) == [n, a]
  {
    assert [a, a, a][2..] == [a];
    assert Replace([a], (a, a), n) == [a];
  }

  /** A merge whose new symbol is the concatenation of the pair's symbols
      spells the same text: flattening through the vocabulary is preserved. */
  lemma {:induction false} ReplaceSpell(vocab: map<Id, Symbol>, s: seq<Id>, p: Pair, n: Id)
    requires forall i :: 0 <= i < |s| ==> s[i] in vocab
    requires p.0 in vocab && p.1 in vocab && n in vocab
    requires vocab[n] == vocab[p.0] + vocab[p.1]
    ensures forall i :: 0 <= i < |Replace(s, p, n)| ==> Replace(s, p, n)[i] in vocab
    ensures Spell(vocab, Replace(s, p, n)) == Spell(vocab, s)
    decreases |s|
  {
    var r := Replace(s, p, n);
    ReplaceMembers(s, p, n);
    assert forall i :: 0 <= i < |r| ==> r[i] in vocab by {
      forall i | 0 <= i < |r| ensures r[i] in vocab {
        assert r[i] in r;
        if r[i] != n {
          var j :| 0 <= j < |s| && s[j] == r[i];
        }
      }
    }
    if |s| >= 2 && s[0] == p.0 && s[1] == p.1 {
      ReplaceSpell(vocab, s[2..], p, n);
      assert s[1..][1..] == s[2..];
      assert r[1..] == Replace(s[2..], p, n);
    } else if |s| > 0 {
      ReplaceSpell(vocab, s[1..], p, n);
      assert r[1..] == Replace(s[1..], p, n);
    }
  }

  /** Expanding the new id again recovers the input, provided the new id
      was not already in it: a merge loses nothing. */
  lemma {:induction false} ExpandReplace(s: seq<Id>, p: Pair, n: Id)
    requires n !in s
    ensures Expand(Replace(s, p, n), p, n) == s
    decreases |s|
  {
    if |s| >= 2 && s[0] == p.0 && s[1] == p.1 {
      var t := Replace(s[2..], p, n);
      assert n !in s[2..];
      ExpandReplace(s[2..], p, n);
      assert ([n] + t)[0] == n && ([n] + t)[1..] == t;
      assert Expand([n] + t, p, n) == [p.0, p.1] + Expand(t, p, n);
      assert s == [p.0, p.1] + s[2..];
    } else if |s| > 0 {
      var t := Replace(s[1..], p, n);
      assert n !in s[1..];
      ExpandReplace(s[1..], p, n);
      assert ([s[0]] + t)[0] == s[0] && ([s[0]] + t)[1..] == t;
      assert Expand([s[0]] + t, p, n) == [s[0]] + Expand(t, p, n);
      assert s == [s[0]] + s[1..];
    }
  }
}
