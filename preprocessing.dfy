/** `preprocess_text` and its inverse inside `decode`: trim the text, then
    trade every space for the marker `_` (and back). */
module Preprocessing {
  import opened Types

  /** The whitespace marker that stands for a space inside symbols. */
  const Marker: char := '_'

  /** The characters Python's `str.strip()` removes (those `str.isspace()`
      accepts): the ASCII controls 9-13 and 28-31, the space, and the
      Unicode space separators, line and paragraph separators. */
  predicate IsWhitespace(c: char)
  {
    var n := c as int;
    || 0x09 <= n <= 0x0D || 0x1C <= n <= 0x20 || n == 0x85 || n == 0xA0
    || n == 0x1680 || 0x2000 <= n <= 0x200A || n == 0x2028 || n == 0x2029
    || n == 0x202F || n == 0x205F || n == 0x3000
  }

  /** Drops leading whitespace. */
  function StripLeft(s: string): string
    decreases |s|
  {
    if s != [] && IsWhitespace(s[0]) then StripLeft(s[1..]) else s
  }

  /** Drops trailing whitespace. */
  function StripRight(s: string): string
    decreases |s|
  {
    if s != [] && IsWhitespace(s[|s| - 1]) then StripRight(s[..|s| - 1]) else s
  }

  /** The result of `StripLeft` is the suffix after the longest
      all-whitespace prefix. */
  lemma {:induction false} StripLeftSpec(s: string)
    ensures var r := StripLeft(s);
      && |r| <= |s| && r == s[|s| - |r|..]
      && (forall k :: 0 <= k < |s| - |r| ==> IsWhitespace(s[k]))
      && (r != [] ==> !IsWhitespace(r[0]))
    decreases |s|
  {
    if s != [] && IsWhitespace(s[0]) {
      StripLeftSpec(s[1..]);
      var r := StripLeft(s);
      assert forall k :: 1 <= k < |s| - |r| ==> s[k] == s[1..][k - 1];
    }
  }

  /** The result of `StripRight` is the prefix before the longest
      all-whitespace suffix. */
  lemma {:induction false} StripRightSpec(s: string)
    ensures var r := StripRight(s);
      && |r| <= |s| && r == s[..|r|]
      && (forall k :: |r| <= k < |s| ==> IsWhitespace(s[k]))
      && (r != [] ==> !IsWhitespace(r[|r| - 1]))
    decreases |s|
  {
    if s != [] && IsWhitespace(s[|s| - 1]) {
      StripRightSpec(s[..|s| - 1]);
    }
  }

  /** Python's `text.strip()`. */
  function Strip(s: string): string
  {
    StripRight(StripLeft(s))
  }

  /** `preprocess_text`: one one-character symbol per character of the
      stripped text, with the space replaced by the marker. */
  function Preprocess(text: string): seq<Symbol>
  {
    var t := Strip(text);
    seq(|t|, i requires 0 <= i < |t| => if t[i] == ' ' then [Marker] else [t[i]])
  }

  /** One one-character symbol per character of the stripped text: the
      marker exactly where the text has a space or the marker itself, and
      the character itself everywhere else but a space. */
  lemma PreprocessSpec(text: string)
    ensures |Preprocess(text)| == |Strip(text)|
    ensures forall i :: 0 <= i < |Preprocess(text)| ==> |Preprocess(text)[i]| == 1
    ensures forall i :: 0 <= i < |Preprocess(text)| ==>
      (Preprocess(text)[i] == [Marker] <==> Strip(text)[i] == ' ' || Strip(text)[i] == Marker)
    ensures forall i :: 0 <= i < |Preprocess(text)| ==>
      (Strip(text)[i] != ' ' ==> Preprocess(text)[i] == [Strip(text)[i]])
  {
    var t := Strip(text);
    var p := Preprocess(text);
    forall i | 0 <= i < |p| ensures p[i] == [Marker] <==> t[i] == ' ' || t[i] == Marker {
      assert p[i][0] == if t[i] == ' ' then Marker else t[i];
    }
  }

  /** `"".join(tokens)`. */
  function Join(ss: seq<Symbol>): string
    decreases |ss|
  {
    if ss == [] then "" else ss[0] + Join(ss[1..])
  }

  /** `.replace("_", " ")` as `decode` applies it. */
  function Unmark(s: string): string
  {
    seq(|s|, i requires 0 <= i < |s| => if s[i] == Marker then ' ' else s[i])
  }

  /** `s[i..j]` is what `strip` keeps: only whitespace lies outside it and,
      when not empty, it starts and ends with non-whitespace. */
  ghost predicate StripWindow(s: string, i: int, j: int)
  {
    && 0 <= i <= j <= |s| && Strip(s) == s[i..j]
    && (forall k :: 0 <= k < i ==> IsWhitespace(s[k]))
    && (forall k :: j <= k < |s| ==> IsWhitespace(s[k]))
    && (i < j ==> !IsWhitespace(s[i]) && !IsWhitespace(s[j - 1]))
  }

  /** `strip` keeps a window of the text and removes only whitespace around it. */
  lemma StripSpec(s: string)
    ensures exists i, j :: StripWindow(s, i, j)
  {
    var l := StripLeft(s);
    var r := StripRight(l);
    StripLeftSpec(s);
    StripRightSpec(l);
    var i := |s| - |l|;
    var j := i + |r|;
    assert r == s[i..j];
    assert forall k :: j <= k < |s| ==> IsWhitespace(s[k]) by {
      forall k | j <= k < |s| ensures IsWhitespace(s[k]) {
        assert s[k] == l[k - i];
      }
    }
    assert i < j ==> s[i] == r[0] && s[j - 1] == r[|r| - 1];
    assert StripWindow(s, i, j);
  }

  /** Characters survive stripping only from the text itself. */
  lemma StripChars(s: string)
    ensures forall c :: c in Strip(s) ==> c in s
  {
    var l := StripLeft(s);
    var r := StripRight(l);
    StripLeftSpec(s);
    StripRightSpec(l);
    var i := |s| - |l|;
    assert r == s[i..i + |r|];
    forall c | c in r ensures c in s {
      var k :| 0 <= k < |r| && r[k] == c;
      assert s[i + k] == c;
    }
  }

  /** Joining one-character symbols spells their characters in order. */
  lemma {:induction false} JoinSingletons(ss: seq<Symbol>)
    requires forall i :: 0 <= i < |ss| ==> |ss[i]| == 1
    ensures |Join(ss)| == |ss|
    ensures forall i :: 0 <= i < |ss| ==> Join(ss)[i] == ss[i][0]
    decreases |ss|
  {
    if ss != [] {
      JoinSingletons(ss[1..]);
      forall i | 0 <= i < |ss| ensures Join(ss)[i] == ss[i][0] {
        if i > 0 {
          assert Join(ss)[i] == Join(ss[1..])[i - 1];
        }
      }
    }
  }

  /** Decoding's marker replacement undoes preprocessing exactly: for a text
      without the marker, unmarking the joined symbols gives the stripped text. */
  lemma PreprocessRoundTrip(text: string)
    requires Marker !in text
    ensures Unmark(Join(Preprocess(text))) == Strip(text)
  {
    var t := Strip(text);
    var p := Preprocess(text);
    StripChars(text);
    JoinSingletons(p);
    var u := Unmark(Join(p));
    assert |u| == |t|;
    forall i | 0 <= i < |t| ensures u[i] == t[i] {
      assert t[i] in t;
    }
  }
}
