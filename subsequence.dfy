/**
 * The gap-tolerant notion of "a word occurs in a text": the characters of the
 * word appear in the text in order, with any number of other characters
 * between them. `IsSubsequence` is the greedy, left-to-right reading that the
 * gap-tolerant scanner performs; `Embeds` is an independent reference
 * definition by increasing positions; the two are proved equivalent.
 */
module Subsequence {

  /** Greedy test: match `w[0]` against the first character of `t` that equals it. */
  predicate IsSubsequence(w: seq<char>, t: seq<char>)
    decreases |t|
  {
    if w == [] then true
    else if t == [] then false
    else if t[0] == w[0] then IsSubsequence(w[1..], t[1..])
    else IsSubsequence(w, t[1..])
  }

  /** `idx` lists strictly increasing positions of `t` that spell out `w`. */
  ghost predicate IsEmbedding(idx: seq<int>, w: seq<char>, t: seq<char>)
  {
    && |idx| == |w|
    && (forall j :: 0 <= j < |idx| ==> 0 <= idx[j] < |t| && t[idx[j]] == w[j])
    && (forall i, j :: 0 <= i < j < |idx| ==> idx[i] < idx[j])
  }

  ghost predicate Embeds(w: seq<char>, t: seq<char>)
  {
    exists idx :: IsEmbedding(idx, w, t)
  }

  /** `w` occurs in `t` as an unbroken block starting at position `p`. */
  predicate OccursAt(w: seq<char>, t: seq<char>, p: int)
  {
    0 <= p && p + |w| <= |t| && t[p..p + |w|] == w
  }

  ghost predicate Occurs(w: seq<char>, t: seq<char>)
  {
    exists p :: OccursAt(w, t, p)
  }

  /** Some non-empty word of `words` is a subsequence of `text`. */
  ghost predicate HasSubsequenceWord(words: seq<seq<char>>, text: seq<char>)
  {
    exists k :: 0 <= k < |words| && words[k] != [] && IsSubsequence(words[k], text)
  }

  function Shift(idx: seq<int>, d: int): (r: seq<int>)
    ensures |r| == |idx|
    ensures forall j :: 0 <= j < |idx| ==> r[j] == idx[j] + d
  {
    seq(|idx|, j requires 0 <= j < |idx| => idx[j] + d)
  }

  /** An embedding into a suffix `t[p..]` moves to an embedding into `t`. */
  lemma ShiftEmbedding(idx: seq<int>, w: seq<char>, t: seq<char>, p: nat)
    requires p <= |t|
    requires IsEmbedding(idx, w, t[p..])
    ensures IsEmbedding(Shift(idx, p), w, t)
  {
    var r := Shift(idx, p);
    forall j | 0 <= j < |r|
      ensures 0 <= r[j] < |t| && t[r[j]] == w[j]
    {
      assert t[p..][idx[j]] == t[idx[j] + p];
    }
  }

  /** The greedy reading is sound: it only succeeds when an embedding exists. */
  lemma {:induction false} EmbeddingOf(w: seq<char>, t: seq<char>) returns (idx: seq<int>)
    requires IsSubsequence(w, t)
    ensures IsEmbedding(idx, w, t)
    decreases |t|
  {
    if w == [] {
      idx := [];
    } else if t[0] == w[0] {
      var rest := EmbeddingOf(w[1..], t[1..]);
      ShiftEmbedding(rest, w[1..], t, 1);
      idx := [0] + Shift(rest, 1);
      forall j | 0 < j < |idx|
        ensures 0 <= idx[j] < |t| && t[idx[j]] == w[j]
      {
        assert idx[j] == Shift(rest, 1)[j - 1];
      }
    } else {
      var rest := EmbeddingOf(w, t[1..]);
      ShiftEmbedding(rest, w, t, 1);
      idx := Shift(rest, 1);
    }
  }

  /** The greedy reading is complete: any embedding makes it succeed. */
  lemma {:induction false} SubsequenceOfEmbedding(idx: seq<int>, w: seq<char>, t: seq<char>)
    requires IsEmbedding(idx, w, t)
    ensures IsSubsequence(w, t)
    decreases |t|
  {
    if w != [] {
      assert idx[0] < |t|;
      if t[0] == w[0] {
        var tail := Shift(idx[1..], -1);
        forall j | 0 <= j < |tail|
          ensures 0 <= tail[j] < |t[1..]| && t[1..][tail[j]] == w[1..][j]
        {
          assert idx[0] < idx[j + 1];
        }
        SubsequenceOfEmbedding(tail, w[1..], t[1..]);
      } else {
        assert idx[0] != 0;
        var tail := Shift(idx, -1);
        forall j | 0 <= j < |tail|
          ensures 0 <= tail[j] < |t[1..]| && t[1..][tail[j]] == w[j]
        {
          if j > 0 {
            assert idx[0] < idx[j];
          }
        }
        SubsequenceOfEmbedding(tail, w, t[1..]);
      }
    }
  }

  /** The greedy reading and the reference definition agree on every input. */
  lemma SubsequenceIffEmbeds(w: seq<char>, t: seq<char>)
    ensures IsSubsequence(w, t) <==> Embeds(w, t)
  {
    if IsSubsequence(w, t) {
      var idx := EmbeddingOf(w, t);
    }
    if Embeds(w, t) {
      var idx :| IsEmbedding(idx, w, t);
      SubsequenceOfEmbedding(idx, w, t);
    }
  }

  /** A subsequence of a suffix of `t` is a subsequence of `t`. */
  lemma SuffixSubsequence(w: seq<char>, t: seq<char>, p: nat)
    requires p <= |t|
    requires IsSubsequence(w, t[p..])
    ensures IsSubsequence(w, t)
  {
    var idx := EmbeddingOf(w, t[p..]);
    ShiftEmbedding(idx, w, t, p);
    SubsequenceOfEmbedding(Shift(idx, p), w, t);
  }

  /**
   * A non-empty subsequence can be read starting at a position that holds its
   * first character: the anchored scans of the gap-tolerant scanner miss nothing.
   */
  lemma {:induction false} AnchoredStart(w: seq<char>, t: seq<char>) returns (p: nat)
    requires w != []
    requires IsSubsequence(w, t)
    ensures p < |t| && t[p] == w[0] && IsSubsequence(w, t[p..])
    decreases |t|
  {
    if t[0] == w[0] {
      p := 0;
      assert t[0..] == t;
    } else {
      var p' := AnchoredStart(w, t[1..]);
      p := p' + 1;
      assert t[1..][p'..] == t[p..];
    }
  }

  /** An unbroken occurrence is in particular a gapped one. */
  lemma OccursImpliesSubsequence(w: seq<char>, t: seq<char>)
    requires Occurs(w, t)
    ensures IsSubsequence(w, t)
  {
    var p :| OccursAt(w, t, p);
    var idx := seq(|w|, j requires 0 <= j < |w| => p + j);
    forall j | 0 <= j < |idx|
      ensures 0 <= idx[j] < |t| && t[idx[j]] == w[j]
    {
      assert t[p..p + |w|][j] == t[p + j];
    }
    assert IsEmbedding(idx, w, t);
    SubsequenceOfEmbedding(idx, w, t);
  }

  /** A subsequence is never longer than the text holding it. */
  lemma {:induction false} SubsequenceNoLonger(w: seq<char>, t: seq<char>)
    ensures IsSubsequence(w, t) ==> |w| <= |t|
  {
    if w != [] && t != [] {
      if t[0] == w[0] {
        SubsequenceNoLonger(w[1..], t[1..]);
      } else {
        SubsequenceNoLonger(w, t[1..]);
      }
    }
  }

  /**
   * Storing one more word adds exactly that word's own verdict: an empty word
   * never matches, and a word already stored changes nothing.
   */
  lemma HasSubsequenceWordSnoc(words: seq<seq<char>>, w: seq<char>, text: seq<char>)
    ensures HasSubsequenceWord(words + [w], text) <==>
            HasSubsequenceWord(words, text) || (w != [] && IsSubsequence(w, text))
  {
    var ws := words + [w];
    if HasSubsequenceWord(ws, text) {
      var k :| 0 <= k < |ws| && ws[k] != [] && IsSubsequence(ws[k], text);
      if k < |words| {
        assert words[k] == ws[k];
      }
    }
    if HasSubsequenceWord(words, text) {
      var k :| 0 <= k < |words| && words[k] != [] && IsSubsequence(words[k], text);
      assert ws[k] == words[k];
    }
    if w != [] && IsSubsequence(w, text) {
      assert ws[|words|] == w;
    }
  }

  /** Every character of a subsequence occurs in the text. */
  lemma MissingCharacter(w: seq<char>, t: seq<char>, i: nat)
    requires i < |w| && w[i] !in t
    ensures !IsSubsequence(w, t)
  {
    if IsSubsequence(w, t) {
      var idx := EmbeddingOf(w, t);
    }
  }

  /** A stored non-empty word occurring as an unbroken block is always detected. */
  lemma OccurrenceDetected(words: seq<seq<char>>, k: nat, text: seq<char>)
    requires k < |words| && words[k] != [] && Occurs(words[k], text)
    ensures HasSubsequenceWord(words, text)
  {
    OccursImpliesSubsequence(words[k], text);
  }
}
