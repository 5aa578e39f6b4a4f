/**
 * The automaton of the sensitive-word engine: a transition table from
 * (state, character) to state that forms a trie rooted at state 0, the list of
 * accepting states, and the contiguous scan over it.
 *
 * Each state carries a ghost path label (`paths[q]`): the characters spelled by the unique
 * path from the root to it. `TrieOk` is the invariant the builder keeps;
 * `WordsOk` ties every stored word to the accepting state pushed for it.
 */
module Trie {
  import opened Wrappers
  import opened Subsequence

  type Table = map<(nat, char), nat>

  /** Follow the transitions for `w` from state `q`; `None` at the first missing transition. */
  function Walk(t: Table, q: nat, w: seq<char>): Option<nat>
    decreases |w|
  {
    if w == [] then Some(q)
    else if (q, w[0]) in t then Walk(t, t[(q, w[0])], w[1..])
    else None
  }

  /** `t'` keeps every transition of `t`, with the same target. */
  ghost predicate Extends(t: Table, t': Table)
  {
    forall key :: key in t ==> key in t' && t'[key] == t[key]
  }

  /**
   * `t'` is `t` with transitions only added: every old transition kept with
   * its target, and every new transition pointing past the old states.
   */
  ghost predicate Grows(t: Table, t': Table)
  {
    && Extends(t, t')
    && |t| <= |t'|
    && (forall key :: key in t' && key !in t ==> |t| < t'[key])
  }

  /** Inserting a missing transition to the fresh state `|t'| + 1` keeps `t'` a growth of `t`. */
  lemma GrowsInsert(t: Table, t': Table, key: (nat, char))
    requires Grows(t, t') && key !in t'
    ensures Grows(t, t'[key := |t'| + 1])
    ensures |t'[key := |t'| + 1]| == |t'| + 1
  {
  }

  ghost predicate TrieOk(t: Table, paths: seq<seq<char>>)
  {
    // states are 0 .. |t|; the root spells nothing
    && |paths| == |t| + 1
    && paths[0] == []
    && LabelledEdges(t, paths)
    && Reachable(t, paths)
  }

  /** Every transition goes from a state to a non-zero state whose label is one character longer. */
  ghost predicate LabelledEdges(t: Table, paths: seq<seq<char>>)
  {
    forall key :: key in t ==> EdgeLabelled(t, paths, key)
  }

  ghost predicate EdgeLabelled(t: Table, paths: seq<seq<char>>, key: (nat, char))
    requires key in t
  {
    key.0 < |paths| && 1 <= t[key] < |paths| && paths[t[key]] == paths[key.0] + [key.1]
  }

  /** No state is the target of two transitions. */
  ghost predicate InjectiveTargets(t: Table)
  {
    forall k1, k2 :: k1 in t && k2 in t && t[k1] == t[k2] ==> k1 == k2
  }

  /** Every state is reached from the root by walking its label. */
  ghost predicate Reachable(t: Table, paths: seq<seq<char>>)
  {
    forall q :: 0 <= q < |paths| ==> ReachedByLabel(t, paths, q)
  }

  ghost predicate ReachedByLabel(t: Table, paths: seq<seq<char>>, q: nat)
    requires q < |paths|
  {
    Walk(t, 0, paths[q]) == Some(q)
  }

  /** Every stored word walks from the root to the accepting state pushed for it. */
  ghost predicate WordsOk(t: Table, acc: seq<nat>, words: seq<seq<char>>)
  {
    && |acc| == |words|
    && (forall k :: 0 <= k < |words| ==> WordAccepted(t, acc, words, k))
  }

  ghost predicate WordAccepted(t: Table, acc: seq<nat>, words: seq<seq<char>>, k: nat)
    requires k < |acc| && k < |words|
  {
    Walk(t, 0, words[k]) == Some(acc[k])
  }

  /** A walk ends in a state whose label extends the label of the start state by the walked word. */
  lemma {:induction false} WalkLabel(t: Table, paths: seq<seq<char>>, q: nat, w: seq<char>, r: nat)
    requires TrieOk(t, paths)
    requires q < |paths|
    requires Walk(t, q, w) == Some(r)
    ensures r < |paths| && paths[r] == paths[q] + w
    decreases |w|
  {
    if w != [] {
      var q' := t[(q, w[0])];
      WalkLabel(t, paths, q', w[1..], r);
      assert paths[q] + w == paths[q] + [w[0]] + w[1..];
    }
  }

  /** Walking from the root is one-to-one on the words that succeed: each state has one path. */
  lemma WalkFromRootInjective(t: Table, paths: seq<seq<char>>, u: seq<char>, v: seq<char>)
    requires TrieOk(t, paths)
    requires Walk(t, 0, u).Some? && Walk(t, 0, u) == Walk(t, 0, v)
    ensures u == v
  {
    WalkLabel(t, paths, 0, u, Walk(t, 0, u).value);
    WalkLabel(t, paths, 0, v, Walk(t, 0, v).value);
    assert u == paths[0] + u;
  }

  /**
   * No transition targets the root and each non-zero state is the target of at most one transition: two
   * transitions into the same state carry the same character out of states
   * with the same label, hence out of the same state.
   */
  lemma TargetsInjective(t: Table, paths: seq<seq<char>>)
    requires TrieOk(t, paths)
    ensures InjectiveTargets(t)
    ensures forall key :: key in t ==> 1 <= t[key] <= |t|
  {
    forall k1, k2 | k1 in t && k2 in t && t[k1] == t[k2]
      ensures k1 == k2
    {
      assert EdgeLabelled(t, paths, k1) && EdgeLabelled(t, paths, k2);
      var l1, l2 := paths[k1.0], paths[k2.0];
      assert l1 + [k1.1] == l2 + [k2.1];
      assert k1.1 == (l1 + [k1.1])[|l1|];
      assert l1 == (l1 + [k1.1])[..|l1|] && l2 == (l2 + [k2.1])[..|l2|];
      assert ReachedByLabel(t, paths, k1.0) && ReachedByLabel(t, paths, k2.0);
    }
    forall key | key in t
      ensures 1 <= t[key] <= |t|
    {
      assert EdgeLabelled(t, paths, key);
    }
  }

  /** Walks survive when transitions are only added. */
  lemma {:induction false} WalkExtends(t: Table, t': Table, q: nat, w: seq<char>)
    requires Extends(t, t')
    requires Walk(t, q, w).Some?
    ensures Walk(t', q, w) == Walk(t, q, w)
    decreases |w|
  {
    if w != [] {
      WalkExtends(t, t', t[(q, w[0])], w[1..]);
    }
  }

  /** A walk over `u + v` is the walk over `u` followed by the walk over `v`. */
  lemma {:induction false} WalkAppend(t: Table, q: nat, u: seq<char>, v: seq<char>)
    ensures Walk(t, q, u + v) == match Walk(t, q, u) case None => None case Some(r) => Walk(t, r, v)
    decreases |u|
  {
    if u != [] {
      assert (u + v)[0] == u[0] && (u + v)[1..] == u[1..] + v;
      if (q, u[0]) in t {
        WalkAppend(t, t[(q, u[0])], u[1..], v);
      }
    } else {
      assert u + v == v;
    }
  }

  /**
   * Inserting a missing transition from a known state to the fresh state
   * `|t| + 1` keeps the trie invariant; the new state's label is its source's
   * label plus the character.
   */
  lemma InsertFresh(t: Table, paths: seq<seq<char>>, q: nat, c: char)
    requires TrieOk(t, paths)
    requires q < |paths| && (q, c) !in t
    ensures Extends(t, t[(q, c) := |t| + 1])
    ensures TrieOk(t[(q, c) := |t| + 1], paths + [paths[q] + [c]])
  {
    var t' := t[(q, c) := |t| + 1];
    var paths' := paths + [paths[q] + [c]];
    assert |t'| == |t| + 1;
    InsertKeepsEdges(t, paths, q, c);
    InsertKeepsReachable(t, paths, q, c);
  }

  lemma InsertKeepsEdges(t: Table, paths: seq<seq<char>>, q: nat, c: char)
    requires |paths| == |t| + 1 && LabelledEdges(t, paths)
    requires q < |paths| && (q, c) !in t
    ensures LabelledEdges(t[(q, c) := |t| + 1], paths + [paths[q] + [c]])
  {
    var t' := t[(q, c) := |t| + 1];
    var paths' := paths + [paths[q] + [c]];
    forall key | key in t'
      ensures key.0 < |paths'| && 1 <= t'[key] < |paths'| && paths'[t'[key]] == paths'[key.0] + [key.1]
    {
      if key != (q, c) {
        assert t'[key] == t[key];
      }
    }
  }

  lemma InsertKeepsReachable(t: Table, paths: seq<seq<char>>, q: nat, c: char)
    requires |paths| == |t| + 1 && Reachable(t, paths)
    requires q < |paths| && (q, c) !in t
    ensures Reachable(t[(q, c) := |t| + 1], paths + [paths[q] + [c]])
  {
    var t' := t[(q, c) := |t| + 1];
    var paths' := paths + [paths[q] + [c]];
    assert Extends(t, t');
    forall s | 0 <= s < |paths'|
      ensures ReachedByLabel(t', paths', s)
    {
      if s < |paths| {
        assert ReachedByLabel(t, paths, s);
        WalkExtends(t, t', 0, paths[s]);
      } else {
        assert ReachedByLabel(t, paths, q);
        WalkExtends(t, t', 0, paths[q]);
        WalkAppend(t', 0, paths[q], [c]);
      }
    }
  }

  /**
   * The builder as a function: walk `w` from `q`, inserting each missing
   * transition with the fresh target `|t| + 1`; the new table and the state
   * reached.
   */
  function AddPath(t: Table, q: nat, w: seq<char>): (Table, nat)
    decreases |w|
  {
    if w == [] then (t, q)
    else if (q, w[0]) in t then AddPath(t, t[(q, w[0])], w[1..])
    else AddPath(t[(q, w[0]) := |t| + 1], |t| + 1, w[1..])
  }

  /** `AddPath` for each word in turn: the final table and the state reached for each word. */
  function AddPaths(t: Table, words: seq<seq<char>>): (Table, seq<nat>)
    decreases |words|
  {
    if words == [] then (t, [])
    else
      var before := AddPaths(t, words[..|words| - 1]);
      var after := AddPath(before.0, 0, words[|words| - 1]);
      (after.0, before.1 + [after.1])
  }

  lemma AddPathsSnoc(t: Table, words: seq<seq<char>>, w: seq<char>)
    ensures AddPaths(t, words + [w]).0 == AddPath(AddPaths(t, words).0, 0, w).0
    ensures AddPaths(t, words + [w]).1 == AddPaths(t, words).1 + [AddPath(AddPaths(t, words).0, 0, w).1]
  {
    assert (words + [w])[..|words|] == words;
  }

  /** One step of the builder over an existing transition. */
  lemma FollowStep(t: Table, q: nat, prefix: seq<char>, c: char)
    requires Walk(t, 0, prefix) == Some(q) && (q, c) in t
    ensures Walk(t, 0, prefix + [c]) == Some(t[(q, c)])
  {
    WalkAppend(t, 0, prefix, [c]);
  }

  /** One step of the builder that inserts the missing transition to the fresh state `|t| + 1`. */
  lemma InsertStep(t: Table, paths: seq<seq<char>>, q: nat, prefix: seq<char>, c: char)
    requires TrieOk(t, paths)
    requires q < |paths| && (q, c) !in t && Walk(t, 0, prefix) == Some(q)
    ensures |t[(q, c) := |t| + 1]| == |t| + 1
    ensures Extends(t, t[(q, c) := |t| + 1])
    ensures TrieOk(t[(q, c) := |t| + 1], paths + [paths[q] + [c]])
    ensures Walk(t[(q, c) := |t| + 1], 0, prefix + [c]) == Some(|t| + 1)
  {
    var t' := t[(q, c) := |t| + 1];
    InsertFresh(t, paths, q, c);
    WalkExtends(t, t', 0, prefix);
    WalkAppend(t', 0, prefix, [c]);
  }

  /** The builder inserts only where the word's walk is missing a transition. */
  lemma MissingStepBreaksWalk(t: Table, q: nat, w: seq<char>, j: nat)
    requires j < |w| && Walk(t, 0, w[..j]) == Some(q) && (q, w[j]) !in t
    ensures Walk(t, 0, w) == None
  {
    assert w == w[..j] + w[j..];
    WalkAppend(t, 0, w[..j], w[j..]);
  }

  /**
   * The state of the builder after reading `word[..j]` from table `t0`: the
   * trie invariant holds, `q` is where `word[..j]` leads, only fresh
   * transitions were added, nothing was added if `word` was already walkable,
   * and finishing the word from here gives what `AddPath` gives from the start.
   */
  ghost predicate Building(t0: Table, t: Table, paths: seq<seq<char>>, word: seq<char>, j: nat, q: nat)
  {
    && j <= |word|
    && TrieOk(t, paths) && q < |paths|
    && Walk(t, 0, word[..j]) == Some(q)
    && Grows(t0, t)
    && (Walk(t0, 0, word).Some? ==> t == t0)
    && AddPath(t0, 0, word) == AddPath(t, q, word[j..])
  }

  lemma BuildStart(t0: Table, paths: seq<seq<char>>, word: seq<char>)
    requires TrieOk(t0, paths)
    ensures Building(t0, t0, paths, word, 0, 0)
  {
    assert word[..0] == [] && word[0..] == word;
  }

  /** The next character has a transition: follow it. */
  lemma BuildFollow(t0: Table, t: Table, paths: seq<seq<char>>, word: seq<char>, j: nat, q: nat)
    requires Building(t0, t, paths, word, j, q) && j < |word| && (q, word[j]) in t
    ensures Building(t0, t, paths, word, j + 1, t[(q, word[j])])
  {
    assert word[..j + 1] == word[..j] + [word[j]];
    assert word[j..][0] == word[j] && word[j..][1..] == word[j + 1..];
    FollowStep(t, q, word[..j], word[j]);
  }

  /** The next character has no transition: insert one to the fresh state `|t| + 1`. */
  lemma BuildInsert(t0: Table, t: Table, paths: seq<seq<char>>, word: seq<char>, j: nat, q: nat)
    requires Building(t0, t, paths, word, j, q) && j < |word| && (q, word[j]) !in t
    ensures Building(t0, t[(q, word[j]) := |t| + 1], paths + [paths[q] + [word[j]]], word, j + 1, |t| + 1)
  {
    assert word[..j + 1] == word[..j] + [word[j]];
    assert word[j..][0] == word[j] && word[j..][1..] == word[j + 1..];
    MissingStepBreaksWalk(t, q, word, j);
    InsertStep(t, paths, q, word[..j], word[j]);
    GrowsInsert(t0, t, (q, word[j]));
  }

  /** The whole word is read: `q` is its accepting state, the root exactly for the empty word. */
  lemma BuildDone(t0: Table, t: Table, paths: seq<seq<char>>, word: seq<char>, q: nat,
                  acc: seq<nat>, words: seq<seq<char>>)
    requires Building(t0, t, paths, word, |word|, q) && WordsOk(t0, acc, words)
    ensures TrieOk(t, paths) && WordsOk(t, acc + [q], words + [word])
    ensures Walk(t, 0, word) == Some(q)
    ensures q == 0 <==> word == []
  {
    assert word[..|word|] == word;
    WalkLabel(t, paths, 0, word, q);
    WordsOkExtends(t0, t, acc, words);
    WordsOkPush(t, acc, words, word, q);
  }

  /** Adding transitions keeps every stored word walking to its accepting state. */
  lemma WordsOkExtends(t: Table, t': Table, acc: seq<nat>, words: seq<seq<char>>)
    requires WordsOk(t, acc, words) && Extends(t, t')
    ensures WordsOk(t', acc, words)
  {
    forall k | 0 <= k < |words|
      ensures WordAccepted(t', acc, words, k)
    {
      assert WordAccepted(t, acc, words, k);
      WalkExtends(t, t', 0, words[k]);
    }
  }

  /** Pushing a word with the state its walk reaches keeps every stored word accepted. */
  lemma WordsOkPush(t: Table, acc: seq<nat>, words: seq<seq<char>>, w: seq<char>, q: nat)
    requires WordsOk(t, acc, words) && Walk(t, 0, w) == Some(q)
    ensures WordsOk(t, acc + [q], words + [w])
  {
    forall k | 0 <= k < |words| + 1
      ensures WordAccepted(t, acc + [q], words + [w], k)
    {
      if k < |words| {
        assert WordAccepted(t, acc, words, k);
      }
    }
  }

  /**
   * The contiguous scan of the remaining text `text` from state `q`: follow a
   * transition and stop with success on an accepting state, or fall back to the
   * root on a missing transition and go on with the NEXT character (the
   * mismatching character is not tried again from the root).
   */
  predicate ScanFrom(t: Table, acc: seq<nat>, q: nat, text: seq<char>)
    decreases |text|
  {
    if text == [] then false
    else if (q, text[0]) in t then
      t[(q, text[0])] in acc || ScanFrom(t, acc, t[(q, text[0])], text[1..])
    else ScanFrom(t, acc, 0, text[1..])
  }

  /** `s` ends with `x`. */
  predicate EndsWith(s: seq<char>, x: seq<char>)
  {
    |x| <= |s| && s[|s| - |x|..] == x
  }

  /**
   * Soundness of the contiguous scan: started in a state whose label ends the
   * text already read, a successful scan has read a stored non-empty word as an
   * unbroken block.
   */
  lemma {:induction false} ScanSound(t: Table, acc: seq<nat>, words: seq<seq<char>>, paths: seq<seq<char>>,
                                     q: nat, read: seq<char>, text: seq<char>)
    requires TrieOk(t, paths) && WordsOk(t, acc, words)
    requires q < |paths| && EndsWith(read, paths[q])
    requires ScanFrom(t, acc, q, text)
    ensures exists k :: 0 <= k < |words| && words[k] != [] && Occurs(words[k], read + text)
    decreases |text|
  {
    var c := text[0];
    var read' := read + [c];
    assert read + text == read' + text[1..];
    if (q, c) in t {
      var q' := t[(q, c)];
      assert EndsWith(read', paths[q']) by {
        assert paths[q'] == paths[q] + [c];
        assert read'[|read'| - |paths[q']|..] == read[|read| - |paths[q]|..] + [c];
      }
      if q' in acc {
        var k :| 0 <= k < |acc| && acc[k] == q';
        assert WordAccepted(t, acc, words, k);
        WalkLabel(t, paths, 0, words[k], q');
        assert words[k] == paths[q'];
        var p := |read'| - |words[k]|;
        assert OccursAt(words[k], read' + text[1..], p) by {
          assert (read' + text[1..])[p..p + |words[k]|] == read'[p..];
        }
      } else {
        ScanSound(t, acc, words, paths, q', read', text[1..]);
      }
    } else {
      ScanSound(t, acc, words, paths, 0, read', text[1..]);
    }
  }

  /**
   * The engine's verdict: the contiguous scan or, failing that, some stored
   * non-empty word as a subsequence. Because the contiguous scan is sound, it
   * is exactly "some stored non-empty word is a subsequence of the text".
   */
  lemma SensitiveIffSubsequence(t: Table, acc: seq<nat>, words: seq<seq<char>>, paths: seq<seq<char>>,
                                text: seq<char>)
    requires TrieOk(t, paths) && WordsOk(t, acc, words)
    ensures (ScanFrom(t, acc, 0, text) || HasSubsequenceWord(words, text)) <==> HasSubsequenceWord(words, text)
  {
    if ScanFrom(t, acc, 0, text) {
      ScanSound(t, acc, words, paths, 0, [], text);
      assert [] + text == text;
      var k :| 0 <= k < |words| && words[k] != [] && Occurs(words[k], text);
      OccursImpliesSubsequence(words[k], text);
    }
  }

  /** Number of bytes of the UTF-8 encoding of one character. */
  function Utf8Width(c: char): (n: nat)
    ensures 1 <= n <= 4
  {
    if c as int < 0x80 then 1
    else if c as int < 0x800 then 2
    else if c as int < 0x1_0000 then 3
    else 4
  }

  /** Number of bytes of the UTF-8 encoding of a text: never fewer than its characters. */
  function Utf8Length(s: seq<char>): (n: nat)
    ensures |s| <= n <= 4 * |s|
  {
    if s == [] then 0 else Utf8Width(s[0]) + Utf8Length(s[1..])
  }
}
