/**
 * The sensitive-word engine: a `Dfa` object holding the transition table, the
 * accepting states and the stored words, built one word at a time and then
 * queried with a contiguous scan and a gap-tolerant fallback; and the four
 * entry points exported to the JavaScript host.
 */
module Engine {
  import opened Wrappers
  import opened Subsequence
  import opened Trie

  /** A value handed over by the JavaScript host: a string, or anything else. */
  datatype JsValue = JsString(s: string) | JsOther

  /** The host's string conversion: `Some` for a string value only. */
  function AsString(v: JsValue): Option<string>
  {
    match v
    case JsString(s) => Some(s)
    case JsOther => None
  }

  /** The string elements of `ws`, in order; the others are dropped. */
  function Strings(ws: seq<JsValue>): seq<string>
  {
    if ws == [] then []
    else Strings(ws[..|ws| - 1]) + (match AsString(ws[|ws| - 1]) case Some(w) => [w] case None => [])
  }

  predicate AllStrings(ws: seq<JsValue>)
  {
    forall i :: 0 <= i < |ws| ==> ws[i].JsString?
  }

  lemma StringsSnoc(ws: seq<JsValue>, i: nat)
    requires i < |ws|
    ensures AsString(ws[i]).Some? ==> Strings(ws[..i + 1]) == Strings(ws[..i]) + [AsString(ws[i]).value]
    ensures AsString(ws[i]).None? ==> Strings(ws[..i + 1]) == Strings(ws[..i])
    ensures AllStrings(ws[..i + 1]) <==> AllStrings(ws[..i]) && ws[i].JsString?
  {
    assert ws[..i + 1][..i] == ws[..i];
  }

  /** Nothing is dropped exactly when every element is a string, and then the strings come out in place. */
  lemma {:induction false} StringsDropsOnlyNonStrings(ws: seq<JsValue>)
    ensures |Strings(ws)| <= |ws|
    ensures |Strings(ws)| == |ws| <==> AllStrings(ws)
    ensures AllStrings(ws) ==> forall i :: 0 <= i < |ws| ==> Strings(ws)[i] == ws[i].s
  {
    if ws != [] {
      var init := ws[..|ws| - 1];
      StringsDropsOnlyNonStrings(init);
      assert forall i :: 0 <= i < |init| ==> init[i] == ws[i];
      if AllStrings(ws) {
        assert AllStrings(init);
      }
    }
  }

  /**
   * Starting from table `t0`, accepting states `acc0` and stored words
   * `words0`, adding `added` word by word has produced `t`, `acc` and `words`.
   */
  ghost predicate Loaded(t0: Table, acc0: seq<nat>, words0: seq<string>, added: seq<string>,
                         t: Table, acc: seq<nat>, words: seq<string>)
  {
    && words == words0 + added
    && t == AddPaths(t0, added).0
    && acc == acc0 + AddPaths(t0, added).1
  }

  lemma LoadedStep(t0: Table, acc0: seq<nat>, words0: seq<string>, added: seq<string>,
                   t: Table, acc: seq<nat>, words: seq<string>, w: string)
    requires Loaded(t0, acc0, words0, added, t, acc, words)
    ensures Loaded(t0, acc0, words0, added + [w], AddPath(t, 0, w).0, acc + [AddPath(t, 0, w).1], words + [w])
  {
    AddPathsSnoc(t0, added, w);
    assert (words0 + added) + [w] == words0 + (added + [w]);
    assert (acc0 + AddPaths(t0, added).1) + [AddPath(t, 0, w).1] == acc0 + (AddPaths(t0, added).1 + [AddPath(t, 0, w).1]);
  }

  class Dfa {
    var transitions: Table
    var acceptStates: seq<nat>
    var originalWords: seq<string>
    /** The path label of every state, 0 .. |transitions|. */
    ghost var paths: seq<seq<char>>

    ghost predicate Valid()
      reads this
    {
      TrieOk(transitions, paths) && WordsOk(transitions, acceptStates, originalWords)
    }

    /** A new engine has no transitions, no accepting states and no stored words. */
    constructor ()
      ensures Valid()
      ensures transitions == map[] && acceptStates == [] && originalWords == []
    {
      transitions := map[];
      acceptStates := [];
      originalWords := [];
      paths := [[]];
    }

    /**
     * Store `word` verbatim and walk it from the root, inserting each missing
     * transition with the fresh target `|transitions| + 1`; push the state
     * reached onto `acceptStates` (the root itself for the empty word).
     */
    method AddWord(word: string)
      requires Valid()
      modifies this
      ensures Valid()
      ensures originalWords == old(originalWords) + [word]
      ensures transitions == AddPath(old(transitions), 0, word).0
      ensures acceptStates == old(acceptStates) + [AddPath(old(transitions), 0, word).1]
      ensures Walk(transitions, 0, word) == Some(acceptStates[|old(acceptStates)|])
      ensures acceptStates[|old(acceptStates)|] == 0 <==> word == []
      ensures Grows(old(transitions), transitions)
      ensures Walk(old(transitions), 0, word).Some? ==> transitions == old(transitions)
    {
      var table: Table;
      ghost var labels: seq<seq<char>>;
      var current: nat;
      table, labels, current := ExtendTrie(transitions, paths, word);
      BuildDone(transitions, table, labels, word, current, acceptStates, originalWords);
      transitions, paths := table, labels;
      originalWords, acceptStates := originalWords + [word], acceptStates + [current];
    }

    /**
     * The loop of `AddWord` on the table alone: walk `word` from the root,
     * inserting each missing transition with the fresh target `|t| + 1`.
     */
    static method ExtendTrie(t0: Table, ghost paths0: seq<seq<char>>, word: string)
      returns (t: Table, ghost paths: seq<seq<char>>, current: nat)
      requires TrieOk(t0, paths0)
      ensures Building(t0, t, paths, word, |word|, current)
      ensures (t, current) == AddPath(t0, 0, word)
    {
      t, paths, current := t0, paths0, 0;
      BuildStart(t0, paths0, word);
      for j := 0 to |word|
        invariant Building(t0, t, paths, word, j, current)
      {
        var c := word[j];
        var nextState: nat := |t| + 1;
        if (current, c) in t {
          BuildFollow(t0, t, paths, word, j, current);
          current := t[(current, c)];
        } else {
          BuildInsert(t0, t, paths, word, j, current);
          t := t[(current, c) := nextState];
          paths := paths + [paths[current] + [c]];
          current := nextState;
        }
      }
      assert word[|word|..] == [];
    }

    /**
     * The contiguous scan. The loop runs up to the UTF-8 byte length of the
     * text while characters are taken by index, so the iterations past the
     * last character change nothing.
     */
    method IsContinuousMatch(text: string) returns (r: bool)
      requires Valid()
      ensures r == ScanFrom(transitions, acceptStates, 0, text)
      ensures r ==> exists k :: 0 <= k < |originalWords| && originalWords[k] != [] && Occurs(originalWords[k], text)
    {
      assert ScanFrom(transitions, acceptStates, 0, text) ==>
             exists k :: 0 <= k < |originalWords| && originalWords[k] != [] && Occurs(originalWords[k], text)
      by {
        if ScanFrom(transitions, acceptStates, 0, text) {
          ScanSound(transitions, acceptStates, originalWords, paths, 0, [], text);
          assert [] + text == text;
        }
      }
      var current: nat := 0;
      var i := 0;
      var byteLength := Utf8Length(text);
      while i < byteLength
        invariant ScanFrom(transitions, acceptStates, 0, text)
               == ScanFrom(transitions, acceptStates, current, text[if i <= |text| then i else |text|..])
      {
        if i < |text| {
          var c := text[i];
          assert text[i..][0] == c && text[i..][1..] == text[i + 1..];
          if (current, c) in transitions {
            current := transitions[(current, c)];
            if current in acceptStates {
              return true;
            }
          } else {
            current := 0;
          }
        }
        i := i + 1;
      }
      assert text[|text|..] == [];
      return false;
    }

    /** The gap-tolerant scan over every stored word, in order. */
    method IsSkipMatch(text: string) returns (r: bool)
      ensures r <==> HasSubsequenceWord(originalWords, text)
    {
      for k := 0 to |originalWords|
        invariant forall m :: 0 <= m < k ==> !(originalWords[m] != [] && IsSubsequence(originalWords[m], text))
      {
        var hit := CheckSkipMatch(text, originalWords[k]);
        if hit {
          return true;
        }
      }
      return false;
    }

    /**
     * Gap-tolerant test of one word: collect every position holding the
     * word's first character, then from each read the word greedily, skipping
     * any other characters. The empty word never matches.
     */
    static method CheckSkipMatch(text: seq<char>, word: seq<char>) returns (r: bool)
      ensures r <==> word != [] && IsSubsequence(word, text)
    {
      if word == [] {
        return false;
      }
      var firstChar := word[0];
      var possibleStarts: seq<nat> := [];
      for i := 0 to |text|
        invariant forall m :: 0 <= m < |possibleStarts| ==>
                    possibleStarts[m] < |text| && text[possibleStarts[m]] == firstChar
        invariant forall p :: 0 <= p < i && text[p] == firstChar ==> p in possibleStarts
      {
        if text[i] == firstChar {
          possibleStarts := possibleStarts + [i];
        }
      }
      for s := 0 to |possibleStarts|
        invariant forall m :: 0 <= m < s ==> !IsSubsequence(word, text[possibleStarts[m]..])
      {
        var start := possibleStarts[s];
        var textPos := start;
        var wordPos := 0;
        while textPos < |text| && wordPos < |word|
          invariant start <= textPos <= |text| && wordPos < |word|
          invariant IsSubsequence(word, text[start..]) <==> IsSubsequence(word[wordPos..], text[textPos..])
        {
          assert word[wordPos..][0] == word[wordPos] && word[wordPos..][1..] == word[wordPos + 1..];
          assert text[textPos..][0] == text[textPos] && text[textPos..][1..] == text[textPos + 1..];
          if text[textPos] == word[wordPos] {
            wordPos := wordPos + 1;
            if wordPos == |word| {
              SuffixSubsequence(word, text, start);
              return true;
            }
          }
          textPos := textPos + 1;
        }
        assert text[textPos..] == [];
      }
      assert !IsSubsequence(word, text) by {
        if IsSubsequence(word, text) {
          var p := AnchoredStart(word, text);
        }
      }
      return false;
    }

    /**
     * The verdict: the contiguous scan first, the gap-tolerant scan if it
     * fails. It holds exactly when some stored non-empty word is a
     * subsequence of the text.
     */
    method IsSensitive(text: string) returns (r: bool)
      requires Valid()
      ensures r <==> HasSubsequenceWord(originalWords, text)
    {
      var contiguous := IsContinuousMatch(text);
      if contiguous {
        SensitiveIffSubsequence(transitions, acceptStates, originalWords, paths, text);
        return true;
      }
      r := IsSkipMatch(text);
    }
  }

  /** A fresh, empty engine for the host. */
  method CreateDfa() returns (d: Dfa)
    ensures fresh(d) && d.Valid()
    ensures d.transitions == map[] && d.acceptStates == [] && d.originalWords == []
  {
    d := new Dfa();
  }

  /** Add one word to an engine held by the host. */
  method AddSensitiveWord(d: Dfa, word: string)
    requires d.Valid()
    modifies d
    ensures d.Valid()
    ensures d.originalWords == old(d.originalWords) + [word]
    ensures d.transitions == AddPath(old(d.transitions), 0, word).0
    ensures d.acceptStates == old(d.acceptStates) + [AddPath(old(d.transitions), 0, word).1]
    ensures Walk(d.transitions, 0, word) == Some(d.acceptStates[|old(d.acceptStates)|])
    ensures Grows(old(d.transitions), d.transitions)
  {
    d.AddWord(word);
  }

  /**
   * Add the string elements of `ws` in order, skipping the others; report
   * whether every element was a string.
   */
  method AddSensitiveWords(d: Dfa, ws: seq<JsValue>) returns (success: bool)
    requires d.Valid()
    modifies d
    ensures d.Valid()
    ensures success <==> AllStrings(ws)
    ensures d.originalWords == old(d.originalWords) + Strings(ws)
    ensures d.transitions == AddPaths(old(d.transitions), Strings(ws)).0
    ensures d.acceptStates == old(d.acceptStates) + AddPaths(old(d.transitions), Strings(ws)).1
  {
    ghost var words0, acc0, t0 := d.originalWords, d.acceptStates, d.transitions;
    success := true;
    for i := 0 to |ws|
      invariant d.Valid()
      invariant success <==> AllStrings(ws[..i])
      invariant Loaded(t0, acc0, words0, Strings(ws[..i]), d.transitions, d.acceptStates, d.originalWords)
    {
      StringsSnoc(ws, i);
      match AsString(ws[i]) {
        case Some(word) =>
          ghost var t, acc, words := d.transitions, d.acceptStates, d.originalWords;
          d.AddWord(word);
          LoadedStep(t0, acc0, words0, Strings(ws[..i]), t, acc, words, word);
        case None =>
          success := false;
      }
    }
    assert ws[..|ws|] == ws;
  }

  /** Build a fresh engine from the string elements of `ws` and query it with `text`. */
  method RunDfaWithWords(text: string, ws: seq<JsValue>) returns (r: bool)
    ensures r <==> HasSubsequenceWord(Strings(ws), text)
  {
    var d := new Dfa();
    for i := 0 to |ws|
      invariant d.Valid()
      invariant d.originalWords == Strings(ws[..i])
    {
      StringsSnoc(ws, i);
      match AsString(ws[i]) {
        case Some(word) =>
          d.AddWord(word);
          assert d.originalWords == Strings(ws[..i]) + [word];
        case None =>
      }
    }
    assert ws[..|ws|] == ws;
    r := d.IsSensitive(text);
  }
}
