/**
 * The behaviour the repository's integration tests check, as methods that
 * build an engine, query it and promise the expected verdicts. The facts
 * about particular texts are proved once each, in small lemmas.
 */
module Scenarios {
  import opened Subsequence
  import opened Trie
  import opened Engine

  /** With one stored word, the verdict is that word's own. */
  lemma Single(w: seq<char>, t: seq<char>)
    ensures HasSubsequenceWord([w], t) <==> w != [] && IsSubsequence(w, t)
  {
    assert [w][0] == w;
  }

  /** A three-character word spelled at positions `i0 < i1 < i2` of the text. */
  lemma Spelled3(w: seq<char>, t: seq<char>, i0: nat, i1: nat, i2: nat)
    requires |w| == 3 && i0 < i1 < i2 < |t|
    requires t[i0] == w[0] && t[i1] == w[1] && t[i2] == w[2]
    ensures IsSubsequence(w, t)
  {
    var idx := [i0 as int, i1, i2];
    assert IsEmbedding(idx, w, t);
    SubsequenceOfEmbedding(idx, w, t);
  }

  /** A word found as an unbroken block at position `p` of the text. */
  lemma Contains(w: seq<char>, t: seq<char>, p: nat)
    requires p + |w| <= |t| && t[p..p + |w|] == w
    ensures IsSubsequence(w, t)
  {
    assert OccursAt(w, t, p);
    OccursImpliesSubsequence(w, t);
  }

  lemma SkipMatchingPlain()
    ensures IsSubsequence("李洪志", "李洪志")
  {
    Spelled3("李洪志", "李洪志", 0, 1, 2);
  }

  lemma SkipMatchingGapped()
    ensures IsSubsequence("李洪志", "李x洪x志")
  {
    Spelled3("李洪志", "李x洪x志", 0, 2, 4);
  }

  lemma SkipMatchingPadded()
    ensures IsSubsequence("李洪志", "xxxx李xx洪x志xxxx")
  {
    Spelled3("李洪志", "xxxx李xx洪x志xxxx", 4, 7, 9);
  }

  lemma SkipMatchingSpread()
    ensures IsSubsequence("李洪志", "李.....洪.........志")
  {
    Spelled3("李洪志", "李.....洪.........志", 0, 6, 16);
  }

  /** A word's characters may be spread out in the text, but every one must be there. */
  method SkipMatching() returns (plain: bool, gapped: bool, padded: bool, spread: bool, head: bool, tail: bool)
    ensures plain && gapped && padded && spread
    ensures !head && !tail
  {
    var d := new Dfa();
    d.AddWord("李洪志");
    assert d.originalWords == ["李洪志"];
    SkipMatchingPlain();
    SkipMatchingGapped();
    SkipMatchingPadded();
    SkipMatchingSpread();
    SubsequenceNoLonger("李洪志", "李洪");
    SubsequenceNoLonger("李洪志", "洪志");
    Single("李洪志", "李洪志");
    Single("李洪志", "李x洪x志");
    Single("李洪志", "xxxx李xx洪x志xxxx");
    Single("李洪志", "李.....洪.........志");
    Single("李洪志", "李洪");
    Single("李洪志", "洪志");
    plain := d.IsSensitive("李洪志");
    gapped := d.IsSensitive("李x洪x志");
    padded := d.IsSensitive("xxxx李xx洪x志xxxx");
    spread := d.IsSensitive("李.....洪.........志");
    head := d.IsSensitive("李洪");
    tail := d.IsSensitive("洪志");
  }

  /** Some stored word, at index `k`, is a non-empty subsequence of the text. */
  lemma Witness(words: seq<seq<char>>, k: nat, t: seq<char>)
    requires k < |words| && words[k] != [] && IsSubsequence(words[k], t)
    ensures HasSubsequenceWord(words, t)
  {
  }

  /** A fresh engine is empty. */
  method CreateEmpty() returns (transitions: nat, acceptStates: nat, words: nat)
    ensures transitions == 0 && acceptStates == 0 && words == 0
  {
    var d := CreateDfa();
    transitions, acceptStates, words := |d.transitions|, |d.acceptStates|, |d.originalWords|;
  }

  lemma AddSeveralFirst()
    ensures IsSubsequence("测试", "这是一个测试")
  {
    Contains("测试", "这是一个测试", 4);
  }

  lemma AddSeveralSecond()
    ensures HasSubsequenceWord(["测试", "敏感词", "关键字"], "这是一个敏感词测试")
  {
    Contains("敏感词", "这是一个敏感词测试", 4);
    Witness(["测试", "敏感词", "关键字"], 1, "这是一个敏感词测试");
  }

  lemma AddSeveralThird()
    ensures HasSubsequenceWord(["测试", "敏感词", "关键字"], "这是一个关键字")
  {
    Contains("关键字", "这是一个关键字", 4);
    Witness(["测试", "敏感词", "关键字"], 2, "这是一个关键字");
  }

  /** Add `words` one by one to `d`. */
  method AddAll(d: Dfa, words: seq<string>)
    requires d.Valid()
    modifies d
    ensures d.Valid() && d.originalWords == old(d.originalWords) + words
  {
    ghost var words0 := d.originalWords;
    for i := 0 to |words|
      invariant d.Valid() && d.originalWords == words0 + words[..i]
    {
      AddSensitiveWord(d, words[i]);
      assert words0 + words[..i + 1] == (words0 + words[..i]) + [words[i]];
    }
    assert words[..|words|] == words;
  }

  /** An engine holding `words`, added one by one. */
  method Build(words: seq<string>) returns (d: Dfa)
    ensures fresh(d) && d.Valid() && d.originalWords == words
  {
    d := CreateDfa();
    AddAll(d, words);
  }

  /** The stored-word count follows the additions, and each added word is found. */
  method AddSeveral() returns (first: bool, count1: nat, second: bool, third: bool, count3: nat)
    ensures first && second && third
    ensures count1 == 1 && count3 == 3
  {
    var d := Build(["测试"]);
    AddSeveralFirst();
    Single("测试", "这是一个测试");
    first := d.IsSensitive("这是一个测试");
    count1 := |d.originalWords|;
    AddAll(d, ["敏感词", "关键字"]);
    assert d.originalWords == ["测试", "敏感词", "关键字"];
    AddSeveralSecond();
    AddSeveralThird();
    second := d.IsSensitive("这是一个敏感词测试");
    third := d.IsSensitive("这是一个关键字");
    count3 := |d.originalWords|;
  }

  lemma EdgeShort()
    ensures IsSubsequence("a", "abc")
  {
    Contains("a", "abc", 0);
  }

  lemma EdgeSpecial()
    ensures IsSubsequence("特殊！@#￥", "包含特殊！@#￥字符")
  {
    Contains("特殊！@#￥", "包含特殊！@#￥字符", 2);
  }

  /** An empty engine matches nothing. */
  method EmptyEngine() returns (r: bool)
    ensures !r
  {
    var d := CreateDfa();
    r := d.IsSensitive("任何文本都不应匹配");
  }

  /** The empty text matches nothing. */
  method EmptyText() returns (r: bool)
    ensures !r
  {
    var d := Build(["测试"]);
    Single("测试", "");
    r := d.IsSensitive("");
  }

  /** The empty word matches nothing. */
  method EmptyWord() returns (r: bool)
    ensures !r
  {
    var d := Build([""]);
    Single("", "任何文本都不应匹配");
    r := d.IsSensitive("任何文本都不应匹配");
  }

  /** A one-character word and a word mixing Chinese characters and punctuation are found like any other. */
  method ShortAndSpecialWords() returns (short: bool, special: bool)
    ensures short && special
  {
    var d := Build(["a"]);
    EdgeShort();
    Single("a", "abc");
    short := d.IsSensitive("abc");
    d := Build(["特殊！@#￥"]);
    EdgeSpecial();
    Single("特殊！@#￥", "包含特殊！@#￥字符");
    special := d.IsSensitive("包含特殊！@#￥字符");
  }

  lemma SharedPrefixFull()
    ensures HasSubsequenceWord(["敏感词4", "敏感词9"], "这里包含敏感词42")
  {
    Contains("敏感词4", "这里包含敏感词42", 4);
    Witness(["敏感词4", "敏感词9"], 0, "这里包含敏感词42");
  }

  lemma SharedPrefixFull99()
    ensures HasSubsequenceWord(["敏感词4", "敏感词9"], "这里包含敏感词99")
  {
    Contains("敏感词9", "这里包含敏感词99", 4);
    Witness(["敏感词4", "敏感词9"], 1, "这里包含敏感词99");
  }

  lemma SharedPrefixOnly()
    ensures !HasSubsequenceWord(["敏感词4", "敏感词9"], "敏感词")
  {
    NoneLonger(["敏感词4", "敏感词9"], "敏感词");
  }

  lemma SharedPrefixUnrelated()
    ensures !HasSubsequenceWord(["敏感词4", "敏感词9"], "这里只有普通文本")
  {
    NoneWithout(["敏感词4", "敏感词9"], [0, 0], "这里只有普通文本");
  }

  /** No word matches a text that lacks one of its characters, the one at index `at[k]` of word `k`. */
  lemma NoneWithout(words: seq<seq<char>>, at: seq<nat>, t: seq<char>)
    requires |at| == |words|
    requires forall k :: 0 <= k < |words| ==> at[k] < |words[k]| && words[k][at[k]] !in t
    ensures !HasSubsequenceWord(words, t)
  {
    forall k | 0 <= k < |words|
      ensures !IsSubsequence(words[k], t)
    {
      MissingCharacter(words[k], t, at[k]);
    }
  }

  /** No word longer than the text matches it. */
  lemma NoneLonger(words: seq<seq<char>>, t: seq<char>)
    requires forall k :: 0 <= k < |words| ==> |t| < |words[k]|
    ensures !HasSubsequenceWord(words, t)
  {
    forall k | 0 <= k < |words|
      ensures !IsSubsequence(words[k], t)
    {
      SubsequenceNoLonger(words[k], t);
    }
  }

  /** `s` written `n` times. */
  function Repeat(s: string, n: nat): (r: string)
    ensures |r| == n * |s|
  {
    if n == 0 then [] else s + Repeat(s, n - 1)
  }

  /** A repeated text holds no character its unit lacks. */
  lemma {:induction false} RepeatLacks(s: string, n: nat, c: char)
    requires c !in s
    ensures c !in Repeat(s, n)
  {
    if n > 0 {
      RepeatLacks(s, n - 1, c);
    }
  }

  lemma SharedPrefixLongText()
    ensures !HasSubsequenceWord(["敏感词4", "敏感词9"], Repeat("这是一个很长的文本，", 1000))
  {
    RepeatLacks("这是一个很长的文本，", 1000, '敏');
    NoneWithout(["敏感词4", "敏感词9"], [0, 0], Repeat("这是一个很长的文本，", 1000));
  }

  /**
   * Words sharing a prefix: each word is found inside a longer text, while a
   * text holding only the shared prefix, an unrelated text or a long text
   * without the characters does not match.
   */
  method SharedPrefix() returns (full: bool, full99: bool, prefixOnly: bool, unrelated: bool, long: bool)
    ensures full && full99 && !prefixOnly && !unrelated && !long
  {
    var d := Build(["敏感词4", "敏感词9"]);
    SharedPrefixFull();
    SharedPrefixFull99();
    SharedPrefixOnly();
    SharedPrefixUnrelated();
    full := d.IsSensitive("这里包含敏感词42");
    full99 := d.IsSensitive("这里包含敏感词99");
    prefixOnly := d.IsSensitive("敏感词");
    unrelated := d.IsSensitive("这里只有普通文本");
    SharedPrefixLongText();
    long := d.IsSensitive(Repeat("这是一个很长的文本，", 1000));
  }

  lemma AabTable()
    ensures AddPath(map[], 0, "ab") == (map[(0, 'a') := 1, (1, 'b') := 2], 2)
  {
  }

  lemma AabMissed()
    ensures !ScanFrom(map[(0, 'a') := 1, (1, 'b') := 2], [2], 0, "aab")
  {
  }

  lemma AabFound()
    ensures IsSubsequence("ab", "aab")
  {
    Contains("ab", "aab", 1);
  }

  /**
   * The contiguous scan alone misses "ab" in "aab": after "a", the second
   * "a" has no transition, the scan falls back to the root and goes on with
   * "b". The gap-tolerant fallback still finds the word.
   */
  method RepeatedFirstCharacter() returns (contiguous: bool, verdict: bool)
    ensures !contiguous && verdict
  {
    var d := CreateDfa();
    AddSensitiveWord(d, "ab");
    AabTable();
    assert d.transitions == map[(0, 'a') := 1, (1, 'b') := 2];
    assert d.acceptStates == [2] && d.originalWords == ["ab"];
    AabMissed();
    AabFound();
    Single("ab", "aab");
    contiguous := d.IsContinuousMatch("aab");
    verdict := d.IsSensitive("aab");
  }

  const Political: seq<string> := ["江泽民", "习近平", "胡锦涛", "温家宝", "法轮功", "中共", "薄熙来", "李洪志", "政府", "邓小平"]

  lemma PoliticalFirst()
    ensures HasSubsequenceWord(Political, "江泽民同志视察")
  {
    Contains("江泽民", "江泽民同志视察", 0);
    Witness(Political, 0, "江泽民同志视察");
  }

  lemma PoliticalSecond()
    ensures HasSubsequenceWord(Political, "法轮功组织")
  {
    Contains("法轮功", "法轮功组织", 0);
    Witness(Political, 4, "法轮功组织");
  }

  lemma PoliticalThird()
    ensures HasSubsequenceWord(Political, "习近平主席讲话")
  {
    Contains("习近平", "习近平主席讲话", 0);
    Witness(Political, 1, "习近平主席讲话");
  }

  lemma PoliticalFourth()
    ensures HasSubsequenceWord(Political, "中共领导人")
  {
    Contains("中共", "中共领导人", 0);
    Witness(Political, 5, "中共领导人");
  }

  lemma PoliticalFifth()
    ensures HasSubsequenceWord(Political, "薄熙来案件")
  {
    Contains("薄熙来", "薄熙来案件", 0);
    Witness(Political, 6, "薄熙来案件");
  }

  /** Only "政府" shares a first character with the text, and its second one is missing. */
  lemma PoliticalNone()
    ensures !HasSubsequenceWord(Political, "正常的政治新闻")
  {
    NoneWithout(Political, [0, 0, 0, 0, 0, 0, 0, 0, 1, 0], "正常的政治新闻");
  }

  /** Ten stored words: texts holding one of them match, a text holding none does not. */
  method PoliticalWords() returns (a: bool, b: bool, c: bool, d: bool, e: bool, normal: bool)
    ensures a && b && c && d && e && !normal
  {
    var dfa := Build(Political);
    PoliticalFirst();
    PoliticalSecond();
    PoliticalThird();
    PoliticalFourth();
    PoliticalFifth();
    PoliticalNone();
    a := dfa.IsSensitive("江泽民同志视察");
    b := dfa.IsSensitive("法轮功组织");
    c := dfa.IsSensitive("习近平主席讲话");
    d := dfa.IsSensitive("中共领导人");
    e := dfa.IsSensitive("薄熙来案件");
    normal := dfa.IsSensitive("正常的政治新闻");
  }

  lemma VocabularyFound(k: nat)
    requires k < 3
    ensures HasSubsequenceWord(["词汇1", "词汇2", "词汇3"], ["这里有词汇1", "这里有词汇2", "这里有词汇3"][k])
  {
    var words: seq<string> := ["词汇1", "词汇2", "词汇3"];
    var texts: seq<string> := ["这里有词汇1", "这里有词汇2", "这里有词汇3"];
    Contains(words[k], texts[k], 3);
    Witness(words, k, texts[k]);
  }

  /** Three words added in a loop are each found, and all three are stored. */
  method Vocabulary() returns (first: bool, second: bool, third: bool, count: nat)
    ensures first && second && third && count == 3
  {
    var d := Build(["词汇1", "词汇2", "词汇3"]);
    VocabularyFound(0);
    VocabularyFound(1);
    VocabularyFound(2);
    first := d.IsSensitive("这里有词汇1");
    second := d.IsSensitive("这里有词汇2");
    third := d.IsSensitive("这里有词汇3");
    count := |d.originalWords|;
  }

  lemma TwoWordsFound()
    ensures HasSubsequenceWord(["敏感", "测试"], "这是一个敏感的测试")
  {
    Contains("敏感", "这是一个敏感的测试", 4);
    Witness(["敏感", "测试"], 0, "这是一个敏感的测试");
  }

  lemma TwoWordsMissed()
    ensures !HasSubsequenceWord(["敏感", "测试"], "这是一个普通文本")
  {
    NoneWithout(["敏感", "测试"], [0, 0], "这是一个普通文本");
  }

  /** Two stored words: a text holding one matches, a plain text does not. */
  method TwoWords() returns (found: bool, plain: bool)
    ensures found && !plain
  {
    var d := Build(["敏感", "测试"]);
    TwoWordsFound();
    TwoWordsMissed();
    found := d.IsSensitive("这是一个敏感的测试");
    plain := d.IsSensitive("这是一个普通文本");
  }

  lemma MixedStrings()
    ensures Strings([JsString("敏感"), JsOther, JsString("测试")]) == ["敏感", "测试"]
    ensures !AllStrings([JsString("敏感"), JsOther, JsString("测试")])
  {
    var ws := [JsString("敏感"), JsOther, JsString("测试")];
    StringsSnoc(ws, 0);
    StringsSnoc(ws, 1);
    StringsSnoc(ws, 2);
    assert ws[..0] == [] && ws[..3] == ws;
    assert !ws[1].JsString?;
  }

  /**
   * A host array with a non-string element: the strings are added and found,
   * the batch reports failure, and the one-shot entry point agrees.
   */
  method MixedBatch() returns (success: bool, found: bool, oneShot: bool)
    ensures !success && found && oneShot
  {
    var ws := [JsString("敏感"), JsOther, JsString("测试")];
    MixedStrings();
    TwoWordsFound();
    var d := CreateDfa();
    success := AddSensitiveWords(d, ws);
    assert d.originalWords == ["敏感", "测试"];
    found := d.IsSensitive("这是一个敏感的测试");
    oneShot := RunDfaWithWords("这是一个敏感的测试", ws);
  }
}
