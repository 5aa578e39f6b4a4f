# Sensitive-word engine, modelled in Dafny

The repository `fsw_wasm_rust` detects banned ("sensitive") words in a text
and is meant to be compiled to WebAssembly. Its core is the `DFA` object in
`src/lib.rs`, which holds three things:

- a transition table from (state, character) to state, which forms a trie
  rooted at state 0;
- the accepting state reached by each added word;
- the words themselves, kept verbatim.

A query runs a contiguous scan over the trie first. If that finds nothing, a
gap-tolerant scan follows, which accepts a word whose characters appear in
order with anything in between. Four free functions wrap the object for the
JavaScript host.

The model is written in the source's own form. `Dfa` is a class with the same
three fields and a ghost label per state. `add_word` is a method that
reassigns those fields. Each scan is a method with its loops and invariants,
proved against functional specifications:

- `Walk` follows the table along a word;
- `AddPath` and `AddPaths` compute the table the builder produces;
- `ScanFrom` is the contiguous scan as a function;
- `IsSubsequence` is the greedy gap-tolerant match, and `Embeds`, defined by
  increasing index sequences, is its reference definition.

Files:

- `wrappers.dfy`: `Option`.
- `subsequence.dfy`: subsequence, embedding and occurrence, and the lemmas
  relating them.
- `trie.dfy`:
  - the table type, `Walk`, `AddPath`/`AddPaths`;
  - the trie invariant `TrieOk`, which states that every state has a label
    spelled by its unique path from the root;
  - `WordsOk`, which states that every stored word walks to its accepting
    state;
  - the builder's step lemmas, `ScanFrom` and the soundness of the contiguous
    scan;
  - the UTF-8 byte length.
- `engine.dfy`: the `Dfa` class and the four host entry points. Host values
  are modelled as `JsValue`.
- `scenarios.dfy`: the integration tests restated as methods that build an
  engine and promise the expected verdicts.

Main results:

- `IsSensitive` returns true exactly when some non-empty stored word is a
  subsequence of the text. The contiguous scan is sound (a hit is a real
  unbroken occurrence), so the verdict never depends on which of the two
  scans fires.
- Building keeps the trie invariant:
  - transitions are only ever added;
  - each new transition points to the fresh state `|transitions| + 1`;
  - no transition points to state 0, and no state is the target of two
    transitions;
  - every stored word walks from the root to the state recorded for it.

Three behaviours of the code are worth noting:

- Adding the empty word does not make every text match. The empty word's
  accepting state is the root. The contiguous scan tests acceptance only
  after following a transition, and every transition target is non-zero. The
  gap-tolerant scan skips empty words. `EmptyWord` and
  `HasSubsequenceWordSnoc` show it.
- The contiguous scan is not complete. After a mismatch it falls back to the
  root and does not retry the mismatching character, so it misses "ab" in
  "aab". `RepeatedFirstCharacter` shows the miss and shows that the
  gap-tolerant fallback still finds the word. The overall verdict is
  therefore still exact.
- A fresh state is numbered one more than the current number of transitions
  (`len() + 1`). Because transitions are never removed, this number
  increases strictly at every insertion and never repeats a state. `Trie.TargetsInjective` and `Grows`
  state this.

## Model

| member | source | states |
|---|---|---|
| Engine.Dfa.constructor | src/lib.rs:26-32 | a new engine has no transitions, no accepting states and no stored words, and satisfies the trie invariant |
| Engine.CreateDfa | src/lib.rs:180-183 | the host's constructor returns a fresh, empty, valid engine |
| Engine.Dfa.AddWord | src/lib.rs:39-55 | the word is appended verbatim to the stored words. The new table and the one appended accepting state are those `AddPath` computes from the old table. Walking the word reaches that state, which is the root exactly for the empty word. Old transitions are kept, new ones point past the old states, and an already walkable word adds no transitions. The trie invariant and every earlier word's acceptance are preserved |
| Engine.Dfa.ExtendTrie | src/lib.rs:44-53 | the character loop of `add_word` yields exactly `AddPath(t0, 0, word)`. Along the way the trie invariant holds, the prefix read so far walks to the current state, and the table only grows by fresh states |
| Engine.Dfa.IsContinuousMatch | src/lib.rs:85-104 | the loop over the UTF-8 byte length, with by-index character access that finds nothing past the last character, computes `ScanFrom` from the root (follow or fall back to the root, with no retry). A hit implies that some stored non-empty word occurs as an unbroken block |
| Engine.Dfa.IsSkipMatch | src/lib.rs:115-127 | true exactly when some stored non-empty word is a subsequence of the text |
| Engine.Dfa.CheckSkipMatch | src/lib.rs:139-172 | false for the empty word. Otherwise, starting only from the positions of the word's first character and matching greedily, it is true exactly when the word is a subsequence of the text |
| Engine.Dfa.IsSensitive | src/lib.rs:66-74 | contiguous scan, then gap-tolerant scan. The verdict is exactly "some stored non-empty word is a subsequence of the text" |
| Engine.AddSensitiveWord | src/lib.rs:214-217 | the same new state as `add_word` on the host's engine |
| Engine.AddSensitiveWords | src/lib.rs:229-242 | the string elements are added in order and the others skipped. The result is true exactly when every element is a string. The new table and accepting states are `AddPaths` over those strings |
| Engine.RunDfaWithWords | src/lib.rs:195-206 | a fresh engine loaded with the string elements answers exactly "some non-empty string element is a subsequence of the text" |
| Engine.StringsDropsOnlyNonStrings | src/lib.rs:233-239 | filtering host values keeps at most all of them. It keeps all of them exactly when every value is a string, and then in place |
| Trie.BuildDone | src/lib.rs:44-54 | after the last character, the state reached is the word's accepting state, the root exactly for the empty word, and all stored words, old and new, walk to their accepting states |
| Trie.BuildInsert | src/lib.rs:49-52 | inserting the missing transition to the fresh state, one past the table's size, keeps the trie invariant and the builder's progress |
| Trie.BuildFollow | src/lib.rs:47-48 | following an existing transition keeps the builder's progress |
| Trie.TargetsInjective | src/lib.rs:46-51 | in a well-formed trie no transition targets the root, every target lies between 1 and the number of transitions, and no state is the target of two transitions |
| Trie.WalkFromRootInjective | src/lib.rs:44-53 | two words that walk from the root to the same state are equal |
| Trie.WalkExtends | src/lib.rs:50 | adding transitions never changes a walk that already succeeds |
| Trie.WordsOkExtends | src/lib.rs:50 | adding transitions keeps every stored word walking to its accepting state |
| Trie.ScanSound | src/lib.rs:90-100 | a successful contiguous scan from a state whose label ends the text read so far has read a stored non-empty word as an unbroken block |
| Trie.SensitiveIffSubsequence | src/lib.rs:66-74 | (contiguous hit or gap-tolerant hit) holds exactly when a gap-tolerant hit does, so the contiguous scan never changes the verdict |
| Trie.Utf8Length | src/lib.rs:90 | the byte length of a text is at least its number of characters and at most four times it |
| Subsequence.SubsequenceIffEmbeds | src/lib.rs:156-168 | the greedy match holds exactly when strictly increasing positions of the text spell out the word |
| Subsequence.AnchoredStart | src/lib.rs:145-156 | a non-empty subsequence can be matched greedily from some position holding its first character, so trying only those starts loses nothing |
| Subsequence.SuffixSubsequence | src/lib.rs:156-164 | a match from a start position is a match in the whole text |
| Subsequence.OccursImpliesSubsequence | src/lib.rs:66-74 | an unbroken occurrence is a subsequence |
| Subsequence.OccurrenceDetected | src/lib.rs:66-74 | a stored non-empty word occurring as an unbroken block makes the verdict true |
| Subsequence.SubsequenceNoLonger | src/lib.rs:160-168 | a subsequence is never longer than the text |
| Subsequence.MissingCharacter | src/lib.rs:160-168 | a word with a character that does not occur in the text is not a subsequence of it |
| Subsequence.HasSubsequenceWordSnoc | src/lib.rs:119-124 | storing one more word adds exactly that word's own verdict. An empty word never matches, and a duplicate changes nothing |
| Scenarios.PoliticalWords | tests/integration_tests.rs:4-32 | with the ten words stored, the five texts holding one match and the plain news text does not |
| Scenarios.SkipMatching | tests/integration_tests.rs:35-46 | "李洪志" is found plain, with fillers and with padding, but not in "李洪" or "洪志" |
| Scenarios.CreateEmpty | tests/integration_tests.rs:49-54 | a fresh engine has zero transitions, accepting states and words |
| Scenarios.AddSeveral | tests/integration_tests.rs:57-71 | after one addition, one word is stored and found. After three, three are stored and each is found |
| Scenarios.EmptyEngine | tests/integration_tests.rs:76-77 | an empty engine matches nothing |
| Scenarios.EmptyText | tests/integration_tests.rs:80-82 | the empty text matches nothing |
| Scenarios.EmptyWord | tests/integration_tests.rs:85-87 | an engine holding only the empty word matches nothing |
| Scenarios.ShortAndSpecialWords | tests/integration_tests.rs:90-97 | a one-character word and a word mixing Chinese characters with full-width and ASCII punctuation are found |
| Scenarios.SharedPrefix | tests/integration_tests.rs:101-119 | words sharing the prefix "敏感词": a text holding "敏感词4" and a text holding "敏感词9" match. The bare prefix, an unrelated text and the 10,000-character repeated text do not |
| Scenarios.Vocabulary | tests/integration_tests.rs:124-138 | three words added in a loop are each found, and three are stored |
| Scenarios.TwoWords | tests/integration_tests.rs:142-152 | with "敏感" and "测试" stored, a text holding one matches and a plain text does not |
| Scenarios.MixedBatch | src/lib.rs:229-242 | a host array with a non-string element makes the batch report failure, but its strings are added and found, and the one-shot entry point agrees |
| Scenarios.RepeatedFirstCharacter | src/lib.rs:90-100 | with "ab" stored, the contiguous scan misses "aab" while the full verdict finds it |

## Left out

- The WebAssembly bindings `#[wasm_bindgen]` are left out. So is the host's
  conversion `JsValue::as_string`, which is modelled as the `JsValue`
  datatype with `AsString` returning `Some` only for a string.
- The file `index.js` is left out. It is the browser demo page and its API
  test panel, not the engine.
- The commented-out file and encoding imports at the top of `src/lib.rs` are
  left out. The word-list loading they would serve is not part of the
  source.
- `HashMap` hashing and iteration order are left out. The table is a Dafny
  `map`, and nothing in the engine depends on order.
- Rust strings are UTF-8 bytes. The model works on Unicode scalar values (a
  Dafny `string`), and `str::len` becomes `Utf8Length`. `chars().nth(i)` past
  the last character becomes the `i < |text|` guard.
- `Engine.Dfa.AddWord` computes the new table first and then assigns all
  fields together. The source pushes onto `original_words` before the loop.
  Nothing can observe the difference, because the source's object is
  borrowed exclusively while `add_word` runs.
- `usize` overflow of the state counter is not modelled. Integers are
  unbounded. The counter `len() + 1` could wrap only at 2^32 transitions on
  wasm32 and 2^64 on 64-bit hosts, more entries than either target's memory
  can hold.
- The integration test with 100 generated words (`format!("敏感词{}", i)`)
  is restated with two of those words in `Scenarios.SharedPrefix`. Its
  verdicts are unchanged, because every generated word starts with the same
  prefix or is longer than the queried prefix.
- Running time is left out: the scans' cost and the quadratic cost of
  `chars().nth(i)`.
