# Trie and Rabin–Karp, modelled in Dafny

This project models three small C++ algorithms and proves properties of them:

- `TrieNode` (Trie.cpp), a character trie. `add` inserts a word, counting
  every existing child its scan finds and creating missing children, whose
  vector it re-sorts by character; neither the root nor a sibling the walk
  continues at after that sort is counted. `findPrefix` returns the counter of the node a
  prefix leads to, or 0. A node's counter is 1 when it is created, plus 1 for
  every later `add` whose scan enters it; the root's stays 1. `search`
  completes an input with the first word, in the order of the children,
  below the longest prefix of it in the trie.
- `RabinKarp` of RabinKarpCount.cpp, which counts the windows of a target
  string whose base-257 rolling hash modulo 1000000007 equals the pattern's.
- `RabinKarp` of RabinKarp.cpp, which returns the start of the first such
  window, or -1.

Files:

- `rolling_hash.dfy` (module `RollingHash`) holds what the two Rabin–Karp
  files share:
  - the Horner hash `Hash`, its exact counterpart `Poly` and `Pow`;
  - the `hash` and `bin_pow` lambdas as methods with loops;
  - one turn of the rolling loop, `Roll`, and the correction loop that adds
    the modulus until the value is non-negative.
  - Arithmetic on hash values, powers and the count is done on a newtype
    `Int64` with the range of `long long`, so each of those `*`, `+` and `-`
    is checked not to overflow. Index arithmetic (`++i`, `i - patternSize`,
    `patternSize - 1`, `i - patternSize + 1`) is on unbounded `int`; the
    32-bit size bounds the methods require keep it in range.
- `rabin_karp_count.dfy` (module `RabinKarpCount`) is the counting variant,
  proved against the specification function `HitCount`.
- `rabin_karp.dfy` (module `RabinKarp`) is the first-match variant. Its
  contract states the result outright.
- `trie_model.dfy` (module `TrieModel`) is the trie as values:
  - All nodes live in one arena `seq<Node>`, with the root at index 0. A
    node's `children` lists arena indices in the order of the C++ vector.
  - `Step` is one pass of `add`'s loop and `AddFrom` is the whole of `add`.
  - `Walk`, `PrefixCount`, `MatchFrom`, `Descent` and `SearchResult` give what
    the queries answer.
  - `WellFormed` is the invariant `add` keeps: every child index points
    forward, children are strictly sorted by character (so no character
    repeats among siblings), every counter is positive and the root's counter
    is 1.
- `trie.dfy` (module `Trie`) is `class TrieNode`. It holds the arena in the
  field `nodes`. The methods `Add`, `FindPrefix` and `Search` update it in
  place or read it, with the loops of the C++ member functions, and are
  proved against the functions of `TrieModel`.
- `trie_properties.dfy` (module `TrieProperties`) holds what `add`, `findPrefix`
  and `search` guarantee, as lemmas about those functions.

One behaviour of `add` is modelled exactly as written:
- After `push_back` and before the sort, Trie.cpp:60 takes the address of the
  last vector slot. The walk then continues at whichever child the sort left
  in that slot, which is the child with the largest character.
- That is the new child only when its character exceeds all its siblings'.
  `Step` does the same.
- So the facts saying that `add(w)` spells `w` are proved under the
  predicate `Ascends`, which says that every child the walk creates is the
  greatest among its siblings.
- `OutOfOrderAdd` shows what happens otherwise. After `add("b")` then
  `add("a")`, "b" is marked a second time, and "a" is not a word. The new 'a'
  leaf has no children and does not end a word, so `search("a")` and
  `search("")` end on it and dereference the begin of its empty vector
  (Trie.cpp:136): `search` is undefined for those inputs
  (`OutOfOrderSearchUndefined`).

## Model

| member | source | states |
|---|---|---|
| RollingHash.Hash | RabinKarpCount.cpp:29-37 | the hash of any string lies in [0, 1000000007) |
| RollingHash.HashIsPolyMod | RabinKarpCount.cpp:29-37 | reducing after every Horner step gives the exact base-257 value of the string reduced modulo 1000000007 |
| RollingHash.HashOf | RabinKarpCount.cpp:29-37 | the `hash` loop returns `Hash(s)` without leaving the 64-bit range, and the result fits the `unsigned` return type (identical at RabinKarp.cpp:23-31) |
| RollingHash.BinPow | RabinKarpCount.cpp:40-54 | `bin_pow(a, b)` returns a^b mod 1000000007 for b >= 0, with `res * a` and `a * a` inside 64 bits (identical at RabinKarp.cpp:33-47) |
| RollingHash.AddModulusUntilNonNegative | RabinKarpCount.cpp:73-76 | the correction loop terminates and leaves a value in [0, 1000000007) congruent to the one it started from |
| RollingHash.RollWindow | RabinKarpCount.cpp:73-76 | subtracting `power` times the leading character from a window's hash, then reducing, gives the hash of the window without that character |
| RollingHash.Roll | RabinKarpCount.cpp:68-77 | one turn of the rolling loop moves the rolling value from the hash of the window before index i to the hash of the window before i + 1, with `rollingHash * 257 + c` and `power * c` inside 64 bits |
| RollingHash.HitIsHashEquality | RabinKarpCount.cpp:80 | after reading `target[i]`, the comparison `i >= patternSize - 1 && patternHash == rollingHash` holds exactly when the window ending at i has the pattern's hash |
| RabinKarpCount.RabinKarp | RabinKarpCount.cpp:19-90 | the count returned is the number of end indices whose window of pattern length has the pattern's hash |
| RabinKarpCount.OccurrencesAreCounted | RabinKarpCount.cpp:80-82 | no false negatives: the number of exact occurrences of the pattern is at most the count |
| RabinKarpCount.OccurrenceMakesCountPositive | RabinKarpCount.cpp:80-82 | one exact occurrence of the pattern makes the count at least 1 |
| RabinKarpCount.LongPatternCountsZero | RabinKarpCount.cpp:65-82 | a pattern longer than the target counts 0 |
| RabinKarpCount.EmptyPatternCountsEveryIndex | RabinKarpCount.cpp:65-82 | the empty pattern counts one hit per character of the target |
| RabinKarp.RabinKarp | RabinKarp.cpp:19-76 | -1 exactly when no window hashes like the pattern. Otherwise the start of the first window whose hash matches; no earlier window matches; every exact occurrence starts at or after it. -1 for a pattern longer than the target. The empty pattern yields 1 on a non-empty target and -1 on an empty one |
| RabinKarp.FirstHitFacts | RabinKarp.cpp:71-72 | a first hash match at end index e puts the returned start at or before every occurrence, with no earlier matching window |
| RabinKarp.NoHitFacts | RabinKarp.cpp:75 | when no window matches, a non-empty pattern occurs nowhere, and the empty pattern only fails on the empty target |
| TrieModel.Fresh | Trie.cpp:25 | `TrieNode(ch)` holds `ch`, has count 1, does not end a word and has no children |
| TrieModel.Walk | Trie.cpp:88-100 | a walk that succeeds ends in the arena, strictly below its start when it read a character |
| TrieModel.PrefixCount | Trie.cpp:81-103 | `findPrefix` is 0 on an empty trie or when the walk misses, otherwise the counter of the node reached |
| TrieModel.SearchResult | Trie.cpp:112-140 | `search` gives "" on an empty trie, otherwise a string that starts with the prefix its first loop matched |
| TrieModel.ChildWith | Trie.cpp:48-55 | the scan finds a child holding the character, or answers none exactly when no child holds it |
| TrieModel.ChildWithAt | Trie.cpp:48-55 | the scan stops at the first child holding the character |
| TrieModel.InsertByData | Trie.cpp:59-66 | `push_back` then sort yields a permutation of the old children plus the new one |
| TrieModel.InsertKeepsSorted | Trie.cpp:61-66 | inserting a child whose character is new keeps the children strictly sorted by character |
| TrieModel.InsertGreatestAppends | Trie.cpp:59-67 | a new child greater than all siblings ends up in the last slot, where the walk continues |
| TrieModel.SortedIsUnique | Trie.cpp:61-66 | two strictly sorted orders of the same children are equal, so the result of the sort is determined |
| TrieModel.Step | Trie.cpp:47-68 | one pass of `add` keeps every child index pointing forward and moves the walk to a later node |
| TrieModel.AddFrom | Trie.cpp:41-72 | `add` keeps every child index pointing forward and only grows the arena |
| TrieModel.StepWellFormed | Trie.cpp:47-68 | one pass of `add` keeps children unique and sorted, counters positive and the root's counter 1 |
| TrieModel.MarkWellFormed | Trie.cpp:71 | marking the end of a word keeps the trie well formed |
| TrieModel.AddFromWellFormed | Trie.cpp:41-72 | `add` keeps the trie well formed |
| TrieModel.MatchFrom | Trie.cpp:119-132 | the matched length is at most the input's, and the node reached lies in the arena |
| TrieModel.MatchIsLongestPrefix | Trie.cpp:119-132 | `search`'s first loop stops at the longest prefix of the input that spells a path; one character more leaves the trie |
| TrieModel.Descent | Trie.cpp:134-138 | following first children from a node spells a path that ends at a node ending a word |
| Trie.TrieNode.constructor | Trie.cpp:17-24 | a new trie is a lone root with count 1, not ending a word, and is well formed |
| Trie.TrieNode.FindChild | Trie.cpp:48-55 | the loop over the children returns the scan's result |
| Trie.TrieNode.AddChar | Trie.cpp:47-68 | one pass of `add` updates the arena in place as `Step` says and keeps it well formed |
| Trie.TrieNode.Add | Trie.cpp:41-72 | `add` leaves the arena `AddFrom` describes and keeps it well formed |
| Trie.TrieNode.FindPrefix | Trie.cpp:81-103 | `findPrefix` returns the counter of the node the input leads to. It returns 0 exactly when the trie is empty or the walk falls off it. On a non-empty trie the empty input gives 1. Nothing is modified |
| Trie.TrieNode.Descend | Trie.cpp:134-138 | the last loop of `search` appends the characters of the first-child descent |
| Trie.TrieNode.Search | Trie.cpp:112-140 | `search` returns "" on an empty trie, else the longest present prefix of the input followed by the first-child descent; nothing is modified |
| TrieProperties.WalkConcat | Trie.cpp:88-100 | walking `u + v` is walking `u`, then `v` from where it ended |
| TrieProperties.WalkGrows | Trie.cpp:41-72 | a path that exists keeps leading to the same node in every well-formed trie grown from it |
| TrieProperties.AddGrows | Trie.cpp:47-71 | `add` never removes a node or a child, never changes a character and never clears an end-of-word flag |
| TrieProperties.AddMarksEnd | Trie.cpp:71 | `add` sets the end-of-word flag on the node its walk ends at (the root for the empty word) |
| TrieProperties.AddLeavesOffPath | Trie.cpp:43-71 | nodes off the walk of `add` are unchanged |
| TrieProperties.AddCounts | Trie.cpp:48-54 | `add` adds exactly 1 to the counter of every existing child it enters and leaves all other old counters alone |
| TrieProperties.AddKeepsStartCount | Trie.cpp:43-54 | `add` never changes the counter of the node it starts at, so the root's stays 1 |
| TrieProperties.ExistingPathAscends | Trie.cpp:47-68 | re-adding a word whose path already exists satisfies `Ascends` |
| TrieProperties.AddSpellsWord | Trie.cpp:57-71 | when every child `add` creates is the greatest among its siblings, afterwards the word leads from the start to the node the walk ended at, and that node ends a word |
| TrieProperties.AddCountsPrefixes | Trie.cpp:48-68 | under the same condition, `add(w)` raises the counter reached by every non-empty prefix of `w` by exactly 1 |
| TrieProperties.AddThenFindPrefix | Trie.cpp:41-103 | after such an `add(w)`, `findPrefix` of every non-empty prefix of `w` is one more than before, `w` is a word, and `findPrefix(w) >= 1` |
| TrieProperties.AddEmptyWordToEmptyTrie | Trie.cpp:71-86 | after `add("")` on an empty trie the root ends a word, yet `findPrefix("")` is 0 |
| TrieProperties.SearchFindsWord | Trie.cpp:134-139 | on a non-empty trie, `search` returns a word of the trie |
| TrieProperties.SearchKeepsPresentPrefixes | Trie.cpp:117-132 | `search`'s result starts with every prefix of the input that spells a path from the root |
| TrieProperties.DescentIsSmallest | Trie.cpp:134-138 | with children sorted by character code, the first-child descent is the smallest word below the node in lexicographic order of character codes |
| TrieProperties.SearchIsSmallestCompletion | Trie.cpp:105-139 | `search` returns the lexicographically first word, by character code, of the trie that continues the prefix it keeps |
| TrieProperties.DescentEndsAtLeaves | Trie.cpp:134-138 | when every childless non-root node ends a word, the first-child descent always ends |
| TrieProperties.SearchDefinedWhenLeavesEndWords | Trie.cpp:134-138 | in such a trie, `search` never steps into an empty child vector, whatever the input |
| TrieProperties.StepKeepsLeaves | Trie.cpp:57-68 | a pass of `add` that creates only greatest children leaves at most the node it continues at as a leaf that does not end a word |
| TrieProperties.AddKeepsLeavesEndingWords | Trie.cpp:57-71 | such an `add` leaves every leaf ending a word, so `search` stays defined on tries built that way |
| TrieProperties.OutOfOrderAdd | Trie.cpp:60-67 | adding "b" and then "a" to an empty trie marks "b" twice and leaves "a" not a word, with a leaf that does not end a word |
| TrieProperties.OutOfOrderSearchUndefined | Trie.cpp:112-140 | on the arena `OutOfOrderAdd` builds, `search` is undefined for "a" and "" (both end on the childless unmarked 'a' leaf, whose empty vector line 136 dereferences) and defined for "b" |

## Left out

- `main` in each file: reading standard input and printing.
- Overflow of index arithmetic in the Rabin–Karp loops (`++i`,
  `i - patternSize`, `patternSize - 1`, `i - patternSize + 1`). It is done on
  unbounded `int`, not checked against `int`/`size_t`. The required bounds on
  the string sizes keep it in range.
- Raw pointers and vector reallocation. Nodes are arena entries and pointers
  are indices. Sorting a vector of nodes is modelled as reordering their
  indices, which moves whole subtrees the same way.
- The internals of `std::sort`. `InsertByData` inserts the new child into the
  already sorted list. `SortedIsUnique` shows that any sorted permutation
  equals it, because sibling characters are distinct.
- Trie.TrieNode.Search: requires `SearchDefined`. That excludes the inputs for
  which the C++ code dereferences `children.begin()` of an empty vector
  (Trie.cpp:136), which is undefined behaviour.
  `SearchDefinedWhenLeavesEndWords` and `AddKeepsLeavesEndingWords` show when
  the requirement holds.
- AddSpellsWord, AddCountsPrefixes, AddThenFindPrefix: these require `Ascends`.
  Without it the walk can continue at a sibling (see `OutOfOrderAdd`). The
  model does not prove that adding words in ascending order implies
  `Ascends`; it proves `Ascends` for words whose path already exists.
- TrieModel.Step: orders children by the character's code point. Trie.cpp:65
  compares `char` values, which are signed on common platforms, so for bytes
  0x80 and above the C++ sort puts them before every ASCII character. The
  order of such children, and so the slot the walk continues at, can differ.
  The model agrees with the source for characters 0..127.
- TrieProperties.DescentIsSmallest: the order is that of character codes,
  which is the model's sort order; for bytes 0x80 and above it is neither the
  signed `char` order of Trie.cpp:65 nor, therefore, the order the C++ trie
  descends in.
- TrieProperties.SearchIsSmallestCompletion: "first" is in character-code
  order, for the same reason; it matches the C++ behaviour for characters
  0..127.
- TrieProperties.AddThenFindPrefix: requires a non-empty word. For the empty
  word on an empty trie `findPrefix("")` stays 0 even though the root ends a
  word, as `AddEmptyWordToEmptyTrie` shows.
- TrieProperties.AddCounts: covers the counters of nodes that existed before
  the call. Nodes created by the call start at 1, as `Fresh` says. Their
  final counters are not stated as a separate lemma.
- The counters are `std::size_t`. They are modelled as unbounded `nat`, and
  wrap-around after 2^64 additions is not modelled.
- Rabin–Karp characters are restricted to codes 0..127 (`IsAscii`). That
  makes the signedness of `char` irrelevant and keeps C++ `%` away from
  negative operands.
- RabinKarpCount.RabinKarp and RabinKarp.RabinKarp: require the target to be
  shorter than 2^31 characters, so that the count and the returned start fit
  the 32-bit `int` result. They also require the pattern to fit `long long`.
- RollingHash.BinPow: requires `a0 <= 3037000499`, so that the first
  `a * a` fits 64 bits. The only call passes 257.
- Hash-collision probability and running time. Only deterministic facts about
  hash equality are stated, which is why the Rabin–Karp results are stated as
  hash matches plus "no false negatives".
