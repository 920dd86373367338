# Multi-phrase matcher: a Dafny model

This project models the sequential core of a matcher for many multi-token
phrases, and proves properties of that model:

- **Token dictionary** (`dictionary.dfy`, module `Dict`, class `Dictionary`).
  - It interns space-separated tokens to dense ids 0, 1, 2, … in order of first sighting.
  - It maps ids back to text.
  - It turns a phrase into its ids and ids back into a phrase.
- **Open-addressing hash table** (`simplemap.dfy`, module `SimpleMapping`, class `SimpleMap`).
  - It has a power-of-two number of slots over an array, with linear probing that wraps around.
  - A slot whose key is empty is free, and no slot is ever cleared.
  - It comes with the FNV-style and djb2-style string hashes.
- **String helpers** (`text.dfy`, module `Text`; `prefix.dfy`, module `CommonPrefix`).
  - These are the first token, the token at an offset, the token length, and the common-prefix length.
  - `Text` also holds `Split` / `Join`, the reference definitions of the token structure the other modules use.
- **Token automaton** (`nfa.dfy`, module `Automaton`).
  - A state's arcs can be kept in three ways: a hash map, a direct-indexed global array, or a linear list.
  - The combined state starts as a linear list and promotes itself to a hash map after 50 arcs.
  - States are append-only.
  - `feedWord` advances a double-buffered visitor by one token and reports the reached states that are active.
- **Brute-force matcher** (`bruteforce.dfy`, module `BruteForce`, class `Matcher`).
  - It keeps the list of n-grams and the prefix map, from first token id to n-gram indices.
  - It models the initial build and the `A` (add) and `D` (delete) updates.
  - `find_in_document` collects `(position, text)` matches, sorts them by position and then text length, and drops repeated texts.
  - It returns the output as a string, `-1` or `a|b|c`, instead of printing it.

Shared pieces:

- `wrappers.dfy` holds `Option` and `Result`. `Result.OutOfRange` stands for the `std::out_of_range` that `at` and `substr` throw.
- `settings.dfy` holds the two constants used here: `HASH_NOT_FOUND` = 2^32 - 1 and `MAX_LINEAR_MAP_SIZE` = 50.
- `seqs.dfy` holds three generic sequence facts.

Where the source mutates state, the model keeps that form:

- Classes with fields, and methods with `modifies` clauses.
- Loops with invariants, each proved against a pure specification function.
- The specification functions carry lemmas: round trips, invariants that Add and Delete preserve, soundness and completeness of matching, and uniqueness of the sorted order.

The specification and the code disagree in one place, and the model follows
the code. The specification says that adding a phrase twice and deleting it
once leaves one copy active. The `D` branch of `src/main.cpp` clears every
active n-gram equal to the deleted phrase, so no copy stays active
(`BruteForce.Matcher.Delete`).

## Model

| member | source | states |
|---|---|---|
| Text.Split | src/dictionary.h:52-71 | the token list of a string always has at least one token; it is defined by the same last-character step as the createWord loop |
| Text.SplitCount | src/dictionary.h:52-71 | a string has exactly one token more than it has spaces |
| Text.SplitSpaceFree | src/dictionary.h:56-67 | no token contains a space |
| Text.JoinSplit | src/dictionary.h:93-104 | joining the tokens of a string with single spaces gives the string back |
| Text.SplitJoin | src/dictionary.h:52-71 | splitting space-joined space-free tokens gives the same tokens back |
| Text.Find | src/util.cpp:16 | `std::string::find`: the first index at or after `from` holding the character, or none exactly when no later position holds it |
| Text.FindPrefix | src/util.cpp:3-12 | find_prefix is a space-free prefix of the word that ends at the end of the word or at a space |
| Text.FindPrefixFrom | src/util.cpp:14-23 | find_prefix_from succeeds exactly when `from` is within the word; it is the maximal space-free run starting at `from` |
| Text.MaximalRunUnique | src/util.cpp:14-23 | there is only one maximal space-free run at the start of a string |
| Text.FindPrefixFromShift | src/util.cpp:3-23 | find_prefix(w) equals find_prefix_from(w, 0), and find_prefix_from(w, f) is find_prefix of the suffix from f |
| Text.FindPrefixIsFirstToken | src/util.cpp:3-12 | find_prefix is the first token of the string |
| Text.FindPrefixLength | src/util.cpp:25-35 | find_prefix_length counts consecutive non-space characters from the start index. It is 0 past the end and stops at a space or the end. It equals the length of find_prefix_from at that offset |
| CommonPrefix.CommonPrefixLength | src/nfa.cpp:4-13 | the common-prefix length is within both strings, both strings agree below it, and they differ at it when both go on |
| CommonPrefix.CommonPrefixUnique | src/nfa.cpp:8-12 | those three properties determine the length |
| CommonPrefix.WholeNeedleIffPrefix | src/nfa.cpp:4-13 | the whole needle is matched exactly when it is a prefix of the word |
| CommonPrefix.GetPrefix | src/nfa.cpp:4-13 | get_prefix is at most min(needle size, word size - start) and is the common-prefix length of word[start..] and needle |
| CommonPrefix.GetPrefixFrom | src/nfa.cpp:14-23 | the four-argument get_prefix is the common-prefix length of word[wordStart..] and needle[needleStart..]. With needleStart 0 it is the three-argument result |
| Dict.LookupsAt | src/dictionary.h:61 | the k-th id pushed is the id of the k-th token, HASH_NOT_FOUND for an unknown token |
| Dict.LookupsExtends | src/dictionary.h:40-49 | interning more tokens does not change the ids of tokens already interned |
| Dict.InternAllKeys | src/dictionary.h:38-71 | interning a token list, as createWord's inserts do, adds exactly the listed tokens, keeps every id already handed out, and gives the new tokens the ids old size .. new size - 1 |
| Dict.InternAllAppend | src/dictionary.h:52-71 | interning the tokens of `a + b` is interning those of `a`, then those of `b` |
| Dict.InternAllPrefix | src/dictionary.h:38-50 | ids given to tokens of a prefix of the list survive interning the rest |
| Dict.InternAllOrder | src/dictionary.h:38-50 | new tokens get their ids in order of first sighting: a token first seen later gets a larger id than every new token seen before it |
| Dict.Dictionary.constructor | src/dictionary.h:111-113 | a new dictionary is empty and satisfies the inverse-maps invariant |
| Dict.Dictionary.Size | src/dictionary.h:106-109 | size() is the number of interned tokens, the same in both maps |
| Dict.Dictionary.GetHash | src/dictionary.h:14-17 | get_hash succeeds exactly for a known token, and the id maps back to it |
| Dict.Dictionary.GetHashMaybe | src/dictionary.h:18-26 | get_hash_maybe is HASH_NOT_FOUND exactly for an unknown token; otherwise the id maps back to the token; it reads and does not modify |
| Dict.Dictionary.GetString | src/dictionary.h:28-36 | get_string succeeds exactly for ids below size(). The text's id is that id, in both maps |
| Dict.Dictionary.Insert | src/dictionary.h:38-50 | a new token gets the old size as its id and size grows by one; a known token keeps its id and nothing changes; the maps stay mutually inverse over ids 0 .. size-1 |
| Dict.Dictionary.CreateWord | src/dictionary.h:52-71 | createWord appends exactly spaces+1 ids to hashList: the ids of the tokens, in order, empty tokens included. The new dictionary is exactly the old one with the tokens inserted in order (`InternAll`), so its keys are the old keys plus the tokens, existing ids are kept, and new tokens get the next ids in order of first sighting |
| Dict.Dictionary.PushToken | src/dictionary.h:61 | one `push_back(insert(prefix))` extends the ids already pushed with the id of one more token |
| Dict.Dictionary.CreateWordNoInsert | src/dictionary.h:72-91 | createWordNoInsert appends the same ids createWord would append, using the same Lookups, but with HASH_NOT_FOUND for unknown tokens; the dictionary is untouched |
| Dict.Dictionary.CreateString | src/dictionary.h:93-104 | createString succeeds exactly for a non-empty list of known ids, and is the texts of the ids joined by single spaces |
| Dict.Dictionary.RoundTrip | src/dictionary.h:52-104 | createString of the ids createWord makes for a phrase is the phrase |
| Dict.Dictionary.TextOfLookups | src/dictionary.h:42-44 | the ids of interned tokens map back to exactly those tokens |
| SimpleMapping.UpToNul | src/simplemap.h:30 | the characters the hash loops consume are those before the first NUL |
| SimpleMapping.Fnv | src/simplemap.h:22-37 | fnv starts from 0x811c9dc5 and folds `(h ^ c) * 16777619` modulo 2^64 over the characters up to the first NUL |
| SimpleMapping.HashFn | src/simplemap.h:39-50 | hashfn starts from 5381 and folds `h * 33 + c` modulo 2^64 over the characters up to the first NUL |
| SimpleMapping.EmptyHashes | src/simplemap.h:28 | on the empty string the hashes are 0x811c9dc5 and 5381 |
| SimpleMapping.HashesStep | src/simplemap.h:30-34 | each further non-NUL character updates each hash by exactly one round |
| SimpleMapping.HashesStopAtNul | src/simplemap.h:30 | characters after the first NUL do not affect either hash |
| SimpleMapping.BitAnd | src/simplemap.h:71 | a masked hash is at most the mask, so it is below the capacity |
| SimpleMapping.MaskKeepsLow | src/simplemap.h:87 | masking with capacity-1 leaves an index below a power-of-two capacity unchanged |
| SimpleMapping.MaskWraps | src/simplemap.h:82 | masking the capacity itself with capacity-1 gives slot 0 |
| SimpleMapping.MaskStep | src/simplemap.h:82 | `(hash + 1) & bitCapacity` is the next slot, wrapping to 0 after the last |
| SimpleMapping.Slot | src/simplemap.h:82 | each step of the probe visits a slot below the capacity |
| SimpleMapping.Offset | src/simplemap.h:73-83 | a probe reaches every slot within capacity steps, each at exactly one step |
| SimpleMapping.SlotInjective | src/simplemap.h:82 | distinct steps of one probe visit distinct slots |
| SimpleMapping.FirstFree | src/simplemap.h:73-83 | the first step on the probe at which the slot is free, with every earlier slot occupied |
| SimpleMapping.StopAt | src/simplemap.h:105-116 | the first step at which a lookup halts, at a free slot or the key, with no earlier halt |
| SimpleMapping.FreeReached | src/simplemap.h:73-83 | with a free slot anywhere, the insert probe meets one |
| SimpleMapping.StopBeforeFree | src/simplemap.h:101-117 | a lookup halts no later than the first free slot, so it terminates |
| SimpleMapping.StopIs | src/simplemap.h:105-116 | the halting step is the unique step with no earlier halt at which the probe halts |
| SimpleMapping.PresentHoldsKey | src/simplemap.h:111-114 | a found slot holds exactly the key looked for, which is not empty |
| SimpleMapping.InsertSlot | src/simplemap.h:75-81 | insert writes a slot below the capacity that is free |
| SimpleMapping.InsertFillsFree | src/simplemap.h:75-80 | insert fills one free slot with the pair, changes no other slot, and no occupied slot becomes free |
| SimpleMapping.GetAfterInsert | src/simplemap.h:69-117 | after inserting an absent non-empty key from any start, a lookup from the same start returns its value. For the key's fnv start this is get after insert; for a caller's hash it is get_hash after insert_hash |
| SimpleMapping.GetAfterReinsert | src/simplemap.h:111-114 | inserting a key that is already present does not change what a lookup returns, because the earlier copy is found first |
| SimpleMapping.HomeSlot | src/simplemap.h:71 | the start slot of insert and get, fnv(key) & bitCapacity, is below the capacity |
| SimpleMapping.FreeTableClustered | src/simplemap.h:58 | a table of default nodes satisfies the probe-cluster invariant |
| SimpleMapping.InsertKeepsClustered | src/simplemap.h:69-84 | insert keeps every occupied slot reachable from its key's home slot through occupied slots |
| SimpleMapping.GetOtherAfterInsert | src/simplemap.h:69-117 | on a clustered table, inserting one key leaves get unchanged for every other key |
| SimpleMapping.SimpleMap.constructor | src/simplemap.h:56-60 | a power-of-two capacity, bitCapacity = capacity - 1, and capacity default (free) nodes |
| SimpleMapping.SimpleMap.InsertHash | src/simplemap.h:85-100 | insert_hash writes the pair into the first free slot on the wrapping probe from `hash & bitCapacity`. No other slot changes and count goes up by one |
| SimpleMapping.SimpleMap.Insert | src/simplemap.h:69-84 | insert is insert_hash at the key's fnv home slot |
| SimpleMapping.SimpleMap.GetHash | src/simplemap.h:118-134 | get_hash returns the value of the first slot holding the key on the probe from `hash & bitCapacity`, or HASH_NOT_FOUND when a free slot comes first. It is callable whenever its probe stops: on a table with a free slot, or on a full table whose probe meets the key |
| SimpleMapping.SimpleMap.Get | src/simplemap.h:101-117 | get is get_hash at the key's fnv home slot, under the same condition that the probe stops |
| SimpleMapping.SimpleMap.Size | src/simplemap.h:136-139 | size() is the insert counter, which InsertHash and Insert raise by exactly one |
| Automaton.Trunc32 | src/nfa.h:185 | the cast of an arc target to `unsigned int` is below 2^32 and keeps targets that fit |
| Automaton.FirstIndex | src/nfa.h:87-98 | the first position of the list whose input matches, with no earlier match |
| Automaton.FirstValueAppend | src/nfa.h:146-149 | appending an arc changes a linear lookup only when no earlier arc matched |
| Automaton.FirstMapAgrees | src/nfa.h:151-160 | the hash map built by inserting the pairs in order answers every input exactly as the linear scan does |
| Automaton.FirstMapAppend | src/nfa.h:182-186 | the promoted map of a longer list is the old one with first-insert-wins semantics |
| Automaton.NfaVisitor.constructor | src/nfa.h:21-27 | both buffers are empty and buffer 0 is current |
| Automaton.NfaVisitor.Advance | src/nfa.h:257 | the other buffer receives the new states and becomes current; the old current buffer is unchanged |
| Automaton.NfaVisitor.Reset | src/nfa.h:29-33 | reset empties both buffers and keeps stateIndex |
| Automaton.HashNfaState.constructor | src/nfa.h:60 | a new hash state has no arcs |
| Automaton.HashNfaState.GetArc | src/nfa.h:43-52 | get_arc is NO_ARC exactly when there is no arc, otherwise the stored target |
| Automaton.HashNfaState.AddArc | src/nfa.h:54-57 | add_arc overwrites (last write wins) and no other input's arc changes |
| Automaton.LinearMapNfaState.constructor | src/nfa.h:15 | every root state reads and writes the one global array |
| Automaton.LinearMapNfaState.GetArc | src/nfa.h:67-70 | get_arc is the global array's entry for the input. After add_arc it is the written target, and other inputs keep theirs (AddArc) |
| Automaton.LinearMapNfaState.AddArc | src/nfa.h:72-75 | add_arc overwrites the global entry for the input, last write wins, and no other entry changes; get_arc then returns the written target for that input and the old one for every other input |
| Automaton.LinearNfaState.constructor | src/nfa.h:82-85 | a new linear state has no pairs |
| Automaton.LinearNfaState.GetArc | src/nfa.h:87-99 | get_arc returns the target of the earliest pair for the input, NO_ARC when there is none |
| Automaton.LinearNfaState.AddArc | src/nfa.h:101-104 | add_arc appends one pair, its target cut to `unsigned int`, and get_size grows by one |
| Automaton.LinearNfaState.GetSize | src/nfa.h:106-109 | get_size is the number of stored pairs, one per add_arc since construction |
| Automaton.CombinedNfaState.constructor | src/nfa.h:118-122 | a new state has no arcs, is on the linear arm, and has the default word |
| Automaton.CombinedNfaState.GetArcLinear | src/nfa.h:129-144 | get_arc_linear returns the target of the earliest pair for the input, NO_ARC when there is none |
| Automaton.CombinedNfaState.AddArcLinear | src/nfa.h:146-164 | add_arc_linear appends the pair. When the list grows past 50, it inserts every pair into the hash map in order, an existing key keeping its target, and switches both arms. Otherwise nothing else changes |
| Automaton.CombinedNfaState.GetArcHash | src/nfa.h:166-180 | get_arc_hash is NO_ARC exactly when the hash map has no arc, otherwise its target |
| Automaton.CombinedNfaState.AddArcHash | src/nfa.h:182-187 | add_arc_hash never overwrites an existing arc |
| Automaton.CombinedNfaState.GetArc | src/nfa.h:240 | under either arm, the dispatched get returns the state's arc map |
| Automaton.CombinedNfaState.AddArc | src/nfa.h:192-193 | under either arm, and across the promotion, the dispatched add is first-write-wins on the arc map |
| Automaton.ArcFrom | src/nfa.h:240 | a state's arc is NO_ARC or names a state |
| Automaton.Successors | src/nfa.h:236-255 | the successors of the current states are in range and at most as many as the current states |
| Automaton.Harvest | src/nfa.h:245-252 | the harvested (id, length) pairs are at most the pushed ids |
| Automaton.HarvestAppend | src/nfa.h:225-252 | reporting distributes over the pushed ids: root part, then successor part |
| Automaton.HarvestOne | src/nfa.h:225-231 | a single pushed id is reported exactly when its word is active |
| Automaton.SuccessorsAppend | src/nfa.h:236-255 | each current state contributes its own successor, or none, in turn |
| Automaton.ReportedIsHarvest | src/nfa.h:236-255 | what the loop reports as it goes is exactly the active states among the ids it pushes |
| Automaton.Nfa.constructor | src/nfa.h:206-210 | the automaton starts with the single root state 0, which has no arcs |
| Automaton.Nfa.CreateState | src/nfa.h:307-315 | createState appends exactly one default state and returns the old count; earlier states are unchanged |
| Automaton.Nfa.RootStep | src/nfa.h:220-234 | the root contributes one state exactly when includeStartState holds and its arc is not NO_ARC |
| Automaton.Nfa.PushSuccessors | src/nfa.h:236-255 | the loop over the current buffer pushes each state's successor in order, skipping states with no arc. It reports the pushed states that are active |
| Automaton.Nfa.FeedStep | src/nfa.h:215-256 | the next buffer is the root arc, if asked for and present, followed by the successors. results are extended by the (id, length) of the active ones, in push order, with earlier entries untouched |
| Automaton.Nfa.FeedWord | src/nfa.h:212-258 | feedWord fills the other buffer as FeedStep does, leaves the current buffer unchanged, and flips stateIndex to 1 - stateIndex |
| Automaton.Nfa.FeedWordWithInitial | src/nfa.h:259-302 | feedWordWithInitial has the effect of feedWord with includeStartState true |
| BruteForce.InternedExtends | src/main.cpp:154 | interning a later line leaves the ids of every stored n-gram unchanged |
| BruteForce.InternedAppend | src/main.cpp:154 | appending the n-gram of one more phrase keeps every n-gram tied to its phrase |
| BruteForce.KeyIndices | src/main.cpp:127-134 | the indices listed under a key are at most the number of n-grams |
| BruteForce.KeyIndicesSound | src/main.cpp:129-134 | every index listed under key p names an n-gram whose first token id is p |
| BruteForce.KeyIndicesComplete | src/main.cpp:127-134 | every n-gram with first token id p is listed under p |
| BruteForce.KeyIndicesIncreasing | src/main.cpp:134 | the list under a key is strictly increasing, so no index is listed twice |
| BruteForce.KeyIndicesAbsent | src/main.cpp:130-132 | nothing is listed under a key that is no n-gram's first token id |
| BruteForce.KeyIndicesSameKeys | src/main.cpp:182 | the lists depend only on the token lists, not on the active flags |
| BruteForce.KeyIndicesSnoc | src/main.cpp:155-161 | appending an n-gram extends only the list of its own first token id, by its index |
| BruteForce.RegisterIndexes | src/main.cpp:154-161 | appending an n-gram and registering its index under its first token id, with the list created if missing, keeps the prefix-map invariant |
| BruteForce.IndexedListed | src/main.cpp:49-51 | under the invariant every listed index is a valid n-gram index |
| BruteForce.IndexedFinds | src/main.cpp:44-49 | under the invariant every n-gram is listed under its own first token id |
| BruteForce.IndexedKeys | src/main.cpp:127-134 | under the invariant the prefix map's keys are exactly the first token ids of the n-grams: no key is created without an n-gram |
| BruteForce.Deleted | src/main.cpp:177-184 | after a delete, every token list is unchanged, and an n-gram is active exactly when it was active and differs from the deleted phrase |
| BruteForce.DeletedIndexed | src/main.cpp:182 | a delete keeps the prefix-map invariant |
| BruteForce.Unflag | src/main.cpp:177-184 | the loop clears exactly the listed n-grams that are active and equal to the phrase |
| BruteForce.DeleteIds | src/main.cpp:172-185 | walking only the list under the phrase's first id clears every equal active n-gram, because of the invariant |
| BruteForce.DeletedInterned | src/main.cpp:182 | a delete keeps every n-gram tied to its phrase |
| BruteForce.DeleteIdempotent | src/main.cpp:180-182 | deleting a phrase twice is deleting it once |
| BruteForce.DeleteAbsent | src/main.cpp:175-185 | deleting a phrase no n-gram has leaves the n-grams unchanged |
| BruteForce.MatchedLength | src/main.cpp:55-66 | the ids agree with the document over the matched length, and the whole n-gram is matched exactly when it occurs at the position within the document |
| BruteForce.HitsStep | src/main.cpp:49-70 | one more listed index adds at most its own match |
| BruteForce.HitsSound | src/main.cpp:53-69 | a hit at position i is an active n-gram whose whole token list occurs at i, with that n-gram's phrase |
| BruteForce.HitsComplete | src/main.cpp:49-70 | every listed active n-gram occurring at i is a hit |
| BruteForce.CollectedSound | src/main.cpp:44-72 | every collected match is an active n-gram occurring in the document at the match's position |
| BruteForce.CollectedComplete | src/main.cpp:44-72 | every listed active n-gram occurring at a position is collected there |
| BruteForce.SourceComparatorReflexive | src/main.cpp:74-79 | the comparator as written holds between a match and itself |
| BruteForce.PrecedesStrictWeak | src/main.cpp:74-79 | the intended order, position and then text length, is a strict weak ordering |
| BruteForce.PrecedesRefinesSource | src/main.cpp:76-78 | wherever the intended order decides, the comparator as written agrees with it |
| BruteForce.InsertMatch | src/main.cpp:74-79 | inserting a match gives a permutation with one more element |
| BruteForce.InsertSorted | src/main.cpp:74-79 | inserting a match keeps a sorted list sorted |
| BruteForce.SortMatches | src/main.cpp:74-79 | the sort returns a permutation of the matches that is sorted by position and then text length |
| BruteForce.SortedHeads | src/main.cpp:74-79 | if tied matches are equal, two sorted permutations start with the same match |
| BruteForce.SortedUnique | src/main.cpp:74-79 | if tied matches are equal, there is only one sorted permutation |
| BruteForce.TiesEqualPermute | src/main.cpp:74-79 | permuting the matches keeps tied matches equal |
| BruteForce.DedupElements | src/main.cpp:95-99 | the rendered texts are exactly the matched texts |
| BruteForce.DedupNoRepeats | src/main.cpp:95-99 | each text is rendered once |
| BruteForce.FirstPos | src/main.cpp:92-100 | the first occurrence of a text, with no earlier occurrence |
| BruteForce.DedupOrder | src/main.cpp:92-100 | texts are rendered in the order of their first occurrence |
| BruteForce.Render | src/main.cpp:81-100 | the output loop with the `found` set prints -1 for no matches, otherwise the distinct texts in first-occurrence order joined by vertical bars |
| BruteForce.JoinPrefixShorter | src/dictionary.h:98-102 | the rendered text of fewer leading tokens is strictly shorter |
| BruteForce.StringsPrefix | src/dictionary.h:98-102 | the texts of a prefix of the ids are a prefix of the texts |
| BruteForce.CollectedIff | src/main.cpp:44-72 | a match is collected exactly when an active n-gram made from its text occurs in the document at its position |
| BruteForce.NothingFound | src/main.cpp:82-85 | no matches, and so the output -1, exactly when no active n-gram occurs anywhere in the document |
| BruteForce.ShorterRunShorterText | src/main.cpp:76-78 | of two n-grams occurring at one position, the one with fewer tokens has the shorter text |
| BruteForce.TieAt | src/main.cpp:76-78 | two collected matches with the same position and text length are the same match |
| BruteForce.TiesAreEqual | src/main.cpp:76-78 | all ties of the comparator among the collected matches are between equal matches |
| BruteForce.AnySortAgrees | src/main.cpp:74-79 | every sorted permutation of the collected matches is the one the model computes, so the output does not depend on how ties are broken |
| BruteForce.Index | src/main.cpp:127-134 | the build loop establishes the prefix-map invariant |
| BruteForce.Matcher.constructor | src/main.cpp:12-14 | the globals start empty, with query_id 0 |
| BruteForce.Matcher.PhraseOf | src/main.cpp:68 | the text createString renders for an n-gram is the phrase it was made from |
| BruteForce.Matcher.AllSpelled | src/main.cpp:68 | every n-gram renders as its phrase |
| BruteForce.Matcher.SameIdsSamePhrase | src/main.cpp:180 | an n-gram equals a phrase's ids exactly when it was made from that phrase |
| BruteForce.Matcher.MakeNGram | src/main.cpp:154 | createWord returns the active n-gram of the line's ids; the dictionary becomes the old one with the line's tokens interned in order, and the stored n-grams keep their ids |
| BruteForce.Matcher.LoadInitData | src/main.cpp:16-36 | load_init_data makes one active n-gram per line, holding that line's ids; the dictionary becomes the old one with every line's tokens interned, line by line (`InternLines`) |
| BruteForce.Matcher.BuildIndex | src/main.cpp:127-134 | the build loop establishes the prefix-map invariant and changes nothing else |
| BruteForce.Matcher.Load | src/main.cpp:125-140 | start-up loads one active n-gram per line, interning the lines' tokens line by line, and indexes them all |
| BruteForce.Matcher.Add | src/main.cpp:152-161 | the `A` branch interns the line's tokens in order and appends exactly one active n-gram with the line's ids; it registers its index under its first token id and changes no other n-gram |
| BruteForce.Matcher.Append | src/main.cpp:154-161 | the append and the registration, once the ids are known |
| BruteForce.Matcher.Delete | src/main.cpp:168-185 | the `D` branch interns the line's tokens in order, clears the flag of exactly the active n-grams made from the line and changes nothing else |
| BruteForce.Matcher.Clear | src/main.cpp:173-185 | the flag clearing, once the ids are known |
| BruteForce.Matcher.HitsAt | src/main.cpp:49-70 | the inner loop at one position keeps each listed active n-gram whose whole token list occurs there, with its text |
| BruteForce.Matcher.CollectMatches | src/main.cpp:44-72 | the nested loops collect, position by position, the hits among the n-grams listed under the token there |
| BruteForce.Matcher.Answer | src/main.cpp:44-100 | the output is the rendering of the sorted collected matches |
| BruteForce.Matcher.Query | src/main.cpp:42-100 | find_in_document interns the document's tokens in order (the dictionary becomes `InternAll` of them) and returns the rendering of the sorted matches over their ids |
| BruteForce.Matcher.FindInDocument | src/main.cpp:38-103 | find_in_document returns the rendered matches, interns the document's tokens in order, increments query_id by one, and leaves the n-grams and prefix map unchanged |

## Findings

| source | as written | input that shows it | evidently intended | confidence | as-written member | corrected member |
|---|---|---|---|---|---|---|
| src/main.cpp:74-79 | the sort comparator ends with `m1.word.size() <= m2.word.size()`, so it holds between a match and itself and between any two matches with the same position and text length | any match m: the comparator (m, m) is true; std::sort requires a strict weak ordering and its behaviour is undefined otherwise | `<`: order by position, then strictly by text length | not executed | BruteForce.SourceComparatorReflexive | BruteForce.PrecedesStrictWeak |

The rest of the model sorts with the corrected order `Precedes`.
`BruteForce.PrecedesRefinesSource` shows that it agrees with the written
comparator wherever that comparator decides. `BruteForce.AnySortAgrees` shows
that the output does not depend on how ties are broken.

## Left out

- Input and output are not modelled:
  - the `getline` loop and the line dispatch in `main`;
  - the `S` terminator;
  - the `R` banner;
  - `std::cout` / `std::cerr`;
  - `LOAD_FROM_FILE`;
  - `PRINT_STATISTICS`.

  `LoadInitData` and `Load` take the initial lines as a sequence. `FindInDocument` returns the rendered line instead of printing it.
- The `ERROR, NO HASH FOUND` message of get_string is output. It is left out; the throw that follows is the `OutOfRange` result.
- Concurrency is not modelled. `LOCK` / `UNLOCK` in `src/nfa.h` are no-ops in this sequential model.
- `src/thread.h`, `src/job.h`, `src/lock.h`, `src/lock.cpp`, `src/query.h`, `src/timer.h` and `src/input.cpp` are not part of this model.
- `src/word.h` is not used. Its record does not have the members the core uses:
  - `BruteForce.NGram` is a list of token ids plus an `active` flag, and `==` is equality of the token lists.
  - `Automaton.Word` is an activation window plus a length.
  - `Automaton.IsActive`, `validFrom <= t < validTo`, is an assumption; the source does not define `is_active`.
  - `Automaton.NoWord`, the word of a freshly created state, is the window from 0 to 0, so it is active at no timestamp. This is also an assumption, because the default word comes from `src/word.h`. `Automaton.Nfa.FeedWord` therefore never reports a state that still holds the default word.
- `std::sort` itself is not modelled. `BruteForce.SortMatches` is insertion into a sorted permutation. `BruteForce.AnySortAgrees` shows that any sorted permutation gives the same output.
- `std::unordered_set` and `std::unordered_map` are Dafny `set` and `map`.
- `Dict.Dictionary.Insert` requires room for a new id below HASH_NOT_FOUND, because of the 32-bit `DictHash` width. Past 2^32 - 1 tokens the source would hand out the sentinel or wrap; that range is not modelled. `CreateWord`, `MakeNGram`, `Add`, `Delete`, `Query` and `FindInDocument` carry the same room precondition.
- `BruteForce.Matcher.Add`: `line.substr(2)` is done by the caller; each branch takes the text after the operation tag.
- The `(int)` index casts in main.cpp's prefix map, in the linear arc scans of `src/nfa.h` and in get_prefix are not modelled as 31-bit truncation; sizes are unbounded naturals.
- `size_t` arithmetic does not wrap anywhere in the model. The `get_arc` functions of `Automaton.HashNfaState`, `Automaton.LinearMapNfaState` and `Automaton.CombinedNfaState` return the stored target as it is, without the conversion to `ssize_t`; that conversion only matters for targets of 2^63 or more. `CommonPrefix.GetPrefix` and `CommonPrefix.GetPrefixFrom` require the start offsets to be in range, because `size() - start` would wrap.
- `SimpleMapping.SimpleMap.InsertHash` and `Insert` require a free slot somewhere in the table. On a full table their `while (true)` probe never terminates, and that behaviour is not modelled.
- `SimpleMapping.SimpleMap.GetHash` and `Get` require that their probe stops: there is a free slot, or the probe meets the key. Only a probe that meets neither runs forever, and that case is not modelled.
- `SimpleMapping.SimpleMap.Size`: `count` is never initialised in the source. The model leaves it unconstrained and states only the +1 per insert.
- `SimpleMapping.Fnv` and `SimpleMapping.HashFn`:
  - They take `char` as signed and sign-extend it to 64 bits (`Widen`), the common platform choice.
  - They do not model the `(int)` cast of the string size; strings are taken to be shorter than 2^31.
- Strings are byte strings: each Dafny `char` stands for one C++ `char`, and every character is taken to be below 256. `Widen` uses only the low byte, so a character of 256 or more is outside the model, and nowhere else are multi-byte encodings modelled.
- `SimpleMapping.SimpleMap` is modelled with `std::string` keys and `DictHash` values, the instantiation the program uses. The empty key marks a free slot.
- The `SimpleMap` destructor, and the deleted copy constructor and assignment, are not modelled.
- `Automaton.CombinedNfaState`: the copy constructor at src/nfa.h:124-127 leaves its members uninitialised and is not modelled. The member-function pointers `get_fn` / `add_fn` are a two-valued tag `Arm`.
- The `volatile` read of get_arc_hash is not modelled.
- `Automaton.Nfa.constructor` takes the global `linearMap` array as a parameter:
  - `initLinearMap` is not part of this model.
  - The array is required to start filled with NO_ARC.
  - Inputs are required to be below its length.
  - `NFA_STATES_INITIAL_SIZE` only reserves capacity and is not modelled.
- `Automaton.Nfa.FeedWord` is given the next buffer as a value. Clearing and pushing into `visitor.states[next]` is modelled as replacing that buffer with the pushed sequence.
- `Automaton.Nfa.FeedWord`: the `results` pairs are `unsigned int`. Ids and lengths are stored unbounded, without truncation.
- `Automaton.Nfa.FeedWordWithInitial` is modelled as a call of `FeedWord` with `includeStartState` true. Its body in src/nfa.h:259-302 is that body with the condition taken as true.
- `LinearNfaState` and `HashNfaState` are not used by `Nfa`; they are modelled on their own.
- The path that inserts phrases into the automaton is not in the modelled files and is not invented. Neither are timestamp-based delete and batching.
- `BruteForce.Matcher` keeps the phrases the n-grams were made from as ghost state (`phrases`), so that a match's text can be stated. The source keeps only the ids.
- `BruteForce`: the prefix-map update, which inserts an empty list when the key is missing and then appends the index, is written as one step, `Registered`.
