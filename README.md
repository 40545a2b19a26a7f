# Byte-pair encoding: learning and applying merges

A Dafny model of the two halves of subword-nmt's byte-pair encoding (BPE).

**Learning (`learn_bpe.py`).**
- It reads a vocabulary, either a word/count list or running text.
- Every word starts as its characters, with the end-of-word marker `</w>`.
- It keeps a table of how often each adjacent symbol pair occurs, weighted by word frequency, plus an index from each pair to the words that hold it.
- It repeatedly merges the most frequent pair and writes it out as a merge line. Both tables are updated incrementally, only around the merged occurrences. The working table is pruned below a threshold, and a full backup table serves as the reserve.
- It can also compute the vocabulary of the subword pieces an encoder makes of a word list.

**Applying (`apply_bpe.py`).**
- It loads the merge table: an optional `#version: ` header, the rank of each pair (its first line) and a reverse map from each fused symbol to its pair.
- It encodes a word by repeatedly fusing its best-ranked pair, then strips the marker.
- Given a vocabulary, it splits out-of-vocabulary pieces back through the reverse map.
- It attaches the separator to every piece of a word but the last, and caches encoded words.
- It can compute the merges needed to reach a vocabulary and write that subset of the table.

Modules:
- `Symbols`: strings as symbol sequences, adjacent pairs, fusing a pair, whitespace splitting.
- `Header`: the version header.
- `CodeTable`: loading the merge table.
- `Encoding`: the meaning of encoding one word, as functions.
- `Encoder`: the `BPE` object as a class with its cache, and the loops of the encoder.
- `PairStats`: the specification of the learner's tables and the proof that incremental updates keep them exact.
- `Selection`: the order `max` picks the next merge by.
- `Learning`: the learner as a class. Its vocabulary is an array changed in place, and its tables are map fields.
- `Vocabulary`: reading the vocabulary, the initial sorted list, a whole run and the restricted vocabulary.

Most loops of the source are methods proved against a specification function, with what the source promises proved about that function. The learner's two merge loops (forced merges and greedy merges) are specified differently, by trace predicates (`ForcedRun`, `GreedyRun`):
- each round's new state is a function of the previous one (`ForcedStep`, `GreedyStep`);
- those functions are built from table functions: `Choose` picks the pair and refills the working table, `Paired` shifts a table by a merge, and `Pruned` and `PrunedInto` prune.

The main results:
- **Exact tables.** After `get_pair_statistics`, the pair table and the index are exactly the counts of the vocabulary. One `do_pair` step keeps this, under two conditions: the tables were exact before, and no word already holds the merged symbol. After the step, the table is exact, and so is the index except on the merged pair's own row (`ExactBut`). This is a single-step fact: it does not chain over a whole run, because that row is not a recount.
- **Unique merge choice.** The most frequent pair is unique under the `(frequency, pair)` order.
- **Determined merges.** Every learned merge is the most frequent pair of its round's working table and reaches `min_frequency` (`GreedyPicks`). Two runs on the same input learn the same merges and stop for the same reason (`LearnRunUnique`).
- **Encoding round trip.** Encoding a word gives pieces that spell the word again (`EncodeWordSpelling`). This holds under four conditions:
  - the version is known (0.1 or 0.2), and under 0.2 the word is nonempty;
  - the word holds no `</w>`, which the marker stripping (apply_bpe.py:306) would erase;
  - the reverse map is well formed, and with a vocabulary no merge fuses to the bare `</w>` (`SplitReady`);
  - with a vocabulary, every merge whose fused string ends in `</w>` has the whole marker in its right half (`EndAligned`). A merge such as `x</` + `w>` would leave `right[:-4]` empty (apply_bpe.py:324).
- **Forcecodes round trip.** A merge file the learner writes reads back, as intended, as the merges it holds (`ForceCodesRoundTrip`).
- **Closed subset.** The merges `write_subset` keeps are closed under their prerequisites.

## Model

| member | source | states |
|---|---|---|
| Symbols.Written | apply_bpe.py:49-50 | a symbol ending in `</w>` loses the marker; any other gets the separator appended |
| Symbols.StripEnd | apply_bpe.py:52-53 | a symbol ending in `</w>` loses the marker; any other is unchanged |
| Symbols.Chars | apply_bpe.py:261 | `tuple(orig)`: one one-character symbol per character |
| Symbols.ConcatChars | apply_bpe.py:261 | the characters of a string spell it again |
| Symbols.Adj | apply_bpe.py:240-250 | the adjacent pairs of a word, one per position, in order |
| Symbols.PairSet | apply_bpe.py:240-250 | `get_pairs`: a pair is in the set iff the word has it at some position |
| Symbols.InAdj | apply_bpe.py:240-250 | the pair list and the pair set agree |
| Symbols.CountPositive | learn_bpe.py:183-188 | a word's count of a pair is positive iff the word has the pair |
| Symbols.IndexFrom | apply_bpe.py:282 | `word.index(x, i)`: the first position from i holding x, or none |
| Symbols.FuseConcat | apply_bpe.py:279-295 | fusing a pair never changes what the symbols spell |
| Symbols.FuseLength | apply_bpe.py:279-295 | fusing shortens the word iff it has the pair, and otherwise leaves it unchanged |
| Symbols.FuseRemovesPair | apply_bpe.py:279-295 | after fusing a pair of nonempty symbols, the pair no longer occurs |
| Symbols.FuseHead | apply_bpe.py:289-294 | the first symbol after fusing is the fused pair when the word starts with it, else the old first symbol |
| Symbols.FuseLastSuffix | apply_bpe.py:279-295 | fusing keeps the suffix (the marker) of the last symbol |
| Symbols.FuseNonEmpty | apply_bpe.py:279-295 | fusing keeps every symbol nonempty |
| Symbols.SplitWs | apply_bpe.py:153 | `str.split()`: every token is nonempty and free of Python whitespace |
| Symbols.SplitJoin | apply_bpe.py:153-155 | splitting space-joined tokens gives the tokens back |
| Header.DigitStrValue | apply_bpe.py:68 | the decimal digits written for n read back as n |
| Header.ParseIntStr | apply_bpe.py:77 | `int()` reads back a written integer, with trailing whitespace such as the newline |
| Header.ParseIntNegative | apply_bpe.py:77 | `int()` accepts a minus sign before the digits |
| Header.ParseIntWritten | apply_bpe.py:77 | `int()` reads a numeral, with or without a minus sign, before trailing whitespace, as its decimal value |
| Header.WriteHeader | apply_bpe.py:67-68 | the header line starts with `#version: ` |
| Header.MaybeHeaderVersion | apply_bpe.py:75-79 | no version exactly when the line does not start with `#version: ` |
| Header.HeaderRoundTrip | apply_bpe.py:67-79 | reading a written header gives back the two version numbers |
| CodeTable.CodeOf | apply_bpe.py:95 | a merge line is a pair of two nonempty symbols |
| CodeTable.LoadProblem | apply_bpe.py:87-95 | loading fails exactly on a malformed table; a header with a non-integer part is `BadHeader` |
| CodeTable.TableVersion | apply_bpe.py:87-92 | the version is the header's, or (0, 1) without a header |
| CodeTable.TableCodes | apply_bpe.py:95 | the pairs of the merge lines in order, the header skipped |
| CodeTable.RankTable | apply_bpe.py:98 | every pair of the table is ranked by its first line, and nothing else is ranked |
| CodeTable.FirstOccurrence | apply_bpe.py:98 | no line before a pair's rank holds that pair |
| CodeTable.OrderedCodes | apply_bpe.py:121-122 | `ordered_codes`: every ranked pair once, with its rank, by strictly increasing rank |
| CodeTable.ReverseTable | apply_bpe.py:100 | every merge's fused symbol maps to a merge of the table that fuses to it |
| CodeTable.ReverseTableWellFormed | apply_bpe.py:100 | the reverse map splits every key into two nonempty, shorter halves |
| CodeTable.Below | apply_bpe.py:130-135 | the symbols `prereqs` reaches from a symbol include the symbol itself |
| CodeTable.BelowTransitive | apply_bpe.py:130-135 | whatever is reached from a reached symbol is reached too |
| CodeTable.BelowClosed | apply_bpe.py:126-135 | the halves (longer than one character) of a reached merge are reached |
| CodeTable.Roots | apply_bpe.py:136-138 | a fused symbol is a root iff its written form is in the vocabulary |
| CodeTable.ClosureAdd | apply_bpe.py:136-138 | adding a root adds exactly what it reaches |
| CodeTable.PrereqsClosed | apply_bpe.py:124-139 | the prerequisite set holds every root and both multi-character halves of every merge it holds |
| CodeTable.SelectPairsMembers | apply_bpe.py:145-148 | the kept merges are exactly the wanted ones |
| CodeTable.SelectPairsOrdered | apply_bpe.py:145-148 | the kept merges stay in the table's rank order |
| CodeTable.PairLines | apply_bpe.py:59-60 | one `a b` line per pair, in order |
| Encoding.InitialSymbols | apply_bpe.py:260-263 | version 0.1: the characters then `</w>`; 0.2: the marker glued to the last character |
| Encoding.InitialSymbolsSpell | apply_bpe.py:260-263 | the initial symbols spell the word and the marker, are nonempty, and the last ends in the marker |
| Encoding.BestRanked | apply_bpe.py:273-275 | a ranked pair of the list with the least rank, or none when no pair is ranked |
| Encoding.MinRanked | apply_bpe.py:273-275 | the least-ranked pair the word has, or none when it has no ranked pair |
| Encoding.MinRankedUnique | apply_bpe.py:273-275 | the `min` is determined: ranks are distinct, so the least-ranked pair is that one |
| Encoding.MergeLoop | apply_bpe.py:272-300 | the merge loop ends with at least one symbol and never lengthens the word |
| Encoding.MergeLoopStops | apply_bpe.py:272-300 | the loop ends with one symbol, or with no ranked pair left |
| Encoding.MergeLoopSpelling | apply_bpe.py:272-300 | merging keeps the spelling, nonempty symbols and the marker at the end |
| Encoding.RemoveMarkerTail | apply_bpe.py:306 | `replace(endword, '')` on a marker-free symbol plus marker gives the symbol |
| Encoding.StripMarker | apply_bpe.py:302-306 | a bare marker is dropped, a glued one removed, any other word kept |
| Encoding.StripMarkerSpelling | apply_bpe.py:302-306 | after stripping, the symbols spell the original word |
| Encoding.DropEnd | apply_bpe.py:324 | `right[:-4]` drops the last four characters |
| Encoding.RecursiveSplit | apply_bpe.py:317-342 | `recursive_split` yields at least one piece |
| Encoding.RecursiveSplitSettled | apply_bpe.py:317-342 | every piece is accepted by the vocabulary or cannot be split further |
| Encoding.HalfSettled | apply_bpe.py:332-342 | a half is kept when accepted and otherwise split further into settled pieces |
| Encoding.RecursiveSplitSpelling | apply_bpe.py:317-342 | the pieces spell the split segment |
| Encoding.SplitPiece | apply_bpe.py:352-365 | an accepted segment is kept; any other is split recursively |
| Encoding.CheckVocabSpelling | apply_bpe.py:345-367 | `check_vocab_and_split` keeps the word's spelling |
| Encoding.CheckVocabKeeps | apply_bpe.py:345-367 | a word whose segments are all accepted is returned unchanged |
| Encoding.EncodeWord | apply_bpe.py:253-314 | fails exactly for an unknown version (NotImplemented) or an empty word under 0.2 |
| Encoding.EncodeWordMerged | apply_bpe.py:267-311 | a word with a pair is merged, stripped, then split when a vocabulary is given |
| Encoding.EncodeWordSpelling | apply_bpe.py:253-314 | for a known version (and under 0.2 a nonempty word), a word without `</w>` in it, a well-formed reverse map (with a vocabulary: no merge to the bare marker, and marker halves aligned), encoding succeeds and the pieces spell the word |
| Encoding.MergedNonempty | apply_bpe.py:267-306 | a word with a pair keeps at least one symbol after merging and stripping the marker |
| Encoding.StripNonempty | apply_bpe.py:302-306 | stripping the marker from symbols that spell a nonempty word and the marker leaves at least one symbol |
| Encoding.MergedSpelling | apply_bpe.py:267-311 | merging, stripping and splitting a word with a pair keep its spelling |
| Encoder.MergeStep | apply_bpe.py:277-295 | the inner scan builds exactly the word with the pair fused |
| Encoder.MergeStride | apply_bpe.py:280-294 | one pass of the inner scan copies up to the next first half and fuses or copies there, keeping the fused result |
| Encoder.ApplyMerges | apply_bpe.py:272-300 | the merge loop computes `MergeLoop` |
| Encoder.ReadVocabularySet | apply_bpe.py:370-381 | fails iff some line is not a word and an integer; otherwise a word is in the set iff some line gives it a count at or above the threshold |
| Encoder.ReadVocabularyLine | apply_bpe.py:377-379 | fails iff the line is not a word and an integer; otherwise adds exactly the word it admits at the threshold |
| Encoder.AdmitsStep | apply_bpe.py:376-379 | one more line extends the set to exactly the words admitted by the lines read so far |
| Encoder.SelectLines | apply_bpe.py:145-148 | the loop writes the lines of the selected pairs |
| Encoder.Separate | apply_bpe.py:177-182 | every item but the last gets the separator |
| Encoder.AttachSeparators | apply_bpe.py:177-182 | the loop attaches separators as `Separate` says |
| Encoder.Bpe.constructor | apply_bpe.py:84-119 | version from the header or (0, 1); codes in line order; ranks and reverse map from them; empty cache |
| Encoder.Bpe.CheckVocabAndSplit | apply_bpe.py:345-367 | the loop computes `check_vocab_and_split` |
| Encoder.Bpe.Encode | apply_bpe.py:253-314 | the result is the word's encoding, cached or not; a new word is cached iff it merged |
| Encoder.Bpe.MergeAndSplit | apply_bpe.py:267-311 | merge, strip and split give the word's encoding |
| Encoder.Bpe.AddToCache | apply_bpe.py:313 | the cache gains the word and its encoding and stays valid |
| Encoder.Bpe.UnitsFailure | apply_bpe.py:161-176 | the first failing segment decides the word |
| Encoder.Bpe.EncodeSegments | apply_bpe.py:161-176 | nonempty non-glossary segments are encoded, glossary matches kept, empty ones skipped |
| Encoder.Bpe.EncodeSegment | apply_bpe.py:162-176 | one round extends the items of the segments so far by those of the next segment, or fails with its encoding |
| Encoder.Bpe.UnitsStep | apply_bpe.py:162-176 | the next segment adds nothing when empty, itself at an odd position, and its encoding at an even one |
| Encoder.Bpe.Pieces | apply_bpe.py:157-183 | `pieces` gives the word's pieces with separators; cached words stay cached |
| Encoder.Bpe.SentenceFailure | apply_bpe.py:150-155 | the first failing word decides the sentence |
| Encoder.Bpe.Segment | apply_bpe.py:150-155 | the sentence's pieces, word after word, joined by single spaces, or the first failure |
| Encoder.Bpe.Visit | apply_bpe.py:130-135 | the inner `prereqs` adds exactly what a symbol of length over one reaches |
| Encoder.Bpe.Expand | apply_bpe.py:126-129 | `prereqs2` adds exactly what a merged symbol reaches |
| Encoder.Bpe.Prereqs | apply_bpe.py:124-139 | the result is the closure of the vocabulary's merges under their halves |
| Encoder.Bpe.WriteSubset | apply_bpe.py:141-148 | fails with the `IndexError` of `write_header` (line 68) exactly when the version has fewer than two components; otherwise the header, then the lines of the wanted merges in rank order |
| PairStats.TimesAdd | learn_bpe.py:186 | repeated addition of a frequency distributes over a sum of counts |
| PairStats.PairsOfMeaning | learn_bpe.py:174-190 | a pair is in the table iff some word has it |
| PairStats.PairsOfHas | learn_bpe.py:183-188 | the first pair of a word of two or more symbols is in the table |
| PairStats.FuseCount | learn_bpe.py:115-171 | after a merge, a word's count of another pair is its old count, less what the first scan retracts, plus what the second credits |
| PairStats.FuseTimes | learn_bpe.py:115-171 | the same, weighted by the word's frequency |
| PairStats.MatchedOnly | learn_bpe.py:136 | only the merged pair itself is lost in the matched occurrences |
| PairStats.Replaced | learn_bpe.py:193-215 | replacing keeps the number of words |
| PairStats.ReplacedEntry | learn_bpe.py:204-213 | a replaced word keeps its frequency, and its weighted count of another pair shifts by its change |
| PairStats.ReplacedClean | learn_bpe.py:204-213 | after replacement, no indexed word holds the merged pair |
| PairStats.ChangesOfStep | learn_bpe.py:204-213 | one change per word whose index entry is at least 1, in word order |
| PairStats.RecountShift | learn_bpe.py:115-171 | per-word shifts add up to the shift of the whole count |
| PairStats.StatsShiftPrefix | learn_bpe.py:125-171 | the total shift of a pair is the sum of the per-word shifts |
| PairStats.IndexShiftPrefix | learn_bpe.py:125-171 | a word's index entry shifts only by its own change |
| PairStats.RecountZero | learn_bpe.py:221 | a pair no word holds has count 0 |
| PairStats.DoPairExact | learn_bpe.py:115-221 | after a merge, the table entries (the merged pair at 0) and index entries (other pairs) are the recount of the new vocabulary |
| PairStats.MergedPairExact | learn_bpe.py:221 | the merged pair's recount is 0, matching `stats[most_frequent] = 0` |
| PairStats.OtherPairExact | learn_bpe.py:115-171 | the incremental update of another pair equals its recount |
| PairStats.IndexExact | learn_bpe.py:115-171 | the incremental update of an index entry equals the recount |
| PairStats.LostSkip | learn_bpe.py:131-134 | skipping to the next first symbol loses nothing |
| PairStats.LostHit | learn_bpe.py:136-149 | at an occurrence, the scan loses the left pair and the right pair (unless it overlaps the next occurrence), then continues two on |
| PairStats.LostEnd | learn_bpe.py:133-134 | nothing is lost past the end |
| PairStats.GainedSkip | learn_bpe.py:155-158 | skipping to the next fused symbol gains nothing |
| PairStats.GainedHit | learn_bpe.py:160-171 | at a fused symbol, the scan gains the left pair and the right pair unless the right one is fused too |
| Selection.StrLtIrreflexive | learn_bpe.py:286 | string order is irreflexive |
| Selection.StrLtTransitive | learn_bpe.py:286 | string order is transitive |
| Selection.StrLtTotal | learn_bpe.py:286 | string order is total |
| Selection.StrLtAsymmetric | learn_bpe.py:286 | string order is asymmetric |
| Selection.PairLtTotal | learn_bpe.py:286 | tuple order on pairs is total |
| Selection.PairLtAsymmetric | learn_bpe.py:286 | tuple order on pairs is asymmetric and irreflexive |
| Selection.PairLtTransitive | learn_bpe.py:286 | tuple order on pairs is transitive |
| Selection.KeyLtTotal | learn_bpe.py:286 | of two distinct pairs, exactly one has the lower `(frequency, pair)` key |
| Selection.KeyLtTransitive | learn_bpe.py:286 | the key order is transitive |
| Selection.MostFrequentUnique | learn_bpe.py:286 | `max` picks one determined pair: a table has at most one most frequent pair |
| Selection.MostFrequentExists | learn_bpe.py:286 | every nonempty table has a most frequent pair |
| Learning.PrefixWhole | learn_bpe.py:183-188 | the running count over a word's prefix is the pair count of that prefix |
| Learning.WholeWord | learn_bpe.py:183-188 | after the whole word, the running counts are the word's pair counts and pairs |
| Learning.SubMore | learn_bpe.py:140-148 | one more decrement of a pair extends the tally of decrements by that pair |
| Learning.AddMore | learn_bpe.py:163-170 | one more increment of a pair extends the tally of increments by that pair |
| Learning.SubBoth | learn_bpe.py:128-151 | two rounds of decrements take off the sum of their tallies |
| Learning.AddBoth | learn_bpe.py:153-171 | two rounds of increments add the sum of their tallies |
| Learning.DoPairExactBut | learn_bpe.py:218-221 | starting from exact tables, after a merge the table is exact and the index is exact except on the merged pair's own row |
| Learning.CutMeans | learn_bpe.py:255 | a frequency is below the integer cut iff it is below the fractional threshold `num / den` |
| Learning.MostFrequentPart | learn_bpe.py:289-292 | the most frequent pair of a table stays most frequent in any part of it that keeps it |
| Learning.Learner.constructor | learn_bpe.py:250-253 | the array holds the sorted vocabulary; the tables and codes start empty |
| Learning.Add | learn_bpe.py:163-170 | `stats[q] += freq`, `indices[q][j] += 1`, nothing else changes |
| Learning.Sub | learn_bpe.py:140-148 | `stats[q] -= freq`, `indices[q][j] -= 1`, nothing else changes |
| Learning.GetPairStatistics | learn_bpe.py:174-190 | the table is the frequency-weighted pair counts of the vocabulary, holds exactly its pairs, and the index holds each word's counts |
| Learning.CountWord | learn_bpe.py:183-188 | one word adds its weighted pair counts to the table and its counts to its index column |
| Learning.Retract | learn_bpe.py:128-151 | the first scan subtracts the weighted lost pairs and decrements their index entries |
| Learning.RetractStride | learn_bpe.py:129-151 | one round of the first scan: nothing when p no longer occurs, else the pairs around its next occurrence, going on after it |
| Learning.RetractAt | learn_bpe.py:136-149 | one occurrence retracts its left and right pairs |
| Learning.HitLostParts | learn_bpe.py:136-149 | the pairs lost at an occurrence are its left pair (if any) and its right pair (if any, and not overlapping the next occurrence) |
| Learning.SubSome | learn_bpe.py:140-148 | an absent neighbour changes nothing; a present one is decremented once |
| Learning.Credit | learn_bpe.py:153-171 | the second scan adds the weighted gained pairs and increments their index entries |
| Learning.CreditStride | learn_bpe.py:154-171 | one round of the second scan: nothing when no fused symbol is left, else the pairs around the next one |
| Learning.CreditAt | learn_bpe.py:160-170 | one fused symbol credits its left and right pairs |
| Learning.Learner.UpdatePairStatistics | learn_bpe.py:115-171 | the merged pair is reset to 0 and every pair shifts by the sum of the changes' shifts, in the table and the index |
| Learning.Learner.ReplacePair | learn_bpe.py:193-215 | every indexed word has the pair fused in place; the changes list old and new word with frequency |
| Learning.Learner.DoPair | learn_bpe.py:218-221 | the merge is recorded, the vocabulary replaced, the table becomes `Paired` of the old state and the index `IndexPaired`; exact tables stay exact (`ExactBut`) |
| Learning.Learner.PruneStats | learn_bpe.py:224-237 | entries below the cut leave the table; the backup gains them, adding negative ones and setting others; the new tables are `Pruned` and `PrunedInto` of the old ones |
| Learning.Learner.MostFrequent | learn_bpe.py:286 | the result is the table's most frequent pair |
| Learning.Learner.Select | learn_bpe.py:284-295 | the pick, the tables and the threshold are `Choose` of the old tables: the working table's most frequent pair when it is kept; otherwise the backup refilled with the pruned entries, a new threshold `f*i/(i+10000)` from its top pair, and the refilled table pruned below it; the pick is most frequent in the resulting table |
| Learning.Learner.Learn | learn_bpe.py:240-306 | the run is a `LearnRun` from the initial vocabulary (exact start, forced merges, greedy rounds); the codes are the forced merges then the picks, at most `num_symbols`, exactly that many unless stopped |
| Learning.Learner.Prepare | learn_bpe.py:252-255 | exact tables, backup equal to the table, first threshold a tenth of the top frequency (`Started`) |
| Learning.Learner.ForceMerges | learn_bpe.py:257-282 | the forced pairs are merged in order against the backup table, each round a `ForcedStep` (words `Replaced`, backup `Paired`, index `IndexPaired`); the working table is left empty |
| Learning.Learner.GreedyRound | learn_bpe.py:285-306 | one round stops iff `Choose`'s pick is below `min_frequency`; otherwise the new state is the `GreedyStep` of the old one and the codes gain the pick |
| Learning.Learner.GreedyMerges | learn_bpe.py:284-306 | the rounds form a `GreedyRun`: `AllMerges` iff `num_symbols` rounds ran, `TooRare` only when the next top pair is below `min_frequency`; the codes gain exactly the picks |
| Learning.Best | learn_bpe.py:286 | a most frequent pair of a nonempty table |
| Learning.RefillKeeps | learn_bpe.py:231-237 | pruning into the backup keeps every backup key, so a nonempty backup stays nonempty |
| Learning.ChoosePicksBest | learn_bpe.py:284-295 | the pick is most frequent in the working table the round ends with; a kept table and threshold are left alone; the backup only gains keys |
| Learning.RefillFacts | learn_bpe.py:288-295 | after a refill: the pick is the best of the refilled table, the threshold is `f*i/(i+10000)` of its frequency, the table is pruned below it; if that prunes the pick itself (only possible when it is negative), the table is the pick alone at 0, since reading a missing key of the `defaultdict` inserts 0 |
| Learning.BelowOwnCut | learn_bpe.py:294-295 | a top frequency below its own new threshold is negative, and the threshold is then at most 0 |
| Learning.PrunedAway | learn_bpe.py:295 | when the top pair is below the threshold, pruning empties the table |
| Learning.GreedyPicks | learn_bpe.py:284-303 | every learned merge is the most frequent pair of its round's working table and reaches `min_frequency` |
| Learning.ChangesOfSame | learn_bpe.py:204-213 | the change list depends on the index only through the vocabulary's words |
| Learning.MergeSame | learn_bpe.py:193-221 | a merge from indexes that agree on the words gives the same words and changes, and indexes that agree again |
| Learning.ForcedStepUnique | learn_bpe.py:279 | one forced merge from alike states gives alike states |
| Learning.GreedyStepUnique | learn_bpe.py:285-306 | one greedy round from alike states picks the same pair and threshold and gives alike states |
| Learning.ForcedRunUnique | learn_bpe.py:272-281 | forced merges from alike states stay alike round by round |
| Learning.GreedyPrefixUnique | learn_bpe.py:284-306 | greedy rounds from alike states pick the same pairs round by round |
| Learning.GreedyRunUnique | learn_bpe.py:284-306 | two greedy loops from alike states learn the same merges and end the same way |
| Learning.StartedUnique | learn_bpe.py:252-255 | the starting tables and threshold are determined by the vocabulary |
| Learning.LearnRunUnique | learn_bpe.py:240-306 | two runs on the same vocabulary, settings and forced merges learn the same merges and end the same way |
| Vocabulary.DictStops | learn_bpe.py:80-86 | reading stops at the first line whose count is below mincount; later lines, even malformed ones, are not read |
| Vocabulary.DictCountsAbove | learn_bpe.py:84-86 | every count read from a word/count list is at least mincount |
| Vocabulary.CountsMeaning | learn_bpe.py:87-89 | the counter holds exactly the tokens seen, each with its number of occurrences |
| Vocabulary.TextVocabMeaning | learn_bpe.py:87-91 | text mode: a word is kept iff it occurs and, when mincount exceeds 1, occurs at least mincount times |
| Vocabulary.GetVocabulary | learn_bpe.py:76-92 | `get_vocabulary`: the list reading or the filtered token counts, `None` on a malformed list line |
| Vocabulary.ReadDictionary | learn_bpe.py:80-86 | the list-reading loop computes `DictScan` |
| Vocabulary.CountTokens | learn_bpe.py:87-89 | the counting loop computes the token counts |
| Vocabulary.CountLine | learn_bpe.py:88-89 | the counter after one more line is that of the tokens seen so far followed by the line's |
| Vocabulary.VocabAboveMincount | learn_bpe.py:76-92 | every count `get_vocabulary` returns is at least mincount |
| Vocabulary.VocabWords | learn_bpe.py:76-92 | every word `get_vocabulary` returns is a nonempty whitespace-free token |
| Vocabulary.MincountIgnored | learn_bpe.py:248 | as written, `main` learns from a once-seen word even with mincount 2, which mincount 2 would have dropped |
| Vocabulary.Initial | learn_bpe.py:250 | each word becomes its initial symbols for the chosen version, with its frequency |
| Vocabulary.InitialSpell | learn_bpe.py:250 | each initial entry spells its word followed by `</w>` |
| Vocabulary.Insert | learn_bpe.py:250 | insertion keeps the order non-increasing and adds exactly the one entry |
| Vocabulary.HeadSorted | learn_bpe.py:250 | a head no lower than the first entry keeps the order |
| Vocabulary.SortByFrequency | learn_bpe.py:250 | the same entries (as a multiset), by non-increasing frequency |
| Vocabulary.SortedReady | learn_bpe.py:250-255 | the sorted list holds no empty word and has a word with a pair |
| Vocabulary.CodeLines | learn_bpe.py:246 | the header line for the version, then one `a b` line per merge |
| Vocabulary.ForcedLines | learn_bpe.py:279 | the forced merges' lines directly follow the header |
| Vocabulary.LearnCodes | learn_bpe.py:240-306 | the lines are the header, then the forced merges, then the picks of a `LearnRun` on the sorted initial vocabulary; at most `num_symbols` learned merges, exactly that many when not stopped |
| Vocabulary.Train | learn_bpe.py:250-306 | a fresh learner on the sorted list makes a `LearnRun` and gives the forced merges followed by its picks |
| Vocabulary.Items | learn_bpe.py:250 | every vocabulary entry is listed once with its count, and every listed entry is one |
| Vocabulary.LearnFromLines | learn_bpe.py:240-308 | fails iff the vocabulary cannot be read, no word has a pair, or (after both pass) a forcecodes line is not a pair; otherwise writes the header, returns the vocabulary (every count at least mincount) and the lines of a `LearnRun` on its sorted initial form, forcing the merges the forcecodes file holds |
| Vocabulary.LearnFromVocabulary | learn_bpe.py:246-306 | from a read vocabulary: fails with `NoPairs` iff no word has a pair, else with `BadForceCodes` iff a forcecodes line is not a pair; otherwise the lines of a `LearnRun` on its sorted initial form with the forcecodes merges forced |
| Vocabulary.ForcePairs | learn_bpe.py:272-275 | succeeds iff every line holds exactly two tokens, and then gives one pair per line, made of that line's tokens |
| Vocabulary.ForceCodesRoundTrip | learn_bpe.py:271-281 | the lines the learner writes, read as a forcecodes file (the header line skipped), give back exactly the merges written |
| Vocabulary.ForceCodesAsWritten | learn_bpe.py:271-273 | as written, the loop fails (`NameError`) iff the forcecodes file has a line; an empty file forces nothing |
| Vocabulary.ForceCodesNameError | learn_bpe.py:273 | the learner's own output `#version: 0.2` / `a b` is refused as written and read as the merge `(a, b)` as intended |
| Vocabulary.AddPiecesMeaning | learn_bpe.py:104-105 | each piece gains the word's count once per occurrence |
| Vocabulary.RestrictedVocabulary | learn_bpe.py:100-106 | the piece counts over all words, or the first encoding failure |
| Vocabulary.CountPieces | learn_bpe.py:104-105 | the counts after one word are `AddPieces` of its pieces, whose meaning `AddPiecesMeaning` states |
| Vocabulary.RestrictedFailure | learn_bpe.py:103-105 | a failure on any word is the failure of the whole list |
| Vocabulary.RestrictedStep | learn_bpe.py:103-105 | one more word extends the piece counts as `RestrictedOf` says, keeping the encoder's cache valid; a failure on it is the failure of the whole list |

## Left out

- Command-line parsing, file opening and UTF-8 codecs are not modelled. Reading and writing files becomes sequences of lines, and logging to stderr is dropped.
- `--grepforcecodes` (a regular expression filter on forced merges) is not modelled; forced merges are all applied.
- The forcecodes file is read as intended (`ForceCodes`), not as written: see Findings. Its lines are given as a list; opening the file is not modelled.
- `Vocabulary.LearnFromLines`: a failed run is `Failed(why)` with no output lines. The source writes the version header first (learn_bpe.py:246), before `get_vocabulary` (learn_bpe.py:248) or the first `max` (learn_bpe.py:255) can raise. So a `BadVocabulary` or `NoPairs` run leaves the header line in the output file, and a `BadForceCodes` run leaves the header and the forced merges made before the bad line.
- Glossary isolation (`re.split` on the glossary pattern) is a given function on the `Bpe` object. The regular expressions themselves are not modelled.
- The `unkchar`/`unktag` branch of `encode` (apply_bpe.py:308-309) is not modelled. It compares a tuple with a string, so it is never taken.
- Thresholds: the source compares integers with floating-point thresholds (`max / 10`, `f * i / (i + 10000.0)`). The model uses the exact integer cut `Cut(num, den)`, proved equivalent to exact division by `CutMeans`. Floating-point rounding for very large counts is not captured.
- `int()` on a count or version part: the model accepts optional surrounding whitespace, a sign and ASCII digits. Python also accepts underscores between digits and non-ASCII decimal digits.
- A merge line must hold exactly two symbols to be loaded (`CodeOf`); any other line is a `BadLine`. The source behaves differently, and the model does not follow it:
  - A blank line makes the constructor raise `IndexError` at `pair[0]`, and a one-token line at `pair[1]` (apply_bpe.py:100).
  - A line of three or more tokens is stored as a longer tuple. It never matches a pair during merging.
  - But if it comes before the two-token line for the same first two tokens, it takes their fused string's entry in the reverse map. `recursive_split` then fails to unpack it, its bare `except` swallows the `ValueError` (apply_bpe.py:321-330), and the segment stays unsplit.
  - When `write_subset` selects such a tuple, `write_pair` raises `TypeError` formatting it (apply_bpe.py:59-60, 148).
- `Encoder.Bpe.constructor`: requires that, when a vocabulary is given, no merge fuses to the bare `</w>`. On such a table `recursive_split` recurses without end, until CPython raises `RecursionError` at its recursion limit.
- `Learning.Learner.ReplacePair`: visits the indexed words in increasing word order, where the source uses the index dictionary's insertion order. The resulting vocabulary and tables are the same; only the order of the change list differs.
- `Learning.Learner.DoPair`: exactness is stated for the table and for every index row but the merged pair's own. `update_pair_statistics` empties that row and then lets its scans move it, so it can become negative (e.g. `A A A` merging `(A, A)`). The model states what the row becomes, but not that it is a recount.
- `Learning.Learner.DoPair`: exactness needs the merged symbol to be absent from every word before the merge. If a word already holds the fused symbol, `update_pair_statistics` double-counts pairs around it.
- `Learning.Learner.Select`: requires a nonempty backup table. This always holds once the first statistics have a pair. When no word has a pair, the source's first `max` raises `ValueError`, which `LearnFromLines` reports as `NoPairs`.
- The run traces that `Learn`, `ForceMerges`, `GreedyMerges`, `Train`, `LearnCodes` and `LearnFromLines` return are ghost. They exist for the proofs and are not computed at run time.
- `Vocabulary.SortByFrequency`: is not proved stable. Python's `sorted` keeps ties in the vocabulary's order, but the order of equally frequent words affects only word numbering, not the merges learned.
- The iteration order of Python dictionaries (the vocabulary passed to `main` and to `restricted_vocabulary`) is taken as any order (`Items`). The learned merges do not depend on it.
- `restricted_vocabulary` on a file goes through `get_vocabulary` in text mode, and `GetVocabulary` models that reading. `RestrictedVocabulary` models the counting over the resulting entries.
- `Encoder.Bpe.Prereqs`: the optional `seen` argument of `prereqs` (apply_bpe.py:124) is not modelled. The closure always starts from the empty set, which is what its only caller, `write_subset` (apply_bpe.py:144), passes.
- `write_vocabulary` and `make_vocabularies` are not modelled; they only sort and print counts.
- `apply_bpe.py`'s `__main__` block is not modelled. It refers to `arcs.unktag`, a name it never defines.

## Findings

| source | as written | input that shows it | evidently intended | confidence | as-written member | corrected member |
|---|---|---|---|---|---|---|
| learn_bpe.py:248 | `main` takes `mincount` (and `__main__` passes `args.mincount`), but reads the vocabulary with `get_vocabulary(infile, is_dict)`, so mincount is never applied | text input `a` with mincount 2: the word `a`, seen once, is learned from | `get_vocabulary(infile, is_dict, mincount)`, so every word learned from occurs at least mincount times | medium, not executed | Vocabulary.MincountIgnored | Vocabulary.LearnFromLines |
| learn_bpe.py:273 | the forcecodes loop tests the first line with `line.startswith(versionheaderbegin)`, a name `learn_bpe.py` never defines (it lives in `apply_bpe`), so the first line of any nonempty forcecodes file raises `NameError`, after the header is written and before any forced merge | forcecodes file `#version: 0.2` / `a b` (the learner's own output): `NameError` | `apply_bpe.versionheaderbegin`: a `#version: ` first line is skipped and every other line is applied as a forced merge | high, not executed | Vocabulary.ForceCodesNameError | Vocabulary.LearnFromLines |
