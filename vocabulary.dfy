/** The vocabulary side of the learner: reading a vocabulary (a word/count
    list or running text), turning it into the sorted list of symbol
    sequences the learner starts from, the whole learning run, and the
    vocabulary of the pieces an encoder makes of a word list. */
module Vocabulary {
  import opened Symbols
  import opened Header
  import opened Encoding
  import opened Encoder
  import opened PairStats
  import opened Selection
  import opened Learning

  // ---------------------------------------------------------------------
  // get_vocabulary, dictionary mode

  /** Dictionary lines from the current one on, into the counts read so
      far: each line must hold exactly a word and an integer count (else
      the source raises `ValueError`, here `None`); the first line whose
      count is below mincount ends the reading; a repeated word takes the
      later count. */
  function DictScan(lines: seq<string>, mincount: int, acc: map<string, int>): Option<map<string, int>>
    decreases |lines|
  {
    if lines == [] then Some(acc)
    else
      var toks := SplitWs(lines[0]);
      if |toks| != 2 then None
      else match ParseInt(toks[1])
        case None => None
        case Some(c) => if c < mincount then Some(acc) else DictScan(lines[1..], mincount, acc[toks[0] := c])
  }

  /** Line k is well formed and its count is below mincount. */
  predicate Stopper(line: string, mincount: int)
  {
    var toks := SplitWs(line);
    |toks| == 2 && ParseInt(toks[1]).Some? && ParseInt(toks[1]).value < mincount
  }

  /** Reading stops at a line whose count is too low: nothing after it is
      looked at, not even a malformed line. */
  lemma {:induction false} DictStops(lines: seq<string>, mincount: int, acc: map<string, int>, k: nat)
    requires k < |lines| && Stopper(lines[k], mincount)
    ensures DictScan(lines, mincount, acc) == DictScan(lines[..k], mincount, acc)
    decreases k
  {
    if k > 0 {
      var toks := SplitWs(lines[0]);
      assert lines[..k][0] == lines[0];
      assert lines[..k][1..] == lines[1..][..k - 1];
      if |toks| == 2 && ParseInt(toks[1]).Some? && ParseInt(toks[1]).value >= mincount {
        DictStops(lines[1..], mincount, acc[toks[0] := ParseInt(toks[1]).value], k - 1);
      }
    }
  }

  /** Every count read is at least mincount. */
  lemma {:induction false} DictCountsAbove(lines: seq<string>, mincount: int, acc: map<string, int>)
    requires forall w :: w in acc ==> acc[w] >= mincount
    requires DictScan(lines, mincount, acc).Some?
    ensures forall w :: w in DictScan(lines, mincount, acc).value ==> DictScan(lines, mincount, acc).value[w] >= mincount
    decreases |lines|
  {
    if lines != [] {
      var toks := SplitWs(lines[0]);
      var c := ParseInt(toks[1]).value;
      if c >= mincount {
        DictCountsAbove(lines[1..], mincount, acc[toks[0] := c]);
      }
    }
  }

  // ---------------------------------------------------------------------
  // get_vocabulary, text mode

  /** All whitespace-separated tokens of the lines, in order. */
  function Tokens(lines: seq<string>): seq<string>
  {
    if lines == [] then [] else Tokens(lines[..|lines| - 1]) + SplitWs(lines[|lines| - 1])
  }

  /** A `Counter` fed the tokens one by one. */
  function Counts(ts: seq<string>): map<string, int>
  {
    if ts == [] then map[]
    else
      var m := Counts(ts[..|ts| - 1]);
      var t := ts[|ts| - 1];
      m[t := (if t in m then m[t] else 0) + 1]
  }

  /** One more token bumps its count by one. */
  lemma CountsSnoc(ts: seq<string>, x: string)
    ensures Counts(ts + [x]) == Counts(ts)[x := (if x in Counts(ts) then Counts(ts)[x] else 0) + 1]
  {
    assert (ts + [x])[..|ts|] == ts;
  }

  /** The counter holds exactly the tokens seen, each with its number of
      occurrences. */
  lemma {:induction false} CountsMeaning(ts: seq<string>)
    ensures forall w :: w in Counts(ts) <==> w in ts
    ensures forall w :: w in Counts(ts) ==> Counts(ts)[w] == multiset(ts)[w]
  {
    if ts != [] {
      var front := ts[..|ts| - 1];
      CountsMeaning(front);
      assert ts == front + [ts[|ts| - 1]];
      forall w ensures w in ts <==> w in front || w == ts[|ts| - 1] {
        assert w in front ==> w in ts;
      }
      forall w ensures w !in front ==> multiset(front)[w] == 0 {
      }
    }
  }

  /** Text mode: token counts, kept only when at least mincount if
      mincount exceeds 1. */
  function TextVocab(lines: seq<string>, mincount: int): map<string, int>
  {
    var counts := Counts(Tokens(lines));
    if mincount > 1 then (map w | w in counts && counts[w] >= mincount :: counts[w]) else counts
  }

  lemma TextVocabMeaning(lines: seq<string>, mincount: int, w: string)
    ensures w in TextVocab(lines, mincount) <==> w in Tokens(lines) && (mincount <= 1 || multiset(Tokens(lines))[w] >= mincount)
    ensures w in TextVocab(lines, mincount) ==> TextVocab(lines, mincount)[w] == multiset(Tokens(lines))[w]
  {
    CountsMeaning(Tokens(lines));
  }

  /** What `get_vocabulary` returns. */
  function VocabOf(lines: seq<string>, isDict: bool, mincount: int): Option<map<string, int>>
  {
    if isDict then DictScan(lines, mincount, map[]) else Some(TextVocab(lines, mincount))
  }

  /** `get_vocabulary` over the lines of its input. */
  method GetVocabulary(lines: seq<string>, isDict: bool, mincount: int) returns (r: Option<map<string, int>>)
    ensures r == VocabOf(lines, isDict, mincount)
  {
    if isDict {
      r := ReadDictionary(lines, mincount);
    } else {
      var counts := CountTokens(lines);
      if mincount > 1 {
        counts := map w | w in counts && counts[w] >= mincount :: counts[w];
      }
      r := Some(counts);
    }
  }

  /** The dictionary branch of `get_vocabulary`. */
  method ReadDictionary(lines: seq<string>, mincount: int) returns (r: Option<map<string, int>>)
    ensures r == DictScan(lines, mincount, map[])
  {
    var vocab: map<string, int> := map[];
    var i := 0;
    while i < |lines|
      invariant 0 <= i <= |lines|
      invariant DictScan(lines, mincount, map[]) == DictScan(lines[i..], mincount, vocab)
    {
      assert lines[i..][1..] == lines[i + 1..];
      var toks := SplitWs(lines[i]);
      if |toks| != 2 {
        return None;
      }
      var count := ParseInt(toks[1]);
      if count.None? {
        return None;
      }
      if count.value < mincount {
        break;
      }
      vocab := vocab[toks[0] := count.value];
      i := i + 1;
    }
    return Some(vocab);
  }

  /** The text branch of `get_vocabulary` before the mincount filter. */
  method CountTokens(lines: seq<string>) returns (vocab: map<string, int>)
    ensures vocab == Counts(Tokens(lines))
  {
    vocab := map[];
    var i := 0;
    while i < |lines|
      invariant 0 <= i <= |lines|
      invariant vocab == Counts(Tokens(lines[..i]))
    {
      assert lines[..i + 1][..i] == lines[..i];
      vocab := CountLine(vocab, Tokens(lines[..i]), SplitWs(lines[i]));
      i := i + 1;
    }
    assert lines[..i] == lines;
  }

  /** The tokens of one line, fed to the counter one by one. */
  method CountLine(vocab: map<string, int>, ghost before: seq<string>, words: seq<string>) returns (r: map<string, int>)
    requires vocab == Counts(before)
    ensures r == Counts(before + words)
  {
    r := vocab;
    assert before + words[..0] == before;
    var t := 0;
    while t < |words|
      invariant 0 <= t <= |words|
      invariant r == Counts(before + words[..t])
    {
      assert before + words[..t + 1] == (before + words[..t]) + [words[t]];
      CountsSnoc(before + words[..t], words[t]);
      r := r[words[t] := (if words[t] in r then r[words[t]] else 0) + 1];
      t := t + 1;
    }
    assert words[..t] == words;
  }

  /** Every count `get_vocabulary` returns is at least mincount: in text
      mode without the filter, counts are at least 1 anyway. */
  lemma VocabAboveMincount(lines: seq<string>, isDict: bool, mincount: int)
    ensures VocabOf(lines, isDict, mincount).Some? ==>
      forall w :: w in VocabOf(lines, isDict, mincount).value ==> VocabOf(lines, isDict, mincount).value[w] >= mincount
  {
    if isDict {
      if DictScan(lines, mincount, map[]).Some? {
        DictCountsAbove(lines, mincount, map[]);
      }
    } else {
      CountsMeaning(Tokens(lines));
    }
  }

  /** Every word `get_vocabulary` returns is a whitespace-free token. */
  lemma VocabWords(lines: seq<string>, isDict: bool, mincount: int)
    ensures VocabOf(lines, isDict, mincount).Some? ==>
      forall w :: w in VocabOf(lines, isDict, mincount).value ==> IsToken(w)
  {
    if isDict {
      if DictScan(lines, mincount, map[]).Some? {
        DictWords(lines, mincount, map[]);
      }
    } else {
      CountsMeaning(Tokens(lines));
      TokensAreTokens(lines);
    }
  }

  lemma {:induction false} DictWords(lines: seq<string>, mincount: int, acc: map<string, int>)
    requires forall w :: w in acc ==> IsToken(w)
    requires DictScan(lines, mincount, acc).Some?
    ensures forall w :: w in DictScan(lines, mincount, acc).value ==> IsToken(w)
    decreases |lines|
  {
    if lines != [] {
      var toks := SplitWs(lines[0]);
      var c := ParseInt(toks[1]).value;
      if c >= mincount {
        assert IsToken(toks[0]) by {
          assert toks[0] in toks;
        }
        DictWords(lines[1..], mincount, acc[toks[0] := c]);
      }
    }
  }

  lemma {:induction false} TokensAreTokens(lines: seq<string>)
    ensures forall t :: t in Tokens(lines) ==> IsToken(t)
  {
    if lines != [] {
      TokensAreTokens(lines[..|lines| - 1]);
    }
  }

  /** What `main` reads, as written: `get_vocabulary(infile, is_dict)`,
      so the mincount it is given never reaches the reading. */
  function MainVocabularyAsWritten(lines: seq<string>, isDict: bool, mincount: int): Option<map<string, int>>
  {
    VocabOf(lines, isDict, 1)
  }

  /** With mincount 2, a word seen once still enters learning. */
  lemma MincountIgnored()
    ensures MainVocabularyAsWritten(["a"], false, 2) == Some(map["a" := 1])
    ensures VocabOf(["a"], false, 2) == Some(map[])
  {
    assert SplitWs("a") == ["a"] by {
      assert TokenLength("a") == 1;
      assert "a"[..1] == "a" && "a"[1..] == "";
    }
    assert ["a"][..0] == [];
    assert Tokens(["a"]) == ["a"];
    assert ["a"][..|["a"]| - 1] == [];
    assert Counts(["a"]) == map["a" := 1];
  }

  // ---------------------------------------------------------------------
  // The list the learner starts from

  /** Every word of the vocabulary as its initial symbols (the characters,
      with the end marker detached under version 0.1 and glued to the last
      character under 0.2), with its frequency. */
  function Initial(items: seq<(string, int)>, version01: bool): (r: seq<Entry>)
    requires forall k :: 0 <= k < |items| ==> items[k].0 != ""
    ensures |r| == |items|
    ensures forall k :: 0 <= k < |r| ==> r[k] == (InitialSymbols(items[k].0, version01), items[k].1)
  {
    seq(|items|, k requires 0 <= k < |items| => (InitialSymbols(items[k].0, version01), items[k].1))
  }

  /** The symbols of every initial entry spell its word and the marker. */
  lemma InitialSpell(items: seq<(string, int)>, version01: bool)
    requires forall k :: 0 <= k < |items| ==> items[k].0 != ""
    ensures forall k :: 0 <= k < |items| ==> Concat(Initial(items, version01)[k].0) == items[k].0 + EndWord
  {
    forall k | 0 <= k < |items| ensures Concat(Initial(items, version01)[k].0) == items[k].0 + EndWord {
      InitialSymbolsSpell(items[k].0, version01);
    }
  }

  predicate NonIncreasing(s: seq<Entry>)
  {
    forall a, b :: 0 <= a < b < |s| ==> s[a].1 >= s[b].1
  }

  /** Insert e before the first entry with a lower frequency. */
  function Insert(s: seq<Entry>, e: Entry): (r: seq<Entry>)
    requires NonIncreasing(s)
    ensures multiset(r) == multiset(s) + multiset{e}
    ensures |r| == |s| + 1 && (r[0] == e || (s != [] && r[0] == s[0]))
    ensures NonIncreasing(r)
  {
    if s == [] then [e]
    else if s[0].1 < e.1 then [e] + s
    else
      var rest := Insert(s[1..], e);
      InsertBehind(s, e, rest);
      [s[0]] + rest
  }

  /** Putting the head back in front of e inserted into the tail. */
  lemma InsertBehind(s: seq<Entry>, e: Entry, rest: seq<Entry>)
    requires s != [] && NonIncreasing(s) && s[0].1 >= e.1
    requires multiset(rest) == multiset(s[1..]) + multiset{e} && |rest| == |s|
    requires rest[0] == e || (s[1..] != [] && rest[0] == s[1..][0])
    requires NonIncreasing(rest)
    ensures multiset([s[0]] + rest) == multiset(s) + multiset{e}
    ensures NonIncreasing([s[0]] + rest)
  {
    assert s == [s[0]] + s[1..];
    HeadSorted(s[0], rest);
  }

  /** A sorted list stays sorted under a head no lower than its own. */
  lemma HeadSorted(h: Entry, s: seq<Entry>)
    requires NonIncreasing(s) && (s == [] || h.1 >= s[0].1)
    ensures NonIncreasing([h] + s)
  {
    var r := [h] + s;
    forall a, b | 0 <= a < b < |r| ensures r[a].1 >= r[b].1 {
      if a == 0 && b > 1 {
        assert r[b] == s[b - 1] && s[0].1 >= s[b - 1].1;
      }
    }
  }

  /** `sorted(..., key=frequency, reverse=True)`: the same entries, by
      non-increasing frequency. */
  function SortByFrequency(s: seq<Entry>): (r: seq<Entry>)
    ensures NonIncreasing(r) && multiset(r) == multiset(s)
  {
    if s == [] then []
    else
      assert s == s[..|s| - 1] + [s[|s| - 1]];
      Insert(SortByFrequency(s[..|s| - 1]), s[|s| - 1])
  }

  // ---------------------------------------------------------------------
  // One learning run

  /** The output of a run: the version header, then one line per merge. */
  function CodeLines(version01: bool, codes: seq<Pair>): (r: seq<string>)
    ensures |r| == |codes| + 1 && r[0] == WriteHeader([0, if version01 then 1 else 2])
    ensures forall k :: 0 <= k < |codes| ==> r[k + 1] == codes[k].0 + " " + codes[k].1 + "\n"
  {
    [WriteHeader([0, if version01 then 1 else 2])] + seq(|codes|, k requires 0 <= k < |codes| => codes[k].0 + " " + codes[k].1 + "\n")
  }

  /** `main` of the learner once the vocabulary is read: sort the initial
      symbol sequences by frequency, learn, and write the header and the
      merges (the forced ones first). */
  method LearnCodes(items: seq<(string, int)>, numSymbols: nat, minFrequency: int, version01: bool, forced: seq<Pair>, force: bool)
    returns (lines: seq<string>, end: LearnEnd, ghost run: LearnTrace)
    requires forall k :: 0 <= k < |items| ==> items[k].0 != ""
    requires exists k :: 0 <= k < |items| && (version01 || |items[k].0| >= 2)
    ensures LearnRun(SortByFrequency(Initial(items, version01)), numSymbols, minFrequency, forced, force, run, end)
    ensures lines == CodeLines(version01, (if force then forced else []) + run.picks)
    ensures |lines| >= 1 && lines[0] == WriteHeader([0, if version01 then 1 else 2])
    ensures var fixed := if force then |forced| else 0;
      1 + fixed <= |lines| <= 1 + fixed + numSymbols &&
      (force ==> forall k :: 0 <= k < |forced| ==> lines[k + 1] == forced[k].0 + " " + forced[k].1 + "\n")
    ensures end == AllMerges ==> |lines| == 1 + (if force then |forced| else 0) + numSymbols
  {
    var sorted := SortByFrequency(Initial(items, version01));
    SortedReady(items, version01);
    var codes;
    codes, end, run := Train(sorted, numSymbols, minFrequency, forced, force);
    lines := CodeLines(version01, codes);
    if force {
      ForcedLines(version01, codes, forced);
    }
  }

  /** A fresh learner over the entries, run to its end. */
  method Train(entries: seq<Entry>, numSymbols: nat, minFrequency: int, forced: seq<Pair>, force: bool)
    returns (codes: seq<Pair>, end: LearnEnd, ghost run: LearnTrace)
    requires forall k :: 0 <= k < |entries| ==> |entries[k].0| >= 1
    requires exists k :: 0 <= k < |entries| && |entries[k].0| >= 2
    ensures LearnRun(entries, numSymbols, minFrequency, forced, force, run, end)
    ensures codes == (if force then forced else []) + run.picks
    ensures var fixed := if force then |forced| else 0;
      fixed <= |codes| <= fixed + numSymbols && codes[..fixed] == (if force then forced else [])
    ensures end == AllMerges ==> |codes| == (if force then |forced| else 0) + numSymbols
  {
    var learner := new Learner(entries);
    ghost var k :| 0 <= k < |entries| && |entries[k].0| >= 2;
    assert learner.vocab[k] == entries[k];
    ghost var fixed := if force then forced else [];
    end, run := learner.Learn(numSymbols, minFrequency, forced, force);
    codes := learner.codes;
    assert [] + fixed == fixed;
  }

  /** The forced merges open the code list, so their lines follow the
      header. */
  lemma ForcedLines(version01: bool, codes: seq<Pair>, forced: seq<Pair>)
    requires |forced| <= |codes| && codes[..|forced|] == forced
    ensures forall k :: 0 <= k < |forced| ==> CodeLines(version01, codes)[k + 1] == forced[k].0 + " " + forced[k].1 + "\n"
  {
    forall k | 0 <= k < |forced| ensures codes[k] == forced[k] {
      assert codes[k] == codes[..|forced|][k];
    }
  }

  /** The sorted list meets what the learner asks of its input: every word
      has a symbol, and some word has two. */
  lemma SortedReady(items: seq<(string, int)>, version01: bool)
    requires forall k :: 0 <= k < |items| ==> items[k].0 != ""
    requires exists k :: 0 <= k < |items| && (version01 || |items[k].0| >= 2)
    ensures forall k :: 0 <= k < |SortByFrequency(Initial(items, version01))| ==>
                          |SortByFrequency(Initial(items, version01))[k].0| >= 1
    ensures exists k :: 0 <= k < |SortByFrequency(Initial(items, version01))| &&
                        |SortByFrequency(Initial(items, version01))[k].0| >= 2
  {
    var initial := Initial(items, version01);
    var sorted := SortByFrequency(initial);
    forall j | 0 <= j < |initial| ensures |initial[j].0| >= 1 {
      assert initial[j].0 == InitialSymbols(items[j].0, version01);
    }
    var k :| 0 <= k < |items| && (version01 || |items[k].0| >= 2);
    assert initial[k].0 == InitialSymbols(items[k].0, version01);
    PermutedEntries(initial, sorted, k);
  }

  /** A permutation of entries keeps every word nonempty and keeps a word
      with a pair. */
  lemma PermutedEntries(s: seq<Entry>, t: seq<Entry>, k: nat)
    requires multiset(s) == multiset(t)
    requires forall i :: 0 <= i < |s| ==> |s[i].0| >= 1
    requires k < |s| && |s[k].0| >= 2
    ensures forall i :: 0 <= i < |t| ==> |t[i].0| >= 1
    ensures exists i :: 0 <= i < |t| && |t[i].0| >= 2
  {
    forall i | 0 <= i < |t| ensures |t[i].0| >= 1 {
      assert t[i] in multiset(s);
      var j :| 0 <= j < |s| && s[j] == t[i];
    }
    assert s[k] in multiset(t);
    var j :| 0 <= j < |t| && t[j] == s[k];
  }

  // ---------------------------------------------------------------------
  // Reading a forcecodes file

  /** The forcecodes loop as written: its test of the first line names
      `versionheaderbegin`, which the learner's module never defines, so
      the first line read raises `NameError` (`None`); only an empty file
      gets through, forcing nothing. */
  function ForceCodesAsWritten(lines: seq<string>): (r: Option<seq<Pair>>)
    ensures r.None? <==> lines != []
    ensures r.Some? ==> r.value == []
  {
    if lines == [] then Some([]) else None
  }

  /** Every line a forced merge: its whitespace-separated tokens must be
      exactly two (else `a, b = ...` raises `ValueError`, here `None`). */
  function ForcePairs(lines: seq<string>): (r: Option<seq<Pair>>)
    ensures r.Some? <==> forall i :: 0 <= i < |lines| ==> |SplitWs(lines[i])| == 2
    ensures r.Some? ==> |r.value| == |lines|
    ensures r.Some? ==> forall i :: 0 <= i < |lines| ==> [r.value[i].0, r.value[i].1] == SplitWs(lines[i])
  {
    if lines == [] then Some([])
    else
      var toks := SplitWs(lines[0]);
      var rest := ForcePairs(lines[1..]);
      if |toks| != 2 || rest.None? then None
      else
        assert forall i :: 1 <= i < |lines| ==> lines[i] == lines[1..][i - 1];
        Some([(toks[0], toks[1])] + rest.value)
  }

  /** The forcecodes file as intended: a `#version: ` first line is
      skipped, and every other line is a forced merge. */
  function ForceCodes(lines: seq<string>): Option<seq<Pair>>
  {
    if lines != [] && StartsWith(lines[0], VersionPrefix) then ForcePairs(lines[1..]) else ForcePairs(lines)
  }

  /** The forced merges of a run: none without a forcecodes file. */
  function ForcedOf(forcecodes: Option<seq<string>>): Option<seq<Pair>>
  {
    if forcecodes.None? then Some([]) else ForceCodes(forcecodes.value)
  }

  /** A token followed by whitespace (or nothing) is the first token. */
  lemma SplitAfterToken(t: string, rest: string)
    requires IsToken(t) && (rest == [] || IsSpace(rest[0]))
    ensures SplitWs(t + rest) == [t] + SplitWs(rest)
  {
    var s := t + rest;
    TokenLengthOfToken(t, rest);
    assert s[..|t|] == t && s[|t|..] == rest;
  }

  /** A written merge line splits into its two symbols. */
  lemma PairLineSplit(a: string, b: string)
    requires IsToken(a) && IsToken(b)
    ensures SplitWs(a + " " + b + "\n") == [a, b]
  {
    var tail := b + "\n";
    var rest := " " + tail;
    assert a + " " + b + "\n" == a + rest;
    SplitAfterToken(a, rest);
    assert rest[1..] == tail;
    assert SplitWs(rest) == SplitWs(tail);
    SplitAfterToken(b, "\n");
    assert "\n"[1..] == [];
    assert SplitWs("\n") == [];
  }

  /** A file the learner writes reads back as the merges it holds, so it
      can be passed again as forcecodes. */
  lemma ForceCodesRoundTrip(version01: bool, codes: seq<Pair>)
    requires forall k :: 0 <= k < |codes| ==> IsToken(codes[k].0) && IsToken(codes[k].1)
    ensures ForceCodes(CodeLines(version01, codes)) == Some(codes)
  {
    var lines := CodeLines(version01, codes);
    forall i | 0 <= i < |lines[1..]| ensures |SplitWs(lines[1..][i])| == 2 && SplitWs(lines[1..][i]) == [codes[i].0, codes[i].1] {
      PairLineSplit(codes[i].0, codes[i].1);
    }
    var r := ForcePairs(lines[1..]);
    assert r.Some?;
    assert r.value == codes;
  }

  /** The learner's own output is refused as written, and read as intended. */
  lemma ForceCodesNameError()
    ensures ForceCodesAsWritten(CodeLines(false, [("a", "b")])).None?
    ensures ForceCodes(CodeLines(false, [("a", "b")])) == Some([("a", "b")])
  {
    ForceCodesRoundTrip(false, [("a", "b")]);
  }

  /** Why a run from input lines fails: the vocabulary cannot be read
      (`ValueError` in `get_vocabulary`); no word has a pair, so the first
      `max(stats.values())` finds an empty table (`ValueError`); or a
      forcecodes line does not hold two symbols (`ValueError`). */
  datatype RunFailure = BadVocabulary | NoPairs | BadForceCodes

  /** A run's output lines, how it ended, and the vocabulary it learned
      from (which `main` returns). */
  datatype Run = Learned(lines: seq<string>, end: LearnEnd, vocab: map<string, int>) | Failed(why: RunFailure)

  /** The trace of a run that fails before learning starts. */
  ghost const Unstarted := LearnTrace(Tables([], map[], map[], map[]), 0, [], [], [], [])

  /** The vocabulary's entries in some order, each word once. */
  method Items(m: map<string, int>) returns (items: seq<(string, int)>)
    ensures Listing(items, m)
  {
    items := [];
    var rest := m.Keys;
    while rest != {}
      invariant rest <= m.Keys
      invariant forall k :: 0 <= k < |items| ==> items[k].0 in m && m[items[k].0] == items[k].1
      invariant forall w :: w in m && w !in rest ==> exists k :: 0 <= k < |items| && items[k].0 == w
      invariant forall k :: 0 <= k < |items| ==> items[k].0 !in rest
      invariant forall a, b :: 0 <= a < b < |items| ==> items[a].0 != items[b].0
      decreases |rest|
    {
      var w :| w in rest;
      ghost var prev := items;
      items := items + [(w, m[w])];
      forall x | x in m && x !in rest - {w} ensures exists k :: 0 <= k < |items| && items[k].0 == x {
        if x == w {
          assert items[|items| - 1].0 == x;
        } else {
          var k :| 0 <= k < |prev| && prev[k].0 == x;
          assert items[k].0 == x;
        }
      }
      rest := rest - {w};
    }
  }

  /** items lists the entries of m, each word once. */
  predicate Listing(items: seq<(string, int)>, m: map<string, int>)
  {
    && (forall k :: 0 <= k < |items| ==> items[k].0 in m && m[items[k].0] == items[k].1)
    && (forall w :: w in m ==> exists k :: 0 <= k < |items| && items[k].0 == w)
    && (forall a, b :: 0 <= a < b < |items| ==> items[a].0 != items[b].0)
  }

  /** `main` from its input lines, with mincount passed on to the reading
      of the vocabulary and the lines of the forcecodes file, if any.  A
      learned run is a `LearnRun` from the vocabulary listed in the order
      items (the order of `vocab.items()`, which the model leaves open),
      and its lines are the header and the forced and learned merges. */
  method LearnFromLines(input: seq<string>, isDict: bool, mincount: int, numSymbols: nat, minFrequency: int,
                        version01: bool, forcecodes: Option<seq<string>>)
    returns (r: Run, ghost items: seq<(string, int)>, ghost run: LearnTrace)
    ensures r.Learned? ==> Listing(items, r.vocab) && forall k :: 0 <= k < |items| ==> items[k].0 != ""
    ensures r.Learned? ==> ForcedOf(forcecodes).Some?
    ensures r.Learned? ==> LearnRun(SortByFrequency(Initial(items, version01)), numSymbols, minFrequency, ForcedOf(forcecodes).value, forcecodes.Some?, run, r.end)
    ensures r.Learned? ==> r.lines == CodeLines(version01, ForcedOf(forcecodes).value + run.picks)
    ensures r == Failed(BadVocabulary) <==> VocabOf(input, isDict, mincount).None?
    ensures r == Failed(NoPairs) <==> (VocabOf(input, isDict, mincount).Some? &&
      forall w :: w in VocabOf(input, isDict, mincount).value ==> !version01 && |w| < 2)
    ensures r == Failed(BadForceCodes) <==> (VocabOf(input, isDict, mincount).Some? &&
      (exists w :: w in VocabOf(input, isDict, mincount).value && (version01 || |w| >= 2)) && ForcedOf(forcecodes).None?)
    ensures r.Learned? ==> |r.lines| >= 1 && r.lines[0] == WriteHeader([0, if version01 then 1 else 2])
    ensures r.Learned? ==> Some(r.vocab) == VocabOf(input, isDict, mincount)
    ensures r.Learned? ==> forall w :: w in r.vocab ==> r.vocab[w] >= mincount
  {
    var vocab := GetVocabulary(input, isDict, mincount);
    if vocab.None? {
      return Failed(BadVocabulary), [], Unstarted;
    }
    VocabWords(input, isDict, mincount);
    VocabAboveMincount(input, isDict, mincount);
    r, items, run := LearnFromVocabulary(vocab.value, numSymbols, minFrequency, version01, forcecodes);
  }

  /** The learning part of `main` on a vocabulary read without error:
      `NoPairs` when no word has a pair (the first `max` fails), else
      `BadForceCodes` when a forcecodes line is not a pair, else a learning
      run from the vocabulary listed in the order items. */
  method LearnFromVocabulary(m: map<string, int>, numSymbols: nat, minFrequency: int,
                             version01: bool, forcecodes: Option<seq<string>>)
    returns (r: Run, ghost items: seq<(string, int)>, ghost run: LearnTrace)
    requires forall w :: w in m ==> w != ""
    ensures r == Failed(NoPairs) <==> forall w :: w in m ==> !version01 && |w| < 2
    ensures r == Failed(BadForceCodes) <==> (exists w :: w in m && (version01 || |w| >= 2)) && ForcedOf(forcecodes).None?
    ensures r != Failed(BadVocabulary)
    ensures r.Learned? ==> r.vocab == m && Listing(items, m) && forall k :: 0 <= k < |items| ==> items[k].0 != ""
    ensures r.Learned? ==> ForcedOf(forcecodes).Some?
    ensures r.Learned? ==> LearnRun(SortByFrequency(Initial(items, version01)), numSymbols, minFrequency, ForcedOf(forcecodes).value, forcecodes.Some?, run, r.end)
    ensures r.Learned? ==> r.lines == CodeLines(version01, ForcedOf(forcecodes).value + run.picks)
  {
    var listed := Items(m);
    items := listed;
    var k := 0;
    while k < |listed| && !(version01 || |listed[k].0| >= 2)
      invariant 0 <= k <= |listed|
      invariant forall j :: 0 <= j < k ==> !version01 && |listed[j].0| < 2
    {
      k := k + 1;
    }
    if k == |listed| {
      forall w | w in m ensures !version01 && |w| < 2 {
        var j :| 0 <= j < |listed| && listed[j].0 == w;
      }
      return Failed(NoPairs), listed, Unstarted;
    }
    assert listed[k].0 in m;
    var forced := ForcedOf(forcecodes);
    if forced.None? {
      return Failed(BadForceCodes), listed, Unstarted;
    }
    var lines, end;
    lines, end, run := LearnCodes(listed, numSymbols, minFrequency, version01, forced.value, forcecodes.Some?);
    assert forcecodes.None? ==> forced.value == [];
    r := Learned(lines, end, m);
  }

  // ---------------------------------------------------------------------
  // restricted_vocabulary

  /** Add c to the count of every piece. */
  function AddPieces(m: map<string, int>, pieces: seq<string>, c: int): (r: map<string, int>)
  {
    if pieces == [] then m
    else
      var prev := AddPieces(m, pieces[..|pieces| - 1], c);
      var sw := pieces[|pieces| - 1];
      prev[sw := (if sw in prev then prev[sw] else 0) + c]
  }

  /** Each piece gains c once per occurrence. */
  lemma {:induction false} AddPiecesMeaning(m: map<string, int>, pieces: seq<string>, c: int)
    ensures forall sw :: (sw in AddPieces(m, pieces, c) <==> sw in m || sw in pieces)
    ensures forall sw :: sw in AddPieces(m, pieces, c) ==>
      AddPieces(m, pieces, c)[sw] == (if sw in m then m[sw] else 0) + Times(multiset(pieces)[sw], c)
  {
    if pieces != [] {
      var front := pieces[..|pieces| - 1];
      var sw := pieces[|pieces| - 1];
      AddPiecesMeaning(m, front, c);
      assert pieces == front + [sw];
      forall x ensures x in pieces <==> x in front || x == sw {
        assert x in front ==> x in pieces;
      }
      forall x ensures Times(multiset(pieces)[x], c) == Times(multiset(front)[x], c) + (if x == sw then c else 0) {
        TimesAdd(multiset(front)[x], if x == sw then 1 else 0, c);
      }
    }
  }

  /** The piece counts of the first n words, or the first failure. */
  function RestrictedOf(bpe: Bpe, items: seq<(string, int)>, n: nat): Result<map<string, int>>
    requires n <= |items| && SplitReady(bpe.reverse, bpe.vocab)
  {
    if n == 0 then Ok(map[])
    else match RestrictedOf(bpe, items, n - 1)
      case Err(e) => Err(e)
      case Ok(m) =>
        match bpe.PiecesOf(items[n - 1].0)
        case Err(e) => Err(e)
        case Ok(ps) => Ok(AddPieces(m, ps, items[n - 1].1))
  }

  /** `restricted_vocabulary` on a counter: every piece the encoder makes
      of a word counts as often as the word. */
  method RestrictedVocabulary(bpe: Bpe, items: seq<(string, int)>) returns (r: Result<map<string, int>>)
    requires bpe.Valid()
    modifies bpe
    ensures bpe.Valid()
    ensures r == RestrictedOf(bpe, items, |items|)
  {
    r := Ok(map[]);
    var n := 0;
    while n < |items| && r.Ok?
      invariant 0 <= n <= |items| && bpe.Valid()
      invariant r.Ok? ==> r == RestrictedOf(bpe, items, n)
      invariant r.Err? ==> r == RestrictedOf(bpe, items, |items|)
    {
      r := RestrictedStep(bpe, items, n, r.value);
      n := n + 1;
    }
  }

  /** One word of `restricted_vocabulary`: its pieces, each counted as
      often as the word, or the failure of its encoding. */
  method RestrictedStep(bpe: Bpe, items: seq<(string, int)>, n: nat, counts: map<string, int>) returns (r: Result<map<string, int>>)
    requires bpe.Valid() && n < |items| && RestrictedOf(bpe, items, n) == Ok(counts)
    modifies bpe
    ensures bpe.Valid()
    ensures r == RestrictedOf(bpe, items, n + 1)
    ensures r.Err? ==> r == RestrictedOf(bpe, items, |items|)
  {
    var (w, c) := items[n];
    var pieces := bpe.Pieces(w);
    if pieces.Err? {
      r := Err(pieces.error);
      RestrictedFailure(bpe, items, n + 1);
      return;
    }
    var added := CountPieces(counts, pieces.value, c);
    r := Ok(added);
  }

  /** The inner loop: `bpevocab[sw] += c` for every piece in turn. */
  method CountPieces(m: map<string, int>, pieces: seq<string>, c: int) returns (r: map<string, int>)
    ensures r == AddPieces(m, pieces, c)
  {
    r := m;
    var t := 0;
    while t < |pieces|
      invariant 0 <= t <= |pieces|
      invariant r == AddPieces(m, pieces[..t], c)
    {
      var sw := pieces[t];
      assert pieces[..t + 1][..t] == pieces[..t];
      r := r[sw := (if sw in r then r[sw] else 0) + c];
      t := t + 1;
    }
    assert pieces[..t] == pieces;
  }

  /** A failure on some word is the failure of the whole list. */
  lemma {:induction false} RestrictedFailure(bpe: Bpe, items: seq<(string, int)>, k: nat)
    requires k <= |items| && SplitReady(bpe.reverse, bpe.vocab)
    requires RestrictedOf(bpe, items, k).Err?
    ensures RestrictedOf(bpe, items, |items|) == RestrictedOf(bpe, items, k)
    decreases |items| - k
  {
    if k < |items| {
      RestrictedFailure(bpe, items, k + 1);
    }
  }
}
