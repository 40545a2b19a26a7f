/** The encoder object: a loaded merge table, the separator, an optional
    vocabulary, the glossary isolation, and a per-instance cache of encoded
    words. */
module Encoder {
  import opened Symbols
  import opened Header
  import opened CodeTable
  import opened Encoding

  // ---------------------------------------------------------------------
  // One merge pass, as the source's index loop performs it

  /** Symbols other than the pair's first half pass through fusion unchanged. */
  lemma {:induction false} FuseSkip(w: seq<string>, p: Pair, i: nat, j: nat)
    requires i <= j <= |w|
    requires forall k :: i <= k < j ==> w[k] != p.0
    ensures Fuse(w[i..], p) == w[i..j] + Fuse(w[j..], p)
    decreases j - i
  {
    if i < j {
      FuseSkip(w, p, i + 1, j);
      FuseStep(w, p, i);
      assert w[i..j] == [w[i]] + w[i + 1..j];
    }
  }

  /** Fusion at position i: the pair, or a single symbol. */
  lemma FuseStep(w: seq<string>, p: Pair, i: nat)
    requires i < |w|
    ensures i < |w| - 1 && w[i] == p.0 && w[i + 1] == p.1 ==> Fuse(w[i..], p) == [p.0 + p.1] + Fuse(w[i + 2..], p)
    ensures !(i < |w| - 1 && w[i] == p.0 && w[i + 1] == p.1) ==> Fuse(w[i..], p) == [w[i]] + Fuse(w[i + 1..], p)
  {
    assert w[i..][1..] == w[i + 1..];
    if i < |w| - 1 {
      assert w[i..][2..] == w[i + 2..];
    } else {
      assert w[i + 1..] == [];
    }
  }

  /** The inner loop of `encode`: build the word with every occurrence of
      the pair fused, jumping from one occurrence of its first half to the
      next. */
  method MergeStep(word: seq<string>, p: Pair) returns (newWord: seq<string>)
    ensures newWord == Fuse(word, p)
  {
    newWord := [];
    var i := 0;
    while i < |word|
      invariant 0 <= i <= |word|
      invariant newWord + Fuse(word[i..], p) == Fuse(word, p)
      decreases |word| - i
    {
      newWord, i := MergeStride(word, p, newWord, i);
    }
    assert word[|word|..] == [];
  }

  /** One pass of the inner loop: copy up to the next occurrence of the
      pair's first half, then fuse the pair there or copy the symbol. */
  method MergeStride(word: seq<string>, p: Pair, done: seq<string>, i: nat) returns (newWord: seq<string>, next: nat)
    requires i < |word| && done + Fuse(word[i..], p) == Fuse(word, p)
    ensures i < next <= |word| && newWord + Fuse(word[next..], p) == Fuse(word, p)
  {
    var j := IndexFrom(word, p.0, i);
    if j.None? {
      SkipTo(word, p, done, i, |word|);
      newWord, next := done + word[i..], |word|;
    } else {
      var k := j.value;
      SkipTo(word, p, done, i, k);
      var front := done + word[i..k];
      if word[k] == p.0 && k < |word| - 1 && word[k + 1] == p.1 {
        TakePair(word, p, front, k);
        newWord, next := front + [p.0 + p.1], k + 2;
      } else {
        TakeOne(word, p, front, k);
        newWord, next := front + [word[k]], k + 1;
      }
    }
  }

  lemma SkipTo(w: seq<string>, p: Pair, done: seq<string>, i: nat, j: nat)
    requires i <= j <= |w| && done + Fuse(w[i..], p) == Fuse(w, p)
    requires forall k :: i <= k < j ==> w[k] != p.0
    ensures (done + w[i..j]) + Fuse(w[j..], p) == Fuse(w, p)
  {
    FuseSkip(w, p, i, j);
    Regroup(done, w[i..j], Fuse(w[j..], p));
  }

  lemma Regroup(a: seq<string>, b: seq<string>, c: seq<string>)
    ensures (a + b) + c == a + (b + c)
  {
  }

  lemma TakePair(w: seq<string>, p: Pair, done: seq<string>, i: nat)
    requires i < |w| - 1 && w[i] == p.0 && w[i + 1] == p.1
    requires done + Fuse(w[i..], p) == Fuse(w, p)
    ensures (done + [p.0 + p.1]) + Fuse(w[i + 2..], p) == Fuse(w, p)
  {
    FuseStep(w, p, i);
    Regroup(done, [p.0 + p.1], Fuse(w[i + 2..], p));
  }

  lemma TakeOne(w: seq<string>, p: Pair, done: seq<string>, i: nat)
    requires i < |w| && !(i < |w| - 1 && w[i] == p.0 && w[i + 1] == p.1)
    requires done + Fuse(w[i..], p) == Fuse(w, p)
    ensures (done + [w[i]]) + Fuse(w[i + 1..], p) == Fuse(w, p)
  {
    FuseStep(w, p, i);
    Regroup(done, [w[i]], Fuse(w[i + 1..], p));
  }

  /** The outer loop of `encode`: merge the least-ranked present pair until
      none is ranked or one symbol is left. */
  method ApplyMerges(word: seq<string>, ranks: map<Pair, nat>) returns (w: seq<string>)
    requires |word| >= 2
    ensures w == MergeLoop(word, ranks)
  {
    w := word;
    var done := false;
    while !done
      invariant |w| >= 1
      invariant !done ==> |w| >= 2 && MergeLoop(w, ranks) == MergeLoop(word, ranks)
      invariant done ==> w == MergeLoop(word, ranks)
      decreases |w| + (if done then 0 else 1)
    {
      var bigram := MinRanked(w, ranks);
      if bigram.None? {
        done := true;
      } else {
        FuseLength(w, bigram.value);
        FuseHead(w, bigram.value);
        w := MergeStep(w, bigram.value);
        if |w| == 1 {
          done := true;
        }
      }
    }
  }

  // ---------------------------------------------------------------------
  // Reading a vocabulary file

  /** A vocabulary line: a word and an integer frequency. */
  predicate VocabLine(line: string)
  {
    |SplitWs(line)| == 2 && ParseInt(SplitWs(line)[1]).Some?
  }

  /** The line names w with a frequency at or above the threshold. */
  predicate Admits(line: string, w: string, threshold: int)
  {
    VocabLine(line) && SplitWs(line)[0] == w && ParseInt(SplitWs(line)[1]).value >= threshold
  }

  /** `read_vocabulary_set`: the words whose frequency reaches the
      threshold; None when a line is not a word and an integer (ValueError). */
  method ReadVocabularySet(lines: seq<string>, threshold: int) returns (r: Option<set<string>>)
    ensures r.None? <==> exists i :: 0 <= i < |lines| && !VocabLine(lines[i])
    ensures r.Some? ==> forall w :: w in r.value <==> exists i :: 0 <= i < |lines| && Admits(lines[i], w, threshold)
  {
    var vocabulary: set<string> := {};
    var i := 0;
    while i < |lines|
      invariant 0 <= i <= |lines|
      invariant forall k :: 0 <= k < i ==> VocabLine(lines[k])
      invariant forall w :: w in vocabulary <==> exists k :: 0 <= k < i && Admits(lines[k], w, threshold)
    {
      var entry := ReadVocabularyLine(lines[i], threshold);
      if entry.None? {
        return None;
      }
      AdmitsStep(lines, i, threshold, vocabulary, entry.value);
      vocabulary := vocabulary + entry.value;
      i := i + 1;
    }
    r := Some(vocabulary);
  }

  /** One line of `read_vocabulary_set`: the word it adds, if its frequency
      reaches the threshold; None when it is not a word and an integer. */
  method ReadVocabularyLine(line: string, threshold: int) returns (r: Option<set<string>>)
    ensures r.None? <==> !VocabLine(line)
    ensures r.Some? ==> forall w :: w in r.value <==> Admits(line, w, threshold)
  {
    var parts := SplitWs(line);
    if |parts| != 2 {
      return None;
    }
    var freq := ParseInt(parts[1]);
    if freq.None? {
      return None;
    }
    r := Some(if freq.value >= threshold then {parts[0]} else {});
  }

  /** Reading one more line adds exactly the words it admits. */
  lemma AdmitsStep(lines: seq<string>, i: nat, threshold: int, vocabulary: set<string>, more: set<string>)
    requires i < |lines| && VocabLine(lines[i])
    requires forall k :: 0 <= k < i ==> VocabLine(lines[k])
    ensures forall k :: 0 <= k < i + 1 ==> VocabLine(lines[k])
    requires forall w :: w in vocabulary <==> exists k :: 0 <= k < i && Admits(lines[k], w, threshold)
    requires forall w :: w in more <==> Admits(lines[i], w, threshold)
    ensures forall w :: w in vocabulary + more <==> exists k :: 0 <= k < i + 1 && Admits(lines[k], w, threshold)
  {
    forall w ensures w in vocabulary + more <==> exists k :: 0 <= k < i + 1 && Admits(lines[k], w, threshold) {
      if exists k :: 0 <= k < i + 1 && Admits(lines[k], w, threshold) {
        var k :| 0 <= k < i + 1 && Admits(lines[k], w, threshold);
        if k == i {
          assert w in more;
        }
      }
    }
  }

  /** The loop of `write_subset`: one line per wanted pair, in the given order. */
  method SelectLines(ordered: seq<(Pair, nat)>, bpevocab: set<string>, pre: set<string>, sep: string) returns (lines: seq<string>)
    ensures lines == PairLines(SelectPairs(ordered, bpevocab, pre, sep))
  {
    lines := [];
    var i := 0;
    while i < |ordered|
      invariant 0 <= i <= |ordered|
      invariant lines == PairLines(SelectPairs(ordered[..i], bpevocab, pre, sep))
    {
      var pair := ordered[i].0;
      SelectLinesStep(ordered, i, bpevocab, pre, sep);
      if Written(pair.0 + pair.1, sep) in bpevocab || pair.0 + pair.1 in pre {
        lines := lines + [PairLine(pair)];
      }
      i := i + 1;
    }
    assert ordered[..i] == ordered;
  }

  /** One more entry adds its line exactly when it is wanted. */
  lemma SelectLinesStep(ordered: seq<(Pair, nat)>, i: nat, bpevocab: set<string>, pre: set<string>, sep: string)
    requires i < |ordered|
    ensures PairLines(SelectPairs(ordered[..i + 1], bpevocab, pre, sep)) ==
      PairLines(SelectPairs(ordered[..i], bpevocab, pre, sep)) + (if Wanted(ordered[i].0, bpevocab, pre, sep) then [PairLine(ordered[i].0)] else [])
  {
    assert ordered[..i + 1][..i] == ordered[..i];
    var ps := SelectPairs(ordered[..i], bpevocab, pre, sep);
    assert PairLines(ps + [ordered[i]]) == PairLines(ps) + [PairLine(ordered[i].0)];
  }

  /** The second loop of `pieces`: count down the remaining items and drop
      the separator for the last one. */
  method AttachSeparators(items: seq<string>, sep: string) returns (output: seq<string>)
    ensures output == Separate(items, sep)
  {
    output := [];
    var remain := |items|;
    var s := sep;
    var i := 0;
    while i < |items|
      invariant 0 <= i <= |items|
      invariant remain == |items| - i
      invariant i < |items| ==> s == sep
      invariant output == Separate(items, sep)[..i]
    {
      remain := remain - 1;
      if remain == 0 {
        s := "";
      }
      assert items[i] + "" == items[i];
      output := output + [items[i] + s];
      i := i + 1;
    }
  }

  // ---------------------------------------------------------------------
  // The encoder object

  /** The items of one word, each but the last followed by the separator. */
  function Separate(items: seq<string>, sep: string): (r: seq<string>)
    ensures |r| == |items|
    ensures forall i :: 0 <= i < |items| - 1 ==> r[i] == items[i] + sep
    ensures |items| > 0 ==> r[|items| - 1] == items[|items| - 1]
  {
    seq(|items|, i requires 0 <= i < |items| => if i < |items| - 1 then items[i] + sep else items[i])
  }

  class Bpe {
    const version: seq<int>
    /** The merges in line order, duplicates included. */
    const codes: seq<Pair>
    const ranks: map<Pair, nat>
    const reverse: map<string, Pair>
    const separator: string
    /** The vocabulary; empty when none is given (both are false in the source). */
    const vocab: set<string>
    /** Glossary isolation: the word cut into segments, glossary matches at
        odd positions. */
    const isolate: string -> seq<string>
    var cache: map<string, seq<string>>

    /** The tables are the ones the merges determine, and every cached word
        maps to what encoding it gives. */
    predicate Valid()
      reads this
    {
      && ranks == RankTable(codes)
      && reverse == ReverseTable(codes)
      && SplitReady(reverse, vocab)
      && forall k :: k in cache ==> EncodeWord(k, version, ranks, reverse, vocab, separator) == Ok(cache[k])
    }

    /** `BPE.__init__` on a table that loads: the version from the header,
        (0, 1) without one; ranks by first occurrence; the reverse map; an
        empty cache.  With a vocabulary, no merge may produce the bare
        marker, for splitting to terminate. */
    constructor (lines: seq<string>, separator: string, vocab: set<string>, isolate: string -> seq<string>)
      requires WellFormedTable(lines)
      requires vocab != {} ==> forall i :: 0 <= i < |TableCodes(lines)| ==> TableCodes(lines)[i].0 + TableCodes(lines)[i].1 != EndWord
      ensures version == TableVersion(lines) && codes == TableCodes(lines)
      ensures this.separator == separator && this.vocab == vocab && this.isolate == isolate
      ensures cache == map[]
      ensures Valid()
    {
      version := TableVersion(lines);
      codes := TableCodes(lines);
      ranks := RankTable(TableCodes(lines));
      reverse := ReverseTable(TableCodes(lines));
      this.separator := separator;
      this.vocab := vocab;
      this.isolate := isolate;
      cache := map[];
      ReverseTableWellFormed(TableCodes(lines));
    }

    /** `check_vocab_and_split`: keep accepted segments, split the others
        back through the reverse map. */
    method CheckVocabAndSplit(word: seq<string>) returns (out: seq<string>)
      requires Valid() && vocab != {} && |word| >= 1
      ensures out == CheckVocab(word, reverse, vocab, separator)
    {
      out := [];
      var i := 0;
      while i < |word| - 1
        invariant 0 <= i <= |word| - 1
        invariant out == SplitInner(word[..i], reverse, vocab, separator)
      {
        var segment := word[i];
        if segment + separator in vocab {
          out := out + [segment];
        } else {
          out := out + RecursiveSplit(segment, reverse, vocab, separator, false);
        }
        assert word[..i + 1][..i] == word[..i];
        i := i + 1;
      }
      var segment := word[|word| - 1];
      if segment in vocab {
        out := out + [segment];
      } else {
        out := out + RecursiveSplit(segment, reverse, vocab, separator, true);
      }
    }

    /** `encode`: a cached word is answered from the cache before anything
        else; otherwise the word is encoded and, if it had a pair, cached. */
    method Encode(orig: string) returns (r: Result<seq<string>>)
      requires Valid()
      modifies this
      ensures Valid()
      ensures r == EncodeWord(orig, version, ranks, reverse, vocab, separator)
      ensures cache == if orig !in old(cache) && r.Ok? && Mergeable(orig, version)
                       then old(cache)[orig := r.value] else old(cache)
    {
      if orig in cache {
        return Ok(cache[orig]);
      }
      var word: seq<string>;
      if version == [0, 1] {
        word := InitialSymbols(orig, true);
      } else if version == [0, 2] {
        if orig == "" {
          return Err(IndexError);
        }
        word := InitialSymbols(orig, false);
      } else {
        return Err(NotImplemented);
      }
      if |word| >= 2 {
        assert (word[0], word[1]) in PairSet(word);
      }
      if PairSet(word) == {} {
        return Ok(Chars(orig));
      }
      word := MergeAndSplit(orig, word);
      r := Ok(word);
      AddToCache(orig, word);
    }

    /** The part of `encode` after the initial symbols: the merge loop, the
        marker removal and, with a vocabulary, the splitting. */
    method MergeAndSplit(orig: string, word: seq<string>) returns (out: seq<string>)
      requires Valid() && KnownVersion(version) && (version == [0, 1] || orig != "")
      requires word == InitialSymbols(orig, version == [0, 1]) && |word| >= 2
      ensures EncodeWord(orig, version, ranks, reverse, vocab, separator) == Ok(out)
    {
      EncodeWordMerged(orig, version, ranks, reverse, vocab, separator);
      out := ApplyMerges(word, ranks);
      out := StripMarker(out);
      if vocab != {} {
        out := CheckVocabAndSplit(out);
      }
    }

    /** Storing a correct entry keeps the cache correct. */
    method AddToCache(orig: string, word: seq<string>)
      requires Valid()
      requires EncodeWord(orig, version, ranks, reverse, vocab, separator) == Ok(word)
      modifies this
      ensures Valid() && cache == old(cache)[orig := word]
    {
      cache := cache[orig := word];
    }

    /** The items of a word before separators: nonempty segments at even
        positions encoded, those at odd positions (glossary matches) kept
        verbatim, empty ones skipped; the first failure wins. */
    function Units(segments: seq<string>): (r: Result<seq<string>>)
      requires SplitReady(reverse, vocab)
    {
      if segments == [] then Ok([])
      else
        var n := |segments| - 1;
        var segment := segments[n];
        match Units(segments[..n])
        case Err(e) => Err(e)
        case Ok(u) =>
          if segment == "" then Ok(u)
          else if n % 2 == 1 then Ok(u + [segment])
          else match EncodeWord(segment, version, ranks, reverse, vocab, separator)
            case Err(e) => Err(e)
            case Ok(v) => Ok(u + v)
    }

    /** One more segment: skipped when empty, kept at an odd position,
        encoded at an even one. */
    lemma UnitsStep(segments: seq<string>, k: nat, u: seq<string>, v: seq<string>)
      requires SplitReady(reverse, vocab)
      requires k < |segments| && Units(segments[..k]) == Ok(u)
      requires segments[k] != "" && k % 2 == 0 ==> EncodeWord(segments[k], version, ranks, reverse, vocab, separator) == Ok(v)
      ensures Units(segments[..k + 1]) == Ok(if segments[k] == "" then u else if k % 2 == 1 then u + [segments[k]] else u + v)
    {
      assert segments[..k + 1][..k] == segments[..k];
    }

    /** A failure in a prefix of the segments is the failure of them all. */
    lemma {:induction false} UnitsFailure(segments: seq<string>, k: nat)
      requires SplitReady(reverse, vocab)
      requires k <= |segments| && Units(segments[..k]).Err?
      ensures Units(segments) == Units(segments[..k])
      decreases |segments| - k
    {
      if k < |segments| {
        assert segments[..k + 1][..k] == segments[..k];
        UnitsFailure(segments, k + 1);
      } else {
        assert segments[..k] == segments;
      }
    }

    /** The pieces of one word, separators attached. */
    function PiecesOf(word: string): (r: Result<seq<string>>)
      requires SplitReady(reverse, vocab)
    {
      match Units(isolate(word))
      case Err(e) => Err(e)
      case Ok(u) => Ok(Separate(u, separator))
    }

    /** `pieces`: encode the segments of a word (glossary matches verbatim)
        and attach the separator to every item but the last. */
    method Pieces(word: string) returns (r: Result<seq<string>>)
      requires Valid()
      modifies this
      ensures Valid() && old(cache).Keys <= cache.Keys
      ensures r == PiecesOf(word)
    {
      var units := EncodeSegments(isolate(word));
      if units.Err? {
        return Err(units.error);
      }
      var output := AttachSeparators(units.value, separator);
      r := Ok(output);
    }

    /** The first loop of `pieces`: the parity flag flips after every
        segment, empty ones included. */
    method EncodeSegments(segments: seq<string>) returns (r: Result<seq<string>>)
      requires Valid()
      modifies this
      ensures Valid() && old(cache).Keys <= cache.Keys
      ensures r == Units(segments)
    {
      var newWord: seq<string> := [];
      var isolated := false;
      var k := 0;
      while k < |segments|
        invariant 0 <= k <= |segments|
        invariant Valid() && old(cache).Keys <= cache.Keys
        invariant isolated <==> k % 2 == 1
        invariant Units(segments[..k]) == Ok(newWord)
      {
        var next := EncodeSegment(segments, k, isolated, newWord);
        if next.Err? {
          UnitsFailure(segments, k + 1);
          assert segments[..|segments|] == segments;
          return next;
        }
        newWord := next.value;
        ParityFlips(k);
        isolated := !isolated;
        k := k + 1;
      }
      assert segments[..k] == segments;
      r := Ok(newWord);
    }

    /** Consecutive positions have opposite parity. */
    lemma ParityFlips(k: nat)
      ensures (k + 1) % 2 == 1 <==> k % 2 != 1
    {
    }

    /** One round of that loop: a nonempty segment is kept verbatim when
        isolated and encoded otherwise, and appended to the word so far. */
    method EncodeSegment(segments: seq<string>, k: nat, isolated: bool, newWord: seq<string>) returns (r: Result<seq<string>>)
      requires Valid() && k < |segments| && (isolated <==> k % 2 == 1)
      requires Units(segments[..k]) == Ok(newWord)
      modifies this
      ensures Valid() && old(cache).Keys <= cache.Keys
      ensures r == Units(segments[..k + 1])
    {
      var segment := segments[k];
      var units: seq<string> := [];
      if |segment| > 0 && !isolated {
        var encoded := Encode(segment);
        if encoded.Err? {
          assert segments[..k + 1][..k] == segments[..k];
          return Err(encoded.error);
        }
        units := encoded.value;
      }
      UnitsStep(segments, k, newWord, units);
      r := Ok(if |segment| == 0 then newWord else if isolated then newWord + [segment] else newWord + units);
    }

    /** The pieces of a whitespace-split sentence, word after word. */
    function SentencePieces(words: seq<string>): (r: Result<seq<string>>)
      requires SplitReady(reverse, vocab)
    {
      if words == [] then Ok([])
      else
        var n := |words| - 1;
        match SentencePieces(words[..n])
        case Err(e) => Err(e)
        case Ok(out) =>
          match PiecesOf(words[n])
          case Err(e) => Err(e)
          case Ok(ps) => Ok(out + ps)
    }

    lemma {:induction false} SentenceFailure(words: seq<string>, k: nat)
      requires SplitReady(reverse, vocab)
      requires k <= |words| && SentencePieces(words[..k]).Err?
      ensures SentencePieces(words) == SentencePieces(words[..k])
      decreases |words| - k
    {
      if k < |words| {
        assert words[..k + 1][..k] == words[..k];
        SentenceFailure(words, k + 1);
      } else {
        assert words[..k] == words;
      }
    }

    /** `segment`: the pieces of every word of the sentence, joined by single
        spaces. */
    method Segment(sentence: string) returns (r: Result<string>)
      requires Valid()
      modifies this
      ensures Valid() && old(cache).Keys <= cache.Keys
      ensures SentencePieces(SplitWs(sentence)).Err? ==> r == Err(SentencePieces(SplitWs(sentence)).error)
      ensures SentencePieces(SplitWs(sentence)).Ok? ==> r == Ok(JoinSpace(SentencePieces(SplitWs(sentence)).value))
    {
      var words := SplitWs(sentence);
      var output: seq<string> := [];
      var k := 0;
      while k < |words|
        invariant 0 <= k <= |words|
        invariant Valid() && old(cache).Keys <= cache.Keys
        invariant SentencePieces(words[..k]) == Ok(output)
      {
        assert words[..k + 1][..k] == words[..k];
        var ps := Pieces(words[k]);
        if ps.Err? {
          SentenceFailure(words, k + 1);
          assert words[..|words|] == words;
          return Err(ps.error);
        }
        output := output + ps.value;
        k := k + 1;
      }
      assert words[..k] == words;
      r := Ok(JoinSpace(output));
    }

    // -------------------------------------------------------------------
    // Prerequisites and subset tables

    /** The inner `prereqs(s)`: record s and what lies below it, unless it
        is a single character or already recorded.  Everything recorded
        that is no longer than s is already complete. */
    method Visit(s: string, seen: set<string>) returns (seen': set<string>)
      requires ReverseWellFormed(reverse)
      requires forall x :: x in seen && |x| <= |s| ==> Below(x, reverse) <= seen
      ensures seen' == if |s| > 1 then seen + Below(s, reverse) else seen
      decreases |s|, 1
    {
      seen' := seen;
      if |s| > 1 && s !in seen {
        seen' := seen' + {s};
        if s in reverse {
          seen' := Expand(s, seen');
        }
      }
    }

    /** `prereqs2(s, pair)`: record s and visit both halves of its entry. */
    method Expand(s: string, seen: set<string>) returns (seen': set<string>)
      requires ReverseWellFormed(reverse) && s in reverse
      requires forall x :: x in seen && |x| < |s| ==> Below(x, reverse) <= seen
      ensures seen' == seen + Below(s, reverse)
      decreases |s|, 0
    {
      var a, b := reverse[s].0, reverse[s].1;
      seen' := seen + {s};
      seen' := Visit(a, seen');
      forall x | x in seen' && |x| <= |b|
        ensures Below(x, reverse) <= seen'
      {
        if x !in seen {
          BelowTransitive(a, x, reverse);
        }
      }
      seen' := Visit(b, seen');
    }

    /** `prereqs(vocab)`: every fused string whose written form the
        vocabulary holds, with all it is built from. */
    method Prereqs(bpevocab: set<string>) returns (seen: set<string>)
      requires Valid()
      ensures seen == PrereqClosure(reverse, bpevocab, separator)
    {
      var roots := Roots(reverse, bpevocab, separator);
      seen := {};
      var todo := reverse.Keys;
      ghost var picked: set<string> := {};
      while todo != {}
        invariant todo <= reverse.Keys
        invariant picked <= roots && roots - picked <= todo
        invariant seen == Closure(picked, reverse)
        decreases |todo|
      {
        var ab :| ab in todo;
        todo := todo - {ab};
        if Written(ab, separator) in bpevocab {
          forall x | x in seen ensures Below(x, reverse) <= seen {
            ClosureClosed(picked, reverse, x);
          }
          seen := Expand(ab, seen);
          ClosureAdd(picked, ab, reverse);
          picked := picked + {ab};
        }
      }
      assert forall x :: x in roots ==> x in roots - picked || x in picked;
      assert picked == roots;
    }

    /** `write_subset`: the header, then the merges wanted for the given
        vocabulary or prerequisites, in ascending rank.  A version with
        fewer than two components (a `#version: 3` header) fails with the
        `IndexError` of `write_header`, before anything is written. */
    method WriteSubset(bpevocab: set<string>, pre: Option<set<string>>) returns (lines: Result<seq<string>>)
      requires Valid()
      ensures lines.Err? <==> |version| < 2
      ensures lines.Err? ==> lines.error == IndexError
      ensures |version| >= 2 ==>
        var p := if pre.Some? then pre.value else PrereqClosure(reverse, bpevocab, separator);
        lines == Ok([WriteHeader(version)] + PairLines(SelectPairs(OrderedCodes(codes), bpevocab, p, separator)))
    {
      if |version| < 2 {
        return Err(IndexError);
      }
      var p: set<string>;
      if pre.None? {
        p := Prereqs(bpevocab);
      } else {
        p := pre.value;
      }
      var body := SelectLines(OrderedCodes(codes), bpevocab, p, separator);
      lines := Ok([WriteHeader(version)] + body);
    }
  }
}
