/** What encoding one word means, as functions: the initial symbols, the
    merge loop by least rank, removal of the end-of-word marker, and the
    vocabulary-driven splitting back through the reverse map. */
module Encoding {
  import opened Symbols
  import opened CodeTable

  /** The two ways `encode` can fail: a table version it does not know
      (NotImplementedError) and, under version 0.2, an empty word
      (IndexError on `orig[-1]`). */
  datatype Error = NotImplemented | IndexError

  datatype Result<T> = Ok(value: T) | Err(error: Error)

  // ---------------------------------------------------------------------
  // Initial symbols

  /** A version the encoder knows: (0, 1) or (0, 2). */
  predicate KnownVersion(version: seq<int>)
  {
    version == [0, 1] || version == [0, 2]
  }

  /** The word before any merge.  With a detached marker (0.1) it is one
      symbol per character followed by `</w>`; otherwise (0.2) the marker is
      glued to the last character. */
  function InitialSymbols(orig: string, detached: bool): (w: seq<string>)
    requires detached || orig != ""
    ensures detached ==> |w| == |orig| + 1 && w[|orig|] == EndWord
    ensures !detached ==> |w| == |orig| && w[|orig| - 1] == [orig[|orig| - 1]] + EndWord
    ensures forall i :: 0 <= i < |orig| - 1 ==> w[i] == [orig[i]]
  {
    if detached then Chars(orig) + [EndWord]
    else Chars(orig[..|orig| - 1]) + [[orig[|orig| - 1]] + EndWord]
  }

  /** Either way, the initial symbols spell the word followed by the marker,
      every symbol is nonempty, and the last one ends with the marker. */
  lemma InitialSymbolsSpell(orig: string, detached: bool)
    requires detached || orig != ""
    ensures Concat(InitialSymbols(orig, detached)) == orig + EndWord
    ensures forall i :: 0 <= i < |InitialSymbols(orig, detached)| ==> InitialSymbols(orig, detached)[i] != ""
    ensures EndsWith(InitialSymbols(orig, detached)[|InitialSymbols(orig, detached)| - 1], EndWord)
  {
    var w := InitialSymbols(orig, detached);
    if detached {
      ConcatAppend(Chars(orig), [EndWord]);
      ConcatChars(orig);
      ConcatSingle(EndWord);
    } else {
      var n := |orig| - 1;
      var last := [orig[n]] + EndWord;
      ConcatAppend(Chars(orig[..n]), [last]);
      ConcatChars(orig[..n]);
      ConcatSingle(last);
      assert orig == orig[..n] + [orig[n]];
      assert last[|last| - 4..] == EndWord;
    }
  }

  // ---------------------------------------------------------------------
  // Choosing the next merge

  /** The first pair of least rank among ps, ignoring unranked pairs. */
  function BestRanked(ps: seq<Pair>, ranks: map<Pair, nat>): (r: Option<Pair>)
    ensures r.None? <==> forall i :: 0 <= i < |ps| ==> ps[i] !in ranks
    ensures r.Some? ==> r.value in ps && r.value in ranks
    ensures r.Some? ==> forall i :: 0 <= i < |ps| && ps[i] in ranks ==> ranks[r.value] <= ranks[ps[i]]
  {
    if ps == [] then None
    else
      var rest := BestRanked(ps[1..], ranks);
      assert forall i :: 1 <= i < |ps| ==> ps[i] == ps[1..][i - 1];
      if ps[0] !in ranks then rest
      else if rest.None? || ranks[ps[0]] <= ranks[rest.value] then Some(ps[0])
      else rest
  }

  /** `min(pairs, key=rank)` followed by the `not in bpe_codes` test: the
      present pair of least rank, or None when no present pair is ranked. */
  function MinRanked(w: seq<string>, ranks: map<Pair, nat>): (r: Option<Pair>)
    ensures r.None? <==> forall p :: HasPair(w, p) ==> p !in ranks
    ensures r.Some? ==> HasPair(w, r.value) && r.value in ranks
    ensures r.Some? ==> forall p :: HasPair(w, p) && p in ranks ==> ranks[r.value] <= ranks[p]
  {
    var a := Adj(w);
    var r := BestRanked(a, ranks);
    forall p ensures HasPair(w, p) <==> p in a {
      InAdj(w, p);
    }
    r
  }

  /** When ranks are distinct (as in a rank table) the least-ranked present
      pair is unique, so the choice does not depend on set iteration order. */
  lemma MinRankedUnique(w: seq<string>, ranks: map<Pair, nat>, q: Pair)
    requires forall p1, p2 :: p1 in ranks && p2 in ranks && p1 != p2 ==> ranks[p1] != ranks[p2]
    requires HasPair(w, q) && q in ranks
    requires forall p :: HasPair(w, p) && p in ranks ==> ranks[q] <= ranks[p]
    ensures MinRanked(w, ranks) == Some(q)
  {
    var r := MinRanked(w, ranks);
    assert r.Some?;
    assert ranks[r.value] <= ranks[q] && ranks[q] <= ranks[r.value];
  }

  // ---------------------------------------------------------------------
  // The merge loop

  /** Merge the least-ranked present pair until none is ranked or a single
      symbol is left.  Each pass strictly shortens the word. */
  function MergeLoop(w: seq<string>, ranks: map<Pair, nat>): (r: seq<string>)
    requires |w| >= 2
    ensures 1 <= |r| <= |w|
    decreases |w|
  {
    match MinRanked(w, ranks)
    case None => w
    case Some(p) =>
      FuseLength(w, p);
      FuseHead(w, p);
      var w' := Fuse(w, p);
      if |w'| == 1 then w' else MergeLoop(w', ranks)
  }

  /** The merge loop stops in one of the two ways the source's loop does. */
  lemma {:induction false} MergeLoopStops(w: seq<string>, ranks: map<Pair, nat>)
    requires |w| >= 2
    ensures |MergeLoop(w, ranks)| == 1 || MinRanked(MergeLoop(w, ranks), ranks).None?
    decreases |w|
  {
    match MinRanked(w, ranks)
    case None =>
    case Some(p) =>
      FuseLength(w, p);
      FuseHead(w, p);
      if |Fuse(w, p)| != 1 {
        MergeLoopStops(Fuse(w, p), ranks);
      }
  }

  /** Merging preserves the spelling, nonempty symbols, and a marker at the end. */
  lemma {:induction false} MergeLoopSpelling(w: seq<string>, ranks: map<Pair, nat>)
    requires |w| >= 2
    requires forall i :: 0 <= i < |w| ==> w[i] != ""
    requires EndsWith(w[|w| - 1], EndWord)
    ensures Concat(MergeLoop(w, ranks)) == Concat(w)
    ensures forall i :: 0 <= i < |MergeLoop(w, ranks)| ==> MergeLoop(w, ranks)[i] != ""
    ensures EndsWith(MergeLoop(w, ranks)[|MergeLoop(w, ranks)| - 1], EndWord)
    decreases |w|
  {
    match MinRanked(w, ranks)
    case None =>
    case Some(p) =>
      FuseLength(w, p);
      FuseKeepsSpelling(w, p);
      if |Fuse(w, p)| != 1 {
        MergeLoopSpelling(Fuse(w, p), ranks);
      }
  }

  /** One merge keeps the spelling, nonempty symbols, and the marker at
      the end. */
  lemma FuseKeepsSpelling(w: seq<string>, p: Pair)
    requires |w| >= 1 && EndsWith(w[|w| - 1], EndWord)
    requires forall i :: 0 <= i < |w| ==> w[i] != ""
    ensures Concat(Fuse(w, p)) == Concat(w)
    ensures forall i :: 0 <= i < |Fuse(w, p)| ==> Fuse(w, p)[i] != ""
    ensures |Fuse(w, p)| >= 1 && EndsWith(Fuse(w, p)[|Fuse(w, p)| - 1], EndWord)
  {
    FuseConcat(w, p);
    FuseNonEmpty(w, p);
    FuseLastSuffix(w, p, EndWord);
  }

  // ---------------------------------------------------------------------
  // Removing the end-of-word marker

  /** `s.replace('</w>', '')`: every occurrence removed, scanning left to right. */
  function RemoveMarker(s: string): (r: string)
    ensures |r| <= |s|
  {
    if s == [] then s
    else if StartsWith(s, EndWord) then RemoveMarker(s[4..])
    else [s[0]] + RemoveMarker(s[1..])
  }

  /** A string with no marker in it, followed by one marker, loses exactly
      that marker. */
  lemma {:induction false} RemoveMarkerTail(x: string)
    requires !Contains(x, EndWord)
    ensures RemoveMarker(x + EndWord) == x
  {
    var s := x + EndWord;
    if x == [] {
      assert s == EndWord;
      assert s[4..] == [];
    } else {
      // a marker starting inside x would either lie inside x or overlap the
      // final marker, whose first character '<' occurs nowhere else in it
      if |x| >= 4 {
        assert s[..4] == x[..4];
        assert !OccursAt(x, EndWord, 0);
      } else {
        assert s[|x|] == '<' && EndWord[|x|] != '<';
      }
      assert !StartsWith(s, EndWord);
      assert s[1..] == x[1..] + EndWord;
      forall i | 0 <= i <= |x[1..]| ensures !OccursAt(x[1..], EndWord, i) {
        assert i + 1 <= |x|;
        assert !OccursAt(x, EndWord, i + 1);
        if i + 4 <= |x[1..]| {
          assert x[1..][i..i + 4] == x[i + 1..i + 5];
        }
      }
      RemoveMarkerTail(x[1..]);
      assert [x[0]] + x[1..] == x;
    }
  }

  /** The word with its end-of-word marker removed: a bare final marker is
      dropped, and a final symbol ending with the marker loses every marker. */
  function StripMarker(w: seq<string>): (r: seq<string>)
    requires |w| >= 1
    ensures w[|w| - 1] == EndWord ==> r == w[..|w| - 1]
    ensures w[|w| - 1] != EndWord && EndsWith(w[|w| - 1], EndWord) ==>
              r == w[..|w| - 1] + [RemoveMarker(w[|w| - 1])]
    ensures !EndsWith(w[|w| - 1], EndWord) ==> r == w
  {
    var last := w[|w| - 1];
    if last == EndWord then w[..|w| - 1]
    else if EndsWith(last, EndWord) then w[..|w| - 1] + [RemoveMarker(last)]
    else w
  }

  /** Stripping undoes the marker the initial symbols added: a merged word
      spelling orig + `</w>` spells orig afterwards, when orig has no marker. */
  lemma StripMarkerSpelling(w: seq<string>, orig: string)
    requires |w| >= 1 && Concat(w) == orig + EndWord
    requires EndsWith(w[|w| - 1], EndWord) && !Contains(orig, EndWord)
    ensures Concat(StripMarker(w)) == orig
  {
    var n := |w| - 1;
    var front, last := w[..n], w[n];
    ConcatLast(w);
    var y := last[..|last| - 4];
    var p := Concat(front);
    PeelMarker(p, last, orig);
    if last != EndWord {
      MarkerFreeSuffix(orig, p, y);
      RemoveMarkerTail(y);
      StripLastSpelling(w, y);
    }
  }

  /** A spelling that ends with the marker spells orig without it. */
  lemma PeelMarker(p: string, last: string, orig: string)
    requires p + last == orig + EndWord && EndsWith(last, EndWord)
    ensures last == last[..|last| - 4] + EndWord
    ensures p + last[..|last| - 4] == orig
  {
    var y := last[..|last| - 4];
    assert last == y + EndWord;
    assert p + y + EndWord == orig + EndWord by {
      assert p + last == p + y + EndWord;
    }
    CancelSuffix(p + y, orig, EndWord);
  }

  lemma MarkerFreeSuffix(s: string, p: string, y: string)
    requires p + y == s && !Contains(s, EndWord)
    ensures !Contains(y, EndWord)
  {
    assert y == s[|p|..|s|];
    NoInfix(s, EndWord, |p|, |s|);
  }

  lemma StripLastSpelling(w: seq<string>, y: string)
    requires |w| >= 1 && w[|w| - 1] != EndWord && EndsWith(w[|w| - 1], EndWord)
    requires RemoveMarker(w[|w| - 1]) == y
    ensures Concat(StripMarker(w)) == Concat(w[..|w| - 1]) + y
  {
    var front := w[..|w| - 1];
    assert StripMarker(w) == front + [y];
    ConcatAppend(front, [y]);
    ConcatSingle(y);
  }

  lemma ConcatLast(w: seq<string>)
    requires |w| >= 1
    ensures Concat(w) == Concat(w[..|w| - 1]) + w[|w| - 1]
  {
    assert w == w[..|w| - 1] + [w[|w| - 1]];
    ConcatAppend(w[..|w| - 1], [w[|w| - 1]]);
    ConcatSingle(w[|w| - 1]);
  }

  lemma CancelSuffix(a: string, b: string, e: string)
    requires a + e == b + e
    ensures a == b
  {
    assert |a| == |b|;
    assert forall i :: 0 <= i < |a| ==> a[i] == (a + e)[i] == (b + e)[i] == b[i];
  }

  // ---------------------------------------------------------------------
  // Splitting back out-of-vocabulary pieces

  /** `right[:-4]`: the string without its last four characters, or "" when
      it is shorter than that. */
  function DropEnd(s: string): (r: string)
    ensures |s| >= 4 ==> r + s[|s| - 4..] == s
    ensures |s| < 4 ==> r == ""
  {
    if |s| >= 4 then s[..|s| - 4] else ""
  }

  /** What `recursive_split` needs of the reverse map to terminate: every
      entry splits its key into two nonempty halves, and the marker alone
      is not a key. */
  predicate SplitTable(rev: map<string, Pair>)
  {
    ReverseWellFormed(rev) && EndWord !in rev
  }

  /** What encoding needs of the reverse map: well formed, and fit for
      splitting whenever a vocabulary is given. */
  predicate SplitReady(rev: map<string, Pair>, vocab: set<string>)
  {
    ReverseWellFormed(rev) && (vocab != {} ==> EndWord !in rev)
  }

  /** When a key ends with the marker, its right half contains the whole
      marker: true of every table whose marker only ever occurs at the end
      of a merged symbol. */
  predicate EndAligned(rev: map<string, Pair>)
  {
    forall k :: k in rev && EndsWith(k, EndWord) ==> |rev[k].1| >= 4
  }

  /** Whether a piece is accepted as it stands: a final piece bare, any
      other piece with the separator appended. */
  predicate Accepted(x: string, vocab: set<string>, sep: string, final: bool)
  {
    if final then x in vocab else x + sep in vocab
  }

  /** The reverse-map key a piece is looked up under. */
  function Key(x: string, final: bool): string
  {
    if final then x + EndWord else x
  }

  /** `recursive_split`: undo merges through the reverse map until each
      piece is accepted or cannot be split further. */
  function RecursiveSplit(segment: string, rev: map<string, Pair>, vocab: set<string>, sep: string, final: bool): (r: seq<string>)
    requires SplitTable(rev)
    ensures |r| >= 1
    decreases |segment| + (if final then 4 else 0)
  {
    var key := Key(segment, final);
    if key !in rev then [segment]
    else
      var left := rev[key].0;
      var right := if final then DropEnd(rev[key].1) else rev[key].1;
      assert |left| < |key| && |rev[key].1| < |key|;
      assert final && segment == "" ==> key == EndWord;
      var ls := if Accepted(left, vocab, sep, false) then [left] else RecursiveSplit(left, rev, vocab, sep, false);
      var rs := if Accepted(right, vocab, sep, final) then [right] else RecursiveSplit(right, rev, vocab, sep, final);
      ls + rs
  }

  /** A piece is settled when it is accepted or has no reverse entry. */
  predicate Settled(x: string, rev: map<string, Pair>, vocab: set<string>, sep: string, final: bool)
  {
    Accepted(x, vocab, sep, final) || Key(x, final) !in rev
  }

  /** Every piece but the last is settled as a non-final piece, the last
      one as the segment was. */
  predicate AllSettled(r: seq<string>, rev: map<string, Pair>, vocab: set<string>, sep: string, final: bool)
  {
    && |r| >= 1
    && (forall i :: 0 <= i < |r| - 1 ==> Settled(r[i], rev, vocab, sep, false))
    && Settled(r[|r| - 1], rev, vocab, sep, final)
  }

  /** Every piece `recursive_split` yields is settled; all but the last are
      tested as non-final pieces, the last as the segment was. */
  lemma {:induction false} RecursiveSplitSettled(segment: string, rev: map<string, Pair>, vocab: set<string>, sep: string, final: bool)
    requires SplitTable(rev)
    ensures AllSettled(RecursiveSplit(segment, rev, vocab, sep, final), rev, vocab, sep, final)
    decreases |segment| + (if final then 4 else 0), 0
  {
    var key := Key(segment, final);
    if key in rev {
      var left := rev[key].0;
      var right := if final then DropEnd(rev[key].1) else rev[key].1;
      assert |left| < |key| && |rev[key].1| < |key|;
      var ls := if Accepted(left, vocab, sep, false) then [left] else RecursiveSplit(left, rev, vocab, sep, false);
      var rs := if Accepted(right, vocab, sep, final) then [right] else RecursiveSplit(right, rev, vocab, sep, final);
      assert final && segment == "" ==> key == EndWord;
      assert RecursiveSplit(segment, rev, vocab, sep, final) == ls + rs;
      HalfSettled(left, rev, vocab, sep, false);
      HalfSettled(right, rev, vocab, sep, final);
      SettledConcat(ls, rs, rev, vocab, sep, final);
    }
  }

  /** A half is kept when accepted and split further otherwise; either way
      its pieces are settled. */
  lemma {:induction false} HalfSettled(x: string, rev: map<string, Pair>, vocab: set<string>, sep: string, final: bool)
    requires SplitTable(rev)
    ensures AllSettled(if Accepted(x, vocab, sep, final) then [x] else RecursiveSplit(x, rev, vocab, sep, final), rev, vocab, sep, final)
    decreases |x| + (if final then 4 else 0), 1
  {
    if !Accepted(x, vocab, sep, final) {
      RecursiveSplitSettled(x, rev, vocab, sep, final);
    }
  }

  lemma SettledConcat(ls: seq<string>, rs: seq<string>, rev: map<string, Pair>, vocab: set<string>, sep: string, final: bool)
    requires AllSettled(ls, rev, vocab, sep, false) && AllSettled(rs, rev, vocab, sep, final)
    ensures AllSettled(ls + rs, rev, vocab, sep, final)
  {
    var r := ls + rs;
    forall i | 0 <= i < |r| - 1 ensures Settled(r[i], rev, vocab, sep, false) {
      if i < |ls| {
        assert r[i] == ls[i];
      } else {
        assert r[i] == rs[i - |ls|];
      }
    }
    assert r[|r| - 1] == rs[|rs| - 1];
  }

  /** The pieces spell the segment back, provided a final right half holds
      the whole marker. */
  lemma {:induction false} RecursiveSplitSpelling(segment: string, rev: map<string, Pair>, vocab: set<string>, sep: string, final: bool)
    requires SplitTable(rev) && EndAligned(rev)
    ensures Concat(RecursiveSplit(segment, rev, vocab, sep, final)) == segment
    decreases |segment| + (if final then 4 else 0)
  {
    var key := Key(segment, final);
    if key !in rev {
      ConcatSingle(segment);
    } else {
      var left := rev[key].0;
      var right := if final then DropEnd(rev[key].1) else rev[key].1;
      assert |left| < |key| && |rev[key].1| < |key|;
      var ls := if Accepted(left, vocab, sep, false) then [left] else RecursiveSplit(left, rev, vocab, sep, false);
      var rs := if Accepted(right, vocab, sep, final) then [right] else RecursiveSplit(right, rev, vocab, sep, final);
      if Accepted(left, vocab, sep, false) {
        ConcatSingle(left);
      } else {
        RecursiveSplitSpelling(left, rev, vocab, sep, false);
      }
      if Accepted(right, vocab, sep, final) {
        ConcatSingle(right);
      } else {
        RecursiveSplitSpelling(right, rev, vocab, sep, final);
      }
      ConcatAppend(ls, rs);
      if final {
        assert EndsWith(key, EndWord) by {
          assert key[|key| - 4..] == EndWord;
        }
        FinalHalves(segment, left, rev[key].1);
      }
    }
  }

  /** The halves of a final key, with the marker dropped from the right
      one, spell the segment. */
  lemma FinalHalves(segment: string, left: string, r0: string)
    requires left + r0 == segment + EndWord && |r0| >= 4
    ensures left + DropEnd(r0) == segment
  {
    var key := segment + EndWord;
    assert r0[|r0| - 4..] == EndWord by {
      assert r0[|r0| - 4..] == (left + r0)[|key| - 4..];
    }
    var right := DropEnd(r0);
    assert right + EndWord == r0;
    assert left + right + EndWord == segment + EndWord;
    calc {
      left + right;
      (left + right + EndWord)[..|left + right|];
      (segment + EndWord)[..|segment|];
      segment;
    }
  }

  /** One segment of `check_vocab_and_split`: kept when accepted, split
      otherwise. */
  function SplitPiece(segment: string, rev: map<string, Pair>, vocab: set<string>, sep: string, final: bool): (r: seq<string>)
    requires SplitTable(rev)
    ensures Accepted(segment, vocab, sep, final) ==> r == [segment]
    ensures !Accepted(segment, vocab, sep, final) ==> r == RecursiveSplit(segment, rev, vocab, sep, final)
  {
    if Accepted(segment, vocab, sep, final) then [segment] else RecursiveSplit(segment, rev, vocab, sep, final)
  }

  /** The non-final segments of `check_vocab_and_split`, in order. */
  function SplitInner(segments: seq<string>, rev: map<string, Pair>, vocab: set<string>, sep: string): seq<string>
    requires SplitTable(rev)
  {
    if segments == [] then []
    else SplitInner(segments[..|segments| - 1], rev, vocab, sep) + SplitPiece(segments[|segments| - 1], rev, vocab, sep, false)
  }

  /** `check_vocab_and_split` on a nonempty word. */
  function CheckVocab(word: seq<string>, rev: map<string, Pair>, vocab: set<string>, sep: string): seq<string>
    requires SplitTable(rev) && |word| >= 1
  {
    SplitInner(word[..|word| - 1], rev, vocab, sep) + SplitPiece(word[|word| - 1], rev, vocab, sep, true)
  }

  lemma SplitPieceSpelling(segment: string, rev: map<string, Pair>, vocab: set<string>, sep: string, final: bool)
    requires SplitTable(rev) && EndAligned(rev)
    ensures Concat(SplitPiece(segment, rev, vocab, sep, final)) == segment
  {
    if Accepted(segment, vocab, sep, final) {
      ConcatSingle(segment);
    } else {
      RecursiveSplitSpelling(segment, rev, vocab, sep, final);
    }
  }

  lemma {:induction false} SplitInnerSpelling(segments: seq<string>, rev: map<string, Pair>, vocab: set<string>, sep: string)
    requires SplitTable(rev) && EndAligned(rev)
    ensures Concat(SplitInner(segments, rev, vocab, sep)) == Concat(segments)
  {
    if segments != [] {
      var n := |segments| - 1;
      var a := SplitInner(segments[..n], rev, vocab, sep);
      var b := SplitPiece(segments[n], rev, vocab, sep, false);
      SplitInnerSpelling(segments[..n], rev, vocab, sep);
      SplitPieceSpelling(segments[n], rev, vocab, sep, false);
      ConcatAppend(a, b);
      ConcatLast(segments);
    }
  }

  /** Splitting never changes the spelling of the word. */
  lemma CheckVocabSpelling(word: seq<string>, rev: map<string, Pair>, vocab: set<string>, sep: string)
    requires SplitTable(rev) && EndAligned(rev) && |word| >= 1
    ensures Concat(CheckVocab(word, rev, vocab, sep)) == Concat(word)
  {
    var n := |word| - 1;
    var a := SplitInner(word[..n], rev, vocab, sep);
    var b := SplitPiece(word[n], rev, vocab, sep, true);
    SplitInnerSpelling(word[..n], rev, vocab, sep);
    SplitPieceSpelling(word[n], rev, vocab, sep, true);
    ConcatAppend(a, b);
    ConcatLast(word);
  }

  lemma {:induction false} SplitInnerKeeps(segments: seq<string>, rev: map<string, Pair>, vocab: set<string>, sep: string)
    requires SplitTable(rev)
    requires forall i :: 0 <= i < |segments| ==> Accepted(segments[i], vocab, sep, false)
    ensures SplitInner(segments, rev, vocab, sep) == segments
  {
    if segments != [] {
      var n := |segments| - 1;
      SplitInnerKeeps(segments[..n], rev, vocab, sep);
      assert segments == segments[..n] + [segments[n]];
    }
  }

  /** A word whose segments are all accepted (non-final ones with the
      separator, the last one bare) is kept unchanged. */
  lemma CheckVocabKeeps(word: seq<string>, rev: map<string, Pair>, vocab: set<string>, sep: string)
    requires SplitTable(rev) && |word| >= 1
    requires forall i :: 0 <= i < |word| - 1 ==> Accepted(word[i], vocab, sep, false)
    requires Accepted(word[|word| - 1], vocab, sep, true)
    ensures CheckVocab(word, rev, vocab, sep) == word
  {
    var n := |word| - 1;
    SplitInnerKeeps(word[..n], rev, vocab, sep);
    assert word == word[..n] + [word[n]];
  }

  // ---------------------------------------------------------------------
  // The whole of `encode`, cache aside

  /** True when the initial word has at least one pair, i.e. the merge loop
      runs and the result is cached. */
  predicate Mergeable(orig: string, version: seq<int>)
    requires KnownVersion(version)
    requires version == [0, 1] || orig != ""
  {
    |InitialSymbols(orig, version == [0, 1])| >= 2
  }

  /** `encode` without its cache: the pieces of one word.  A word with no
      pair at all comes back as its characters (the source returns the
      string itself, which its caller appends character by character). */
  function EncodeWord(orig: string, version: seq<int>, ranks: map<Pair, nat>, rev: map<string, Pair>, vocab: set<string>, sep: string): (r: Result<seq<string>>)
    requires SplitReady(rev, vocab)
    ensures r.Err? <==> !KnownVersion(version) || (version == [0, 2] && orig == "")
    ensures !KnownVersion(version) ==> r == Err(NotImplemented)
  {
    if !KnownVersion(version) then Err(NotImplemented)
    else if version == [0, 2] && orig == "" then Err(IndexError)
    else
      var w := InitialSymbols(orig, version == [0, 1]);
      if |w| < 2 then Ok(Chars(orig))
      else
        var merged := MergeLoop(w, ranks);
        InitialSymbolsSpell(orig, version == [0, 1]);
        MergeLoopSpelling(w, ranks);
        var stripped := StripMarker(merged);
        assert |stripped| >= 1;
        if vocab == {} then Ok(stripped) else Ok(CheckVocab(stripped, rev, vocab, sep))
  }

  /** Encoding a word that has a pair: merge, strip the marker, and split
      when a vocabulary is given. */
  lemma EncodeWordMerged(orig: string, version: seq<int>, ranks: map<Pair, nat>, rev: map<string, Pair>, vocab: set<string>, sep: string)
    requires SplitReady(rev, vocab) && KnownVersion(version) && (version == [0, 1] || orig != "")
    requires |InitialSymbols(orig, version == [0, 1])| >= 2
    ensures |StripMarker(MergeLoop(InitialSymbols(orig, version == [0, 1]), ranks))| >= 1
    ensures EncodeWord(orig, version, ranks, rev, vocab, sep) ==
      Ok(if vocab == {} then StripMarker(MergeLoop(InitialSymbols(orig, version == [0, 1]), ranks))
         else CheckVocab(StripMarker(MergeLoop(InitialSymbols(orig, version == [0, 1]), ranks)), rev, vocab, sep))
  {
    var w := InitialSymbols(orig, version == [0, 1]);
    MergedNonempty(orig, version == [0, 1], ranks);
    var m := StripMarker(MergeLoop(w, ranks));
    assert !(version == [0, 2] && orig == "");
    if vocab == {} {
      assert EncodeWord(orig, version, ranks, rev, vocab, sep) == Ok(m);
    } else {
      assert EncodeWord(orig, version, ranks, rev, vocab, sep) == Ok(CheckVocab(m, rev, vocab, sep));
    }
  }

  /** Merging a word with a pair and stripping the marker leaves at least
      one piece. */
  lemma MergedNonempty(orig: string, detached: bool, ranks: map<Pair, nat>)
    requires detached || orig != ""
    requires |InitialSymbols(orig, detached)| >= 2
    ensures |StripMarker(MergeLoop(InitialSymbols(orig, detached), ranks))| >= 1
  {
    var w := InitialSymbols(orig, detached);
    InitialSymbolsSpell(orig, detached);
    MergeLoopSpelling(w, ranks);
    StripNonempty(MergeLoop(w, ranks), orig);
  }

  /** Stripping the marker from the symbols of a nonempty word leaves a
      piece. */
  lemma StripNonempty(m: seq<string>, orig: string)
    requires |m| >= 1 && Concat(m) == orig + EndWord && |orig| >= 1
    ensures |StripMarker(m)| >= 1
  {
    if |m| == 1 {
      assert m == [m[0]];
      ConcatSingle(m[0]);
    }
  }

  /** Encoding spells the word back: the pieces concatenate to orig, for any
      word without a marker in it (and, with a vocabulary, a table whose
      marker halves are aligned). */
  lemma EncodeWordSpelling(orig: string, version: seq<int>, ranks: map<Pair, nat>, rev: map<string, Pair>, vocab: set<string>, sep: string)
    requires SplitReady(rev, vocab) && (vocab != {} ==> EndAligned(rev))
    requires KnownVersion(version) && (version == [0, 1] || orig != "")
    requires !Contains(orig, EndWord)
    ensures EncodeWord(orig, version, ranks, rev, vocab, sep).Ok?
    ensures Concat(EncodeWord(orig, version, ranks, rev, vocab, sep).value) == orig
  {
    var w := InitialSymbols(orig, version == [0, 1]);
    if |w| < 2 {
      ConcatChars(orig);
      assert EncodeWord(orig, version, ranks, rev, vocab, sep) == Ok(Chars(orig));
    } else {
      EncodeWordMerged(orig, version, ranks, rev, vocab, sep);
      MergedSpelling(orig, version == [0, 1], ranks, rev, vocab, sep);
    }
  }

  /** The merge, strip and split steps of `encode` keep the spelling. */
  lemma MergedSpelling(orig: string, detached: bool, ranks: map<Pair, nat>, rev: map<string, Pair>, vocab: set<string>, sep: string)
    requires SplitReady(rev, vocab) && (vocab != {} ==> EndAligned(rev))
    requires (detached || orig != "") && !Contains(orig, EndWord)
    requires |InitialSymbols(orig, detached)| >= 2
    ensures |StripMarker(MergeLoop(InitialSymbols(orig, detached), ranks))| >= 1
    ensures Concat(StripMarker(MergeLoop(InitialSymbols(orig, detached), ranks))) == orig
    ensures vocab != {} ==> Concat(CheckVocab(StripMarker(MergeLoop(InitialSymbols(orig, detached), ranks)), rev, vocab, sep)) == orig
  {
    var w := InitialSymbols(orig, detached);
    var merged := MergeLoop(w, ranks);
    InitialSymbolsSpell(orig, detached);
    MergeLoopSpelling(w, ranks);
    StripMarkerSpelling(merged, orig);
    var stripped := StripMarker(merged);
    if vocab != {} {
      CheckVocabSpelling(stripped, rev, vocab, sep);
    }
  }
}
