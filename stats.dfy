/** The pair statistics of the merge learner, as functions: the recount
    that `get_pair_statistics` performs, the pairs that
    `update_pair_statistics` takes away and adds around each rewritten word,
    and the proof that the incremental update lands on the recount. */
module PairStats {
  import opened Symbols

  /** A vocabulary entry: the symbols of a word and its frequency. */
  type Entry = (seq<string>, int)

  /** One rewritten word, as `replace_pair` records it: the position in the
      vocabulary, the new symbols, the old symbols and the frequency. */
  datatype Change = Change(j: nat, word: seq<string>, oldWord: seq<string>, freq: int)

  /** A lookup in a frequency table that defaults to 0, as a `defaultdict(int)` does. */
  function Get(m: map<Pair, int>, p: Pair): int
  {
    if p in m then m[p] else 0
  }

  /** A lookup in the pair-to-word index, defaulting to 0 at both levels. */
  function IGet(idx: map<Pair, map<nat, int>>, p: Pair, j: nat): int
  {
    if p in idx && j in idx[p] then idx[p][j] else 0
  }

  // ---------------------------------------------------------------------
  // The recount

  /** What c occurrences of a pair in a word of frequency f contribute:
      the frequency once per occurrence. */
  function Times(c: nat, f: int): int
  {
    if c == 0 then 0 else Times(c - 1, f) + f
  }

  lemma {:induction false} TimesAdd(a: nat, b: nat, f: int)
    ensures Times(a + b, f) == Times(a, f) + Times(b, f)
    decreases b
  {
    if b > 0 {
      TimesAdd(a, b - 1, f);
    }
  }

  /** The frequency-weighted number of occurrences of p in the first n words. */
  function Recount(ws: seq<Entry>, p: Pair, n: nat): int
    requires n <= |ws|
  {
    if n == 0 then 0 else Recount(ws, p, n - 1) + Times(Count(ws[n - 1].0, p), ws[n - 1].1)
  }

  /** The pairs that occur in at least one of the first n words. */
  function PairsOf(ws: seq<Entry>, n: nat): set<Pair>
    requires n <= |ws|
  {
    if n == 0 then {} else PairsOf(ws, n - 1) + PairSet(ws[n - 1].0)
  }

  /** A pair is among them iff one of those words has it. */
  lemma {:induction false} PairsOfMeaning(ws: seq<Entry>, n: nat)
    requires n <= |ws|
    ensures forall p :: p in PairsOf(ws, n) <==> exists j :: 0 <= j < n && HasPair(ws[j].0, p)
  {
    if n > 0 {
      PairsOfMeaning(ws, n - 1);
      forall p ensures p in PairsOf(ws, n) <==> exists j :: 0 <= j < n && HasPair(ws[j].0, p) {
        if HasPair(ws[n - 1].0, p) {
          assert p in PairSet(ws[n - 1].0);
        }
      }
    }
  }

  /** In particular, the first pair of a word of at least two symbols is
      among them. */
  lemma {:induction false} PairsOfHas(ws: seq<Entry>, n: nat, k: nat)
    requires k < n <= |ws| && |ws[k].0| >= 2
    ensures (ws[k].0[0], ws[k].0[1]) in PairsOf(ws, n)
  {
    if k < n - 1 {
      PairsOfHas(ws, n - 1, k);
    } else {
      assert HasPair(ws[k].0, (ws[k].0[0], ws[k].0[1]));
    }
  }

  /** The tables agree with a recount: every pair's frequency is the
      weighted number of its occurrences, and every index entry is the
      number of occurrences of the pair in that word. */
  ghost predicate Exact(st: map<Pair, int>, idx: map<Pair, map<nat, int>>, ws: seq<Entry>)
  {
    (forall p :: Get(st, p) == Recount(ws, p, |ws|)) &&
    (forall p, j :: 0 <= j < |ws| ==> IGet(idx, p, j) == Count(ws[j].0, p))
  }

  // ---------------------------------------------------------------------
  // What one rewritten word takes away and adds

  /** The pair formed by a preceding symbol (if any) and the first of s. */
  function Cross(prev: Option<string>, s: seq<string>): multiset<Pair>
  {
    if prev.Some? && |s| > 0 then multiset{(prev.value, s[0])} else multiset{}
  }

  predicate MatchAt(s: seq<string>, p: Pair)
  {
    |s| >= 2 && s[0] == p.0 && s[1] == p.1
  }

  /** The pairs `update_pair_statistics` decrements while it walks the old
      word s (preceded by prev) from one occurrence of p to the next: the
      pair ending in the occurrence, and the pair starting after it unless
      another occurrence follows at once (which will take it as its own
      left neighbour). */
  function Lost(prev: Option<string>, s: seq<string>, p: Pair): multiset<Pair>
    decreases |s|
  {
    if |s| < 2 then multiset{}
    else if MatchAt(s, p) then
      Cross(prev, s)
      + (if |s| > 2 && !MatchAt(s[2..], p) then multiset{(s[1], s[2])} else multiset{})
      + Lost(Some(s[1]), s[2..], p)
    else Lost(Some(s[0]), s[1..], p)
  }

  /** The pairs `update_pair_statistics` increments while it walks the new
      word v (preceded by prev) from one fused symbol ab to the next: the
      pair ending in it, and the pair starting at it unless the next symbol
      is fused as well (that pair is then the next one's left neighbour). */
  function Gained(prev: Option<string>, v: seq<string>, ab: string): multiset<Pair>
    decreases |v|
  {
    if v == [] then multiset{}
    else if v[0] == ab then
      Cross(prev, v)
      + (if |v| > 1 && v[1] != ab then multiset{(ab, v[1])} else multiset{})
      + Gained(Some(ab), v[1..], ab)
    else Gained(Some(v[0]), v[1..], ab)
  }

  /** One copy of p per occurrence that fusion consumes. */
  function Matched(s: seq<string>, p: Pair): multiset<Pair>
    decreases |s|
  {
    if |s| < 2 then multiset{}
    else if MatchAt(s, p) then multiset{p} + Matched(s[2..], p)
    else Matched(s[1..], p)
  }

  lemma AdjUnfold(s: seq<string>, q: Pair)
    requires |s| >= 1
    ensures multiset(Adj(s))[q] == Cross(Some(s[0]), s[1..])[q] + multiset(Adj(s[1..]))[q]
  {
    if |s| >= 2 {
      assert Adj(s) == [(s[0], s[1])] + Adj(s[1..]);
    }
  }

  /** The crossing pair that the occurrence before a suffix already
      decremented (when the suffix does not itself start with one). */
  function LostBefore(matched: bool, s: seq<string>, p: Pair): multiset<Pair>
  {
    if matched && |s| > 0 && !MatchAt(s, p) then multiset{(p.1, s[0])} else multiset{}
  }

  /** The crossing pair that the fused symbol before a suffix already
      incremented (when the suffix does not itself start with one). */
  function GainedBefore(matched: bool, f: seq<string>, ab: string): multiset<Pair>
  {
    if matched && |f| > 0 && f[0] != ab then multiset{(ab, f[0])} else multiset{}
  }

  /** The bookkeeping balance of one fused suffix, pair by pair.  `lo` is the
      old symbol before s and `matched` says whether it closed an occurrence
      (the new symbol before the fused suffix is then p.0 + p.1).  The pairs
      of the old suffix plus the increments equal the pairs of the new suffix
      plus the decrements and the consumed occurrences; the two correction
      terms are the crossing pairs that the occurrence before s accounts for. */
  lemma {:induction false} FuseBalance(lo: Option<string>, matched: bool, s: seq<string>, p: Pair, q: Pair)
    requires matched ==> lo == Some(p.1)
    requires forall k :: 0 <= k < |s| ==> s[k] != p.0 + p.1
    ensures
      var ab := p.0 + p.1;
      var f := Fuse(s, p);
      var ln := if matched then Some(ab) else lo;
      Cross(lo, s)[q] + multiset(Adj(s))[q] + Gained(ln, f, ab)[q] + GainedBefore(matched, f, ab)[q]
      == Cross(ln, f)[q] + multiset(Adj(f))[q] + Lost(lo, s, p)[q] + Matched(s, p)[q] + LostBefore(matched, s, p)[q]
    decreases |s|
  {
    var ab := p.0 + p.1;
    var ln := if matched then Some(ab) else lo;
    if |s| < 2 {
      assert Fuse(s, p) == s;
      if |s| == 1 {
        assert Gained(ln, s, ab) == Gained(Some(s[0]), s[1..], ab);
        assert s[1..] == [];
      }
    } else if MatchAt(s, p) {
      FuseBalanceMatch(lo, matched, s, p, q);
    } else {
      var t := s[1..];
      var g := Fuse(t, p);
      var f := [s[0]] + g;
      assert Fuse(s, p) == f;
      assert f[1..] == g;
      FuseBalance(Some(s[0]), false, t, p, q);
      AdjUnfold(s, q);
      AdjUnfold(f, q);
      assert Gained(ln, f, ab) == Gained(Some(s[0]), g, ab);
      assert Lost(lo, s, p) == Lost(Some(s[0]), t, p);
      assert Matched(s, p) == Matched(t, p);
    }
  }

  /** The step of FuseBalance where s starts with an occurrence. */
  lemma {:induction false} FuseBalanceMatch(lo: Option<string>, matched: bool, s: seq<string>, p: Pair, q: Pair)
    requires matched ==> lo == Some(p.1)
    requires forall k :: 0 <= k < |s| ==> s[k] != p.0 + p.1
    requires MatchAt(s, p)
    ensures
      var ab := p.0 + p.1;
      var f := Fuse(s, p);
      var ln := if matched then Some(ab) else lo;
      Cross(lo, s)[q] + multiset(Adj(s))[q] + Gained(ln, f, ab)[q] + GainedBefore(matched, f, ab)[q]
      == Cross(ln, f)[q] + multiset(Adj(f))[q] + Lost(lo, s, p)[q] + Matched(s, p)[q] + LostBefore(matched, s, p)[q]
    decreases |s|, 0
  {
    var ab := p.0 + p.1;
    var ln := if matched then Some(ab) else lo;
    var t := s[2..];
    var g := Fuse(t, p);
    var f := [ab] + g;
    FuseMatch(s, p);
    FuseBalance(Some(p.1), true, t, p, q);
    MatchAdj(s, p, q);
    FusedAdj(g, ab, q);
    LostMatch(lo, s, p, q);
    if |g| > 0 {
      FuseHead(t, p);
    }
    GainedFused(ln, g, ab, q);
  }

  lemma FuseMatch(s: seq<string>, p: Pair)
    requires MatchAt(s, p)
    ensures Fuse(s, p) == [p.0 + p.1] + Fuse(s[2..], p)
  {
  }

  lemma MatchAdj(s: seq<string>, p: Pair, q: Pair)
    requires MatchAt(s, p)
    ensures multiset(Adj(s))[q] == multiset{p}[q] + Cross(Some(p.1), s[2..])[q] + multiset(Adj(s[2..]))[q]
    ensures Matched(s, p)[q] == multiset{p}[q] + Matched(s[2..], p)[q]
  {
    AdjUnfold(s, q);
    AdjUnfold(s[1..], q);
    assert s[1..][1..] == s[2..];
    assert Cross(Some(s[0]), s[1..]) == multiset{p};
  }

  lemma FusedAdj(g: seq<string>, ab: string, q: Pair)
    ensures multiset(Adj([ab] + g))[q] == Cross(Some(ab), g)[q] + multiset(Adj(g))[q]
  {
    AdjUnfold([ab] + g, q);
    assert ([ab] + g)[1..] == g;
  }

  lemma LostMatch(lo: Option<string>, s: seq<string>, p: Pair, q: Pair)
    requires MatchAt(s, p)
    ensures Lost(lo, s, p)[q] == Cross(lo, s)[q] + LostBefore(true, s[2..], p)[q] + Lost(Some(p.1), s[2..], p)[q]
  {
  }

  lemma GainedFused(ln: Option<string>, g: seq<string>, ab: string, q: Pair)
    ensures Gained(ln, [ab] + g, ab)[q] == Cross(ln, [ab] + g)[q] + GainedBefore(true, g, ab)[q] + Gained(Some(ab), g, ab)[q]
  {
    assert ([ab] + g)[1..] == g;
  }

  /** Per word: for every pair other than the merged one, the count in the
      fused word is the old count minus the decrements plus the increments,
      provided no symbol of the old word already spelled the fused pair. */
  lemma FuseCount(w: seq<string>, p: Pair, q: Pair)
    requires q != p
    requires forall k :: 0 <= k < |w| ==> w[k] != p.0 + p.1
    ensures Count(Fuse(w, p), q) == Count(w, q) - Lost(None, w, p)[q] + Gained(None, Fuse(w, p), p.0 + p.1)[q]
  {
    FuseBalance(None, false, w, p, q);
    MatchedOnly(w, p, q);
  }

  lemma {:induction false} MatchedOnly(s: seq<string>, p: Pair, q: Pair)
    requires q != p
    ensures Matched(s, p)[q] == 0
    decreases |s|
  {
    if |s| >= 2 {
      if MatchAt(s, p) {
        MatchedOnly(s[2..], p, q);
      } else {
        MatchedOnly(s[1..], p, q);
      }
    }
  }

  // ---------------------------------------------------------------------
  // One merge over the whole vocabulary

  /** `replace_pair`'s new vocabulary: word j is fused when the index
      records at least one occurrence of the pair in it; frequencies stay. */
  function Replaced(ws: seq<Entry>, p: Pair, idx: map<Pair, map<nat, int>>): (r: seq<Entry>)
    ensures |r| == |ws|
  {
    seq(|ws|, j requires 0 <= j < |ws| => if IGet(idx, p, j) >= 1 then (Fuse(ws[j].0, p), ws[j].1) else ws[j])
  }

  /** `replace_pair`'s change records for the first n words, in word order. */
  function ChangesOf(ws: seq<Entry>, p: Pair, idx: map<Pair, map<nat, int>>, n: nat): seq<Change>
    requires n <= |ws|
  {
    if n == 0 then []
    else
      var rest := ChangesOf(ws, p, idx, n - 1);
      if IGet(idx, p, n - 1) >= 1 then rest + [Change(n - 1, Fuse(ws[n - 1].0, p), ws[n - 1].0, ws[n - 1].1)] else rest
  }

  /** What one change does to the count of q: increments minus decrements. */
  function Shift(c: Change, p: Pair, q: Pair): int
  {
    (Gained(None, c.word, p.0 + p.1)[q] as int) - (Lost(None, c.oldWord, p)[q] as int)
  }

  /** What one change does to the frequency of q: the frequency once per
      increment, minus once per decrement. */
  function FreqShift(c: Change, p: Pair, q: Pair): int
  {
    Times(Gained(None, c.word, p.0 + p.1)[q], c.freq) - Times(Lost(None, c.oldWord, p)[q], c.freq)
  }

  /** The frequency shift of q over a list of changes. */
  function StatsShift(cs: seq<Change>, p: Pair, q: Pair): int
  {
    if cs == [] then 0 else StatsShift(cs[..|cs| - 1], p, q) + FreqShift(cs[|cs| - 1], p, q)
  }

  /** The shift of the index entry for q and word k over a list of changes. */
  function IndexShift(cs: seq<Change>, p: Pair, q: Pair, k: nat): int
  {
    if cs == [] then 0
    else IndexShift(cs[..|cs| - 1], p, q, k) + (if cs[|cs| - 1].j == k then Shift(cs[|cs| - 1], p, q) else 0)
  }

  /** The pairs a list of changes decrements or increments (and so inserts
      into the table). */
  function Touched(cs: seq<Change>, p: Pair): set<Pair>
  {
    if cs == [] then {}
    else
      var c := cs[|cs| - 1];
      Touched(cs[..|cs| - 1], p) + (set x | x in Lost(None, c.oldWord, p)) + (set x | x in Gained(None, c.word, p.0 + p.1))
  }

  /** No word that contains the pair already has its fusion as a symbol. */
  ghost predicate Unspelled(ws: seq<Entry>, p: Pair)
  {
    forall j, k :: 0 <= j < |ws| && HasPair(ws[j].0, p) && 0 <= k < |ws[j].0| ==> ws[j].0[k] != p.0 + p.1
  }

  /** The change record `replace_pair` makes for word j. */
  function ChangeAt(ws: seq<Entry>, p: Pair, j: nat): Change
    requires j < |ws|
  {
    Change(j, Fuse(ws[j].0, p), ws[j].0, ws[j].1)
  }

  /** FuseCount, weighted by the frequency of the word. */
  lemma FuseTimes(w: seq<string>, p: Pair, q: Pair, freq: int)
    requires q != p
    requires forall k :: 0 <= k < |w| ==> w[k] != p.0 + p.1
    ensures Times(Count(Fuse(w, p), q), freq)
      == Times(Count(w, q), freq) + Times(Gained(None, Fuse(w, p), p.0 + p.1)[q], freq) - Times(Lost(None, w, p)[q], freq)
  {
    FuseCount(w, p, q);
    var gained, lost := Gained(None, Fuse(w, p), p.0 + p.1)[q], Lost(None, w, p)[q];
    TimesAdd(Count(Fuse(w, p), q), lost, freq);
    TimesAdd(Count(w, q), gained, freq);
  }

  lemma ReplacedEntry(ws: seq<Entry>, p: Pair, idx: map<Pair, map<nat, int>>, q: Pair, j: nat)
    requires j < |ws| && q != p
    requires IGet(idx, p, j) >= 1 ==> forall k :: 0 <= k < |ws[j].0| ==> ws[j].0[k] != p.0 + p.1
    ensures Replaced(ws, p, idx)[j].1 == ws[j].1
    ensures Times(Count(Replaced(ws, p, idx)[j].0, q), ws[j].1)
      == Times(Count(ws[j].0, q), ws[j].1) + (if IGet(idx, p, j) >= 1 then FreqShift(ChangeAt(ws, p, j), p, q) else 0)
  {
    if IGet(idx, p, j) >= 1 {
      FuseTimes(ws[j].0, p, q, ws[j].1);
    }
  }

  /** The entry of word j is free of the merged pair afterwards. */
  lemma ReplacedClean(ws: seq<Entry>, p: Pair, idx: map<Pair, map<nat, int>>, j: nat)
    requires j < |ws| && p.0 != "" && p.1 != ""
    requires IGet(idx, p, j) >= 1 || Count(ws[j].0, p) == 0
    ensures Count(Replaced(ws, p, idx)[j].0, p) == 0
  {
    var w := Replaced(ws, p, idx)[j].0;
    if IGet(idx, p, j) >= 1 {
      FuseRemovesPair(ws[j].0, p);
    }
    CountPositive(w, p);
  }

  lemma ChangesOfStep(ws: seq<Entry>, p: Pair, idx: map<Pair, map<nat, int>>, n: nat)
    requires 0 < n <= |ws|
    ensures ChangesOf(ws, p, idx, n)
      == ChangesOf(ws, p, idx, n - 1) + (if IGet(idx, p, n - 1) >= 1 then [ChangeAt(ws, p, n - 1)] else [])
  {
  }

  function SumTo(d: seq<int>, n: nat): int
    requires n <= |d|
  {
    if n == 0 then 0 else SumTo(d, n - 1) + d[n - 1]
  }

  /** The per-word frequency shifts of a merge, word by word. */
  function Shifts(ws: seq<Entry>, p: Pair, idx: map<Pair, map<nat, int>>, q: Pair): (d: seq<int>)
    ensures |d| == |ws|
  {
    seq(|ws|, j requires 0 <= j < |ws| => if IGet(idx, p, j) >= 1 then FreqShift(ChangeAt(ws, p, j), p, q) else 0)
  }

  /** Summing per-word shifts: a vocabulary whose words each carry shift
      d[j] recounts to the old recount plus the sum of the shifts. */
  lemma {:induction false} RecountShift(ws: seq<Entry>, vs: seq<Entry>, d: seq<int>, q: Pair, n: nat)
    requires n <= |ws| == |vs| == |d|
    requires forall j :: 0 <= j < n ==> Times(Count(vs[j].0, q), vs[j].1) == Times(Count(ws[j].0, q), ws[j].1) + d[j]
    ensures Recount(vs, q, n) == Recount(ws, q, n) + SumTo(d, n)
  {
    if n > 0 {
      RecountShift(ws, vs, d, q, n - 1);
    }
  }

  /** The change records' shifts are the per-word shifts, summed. */
  lemma {:induction false} StatsShiftPrefix(ws: seq<Entry>, p: Pair, idx: map<Pair, map<nat, int>>, q: Pair, n: nat)
    requires n <= |ws|
    ensures StatsShift(ChangesOf(ws, p, idx, n), p, q) == SumTo(Shifts(ws, p, idx, q), n)
  {
    if n > 0 {
      StatsShiftPrefix(ws, p, idx, q, n - 1);
      StatsShiftStep(ws, p, idx, q, n);
    }
  }

  lemma StatsShiftStep(ws: seq<Entry>, p: Pair, idx: map<Pair, map<nat, int>>, q: Pair, n: nat)
    requires 0 < n <= |ws|
    ensures StatsShift(ChangesOf(ws, p, idx, n), p, q)
      == StatsShift(ChangesOf(ws, p, idx, n - 1), p, q) + (if IGet(idx, p, n - 1) >= 1 then FreqShift(ChangeAt(ws, p, n - 1), p, q) else 0)
  {
    ChangesOfStep(ws, p, idx, n);
    var cs := ChangesOf(ws, p, idx, n - 1);
    if IGet(idx, p, n - 1) >= 1 {
      var c := ChangeAt(ws, p, n - 1);
      assert (cs + [c])[..|cs|] == cs;
    }
  }

  /** The weighted count of a pair that no word holds is 0. */
  lemma {:induction false} RecountZero(vs: seq<Entry>, p: Pair, n: nat)
    requires n <= |vs|
    requires forall j :: 0 <= j < n ==> Count(vs[j].0, p) == 0
    ensures Recount(vs, p, n) == 0
  {
    if n > 0 {
      RecountZero(vs, p, n - 1);
    }
  }

  lemma {:induction false} IndexShiftPrefix(ws: seq<Entry>, p: Pair, idx: map<Pair, map<nat, int>>, q: Pair, k: nat, n: nat)
    requires n <= |ws|
    ensures IndexShift(ChangesOf(ws, p, idx, n), p, q, k)
      == if k < n && IGet(idx, p, k) >= 1 then Shift(ChangeAt(ws, p, k), p, q) else 0
  {
    if n > 0 {
      IndexShiftPrefix(ws, p, idx, q, k, n - 1);
      ChangesOfStep(ws, p, idx, n);
      var cs := ChangesOf(ws, p, idx, n - 1);
      if IGet(idx, p, n - 1) >= 1 {
        var c := ChangeAt(ws, p, n - 1);
        assert (cs + [c])[..|cs|] == cs;
      }
    }
  }

  /** Incremental exactness of `do_pair`: if the tables agreed with a
      recount, and no word containing the pair already had its fusion as a
      symbol, then after rewriting the vocabulary, applying the decrements
      and increments and zeroing the merged pair, the frequency table agrees
      with a recount of the new vocabulary for every pair, and the index
      agrees for every pair but the merged one. */
  lemma DoPairExact(ws: seq<Entry>, st: map<Pair, int>, idx: map<Pair, map<nat, int>>, p: Pair)
    requires Exact(st, idx, ws)
    requires p.0 != "" && p.1 != ""
    requires Unspelled(ws, p)
    ensures forall q ::
      (if q == p then 0 else Get(st, q) + StatsShift(ChangesOf(ws, p, idx, |ws|), p, q))
      == Recount(Replaced(ws, p, idx), q, |ws|)
    ensures forall q, k :: q != p && 0 <= k < |ws| ==>
      IGet(idx, q, k) + IndexShift(ChangesOf(ws, p, idx, |ws|), p, q, k) == Count(Replaced(ws, p, idx)[k].0, q)
  {
    forall j | 0 <= j < |ws|
      ensures IGet(idx, p, j) >= 1 <==> HasPair(ws[j].0, p)
    {
      CountPositive(ws[j].0, p);
    }
    forall q
      ensures (if q == p then 0 else Get(st, q) + StatsShift(ChangesOf(ws, p, idx, |ws|), p, q))
        == Recount(Replaced(ws, p, idx), q, |ws|)
    {
      if q == p {
        MergedPairExact(ws, idx, p);
      } else {
        OtherPairExact(ws, st, idx, p, q);
      }
    }
    forall q, k | q != p && 0 <= k < |ws|
      ensures IGet(idx, q, k) + IndexShift(ChangesOf(ws, p, idx, |ws|), p, q, k) == Count(Replaced(ws, p, idx)[k].0, q)
    {
      IndexExact(ws, idx, p, q, k);
    }
  }

  /** The merged pair is gone from every word the index pointed at. */
  lemma MergedPairExact(ws: seq<Entry>, idx: map<Pair, map<nat, int>>, p: Pair)
    requires p.0 != "" && p.1 != ""
    requires forall j :: 0 <= j < |ws| ==> (IGet(idx, p, j) >= 1 <==> HasPair(ws[j].0, p))
    ensures Recount(Replaced(ws, p, idx), p, |ws|) == 0
  {
    var ws' := Replaced(ws, p, idx);
    forall j | 0 <= j < |ws| ensures Count(ws'[j].0, p) == 0 {
      CountPositive(ws[j].0, p);
      ReplacedClean(ws, p, idx, j);
    }
    RecountZero(ws', p, |ws|);
  }

  /** Any other pair: the old exact frequency plus the shifts is the recount. */
  lemma OtherPairExact(ws: seq<Entry>, st: map<Pair, int>, idx: map<Pair, map<nat, int>>, p: Pair, q: Pair)
    requires q != p && Get(st, q) == Recount(ws, q, |ws|)
    requires forall j :: 0 <= j < |ws| ==> (IGet(idx, p, j) >= 1 <==> HasPair(ws[j].0, p))
    requires Unspelled(ws, p)
    ensures Get(st, q) + StatsShift(ChangesOf(ws, p, idx, |ws|), p, q) == Recount(Replaced(ws, p, idx), q, |ws|)
  {
    var ws' := Replaced(ws, p, idx);
    var d := Shifts(ws, p, idx, q);
    forall j | 0 <= j < |ws|
      ensures Times(Count(ws'[j].0, q), ws'[j].1) == Times(Count(ws[j].0, q), ws[j].1) + d[j]
    {
      ReplacedEntry(ws, p, idx, q, j);
    }
    RecountShift(ws, ws', d, q, |ws|);
    StatsShiftPrefix(ws, p, idx, q, |ws|);
  }

  /** The index entry of another pair for word k: the old exact count plus
      that word's shift is the count in the new word. */
  lemma IndexExact(ws: seq<Entry>, idx: map<Pair, map<nat, int>>, p: Pair, q: Pair, k: nat)
    requires q != p && k < |ws| && IGet(idx, q, k) == Count(ws[k].0, q)
    requires IGet(idx, p, k) >= 1 <==> HasPair(ws[k].0, p)
    requires Unspelled(ws, p)
    ensures IGet(idx, q, k) + IndexShift(ChangesOf(ws, p, idx, |ws|), p, q, k) == Count(Replaced(ws, p, idx)[k].0, q)
  {
    IndexShiftPrefix(ws, p, idx, q, k, |ws|);
    if IGet(idx, p, k) >= 1 {
      FuseCount(ws[k].0, p, q);
    }
  }

  // ---------------------------------------------------------------------
  // The scans of `update_pair_statistics`, position by position

  /** The symbol before position i, if any. */
  function PrevAt(w: seq<string>, i: nat): Option<string>
    requires i <= |w|
  {
    if i == 0 then None else Some(w[i - 1])
  }

  /** Positions where no occurrence starts are passed over. */
  lemma LostPass(w: seq<string>, p: Pair, i: nat)
    requires i < |w| && !MatchAt(w[i..], p)
    ensures Lost(PrevAt(w, i), w[i..], p) == Lost(PrevAt(w, i + 1), w[i + 1..], p)
  {
    assert w[i..][1..] == w[i + 1..];
  }

  /** Positions without the pair's first half are passed over in a stretch. */
  lemma {:induction false} LostSkip(w: seq<string>, p: Pair, i: nat, k: nat)
    requires i <= k <= |w|
    requires forall x :: i <= x < k ==> w[x] != p.0
    ensures Lost(PrevAt(w, i), w[i..], p) == Lost(PrevAt(w, k), w[k..], p)
    decreases k - i
  {
    if i < k {
      LostPass(w, p, i);
      LostSkip(w, p, i + 1, k);
    }
  }

  /** What an occurrence of p at position i of w takes away: the left
      neighbour pair, and the right neighbour pair unless another occurrence
      follows at once. */
  function HitLost(w: seq<string>, p: Pair, i: nat): multiset<Pair>
    requires i + 1 < |w|
  {
    (if i > 0 then multiset{(w[i - 1], w[i])} else multiset{})
    + (if i + 2 < |w| && !(w[i + 2] == p.0 && i + 3 < |w| && w[i + 3] == p.1) then multiset{(w[i + 1], w[i + 2])} else multiset{})
  }

  /** At an occurrence: its neighbour pairs, then on after the pair. */
  lemma LostHit(w: seq<string>, p: Pair, i: nat)
    requires i + 1 < |w| && w[i] == p.0 && w[i + 1] == p.1
    ensures Lost(PrevAt(w, i), w[i..], p) == HitLost(w, p, i) + Lost(PrevAt(w, i + 2), w[i + 2..], p)
  {
    var s := w[i..];
    assert MatchAt(s, p);
    assert s[2..] == w[i + 2..];
    assert |s| > 2 ==> s[2] == w[i + 2];
    assert |s| > 3 ==> s[3] == w[i + 3];
  }

  lemma LostEnd(w: seq<string>, p: Pair)
    ensures Lost(PrevAt(w, |w|), w[|w|..], p) == multiset{}
  {
  }

  /** Symbols other than the fused one are passed over. */
  lemma GainedPass(v: seq<string>, ab: string, i: nat)
    requires i < |v| && v[i] != ab
    ensures Gained(PrevAt(v, i), v[i..], ab) == Gained(PrevAt(v, i + 1), v[i + 1..], ab)
  {
    assert v[i..][1..] == v[i + 1..];
  }

  lemma {:induction false} GainedSkip(v: seq<string>, ab: string, i: nat, k: nat)
    requires i <= k <= |v|
    requires forall x :: i <= x < k ==> v[x] != ab
    ensures Gained(PrevAt(v, i), v[i..], ab) == Gained(PrevAt(v, k), v[k..], ab)
    decreases k - i
  {
    if i < k {
      GainedPass(v, ab, i);
      GainedSkip(v, ab, i + 1, k);
    }
  }

  /** What a fused symbol at position i of v adds: the left neighbour
      pair, and the right neighbour pair unless the next symbol is fused as
      well. */
  function HitGained(v: seq<string>, ab: string, i: nat): multiset<Pair>
    requires i < |v|
  {
    (if i > 0 then multiset{(v[i - 1], v[i])} else multiset{})
    + (if i + 1 < |v| && v[i + 1] != ab then multiset{(v[i], v[i + 1])} else multiset{})
  }

  /** At a fused symbol: its neighbour pairs, then on from the next one. */
  lemma GainedHit(v: seq<string>, ab: string, i: nat)
    requires i < |v| && v[i] == ab
    ensures Gained(PrevAt(v, i), v[i..], ab) == HitGained(v, ab, i) + Gained(PrevAt(v, i + 1), v[i + 1..], ab)
  {
    assert v[i..][1..] == v[i + 1..];
  }
}
