/** The merge learner: the vocabulary as an array of symbol sequences with
    frequencies, the live pair-frequency table, the full backing table, the
    pair-to-word index and the merge operations written so far.  Every
    operation updates these in place, as the learning loop does. */
module Learning {
  import opened Symbols
  import opened PairStats
  import opened Selection

  /** The index row of a pair (an empty row when the pair has none). */
  function IRow(idx: map<Pair, map<nat, int>>, q: Pair): map<nat, int>
  {
    if q in idx then idx[q] else map[]
  }

  /** The distinct pairs of a multiset. */
  function SetOf(m: multiset<Pair>): set<Pair>
  {
    set x | x in m
  }

  /** The occurrences of q among the first t symbols of w, counted the way
      the inner loop of `get_pair_statistics` meets them. */
  function PrefixCount(w: seq<string>, t: nat, q: Pair): nat
    requires t <= |w|
  {
    if t < 2 then 0 else PrefixCount(w, t - 1, q) + (if (w[t - 2], w[t - 1]) == q then 1 else 0)
  }

  /** The pairs among the first t symbols of w. */
  function PrefixPairs(w: seq<string>, t: nat): set<Pair>
    requires t <= |w|
  {
    if t < 2 then {} else PrefixPairs(w, t - 1) + {(w[t - 2], w[t - 1])}
  }

  /** The pairs of a prefix one symbol longer. */
  lemma AdjSnoc(w: seq<string>, t: nat)
    requires 2 <= t <= |w|
    ensures Adj(w[..t]) == Adj(w[..t - 1]) + [(w[t - 2], w[t - 1])]
  {
    var a, b := Adj(w[..t]), Adj(w[..t - 1]);
    forall k | 0 <= k < |a| ensures a[k] == (b + [(w[t - 2], w[t - 1])])[k] {
      if k < |b| {
        assert a[k] == (w[k], w[k + 1]) == b[k];
      }
    }
  }

  /** Counted to any length, the prefix count and the prefix pairs are those
      of the prefix's adjacent pairs. */
  lemma {:induction false} PrefixWhole(w: seq<string>, t: nat, q: Pair)
    requires t <= |w|
    ensures PrefixCount(w, t, q) == multiset(Adj(w[..t]))[q]
    ensures q in PrefixPairs(w, t) <==> q in Adj(w[..t])
  {
    if t >= 2 {
      PrefixWhole(w, t - 1, q);
      AdjSnoc(w, t);
    }
  }

  /** A prefix count as many times as the word's frequency. */
  lemma PrefixTimes(w: seq<string>, t: nat, q: Pair, freq: int)
    requires 2 <= t <= |w|
    ensures Times(PrefixCount(w, t, q), freq) == Times(PrefixCount(w, t - 1, q), freq) + (if (w[t - 2], w[t - 1]) == q then freq else 0)
  {
    TimesAdd(PrefixCount(w, t - 1, q), if (w[t - 2], w[t - 1]) == q then 1 else 0, freq);
  }

  /** A whole word's prefix count and prefix pairs. */
  lemma WholeWord(w: seq<string>)
    ensures forall q :: PrefixCount(w, |w|, q) == Count(w, q)
    ensures PrefixPairs(w, |w|) == PairSet(w)
  {
    assert w[..|w|] == w;
    forall q ensures PrefixCount(w, |w|, q) == Count(w, q) && (q in PrefixPairs(w, |w|) <==> q in PairSet(w)) {
      PrefixWhole(w, |w|, q);
      InAdj(w, q);
    }
  }

  /** After word i is counted into a table that holds the first i words,
      the table holds the first i + 1. */
  lemma StatsStep(ws: seq<Entry>, i: nat, word: seq<string>, freq: int, st0: map<Pair, int>, st1: map<Pair, int>)
    requires i < |ws| && ws[i] == (word, freq)
    requires forall q :: Get(st0, q) == Recount(ws, q, i)
    requires st0.Keys == PairsOf(ws, i)
    requires forall q :: Get(st1, q) == Get(st0, q) + Times(Count(word, q), freq)
    requires st1.Keys == st0.Keys + PairSet(word)
    ensures forall q :: Get(st1, q) == Recount(ws, q, i + 1)
    ensures st1.Keys == PairsOf(ws, i + 1)
  {
  }

  /** The same for the index: the row of word i is filled in, rows before
      it are kept, and rows after it stay empty. */
  lemma IndexStep(ws: seq<Entry>, i: nat, word: seq<string>, idx0: map<Pair, map<nat, int>>, idx1: map<Pair, map<nat, int>>)
    requires i < |ws| && ws[i].0 == word
    requires forall q, k: nat :: IGet(idx0, q, k) == if k < i then Count(ws[k].0, q) else 0
    requires forall q :: IGet(idx1, q, i) == IGet(idx0, q, i) + Count(word, q)
    requires forall q, k :: k != i ==> IGet(idx1, q, k) == IGet(idx0, q, k)
    ensures forall q, k: nat :: IGet(idx1, q, k) == if k < i + 1 then Count(ws[k].0, q) else 0
  {
  }

  /** One more copy of q in a tally of decrements or increments. */
  lemma TimesNext(m: multiset<Pair>, q: Pair, f: int)
    ensures forall x :: Times((m + multiset{q})[x], f) == Times(m[x], f) + (if x == q then f else 0)
  {
    forall x ensures Times((m + multiset{q})[x], f) == Times(m[x], f) + (if x == q then f else 0) {
      TimesAdd(m[x], if x == q then 1 else 0, f);
    }
  }

  /** Two tallies at once. */
  lemma TimesSum(m: multiset<Pair>, n: multiset<Pair>, f: int)
    ensures forall x :: Times((m + n)[x], f) == Times(m[x], f) + Times(n[x], f)
  {
    forall x ensures Times((m + n)[x], f) == Times(m[x], f) + Times(n[x], f) {
      TimesAdd(m[x], n[x], f);
    }
  }

  /** Taking one more occurrence of q off tables already short of the
      weighted multiset m leaves them short of m plus q. */
  lemma SubMore(st: map<Pair, int>, idx: map<Pair, map<nat, int>>, st1: map<Pair, int>, idx1: map<Pair, map<nat, int>>,
                st2: map<Pair, int>, idx2: map<Pair, map<nat, int>>, m: multiset<Pair>, q: Pair, j: nat, f: int)
    requires forall x :: Get(st1, x) == Get(st, x) - Times(m[x], f)
    requires forall x :: x in st1 <==> x in st || x in m
    requires forall x, k :: IGet(idx1, x, k) == IGet(idx, x, k) - (if k == j then m[x] else 0)
    requires forall x :: Get(st2, x) == Get(st1, x) - (if x == q then f else 0)
    requires st2.Keys == st1.Keys + {q}
    requires forall x, k :: IGet(idx2, x, k) == IGet(idx1, x, k) - (if x == q && k == j then 1 else 0)
    ensures forall x :: Get(st2, x) == Get(st, x) - Times((m + multiset{q})[x], f)
    ensures forall x :: x in st2 <==> x in st || x in m + multiset{q}
    ensures forall x, k :: IGet(idx2, x, k) == IGet(idx, x, k) - (if k == j then (m + multiset{q})[x] else 0)
  {
    TimesNext(m, q, f);
  }

  /** The same for adding one more occurrence. */
  lemma AddMore(st: map<Pair, int>, idx: map<Pair, map<nat, int>>, st1: map<Pair, int>, idx1: map<Pair, map<nat, int>>,
                st2: map<Pair, int>, idx2: map<Pair, map<nat, int>>, m: multiset<Pair>, q: Pair, j: nat, f: int)
    requires forall x :: Get(st1, x) == Get(st, x) + Times(m[x], f)
    requires forall x :: x in st1 <==> x in st || x in m
    requires forall x, k :: IGet(idx1, x, k) == IGet(idx, x, k) + (if k == j then m[x] else 0)
    requires forall x :: Get(st2, x) == Get(st1, x) + (if x == q then f else 0)
    requires st2.Keys == st1.Keys + {q}
    requires forall x, k :: IGet(idx2, x, k) == IGet(idx1, x, k) + (if x == q && k == j then 1 else 0)
    ensures forall x :: Get(st2, x) == Get(st, x) + Times((m + multiset{q})[x], f)
    ensures forall x :: x in st2 <==> x in st || x in m + multiset{q}
    ensures forall x, k :: IGet(idx2, x, k) == IGet(idx, x, k) + (if k == j then (m + multiset{q})[x] else 0)
  {
    TimesNext(m, q, f);
  }

  /** A tally split into what is done and what remains stays split when
      a part of the remainder moves over. */
  lemma TallyMoves(total: multiset<Pair>, done: multiset<Pair>, rest: multiset<Pair>, hit: multiset<Pair>, next: multiset<Pair>)
    requires total == done + rest && rest == hit + next
    ensures total == (done + hit) + next
  {
    assert done + (hit + next) == (done + hit) + next;
  }

  /** Tables short of the weighted multiset m, then short of n on top,
      are short of m plus n. */
  lemma SubBoth(st: map<Pair, int>, idx: map<Pair, map<nat, int>>, st1: map<Pair, int>, idx1: map<Pair, map<nat, int>>,
                st2: map<Pair, int>, idx2: map<Pair, map<nat, int>>, m: multiset<Pair>, n: multiset<Pair>, j: nat, f: int)
    requires forall x :: Get(st1, x) == Get(st, x) - Times(m[x], f)
    requires forall x :: x in st1 <==> x in st || x in m
    requires forall x, k :: IGet(idx1, x, k) == IGet(idx, x, k) - (if k == j then m[x] else 0)
    requires forall x :: Get(st2, x) == Get(st1, x) - Times(n[x], f)
    requires forall x :: x in st2 <==> x in st1 || x in n
    requires forall x, k :: IGet(idx2, x, k) == IGet(idx1, x, k) - (if k == j then n[x] else 0)
    ensures forall x :: Get(st2, x) == Get(st, x) - Times((m + n)[x], f)
    ensures forall x :: x in st2 <==> x in st || x in m + n
    ensures forall x, k :: IGet(idx2, x, k) == IGet(idx, x, k) - (if k == j then (m + n)[x] else 0)
  {
    TimesSum(m, n, f);
  }

  /** The same for two rounds of additions. */
  lemma AddBoth(st: map<Pair, int>, idx: map<Pair, map<nat, int>>, st1: map<Pair, int>, idx1: map<Pair, map<nat, int>>,
                st2: map<Pair, int>, idx2: map<Pair, map<nat, int>>, m: multiset<Pair>, n: multiset<Pair>, j: nat, f: int)
    requires forall x :: Get(st1, x) == Get(st, x) + Times(m[x], f)
    requires forall x :: x in st1 <==> x in st || x in m
    requires forall x, k :: IGet(idx1, x, k) == IGet(idx, x, k) + (if k == j then m[x] else 0)
    requires forall x :: Get(st2, x) == Get(st1, x) + Times(n[x], f)
    requires forall x :: x in st2 <==> x in st1 || x in n
    requires forall x, k :: IGet(idx2, x, k) == IGet(idx1, x, k) + (if k == j then n[x] else 0)
    ensures forall x :: Get(st2, x) == Get(st, x) + Times((m + n)[x], f)
    ensures forall x :: x in st2 <==> x in st || x in m + n
    ensures forall x, k :: IGet(idx2, x, k) == IGet(idx, x, k) + (if k == j then (m + n)[x] else 0)
  {
    TimesSum(m, n, f);
  }

  /** Exact, except for the index row of p (which the incremental update
      leaves at its own shifts rather than at the recount). */
  ghost predicate ExactBut(st: map<Pair, int>, idx: map<Pair, map<nat, int>>, ws: seq<Entry>, p: Pair)
  {
    (forall q :: Get(st, q) == Recount(ws, q, |ws|)) &&
    (forall q, k :: q != p && 0 <= k < |ws| ==> IGet(idx, q, k) == Count(ws[k].0, q))
  }

  /** `do_pair`'s tables, given as the old ones plus the shifts of the
      merge, are exact for the new vocabulary. */
  lemma DoPairExactBut(ws: seq<Entry>, st: map<Pair, int>, idx: map<Pair, map<nat, int>>, p: Pair,
                       st': map<Pair, int>, idx': map<Pair, map<nat, int>>)
    requires forall q :: Get(st', q) == if q == p then 0 else Get(st, q) + StatsShift(ChangesOf(ws, p, idx, |ws|), p, q)
    requires forall q, k :: IGet(idx', q, k) == (if q == p then 0 else IGet(idx, q, k)) + IndexShift(ChangesOf(ws, p, idx, |ws|), p, q, k)
    ensures Exact(st, idx, ws) && p.0 != "" && p.1 != "" && Unspelled(ws, p) ==> ExactBut(st', idx', Replaced(ws, p, idx), p)
  {
    if Exact(st, idx, ws) && p.0 != "" && p.1 != "" && Unspelled(ws, p) {
      DoPairExact(ws, st, idx, p);
    }
  }

  /** How the learning loop ends: all merges made, or the most frequent
      pair below the minimum frequency. */
  datatype LearnEnd = AllMerges | TooRare

  /** A threshold num/den (den > 0) as the least integer frequency that is
      not below it: `freq < num/den` holds exactly when `freq < Cut(num, den)`. */
  function Cut(num: int, den: nat): int
    requires den > 0
  {
    (num + den - 1) / den
  }

  lemma CutMeans(num: int, den: nat, f: int)
    requires den > 0
    ensures f < Cut(num, den) <==> f * den < num
  {
    var c := Cut(num, den);
    assert c * den <= num + den - 1 < c * den + den;
    if f < c {
      assert f * den <= (c - 1) * den;
    } else {
      assert f * den >= c * den;
    }
  }

  /** The backing entry of q once a live entry with frequency f is pruned
      into it: overwritten, or added to when f is negative. */
  function Backed(big: map<Pair, int>, q: Pair, f: int): int
  {
    if f < 0 then Get(big, q) + f else f
  }

  /** No refill is needed: the live table is nonempty, and it is the first
      round or its most frequent pair is not below the threshold. */
  predicate Kept(st: map<Pair, int>, i: nat, cut: int)
  {
    |st| > 0 && (i == 0 || forall m :: m in st && IsMostFrequent(st, m) ==> st[m] >= cut)
  }

  /** The most frequent pair of a table is the most frequent one of any
      part of the table that still holds it. */
  lemma MostFrequentPart(st: map<Pair, int>, part: map<Pair, int>, mf: Pair)
    requires IsMostFrequent(st, mf) && mf in part
    requires forall q :: q in part ==> q in st && part[q] == st[q]
    ensures IsMostFrequent(part, mf)
  {
  }

  // ---------------------------------------------------------------------
  // The tables of the learning loop, as functions of the tables before

  /** `prune_stats` on the live table: the entries not below the threshold. */
  function Pruned(st: map<Pair, int>, cut: int): map<Pair, int>
  {
    map q | q in st && st[q] >= cut :: st[q]
  }

  /** `prune_stats` on the backing table: every entry pruned from st
      overwrites its backing entry, or is added to it when negative. */
  function PrunedInto(big: map<Pair, int>, st: map<Pair, int>, cut: int): map<Pair, int>
  {
    map q | q in big.Keys + st.Keys && (q in big || st[q] < cut) ::
      if q in st && st[q] < cut then Backed(big, q, st[q]) else big[q]
  }

  /** `do_pair`'s table: the merged pair at 0, every other pair moved by
      the shifts of the changes the merge makes; the pairs those changes
      touch are added. */
  function Paired(st: map<Pair, int>, ws: seq<Entry>, idx: map<Pair, map<nat, int>>, p: Pair): map<Pair, int>
  {
    map q | q in st.Keys + {p} + Touched(ChangesOf(ws, p, idx, |ws|), p) ::
      if q == p then 0 else Get(st, q) + StatsShift(ChangesOf(ws, p, idx, |ws|), p, q)
  }

  /** `do_pair`'s index: the merged pair's row cleared, then every entry
      moved by the shifts of the changes. */
  ghost predicate IndexPaired(idx: map<Pair, map<nat, int>>, ws: seq<Entry>, p: Pair, idx': map<Pair, map<nat, int>>)
  {
    forall q, k :: IGet(idx', q, k) == (if q == p then 0 else IGet(idx, q, k)) + IndexShift(ChangesOf(ws, p, idx, |ws|), p, q, k)
  }

  /** The pair `max(stats, key=lambda x: (stats[x], x))` returns. */
  ghost function Best(st: map<Pair, int>): (mf: Pair)
    requires |st| > 0
    ensures IsMostFrequent(st, mf)
  {
    MostFrequentExists(st);
    var m :| IsMostFrequent(st, m); m
  }

  /** What the head of a round leaves behind: the live table, the backing
      table, the threshold and the selected pair. */
  datatype Choice = Choice(live: map<Pair, int>, big: map<Pair, int>, cut: int, pick: Pair)

  /** The head of round i with live table st, backing table big and
      threshold cut.  When no refill is needed, the best live pair.
      Otherwise the live table is pruned into the backing table, the live
      table becomes a copy of the backing table, the threshold becomes
      frequency × i / (i + 10000) of its best pair, and the copy is pruned
      again with it.  `stats` is a `defaultdict`, so when the best pair is
      itself pruned, reading its frequency puts it back at 0. */
  ghost function Choose(st: map<Pair, int>, big: map<Pair, int>, i: nat, cut: int): Choice
    requires |big| > 0
  {
    if Kept(st, i, cut) then Choice(st, big, cut, Best(st))
    else
      var top := PrunedInto(big, st, cut);
      RefillKeeps(big, st, cut);
      var mf := Best(top);
      var cut' := Cut(top[mf] * i, i + 10000);
      var live := Pruned(top, cut');
      Choice(if mf in live then live else live[mf := 0], PrunedInto(top, top, cut'), cut', mf)
  }

  /** Pruning into the backing table loses none of its pairs. */
  lemma RefillKeeps(big: map<Pair, int>, st: map<Pair, int>, cut: int)
    ensures big.Keys <= PrunedInto(big, st, cut).Keys
    ensures |big| > 0 ==> |PrunedInto(big, st, cut)| > 0
  {
    if |big| > 0 {
      var q :| q in big;
      assert q in PrunedInto(big, st, cut);
    }
  }

  /** The selected pair is the most frequent pair of the live table the
      round goes on with, and pruning loses no backing pair. */
  lemma ChoosePicksBest(st: map<Pair, int>, big: map<Pair, int>, i: nat, cut: int)
    requires |big| > 0
    ensures IsMostFrequent(Choose(st, big, i, cut).live, Choose(st, big, i, cut).pick)
    ensures Kept(st, i, cut) ==> Choose(st, big, i, cut) == Choice(st, big, cut, Best(st))
    ensures big.Keys <= Choose(st, big, i, cut).big.Keys
  {
    var c := Choose(st, big, i, cut);
    if !Kept(st, i, cut) {
      RefillFacts(st, big, i, cut);
    }
  }

  /** After a refill, the selected pair is the best of the refilled table,
      the threshold is set from its frequency, and the live table keeps the
      refilled entries that reach the threshold.  The pair falls below the
      threshold itself only when its frequency is negative; it is then read
      back as 0 and is alone in the live table. */
  lemma RefillFacts(st: map<Pair, int>, big: map<Pair, int>, i: nat, cut: int)
    requires |big| > 0 && !Kept(st, i, cut)
    ensures var c, top := Choose(st, big, i, cut), PrunedInto(big, st, cut);
      && |top| > 0 && c.pick == Best(top)
      && c.cut == Cut(top[c.pick] * i, i + 10000)
      && IsMostFrequent(c.live, c.pick)
      && c.big == PrunedInto(top, top, c.cut)
      && (top[c.pick] >= c.cut ==> c.live == Pruned(top, c.cut))
      && (top[c.pick] < c.cut ==> top[c.pick] < 0 && c.live == map[c.pick := 0])
      && (forall q :: q in c.live ==> c.live[q] >= c.cut)
      && big.Keys <= c.big.Keys
  {
    var top := PrunedInto(big, st, cut);
    RefillKeeps(big, st, cut);
    var mf := Best(top);
    var cut' := Cut(top[mf] * i, i + 10000);
    RefillKeeps(top, top, cut');
    if top[mf] >= cut' {
      MostFrequentPart(top, Pruned(top, cut'), mf);
    } else {
      BelowOwnCut(top[mf], i);
      PrunedAway(top, mf, cut');
    }
  }

  /** A frequency below the threshold its own refill sets is negative. */
  lemma BelowOwnCut(f: int, i: nat)
    requires f < Cut(f * i, i + 10000)
    ensures f < 0 && Cut(f * i, i + 10000) <= 0
  {
    CutMeans(f * i, i + 10000, f);
    assert f * (i + 10000) == f * i + f * 10000;
    assert f * i <= 0;
  }

  /** When the most frequent pair is pruned, so is every pair. */
  lemma PrunedAway(top: map<Pair, int>, mf: Pair, cut: int)
    requires IsMostFrequent(top, mf) && top[mf] < cut
    ensures Pruned(top, cut) == map[]
  {
    forall q | q in top && q != mf ensures top[q] < cut {
      assert KeyLt(top[q], q, top[mf], mf);
    }
  }

  // ---------------------------------------------------------------------
  // A learning run, round by round

  /** The learner's state at one point of a run: the vocabulary, the live
      and the backing tables, and the index. */
  datatype Tables = Tables(ws: seq<Entry>, stats: map<Pair, int>, big: map<Pair, int>, idx: map<Pair, map<nat, int>>)

  /** One forced merge: `do_pair` on the backing table; the live table is
      the empty `dict()` throughout. */
  ghost predicate ForcedStep(t: Tables, p: Pair, u: Tables)
  {
    && u.ws == Replaced(t.ws, p, t.idx)
    && u.stats == map[]
    && u.big == Paired(t.big, t.ws, t.idx, p)
    && IndexPaired(t.idx, t.ws, p, u.idx)
  }

  /** The forced merges, in order, from t0: trace[k] is the state before
      the k-th. */
  ghost predicate ForcedRun(t0: Tables, forced: seq<Pair>, trace: seq<Tables>)
  {
    && |trace| == |forced| + 1 && trace[0] == t0
    && forall k :: 0 <= k < |forced| ==> ForcedStep(trace[k], forced[k], trace[k + 1])
  }

  /** The frequency the head of round i reads for the pair it selects. */
  ghost function Top(t: Tables, i: nat, cut: int): int
    requires |t.big| > 0
  {
    Get(Choose(t.stats, t.big, i, cut).live, Choose(t.stats, t.big, i, cut).pick)
  }

  /** Greedy round i from t with threshold cut: the head selects p (see
      `Choose`) with a frequency of at least minFrequency, `do_pair` merges
      it on the live table, and every hundredth round prunes the live table
      with the current threshold; u and cut' are the state and the threshold
      after. */
  ghost predicate GreedyStep(t: Tables, cut: int, i: nat, minFrequency: int, p: Pair, u: Tables, cut': int)
  {
    && |t.big| > 0
    && Top(t, i, cut) >= minFrequency
    && var c := Choose(t.stats, t.big, i, cut);
       && p == c.pick && cut' == c.cut
       && u.ws == Replaced(t.ws, p, t.idx)
       && IndexPaired(t.idx, t.ws, p, u.idx)
       && u.stats == (if i % 100 == 0 then Pruned(Paired(c.live, t.ws, t.idx, p), cut') else Paired(c.live, t.ws, t.idx, p))
       && u.big == (if i % 100 == 0 then PrunedInto(c.big, Paired(c.live, t.ws, t.idx, p), cut') else c.big)
  }

  /** The greedy rounds so far, from t0 with the first threshold cut0:
      round k goes from trace[k] with threshold cuts[k] and merges picks[k]. */
  ghost predicate GreedyPrefix(t0: Tables, cut0: int, minFrequency: int, trace: seq<Tables>, cuts: seq<int>, picks: seq<Pair>)
  {
    && |trace| == |picks| + 1 && |cuts| == |picks| + 1 && trace[0] == t0 && cuts[0] == cut0
    && forall k :: 0 <= k < |picks| ==> GreedyStep(trace[k], cuts[k], k, minFrequency, picks[k], trace[k + 1], cuts[k + 1])
  }

  /** The whole greedy loop: numSymbols rounds, or fewer when the next
      round's selected pair is below minFrequency. */
  ghost predicate GreedyRun(t0: Tables, cut0: int, numSymbols: nat, minFrequency: int,
                            trace: seq<Tables>, cuts: seq<int>, picks: seq<Pair>, end: LearnEnd)
  {
    && GreedyPrefix(t0, cut0, minFrequency, trace, cuts, picks)
    && |picks| <= numSymbols
    && (end == AllMerges <==> |picks| == numSymbols)
    && (end == TooRare ==> |trace[|picks|].big| > 0 && Top(trace[|picks|], |picks|, cuts[|picks|]) < minFrequency)
  }

  /** The state `get_pair_statistics` and `deepcopy` leave before any
      merge, and the first threshold, a tenth of the top frequency. */
  ghost predicate Started(ws: seq<Entry>, t: Tables, cut: int)
  {
    && t.ws == ws && t.stats.Keys == PairsOf(ws, |ws|) && Exact(t.stats, t.idx, ws)
    && t.big == t.stats && |t.stats| > 0 && cut == Cut(t.stats[Best(t.stats)], 10)
  }

  /** The states a whole run goes through. */
  datatype LearnTrace = LearnTrace(start: Tables, cut: int, forcedTrace: seq<Tables>,
                                   trace: seq<Tables>, cuts: seq<int>, picks: seq<Pair>)

  /** A learning run on the vocabulary ws: the first statistics, then (if
      forced codes are given) the forced merges from an empty live table,
      then the greedy rounds. */
  ghost predicate LearnRun(ws: seq<Entry>, numSymbols: nat, minFrequency: int, forced: seq<Pair>, force: bool,
                           run: LearnTrace, end: LearnEnd)
  {
    && Started(ws, run.start, run.cut)
    && if force then
         && ForcedRun(Tables(ws, map[], run.start.big, run.start.idx), forced, run.forcedTrace)
         && GreedyRun(run.forcedTrace[|forced|], run.cut, numSymbols, minFrequency, run.trace, run.cuts, run.picks, end)
       else
         GreedyRun(run.start, run.cut, numSymbols, minFrequency, run.trace, run.cuts, run.picks, end)
  }

  /** One more forced merge extends a forced run. */
  lemma ForcedExtend(t0: Tables, forced: seq<Pair>, trace: seq<Tables>, p: Pair, u: Tables)
    requires ForcedRun(t0, forced, trace) && ForcedStep(trace[|forced|], p, u)
    ensures ForcedRun(t0, forced + [p], trace + [u])
  {
    forall k | 0 <= k < |forced| + 1 ensures ForcedStep((trace + [u])[k], (forced + [p])[k], (trace + [u])[k + 1]) {
      if k < |forced| {
        assert ForcedStep(trace[k], forced[k], trace[k + 1]);
      }
    }
  }

  /** One more greedy round extends the greedy rounds so far. */
  lemma GreedyExtend(t0: Tables, cut0: int, minFrequency: int, trace: seq<Tables>, cuts: seq<int>, picks: seq<Pair>,
                     p: Pair, u: Tables, cut': int)
    requires GreedyPrefix(t0, cut0, minFrequency, trace, cuts, picks)
    requires GreedyStep(trace[|picks|], cuts[|picks|], |picks|, minFrequency, p, u, cut')
    ensures GreedyPrefix(t0, cut0, minFrequency, trace + [u], cuts + [cut'], picks + [p])
  {
    var n := |picks|;
    forall k | 0 <= k < n + 1
      ensures GreedyStep((trace + [u])[k], (cuts + [cut'])[k], k, minFrequency, (picks + [p])[k], (trace + [u])[k + 1], (cuts + [cut'])[k + 1])
    {
      if k < n {
        assert GreedyStep(trace[k], cuts[k], k, minFrequency, picks[k], trace[k + 1], cuts[k + 1]);
      }
    }
  }

  /** Every greedy merge is the most frequent pair of the live table its
      round selects from, and reaches the minimum frequency. */
  lemma GreedyPicks(t0: Tables, cut0: int, numSymbols: nat, minFrequency: int,
                    trace: seq<Tables>, cuts: seq<int>, picks: seq<Pair>, end: LearnEnd, k: nat)
    requires GreedyRun(t0, cut0, numSymbols, minFrequency, trace, cuts, picks, end) && k < |picks|
    ensures |trace[k].big| > 0
    ensures IsMostFrequent(Choose(trace[k].stats, trace[k].big, k, cuts[k]).live, picks[k])
    ensures Choose(trace[k].stats, trace[k].big, k, cuts[k]).live[picks[k]] >= minFrequency
  {
    assert GreedyStep(trace[k], cuts[k], k, minFrequency, picks[k], trace[k + 1], cuts[k + 1]);
    ChoosePicksBest(trace[k].stats, trace[k].big, k, cuts[k]);
  }

  /** Two indexes that agree on the first n words. */
  ghost predicate SameIndex(a: map<Pair, map<nat, int>>, b: map<Pair, map<nat, int>>, n: nat)
  {
    forall q, k: nat :: k < n ==> IGet(a, q, k) == IGet(b, q, k)
  }

  /** Two states that differ at most in index entries past the vocabulary,
      which no step reads. */
  ghost predicate Alike(t: Tables, u: Tables)
  {
    t.ws == u.ws && t.stats == u.stats && t.big == u.big && SameIndex(t.idx, u.idx, |t.ws|)
  }

  /** The change records depend on the index only through the words. */
  lemma {:induction false} ChangesOfSame(ws: seq<Entry>, p: Pair, a: map<Pair, map<nat, int>>, b: map<Pair, map<nat, int>>, n: nat)
    requires n <= |ws| && SameIndex(a, b, |ws|)
    ensures ChangesOf(ws, p, a, n) == ChangesOf(ws, p, b, n)
  {
    if n > 0 {
      ChangesOfSame(ws, p, a, b, n - 1);
      assert IGet(a, p, n - 1) == IGet(b, p, n - 1);
    }
  }

  /** A merge from alike indexes rewrites the words alike, makes the same
      changes and leaves alike indexes. */
  lemma MergeSame(ws: seq<Entry>, p: Pair, a: map<Pair, map<nat, int>>, b: map<Pair, map<nat, int>>,
                  a': map<Pair, map<nat, int>>, b': map<Pair, map<nat, int>>)
    requires SameIndex(a, b, |ws|) && IndexPaired(a, ws, p, a') && IndexPaired(b, ws, p, b')
    ensures Replaced(ws, p, a) == Replaced(ws, p, b)
    ensures ChangesOf(ws, p, a, |ws|) == ChangesOf(ws, p, b, |ws|)
    ensures SameIndex(a', b', |ws|)
  {
    ChangesOfSame(ws, p, a, b, |ws|);
    forall j | 0 <= j < |ws| ensures Replaced(ws, p, a)[j] == Replaced(ws, p, b)[j] {
      assert IGet(a, p, j) == IGet(b, p, j);
    }
    forall q, k: nat | k < |ws| ensures IGet(a', q, k) == IGet(b', q, k) {
      assert IGet(a, q, k) == IGet(b, q, k);
    }
  }

  lemma ForcedStepUnique(t: Tables, t2: Tables, p: Pair, u: Tables, u2: Tables)
    requires Alike(t, t2) && ForcedStep(t, p, u) && ForcedStep(t2, p, u2)
    ensures Alike(u, u2)
  {
    MergeSame(t.ws, p, t.idx, t2.idx, u.idx, u2.idx);
  }

  lemma GreedyStepUnique(t: Tables, t2: Tables, cut: int, i: nat, minFrequency: int,
                         p: Pair, u: Tables, cut': int, p2: Pair, u2: Tables, cut2': int)
    requires Alike(t, t2)
    requires GreedyStep(t, cut, i, minFrequency, p, u, cut') && GreedyStep(t2, cut, i, minFrequency, p2, u2, cut2')
    ensures p == p2 && cut' == cut2' && Alike(u, u2)
  {
    MergeSame(t.ws, p, t.idx, t2.idx, u.idx, u2.idx);
  }

  lemma {:induction false} ForcedRunUnique(t0: Tables, t0': Tables, forced: seq<Pair>, trace: seq<Tables>, trace2: seq<Tables>, n: nat)
    requires Alike(t0, t0') && ForcedRun(t0, forced, trace) && ForcedRun(t0', forced, trace2) && n <= |forced|
    ensures Alike(trace[n], trace2[n])
  {
    if n > 0 {
      ForcedRunUnique(t0, t0', forced, trace, trace2, n - 1);
      ForcedStepUnique(trace[n - 1], trace2[n - 1], forced[n - 1], trace[n], trace2[n]);
    }
  }

  lemma {:induction false} GreedyPrefixUnique(t0: Tables, t0': Tables, cut0: int, minFrequency: int,
                                              trace: seq<Tables>, cuts: seq<int>, picks: seq<Pair>,
                                              trace2: seq<Tables>, cuts2: seq<int>, picks2: seq<Pair>, n: nat)
    requires Alike(t0, t0')
    requires GreedyPrefix(t0, cut0, minFrequency, trace, cuts, picks) && GreedyPrefix(t0', cut0, minFrequency, trace2, cuts2, picks2)
    requires n <= |picks| && n <= |picks2|
    ensures Alike(trace[n], trace2[n]) && cuts[n] == cuts2[n]
    ensures forall j :: 0 <= j < n ==> picks[j] == picks2[j]
  {
    if n > 0 {
      GreedyPrefixUnique(t0, t0', cut0, minFrequency, trace, cuts, picks, trace2, cuts2, picks2, n - 1);
      PrefixStepUnique(t0, t0', cut0, minFrequency, trace, cuts, picks, trace2, cuts2, picks2, n - 1);
    }
  }

  /** Round k of two greedy loops from alike states goes alike. */
  lemma PrefixStepUnique(t0: Tables, t0': Tables, cut0: int, minFrequency: int,
                         trace: seq<Tables>, cuts: seq<int>, picks: seq<Pair>,
                         trace2: seq<Tables>, cuts2: seq<int>, picks2: seq<Pair>, k: nat)
    requires GreedyPrefix(t0, cut0, minFrequency, trace, cuts, picks) && GreedyPrefix(t0', cut0, minFrequency, trace2, cuts2, picks2)
    requires k < |picks| && k < |picks2| && Alike(trace[k], trace2[k]) && cuts[k] == cuts2[k]
    ensures picks[k] == picks2[k] && cuts[k + 1] == cuts2[k + 1] && Alike(trace[k + 1], trace2[k + 1])
  {
    PrefixStep(t0, cut0, minFrequency, trace, cuts, picks, k);
    PrefixStep(t0', cut0, minFrequency, trace2, cuts2, picks2, k);
    GreedyStepUnique(trace[k], trace2[k], cuts[k], k, minFrequency,
                     picks[k], trace[k + 1], cuts[k + 1], picks2[k], trace2[k + 1], cuts2[k + 1]);
  }

  /** Round k of a greedy loop, read off its rounds so far. */
  lemma PrefixStep(t0: Tables, cut0: int, minFrequency: int, trace: seq<Tables>, cuts: seq<int>, picks: seq<Pair>, k: nat)
    requires GreedyPrefix(t0, cut0, minFrequency, trace, cuts, picks) && k < |picks|
    ensures GreedyStep(trace[k], cuts[k], k, minFrequency, picks[k], trace[k + 1], cuts[k + 1])
  {
  }

  /** From alike states, a greedy loop cannot stop before another one: the
      round where it stops reads the same top frequency. */
  lemma GreedyRunNotShorter(t0: Tables, t0': Tables, cut0: int, numSymbols: nat, minFrequency: int,
                            trace: seq<Tables>, cuts: seq<int>, picks: seq<Pair>, end: LearnEnd,
                            trace2: seq<Tables>, cuts2: seq<int>, picks2: seq<Pair>, end2: LearnEnd)
    requires Alike(t0, t0')
    requires GreedyRun(t0, cut0, numSymbols, minFrequency, trace, cuts, picks, end)
    requires GreedyRun(t0', cut0, numSymbols, minFrequency, trace2, cuts2, picks2, end2)
    ensures |picks2| <= |picks|
  {
    var n := |picks|;
    if n < |picks2| {
      GreedyPrefixUnique(t0, t0', cut0, minFrequency, trace, cuts, picks, trace2, cuts2, picks2, n);
      PrefixStep(t0', cut0, minFrequency, trace2, cuts2, picks2, n);
      assert false;
    }
  }

  /** From alike states, two greedy loops merge the same pairs and end the
      same way. */
  lemma GreedyRunUnique(t0: Tables, t0': Tables, cut0: int, numSymbols: nat, minFrequency: int,
                        trace: seq<Tables>, cuts: seq<int>, picks: seq<Pair>, end: LearnEnd,
                        trace2: seq<Tables>, cuts2: seq<int>, picks2: seq<Pair>, end2: LearnEnd)
    requires Alike(t0, t0')
    requires GreedyRun(t0, cut0, numSymbols, minFrequency, trace, cuts, picks, end)
    requires GreedyRun(t0', cut0, numSymbols, minFrequency, trace2, cuts2, picks2, end2)
    ensures picks == picks2 && end == end2
  {
    GreedyRunNotShorter(t0, t0', cut0, numSymbols, minFrequency, trace, cuts, picks, end, trace2, cuts2, picks2, end2);
    GreedyRunNotShorter(t0', t0, cut0, numSymbols, minFrequency, trace2, cuts2, picks2, end2, trace, cuts, picks, end);
    GreedyPrefixUnique(t0, t0', cut0, minFrequency, trace, cuts, picks, trace2, cuts2, picks2, |picks|);
  }

  /** The first statistics and threshold are determined by the vocabulary. */
  lemma StartedUnique(ws: seq<Entry>, t: Tables, cut: int, t2: Tables, cut2: int)
    requires Started(ws, t, cut) && Started(ws, t2, cut2)
    ensures Alike(t, t2) && cut == cut2
  {
    forall q | q in t.stats ensures t.stats[q] == t2.stats[q] {
      assert Get(t.stats, q) == Get(t2.stats, q);
    }
  }

  /** A run is determined by its inputs: every run on the same vocabulary
      with the same settings learns the same merges and ends the same way. */
  lemma LearnRunUnique(ws: seq<Entry>, numSymbols: nat, minFrequency: int, forced: seq<Pair>, force: bool,
                       run: LearnTrace, end: LearnEnd, run2: LearnTrace, end2: LearnEnd)
    requires LearnRun(ws, numSymbols, minFrequency, forced, force, run, end)
    requires LearnRun(ws, numSymbols, minFrequency, forced, force, run2, end2)
    ensures run.picks == run2.picks && end == end2
  {
    StartedUnique(ws, run.start, run.cut, run2.start, run2.cut);
    if force {
      ForcedRunUnique(Tables(ws, map[], run.start.big, run.start.idx), Tables(ws, map[], run2.start.big, run2.start.idx),
                      forced, run.forcedTrace, run2.forcedTrace, |forced|);
      GreedyRunUnique(run.forcedTrace[|forced|], run2.forcedTrace[|forced|], run.cut, numSymbols, minFrequency,
                      run.trace, run.cuts, run.picks, end, run2.trace, run2.cuts, run2.picks, end2);
    } else {
      GreedyRunUnique(run.start, run2.start, run.cut, numSymbols, minFrequency,
                      run.trace, run.cuts, run.picks, end, run2.trace, run2.cuts, run2.picks, end2);
    }
  }

  // ---------------------------------------------------------------------
  // get_pair_statistics

  /** Count every adjacent pair of every word, weighted by the word's
      frequency, and index how often it occurs in each word.  A word with
      no symbol fails in the source (`word[0]`). */
  method GetPairStatistics(ws: seq<Entry>) returns (stats: map<Pair, int>, indices: map<Pair, map<nat, int>>)
    requires forall k :: 0 <= k < |ws| ==> |ws[k].0| >= 1
    ensures Exact(stats, indices, ws)
    ensures stats.Keys == PairsOf(ws, |ws|)
  {
    stats, indices := map[], map[];
    var i := 0;
    while i < |ws|
      invariant 0 <= i <= |ws|
      invariant forall q :: Get(stats, q) == Recount(ws, q, i)
      invariant forall q, k: nat :: IGet(indices, q, k) == if k < i then Count(ws[k].0, q) else 0
      invariant stats.Keys == PairsOf(ws, i)
    {
      var (word, freq) := ws[i];
      var st, idx := CountWord(stats, indices, i, word, freq);
      StatsStep(ws, i, word, freq, stats, st);
      IndexStep(ws, i, word, indices, idx);
      stats, indices := st, idx;
      i := i + 1;
    }
  }

  /** The inner loop of `get_pair_statistics`: the pairs of word i. */
  method CountWord(st0: map<Pair, int>, idx0: map<Pair, map<nat, int>>, i: nat, word: seq<string>, freq: int)
    returns (st: map<Pair, int>, idx: map<Pair, map<nat, int>>)
    requires |word| >= 1
    ensures forall q :: Get(st, q) == Get(st0, q) + Times(Count(word, q), freq)
    ensures forall q :: IGet(idx, q, i) == IGet(idx0, q, i) + Count(word, q)
    ensures forall q, k :: k != i ==> IGet(idx, q, k) == IGet(idx0, q, k)
    ensures st.Keys == st0.Keys + PairSet(word)
  {
    st, idx := st0, idx0;
    var prev := word[0];
    var t := 1;
    while t < |word|
      invariant 1 <= t <= |word| && prev == word[t - 1]
      invariant forall q :: Get(st, q) == Get(st0, q) + Times(PrefixCount(word, t, q), freq)
      invariant forall q :: IGet(idx, q, i) == IGet(idx0, q, i) + PrefixCount(word, t, q)
      invariant forall q, k :: k != i ==> IGet(idx, q, k) == IGet(idx0, q, k)
      invariant st.Keys == st0.Keys + PrefixPairs(word, t)
    {
      var ch := word[t];
      forall q ensures Times(PrefixCount(word, t + 1, q), freq) == Times(PrefixCount(word, t, q), freq) + (if (prev, ch) == q then freq else 0) {
        PrefixTimes(word, t + 1, q, freq);
      }
      var q := (prev, ch);
      st := st[q := Get(st, q) + freq];
      idx := idx[q := IRow(idx, q)[i := IGet(idx, q, i) + 1]];
      prev := ch;
      t := t + 1;
    }
    WholeWord(word);
  }

  // -------------------------------------------------------------------
  // One table update: `stats[q] += freq` and `indices[q][j] += 1`, or
  // the same with the opposite sign

  method Add(st: map<Pair, int>, idx: map<Pair, map<nat, int>>, q: Pair, j: nat, freq: int)
    returns (st1: map<Pair, int>, idx1: map<Pair, map<nat, int>>)
    ensures forall x :: Get(st1, x) == Get(st, x) + (if x == q then freq else 0)
    ensures st1.Keys == st.Keys + {q}
    ensures forall x, k :: IGet(idx1, x, k) == IGet(idx, x, k) + (if x == q && k == j then 1 else 0)
  {
    st1 := st[q := Get(st, q) + freq];
    idx1 := idx[q := IRow(idx, q)[j := IGet(idx, q, j) + 1]];
  }

  method Sub(st: map<Pair, int>, idx: map<Pair, map<nat, int>>, q: Pair, j: nat, freq: int)
    returns (st1: map<Pair, int>, idx1: map<Pair, map<nat, int>>)
    ensures forall x :: Get(st1, x) == Get(st, x) - (if x == q then freq else 0)
    ensures st1.Keys == st.Keys + {q}
    ensures forall x, k :: IGet(idx1, x, k) == IGet(idx, x, k) - (if x == q && k == j then 1 else 0)
  {
    st1 := st[q := Get(st, q) - freq];
    idx1 := idx[q := IRow(idx, q)[j := IGet(idx, q, j) - 1]];
  }

  // -------------------------------------------------------------------
  // update_pair_statistics, one changed word at a time

  /** The first scan: walk the old word w of word j from one occurrence of
      p to the next, taking away the neighbouring pairs `Lost` names. */
  method Retract(st: map<Pair, int>, idx: map<Pair, map<nat, int>>, j: nat, w: seq<string>, freq: int, p: Pair)
    returns (st1: map<Pair, int>, idx1: map<Pair, map<nat, int>>)
    ensures forall x :: Get(st1, x) == Get(st, x) - Times(Lost(None, w, p)[x], freq)
    ensures st1.Keys == st.Keys + SetOf(Lost(None, w, p))
    ensures forall x, k :: IGet(idx1, x, k) == IGet(idx, x, k) - (if k == j then Lost(None, w, p)[x] else 0)
  {
    st1, idx1 := st, idx;
    ghost var done: multiset<Pair> := multiset{};
    assert w[0..] == w;
    var i := 0;
    while true
      invariant 0 <= i <= |w|
      invariant Lost(None, w, p) == done + Lost(PrevAt(w, i), w[i..], p)
      invariant forall x :: Get(st1, x) == Get(st, x) - Times(done[x], freq)
      invariant forall x :: x in st1 <==> x in st || x in done
      invariant forall x, k :: IGet(idx1, x, k) == IGet(idx, x, k) - (if k == j then done[x] else 0)
      decreases |w| - i
    {
      var st2, idx2, next, hit := RetractStride(st1, idx1, j, w, freq, p, i);
      SubBoth(st, idx, st1, idx1, st2, idx2, done, hit, j, freq);
      st1, idx1 := st2, idx2;
      if next.None? {
        done := done + hit;
        break;
      }
      TallyMoves(Lost(None, w, p), done, Lost(PrevAt(w, i), w[i..], p), hit, Lost(PrevAt(w, next.value), w[next.value..], p));
      done, i := done + hit, next.value;
    }
  }

  /** One round of the first scan from position i: look for the next
      occurrence of p; if there is one, retract around it and go on after
      it (or after its first symbol when the second does not follow). */
  method RetractStride(st: map<Pair, int>, idx: map<Pair, map<nat, int>>, j: nat, w: seq<string>, freq: int, p: Pair, i: nat)
    returns (st1: map<Pair, int>, idx1: map<Pair, map<nat, int>>, next: Option<nat>, ghost hit: multiset<Pair>)
    requires i <= |w|
    ensures forall x :: Get(st1, x) == Get(st, x) - Times(hit[x], freq)
    ensures forall x :: x in st1 <==> x in st || x in hit
    ensures forall x, k :: IGet(idx1, x, k) == IGet(idx, x, k) - (if k == j then hit[x] else 0)
    ensures next.None? ==> st1 == st && idx1 == idx
    ensures next.Some? ==> i < next.value <= |w|
    ensures next.None? ==> Lost(PrevAt(w, i), w[i..], p) == hit
    ensures next.Some? ==> i < next.value <= |w| && Lost(PrevAt(w, i), w[i..], p) == hit + Lost(PrevAt(w, next.value), w[next.value..], p)
  {
    st1, idx1, hit := st, idx, multiset{};
    var found := IndexFrom(w, p.0, i);
    if found.None? {
      LostSkip(w, p, i, |w|);
      LostEnd(w, p);
      return st1, idx1, None, hit;
    }
    var k := found.value;
    LostSkip(w, p, i, k);
    if k < |w| - 1 && w[k + 1] == p.1 {
      LostHit(w, p, k);
      st1, idx1 := RetractAt(st, idx, j, w, freq, p, k);
      hit, next := HitLost(w, p, k), Some(k + 2);
    } else {
      LostPass(w, p, k);
      next := Some(k + 1);
    }
  }

  /** The decrements around one occurrence of p at position i. */
  method RetractAt(st: map<Pair, int>, idx: map<Pair, map<nat, int>>, j: nat, w: seq<string>, freq: int, p: Pair, i: nat)
    returns (st1: map<Pair, int>, idx1: map<Pair, map<nat, int>>)
    requires i + 1 < |w|
    ensures forall x :: Get(st1, x) == Get(st, x) - Times(HitLost(w, p, i)[x], freq)
    ensures forall x :: x in st1 <==> x in st || x in HitLost(w, p, i)
    ensures forall x, k :: IGet(idx1, x, k) == IGet(idx, x, k) - (if k == j then HitLost(w, p, i)[x] else 0)
  {
    var st2, idx2, m := SubSome(st, idx, LeftOf(w, i), j, freq);
    var st3, idx3, n := SubSome(st2, idx2, RightOf(w, p, i), j, freq);
    ShortByBoth(st, idx, st2, idx2, st3, idx3, m, n, j, freq);
    HitLostParts(w, p, i);
    st1, idx1 := st3, idx3;
  }

  /** The pair before an occurrence of p at i, if any. */
  function LeftOf(w: seq<string>, i: nat): Option<Pair>
    requires i < |w|
  {
    if i > 0 then Some((w[i - 1], w[i])) else None
  }

  /** The pair after an occurrence of p at i, unless p occurs again right
      after it. */
  function RightOf(w: seq<string>, p: Pair, i: nat): Option<Pair>
    requires i + 1 < |w|
  {
    if i < |w| - 2 && (w[i + 2] != p.0 || i >= |w| - 3 || w[i + 3] != p.1) then Some((w[i + 1], w[i + 2])) else None
  }

  /** The pair of an option, as a multiset. */
  function Once(q: Option<Pair>): multiset<Pair>
  {
    if q.Some? then multiset{q.value} else multiset{}
  }

  /** The pairs lost at an occurrence are the one before and the one after. */
  lemma HitLostParts(w: seq<string>, p: Pair, i: nat)
    requires i + 1 < |w|
    ensures HitLost(w, p, i) == Once(LeftOf(w, i)) + Once(RightOf(w, p, i))
  {
  }

  /** Tables short of the weighted multiset m of pairs in word j. */
  ghost predicate ShortBy(st: map<Pair, int>, idx: map<Pair, map<nat, int>>, st1: map<Pair, int>, idx1: map<Pair, map<nat, int>>,
                          m: multiset<Pair>, j: nat, f: int)
  {
    && (forall x :: Get(st1, x) == Get(st, x) - Times(m[x], f))
    && (forall x :: x in st1 <==> x in st || x in m)
    && (forall x, k :: IGet(idx1, x, k) == IGet(idx, x, k) - (if k == j then m[x] else 0))
  }

  lemma ShortByBoth(st: map<Pair, int>, idx: map<Pair, map<nat, int>>, st1: map<Pair, int>, idx1: map<Pair, map<nat, int>>,
                    st2: map<Pair, int>, idx2: map<Pair, map<nat, int>>, m: multiset<Pair>, n: multiset<Pair>, j: nat, f: int)
    requires ShortBy(st, idx, st1, idx1, m, j, f) && ShortBy(st1, idx1, st2, idx2, n, j, f)
    ensures ShortBy(st, idx, st2, idx2, m + n, j, f)
  {
    SubBoth(st, idx, st1, idx1, st2, idx2, m, n, j, f);
  }

  /** The decrement of one neighbouring pair, when there is one. */
  method SubSome(st: map<Pair, int>, idx: map<Pair, map<nat, int>>, q: Option<Pair>, j: nat, freq: int)
    returns (st1: map<Pair, int>, idx1: map<Pair, map<nat, int>>, ghost m: multiset<Pair>)
    ensures m == Once(q)
    ensures ShortBy(st, idx, st1, idx1, m, j, freq)
    ensures q.None? ==> st1 == st && idx1 == idx
    ensures q.Some? ==> Get(st1, q.value) == Get(st, q.value) - freq && q.value in st1
  {
    st1, idx1, m := st, idx, multiset{};
    if q.Some? {
      var st2, idx2 := Sub(st, idx, q.value, j, freq);
      SubMore(st, idx, st1, idx1, st2, idx2, m, q.value, j, freq);
      st1, idx1, m := st2, idx2, m + multiset{q.value};
    }
  }

  /** The second scan: walk the new word v of word j from one fused symbol
      ab to the next, adding the neighbouring pairs `Gained` names. */
  method Credit(st: map<Pair, int>, idx: map<Pair, map<nat, int>>, j: nat, v: seq<string>, freq: int, ab: string)
    returns (st1: map<Pair, int>, idx1: map<Pair, map<nat, int>>)
    ensures forall x :: Get(st1, x) == Get(st, x) + Times(Gained(None, v, ab)[x], freq)
    ensures st1.Keys == st.Keys + SetOf(Gained(None, v, ab))
    ensures forall x, k :: IGet(idx1, x, k) == IGet(idx, x, k) + (if k == j then Gained(None, v, ab)[x] else 0)
  {
    st1, idx1 := st, idx;
    ghost var done: multiset<Pair> := multiset{};
    assert v[0..] == v;
    var i := 0;
    while true
      invariant 0 <= i <= |v|
      invariant Gained(None, v, ab) == done + Gained(PrevAt(v, i), v[i..], ab)
      invariant forall x :: Get(st1, x) == Get(st, x) + Times(done[x], freq)
      invariant forall x :: x in st1 <==> x in st || x in done
      invariant forall x, k :: IGet(idx1, x, k) == IGet(idx, x, k) + (if k == j then done[x] else 0)
      decreases |v| - i
    {
      var st2, idx2, next, hit := CreditStride(st1, idx1, j, v, freq, ab, i);
      AddBoth(st, idx, st1, idx1, st2, idx2, done, hit, j, freq);
      st1, idx1 := st2, idx2;
      if next.None? {
        done := done + hit;
        break;
      }
      TallyMoves(Gained(None, v, ab), done, Gained(PrevAt(v, i), v[i..], ab), hit, Gained(PrevAt(v, next.value), v[next.value..], ab));
      done, i := done + hit, next.value;
    }
  }

  /** One round of the second scan from position i: look for the next
      fused symbol; if there is one, credit around it and go on after it. */
  method CreditStride(st: map<Pair, int>, idx: map<Pair, map<nat, int>>, j: nat, v: seq<string>, freq: int, ab: string, i: nat)
    returns (st1: map<Pair, int>, idx1: map<Pair, map<nat, int>>, next: Option<nat>, ghost hit: multiset<Pair>)
    requires i <= |v|
    ensures forall x :: Get(st1, x) == Get(st, x) + Times(hit[x], freq)
    ensures forall x :: x in st1 <==> x in st || x in hit
    ensures forall x, k :: IGet(idx1, x, k) == IGet(idx, x, k) + (if k == j then hit[x] else 0)
    ensures next.None? ==> st1 == st && idx1 == idx
    ensures next.Some? ==> i < next.value <= |v|
    ensures next.None? ==> Gained(PrevAt(v, i), v[i..], ab) == hit
    ensures next.Some? ==> i < next.value <= |v| && Gained(PrevAt(v, i), v[i..], ab) == hit + Gained(PrevAt(v, next.value), v[next.value..], ab)
  {
    st1, idx1, hit := st, idx, multiset{};
    var found := IndexFrom(v, ab, i);
    if found.None? {
      GainedSkip(v, ab, i, |v|);
      return st1, idx1, None, hit;
    }
    var k := found.value;
    GainedSkip(v, ab, i, k);
    GainedHit(v, ab, k);
    st1, idx1 := CreditAt(st, idx, j, v, freq, ab, k);
    hit, next := HitGained(v, ab, k), Some(k + 1);
  }

  /** The increments around one fused symbol at position i. */
  method CreditAt(st: map<Pair, int>, idx: map<Pair, map<nat, int>>, j: nat, v: seq<string>, freq: int, ab: string, i: nat)
    returns (st1: map<Pair, int>, idx1: map<Pair, map<nat, int>>)
    requires i < |v|
    ensures forall x :: Get(st1, x) == Get(st, x) + Times(HitGained(v, ab, i)[x], freq)
    ensures forall x :: x in st1 <==> x in st || x in HitGained(v, ab, i)
    ensures forall x, k :: IGet(idx1, x, k) == IGet(idx, x, k) + (if k == j then HitGained(v, ab, i)[x] else 0)
  {
    st1, idx1 := st, idx;
    ghost var m: multiset<Pair> := multiset{};
    if i > 0 {
      var q := (v[i - 1], v[i]);
      var st2, idx2 := Add(st1, idx1, q, j, freq);
      AddMore(st, idx, st1, idx1, st2, idx2, m, q, j, freq);
      st1, idx1, m := st2, idx2, m + multiset{q};
    }
    if i < |v| - 1 && v[i + 1] != ab {
      var q := (v[i], v[i + 1]);
      var st2, idx2 := Add(st1, idx1, q, j, freq);
      AddMore(st, idx, st1, idx1, st2, idx2, m, q, j, freq);
      st1, idx1, m := st2, idx2, m + multiset{q};
    }
    assert m == HitGained(v, ab, i);
  }

  /** A table given entry by entry as `do_pair` leaves it is `Paired`. */
  lemma PairedOf(st: map<Pair, int>, ws: seq<Entry>, idx: map<Pair, map<nat, int>>, p: Pair, st': map<Pair, int>)
    requires forall q :: Get(st', q) == if q == p then 0 else Get(st, q) + StatsShift(ChangesOf(ws, p, idx, |ws|), p, q)
    requires st'.Keys == st.Keys + {p} + Touched(ChangesOf(ws, p, idx, |ws|), p)
    ensures st' == Paired(st, ws, idx, p)
  {
    forall q | q in st' ensures st'[q] == Paired(st, ws, idx, p)[q] {
      assert Get(st', q) == st'[q];
    }
  }

  /** Tables given entry by entry as `prune_stats` leaves them are
      `Pruned` and `PrunedInto`. */
  lemma PrunedOf(st: map<Pair, int>, big: map<Pair, int>, cut: int, st': map<Pair, int>, big': map<Pair, int>)
    requires forall q :: q in st' <==> q in st && st[q] >= cut
    requires forall q :: q in st' ==> st'[q] == st[q]
    requires forall q :: q in big' <==> q in big || (q in st && st[q] < cut)
    requires forall q :: Get(big', q) == if q in st && st[q] < cut then Backed(big, q, st[q]) else Get(big, q)
    ensures st' == Pruned(st, cut) && big' == PrunedInto(big, st, cut)
  {
    forall q | q in big' ensures big'[q] == PrunedInto(big, st, cut)[q] {
      assert Get(big', q) == big'[q];
    }
  }

  /** Appending one merge to the codes extends the recorded picks by it. */
  lemma Appended(base: seq<Pair>, picks: seq<Pair>, p: Pair, before: seq<Pair>, after: seq<Pair>)
    requires before == base + picks && after == before + [p]
    ensures after == base + (picks + [p])
  {
  }

  class Learner {
    /** `sorted_vocab`: every word as its symbols, with its frequency. */
    const vocab: array<Entry>
    /** The live pair-frequency table the greedy step picks from. */
    var stats: map<Pair, int>
    /** The full table that pruned entries are kept in. */
    var bigStats: map<Pair, int>
    /** For every pair, the number of its occurrences in each word. */
    var indices: map<Pair, map<nat, int>>
    /** The merge operations written to the output, in order. */
    var codes: seq<Pair>

    constructor(words: seq<Entry>)
      ensures vocab[..] == words && fresh(vocab)
      ensures stats == map[] && bigStats == map[] && indices == map[] && codes == []
    {
      vocab := new Entry[|words|](i requires 0 <= i < |words| => words[i]);
      stats, bigStats, indices, codes := map[], map[], map[], [];
    }

    /** `update_pair_statistics`: zero the merged pair and clear its index
        row, then patch the tables around every occurrence in every changed
        word: the old word's neighbouring pairs go down, the new word's
        pairs with the fused symbol go up. */
    method UpdatePairStatistics(p: Pair, changed: seq<Change>)
      modifies this
      ensures forall q :: Get(stats, q) == (if q == p then 0 else Get(old(stats), q)) + StatsShift(changed, p, q)
      ensures stats.Keys == old(stats).Keys + {p} + Touched(changed, p)
      ensures forall q, k :: IGet(indices, q, k) == (if q == p then 0 else IGet(old(indices), q, k)) + IndexShift(changed, p, q, k)
      ensures bigStats == old(bigStats) && codes == old(codes)
    {
      var st, idx := stats[p := 0], indices[p := map[]];
      var n := 0;
      while n < |changed|
        invariant 0 <= n <= |changed|
        invariant forall q :: Get(st, q) == (if q == p then 0 else Get(old(stats), q)) + StatsShift(changed[..n], p, q)
        invariant st.Keys == old(stats).Keys + {p} + Touched(changed[..n], p)
        invariant forall q, k :: IGet(idx, q, k) == (if q == p then 0 else IGet(old(indices), q, k)) + IndexShift(changed[..n], p, q, k)
        invariant bigStats == old(bigStats) && codes == old(codes)
      {
        var c := changed[n];
        assert changed[..n + 1][..n] == changed[..n];
        st, idx := Retract(st, idx, c.j, c.oldWord, c.freq, p);
        st, idx := Credit(st, idx, c.j, c.word, c.freq, p.0 + p.1);
        n := n + 1;
      }
      assert changed[..n] == changed;
      stats, indices := st, idx;
    }

    // -------------------------------------------------------------------
    // replace_pair and do_pair

    /** `replace_pair`: every word the index says contains the pair is
        fused, keeping its frequency, and recorded as a change. */
    method ReplacePair(p: Pair) returns (changes: seq<Change>)
      modifies vocab
      ensures vocab[..] == Replaced(old(vocab[..]), p, indices)
      ensures changes == ChangesOf(old(vocab[..]), p, indices, vocab.Length)
    {
      ghost var ws := vocab[..];
      changes := [];
      var j := 0;
      while j < vocab.Length
        invariant 0 <= j <= vocab.Length
        invariant forall k :: 0 <= k < j ==> vocab[k] == Replaced(ws, p, indices)[k]
        invariant forall k :: j <= k < vocab.Length ==> vocab[k] == ws[k]
        invariant changes == ChangesOf(ws, p, indices, j)
      {
        if IGet(indices, p, j) >= 1 {
          var (word, freq) := vocab[j];
          var newWord := Fuse(word, p);
          vocab[j] := (newWord, freq);
          changes := changes + [Change(j, newWord, word, freq)];
        }
        j := j + 1;
      }
      assert vocab[..] == Replaced(ws, p, indices);
    }

    /** `do_pair`: write the pair, rewrite the vocabulary, patch the
        statistics and zero the pair.  When the tables were exact and the
        fused symbol was not yet spelled in any word containing the pair,
        they are exact afterwards (the merged pair's own index row
        aside). */
    method DoPair(p: Pair)
      modifies this, vocab
      ensures codes == old(codes) + [p]
      ensures vocab[..] == Replaced(old(vocab[..]), p, old(indices))
      ensures forall q :: Get(stats, q) == if q == p then 0 else Get(old(stats), q) + StatsShift(ChangesOf(old(vocab[..]), p, old(indices), vocab.Length), p, q)
      ensures stats.Keys == old(stats).Keys + {p} + Touched(ChangesOf(old(vocab[..]), p, old(indices), vocab.Length), p)
      ensures forall q, k :: IGet(indices, q, k) == (if q == p then 0 else IGet(old(indices), q, k)) + IndexShift(ChangesOf(old(vocab[..]), p, old(indices), vocab.Length), p, q, k)
      ensures bigStats == old(bigStats)
      ensures stats == Paired(old(stats), old(vocab[..]), old(indices), p)
      ensures IndexPaired(old(indices), old(vocab[..]), p, indices)
      ensures Exact(old(stats), old(indices), old(vocab[..])) && p.0 != "" && p.1 != "" && Unspelled(old(vocab[..]), p) ==>
        ExactBut(stats, indices, vocab[..], p)
    {
      ghost var ws, st, idx := vocab[..], stats, indices;
      codes := codes + [p];
      var changes := ReplacePair(p);
      UpdatePairStatistics(p, changes);
      stats := stats[p := 0];
      DoPairExactBut(ws, st, idx, p, stats, indices);
      PairedOf(st, ws, idx, p, stats);
    }

    // -------------------------------------------------------------------
    // prune_stats and the selection of the most frequent pair

    /** `prune_stats`: entries below the threshold leave the live table; a
        pruned entry overwrites the backing table, or is added to it when
        negative. */
    method PruneStats(cut: int)
      modifies this
      ensures forall q :: q in stats <==> q in old(stats) && old(stats)[q] >= cut
      ensures forall q :: q in stats ==> stats[q] == old(stats)[q]
      ensures forall q :: q in bigStats <==> q in old(bigStats) || (q in old(stats) && old(stats)[q] < cut)
      ensures forall q :: Get(bigStats, q) == if q in old(stats) && old(stats)[q] < cut then Backed(old(bigStats), q, old(stats)[q]) else Get(old(bigStats), q)
      ensures stats == Pruned(old(stats), cut) && bigStats == PrunedInto(old(bigStats), old(stats), cut)
      ensures indices == old(indices) && codes == old(codes)
    {
      var items := stats.Keys;
      while items != {}
        invariant items <= old(stats).Keys
        invariant forall q :: q in stats <==> q in old(stats) && (q in items || old(stats)[q] >= cut)
        invariant forall q :: q in stats ==> stats[q] == old(stats)[q]
        invariant forall q :: q in bigStats <==> q in old(bigStats) || (q in old(stats) && q !in items && old(stats)[q] < cut)
        invariant forall q :: Get(bigStats, q) == if q in old(stats) && q !in items && old(stats)[q] < cut then Backed(old(bigStats), q, old(stats)[q]) else Get(old(bigStats), q)
        invariant indices == old(indices) && codes == old(codes)
        decreases |items|
      {
        var item :| item in items;
        var freq := stats[item];
        if freq < cut {
          stats := stats - {item};
          if freq < 0 {
            bigStats := bigStats[item := Get(bigStats, item) + freq];
          } else {
            bigStats := bigStats[item := freq];
          }
        }
        items := items - {item};
      }
      PrunedOf(old(stats), old(bigStats), cut, stats, bigStats);
    }

    /** `max(stats, key=lambda x: (stats[x], x))`. */
    method MostFrequent() returns (mf: Pair)
      requires |stats| > 0
      ensures IsMostFrequent(stats, mf)
    {
      var rest := stats.Keys;
      mf :| mf in rest;
      rest := rest - {mf};
      while rest != {}
        invariant rest <= stats.Keys && mf in stats && mf !in rest
        invariant forall q :: q in stats && q !in rest && q != mf ==> KeyLt(stats[q], q, stats[mf], mf)
        decreases |rest|
      {
        var x :| x in rest;
        if KeyLt(stats[mf], mf, stats[x], x) {
          forall q | q in stats && q !in rest && q != mf
            ensures KeyLt(stats[q], q, stats[x], x)
          {
            KeyLtTransitive(stats[q], q, stats[mf], mf, stats[x], x);
          }
          mf := x;
        } else {
          KeyLtTotal(stats[mf], mf, stats[x], x);
        }
        rest := rest - {x};
      }
    }

    /** The selection at the head of each round of the learning loop: the
        most frequent live pair, unless the live table is empty or (after
        the first round) its best is below the threshold; then the live
        table is pruned into the backing table, refilled from it, and pruned
        again with a new threshold, frequency × i / (i + 10000) of its best
        (see `Choose`).  Reading a pruned best pair from the `defaultdict`
        puts it back at 0. */
    method Select(i: nat, cut: int) returns (mf: Pair, cut': int)
      requires |bigStats| > 0
      modifies this
      ensures Choice(stats, bigStats, cut', mf) == Choose(old(stats), old(bigStats), i, cut)
      ensures IsMostFrequent(stats, mf)
      ensures Kept(old(stats), i, cut) ==> stats == old(stats) && bigStats == old(bigStats) && cut' == cut
      ensures !Kept(old(stats), i, cut) ==> forall q :: q in stats ==> stats[q] >= cut'
      ensures old(bigStats).Keys <= bigStats.Keys
      ensures indices == old(indices) && codes == old(codes)
    {
      ghost var st, big := stats, bigStats;
      if |stats| > 0 {
        mf := MostFrequent();
        if i == 0 || stats[mf] >= cut {
          forall m | m in stats && IsMostFrequent(stats, m) ensures stats[m] >= cut || i == 0 {
            MostFrequentUnique(stats, m, mf);
          }
          MostFrequentUnique(stats, mf, Best(stats));
          return mf, cut;
        }
        assert !Kept(st, i, cut);
      }
      PruneStats(cut);
      stats := bigStats;
      mf := MostFrequent();
      MostFrequentUnique(stats, mf, Best(stats));
      cut' := Cut(stats[mf] * i, i + 10000);
      PruneStats(cut');
      if mf !in stats {
        stats := stats[mf := 0];
      }
      RefillFacts(st, big, i, cut);
    }

    // -------------------------------------------------------------------
    // The learning loop of `main`

    /** The learning loop: count the pairs, copy them into the backing
        table, set the first threshold to a tenth of the highest frequency,
        apply the forced merges (if any) to the backing table, then make the
        greedy merges.  The forced merges come first and do not count
        against numSymbols. */
    method Learn(numSymbols: nat, minFrequency: int, forced: seq<Pair>, force: bool) returns (r: LearnEnd, ghost run: LearnTrace)
      requires forall k :: 0 <= k < vocab.Length ==> |vocab[k].0| >= 1
      requires exists k :: 0 <= k < vocab.Length && |vocab[k].0| >= 2
      modifies this, vocab
      ensures LearnRun(old(vocab[..]), numSymbols, minFrequency, forced, force, run, r)
      ensures codes == old(codes) + (if force then forced else []) + run.picks
      ensures var fixed := |old(codes)| + (if force then |forced| else 0);
        fixed <= |codes| <= fixed + numSymbols &&
        codes[..fixed] == old(codes) + (if force then forced else [])
      ensures r == AllMerges ==> |codes| == |old(codes)| + (if force then |forced| else 0) + numSymbols
      ensures r == TooRare ==> exists mf :: IsMostFrequent(stats, mf) && stats[mf] < minFrequency
    {
      var cut := Prepare();
      ghost var start := Tables(vocab[..], stats, bigStats, indices);
      ghost var forcedTrace: seq<Tables> := [];
      if force {
        forcedTrace := ForceMerges(forced);
      }
      ghost var trace: seq<Tables>, cuts: seq<int>, picks: seq<Pair>;
      r, trace, cuts, picks := GreedyMerges(numSymbols, minFrequency, cut);
      run := LearnTrace(start, cut, forcedTrace, trace, cuts, picks);
      assert codes[..|old(codes)| + (if force then |forced| else 0)] == old(codes) + (if force then forced else []);
    }

    /** The tables before any merge, and the first threshold: a tenth of
        the highest frequency (`max(stats.values()) / 10`). */
    method Prepare() returns (cut: int)
      requires forall k :: 0 <= k < vocab.Length ==> |vocab[k].0| >= 1
      requires exists k :: 0 <= k < vocab.Length && |vocab[k].0| >= 2
      modifies this
      ensures Started(vocab[..], Tables(vocab[..], stats, bigStats, indices), cut)
      ensures Exact(stats, indices, vocab[..]) && bigStats == stats && |stats| > 0
      ensures exists top :: IsMostFrequent(stats, top) && cut == Cut(stats[top], 10)
      ensures codes == old(codes)
    {
      stats, indices := GetPairStatistics(vocab[..]);
      ghost var k :| 0 <= k < vocab.Length && |vocab[k].0| >= 2;
      PairsOfHas(vocab[..], vocab.Length, k);
      bigStats := stats;
      var top := MostFrequent();
      MostFrequentUnique(stats, top, Best(stats));
      cut := Cut(stats[top], 10);
    }

    /** The forced merges, in order, through `do_pair` on the backing
        table; the live table is left empty. */
    method ForceMerges(forced: seq<Pair>) returns (ghost trace: seq<Tables>)
      requires |bigStats| > 0
      modifies this, vocab
      ensures ForcedRun(Tables(old(vocab[..]), map[], old(bigStats), old(indices)), forced, trace)
      ensures trace[|forced|] == Tables(vocab[..], stats, bigStats, indices)
      ensures codes == old(codes) + forced
      ensures stats == map[] && |bigStats| > 0
    {
      ghost var t0 := Tables(vocab[..], map[], bigStats, indices);
      stats := bigStats;
      trace := [t0];
      var n := 0;
      while n < |forced|
        invariant 0 <= n <= |forced|
        invariant codes == old(codes) + forced[..n]
        invariant |stats| > 0
        invariant ForcedRun(t0, forced[..n], trace)
        invariant trace[n] == Tables(vocab[..], map[], stats, indices)
      {
        assert forced[..n + 1] == forced[..n] + [forced[n]];
        ghost var t := trace[n];
        DoPair(forced[n]);
        ghost var u := Tables(vocab[..], map[], stats, indices);
        ForcedExtend(t0, forced[..n], trace, forced[n], u);
        trace := trace + [u];
        n := n + 1;
      }
      assert forced[..n] == forced;
      bigStats := stats;
      stats := map[];
    }

    /** One round of the greedy loop: select the most frequent pair
        (refilling the live table when its top falls below the threshold),
        stop if it is below minFrequency, otherwise merge it everywhere and,
        every hundredth round, prune the live table. */
    method GreedyRound(i: nat, threshold: int, minFrequency: int) returns (mf: Pair, cut': int, rare: bool)
      requires |bigStats| > 0
      modifies this, vocab
      ensures rare <==> Top(Tables(old(vocab[..]), old(stats), old(bigStats), old(indices)), i, threshold) < minFrequency
      ensures rare ==> IsMostFrequent(stats, mf) && stats[mf] < minFrequency && codes == old(codes)
      ensures !rare ==> codes == old(codes) + [mf] && |bigStats| > 0
      ensures !rare ==> GreedyStep(Tables(old(vocab[..]), old(stats), old(bigStats), old(indices)), threshold, i, minFrequency,
                                   mf, Tables(vocab[..], stats, bigStats, indices), cut')
    {
      mf, cut' := Select(i, threshold);
      rare := stats[mf] < minFrequency;
      if rare {
        return;
      }
      DoPair(mf);
      if i % 100 == 0 {
        PruneStats(cut');
      }
    }

    /** Up to numSymbols rounds of: select the most frequent pair (see
        `Select`), stop if it is below minFrequency, merge it, and prune
        the live table every hundredth round. */
    method GreedyMerges(numSymbols: nat, minFrequency: int, cut: int)
      returns (r: LearnEnd, ghost trace: seq<Tables>, ghost cuts: seq<int>, ghost picks: seq<Pair>)
      requires |bigStats| > 0
      modifies this, vocab
      ensures GreedyRun(Tables(old(vocab[..]), old(stats), old(bigStats), old(indices)), cut, numSymbols, minFrequency, trace, cuts, picks, r)
      ensures codes == old(codes) + picks
      ensures |old(codes)| <= |codes| <= |old(codes)| + numSymbols && codes[..|old(codes)|] == old(codes)
      ensures r == AllMerges ==> |codes| == |old(codes)| + numSymbols
      ensures r == TooRare ==> exists mf :: IsMostFrequent(stats, mf) && stats[mf] < minFrequency
    {
      ghost var t0 := Tables(vocab[..], stats, bigStats, indices);
      var threshold := cut;
      var i := 0;
      trace, cuts, picks := [t0], [cut], [];
      while i < numSymbols
        invariant 0 <= i <= numSymbols
        invariant |picks| == i && codes == old(codes) + picks
        invariant |bigStats| > 0
        invariant GreedyPrefix(t0, cut, minFrequency, trace, cuts, picks)
        invariant trace[i] == Tables(vocab[..], stats, bigStats, indices) && cuts[i] == threshold
      {
        ghost var before := codes;
        var mf, cut', rare := GreedyRound(i, threshold, minFrequency);
        if rare {
          assert codes[..|old(codes)|] == old(codes);
          return TooRare, trace, cuts, picks;
        }
        threshold := cut';
        ghost var u := Tables(vocab[..], stats, bigStats, indices);
        GreedyExtend(t0, cut, minFrequency, trace, cuts, picks, mf, u, cut');
        Appended(old(codes), picks, mf, before, codes);
        trace, cuts, picks := trace + [u], cuts + [cut'], picks + [mf];
        i := i + 1;
      }
      assert codes[..|old(codes)|] == old(codes);
      r := AllMerges;
    }
  }
}
