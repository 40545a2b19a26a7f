/** The order `max(stats, key=lambda x: (stats[x], x))` selects by: the
    frequency first, then the pair, comparing its two symbols as strings
    (lexicographically, character by character, by code point, with a
    proper prefix first).  It is a strict total order, so the selected pair
    does not depend on the order in which the table is visited. */
module Selection {
  import opened Symbols

  /** Lexicographic order of strings by code point. */
  predicate StrLt(a: string, b: string)
    decreases |a|
  {
    if |a| == 0 then |b| > 0
    else if |b| == 0 then false
    else if a[0] != b[0] then a[0] < b[0]
    else StrLt(a[1..], b[1..])
  }

  lemma {:induction false} StrLtIrreflexive(a: string)
    ensures !StrLt(a, a)
    decreases |a|
  {
    if |a| > 0 {
      StrLtIrreflexive(a[1..]);
    }
  }

  lemma {:induction false} StrLtTransitive(a: string, b: string, c: string)
    requires StrLt(a, b) && StrLt(b, c)
    ensures StrLt(a, c)
    decreases |a|
  {
    if |a| > 0 && a[0] == b[0] && b[0] == c[0] {
      StrLtTransitive(a[1..], b[1..], c[1..]);
    }
  }

  lemma {:induction false} StrLtTotal(a: string, b: string)
    ensures a == b || StrLt(a, b) || StrLt(b, a)
    decreases |a|
  {
    if |a| > 0 && |b| > 0 && a[0] == b[0] {
      StrLtTotal(a[1..], b[1..]);
      if a[1..] == b[1..] {
        assert a == [a[0]] + a[1..] && b == [b[0]] + b[1..];
      }
    }
  }

  lemma {:induction false} StrLtAsymmetric(a: string, b: string)
    requires StrLt(a, b)
    ensures !StrLt(b, a)
  {
    if StrLt(b, a) {
      StrLtTransitive(a, b, a);
      StrLtIrreflexive(a);
    }
  }

  /** Tuple order on pairs: the first symbols, then the second ones. */
  predicate PairLt(x: Pair, y: Pair)
  {
    StrLt(x.0, y.0) || (x.0 == y.0 && StrLt(x.1, y.1))
  }

  /** The selection key of pair x with frequency f is below that of y with
      frequency g. */
  predicate KeyLt(f: int, x: Pair, g: int, y: Pair)
  {
    f < g || (f == g && PairLt(x, y))
  }

  lemma PairLtTotal(x: Pair, y: Pair)
    ensures x == y || PairLt(x, y) || PairLt(y, x)
  {
    StrLtTotal(x.0, y.0);
    StrLtTotal(x.1, y.1);
  }

  lemma PairLtAsymmetric(x: Pair, y: Pair)
    requires PairLt(x, y)
    ensures !PairLt(y, x) && x != y
  {
    if StrLt(x.0, y.0) {
      StrLtAsymmetric(x.0, y.0);
      StrLtIrreflexive(x.0);
    } else {
      StrLtAsymmetric(x.1, y.1);
      StrLtIrreflexive(x.1);
    }
  }

  lemma PairLtTransitive(x: Pair, y: Pair, z: Pair)
    requires PairLt(x, y) && PairLt(y, z)
    ensures PairLt(x, z)
  {
    if StrLt(x.0, y.0) && StrLt(y.0, z.0) {
      StrLtTransitive(x.0, y.0, z.0);
    } else if x.0 == y.0 && y.0 == z.0 {
      StrLtTransitive(x.1, y.1, z.1);
    }
  }

  /** Distinct pairs of a table always compare one way or the other. */
  lemma KeyLtTotal(f: int, x: Pair, g: int, y: Pair)
    requires x != y
    ensures KeyLt(f, x, g, y) != KeyLt(g, y, f, x)
  {
    PairLtTotal(x, y);
    if PairLt(x, y) {
      PairLtAsymmetric(x, y);
    }
    if PairLt(y, x) {
      PairLtAsymmetric(y, x);
    }
  }

  lemma KeyLtTransitive(f: int, x: Pair, g: int, y: Pair, h: int, z: Pair)
    requires KeyLt(f, x, g, y) && KeyLt(g, y, h, z)
    ensures KeyLt(f, x, h, z)
  {
    if f == g && g == h {
      PairLtTransitive(x, y, z);
    }
  }

  /** mf is what `max` returns on the table: present, and every other
      entry's key is below its own. */
  predicate IsMostFrequent(st: map<Pair, int>, mf: Pair)
  {
    mf in st && forall q :: q in st && q != mf ==> KeyLt(st[q], q, st[mf], mf)
  }

  /** The selection is deterministic: a table has at most one most frequent
      pair. */
  lemma MostFrequentUnique(st: map<Pair, int>, x: Pair, y: Pair)
    requires IsMostFrequent(st, x) && IsMostFrequent(st, y)
    ensures x == y
  {
    if x != y {
      KeyLtTotal(st[x], x, st[y], y);
    }
  }

  /** Every nonempty table has one. */
  lemma {:induction false} MostFrequentExists(st: map<Pair, int>)
    requires |st| > 0
    ensures exists mf :: IsMostFrequent(st, mf)
    decreases |st|
  {
    var x :| x in st;
    var rest := map q | q in st && q != x :: st[q];
    assert rest.Keys == st.Keys - {x};
    if |rest| == 0 {
      assert st.Keys == {x} by {
        assert forall q :: q in st && q != x ==> q in rest.Keys;
      }
      assert IsMostFrequent(st, x);
    } else {
      MostFrequentExists(rest);
      var y :| IsMostFrequent(rest, y);
      if KeyLt(st[x], x, st[y], y) {
        forall q | q in st && q != y ensures KeyLt(st[q], q, st[y], y) {
          if q != x {
            assert q in rest && rest[q] == st[q];
          }
        }
        assert IsMostFrequent(st, y);
      } else {
        KeyLtTotal(st[x], x, st[y], y);
        forall q | q in st && q != x ensures KeyLt(st[q], q, st[x], x) {
          if q != y {
            assert q in rest && rest[q] == st[q];
            KeyLtTransitive(st[q], q, st[y], y, st[x], x);
          }
        }
        assert IsMostFrequent(st, x);
      }
    }
  }
}
