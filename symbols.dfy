/** Symbols, words and the one rewriting step that both the learner and the
    encoder perform: fusing every whole-symbol occurrence of a pair, left to
    right, without overlap.  A word is a sequence of symbols; a symbol is a
    string. */
module Symbols {

  type Pair = (string, string)

  datatype Option<T> = None | Some(value: T)

  /** The end-of-word marker. */
  const EndWord: string := "</w>"

  /** The symbols of a word written out one after the other. */
  function Concat(word: seq<string>): string
  {
    if word == [] then "" else word[0] + Concat(word[1..])
  }

  lemma {:induction false} ConcatAppend(a: seq<string>, b: seq<string>)
    ensures Concat(a + b) == Concat(a) + Concat(b)
  {
    if a == [] {
      assert a + b == b;
    } else {
      assert (a + b)[1..] == a[1..] + b;
      ConcatAppend(a[1..], b);
    }
  }

  lemma ConcatSingle(x: string)
    ensures Concat([x]) == x
  {
    assert [x][1..] == [];
  }

  predicate StartsWith(s: string, prefix: string)
  {
    |prefix| <= |s| && s[..|prefix|] == prefix
  }

  predicate EndsWith(s: string, suffix: string)
  {
    |suffix| <= |s| && s[|s| - |suffix|..] == suffix
  }

  /** True when m occurs in s as a substring. */
  predicate Contains(s: string, m: string)
  {
    exists i :: 0 <= i <= |s| && OccursAt(s, m, i)
  }

  predicate OccursAt(s: string, m: string, i: int)
  {
    0 <= i && i + |m| <= |s| && s[i..i + |m|] == m
  }

  /** A string without m has no slice containing m. */
  lemma NoInfix(s: string, m: string, lo: nat, hi: nat)
    requires lo <= hi <= |s| && !Contains(s, m)
    ensures !Contains(s[lo..hi], m)
  {
    forall i | 0 <= i <= hi - lo
      ensures !OccursAt(s[lo..hi], m, i)
    {
      assert !OccursAt(s, m, lo + i);
      if i + |m| <= hi - lo {
        var a, b := s[lo..hi][i..i + |m|], s[lo + i..lo + i + |m|];
        forall k | 0 <= k < |m| ensures a[k] == b[k] {
          assert a[k] == s[lo + i + k];
        }
        assert a == b;
      }
    }
  }

  /** `written`: the form a fused symbol takes in a segmented vocabulary;
      a word-final symbol loses its marker, any other gains the separator. */
  function Written(x: string, sep: string): (r: string)
    ensures EndsWith(x, EndWord) ==> r + EndWord == x
    ensures !EndsWith(x, EndWord) ==> r == x + sep
  {
    if EndsWith(x, EndWord) then x[..|x| - 4] else x + sep
  }

  /** `stripend`: drop a trailing end-of-word marker, if there is one. */
  function StripEnd(x: string): (r: string)
    ensures EndsWith(x, EndWord) ==> r + EndWord == x
    ensures !EndsWith(x, EndWord) ==> r == x
  {
    if EndsWith(x, EndWord) then x[..|x| - 4] else x
  }

  /** One symbol per character. */
  function Chars(s: string): (r: seq<string>)
    ensures |r| == |s|
    ensures forall i :: 0 <= i < |s| ==> r[i] == [s[i]]
  {
    if s == [] then [] else [[s[0]]] + Chars(s[1..])
  }

  lemma {:induction false} ConcatChars(s: string)
    ensures Concat(Chars(s)) == s
  {
    if s != [] {
      ConcatChars(s[1..]);
      assert Chars(s)[1..] == Chars(s[1..]);
    }
  }

  // ---------------------------------------------------------------------
  // Adjacent pairs

  /** The adjacent pairs of a word, left to right (one per position). */
  function Adj(w: seq<string>): (r: seq<Pair>)
    ensures |r| == if |w| < 2 then 0 else |w| - 1
    ensures forall i :: 0 <= i < |r| ==> r[i] == (w[i], w[i + 1])
  {
    if |w| < 2 then [] else [(w[0], w[1])] + Adj(w[1..])
  }

  /** Number of positions at which p occurs adjacently in w. */
  function Count(w: seq<string>, p: Pair): nat
  {
    multiset(Adj(w))[p]
  }

  predicate HasPair(w: seq<string>, p: Pair)
  {
    exists i :: 0 <= i < |w| - 1 && w[i] == p.0 && w[i + 1] == p.1
  }

  lemma InAdj(w: seq<string>, p: Pair)
    ensures p in Adj(w) <==> HasPair(w, p)
  {
    var a := Adj(w);
    if HasPair(w, p) {
      var i :| 0 <= i < |w| - 1 && w[i] == p.0 && w[i + 1] == p.1;
      assert a[i] == p;
    }
    if p in a {
      var i :| 0 <= i < |a| && a[i] == p;
      assert a[i] == (w[i], w[i + 1]);
      assert w[i] == p.0 && w[i + 1] == p.1;
    }
  }

  lemma CountPositive(w: seq<string>, p: Pair)
    ensures Count(w, p) > 0 <==> HasPair(w, p)
  {
    InAdj(w, p);
    assert p in multiset(Adj(w)) <==> p in Adj(w);
  }

  /** `get_pairs`: the set of adjacent pairs. */
  function PairSet(w: seq<string>): (r: set<Pair>)
    ensures forall p :: p in r <==> HasPair(w, p)
  {
    var r := set q | q in Adj(w);
    assert forall q :: q in r <==> HasPair(w, q) by {
      forall q ensures q in r <==> HasPair(w, q) {
        InAdj(w, q);
      }
    }
    r
  }

  /** `word.index(x, i)`: the first position at or after i holding x. */
  function IndexFrom(w: seq<string>, x: string, i: nat): (r: Option<nat>)
    requires i <= |w|
    ensures r.None? ==> forall k :: i <= k < |w| ==> w[k] != x
    ensures r.Some? ==> i <= r.value < |w| && w[r.value] == x
    ensures r.Some? ==> forall k :: i <= k < r.value ==> w[k] != x
    decreases |w| - i
  {
    if i == |w| then None else if w[i] == x then Some(i) else IndexFrom(w, x, i + 1)
  }

  // ---------------------------------------------------------------------
  // Fusion

  /** Replace every occurrence of the adjacent symbols p.0 p.1 by the single
      symbol p.0 + p.1, scanning left to right, never overlapping. */
  function Fuse(w: seq<string>, p: Pair): seq<string>
  {
    if |w| < 2 then w
    else if w[0] == p.0 && w[1] == p.1 then [p.0 + p.1] + Fuse(w[2..], p)
    else [w[0]] + Fuse(w[1..], p)
  }

  lemma {:induction false} FuseConcat(w: seq<string>, p: Pair)
    ensures Concat(Fuse(w, p)) == Concat(w)
  {
    if |w| < 2 {
    } else if w[0] == p.0 && w[1] == p.1 {
      FuseConcat(w[2..], p);
      ConcatAppend([p.0 + p.1], Fuse(w[2..], p));
      ConcatSingle(p.0 + p.1);
      assert w == [w[0]] + ([w[1]] + w[2..]);
      ConcatAppend([w[0]], [w[1]] + w[2..]);
      ConcatAppend([w[1]], w[2..]);
      ConcatSingle(w[0]);
      ConcatSingle(w[1]);
    } else {
      FuseConcat(w[1..], p);
      ConcatAppend([w[0]], Fuse(w[1..], p));
      ConcatSingle(w[0]);
      assert w == [w[0]] + w[1..];
      ConcatAppend([w[0]], w[1..]);
    }
  }

  /** Fusing never lengthens a word, and shortens it exactly when the pair occurs. */
  lemma {:induction false} FuseLength(w: seq<string>, p: Pair)
    ensures |Fuse(w, p)| <= |w|
    ensures |Fuse(w, p)| < |w| <==> HasPair(w, p)
    ensures !HasPair(w, p) ==> Fuse(w, p) == w
  {
    if |w| < 2 {
    } else if w[0] == p.0 && w[1] == p.1 {
      FuseLength(w[2..], p);
    } else {
      FuseLength(w[1..], p);
      if HasPair(w, p) {
        var i :| 0 <= i < |w| - 1 && w[i] == p.0 && w[i + 1] == p.1;
        assert w[1..][i - 1] == p.0 && w[1..][i] == p.1;
      }
      if HasPair(w[1..], p) {
        var i :| 0 <= i < |w[1..]| - 1 && w[1..][i] == p.0 && w[1..][i + 1] == p.1;
        assert w[i + 1] == p.0 && w[i + 2] == p.1;
      }
      assert w == [w[0]] + w[1..];
    }
  }

  /** After fusion no occurrence of the pair is left. */
  lemma {:induction false} FuseRemovesPair(w: seq<string>, p: Pair)
    requires p.0 != "" && p.1 != ""
    ensures !HasPair(Fuse(w, p), p)
  {
    if |w| < 2 {
    } else if w[0] == p.0 && w[1] == p.1 {
      var rest := Fuse(w[2..], p);
      FuseRemovesPair(w[2..], p);
      var r := [p.0 + p.1] + rest;
      forall i | 0 <= i < |r| - 1 ensures !(r[i] == p.0 && r[i + 1] == p.1) {
        if i == 0 {
          assert |r[0]| > |p.0|;
        } else {
          assert r[i] == rest[i - 1] && r[i + 1] == rest[i];
        }
      }
    } else {
      var rest := Fuse(w[1..], p);
      FuseRemovesPair(w[1..], p);
      FuseHead(w[1..], p);
      var r := [w[0]] + rest;
      forall i | 0 <= i < |r| - 1 ensures !(r[i] == p.0 && r[i + 1] == p.1) {
        if i == 0 {
          if |w[1..]| >= 2 && w[1] == p.0 && w[2] == p.1 {
            assert |r[1]| > |p.1|;
          } else {
            assert r[0] == w[0] && r[1] == w[1];
          }
        } else {
          assert r[i] == rest[i - 1] && r[i + 1] == rest[i];
        }
      }
    }
  }

  /** The first symbol after fusion. */
  lemma FuseHead(w: seq<string>, p: Pair)
    requires |w| >= 1
    ensures |Fuse(w, p)| >= 1
    ensures Fuse(w, p)[0] == if |w| >= 2 && w[0] == p.0 && w[1] == p.1 then p.0 + p.1 else w[0]
  {
  }

  /** The last symbol after fusion is the old last symbol, possibly with its
      left neighbour fused onto it; so a suffix of the last symbol survives. */
  lemma {:induction false} FuseLastSuffix(w: seq<string>, p: Pair, e: string)
    requires |w| >= 1 && EndsWith(w[|w| - 1], e)
    ensures |Fuse(w, p)| >= 1 && EndsWith(Fuse(w, p)[|Fuse(w, p)| - 1], e)
  {
    if |w| < 2 {
    } else if w[0] == p.0 && w[1] == p.1 {
      if |w| == 2 {
        assert Fuse(w, p) == [p.0 + p.1] + Fuse(w[2..], p);
        assert w[2..] == [];
        assert (p.0 + p.1)[|p.0 + p.1| - |e|..] == p.1[|p.1| - |e|..];
      } else {
        assert w[2..][|w[2..]| - 1] == w[|w| - 1];
        FuseLastSuffix(w[2..], p, e);
      }
    } else {
      assert w[1..][|w[1..]| - 1] == w[|w| - 1];
      FuseLastSuffix(w[1..], p, e);
    }
  }

  /** Every symbol of a fused word is nonempty if every symbol of the word was. */
  lemma {:induction false} FuseNonEmpty(w: seq<string>, p: Pair)
    requires forall i :: 0 <= i < |w| ==> w[i] != ""
    ensures forall i :: 0 <= i < |Fuse(w, p)| ==> Fuse(w, p)[i] != ""
  {
    if |w| >= 2 {
      if w[0] == p.0 && w[1] == p.1 {
        FuseNonEmpty(w[2..], p);
        var f := Fuse(w[2..], p);
        assert Fuse(w, p) == [p.0 + p.1] + f;
        assert forall i :: 0 < i < 1 + |f| ==> ([p.0 + p.1] + f)[i] == f[i - 1];
      } else {
        FuseNonEmpty(w[1..], p);
        var f := Fuse(w[1..], p);
        assert Fuse(w, p) == [w[0]] + f;
        assert forall i :: 0 < i < 1 + |f| ==> ([w[0]] + f)[i] == f[i - 1];
      }
    }
  }

  // ---------------------------------------------------------------------
  // Whitespace splitting, as Python's str.split() with no argument does it

  /** The characters Python's str.split() treats as whitespace. */
  predicate IsSpace(c: char)
  {
    ('\t' <= c <= '\r') || ('\U{1c}' <= c <= ' ') || c == '\U{85}' || c == '\U{a0}'
    || c == '\U{1680}' || ('\U{2000}' <= c <= '\U{200a}') || c == '\U{2028}' || c == '\U{2029}'
    || c == '\U{202f}' || c == '\U{205f}' || c == '\U{3000}'
  }

  predicate IsToken(t: string)
  {
    t != "" && forall c <- t :: !IsSpace(c)
  }

  /** Length of the leading run of non-whitespace characters. */
  function TokenLength(s: string): (n: nat)
    ensures n <= |s|
    ensures forall c <- s[..n] :: !IsSpace(c)
    ensures n < |s| ==> IsSpace(s[n])
  {
    if s == [] || IsSpace(s[0]) then 0
    else
      var n := 1 + TokenLength(s[1..]);
      assert s[..n] == [s[0]] + s[1..][..n - 1];
      n
  }

  /** `str.split()`: maximal runs of non-whitespace characters. */
  function SplitWs(s: string): (r: seq<string>)
    ensures forall t <- r :: IsToken(t)
    decreases |s|
  {
    if s == [] then []
    else if IsSpace(s[0]) then SplitWs(s[1..])
    else
      var n := TokenLength(s);
      [s[..n]] + SplitWs(s[n..])
  }

  /** `' '.join(ts)` */
  function JoinSpace(ts: seq<string>): string
  {
    if ts == [] then ""
    else if |ts| == 1 then ts[0]
    else ts[0] + " " + JoinSpace(ts[1..])
  }

  lemma TokenLengthOfToken(t: string, rest: string)
    requires IsToken(t) && (rest == [] || IsSpace(rest[0]))
    ensures TokenLength(t + rest) == |t|
    decreases |t|
  {
    if |t| > 1 {
      assert (t + rest)[1..] == t[1..] + rest;
      TokenLengthOfToken(t[1..], rest);
    } else {
      assert (t + rest)[1..] == rest;
    }
  }

  /** Splitting the space-joined tokens gives the tokens back. */
  lemma {:induction false} SplitJoin(ts: seq<string>)
    requires forall t <- ts :: IsToken(t)
    ensures SplitWs(JoinSpace(ts)) == ts
  {
    if ts == [] {
    } else if |ts| == 1 {
      TokenLengthOfToken(ts[0], "");
      assert ts[0] + "" == ts[0];
      assert ts[0][|ts[0]|..] == "";
    } else {
      var s := JoinSpace(ts);
      var rest := " " + JoinSpace(ts[1..]);
      assert s == ts[0] + rest;
      TokenLengthOfToken(ts[0], rest);
      assert s[..|ts[0]|] == ts[0];
      assert s[|ts[0]|..] == rest;
      assert rest[1..] == JoinSpace(ts[1..]);
      SplitJoin(ts[1..]);
      assert SplitWs(rest) == SplitWs(JoinSpace(ts[1..]));
    }
  }
}
