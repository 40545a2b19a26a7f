/** The merge table as the encoder loads it: the version, the rank of every
    pair (its first line), the reverse map from a fused symbol to its pair,
    and the rank-ordered list of distinct pairs. */
module CodeTable {
  import opened Symbols
  import opened Header

  // ---------------------------------------------------------------------
  // Reading the table's lines

  /** A merge line holds exactly two whitespace-separated symbols. */
  predicate IsCodeLine(line: string)
  {
    |SplitWs(line)| == 2
  }

  function CodeOf(line: string): (p: Pair)
    requires IsCodeLine(line)
    ensures p.0 != "" && p.1 != ""
  {
    assert SplitWs(line)[0] in SplitWs(line) && SplitWs(line)[1] in SplitWs(line);
    (SplitWs(line)[0], SplitWs(line)[1])
  }

  /** True when the first line is a `#version: ` line. */
  predicate HasHeader(lines: seq<string>)
  {
    |lines| > 0 && MaybeHeaderVersion(lines[0]).Version?
  }

  /** The lines that hold merges: all of them, or all but a header line. */
  function MergeLines(lines: seq<string>): seq<string>
  {
    if HasHeader(lines) then lines[1..] else lines
  }

  /** What loading demands of a table file: no malformed header, and every
      merge line a pair. */
  predicate WellFormedTable(lines: seq<string>)
  {
    && (|lines| > 0 ==> !MaybeHeaderVersion(lines[0]).Malformed?)
    && forall i :: 0 <= i < |MergeLines(lines)| ==> IsCodeLine(MergeLines(lines)[i])
  }

  /** Why loading a table fails: int() rejects a part of the version
      header (ValueError), or a merge line does not hold two symbols. */
  datatype LoadFailure = BadHeader | BadLine

  /** The failure loading `lines` meets, if any. */
  function LoadProblem(lines: seq<string>): (r: Option<LoadFailure>)
    ensures r.None? <==> WellFormedTable(lines)
    ensures r == Some(BadHeader) <==> |lines| > 0 && MaybeHeaderVersion(lines[0]).Malformed?
  {
    if |lines| > 0 && MaybeHeaderVersion(lines[0]).Malformed? then Some(BadHeader)
    else if exists i :: 0 <= i < |MergeLines(lines)| && !IsCodeLine(MergeLines(lines)[i]) then Some(BadLine)
    else None
  }

  /** The version the table declares, (0, 1) when it has no header. */
  function TableVersion(lines: seq<string>): (v: seq<int>)
    ensures !HasHeader(lines) ==> v == [0, 1]
    ensures HasHeader(lines) ==> v == MaybeHeaderVersion(lines[0]).v
  {
    if HasHeader(lines) then MaybeHeaderVersion(lines[0]).v else [0, 1]
  }

  /** The merges, in line order (with duplicates). */
  function TableCodes(lines: seq<string>): (codes: seq<Pair>)
    requires WellFormedTable(lines)
    ensures |codes| == |MergeLines(lines)|
    ensures forall i :: 0 <= i < |codes| ==> codes[i] == CodeOf(MergeLines(lines)[i])
  {
    var ms := MergeLines(lines);
    seq(|ms|, i requires 0 <= i < |ms| => CodeOf(ms[i]))
  }

  // ---------------------------------------------------------------------
  // Ranks

  /** True when p occurs among codes[..n]. */
  predicate OccursBefore(codes: seq<Pair>, p: Pair, n: int)
    requires 0 <= n <= |codes|
  {
    p in codes[..n]
  }

  /** The rank table: each distinct pair maps to the index of its first
      occurrence; later duplicates are ignored. */
  function RankTable(codes: seq<Pair>): (m: map<Pair, nat>)
    ensures forall p :: p in m <==> p in codes
    ensures forall p :: p in m ==> m[p] < |codes| && codes[m[p]] == p && !OccursBefore(codes, p, m[p])
  {
    if codes == [] then map[]
    else
      var init := codes[..|codes| - 1];
      var last := codes[|codes| - 1];
      var m := RankTable(init);
      assert forall p :: p in codes <==> p in init || p == last by {
        assert codes == init + [last];
      }
      assert forall p, n :: p in m && n == m[p] ==> codes[..n] == init[..n];
      if last in m then m else m[last := |codes| - 1]
  }

  /** Position a is the first occurrence of p: nothing before it equals p. */
  lemma FirstOccurrence(codes: seq<Pair>, p: Pair, a: nat)
    requires a <= |codes| && !OccursBefore(codes, p, a)
    ensures forall k :: 0 <= k < a ==> codes[k] != p
  {
    forall k | 0 <= k < a
      ensures codes[k] != p
    {
      assert codes[..a][k] == codes[k];
    }
  }

  /** The distinct pairs whose first occurrence lies at or after position n,
      with that position, in line order. */
  function OrderedFrom(codes: seq<Pair>, n: nat): (r: seq<(Pair, nat)>)
    requires n <= |codes|
    ensures forall i :: 0 <= i < |r| ==> n <= r[i].1 < |codes| && codes[r[i].1] == r[i].0 && !OccursBefore(codes, r[i].0, r[i].1)
    ensures forall i, j :: 0 <= i < j < |r| ==> r[i].1 < r[j].1
    ensures forall k :: n <= k < |codes| && !OccursBefore(codes, codes[k], k) ==> (codes[k], k) in r
    decreases |codes| - n
  {
    if n == |codes| then []
    else
      var rest := OrderedFrom(codes, n + 1);
      if OccursBefore(codes, codes[n], n) then rest else [(codes[n], n)] + rest
  }

  /** `ordered_codes`: the items of the rank table, by ascending rank. */
  function OrderedCodes(codes: seq<Pair>): (r: seq<(Pair, nat)>)
    ensures forall i, j :: 0 <= i < j < |r| ==> r[i].1 < r[j].1
    ensures forall i :: 0 <= i < |r| ==> r[i].0 in RankTable(codes) && RankTable(codes)[r[i].0] == r[i].1
    ensures forall p :: p in RankTable(codes) ==> (p, RankTable(codes)[p]) in r
  {
    var r := OrderedFrom(codes, 0);
    var m := RankTable(codes);
    forall i | 0 <= i < |r|
      ensures r[i].0 in m && m[r[i].0] == r[i].1
    {
      var p := r[i].0;
      assert p in codes;
      FirstOccurrence(codes, p, m[p]);
      FirstOccurrence(codes, p, r[i].1);
    }
    r
  }

  // ---------------------------------------------------------------------
  // The reverse map

  /** Every entry k -> (a, b) splits k into two nonempty halves. */
  predicate ReverseWellFormed(rev: map<string, Pair>)
  {
    forall k :: k in rev ==> rev[k].0 != "" && rev[k].1 != "" && rev[k].0 + rev[k].1 == k
  }

  /** Builds the reverse map the way the source's dictionary does: the rank
      table is iterated in insertion order (distinct pairs by descending
      position of their last line), and a later entry for the same fused
      string overwrites an earlier one. */
  function ReverseWalk(codes: seq<Pair>, seen: set<Pair>, acc: map<string, Pair>): (rev: map<string, Pair>)
    ensures forall k :: k in acc ==> k in rev
    ensures forall k :: k in rev ==> (k in acc && rev[k] == acc[k]) || (rev[k] in codes && rev[k].0 + rev[k].1 == k)
    ensures forall p :: p in codes && p !in seen ==> p.0 + p.1 in rev
  {
    if codes == [] then acc
    else
      var init := codes[..|codes| - 1];
      var last := codes[|codes| - 1];
      assert forall p :: p in codes <==> p in init || p == last by {
        assert codes == init + [last];
      }
      if last in seen then ReverseWalk(init, seen, acc)
      else ReverseWalk(init, seen + {last}, acc[last.0 + last.1 := last])
  }

  /** The reverse map from a fused string to the pair that produced it. */
  function ReverseTable(codes: seq<Pair>): (rev: map<string, Pair>)
    ensures forall k :: k in rev ==> rev[k] in codes && rev[k].0 + rev[k].1 == k
    ensures forall p :: p in codes ==> p.0 + p.1 in rev
  {
    ReverseWalk(codes, {}, map[])
  }

  lemma ReverseTableWellFormed(codes: seq<Pair>)
    requires forall p :: p in codes ==> p.0 != "" && p.1 != ""
    ensures ReverseWellFormed(ReverseTable(codes))
  {
  }

  // ---------------------------------------------------------------------
  // Prerequisites of a merged symbol

  /** A string and all it is built from: the halves of its reverse entry
      that are longer than one character, and theirs, recursively. */
  function Below(s: string, rev: map<string, Pair>): (r: set<string>)
    requires ReverseWellFormed(rev)
    ensures s in r
    decreases |s|
  {
    {s} + if s !in rev then {} else
      (if |rev[s].0| > 1 then Below(rev[s].0, rev) else {}) +
      (if |rev[s].1| > 1 then Below(rev[s].1, rev) else {})
  }

  /** Everything below a member of Below(s) is itself below s. */
  lemma {:induction false} BelowTransitive(s: string, x: string, rev: map<string, Pair>)
    requires ReverseWellFormed(rev) && x in Below(s, rev)
    ensures Below(x, rev) <= Below(s, rev)
    decreases |s|
  {
    if x != s {
      var a, b := rev[s].0, rev[s].1;
      if |a| > 1 && x in Below(a, rev) {
        BelowTransitive(a, x, rev);
      } else {
        BelowTransitive(b, x, rev);
      }
    }
  }

  /** Below(s) is closed: every member with a reverse entry has its halves
      longer than one character in the set too. */
  lemma BelowClosed(s: string, x: string, rev: map<string, Pair>)
    requires ReverseWellFormed(rev) && x in Below(s, rev) && x in rev
    ensures |rev[x].0| > 1 ==> rev[x].0 in Below(s, rev)
    ensures |rev[x].1| > 1 ==> rev[x].1 in Below(s, rev)
  {
    BelowTransitive(s, x, rev);
  }

  /** The entries whose written form is in the vocabulary: where `prereqs`
      starts. */
  function Roots(rev: map<string, Pair>, vocab: set<string>, sep: string): (r: set<string>)
    ensures forall ab :: ab in r <==> ab in rev && Written(ab, sep) in vocab
  {
    set ab | ab in rev && Written(ab, sep) in vocab
  }

  /** Every member of the given roots and everything below them. */
  function Closure(roots: set<string>, rev: map<string, Pair>): set<string>
    requires ReverseWellFormed(rev)
  {
    set x, ab | ab in roots && x in Below(ab, rev) :: x
  }

  /** Adding one root adds what lies below it. */
  lemma ClosureAdd(roots: set<string>, ab: string, rev: map<string, Pair>)
    requires ReverseWellFormed(rev)
    ensures Closure(roots + {ab}, rev) == Closure(roots, rev) + Below(ab, rev)
  {
    var l, r := Closure(roots + {ab}, rev), Closure(roots, rev) + Below(ab, rev);
    forall x | x in r ensures x in l {
      if x !in Below(ab, rev) {
        var ab' :| ab' in roots && x in Below(ab', rev);
        assert ab' in roots + {ab};
      }
    }
  }

  /** A closure is closed under Below. */
  lemma ClosureClosed(roots: set<string>, rev: map<string, Pair>, x: string)
    requires ReverseWellFormed(rev) && x in Closure(roots, rev)
    ensures Below(x, rev) <= Closure(roots, rev)
  {
    var ab :| ab in roots && x in Below(ab, rev);
    BelowTransitive(ab, x, rev);
    forall y | y in Below(x, rev) ensures y in Closure(roots, rev) {
      assert y in Below(ab, rev);
    }
  }

  /** `prereqs(vocab)`: every root and everything below it. */
  function PrereqClosure(rev: map<string, Pair>, vocab: set<string>, sep: string): set<string>
    requires ReverseWellFormed(rev)
  {
    Closure(Roots(rev, vocab, sep), rev)
  }

  /** The closure contains every fused string whose written form is in the
      vocabulary, and is closed under taking halves longer than one
      character. */
  lemma PrereqsClosed(rev: map<string, Pair>, vocab: set<string>, sep: string)
    requires ReverseWellFormed(rev)
    ensures forall ab :: ab in rev && Written(ab, sep) in vocab ==> ab in PrereqClosure(rev, vocab, sep)
    ensures forall x :: x in PrereqClosure(rev, vocab, sep) && x in rev && |rev[x].0| > 1 ==> rev[x].0 in PrereqClosure(rev, vocab, sep)
    ensures forall x :: x in PrereqClosure(rev, vocab, sep) && x in rev && |rev[x].1| > 1 ==> rev[x].1 in PrereqClosure(rev, vocab, sep)
  {
    var pre := PrereqClosure(rev, vocab, sep);
    forall ab | ab in rev && Written(ab, sep) in vocab
      ensures ab in pre
    {
      assert ab in Roots(rev, vocab, sep) && ab in Below(ab, rev);
    }
    forall x | x in pre && x in rev
      ensures |rev[x].0| > 1 ==> rev[x].0 in pre
      ensures |rev[x].1| > 1 ==> rev[x].1 in pre
    {
      var ab :| ab in Roots(rev, vocab, sep) && x in Below(ab, rev);
      BelowClosed(ab, x, rev);
    }
  }

  // ---------------------------------------------------------------------
  // Writing a subset of the table

  /** `write_pair`: one merge line. */
  function PairLine(p: Pair): string
  {
    p.0 + " " + p.1 + "\n"
  }

  /** Whether `write_subset` keeps a pair: its fused string is wanted in
      written form by the vocabulary, or is a prerequisite. */
  predicate Wanted(p: Pair, bpevocab: set<string>, pre: set<string>, sep: string)
  {
    Written(p.0 + p.1, sep) in bpevocab || p.0 + p.1 in pre
  }

  /** The wanted entries of a rank-ordered list, in the same order. */
  function SelectPairs(ordered: seq<(Pair, nat)>, bpevocab: set<string>, pre: set<string>, sep: string): seq<(Pair, nat)>
  {
    if ordered == [] then []
    else
      var n := |ordered| - 1;
      SelectPairs(ordered[..n], bpevocab, pre, sep) + if Wanted(ordered[n].0, bpevocab, pre, sep) then [ordered[n]] else []
  }

  /** The kept entries are exactly the wanted ones. */
  lemma {:induction false} SelectPairsMembers(ordered: seq<(Pair, nat)>, bpevocab: set<string>, pre: set<string>, sep: string)
    ensures forall e :: e in SelectPairs(ordered, bpevocab, pre, sep) <==> e in ordered && Wanted(e.0, bpevocab, pre, sep)
  {
    if ordered != [] {
      var n := |ordered| - 1;
      SelectPairsMembers(ordered[..n], bpevocab, pre, sep);
      assert ordered == ordered[..n] + [ordered[n]];
      forall e ensures e in SelectPairs(ordered, bpevocab, pre, sep) <==> e in ordered && Wanted(e.0, bpevocab, pre, sep) {
        assert e in ordered <==> e in ordered[..n] || e == ordered[n];
      }
    }
  }

  /** A rank-ordered list stays rank-ordered. */
  lemma {:induction false} SelectPairsOrdered(ordered: seq<(Pair, nat)>, bpevocab: set<string>, pre: set<string>, sep: string)
    requires forall i, j :: 0 <= i < j < |ordered| ==> ordered[i].1 < ordered[j].1
    ensures forall i, j :: 0 <= i < j < |SelectPairs(ordered, bpevocab, pre, sep)| ==>
      SelectPairs(ordered, bpevocab, pre, sep)[i].1 < SelectPairs(ordered, bpevocab, pre, sep)[j].1
  {
    if ordered != [] {
      var n := |ordered| - 1;
      var rest := SelectPairs(ordered[..n], bpevocab, pre, sep);
      SelectPairsOrdered(ordered[..n], bpevocab, pre, sep);
      if Wanted(ordered[n].0, bpevocab, pre, sep) {
        SelectPairsMembers(ordered[..n], bpevocab, pre, sep);
        var r := rest + [ordered[n]];
        assert SelectPairs(ordered, bpevocab, pre, sep) == r;
        forall i, j | 0 <= i < j < |r| ensures r[i].1 < r[j].1 {
          if j < |rest| {
            assert r[i] == rest[i] && r[j] == rest[j];
          } else {
            assert r[i] == rest[i] && r[j] == ordered[n];
            assert rest[i] in rest;
            assert rest[i] in ordered[..n];
            var k :| 0 <= k < n && ordered[..n][k] == rest[i];
            assert ordered[k].1 < ordered[n].1;
          }
        }
      } else {
        assert SelectPairs(ordered, bpevocab, pre, sep) == rest + [] == rest;
      }
    }
  }

  /** The lines of the selected pairs. */
  function PairLines(ps: seq<(Pair, nat)>): (r: seq<string>)
    ensures |r| == |ps|
    ensures forall i :: 0 <= i < |ps| ==> r[i] == PairLine(ps[i].0)
  {
    seq(|ps|, i requires 0 <= i < |ps| => PairLine(ps[i].0))
  }
}
