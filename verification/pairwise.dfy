/** The direct encodings both commander encoders fall back on when all
    literals fit in one group: every pair of literals is forbidden from
    being true together (at most one), or every (k+1)-subset is (at most k).
    No auxiliary variable is introduced. */
module Pairwise {
  import opened Cnf

  /** The clauses {-l_i, -l_j} for i < j, with i in the outer and j in the
      inner loop, as the doubly nested loops emit them. */
  function PairwiseClauses(lits: seq<Lit>): (r: seq<Clause>)
    ensures forall i :: 0 <= i < |r| ==> |r[i]| == 2
    decreases |lits|
  {
    if |lits| <= 1 then [] else Heads(lits) + PairwiseClauses(lits[1..])
  }

  /** There are n(n-1)/2 pairwise clauses. */
  lemma {:induction false} PairwiseCount(lits: seq<Lit>)
    ensures 2 * |PairwiseClauses(lits)| == |lits| * (|lits| - 1)
    decreases |lits|
  {
    if |lits| > 1 {
      var n := |lits|;
      PairwiseCount(lits[1..]);
      assert (n - 1) * (n - 2) + 2 * (n - 1) == n * (n - 1);
    }
  }

  /** The pairs whose first element is `lits[0]`, in order of the second. */
  function Heads(lits: seq<Lit>): (r: seq<Clause>)
    requires |lits| >= 1
    ensures |r| == |lits| - 1
    ensures forall j :: 0 <= j < |lits| - 1 ==> r[j] == [-lits[0], -lits[j + 1]]
  {
    seq(|lits| - 1, j requires 0 <= j < |lits| - 1 => [-lits[0], -lits[j + 1]])
  }

  /** The pairwise clauses keep any bound the literals' variables keep. */
  lemma {:induction false} PairwiseBelow(lits: seq<Lit>, bound: int)
    requires LitsBelow(lits, bound)
    ensures ClausesBelow(PairwiseClauses(lits), bound)
    decreases |lits|
  {
    if |lits| > 1 {
      PairwiseBelow(lits[1..], bound);
      var h := Heads(lits);
      var rest := PairwiseClauses(lits[1..]);
      forall i | 0 <= i < |h + rest| ensures LitsBelow((h + rest)[i], bound) {
        if i < |h| {
          assert (h + rest)[i] == [-lits[0], -lits[i + 1]];
        } else {
          assert (h + rest)[i] == rest[i - |h|];
        }
      }
    }
  }

  /** The position of the pair (i, j) in lexicographic order among all pairs
      i < j of n elements. */
  function PairRank(n: nat, i: nat, j: nat): nat
    requires i < j < n
    decreases i
  {
    if i == 0 then j - 1 else (n - 1) + PairRank(n - 1, i - 1, j - 1)
  }

  /** The clause forbidding literals i and j sits at the lexicographic rank of (i, j). */
  lemma {:induction false} PairwiseAt(lits: seq<Lit>, i: nat, j: nat)
    requires i < j < |lits|
    ensures PairRank(|lits|, i, j) < |PairwiseClauses(lits)|
    ensures PairwiseClauses(lits)[PairRank(|lits|, i, j)] == [-lits[i], -lits[j]]
    decreases i
  {
    var n := |lits|;
    var rest := PairwiseClauses(lits[1..]);
    assert PairwiseClauses(lits) == Heads(lits) + rest;
    if i > 0 {
      PairwiseAt(lits[1..], i - 1, j - 1);
      assert lits[1..][i - 1] == lits[i] && lits[1..][j - 1] == lits[j];
    }
  }

  /** Ranks grow strictly along the lexicographic order of pairs, so the
      clauses come out in that order, each pair once. */
  lemma {:induction false} PairRankLex(n: nat, i: nat, j: nat, i2: nat, j2: nat)
    requires i < j < n && i2 < j2 < n
    requires i < i2 || (i == i2 && j < j2)
    ensures PairRank(n, i, j) < PairRank(n, i2, j2)
    decreases i
  {
    if i > 0 {
      PairRankLex(n - 1, i - 1, j - 1, i2 - 1, j2 - 1);
    }
  }

  lemma HeadsSemantics(a: Assignment, lits: seq<Lit>)
    requires |lits| >= 1 && NonZero(lits)
    ensures Satisfies(a, Heads(lits)) <==> !LitValue(a, lits[0]) || CountTrue(a, lits[1..]) == 0
  {
    var h := Heads(lits);
    var tail := lits[1..];
    CountTruePositive(a, tail);
    forall j | 0 <= j < |h|
      ensures ClauseSat(a, h[j]) <==> !LitValue(a, lits[0]) || !LitValue(a, tail[j])
    {
      ClauseSat2(a, -lits[0], -lits[j + 1]);
      LitValueNegate(a, lits[0]);
      LitValueNegate(a, lits[j + 1]);
    }
  }

  /** The pairwise clauses have a model exactly when at most one literal is true. */
  lemma {:induction false} PairwiseSemantics(a: Assignment, lits: seq<Lit>)
    requires NonZero(lits)
    ensures Satisfies(a, PairwiseClauses(lits)) <==> CountTrue(a, lits) <= 1
    decreases |lits|
  {
    if |lits| <= 1 {
      if |lits| == 1 {
        assert lits[1..] == [];
      }
    } else {
      var tail := lits[1..];
      SatisfiesAppend(a, Heads(lits), PairwiseClauses(tail));
      HeadsSemantics(a, lits);
      PairwiseSemantics(a, tail);
    }
  }

  /** All choices of `m` positions of `lits`, in lexicographic order of positions. */
  function Combos(lits: seq<Lit>, m: nat): (r: seq<seq<Lit>>)
    ensures forall i :: 0 <= i < |r| ==> |r[i]| == m
    decreases |lits|
  {
    if m == 0 then [[]]
    else if |lits| == 0 then []
    else
      Prepend(lits[0], Combos(lits[1..], m - 1)) + Combos(lits[1..], m)
  }

  /** Every sequence of `cs`, with `x` put in front. */
  function Prepend(x: Lit, cs: seq<seq<Lit>>): (r: seq<seq<Lit>>)
    ensures |r| == |cs|
    ensures forall i :: 0 <= i < |cs| ==> r[i] == [x] + cs[i]
  {
    seq(|cs|, i requires 0 <= i < |cs| => [x] + cs[i])
  }

  /** `c` picks some positions of `lits`, keeping their order. */
  predicate Subsequence(c: seq<Lit>, lits: seq<Lit>)
    decreases |lits|
  {
    if |c| == 0 then true
    else if |lits| == 0 then false
    else (c[0] == lits[0] && Subsequence(c[1..], lits[1..])) || Subsequence(c, lits[1..])
  }

  function Binom(n: nat, m: nat): nat
    decreases n
  {
    if m == 0 then 1 else if n == 0 then 0 else Binom(n - 1, m - 1) + Binom(n - 1, m)
  }

  /** There are C(n, m) choices. */
  lemma {:induction false} CombosCount(lits: seq<Lit>, m: nat)
    ensures |Combos(lits, m)| == Binom(|lits|, m)
    decreases |lits|
  {
    if m > 0 && |lits| > 0 {
      CombosCount(lits[1..], m - 1);
      CombosCount(lits[1..], m);
    }
  }

  lemma PrependMember(x: Lit, cs: seq<seq<Lit>>, c: seq<Lit>)
    ensures c in Prepend(x, cs) <==> |c| > 0 && c[0] == x && c[1..] in cs
  {
    var r := Prepend(x, cs);
    if c in r {
      var i :| 0 <= i < |r| && r[i] == c;
      assert c[1..] == cs[i];
    }
    if |c| > 0 && c[0] == x && c[1..] in cs {
      var i :| 0 <= i < |cs| && cs[i] == c[1..];
      assert r[i] == c;
    }
  }

  /** The choices are exactly the length-m subsequences. */
  lemma {:induction false} CombosExactly(lits: seq<Lit>, m: nat, c: seq<Lit>)
    ensures c in Combos(lits, m) <==> |c| == m && Subsequence(c, lits)
    decreases |lits|
  {
    if m == 0 {
      assert Combos(lits, m) == [[]];
    } else if |lits| == 0 {
      assert Combos(lits, m) == [];
    } else {
      var tail := lits[1..];
      var with := Combos(tail, m - 1);
      assert Combos(lits, m) == Prepend(lits[0], with) + Combos(tail, m);
      PrependMember(lits[0], with, c);
      CombosExactly(tail, m, c);
      if |c| > 0 {
        CombosExactly(tail, m - 1, c[1..]);
        assert Subsequence(c, lits) <==> (c[0] == lits[0] && Subsequence(c[1..], tail)) || Subsequence(c, tail);
      }
    }
  }

  ghost predicate AllTrue(a: Assignment, c: seq<Lit>) {
    forall j :: 0 <= j < |c| ==> LitValue(a, c[j])
  }

  /** An all-true subsequence of length m shows that m literals are true. */
  lemma {:induction false} SubsequenceTrueCounts(a: Assignment, lits: seq<Lit>, c: seq<Lit>)
    requires Subsequence(c, lits) && AllTrue(a, c)
    ensures CountTrue(a, lits) >= |c|
    decreases |lits|
  {
    if |c| > 0 {
      var tail := lits[1..];
      if c[0] == lits[0] && Subsequence(c[1..], tail) {
        assert AllTrue(a, c[1..]) by {
          forall j | 0 <= j < |c[1..]| ensures LitValue(a, c[1..][j]) {
            assert c[1..][j] == c[j + 1];
          }
        }
        SubsequenceTrueCounts(a, tail, c[1..]);
        assert LitValue(a, lits[0]);
      } else {
        SubsequenceTrueCounts(a, tail, c);
      }
      assert CountTrue(a, lits) == (if LitValue(a, lits[0]) then 1 else 0) + CountTrue(a, tail);
    }
  }

  /** An all-true choice of `m` positions shows that `m` literals are true. */
  lemma ComboTrueCounts(a: Assignment, lits: seq<Lit>, m: nat, c: seq<Lit>)
    requires c in Combos(lits, m) && AllTrue(a, c)
    ensures CountTrue(a, lits) >= m
  {
    CombosExactly(lits, m, c);
    SubsequenceTrueCounts(a, lits, c);
  }

  /** When `m` literals are true, some length-m subsequence is all true. */
  lemma {:induction false} CountFindsSubsequence(a: Assignment, lits: seq<Lit>, m: nat) returns (c: seq<Lit>)
    requires CountTrue(a, lits) >= m
    ensures |c| == m && Subsequence(c, lits) && AllTrue(a, c)
    decreases |lits|
  {
    if m == 0 {
      c := [];
    } else {
      var tail := lits[1..];
      assert CountTrue(a, lits) == (if LitValue(a, lits[0]) then 1 else 0) + CountTrue(a, tail);
      if LitValue(a, lits[0]) {
        var w := CountFindsSubsequence(a, tail, m - 1);
        c := [lits[0]] + w;
        assert c[0] == lits[0] && c[1..] == w;
        assert AllTrue(a, c) by {
          forall j | 0 <= j < |c| ensures LitValue(a, c[j]) {
            if j > 0 {
              assert c[j] == w[j - 1];
            }
          }
        }
      } else {
        c := CountFindsSubsequence(a, tail, m);
      }
    }
  }

  /** When `m` literals are true, some choice of `m` positions is all true. */
  lemma CountFindsCombo(a: Assignment, lits: seq<Lit>, m: nat) returns (c: seq<Lit>)
    requires CountTrue(a, lits) >= m
    ensures c in Combos(lits, m) && AllTrue(a, c)
  {
    c := CountFindsSubsequence(a, lits, m);
    CombosExactly(lits, m, c);
  }

  /** One clause per (k+1)-subset, negating each member: the base case of
      the commander at-most-k encoding. */
  function ForbidSubsets(lits: seq<Lit>, m: nat): (r: seq<Clause>)
    ensures |r| == |Combos(lits, m)|
  {
    var cs := Combos(lits, m);
    seq(|cs|, i requires 0 <= i < |cs| => Negate(cs[i]))
  }

  /** The negation of a choice is satisfied exactly when the choice is not all true. */
  lemma NegatedChoice(a: Assignment, c: seq<Lit>)
    requires NonZero(c)
    ensures ClauseSat(a, Negate(c)) <==> !AllTrue(a, c)
  {
    var r := Negate(c);
    forall j | 0 <= j < |c| ensures LitValue(a, r[j]) == !LitValue(a, c[j]) {
      LitValueNegate(a, c[j]);
    }
  }

  /** Forbidding every (k+1)-subset leaves exactly the assignments with at most k true literals. */
  lemma ForbidSubsetsSemantics(a: Assignment, lits: seq<Lit>, k: nat)
    requires NonZero(lits)
    ensures Satisfies(a, ForbidSubsets(lits, k + 1)) <==> CountTrue(a, lits) <= k
  {
    if CountTrue(a, lits) <= k {
      ForbidSubsetsSound(a, lits, k);
    } else {
      ForbidSubsetsComplete(a, lits, k);
    }
  }

  lemma ForbidSubsetsSound(a: Assignment, lits: seq<Lit>, k: nat)
    requires NonZero(lits) && CountTrue(a, lits) <= k
    ensures Satisfies(a, ForbidSubsets(lits, k + 1))
  {
    var cs := Combos(lits, k + 1);
    var r := ForbidSubsets(lits, k + 1);
    forall i | 0 <= i < |r| ensures ClauseSat(a, r[i]) {
      var c := cs[i];
      CombosExactly(lits, k + 1, c);
      SubsequenceNonZero(c, lits);
      NegatedChoice(a, c);
      if AllTrue(a, c) {
        SubsequenceTrueCounts(a, lits, c);
        assert false;
      }
    }
  }

  lemma ForbidSubsetsComplete(a: Assignment, lits: seq<Lit>, k: nat)
    requires NonZero(lits) && CountTrue(a, lits) > k
    ensures !Satisfies(a, ForbidSubsets(lits, k + 1))
  {
    var cs := Combos(lits, k + 1);
    var r := ForbidSubsets(lits, k + 1);
    var c := CountFindsCombo(a, lits, k + 1);
    var i :| 0 <= i < |cs| && cs[i] == c;
    CombosExactly(lits, k + 1, c);
    SubsequenceNonZero(c, lits);
    NegatedChoice(a, c);
    assert !ClauseSat(a, r[i]);
  }

  lemma {:induction false} SubsequenceNonZero(c: seq<Lit>, lits: seq<Lit>)
    requires Subsequence(c, lits) && NonZero(lits)
    ensures NonZero(c)
    decreases |lits|
  {
    if |c| > 0 {
      if c[0] == lits[0] && Subsequence(c[1..], lits[1..]) {
        SubsequenceNonZero(c[1..], lits[1..]);
        assert forall j :: 1 <= j < |c| ==> c[j] == c[1..][j - 1];
      } else {
        SubsequenceNonZero(c, lits[1..]);
      }
    }
  }

  lemma {:induction false} SubsequenceBelow(c: seq<Lit>, lits: seq<Lit>, bound: int)
    requires Subsequence(c, lits) && LitsBelow(lits, bound)
    ensures LitsBelow(c, bound)
    decreases |lits|
  {
    if |c| > 0 {
      if c[0] == lits[0] && Subsequence(c[1..], lits[1..]) {
        SubsequenceBelow(c[1..], lits[1..], bound);
        assert forall j :: 1 <= j < |c| ==> c[j] == c[1..][j - 1];
      } else {
        SubsequenceBelow(c, lits[1..], bound);
      }
    }
  }

  /** The subset clauses keep any bound the literals' variables keep. */
  lemma ForbidSubsetsBelow(lits: seq<Lit>, m: nat, bound: int)
    requires LitsBelow(lits, bound)
    ensures ClausesBelow(ForbidSubsets(lits, m), bound)
  {
    var cs := Combos(lits, m);
    var r := ForbidSubsets(lits, m);
    forall i | 0 <= i < |r| ensures LitsBelow(r[i], bound) {
      CombosExactly(lits, m, cs[i]);
      SubsequenceBelow(cs[i], lits, bound);
    }
  }

  /** The pairwise encoding is the subset encoding for k = 1, clause for clause. */
  lemma {:induction false} PairwiseIsForbidPairs(lits: seq<Lit>)
    ensures PairwiseClauses(lits) == ForbidSubsets(lits, 2)
    decreases |lits|
  {
    if |lits| >= 1 {
      var tail := lits[1..];
      var with := Combos(tail, 1);
      SinglesOfCombos(tail);
      var heads := Prepend(lits[0], with);
      assert Combos(lits, 2) == heads + Combos(tail, 2);
      if |lits| >= 2 {
        PairwiseIsForbidPairs(tail);
        var f := ForbidSubsets(lits, 2);
        var g := Heads(lits) + ForbidSubsets(tail, 2);
        assert |f| == |g|;
        forall i | 0 <= i < |f| ensures f[i] == g[i] {
          if i < |heads| {
            assert Combos(lits, 2)[i] == [lits[0], tail[i]];
          } else {
            assert Combos(lits, 2)[i] == Combos(tail, 2)[i - |heads|];
          }
        }
      } else {
        assert Combos(tail, 2) == [];
      }
    }
  }

  lemma {:induction false} SinglesOfCombos(lits: seq<Lit>)
    ensures Combos(lits, 1) == seq(|lits|, j requires 0 <= j < |lits| => [lits[j]])
    decreases |lits|
  {
    if |lits| > 0 {
      SinglesOfCombos(lits[1..]);
      var with := Combos(lits[1..], 0);
      assert with == [[]];
      var heads := Prepend(lits[0], with);
      assert |heads| == 1;
      assert with[0] == [];
      assert [lits[0]] + with[0] == [lits[0]];
      assert heads[0] == [lits[0]];
      assert heads == [[lits[0]]];
      var want := seq(|lits|, j requires 0 <= j < |lits| => [lits[j]]);
      var rest := seq(|lits| - 1, j requires 0 <= j < |lits| - 1 => [lits[1..][j]]);
      assert want == [[lits[0]]] + rest;
    }
  }
}
