/** Literals, clauses and truth assignments, in the convention of the
    solver interface: variables are numbered from 1 and the negated literal
    of variable v is -v. */
module Cnf {

  /** A literal: a non-zero variable id, negative when the variable is negated. */
  type Lit = int

  /** A disjunction of literals. */
  type Clause = seq<Lit>

  /** A truth value for every variable id (only positive ids are meaningful). */
  type Assignment = int -> bool

  function Abs(x: int): nat {
    if x < 0 then -x else x
  }

  ghost predicate LitValue(a: Assignment, l: Lit) {
    if l > 0 then a(l) else !a(-l)
  }

  ghost predicate ClauseSat(a: Assignment, c: Clause) {
    exists i :: 0 <= i < |c| && LitValue(a, c[i])
  }

  /** `a` is a model of every clause of `cs`. */
  ghost predicate Satisfies(a: Assignment, cs: seq<Clause>) {
    forall i :: 0 <= i < |cs| ==> ClauseSat(a, cs[i])
  }

  /** The number of positions of `lits` whose literal is true under `a`. */
  ghost function CountTrue(a: Assignment, lits: seq<Lit>): nat {
    if |lits| == 0 then 0
    else (if LitValue(a, lits[0]) then 1 else 0) + CountTrue(a, lits[1..])
  }

  /** `a` and `b` give the same value to every variable below `bound`. */
  ghost predicate Agree(a: Assignment, b: Assignment, bound: int) {
    forall v :: 0 < v < bound ==> a(v) == b(v)
  }

  /** Every literal is non-zero and mentions a variable below `bound`. */
  predicate LitsBelow(lits: seq<Lit>, bound: int) {
    forall i :: 0 <= i < |lits| ==> lits[i] != 0 && Abs(lits[i]) < bound
  }

  predicate ClausesBelow(cs: seq<Clause>, bound: int) {
    forall i :: 0 <= i < |cs| ==> LitsBelow(cs[i], bound)
  }

  predicate NonZero(lits: seq<Lit>) {
    forall i :: 0 <= i < |lits| ==> lits[i] != 0
  }

  /** The literal-wise negation of `lits`. */
  function Negate(lits: seq<Lit>): (r: seq<Lit>)
    ensures |r| == |lits|
    ensures forall i :: 0 <= i < |lits| ==> r[i] == -lits[i]
  {
    seq(|lits|, i requires 0 <= i < |lits| => -lits[i])
  }

  /** Concatenation of a sequence of sequences, in order. */
  function Flatten<T>(ss: seq<seq<T>>): seq<T> {
    if |ss| == 0 then [] else ss[0] + Flatten(ss[1..])
  }

  lemma LitValueNegate(a: Assignment, l: Lit)
    requires l != 0
    ensures LitValue(a, -l) == !LitValue(a, l)
  {
  }

  /** Satisfaction of a unit clause, spelled out. */
  lemma ClauseSat1(a: Assignment, p: Lit)
    ensures ClauseSat(a, [p]) <==> LitValue(a, p)
  {
    if LitValue(a, p) {
      assert LitValue(a, [p][0]);
    }
  }

  /** Satisfaction of a two-literal clause, spelled out. */
  lemma ClauseSat2(a: Assignment, p: Lit, q: Lit)
    ensures ClauseSat(a, [p, q]) <==> LitValue(a, p) || LitValue(a, q)
  {
    if LitValue(a, p) {
      assert LitValue(a, [p, q][0]);
    } else if LitValue(a, q) {
      assert LitValue(a, [p, q][1]);
    }
  }

  /** Satisfaction of a three-literal clause, spelled out. */
  lemma ClauseSat3(a: Assignment, p: Lit, q: Lit, r: Lit)
    ensures ClauseSat(a, [p, q, r]) <==> LitValue(a, p) || LitValue(a, q) || LitValue(a, r)
  {
    if LitValue(a, p) {
      assert LitValue(a, [p, q, r][0]);
    } else if LitValue(a, q) {
      assert LitValue(a, [p, q, r][1]);
    } else if LitValue(a, r) {
      assert LitValue(a, [p, q, r][2]);
    }
  }

  lemma SatisfiesAppend(a: Assignment, x: seq<Clause>, y: seq<Clause>)
    ensures Satisfies(a, x + y) <==> Satisfies(a, x) && Satisfies(a, y)
  {
    if Satisfies(a, x) && Satisfies(a, y) {
      forall i | 0 <= i < |x + y|
        ensures ClauseSat(a, (x + y)[i])
      {
        if i < |x| {
          assert (x + y)[i] == x[i];
        } else {
          assert (x + y)[i] == y[i - |x|];
        }
      }
    }
    if Satisfies(a, x + y) {
      forall i | 0 <= i < |x|
        ensures ClauseSat(a, x[i])
      {
        assert (x + y)[i] == x[i];
      }
      forall i | 0 <= i < |y|
        ensures ClauseSat(a, y[i])
      {
        assert (x + y)[|x| + i] == y[i];
      }
    }
  }

  /** Counting true literals distributes over concatenation. */
  lemma {:induction false} CountTrueAppend(a: Assignment, x: seq<Lit>, y: seq<Lit>)
    ensures CountTrue(a, x + y) == CountTrue(a, x) + CountTrue(a, y)
    decreases |x|
  {
    if |x| == 0 {
      assert x + y == y;
    } else {
      assert (x + y)[0] == x[0];
      assert (x + y)[1..] == x[1..] + y;
      CountTrueAppend(a, x[1..], y);
    }
  }

  /** At least one true literal exists exactly when the count is positive. */
  lemma {:induction false} CountTruePositive(a: Assignment, lits: seq<Lit>)
    ensures CountTrue(a, lits) >= 1 <==> exists i :: 0 <= i < |lits| && LitValue(a, lits[i])
    decreases |lits|
  {
    if |lits| > 0 {
      CountTruePositive(a, lits[1..]);
      if CountTrue(a, lits[1..]) >= 1 {
        var i :| 0 <= i < |lits[1..]| && LitValue(a, lits[1..][i]);
        assert LitValue(a, lits[i + 1]);
      }
      if exists i :: 0 <= i < |lits| && LitValue(a, lits[i]) {
        var i :| 0 <= i < |lits| && LitValue(a, lits[i]);
        if i > 0 {
          assert LitValue(a, lits[1..][i - 1]);
        }
      }
    }
  }

  /** A prefix never has more true literals than the whole sequence. */
  lemma CountTruePrefix(a: Assignment, lits: seq<Lit>, i: nat)
    requires i <= |lits|
    ensures CountTrue(a, lits[..i]) <= CountTrue(a, lits)
  {
    assert lits == lits[..i] + lits[i..];
    CountTrueAppend(a, lits[..i], lits[i..]);
  }

  /** The count over a one-longer prefix adds the value of the new literal. */
  lemma CountTrueSnoc(a: Assignment, lits: seq<Lit>, i: nat)
    requires i < |lits|
    ensures CountTrue(a, lits[..i + 1]) == CountTrue(a, lits[..i]) + (if LitValue(a, lits[i]) then 1 else 0)
  {
    assert lits[..i + 1] == lits[..i] + [lits[i]];
    CountTrueAppend(a, lits[..i], [lits[i]]);
  }

  /** Assignments that agree on the variables of `lits` count the same true literals. */
  lemma {:induction false} AgreeCount(a: Assignment, b: Assignment, lits: seq<Lit>, bound: int)
    requires Agree(a, b, bound) && LitsBelow(lits, bound)
    ensures CountTrue(a, lits) == CountTrue(b, lits)
    decreases |lits|
  {
    if |lits| > 0 {
      assert LitValue(a, lits[0]) == LitValue(b, lits[0]) by {
        assert lits[0] != 0 && Abs(lits[0]) < bound;
      }
      AgreeCount(a, b, lits[1..], bound);
    }
  }

  /** Assignments that agree on the variables of `cs` satisfy it alike. */
  lemma AgreeSatisfies(a: Assignment, b: Assignment, cs: seq<Clause>, bound: int)
    requires Agree(a, b, bound) && ClausesBelow(cs, bound)
    ensures Satisfies(a, cs) <==> Satisfies(b, cs)
  {
    forall i, j | 0 <= i < |cs| && 0 <= j < |cs[i]|
      ensures LitValue(a, cs[i][j]) == LitValue(b, cs[i][j])
    {
      assert LitsBelow(cs[i], bound);
    }
  }

  /** A model of a flattened sequence of clause groups is a model of each group, and back. */
  lemma {:induction false} SatisfiesFlatten(a: Assignment, ss: seq<seq<Clause>>)
    ensures Satisfies(a, Flatten(ss)) <==> forall i :: 0 <= i < |ss| ==> Satisfies(a, ss[i])
    decreases |ss|
  {
    if |ss| > 0 {
      SatisfiesAppend(a, ss[0], Flatten(ss[1..]));
      SatisfiesFlatten(a, ss[1..]);
      assert forall i :: 1 <= i < |ss| ==> ss[i] == ss[1..][i - 1];
    }
  }

  /** Every clause of a flattened sequence of groups comes from one of the groups. */
  lemma {:induction false} FlattenBelow(ss: seq<seq<Clause>>, bound: int)
    requires forall i :: 0 <= i < |ss| ==> ClausesBelow(ss[i], bound)
    ensures ClausesBelow(Flatten(ss), bound)
    decreases |ss|
  {
    if |ss| > 0 {
      FlattenBelow(ss[1..], bound);
      assert ClausesBelow(ss[0], bound);
    }
  }

  /** Flattening groups of one common length `m` gives `|ss| * m` elements. */
  lemma {:induction false} FlattenUniformLength<T>(ss: seq<seq<T>>, m: nat)
    requires forall i :: 0 <= i < |ss| ==> |ss[i]| == m
    ensures |Flatten(ss)| == |ss| * m
    decreases |ss|
  {
    if |ss| > 0 {
      FlattenUniformLength(ss[1..], m);
      assert |Flatten(ss)| == m + (|ss| - 1) * m;
    }
  }

  /** Every element of every inner sequence shows up in the flattening, at the offset of its group. */
  lemma {:induction false} FlattenMember<T>(ss: seq<seq<T>>, i: nat, j: nat)
    requires i < |ss| && j < |ss[i]|
    ensures ss[i][j] in Flatten(ss)
    decreases i
  {
    if i == 0 {
      assert Flatten(ss)[j] == ss[0][j];
    } else {
      FlattenMember(ss[1..], i - 1, j);
      assert ss[1..][i - 1] == ss[i];
    }
  }

  /** Each group of a flattening whose literals are within `bound` is within `bound`. */
  lemma FlattenLitsBelow(ss: seq<seq<Lit>>, bound: int)
    requires LitsBelow(Flatten(ss), bound)
    ensures forall i :: 0 <= i < |ss| ==> LitsBelow(ss[i], bound)
  {
    forall i, j | 0 <= i < |ss| && 0 <= j < |ss[i]|
      ensures ss[i][j] != 0 && Abs(ss[i][j]) < bound
    {
      FlattenMember(ss, i, j);
    }
  }

  lemma FlattenNonZero(ss: seq<seq<Lit>>)
    requires NonZero(Flatten(ss))
    ensures forall i :: 0 <= i < |ss| ==> NonZero(ss[i])
  {
    forall i, j | 0 <= i < |ss| && 0 <= j < |ss[i]|
      ensures ss[i][j] != 0
    {
      FlattenMember(ss, i, j);
    }
  }

  /** Negating every literal turns the true ones false and the false ones true. */
  lemma {:induction false} CountTrueNegate(a: Assignment, lits: seq<Lit>)
    requires NonZero(lits)
    ensures CountTrue(a, Negate(lits)) == |lits| - CountTrue(a, lits)
    decreases |lits|
  {
    if |lits| > 0 {
      assert Negate(lits)[1..] == Negate(lits[1..]);
      LitValueNegate(a, lits[0]);
      CountTrueNegate(a, lits[1..]);
    }
  }

  /** No more literals are true than there are. */
  lemma CountTrueAtMostLength(a: Assignment, v: seq<Lit>)
    requires NonZero(v)
    ensures CountTrue(a, v) <= |v|
  {
    CountTrueNegate(a, v);
  }

  /** The true literals of each sequence in turn, added up. */
  ghost function SumCounts(a: Assignment, ss: seq<seq<Lit>>): nat
    decreases |ss|
  {
    if |ss| == 0 then 0 else CountTrue(a, ss[0]) + SumCounts(a, ss[1..])
  }

  /** Counting over a flattening is counting group by group. */
  lemma {:induction false} CountTrueFlatten(a: Assignment, ss: seq<seq<Lit>>)
    ensures CountTrue(a, Flatten(ss)) == SumCounts(a, ss)
    decreases |ss|
  {
    if |ss| > 0 {
      CountTrueAppend(a, ss[0], Flatten(ss[1..]));
      CountTrueFlatten(a, ss[1..]);
    }
  }

  /** Groups with the same counts, position by position, have the same sum. */
  lemma {:induction false} SumCountsPointwise(a: Assignment, xs: seq<seq<Lit>>, b: Assignment, ys: seq<seq<Lit>>)
    requires |xs| == |ys|
    requires forall i :: 0 <= i < |xs| ==> CountTrue(a, xs[i]) == CountTrue(b, ys[i])
    ensures SumCounts(a, xs) == SumCounts(b, ys)
    decreases |xs|
  {
    if |xs| > 0 {
      assert CountTrue(a, xs[0]) == CountTrue(b, ys[0]);
      SumCountsPointwise(a, xs[1..], b, ys[1..]);
    }
  }

  /** No group holds more true literals than all groups together. */
  lemma {:induction false} SumCountsBound(a: Assignment, ss: seq<seq<Lit>>, i: nat)
    requires i < |ss|
    ensures CountTrue(a, ss[i]) <= SumCounts(a, ss)
    decreases i
  {
    if i > 0 {
      SumCountsBound(a, ss[1..], i - 1);
    }
  }

  lemma AgreeTrans(a: Assignment, b: Assignment, c: Assignment, lo: int, hi: int)
    requires Agree(a, b, lo) && Agree(b, c, hi) && lo <= hi
    ensures Agree(a, c, lo)
  {
  }
}
