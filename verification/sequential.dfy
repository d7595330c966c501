/** Sinz's sequential counter for "at most k of x_0, ..., x_{n-1}": a
    matrix of (n - 1) * k fresh counter variables s[i][j], where s[i][j]
    stands for "at least j + 1 of x_0, ..., x_i are true", and clauses that
    push each count forward from one input to the next and forbid it from
    passing k. */
module Sequential {
  import opened Cnf
  import opened ClauseSink

  /** The counter matrix for w = n - 1 rows and k columns, allocated column
      by column: s[i][j] is the id base + j * w + i. */
  function Counters(base: int, w: nat, k: nat): (r: seq<seq<Lit>>)
    ensures |r| == w
    ensures forall i :: 0 <= i < w ==> |r[i]| == k
    ensures forall i, j :: 0 <= i < w && 0 <= j < k ==> r[i][j] == base + Stride(j, w) + i
  {
    seq(w, i requires 0 <= i < w => seq(k, j requires 0 <= j < k => base + Stride(j, w) + i))
  }

  /** The counter of input i in column j is variable base + j*w + i: the
      columns are laid out one after another, w ids each. */
  lemma CounterIds(base: int, w: nat, k: nat, i: nat, j: nat)
    requires i < w && j < k
    ensures Counters(base, w, k)[i][j] == base + j * w + i
  {
    StrideIsProduct(j, w);
  }

  /** One more column appends, to every row, the id of its counter in that column. */
  lemma CountersColumn(base: int, w: nat, k: nat, i: nat)
    requires i < w
    ensures Counters(base, w, k + 1)[i] == Counters(base, w, k)[i] + [base + Stride(k, w) + i]
  {
  }

  /** The allocation loops of the code: column j outer, row i inner, one
      fresh id per counter. */
  method AllocateCounters(next: int, w: nat, k: nat) returns (s: seq<seq<Lit>>, top: int)
    ensures s == Counters(next, w, k)
    ensures top == next + Stride(k, w)
  {
    s := seq(w, i => []);
    top := next;
    var j := 0;
    while j < k
      invariant 0 <= j <= k
      invariant |s| == w
      invariant forall t :: 0 <= t < w ==> s[t] == Counters(next, w, j)[t]
      invariant top == next + Stride(j, w)
    {
      var i := 0;
      while i < w
        invariant 0 <= i <= w && |s| == w
        invariant forall t :: 0 <= t < i ==> s[t] == Counters(next, w, j + 1)[t]
        invariant forall t :: i <= t < w ==> s[t] == Counters(next, w, j)[t]
        invariant top == next + Stride(j, w) + i
      {
        CountersColumn(next, w, j, i);
        s := s[i := s[i] + [top]];
        top := top + 1;
        i := i + 1;
      }
      j := j + 1;
    }
  }

  /** The inputs and the counter matrix fit together: n >= 2 inputs, k >= 1
      columns and n - 1 rows. */
  predicate Shape(x: seq<Lit>, s: seq<seq<Lit>>, k: nat) {
    |x| >= 2 && k >= 1 && |s| == |x| - 1 && forall i :: 0 <= i < |s| ==> |s[i]| == k
  }

  /** The clauses that raise row i from row i - 1, for 1 <= i <= n - 2:
      x_i starts a count, counts are kept, x_i raises count j to j + 1, and
      x_i may not raise a count that is already k. */
  function Row(x: seq<Lit>, s: seq<seq<Lit>>, k: nat, i: nat): seq<Clause>
    requires Shape(x, s, k) && 1 <= i < |x| - 1
  {
    [[-x[i], s[i][0]], [-s[i - 1][0], s[i][0]]]
    + Steps(x, s, k, i)
    + [[-x[i], -s[i - 1][k - 1]]]
  }

  /** For j = 1 .. k-1: the pair { -x_i, -s[i-1][j-1], s[i][j] }, { -s[i-1][j], s[i][j] }. */
  function Steps(x: seq<Lit>, s: seq<seq<Lit>>, k: nat, i: nat): seq<Clause>
    requires Shape(x, s, k) && 1 <= i < |x| - 1
  {
    Flatten(seq(k - 1, j requires 0 <= j < k - 1 => StepPair(x, s, i, j + 1)))
  }

  function StepPair(x: seq<Lit>, s: seq<seq<Lit>>, i: nat, j: nat): seq<Clause>
    requires 1 <= i < |x| && i < |s| && 1 <= j < |s[i]| && |s[i - 1]| == |s[i]|
  {
    [[-x[i], -s[i - 1][j - 1], s[i][j]], [-s[i - 1][j], s[i][j]]]
  }

  /** The counters of row 0 above the first are false. */
  function TopRow(s: seq<seq<Lit>>, k: nat): seq<Clause>
    requires |s| >= 1 && |s[0]| == k && k >= 1
  {
    seq(k - 1, j requires 0 <= j < k - 1 => [-s[0][j + 1]])
  }

  /** Rows 1 .. n-2, in order. */
  function Rows(x: seq<Lit>, s: seq<seq<Lit>>, k: nat): seq<Clause>
    requires Shape(x, s, k)
  {
    Flatten(seq(|x| - 2, i requires 0 <= i < |x| - 2 => Row(x, s, k, i + 1)))
  }

  /** All the clauses, in the order the code adds them. */
  function SeqClauses(x: seq<Lit>, s: seq<seq<Lit>>, k: nat): seq<Clause>
    requires Shape(x, s, k)
  {
    [[-x[0], s[0][0]]]
    + TopRow(s, k)
    + [[-x[|x| - 1], -s[|x| - 2][k - 1]]]
    + Rows(x, s, k)
  }

  /** The sequential encoding of "at most k of x": allocate the counters,
      then add the clauses. The code needs n >= 2 and k >= 1 (it indexes
      s[0][0] and s[n-2]); there is no upper bound on k. Every added clause
      has one to three literals, each the negation of an input or one of
      the ids this call allocated, positive or negated. */
  function AddAtMost(s: Sink, x: seq<Lit>, k: nat): (r: Encoded)
    requires |x| >= 2 && k >= 1
    ensures Appends(s, r)
    ensures Shaped(r.group, x, s.next, r.sink.next)
  {
    var ctr := Counters(s.next, |x| - 1, k);
    var hi := s.next + Stride(k, |x| - 1);
    CountersInRange(s.next, |x| - 1, k, hi);
    SeqClausesShaped(x, ctr, k, s.next, hi);
    var cs := SeqClauses(x, ctr, k);
    Encoded(Sink(hi, s.clauses + cs), cs)
  }

  lemma StepsCount(x: seq<Lit>, s: seq<seq<Lit>>, k: nat, i: nat)
    requires Shape(x, s, k) && 1 <= i < |x| - 1
    ensures |Steps(x, s, k, i)| == 2 * (k - 1)
  {
    var ss := seq(k - 1, j requires 0 <= j < k - 1 => StepPair(x, s, i, j + 1));
    FlattenUniformLength(ss, 2);
  }

  lemma RowsCount(x: seq<Lit>, s: seq<seq<Lit>>, k: nat)
    requires Shape(x, s, k)
    ensures |Rows(x, s, k)| == (|x| - 2) * (2 * k + 1)
  {
    var ss := seq(|x| - 2, i requires 0 <= i < |x| - 2 => Row(x, s, k, i + 1));
    forall i | 0 <= i < |x| - 2 ensures |ss[i]| == 2 * k + 1 {
      StepsCount(x, s, k, i + 1);
    }
    FlattenUniformLength(ss, 2 * k + 1);
  }

  lemma SeqClausesCount(x: seq<Lit>, s: seq<seq<Lit>>, k: nat)
    requires Shape(x, s, k)
    ensures |SeqClauses(x, s, k)| == k + 1 + (|x| - 2) * (2 * k + 1)
  {
    RowsCount(x, s, k);
  }

  lemma CountsArith(n: int, k: int)
    ensures k + 1 + (n - 2) * (2 * k + 1) == 2 * n * k + n - 3 * k - 1
  {
    assert (n - 2) * (2 * k + 1) == 2 * n * k + n - 4 * k - 2;
  }

  /** The counts of the doc comment: (n - 1) * k fresh variables and
      2nk + n - 3k - 1 clauses. */
  lemma AddAtMostCounts(s: Sink, x: seq<Lit>, k: nat)
    requires |x| >= 2 && k >= 1
    ensures var n := |x|;
            var r := AddAtMost(s, x, k);
            r.sink.next == s.next + (n - 1) * k
            && |r.group| == 2 * n * k + n - 3 * k - 1
  {
    var n := |x|;
    var ctr := Counters(s.next, n - 1, k);
    StrideIsProduct(k, n - 1);
    assert (n - 1) * k == k * (n - 1);
    SeqClausesCount(x, ctr, k);
    CountsArith(n, k);
  }

  /** What the clauses of row i say, read as implications over the counter
      literals. */
  ghost predicate RowHolds(a: Assignment, x: seq<Lit>, s: seq<seq<Lit>>, k: nat, i: nat)
    requires Shape(x, s, k) && 1 <= i < |x| - 1
  {
    (LitValue(a, x[i]) ==> LitValue(a, s[i][0]))
    && (LitValue(a, s[i - 1][0]) ==> LitValue(a, s[i][0]))
    && (forall j :: 1 <= j < k ==> LitValue(a, x[i]) && LitValue(a, s[i - 1][j - 1]) ==> LitValue(a, s[i][j]))
    && (forall j :: 1 <= j < k ==> LitValue(a, s[i - 1][j]) ==> LitValue(a, s[i][j]))
    && !(LitValue(a, x[i]) && LitValue(a, s[i - 1][k - 1]))
  }

  /** What all the clauses say: x_0 starts the count in row 0, no count above
      one in row 0, x_{n-1} may not raise a count of k, and every row in
      between follows RowHolds. */
  ghost predicate SinzHolds(a: Assignment, x: seq<Lit>, s: seq<seq<Lit>>, k: nat)
    requires Shape(x, s, k)
  {
    (LitValue(a, x[0]) ==> LitValue(a, s[0][0]))
    && (forall j :: 1 <= j < k ==> !LitValue(a, s[0][j]))
    && !(LitValue(a, x[|x| - 1]) && LitValue(a, s[|x| - 2][k - 1]))
    && (forall i :: 1 <= i < |x| - 1 ==> RowHolds(a, x, s, k, i))
  }

  /** Every literal of the inputs and of the counter matrix is non-zero. */
  predicate Literals(x: seq<Lit>, s: seq<seq<Lit>>) {
    NonZero(x) && forall i :: 0 <= i < |s| ==> NonZero(s[i])
  }

  lemma StepsMeaning(a: Assignment, x: seq<Lit>, s: seq<seq<Lit>>, k: nat, i: nat)
    requires Shape(x, s, k) && 1 <= i < |x| - 1 && Literals(x, s)
    ensures Satisfies(a, Steps(x, s, k, i)) <==>
              (forall j :: 1 <= j < k ==> LitValue(a, x[i]) && LitValue(a, s[i - 1][j - 1]) ==> LitValue(a, s[i][j]))
              && (forall j :: 1 <= j < k ==> LitValue(a, s[i - 1][j]) ==> LitValue(a, s[i][j]))
  {
    var ss := seq(k - 1, j requires 0 <= j < k - 1 => StepPair(x, s, i, j + 1));
    SatisfiesFlatten(a, ss);
    assert NonZero(s[i - 1]) && NonZero(s[i]);
    forall j | 1 <= j < k
      ensures Satisfies(a, ss[j - 1]) <==>
                (LitValue(a, x[i]) && LitValue(a, s[i - 1][j - 1]) ==> LitValue(a, s[i][j]))
                && (LitValue(a, s[i - 1][j]) ==> LitValue(a, s[i][j]))
    {
      var p := StepPair(x, s, i, j);
      assert ss[j - 1] == p;
      ClauseSat3(a, -x[i], -s[i - 1][j - 1], s[i][j]);
      ClauseSat2(a, -s[i - 1][j], s[i][j]);
      LitValueNegate(a, x[i]);
      LitValueNegate(a, s[i - 1][j - 1]);
      LitValueNegate(a, s[i - 1][j]);
      assert Satisfies(a, p) <==> ClauseSat(a, p[0]) && ClauseSat(a, p[1]);
    }
  }

  /** The clauses of row i hold exactly when RowHolds does. */
  lemma RowMeaning(a: Assignment, x: seq<Lit>, s: seq<seq<Lit>>, k: nat, i: nat)
    requires Shape(x, s, k) && 1 <= i < |x| - 1 && Literals(x, s)
    ensures Satisfies(a, Row(x, s, k, i)) <==> RowHolds(a, x, s, k, i)
  {
    var head: seq<Clause> := [[-x[i], s[i][0]], [-s[i - 1][0], s[i][0]]];
    var tail: seq<Clause> := [[-x[i], -s[i - 1][k - 1]]];
    assert NonZero(s[i - 1]) && NonZero(s[i]);
    SatisfiesAppend(a, head + Steps(x, s, k, i), tail);
    SatisfiesAppend(a, head, Steps(x, s, k, i));
    StepsMeaning(a, x, s, k, i);
    ClauseSat2(a, -x[i], s[i][0]);
    ClauseSat2(a, -s[i - 1][0], s[i][0]);
    ClauseSat2(a, -x[i], -s[i - 1][k - 1]);
    LitValueNegate(a, x[i]);
    LitValueNegate(a, s[i - 1][0]);
    LitValueNegate(a, s[i - 1][k - 1]);
    assert Satisfies(a, head) <==> ClauseSat(a, head[0]) && ClauseSat(a, head[1]);
    assert Satisfies(a, tail) <==> ClauseSat(a, tail[0]);
  }

  lemma RowsMeaning(a: Assignment, x: seq<Lit>, s: seq<seq<Lit>>, k: nat)
    requires Shape(x, s, k) && Literals(x, s)
    ensures Satisfies(a, Rows(x, s, k)) <==> forall i :: 1 <= i < |x| - 1 ==> RowHolds(a, x, s, k, i)
  {
    var ss := seq(|x| - 2, i requires 0 <= i < |x| - 2 => Row(x, s, k, i + 1));
    SatisfiesFlatten(a, ss);
    forall i | 0 <= i < |x| - 2 ensures Satisfies(a, ss[i]) <==> RowHolds(a, x, s, k, i + 1) {
      RowMeaning(a, x, s, k, i + 1);
    }
    if forall i :: 1 <= i < |x| - 1 ==> RowHolds(a, x, s, k, i) {
      forall i | 0 <= i < |x| - 2 ensures Satisfies(a, ss[i]) {
        assert RowHolds(a, x, s, k, i + 1);
      }
    }
    if Satisfies(a, Rows(x, s, k)) {
      forall i | 1 <= i < |x| - 1 ensures RowHolds(a, x, s, k, i) {
        assert Satisfies(a, ss[i - 1]);
      }
    }
  }

  lemma TopRowMeaning(a: Assignment, s: seq<seq<Lit>>, k: nat)
    requires |s| >= 1 && |s[0]| == k && k >= 1 && NonZero(s[0])
    ensures Satisfies(a, TopRow(s, k)) <==> forall j :: 1 <= j < k ==> !LitValue(a, s[0][j])
  {
    var t := TopRow(s, k);
    forall j | 1 <= j < k ensures ClauseSat(a, t[j - 1]) <==> !LitValue(a, s[0][j]) {
      ClauseSat1(a, -s[0][j]);
      LitValueNegate(a, s[0][j]);
    }
  }

  /** The clauses, read as a formula, say exactly SinzHolds. */
  lemma SeqClausesMeaning(a: Assignment, x: seq<Lit>, s: seq<seq<Lit>>, k: nat)
    requires Shape(x, s, k) && Literals(x, s)
    ensures Satisfies(a, SeqClauses(x, s, k)) <==> SinzHolds(a, x, s, k)
  {
    var n := |x|;
    var first: seq<Clause> := [[-x[0], s[0][0]]];
    var cutoff: seq<Clause> := [[-x[n - 1], -s[n - 2][k - 1]]];
    assert NonZero(s[0]) && NonZero(s[n - 2]);
    SatisfiesAppend(a, first + TopRow(s, k) + cutoff, Rows(x, s, k));
    SatisfiesAppend(a, first + TopRow(s, k), cutoff);
    SatisfiesAppend(a, first, TopRow(s, k));
    ClauseSat2(a, -x[0], s[0][0]);
    ClauseSat2(a, -x[n - 1], -s[n - 2][k - 1]);
    LitValueNegate(a, x[0]);
    LitValueNegate(a, x[n - 1]);
    LitValueNegate(a, s[n - 2][k - 1]);
    assert Satisfies(a, first) <==> ClauseSat(a, first[0]);
    assert Satisfies(a, cutoff) <==> ClauseSat(a, cutoff[0]);
    TopRowMeaning(a, s, k);
    RowsMeaning(a, x, s, k);
  }

  /** The counters track the count from below: in any model of the
      clauses, up to row i at most k inputs are true, and s[i][j] holds
      whenever at least j + 1 of x_0, ..., x_i are. */
  lemma {:induction false} CountersTrack(a: Assignment, x: seq<Lit>, s: seq<seq<Lit>>, k: nat, i: nat)
    requires Shape(x, s, k) && SinzHolds(a, x, s, k) && i < |x| - 1
    ensures CountTrue(a, x[..i + 1]) <= k
    ensures forall j :: 0 <= j < k && CountTrue(a, x[..i + 1]) >= j + 1 ==> LitValue(a, s[i][j])
    decreases i
  {
    CountTrueSnoc(a, x, i);
    if i == 0 {
      assert x[..0] == [];
    } else {
      CountersTrack(a, x, s, k, i - 1);
      assert RowHolds(a, x, s, k, i);
      var before := CountTrue(a, x[..i]);
      assert before == k ==> LitValue(a, s[i - 1][k - 1]);
      forall j | 0 <= j < k && CountTrue(a, x[..i + 1]) >= j + 1 ensures LitValue(a, s[i][j]) {
        if before >= j + 1 {
          assert LitValue(a, s[i - 1][j]);
        } else if j >= 1 {
          assert LitValue(a, s[i - 1][j - 1]);
        }
      }
    }
  }

  /** Completeness: in any model of the clauses at most k inputs are true. */
  lemma SinzComplete(a: Assignment, x: seq<Lit>, s: seq<seq<Lit>>, k: nat)
    requires Shape(x, s, k) && SinzHolds(a, x, s, k)
    ensures CountTrue(a, x) <= k
  {
    var n := |x|;
    CountersTrack(a, x, s, k, n - 2);
    CountTrueSnoc(a, x, n - 1);
    assert x[..n] == x;
    assert CountTrue(a, x[..n - 1]) == k ==> LitValue(a, s[n - 2][k - 1]);
  }

  /** The intended meaning of the counters: s[i][j] is true exactly when at
      least j + 1 of x_0, ..., x_i are. */
  ghost predicate Counting(a: Assignment, x: seq<Lit>, s: seq<seq<Lit>>)
    requires |s| < |x|
  {
    forall i, j :: 0 <= i < |s| && 0 <= j < |s[i]| ==> (LitValue(a, s[i][j]) <==> CountTrue(a, x[..i + 1]) >= j + 1)
  }

  /** Soundness: when at most k inputs are true, counters with their
      intended meaning satisfy every clause. */
  lemma SinzSound(a: Assignment, x: seq<Lit>, s: seq<seq<Lit>>, k: nat)
    requires Shape(x, s, k) && Counting(a, x, s) && CountTrue(a, x) <= k
    ensures SinzHolds(a, x, s, k)
  {
    var n := |x|;
    CountTrueSnoc(a, x, 0);
    assert x[..0] == [];
    forall i | 1 <= i < n - 1 ensures RowHolds(a, x, s, k, i) {
      CountTrueSnoc(a, x, i);
      CountTruePrefix(a, x, i + 1);
    }
    CountTrueSnoc(a, x, n - 1);
    assert x[..n] == x;
  }

  /** Counters allocated from base >= 1 are positive literals. */
  lemma CountersLiterals(x: seq<Lit>, base: int, k: nat)
    requires |x| >= 2 && k >= 1 && base >= 1 && NonZero(x)
    ensures Shape(x, Counters(base, |x| - 1, k), k) && Literals(x, Counters(base, |x| - 1, k))
  {
  }

  /** The intended value of variable v: a counter id decodes to its (input,
      bound) pair and means "at least bound + 1 of x_0, ..., x_input are
      true"; any other id keeps its value under a. */
  ghost function CounterValue(a: Assignment, x: seq<Lit>, base: int, k: nat, v: int): bool
    requires |x| >= 2
  {
    var w := |x| - 1;
    if base <= v < base + Stride(k, w) && Quot(v - base, w) < k && Rem(v - base, w) < w
    then CountTrue(a, x[..Rem(v - base, w) + 1]) >= Quot(v - base, w) + 1
    else a(v)
  }

  lemma CounterValueAt(a: Assignment, x: seq<Lit>, base: int, k: nat, i: nat, j: nat)
    requires |x| >= 2 && i < |x| - 1 && j < k
    ensures CounterValue(a, x, base, k, Counters(base, |x| - 1, k)[i][j]) == (CountTrue(a, x[..i + 1]) >= j + 1)
  {
    var w := |x| - 1;
    var v := Counters(base, w, k)[i][j];
    assert v - base == Stride(j, w) + i;
    QuotRemStride(j, i, w);
    StrideMono(j, k, w);
  }

  /** The counter values of the soundness proof: s[i][j] is set to "at least
      j + 1 of x_0, ..., x_i are true", and every id below base is left alone. */
  lemma CounterValues(a: Assignment, x: seq<Lit>, base: int, k: nat) returns (b: Assignment)
    requires |x| >= 2 && base >= 1 && LitsBelow(x, base)
    ensures Agree(a, b, base)
    ensures Counting(b, x, Counters(base, |x| - 1, k))
  {
    var w := |x| - 1;
    var ctr := Counters(base, w, k);
    b := v => CounterValue(a, x, base, k, v);
    assert Agree(a, b, base);
    forall i, j | 0 <= i < w && 0 <= j < k
      ensures LitValue(b, ctr[i][j]) <==> CountTrue(b, x[..i + 1]) >= j + 1
    {
      CounterValueAt(a, x, base, k, i, j);
      assert LitsBelow(x[..i + 1], base);
      AgreeCount(a, b, x[..i + 1], base);
    }
  }

  /** The encoding is exact: an assignment to the inputs extends to a model
      of the added clauses if and only if at most k inputs are true. This
      holds for every k >= 1, k >= n included. */
  lemma AddAtMostCorrect(s: Sink, x: seq<Lit>, k: nat, a: Assignment)
    requires |x| >= 2 && k >= 1 && s.next >= 1 && LitsBelow(x, s.next)
    ensures (exists b :: Agree(a, b, s.next) && Satisfies(b, AddAtMost(s, x, k).group))
        <==> CountTrue(a, x) <= k
  {
    var ctr := Counters(s.next, |x| - 1, k);
    var cs := AddAtMost(s, x, k).group;
    CountersLiterals(x, s.next, k);
    if CountTrue(a, x) <= k {
      var b := CounterValues(a, x, s.next, k);
      AgreeCount(a, b, x, s.next);
      SinzSound(b, x, ctr, k);
      SeqClausesMeaning(b, x, ctr, k);
      assert Agree(a, b, s.next) && Satisfies(b, cs);
    }
    if exists b :: Agree(a, b, s.next) && Satisfies(b, cs) {
      var b :| Agree(a, b, s.next) && Satisfies(b, cs);
      SeqClausesMeaning(b, x, ctr, k);
      SinzComplete(b, x, ctr, k);
      AgreeCount(a, b, x, s.next);
    }
  }

  /** A literal the encoding may use: the negation of an input, or a counter
      id in [lo, hi), either way round. */
  predicate SeqLit(l: Lit, x: seq<Lit>, lo: int, hi: int) {
    (exists i :: 0 <= i < |x| && l == -x[i]) || lo <= l < hi || lo <= -l < hi
  }

  /** Every clause has one to three literals, each of them a SeqLit. */
  predicate Shaped(cs: seq<Clause>, x: seq<Lit>, lo: int, hi: int) {
    forall t :: 0 <= t < |cs| ==> 1 <= |cs[t]| <= 3 && forall m :: 0 <= m < |cs[t]| ==> SeqLit(cs[t][m], x, lo, hi)
  }

  lemma ShapedAppend(c1: seq<Clause>, c2: seq<Clause>, x: seq<Lit>, lo: int, hi: int)
    requires Shaped(c1, x, lo, hi) && Shaped(c2, x, lo, hi)
    ensures Shaped(c1 + c2, x, lo, hi)
  {
    forall t | 0 <= t < |c1 + c2|
      ensures 1 <= |(c1 + c2)[t]| <= 3 && forall m :: 0 <= m < |(c1 + c2)[t]| ==> SeqLit((c1 + c2)[t][m], x, lo, hi)
    {
      if t < |c1| {
        assert (c1 + c2)[t] == c1[t];
      } else {
        assert (c1 + c2)[t] == c2[t - |c1|];
      }
    }
  }

  lemma {:induction false} ShapedFlatten(ss: seq<seq<Clause>>, x: seq<Lit>, lo: int, hi: int)
    requires forall i :: 0 <= i < |ss| ==> Shaped(ss[i], x, lo, hi)
    ensures Shaped(Flatten(ss), x, lo, hi)
    decreases |ss|
  {
    if |ss| > 0 {
      ShapedFlatten(ss[1..], x, lo, hi);
      assert Shaped(ss[0], x, lo, hi);
      ShapedAppend(ss[0], Flatten(ss[1..]), x, lo, hi);
    }
  }

  /** Every counter lies in [lo, hi). */
  predicate CountersIn(s: seq<seq<Lit>>, lo: int, hi: int) {
    forall i, j :: 0 <= i < |s| && 0 <= j < |s[i]| ==> lo <= s[i][j] < hi
  }

  lemma NegInput(x: seq<Lit>, i: nat, lo: int, hi: int)
    requires i < |x|
    ensures SeqLit(-x[i], x, lo, hi)
  {
    assert -x[i] == -x[i];
  }

  lemma RowShaped(x: seq<Lit>, s: seq<seq<Lit>>, k: nat, i: nat, lo: int, hi: int)
    requires Shape(x, s, k) && 1 <= i < |x| - 1 && CountersIn(s, lo, hi)
    ensures Shaped(Row(x, s, k, i), x, lo, hi)
  {
    NegInput(x, i, lo, hi);
    var ss := seq(k - 1, j requires 0 <= j < k - 1 => StepPair(x, s, i, j + 1));
    forall j | 0 <= j < k - 1 ensures Shaped(ss[j], x, lo, hi) {
      assert lo <= s[i - 1][j] < hi && lo <= s[i - 1][j + 1] < hi && lo <= s[i][j + 1] < hi;
    }
    ShapedFlatten(ss, x, lo, hi);
    var head: seq<Clause> := [[-x[i], s[i][0]], [-s[i - 1][0], s[i][0]]];
    var tail: seq<Clause> := [[-x[i], -s[i - 1][k - 1]]];
    assert lo <= s[i][0] < hi && lo <= s[i - 1][0] < hi && lo <= s[i - 1][k - 1] < hi;
    assert Shaped(head, x, lo, hi);
    assert Shaped(tail, x, lo, hi);
    ShapedAppend(head, Steps(x, s, k, i), x, lo, hi);
    ShapedAppend(head + Steps(x, s, k, i), tail, x, lo, hi);
  }

  /** The three leading parts of SeqClauses: first clause, top row, cutoff. */
  lemma FrontShaped(x: seq<Lit>, s: seq<seq<Lit>>, k: nat, lo: int, hi: int)
    requires Shape(x, s, k) && CountersIn(s, lo, hi)
    ensures Shaped([[-x[0], s[0][0]]] + TopRow(s, k) + [[-x[|x| - 1], -s[|x| - 2][k - 1]]], x, lo, hi)
  {
    var n := |x|;
    NegInput(x, 0, lo, hi);
    NegInput(x, n - 1, lo, hi);
    var first: seq<Clause> := [[-x[0], s[0][0]]];
    var cutoff: seq<Clause> := [[-x[n - 1], -s[n - 2][k - 1]]];
    assert lo <= s[0][0] < hi && lo <= s[n - 2][k - 1] < hi;
    assert Shaped(first, x, lo, hi);
    assert Shaped(cutoff, x, lo, hi);
    assert Shaped(TopRow(s, k), x, lo, hi) by {
      forall t | 0 <= t < |TopRow(s, k)| ensures lo <= -TopRow(s, k)[t][0] < hi {
        assert TopRow(s, k)[t] == [-s[0][t + 1]];
      }
    }
    ShapedAppend(first, TopRow(s, k), x, lo, hi);
    ShapedAppend(first + TopRow(s, k), cutoff, x, lo, hi);
  }

  lemma RowsShaped(x: seq<Lit>, s: seq<seq<Lit>>, k: nat, lo: int, hi: int)
    requires Shape(x, s, k) && CountersIn(s, lo, hi)
    ensures Shaped(Rows(x, s, k), x, lo, hi)
  {
    var ss := seq(|x| - 2, i requires 0 <= i < |x| - 2 => Row(x, s, k, i + 1));
    forall i | 0 <= i < |x| - 2 ensures Shaped(ss[i], x, lo, hi) {
      RowShaped(x, s, k, i + 1, lo, hi);
    }
    ShapedFlatten(ss, x, lo, hi);
  }

  lemma SeqClausesShaped(x: seq<Lit>, s: seq<seq<Lit>>, k: nat, lo: int, hi: int)
    requires Shape(x, s, k) && CountersIn(s, lo, hi)
    ensures Shaped(SeqClauses(x, s, k), x, lo, hi)
  {
    var front := [[-x[0], s[0][0]]] + TopRow(s, k) + [[-x[|x| - 1], -s[|x| - 2][k - 1]]];
    FrontShaped(x, s, k, lo, hi);
    RowsShaped(x, s, k, lo, hi);
    ShapedAppend(front, Rows(x, s, k), x, lo, hi);
  }

  /** Every counter lies between base and the next free id after allocation. */
  lemma CountersInRange(base: int, w: nat, k: nat, hi: int)
    requires hi == base + Stride(k, w)
    ensures CountersIn(Counters(base, w, k), base, hi)
  {
    var ctr := Counters(base, w, k);
    forall i, j | 0 <= i < w && 0 <= j < k ensures base <= ctr[i][j] < hi {
      StrideMono(j, k, w);
    }
  }

  /** With inputs below lo and counters in [lo, hi), all literals are below hi. */
  lemma ShapedBelow(cs: seq<Clause>, x: seq<Lit>, lo: int, hi: int)
    requires Shaped(cs, x, lo, hi) && lo >= 1 && lo <= hi && LitsBelow(x, lo)
    ensures ClausesBelow(cs, hi)
  {
    forall t, m | 0 <= t < |cs| && 0 <= m < |cs[t]|
      ensures cs[t][m] != 0 && Abs(cs[t][m]) < hi
    {
      assert SeqLit(cs[t][m], x, lo, hi);
    }
  }

  /** With inputs below the next free id, no clause of the sequential
      counter mentions an unallocated variable. */
  lemma AddAtMostAllocated(s: Sink, x: seq<Lit>, k: nat)
    requires |x| >= 2 && k >= 1
    ensures var r := AddAtMost(s, x, k);
            s.next >= 1 && LitsBelow(x, s.next) ==> ClausesBelow(r.group, r.sink.next)
  {
    var r := AddAtMost(s, x, k);
    if s.next >= 1 && LitsBelow(x, s.next) {
      StrideMono(0, k, |x| - 1);
      ShapedBelow(r.group, x, s.next, r.sink.next);
    }
  }
}
