/** The solver as an encoder sees it: it hands out fresh variable ids
    (`nextFreeVarId(true)`) and accepts clauses (`addClause`). */
module ClauseSink {
  import opened Cnf

  /** `next` is the id the next fresh variable receives; `clauses` is
      everything added so far, in order. */
  datatype Sink = Sink(next: int, clauses: seq<Clause>)

  /** What an encoder leaves behind: the updated sink, and the constraint
      group it returns to its caller (the clauses it added, in order). */
  datatype Encoded = Encoded(sink: Sink, group: seq<Clause>)

  datatype Option<T> = None | Some(value: T)

  /** The sink received exactly the returned group, and no variable id was
      given back. */
  predicate Appends(s: Sink, r: Encoded) {
    r.sink.clauses == s.clauses + r.group && s.next <= r.sink.next
  }

  /** The consecutive ids `lo, lo + 1, ..., lo + m - 1`. */
  function Range(lo: int, m: nat): (r: seq<Lit>)
    ensures |r| == m
    ensures forall i :: 0 <= i < m ==> r[i] == lo + i
  {
    seq(m, i requires 0 <= i < m => lo + i)
  }

  lemma RangeCons(lo: int, m: nat)
    requires m >= 1
    ensures Range(lo, m) == [lo] + Range(lo + 1, m - 1)
  {
  }

  /** Raising the bound keeps clauses within it. */
  lemma ClausesBelowMono(cs: seq<Clause>, b1: int, b2: int)
    requires ClausesBelow(cs, b1) && b1 <= b2
    ensures ClausesBelow(cs, b2)
  {
    forall i | 0 <= i < |cs| ensures LitsBelow(cs[i], b2) {
      assert LitsBelow(cs[i], b1);
    }
  }

  lemma ClausesBelowAppend(x: seq<Clause>, y: seq<Clause>, b: int)
    requires ClausesBelow(x, b) && ClausesBelow(y, b)
    ensures ClausesBelow(x + y, b)
  {
    forall i | 0 <= i < |x + y| ensures LitsBelow((x + y)[i], b) {
      if i < |x| {
        assert (x + y)[i] == x[i];
      } else {
        assert (x + y)[i] == y[i - |x|];
      }
    }
  }

  lemma RangeBelow(lo: int, m: nat)
    requires lo >= 1
    ensures LitsBelow(Range(lo, m), lo + m)
  {
  }

  /** The product `i * w`, built up by repeated addition as the encoders'
      index arithmetic walks it (group i starts at i * w, column j at j * w). */
  function Stride(i: nat, w: nat): nat {
    if i == 0 then 0 else Stride(i - 1, w) + w
  }

  lemma {:induction false} StrideIsProduct(i: nat, w: nat)
    ensures Stride(i, w) == i * w
  {
    if i > 0 {
      StrideIsProduct(i - 1, w);
      assert (i - 1) * w + w == i * w;
    }
  }

  lemma StrideShift(i: nat, w: nat)
    ensures Stride(i + 1, w) == Stride(i, w) + w
  {
  }

  /** Row i of a stride-w layout ends no later than row n starts. */
  lemma {:induction false} StrideMono(i: nat, n: nat, w: nat)
    requires i < n
    ensures Stride(i, w) + w <= Stride(n, w)
    decreases n
  {
    if i + 1 < n {
      StrideMono(i, n - 1, w);
    }
  }

  /** Division by repeated subtraction: the row of offset d in a stride-w layout. */
  function Quot(d: nat, w: nat): nat
    requires w >= 1
    decreases d
  {
    if d < w then 0 else 1 + Quot(d - w, w)
  }

  /** The position of offset d within its row. */
  function Rem(d: nat, w: nat): nat
    requires w >= 1
    decreases d
  {
    if d < w then d else Rem(d - w, w)
  }

  /** Offset j of row i decodes back to (i, j). */
  lemma {:induction false} QuotRemStride(i: nat, j: nat, w: nat)
    requires j < w
    ensures Quot(Stride(i, w) + j, w) == i && Rem(Stride(i, w) + j, w) == j
  {
    if i > 0 {
      QuotRemStride(i - 1, j, w);
      assert Stride(i, w) + j - w == Stride(i - 1, w) + j;
    }
  }

  /** A range splits into two consecutive ranges. */
  lemma RangeSplit(lo: int, m1: nat, m2: nat)
    ensures Range(lo, m1 + m2) == Range(lo, m1) + Range(lo + m1, m2)
  {
  }
}
