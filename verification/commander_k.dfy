/** The commander encoding generalised to "at most k" (Frisch and
    Giannaros): the literals are cut into groups of g as for at-most-one;
    each group gets k commanders, the group's members together with its
    negated commanders must have exactly k true literals (so the true
    commanders count the true members), the commanders of a group are
    ordered by chain clauses, and the whole commander vector is handed to
    another at-most-k encoder. */
module CommanderK {
  import opened Cnf
  import opened ClauseSink
  import opened Pairwise
  import opened Commander

  /** An encoder that only adds clauses over the literals it is given, as the
      binomial encoder does: literals and degree to clauses. */
  type ClauseEncoder = (seq<Lit>, int) -> seq<Clause>

  /** An encoder applied to a sink: from the next free id, the literals and
      the degree, the number of fresh ids it takes and the clauses it adds. */
  type SubEncoder = (int, seq<Lit>, int) -> (nat, seq<Clause>)

  /** The commander matrix c[i][j] for nb groups, one row per group in
      allocation order: group i owns the k consecutive ids from base + i * k
      (CommanderRowAt). */
  function CommanderRows(base: int, nb: nat, k: nat): (r: seq<seq<Lit>>)
    ensures |r| == nb
  {
    if nb == 0 then [] else CommanderRows(base, nb - 1, k) + [Range(base + Stride(nb - 1, k), k)]
  }

  /** Row i holds the ids base + i * k + j, j < k. */
  lemma {:induction false} CommanderRowAt(base: int, nb: nat, k: nat, i: nat)
    requires i < nb
    ensures CommanderRows(base, nb, k)[i] == Range(base + Stride(i, k), k)
    decreases nb
  {
    if i < nb - 1 {
      CommanderRowAt(base, nb - 1, k, i);
    }
  }

  /** Dropping the first group's row leaves the matrix that starts k ids later. */
  lemma {:induction false} CommanderRowsTail(base: int, nb: nat, k: nat)
    requires nb >= 1
    ensures CommanderRows(base, nb, k)[1..] == CommanderRows(base + k, nb - 1, k)
    decreases nb
  {
    if nb > 1 {
      CommanderRowsTail(base, nb - 1, k);
      var front := CommanderRows(base, nb - 1, k);
      var last := Range(base + Stride(nb - 1, k), k);
      assert (front + [last])[1..] == front[1..] + [last];
      StrideShift(nb - 2, k);
      assert base + Stride(nb - 1, k) == base + k + Stride(nb - 2, k);
    }
  }

  /** Read row by row, the commanders are the consecutive ids from base:
      the vector vecC the code builds is the flattened matrix. */
  lemma {:induction false} CommanderRowsFlatten(base: int, nb: nat, k: nat)
    ensures Flatten(CommanderRows(base, nb, k)) == Range(base, Stride(nb, k))
    decreases nb
  {
    if nb > 0 {
      var rows := CommanderRows(base, nb, k);
      CommanderRowsTail(base, nb, k);
      CommanderRowsFlatten(base + k, nb - 1, k);
      CommanderRowAt(base, nb, k, 0);
      RangeSplit(base, k, Stride(nb - 1, k));
      StrideShift(nb - 1, k);
    }
  }

  /** Allocates the k commanders of one group, pushing each onto vecC. */
  method AllocateRow(top: int, vecC: seq<Lit>, k: nat) returns (row: seq<Lit>, vecC': seq<Lit>, top': int)
    ensures row == Range(top, k)
    ensures vecC' == vecC + row
    ensures top' == top + k
  {
    row := [];
    vecC' := vecC;
    top' := top;
    var j := 0;
    while j < k
      invariant 0 <= j <= k
      invariant row == Range(top, j)
      invariant vecC' == vecC + row
      invariant top' == top + j
    {
      row := row + [top'];
      vecC' := vecC' + [top'];
      top' := top' + 1;
      j := j + 1;
    }
  }

  /** The commander allocation of the code: the groups before the last one,
      then the last one, each taking k fresh ids in order. */
  method AllocateCommanders(next: int, nb: nat, k: nat) returns (c: seq<seq<Lit>>, vecC: seq<Lit>, top: int)
    requires nb >= 1
    ensures c == CommanderRows(next, nb, k)
    ensures vecC == Range(next, Stride(nb, k))
    ensures top == next + Stride(nb, k)
  {
    c := [];
    vecC := [];
    top := next;
    var i := 0;
    while i < nb - 1
      invariant 0 <= i <= nb - 1
      invariant c == CommanderRows(next, i, k)
      invariant vecC == Range(next, Stride(i, k))
      invariant top == next + Stride(i, k)
    {
      var row;
      row, vecC, top := AllocateRow(top, vecC, k);
      RangeSplit(next, Stride(i, k), k);
      c := c + [row];
      i := i + 1;
    }
    var last;
    last, vecC, top := AllocateRow(top, vecC, k);
    RangeSplit(next, Stride(nb - 1, k), k);
    c := c + [last];
  }

  /** groupTab[i]: the members of group i followed by the negations of its
      commanders. */
  function GroupTabs(chunks: seq<seq<Lit>>, rows: seq<seq<Lit>>): (r: seq<seq<Lit>>)
    requires |chunks| == |rows|
    ensures |r| == |chunks|
    ensures forall i :: 0 <= i < |r| ==> r[i] == chunks[i] + Negate(rows[i])
  {
    seq(|chunks|, i requires 0 <= i < |chunks| => chunks[i] + Negate(rows[i]))
  }

  /** The chain clauses of one group: each commander implies the next. */
  function Chain(row: seq<Lit>): (r: seq<Clause>)
    ensures |r| == if |row| == 0 then 0 else |row| - 1
    ensures forall j :: 0 <= j < |r| ==> r[j] == [-row[j], row[j + 1]]
  {
    if |row| <= 1 then [] else seq(|row| - 1, j requires 0 <= j < |row| - 1 => [-row[j], row[j + 1]])
  }

  /** The true literals of a row form a suffix: once one is true, every
      later one is. */
  ghost predicate Monotone(a: Assignment, row: seq<Lit>) {
    forall j, j' :: 0 <= j <= j' < |row| && LitValue(a, row[j]) ==> LitValue(a, row[j'])
  }

  /** The chain clauses hold exactly when the row's true literals form a suffix. */
  lemma ChainSemantics(a: Assignment, row: seq<Lit>)
    requires NonZero(row)
    ensures Satisfies(a, Chain(row)) <==> Monotone(a, row)
  {
    var cs := Chain(row);
    forall j | 0 <= j < |cs| ensures ClauseSat(a, cs[j]) <==> (LitValue(a, row[j]) ==> LitValue(a, row[j + 1])) {
      ClauseSat2(a, -row[j], row[j + 1]);
      LitValueNegate(a, row[j]);
    }
    if Satisfies(a, cs) {
      forall j, j' | 0 <= j <= j' < |row| && LitValue(a, row[j]) ensures LitValue(a, row[j']) {
        ChainReaches(a, row, j, j');
      }
    }
  }

  lemma {:induction false} ChainReaches(a: Assignment, row: seq<Lit>, j: nat, j': nat)
    requires NonZero(row) && Satisfies(a, Chain(row))
    requires j <= j' < |row| && LitValue(a, row[j])
    ensures LitValue(a, row[j'])
    decreases j' - j
  {
    if j < j' {
      var cs := Chain(row);
      assert ClauseSat(a, cs[j]);
      ClauseSat2(a, -row[j], row[j + 1]);
      LitValueNegate(a, row[j]);
      ChainReaches(a, row, j + 1, j');
    }
  }

  /** The chain clauses of every group, group after group. */
  function Chains(rows: seq<seq<Lit>>): seq<Clause> {
    Flatten(seq(|rows|, i requires 0 <= i < |rows| => Chain(rows[i])))
  }

  /** The clauses of one encoder applied to each literal vector in turn. */
  function EncodeEach(enc: ClauseEncoder, tabs: seq<seq<Lit>>, k: int): (r: seq<Clause>)
  {
    Flatten(seq(|tabs|, i requires 0 <= i < |tabs| => enc(tabs[i], k)))
  }

  /** The private at-most-k helper with group size g. A single group is
      encoded by forbidding every (k+1)-subset. Otherwise nbGroup * k
      commanders are allocated, and the clauses go to the sink in the code's
      order: `atMost` on every group vector, `atLeast` on every group vector,
      the chain clauses of every group, and finally whatever `outer` adds for
      at most k of the commander vector. */
  function AddAtMostK(s: Sink, lits: seq<Lit>, k: nat, g: nat,
                      atMost: ClauseEncoder, atLeast: ClauseEncoder, outer: SubEncoder): (r: Encoded)
    requires g >= 1 && |lits| >= 1
    ensures Appends(s, r)
    ensures NbGroup(|lits|, g) == 1 ==> r.sink.next == s.next && r.group == ForbidSubsets(lits, k + 1)
    ensures NbGroup(|lits|, g) != 1 ==> r.sink.next >= s.next + Stride(NbGroup(|lits|, g), k)
  {
    if NbGroup(|lits|, g) == 1 then
      var cs := ForbidSubsets(lits, k + 1);
      Encoded(Sink(s.next, s.clauses + cs), cs)
    else
      var chunks := Chunks(lits, g);
      var nb := |chunks|;
      var rows := CommanderRows(s.next, nb, k);
      var top := s.next + Stride(nb, k);
      var tabs := GroupTabs(chunks, rows);
      var local := EncodeEach(atMost, tabs, k) + EncodeEach(atLeast, tabs, k) + Chains(rows);
      var sub := outer(top, Range(s.next, Stride(nb, k)), k);
      Encoded(Sink(top + sub.0, s.clauses + local + sub.1), local + sub.1)
  }

  /** The parts of an encoding with more than one group, named once: the
      groups, the commander matrix, the group vectors and the first id after
      the commanders; the sink receives the local clauses and then the outer
      encoder's. */
  lemma AtMostKUnfold(s: Sink, lits: seq<Lit>, k: nat, g: nat,
                      atMost: ClauseEncoder, atLeast: ClauseEncoder, outer: SubEncoder)
    returns (chunks: seq<seq<Lit>>, rows: seq<seq<Lit>>, tabs: seq<seq<Lit>>, top: int)
    requires g >= 1 && |lits| >= 1 && NbGroup(|lits|, g) != 1
    ensures chunks == Chunks(lits, g) && |chunks| >= 2
    ensures rows == CommanderRows(s.next, |chunks|, k) && tabs == GroupTabs(chunks, rows)
    ensures top == s.next + Stride(|chunks|, k)
    ensures var r := AddAtMostK(s, lits, k, g, atMost, atLeast, outer);
            var sub := outer(top, Range(s.next, Stride(|chunks|, k)), k);
            r.group == EncodeEach(atMost, tabs, k) + EncodeEach(atLeast, tabs, k) + Chains(rows) + sub.1
            && r.sink.next == top + sub.0
  {
    NbGroupFacts(|lits|, g);
    NbGroupFacts(|lits| - g, g);
    chunks := Chunks(lits, g);
    rows := CommanderRows(s.next, |chunks|, k);
    tabs := GroupTabs(chunks, rows);
    top := s.next + Stride(|chunks|, k);
  }

  /** With more than one group the helper allocates exactly k commanders
      per group, the last (possibly smaller) group included: nbGroup * k
      ids, s.next onwards, which are also the vector handed to the outer
      encoder. */
  lemma AtMostKCommanders(s: Sink, lits: seq<Lit>, k: nat, g: nat,
                          atMost: ClauseEncoder, atLeast: ClauseEncoder, outer: SubEncoder)
    requires g >= 1 && |lits| >= 1 && NbGroup(|lits|, g) != 1
    ensures var nb := NbGroup(|lits|, g);
            var vecC := Range(s.next, nb * k);
            var r := AddAtMostK(s, lits, k, g, atMost, atLeast, outer);
            Flatten(CommanderRows(s.next, nb, k)) == vecC
            && r.sink.next == s.next + nb * k + outer(s.next + nb * k, vecC, k).0
  {
    var chunks, rows, tabs, top := AtMostKUnfold(s, lits, k, g, atMost, atLeast, outer);
    CommanderRowsFlatten(s.next, |chunks|, k);
    StrideIsProduct(|chunks|, k);
  }

  /** Group vector i, as the code fills it: the literals from i * g on (g of
      them, or what is left for the last group), then the negations of
      c[i][0], ..., c[i][k-1], which are the ids s.next + i * k + j. */
  lemma GroupTabLayout(s: Sink, lits: seq<Lit>, k: nat, g: nat, i: nat)
    requires g >= 1 && |lits| >= 1 && i < NbGroup(|lits|, g)
    ensures var tab := GroupTabs(Chunks(lits, g), CommanderRows(s.next, NbGroup(|lits|, g), k))[i];
            var size := GroupSizeAt(|lits|, g, i);
            |tab| == size + k && 1 <= size <= g && i * g + size <= |lits|
            && (forall j :: 0 <= j < size ==> tab[j] == lits[i * g + j])
            && (forall j :: size <= j < size + k ==> tab[j] == -(s.next + i * k + (j - size)))
  {
    ChunksLayout(lits, g, i);
    CommanderRowAt(s.next, NbGroup(|lits|, g), k, i);
    StrideIsProduct(i, g);
    StrideIsProduct(i, k);
  }

  /** k - 1 chain clauses per group when k >= 1: nbGroup * (k - 1) in all. */
  lemma {:induction false} ChainsCount(rows: seq<seq<Lit>>, k: nat)
    requires k >= 1 && forall i :: 0 <= i < |rows| ==> |rows[i]| == k
    ensures |Chains(rows)| == |rows| * (k - 1)
  {
    var ss := seq(|rows|, i requires 0 <= i < |rows| => Chain(rows[i]));
    FlattenUniformLength(ss, k - 1);
  }

  // What the helper takes for granted of the encoders it calls: each is
  // exact for its own constraint, and the clause encoders keep any bound on
  // variable ids that their literals keep.

  ghost predicate ExactAtMost(enc: ClauseEncoder) {
    forall a: Assignment, v: seq<Lit>, d: int ::
      NonZero(v) ==> (Satisfies(a, enc(v, d)) <==> CountTrue(a, v) <= d)
  }

  ghost predicate ExactAtLeast(enc: ClauseEncoder) {
    forall a: Assignment, v: seq<Lit>, d: int ::
      NonZero(v) ==> (Satisfies(a, enc(v, d)) <==> CountTrue(a, v) >= d)
  }

  ghost predicate Local(enc: ClauseEncoder) {
    forall v: seq<Lit>, d: int, bound: int ::
      LitsBelow(v, bound) ==> ClausesBelow(enc(v, d), bound)
  }

  /** Any assignment with at most d true literals of v extends, above the
      next free id, to a model of the outer encoder's clauses. */
  ghost predicate SubSound(outer: SubEncoder) {
    forall next: int, v: seq<Lit>, d: int, a: Assignment :: SubSoundAt(outer, next, v, d, a)
  }

  ghost predicate SubSoundAt(outer: SubEncoder, next: int, v: seq<Lit>, d: int, a: Assignment) {
    next >= 1 && LitsBelow(v, next) && CountTrue(a, v) <= d ==>
      exists b :: Agree(a, b, next) && Satisfies(b, outer(next, v, d).1)
  }

  /** Every model of the outer encoder's clauses has at most d true literals of v. */
  ghost predicate SubComplete(outer: SubEncoder) {
    forall next: int, v: seq<Lit>, d: int, b: Assignment :: SubCompleteAt(outer, next, v, d, b)
  }

  ghost predicate SubCompleteAt(outer: SubEncoder, next: int, v: seq<Lit>, d: int, b: Assignment) {
    next >= 1 && LitsBelow(v, next) && Satisfies(b, outer(next, v, d).1) ==> CountTrue(b, v) <= d
  }

  /** Given a vector below `next`, the outer encoder mentions no variable
      at or above `next` plus the fresh ids it reports taking. */
  ghost predicate SubLocal(outer: SubEncoder) {
    forall next: int, v: seq<Lit>, d: int :: SubLocalAt(outer, next, v, d)
  }

  ghost predicate SubLocalAt(outer: SubEncoder, next: int, v: seq<Lit>, d: int) {
    LitsBelow(v, next) ==> ClausesBelow(outer(next, v, d).1, next + outer(next, v, d).0)
  }

  /** A row of literals whose true ones are exactly its last c has c true literals. */
  lemma {:induction false} SuffixCount(a: Assignment, row: seq<Lit>, c: nat)
    requires c <= |row|
    requires forall j :: 0 <= j < |row| ==> LitValue(a, row[j]) == (j >= |row| - c)
    ensures CountTrue(a, row) == c
    decreases |row|
  {
    if |row| > 0 {
      var c' := if c == |row| then c - 1 else c;
      forall j | 0 <= j < |row| - 1 ensures LitValue(a, row[1..][j]) == (j >= |row[1..]| - c') {
        assert row[1..][j] == row[j + 1];
      }
      SuffixCount(a, row[1..], c');
    }
  }

  /** The commander values of the soundness proof: in group i, the last
      (number of true members) commanders are true; every id below base is
      left alone. */
  lemma CommanderValues(a: Assignment, chunks: seq<seq<Lit>>, base: int, k: nat) returns (b: Assignment)
    ensures Agree(a, b, base)
    ensures var rows := CommanderRows(base, |chunks|, k);
            forall i, j :: 0 <= i < |chunks| && 0 <= j < |rows[i]| ==>
              b(rows[i][j]) == (j >= k - CountTrue(a, chunks[i]))
  {
    var rows := CommanderRows(base, |chunks|, k);
    var top := base + Stride(|chunks|, k);
    b := v => if k >= 1 && base <= v < top && Quot(v - base, k) < |chunks|
              then Rem(v - base, k) >= k - CountTrue(a, chunks[Quot(v - base, k)])
              else a(v);
    forall i, j | 0 <= i < |chunks| && 0 <= j < |rows[i]|
      ensures b(rows[i][j]) == (j >= k - CountTrue(a, chunks[i]))
    {
      CommanderRowAt(base, |chunks|, k, i);
      assert rows[i][j] == base + Stride(i, k) + j;
      QuotRemStride(i, j, k);
      StrideMono(i, |chunks|, k);
    }
  }

  /** With inputs below the first commander, no group vector mentions a
      variable at or above the id after the last commander. */
  lemma TabsBelow(chunks: seq<seq<Lit>>, base: int, k: nat)
    requires base >= 1 && LitsBelow(Flatten(chunks), base)
    ensures forall i :: 0 <= i < |chunks| ==>
              LitsBelow(GroupTabs(chunks, CommanderRows(base, |chunks|, k))[i], base + Stride(|chunks|, k))
  {
    var rows := CommanderRows(base, |chunks|, k);
    var tabs := GroupTabs(chunks, rows);
    var top := base + Stride(|chunks|, k);
    FlattenLitsBelow(chunks, base);
    forall i, j | 0 <= i < |chunks| && 0 <= j < |tabs[i]| ensures tabs[i][j] != 0 && Abs(tabs[i][j]) < top {
      CommanderRowAt(base, |chunks|, k, i);
      StrideMono(i, |chunks|, k);
      if j >= |chunks[i]| {
        assert tabs[i][j] == -rows[i][j - |chunks[i]|];
      } else {
        assert LitsBelow(chunks[i], base);
        assert tabs[i][j] == chunks[i][j];
      }
    }
  }

  /** No chain clause mentions a variable at or above the id after the last
      commander. */
  lemma ChainsBelow(base: int, nb: nat, k: nat)
    requires base >= 1
    ensures ClausesBelow(Chains(CommanderRows(base, nb, k)), base + Stride(nb, k))
  {
    var rows := CommanderRows(base, nb, k);
    var top := base + Stride(nb, k);
    var ss := seq(nb, i requires 0 <= i < nb => Chain(rows[i]));
    forall i | 0 <= i < nb ensures ClausesBelow(ss[i], top) {
      var lo := base + Stride(i, k);
      CommanderRowAt(base, nb, k, i);
      StrideMono(i, nb, k);
      RangeBelow(lo, k);
      ChainBelow(rows[i], lo + k, top);
    }
    FlattenBelow(ss, top);
  }

  /** No clause of the helper's mentions a variable it has not allocated:
      every literal is an input or one of the ids below the sink's new next
      free id. */
  lemma AtMostKAllocated(s: Sink, lits: seq<Lit>, k: nat, g: nat,
                         atMost: ClauseEncoder, atLeast: ClauseEncoder, outer: SubEncoder)
    requires g >= 1 && |lits| >= 1 && s.next >= 1 && LitsBelow(lits, s.next)
    requires Local(atMost) && Local(atLeast) && SubLocal(outer)
    ensures var r := AddAtMostK(s, lits, k, g, atMost, atLeast, outer);
            ClausesBelow(r.group, r.sink.next)
  {
    if NbGroup(|lits|, g) == 1 {
      ForbidSubsetsBelow(lits, k + 1, s.next);
    } else {
      var chunks, rows, tabs, top := AtMostKUnfold(s, lits, k, g, atMost, atLeast, outer);
      ChunksFlatten(lits, g);
      TabsBelow(chunks, s.next, k);
      var encoded := EncodeEach(atMost, tabs, k) + EncodeEach(atLeast, tabs, k);
      EncodeEachBelow(atMost, tabs, k, top);
      EncodeEachBelow(atLeast, tabs, k, top);
      ClausesBelowAppend(EncodeEach(atMost, tabs, k), EncodeEach(atLeast, tabs, k), top);
      ChainsBelow(s.next, |chunks|, k);
      ClausesBelowAppend(encoded, Chains(rows), top);
      var v := Range(s.next, Stride(|chunks|, k));
      RangeBelow(s.next, Stride(|chunks|, k));
      assert SubLocalAt(outer, top, v, k);
      var sub := outer(top, v, k);
      ClausesBelowMono(encoded + Chains(rows), top, top + sub.0);
      ClausesBelowAppend(encoded + Chains(rows), sub.1, top + sub.0);
    }
  }

  /** A chain mentions only the row's own variables. */
  lemma ChainBelow(row: seq<Lit>, bound: int, top: int)
    requires LitsBelow(row, bound) && bound <= top
    ensures ClausesBelow(Chain(row), top)
  {
    var cs := Chain(row);
    forall t | 0 <= t < |cs| ensures LitsBelow(cs[t], top) {
      assert cs[t] == [-row[t], row[t + 1]];
    }
  }

  /** One group under the soundness values: its vector has exactly k true
      literals, its chain holds, and it has as many true commanders as true
      members. */
  lemma GroupWitness(a: Assignment, chunk: seq<Lit>, row: seq<Lit>, k: nat)
    requires NonZero(chunk) && |row| == k && CountTrue(a, chunk) <= k
    requires forall j :: 0 <= j < |row| ==> row[j] >= 1 && a(row[j]) == (j >= k - CountTrue(a, chunk))
    ensures CountTrue(a, row) == CountTrue(a, chunk)
    ensures CountTrue(a, chunk + Negate(row)) == k
    ensures Satisfies(a, Chain(row))
  {
    SuffixCount(a, row, CountTrue(a, chunk));
    assert NonZero(row);
    CountTrueNegate(a, row);
    CountTrueAppend(a, chunk, Negate(row));
    ChainSemantics(a, row);
  }

  /** An encoder's clauses on every vector hold when each vector's own do. */
  lemma EncodeEachSatisfied(a: Assignment, enc: ClauseEncoder, tabs: seq<seq<Lit>>, k: int)
    ensures Satisfies(a, EncodeEach(enc, tabs, k)) <==> forall i :: 0 <= i < |tabs| ==> Satisfies(a, enc(tabs[i], k))
  {
    var ss := seq(|tabs|, i requires 0 <= i < |tabs| => enc(tabs[i], k));
    SatisfiesFlatten(a, ss);
    assert forall i :: 0 <= i < |tabs| ==> ss[i] == enc(tabs[i], k);
  }

  lemma EncodeEachBelow(enc: ClauseEncoder, tabs: seq<seq<Lit>>, k: int, bound: int)
    requires Local(enc) && forall i :: 0 <= i < |tabs| ==> LitsBelow(tabs[i], bound)
    ensures ClausesBelow(EncodeEach(enc, tabs, k), bound)
  {
    var ss := seq(|tabs|, i requires 0 <= i < |tabs| => enc(tabs[i], k));
    FlattenBelow(ss, bound);
  }

  lemma ChainsSatisfied(a: Assignment, rows: seq<seq<Lit>>)
    requires forall i :: 0 <= i < |rows| ==> Satisfies(a, Chain(rows[i]))
    ensures Satisfies(a, Chains(rows))
  {
    var ss := seq(|rows|, i requires 0 <= i < |rows| => Chain(rows[i]));
    SatisfiesFlatten(a, ss);
  }

  /** The level part of soundness: when at most k inputs are true, the
      commander values satisfy every local clause, agree with `a` on the
      inputs, and make as many commanders true as inputs. */
  lemma LocalSound(a: Assignment, chunks: seq<seq<Lit>>, base: int, k: nat, atMost: ClauseEncoder, atLeast: ClauseEncoder)
    returns (a1: Assignment)
    requires base >= 1 && LitsBelow(Flatten(chunks), base) && CountTrue(a, Flatten(chunks)) <= k
    requires ExactAtMost(atMost) && ExactAtLeast(atLeast)
    ensures Agree(a, a1, base)
    ensures var rows := CommanderRows(base, |chunks|, k);
            var tabs := GroupTabs(chunks, rows);
            Satisfies(a1, EncodeEach(atMost, tabs, k) + EncodeEach(atLeast, tabs, k) + Chains(rows))
            && CountTrue(a1, Flatten(rows)) == CountTrue(a, Flatten(chunks))
  {
    var nb := |chunks|;
    var rows := CommanderRows(base, nb, k);
    var tabs := GroupTabs(chunks, rows);
    FlattenLitsBelow(chunks, base);
    a1 := CommanderValues(a, chunks, base, k);
    CountTrueFlatten(a, chunks);
    forall i | 0 <= i < nb
      ensures CountTrue(a1, rows[i]) == CountTrue(a, chunks[i])
      ensures Satisfies(a1, atMost(tabs[i], k)) && Satisfies(a1, atLeast(tabs[i], k))
      ensures Satisfies(a1, Chain(rows[i]))
    {
      assert LitsBelow(chunks[i], base);
      AgreeCount(a, a1, chunks[i], base);
      SumCountsBound(a, chunks, i);
      CommanderRowAt(base, nb, k, i);
      GroupWitness(a1, chunks[i], rows[i], k);
      assert NonZero(tabs[i]);
    }
    EncodeEachSatisfied(a1, atMost, tabs, k);
    EncodeEachSatisfied(a1, atLeast, tabs, k);
    ChainsSatisfied(a1, rows);
    SatisfiesAppend(a1, EncodeEach(atMost, tabs, k), EncodeEach(atLeast, tabs, k));
    SatisfiesAppend(a1, EncodeEach(atMost, tabs, k) + EncodeEach(atLeast, tabs, k), Chains(rows));
    CountTrueFlatten(a1, rows);
    SumCountsPointwise(a1, rows, a, chunks);
  }

  /** Soundness: when at most k inputs are true, the commanders and the
      outer encoder's variables can be given values that satisfy every
      clause the helper adds, without touching any input variable. */
  lemma AtMostKSound(s: Sink, lits: seq<Lit>, k: nat, g: nat,
                     atMost: ClauseEncoder, atLeast: ClauseEncoder, outer: SubEncoder, a: Assignment)
    returns (b: Assignment)
    requires g >= 1 && |lits| >= 1 && s.next >= 1 && LitsBelow(lits, s.next)
    requires ExactAtMost(atMost) && ExactAtLeast(atLeast) && Local(atMost) && Local(atLeast) && SubSound(outer)
    requires CountTrue(a, lits) <= k
    ensures Agree(a, b, s.next)
    ensures Satisfies(b, AddAtMostK(s, lits, k, g, atMost, atLeast, outer).group)
  {
    if NbGroup(|lits|, g) == 1 {
      ForbidSubsetsSemantics(a, lits, k);
      b := a;
    } else {
      var base := s.next;
      var chunks, rows, tabs, top := AtMostKUnfold(s, lits, k, g, atMost, atLeast, outer);
      var nb := |chunks|;
      var vecC := Range(base, Stride(nb, k));
      var local := EncodeEach(atMost, tabs, k) + EncodeEach(atLeast, tabs, k) + Chains(rows);
      ChunksFlatten(lits, g);
      var a1 := LocalSound(a, chunks, base, k, atMost, atLeast);
      CommanderRowsFlatten(base, nb, k);
      RangeBelow(base, Stride(nb, k));
      assert CountTrue(a1, vecC) <= k;
      assert SubSoundAt(outer, top, vecC, k, a1);
      b :| Agree(a1, b, top) && Satisfies(b, outer(top, vecC, k).1);
      TabsBelow(chunks, base, k);
      EncodeEachBelow(atMost, tabs, k, top);
      EncodeEachBelow(atLeast, tabs, k, top);
      ChainsBelow(base, nb, k);
      ClausesBelowAppend(EncodeEach(atMost, tabs, k), EncodeEach(atLeast, tabs, k), top);
      ClausesBelowAppend(EncodeEach(atMost, tabs, k) + EncodeEach(atLeast, tabs, k), Chains(rows), top);
      AgreeSatisfies(a1, b, local, top);
      SatisfiesAppend(b, local, outer(top, vecC, k).1);
      AgreeTrans(a, a1, b, base, top);
    }
  }

  /** In a model of a group vector's "at most k" and "at least k", the group
      has as many true members as true commanders. */
  lemma GroupCounts(b: Assignment, chunk: seq<Lit>, row: seq<Lit>, k: nat, atMost: ClauseEncoder, atLeast: ClauseEncoder)
    requires ExactAtMost(atMost) && ExactAtLeast(atLeast)
    requires NonZero(chunk) && NonZero(row) && |row| == k
    requires Satisfies(b, atMost(chunk + Negate(row), k)) && Satisfies(b, atLeast(chunk + Negate(row), k))
    ensures CountTrue(b, chunk) == CountTrue(b, row)
  {
    assert NonZero(chunk + Negate(row));
    CountTrueNegate(b, row);
    CountTrueAppend(b, chunk, Negate(row));
  }

  /** The level part of completeness: in a model of the local clauses the
      inputs have as many true literals as the commander vector. */
  lemma LocalComplete(b: Assignment, chunks: seq<seq<Lit>>, base: int, k: nat, atMost: ClauseEncoder, atLeast: ClauseEncoder)
    requires base >= 1 && NonZero(Flatten(chunks))
    requires ExactAtMost(atMost) && ExactAtLeast(atLeast)
    requires var tabs := GroupTabs(chunks, CommanderRows(base, |chunks|, k));
             Satisfies(b, EncodeEach(atMost, tabs, k)) && Satisfies(b, EncodeEach(atLeast, tabs, k))
    ensures CountTrue(b, Flatten(chunks)) == CountTrue(b, Flatten(CommanderRows(base, |chunks|, k)))
  {
    var nb := |chunks|;
    var rows := CommanderRows(base, nb, k);
    var tabs := GroupTabs(chunks, rows);
    EncodeEachSatisfied(b, atMost, tabs, k);
    EncodeEachSatisfied(b, atLeast, tabs, k);
    FlattenNonZero(chunks);
    forall i | 0 <= i < nb ensures CountTrue(b, chunks[i]) == CountTrue(b, rows[i]) {
      CommanderRowAt(base, nb, k, i);
      GroupCounts(b, chunks[i], rows[i], k, atMost, atLeast);
    }
    SumCountsPointwise(b, chunks, b, rows);
    CountTrueFlatten(b, chunks);
    CountTrueFlatten(b, rows);
  }

  /** Completeness: in any model of the clauses the helper adds, at most k
      inputs are true. The group vectors make each group's true commanders
      as many as its true members, so the inputs have as many true literals
      as the commander vector, which the outer encoder bounds by k. */
  lemma AtMostKComplete(s: Sink, lits: seq<Lit>, k: nat, g: nat,
                        atMost: ClauseEncoder, atLeast: ClauseEncoder, outer: SubEncoder, b: Assignment)
    requires g >= 1 && |lits| >= 1 && s.next >= 1 && LitsBelow(lits, s.next)
    requires ExactAtMost(atMost) && ExactAtLeast(atLeast) && SubComplete(outer)
    requires Satisfies(b, AddAtMostK(s, lits, k, g, atMost, atLeast, outer).group)
    ensures CountTrue(b, lits) <= k
  {
    if NbGroup(|lits|, g) == 1 {
      ForbidSubsetsSemantics(b, lits, k);
    } else {
      SeveralGroupsComplete(s, lits, k, g, atMost, atLeast, outer, b);
    }
  }

  /** The several-group case of AtMostKComplete. */
  lemma SeveralGroupsComplete(s: Sink, lits: seq<Lit>, k: nat, g: nat,
                              atMost: ClauseEncoder, atLeast: ClauseEncoder, outer: SubEncoder, b: Assignment)
    requires g >= 1 && |lits| >= 1 && s.next >= 1 && NbGroup(|lits|, g) != 1
    requires ExactAtMost(atMost) && ExactAtLeast(atLeast) && SubComplete(outer)
    requires Satisfies(b, AddAtMostK(s, lits, k, g, atMost, atLeast, outer).group)
    requires NonZero(lits)
    ensures CountTrue(b, lits) <= k
  {
    var base := s.next;
    var chunks, rows, tabs, top := AtMostKModelParts(s, lits, k, g, atMost, atLeast, outer, b);
    var nb := |chunks|;
    var vecC := Range(base, Stride(nb, k));
    ChunksFlatten(lits, g);
    LocalComplete(b, chunks, base, k, atMost, atLeast);
    CommanderRowsFlatten(base, nb, k);
    RangeBelow(base, Stride(nb, k));
    assert SubCompleteAt(outer, top, vecC, k, b);
  }

  /** A model of a several-group encoding satisfies each part: the binomial
      at-most and at-least clauses of every tab, and the outer encoder's
      clauses on the commander vector. */
  lemma AtMostKModelParts(s: Sink, lits: seq<Lit>, k: nat, g: nat,
                          atMost: ClauseEncoder, atLeast: ClauseEncoder, outer: SubEncoder, b: Assignment)
    returns (chunks: seq<seq<Lit>>, rows: seq<seq<Lit>>, tabs: seq<seq<Lit>>, top: int)
    requires g >= 1 && |lits| >= 1 && NbGroup(|lits|, g) != 1
    requires Satisfies(b, AddAtMostK(s, lits, k, g, atMost, atLeast, outer).group)
    ensures chunks == Chunks(lits, g) && |chunks| >= 2
    ensures rows == CommanderRows(s.next, |chunks|, k) && tabs == GroupTabs(chunks, rows)
    ensures top == s.next + Stride(|chunks|, k)
    ensures Satisfies(b, EncodeEach(atMost, tabs, k)) && Satisfies(b, EncodeEach(atLeast, tabs, k))
    ensures Satisfies(b, outer(top, Range(s.next, Stride(|chunks|, k)), k).1)
  {
    chunks, rows, tabs, top := AtMostKUnfold(s, lits, k, g, atMost, atLeast, outer);
    var vecC := Range(s.next, Stride(|chunks|, k));
    var both := EncodeEach(atMost, tabs, k) + EncodeEach(atLeast, tabs, k);
    SatisfiesAppend(b, both + Chains(rows), outer(top, vecC, k).1);
    SatisfiesAppend(b, both, Chains(rows));
    SatisfiesAppend(b, EncodeEach(atMost, tabs, k), EncodeEach(atLeast, tabs, k));
  }

  /** The Frisch-Giannaros theorem for the helper as written: given exact
      encoders for the calls it makes, an assignment to the inputs extends
      to a model of the added clauses if and only if at most k inputs are true. */
  lemma AtMostKCorrect(s: Sink, lits: seq<Lit>, k: nat, g: nat,
                       atMost: ClauseEncoder, atLeast: ClauseEncoder, outer: SubEncoder, a: Assignment)
    requires g >= 1 && |lits| >= 1 && s.next >= 1 && LitsBelow(lits, s.next)
    requires ExactAtMost(atMost) && ExactAtLeast(atLeast) && Local(atMost) && Local(atLeast)
    requires SubSound(outer) && SubComplete(outer)
    ensures (exists b :: Agree(a, b, s.next) && Satisfies(b, AddAtMostK(s, lits, k, g, atMost, atLeast, outer).group))
        <==> CountTrue(a, lits) <= k
  {
    var r := AddAtMostK(s, lits, k, g, atMost, atLeast, outer);
    if CountTrue(a, lits) <= k {
      var b := AtMostKSound(s, lits, k, g, atMost, atLeast, outer, a);
    }
    if exists b :: Agree(a, b, s.next) && Satisfies(b, r.group) {
      var b :| Agree(a, b, s.next) && Satisfies(b, r.group);
      AtMostKComplete(s, lits, k, g, atMost, atLeast, outer, b);
      AgreeCount(a, b, lits, s.next);
    }
  }

  // A reference instance of the parameters, in the style of the binomial
  // encoding: at most d forbids every (d+1)-subset, and at least d forbids
  // every (n-d+1)-subset of the negated literals (at most n - d false).

  function BinomialAtMost(v: seq<Lit>, d: int): seq<Clause> {
    if d < 0 then [[]] else ForbidSubsets(v, d + 1)
  }

  function BinomialAtLeast(v: seq<Lit>, d: int): seq<Clause> {
    if d <= 0 then [] else if d > |v| then [[]] else ForbidSubsets(Negate(v), |v| - d + 1)
  }

  /** The outer encoder as a binomial at-most: no fresh ids. */
  function BinomialOuter(next: int, v: seq<Lit>, d: int): (nat, seq<Clause>) {
    (0, BinomialAtMost(v, d))
  }

  lemma EmptyClauseUnsat(a: Assignment)
    ensures !Satisfies(a, [[]])
  {
    assert !ClauseSat(a, [[]][0]);
  }

  lemma BinomialAtMostExact(a: Assignment, v: seq<Lit>, d: int)
    requires NonZero(v)
    ensures Satisfies(a, BinomialAtMost(v, d)) <==> CountTrue(a, v) <= d
  {
    if d < 0 {
      EmptyClauseUnsat(a);
    } else {
      ForbidSubsetsSemantics(a, v, d);
    }
  }

  lemma BinomialAtLeastExact(a: Assignment, v: seq<Lit>, d: int)
    requires NonZero(v)
    ensures Satisfies(a, BinomialAtLeast(v, d)) <==> CountTrue(a, v) >= d
  {
    if d > |v| {
      CountTrueAtMostLength(a, v);
      EmptyClauseUnsat(a);
    } else if d > 0 {
      var m: nat := |v| - d;
      assert BinomialAtLeast(v, d) == ForbidSubsets(Negate(v), m + 1);
      AtLeastByNegation(a, v, m);
    }
  }

  /** At most m of the negations of v are true exactly when at least
      |v| - m of v are. */
  lemma AtLeastByNegation(a: Assignment, v: seq<Lit>, m: nat)
    requires NonZero(v)
    ensures Satisfies(a, ForbidSubsets(Negate(v), m + 1)) <==> CountTrue(a, v) >= |v| - m
  {
    assert NonZero(Negate(v));
    ForbidSubsetsSemantics(a, Negate(v), m);
    CountTrueNegate(a, v);
  }

  lemma BinomialBelow(v: seq<Lit>, d: int, bound: int)
    requires LitsBelow(v, bound)
    ensures ClausesBelow(BinomialAtMost(v, d), bound) && ClausesBelow(BinomialAtLeast(v, d), bound)
  {
    if d >= 0 {
      ForbidSubsetsBelow(v, d + 1, bound);
    }
    if 0 < d <= |v| {
      assert LitsBelow(Negate(v), bound);
      ForbidSubsetsBelow(Negate(v), |v| - d + 1, bound);
    }
  }

  /** The hypotheses of AtMostKCorrect can all be met: the reference
      encoders are exact, local, and sound, complete and local as outer
      encoder. */
  lemma BinomialMeetsHypotheses()
    ensures ExactAtMost(BinomialAtMost) && ExactAtLeast(BinomialAtLeast)
    ensures Local(BinomialAtMost) && Local(BinomialAtLeast)
    ensures SubSound(BinomialOuter) && SubComplete(BinomialOuter) && SubLocal(BinomialOuter)
  {
    forall a: Assignment, v: seq<Lit>, d: int | NonZero(v)
      ensures Satisfies(a, BinomialAtMost(v, d)) <==> CountTrue(a, v) <= d
    {
      BinomialAtMostExact(a, v, d);
    }
    forall a: Assignment, v: seq<Lit>, d: int | NonZero(v)
      ensures Satisfies(a, BinomialAtLeast(v, d)) <==> CountTrue(a, v) >= d
    {
      BinomialAtLeastExact(a, v, d);
    }
    forall v: seq<Lit>, d: int, bound: int | LitsBelow(v, bound)
      ensures ClausesBelow(BinomialAtMost(v, d), bound) && ClausesBelow(BinomialAtLeast(v, d), bound)
    {
      BinomialBelow(v, d, bound);
    }
    var outer: SubEncoder := BinomialOuter;
    forall next: int, v: seq<Lit>, d: int
      ensures SubLocalAt(outer, next, v, d)
    {
      if LitsBelow(v, next) {
        BinomialBelow(v, d, next);
      }
    }
    forall next: int, v: seq<Lit>, d: int, a: Assignment
      ensures SubSoundAt(outer, next, v, d, a)
    {
      if next >= 1 && LitsBelow(v, next) && CountTrue(a, v) <= d {
        assert NonZero(v);
        BinomialAtMostExact(a, v, d);
        assert Agree(a, a, next) && Satisfies(a, outer(next, v, d).1);
      }
    }
    forall next: int, v: seq<Lit>, d: int, b: Assignment
      ensures SubCompleteAt(outer, next, v, d, b)
    {
      if next >= 1 && LitsBelow(v, next) && Satisfies(b, outer(next, v, d).1) {
        assert NonZero(v);
        BinomialAtMostExact(b, v, d);
      }
    }
  }

  /** With the reference encoders plugged in, the at-most-k commander
      encoding is exact, with no hypotheses left. */
  lemma AtMostKBinomialCorrect(s: Sink, lits: seq<Lit>, k: nat, g: nat, a: Assignment)
    requires g >= 1 && |lits| >= 1 && s.next >= 1 && LitsBelow(lits, s.next)
    ensures (exists b :: Agree(a, b, s.next)
               && Satisfies(b, AddAtMostK(s, lits, k, g, BinomialAtMost, BinomialAtLeast, BinomialOuter).group))
        <==> CountTrue(a, lits) <= k
  {
    BinomialMeetsHypotheses();
    AtMostKCorrect(s, lits, k, g, BinomialAtMost, BinomialAtLeast, BinomialOuter, a);
  }
}
