/** The commander encoding of "at most one of these literals is true"
    (Klieber and Kwon, 2007): the literals are split, in order, into groups
    of `g`; each group gets a fresh commander variable that is true exactly
    when some member is; and the commanders are constrained recursively. */
module Commander {
  import opened Cnf
  import opened ClauseSink
  import opened Pairwise

  /** The group size the public entry point always uses. */
  const DefaultGroupSize: nat := 3

  /** The number of groups of `g` needed for `n` literals. The code computes
      it as the ceiling of n / g over doubles; NbGroupIsCeiling shows this is
      that ceiling. */
  function NbGroup(n: nat, g: nat): nat
    requires g >= 1
    decreases n
  {
    if n == 0 then 0 else if n <= g then 1 else 1 + NbGroup(n - g, g)
  }

  /** NbGroup(n, g) is the least c with n <= c * g. */
  lemma {:induction false} NbGroupIsCeiling(n: nat, g: nat)
    requires g >= 1
    ensures NbGroup(n, g) * g >= n
    ensures n >= 1 ==> (NbGroup(n, g) - 1) * g < n
    decreases n
  {
    if n > g {
      var c := NbGroup(n - g, g);
      NbGroupIsCeiling(n - g, g);
      assert (c + 1) * g == c * g + g;
      assert (c + 1 - 1) * g == (c - 1) * g + g;
    }
  }

  /** The three cases of the group count that the recursion relies on. */
  lemma NbGroupFacts(n: nat, g: nat)
    requires g >= 1
    ensures n == 0 ==> NbGroup(n, g) == 0
    ensures 1 <= n <= g ==> NbGroup(n, g) == 1
    ensures n > g ==> NbGroup(n, g) == 1 + NbGroup(n - g, g)
  {
  }

  /** With more than one group and g >= 2 the commander vector is strictly
      shorter than the input, and has at least two elements. */
  lemma {:induction false} NbGroupShrinks(n: nat, g: nat)
    requires g >= 2 && n > g
    ensures 2 <= NbGroup(n, g) < n
    decreases n
  {
    NbGroupFacts(n, g);
    NbGroupFacts(n - g, g);
    if n - g > g {
      NbGroupShrinks(n - g, g);
    }
  }

  /** The literals cut, in order, into groups of `g`, the last one holding
      what is left over. */
  function Chunks(lits: seq<Lit>, g: nat): (r: seq<seq<Lit>>)
    requires g >= 1 && |lits| >= 1
    ensures |r| == NbGroup(|lits|, g)
    ensures forall i :: 0 <= i < |r| ==> 1 <= |r[i]| <= g
    ensures forall i :: 0 <= i < |r| - 1 ==> |r[i]| == g
    decreases |lits|
  {
    if |lits| <= g then [lits] else [lits[..g]] + Chunks(lits[g..], g)
  }

  /** The groups partition the input: read in order they give it back. */
  lemma {:induction false} ChunksFlatten(lits: seq<Lit>, g: nat)
    requires g >= 1 && |lits| >= 1
    ensures Flatten(Chunks(lits, g)) == lits
    decreases |lits|
  {
    if |lits| > g {
      var rest := Chunks(lits[g..], g);
      ChunksFlatten(lits[g..], g);
      assert ([lits[..g]] + rest)[1..] == rest;
      assert lits == lits[..g] + lits[g..];
    }
  }

  /** The size the code gives group i: g, except for the last group, which
      gets n - (nbGroup - 1) * g. */
  function GroupSizeAt(n: nat, g: nat, i: nat): int
    requires g >= 1
  {
    if i == NbGroup(n, g) - 1 then n - Stride(NbGroup(n, g) - 1, g) else g
  }

  /** Every group size lies in [1, g], and group i ends within the input. */
  lemma {:induction false} GroupSizeBounds(n: nat, g: nat, i: nat)
    requires g >= 1 && n >= 1 && i < NbGroup(n, g)
    ensures 1 <= GroupSizeAt(n, g, i) <= g
    ensures Stride(i, g) + GroupSizeAt(n, g, i) <= n
    decreases n
  {
    if n > g && i > 0 {
      GroupSizeBounds(n - g, g, i - 1);
      StrideShift(i - 1, g);
      StrideShift(NbGroup(n - g, g) - 1, g);
    }
  }

  /** Group i is the slice of GroupSizeAt(n, g, i) literals starting at
      i * g (Stride, see StrideIsProduct). */
  lemma ChunksLayout(lits: seq<Lit>, g: nat, i: nat)
    requires g >= 1 && |lits| >= 1 && i < NbGroup(|lits|, g)
    ensures 1 <= GroupSizeAt(|lits|, g, i) <= g
    ensures Stride(i, g) + GroupSizeAt(|lits|, g, i) <= |lits|
    ensures Chunks(lits, g)[i] == lits[Stride(i, g) .. Stride(i, g) + GroupSizeAt(|lits|, g, i)]
  {
    GroupSizeBounds(|lits|, g, i);
    ChunkSlice(lits, g, i, Stride(i, g), GroupSizeAt(|lits|, g, i));
  }

  lemma {:induction false} ChunkSlice(lits: seq<Lit>, g: nat, i: nat, start: nat, size: nat)
    requires g >= 1 && |lits| >= 1 && i < NbGroup(|lits|, g)
    requires start == Stride(i, g) && size == GroupSizeAt(|lits|, g, i) && start + size <= |lits|
    ensures Chunks(lits, g)[i] == lits[start .. start + size]
    decreases |lits|
  {
    if i == 0 {
      ChunksHead(lits, g);
    } else {
      var rest := ChunksStep(lits, g, i);
      var p := Stride(i - 1, g);
      GroupSizeBounds(|rest|, g, i - 1);
      ChunkSlice(rest, g, i - 1, p, size);
      SliceOfSuffix(lits, g, p, start, size);
    }
  }

  /** The first group is the first min(g, n) literals. */
  lemma ChunksHead(lits: seq<Lit>, g: nat)
    requires g >= 1 && |lits| >= 1
    ensures Chunks(lits, g)[0] == lits[0 .. GroupSizeAt(|lits|, g, 0)]
  {
    if |lits| > g {
      assert NbGroup(|lits| - g, g) >= 1;
    }
  }

  /** Group i of the input is group i - 1 of what follows the first group,
      with the same size, g literals further on. */
  lemma ChunksStep(lits: seq<Lit>, g: nat, i: nat) returns (rest: seq<Lit>)
    requires g >= 1 && |lits| >= 1 && 0 < i < NbGroup(|lits|, g)
    ensures |lits| > g && rest == lits[g..] && |rest| == |lits| - g && |rest| >= 1
    ensures i - 1 < NbGroup(|rest|, g)
    ensures Chunks(lits, g)[i] == Chunks(rest, g)[i - 1]
    ensures GroupSizeAt(|lits|, g, i) == GroupSizeAt(|rest|, g, i - 1)
    ensures Stride(i, g) == Stride(i - 1, g) + g
  {
    rest := lits[g..];
  }

  lemma SliceOfSuffix(lits: seq<Lit>, g: nat, p: nat, start: nat, size: nat)
    requires g <= |lits| && start == p + g && start + size <= |lits|
    ensures lits[g..][p .. p + size] == lits[start .. start + size]
  {
  }

  /** Every member of the group implies the commander c. */
  function MemberImplies(grp: seq<Lit>, c: Lit): (r: seq<Clause>)
    ensures |r| == |grp|
    ensures forall j :: 0 <= j < |grp| ==> r[j] == [c, -grp[j]]
  {
    seq(|grp|, j requires 0 <= j < |grp| => [c, -grp[j]])
  }

  /** The clauses of one group with commander c: at most one member is true
      (pairwise), each member implies c, and c implies some member. */
  function GroupClauses(grp: seq<Lit>, c: Lit): seq<Clause> {
    PairwiseClauses(grp) + MemberImplies(grp, c) + [[-c] + grp]
  }

  /** A group of `size` literals costs C(size, 2) + size + 1 clauses. */
  lemma GroupClausesCount(grp: seq<Lit>, c: Lit)
    ensures 2 * |GroupClauses(grp, c)| == |grp| * (|grp| - 1) + 2 * |grp| + 2
  {
    PairwiseCount(grp);
  }

  /** The clauses of one level, group after group, with consecutive commanders from c. */
  function LevelClauses(chunks: seq<seq<Lit>>, c: Lit): seq<Clause>
    decreases |chunks|
  {
    if |chunks| == 0 then [] else GroupClauses(chunks[0], c) + LevelClauses(chunks[1..], c + 1)
  }

  /** A level emits, for each group i in turn, exactly that group's clauses
      with commander c + i. */
  lemma {:induction false} LevelClausesIndexed(chunks: seq<seq<Lit>>, c: Lit)
    ensures LevelClauses(chunks, c)
         == Flatten(seq(|chunks|, i requires 0 <= i < |chunks| => GroupClauses(chunks[i], c + i)))
    decreases |chunks|
  {
    var ss := seq(|chunks|, i requires 0 <= i < |chunks| => GroupClauses(chunks[i], c + i));
    if |chunks| > 0 {
      LevelClausesIndexed(chunks[1..], c + 1);
      var tail := seq(|chunks| - 1, i requires 0 <= i < |chunks| - 1 => GroupClauses(chunks[1..][i], c + 1 + i));
      assert ss[1..] == tail;
    }
  }

  /** The number of fresh variables the recursion allocates on n literals:
      one commander per group at every level above the last. */
  function AuxCount(n: nat, g: nat): nat
    requires g >= 2 && n >= 1
    decreases n
  {
    if n <= g then 0
    else
      NbGroupShrinks(n, g);
      NbGroup(n, g) + AuxCount(NbGroup(n, g), g)
  }

  /** The private recursive at-most-one with group size g. A single group
      is encoded pairwise; otherwise one commander per group is allocated,
      the level's clauses are emitted, and the commanders are encoded the
      same way. The returned group holds this level's clauses followed by
      the recursive call's. */
  function AddAtMostOneRec(s: Sink, lits: seq<Lit>, g: nat): (r: Encoded)
    requires g >= 2 && |lits| >= 1
    ensures Appends(s, r)
    ensures r.sink.next == s.next + AuxCount(|lits|, g)
    ensures |lits| <= g ==> r.group == PairwiseClauses(lits)
    decreases |lits|
  {
    NbGroupFacts(|lits|, g);
    if NbGroup(|lits|, g) == 1 then
      var cs := PairwiseClauses(lits);
      Encoded(Sink(s.next, s.clauses + cs), cs)
    else
      NbGroupShrinks(|lits|, g);
      var chunks := Chunks(lits, g);
      var level := LevelClauses(chunks, s.next);
      var rec := AddAtMostOneRec(Sink(s.next + |chunks|, s.clauses + level), Range(s.next, |chunks|), g);
      Encoded(rec.sink, level + rec.group)
  }

  /** One level of the recursion on more than g literals: the groups, the
      level's clauses, the sink after them and the commander vector, with
      the level's clauses going to the sink before the commanders' own
      encoding. */
  lemma RecUnfold(s: Sink, lits: seq<Lit>, g: nat)
    returns (chunks: seq<seq<Lit>>, level: seq<Clause>, s1: Sink, cmd: seq<Lit>)
    requires g >= 2 && |lits| > g
    ensures 2 <= |chunks| < |lits| && chunks == Chunks(lits, g)
    ensures level == LevelClauses(chunks, s.next)
    ensures s1 == Sink(s.next + |chunks|, s.clauses + level) && cmd == Range(s.next, |chunks|)
    ensures AddAtMostOneRec(s, lits, g).group == level + AddAtMostOneRec(s1, cmd, g).group
    ensures AddAtMostOneRec(s, lits, g).sink == AddAtMostOneRec(s1, cmd, g).sink
    ensures AddAtMostOneRec(s, lits, g)
         == Encoded(AddAtMostOneRec(s1, cmd, g).sink, level + AddAtMostOneRec(s1, cmd, g).group)
  {
    NbGroupFacts(|lits|, g);
    NbGroupShrinks(|lits|, g);
    chunks := Chunks(lits, g);
    level := LevelClauses(chunks, s.next);
    s1 := Sink(s.next + |chunks|, s.clauses + level);
    cmd := Range(s.next, |chunks|);
    var rec := AddAtMostOneRec(s1, cmd, g);
    assert AddAtMostOneRec(s, lits, g) == Encoded(rec.sink, level + rec.group);
  }

  // The size of the encoding with groups of 3. The code's documentation
  // puts it at about n/2 fresh variables and 3.5 clauses per literal. The
  // exact bounds below add a small term per level of commanders, and there
  // are about log_3 n levels.

  /** The number of levels of commanders the recursion builds on n literals. */
  function Levels(n: nat, g: nat): nat
    requires g >= 2 && n >= 1
    decreases n
  {
    if n <= g then 0
    else
      NbGroupShrinks(n, g);
      1 + Levels(NbGroup(n, g), g)
  }

  function Pow3(e: nat): nat {
    if e == 0 then 1 else 3 * Pow3(e - 1)
  }

  /** More than three literals make m groups of three with 3m <= n + 2. */
  lemma GroupsOfThree(n: nat)
    requires n > 3
    ensures 2 <= NbGroup(n, 3) < n && 3 * NbGroup(n, 3) <= n + 2
  {
    NbGroupShrinks(n, 3);
    NbGroupIsCeiling(n, 3);
  }

  /** About n/2 fresh variables: twice the commanders allocated on n
      literals is at most n plus two per level, and never reaches 2n. */
  lemma {:induction false} AuxCountHalf(n: nat)
    requires n >= 1
    ensures 2 * AuxCount(n, 3) <= n + 2 * Levels(n, 3)
    ensures AuxCount(n, 3) < n
    decreases n
  {
    if n > 3 {
      GroupsOfThree(n);
      AuxCountHalf(NbGroup(n, 3));
    }
  }

  /** About log_3 n levels: 3 to the number of levels stays below 3n. */
  lemma {:induction false} LevelsLogarithmic(n: nat)
    requires n >= 1
    ensures Pow3(Levels(n, 3)) < 3 * n
    ensures n >= 2 ==> Pow3(Levels(n, 3)) <= 3 * n - 3
    decreases n
  {
    if n > 3 {
      GroupsOfThree(n);
      LevelsLogarithmic(NbGroup(n, 3));
    }
  }

  /** The documentation's figures are approximate: ten literals take six
      commanders over two levels, more than half of ten. */
  lemma TenLiteralsExample()
    ensures AuxCount(10, 3) == 6 && Levels(10, 3) == 2
  {
  }

  /** A group of one to three members costs at most 7/3 clauses per member. */
  lemma GroupClausesBound(grp: seq<Lit>, c: Lit)
    requires 1 <= |grp| <= 3
    ensures 3 * |GroupClauses(grp, c)| <= 7 * |grp|
  {
    GroupClausesCount(grp, c);
    var m := |grp|;
    assert m * (m - 1) == if m == 1 then 0 else if m == 2 then 2 else 6;
  }

  /** So does a level of such groups, per input literal. */
  lemma {:induction false} LevelClausesBound(chunks: seq<seq<Lit>>, c: Lit)
    requires forall i :: 0 <= i < |chunks| ==> 1 <= |chunks[i]| <= 3
    ensures 3 * |LevelClauses(chunks, c)| <= 7 * |Flatten(chunks)|
    decreases |chunks|
  {
    if |chunks| > 0 {
      GroupClausesBound(chunks[0], c);
      assert forall i :: 0 <= i < |chunks[1..]| ==> chunks[1..][i] == chunks[i + 1];
      LevelClausesBound(chunks[1..], c + 1);
    }
  }

  /** Every literal of every level, inputs and commanders alike, costs at
      most 7/3 clauses. */
  lemma {:induction false} AtMostOneClauseBound(s: Sink, lits: seq<Lit>)
    requires |lits| >= 1
    ensures 3 * |AddAtMostOneRec(s, lits, 3).group| <= 7 * (|lits| + AuxCount(|lits|, 3))
    decreases |lits|
  {
    if |lits| <= 3 {
      PairwiseCount(lits);
      var m := |lits|;
      assert m * (m - 1) == if m == 1 then 0 else if m == 2 then 2 else 6;
    } else {
      var chunks, level, s1, cmd := RecUnfold(s, lits, 3);
      ChunksFlatten(lits, 3);
      LevelClausesBound(chunks, s.next);
      AtMostOneClauseBound(s1, cmd);
      assert AuxCount(|lits|, 3) == |chunks| + AuxCount(|cmd|, 3);
    }
  }

  /** The public at-most-one: group size 3. An empty literal vector yields
      no clause (the code itself recurses without end there; see
      AddAtMostOneAsWritten). It allocates about n/2 fresh variables and
      about 3.5 clauses per literal, up to a term per level. */
  function AddAtMostOne(s: Sink, lits: seq<Lit>): (r: Encoded)
    ensures Appends(s, r)
    ensures |lits| <= 1 ==> r.group == [] && r.sink == s
    ensures 1 <= |lits| ==> r == AddAtMostOneRec(s, lits, DefaultGroupSize)
    ensures 1 <= |lits| ==> 2 * (r.sink.next - s.next) <= |lits| + 2 * Levels(|lits|, 3)
    ensures 1 <= |lits| ==> 6 * |r.group| <= 21 * |lits| + 14 * Levels(|lits|, 3)
  {
    if |lits| == 0 then Encoded(s, [])
    else
      AuxCountHalf(|lits|);
      AtMostOneClauseBound(s, lits);
      AddAtMostOneRec(s, lits, DefaultGroupSize)
  }

  /** The recursive method as the code is written, for any number of
      literals including none, run for at most `fuel` activations: None
      when the recursion has not returned within that many. One to g
      literals form a single group, which the first activation encodes
      pairwise without allocating anything. */
  function AddAtMostOneAsWritten(s: Sink, lits: seq<Lit>, g: nat, fuel: nat): (r: Option<Encoded>)
    requires g >= 2
    ensures r.Some? ==> Appends(s, r.value)
    ensures fuel >= 1 && 1 <= |lits| <= g ==>
              r == Some(Encoded(Sink(s.next, s.clauses + PairwiseClauses(lits)), PairwiseClauses(lits)))
    decreases fuel
  {
    NbGroupFacts(|lits|, g);
    if fuel == 0 then None
    else if NbGroup(|lits|, g) == 1 then
      var cs := PairwiseClauses(lits);
      Some(Encoded(Sink(s.next, s.clauses + cs), cs))
    else
      var groups := if |lits| == 0 then [] else Chunks(lits, g);
      var level := LevelClauses(groups, s.next);
      match AddAtMostOneAsWritten(Sink(s.next + |groups|, s.clauses + level), Range(s.next, |groups|), g, fuel - 1)
      case None => None
      case Some(rec) => Some(Encoded(rec.sink, level + rec.group))
  }

  /** On an empty vector the code computes zero groups, which is not one
      group, and recurses on the (empty) vector of zero commanders with an
      unchanged sink: it never returns, however deep the stack. */
  lemma {:induction false} EmptyInputNeverReturns(s: Sink, g: nat, fuel: nat)
    requires g >= 2
    ensures AddAtMostOneAsWritten(s, [], g, fuel) == None
    decreases fuel
  {
    NbGroupFacts(0, g);
    if fuel > 0 {
      assert LevelClauses([], s.next) == [];
      assert Sink(s.next + 0, s.clauses + []) == s;
      assert Range(s.next, 0) == [];
      EmptyInputNeverReturns(s, g, fuel - 1);
    }
  }

  /** On one literal or more the code returns within n activations, with
      the result of the recursive model. */
  lemma {:induction false} AsWrittenAgrees(s: Sink, lits: seq<Lit>, g: nat, fuel: nat)
    requires g >= 2 && |lits| >= 1 && fuel >= |lits|
    ensures AddAtMostOneAsWritten(s, lits, g, fuel) == Some(AddAtMostOneRec(s, lits, g))
    decreases |lits|
  {
    if |lits| <= g {
      AsWrittenBase(s, lits, g, fuel);
    } else {
      var s1, cmd := AsWrittenCase(s, lits, g, fuel);
      AsWrittenAgrees(s1, cmd, g, fuel - 1);
    }
  }

  /** The recursive case of AsWrittenAgrees: the call the code makes on the
      commanders, and why agreement there gives agreement here. */
  lemma AsWrittenCase(s: Sink, lits: seq<Lit>, g: nat, fuel: nat) returns (s1: Sink, cmd: seq<Lit>)
    requires g >= 2 && |lits| > g && fuel >= |lits|
    ensures 1 <= |cmd| < |lits| && |cmd| <= fuel - 1
    ensures AddAtMostOneAsWritten(s1, cmd, g, fuel - 1) == Some(AddAtMostOneRec(s1, cmd, g))
        ==> AddAtMostOneAsWritten(s, lits, g, fuel) == Some(AddAtMostOneRec(s, lits, g))
  {
    var chunks, level;
    chunks, level, s1, cmd := RecUnfold(s, lits, g);
    if AddAtMostOneAsWritten(s1, cmd, g, fuel - 1) == Some(AddAtMostOneRec(s1, cmd, g)) {
      var rec := AddAtMostOneRec(s1, cmd, g);
      AsWrittenStep(s, lits, g, fuel, chunks, level, s1, cmd, rec);
    }
  }

  /** One group: the code emits the pairwise clauses and returns. */
  lemma AsWrittenBase(s: Sink, lits: seq<Lit>, g: nat, fuel: nat)
    requires g >= 2 && 1 <= |lits| <= g && fuel >= 1
    ensures AddAtMostOneAsWritten(s, lits, g, fuel) == Some(AddAtMostOneRec(s, lits, g))
  {
    NbGroupFacts(|lits|, g);
  }

  /** One activation of the code on more than g literals: the level's
      clauses, then whatever the call on the commanders returns. */
  lemma AsWrittenStep(s: Sink, lits: seq<Lit>, g: nat, fuel: nat, chunks: seq<seq<Lit>>,
                      level: seq<Clause>, s1: Sink, cmd: seq<Lit>, rec: Encoded)
    requires g >= 2 && |lits| > g && fuel >= 1
    requires chunks == Chunks(lits, g) && level == LevelClauses(chunks, s.next)
    requires s1 == Sink(s.next + |chunks|, s.clauses + level) && cmd == Range(s.next, |chunks|)
    requires AddAtMostOneAsWritten(s1, cmd, g, fuel - 1) == Some(rec)
    ensures AddAtMostOneAsWritten(s, lits, g, fuel) == Some(Encoded(rec.sink, level + rec.group))
  {
    NbGroupFacts(|lits|, g);
    NbGroupFacts(|lits| - g, g);
  }

  /** With inputs below c, a level mentions no variable at or above the id
      after its last commander. */
  lemma {:induction false} LevelBelow(chunks: seq<seq<Lit>>, c: Lit)
    requires c >= 1
    requires forall i :: 0 <= i < |chunks| ==> LitsBelow(chunks[i], c)
    ensures ClausesBelow(LevelClauses(chunks, c), c + |chunks|)
    decreases |chunks|
  {
    if |chunks| > 0 {
      var grp := chunks[0];
      var bound := c + |chunks|;
      assert LitsBelow(grp, c);
      PairwiseBelow(grp, bound);
      var mi := MemberImplies(grp, c);
      var last: seq<Clause> := [[-c] + grp];
      assert ClausesBelow(mi, bound);
      assert ClausesBelow(last, bound) by {
        forall j | 0 <= j < |last[0]| ensures last[0][j] != 0 && Abs(last[0][j]) < bound {
          if j > 0 {
            assert last[0][j] == grp[j - 1];
          }
        }
      }
      ClausesBelowAppend(PairwiseClauses(grp), mi, bound);
      ClausesBelowAppend(PairwiseClauses(grp) + mi, last, bound);
      LevelBelow(chunks[1..], c + 1);
      ClausesBelowAppend(GroupClauses(grp, c), LevelClauses(chunks[1..], c + 1), bound);
    }
  }

  /** No emitted clause mentions a variable that has not been allocated:
      with inputs below the next free id, every variable is below the
      sink's new next free id. */
  lemma {:induction false} AtMostOneAllocated(s: Sink, lits: seq<Lit>, g: nat)
    requires g >= 2 && |lits| >= 1 && s.next >= 1 && LitsBelow(lits, s.next)
    ensures ClausesBelow(AddAtMostOneRec(s, lits, g).group, AddAtMostOneRec(s, lits, g).sink.next)
    decreases |lits|
  {
    if |lits| <= g {
      PairwiseBelow(lits, s.next);
    } else {
      var chunks, level, s1, cmd := RecUnfold(s, lits, g);
      var rec := AddAtMostOneRec(s1, cmd, g);
      ChunksFlatten(lits, g);
      FlattenLitsBelow(chunks, s.next);
      LevelBelow(chunks, s.next);
      RangeBelow(s.next, |chunks|);
      AtMostOneAllocated(s1, cmd, g);
      ClausesBelowMono(level, s1.next, rec.sink.next);
      ClausesBelowAppend(level, rec.group, rec.sink.next);
    }
  }

  /** In a model of a group's clauses, the group has at most one true
      member, and none unless the commander is true. */
  lemma GroupComplete(a: Assignment, grp: seq<Lit>, c: Lit)
    requires c >= 1 && NonZero(grp)
    requires Satisfies(a, GroupClauses(grp, c))
    ensures CountTrue(a, grp) <= (if a(c) then 1 else 0)
  {
    var mi := MemberImplies(grp, c);
    SatisfiesAppend(a, PairwiseClauses(grp) + mi, [[-c] + grp]);
    SatisfiesAppend(a, PairwiseClauses(grp), mi);
    PairwiseSemantics(a, grp);
    CountTruePositive(a, grp);
    if CountTrue(a, grp) >= 1 {
      var j :| 0 <= j < |grp| && LitValue(a, grp[j]);
      assert ClauseSat(a, mi[j]);
      ClauseSat2(a, c, -grp[j]);
      LitValueNegate(a, grp[j]);
    }
  }

  /** A group with at most one true member, whose commander is true exactly
      when some member is, satisfies the group's clauses. */
  lemma GroupSound(a: Assignment, grp: seq<Lit>, c: Lit)
    requires c >= 1 && NonZero(grp)
    requires CountTrue(a, grp) <= 1 && a(c) == (CountTrue(a, grp) >= 1)
    ensures Satisfies(a, GroupClauses(grp, c))
  {
    var mi := MemberImplies(grp, c);
    var last: seq<Clause> := [[-c] + grp];
    PairwiseSemantics(a, grp);
    CountTruePositive(a, grp);
    forall j | 0 <= j < |grp| ensures ClauseSat(a, mi[j]) {
      ClauseSat2(a, c, -grp[j]);
      LitValueNegate(a, grp[j]);
    }
    assert ClauseSat(a, last[0]) by {
      if a(c) {
        var j :| 0 <= j < |grp| && LitValue(a, grp[j]);
        assert last[0][j + 1] == grp[j];
      } else {
        assert LitValue(a, last[0][0]);
      }
    }
    SatisfiesAppend(a, PairwiseClauses(grp), mi);
    SatisfiesAppend(a, PairwiseClauses(grp) + mi, last);
  }

  /** In a model of a level, the inputs have no more true literals than the
      commanders. */
  lemma {:induction false} LevelComplete(a: Assignment, chunks: seq<seq<Lit>>, c: Lit)
    requires c >= 1 && forall i :: 0 <= i < |chunks| ==> NonZero(chunks[i])
    requires Satisfies(a, LevelClauses(chunks, c))
    ensures CountTrue(a, Flatten(chunks)) <= CountTrue(a, Range(c, |chunks|))
    decreases |chunks|
  {
    if |chunks| > 0 {
      var head, rest := chunks[0], chunks[1..];
      SatisfiesAppend(a, GroupClauses(head, c), LevelClauses(rest, c + 1));
      GroupComplete(a, head, c);
      LevelComplete(a, rest, c + 1);
      LevelCounts(a, chunks, c);
    }
  }

  /** The inputs and the commanders of a level, counted group by group. */
  lemma LevelCounts(a: Assignment, chunks: seq<seq<Lit>>, c: Lit)
    requires c >= 1 && |chunks| > 0
    ensures CountTrue(a, Flatten(chunks)) == CountTrue(a, chunks[0]) + CountTrue(a, Flatten(chunks[1..]))
    ensures CountTrue(a, Range(c, |chunks|))
         == (if a(c) then 1 else 0) + CountTrue(a, Range(c + 1, |chunks| - 1))
  {
    CountTrueAppend(a, chunks[0], Flatten(chunks[1..]));
    RangeCons(c, |chunks|);
    CountTrueAppend(a, [c], Range(c + 1, |chunks| - 1));
    assert CountTrue(a, [c]) == if a(c) then 1 else 0;
  }

  /** Setting each commander to "some member of its group is true" satisfies
      a level when at most one input is true, and then at most as many
      commanders as inputs are true. */
  lemma {:induction false} LevelSound(a: Assignment, chunks: seq<seq<Lit>>, c: Lit)
    requires c >= 1 && forall i :: 0 <= i < |chunks| ==> NonZero(chunks[i])
    requires forall i :: 0 <= i < |chunks| ==> a(c + i) == (CountTrue(a, chunks[i]) >= 1)
    requires CountTrue(a, Flatten(chunks)) <= 1
    ensures Satisfies(a, LevelClauses(chunks, c))
    ensures CountTrue(a, Range(c, |chunks|)) <= CountTrue(a, Flatten(chunks))
    decreases |chunks|
  {
    if |chunks| > 0 {
      var head, rest := chunks[0], chunks[1..];
      LevelCounts(a, chunks, c);
      CommandersShift(a, chunks, c);
      GroupSound(a, head, c);
      LevelSound(a, rest, c + 1);
      SatisfiesAppend(a, GroupClauses(head, c), LevelClauses(rest, c + 1));
    }
  }

  /** Commander values that follow their groups still do once the first
      group is dropped and the commanders renumbered from c + 1. */
  lemma CommandersShift(a: Assignment, chunks: seq<seq<Lit>>, c: Lit)
    requires |chunks| > 0
    requires forall i :: 0 <= i < |chunks| ==> a(c + i) == (CountTrue(a, chunks[i]) >= 1)
    ensures a(c) == (CountTrue(a, chunks[0]) >= 1)
    ensures forall i :: 0 <= i < |chunks| - 1 ==> a(c + 1 + i) == (CountTrue(a, chunks[1..][i]) >= 1)
  {
    assert a(c + 0) == (CountTrue(a, chunks[0]) >= 1);
    forall i | 0 <= i < |chunks| - 1
      ensures a(c + 1 + i) == (CountTrue(a, chunks[1..][i]) >= 1)
    {
      assert a(c + (i + 1)) == (CountTrue(a, chunks[i + 1]) >= 1);
    }
  }

  /** Completeness: in any model of the emitted clauses at most one input
      literal is true. */
  lemma {:induction false} AtMostOneComplete(s: Sink, lits: seq<Lit>, g: nat, a: Assignment)
    requires g >= 2 && |lits| >= 1 && s.next >= 1 && NonZero(lits)
    requires Satisfies(a, AddAtMostOneRec(s, lits, g).group)
    ensures CountTrue(a, lits) <= 1
    decreases |lits|
  {
    if |lits| <= g {
      PairwiseSemantics(a, lits);
    } else {
      var chunks, level, s1, cmd := RecUnfold(s, lits, g);
      SatisfiesAppend(a, level, AddAtMostOneRec(s1, cmd, g).group);
      ChunksFlatten(lits, g);
      FlattenNonZero(chunks);
      LevelComplete(a, chunks, s.next);
      AtMostOneComplete(s1, cmd, g, a);
    }
  }

  /** The commander values the soundness proof uses: each commander c + i is
      set to "some member of group i is true", and nothing below c changes.
      When at most one input is true, they satisfy the level, and at most one
      commander is true. */
  lemma CommanderWitness(a: Assignment, chunks: seq<seq<Lit>>, c: Lit) returns (b: Assignment)
    requires c >= 1 && LitsBelow(Flatten(chunks), c)
    requires CountTrue(a, Flatten(chunks)) <= 1
    ensures Agree(a, b, c)
    ensures Satisfies(b, LevelClauses(chunks, c))
    ensures CountTrue(b, Range(c, |chunks|)) <= 1
  {
    var nb := |chunks|;
    b := v => if c <= v < c + nb then CountTrue(a, chunks[v - c]) >= 1 else a(v);
    assert Agree(a, b, c);
    FlattenLitsBelow(chunks, c);
    forall i | 0 <= i < nb ensures NonZero(chunks[i]) && b(c + i) == (CountTrue(b, chunks[i]) >= 1) {
      assert LitsBelow(chunks[i], c);
      AgreeCount(a, b, chunks[i], c);
    }
    AgreeCount(a, b, Flatten(chunks), c);
    LevelSound(b, chunks, c);
  }

  /** Soundness: when at most one input literal is true, the commanders can
      be given values (each "some member of my group is true") that satisfy
      every emitted clause, without touching any input variable. */
  lemma {:induction false} AtMostOneSound(s: Sink, lits: seq<Lit>, g: nat, a: Assignment) returns (b: Assignment)
    requires g >= 2 && |lits| >= 1 && s.next >= 1 && LitsBelow(lits, s.next)
    requires CountTrue(a, lits) <= 1
    ensures Agree(a, b, s.next)
    ensures Satisfies(b, AddAtMostOneRec(s, lits, g).group)
    decreases |lits|
  {
    if |lits| <= g {
      PairwiseSemantics(a, lits);
      b := a;
    } else {
      var chunks, level, s1, cmd := RecUnfold(s, lits, g);
      var rec := AddAtMostOneRec(s1, cmd, g);
      ChunksFlatten(lits, g);
      var a1 := CommanderWitness(a, chunks, s.next);
      RangeBelow(s.next, |chunks|);
      b := AtMostOneSound(s1, cmd, g, a1);
      FlattenLitsBelow(chunks, s.next);
      LevelBelow(chunks, s.next);
      AgreeSatisfies(a1, b, level, s1.next);
      SatisfiesAppend(b, level, rec.group);
    }
  }

  /** The encoding is exact: an assignment to the input variables extends to
      a model of the returned clauses if and only if at most one input
      literal is true. */
  lemma AtMostOneCorrect(s: Sink, lits: seq<Lit>, a: Assignment)
    requires s.next >= 1 && LitsBelow(lits, s.next)
    ensures (exists b :: Agree(a, b, s.next) && Satisfies(b, AddAtMostOne(s, lits).group))
        <==> CountTrue(a, lits) <= 1
  {
    var r := AddAtMostOne(s, lits);
    if |lits| == 0 {
      assert Agree(a, a, s.next) && Satisfies(a, r.group);
    } else {
      if CountTrue(a, lits) <= 1 {
        var b := AtMostOneSound(s, lits, DefaultGroupSize, a);
      }
      if exists b :: Agree(a, b, s.next) && Satisfies(b, r.group) {
        var b :| Agree(a, b, s.next) && Satisfies(b, r.group);
        AtMostOneComplete(s, lits, DefaultGroupSize, b);
        AgreeCount(a, b, lits, s.next);
      }
    }
  }

  /** Three literals fit one group: the encoding is the three pairwise
      clauses, they go to the sink, and no variable is allocated. */
  lemma ThreeLiteralsExample()
    ensures AddAtMostOne(Sink(4, []), [1, 2, 3])
        == Encoded(Sink(4, [[-1, -2], [-1, -3], [-2, -3]]), [[-1, -2], [-1, -3], [-2, -3]])
  {
    var lits := [1, 2, 3];
    assert lits[1..] == [2, 3];
    assert lits[1..][1..] == [3];
    assert Heads(lits) == [[-1, -2], [-1, -3]];
    assert Heads([2, 3]) == [[-2, -3]];
    assert PairwiseClauses(lits) == [[-1, -2], [-1, -3], [-2, -3]];
  }
}
