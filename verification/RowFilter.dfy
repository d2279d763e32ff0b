/**
 The row filter built from pushed predicates, and the translation of attribute numbers to file columns
 (src/fdw/pushdown.rs, src/fdw/scan.rs). Arrow's boolean kernels used here are null-strict: one null
 operand makes the result null.
 */
module RowFilter {
  import opened Numbers
  import opened Wrappers
  import opened Text
  import opened Pushdown

  // ---------- the columns a predicate reads ---------------------------------------

  /** Columns in order of first appearance, after those already collected. */
  ghost function Collected(e: PushedExpr, out: seq<nat>): seq<nat> {
    match e
    case Leaf(q) => if q.col in out then out else out + [q.col]
    case And(xs) => CollectedAll(xs, out)
    case Or(xs) => CollectedAll(xs, out)
    case Not(x) => Collected(x, out)
  }

  ghost function CollectedAll(xs: seq<PushedExpr>, out: seq<nat>): seq<nat> {
    if xs == [] then out else Collected(xs[|xs| - 1], CollectedAll(xs[..|xs| - 1], out))
  }

  method CollectInto(e: PushedExpr, before: seq<nat>) returns (out: seq<nat>)
    ensures out == Collected(e, before)
    decreases e
  {
    out := before;
    match e {
      case Leaf(q) =>
        if q.col !in out {
          out := out + [q.col];
        }
      case Not(x) => out := CollectInto(x, out);
      case And(xs) =>
        for i := 0 to |xs|
          invariant out == CollectedAll(xs[..i], before)
        {
          assert xs[..i + 1][..i] == xs[..i];
          out := CollectInto(xs[i], out);
        }
        assert xs[..|xs|] == xs;
      case Or(xs) =>
        for i := 0 to |xs|
          invariant out == CollectedAll(xs[..i], before)
        {
          assert xs[..i + 1][..i] == xs[..i];
          out := CollectInto(xs[i], out);
        }
        assert xs[..|xs|] == xs;
    }
  }

  ghost predicate Reads(e: PushedExpr, c: nat) {
    match e
    case Leaf(q) => q.col == c
    case And(xs) => exists i | 0 <= i < |xs| :: Reads(xs[i], c)
    case Or(xs) => exists i | 0 <= i < |xs| :: Reads(xs[i], c)
    case Not(x) => Reads(x, c)
  }

  ghost predicate Distinct(cols: seq<nat>) {
    forall i, j | 0 <= i < j < |cols| :: cols[i] != cols[j]
  }

  /** Exactly the columns read, each once. */
  lemma {:induction false} CollectedIsReads(e: PushedExpr, out: seq<nat>, c: nat)
    ensures c in Collected(e, out) <==> c in out || Reads(e, c)
    ensures Distinct(out) ==> Distinct(Collected(e, out))
    decreases e, 1
  {
    match e {
      case Leaf(_) =>
      case And(xs) => CollectedAllIsReads(e, xs, |xs|, out, c); assert xs[..|xs|] == xs;
      case Or(xs) => CollectedAllIsReads(e, xs, |xs|, out, c); assert xs[..|xs|] == xs;
      case Not(x) => CollectedIsReads(x, out, c);
    }
  }

  lemma {:induction false} CollectedAllIsReads(e: PushedExpr, xs: seq<PushedExpr>, n: nat, out: seq<nat>, c: nat)
    requires (e.And? || e.Or?) && e.xs == xs && n <= |xs|
    ensures c in CollectedAll(xs[..n], out) <==> c in out || exists i | 0 <= i < n :: Reads(xs[i], c)
    ensures Distinct(out) ==> Distinct(CollectedAll(xs[..n], out))
    decreases e, 0, n
  {
    if n > 0 {
      CollectedAllIsReads(e, xs, n - 1, out, c);
      assert xs[..n][..n - 1] == xs[..n - 1];
      CollectedIsReads(xs[n - 1], CollectedAll(xs[..n - 1], out), c);
    }
  }

  /** The columns of the comparisons from left to right, repeated as often as they occur. */
  ghost function Mentioned(e: PushedExpr): seq<nat> {
    match e
    case Leaf(q) => [q.col]
    case And(xs) => MentionedAll(xs)
    case Or(xs) => MentionedAll(xs)
    case Not(x) => Mentioned(x)
  }

  ghost function MentionedAll(xs: seq<PushedExpr>): seq<nat> {
    if xs == [] then [] else MentionedAll(xs[..|xs| - 1]) + Mentioned(xs[|xs| - 1])
  }

  /** Column `c` is mentioned for the first time at `i`. */
  ghost predicate FirstAt(ms: seq<nat>, c: nat, i: nat) {
    i < |ms| && ms[i] == c && c !in ms[..i]
  }

  /** `cols` are the columns of `ms`, each once, by first mention. */
  ghost predicate ByFirstMention(cols: seq<nat>, ms: seq<nat>) {
    && (forall c :: c in cols <==> c in ms)
    && forall p, q, i: nat, j: nat | 0 <= p < q < |cols| && FirstAt(ms, cols[p], i) && FirstAt(ms, cols[q], j) :: i < j
  }

  ghost function AddNew(out: seq<nat>, ms: seq<nat>): seq<nat> {
    if ms == [] then out
    else
      var before, c := AddNew(out, ms[..|ms| - 1]), ms[|ms| - 1];
      if c in before then before else before + [c]
  }

  lemma {:induction false} AddNewJoin(out: seq<nat>, a: seq<nat>, b: seq<nat>)
    ensures AddNew(out, a + b) == AddNew(AddNew(out, a), b)
  {
    if b == [] {
      assert a + b == a;
    } else {
      AddNewJoin(out, a, b[..|b| - 1]);
      assert (a + b)[..|a + b| - 1] == a + b[..|b| - 1];
    }
  }

  lemma {:induction false} CollectedAddsNew(e: PushedExpr, out: seq<nat>)
    ensures Collected(e, out) == AddNew(out, Mentioned(e))
    decreases e, 1
  {
    match e {
      case Leaf(q) => assert [q.col][..0] == [];
      case And(xs) => CollectedAllAddsNew(e, xs, |xs|, out); assert xs[..|xs|] == xs;
      case Or(xs) => CollectedAllAddsNew(e, xs, |xs|, out); assert xs[..|xs|] == xs;
      case Not(x) => CollectedAddsNew(x, out);
    }
  }

  lemma {:induction false} CollectedAllAddsNew(e: PushedExpr, xs: seq<PushedExpr>, n: nat, out: seq<nat>)
    requires (e.And? || e.Or?) && e.xs == xs && n <= |xs|
    ensures CollectedAll(xs[..n], out) == AddNew(out, MentionedAll(xs[..n]))
    decreases e, 0, n
  {
    if n > 0 {
      CollectedAllAddsNew(e, xs, n - 1, out);
      assert xs[..n][..n - 1] == xs[..n - 1];
      CollectedAddsNew(xs[n - 1], CollectedAll(xs[..n - 1], out));
      AddNewJoin(out, MentionedAll(xs[..n - 1]), Mentioned(xs[n - 1]));
    }
  }

  lemma {:induction false} AddNewOrder(ms: seq<nat>)
    ensures ByFirstMention(AddNew([], ms), ms)
  {
    if ms != [] {
      AddNewOrder(ms[..|ms| - 1]);
      AddNewStep(AddNew([], ms[..|ms| - 1]), ms);
    }
  }

  lemma AddNewStep(cols: seq<nat>, ms: seq<nat>)
    requires ms != [] && ByFirstMention(cols, ms[..|ms| - 1])
    ensures ByFirstMention(if ms[|ms| - 1] in cols then cols else cols + [ms[|ms| - 1]], ms)
  {
    var n, front := |ms| - 1, ms[..|ms| - 1];
    assert ms == front + [ms[n]];
    var now := if ms[n] in cols then cols else cols + [ms[n]];
    forall p, q, i: nat, j: nat | 0 <= p < q < |now| && FirstAt(ms, now[p], i) && FirstAt(ms, now[q], j) ensures i < j {
      FirstEarlier(ms, now[p], i, cols);
      if q < |cols| {
        FirstEarlier(ms, now[q], j, cols);
        assert FirstAt(front, cols[p], i) && FirstAt(front, cols[q], j);
      } else {
        assert forall k | 0 <= k < n :: front[k] == ms[k] && front[k] in front;
        assert now[q] == ms[n] && j == n;
      }
    }
  }

  /** A column collected before was first mentioned before. */
  lemma FirstEarlier(ms: seq<nat>, c: nat, i: nat, cols: seq<nat>)
    requires ms != [] && ByFirstMention(cols, ms[..|ms| - 1]) && c in cols && FirstAt(ms, c, i)
    ensures FirstAt(ms[..|ms| - 1], c, i)
  {
    var front := ms[..|ms| - 1];
    var k :| 0 <= k < |front| && front[k] == c;
    assert forall m | 0 <= m < i :: ms[..i][m] == ms[m];
    assert i <= k;
    assert front[..i] == ms[..i];
  }

  /** Columns are collected in the order in which the predicate first mentions them. */
  lemma CollectedInOrder(e: PushedExpr)
    ensures ByFirstMention(Collected(e, []), Mentioned(e))
  {
    CollectedAddsNew(e, []);
    AddNewOrder(Mentioned(e));
  }

  // ---------- evaluation over a batch ---------------------------------------------------

  /** Arrow's `and` and `or`, folded over any number of operands. */
  ghost function StrictAll(ts: seq<Truth>): Truth {
    if exists i | 0 <= i < |ts| :: ts[i] == Unknown then Unknown
    else Of(forall i | 0 <= i < |ts| :: ts[i] == True)
  }

  ghost function StrictAny(ts: seq<Truth>): Truth {
    if exists i | 0 <= i < |ts| :: ts[i] == Unknown then Unknown
    else Of(exists i | 0 <= i < |ts| :: ts[i] == True)
  }

  function StrictAnd(a: Truth, b: Truth): Truth {
    if a == Unknown || b == Unknown then Unknown else Of(a == True && b == True)
  }

  function StrictOr(a: Truth, b: Truth): Truth {
    if a == Unknown || b == Unknown then Unknown else Of(a == True || b == True)
  }

  ghost function Strict(e: PushedExpr, row: Row): Truth {
    match e
    case Leaf(q) => LeafTruth(q, row)
    case And(xs) => StrictAll(Stricts(xs, row))
    case Or(xs) => StrictAny(Stricts(xs, row))
    case Not(x) => TruthNot(Strict(x, row))
  }

  ghost function Stricts(xs: seq<PushedExpr>, row: Row): (ts: seq<Truth>)
    ensures |ts| == |xs|
    ensures forall i | 0 <= i < |xs| :: ts[i] == Strict(xs[i], row)
  {
    if xs == [] then [] else Stricts(xs[..|xs| - 1], row) + [Strict(xs[|xs| - 1], row)]
  }

  /** Position of a column in the collected order. */
  function LocalIdx(cols: seq<nat>, c: nat): (r: Option<nat>)
    ensures r.Some? <==> c in cols
    ensures r.Some? ==> r.value < |cols| && cols[r.value] == c
  {
    if cols == [] then None
    else if cols[|cols| - 1] == c && c !in cols[..|cols| - 1] then Some(|cols| - 1)
    else LocalIdx(cols[..|cols| - 1], c)
  }

  type Column = seq<Scalar>

  /** Row `r` of a batch whose columns are laid out as `cols`. */
  function RowOf(batch: seq<Column>, cols: seq<nat>, r: nat): Row {
    (c: nat) => var k := LocalIdx(cols, c);
                if k.Some? && k.value < |batch| && r < |batch[k.value]| then batch[k.value][r] else Scalar.Null
  }

  /** Evaluation goes through: every column is there, and no comparison has a null literal. */
  ghost predicate Evaluable(e: PushedExpr, cols: seq<nat>) {
    match e
    case Leaf(q) => q.col in cols && (q.value.Null? ==> q.op.IsNullTest())
    case And(xs) => forall i | 0 <= i < |xs| :: Evaluable(xs[i], cols)
    case Or(xs) => forall i | 0 <= i < |xs| :: Evaluable(xs[i], cols)
    case Not(x) => Evaluable(x, cols)
  }

  ghost predicate Laid(batch: seq<Column>, cols: seq<nat>, n: nat) {
    |batch| == |cols| && forall k | 0 <= k < |batch| :: |batch[k]| == n
  }

  /** The mask holds the strict truth of `e` on every row. */
  ghost predicate MaskOf(mask: seq<Truth>, e: PushedExpr, batch: seq<Column>, cols: seq<nat>, n: nat) {
    |mask| == n && forall r | 0 <= r < n :: mask[r] == Strict(e, RowOf(batch, cols, r))
  }

  function Map2(f: (Truth, Truth) -> Truth, a: seq<Truth>, b: seq<Truth>): (c: seq<Truth>)
    requires |a| == |b|
    ensures |c| == |a| && forall r | 0 <= r < |a| :: c[r] == f(a[r], b[r])
  {
    seq(|a|, r requires 0 <= r < |a| => f(a[r], b[r]))
  }

  method EvalLeaf(q: PushedQual, batch: seq<Column>, cols: seq<nat>, n: nat) returns (m: Result<seq<Truth>>)
    requires Laid(batch, cols, n)
    ensures m.Success? <==> Evaluable(Leaf(q), cols)
    ensures m.Success? ==> MaskOf(m.value, Leaf(q), batch, cols, n)
  {
    var k := LocalIdx(cols, q.col);
    if k.None? || (q.value.Null? && !q.op.IsNullTest()) {
      return Failure(SchemaMismatch);
    }
    m := Success(seq(n, (r: nat) => LeafTruth(q, RowOf(batch, cols, r))));
  }

  lemma StrictSnoc(xs: seq<PushedExpr>, i: nat, row: Row)
    requires i < |xs|
    ensures StrictAll(Stricts(xs[..i + 1], row)) ==
            if i == 0 then Strict(xs[0], row) else StrictAnd(StrictAll(Stricts(xs[..i], row)), Strict(xs[i], row))
    ensures StrictAny(Stricts(xs[..i + 1], row)) ==
            if i == 0 then Strict(xs[0], row) else StrictOr(StrictAny(Stricts(xs[..i], row)), Strict(xs[i], row))
  {
    var ts, us := Stricts(xs[..i], row), Stricts(xs[..i + 1], row);
    assert us[i] == Strict(xs[i], row);
    assert forall j | 0 <= j < i :: us[j] == ts[j];
  }

  /** The accumulator after the first `i` children of an AND, or of an OR. */
  ghost predicate Folded(acc: seq<Truth>, isAnd: bool, xs: seq<PushedExpr>, i: nat, batch: seq<Column>, cols: seq<nat>, n: nat)
    requires i <= |xs|
  {
    && |acc| == n && (forall k | 0 <= k < i :: Evaluable(xs[k], cols))
    && forall r | 0 <= r < n ::
         var ts := Stricts(xs[..i], RowOf(batch, cols, r));
         acc[r] == if isAnd then StrictAll(ts) else StrictAny(ts)
  }

  function Fold(isAnd: bool, first: bool, acc: seq<Truth>, mask: seq<Truth>): (out: seq<Truth>)
    requires |acc| == |mask|
  {
    if first then mask else if isAnd then Map2(StrictAnd, acc, mask) else Map2(StrictOr, acc, mask)
  }

  lemma FoldStep(acc: seq<Truth>, mask: seq<Truth>, isAnd: bool, xs: seq<PushedExpr>, i: nat,
                 batch: seq<Column>, cols: seq<nat>, n: nat)
    requires i < |xs| && Folded(acc, isAnd, xs, i, batch, cols, n)
    requires Evaluable(xs[i], cols) && MaskOf(mask, xs[i], batch, cols, n)
    ensures Folded(Fold(isAnd, i == 0, acc, mask), isAnd, xs, i + 1, batch, cols, n)
  {
    hide Strict, StrictAll, StrictAny, StrictAnd, StrictOr, Stricts, RowOf, Evaluable;
    var out := Fold(isAnd, i == 0, acc, mask);
    forall r: nat | 0 <= r < n
      ensures var ts := Stricts(xs[..i + 1], RowOf(batch, cols, r));
              out[r] == if isAnd then StrictAll(ts) else StrictAny(ts)
    {
      StrictSnoc(xs, i, RowOf(batch, cols, r));
    }
  }

  /** The children of an AND or an OR, folded; none gives all true, or all false. */
  method EvalAll(e: PushedExpr, isAnd: bool, batch: seq<Column>, cols: seq<nat>, n: nat) returns (m: Result<seq<Truth>>)
    requires Laid(batch, cols, n) && (if isAnd then e.And? else e.Or?)
    ensures m.Success? <==> forall k | 0 <= k < |e.xs| :: Evaluable(e.xs[k], cols)
    ensures m.Success? ==> Folded(m.value, isAnd, e.xs, |e.xs|, batch, cols, n)
    decreases e, 0
  {
    hide Strict, RowOf, Evaluable, Fold, MaskOf, Laid;
    var acc: seq<Truth> := seq(n, _ => Of(isAnd));
    for i := 0 to |e.xs|
      invariant Folded(acc, isAnd, e.xs, i, batch, cols, n)
    {
      var b := Eval(e.xs[i], batch, cols, n);
      if b.Failure? {
        return b;
      }
      MaskLength(b.value, e.xs[i], batch, cols, n);
      FoldStep(acc, b.value, isAnd, e.xs, i, batch, cols, n);
      acc := Fold(isAnd, i == 0, acc, b.value);
    }
    m := Success(acc);
  }

  lemma MaskLength(mask: seq<Truth>, e: PushedExpr, batch: seq<Column>, cols: seq<nat>, n: nat)
    requires MaskOf(mask, e, batch, cols, n)
    ensures |mask| == n
  {
  }

  /** Evaluation of a predicate over a batch, one mask entry per row. */
  method Eval(e: PushedExpr, batch: seq<Column>, cols: seq<nat>, n: nat) returns (m: Result<seq<Truth>>)
    requires Laid(batch, cols, n)
    ensures m.Success? <==> Evaluable(e, cols)
    ensures m.Success? ==> MaskOf(m.value, e, batch, cols, n)
    decreases e, 1
  {
    match e {
      case Leaf(q) => m := EvalLeaf(q, batch, cols, n);
      case Not(x) =>
        var b := Eval(x, batch, cols, n);
        m := if b.Success? then Success(seq(|b.value|, r requires 0 <= r < |b.value| => TruthNot(b.value[r]))) else b;
      case And(xs) =>
        m := EvalAll(e, true, batch, cols, n);
        assert xs[..|xs|] == xs;
      case Or(xs) =>
        m := EvalAll(e, false, batch, cols, n);
        assert xs[..|xs|] == xs;
    }
  }

  // ---------- what the filter keeps --------------------------------------------------------

  /** Some comparison in the tree meets a null. */
  ghost predicate MeetsNull(e: PushedExpr, row: Row) {
    match e
    case Leaf(q) => !q.op.IsNullTest() && (row(q.col).Null? || q.value.Null?)
    case And(xs) => exists i | 0 <= i < |xs| :: MeetsNull(xs[i], row)
    case Or(xs) => exists i | 0 <= i < |xs| :: MeetsNull(xs[i], row)
    case Not(x) => MeetsNull(x, row)
  }

  /** A strict evaluation is null exactly when a comparison meets a null, and otherwise is SQL's. */
  lemma {:induction false} StrictMeaning(e: PushedExpr, row: Row)
    ensures Strict(e, row) == if MeetsNull(e, row) then Unknown else Meaning(e, row)
    ensures !MeetsNull(e, row) ==> Meaning(e, row) != Unknown
  {
    match e {
      case Leaf(_) =>
      case Not(x) => StrictMeaning(x, row);
      case And(xs) =>
        forall i | 0 <= i < |xs|
          ensures Stricts(xs, row)[i] == if MeetsNull(xs[i], row) then Unknown else Meanings(xs, row)[i]
          ensures !MeetsNull(xs[i], row) ==> Meanings(xs, row)[i] != Unknown
        {
          StrictMeaning(xs[i], row);
        }
      case Or(xs) =>
        forall i | 0 <= i < |xs|
          ensures Stricts(xs, row)[i] == if MeetsNull(xs[i], row) then Unknown else Meanings(xs, row)[i]
          ensures !MeetsNull(xs[i], row) ==> Meanings(xs, row)[i] != Unknown
        {
          StrictMeaning(xs[i], row);
        }
    }
  }

  /** The filter keeps a row exactly when SQL would and no comparison meets a null. */
  lemma KeptIff(e: PushedExpr, row: Row)
    ensures Strict(e, row) == True <==> Meaning(e, row) == True && !MeetsNull(e, row)
  {
    StrictMeaning(e, row);
  }

  predicate Conjunctive(e: PushedExpr) {
    match e
    case Leaf(_) => true
    case And(xs) => forall i | 0 <= i < |xs| :: Conjunctive(xs[i])
    case Or(_) => false
    case Not(_) => false
  }

  /** A tree of conjunctions loses nothing. */
  lemma {:induction false} ConjunctionsLoseNothing(e: PushedExpr, row: Row)
    requires Conjunctive(e) && Meaning(e, row) == True
    ensures Strict(e, row) == True
  {
    if e.And? {
      forall i | 0 <= i < |e.xs| ensures Stricts(e.xs, row)[i] == True {
        assert Meanings(e.xs, row)[i] == True;
        ConjunctionsLoseNothing(e.xs[i], row);
      }
    }
  }

  /** `a = v OR b = v` loses every row where one side matches and the other is null. */
  lemma DisjunctionLosesRow(a: nat, b: nat, v: Scalar, row: Row)
    requires !v.Null? && row(a) == v && row(b).Null?
    ensures var e := Or([Leaf(PushedQual(a, Eq, v)), Leaf(PushedQual(b, Eq, v))]);
            Meaning(e, row) == True && Strict(e, row) == Unknown
  {
    var e := Or([Leaf(PushedQual(a, Eq, v)), Leaf(PushedQual(b, Eq, v))]);
    if v.Utf8? {
      BytesOrder(v.bytes, v.bytes, v.bytes);
    }
    assert Meanings(e.xs, row)[0] == True;
    assert MeetsNull(e.xs[1], row);
    StrictMeaning(e, row);
  }

  // ---------- the layout of the batch ---------------------------------------------------------

  ghost predicate SameColumns(a: seq<nat>, b: seq<nat>) {
    |a| == |b| && forall c :: c in a <==> c in b
  }

  lemma {:induction false} AscendingUnique(a: seq<nat>, b: seq<nat>, n: nat)
    requires Ascending(a) && Ascending(b) && SameColumns(a, b) && n <= |a|
    ensures a[..n] == b[..n]
  {
    if n > 0 {
      AscendingUnique(a, b, n - 1);
      NextIsLeast(a, b, n - 1);
      NextIsLeast(b, a, n - 1);
    }
  }

  lemma NextIsLeast(a: seq<nat>, b: seq<nat>, n: nat)
    requires Ascending(a) && Ascending(b) && SameColumns(a, b) && n < |a| && a[..n] == b[..n]
    ensures a[n] <= b[n]
  {
    forall j | 0 <= j < n ensures a[j] < b[n] {
      assert a[..n][j] == b[..n][j];
    }
    assert b[n] in b;
    var k :| 0 <= k < |a| && a[k] == b[n];
  }

  /** Columns `file` are those the predicate reads, in file order, as a projection hands them over. */
  ghost predicate FileOrder(e: PushedExpr, file: seq<nat>) {
    Ascending(file) && SameColumns(Collected(e, []), file)
  }

  /** In distinct columns, a column is found where it is. */
  lemma {:induction false} LocalIdxOf(cols: seq<nat>, k: nat)
    requires Distinct(cols) && k < |cols|
    ensures LocalIdx(cols, cols[k]) == Some(k)
  {
    assert cols[k] in cols;
    var got := LocalIdx(cols, cols[k]).value;
    assert cols[got] == cols[k] && !(got < k) && !(k < got);
  }

  /** The filter's lookup, by first appearance, finds the right cell in every file-order batch. */
  ghost predicate LooksUpRight(e: PushedExpr, file: seq<nat>) {
    forall batch: seq<Column>, n: nat, r: nat, c: nat | Laid(batch, file, n) && r < n && Reads(e, c) ::
      RowOf(batch, Collected(e, []), r)(c) == RowOf(batch, file, r)(c)
  }

  /** A batch that tells its columns apart. */
  ghost function Probe(m: nat): (batch: seq<Column>)
    ensures |batch| == m
  {
    seq(m, j => [I64(j)])
  }

  /** The lookup is right for every batch if and only if the predicate mentions its columns in file order. */
  lemma LookupRightIff(e: PushedExpr, file: seq<nat>)
    requires FileOrder(e, file)
    ensures LooksUpRight(e, file) <==> Ascending(Collected(e, []))
  {
    var cols := Collected(e, []);
    if Ascending(cols) {
      AscendingUnique(cols, file, |cols|);
      assert cols == file;
    } else {
      var k :| 0 <= k < |cols| && cols[k] != file[k];
      WrongLookup(e, file, k);
    }
  }

  lemma WrongLookup(e: PushedExpr, file: seq<nat>, k: nat)
    requires FileOrder(e, file) && k < |file| && Collected(e, [])[k] != file[k]
    ensures !LooksUpRight(e, file)
  {
    hide Collected, Reads;
    var cols := Collected(e, []);
    var c := cols[k];
    CollectedIsReads(e, [], c);
    assert c in cols;
    LocalIdxOf(cols, k);
    var batch := Probe(|file|);
    assert Laid(batch, file, 1);
    var j := LocalIdx(file, c).value;
    assert RowOf(batch, cols, 0)(c) == I64(k);
    assert RowOf(batch, file, 0)(c) == I64(j);
  }

  /** Evaluation depends on the columns read. */
  lemma {:induction false} StrictLocal(e: PushedExpr, row: Row, other: Row)
    requires forall c: nat | Reads(e, c) :: row(c) == other(c)
    ensures Strict(e, row) == Strict(e, other)
  {
    match e {
      case Leaf(q) => assert Reads(e, q.col);
      case Not(x) =>
        assert forall c: nat | Reads(x, c) :: Reads(e, c);
        StrictLocal(x, row, other);
      case And(xs) =>
        forall i | 0 <= i < |xs| ensures Strict(xs[i], row) == Strict(xs[i], other) {
          assert forall c: nat | Reads(xs[i], c) :: Reads(e, c);
          StrictLocal(xs[i], row, other);
        }
        assert Stricts(xs, row) == Stricts(xs, other);
      case Or(xs) =>
        forall i | 0 <= i < |xs| ensures Strict(xs[i], row) == Strict(xs[i], other) {
          assert forall c: nat | Reads(xs[i], c) :: Reads(e, c);
          StrictLocal(xs[i], row, other);
        }
        assert Stricts(xs, row) == Stricts(xs, other);
    }
  }

  /** The file-order batch that shows the given rows. */
  ghost predicate Projects(batch: seq<Column>, file: seq<nat>, rows: seq<Row>) {
    && Laid(batch, file, |rows|)
    && forall j, r | 0 <= j < |file| && 0 <= r < |rows| :: batch[j][r] == rows[r](file[j])
  }

  /** With columns mentioned in file order, the mask of a file-order batch is the truth of its rows. */
  lemma MaskIsTruth(e: PushedExpr, file: seq<nat>, batch: seq<Column>, rows: seq<Row>, r: nat)
    requires FileOrder(e, file) && Projects(batch, file, rows) && r < |rows| && Ascending(Collected(e, []))
    ensures Strict(e, RowOf(batch, Collected(e, []), r)) == Strict(e, rows[r])
  {
    var cols := Collected(e, []);
    LookupRightIff(e, file);
    forall c: nat | Reads(e, c) ensures RowOf(batch, cols, r)(c) == rows[r](c) {
      CollectedIsReads(e, [], c);
      assert c in cols;
      assert LooksUpRight(e, file);
      assert RowOf(batch, cols, r)(c) == RowOf(batch, file, r)(c);
    }
    StrictLocal(e, RowOf(batch, cols, r), rows[r]);
  }

  /** `b = u AND a = v`, with `b` after `a` in the file. */
  function OutOfOrder(a: nat, b: nat, u: Scalar, v: Scalar): PushedExpr {
    And([Leaf(PushedQual(b, Eq, u)), Leaf(PushedQual(a, Eq, v))])
  }

  lemma OutOfOrderColumns(a: nat, b: nat, u: Scalar, v: Scalar)
    requires a < b
    ensures Collected(OutOfOrder(a, b, u, v), []) == [b, a]
    ensures LocalIdx([b, a], a) == Some(1) && LocalIdx([b, a], b) == Some(0)
    ensures LocalIdx([a, b], a) == Some(0) && LocalIdx([a, b], b) == Some(1)
  {
    var x, y := Leaf(PushedQual(b, Eq, u)), Leaf(PushedQual(a, Eq, v));
    assert [x, y][..1] == [x] && [x][..0] == [];
    assert CollectedAll([x], []) == [b];
    assert CollectedAll([x, y], []) == [b, a];
    LocalIdxOf([b, a], 0);
    LocalIdxOf([b, a], 1);
    LocalIdxOf([a, b], 0);
    LocalIdxOf([a, b], 1);
  }

  lemma PairTruth(a: nat, b: nat, u: Scalar, v: Scalar, row: Row)
    requires !u.Null? && SameType(u, v) && (row(a) == u || row(a) == v) && (row(b) == u || row(b) == v)
    ensures Meaning(OutOfOrder(a, b, u, v), row) == Strict(OutOfOrder(a, b, u, v), row) == Of(row(b) == u && row(a) == v)
  {
    var e := OutOfOrder(a, b, u, v);
    ScalarOrder(u, v, u);
    ScalarOrder(v, u, v);
    ScalarOrder(u, u, u);
    ScalarOrder(v, v, v);
    assert Meanings(e.xs, row)[0] == Of(row(b) == u) && Meanings(e.xs, row)[1] == Of(row(a) == v);
    StrictMeaning(e, row);
  }

  /** Read against file order, the row with `a = v` and `b = u` is lost, and the one with the values swapped is kept. */
  lemma SwappedColumns(a: nat, b: nat, u: Scalar, v: Scalar, batch: seq<Column>, r: nat)
    requires a < b && !u.Null? && SameType(u, v) && u != v && |batch| == 2 && r < |batch[0]| == |batch[1]|
    requires (batch[0][r] == v && batch[1][r] == u) || (batch[0][r] == u && batch[1][r] == v)
    ensures var e := OutOfOrder(a, b, u, v);
            var matches := batch[0][r] == v;
            && Meaning(e, RowOf(batch, [a, b], r)) == Of(matches)
            && Strict(e, RowOf(batch, Collected(e, []), r)) == Of(!matches)
  {
    OutOfOrderColumns(a, b, u, v);
    PairTruth(a, b, u, v, RowOf(batch, [a, b], r));
    PairTruth(a, b, u, v, RowOf(batch, [b, a], r));
  }
}
