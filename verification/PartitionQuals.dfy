/**
 Splitting pushed predicates between the path and the file, and pruning blobs by their partition values
 (src/fdw/partition.rs).
 */
module PartitionQuals {
  import opened Numbers
  import opened Wrappers
  import opened Text
  import opened Pushdown
  import opened RowFilter
  import opened RowGroups
  import opened Attributes

  // ---------- which predicates concern the path ------------------------------------------

  datatype Target = ForPartition | ForStorage | Mixed

  ghost function TargetOf(e: PushedExpr, attnums: seq<nat>): Target {
    match e
    case Leaf(q) => if q.col in attnums then ForPartition else ForStorage
    case Not(x) => TargetOf(x, attnums)
    case And(xs) => Combine(Targets(xs, attnums))
    case Or(xs) => Combine(Targets(xs, attnums))
  }

  ghost function Targets(xs: seq<PushedExpr>, attnums: seq<nat>): (ts: seq<Target>)
    ensures |ts| == |xs| && forall i | 0 <= i < |xs| :: ts[i] == TargetOf(xs[i], attnums)
  {
    if xs == [] then [] else [TargetOf(xs[0], attnums)] + Targets(xs[1..], attnums)
  }

  ghost function Combine(ts: seq<Target>): Target {
    if Mixed in ts || (ForPartition in ts && ForStorage in ts) then Mixed
    else if ForPartition in ts then ForPartition
    else ForStorage
  }

  method ClassifyTarget(e: PushedExpr, attnums: seq<nat>) returns (t: Target)
    ensures t == TargetOf(e, attnums)
    decreases e, 1
  {
    match e {
      case Leaf(q) => t := if q.col in attnums then ForPartition else ForStorage;
      case Not(x) => t := ClassifyTarget(x, attnums);
      case And(xs) => t := ClassifyAll(e, attnums);
      case Or(xs) => t := ClassifyAll(e, attnums);
    }
  }

  method ClassifyAll(e: PushedExpr, attnums: seq<nat>) returns (t: Target)
    requires e.And? || e.Or?
    ensures t == Combine(Targets(e.xs, attnums))
    decreases e, 0
  {
    ghost var ts := Targets(e.xs, attnums);
    var seenP, seenS := false, false;
    for i := 0 to |e.xs|
      invariant Mixed !in ts[..i]
      invariant seenP <==> ForPartition in ts[..i]
      invariant seenS <==> ForStorage in ts[..i]
    {
      var one := ClassifyTarget(e.xs[i], attnums);
      assert ts[..i + 1] == ts[..i] + [one];
      match one {
        case ForPartition => seenP := true;
        case ForStorage => seenS := true;
        case Mixed => assert ts[i] in ts; return Mixed;
      }
    }
    assert ts[..|e.xs|] == ts;
    t := if seenP && seenS then Mixed else if seenP then ForPartition else ForStorage;
  }

  ghost predicate OnlyPartition(e: PushedExpr, attnums: seq<nat>) {
    forall c: nat | Reads(e, c) :: c in attnums
  }

  ghost predicate OnlyStorage(e: PushedExpr, attnums: seq<nat>) {
    forall c: nat | Reads(e, c) :: c !in attnums
  }

  /** No AND and no OR is empty, as the planner never makes one. */
  ghost predicate Full(e: PushedExpr) {
    match e
    case Leaf(_) => true
    case Not(x) => Full(x)
    case And(xs) => xs != [] && forall i | 0 <= i < |xs| :: Full(xs[i])
    case Or(xs) => xs != [] && forall i | 0 <= i < |xs| :: Full(xs[i])
  }

  /** The class says what columns a predicate reads, and on predicates without empty lists it is exact. */
  lemma {:induction false} TargetMeans(e: PushedExpr, attnums: seq<nat>)
    ensures TargetOf(e, attnums) == ForPartition ==> OnlyPartition(e, attnums)
    ensures TargetOf(e, attnums) == ForStorage ==> OnlyStorage(e, attnums)
    ensures Full(e) && OnlyPartition(e, attnums) ==> TargetOf(e, attnums) == ForPartition
    ensures Full(e) && OnlyStorage(e, attnums) ==> TargetOf(e, attnums) == ForStorage
    decreases e, 1
  {
    match e {
      case Leaf(q) => assert Reads(e, q.col);
      case Not(x) =>
        TargetMeans(x, attnums);
        assert forall c: nat :: Reads(e, c) <==> Reads(x, c);
      case And(xs) => ListMeans(e, attnums);
      case Or(xs) => ListMeans(e, attnums);
    }
  }

  lemma {:induction false} ListMeans(e: PushedExpr, attnums: seq<nat>)
    requires e.And? || e.Or?
    ensures TargetOf(e, attnums) == ForPartition ==> OnlyPartition(e, attnums)
    ensures TargetOf(e, attnums) == ForStorage ==> OnlyStorage(e, attnums)
    ensures Full(e) && OnlyPartition(e, attnums) ==> TargetOf(e, attnums) == ForPartition
    ensures Full(e) && OnlyStorage(e, attnums) ==> TargetOf(e, attnums) == ForStorage
    decreases e, 0
  {
    var xs, ts := e.xs, Targets(e.xs, attnums);
    forall i | 0 <= i < |xs|
      ensures ts[i] in ts
      ensures ts[i] == ForPartition ==> OnlyPartition(xs[i], attnums)
      ensures ts[i] == ForStorage ==> OnlyStorage(xs[i], attnums)
      ensures Full(e) && OnlyPartition(e, attnums) ==> ts[i] == ForPartition
      ensures Full(e) && OnlyStorage(e, attnums) ==> ts[i] == ForStorage
    {
      TargetMeans(xs[i], attnums);
      assert forall c: nat | Reads(xs[i], c) :: Reads(e, c);
    }
    if Full(e) {
      assert ts[0] in ts;
    }
  }

  ghost function Select(exprs: seq<PushedExpr>, attnums: seq<nat>, t: Target): seq<PushedExpr> {
    if exprs == [] then []
    else
      var last := exprs[|exprs| - 1];
      Select(exprs[..|exprs| - 1], attnums, t) + if TargetOf(last, attnums) == t then [last] else []
  }

  ghost function CountClass(exprs: seq<PushedExpr>, attnums: seq<nat>, t: Target, n: nat): nat
    requires n <= |exprs|
  {
    if n == 0 then 0 else CountClass(exprs, attnums, t, n - 1) + if TargetOf(exprs[n - 1], attnums) == t then 1 else 0
  }

  /** `chosen` are the predicates of one class, each at its place. */
  ghost predicate Chosen(chosen: seq<PushedExpr>, exprs: seq<PushedExpr>, attnums: seq<nat>, t: Target) {
    && |chosen| == CountClass(exprs, attnums, t, |exprs|)
    && forall i | 0 <= i < |exprs| && TargetOf(exprs[i], attnums) == t ::
         CountClass(exprs, attnums, t, i) < |chosen| && chosen[CountClass(exprs, attnums, t, i)] == exprs[i]
  }

  lemma {:induction false} CountClassPrefix(exprs: seq<PushedExpr>, attnums: seq<nat>, t: Target, m: nat, n: nat)
    requires n <= m <= |exprs|
    ensures CountClass(exprs[..m], attnums, t, n) == CountClass(exprs, attnums, t, n)
  {
    if n > 0 {
      CountClassPrefix(exprs, attnums, t, m, n - 1);
    }
  }

  lemma CountClassStep(exprs: seq<PushedExpr>, attnums: seq<nat>, t: Target, n: nat)
    requires n < |exprs|
    ensures CountClass(exprs, attnums, t, n + 1) == CountClass(exprs, attnums, t, n) + if TargetOf(exprs[n], attnums) == t then 1 else 0
  {
  }

  lemma ChosenSnoc(chosen: seq<PushedExpr>, exprs: seq<PushedExpr>, attnums: seq<nat>, t: Target)
    requires exprs != [] && Chosen(chosen, exprs[..|exprs| - 1], attnums, t)
    ensures Chosen(chosen + if TargetOf(exprs[|exprs| - 1], attnums) == t then [exprs[|exprs| - 1]] else [], exprs, attnums, t)
  {
    hide TargetOf, CountClass;
    var n := |exprs| - 1;
    CountClassStep(exprs, attnums, t, n);
    forall i | 0 <= i <= n ensures CountClass(exprs[..n], attnums, t, i) == CountClass(exprs, attnums, t, i) {
      CountClassPrefix(exprs, attnums, t, n, i);
    }
    assert forall i | 0 <= i < n :: exprs[..n][i] == exprs[i];
  }

  lemma {:induction false} SelectMeans(exprs: seq<PushedExpr>, attnums: seq<nat>, t: Target)
    ensures Chosen(Select(exprs, attnums, t), exprs, attnums, t)
  {
    if exprs != [] {
      hide TargetOf, CountClass, Chosen;
      SelectMeans(exprs[..|exprs| - 1], attnums, t);
      ChosenSnoc(Select(exprs[..|exprs| - 1], attnums, t), exprs, attnums, t);
    }
  }

  /** Path predicates and file predicates; mixed ones go to neither. */
  method SplitQualsByTarget(exprs: seq<PushedExpr>, attnums: seq<nat>)
    returns (partition: seq<PushedExpr>, storage: seq<PushedExpr>)
    ensures partition == Select(exprs, attnums, ForPartition) && storage == Select(exprs, attnums, ForStorage)
    ensures Chosen(partition, exprs, attnums, ForPartition) && Chosen(storage, exprs, attnums, ForStorage)
  {
    SelectMeans(exprs, attnums, ForPartition);
    SelectMeans(exprs, attnums, ForStorage);
    partition, storage := [], [];
    for i := 0 to |exprs|
      invariant partition == Select(exprs[..i], attnums, ForPartition)
      invariant storage == Select(exprs[..i], attnums, ForStorage)
    {
      var t := ClassifyTarget(exprs[i], attnums);
      assert exprs[..i + 1][..i] == exprs[..i];
      match t {
        case ForPartition => partition := partition + [exprs[i]];
        case ForStorage => storage := storage + [exprs[i]];
        case Mixed =>
      }
    }
    assert exprs[..|exprs|] == exprs;
  }

  /** A file predicate always finds its columns in the file. */
  lemma {:induction false} StorageTranslates(e: PushedExpr, attnums: seq<nat>, m: seq<Option<nat>>)
    requires OnlyStorage(e, attnums) && forall c: nat | Reads(e, c) :: c < |m|
    requires forall i | 0 <= i < |m| :: m[i] == FileColumn(attnums, i)
    ensures Stored(e, m)
  {
    match e {
      case Leaf(q) => assert Reads(e, q.col);
      case Not(x) =>
        assert forall c: nat | Reads(x, c) :: Reads(e, c);
        StorageTranslates(x, attnums, m);
      case And(xs) =>
        forall i | 0 <= i < |xs| ensures Stored(xs[i], m) {
          assert forall c: nat | Reads(xs[i], c) :: Reads(e, c);
          StorageTranslates(xs[i], attnums, m);
        }
      case Or(xs) =>
        forall i | 0 <= i < |xs| ensures Stored(xs[i], m) {
          assert forall c: nat | Reads(xs[i], c) :: Reads(e, c);
          StorageTranslates(xs[i], attnums, m);
        }
    }
  }

  // ---------- integers as text ----------------------------------------------------------------

  const ZERO: Byte := '0' as int
  const MINUS: Byte := '-' as int
  const PLUS: Byte := '+' as int
  const I64_LIMIT := 0x8000_0000_0000_0000

  predicate IsDigit(b: Byte) {
    ZERO <= b <= ZERO + 9
  }

  function Show(n: nat): Bytes {
    if n < 10 then [ZERO + n] else Show(n / 10) + [ZERO + n % 10]
  }

  /** Decimal, as `to_string` prints it. */
  function ShowInt(n: int): Bytes {
    if n < 0 then [MINUS] + Show(-n) else Show(n)
  }

  function DigitsValue(s: Bytes): Option<nat> {
    if s == [] then None
    else
      var front, last := s[..|s| - 1], s[|s| - 1];
      if !IsDigit(last) then None
      else if front == [] then Some(last - ZERO)
      else
        var v := DigitsValue(front);
        if v.None? then None else Some(v.value * 10 + (last - ZERO))
  }

  /** `str::parse::<i64>`: an optional sign, then digits, within range. */
  function ParseInt(s: Bytes): Option<int> {
    var signed := s != [] && (s[0] == MINUS || s[0] == PLUS);
    var v := DigitsValue(if signed then s[1..] else s);
    if v.None? then None
    else
      var n: int := if signed && s[0] == MINUS then 0 - (v.value as int) else v.value as int;
      if -I64_LIMIT <= n < I64_LIMIT then Some(n) else None
  }

  lemma {:induction false} ShowDigits(n: nat)
    ensures DigitsValue(Show(n)) == Some(n)
    ensures Show(n) != [] && IsDigit(Show(n)[0])
  {
    if n >= 10 {
      ShowDigits(n / 10);
      assert Show(n)[..|Show(n)| - 1] == Show(n / 10);
    }
  }

  /** Printing then parsing gives the number back. */
  lemma ShowParses(n: int)
    requires -I64_LIMIT <= n < I64_LIMIT
    ensures ParseInt(ShowInt(n)) == Some(n)
  {
    ShowDigits(if n < 0 then -n else n);
    if n < 0 {
      assert ShowInt(n)[1..] == Show(-n);
    }
  }

  // ---------- pruning blobs -----------------------------------------------------------------------

  function Position(attnums: seq<nat>, c: nat): (p: Option<nat>)
    ensures p.Some? <==> c in attnums
    ensures p.Some? ==> p.value < |attnums| && attnums[p.value] == c
  {
    if attnums == [] then None
    else if attnums[0] == c then Some(0)
    else
      var p := Position(attnums[1..], c);
      if p.None? then None else Some(p.value + 1)
  }

  /** A literal as path text; `dates` prints days since 1970. Other types have no text. */
  function LiteralText(v: Scalar, dates: int -> Bytes): Option<Bytes> {
    match v
    case I16(n) => Some(ShowInt(n))
    case I32(n) => Some(ShowInt(n))
    case I64(n) => Some(ShowInt(n))
    case Utf8(s) => Some(s)
    case Date32(d) => Some(dates(d))
    case _ => None
  }

  /** Equality is on text; order is numeric if both sides are numbers, and bytewise otherwise. */
  predicate TextKeeps(op: PushedOp, raw: Bytes, lit: Bytes) {
    match op
    case Eq => raw == lit
    case Ne => raw != lit
    case IsNull => false
    case IsNotNull => true
    case _ =>
      var r, l := ParseInt(raw), ParseInt(lit);
      if r.Some? && l.Some? then Asks(op, CmpInt(r.value, l.value)) else Asks(op, CmpBytes(raw, lit))
  }

  predicate LeafKeeps(q: PushedQual, attnums: seq<nat>, names: seq<Bytes>, parsed: map<Bytes, Bytes>, dates: int -> Bytes) {
    var p, lit := Position(attnums, q.col), LiteralText(q.value, dates);
    p.None? || p.value >= |names| || names[p.value] !in parsed || lit.None?
    || TextKeeps(q.op, parsed[names[p.value]], lit.value)
  }

  predicate Keeps(e: PushedExpr, attnums: seq<nat>, names: seq<Bytes>, parsed: map<Bytes, Bytes>, dates: int -> Bytes) {
    match e
    case Leaf(q) => LeafKeeps(q, attnums, names, parsed, dates)
    case And(xs) => forall i | 0 <= i < |xs| :: Keeps(xs[i], attnums, names, parsed, dates)
    case Or(xs) => exists i | 0 <= i < |xs| :: Keeps(xs[i], attnums, names, parsed, dates)
    case Not(x) => !Keeps(x, attnums, names, parsed, dates)
  }

  method EvaluatePartitionQuals(exprs: seq<PushedExpr>, attnums: seq<nat>, names: seq<Bytes>, parsed: map<Bytes, Bytes>, dates: int -> Bytes)
    returns (keep: bool)
    ensures keep <==> forall k | 0 <= k < |exprs| :: Keeps(exprs[k], attnums, names, parsed, dates)
  {
    for k := 0 to |exprs|
      invariant forall j | 0 <= j < k :: Keeps(exprs[j], attnums, names, parsed, dates)
    {
      if !Keeps(exprs[k], attnums, names, parsed, dates) {
        return false;
      }
    }
    return true;
  }

  /** What the path cannot decide never drops a blob: another column, a value the path lacks, a literal without text. */
  lemma UndecidedKept(q: PushedQual, attnums: seq<nat>, names: seq<Bytes>, parsed: map<Bytes, Bytes>, dates: int -> Bytes)
    requires || q.col !in attnums
             || (|names| == |attnums| && forall p | 0 <= p < |attnums| && attnums[p] == q.col :: names[p] !in parsed)
             || q.value.Null? || q.value.Bool? || q.value.F32? || q.value.F64? || q.value.TimestampMicros? || q.value.Decimal128?
    ensures Keeps(Leaf(q), attnums, names, parsed, dates)
  {
    var p := Position(attnums, q.col);
  }

  predicate InI64(n: int) {
    -I64_LIMIT <= n < I64_LIMIT
  }

  lemma IntTextKeeps(op: PushedOp, v: int, w: int)
    requires !op.IsNullTest() && InI64(v) && InI64(w)
    ensures TextKeeps(op, ShowInt(v), ShowInt(w)) <==> Asks(op, CmpInt(v, w))
  {
    ShowParses(v);
    ShowParses(w);
  }

  lemma PlainTextKeeps(op: PushedOp, raw: Bytes, lit: Bytes)
    requires !op.IsNullTest() && (op == Eq || op == Ne || ParseInt(lit).None?)
    ensures TextKeeps(op, raw, lit) <==> Asks(op, CmpBytes(raw, lit))
  {
    BytesOrder(raw, lit, raw);
  }

  // ---------- when pruning is right -----------------------------------------------------------

  /** Dates from `lo` to `hi` print in their own order and never as a number. */
  ghost predicate DatesOrdered(dates: int -> Bytes, lo: int, hi: int) {
    forall d, w | lo <= d <= hi && lo <= w <= hi :: CmpBytes(dates(d), dates(w)) == CmpInt(d, w) && ParseInt(dates(w)).None?
  }

  /** The path holds a cell as INSERT writes it: canonical integers, text as it is, dates as printed. */
  ghost predicate CellText(cell: Scalar, raw: Bytes, dates: int -> Bytes, lo: int, hi: int) {
    match cell
    case I16(n) => InI64(n) && raw == ShowInt(n)
    case I32(n) => InI64(n) && raw == ShowInt(n)
    case I64(n) => InI64(n) && raw == ShowInt(n)
    case Utf8(t) => raw == t
    case Date32(d) => lo <= d <= hi && raw == dates(d)
    case _ => false
  }

  ghost predicate PathShows(attnums: seq<nat>, names: seq<Bytes>, parsed: map<Bytes, Bytes>, row: Row, dates: int -> Bytes, lo: int, hi: int) {
    |names| == |attnums| && forall p | 0 <= p < |attnums| ::
      names[p] in parsed && CellText(row(attnums[p]), parsed[names[p]], dates, lo, hi)
  }

  /** A comparison pruning decides as the typed one does; an order on text must not be against a number. */
  ghost predicate Decided(q: PushedQual, row: Row, lo: int, hi: int) {
    && !q.op.IsNullTest() && SameType(row(q.col), q.value)
    && match q.value
       case I16(n) => InI64(n)
       case I32(n) => InI64(n)
       case I64(n) => InI64(n)
       case Utf8(t) => q.op == Eq || q.op == Ne || ParseInt(t).None?
       case Date32(w) => lo <= w <= hi
       case _ => false
  }

  ghost predicate AllDecided(e: PushedExpr, attnums: seq<nat>, row: Row, lo: int, hi: int) {
    match e
    case Leaf(q) => q.col in attnums && (Decided(q, row, lo, hi) || (q.op == IsNotNull && q.value.Null?))
    case And(xs) => forall i | 0 <= i < |xs| :: AllDecided(xs[i], attnums, row, lo, hi)
    case Or(xs) => forall i | 0 <= i < |xs| :: AllDecided(xs[i], attnums, row, lo, hi)
    case Not(x) => AllDecided(x, attnums, row, lo, hi)
  }

  lemma DecidedText(op: PushedOp, cell: Scalar, lit: Scalar, raw: Bytes, dates: int -> Bytes, lo: int, hi: int, row: Row, c: nat)
    requires DatesOrdered(dates, lo, hi) && CellText(cell, raw, dates, lo, hi) && row(c) == cell && Decided(PushedQual(c, op, lit), row, lo, hi)
    ensures LiteralText(lit, dates).Some?
    ensures TextKeeps(op, raw, LiteralText(lit, dates).value) <==> Asks(op, Compare(cell, lit))
  {
    hide TextKeeps, ShowInt, ParseInt, CmpBytes;
    match (cell, lit) {
      case (I16(v), I16(n)) => IntTextKeeps(op, v, n);
      case (I32(v), I32(n)) => IntTextKeeps(op, v, n);
      case (I64(v), I64(n)) => IntTextKeeps(op, v, n);
      case (_, Utf8(t)) => PlainTextKeeps(op, raw, t);
      case (_, Date32(w)) => PlainTextKeeps(op, raw, dates(w));
      case _ =>
    }
  }

  lemma LeafExact(q: PushedQual, attnums: seq<nat>, names: seq<Bytes>, parsed: map<Bytes, Bytes>, dates: int -> Bytes, row: Row, lo: int, hi: int)
    requires DatesOrdered(dates, lo, hi) && PathShows(attnums, names, parsed, row, dates, lo, hi) && AllDecided(Leaf(q), attnums, row, lo, hi)
    ensures LeafTruth(q, row) == Of(LeafKeeps(q, attnums, names, parsed, dates))
  {
    hide TextKeeps, ShowInt, ParseInt, CmpBytes, DatesOrdered;
    var p := Position(attnums, q.col).value;
    assert CellText(row(attnums[p]), parsed[names[p]], dates, lo, hi);
    if !q.op.IsNullTest() {
      DecidedText(q.op, row(q.col), q.value, parsed[names[p]], dates, lo, hi, row, q.col);
    }
  }

  /** On what INSERT writes, pruning decides every such tree as the typed comparison would. */
  lemma {:induction false} PruneExact(e: PushedExpr, attnums: seq<nat>, names: seq<Bytes>, parsed: map<Bytes, Bytes>, dates: int -> Bytes,
                                      row: Row, lo: int, hi: int)
    requires DatesOrdered(dates, lo, hi) && PathShows(attnums, names, parsed, row, dates, lo, hi) && AllDecided(e, attnums, row, lo, hi)
    ensures Meaning(e, row) == Of(Keeps(e, attnums, names, parsed, dates))
  {
    hide LeafKeeps, LeafTruth, PathShows, DatesOrdered, Decided;
    match e {
      case Leaf(q) => LeafExact(q, attnums, names, parsed, dates, row, lo, hi);
      case Not(x) => PruneExact(x, attnums, names, parsed, dates, row, lo, hi);
      case And(xs) =>
        forall i | 0 <= i < |xs| ensures Meanings(xs, row)[i] == Of(Keeps(xs[i], attnums, names, parsed, dates)) {
          PruneExact(xs[i], attnums, names, parsed, dates, row, lo, hi);
        }
      case Or(xs) =>
        forall i | 0 <= i < |xs| ensures Meanings(xs, row)[i] == Of(Keeps(xs[i], attnums, names, parsed, dates)) {
          PruneExact(xs[i], attnums, names, parsed, dates, row, lo, hi);
        }
    }
  }

  /** The same with IS NULL tests as well, which pruning never uses to drop a blob. */
  ghost predicate AllHandled(e: PushedExpr, attnums: seq<nat>, row: Row, lo: int, hi: int) {
    match e
    case Leaf(q) => q.col in attnums && (Decided(q, row, lo, hi) || (q.op.IsNullTest() && q.value.Null?))
    case And(xs) => forall i | 0 <= i < |xs| :: AllHandled(xs[i], attnums, row, lo, hi)
    case Or(xs) => forall i | 0 <= i < |xs| :: AllHandled(xs[i], attnums, row, lo, hi)
    case Not(x) => AllHandled(x, attnums, row, lo, hi)
  }

  /** A blob holding a row on which a predicate without NOT is TRUE is kept. */
  lemma {:induction false} PruneSound(e: PushedExpr, attnums: seq<nat>, names: seq<Bytes>, parsed: map<Bytes, Bytes>, dates: int -> Bytes,
                                      row: Row, lo: int, hi: int)
    requires DatesOrdered(dates, lo, hi) && PathShows(attnums, names, parsed, row, dates, lo, hi) && AllHandled(e, attnums, row, lo, hi)
    requires NotFree(e) && Meaning(e, row) == True
    ensures Keeps(e, attnums, names, parsed, dates)
  {
    hide PathShows, DatesOrdered, TextKeeps;
    match e {
      case Leaf(q) =>
        if !q.op.IsNullTest() {
          LeafExact(q, attnums, names, parsed, dates, row, lo, hi);
        }
      case And(xs) =>
        forall i | 0 <= i < |xs| ensures Keeps(xs[i], attnums, names, parsed, dates) {
          assert Meanings(xs, row)[i] == True;
          PruneSound(xs[i], attnums, names, parsed, dates, row, lo, hi);
        }
      case Or(xs) =>
        var i :| 0 <= i < |xs| && Meanings(xs, row)[i] == True;
        PruneSound(xs[i], attnums, names, parsed, dates, row, lo, hi);
    }
  }

  // ---------- when it is not --------------------------------------------------------------------

  predicate IsOrder(op: PushedOp) {
    op.Lt? || op.Le? || op.Gt? || op.Ge?
  }

  /** Whatever the path holds, the blob is kept by the text order of its value. */
  ghost predicate OrdersText(op: PushedOp, lit: Bytes)
    requires !op.IsNullTest()
  {
    forall raw: Bytes :: TextKeeps(op, raw, lit) <==> Asks(op, CmpBytes(raw, lit))
  }

  /** A text value on the other side of the literal as text than as a number. */
  lemma Disagreement(op: PushedOp, raw: Bytes, lit: Bytes)
    requires IsOrder(op) && ParseInt(raw).Some? && ParseInt(lit).Some?
    requires var r, l := ParseInt(raw).value, ParseInt(lit).value;
             (r < l && CmpBytes(raw, lit) > 0) || (r > l && CmpBytes(raw, lit) < 0)
    ensures !OrdersText(op, lit)
  {
    hide ParseInt, CmpBytes;
    assert TextKeeps(op, raw, lit) != Asks(op, CmpBytes(raw, lit));
  }

  /** A number literal makes pruning compare numbers, and for some text value that is the wrong answer. */
  lemma OrdersTextIff(op: PushedOp, lit: Bytes)
    requires IsOrder(op)
    ensures OrdersText(op, lit) <==> ParseInt(lit).None?
  {
    if ParseInt(lit).None? {
      forall raw: Bytes ensures TextKeeps(op, raw, lit) <==> Asks(op, CmpBytes(raw, lit)) {
        PlainTextKeeps(op, raw, lit);
      }
    } else {
      var raw := OtherSide(lit);
      Disagreement(op, raw, lit);
    }
  }

  const MINUS_ONE: Bytes := [MINUS, ZERO + 1]

  lemma OtherSide(lit: Bytes) returns (raw: Bytes)
    requires ParseInt(lit).Some?
    ensures ParseInt(raw).Some?
    ensures var r, l := ParseInt(raw).value, ParseInt(lit).value;
            (r < l && CmpBytes(raw, lit) > 0) || (r > l && CmpBytes(raw, lit) < 0)
  {
    var l := ParseInt(lit).value;
    NumberStart(lit);
    if lit[0] == PLUS {
      raw := MINUS_ONE;
      assert MINUS_ONE[1..] == [ZERO + 1];
      assert DigitsValue([ZERO + 1]) == Some(1);
    } else if l < I64_LIMIT - 1 {
      var m: nat := if l + 1 >= 0 then l + 1 else 0;
      raw := [PLUS] + Show(m);
      assert raw[1..] == Show(m);
      ShowDigits(m);
    } else {
      raw := BelowMax(lit);
    }
  }

  /** A number starts with a sign or a digit, and a positive one not with a minus. */
  lemma NumberStart(lit: Bytes)
    requires ParseInt(lit).Some?
    ensures lit != [] && (lit[0] == PLUS || lit[0] == MINUS || IsDigit(lit[0]))
    ensures ParseInt(lit).value > 0 && lit[0] != PLUS ==> DigitsValue(lit) == Some(ParseInt(lit).value)
  {
    if lit != [] && lit[0] != PLUS && lit[0] != MINUS {
      FirstDigit(lit);
    }
  }

  lemma {:induction false} FirstDigit(s: Bytes)
    requires DigitsValue(s).Some?
    ensures s != [] && forall i | 0 <= i < |s| :: IsDigit(s[i])
  {
    if |s| > 1 {
      FirstDigit(s[..|s| - 1]);
    }
  }

  function Pow10(k: nat): nat {
    if k == 0 then 1 else 10 * Pow10(k - 1)
  }

  lemma {:induction false} Pow10Grows(j: nat, k: nat)
    requires j <= k
    ensures Pow10(j) <= Pow10(k)
  {
    if j < k {
      Pow10Grows(j, k - 1);
    }
  }

  lemma Tenfold(d: int, k: nat)
    ensures d * Pow10(k + 1) == 10 * (d * Pow10(k))
  {
    var p := Pow10(k);
    assert d * (10 * p) == 10 * (d * p);
  }

  /** A numeral is below the power of ten of its length, and at least its first two digits say. */
  lemma {:induction false} DigitsBounds(s: Bytes)
    requires DigitsValue(s).Some?
    ensures DigitsValue(s).value < Pow10(|s|)
    ensures |s| >= 2 && IsDigit(s[0]) && IsDigit(s[1]) ==> DigitsValue(s).value >= (10 * (s[0] - ZERO) + (s[1] - ZERO)) * Pow10(|s| - 2)
  {
    if |s| > 1 {
      var front := s[..|s| - 1];
      DigitsBounds(front);
      if |s| == 2 {
        assert front == [s[0]];
      } else {
        assert front[0] == s[0] && front[1] == s[1];
        Tenfold(10 * (s[0] - ZERO) + (s[1] - ZERO), |s| - 3);
      }
    }
  }

  /** Below the greatest number as a number, above its numeral as text. */
  lemma BelowMax(lit: Bytes) returns (raw: Bytes)
    requires DigitsValue(lit) == Some(I64_LIMIT - 1)
    ensures ParseInt(raw).Some? && ParseInt(raw).value < I64_LIMIT - 1 && CmpBytes(raw, lit) > 0
  {
    FirstDigit(lit);
    DigitsBounds(lit);
    raw := [ZERO + 9, ZERO + 9];
    assert raw[..1] == [ZERO + 9];
    assert DigitsValue(raw[..1]) == Some(9);
    assert DigitsValue(raw) == Some(99);
    if lit[0] == ZERO + 9 {
      NinesTooBig(lit);
    }
  }

  lemma Pow10Values()
    ensures Pow10(17) == 100_000_000_000_000_000 && Pow10(18) == 1_000_000_000_000_000_000
  {
    assert Pow10(6) == 1_000_000;
    assert Pow10(12) == 1_000_000_000_000;
  }

  lemma ShortNumeral(s: Bytes)
    requires DigitsValue(s).Some? && |s| <= 18
    ensures DigitsValue(s).value < I64_LIMIT - 1
  {
    DigitsBounds(s);
    Pow10Values();
    Pow10Grows(|s|, 18);
  }

  lemma TwoNines(s: Bytes)
    requires DigitsValue(s).Some? && |s| >= 19 && s[0] == s[1] == ZERO + 9
    ensures DigitsValue(s).value > I64_LIMIT - 1
  {
    DigitsBounds(s);
    Pow10Values();
    Pow10Grows(17, |s| - 2);
  }

  lemma NinesTooBig(lit: Bytes)
    requires DigitsValue(lit) == Some(I64_LIMIT - 1) && lit != [] && lit[0] == ZERO + 9
    ensures |lit| >= 2 && lit[1] < ZERO + 9
  {
    FirstDigit(lit);
    if |lit| <= 18 {
      ShortNumeral(lit);
      assert false;
    }
    if lit[1] == ZERO + 9 {
      TwoNines(lit);
      assert false;
    }
  }

  /** Equality with an integer is decided right, for all integers, exactly when the path holds it canonically. */
  lemma EqualsIntIff(raw: Bytes)
    requires ParseInt(raw).Some?
    ensures (forall w | InI64(w) :: TextKeeps(Eq, raw, ShowInt(w)) <==> ParseInt(raw).value == w) <==> raw == ShowInt(ParseInt(raw).value)
  {
    var v := ParseInt(raw).value;
    if raw == ShowInt(v) {
      forall w | InI64(w) ensures TextKeeps(Eq, raw, ShowInt(w)) <==> v == w {
        ShowParses(w);
      }
    } else {
      assert InI64(v) && !TextKeeps(Eq, raw, ShowInt(v));
    }
  }

  function Zeros(k: nat): (z: Bytes)
    ensures |z| == k
  {
    seq(k, _ => ZERO)
  }

  /** An integer with `k` leading zeros after its sign. */
  function Padded(n: int, k: nat): Bytes {
    if n < 0 then [MINUS] + (Zeros(k) + Show(-n)) else Zeros(k) + Show(n)
  }

  lemma {:induction false} ZerosAddNothing(k: nat, s: Bytes)
    requires DigitsValue(s).Some?
    ensures DigitsValue(Zeros(k) + s) == DigitsValue(s)
    decreases |s|
  {
    var p := Zeros(k) + s;
    if |s| == 1 {
      assert p[..|p| - 1] == Zeros(k);
      ZerosAreZero(k);
    } else {
      assert p[..|p| - 1] == Zeros(k) + s[..|s| - 1];
      ZerosAddNothing(k, s[..|s| - 1]);
    }
  }

  lemma {:induction false} ZerosAreZero(k: nat)
    ensures k > 0 ==> DigitsValue(Zeros(k)) == Some(0)
  {
    if k > 1 {
      ZerosAreZero(k - 1);
      assert Zeros(k)[..k - 1] == Zeros(k - 1);
    }
  }

  /** However padded, an integer is pruned for equality with itself. */
  lemma PaddedIntPruned(n: int, k: nat)
    requires InI64(n) && k > 0
    ensures ParseInt(Padded(n, k)) == Some(n) && !TextKeeps(Eq, Padded(n, k), ShowInt(n))
  {
    var m: nat := if n < 0 then -n else n;
    ShowDigits(m);
    ZerosAddNothing(k, Show(m));
    if n < 0 {
      assert Padded(n, k)[1..] == Zeros(k) + Show(m);
    } else {
      assert Padded(n, k)[0] == ZERO;
    }
    assert |Padded(n, k)| == |ShowInt(n)| + k;
  }

  /** A text value '10' is below '9', yet its blob is pruned for `< '9'`. */
  lemma NumericTextPruned()
    ensures var raw, lit := [ZERO + 1, ZERO], [ZERO + 9];
            CmpBytes(raw, lit) < 0 && !TextKeeps(Lt, raw, lit)
  {
    var raw, lit := [ZERO + 1, ZERO], [ZERO + 9];
    assert raw[..1] == [ZERO + 1];
    assert DigitsValue(raw[..1]) == Some(1);
    assert ParseInt(raw) == Some(10) && ParseInt(lit) == Some(9);
  }
}
