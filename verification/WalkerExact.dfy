/**
 The soundness condition of the walk is the right one: on trees whose leaves, of any kind, can be TRUE and
 can be FALSE and look at different things, the walk loses no row exactly when `KeepsTrue` holds.
 */
module WalkerExact {
  import opened Wrappers
  import opened Pushdown
  import opened Walker

  /** How text compares under collations that are not bytewise. */
  type Collation = (PushedOp, Scalar, Scalar) -> Truth

  /** A table's column types, each given by some value of it, and how its database collates. */
  datatype World = World(types: nat -> Scalar, collated: Collation) {
    /** Every cell of the row is null or of its column's type. */
    ghost predicate Holds(v: Env) {
      v.collated == collated && forall k: nat :: v.cells(k).Null? || SameType(v.cells(k), types(k))
    }

    /** IS TRUE and IS FALSE are asked of boolean columns, as the parser sees to. */
    predicate TestsBool(e: PgExpr) {
      e.BooleanTest? && TryVar(e.o).Some? ==> types(TryVar(e.o).value).Bool?
    }
  }

  ghost predicate CanBe(e: PgExpr, t: Truth, c: World) {
    exists v: Env :: c.Holds(v) && Eval(e, v) == t
  }

  /** Trees whose leaves can be TRUE and can be FALSE on rows of the table. */
  ghost predicate Contingent(e: PgExpr, c: World) {
    match e
    case AndExpr(args) => args != [] && forall i | 0 <= i < |args| :: Contingent(args[i], c)
    case OrExpr(args) => args != [] && forall i | 0 <= i < |args| :: Contingent(args[i], c)
    case NotExpr(arg) => Contingent(arg, c)
    case RelabelExpr(arg) => Contingent(arg, c)
    case _ => c.TestsBool(e) && CanBe(e, True, c) && CanBe(e, False, c)
  }

  /** What an expression may look at: a column, a system column, or something the walker does not see into. */
  datatype Source = Column(k: nat) | System(attno: int) | Hidden(id: nat) | Unseen(id: nat)

  ghost predicate ConstMentions(c: PgConst, s: Source) {
    c.OpaqueConst? && s == Hidden(c.id)
  }

  ghost predicate OperandMentions(o: Operand, s: Source) {
    match o
    case Var(a, _, _) => s == if a >= 1 then Column(a - 1) else System(a)
    case Const(c) => ConstMentions(c, s)
    case Relabel(arg) => OperandMentions(arg, s)
    case OpaqueOperand(id) => s == Hidden(id)
  }

  ghost predicate Mentions(e: PgExpr, s: Source) {
    match e
    case Bare(o) => OperandMentions(o, s)
    case OpExpr(Known(_), l, r) => OperandMentions(l, s) || OperandMentions(r, s)
    case OpExpr(OpaqueOp(id), _, _) => s == Unseen(id)
    case LikeExpr(l, r) => OperandMentions(l, s) || OperandMentions(r, s)
    case AndExpr(args) => exists i | 0 <= i < |args| :: Mentions(args[i], s)
    case OrExpr(args) => exists i | 0 <= i < |args| :: Mentions(args[i], s)
    case NotExpr(arg) => Mentions(arg, s)
    case NullTest(_, o) => OperandMentions(o, s)
    case BooleanTest(_, o) => OperandMentions(o, s)
    case ArrayExpr(Known(_), _, l, Elements(es)) => OperandMentions(l, s) || exists i | 0 <= i < |es| :: ConstMentions(es[i], s)
    case ArrayExpr(OpaqueOp(id), _, _, _) => s == Unseen(id)
    case ArrayExpr(Known(_), _, _, OpaqueArray(id)) => s == Unseen(id)
    case RelabelExpr(arg) => Mentions(arg, s)
    case OpaqueExpr(id) => s == Unseen(id)
  }

  ghost predicate Apart(args: seq<PgExpr>) {
    forall i, j, s | 0 <= i < j < |args| :: !(Mentions(args[i], s) && Mentions(args[j], s))
  }

  /** No two leaves look at the same thing. */
  ghost predicate ReadOnce(e: PgExpr) {
    match e
    case AndExpr(args) => Apart(args) && forall i | 0 <= i < |args| :: ReadOnce(args[i])
    case OrExpr(args) => Apart(args) && forall i | 0 <= i < |args| :: ReadOnce(args[i])
    case NotExpr(arg) => ReadOnce(arg)
    case RelabelExpr(arg) => ReadOnce(arg)
    case _ => true
  }

  predicate IsLeaf(e: PgExpr) {
    !e.AndExpr? && !e.OrExpr? && !e.NotExpr? && !e.RelabelExpr?
  }

  ghost function Value(e: PgExpr, v: Env): Truth {
    Eval(e, v)
  }

  /** The pushed predicate's truth, where there is one. */
  ghost function Pushed(e: PgExpr, v: Env): Truth
    requires Walk(e).Some?
  {
    Meaning(Walk(e).value, v.cells)
  }

  // ---------- children -------------------------------------------------------------------

  ghost function Values(args: seq<PgExpr>, v: Env): (ts: seq<Truth>)
    ensures |ts| == |args| && forall i | 0 <= i < |args| :: ts[i] == Value(args[i], v)
  {
    Evals(args, v)
  }

  ghost function PushedAll(args: seq<PgExpr>, v: Env): seq<Truth> {
    Meanings(Somes(Walks(args)), v.cells)
  }

  /** Each pushed child is a child that walked, and the other way round. */
  lemma PushedFrom(args: seq<PgExpr>, v: Env, k: nat) returns (i: nat)
    requires k < |PushedAll(args, v)|
    ensures i < |args| && Walk(args[i]).Some? && PushedAll(args, v)[k] == Pushed(args[i], v)
  {
    i := SomesFrom(Walks(args), k);
  }

  lemma PushedAt(args: seq<PgExpr>, v: Env, i: nat) returns (k: nat)
    requires i < |args| && Walk(args[i]).Some?
    ensures k < |PushedAll(args, v)| && PushedAll(args, v)[k] == Pushed(args[i], v)
  {
    k := SomesIndex(Walks(args), i);
  }

  ghost predicate IsList(e: PgExpr, isAnd: bool, args: seq<PgExpr>) {
    e == if isAnd then AndExpr(args) else OrExpr(args)
  }

  ghost function Join(isAnd: bool, ts: seq<Truth>): Truth {
    if isAnd then TruthAll(ts) else TruthAny(ts)
  }

  /** A list's value and its pushed value are those of its children. */
  lemma ListTruth(e: PgExpr, isAnd: bool, args: seq<PgExpr>, v: Env)
    requires IsList(e, isAnd, args)
    ensures Value(e, v) == Join(isAnd, Values(args, v))
    ensures Walk(e).Some? ==> Pushed(e, v) == Join(isAnd, PushedAll(args, v))
    ensures Walk(e).Some? && !isAnd ==> forall i | 0 <= i < |args| :: Walk(args[i]).Some?
  {
    SomesAll(Walks(args));
    assert forall i | 0 <= i < |args| :: Walks(args)[i] == Walk(args[i]);
    if Walk(e).Some? && |Somes(Walks(args))| == 1 {
      SingleTruth(PushedAll(args, v));
    }
  }

  // ---------- leaves ----------------------------------------------------------------------------

  /** A leaf that walks is translated exactly, unless it is IS TRUE or IS FALSE. */
  lemma LeafExact(e: PgExpr, v: Env)
    requires IsLeaf(e) && Walk(e).Some? && !e.BooleanTest?
    ensures Pushed(e, v) == Value(e, v)
  {
    match e {
      case OpExpr(Known(op), l, r) => OpExact(op, l, r, v);
      case LikeExpr(l, r) => LikeExact(l, r, v);
      case ArrayExpr(Known(op), useOr, l, arr) => ArrayExact(op, useOr, l, arr, v);
      case Bare(o) => PeelKeepsValue(o, v);
      case NullTest(_, o) => PeelKeepsValue(o, v);
    }
  }

  lemma TestColumn(e: PgExpr, v: Env)
    requires e.BooleanTest? && Walk(e).Some?
    ensures TryVar(e.o).Some? && OperandMentions(e.o, Column(TryVar(e.o).value)) && OperandValue(e.o, v) == v.cells(TryVar(e.o).value)
    ensures Pushed(e, v) == CompareTruth(Eq, v.cells(TryVar(e.o).value), Bool(e.kind.IsTrue?))
  {
    PeelKeepsValue(e.o, v);
    PeelMentions(e.o);
  }

  lemma {:induction false} PeelMentions(o: Operand)
    ensures TryVar(o).Some? ==> OperandMentions(o, Column(TryVar(o).value))
  {
    match o {
      case Relabel(arg) => PeelMentions(arg);
      case _ =>
    }
  }

  // ---------- values depend on what is mentioned --------------------------------------------------

  ghost function At(v: Env, s: Source): (Scalar, Truth) {
    match s
    case Column(k) => (v.cells(k), Unknown)
    case System(a) => (v.system(a), Unknown)
    case Hidden(id) => (v.value(id), Unknown)
    case Unseen(id) => (Scalar.Null, v.truth(id))
  }

  ghost predicate AgreeOn(e: PgExpr, v: Env, w: Env) {
    v.collated == w.collated && forall s | Mentions(e, s) :: At(v, s) == At(w, s)
  }

  lemma ConstLocal(c: PgConst, v: Env, w: Env)
    requires forall s | ConstMentions(c, s) :: At(v, s) == At(w, s)
    ensures ConstValue(c, v) == ConstValue(c, w)
  {
    if c.OpaqueConst? {
      assert ConstMentions(c, Hidden(c.id));
    }
  }

  lemma {:induction false} OperandLocal(o: Operand, v: Env, w: Env)
    requires forall s | OperandMentions(o, s) :: At(v, s) == At(w, s)
    ensures OperandValue(o, v) == OperandValue(o, w)
  {
    match o {
      case Var(a, _, _) => assert OperandMentions(o, if a >= 1 then Column(a - 1) else System(a));
      case Const(c) =>
        assert forall s | ConstMentions(c, s) :: OperandMentions(o, s);
        ConstLocal(c, v, w);
      case Relabel(arg) =>
        assert forall s | OperandMentions(arg, s) :: OperandMentions(o, s);
        OperandLocal(arg, v, w);
      case OpaqueOperand(id) => assert OperandMentions(o, Hidden(id));
    }
  }

  lemma ArrayLocal(e: PgExpr, v: Env, w: Env)
    requires e.ArrayExpr? && e.op.Known? && e.arr.Elements? && AgreeOn(e, v, w)
    ensures Value(e, v) == Value(e, w)
  {
    var l, op, es := e.lhs, e.op.op, e.arr.es;
    assert forall s | OperandMentions(l, s) :: Mentions(e, s);
    OperandLocal(l, v, w);
    forall i | 0 <= i < |es| ensures ConstValue(es[i], v) == ConstValue(es[i], w) {
      assert forall s | ConstMentions(es[i], s) :: Mentions(e, s);
      ConstLocal(es[i], v, w);
    }
    if !op.IsNullTest() {
      assert seq(|es|, i requires 0 <= i < |es| => PgCompare(op, OperandValue(l, v), ConstValue(es[i], v), PlainCollation(l), v))
          == seq(|es|, i requires 0 <= i < |es| => PgCompare(op, OperandValue(l, w), ConstValue(es[i], w), PlainCollation(l), w));
    }
  }

  lemma PairLocal(e: PgExpr, l: Operand, r: Operand, v: Env, w: Env)
    requires AgreeOn(e, v, w) && forall s | OperandMentions(l, s) || OperandMentions(r, s) :: Mentions(e, s)
    ensures OperandValue(l, v) == OperandValue(l, w) && OperandValue(r, v) == OperandValue(r, w)
  {
    OperandLocal(l, v, w);
    OperandLocal(r, v, w);
  }

  lemma LeafLocal(e: PgExpr, v: Env, w: Env)
    requires IsLeaf(e) && AgreeOn(e, v, w)
    ensures Value(e, v) == Value(e, w)
  {
    hide At;
    match e {
      case Bare(o) => PairLocal(e, o, o, v, w);
      case OpExpr(Known(_), l, r) => PairLocal(e, l, r, v, w);
      case LikeExpr(l, r) => PairLocal(e, l, r, v, w);
      case NullTest(_, o) => PairLocal(e, o, o, v, w);
      case BooleanTest(_, o) => PairLocal(e, o, o, v, w);
      case ArrayExpr(Known(_), _, _, Elements(_)) => ArrayLocal(e, v, w);
      case OpExpr(OpaqueOp(id), _, _) => UnseenLocal(e, id, v, w);
      case ArrayExpr(OpaqueOp(id), _, _, _) => UnseenLocal(e, id, v, w);
      case ArrayExpr(Known(_), _, _, OpaqueArray(id)) => UnseenLocal(e, id, v, w);
      case OpaqueExpr(id) => UnseenLocal(e, id, v, w);
    }
  }

  lemma UnseenLocal(e: PgExpr, id: nat, v: Env, w: Env)
    requires AgreeOn(e, v, w) && Mentions(e, Unseen(id))
    ensures v.truth(id) == w.truth(id)
  {
    assert At(v, Unseen(id)) == At(w, Unseen(id));
  }

  /** Neither the value nor the pushed value depends on anything else. */
  lemma {:induction false} Local(e: PgExpr, v: Env, w: Env)
    requires AgreeOn(e, v, w)
    ensures Value(e, v) == Value(e, w)
    ensures Walk(e).Some? ==> Pushed(e, v) == Pushed(e, w)
    decreases e, 1
  {
    match e {
      case AndExpr(args) => LocalList(e, true, args, v, w);
      case OrExpr(args) => LocalList(e, false, args, v, w);
      case NotExpr(arg) =>
        assert forall s | Mentions(arg, s) :: Mentions(e, s);
        Local(arg, v, w);
        if Walk(arg).Some? {
          InvertNegates(Walk(arg).value, v.cells);
          InvertNegates(Walk(arg).value, w.cells);
        }
      case RelabelExpr(arg) =>
        assert forall s | Mentions(arg, s) :: Mentions(e, s);
        Local(arg, v, w);
      case _ =>
        LeafLocal(e, v, w);
        LeafPushedLocal(e, v, w);
    }
  }

  lemma LeafPushedLocal(e: PgExpr, v: Env, w: Env)
    requires IsLeaf(e) && AgreeOn(e, v, w) && Value(e, v) == Value(e, w)
    ensures Walk(e).Some? ==> Pushed(e, v) == Pushed(e, w)
  {
    hide Walk, Meaning, Eval;
    if Walk(e).Some? {
      if e.BooleanTest? {
        TestColumn(e, v);
        TestColumn(e, w);
        assert Mentions(e, Column(TryVar(e.o).value));
        assert At(v, Column(TryVar(e.o).value)) == At(w, Column(TryVar(e.o).value));
      } else {
        LeafExact(e, v);
        LeafExact(e, w);
      }
    }
  }

  lemma {:induction false} LocalList(e: PgExpr, isAnd: bool, args: seq<PgExpr>, v: Env, w: Env)
    requires IsList(e, isAnd, args) && AgreeOn(e, v, w)
    ensures Value(e, v) == Value(e, w)
    ensures Walk(e).Some? ==> Pushed(e, v) == Pushed(e, w)
    decreases e, 0
  {
    ListTruth(e, isAnd, args, v);
    ListTruth(e, isAnd, args, w);
    forall i | 0 <= i < |args|
      ensures Value(args[i], v) == Value(args[i], w)
      ensures Walk(args[i]).Some? ==> Pushed(args[i], v) == Pushed(args[i], w)
    {
      assert forall s | Mentions(args[i], s) :: Mentions(e, s);
      Local(args[i], v, w);
    }
    assert Values(args, v) == Values(args, w);
    forall k | 0 <= k < |PushedAll(args, v)| ensures PushedAll(args, v)[k] == PushedAll(args, w)[k] {
      var i := SomesFrom(Walks(args), k);
    }
    assert PushedAll(args, v) == PushedAll(args, w);
  }

  /** `w` on what `e` mentions, `v` elsewhere. */
  ghost function Override(v: Env, w: Env, e: PgExpr): Env {
    Env((k: nat) => if Mentions(e, Column(k)) then w.cells(k) else v.cells(k),
        a => if Mentions(e, System(a)) then w.system(a) else v.system(a),
        (id: nat) => if Mentions(e, Hidden(id)) then w.value(id) else v.value(id),
        (id: nat) => if Mentions(e, Unseen(id)) then w.truth(id) else v.truth(id),
        v.collated)
  }

  lemma OverrideAt(v: Env, w: Env, e: PgExpr, s: Source)
    ensures At(Override(v, w, e), s) == if Mentions(e, s) then At(w, s) else At(v, s)
  {
  }

  lemma OverrideOwn(v: Env, w: Env, e: PgExpr)
    requires v.collated == w.collated
    ensures AgreeOn(e, Override(v, w, e), w)
  {
    forall s | Mentions(e, s) ensures At(Override(v, w, e), s) == At(w, s) {
      OverrideAt(v, w, e, s);
    }
  }

  lemma OverrideOther(v: Env, w: Env, args: seq<PgExpr>, i: nat, j: nat)
    requires i < |args| && j < |args| && i != j && Apart(args)
    ensures AgreeOn(args[i], Override(v, w, args[j]), v)
  {
    forall s | Mentions(args[i], s) ensures At(Override(v, w, args[j]), s) == At(v, s) {
      OverrideAt(v, w, args[j], s);
      assert !(Mentions(args[i], s) && Mentions(args[j], s));
    }
  }

  // ---------- every pair of values that matters can be reached -----------------------------------

  /** The qual and, where it walks, its pushed predicate both have value `t`. */
  ghost predicate BothAre(e: PgExpr, v: Env, t: Truth) {
    Value(e, v) == t && (Walk(e).Some? ==> Pushed(e, v) == t)
  }

  /** The qual has value `t` and its pushed predicate has not. */
  ghost predicate Differs(e: PgExpr, v: Env, t: Truth) {
    Walk(e).Some? && Value(e, v) == t && Pushed(e, v) != t
  }

  /** The walk keeps `t`, which is TRUE or FALSE. */
  ghost predicate Keeps(e: PgExpr, t: Truth) {
    if t == True then KeepsTrue(e) else KeepsFalse(e)
  }

  /** What to aim for: both values `t`, or, where the walk does not keep `t`, a difference. */
  datatype Aim = Both(t: Truth) | Miss(t: Truth) {
    ghost predicate Possible(e: PgExpr) {
      t != Unknown && (Miss? ==> Walk(e).Some? && !Keeps(e, t))
    }

    ghost predicate Hit(e: PgExpr, v: Env) {
      if Both? then BothAre(e, v, t) else Differs(e, v, t)
    }
  }

  lemma ReachLeaf(e: PgExpr, aim: Aim, c: World) returns (v: Env)
    requires IsLeaf(e) && Contingent(e, c) && aim.Possible(e)
    ensures c.Holds(v) && aim.Hit(e, v)
  {
    hide Walk, Meaning, Eval;
    if e.BooleanTest? && Walk(e).Some? {
      v := ReachTest(e, aim, c);
    } else {
      assert aim.Both? by {
        LeafKeeps(e);
      }
      assert CanBe(e, aim.t, c);
      v :| c.Holds(v) && Eval(e, v) == aim.t;
      if Walk(e).Some? {
        LeafExact(e, v);
      }
    }
  }

  lemma LeafKeeps(e: PgExpr)
    requires IsLeaf(e) && !(e.BooleanTest? && Walk(e).Some?)
    ensures KeepsTrue(e) && KeepsFalse(e)
  {
  }

  /** IS TRUE and IS FALSE are missed at a null. */
  lemma ReachTest(e: PgExpr, aim: Aim, c: World) returns (v: Env)
    requires e.BooleanTest? && Walk(e).Some? && c.TestsBool(e) && aim.Possible(e)
    ensures c.Holds(v) && aim.Hit(e, v)
  {
    var cell := if aim.Miss? then Scalar.Null else Bool((aim.t == True) == e.kind.IsTrue?);
    var at := TryVar(e.o);
    v := Env((k: nat) => if at == Some(k) then cell else Scalar.Null, _ => Scalar.Null, _ => Scalar.Null, _ => False, c.collated);
    TestColumn(e, v);
  }

  /** Every aim that the tree allows is reached by some row. */
  lemma {:induction false} Reach(e: PgExpr, aim: Aim, c: World) returns (v: Env)
    requires Contingent(e, c) && ReadOnce(e) && aim.Possible(e)
    ensures c.Holds(v) && aim.Hit(e, v)
    decreases e, 2
  {
    match e {
      case AndExpr(args) => v := ReachList(e, true, args, aim, c);
      case OrExpr(args) => v := ReachList(e, false, args, aim, c);
      case NotExpr(arg) =>
        v := Reach(arg, aim.(t := TruthNot(aim.t)), c);
        if Walk(arg).Some? {
          InvertNegates(Walk(arg).value, v.cells);
        }
      case RelabelExpr(arg) => v := Reach(arg, aim, c);
      case _ => v := ReachLeaf(e, aim, c);
    }
  }

  /** One environment under which the first `n` children all have value `t`. */
  lemma {:induction false} ReachAll(e: PgExpr, isAnd: bool, args: seq<PgExpr>, t: Truth, n: nat, c: World) returns (v: Env)
    requires IsList(e, isAnd, args) && Contingent(e, c) && ReadOnce(e) && t != Unknown && n <= |args|
    ensures c.Holds(v) && forall i | 0 <= i < n :: BothAre(args[i], v, t)
    decreases e, 0, n
  {
    hide Walk, Eval;
    if n == 0 {
      v := Env(_ => Scalar.Null, _ => Scalar.Null, _ => Scalar.Null, _ => False, c.collated);
    } else {
      var before := ReachAll(e, isAnd, args, t, n - 1, c);
      var w := Reach(args[n - 1], Both(t), c);
      v := Override(before, w, args[n - 1]);
      OverrideOwn(before, w, args[n - 1]);
      Local(args[n - 1], v, w);
      forall i | 0 <= i < n - 1 ensures BothAre(args[i], v, t) {
        OverrideOther(before, w, args, i, n - 1);
        Local(args[i], v, before);
      }
    }
  }

  /** Child `j` as under `w`, all the others with value `t`. */
  lemma ReachBut(e: PgExpr, isAnd: bool, args: seq<PgExpr>, t: Truth, j: nat, w: Env, c: World) returns (v: Env)
    requires IsList(e, isAnd, args) && Contingent(e, c) && ReadOnce(e) && t != Unknown && j < |args| && c.Holds(w)
    ensures c.Holds(v) && forall i | 0 <= i < |args| && i != j :: BothAre(args[i], v, t)
    ensures Value(args[j], v) == Value(args[j], w) && (Walk(args[j]).Some? ==> Pushed(args[j], v) == Pushed(args[j], w))
    decreases e, 0, |args| + 1
  {
    var all := ReachAll(e, isAnd, args, t, |args|, c);
    v := Override(all, w, args[j]);
    OverrideOwn(all, w, args[j]);
    Local(args[j], v, w);
    forall i | 0 <= i < |args| && i != j ensures BothAre(args[i], v, t) {
      OverrideOther(all, w, args, i, j);
      Local(args[i], v, all);
    }
  }

  /** What a list comes to when every child but `j` has the neutral value. */
  lemma OddChild(e: PgExpr, isAnd: bool, args: seq<PgExpr>, j: nat, v: Env)
    requires IsList(e, isAnd, args) && j < |args|
    requires forall i | 0 <= i < |args| && i != j :: BothAre(args[i], v, Of(isAnd))
    ensures Value(e, v) == Value(args[j], v)
    ensures Walk(e).Some? ==> Pushed(e, v) == if Walk(args[j]).Some? then Pushed(args[j], v) else Of(isAnd)
  {
    ListTruth(e, isAnd, args, v);
    assert Values(args, v)[j] == Value(args[j], v);
    if Walk(e).Some? {
      forall k | 0 <= k < |PushedAll(args, v)|
        ensures PushedAll(args, v)[k] == Of(isAnd) || (Walk(args[j]).Some? && PushedAll(args, v)[k] == Pushed(args[j], v))
      {
        var i := PushedFrom(args, v, k);
      }
      if Walk(args[j]).Some? {
        var k := PushedAt(args, v, j);
      }
    }
  }

  /** The child that decides: one that walks if any does, and for a miss one to blame. */
  ghost predicate Decides(e: PgExpr, isAnd: bool, args: seq<PgExpr>, aim: Aim, j: nat) {
    && j < |args|
    && if aim.Both? then Walk(e).Some? ==> Walk(args[j]).Some?
       else if Walk(args[j]).Some? then !Keeps(args[j], aim.t) else isAnd && aim.t == False
  }

  lemma FindChild(e: PgExpr, isAnd: bool, args: seq<PgExpr>, aim: Aim) returns (j: nat)
    requires IsList(e, isAnd, args) && args != [] && aim.Possible(e)
    ensures Decides(e, isAnd, args, aim, j)
  {
    if aim.Both? {
      if Walk(e).Some? {
        WalkReaches(args);
        j :| 0 <= j < |args| && Walk(args[j]).Some?;
      } else {
        j := 0;
      }
    } else {
      WalkReaches(args);
      j :| 0 <= j < |args| && (if Walk(args[j]).Some? then !Keeps(args[j], aim.t) else isAnd && aim.t == False);
    }
  }

  lemma {:induction false} ReachList(e: PgExpr, isAnd: bool, args: seq<PgExpr>, aim: Aim, c: World) returns (v: Env)
    requires IsList(e, isAnd, args) && Contingent(e, c) && ReadOnce(e) && aim.Possible(e)
    ensures c.Holds(v) && aim.Hit(e, v)
    decreases e, 1
  {
    var j := FindChild(e, isAnd, args, aim);
    var w := Reach(args[j], if aim.Miss? && Walk(args[j]).Some? then aim else Both(aim.t), c);
    v := ReachBut(e, isAnd, args, Of(isAnd), j, w, c);
    OddChild(e, isAnd, args, j, v);
  }

  /** No row of the table is lost. */
  ghost predicate LosesNoRowOf(e: PgExpr, c: World) {
    forall env: Env | c.Holds(env) :: !Loses(e, env)
  }

  /** On such trees the walk loses no row of the table, and no row at all, if and only if it keeps TRUE. */
  lemma WalkSoundIff(e: PgExpr, c: World)
    requires Contingent(e, c) && ReadOnce(e) && Walk(e).Some?
    ensures LosesNoRowOf(e, c) <==> KeepsTrue(e)
    ensures LosesNoRow(e) <==> KeepsTrue(e)
  {
    if KeepsTrue(e) {
      forall env: Env ensures !Loses(e, env) {
        WalkSound(e, env);
      }
    } else {
      var v := Reach(e, Miss(True), c);
      assert Loses(e, v);
    }
  }

  // ---------- such leaves ------------------------------------------------------------------------

  /** Column `k` holds `s`, and everything else nothing. */
  ghost function OneCell(k: nat, s: Scalar, c: World): Env {
    Env((j: nat) => if j == k then s else Scalar.Null, _ => Scalar.Null, _ => Scalar.Null, _ => False, c.collated)
  }

  /** A comparison of an integer column with a number, by any operator of the pushable table, can go both ways. */
  lemma ComparisonContingent(op: PushedOp, k: nat, n: int, c: World)
    requires !op.IsNullTest() && c.types(k).I64?
    ensures Contingent(OpExpr(Known(op), Var(k + 1, false, true), Const(Literal(I64(n)))), c)
  {
    var e := OpExpr(Known(op), Var(k + 1, false, true), Const(Literal(I64(n))));
    var low, same, high := OneCell(k, I64(n - 1), c), OneCell(k, I64(n), c), OneCell(k, I64(n + 1), c);
    assert c.Holds(low) && c.Holds(same) && c.Holds(high);
    assert Eval(e, low) == Of(Asks(op, -1)) && Eval(e, same) == Of(Asks(op, 0)) && Eval(e, high) == Of(Asks(op, 1));
  }

  /** So can a null test of any column, and an expression the walker does not see into. */
  lemma OtherContingent(isNull: bool, k: nat, id: nat, c: World)
    requires !c.types(k).Null?
    ensures Contingent(NullTest(isNull, Var(k + 1, false, true)), c) && Contingent(OpaqueExpr(id), c)
  {
    var test := NullTest(isNull, Var(k + 1, false, true));
    var empty, some := OneCell(k, Scalar.Null, c), OneCell(k, c.types(k), c);
    assert SameType(c.types(k), c.types(k));
    assert c.Holds(empty) && c.Holds(some) && c.Holds(some.(truth := _ => True));
    assert Eval(test, empty) == Of(isNull) && Eval(test, some) == Of(!isNull);
    assert Eval(OpaqueExpr(id), some) == False && Eval(OpaqueExpr(id), some.(truth := _ => True)) == True;
  }

  /** So can IS TRUE and IS FALSE of a boolean column. */
  lemma TestContingent(isTrue: bool, k: nat, c: World)
    requires c.types(k).Bool?
    ensures Contingent(BooleanTest(if isTrue then IsTrue else IsFalse, Var(k + 1, true, true)), c)
  {
    var e := BooleanTest(if isTrue then IsTrue else IsFalse, Var(k + 1, true, true));
    var yes, no := OneCell(k, Bool(isTrue), c), OneCell(k, Bool(!isTrue), c);
    assert c.Holds(yes) && c.Holds(no);
    assert Eval(e, yes) == True && Eval(e, no) == False;
  }
}
