// Splitting a WHERE into a storage predicate and a residual, and what the
// split means for each row under SQL's three-valued logic.
module Lowering {
  import opened Options
  import opened Bytes
  import opened Predicates

  datatype Literal = IntValue(v: int) | TextValue(t: seq<Byte>) | Nil | OtherValue

  datatype CompareOp = Eq | Ne | Lt | Le | Gt | Ge

  // negated is read on IN only. Opaque stands for every node this model does not interpret.
  datatype Expr =
    | ColumnRef(name: string)
    | Lit(lit: Literal)
    | Compare(op: CompareOp, args: seq<Expr>)
    | AndOp(args: seq<Expr>)
    | OrOp(args: seq<Expr>)
    | NotOp(args: seq<Expr>)
    | Between(args: seq<Expr>)
    | In(args: seq<Expr>, negated: bool)
    | Opaque(id: nat)

  datatype Truth = True | False | Unknown

  // ----- the row evaluator -----

  function AndTruth(a: Truth, b: Truth): Truth {
    if a == False || b == False then False else if a == True && b == True then True else Unknown
  }

  function OrTruth(a: Truth, b: Truth): Truth {
    if a == True || b == True then True else if a == False && b == False then False else Unknown
  }

  function NotTruth(a: Truth): Truth {
    match a
    case True => False
    case False => True
    case Unknown => Unknown
  }

  function FromBool(b: bool): Truth { if b then True else False }

  function Value(b: Batch, col: string, r: nat): Literal
    requires Predicates.ValidBatch(b) && r < b.rows
  {
    if col !in b.cols then Nil
    else
      match b.cols[col]
      case Ints(v) => if v[r].Some? then IntValue(v[r].value) else Nil
      case Texts(v) => if v[r].Some? then TextValue(v[r].value) else Nil
  }

  // The sign of the ordering of two values, or nothing when one is null or their types differ.
  function Order(x: Literal, y: Literal): Option<int> {
    match (x, y)
    case (IntValue(a), IntValue(b)) => Some(if a < b then -1 else if a > b then 1 else 0)
    case (TextValue(a), TextValue(b)) => Some(if LexLess(a, b) then -1 else if LexLess(b, a) then 1 else 0)
    case _ => None
  }

  function CompareValues(op: CompareOp, x: Literal, y: Literal): Truth {
    match Order(x, y)
    case None => Unknown
    case Some(c) =>
      match op
      case Eq => FromBool(c == 0)
      case Ne => FromBool(c != 0)
      case Lt => FromBool(c < 0)
      case Le => FromBool(c <= 0)
      case Gt => FromBool(c > 0)
      case Ge => FromBool(c >= 0)
  }

  predicate IsOperand(e: Expr) { e.ColumnRef? || e.Lit? }

  function Operand(e: Expr, b: Batch, r: nat): Literal
    requires Predicates.ValidBatch(b) && r < b.rows && IsOperand(e)
  {
    if e.ColumnRef? then Value(b, e.name, r) else e.lit
  }

  predicate Operands(args: seq<Expr>) {
    forall i :: 0 <= i < |args| ==> IsOperand(args[i])
  }

  predicate Member(x: Literal, set_: seq<Expr>, b: Batch, r: nat)
    requires Predicates.ValidBatch(b) && r < b.rows && Operands(set_)
  {
    exists i :: 0 <= i < |set_| && CompareValues(Eq, x, Operand(set_[i], b, r)) == True
  }

  // The value of a WHERE on one row; other gives the value of uninterpreted nodes.
  function Eval(e: Expr, b: Batch, r: nat, other: Expr -> Truth): Truth
    requires Predicates.ValidBatch(b) && r < b.rows
  {
    match e
    case AndOp(args) =>
      if |args| == 2 then AndTruth(Eval(args[0], b, r, other), Eval(args[1], b, r, other)) else other(e)
    case OrOp(args) =>
      if |args| == 2 then OrTruth(Eval(args[0], b, r, other), Eval(args[1], b, r, other)) else other(e)
    case NotOp(args) =>
      if |args| == 1 then NotTruth(Eval(args[0], b, r, other)) else other(e)
    case Compare(op, args) =>
      if |args| == 2 && Operands(args) then CompareValues(op, Operand(args[0], b, r), Operand(args[1], b, r)) else other(e)
    case Between(args) =>
      if |args| == 3 && Operands(args) then
        var x := Operand(args[0], b, r);
        var lo := CompareValues(Ge, x, Operand(args[1], b, r));
        var hi := CompareValues(Le, x, Operand(args[2], b, r));
        if lo == Unknown || hi == Unknown then Unknown else AndTruth(lo, hi)
      else other(e)
    case In(args, negated) =>
      if |args| >= 1 && Operands(args) then
        var x := Operand(args[0], b, r);
        if x == Nil then Unknown
        else if Member(x, args[1..], b, r) then FromBool(!negated) else FromBool(negated)
      else other(e)
    case _ => other(e)
  }

  // ----- lowering -----

  function Swapped(op: CompareOp): CompareOp {
    match op
    case Lt => Gt
    case Gt => Lt
    case Le => Ge
    case Ge => Le
    case _ => op
  }

  function LowerCompare(op0: CompareOp, l: Expr, r: Expr): (p: Option<Pred>) {
    var swap := l.Lit? && r.ColumnRef?;
    var (col, lit, op) := if swap then (r, l, Swapped(op0)) else (l, r, op0);
    if !col.ColumnRef? || !lit.Lit? then None
    else
      match lit.lit
      case IntValue(v) => LowerInt(op, col.name, v)
      case TextValue(t) => LowerText(op, col.name, t)
      case _ => None
  }

  // <= and >= become strict comparisons with the neighbouring value, which the
  // largest and the smallest int64 do not have.
  function LowerInt(op: CompareOp, col: string, v: int): (p: Option<Pred>) {
    match op
    case Eq => Some(EqInt(col, v))
    case Ne => Some(Not(EqInt(col, v)))
    case Lt => Some(LtInt(col, v))
    case Gt => Some(GtInt(col, v))
    case Le => if v == INT64_MAX then None else Some(LtInt(col, v + 1))
    case Ge => if v == INT64_MIN then None else Some(GtInt(col, v - 1))
  }

  function LowerText(op: CompareOp, col: string, t: seq<Byte>): (p: Option<Pred>) {
    match op
    case Eq => Some(EqText(col, t))
    case Ne => None
    case Lt => Some(LtText(col, t, false))
    case Le => Some(LtText(col, t, true))
    case Gt => Some(GtText(col, t, false))
    case Ge => Some(GtText(col, t, true))
  }

  // One equality a literal, or nothing when some element is not an integer or text literal.
  function LowerSet(col: string, set_: seq<Expr>): (ps: Option<seq<Pred>>)
    ensures ps.Some? ==> |ps.value| == |set_|
  {
    if set_ == [] then Some([])
    else
      var n := |set_| - 1;
      match LowerSet(col, set_[..n])
      case None => None
      case Some(front) =>
        if !set_[n].Lit? then None
        else
          match set_[n].lit
          case IntValue(v) => Some(front + [EqInt(col, v)])
          case TextValue(t) => Some(front + [EqText(col, t)])
          case _ => None
  }

  function Lower(e: Expr): (p: Option<Pred>) {
    match e
    case AndOp(args) =>
      if |args| != 2 || Lower(args[0]).None? || Lower(args[1]).None? then None
      else Some(And([Lower(args[0]).value, Lower(args[1]).value]))
    case OrOp(args) =>
      if |args| != 2 || Lower(args[0]).None? || Lower(args[1]).None? then None
      else Some(Or([Lower(args[0]).value, Lower(args[1]).value]))
    case NotOp(args) =>
      if |args| != 1 || Lower(args[0]).None? then None else Some(Not(Lower(args[0]).value))
    case Compare(op, args) =>
      if |args| != 2 then None else LowerCompare(op, args[0], args[1])
    case Between(args) =>
      if |args| != 3 || !args[0].ColumnRef? then None
      else
        var ge, le := LowerCompare(Ge, args[0], args[1]), LowerCompare(Le, args[0], args[2]);
        if ge.None? || le.None? then None else Some(And([ge.value, le.value]))
    case In(args, negated) =>
      if |args| < 2 || !args[0].ColumnRef? then None
      else
        var ps := LowerSet(args[0].name, args[1..]);
        if ps.None? then None
        else
          var p := if |ps.value| == 1 then ps.value[0] else Or(ps.value);
          Some(if negated then Not(p) else p)
    case _ => None
  }

  // The loop over an IN list.
  method LowerInList(col: string, set_: seq<Expr>) returns (ps: Option<seq<Pred>>)
    ensures ps == LowerSet(col, set_)
  {
    var preds: seq<Pred> := [];
    for i := 0 to |set_|
      invariant LowerSet(col, set_[..i]) == Some(preds)
    {
      assert set_[..i + 1][..i] == set_[..i];
      if !set_[i].Lit? {
        LowerSetStops(col, set_, i + 1);
        return None;
      }
      match set_[i].lit {
        case IntValue(v) => preds := preds + [EqInt(col, v)];
        case TextValue(t) => preds := preds + [EqText(col, t)];
        case _ =>
          LowerSetStops(col, set_, i + 1);
          return None;
      }
    }
    assert set_[..|set_|] == set_;
    ps := Some(preds);
  }

  lemma {:induction false} LowerSetStops(col: string, set_: seq<Expr>, n: nat)
    requires n <= |set_| && LowerSet(col, set_[..n]).None?
    ensures LowerSet(col, set_).None?
  {
    if n == |set_| {
      assert set_[..n] == set_;
    } else {
      assert set_[..|set_| - 1][..n] == set_[..n];
      LowerSetStops(col, set_[..|set_| - 1], n);
    }
  }

  // ----- splitting -----

  // The conjuncts of a WHERE, in order.
  function Conjuncts(e: Expr): (cs: seq<Expr>)
    ensures cs != []
  {
    if e.AndOp? && |e.args| == 2 then Conjuncts(e.args[0]) + Conjuncts(e.args[1]) else [e]
  }

  function Pushable(cs: seq<Expr>): (ps: seq<Pred>) {
    if cs == [] then []
    else
      var n := |cs| - 1;
      Pushable(cs[..n]) + if Lower(cs[n]).Some? then [Lower(cs[n]).value] else []
  }

  function Residual(cs: seq<Expr>): (rs: seq<Expr>) {
    if cs == [] then []
    else
      var n := |cs| - 1;
      Residual(cs[..n]) + if Lower(cs[n]).Some? then [] else [cs[n]]
  }

  lemma SplitStep(cs: seq<Expr>, e: Expr)
    ensures Pushable(cs + [e]) == Pushable(cs) + if Lower(e).Some? then [Lower(e).value] else []
    ensures Residual(cs + [e]) == Residual(cs) + if Lower(e).Some? then [] else [e]
  {
    hide Lower;
    assert (cs + [e])[..|cs|] == cs;
  }

  function Push(ps: seq<Pred>): Option<Pred> {
    if ps == [] then None else if |ps| == 1 then Some(ps[0]) else Some(And(ps))
  }

  function Conjoin(rs: seq<Expr>): Expr
    requires rs != []
  {
    if |rs| == 1 then rs[0] else AndOp([Conjoin(rs[..|rs| - 1]), rs[|rs| - 1]])
  }

  class WhereSplitter {
    var pushable: seq<Pred>
    var residual: seq<Expr>
    ghost var walked: seq<Expr>

    ghost predicate Valid()
      reads this
    {
      pushable == Pushable(walked) && residual == Residual(walked)
    }

    constructor ()
      ensures Valid() && walked == []
    {
      pushable, residual, walked := [], [], [];
    }

    method Walk(e: Expr)
      requires Valid()
      modifies this
      ensures Valid() && walked == old(walked) + Conjuncts(e)
      decreases e
    {
      hide Lower, Pushable, Residual;
      if e.AndOp? && |e.args| == 2 {
        Walk(e.args[0]);
        Walk(e.args[1]);
        return;
      }
      SplitStep(walked, e);
      walked := walked + [e];
      var p := Lower(e);
      if p.Some? {
        pushable := pushable + [p.value];
        return;
      }
      residual := residual + [e];
    }
  }

  method SplitWhere(e: Expr) returns (push: Option<Pred>, res: Option<Expr>)
    ensures push == Push(Pushable(Conjuncts(e)))
    ensures res == if Residual(Conjuncts(e)) == [] then None else Some(Conjoin(Residual(Conjuncts(e))))
  {
    hide Lower, Pushable, Residual, Conjuncts;
    var w := new WhereSplitter();
    w.Walk(e);
    assert w.walked == Conjuncts(e);
    push := if |w.pushable| == 0 then None else if |w.pushable| == 1 then Some(w.pushable[0]) else Some(And(w.pushable));
    if |w.residual| == 0 {
      return push, None;
    }
    var r := w.residual[0];
    assert w.residual[..1] == [w.residual[0]];
    for i := 1 to |w.residual|
      invariant r == Conjoin(w.residual[..i])
      invariant w.residual == Residual(Conjuncts(e)) && w.pushable == Pushable(Conjuncts(e))
    {
      assert w.residual[..i + 1][..i] == w.residual[..i];
      r := AndOp([r, w.residual[i]]);
    }
    assert w.residual[..|w.residual|] == w.residual;
    res := Some(r);
  }

  // ----- what lowering preserves -----

  // A definite truth value is reproduced; nothing is said of an unknown one.
  ghost predicate Agrees(p: Pred, t: Truth, b: Batch, r: nat)
    requires Predicates.ValidBatch(b) && r < b.rows
  {
    (t == True ==> Selects(p, b, r)) && (t == False ==> !Selects(p, b, r))
  }

  lemma IntLeaf(p: Pred, b: Batch, r: nat)
    requires Predicates.ValidBatch(b) && r < b.rows && (p.EqInt? || p.LtInt? || p.GtInt?)
    ensures var x := Value(b, p.col, r);
      Selects(p, b, r) <==> x.IntValue? && IntMatches(p, x.v)
  {
  }

  lemma TextLeaf(p: Pred, b: Batch, r: nat)
    requires Predicates.ValidBatch(b) && r < b.rows && (p.EqText? || p.LtText? || p.GtText?)
    ensures var x := Value(b, p.col, r);
      Selects(p, b, r) <==> x.TextValue? && TextMatches(p, x.t)
  {
  }

  lemma NotSelects(p: Pred, b: Batch, r: nat)
    requires Predicates.ValidBatch(b) && r < b.rows
    ensures Selects(Not(p), b, r) <==> !Selects(p, b, r)
  {
  }

  lemma PairSelects(p: Pred, q: Pred, b: Batch, r: nat)
    requires Predicates.ValidBatch(b) && r < b.rows
    ensures Selects(And([p, q]), b, r) <==> Selects(p, b, r) && Selects(q, b, r)
    ensures Selects(Or([p, q]), b, r) <==> Selects(p, b, r) || Selects(q, b, r)
  {
    var kids := [p, q];
    assert kids[0] == p && kids[1] == q;
    assert forall k :: 0 <= k < 2 ==> Selects(kids[k], b, r) == Selects(if k == 0 then p else q, b, r);
  }

  // Selecting by the lowered comparison is comparing, whenever the column has a
  // value; a null column is selected by a lowered <> only.
  lemma IntCompareExact(op: CompareOp, col: string, v: int, b: Batch, r: nat)
    requires Predicates.ValidBatch(b) && r < b.rows && LowerInt(op, col, v).Some?
    ensures var x := Value(b, col, r);
      Selects(LowerInt(op, col, v).value, b, r) == if x.IntValue? then CompareValues(op, x, IntValue(v)) == True else op == Ne
    ensures var x := Value(b, col, r);
      x.IntValue? ==> (Selects(LowerInt(op, col, v).value, b, r) <==>
        match op case Eq => x.v == v case Ne => x.v != v case Lt => x.v < v case Le => x.v <= v case Gt => x.v > v case Ge => x.v >= v)
  {
    hide Selects;
    match op {
      case Ne => NotSelects(EqInt(col, v), b, r); IntLeaf(EqInt(col, v), b, r);
      case _ => IntLeaf(LowerInt(op, col, v).value, b, r);
    }
  }

  lemma TextCompareExact(op: CompareOp, col: string, t: seq<Byte>, b: Batch, r: nat)
    requires Predicates.ValidBatch(b) && r < b.rows && LowerText(op, col, t).Some?
    ensures var x := Value(b, col, r);
      Selects(LowerText(op, col, t).value, b, r) <==> x.TextValue? && CompareValues(op, x, TextValue(t)) == True
    ensures var x := Value(b, col, r);
      Selects(LowerText(op, col, t).value, b, r) <==>
        x.TextValue? && ((x.t == t && op in {Eq, Le, Ge}) || (IsBelow(x.t, t) && op in {Lt, Le}) || (IsBelow(t, x.t) && op in {Gt, Ge}))
  {
    hide Selects, LexLess, IsBelow;
    TextLeaf(LowerText(op, col, t).value, b, r);
    var x := Value(b, col, r);
    if x.TextValue? {
      LexTotal(x.t, t);
      LexLessIs(x.t, t);
      LexLessIs(t, x.t);
    }
  }

  lemma SwapCompares(op: CompareOp, x: Literal, y: Literal)
    ensures CompareValues(op, x, y) == CompareValues(Swapped(op), y, x)
  {
    if x.TextValue? && y.TextValue? { LexTotal(x.t, y.t); }
  }

  // Which comparisons are lowered: with an integer all but those whose shifted
  // literal would leave int64, with a text all but <>, with anything else none.
  lemma CompareLowers(op: CompareOp, col: string, lit: Literal, literalFirst: bool)
    ensures Lower(Comparison(op, col, lit, literalFirst)).Some? <==>
      match lit
      case IntValue(v) =>
        && (v == INT64_MAX ==> op != if literalFirst then Ge else Le)
        && (v == INT64_MIN ==> op != if literalFirst then Le else Ge)
      case TextValue(_) => op != Ne
      case _ => false
  {
  }

  // And an IN list: when it has members, all of them integer or text literals.
  lemma {:induction false} InLowers(col: string, set_: seq<Expr>, negated: bool)
    ensures Lower(In([ColumnRef(col)] + set_, negated)).Some? <==>
      set_ != [] && forall i :: 0 <= i < |set_| ==> set_[i].Lit? && (set_[i].lit.IntValue? || set_[i].lit.TextValue?)
  {
    assert ([ColumnRef(col)] + set_)[1..] == set_;
    SetLowers(col, set_);
  }

  lemma {:induction false} SetLowers(col: string, set_: seq<Expr>)
    ensures LowerSet(col, set_).Some? <==> forall i :: 0 <= i < |set_| ==> set_[i].Lit? && (set_[i].lit.IntValue? || set_[i].lit.TextValue?)
  {
    if set_ != [] {
      var n := |set_| - 1;
      SetLowers(col, set_[..n]);
      assert forall i :: 0 <= i < n ==> set_[..n][i] == set_[i];
    }
  }

  lemma CompareSound(op: CompareOp, l: Expr, e: Expr, b: Batch, r: nat)
    requires Predicates.ValidBatch(b) && r < b.rows && LowerCompare(op, l, e).Some?
    ensures IsOperand(l) && IsOperand(e)
    ensures Agrees(LowerCompare(op, l, e).value, CompareValues(op, Operand(l, b, r), Operand(e, b, r)), b, r)
  {
    hide Selects, CompareValues, LexLess, Value;
    var swap := l.Lit? && e.ColumnRef?;
    var (col, lit, o) := if swap then (e, l, Swapped(op)) else (l, e, op);
    if swap { SwapCompares(op, Operand(l, b, r), Operand(e, b, r)); }
    MismatchUnknown(o, Value(b, col.name, r), lit.lit);
    match lit.lit {
      case IntValue(v) => IntCompareExact(o, col.name, v, b, r);
      case TextValue(t) => TextCompareExact(o, col.name, t, b, r);
      case _ =>
    }
  }

  lemma MismatchUnknown(op: CompareOp, x: Literal, y: Literal)
    ensures y.IntValue? && !x.IntValue? ==> CompareValues(op, x, y) == Unknown
    ensures y.TextValue? && !x.TextValue? ==> CompareValues(op, x, y) == Unknown
    ensures (x.IntValue? && y.IntValue?) || (x.TextValue? && y.TextValue?) ==> CompareValues(op, x, y) != Unknown
  {
  }

  lemma {:induction false} SetSound(col: string, set_: seq<Expr>, b: Batch, r: nat)
    requires Predicates.ValidBatch(b) && r < b.rows && LowerSet(col, set_).Some?
    ensures Operands(set_)
    ensures (exists k :: 0 <= k < |set_| && Selects(LowerSet(col, set_).value[k], b, r)) <==> Member(Value(b, col, r), set_, b, r)
  {
    hide Selects, CompareValues, Value;
    if set_ != [] {
      var n := |set_| - 1;
      SetSound(col, set_[..n], b, r);
      var ps := LowerSet(col, set_).value;
      assert ps[..n] == LowerSet(col, set_[..n]).value;
      assert set_ == set_[..n] + [set_[n]];
      var x := Value(b, col, r);
      assert Member(x, set_, b, r) <==> Member(x, set_[..n], b, r) || CompareValues(Eq, x, set_[n].lit) == True by {
        assert forall i :: 0 <= i < n ==> set_[..n][i] == set_[i];
      }
      MismatchUnknown(Eq, x, set_[n].lit);
      match set_[n].lit {
        case IntValue(v) => IntCompareExact(Eq, col, v, b, r);
        case TextValue(t) => TextCompareExact(Eq, col, t, b, r);
        case _ =>
      }
      assert (exists k :: 0 <= k < |set_| && Selects(ps[k], b, r)) == ((exists k :: 0 <= k < n && Selects(ps[..n][k], b, r)) || Selects(ps[n], b, r));
    }
  }

  function InPred(ps: seq<Pred>, negated: bool): Pred
    requires ps != []
  {
    var p := if |ps| == 1 then ps[0] else Or(ps);
    if negated then Not(p) else p
  }

  lemma InSelects(ps: seq<Pred>, negated: bool, b: Batch, r: nat)
    requires Predicates.ValidBatch(b) && r < b.rows && ps != []
    ensures Selects(InPred(ps, negated), b, r) <==> (exists k :: 0 <= k < |ps| && Selects(ps[k], b, r)) != negated
  {
    hide LeafSelects;
    var p := if |ps| == 1 then ps[0] else Or(ps);
    assert Selects(p, b, r) <==> exists k :: 0 <= k < |ps| && Selects(ps[k], b, r);
    NotSelects(p, b, r);
  }

  // Lowering reproduces every definite truth value: a row on which the WHERE is
  // true is selected, a row on which it is false is not.
  lemma {:induction false} LowerSound(e: Expr, b: Batch, r: nat, other: Expr -> Truth)
    requires Predicates.ValidBatch(b) && r < b.rows && Lower(e).Some?
    ensures Agrees(Lower(e).value, Eval(e, b, r, other), b, r)
    decreases e
  {
    hide Selects, CompareValues, LowerCompare, Value, Member;
    match e {
      case AndOp(args) =>
        LowerSound(args[0], b, r, other);
        LowerSound(args[1], b, r, other);
        PairSelects(Lower(args[0]).value, Lower(args[1]).value, b, r);
      case OrOp(args) =>
        LowerSound(args[0], b, r, other);
        LowerSound(args[1], b, r, other);
        PairSelects(Lower(args[0]).value, Lower(args[1]).value, b, r);
      case NotOp(args) =>
        LowerSound(args[0], b, r, other);
        NotSelects(Lower(args[0]).value, b, r);
      case Compare(op, args) =>
        CompareSound(op, args[0], args[1], b, r);
      case Between(args) =>
        CompareSound(Ge, args[0], args[1], b, r);
        CompareSound(Le, args[0], args[2], b, r);
        PairSelects(LowerCompare(Ge, args[0], args[1]).value, LowerCompare(Le, args[0], args[2]).value, b, r);
      case In(args, negated) =>
        InSound(args, negated, b, r, other);
      case _ =>
    }
  }

  lemma InSound(args: seq<Expr>, negated: bool, b: Batch, r: nat, other: Expr -> Truth)
    requires Predicates.ValidBatch(b) && r < b.rows && Lower(In(args, negated)).Some?
    ensures Agrees(Lower(In(args, negated)).value, Eval(In(args, negated), b, r, other), b, r)
    ensures Operands(args) && |args| >= 2
  {
    hide Selects, CompareValues, Value, Member;
    var ps := LowerSet(args[0].name, args[1..]).value;
    SetSound(args[0].name, args[1..], b, r);
    assert forall i :: 1 <= i < |args| ==> args[i] == args[1..][i - 1];
    InSelects(ps, negated, b, r);
    assert Lower(In(args, negated)).value == InPred(ps, negated);
  }

  // ----- the split as a whole -----

  // What the scan and the filter above it let through.
  predicate Passes(e: Expr, b: Batch, r: nat, other: Expr -> Truth)
    requires Predicates.ValidBatch(b) && r < b.rows
  {
    var push, rest := Push(Pushable(Conjuncts(e))), Residual(Conjuncts(e));
    (push.None? || Selects(push.value, b, r)) && (rest == [] || Eval(Conjoin(rest), b, r, other) == True)
  }

  predicate AllSelect(ps: seq<Pred>, b: Batch, r: nat)
    requires Predicates.ValidBatch(b) && r < b.rows
  {
    forall k :: 0 <= k < |ps| ==> Selects(ps[k], b, r)
  }

  predicate AllTrue(rs: seq<Expr>, b: Batch, r: nat, other: Expr -> Truth)
    requires Predicates.ValidBatch(b) && r < b.rows
  {
    forall k :: 0 <= k < |rs| ==> Eval(rs[k], b, r, other) == True
  }

  predicate Pass(c: Expr, b: Batch, r: nat, other: Expr -> Truth)
    requires Predicates.ValidBatch(b) && r < b.rows
  {
    if Lower(c).Some? then Selects(Lower(c).value, b, r) else Eval(c, b, r, other) == True
  }

  // Every pushed conjunct selects the row and every other one is true.
  predicate AllPass(cs: seq<Expr>, b: Batch, r: nat, other: Expr -> Truth)
    requires Predicates.ValidBatch(b) && r < b.rows
  {
    forall k :: 0 <= k < |cs| ==> Pass(cs[k], b, r, other)
  }

  lemma AllSelectAppend(ps: seq<Pred>, p: Pred, b: Batch, r: nat)
    requires Predicates.ValidBatch(b) && r < b.rows
    ensures AllSelect(ps + [p], b, r) <==> AllSelect(ps, b, r) && Selects(p, b, r)
  {
    hide Selects;
    assert forall k :: 0 <= k < |ps| ==> (ps + [p])[k] == ps[k];
    assert (ps + [p])[|ps|] == p;
  }

  lemma AllTrueAppend(rs: seq<Expr>, e: Expr, b: Batch, r: nat, other: Expr -> Truth)
    requires Predicates.ValidBatch(b) && r < b.rows
    ensures AllTrue(rs + [e], b, r, other) <==> AllTrue(rs, b, r, other) && Eval(e, b, r, other) == True
  {
    hide Eval;
    assert forall k :: 0 <= k < |rs| ==> (rs + [e])[k] == rs[k];
    assert (rs + [e])[|rs|] == e;
  }

  lemma AllPassAppend(cs: seq<Expr>, e: Expr, b: Batch, r: nat, other: Expr -> Truth)
    requires Predicates.ValidBatch(b) && r < b.rows
    ensures AllPass(cs + [e], b, r, other) <==> AllPass(cs, b, r, other) && Pass(e, b, r, other)
  {
    hide Pass;
    assert forall k :: 0 <= k < |cs| ==> (cs + [e])[k] == cs[k];
    assert (cs + [e])[|cs|] == e;
  }

  lemma EvalAnd(l: Expr, e: Expr, b: Batch, r: nat, other: Expr -> Truth)
    requires Predicates.ValidBatch(b) && r < b.rows
    ensures Eval(AndOp([l, e]), b, r, other) == AndTruth(Eval(l, b, r, other), Eval(e, b, r, other))
  {
    var args := [l, e];
    assert args[0] == l && args[1] == e;
  }

  lemma {:induction false} ConjoinTrue(rs: seq<Expr>, b: Batch, r: nat, other: Expr -> Truth)
    requires Predicates.ValidBatch(b) && r < b.rows && rs != []
    ensures Eval(Conjoin(rs), b, r, other) == True <==> AllTrue(rs, b, r, other)
  {
    hide Eval;
    if |rs| > 1 {
      var n := |rs| - 1;
      ConjoinTrue(rs[..n], b, r, other);
      assert rs == rs[..n] + [rs[n]];
      AllTrueAppend(rs[..n], rs[n], b, r, other);
      EvalAnd(Conjoin(rs[..n]), rs[n], b, r, other);
    }
  }

  lemma {:induction false} SplitParts(cs: seq<Expr>, b: Batch, r: nat, other: Expr -> Truth)
    requires Predicates.ValidBatch(b) && r < b.rows
    ensures AllPass(cs, b, r, other) <==> AllSelect(Pushable(cs), b, r) && AllTrue(Residual(cs), b, r, other)
  {
    hide Lower, Selects, Eval;
    if cs != [] {
      var n := |cs| - 1;
      SplitParts(cs[..n], b, r, other);
      assert cs == cs[..n] + [cs[n]];
      SplitStep(cs[..n], cs[n]);
      AllPassAppend(cs[..n], cs[n], b, r, other);
      hide AllPass, AllSelect, AllTrue;
      assert Pushable(cs[..n]) + [] == Pushable(cs[..n]) && Residual(cs[..n]) + [] == Residual(cs[..n]);
      if Lower(cs[n]).Some? {
        AllSelectAppend(Pushable(cs[..n]), Lower(cs[n]).value, b, r);
      } else {
        AllTrueAppend(Residual(cs[..n]), cs[n], b, r, other);
      }
    }
  }

  lemma PushSelects(ps: seq<Pred>, b: Batch, r: nat)
    requires Predicates.ValidBatch(b) && r < b.rows
    ensures (Push(ps).None? || Selects(Push(ps).value, b, r)) <==> AllSelect(ps, b, r)
  {
    hide LeafSelects;
  }

  lemma PassesIsAllPass(e: Expr, b: Batch, r: nat, other: Expr -> Truth)
    requires Predicates.ValidBatch(b) && r < b.rows
    ensures Passes(e, b, r, other) <==> AllPass(Conjuncts(e), b, r, other)
  {
    hide Selects, Eval, Lower, Push, Pushable, Residual, Conjuncts, Conjoin, AllPass, AllSelect;
    var cs := Conjuncts(e);
    SplitParts(cs, b, r, other);
    PushSelects(Pushable(cs), b, r);
    if Residual(cs) != [] { ConjoinTrue(Residual(cs), b, r, other); }
  }

  lemma TruthConcat(x: seq<Expr>, y: seq<Expr>, b: Batch, r: nat, other: Expr -> Truth)
    requires Predicates.ValidBatch(b) && r < b.rows
    ensures AllTrue(x + y, b, r, other) <==> AllTrue(x, b, r, other) && AllTrue(y, b, r, other)
    ensures SomeFalse(x + y, b, r, other) <==> SomeFalse(x, b, r, other) || SomeFalse(y, b, r, other)
  {
    hide Eval;
    assert forall k :: 0 <= k < |x| ==> (x + y)[k] == x[k];
    assert forall k :: 0 <= k < |y| ==> (x + y)[|x| + k] == y[k];
    if k :| 0 <= k < |x| && Eval(x[k], b, r, other) == False { assert Eval((x + y)[k], b, r, other) == False; }
    if k :| 0 <= k < |y| && Eval(y[k], b, r, other) == False { assert Eval((x + y)[|x| + k], b, r, other) == False; }
  }

  predicate SomeFalse(rs: seq<Expr>, b: Batch, r: nat, other: Expr -> Truth)
    requires Predicates.ValidBatch(b) && r < b.rows
  {
    exists k :: 0 <= k < |rs| && Eval(rs[k], b, r, other) == False
  }

  // A WHERE is true when all its conjuncts are, and false when one of them is.
  lemma {:induction false} ConjunctsTruth(e: Expr, b: Batch, r: nat, other: Expr -> Truth)
    requires Predicates.ValidBatch(b) && r < b.rows
    ensures Eval(e, b, r, other) == True <==> AllTrue(Conjuncts(e), b, r, other)
    ensures Eval(e, b, r, other) == False <==> SomeFalse(Conjuncts(e), b, r, other)
    decreases e
  {
    hide Eval;
    if e.AndOp? && |e.args| == 2 {
      ConjunctsTruth(e.args[0], b, r, other);
      ConjunctsTruth(e.args[1], b, r, other);
      assert e == AndOp([e.args[0], e.args[1]]);
      EvalAnd(e.args[0], e.args[1], b, r, other);
      TruthConcat(Conjuncts(e.args[0]), Conjuncts(e.args[1]), b, r, other);
      hide AllTrue, SomeFalse;
    } else {
      var cs := Conjuncts(e);
      assert cs == [e] && cs[0] == e;
      assert SomeFalse(cs, b, r, other) <==> Eval(cs[0], b, r, other) == False;
    }
  }

  // No row on which the WHERE is true is lost, and none on which it is false
  // gets through, nulls included.
  lemma SplitKeepsDefiniteRows(e: Expr, b: Batch, r: nat, other: Expr -> Truth)
    requires Predicates.ValidBatch(b) && r < b.rows
    ensures Eval(e, b, r, other) == True ==> Passes(e, b, r, other)
    ensures Eval(e, b, r, other) == False ==> !Passes(e, b, r, other)
  {
    hide Selects, Eval, Lower, Passes, Conjuncts;
    var cs := Conjuncts(e);
    ConjunctsTruth(e, b, r, other);
    PassesIsAllPass(e, b, r, other);
    forall k | 0 <= k < |cs|
      ensures Eval(cs[k], b, r, other) == True ==> Pass(cs[k], b, r, other)
      ensures Eval(cs[k], b, r, other) == False ==> !Pass(cs[k], b, r, other)
    {
      if Lower(cs[k]).Some? { LowerSound(cs[k], b, r, other); }
    }
  }

  // ----- rows without nulls -----

  // Each comparison the WHERE makes is between values of one type, and no
  // column it compares is null on the row.
  predicate NonNullAt(e: Expr, b: Batch, r: nat)
    requires Predicates.ValidBatch(b) && r < b.rows
  {
    match e
    case AndOp(args) => forall k :: 0 <= k < |args| ==> NonNullAt(args[k], b, r)
    case OrOp(args) => forall k :: 0 <= k < |args| ==> NonNullAt(args[k], b, r)
    case NotOp(args) => forall k :: 0 <= k < |args| ==> NonNullAt(args[k], b, r)
    case Compare(_, args) => SameTypes(args, b, r)
    case Between(args) => SameTypes(args, b, r)
    case In(args, _) => SameTypes(args, b, r)
    case _ => true
  }

  predicate SameTypes(args: seq<Expr>, b: Batch, r: nat)
    requires Predicates.ValidBatch(b) && r < b.rows
  {
    Operands(args)
    && ((forall k :: 0 <= k < |args| ==> Operand(args[k], b, r).IntValue?)
        || (forall k :: 0 <= k < |args| ==> Operand(args[k], b, r).TextValue?))
  }

  lemma {:induction false} LoweredIsDefinite(e: Expr, b: Batch, r: nat, other: Expr -> Truth)
    requires Predicates.ValidBatch(b) && r < b.rows && Lower(e).Some? && NonNullAt(e, b, r)
    ensures Eval(e, b, r, other) != Unknown
    decreases e
  {
    hide Selects, CompareValues, Member, LowerCompare, Value;
    match e {
      case AndOp(args) =>
        LoweredIsDefinite(args[0], b, r, other);
        LoweredIsDefinite(args[1], b, r, other);
      case OrOp(args) =>
        LoweredIsDefinite(args[0], b, r, other);
        LoweredIsDefinite(args[1], b, r, other);
      case NotOp(args) =>
        LoweredIsDefinite(args[0], b, r, other);
      case Compare(op, args) =>
        MismatchUnknown(op, Operand(args[0], b, r), Operand(args[1], b, r));
      case Between(args) =>
        MismatchUnknown(Ge, Operand(args[0], b, r), Operand(args[1], b, r));
        MismatchUnknown(Le, Operand(args[0], b, r), Operand(args[2], b, r));
      case In(args, negated) =>
      case _ =>
    }
  }

  // On a row whose compared columns are non-null, the pushed predicate together
  // with the residual is exactly the WHERE.
  lemma SplitIsExact(e: Expr, b: Batch, r: nat, other: Expr -> Truth)
    requires Predicates.ValidBatch(b) && r < b.rows
    requires forall k :: 0 <= k < |Conjuncts(e)| && Lower(Conjuncts(e)[k]).Some? ==> NonNullAt(Conjuncts(e)[k], b, r)
    ensures Passes(e, b, r, other) <==> Eval(e, b, r, other) == True
  {
    hide Selects, Eval, Lower, Passes, Conjuncts, NonNullAt;
    var cs := Conjuncts(e);
    SplitKeepsDefiniteRows(e, b, r, other);
    ConjunctsTruth(e, b, r, other);
    PassesIsAllPass(e, b, r, other);
    if Passes(e, b, r, other) {
      forall k | 0 <= k < |cs| ensures Eval(cs[k], b, r, other) == True {
        if Lower(cs[k]).Some? {
          LowerSound(cs[k], b, r, other);
          LoweredIsDefinite(cs[k], b, r, other);
        }
      }
    }
  }

  // ----- rows with nulls -----

  // No negation: no NOT, no <>, no NOT IN.
  predicate Positive(e: Expr) {
    match e
    case AndOp(args) => forall k :: 0 <= k < |args| ==> Positive(args[k])
    case OrOp(args) => forall k :: 0 <= k < |args| ==> Positive(args[k])
    case NotOp(_) => false
    case Compare(op, _) => op != Ne
    case In(_, negated) => !negated
    case _ => true
  }

  lemma PositiveCompare(op: CompareOp, l: Expr, e: Expr, b: Batch, r: nat)
    requires Predicates.ValidBatch(b) && r < b.rows && LowerCompare(op, l, e).Some? && op != Ne
    ensures IsOperand(l) && IsOperand(e)
    ensures Selects(LowerCompare(op, l, e).value, b, r) <==> CompareValues(op, Operand(l, b, r), Operand(e, b, r)) == True
  {
    hide Selects, CompareValues, LexLess, Value;
    var swap := l.Lit? && e.ColumnRef?;
    var (col, lit, o) := if swap then (e, l, Swapped(op)) else (l, e, op);
    if swap { SwapCompares(op, Operand(l, b, r), Operand(e, b, r)); }
    MismatchUnknown(o, Value(b, col.name, r), lit.lit);
    match lit.lit {
      case IntValue(v) => IntCompareExact(o, col.name, v, b, r);
      case TextValue(t) => TextCompareExact(o, col.name, t, b, r);
      case _ =>
    }
  }

  // Without negation the lowered predicate is exact on every row, nulls included.
  lemma {:induction false} PositiveIsExact(e: Expr, b: Batch, r: nat, other: Expr -> Truth)
    requires Predicates.ValidBatch(b) && r < b.rows && Lower(e).Some? && Positive(e)
    ensures Selects(Lower(e).value, b, r) <==> Eval(e, b, r, other) == True
    decreases e
  {
    hide Selects, CompareValues, LowerCompare, Value, Member;
    match e {
      case AndOp(args) =>
        PositiveIsExact(args[0], b, r, other);
        PositiveIsExact(args[1], b, r, other);
        PairSelects(Lower(args[0]).value, Lower(args[1]).value, b, r);
      case OrOp(args) =>
        PositiveIsExact(args[0], b, r, other);
        PositiveIsExact(args[1], b, r, other);
        PairSelects(Lower(args[0]).value, Lower(args[1]).value, b, r);
      case Compare(op, args) =>
        PositiveCompare(op, args[0], args[1], b, r);
      case Between(args) =>
        PositiveCompare(Ge, args[0], args[1], b, r);
        PositiveCompare(Le, args[0], args[2], b, r);
        PairSelects(LowerCompare(Ge, args[0], args[1]).value, LowerCompare(Le, args[0], args[2]).value, b, r);
      case In(args, negated) =>
        PositiveIn(args, b, r, other);
      case _ =>
    }
  }

  lemma PositiveIn(args: seq<Expr>, b: Batch, r: nat, other: Expr -> Truth)
    requires Predicates.ValidBatch(b) && r < b.rows && Lower(In(args, false)).Some?
    ensures Selects(Lower(In(args, false)).value, b, r) <==> Eval(In(args, false), b, r, other) == True
  {
    hide Selects, CompareValues, Value;
    var ps := LowerSet(args[0].name, args[1..]).value;
    SetSound(args[0].name, args[1..], b, r);
    assert forall i :: 1 <= i < |args| ==> args[i] == args[1..][i - 1];
    InSelects(ps, false, b, r);
    assert Lower(In(args, false)).value == InPred(ps, false);
    var x := Value(b, args[0].name, r);
    forall i | 0 <= i < |args[1..]| ensures x == Nil ==> CompareValues(Eq, x, Operand(args[1..][i], b, r)) == Unknown {
      NilComparesUnknown(Eq, Operand(args[1..][i], b, r));
    }
  }

  lemma NilComparesUnknown(op: CompareOp, y: Literal)
    ensures CompareValues(op, Nil, y) == Unknown
  {
  }

  // The lowered predicate selects the row exactly when the expression is true.
  predicate ExactAt(e: Expr, b: Batch, r: nat, other: Expr -> Truth)
    requires Predicates.ValidBatch(b) && r < b.rows && Lower(e).Some?
  {
    Selects(Lower(e).value, b, r) <==> Eval(e, b, r, other) == True
  }

  // The column has the type of the literal, which binding makes sure of.
  predicate Typed(col: string, lit: Literal, b: Batch) {
    col in b.cols && ((lit.IntValue? && b.cols[col].Ints?) || (lit.TextValue? && b.cols[col].Texts?))
  }

  function Comparison(op: CompareOp, col: string, lit: Literal, literalFirst: bool): Expr {
    Compare(op, if literalFirst then [Lit(lit), ColumnRef(col)] else [ColumnRef(col), Lit(lit)])
  }

  lemma ComparisonIs(op: CompareOp, col: string, lit: Literal, literalFirst: bool, b: Batch, r: nat, other: Expr -> Truth)
    requires Predicates.ValidBatch(b) && r < b.rows && Typed(col, lit, b)
    ensures var e, o := Comparison(op, col, lit, literalFirst), if literalFirst then Swapped(op) else op;
      && Eval(e, b, r, other) == CompareValues(o, Value(b, col, r), lit)
      && Lower(e) == (if lit.IntValue? then LowerInt(o, col, lit.v) else LowerText(o, col, lit.t))
      && (Eval(e, b, r, other) == Unknown <==> Value(b, col, r) == Nil)
  {
    hide LowerInt, LowerText, LexLess;
    var e := Comparison(op, col, lit, literalFirst);
    assert e.args[0] == (if literalFirst then Lit(lit) else ColumnRef(col)) && e.args[1] == (if literalFirst then ColumnRef(col) else Lit(lit));
    if literalFirst { SwapCompares(op, lit, Value(b, col, r)); }
  }

  // A pushed comparison is exact on every row unless it is <>, which is exact
  // precisely where the column has a value: a null row is selected although the
  // comparison is unknown.
  lemma ComparisonExactIff(op: CompareOp, col: string, lit: Literal, literalFirst: bool, b: Batch, r: nat, other: Expr -> Truth)
    requires Predicates.ValidBatch(b) && r < b.rows && Typed(col, lit, b)
    requires Lower(Comparison(op, col, lit, literalFirst)).Some?
    ensures ExactAt(Comparison(op, col, lit, literalFirst), b, r, other) <==> op != Ne || Value(b, col, r) != Nil
  {
    hide Selects, Eval, Lower, LowerInt, LowerText, CompareValues, Comparison;
    ComparisonIs(op, col, lit, literalFirst, b, r, other);
    var o := if literalFirst then Swapped(op) else op;
    MismatchUnknown(o, Value(b, col, r), lit);
    if lit.IntValue? {
      IntCompareExact(o, col, lit.v, b, r);
    } else {
      TextCompareExact(o, col, lit.t, b, r);
      NoTextNe(o, col, lit.t);
    }
  }

  lemma NoTextNe(op: CompareOp, col: string, t: seq<Byte>)
    requires LowerText(op, col, t).Some?
    ensures op != Ne
  {
  }

  // NOT of anything pushed is exact unless the negated expression is unknown and
  // its lowered form does not select the row.
  lemma NotExactIff(e: Expr, b: Batch, r: nat, other: Expr -> Truth)
    requires Predicates.ValidBatch(b) && r < b.rows && Lower(e).Some?
    ensures Lower(NotOp([e])).Some?
    ensures ExactAt(NotOp([e]), b, r, other) <==> Eval(e, b, r, other) != Unknown || Selects(Lower(e).value, b, r)
  {
    hide Selects;
    assert [e][0] == e;
    assert Lower(NotOp([e])) == Some(Not(Lower(e).value)) && Eval(NotOp([e]), b, r, other) == NotTruth(Eval(e, b, r, other));
    NotSelects(Lower(e).value, b, r);
    hide Lower, Eval;
    LowerSound(e, b, r, other);
  }

  // Over an expression without negations: exact precisely where that expression is known.
  lemma NotPositiveExactIff(e: Expr, b: Batch, r: nat, other: Expr -> Truth)
    requires Predicates.ValidBatch(b) && r < b.rows && Lower(e).Some? && Positive(e)
    ensures Lower(NotOp([e])).Some?
    ensures ExactAt(NotOp([e]), b, r, other) <==> Eval(e, b, r, other) != Unknown
  {
    hide Selects, Lower, Eval, Positive;
    NotExactIff(e, b, r, other);
    PositiveIsExact(e, b, r, other);
  }

  // NOT of a comparison: exact precisely where the column has a value, and
  // everywhere when the comparison is itself a <>.
  lemma NotComparisonExactIff(op: CompareOp, col: string, lit: Literal, literalFirst: bool, b: Batch, r: nat, other: Expr -> Truth)
    requires Predicates.ValidBatch(b) && r < b.rows && Typed(col, lit, b)
    requires Lower(Comparison(op, col, lit, literalFirst)).Some?
    ensures Lower(NotOp([Comparison(op, col, lit, literalFirst)])).Some?
    ensures ExactAt(NotOp([Comparison(op, col, lit, literalFirst)]), b, r, other) <==> op == Ne || Value(b, col, r) != Nil
  {
    hide Selects, Lower, Eval, Comparison;
    var e := Comparison(op, col, lit, literalFirst);
    NotExactIff(e, b, r, other);
    ComparisonIs(op, col, lit, literalFirst, b, r, other);
    ComparisonExactIff(op, col, lit, literalFirst, b, r, other);
  }

  lemma NotBetweenExactIff(col: string, lo: Literal, hi: Literal, b: Batch, r: nat, other: Expr -> Truth)
    requires Predicates.ValidBatch(b) && r < b.rows && Typed(col, lo, b) && Typed(col, hi, b)
    requires Lower(Between([ColumnRef(col), Lit(lo), Lit(hi)])).Some?
    ensures Lower(NotOp([Between([ColumnRef(col), Lit(lo), Lit(hi)])])).Some?
    ensures ExactAt(NotOp([Between([ColumnRef(col), Lit(lo), Lit(hi)])]), b, r, other) <==> Value(b, col, r) != Nil
  {
    hide Selects, Lower, LexLess;
    var e := Between([ColumnRef(col), Lit(lo), Lit(hi)]);
    assert e.args[0] == ColumnRef(col) && e.args[1] == Lit(lo) && e.args[2] == Lit(hi);
    NotPositiveExactIff(e, b, r, other);
    MismatchUnknown(Ge, Value(b, col, r), lo);
    MismatchUnknown(Le, Value(b, col, r), hi);
  }

  lemma NotInExactIff(args: seq<Expr>, b: Batch, r: nat, other: Expr -> Truth)
    requires Predicates.ValidBatch(b) && r < b.rows && Lower(In(args, true)).Some?
    ensures ExactAt(In(args, true), b, r, other) <==> Value(b, args[0].name, r) != Nil
  {
    hide Selects, CompareValues, Value;
    var ps := LowerSet(args[0].name, args[1..]).value;
    SetSound(args[0].name, args[1..], b, r);
    assert forall i :: 1 <= i < |args| ==> args[i] == args[1..][i - 1];
    InSelects(ps, true, b, r);
    assert Lower(In(args, true)).value == InPred(ps, true);
    var x := Value(b, args[0].name, r);
    forall i | 0 <= i < |args[1..]| ensures x == Nil ==> CompareValues(Eq, x, Operand(args[1..][i], b, r)) == Unknown {
      NilComparesUnknown(Eq, Operand(args[1..][i], b, r));
    }
  }

  // Where the other conjuncts are true, the split is right about the row
  // precisely when the pushed conjunct is.
  lemma ConjunctDecides(e: Expr, k: nat, b: Batch, r: nat, other: Expr -> Truth)
    requires Predicates.ValidBatch(b) && r < b.rows && k < |Conjuncts(e)| && Lower(Conjuncts(e)[k]).Some?
    requires forall j :: 0 <= j < |Conjuncts(e)| && j != k ==> Eval(Conjuncts(e)[j], b, r, other) == True
    ensures (Passes(e, b, r, other) <==> Eval(e, b, r, other) == True) <==> ExactAt(Conjuncts(e)[k], b, r, other)
  {
    hide Selects, Eval, Lower, Passes, Conjuncts;
    var cs := Conjuncts(e);
    ConjunctsTruth(e, b, r, other);
    PassesIsAllPass(e, b, r, other);
    forall j | 0 <= j < |cs| && j != k ensures Pass(cs[j], b, r, other) {
      if Lower(cs[j]).Some? { LowerSound(cs[j], b, r, other); }
    }
    assert AllPass(cs, b, r, other) <==> Pass(cs[k], b, r, other);
    assert AllTrue(cs, b, r, other) <==> Eval(cs[k], b, r, other) == True;
  }

  // A WHERE made of one pushed NOT lets a null row through.
  lemma NullRowPasses(op: CompareOp, col: string, lit: Literal, b: Batch, r: nat, other: Expr -> Truth)
    requires Predicates.ValidBatch(b) && r < b.rows && Typed(col, lit, b) && op != Ne && Value(b, col, r) == Nil
    requires Lower(Comparison(op, col, lit, false)).Some?
    ensures var e := NotOp([Comparison(op, col, lit, false)]);
      Passes(e, b, r, other) && Eval(e, b, r, other) == Unknown
  {
    hide Selects, Passes, Comparison;
    var e := NotOp([Comparison(op, col, lit, false)]);
    assert e.args[0] == Comparison(op, col, lit, false);
    NotComparisonExactIff(op, col, lit, false, b, r, other);
    ComparisonIs(op, col, lit, false, b, r, other);
    assert Conjuncts(e) == [e];
    ConjunctDecides(e, 0, b, r, other);
  }

  // Literals that fit int64 are lowered to literals that fit int64.
  lemma LoweredLiteralFits(op: CompareOp, col: string, v: int)
    requires IsInt64(v) && LowerInt(op, col, v).Some?
    ensures match LowerInt(op, col, v).value
            case Not(p) => p.EqInt? && IsInt64(p.v)
            case EqInt(_, w) => IsInt64(w)
            case LtInt(_, w) => IsInt64(w)
            case GtInt(_, w) => IsInt64(w)
            case _ => false
  {
  }
}
