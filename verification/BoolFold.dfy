/** Compile-time evaluation of Boolean operators on literals (bx_boollit.c, with the literal part of
    unary_tail.c). */
module BoolFold {
  import opened BoolTriples
  import opened BoolShort

  /** Whether a Boolean operand has come down to a literal. */
  predicate IsLit(e: Expr) { e.Cobool? && e.o.Lit? }

  /** UNARY_TAIL on an operand: signs and numeric coercions over a literal are carried out. */
  function FoldOpd(o: Opd): Opd {
    if o.Unary? then
      var u := FoldOpd(o.o);
      if u.Lit? then Lit(o.id, if o.neg then -u.v else u.v) else o
    else o
  }

  /** A literal for truth value `b` under coercion `id`; its own triple is numbered `n`. */
  function Truth(id: Id, n: Id, b: bool): Expr { Cobool(id, Lit(n, Bool(b))) }

  /** bx_boollit on an operator or relation, folding its operands first. `noPattern` holds while a
      literal XECUTE is parsed, when patterns are left alone. New literals are numbered from `n`; the
      result is the new tree and the next number. */
  function Fold(i: Interp, e: Expr, n: Id, noPattern: bool): (Expr, Id)
    requires e.Rel? || e.Bin?
    decreases e, 0
  {
    match e
    case Rel(id, rel, neg, l, r) =>
      var a, b := FoldOpd(l), FoldOpd(r);
      if a.Lit? && b.Lit? && !(rel == Pattern && noPattern) then (Truth(id, n, Holds(rel, i, a.v, b.v) != neg), n + 1)
      else (Rel(id, rel, neg, a, b), n)
    case Bin(id, d, neg, x, y) =>
      var (x', n1) := FoldOperand(i, x, n, noPattern);
      var (y', n2) := FoldOperand(i, y, n1, noPattern);
      if IsLit(x') && IsLit(y') then
        var a, b := x'.o.v != 0, y'.o.v != 0;
        (Truth(id, n2, (if d then a || b else a && b) != neg), n2 + 1)
      else (Bin(id, d, neg, x', y'), n2)
  }

  /** An operand of AND or OR: fold what is under its complements, then UNARY_TAIL. */
  function FoldOperand(i: Interp, e: Expr, n: Id, noPattern: bool): (Expr, Id)
    decreases e, 1
  {
    match e
    case Cobool(id, o) => (Cobool(id, FoldOpd(o)), n)
    case Test(_, _) => (e, n)
    case Com(id, x) =>
      var (x', n1) := FoldOperand(i, x, n, noPattern);
      if IsLit(x') then (Cobool(id, Lit(x'.o.id, Bool(x'.o.v == 0))), n1) else (Com(id, x'), n1)
    case _ => Fold(i, e, n, noPattern)
  }

  lemma {:induction false} FoldOpdValue(i: Interp, o: Opd, s: State)
    ensures After(i, FoldOpd(o), s) == After(i, o, s) && OpdLoc(i, FoldOpd(o), s) == OpdLoc(i, o, s)
    ensures FoldOpd(o).id == o.id && OpdIds(FoldOpd(o)) <= OpdIds(o) && (WfOpd(o) ==> WfOpd(FoldOpd(o)))
    ensures FoldOpd(o).Lit? ==> After(i, o, s) == s
  {
    if o.Unary? {
      FoldOpdValue(i, o.o, s);
    }
  }

  /** Folding preserves meaning: value, effects and trace of short-circuit evaluation are the same. */
  lemma {:induction false} FoldMeaning(i: Interp, e: Expr, n: Id, noPattern: bool, s: State)
    requires e.Rel? || e.Bin?
    ensures ShortEval(i, Fold(i, e, n, noPattern).0, s) == ShortEval(i, e, s)
    decreases e, 0
  {
    match e
    case Rel(id, rel, neg, l, r) =>
      FoldOpdValue(i, l, s);
      FoldOpdValue(i, r, After(i, l, s));
    case Bin(id, d, neg, x, y) =>
      var (x', n1) := FoldOperand(i, x, n, noPattern);
      FoldOperandMeaning(i, x, n, noPattern, s);
      FoldOperandMeaning(i, y, n1, noPattern, ShortEval(i, x, s).1);
      FoldOperandMeaning(i, y, n1, noPattern, s);
  }

  lemma {:induction false} FoldOperandMeaning(i: Interp, e: Expr, n: Id, noPattern: bool, s: State)
    ensures ShortEval(i, FoldOperand(i, e, n, noPattern).0, s) == ShortEval(i, e, s)
    decreases e, 1
  {
    match e
    case Cobool(_, o) => FoldOpdValue(i, o, s);
    case Test(_, _) =>
    case Com(_, x) => FoldOperandMeaning(i, x, n, noPattern, s);
    case _ => FoldMeaning(i, e, n, noPattern, s);
  }

  /** What an operator comes down to is the literal 1 if it is true and 0 if it is not. */
  lemma FoldLiteral(i: Interp, e: Expr, n: Id, noPattern: bool, s: State)
    requires (e.Rel? || e.Bin?) && IsLit(Fold(i, e, n, noPattern).0)
    ensures Fold(i, e, n, noPattern).0.o.v == if ShortEval(i, e, s).0 then 1 else 0
  {
    FoldMeaning(i, e, n, noPattern, s);
  }

  /** So does the complement of a literal. */
  lemma ComplementLiteral(i: Interp, e: Expr, n: Id, noPattern: bool, s: State)
    requires e.Com? && IsLit(FoldOperand(i, e, n, noPattern).0)
    ensures FoldOperand(i, e, n, noPattern).0.o.v == if ShortEval(i, e, s).0 then 1 else 0
  {
    FoldOperandMeaning(i, e, n, noPattern, s);
  }

  /** `e'` uses only numbers of `e` and fresh ones in [n, n'), none twice. */
  ghost predicate Renumbered(e: Expr, e': Expr, n: Id, n': Id) {
    Wf(e') && e'.id == e.id && n <= n' && forall k :: k in ExprIds(e') ==> k in ExprIds(e) || n <= k < n'
  }

  lemma BinRenumbered(e: Expr, x': Expr, y': Expr, n: Id, n1: Id, n2: Id)
    requires e.Bin? && Wf(e) && (forall k :: k in ExprIds(e) ==> k < n)
    requires Renumbered(e.e0, x', n, n1) && Renumbered(e.e1, y', n1, n2)
    ensures Renumbered(e, Bin(e.id, e.disjunction, e.negated, x', y'), n, n2)
  {
    assert ExprIds(e.e0) <= ExprIds(e) && ExprIds(e.e1) <= ExprIds(e) && e.id in ExprIds(e);
    forall k | k in ExprIds(x') ensures k !in ExprIds(y') && k != e.id {
      assert k in ExprIds(e.e0) || n <= k < n1;
    }
    forall k | k in ExprIds(y') ensures k != e.id {
      assert k in ExprIds(e.e1) || n1 <= k < n2;
    }
  }

  lemma RelRenumbered(i: Interp, e: Expr, n: Id)
    requires e.Rel? && Wf(e) && (forall k :: k in ExprIds(e) ==> k < n)
    ensures Renumbered(e, Rel(e.id, e.rel, e.negated, FoldOpd(e.l), FoldOpd(e.r)), n, n)
  {
    FoldOpdValue(i, e.l, State(map[], []));
    FoldOpdValue(i, e.r, State(map[], []));
  }

  /** Folding keeps the numbering sound. */
  lemma {:induction false} FoldNumbered(i: Interp, e: Expr, n: Id, noPattern: bool)
    requires Wf(e) && forall k :: k in ExprIds(e) ==> k < n
    ensures var (e', n') := FoldOperand(i, e, n, noPattern); Renumbered(e, e', n, n')
    decreases e
  {
    assert e.id in ExprIds(e);
    match e
    case Cobool(_, o) => FoldOpdValue(i, o, State(map[], []));
    case Test(_, _) =>
    case Rel(_, _, _, l, r) => RelRenumbered(i, e, n);
    case Com(_, x) =>
      assert ExprIds(x) <= ExprIds(e);
      FoldNumbered(i, x, n, noPattern);
    case Bin(_, _, _, x, y) =>
      assert ExprIds(x) <= ExprIds(e) && ExprIds(y) <= ExprIds(e);
      var (x', n1) := FoldOperand(i, x, n, noPattern);
      var (y', n2) := FoldOperand(i, y, n1, noPattern);
      FoldNumbered(i, x, n, noPattern);
      FoldNumbered(i, y, n1, noPattern);
      BinRenumbered(e, x', y', n, n1, n2);
  }

  /** Folding and then compiling: the ladder of the folded tree behaves as the original tree. */
  lemma FoldThenLadder(i: Interp, e: Expr, n: Id, noPattern: bool, sense: bool, addr: Target, m: Machine)
    requires (e.Rel? || e.Bin?) && Numbered(e, n) && m.mode == Going && Outside(addr, e, n)
    ensures
      var (e', n') := Fold(i, e, n, noPattern);
      Reaches(i, Ladder(e', sense, addr, n'), m, ShortEval(i, e, StateOf(m)), sense, addr)
  {
    var (e', n') := Fold(i, e, n, noPattern);
    FoldNumbered(i, e, n, noPattern);
    FoldMeaning(i, e, n, noPattern, StateOf(m));
    LadderCorrect(i, e', sense, addr, n', m);
  }

  /** Nothing is left to fold: no sign or coercion over a literal, no complement of one, no operator on
      two of them. */
  predicate Reduced(e: Expr, noPattern: bool) {
    match e
    case Cobool(_, o) => OpdReduced(o)
    case Test(_, _) => true
    case Rel(_, rel, _, l, r) => OpdReduced(l) && OpdReduced(r) && !(l.Lit? && r.Lit? && !(rel == Pattern && noPattern))
    case Com(_, x) => Reduced(x, noPattern) && !IsLit(x)
    case Bin(_, _, _, x, y) => Reduced(x, noPattern) && Reduced(y, noPattern) && !(IsLit(x) && IsLit(y))
  }

  predicate OpdReduced(o: Opd) { o.Unary? ==> OpdReduced(o.o) && !o.o.Lit? }

  lemma {:induction false} FoldOpdReduced(o: Opd)
    ensures OpdReduced(FoldOpd(o))
    ensures FoldOpd(o).Unary? ==> OpdReduced(o)
  {
    if o.Unary? {
      FoldOpdReduced(o.o);
    }
  }

  /** Folding is complete: its result is reduced. */
  lemma {:induction false} FoldReduced(i: Interp, e: Expr, n: Id, noPattern: bool)
    ensures Reduced(FoldOperand(i, e, n, noPattern).0, noPattern)
    decreases e
  {
    match e
    case Cobool(_, o) => FoldOpdReduced(o);
    case Test(_, _) =>
    case Rel(_, _, _, l, r) =>
      FoldOpdReduced(l);
      FoldOpdReduced(r);
    case Com(_, x) => FoldReduced(i, x, n, noPattern);
    case Bin(_, _, _, x, y) =>
      FoldReduced(i, x, n, noPattern);
      FoldReduced(i, y, FoldOperand(i, x, n, noPattern).1, noPattern);
  }

  /** A pattern match in a tree: its triple, whether it is negated, and the triples of its operands. */
  datatype Match = Match(id: Id, negated: bool, l: Id, r: Id)

  /** The pattern matches of a tree, from left to right. */
  function Matches(e: Expr): seq<Match> {
    match e
    case Cobool(_, _) => []
    case Test(_, _) => []
    case Rel(id, rel, neg, l, r) => if rel == Pattern then [Match(id, neg, l.id, r.id)] else []
    case Com(_, x) => Matches(x)
    case Bin(_, _, _, x, y) => Matches(x) + Matches(y)
  }

  /** While a literal XECUTE is parsed every pattern match is left in the tree, whatever its operands. */
  lemma {:induction false} MatchesLeft(i: Interp, e: Expr, n: Id)
    ensures Matches(FoldOperand(i, e, n, true).0) == Matches(e)
    decreases e
  {
    match e
    case Cobool(_, _) =>
    case Test(_, _) =>
    case Rel(_, _, _, l, r) =>
      FoldOpdValue(i, l, State(map[], []));
      FoldOpdValue(i, r, State(map[], []));
    case Com(_, x) => MatchesLeft(i, x, n);
    case Bin(_, _, _, x, y) =>
      MatchesLeft(i, x, n);
      MatchesLeft(i, y, FoldOperand(i, x, n, true).1);
  }
}
