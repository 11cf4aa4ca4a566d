/** Full Boolean evaluation (the second path of bx_boolop.c): every operand is evaluated in source
    order and its value kept; a second ladder over the kept values then decides the jumps. */
module BoolFull {
  import opened BoolTriples
  import opened BoolShort

  /** The operand under any leading unary operators. */
  function Base(o: Opd): Opd { if o.Unary? then Base(o.o) else o }

  /** The operand's triples with leading unary operators made transparent. */
  function PassOpd(o: Opd): seq<Triple> {
    if o.Unary? then PassOpd(o.o) + [Triple(o.id, OcPassthru(o.o.id))] else SrcOpd(o)
  }

  /** STOTEMP_IF_NEEDED: the triple that keeps operand `o`, if one is needed. `dyn` is the
      dynamic-literals qualifier. */
  function Keep(o: Opd, dyn: bool): Op {
    match o
    case Var(id, _) => OcStotemp(id)
    case Lit(id, _) => if dyn then OcLitc(id) else OcNoop
    case _ => OcNoop
  }

  /** The triple the new ladder refers to for `o`, when `t` is the one offered to keep it. */
  function KeptRef(o: Opd, t: Id, dyn: bool): Id {
    if Keep(o, dyn) == OcNoop then o.id else t
  }

  function KeepCobool(o: Opd, dyn: bool): Op {
    if Base(o).Eval? && Base(o).mint then OcComval(o.id) else Keep(o, dyn)
  }

  function CoboolRef(o: Opd, t: Id, dyn: bool): Id {
    if KeepCobool(o, dyn) == OcNoop then o.id else t
  }

  /** The new ladder refers to an operand itself only if that is a temporary value that stays as it is: no
      variable, no literal when those are dynamic, and, for a coercion, no integer. Those are kept by a copy, a
      copy of the literal, or a conversion. */
  lemma DirectRefs(o: Opd, t: Id, dyn: bool)
    requires t != o.id
    ensures KeptRef(o, t, dyn) in {o.id, t} && CoboolRef(o, t, dyn) in {o.id, t}
    ensures KeptRef(o, t, dyn) == o.id <==> !o.Var? && !(o.Lit? && dyn)
    ensures CoboolRef(o, t, dyn) == o.id <==> !o.Var? && !(o.Lit? && dyn) && !IntegerBase(o)
    ensures (o.Var? ==> Keep(o, dyn) == OcStotemp(o.id)) && (o.Lit? && dyn ==> Keep(o, dyn) == OcLitc(o.id))
    ensures KeepCobool(o, dyn) == if IntegerBase(o) then OcComval(o.id) else Keep(o, dyn)
  {
    BaseInteger(o);
  }

  lemma {:induction false} BaseInteger(o: Opd)
    ensures IntegerBase(o) <==> Base(o).Eval? && Base(o).mint
  {
    if o.Unary? {
      BaseInteger(o.o);
    }
  }

  /** Under its unary operators the operand is an expression with an integer result. */
  ghost predicate IntegerBase(o: Opd) {
    match o
    case Unary(_, _, u) => IntegerBase(u)
    case Eval(_, _, mint) => mint
    case _ => false
  }

  /** Triple numbers used by an operand of a full-evaluation operator; an operand that is itself such
      an operator costs one more, the unused copy its parent makes. */
  function Used(e: Expr): nat {
    match e
    case Cobool(_, _) => 3
    case Test(_, _) => 2
    case Rel(_, _, _, _, _) => 3
    case Com(_, x) => Used(x)
    case Bin(_, _, _, x, y) => Used(x) + Used(y) + 1
  }

  /** The numbers among them that end up in a chain. */
  function Span(e: Expr): (k: nat)
    ensures k <= Used(e)
  {
    match e
    case Com(_, x) => Span(x)
    case Bin(_, _, _, x, y) => Used(x) + Used(y)
    case _ => Used(e)
  }

  /** What is left of the original chain: operands, and triples that keep their values. */
  function Kept(e: Expr, n: Id, dyn: bool): seq<Triple> {
    match e
    case Cobool(id, o) => PassOpd(o) + [Triple(id, KeepCobool(o, dyn)), Triple(n, OcNoop)]
    case Test(id, g) => [Triple(g, OcNoop), Triple(id, OcGettruth)]
    case Rel(id, _, _, l, r) => SrcOpd(l) + SrcOpd(r) + [Triple(id, Keep(l, dyn)), Triple(n, Keep(r, dyn))]
    case Com(id, x) => Kept(x, n, dyn) + [Triple(id, OcNoop)]
    case Bin(id, _, _, x, y) => Kept(x, n, dyn) + Kept(y, n + Used(x), dyn) + [Triple(id, OcNoop)]
  }

  function Jump(n: Id, c: Cond, addr: Target): Triple { Triple(n, OcJmp(c, addr)) }

  /** The new ladder of a leaf. */
  function LeafLadder(e: Expr, sense: bool, addr: Target, n: Id, dyn: bool): seq<Triple>
    requires !e.Com? && !e.Bin?
  {
    match e
    case Cobool(id, o) =>
      [Triple(n + 1, OcCobool(CoboolRef(o, id, dyn))), Jump(n + 2, if sense then JmpNeq else JmpEqu, addr)]
    case Test(id, g) => [Triple(n + 1, OcCobool(id)), Jump(n, if sense then JmpNeq else JmpEqu, addr)]
    case Rel(id, rel, neg, l, r) =>
      [Triple(n + 1, OcCmp(CmpOf(rel), KeptRef(l, id, dyn), KeptRef(r, n, dyn))),
       Jump(n + 2, JumpOf(rel, sense != neg), addr)]
  }

  /** The new ladder as first built: its jumps still name the operators of the old chain. */
  function NewLadder(e: Expr, sense: bool, addr: Target, n: Id, dyn: bool): seq<Triple> {
    match e
    case Com(_, x) => NewLadder(x, !sense, addr, n, dyn)
    case Bin(id, d, neg, x, y) =>
      NewLadder(x, d, FirstTarget(id, d, sense != neg, addr), n, dyn) +
        NewLadder(y, sense != neg, addr, n + Used(x), dyn)
    case _ => LeafLadder(e, sense, addr, n, dyn)
  }

  /** The first triple of the new ladder. */
  function First(e: Expr, n: Id): Id {
    match e
    case Com(_, x) => First(x, n)
    case Bin(_, _, _, x, _) => First(x, n)
    case _ => n + 1
  }

  /** The new ladder with its jumps redirected: a jump past an operator goes to `nxt`, the triple that
      follows that operator's own ladder. */
  function FinalLadder(e: Expr, sense: bool, addr: Target, nxt: Id, n: Id, dyn: bool): seq<Triple> {
    match e
    case Com(_, x) => FinalLadder(x, !sense, addr, nxt, n, dyn)
    case Bin(id, d, neg, x, y) =>
      var s := sense != neg;
      FinalLadder(x, d, if d != s then TJmp(nxt) else addr, First(y, n + Used(x)), n, dyn) +
      FinalLadder(y, s, addr, nxt, n + Used(x), dyn)
    case _ => LeafLadder(e, sense, addr, n, dyn)
  }

  // ---- The ladder over kept values -------------------------------------------------------------

  /** The tree's truth over the values the ladder finds in the machine. */
  ghost predicate Tested(i: Interp, e: Expr, n: Id, dyn: bool, m: Machine) {
    match e
    case Cobool(id, o) => Value(m, CoboolRef(o, id, dyn)) != 0
    case Test(id, _) => Value(m, id) != 0
    case Rel(id, rel, neg, l, r) => Holds(rel, i, Value(m, KeptRef(l, id, dyn)), Value(m, KeptRef(r, n, dyn))) != neg
    case Com(_, x) => !Tested(i, x, n, dyn, m)
    case Bin(_, d, neg, x, y) =>
      (if Tested(i, x, n, dyn, m) == d then d else Tested(i, y, n + Used(x), dyn, m)) != neg
  }

  /** Only the condition code and the mode differ. */
  ghost predicate SameValues(m: Machine, m': Machine) {
    m' == m.(cc := m'.cc, mode := m'.mode)
  }

  lemma {:induction false} TestedSame(i: Interp, e: Expr, n: Id, dyn: bool, m: Machine, m': Machine)
    requires SameValues(m, m')
    ensures Tested(i, e, n, dyn, m') == Tested(i, e, n, dyn, m)
  {
    if e.Com? {
      TestedSame(i, e.e, n, dyn, m, m');
    } else if e.Bin? {
      TestedSame(i, e.e0, n, dyn, m, m');
      TestedSame(i, e.e1, n + Used(e.e0), dyn, m, m');
    }
  }

  ghost predicate Beyond(addr: Target, n: Id) { addr.TJmp? ==> addr.id >= n }

  lemma {:induction false} FinalAbsent(e: Expr, sense: bool, addr: Target, nxt: Id, n: Id, dyn: bool, k: Id)
    requires k >= n + Span(e)
    ensures Absent(FinalLadder(e, sense, addr, nxt, n, dyn), k)
  {
    if e.Com? {
      FinalAbsent(e.e, !sense, addr, nxt, n, dyn, k);
    } else if e.Bin? {
      var s := sense != e.negated;
      FinalAbsent(e.e0, e.disjunction, if e.disjunction != s then TJmp(nxt) else addr, First(e.e1, n + Used(e.e0)), n,
                  dyn, k);
      FinalAbsent(e.e1, s, addr, nxt, n + Used(e.e0), dyn, k);
    }
  }

  lemma {:induction false} FinalFirst(e: Expr, sense: bool, addr: Target, nxt: Id, n: Id, dyn: bool)
    ensures var c := FinalLadder(e, sense, addr, nxt, n, dyn); c != [] && c[0].id == First(e, n)
    ensures n < First(e, n) < n + Span(e)
  {
    if e.Com? {
      FinalFirst(e.e, !sense, addr, nxt, n, dyn);
    } else if e.Bin? {
      var s := sense != e.negated;
      FinalFirst(e.e0, e.disjunction, if e.disjunction != s then TJmp(nxt) else addr, First(e.e1, n + Used(e.e0)), n,
                 dyn);
    }
  }

  lemma CoboolJump(i: Interp, t: Id, ref: Id, j: Id, sense: bool, addr: Target, m: Machine)
    requires m.mode == Going
    ensures
      var m' := Run(i, [Triple(t, OcCobool(ref)), Jump(j, if sense then JmpNeq else JmpEqu, addr)], m);
      SameValues(m, m') && m'.mode == if (Value(m, ref) != 0) == sense then Seeking(addr) else Going
  {
    var c := [Triple(t, OcCobool(ref)), Jump(j, if sense then JmpNeq else JmpEqu, addr)];
    assert c == [] + [c[0], c[1]];
    RunLeaf(i, [], c[0], c[1], m);
  }

  lemma CmpJump(i: Interp, t: Id, rel: Relation, l: Id, r: Id, j: Id, sense: bool, addr: Target, m: Machine)
    requires m.mode == Going
    ensures
      var m' := Run(i, [Triple(t, OcCmp(CmpOf(rel), l, r)), Jump(j, JumpOf(rel, sense), addr)], m);
      SameValues(m, m') && m'.mode == if Holds(rel, i, Value(m, l), Value(m, r)) == sense then Seeking(addr) else Going
  {
    var c := [Triple(t, OcCmp(CmpOf(rel), l, r)), Jump(j, JumpOf(rel, sense), addr)];
    assert c == [] + [c[0], c[1]];
    RunLeaf(i, [], c[0], c[1], m);
  }

  lemma LeafTested(i: Interp, e: Expr, sense: bool, addr: Target, n: Id, dyn: bool, m: Machine)
    requires !e.Com? && !e.Bin? && m.mode == Going
    ensures
      var m' := Run(i, LeafLadder(e, sense, addr, n, dyn), m);
      SameValues(m, m') && m'.mode == if Tested(i, e, n, dyn, m) == sense then Seeking(addr) else Going
  {
    match e
    case Cobool(id, o) => CoboolJump(i, n + 1, CoboolRef(o, id, dyn), n + 2, sense, addr, m);
    case Test(id, g) => CoboolJump(i, n + 1, id, n, sense, addr, m);
    case Rel(id, rel, neg, l, r) =>
      CmpJump(i, n + 1, rel, KeptRef(l, id, dyn), KeptRef(r, n, dyn), n + 2, sense != neg, addr, m);
  }

  /** Seeking the first triple of a chain is the same as going into it. */
  lemma RunEnter(i: Interp, code: seq<Triple>, m: Machine)
    requires code != [] && m.mode == Seeking(TJmp(code[0].id))
    ensures Run(i, code, m) == Run(i, code, m.(mode := Going))
  {
  }

  /** The redirected ladder jumps to `addr` exactly when the tree's truth over the kept values is
      `sense`; otherwise it comes out at its end or looking for `nxt`, the triple right after it. */
  ghost predicate Decides(i: Interp, e: Expr, sense: bool, addr: Target, nxt: Id, n: Id, dyn: bool, m: Machine) {
    var m' := Run(i, FinalLadder(e, sense, addr, nxt, n, dyn), m);
    && SameValues(m, m')
    && (if Tested(i, e, n, dyn, m) == sense then m'.mode == Seeking(addr) else m'.mode in {Going, Seeking(TJmp(nxt))})
  }

  lemma {:induction false} FinalCorrect(i: Interp, e: Expr, sense: bool, addr: Target, nxt: Id, n: Id, dyn: bool,
                                        m: Machine)
    requires m.mode == Going && Beyond(addr, n + Span(e)) && nxt >= n + Span(e)
    ensures Decides(i, e, sense, addr, nxt, n, dyn, m)
  {
    if e.Com? {
      FinalCorrect(i, e.e, !sense, addr, nxt, n, dyn, m);
    } else if e.Bin? {
      var d, s, n1 := e.disjunction, sense != e.negated, n + Used(e.e0);
      var p := if d != s then TJmp(nxt) else addr;
      FinalFirst(e.e1, s, addr, nxt, n1, dyn);
      FinalCorrect(i, e.e0, d, p, First(e.e1, n1), n, dyn, m);
      if Tested(i, e.e0, n, dyn, m) == d {
        FinalHit(i, e, sense, addr, nxt, n, dyn, m, p);
      } else {
        var m0 := Run(i, FinalLadder(e.e0, d, p, First(e.e1, n1), n, dyn), m);
        FinalCorrect(i, e.e1, s, addr, nxt, n1, dyn, m0.(mode := Going));
        FinalMiss(i, e, sense, addr, nxt, n, dyn, m, p, m0);
      }
    } else {
      LeafTested(i, e, sense, addr, n, dyn, m);
    }
  }

  /** The ladders of an operator's operands run one after the other. */
  lemma FinalRuns(i: Interp, e: Expr, sense: bool, addr: Target, nxt: Id, n: Id, dyn: bool, m: Machine, p: Target)
    requires e.Bin? && p == if e.disjunction != (sense != e.negated) then TJmp(nxt) else addr
    ensures Run(i, FinalLadder(e, sense, addr, nxt, n, dyn), m)
      == Run(i, FinalLadder(e.e1, sense != e.negated, addr, nxt, n + Used(e.e0), dyn),
             Run(i, FinalLadder(e.e0, e.disjunction, p, First(e.e1, n + Used(e.e0)), n, dyn), m))
  {
    var n1 := n + Used(e.e0);
    RunConcat(i, FinalLadder(e.e0, e.disjunction, p, First(e.e1, n1), n, dyn),
              FinalLadder(e.e1, sense != e.negated, addr, nxt, n1, dyn), m);
  }

  /** The first operand decides: the second ladder is passed over. */
  lemma FinalHit(i: Interp, e: Expr, sense: bool, addr: Target, nxt: Id, n: Id, dyn: bool, m: Machine, p: Target)
    requires e.Bin? && Beyond(addr, n + Span(e)) && nxt >= n + Span(e)
    requires p == if e.disjunction != (sense != e.negated) then TJmp(nxt) else addr
    requires Decides(i, e.e0, e.disjunction, p, First(e.e1, n + Used(e.e0)), n, dyn, m)
    requires Tested(i, e.e0, n, dyn, m) == e.disjunction
    ensures Decides(i, e, sense, addr, nxt, n, dyn, m)
  {
    var m0 := Run(i, FinalLadder(e.e0, e.disjunction, p, First(e.e1, n + Used(e.e0)), n, dyn), m);
    FinalRuns(i, e, sense, addr, nxt, n, dyn, m, p);
    if p.TJmp? {
      FinalAbsent(e.e1, sense != e.negated, addr, nxt, n + Used(e.e0), dyn, p.id);
    }
    RunSkip(i, FinalLadder(e.e1, sense != e.negated, addr, nxt, n + Used(e.e0), dyn), m0);
  }

  /** It does not: the second ladder decides. */
  lemma FinalMiss(i: Interp, e: Expr, sense: bool, addr: Target, nxt: Id, n: Id, dyn: bool, m: Machine, p: Target,
                  m0: Machine)
    requires e.Bin? && p == if e.disjunction != (sense != e.negated) then TJmp(nxt) else addr
    requires m0 == Run(i, FinalLadder(e.e0, e.disjunction, p, First(e.e1, n + Used(e.e0)), n, dyn), m)
    requires Decides(i, e.e0, e.disjunction, p, First(e.e1, n + Used(e.e0)), n, dyn, m)
    requires Tested(i, e.e0, n, dyn, m) != e.disjunction
    requires Decides(i, e.e1, sense != e.negated, addr, nxt, n + Used(e.e0), dyn, m0.(mode := Going))
    ensures Decides(i, e, sense, addr, nxt, n, dyn, m)
  {
    var n1 := n + Used(e.e0);
    FinalRuns(i, e, sense, addr, nxt, n, dyn, m, p);
    FinalFirst(e.e1, sense != e.negated, addr, nxt, n1, dyn);
    EnterSecond(i, FinalLadder(e.e1, sense != e.negated, addr, nxt, n1, dyn), m0, First(e.e1, n1));
    TestedSame(i, e.e1, n1, dyn, m, m0.(mode := Going));
  }

  /** Falling through to a ladder or looking for its first triple comes to the same. */
  lemma EnterSecond(i: Interp, c: seq<Triple>, m: Machine, first: Id)
    requires c != [] && c[0].id == first && m.mode in {Going, Seeking(TJmp(first))}
    ensures Run(i, c, m) == Run(i, c, m.(mode := Going))
  {
    if m.mode != Going {
      RunEnter(i, c, m);
    }
  }

  // ---- The kept values -------------------------------------------------------------------------

  /** Evaluating every operand, left to right. */
  ghost function AfterAll(i: Interp, e: Expr, s: State): State {
    match e
    case Cobool(_, o) => After(i, o, s)
    case Test(_, _) => s
    case Rel(_, _, _, l, r) => After(i, r, After(i, l, s))
    case Com(_, x) => AfterAll(i, x, s)
    case Bin(_, _, _, x, y) => AfterAll(i, y, AfterAll(i, x, s))
  }

  /** What is kept of the operand of a coercion: the value of a plain variable; of anything else, what
      its evaluation left, unary operators aside. */
  ghost function CoboolLoc(i: Interp, o: Opd, s: State): Loc {
    if o.Var? then ByVal(Deref(s.store, o.cell)) else OpdLoc(i, Base(o), s)
  }

  /** What is kept of an operand of a relation evaluated at `at` whose operands are done at `s`. */
  ghost function RelLoc(i: Interp, o: Opd, at: State, s: State): Loc {
    if o.Var? then ByVal(Deref(s.store, o.cell)) else OpdLoc(i, o, at)
  }

  /** The machine holds what was kept of every operand of `e`, evaluated from `s`. */
  ghost predicate Holding(i: Interp, e: Expr, n: Id, dyn: bool, s: State, m: Machine) {
    match e
    case Cobool(id, o) => Get(m, CoboolRef(o, id, dyn)) == CoboolLoc(i, o, s)
    case Test(id, _) => Get(m, id) == ByVal(Deref(s.store, TEST_CELL))
    case Rel(id, _, _, l, r) =>
      var s1 := After(i, l, s);
      var s2 := After(i, r, s1);
      Get(m, KeptRef(l, id, dyn)) == RelLoc(i, l, s, s2) && Get(m, KeptRef(r, n, dyn)) == RelLoc(i, r, s1, s2)
    case Com(_, x) => Holding(i, x, n, dyn, s, m)
    case Bin(_, _, _, x, y) => Holding(i, x, n, dyn, s, m) && Holding(i, y, n + Used(x), dyn, AfterAll(i, x, s), m)
  }

  /** The two machines agree on all triples numbered outside `e` and the numbers it uses. */
  ghost predicate Framed(e: Expr, n: Id, m: Machine, m': Machine) {
    forall k: Id :: k !in ExprIds(e) && !(n <= k < n + Used(e)) ==> Get(m', k) == Get(m, k)
  }

  /** The two machines agree on the triples of `e`. */
  ghost predicate Agreeing(e: Expr, n: Id, m: Machine, m': Machine) {
    forall k: Id :: k in ExprIds(e) || n <= k < n + Used(e) ==> Get(m', k) == Get(m, k)
  }

  lemma {:induction false} HoldingKept(i: Interp, e: Expr, n: Id, dyn: bool, s: State, m: Machine, m': Machine)
    requires Holding(i, e, n, dyn, s, m) && Agreeing(e, n, m, m')
    ensures Holding(i, e, n, dyn, s, m')
  {
    match e
    case Com(_, x) =>
      assert ExprIds(x) <= ExprIds(e);
      HoldingKept(i, x, n, dyn, s, m, m');
    case Bin(_, _, _, x, y) =>
      assert ExprIds(x) <= ExprIds(e) && ExprIds(y) <= ExprIds(e);
      HoldingKept(i, x, n, dyn, s, m, m');
      HoldingKept(i, y, n + Used(x), dyn, AfterAll(i, x, s), m, m');
    case Cobool(id, o) => assert CoboolRef(o, id, dyn) in ExprIds(e);
    case Test(id, _) => assert id in ExprIds(e);
    case Rel(id, _, _, l, r) => assert KeptRef(l, id, dyn) in ExprIds(e) &&
      (KeptRef(r, n, dyn) in ExprIds(e) || KeptRef(r, n, dyn) == n);
  }

  lemma {:induction false} RunPassOpd(i: Interp, o: Opd, m: Machine)
    requires m.mode == Going
    ensures
      var m' := Run(i, PassOpd(o), m);
      && m'.mode == Going && StateOf(m') == After(i, o, StateOf(m))
      && Get(m', o.id) == OpdLoc(i, Base(o), StateOf(m))
      && (forall k :: k !in OpdIds(o) ==> Get(m', k) == Get(m, k))
  {
    if o.Unary? {
      var last := [Triple(o.id, OcPassthru(o.o.id))];
      RunPassOpd(i, o.o, m);
      RunConcat(i, PassOpd(o.o), last, m);
      RunOne(i, last[0], Run(i, PassOpd(o.o), m));
    } else {
      RunOpd(i, o, m);
    }
  }

  /** Running the kept chain of `e` from `m`. */
  ghost predicate KeptRuns(i: Interp, e: Expr, n: Id, dyn: bool, m: Machine) {
    var m' := Run(i, Kept(e, n, dyn), m);
    && m'.mode == Going && StateOf(m') == AfterAll(i, e, StateOf(m))
    && Holding(i, e, n, dyn, StateOf(m), m') && Framed(e, n, m, m')
  }

  lemma KeptCobool(i: Interp, e: Expr, n: Id, dyn: bool, m: Machine)
    requires e.Cobool? && m.mode == Going && Wf(e)
    ensures KeptRuns(i, e, n, dyn, m)
  {
    var Cobool(id, o) := e;
    var m1 := Run(i, PassOpd(o), m);
    RunPassOpd(i, o, m);
    RunLeaf(i, PassOpd(o), Triple(id, KeepCobool(o, dyn)), Triple(n, OcNoop), m);
    assert StateOf(m1).store == After(i, o, StateOf(m)).store;
  }

  /** One keeping triple. */
  lemma KeepStep(i: Interp, t: Id, o: Opd, dyn: bool, m: Machine)
    requires m.mode == Going && (o.Var? ==> Get(m, o.id) == ByRef(o.cell)) && (o.Lit? ==> Get(m, o.id) == ByVal(o.v))
    ensures
      var m' := Step(i, Triple(t, Keep(o, dyn)), m);
      && m'.mode == Going && StateOf(m') == StateOf(m)
      && Get(m', KeptRef(o, t, dyn)) == (if o.Var? then ByVal(Deref(m.store, o.cell)) else Get(m, o.id))
      && (forall k :: k != t ==> Get(m', k) == Get(m, k))
  {
  }

  lemma KeptRel(i: Interp, e: Expr, n: Id, dyn: bool, m: Machine)
    requires e.Rel? && m.mode == Going && Wf(e) && forall k :: k in ExprIds(e) ==> k < n
    ensures KeptRuns(i, e, n, dyn, m)
  {
    var Rel(id, _, _, l, r) := e;
    var m1 := Run(i, SrcOpd(l), m);
    RunOpd(i, l, m);
    RunOpd(i, r, m1);
    RunConcat(i, SrcOpd(l), SrcOpd(r), m);
    var m2 := Run(i, SrcOpd(r), m1);
    assert l.id in OpdIds(l) && r.id in OpdIds(r) && l.id in ExprIds(e) && r.id in ExprIds(e) && id in ExprIds(e);
    RunLeaf(i, SrcOpd(l) + SrcOpd(r), Triple(id, Keep(l, dyn)), Triple(n, Keep(r, dyn)), m);
    KeepStep(i, id, l, dyn, m2);
    KeepStep(i, n, r, dyn, Step(i, Triple(id, Keep(l, dyn)), m2));
  }

  /** The kept chain runs straight through: every operand is evaluated once, in source order, and what
      is kept of it is in place at the end. */
  lemma {:induction false} KeptCorrect(i: Interp, e: Expr, n: Id, dyn: bool, m: Machine)
    requires m.mode == Going && Numbered(e, n)
    ensures KeptRuns(i, e, n, dyn, m)
    decreases e, 1
  {
    match e
    case Cobool(_, _) => KeptCobool(i, e, n, dyn, m);
    case Rel(_, _, _, _, _) => KeptRel(i, e, n, dyn, m);
    case Test(id, g) =>
      assert Kept(e, n, dyn) == [] + [Triple(g, OcNoop), Triple(id, OcGettruth)];
      RunLeaf(i, [], Triple(g, OcNoop), Triple(id, OcGettruth), m);
    case Com(id, x) =>
      assert ExprIds(x) <= ExprIds(e);
      KeptCorrect(i, x, n, dyn, m);
      RunConcat(i, Kept(x, n, dyn), [Triple(id, OcNoop)], m);
      RunOne(i, Triple(id, OcNoop), Run(i, Kept(x, n, dyn), m));
    case Bin(id, _, _, x, y) => KeptBin(i, e, n, dyn, m);
  }

  /** Two pieces of code and a no-op. */
  lemma RunThree(i: Interp, c0: seq<Triple>, c1: seq<Triple>, id: Id, m: Machine)
    requires Run(i, c1, Run(i, c0, m)).mode == Going
    ensures Run(i, c0 + c1 + [Triple(id, OcNoop)], m) == Run(i, c1, Run(i, c0, m))
  {
    RunConcat(i, c0 + c1, [Triple(id, OcNoop)], m);
    RunConcat(i, c0, c1, m);
    RunOne(i, Triple(id, OcNoop), Run(i, c1, Run(i, c0, m)));
  }

  lemma KeptBin(i: Interp, e: Expr, n: Id, dyn: bool, m: Machine)
    requires e.Bin? && m.mode == Going && Numbered(e, n)
    ensures KeptRuns(i, e, n, dyn, m)
    decreases e, 0
  {
    BothNumbered(e, n);
    KeptCorrect(i, e.e0, n, dyn, m);
    var m0 := Run(i, Kept(e.e0, n, dyn), m);
    KeptCorrect(i, e.e1, n + Used(e.e0), dyn, m0);
    KeptTwo(i, e, n, dyn, m, m0, Run(i, Kept(e.e1, n + Used(e.e0), dyn), m0));
  }

  lemma BothNumbered(e: Expr, n: Id)
    requires e.Bin? && Numbered(e, n)
    ensures Numbered(e.e0, n) && Numbered(e.e1, n + Used(e.e0))
  {
    assert ExprIds(e.e0) <= ExprIds(e) && ExprIds(e.e1) <= ExprIds(e);
  }

  lemma KeptTwo(i: Interp, e: Expr, n: Id, dyn: bool, m: Machine, m0: Machine, m1: Machine)
    requires e.Bin? && m.mode == Going && Numbered(e, n)
    requires m0 == Run(i, Kept(e.e0, n, dyn), m) && KeptRuns(i, e.e0, n, dyn, m)
    requires m1 == Run(i, Kept(e.e1, n + Used(e.e0), dyn), m0) && KeptRuns(i, e.e1, n + Used(e.e0), dyn, m0)
    ensures KeptRuns(i, e, n, dyn, m)
  {
    RunThree(i, Kept(e.e0, n, dyn), Kept(e.e1, n + Used(e.e0), dyn), e.id, m);
    KeptApart(e, n, m0, m1);
    HoldingKept(i, e.e0, n, dyn, StateOf(m), m0, m1);
    FramedTwo(e, n, m, m0, m1);
  }

  /** What the second operand leaves of the first. */
  lemma KeptApart(e: Expr, n: Id, m0: Machine, m1: Machine)
    requires e.Bin? && Numbered(e, n) && Framed(e.e1, n + Used(e.e0), m0, m1)
    ensures Agreeing(e.e0, n, m0, m1)
  {
    assert ExprIds(e.e0) <= ExprIds(e) && ExprIds(e.e1) <= ExprIds(e);
  }

  lemma FramedTwo(e: Expr, n: Id, m: Machine, m0: Machine, m1: Machine)
    requires e.Bin? && Framed(e.e0, n, m, m0) && Framed(e.e1, n + Used(e.e0), m0, m1)
    ensures Framed(e, n, m, m1)
  {
    assert ExprIds(e.e0) <= ExprIds(e) && ExprIds(e.e1) <= ExprIds(e);
  }

  // ---- The whole -------------------------------------------------------------------------------

  /** The tree's truth as the new ladder sees it: kept values, and whatever was kept as an address
      read in the store `late`. */
  ghost predicate LateTruth(i: Interp, e: Expr, s: State, late: Store) {
    match e
    case Cobool(_, o) => LocValue(late, CoboolLoc(i, o, s)) != 0
    case Test(_, _) => Deref(s.store, TEST_CELL) != 0
    case Rel(_, rel, neg, l, r) =>
      var s1 := After(i, l, s);
      var s2 := After(i, r, s1);
      Holds(rel, i, LocValue(late, RelLoc(i, l, s, s2)), LocValue(late, RelLoc(i, r, s1, s2))) != neg
    case Com(_, x) => !LateTruth(i, x, s, late)
    case Bin(_, d, neg, x, y) =>
      (if LateTruth(i, x, s, late) == d then d else LateTruth(i, y, AfterAll(i, x, s), late)) != neg
  }

  lemma {:induction false} TestedLate(i: Interp, e: Expr, n: Id, dyn: bool, s: State, m: Machine)
    requires Holding(i, e, n, dyn, s, m)
    ensures Tested(i, e, n, dyn, m) == LateTruth(i, e, s, m.store)
  {
    if e.Com? {
      TestedLate(i, e.e, n, dyn, s, m);
    } else if e.Bin? {
      TestedLate(i, e.e0, n, dyn, s, m);
      TestedLate(i, e.e1, n + Used(e.e0), dyn, AfterAll(i, e.e0, s), m);
    }
  }

  /** The chain bx_boolop leaves for an outermost operator: kept operands, ladder, safe target. */
  function FullChain(e: Expr, sense: bool, addr: Target, n: Id, dyn: bool): seq<Triple> {
    var safe := n + Span(e);
    Kept(e, n, dyn) + FinalLadder(e, sense, addr, safe, n, dyn) + [Triple(safe, OcNoop)]
  }

  /** Full evaluation is right: every operand runs exactly once, in source order, and the jump to
      `addr` is taken exactly when the truth over the kept values is `sense`. */
  lemma FullCorrect(i: Interp, e: Expr, sense: bool, addr: Target, n: Id, dyn: bool, m: Machine)
    requires m.mode == Going && Numbered(e, n) && Beyond(addr, n + Span(e) + 1)
    ensures
      var s := StateOf(m);
      Reaches(i, FullChain(e, sense, addr, n, dyn), m,
              (LateTruth(i, e, s, AfterAll(i, e, s).store), AfterAll(i, e, s)), sense, addr)
  {
    var safe := n + Span(e);
    KeptCorrect(i, e, n, dyn, m);
    var m0 := Run(i, Kept(e, n, dyn), m);
    FinalCorrect(i, e, sense, addr, safe, n, dyn, m0);
    TestedLate(i, e, n, dyn, StateOf(m), m0);
    FullRuns(i, Kept(e, n, dyn), FinalLadder(e, sense, addr, safe, n, dyn), safe, m);
  }

  /** Kept operands, ladder and safe target, one after the other. */
  lemma FullRuns(i: Interp, c0: seq<Triple>, c1: seq<Triple>, safe: Id, m: Machine)
    ensures Run(i, c0 + c1 + [Triple(safe, OcNoop)], m) == Run(i, [Triple(safe, OcNoop)], Run(i, c1, Run(i, c0, m)))
    ensures var m1 := Run(i, c1, Run(i, c0, m));
      Run(i, [Triple(safe, OcNoop)], m1) == if m1.mode == Seeking(TJmp(safe)) then m1.(mode := Going) else m1
  {
    RunConcat(i, c0 + c1, [Triple(safe, OcNoop)], m);
    RunConcat(i, c0, c1, m);
    RunOne(i, Triple(safe, OcNoop), Run(i, c1, Run(i, c0, m)));
  }

  // ---- When the kept values are the source values ------------------------------------------------

  /** The values the new ladder tests, left to right. */
  ghost function SeenValues(i: Interp, e: Expr, s: State, late: Store): seq<int> {
    match e
    case Cobool(_, o) => [LocValue(late, CoboolLoc(i, o, s))]
    case Test(_, _) => [Deref(s.store, TEST_CELL)]
    case Rel(_, _, _, l, r) =>
      var s1 := After(i, l, s);
      var s2 := After(i, r, s1);
      [LocValue(late, RelLoc(i, l, s, s2)), LocValue(late, RelLoc(i, r, s1, s2))]
    case Com(_, x) => SeenValues(i, x, s, late)
    case Bin(_, _, _, x, y) => SeenValues(i, x, s, late) + SeenValues(i, y, AfterAll(i, x, s), late)
  }

  /** The values those operands had when their leaf was evaluated, before any later operand ran. */
  ghost function SourceValues(i: Interp, e: Expr, s: State): seq<int> {
    match e
    case Com(_, x) => SourceValues(i, x, s)
    case Bin(_, _, _, x, y) => SourceValues(i, x, s) + SourceValues(i, y, AfterAll(i, x, s))
    case _ => SeenValues(i, e, s, AfterAll(i, e, s).store)
  }

  /** The tree's truth by full evaluation in source order, each leaf decided when it is evaluated. */
  ghost predicate SourceTruth(i: Interp, e: Expr, s: State) {
    match e
    case Com(_, x) => !SourceTruth(i, x, s)
    case Bin(_, d, neg, x, y) =>
      (if SourceTruth(i, x, s) == d then d else SourceTruth(i, y, AfterAll(i, x, s))) != neg
    case _ => ShortEval(i, e, s).0
  }

  /** Some leaf keeps an address: a subscripted node, or a plain variable under a unary operator. */
  predicate KeepsAddress(e: Expr) {
    match e
    case Cobool(_, o) => Base(o).Index? || (o.Unary? && Base(o).Var?)
    case Test(_, _) => false
    case Rel(_, _, _, l, r) => l.Index? || r.Index?
    case Com(_, x) => KeepsAddress(x)
    case Bin(_, _, _, x, y) => KeepsAddress(x) || KeepsAddress(y)
  }

  /** How many operands may have side effects. */
  function Effects(e: Expr): nat {
    match e
    case Cobool(_, o) => OpdEffects(o)
    case Test(_, _) => 0
    case Rel(_, _, _, l, r) => OpdEffects(l) + OpdEffects(r)
    case Com(_, x) => Effects(x)
    case Bin(_, _, _, x, y) => Effects(x) + Effects(y)
  }

  function OpdEffects(o: Opd): nat { if Base(o).Eval? then 1 else 0 }

  /** No leaf that keeps an address stands before an operand with side effects. */
  predicate Careful(e: Expr) {
    match e
    case Com(_, x) => Careful(x)
    case Bin(_, _, _, x, y) => Careful(x) && Careful(y) && !(KeepsAddress(x) && Effects(y) > 0)
    case _ => true
  }

  lemma {:induction false} NoEffects(i: Interp, e: Expr, s: State)
    requires Effects(e) == 0
    ensures AfterAll(i, e, s) == s
  {
    match e
    case Cobool(_, o) => NoOpdEffects(i, o, s);
    case Test(_, _) =>
    case Rel(_, _, _, l, r) =>
      NoOpdEffects(i, l, s);
      NoOpdEffects(i, r, s);
    case Com(_, x) => NoEffects(i, x, s);
    case Bin(_, _, _, x, y) =>
      NoEffects(i, x, s);
      NoEffects(i, y, s);
  }

  lemma {:induction false} NoOpdEffects(i: Interp, o: Opd, s: State)
    requires OpdEffects(o) == 0
    ensures After(i, o, s) == s
  {
    if o.Unary? {
      NoOpdEffects(i, o.o, s);
    }
  }

  /** Leading unary operators do not change an operand's truth. */
  lemma {:induction false} UnaryTruth(i: Interp, o: Opd, s: State)
    ensures (LocValue(After(i, o, s).store, OpdLoc(i, o, s)) == 0) ==
            (LocValue(After(i, o, s).store, OpdLoc(i, Base(o), s)) == 0)
  {
    if o.Unary? {
      UnaryTruth(i, o.o, s);
    }
  }

  lemma LeafTruth(i: Interp, e: Expr, s: State)
    requires !e.Com? && !e.Bin?
    ensures LateTruth(i, e, s, AfterAll(i, e, s).store) == SourceTruth(i, e, s)
  {
    if e.Cobool? {
      UnaryTruth(i, e.o, s);
    }
  }

  lemma LeafNoAddress(i: Interp, e: Expr, s: State, late: Store)
    requires !e.Com? && !e.Bin? && !KeepsAddress(e)
    ensures SeenValues(i, e, s, late) == SourceValues(i, e, s)
    ensures LateTruth(i, e, s, late) == LateTruth(i, e, s, AfterAll(i, e, s).store)
  {
    match e
    case Cobool(_, o) => assert CoboolLoc(i, o, s).ByVal?;
    case Test(_, _) =>
    case Rel(_, _, _, l, r) =>
  }

  /** A careful tree: the ladder tests the source values and decides as the source does, whatever the
      operands do. */
  lemma {:induction false} CarefulKept(i: Interp, e: Expr, s: State, late: Store)
    requires Careful(e) && (KeepsAddress(e) ==> late == AfterAll(i, e, s).store)
    ensures SeenValues(i, e, s, late) == SourceValues(i, e, s)
    ensures LateTruth(i, e, s, late) == SourceTruth(i, e, s)
  {
    match e
    case Com(_, x) => CarefulKept(i, x, s, late);
    case Bin(_, _, _, x, y) =>
      if KeepsAddress(x) {
        NoEffects(i, y, AfterAll(i, x, s));
      }
      CarefulKept(i, x, s, late);
      CarefulKept(i, y, AfterAll(i, x, s), late);
    case _ =>
      LeafTruth(i, e, s);
      if !KeepsAddress(e) {
        LeafNoAddress(i, e, s, late);
      }
  }

  /** An interpretation in which every side effect adds one to every cell. */
  ghost function Adv(s: Store, j: nat): Store { map c | c in s :: s[c] + j }

  ghost function Ticking(): Interp { Interp((c, a, b) => 0, (e, s) => 0, (e, s) => Adv(s, 1)) }

  ghost function OpdCells(o: Opd): set<nat> {
    match o
    case Var(_, c) => {c}
    case Index(_, c) => {c}
    case Unary(_, _, u) => OpdCells(u)
    case _ => {}
  }

  ghost function Cells(e: Expr): set<nat> {
    match e
    case Cobool(_, o) => OpdCells(o)
    case Test(_, _) => {}
    case Rel(_, _, _, l, r) => OpdCells(l) + OpdCells(r)
    case Com(_, x) => Cells(x)
    case Bin(_, _, _, x, y) => Cells(x) + Cells(y)
  }

  lemma AdvAdv(s: Store, j: nat, k: nat)
    ensures Adv(Adv(s, j), k) == Adv(s, j + k) && Adv(s, 0) == s
  {
  }

  lemma {:induction false} TickingOpd(o: Opd, s: State)
    ensures After(Ticking(), o, s).store == Adv(s.store, OpdEffects(o))
  {
    AdvAdv(s.store, 0, 0);
    if o.Unary? {
      TickingOpd(o.o, s);
    }
  }

  lemma {:induction false} TickingAll(e: Expr, s: State)
    ensures AfterAll(Ticking(), e, s).store == Adv(s.store, Effects(e))
  {
    match e
    case Cobool(_, o) => TickingOpd(o, s);
    case Test(_, _) => AdvAdv(s.store, 0, 0);
    case Rel(_, _, _, l, r) =>
      TickingOpd(l, s);
      TickingOpd(r, After(Ticking(), l, s));
      AdvAdv(s.store, OpdEffects(l), OpdEffects(r));
    case Com(_, x) => TickingAll(x, s);
    case Bin(_, _, _, x, y) =>
      TickingAll(x, s);
      TickingAll(y, AfterAll(Ticking(), x, s));
      AdvAdv(s.store, Effects(x), Effects(y));
  }

  lemma {:induction false} SameLength(i: Interp, e: Expr, s: State, late: Store)
    ensures |SeenValues(i, e, s, late)| == |SourceValues(i, e, s)|
  {
    match e
    case Com(_, x) => SameLength(i, x, s, late);
    case Bin(_, _, _, x, y) =>
      SameLength(i, x, s, late);
      SameLength(i, y, AfterAll(i, x, s), late);
    case _ =>
  }

  lemma {:induction false} BaseCell(o: Opd)
    requires Base(o).Index? || Base(o).Var?
    ensures Base(o).cell in OpdCells(o)
  {
    if o.Unary? {
      BaseCell(o.o);
    }
  }

  /** With ticking side effects, a leaf that keeps an address sees a later value once `j` more effects
      have run. */
  lemma LeafTicks(e: Expr, s: State, j: nat)
    requires !e.Com? && !e.Bin? && KeepsAddress(e) && j > 0 && Cells(e) <= s.store.Keys
    ensures SeenValues(Ticking(), e, s, Adv(s.store, Effects(e) + j)) != SourceValues(Ticking(), e, s)
  {
    TickingAll(e, s);
    var late := Adv(s.store, Effects(e) + j);
    match e
    case Cobool(_, o) =>
      BaseCell(o);
      assert SeenValues(Ticking(), e, s, late)[0] == s.store[Base(o).cell] + Effects(e) + j;
      assert SourceValues(Ticking(), e, s)[0] == s.store[Base(o).cell] + Effects(e);
    case Rel(_, _, _, l, r) =>
      var k, c := if l.Index? then 0 else 1, if l.Index? then l.cell else r.cell;
      assert SeenValues(Ticking(), e, s, late)[k] == s.store[c] + Effects(e) + j;
      assert SourceValues(Ticking(), e, s)[k] == s.store[c] + Effects(e);
  }

  lemma {:induction false} CarelessSeen(e: Expr, s: State, j: nat)
    requires Cells(e) <= s.store.Keys
    requires !Careful(e) || (KeepsAddress(e) && j > 0)
    ensures SeenValues(Ticking(), e, s, Adv(s.store, Effects(e) + j)) != SourceValues(Ticking(), e, s)
  {
    match e
    case Com(_, x) => CarelessSeen(x, s, j);
    case Bin(_, _, _, x, y) =>
      var i, s1 := Ticking(), AfterAll(Ticking(), x, s);
      var late := Adv(s.store, Effects(e) + j);
      TickingAll(x, s);
      AdvAdv(s.store, Effects(x), Effects(y) + j);
      SameLength(i, x, s, late);
      var a, b := SeenValues(i, x, s, late), SourceValues(i, x, s);
      assert SeenValues(i, e, s, late)[..|a|] == a && SourceValues(i, e, s)[..|b|] == b;
      if !Careful(x) || (KeepsAddress(x) && Effects(y) + j > 0) {
        CarelessSeen(x, s, Effects(y) + j);
      } else {
        CarelessSeen(y, s1, j);
        assert SeenValues(i, e, s, late)[|a|..] == SeenValues(i, y, s1, late);
        assert SourceValues(i, e, s)[|b|..] == SourceValues(i, y, s1);
      }
    case _ => LeafTicks(e, s, j);
  }

  /** The ladder tests the values the operands had in source order, for all operations, effects and
      stores, exactly when no leaf that keeps an address stands before an operand with effects. */
  lemma CapturedExactly(e: Expr)
    ensures (forall i: Interp, s: State :: SeenValues(i, e, s, AfterAll(i, e, s).store) == SourceValues(i, e, s)) <==>
      Careful(e)
  {
    if Careful(e) {
      forall i: Interp, s: State ensures SeenValues(i, e, s, AfterAll(i, e, s).store) == SourceValues(i, e, s) {
        CarefulKept(i, e, s, AfterAll(i, e, s).store);
      }
    } else {
      var s := State(map c | c in Cells(e) :: 0, []);
      TickingAll(e, s);
      CarelessSeen(e, s, 0);
    }
  }

  /** Without side effects both schemes decide alike. */
  lemma {:induction false} ShortIsSource(i: Interp, e: Expr, s: State)
    requires Effects(e) == 0
    ensures ShortEval(i, e, s) == (SourceTruth(i, e, s), s)
  {
    NoEffects(i, e, s);
    match e
    case Com(_, x) => ShortIsSource(i, x, s);
    case Bin(_, _, _, x, y) =>
      NoEffects(i, x, s);
      ShortIsSource(i, x, s);
      ShortIsSource(i, y, s);
    case _ =>
  }
}
