/** The short-circuit jump ladder (bx_tail.c, bx_relop.c, and the first path of bx_boolop.c). */
module BoolShort {
  import opened BoolTriples

  function CmpOf(r: Relation): Cmp {
    match r
    case Equ => OcEqu
    case Pattern => OcPattern
    case Follow => OcFollow
    case SortsAfter => OcSortsAfter
    case Contain => OcContain
    case Gt => OcNumcmp
    case Lt => OcNumcmp
  }

  /** The jump that is taken when the relation's truth is `sense`. */
  function JumpOf(r: Relation, sense: bool): Cond {
    match r
    case Equ => if sense then JmpNeq else JmpEqu
    case Pattern => if sense then JmpNeq else JmpEqu
    case Follow => if sense then JmpGtr else JmpLeq
    case SortsAfter => if sense then JmpGtr else JmpLeq
    case Contain => if sense then JmpNeq else JmpEqu
    case Gt => if sense then JmpGtr else JmpLeq
    case Lt => if sense then JmpLss else JmpGeq
  }

  /** Where the jump after the first operand goes: past the operator, or to its target. */
  function FirstTarget(id: Id, disjunction: bool, sense: bool, addr: Target): Target {
    if disjunction != sense then TJmp(id) else addr
  }

  /** How many jumps the ladder of `e` inserts. */
  function Jumps(e: Expr): nat {
    match e
    case Cobool(_, _) => 1
    case Test(_, _) => 0
    case Rel(_, _, _, _, _) => 1
    case Com(_, x) => Jumps(x)
    case Bin(_, _, _, x, y) => Jumps(x) + Jumps(y)
  }

  /** The ladder for `e`: jump to `addr` when its truth is `sense`, else fall through. New triples are
      numbered from `n`. */
  function Ladder(e: Expr, sense: bool, addr: Target, n: Id): seq<Triple> {
    match e
    case Cobool(id, o) =>
      SrcOpd(o) + [Triple(id, OcCobool(o.id)), Triple(n, OcJmp(if sense then JmpNeq else JmpEqu, addr))]
    case Test(id, g) =>
      [Triple(g, OcNoop), Triple(id, OcJmp(if sense then JmpTset else JmpTclr, addr))]
    case Rel(id, rel, neg, l, r) =>
      SrcOpd(l) + SrcOpd(r) +
      [Triple(id, OcCmp(CmpOf(rel), l.id, r.id)), Triple(n, OcJmp(JumpOf(rel, sense != neg), addr))]
    case Com(id, x) => Ladder(x, !sense, addr, n) + [Triple(id, OcNoop)]
    case Bin(id, d, neg, x, y) =>
      var s := sense != neg;
      Ladder(x, d, FirstTarget(id, d, s, addr), n) + Ladder(y, s, addr, n + Jumps(x)) + [Triple(id, OcNoop)]
  }

  /** Whether `addr` lies outside the triples of `e` and those it adds. */
  ghost predicate Outside(addr: Target, e: Expr, n: Id) {
    addr.TJmp? ==> addr.id !in ExprIds(e) && addr.id < n
  }

  /** The numbers of `e` are distinct and all below `n`. */
  ghost predicate Numbered(e: Expr, n: Id) {
    Wf(e) && forall k :: k in ExprIds(e) ==> k < n
  }

  lemma {:induction false} OpdAbsent(o: Opd, k: Id)
    requires k !in OpdIds(o)
    ensures Absent(SrcOpd(o), k)
  {
    if o.Unary? {
      OpdAbsent(o.o, k);
    }
  }

  lemma {:induction false} LadderAbsent(e: Expr, sense: bool, addr: Target, n: Id, k: Id)
    requires k !in ExprIds(e) && !(n <= k < n + Jumps(e))
    ensures Absent(Ladder(e, sense, addr, n), k)
  {
    match e
    case Cobool(_, o) => OpdAbsent(o, k);
    case Test(_, _) =>
    case Rel(_, _, _, l, r) =>
      OpdAbsent(l, k);
      OpdAbsent(r, k);
    case Com(_, x) => LadderAbsent(x, !sense, addr, n, k);
    case Bin(id, d, neg, x, y) =>
      var s := sense != neg;
      var a, b := Ladder(x, d, FirstTarget(id, d, s, addr), n), Ladder(y, s, addr, n + Jumps(x));
      LadderAbsent(x, d, FirstTarget(id, d, s, addr), n, k);
      LadderAbsent(y, s, addr, n + Jumps(x), k);
      AbsentThree(a, b, id, k);
  }

  lemma AbsentThree(a: seq<Triple>, b: seq<Triple>, id: Id, k: Id)
    requires Absent(a, k) && Absent(b, k) && id != k
    ensures Absent(a + b + [Triple(id, OcNoop)], k)
  {
  }

  /** Operand code, a test, a jump. */
  lemma RunLeaf(i: Interp, code: seq<Triple>, test: Triple, jump: Triple, m: Machine)
    ensures Run(i, code + [test, jump], m) == Step(i, jump, Step(i, test, Run(i, code, m)))
  {
    RunConcat(i, code, [test, jump], m);
    var m1 := Run(i, code, m);
    assert [test, jump][1..] == [jump];
    RunOne(i, jump, Step(i, test, m1));
  }

  /** Two operands, one after the other. */
  lemma OperandsRun(i: Interp, l: Opd, r: Opd, m: Machine)
    requires m.mode == Going && OpdIds(l) !! OpdIds(r)
    ensures
      var m2 := Run(i, SrcOpd(l) + SrcOpd(r), m);
      && m2.mode == Going && StateOf(m2) == After(i, r, After(i, l, StateOf(m)))
      && Get(m2, l.id) == OpdLoc(i, l, StateOf(m)) && Get(m2, r.id) == OpdLoc(i, r, After(i, l, StateOf(m)))
  {
    RunConcat(i, SrcOpd(l), SrcOpd(r), m);
    RunOpd(i, l, m);
    RunOpd(i, r, Run(i, SrcOpd(l), m));
  }

  /** A comparison and its jump. */
  lemma Decides(i: Interp, rel: Relation, negated: bool, sense: bool, left: Id, right: Id, id: Id, n: Id, addr: Target,
                m: Machine)
    requires m.mode == Going
    ensures
      var m' := Step(i, Triple(n, OcJmp(JumpOf(rel, sense != negated), addr)),
                     Step(i, Triple(id, OcCmp(CmpOf(rel), left, right)), m));
      && StateOf(m') == StateOf(m)
      && m'.mode == if (Holds(rel, i, Value(m, left), Value(m, right)) != negated) == sense then Seeking(addr)
        else Going
  {
  }

  lemma RelCorrect(i: Interp, e: Expr, sense: bool, addr: Target, n: Id, m: Machine)
    requires e.Rel? && m.mode == Going && Numbered(e, n)
    ensures Reaches(i, Ladder(e, sense, addr, n), m, ShortEval(i, e, StateOf(m)), sense, addr)
  {
    var Rel(id, rel, neg, l, r) := e;
    RunLeaf(i, SrcOpd(l) + SrcOpd(r), Triple(id, OcCmp(CmpOf(rel), l.id, r.id)),
            Triple(n, OcJmp(JumpOf(rel, sense != neg), addr)), m);
    OperandsRun(i, l, r, m);
    Decides(i, rel, neg, sense, l.id, r.id, id, n, addr, Run(i, SrcOpd(l) + SrcOpd(r), m));
  }

  lemma CoboolCorrect(i: Interp, id: Id, o: Opd, sense: bool, addr: Target, n: Id, m: Machine)
    requires m.mode == Going
    ensures Reaches(i, Ladder(Cobool(id, o), sense, addr, n), m, ShortEval(i, Cobool(id, o), StateOf(m)), sense, addr)
  {
    RunLeaf(i, SrcOpd(o), Triple(id, OcCobool(o.id)), Triple(n, OcJmp(if sense then JmpNeq else JmpEqu, addr)), m);
    RunOpd(i, o, m);
  }

  lemma TestCorrect(i: Interp, id: Id, g: Id, sense: bool, addr: Target, n: Id, m: Machine)
    requires m.mode == Going
    ensures Reaches(i, Ladder(Test(id, g), sense, addr, n), m, ShortEval(i, Test(id, g), StateOf(m)), sense, addr)
  {
    var code := Ladder(Test(id, g), sense, addr, n);
    RunLeaf(i, [], Triple(g, OcNoop), Triple(id, OcJmp(if sense then JmpTset else JmpTclr, addr)), m);
    assert code == [] + code;
  }

  /** Two ladders in a row and the operator's no-op: the first jumps on `d` to `p`, past the second
      or to `addr`; otherwise the second decides. */
  lemma BinRuns(i: Interp, c0: seq<Triple>, c1: seq<Triple>, id: Id, m: Machine, d: bool, s: bool, addr: Target,
                r0: (bool, State), r1: (bool, State))
    requires addr != TJmp(id)
    requires Reaches(i, c0, m, r0, d, FirstTarget(id, d, s, addr))
    requires r0.0 != d ==> Reaches(i, c1, Run(i, c0, m), r1, s, addr)
    requires Absent(c1, id) && (addr.TJmp? ==> Absent(c1, addr.id))
    ensures Reaches(i, c0 + c1 + [Triple(id, OcNoop)], m, if r0.0 == d then r0 else r1, s, addr)
  {
    var end, m0 := [Triple(id, OcNoop)], Run(i, c0, m);
    RunConcat(i, c0 + c1, end, m);
    RunConcat(i, c0, c1, m);
    RunOne(i, end[0], Run(i, c1, m0));
    if r0.0 == d {
      RunSkip(i, c1, m0);
    }
  }

  /** The code ends in state `r.1`, on its way to `addr` if `r.0` is `sense` and past its end if not. */
  ghost predicate Reaches(i: Interp, code: seq<Triple>, m: Machine, r: (bool, State), sense: bool, addr: Target) {
    var m' := Run(i, code, m);
    StateOf(m') == r.1 && m'.mode == if r.0 == sense then Seeking(addr) else Going
  }

  /** The ladder is right: it reaches `addr` exactly when the tree's value is `sense` and otherwise
      falls off its end, having evaluated just what short-circuit evaluation evaluates, in order. */
  lemma {:induction false} LadderCorrect(i: Interp, e: Expr, sense: bool, addr: Target, n: Id, m: Machine)
    requires m.mode == Going && Numbered(e, n) && Outside(addr, e, n)
    ensures Reaches(i, Ladder(e, sense, addr, n), m, ShortEval(i, e, StateOf(m)), sense, addr)
  {
    match e
    case Cobool(id, o) => CoboolCorrect(i, id, o, sense, addr, n, m);
    case Test(id, g) => TestCorrect(i, id, g, sense, addr, n, m);
    case Rel(id, rel, neg, l, r) => RelCorrect(i, e, sense, addr, n, m);
    case Com(id, x) =>
      assert ExprIds(x) <= ExprIds(e);
      LadderCorrect(i, x, !sense, addr, n, m);
      ComCorrect(i, id, x, sense, addr, n, m);
    case Bin(id, d, neg, x, y) =>
      var s := sense != neg;
      var p := FirstTarget(id, d, s, addr);
      var m0 := Run(i, Ladder(x, d, p, n), m);
      PartsNumbered(e, addr, sense, n);
      LadderCorrect(i, x, d, p, n, m);
      if m0.mode == Going {
        LadderCorrect(i, y, s, addr, n + Jumps(x), m0);
      }
      BinCorrect(i, e, sense, addr, n, m);
  }

  lemma ComCorrect(i: Interp, id: Id, x: Expr, sense: bool, addr: Target, n: Id, m: Machine)
    requires Reaches(i, Ladder(x, !sense, addr, n), m, ShortEval(i, x, StateOf(m)), !sense, addr)
    requires addr != TJmp(id)
    ensures Reaches(i, Ladder(Com(id, x), sense, addr, n), m, ShortEval(i, Com(id, x), StateOf(m)), sense, addr)
  {
    RunConcat(i, Ladder(x, !sense, addr, n), [Triple(id, OcNoop)], m);
    RunOne(i, Triple(id, OcNoop), Run(i, Ladder(x, !sense, addr, n), m));
  }

  /** What is numbered and outside for an operator is so for its operands. */
  lemma PartsNumbered(e: Expr, addr: Target, sense: bool, n: Id)
    requires e.Bin? && Numbered(e, n) && Outside(addr, e, n)
    ensures Numbered(e.e0, n) && Outside(FirstTarget(e.id, e.disjunction, sense != e.negated, addr), e.e0, n)
    ensures Numbered(e.e1, n + Jumps(e.e0)) && Outside(addr, e.e1, n + Jumps(e.e0))
  {
    assert ExprIds(e.e0) <= ExprIds(e) && ExprIds(e.e1) <= ExprIds(e) && e.id in ExprIds(e);
  }

  /** A ladder of two, from the two. */
  lemma BinCorrect(i: Interp, e: Expr, sense: bool, addr: Target, n: Id, m: Machine)
    requires m.mode == Going && Numbered(e, n) && Outside(addr, e, n) && e.Bin?
    requires Reaches(i, Ladder(e.e0, e.disjunction, FirstTarget(e.id, e.disjunction, sense != e.negated, addr), n), m,
                     ShortEval(i, e.e0, StateOf(m)), e.disjunction,
      FirstTarget(e.id, e.disjunction, sense != e.negated, addr))
    requires var m0 := Run(i,
                           Ladder(e.e0, e.disjunction, FirstTarget(e.id, e.disjunction, sense != e.negated, addr), n),
                           m);
      m0.mode == Going ==>
        Reaches(i, Ladder(e.e1, sense != e.negated, addr, n + Jumps(e.e0)), m0, ShortEval(i, e.e1, StateOf(m0)),
                sense != e.negated, addr)
    ensures Reaches(i, Ladder(e, sense, addr, n), m, ShortEval(i, e, StateOf(m)), sense, addr)
  {
    var s := sense != e.negated;
    var p := FirstTarget(e.id, e.disjunction, s, addr);
    assert ExprIds(e.e0) <= ExprIds(e) && ExprIds(e.e1) <= ExprIds(e) && e.id in ExprIds(e);
    LadderAbsent(e.e1, s, addr, n + Jumps(e.e0), e.id);
    if addr.TJmp? {
      LadderAbsent(e.e1, s, addr, n + Jumps(e.e0), addr.id);
    }
    var r0 := ShortEval(i, e.e0, StateOf(m));
    BinRuns(i, Ladder(e.e0, e.disjunction, p, n), Ladder(e.e1, s, addr, n + Jumps(e.e0)), e.id, m, e.disjunction, s,
            addr, r0, ShortEval(i, e.e1, r0.1));
  }
}
