/** Boolean expressions as the compiler's triples (compiler.h, opcode_def.h), and a machine that runs
    a chain of them. */
module BoolTriples {

  type Id = nat

  /** What a comparison triple computes: the sign of the result is tested by the jump after it. */
  datatype Cmp = OcEqu | OcPattern | OcFollow | OcSortsAfter | OcContain | OcNumcmp

  datatype Relation = Equ | Pattern | Follow | SortsAfter | Contain | Gt | Lt

  datatype Cond = JmpNeq | JmpEqu | JmpGtr | JmpLeq | JmpLss | JmpGeq | JmpTset | JmpTclr

  /** Where a jump goes: the operand cell the caller fills in later, or a triple. */
  datatype Target = External | TJmp(id: Id)

  datatype Op =
    | OcNoop
    | OcVar(cell: nat)            // a local variable, by address
    | OcGetindx(cell: nat)        // a subscripted node, by address
    | OcLit(lit: int)
    | OcEval(expr: nat, mint: bool)  // any other expression, with its side effects
    | OcNeg(ref: Id)
    | OcForcenum(ref: Id)
    | OcStotemp(ref: Id)
    | OcLitc(ref: Id)
    | OcComval(ref: Id)
    | OcPassthru(ref: Id)
    | OcGettruth
    | OcCobool(ref: Id)
    | OcCmp(cmp: Cmp, left: Id, right: Id)
    | OcJmp(cond: Cond, target: Target)
    // the operators of the source tree
    | OcCom(e: Id)
    | OcRel(rel: Relation, negated: bool, left: Id, right: Id)
    | OcBin(disjunction: bool, negated: bool, e0: Id, e1: Id)

  datatype Triple = Triple(id: Id, op: Op)

  /** Operands of a Boolean leaf. */
  datatype Opd =
    | Var(id: Id, cell: nat)
    | Index(id: Id, cell: nat)
    | Lit(id: Id, v: int)
    | Eval(id: Id, expr: nat, mint: bool)
    | Unary(id: Id, neg: bool, o: Opd)

  datatype Expr =
    | Cobool(id: Id, o: Opd)
    | Test(id: Id, gid: Id)
    | Rel(id: Id, rel: Relation, negated: bool, l: Opd, r: Opd)
    | Com(id: Id, e: Expr)
    | Bin(id: Id, disjunction: bool, negated: bool, e0: Expr, e1: Expr)

  /** The triples the parser leaves in the execution chain: operands first, left to right. */
  function SrcOpd(o: Opd): seq<Triple> {
    match o
    case Var(id, c) => [Triple(id, OcVar(c))]
    case Index(id, c) => [Triple(id, OcGetindx(c))]
    case Lit(id, v) => [Triple(id, OcLit(v))]
    case Eval(id, e, m) => [Triple(id, OcEval(e, m))]
    case Unary(id, neg, u) => SrcOpd(u) + [Triple(id, if neg then OcNeg(u.id) else OcForcenum(u.id))]
  }

  function Src(e: Expr): seq<Triple> {
    match e
    case Cobool(id, o) => SrcOpd(o) + [Triple(id, OcCobool(o.id))]
    case Test(id, g) => [Triple(g, OcGettruth), Triple(id, OcCobool(g))]
    case Rel(id, rel, n, l, r) => SrcOpd(l) + SrcOpd(r) + [Triple(id, OcRel(rel, n, l.id, r.id))]
    case Com(id, x) => Src(x) + [Triple(id, OcCom(x.id))]
    case Bin(id, d, n, x, y) => Src(x) + Src(y) + [Triple(id, OcBin(d, n, x.id, y.id))]
  }

  ghost function OpdIds(o: Opd): set<Id> {
    {o.id} + if o.Unary? then OpdIds(o.o) else {}
  }

  ghost function ExprIds(e: Expr): set<Id> {
    match e
    case Cobool(id, o) => {id} + OpdIds(o)
    case Test(id, g) => {id, g}
    case Rel(id, _, _, l, r) => {id} + OpdIds(l) + OpdIds(r)
    case Com(id, x) => {id} + ExprIds(x)
    case Bin(id, _, _, x, y) => {id} + ExprIds(x) + ExprIds(y)
  }

  ghost predicate WfOpd(o: Opd) {
    o.Unary? ==> o.id !in OpdIds(o.o) && WfOpd(o.o)
  }

  /** No triple number is used twice in a tree. */
  ghost predicate Wf(e: Expr) {
    match e
    case Cobool(id, o) => WfOpd(o) && id !in OpdIds(o)
    case Test(id, g) => id != g
    case Rel(id, _, _, l, r) => WfOpd(l) && WfOpd(r) && OpdIds(l) !! OpdIds(r) && id !in OpdIds(l) + OpdIds(r)
    case Com(id, x) => Wf(x) && id !in ExprIds(x)
    case Bin(id, _, _, x, y) => Wf(x) && Wf(y) && ExprIds(x) !! ExprIds(y) && id !in ExprIds(x) + ExprIds(y)
  }

  // ---- The machine -----------------------------------------------------------------------------

  type Store = map<nat, int>

  /** $TEST is the cell 0 of the store. */
  const TEST_CELL: nat := 0

  function Deref(s: Store, c: nat): int { if c in s then s[c] else 0 }

  /** The operations the chain takes for granted: comparison, and the value and the effect of any
      other expression. */
  datatype Interp = Interp(
    rel: (Cmp, int, int) -> int,
    val: (nat, Store) -> int,
    eff: (nat, Store) -> Store)

  /** A triple's result: a value, or the address of a variable that is read when used. */
  datatype Loc = ByVal(v: int) | ByRef(cell: nat)

  datatype Mode = Going | Seeking(target: Target)

  /** `trace` lists the expressions evaluated so far. A jump makes the machine seek its target in
      the rest of the chain, so only forward jumps arrive. */
  datatype Machine = Machine(store: Store, trace: seq<nat>, env: map<Id, Loc>, cc: int, mode: Mode)

  function LocValue(s: Store, l: Loc): int {
    if l.ByVal? then l.v else Deref(s, l.cell)
  }

  function Get(m: Machine, ref: Id): Loc { if ref in m.env then m.env[ref] else ByVal(0) }

  function Value(m: Machine, ref: Id): int { LocValue(m.store, Get(m, ref)) }

  function Bool(b: bool): int { if b then 1 else 0 }

  predicate Taken(c: Cond, cc: int, test: int) {
    match c
    case JmpNeq => cc != 0
    case JmpEqu => cc == 0
    case JmpGtr => cc > 0
    case JmpLeq => cc <= 0
    case JmpLss => cc < 0
    case JmpGeq => cc >= 0
    case JmpTset => test != 0
    case JmpTclr => test == 0
  }

  /** One triple, executed. */
  ghost function Execute(i: Interp, t: Triple, m: Machine): Machine {
    match t.op
    case OcNoop => m
    case OcVar(c) => m.(env := m.env[t.id := ByRef(c)])
    case OcGetindx(c) => m.(env := m.env[t.id := ByRef(c)])
    case OcLit(v) => m.(env := m.env[t.id := ByVal(v)])
    case OcEval(e, _) =>
      m.(env := m.env[t.id := ByVal((i.val)(e, m.store))], store := (i.eff)(e, m.store), trace := m.trace + [e])
    case OcNeg(r) => m.(env := m.env[t.id := ByVal(-Value(m, r))])
    case OcForcenum(r) => m.(env := m.env[t.id := ByVal(Value(m, r))])
    case OcStotemp(r) => m.(env := m.env[t.id := ByVal(Value(m, r))])
    case OcLitc(r) => m.(env := m.env[t.id := ByVal(Value(m, r))])
    case OcComval(r) => m.(env := m.env[t.id := ByVal(Value(m, r))])
    case OcPassthru(r) => m.(env := m.env[t.id := Get(m, r)])
    case OcGettruth => m.(env := m.env[t.id := ByVal(Deref(m.store, TEST_CELL))])
    case OcCobool(r) => m.(cc := Bool(Value(m, r) != 0))
    case OcCmp(c, l, r) => m.(cc := (i.rel)(c, Value(m, l), Value(m, r)))
    case OcJmp(c, a) => if Taken(c, m.cc, Deref(m.store, TEST_CELL)) then m.(mode := Seeking(a)) else m
    // operators of the source tree are never left in a finished chain
    case OcCom(_) => m
    case OcRel(_, _, _, _) => m
    case OcBin(_, _, _, _) => m
  }

  /** One triple, met while going or while seeking. */
  ghost function Step(i: Interp, t: Triple, m: Machine): Machine {
    if m.mode == Going then Execute(i, t, m)
    else if m.mode == Seeking(TJmp(t.id)) then Execute(i, t, m.(mode := Going))
    else m
  }

  ghost function Run(i: Interp, code: seq<Triple>, m: Machine): Machine {
    if code == [] then m else Run(i, code[1..], Step(i, code[0], m))
  }

  lemma {:induction false} RunConcat(i: Interp, a: seq<Triple>, b: seq<Triple>, m: Machine)
    ensures Run(i, a + b, m) == Run(i, b, Run(i, a, m))
  {
    if a == [] {
      assert a + b == b;
    } else {
      assert (a + b)[1..] == a[1..] + b;
      RunConcat(i, a[1..], b, Step(i, a[0], m));
    }
  }

  ghost predicate Absent(code: seq<Triple>, id: Id) {
    forall k :: 0 <= k < |code| ==> code[k].id != id
  }

  /** While seeking a triple that is not here, nothing happens. */
  lemma {:induction false} RunSkip(i: Interp, code: seq<Triple>, m: Machine)
    requires m.mode.Seeking? && (m.mode.target.TJmp? ==> Absent(code, m.mode.target.id))
    ensures Run(i, code, m) == m
  {
    if code != [] {
      RunSkip(i, code[1..], m);
    }
  }

  // ---- What the source means -------------------------------------------------------------------

  /** A point in the evaluation of the source: the store, and the expressions evaluated. */
  datatype State = State(store: Store, trace: seq<nat>)

  ghost function After(i: Interp, o: Opd, s: State): State {
    match o
    case Eval(_, e, _) => State((i.eff)(e, s.store), s.trace + [e])
    case Unary(_, _, u) => After(i, u, s)
    case _ => s
  }

  /** What evaluating an operand in `s` leaves behind: a unary operator makes a value of it at once,
      a plain variable stays an address. */
  ghost function OpdLoc(i: Interp, o: Opd, s: State): Loc {
    match o
    case Var(_, c) => ByRef(c)
    case Index(_, c) => ByRef(c)
    case Lit(_, v) => ByVal(v)
    case Eval(_, e, _) => ByVal((i.val)(e, s.store))
    case Unary(_, neg, u) =>
      var v := LocValue(After(i, u, s).store, OpdLoc(i, u, s));
      ByVal(if neg then -v else v)
  }

  predicate Holds(r: Relation, i: Interp, a: int, b: int) {
    match r
    case Equ => (i.rel)(OcEqu, a, b) != 0
    case Pattern => (i.rel)(OcPattern, a, b) != 0
    case Follow => (i.rel)(OcFollow, a, b) > 0
    case SortsAfter => (i.rel)(OcSortsAfter, a, b) > 0
    case Contain => (i.rel)(OcContain, a, b) != 0
    case Gt => (i.rel)(OcNumcmp, a, b) > 0
    case Lt => (i.rel)(OcNumcmp, a, b) < 0
  }

  /** Left-to-right short-circuit evaluation. */
  ghost function ShortEval(i: Interp, e: Expr, s: State): (bool, State) {
    match e
    case Cobool(_, o) =>
      var s1 := After(i, o, s);
      (LocValue(s1.store, OpdLoc(i, o, s)) != 0, s1)
    case Test(_, _) => (Deref(s.store, TEST_CELL) != 0, s)
    case Rel(_, rel, n, l, r) =>
      var s1 := After(i, l, s);
      var s2 := After(i, r, s1);
      (Holds(rel, i, LocValue(s2.store, OpdLoc(i, l, s)), LocValue(s2.store, OpdLoc(i, r, s1))) != n, s2)
    case Com(_, x) =>
      var (b, s1) := ShortEval(i, x, s);
      (!b, s1)
    case Bin(_, d, n, x, y) =>
      var (b, s1) := ShortEval(i, x, s);
      if b == d then (b != n, s1)
      else
        var (c, s2) := ShortEval(i, y, s1);
        (c != n, s2)
  }

  ghost function StateOf(m: Machine): State { State(m.store, m.trace) }

  /** Running the triples of an operand evaluates it, and leaves its result under its number. */
  lemma {:induction false} RunOpd(i: Interp, o: Opd, m: Machine)
    requires m.mode == Going
    ensures
      var m' := Run(i, SrcOpd(o), m);
      && m'.mode == Going
      && StateOf(m') == After(i, o, StateOf(m))
      && Get(m', o.id) == OpdLoc(i, o, StateOf(m))
      && (forall k :: k !in OpdIds(o) ==> Get(m', k) == Get(m, k))
  {
    match o
    case Unary(id, neg, u) =>
      var last := [Triple(id, if neg then OcNeg(u.id) else OcForcenum(u.id))];
      RunOpd(i, u, m);
      RunConcat(i, SrcOpd(u), last, m);
      RunOne(i, last[0], Run(i, SrcOpd(u), m));
    case _ =>
      RunOne(i, SrcOpd(o)[0], m);
  }

  lemma RunOne(i: Interp, t: Triple, m: Machine)
    ensures Run(i, [t], m) == Step(i, t, m)
  {
    assert Run(i, [t], m) == Run(i, [t][1..], Step(i, t, m));
  }
}
