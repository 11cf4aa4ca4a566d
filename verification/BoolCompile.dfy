/** The compiler's in-place work on the queues of triples: bx_tail.c, bx_relop.c and bx_boolop.c, proved
    against the ladders of BoolShort and BoolFull. */
module BoolCompile {
  import opened BoolTriples
  import opened BoolShort
  import opened BoolFull

  /** The place of triple `id` in a chain; past the end if it is not there. */
  function Pos(chain: seq<Triple>, id: Id): (k: nat)
    ensures k <= |chain| && (k < |chain| ==> chain[k].id == id)
    ensures forall j :: 0 <= j < k ==> chain[j].id != id
  {
    if chain == [] || chain[0].id == id then 0 else 1 + Pos(chain[1..], id)
  }

  lemma {:induction false} SrcAbsent(e: Expr, k: Id)
    requires k !in ExprIds(e)
    ensures Absent(Src(e), k)
  {
    match e
    case Cobool(_, o) => OpdAbsent(o, k);
    case Test(_, _) =>
    case Rel(_, _, _, l, r) =>
      OpdAbsent(l, k);
      OpdAbsent(r, k);
    case Com(_, x) => SrcAbsent(x, k);
    case Bin(_, _, _, x, y) =>
      SrcAbsent(x, k);
      SrcAbsent(y, k);
  }

  ghost predicate AllAbsent(pre: seq<Triple>, e: Expr) {
    forall k :: k in ExprIds(e) ==> Absent(pre, k)
  }

  ghost predicate AllBelow(e: Expr, n: Id) {
    forall k :: k in ExprIds(e) ==> k < n
  }

  lemma Regroup(pre: seq<Triple>, a: seq<Triple>, b: seq<Triple>, post: seq<Triple>)
    ensures pre + (a + b) + post == (pre + a) + b + post == pre + a + (b + post)
  {
  }

  lemma Regroup3(pre: seq<Triple>, a: seq<Triple>, b: seq<Triple>, c: seq<Triple>, post: seq<Triple>)
    ensures pre + (a + b + c) + post == (pre + a + b) + c + post == (pre + a) + b + (c + post)
      == pre + a + (b + c + post)
  {
  }

  /** What stands before the second operand once the first is done. */
  lemma SecondAbsent(e: Expr, pre: seq<Triple>, sense: bool, addr: Target, n: Id)
    requires e.Bin? && Wf(e) && AllAbsent(pre, e) && AllBelow(e, n)
    ensures AllAbsent(pre + Ladder(e.e0, sense, addr, n), e.e1)
  {
    forall k | k in ExprIds(e.e1) ensures Absent(pre + Ladder(e.e0, sense, addr, n), k) {
      assert k in ExprIds(e);
      LadderAbsent(e.e0, sense, addr, n, k);
    }
  }

  lemma OperatorAbsent(e: Expr, pre: seq<Triple>, s0: bool, a0: Target, s1: bool, a1: Target, n: Id)
    requires e.Bin? && Wf(e) && AllAbsent(pre, e) && AllBelow(e, n)
    ensures Absent(pre + Ladder(e.e0, s0, a0, n) + Ladder(e.e1, s1, a1, n + Jumps(e.e0)), e.id)
  {
    assert e.id in ExprIds(e);
    LadderAbsent(e.e0, s0, a0, n, e.id);
    LadderAbsent(e.e1, s1, a1, n + Jumps(e.e0), e.id);
  }

  /** The triple of an operator comes last, and only there. */
  lemma LastAbsent(e: Expr, pre: seq<Triple>, post: seq<Triple>)
    requires Wf(e) && AllAbsent(pre, e)
    ensures Src(e) != [] && Src(e)[|Src(e)| - 1].id == e.id && Absent(pre + Src(e)[..|Src(e)| - 1], e.id)
    ensures pre + Src(e) + post == (pre + Src(e)[..|Src(e)| - 1]) + [Src(e)[|Src(e)| - 1]] + post
  {
    assert e.id in ExprIds(e);
    SrcLast(e);
    LastApart(pre, Src(e), post);
  }

  lemma LastApart(pre: seq<Triple>, c: seq<Triple>, post: seq<Triple>)
    requires c != []
    ensures pre + c + post == (pre + c[..|c| - 1]) + [c[|c| - 1]] + post
  {
    assert c == c[..|c| - 1] + [c[|c| - 1]];
  }

  lemma SrcLast(e: Expr)
    requires Wf(e)
    ensures Src(e) != [] && Src(e)[|Src(e)| - 1].id == e.id && Absent(Src(e)[..|Src(e)| - 1], e.id)
  {
    match e
    case Cobool(id, o) => OpdAbsent(o, id);
    case Test(_, _) =>
    case Rel(id, _, _, l, r) =>
      OpdAbsent(l, id);
      OpdAbsent(r, id);
    case Com(id, x) => SrcAbsent(x, id);
    case Bin(id, _, _, x, y) =>
      SrcAbsent(x, id);
      SrcAbsent(y, id);
  }

  lemma OpdLast(o: Opd)
    requires WfOpd(o)
    ensures SrcOpd(o) != [] && SrcOpd(o)[|SrcOpd(o)| - 1].id == o.id && Absent(SrcOpd(o)[..|SrcOpd(o)| - 1], o.id)
    ensures SrcOpd(o)[|SrcOpd(o)| - 1].op != OcGettruth
  {
    if o.Unary? {
      OpdAbsent(o.o, o.id);
    }
  }

  /** Where the operand of a coercion stands. */
  lemma OperandFound(e: Expr, pre: seq<Triple>, post: seq<Triple>)
    requires Wf(e) && (e.Cobool? || e.Test?) && forall k :: k in ExprIds(e) ==> Absent(pre, k)
    ensures
      var chain := pre + Src(e) + post;
      var g := Pos(chain, if e.Cobool? then e.o.id else e.gid);
      g < |chain| && (chain[g].op == OcGettruth <==> e.Test?) && (e.Test? ==> g == |pre|)
  {
    var chain, r := pre + Src(e) + post, if e.Cobool? then e.o.id else e.gid;
    assert r in ExprIds(e);
    if e.Cobool? {
      OpdLast(e.o);
      var last := |SrcOpd(e.o)| - 1;
      assert chain[|pre| + last] == SrcOpd(e.o)[last];
      forall j | 0 <= j < |pre| + last ensures chain[j].id != r {
        assert chain[j] == if j < |pre| then pre[j] else SrcOpd(e.o)[..last][j - |pre|];
      }
    } else {
      assert chain[|pre|] == Triple(e.gid, OcGettruth);
    }
  }

  /** The coercion of $TEST becomes the jump and what fetched $TEST a no-op. */
  lemma TestLadder(e: Expr, sense: bool, addr: Target, n: Id, pre: seq<Triple>, body: seq<Triple>, last: Triple,
                   post: seq<Triple>)
    requires e.Test? && Src(e) == body + [last]
    ensures |body| == 1 && ((pre + body) + [last] + post)[|pre| := Triple(e.gid, OcNoop)]
      [|pre| + 1 := Triple(e.id, OcJmp(if sense then JmpTset else JmpTclr, addr))]
        == pre + Ladder(e, sense, addr, n) + post
  {
    assert |Src(e)| == 2;
  }

  // ---- Full evaluation: the shape of the work --------------------------------------------------

  /** The tree under any complements, and the sense it is compiled for. */
  ghost function Core(e: Expr): Expr { if e.Com? then Core(e.e) else e }

  ghost function CoreSense(e: Expr, sense: bool): bool { if e.Com? then CoreSense(e.e, !sense) else sense }

  /** The no-ops the complements leave behind. */
  ghost function Pads(e: Expr): seq<Triple> { if e.Com? then Pads(e.e) + [Triple(e.id, OcNoop)] else [] }

  lemma Uncomplemented(e: Expr, sense: bool, addr: Target, n: Id, dyn: bool)
    ensures Ladder(e, sense, addr, n) == Ladder(Core(e), CoreSense(e, sense), addr, n) + Pads(e)
    ensures Kept(e, n, dyn) == Kept(Core(e), n, dyn) + Pads(e)
    ensures NewLadder(e, sense, addr, n, dyn) == NewLadder(Core(e), CoreSense(e, sense), addr, n, dyn)
    ensures Used(e) == Used(Core(e)) && Span(e) == Span(Core(e)) && Jumps(e) == Jumps(Core(e))
    ensures !Core(e).Com? && ExprIds(Core(e)) <= ExprIds(e) && (Wf(e) ==> Wf(Core(e)))
    ensures forall k :: 0 <= k < |Pads(e)| ==> Pads(e)[k].op == OcNoop
    ensures if e.Com? then Pads(e) != [] && Pads(e)[|Pads(e)| - 1].id == e.id else Pads(e) == [] && Core(e) == e
  {
    UncomplementedCode(e, sense, addr, n, dyn);
    UncomplementedTree(e);
  }

  lemma {:induction false} UncomplementedCode(e: Expr, sense: bool, addr: Target, n: Id, dyn: bool)
    ensures Ladder(e, sense, addr, n) == Ladder(Core(e), CoreSense(e, sense), addr, n) + Pads(e)
    ensures Kept(e, n, dyn) == Kept(Core(e), n, dyn) + Pads(e)
    ensures NewLadder(e, sense, addr, n, dyn) == NewLadder(Core(e), CoreSense(e, sense), addr, n, dyn)
  {
    if e.Com? {
      UncomplementedCode(e.e, !sense, addr, n, dyn);
    }
  }

  lemma {:induction false} UncomplementedTree(e: Expr)
    ensures Used(e) == Used(Core(e)) && Span(e) == Span(Core(e)) && Jumps(e) == Jumps(Core(e))
    ensures !Core(e).Com? && ExprIds(Core(e)) <= ExprIds(e) && (Wf(e) ==> Wf(Core(e)))
    ensures forall k :: 0 <= k < |Pads(e)| ==> Pads(e)[k].op == OcNoop
    ensures if e.Com? then Pads(e) != [] && Pads(e)[|Pads(e)| - 1].id == e.id else Pads(e) == [] && Core(e) == e
  {
    if e.Com? {
      UncomplementedTree(e.e);
    }
  }

  /** A triple that is neither a no-op nor part of an unfinished ladder. */
  predicate Inert(op: Op) {
    op.OcVar? || op.OcGetindx? || op.OcLit? || op.OcEval? || op.OcNeg? || op.OcForcenum? || op.OcStotemp? ||
    op.OcLitc? || op.OcComval? || op.OcPassthru? || op.OcGettruth?
  }

  /** All that is kept is inert or a no-op, and not all of it no-ops. */
  ghost predicate Settled(code: seq<Triple>) {
    && (forall k :: 0 <= k < |code| ==> code[k].op == OcNoop || Inert(code[k].op))
    && exists k :: 0 <= k < |code| && code[k].op != OcNoop
  }

  lemma SettledConcat(a: seq<Triple>, b: seq<Triple>)
    requires Settled(a) && forall k :: 0 <= k < |b| ==> b[k].op == OcNoop || Inert(b[k].op)
    ensures Settled(a + b)
  {
    var k :| 0 <= k < |a| && a[k].op != OcNoop;
    assert (a + b)[k] == a[k];
  }

  lemma {:induction false} OpdSettled(o: Opd)
    ensures Settled(SrcOpd(o)) && Settled(PassOpd(o))
  {
    if o.Unary? {
      OpdSettled(o.o);
      SettledConcat(SrcOpd(o.o), [Triple(o.id, if o.neg then OcNeg(o.o.id) else OcForcenum(o.o.id))]);
      SettledConcat(PassOpd(o.o), [Triple(o.id, OcPassthru(o.o.id))]);
    } else {
      assert SrcOpd(o)[0].op != OcNoop;
    }
  }

  lemma {:induction false} KeptSettled(e: Expr, n: Id, dyn: bool)
    ensures Settled(Kept(e, n, dyn))
  {
    match e
    case Com(id, x) =>
      KeptSettled(x, n, dyn);
      SettledConcat(Kept(x, n, dyn), [Triple(id, OcNoop)]);
    case Bin(id, _, _, x, y) =>
      KeptSettled(x, n, dyn);
      KeptSettled(y, n + Used(x), dyn);
      SettledThree(Kept(x, n, dyn), Kept(y, n + Used(x), dyn), [Triple(id, OcNoop)]);
    case _ => LeafSettled(e, n, dyn);
  }

  lemma LeafSettled(e: Expr, n: Id, dyn: bool)
    requires !e.Com? && !e.Bin?
    ensures Settled(Kept(e, n, dyn))
  {
    match e
    case Cobool(id, o) =>
      OpdSettled(o);
      SettledConcat(PassOpd(o), [Triple(id, KeepCobool(o, dyn)), Triple(n, OcNoop)]);
    case Test(id, g) => assert Kept(e, n, dyn)[1].op == OcGettruth;
    case Rel(id, _, _, l, r) =>
      OpdSettled(l);
      OpdSettled(r);
      SettledConcat(SrcOpd(l), SrcOpd(r));
      SettledConcat(SrcOpd(l) + SrcOpd(r), [Triple(id, Keep(l, dyn)), Triple(n, Keep(r, dyn))]);
  }

  lemma SettledThree(a: seq<Triple>, b: seq<Triple>, c: seq<Triple>)
    requires Settled(a) && Settled(b) && forall k :: 0 <= k < |c| ==> c[k].op == OcNoop || Inert(c[k].op)
    ensures Settled(a + b + c)
  {
    SettledConcat(a, b);
    SettledConcat(a + b, c);
  }

  lemma {:induction false} KeptAbsent(e: Expr, n: Id, dyn: bool, k: Id)
    requires k !in ExprIds(e) && !(n <= k < n + Used(e))
    ensures Absent(Kept(e, n, dyn), k)
  {
    match e
    case Cobool(_, o) => PassAbsent(o, k);
    case Test(_, _) =>
    case Rel(_, _, _, l, r) =>
      OpdAbsent(l, k);
      OpdAbsent(r, k);
    case Com(_, x) => KeptAbsent(x, n, dyn, k);
    case Bin(_, _, _, x, y) =>
      KeptAbsent(x, n, dyn, k);
      KeptAbsent(y, n + Used(x), dyn, k);
  }

  lemma {:induction false} PassAbsent(o: Opd, k: Id)
    requires k !in OpdIds(o)
    ensures Absent(PassOpd(o), k)
  {
    if o.Unary? {
      PassAbsent(o.o, k);
    }
  }

  /** The last triple an operand puts on the new ladder. */
  ghost function LastId(e: Expr, n: Id): Id {
    match e
    case Cobool(_, _) => n + 2
    case Test(_, _) => n
    case Rel(_, _, _, _, _) => n + 2
    case Com(_, x) => LastId(x, n)
    case Bin(_, _, _, x, y) => LastId(y, n + Used(x))
  }

  ghost function Operators(e: Expr): set<Id> {
    match e
    case Com(_, x) => Operators(x)
    case Bin(id, _, _, x, y) => Operators(x) + Operators(y) + {id}
    case _ => {}
  }

  /** Every operator of `e` is tracked to the last triple it put on the new ladder. */
  ghost predicate Tracked(track: map<Id, Id>, e: Expr, n: Id) {
    match e
    case Com(_, x) => Tracked(track, x, n)
    case Bin(id, _, _, x, y) =>
      id in track && track[id] == LastId(e, n) && Tracked(track, x, n) && Tracked(track, y, n + Used(x))
    case _ => true
  }

  /** `e`'s operators have been tracked, and nothing else has changed. */
  ghost predicate TrackStep(track: map<Id, Id>, track': map<Id, Id>, e: Expr, n: Id) {
    && Tracked(track', e, n) && track'.Keys == track.Keys + Operators(e)
    && forall k :: k in track && k !in Operators(e) ==> track'[k] == track[k]
  }

  lemma {:induction false} TrackedMore(track: map<Id, Id>, track': map<Id, Id>, e: Expr, n: Id)
    requires Tracked(track, e, n) && forall k :: k in Operators(e) && k in track ==>
      k in track' && track'[k] == track[k]
    ensures Tracked(track', e, n)
  {
    if e.Com? {
      TrackedMore(track, track', e.e, n);
    } else if e.Bin? {
      TrackedMore(track, track', e.e0, n);
      TrackedMore(track, track', e.e1, n + Used(e.e0));
    }
  }

  lemma {:induction false} OperatorsIds(e: Expr)
    ensures Operators(e) <= ExprIds(e)
  {
    if e.Com? {
      OperatorsIds(e.e);
    } else if e.Bin? {
      OperatorsIds(e.e0);
      OperatorsIds(e.e1);
    }
  }

  /** A stretch of ladder from `first` to `last`, numbered in [lo, hi), `last` only at the end. */
  ghost predicate Shaped(c: seq<Triple>, first: Id, last: Id, lo: Id, hi: Id) {
    && c != [] && c[0].id == first && c[|c| - 1].id == last
    && (forall k :: 0 <= k < |c| ==> lo <= c[k].id < hi)
    && Absent(c[..|c| - 1], last)
  }

  lemma ShapedConcat(a: seq<Triple>, b: seq<Triple>, f: Id, x: Id, y: Id, l: Id, lo: Id, mid: Id, hi: Id, top: Id)
    requires Shaped(a, f, x, lo, mid) && Shaped(b, y, l, mid, hi) && hi <= top
    ensures Shaped(a + b, f, l, lo, top)
  {
    assert b[0].id < hi && a[0].id < mid;
    assert (a + b)[..|a + b| - 1] == a + b[..|b| - 1];
  }

  lemma LeafShape(e: Expr, sense: bool, addr: Target, n: Id, dyn: bool)
    requires !e.Com? && !e.Bin?
    ensures Shaped(LeafLadder(e, sense, addr, n, dyn), n + 1, LastId(e, n), n, n + Used(e))
  {
    var c := LeafLadder(e, sense, addr, n, dyn);
    assert c[..1] == [c[0]];
  }

  lemma {:induction false} NewLadderShape(e: Expr, sense: bool, addr: Target, n: Id, dyn: bool)
    ensures Shaped(NewLadder(e, sense, addr, n, dyn), First(e, n), LastId(e, n), n, n + Used(e))
  {
    if e.Com? {
      NewLadderShape(e.e, !sense, addr, n, dyn);
    } else if e.Bin? {
      var s := sense != e.negated;
      NewLadderShape(e.e0, e.disjunction, FirstTarget(e.id, e.disjunction, s, addr), n, dyn);
      NewLadderShape(e.e1, s, addr, n + Used(e.e0), dyn);
      BinShape(e, sense, addr, n, dyn);
    } else {
      LeafShape(e, sense, addr, n, dyn);
    }
  }

  lemma BinShape(e: Expr, sense: bool, addr: Target, n: Id, dyn: bool)
    requires e.Bin?
    requires Shaped(NewLadder(e.e0, e.disjunction, FirstTarget(e.id, e.disjunction, sense != e.negated, addr), n, dyn),
      First(e.e0, n), LastId(e.e0, n), n, n + Used(e.e0))
    requires Shaped(NewLadder(e.e1, sense != e.negated, addr, n + Used(e.e0), dyn),
      First(e.e1, n + Used(e.e0)), LastId(e.e1, n + Used(e.e0)), n + Used(e.e0), n + Used(e.e0) + Used(e.e1))
    ensures Shaped(NewLadder(e, sense, addr, n, dyn), First(e, n), LastId(e, n), n, n + Used(e))
  {
    var s, n1 := sense != e.negated, n + Used(e.e0);
    var p := FirstTarget(e.id, e.disjunction, s, addr);
    var a, b := NewLadder(e.e0, e.disjunction, p, n, dyn), NewLadder(e.e1, s, addr, n1, dyn);
    ShapedConcat(a, b, First(e.e0, n), LastId(e.e0, n), First(e.e1, n1), LastId(e.e1, n1), n, n1, n1 + Used(e.e1),
                 n + Used(e));
  }

  /** Where a jump of the new ladder is redirected: the triple after the one its operator ended with. */
  function Redirect(chain: seq<Triple>, track: map<Id, Id>, t: Target): Target {
    if t.TJmp? && t.id in track then
      var k := Pos(chain, track[t.id]);
      if k + 1 < |chain| then TJmp(chain[k + 1].id) else t
    else t
  }

  function RedirectOp(chain: seq<Triple>, track: map<Id, Id>, op: Op): Op {
    if op.OcJmp? then OcJmp(op.cond, Redirect(chain, track, op.target)) else op
  }

  ghost function RedirectAll(chain: seq<Triple>, track: map<Id, Id>, code: seq<Triple>): (r: seq<Triple>)
    ensures |r| == |code| && forall k :: 0 <= k < |r| ==>
      r[k] == Triple(code[k].id, RedirectOp(chain, track, code[k].op))
  {
    seq(|code|, k requires 0 <= k < |code| => Triple(code[k].id, RedirectOp(chain, track, code[k].op)))
  }

  lemma RedirectConcat(chain: seq<Triple>, track: map<Id, Id>, a: seq<Triple>, b: seq<Triple>)
    ensures RedirectAll(chain, track, a + b) == RedirectAll(chain, track, a) + RedirectAll(chain, track, b)
  {
  }

  /** The redirected ladder is the final one: `chain` is the whole new ladder with its safe target,
      `e`'s part of it followed by the triple numbered `nxt`. */
  lemma {:induction false} RedirectFinal(chain: seq<Triple>, track: map<Id, Id>, e: Expr, sense: bool, addr: Target,
                                         nxt: Id, n: Id, dyn: bool, pre: seq<Triple>, post: seq<Triple>)
    requires chain == pre + NewLadder(e, sense, addr, n, dyn) + post && post != [] && post[0].id == nxt
    requires Tracked(track, e, n) && forall k :: 0 <= k < |pre| ==> pre[k].id < n
    ensures RedirectAll(chain, track, NewLadder(e, sense, addr, n, dyn)) ==
            FinalLadder(e, sense, Redirect(chain, track, addr), nxt, n, dyn)
  {
    if e.Com? {
      RedirectFinal(chain, track, e.e, !sense, addr, nxt, n, dyn, pre, post);
    } else if e.Bin? {
      var d, s, n1 := e.disjunction, sense != e.negated, n + Used(e.e0);
      var p := FirstTarget(e.id, d, s, addr);
      var a, b := NewLadder(e.e0, d, p, n, dyn), NewLadder(e.e1, s, addr, n1, dyn);
      LadderParts(e, sense, addr, n, dyn, pre, post);
      RedirectFinal(chain, track, e.e0, d, p, First(e.e1, n1), n, dyn, pre, b + post);
      RedirectFinal(chain, track, e.e1, s, addr, nxt, n1, dyn, pre + a, post);
      RedirectOperator(chain, track, e, sense, addr, nxt, n, dyn, pre, post);
      FinalOf(chain, track, e, sense, addr, nxt, n, dyn);
    }
  }

  /** Either operand's part of the new ladder between the rest of it. */
  lemma LadderParts(e: Expr, sense: bool, addr: Target, n: Id, dyn: bool, pre: seq<Triple>, post: seq<Triple>)
    requires e.Bin? && post != [] && forall k :: 0 <= k < |pre| ==> pre[k].id < n
    ensures var d, s, n1 := e.disjunction, sense != e.negated, n + Used(e.e0);
      var p := FirstTarget(e.id, d, s, addr);
      var a, b := NewLadder(e.e0, d, p, n, dyn), NewLadder(e.e1, s, addr, n1, dyn);
      var chain := pre + NewLadder(e, sense, addr, n, dyn) + post;
      && chain == pre + a + (b + post) && chain == (pre + a) + b + post && b + post != [] &&
        (b + post)[0].id == First(e.e1, n1)
      && forall k :: 0 <= k < |pre + a| ==> (pre + a)[k].id < n1
  {
    var d, s, n1 := e.disjunction, sense != e.negated, n + Used(e.e0);
    var p := FirstTarget(e.id, d, s, addr);
    var a, b := NewLadder(e.e0, d, p, n, dyn), NewLadder(e.e1, s, addr, n1, dyn);
    Regroup(pre, a, b, post);
    SecondFirst(e.e1, s, addr, n1, dyn, post);
    BelowSecond(e.e0, d, p, n, dyn, pre);
  }

  /** The final ladder of an operator, from those of its operands. */
  lemma FinalOf(chain: seq<Triple>, track: map<Id, Id>, e: Expr, sense: bool, addr: Target, nxt: Id, n: Id, dyn: bool)
    requires e.Bin? && Redirect(chain, track, TJmp(e.id)) == TJmp(nxt)
    requires var d, s, n1 := e.disjunction, sense != e.negated, n + Used(e.e0);
      var p := FirstTarget(e.id, d, s, addr);
      var a, b := NewLadder(e.e0, d, p, n, dyn), NewLadder(e.e1, s, addr, n1, dyn);
      && RedirectAll(chain, track, a) == FinalLadder(e.e0, d, Redirect(chain, track, p), First(e.e1, n1), n, dyn)
      && RedirectAll(chain, track, b) == FinalLadder(e.e1, s, Redirect(chain, track, addr), nxt, n1, dyn)
    ensures RedirectAll(chain, track, NewLadder(e, sense, addr, n, dyn))
      == FinalLadder(e, sense, Redirect(chain, track, addr), nxt, n, dyn)
  {
    var d, s, n1 := e.disjunction, sense != e.negated, n + Used(e.e0);
    var p := FirstTarget(e.id, d, s, addr);
    RedirectConcat(chain, track, NewLadder(e.e0, d, p, n, dyn), NewLadder(e.e1, s, addr, n1, dyn));
  }

  lemma SecondFirst(e: Expr, sense: bool, addr: Target, n: Id, dyn: bool, post: seq<Triple>)
    ensures var c := NewLadder(e, sense, addr, n, dyn) + post; c != [] && c[0].id == First(e, n)
  {
    NewLadderShape(e, sense, addr, n, dyn);
  }

  lemma BelowSecond(e: Expr, sense: bool, addr: Target, n: Id, dyn: bool, pre: seq<Triple>)
    requires forall k :: 0 <= k < |pre| ==> pre[k].id < n
    ensures var c := pre + NewLadder(e, sense, addr, n, dyn); forall k :: 0 <= k < |c| ==> c[k].id < n + Used(e)
  {
    NewLadderShape(e, sense, addr, n, dyn);
  }

  lemma RedirectOperator(chain: seq<Triple>, track: map<Id, Id>, e: Expr, sense: bool, addr: Target,
                         nxt: Id, n: Id, dyn: bool, pre: seq<Triple>, post: seq<Triple>)
    requires e.Bin? && chain == pre + NewLadder(e, sense, addr, n, dyn) + post && post != [] && post[0].id == nxt
    requires Tracked(track, e, n) && forall k :: 0 <= k < |pre| ==> pre[k].id < n
    ensures Redirect(chain, track, TJmp(e.id)) == TJmp(nxt)
  {
    NewLadderShape(e, sense, addr, n, dyn);
    var c := NewLadder(e, sense, addr, n, dyn);
    assert c[|c| - 1].id >= n;
    NextAfter(chain, pre, c, post, LastId(e, n), n);
  }

  /** The triple after the last one of a stretch. */
  lemma NextAfter(chain: seq<Triple>, pre: seq<Triple>, c: seq<Triple>, post: seq<Triple>, last: Id, n: Id)
    requires chain == pre + c + post && c != [] && post != []
    requires c[|c| - 1].id == last >= n && Absent(c[..|c| - 1], last) && forall k :: 0 <= k < |pre| ==> pre[k].id < n
    ensures Pos(chain, last) + 1 == |pre| + |c| < |chain| && chain[|pre| + |c|] == post[0]
  {
    var k := |pre| + |c| - 1;
    assert chain[k] == c[|c| - 1];
    forall j | 0 <= j < k ensures chain[j].id != last {
      assert chain[j] == if j < |pre| then pre[j] else c[..|c| - 1][j - |pre|];
    }
  }

  /** STOTEMP_IF_NEEDED, by the opcode of the operand's triple. */
  function KeepOp(op: Op, ref: Id, dyn: bool): Op {
    match op
    case OcVar(_) => OcStotemp(ref)
    case OcLit(_) => if dyn then OcLitc(ref) else OcNoop
    case _ => OcNoop
  }

  /** The triple of an operand: the last of its triples. */
  ghost function OpdOp(o: Opd): Op { SrcOpd(o)[|SrcOpd(o)| - 1].op }

  lemma {:induction false} PassLast(o: Opd)
    requires WfOpd(o)
    ensures PassOpd(o) != [] && Absent(PassOpd(o)[..|PassOpd(o)| - 1], o.id) && PassOpd(o)[|PassOpd(o)| - 1].id == o.id
    ensures KeepOp(PassOpd(o)[|PassOpd(o)| - 1].op, o.id, true) == Keep(o, true)
    ensures KeepOp(PassOpd(o)[|PassOpd(o)| - 1].op, o.id, false) == Keep(o, false)
    ensures KeepOp(OpdOp(o), o.id, true) == Keep(o, true) && KeepOp(OpdOp(o), o.id, false) == Keep(o, false)
  {
    if o.Unary? {
      PassAbsent(o.o, o.id);
    }
  }

  ghost predicate OpdOutside(pre: seq<Triple>, o: Opd) {
    forall k :: k in OpdIds(o) ==> Absent(pre, k)
  }

  lemma {:induction false} PassLength(o: Opd)
    ensures |PassOpd(o)| == |SrcOpd(o)|
  {
    if o.Unary? {
      PassLength(o.o);
    }
  }

  lemma {:induction false} BaseOp(o: Opd)
    ensures !Base(o).Unary? && (OpdOp(Base(o)).OcEval? <==> Base(o).Eval?)
    ensures Base(o).Eval? ==> OpdOp(Base(o)).mint == Base(o).mint
  {
    if o.Unary? {
      BaseOp(o.o);
    }
  }

  lemma Replace2(pre: seq<Triple>, a: Triple, b: Triple, post: seq<Triple>, x: Triple, y: Triple)
    ensures (pre + [a, b] + post)[|pre| := x][|pre| + 1 := y] == pre + [x, y] + post
    ensures (pre + [a, b] + post)[|pre|] == a && (pre + [a, b] + post)[|pre| + 1] == b
  {
  }

  /** Where a leaf's operand triple is found. */
  lemma FindOpd(pre: seq<Triple>, c: seq<Triple>, post: seq<Triple>, id: Id)
    requires c != [] && c[|c| - 1].id == id && Absent(c[..|c| - 1], id) && Absent(pre, id)
    ensures Pos(pre + c + post, id) == |pre| + |c| - 1 && (pre + c + post)[|pre| + |c| - 1] == c[|c| - 1]
  {
    var chain, k := pre + c + post, |pre| + |c| - 1;
    assert chain[k] == c[|c| - 1];
    forall j | 0 <= j < k ensures chain[j].id != id {
      assert chain[j] == if j < |pre| then pre[j] else c[..|c| - 1][j - |pre|];
    }
  }

  /** Where the operator itself stands once its operands are compiled. */
  lemma OwnPlace(e: Expr, n: Id, dyn: bool, pre: seq<Triple>, post: seq<Triple>)
    requires e.Bin? && Wf(e) && AllBelow(e, n) && AllAbsent(pre, e)
    ensures Kept(e, n, dyn) != [] && Pos(pre + Kept(e, n, dyn) + post, e.id) == |pre| + |Kept(e, n, dyn)| - 1
  {
    OwnNoopLast(e, true, External, n, dyn);
    assert e.id in ExprIds(e);
    FindOpd(pre, Kept(e, n, dyn), post, e.id);
  }

  /** What STOTEMP_IF_NEEDED finds for the operands of a relation. */
  lemma RelOperands(l: Opd, r: Opd, pre: seq<Triple>, tail: seq<Triple>, dyn: bool)
    requires WfOpd(l) && WfOpd(r) && OpdIds(l) !! OpdIds(r) && OpdOutside(pre, l) && OpdOutside(pre, r)
    ensures
      var chain := pre + (SrcOpd(l) + SrcOpd(r)) + tail;
      && Pos(chain, l.id) < |chain| && KeepOp(chain[Pos(chain, l.id)].op, l.id, dyn) == Keep(l, dyn)
      && Pos(chain, r.id) < |chain| && KeepOp(chain[Pos(chain, r.id)].op, r.id, dyn) == Keep(r, dyn)
  {
    Regroup(pre, SrcOpd(l), SrcOpd(r), tail);
    KeptOperand(l, pre, SrcOpd(r) + tail, dyn);
    assert r.id in OpdIds(r) by { OpdLast(r); }
    OpdAbsent(l, r.id);
    KeptOperand(r, pre + SrcOpd(l), tail, dyn);
  }

  /** What it finds for one operand. */
  lemma KeptOperand(o: Opd, pre: seq<Triple>, tail: seq<Triple>, dyn: bool)
    requires WfOpd(o) && Absent(pre, o.id)
    ensures var chain := pre + SrcOpd(o) + tail;
      Pos(chain, o.id) < |chain| && KeepOp(chain[Pos(chain, o.id)].op, o.id, dyn) == Keep(o, dyn)
  {
    OpdLast(o);
    PassLast(o);
    FindOpd(pre, SrcOpd(o), tail, o.id);
  }

  /** The index of a leaf's test in its short-circuit ladder, and of the ladder's last triple. */
  ghost function TestAt(x: Expr): nat
    requires !x.Com? && !x.Bin?
  {
    match x
    case Cobool(_, o) => |SrcOpd(o)|
    case Test(_, _) => 1
    case Rel(_, _, _, l, r) => |SrcOpd(l) + SrcOpd(r)|
  }

  lemma LeafLadderEnd(x: Expr, sense: bool, addr: Target, n: Id)
    requires !x.Com? && !x.Bin?
    ensures
      var c, k := Ladder(x, sense, addr, n), TestAt(x);
      && k < |c| && c[k].id == x.id && c[|c| - 1].op.OcJmp?
      && (if x.Test? then |c| == k + 1 && c[k].op.cond in {JmpTset, JmpTclr}
          else
            && |c| == k + 2 && c[k + 1].op.cond !in {JmpTset, JmpTclr}
            && (if x.Cobool? then c[k].op.OcCobool? else c[k].op.OcCmp?))
  {
  }

  lemma LeafTestFound(x: Expr, sense: bool, addr: Target, n: Id, pre: seq<Triple>, post: seq<Triple>)
    requires !x.Com? && !x.Bin? && Wf(x) && AllAbsent(pre, x)
    ensures Pos(pre + Ladder(x, sense, addr, n) + post, x.id) == |pre| + TestAt(x)
  {
    var chain, c, k := pre + Ladder(x, sense, addr, n) + post, Ladder(x, sense, addr, n), TestAt(x);
    LeafLadderEnd(x, sense, addr, n);
    assert x.id in ExprIds(x);
    match x {
      case Cobool(id, o) => OpdAbsent(o, id);
      case Test(_, _) =>
      case Rel(id, _, _, l, r) =>
        OpdAbsent(l, id);
        OpdAbsent(r, id);
    }
    assert chain[|pre| + k] == c[k];
    forall j | 0 <= j < |pre| + k ensures chain[j].id != x.id {
      assert chain[j] == if j < |pre| then pre[j] else c[j - |pre|];
    }
  }

  /** In what bx_tail leaves for a complement or an operator, its own no-op comes last and only there. */
  lemma OwnNoopLast(e: Expr, sense: bool, addr: Target, n: Id, dyn: bool)
    requires (e.Com? || e.Bin?) && Wf(e) && AllBelow(e, n)
    ensures var c := Kept(e, n, dyn); c != [] && c[|c| - 1] == Triple(e.id, OcNoop) && Absent(c[..|c| - 1], e.id)
    ensures e.Com? ==>
      var c := Ladder(e, sense, addr, n); c != [] && c[|c| - 1] == Triple(e.id, OcNoop) && Absent(c[..|c| - 1], e.id)
  {
    assert e.id in ExprIds(e);
    if e.Com? {
      KeptAbsent(e.e, n, dyn, e.id);
      LadderAbsent(e.e, !sense, addr, n, e.id);
    } else {
      KeptAbsent(e.e0, n, dyn, e.id);
      KeptAbsent(e.e1, n + Used(e.e0), dyn, e.id);
    }
  }

  lemma SecondAbsentFull(e: Expr, pre: seq<Triple>, n: Id, dyn: bool)
    requires e.Bin? && Wf(e) && AllAbsent(pre, e) && AllBelow(e, n)
    ensures AllAbsent(pre + Kept(e.e0, n, dyn), e.e1)
    ensures Absent(pre + Kept(e.e0, n, dyn) + Kept(e.e1, n + Used(e.e0), dyn), e.id)
  {
    forall k | k in ExprIds(e.e1) ensures Absent(pre + Kept(e.e0, n, dyn), k) {
      assert k in ExprIds(e);
      KeptAbsent(e.e0, n, dyn, k);
    }
    assert e.id in ExprIds(e);
    KeptAbsent(e.e0, n, dyn, e.id);
    KeptAbsent(e.e1, n + Used(e.e0), dyn, e.id);
  }

  /** Tracking the operator on top of its operands. */
  lemma TrackOperator(track: map<Id, Id>, track0: map<Id, Id>, track1: map<Id, Id>, e: Expr, n: Id)
    requires e.Bin? && Wf(e) && TrackStep(track, track0, e.e0, n) && TrackStep(track0, track1, e.e1, n + Used(e.e0))
    ensures TrackStep(track, track1[e.id := LastId(e, n)], e, n)
  {
    var t := track1[e.id := LastId(e, n)];
    OperatorsIds(e.e0);
    OperatorsIds(e.e1);
    TrackedMore(track0, t, e.e0, n);
    TrackedMore(track1, t, e.e1, n + Used(e.e0));
  }

  /** The last triple of `c` that is not a no-op, when `c` is a ladder and its pads. */
  lemma FishedLeaf(c: seq<Triple>, l: seq<Triple>, pads: seq<Triple>, k: nat)
    requires c == l + pads && l != [] && l[|l| - 1].op != OcNoop && forall j :: 0 <= j < |pads| ==> pads[j].op == OcNoop
    requires k < |c| && c[k].op != OcNoop && forall j :: k < j < |c| ==> c[j].op == OcNoop
    ensures k == |l| - 1 && c[k] == l[k]
  {
    assert c[|l| - 1] == l[|l| - 1];
    assert forall j :: |l| <= j < |c| ==> c[j] == pads[j - |l|];
  }

  ghost function Tail(e: Expr, sense: bool, addr: Target, n: Id, dyn: bool): seq<Triple> {
    if Core(e).Bin? then Kept(e, n, dyn) else Ladder(e, sense, addr, n)
  }

  /** What bx_tail alone has put on the new ladder: an operator's part, nothing of a leaf's. */
  ghost function Moved(e: Expr, sense: bool, addr: Target, n: Id, dyn: bool): seq<Triple> {
    if Core(e).Bin? then NewLadder(e, sense, addr, n, dyn) else []
  }

  lemma NotAllNoops(e: Expr, sense: bool, addr: Target, n: Id, dyn: bool)
    ensures var c := Tail(e, sense, addr, n, dyn); exists j :: 0 <= j < |c| && c[j].op != OcNoop
  {
    if Core(e).Bin? {
      KeptSettled(e, n, dyn);
    } else {
      Uncomplemented(e, sense, addr, n, dyn);
      var l := Ladder(Core(e), CoreSense(e, sense), addr, n);
      LeafLadderEnd(Core(e), CoreSense(e, sense), addr, n);
      assert Tail(e, sense, addr, n, dyn)[|l| - 1] == l[|l| - 1];
    }
  }

  /** A conditional jump on the outcome of the triple before it. */
  predicate Untested(op: Op) { op.OcJmp? && op.cond != JmpTset && op.cond != JmpTclr }

  /** Walking back over no-ops from a complement or an operator ends at the leaf's jump, or at
      something inert if the leaf's ladder has been moved. */
  lemma FishedTest(e: Expr, sense: bool, addr: Target, n: Id, dyn: bool, k: nat)
    requires
      var c := Tail(e, sense, addr, n, dyn);
      k < |c| && c[k].op != OcNoop && forall j :: k < j < |c| ==> c[j].op == OcNoop
    ensures
      var c, x := Tail(e, sense, addr, n, dyn), Core(e);
      && (x.Bin? ==> Inert(c[k].op))
      && (!x.Bin? ==> !x.Com? && c[k].op.OcJmp? && k == TestAt(x) + if Untested(c[k].op) then 1 else 0)
      && (!x.Bin? ==> c[TestAt(x)].op != OcNoop)
  {
    Uncomplemented(e, sense, addr, n, dyn);
    if Core(e).Bin? {
      KeptSettled(e, n, dyn);
    } else {
      LeafLadderEnd(Core(e), CoreSense(e, sense), addr, n);
      FishedLeaf(Tail(e, sense, addr, n, dyn), Ladder(Core(e), CoreSense(e, sense), addr, n), Pads(e), k);
    }
  }

  /** The last triple of `c` that is not a no-op stands at `k` when `c` follows `pre`. */
  ghost predicate Fished(c: seq<Triple>, pre: seq<Triple>, k: nat) {
    |pre| <= k < |pre| + |c| && c[k - |pre|].op != OcNoop && forall j :: k - |pre| < j < |c| ==> c[j].op == OcNoop
  }

  /** What is found at `k` is inert, or is or follows the test at `at`. */
  ghost predicate LeadsTo(chain: seq<Triple>, bin: bool, at: nat, k: nat)
    requires k < |chain|
  {
    if bin then Inert(chain[k].op)
    else chain[k].op.OcJmp? && k == at + (if Untested(chain[k].op) then 1 else 0) && chain[at].op != OcNoop
  }

  /** Where the core's test stands among the triples of the operand. */
  ghost function Spot(e: Expr): nat {
    if Core(e).Com? || Core(e).Bin? then 0 else TestAt(Core(e))
  }

  lemma FishedInChain(e: Expr, sense: bool, addr: Target, n: Id, dyn: bool, pre: seq<Triple>, post: seq<Triple>, k: nat)
    requires Fished(Tail(e, sense, addr, n, dyn), pre, k)
    ensures LeadsTo(pre + Tail(e, sense, addr, n, dyn) + post, Core(e).Bin?, |pre| + Spot(e), k)
  {
    FishedTest(e, sense, addr, n, dyn, k - |pre|);
  }

  /** All that the walk back needs to know. */
  lemma BackReady(e: Expr, sense: bool, addr: Target, n: Id, dyn: bool, pre: seq<Triple>, post: seq<Triple>)
    requires (e.Com? || e.Bin?) && Wf(e) && AllBelow(e, n)
    ensures
      var c := Tail(e, sense, addr, n, dyn);
      && c != [] && c[|c| - 1].id == e.id && Absent(c[..|c| - 1], e.id) &&
        (exists j :: 0 <= j < |c| && c[j].op != OcNoop)
      && forall j: nat :: Fished(c, pre, j) ==> LeadsTo(pre + c + post, Core(e).Bin?, |pre| + Spot(e), j)
  {
    var c := Tail(e, sense, addr, n, dyn);
    OwnNoopLast(e, sense, addr, n, dyn);
    NotAllNoops(e, sense, addr, n, dyn);
    forall j: nat | Fished(c, pre, j) ensures LeadsTo(pre + c + post, Core(e).Bin?, |pre| + Spot(e), j) {
      FishedInChain(e, sense, addr, n, dyn, pre, post, j);
    }
  }

  /** Where the operand's own triple stands after bx_tail: a complement's or operator's no-op, or the
      leaf's test. */
  lemma OperandPlace(e: Expr, sense: bool, addr: Target, n: Id, dyn: bool, pre: seq<Triple>, post: seq<Triple>)
    requires Wf(e) && AllAbsent(pre, e) && AllBelow(e, n)
    ensures
      var chain := pre + Tail(e, sense, addr, n, dyn) + post;
      var k := Pos(chain, e.id);
      && k < |chain| && Absent(pre, e.id)
      && (e.Com? || e.Bin? ==> chain[k].op == OcNoop)
      && (!e.Com? && !e.Bin? ==> Core(e) == e && chain[k].op != OcNoop && k == |pre| + TestAt(e))
  {
    assert e.id in ExprIds(e);
    if e.Com? || e.Bin? {
      OwnNoopLast(e, sense, addr, n, dyn);
      FindOpd(pre, Tail(e, sense, addr, n, dyn), post, e.id);
    } else {
      LeafPlace(e, sense, addr, n, pre, post);
    }
  }

  lemma LeafPlace(e: Expr, sense: bool, addr: Target, n: Id, pre: seq<Triple>, post: seq<Triple>)
    requires !e.Com? && !e.Bin? && Wf(e) && AllAbsent(pre, e)
    ensures
      var chain := pre + Ladder(e, sense, addr, n) + post;
      var k := Pos(chain, e.id);
      k < |chain| && chain[k].op != OcNoop && k == |pre| + TestAt(e)
  {
    LeafTestFound(e, sense, addr, n, pre, post);
    LeafLadderEnd(e, sense, addr, n);
    assert (pre + Ladder(e, sense, addr, n) + post)[|pre| + TestAt(e)] == Ladder(e, sense, addr, n)[TestAt(e)];
  }

  /** What MoveTest works on: the core of the operand, the no-ops of its complements after it. */
  lemma CoreParts(e: Expr, sense: bool, addr: Target, n: Id, dyn: bool, pre: seq<Triple>, post: seq<Triple>)
    requires Wf(e) && AllAbsent(pre, e)
    ensures var x, s := Core(e), CoreSense(e, sense);
      && Wf(x) && AllAbsent(pre, x) && Used(e) == Used(x) && Span(e) == Span(x) && Jumps(e) == Jumps(x)
      && NewLadder(e, sense, addr, n, dyn) == NewLadder(x, s, addr, n, dyn)
      && pre + Kept(e, n, dyn) + post == pre + Kept(x, n, dyn) + (Pads(e) + post)
      && (!x.Bin? ==>
            && !x.Com? && TestAt(x) < |Ladder(x, s, addr, n)|
            && pre + Tail(e, sense, addr, n, dyn) + post == pre + Ladder(x, s, addr, n) + (Pads(e) + post)
            && (pre + Tail(e, sense, addr, n, dyn) + post)[|pre| + TestAt(x)] == Ladder(x, s, addr, n)[TestAt(x)])
  {
    var x, s := Core(e), CoreSense(e, sense);
    Uncomplemented(e, sense, addr, n, dyn);
    Regroup(pre, Kept(x, n, dyn), Pads(e), post);
    if !x.Bin? {
      LeafLadderEnd(x, s, addr, n);
      Regroup(pre, Ladder(x, s, addr, n), Pads(e), post);
    }
  }

  /** A complement's chain: its operand's and a no-op. */
  lemma Complement(e: Expr, sense: bool, addr: Target, n: Id, dyn: bool, pre: seq<Triple>, last: Triple,
                   post: seq<Triple>)
    requires e.Com? && Wf(e) && AllAbsent(pre, e) && AllBelow(e, n)
    ensures
      var c := Tail(e.e, !sense, addr, n, dyn);
      && pre + c + ([last] + post) == (pre + c) + [last] + post && Absent(pre + c, e.id)
      && (pre + c) + [Triple(e.id, OcNoop)] + post == pre + Tail(e, sense, addr, n, dyn) + post
    ensures Moved(e, sense, addr, n, dyn) == Moved(e.e, !sense, addr, n, dyn)
    ensures Core(e) == Core(e.e) && Span(e) == Span(e.e) && Jumps(e) == Jumps(e.e)
    ensures forall t, t' :: TrackStep(t, t', e.e, n) ==> TrackStep(t, t', e, n)
  {
    var c := Tail(e.e, !sense, addr, n, dyn);
    assert e.id in ExprIds(e);
    OwnNoopLast(e, sense, addr, n, dyn);
    Regroup(pre, c, [last], post);
    Regroup(pre, c, [Triple(e.id, OcNoop)], post);
    assert Tail(e, sense, addr, n, dyn) == c + [Triple(e.id, OcNoop)];
    assert Absent(c, e.id);
  }

  lemma KeptAssembled(e: Expr, n: Id, dyn: bool, pre: seq<Triple>, post: seq<Triple>, ex: seq<Triple>)
    requires e.Bin?
    requires ex == (pre + Kept(e.e0, n, dyn) + Kept(e.e1, n + Used(e.e0), dyn)) + [Triple(e.id, OcNoop)] + post
    ensures ex == pre + Kept(e, n, dyn) + post
  {
    Regroup3(pre, Kept(e.e0, n, dyn), Kept(e.e1, n + Used(e.e0), dyn), [Triple(e.id, OcNoop)], post);
  }

  lemma RedirectWhole(e: Expr, sense: bool, addr: Target, n: Id, dyn: bool, track: map<Id, Id>, safe: Triple)
    requires Tracked(track, e, n) && (addr.TJmp? ==> addr.id !in track) && safe == Triple(n + Span(e), OcNoop)
    ensures
      var chain := NewLadder(e, sense, addr, n, dyn) + [safe];
      RedirectAll(chain, track, chain) == FinalLadder(e, sense, addr, safe.id, n, dyn) + [safe]
  {
    var ladder := NewLadder(e, sense, addr, n, dyn);
    var chain := ladder + [safe];
    assert chain == [] + ladder + [safe];
    RedirectFinal(chain, track, e, sense, addr, safe.id, n, dyn, [], [safe]);
    RedirectConcat(chain, track, ladder, [safe]);
  }

  lemma FullAssembled(e: Expr, sense: bool, addr: Target, n: Id, dyn: bool, pre: seq<Triple>, post: seq<Triple>,
                      ex: seq<Triple>)
    requires
      var k := Kept(e, n, dyn);
      var l := FinalLadder(e, sense, addr, n + Span(e), n, dyn) + [Triple(n + Span(e), OcNoop)];
      ex == (pre + k + post)[..|pre| + |k|] + l + (pre + k + post)[|pre| + |k|..]
    ensures ex == pre + FullChain(e, sense, addr, n, dyn) + post
  {
    var k := Kept(e, n, dyn);
    var l := FinalLadder(e, sense, addr, n + Span(e), n, dyn) + [Triple(n + Span(e), OcNoop)];
    assert (pre + k + post)[..|pre| + |k|] == pre + k && (pre + k + post)[|pre| + |k|..] == post;
    Regroup(pre, k, l, post);
    assert FullChain(e, sense, addr, n, dyn) == k + l;
  }

  lemma NewLadderAssembled(e: Expr, s: bool, addr: Target, n: Id, dyn: bool, b0: seq<Triple>, b1: seq<Triple>,
                           b: seq<Triple>)
    requires e.Bin?
    requires b1 == b0 + NewLadder(e.e0, e.disjunction, if e.disjunction != s then TJmp(e.id) else addr, n, dyn)
    requires b == b1 + NewLadder(e.e1, s, addr, n + Used(e.e0), dyn)
    ensures b == b0 + NewLadder(e, s != e.negated, addr, n, dyn)
    ensures b != [] && b[|b| - 1].id == LastId(e, n)
  {
    NewLadderShape(e.e1, s, addr, n + Used(e.e0), dyn);
  }

  class Chain {
    /** The execution order queue. */
    var exorder: seq<Triple>
    var nextId: Id
    /** The new ladder under construction, and for each finished operator the last triple it put there
        (TRACK_JMP_TARGET). */
    var boolchain: seq<Triple>
    var track: map<Id, Id>
    var dynamicLiterals: bool

    /** The opcode of a triple, and its place. */
    method Lookup(id: Id, ghost pre: seq<Triple>, ghost op: Op, ghost post: seq<Triple>) returns (k: nat, at: Op)
      requires exorder == pre + [Triple(id, op)] + post && Absent(pre, id)
      ensures k == |pre| && at == op
    {
      k := Pos(exorder, id);
      assert exorder[|pre|] == Triple(id, op);
      at := exorder[k].op;
    }

    /** Give triple `id` a new opcode and operands where it stands. */
    method Overwrite(id: Id, op: Op, ghost pre: seq<Triple>, ghost was: Op, ghost post: seq<Triple>)
      requires exorder == pre + [Triple(id, was)] + post && Absent(pre, id)
      modifies this`exorder
      ensures exorder == pre + [Triple(id, op)] + post
    {
      var k, _ := Lookup(id, pre, was, post);
      exorder := exorder[k := Triple(id, op)];
    }

    /** maketriple and dqins: put a new triple right after triple `id`. */
    method InsertAfter(id: Id, op: Op, ghost pre: seq<Triple>, ghost was: Op, ghost post: seq<Triple>)
      requires exorder == pre + [Triple(id, was)] + post && Absent(pre, id)
      modifies this`exorder, this`nextId
      ensures exorder == pre + [Triple(id, was), Triple(old(nextId), op)] + post
      ensures nextId == old(nextId) + 1
    {
      var k, _ := Lookup(id, pre, was, post);
      exorder := exorder[..k + 1] + [Triple(nextId, op)] + exorder[k + 1..];
      nextId := nextId + 1;
    }

    /** The short-circuit path of bx_boolop: `p` is the operator itself when its value is still open
        after a jump on the first operand. */
    method BxBoolop(t: Id, x: Id, y: Id, d: bool, s: bool, addr: Target,
                    ghost e: Expr, ghost pre: seq<Triple>, ghost post: seq<Triple>)
      requires e.Bin? && Wf(e) && t == e.id && x == e.e0.id && y == e.e1.id && d == e.disjunction
      requires exorder == pre + Src(e) + post && AllAbsent(pre, e) && AllBelow(e, nextId)
      modifies this`exorder, this`nextId
      ensures exorder == pre + Ladder(e, s != e.negated, addr, old(nextId)) + post
      ensures nextId == old(nextId) + Jumps(e)
      decreases e, 1
    {
      ghost var n, last := nextId, Triple(t, OcBin(d, e.negated, x, y));
      var p := if d != s then TJmp(t) else addr;
      BxOperands(x, y, d, p, s, addr, e, pre, last, post);
      ghost var c0, c1 := Ladder(e.e0, d, p, n), Ladder(e.e1, s, addr, n + Jumps(e.e0));
      OperatorAbsent(e, pre, d, p, s, addr, n);
      Overwrite(t, OcNoop, pre + c0 + c1, last.op, post);
      Regroup3(pre, c0, c1, [Triple(t, OcNoop)], post);
    }

    method BxOperands(x: Id, y: Id, d: bool, p: Target, s: bool, addr: Target,
                      ghost e: Expr, ghost pre: seq<Triple>, ghost last: Triple, ghost post: seq<Triple>)
      requires e.Bin? && Wf(e) && x == e.e0.id && y == e.e1.id
      requires exorder == pre + (Src(e.e0) + Src(e.e1) + [last]) + post && AllAbsent(pre, e) && AllBelow(e, nextId)
      modifies this`exorder, this`nextId
      ensures exorder ==
        (pre + Ladder(e.e0, d, p, old(nextId)) + Ladder(e.e1, s, addr, old(nextId) + Jumps(e.e0))) + [last] + post
      ensures nextId == old(nextId) + Jumps(e.e0) + Jumps(e.e1)
      decreases e, 0
    {
      assert ExprIds(e.e0) <= ExprIds(e) && ExprIds(e.e1) <= ExprIds(e);
      Regroup3(pre, Src(e.e0), Src(e.e1), [last], post);
      BxTail(x, d, p, e.e0, pre, Src(e.e1) + [last] + post);
      ghost var c0, c1 := Ladder(e.e0, d, p, old(nextId)), Ladder(e.e1, s, addr, nextId);
      SecondAbsent(e, pre, d, p, old(nextId));
      Regroup3(pre, c0, Src(e.e1), [last], post);
      BxTail(y, s, addr, e.e1, pre + c0, [last] + post);
      Regroup3(pre, c0, c1, [last], post);
    }

    /** bx_tail on a leaf: a coercion gets a jump after it, the coercion of $TEST becomes one, and
        bx_relop turns a relation into a comparison and a jump. */
    method BxLeaf(t: Id, sense: bool, addr: Target, ghost e: Expr, ghost pre: seq<Triple>, ghost post: seq<Triple>)
      requires t == e.id && Wf(e) && !e.Com? && !e.Bin? && exorder == pre + Src(e) + post && AllAbsent(pre, e)
      modifies this`exorder, this`nextId
      ensures exorder == pre + Ladder(e, sense, addr, old(nextId)) + post
      ensures nextId == old(nextId) + Jumps(e)
    {
      ghost var body, last := Src(e)[..|Src(e)| - 1], Src(e)[|Src(e)| - 1];
      LastAbsent(e, pre, post);
      ghost var n := nextId;
      var k, op := Lookup(t, pre + body, last.op, post);
      match op {
        case OcCobool(r) =>
          BxCoercion(t, k, r, sense, addr, e, pre, body, last, post);
        case OcRel(rel, neg, l, r) =>
          BxRelop(t, rel, sense != neg, l, r, addr, pre, body, last, post);
        case _ => assert false;
      }
    }

    /** A coercion: of $TEST, or of a value. */
    method BxCoercion(t: Id, k: nat, r: Id, sense: bool, addr: Target, ghost e: Expr,
                      ghost pre: seq<Triple>, ghost body: seq<Triple>, ghost last: Triple, ghost post: seq<Triple>)
      requires Wf(e) && t == e.id && (e.Cobool? || e.Test?) && r == (if e.Cobool? then e.o.id else e.gid)
      requires Src(e) == body + [last] && last == Triple(t, OcCobool(r)) && AllAbsent(pre, e)
      requires exorder == (pre + body) + [last] + post && k == |pre + body| && Absent(pre + body, t)
      modifies this`exorder, this`nextId
      ensures exorder == pre + Ladder(e, sense, addr, old(nextId)) + post
      ensures nextId == old(nextId) + Jumps(e)
    {
      ghost var n := nextId;
      Regroup(pre, body, [last], post);
      var g := Pos(exorder, r);
      OperandFound(e, pre, post);
      if exorder[g].op == OcGettruth {
        TestLadder(e, sense, addr, n, pre, body, last, post);
        exorder := exorder[g := Triple(r, OcNoop)];
        exorder := exorder[k := Triple(t, OcJmp(if sense then JmpTset else JmpTclr, addr))];
      } else {
        assert body == Src(e)[..|Src(e)| - 1];
        InsertAfter(t, OcJmp(if sense then JmpNeq else JmpEqu, addr), pre + body, OcCobool(r), post);
        Regroup(pre, body, [last, Triple(n, OcJmp(if sense then JmpNeq else JmpEqu, addr))], post);
      }
    }

    /** bx_relop: the relation becomes a comparison, and a jump goes behind it. */
    method BxRelop(t: Id, rel: Relation, s: bool, l: Id, r: Id, addr: Target,
                   ghost pre: seq<Triple>, ghost body: seq<Triple>, ghost last: Triple, ghost post: seq<Triple>)
      requires last.id == t && exorder == (pre + body) + [last] + post && Absent(pre + body, t)
      modifies this`exorder, this`nextId
      ensures exorder == pre +
        (body + [Triple(t, OcCmp(CmpOf(rel), l, r)), Triple(old(nextId), OcJmp(JumpOf(rel, s), addr))]) + post
      ensures nextId == old(nextId) + 1
    {
      ghost var n := nextId;
      InsertAfter(t, OcJmp(JumpOf(rel, s), addr), pre + body, last.op, post);
      ghost var jump := Triple(n, OcJmp(JumpOf(rel, s), addr));
      assert exorder == (pre + body) + [last] + ([jump] + post);
      Overwrite(t, OcCmp(CmpOf(rel), l, r), pre + body, last.op, [jump] + post);
      Regroup(pre, body, [Triple(t, OcCmp(CmpOf(rel), l, r)), jump], post);
    }

    /** bx_tail with short-circuit operators: turn the triples of a Boolean tree, where they stand in the queue, into
        its jump ladder. */
    method BxTail(t: Id, sense: bool, addr: Target, ghost e: Expr, ghost pre: seq<Triple>, ghost post: seq<Triple>)
      requires t == e.id && Wf(e) && exorder == pre + Src(e) + post && AllAbsent(pre, e) && AllBelow(e, nextId)
      modifies this`exorder, this`nextId
      ensures exorder == pre + Ladder(e, sense, addr, old(nextId)) + post
      ensures nextId == old(nextId) + Jumps(e)
      decreases e, 2
    {
      ghost var body, last := Src(e)[..|Src(e)| - 1], Src(e)[|Src(e)| - 1];
      LastAbsent(e, pre, post);
      ghost var n := nextId;
      var k, op := Lookup(t, pre + body, last.op, post);
      if op.OcCom? {
        Regroup(pre, Src(e.e), [last], post);
        assert ExprIds(e.e) <= ExprIds(e);
        BxTail(op.e, !sense, addr, e.e, pre, [last] + post);
        ghost var c := Ladder(e.e, !sense, addr, n);
        LadderAbsent(e.e, !sense, addr, n, t);
        Regroup(pre, c, [last], post);
        Overwrite(t, OcNoop, pre + c, last.op, post);
        Regroup(pre, c, [Triple(t, OcNoop)], post);
      } else if op.OcBin? {
        BxBoolop(t, op.e0, op.e1, op.disjunction, sense != op.negated, addr, e, pre, post);
      } else {
        BxLeaf(t, sense, addr, e, pre, post);
      }
    }

    // ---- Full evaluation -----------------------------------------------------------------------

    /** What is left of the chain under a unary operator. */
    lemma UnderUnary(o: Opd, pre: seq<Triple>, x: Triple, done: seq<Triple>, post: seq<Triple>)
      requires o.Unary?
      ensures SrcOpd(o) != [] && SrcOpd(o)[..|SrcOpd(o)| - 1] == SrcOpd(o.o)
      ensures (pre + SrcOpd(o.o)) + [x] + (done + post) == pre + SrcOpd(o.o) + (([x] + done) + post)
    {
      Assoc(pre + SrcOpd(o.o), [x], done, post);
    }

    lemma Assoc<T>(a: seq<T>, b: seq<T>, c: seq<T>, d: seq<T>)
      ensures a + b + (c + d) == a + ((b + c) + d)
    {
    }

    /** One operand triple: a unary operator is made transparent. */
    method PassOne(r: Id, ghost o: Opd, ghost pre: seq<Triple>, ghost done: seq<Triple>, ghost post: seq<Triple>)
      returns (op: Op)
      requires exorder == pre + SrcOpd(o) + (done + post) && WfOpd(o) && r == o.id && OpdOutside(pre, o)
      modifies this`exorder
      ensures op == OpdOp(o) && (op.OcNeg? || op.OcForcenum? <==> o.Unary?)
      ensures o.Unary? ==>
        op.ref == o.o.id && exorder == pre + SrcOpd(o.o) + (([Triple(r, OcPassthru(op.ref))] + done) + post)
      ensures !o.Unary? ==> exorder == old(exorder)
    {
      OpdLast(o);
      ghost var c := SrcOpd(o);
      assert r in OpdIds(o);
      LastApart(pre, c, done + post);
      var k;
      k, op := Lookup(r, pre + c[..|c| - 1], c[|c| - 1].op, done + post);
      if op.OcNeg? || op.OcForcenum? {
        Overwrite(r, OcPassthru(op.ref), pre + c[..|c| - 1], op, done + post);
        UnderUnary(o, pre, Triple(r, OcPassthru(op.ref)), done, post);
      }
    }

    /** Make the leading unary operators of an operand transparent; `base` is what is under them. */
    method PassThru(r0: Id, ghost o: Opd, ghost pre: seq<Triple>, ghost post: seq<Triple>) returns (base: Op)
      requires exorder == pre + SrcOpd(o) + post && WfOpd(o) && r0 == o.id && OpdOutside(pre, o)
      modifies this`exorder
      ensures exorder == pre + PassOpd(o) + post
      ensures base == OpdOp(Base(o))
    {
      var r := r0;
      ghost var cur, done := o, [];
      assert done + post == post;
      while true
        invariant exorder == pre + SrcOpd(cur) + (done + post) && PassOpd(o) == PassOpd(cur) + done
        invariant WfOpd(cur) && r == cur.id && OpdOutside(pre, cur) && Base(cur) == Base(o)
        decreases cur
      {
        base := PassOne(r, cur, pre, done, post);
        if base.OcNeg? || base.OcForcenum? {
          done := [Triple(r, OcPassthru(base.ref))] + done;
          r, cur := base.ref, cur.o;
        } else {
          Regroup(pre, PassOpd(cur), done, post);
          return;
        }
      }
    }

    /** Overwrite the triple at `k` and the one after it. */
    method OverwritePair(k: nat, x: Op, y: Op, ghost pre: seq<Triple>, ghost body: seq<Triple>, ghost a: Triple,
                         ghost b: Triple, ghost post: seq<Triple>)
      requires exorder == pre + body + ([a, b] + post) && k == |pre| + |body|
      modifies this`exorder
      ensures exorder == pre + body + ([Triple(a.id, x), Triple(b.id, y)] + post)
    {
      Regroup(pre, body, [a, b], post);
      Replace2(pre + body, a, b, post, Triple(a.id, x), Triple(b.id, y));
      exorder := exorder[k := Triple(exorder[k].id, x)];
      exorder := exorder[k + 1 := Triple(exorder[k + 1].id, y)];
      Regroup(pre, body, [Triple(a.id, x), Triple(b.id, y)], post);
    }

    /** What keeps operand `r` of a coercion: a copy as an mval if its base makes none, else a STOTEMP if needed. */
    method ChooseKeep(r: Id, base: Op, ghost o: Opd, ghost pre: seq<Triple>, ghost tail: seq<Triple>) returns (keep: Op)
      requires exorder == pre + PassOpd(o) + tail && WfOpd(o) && r == o.id && OpdOutside(pre, o)
      requires base == OpdOp(Base(o))
      ensures keep == KeepCobool(o, dynamicLiterals)
    {
      PassLast(o);
      assert r in OpdIds(o);
      FindOpd(pre, PassOpd(o), tail, r);
      keep := KeepOp(exorder[Pos(exorder, r)].op, r, dynamicLiterals);
      BaseOp(o);
      if base.OcEval? && base.mint {
        keep := OcComval(r);
      }
    }

    /** The coercion at `k` and the jump after it go to the new ladder; in the old chain a triple that
        keeps the operand, if needed, stands in their place. `ref0` numbers the copied coercion. */
    method SubvertCobool(k: nat, ref0: Id, ghost o: Opd, ghost n: Id, ghost cond: Cond, ghost addr: Target,
                         ghost id: Id, ghost pre: seq<Triple>, ghost post: seq<Triple>)
      requires exorder == pre + SrcOpd(o) + ([Triple(id, OcCobool(o.id)), Jump(n, cond, addr)] + post)
      requires k == |pre| + |SrcOpd(o)| && WfOpd(o) && OpdOutside(pre, o)
      modifies this
      ensures exorder == pre + PassOpd(o) + ([Triple(id, KeepCobool(o, dynamicLiterals)), Triple(n, OcNoop)] + post)
      ensures boolchain == old(boolchain) +
        [Triple(ref0, OcCobool(CoboolRef(o, id, dynamicLiterals))), Jump(old(nextId), cond, addr)]
      ensures nextId == old(nextId) + 1 && track == old(track) && dynamicLiterals == old(dynamicLiterals)
    {
      ghost var tail := [Triple(id, OcCobool(o.id)), Jump(n, cond, addr)] + post;
      assert exorder[k] == tail[0] && exorder[k + 1] == tail[1];
      var tb, r, t1 := exorder[k].id, exorder[k].op.ref, exorder[k + 1];
      var base := PassThru(r, o, pre, tail);
      PassLength(o);
      var keep := ChooseKeep(r, base, o, pre, tail);
      boolchain := boolchain + [Triple(ref0, OcCobool(if keep == OcNoop then r else tb))];
      var tj := nextId;
      nextId := nextId + 1;
      OverwritePair(k, keep, OcNoop, pre, PassOpd(o), tail[0], tail[1], post);
      boolchain := boolchain + [Triple(tj, t1.op)];
    }

    /** The same for a comparison at `k`: its place keeps the left operand, its jump's the right. */
    method SubvertCmp(k: nat, ref0: Id, ghost l: Opd, ghost r: Opd, ghost c: Cmp, ghost n: Id, ghost cond: Cond,
                      ghost addr: Target, ghost id: Id, ghost pre: seq<Triple>, ghost post: seq<Triple>)
      requires exorder == pre + (SrcOpd(l) + SrcOpd(r)) +
        ([Triple(id, OcCmp(c, l.id, r.id)), Jump(n, cond, addr)] + post)
      requires k == |pre| + |SrcOpd(l) + SrcOpd(r)|
      requires WfOpd(l) && WfOpd(r) && OpdIds(l) !! OpdIds(r) && OpdOutside(pre, l) && OpdOutside(pre, r)
      modifies this
      ensures exorder == pre + (SrcOpd(l) + SrcOpd(r)) +
        ([Triple(id, Keep(l, dynamicLiterals)), Triple(n, Keep(r, dynamicLiterals))] + post)
      ensures boolchain == old(boolchain) +
        [Triple(ref0, OcCmp(c, KeptRef(l, id, dynamicLiterals), KeptRef(r, n, dynamicLiterals))),
         Jump(old(nextId), cond, addr)]
      ensures nextId == old(nextId) + 1 && track == old(track) && dynamicLiterals == old(dynamicLiterals)
    {
      ghost var body, tail := SrcOpd(l) + SrcOpd(r), [Triple(id, OcCmp(c, l.id, r.id)), Jump(n, cond, addr)] + post;
      assert exorder[k] == tail[0] && exorder[k + 1] == tail[1];
      RelOperands(l, r, pre, tail, dynamicLiterals);
      var tb, t1 := exorder[k], exorder[k + 1];
      var keep0 := KeepOp(exorder[Pos(exorder, tb.op.left)].op, tb.op.left, dynamicLiterals);
      var keep1 := KeepOp(exorder[Pos(exorder, tb.op.right)].op, tb.op.right, dynamicLiterals);
      var tj := nextId;
      nextId := nextId + 1;
      var left := if keep0 == OcNoop then tb.op.left else tb.id;
      var right := if keep1 == OcNoop then tb.op.right else t1.id;
      boolchain := boolchain + [Triple(ref0, OcCmp(tb.op.cmp, left, right)), Triple(tj, t1.op)];
      OverwritePair(k, keep0, keep1, pre, body, tb, t1, post);
    }

    /** A jump on $TEST at `k` becomes the reading of it, and a coercion and a jump in the new ladder. */
    method SubvertTest(k: nat, ref0: Id, ghost g: Id, ghost id: Id, ghost sense: bool, ghost addr: Target,
                       ghost pre: seq<Triple>, ghost post: seq<Triple>)
      requires exorder == pre + [Triple(g, OcNoop), Jump(id, if sense then JmpTset else JmpTclr, addr)] + post
      requires k == |pre| + 1
      modifies this
      ensures exorder == pre + [Triple(g, OcNoop), Triple(id, OcGettruth)] + post
      ensures boolchain == old(boolchain) +
        [Triple(old(nextId), OcCobool(id)), Jump(ref0, if sense then JmpNeq else JmpEqu, addr)]
      ensures nextId == old(nextId) + 1 && track == old(track) && dynamicLiterals == old(dynamicLiterals)
    {
      assert exorder[k] == Jump(id, if sense then JmpTset else JmpTclr, addr);
      var tb := exorder[k];
      var tj := Triple(ref0, OcJmp(if tb.op.cond == JmpTclr then JmpEqu else JmpNeq, tb.op.target));
      boolchain := boolchain + [Triple(nextId, OcCobool(tb.id)), tj];
      nextId := nextId + 1;
      exorder := exorder[k := Triple(tb.id, OcGettruth)];
    }

    /** Walk back over no-ops from triple `t`. */
    method Fish(t: Id, ghost pre: seq<Triple>, ghost c: seq<Triple>, ghost post: seq<Triple>) returns (k: nat)
      requires exorder == pre + c + post && c != [] && c[|c| - 1].id == t && Absent(c[..|c| - 1], t) && Absent(pre, t)
      requires exists j :: 0 <= j < |c| && c[j].op != OcNoop
      ensures |pre| <= k < |pre| + |c| && exorder[k] == c[k - |pre|] && c[k - |pre|].op != OcNoop
      ensures Pos(exorder, t) < |exorder| && forall j :: k - |pre| < j < |c| ==> c[j].op == OcNoop
    {
      FindOpd(pre, c, post, t);
      k := Pos(exorder, t);
      ghost var j0 :| 0 <= j0 < |c| && c[j0].op != OcNoop;
      while exorder[k].op == OcNoop
        invariant |pre| + j0 <= k < |pre| + |c|
        invariant forall j :: k - |pre| < j < |c| ==> c[j].op == OcNoop
        decreases k
      {
        assert exorder[k] == c[k - |pre|];
        k := k - 1;
      }
    }

    /** Fish for the leaf's test: the operand's own triple, or what is found walking back from it over
        no-ops and past a conditional jump. */
    method FindTest(t: Id, ghost sense: bool, ghost addr: Target, ghost e: Expr, ghost n: Id,
                    ghost pre: seq<Triple>, ghost post: seq<Triple>) returns (k: nat)
      requires t == e.id && Wf(e) && AllAbsent(pre, e) && AllBelow(e, n)
      requires exorder == pre + Tail(e, sense, addr, n, dynamicLiterals) + post
      ensures k < |exorder|
      ensures if Core(e).Bin? then Inert(exorder[k].op) else !Core(e).Com? && k == |pre| + TestAt(Core(e))
    {
      OperandPlace(e, sense, addr, n, dynamicLiterals, pre, post);
      UncomplementedTree(e);
      k := Pos(exorder, t);
      if exorder[k].op == OcNoop {
        BackReady(e, sense, addr, n, dynamicLiterals, pre, post);
        k := FishBack(t, pre, Tail(e, sense, addr, n, dynamicLiterals), post, Core(e).Bin?, |pre| + Spot(e));
      }
    }

    /** Walk back over no-ops, and past a conditional jump. */
    method FishBack(t: Id, ghost pre: seq<Triple>, ghost c: seq<Triple>, ghost post: seq<Triple>, ghost bin: bool,
                    ghost at: nat)
      returns (k: nat)
      requires exorder == pre + c + post && c != [] && c[|c| - 1].id == t && Absent(c[..|c| - 1], t) && Absent(pre, t)
      requires exists j :: 0 <= j < |c| && c[j].op != OcNoop
      requires forall j: nat :: Fished(c, pre, j) ==> LeadsTo(exorder, bin, at, j)
      ensures k < |exorder| && (if bin then Inert(exorder[k].op) else k == at)
    {
      k := Fish(t, pre, c, post);
      assert Fished(c, pre, k);
      k := PastJump(k, t);
    }

    /** Back past a jump at `k0` that tests no truth; if a no-op stands there, forward from triple `t` over no-ops. */
    method PastJump(k0: nat, t: Id) returns (k: nat)
      requires k0 < |exorder| && Pos(exorder, t) < |exorder| && (Untested(exorder[k0].op) ==> k0 > 0)
      ensures k < |exorder| && (!Untested(exorder[k0].op) ==> k == k0)
      ensures Untested(exorder[k0].op) && exorder[k0 - 1].op != OcNoop ==> k == k0 - 1
      ensures Untested(exorder[k0].op) && exorder[k0 - 1].op == OcNoop ==>
        && Pos(exorder, t) <= k && (forall j :: Pos(exorder, t) <= j < k ==> exorder[j].op == OcNoop)
        && (exorder[k].op != OcNoop || k == |exorder| - 1)
    {
      k := k0;
      if Untested(exorder[k].op) {
        k := k - 1;
        if exorder[k].op == OcNoop {
          k := Pos(exorder, t);
          while exorder[k].op == OcNoop && k < |exorder| - 1
            invariant Pos(exorder, t) <= k < |exorder| && forall j :: Pos(exorder, t) <= j < k ==>
              exorder[j].op == OcNoop
          {
            k := k + 1;
          }
        }
      }
    }

    /** Move the test of leaf `x`, found at `k`, to the new ladder. */
    method MoveLeaf(k: nat, ref0: Id, ghost x: Expr, ghost sense: bool, ghost addr: Target, ghost n: Id,
                    ghost pre: seq<Triple>, ghost post: seq<Triple>)
      requires !x.Com? && !x.Bin? && Wf(x) && AllAbsent(pre, x) && k == |pre| + TestAt(x)
      requires exorder == pre + Ladder(x, sense, addr, n) + post && ref0 == n + Jumps(x) && nextId == ref0 + 1
      modifies this
      ensures exorder == pre + Kept(x, n, dynamicLiterals) + post
      ensures boolchain == old(boolchain) + LeafLadder(x, sense, addr, n, dynamicLiterals)
      ensures nextId == n + Used(x) && track == old(track) && dynamicLiterals == old(dynamicLiterals)
    {
      LeafLadderEnd(x, sense, addr, n);
      assert exorder[k] == Ladder(x, sense, addr, n)[TestAt(x)];
      if exorder[k].op.OcCobool? {
        MoveCobool(k, ref0, x, sense, addr, n, pre, post);
      } else if exorder[k].op.OcCmp? {
        MoveCmp(k, ref0, x, sense, addr, n, pre, post);
      } else {
        SubvertTest(k, ref0, x.gid, x.id, sense, addr, pre, post);
      }
    }

    method MoveCobool(k: nat, ref0: Id, ghost x: Expr, ghost sense: bool, ghost addr: Target, ghost n: Id,
                      ghost pre: seq<Triple>, ghost post: seq<Triple>)
      requires x.Cobool? && Wf(x) && AllAbsent(pre, x) && k == |pre| + |SrcOpd(x.o)|
      requires exorder == pre + Ladder(x, sense, addr, n) + post && ref0 == n + 1 && nextId == n + 2
      modifies this
      ensures exorder == pre + Kept(x, n, dynamicLiterals) + post
      ensures boolchain == old(boolchain) + LeafLadder(x, sense, addr, n, dynamicLiterals)
      ensures nextId == n + 3 && track == old(track) && dynamicLiterals == old(dynamicLiterals)
    {
      ghost var cond := if sense then JmpNeq else JmpEqu;
      assert OpdIds(x.o) <= ExprIds(x);
      Regroup(pre, SrcOpd(x.o), [Triple(x.id, OcCobool(x.o.id)), Jump(n, cond, addr)], post);
      SubvertCobool(k, ref0, x.o, n, cond, addr, x.id, pre, post);
      Regroup(pre, PassOpd(x.o), [Triple(x.id, KeepCobool(x.o, dynamicLiterals)), Triple(n, OcNoop)], post);
    }

    method MoveCmp(k: nat, ref0: Id, ghost x: Expr, ghost sense: bool, ghost addr: Target, ghost n: Id,
                   ghost pre: seq<Triple>, ghost post: seq<Triple>)
      requires x.Rel? && Wf(x) && AllAbsent(pre, x) && k == |pre| + |SrcOpd(x.l) + SrcOpd(x.r)|
      requires exorder == pre + Ladder(x, sense, addr, n) + post && ref0 == n + 1 && nextId == n + 2
      modifies this
      ensures exorder == pre + Kept(x, n, dynamicLiterals) + post
      ensures boolchain == old(boolchain) + LeafLadder(x, sense, addr, n, dynamicLiterals)
      ensures nextId == n + 3 && track == old(track) && dynamicLiterals == old(dynamicLiterals)
    {
      ghost var body, c, cond := SrcOpd(x.l) + SrcOpd(x.r), CmpOf(x.rel), JumpOf(x.rel, sense != x.negated);
      assert OpdIds(x.l) <= ExprIds(x) && OpdIds(x.r) <= ExprIds(x);
      Regroup(pre, body, [Triple(x.id, OcCmp(c, x.l.id, x.r.id)), Jump(n, cond, addr)], post);
      SubvertCmp(k, ref0, x.l, x.r, c, n, cond, addr, x.id, pre, post);
      Regroup(pre, body, [Triple(x.id, Keep(x.l, dynamicLiterals)), Triple(n, Keep(x.r, dynamicLiterals))], post);
    }

    /** What bx_boolop does with one operand: bx_tail, then find the leaf's test and move it, with its
        jump, to the new ladder. An operand that is itself an operator has already been moved. */
    method FullOperand(t: Id, sense: bool, addr: Target, ghost e: Expr, ghost pre: seq<Triple>, ghost post: seq<Triple>)
      requires t == e.id && Wf(e) && exorder == pre + Src(e) + post && AllAbsent(pre, e) && AllBelow(e, nextId)
      modifies this
      ensures exorder == pre + Kept(e, old(nextId), dynamicLiterals) + post
      ensures boolchain == old(boolchain) + NewLadder(e, sense, addr, old(nextId), dynamicLiterals)
      ensures nextId == old(nextId) + Used(e) && dynamicLiterals == old(dynamicLiterals)
      ensures TrackStep(old(track), track, e, old(nextId))
      decreases e, 3
    {
      ghost var n := nextId;
      BxTailFull(t, sense, addr, e, pre, post);
      ghost var b := boolchain;
      MoveTest(t, sense, addr, e, n, pre, post);
      assert boolchain == old(boolchain) + NewLadder(e, sense, addr, n, dynamicLiterals) by {
        assert old(boolchain) + [] == old(boolchain);
      }
    }

    /** The second half: from what bx_tail left of the operand to what is kept of it. */
    method MoveTest(t: Id, ghost sense: bool, ghost addr: Target, ghost e: Expr, ghost n: Id,
                    ghost pre: seq<Triple>, ghost post: seq<Triple>)
      requires t == e.id && Wf(e) && AllAbsent(pre, e) && AllBelow(e, n)
      requires exorder == pre + Tail(e, sense, addr, n, dynamicLiterals) + post
      requires nextId == n + if Core(e).Bin? then Span(e) else Jumps(e)
      modifies this
      ensures exorder == pre + Kept(e, n, dynamicLiterals) + post
      ensures boolchain == old(boolchain) + if Core(e).Bin? then [] else NewLadder(e, sense, addr, n, dynamicLiterals)
      ensures nextId == n + Used(e) && track == old(track) && dynamicLiterals == old(dynamicLiterals)
    {
      var k := FindTest(t, sense, addr, e, n, pre, post);
      ghost var x, s := Core(e), CoreSense(e, sense);
      CoreParts(e, sense, addr, n, dynamicLiterals, pre, post);
      var op := exorder[k].op;
      var ref0 := nextId;
      nextId := nextId + 1;
      if op.OcCobool? || op.OcCmp? || op.OcJmp? {
        MoveLeaf(k, ref0, x, s, addr, n, pre, Pads(e) + post);
      }
    }

    /** bx_tail when side effects must not be skipped. */
    method BxTailFull(t: Id, sense: bool, addr: Target, ghost e: Expr, ghost pre: seq<Triple>, ghost post: seq<Triple>)
      requires t == e.id && Wf(e) && exorder == pre + Src(e) + post && AllAbsent(pre, e) && AllBelow(e, nextId)
      modifies this
      ensures dynamicLiterals == old(dynamicLiterals)
      ensures exorder == pre + Tail(e, sense, addr, old(nextId), dynamicLiterals) + post
      ensures nextId == old(nextId) + if Core(e).Bin? then Span(e) else Jumps(e)
      ensures boolchain == old(boolchain) + Moved(e, sense, addr, old(nextId), dynamicLiterals)
      ensures TrackStep(old(track), track, e, old(nextId))
      decreases e, 2
    {
      ghost var body, last := Src(e)[..|Src(e)| - 1], Src(e)[|Src(e)| - 1];
      LastAbsent(e, pre, post);
      ghost var n, dyn := nextId, dynamicLiterals;
      var k, op := Lookup(t, pre + body, last.op, post);
      if op.OcCom? {
        BxComFull(t, op.e, sense, addr, e, pre, last, post);
      } else if op.OcBin? {
        BxBoolopFull(t, op.e0, op.e1, op.disjunction, sense != op.negated, addr, e, pre, post);
      } else {
        BxLeaf(t, sense, addr, e, pre, post);
      }
    }

    /** A complement: its operand with the other sense; its own triple comes to nothing. */
    method BxComFull(t: Id, x: Id, sense: bool, addr: Target, ghost e: Expr, ghost pre: seq<Triple>, ghost last: Triple,
                     ghost post: seq<Triple>)
      requires e.Com? && t == e.id && x == e.e.id && Wf(e) && last.id == t
      requires exorder == pre + (Src(e.e) + [last]) + post
      requires AllAbsent(pre, e) && AllBelow(e, nextId)
      modifies this
      ensures dynamicLiterals == old(dynamicLiterals)
      ensures exorder == pre + Tail(e, sense, addr, old(nextId), dynamicLiterals) + post
      ensures nextId == old(nextId) + if Core(e).Bin? then Span(e) else Jumps(e)
      ensures boolchain == old(boolchain) + Moved(e, sense, addr, old(nextId), dynamicLiterals)
      ensures TrackStep(old(track), track, e, old(nextId))
      decreases e, 1
    {
      ghost var n, dyn := nextId, dynamicLiterals;
      Regroup(pre, Src(e.e), [last], post);
      assert ExprIds(e.e) <= ExprIds(e);
      BxTailFull(x, !sense, addr, e.e, pre, [last] + post);
      ghost var c := Tail(e.e, !sense, addr, n, dyn);
      Complement(e, sense, addr, n, dyn, pre, last, post);
      Overwrite(t, OcNoop, pre + c, last.op, post);
    }

    /** The full-evaluation path of bx_boolop, up to the point where an inner operator returns. */
    method BxBoolopFull(t: Id, x: Id, y: Id, d: bool, s: bool, addr: Target,
                        ghost e: Expr, ghost pre: seq<Triple>, ghost post: seq<Triple>)
      requires e.Bin? && Wf(e) && t == e.id && x == e.e0.id && y == e.e1.id && d == e.disjunction
      requires exorder == pre + Src(e) + post && AllAbsent(pre, e) && AllBelow(e, nextId)
      modifies this
      ensures exorder == pre + Kept(e, old(nextId), dynamicLiterals) + post
      ensures boolchain == old(boolchain) + NewLadder(e, s != e.negated, addr, old(nextId), dynamicLiterals)
      ensures nextId == old(nextId) + Span(e) && dynamicLiterals == old(dynamicLiterals)
      ensures TrackStep(old(track), track, e, old(nextId))
      decreases e, 1
    {
      ghost var n, last, b0, tr := nextId, Triple(t, OcBin(d, e.negated, x, y)), boolchain, track;
      var p := if d != s then TJmp(t) else addr;
      FirstOperand(x, d, p, e, pre, last, post);
      ghost var b1, tr0 := boolchain, track;
      SecondOperand(y, s, addr, e, n, pre, last, post);
      CloseOperator(t, s, addr, e, n, b0, b1, tr, tr0, pre, last, post);
    }

    method FirstOperand(x: Id, d: bool, p: Target, ghost e: Expr, ghost pre: seq<Triple>, ghost last: Triple,
                        ghost post: seq<Triple>)
      requires e.Bin? && Wf(e) && x == e.e0.id
      requires exorder == pre + (Src(e.e0) + Src(e.e1) + [last]) + post && AllAbsent(pre, e) && AllBelow(e, nextId)
      modifies this
      ensures exorder == (pre + Kept(e.e0, old(nextId), dynamicLiterals)) + Src(e.e1) + ([last] + post)
      ensures boolchain == old(boolchain) + NewLadder(e.e0, d, p, old(nextId), dynamicLiterals)
      ensures nextId == old(nextId) + Used(e.e0) && dynamicLiterals == old(dynamicLiterals)
      ensures TrackStep(old(track), track, e.e0, old(nextId))
      decreases e, 0
    {
      assert ExprIds(e.e0) <= ExprIds(e);
      Regroup3(pre, Src(e.e0), Src(e.e1), [last], post);
      FullOperand(x, d, p, e.e0, pre, Src(e.e1) + [last] + post);
      Regroup3(pre, Kept(e.e0, old(nextId), dynamicLiterals), Src(e.e1), [last], post);
    }

    method SecondOperand(y: Id, s: bool, addr: Target, ghost e: Expr, ghost n: Id, ghost pre: seq<Triple>,
                         ghost last: Triple, ghost post: seq<Triple>)
      requires e.Bin? && Wf(e) && y == e.e1.id && AllAbsent(pre, e) && AllBelow(e, n) && nextId == n + Used(e.e0)
      requires exorder == (pre + Kept(e.e0, n, dynamicLiterals)) + Src(e.e1) + ([last] + post)
      modifies this
      ensures exorder == (pre + Kept(e.e0, n, dynamicLiterals) + Kept(e.e1, n + Used(e.e0), dynamicLiterals)) +
        [last] + post
      ensures boolchain == old(boolchain) + NewLadder(e.e1, s, addr, n + Used(e.e0), dynamicLiterals)
      ensures nextId == n + Used(e.e0) + Used(e.e1) && dynamicLiterals == old(dynamicLiterals)
      ensures TrackStep(old(track), track, e.e1, n + Used(e.e0))
      decreases e, 0
    {
      assert ExprIds(e.e1) <= ExprIds(e);
      SecondAbsentFull(e, pre, n, dynamicLiterals);
      ghost var c0 := Kept(e.e0, n, dynamicLiterals);
      FullOperand(y, s, addr, e.e1, pre + c0, [last] + post);
      Regroup(pre + c0, Kept(e.e1, n + Used(e.e0), dynamicLiterals), [last], post);
    }

    method CloseOperator(t: Id, ghost s: bool, ghost addr: Target, ghost e: Expr, ghost n: Id, ghost b0: seq<Triple>,
                         ghost b1: seq<Triple>,
                         ghost tr: map<Id, Id>, ghost tr0: map<Id, Id>, ghost pre: seq<Triple>, ghost last: Triple,
                         ghost post: seq<Triple>)
      requires e.Bin? && Wf(e) && t == e.id == last.id && AllAbsent(pre, e) && AllBelow(e, n)
      requires exorder == (pre + Kept(e.e0, n, dynamicLiterals) + Kept(e.e1, n + Used(e.e0), dynamicLiterals)) +
        [last] + post
      requires b1 == b0 +
        NewLadder(e.e0, e.disjunction, if e.disjunction != s then TJmp(e.id) else addr, n, dynamicLiterals)
      requires boolchain == b1 + NewLadder(e.e1, s, addr, n + Used(e.e0), dynamicLiterals)
      requires TrackStep(tr, tr0, e.e0, n) && TrackStep(tr0, track, e.e1, n + Used(e.e0))
      modifies this`exorder, this`track
      ensures exorder == pre + Kept(e, n, dynamicLiterals) + post
      ensures boolchain == b0 + NewLadder(e, s != e.negated, addr, n, dynamicLiterals)
      ensures TrackStep(tr, track, e, n)
    {
      NewLadderAssembled(e, s, addr, n, dynamicLiterals, b0, b1, boolchain);
      TrackOperator(tr, tr0, track, e, n);
      track := track[t := boolchain[|boolchain| - 1].id];
      SecondAbsentFull(e, pre, n, dynamicLiterals);
      Overwrite(t, OcNoop, pre + Kept(e.e0, n, dynamicLiterals) + Kept(e.e1, n + Used(e.e0), dynamicLiterals), last.op,
                post);
      KeptAssembled(e, n, dynamicLiterals, pre, post, exorder);
    }

    /** Redirect every jump of the new ladder. */
    method RedirectLadder()
      modifies this`boolchain
      ensures boolchain == RedirectAll(old(boolchain), track, old(boolchain))
    {
      var chain, k := boolchain, 0;
      while k < |boolchain|
        invariant 0 <= k <= |boolchain| == |chain|
        invariant forall j :: 0 <= j < k ==> boolchain[j] == Triple(chain[j].id, RedirectOp(chain, track, chain[j].op))
        invariant forall j :: k <= j < |chain| ==> boolchain[j] == chain[j]
      {
        boolchain := boolchain[k := Triple(chain[k].id, RedirectOp(chain, track, chain[k].op))];
        k := k + 1;
      }
    }

    /** The end of the outermost bx_boolop: add a safe target, redirect the jumps of the new ladder, and
        put it after the operator in the execution order. */
    method FinishLadder(t: Id, ghost e: Expr, ghost sense: bool, ghost addr: Target, ghost n: Id,
                        ghost pre: seq<Triple>, ghost post: seq<Triple>)
      requires e.Bin? && t == e.id && Wf(e) && AllAbsent(pre, e) && AllBelow(e, n) && nextId == n + Span(e)
      requires exorder == pre + Kept(e, n, dynamicLiterals) + post
      requires boolchain == NewLadder(e, sense, addr, n, dynamicLiterals) && Tracked(track, e, n)
      requires addr.TJmp? ==> addr.id !in track
      modifies this
      ensures exorder == pre + FullChain(e, sense, addr, n, dynamicLiterals) + post
      ensures boolchain == [] && track == map[] && dynamicLiterals == old(dynamicLiterals) && nextId == old(nextId) + 1
    {
      CloseLadder(e, sense, addr, n);
      OwnPlace(e, n, dynamicLiterals, pre, post);
      var at := Pos(exorder, t);
      exorder := exorder[..at + 1] + boolchain + exorder[at + 1..];
      FullAssembled(e, sense, addr, n, dynamicLiterals, pre, post, exorder);
      boolchain, track := [], map[];
    }

    /** The safe target is added, and the jumps of the new ladder are redirected. */
    method CloseLadder(ghost e: Expr, ghost sense: bool, ghost addr: Target, ghost n: Id)
      requires boolchain == NewLadder(e, sense, addr, n, dynamicLiterals) && Tracked(track, e, n)
      requires nextId == n + Span(e)
      requires addr.TJmp? ==> addr.id !in track
      modifies this`nextId, this`boolchain
      ensures boolchain == FinalLadder(e, sense, addr, n + Span(e), n, dynamicLiterals) + [Triple(n + Span(e), OcNoop)]
      ensures nextId == old(nextId) + 1
    {
      var safe := Triple(nextId, OcNoop);
      nextId := nextId + 1;
      boolchain := boolchain + [safe];
      RedirectLadder();
      RedirectWhole(e, sense, addr, n, dynamicLiterals, track, safe);
    }

    /** bx_boolop on an outermost operator with full evaluation. */
    method BxBoolopOutermost(t: Id, sense: bool, addr: Target, ghost e: Expr, ghost pre: seq<Triple>,
                             ghost post: seq<Triple>)
      requires e.Bin? && t == e.id && Wf(e) && exorder == pre + Src(e) + post && AllAbsent(pre, e)
      requires AllBelow(e, nextId)
      requires boolchain == [] && track == map[] && (addr.TJmp? ==> addr.id !in ExprIds(e))
      modifies this
      ensures exorder == pre + FullChain(e, sense, addr, old(nextId), dynamicLiterals) + post
      ensures boolchain == [] && track == map[] && dynamicLiterals == old(dynamicLiterals)
      ensures nextId == old(nextId) + Span(e) + 1
    {
      ghost var n := nextId;
      BxTailFull(t, sense, addr, e, pre, post);
      OperatorsIds(e);
      FinishLadder(t, e, sense, addr, n, pre, post);
    }
  }
}
