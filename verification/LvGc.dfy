/** Reference counting of local variables (alias.h, lv_killarray.c) and the mark-and-sweep collector
    laid over it (als_lvval_gc in alias_funcs.c). */
module LvGc {
  import opened Options
  import opened LocalVars

  /** References to slots held outside the variable trees: `t[v]` in all, `c[v]` of them counted as
      containers (a pending alias return value is one). */
  datatype Ext = Ext(t: seq<nat>, c: seq<nat>)

  /** The counts of slot `i` are exact: references from outside, from the trees of the heap, and
      from `pend`, a tree standing for the containers detached from the heap but not yet released.
      A slot on the free list has no tree and is referred to by nobody. */
  ghost predicate SlotExact(s: seq<LvVal>, ext: Ext, pend: Tree, i: LvId)
    requires |ext.t| == |ext.c| == |s| && i < |s|
  {
    && ext.c[i] <= ext.t[i]
    && (if s[i].Live() then
          && s[i].trefcnt == ext.t[i] + HeapRefs(s, i) + Refs(pend, i)
          && s[i].crefcnt == ext.c[i] + HeapRefs(s, i) + Refs(pend, i)
        else
          s[i].tree == Leaf && ext.t[i] == HeapRefs(s, i) == Refs(pend, i) == 0)
  }

  ghost predicate Exact(s: seq<LvVal>, ext: Ext, pend: Tree) {
    && |ext.t| == |ext.c| == |s|
    && (forall i: LvId {:trigger SlotExact(s, ext, pend, i)} :: i < |s| ==> SlotExact(s, ext, pend, i))
    && (forall v: LvId :: v >= |s| ==> HeapRefs(s, v) == Refs(pend, v) == 0)
  }

  /** What releasing references may do to a slot: lower its counts, or free it; a slot that reaches
      zero is freed, one that was already at zero (its release is under way) is left alone. */
  ghost predicate SlotStep(a: LvVal, b: LvVal) {
    if b.Live() then
      && a.Live()
      && b == a.(trefcnt := b.trefcnt, crefcnt := b.crefcnt)
      && b.trefcnt <= a.trefcnt
      && (b.trefcnt == 0 ==> a.trefcnt == 0)
    else
      if a.Live() then a.trefcnt > 0 && b.tree == Leaf && b.taskCycle == a.taskCycle else b == a
  }

  ghost predicate Step(s: seq<LvVal>, s': seq<LvVal>) {
    && |s| == |s'|
    && (forall i {:trigger SlotStep(s[i], s'[i])} :: 0 <= i < |s| ==> SlotStep(s[i], s'[i]))
    && HeapSize(s') <= HeapSize(s)
  }

  /** The free list holds exactly the free slots, each once. */
  ghost predicate FreeListExact(s: seq<LvVal>, flist: seq<LvId>) {
    && (forall i: LvId :: i in flist <==> i < |s| && !s[i].Live())
    && (forall j, k :: 0 <= j < k < |flist| ==> flist[j] != flist[k])
  }

  /** Every slot of `keep` is held from outside or by a container of another slot of `keep`. */
  ghost predicate Shielded(s: seq<LvVal>, ext: Ext, keep: set<LvId>)
    requires |ext.t| == |s|
  {
    && (forall v :: v in keep ==> v < |s| && s[v].Live())
    && forall v {:trigger Held(s, ext, keep, v)} :: v in keep ==> Held(s, ext, keep, v)
  }

  ghost predicate Held(s: seq<LvVal>, ext: Ext, keep: set<LvId>, v: LvId)
    requires v < |ext.t|
  {
    ext.t[v] > 0 || exists u :: u in keep && u < |s| && Refs(s[u].tree, v) > 0
  }

  /** One more outside reference to `w`. */
  ghost function Bump(ext: Ext, w: LvId): Ext
    requires w < |ext.t|
  {
    ext.(t := ext.t[w := ext.t[w] + 1])
  }

  /** Two pending trees with the same references are interchangeable. */
  lemma ExactPend(s: seq<LvVal>, ext: Ext, p: Tree, q: Tree)
    requires Exact(s, ext, p)
    requires forall v: LvId :: Refs(p, v) == Refs(q, v)
    ensures Exact(s, ext, q)
  {
    forall i: LvId | i < |s| ensures SlotExact(s, ext, q, i) {
      assert SlotExact(s, ext, p, i);
    }
  }

  /** Changing only the counts of one slot leaves every reference in place. */
  lemma SameTreeSameRefs(s: seq<LvVal>, w: LvId, x: LvVal)
    requires w < |s| && x.tree == s[w].tree
    ensures forall v: LvId :: HeapRefs(s[w := x], v) == HeapRefs(s, v)
    ensures HeapSize(s[w := x]) == HeapSize(s)
  {
    forall v: LvId ensures HeapRefs(s[w := x], v) == HeapRefs(s, v) {
      HeapRefsUpdate(s, w, x, v);
    }
    HeapSizeUpdate(s, w, x);
  }

  /** Dropping the outside reference to `w` keeps the counts exact. */
  lemma DropExact(s: seq<LvVal>, ext: Ext, pend: Tree, w: LvId)
    requires w < |ext.t| && Exact(s, Bump(ext, w), pend) && ext.c[w] <= ext.t[w]
    ensures s[w].Live() && s[w].trefcnt > 0
    ensures Exact(s[w := s[w].(trefcnt := s[w].trefcnt - 1)], ext, pend)
  {
    assert SlotExact(s, Bump(ext, w), pend, w);
    var s' := s[w := s[w].(trefcnt := s[w].trefcnt - 1)];
    SameTreeSameRefs(s, w, s'[w]);
    forall i: LvId | i < |s| ensures SlotExact(s', ext, pend, i) {
      assert SlotExact(s, Bump(ext, w), pend, i);
    }
  }

  /** Releasing a pending container: its target trades one container count for one outside
      reference, which DECR_BASE_REF_NOSYM then drops. */
  lemma ReleaseExact(s: seq<LvVal>, ext: Ext, pend: Tree, w: LvId)
    requires Exact(s, ext, Node(pend, Leaf, 0, Some(w), Leaf))
    ensures w < |s| && s[w].Live() && s[w].crefcnt > 0 && s[w].trefcnt >= s[w].crefcnt
    ensures Exact(s[w := s[w].(crefcnt := s[w].crefcnt - 1)], Bump(ext, w), pend)
    ensures ext.c[w] <= ext.t[w]
  {
    var p := Node(pend, Leaf, 0, Some(w), Leaf);
    assert Refs(p, w) > 0;
    assert SlotExact(s, ext, p, w);
    var s' := s[w := s[w].(crefcnt := s[w].crefcnt - 1)];
    SameTreeSameRefs(s, w, s'[w]);
    forall i: LvId | i < |s| ensures SlotExact(s', Bump(ext, w), pend, i) {
      assert SlotExact(s, ext, p, i);
      assert HeapRefs(s', i) == HeapRefs(s, i) && Refs(p, i) == Refs(pend, i) + if i == w then 1 else 0;
    }
    forall v: LvId | v >= |s'| ensures HeapRefs(s', v) == Refs(pend, v) == 0 {
      assert HeapRefs(s, v) == Refs(p, v) == 0;
    }
  }

  ghost function Both(p: Tree, t: Tree): Tree { Node(p, Leaf, 0, None, t) }

  /** Detaching a tree turns its references into pending ones. */
  lemma DetachExact(s: seq<LvVal>, ext: Ext, pend: Tree, w: LvId)
    requires w < |s| && Exact(s, ext, pend)
    ensures Exact(s[w := s[w].(tree := Leaf)], ext, Both(pend, s[w].tree))
    ensures HeapSize(s[w := s[w].(tree := Leaf)]) == HeapSize(s) - Size(s[w].tree)
  {
    var x := s[w].(tree := Leaf);
    var s', p' := s[w := x], Both(pend, s[w].tree);
    HeapSizeUpdate(s, w, x);
    forall i: LvId | i < |s| ensures SlotExact(s', ext, p', i) {
      HeapRefsUpdate(s, w, x, i);
      assert SlotExact(s, ext, pend, i);
    }
    forall v: LvId | v >= |s'| ensures HeapRefs(s', v) == Refs(p', v) == 0 {
      HeapRefsUpdate(s, w, x, v);
    }
  }

  /** A slot whose total count is zero may go to the free list. */
  lemma FreeExact(s: seq<LvVal>, ext: Ext, pend: Tree, w: LvId)
    requires w < |s| && Exact(s, ext, pend)
    requires s[w].Live() && s[w].trefcnt == 0 && s[w].tree == Leaf
    ensures Exact(s[w := s[w].(sym := None, value := 0)], ext, pend)
    ensures HeapSize(s[w := s[w].(sym := None, value := 0)]) == HeapSize(s)
  {
    var s' := s[w := s[w].(sym := None, value := 0)];
    SameTreeSameRefs(s, w, s'[w]);
    forall i: LvId | i < |s| ensures SlotExact(s', ext, pend, i) {
      assert SlotExact(s, ext, pend, i);
    }
  }

  /** A slot at zero is not shielded. */
  lemma ZeroNotShielded(s: seq<LvVal>, ext: Ext, pend: Tree, keep: set<LvId>, w: LvId)
    requires w < |s| && Exact(s, ext, pend) && Shielded(s, ext, keep)
    requires s[w].Live() && s[w].trefcnt == 0
    ensures w !in keep
  {
    assert SlotExact(s, ext, pend, w);
    if w in keep {
      assert Held(s, ext, keep, w);
      var u :| u in keep && u < |s| && Refs(s[u].tree, w) > 0;
      HeapRefsAtLeast(s, u, w);
    }
  }

  lemma StepTrans(a: seq<LvVal>, b: seq<LvVal>, c: seq<LvVal>)
    requires Step(a, b) && Step(b, c)
    ensures Step(a, c)
  {
    forall i | 0 <= i < |a| ensures SlotStep(a[i], c[i]) {
      assert SlotStep(a[i], b[i]) && SlotStep(b[i], c[i]);
    }
  }

  /** What survives a step with its tree stays shielded. */
  lemma ShieldedStep(s: seq<LvVal>, s': seq<LvVal>, ext: Ext, keep: set<LvId>)
    requires |ext.t| == |s| && Step(s, s') && Shielded(s, ext, keep)
    requires forall v :: v in keep ==> v < |s'| && s'[v].Live()
    ensures Shielded(s', ext, keep)
  {
    forall v | v in keep ensures s'[v].tree == s[v].tree {
      assert SlotStep(s[v], s'[v]);
    }
    TreesShielded(s, s', ext, ext, keep);
  }

  /** Only the trees of the slots kept matter, and that no outside reference to them goes. */
  lemma TreesShielded(s: seq<LvVal>, s': seq<LvVal>, ext: Ext, ext': Ext, keep: set<LvId>)
    requires |ext.t| == |s| == |s'| == |ext'.t| && Shielded(s, ext, keep)
    requires forall v :: v in keep ==> s'[v].tree == s[v].tree && s'[v].Live() && ext'.t[v] >= ext.t[v]
    ensures Shielded(s', ext', keep)
  {
    forall v | v in keep ensures Held(s', ext', keep, v) {
      assert Held(s, ext, keep, v);
      if ext.t[v] <= 0 {
        var u :| u in keep && u < |s| && Refs(s[u].tree, v) > 0;
        assert Refs(s'[u].tree, v) > 0;
      }
    }
  }

  /** Raising a count makes room for one more outside reference. */
  lemma BumpExact(s: seq<LvVal>, ext: Ext, w: LvId)
    requires w < |s| && Exact(s, ext, Leaf) && s[w].Live()
    ensures Exact(s[w := s[w].(trefcnt := s[w].trefcnt + 1)], Bump(ext, w), Leaf)
  {
    var s' := s[w := s[w].(trefcnt := s[w].trefcnt + 1)];
    SameTreeSameRefs(s, w, s'[w]);
    forall i: LvId | i < |s| ensures SlotExact(s', Bump(ext, w), Leaf, i) {
      assert SlotExact(s, ext, Leaf, i);
    }
  }

  lemma FreeListPush(s: seq<LvVal>, s': seq<LvVal>, flist: seq<LvId>, w: LvId)
    requires w < |s| == |s'| && s[w].Live() && FreeListExact(s, flist)
    requires !s'[w].Live() && forall i :: 0 <= i < |s| && i != w ==> s'[i] == s[i]
    ensures FreeListExact(s', [w] + flist)
  {
  }

  // ---- Marking ---------------------------------------------------------------------------------


  /** An mv_stent of the M stack, as far as the collector looks at it. */
  datatype MvStent =
    | Ntab(save: LvId)
    | Pval(saved: Option<LvId>, val: LvId)
    | Nval(save: LvId, val: LvId)
    | Lval(save: LvId)
    | Stab
    | OtherStent

  datatype TpVar = TpVar(current: LvId, saved: LvId)
  datatype TpFrame = TpFrame(sym: nat, vars: seq<TpVar>)

  /** Everything outside the trees that leads to a variable. */
  datatype Roots = Roots(
    htab: seq<Option<LvId>>,
    mvChain: seq<MvStent>,
    tpStack: seq<TpFrame>,
    aliasRetarg: Option<LvId>)

  ghost function Opt(o: Option<LvId>): set<LvId> {
    if o.Some? then {o.value} else {}
  }

  ghost function TableRoots(htab: seq<Option<LvId>>): set<LvId> {
    if htab == [] then {} else TableRoots(htab[..|htab| - 1]) + Opt(htab[|htab| - 1])
  }

  ghost function StentRoots(m: MvStent): set<LvId> {
    match m
    case Ntab(v) => {v}
    case Pval(o, v) => {v} + Opt(o)
    case Nval(v, w) => {v, w}
    case Lval(v) => {v}
    case Stab => {}
    case OtherStent => {}
  }

  /** The stack counts down to the entry that saved the previous symbol table. */
  ghost function StackRoots(chain: seq<MvStent>): set<LvId> {
    if chain == [] || chain[0] == Stab then {} else StentRoots(chain[0]) + StackRoots(chain[1..])
  }

  ghost function VarRoots(vars: seq<TpVar>): set<LvId> {
    if vars == [] then {} else {vars[0].current, vars[0].saved} + VarRoots(vars[1..])
  }

  /** Transaction frames count as long as they belong to symbol table `me`. */
  ghost function TpRoots(stack: seq<TpFrame>, me: nat): set<LvId> {
    if stack == [] || stack[0].sym != me then {} else VarRoots(stack[0].vars) + TpRoots(stack[1..], me)
  }

  ghost function AllRoots(r: Roots, me: nat): set<LvId> {
    TableRoots(r.htab) + StackRoots(r.mvChain) + TpRoots(r.tpStack, me) + Opt(r.aliasRetarg)
  }

  lemma {:induction false} TableByIndex(htab: seq<Option<LvId>>, v: LvId)
    ensures v in TableRoots(htab) <==> exists n :: 0 <= n < |htab| && htab[n] == Some(v)
  {
    if htab != [] {
      var front := htab[..|htab| - 1];
      TableByIndex(front, v);
      assert forall n :: 0 <= n < |front| ==> htab[n] == front[n];
      assert v in Opt(htab[|htab| - 1]) <==> htab[|htab| - 1] == Some(v);
    }
  }

  /** Entry `n` holds `v`, and no entry up to it saved a symbol table. */
  ghost predicate OnStack(chain: seq<MvStent>, v: LvId, n: int)
    requires 0 <= n < |chain|
  {
    Stab !in chain[..n + 1] && var e := chain[n];
    || e == Ntab(v) || e == Lval(v)
    || (e.Nval? && (e.save == v || e.val == v))
    || (e.Pval? && (e.val == v || e.saved == Some(v)))
  }

  lemma {:induction false} StackByIndex(chain: seq<MvStent>, v: LvId)
    ensures v in StackRoots(chain) <==> exists n :: 0 <= n < |chain| && OnStack(chain, v, n)
  {
    if chain != [] {
      var rest := chain[1..];
      StackByIndex(rest, v);
      assert chain[..1] == [chain[0]];
      assert v in StentRoots(chain[0]) && chain[0] != Stab <==> OnStack(chain, v, 0);
      forall n | 0 < n < |chain| ensures OnStack(chain, v, n) <==> chain[0] != Stab && OnStack(rest, v, n - 1) {
        assert chain[..n + 1] == [chain[0]] + rest[..n];
      }
      if n :| 0 <= n < |rest| && OnStack(rest, v, n) {
        assert chain[0] != Stab ==> OnStack(chain, v, n + 1);
      }
    }
  }

  lemma {:induction false} VarsByIndex(vars: seq<TpVar>, v: LvId)
    ensures v in VarRoots(vars) <==> exists k :: 0 <= k < |vars| && (vars[k].current == v || vars[k].saved == v)
  {
    if vars != [] {
      var rest := vars[1..];
      VarsByIndex(rest, v);
      assert forall k :: 0 <= k < |rest| ==> rest[k] == vars[k + 1];
      assert forall k :: 0 < k < |vars| ==> vars[k] == rest[k - 1];
    }
  }

  /** Frame `n` and its predecessors are of table `me`, and it has `v`. */
  ghost predicate InFrame(stack: seq<TpFrame>, me: nat, v: LvId, n: int, k: int)
    requires 0 <= n < |stack| && 0 <= k < |stack[n].vars|
  {
    && (forall m :: 0 <= m <= n ==> stack[m].sym == me)
    && (stack[n].vars[k].current == v || stack[n].vars[k].saved == v)
  }

  lemma {:induction false} TpByIndex(stack: seq<TpFrame>, me: nat, v: LvId)
    ensures v in TpRoots(stack, me) <==>
      exists n, k :: 0 <= n < |stack| && 0 <= k < |stack[n].vars| && InFrame(stack, me, v, n, k)
  {
    if stack != [] && stack[0].sym == me {
      var rest := stack[1..];
      TpByIndex(rest, me, v);
      VarsByIndex(stack[0].vars, v);
      if k :| 0 <= k < |stack[0].vars| && (stack[0].vars[k].current == v || stack[0].vars[k].saved == v) {
        assert InFrame(stack, me, v, 0, k);
      }
      if n, k :| 0 <= n < |rest| && 0 <= k < |rest[n].vars| && InFrame(rest, me, v, n, k) {
        assert InFrame(stack, me, v, n + 1, k);
      }
      if n, k :| 0 <= n < |stack| && 0 <= k < |stack[n].vars| && InFrame(stack, me, v, n, k) {
        assert n > 0 ==> InFrame(rest, me, v, n - 1, k);
      }
    }
  }

  /** The roots, by where they stand. */
  lemma RootsByIndex(roots: Roots, me: nat, rs: set<LvId>)
    requires forall v: LvId :: v in rs <==>
      || (exists n :: 0 <= n < |roots.htab| && roots.htab[n] == Some(v))
      || (exists n :: 0 <= n < |roots.mvChain| && Stab !in roots.mvChain[..n + 1] && var e := roots.mvChain[n];
              || e == Ntab(v) || e == Lval(v)
              || (e.Nval? && (e.save == v || e.val == v))
              || (e.Pval? && (e.val == v || e.saved == Some(v))))
      || (exists n, k :: 0 <= n < |roots.tpStack| && 0 <= k < |roots.tpStack[n].vars|
              && (forall m :: 0 <= m <= n ==> roots.tpStack[m].sym == me)
              && (roots.tpStack[n].vars[k].current == v || roots.tpStack[n].vars[k].saved == v))
      || roots.aliasRetarg == Some(v)
    ensures rs == AllRoots(roots, me)
  {
    forall v: LvId ensures v in rs <==> v in AllRoots(roots, me) {
      TableByIndex(roots.htab, v);
      StackByIndex(roots.mvChain, v);
      TpByIndex(roots.tpStack, me, v);
      RootByIndex(roots, me, v);
    }
  }

  /** The same with names for the places. */
  lemma RootByIndex(roots: Roots, me: nat, v: LvId)
    ensures (exists n :: 0 <= n < |roots.mvChain| && OnStack(roots.mvChain, v, n)) <==>
      (exists n :: 0 <= n < |roots.mvChain| && Stab !in roots.mvChain[..n + 1] && var e := roots.mvChain[n];
              || e == Ntab(v) || e == Lval(v)
              || (e.Nval? && (e.save == v || e.val == v))
              || (e.Pval? && (e.val == v || e.saved == Some(v))))
    ensures (exists n, k :: 0 <= n < |roots.tpStack| && 0 <= k < |roots.tpStack[n].vars| &&
                            InFrame(roots.tpStack, me, v, n, k)) <==>
      (exists n, k :: 0 <= n < |roots.tpStack| && 0 <= k < |roots.tpStack[n].vars|
              && (forall m :: 0 <= m <= n ==> roots.tpStack[m].sym == me)
              && (roots.tpStack[n].vars[k].current == v || roots.tpStack[n].vars[k].saved == v))
  {
    assert forall n :: 0 <= n < |roots.mvChain| ==> (OnStack(roots.mvChain, v, n) <==>
      (Stab !in roots.mvChain[..n + 1] && var e := roots.mvChain[n];
        || e == Ntab(v) || e == Lval(v)
        || (e.Nval? && (e.save == v || e.val == v))
        || (e.Pval? && (e.val == v || e.saved == Some(v)))));
    assert forall n, k :: 0 <= n < |roots.tpStack| && 0 <= k < |roots.tpStack[n].vars| ==>
      (InFrame(roots.tpStack, me, v, n, k) <==>
        && (forall m :: 0 <= m <= n ==> roots.tpStack[m].sym == me)
        && (roots.tpStack[n].vars[k].current == v || roots.tpStack[n].vars[k].saved == v));
  }

  /** `s'` is `s` with some live slots stamped. */
  ghost predicate Stamped(s: seq<LvVal>, s': seq<LvVal>, cycle: nat) {
    && |s'| == |s|
    && forall i :: 0 <= i < |s| ==>
         s'[i] == s[i] || (s[i].Live() && s'[i] == s[i].(taskCycle := cycle))
  }

  /** Every stamped slot outside `gray` has had all its containers followed. */
  ghost predicate Followed(s: seq<LvVal>, s': seq<LvVal>, cycle: nat, gray: set<LvId>)
    requires |s| == |s'|
  {
    forall u: LvId :: u < |s| && s'[u].taskCycle == cycle && u !in gray ==> TargetsMarked(s[u].tree, s', cycle)
  }

  /** All containers of `t` lead to stamped slots. */
  ghost predicate TargetsMarked(t: Tree, s: seq<LvVal>, cycle: nat) {
    forall v: LvId :: Refs(t, v) > 0 ==> v < |s| && s[v].taskCycle == cycle
  }

  /** Slots in `r` refer only to live slots in `r`, and the has_aliascont flag is never off on a
      variable with a container in it. */
  ghost predicate Markable(s: seq<LvVal>, r: set<LvId>) {
    && (forall v :: v in r ==> v < |s| && s[v].Live() && TargetsIn(s[v].tree, r))
    && (forall u: LvId, v: LvId :: u < |s| && s[u].Live() && !s[u].hasAliasCont ==> Refs(s[u].tree, v) == 0)
  }

  ghost function Unstamped(s: seq<LvVal>, cycle: nat): nat {
    if s == [] then 0
    else Unstamped(s[..|s| - 1], cycle) + if s[|s| - 1].taskCycle == cycle then 0 else 1
  }

  lemma {:induction false} UnstampedUpdate(s: seq<LvVal>, i: nat, x: LvVal, cycle: nat)
    requires i < |s| && s[i].taskCycle != cycle && x.taskCycle == cycle
    ensures Unstamped(s[i := x], cycle) == Unstamped(s, cycle) - 1
  {
    var last := |s| - 1;
    if i == last {
      assert s[i := x][..last] == s[..last];
    } else {
      UnstampedUpdate(s[..last], i, x, cycle);
      assert s[i := x][..last] == s[..last][i := x];
    }
  }

  /** Stamping changes neither references nor sizes. */
  lemma {:induction false} StampedRefs(s: seq<LvVal>, s': seq<LvVal>, v: LvId)
    requires |s| == |s'| && forall i :: 0 <= i < |s| ==> s'[i].tree == s[i].tree
    ensures HeapRefs(s', v) == HeapRefs(s, v)
  {
    if s != [] {
      StampedRefs(s[..|s| - 1], s'[..|s| - 1], v);
    }
  }

  lemma StampedExact(s: seq<LvVal>, s': seq<LvVal>, ext: Ext)
    requires Exact(s, ext, Leaf) && |s| == |s'|
    requires forall i :: 0 <= i < |s| ==> s'[i] == s[i].(taskCycle := s'[i].taskCycle)
    ensures Exact(s', ext, Leaf)
  {
    forall i: LvId | i < |s'| ensures SlotExact(s', ext, Leaf, i) {
      assert SlotExact(s, ext, Leaf, i);
      StampedRefs(s, s', i);
    }
    forall v: LvId | v >= |s'| ensures HeapRefs(s', v) == Refs(Leaf, v) == 0 {
      StampedRefs(s, s', v);
    }
  }

  /** The collector's view of a consistent symbol table: exact counts, every live slot counted, the
      stamps of past cycles, and the $ZSEARCH variable, which the collector never lists, free of
      containers. Outside references come only from the roots and from that variable's owner. */
  ghost predicate Consistent(s: seq<LvVal>, flist: seq<LvId>, cycle: nat, ext: Ext, roots: set<LvId>,
                             zsearch: Option<LvId>)
  {
    && Exact(s, ext, Leaf) && FreeListExact(s, flist)
    && (forall v :: v in roots ==> v < |s|)
    && cycle < CYCLE_LIMIT && (forall i :: 0 <= i < |s| ==> s[i].taskCycle <= cycle)
    && (forall i :: 0 <= i < |s| && s[i].Live() ==> s[i].trefcnt > 0)
    && (forall i: LvId :: i < |s| && ext.t[i] > 0 ==> i in roots || zsearch == Some(i))
    && (forall u: LvId, v: LvId :: u < |s| && s[u].Live() && (!s[u].hasAliasCont || zsearch == Some(u)) ==>
          Refs(s[u].tree, v) == 0)
  }

  /** What the sweep may free: live, unmarked, and not the $ZSEARCH variable. */
  ghost function Orphans(s: seq<LvVal>, marked: set<LvId>, zsearch: Option<LvId>): set<LvId> {
    set i: LvId | i < |s| && s[i].Live() && i !in marked && zsearch != Some(i)
  }

  /** What the sweep may do to a slot: free it, or lower its counts; an orphan may lose its tree
      before it is freed, no other slot may. */
  ghost predicate SweepStep(a: LvVal, b: LvVal, orphan: bool) {
    && b.taskCycle == a.taskCycle
    && (if b.Live() then
          a.Live() && b.value == a.value && (b.tree == a.tree || (b.tree == Leaf && orphan))
        else
          if a.Live() then b.tree == Leaf else b == a)
  }

  ghost predicate SweepSteps(s0: seq<LvVal>, s: seq<LvVal>, lvarray: seq<LvId>, cycle: nat) {
    && |s| == |s0|
    && forall i: LvId :: i < |s| ==> SweepStep(s0[i], s[i], i in lvarray && s0[i].taskCycle != cycle)
  }

  /** One orphan killed on top of the sweep so far. */
  lemma SweepStepsNext(s0: seq<LvVal>, s1: seq<LvVal>, s: seq<LvVal>, lvarray: seq<LvId>, cycle: nat, v: LvId)
    requires SweepSteps(s0, s1, lvarray, cycle) && |s| == |s1|
    requires v in lvarray && v < |s| && s1[v].taskCycle != cycle && s1[v].Live()
    requires forall i: LvId :: i < |s| && i != v ==> SlotStep(s1[i], s[i])
    requires s[v].tree == Leaf && s[v].taskCycle == s1[v].taskCycle && (s[v].Live() ==> s[v].value == s1[v].value)
    ensures SweepSteps(s0, s, lvarray, cycle)
    ensures forall i: LvId :: i < |s| && s1[i].tree == Leaf ==> s[i].tree == Leaf
  {
    forall i: LvId | i < |s|
      ensures SweepStep(s0[i], s[i], i in lvarray && s0[i].taskCycle != cycle)
      ensures s1[i].tree == Leaf ==> s[i].tree == Leaf
    {
      assert SweepStep(s0[i], s1[i], i in lvarray && s0[i].taskCycle != cycle);
    }
  }

  /** What killing orphan `v` did to it and to the others; `s2` is `s0` with `v` detached. */
  /** An orphan with its count raised and its tree detached. */
  lemma OrphanReady(s: seq<LvVal>, ext: Ext, keep: set<LvId>, v: LvId)
    requires v < |s| && Exact(s, ext, Leaf) && Shielded(s, ext, keep) && s[v].Live() && v !in keep
    ensures var s2 := s[v := s[v].(trefcnt := s[v].trefcnt + 1)][v := s[v].(trefcnt := s[v].trefcnt + 1, tree := Leaf)];
            && Exact(s2, Bump(ext, v), Both(Leaf, s[v].tree)) && Shielded(s2, ext, keep) &&
              Shielded(s2, Bump(ext, v), keep)
    ensures ext.c[v] <= ext.t[v]
  {
    assert SlotExact(s, ext, Leaf, v);
    var s1 := s[v := s[v].(trefcnt := s[v].trefcnt + 1)];
    BumpExact(s, ext, v);
    DetachExact(s1, Bump(ext, v), Leaf, v);
    var s2 := s1[v := s1[v].(tree := Leaf)];
    TreesShielded(s, s2, ext, ext, keep);
    TreesShielded(s, s2, ext, Bump(ext, v), keep);
  }

  /** A container count less. */
  lemma CrefDrop(s: seq<LvVal>, w: LvId, ext: Ext, keep: set<LvId>)
    requires |ext.t| == |s| && w < |s| && s[w].Live() && Shielded(s, ext, keep)
    ensures var s' := s[w := s[w].(crefcnt := s[w].crefcnt - 1)];
      Step(s, s') && HeapSize(s') == HeapSize(s) && Shielded(s', ext, keep)
  {
    var s' := s[w := s[w].(crefcnt := s[w].crefcnt - 1)];
    SameTreeSameRefs(s, w, s'[w]);
    TreesShielded(s, s', ext, ext, keep);
  }

  /** A reference less. */
  lemma TrefDrop(s: seq<LvVal>, w: LvId, ext: Ext, keep: set<LvId>)
    requires |ext.t| == |s| && w < |s| && s[w].Live() && Shielded(s, ext, keep)
    ensures var s' := s[w := s[w].(trefcnt := s[w].trefcnt - 1)];
      && (s'[w].trefcnt > 0 ==> Step(s, s')) && HeapSize(s') == HeapSize(s) && Shielded(s', ext, keep)
  {
    var s' := s[w := s[w].(trefcnt := s[w].trefcnt - 1)];
    SameTreeSameRefs(s, w, s'[w]);
    TreesShielded(s, s', ext, ext, keep);
  }

  /** The last reference to a slot goes, and the slot with it. */
  lemma FreedStep(s0: seq<LvVal>, s1: seq<LvVal>, s: seq<LvVal>, w: LvId)
    requires w < |s0| == |s1| == |s| && s0[w].Live() && s0[w].trefcnt > 0 && s1 == s0[w := s1[w]]
    requires s1[w].taskCycle == s0[w].taskCycle
    requires s[w].tree == Leaf && !s[w].Live() && s[w].taskCycle == s1[w].taskCycle
    requires (forall i :: 0 <= i < |s| && i != w ==> SlotStep(s1[i], s[i])) && HeapSize(s) <= HeapSize(s0)
    ensures Step(s0, s)
  {
    forall i | 0 <= i < |s0| ensures SlotStep(s0[i], s[i]) {
      assert i != w ==> SlotStep(s1[i], s[i]);
    }
  }

  lemma OrphanSteps(s0: seq<LvVal>, s2: seq<LvVal>, s: seq<LvVal>, v: LvId, ext: Ext)
    requires |s0| == |s2| && v < |s2| && Step(s2, s) && Exact(s, ext, Leaf)
    requires forall i :: 0 <= i < |s2| && i != v ==> s2[i] == s0[i]
    requires forall i :: 0 <= i < |s2| && s2[i].Live() ==> s2[i].trefcnt > 0
    ensures |s| == |s0| && SlotStep(s2[v], s[v]) && forall i :: 0 <= i < |s| && i != v ==> SlotStep(s0[i], s[i])
    ensures forall i :: 0 <= i < |s| && s[i].Live() ==> s[i].trefcnt > 0
  {
    assert SlotStep(s2[v], s[v]);
    forall i | 0 <= i < |s| && i != v ensures SlotStep(s0[i], s[i]) {
      assert SlotStep(s2[i], s[i]);
    }
    forall i | 0 <= i < |s| && s[i].Live() ensures s[i].trefcnt > 0 {
      assert SlotStep(s2[i], s[i]) && SlotExact(s, ext, Leaf, i);
    }
  }

  /** How many of the listed slots are not stamped with `cycle`. */
  ghost function UnmarkedIn(list: seq<LvId>, s: seq<LvVal>, cycle: nat): nat
    requires forall k :: 0 <= k < |list| ==> list[k] < |s|
  {
    if list == [] then 0
    else UnmarkedIn(list[..|list| - 1], s, cycle) + if s[list[|list| - 1]].taskCycle != cycle then 1 else 0
  }

  /** Containers of live slots lead to live slots. */
  lemma ExactTargetsLive(s: seq<LvVal>, ext: Ext, u: LvId, v: LvId)
    requires Exact(s, ext, Leaf) && u < |s| && Refs(s[u].tree, v) > 0
    ensures v < |s| && s[v].Live()
  {
    HeapRefsAtLeast(s, u, v);
    if v < |s| {
      assert SlotExact(s, ext, Leaf, v);
    }
  }

  lemma ReachMarkable(s: seq<LvVal>, ext: Ext, roots: set<LvId>)
    requires Exact(s, ext, Leaf)
    ensures forall v :: v in Reach(s, roots) ==> s[v].Live() && TargetsIn(s[v].tree, Reach(s, roots))
  {
    forall v | v in Reach(s, roots) ensures s[v].Live() {
      var p :| PathTo(s, roots, p, v);
      if |p| > 1 {
        ExactTargetsLive(s, ext, p[|p| - 2], v);
      }
    }
    forall u: LvId, v: LvId | u in Reach(s, roots) && Refs(s[u].tree, v) > 0 ensures v in Reach(s, roots) {
      ExactTargetsLive(s, ext, u, v);
      ReachEdge(s, roots, u, v);
    }
  }

  /** If every live root is really counted, everything reachable is shielded. */
  lemma CountedRootsShield(s: seq<LvVal>, ext: Ext, roots: set<LvId>)
    requires Exact(s, ext, Leaf)
    requires forall v :: v in roots && v < |s| && s[v].Live() ==> ext.t[v] > 0
    ensures Shielded(s, ext, Reach(s, roots))
  {
    var r := Reach(s, roots);
    ReachMarkable(s, ext, roots);
    forall v | v in r ensures ext.t[v] > 0 || exists u :: u in r && u < |s| && Refs(s[u].tree, v) > 0 {
      var p :| PathTo(s, roots, p, v);
      if |p| > 1 {
        var q := p[..|p| - 1];
        assert PathTo(s, roots, q, q[|q| - 1]);
        assert q[|q| - 1] in r && Refs(s[q[|q| - 1]].tree, v) > 0;
      }
    }
  }

  /** The live slots among `rs` are stamped. */
  ghost predicate RootsMarked(rs: set<LvId>, s: seq<LvVal>, cycle: nat) {
    forall v :: v in rs ==> v < |s| && (s[v].Live() ==> s[v].taskCycle == cycle)
  }

  /** Marking under way: only slots of `r` have been stamped, and all stamped slots are followed. */
  ghost predicate Marking(s0: seq<LvVal>, s: seq<LvVal>, cycle: nat, r: set<LvId>) {
    && Markable(s0, r) && Stamped(s0, s, cycle) && Followed(s0, s, cycle, {})
    && forall i: LvId :: i < |s| && s[i].taskCycle == cycle ==> i in r
  }

  /** The roots of `rs` lie in the heap, the live ones in `r`. */
  ghost predicate RootsIn(rs: set<LvId>, s: seq<LvVal>, r: set<LvId>) {
    forall v :: v in rs ==> v < |s| && (s[v].Live() ==> v in r)
  }

  lemma {:induction false} TableRootsHas(htab: seq<Option<LvId>>, n: nat)
    requires n < |htab|
    ensures Opt(htab[n]) <= TableRoots(htab)
  {
    if n < |htab| - 1 {
      TableRootsHas(htab[..|htab| - 1], n);
    }
  }

  ghost function UnmarkedSet(list: seq<LvId>, s: seq<LvVal>, cycle: nat): set<LvId>
    requires forall k :: 0 <= k < |list| ==> list[k] < |s|
  {
    set i | i in list && s[i].taskCycle != cycle
  }

  lemma {:induction false} UnmarkedInCard(list: seq<LvId>, s: seq<LvVal>, cycle: nat)
    requires forall k :: 0 <= k < |list| ==> list[k] < |s|
    requires forall j, k :: 0 <= j < k < |list| ==> list[j] < list[k]
    ensures UnmarkedIn(list, s, cycle) == |UnmarkedSet(list, s, cycle)|
  {
    if list == [] {
      assert UnmarkedSet(list, s, cycle) == {};
    } else {
      UnmarkedInCard(list[..|list| - 1], s, cycle);
      UnmarkedLast(list, s, cycle);
    }
  }

  lemma UnmarkedLast(list: seq<LvId>, s: seq<LvVal>, cycle: nat)
    requires list != [] && forall k :: 0 <= k < |list| ==> list[k] < |s|
    requires forall j, k :: 0 <= j < k < |list| ==> list[j] < list[k]
    ensures var front, x := list[..|list| - 1], list[|list| - 1];
      x !in front && UnmarkedSet(list, s, cycle) == UnmarkedSet(front, s, cycle) + if s[x].taskCycle != cycle then {x}
        else {}
  {
    assert list == list[..|list| - 1] + [list[|list| - 1]];
  }

  /** After a sweep that emptied every unmarked tree, an unmarked slot is referred to by nobody, and
      so is a marked one that only unmarked slots referred to. */
  lemma NoRefsLeft(s0: seq<LvVal>, s: seq<LvVal>, ext: Ext, marked: set<LvId>, zsearch: Option<LvId>, v: LvId)
    requires |s| == |s0| && v < |s|
    requires forall u: LvId :: u < |s| && u !in marked ==> s[u].tree == Leaf || zsearch == Some(u)
    requires forall u: LvId, w: LvId :: u < |s| && s0[u].Live() && zsearch == Some(u) ==> Refs(s0[u].tree, w) == 0
    requires forall u: LvId :: u < |s| ==> s[u].tree == Leaf || (s0[u].Live() && s[u].tree == s0[u].tree)
    requires forall u: LvId :: u in marked ==> u < |s| && Refs(s0[u].tree, v) == 0
    ensures HeapRefs(s, v) == 0
  {
    forall u: nat | u < |s| ensures Refs(s[u].tree, v) == 0 {
    }
    HeapRefsZero(s, v);
  }

  /** The state after a sweep decides who is left: no orphan, and every marked slot exactly when the
      marked slots were shielded to begin with. */
  lemma SweptOrphans(s0: seq<LvVal>, s: seq<LvVal>, ext: Ext, marked: set<LvId>, zsearch: Option<LvId>)
    requires Exact(s0, ext, Leaf) && Exact(s, ext, Leaf) && |s| == |s0|
    requires forall i: LvId :: i < |s| && ext.t[i] > 0 ==> i in marked || zsearch == Some(i)
    requires forall v :: v in marked ==> v < |s| && s0[v].Live() && TargetsIn(s0[v].tree, marked)
    requires forall u: LvId :: u < |s| ==> s[u].tree == Leaf || (s0[u].Live() && s[u].tree == s0[u].tree)
    requires forall u: LvId :: u < |s| && u !in marked ==> s[u].tree == Leaf || zsearch == Some(u)
    requires forall u: LvId, w: LvId :: u < |s| && s0[u].Live() && zsearch == Some(u) ==> Refs(s0[u].tree, w) == 0
    requires forall i :: 0 <= i < |s| && s[i].Live() ==> s[i].trefcnt > 0
    requires Shielded(s0, ext, marked) ==> forall v :: v in marked ==> s[v].Live()
    ensures forall i :: i in Orphans(s0, marked, zsearch) ==> !s[i].Live()
    ensures Shielded(s0, ext, marked) <==> forall v :: v in marked ==> s[v].Live()
  {
    forall v | v in Orphans(s0, marked, zsearch) ensures !s[v].Live() {
      NoRefsLeft(s0, s, ext, marked, zsearch, v);
      assert SlotExact(s, ext, Leaf, v);
    }
    if !Shielded(s0, ext, marked) {
      var v :| v in marked && ext.t[v] == 0 && forall u :: u in marked && u < |s0| ==> Refs(s0[u].tree, v) == 0;
      NoRefsLeft(s0, s, ext, marked, zsearch, v);
      assert SlotExact(s, ext, Leaf, v);
    }
  }

  /** Once all roots are marked and all marked slots followed, marked means reachable. */
  lemma MarkedIsReach(s0: seq<LvVal>, s: seq<LvVal>, cycle: nat, roots: set<LvId>)
    requires Marking(s0, s, cycle, Reach(s0, roots)) && RootsMarked(roots, s, cycle)
    ensures forall i: LvId :: i < |s| ==> (s[i].taskCycle == cycle <==> i in Reach(s0, roots))
  {
    var m := set i | i in Reach(s0, roots) && s[i].taskCycle == cycle;
    forall u, v: LvId | u in m && v < |s0| && Refs(s0[u].tree, v) > 0 ensures v in m {
      assert TargetsMarked(s0[u].tree, s, cycle);
    }
    ReachLeast(s0, roots, m);
  }

  /** The outcome of a collection of `s0` with marked set `marked`. */
  ghost predicate Collected(s0: seq<LvVal>, s: seq<LvVal>, ext: Ext, marked: set<LvId>, zsearch: Option<LvId>,
                            killcnt: nat)
    requires forall v :: v in marked ==> v < |s0|
  {
    && |s| == |s0| == |ext.t|
    // every orphan is freed, and counted
    && (forall i :: i in Orphans(s0, marked, zsearch) ==> !s[i].Live())
    && killcnt == |Orphans(s0, marked, zsearch)|
    // what survives keeps its value and its tree, and is still counted
    && (forall i :: 0 <= i < |s| && s[i].Live() ==>
          s0[i].Live() && s[i].value == s0[i].value && s[i].tree == s0[i].tree && s[i].trefcnt > 0)
    // no marked variable is freed, exactly when each is held by a count or by a marked container
    && (Shielded(s0, ext, marked) <==> forall i :: i in marked ==> s[i].Live())
  }

  /** In a consistent table the reachable slots are live and closed, and hold every outside reference
      but those to the $ZSEARCH variable. */
  lemma ConsistentMarked(s: seq<LvVal>, flist: seq<LvId>, cycle: nat, ext: Ext, roots: set<LvId>, zsearch: Option<LvId>)
    requires Consistent(s, flist, cycle, ext, roots, zsearch)
    ensures forall v :: v in Reach(s, roots) ==> s[v].Live() && TargetsIn(s[v].tree, Reach(s, roots))
    ensures forall i: LvId :: i < |s| && ext.t[i] > 0 ==> i in Reach(s, roots) || zsearch == Some(i)
  {
    ReachMarkable(s, ext, roots);
    forall i: LvId | i < |s| && ext.t[i] > 0 && zsearch != Some(i) ensures i in Reach(s, roots) {
      assert SlotExact(s, ext, Leaf, i);
      ReachRoot(s, roots, i);
    }
  }

  /** A table where marking and counting disagree: slot 0 holds itself and slot 1 by containers, no
      root leads to it, and slot 1 is only remembered by an uncounted stack entry. */
  ghost function LoopTree(): Tree { Node(Node(Leaf, Leaf, 0, Some(1), Leaf), Leaf, 0, Some(0), Leaf) }

  ghost function LoopHeap(): seq<LvVal> {
    [LvVal(Some(0), 0, LoopTree(), 1, 1, 0, true, None), LvVal(Some(0), 0, Leaf, 1, 1, 0, false, None)]
  }

  lemma LoopRefs(v: LvId)
    ensures Refs(LoopTree(), v) == HeapRefs(LoopHeap(), v) == if v < 2 then 1 else 0
  {
    var s := LoopHeap();
    assert Refs(LoopTree().left, v) == if v == 1 then 1 else 0;
    assert s[..1] == [s[0]] && [s[0]][..0] == [];
    assert HeapRefs([s[0]], v) == HeapRefs([], v) + Refs(LoopTree(), v);
  }

  lemma LoopReach()
    ensures Reach(LoopHeap(), {1}) == {1}
  {
    OneReach(LoopHeap());
  }

  lemma OneReach(s: seq<LvVal>)
    requires |s| == 2 && s[1].Live() && s[1].tree == Leaf
    ensures Reach(s, {1}) == {1}
  {
    ReachRoot(s, {1}, 1);
    assert forall v: LvId :: Refs(s[1].tree, v) == 0;
    ReachLeast(s, {1}, {1});
  }

  lemma LoopConsistent()
    ensures Consistent(LoopHeap(), [], 0, Ext([0, 0], [0, 0]), {1}, None)
  {
    forall v: LvId ensures HeapRefs(LoopHeap(), v) == if v < 2 then 1 else 0 {
      LoopRefs(v);
    }
  }

  /** There slot 1 is marked but not shielded, so by Collected it is freed with the orphan. */
  lemma UncountedRootNotShielded()
    ensures !Shielded(LoopHeap(), Ext([0, 0], [0, 0]), Reach(LoopHeap(), {1}))
  {
    LoopReach();
    OneNotShielded(LoopHeap(), Ext([0, 0], [0, 0]));
  }

  lemma OneNotShielded(s: seq<LvVal>, ext: Ext)
    requires |ext.t| == |s| == 2 && ext.t[1] == 0 && s[1].tree == Leaf
    ensures !Shielded(s, ext, {1})
  {
    assert Refs(Leaf, 1) == 0;
    assert !Held(s, ext, {1}, 1);
  }

  /** Marked roots stay marked while more slots are stamped. */
  lemma RootsKept(rs: set<LvId>, s0: seq<LvVal>, s: seq<LvVal>, s': seq<LvVal>, cycle: nat)
    requires Stamped(s0, s, cycle) && Stamped(s0, s', cycle) && RootsMarked(rs, s, cycle)
    requires forall i :: 0 <= i < |s'| ==> s'[i] == s[i] || s'[i].taskCycle == cycle
    ensures RootsMarked(rs, s', cycle)
  {
  }

  lemma RootsReached(s: seq<LvVal>, roots: set<LvId>)
    requires forall v :: v in roots ==> v < |s|
    ensures RootsIn(roots, s, Reach(s, roots))
  {
    forall v | v in roots && s[v].Live() ensures v in Reach(s, roots) {
      ReachRoot(s, roots, v);
    }
  }

  /** A slot before marking and after the sweep. */
  ghost predicate SweptSlot(a: LvVal, b: LvVal, marked: bool, listed: bool, zsearch: bool) {
    && (b.tree == Leaf || (a.Live() && b.tree == a.tree))
    && (!marked ==> b.tree == Leaf || zsearch)
    && (b.Live() ==> a.Live() && b.value == a.value)
    && (b.Live() && !listed ==> b.tree == a.tree)
  }

  /** The sweep under way from `s0`. */
  ghost predicate Sweeping(s0: seq<LvVal>, s: seq<LvVal>, flist: seq<LvId>, lvarray: seq<LvId>, ext: Ext,
                           keep: set<LvId>, cycle: nat) {
    && Exact(s, ext, Leaf) && FreeListExact(s, flist) && Shielded(s, ext, keep) && SweepSteps(s0, s, lvarray, cycle)
    && forall i :: 0 <= i < |s| && s[i].Live() ==> s[i].trefcnt > 0
  }

  /** The first `k` listed slots that are not stamped are empty. */
  ghost predicate Emptied(lvarray: seq<LvId>, k: nat, s: seq<LvVal>, cycle: nat) {
    k <= |lvarray| && forall j :: 0 <= j < k && lvarray[j] < |s| && s[lvarray[j]].taskCycle != cycle ==>
      s[lvarray[j]].tree == Leaf
  }

  /** Empty trees stay empty, and stamps stay. */
  ghost predicate Emptying(s: seq<LvVal>, s': seq<LvVal>) {
    |s'| == |s| && forall i: LvId :: i < |s| ==>
      s'[i].taskCycle == s[i].taskCycle && (s[i].tree == Leaf ==> s'[i].tree == Leaf)
  }

  lemma EmptiedNext(lvarray: seq<LvId>, k: nat, s: seq<LvVal>, s': seq<LvVal>, cycle: nat)
    requires k < |lvarray| && Emptied(lvarray, k, s, cycle) && Emptying(s, s')
    requires lvarray[k] < |s'| && (s'[lvarray[k]].taskCycle != cycle ==> s'[lvarray[k]].tree == Leaf)
    ensures Emptied(lvarray, k + 1, s', cycle)
  {
  }

  lemma SweepBegins(s0: seq<LvVal>, lvarray: seq<LvId>, cycle: nat)
    ensures SweepSteps(s0, s0, lvarray, cycle) && lvarray[..0] == []
  {
  }

  lemma SameStamps(s0: seq<LvVal>, s1: seq<LvVal>, s: seq<LvVal>, lvarray: seq<LvId>, cycle: nat)
    requires SweepSteps(s0, s1, lvarray, cycle) && SweepSteps(s0, s, lvarray, cycle)
    ensures |s| == |s1| && forall i: LvId :: i < |s| ==> s[i].taskCycle == s1[i].taskCycle
  {
    forall i: LvId | i < |s| ensures s[i].taskCycle == s1[i].taskCycle {
      assert SweepStep(s0[i], s[i], i in lvarray && s0[i].taskCycle != cycle);
      assert SweepStep(s0[i], s1[i], i in lvarray && s0[i].taskCycle != cycle);
    }
  }

  /** What was known before the sweep of `s1`, which is `s0` with its stamps. */
  ghost predicate Sweepable(s0: seq<LvVal>, s1: seq<LvVal>, lvarray: seq<LvId>, ext: Ext, marked: set<LvId>, cycle: nat,
                            zsearch: Option<LvId>) {
    && Exact(s0, ext, Leaf) && |s1| == |s0|
    && (forall i :: 0 <= i < |s0| ==> s1[i] == s0[i].(taskCycle := s1[i].taskCycle))
    && (forall i: LvId :: i < |s1| ==> (s1[i].taskCycle == cycle <==> i in marked))
    && (forall v :: v in marked ==> v < |s0| && s0[v].Live() && TargetsIn(s0[v].tree, marked))
    && (forall i: LvId :: i < |s0| && ext.t[i] > 0 ==> i in marked || zsearch == Some(i))
    && (forall u: LvId, v: LvId :: u < |s0| && s0[u].Live() && zsearch == Some(u) ==> Refs(s0[u].tree, v) == 0)
    && (forall j, k :: 0 <= j < k < |lvarray| ==> lvarray[j] < lvarray[k])
    && (forall i: LvId :: i in lvarray <==> i < |s0| && s0[i].Live() && zsearch != Some(i))
  }

  lemma SweepCollects(s0: seq<LvVal>, s1: seq<LvVal>, s: seq<LvVal>, lvarray: seq<LvId>, ext: Ext, marked: set<LvId>,
                      cycle: nat, zsearch: Option<LvId>, killcnt: nat)
    requires Sweepable(s0, s1, lvarray, ext, marked, cycle, zsearch)
    requires |s| == |s0| && Exact(s, ext, Leaf) && SweepSteps(s1, s, lvarray, cycle)
    requires forall i :: 0 <= i < |s| && s[i].Live() ==> s[i].trefcnt > 0
    requires forall k :: 0 <= k < |lvarray| && lvarray[k] < |s| && s[lvarray[k]].taskCycle != cycle ==>
      s[lvarray[k]].tree == Leaf
    requires (forall k :: 0 <= k < |lvarray| ==> lvarray[k] < |s1|) && killcnt == UnmarkedIn(lvarray, s1, cycle)
    requires Shielded(s0, ext, marked) ==> forall v :: v in marked ==> s[v].Live()
    ensures Collected(s0, s, ext, marked, zsearch, killcnt)
  {
    assert forall k :: 0 <= k < |lvarray| ==> lvarray[k] in lvarray;
    UnmarkedInCard(lvarray, s1, cycle);
    assert UnmarkedSet(lvarray, s1, cycle) == Orphans(s0, marked, zsearch);
    forall u: LvId | u < |s| ensures SweptSlot(s0[u], s[u], u in marked, u in lvarray, zsearch == Some(u)) {
      SweptOne(s0, s1, s, lvarray, ext, marked, cycle, zsearch, u);
    }
    SweptOrphans(s0, s, ext, marked, zsearch);
  }

  /** What the sweep makes of one slot. */
  lemma SweptOne(s0: seq<LvVal>, s1: seq<LvVal>, s: seq<LvVal>, lvarray: seq<LvId>, ext: Ext, marked: set<LvId>,
                 cycle: nat, zsearch: Option<LvId>, u: LvId)
    requires Sweepable(s0, s1, lvarray, ext, marked, cycle, zsearch) && |s| == |s0| && SweepSteps(s1, s, lvarray, cycle)
    requires u < |s|
    requires forall k :: 0 <= k < |lvarray| && lvarray[k] < |s| && s[lvarray[k]].taskCycle != cycle ==>
      s[lvarray[k]].tree == Leaf
    ensures SweptSlot(s0[u], s[u], u in marked, u in lvarray, zsearch == Some(u))
  {
    assert SweepStep(s1[u], s[u], u in lvarray && s1[u].taskCycle != cycle);
    if u in lvarray {
      var k :| 0 <= k < |lvarray| && lvarray[k] == u;
    } else {
      assert SlotExact(s0, ext, Leaf, u);
    }
  }

  /** Roots `e` have been marked on the way from `s` to `s'`: those still to do shrink to `rest'`. */
  lemma RootsStep(all: set<LvId>, rest: set<LvId>, e: set<LvId>, rest': set<LvId>,
                  s0: seq<LvVal>, s: seq<LvVal>, s': seq<LvVal>, cycle: nat)
    requires Stamped(s0, s, cycle) && Stamped(s0, s', cycle) && rest == e + rest'
    requires forall i :: 0 <= i < |s'| ==> s'[i] == s[i] || s'[i].taskCycle == cycle
    requires RootsMarked(all - rest, s, cycle) && RootsMarked(e, s', cycle)
    ensures RootsMarked(all - rest', s', cycle)
  {
    forall v | v in all - rest' ensures v < |s'| && (s'[v].Live() ==> s'[v].taskCycle == cycle) {
      if v !in e {
        assert v in all - rest;
      }
    }
  }

  class SymVal {
    /** The slots of the symbol table's lv_blks, in block order. */
    var lv: seq<LvVal>
    var flist: seq<LvId>
    var lvtaskcycle: nat

    /** DECR_AC_REF: release one container. */
    method DecrAcRef(c: Option<LvId>, ghost ext: Ext, ghost pend: Tree, ghost keep: set<LvId>)
      requires Exact(lv, ext, Node(pend, Leaf, 0, c, Leaf))
      requires FreeListExact(lv, flist) && Shielded(lv, ext, keep)
      modifies this`lv, this`flist
      ensures Exact(lv, ext, pend) && FreeListExact(lv, flist)
      ensures Step(old(lv), lv) && forall v :: v in keep ==> lv[v].Live()
      decreases HeapSize(lv), 3
    {
      if c.None? {
        ExactPend(lv, ext, Node(pend, Leaf, 0, c, Leaf), pend);
        return;
      }
      var w := c.value;
      ReleaseExact(lv, ext, pend, w);
      ghost var s0 := lv;
      CrefDrop(lv, w, ext, keep);
      lv := lv[w := lv[w].(crefcnt := lv[w].crefcnt - 1)];
      ghost var s1 := lv;
      DecrBaseRefNosym(w, ext, Bump(ext, w), pend, keep);
      StepTrans(s0, s1, lv);
    }

    /** DECR_BASE_REF_NOSYM: drop one reference to `w`; at zero, kill its subtree
        (LVP_KILL_SUBTREE_IF_EXISTS) and free the slot. */
    method DecrBaseRefNosym(w: LvId, ghost ext: Ext, ghost bumped: Ext, ghost pend: Tree, ghost keep: set<LvId>)
      requires w < |ext.t| && w < |ext.c| && ext.c[w] <= ext.t[w] && bumped == Bump(ext, w) && Exact(lv, bumped, pend)
      requires FreeListExact(lv, flist) && Shielded(lv, ext, keep)
      modifies this`lv, this`flist
      ensures Exact(lv, ext, pend) && FreeListExact(lv, flist)
      ensures Step(old(lv), lv) && forall v :: v in keep ==> lv[v].Live()
      decreases HeapSize(lv), 2
    {
      DropExact(lv, ext, pend, w);
      ghost var s0 := lv;
      TrefDrop(lv, w, ext, keep);
      lv := lv[w := lv[w].(trefcnt := lv[w].trefcnt - 1)];
      if lv[w].trefcnt == 0 {
        ghost var s1 := lv;
        KillSubtreeAndFree(w, ext, pend, keep);
        FreedStep(s0, s1, lv, w);
      }
    }

    /** LVP_KILL_SUBTREE_IF_EXISTS followed by LV_FREESLOT, on a slot whose count has reached zero. */
    method KillSubtreeAndFree(w: LvId, ghost ext: Ext, ghost pend: Tree, ghost keep: set<LvId>)
      requires w < |lv| && lv[w].Live() && lv[w].trefcnt == 0 && Exact(lv, ext, pend)
      requires FreeListExact(lv, flist) && Shielded(lv, ext, keep)
      modifies this`lv, this`flist
      ensures Exact(lv, ext, pend) && FreeListExact(lv, flist)
      ensures |lv| == old(|lv|) && HeapSize(lv) <= old(HeapSize(lv))
      ensures lv[w].tree == Leaf && !lv[w].Live() && lv[w].taskCycle == old(lv)[w].taskCycle
      ensures forall i :: 0 <= i < |lv| && i != w ==> SlotStep(old(lv)[i], lv[i])
      ensures forall v :: v in keep ==> lv[v].Live()
      decreases HeapSize(lv), 1
    {
      ZeroNotShielded(lv, ext, pend, keep, w);
      var sub := lv[w].tree;
      DetachExact(lv, ext, pend, w);
      ghost var s1 := lv;
      lv := lv[w := lv[w].(tree := Leaf)];
      TreesShielded(s1, lv, ext, ext, keep);
      ghost var s2 := lv;
      KillArray(sub, ext, pend, keep);
      assert SlotStep(s2[w], lv[w]) && SlotExact(lv, ext, pend, w);
      FreeExact(lv, ext, pend, w);
      ghost var s3 := lv;
      lv := lv[w := lv[w].(sym := None, value := 0)];
      flist := [w] + flist;
      assert FreeListExact(lv, flist) by {
        FreeListPush(s3, lv, flist[1..], w);
      }
    }

    /** lv_killarray: release every container of a detached tree, in post-order. */
    method KillArray(t: Tree, ghost ext: Ext, ghost pend: Tree, ghost keep: set<LvId>)
      requires Exact(lv, ext, Both(pend, t))
      requires FreeListExact(lv, flist) && Shielded(lv, ext, keep)
      modifies this`lv, this`flist
      ensures Exact(lv, ext, pend) && FreeListExact(lv, flist)
      ensures Step(old(lv), lv) && forall v :: v in keep ==> lv[v].Live()
      decreases HeapSize(lv) + Size(t), 0
    {
      if t.Leaf? {
        ExactPend(lv, ext, Both(pend, t), pend);
        return;
      }
      ghost var s0 := lv;
      ghost var p1 := Node(pend, t.right, 0, t.cont, t.child);
      ExactPend(lv, ext, Both(pend, t), Both(p1, t.left));
      KillArray(t.left, ext, p1, keep);
      ShieldedStep(s0, lv, ext, keep);
      ghost var s1 := lv;
      ghost var p2 := Node(pend, Leaf, 0, t.cont, t.child);
      ExactPend(lv, ext, p1, Both(p2, t.right));
      KillArray(t.right, ext, p2, keep);
      ShieldedStep(s1, lv, ext, keep);
      StepTrans(s0, s1, lv);
      ghost var s2 := lv;
      ghost var p3 := Node(pend, Leaf, 0, t.cont, Leaf);
      ExactPend(lv, ext, p2, Both(p3, t.child));
      KillArray(t.child, ext, p3, keep);
      ShieldedStep(s2, lv, ext, keep);
      StepTrans(s0, s2, lv);
      ghost var s3 := lv;
      DecrAcRef(t.cont, ext, pend, keep);
      StepTrans(s0, s3, lv);
    }

    /** MARK_REACHABLE: stamp the slot unless it is free or already stamped, then follow its tree. */
    method MarkReachable(v: LvId, ghost s0: seq<LvVal>, ghost gray: set<LvId>, ghost r: set<LvId>)
      requires v < |lv| && (lv[v].Live() ==> v in r)
      requires Stamped(s0, lv, lvtaskcycle) && Markable(s0, r) && Followed(s0, lv, lvtaskcycle, gray)
      modifies this`lv
      ensures Stamped(s0, lv, lvtaskcycle) && Followed(s0, lv, lvtaskcycle, gray)
      ensures forall i :: 0 <= i < |lv| ==> lv[i] == old(lv)[i] || (i in r && lv[i].taskCycle == lvtaskcycle)
      ensures lv[v].Live() ==> lv[v].taskCycle == lvtaskcycle
      ensures Unstamped(lv, lvtaskcycle) <= old(Unstamped(lv, lvtaskcycle))
      decreases Unstamped(lv, lvtaskcycle), 1, Leaf
    {
      if lv[v].Live() && lv[v].taskCycle != lvtaskcycle {
        UnstampedUpdate(lv, v, lv[v].(taskCycle := lvtaskcycle), lvtaskcycle);
        lv := lv[v := lv[v].(taskCycle := lvtaskcycle)];
        if lv[v].hasAliasCont {
          MarkTree(lv[v].tree, s0, gray + {v}, r);
        }
      }
    }

    /** als_prcs_markreached_cntnr: follow every container of a tree, in order. */
    method MarkTree(t: Tree, ghost s0: seq<LvVal>, ghost gray: set<LvId>, ghost r: set<LvId>)
      requires TargetsIn(t, r)
      requires Stamped(s0, lv, lvtaskcycle) && Markable(s0, r) && Followed(s0, lv, lvtaskcycle, gray)
      modifies this`lv
      ensures Stamped(s0, lv, lvtaskcycle) && Followed(s0, lv, lvtaskcycle, gray)
      ensures forall i :: 0 <= i < |lv| ==> lv[i] == old(lv)[i] || (i in r && lv[i].taskCycle == lvtaskcycle)
      ensures TargetsMarked(t, lv, lvtaskcycle)
      ensures Unstamped(lv, lvtaskcycle) <= old(Unstamped(lv, lvtaskcycle))
      decreases Unstamped(lv, lvtaskcycle), 2, t
    {
      if t.Node? {
        MarkTree(t.left, s0, gray, r);
        if t.cont.Some? {
          assert Refs(t, t.cont.value) > 0;
          MarkReachable(t.cont.value, s0, gray, r);
        }
        MarkTree(t.child, s0, gray, r);
        MarkTree(t.right, s0, gray, r);
      }
    }

    /** The body of step 10 for one orphan: INCR_TREFCNT, lv_killarray on its tree, then
        DECR_BASE_REF_NOSYM. */
    method KillOrphan(v: LvId, ghost ext: Ext, ghost keep: set<LvId>)
      requires Exact(lv, ext, Leaf) && FreeListExact(lv, flist) && Shielded(lv, ext, keep)
      requires v < |lv| && lv[v].Live() && ext.t[v] == 0 && v !in keep
      requires forall i :: 0 <= i < |lv| && lv[i].Live() ==> lv[i].trefcnt > 0
      modifies this`lv, this`flist
      ensures Exact(lv, ext, Leaf) && FreeListExact(lv, flist) && |lv| == |old(lv)|
      ensures forall i :: 0 <= i < |lv| && i != v ==> SlotStep(old(lv)[i], lv[i])
      ensures forall i :: 0 <= i < |lv| && lv[i].Live() ==> lv[i].trefcnt > 0
      ensures lv[v].tree == Leaf && lv[v].taskCycle == old(lv)[v].taskCycle
      ensures lv[v].Live() ==> lv[v].value == old(lv)[v].value
      ensures Shielded(lv, ext, keep)
    {
      ghost var s0 := lv;
      OrphanReady(lv, ext, keep, v);
      lv := lv[v := lv[v].(trefcnt := lv[v].trefcnt + 1)];
      var child := lv[v].tree;
      lv := lv[v := lv[v].(tree := Leaf)];
      ghost var s2 := lv;
      ghost var bumped := Bump(ext, v);
      KillArray(child, bumped, Leaf, keep);
      ghost var s3 := lv;
      ShieldedStep(s2, lv, ext, keep);
      DecrBaseRefNosym(v, ext, bumped, Leaf, keep);
      ShieldedStep(s3, lv, ext, keep);
      StepTrans(s2, s3, lv);
      OrphanSteps(s0, s2, lv, v, ext);
    }

    /** Step 10 of als_lvval_gc: every orphan still on its slot has its tree killed under a raised
        count, which takes the cycles of containers apart. */
    method Sweep(lvarray: seq<LvId>, ghost ext: Ext, ghost keep: set<LvId>) returns (killcnt: nat)
      requires Exact(lv, ext, Leaf) && FreeListExact(lv, flist)
      requires forall i :: 0 <= i < |lv| && lv[i].Live() ==> lv[i].trefcnt > 0
      requires forall k :: 0 <= k < |lvarray| ==> lvarray[k] < |lv|
      requires forall k :: 0 <= k < |lvarray| && ext.t[lvarray[k]] > 0 ==> lv[lvarray[k]].taskCycle == lvtaskcycle
      requires Shielded(lv, ext, keep) && forall v :: v in keep ==> lv[v].taskCycle == lvtaskcycle
      modifies this`lv, this`flist
      ensures Exact(lv, ext, Leaf) && FreeListExact(lv, flist) && |lv| == |old(lv)|
      ensures SweepSteps(old(lv), lv, lvarray, lvtaskcycle)
      ensures forall i :: 0 <= i < |lv| && lv[i].Live() ==> lv[i].trefcnt > 0
      ensures forall k :: 0 <= k < |lvarray| && lv[lvarray[k]].taskCycle != lvtaskcycle ==> lv[lvarray[k]].tree == Leaf
      ensures killcnt == UnmarkedIn(lvarray, old(lv), lvtaskcycle)
      ensures forall v :: v in keep ==> lv[v].Live()
    {
      ghost var s0 := lv;
      killcnt := 0;
      SweepBegins(s0, lvarray, lvtaskcycle);
      var k := 0;
      while k < |lvarray|
        invariant k <= |lvarray| && Sweeping(s0, lv, flist, lvarray, ext, keep, lvtaskcycle)
        invariant Emptied(lvarray, k, lv, lvtaskcycle)
        invariant killcnt == UnmarkedIn(lvarray[..k], s0, lvtaskcycle)
      {
        ghost var before := lv;
        var killed := SweepOne(lvarray[k], lvarray, s0, ext, keep);
        EmptiedNext(lvarray, k, before, lv, lvtaskcycle);
        assert lvarray[..k + 1][..k] == lvarray[..k];
        killcnt := killcnt + killed;
        k := k + 1;
      }
      assert lvarray[..k] == lvarray;
    }

    /** One listed slot: killed, if it is not stamped and an earlier kill has not freed it. */
    method SweepOne(v: LvId, ghost lvarray: seq<LvId>, ghost s0: seq<LvVal>, ghost ext: Ext, ghost keep: set<LvId>)
      returns (killed: nat)
      requires Sweeping(s0, lv, flist, lvarray, ext, keep, lvtaskcycle) && v in lvarray && v < |lv|
      requires (ext.t[v] > 0 ==> s0[v].taskCycle == lvtaskcycle) && (v in keep ==> s0[v].taskCycle == lvtaskcycle)
      modifies this`lv, this`flist
      ensures Sweeping(s0, lv, flist, lvarray, ext, keep, lvtaskcycle)
      ensures killed == if s0[v].taskCycle != lvtaskcycle then 1 else 0
      ensures Emptying(old(lv), lv) && (lv[v].taskCycle != lvtaskcycle ==> lv[v].tree == Leaf)
    {
      assert SweepStep(s0[v], lv[v], v in lvarray && s0[v].taskCycle != lvtaskcycle);
      if lv[v].taskCycle == lvtaskcycle {
        return 0;
      }
      if lv[v].Live() {
        ghost var s1 := lv;
        KillOrphan(v, ext, keep);
        SweepStepsNext(s0, s1, lv, lvarray, lvtaskcycle, v);
        SameStamps(s0, s1, lv, lvarray, lvtaskcycle);
      } else {
        assert SlotExact(lv, ext, Leaf, v);
      }
      return 1;
    }

    /** Steps 1 and 2: the slots in use, except the $ZSEARCH variable. */
    method ListSlots(zsearch: Option<LvId>) returns (lvarray: seq<LvId>)
      ensures forall j, k :: 0 <= j < k < |lvarray| ==> lvarray[j] < lvarray[k]
      ensures forall i: LvId :: i in lvarray <==> i < |lv| && lv[i].Live() && zsearch != Some(i)
    {
      lvarray := [];
      for n := 0 to |lv|
        invariant forall j :: 0 <= j < |lvarray| ==> lvarray[j] < n
        invariant forall j, k :: 0 <= j < k < |lvarray| ==> lvarray[j] < lvarray[k]
        invariant forall i: LvId :: i in lvarray <==> i < n && lv[i].Live() && zsearch != Some(i)
      {
        if lv[n].Live() && zsearch != Some(n) {
          lvarray := lvarray + [n];
        }
      }
    }

    /** Steps 4 to 6: the hash table. */
    method MarkTable(htab: seq<Option<LvId>>, ghost s0: seq<LvVal>, ghost r: set<LvId>)
      requires Marking(s0, lv, lvtaskcycle, r) && RootsIn(TableRoots(htab), s0, r)
      modifies this`lv
      ensures Marking(s0, lv, lvtaskcycle, r) && RootsMarked(TableRoots(htab), lv, lvtaskcycle)
    {
      assert htab[..|htab|] == htab;
      for n := 0 to |htab|
        invariant Marking(s0, lv, lvtaskcycle, r) && RootsIn(TableRoots(htab), s0, r)
        invariant RootsMarked(TableRoots(htab[..n]), lv, lvtaskcycle)
      {
        assert htab[..n + 1][..n] == htab[..n];
        TableRootsHas(htab, n);
        if htab[n].Some? {
          MarkReachable(htab[n].value, s0, {}, r);
        }
      }
    }

    /** Step 7: the M stack, up to the entry that saved the previous symbol table. */
    method MarkStack(mvChain: seq<MvStent>, ghost s0: seq<LvVal>, ghost r: set<LvId>)
      requires Marking(s0, lv, lvtaskcycle, r) && RootsIn(StackRoots(mvChain), s0, r)
      modifies this`lv
      ensures Marking(s0, lv, lvtaskcycle, r) && RootsMarked(StackRoots(mvChain), lv, lvtaskcycle)
      ensures forall i :: 0 <= i < |lv| ==> lv[i] == old(lv)[i] || lv[i].taskCycle == lvtaskcycle
    {
      var n := 0;
      while n < |mvChain|
        invariant 0 <= n <= |mvChain| && Marking(s0, lv, lvtaskcycle, r)
        invariant RootsIn(StackRoots(mvChain[n..]), s0, r)
        invariant RootsMarked(StackRoots(mvChain) - StackRoots(mvChain[n..]), lv, lvtaskcycle)
        invariant forall i :: 0 <= i < |lv| ==> lv[i] == old(lv)[i] || lv[i].taskCycle == lvtaskcycle
      {
        assert mvChain[n..][1..] == mvChain[n + 1..];
        if mvChain[n] == Stab {
          break;
        }
        ghost var before := lv;
        MarkStent(mvChain[n], s0, r);
        RootsStep(StackRoots(mvChain), StackRoots(mvChain[n..]), StentRoots(mvChain[n]), StackRoots(mvChain[n + 1..]),
          s0, before, lv, lvtaskcycle);
        n := n + 1;
      }
    }

    /** One entry of the stack. */
    method MarkStent(e: MvStent, ghost s0: seq<LvVal>, ghost r: set<LvId>)
      requires Marking(s0, lv, lvtaskcycle, r) && RootsIn(StentRoots(e), s0, r) && e != Stab
      modifies this`lv
      ensures Marking(s0, lv, lvtaskcycle, r) && RootsMarked(StentRoots(e), lv, lvtaskcycle)
      ensures forall i :: 0 <= i < |lv| ==> lv[i] == old(lv)[i] || lv[i].taskCycle == lvtaskcycle
    {
      if e.Ntab? {
        MarkRoot(e.save, s0, r);
      } else if e.Pval? {
        if e.saved.Some? {
          MarkTwo(e.val, e.saved.value, s0, r);
        } else {
          MarkRoot(e.val, s0, r);
        }
      } else if e.Nval? {
        MarkTwo(e.val, e.save, s0, r);
      } else if e.Lval? {
        MarkRoot(e.save, s0, r);
      }
    }

    /** One root, from a heap where everything stamped has been followed. */
    method MarkRoot(v: LvId, ghost s0: seq<LvVal>, ghost r: set<LvId>)
      requires Marking(s0, lv, lvtaskcycle, r) && RootsIn({v}, s0, r)
      modifies this`lv
      ensures Marking(s0, lv, lvtaskcycle, r) && RootsMarked({v}, lv, lvtaskcycle)
      ensures forall i :: 0 <= i < |lv| ==> lv[i] == old(lv)[i] || lv[i].taskCycle == lvtaskcycle
    {
      assert v in {v};
      MarkReachable(v, s0, {}, r);
    }

    method MarkTwo(v: LvId, w: LvId, ghost s0: seq<LvVal>, ghost r: set<LvId>)
      requires Marking(s0, lv, lvtaskcycle, r) && RootsIn({v}, s0, r) && RootsIn({w}, s0, r)
      modifies this`lv
      ensures Marking(s0, lv, lvtaskcycle, r) && RootsMarked({v}, lv, lvtaskcycle) && RootsMarked({w}, lv, lvtaskcycle)
      ensures forall i :: 0 <= i < |lv| ==> lv[i] == old(lv)[i] || lv[i].taskCycle == lvtaskcycle
    {
      MarkRoot(v, s0, r);
      ghost var s1 := lv;
      MarkRoot(w, s0, r);
      RootsKept({v}, s0, s1, lv, lvtaskcycle);
    }

    /** Step 8: current and saved values of the transactions begun under this symbol table. */
    method MarkTp(tpStack: seq<TpFrame>, me: nat, ghost s0: seq<LvVal>, ghost r: set<LvId>)
      requires Marking(s0, lv, lvtaskcycle, r) && RootsIn(TpRoots(tpStack, me), s0, r)
      modifies this`lv
      ensures Marking(s0, lv, lvtaskcycle, r) && RootsMarked(TpRoots(tpStack, me), lv, lvtaskcycle)
      ensures forall i :: 0 <= i < |lv| ==> lv[i] == old(lv)[i] || lv[i].taskCycle == lvtaskcycle
    {
      var n := 0;
      while n < |tpStack| && tpStack[n].sym == me
        invariant 0 <= n <= |tpStack| && Marking(s0, lv, lvtaskcycle, r)
        invariant RootsIn(TpRoots(tpStack[n..], me), s0, r)
        invariant RootsMarked(TpRoots(tpStack, me) - TpRoots(tpStack[n..], me), lv, lvtaskcycle)
        invariant forall i :: 0 <= i < |lv| ==> lv[i] == old(lv)[i] || lv[i].taskCycle == lvtaskcycle
      {
        assert tpStack[n..][1..] == tpStack[n + 1..];
        MarkTpFrame(tpStack[n].vars, s0, r);
        n := n + 1;
      }
    }

    method MarkTpFrame(vars: seq<TpVar>, ghost s0: seq<LvVal>, ghost r: set<LvId>)
      requires Marking(s0, lv, lvtaskcycle, r) && RootsIn(VarRoots(vars), s0, r)
      modifies this`lv
      ensures Marking(s0, lv, lvtaskcycle, r) && RootsMarked(VarRoots(vars), lv, lvtaskcycle)
      ensures forall i :: 0 <= i < |lv| ==> lv[i] == old(lv)[i] || lv[i].taskCycle == lvtaskcycle
    {
      for k := 0 to |vars|
        invariant Marking(s0, lv, lvtaskcycle, r) && RootsIn(VarRoots(vars[k..]), s0, r)
        invariant RootsMarked(VarRoots(vars) - VarRoots(vars[k..]), lv, lvtaskcycle)
        invariant forall i :: 0 <= i < |lv| ==> lv[i] == old(lv)[i] || lv[i].taskCycle == lvtaskcycle
      {
        assert vars[k..][1..] == vars[k + 1..];
        MarkReachable(vars[k].current, s0, {}, r);
        MarkReachable(vars[k].saved, s0, {}, r);
      }
    }

    /** Steps 4 to 9: afterwards exactly the reachable slots bear the stamp. */
    method Mark(roots: Roots, me: nat, ghost ext: Ext)
      requires Exact(lv, ext, Leaf) && forall v :: v in AllRoots(roots, me) ==> v < |lv|
      requires forall i :: 0 <= i < |lv| ==> lv[i].taskCycle < lvtaskcycle
      requires forall u: LvId, v: LvId :: u < |lv| && lv[u].Live() && !lv[u].hasAliasCont ==> Refs(lv[u].tree, v) == 0
      modifies this`lv
      ensures Stamped(old(lv), lv, lvtaskcycle)
      ensures forall i: LvId :: i < |lv| ==>
        (lv[i].taskCycle == lvtaskcycle <==> i in Reach(old(lv), AllRoots(roots, me)))
    {
      ghost var s0, r := lv, Reach(lv, AllRoots(roots, me));
      ReachMarkable(lv, ext, AllRoots(roots, me));
      RootsReached(lv, AllRoots(roots, me));
      MarkRoots(roots, me, s0, r);
      MarkedIsReach(s0, lv, lvtaskcycle, AllRoots(roots, me));
    }

    method MarkRoots(roots: Roots, me: nat, ghost s0: seq<LvVal>, ghost r: set<LvId>)
      requires Marking(s0, lv, lvtaskcycle, r) && RootsIn(AllRoots(roots, me), s0, r)
      modifies this`lv
      ensures Marking(s0, lv, lvtaskcycle, r) && RootsMarked(AllRoots(roots, me), lv, lvtaskcycle)
    {
      MarkTable(roots.htab, s0, r);
      ghost var s1 := lv;
      MarkStack(roots.mvChain, s0, r);
      RootsKept(TableRoots(roots.htab), s0, s1, lv, lvtaskcycle);
      ghost var s2 := lv;
      MarkTp(roots.tpStack, me, s0, r);
      RootsKept(TableRoots(roots.htab) + StackRoots(roots.mvChain), s0, s2, lv, lvtaskcycle);
      ghost var s3 := lv;
      if roots.aliasRetarg.Some? {
        MarkReachable(roots.aliasRetarg.value, s0, {}, r);
      }
      RootsKept(TableRoots(roots.htab) + StackRoots(roots.mvChain) + TpRoots(roots.tpStack, me), s0, s3, lv,
                lvtaskcycle);
    }

    /** Steps 3 to 9, from a consistent table. `rs` are the roots: what is in the hash table; what the stack
        saves or holds for a parameter or a NEW, up to the entry that saved a symbol table; current and saved
        values of the transaction frames up to the first one of another table; and the return argument. */
    method MarkPhase(roots: Roots, me: nat, ghost zsearch: Option<LvId>, ghost rs: set<LvId>, ghost ext: Ext)
      requires forall v: LvId :: v in rs <==>
        || (exists n :: 0 <= n < |roots.htab| && roots.htab[n] == Some(v))
        || (exists n :: 0 <= n < |roots.mvChain| && Stab !in roots.mvChain[..n + 1] && var e := roots.mvChain[n];
                || e == Ntab(v) || e == Lval(v)
                || (e.Nval? && (e.save == v || e.val == v))
                || (e.Pval? && (e.val == v || e.saved == Some(v))))
        || (exists n, k :: 0 <= n < |roots.tpStack| && 0 <= k < |roots.tpStack[n].vars|
                && (forall m :: 0 <= m <= n ==> roots.tpStack[m].sym == me)
                && (roots.tpStack[n].vars[k].current == v || roots.tpStack[n].vars[k].saved == v))
        || roots.aliasRetarg == Some(v)
      requires Consistent(lv, flist, lvtaskcycle, ext, rs, zsearch)
      modifies this`lv, this`lvtaskcycle
      ensures |lv| == |old(lv)| && FreeListExact(lv, flist)
      ensures forall i :: 0 <= i < |lv| ==> lv[i] == old(lv)[i].(taskCycle := lv[i].taskCycle)
      ensures forall i: LvId :: i < |lv| ==>
        (lv[i].taskCycle == lvtaskcycle <==> i in Reach(old(lv), rs))
    {
      RootsByIndex(roots, me, rs);
      StampPhase(roots, me, zsearch, ext);
    }

    /** The same, for the roots as the loops come to them. */
    method StampPhase(roots: Roots, me: nat, ghost zsearch: Option<LvId>, ghost ext: Ext)
      requires Consistent(lv, flist, lvtaskcycle, ext, AllRoots(roots, me), zsearch)
      modifies this`lv, this`lvtaskcycle
      ensures |lv| == |old(lv)| && FreeListExact(lv, flist)
      ensures forall i :: 0 <= i < |lv| ==> lv[i] == old(lv)[i].(taskCycle := lv[i].taskCycle)
      ensures forall i: LvId :: i < |lv| ==>
        (lv[i].taskCycle == lvtaskcycle <==> i in Reach(old(lv), AllRoots(roots, me)))
    {
      ghost var s0 := lv;
      lv, lvtaskcycle := IncrLvTaskCycle(lv, lvtaskcycle, Slots(|lv|));
      StampedExact(s0, lv, ext);
      ReachStamp(s0, lv, AllRoots(roots, me));
      Mark(roots, me, ext);
    }

    /** The sweep, seen from the heap `s0` before marking. */
    method SweepUnmarked(lvarray: seq<LvId>, ghost s0: seq<LvVal>, ghost ext: Ext, ghost marked: set<LvId>,
                         ghost zsearch: Option<LvId>) returns (killcnt: nat)
      requires Sweepable(s0, lv, lvarray, ext, marked, lvtaskcycle, zsearch) && FreeListExact(lv, flist)
      requires forall i :: 0 <= i < |s0| && s0[i].Live() ==> s0[i].trefcnt > 0
      modifies this`lv, this`flist
      ensures |lv| == |s0| && Exact(lv, ext, Leaf) && FreeListExact(lv, flist)
      ensures forall i :: 0 <= i < |lv| ==> lv[i].taskCycle == old(lv)[i].taskCycle
      ensures Collected(s0, lv, ext, marked, zsearch, killcnt)
    {
      ghost var s1 := lv;
      StampedExact(s0, s1, ext);
      assert forall k :: 0 <= k < |lvarray| ==> lvarray[k] in lvarray;
      ghost var keep := if Shielded(s0, ext, marked) then marked else {};
      TreesShielded(s0, s1, ext, ext, keep);
      killcnt := Sweep(lvarray, ext, keep);
      SweepCollects(s0, s1, lv, lvarray, ext, marked, lvtaskcycle, zsearch, killcnt);
    }

    /** als_lvval_gc: list the slots in use, mark what the roots reach, and free the rest. `rs` are the roots, as
        for MarkPhase. */
    method LvvalGc(roots: Roots, me: nat, zsearch: Option<LvId>, ghost rs: set<LvId>, ghost ext: Ext)
      returns (killcnt: nat)
      requires forall v: LvId :: v in rs <==>
        || (exists n :: 0 <= n < |roots.htab| && roots.htab[n] == Some(v))
        || (exists n :: 0 <= n < |roots.mvChain| && Stab !in roots.mvChain[..n + 1] && var e := roots.mvChain[n];
                || e == Ntab(v) || e == Lval(v)
                || (e.Nval? && (e.save == v || e.val == v))
                || (e.Pval? && (e.val == v || e.saved == Some(v))))
        || (exists n, k :: 0 <= n < |roots.tpStack| && 0 <= k < |roots.tpStack[n].vars|
                && (forall m :: 0 <= m <= n ==> roots.tpStack[m].sym == me)
                && (roots.tpStack[n].vars[k].current == v || roots.tpStack[n].vars[k].saved == v))
        || roots.aliasRetarg == Some(v)
      requires Consistent(lv, flist, lvtaskcycle, ext, rs, zsearch)
      modifies this
      ensures |lv| == |old(lv)| && Exact(lv, ext, Leaf) && FreeListExact(lv, flist)
      // marked is reachable
      ensures forall i: LvId :: i < |lv| ==>
        (lv[i].taskCycle == lvtaskcycle <==> i in Reach(old(lv), rs))
      ensures Collected(old(lv), lv, ext, Reach(old(lv), rs), zsearch, killcnt)
    {
      RootsByIndex(roots, me, rs);
      killcnt := Collect(roots, me, zsearch, ext);
    }

    /** The same, for the roots as the loops come to them. */
    method Collect(roots: Roots, me: nat, zsearch: Option<LvId>, ghost ext: Ext) returns (killcnt: nat)
      requires Consistent(lv, flist, lvtaskcycle, ext, AllRoots(roots, me), zsearch)
      modifies this
      ensures |lv| == |old(lv)| && Exact(lv, ext, Leaf) && FreeListExact(lv, flist)
      // marked is reachable
      ensures forall i: LvId :: i < |lv| ==>
        (lv[i].taskCycle == lvtaskcycle <==> i in Reach(old(lv), AllRoots(roots, me)))
      ensures Collected(old(lv), lv, ext, Reach(old(lv), AllRoots(roots, me)), zsearch, killcnt)
    {
      ghost var s0, marked := lv, Reach(lv, AllRoots(roots, me));
      ConsistentMarked(lv, flist, lvtaskcycle, ext, AllRoots(roots, me), zsearch);
      var lvarray := ListSlots(zsearch);
      StampPhase(roots, me, zsearch, ext);
      killcnt := SweepUnmarked(lvarray, s0, ext, marked, zsearch);
    }
  }
}
