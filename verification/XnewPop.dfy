/** Popping the symbol table of an exclusive NEW (als_check_xnew_var_aliases in alias_funcs.c): what
    the older tables can still reach of the popped one is copied out of it. The routine is a copying
    collector: MV_LVCOPIED is the forwarding pointer, the task cycle stamp the visited mark. */
module XnewPop {
  import opened Options
  import opened LocalVars

  /** The table being popped, the one popped to, and the stamp of this pass. */
  datatype Pop = Pop(popd: nat, cur: nat, cycle: nat)

  /** The slot to use for `v` from now on: its copy, if it has been copied. */
  function Forward(s: seq<LvVal>, v: LvId): LvId {
    if v < |s| && s[v].copied.Some? then s[v].copied.value else v
  }

  function ForwardOpt(s: seq<LvVal>, c: Option<LvId>): Option<LvId> {
    if c.Some? then Some(Forward(s, c.value)) else None
  }

  /** The tree `t` with every container redirected. */
  ghost function ForwardTree(s: seq<LvVal>, t: Tree): Tree {
    match t
    case Leaf => Leaf
    case Node(l, r, x, c, ch) =>
      Node(ForwardTree(s, l), ForwardTree(s, r), x, ForwardOpt(s, c), ForwardTree(s, ch))
  }

  ghost predicate NoCont(t: Tree) {
    match t
    case Leaf => true
    case Node(l, r, _, c, ch) => c.None? && NoCont(l) && NoCont(r) && NoCont(ch)
  }

  /** The redirected tree has the nodes of the tree, with their values and with their containers redirected. */
  lemma {:induction false} ForwardByPath(s: seq<LvVal>, t: Tree, path: seq<Turn>)
    ensures At(ForwardTree(s, t), path).Node? <==> At(t, path).Node?
    ensures At(t, path).Node? ==> At(ForwardTree(s, t), path).value == At(t, path).value
    ensures At(t, path).Node? && At(t, path).cont.None? ==> At(ForwardTree(s, t), path).cont.None?
    ensures At(t, path).Node? && At(t, path).cont.Some? ==> var v := At(t, path).cont.value;
      At(ForwardTree(s, t), path).cont == if v < |s| && s[v].copied.Some? then s[v].copied else Some(v)
  {
    if t.Node? && path != [] {
      ForwardByPath(s, t.Turned(path[0]), path[1..]);
    }
  }

  /** Slot `v` belongs to a surviving table, and its containers (if any) are being or have been
      redirected. */
  ghost predicate Visited(s: seq<LvVal>, p: Pop, v: LvId) {
    && v < |s|
    && s[v].sym != Some(p.popd)
    && (s[v].taskCycle == p.cycle || s[v].tree == Leaf || !s[v].hasAliasCont)
  }

  ghost predicate ContSettled(s: seq<LvVal>, p: Pop, c: Option<LvId>) {
    c.Some? ==> Visited(s, p, Forward(s, c.value))
  }

  /** Every container of the original tree `t` leads to a visited slot once redirected. */
  ghost predicate Settled(s: seq<LvVal>, p: Pop, t: Tree) {
    match t
    case Leaf => true
    case Node(l, r, _, c, ch) =>
      && Settled(s, p, l) && Settled(s, p, r) && Settled(s, p, ch)
      && ContSettled(s, p, c)
  }

  ghost predicate InRange(t: Tree, n: nat) {
    match t
    case Leaf => true
    case Node(l, r, _, c, ch) => InRange(l, n) && InRange(r, n) && InRange(ch, n) && (c.Some? ==> c.value < n)
  }

  /** The heap before the pop: containers lead to slots, has_aliascont is never off on a variable
      that has one, and nothing is copied yet. */
  ghost predicate Ready(h: seq<LvVal>) {
    forall i: LvId :: i < |h| ==>
      h[i].copied.None? && InRange(h[i].tree, |h|) && (!h[i].hasAliasCont ==> NoCont(h[i].tree))
  }

  /** Slot `i` bears the stamp of the pass before the pass has come to it. */
  ghost predicate Stale(h: seq<LvVal>, p: Pop, i: LvId) {
    i < |h| && h[i].taskCycle == p.cycle
  }

  /** Whether RESOLV_ALIAS_CNTNRS_IN_TREE scans a slot. */
  predicate Scans(x: LvVal, p: Pop) {
    x.tree != Leaf && x.taskCycle != p.cycle && x.hasAliasCont
  }

  /** The slot of `h` that slot `j` stands for; `org` lists the originals of the copies. */
  ghost function Origin(h: seq<LvVal>, org: seq<LvId>, j: LvId): LvId
    requires j < |h| + |org|
  {
    if j < |h| then j else org[j - |h|]
  }

  /** Surviving slot `j` against its original: it is the original but for symbol table, stamp and tree, the
      table of a copy being the current one. The tree is the original's too until the
      slot is visited, and the redirected original tree once it is no longer `gray`. A stale slot keeps
      its tree. */
  ghost predicate SlotOk(h: seq<LvVal>, s: seq<LvVal>, org: seq<LvId>, p: Pop, gray: set<LvId>, j: LvId)
    requires |s| == |h| + |org| && j < |s| && Origin(h, org, j) < |h|
  {
    var o := h[Origin(h, org, j)];
    && s[j].sym == (if j < |h| then o.sym else Some(p.cur)) && s[j].sym != Some(p.popd)
    && s[j] == o.(sym := s[j].sym, taskCycle := s[j].taskCycle, tree := s[j].tree) && s[j].copied.None?
    && s[j].taskCycle in {o.taskCycle, p.cycle}
    && (if s[j].taskCycle == p.cycle && j !in gray && o.taskCycle != p.cycle
        then s[j].tree == ForwardTree(s, o.tree) && Settled(s, p, o.tree)
        else s[j].tree == o.tree)
  }

  /** A popped slot is untouched, or holds the forwarding pointer to its one copy. */
  ghost predicate PoppedOk(h: seq<LvVal>, s: seq<LvVal>, org: seq<LvId>, p: Pop, newborn: set<LvId>, i: LvId)
    requires |s| == |h| + |org| && i < |h|
  {
    if s[i].copied.None? then s[i] == h[i]
    else
      var c := s[i].copied.value;
      && |h| <= c < |s| && org[c - |h|] == i && s[i] == h[i].(copied := Some(c), tree := Leaf)
      && (Visited(s, p, c) || c in newborn)
  }

  ghost predicate Inv(h: seq<LvVal>, s: seq<LvVal>, org: seq<LvId>, p: Pop, gray: set<LvId>, newborn: set<LvId>) {
    && Ready(h) && |s| == |h| + |org|
    && (forall k :: 0 <= k < |org| ==>
        org[k] < |h| && h[org[k]].sym == Some(p.popd) && s[org[k]].copied == Some(|h| + k))
    && (forall i: LvId {:trigger PoppedOk(h, s, org, p, newborn, i)} ::
          i < |h| && h[i].sym == Some(p.popd) ==> PoppedOk(h, s, org, p, newborn, i))
    && (forall j: LvId {:trigger SlotOk(h, s, org, p, gray, j)} ::
          j < |s| && (j >= |h| || h[j].sym != Some(p.popd)) ==> SlotOk(h, s, org, p, gray, j))
  }

  /** What later steps never take back. */
  ghost predicate Later(s: seq<LvVal>, s': seq<LvVal>, p: Pop) {
    && |s| <= |s'|
    && (forall i: LvId :: i < |s| ==> s'[i].sym == s[i].sym)
    && (forall i: LvId :: i < |s| && s[i].copied.Some? ==> s'[i].copied == s[i].copied)
    && (forall i: LvId :: i < |s| && s[i].sym != Some(p.popd) ==> s'[i].copied == s[i].copied)
    && (forall i: LvId :: Visited(s, p, i) ==> Visited(s', p, i))
  }

  /** A settled container stays settled, at the same slot. */
  lemma {:induction false} SettledLater(s: seq<LvVal>, s': seq<LvVal>, p: Pop, t: Tree, n: nat)
    requires Later(s, s', p) && Settled(s, p, t) && InRange(t, n) && n <= |s|
    ensures Settled(s', p, t) && ForwardTree(s', t) == ForwardTree(s, t)
  {
    if t.Node? {
      SettledLater(s, s', p, t.left, n);
      SettledLater(s, s', p, t.right, n);
      SettledLater(s, s', p, t.child, n);
    }
  }

  /** A slot that a later heap leaves alone stays as it should be. */
  lemma SlotOkLater(h: seq<LvVal>, s: seq<LvVal>, s': seq<LvVal>, org: seq<LvId>, org': seq<LvId>, p: Pop,
                    gray: set<LvId>, gray': set<LvId>, j: LvId)
    requires Ready(h) && Later(s, s', p) && org <= org' && |s| == |h| + |org| && |s'| == |h| + |org'|
    requires j < |s| && Origin(h, org, j) < |h| && SlotOk(h, s, org, p, gray, j)
    requires s'[j] == s[j] && (j in gray <==> j in gray')
    ensures SlotOk(h, s', org', p, gray', j)
  {
    assert Origin(h, org', j) == Origin(h, org, j);
    if s[j].taskCycle == p.cycle && j !in gray && !Stale(h, p, Origin(h, org, j)) {
      SettledLater(s, s', p, h[Origin(h, org, j)].tree, |h|);
    }
  }

  lemma {:induction false} NoContSettled(s: seq<LvVal>, p: Pop, t: Tree)
    requires NoCont(t)
    ensures Settled(s, p, t) && ForwardTree(s, t) == t
  {
    if t.Node? {
      NoContSettled(s, p, t.left);
      NoContSettled(s, p, t.right);
      NoContSettled(s, p, t.child);
    }
  }

  /** Steps still ahead: an uncopied popped slot costs two, an unstamped surviving one costs one. */
  ghost function Work(s: seq<LvVal>, p: Pop): nat {
    if s == [] then 0 else Work(s[..|s| - 1], p) + SlotWork(s[|s| - 1], p)
  }

  ghost function SlotWork(x: LvVal, p: Pop): nat {
    if x.sym == Some(p.popd) then (if x.copied.Some? then 0 else 2)
    else if x.taskCycle == p.cycle then 0 else 1
  }

  lemma {:induction false} WorkUpdate(s: seq<LvVal>, i: nat, x: LvVal, p: Pop)
    requires i < |s|
    ensures Work(s[i := x], p) == Work(s, p) + SlotWork(x, p) - SlotWork(s[i], p)
  {
    var last := |s| - 1;
    if i == last {
      assert s[i := x][..last] == s[..last];
    } else {
      WorkUpdate(s[..last], i, x, p);
      assert s[i := x][..last] == s[..last][i := x];
    }
  }

  lemma SymKept(h: seq<LvVal>, s: seq<LvVal>, org: seq<LvId>, p: Pop, gray: set<LvId>, newborn: set<LvId>, i: LvId)
    requires Inv(h, s, org, p, gray, newborn) && i < |h|
    ensures s[i].sym == Some(p.popd) <==> h[i].sym == Some(p.popd)
  {
    assert if h[i].sym == Some(p.popd) then PoppedOk(h, s, org, p, newborn, i) else SlotOk(h, s, org, p, gray, i);
  }

  /** Copying popped slot `v` out and leaving a forwarding pointer. */
  ghost function Cloned(s: seq<LvVal>, p: Pop, v: LvId): seq<LvVal>
    requires v < |s|
  {
    s[v := s[v].(copied := Some(|s|), tree := Leaf)] + [s[v].(sym := Some(p.cur))]
  }

  lemma CloneSlot(h: seq<LvVal>, s: seq<LvVal>, org: seq<LvId>, p: Pop, gray: set<LvId>, v: LvId, j: LvId)
    requires Inv(h, s, org, p, gray, {}) && p.popd != p.cur && |s| !in gray
    requires v < |h| && s[v].sym == Some(p.popd) && s[v].copied.None? && h[v].sym == Some(p.popd)
    requires Later(s, Cloned(s, p, v), p)
    requires j < |s| + 1 && (j >= |h| || h[j].sym != Some(p.popd))
    ensures SlotOk(h, Cloned(s, p, v), org + [v], p, gray, j)
  {
    var s', org' := Cloned(s, p, v), org + [v];
    if j < |s| {
      assert SlotOk(h, s, org, p, gray, j);
      SlotOkLater(h, s, s', org, org', p, gray, gray, j);
    } else {
      assert Origin(h, org', j) == v && PoppedOk(h, s, org, p, {}, v);
    }
  }

  lemma CloneWork(s: seq<LvVal>, p: Pop, v: LvId)
    requires v < |s| && s[v].sym == Some(p.popd) && s[v].copied.None? && p.popd != p.cur
    ensures Work(Cloned(s, p, v), p) < Work(s, p)
  {
    var s' := Cloned(s, p, v);
    WorkUpdate(s, v, s'[v], p);
    assert s'[..|s|] == s[v := s'[v]];
  }

  lemma CloneLater(s: seq<LvVal>, p: Pop, v: LvId)
    requires v < |s| && s[v].sym == Some(p.popd) && s[v].copied.None?
    ensures Later(s, Cloned(s, p, v), p)
  {
    var s' := Cloned(s, p, v);
    assert forall i: LvId :: i < |s| && i != v ==> s'[i] == s[i];
  }

  lemma ClonePopped(h: seq<LvVal>, s: seq<LvVal>, org: seq<LvId>, p: Pop, gray: set<LvId>, v: LvId, i: LvId)
    requires Inv(h, s, org, p, gray, {}) && v < |h| && s[v].sym == Some(p.popd) && s[v].copied.None?
    requires h[v].sym == Some(p.popd) && i < |h| && h[i].sym == Some(p.popd) && Later(s, Cloned(s, p, v), p)
    ensures PoppedOk(h, Cloned(s, p, v), org + [v], p, {|s|}, i)
  {
    assert PoppedOk(h, s, org, p, {}, i);
  }

  lemma CloneInv(h: seq<LvVal>, s: seq<LvVal>, org: seq<LvId>, p: Pop, gray: set<LvId>, v: LvId)
    requires Inv(h, s, org, p, gray, {}) && p.popd != p.cur && |s| !in gray
    requires v < |h| && s[v].sym == Some(p.popd) && s[v].copied.None?
    ensures Inv(h, Cloned(s, p, v), org + [v], p, gray, {|s|})
    ensures Later(s, Cloned(s, p, v), p)
    ensures Work(Cloned(s, p, v), p) < Work(s, p)
  {
    var s', org' := Cloned(s, p, v), org + [v];
    CloneWork(s, p, v);
    SymKept(h, s, org, p, gray, {}, v);
    CloneLater(s, p, v);
    assert PoppedOk(h, s, org, p, {}, v);
    forall j: LvId | j < |s'| && (j >= |h| || h[j].sym != Some(p.popd))
      ensures SlotOk(h, s', org', p, gray, j)
    {
      CloneSlot(h, s, org, p, gray, v, j);
    }
    forall i: LvId | i < |h| && h[i].sym == Some(p.popd) ensures PoppedOk(h, s', org', p, {|s|}, i) {
      ClonePopped(h, s, org, p, gray, v, i);
    }
  }

  ghost predicate AllGray(s: seq<LvVal>, p: Pop, gray: set<LvId>) {
    forall g :: g in gray ==> g < |s| && s[g].sym != Some(p.popd) && s[g].taskCycle == p.cycle
  }

  /** One stretch of the scan: nothing is taken back, no work is added, gray trees are left alone. */
  ghost predicate Progress(s: seq<LvVal>, s': seq<LvVal>, p: Pop, gray: set<LvId>) {
    && Later(s, s', p) && Work(s', p) <= Work(s, p)
    && (forall g :: g in gray && g < |s| && s[g].taskCycle == p.cycle ==>
          s'[g].taskCycle == p.cycle && s'[g].tree == s[g].tree)
  }

  lemma ProgressTrans(a: seq<LvVal>, b: seq<LvVal>, c: seq<LvVal>, p: Pop, gray: set<LvId>)
    requires Progress(a, b, p, gray) && Progress(b, c, p, gray)
    ensures Progress(a, c, p, gray)
  {
  }

  /** The four parts of a node redirected one after another. */
  lemma TreeDone(t: Tree, left: Tree, cont: Option<LvId>, child: Tree, right: Tree, s0: seq<LvVal>, s1: seq<LvVal>,
                 s2: seq<LvVal>,
                 s3: seq<LvVal>, s4: seq<LvVal>, p: Pop, gray: set<LvId>, n: nat)
    requires t.Node? && InRange(t, n) && n <= |s0|
    requires Progress(s0, s1, p, gray) && Progress(s1, s2, p, gray) && Progress(s2, s3, p, gray)
    requires Progress(s3, s4, p, gray)
    requires Settled(s1, p, t.left) && left == ForwardTree(s1, t.left)
    requires ContSettled(s2, p, t.cont) && cont == ForwardOpt(s2, t.cont)
    requires Settled(s3, p, t.child) && child == ForwardTree(s3, t.child)
    requires Settled(s4, p, t.right) && right == ForwardTree(s4, t.right)
    ensures Progress(s0, s4, p, gray) && Settled(s4, p, t)
    ensures Node(left, right, t.value, cont, child) == ForwardTree(s4, t)
  {
    ProgressTrans(s2, s3, s4, p, gray);
    ProgressTrans(s1, s2, s4, p, gray);
    ProgressTrans(s0, s1, s4, p, gray);
    SettledLater(s1, s4, p, t.left, n);
    SettledLater(s3, s4, p, t.child, n);
    ContSettledLater(s2, s4, p, t.cont, n);
  }

  lemma ContSettledLater(s: seq<LvVal>, s': seq<LvVal>, p: Pop, c: Option<LvId>, n: nat)
    requires Later(s, s', p) && ContSettled(s, p, c) && n <= |s| && (c.Some? ==> c.value < n)
    ensures ContSettled(s', p, c) && ForwardOpt(s', c) == ForwardOpt(s, c)
  {
  }

  lemma StampPopped(h: seq<LvVal>, s: seq<LvVal>, org: seq<LvId>, p: Pop, gray: set<LvId>, newborn: set<LvId>, b: LvId,
                    i: LvId)
    requires Inv(h, s, org, p, gray, newborn) && newborn <= {b} && b < |s| && s[b].sym != Some(p.popd)
    requires (b >= |h| || h[b].sym != Some(p.popd)) && i < |h| && h[i].sym == Some(p.popd)
    ensures PoppedOk(h, s[b := s[b].(taskCycle := p.cycle)], org, p, {}, i)
  {
    assert PoppedOk(h, s, org, p, newborn, i);
  }

  /** Stamping a slot before its tree is scanned turns it gray. */
  lemma StampInv(h: seq<LvVal>, s: seq<LvVal>, org: seq<LvId>, p: Pop, gray: set<LvId>, newborn: set<LvId>, b: LvId)
    requires Inv(h, s, org, p, gray, newborn) && newborn <= {b}
    requires b < |s| && (b >= |h| || h[b].sym != Some(p.popd)) && s[b].taskCycle != p.cycle
    ensures Inv(h, s[b := s[b].(taskCycle := p.cycle)], org, p, gray + {b}, {})
    ensures Later(s, s[b := s[b].(taskCycle := p.cycle)], p)
    ensures Work(s[b := s[b].(taskCycle := p.cycle)], p) == Work(s, p) - 1
  {
    var s' := s[b := s[b].(taskCycle := p.cycle)];
    assert SlotOk(h, s, org, p, gray, b);
    WorkUpdate(s, b, s'[b], p);
    forall j: LvId | j < |s'| && (j >= |h| || h[j].sym != Some(p.popd)) ensures SlotOk(h, s', org, p, gray + {b}, j) {
      assert SlotOk(h, s, org, p, gray, j);
      if j != b {
        SlotOkLater(h, s, s', org, org, p, gray, gray + {b}, j);
      }
    }
    forall i: LvId | i < |h| && h[i].sym == Some(p.popd) ensures PoppedOk(h, s', org, p, {}, i) {
      StampPopped(h, s, org, p, gray, newborn, b, i);
    }
  }

  lemma NewbornMore(h: seq<LvVal>, s: seq<LvVal>, org: seq<LvId>, p: Pop, gray: set<LvId>, b: LvId)
    requires Inv(h, s, org, p, gray, {}) || Inv(h, s, org, p, gray, {b})
    ensures Inv(h, s, org, p, gray, {b})
  {
    if Inv(h, s, org, p, gray, {}) {
      forall i: LvId | i < |h| && h[i].sym == Some(p.popd) ensures PoppedOk(h, s, org, p, {b}, i) {
        assert PoppedOk(h, s, org, p, {}, i);
      }
    }
  }

  lemma NewbornDone(h: seq<LvVal>, s: seq<LvVal>, org: seq<LvId>, p: Pop, gray: set<LvId>, b: LvId)
    requires Inv(h, s, org, p, gray, {b}) && Visited(s, p, b)
    ensures Inv(h, s, org, p, gray, {})
  {
    forall i: LvId | i < |h| && h[i].sym == Some(p.popd) ensures PoppedOk(h, s, org, p, {}, i) {
      assert PoppedOk(h, s, org, p, {b}, i);
    }
  }

  lemma FinishSlot(h: seq<LvVal>, s: seq<LvVal>, org: seq<LvId>, p: Pop, gray: set<LvId>, b: LvId, t: Tree, j: LvId)
    requires Inv(h, s, org, p, gray + {b}, {}) && b !in gray
    requires b < |s| && (b >= |h| || h[b].sym != Some(p.popd)) && s[b].taskCycle == p.cycle
    requires !Stale(h, p, Origin(h, org, b))
    requires Settled(s, p, s[b].tree) && t == ForwardTree(s, s[b].tree)
    requires j < |s| && (j >= |h| || h[j].sym != Some(p.popd))
    ensures SlotOk(h, s[b := s[b].(tree := t)], org, p, gray, j)
  {
    var s' := s[b := s[b].(tree := t)];
    assert SlotOk(h, s, org, p, gray + {b}, j);
    if j != b {
      SlotOkLater(h, s, s', org, org, p, gray + {b}, gray, j);
    } else {
      SettledLater(s, s', p, h[Origin(h, org, b)].tree, |h|);
    }
  }

  lemma FinishPopped(h: seq<LvVal>, s: seq<LvVal>, org: seq<LvId>, p: Pop, gray: set<LvId>, b: LvId, t: Tree, i: LvId)
    requires Inv(h, s, org, p, gray, {}) && b < |s| && (b >= |h| || h[b].sym != Some(p.popd))
    requires s[b].taskCycle == p.cycle
    requires i < |h| && h[i].sym == Some(p.popd)
    ensures PoppedOk(h, s[b := s[b].(tree := t)], org, p, {}, i)
  {
    assert PoppedOk(h, s, org, p, {}, i);
  }

  /** Storing the redirected tree of a gray slot finishes it. */
  lemma FinishInv(h: seq<LvVal>, s: seq<LvVal>, org: seq<LvId>, p: Pop, gray: set<LvId>, b: LvId, t: Tree)
    requires Inv(h, s, org, p, gray + {b}, {}) && b !in gray
    requires b < |s| && (b >= |h| || h[b].sym != Some(p.popd)) && s[b].taskCycle == p.cycle
    requires !Stale(h, p, Origin(h, org, b))
    requires Settled(s, p, s[b].tree) && t == ForwardTree(s, s[b].tree)
    ensures Inv(h, s[b := s[b].(tree := t)], org, p, gray, {})
    ensures Later(s, s[b := s[b].(tree := t)], p)
    ensures Work(s[b := s[b].(tree := t)], p) == Work(s, p)
  {
    var s' := s[b := s[b].(tree := t)];
    WorkUpdate(s, b, s'[b], p);
    forall j: LvId | j < |s'| && (j >= |h| || h[j].sym != Some(p.popd)) ensures SlotOk(h, s', org, p, gray, j) {
      FinishSlot(h, s, org, p, gray, b, t, j);
    }
    forall i: LvId | i < |h| && h[i].sym == Some(p.popd) ensures PoppedOk(h, s', org, p, {}, i) {
      FinishPopped(h, s, org, p, gray + {b}, b, t, i);
    }
  }

  /** Before the scan of slot `b`: it is stamped and gray. */
  lemma ScanStart(h: seq<LvVal>, s: seq<LvVal>, org: seq<LvId>, p: Pop, gray: set<LvId>, b: LvId)
    requires Inv(h, s, org, p, gray, {b}) && AllGray(s, p, gray)
    requires b < |s| && (b >= |h| || h[b].sym != Some(p.popd)) && s[b].taskCycle != p.cycle
    ensures var s' := s[b := s[b].(taskCycle := p.cycle)];
            && Inv(h, s', org, p, gray + {b}, {}) && Progress(s, s', p, gray) && Work(s', p) < Work(s, p)
            && AllGray(s', p, gray + {b})
    ensures var o := Origin(h, org, b); o < |h| && !Stale(h, p, o) && s[b].tree == h[o].tree && InRange(s[b].tree, |h|)
  {
    assert SlotOk(h, s, org, p, gray, b);
    StampInv(h, s, org, p, gray, {b}, b);
  }

  /** A copy stands for the same slot ever after. */
  lemma OriginKept(h: seq<LvVal>, s: seq<LvVal>, s': seq<LvVal>, org: seq<LvId>, org': seq<LvId>, p: Pop,
                   gray: set<LvId>, j: LvId)
    requires Inv(h, s, org, p, gray, {}) && Inv(h, s', org', p, gray, {}) && Later(s, s', p) && j < |s|
    ensures Origin(h, org', j) == Origin(h, org, j)
  {
    if j >= |h| {
      var i := org[j - |h|];
      assert s'[i].copied == Some(j);
      assert PoppedOk(h, s', org', p, {}, i);
    }
  }

  /** After it: the slot holds its redirected tree. */
  lemma ScanEnd(h: seq<LvVal>, s0: seq<LvVal>, s1: seq<LvVal>, s2: seq<LvVal>, org1: seq<LvId>, org2: seq<LvId>, p: Pop,
                gray: set<LvId>, b: LvId, t: Tree)
    requires b < |s0| && (b >= |h| || h[b].sym != Some(p.popd)) && s0[b].taskCycle != p.cycle && AllGray(s0, p, gray)
    requires s1 == s0[b := s0[b].(taskCycle := p.cycle)] && Progress(s0, s1, p, gray) && Progress(s1, s2, p, gray + {b})
    requires Inv(h, s1, org1, p, gray + {b}, {}) && Inv(h, s2, org2, p, gray + {b}, {})
    requires !Stale(h, p, Origin(h, org1, b))
    requires Settled(s2, p, s1[b].tree) && t == ForwardTree(s2, s1[b].tree)
    ensures var s3 := s2[b := s2[b].(tree := t)];
            Inv(h, s3, org2, p, gray, {}) && Progress(s0, s3, p, gray) && Visited(s3, p, b) && AllGray(s3, p, gray)
  {
    var s3 := s2[b := s2[b].(tree := t)];
    OriginKept(h, s1, s2, org1, org2, p, gray + {b}, b);
    assert SlotOk(h, s2, org2, p, gray + {b}, b);
    FinishInv(h, s2, org2, p, gray, b, t);
    assert Progress(s1, s2, p, gray);
    assert Progress(s2, s3, p, gray);
    ProgressTrans(s1, s2, s3, p, gray);
    ProgressTrans(s0, s1, s3, p, gray);
  }

  /** A slot whose redirection is settled keeps it. */
  lemma KeepForward(h: seq<LvVal>, s: seq<LvVal>, s': seq<LvVal>, p: Pop, v: LvId)
    requires Later(s, s', p) && v < |h| <= |s| && Visited(s, p, Forward(s, v))
    ensures Forward(s', v) == Forward(s, v) && Visited(s', p, Forward(s', v))
  {
  }

  lemma KeepForwards(h: seq<LvVal>, s: seq<LvVal>, s': seq<LvVal>, p: Pop, vs: seq<LvId>)
    requires Later(s, s', p) && |h| <= |s|
    requires forall k :: 0 <= k < |vs| ==> vs[k] < |h| && Visited(s, p, Forward(s, vs[k]))
    ensures forall k :: 0 <= k < |vs| ==> Forward(s', vs[k]) == Forward(s, vs[k]) && Visited(s', p, Forward(s', vs[k]))
  {
    forall k | 0 <= k < |vs| ensures Forward(s', vs[k]) == Forward(s, vs[k]) && Visited(s', p, Forward(s', vs[k])) {
      KeepForward(h, s, s', p, vs[k]);
    }
  }

  // ---- What the finished pass means ------------------------------------------------------------

  /** Redirection never merges two slots, and no popped slot is copied twice. */
  lemma ForwardInjective(h: seq<LvVal>, s: seq<LvVal>, org: seq<LvId>, p: Pop, gray: set<LvId>, u: LvId, v: LvId)
    requires Inv(h, s, org, p, gray, {}) && u < |h| && v < |h|
    ensures Forward(s, u) == Forward(s, v) <==> u == v
    ensures forall j, k :: 0 <= j < k < |org| ==> org[j] != org[k]
  {
    forall w: LvId | w < |h|
      ensures if h[w].sym == Some(p.popd) then PoppedOk(h, s, org, p, {}, w) else s[w].copied.None?
    {
      if h[w].sym != Some(p.popd) {
        assert SlotOk(h, s, org, p, gray, w);
      }
    }
  }

  lemma {:induction false} SettledTarget(s: seq<LvVal>, p: Pop, t: Tree, v: LvId)
    requires Settled(s, p, t) && Refs(t, v) > 0
    ensures Visited(s, p, Forward(s, v))
  {
    if Refs(t.left, v) > 0 {
      SettledTarget(s, p, t.left, v);
    } else if Refs(t.right, v) > 0 {
      SettledTarget(s, p, t.right, v);
    } else if Refs(t.child, v) > 0 {
      SettledTarget(s, p, t.child, v);
    }
  }

  /** The containers of a redirected tree are the redirected containers of the original. */
  lemma {:induction false} ForwardTreeTarget(s: seq<LvVal>, t: Tree, v: LvId) returns (u: LvId)
    requires Refs(ForwardTree(s, t), v) > 0
    ensures Refs(t, u) > 0 && Forward(s, u) == v
  {
    if Refs(ForwardTree(s, t.left), v) > 0 {
      u := ForwardTreeTarget(s, t.left, v);
    } else if Refs(ForwardTree(s, t.right), v) > 0 {
      u := ForwardTreeTarget(s, t.right, v);
    } else if Refs(ForwardTree(s, t.child), v) > 0 {
      u := ForwardTreeTarget(s, t.child, v);
    } else {
      u := t.cont.value;
    }
  }

  /** A visited slot holds its original's value and redirected tree, all of it settled, unless it was stale. */
  lemma VisitedDone(h: seq<LvVal>, s: seq<LvVal>, org: seq<LvId>, p: Pop, j: LvId)
    requires Inv(h, s, org, p, {}, {}) && Visited(s, p, j)
    ensures Origin(h, org, j) < |h|
    ensures s[j].value == h[Origin(h, org, j)].value
    ensures if Stale(h, p, Origin(h, org, j)) then s[j].tree == h[Origin(h, org, j)].tree
            else s[j].tree == ForwardTree(s, h[Origin(h, org, j)].tree) && Settled(s, p, h[Origin(h, org, j)].tree)
  {
    if j < |h| && h[j].sym == Some(p.popd) {
      assert PoppedOk(h, s, org, p, {}, j);
    }
    assert SlotOk(h, s, org, p, {}, j);
    if s[j].taskCycle != p.cycle {
      NoContSettled(s, p, h[Origin(h, org, j)].tree);
    }
  }

  /** The heap as the pass sees it: it does not look into stale slots. */
  ghost function Sighted(h: seq<LvVal>, p: Pop): (r: seq<LvVal>)
    ensures |r| == |h| && forall i :: 0 <= i < |h| ==>
      r[i] == if h[i].taskCycle == p.cycle then h[i].(tree := Leaf) else h[i]
  {
    seq(|h|, i requires 0 <= i < |h| => if h[i].taskCycle == p.cycle then h[i].(tree := Leaf) else h[i])
  }

  /** The pop preserves the graph: whatever the pass sees from `roots` is, after redirection, in a
      surviving table, with its value and, unless stale, with its containers redirected one for one. */
  lemma {:induction false} PopIsomorphism(h: seq<LvVal>, s: seq<LvVal>, org: seq<LvId>, p: Pop, roots: set<LvId>,
                                          path: seq<LvId>, v: LvId)
    requires Inv(h, s, org, p, {}, {})
    requires forall r :: r in roots ==> r < |h| && Visited(s, p, Forward(s, r))
    requires PathTo(Sighted(h, p), roots, path, v)
    ensures Visited(s, p, Forward(s, v)) && Origin(h, org, Forward(s, v)) == v
    ensures Carried(h, s, p, v)
    decreases |path|
  {
    if |path| > 1 {
      var q := path[..|path| - 1];
      var u := q[|q| - 1];
      assert PathTo(Sighted(h, p), roots, q, u);
      PopIsomorphism(h, s, org, p, roots, q, u);
      VisitedDone(h, s, org, p, Forward(s, u));
      SettledTarget(s, p, h[u].tree, v);
    }
    VisitedDone(h, s, org, p, Forward(s, v));
    if h[v].sym == Some(p.popd) {
      assert PoppedOk(h, s, org, p, {}, v) && SlotOk(h, s, org, p, {}, Forward(s, v));
    } else {
      assert SlotOk(h, s, org, p, {}, v);
    }
  }

  /** Slot `u` leads straight to popped slot `w`. */
  ghost predicate LeadsIn(h: seq<LvVal>, p: Pop, u: LvId, w: LvId)
    requires u < |h|
  {
    w < |h| && h[w].sym == Some(p.popd) && Refs(h[u].tree, w) > 0
  }

  /** The pass has stamped only what it sees from its roots. */
  ghost predicate StampsSeen(h: seq<LvVal>, s: seq<LvVal>, p: Pop, seen: set<LvId>) {
    |h| <= |s| && forall j: LvId :: j < |h| && s[j].taskCycle == p.cycle && h[j].taskCycle != p.cycle ==> j in seen
  }

  /** Whatever of a surviving table or of a slot to be copied leads into the popped table, the pass sees
      and does not take for visited. */
  ghost predicate PointersSeen(h: seq<LvVal>, p: Pop, seen: set<LvId>) {
    forall u: LvId, w: LvId :: u < |h| && LeadsIn(h, p, u, w) && (h[u].sym != Some(p.popd) || u in seen) ==>
      u in seen && !Stale(h, p, u)
  }

  /** Slot `j` of the heap after the pass does not lead into the popped table. */
  ghost predicate LeadsNowhere(s: seq<LvVal>, p: Pop, j: LvId)
    requires j < |s|
  {
    forall v: LvId :: Refs(s[j].tree, v) > 0 ==> v < |s| && s[v].sym != Some(p.popd)
  }

  /** No slot of a surviving table leads into the popped one. */
  ghost predicate NoPointerIn(s: seq<LvVal>, p: Pop) {
    forall j: LvId :: j < |s| && s[j].sym != Some(p.popd) ==> LeadsNowhere(s, p, j)
  }

  /** `v` is in a surviving table now, with its value and its containers redirected one for one; a stale
      slot's containers are as they were. */
  ghost predicate Carried(h: seq<LvVal>, s: seq<LvVal>, p: Pop, v: LvId)
    requires v < |h|
  {
    Forward(s, v) < |s| && var x := s[Forward(s, v)];
    && x.sym == (if h[v].sym == Some(p.popd) then Some(p.cur) else h[v].sym) && x.sym != Some(p.popd)
    && x == h[v].(sym := x.sym, taskCycle := x.taskCycle, tree := x.tree)
    && x.tree == if Stale(h, p, v) then h[v].tree else ForwardTree(s, h[v].tree)
  }

  /** A visited slot that is not stale leads to surviving slots. */
  lemma VisitedLeadsNowhere(h: seq<LvVal>, s: seq<LvVal>, org: seq<LvId>, p: Pop, j: LvId)
    requires Inv(h, s, org, p, {}, {}) && Visited(s, p, j) && !Stale(h, p, Origin(h, org, j))
    ensures LeadsNowhere(s, p, j)
  {
    VisitedDone(h, s, org, p, j);
    forall v: LvId | Refs(s[j].tree, v) > 0 ensures v < |s| && s[v].sym != Some(p.popd) {
      var u := ForwardTreeTarget(s, h[Origin(h, org, j)].tree, v);
      SettledTarget(s, p, h[Origin(h, org, j)].tree, u);
    }
  }

  /** A slot with its old tree leads into the popped table exactly when it did. */
  lemma UnchangedLeads(h: seq<LvVal>, s: seq<LvVal>, org: seq<LvId>, p: Pop, j: LvId, u: LvId)
    requires Inv(h, s, org, p, {}, {}) && j < |s| && u < |h| && s[j].tree == h[u].tree
    ensures LeadsNowhere(s, p, j) <==> forall w: LvId :: !LeadsIn(h, p, u, w)
  {
    forall w: LvId | Refs(h[u].tree, w) > 0 ensures LeadsIn(h, p, u, w) <==> !(w < |s| && s[w].sym != Some(p.popd)) {
      InRangeRefs(h[u].tree, |h|, w);
      SymKept(h, s, org, p, {}, {}, w);
    }
  }

  /** A copy stands for a slot that was seen, and leads nowhere if every pointer was. */
  lemma SurvivorLeadsNowhere(h: seq<LvVal>, s: seq<LvVal>, org: seq<LvId>, p: Pop, seen: set<LvId>, j: LvId)
    requires Inv(h, s, org, p, {}, {}) && (forall k :: 0 <= k < |org| ==> org[k] in seen)
    requires PointersSeen(h, p, seen) && forall v :: v in seen && v < |h| ==> Visited(s, p, Forward(s, v))
    requires j < |s| && s[j].sym != Some(p.popd)
    ensures LeadsNowhere(s, p, j)
  {
    if j < |h| {
      SymKept(h, s, org, p, {}, {}, j);
    }
    assert SlotOk(h, s, org, p, {}, j);
    var o := Origin(h, org, j);
    if Visited(s, p, j) && !Stale(h, p, o) {
      VisitedLeadsNowhere(h, s, org, p, j);
    } else if s[j].tree == h[o].tree {
      UnchangedLeads(h, s, org, p, j, o);
      forall w: LvId ensures !LeadsIn(h, p, o, w) {
        if LeadsIn(h, p, o, w) {
          SeenIsVisited(h, s, org, p, seen, o, j);
        }
      }
    }
  }

  /** A surviving slot that leads into the popped table and was not redirected was not seen, or stale. */
  lemma SeenIsVisited(h: seq<LvVal>, s: seq<LvVal>, org: seq<LvId>, p: Pop, seen: set<LvId>, o: LvId, j: LvId)
    requires Inv(h, s, org, p, {}, {}) && j < |s| && s[j].sym != Some(p.popd) && o == Origin(h, org, j)
    requires forall v :: v in seen && v < |h| ==> Visited(s, p, Forward(s, v))
    requires o in seen && o < |h| && !Stale(h, p, o)
    ensures Visited(s, p, j)
  {
    if j >= |h| {
      CopyVisited(h, s, org, p, j);
    } else {
      SymKept(h, s, org, p, {}, {}, j);
      assert SlotOk(h, s, org, p, {}, j);
    }
  }

  /** A pointer that the pass did not see, or that a stale slot holds, still leads into the popped table. */
  lemma MissedStays(h: seq<LvVal>, s: seq<LvVal>, org: seq<LvId>, p: Pop, seen: set<LvId>, u: LvId, w: LvId)
    requires Inv(h, s, org, p, {}, {}) && StampsSeen(h, s, p, seen)
    requires forall v :: v in seen && v < |h| ==> Carried(h, s, p, v)
    requires u < |h| && LeadsIn(h, p, u, w) && (h[u].sym != Some(p.popd) || u in seen)
    requires !(u in seen && !Stale(h, p, u))
    ensures !NoPointerIn(s, p)
  {
    if u in seen {
      UnchangedLeads(h, s, org, p, Forward(s, u), u);
    } else {
      SymKept(h, s, org, p, {}, {}, u);
      assert SlotOk(h, s, org, p, {}, u);
      UnchangedLeads(h, s, org, p, u, u);
    }
  }

  /** Every copy has been visited. */
  lemma CopyVisited(h: seq<LvVal>, s: seq<LvVal>, org: seq<LvId>, p: Pop, j: LvId)
    requires Inv(h, s, org, p, {}, {}) && |h| <= j < |s|
    ensures Visited(s, p, j)
  {
    assert PoppedOk(h, s, org, p, {}, org[j - |h|]);
  }

  lemma {:induction false} InRangeRefs(t: Tree, n: nat, v: LvId)
    requires InRange(t, n) && Refs(t, v) > 0
    ensures v < n
  {
    if Refs(t.left, v) > 0 {
      InRangeRefs(t.left, n, v);
    } else if Refs(t.right, v) > 0 {
      InRangeRefs(t.right, n, v);
    } else if Refs(t.child, v) > 0 {
      InRangeRefs(t.child, n, v);
    }
  }

  /** A variable passed through the exclusive NEW; `prevStays` is what the count test says of the
      slot its name had before the NEW. */
  datatype XnewVar = XnewVar(key: string, prevStays: bool)

  /** A slot recorded because a passed variable could reach it, with the outcome of its count test. */
  datatype XnewRef = XnewRef(lvval: LvId, stays: bool)

  /** The first `n` passed names have their new slots, the other names their old ones. */
  ghost predicate Returned(vars: seq<XnewVar>, cached: seq<LvId>, n: nat, tab0: map<string, LvId>,
                           tab: map<string, LvId>, s: seq<LvVal>, p: Pop)
    requires |cached| == |vars|
  {
    && n <= |vars| && tab.Keys == tab0.Keys && (forall k :: 0 <= k < |vars| ==> vars[k].key in tab)
    && (forall k :: 0 <= k < n ==> tab[vars[k].key] == Forward(s, cached[k]) && Visited(s, p, Forward(s, cached[k])))
    && (forall m :: m in tab && (forall k :: 0 <= k < n ==> vars[k].key != m) ==> tab[m] == tab0[m])
    && (forall k :: 0 <= k < n && vars[k].prevStays ==> Visited(s, p, tab0[vars[k].key]))
  }

  lemma ReturnedNext(vars: seq<XnewVar>, cached: seq<LvId>, n: nat, tab0: map<string, LvId>, tab: map<string, LvId>,
                     tab': map<string, LvId>,
                     h: seq<LvVal>, s: seq<LvVal>, s': seq<LvVal>, p: Pop)
    requires |cached| == |vars| && n < |vars| && Returned(vars, cached, n, tab0, tab, s, p) && Later(s, s', p)
    requires |h| <= |s|
    requires forall j, k :: 0 <= j < k < |vars| ==> vars[j].key != vars[k].key
    requires forall k :: 0 <= k < |vars| ==> cached[k] < |h|
    requires tab' == tab[vars[n].key := Forward(s', cached[n])] && Visited(s', p, Forward(s', cached[n]))
    requires vars[n].prevStays ==> Visited(s', p, tab0[vars[n].key])
    ensures Returned(vars, cached, n + 1, tab0, tab', s', p)
  {
    KeepForwards(h, s, s', p, cached[..n]);
    assert forall k :: 0 <= k < n ==> cached[..n][k] == cached[k];
  }

  /** A passed name: its slots in the two tables. */
  ghost predicate PassedOk(s: seq<LvVal>, key: string, curTab: map<string, LvId>, popdTab: map<string, LvId>,
                           popd: nat) {
    && key in popdTab && popdTab[key] < |s| && s[popdTab[key]].Live()
    && key in curTab && curTab[key] < |s| && s[curTab[key]].Live() && s[curTab[key]].sym != Some(popd)
  }

  /** The roots of the pass: the popped slots of the passed names, their earlier slots and the recorded
      references that stay, and the pending return argument. */
  ghost function PopRoots(vars: seq<XnewVar>, refs: seq<XnewRef>, curTab: map<string, LvId>, popdTab: map<string, LvId>,
                          retarg: Option<LvId>): (r: set<LvId>)
    requires forall k :: 0 <= k < |vars| ==> vars[k].key in popdTab && vars[k].key in curTab
  {
    (set k | 0 <= k < |vars| :: popdTab[vars[k].key]) +
      (set k | 0 <= k < |vars| && vars[k].prevStays :: curTab[vars[k].key])
    + (set k | 0 <= k < |refs| && refs[k].stays :: refs[k].lvval) + (if retarg.Some? then {retarg.value} else {})
  }

  lemma RootsListed(vars: seq<XnewVar>, refs: seq<XnewRef>, curTab: map<string, LvId>, popdTab: map<string, LvId>,
                    retarg: Option<LvId>, roots: set<LvId>)
    requires forall k :: 0 <= k < |vars| ==> vars[k].key in popdTab && vars[k].key in curTab
    requires forall v: LvId :: v in roots <==>
      || (exists k :: 0 <= k < |vars| && popdTab[vars[k].key] == v)
      || (exists k :: 0 <= k < |vars| && vars[k].prevStays && curTab[vars[k].key] == v)
      || (exists k :: 0 <= k < |refs| && refs[k].stays && refs[k].lvval == v)
      || retarg == Some(v)
    ensures roots == PopRoots(vars, refs, curTab, popdTab, retarg)
  {
  }

  /** What the pass sees from its roots. */
  ghost function Seen(h: seq<LvVal>, p: Pop, roots: set<LvId>): (r: set<LvId>)
    ensures forall v :: v in r ==> v < |h|
  {
    Reach(Sighted(h, p), roots)
  }

  /** Every slot stays in its table, and the copies are in the current one. */
  ghost predicate InTables(h: seq<LvVal>, s: seq<LvVal>, p: Pop) {
    |h| <= |s| && forall j: LvId :: j < |s| ==> s[j].sym == if j < |h| then h[j].sym else Some(p.cur)
  }

  /** What survives and is not seen stays as it is. */
  ghost predicate Untouched(h: seq<LvVal>, s: seq<LvVal>, p: Pop, seen: set<LvId>) {
    |h| <= |s| && forall i: LvId :: i < |h| && h[i].sym != Some(p.popd) && i !in seen ==> s[i] == h[i]
  }

  /** What the finished pass means, for the heap `h` at its start. Only what it sees was copied, once each;
      all of that is in surviving tables with its values and containers; and no pointer into the
      popped table is left exactly when the pass saw every one. */
  ghost predicate CarriedOver(h: seq<LvVal>, s: seq<LvVal>, org: seq<LvId>, p: Pop, roots: set<LvId>) {
    && |s| == |h| + |org| && InTables(h, s, p) && Untouched(h, s, p, Seen(h, p, roots))
    && (forall k :: 0 <= k < |org| ==> org[k] in Seen(h, p, roots))
    && (forall j, k :: 0 <= j < k < |org| ==> org[j] != org[k])
    && (forall u: LvId, v: LvId :: u < |h| && v < |h| ==> (Forward(s, u) == Forward(s, v) <==> u == v))
    && (forall v :: v in Seen(h, p, roots) ==> Carried(h, s, p, v))
    && (NoPointerIn(s, p) <==> PointersSeen(h, p, Seen(h, p, roots)))
  }

  /** The same for a heap none of whose slots is taken for visited: everything reachable is carried over,
      and no pointer is left exactly when every surviving slot that had one was reachable. */
  ghost predicate AllCarriedOver(h0: seq<LvVal>, s: seq<LvVal>, org: seq<LvId>, p: Pop, roots: set<LvId>) {
    && (forall k :: 0 <= k < |org| ==> org[k] in Reach(h0, roots))
    && (forall v :: v in Reach(h0, roots) ==> AllCarried(h0, s, p, v))
    && (NoPointerIn(s, p) <==> PointersReached(h0, p, Reach(h0, roots)))
  }

  ghost predicate AllCarried(h0: seq<LvVal>, s: seq<LvVal>, p: Pop, v: LvId)
    requires v < |h0|
  {
    Forward(s, v) < |s| && var x := s[Forward(s, v)];
    && x.sym == (if h0[v].sym == Some(p.popd) then Some(p.cur) else h0[v].sym) && x.sym != Some(p.popd)
    && x == h0[v].(sym := x.sym, taskCycle := x.taskCycle, tree := ForwardTree(s, h0[v].tree))
  }

  /** Whatever of a surviving table leads into the popped one is reached. */
  ghost predicate PointersReached(h0: seq<LvVal>, p: Pop, reached: set<LvId>) {
    forall u: LvId, w: LvId :: u < |h0| && LeadsIn(h0, p, u, w) && h0[u].sym != Some(p.popd) ==> u in reached
  }

  /** A stamp that no slot bears hides nothing. */
  lemma FreshCarriesAll(h0: seq<LvVal>, h: seq<LvVal>, s: seq<LvVal>, org: seq<LvId>, p: Pop, roots: set<LvId>)
    requires StampsOnly(h0, h) && CarriedOver(h, s, org, p, roots) && forall i :: 0 <= i < |h| ==>
      h[i].taskCycle != p.cycle
    ensures AllCarriedOver(h0, s, org, p, roots)
  {
    ReachStamp(h0, h, roots);
    assert Sighted(h, p) == h;
    var r := Reach(h0, roots);
    forall v | v in r ensures AllCarried(h0, s, p, v) {
      assert Carried(h, s, p, v);
    }
    forall u: LvId, w: LvId | u < |h| ensures LeadsIn(h0, p, u, w) <==> LeadsIn(h, p, u, w) {
    }
    assert PointersReached(h0, p, r) <==> PointersSeen(h, p, r);
  }

  /** After the counter has wrapped, an older table's slot that still bears stamp 1 is passed over: its
      container leads into the popped table before and after the pass, though the slot is a root. */
  lemma WrapLeavesPointer(s: seq<LvVal>, org: seq<LvId>)
    ensures var t := Node(Leaf, Leaf, 0, Some(1), Leaf);
            var h := [LvVal(Some(0), 0, t, 2, 0, 1, true, None), LvVal(Some(2), 0, Leaf, 1, 1, 0, false, None)];
            var p := Pop(2, 1, NextCycle(CYCLE_LIMIT - 1));
            && Ready(h) && !StampFresh(h, CYCLE_LIMIT - 1, {}) && PointersReached(h, p, Reach(h, {0}))
            && (CarriedOver(Restamped(h, CYCLE_LIMIT - 1, {}), s, org, p, {0}) ==> !NoPointerIn(s, p))
  {
    var t := Node(Leaf, Leaf, 0, Some(1), Leaf);
    var h := [LvVal(Some(0), 0, t, 2, 0, 1, true, None), LvVal(Some(2), 0, Leaf, 1, 1, 0, false, None)];
    var p := Pop(2, 1, 1);
    ReachRoot(h, {0}, 0);
    assert Restamped(h, CYCLE_LIMIT - 1, {}) == h;
    assert Refs(t, 1) == 1;
    assert LeadsIn(h, p, 0, 1) && Stale(h, p, 0);
  }

  /** What the tables, lists and return argument must be before the pop. */
  ghost predicate Poppable(s: seq<LvVal>, vars: seq<XnewVar>, refs: seq<XnewRef>, curTab: map<string, LvId>,
                           popdTab: map<string, LvId>, retarg: Option<LvId>, p: Pop) {
    && Ready(s) && p.popd != p.cur
    && (forall j, k :: 0 <= j < k < |vars| ==> vars[j].key != vars[k].key)
    && (forall k :: 0 <= k < |vars| ==> vars[k].key in popdTab && vars[k].key in curTab)
    && (forall k :: 0 <= k < |vars| ==> PassedOk(s, vars[k].key, curTab, popdTab, p.popd))
    && (forall k :: 0 <= k < |refs| ==>
        refs[k].lvval < |s| && s[refs[k].lvval].Live() && s[refs[k].lvval].sym != Some(p.popd))
    && (retarg.Some? ==> retarg.value < |s| && s[retarg.value].Live())
  }

  /** The step of the counter leaves that as it is. */
  lemma PoppableStamped(h0: seq<LvVal>, h: seq<LvVal>, vars: seq<XnewVar>, refs: seq<XnewRef>,
                        curTab: map<string, LvId>, popdTab: map<string, LvId>, retarg: Option<LvId>, p: Pop)
    requires StampsOnly(h0, h) && Poppable(h0, vars, refs, curTab, popdTab, retarg, p)
    ensures Poppable(h, vars, refs, curTab, popdTab, retarg, p)
  {
    ReadyStamped(h0, h);
    forall k | 0 <= k < |vars| ensures PassedOk(h, vars[k].key, curTab, popdTab, p.popd) {
      assert PassedOk(h0, vars[k].key, curTab, popdTab, p.popd);
    }
  }

  lemma ReadyStamped(h0: seq<LvVal>, h: seq<LvVal>)
    requires StampsOnly(h0, h) && Ready(h0)
    ensures Ready(h)
  {
  }

  /** The roots are among what they reach. */
  lemma RootsSeen(h: seq<LvVal>, vars: seq<XnewVar>, refs: seq<XnewRef>, curTab: map<string, LvId>,
                  popdTab: map<string, LvId>, retarg: Option<LvId>, p: Pop)
    requires Poppable(h, vars, refs, curTab, popdTab, retarg, p)
    ensures var roots := PopRoots(vars, refs, curTab, popdTab, retarg); roots <= Seen(h, p, roots)
  {
    var roots := PopRoots(vars, refs, curTab, popdTab, retarg);
    forall v | v in roots ensures v in Seen(h, p, roots) {
      ReachRoot(Sighted(h, p), roots, v);
    }
  }

  lemma StartInv(h: seq<LvVal>, p: Pop)
    requires Ready(h)
    ensures Inv(h, h, [], p, {}, {})
  {
  }

  lemma RootsReached(vars: seq<XnewVar>, refs: seq<XnewRef>, curTab: map<string, LvId>, popdTab: map<string, LvId>,
                     retarg: Option<LvId>,
                     reached: set<LvId>)
    requires forall k :: 0 <= k < |vars| ==> vars[k].key in popdTab && vars[k].key in curTab
    requires PopRoots(vars, refs, curTab, popdTab, retarg) <= reached
    ensures forall k :: 0 <= k < |vars| ==>
      popdTab[vars[k].key] in reached && (vars[k].prevStays ==> curTab[vars[k].key] in reached)
    ensures forall k :: 0 <= k < |refs| && refs[k].stays ==> refs[k].lvval in reached
    ensures retarg.Some? ==> retarg.value in reached
  {
    var roots := PopRoots(vars, refs, curTab, popdTab, retarg);
    forall k | 0 <= k < |vars|
      ensures popdTab[vars[k].key] in roots && (vars[k].prevStays ==> curTab[vars[k].key] in roots)
    {
    }
    forall k | 0 <= k < |refs| && refs[k].stays ensures refs[k].lvval in roots {
    }
  }

  /** Steps 4 to 6 have seen to every root. */
  lemma RootsVisited(vars: seq<XnewVar>, refs: seq<XnewRef>, curTab: map<string, LvId>, popdTab: map<string, LvId>,
                     retarg: Option<LvId>,
                     h: seq<LvVal>, s: seq<LvVal>, org: seq<LvId>, p: Pop)
    requires Poppable(h, vars, refs, curTab, popdTab, retarg, p) && Inv(h, s, org, p, {}, {})
    requires forall k :: 0 <= k < |vars| ==> Visited(s, p, Forward(s, popdTab[vars[k].key]))
    requires forall k :: 0 <= k < |vars| && vars[k].prevStays ==> Visited(s, p, curTab[vars[k].key])
    requires forall k :: 0 <= k < |refs| && refs[k].stays ==> Visited(s, p, refs[k].lvval)
    requires retarg.Some? ==> Visited(s, p, Forward(s, retarg.value))
    ensures forall v :: v in PopRoots(vars, refs, curTab, popdTab, retarg) ==> v < |h| && Visited(s, p, Forward(s, v))
  {
    forall k | 0 <= k < |vars| && vars[k].prevStays ensures Visited(s, p, Forward(s, curTab[vars[k].key])) {
      NotForwarded(h, s, org, p, curTab[vars[k].key]);
    }
    forall k | 0 <= k < |refs| && refs[k].stays ensures Visited(s, p, Forward(s, refs[k].lvval)) {
      NotForwarded(h, s, org, p, refs[k].lvval);
    }
  }

  /** A visited slot of a surviving table is not forwarded. */
  lemma NotForwarded(h: seq<LvVal>, s: seq<LvVal>, org: seq<LvId>, p: Pop, v: LvId)
    requires Inv(h, s, org, p, {}, {}) && v < |h| && h[v].sym != Some(p.popd)
    ensures Forward(s, v) == v
  {
    assert SlotOk(h, s, org, p, {}, v);
  }

  /** The invariant of the pass at its end, and its roots seen to: that is what the pass is for. */
  lemma PassDone(h0: seq<LvVal>, h: seq<LvVal>, s: seq<LvVal>, org: seq<LvId>, p: Pop, roots: set<LvId>)
    requires StampsOnly(h0, h) && Inv(h, s, org, p, {}, {}) && StampsSeen(h, s, p, Seen(h, p, roots))
    requires forall v :: v in roots ==> v < |h| && Visited(s, p, Forward(s, v))
    requires forall k :: 0 <= k < |org| ==> org[k] in Seen(h, p, roots)
    ensures CarriedOver(h, s, org, p, roots)
    ensures (forall i :: 0 <= i < |h| ==> h[i].taskCycle != p.cycle) ==> AllCarriedOver(h0, s, org, p, roots)
  {
    forall u: LvId, v: LvId | u < |h| && v < |h| ensures Forward(s, u) == Forward(s, v) <==> u == v {
      ForwardInjective(h, s, org, p, {}, u, v);
    }
    OriginalsDistinct(h, s, org, p);
    TablesKept(h, s, org, p, Seen(h, p, roots));
    forall v | v in Seen(h, p, roots) ensures Visited(s, p, Forward(s, v)) && Carried(h, s, p, v) {
      var path :| PathTo(Sighted(h, p), roots, path, v);
      PopIsomorphism(h, s, org, p, roots, path, v);
    }
    NoPointerLeft(h, s, org, p, Seen(h, p, roots));
    if forall i :: 0 <= i < |h| ==> h[i].taskCycle != p.cycle {
      FreshCarriesAll(h0, h, s, org, p, roots);
    }
  }

  /** Name slot `c` after the pass is in the table it should be in, for a name whose slot was `v`. */
  ghost predicate EndsWell(h0: seq<LvVal>, s: seq<LvVal>, p: Pop, v: LvId, c: LvId) {
    v < |h0| && c < |s| && s[c].sym == if h0[v].sym == Some(p.popd) then Some(p.cur) else h0[v].sym
  }

  lemma EndWell(h0: seq<LvVal>, h: seq<LvVal>, s: seq<LvVal>, p: Pop, vars: seq<XnewVar>, popd0: map<string, LvId>,
                tab: map<string, LvId>, roots: set<LvId>)
    requires StampsOnly(h0, h) && InTables(h, s, p)
    requires forall k :: 0 <= k < |vars| ==> vars[k].key in popd0 && vars[k].key in tab
    requires forall k :: 0 <= k < |vars| ==> popd0[vars[k].key] < |h| && popd0[vars[k].key] in Seen(h, p, roots)
    requires forall k :: 0 <= k < |vars| ==> tab[vars[k].key] == Forward(s, popd0[vars[k].key])
    requires forall v :: v in Seen(h, p, roots) ==> Carried(h, s, p, v)
    ensures forall j :: |h0| <= j < |s| ==> s[j].sym == Some(p.cur)
    ensures forall i :: 0 <= i < |h0| ==> s[i].sym == h0[i].sym
    ensures forall k :: 0 <= k < |vars| ==> EndsWell(h0, s, p, popd0[vars[k].key], tab[vars[k].key])
  {
    forall k | 0 <= k < |vars| ensures EndsWell(h0, s, p, popd0[vars[k].key], tab[vars[k].key]) {
      assert Carried(h, s, p, popd0[vars[k].key]);
    }
  }

  lemma TablesKept(h: seq<LvVal>, s: seq<LvVal>, org: seq<LvId>, p: Pop, seen: set<LvId>)
    requires Inv(h, s, org, p, {}, {}) && StampsSeen(h, s, p, seen)
    ensures InTables(h, s, p) && Untouched(h, s, p, seen)
  {
    forall j: LvId | j < |s| ensures s[j].sym == if j < |h| then h[j].sym else Some(p.cur) {
      if j < |h| && h[j].sym == Some(p.popd) {
        assert PoppedOk(h, s, org, p, {}, j);
      } else {
        assert SlotOk(h, s, org, p, {}, j);
      }
    }
    forall i: LvId | i < |h| && h[i].sym != Some(p.popd) && i !in seen ensures s[i] == h[i] {
      assert SlotOk(h, s, org, p, {}, i);
    }
  }

  lemma OriginalsDistinct(h: seq<LvVal>, s: seq<LvVal>, org: seq<LvId>, p: Pop)
    requires Inv(h, s, org, p, {}, {})
    ensures forall j, k :: 0 <= j < k < |org| ==> org[j] != org[k]
  {
  }

  /** No pointer into the popped table is left exactly when the pass saw every one. */
  lemma NoPointerLeft(h: seq<LvVal>, s: seq<LvVal>, org: seq<LvId>, p: Pop, seen: set<LvId>)
    requires Inv(h, s, org, p, {}, {}) && StampsSeen(h, s, p, seen) && (forall k :: 0 <= k < |org| ==> org[k] in seen)
    requires forall v :: v in seen ==> v < |h| && Visited(s, p, Forward(s, v)) && Carried(h, s, p, v)
    ensures NoPointerIn(s, p) <==> PointersSeen(h, p, seen)
  {
    if PointersSeen(h, p, seen) {
      forall j: LvId | j < |s| && s[j].sym != Some(p.popd) ensures LeadsNowhere(s, p, j) {
        SurvivorLeadsNowhere(h, s, org, p, seen, j);
      }
    } else {
      var u: LvId, w: LvId :| u < |h| && LeadsIn(h, p, u, w) && (h[u].sym != Some(p.popd) || u in seen) &&
        !(u in seen && !Stale(h, p, u));
      MissedStays(h, s, org, p, seen, u, w);
    }
  }

  /** `seen` is closed under the containers of slots that are not stale. */
  ghost predicate SeenAll(h: seq<LvVal>, p: Pop, seen: set<LvId>) {
    forall u: LvId, v: LvId :: u in seen && u < |h| && v < |h| && !Stale(h, p, u) && Refs(h[u].tree, v) > 0 ==>
      v in seen
  }

  /** Only what is seen has been copied or stamped. */
  ghost predicate OnlySeen(h: seq<LvVal>, s: seq<LvVal>, org: seq<LvId>, p: Pop, seen: set<LvId>) {
    SeenAll(h, p, seen) && (forall k :: 0 <= k < |org| ==> org[k] in seen) && StampsSeen(h, s, p, seen)
  }

  /** At the start of the pass. */
  lemma SeenClosed(h: seq<LvVal>, p: Pop, roots: set<LvId>)
    ensures OnlySeen(h, h, [], p, Seen(h, p, roots))
  {
    var seen := Seen(h, p, roots);
    forall u: LvId, v: LvId | u in seen && u < |h| && v < |h| && !Stale(h, p, u) && Refs(h[u].tree, v) > 0
      ensures v in seen
    {
      ReachEdge(Sighted(h, p), roots, u, v);
    }
  }

  lemma OnlySeenClone(h: seq<LvVal>, s: seq<LvVal>, org: seq<LvId>, p: Pop, seen: set<LvId>, v: LvId)
    requires OnlySeen(h, s, org, p, seen) && v < |h| && v in seen
    ensures OnlySeen(h, Cloned(s, p, v), org + [v], p, seen)
  {
  }

  lemma OnlySeenStamp(h: seq<LvVal>, s: seq<LvVal>, org: seq<LvId>, p: Pop, seen: set<LvId>, b: LvId)
    requires OnlySeen(h, s, org, p, seen) && b < |s| && (b < |h| ==> b in seen)
    ensures OnlySeen(h, s[b := s[b].(taskCycle := p.cycle)], org, p, seen)
  {
  }

  lemma OnlySeenTree(h: seq<LvVal>, s: seq<LvVal>, org: seq<LvId>, p: Pop, seen: set<LvId>, b: LvId, t: Tree)
    requires OnlySeen(h, s, org, p, seen) && b < |s|
    ensures OnlySeen(h, s[b := s[b].(tree := t)], org, p, seen)
  {
  }

  /** The containers of a slot that is seen lead to slots that are. */
  lemma ScannedTargets(h: seq<LvVal>, p: Pop, t: Tree, o: LvId, seen: set<LvId>)
    requires SeenAll(h, p, seen) && o in seen && o < |h| && !Stale(h, p, o) && t == h[o].tree && InRange(t, |h|)
    ensures TargetsIn(t, seen)
  {
    forall v: LvId | Refs(t, v) > 0 ensures v in seen {
      InRangeRefs(t, |h|, v);
    }
  }

  lemma PartsIn(t: Tree, r: set<LvId>)
    requires t.Node? && TargetsIn(t, r)
    ensures TargetsIn(t.left, r) && TargetsIn(t.child, r) && TargetsIn(t.right, r)
    ensures (t.cont.Some? ==> t.cont.value in r)
  {
    forall v: LvId | Refs(t.left, v) > 0 || Refs(t.child, v) > 0 || Refs(t.right, v) > 0 || t.cont == Some(v)
      ensures v in r
    {
      assert Refs(t, v) > 0;
    }
  }

  class XnewPopper {
    var lv: seq<LvVal>
    ghost var org: seq<LvId>
    var curTab: map<string, LvId>
    var popdTab: map<string, LvId>
    var aliasRetarg: Option<LvId>
    var lvtaskcycle: nat
    /** What the pass sees from its roots. */
    ghost var reached: set<LvId>

    ghost predicate Sparing(h: seq<LvVal>, p: Pop) reads this {
      OnlySeen(h, lv, org, p, reached)
    }

    /** Slot `j` stands for a slot that is reached. */
    ghost predicate ForReached(h: seq<LvVal>, j: LvId) reads this {
      j < |h| + |org| && Origin(h, org, j) in reached
    }

    /** RESOLV_ALIAS_CNTNRS_IN_TREE: redirect the containers of surviving slot `b`, once. */
    method ResolvTree(b: LvId, p: Pop, ghost h: seq<LvVal>, ghost gray: set<LvId>)
      requires (Inv(h, lv, org, p, gray, {}) || Inv(h, lv, org, p, gray, {b})) && p.popd != p.cur
      requires AllGray(lv, p, gray)
      requires b < |lv| && (b >= |h| || h[b].sym != Some(p.popd)) && Sparing(h, p) && ForReached(h, b)
      modifies this`lv, this`org
      ensures Inv(h, lv, org, p, gray, {}) && Progress(old(lv), lv, p, gray) && AllGray(lv, p, gray)
      ensures Visited(lv, p, b) && Sparing(h, p)
      decreases Work(lv, p), 1, Leaf
    {
      NewbornMore(h, lv, org, p, gray, b);
      assert SlotOk(h, lv, org, p, gray, b);
      if Scans(lv[b], p) {
        ScanTree(b, p, h, gray);
      } else {
        assert Visited(lv, p, b);
        NewbornDone(h, lv, org, p, gray, b);
      }
    }

    /** The scan of a slot that is not yet stamped: it is stamped first. */
    method ScanTree(b: LvId, p: Pop, ghost h: seq<LvVal>, ghost gray: set<LvId>)
      requires Inv(h, lv, org, p, gray, {b}) && p.popd != p.cur && AllGray(lv, p, gray)
      requires b < |lv| && (b >= |h| || h[b].sym != Some(p.popd)) && lv[b].taskCycle != p.cycle
      requires Sparing(h, p) && ForReached(h, b)
      modifies this`lv, this`org
      ensures Inv(h, lv, org, p, gray, {}) && Progress(old(lv), lv, p, gray) && AllGray(lv, p, gray)
      ensures Visited(lv, p, b) && Sparing(h, p)
      decreases Work(lv, p), 0, Leaf
    {
      ScanStart(h, lv, org, p, gray, b);
      ghost var s0, o := lv, Origin(h, org, b);
      lv := lv[b := lv[b].(taskCycle := p.cycle)];
      OnlySeenStamp(h, s0, org, p, reached, b);
      ghost var s1, org1 := lv, org;
      ScannedTargets(h, p, lv[b].tree, o, reached);
      var t := PrcsTree(lv[b].tree, p, h, gray + {b});
      ScanEnd(h, s0, s1, lv, org1, org, p, gray, b, t);
      OnlySeenTree(h, lv, org, p, reached, b, t);
      lv := lv[b := lv[b].(tree := t)];
    }

    /** als_prcs_xnew_alias_cntnr: redirect every container of a tree, in order. */
    method PrcsTree(t: Tree, p: Pop, ghost h: seq<LvVal>, ghost gray: set<LvId>) returns (t': Tree)
      requires Inv(h, lv, org, p, gray, {}) && p.popd != p.cur && AllGray(lv, p, gray)
      requires InRange(t, |h|) && Sparing(h, p) && TargetsIn(t, reached)
      modifies this`lv, this`org
      ensures Inv(h, lv, org, p, gray, {}) && Progress(old(lv), lv, p, gray) && AllGray(lv, p, gray) && Sparing(h, p)
      ensures Settled(lv, p, t) && t' == ForwardTree(lv, t)
      decreases Work(lv, p), 3, t
    {
      if t.Leaf? {
        return Leaf;
      }
      PartsIn(t, reached);
      ghost var s0 := lv;
      var left := PrcsTree(t.left, p, h, gray);
      ghost var s1 := lv;
      var cont := t.cont;
      if t.cont.Some? {
        var c := ResolvCont(t.cont.value, p, h, gray);
        cont := Some(c);
      }
      ghost var s2 := lv;
      var child := PrcsTree(t.child, p, h, gray);
      ghost var s3 := lv;
      var right := PrcsTree(t.right, p, h, gray);
      TreeDone(t, left, cont, child, right, s0, s1, s2, s3, lv, p, gray, |h|);
      t' := Node(left, right, t.value, cont, child);
    }

    /** CLONE_LVVAL: copy a popped slot into the current table and leave the forwarding pointer. */
    method CloneLvval(v: LvId, p: Pop, ghost h: seq<LvVal>, ghost gray: set<LvId>) returns (c: LvId)
      requires Inv(h, lv, org, p, gray, {}) && p.popd != p.cur && AllGray(lv, p, gray)
      requires v < |h| && lv[v].sym == Some(p.popd) && lv[v].copied.None? && Sparing(h, p) && v in reached
      modifies this`lv, this`org
      ensures c == |old(lv)| && |h| <= c && lv == Cloned(old(lv), p, v) && org == old(org) + [v]
      ensures Inv(h, lv, org, p, gray, {c}) && Progress(old(lv), lv, p, gray) && AllGray(lv, p, gray)
      ensures Work(lv, p) < old(Work(lv, p)) && Sparing(h, p)
    {
      c := |lv|;
      CloneInv(h, lv, org, p, gray, v);
      OnlySeenClone(h, lv, org, p, reached, v);
      lv := lv[v := lv[v].(copied := Some(c), tree := Leaf)] + [lv[v].(sym := Some(p.cur))];
      org := org + [v];
    }

    /** The treatment of one reference to slot `v`: follow its forwarding pointer, or copy it out of
        the popped table, or keep it; then see to its tree. */
    method ResolvCont(v: LvId, p: Pop, ghost h: seq<LvVal>, ghost gray: set<LvId>) returns (c: LvId)
      requires Inv(h, lv, org, p, gray, {}) && p.popd != p.cur && AllGray(lv, p, gray)
      requires v < |h| && Sparing(h, p) && v in reached
      modifies this`lv, this`org
      ensures Inv(h, lv, org, p, gray, {}) && Progress(old(lv), lv, p, gray) && AllGray(lv, p, gray) && Sparing(h, p)
      ensures c == Forward(lv, v) && Visited(lv, p, c)
      decreases Work(lv, p), 2, Leaf
    {
      assert h[v].sym == Some(p.popd) ==> PoppedOk(h, lv, org, p, {}, v);
      assert h[v].sym != Some(p.popd) ==> SlotOk(h, lv, org, p, gray, v);
      if lv[v].copied.Some? {
        c := lv[v].copied.value;
      } else if lv[v].sym == Some(p.popd) {
        c := CloneLvval(v, p, h, gray);
        ghost var s1 := lv;
        ResolvTree(c, p, h, gray);
        ProgressTrans(old(lv), s1, lv, p, gray);
      } else {
        c := v;
        ResolvTree(v, p, h, gray);
      }
    }

    /** Step 2: note the popped slot of every passed variable and hide its entry from step 3. */
    method CachePassed(vars: seq<XnewVar>) returns (cached: seq<LvId>)
      requires forall k :: 0 <= k < |vars| ==> vars[k].key in popdTab
      requires forall j, k :: 0 <= j < k < |vars| ==> vars[j].key != vars[k].key
      modifies this`popdTab
      ensures |cached| == |vars| && forall k :: 0 <= k < |vars| ==> cached[k] == old(popdTab)[vars[k].key]
      ensures popdTab == old(popdTab) - set k | 0 <= k < |vars| :: vars[k].key
    {
      cached := [];
      for n := 0 to |vars|
        invariant |cached| == n && forall k :: 0 <= k < n ==> cached[k] == old(popdTab)[vars[k].key]
        invariant popdTab == old(popdTab) - set k | 0 <= k < n :: vars[k].key
      {
        cached := cached + [popdTab[vars[n].key]];
        popdTab := popdTab - {vars[n].key};
      }
    }

    /** Step 4 for one passed variable. */
    method ReturnVar(x: XnewVar, popdlv: LvId, p: Pop, ghost h: seq<LvVal>)
      requires Inv(h, lv, org, p, {}, {}) && p.popd != p.cur && popdlv < |h|
      requires x.key in curTab && curTab[x.key] < |h| && h[curTab[x.key]].sym != Some(p.popd)
      requires Sparing(h, p) && popdlv in reached && (x.prevStays ==> curTab[x.key] in reached)
      modifies this`lv, this`org, this`curTab
      ensures Inv(h, lv, org, p, {}, {}) && Later(old(lv), lv, p) && Sparing(h, p)
      ensures curTab == old(curTab)[x.key := Forward(lv, popdlv)] && Visited(lv, p, curTab[x.key])
      ensures x.prevStays ==> Visited(lv, p, old(curTab)[x.key])
    {
      var prevlv := curTab[x.key];
      var currlv := prevlv;
      if prevlv == popdlv {
        ResolvTree(prevlv, p, h, {});
        assert SlotOk(h, lv, org, p, {}, prevlv);
      } else {
        currlv := ResolvCont(popdlv, p, h, {});
      }
      ghost var s1 := lv;
      if x.prevStays {
        ResolvTree(prevlv, p, h, {});
      }
      if prevlv != popdlv {
        curTab := curTab[x.key := currlv];
      }
      KeepForward(h, s1, lv, p, popdlv);
    }

    /** Step 4: give every passed name its new slot. */
    method ReturnVars(vars: seq<XnewVar>, cached: seq<LvId>, p: Pop, ghost h: seq<LvVal>)
      requires Inv(h, lv, org, p, {}, {}) && p.popd != p.cur && |cached| == |vars|
      requires forall j, k :: 0 <= j < k < |vars| ==> vars[j].key != vars[k].key
      requires forall k :: 0 <= k < |vars| ==> cached[k] < |h| && vars[k].key in curTab
      requires forall k :: 0 <= k < |vars| ==> curTab[vars[k].key] < |h| && h[curTab[vars[k].key]].sym != Some(p.popd)
      requires Sparing(h, p) && forall k :: 0 <= k < |vars| ==>
        cached[k] in reached && (vars[k].prevStays ==> curTab[vars[k].key] in reached)
      modifies this`lv, this`org, this`curTab
      ensures Inv(h, lv, org, p, {}, {}) && Sparing(h, p) && curTab.Keys == old(curTab).Keys
      ensures forall k :: 0 <= k < |vars| ==>
        curTab[vars[k].key] == Forward(lv, cached[k]) && Visited(lv, p, Forward(lv, cached[k]))
      ensures forall m :: m in curTab && (forall k :: 0 <= k < |vars| ==> vars[k].key != m) ==>
        curTab[m] == old(curTab)[m]
      ensures forall k :: 0 <= k < |vars| && vars[k].prevStays ==> Visited(lv, p, old(curTab)[vars[k].key])
    {
      ghost var tab0 := curTab;
      for n := 0 to |vars|
        invariant Inv(h, lv, org, p, {}, {}) && Sparing(h, p) && Returned(vars, cached, n, tab0, curTab, lv, p)
      {
        ghost var s1, tab1 := lv, curTab;
        assert curTab[vars[n].key] == tab0[vars[n].key];
        ReturnVar(vars[n], cached[n], p, h);
        ReturnedNext(vars, cached, n, tab0, tab1, curTab, h, s1, lv, p);
      }
    }

    /** Step 5: the recorded references that stay. */
    method ScanRefs(refs: seq<XnewRef>, p: Pop, ghost h: seq<LvVal>)
      requires Inv(h, lv, org, p, {}, {}) && p.popd != p.cur
      requires forall k :: 0 <= k < |refs| ==> refs[k].lvval < |h| && h[refs[k].lvval].sym != Some(p.popd)
      requires Sparing(h, p) && forall k :: 0 <= k < |refs| && refs[k].stays ==> refs[k].lvval in reached
      modifies this`lv, this`org
      ensures Inv(h, lv, org, p, {}, {}) && Later(old(lv), lv, p) && Sparing(h, p)
      ensures forall k :: 0 <= k < |refs| && refs[k].stays ==> Visited(lv, p, refs[k].lvval)
    {
      for n := 0 to |refs|
        invariant Inv(h, lv, org, p, {}, {}) && Later(old(lv), lv, p) && Sparing(h, p)
        invariant forall k :: 0 <= k < n && refs[k].stays ==> Visited(lv, p, refs[k].lvval)
      {
        if refs[n].stays {
          ResolvTree(refs[n].lvval, p, h, {});
        }
      }
    }

    /** Steps 4 to 6, from a heap that has its stamp. */
    method PassSteps(vars: seq<XnewVar>, refs: seq<XnewRef>, cached: seq<LvId>, p: Pop, ghost popd0: map<string, LvId>,
                     ghost h: seq<LvVal>,
                     ghost roots: set<LvId>)
      requires h == lv && Poppable(h, vars, refs, curTab, popd0, aliasRetarg, p) && org == [] && Sparing(h, p)
      requires |cached| == |vars| && forall k :: 0 <= k < |vars| ==> cached[k] == popd0[vars[k].key]
      requires roots == PopRoots(vars, refs, curTab, popd0, aliasRetarg) && roots <= reached
      modifies this`lv, this`org, this`curTab, this`aliasRetarg
      ensures Inv(h, lv, org, p, {}, {}) && Sparing(h, p)
      ensures forall v :: v in roots ==> v < |h| && Visited(lv, p, Forward(lv, v))
      ensures curTab.Keys == old(curTab).Keys
      ensures forall k :: 0 <= k < |vars| ==> curTab[vars[k].key] == Forward(lv, popd0[vars[k].key])
      ensures forall n :: n in curTab && (forall k :: 0 <= k < |vars| ==> vars[k].key != n) ==>
        curTab[n] == old(curTab)[n]
      ensures aliasRetarg == ForwardOpt(lv, old(aliasRetarg))
    {
      ghost var tab0, ret0 := curTab, aliasRetarg;
      StartInv(h, p);
      RootsReached(vars, refs, tab0, popd0, ret0, reached);
      ReturnVars(vars, cached, p, h);
      ghost var s1 := lv;
      ScanRefs(refs, p, h);
      ghost var s2 := lv;
      RetargStep(p, h);
      KeepForwards(h, s1, lv, p, cached);
      RootsVisited(vars, refs, tab0, popd0, ret0, h, lv, org, p);
    }

    /** Step 6: the pending return argument. */
    method RetargStep(p: Pop, ghost h: seq<LvVal>)
      requires Inv(h, lv, org, p, {}, {}) && p.popd != p.cur && Sparing(h, p)
      requires aliasRetarg.Some? ==> aliasRetarg.value < |h| && aliasRetarg.value in reached
      modifies this`lv, this`org, this`aliasRetarg
      ensures Inv(h, lv, org, p, {}, {}) && Later(old(lv), lv, p) && Sparing(h, p)
      ensures aliasRetarg == ForwardOpt(lv, old(aliasRetarg))
      ensures aliasRetarg.Some? ==> Visited(lv, p, aliasRetarg.value)
    {
      if aliasRetarg.Some? {
        var newlv := ResolvCont(aliasRetarg.value, p, h, {});
        aliasRetarg := Some(newlv);
      }
    }

    /** Steps 4 to 6 once the pass has its stamp, and what they are for. */
    method StampedPass(vars: seq<XnewVar>, refs: seq<XnewRef>, cached: seq<LvId>, p: Pop,
                       ghost popd0: map<string, LvId>,
                       ghost h0: seq<LvVal>, ghost h: seq<LvVal>, ghost roots: set<LvId>)
      requires h == lv && StampsOnly(h0, h) && Poppable(h0, vars, refs, curTab, popd0, aliasRetarg, p) && org == []
      requires |cached| == |vars| && forall k :: 0 <= k < |vars| ==> cached[k] == popd0[vars[k].key]
      requires roots == PopRoots(vars, refs, curTab, popd0, aliasRetarg)
      modifies this`lv, this`org, this`curTab, this`aliasRetarg, this`reached
      ensures CarriedOver(h, lv, org, p, roots)
      ensures (forall i :: 0 <= i < |h| ==> h[i].taskCycle != p.cycle) ==> AllCarriedOver(h0, lv, org, p, roots)
      ensures curTab.Keys == old(curTab).Keys
      ensures forall k :: 0 <= k < |vars| ==> curTab[vars[k].key] == Forward(lv, popd0[vars[k].key])
      ensures forall n :: n in curTab && (forall k :: 0 <= k < |vars| ==> vars[k].key != n) ==>
        curTab[n] == old(curTab)[n]
      ensures aliasRetarg == ForwardOpt(lv, old(aliasRetarg))
      ensures |h0| <= |lv| && forall j :: |h0| <= j < |lv| ==> lv[j].sym == Some(p.cur)
      ensures forall i :: 0 <= i < |h0| ==> lv[i].sym == h0[i].sym
      ensures forall k :: 0 <= k < |vars| ==> EndsWell(h0, lv, p, popd0[vars[k].key], curTab[vars[k].key])
    {
      reached := Seen(h, p, roots);
      PoppableStamped(h0, h, vars, refs, curTab, popd0, aliasRetarg, p);
      RootsSeen(h, vars, refs, curTab, popd0, aliasRetarg, p);
      SeenClosed(h, p, roots);
      PassSteps(vars, refs, cached, p, popd0, h, roots);
      PassDone(h0, h, lv, org, p, roots);
      EndWell(h0, h, lv, p, vars, popd0, curTab, roots);
    }

    /** als_check_xnew_var_aliases, steps 2 and 4 to 6: what the pass sees from the passed variables, the
        references that stay and the return argument is carried over, and that is all they reach if the
        new stamp is on no slot. */
    method CheckXnewVarAliases(vars: seq<XnewVar>, refs: seq<XnewRef>, popd: nat, cur: nat, blocks: set<LvId>,
                               ghost roots: set<LvId>)
      returns (ghost p: Pop)
      requires Poppable(lv, vars, refs, curTab, popdTab, aliasRetarg, Pop(popd, cur, NextCycle(lvtaskcycle)))
      requires org == []
      // the passed variables, the variables their names had before that stay, the recorded references that stay,
      // and the return argument
      requires forall v: LvId :: v in roots <==>
        || (exists k :: 0 <= k < |vars| && popdTab[vars[k].key] == v)
        || (exists k :: 0 <= k < |vars| && vars[k].prevStays && curTab[vars[k].key] == v)
        || (exists k :: 0 <= k < |refs| && refs[k].stays && refs[k].lvval == v)
        || aliasRetarg == Some(v)
      requires lvtaskcycle < CYCLE_LIMIT && forall i :: 0 <= i < |lv| ==> lv[i].taskCycle <= lvtaskcycle
      modifies this
      ensures p == Pop(popd, cur, NextCycle(old(lvtaskcycle))) && lvtaskcycle == p.cycle
      ensures CarriedOver(Restamped(old(lv), old(lvtaskcycle), blocks), lv, org, p, roots)
      ensures StampFresh(old(lv), old(lvtaskcycle), blocks) ==> AllCarriedOver(old(lv), lv, org, p, roots)
      ensures curTab.Keys == old(curTab).Keys
      ensures forall k :: 0 <= k < |vars| ==> curTab[vars[k].key] == Forward(lv, old(popdTab)[vars[k].key])
      ensures forall n :: n in curTab && (forall k :: 0 <= k < |vars| ==> vars[k].key != n) ==>
        curTab[n] == old(curTab)[n]
      ensures aliasRetarg == ForwardOpt(lv, old(aliasRetarg))
      // tables
      ensures |lv| >= |old(lv)| && forall j :: |old(lv)| <= j < |lv| ==> lv[j].sym == Some(cur)
      ensures forall i :: 0 <= i < |old(lv)| ==> lv[i].sym == old(lv)[i].sym
      ensures forall k :: 0 <= k < |vars| ==>
        curTab[vars[k].key] < |lv| && var was := old(lv)[old(popdTab)[vars[k].key]].sym;
        lv[curTab[vars[k].key]].sym == if was == Some(popd) then Some(cur) else was
    {
      ghost var h0, popd0 := lv, popdTab;
      RootsListed(vars, refs, curTab, popdTab, aliasRetarg, roots);
      var cached := CachePassed(vars);
      lv, lvtaskcycle := IncrLvTaskCycle(lv, lvtaskcycle, blocks);
      p := Pop(popd, cur, lvtaskcycle);
      StampedPass(vars, refs, cached, Pop(popd, cur, lvtaskcycle), popd0, h0, lv, roots);
    }
  }
}
