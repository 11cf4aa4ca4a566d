/** Local variables as the run time lays them out (lv_val.h, lv_tree.h): every unsubscripted
    variable is a slot (lv_val) carrying reference counts and a tree of subscripted nodes, and a
    node may be an alias container, that is, a pointer to another slot. */
module LocalVars {
  import opened Options

  /** A slot address. */
  type LvId = nat

  /** One subscript level: an AVL tree whose nodes carry a value, possibly an alias container, and
      the tree of the next subscript level. */
  datatype Tree =
    | Leaf
    | Node(left: Tree, right: Tree, value: int, cont: Option<LvId>, child: Tree)
  {
    function Turned(d: Turn): Tree
      requires Node?
    {
      match d
      case Left => left
      case Right => right
      case Down => child
    }
  }

  /** A step within a subscript level, or to the next one. */
  datatype Turn = Left | Right | Down

  /** `sym` is the owning symbol table, None once the slot is on the free list. `copied` is the
      forwarding pointer of a slot whose mvtype is MV_LVCOPIED. */
  datatype LvVal = LvVal(
    sym: Option<nat>,
    value: int,
    tree: Tree,
    trefcnt: int,
    crefcnt: int,
    taskCycle: nat,
    hasAliasCont: bool,
    copied: Option<LvId>)
  {
    predicate Live() { sym.Some? }
  }

  /** How many alias containers of a tree point to slot `v`. */
  ghost function Refs(t: Tree, v: LvId): nat {
    match t
    case Leaf => 0
    case Node(l, r, _, c, ch) => Refs(l, v) + Refs(r, v) + Refs(ch, v) + if c == Some(v) then 1 else 0
  }

  /** The subtree at the end of a path. */
  function At(t: Tree, path: seq<Turn>): Tree {
    if path == [] || t.Leaf? then t else At(t.Turned(path[0]), path[1..])
  }

  ghost predicate RefersAt(t: Tree, v: LvId, path: seq<Turn>) {
    At(t, path).Node? && At(t, path).cont == Some(v)
  }

  /** A tree refers to a variable when some node of it does. */
  lemma {:induction false} RefsByPath(t: Tree, v: LvId)
    ensures Refs(t, v) > 0 <==> exists path :: RefersAt(t, v, path)
  {
    if t.Node? {
      RefsByPath(t.left, v);
      RefsByPath(t.right, v);
      RefsByPath(t.child, v);
      if path :| RefersAt(t, v, path) {
        if path != [] {
          assert RefersAt(t.Turned(path[0]), v, path[1..]);
        }
      }
      if Refs(t, v) > 0 {
        if t.cont == Some(v) {
          assert RefersAt(t, v, []);
        } else {
          var d := if Refs(t.left, v) > 0 then Left else if Refs(t.right, v) > 0 then Right else Down;
          var path :| RefersAt(t.Turned(d), v, path);
          assert ([d] + path)[1..] == path;
          assert RefersAt(t, v, [d] + path);
        }
      }
    }
  }

  ghost function Size(t: Tree): nat {
    match t
    case Leaf => 0
    case Node(l, r, _, _, ch) => 1 + Size(l) + Size(r) + Size(ch)
  }

  /** How many alias containers of all the slots together point to `v`. */
  ghost function HeapRefs(s: seq<LvVal>, v: LvId): nat {
    if s == [] then 0 else HeapRefs(s[..|s| - 1], v) + Refs(s[|s| - 1].tree, v)
  }

  ghost function HeapSize(s: seq<LvVal>): nat {
    if s == [] then 0 else HeapSize(s[..|s| - 1]) + Size(s[|s| - 1].tree)
  }

  /** Replacing one slot moves exactly that slot's references. */
  lemma {:induction false} HeapRefsUpdate(s: seq<LvVal>, i: nat, x: LvVal, v: LvId)
    requires i < |s|
    ensures HeapRefs(s[i := x], v) == HeapRefs(s, v) + Refs(x.tree, v) - Refs(s[i].tree, v)
  {
    var last := |s| - 1;
    if i == last {
      assert s[i := x][..last] == s[..last];
    } else {
      HeapRefsUpdate(s[..last], i, x, v);
      assert s[i := x][..last] == s[..last][i := x];
    }
  }

  lemma {:induction false} HeapSizeUpdate(s: seq<LvVal>, i: nat, x: LvVal)
    requires i < |s|
    ensures HeapSize(s[i := x]) == HeapSize(s) + Size(x.tree) - Size(s[i].tree)
  {
    var last := |s| - 1;
    if i == last {
      assert s[i := x][..last] == s[..last];
    } else {
      HeapSizeUpdate(s[..last], i, x);
      assert s[i := x][..last] == s[..last][i := x];
    }
  }

  /** Any one slot's references are among those of the heap. */
  lemma {:induction false} HeapRefsAtLeast(s: seq<LvVal>, u: nat, v: LvId)
    requires u < |s|
    ensures Refs(s[u].tree, v) <= HeapRefs(s, v)
  {
    if u < |s| - 1 {
      HeapRefsAtLeast(s[..|s| - 1], u, v);
    }
  }

  /** A heap in which no slot refers to `v` counts no reference to it. */
  lemma {:induction false} HeapRefsZero(s: seq<LvVal>, v: LvId)
    requires forall u: nat :: u < |s| ==> Refs(s[u].tree, v) == 0
    ensures HeapRefs(s, v) == 0
  {
    if s != [] {
      HeapRefsZero(s[..|s| - 1], v);
    }
  }

  /** A chain of container references. */
  ghost predicate IsPath(s: seq<LvVal>, p: seq<LvId>) {
    && p != []
    && (forall i :: 0 <= i < |p| ==> p[i] < |s|)
    && (forall i :: 0 < i < |p| ==> Refs(s[p[i - 1]].tree, p[i]) > 0)
  }

  ghost predicate PathTo(s: seq<LvVal>, roots: set<LvId>, p: seq<LvId>, v: LvId) {
    IsPath(s, p) && p[0] in roots && s[p[0]].Live() && p[|p| - 1] == v
  }

  /** The variables that some chain of containers reaches from a live root. */
  ghost function Reach(s: seq<LvVal>, roots: set<LvId>): (r: set<LvId>)
    ensures forall v :: v in r ==> v < |s|
  {
    set v: LvId | v < |s| && Reachable(s, roots, v)
  }

  ghost predicate Reachable(s: seq<LvVal>, roots: set<LvId>, v: LvId) {
    exists p :: PathTo(s, roots, p, v)
  }

  lemma ReachRoot(s: seq<LvVal>, roots: set<LvId>, v: LvId)
    requires v in roots && v < |s| && s[v].Live()
    ensures v in Reach(s, roots)
  {
    assert PathTo(s, roots, [v], v);
  }

  lemma ReachEdge(s: seq<LvVal>, roots: set<LvId>, u: LvId, v: LvId)
    requires u in Reach(s, roots) && v < |s| && Refs(s[u].tree, v) > 0
    ensures v in Reach(s, roots)
  {
    var p :| PathTo(s, roots, p, u);
    assert PathTo(s, roots, p + [v], v);
  }

  /** `r` holds the live roots and is closed under containers. */
  ghost predicate ClosedSet(s: seq<LvVal>, roots: set<LvId>, r: set<LvId>) {
    && (forall v :: v in roots && v < |s| && s[v].Live() ==> v in r)
    && (forall u, v: LvId :: u in r && u < |s| && v < |s| && Refs(s[u].tree, v) > 0 ==> v in r)
  }

  lemma {:induction false} PathInClosed(s: seq<LvVal>, roots: set<LvId>, r: set<LvId>, p: seq<LvId>, v: LvId)
    requires ClosedSet(s, roots, r) && PathTo(s, roots, p, v)
    ensures v in r
    decreases |p|
  {
    if |p| > 1 {
      var q := p[..|p| - 1];
      assert PathTo(s, roots, q, q[|q| - 1]);
      PathInClosed(s, roots, r, q, q[|q| - 1]);
    }
  }

  /** Reach is the least closed set. */
  lemma ReachLeast(s: seq<LvVal>, roots: set<LvId>, r: set<LvId>)
    requires ClosedSet(s, roots, r)
    ensures Reach(s, roots) <= r
  {
    forall v | v in Reach(s, roots) ensures v in r {
      var p :| PathTo(s, roots, p, v);
      PathInClosed(s, roots, r, p, v);
    }
  }

  /** All containers of `t` lead into `r`. */
  ghost predicate TargetsIn(t: Tree, r: set<LvId>) {
    forall v: LvId :: Refs(t, v) > 0 ==> v in r
  }

  /** The same slots but for their stamps. */
  ghost predicate StampsOnly(s: seq<LvVal>, s': seq<LvVal>) {
    |s'| == |s| && forall i :: 0 <= i < |s| ==> s'[i] == s[i].(taskCycle := s'[i].taskCycle)
  }

  /** Stamps do not change what is reachable. */
  lemma ReachStamp(s: seq<LvVal>, s': seq<LvVal>, roots: set<LvId>)
    requires StampsOnly(s, s')
    ensures Reach(s', roots) == Reach(s, roots)
  {
    forall p, v: LvId ensures PathTo(s, roots, p, v) <==> PathTo(s', roots, p, v) {
    }
  }

  /** The task cycle counter has 32 bits. */
  const CYCLE_LIMIT: nat := 0x1_0000_0000

  /** Whether the next stamp is unused: the counter does not wrap, or no slot outside the current table's
      `blocks` bears 1. */
  predicate StampFresh(s: seq<LvVal>, cycle: nat, blocks: set<LvId>) {
    cycle + 1 < CYCLE_LIMIT || forall i :: 0 <= i < |s| && i !in blocks ==> s[i].taskCycle != 1
  }

  /** The first `n` slots. */
  function Slots(n: nat): (r: set<LvId>)
    ensures forall i: nat :: i in r <==> i < n
  {
    if n == 0 then {} else Slots(n - 1) + {n - 1}
  }

  /** The heap after INCR_LVTASKCYCLE: when the counter wraps, the nested loops clear the stamps of the
      current symbol table's slots, `blocks`, once for each table, and no others. */
  function Restamped(s: seq<LvVal>, cycle: nat, blocks: set<LvId>): (s': seq<LvVal>)
    ensures StampsOnly(s, s')
    ensures forall i :: 0 <= i < |s| ==> s'[i].taskCycle == Restamp(s, cycle, blocks, i)
  {
    seq(|s|, i requires 0 <= i < |s| => s[i].(taskCycle := Restamp(s, cycle, blocks, i)))
  }

  function Restamp(s: seq<LvVal>, cycle: nat, blocks: set<LvId>, i: nat): nat
    requires i < |s|
  {
    if cycle + 1 == CYCLE_LIMIT && i in blocks then 0 else s[i].taskCycle
  }

  function NextCycle(cycle: nat): nat {
    if cycle + 1 < CYCLE_LIMIT then cycle + 1 else 1
  }

  method IncrLvTaskCycle(s: seq<LvVal>, cycle: nat, blocks: set<LvId>) returns (s': seq<LvVal>, cycle': nat)
    requires cycle < CYCLE_LIMIT && forall i :: 0 <= i < |s| ==> s[i].taskCycle <= cycle
    ensures s' == Restamped(s, cycle, blocks) && cycle' == NextCycle(cycle)
    ensures (forall i :: 0 <= i < |s| ==> s'[i].taskCycle != cycle') <==> StampFresh(s, cycle, blocks)
  {
    s', cycle' := s, (cycle + 1) % CYCLE_LIMIT;
    if cycle' == 0 {
      for i := 0 to |s|
        invariant |s'| == |s|
        invariant forall j :: 0 <= j < i ==> s'[j] == if j in blocks then s[j].(taskCycle := 0) else s[j]
        invariant forall j :: i <= j < |s| ==> s'[j] == s[j]
      {
        if i in blocks {
          s' := s'[i := s'[i].(taskCycle := 0)];
        }
      }
      cycle' := 1;
    }
  }
}
