/** Address fixing when an object is linked, as addr_fix in sr_i386/incr_link.c does it: relocation
    entries are gathered by symbol number, the string table is walked once, and each name is looked
    up among the known routines. */
module IncrLink {
  import opened Options
  import opened Bytes
  import opened ObjFormat

  const RELREAD: nat := 50
  const DOT: Byte := 46
  const UNDERSCORE: Byte := 95
  const PERCENT: Byte := 37

  /** A known routine: its address, and its labels with the addresses of their line entries. */
  datatype Label = Label(name: Name, address: int)
  datatype Routine = Routine(address: int, labels: seq<Label>)

  datatype Target = RoutineRef(rtn: Name) | LabelRef(rtn: Name, lab: Name)

  /** The entries with one symbol number: the first on the main list, the rest behind it. */
  datatype Group = Group(symnum: nat, addrs: seq<nat>)

  /** One address handled for one symbol number. */
  datatype Fixup = Fixup(symnum: nat, address: nat)

  function DotAt(n: Name): (d: nat)
    ensures d <= |n| && (d < |n| ==> n[d] == DOT)
    ensures forall i :: 0 <= i < d ==> n[i] != DOT
  {
    if n == [] || n[0] == DOT then 0 else 1 + DotAt(n[1..])
  }

  /** A leading underscore stands for a percent sign. */
  function Mident(n: Name): Name {
    if n != [] && n[0] == UNDERSCORE then [PERCENT] + n[1..] else n
  }

  function TargetOf(n: Name): Target {
    var d := DotAt(n);
    if d == |n| then RoutineRef(Mident(n)) else LabelRef(Mident(n[..d]), Mident(n[d + 1..]))
  }

  function FindLabel(labels: seq<Label>, lab: Name): Option<int> {
    if labels == [] then None
    else if labels[0].name == lab then Some(labels[0].address)
    else FindLabel(labels[1..], lab)
  }

  /** The address bound to a target, if it is known. */
  function Bound(routines: map<Name, Routine>, t: Target): Option<int> {
    if t.rtn !in routines then None
    else if t.RoutineRef? then Some(routines[t.rtn].address)
    else FindLabel(routines[t.rtn].labels, t.lab)
  }

  /** A name without a dot means a routine, its leading underscore a percent sign. */
  lemma RoutineName(n: Name)
    requires DOT !in n
    ensures TargetOf(n) == RoutineRef(if n != [] && n[0] == UNDERSCORE then [PERCENT] + n[1..] else n)
  {
  }

  /** One with a dot means a label, what stands before the first dot being the routine; an underscore at the
      start of either part is a percent sign. */
  lemma LabelName(x: Name, y: Name)
    requires DOT !in x
    ensures TargetOf(x + [DOT] + y) ==
      LabelRef(if x != [] && x[0] == UNDERSCORE then [PERCENT] + x[1..] else x,
               if y != [] && y[0] == UNDERSCORE then [PERCENT] + y[1..] else y)
  {
    var n := x + [DOT] + y;
    assert n[|x|] == DOT;
    forall i | 0 <= i < |x| ensures n[i] != DOT {
      assert n[i] == x[i];
    }
    assert n[..|x|] == x && n[|x| + 1..] == y;
  }

  lemma RoutineBound(routines: map<Name, Routine>, rtn: Name)
    ensures Bound(routines, RoutineRef(rtn)) == if rtn in routines then Some(routines[rtn].address) else None
  {
  }

  /** A label reference is bound to the first label of that name in a known routine. */
  lemma LabelBound(routines: map<Name, Routine>, rtn: Name, lab: Name)
    ensures match Bound(routines, LabelRef(rtn, lab))
      case Some(v) =>
        rtn in routines && exists k :: IsFirst(routines[rtn].labels, lab, k) && v == routines[rtn].labels[k].address
      case None => rtn in routines ==> forall k :: 0 <= k < |routines[rtn].labels| ==>
        routines[rtn].labels[k].name != lab
  {
    if rtn in routines {
      FirstLabel(routines[rtn].labels, lab);
    }
  }

  /** Label `k` is the first one named `lab`. */
  ghost predicate IsFirst(labels: seq<Label>, lab: Name, k: int) {
    0 <= k < |labels| && labels[k].name == lab && forall j :: 0 <= j < k ==> labels[j].name != lab
  }

  lemma {:induction false} FirstLabel(labels: seq<Label>, lab: Name)
    ensures match FindLabel(labels, lab)
      case Some(v) => exists k :: IsFirst(labels, lab, k) && v == labels[k].address
      case None => forall k :: 0 <= k < |labels| ==> labels[k].name != lab
  {
    if labels != [] {
      FirstLabel(labels[1..], lab);
      if labels[0].name == lab {
        assert IsFirst(labels, lab, 0);
      } else if FindLabel(labels[1..], lab).Some? {
        var k :| IsFirst(labels[1..], lab, k) && FindLabel(labels[1..], lab).value == labels[1..][k].address;
        assert IsFirst(labels, lab, k + 1);
      }
    }
  }

  lemma {:induction false} TimesCounts(addrs: seq<nat>, a: nat)
    ensures Times(addrs, a) == multiset(addrs)[a]
  {
    if addrs != [] {
      TimesCounts(addrs[1..], a);
      assert addrs == [addrs[0]] + addrs[1..];
    }
  }

  /** How many external entries have symbol number `s` and address `a`. */
  ghost function Count(rels: seq<Rel>, s: nat, a: nat): (c: nat) {
    if rels == [] then 0
    else Count(rels[..|rels| - 1], s, a) + if rels[|rels| - 1] == Rel(a, s, true) then 1 else 0
  }

  /** How many entries are internal and have address `a`. */
  ghost function CountInternal(rels: seq<Rel>, a: nat): (c: nat) {
    if rels == [] then 0
    else CountInternal(rels[..|rels| - 1], a) + var r := rels[|rels| - 1]; if !r.isExtern && r.address == a then 1
      else 0
  }

  ghost function Times(addrs: seq<nat>, a: nat): (c: nat) {
    if addrs == [] then 0 else (if addrs[0] == a then 1 else 0) + Times(addrs[1..], a)
  }

  ghost function CountLog(log: seq<Fixup>, s: nat, a: nat): (c: nat) {
    if log == [] then 0
    else CountLog(log[..|log| - 1], s, a) + if log[|log| - 1] == Fixup(s, a) then 1 else 0
  }

  function WordAt(image: map<nat, int>, a: nat): int {
    if a in image then image[a] else 0
  }

  function Queue(urx: map<Target, seq<nat>>, t: Target): seq<nat> {
    if t in urx then urx[t] else []
  }

  /** A word after `n` additions of the base. */
  ghost function Rebased(w: int, n: nat, base: int): int {
    if n == 0 then w else (Rebased(w, n - 1, base) + base) % WORD
  }

  ghost predicate Ordered(groups: seq<Group>) {
    && (forall j, k :: 0 <= j < k < |groups| ==> groups[j].symnum < groups[k].symnum)
    && (forall k :: 0 <= k < |groups| ==> groups[k].addrs != [])
  }

  ghost predicate HasGroup(groups: seq<Group>, s: nat) {
    exists k :: 0 <= k < |groups| && groups[k].symnum == s
  }

  /** Each group holds the addresses of the entries with its number, as often as they occur. */
  ghost predicate Gathered(groups: seq<Group>, rels: seq<Rel>) {
    && Ordered(groups)
    && (forall k :: 0 <= k < |groups| ==> GroupOf(groups[k], rels))
    && (forall r :: 0 <= r < |rels| && rels[r].isExtern ==> HasGroup(groups, rels[r].symbolnum))
  }

  ghost predicate GroupOf(g: Group, rels: seq<Rel>) {
    forall a :: Times(g.addrs, a) == Count(rels, g.symnum, a)
  }

  lemma {:induction false} CountNone(rels: seq<Rel>, s: nat, a: nat)
    requires forall r :: 0 <= r < |rels| && rels[r].isExtern ==> rels[r].symbolnum != s
    ensures Count(rels, s, a) == 0
  {
    if rels != [] {
      CountNone(rels[..|rels| - 1], s, a);
    }
  }

  lemma CountSnoc(rels: seq<Rel>, r: Rel, s: nat, a: nat)
    ensures Count(rels + [r], s, a) == Count(rels, s, a) + if r == Rel(a, s, true) then 1 else 0
  {
    assert (rels + [r])[..|rels|] == rels;
  }

  /** A group that the new entry is not for. */
  lemma OtherGroup(g: Group, rels: seq<Rel>, r: Rel)
    requires GroupOf(g, rels) && (!r.isExtern || r.symbolnum != g.symnum)
    ensures GroupOf(g, rels + [r])
  {
    forall a ensures Times(g.addrs, a) == Count(rels + [r], g.symnum, a) {
      CountSnoc(rels, r, g.symnum, a);
    }
  }

  /** The new entry goes in behind the head of its group. */
  lemma GrownGroup(g: Group, rels: seq<Rel>, a: nat)
    requires GroupOf(g, rels) && g.addrs != []
    ensures GroupOf(Group(g.symnum, [g.addrs[0], a] + g.addrs[1..]), rels + [Rel(a, g.symnum, true)])
  {
    forall b ensures Times([g.addrs[0], a] + g.addrs[1..], b) == Count(rels + [Rel(a, g.symnum, true)], g.symnum, b) {
      CountSnoc(rels, Rel(a, g.symnum, true), g.symnum, b);
      var l := [g.addrs[0], a] + g.addrs[1..];
      assert l[1..] == [a] + g.addrs[1..] && l[1..][1..] == g.addrs[1..];
    }
  }

  lemma NewGroup(rels: seq<Rel>, s: nat, a: nat)
    requires forall r :: 0 <= r < |rels| && rels[r].isExtern ==> rels[r].symbolnum != s
    ensures GroupOf(Group(s, [a]), rels + [Rel(a, s, true)])
  {
    forall b ensures Times([a], b) == Count(rels + [Rel(a, s, true)], s, b) {
      CountSnoc(rels, Rel(a, s, true), s, b);
      CountNone(rels, s, b);
    }
  }

  lemma NotGathered(groups: seq<Group>, rels: seq<Rel>, k: nat, s: nat)
    requires Gathered(groups, rels) && k <= |groups|
    requires forall j :: 0 <= j < k ==> groups[j].symnum < s
    requires k < |groups| ==> groups[k].symnum > s
    ensures forall r :: 0 <= r < |rels| && rels[r].isExtern ==> rels[r].symbolnum != s
  {
    forall r | 0 <= r < |rels| && rels[r].isExtern ensures rels[r].symbolnum != s {
      assert HasGroup(groups, rels[r].symbolnum);
    }
  }

  /** An external entry, in symbol number order. */
  method Gather(groups: seq<Group>, symnum: nat, address: nat, ghost rels: seq<Rel>) returns (groups': seq<Group>)
    requires Gathered(groups, rels)
    ensures Gathered(groups', rels + [Rel(address, symnum, true)])
  {
    var k := 0;
    while k < |groups| && groups[k].symnum < symnum
      invariant 0 <= k <= |groups|
      invariant forall j :: 0 <= j < k ==> groups[j].symnum < symnum
    {
      k := k + 1;
    }
    ghost var r := Rel(address, symnum, true);
    forall j | 0 <= j < |groups| && groups[j].symnum != symnum ensures GroupOf(groups[j], rels + [r]) {
      OtherGroup(groups[j], rels, r);
    }
    if k < |groups| && groups[k].symnum == symnum {
      var g := groups[k];
      GrownGroup(g, rels, address);
      groups' := groups[k := Group(symnum, [g.addrs[0], address] + g.addrs[1..])];
      GatheredSame(groups, groups', rels, r, k);
    } else {
      NotGathered(groups, rels, k, symnum);
      NewGroup(rels, symnum, address);
      groups' := groups[..k] + [Group(symnum, [address])] + groups[k..];
      GatheredMore(groups, groups', rels, r, k);
    }
  }

  lemma GatheredSame(groups: seq<Group>, groups': seq<Group>, rels: seq<Rel>, r: Rel, k: nat)
    requires Gathered(groups, rels) && r.isExtern && k < |groups| && groups[k].symnum == r.symbolnum
    requires |groups'| == |groups| && groups'[k].symnum == r.symbolnum && groups'[k].addrs != []
    requires GroupOf(groups'[k], rels + [r])
    requires forall j :: 0 <= j < |groups| && j != k ==> groups'[j] == groups[j] && GroupOf(groups[j], rels + [r])
    ensures Gathered(groups', rels + [r])
  {
    forall q | 0 <= q <= |rels| && (rels + [r])[q].isExtern ensures HasGroup(groups', (rels + [r])[q].symbolnum) {
      if q < |rels| {
        assert HasGroup(groups, rels[q].symbolnum);
        var j :| 0 <= j < |groups| && groups[j].symnum == rels[q].symbolnum;
        assert groups'[j].symnum == rels[q].symbolnum;
      } else {
        assert groups'[k].symnum == r.symbolnum;
      }
    }
  }

  lemma GatheredMore(groups: seq<Group>, groups': seq<Group>, rels: seq<Rel>, r: Rel, k: nat)
    requires Gathered(groups, rels) && r.isExtern && k <= |groups|
    requires |groups'| == |groups| + 1 && groups'[k].symnum == r.symbolnum && groups'[k].addrs != []
    requires GroupOf(groups'[k], rels + [r])
    requires forall j :: 0 <= j < |groups| ==>
      groups'[if j < k then j else j + 1] == groups[j] && GroupOf(groups[j], rels + [r])
    requires forall j :: 0 <= j < k ==> groups[j].symnum < r.symbolnum
    requires forall j :: k <= j < |groups| ==> r.symbolnum < groups[j].symnum
    ensures Gathered(groups', rels + [r])
  {
    forall j | 0 <= j < |groups'| && j != k ensures groups'[j] == groups[if j < k then j else j - 1] {
      var i := if j < k then j else j - 1;
      assert groups'[if i < k then i else i + 1] == groups[i];
    }
    HasGroupsMore(groups, groups', rels, r, k);
  }

  lemma HasGroupsMore(groups: seq<Group>, groups': seq<Group>, rels: seq<Rel>, r: Rel, k: nat)
    requires Gathered(groups, rels) && k <= |groups|
    requires |groups'| == |groups| + 1 && groups'[k].symnum == r.symbolnum
    requires forall j :: 0 <= j < |groups| ==> groups'[if j < k then j else j + 1] == groups[j]
    ensures forall q :: 0 <= q <= |rels| && (rels + [r])[q].isExtern ==> HasGroup(groups', (rels + [r])[q].symbolnum)
  {
    forall q | 0 <= q <= |rels| && (rels + [r])[q].isExtern ensures HasGroup(groups', (rels + [r])[q].symbolnum) {
      if q < |rels| {
        assert HasGroup(groups, rels[q].symbolnum);
        var j :| 0 <= j < |groups| && groups[j].symnum == rels[q].symbolnum;
        assert groups'[if j < k then j else j + 1].symnum == rels[q].symbolnum;
      } else {
        assert groups'[k].symnum == r.symbolnum;
      }
    }
  }

  lemma {:induction false} TimesAppend(addrs: seq<nat>, b: nat, a: nat)
    ensures Times(addrs + [b], a) == Times(addrs, a) + if a == b then 1 else 0
  {
    if addrs != [] {
      TimesAppend(addrs[1..], b, a);
      assert (addrs + [b])[1..] == addrs[1..] + [b];
    }
  }

  function Events(g: Group): (log: seq<Fixup>)
    ensures |log| == |g.addrs|
  {
    seq(|g.addrs|, i requires 0 <= i < |g.addrs| => Fixup(g.symnum, g.addrs[i]))
  }

  /** Every group's addresses, in list order. */
  ghost function LogOf(groups: seq<Group>): seq<Fixup> {
    if groups == [] then [] else LogOf(groups[..|groups| - 1]) + Events(groups[|groups| - 1])
  }

  lemma {:induction false} CountEvents(log: seq<Fixup>, g: Group, s: nat, a: nat)
    ensures CountLog(log + Events(g), s, a) == CountLog(log, s, a) + if s == g.symnum then Times(g.addrs, a) else 0
    decreases |g.addrs|
  {
    if g.addrs == [] {
      assert log + Events(g) == log;
    } else {
      var m := |g.addrs| - 1;
      var g0 := Group(g.symnum, g.addrs[..m]);
      CountEvents(log, g0, s, a);
      TimesAppend(g.addrs[..m], g.addrs[m], a);
      assert g.addrs == g.addrs[..m] + [g.addrs[m]];
      assert (log + Events(g))[..|log| + m] == log + Events(g0);
    }
  }

  lemma {:induction false} CountLogNone(groups: seq<Group>, s: nat, a: nat)
    requires !HasGroup(groups, s)
    ensures CountLog(LogOf(groups), s, a) == 0
  {
    if groups != [] {
      var m := |groups| - 1;
      assert groups[m].symnum != s;
      assert forall k :: 0 <= k < m ==> groups[..m][k] == groups[k];
      CountLogNone(groups[..m], s, a);
      CountEvents(LogOf(groups[..m]), groups[m], s, a);
    }
  }

  lemma {:induction false} CountLogGroup(groups: seq<Group>, k: nat, a: nat)
    requires Ordered(groups) && k < |groups|
    ensures CountLog(LogOf(groups), groups[k].symnum, a) == Times(groups[k].addrs, a)
  {
    var m := |groups| - 1;
    assert forall j :: 0 <= j < m ==> groups[..m][j] == groups[j];
    CountEvents(LogOf(groups[..m]), groups[m], groups[k].symnum, a);
    if k < m {
      CountLogGroup(groups[..m], k, a);
    } else {
      CountLogNone(groups[..m], groups[k].symnum, a);
    }
  }

  /** Every external entry is handled as often as it occurs, under its own number. */
  lemma LogOfGathered(groups: seq<Group>, rels: seq<Rel>, s: nat, a: nat)
    requires Gathered(groups, rels)
    ensures CountLog(LogOf(groups), s, a) == Count(rels, s, a)
  {
    if HasGroup(groups, s) {
      var k :| 0 <= k < |groups| && groups[k].symnum == s;
      CountLogGroup(groups, k, a);
      assert GroupOf(groups[k], rels);
    } else {
      CountLogNone(groups, s, a);
      CountNone(rels, s, a);
    }
  }

  /** The name with number `s`. */
  function NameOf(table: seq<Byte>, s: nat): Name {
    if HasString(table, s) then StringAt(table, s) else []
  }

  /** What the linker has made of the code and of the unresolved references. */
  datatype Link = Link(image: map<nat, int>, urx: map<Target, seq<nat>>)

  /** One address handled: patched, or put on the queue of its target. */
  function Fix(l: Link, t: Target, v: Option<int>, a: nat): Link {
    match v
    case Some(x) => Link(l.image[a := x], l.urx)
    case None => Link(l.image, l.urx[t := [a] + Queue(l.urx, t)])
  }

  ghost function FixAll(l: Link, log: seq<Fixup>, table: seq<Byte>, routines: map<Name, Routine>): Link {
    if log == [] then l
    else
      var f := log[|log| - 1];
      var t := TargetOf(NameOf(table, f.symnum));
      Fix(FixAll(l, log[..|log| - 1], table, routines), t, Bound(routines, t), f.address)
  }

  lemma {:induction false} StringsEnd(table: seq<Byte>, j: nat, k: nat)
    requires j <= k && StringStart(table, j) < 0
    ensures StringStart(table, k) < 0
  {
    if j < k {
      StringsEnd(table, j, k - 1);
    }
  }

  /** String `i` begins at `p`. */
  lemma StringHere(table: seq<Byte>, i: nat, p: nat)
    requires p == StringStart(table, i)
    ensures p <= |table|
    ensures var e := ZeroFrom(table, p);
      && (HasString(table, i) <==> e < |table|)
      && StringStart(table, i + 1) == (if e < |table| then e + 1 else -1)
      && (HasString(table, i) ==> StringAt(table, i) == table[p..e])
  {
  }

  class Linker {
    const routines: map<Name, Routine>
    const base: nat
    var image: map<nat, int>
    var urx: map<Target, seq<nat>>

    constructor (routines: map<Name, Routine>, base: nat, image: map<nat, int>)
      ensures this.routines == routines && this.base == base && this.image == image && urx == map[]
    {
      this.routines, this.base, this.image, this.urx := routines, base, image, map[];
    }

    function Now(): Link reads this { Link(image, urx) }

    /** The entries are read in chunks. Internal ones move by the base at once; external ones are
        gathered. */
    method ReadRelocs(file: seq<Byte>, numrel: nat) returns (ok: bool, groups: seq<Group>)
      modifies this`image
      ensures ok <==> REL_SIZE * numrel <= |file|
      ensures ok ==> Gathered(groups, DecRels(file, numrel))
      ensures ok ==> Moved(old(image), image, DecRels(file, numrel), base)
    {
      groups := [];
      var got := 0;
      ghost var rels: seq<Rel> := [];
      while got < numrel
        invariant got <= numrel && REL_SIZE * got <= |file| && rels == DecRels(file, got)
        invariant Gathered(groups, rels) && Moved(old(image), image, rels, base)
      {
        var relRead := if numrel - got < RELREAD then numrel - got else RELREAD;
        if |file| < REL_SIZE * (got + relRead) {
          return false, [];
        }
        var start := got;
        while got < start + relRead
          invariant start <= got <= start + relRead && REL_SIZE * got <= |file| && rels == DecRels(file, got)
          invariant Gathered(groups, rels) && Moved(old(image), image, rels, base)
        {
          var r := DecRel(Entry(file, got));
          groups := TakeReloc(groups, r, rels, old(image));
          rels := rels + [r];
          got := got + 1;
          assert rels == DecRels(file, got);
        }
      }
      return true, groups;
    }

    method TakeReloc(groups: seq<Group>, r: Rel, ghost rels: seq<Rel>, ghost image0: map<nat, int>)
      returns (groups': seq<Group>)
      requires Gathered(groups, rels) && Moved(image0, image, rels, base)
      modifies this`image
      ensures Gathered(groups', rels + [r]) && Moved(image0, image, rels + [r], base)
    {
      assert (rels + [r])[..|rels|] == rels;
      if r.isExtern {
        groups' := Gather(groups, r.symbolnum, r.address, rels);
        assert rels + [r] == rels + [Rel(r.address, r.symbolnum, true)];
        forall a: nat ensures CountInternal(rels + [r], a) == CountInternal(rels, a) { }
      } else {
        groups' := groups;
        GatheredInternal(groups, rels, r);
        MovedMore(image0, image, rels, r, base);
        image := image[r.address := (WordAt(image, r.address) + base) % WORD];
      }
    }

    /** The walk: the string table and the gathered entries advance together. */
    method WalkSymbols(table: seq<Byte>, groups: seq<Group>) returns (ok: bool)
      requires Ordered(groups)
      modifies this`image, this`urx
      ensures ok <==> AllNamed(table, groups, |groups|)
      ensures ok ==> Walked(old(Now()), Now(), groups, |groups|, table, routines)
    {
      WalkedNone(Now(), groups, table, routines);
      ghost var l := Now();
      var p: nat, i: nat, k: nat := 0, 0, 0;
      while k < |groups|
        invariant k <= |groups| && p == StringStart(table, i) && (k < |groups| ==> i <= groups[k].symnum)
        invariant Walked(l, Now(), groups, k, table, routines)
      {
        ok, p := WalkNext(table, p, i, groups, k, l);
        if !ok {
          return false;
        }
        i, k := groups[k].symnum + 1, k + 1;
      }
      return true;
    }

    method WalkNext(table: seq<Byte>, p: nat, i: nat, groups: seq<Group>, k: nat, ghost l: Link)
      returns (ok: bool, next: nat)
      requires k < |groups| && p == StringStart(table, i) && i <= groups[k].symnum
      requires Walked(l, Now(), groups, k, table, routines)
      modifies this`image, this`urx
      ensures ok <==> HasString(table, groups[k].symnum)
      ensures ok ==>
        next == StringStart(table, groups[k].symnum + 1) && Walked(l, Now(), groups, k + 1, table, routines)
    {
      ok, next := WalkOne(table, p, i, groups[k], l, LogOf(groups[..k]));
      if ok {
        WalkedNext(l, Now(), groups, k, table, routines);
      }
    }

    /** From string `i` at `p`, on to the name of one group; its addresses are handled. */
    method WalkOne(table: seq<Byte>, p: nat, i: nat, g: Group, ghost l: Link, ghost log: seq<Fixup>)
      returns (ok: bool, next: nat)
      requires p == StringStart(table, i) && i <= g.symnum && Now() == FixAll(l, log, table, routines)
      modifies this`image, this`urx
      ensures ok <==> HasString(table, g.symnum)
      ensures ok ==> next == StringStart(table, g.symnum + 1) && Now() == FixAll(l, log + Events(g), table, routines)
    {
      ok, next := SkipTo(table, p, i, g.symnum);
      if !ok {
        return;
      }
      StringHere(table, g.symnum, next);
      var t;
      ok, t, next := ReadTarget(table, next);
      if !ok {
        return;
      }
      Handle(g, t, Bound(routines, t), table, l, log);
    }

    /** Forward to string `s`. */
    method SkipTo(table: seq<Byte>, p0: nat, i0: nat, s: nat) returns (ok: bool, p: nat)
      requires p0 == StringStart(table, i0) && i0 <= s
      ensures !ok ==> !HasString(table, s)
      ensures ok ==> p == StringStart(table, s)
    {
      var i: nat := i0;
      p := p0;
      while i < s
        invariant i <= s && p == StringStart(table, i)
      {
        StringHere(table, i, p);
        p := ScanZero(table, p, p);
        if p == |table| {
          StringsEnd(table, i + 1, s + 1);
          return false, 0;
        }
        p, i := p + 1, i + 1;
      }
      return true, p;
    }

    /** From `q` to the first zero byte, nothing from `p` to `q` being zero. */
    method ScanZero(table: seq<Byte>, p: nat, q0: nat) returns (q: nat)
      requires p <= q0 <= |table| && forall j :: p <= j < q0 ==> table[j] != 0
      ensures q0 <= q == ZeroFrom(table, p) <= |table|
    {
      q := q0;
      while q < |table| && table[q] != 0
        invariant q0 <= q <= |table| && forall j :: p <= j < q ==> table[j] != 0
      {
        q := q + 1;
      }
      ZeroIs(table, p, q);
    }

    /** The name at `p`: the routine part up to a dot or the end, then the label part. */
    method ReadTarget(table: seq<Byte>, p: nat) returns (ok: bool, t: Target, next: nat)
      requires p <= |table|
      ensures ok <==> ZeroFrom(table, p) < |table|
      ensures ok ==> t == TargetOf(table[p..ZeroFrom(table, p)]) && next == ZeroFrom(table, p) + 1
    {
      t, next := RoutineRef([]), 0;
      var d := p;
      while d < |table| && table[d] != DOT && table[d] != 0
        invariant p <= d <= |table| && forall j :: p <= j < d ==> table[j] != 0 && table[j] != DOT
      {
        d := d + 1;
      }
      var q := d;
      if d < |table| && table[d] == DOT {
        q := ScanZero(table, p, d + 1);
      } else {
        ZeroIs(table, p, d);
      }
      if q == |table| {
        return false, t, 0;
      }
      SplitAt(table, p, d, q);
      if d < q {
        t := LabelRef(Mident(table[p..d]), Mident(table[d + 1..q]));
      } else {
        t := RoutineRef(Mident(table[p..d]));
      }
      return true, t, q + 1;
    }

    /** addr_fix, on what follows code and literals in the file. The section sizes come from the file
        header, in bytes. `moved` is the image between the two phases. */
    method AddrFix(file: seq<Byte>, trsize: nat, drsize: nat, syms: nat)
      returns (ok: bool, ghost log: seq<Fixup>, ghost moved: map<nat, int>)
      modifies this`image, this`urx
      ensures ok <==> Linkable(file, trsize + drsize, syms)
      ensures ok ==> Moved(old(image), moved, DecRels(file, (trsize + drsize) / REL_SIZE), base)
      ensures ok ==> Logged(log, DecRels(file, (trsize + drsize) / REL_SIZE))
      ensures ok ==> Now() == FixAll(Link(moved, old(urx)), log, TableAt(file, trsize + drsize + syms), routines)
    {
      log, moved := [], image;
      var numrel := (trsize + drsize) / REL_SIZE;
      if numrel * REL_SIZE != trsize + drsize {
        return false, log, moved;
      }
      var groups;
      ok, groups := ReadRelocs(file, numrel);
      if !ok {
        return false, log, moved;
      }
      moved := image;
      log := LogOf(groups);
      LogGathered(groups, DecRels(file, numrel));
      LinkableGroups(file, trsize + drsize, syms, groups);
      ok := FixExternals(file, trsize + drsize + syms, groups, TableAt(file, trsize + drsize + syms), log,
                         Linkable(file, trsize + drsize, syms));
    }

    /** The second phase, when there are external entries. */
    method FixExternals(file: seq<Byte>, at: nat, groups: seq<Group>, ghost table: seq<Byte>, ghost log: seq<Fixup>,
                        ghost able: bool)
      returns (ok: bool)
      requires Ordered(groups) && table == TableAt(file, at) && log == LogOf(groups)
      requires able == Resolvable(file, at, groups)
      modifies this`image, this`urx
      ensures ok == able
      ensures ok ==> Now() == FixAll(old(Now()), log, table, routines)
    {
      ghost var l := Now();
      if groups == [] {
        return true;
      }
      if |file| < at + 4 {
        return false;
      }
      var stringSize := Word(file[at..at + 4]);
      if stringSize < 4 || |file| < at + stringSize {
        return false;
      }
      var strings := file[at + 4..at + stringSize];
      ok := WalkSymbols(strings, groups);
      assert strings == table;
      WalkedAll(l, Now(), groups, strings, routines);
    }

    /** All the addresses of one symbol. */
    method Handle(g: Group, t: Target, v: Option<int>, ghost table: seq<Byte>, ghost l: Link, ghost log: seq<Fixup>)
      requires HasString(table, g.symnum) && t == TargetOf(StringAt(table, g.symnum)) && v == Bound(routines, t)
      requires Now() == FixAll(l, log, table, routines)
      modifies this`image, this`urx
      ensures Now() == FixAll(l, log + Events(g), table, routines)
    {
      var j := 0;
      HandledEnds(l, Now(), log, g, table, routines);
      while j < |g.addrs|
        invariant 0 <= j <= |g.addrs|
        invariant Handled(l, Now(), log, g, j, table, routines)
      {
        FixNext(l, Now(), log, g, j, table, routines);
        HandleOne(g.addrs[j], t, v);
        j := j + 1;
      }
      HandledEnds(l, Now(), log, g, table, routines);
    }

    method HandleOne(a: nat, t: Target, v: Option<int>)
      modifies this`image, this`urx
      ensures Now() == Fix(old(Now()), t, v, a)
    {
      if v.Some? {
        image := image[a := v.value];
      } else {
        urx := urx[t := [a] + Queue(urx, t)];
      }
    }
  }

  /** `k` groups are done. */
  ghost predicate Walked(l: Link, now: Link, groups: seq<Group>, k: nat, table: seq<Byte>,
                         routines: map<Name, Routine>) {
    k <= |groups| && AllNamed(table, groups, k) && now == FixAll(l, LogOf(groups[..k]), table, routines)
  }

  /** The string table with its length word is there. */
  predicate HasTable(file: seq<Byte>, at: nat) {
    at + 4 <= |file| && 4 <= Word(file[at..at + 4]) <= |file| - at
  }

  function TableAt(file: seq<Byte>, at: nat): seq<Byte> {
    if HasTable(file, at) then file[at + 4..at + Word(file[at..at + 4])] else []
  }

  /** Whether addr_fix succeeds: whole entries, and for external ones a string table with their
      names. */
  ghost predicate Linkable(file: seq<Byte>, relSize: nat, syms: nat) {
    && relSize % REL_SIZE == 0 && relSize <= |file|
    && forall r :: 0 <= r < relSize / REL_SIZE && DecRels(file, relSize / REL_SIZE)[r].isExtern ==>
      HasTable(file, relSize + syms) &&
        HasString(TableAt(file, relSize + syms), DecRels(file, relSize / REL_SIZE)[r].symbolnum)
  }

  /** The log handles every external entry exactly as often as it occurs. */
  ghost predicate Logged(log: seq<Fixup>, rels: seq<Rel>) {
    forall s: nat, a: nat :: CountLog(log, s, a) == Count(rels, s, a)
  }

  lemma LogGathered(groups: seq<Group>, rels: seq<Rel>)
    requires Gathered(groups, rels)
    ensures Logged(LogOf(groups), rels)
  {
    forall s: nat, a: nat ensures CountLog(LogOf(groups), s, a) == Count(rels, s, a) {
      LogOfGathered(groups, rels, s, a);
    }
  }

  /** The string table has the names of all the groups. */
  ghost predicate Resolvable(file: seq<Byte>, at: nat, groups: seq<Group>) {
    groups == [] || (HasTable(file, at) && AllNamed(TableAt(file, at), groups, |groups|))
  }

  /** What success takes, by groups. */
  lemma LinkableGroups(file: seq<Byte>, relSize: nat, syms: nat, groups: seq<Group>)
    requires relSize % REL_SIZE == 0 && relSize <= |file| && Gathered(groups, DecRels(file, relSize / REL_SIZE))
    ensures Ordered(groups)
    ensures Linkable(file, relSize, syms) <==> Resolvable(file, relSize + syms, groups)
  {
    GatheredNames(groups, DecRels(file, relSize / REL_SIZE), TableAt(file, relSize + syms));
  }

  /** Groups and external entries have the same symbol numbers. */
  lemma GatheredNames(groups: seq<Group>, rels: seq<Rel>, table: seq<Byte>)
    requires Gathered(groups, rels)
    ensures groups == [] <==> forall r :: 0 <= r < |rels| ==> !rels[r].isExtern
    ensures Ordered(groups)
    ensures AllNamed(table, groups, |groups|) <==> forall r :: 0 <= r < |rels| && rels[r].isExtern ==>
      HasString(table, rels[r].symbolnum)
  {
    forall r | 0 <= r < |rels| && rels[r].isExtern ensures HasGroup(groups, rels[r].symbolnum) { }
    forall k | 0 <= k < |groups|
      ensures exists r :: 0 <= r < |rels| && rels[r].isExtern && rels[r].symbolnum == groups[k].symnum
    {
      assert GroupOf(groups[k], rels);
      var a := groups[k].addrs[0];
      assert Times(groups[k].addrs, a) > 0;
      if forall r :: 0 <= r < |rels| && rels[r].isExtern ==> rels[r].symbolnum != groups[k].symnum {
        CountNone(rels, groups[k].symnum, a);
      }
    }
    assert groups != [] ==> groups[0].symnum >= 0;
  }

  lemma WalkedAll(l: Link, now: Link, groups: seq<Group>, table: seq<Byte>, routines: map<Name, Routine>)
    ensures Walked(l, now, groups, |groups|, table, routines) ==> now == FixAll(l, LogOf(groups), table, routines)
  {
    assert groups[..|groups|] == groups;
  }

  lemma WalkedNone(l: Link, groups: seq<Group>, table: seq<Byte>, routines: map<Name, Routine>)
    ensures Walked(l, l, groups, 0, table, routines)
  {
  }

  lemma WalkedNext(l: Link, now: Link, groups: seq<Group>, k: nat, table: seq<Byte>, routines: map<Name, Routine>)
    requires k < |groups| && AllNamed(table, groups, k) && HasString(table, groups[k].symnum)
    requires now == FixAll(l, LogOf(groups[..k]) + Events(groups[k]), table, routines)
    ensures Walked(l, now, groups, k + 1, table, routines)
  {
    assert groups[..k + 1][..k] == groups[..k];
  }

  ghost predicate AllNamed(table: seq<Byte>, groups: seq<Group>, n: nat) {
    forall k :: 0 <= k < n && k < |groups| ==> HasString(table, groups[k].symnum)
  }

  /** `j` addresses of the group are done. */
  ghost predicate Handled(l: Link, now: Link, log: seq<Fixup>, g: Group, j: nat, table: seq<Byte>,
                          routines: map<Name, Routine>)
    requires j <= |g.addrs|
  {
    now == FixAll(l, log + Events(g)[..j], table, routines)
  }

  /** None of the addresses, and all of them. */
  lemma HandledEnds(l: Link, now: Link, log: seq<Fixup>, g: Group, table: seq<Byte>, routines: map<Name, Routine>)
    ensures now == FixAll(l, log, table, routines) ==> Handled(l, now, log, g, 0, table, routines)
    ensures Handled(l, now, log, g, |g.addrs|, table, routines) ==> now == FixAll(l, log + Events(g), table, routines)
  {
    assert log + Events(g)[..0] == log;
    assert Events(g)[..|g.addrs|] == Events(g);
  }

  lemma FixNext(l: Link, now: Link, log: seq<Fixup>, g: Group, j: nat, table: seq<Byte>, routines: map<Name, Routine>)
    requires j < |g.addrs| && Handled(l, now, log, g, j, table, routines)
    ensures var t := TargetOf(NameOf(table, g.symnum));
      Handled(l, Fix(now, t, Bound(routines, t), g.addrs[j]), log, g, j + 1, table, routines)
  {
    assert log + Events(g)[..j + 1] == log + Events(g)[..j] + [Fixup(g.symnum, g.addrs[j])];
    FixSnoc(l, log + Events(g)[..j], Fixup(g.symnum, g.addrs[j]), table, routines);
  }

  lemma FixSnoc(l: Link, log: seq<Fixup>, f: Fixup, table: seq<Byte>, routines: map<Name, Routine>)
    ensures var t := TargetOf(NameOf(table, f.symnum));
      FixAll(l, log + [f], table, routines) == Fix(FixAll(l, log, table, routines), t, Bound(routines, t), f.address)
  {
    assert (log + [f])[..|log|] == log;
  }

  lemma SplitAt(table: seq<Byte>, p: nat, d: nat, q: nat)
    requires p <= d <= q < |table| && (d < q ==> table[d] == DOT) && forall j :: p <= j < d ==> table[j] != DOT
    ensures TargetOf(table[p..q])
      == if d < q then LabelRef(Mident(table[p..d]), Mident(table[d + 1..q])) else RoutineRef(Mident(table[p..d]))
  {
    var n := table[p..q];
    TargetIs(n, d - p);
    if d < q {
      assert n[..d - p] == table[p..d] && n[d - p + 1..] == table[d + 1..q];
    }
  }

  /** A scan that stops at the first zero byte stops where ZeroAt says. */
  lemma ZeroIs(table: seq<Byte>, p: nat, q: nat)
    requires p <= q <= |table| && forall j :: p <= j < q ==> table[j] != 0
    requires q < |table| ==> table[q] == 0
    ensures ZeroFrom(table, p) == q
  {
  }

  lemma TargetIs(n: Name, d: nat)
    requires d <= |n| && (forall j :: 0 <= j < d ==> n[j] != DOT) && (d < |n| ==> n[d] == DOT)
    ensures DotAt(n) == d
  {
  }

  /** Each word has moved by the base once for every internal entry at it. */
  ghost predicate Moved(image0: map<nat, int>, image: map<nat, int>, rels: seq<Rel>, base: int) {
    forall a: nat :: WordAt(image, a) == Rebased(WordAt(image0, a), CountInternal(rels, a), base)
  }

  lemma MovedMore(image0: map<nat, int>, image: map<nat, int>, rels: seq<Rel>, r: Rel, base: int)
    requires Moved(image0, image, rels, base) && !r.isExtern
    ensures Moved(image0, image[r.address := (WordAt(image, r.address) + base) % WORD], rels + [r], base)
  {
    assert (rels + [r])[..|rels|] == rels;
  }

  lemma GatheredInternal(groups: seq<Group>, rels: seq<Rel>, r: Rel)
    requires Gathered(groups, rels) && !r.isExtern
    ensures Gathered(groups, rels + [r])
  {
    forall k | 0 <= k < |groups| ensures GroupOf(groups[k], rels + [r]) {
      OtherGroup(groups[k], rels, r);
    }
  }
}
