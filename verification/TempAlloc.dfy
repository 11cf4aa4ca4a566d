/** Temporary slots for triple values, as sr_port/alloc_reg.c gives them out: one pass over the triples
    in execution order, a slot taken when a value is made and given back when its last back pointer
    goes. A triple is known by its position in execution order. */
module TempAlloc {

  const VALUED_REF_TYPES: nat := 6
  const TVAR_REF: nat := 1
  const TVAL_REF: nat := 2
  const MAX_TEMP_COUNT: nat := 1024

  datatype Kind = Noop | Parameter | LineStart | LineFetch | ILit | PassThru | Other

  /** An operand of the triple `user` that is the value of triple `ref`. The operands of a triple
      include those of the parameter triples behind it. */
  datatype Use = Use(user: nat, ref: nat)

  /** The class of a value that wants a temporary. */
  datatype Class = NoValue | Valued(r: nat)

  datatype Triple = Triple(kind: Kind, class_: Class, uses: seq<Use>)

  datatype Slot = NoSlot | Slot(r: nat, temp: nat)

  ghost predicate WellFormed(code: seq<Triple>) {
    forall i :: 0 <= i < |code| ==>
      (code[i].class_.Valued? ==> TVAR_REF < code[i].class_.r < VALUED_REF_TYPES)
      && (code[i].kind == PassThru ==> |code[i].uses| == 1)
      && (forall k :: 0 <= k < |code[i].uses| ==> code[i].uses[k].ref < i)
  }

  /** A line start with nothing on its line: it becomes a no-op. */
  ghost predicate Comment(code: seq<Triple>, i: nat, lineEntry: bool)
    requires i < |code|
  {
    && code[i].kind == LineStart && i + 1 < |code|
    && (code[i + 1].kind == LineStart || code[i + 1].kind == LineFetch
      || (!lineEntry && code[i + 1].kind == ILit && i + 2 < |code| && code[i + 2].kind == LineFetch))
  }

  ghost predicate Skipped(code: seq<Triple>, i: nat, lineEntry: bool)
    requires i < |code|
  {
    code[i].kind == Noop || code[i].kind == Parameter || Comment(code, i, lineEntry)
  }

  /** All TVAL slots become free here. */
  ghost predicate Clears(code: seq<Triple>, i: nat, lineEntry: bool)
    requires i < |code|
  {
    (code[i].kind == LineStart || code[i].kind == LineFetch) && !Skipped(code, i, lineEntry)
  }

  ghost predicate Defines(code: seq<Triple>, i: nat, lineEntry: bool)
    requires i < |code|
  {
    !Skipped(code, i, lineEntry) && code[i].kind != PassThru && code[i].class_.Valued?
  }

  ghost function Operands(code: seq<Triple>, i: nat, lineEntry: bool): seq<Use>
    requires i < |code|
  {
    if Skipped(code, i, lineEntry) then [] else code[i].uses
  }

  ghost predicate UsedIn(uses: seq<Use>, d: nat) {
    exists k :: 0 <= k < |uses| && uses[k].ref == d
  }

  /** Some triple from `i` on has the value of `d` as an operand. */
  ghost predicate Needed(code: seq<Triple>, lineEntry: bool, d: nat, i: nat) {
    exists j :: i <= j < |code| && UsedIn(Operands(code, j, lineEntry), d)
  }

  ghost function UsesIn(uses: seq<Use>, d: nat, u: nat): (n: nat) {
    if uses == [] then 0 else (if uses[0] == Use(u, d) then 1 else 0) + UsesIn(uses[1..], d, u)
  }

  ghost function UsesFrom(code: seq<Triple>, lineEntry: bool, d: nat, u: nat, i: nat): (n: nat)
    decreases |code| - i
  {
    if i >= |code| then 0
    else UsesIn(Operands(code, i, lineEntry), d, u) + UsesFrom(code, lineEntry, d, u, i + 1)
  }

  ghost function Times(users: seq<nat>, u: nat): (n: nat) {
    if users == [] then 0 else (if users[0] == u then 1 else 0) + Times(users[1..], u)
  }

  /** No TVAL value is needed across a point where the TVAL slots are cleared. */
  ghost predicate NoneAcross(code: seq<Triple>, lineEntry: bool) {
    forall i, d :: 0 <= d < i < |code| && Clears(code, i, lineEntry) && code[d].class_ == Valued(TVAL_REF) ==>
      !Needed(code, lineEntry, d, i)
  }

  /** At least one back pointer for each use; no others if `exact`. */
  ghost predicate BackPointed(code: seq<Triple>, lineEntry: bool, backptr: seq<seq<nat>>, exact: bool) {
    |backptr| == |code| && forall d, u: nat :: 0 <= d < |code| ==>
      Matches(Times(backptr[d], u), UsesFrom(code, lineEntry, d, u, 0), exact)
  }

  ghost predicate Matches(pointers: nat, uses: nat, exact: bool) {
    if exact then pointers == uses else pointers >= uses
  }

  /** Slot `s` is that of a value made before triple `i` and needed there or later. */
  ghost predicate Occupied(code: seq<Triple>, lineEntry: bool, dest: seq<Slot>, s: Slot, i: nat) {
    exists d :: 0 <= d < i && d < |dest| && dest[d] == s && Needed(code, lineEntry, d, i)
  }

  /** The TVAL slots are not cleared at any triple after `d` and before `n`. */
  ghost predicate Uncleared(code: seq<Triple>, lineEntry: bool, d: nat, n: nat) {
    forall j :: d < j < n && j < |code| ==> !Clears(code, j, lineEntry)
  }

  /** Slot `s` was given to a value before triple `i`, since the TVAL slots were last cleared if it is one. */
  ghost predicate GivenBefore(code: seq<Triple>, lineEntry: bool, dest: seq<Slot>, s: Slot, i: nat) {
    exists d :: GivenAt(code, lineEntry, dest, s, d, i)
  }

  ghost predicate GivenAt(code: seq<Triple>, lineEntry: bool, dest: seq<Slot>, s: Slot, d: int, i: nat) {
    && s.Slot? && 0 <= d < i && d < |dest| && dest[d] == s
    && (s.r == TVAL_REF ==> Uncleared(code, lineEntry, d, i + 1))
  }

  ghost predicate LowerGiven(code: seq<Triple>, lineEntry: bool, dest: seq<Slot>, s: Slot, i: nat) {
    s.Slot? ==> forall t: nat {:trigger GivenBefore(code, lineEntry, dest, Slot(s.r, t), i)} :: t < s.temp ==>
      GivenBefore(code, lineEntry, dest, Slot(s.r, t), i)
  }

  /** The slots of each class are given out in turn: where one is, all lower ones were before, TVAL ones since they
      were last cleared. */
  ghost predicate InTurn(code: seq<Triple>, lineEntry: bool, dest: seq<Slot>) {
    forall i: nat {:trigger LowerGiven(code, lineEntry, dest, dest[i], i)} :: i < |dest| ==>
      LowerGiven(code, lineEntry, dest, dest[i], i)
  }

  /** The first `n` slots of class `r` are occupied where triple `i` makes a value of that class that is used. */
  ghost predicate Crowded(code: seq<Triple>, lineEntry: bool, dest: seq<Slot>, r: nat, n: nat, i: nat) {
    && i < |code| && Defines(code, i, lineEntry) && code[i].class_ == Valued(r) && Needed(code, lineEntry, i, 0)
    && forall t: nat :: t < n ==> Occupied(code, lineEntry, dest, Slot(r, t), i)
  }

  /** A slot is given out only where all lower ones of its class are occupied. */
  ghost predicate Lowest(code: seq<Triple>, lineEntry: bool, dest: seq<Slot>) {
    forall d {:trigger Crowded(code, lineEntry, dest, dest[d].r, dest[d].temp, d)} ::
      0 <= d < |dest| && dest[d].Slot? ==> Crowded(code, lineEntry, dest, dest[d].r, dest[d].temp, d)
  }

  /** A right assignment that takes no more than `n` slots of class `r`. */
  ghost predicate Right(code: seq<Triple>, lineEntry: bool, dest: seq<Slot>, r: nat, n: nat) {
    && |dest| == |code| && Apart(code, lineEntry, dest) && Placed(code, lineEntry, dest)
    && forall d :: 0 <= d < |dest| && dest[d].Slot? && dest[d].r == r ==> dest[d].temp < n
  }

  /** A value and a later one in the same slot: the first is not an operand of the second's triple nor
      of any after it. */
  ghost predicate Apart(code: seq<Triple>, lineEntry: bool, dest: seq<Slot>) {
    forall c, d :: 0 <= c < d < |dest| && dest[c].Slot? && dest[c] == dest[d] ==> !Needed(code, lineEntry, c, d)
  }

  /** Every operand that is a temporary value has a slot; slots are given to values only, by class. */
  ghost predicate Placed(code: seq<Triple>, lineEntry: bool, dest: seq<Slot>) {
    && ByClass(code, lineEntry, dest)
    && forall d :: 0 <= d < |dest| && d < |code| ==>
      (Defines(code, d, lineEntry) && Needed(code, lineEntry, d, 0) ==> dest[d].Slot?)
  }

  ghost predicate ByClass(code: seq<Triple>, lineEntry: bool, dest: seq<Slot>) {
    forall d :: 0 <= d < |dest| && d < |code| && dest[d].Slot? ==>
      Defines(code, d, lineEntry) && code[d].class_ == Valued(dest[d].r)
  }

  /** No right assignment does with fewer than `n` slots of class `r`. */
  ghost predicate AtLeast(code: seq<Triple>, lineEntry: bool, r: nat, n: nat) {
    forall m: nat, other: seq<Slot> :: Right(code, lineEntry, other, r, m) ==> n <= m
  }

  /** Two values needed at once are in two slots. */
  lemma ApartAt(code: seq<Triple>, lineEntry: bool, other: seq<Slot>, d: nat, e: nat, i: nat)
    requires Apart(code, lineEntry, other) && d < |other| && e < |other| && d != e && other[d].Slot?
    requires (d == i || (d < i && Needed(code, lineEntry, d, i)))
    requires (e == i || (e < i && Needed(code, lineEntry, e, i)))
    ensures other[d] != other[e]
  {
    var c, c' := if d < e then d else e, if d < e then e else d;
    assert Needed(code, lineEntry, c, c');
  }

  /** Slot `x` of the other assignment is that of a value in one of the first `m` slots. */
  ghost predicate HeldBelow(code: seq<Triple>, lineEntry: bool, dest: seq<Slot>, other: seq<Slot>, r: nat, i: nat,
                            m: nat, x: nat)
    requires |dest| == |other| == |code| && i <= |code|
  {
    exists e: nat :: e < i && dest[e].Slot? && dest[e].r == r && dest[e].temp < m && Needed(code, lineEntry, e, i) &&
      other[e] == Slot(r, x)
  }

  /** The values in the first `m` slots, needed at triple `i` at once, have as many slots in any other right
      assignment. */
  lemma {:induction false} Together(code: seq<Triple>, lineEntry: bool, dest: seq<Slot>, other: seq<Slot>, r: nat,
                                    n: nat, i: nat, m: nat)
      returns (s: set<nat>)
    requires Right(code, lineEntry, other, r, n) && |dest| == |code| && i < |code| && ByClass(code, lineEntry, dest)
    requires forall t: nat :: t < m ==> Occupied(code, lineEntry, dest, Slot(r, t), i)
    ensures |s| == m && forall x :: x in s ==> x < n && HeldBelow(code, lineEntry, dest, other, r, i, m, x)
  {
    if m == 0 {
      return {};
    }
    var s' := Together(code, lineEntry, dest, other, r, n, i, m - 1);
    assert Occupied(code, lineEntry, dest, Slot(r, m - 1), i);
    var d :| 0 <= d < i && d < |dest| && dest[d] == Slot(r, m - 1) && Needed(code, lineEntry, d, i);
    var x := OneMore(code, lineEntry, dest, other, r, n, i, m - 1, d);
    AddOne(s', x);
    s := s' + {x};
    forall y | y in s ensures y < n && HeldBelow(code, lineEntry, dest, other, r, i, m, y) {
      if y in s' {
        HeldMore(code, lineEntry, dest, other, r, i, m - 1, y);
      }
    }
  }

  lemma AddOne(s: set<nat>, x: nat)
    ensures x !in s ==> |s + {x}| == |s| + 1
  {
  }

  lemma HeldMore(code: seq<Triple>, lineEntry: bool, dest: seq<Slot>, other: seq<Slot>, r: nat, i: nat, m: nat, x: nat)
    requires |dest| == |other| == |code| && i <= |code| && HeldBelow(code, lineEntry, dest, other, r, i, m, x)
    ensures HeldBelow(code, lineEntry, dest, other, r, i, m + 1, x)
  {
  }

  /** The value in slot `m` has another slot than those below it. */
  lemma OneMore(code: seq<Triple>, lineEntry: bool, dest: seq<Slot>, other: seq<Slot>, r: nat, n: nat, i: nat, m: nat,
                d: nat)
    returns (x: nat)
    requires Right(code, lineEntry, other, r, n) && |dest| == |code| && i < |code| && ByClass(code, lineEntry, dest)
    requires d < i && dest[d] == Slot(r, m) && Needed(code, lineEntry, d, i)
    ensures x < n && HeldBelow(code, lineEntry, dest, other, r, i, m + 1, x)
    ensures !HeldBelow(code, lineEntry, dest, other, r, i, m, x)
  {
    SlotOf(code, lineEntry, other, r, n, d, i);
    forall e: nat | e < i && dest[e].Slot? && dest[e].temp < m && Needed(code, lineEntry, e, i)
      ensures other[e] != other[d]
    {
      ApartAt(code, lineEntry, other, d, e, i);
    }
    x := other[d].temp;
  }

  /** A value of class `r` that is needed has a slot of that class. */
  lemma SlotOf(code: seq<Triple>, lineEntry: bool, other: seq<Slot>, r: nat, n: nat, d: nat, i: nat)
    requires Right(code, lineEntry, other, r, n) && d < |code| && Needed(code, lineEntry, d, i)
    requires Defines(code, d, lineEntry) && code[d].class_ == Valued(r)
    ensures other[d].Slot? && other[d].r == r && other[d].temp < n
  {
    assert Needed(code, lineEntry, d, 0);
  }

  lemma {:induction false} Bounded(s: set<nat>, n: nat)
    requires forall x :: x in s ==> x < n
    ensures |s| <= n
  {
    if n > 0 {
      Bounded(s - {n - 1}, n - 1);
    } else {
      assert s == {};
    }
  }

  /** Where `m` slots are occupied and one more is wanted, no right assignment does with `m`. */
  lemma CrowdedAtLeast(code: seq<Triple>, lineEntry: bool, dest: seq<Slot>, r: nat, m: nat, i: nat)
    requires |dest| == |code| && ByClass(code, lineEntry, dest) && Crowded(code, lineEntry, dest, r, m, i)
    ensures AtLeast(code, lineEntry, r, m + 1)
  {
    forall n: nat, other: seq<Slot> | Right(code, lineEntry, other, r, n) ensures m + 1 <= n {
      var s := Together(code, lineEntry, dest, other, r, n, i, m);
      SlotOf(code, lineEntry, other, r, n, i, 0);
      forall e: nat | e < i && Needed(code, lineEntry, e, i) ensures other[e] != other[i] {
        ApartAt(code, lineEntry, other, i, e, i);
      }
      Bounded(s + {other[i].temp}, n);
    }
  }

  // The same by the kinds of triples.

  /** The triples that are not skipped. */
  ghost predicate IsRun(code: seq<Triple>, lineEntry: bool, run: set<nat>) {
    forall i: nat :: i in run <==> i < |code| && !Skipped(code, i, lineEntry)
  }

  lemma RunListed(code: seq<Triple>, lineEntry: bool, run: set<nat>)
    requires forall i: nat {:trigger i in run} :: i in run <==>
      && i < |code| && code[i].kind != Noop && code[i].kind != Parameter
      && (code[i].kind == LineStart && i + 1 < |code| ==>
            && code[i + 1].kind != LineStart && code[i + 1].kind != LineFetch
            && (!lineEntry && code[i + 1].kind == ILit && i + 2 < |code| ==> code[i + 2].kind != LineFetch))
    ensures IsRun(code, lineEntry, run)
  {
    forall i: nat ensures i in run <==> i < |code| && !Skipped(code, i, lineEntry) { }
  }

  /** If triple `d` makes a value that wants a temporary, it has a slot of its class, and no triple after it up to
      `j` has the same. */
  ghost predicate SlotKept(code: seq<Triple>, dest: seq<Slot>, run: set<nat>, j: nat, d: nat) {
    d < |code| && |dest| == |code| &&
      (d in run && code[d].kind != PassThru && code[d].class_.Valued? ==>
         dest[d].Slot? && dest[d].r == code[d].class_.r && forall c :: d < c <= j && c < |dest| ==> dest[c] != dest[d])
  }

  /** Slot `s` was given to some triple before `d`, and if it is a TVAL slot there is no line start since. */
  ghost predicate TakenSince(code: seq<Triple>, dest: seq<Slot>, run: set<nat>, s: Slot, d: nat) {
    exists e :: 0 <= e < d && e < |dest| && dest[e] == s &&
      (s.Slot? && s.r == TVAL_REF ==> NoLineStart(code, run, e, d))
  }

  ghost predicate NoLineStart(code: seq<Triple>, run: set<nat>, e: nat, d: nat) {
    forall j: nat :: j in run && e < j <= d && j < |code| ==> code[j].kind != LineStart && code[j].kind != LineFetch
  }

  /** An operand that is a value has a slot of the value's class, which nobody else takes before. */
  ghost predicate AllKept(code: seq<Triple>, dest: seq<Slot>, run: set<nat>) {
    forall j, k :: j in run && j < |code| && 0 <= k < |code[j].uses| ==>
      SlotKept(code, dest, run, j, code[j].uses[k].ref)
  }

  /** Where a slot is given out, all lower ones were, TVAL ones since the last line start. */
  ghost predicate AllTaken(code: seq<Triple>, dest: seq<Slot>, run: set<nat>) {
    forall d, t: nat :: 0 <= d < |dest| && dest[d].Slot? && t < dest[d].temp ==>
      TakenSince(code, dest, run, Slot(dest[d].r, t), d)
  }

  lemma SlotsKept(code: seq<Triple>, lineEntry: bool, dest: seq<Slot>, run: set<nat>)
    requires WellFormed(code) && IsRun(code, lineEntry, run) && |dest| == |code|
    requires Apart(code, lineEntry, dest) && Placed(code, lineEntry, dest)
    ensures AllKept(code, dest, run)
  {
    forall j, k | j in run && j < |code| && 0 <= k < |code[j].uses|
      ensures SlotKept(code, dest, run, j, code[j].uses[k].ref)
    {
      var d := code[j].uses[k].ref;
      assert Operands(code, j, lineEntry)[k].ref == d && UsedIn(Operands(code, j, lineEntry), d);
      assert Needed(code, lineEntry, d, 0);
      forall c | d < c <= j && c < |dest| && dest[d].Slot? ensures dest[c] != dest[d] {
        assert Needed(code, lineEntry, d, c);
      }
    }
  }

  lemma SlotsTaken(code: seq<Triple>, lineEntry: bool, dest: seq<Slot>, run: set<nat>)
    requires IsRun(code, lineEntry, run) && |dest| == |code| && InTurn(code, lineEntry, dest)
    ensures AllTaken(code, dest, run)
  {
    forall d, t: nat | 0 <= d < |code| && dest[d].Slot? && t < dest[d].temp
      ensures TakenSince(code, dest, run, Slot(dest[d].r, t), d)
    {
      assert LowerGiven(code, lineEntry, dest, dest[d], d);
      assert GivenBefore(code, lineEntry, dest, Slot(dest[d].r, t), d);
      var e :| GivenAt(code, lineEntry, dest, Slot(dest[d].r, t), e, d);
      forall j: nat | dest[d].r == TVAL_REF && j in run && e < j <= d && j < |code|
        ensures code[j].kind != LineStart && code[j].kind != LineFetch
      {
        assert !Clears(code, j, lineEntry);
      }
    }
  }

  // Uses, counted and found.

  lemma {:induction false} UsedCounted(uses: seq<Use>, d: nat)
    requires UsedIn(uses, d)
    ensures exists u: nat :: UsesIn(uses, d, u) > 0
  {
    if uses[0].ref == d {
      assert UsesIn(uses, d, uses[0].user) > 0;
    } else {
      var k :| 0 <= k < |uses| && uses[k].ref == d;
      assert uses[1..][k - 1].ref == d;
      UsedCounted(uses[1..], d);
      var u: nat :| UsesIn(uses[1..], d, u) > 0;
      assert UsesIn(uses, d, u) > 0;
    }
  }

  lemma {:induction false} NeededCounted(code: seq<Triple>, lineEntry: bool, d: nat, i: nat)
    requires Needed(code, lineEntry, d, i)
    ensures exists u: nat :: UsesFrom(code, lineEntry, d, u, i) > 0
    decreases |code| - i
  {
    if UsedIn(Operands(code, i, lineEntry), d) {
      UsedCounted(Operands(code, i, lineEntry), d);
      var u: nat :| UsesIn(Operands(code, i, lineEntry), d, u) > 0;
      assert UsesFrom(code, lineEntry, d, u, i) > 0;
    } else {
      NeededCounted(code, lineEntry, d, i + 1);
      var u: nat :| UsesFrom(code, lineEntry, d, u, i + 1) > 0;
      assert UsesFrom(code, lineEntry, d, u, i) > 0;
    }
  }

  lemma {:induction false} CountedUsed(uses: seq<Use>, d: nat, u: nat)
    requires UsesIn(uses, d, u) > 0
    ensures UsedIn(uses, d)
  {
    if uses[0].ref != d {
      CountedUsed(uses[1..], d, u);
      var k :| 0 <= k < |uses[1..]| && uses[1..][k].ref == d;
      assert uses[k + 1].ref == d;
    }
  }

  lemma {:induction false} CountedNeeded(code: seq<Triple>, lineEntry: bool, d: nat, u: nat, i: nat)
    requires UsesFrom(code, lineEntry, d, u, i) > 0
    ensures Needed(code, lineEntry, d, i)
    decreases |code| - i
  {
    if UsesIn(Operands(code, i, lineEntry), d, u) > 0 {
      CountedUsed(Operands(code, i, lineEntry), d, u);
    } else {
      CountedNeeded(code, lineEntry, d, u, i + 1);
    }
  }

  lemma {:induction false} TimesRemoved(users: seq<nat>, k: nat, u: nat)
    requires k < |users|
    ensures Times(users[..k] + users[k + 1..], u) == Times(users, u) - if users[k] == u then 1 else 0
  {
    if k == 0 {
      assert users[..k] + users[k + 1..] == users[1..];
    } else {
      TimesRemoved(users[1..], k - 1, u);
      assert (users[..k] + users[k + 1..])[1..] == users[1..][..k - 1] + users[1..][k..];
    }
  }

  lemma {:induction false} TimesAbsent(users: seq<nat>, u: nat)
    requires forall k :: 0 <= k < |users| ==> users[k] != u
    ensures Times(users, u) == 0
  {
    if users != [] {
      TimesAbsent(users[1..], u);
    }
  }

  // Running the triples: by their values, and through the slots.

  /** The value of triple `d`: what its operation makes of the values of its operands, or a constant. */
  ghost function Val<V>(code: seq<Triple>, lineEntry: bool, op: (nat, seq<V>) -> V, lit: nat -> V, d: nat): V
    requires WellFormed(code) && d < |code|
    decreases d, 1
  {
    if Defines(code, d, lineEntry) then op(d, Vals(code, lineEntry, op, lit, d)) else lit(d)
  }

  ghost function Vals<V>(code: seq<Triple>, lineEntry: bool, op: (nat, seq<V>) -> V, lit: nat -> V,
                         d: nat): (vs: seq<V>)
    requires WellFormed(code) && d < |code|
    ensures |vs| == |code[d].uses|
    decreases d, 0
  {
    seq(|code[d].uses|, k requires 0 <= k < |code[d].uses| => Val(code, lineEntry, op, lit, code[d].uses[k].ref))
  }

  /** The operand as the generated code fetches it. */
  ghost function Fetch<V>(code: seq<Triple>, dest: seq<Slot>, lit: nat -> V, mem: Slot -> V, d: nat): V
    requires d < |dest|
  {
    if dest[d].Slot? then mem(dest[d]) else lit(d)
  }

  ghost function Fetched<V>(code: seq<Triple>, dest: seq<Slot>, lit: nat -> V, mem: Slot -> V, i: nat): (vs: seq<V>)
    requires WellFormed(code) && i < |code| == |dest|
    ensures |vs| == |code[i].uses|
  {
    seq(|code[i].uses|, k requires 0 <= k < |code[i].uses| => Fetch(code, dest, lit, mem, code[i].uses[k].ref))
  }

  /** The slots before triple `i`. */
  ghost function Mem<V>(code: seq<Triple>, dest: seq<Slot>, op: (nat, seq<V>) -> V, lit: nat -> V, start: Slot -> V,
                        i: nat): Slot -> V
    requires WellFormed(code) && i <= |code| == |dest|
  {
    if i == 0 then start
    else
      var mem := Mem(code, dest, op, lit, start, i - 1);
      if dest[i - 1].NoSlot? then mem
      else
        var v := op(i - 1, Fetched(code, dest, lit, mem, i - 1));
        s => if s == dest[i - 1] then v else mem(s)
  }

  /** A value that is still needed is in its slot. */
  lemma {:induction false} SlotHolds<V>(code: seq<Triple>, lineEntry: bool, dest: seq<Slot>, op: (nat, seq<V>) -> V,
                                        lit: nat -> V, start: Slot -> V,
      i: nat, d: nat)
    requires WellFormed(code) && |dest| == |code| && Apart(code, lineEntry, dest) && Placed(code, lineEntry, dest)
    requires d < i <= |code| && dest[d].Slot? && Needed(code, lineEntry, d, i)
    ensures Mem(code, dest, op, lit, start, i)(dest[d]) == Val(code, lineEntry, op, lit, d)
    decreases i, 0
  {
    if d == i - 1 {
      OperandsFetched(code, lineEntry, dest, op, lit, start, d);
    } else {
      assert Needed(code, lineEntry, d, i - 1);
      SlotHolds(code, lineEntry, dest, op, lit, start, i - 1, d);
    }
  }

  /** The main result: every operand that generated code fetches is the value its triple made. */
  lemma {:induction false} OperandsFetched<V>(code: seq<Triple>, lineEntry: bool, dest: seq<Slot>,
                                              op: (nat, seq<V>) -> V, lit: nat -> V,
      start: Slot -> V, i: nat)
    requires WellFormed(code) && |dest| == |code| && Apart(code, lineEntry, dest) && Placed(code, lineEntry, dest)
    requires i < |code| && !Skipped(code, i, lineEntry)
    ensures Fetched(code, dest, lit, Mem(code, dest, op, lit, start, i), i) == Vals(code, lineEntry, op, lit, i)
    decreases i, 1
  {
    var mem := Mem(code, dest, op, lit, start, i);
    forall k | 0 <= k < |code[i].uses|
      ensures Fetch(code, dest, lit, mem, code[i].uses[k].ref) == Val(code, lineEntry, op, lit, code[i].uses[k].ref)
    {
      var d := code[i].uses[k].ref;
      assert Operands(code, i, lineEntry)[k].ref == d;
      assert UsedIn(Operands(code, i, lineEntry), d);
      if dest[d].Slot? {
        SlotHolds(code, lineEntry, dest, op, lit, start, i, d);
      }
    }
  }

  class Allocator {
    const code: seq<Triple>
    const lineEntry: bool
    /** How many variables there are. */
    const mvmax: nat
    /** Whether the back pointers are just the uses. */
    ghost const exact: bool
    var backptr: seq<seq<nat>>
    var dest: seq<Slot>
    var tempcont: seq<seq<bool>>
    var temphigh: seq<int>

    constructor (code: seq<Triple>, lineEntry: bool, mvmax: nat, backptr: seq<seq<nat>>, ghost exact: bool)
      requires WellFormed(code) && BackPointed(code, lineEntry, backptr, exact)
      ensures this.code == code && this.lineEntry == lineEntry && this.backptr == backptr && this.exact == exact
      ensures Untouched() && this.mvmax == mvmax
    {
      this.code, this.lineEntry, this.mvmax, this.backptr, this.exact := code, lineEntry, mvmax, backptr, exact;
      dest := seq(|code|, _ => NoSlot);
      tempcont := seq(VALUED_REF_TYPES, _ => seq(MAX_TEMP_COUNT, _ => false));
      temphigh := seq(VALUED_REF_TYPES, r => if r == TVAR_REF then mvmax - 1 else -1);
    }

    /** Before the pass. */
    ghost predicate Untouched() reads this {
      && Sized() && (forall d :: 0 <= d < |code| ==> dest[d] == NoSlot)
      && (forall r, c :: 0 <= r < VALUED_REF_TYPES && 0 <= c < MAX_TEMP_COUNT ==> !tempcont[r][c])
      && forall r :: TVAR_REF < r < VALUED_REF_TYPES ==> temphigh[r] == -1
    }

    ghost predicate Sized() reads this {
      && |dest| == |code| == |backptr| && |tempcont| == |temphigh| == VALUED_REF_TYPES
      && temphigh[TVAR_REF] == mvmax - 1
      && forall r :: 0 <= r < VALUED_REF_TYPES ==> |tempcont[r]| == MAX_TEMP_COUNT
    }

    /** A slot handed out is within the frame. */
    ghost predicate InFrame(s: Slot) reads this {
      s.Slot? ==>
        TVAR_REF < s.r < VALUED_REF_TYPES && s.r < |temphigh| && s.temp < MAX_TEMP_COUNT && s.temp <= temphigh[s.r]
    }

    /** Back pointers cover the uses still to come: `rest` of the triple at hand and those from `next` on. */
    ghost predicate Covered(d: nat, rest: seq<Use>, next: nat)
      requires d < |backptr|
      reads this
    {
      Covers(backptr[d], d, rest, next)
    }

    ghost predicate Covers(users: seq<nat>, d: nat, rest: seq<Use>, next: nat) {
      forall u: nat :: Matches(Times(users, u), UsesIn(rest, d, u) + UsesFrom(code, lineEntry, d, u, next), exact)
    }

    ghost predicate Pending(d: nat, rest: seq<Use>, next: nat) {
      UsedIn(rest, d) || Needed(code, lineEntry, d, next)
    }

    /** Back pointers cover the uses of every triple that still matters. */
    ghost predicate AllCovered(n: nat, rest: seq<Use>, next: nat)
      requires |dest| == |code| == |backptr|
      reads this
    {
      forall d :: 0 <= d < |code| && (d >= n || dest[d].Slot?) ==> Covered(d, rest, next)
    }

    /** A value still needed keeps its slot. */
    ghost predicate AllHeld(n: nat, rest: seq<Use>, next: nat)
      requires Sized() && n <= |code| && AllInFrame(n)
      reads this
    {
      forall d :: 0 <= d < n && dest[d].Slot? && Pending(d, rest, next) ==> tempcont[dest[d].r][dest[d].temp]
    }

    ghost predicate AllInFrame(n: nat)
      requires |dest| == |code|
      reads this
    {
      forall d :: 0 <= d < |code| ==> InFrame(dest[d]) && (d >= n ==> dest[d] == NoSlot)
    }

    /** The values that need a slot have one, of their class. */
    ghost predicate AllGiven(n: nat)
      requires |dest| == |code| && n <= |code|
      reads this
    {
      forall d :: 0 <= d < n ==>
        (dest[d].Slot? ==> Defines(code, d, lineEntry) && code[d].class_ == Valued(dest[d].r))
        && (Defines(code, d, lineEntry) && Needed(code, lineEntry, d, 0) ==> dest[d].Slot?)
    }

    /** The first `n` triples have their slots; `rest` and `next` as above. */
    ghost predicate Inv(n: nat, rest: seq<Use>, next: nat) reads this {
      && Sized() && WellFormed(code) && n <= |code|
      && AllCovered(n, rest, next) && AllInFrame(n) && AllHeld(n, rest, next)
      && AllGiven(n) && Apart(code, lineEntry, dest)
    }

    /** Slot `c` of class `r` is that of a value with back pointers left. */
    ghost predicate Holder(dest: seq<Slot>, backptr: seq<seq<nat>>, r: nat, c: nat, n: nat)
      requires |dest| == |backptr|
    {
      exists d :: Holds(d, dest, backptr, r, c, n)
    }

    /** That of `d`, made before `n`, for a TVAL slot since they were last cleared. */
    ghost predicate Holds(d: int, dest: seq<Slot>, backptr: seq<seq<nat>>, r: nat, c: nat, n: nat)
      requires |dest| == |backptr|
    {
      && 0 <= d < n && d < |dest| && dest[d] == Slot(r, c) && backptr[d] != []
      && (r == TVAL_REF ==> Uncleared(code, lineEntry, d, n))
    }

    /** Each slot taken is that of a value with back pointers left. */
    ghost predicate AllHolders(dest: seq<Slot>, backptr: seq<seq<nat>>, tempcont: seq<seq<bool>>, n: nat)
      requires |dest| == |backptr| && |tempcont| == VALUED_REF_TYPES
    {
      forall r: nat, c: nat {:trigger IsHeld(dest, backptr, tempcont, r, c, n)} ::
        r < VALUED_REF_TYPES ==> IsHeld(dest, backptr, tempcont, r, c, n)
    }

    ghost predicate IsHeld(dest: seq<Slot>, backptr: seq<seq<nat>>, tempcont: seq<seq<bool>>, r: nat, c: nat, n: nat)
      requires |dest| == |backptr| && r < |tempcont|
    {
      c < |tempcont[r]| && tempcont[r][c] ==> Holder(dest, backptr, r, c, n)
    }

    /** No more slots than it takes: those taken are held, each is given out in turn, and the highest
        number is one given out. */
    ghost predicate TightAt(dest: seq<Slot>, backptr: seq<seq<nat>>, tempcont: seq<seq<bool>>, temphigh: seq<int>,
                            n: nat) {
      && |dest| == |code| == |backptr| && |tempcont| == |temphigh| == VALUED_REF_TYPES
      && AllHolders(dest, backptr, tempcont, n)
      && (exact ==> Lowest(code, lineEntry, dest)) && InTurn(code, lineEntry, dest)
      && forall r :: TVAR_REF < r < VALUED_REF_TYPES ==>
        temphigh[r] == -1 || (temphigh[r] >= 0 && Slot(r, temphigh[r]) in dest)
    }

    ghost predicate Tight(n: nat) reads this {
      TightAt(dest, backptr, tempcont, temphigh, n)
    }

    /** So are the first `m` slots of class `r`. */
    ghost predicate Holders(dest: seq<Slot>, backptr: seq<seq<nat>>, r: nat, m: nat, n: nat)
      requires |dest| == |backptr|
    {
      forall t: nat :: t < m ==> Holder(dest, backptr, r, t, n)
    }

    /** All the slots of the class that triple `i` wants are held. */
    ghost predicate OutOfSlots(i: nat) reads this
      requires |dest| == |code| == |backptr|
    {
      i < |code| && Wants(i) && Holders(dest, backptr, code[i].class_.r, MAX_TEMP_COUNT, i + 1)
    }

    lemma TakeTight(i: nat, r: nat, c: nat)
      requires i < |code| && Sized() && AllInFrame(i) && Tight(i) && Cleared(i) && TVAR_REF < r < VALUED_REF_TYPES
      requires c < MAX_TEMP_COUNT && backptr[i] != []
      requires exact ==> Crowded(code, lineEntry, dest, r, c, i)
      requires Holders(dest, backptr, r, c, i + 1)
      ensures TightAt(dest[i := Slot(r, c)], backptr, tempcont[r := tempcont[r][c := true]],
                      temphigh[r := if c > temphigh[r] then c else temphigh[r]], i + 1)
    {
      var dest', tempcont' := dest[i := Slot(r, c)], tempcont[r := tempcont[r][c := true]];
      forall q, t | 0 <= q < VALUED_REF_TYPES && 0 <= t < |tempcont'[q]| && tempcont'[q][t]
        ensures Holder(dest', backptr, q, t, i + 1)
      {
        if q == r && t == c {
          assert Holds(i, dest', backptr, q, t, i + 1);
        } else {
          assert tempcont[q][t];
          HolderNext(i, q, t);
          var d :| Holds(d, dest, backptr, q, t, i + 1);
          assert d != i && Holds(d, dest', backptr, q, t, i + 1);
        }
      }
      if exact {
        TakeLowest(i, r, c);
      }
      TakeInTurn(i, r, c);
      TakeHigh(i, r, c);
      var high := temphigh[r := if c > temphigh[r] then c else temphigh[r]];
      assert |tempcont'| == |high| == VALUED_REF_TYPES && |dest'| == |code|;
      assert AllHolders(dest', backptr, tempcont', i + 1);
      assert exact ==> Lowest(code, lineEntry, dest');
      assert forall q :: TVAR_REF < q < VALUED_REF_TYPES ==>
        high[q] == -1 || (high[q] >= 0 && Slot(q, high[q]) in dest');
    }

    /** Where the TVAL slots are to be cleared they are. */
    ghost predicate Cleared(i: nat)
      requires i < |code| && Sized()
      reads this
    {
      Clears(code, i, lineEntry) ==> forall c :: 0 <= c < MAX_TEMP_COUNT ==> !tempcont[TVAL_REF][c]
    }

    lemma HolderNext(i: nat, r: nat, c: nat)
      requires i < |code| && Sized() && Tight(i) && Cleared(i)
      requires r < VALUED_REF_TYPES && c < MAX_TEMP_COUNT && tempcont[r][c]
      ensures Holder(dest, backptr, r, c, i + 1)
    {
      assert IsHeld(dest, backptr, tempcont, r, c, i);
      var d :| Holds(d, dest, backptr, r, c, i);
      assert Holds(d, dest, backptr, r, c, i + 1);
    }

    lemma AllNext(i: nat, r: nat, m: nat)
      requires i < |code| && Sized() && Tight(i) && Cleared(i)
      requires r < VALUED_REF_TYPES && m <= MAX_TEMP_COUNT && forall t :: 0 <= t < m ==> tempcont[r][t]
      ensures Holders(dest, backptr, r, m, i + 1)
    {
      var n := i + 1;
      forall t: nat | t < m ensures Holder(dest, backptr, r, t, n) {
        HolderNext(i, r, t);
      }
    }

    /** On to the next triple. */
    lemma TightNext(i: nat)
      requires i < |code| && Sized() && Tight(i) && Cleared(i)
      ensures Tight(i + 1)
    {
      var n := i + 1;
      forall r, c | 0 <= r < VALUED_REF_TYPES && 0 <= c < |tempcont[r]| && tempcont[r][c]
        ensures Holder(dest, backptr, r, c, n)
      {
        HolderNext(i, r, c);
      }
    }

    lemma TakeInTurn(i: nat, r: nat, c: nat)
      requires i < |code| == |dest| == |backptr| && InTurn(code, lineEntry, dest)
      requires forall d :: i <= d < |dest| ==> dest[d] == NoSlot
      requires Holders(dest, backptr, r, c, i + 1)
      ensures InTurn(code, lineEntry, dest[i := Slot(r, c)])
    {
      var dest' := dest[i := Slot(r, c)];
      forall j: nat | j < |dest'| ensures LowerGiven(code, lineEntry, dest', dest'[j], j) {
        if j == i {
          forall t: nat | t < c ensures GivenBefore(code, lineEntry, dest', Slot(r, t), i) {
            assert Holder(dest, backptr, r, t, i + 1);
            var d :| Holds(d, dest, backptr, r, t, i + 1);
            assert GivenAt(code, lineEntry, dest', Slot(r, t), d, i);
          }
        } else if dest'[j].Slot? {
          assert LowerGiven(code, lineEntry, dest, dest[j], j);
          forall t: nat | t < dest'[j].temp ensures GivenBefore(code, lineEntry, dest', Slot(dest'[j].r, t), j) {
            assert GivenBefore(code, lineEntry, dest, Slot(dest[j].r, t), j);
            var d :| GivenAt(code, lineEntry, dest, Slot(dest[j].r, t), d, j);
            assert GivenAt(code, lineEntry, dest', Slot(dest[j].r, t), d, j);
          }
        }
      }
    }

    lemma TakeLowest(i: nat, r: nat, c: nat)
      requires i < |code| == |dest| && Lowest(code, lineEntry, dest) && forall d :: i <= d < |dest| ==>
        dest[d] == NoSlot
      requires Crowded(code, lineEntry, dest, r, c, i)
      ensures Lowest(code, lineEntry, dest[i := Slot(r, c)])
    {
      var dest' := dest[i := Slot(r, c)];
      forall d | 0 <= d < |dest'| && dest'[d].Slot?
        ensures Crowded(code, lineEntry, dest', dest'[d].r, dest'[d].temp, d)
      {
        assert Crowded(code, lineEntry, dest, dest'[d].r, dest'[d].temp, d);
        forall t: nat | t < dest'[d].temp ensures Occupied(code, lineEntry, dest', Slot(dest'[d].r, t), d) {
          assert Occupied(code, lineEntry, dest, Slot(dest'[d].r, t), d);
          var e :| 0 <= e < d && e < |dest| && dest[e] == Slot(dest'[d].r, t) && Needed(code, lineEntry, e, d);
          assert dest'[e] == dest[e];
        }
      }
    }

    lemma TakeHigh(i: nat, r: nat, c: nat)
      requires i < |code| == |dest| && |temphigh| == VALUED_REF_TYPES && dest[i] == NoSlot && r < VALUED_REF_TYPES
      requires forall q :: TVAR_REF < q < VALUED_REF_TYPES ==>
        temphigh[q] == -1 || (temphigh[q] >= 0 && Slot(q, temphigh[q]) in dest)
      ensures var high := temphigh[r := if c > temphigh[r] then c else temphigh[r]];
              forall q :: TVAR_REF < q < VALUED_REF_TYPES ==>
                high[q] == -1 || (high[q] >= 0 && Slot(q, high[q]) in dest[i := Slot(r, c)])
    {
      var dest' := dest[i := Slot(r, c)];
      assert dest'[i] == Slot(r, c);
      forall s: Slot | s in dest && s != NoSlot ensures s in dest' {
        var d :| 0 <= d < |dest| && dest[d] == s;
        assert dest'[d] == s;
      }
    }

    /** A back pointer goes, and with the last one the slot. */
    lemma DropTight(n: nat, d: nat, users: seq<nat>, dest: seq<Slot>, backptr: seq<seq<nat>>, tempcont: seq<seq<bool>>,
                    temphigh: seq<int>, tempcont': seq<seq<bool>>)
      requires TightAt(dest, backptr, tempcont, temphigh, n) && d < |code| && dest[d].Slot?
      requires dest[d].r < VALUED_REF_TYPES && dest[d].temp < |tempcont[dest[d].r]|
      requires tempcont' == if users == [] then tempcont[dest[d].r := tempcont[dest[d].r][dest[d].temp := false]]
        else tempcont
      ensures TightAt(dest, backptr[d := users], tempcont', temphigh, n)
    {
      var backptr' := backptr[d := users];
      forall r, c | 0 <= r < VALUED_REF_TYPES && 0 <= c < |tempcont'[r]| && tempcont'[r][c]
        ensures Holder(dest, backptr', r, c, n)
      {
        assert IsHeld(dest, backptr, tempcont, r, c, n);
        var e :| Holds(e, dest, backptr, r, c, n);
        assert Holds(e, dest, backptr', r, c, n);
      }
    }

    /** On to the operands of triple `i`. */
    lemma Opened(i: nat)
      requires i < |code| && Inv(i, [], i)
      ensures Inv(i, Operands(code, i, lineEntry), i + 1)
      ensures forall d :: 0 <= d < i && dest[d].Slot? && !Needed(code, lineEntry, d, i) ==>
        !Pending(d, Operands(code, i, lineEntry), i + 1)
    {
      var ops := Operands(code, i, lineEntry);
      forall d | 0 <= d < |code| && Pending(d, ops, i + 1) ensures Needed(code, lineEntry, d, i) { }
      forall d | 0 <= d < |code| && (d >= i || dest[d].Slot?) ensures Covered(d, ops, i + 1) {
        assert Covered(d, [], i);
      }
    }

    /** The TVAL slots in use so far become free. */
    method ClearTval(i: nat)
      requires i < |code| && Inv(i, Operands(code, i, lineEntry), i + 1)
      requires forall d :: 0 <= d < i && dest[d].Slot? && dest[d].r == TVAL_REF ==>
        !Pending(d, Operands(code, i, lineEntry), i + 1)
      modifies this`tempcont
      ensures Inv(i, Operands(code, i, lineEntry), i + 1) && (old(Tight(i)) ==> Tight(i) && Cleared(i))
      ensures forall r :: 0 <= r < VALUED_REF_TYPES && r != TVAL_REF ==> tempcont[r] == old(tempcont)[r]
      ensures forall c :: 0 <= c < MAX_TEMP_COUNT ==>
        tempcont[TVAL_REF][c] == (old(tempcont)[TVAL_REF][c] && c > temphigh[TVAL_REF])
    {
      var c := temphigh[TVAL_REF];
      while 0 <= c
        invariant Inv(i, Operands(code, i, lineEntry), i + 1) && (old(Tight(i)) ==> Tight(i)) && c <= temphigh[TVAL_REF]
        invariant forall r :: 0 <= r < VALUED_REF_TYPES && r != TVAL_REF ==> tempcont[r] == old(tempcont)[r]
        invariant forall t :: 0 <= t < MAX_TEMP_COUNT ==>
          tempcont[TVAL_REF][t] == (old(tempcont)[TVAL_REF][t] && !(c < t <= temphigh[TVAL_REF]))
      {
        FreeStays(i, TVAL_REF, c);
        if c < MAX_TEMP_COUNT {
          if old(Tight(i)) {
            FewerTaken(i, tempcont[TVAL_REF := tempcont[TVAL_REF][c := false]]);
          }
          tempcont := tempcont[TVAL_REF := tempcont[TVAL_REF][c := false]];
        }
        c := c - 1;
      }
      if old(Tight(i)) {
        NoneAbove(i);
      }
    }

    lemma FewerTaken(n: nat, tempcont': seq<seq<bool>>)
      requires Tight(n) && |tempcont'| == VALUED_REF_TYPES
      requires forall r, c :: 0 <= r < VALUED_REF_TYPES && 0 <= c < |tempcont'[r]| && tempcont'[r][c] ==>
        c < |tempcont[r]| && tempcont[r][c]
      ensures AllHolders(dest, backptr, tempcont', n)
    {
      forall r: nat, c: nat | r < VALUED_REF_TYPES ensures IsHeld(dest, backptr, tempcont', r, c, n) {
        assert IsHeld(dest, backptr, tempcont, r, c, n);
      }
    }

    /** No slot above the highest given out is taken. */
    lemma NoneAbove(i: nat)
      requires Sized() && AllInFrame(i) && Tight(i)
      ensures forall c :: 0 <= c < MAX_TEMP_COUNT && c > temphigh[TVAL_REF] ==> !tempcont[TVAL_REF][c]
    {
      forall c | 0 <= c < MAX_TEMP_COUNT && tempcont[TVAL_REF][c] ensures c <= temphigh[TVAL_REF] {
        assert IsHeld(dest, backptr, tempcont, TVAL_REF, c, i);
        var d :| Holds(d, dest, backptr, TVAL_REF, c, i);
        assert InFrame(dest[d]);
      }
    }

    /** What freeing a slot of a class that nobody needs changes. */
    lemma FreeStays(i: nat, r: nat, c: int)
      requires i < |code| && Inv(i, Operands(code, i, lineEntry), i + 1)
      requires forall d :: 0 <= d < i && dest[d].Slot? && dest[d].r == r ==>
        !Pending(d, Operands(code, i, lineEntry), i + 1)
      ensures forall d :: 0 <= d < i && dest[d].Slot? && Pending(d, Operands(code, i, lineEntry), i + 1) ==>
        dest[d].r != r && tempcont[dest[d].r][dest[d].temp]
    {
    }

    /** The lowest free slot of a class. */
    method FindFree(r: nat) returns (c: nat)
      requires Sized() && r < VALUED_REF_TYPES
      ensures c <= MAX_TEMP_COUNT && (c < MAX_TEMP_COUNT ==> !tempcont[r][c]) && forall t :: 0 <= t < c ==>
        tempcont[r][t]
    {
      c := 0;
      while c < MAX_TEMP_COUNT && tempcont[r][c]
        invariant c <= MAX_TEMP_COUNT && forall t :: 0 <= t < c ==> tempcont[r][t]
      {
        c := c + 1;
      }
    }

    /** A slot for the value of triple `i`, if it has one that is used: the lowest free one of its class. */
    method Assign(i: nat) returns (ok: bool)
      requires i < |code| && Inv(i, Operands(code, i, lineEntry), i + 1) && Tight(i) && Cleared(i)
      requires !Skipped(code, i, lineEntry) && code[i].kind != PassThru
      modifies this`tempcont, this`dest, this`temphigh
      ensures Sized()
      ensures if ok then Inv(i + 1, Operands(code, i, lineEntry), i + 1) && Tight(i + 1)
        else OutOfSlots(i) && (exact ==> AtLeast(code, lineEntry, code[i].class_.r, MAX_TEMP_COUNT + 1))
      ensures ok <==> !Wants(i) || exists c :: 0 <= c < MAX_TEMP_COUNT && !old(tempcont)[code[i].class_.r][c]
      ensures !ok || !Wants(i) ==> dest == old(dest) && tempcont == old(tempcont) && temphigh == old(temphigh)
      ensures ok && Wants(i) ==>
        dest == old(dest)[i := dest[i]] && TookLowest(code[i].class_.r, dest[i], old(tempcont), tempcont)
      ensures ok && Wants(i) ==>
        temphigh == old(temphigh)[dest[i].r := if dest[i].temp > old(temphigh)[dest[i].r] then dest[i].temp
                                  else old(temphigh)[dest[i].r]]
    {
      if code[i].class_.NoValue? || backptr[i] == [] {
        Unassigned(i);
        TightNext(i);
        return true;
      }
      var r := code[i].class_.r;
      var c := FindFree(r);
      LowerOccupied(i, r, c);
      if c == MAX_TEMP_COUNT {
        if exact {
          CrowdedAtLeast(code, lineEntry, dest, r, c, i);
        }
        return false;
      }
      SlotFree(i, r, c);
      Take(i, r, c);
      return true;
    }

    /** Triple `i` makes a value with back pointers. */
    ghost predicate Wants(i: nat)
      requires i < |code| == |backptr|
      reads this
    {
      Defines(code, i, lineEntry) && backptr[i] != []
    }

    /** `s` is the lowest slot of class `r` that was free, and is taken now. */
    ghost predicate TookLowest(r: nat, s: Slot, before: seq<seq<bool>>, after: seq<seq<bool>>) {
      && s.Slot? && s.r == r < |before| && s.temp < |before[r]| && !before[r][s.temp] &&
        (forall t :: 0 <= t < s.temp ==> before[r][t])
      && after == before[r := before[r][s.temp := true]]
    }

    /** The slots below the one found are those of values still needed. */
    lemma LowerOccupied(i: nat, r: nat, c: nat)
      requires i < |code| && Inv(i, Operands(code, i, lineEntry), i + 1) && Tight(i) && r < VALUED_REF_TYPES
      requires c <= MAX_TEMP_COUNT && Cleared(i)
      requires Wants(i) && code[i].class_ == Valued(r) && forall t :: 0 <= t < c ==> tempcont[r][t]
      ensures Holders(dest, backptr, r, c, i + 1)
      ensures exact ==> Crowded(code, lineEntry, dest, r, c, i)
    {
      AllNext(i, r, c);
      if exact {
        StillNeeded(i, i);
        assert Needed(code, lineEntry, i, 0);
        forall t: nat | t < c ensures Occupied(code, lineEntry, dest, Slot(r, t), i) {
          assert IsHeld(dest, backptr, tempcont, r, t, i);
          var d :| Holds(d, dest, backptr, r, t, i);
          StillNeeded(i, d);
        }
      }
    }

    /** A back pointer that is left stands for a use to come. */
    lemma StillNeeded(i: nat, d: nat)
      requires exact && i < |code| && d < |backptr| && Covered(d, Operands(code, i, lineEntry), i + 1)
      requires backptr[d] != []
      ensures Needed(code, lineEntry, d, i)
    {
      var u := backptr[d][0];
      assert Times(backptr[d], u) > 0;
      if UsesIn(Operands(code, i, lineEntry), d, u) > 0 {
        CountedUsed(Operands(code, i, lineEntry), d, u);
      } else {
        CountedNeeded(code, lineEntry, d, u, i + 1);
      }
    }

    method Take(i: nat, r: nat, c: nat)
      requires i < |code| && Inv(i, Operands(code, i, lineEntry), i + 1) && Tight(i) && Cleared(i)
      requires Holders(dest, backptr, r, c, i + 1)
      requires Defines(code, i, lineEntry) && code[i].class_ == Valued(r) && c < MAX_TEMP_COUNT && backptr[i] != []
      requires forall d :: 0 <= d < i && dest[d] == Slot(r, c) ==> !Needed(code, lineEntry, d, i)
      requires exact ==> Crowded(code, lineEntry, dest, r, c, i)
      modifies this`tempcont, this`dest, this`temphigh
      ensures Inv(i + 1, Operands(code, i, lineEntry), i + 1) && Tight(i + 1)
      ensures dest == old(dest)[i := Slot(r, c)] && tempcont == old(tempcont)[r := old(tempcont)[r][c := true]]
      ensures temphigh == old(temphigh)[r := if c > old(temphigh)[r] then c else old(temphigh)[r]]
    {
      TakeTight(i, r, c);
      Reserve(i, r, c);
      Place(i, r, c);
    }

    /** The slot is taken. */
    method Reserve(i: nat, r: nat, c: nat)
      requires i < |code| && Inv(i, Operands(code, i, lineEntry), i + 1) && TVAR_REF < r < VALUED_REF_TYPES
      requires c < MAX_TEMP_COUNT
      modifies this`tempcont, this`temphigh
      ensures Inv(i, Operands(code, i, lineEntry), i + 1) && tempcont[r][c] && InFrame(Slot(r, c))
      ensures tempcont == old(tempcont)[r := old(tempcont)[r][c := true]]
      ensures temphigh == old(temphigh)[r := if c > old(temphigh)[r] then c else old(temphigh)[r]]
    {
      tempcont := tempcont[r := tempcont[r][c := true]];
      if c > temphigh[r] {
        temphigh := temphigh[r := c];
      }
      assert AllInFrame(i);
    }

    /** The value is placed. */
    method Place(i: nat, r: nat, c: nat)
      requires i < |code| && Inv(i, Operands(code, i, lineEntry), i + 1)
      requires Defines(code, i, lineEntry) && code[i].class_ == Valued(r) && InFrame(Slot(r, c)) && tempcont[r][c]
      requires forall d :: 0 <= d < i && dest[d] == Slot(r, c) ==> !Needed(code, lineEntry, d, i)
      modifies this`dest
      ensures Inv(i + 1, Operands(code, i, lineEntry), i + 1) && dest == old(dest)[i := Slot(r, c)]
    {
      TookApart(dest, i, Slot(r, c));
      dest := dest[i := Slot(r, c)];
    }

    lemma TookApart(dest: seq<Slot>, i: nat, s: Slot)
      requires |dest| == |code| && i < |code| && Apart(code, lineEntry, dest)
      requires forall d :: 0 <= d < i && dest[d] == s ==> !Needed(code, lineEntry, d, i)
      requires forall d :: i <= d < |code| ==> dest[d] == NoSlot
      ensures Apart(code, lineEntry, dest[i := s])
    {
    }

    lemma Unassigned(i: nat)
      requires i < |code| && Inv(i, Operands(code, i, lineEntry), i + 1)
      requires !Defines(code, i, lineEntry) || backptr[i] == []
      ensures Inv(i + 1, Operands(code, i, lineEntry), i + 1)
    {
      if Defines(code, i, lineEntry) {
        Unused(i);
      }
    }

    /** A value without back pointers is not needed. */
    lemma Unused(i: nat)
      requires WellFormed(code) && i < |code| == |backptr| && backptr[i] == []
      requires Covered(i, Operands(code, i, lineEntry), i + 1)
      ensures !Needed(code, lineEntry, i, 0)
    {
      if Needed(code, lineEntry, i, 0) {
        NotBefore(i);
        NeededCounted(code, lineEntry, i, i + 1);
      }
    }

    /** A value is an operand of later triples only. */
    lemma NotBefore(i: nat)
      requires WellFormed(code) && i < |code| && Needed(code, lineEntry, i, 0)
      ensures Needed(code, lineEntry, i, i + 1)
    {
      var j :| 0 <= j < |code| && UsedIn(Operands(code, j, lineEntry), i);
      assert j > i;
    }

    /** Whoever had a slot that is now free is not needed any more. */
    lemma SlotFree(i: nat, r: nat, c: nat)
      requires i < |code| && Inv(i, Operands(code, i, lineEntry), i + 1)
      requires r < VALUED_REF_TYPES && c < MAX_TEMP_COUNT && !tempcont[r][c]
      ensures forall d :: 0 <= d < i && dest[d] == Slot(r, c) ==> !Needed(code, lineEntry, d, i)
    {
      forall d | 0 <= d < i && dest[d] == Slot(r, c) ensures !Needed(code, lineEntry, d, i) {
        assert !Pending(d, Operands(code, i, lineEntry), i + 1);
      }
    }

    /** What remains after operand `k`. */
    lemma Narrowed(i: nat, k: nat)
      requires i < |code| && k < |Operands(code, i, lineEntry)|
      ensures forall d: nat :: UsedIn(Operands(code, i, lineEntry)[k + 1..], d) ==>
        UsedIn(Operands(code, i, lineEntry)[k..], d)
      ensures forall d: nat :: UsedIn(Operands(code, i, lineEntry)[k + 1..], d) ==>
        UsedIn(Operands(code, i, lineEntry), d)
    {
      var ops := Operands(code, i, lineEntry);
      forall d: nat | UsedIn(ops[k + 1..], d) ensures UsedIn(ops[k..], d) && UsedIn(ops, d) {
        var m :| 0 <= m < |ops[k + 1..]| && ops[k + 1..][m].ref == d;
        assert ops[k..][m + 1].ref == d && ops[k + 1 + m].ref == d;
      }
    }

    /** The back pointers of a value that is not operand `k` still cover it. */
    lemma CoverKept(i: nat, k: nat, d: nat)
      requires i < |code| && k < |Operands(code, i, lineEntry)| && d < |backptr|
      requires Covered(d, Operands(code, i, lineEntry)[k..], i + 1) && Operands(code, i, lineEntry)[k].ref != d
      ensures Covered(d, Operands(code, i, lineEntry)[k + 1..], i + 1)
    {
      var ops := Operands(code, i, lineEntry);
      assert ops[k..][1..] == ops[k + 1..];
      assert forall u: nat :: UsesIn(ops[k..], d, u) == UsesIn(ops[k + 1..], d, u);
    }

    /** The pointer that goes, and the cover that stays. */
    lemma Removed(i: nat, k: nat, d: nat, b: nat)
      requires i < |code| && k < |Operands(code, i, lineEntry)| && d < |backptr| && b <= |backptr[d]|
      requires Covered(d, Operands(code, i, lineEntry)[k..], i + 1) && Operands(code, i, lineEntry)[k].ref == d
      requires forall j :: 0 <= j < b ==> backptr[d][j] != Operands(code, i, lineEntry)[k].user
      requires b < |backptr[d]| ==> backptr[d][b] == Operands(code, i, lineEntry)[k].user
      ensures b < |backptr[d]|
      ensures Covers(backptr[d][..b] + backptr[d][b + 1..], d, Operands(code, i, lineEntry)[k + 1..], i + 1)
    {
      var ops := Operands(code, i, lineEntry);
      var use := ops[k];
      assert ops[k..][1..] == ops[k + 1..];
      if b == |backptr[d]| {
        TimesAbsent(backptr[d], use.user);
      } else {
        var users := backptr[d][..b] + backptr[d][b + 1..];
        forall u: nat
          ensures Matches(Times(users, u), UsesIn(ops[k + 1..], d, u) + UsesFrom(code, lineEntry, d, u, i + 1), exact)
        {
          TimesRemoved(backptr[d], b, u);
        }
      }
    }

    /** Nobody else who still needs a slot has that of `d`, an operand of triple `i`. */
    lemma NobodyElse(i: nat, k: nat, d: nat)
      requires i < |code| && k < |Operands(code, i, lineEntry)| && d < i
      requires Inv(i + 1, Operands(code, i, lineEntry)[k + 1..], i + 1) && dest[d].Slot? && backptr[d] == []
      requires UsedIn(Operands(code, i, lineEntry), d)
      ensures forall c :: 0 <= c < i + 1 && dest[c] == dest[d] ==>
        !Pending(c, Operands(code, i, lineEntry)[k + 1..], i + 1)
    {
      var ops := Operands(code, i, lineEntry);
      Narrowed(i, k);
      forall c | 0 <= c < i + 1 && dest[c] == dest[d] ensures !Pending(c, ops[k + 1..], i + 1) {
        if c == d {
          NotPending(d, ops[k + 1..], i + 1);
        } else if c < d {
          assert !Needed(code, lineEntry, c, d);
        } else {
          assert Needed(code, lineEntry, d, c);
        }
      }
    }

    lemma NotPending(d: nat, rest: seq<Use>, next: nat)
      requires d < |backptr| && Covered(d, rest, next) && backptr[d] == []
      ensures !Pending(d, rest, next)
    {
      if UsedIn(rest, d) {
        UsedCounted(rest, d);
      } else if Needed(code, lineEntry, d, next) {
        NeededCounted(code, lineEntry, d, next);
      }
    }

    /** `users` without the first `u`. */
    ghost predicate FirstGone(users: seq<nat>, u: nat, users': seq<nat>) {
      exists b :: 0 <= b < |users| && users[b] == u && (forall j :: 0 <= j < b ==> users[j] != u) &&
        users' == users[..b] + users[b + 1..]
    }

    /** remove_backptr: one back pointer of the operand goes, and with the last the slot. */
    method RemoveBackptr(i: nat, k: nat)
      requires i < |code| && k < |Operands(code, i, lineEntry)|
      requires Inv(i + 1, Operands(code, i, lineEntry)[k..], i + 1) && Tight(i + 1)
      modifies this`backptr, this`tempcont
      ensures Inv(i + 1, Operands(code, i, lineEntry)[k + 1..], i + 1) && Tight(i + 1)
      ensures var use := Operands(code, i, lineEntry)[k]; var d := use.ref;
        if dest[d].NoSlot? then backptr == old(backptr) && tempcont == old(tempcont)
        else
          && backptr == old(backptr)[d := backptr[d]] && FirstGone(old(backptr)[d], use.user, backptr[d])
          && tempcont == if backptr[d]
            == [] then old(tempcont)[dest[d].r := old(tempcont)[dest[d].r][dest[d].temp := false]] else old(tempcont)
    {
      var d := code[i].uses[k].ref;
      if dest[d].Slot? {
        assert InFrame(dest[d]);
        var b := FindPointer(backptr[d], code[i].uses[k].user);
        Removed(i, k, d, b);
        var users := backptr[d][..b] + backptr[d][b + 1..];
        ghost var taken := if users == [] then tempcont[dest[d].r := tempcont[dest[d].r][dest[d].temp := false]]
          else tempcont;
        DropTight(i + 1, d, users, dest, backptr, tempcont, temphigh, taken);
        DropAndFree(i, k, d, b);
        assert tempcont == taken && backptr == old(backptr)[d := users];
        assert dest == old(dest) && temphigh == old(temphigh);
      } else {
        Passed(i, k);
      }
    }

    /** The pointer goes, and with the last one the slot. */
    method DropAndFree(i: nat, k: nat, d: nat, b: nat)
      requires i < |code| && k < |Operands(code, i, lineEntry)| && d == Operands(code, i, lineEntry)[k].ref < i
      requires Inv(i + 1, Operands(code, i, lineEntry)[k..], i + 1) && dest[d].Slot? && b < |backptr[d]|
      requires InFrame(dest[d]) && UsedIn(Operands(code, i, lineEntry), d)
      requires Covers(backptr[d][..b] + backptr[d][b + 1..], d, Operands(code, i, lineEntry)[k + 1..], i + 1)
      modifies this`backptr, this`tempcont
      ensures Inv(i + 1, Operands(code, i, lineEntry)[k + 1..], i + 1)
      ensures backptr == old(backptr)[d := old(backptr)[d][..b] + old(backptr)[d][b + 1..]]
      ensures tempcont == if backptr[d]
        == [] then old(tempcont)[dest[d].r := old(tempcont)[dest[d].r][dest[d].temp := false]]
        else old(tempcont)
    {
      DropPointer(i, k, d, b);
      if backptr[d] == [] {
        Release(i, k, d);
      }
    }

    /** The operand has no slot. */
    lemma Passed(i: nat, k: nat)
      requires i < |code| && k < |Operands(code, i, lineEntry)| && Inv(i + 1, Operands(code, i, lineEntry)[k..], i + 1)
      requires dest[Operands(code, i, lineEntry)[k].ref].NoSlot?
      ensures Inv(i + 1, Operands(code, i, lineEntry)[k + 1..], i + 1)
    {
      Narrowed(i, k);
      forall c | 0 <= c < |code| && (c >= i + 1 || dest[c].Slot?)
        ensures Covered(c, Operands(code, i, lineEntry)[k + 1..], i + 1)
      {
        CoverKept(i, k, c);
      }
    }

    /** The first back pointer to `user`. */
    method FindPointer(users: seq<nat>, user: nat) returns (b: nat)
      ensures b <= |users| && (b < |users| ==> users[b] == user) && forall j :: 0 <= j < b ==> users[j] != user
    {
      b := 0;
      while b < |users| && users[b] != user
        invariant b <= |users| && forall j :: 0 <= j < b ==> users[j] != user
      {
        b := b + 1;
      }
    }

    method DropPointer(i: nat, k: nat, d: nat, b: nat)
      requires i < |code| && k < |Operands(code, i, lineEntry)| && d == Operands(code, i, lineEntry)[k].ref < i
      requires Inv(i + 1, Operands(code, i, lineEntry)[k..], i + 1) && dest[d].Slot? && b < |backptr[d]|
      requires Covers(backptr[d][..b] + backptr[d][b + 1..], d, Operands(code, i, lineEntry)[k + 1..], i + 1)
      modifies this`backptr
      ensures Inv(i + 1, Operands(code, i, lineEntry)[k + 1..], i + 1)
      ensures backptr == old(backptr)[d := old(backptr)[d][..b] + old(backptr)[d][b + 1..]]
    {
      Narrowed(i, k);
      forall c | 0 <= c < |code| && (c >= i + 1 || dest[c].Slot?) && c != d
        ensures Covered(c, Operands(code, i, lineEntry)[k + 1..], i + 1)
      {
        CoverKept(i, k, c);
      }
      backptr := backptr[d := backptr[d][..b] + backptr[d][b + 1..]];
    }

    /** The value of `d` has no uses left; its slot becomes free. */
    method Release(i: nat, k: nat, d: nat)
      requires i < |code| && k < |Operands(code, i, lineEntry)| && d < i
      requires Inv(i + 1, Operands(code, i, lineEntry)[k + 1..], i + 1) && dest[d].Slot? && InFrame(dest[d])
      requires backptr[d] == []
      requires UsedIn(Operands(code, i, lineEntry), d)
      modifies this`tempcont
      ensures Inv(i + 1, Operands(code, i, lineEntry)[k + 1..], i + 1)
      ensures tempcont == old(tempcont)[dest[d].r := old(tempcont)[dest[d].r][dest[d].temp := false]]
    {
      NobodyElse(i, k, d);
      tempcont := tempcont[dest[d].r := tempcont[dest[d].r][dest[d].temp := false]];
    }

    /** One triple. */
    method Step(i: nat) returns (ok: bool)
      requires i < |code| && Inv(i, [], i) && Tight(i) && NoneAcross(code, lineEntry)
      modifies this`backptr, this`tempcont, this`dest, this`temphigh
      ensures if ok then Inv(i + 1, [], i + 1) && Tight(i + 1)
        else Sized() && OutOfSlots(i) && (exact ==> AtLeast(code, lineEntry, code[i].class_.r, MAX_TEMP_COUNT + 1))
    {
      ghost var ops := Operands(code, i, lineEntry);
      Opened(i);
      var kind := code[i].kind;
      var comment := IsComment(i);
      if kind == Noop || kind == Parameter || comment {
        Unassigned(i);
        TightNext(i);
        return true;
      }
      if kind == LineStart || kind == LineFetch {
        ClearTval(i);
      }
      if kind == PassThru {
        Unassigned(i);
        TightNext(i);
      } else {
        ok := Assign(i);
        if !ok {
          return;
        }
      }
      var k := 0;
      assert ops[0..] == ops == code[i].uses;
      while k < |code[i].uses|
        invariant k <= |ops| && Inv(i + 1, ops[k..], i + 1) && Tight(i + 1)
      {
        RemoveBackptr(i, k);
        k := k + 1;
      }
      return true;
    }

    method IsComment(i: nat) returns (comment: bool)
      requires i < |code|
      ensures comment <==> Comment(code, i, lineEntry)
    {
      if code[i].kind != LineStart || i + 1 == |code| {
        return false;
      }
      var next := code[i + 1].kind;
      if next == LineStart || next == LineFetch {
        return true;
      }
      return !lineEntry && next == ILit && i + 2 < |code| && code[i + 2].kind == LineFetch;
    }

    /** The pass. Where the back pointers are just the uses, it fails only if no right assignment does with the
        slots there are, and takes no more slots of any class than every right assignment must. Otherwise
        it fails where values with back pointers left hold all the slots of a class. */
    method AllocReg(ghost run: set<nat>) returns (ok: bool, saTemps: seq<int>)
      requires Untouched() && WellFormed(code) && BackPointed(code, lineEntry, backptr, exact)
      requires NoneAcross(code, lineEntry)
      // the triples there will be code for: no no-ops, no parameters, no line starts of empty lines
      requires forall i: nat {:trigger i in run} :: i in run <==>
        && i < |code| && code[i].kind != Noop && code[i].kind != Parameter
        && (code[i].kind == LineStart && i + 1 < |code| ==>
              && code[i + 1].kind != LineStart && code[i + 1].kind != LineFetch
              && (!lineEntry && code[i + 1].kind == ILit && i + 2 < |code| ==> code[i + 2].kind != LineFetch))
      modifies this`backptr, this`tempcont, this`dest, this`temphigh
      ensures |dest| == |code| == |backptr|
      ensures ok ==> Apart(code, lineEntry, dest) && Placed(code, lineEntry, dest) && InTurn(code, lineEntry, dest)
      ensures ok ==> AllKept(code, dest, run) && AllTaken(code, dest, run)
      ensures ok ==>
        |saTemps| == VALUED_REF_TYPES && saTemps[TVAR_REF] == mvmax && forall r :: TVAR_REF < r < VALUED_REF_TYPES ==>
        saTemps[r] >= 0 && Right(code, lineEntry, dest, r, saTemps[r])
      ensures ok ==> forall r :: TVAR_REF < r < VALUED_REF_TYPES ==> saTemps[r] <= MAX_TEMP_COUNT
      ensures ok && exact ==> forall r :: TVAR_REF < r < VALUED_REF_TYPES ==> AtLeast(code, lineEntry, r, saTemps[r])
      ensures !ok ==>
        exists i: nat :: OutOfSlots(i) && (exact ==> AtLeast(code, lineEntry, code[i].class_.r, MAX_TEMP_COUNT + 1))
    {
      RunListed(code, lineEntry, run);
      ok := Scan();
      if !ok {
        return false, [];
      }
      Finished();
      SlotsKept(code, lineEntry, dest, run);
      SlotsTaken(code, lineEntry, dest, run);
      var high := temphigh;
      return true, seq(VALUED_REF_TYPES, r requires 0 <= r < VALUED_REF_TYPES => high[r] + 1);
    }

    /** The loop over the triples. */
    method Scan() returns (ok: bool)
      requires Untouched() && WellFormed(code) && BackPointed(code, lineEntry, backptr, exact)
      requires NoneAcross(code, lineEntry)
      modifies this`backptr, this`tempcont, this`dest, this`temphigh
      ensures Sized() && (ok ==> Inv(|code|, [], |code|) && Tight(|code|))
      ensures !ok ==>
        exists i: nat :: OutOfSlots(i) && (exact ==> AtLeast(code, lineEntry, code[i].class_.r, MAX_TEMP_COUNT + 1))
    {
      var i := 0;
      while i < |code|
        invariant i <= |code| && Inv(i, [], i) && Tight(i)
      {
        ok := Step(i);
        if !ok {
          return false;
        }
        i := i + 1;
      }
      return true;
    }

    /** The count of slots at the end is the least there can be. */
    lemma Finished()
      requires Inv(|code|, [], |code|) && Tight(|code|)
      ensures Placed(code, lineEntry, dest)
      ensures forall r :: TVAR_REF < r < VALUED_REF_TYPES ==>
        -1 <= temphigh[r] < MAX_TEMP_COUNT && Right(code, lineEntry, dest, r, temphigh[r] + 1)
      ensures exact ==> forall r :: TVAR_REF < r < VALUED_REF_TYPES ==> AtLeast(code, lineEntry, r, temphigh[r] + 1)
    {
      forall r | TVAR_REF < r < VALUED_REF_TYPES
        ensures temphigh[r] < MAX_TEMP_COUNT && (exact ==> AtLeast(code, lineEntry, r, temphigh[r] + 1))
      {
        if temphigh[r] >= 0 {
          var d :| 0 <= d < |dest| && dest[d] == Slot(r, temphigh[r]);
          assert InFrame(dest[d]);
          if exact {
            CrowdedAtLeast(code, lineEntry, dest, r, temphigh[r], d);
          }
        }
      }
    }
  }
}
