/** Least-recently-used replacement, as a queue of keys and as a statement about the history of
    puts. */
module Lru {

  /** A place that holds no block. */
  const NOT_VALID: int := -1

  /** `q` without the first `x`. */
  function Remove<T(==)>(q: seq<T>, x: T): seq<T> {
    if q == [] then [] else if q[0] == x then q[1..] else [q[0]] + Remove(q[1..], x)
  }

  /** `q` without place `i`. */
  function Without<T>(q: seq<T>, i: nat): (r: seq<T>)
    requires i < |q|
    ensures |r| == |q| - 1
    ensures forall j :: 0 <= j < |r| ==> r[j] == q[if j < i then j else j + 1]
  {
    q[..i] + q[i + 1..]
  }

  /** Putting `b`: to the back, from its place or in place of the oldest. */
  function Put(q: seq<int>, b: int): seq<int>
    requires q != []
  {
    (if b in q then Remove(q, b) else q[1..]) + [b]
  }

  ghost function Empty(n: nat): seq<int> { seq(n, _ => NOT_VALID) }

  /** The queue of `n` places after a history of puts. */
  ghost function Run(n: nat, h: seq<int>): (q: seq<int>)
    requires n > 0
    ensures |q| == n
  {
    if h == [] then Empty(n)
    else
      var q := Run(n, h[..|h| - 1]);
      RemoveLength(q, h[|h| - 1]);
      Put(q, h[|h| - 1])
  }

  lemma {:induction false} RemoveLength<T>(q: seq<T>, x: T)
    ensures |Remove(q, x)| == if x in q then |q| - 1 else |q|
  {
    if q != [] && q[0] != x {
      RemoveLength(q[1..], x);
    }
  }

  /** The blocks put after the last put of `b`. */
  ghost function Since(h: seq<int>, b: int): set<int> {
    if h == [] then {}
    else
      var x := h[|h| - 1];
      if x == b then {} else Since(h[..|h| - 1], b) + {x}
  }

  /** `b` is among the `n` most recently put distinct blocks. */
  ghost predicate Recent(h: seq<int>, b: int, n: nat) {
    b in h && |Since(h, b)| < n
  }

  ghost function Elements(q: seq<int>): set<int> { set x | x in q }

  /** Valid entries occur once. */
  ghost predicate NoRepeats(q: seq<int>) {
    forall j, k :: 0 <= j < k < |q| && q[j] == q[k] ==> q[j] == NOT_VALID
  }

  /** Unused places come first. */
  ghost predicate Packed(q: seq<int>) {
    forall j, k :: 0 <= j < k < |q| && q[k] == NOT_VALID ==> q[j] == NOT_VALID
  }

  /** Behind place `j` stand exactly the blocks put since its own block was. */
  ghost predicate Ranked(q: seq<int>, j: nat, h: seq<int>)
    requires j < |q|
  {
    q[j] in h && Elements(q[j + 1..]) == Since(h, q[j])
  }

  /** A block that is gone has at least `n` others put since. */
  ghost predicate Gone(q: seq<int>, h: seq<int>, n: nat) {
    forall b :: b in h && b !in q ==> |Since(h, b)| >= n
  }

  /** What the queue says about the history. */
  ghost predicate Describes(q: seq<int>, h: seq<int>, n: nat) {
    && |q| == n && NoRepeats(q) && Packed(q) && Gone(q, h, n)
    && forall j :: 0 <= j < n && q[j] != NOT_VALID ==> Ranked(q, j, h)
  }

  lemma {:induction false} RemoveAt<T>(q: seq<T>, j: nat)
    requires j < |q| && q[j] !in q[..j]
    ensures Remove(q, q[j]) == q[..j] + q[j + 1..]
  {
    if j > 0 {
      assert q[0] in q[..j] && q[1..][..j - 1] == q[..j][1..];
      RemoveAt(q[1..], j - 1);
    }
  }

  lemma {:induction false} ElementsCard(q: seq<int>)
    requires NoRepeats(q) && NOT_VALID !in q
    ensures |Elements(q)| == |q|
  {
    if q == [] {
      assert Elements(q) == {};
    } else {
      ElementsCard(q[1..]);
      assert q == [q[0]] + q[1..];
      assert Elements(q) == {q[0]} + Elements(q[1..]);
      assert q[0] !in q[1..];
    }
  }

  lemma SubsetCard(a: set<int>, b: set<int>)
    requires a <= b
    ensures |a| <= |b|
  {
    assert b == a + (b - a);
  }

  lemma SinceSnoc(h: seq<int>, b: int, c: int)
    ensures Since(h + [b], c) == if b == c then {} else Since(h, c) + {b}
  {
    assert (h + [b])[..|h|] == h;
  }

  /** A place whose followers gained `b` only. */
  lemma RankedSnoc(q: seq<int>, j: nat, q': seq<int>, j': nat, h: seq<int>, b: int)
    requires j < |q| && j' < |q'| && Ranked(q, j, h) && q'[j'] == q[j] != b
    requires Elements(q'[j' + 1..]) == Elements(q[j + 1..]) + {b}
    ensures Ranked(q', j', h + [b])
  {
    SinceSnoc(h, b, q[j]);
  }

  lemma RankedLast(q: seq<int>, h: seq<int>, b: int)
    requires q != [] && q[|q| - 1] == b
    ensures Ranked(q, |q| - 1, h + [b])
  {
    SinceSnoc(h, b, b);
    assert q[|q|..] == [];
    assert Elements(q[|q|..]) == {};
    assert (h + [b])[|h|] == b;
  }

  /** Moving place `i` to the back keeps the others in order. */
  lemma MovedShape(q: seq<int>, i: nat, b: int)
    requires i < |q| && NoRepeats(q) && Packed(q) && b != NOT_VALID
    requires b !in q[..i] && b !in q[i + 1..]
    requires q[i] == b || i == 0
    ensures NoRepeats(q[..i] + q[i + 1..] + [b]) && Packed(q[..i] + q[i + 1..] + [b])
  {
    var q' := q[..i] + q[i + 1..] + [b];
    forall j | 0 <= j < |q| - 1 ensures q'[j] == q[if j < i then j else j + 1] && q'[j] != b {
      if j < i { assert q[j] in q[..i]; } else { assert q[j + 1] in q[i + 1..]; }
    }
    if i > 0 && q[i] == b {
      forall j | i <= j < |q| ensures q[j] != NOT_VALID { }
    }
  }

  /** Followers before and after moving place `i` to the back, for an earlier place. */
  lemma MovedEarlier(q: seq<int>, i: nat, b: int, j: nat)
    requires j < i < |q| && q[i] == b
    ensures Elements((q[..i] + q[i + 1..] + [b])[j + 1..]) == Elements(q[j + 1..]) + {b}
  {
    assert (q[..i] + q[i + 1..] + [b])[j + 1..] == q[j + 1..i] + q[i + 1..] + [b];
    assert q[j + 1..] == q[j + 1..i] + [b] + q[i + 1..];
  }

  /** The same for a later place. */
  lemma MovedLater(q: seq<int>, i: nat, b: int, j: nat)
    requires i < j < |q|
    ensures Elements((q[..i] + q[i + 1..] + [b])[j..]) == Elements(q[j + 1..]) + {b}
  {
    assert (q[..i] + q[i + 1..] + [b])[j..] == q[j + 1..] + [b];
  }

  /** Ranks after moving place `i` to the back. */
  lemma MovedRanks(q: seq<int>, i: nat, h: seq<int>, b: int, j: nat)
    requires i < |q| && j < |q| && (q[i] == b || i == 0)
    requires b !in q[..i] && b !in q[i + 1..]
    requires forall k :: 0 <= k < |q| && q[k] != NOT_VALID ==> Ranked(q, k, h)
    requires (q[..i] + q[i + 1..] + [b])[j] != NOT_VALID
    ensures Ranked(q[..i] + q[i + 1..] + [b], j, h + [b])
  {
    var q' := q[..i] + q[i + 1..] + [b];
    if j == |q| - 1 {
      RankedLast(q', h, b);
    } else if j < i {
      assert q[j] in q[..i];
      MovedEarlier(q, i, b, j);
      RankedSnoc(q, j, q', j, h, b);
    } else {
      assert q'[j] == q[j + 1] && q[j + 1] in q[i + 1..];
      MovedLater(q, i, b, j + 1);
      RankedSnoc(q, j + 1, q', j, h, b);
    }
  }

  /** Moving place `i` to the back, a block that was there or a new one that replaces the oldest. */
  lemma Moved(q: seq<int>, i: nat, h: seq<int>, n: nat, b: int)
    requires Describes(q, h, n) && b >= 0 && i < n && (q[i] == b || i == 0)
    requires b !in q[..i] && b !in q[i + 1..]
    requires Gone(q[..i] + q[i + 1..] + [b], h + [b], n)
    ensures Describes(q[..i] + q[i + 1..] + [b], h + [b], n)
  {
    var q' := q[..i] + q[i + 1..] + [b];
    MovedShape(q, i, b);
    forall j | 0 <= j < n && q'[j] != NOT_VALID ensures Ranked(q', j, h + [b]) {
      MovedRanks(q, i, h, b, j);
    }
  }

  /** Putting a block keeps the others gone that were, except perhaps the one replaced. */
  lemma GoneMoved(q: seq<int>, i: nat, h: seq<int>, n: nat, b: int)
    requires Gone(q, h, n) && i < |q|
    requires q[i] == b || q[i] !in h || |Since(h + [b], q[i])| >= n
    ensures Gone(q[..i] + q[i + 1..] + [b], h + [b], n)
  {
    var q' := q[..i] + q[i + 1..] + [b];
    assert q == q[..i] + [q[i]] + q[i + 1..];
    forall c | c in h + [b] && c !in q' ensures |Since(h + [b], c)| >= n {
      assert c != b && c in h;
      if c != q[i] {
        assert c !in q;
        SinceSnoc(h, b, c);
        SubsetCard(Since(h, c), Since(h + [b], c));
      }
    }
  }

  /** Putting a block that is already in the queue. */
  lemma PutHit(q: seq<int>, h: seq<int>, n: nat, b: int)
    requires Describes(q, h, n) && b >= 0 && b in q
    ensures Describes(Put(q, b), h + [b], n)
  {
    var i :| 0 <= i < n && q[i] == b;
    assert b !in q[..i] && b !in q[i + 1..];
    RemoveAt(q, i);
    GoneMoved(q, i, h, n, b);
    Moved(q, i, h, n, b);
  }

  /** The oldest block, when it goes. */
  lemma GoneOldest(q: seq<int>, h: seq<int>, n: nat, b: int)
    requires Describes(q, h, n) && b >= 0 && b !in q && n > 0 && q[0] >= 0
    ensures |Since(h + [b], q[0])| >= n
  {
    NewestValid(q, b);
    ElementsCard(q[1..] + [b]);
    SinceSnoc(h, b, q[0]);
    assert Ranked(q, 0, h);
    assert Elements(q[1..] + [b]) == Elements(q[1..]) + {b};
  }

  lemma NewestValid(q: seq<int>, b: int)
    requires NoRepeats(q) && Packed(q) && b >= 0 && b !in q && q != [] && q[0] >= 0
    ensures NoRepeats(q[1..] + [b]) && NOT_VALID !in q[1..] + [b]
  {
    var q' := q[1..] + [b];
    assert forall j :: 0 <= j < |q| - 1 ==> q'[j] == q[j + 1] && q[j + 1] in q;
  }

  /** Putting a new block: the oldest goes. */
  lemma PutMiss(q: seq<int>, h: seq<int>, n: nat, b: int)
    requires Describes(q, h, n) && b >= 0 && b !in q && n > 0 && NonNegative(h)
    ensures Describes(Put(q, b), h + [b], n)
  {
    PutNew(q, b);
    assert b !in q[..0] && b !in q[1..];
    if q[0] in h {
      GoneOldest(q, h, n, b);
    }
    GoneMoved(q, 0, h, n, b);
    Moved(q, 0, h, n, b);
  }

  lemma PutNew(q: seq<int>, b: int)
    requires q != [] && b !in q
    ensures Put(q, b) == q[..0] + q[1..] + [b]
  {
  }

  ghost predicate NonNegative(h: seq<int>) { forall k :: 0 <= k < |h| ==> h[k] >= 0 }

  lemma {:induction false} RunDescribes(n: nat, h: seq<int>)
    requires n > 0 && NonNegative(h)
    ensures Describes(Run(n, h), h, n)
  {
    if h != [] {
      var h0, b := h[..|h| - 1], h[|h| - 1];
      RunDescribes(n, h0);
      assert h == h0 + [b];
      if b in Run(n, h0) {
        PutHit(Run(n, h0), h0, n, b);
      } else {
        PutMiss(Run(n, h0), h0, n, b);
      }
    }
  }

  /** The queue holds exactly the `n` most recently put distinct blocks. */
  lemma RunHoldsRecent(n: nat, h: seq<int>, b: int)
    requires n > 0 && b >= 0 && NonNegative(h)
    ensures b in Run(n, h) <==> Recent(h, b, n)
  {
    RunDescribes(n, h);
    var q := Run(n, h);
    if b in q {
      var j :| 0 <= j < n && q[j] == b;
      BehindCount(q, j, h);
    }
  }

  lemma BehindCount(q: seq<int>, j: nat, h: seq<int>)
    requires j < |q| && Ranked(q, j, h) && NoRepeats(q) && Packed(q) && q[j] != NOT_VALID
    ensures |Since(h, q[j])| == |q| - j - 1
  {
    assert forall k :: j < k < |q| ==> q[k] != NOT_VALID;
    ElementsCard(q[j + 1..]);
  }
}
