/** The block table of sr_port/bt_put.c, sr_port/bt_get.c and sr_port/bt_refresh.c: hash chains and a
    recency queue over a fixed set of records. A queue is the sequence of the records linked on it; the
    queue header is implicit. */
module BlockTable {
  import opened Options
  import opened Lru

  const CR_NOTVALID: int := -1

  datatype BtRec = BtRec(blk: int, tn: nat, killtn: nat, cacheIndex: int)

  datatype PutResult = Record(id: nat) | WcBlocked | BtFail

  /** The blocks along a queue of records. */
  ghost function Blocks(recs: seq<BtRec>, que: seq<nat>): (q: seq<int>)
    requires InRange(recs, que)
    ensures |q| == |que|
    ensures forall k :: 0 <= k < |que| ==> q[k] == recs[que[k]].blk
  {
    seq(|que|, k requires 0 <= k < |que| => recs[que[k]].blk)
  }

  ghost predicate InRange(recs: seq<BtRec>, que: seq<nat>) {
    forall k :: 0 <= k < |que| ==> que[k] < |recs|
  }

  ghost predicate Distinct(que: seq<nat>) {
    forall j, k :: 0 <= j < k < |que| ==> que[j] != que[k]
  }

  ghost predicate OnChain(chains: seq<seq<nat>>, id: nat) {
    exists b :: 0 <= b < |chains| && id in chains[b]
  }

  /** Every record is on exactly one chain, once. */
  ghost predicate Chained(recs: seq<BtRec>, chains: seq<seq<nat>>) {
    && (forall b :: 0 <= b < |chains| ==> InRange(recs, chains[b]) && Distinct(chains[b]))
    && (forall b, c, id :: 0 <= b < c < |chains| && id in chains[b] ==> id !in chains[c])
    && (forall id :: 0 <= id < |recs| ==> OnChain(chains, id))
  }

  /** A valid record is on the chain of its block. */
  ghost predicate Hashed(recs: seq<BtRec>, chains: seq<seq<nat>>) {
    forall b, k :: 0 <= b < |chains| && 0 <= k < |chains[b]| && chains[b][k] < |recs| &&
      recs[chains[b][k]].blk != NOT_VALID
      ==> recs[chains[b][k]].blk % |chains| == b
  }

  /** The recency queue holds every record once, oldest transaction first. */
  ghost predicate Aged(recs: seq<BtRec>, que: seq<nat>) {
    && |que| == |recs| && InRange(recs, que) && Distinct(que)
    && (forall j, k :: 0 <= j < k < |que| ==> recs[que[j]].tn <= recs[que[k]].tn)
  }

  lemma {:induction false} Pigeonhole(que: seq<nat>, n: nat)
    requires Distinct(que) && forall k :: 0 <= k < |que| ==> que[k] < n
    ensures |que| <= n
    ensures |que| == n ==> forall x :: 0 <= x < n ==> x in que
    decreases n
  {
    if que != [] {
      assert que[0] < n;
      if k :| 0 <= k < |que| && que[k] == n - 1 {
        var rest := que[..k] + que[k + 1..];
        assert que == que[..k] + [n - 1] + que[k + 1..];
        assert forall j :: 0 <= j < |rest| ==> rest[j] == que[if j < k then j else j + 1];
        Pigeonhole(rest, n - 1);
        forall x | 0 <= x < n && |que| == n ensures x in que {
          assert x < n - 1 ==> x in rest;
        }
      } else {
        Pigeonhole(que, n - 1);
      }
    }
  }

  /** A record leaves a queue it is on. */
  lemma RemovedAt(que: seq<nat>, i: nat)
    requires Distinct(que) && i < |que|
    ensures Remove(que, que[i]) == Without(que, i) && Distinct(Without(que, i))
    ensures forall x :: x in Without(que, i) <==> x in que && x != que[i]
  {
    RemoveAt(que, i);
    var rest := Without(que, i);
    forall x | x in que && x != que[i] ensures x in rest {
      var k :| 0 <= k < |que| && que[k] == x;
      assert rest[if k < i then k else k - 1] == x;
    }
  }

  /** A record leaves a queue it may be on. */
  lemma Removed(que: seq<nat>, id: nat)
    requires Distinct(que)
    ensures Distinct(Remove(que, id))
    ensures forall x :: x in Remove(que, id) <==> x in que && x != id
  {
    if id in que {
      var i :| 0 <= i < |que| && que[i] == id;
      RemovedAt(que, i);
    } else {
      RemoveAbsent(que, id);
    }
  }

  lemma {:induction false} RemoveAbsent(que: seq<nat>, id: nat)
    requires id !in que
    ensures Remove(que, id) == que
  {
    if que != [] {
      RemoveAbsent(que[1..], id);
      assert que == [que[0]] + que[1..];
    }
  }

  /** A record taken off whatever chain it is on. */
  function Unlink(chains: seq<seq<nat>>, id: nat): (r: seq<seq<nat>>)
    ensures |r| == |chains|
    ensures forall b :: 0 <= b < |r| ==> r[b] == Remove(chains[b], id)
  {
    seq(|chains|, b requires 0 <= b < |chains| => Remove(chains[b], id))
  }

  /** Off its chain and onto the end of chain `h`. */
  function Relink(chains: seq<seq<nat>>, id: nat, h: nat): (r: seq<seq<nat>>)
    requires h < |chains|
  {
    var u := Unlink(chains, id);
    u[h := u[h] + [id]]
  }

  lemma RelinkChain(chains: seq<seq<nat>>, id: nat, h: nat, b: nat)
    requires h < |chains| && b < |chains| && Distinct(chains[b])
    ensures Distinct(Relink(chains, id, h)[b])
    ensures forall x :: x in Relink(chains, id, h)[b] <==> (if x == id then b == h else x in chains[b])
  {
    Removed(chains[b], id);
    assert id !in Remove(chains[b], id);
    var r := Remove(chains[b], id);
    assert b == h ==> Relink(chains, id, h)[b] == r + [id];
    assert forall k :: 0 <= k < |r| ==> r[k] in r;
  }

  lemma RelinkChained(recs: seq<BtRec>, recs': seq<BtRec>, chains: seq<seq<nat>>, id: nat, h: nat)
    requires Chained(recs, chains) && id < |recs| == |recs'| && h < |chains|
    ensures Chained(recs', Relink(chains, id, h))
  {
    var c' := Relink(chains, id, h);
    forall b | 0 <= b < |c'|
      ensures Distinct(c'[b]) && InRange(recs', c'[b])
      ensures forall x :: x in c'[b] <==> (if x == id then b == h else x in chains[b])
    {
      RelinkChain(chains, id, h, b);
      forall k | 0 <= k < |c'[b]| ensures c'[b][k] < |recs| {
        assert c'[b][k] in c'[b];
      }
    }
    forall x | 0 <= x < |recs| ensures OnChain(c', x) {
      if x == id {
        assert x in c'[h];
      } else {
        assert OnChain(chains, x);
        var b :| 0 <= b < |chains| && x in chains[b];
        assert x in c'[b];
      }
    }
  }

  lemma RelinkHashed(recs: seq<BtRec>, chains: seq<seq<nat>>, id: nat, block: nat, r: BtRec)
    requires Chained(recs, chains) && Hashed(recs, chains) && id < |recs| && |chains| > 0 && r.blk == block
    ensures Hashed(recs[id := r], Relink(chains, id, block % |chains|))
  {
    var h := block % |chains|;
    var c', recs' := Relink(chains, id, h), recs[id := r];
    forall b, k | 0 <= b < |c'| && 0 <= k < |c'[b]| && c'[b][k] < |recs| && recs'[c'[b][k]].blk != NOT_VALID
      ensures recs'[c'[b][k]].blk % |c'| == b
    {
      RelinkChain(chains, id, h, b);
      var x := c'[b][k];
      assert x in c'[b];
      if x != id {
        assert x in chains[b];
      }
    }
  }

  /** A record moves to the back of the recency queue with the current transaction number. */
  lemma Requeued(recs: seq<BtRec>, que: seq<nat>, id: nat, r: BtRec)
    requires Aged(recs, que) && id < |recs|
    requires forall k :: 0 <= k < |recs| ==> recs[k].tn <= r.tn
    ensures Aged(recs[id := r], Remove(que, id) + [id])
  {
    Pigeonhole(que, |recs|);
    assert id in que;
    var i :| 0 <= i < |que| && que[i] == id;
    RemovedAt(que, i);
    AgedMoved(recs, que, i, r, Without(que, i));
  }

  lemma AgedMoved(recs: seq<BtRec>, que: seq<nat>, i: nat, r: BtRec, rest: seq<nat>)
    requires Aged(recs, que) && i < |que| && rest == Without(que, i) && Distinct(rest)
    requires forall k :: 0 <= k < |recs| ==> recs[k].tn <= r.tn
    ensures Aged(recs[que[i] := r], rest + [que[i]])
  {
    assert forall j :: 0 <= j < |rest| ==> rest[j] == que[if j < i then j else j + 1] && rest[j] != que[i];
  }

  /** The blocks along the recency queue after that move. */
  lemma RequeuedBlocks(recs: seq<BtRec>, que: seq<nat>, i: nat, r: BtRec)
    requires Aged(recs, que) && i < |que|
    ensures var id := que[i];
      var q' := Remove(que, id) + [id];
      InRange(recs[id := r], q') && Blocks(recs[id := r], q') == Without(Blocks(recs, que), i) + [r.blk]
  {
    RemovedAt(que, i);
    MovedBlocks(recs, que, i, r, Without(que, i));
  }

  lemma MovedBlocks(recs: seq<BtRec>, que: seq<nat>, i: nat, r: BtRec, rest: seq<nat>)
    requires InRange(recs, que) && Distinct(que) && i < |que| && rest == Without(que, i)
    ensures InRange(recs[que[i] := r], rest + [que[i]])
    ensures Blocks(recs[que[i] := r], rest + [que[i]]) == Without(Blocks(recs, que), i) + [r.blk]
  {
    var id, recs' := que[i], recs[que[i] := r];
    var q' := rest + [id];
    assert forall j :: 0 <= j < |rest| ==> q'[j] == rest[j] != id && rest[j] < |recs|;
    var left, right := Blocks(recs', q'), Without(Blocks(recs, que), i) + [r.blk];
    assert forall j :: 0 <= j < |rest| ==> left[j] == recs[rest[j]].blk == right[j];
    assert left[|rest|] == r.blk == right[|rest|];
  }

  /** A block is held by a record exactly when that record is on the block's chain. */
  lemma OnItsChain(recs: seq<BtRec>, chains: seq<seq<nat>>, id: nat)
    requires |chains| > 0 && Chained(recs, chains) && Hashed(recs, chains) && id < |recs| && recs[id].blk >= 0
    ensures id in chains[recs[id].blk % |chains|]
  {
    assert OnChain(chains, id);
    var b :| 0 <= b < |chains| && id in chains[b];
    var k :| 0 <= k < |chains[b]| && chains[b][k] == id;
  }

  /** The initial queues: record `i` alone on chain `i`, and all of them in order on the recency queue. */
  lemma InitialLinked(recs: seq<BtRec>, chains: seq<seq<nat>>, tnque: seq<nat>)
    requires |recs| <= |chains| && |tnque| == |recs|
    requires forall b :: 0 <= b < |chains| ==> chains[b] == if b < |recs| then [b] else []
    requires forall j :: 0 <= j < |tnque| ==> tnque[j] == j
    ensures Chained(recs, chains) && InRange(recs, tnque) && Distinct(tnque)
  {
    forall id | 0 <= id < |recs| ensures OnChain(chains, id) {
      assert id in chains[id];
    }
  }

  /** With every record unused the table is empty. */
  lemma UnusedTable(recs: seq<BtRec>, chains: seq<seq<nat>>, tnque: seq<nat>)
    requires |tnque| == |recs| && InRange(recs, tnque) && Distinct(tnque)
    requires forall j :: 0 <= j < |recs| ==> recs[j] == BtRec(NOT_VALID, 0, 0, CR_NOTVALID)
    ensures Hashed(recs, chains) && Aged(recs, tnque) && Blocks(recs, tnque) == Empty(|recs|)
  {
  }

  /** The recency queue after a put, against the least-recently-used queue. */
  lemma PutBlocks(recs: seq<BtRec>, que: seq<nat>, id: nat, block: nat, r: BtRec, n: nat, puts: seq<int>)
    requires Aged(recs, que) && |recs| == n > 0 && id < n && r.blk == block && NonNegative(puts)
    requires Blocks(recs, que) == Run(n, puts)
    requires recs[id].blk == block || (block !in Blocks(recs, que) && id == que[0])
    ensures var q' := Remove(que, id) + [id];
      InRange(recs[id := r], q') && Blocks(recs[id := r], q') == Run(n, puts + [block])
  {
    Pigeonhole(que, n);
    assert id in que;
    var i :| 0 <= i < n && que[i] == id && (id == que[0] ==> i == 0);
    RequeuedBlocks(recs, que, i, r);
    PutPlace(Blocks(recs, que), i, block, n, puts);
  }

  /** A put on the abstract queue, by the place it changes. */
  lemma PutPlace(q: seq<int>, i: nat, block: nat, n: nat, puts: seq<int>)
    requires n > 0 && q == Run(n, puts) && NonNegative(puts) && i < |q|
    requires q[i] == block || (block !in q && i == 0)
    ensures Without(q, i) + [block as int] == Run(n, puts + [block])
  {
    assert (puts + [block])[..|puts|] == puts;
    if q[i] == block {
      RunDescribes(n, puts);
      assert block !in q[..i];
      RemoveAt(q, i);
    }
  }

  /** A new transaction number changes no chain and no block. */
  lemma Retagged(recs: seq<BtRec>, chains: seq<seq<nat>>, id: nat, tn: nat)
    requires Chained(recs, chains) && Hashed(recs, chains) && id < |recs|
    ensures Chained(recs[id := recs[id].(tn := tn)], chains) && Hashed(recs[id := recs[id].(tn := tn)], chains)
  {
    var recs' := recs[id := recs[id].(tn := tn)];
    assert forall b :: 0 <= b < |chains| ==> InRange(recs, chains[b]) ==> InRange(recs', chains[b]);
    assert forall k :: 0 <= k < |recs| ==> recs'[k].blk == recs[k].blk;
  }

  class BtTable {
    var recs: seq<BtRec>
    var chains: seq<seq<nat>>
    var tnque: seq<nat>
    /** The blocks put since the last refresh, oldest first. */
    ghost var puts: seq<int>

    ghost predicate Linked() reads this {
      && |recs| > 0 && |chains| > 0
      && Chained(recs, chains) && |tnque| == |recs| && InRange(recs, tnque) && Distinct(tnque)
    }

    /** The block table is the least-recently-used map of the puts. */
    ghost predicate Valid() reads this {
      && Linked() && Hashed(recs, chains) && Aged(recs, tnque) && NonNegative(puts)
      && Blocks(recs, tnque) == Run(|recs|, puts)
    }

    /** A record holds `block` exactly when it is among the most recent ones, and then it is on the
        chain of the block. */
    lemma Finds(block: nat)
      requires Valid()
      ensures block in Blocks(recs, tnque) <==> Recent(puts, block, |recs|)
      ensures Recent(puts, block, |recs|) <==>
        exists id :: id in chains[block % |chains|] && id < |recs| && recs[id].blk == block
    {
      RunHoldsRecent(|recs|, puts, block);
      var q := Blocks(recs, tnque);
      if block in q {
        var k :| 0 <= k < |q| && q[k] == block;
        OnItsChain(recs, chains, tnque[k]);
      }
      if id :| id in chains[block % |chains|] && id < |recs| && recs[id].blk == block {
        Pigeonhole(tnque, |recs|);
        assert id in tnque;
        var k :| 0 <= k < |tnque| && tnque[k] == id;
        assert q[k] == block;
      }
    }

    /** The bounded walk of the chain. */
    method BtGet(block: nat) returns (r: Option<nat>)
      requires Valid()
      ensures r.Some? <==> Recent(puts, block, |recs|)
      ensures r.Some? ==> r.value < |recs| && recs[r.value].blk == block
    {
      Finds(block);
      var chain := chains[block % |chains|];
      Pigeonhole(chain, |recs|);
      var lcnt, k := |recs|, 0;
      while lcnt > 0
        invariant 0 <= k <= |chain| && lcnt + k == |recs|
        invariant forall j :: 0 <= j < k ==> recs[chain[j]].blk != block
      {
        if k == |chain| {
          return None;
        }
        if recs[chain[k]].blk == block {
          return Some(chain[k]);
        }
        k := k + 1;
        lcnt := lcnt - 1;
      }
      r := None;
    }

    /** The search at the head of bt_put. */
    method Search(block: nat) returns (r: Option<nat>, failed: bool)
      requires Valid()
      ensures !failed
      ensures r.Some? <==> Recent(puts, block, |recs|)
      ensures r.Some? ==> r.value < |recs| && recs[r.value].blk == block
    {
      Finds(block);
      var chain := chains[block % |chains|];
      Pigeonhole(chain, |recs|);
      var lcnt, k := 0, 0;
      while k < |chain|
        invariant 0 <= k == lcnt <= |chain|
        invariant forall j :: 0 <= j < k ==> recs[chain[j]].blk != block
      {
        if recs[chain[k]].blk == block {
          return Some(chain[k]), false;
        }
        if lcnt >= |recs| {
          return None, true;
        }
        k, lcnt := k + 1, lcnt + 1;
      }
      return None, false;
    }

    /** The replacement half of a put that misses: the oldest record takes the block. */
    method Evict(block: nat, currTn: nat)
      requires Linked() && Hashed(recs, chains)
      modifies this`recs, this`chains
      ensures |recs| == old(|recs|)
      ensures recs == old(recs)[tnque[0] := BtRec(block, old(recs)[tnque[0]].tn, currTn, CR_NOTVALID)]
      ensures |chains| == old(|chains|)
      ensures chains == Relink(old(chains), tnque[0], block % |chains|)
      ensures Chained(recs, chains) && Hashed(recs, chains)
    {
      var bt := tnque[0];
      ghost var r := BtRec(block, recs[bt].tn, currTn, CR_NOTVALID);
      RelinkChained(recs, recs[bt := r], chains, bt, block % |chains|);
      RelinkHashed(recs, chains, bt, block, r);
      if CR_NOTVALID != recs[bt].cacheIndex {
        recs := recs[bt := recs[bt].(cacheIndex := CR_NOTVALID)];
      }
      chains := Unlink(chains, bt);
      recs := recs[bt := recs[bt].(blk := block, killtn := currTn)];
      var hdr := block % |chains|;
      chains := chains[hdr := chains[hdr] + [bt]];
    }

    /** The common end of a put: the record goes to the back of the recency queue. */
    method Requeue(id: nat, block: nat, currTn: nat)
      requires |recs| > 0 && |chains| > 0 && id < |recs| && NonNegative(puts)
      requires Chained(recs, chains) && Hashed(recs, chains)
      requires Aged(recs[id := recs[id].(tn := currTn)], tnque + [id])
      requires Blocks(recs[id := recs[id].(tn := currTn)], tnque + [id]) == Run(|recs|, puts + [block])
      modifies this`recs, this`tnque, this`puts
      ensures Valid() && puts == old(puts) + [block]
      ensures recs == old(recs)[id := old(recs)[id].(tn := currTn)]
    {
      Retagged(recs, chains, id, currTn);
      tnque := tnque + [id];
      recs := recs[id := recs[id].(tn := currTn)];
      puts := puts + [block];
    }

    method PutNew(block: nat, currTn: nat) returns (id: nat)
      requires Valid() && forall k :: 0 <= k < |recs| ==> recs[k].tn <= currTn
      requires !Recent(puts, block, |recs|)
      modifies this
      ensures Valid() && puts == old(puts) + [block] && |chains| == old(|chains|)
      ensures id == old(tnque[0]) && id < old(|recs|)
      ensures recs == old(recs)[id := BtRec(block, currTn, currTn, CR_NOTVALID)]
    {
      Finds(block);
      id := tnque[0];
      ghost var r := BtRec(block, currTn, currTn, CR_NOTVALID);
      PutBlocks(recs, tnque, id, block, r, |recs|, puts);
      Requeued(recs, tnque, id, r);
      ghost var recs' := recs[id := r];
      Evict(block, currTn);
      tnque := Remove(tnque, id);
      assert recs[id := recs[id].(tn := currTn)] == recs';
      Requeue(id, block, currTn);
    }

    method PutAgain(id: nat, block: nat, currTn: nat)
      requires Valid() && forall k :: 0 <= k < |recs| ==> recs[k].tn <= currTn
      requires id < |recs| && recs[id].blk == block
      modifies this`recs, this`tnque, this`puts
      ensures Valid() && puts == old(puts) + [block]
      ensures recs == old(recs)[id := old(recs)[id].(tn := currTn)]
    {
      PutBlocks(recs, tnque, id, block, recs[id].(tn := currTn), |recs|, puts);
      Requeued(recs, tnque, id, recs[id].(tn := currTn));
      tnque := Remove(tnque, id);
      Requeue(id, block, currTn);
    }

    /** Put `block` at transaction `currTn`. `dirty` and `gotSpace` answer for the cache record of the
        oldest entry: whether it is dirty and, if so, whether the flush freed it. */
    method BtPut(block: nat, currTn: nat, dirty: bool, gotSpace: bool) returns (r: PutResult)
      requires Valid() && forall k :: 0 <= k < |recs| ==> recs[k].tn <= currTn
      modifies this
      ensures !r.BtFail?
      ensures r.WcBlocked? <==>
        !old(Recent(puts, block, |recs|)) && old(recs[tnque[0]].cacheIndex) != CR_NOTVALID && dirty && !gotSpace
      ensures r.WcBlocked? ==> unchanged(this)
      ensures r.Record? ==> Valid() && puts == old(puts) + [block] && r.id < old(|recs|) && |chains| == old(|chains|)
      ensures r.Record? && old(Recent(puts, block, |recs|)) ==>
        old(recs)[r.id].blk == block && recs == old(recs)[r.id := old(recs)[r.id].(tn := currTn)]
      ensures r.Record? && !old(Recent(puts, block, |recs|)) ==>
        r.id == old(tnque[0]) && recs == old(recs)[r.id := BtRec(block, currTn, currTn, CR_NOTVALID)]
    {
      var found, failed := Search(block);
      if failed {
        return BtFail;
      }
      if found.None? {
        if CR_NOTVALID != recs[tnque[0]].cacheIndex && dirty && !gotSpace {
          return WcBlocked;
        }
        var id := PutNew(block, currTn);
        r := Record(id);
      } else {
        PutAgain(found.value, block, currTn);
        r := Record(found.value);
      }
    }

    /** Every record made unused; with `init`, the queues rebuilt as well. */
    method BtRefresh(init: bool, nBts: nat, buckets: nat)
      requires 0 < nBts <= buckets && nBts == |recs| && buckets == |chains|
      requires !init ==> Linked()
      modifies this
      ensures Valid() && puts == [] && |recs| == nBts && |chains| == buckets
      ensures forall k :: 0 <= k < nBts ==> recs[k] == BtRec(NOT_VALID, 0, 0, CR_NOTVALID)
      ensures !init ==> chains == old(chains) && tnque == old(tnque)
    {
      if init {
        chains := seq(buckets, _ => []);
        tnque := [];
      }
      ghost var queues := tnque;
      ghost var chains0 := chains;
      var k := 0;
      while k < nBts
        invariant 0 <= k <= nBts == |recs| && |chains| == buckets
        invariant forall j :: 0 <= j < k ==> recs[j] == BtRec(NOT_VALID, 0, 0, CR_NOTVALID)
        invariant init ==> |tnque| == k && forall j :: 0 <= j < k ==> tnque[j] == j
        invariant init ==> forall b :: 0 <= b < buckets ==> chains[b] == if b < k then [b] else []
        invariant !init ==> chains == chains0 && tnque == queues
      {
        recs := recs[k := BtRec(NOT_VALID, 0, 0, CR_NOTVALID)];
        if init {
          chains := chains[k := chains[k] + [k]];
          tnque := tnque + [k];
        }
        k := k + 1;
      }
      puts := [];
      if init {
        InitialLinked(recs, chains, tnque);
      }
      UnusedTable(recs, chains, tnque);
    }
  }
}
