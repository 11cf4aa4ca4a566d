/** The search for a free block in a transaction, bm_getfree of sr_port/bm_getfree.c, over fixed local
    maps. A map that the transaction has taken blocks from has an element in the write set, with the
    bits taken so far. */
module GetFree {
  import opened Bitmap
  import opened BitmapSearch
  import opened MasterMap

  /** An element of the write set; `upd` and `old_` matter for the elements of bitmaps. */
  datatype CwElement = CwElement(blk: int, upd: seq<nat>, old_: seq<bv8>)

  /** What one round comes to. */
  datatype Step = Next(hint: int, hintCycled: int) | Stop(res: Outcome)

  /** What a search comes to. `Astray` stands for reading in front of the write set. */
  datatype Outcome = Block(n: nat) | MustExtend | MapReadFail | Astray | Exhausted

  /** Element `e` is that of local map `k`: bits taken in order, each available in the map, and no
      available one passed over. */
  ghost predicate MapElement(db: Database, e: CwElement, k: nat)
    requires WellFormed(db)
  {
    && k < LocalMaps(db.total) && e.blk == k * BLKS_PER_LMAP && db.maps[k] == Local(e.old_) && WellFormedMap(db, k)
    && e.upd != [] && (forall i, j :: 0 <= i < j < |e.upd| ==> e.upd[i] < e.upd[j])
    && (forall i :: 0 <= i < |e.upd| ==> Takeable(db, k, e.upd[i]))
    && forall bit: nat :: bit <= e.upd[|e.upd| - 1] && Takeable(db, k, bit) ==> bit in e.upd
  }

  /** Block `bit` of local map `k` is within the map and free or recycled. */
  ghost predicate Takeable(db: Database, k: nat, bit: nat)
    requires WellFormed(db)
  {
    k < LocalMaps(db.total) && db.maps[k].Local? && WellFormedMap(db, k) && bit < MapSize(db.total, k)
    && Avail(Status(db.maps[k].m, bit))
  }

  /** By block numbers: block `n` can be taken if there is such a block, in a map that can be read, free or recycled. */
  lemma TakeableBlock(db: Database, n: nat)
    requires WellFormed(db)
    ensures Takeable(db, n / BLKS_PER_LMAP, n % BLKS_PER_LMAP) <==> AvailableBlock(db, n)
  {
    MapSizes(db.total, n);
    assert n < db.total && db.maps[n / BLKS_PER_LMAP].Local? ==> WellFormedMap(db, n / BLKS_PER_LMAP);
  }

  ghost predicate ProperElement(db: Database, e: CwElement)
    requires WellFormed(db)
  {
    e.blk % BLKS_PER_LMAP == 0 ==> e.blk >= 0 && MapElement(db, e, e.blk / BLKS_PER_LMAP)
  }

  /** The elements from `lo` on that are for bitmaps are proper ones, one for each map. */
  ghost predicate Elements(db: Database, cw: seq<CwElement>, lo: nat)
    requires WellFormed(db)
  {
    && (forall d {:trigger ProperElement(db, cw[d])} :: lo <= d < |cw| ==> ProperElement(db, cw[d]))
    && (forall c, d :: lo <= c < d < |cw| && cw[c].blk % BLKS_PER_LMAP == 0 ==> cw[c].blk != cw[d].blk)
  }

  /** Block `g` is recorded in the element of its map. */
  ghost predicate TakenAt(e: CwElement, g: nat) {
    e.blk == g / BLKS_PER_LMAP * BLKS_PER_LMAP && g % BLKS_PER_LMAP in e.upd
  }

  /** Block `g` is recorded in an element from `lo` on. */
  ghost predicate Taken(cw: seq<CwElement>, lo: nat, g: nat) {
    exists d :: lo <= d < |cw| && TakenAt(cw[d], g)
  }

  /** `cw'` is the write set with bit `bit` of map `k` recorded: in the map's element, or a new one. */
  ghost predicate Recorded(db: Database, cw: seq<CwElement>, cw': seq<CwElement>, lo: nat, k: nat, bit: nat)
    requires WellFormed(db)
  {
    && Takeable(db, k, bit)
    && ((exists d :: lo <= d < |cw| && Extended(cw, cw', d, k, bit)) ||
        cw' == cw + [CwElement(k * BLKS_PER_LMAP, [bit], db.maps[k].m)])
  }

  ghost predicate Extended(cw: seq<CwElement>, cw': seq<CwElement>, d: nat, k: nat, bit: nat)
    requires d < |cw|
  {
    cw[d].blk == k * BLKS_PER_LMAP && cw' == cw[d := cw[d].(upd := cw[d].upd + [bit])]
  }

  lemma BlockParts(k: nat, bit: nat)
    requires bit < BLKS_PER_LMAP
    ensures (k * BLKS_PER_LMAP + bit) / BLKS_PER_LMAP == k && (k * BLKS_PER_LMAP + bit) % BLKS_PER_LMAP == bit
  {
  }

  /** The next available bit of a map that has an element: the elements stay proper. */
  lemma TookMore(db: Database, cw: seq<CwElement>, lo: nat, d: nat, k: nat, bit: nat)
    requires WellFormed(db) && Elements(db, cw, lo) && lo <= d < |cw| && cw[d].blk == k * BLKS_PER_LMAP
    requires cw[d].upd != [] && cw[d].upd[|cw[d].upd| - 1] < bit && Takeable(db, k, bit)
    requires forall b: nat :: cw[d].upd[|cw[d].upd| - 1] < b < bit ==> !Takeable(db, k, b)
    ensures Elements(db, cw[d := cw[d].(upd := cw[d].upd + [bit])], lo)
  {
    BlockParts(k, 0);
    assert ProperElement(db, cw[d]);
    ElementMore(db, cw[d], k, bit);
    ElementReplaced(db, cw, lo, d, cw[d].(upd := cw[d].upd + [bit]));
  }

  lemma ElementReplaced(db: Database, cw: seq<CwElement>, lo: nat, d: nat, e: CwElement)
    requires WellFormed(db) && Elements(db, cw, lo) && lo <= d < |cw| && e.blk == cw[d].blk && ProperElement(db, e)
    ensures Elements(db, cw[d := e], lo)
  {
    var cw' := cw[d := e];
    forall c | lo <= c < |cw| ensures ProperElement(db, cw'[c]) {
      assert ProperElement(db, cw[c]);
    }
  }

  lemma ElementMore(db: Database, e: CwElement, k: nat, bit: nat)
    requires WellFormed(db) && MapElement(db, e, k) && e.upd[|e.upd| - 1] < bit && Takeable(db, k, bit)
    requires forall b: nat :: e.upd[|e.upd| - 1] < b < bit ==> !Takeable(db, k, b)
    ensures MapElement(db, e.(upd := e.upd + [bit]), k)
  {
    var upd := e.upd + [bit];
    SortedMore(e.upd, bit);
    forall b: nat | b <= bit && Takeable(db, k, b) ensures b in upd {
      assert b == bit ==> upd[|e.upd|] == b;
    }
    assert forall i :: 0 <= i < |upd| ==> Takeable(db, k, upd[i]);
  }

  lemma SortedMore(upd: seq<nat>, bit: nat)
    requires upd != [] && upd[|upd| - 1] < bit && forall i, j :: 0 <= i < j < |upd| ==> upd[i] < upd[j]
    ensures var upd' := upd + [bit]; forall i, j :: 0 <= i < j < |upd'| ==> upd'[i] < upd'[j]
  {
  }

  /** The first available bit of a map without an element. */
  lemma TookFirst(db: Database, cw: seq<CwElement>, lo: nat, k: nat, bit: nat)
    requires WellFormed(db) && Elements(db, cw, lo) && lo <= |cw| && Takeable(db, k, bit)
    requires (forall b: nat :: b < bit ==> !Takeable(db, k, b)) && forall d :: lo <= d < |cw| ==>
      cw[d].blk != k * BLKS_PER_LMAP
    ensures Elements(db, cw + [CwElement(k * BLKS_PER_LMAP, [bit], db.maps[k].m)], lo)
  {
    var e := CwElement(k * BLKS_PER_LMAP, [bit], db.maps[k].m);
    BlockParts(k, 0);
    assert ProperElement(db, e);
    forall c | lo <= c < |cw| + 1 ensures ProperElement(db, (cw + [e])[c]) {
      assert c < |cw| ==> ProperElement(db, cw[c]);
    }
  }

  /** Recording a bit records that block and no other. */
  lemma RecordedTakes(db: Database, cw: seq<CwElement>, cw': seq<CwElement>, lo: nat, at: nat, k: nat, bit: nat, g: nat)
    requires WellFormed(db) && Recorded(db, cw, cw', lo, k, bit) && at <= lo && at <= |cw|
    ensures Taken(cw', at, g) <==> Taken(cw, at, g) || g == k * BLKS_PER_LMAP + bit
  {
    MapSizeBounds(db.total, k);
    BlockParts(k, bit);
    if d :| lo <= d < |cw| && Extended(cw, cw', d, k, bit) {
      assert TakenAt(cw'[d], g) <==> TakenAt(cw[d], g) || g == k * BLKS_PER_LMAP + bit;
      forall c | 0 <= c < |cw| && TakenAt(cw[c], g) ensures TakenAt(cw'[c], g) {
      }
    } else {
      assert TakenAt(cw'[|cw|], g) <==> g == k * BLKS_PER_LMAP + bit;
      forall c | 0 <= c < |cw| && TakenAt(cw[c], g) ensures TakenAt(cw'[c], g) {
      }
    }
  }

  /** Every available block of map `k` is recorded. */
  ghost predicate Full(db: Database, cw: seq<CwElement>, lo: nat, k: nat)
    requires WellFormed(db)
  {
    k < LocalMaps(db.total) && db.maps[k].Local? && forall bit: nat :: Takeable(db, k, bit) ==>
      Taken(cw, lo, k * BLKS_PER_LMAP + bit)
  }

  ghost function FullMaps(db: Database, cw: seq<CwElement>, lo: nat): set<nat>
    requires WellFormed(db)
  {
    set k: nat | k < LocalMaps(db.total) && Full(db, cw, lo, k)
  }

  /** Of the maps from `a` up to `b`, those that the master map marks are full. */
  ghost predicate Done(master: seq<bv8>, full: set<nat>, a: int, b: int)
    requires b <= 8 * |master|
  {
    forall k: nat :: a <= k < b && MapBit(master, k) ==> k in full
  }

  /** `master'` is `master` with nothing but bits of full maps cleared. */
  ghost predicate Cleared(master: seq<bv8>, master': seq<bv8>, full: set<nat>) {
    |master'| == |master| && forall k: nat :: k < 8 * |master| && MapBit(master', k) != MapBit(master, k) ==>
      MapBit(master, k) && k in full
  }

  /** Some marked map cannot be read. */
  ghost predicate CannotRead(db: Database, master: seq<bv8>)
    requires WellFormed(db) && LocalMaps(db.total) <= 8 * |master|
  {
    exists b: nat :: b < LocalMaps(db.total) && MapBit(master, b) && db.maps[b] == Unreadable
  }

  /** Where the search of a write set of `n` elements starts, index 0 standing for not found. */
  function First(cwWork: nat): nat { if cwWork == 0 then 1 else cwWork }

  /** Some marked map that the search cannot handle: bits recorded below where they can be found; or, if the
      search starts at index 0, no element at all outside a transaction, and in one an element, at index 0
      or to come there, that counts as not found. */
  ghost predicate Exposes(db: Database, cw: seq<CwElement>, cwWork: nat, tp: bool, master: seq<bv8>, k: nat)
    requires WellFormed(db) && LocalMaps(db.total) <= 8 * |master|
  {
    k < LocalMaps(db.total) && MapBit(master, k) && (
      || (exists d :: 0 <= d < |cw| && d < First(cwWork) && Records(cw[d], k))
      || (cwWork == 0 && !tp && forall d :: 0 <= d < |cw| ==> cw[d].blk != k * BLKS_PER_LMAP)
      || (cwWork == 0 && tp && (cw == [] || cw[0].blk == k * BLKS_PER_LMAP) && exists bit :: Takeable(db, k, bit)))
  }

  /** Element `e` has bits of map `k`. */
  predicate Records(e: CwElement, k: nat) { e.blk == k * BLKS_PER_LMAP && e.upd != [] }

  /** Whatever has bits of a map, anywhere in the write set, is the one proper element of it. */
  ghost predicate Recording(db: Database, cw: seq<CwElement>)
    requires WellFormed(db)
  {
    && (forall d, k: nat :: 0 <= d < |cw| && Records(cw[d], k) ==> MapElement(db, cw[d], k))
    && (forall c, d, k: nat :: 0 <= c < d < |cw| && Records(cw[c], k) ==> !Records(cw[d], k))
  }

  ghost predicate Safe(db: Database, cw: seq<CwElement>, cwWork: nat, tp: bool, master: seq<bv8>)
    requires WellFormed(db) && LocalMaps(db.total) <= 8 * |master|
  {
    forall k: nat :: !Exposes(db, cw, cwWork, tp, master, k)
  }

  /** With elements that have no bits of a map before all others, as both callers have it, nothing is exposed. */
  lemma CallersSafe(db: Database, cw: seq<CwElement>, cwWork: nat, tp: bool, master: seq<bv8>)
    requires WellFormed(db) && LocalMaps(db.total) <= 8 * |master|
    requires 0 < cwWork <= |cw| && forall d :: 0 <= d < cwWork ==> cw[d].upd == []
    ensures Safe(db, cw, cwWork, tp, master)
  {
  }

  /** The map of a block that is not recorded is not full. */
  lemma NewNotFull(db: Database, cw: seq<CwElement>, lo: nat, k: nat, bit: nat)
    requires WellFormed(db) && Takeable(db, k, bit) && !Taken(cw, 0, k * BLKS_PER_LMAP + bit)
    ensures !Full(db, cw, lo, k)
  {
    assert !Taken(cw, lo, k * BLKS_PER_LMAP + bit);
  }

  /** A repair of the master map exposes nothing. */
  lemma SafeCleared(db: Database, cw: seq<CwElement>, cwWork: nat, tp: bool, m0: seq<bv8>, m1: seq<bv8>, full: set<nat>)
    requires WellFormed(db) && LocalMaps(db.total) <= 8 * |m0| && Cleared(m0, m1, full)
    ensures Safe(db, cw, cwWork, tp, m0) ==> Safe(db, cw, cwWork, tp, m1)
  {
    forall k: nat ensures Exposes(db, cw, cwWork, tp, m1, k) ==> Exposes(db, cw, cwWork, tp, m0, k) {
    }
  }

  /** Nor does recording a block of a marked map. */
  lemma SafeRecorded(db: Database, cw: seq<CwElement>, cw': seq<CwElement>, cwWork: nat, tp: bool, master: seq<bv8>,
                     k: nat, bit: nat)
    requires WellFormed(db) && LocalMaps(db.total) <= 8 * |master| && Safe(db, cw, cwWork, tp, master) && cwWork <= |cw|
    requires Recorded(db, cw, cw', First(cwWork), k, bit) && MapBit(master, k)
    ensures Safe(db, cw', cwWork, tp, master) && First(cwWork) <= |cw|
  {
    assert !Exposes(db, cw, cwWork, tp, master, k);
    forall j: nat ensures !Exposes(db, cw', cwWork, tp, master, j) {
      assert !Exposes(db, cw, cwWork, tp, master, j);
      assert forall d :: 0 <= d < |cw| ==> cw'[d].blk == cw[d].blk;
    }
  }

  /** The blocks of `outs` are new to `cw`, pairwise distinct, and all that `cw'` records more. */
  ghost predicate Given(db: Database, cw: seq<CwElement>, cw': seq<CwElement>, outs: seq<Outcome>)
    requires WellFormed(db)
  {
    && (forall i :: 0 <= i < |outs| && outs[i].Block? ==>
          outs[i].n < db.total && AvailableBlock(db, outs[i].n) && !Taken(cw, 0, outs[i].n))
    && (forall i, j :: 0 <= i < j < |outs| && outs[i].Block? ==> outs[j] != outs[i])
    && forall g :: Taken(cw', 0, g) <==> Taken(cw, 0, g) || Block(g) in outs
  }

  lemma GivenMore(db: Database, cw: seq<CwElement>, cw1: seq<CwElement>, cw2: seq<CwElement>, lo: nat,
                  outs: seq<Outcome>, res: Outcome)
    requires WellFormed(db) && Given(db, cw, cw1, outs)
    requires if res.Block? then !Taken(cw1, 0, res.n) && AvailableBlock(db, res.n) &&
      Recorded(db, cw1, cw2, lo, res.n / BLKS_PER_LMAP, res.n % BLKS_PER_LMAP) else cw2 == cw1
    ensures Given(db, cw, cw2, outs + [res])
  {
    var outs' := outs + [res];
    assert outs'[|outs|] == res;
    forall g ensures Taken(cw2, 0, g) <==> Taken(cw, 0, g) || Block(g) in outs' {
      if res.Block? {
        RecordedTakes(db, cw1, cw2, lo, 0, res.n / BLKS_PER_LMAP, res.n % BLKS_PER_LMAP, g);
      }
    }
  }

  /** A map that is full stays so, and the master map loses only bits of full maps. */
  lemma FullGrows(db: Database, m0: seq<bv8>, m1: seq<bv8>, m2: seq<bv8>, cw1: seq<CwElement>, cw2: seq<CwElement>,
                  lo: nat, res: Outcome)
    requires WellFormed(db) && (res.Block? ==> lo <= |cw1|) && LocalMaps(db.total) <= 8 * |m1|
    requires Cleared(m0, m1, FullMaps(db, cw1, lo)) && Cleared(m1, m2, FullMaps(db, cw1, lo))
    requires if res.Block? then Recorded(db, cw1, cw2, lo, res.n / BLKS_PER_LMAP, res.n % BLKS_PER_LMAP) else cw2 == cw1
    ensures Cleared(m0, m2, FullMaps(db, cw2, lo))
    ensures Done(m1, FullMaps(db, cw1, lo), 0, LocalMaps(db.total)) ==>
      Done(m2, FullMaps(db, cw2, lo), 0, LocalMaps(db.total))
  {
    forall k: nat, bit: nat | Takeable(db, k, bit) && Taken(cw1, lo, k * BLKS_PER_LMAP + bit)
      ensures Taken(cw2, lo, k * BLKS_PER_LMAP + bit)
    {
      if res.Block? {
        RecordedTakes(db, cw1, cw2, lo, lo, res.n / BLKS_PER_LMAP, res.n % BLKS_PER_LMAP, k * BLKS_PER_LMAP + bit);
      }
    }
    assert FullMaps(db, cw1, lo) <= FullMaps(db, cw2, lo);
  }

  /** Block `n` is the least to take of map `k`. */
  ghost predicate LeastOf(db: Database, k: nat, n: nat)
    requires WellFormed(db)
  {
    && n / BLKS_PER_LMAP == k && Takeable(db, k, n % BLKS_PER_LMAP)
    && forall bit: nat :: Takeable(db, k, bit) ==> n % BLKS_PER_LMAP <= bit
  }

  class Transaction {
    const db: Database
    const cwWork: nat
    const tp: bool
    /** The master map, which the search repairs when it is in the critical section. */
    var master: seq<bv8>
    var cw: seq<CwElement>

    constructor (db: Database, cwWork: nat, tp: bool, cw: seq<CwElement>)
      requires WellFormed(db) && LocalMaps(db.total) + 2 <= 8 * |db.master| && cwWork <= |cw|
      requires Elements(db, cw, First(cwWork))
      ensures Searchable() && this.db == db && this.cwWork == cwWork && this.tp == tp && this.cw == cw
      ensures master == db.master
    {
      this.db, this.cwWork, this.tp, this.master, this.cw := db, cwWork, tp, db.master, cw;
    }

    ghost predicate Searchable() reads this {
      WellFormed(db) && LocalMaps(db.total) + 2 <= 8 * |master| && cwWork <= |cw| && Elements(db, cw, First(cwWork))
    }

    ghost predicate Sound() reads this {
      Searchable() && Safe(db, cw, cwWork, tp, master)
    }

    /** Every marked map is full. */
    ghost predicate AllFull() reads this
      requires Searchable()
    {
      forall k: nat :: k < LocalMaps(db.total) && MapBit(master, k) ==> Full(db, cw, First(cwWork), k)
    }

    /** Every block there is in a marked map can be seen, and if it is available it is recorded where the search
        finds it. */
    ghost predicate NoneLeft() reads this {
      forall n: nat :: n < db.total && Marked(master, n) ==>
        n / BLKS_PER_LMAP < |db.maps| && db.maps[n / BLKS_PER_LMAP].Local?
          && (AvailableBlock(db, n) ==> Taken(cw, First(cwWork), n))
    }

    lemma FullLeavesNone()
      requires Searchable()
      ensures AllFull() ==> NoneLeft()
    {
      forall n: nat | AllFull() && n < db.total && Marked(master, n)
        ensures n / BLKS_PER_LMAP < |db.maps| && db.maps[n / BLKS_PER_LMAP].Local?
          && (AvailableBlock(db, n) ==> Taken(cw, First(cwWork), n))
      {
        MapSizes(db.total, n);
        assert Full(db, cw, First(cwWork), n / BLKS_PER_LMAP);
        TakeableBlock(db, n);
        assert n / BLKS_PER_LMAP * BLKS_PER_LMAP + n % BLKS_PER_LMAP == n;
      }
    }

    /** No element of map `bml` from where the search can find one. */
    ghost predicate NoElement(bml: int) reads this {
      forall d :: First(cwWork) <= d < |cw| ==> cw[d].blk != bml
    }

    /** The search of the write set for the element of map `bml`; 0 stands for not found. Outside a
        transaction the comparison with the bound is unsigned, so that a bound of 0 does not stop it. */
    method FindDepth(bml: int) returns (depth: nat, astray: bool)
      requires cwWork <= |cw|
      ensures depth > 0 ==> First(cwWork) <= depth < |cw| && cw[depth].blk == bml
      ensures astray <==> !tp && cwWork == 0 && forall d :: 0 <= d < |cw| ==> cw[d].blk != bml
      ensures depth == 0 && !astray ==> NoElement(bml) || (tp && cwWork == 0 && cw != [] && cw[0].blk == bml)
      ensures NoElement(bml) || (tp && cwWork == 0 && cw[0].blk == bml) ==> depth == 0
    {
      astray := false;
      if tp {
        depth := cwWork;
        while depth < |cw| && cw[depth].blk != bml
          invariant cwWork <= depth && forall d :: cwWork <= d < depth && d < |cw| ==> cw[d].blk != bml
        {
          depth := depth + 1;
        }
        if depth >= |cw| {
          depth := 0;
        }
      } else {
        var back: int := |cw| - 1;
        while back >= 0 && back >= cwWork && cw[back].blk != bml
          invariant -1 <= back < |cw| && forall d :: back < d < |cw| && cwWork <= d ==> cw[d].blk != bml
        {
          back := back - 1;
        }
        astray := back < 0 && cwWork == 0;
        depth := if back < cwWork then 0 else back;
      }
    }

    /** The bit to take from map `k`: the first of the map as it is read, or after the last bit taken. */
    method LookInMap(k: nat, depth: nat) returns (failed: bool, freeBit: int, used: bool)
      requires WellFormed(db) && k < LocalMaps(db.total)
      requires depth == 0 || (depth < |cw| && MapElement(db, cw[depth], k))
      ensures failed <==> depth == 0 && db.maps[k] == Unreadable
      ensures !failed ==> NextBit(k, depth, freeBit, used)
    {
      var m, offset := [], 0;
      used := false;
      if depth == 0 {
        if db.maps[k] == Unreadable {
          return true, NO_FREE_SPACE, false;
        }
        m := db.maps[k].m;
        assert WellFormedMap(db, k);
      } else {
        m := cw[depth].old_;
        offset := cw[depth].upd[|cw[depth].upd| - 1] + 1;
      }
      MapSizeBounds(db.total, k);
      if offset < MapSize(db.total, k) {
        freeBit, used := BmFindBlk(offset, m, MapSize(db.total, k));
        ValidRight(m, offset, MapSize(db.total, k), freeBit, used);
      } else {
        freeBit := NO_FREE_SPACE;
      }
      failed := false;
    }

    /** The first bit of map `k` that can be taken after those in the element at `depth`. */
    ghost predicate NextBit(k: nat, depth: nat, freeBit: int, used: bool) reads this
      requires WellFormed(db) && k < LocalMaps(db.total) && depth < |cw| + 1
    {
      db.maps[k].Local? && WellFormedMap(db, k) && (depth > 0 ==> depth < |cw| && cw[depth].upd != []) &&
      var from := if depth == 0 then 0 else cw[depth].upd[|cw[depth].upd| - 1] + 1;
      FoundLeast(db.maps[k].m, from, MapSize(db.total, k), freeBit, used)
    }

    /** What the search has come to, before anything is recorded. */
    ghost predicate Sought(res: Outcome, used: bool, depth: nat, k: nat, freeBit: nat) reads this
      requires Searchable()
    {
      && (res == MapReadFail ==>
          exists b: nat :: b < LocalMaps(db.total) && MapBit(master, b) && db.maps[b] == Unreadable)
      && (res == Astray ==>
          exists b: nat :: b < LocalMaps(db.total) && MapBit(master, b) && AllAstray(b * BLKS_PER_LMAP))
      && (res == MustExtend ==> AllFull())
      && (res.Block? ==>
        && Takeable(db, k, freeBit) && MapBit(master, k)
        && res.n == k * BLKS_PER_LMAP + freeBit && res.n / BLKS_PER_LMAP == k && res.n % BLKS_PER_LMAP == freeBit
        && depth < |cw| + 1 && NextBit(k, depth, freeBit, used) && AtDepth(k, depth))
    }

    /** What `depth` says about map `k`. */
    ghost predicate AtDepth(k: nat, depth: nat) reads this
      requires Searchable()
    {
      if depth > 0 then First(cwWork) <= depth < |cw| && MapElement(db, cw[depth], k)
      else NoElement(k * BLKS_PER_LMAP) || (tp && cwWork == 0 && cw != [] && cw[0].blk == k * BLKS_PER_LMAP)
    }

    ghost predicate AllAstray(bml: int) reads this {
      !tp && cwWork == 0 && forall d :: 0 <= d < |cw| ==> cw[d].blk != bml
    }

    /** One map: its element, if it has one, and a bit. */
    method TryMap(k: nat) returns (failed: bool, astray: bool, depth: nat, bit: int, used: bool)
      requires Searchable() && k < LocalMaps(db.total)
      ensures astray <==> AllAstray(k * BLKS_PER_LMAP)
      ensures !astray ==> AtDepth(k, depth) && (failed <==> depth == 0 && db.maps[k] == Unreadable)
      ensures !astray && !failed ==> depth < |cw| + 1 && NextBit(k, depth, bit, used)
      ensures NoElement(k * BLKS_PER_LMAP) || (tp && cwWork == 0 && cw != [] && cw[0].blk == k * BLKS_PER_LMAP) ==>
        depth == 0
    {
      failed, bit, used := false, NO_FREE_SPACE, false;
      depth, astray := FindDepth(k * BLKS_PER_LMAP);
      if !astray {
        if depth > 0 {
          ElementOf(k, depth);
        }
        failed, bit, used := LookInMap(k, depth);
      }
    }

    /** The element found is that of its map. */
    lemma ElementOf(k: nat, depth: nat)
      requires Searchable() && First(cwWork) <= depth < |cw| && cw[depth].blk == k * BLKS_PER_LMAP
      ensures MapElement(db, cw[depth], k)
    {
      BlockParts(k, 0);
      assert ProperElement(db, cw[depth]);
    }

    /** A map with no further bit is full. */
    lemma NoNextBit(k: nat, depth: nat, used: bool)
      requires Searchable() && k < LocalMaps(db.total) && AtDepth(k, depth) && depth < |cw| + 1
      requires NextBit(k, depth, NO_FREE_SPACE, used)
      ensures Full(db, cw, First(cwWork), k)
    {
      forall bit: nat | Takeable(db, k, bit) ensures Taken(cw, First(cwWork), k * BLKS_PER_LMAP + bit) {
        MapSizeBounds(db.total, k);
        BlockParts(k, bit);
        assert depth > 0 && bit in cw[depth].upd;
        assert TakenAt(cw[depth], k * BLKS_PER_LMAP + bit);
      }
    }

    /** What the first round must come to from `hint`, where nothing stands in its way: its map is marked and
        the search finds no element of it; then it goes astray or takes the least block. */
    ghost predicate Immediate(hint: nat) reads this
      requires Searchable()
    {
      hint < db.total && var k := hint / BLKS_PER_LMAP;
      MapBit(master, k) && (AllAstray(k * BLKS_PER_LMAP) ||
        (AtDepth(k, 0) && exists bit :: Takeable(db, k, bit)))
    }

    ghost predicate ImmediateResult(hint: nat, res: Outcome, k: nat, depth: nat) reads this {
      if AllAstray(hint / BLKS_PER_LMAP * BLKS_PER_LMAP) then res == Astray
      else res.Block? && k == hint / BLKS_PER_LMAP && depth == 0
    }

    /** One round. */
    method Round(hint: nat, hintCycled: int, hintLimit: int, nowCrit: bool, ghost lcnt: int, ghost full: set<nat>)
      returns (step: Step, used: bool, depth: nat, k: nat, freeBit: nat)
      requires Searchable() && full == FullMaps(db, cw, First(cwWork))
      requires UnderWay(lcnt, hint, hintCycled, hintLimit, full)
      modifies this`master
      ensures Searchable() && Cleared(old(master), master, full)
      ensures if step.Stop? then step.res != Exhausted && Sought(step.res, used, depth, k, freeBit)
              else step.hint >= 0 && UnderWay(lcnt - 1, step.hint, step.hintCycled, hintLimit, full)
      ensures old(Immediate(hint)) && hintCycled == LocalMaps(db.total) ==>
        step.Stop? && ImmediateResult(hint, step.res, k, depth) && master == old(master)
    {
      used, depth, k, freeBit := false, 0, 0, 0;
      ghost var maps := LocalMaps(db.total);
      var bml := BmmFindFree(hint / BLKS_PER_LMAP, master, LocalMaps(db.total) + 2);
      if bml == NO_FREE_SPACE || bml >= hintCycled {
        if bml != NO_FREE_SPACE && hintLimit < hintCycled {
          PassedEnd(master, full, lcnt, hintCycled, hintLimit, hint / BLKS_PER_LMAP, maps, bml);
          return Next(1, hintLimit), used, depth, k, freeBit;
        }
        PassedAll(master, full, lcnt, hintCycled, hintLimit, hint / BLKS_PER_LMAP, maps, bml);
        assert forall j: nat :: j in full ==> Full(db, cw, First(cwWork), j);
        return Stop(MustExtend), used, depth, k, freeBit;
      }
      k := bml;
      step, used, depth, freeBit := RoundIn(hint, hintCycled, hintLimit, k, nowCrit, lcnt, full);
    }

    /** The round that comes to map `k`. */
    method RoundIn(hint: nat, hintCycled: int, hintLimit: int, k: nat, nowCrit: bool, ghost lcnt: int,
                   ghost full: set<nat>)
      returns (step: Step, used: bool, depth: nat, freeBit: nat)
      requires Searchable() && full == FullMaps(db, cw, First(cwWork))
      requires UnderWay(lcnt, hint, hintCycled, hintLimit, full)
      requires k < hintCycled && MapBit(master, k)
      requires FirstSetWrapped(master, SearchFrom(hint / BLKS_PER_LMAP, LocalMaps(db.total)), LocalMaps(db.total) + 2,
                               k)
      modifies this`master
      ensures Searchable() && Cleared(old(master), master, full)
      ensures if step.Stop? then step.res != Exhausted && Sought(step.res, used, depth, k, freeBit)
              else step.hint >= 0 && UnderWay(lcnt - 1, step.hint, step.hintCycled, hintLimit, full)
      ensures old(Immediate(hint)) && k == hint / BLKS_PER_LMAP ==>
        step.Stop? && ImmediateResult(hint, step.res, k, depth) && master == old(master)
    {
      var res;
      res, used, depth, freeBit := TakeFrom(k);
      if res == Exhausted {
        step := PassMap(hint, hintCycled, hintLimit, k, depth == 0 && nowCrit, lcnt, full);
      } else {
        step := Stop(res);
      }
    }

    /** What marked map `k` comes to; `Exhausted` when it has no block left. */
    method TakeFrom(k: nat) returns (res: Outcome, used: bool, depth: nat, freeBit: nat)
      requires Searchable() && k < LocalMaps(db.total) && MapBit(master, k)
      ensures res != MustExtend && (res == Exhausted ==> Full(db, cw, First(cwWork), k))
      ensures res != Exhausted ==> Sought(res, used, depth, k, freeBit)
      ensures (AllAstray(k * BLKS_PER_LMAP) ==> res == Astray)
      ensures !AllAstray(k * BLKS_PER_LMAP) && AtDepth(k, 0) && (exists bit :: Takeable(db, k, bit)) ==>
        res.Block? && depth == 0
    {
      freeBit := 0;
      var failed, astray, bit;
      failed, astray, depth, bit, used := TryMap(k);
      if astray {
        res := Astray;
      } else if failed {
        res := MapReadFail;
      } else if bit != NO_FREE_SPACE {
        freeBit := bit;
        MapSizeBounds(db.total, k);
        BlockParts(k, freeBit);
        res := Block(k * BLKS_PER_LMAP + freeBit);
      } else {
        NoNextBit(k, depth, used);
        res := Exhausted;
      }
    }

    /** bit_clear on the master map. */
    method BitClear(k: nat, ghost full: set<nat>)
      requires k < 8 * |master| && MapBit(master, k) && k in full
      modifies this`master
      ensures Cleared(old(master), master, full) && !MapBit(master, k)
    {
      forall i: nat | i < 8 * |master|
        ensures MapBit(master[k / 8 := Put(master[k / 8], k % 8, false)], i) == if i == k then false
          else MapBit(master, i)
      {
        BitsSetAt(master, k, false, i);
      }
      master := master[k / 8 := Put(master[k / 8], k % 8, false)];
    }

    /** Past full map `k`; `repair` when the master map must not mark it. */
    method PassMap(hint: nat, hintCycled: int, hintLimit: int, k: nat, repair: bool, ghost lcnt: int,
                   ghost full: set<nat>)
      returns (step: Step)
      requires LocalMaps(db.total) + 2 <= 8 * |master| && UnderWay(lcnt, hint, hintCycled, hintLimit, full)
      requires k < hintCycled && MapBit(master, k) && k in full
      requires FirstSetWrapped(master, SearchFrom(hint / BLKS_PER_LMAP, LocalMaps(db.total)), LocalMaps(db.total) + 2,
                               k)
      modifies this`master
      ensures Cleared(old(master), master, full)
      ensures step.Next? && step.hint >= 0 && UnderWay(lcnt - 1, step.hint, step.hintCycled, hintLimit, full)
    {
      ghost var maps := LocalMaps(db.total);
      var next, cycled := NextHint(hint, hintCycled, hintLimit, k, db.total, lcnt);
      PassedMap(master, full, lcnt, hintCycled, hintLimit, hint / BLKS_PER_LMAP, maps, k);
      if repair {
        BitClear(k, full);
        CoveredCleared(old(master), master, full, cycled, hintLimit, next / BLKS_PER_LMAP, maps);
      }
      return Next(next, cycled);
    }

    /** Rounds are left for what is still to be looked at, and the rest is full. */
    ghost predicate UnderWay(lcnt: int, hint: nat, hintCycled: int, hintLimit: int, full: set<nat>) reads this
      requires LocalMaps(db.total) <= 8 * |master|
    {
      && Rounds(lcnt, hintCycled, hintLimit, hint / BLKS_PER_LMAP, LocalMaps(db.total))
      && Covered(master, full, hintCycled, hintLimit, hint / BLKS_PER_LMAP, LocalMaps(db.total))
    }

    /** The rounds of the search; nothing is recorded yet. */
    method Seek(hint0: nat, nowCrit: bool, ghost full: set<nat>)
      returns (res: Outcome, used: bool, depth: nat, k: nat, freeBit: nat)
      requires Searchable() && full == FullMaps(db, cw, First(cwWork))
      modifies this`master
      ensures Searchable() && Sought(res, used, depth, k, freeBit) && res != Exhausted
      ensures Cleared(old(master), master, full)
      ensures old(Immediate(hint0)) ==> ImmediateResult(hint0, res, k, depth) && master == old(master)
    {
      used, depth, k, freeBit := false, 0, 0, 0;
      var maps := LocalMaps(db.total);
      var hint: int := if hint0 >= db.total then 1 else hint0;
      var hintCycled: int, hintLimit: int := maps, hint / BLKS_PER_LMAP;
      var lcnt := maps + 3;
      while lcnt > 0
        invariant Searchable() && lcnt >= 0 && hint >= 0 && Cleared(old(master), master, full)
        invariant UnderWay(lcnt, hint, hintCycled, hintLimit, full)
        invariant old(Immediate(hint0)) ==> hint == hint0 && hintCycled == maps && master == old(master)
      {
        var step;
        ghost var m0 := master;
        step, used, depth, k, freeBit := Round(hint, hintCycled, hintLimit, nowCrit, lcnt, full);
        ClearedTwice(old(master), m0, master, full);
        if step.Stop? {
          return step.res, used, depth, k, freeBit;
        }
        hint, hintCycled := step.hint, step.hintCycled;
        lcnt := lcnt - 1;
      }
      return Exhausted, used, depth, k, freeBit;
    }

    /** What is found is a block there is, available in a marked map. */
    lemma SoughtBlock(res: Outcome, used: bool, depth: nat, k: nat, freeBit: nat)
      requires Searchable() && Sought(res, used, depth, k, freeBit)
      ensures res.Block? ==> AvailableBlock(db, res.n) && Marked(master, res.n)
    {
      if res.Block? {
        MapSizeBounds(db.total, k);
        BlockParts(k, freeBit);
        TakeableBlock(db, res.n);
      }
    }

    /** The first bit of a map is its least. */
    lemma FirstIsLeast(k: nat, freeBit: nat, used: bool)
      requires WellFormed(db) && Takeable(db, k, freeBit) && NextBit(k, 0, freeBit, used)
      ensures LeastOf(db, k, k * BLKS_PER_LMAP + freeBit)
    {
      MapSizeBounds(db.total, k);
      BlockParts(k, freeBit);
    }

    lemma RecordedWith(k: nat, depth: nat, freeBit: nat)
      requires Searchable() && Takeable(db, k, freeBit) && AtDepth(k, depth) && depth < |cw| + 1
      ensures Recorded(db, cw, WithBlock(k, depth, freeBit), First(cwWork), k, freeBit)
    {
      assert depth > 0 ==> Extended(cw, WithBlock(k, depth, freeBit), depth, k, freeBit);
    }

    /** In a sound state the block found is new. */
    lemma NotTaken(k: nat, depth: nat, freeBit: nat, used: bool)
      requires Sound() && Takeable(db, k, freeBit) && MapBit(master, k) && AtDepth(k, depth)
      requires depth < |cw| + 1 && NextBit(k, depth, freeBit, used)
      ensures !Taken(cw, 0, k * BLKS_PER_LMAP + freeBit) && (depth == 0 ==> NoElement(k * BLKS_PER_LMAP))
    {
      MapSizeBounds(db.total, k);
      BlockParts(k, freeBit);
      assert !Exposes(db, cw, cwWork, tp, master, k);
      forall d | 0 <= d < |cw| && Records(cw[d], k) ensures d == depth && depth > 0 {
        OnlyElement(k, depth, d);
      }
      assert depth > 0 ==> freeBit !in cw[depth].upd;
    }

    lemma OnlyElement(k: nat, depth: nat, d: nat)
      requires Searchable() && k < LocalMaps(db.total) && MapBit(master, k) && AtDepth(k, depth)
      requires !Exposes(db, cw, cwWork, tp, master, k) && d < |cw| && Records(cw[d], k)
      requires exists bit :: Takeable(db, k, bit)
      ensures d == depth && depth > 0
    {
      BlockParts(k, 0);
    }

    /** In a sound state the elements stay proper. */
    lemma ElementsKept(k: nat, depth: nat, freeBit: nat, used: bool, cw': seq<CwElement>)
      requires Searchable() && AtDepth(k, depth) && Takeable(db, k, freeBit)
      requires depth < |cw| + 1 && NextBit(k, depth, freeBit, used)
      requires depth == 0 ==>
        NoElement(k * BLKS_PER_LMAP) && First(cwWork) <= |cw| &&
          cw' == cw + [CwElement(k * BLKS_PER_LMAP, [freeBit], db.maps[k].m)]
      requires depth > 0 ==> cw' == cw[depth := cw[depth].(upd := cw[depth].upd + [freeBit])]
      ensures Elements(db, cw', First(cwWork))
    {
      if depth > 0 {
        TookMore(db, cw, First(cwWork), depth, k, freeBit);
      } else {
        TookFirst(db, cw, First(cwWork), k, freeBit);
      }
    }

    /** bm_getfree without extension of the file: where the source would extend, it ends. It gives out a block
        of a marked map, and records it; it asks to extend only when every marked map is full. In a sound
        state every block given out is new, and it does not go astray. The rounds always suffice. */
    method GetFree(hint0: nat, nowCrit: bool) returns (res: Outcome, used: bool)
      requires Searchable()
      modifies this
      ensures res != Exhausted && LocalMaps(db.total) + 2 <= 8 * |master|
      ensures Cleared(old(master), master, old(FullMaps(db, cw, First(cwWork))))
      ensures res.Block? ==>
        Recorded(db, old(cw), cw, First(cwWork), res.n / BLKS_PER_LMAP, res.n % BLKS_PER_LMAP) &&
          MapBit(old(master), res.n / BLKS_PER_LMAP)
      ensures res.Block? ==> res.n < db.total && AvailableBlock(db, res.n) && Marked(old(master), res.n)
      ensures res.Block? ==> (used <==> Status(db.maps[res.n / BLKS_PER_LMAP].m, res.n % BLKS_PER_LMAP) == BLK_RECYCLED)
      ensures !res.Block? ==> cw == old(cw)
      ensures res == MustExtend ==> old(AllFull()) && old(NoneLeft())
      ensures res == MapReadFail ==> CannotRead(db, old(master))
      ensures old(Sound()) ==>
        Sound() && res != Astray && (res.Block? ==> !Taken(old(cw), 0, res.n) && First(cwWork) <= |old(cw)|)
      ensures old(Immediate(hint0)) ==> old(FirstTaken(hint0, res)) && master == old(master)
      ensures old(Immediate(hint0)) && res.Block? ==> |cw| == |old(cw)| + 1
    {
      ghost var m0, full := master, FullMaps(db, cw, First(cwWork));
      var depth, k, freeBit;
      FullLeavesNone();
      res, used, depth, k, freeBit := Seek(hint0, nowCrit, full);
      SafeCleared(db, cw, cwWork, tp, m0, master, full);
      SoughtBlock(res, used, depth, k, freeBit);
      if res == Astray {
        AstrayExposes();
      }
      if res.Block? {
        assert res.n == k * BLKS_PER_LMAP + freeBit;
        Record(k, depth, freeBit, used);
      }
    }

    /** The bit goes into the element of its map, a new one if there is none. */
    method Record(k: nat, depth: nat, freeBit: nat, ghost used: bool)
      requires Searchable() && Takeable(db, k, freeBit) && MapBit(master, k) && AtDepth(k, depth)
      requires depth < |cw| + 1 && NextBit(k, depth, freeBit, used)
      modifies this`cw
      ensures Recorded(db, old(cw), cw, First(cwWork), k, freeBit)
      ensures old(Sound()) ==>
        Sound() && !Taken(old(cw), 0, k * BLKS_PER_LMAP + freeBit) && First(cwWork) <= |old(cw)|
      ensures depth == 0 ==> LeastOf(db, k, k * BLKS_PER_LMAP + freeBit)
      ensures depth == 0 ==> cw == old(cw) + [CwElement(k * BLKS_PER_LMAP, [freeBit], db.maps[k].m)]
    {
      RecordedWith(k, depth, freeBit);
      if Sound() {
        AfterRecord(k, depth, freeBit, used);
      }
      if depth == 0 {
        FirstIsLeast(k, freeBit, used);
      }
      if depth > 0 {
        cw := cw[depth := cw[depth].(upd := cw[depth].upd + [freeBit])];
      } else {
        cw := cw + [CwElement(k * BLKS_PER_LMAP, [freeBit], db.maps[k].m)];
      }
    }

    /** The write set once the block is recorded. */
    ghost function WithBlock(k: nat, depth: nat, freeBit: nat): seq<CwElement> reads this
      requires WellFormed(db) && k < LocalMaps(db.total) && db.maps[k].Local? && depth < |cw| + 1
    {
      if depth > 0 && depth < |cw| then cw[depth := cw[depth].(upd := cw[depth].upd + [freeBit])]
      else cw + [CwElement(k * BLKS_PER_LMAP, [freeBit], db.maps[k].m)]
    }

    /** A block found in a sound state is new, its map was not full, and the state stays sound. */
    lemma AfterRecord(k: nat, depth: nat, freeBit: nat, used: bool)
      requires Sound() && Takeable(db, k, freeBit) && MapBit(master, k) && AtDepth(k, depth)
      requires depth < |cw| + 1 && NextBit(k, depth, freeBit, used)
      ensures !Taken(cw, 0, k * BLKS_PER_LMAP + freeBit)
      ensures Elements(db, WithBlock(k, depth, freeBit), First(cwWork))
      ensures Safe(db, WithBlock(k, depth, freeBit), cwWork, tp, master)
      ensures First(cwWork) <= |cw|
    {
      NotTaken(k, depth, freeBit, used);
      var cw' := WithBlock(k, depth, freeBit);
      RecordedWith(k, depth, freeBit);
      SafeRecorded(db, cw, cw', cwWork, tp, master, k, freeBit);
      ElementsKept(k, depth, freeBit, used, cw');
    }

    /** A map that leads the search astray is exposed. */
    lemma AstrayExposes()
      requires Searchable()
      requires exists b: nat :: b < LocalMaps(db.total) && MapBit(master, b) && AllAstray(b * BLKS_PER_LMAP)
      ensures !Safe(db, cw, cwWork, tp, master)
    {
      var b: nat :| b < LocalMaps(db.total) && MapBit(master, b) && AllAstray(b * BLKS_PER_LMAP);
      assert Exposes(db, cw, cwWork, tp, master, b);
    }

    /** What the first round comes to from `hint`. */
    ghost predicate FirstTaken(hint: nat, res: Outcome) reads this
      requires WellFormed(db)
    {
      var k := hint / BLKS_PER_LMAP;
      if AllAstray(k * BLKS_PER_LMAP) then res == Astray else res.Block? && LeastOf(db, k, res.n)
    }

    /** Any run of searches from a sound state: the blocks given out are new, pairwise distinct, and all there is
        new in the write set; once a search has asked to extend, no map has a block left and none is given out. */
    method GetMany(hints: seq<nat>, nowCrit: bool) returns (outs: seq<Outcome>)
      requires Sound()
      modifies this
      ensures Sound() && |outs| == |hints| && Cleared(old(master), master, FullMaps(db, cw, First(cwWork)))
      ensures forall i :: 0 <= i < |outs| ==> outs[i] != Astray && outs[i] != Exhausted
      ensures Given(db, old(cw), cw, outs) && (MapReadFail in outs ==> CannotRead(db, old(master)))
      ensures forall i :: 0 <= i < |outs| && outs[i] == MustExtend ==>
        AllFull() && NoneLeft() && forall j :: i < j < |outs| ==> !outs[j].Block?
    {
      outs := [];
      while |outs| < |hints|
        invariant Sound() && |outs| <= |hints| && Cleared(old(master), master, FullMaps(db, cw, First(cwWork)))
        invariant forall i :: 0 <= i < |outs| ==> outs[i] != Astray && outs[i] != Exhausted
        invariant Given(db, old(cw), cw, outs) && (MapReadFail in outs ==> CannotRead(db, old(master)))
        invariant forall i :: 0 <= i < |outs| && outs[i] == MustExtend ==>
          AllFull() && forall j :: i < j < |outs| ==> !outs[j].Block?
      {
        var res := GetNext(hints[|outs|], nowCrit, old(cw), old(master), outs);
        outs := outs + [res];
      }
      FullLeavesNone();
    }

    /** One more search of a run that began with `cw0` and `m0`. */
    method GetNext(hint: nat, nowCrit: bool, ghost cw0: seq<CwElement>, ghost m0: seq<bv8>, ghost outs: seq<Outcome>)
      returns (res: Outcome)
      requires Sound() && Given(db, cw0, cw, outs) && Cleared(m0, master, FullMaps(db, cw, First(cwWork)))
      modifies this
      ensures Sound() && Given(db, cw0, cw, outs + [res]) && Cleared(m0, master, FullMaps(db, cw, First(cwWork)))
      ensures res != Astray && res != Exhausted && (res == MustExtend ==> AllFull())
      ensures res == MapReadFail ==> CannotRead(db, m0)
      ensures (old(AllFull()) ==> AllFull() && !res.Block?)
    {
      ghost var cw1, m1 := cw, master;
      var used;
      res, used := GetFree(hint, nowCrit);
      if res.Block? {
        NewNotFull(db, cw1, First(cwWork), res.n / BLKS_PER_LMAP, res.n % BLKS_PER_LMAP);
      }
      GivenMore(db, cw0, cw1, cw, First(cwWork), outs, res);
      FullGrows(db, m0, m1, master, cw1, cw, First(cwWork), res);
    }

    /** An element below where it can be found is the only one of its map. */
    lemma RecordedBelow(k: nat, d: nat)
      requires Searchable() && Recording(db, cw) && d < |cw| && d < First(cwWork) && Records(cw[d], k)
      ensures NoElement(k * BLKS_PER_LMAP) && Takeable(db, k, cw[d].upd[0])
    {
      BlockParts(k, 0);
      assert MapElement(db, cw[d], k);
      forall c | First(cwWork) <= c < |cw| ensures cw[c].blk != k * BLKS_PER_LMAP {
        assert ProperElement(db, cw[c]);
        assert !Records(cw[c], k);
      }
    }

    /** The first round from an exposed map meets nothing in its way. */
    lemma ExposedImmediate(k: nat)
      requires Searchable() && Recording(db, cw) && Exposes(db, cw, cwWork, tp, master, k)
      ensures Immediate(k * BLKS_PER_LMAP)
    {
      BlockParts(k, 0);
      MapSizeBounds(db.total, k);
      ExposedUnfound(k);
    }

    /** Of an exposed map the search finds no element, and no bound. */
    lemma ExposedUnfound(k: nat)
      requires Searchable() && Recording(db, cw) && Exposes(db, cw, cwWork, tp, master, k)
      ensures AllAstray(k * BLKS_PER_LMAP) || (AtDepth(k, 0) && exists bit :: Takeable(db, k, bit))
    {
      if d :| 0 <= d < |cw| && d < First(cwWork) && Records(cw[d], k) {
        RecordedBelow(k, d);
      }
    }

    /** The least block to take of a map is among those in its element. */
    lemma LeastTaken(before: seq<CwElement>, k: nat, n: nat)
      requires WellFormed(db) && LeastOf(db, k, n) && exists d :: 0 <= d < |before| && MapElement(db, before[d], k)
      ensures Taken(before, 0, n)
    {
      var d :| 0 <= d < |before| && MapElement(db, before[d], k);
      assert Takeable(db, k, before[d].upd[|before[d].upd| - 1]);
      assert TakenAt(before[d], n);
    }

    /** Where map `k` is exposed, one search goes astray or gives out a recorded block, or else a second one gives
        out the block of the first. `before` is the write set before the search that goes wrong. */
    method GoesWrong(k: nat) returns (wrong: Outcome, ghost before: seq<CwElement>)
      requires Searchable() && Recording(db, cw) && Exposes(db, cw, cwWork, tp, master, k)
      modifies this
      ensures wrong == Astray || (wrong.Block? && Taken(before, 0, wrong.n))
      ensures before == old(cw) ||
        (wrong.Block? && db.maps[k].Local? &&
         before == old(cw) + [CwElement(k * BLKS_PER_LMAP, [wrong.n % BLKS_PER_LMAP], db.maps[k].m)])
    {
      ExposedImmediate(k);
      BlockParts(k, 0);
      before := cw;
      var recorded := exists d :: 0 <= d < |cw| && Records(cw[d], k);
      assert recorded ==> exists d :: 0 <= d < |cw| && MapElement(db, cw[d], k);
      var used;
      wrong, used := GetFree(k * BLKS_PER_LMAP, false);
      if wrong.Block? {
        if recorded {
          LeastTaken(before, k, wrong.n);
        } else {
          SecondImmediate(k, wrong.n, before);
          before := cw;
          wrong, used := GetFree(k * BLKS_PER_LMAP, false);
        }
      }
    }

    /** After the first search that starts at index 0, where the element of the map will not be found, the
        second goes the same way. */
    lemma SecondImmediate(k: nat, n: nat, cw0: seq<CwElement>)
      requires WellFormed(db) && LocalMaps(db.total) + 2 <= 8 * |master| && cwWork == 0 && tp && LeastOf(db, k, n)
      requires MapBit(master, k) && Elements(db, cw0, 1) && (cw0 == [] || cw0[0].blk == k * BLKS_PER_LMAP)
      requires forall d :: 0 <= d < |cw0| ==> !Records(cw0[d], k)
      requires cw == cw0 + [CwElement(k * BLKS_PER_LMAP, [n % BLKS_PER_LMAP], db.maps[k].m)]
      ensures Searchable() && Immediate(k * BLKS_PER_LMAP) && !AllAstray(k * BLKS_PER_LMAP)
      ensures forall m: nat :: LeastOf(db, k, m) ==> m == n && Taken(cw, 0, m)
    {
      BlockParts(k, 0);
      MapSizeBounds(db.total, k);
      if cw0 != [] {
        forall d | 1 <= d < |cw0| ensures cw0[d].blk != k * BLKS_PER_LMAP {
          assert ProperElement(db, cw0[d]);
        }
        TookFirst(db, cw0, 1, k, n % BLKS_PER_LMAP);
      }
      assert cw[0].blk == k * BLKS_PER_LMAP;
      forall m: nat | LeastOf(db, k, m) ensures m == n && Taken(cw, 0, m) {
        assert TakenAt(cw[|cw0|], n);
      }
    }
  }

  /** Where the search stands: how many rounds it may still need. `m` is the map of the hint, of `maps` maps. */
  ghost predicate Rounds(lcnt: int, hintCycled: int, hintLimit: int, m: int, maps: nat) {
    || (hintCycled == maps && 0 <= hintLimit < maps && hintLimit <= m < maps && lcnt >= (maps - m) + hintLimit + 3)
    || (hintCycled == hintLimit && 0 <= hintLimit < maps && 0 <= m < maps &&
        lcnt >= (if m < hintLimit then hintLimit - m else 0) + 2)
    || (hintCycled == 0 && 0 <= hintLimit && 0 <= m && lcnt >= 1)
  }

  /** What the search has seen: the maps from its first one on, then those before it too. */
  ghost predicate Covered(master: seq<bv8>, full: set<nat>, hintCycled: int, hintLimit: int, m: int, maps: nat)
    requires maps <= 8 * |master|
  {
    if hintCycled == 0 then Done(master, full, 0, maps)
    else if hintCycled == maps then m <= maps && Done(master, full, hintLimit, m)
    else m <= maps && Done(master, full, hintLimit, maps) && Done(master, full, 0, m)
  }

  /** The count of rounds after one that wraps, or does not. */
  function NextCycled(hintCycled: int, hintLimit: int): int {
    if hintLimit < hintCycled then hintLimit else 0
  }

  function CycledAfter(hintCycled: int, hintLimit: int, m: int, k: nat, maps: nat): int {
    var hc := if k < m && hintCycled != 0 then NextCycled(hintCycled, hintLimit) else hintCycled;
    if k + 1 < maps || hc == 0 then hc else NextCycled(hc, hintLimit)
  }

  /** Where the search of the master map starts. */
  function SearchFrom(m: nat, maps: nat): nat { if m >= maps + 2 then 0 else m }

  /** A round that ends with the map after `k`, or back at the start. */
  lemma RoundDone(lcnt: int, hintCycled: int, hintLimit: int, m: int, maps: nat, k: nat)
    requires Rounds(lcnt, hintCycled, hintLimit, m, maps) && k < hintCycled
    ensures Rounds(lcnt - 1, CycledAfter(hintCycled, hintLimit, m, k, maps), hintLimit,
                   if k + 1 < maps then k + 1 else 0, maps)
  {
  }

  /** The search meets a set bit past the last map, and starts again from the first map. */
  lemma PassedEnd(master: seq<bv8>, full: set<nat>, lcnt: int, hintCycled: int, hintLimit: int, m: nat, maps: nat,
                  bml: int)
    requires maps + 2 <= 8 * |master| && Rounds(lcnt, hintCycled, hintLimit, m, maps)
    requires Covered(master, full, hintCycled, hintLimit, m, maps)
    requires FirstSetWrapped(master, SearchFrom(m, maps), maps + 2, bml)
    requires bml != NO_FREE_SPACE && bml >= hintCycled && hintLimit < hintCycled
    ensures Covered(master, full, hintLimit, hintLimit, 0, maps)
  {
  }

  /** The search has no map left to look at: those that are marked are full. */
  lemma PassedAll(master: seq<bv8>, full: set<nat>, lcnt: int, hintCycled: int, hintLimit: int, m: nat, maps: nat,
                  bml: int)
    requires maps + 2 <= 8 * |master| && Rounds(lcnt, hintCycled, hintLimit, m, maps)
    requires Covered(master, full, hintCycled, hintLimit, m, maps)
    requires FirstSetWrapped(master, SearchFrom(m, maps), maps + 2, bml)
    requires bml == NO_FREE_SPACE || (bml >= hintCycled && hintLimit >= hintCycled)
    ensures Done(master, full, 0, maps)
  {
  }

  /** The search passes a full map. */
  lemma PassedMap(master: seq<bv8>, full: set<nat>, lcnt: int, hintCycled: int, hintLimit: int, m: nat, maps: nat,
                  k: nat)
    requires maps + 2 <= 8 * |master| && Rounds(lcnt, hintCycled, hintLimit, m, maps)
    requires Covered(master, full, hintCycled, hintLimit, m, maps)
    requires FirstSetWrapped(master, SearchFrom(m, maps), maps + 2, k) && k < hintCycled && k in full
    ensures Covered(master, full, CycledAfter(hintCycled, hintLimit, m, k, maps), hintLimit,
                    if k + 1 < maps then k + 1 else 0, maps)
  {
  }

  /** Clearing bits of full maps undoes nothing. */
  lemma CoveredCleared(master: seq<bv8>, master': seq<bv8>, full: set<nat>, hintCycled: int, hintLimit: int, m: int,
                       maps: nat)
    requires maps <= 8 * |master| && Covered(master, full, hintCycled, hintLimit, m, maps)
    requires Cleared(master, master', full)
    ensures Covered(master', full, hintCycled, hintLimit, m, maps)
  {
  }

  lemma ClearedTwice(a: seq<bv8>, b: seq<bv8>, c: seq<bv8>, full: set<nat>)
    requires Cleared(a, b, full) && Cleared(b, c, full)
    ensures Cleared(a, c, full)
  {
  }

  /** Past a map with nothing to take: on to the next one, or back to the start. */
  method NextHint(hint: nat, hintCycled: int, hintLimit: int, k: nat, total: nat, ghost lcnt: int)
    returns (hint': int, hintCycled': int)
    requires Rounds(lcnt, hintCycled, hintLimit, hint / BLKS_PER_LMAP, LocalMaps(total)) && k < hintCycled
    ensures hint' >= 0 && Rounds(lcnt - 1, hintCycled', hintLimit, hint' / BLKS_PER_LMAP, LocalMaps(total))
    ensures hint' / BLKS_PER_LMAP == if k + 1 < LocalMaps(total) then k + 1 else 0
    ensures hintCycled' == CycledAfter(hintCycled, hintLimit, hint / BLKS_PER_LMAP, k, LocalMaps(total))
  {
    var m := hint / BLKS_PER_LMAP;
    RoundDone(lcnt, hintCycled, hintLimit, m, LocalMaps(total), k);
    hintCycled' := hintCycled;
    if m != k && k * BLKS_PER_LMAP < hint && hintCycled != 0 {
      hintCycled' := if hintLimit < hintCycled then hintLimit else 0;
    }
    hint' := (k + 1) * BLKS_PER_LMAP;
    if hint' >= total {
      hint' := 1;
      if hintCycled' != 0 {
        hintCycled' := if hintLimit < hintCycled' then hintLimit else 0;
      }
    }
  }
}
