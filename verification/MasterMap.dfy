/** Bit searches in the master map (sr_port/gtm_ffs.c, sr_port/bmm_find_free.c) and the recount of free
    blocks in sr_port/bm_getfree.c. */
module MasterMap {
  import opened Bitmap
  import opened BitmapSearch

  const MAX_FFS_SIZE: nat := 32

  /** The least set bit from `lo` up to `hi`, or none. */
  predicate FirstSet(a: seq<bv8>, lo: nat, hi: nat, r: int)
    requires hi <= 8 * |a|
  {
    if r == NO_FREE_SPACE then forall i :: lo <= i < hi ==> !MapBit(a, i)
    else lo <= r < hi && MapBit(a, r) && forall i :: lo <= i < r ==> !MapBit(a, i)
  }

  /** gtm_ffs: a partial byte, whole bytes, a partial byte. */
  method GtmFfs(offset: nat, a: seq<bv8>, size: nat) returns (r: int)
    requires offset + size <= 8 * |a|
    ensures FirstSet(a, offset, offset + size, r)
  {
    var end := offset + size;
    r := FfsHead(offset, a, size);
    if r != NO_FREE_SPACE {
      return;
    }
    var n;
    r, n := FfsBytes(offset, a, end, (offset + 7) / 8 * 8);
    if r != NO_FREE_SPACE {
      return;
    }
    while n < end
      invariant offset <= n && (n < end ==> n / 8 == end / 8)
      invariant forall k :: offset <= k < end && k < n ==> !MapBit(a, k)
    {
      if Bit(a[n / 8], n % 8) {
        return n;
      }
      n := n + 1;
    }
    return NO_FREE_SPACE;
  }

  /** Up to the first byte boundary. */
  method FfsHead(offset: nat, a: seq<bv8>, size: nat) returns (r: int)
    requires offset + size <= 8 * |a|
    ensures r != NO_FREE_SPACE ==> FirstSet(a, offset, offset + size, r)
    ensures r == NO_FREE_SPACE ==> forall k :: offset <= k < offset + size && k < (offset + 7) / 8 * 8 ==> !MapBit(a, k)
  {
    var i := offset % 8;
    if i != 0 {
      var j := 0;
      while i < 8 && j < size
        invariant i == offset % 8 + j && i <= 8 && j <= size
        invariant forall n :: offset <= n < offset + j ==> !MapBit(a, n)
      {
        assert (offset + j) / 8 == offset / 8 && (offset + j) % 8 == i;
        if Bit(a[offset / 8], i) {
          return offset + j;
        }
        i, j := i + 1, j + 1;
      }
    }
    return NO_FREE_SPACE;
  }

  /** From the boundary `start`, whole bytes. */
  method FfsBytes(offset: nat, a: seq<bv8>, end: nat, start: nat) returns (r: int, n: nat)
    requires offset <= end <= 8 * |a| && offset <= start < offset + 8 && start % 8 == 0
    requires forall k :: offset <= k < end && k < start ==> !MapBit(a, k)
    ensures r != NO_FREE_SPACE ==> FirstSet(a, offset, end, r)
    ensures r == NO_FREE_SPACE ==> offset <= n && (n < end ==> n / 8 == end / 8)
    ensures r == NO_FREE_SPACE ==> forall k :: offset <= k < end && k < n ==> !MapBit(a, k)
  {
    n := start;
    var top := end / 8 * 8;
    while n < top
      invariant n % 8 == 0 && offset <= n
      invariant forall k :: offset <= k < end && k < n ==> !MapBit(a, k)
    {
      if a[n / 8] != 0 {
        r := FirstInByte(a, offset, end, n);
        return;
      }
      ByteZero(a, n);
      n := n + 8;
    }
    return NO_FREE_SPACE, n;
  }

  lemma ByteZero(a: seq<bv8>, n: nat)
    requires n % 8 == 0 && n / 8 < |a| && a[n / 8] == 0
    ensures forall k :: n <= k < n + 8 ==> !MapBit(a, k)
  {
    forall k | n <= k < n + 8 ensures !MapBit(a, k) {
      assert k / 8 == n / 8;
      var mask := BitMask(k % 8);
      assert 0 & mask == 0;
    }
  }

  method FirstInByte(a: seq<bv8>, offset: nat, end: nat, n: nat) returns (r: int)
    requires offset <= n && n % 8 == 0 && n + 8 <= end <= 8 * |a| && a[n / 8] != 0
    requires forall k :: offset <= k < n ==> !MapBit(a, k)
    ensures FirstSet(a, offset, end, r) && r != NO_FREE_SPACE
  {
    var j := 0;
    while j < 8
      invariant j <= 8
      invariant forall k :: offset <= k < n + j ==> !MapBit(a, k)
    {
      assert (n + j) / 8 == n / 8 && (n + j) % 8 == j;
      if Bit(a[n / 8], j) {
        return n + j;
      }
      j := j + 1;
    }
    SomeBit(a, n);
    assert false;
    return NO_FREE_SPACE;
  }

  lemma SomeBit(a: seq<bv8>, n: nat)
    requires n % 8 == 0 && n / 8 < |a| && a[n / 8] != 0
    ensures exists k :: n <= k < n + 8 && MapBit(a, k)
  {
    var b := a[n / 8];
    assert Bit(b, 0) || Bit(b, 1) || Bit(b, 2) || Bit(b, 3) || Bit(b, 4) || Bit(b, 5) || Bit(b, 6) || Bit(b, 7);
    var j :| 0 <= j < 8 && Bit(b, j);
    assert MapBit(a, n + j);
  }

  /** The search that wraps. */
  predicate FirstSetWrapped(a: seq<bv8>, hint: nat, total: nat, r: int)
    requires hint <= total <= 8 * |a|
  {
    (FirstSet(a, hint, total, r) && r != NO_FREE_SPACE) ||
      (FirstSet(a, hint, total, NO_FREE_SPACE) && FirstSet(a, 0, hint, r))
  }

  /** bmm_find_free: one or two passes, in chunks that end on multiples of 32. */
  method BmmFindFree(hint0: nat, a: seq<bv8>, total: nat) returns (r: int)
    requires total <= 8 * |a|
    ensures FirstSetWrapped(a, if hint0 >= total then 0 else hint0, total, r)
  {
    var hint := if hint0 >= total then 0 else hint0;
    var hint1 := hint;
    var start, top := hint, total;
    while top > 0
      invariant 0 <= hint <= top <= total && hint1 <= total
      invariant (top == total && hint == hint1 == start) ||
        (start == 0 && hint == 0 && top == hint1 && FirstSet(a, hint1, total, NO_FREE_SPACE))
        || (top == 0 && FirstSet(a, hint1, total, NO_FREE_SPACE) && FirstSet(a, 0, hint1, NO_FREE_SPACE))
      decreases top + hint
    {
      r := FindInPass(a, start, top);
      if r != NO_FREE_SPACE {
        return;
      }
      start, top, hint := 0, hint, 0;
    }
    return NO_FREE_SPACE;
  }

  method FindInPass(a: seq<bv8>, start0: nat, top: nat) returns (r: int)
    requires start0 <= top <= 8 * |a|
    ensures FirstSet(a, start0, top, r)
  {
    var start := start0;
    var chunk := start / MAX_FFS_SIZE * MAX_FFS_SIZE + MAX_FFS_SIZE;
    var width := (if top < chunk then top else chunk) - start;
    while width > 0
      invariant start0 <= start && 0 <= width && start + width <= top && (width == 0 ==> start == top)
      invariant FirstSet(a, start0, start, NO_FREE_SPACE)
      decreases top - start
    {
      r := GtmFfs(start, a, width);
      if r != NO_FREE_SPACE {
        return;
      }
      start := start + width;
      width := if top - start < MAX_FFS_SIZE then top - start else MAX_FFS_SIZE;
    }
    return NO_FREE_SPACE;
  }

  // The recount of free blocks.

  datatype MapRead = Unreadable | Local(m: seq<bv8>)

  /** A database: how many blocks, the master map, and what reading each local map gives. */
  datatype Database = Database(total: nat, master: seq<bv8>, maps: seq<MapRead>)

  function LocalMaps(total: nat): nat { (total + BLKS_PER_LMAP - 1) / BLKS_PER_LMAP }

  /** How many blocks local map `k` describes. */
  function MapSize(total: nat, k: nat): nat
    requires k < LocalMaps(total)
  {
    if k != LocalMaps(total) - 1 then BLKS_PER_LMAP else total - k * BLKS_PER_LMAP
  }

  lemma MapSizeBounds(total: nat, k: nat)
    requires k < LocalMaps(total)
    ensures 0 < MapSize(total, k) <= BLKS_PER_LMAP && k * BLKS_PER_LMAP + MapSize(total, k) <= total
  {
  }

  /** The places in the local maps are those of the blocks there are. */
  lemma MapSizes(total: nat, n: nat)
    ensures n < total <==> n / BLKS_PER_LMAP < LocalMaps(total) && n % BLKS_PER_LMAP < MapSize(total, n / BLKS_PER_LMAP)
  {
  }

  /** No invalid pattern among the first `n` blocks. */
  ghost predicate ValidMap(m: seq<bv8>, n: nat)
    requires n <= 4 * |m|
  {
    forall i :: 0 <= i < n ==> Status(m, i) != BLK_MAPINVALID
  }

  /** Every map there is can be read whole or not at all, and has no invalid pattern. */
  ghost predicate WellFormed(db: Database) {
    && LocalMaps(db.total) <= |db.maps| && LocalMaps(db.total) <= 8 * |db.master|
    && forall k :: 0 <= k < LocalMaps(db.total) && db.maps[k].Local? ==> WellFormedMap(db, k)
  }

  ghost predicate WellFormedMap(db: Database, k: nat)
    requires k < LocalMaps(db.total) && k < |db.maps| && db.maps[k].Local?
  {
    4 * |db.maps[k].m| == BLKS_PER_LMAP && MapSize(db.total, k) <= BLKS_PER_LMAP &&
      ValidMap(db.maps[k].m, MapSize(db.total, k))
  }

  /** The map of block `n` can be read whole and does not have the invalid pattern for it, or cannot be read. */
  ghost predicate BlockFormed(db: Database, n: nat) {
    n / BLKS_PER_LMAP < |db.maps| && n / BLKS_PER_LMAP < 8 * |db.master| && match db.maps[n / BLKS_PER_LMAP]
      case Unreadable => true
      case Local(m) => 4 * |m| == BLKS_PER_LMAP && Status(m, n % BLKS_PER_LMAP) != BLK_MAPINVALID
  }

  /** What is demanded of the maps, by block numbers. */
  lemma FormedByBlock(db: Database)
    ensures WellFormed(db) <==> forall n: nat :: n < db.total ==> BlockFormed(db, n)
  {
    if forall n: nat :: n < db.total ==> BlockFormed(db, n) {
      forall k: nat | k < LocalMaps(db.total) ensures MapFormed(db, k) {
        BlocksForm(db, k);
      }
      AllMapsFormed(db);
    }
    forall n: nat | WellFormed(db) && n < db.total ensures BlockFormed(db, n) {
      MapSizes(db.total, n);
    }
  }

  ghost predicate MapFormed(db: Database, k: nat)
    requires k < LocalMaps(db.total)
  {
    k < |db.maps| && k < 8 * |db.master| && (db.maps[k].Local? ==> WellFormedMap(db, k))
  }

  lemma BlocksForm(db: Database, k: nat)
    requires k < LocalMaps(db.total) && forall n: nat :: n < db.total ==> BlockFormed(db, n)
    ensures MapFormed(db, k)
  {
    MapSizeBounds(db.total, k);
    assert BlockFormed(db, k * BLKS_PER_LMAP);
    if db.maps[k].Local? {
      forall i | 0 <= i < MapSize(db.total, k) ensures Status(db.maps[k].m, i) != BLK_MAPINVALID {
        assert BlockFormed(db, k * BLKS_PER_LMAP + i);
        assert (k * BLKS_PER_LMAP + i) / BLKS_PER_LMAP == k;
      }
    }
  }

  lemma AllMapsFormed(db: Database)
    requires forall k: nat :: k < LocalMaps(db.total) ==> MapFormed(db, k)
    ensures WellFormed(db)
  {
    if LocalMaps(db.total) > 0 {
      var last: nat := LocalMaps(db.total) - 1;
      assert MapFormed(db, last);
    }
    forall k | 0 <= k < LocalMaps(db.total) && k < |db.maps| && db.maps[k].Local? ensures WellFormedMap(db, k) {
      assert MapFormed(db, k);
    }
  }

  /** Block `n` is free or recycled in a local map that can be read. */
  ghost predicate AvailableBlock(db: Database, n: nat) {
    n < db.total && n / BLKS_PER_LMAP < |db.maps| && match db.maps[n / BLKS_PER_LMAP]
      case Unreadable => false
      case Local(m) => n % BLKS_PER_LMAP < 4 * |m| && Avail(Status(m, n % BLKS_PER_LMAP))
  }

  /** The master map says that the map of block `n` has available blocks. */
  ghost predicate Marked(master: seq<bv8>, n: nat) {
    n / BLKS_PER_LMAP < 8 * |master| && MapBit(master, n / BLKS_PER_LMAP)
  }

  /** The blocks the recount finds. */
  ghost function FreeBlocks(db: Database): (s: set<nat>) {
    set n: nat | n < db.total && AvailableBlock(db, n) && Marked(db.master, n)
  }

  ghost function Below(p: nat -> bool, top: nat): (s: set<nat>) {
    set n: nat | n < top && p(n)
  }

  lemma BelowMore(p: nat -> bool, n: nat)
    ensures |Below(p, n + 1)| == |Below(p, n)| + if p(n) then 1 else 0
  {
    assert Below(p, n + 1) == Below(p, n) + if p(n) then {n} else {};
  }

  /** A stretch of blocks that are counted where they are available in `m`. */
  lemma {:induction false} StretchCounted(p: nat -> bool, m: seq<bv8>, base: nat, i: nat)
    requires i <= 4 * |m| && forall j: nat :: j < i ==> At(p, base, j) == Avail(Status(m, j))
    ensures |Below(p, base + i)| == |Below(p, base)| + AvailCount(m, i)
    decreases i
  {
    if i > 0 {
      StretchCounted(p, m, base, i - 1);
      assert At(p, base, i - 1) == Avail(Status(m, i - 1));
      BelowMore(p, base + (i - 1));
    }
  }

  /** Whether block `base + j` is counted. */
  ghost predicate At(p: nat -> bool, base: nat, j: nat) { p(base + j) }

  lemma {:induction false} StretchSkipped(p: nat -> bool, base: nat, i: nat)
    requires forall j: nat :: j < i ==> !At(p, base, j)
    ensures |Below(p, base + i)| == |Below(p, base)|
    decreases i
  {
    if i > 0 {
      StretchSkipped(p, base, i - 1);
      assert !At(p, base, i - 1);
      BelowMore(p, base + (i - 1));
    }
  }

  ghost function Counted(db: Database): nat -> bool {
    (n: nat) => AvailableBlock(db, n) && Marked(db.master, n)
  }

  /** The blocks of one map. */
  lemma CountedIn(db: Database, k: nat, i: nat)
    requires k < |db.maps| && k < 8 * |db.master| && i < BLKS_PER_LMAP && k * BLKS_PER_LMAP + i < db.total
    requires db.maps[k].Local? ==> 4 * |db.maps[k].m| == BLKS_PER_LMAP
    ensures Counted(db)(k * BLKS_PER_LMAP + i) <==>
      MapBit(db.master, k) && db.maps[k].Local? && Avail(Status(db.maps[k].m, i))
  {
    assert (k * BLKS_PER_LMAP + i) / BLKS_PER_LMAP == k && (k * BLKS_PER_LMAP + i) % BLKS_PER_LMAP == i;
  }

  lemma MapCounted(db: Database, k: nat, base: nat, size: nat, p: nat -> bool)
    requires WellFormed(db) && k < LocalMaps(db.total)
    requires base == k * BLKS_PER_LMAP && size == MapSize(db.total, k) && p == Counted(db)
    ensures |Below(p, base + size)| == |Below(p, base)| + MapCount(db, k)
  {
    MapSizeBounds(db.total, k);
    var has := MapBit(db.master, k) && db.maps[k].Local?;
    assert has ==> WellFormedMap(db, k);
    forall i: nat | i < size ensures At(p, base, i) == (has && Avail(Status(db.maps[k].m, i))) {
      CountedIn(db, k, i);
    }
    CountStretch(db, k, base, size, p, has);
  }

  lemma CountStretch(db: Database, k: nat, base: nat, size: nat, p: nat -> bool, has: bool)
    requires WellFormed(db) && k < LocalMaps(db.total) && size == MapSize(db.total, k)
    requires has == (MapBit(db.master, k) && db.maps[k].Local?) && (has ==> size <= 4 * |db.maps[k].m|)
    requires forall i: nat :: i < size ==> At(p, base, i) == (has && Avail(Status(db.maps[k].m, i)))
    ensures |Below(p, base + size)| == |Below(p, base)| + MapCount(db, k)
  {
    if has {
      StretchCounted(p, db.maps[k].m, base, size);
    } else {
      StretchSkipped(p, base, size);
    }
  }

  /** The blocks of map `k` come to those before it. */
  ghost predicate Adds(db: Database, p: nat -> bool, k: nat)
    requires WellFormed(db) && k < LocalMaps(db.total)
  {
    |Below(p, Start(db, k + 1))| == |Below(p, Start(db, k))| + MapCount(db, k)
  }

  lemma {:induction false} AddedUp(db: Database, k: nat, p: nat -> bool)
    requires WellFormed(db) && k <= LocalMaps(db.total) && forall j: nat :: j < k ==> Adds(db, p, j)
    ensures TotalCount(db, k) == |Below(p, Start(db, k))|
  {
    if k == 0 {
      assert Below(p, 0) == {};
    } else {
      AddedUp(db, k - 1, p);
      assert Adds(db, p, k - 1);
    }
  }

  lemma StartNext(db: Database, k: nat)
    requires k < LocalMaps(db.total)
    ensures Start(db, k + 1) == Start(db, k) + MapSize(db.total, k) && Start(db, k) == k * BLKS_PER_LMAP
  {
  }

  /** The first block of map `k`, or where the blocks end. */
  ghost function Start(db: Database, k: nat): nat {
    if k < LocalMaps(db.total) then k * BLKS_PER_LMAP else db.total
  }

  /** The count by maps is the number of the blocks. */
  lemma TotalBlocks(db: Database)
    requires WellFormed(db)
    ensures TotalCount(db, LocalMaps(db.total)) == |FreeBlocks(db)|
  {
    var p := Counted(db);
    forall k: nat | k < LocalMaps(db.total) ensures Adds(db, p, k) {
      StartNext(db, k);
      MapCounted(db, k, Start(db, k), MapSize(db.total, k), p);
    }
    AddedUp(db, LocalMaps(db.total), p);
    assert FreeBlocks(db) == Below(p, db.total);
  }

  ghost function AvailCount(m: seq<bv8>, n: nat): (c: nat)
    requires n <= 4 * |m|
  {
    if n == 0 then 0 else AvailCount(m, n - 1) + if Avail(Status(m, n - 1)) then 1 else 0
  }

  /** The available blocks of map `k`, if the master map says it has any and it can be read. */
  ghost function MapCount(db: Database, k: nat): nat
    requires WellFormed(db) && k < LocalMaps(db.total)
  {
    if MapBit(db.master, k) && db.maps[k].Local? then
      assert WellFormedMap(db, k);
      AvailCount(db.maps[k].m, MapSize(db.total, k))
    else 0
  }

  ghost function TotalCount(db: Database, n: nat): nat
    requires WellFormed(db) && n <= LocalMaps(db.total)
  {
    if n == 0 then 0 else TotalCount(db, n - 1) + MapCount(db, n - 1)
  }

  lemma {:induction false} NoneCounted(m: seq<bv8>, lo: nat, hi: nat)
    requires lo <= hi <= 4 * |m| && NoneAvail(m, lo, hi)
    ensures AvailCount(m, hi) == AvailCount(m, lo)
    decreases hi
  {
    if lo < hi {
      NoneCounted(m, lo, hi - 1);
    }
  }

  lemma {:induction false} UnmarkedCounted(db: Database, lo: nat, hi: nat)
    requires WellFormed(db) && lo <= hi <= LocalMaps(db.total) && forall k :: lo <= k < hi ==> !MapBit(db.master, k)
    ensures TotalCount(db, hi) == TotalCount(db, lo)
    decreases hi
  {
    if lo < hi {
      UnmarkedCounted(db, lo, hi - 1);
    }
  }

  /** The inner loop: one map. */
  method CountMap(m: seq<bv8>, n: nat) returns (c: nat)
    requires n <= 4 * |m| && ValidMap(m, n)
    ensures c == AvailCount(m, n)
  {
    c := 0;
    var freeBit := 0;
    while freeBit < n
      invariant 0 <= freeBit <= n && c == AvailCount(m, freeBit)
      decreases n - freeBit
    {
      var r, used := BmFindBlk(freeBit, m, n);
      ValidRight(m, freeBit, n, r, used);
      if r < 0 {
        NoneCounted(m, freeBit, n);
        return;
      }
      NoneCounted(m, freeBit, r);
      c := c + 1;
      freeBit := r + 1;
    }
  }

  class FreeCounter {
    var freeBlocks: int

    /** is_free_blks_ctr_ok: the recount is exact, and corrects the counter. */
    method IsFreeBlksCtrOk(db: Database) returns (ok: bool)
      requires WellFormed(db)
      modifies this
      ensures freeBlocks == |FreeBlocks(db)|
      ensures ok <==> old(freeBlocks) == |FreeBlocks(db)|
    {
      var counted := Recount(db);
      ok := freeBlocks == counted;
      freeBlocks := counted;
    }
  }

  method Recount(db: Database) returns (freeBlocks: nat)
    requires WellFormed(db)
    ensures freeBlocks == |FreeBlocks(db)|
  {
    TotalBlocks(db);
    var localMaps := LocalMaps(db.total);
    freeBlocks := 0;
    var freeBml := 0;
    while freeBml < localMaps
      invariant 0 <= freeBml <= localMaps && freeBlocks == TotalCount(db, freeBml)
      decreases localMaps - freeBml
    {
      var bml := BmmFindFree(freeBml, db.master, localMaps);
      if bml < freeBml {
        UnmarkedCounted(db, freeBml, localMaps);
        return;
      }
      UnmarkedCounted(db, freeBml, bml);
      freeBml := bml;
      if db.maps[freeBml].Local? {
        assert WellFormedMap(db, freeBml);
        var c := CountMap(db.maps[freeBml].m, MapSize(db.total, freeBml));
        freeBlocks := freeBlocks + c;
      }
      freeBml := freeBml + 1;
    }
  }
}
