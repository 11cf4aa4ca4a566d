/** Local bitmaps: two bits a block, four blocks a byte. The byte-at-a-time code of sr_port/bml_newmap.c,
    bml_busy.c, bml_free.c, bml_recycled.c, bm_find_blk.c and bml_find_free.c against the plain view of
    a map as a sequence of block states. */
module Bitmap {

  /** The two bits of a block. */
  datatype State = State(low: bool, high: bool)

  const BLK_BUSY := State(false, false)
  const BLK_FREE := State(true, false)
  const BLK_MAPINVALID := State(false, true)
  const BLK_RECYCLED := State(true, true)

  const THREE_BLKS_FREE: bv8 := 0x54
  const FOUR_BLKS_FREE: bv8 := 0x55
  const BLKS_PER_LMAP: nat := 512
  const NO_FREE_SPACE: int := -1

  /** The single bit `i` of a byte. */
  function BitMask(i: nat): bv8
    requires i < 8
  {
    if i == 0 then 1 else if i == 1 then 2 else if i == 2 then 4 else if i == 3 then 8
    else if i == 4 then 16 else if i == 5 then 32 else if i == 6 then 64 else 128
  }

  predicate Bit(b: bv8, i: nat)
    requires i < 8
  {
    b & BitMask(i) != 0
  }

  /** Bit `i` of a map. */
  predicate MapBit(m: seq<bv8>, i: nat)
    requires i < 8 * |m|
  {
    Bit(m[i / 8], i % 8)
  }

  /** The state of block `n` of a map. */
  function Status(m: seq<bv8>, n: nat): State
    requires n < 4 * |m|
  {
    State(MapBit(m, 2 * n), MapBit(m, 2 * n + 1))
  }

  /** Where the bits of a map are: bit `i` is bit `i % 8` of byte `i / 8`, counted from the low end. */
  lemma MapBitAt(m: seq<bv8>, i: nat)
    requires i < 8 * |m|
    ensures MapBit(m, i) <==> (m[i / 8] >> (i % 8)) & 1 == 1
  {
    BitAt(m[i / 8], i % 8);
  }

  lemma BitAt(b: bv8, i: nat)
    requires i < 8
    ensures Bit(b, i) <==> (b >> i) & 1 == 1
  {
    if i == 0 { } else if i == 1 { } else if i == 2 { } else if i == 3 { }
    else if i == 4 { } else if i == 5 { } else if i == 6 { } else { }
  }

  /** The two bits of a block as a number: 0 for busy, 1 for free, 2 for the pattern that is not used, 3 for
      recycled. */
  lemma StatusNumber(m: seq<bv8>, n: nat)
    requires n < 4 * |m|
    ensures var two := (m[n / 4] >> (2 * (n % 4))) & 3;
      Status(m, n) == if two == 0 then BLK_BUSY else if two == 1 then BLK_FREE else if two == 2 then BLK_MAPINVALID
        else BLK_RECYCLED
  {
    assert 2 * n / 8 == n / 4 == (2 * n + 1) / 8 && 2 * n % 8 == 2 * (n % 4) && (2 * n + 1) % 8 == 2 * (n % 4) + 1;
    PairAt(m[n / 4], n % 4);
  }

  lemma PairAt(b: bv8, q: nat)
    requires q < 4
    ensures var two := (b >> (2 * q)) & 3;
      Bit(b, 2 * q) == (two == 1 || two == 3) && Bit(b, 2 * q + 1) == (two == 2 || two == 3)
  {
    if q == 0 { } else if q == 1 { } else if q == 2 { } else { }
  }

  /** Free or recycled. */
  predicate Avail(s: State) { s == BLK_FREE || s == BLK_RECYCLED }

  ghost function Bits(m: seq<bv8>): (s: seq<bool>)
    ensures |s| == 8 * |m|
    ensures forall i :: 0 <= i < |s| ==> s[i] == MapBit(m, i)
  {
    seq(8 * |m|, i requires 0 <= i < 8 * |m| => MapBit(m, i))
  }

  /** The plain view of a map. */
  ghost function Statuses(m: seq<bv8>): (s: seq<State>)
    ensures |s| == 4 * |m|
    ensures forall n :: 0 <= n < |s| ==> s[n] == Status(m, n)
  {
    seq(4 * |m|, n requires 0 <= n < 4 * |m| => Status(m, n))
  }

  /** A byte with bit `i` set or cleared has its other bits as before. */
  lemma ByteSet(b: bv8, i: nat, j: nat)
    requires i < 8 && j < 8
    ensures Bit(b | BitMask(i), j) <==> Bit(b, j) || j == i
    ensures Bit(b & !BitMask(i), j) <==> Bit(b, j) && j != i
  {
    ByteOr(b, i, j);
    ByteAnd(b, i, j);
  }

  lemma ByteOr(b: bv8, i: nat, j: nat)
    requires i < 8 && j < 8
    ensures Bit(b | BitMask(i), j) <==> Bit(b, j) || j == i
  {
    MasksApart(i, j);
    MaskedPair(b, BitMask(i), BitMask(j));
  }

  lemma ByteAnd(b: bv8, i: nat, j: nat)
    requires i < 8 && j < 8
    ensures Bit(b & !BitMask(i), j) <==> Bit(b, j) && j != i
  {
    MasksApart(i, j);
    MaskedPair(b, BitMask(i), BitMask(j));
  }

  lemma MasksApart(i: nat, j: nat)
    requires i < 8 && j < 8
    ensures Single(BitMask(i)) && Single(BitMask(j)) && (BitMask(i) == BitMask(j) <==> i == j)
  {
    Masks(i);
    Masks(j);
  }

  /** Two single-bit masks, told apart by where their bits are. */
  lemma MaskedPair(b: bv8, x: bv8, y: bv8)
    requires Single(x) && Single(y)
    ensures (b | x) & y != 0 <==> b & y != 0 || x == y
    ensures (b & !x) & y != 0 <==> b & y != 0 && x != y
  {
    if x == y {
      Same(b, x);
    } else {
      Other(b, x, y);
    }
  }

  predicate Single(x: bv8) { x != 0 && x & (x - 1) == 0 }

  lemma Same(b: bv8, x: bv8)
    requires x != 0
    ensures (b | x) & x != 0 && (b & !x) & x == 0
  {
  }

  lemma Other(b: bv8, x: bv8, y: bv8)
    requires Single(x) && Single(y) && x != y
    ensures (b | x) & y == b & y && (b & !x) & y == b & y
  {
  }

  lemma Masks(i: nat)
    requires i < 8
    ensures Single(BitMask(i)) && forall j: nat :: j < 8 && BitMask(j) == BitMask(i) ==> j == i
  {
  }

  /** Byte `b` with bit `i` set or cleared. */
  function Put(b: bv8, i: nat, value: bool): bv8
    requires i < 8
  {
    if value then b | BitMask(i) else b & !BitMask(i)
  }

  lemma PutBit(b: bv8, i: nat, value: bool, j: nat)
    requires i < 8 && j < 8
    ensures Bit(Put(b, i, value), j) == if j == i then value else Bit(b, j)
  {
    ByteSet(b, i, j);
  }

  lemma BitsSetAt(m: seq<bv8>, bit: nat, value: bool, i: nat)
    requires bit < 8 * |m| && i < 8 * |m|
    ensures MapBit(m[bit / 8 := Put(m[bit / 8], bit % 8, value)], i) == if i == bit then value else MapBit(m, i)
  {
    if i / 8 == bit / 8 {
      PutBit(m[bit / 8], bit % 8, value, i % 8);
    }
  }

  lemma BitsSet(m: seq<bv8>, bit: nat, value: bool)
    requires bit < 8 * |m|
    ensures Bits(m[bit / 8 := Put(m[bit / 8], bit % 8, value)]) == Bits(m)[bit := value]
  {
    forall i | 0 <= i < 8 * |m|
      ensures MapBit(m[bit / 8 := Put(m[bit / 8], bit % 8, value)], i) == if i == bit then value else MapBit(m, i)
    {
      BitsSetAt(m, bit, value, i);
    }
  }

  /** bit_set: the old value of the bit is returned. */
  method BitSet(bit: nat, base: array<bv8>) returns (ret: bool)
    requires bit < 8 * base.Length
    modifies base
    ensures Bits(base[..]) == old(Bits(base[..]))[bit := true]
    ensures ret == old(Bits(base[..]))[bit]
  {
    BitsSet(base[..], bit, true);
    ret := Bit(base[bit / 8], bit % 8);
    ghost var m := base[..];
    base[bit / 8] := base[bit / 8] | BitMask(bit % 8);
    assert base[..] == m[bit / 8 := m[bit / 8] | BitMask(bit % 8)];
  }

  method BitClear(bit: nat, base: array<bv8>) returns (ret: bool)
    requires bit < 8 * base.Length
    modifies base
    ensures Bits(base[..]) == old(Bits(base[..]))[bit := false]
    ensures ret == old(Bits(base[..]))[bit]
  {
    BitsSet(base[..], bit, false);
    ret := Bit(base[bit / 8], bit % 8);
    ghost var m := base[..];
    base[bit / 8] := base[bit / 8] & !BitMask(bit % 8);
    assert base[..] == m[bit / 8 := m[bit / 8] & !BitMask(bit % 8)];
  }

  /** Both bits of block `n` set anew. */
  lemma TwoBits(m: seq<bv8>, m': seq<bv8>, n: nat, s: State)
    requires |m'| == |m| && n < 4 * |m| && Bits(m') == Bits(m)[2 * n := s.low][2 * n + 1 := s.high]
    ensures Statuses(m') == Statuses(m)[n := s]
  {
    forall i | 0 <= i < 4 * |m| ensures Statuses(m')[i] == if i == n then s else Statuses(m)[i] {
      assert Bits(m')[2 * i] == MapBit(m', 2 * i) && Bits(m')[2 * i + 1] == MapBit(m', 2 * i + 1);
      assert Bits(m)[2 * i] == MapBit(m, 2 * i) && Bits(m)[2 * i + 1] == MapBit(m, 2 * i + 1);
    }
  }

  /** Block `n` becomes busy and no other block changes; the answer is whether it was available. */
  method BmlBusy(n: nat, map_: array<bv8>) returns (ret: bool)
    requires n < 4 * map_.Length
    modifies map_
    ensures Statuses(map_[..]) == old(Statuses(map_[..]))[n := BLK_BUSY]
    ensures ret == Avail(old(Status(map_[..], n)))
  {
    ret := BitClear(2 * n, map_);
    var _ := BitClear(2 * n + 1, map_);
    TwoBits(old(map_[..]), map_[..], n, BLK_BUSY);
  }

  method BmlFree(n: nat, map_: array<bv8>) returns (ret: bool)
    requires n < 4 * map_.Length
    modifies map_
    ensures Statuses(map_[..]) == old(Statuses(map_[..]))[n := BLK_FREE]
    ensures ret == Avail(old(Status(map_[..], n)))
  {
    ret := BitSet(2 * n, map_);
    var _ := BitClear(2 * n + 1, map_);
    TwoBits(old(map_[..]), map_[..], n, BLK_FREE);
  }

  method BmlRecycled(n: nat, map_: array<bv8>) returns (ret: bool)
    requires n < 4 * map_.Length
    modifies map_
    ensures Statuses(map_[..]) == old(Statuses(map_[..]))[n := BLK_RECYCLED]
    ensures ret == Avail(old(Status(map_[..], n)))
  {
    ret := BitSet(2 * n, map_);
    var _ := BitSet(2 * n + 1, map_);
    TwoBits(old(map_[..]), map_[..], n, BLK_RECYCLED);
  }

  /** A new map: the block of the map itself is busy, all others are free. */
  method BmlNewmap(map_: array<bv8>)
    requires map_.Length > 0
    modifies map_
    ensures forall n :: 0 <= n < 4 * map_.Length ==> Status(map_[..], n) == if n == 0 then BLK_BUSY else BLK_FREE
  {
    map_[0] := THREE_BLKS_FREE;
    var i := 1;
    while i < map_.Length
      invariant 1 <= i <= map_.Length && map_[0] == THREE_BLKS_FREE
      invariant forall j :: 1 <= j < i ==> map_[j] == FOUR_BLKS_FREE
    {
      map_[i] := FOUR_BLKS_FREE;
      i := i + 1;
    }
    forall n | 0 <= n < 4 * map_.Length ensures Status(map_[..], n) == if n == 0 then BLK_BUSY else BLK_FREE {
      FreshBits(2 * n % 8);
    }
  }

  lemma FreshBits(i: nat)
    requires i < 8 && i % 2 == 0
    ensures Bit(FOUR_BLKS_FREE, i) && !Bit(FOUR_BLKS_FREE, i + 1)
    ensures (Bit(THREE_BLKS_FREE, i) <==> i != 0) && !Bit(THREE_BLKS_FREE, i + 1)
  {
  }

  // Runs of transitions.

  datatype Transition = Busy(n: nat) | Free(n: nat) | Recycled(n: nat)

  function NewStatus(t: Transition): State {
    match t
    case Busy(_) => BLK_BUSY
    case Free(_) => BLK_FREE
    case Recycled(_) => BLK_RECYCLED
  }

  /** A run of transitions on a map that has just been made. */
  method RunTransitions(map_: array<bv8>, ts: seq<Transition>)
    requires map_.Length > 0 && forall i :: 0 <= i < |ts| ==> ts[i].n < 4 * map_.Length
    modifies map_
    ensures forall n :: 0 <= n < 4 * map_.Length ==> Status(map_[..], n) == After(ts, n)
  {
    BmlNewmap(map_);
    var i := 0;
    assert ts[..0] == [];
    while i < |ts|
      invariant 0 <= i <= |ts|
      invariant forall n :: 0 <= n < 4 * map_.Length ==> Status(map_[..], n) == After(ts[..i], n)
    {
      ghost var before := Statuses(map_[..]);
      Transit(map_, ts[i]);
      assert ts[..i + 1][..i] == ts[..i];
      forall n | 0 <= n < 4 * map_.Length ensures Status(map_[..], n) == After(ts[..i + 1], n) {
        assert Status(map_[..], n) == Statuses(map_[..])[n];
      }
      i := i + 1;
    }
    assert ts[..i] == ts;
  }

  method Transit(map_: array<bv8>, t: Transition)
    requires t.n < 4 * map_.Length
    modifies map_
    ensures Statuses(map_[..]) == old(Statuses(map_[..]))[t.n := NewStatus(t)]
  {
    if t.Busy? {
      var _ := BmlBusy(t.n, map_);
    } else if t.Free? {
      var _ := BmlFree(t.n, map_);
    } else {
      var _ := BmlRecycled(t.n, map_);
    }
  }

  /** The state of block `n`: that of the last transition on it, or as a new map has it. */
  ghost function After(ts: seq<Transition>, n: nat): State {
    if ts == [] then (if n == 0 then BLK_BUSY else BLK_FREE)
    else if ts[|ts| - 1].n == n then NewStatus(ts[|ts| - 1])
    else After(ts[..|ts| - 1], n)
  }

  /** No run makes the invalid pattern. */
  lemma {:induction false} AfterValid(ts: seq<Transition>, n: nat)
    ensures After(ts, n) != BLK_MAPINVALID
  {
    if ts != [] && ts[|ts| - 1].n != n {
      AfterValid(ts[..|ts| - 1], n);
    }
  }
}
