/** The searches over local bitmaps, byte by byte. */
module BitmapSearch {
  import opened Bitmap

  /** The blocks of byte `j` that are in the range of a search. */
  predicate InRange(hint: nat, total: nat, j: nat, n: nat) {
    4 * j <= n < 4 * j + 4 && hint <= n < total
  }

  /** `valid` is byte `j` with the bits of blocks out of range cleared. */
  ghost predicate Masked(m: seq<bv8>, hint: nat, total: nat, j: nat, valid: bv8)
    requires total <= 4 * |m|
  {
    forall k :: 0 <= k < 4 ==> FieldOf(m, hint, total, j, valid, k)
  }

  ghost predicate FieldOf(m: seq<bv8>, hint: nat, total: nat, j: nat, valid: bv8, k: nat)
    requires total <= 4 * |m| && k < 4
  {
    State(Bit(valid, 2 * k), Bit(valid, 2 * k + 1)) == if hint <= 4 * j + k < total then Status(m, 4 * j + k)
      else BLK_BUSY
  }

  /** The mask of the last byte of a map whose block count is `r` modulo 4. */
  function TailMask(r: nat): bv8
    requires r < 4
  {
    if r == 3 then 63 else if r == 2 then 15 else if r == 1 then 3 else 255
  }

  /** The mask of the first byte of a search that starts at block `r` modulo 4. */
  function HeadMask(r: nat): bv8
    requires r < 4
  {
    if r == 0 then 255 else if r == 1 then 252 else if r == 2 then 240 else 192
  }

  lemma TailBits(b: bv8, r: nat, i: nat)
    requires r < 4 && i < 8
    ensures Bit(b & TailMask(r), i) <==> Bit(b, i) && (r == 0 || i < 2 * r)
  {
    MaskTable(i);
    Through(b, TailMask(r), BitMask(i));
  }

  lemma HeadBits(b: bv8, r: nat, i: nat)
    requires r < 4 && i < 8
    ensures Bit(b & HeadMask(r), i) <==> Bit(b, i) && i >= 2 * r
  {
    MaskTable(i);
    Through(b, HeadMask(r), BitMask(i));
  }

  /** Which bits the masks keep. */
  lemma MaskTable(i: nat)
    requires i < 8
    ensures forall r :: 0 <= r < 4 ==> TailMask(r) & BitMask(i) == if r == 0 || i < 2 * r then BitMask(i) else 0
    ensures forall r :: 0 <= r < 4 ==> HeadMask(r) & BitMask(i) == if i >= 2 * r then BitMask(i) else 0
  {
  }

  lemma Through(b: bv8, mask: bv8, x: bv8)
    ensures mask & x == x ==> (b & mask) & x == b & x
    ensures mask & x == 0 ==> (b & mask) & x == 0
  {
  }

  /** The chain of tests that reads a non-zero byte: the first available block, or 3 without asking. */
  method LowestIn(valid: bv8) returns (k: nat, used: bool)
    ensures k < 4 && (k < 3 ==> Bit(valid, 2 * k)) && used == Bit(valid, 2 * k + 1)
    ensures forall i :: 0 <= i < k ==> !Bit(valid, 2 * i)
  {
    if valid & 1 != 0 {
      used := valid & 2 != 0;
      return 0, used;
    } else if valid & 4 != 0 {
      used := valid & 8 != 0;
      return 1, used;
    } else if valid & 16 != 0 {
      used := valid & 32 != 0;
      return 2, used;
    } else {
      used := valid & 128 != 0;
      return 3, used;
    }
  }

  ghost predicate NoneAvail(m: seq<bv8>, lo: nat, hi: nat)
    requires hi <= 4 * |m|
  {
    forall n :: lo <= n < hi ==> !Avail(Status(m, n))
  }

  /** The least available block in range, and whether it is recycled. */
  ghost predicate FoundLeast(m: seq<bv8>, hint: nat, total: nat, r: int, used: bool)
    requires total <= 4 * |m|
  {
    if r == NO_FREE_SPACE then NoneAvail(m, hint, total)
    else hint <= r < total && Avail(Status(m, r)) && (used <==> Status(m, r) == BLK_RECYCLED) && NoneAvail(m, hint, r)
  }

  /** Only busy blocks in range before byte `j`; in byte `j` none available, but one with the invalid
      pattern. */
  ghost predicate Misleads(m: seq<bv8>, hint: nat, total: nat, j: nat)
    requires total <= 4 * |m|
  {
    && (forall n :: hint <= n < total && n < 4 * j ==> Status(m, n) == BLK_BUSY)
    && (forall n :: hint <= n < total && InRange(hint, total, j, n) ==> !Avail(Status(m, n)))
    && (exists n :: hint <= n < total && InRange(hint, total, j, n) && Status(m, n) == BLK_MAPINVALID)
  }

  /** What the search answers on any map: the first byte with anything in it decides. */
  ghost predicate Answer(m: seq<bv8>, hint: nat, total: nat, r: int, used: bool)
    requires total <= 4 * |m|
  {
    if r == NO_FREE_SPACE then forall n :: hint <= n < total ==> Status(m, n) == BLK_BUSY
    else
      && r >= 0 && (forall n :: hint <= n < total && n < r / 4 * 4 ==> Status(m, n) == BLK_BUSY)
      && (FoundLeast(m, hint, total, r, used) || (r % 4 == 3 && Misleads(m, hint, total, r / 4)))
  }

  /** A byte that misleads is the first with anything in it, and the answer is wrong. */
  lemma MisledWrong(m: seq<bv8>, hint: nat, total: nat, r: int, used: bool, j: nat)
    requires total <= 4 * |m| && Answer(m, hint, total, r, used) && Misleads(m, hint, total, j)
    ensures !FoundLeast(m, hint, total, r, used)
  {
    NoneUpTo(m, hint, total, j);
    var n :| hint <= n < total && InRange(hint, total, j, n) && Status(m, n) == BLK_MAPINVALID;
    if r >= 4 * j + 4 {
      RoundDown(r, j);
    }
  }

  lemma RoundDown(r: nat, j: nat)
    requires r >= 4 * j + 4
    ensures r / 4 * 4 >= 4 * j + 4
  {
  }

  lemma NoneUpTo(m: seq<bv8>, hint: nat, total: nat, j: nat)
    requires total <= 4 * |m| && Misleads(m, hint, total, j)
    ensures forall x :: hint <= x < total && x < 4 * j + 4 ==> !Avail(Status(m, x))
  {
    forall x | hint <= x < total && x < 4 * j + 4 ensures !Avail(Status(m, x)) {
      assert x >= 4 * j ==> InRange(hint, total, j, x);
    }
  }

  /** The search is right exactly when no byte misleads it. */
  lemma AnswerRight(m: seq<bv8>, hint: nat, total: nat, r: int, used: bool)
    requires total <= 4 * |m| && Answer(m, hint, total, r, used)
    ensures FoundLeast(m, hint, total, r, used) <==> forall j: nat :: !Misleads(m, hint, total, j)
  {
    if j: nat :| Misleads(m, hint, total, j) {
      MisledWrong(m, hint, total, r, used, j);
    }
  }

  /** A map with block 0 of the invalid pattern and blocks 1 to 3 busy: the search answers 3. */
  lemma InvalidAnswered(r: int, used: bool)
    requires Answer([2], 0, 4, r, used)
    ensures Misleads([2], 0, 4, 0) && r == 3 && Status([2], 3) == BLK_BUSY
  {
    InvalidStatuses();
    assert InRange(0, 4, 0, 0);
    if r != 3 {
      assert false;
    }
  }

  lemma InvalidStatuses()
    ensures Status([2], 0) == BLK_MAPINVALID && Status([2], 1) == BLK_BUSY && Status([2], 2) == BLK_BUSY
    ensures Status([2], 3) == BLK_BUSY
  {
    StatusAt([2], 0, 0);
    StatusAt([2], 0, 1);
    StatusAt([2], 0, 2);
    StatusAt([2], 0, 3);
  }

  /** Without invalid patterns in range the search is right. */
  lemma ValidRight(m: seq<bv8>, hint: nat, total: nat, r: int, used: bool)
    requires total <= 4 * |m| && Answer(m, hint, total, r, used)
    requires forall n :: hint <= n < total ==> Status(m, n) != BLK_MAPINVALID
    ensures FoundLeast(m, hint, total, r, used)
  {
    AnswerRight(m, hint, total, r, used);
  }

  /** A byte with no bit in range. */
  lemma ZeroByte(m: seq<bv8>, hint: nat, total: nat, j: nat)
    requires total <= 4 * |m| && Masked(m, hint, total, j, 0)
    ensures forall n :: hint <= n < total && InRange(hint, total, j, n) ==> Status(m, n) == BLK_BUSY
  {
    forall n | hint <= n < total && InRange(hint, total, j, n) ensures Status(m, n) == BLK_BUSY {
      var k := n - 4 * j;
      assert FieldOf(m, hint, total, j, 0, k);
    }
  }

  /** A byte with some bit in range decides. */
  lemma ByteAnswer(m: seq<bv8>, hint: nat, total: nat, j: nat, valid: bv8, k: nat, used: bool)
    requires total <= 4 * |m| && Masked(m, hint, total, j, valid) && valid != 0
    requires forall n :: hint <= n < total && n < 4 * j ==> Status(m, n) == BLK_BUSY
    requires k < 4 && (k < 3 ==> Bit(valid, 2 * k)) && used == Bit(valid, 2 * k + 1)
    requires forall i :: 0 <= i < k ==> !Bit(valid, 2 * i)
    ensures Answer(m, hint, total, 4 * j + k, used)
  {
    BytePrefix(m, hint, total, j, valid, k);
    if Bit(valid, 2 * k) {
      assert FieldOf(m, hint, total, j, valid, k);
      LeastAnswers(m, hint, total, j, k, used);
    } else {
      ByteMisleads(m, hint, total, j, valid);
      MisledAnswers(m, hint, total, j, used);
    }
  }

  lemma LeastAnswers(m: seq<bv8>, hint: nat, total: nat, j: nat, k: nat, used: bool)
    requires total <= 4 * |m| && k < 4 && FoundLeast(m, hint, total, 4 * j + k, used)
    requires forall n :: hint <= n < total && n < 4 * j ==> Status(m, n) == BLK_BUSY
    ensures Answer(m, hint, total, 4 * j + k, used)
  {
    assert (4 * j + k) / 4 == j;
  }

  lemma MisledAnswers(m: seq<bv8>, hint: nat, total: nat, j: nat, used: bool)
    requires total <= 4 * |m| && Misleads(m, hint, total, j)
    ensures Answer(m, hint, total, 4 * j + 3, used)
  {
    assert (4 * j + 3) / 4 == j && (4 * j + 3) % 4 == 3;
  }

  lemma BytePrefix(m: seq<bv8>, hint: nat, total: nat, j: nat, valid: bv8, k: nat)
    requires total <= 4 * |m| && Masked(m, hint, total, j, valid) && k < 4
    requires forall n :: hint <= n < total && n < 4 * j ==> Status(m, n) == BLK_BUSY
    requires forall i :: 0 <= i < k ==> !Bit(valid, 2 * i)
    ensures forall n :: hint <= n < total && n < 4 * j + k ==> !Avail(Status(m, n))
  {
    forall n | hint <= n < total && n < 4 * j + k ensures !Avail(Status(m, n)) {
      if n >= 4 * j {
        assert FieldOf(m, hint, total, j, valid, n - 4 * j);
      }
    }
  }

  lemma ByteMisleads(m: seq<bv8>, hint: nat, total: nat, j: nat, valid: bv8)
    requires total <= 4 * |m| && Masked(m, hint, total, j, valid) && valid != 0
    requires forall n :: hint <= n < total && n < 4 * j ==> Status(m, n) == BLK_BUSY
    requires forall i :: 0 <= i < 4 ==> !Bit(valid, 2 * i)
    ensures Misleads(m, hint, total, j)
  {
    SomeHigh(valid);
    var i :| 0 <= i < 4 && Bit(valid, 2 * i + 1);
    assert FieldOf(m, hint, total, j, valid, i);
    assert InRange(hint, total, j, 4 * j + i) && Status(m, 4 * j + i) == BLK_MAPINVALID;
    forall n | hint <= n < total && InRange(hint, total, j, n) ensures !Avail(Status(m, n)) {
      assert FieldOf(m, hint, total, j, valid, n - 4 * j);
    }
  }

  lemma SomeHigh(valid: bv8)
    requires valid != 0 && forall i :: 0 <= i < 4 ==> !Bit(valid, 2 * i)
    ensures exists i :: 0 <= i < 4 && Bit(valid, 2 * i + 1)
  {
    assert !Bit(valid, 2 * 0) && !Bit(valid, 2 * 1) && !Bit(valid, 2 * 2) && !Bit(valid, 2 * 3);
    assert Bit(valid, 2 * 0 + 1) || Bit(valid, 2 * 1 + 1) || Bit(valid, 2 * 2 + 1) || Bit(valid, 2 * 3 + 1);
  }

  /** The bytes of the map that the search looks at, and what is left of byte `j`. */
  function ByteCount(total: nat): nat { (2 * total + 7) / 8 }

  /** Byte `j` of the map without the blocks past the end. */
  function TailByte(m: seq<bv8>, total: nat, j: nat): bv8
    requires total <= 4 * |m| && j < ByteCount(total)
  {
    if j == ByteCount(total) - 1 then m[j] & TailMask(total % 4) else m[j]
  }

  lemma StatusAt(m: seq<bv8>, j: nat, k: nat)
    requires j < |m| && k < 4
    ensures Status(m, 4 * j + k) == State(Bit(m[j], 2 * k), Bit(m[j], 2 * k + 1))
  {
    assert 2 * (4 * j + k) / 8 == j && 2 * (4 * j + k) % 8 == 2 * k;
    assert (2 * (4 * j + k) + 1) / 8 == j && (2 * (4 * j + k) + 1) % 8 == 2 * k + 1;
  }

  lemma LastByte(total: nat, j: nat, k: nat)
    requires j < ByteCount(total) && k < 4
    ensures j == ByteCount(total) - 1 ==> (4 * j + k < total <==> total % 4 == 0 || k < total % 4)
    ensures j < ByteCount(total) - 1 ==> 4 * j + k < total
  {
  }

  lemma TailField(m: seq<bv8>, total: nat, j: nat, k: nat)
    requires total <= 4 * |m| && j < ByteCount(total) && k < 4
    ensures FieldOf(m, 0, total, j, TailByte(m, total, j), k)
  {
    LastByte(total, j, k);
    StatusAt(m, j, k);
    if j == ByteCount(total) - 1 {
      MaskedField(m[j], total % 4, k);
    }
  }

  /** The mask of the last byte keeps or clears both bits of a block. */
  lemma MaskedField(b: bv8, r: nat, k: nat)
    requires r < 4 && k < 4
    ensures State(Bit(b & TailMask(r), 2 * k), Bit(b & TailMask(r), 2 * k + 1))
      == if r == 0 || k < r then State(Bit(b, 2 * k), Bit(b, 2 * k + 1)) else BLK_BUSY
  {
    TailBits(b, r, 2 * k);
    TailBits(b, r, 2 * k + 1);
  }

  /** So does that of the first. */
  lemma MaskedHead(b: bv8, r: nat, k: nat)
    requires r < 4 && k < 4
    ensures State(Bit(b & HeadMask(r), 2 * k), Bit(b & HeadMask(r), 2 * k + 1))
      == if k >= r then State(Bit(b, 2 * k), Bit(b, 2 * k + 1)) else BLK_BUSY
  {
    HeadBits(b, r, 2 * k);
    HeadBits(b, r, 2 * k + 1);
  }

  lemma HeadField(m: seq<bv8>, hint: nat, total: nat, tail: bv8, k: nat)
    requires hint < total <= 4 * |m| && k < 4 && FieldOf(m, 0, total, hint / 4, tail, k)
    ensures FieldOf(m, hint, total, hint / 4, tail & HeadMask(hint % 4), k)
  {
    MaskedHead(tail, hint % 4, k);
  }

  lemma MaskedFirst(m: seq<bv8>, hint: nat, total: nat)
    requires hint < total <= 4 * |m|
    ensures hint / 4 < ByteCount(total) <= |m|
    ensures Masked(m, hint, total, hint / 4, TailByte(m, total, hint / 4) & HeadMask(hint % 4))
  {
    var valid := TailByte(m, total, hint / 4) & HeadMask(hint % 4);
    forall k | 0 <= k < 4 ensures FieldOf(m, hint, total, hint / 4, valid, k) {
      TailField(m, total, hint / 4, k);
      HeadField(m, hint, total, TailByte(m, total, hint / 4), k);
    }
  }

  lemma MaskedLater(m: seq<bv8>, hint: nat, total: nat, j: nat)
    requires total <= 4 * |m| && hint <= 4 * j && j < ByteCount(total)
    ensures Masked(m, hint, total, j, TailByte(m, total, j))
  {
    var valid := TailByte(m, total, j);
    forall k | 0 <= k < 4 ensures FieldOf(m, hint, total, j, valid, k) {
      TailField(m, total, j, k);
    }
  }

  /** A byte with something in it. */
  method TakeByte(m: seq<bv8>, hint: nat, total: nat, j: nat, valid: bv8) returns (r: int, used: bool)
    requires total <= 4 * |m| && Masked(m, hint, total, j, valid) && valid != 0
    requires forall n :: hint <= n < total && n < 4 * j ==> Status(m, n) == BLK_BUSY
    ensures Answer(m, hint, total, r, used)
  {
    var k;
    k, used := LowestIn(valid);
    ByteAnswer(m, hint, total, j, valid, k, used);
    return 4 * j + k, used;
  }

  /** bm_find_blk: from `hint` on, without wrapping. */
  method BmFindBlk(hint: nat, m: seq<bv8>, total: nat) returns (r: int, used: bool)
    requires hint < total <= 4 * |m|
    ensures Answer(m, hint, total, r, used)
  {
    if hint != 0 {
      var ptr := hint / 4;
      var top := ByteCount(total) - 1;
      var valid := if ptr == top then m[ptr] & TailMask(total % 4) else m[ptr];
      valid := valid & HeadMask(hint % 4);
      MaskedFirst(m, hint, total);
      if valid != 0 {
        r, used := TakeByte(m, hint, total, ptr, valid);
        return;
      }
      ZeroByte(m, hint, total, ptr);
      r, used := ScanBytes(m, hint, total, ptr + 1);
    } else {
      r, used := ScanBytes(m, hint, total, 0);
    }
  }

  /** Whole bytes from `start` on, then the last byte, which may be partial. */
  method ScanBytes(m: seq<bv8>, hint: nat, total: nat, start: nat) returns (r: int, used: bool)
    requires hint < total <= 4 * |m| && hint <= 4 * start && start <= ByteCount(total)
    requires forall n :: hint <= n < total && n < 4 * start ==> Status(m, n) == BLK_BUSY
    ensures Answer(m, hint, total, r, used)
  {
    var ptr := start;
    var top := ByteCount(total) - 1;
    while ptr < top
      invariant start <= ptr <= top + 1
      invariant forall n :: hint <= n < total && n < 4 * ptr ==> Status(m, n) == BLK_BUSY
    {
      MaskedLater(m, hint, total, ptr);
      if m[ptr] != 0 {
        r, used := TakeByte(m, hint, total, ptr, m[ptr]);
        return;
      }
      ZeroByte(m, hint, total, ptr);
      ptr := ptr + 1;
    }
    if ptr == top {
      MaskedLater(m, hint, total, ptr);
      ZeroTail(m, total);
      var valid := m[ptr] & TailMask(total % 4);
      if m[ptr] != 0 && valid != 0 {
        r, used := TakeByte(m, hint, total, ptr, valid);
        return;
      }
      ZeroByte(m, hint, total, ptr);
    }
    return NO_FREE_SPACE, false;
  }

  lemma ZeroTail(m: seq<bv8>, total: nat)
    requires 0 < total <= 4 * |m|
    ensures m[ByteCount(total) - 1] == 0 ==> TailByte(m, total, ByteCount(total) - 1) == 0
  {
    var mask := TailMask(total % 4);
    assert 0 & mask == 0;
  }
}
