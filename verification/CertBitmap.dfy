/** The certification of a local bitmap in sr_port/cert_blk.c, sixteen blocks at a time, with the search
    of sr_port/bml_find_free.c. */
module CertBitmap {
  import opened Bitmap
  import opened BitmapSearch

  const SIXTEEN_BLKS_FREE: bv32 := 0x55555555
  const BYTES_PER_LMAP: nat := 128
  const CHUNK: nat := 4

  datatype Verdict = Good | DBLVLINC | DBBMSIZE | DBBMBARE | DBBMINV | DBBMMSTR

  /** Block `k` of a byte has some bit. */
  predicate Marked(b: bv8, k: nat)
    requires k < 4
  {
    Bit(b, 2 * k) || Bit(b, 2 * k + 1)
  }

  /** RETURN_IF_FREE: the highest block of a byte that is not busy. */
  method HighestIn(valid: bv8) returns (bits: nat)
    requires valid != 0
    ensures bits < 4 && Marked(valid, bits) && forall k :: bits < k < 4 ==> !Marked(valid, k)
  {
    if valid > 0x3F {
      bits := 3;
    } else if valid > 0x0F {
      bits := 2;
    } else if valid > 0x03 {
      bits := 1;
    } else {
      bits := 0;
    }
  }

  /** How many blocks bml_find_free looks at: a hint in the byte just past the map is not taken back to the
      start, and four blocks more are searched. */
  function Searched(hint: nat, total: nat): nat {
    if hint / 4 == ByteCount(total) then total + 4 else total
  }

  /** bml_find_free: from the byte of `hint` to the end, then from the start. */
  method BmlFindFree(hint: nat, m: seq<bv8>, total: nat) returns (r: int)
    requires 0 < total && Searched(hint, total) <= 4 * |m|
    ensures var range := if hint / 4 == (total + 3) / 4 then total + 4 else total;
      && range <= 4 * |m| && (r == NO_FREE_SPACE <==> forall n :: 0 <= n < range ==> Status(m, n) == BLK_BUSY)
      && (r != NO_FREE_SPACE ==> 0 <= r < range && Status(m, r) != BLK_BUSY)
  {
    ghost var range := Searched(hint, total);
    var first := if hint / 4 > ByteCount(total) then 0 else hint / 4;
    var top := ByteCount(total) - 1;
    r := ScanFull(m, range, first, top);
    if r >= 0 {
      return;
    }
    var ptr := if first > top then first else top;
    LastByteOf(hint, total);
    r := SearchTail(m, range, ptr, total % 4);
    if r >= 0 {
      return;
    }
    TailReached(range, ptr);
    if first > 0 {
      r := ScanFull(m, range, 0, first);
    }
  }

  lemma LastByteOf(hint: nat, total: nat)
    requires 0 < total
    ensures Searched(hint, total) % 4 == total % 4
    ensures ByteCount(Searched(hint, total)) == if hint / 4 == ByteCount(total) then ByteCount(total) + 1
      else ByteCount(total)
  {
  }

  lemma TailReached(range: nat, ptr: nat)
    requires ptr == ByteCount(range) - 1
    ensures forall n :: 4 * ptr <= n < range ==> InRange(0, range, ptr, n)
  {
  }

  /** The last byte, which may be valid only in part. */
  method SearchTail(m: seq<bv8>, ghost range: nat, ptr: nat, rest: nat) returns (r: int)
    requires range <= 4 * |m| && ptr == ByteCount(range) - 1 && rest == range % 4
    ensures r == NO_FREE_SPACE || (0 <= r < range && Status(m, r) != BLK_BUSY)
    ensures r == NO_FREE_SPACE ==> forall n :: 0 <= n < range && InRange(0, range, ptr, n) ==> Status(m, n) == BLK_BUSY
  {
    if m[ptr] != 0 {
      r := ReturnIfFree(m, range, ptr, m[ptr] & TailMask(rest));
    } else {
      ZeroTail(m, range);
      MaskedLater(m, 0, range, ptr);
      ZeroByte(m, 0, range, ptr);
      r := NO_FREE_SPACE;
    }
  }

  /** Whole bytes, from `first` up to `last`. */
  method ScanFull(m: seq<bv8>, ghost total: nat, first: nat, last: nat) returns (r: int)
    requires total <= 4 * |m| && last < ByteCount(total)
    ensures r == NO_FREE_SPACE || (0 <= r < total && Status(m, r) != BLK_BUSY)
    ensures r == NO_FREE_SPACE ==> forall n :: 4 * first <= n < 4 * last && n < total ==> Status(m, n) == BLK_BUSY
  {
    var ptr := first;
    while ptr < last
      invariant first <= ptr && (ptr <= last || ptr == first)
      invariant forall n :: 4 * first <= n < 4 * ptr && n < total ==> Status(m, n) == BLK_BUSY
    {
      r := ReturnIfFree(m, total, ptr, m[ptr]);
      if r >= 0 {
        return;
      }
      assert forall n :: 4 * ptr <= n < 4 * (ptr + 1) && n < total ==> InRange(0, total, ptr, n);
      ptr := ptr + 1;
    }
    return NO_FREE_SPACE;
  }

  /** One byte, without the blocks past the end. */
  method ReturnIfFree(m: seq<bv8>, ghost total: nat, j: nat, valid: bv8) returns (r: int)
    requires total <= 4 * |m| && j < ByteCount(total) && valid == TailByte(m, total, j)
    ensures r == NO_FREE_SPACE || (0 <= r < total && Status(m, r) != BLK_BUSY)
    ensures r == NO_FREE_SPACE ==> forall n :: 0 <= n < total && InRange(0, total, j, n) ==> Status(m, n) == BLK_BUSY
  {
    MaskedLater(m, 0, total, j);
    if valid != 0 {
      var bits := HighestIn(valid);
      assert FieldOf(m, 0, total, j, valid, bits);
      return 4 * j + bits;
    }
    ZeroByte(m, 0, total, j);
    return NO_FREE_SPACE;
  }

  /** Four bytes as a word, low byte first. */
  function Word(m: seq<bv8>, p: nat): bv32
    requires p + CHUNK <= |m|
  {
    (m[p] as bv32) | ((m[p + 1] as bv32) << 8) | ((m[p + 2] as bv32) << 16) | ((m[p + 3] as bv32) << 24)
  }

  /** Some block of the byte is available. */
  predicate ByteAvail(b: bv8) { b & 0x55 != 0 }

  /** Some block of the byte has the invalid pattern. */
  predicate ByteInvalid(b: bv8) { (((b & 0x55) ^ 0x55) << 1) & b != 0 }

  lemma WordAvail(b0: bv8, b1: bv8, b2: bv8, b3: bv8)
    ensures var chunk := (b0 as bv32) | ((b1 as bv32) << 8) | ((b2 as bv32) << 16) | ((b3 as bv32) << 24);
      chunk & SIXTEEN_BLKS_FREE != 0 <==> ByteAvail(b0) || ByteAvail(b1) || ByteAvail(b2) || ByteAvail(b3)
  {
  }

  lemma WordInvalid(b0: bv8, b1: bv8, b2: bv8, b3: bv8)
    ensures var chunk := (b0 as bv32) | ((b1 as bv32) << 8) | ((b2 as bv32) << 16) | ((b3 as bv32) << 24);
      (((chunk & SIXTEEN_BLKS_FREE) ^ SIXTEEN_BLKS_FREE) << 1) & chunk != 0 <==>
        ByteInvalid(b0) || ByteInvalid(b1) || ByteInvalid(b2) || ByteInvalid(b3)
  {
  }

  lemma ByteTests(b: bv8)
    ensures ByteAvail(b) <==> exists k :: 0 <= k < 4 && Bit(b, 2 * k)
    ensures ByteInvalid(b) <==> exists k :: 0 <= k < 4 && !Bit(b, 2 * k) && Bit(b, 2 * k + 1)
  {
    ByteTest(b);
    var w := Bit(b, 2 * 0) || Bit(b, 2 * 1) || Bit(b, 2 * 2) || Bit(b, 2 * 3);
    if ByteAvail(b) {
      assert w;
    }
  }

  lemma ByteTest(b: bv8)
    ensures ByteAvail(b) <==> Bit(b, 0) || Bit(b, 2) || Bit(b, 4) || Bit(b, 6)
    ensures ByteInvalid(b) <==>
      (!Bit(b, 0) && Bit(b, 1)) || (!Bit(b, 2) && Bit(b, 3)) || (!Bit(b, 4) && Bit(b, 5)) || (!Bit(b, 6) && Bit(b, 7))
  {
  }

  ghost predicate SomeAvail(m: seq<bv8>, lo: nat, hi: nat)
    requires hi <= 4 * |m|
  {
    exists n :: lo <= n < hi && Avail(Status(m, n))
  }

  ghost predicate AllValid(m: seq<bv8>, lo: nat, hi: nat)
    requires hi <= 4 * |m|
  {
    forall n :: lo <= n < hi ==> Status(m, n) != BLK_MAPINVALID
  }

  lemma ByteStatuses(m: seq<bv8>, j: nat)
    requires j < |m|
    ensures ByteAvail(m[j]) <==> SomeAvail(m, 4 * j, 4 * j + 4)
    ensures ByteInvalid(m[j]) <==> !AllValid(m, 4 * j, 4 * j + 4)
  {
    ByteTests(m[j]);
    forall k | 0 <= k < 4 ensures Status(m, 4 * j + k) == State(Bit(m[j], 2 * k), Bit(m[j], 2 * k + 1)) {
      StatusAt(m, j, k);
    }
    forall n | 4 * j <= n < 4 * j + 4
      ensures Status(m, n) == State(Bit(m[j], 2 * (n - 4 * j)), Bit(m[j], 2 * (n - 4 * j) + 1))
    {
      StatusAt(m, j, n - 4 * j);
    }
  }

  /** The tests on a word agree with the sixteen blocks in it. */
  lemma WordStatuses(m: seq<bv8>, p: nat)
    requires p + CHUNK <= |m|
    ensures Word(m, p) & SIXTEEN_BLKS_FREE != 0 <==> SomeAvail(m, 4 * p, 4 * p + 16)
    ensures (((Word(m, p) & SIXTEEN_BLKS_FREE) ^ SIXTEEN_BLKS_FREE) << 1) & Word(m, p) != 0 <==>
      !AllValid(m, 4 * p, 4 * p + 16)
  {
    WordAvail(m[p], m[p + 1], m[p + 2], m[p + 3]);
    WordInvalid(m[p], m[p + 1], m[p + 2], m[p + 3]);
    ByteStatuses(m, p);
    ByteStatuses(m, p + 1);
    ByteStatuses(m, p + 2);
    ByteStatuses(m, p + 3);
    Quarters(m, 4 * p);
  }

  lemma Quarters(m: seq<bv8>, q: nat)
    requires q + 16 <= 4 * |m|
    ensures SomeAvail(m, q, q + 16) <==>
      SomeAvail(m, q, q + 4) || SomeAvail(m, q + 4, q + 8) || SomeAvail(m, q + 8, q + 12) ||
        SomeAvail(m, q + 12, q + 16)
    ensures AllValid(m, q, q + 16) <==>
      AllValid(m, q, q + 4) && AllValid(m, q + 4, q + 8) && AllValid(m, q + 8, q + 12) && AllValid(m, q + 12, q + 16)
  {
  }

  /** The bytes of the words that are looked at for `offset` blocks. */
  function Scanned(offset: nat): nat { (ByteCount(offset) + 3) / 4 * 4 }

  lemma ScannedBlocks(offset: nat)
    ensures 4 * Scanned(offset) == (offset + 15) / 16 * 16
  {
    var b, q := ByteCount(offset), (offset + 15) / 16;
    assert 4 * b <= offset + 3 < 4 * b + 4;
    assert 4 * q <= b + 3 < 4 * q + 4;
  }

  /** What an accepted bitmap is: the map's own block not available, no invalid pattern in the words
      looked at, and a master bit that says whether some block in range is available. */
  ghost predicate Accepted(levl: nat, size: nat, m: seq<bv8>, offset: nat, masterBit: bool)
    requires offset <= BLKS_PER_LMAP && |m| == BYTES_PER_LMAP
  {
    && levl == 0xFF && size == 16 + BYTES_PER_LMAP
    && !Avail(Status(m, 0)) && AllValid(m, 0, (offset + 15) / 16 * 16)
    && (masterBit <==> SomeAvail(m, 0, offset))
  }

  /** The bitmap branch of cert_blk; `remaining` blocks are left in the file from the map's own on. */
  method CertBitmap(levl: nat, size: nat, m: seq<bv8>, remaining: nat, masterBit: bool) returns (v: Verdict)
    requires |m| == BYTES_PER_LMAP && remaining > 0
    ensures v.Good? <==>
      Accepted(levl, size, m, if remaining >= BLKS_PER_LMAP then BLKS_PER_LMAP else remaining, masterBit)
  {
    if levl != 0xFF {
      return DBLVLINC;
    }
    if size != 16 + BYTES_PER_LMAP {
      return DBBMSIZE;
    }
    StatusAt(m, 0, 0);
    if m[0] & 1 != 0 {
      return DBBMBARE;
    }
    var offset := if remaining >= BLKS_PER_LMAP then BLKS_PER_LMAP else remaining;
    ScannedBlocks(offset);
    var valid, full := ScanWords(m, offset);
    if !valid {
      return DBBMINV;
    }
    if full == masterBit {
      return DBBMMSTR;
    }
    return Good;
  }

  method ScanWords(m: seq<bv8>, offset: nat) returns (valid: bool, full: bool)
    requires |m| == BYTES_PER_LMAP && 0 < offset <= BLKS_PER_LMAP
    ensures valid <==> AllValid(m, 0, 4 * Scanned(offset))
    ensures valid ==> (full <==> !SomeAvail(m, 0, offset))
  {
    full := true;
    var p := 0;
    var blkTop := ByteCount(offset);
    while p < blkTop
      invariant p % 4 == 0 && p <= Scanned(offset) && AllValid(m, 0, 4 * p)
      invariant full ==> forall n :: 0 <= n < offset && n < 4 * p ==> !Avail(Status(m, n))
      invariant !full ==> exists n :: 0 <= n < offset && Status(m, n) != BLK_BUSY
    {
      var chunk := Word(m, p);
      WordStatuses(m, p);
      var mask1 := chunk & SIXTEEN_BLKS_FREE;
      if mask1 != 0 && full {
        full := StillFull(m, offset, p);
      }
      mask1 := ((mask1 ^ SIXTEEN_BLKS_FREE) << 1) & chunk;
      if mask1 != 0 {
        return false, full;
      }
      p := p + CHUNK;
    }
    return true, full;
  }

  /** A word with an available block in it, perhaps past the end of the map. */
  method StillFull(m: seq<bv8>, offset: nat, p: nat) returns (full: bool)
    requires |m| == BYTES_PER_LMAP && 0 < offset <= BLKS_PER_LMAP && p < ByteCount(offset) && p + CHUNK <= |m|
    requires SomeAvail(m, 4 * p, 4 * p + 16)
    ensures if full then forall n :: 0 <= n < offset ==>
      Status(m, n) == BLK_BUSY else exists n :: 0 <= n < offset && Status(m, n) != BLK_BUSY
  {
    if offset == BLKS_PER_LMAP || ByteCount(offset) - p > CHUNK {
      return false;
    }
    var r := BmlFindFree(p, m, offset);
    full := r == NO_FREE_SPACE;
  }
}
