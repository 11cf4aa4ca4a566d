/** The certification of a data or index block, byte by byte, as cert_blk does it. */
module CertBlk {
  import opened Bytes
  import opened KeyBlock

  const SIZEOF_BLK_HDR: nat := 16
  const SIZEOF_REC_HDR: nat := 4
  const MAX_BT_DEPTH: nat := 7
  const DIR_ROOT: int := 1

  datatype Swap = SwapNone | SwapIncrRootCycle | SwapDirectory

  datatype Verdict = Good | Bad(error: Error)

  /** What child block numbers are checked against; `unbounded` while a reorganization that may meet
      children past the end is in progress. */
  datatype Limits = Limits(total: int, bplmap: int, unbounded: bool)

  /** Bytes of the block by offset, and what follows it in memory. */
  type Memory = int -> Byte

  function RecSize(b: seq<Byte>, p: nat): nat
    requires p + SIZEOF_REC_HDR <= |b|
  {
    (b[p] as int) + 256 * (b[p + 1] as int)
  }

  /** The compression count: one byte below 253, else two in ten bits. */
  function Cmpc(b: seq<Byte>, p: nat): nat
    requires p + SIZEOF_REC_HDR <= |b|
  {
    var c: int := b[p + 2];
    if 253 > c then c else (253 + (c - 253) * 256 + b[p + 3]) % 0x400
  }

  /** The record at `p` is whole. */
  predicate Whole(b: seq<Byte>, p: nat) {
    p + SIZEOF_REC_HDR <= |b| && SIZEOF_REC_HDR < RecSize(b, p) <= |b| - p
  }

  /** The record at `p` is the star record of an index block. */
  predicate IsStar(b: seq<Byte>, p: nat, levl: nat)
    requires Whole(b, p)
  {
    levl > 0 && p + RecSize(b, p) == |b|
  }

  function RawAt(b: seq<Byte>, p: nat): Raw
    requires Whole(b, p)
  {
    Raw(Cmpc(b, p), b[p + SIZEOF_REC_HDR..p + RecSize(b, p)])
  }

  /** The records with keys from `p` on. */
  ghost function RawsFrom(b: seq<Byte>, p: nat, levl: nat): seq<Raw>
    decreases |b| - p
  {
    if p >= |b| || !Whole(b, p) || IsStar(b, p, levl) then []
    else [RawAt(b, p)] + RawsFrom(b, p + RecSize(b, p), levl)
  }

  /** Whole records tile the block from `p` on, and a star record holds a block number only. */
  ghost predicate Tiled(b: seq<Byte>, p: nat, levl: nat, idSize: nat)
    decreases |b| - p
  {
    p >= |b| || (Whole(b, p) && if IsStar(b, p, levl) then RecSize(b, p) == SIZEOF_REC_HDR + idSize && Cmpc(b, p) == 0
      else Tiled(b, p + RecSize(b, p), levl, idSize))
  }

  /** The block number at offset `q`, signed. */
  function BlkId(mem: Memory, q: int, idSize: nat): int {
    var low := Word([mem(q), mem(q + 1), mem(q + 2), mem(q + 3)]);
    if idSize == 8 then low + WORD * Signed(Word([mem(q + 4), mem(q + 5), mem(q + 6), mem(q + 7)])) else Signed(low)
  }

  function Signed(w: int): int { if w < WORD / 2 then w else w - WORD }

  /** Child block number `c` after `prev`. */
  predicate KidOk(c: int, prev: int, lim: Limits)
    requires lim.bplmap > 0
  {
    0 < c && (lim.unbounded || c <= lim.total) && c % lim.bplmap != 0 && c != prev
  }

  /** The child block numbers of the records from `p` on, the first of them the record after `n` ones. In a
      data block those that come once the block is known to be of a directory have one. */
  ghost function KidsFrom(mem: Memory, b: seq<Byte>, p: nat, n: nat, levl: nat, idSize: nat, gvt: bool,
                          dir: bool): seq<int> {
    KidsAmong(mem, b, Checks(RawsFrom(b, SIZEOF_BLK_HDR, levl), levl, idSize, gvt, dir), p, n, levl, idSize)
  }

  /** What the checks over the first records come to, by how many records. */
  ghost function Checks(raws: seq<Raw>, levl: nat, idSize: nat, gvt: bool, dir: bool): nat -> Result {
    (n: nat) => if n > |raws| then Fail(DBRSIZMX) else CheckAll(raws, n, levl, idSize, gvt, dir)
  }

  /** The children where `checks` are these. */
  ghost function KidsAmong(mem: Memory, b: seq<Byte>, checks: nat -> Result, p: nat, n: nat, levl: nat,
                           idSize: nat): seq<int>
    decreases |b| - p
  {
    if p >= |b| || !Whole(b, p) then []
    else if IsStar(b, p, levl) then [BlkId(mem, p + SIZEOF_REC_HDR, idSize)]
    else if checks(n + 1).Fail? then []
    else
      KidOf(mem, b, p, checks(n + 1).st, levl, idSize)
        + KidsAmong(mem, b, checks, p + RecSize(b, p), n + 1, levl, idSize)
  }

  /** That of a record with a key, which ends where the expanded key `st.prior` does. */
  function KidOf(mem: Memory, b: seq<Byte>, p: nat, st: State, levl: nat, idSize: nat): seq<int>
    requires Whole(b, p)
  {
    if levl > 0 || st.dir then [BlkId(mem, p + SIZEOF_REC_HDR + |st.prior| - Cmpc(b, p), idSize)] else []
  }

  /** All within the database, none a bitmap, no two running the same. */
  ghost predicate KidsGood(kids: seq<int>, lim: Limits)
    requires lim.bplmap > 0
  {
    forall i {:trigger KidAt(kids, i, lim)} :: 0 <= i < |kids| ==> KidAt(kids, i, lim)
  }

  ghost predicate KidAt(kids: seq<int>, i: int, lim: Limits)
    requires lim.bplmap > 0 && 0 <= i < |kids|
  {
    KidOk(kids[i], if i == 0 then 0 else kids[i - 1], lim)
  }

  function LastOf(kids: seq<int>): int { if kids == [] then 0 else kids[|kids| - 1] }

  lemma KidsGoodNext(kids: seq<int>, c: int, rest: seq<int>, lim: Limits)
    requires lim.bplmap > 0 && KidsGood(kids, lim)
    ensures if KidOk(c, LastOf(kids), lim) then KidsGood(kids + [c], lim) else !KidsGood(kids + ([c] + rest), lim)
    ensures kids + ([c] + rest) == kids + [c] + rest && LastOf(kids + [c]) == c
  {
    var more, all := kids + [c], kids + ([c] + rest);
    forall i | 0 <= i < |more|
      ensures KidAt(more, i, lim) <==> if i < |kids| then true else KidOk(c, LastOf(kids), lim)
    {
      if i < |kids| {
        assert KidAt(kids, i, lim);
      }
    }
    assert KidAt(all, |kids|, lim) <==> KidOk(c, LastOf(kids), lim);
  }

  /** Level and size as they must be for the block's place. */
  predicate HeaderGood(size: nat, levl: nat, idSize: nat, blk: int, root: int, maxSize: nat) {
    && levl <= MAX_BT_DEPTH && size <= maxSize
    && (levl == 0 ==> blk != DIR_ROOT && blk != root && size >= SIZEOF_BLK_HDR)
    && (levl > 0 ==> size >= SIZEOF_BLK_HDR + SIZEOF_REC_HDR + idSize)
  }

  function IsDirectory(root: int, swap: Swap): bool {
    swap == SwapDirectory || (swap == SwapNone && root == DIR_ROOT)
  }

  function IsGvt(root: int, swap: Swap): bool {
    swap == SwapNone && root != 0 && root != DIR_ROOT
  }

  lemma {:induction false} ZerosSnoc(s: seq<Byte>, x: Byte)
    ensures Zeros(s + [x]) == Zeros(s) + if x == DELIMITER then 1 else 0
  {
    if s != [] {
      ZerosSnoc(s[1..], x);
      assert (s + [x])[1..] == s[1..] + [x];
    }
  }

  /** The delimiters in the shared part of the prior key. */
  method CountShared(prior: Key, cmpc: nat) returns (n: nat)
    requires cmpc <= |prior|
    ensures n == Zeros(prior[..cmpc])
  {
    n := 0;
    var i := 0;
    while i < cmpc
      invariant 0 <= i <= cmpc && n == Zeros(prior[..i])
    {
      ZerosSnoc(prior[..i], prior[i]);
      assert prior[..i + 1] == prior[..i] + [prior[i]];
      if prior[i] == DELIMITER {
        n := n + 1;
      }
      i := i + 1;
    }
  }

  /** The scan for the end of the key: `size` bytes of the record belong to it, or it has no end. Counts
      delimiters on from `shared` ones, the last of the terminator not among them, and notes where the
      first one was. */
  method ScanKey(prior: Key, cmpc: nat, body: seq<Byte>, shared: nat, minCmpc0: nat)
    returns (found: bool, size: nat, zeros: nat, minCmpc: nat)
    requires cmpc == 0 || cmpc < |prior|
    requires body != [] && shared == Zeros(prior[..cmpc]) && (minCmpc0 == 0 ==> cmpc == 0)
    ensures ScanGood(prior[..cmpc] + body, cmpc, minCmpc0, found, size, zeros, minCmpc)
  {
    ghost var s := prior[..cmpc] + body;
    zeros, minCmpc := shared, minCmpc0;
    var prevCharIsDelimiter := cmpc > 0 && prior[cmpc - 1] == DELIMITER;
    ScanBegins(prior, cmpc, body, minCmpc0);
    var i := 0;
    while i < |body|
      invariant i <= |body|
      invariant Scanning(s, cmpc, i, zeros, prevCharIsDelimiter, minCmpc0, minCmpc)
    {
      BodyAt(prior, cmpc, body, i);
      if body[i] == DELIMITER && prevCharIsDelimiter {
        ScanFound(s, cmpc, minCmpc0, i, zeros, minCmpc);
        minCmpc := if minCmpc == 0 then i + 1 else minCmpc;
        return true, i + 1, zeros, minCmpc;
      }
      ScanOn(s, cmpc, minCmpc0, i, zeros, prevCharIsDelimiter, minCmpc);
      prevCharIsDelimiter := body[i] == DELIMITER;
      if prevCharIsDelimiter {
        zeros := zeros + 1;
        minCmpc := if minCmpc == 0 then i + 1 else minCmpc;
      }
      i := i + 1;
    }
    ScannedAll(s, cmpc, i, zeros, prevCharIsDelimiter);
    return false, 0, zeros, minCmpc;
  }

  /** The scan with the length of the first name, if that is being looked for. */
  ghost predicate Scanning(s: seq<Byte>, cmpc: nat, i: nat, zeros: nat, prev: bool, minCmpc0: nat, minCmpc: nat) {
    Scanned(s, cmpc, i, zeros, prev) && if minCmpc0 > 0 then minCmpc == minCmpc0
      else cmpc == 0 && FirstZero(s[..i], minCmpc)
  }

  lemma ScanBegins(prior: Key, cmpc: nat, body: seq<Byte>, minCmpc0: nat)
    requires (cmpc == 0 || cmpc < |prior|) && (minCmpc0 == 0 ==> cmpc == 0)
    ensures Scanning(prior[..cmpc] + body, cmpc, 0, Zeros(prior[..cmpc]), cmpc > 0 &&
                     prior[cmpc - 1] == DELIMITER, minCmpc0, minCmpc0)
  {
    assert (prior[..cmpc] + body)[..cmpc] == prior[..cmpc];
  }

  lemma BodyAt(prior: Key, cmpc: nat, body: seq<Byte>, i: nat)
    requires cmpc <= |prior| && i < |body|
    ensures (prior[..cmpc] + body)[cmpc + i] == body[i]
  {
  }

  lemma ScanOn(s: seq<Byte>, cmpc: nat, minCmpc0: nat, i: nat, zeros: nat, prev: bool, minCmpc: nat)
    requires Scanning(s, cmpc, i, zeros, prev, minCmpc0, minCmpc) && cmpc + i < |s|
    requires !(prev && s[cmpc + i] == DELIMITER)
    ensures var z := s[cmpc + i] == DELIMITER;
      Scanning(s, cmpc, i + 1, if z then zeros + 1 else zeros, z, minCmpc0, if z &&
               minCmpc == 0 then i + 1 else minCmpc)
  {
    ScannedNext(s, cmpc, i, zeros, prev);
    if minCmpc0 == 0 {
      FirstZeroNext(s, i, minCmpc);
    }
  }

  /** What the scan says about the stream `s`. */
  ghost predicate ScanGood(s: seq<Byte>, cmpc: nat, minCmpc0: nat, found: bool, size: nat, zeros: nat, minCmpc: nat)
    requires cmpc <= |s|
  {
    var e := Term(s, ScanStart(cmpc));
    && (found <==> e >= 0)
    && (found ==> 0 < size && e + 2 == cmpc + size && zeros + 1 == Zeros(s[..e + 2]))
    && (found ==> minCmpc == if minCmpc0 == 0 then |Name(s[..e + 2])| + 1 else minCmpc0)
  }

  lemma ScanFound(s: seq<Byte>, cmpc: nat, minCmpc0: nat, i: nat, zeros: nat, minCmpc: nat)
    requires Scanning(s, cmpc, i, zeros, true, minCmpc0, minCmpc) && cmpc + i < |s| && s[cmpc + i] == DELIMITER
    ensures ScanGood(s, cmpc, minCmpc0, true, i + 1, zeros, if minCmpc == 0 then i + 1 else minCmpc)
  {
    ScannedEnd(s, cmpc, i, zeros);
    if minCmpc0 == 0 {
      FirstZeroNext(s, i, minCmpc);
      NameIs(s[..i + 1], (if minCmpc == 0 then i + 1 else minCmpc) - 1);
    }
  }

  function ScanStart(cmpc: nat): nat { if cmpc == 0 then 0 else cmpc - 1 }

  /** `i` bytes of the record are scanned: its delimiters are counted, and no terminator was seen. */
  ghost predicate Scanned(s: seq<Byte>, cmpc: nat, i: nat, zeros: nat, prev: bool) {
    && cmpc + i <= |s| && zeros == Zeros(s[..cmpc + i])
    && (prev <==> cmpc + i > 0 && s[cmpc + i - 1] == DELIMITER)
    && forall j :: ScanStart(cmpc) <= j && j + 2 <= cmpc + i ==> !Double(s, j)
  }

  lemma ScannedNext(s: seq<Byte>, cmpc: nat, i: nat, zeros: nat, prev: bool)
    requires Scanned(s, cmpc, i, zeros, prev) && cmpc + i < |s| && !(prev && s[cmpc + i] == DELIMITER)
    ensures Scanned(s, cmpc, i + 1, if s[cmpc + i] == DELIMITER then zeros + 1 else zeros, s[cmpc + i] == DELIMITER)
  {
    ZerosSnoc(s[..cmpc + i], s[cmpc + i]);
    assert s[..cmpc + i + 1] == s[..cmpc + i] + [s[cmpc + i]];
  }

  lemma ScannedEnd(s: seq<Byte>, cmpc: nat, i: nat, zeros: nat)
    requires Scanned(s, cmpc, i, zeros, true) && cmpc + i < |s| && s[cmpc + i] == DELIMITER
    ensures Term(s, ScanStart(cmpc)) == cmpc + i - 1 && Zeros(s[..cmpc + i + 1]) == zeros + 1
  {
    assert Double(s, cmpc + i - 1);
    assert Term(s, ScanStart(cmpc)) >= 0;
    ZerosSnoc(s[..cmpc + i], s[cmpc + i]);
    assert s[..cmpc + i + 1] == s[..cmpc + i] + [s[cmpc + i]];
  }

  lemma ScannedAll(s: seq<Byte>, cmpc: nat, i: nat, zeros: nat, prev: bool)
    requires Scanned(s, cmpc, i, zeros, prev) && cmpc + i == |s|
    ensures Term(s, ScanStart(cmpc)) < 0
  {
  }

  /** `n` is one past the first delimiter, or zero if there is none. */
  ghost predicate FirstZero(s: seq<Byte>, n: nat) {
    if n == 0 then forall j :: 0 <= j < |s| ==> s[j] != DELIMITER
    else n <= |s| && s[n - 1] == DELIMITER && forall j :: 0 <= j < n - 1 ==> s[j] != DELIMITER
  }

  lemma FirstZeroNext(s: seq<Byte>, i: nat, n: nat)
    requires i < |s|
    ensures FirstZero(s[..i], n) ==> FirstZero(s[..i + 1], if n == 0 && s[i] == DELIMITER then i + 1 else n)
  {
  }

  /** After the first record there is a prior key, and the length of the first name is known. */
  predicate Usable(st: State) {
    st.count > 0 ==> st.prior != [] && st.minCmpc > 0
  }

  /** The checks on one record with a key. */
  method CheckRecord(st: State, cmpc: nat, body: seq<Byte>, levl: nat, idSize: nat) returns (r: Result)
    requires body != [] && Usable(st)
    ensures r == Check(st, Raw(cmpc, body), levl, idSize)
    ensures r.Ok? ==> Usable(r.st)
  {
    if st.count == 0 {
      if cmpc != 0 {
        return Fail(DBCMPNZRO);
      }
      if levl == 0 && !ValidFirstChar(body[0]) {
        return Fail(GVINVALID);
      }
    }
    if cmpc != 0 && cmpc >= |st.prior| {
      return Fail(DBCMPMX);
    }
    var shared := CountShared(st.prior, cmpc);
    var found, size, zeros, minCmpc := ScanKey(st.prior, cmpc, body, shared, st.minCmpc);
    if !found {
      return Fail(DBKEYMX);
    }
    var numSubscripts: int := zeros;
    numSubscripts := numSubscripts - 1;
    assert (st.prior[..cmpc] + body)[..cmpc + size] == st.prior[..cmpc] + body[..size];
    r := CheckFound(st, Raw(cmpc, body), st.prior[..cmpc] + body[..size], numSubscripts, minCmpc, levl, idSize);
  }

  /** The checks once the key is found; the expanded key replaces the prior one. */
  method CheckFound(st: State, raw: Raw, key: Key, numSubscripts: int, minCmpc: nat, levl: nat, idSize: nat)
    returns (r: Result)
    requires st.count > 0 ==> raw.cmpc < |st.prior|
    requires raw.body != [] && numSubscripts + 2 == Zeros(key)
    requires minCmpc == if st.minCmpc == 0 then |Name(key)| + 1 else st.minCmpc
    ensures r == CheckKey(st, raw, key, levl, idSize)
    ensures r.Ok? ==> r.st.prior == key && r.st.minCmpc == minCmpc
  {
    var first := st.count == 0;
    var gvt, dir := st.gvt, st.dir;
    if !first && raw.cmpc < minCmpc {
      if gvt {
        return Fail(DBINVGBL);
      }
      dir := true;
    }
    if numSubscripts > 0 {
      if dir {
        return Fail(DBDIRTSUBSC);
      }
      gvt := true;
    }
    if MAX_GVSUBSCRIPTS <= numSubscripts {
      return Fail(DBMAXNRSUBS);
    }
    if levl > 0 && |key| + idSize != raw.cmpc + |raw.body| {
      return Fail(DBKEYMN);
    }
    if !first {
      if st.prior[raw.cmpc] == raw.body[0] {
        return Fail(DBCMPBAD);
      }
      if st.prior[raw.cmpc] >= raw.body[0] {
        return Fail(DBKEYORD);
      }
    }
    return Ok(State(key, minCmpc, gvt, dir, st.count + 1));
  }

  /** What is known at record `p`: the records before it passed, and the rest of the block decides. */
  ghost predicate Reached(b: seq<Byte>, p: nat, st: State, levl: nat, idSize: nat, gvt: bool, dir: bool) {
    var raws := RawsFrom(b, SIZEOF_BLK_HDR, levl);
    && st.count <= |raws| && RawsFrom(b, p, levl) == raws[st.count..]
    && CheckAll(raws, st.count, levl, idSize, gvt, dir) == Ok(st)
    && (Tiled(b, SIZEOF_BLK_HDR, levl, idSize) <==> Tiled(b, p, levl, idSize))
  }

  /** A failed check fails the block. */
  lemma {:induction false} FailSticks(raws: seq<Raw>, k: nat, n: nat, levl: nat, idSize: nat, gvt: bool, dir: bool)
    requires k <= n <= |raws| && CheckAll(raws, k, levl, idSize, gvt, dir).Fail?
    ensures CheckAll(raws, n, levl, idSize, gvt, dir).Fail?
  {
    if k < n {
      FailSticks(raws, k, n - 1, levl, idSize, gvt, dir);
    }
  }

  /** The block is accepted exactly when its header is good, whole records tile it, its keys are certified, and
      so are the child block numbers. */
  ghost predicate Acceptable(mem: Memory, b: seq<Byte>, levl: nat, idSize: nat, blk: int, root: int, maxSize: nat,
                             swap: Swap, lim: Limits)
    requires lim.bplmap > 0
  {
    var raws := RawsFrom(b, SIZEOF_BLK_HDR, levl);
    && HeaderGood(|b|, levl, idSize, blk, root, maxSize) && Tiled(b, SIZEOF_BLK_HDR, levl, idSize)
    && Certified(raws, |raws|, levl, idSize, IsGvt(root, swap), IsDirectory(root, swap))
    && KidsGood(KidsFrom(mem, b, SIZEOF_BLK_HDR, 0, levl, idSize, IsGvt(root, swap), IsDirectory(root, swap)), lim)
  }

  /** A whole record with a key. */
  lemma ReachedNext(b: seq<Byte>, p: nat, st: State, r: Result, levl: nat, idSize: nat, gvt: bool, dir: bool)
    requires Reached(b, p, st, levl, idSize, gvt, dir) && p < |b| && Whole(b, p) && !IsStar(b, p, levl)
    requires (st.count > 0 ==> st.prior != []) && r == Check(st, RawAt(b, p), levl, idSize)
    ensures var raws := RawsFrom(b, SIZEOF_BLK_HDR, levl);
      if r.Ok? then Reached(b, p + RecSize(b, p), r.st, levl, idSize, gvt, dir)
      else CheckAll(raws, |raws|, levl, idSize, gvt, dir).Fail?
  {
    var raws := RawsFrom(b, SIZEOF_BLK_HDR, levl);
    var rest := RawsFrom(b, p + RecSize(b, p), levl);
    assert raws[st.count..] == [RawAt(b, p)] + rest;
    assert raws[st.count] == raws[st.count..][0];
    assert raws[st.count + 1..] == raws[st.count..][1..] == rest;
    if r.Fail? {
      FailSticks(raws, st.count + 1, |raws|, levl, idSize, gvt, dir);
    }
  }

  /** The certifier, on a block that is not a bitmap; `b` is the used part of the block. */
  method CertBlk(mem: Memory, b: seq<Byte>, levl: nat, idSize: nat, blk: int, root: int, maxSize: nat, swap: Swap,
                 lim: Limits)
    returns (v: Verdict)
    requires lim.bplmap > 0
    ensures v.Good? <==> Acceptable(mem, b, levl, idSize, blk, root, maxSize, swap, lim)
  {
    if levl > MAX_BT_DEPTH {
      return Bad(DBBLEVMX);
    }
    if levl == 0 {
      if blk == DIR_ROOT || blk == root {
        return Bad(DBROOTBURN);
      }
      if |b| < SIZEOF_BLK_HDR {
        return Bad(DBBSIZMN);
      }
    } else if |b| < SIZEOF_BLK_HDR + SIZEOF_REC_HDR + idSize {
      return Bad(DBBSIZMN);
    }
    if |b| > maxSize {
      return Bad(DBBSIZMX);
    }
    var gvt, dir := IsGvt(root, swap), IsDirectory(root, swap);
    ghost var raws := RawsFrom(b, SIZEOF_BLK_HDR, levl);
    CheckedIsCertified(raws, |raws|, levl, idSize, gvt, dir);
    v := CertRecords(mem, b, levl, idSize, gvt, dir, lim);
  }

  method CertRecords(mem: Memory, b: seq<Byte>, levl: nat, idSize: nat, gvt: bool, dir: bool, lim: Limits)
    returns (v: Verdict)
    requires lim.bplmap > 0
    ensures v.Good? <==>
      RecordsGood(b, levl, idSize, gvt, dir) &&
        KidsGood(KidsFrom(mem, b, SIZEOF_BLK_HDR, 0, levl, idSize, gvt, dir), lim)
  {
    var st := State([], 0, gvt, dir, 0);
    var p := SIZEOF_BLK_HDR;
    var prevChild := 0;
    ghost var kids: seq<int> := [];
    while p < |b|
      invariant Reached(b, p, st, levl, idSize, gvt, dir) && Usable(st)
      invariant KidsReached(mem, b, p, st.count, kids, prevChild, levl, idSize, gvt, dir, lim)
      decreases |b| - p
    {
      var next, st1;
      v, next, st1 := CertRecord(b, p, st, levl, idSize, gvt, dir);
      if v.Bad? {
        return;
      }
      v, prevChild, kids := CertChild(mem, b, p, next, st, st1, kids, prevChild, levl, idSize, gvt, dir, lim);
      if v.Bad? {
        return;
      }
      p, st := next, st1;
    }
    ReachedEnd(b, p, st, levl, idSize, gvt, dir);
    assert kids + [] == kids;
    return Good;
  }

  /** The children so far are good, and these are all but those from `p` on. */
  ghost predicate KidsReached(mem: Memory, b: seq<Byte>, p: nat, n: nat, kids: seq<int>, prevChild: int, levl: nat,
                              idSize: nat, gvt: bool,
                              dir: bool, lim: Limits)
    requires lim.bplmap > 0
  {
    && KidsFrom(mem, b, SIZEOF_BLK_HDR, 0, levl, idSize, gvt, dir)
      == kids + KidsFrom(mem, b, p, n, levl, idSize, gvt, dir)
    && KidsGood(kids, lim) && prevChild == LastOf(kids)
  }

  /** A record that passed its own checks: `st1` is the state after it. */
  ghost predicate Passed(b: seq<Byte>, p: nat, next: nat, st: State, st1: State, levl: nat, idSize: nat, gvt: bool,
                         dir: bool) {
    && p < |b| && Whole(b, p) && next == p + RecSize(b, p)
    && Reached(b, next, st1, levl, idSize, gvt, dir) && Usable(st1)
    && st1.count == (if IsStar(b, p, levl) then st.count else st.count + 1)
  }

  /** The child block number of a record, if it has one. */
  method CertChild(mem: Memory, b: seq<Byte>, p: nat, next: nat, ghost st: State, st1: State, ghost kids: seq<int>,
                   prevChild: int,
                   levl: nat, idSize: nat, ghost gvt: bool, ghost dir: bool, lim: Limits)
    returns (v: Verdict, prevChild': int, ghost kids': seq<int>)
    requires lim.bplmap > 0 && Passed(b, p, next, st, st1, levl, idSize, gvt, dir)
    requires KidsReached(mem, b, p, st.count, kids, prevChild, levl, idSize, gvt, dir, lim)
    ensures v.Good? ==> KidsReached(mem, b, next, st1.count, kids', prevChild', levl, idSize, gvt, dir, lim)
    ensures v.Bad? ==> !KidsGood(KidsFrom(mem, b, SIZEOF_BLK_HDR, 0, levl, idSize, gvt, dir), lim)
  {
    v, prevChild', kids' := Good, prevChild, kids;
    ghost var rest := KidsFrom(mem, b, next, st1.count, levl, idSize, gvt, dir);
    KidsStep(mem, b, p, next, st, st1, levl, idSize, gvt, dir, rest);
    if levl > 0 || st1.dir {
      var child := ChildAt(mem, b, p, st1, levl, idSize);
      KidsGoodNext(kids, child, rest, lim);
      v := CheckChild(child, prevChild, lim);
      prevChild', kids' := child, kids + [child];
    } else {
      assert [] + rest == rest;
    }
  }

  /** READ_BLK_ID: after the header of a star record, after the key of another. */
  function ChildAt(mem: Memory, b: seq<Byte>, p: nat, st1: State, levl: nat, idSize: nat): int
    requires Whole(b, p)
  {
    BlkId(mem, if IsStar(b, p, levl) then p + SIZEOF_REC_HDR else p + SIZEOF_REC_HDR + |st1.prior| - Cmpc(b, p), idSize)
  }

  /** The children from a record that passes the checks on. */
  lemma KidsNext(mem: Memory, b: seq<Byte>, checks: nat -> Result, p: nat, next: nat, n: nat, m: nat, levl: nat,
                 idSize: nat)
    requires Whole(b, p) && next == p + RecSize(b, p) && !IsStar(b, p, levl) && m == n + 1 && checks(m).Ok?
    ensures KidsAmong(mem, b, checks, p, n, levl, idSize)
      == KidOf(mem, b, p, checks(m).st, levl, idSize) + KidsAmong(mem, b, checks, next, m, levl, idSize)
  {
  }

  lemma KidsFromNext(mem: Memory, b: seq<Byte>, p: nat, next: nat, n: nat, raws: seq<Raw>, st: State, levl: nat,
                     idSize: nat, gvt: bool, dir: bool)
    requires Whole(b, p) && next == p + RecSize(b, p) && !IsStar(b, p, levl)
    requires RawsFrom(b, SIZEOF_BLK_HDR, levl) == raws && n < |raws|
    requires CheckAll(raws, n + 1, levl, idSize, gvt, dir) == Result.Ok(st)
    ensures KidsFrom(mem, b, p, n, levl, idSize, gvt, dir)
      == KidOf(mem, b, p, st, levl, idSize) + KidsFrom(mem, b, next, n + 1, levl, idSize, gvt, dir)
  {
    KidsNext(mem, b, Checks(raws, levl, idSize, gvt, dir), p, next, n, n + 1, levl, idSize);
  }

  lemma KidsFromStar(mem: Memory, b: seq<Byte>, p: nat, next: nat, n: nat, m: nat, levl: nat, idSize: nat, gvt: bool,
                     dir: bool)
    requires Whole(b, p) && IsStar(b, p, levl) && next == p + RecSize(b, p)
    ensures KidsFrom(mem, b, p, n, levl, idSize, gvt, dir) == [BlkId(mem, p + SIZEOF_REC_HDR, idSize)]
    ensures KidsFrom(mem, b, next, m, levl, idSize, gvt, dir) == []
  {
  }

  /** What the record at `p` adds to the children. */
  lemma KidsStep(mem: Memory, b: seq<Byte>, p: nat, next: nat, st: State, st1: State, levl: nat, idSize: nat, gvt: bool,
                 dir: bool,
                 rest: seq<int>)
    requires Passed(b, p, next, st, st1, levl, idSize, gvt, dir)
    requires rest == KidsFrom(mem, b, next, st1.count, levl, idSize, gvt, dir)
    ensures KidsFrom(mem, b, p, st.count, levl, idSize, gvt, dir)
      == (if levl > 0 || st1.dir then [ChildAt(mem, b, p, st1, levl, idSize)] else []) + rest
  {
    if IsStar(b, p, levl) {
      KidsFromStar(mem, b, p, next, st.count, st1.count, levl, idSize, gvt, dir);
    } else {
      KidsFromNext(mem, b, p, next, st.count, RawsFrom(b, SIZEOF_BLK_HDR, levl), st1, levl, idSize, gvt, dir);
    }
  }

  /** The checks on one child block number. */
  method CheckChild(child: int, prevChild: int, lim: Limits) returns (v: Verdict)
    requires lim.bplmap > 0
    ensures v.Good? <==> KidOk(child, prevChild, lim)
    ensures v == Bad(DBPTRMX) ==> child > lim.total && !lim.unbounded
    ensures v == Bad(DBPTRMAP) ==> child > 0 && child % lim.bplmap == 0
    ensures v == Bad(DBBDBALLOC) ==> child > 0 && child == prevChild
  {
    if child <= 0 {
      return Bad(DBPTRNOTPOS);
    }
    if child > lim.total && !lim.unbounded {
      return Bad(DBPTRMX);
    }
    if child % lim.bplmap == 0 {
      return Bad(DBPTRMAP);
    }
    if child == prevChild {
      return Bad(DBBDBALLOC);
    }
    return Good;
  }

  ghost predicate RecordsGood(b: seq<Byte>, levl: nat, idSize: nat, gvt: bool, dir: bool) {
    var raws := RawsFrom(b, SIZEOF_BLK_HDR, levl);
    Tiled(b, SIZEOF_BLK_HDR, levl, idSize) && CheckAll(raws, |raws|, levl, idSize, gvt, dir).Ok?
  }

  /** A broken record, or a star record that is not one. */
  lemma Broken(b: seq<Byte>, p: nat, st: State, levl: nat, idSize: nat, gvt: bool, dir: bool)
    requires p < |b| && Reached(b, p, st, levl, idSize, gvt, dir)
    requires !Whole(b, p) || (IsStar(b, p, levl) && !(RecSize(b, p) == SIZEOF_REC_HDR + idSize && Cmpc(b, p) == 0))
    ensures !RecordsGood(b, levl, idSize, gvt, dir)
  {
  }

  lemma StarReached(b: seq<Byte>, p: nat, st: State, levl: nat, idSize: nat, gvt: bool, dir: bool)
    requires p < |b| && Reached(b, p, st, levl, idSize, gvt, dir) && Whole(b, p) && IsStar(b, p, levl)
    requires RecSize(b, p) == SIZEOF_REC_HDR + idSize && Cmpc(b, p) == 0
    ensures Reached(b, |b|, st, levl, idSize, gvt, dir)
  {
  }

  /** The end of the block. */
  lemma ReachedEnd(b: seq<Byte>, p: nat, st: State, levl: nat, idSize: nat, gvt: bool, dir: bool)
    requires p >= |b| && Reached(b, p, st, levl, idSize, gvt, dir)
    ensures RecordsGood(b, levl, idSize, gvt, dir)
  {
  }

  /** One record. */
  method CertRecord(b: seq<Byte>, p: nat, st: State, levl: nat, idSize: nat, gvt: bool, dir: bool)
    returns (v: Verdict, next: nat, st1: State)
    requires p < |b| && Reached(b, p, st, levl, idSize, gvt, dir) && Usable(st)
    ensures v.Bad? ==> !RecordsGood(b, levl, idSize, gvt, dir)
    ensures v.Good? ==> Passed(b, p, next, st, st1, levl, idSize, gvt, dir)
  {
    next, st1, v := p, st, Good;
    if !Whole(b, p) || (IsStar(b, p, levl) && !(RecSize(b, p) == SIZEOF_REC_HDR + idSize && Cmpc(b, p) == 0)) {
      Broken(b, p, st, levl, idSize, gvt, dir);
      v := Breakage(b, p, levl, idSize);
      return;
    }
    next := p + RecSize(b, p);
    if IsStar(b, p, levl) {
      StarReached(b, p, st, levl, idSize, gvt, dir);
    } else {
      v, st1 := CertKeyed(b, p, st, levl, idSize, gvt, dir);
    }
  }

  /** A whole record with a key. */
  method CertKeyed(b: seq<Byte>, p: nat, st: State, levl: nat, idSize: nat, gvt: bool, dir: bool)
    returns (v: Verdict, st1: State)
    requires p < |b| && Reached(b, p, st, levl, idSize, gvt, dir) && Usable(st) && Whole(b, p) && !IsStar(b, p, levl)
    ensures v.Bad? ==> !RecordsGood(b, levl, idSize, gvt, dir)
    ensures v.Good? ==>
      Reached(b, p + RecSize(b, p), st1, levl, idSize, gvt, dir) && Usable(st1) && st1.count == st.count + 1
  {
    var r := CheckRecord(st, Cmpc(b, p), b[p + SIZEOF_REC_HDR..p + RecSize(b, p)], levl, idSize);
    ReachedNext(b, p, st, r, levl, idSize, gvt, dir);
    if r.Fail? {
      return Bad(r.error), st;
    }
    return Good, r.st;
  }

  /** Which error a broken record or star record draws. */
  method Breakage(b: seq<Byte>, p: nat, levl: nat, idSize: nat) returns (v: Verdict)
    requires p < |b|
    requires !Whole(b, p) || (IsStar(b, p, levl) && !(RecSize(b, p) == SIZEOF_REC_HDR + idSize && Cmpc(b, p) == 0))
    ensures v.Bad?
    ensures v.error == DBSTARCMP ==> Whole(b, p) && Cmpc(b, p) != 0
    ensures v.error == DBSTARSIZ ==> Whole(b, p) && RecSize(b, p) != SIZEOF_REC_HDR + idSize
    ensures v.error == DBRSIZMN ==> p + SIZEOF_REC_HDR <= |b| && RecSize(b, p) <= SIZEOF_REC_HDR
  {
    if |b| - p < SIZEOF_REC_HDR {
      return Bad(DBRSIZMX);
    }
    if RecSize(b, p) <= SIZEOF_REC_HDR {
      return Bad(DBRSIZMN);
    }
    if RecSize(b, p) > |b| - p {
      return Bad(DBRSIZMX);
    }
    return Bad(if RecSize(b, p) != SIZEOF_REC_HDR + idSize then DBSTARSIZ else DBSTARCMP);
  }
}
