/** Writing a block from its keys, with record headers as SET_CMPC and the rec_hdr layout of sr_port/gdsblk.h have
    them, and what the certifier reads back from it. */
module BlockWrite {
  import opened Options
  import opened Bytes
  import opened KeyBlock
  import opened CertBlk

  const MAX_CMPC: nat := 1020
  const RSIZ_LIMIT: nat := 0x10000

  /** What follows a key: data, or a child block number and, in a directory, what is kept with it. */
  datatype Value = Data(bytes: seq<Byte>) | Child(id: int, extra: seq<Byte>)

  datatype Entry = Entry(key: Key, value: Value)

  /** SET_CMPC. */
  function EncCmpc(c: nat): seq<Byte>
    requires c <= MAX_CMPC
  {
    if c < 253 then [c, 0] else [253 + (c - 253) / 256, (c - 253) % 256]
  }

  /** The fields of the record header can hold the size and the count. */
  predicate Fits(r: Raw) {
    r.cmpc <= MAX_CMPC && r.body != [] && SIZEOF_REC_HDR + |r.body| < RSIZ_LIMIT
  }

  function EncRec(r: Raw): (s: seq<Byte>)
    requires Fits(r)
    ensures |s| == SIZEOF_REC_HDR + |r.body|
  {
    var size := SIZEOF_REC_HDR + |r.body|;
    [size % 256, size / 256] + EncCmpc(r.cmpc) + r.body
  }

  ghost predicate AllFit(raws: seq<Raw>) { forall i :: 0 <= i < |raws| ==> Fits(raws[i]) }

  ghost function EncRecs(raws: seq<Raw>): seq<Byte>
    requires AllFit(raws)
  {
    if raws == [] then [] else EncRec(raws[0]) + EncRecs(raws[1..])
  }

  /** A child block number in two's complement, low byte first. */
  function EncId(c: int, idSize: nat): (s: seq<Byte>)
    requires idSize == 4 || idSize == 8
    ensures |s| == idSize
  {
    if idSize == 8 then Le4(c % WORD) + Le4(c / WORD % WORD) else Le4(c % WORD)
  }

  predicate IdFits(c: int, idSize: nat) {
    if idSize == 8 then -WORD * WORD <= 2 * c < WORD * WORD else -WORD <= 2 * c < WORD
  }

  /** What ends a block: nothing in a data block, the star record in an index block. */
  function Ending(star: int, levl: nat, idSize: nat): seq<Byte>
    requires idSize == 4 || idSize == 8
  {
    if levl == 0 then [] else EncRec(Raw(0, EncId(star, idSize)))
  }

  // The headers and numbers are read as they were written.

  lemma HeaderReads(pre: seq<Byte>, r: Raw, post: seq<Byte>)
    requires Fits(r)
    ensures var b, p := pre + EncRec(r) + post, |pre|;
      Whole(b, p) && RecSize(b, p) == SIZEOF_REC_HDR + |r.body| && Cmpc(b, p) == r.cmpc && RawAt(b, p) == r
  {
    var b, p, e := pre + EncRec(r) + post, |pre|, EncRec(r);
    assert b[p] == e[0] && b[p + 1] == e[1] && b[p + 2] == e[2] && b[p + 3] == e[3];
    assert b[p + SIZEOF_REC_HDR..p + |e|] == r.body;
  }

  lemma SignedOf(c: int)
    requires -WORD <= 2 * c < WORD
    ensures Signed(c % WORD) == c
  {
  }

  /** Block numbers are read as they were written. */
  lemma IdReads(mem: Memory, q: int, c: int, idSize: nat)
    requires (idSize == 4 || idSize == 8) && IdFits(c, idSize)
    requires forall j :: 0 <= j < idSize ==> mem(q + j) == EncId(c, idSize)[j]
    ensures BlkId(mem, q, idSize) == c
  {
    var e := EncId(c, idSize);
    WordReads(mem, q, c % WORD, e, 0);
    if idSize == 8 {
      WordReads(mem, q, c / WORD % WORD, e, 4);
      var low, high := [mem(q), mem(q + 1), mem(q + 2), mem(q + 3)], [mem(q + 4), mem(q + 5), mem(q + 6), mem(q + 7)];
      assert Word(low) == c % WORD && Word(high) == c / WORD % WORD;
      LongId(c);
    } else {
      SignedOf(c);
    }
  }

  lemma LongId(c: int)
    requires -WORD * WORD <= 2 * c < WORD * WORD
    ensures c % WORD + WORD * Signed(c / WORD % WORD) == c
  {
    SignedOf(c / WORD);
  }

  lemma WordReads(mem: Memory, q: int, w: int, e: seq<Byte>, at: nat)
    requires 0 <= w < WORD && at + 4 <= |e| && e[at..at + 4] == Le4(w)
    requires forall j :: 0 <= j < |e| ==> mem(q + j) == e[j]
    ensures Word([mem(q + at), mem(q + (at + 1)), mem(q + (at + 2)), mem(q + (at + 3))]) == w
  {
    WordOfLe4(w);
    assert [mem(q + at), mem(q + (at + 1)), mem(q + (at + 2)), mem(q + (at + 3))] == e[at..at + 4];
  }

  // The records are read as they were written.

  /** The records from `p` on are `raws`, and are whole. */
  ghost predicate ReadAs(b: seq<Byte>, p: nat, raws: seq<Raw>, levl: nat, idSize: nat) {
    RawsFrom(b, p, levl) == raws && Tiled(b, p, levl, idSize)
  }

  /** A block with the records `raws` written from |pre| on. */
  lemma {:induction false} RecordsRead(b: seq<Byte>, pre: seq<Byte>, raws: seq<Raw>, star: int, levl: nat, idSize: nat)
    requires AllFit(raws) && (idSize == 4 || idSize == 8)
    requires b == pre + EncRecs(raws) + Ending(star, levl, idSize)
    ensures ReadAs(b, |pre|, raws, levl, idSize)
    decreases |raws|
  {
    var end := Ending(star, levl, idSize);
    if raws == [] {
      assert b == pre + end;
      EndingReads(pre, star, levl, idSize);
    } else {
      Split(pre, raws, end);
      var pre' := pre + EncRec(raws[0]);
      RecordsRead(b, pre', raws[1..], star, levl, idSize);
      RecordReads(b, pre, pre', raws, EncRecs(raws[1..]) + end, levl, idSize);
    }
  }

  /** The first of the records, if it is not the last thing in an index block. */
  lemma RecordReads(b: seq<Byte>, pre: seq<Byte>, pre': seq<Byte>, raws: seq<Raw>, post: seq<Byte>, levl: nat,
                    idSize: nat)
    requires raws != [] && Fits(raws[0]) && pre' == pre + EncRec(raws[0]) && b == pre' + post
    requires levl > 0 ==> post != []
    requires ReadAs(b, |pre'|, raws[1..], levl, idSize)
    ensures Whole(b, |pre|) && |pre'| == |pre| + RecSize(b, |pre|) && !IsStar(b, |pre|, levl)
    ensures RawAt(b, |pre|) == raws[0] && Cmpc(b, |pre|) == raws[0].cmpc && ReadAs(b, |pre|, raws, levl, idSize)
  {
    HeaderReads(pre, raws[0], post);
    assert raws == [raws[0]] + raws[1..];
  }

  lemma Split(pre: seq<Byte>, raws: seq<Raw>, end: seq<Byte>)
    requires raws != [] && AllFit(raws)
    ensures pre + EncRecs(raws) + end == pre + EncRec(raws[0]) + (EncRecs(raws[1..]) + end)
    ensures pre + EncRecs(raws) + end == pre + EncRec(raws[0]) + EncRecs(raws[1..]) + end
  {
  }

  lemma EndingReads(pre: seq<Byte>, star: int, levl: nat, idSize: nat)
    requires idSize == 4 || idSize == 8
    ensures var b, p := pre + Ending(star, levl, idSize), |pre|;
      && RawsFrom(b, p, levl) == [] && Tiled(b, p, levl, idSize)
      && (levl > 0 ==> Whole(b, p) && IsStar(b, p, levl) && RecSize(b, p) == SIZEOF_REC_HDR + idSize && Cmpc(b, p) == 0)
  {
    var b := pre + Ending(star, levl, idSize);
    if levl > 0 {
      HeaderReads(pre, Raw(0, EncId(star, idSize)), []);
      assert b == pre + Ending(star, levl, idSize) + [];
    }
  }

  // Keys and children.

  function ValueBytes(v: Value, idSize: nat): seq<Byte>
    requires idSize == 4 || idSize == 8
  {
    match v
    case Data(bytes) => bytes
    case Child(id, extra) => EncId(id, idSize) + extra
  }

  /** Entry `i` as a record: the key without what it shares with the one before, and the value. */
  function RawOf(entries: seq<Entry>, i: nat, idSize: nat): Raw
    requires i < |entries| && (idSize == 4 || idSize == 8)
  {
    var key := entries[i].key;
    var cmpc := if i == 0 then 0 else Common(entries[i - 1].key, key);
    Raw(cmpc, key[cmpc..] + ValueBytes(entries[i].value, idSize))
  }

  function Raws(entries: seq<Entry>, idSize: nat): (raws: seq<Raw>)
    requires idSize == 4 || idSize == 8
    ensures |raws| == |entries| && forall i :: 0 <= i < |raws| ==> raws[i] == RawOf(entries, i, idSize)
  {
    seq(|entries|, i requires 0 <= i < |entries| => RawOf(entries, i, idSize))
  }

  /** What is there to be written: terminated keys, in records that the headers can describe. */
  ghost predicate Writable(entries: seq<Entry>, idSize: nat) {
    && (idSize == 4 || idSize == 8) && AllFit(Raws(entries, idSize))
    && forall i :: 0 <= i < |entries| ==> EndsOnce(entries[i].key)
  }

  /** Two zero bytes at the end, and no two in a row before. */
  ghost predicate EndsOnce(k: Key) {
    |k| >= 2 && k[|k| - 2] == k[|k| - 1] == 0 && forall j :: 0 <= j < |k| - 2 ==> !(k[j] == 0 && k[j + 1] == 0)
  }

  lemma EndsTerminated(k: Key)
    requires EndsOnce(k)
    ensures Terminated(k)
  {
  }

  /** The written key is the one that is read. */
  lemma KeyRead(entries: seq<Entry>, idSize: nat, i: nat)
    requires Writable(entries, idSize) && i < |entries|
    ensures var raws := Raws(entries, idSize);
      KeyAt(raws, i) == entries[i].key && Term(StreamAt(raws, i), 0) >= 0
    decreases i
  {
    var raws, key, bytes := Raws(entries, idSize), entries[i].key, ValueBytes(entries[i].value, idSize);
    var prior: Key := [];
    if i > 0 {
      KeyRead(entries, idSize, i - 1);
      prior := entries[i - 1].key;
    }
    StreamOf(prior, key, bytes, raws[i]);
    EndsTerminated(key);
    WholePrior(key, bytes);
  }

  lemma StreamOf(prior: Key, key: Key, bytes: seq<Byte>, r: Raw)
    requires r.cmpc <= |key| && r.cmpc <= |prior| && prior[..r.cmpc] == key[..r.cmpc] && r.body == key[r.cmpc..] + bytes
    ensures Stream(prior, r) == key + bytes
  {
    assert key == key[..r.cmpc] + key[r.cmpc..];
  }

  /** The keys increase byte by byte, have at most 32 parts after the name, and the first one begins, in a data
      block, with a letter, a percent sign or, for triggers, a number sign. */
  ghost predicate KeysGood(entries: seq<Entry>, levl: nat) {
    && KeysIncrease(entries) && FewParts(entries)
    && (levl == 0 && entries != [] && entries[0].key != [] ==> BeginsName(entries[0].key[0]))
  }

  ghost predicate KeysIncrease(entries: seq<Entry>) {
    forall i, j :: 0 <= i < j < |entries| ==> Before(entries[i].key, entries[j].key)
  }

  /** Each part of a key ends with a zero byte, and the key with one more. */
  ghost predicate FewParts(entries: seq<Entry>) {
    forall i :: 0 <= i < |entries| ==> multiset(entries[i].key)[0] < 34
  }

  ghost predicate BeginsName(c: int) {
    'A' as int <= c <= 'Z' as int || 'a' as int <= c <= 'z' as int || c in {'%' as int, '#' as int}
  }

  ghost predicate Before(a: Key, b: Key) { exists n :: LessAt(a, b, n) }

  ghost predicate NameChanges(entries: seq<Entry>, n: nat)
    requires n <= |entries|
  {
    exists i :: 0 <= i < n && Name(entries[i].key) != Name(entries[0].key)
  }

  ghost predicate HasSubscripts(entries: seq<Entry>) {
    exists i :: 0 <= i < |entries| && multiset(entries[i].key)[0] > 2
  }

  /** The block is known to be of the directory tree. */
  ghost predicate OfDirectory(root: int, swap: Swap) {
    match swap
    case SwapNone => root == DIR_ROOT
    case SwapIncrRootCycle => false
    case SwapDirectory => true
  }

  /** The directory has names without subscripts; the tree of a global has one name; a block not known to be of
      either may be of one of them. */
  ghost predicate KindGood(entries: seq<Entry>, root: int, swap: Swap) {
    if OfDirectory(root, swap) then !HasSubscripts(entries)
    else if swap == SwapNone && root != 0 then !NameChanges(entries, |entries|)
    else !HasSubscripts(entries) || !NameChanges(entries, |entries|)
  }

  /** The records have the keys of the entries. */
  ghost predicate KeysAre(raws: seq<Raw>, entries: seq<Entry>) {
    |raws| == |entries| && forall i :: 0 <= i < |entries| ==> KeyAt(raws, i) == entries[i].key
  }

  lemma KindWritten(raws: seq<Raw>, entries: seq<Entry>, root: int, swap: Swap)
    requires KeysAre(raws, entries)
    ensures OneKind(raws, |raws|, IsGvt(root, swap), IsDirectory(root, swap)) <==> KindGood(entries, root, swap)
  {
    forall i | 0 <= i < |entries| ensures Subscripted(KeyAt(raws, i)) <==> multiset(entries[i].key)[0] > 2 {
      ZerosCount(entries[i].key);
    }
    assert AnySubscripted(raws, |raws|) <==> HasSubscripts(entries);
    NamesWritten(raws, entries, |raws|);
  }

  lemma NamesWritten(raws: seq<Raw>, entries: seq<Entry>, n: nat)
    requires KeysAre(raws, entries) && n <= |raws|
    ensures OneName(raws, n) <==> !NameChanges(entries, n)
  {
  }

  lemma OrderWritten(raws: seq<Raw>, entries: seq<Entry>, idSize: nat)
    requires KeysAre(raws, entries) && (idSize == 4 || idSize == 8) && raws == Raws(entries, idSize)
    ensures Ordered(raws, |raws|) <==> KeysIncrease(entries)
  {
    forall i, j | 0 <= i < j < |entries|
      ensures Less(KeyAt(raws, i), KeyAt(raws, j)) <==> Before(entries[i].key, entries[j].key)
    {
      LessByByte(entries[i].key, entries[j].key);
    }
    forall i | 0 < i < |raws| ensures raws[i].cmpc == Common(KeyAt(raws, i - 1), KeyAt(raws, i)) {
      assert raws[i] == RawOf(entries, i, idSize);
    }
  }

  lemma FitWritten(entries: seq<Entry>, idSize: nat, levl: nat, i: nat)
    requires Writable(entries, idSize) && i < |entries|
    requires levl > 0 ==> |ValueBytes(entries[i].value, idSize)| == idSize
    ensures KeyFits(Raws(entries, idSize), i, levl, idSize) <==> multiset(entries[i].key)[0] < 34
  {
    KeyRead(entries, idSize, i);
    ZerosCount(entries[i].key);
  }

  /** The keys as written are certified exactly when the keys are good. */
  lemma WrittenCertified(entries: seq<Entry>, idSize: nat, levl: nat, root: int, swap: Swap)
    requires Writable(entries, idSize)
    requires levl > 0 ==> forall i :: 0 <= i < |entries| ==> |ValueBytes(entries[i].value, idSize)| == idSize
    ensures Certified(Raws(entries, idSize), |entries|, levl, idSize, IsGvt(root, swap), IsDirectory(root, swap))
      <==> KeysGood(entries, levl) && KindGood(entries, root, swap)
  {
    var raws := Raws(entries, idSize);
    WrittenKeys(entries, idSize);
    KindWritten(raws, entries, root, swap);
    OrderWritten(raws, entries, idSize);
    FitsWritten(entries, idSize, levl);
    if entries != [] {
      FirstWritten(entries, idSize);
    }
  }

  lemma FitsWritten(entries: seq<Entry>, idSize: nat, levl: nat)
    requires Writable(entries, idSize)
    requires levl > 0 ==> forall i :: 0 <= i < |entries| ==> |ValueBytes(entries[i].value, idSize)| == idSize
    ensures FewParts(entries) <==> forall i :: 0 <= i < |entries| ==> KeyFits(Raws(entries, idSize), i, levl, idSize)
  {
    forall i | 0 <= i < |entries|
      ensures KeyFits(Raws(entries, idSize), i, levl, idSize) <==> multiset(entries[i].key)[0] < 34
    {
      FitWritten(entries, idSize, levl, i);
    }
  }

  lemma FirstWritten(entries: seq<Entry>, idSize: nat)
    requires Writable(entries, idSize) && entries != []
    ensures var r, key := Raws(entries, idSize)[0], entries[0].key;
      r.cmpc == 0 && r.body != [] && key != [] && (ValidFirstChar(r.body[0]) <==> BeginsName(key[0]))
  {
    assert Raws(entries, idSize)[0].body[0] == entries[0].key[0];
  }

  lemma WrittenKeys(entries: seq<Entry>, idSize: nat)
    requires Writable(entries, idSize)
    ensures KeysAre(Raws(entries, idSize), entries)
  {
    forall i | 0 <= i < |entries| ensures KeyAt(Raws(entries, idSize), i) == entries[i].key {
      KeyRead(entries, idSize, i);
    }
  }

  /** Entry `i` has a child that the certifier looks at: in an index block, or in a data block once it is known to
      be of the directory. */
  ghost predicate Listed(entries: seq<Entry>, i: nat, levl: nat, dir: bool)
    requires i < |entries|
  {
    levl > 0 || dir || NameChanges(entries, i + 1)
  }

  /** The children of the entries from `n` on, and of the star record. */
  ghost function Kids(entries: seq<Entry>, n: nat, star: int, levl: nat, dir: bool): seq<int>
    requires n <= |entries|
    decreases |entries| - n
  {
    if n == |entries| then (if levl > 0 then [star] else [])
    else KidIn(entries, n, levl, dir) + Kids(entries, n + 1, star, levl, dir)
  }

  ghost function KidIn(entries: seq<Entry>, n: nat, levl: nat, dir: bool): seq<int>
    requires n < |entries|
  {
    if Listed(entries, n, levl, dir) && entries[n].value.Child? then [entries[n].value.id] else []
  }

  /** What looks like a child is one, and its number can be written. */
  ghost predicate ChildrenFit(entries: seq<Entry>, star: int, levl: nat, idSize: nat, dir: bool) {
    && (levl > 0 ==> IdFits(star, idSize))
    && forall i :: 0 <= i < |entries| ==> ChildFits(entries, i, levl, idSize, dir)
  }

  ghost predicate ChildFits(entries: seq<Entry>, i: nat, levl: nat, idSize: nat, dir: bool)
    requires i < |entries|
  {
    var v := entries[i].value;
    && (Listed(entries, i, levl, dir) ==> v.Child? && IdFits(v.id, idSize))
    && (levl > 0 ==> v.Child? && v.extra == [])
  }

  /** The memory has the block in it. */
  ghost predicate Holds(mem: Memory, b: seq<Byte>) {
    forall q :: 0 <= q < |b| ==> mem(q) == b[q]
  }

  /** A number written at `q` of the block is read there. */
  lemma IdInBlock(mem: Memory, b: seq<Byte>, pre: seq<Byte>, c: int, post: seq<Byte>, idSize: nat)
    requires Holds(mem, b) && (idSize == 4 || idSize == 8) && IdFits(c, idSize) && b == pre + EncId(c, idSize) + post
    ensures BlkId(mem, |pre|, idSize) == c
  {
    forall j | 0 <= j < idSize ensures mem(|pre| + j) == EncId(c, idSize)[j] {
      assert mem(|pre| + j) == b[|pre| + j];
    }
    IdReads(mem, |pre|, c, idSize);
  }

  /** The star record's child. */
  lemma StarRead(mem: Memory, b: seq<Byte>, pre: seq<Byte>, star: int, levl: nat, idSize: nat)
    requires (idSize == 4 || idSize == 8) && IdFits(star, idSize) && Holds(mem, b) && levl > 0
    requires b == pre + Ending(star, levl, idSize)
    ensures BlkId(mem, |pre| + SIZEOF_REC_HDR, idSize) == star
  {
    var end := Ending(star, levl, idSize);
    assert end == end[..SIZEOF_REC_HDR] + EncId(star, idSize);
    IdInBlock(mem, b, pre + end[..SIZEOF_REC_HDR], star, [], idSize);
  }

  /** A record's child, after its key. */
  lemma ChildRead(mem: Memory, b: seq<Byte>, pre: seq<Byte>, entries: seq<Entry>, n: nat, post: seq<Byte>, idSize: nat)
    requires Writable(entries, idSize) && n < |entries| && Holds(mem, b)
    requires entries[n].value.Child? && IdFits(entries[n].value.id, idSize)
    requires b == pre + EncRec(RawOf(entries, n, idSize)) + post
    ensures var r := RawOf(entries, n, idSize);
      BlkId(mem, |pre| + SIZEOF_REC_HDR + |entries[n].key| - r.cmpc, idSize) == entries[n].value.id
  {
    var r, v := RawOf(entries, n, idSize), entries[n].value;
    var own := entries[n].key[r.cmpc..];
    var head := EncRec(r)[..SIZEOF_REC_HDR];
    assert EncRec(r) == head + (own + (EncId(v.id, idSize) + v.extra));
    Regroup(pre, head, own, EncId(v.id, idSize), v.extra, post);
    IdInBlock(mem, b, pre + head + own, v.id, v.extra + post, idSize);
  }

  lemma Regroup(pre: seq<Byte>, head: seq<Byte>, own: seq<Byte>, id: seq<Byte>, extra: seq<Byte>, post: seq<Byte>)
    ensures pre + (head + (own + (id + extra))) + post == pre + head + own + id + (extra + post)
  {
    assert head + (own + (id + extra)) == head + own + id + extra;
  }

  /** The checks pass over certified records, and know the kind of block from the keys. */
  lemma StateAfter(raws: seq<Raw>, entries: seq<Entry>, n: nat, levl: nat, idSize: nat, gvt: bool, dir: bool)
    requires KeysAre(raws, entries) && 0 < n <= |raws| && !(gvt && dir)
    requires Certified(raws, |raws|, levl, idSize, gvt, dir)
    ensures var r := CheckAll(raws, n, levl, idSize, gvt, dir);
      r.Ok? && r.st.prior == entries[n - 1].key && (r.st.dir <==> dir || NameChanges(entries, n))
  {
    CheckedIsCertified(raws, |raws|, levl, idSize, gvt, dir);
    CheckedIsCertified(raws, n, levl, idSize, gvt, dir);
    if CheckAll(raws, n, levl, idSize, gvt, dir).Fail? {
      FailSticks(raws, n, |raws|, levl, idSize, gvt, dir);
    }
    NamesWritten(raws, entries, n);
  }

  /** What record `n` adds to the children read. */
  lemma KidRead(mem: Memory, b: seq<Byte>, pre: seq<Byte>, pre': seq<Byte>, post: seq<Byte>, entries: seq<Entry>,
                n: nat, levl: nat, idSize: nat, gvt: bool, dir: bool)
    requires Writable(entries, idSize) && Holds(mem, b) && n < |entries| && ChildFits(entries, n, levl, idSize, dir)
    requires RawsFrom(b, SIZEOF_BLK_HDR, levl) == Raws(entries, idSize) && !(gvt && dir)
    requires Certified(Raws(entries, idSize), |entries|, levl, idSize, gvt, dir)
    requires pre' == pre + EncRec(RawOf(entries, n, idSize)) && b == pre' + post && (levl > 0 ==> post != [])
    ensures KidsFrom(mem, b, |pre|, n, levl, idSize, gvt, dir)
      == KidIn(entries, n, levl, dir) + KidsFrom(mem, b, |pre'|, n + 1, levl, idSize, gvt, dir)
  {
    var raws, r := Raws(entries, idSize), RawOf(entries, n, idSize);
    HeaderReads(pre, r, post);
    WrittenKeys(entries, idSize);
    StateAfter(raws, entries, n + 1, levl, idSize, gvt, dir);
    var st := CheckAll(raws, n + 1, levl, idSize, gvt, dir).st;
    KidAtRecord(mem, b, pre, post, entries, n, st, levl, idSize, dir);
    KidsFromNext(mem, b, |pre|, |pre'|, n, raws, st, levl, idSize, gvt, dir);
  }

  lemma KidAtRecord(mem: Memory, b: seq<Byte>, pre: seq<Byte>, post: seq<Byte>, entries: seq<Entry>, n: nat, st: State,
                    levl: nat, idSize: nat, dir: bool)
    requires Writable(entries, idSize) && Holds(mem, b) && n < |entries| && ChildFits(entries, n, levl, idSize, dir)
    requires b == pre + EncRec(RawOf(entries, n, idSize)) + post && Whole(b, |pre|)
    requires st.prior == entries[n].key && (st.dir <==> dir || NameChanges(entries, n + 1))
    ensures KidOf(mem, b, |pre|, st, levl, idSize) == KidIn(entries, n, levl, dir)
  {
    var r := RawOf(entries, n, idSize);
    HeaderReads(pre, r, post);
    if Listed(entries, n, levl, dir) {
      ChildRead(mem, b, pre, entries, n, post, idSize);
    }
    KidChosen(mem, b, |pre|, r.cmpc, entries, n, st, levl, idSize, dir);
  }

  lemma KidChosen(mem: Memory, b: seq<Byte>, p: nat, cmpc: nat, entries: seq<Entry>, n: nat, st: State, levl: nat,
                  idSize: nat, dir: bool)
    requires n < |entries| && Whole(b, p) && Cmpc(b, p) == cmpc
    requires st.prior == entries[n].key && (st.dir <==> dir || NameChanges(entries, n + 1))
    requires Listed(entries, n, levl, dir) ==> entries[n].value.Child?
    requires Listed(entries, n, levl, dir) ==>
      BlkId(mem, p + SIZEOF_REC_HDR + |entries[n].key| - cmpc, idSize) == entries[n].value.id
    ensures KidOf(mem, b, p, st, levl, idSize) == KidIn(entries, n, levl, dir)
  {
  }

  /** At the end of the records. */
  lemma KidsEnd(mem: Memory, b: seq<Byte>, pre: seq<Byte>, n: nat, star: int, levl: nat, idSize: nat, gvt: bool,
                dir: bool)
    requires (idSize == 4 || idSize == 8) && Holds(mem, b) && (levl > 0 ==> IdFits(star, idSize))
    requires b == pre + Ending(star, levl, idSize)
    ensures KidsFrom(mem, b, |pre|, n, levl, idSize, gvt, dir) == if levl > 0 then [star] else []
  {
    EndingReads(pre, star, levl, idSize);
    if levl > 0 {
      StarRead(mem, b, pre, star, levl, idSize);
    }
  }

  /** A written block whose keys are certified. */
  ghost predicate Written(mem: Memory, b: seq<Byte>, entries: seq<Entry>, raws: seq<Raw>, star: int, levl: nat,
                          idSize: nat, gvt: bool, dir: bool) {
    && Writable(entries, idSize) && Holds(mem, b) && raws == Raws(entries, idSize) && !(gvt && dir)
    && ChildrenFit(entries, star, levl, idSize, dir) && RawsFrom(b, SIZEOF_BLK_HDR, levl) == raws
    && Certified(raws, |entries|, levl, idSize, gvt, dir)
  }

  /** The children read from `p` on are those of the entries from `n` on. */
  ghost predicate KidsAgree(mem: Memory, b: seq<Byte>, p: nat, entries: seq<Entry>, n: nat, star: int, levl: nat,
                            idSize: nat, gvt: bool, dir: bool) {
    n <= |entries| && KidsFrom(mem, b, p, n, levl, idSize, gvt, dir) == Kids(entries, n, star, levl, dir)
  }

  lemma {:induction false} KidsRead(mem: Memory, b: seq<Byte>, pre: seq<Byte>, entries: seq<Entry>, raws: seq<Raw>,
                                    n: nat, star: int, levl: nat, idSize: nat, gvt: bool, dir: bool)
    requires Written(mem, b, entries, raws, star, levl, idSize, gvt, dir) && n <= |entries|
    requires b == pre + EncRecs(raws[n..]) + Ending(star, levl, idSize)
    ensures KidsAgree(mem, b, |pre|, entries, n, star, levl, idSize, gvt, dir)
    decreases |entries| - n
  {
    var end := Ending(star, levl, idSize);
    if n == |entries| {
      assert b == pre + end;
      KidsEnd(mem, b, pre, n, star, levl, idSize, gvt, dir);
    } else {
      var pre' := NextRead(mem, b, pre, entries, raws, n, star, levl, idSize, gvt, dir);
      KidsRead(mem, b, pre', entries, raws, n + 1, star, levl, idSize, gvt, dir);
    }
  }

  lemma NextRead(mem: Memory, b: seq<Byte>, pre: seq<Byte>, entries: seq<Entry>, raws: seq<Raw>, n: nat, star: int,
                 levl: nat, idSize: nat, gvt: bool, dir: bool)
    returns (pre': seq<Byte>)
    requires Written(mem, b, entries, raws, star, levl, idSize, gvt, dir) && n < |entries|
    requires b == pre + EncRecs(raws[n..]) + Ending(star, levl, idSize)
    ensures b == pre' + EncRecs(raws[n + 1..]) + Ending(star, levl, idSize)
    ensures KidsAgree(mem, b, |pre'|, entries, n + 1, star, levl, idSize, gvt, dir) ==>
      KidsAgree(mem, b, |pre|, entries, n, star, levl, idSize, gvt, dir)
  {
    var end := Ending(star, levl, idSize);
    Split(pre, raws[n..], end);
    assert raws[n..][1..] == raws[n + 1..] && raws[n..][0] == RawOf(entries, n, idSize);
    pre' := pre + EncRec(raws[n]);
    assert ChildFits(entries, n, levl, idSize, dir);
    KidRead(mem, b, pre, pre', EncRecs(raws[n + 1..]) + end, entries, n, levl, idSize, gvt, dir);
  }

  /** Block numbers within the database, of no bitmap, and no two in a row the same. */
  ghost predicate KidsAllowed(kids: seq<int>, lim: Limits)
    requires lim.bplmap > 0
  {
    forall i :: 0 <= i < |kids| ==>
      (&& 0 < kids[i] && (lim.unbounded || kids[i] <= lim.total) && kids[i] % lim.bplmap != 0
       && (i > 0 ==> kids[i] != kids[i - 1]))
  }

  lemma KidsChecked(kids: seq<int>, lim: Limits)
    requires lim.bplmap > 0
    ensures KidsGood(kids, lim) <==> KidsAllowed(kids, lim)
  {
    forall i | 0 <= i < |kids| && KidsGood(kids, lim)
      ensures 0 < kids[i] && (lim.unbounded || kids[i] <= lim.total) && kids[i] % lim.bplmap != 0
        && (i > 0 ==> kids[i] != kids[i - 1])
    {
      assert KidAt(kids, i, lim);
    }
  }

  /** The certifier accepts a written block exactly when its header is good, its keys increase and are of a kind
      that fits the block's place, and its children are good ones. */
  lemma WrittenAccepted(mem: Memory, head: seq<Byte>, entries: seq<Entry>, star: int, levl: nat, idSize: nat, blk: int,
                        root: int, maxSize: nat, swap: Swap, lim: Limits)
    requires lim.bplmap > 0 && |head| == SIZEOF_BLK_HDR && Writable(entries, idSize)
    requires levl > 0 ==> forall i :: 0 <= i < |entries| ==> |ValueBytes(entries[i].value, idSize)| == idSize
    requires KindGood(entries, root, swap) ==> ChildrenFit(entries, star, levl, idSize, OfDirectory(root, swap))
    requires Holds(mem, head + EncRecs(Raws(entries, idSize)) + Ending(star, levl, idSize))
    ensures var b := head + EncRecs(Raws(entries, idSize)) + Ending(star, levl, idSize);
      Acceptable(mem, b, levl, idSize, blk, root, maxSize, swap, lim) <==>
        (&& levl <= 7 && |b| <= maxSize && (levl == 0 ==> blk != 1 && blk != root)
         && KeysGood(entries, levl) && KindGood(entries, root, swap)
         && KidsAllowed(Kids(entries, 0, star, levl, OfDirectory(root, swap)), lim))
  {
    var raws := Raws(entries, idSize);
    var b := head + EncRecs(raws) + Ending(star, levl, idSize);
    RecordsRead(b, head, raws, star, levl, idSize);
    WrittenCertified(entries, idSize, levl, root, swap);
    KidsChecked(Kids(entries, 0, star, levl, OfDirectory(root, swap)), lim);
    if KeysGood(entries, levl) && KindGood(entries, root, swap) {
      assert raws[0..] == raws;
      KidsRead(mem, b, head, entries, raws, 0, star, levl, idSize, IsGvt(root, swap), IsDirectory(root, swap));
    }
  }
}
