/** The keys of a database block, as sr_port/cert_blk.c certifies them record by record, and what that
    says about the block as a whole. */
module KeyBlock {
  import opened Bytes

  type Key = seq<Byte>

  const DELIMITER: Byte := 0
  const MAX_GVSUBSCRIPTS: int := 32

  datatype Error = DBCMPNZRO | GVINVALID | DBSTARSIZ | DBSTARCMP | DBCMPMX | DBKEYMX | DBINVGBL | DBDIRTSUBSC
    | DBMAXNRSUBS | DBKEYMN | DBCMPBAD | DBKEYORD | DBRSIZMN | DBRSIZMX | DBBLEVMX | DBROOTBURN | DBBSIZMN | DBBSIZMX
    | DBPTRNOTPOS | DBPTRMX | DBPTRMAP | DBBDBALLOC

  /** A record with a key: its compression count and what follows its header. */
  datatype Raw = Raw(cmpc: nat, body: seq<Byte>)

  /** What is carried from record to record: the expanded prior key, the length of the name with its
      delimiter in the first key, the two kinds of block, and how many records there were. */
  datatype State = State(prior: Key, minCmpc: nat, gvt: bool, dir: bool, count: nat)

  datatype Result = Ok(st: State) | Fail(error: Error)

  // The order of keys.

  /** The length of the common prefix. */
  function Common(a: Key, b: Key): (n: nat)
    ensures n <= |a| && n <= |b| && a[..n] == b[..n]
    ensures n < |a| && n < |b| ==> a[n] != b[n]
  {
    if a == [] || b == [] || a[0] != b[0] then 0
    else
      assert a == [a[0]] + a[1..] && b == [b[0]] + b[1..];
      1 + Common(a[1..], b[1..])
  }

  /** Bytewise order. */
  predicate Less(a: Key, b: Key) {
    var n := Common(a, b);
    n < |b| && (n == |a| || a[n] < b[n])
  }

  lemma CommonIs(a: Key, b: Key, n: nat)
    requires n <= |a| && n <= |b| && a[..n] == b[..n]
    requires n == |a| || n == |b| || a[n] != b[n]
    ensures Common(a, b) == n
  {
    var m := Common(a, b);
    assert forall j :: 0 <= j < n ==> a[j] == a[..n][j] == b[..n][j] == b[j];
    assert forall j :: 0 <= j < m ==> a[j] == a[..m][j] == b[..m][j] == b[j];
  }

  lemma LessTransitive(a: Key, b: Key, c: Key)
    requires Less(a, b) && Less(b, c)
    ensures Less(a, c)
  {
    var m, n := Common(a, b), Common(b, c);
    var k := if m <= n then m else n;
    assert a[..k] == a[..m][..k] == b[..m][..k] == b[..k];
    assert c[..k] == c[..n][..k] == b[..n][..k] == b[..k];
    assert m < n ==> b[m] == b[..n][m] == c[..n][m];
    assert n < m ==> b[n] == b[..m][n] == a[..m][n];
    CommonIs(a, c, k);
  }

  /** The keys agree up to `n`, where `a` ends or has the lesser byte. */
  ghost predicate LessAt(a: Key, b: Key, n: int) {
    0 <= n <= |a| && n < |b| && a[..n] == b[..n] && (n == |a| || a[n] < b[n])
  }

  /** Keys are in the order of their first difference, a key before those it begins. */
  lemma LessByByte(a: Key, b: Key)
    ensures Less(a, b) <==> exists n :: LessAt(a, b, n)
  {
    assert Less(a, b) ==> LessAt(a, b, Common(a, b));
    if n :| LessAt(a, b, n) {
      CommonIs(a, b, n);
    }
  }

  // Terminators.

  /** A double delimiter at `j`. */
  predicate Double(s: seq<Byte>, j: int) {
    0 <= j && j + 2 <= |s| && s[j] == DELIMITER && s[j + 1] == DELIMITER
  }

  /** A double delimiter at the end and nowhere else. */
  ghost predicate Terminated(k: Key) {
    Double(k, |k| - 2) && forall j :: 0 <= j < |k| - 2 ==> !Double(k, j)
  }

  /** The first double delimiter from `j` on, or -1. */
  function Term(s: seq<Byte>, j: nat): (e: int)
    requires j <= |s|
    ensures e == -1 || (j <= e && Double(s, e))
    ensures forall i :: j <= i && (e == -1 || i < e) ==> !Double(s, i)
    decreases |s| - j
  {
    if j == |s| then -1 else if Double(s, j) then j else Term(s, j + 1)
  }

  /** The bytes a record stands for: the shared part of the prior key and its own. */
  function Stream(prior: Key, raw: Raw): seq<Byte> {
    (if raw.cmpc <= |prior| then prior[..raw.cmpc] else prior) + raw.body
  }

  /** The key at the head of a stream. */
  function KeyOf(s: seq<Byte>): Key {
    if Term(s, 0) < 0 then s else s[..Term(s, 0) + 2]
  }

  /** The expanded key of record `i`. */
  function KeyAt(raws: seq<Raw>, i: nat): Key
    requires i < |raws|
    decreases i
  {
    KeyOf(StreamAt(raws, i))
  }

  function StreamAt(raws: seq<Raw>, i: nat): seq<Byte>
    requires i < |raws|
    decreases i, 0
  {
    Stream(if i == 0 then [] else KeyAt(raws, i - 1), raws[i])
  }

  function Zeros(s: seq<Byte>): (n: nat)
    ensures n <= |s|
  {
    if s == [] then 0 else (if s[0] == DELIMITER then 1 else 0) + Zeros(s[1..])
  }

  lemma {:induction false} ZerosCount(s: seq<Byte>)
    ensures Zeros(s) == multiset(s)[0]
  {
    if s != [] {
      ZerosCount(s[1..]);
      assert s == [s[0]] + s[1..];
    }
  }

  /** The global name: up to the first delimiter. */
  function Name(k: Key): (n: Key)
    ensures |n| <= |k| && n == k[..|n|]
    ensures forall j :: 0 <= j < |n| ==> n[j] != DELIMITER
    ensures |n| < |k| ==> k[|n|] == DELIMITER
  {
    if k == [] || k[0] == DELIMITER then [] else
      assert k == [k[0]] + k[1..];
      [k[0]] + Name(k[1..])
  }

  /** More delimiters than name and terminator need. */
  predicate Subscripted(k: Key) { Zeros(k) > 2 }

  predicate ValidFirstChar(c: Byte) {
    65 <= c <= 90 || 97 <= c <= 122 || c == 37 || c == 35
  }

  // The whole block.

  /** Record `i` has its terminator, fits its record and has few enough subscripts. */
  ghost predicate KeyFits(raws: seq<Raw>, i: nat, levl: nat, idSize: nat)
    requires i < |raws|
  {
    && Term(StreamAt(raws, i), 0) >= 0
    && Zeros(KeyAt(raws, i)) - 2 < MAX_GVSUBSCRIPTS
    && (levl > 0 ==> |KeyAt(raws, i)| + idSize == raws[i].cmpc + |raws[i].body|)
  }

  /** The keys increase and the compression counts are exact, over the first `n` records. */
  ghost predicate Ordered(raws: seq<Raw>, n: nat)
    requires n <= |raws|
  {
    Increasing(raws, n) && forall i :: 0 < i < n ==> raws[i].cmpc == Common(KeyAt(raws, i - 1), KeyAt(raws, i))
  }

  ghost predicate Increasing(raws: seq<Raw>, n: nat)
    requires n <= |raws|
  {
    forall i, j :: 0 <= i < j < n ==> Less(KeyAt(raws, i), KeyAt(raws, j))
  }

  ghost predicate AnySubscripted(raws: seq<Raw>, n: nat)
    requires n <= |raws|
  {
    exists i :: 0 <= i < n && Subscripted(KeyAt(raws, i))
  }

  ghost predicate OneName(raws: seq<Raw>, n: nat)
    requires n <= |raws|
  {
    forall i :: 0 <= i < n ==> Name(KeyAt(raws, i)) == Name(KeyAt(raws, 0))
  }

  /** A block of a global variable tree has one name; a directory block has no subscripts. */
  ghost predicate OneKind(raws: seq<Raw>, n: nat, gvt: bool, dir: bool)
    requires n <= |raws|
  {
    !((gvt || AnySubscripted(raws, n)) && (dir || !OneName(raws, n)))
  }

  /** What certification is to guarantee of the records with keys. */
  ghost predicate Certified(raws: seq<Raw>, n: nat, levl: nat, idSize: nat, gvt: bool, dir: bool)
    requires n <= |raws|
  {
    && (n > 0 ==> raws[0].cmpc == 0 && (levl == 0 ==> raws[0].body != [] && ValidFirstChar(raws[0].body[0])))
    && (forall i :: 0 <= i < n ==> KeyFits(raws, i, levl, idSize))
    && Ordered(raws, n) && OneKind(raws, n, gvt, dir)
  }

  // The checks, record by record.

  /** The checks on one record with a key; they look only at the prior key. */
  function Check(st: State, raw: Raw, levl: nat, idSize: nat): Result
    requires st.count > 0 ==> st.prior != []
  {
    var first := st.count == 0;
    if first && raw.cmpc != 0 then Fail(DBCMPNZRO)
    else if first && levl == 0 && !(raw.body != [] && ValidFirstChar(raw.body[0])) then Fail(GVINVALID)
    else if raw.cmpc != 0 && raw.cmpc >= |st.prior| then Fail(DBCMPMX)
    else
      var shared := st.prior[..raw.cmpc];
      var e := Term(shared + raw.body, if raw.cmpc == 0 then 0 else raw.cmpc - 1);
      if e < 0 then Fail(DBKEYMX)
      else CheckKey(st, raw, (shared + raw.body)[..e + 2], levl, idSize)
  }

  /** The checks once the key of the record is known. */
  function CheckKey(st: State, raw: Raw, key: Key, levl: nat, idSize: nat): Result
    requires st.count > 0 ==> raw.cmpc < |st.prior| && raw.body != []
  {
    var first := st.count == 0;
    var minCmpc := if st.minCmpc == 0 then |Name(key)| + 1 else st.minCmpc;
    var change := !first && raw.cmpc < minCmpc;
    if change && st.gvt then Fail(DBINVGBL)
    else
      var dir := st.dir || change;
      if Subscripted(key) && dir then Fail(DBDIRTSUBSC)
      else if MAX_GVSUBSCRIPTS <= Zeros(key) - 2 then Fail(DBMAXNRSUBS)
      else if levl > 0 && |key| + idSize != raw.cmpc + |raw.body| then Fail(DBKEYMN)
      else if !first && st.prior[raw.cmpc] == raw.body[0] then Fail(DBCMPBAD)
      else if !first && st.prior[raw.cmpc] > raw.body[0] then Fail(DBKEYORD)
      else Ok(State(key, minCmpc, st.gvt || Subscripted(key), dir, st.count + 1))
  }

  /** The carried state is right for the first `n` records. */
  ghost predicate StateOf(st: State, raws: seq<Raw>, n: nat, gvt: bool, dir: bool)
    requires n <= |raws|
  {
    && st.count == n
    && (n == 0 ==> st == State([], 0, gvt, dir, 0))
    && (n > 0 ==> st.prior == KeyAt(raws, n - 1) && Terminated(st.prior) && st.minCmpc == |Name(KeyAt(raws, 0))| + 1)
    && (st.gvt <==> gvt || AnySubscripted(raws, n))
    && (st.dir <==> dir || !OneName(raws, n))
  }

  /** The scan that starts at the last shared byte finds what a scan of the whole key finds. */
  lemma TermShared(prior: Key, cmpc: nat, body: seq<Byte>)
    requires cmpc <= |prior| && (cmpc > 0 ==> Terminated(prior) && cmpc < |prior|)
    ensures Term(prior[..cmpc] + body, 0) == Term(prior[..cmpc] + body, if cmpc == 0 then 0 else cmpc - 1)
  {
    var s := prior[..cmpc] + body;
    forall i | 0 <= i < cmpc - 1 ensures !Double(s, i) {
      assert s[i] == prior[i] && s[i + 1] == prior[i + 1];
      assert !Double(prior, i);
    }
  }

  /** The key at the head of a stream ends with its only terminator. */
  lemma KeyTerminated(s: seq<Byte>)
    requires Term(s, 0) >= 0
    ensures Terminated(KeyOf(s))
  {
    var e := Term(s, 0);
    var k := s[..e + 2];
    forall j | 0 <= j < |k| - 2 ensures !Double(k, j) {
      assert !Double(s, j);
    }
  }

  /** Equality on the shared part and a difference after it: exactness and order are one comparison. */
  lemma SharedThenDiffers(prior: Key, key: Key, cmpc: nat)
    requires cmpc < |prior| && cmpc < |key| && prior[..cmpc] == key[..cmpc]
    ensures Common(prior, key) == cmpc <==> prior[cmpc] != key[cmpc]
    ensures prior[cmpc] != key[cmpc] ==> (Less(prior, key) <==> prior[cmpc] < key[cmpc])
  {
    if prior[cmpc] != key[cmpc] {
      CommonIs(prior, key, cmpc);
    }
  }

  /** A key that begins with all of another one is that one. */
  lemma WholePrior(prior: Key, body: seq<Byte>)
    requires Terminated(prior)
    ensures KeyOf(prior + body) == prior && Term(prior + body, 0) == |prior| - 2
  {
    var s := prior + body;
    forall i | 0 <= i < |prior| - 2 ensures !Double(s, i) {
      assert s[i] == prior[i] && s[i + 1] == prior[i + 1];
      assert !Double(prior, i);
    }
    assert Double(s, |prior| - 2);
    assert s[..|prior|] == prior;
  }

  /** Names of neighbours agree exactly when the exact shared part covers name and delimiter. */
  lemma SameName(a: Key, b: Key)
    requires Terminated(a) && Terminated(b)
    ensures Name(a) == Name(b) <==> Common(a, b) > |Name(a)|
  {
    NameInside(a);
    NameInside(b);
    if Common(a, b) > |Name(a)| {
      LongCommon(a, b);
    }
    if Name(a) == Name(b) {
      EqualNames(a, b);
    }
  }

  lemma EqualNames(a: Key, b: Key)
    requires Name(a) == Name(b) && |Name(a)| < |a| && |Name(b)| < |b|
    ensures Common(a, b) > |Name(a)|
  {
    var m := |Name(a)|;
    assert forall j :: 0 <= j < m ==> a[j] == Name(a)[j] == b[j];
  }

  lemma LongCommon(a: Key, b: Key)
    requires Common(a, b) > |Name(a)| && |Name(a)| < |a|
    ensures Name(b) == Name(a)
  {
    var n, m := Common(a, b), |Name(a)|;
    assert forall j :: 0 <= j < n ==> a[j] == a[..n][j] == b[..n][j] == b[j];
    assert forall j :: 0 <= j < m ==> Name(a)[j] == a[j] == b[j];
    NameIs(b, m);
    assert b[..m] == a[..m];
  }

  lemma NameInside(k: Key)
    requires Terminated(k)
    ensures |Name(k)| < |k| - 1
  {
    assert forall j :: 0 <= j < |Name(k)| ==> Name(k)[j] == k[j];
    assert Double(k, |k| - 2);
  }

  lemma NameIs(k: Key, m: nat)
    requires m < |k| && k[m] == DELIMITER && forall j :: 0 <= j < m ==> k[j] != DELIMITER
    ensures Name(k) == k[..m]
  {
    var n := Name(k);
    assert forall j :: 0 <= j < |n| ==> n[j] == k[j];
  }

  lemma OrderedNext(raws: seq<Raw>, n: nat)
    requires n < |raws| && Ordered(raws, n)
    ensures Ordered(raws, n + 1) <==>
      (n > 0 ==> Less(KeyAt(raws, n - 1), KeyAt(raws, n)) && raws[n].cmpc == Common(KeyAt(raws, n - 1), KeyAt(raws, n)))
  {
    IncreasingNext(raws, n);
  }

  lemma IncreasingNext(raws: seq<Raw>, n: nat)
    requires n < |raws| && Increasing(raws, n)
    ensures Increasing(raws, n + 1) <==> (n > 0 ==> Less(KeyAt(raws, n - 1), KeyAt(raws, n)))
  {
    if n > 0 && Less(KeyAt(raws, n - 1), KeyAt(raws, n)) {
      var last, key := KeyAt(raws, n - 1), KeyAt(raws, n);
      forall i | 0 <= i < n - 1 ensures Less(KeyAt(raws, i), key) {
        LessTransitive(KeyAt(raws, i), last, key);
      }
    }
  }

  lemma SubscriptedNext(raws: seq<Raw>, n: nat)
    requires n < |raws|
    ensures AnySubscripted(raws, n + 1) <==> AnySubscripted(raws, n) || Subscripted(KeyAt(raws, n))
  {
  }

  /** The shape of the key of record `n` when its shared part is shorter than the prior key. */
  lemma NextKey(raws: seq<Raw>, n: nat, st: State, gvt: bool, dir: bool)
    requires n < |raws| && StateOf(st, raws, n, gvt, dir)
    requires raws[n].cmpc == 0 || raws[n].cmpc < |st.prior|
    ensures var cmpc := raws[n].cmpc;
      var s := st.prior[..cmpc] + raws[n].body;
      var e := Term(s, if cmpc == 0 then 0 else cmpc - 1);
      && StreamAt(raws, n) == s && Term(s, 0) == e
      && (e >= 0 ==> e + 2 > cmpc && raws[n].body != [] && KeyAt(raws, n) == s[..e + 2] && Terminated(s[..e + 2]))
      && (e >= 0 ==> s[..e + 2][..cmpc] == st.prior[..cmpc] && s[..e + 2][cmpc] == raws[n].body[0])
  {
    var cmpc := raws[n].cmpc;
    var s := st.prior[..cmpc] + raws[n].body;
    TermShared(st.prior, cmpc, raws[n].body);
    if Term(s, 0) >= 0 {
      KeyTerminated(s);
    }
  }

  /** A count that reaches the end of the prior key breaks the order. */
  lemma WholePriorDisordered(raws: seq<Raw>, n: nat, st: State, gvt: bool, dir: bool)
    requires 0 < n < |raws| && StateOf(st, raws, n, gvt, dir) && raws[n].cmpc >= |st.prior|
    ensures !Ordered(raws, n + 1)
  {
    WholePrior(st.prior, raws[n].body);
    assert st.prior[..|st.prior|] == st.prior;
    assert KeyAt(raws, n) == KeyAt(raws, n - 1);
    assert !Less(KeyAt(raws, n - 1), KeyAt(raws, n));
  }

  /** A name changes exactly where the exact count is shorter than the first name and its delimiter. */
  lemma NameNext(raws: seq<Raw>, n: nat, st: State, gvt: bool, dir: bool)
    requires 0 < n < |raws| && StateOf(st, raws, n, gvt, dir) && Terminated(KeyAt(raws, n))
    requires raws[n].cmpc == Common(KeyAt(raws, n - 1), KeyAt(raws, n))
    ensures dir || !OneName(raws, n + 1) <==> st.dir || raws[n].cmpc < st.minCmpc
  {
    var a, b := KeyAt(raws, n - 1), KeyAt(raws, n);
    SameName(a, b);
    OneNameNext(raws, n);
    if OneName(raws, n) {
      assert Name(a) == Name(KeyAt(raws, 0));
    }
  }

  lemma OneNameNext(raws: seq<Raw>, n: nat)
    requires n < |raws|
    ensures OneName(raws, n + 1) <==> OneName(raws, n) && Name(KeyAt(raws, n)) == Name(KeyAt(raws, 0))
  {
  }

  /** What one more record must do to be certified. */
  ghost predicate Joins(raws: seq<Raw>, n: nat, levl: nat, idSize: nat, gvt: bool, dir: bool)
    requires n < |raws|
  {
    && (n == 0 ==> raws[0].cmpc == 0 && (levl == 0 ==> raws[0].body != [] && ValidFirstChar(raws[0].body[0])))
    && KeyFits(raws, n, levl, idSize)
    && (n > 0 ==>
          Less(KeyAt(raws, n - 1), KeyAt(raws, n)) && raws[n].cmpc == Common(KeyAt(raws, n - 1), KeyAt(raws, n)))
    && OneKind(raws, n + 1, gvt, dir)
  }

  lemma CertifiedNext(raws: seq<Raw>, n: nat, levl: nat, idSize: nat, gvt: bool, dir: bool)
    requires n < |raws| && Certified(raws, n, levl, idSize, gvt, dir)
    ensures Certified(raws, n + 1, levl, idSize, gvt, dir) <==> Joins(raws, n, levl, idSize, gvt, dir)
  {
    OrderedNext(raws, n);
  }

  /** The check on one more record decides whether one more record is certified. */
  lemma CheckNext(raws: seq<Raw>, n: nat, st: State, levl: nat, idSize: nat, gvt: bool, dir: bool)
    requires n < |raws| && StateOf(st, raws, n, gvt, dir) && Certified(raws, n, levl, idSize, gvt, dir)
    ensures Check(st, raws[n], levl, idSize).Ok? <==> Certified(raws, n + 1, levl, idSize, gvt, dir)
    ensures Check(st, raws[n], levl, idSize).Ok? ==> StateOf(Check(st, raws[n], levl, idSize).st, raws, n + 1, gvt, dir)
  {
    CertifiedNext(raws, n, levl, idSize, gvt, dir);
    if n == 0 {
      CheckFirst(raws, st, levl, idSize, gvt, dir);
    } else if raws[n].cmpc >= |st.prior| {
      OrderedNext(raws, n);
      WholePriorDisordered(raws, n, st, gvt, dir);
    } else {
      CheckLater(raws, n, st, levl, idSize, gvt, dir);
    }
  }

  lemma CheckFirst(raws: seq<Raw>, st: State, levl: nat, idSize: nat, gvt: bool, dir: bool)
    requires 0 < |raws| && StateOf(st, raws, 0, gvt, dir) && OneKind(raws, 0, gvt, dir)
    ensures Check(st, raws[0], levl, idSize).Ok? <==> Joins(raws, 0, levl, idSize, gvt, dir)
    ensures Check(st, raws[0], levl, idSize).Ok? ==> StateOf(Check(st, raws[0], levl, idSize).st, raws, 1, gvt, dir)
  {
    if raws[0].cmpc == 0 {
      NextKey(raws, 0, st, gvt, dir);
      if Term(StreamAt(raws, 0), 0) >= 0 {
        if levl == 0 ==> raws[0].body != [] && ValidFirstChar(raws[0].body[0]) {
          FirstJoins(raws, st, levl, idSize, gvt, dir);
        }
        FirstState(raws, st, levl, idSize, gvt, dir);
      }
    }
  }

  lemma FirstJoins(raws: seq<Raw>, st: State, levl: nat, idSize: nat, gvt: bool, dir: bool)
    requires 0 < |raws| && StateOf(st, raws, 0, gvt, dir) && OneKind(raws, 0, gvt, dir) && raws[0].cmpc == 0
    requires Term(StreamAt(raws, 0), 0) >= 0
    requires levl == 0 ==> raws[0].body != [] && ValidFirstChar(raws[0].body[0])
    ensures CheckKey(st, raws[0], KeyAt(raws, 0), levl, idSize).Ok? <==> Joins(raws, 0, levl, idSize, gvt, dir)
  {
    SubscriptedNext(raws, 0);
    OneNameNext(raws, 0);
  }

  lemma FirstState(raws: seq<Raw>, st: State, levl: nat, idSize: nat, gvt: bool, dir: bool)
    requires 0 < |raws| && StateOf(st, raws, 0, gvt, dir) && raws[0].cmpc == 0 && Terminated(KeyAt(raws, 0))
    ensures CheckKey(st, raws[0], KeyAt(raws, 0), levl, idSize).Ok? ==>
      StateOf(CheckKey(st, raws[0], KeyAt(raws, 0), levl, idSize).st, raws, 1, gvt, dir)
  {
    SubscriptedNext(raws, 0);
    OneNameNext(raws, 0);
  }

  lemma CheckLater(raws: seq<Raw>, n: nat, st: State, levl: nat, idSize: nat, gvt: bool, dir: bool)
    requires 0 < n < |raws| && StateOf(st, raws, n, gvt, dir) && OneKind(raws, n, gvt, dir)
    requires raws[n].cmpc < |st.prior|
    ensures Check(st, raws[n], levl, idSize).Ok? <==> Joins(raws, n, levl, idSize, gvt, dir)
    ensures Check(st, raws[n], levl, idSize).Ok? ==> StateOf(Check(st, raws[n], levl, idSize).st, raws, n + 1, gvt, dir)
  {
    NextKey(raws, n, st, gvt, dir);
    if Term(StreamAt(raws, n), 0) >= 0 {
      var key := KeyAt(raws, n);
      var r := CheckKey(st, raws[n], key, levl, idSize);
      assert Check(st, raws[n], levl, idSize) == r;
      FoundJoins(raws, n, st, key, levl, idSize, gvt, dir);
      if r.Ok? {
        FoundState(raws, n, st, key, levl, idSize, gvt, dir);
      }
    }
  }

  /** The key of record `n` is `key`, and shares exactly the counted bytes, at least, with the prior one. */
  ghost predicate Found(raws: seq<Raw>, n: nat, st: State, key: Key)
    requires n < |raws|
  {
    && 0 < n && key == KeyAt(raws, n) && Term(StreamAt(raws, n), 0) >= 0 && Terminated(key) && raws[n].body != []
    && raws[n].cmpc < |st.prior| && raws[n].cmpc < |key|
    && key[..raws[n].cmpc] == st.prior[..raws[n].cmpc] && key[raws[n].cmpc] == raws[n].body[0]
  }

  lemma FoundJoins(raws: seq<Raw>, n: nat, st: State, key: Key, levl: nat, idSize: nat, gvt: bool, dir: bool)
    requires n < |raws| && StateOf(st, raws, n, gvt, dir) && OneKind(raws, n, gvt, dir) && Found(raws, n, st, key)
    ensures CheckKey(st, raws[n], key, levl, idSize).Ok? <==> Joins(raws, n, levl, idSize, gvt, dir)
  {
    SharedThenDiffers(st.prior, key, raws[n].cmpc);
    if st.prior[raws[n].cmpc] < raws[n].body[0] {
      GreaterJoins(raws, n, st, key, levl, idSize, gvt, dir);
    }
  }

  lemma GreaterJoins(raws: seq<Raw>, n: nat, st: State, key: Key, levl: nat, idSize: nat, gvt: bool, dir: bool)
    requires n < |raws| && StateOf(st, raws, n, gvt, dir) && OneKind(raws, n, gvt, dir) && Found(raws, n, st, key)
    requires st.prior[raws[n].cmpc] < raws[n].body[0]
    ensures CheckKey(st, raws[n], key, levl, idSize).Ok? <==> Joins(raws, n, levl, idSize, gvt, dir)
  {
    SharedThenDiffers(st.prior, key, raws[n].cmpc);
    KindNext(raws, n, st, key, gvt, dir);
  }

  lemma KindNext(raws: seq<Raw>, n: nat, st: State, key: Key, gvt: bool, dir: bool)
    requires 0 < n < |raws| && StateOf(st, raws, n, gvt, dir) && key == KeyAt(raws, n) && Terminated(key)
    requires raws[n].cmpc == Common(KeyAt(raws, n - 1), key)
    ensures OneKind(raws, n + 1, gvt, dir)
      <==> !((st.gvt || Subscripted(key)) && (st.dir || raws[n].cmpc < st.minCmpc))
  {
    SubscriptedNext(raws, n);
    NameNext(raws, n, st, gvt, dir);
  }

  lemma FoundState(raws: seq<Raw>, n: nat, st: State, key: Key, levl: nat, idSize: nat, gvt: bool, dir: bool)
    requires n < |raws| && StateOf(st, raws, n, gvt, dir) && OneKind(raws, n, gvt, dir) && Found(raws, n, st, key)
    requires CheckKey(st, raws[n], key, levl, idSize).Ok?
    ensures StateOf(CheckKey(st, raws[n], key, levl, idSize).st, raws, n + 1, gvt, dir)
  {
    SubscriptedNext(raws, n);
    SharedThenDiffers(st.prior, key, raws[n].cmpc);
    NameNext(raws, n, st, gvt, dir);
  }

  /** The checks over the first `n` records. */
  function CheckAll(raws: seq<Raw>, n: nat, levl: nat, idSize: nat, gvt: bool, dir: bool): (r: Result)
    requires n <= |raws|
    ensures r.Ok? ==> r.st.count == n && (n > 0 ==> r.st.prior != [])
  {
    if n == 0 then Ok(State([], 0, gvt, dir, 0))
    else
      var r := CheckAll(raws, n - 1, levl, idSize, gvt, dir);
      if r.Fail? then r else Check(r.st, raws[n - 1], levl, idSize)
  }

  lemma CertifiedPrefix(raws: seq<Raw>, n: nat, levl: nat, idSize: nat, gvt: bool, dir: bool)
    requires n < |raws| && Certified(raws, n + 1, levl, idSize, gvt, dir)
    ensures Certified(raws, n, levl, idSize, gvt, dir)
  {
  }

  /** The main result: the record-by-record checks accept exactly the blocks whose keys increase, are
      exactly compressed, are terminated only at their end and are of one kind. */
  lemma {:induction false} CheckedIsCertified(raws: seq<Raw>, n: nat, levl: nat, idSize: nat, gvt: bool, dir: bool)
    requires n <= |raws| && !(gvt && dir)
    ensures Agrees(CheckAll(raws, n, levl, idSize, gvt, dir), raws, n, levl, idSize, gvt, dir)
  {
    if n > 0 {
      CheckedIsCertified(raws, n - 1, levl, idSize, gvt, dir);
      AgreesNext(CheckAll(raws, n - 1, levl, idSize, gvt, dir), raws, n - 1, levl, idSize, gvt, dir);
    }
  }

  /** A result of the checks is success exactly for certified records, and then carries their state. */
  ghost predicate Agrees(r: Result, raws: seq<Raw>, n: nat, levl: nat, idSize: nat, gvt: bool, dir: bool)
    requires n <= |raws|
  {
    (r.Ok? <==> Certified(raws, n, levl, idSize, gvt, dir)) && (r.Ok? ==> StateOf(r.st, raws, n, gvt, dir))
  }

  lemma AgreesNext(r: Result, raws: seq<Raw>, n: nat, levl: nat, idSize: nat, gvt: bool, dir: bool)
    requires n < |raws| && Agrees(r, raws, n, levl, idSize, gvt, dir)
    requires r.Ok? && r.st.count > 0 ==> r.st.prior != []
    ensures Agrees(if r.Fail? then r else Check(r.st, raws[n], levl, idSize), raws, n + 1, levl, idSize, gvt, dir)
  {
    if r.Ok? {
      CheckNext(raws, n, r.st, levl, idSize, gvt, dir);
    } else if Certified(raws, n + 1, levl, idSize, gvt, dir) {
      CertifiedPrefix(raws, n, levl, idSize, gvt, dir);
    }
  }

  /** Every certified key ends with its only terminator. */
  lemma CertifiedTerminated(raws: seq<Raw>, n: nat, levl: nat, idSize: nat, gvt: bool, dir: bool, i: nat)
    requires n <= |raws| && Certified(raws, n, levl, idSize, gvt, dir) && i < n
    ensures Terminated(KeyAt(raws, i))
  {
    assert KeyFits(raws, i, levl, idSize);
    KeyTerminated(StreamAt(raws, i));
  }

  /** In a block that the checks accept for a global variable tree, or with a subscripted key, all keys
      have one name. */
  lemma AcceptedOneName(raws: seq<Raw>, n: nat, levl: nat, idSize: nat, gvt: bool, dir: bool, i: nat, j: nat)
    requires n <= |raws| && !(gvt && dir) && CheckAll(raws, n, levl, idSize, gvt, dir).Ok? && i < n && j < n
    requires gvt || AnySubscripted(raws, n)
    ensures Name(KeyAt(raws, i)) == Name(KeyAt(raws, j))
  {
    CheckedIsCertified(raws, n, levl, idSize, gvt, dir);
    assert OneName(raws, n);
  }
}
