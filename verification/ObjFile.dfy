/** The object writer of sr_i386/obj_file.c: a sorted symbol list, relocation lists, symbol numbering
    and buffered output. List links become positions: a symbol's `resolve` chain is the sequence of
    the text relocations that refer to it, newest first. */
module ObjFile {
  import opened Bytes
  import opened ObjFormat

  const EMIT_BUF_SIZE: nat := 512
  const N_DATA: nat := 6
  const N_EXT: nat := 1
  const N_TEXT: nat := 4

  /** `isText` is the N_TEXT bit, set for symbols defined in this module. */
  datatype Sym = Sym(name: Name, isText: bool, value: int, strx: int, resolve: seq<nat>)

  predicate Less(a: Name, b: Name) {
    b != [] && (a == [] || a[0] < b[0] || (a[0] == b[0] && Less(a[1..], b[1..])))
  }

  /** The three-way comparison: shared prefix first, then length. */
  function Compare(a: Name, b: Name): (c: int) {
    if a == b then 0 else if Less(a, b) then -1 else 1
  }

  lemma {:induction false} LessTotal(a: Name, b: Name)
    ensures a == b || Less(a, b) || Less(b, a)
    ensures !(Less(a, b) && Less(b, a))
  {
    if a != [] && b != [] {
      LessTotal(a[1..], b[1..]);
      if a[0] == b[0] && a[1..] == b[1..] {
        assert a == [a[0]] + a[1..] && b == [b[0]] + b[1..];
      }
    }
  }

  lemma {:induction false} LessTransitive(a: Name, b: Name, c: Name)
    requires Less(a, b) && Less(b, c)
    ensures Less(a, c)
  {
    if a != [] && a[0] == b[0] == c[0] {
      LessTransitive(a[1..], b[1..], c[1..]);
    }
  }

  /** The names agree up to `k`, where `a` ends or has the lesser byte. */
  ghost predicate LessAt(a: Name, b: Name, k: int) {
    0 <= k <= |a| && k < |b| && a[..k] == b[..k] && (k == |a| || a[k] < b[k])
  }

  lemma LessAtRest(a: Name, b: Name, k: nat)
    requires a != [] && b != [] && a[0] == b[0]
    ensures LessAt(a, b, k + 1) <==> LessAt(a[1..], b[1..], k)
  {
    if k < |a| && k < |b| {
      assert a[..k + 1] == [a[0]] + a[1..][..k] && b[..k + 1] == [b[0]] + b[1..][..k];
      assert a[1..][..k] == a[..k + 1][1..] && b[1..][..k] == b[..k + 1][1..];
    }
  }

  lemma LessAtStart(a: Name, b: Name, k: int)
    ensures LessAt(a, b, k) && k > 0 ==> a != [] && a[0] == b[0]
  {
    if LessAt(a, b, k) && k > 0 {
      assert a[..k][0] == b[..k][0];
    }
  }

  /** Names are in the order of their first difference, a name before those it begins. */
  lemma {:induction false} LessByByte(a: Name, b: Name)
    ensures Less(a, b) <==> exists k :: LessAt(a, b, k)
  {
    if a != [] && b != [] && a[0] == b[0] {
      LessByByte(a[1..], b[1..]);
      if k :| LessAt(a[1..], b[1..], k) {
        LessAtRest(a, b, k);
      }
      if k :| LessAt(a, b, k) {
        LessAtRest(a, b, if k > 0 then k - 1 else 0);
      }
    } else {
      assert Less(a, b) ==> LessAt(a, b, 0);
      forall k ensures LessAt(a, b, k) ==> k == 0 {
        LessAtStart(a, b, k);
      }
    }
  }

  ghost predicate Sorted(symbols: seq<Sym>) {
    forall j, k :: 0 <= j < k < |symbols| ==> Less(symbols[j].name, symbols[k].name)
  }

  /** Symbol `k` is the one named `n`. */
  ghost predicate Named(symbols: seq<Sym>, k: int, n: Name) {
    0 <= k < |symbols| && symbols[k].name == n
  }

  ghost predicate Defined(symbols: seq<Sym>, n: Name) {
    exists k :: Named(symbols, k, n)
  }

  lemma NamedOnce(symbols: seq<Sym>, j: nat, k: nat, n: Name)
    requires Sorted(symbols) && Named(symbols, j, n) && Named(symbols, k, n)
    ensures j == k
  {
    LessTotal(n, n);
  }

  /** The entries on the chain of a symbol are external and were recorded under its name. */
  ghost predicate ChainOf(s: Sym, rels: seq<Rel>, under: seq<Name>) {
    forall j :: 0 <= j < |s.resolve| ==> OnChainOk(s, s.resolve[j], rels, under)
  }

  ghost predicate OnChainOk(s: Sym, r: nat, rels: seq<Rel>, under: seq<Name>) {
    r < |rels| && r < |under| && rels[r].isExtern && under[r] == s.name && !s.isText
  }

  /** Entry `r` is on the chain of the symbol it was recorded under. */
  ghost predicate Chained(symbols: seq<Sym>, r: nat, under: seq<Name>) {
    r < |under| && exists k :: Named(symbols, k, under[r]) && r in symbols[k].resolve
  }

  /** `under[r]` is the name text relocation `r` was recorded under, if it is external. */
  ghost predicate Recorded(symbols: seq<Sym>, rels: seq<Rel>, under: seq<Name>) {
    && |under| == |rels|
    && (forall k :: 0 <= k < |symbols| ==> ChainOf(symbols[k], rels, under))
    && (forall r :: 0 <= r < |rels| && rels[r].isExtern ==> Chained(symbols, r, under))
  }

  /** After numbering, each external entry carries the number of its symbol, in 24 bits. */
  ghost predicate Numbered(symbols: seq<Sym>, rels: seq<Rel>, under: seq<Name>) {
    |under| == |rels| && forall r :: 0 <= r < |rels| && rels[r].isExtern ==> NumberedAt(symbols, rels[r], under[r])
  }

  ghost predicate NumberedAt(symbols: seq<Sym>, r: Rel, n: Name) {
    exists k :: Named(symbols, k, n) && r.symbolnum == k % SYMNUMS
  }

  function SymNames(symbols: seq<Sym>): (names: seq<Name>)
    ensures |names| == |symbols|
    ensures forall k :: 0 <= k < |names| ==> names[k] == symbols[k].name
  {
    seq(|symbols|, k requires 0 <= k < |symbols| => symbols[k].name)
  }

  /** A symbol entry: string offset, type, two unused fields and the value. */
  function EncSym(s: Sym): (b: seq<Byte>)
    ensures |b| == NLIST_SIZE
  {
    Le4(s.strx) + [if s.isText then N_EXT + N_TEXT else N_EXT, 0, 0, 0] + Le4(s.value)
  }

  function EncSyms(symbols: seq<Sym>): (b: seq<Byte>)
    ensures |b| == NLIST_SIZE * |symbols|
  {
    if symbols == [] then [] else EncSyms(symbols[..|symbols| - 1]) + EncSym(symbols[|symbols| - 1])
  }

  // The symbol entries are read as they were written.

  lemma {:induction false} EncSymsAt(symbols: seq<Sym>, k: nat)
    requires k < |symbols|
    ensures EncSyms(symbols)[NLIST_SIZE * k..NLIST_SIZE * k + NLIST_SIZE] == EncSym(symbols[k])
  {
    var m := |symbols| - 1;
    if k < m {
      EncSymsAt(symbols[..m], k);
      SliceOfHead(EncSyms(symbols[..m]), EncSym(symbols[m]), NLIST_SIZE * k, NLIST_SIZE * k + NLIST_SIZE);
    }
  }

  /** Twelve bytes are the entry of `s`: a word of string offset, at byte 4 the type with its external bit and
      its text bit, three unused bytes, at byte 8 a word of value. */
  ghost predicate IsEntry(e: seq<Byte>, s: Sym)
    requires |e| == NLIST_SIZE
  {
    && Word(e[0..4]) == s.strx && e[4] == (if s.isText then 5 else 1) && e[5] == e[6] == e[7] == 0
    && Word(e[8..12]) == s.value
  }

  lemma EntryRead(s: Sym)
    requires 0 <= s.strx < WORD && 0 <= s.value < WORD
    ensures IsEntry(EncSym(s), s)
  {
    var e := EncSym(s);
    assert e[0..4] == Le4(s.strx) && e[8..12] == Le4(s.value);
    WordOfLe4(s.strx);
    WordOfLe4(s.value);
  }

  /** The zero-ended string at offset `at` of `table` is `name`. */
  ghost predicate StandsAt(table: seq<Byte>, at: int, name: Name) {
    0 <= at && at + |name| < |table| && table[at..at + |name|] == name && table[at + |name|] == 0
  }

  /** Entry `k` of the symbols reads as it was written. */
  lemma SymbolRead(symbols: seq<Sym>, k: nat)
    requires k < |symbols| && 0 <= symbols[k].strx < WORD && 0 <= symbols[k].value < WORD
    ensures IsEntry(EncSyms(symbols)[NLIST_SIZE * k..NLIST_SIZE * k + NLIST_SIZE], symbols[k])
  {
    EncSymsAt(symbols, k);
    EntryRead(symbols[k]);
  }

  /** The string offset of symbol `k` leads to its name in the table, which begins with its length word. */
  lemma SymbolNamed(before: seq<Sym>, symbols: seq<Sym>, names: seq<Name>, k: nat)
    requires |before| == |symbols| && Placed(before, symbols, |symbols|) && k < |symbols| && names == SymNames(before)
    ensures StandsAt(Le4(4 + |Names(names)|) + Names(names), symbols[k].strx, symbols[k].name)
    ensures symbols[k].strx < 4 + |Names(names)|
  {
    NameStands(names, k);
  }

  lemma NameStands(names: seq<Name>, k: nat)
    requires k < |names|
    ensures 4 + |Names(names[..k])| < 4 + |Names(names)|
    ensures StandsAt(Le4(4 + |Names(names)|) + Names(names), 4 + |Names(names[..k])|, names[k])
  {
    NamesSplit(names, k);
    NamesNext(names, k);
    NameInTable(Le4(4 + |Names(names)|), Names(names), Names(names[..k]), names[k]);
  }

  lemma NameInTable(length: seq<Byte>, all: seq<Byte>, head: seq<Byte>, name: Name)
    requires |length| == 4 && |head| + |name| + 1 <= |all| && all[..|head| + |name| + 1] == head + name + [0]
    ensures StandsAt(length + all, 4 + |head|, name)
  {
    var table, at, upto := length + all, 4 + |head|, all[..|head| + |name| + 1];
    forall i | 0 <= i <= |name| ensures table[at + i] == (name + [0])[i] {
      assert table[at + i] == upto[|head| + i];
    }
  }

  /** A new symbol takes place `i` in the list; places from there on move up. */
  lemma Inserted(symbols: seq<Sym>, i: nat, s: Sym, rels: seq<Rel>, under: seq<Name>)
    requires i <= |symbols| && s.resolve == []
    requires Recorded(symbols, rels, under)
    ensures Recorded(symbols[..i] + [s] + symbols[i..], rels, under)
  {
    var symbols' := symbols[..i] + [s] + symbols[i..];
    forall r | 0 <= r < |rels| && rels[r].isExtern ensures Chained(symbols', r, under) {
      assert Chained(symbols, r, under);
      var k :| Named(symbols, k, under[r]) && r in symbols[k].resolve;
      assert Named(symbols', if k < i then k else k + 1, under[r]);
    }
    forall k | 0 <= k < |symbols'| ensures ChainOf(symbols'[k], rels, under) {
      if k != i {
        assert symbols'[k] == symbols[if k < i then k else k - 1];
      }
    }
  }

  lemma InsertedSorted(symbols: seq<Sym>, i: nat, s: Sym)
    requires i <= |symbols| && Sorted(symbols)
    requires forall j :: 0 <= j < i ==> Less(symbols[j].name, s.name)
    requires i < |symbols| ==> Less(s.name, symbols[i].name)
    ensures Sorted(symbols[..i] + [s] + symbols[i..])
  {
    forall j | i <= j < |symbols| ensures Less(s.name, symbols[j].name) {
      if j > i {
        LessTransitive(s.name, symbols[i].name, symbols[j].name);
      }
    }
  }

  /** A further external entry recorded under symbol `k`. */
  lemma Referred(symbols: seq<Sym>, k: nat, rels: seq<Rel>, under: seq<Name>, r: Rel)
    requires k < |symbols| && !symbols[k].isText && Recorded(symbols, rels, under) && r.isExtern
    ensures Recorded(symbols[k := symbols[k].(resolve := [|rels|] + symbols[k].resolve)], rels + [r],
                     under + [symbols[k].name])
  {
    var symbols' := symbols[k := symbols[k].(resolve := [|rels|] + symbols[k].resolve)];
    var rels', under' := rels + [r], under + [symbols[k].name];
    forall q | 0 <= q < |rels'| && rels'[q].isExtern ensures Chained(symbols', q, under') {
      if q < |rels| {
        assert Chained(symbols, q, under);
        var j :| Named(symbols, j, under[q]) && q in symbols[j].resolve;
        assert Named(symbols', j, under'[q]) && q in symbols'[j].resolve;
      } else {
        assert Named(symbols', k, under'[q]) && q in symbols'[k].resolve;
      }
    }
    forall j | 0 <= j < |symbols'| ensures ChainOf(symbols'[j], rels', under') {
      assert ChainOf(symbols[j], rels, under);
      forall m | 0 <= m < |symbols'[j].resolve| ensures OnChainOk(symbols'[j], symbols'[j].resolve[m], rels', under') {
        var m0 := if j == k then m - 1 else m;
        if m0 >= 0 {
          assert symbols'[j].resolve[m] == symbols[j].resolve[m0];
          assert OnChainOk(symbols[j], symbols[j].resolve[m0], rels, under);
        }
      }
    }
  }

  /** An internal entry belongs to no symbol. */
  lemma NotReferred(symbols: seq<Sym>, rels: seq<Rel>, under: seq<Name>, r: Rel)
    requires Recorded(symbols, rels, under) && !r.isExtern
    ensures Recorded(symbols, rels + [r], under + [[]])
  {
    var rels', under' := rels + [r], under + [[]];
    forall q | 0 <= q < |rels'| && rels'[q].isExtern ensures Chained(symbols, q, under') {
      assert Chained(symbols, q, under);
    }
    forall j | 0 <= j < |symbols| ensures ChainOf(symbols[j], rels', under') {
      assert ChainOf(symbols[j], rels, under);
      assert forall m :: 0 <= m < |symbols[j].resolve| ==> OnChainOk(symbols[j], symbols[j].resolve[m], rels, under);
    }
  }

  /** `after` is `before` with `s` put in somewhere. */
  ghost predicate IsInsert(before: seq<Sym>, after: seq<Sym>, s: Sym) {
    exists i :: 0 <= i <= |before| && after == before[..i] + [s] + before[i..]
  }

  /** The first `n` symbols have the offset of their names, which follow the length word. */
  ghost predicate Placed(before: seq<Sym>, after: seq<Sym>, n: nat)
    requires |before| == |after|
  {
    forall k :: 0 <= k < |after| ==>
      after[k] == if k < n then before[k].(strx := 4 + |Names(SymNames(before)[..k])|) else before[k]
  }

  /** `n` symbol entries are out. */
  ghost predicate SymsOut(before: seq<Sym>, after: seq<Sym>, n: nat, strx: int, out0: seq<Byte>, out: seq<Byte>) {
    && n <= |after| == |before| && Placed(before, after, n)
    && strx == 4 + |Names(SymNames(before)[..n])|
    && out == out0 + EncSyms(after[..n])
  }

  lemma SymOut(before: seq<Sym>, after: seq<Sym>, n: nat, strx: int, out0: seq<Byte>, out: seq<Byte>)
    requires SymsOut(before, after, n, strx, out0, out) && n < |before|
    ensures var s := after[n].(strx := strx);
      SymsOut(before, after[n := s], n + 1, strx + |s.name| + 1, out0, out + EncSym(s))
  {
    EncSymsNext(after, n, after[n].(strx := strx));
    NamesNext(SymNames(before), n);
  }

  lemma EncSymsNext(after: seq<Sym>, n: nat, s: Sym)
    requires n < |after|
    ensures EncSyms(after[n := s][..n + 1]) == EncSyms(after[..n]) + EncSym(s)
  {
    assert after[n := s][..n + 1][..n] == after[..n];
  }

  lemma NamesNext(names: seq<Name>, n: nat)
    requires n < |names|
    ensures |Names(names[..n + 1])| == |Names(names[..n])| + |names[n]| + 1
  {
    assert names[..n + 1][..n] == names[..n];
  }

  lemma Moved(file: seq<Byte>, buff: seq<Byte>, rest: seq<Byte>, n: nat)
    requires n <= |rest|
    ensures file + (buff + rest[..n]) + rest[n..] == file + buff + rest
  {
    assert rest == rest[..n] + rest[n..];
  }

  lemma PlacedNames(before: seq<Sym>, after: seq<Sym>)
    requires |before| == |after| && Placed(before, after, |after|)
    ensures SymNames(after) == SymNames(before)
  {
  }

  class ObjWriter {
    var symbols: seq<Sym>
    var textRel: seq<Rel>
    var dataRel: seq<Rel>
    var codeSize: nat
    var txtrelCnt: nat
    var cdlits: nat
    /** The bytes written and those still in the buffer. */
    var file: seq<Byte>
    var emitBuff: seq<Byte>
    ghost var under: seq<Name>

    ghost predicate Valid() reads this {
      Sorted(symbols) && cdlits == |symbols| && Recorded(symbols, textRel, under) && |emitBuff| <= EMIT_BUF_SIZE
    }

    ghost function Out(): seq<Byte> reads this { file + emitBuff }

    /** obj_init, and an empty file. */
    constructor ()
      ensures Valid() && symbols == [] && textRel == [] && dataRel == [] && under == [] && Out() == []
      ensures codeSize == 0 && txtrelCnt == 0 && cdlits == 0
    {
      symbols, textRel, dataRel, under := [], [], [], [];
      codeSize, txtrelCnt, cdlits := 0, 0, 0;
      file, emitBuff := [], [];
    }

    /** The symbol `name`, at its place in the sorted list; a new one answers -1, as does the source's
        null pointer. */
    method DefineSymbol(inCode: bool, name: Name, value: int) returns (found: int)
      requires Valid()
      modifies this`symbols, this`cdlits, this`txtrelCnt
      ensures Valid()
      ensures found == -1 <==> !old(Defined(symbols, name))
      ensures found != -1 ==> symbols == old(symbols) && Named(symbols, found, name)
      ensures found == -1 ==> IsInsert(old(symbols), symbols, Sym(name, inCode, value, 0, []))
      ensures txtrelCnt == old(txtrelCnt) +
        (if found == -1 then (if inCode then 0 else 1) else if symbols[found].isText then 0 else 1)
      ensures cdlits == old(cdlits) + if found == -1 then 1 else 0
    {
      var i, cmp := 0, 1;
      while i < |symbols|
        invariant 0 <= i <= |symbols|
        invariant forall j :: 0 <= j < i ==> Less(symbols[j].name, name)
        modifies {}
      {
        cmp := Compare(name, symbols[i].name);
        LessTotal(name, symbols[i].name);
        if cmp <= 0 {
          break;
        }
        i := i + 1;
      }
      if cmp != 0 || i == |symbols| {
        NotFound(symbols, i, name);
        Inserted(symbols, i, Sym(name, inCode, value, 0, []), textRel, under);
        InsertedSorted(symbols, i, Sym(name, inCode, value, 0, []));
        if !inCode {
          txtrelCnt := txtrelCnt + 1;
        }
        symbols := symbols[..i] + [Sym(name, inCode, value, 0, [])] + symbols[i..];
        cdlits := cdlits + 1;
        return -1;
      }
      assert Named(symbols, i, name);
      if !symbols[i].isText {
        txtrelCnt := txtrelCnt + 1;
      }
      return i;
    }

    /** A use of `name` at `refaddr`: the value of a symbol of this module, else a relocation entry
        on the symbol's chain. The name has been defined before. */
    method EmitReference(refaddr: nat, name: Name) returns (result: int)
      requires Valid() && Defined(symbols, name)
      modifies this`symbols, this`cdlits, this`txtrelCnt, this`textRel, this`under
      ensures Valid() && SymNames(symbols) == SymNames(old(symbols))
      ensures forall k :: Named(symbols, k, name) && symbols[k].isText ==>
        result == symbols[k].value && textRel == old(textRel) && under == old(under) && symbols == old(symbols)
      ensures forall k :: Named(symbols, k, name) && !symbols[k].isText ==>
        result == 0 && textRel == old(textRel) + [Rel(refaddr, 0, true)] && under == old(under) + [name]
    {
      var k := DefineSymbol(true, name, 0);
      assert forall j :: Named(symbols, j, name) ==> j == k by {
        forall j | Named(symbols, j, name) ensures j == k { NamedOnce(symbols, j, k, name); }
      }
      if symbols[k].isText {
        return symbols[k].value;
      }
      Referred(symbols, k, textRel, under, Rel(refaddr, 0, true));
      var newrel := |textRel|;
      textRel := textRel + [Rel(refaddr, 0, true)];
      under := under + [name];
      symbols := symbols[k := symbols[k].(resolve := [newrel] + symbols[k].resolve)];
      assert forall j :: Named(symbols, j, name) ==> Named(old(symbols), j, name);
      return 0;
    }

    /** An address within the module, to be moved by the base when the module is loaded. */
    method EmitAddr(refaddr: nat, offset: int) returns (result: int)
      requires Valid()
      modifies this`textRel, this`under
      ensures Valid() && textRel == old(textRel) + [Rel(refaddr, N_DATA, false)] && under == old(under) + [[]]
      ensures result == offset + codeSize
    {
      NotReferred(symbols, textRel, under, Rel(refaddr, N_DATA, false));
      result := offset + codeSize;
      textRel := textRel + [Rel(refaddr, N_DATA, false)];
      under := under + [[]];
    }

    method EmitPidr(refoffset: nat, dataOffset: int) returns (result: int)
      requires Valid()
      modifies this`dataRel
      ensures Valid() && dataRel == old(dataRel) + [Rel(refoffset + codeSize, N_DATA, false)]
      ensures result == dataOffset + codeSize
    {
      result := dataOffset + codeSize;
      dataRel := dataRel + [Rel(refoffset + codeSize, N_DATA, false)];
    }

    /** Bytes go out through a buffer of fixed size, in order. */
    method EmitImmed(source: seq<Byte>)
      requires |emitBuff| <= EMIT_BUF_SIZE
      modifies this`file, this`emitBuff
      ensures |emitBuff| <= EMIT_BUF_SIZE && Out() == old(Out()) + source
    {
      var rest := source;
      while rest != []
        invariant |emitBuff| <= EMIT_BUF_SIZE && (rest != source ==> rest == [] || emitBuff == [])
        invariant Out() + rest == old(Out()) + source
        decreases |rest|, |emitBuff|
      {
        var write := EMIT_BUF_SIZE - |emitBuff|;
        write := if |rest| < write then |rest| else write;
        Moved(file, emitBuff, rest, write);
        emitBuff := emitBuff + rest[..write];
        rest := rest[write..];
        if rest != [] {
          BuffEmit();
        }
      }
    }

    /** Symbol numbers in list order, into every entry on each chain. */
    method ResolveSym()
      requires Valid()
      modifies this`textRel
      ensures Valid() && SameButNumbers(old(textRel), textRel) && Numbered(symbols, textRel, under)
    {
      var symnum := 0;
      while symnum < |symbols|
        invariant 0 <= symnum <= |symbols|
        invariant SameButNumbers(old(textRel), textRel)
        invariant NumberedBelow(symbols, textRel, under, symnum)
      {
        ghost var before := textRel;
        var chain := symbols[symnum].resolve;
        assert ChainOf(symbols[symnum], old(textRel), under);
        var j := 0;
        while j < |chain|
          invariant 0 <= j <= |chain|
          invariant SameButNumbers(old(textRel), textRel)
          invariant forall m :: 0 <= m < j ==> textRel[chain[m]].symbolnum == symnum % SYMNUMS
          invariant forall q :: 0 <= q < |textRel| && q !in chain ==> textRel[q] == before[q]
        {
          assert OnChainOk(symbols[symnum], chain[j], old(textRel), under);
          textRel := textRel[chain[j] := textRel[chain[j]].(symbolnum := symnum % SYMNUMS)];
          j := j + 1;
        }
        ChainNumbered(symbols, old(textRel), before, textRel, under, symnum);
        symnum := symnum + 1;
      }
      AllNumbered(symbols, textRel, under, old(textRel));
      Renumbered(symbols, old(textRel), textRel, under);
    }

    method OutputRelocation()
      requires |emitBuff| <= EMIT_BUF_SIZE
      modifies this`file, this`emitBuff
      ensures |emitBuff| <= EMIT_BUF_SIZE && Out() == old(Out()) + EncRels(textRel) + EncRels(dataRel)
    {
      EmitRels(textRel);
      EmitRels(dataRel);
    }

    method EmitRels(rels: seq<Rel>)
      requires |emitBuff| <= EMIT_BUF_SIZE
      modifies this`file, this`emitBuff
      ensures |emitBuff| <= EMIT_BUF_SIZE && Out() == old(Out()) + EncRels(rels)
    {
      var i := 0;
      while i < |rels|
        invariant 0 <= i <= |rels| && |emitBuff| <= EMIT_BUF_SIZE
        invariant Out() == old(Out()) + EncRels(rels[..i])
      {
        EmitImmed(EncRel(rels[i]));
        assert rels[..i + 1][..i] == rels[..i];
        i := i + 1;
      }
      assert rels[..i] == rels;
    }

    /** The symbol entries, each with the offset its name will have. */
    method EmitSyms() returns (stringLength: nat)
      requires |emitBuff| <= EMIT_BUF_SIZE
      modifies this`file, this`emitBuff, this`symbols
      ensures |emitBuff| <= EMIT_BUF_SIZE && |symbols| == |old(symbols)|
      ensures stringLength == 4 + |Names(SymNames(old(symbols)))|
      ensures Out() == old(Out()) + EncSyms(symbols)
      ensures Placed(old(symbols), symbols, |symbols|)
    {
      ghost var symbols0, out0 := symbols, Out();
      stringLength := 4;
      var i := 0;
      while i < |symbols|
        invariant |emitBuff| <= EMIT_BUF_SIZE
        invariant i <= |symbols|
        invariant SymsOut(symbols0, symbols, i, stringLength, out0, Out())
      {
        SymOut(symbols0, symbols, i, stringLength, out0, Out());
        EmitSym(i, stringLength);
        stringLength := stringLength + |symbols[i].name| + 1;
        i := i + 1;
      }
      assert symbols[..i] == symbols && SymNames(symbols0)[..i] == SymNames(symbols0);
    }

    method EmitSym(i: nat, strx: nat)
      requires |emitBuff| <= EMIT_BUF_SIZE && i < |symbols|
      modifies this`file, this`emitBuff, this`symbols
      ensures |emitBuff| <= EMIT_BUF_SIZE && symbols == old(symbols)[i := old(symbols)[i].(strx := strx)]
      ensures Out() == old(Out()) + EncSym(symbols[i])
    {
      symbols := symbols[i := symbols[i].(strx := strx)];
      EmitImmed(EncSym(symbols[i]));
    }

    /** The symbol entries, then the length of the string table and the names. */
    method OutputSymbol()
      requires |emitBuff| <= EMIT_BUF_SIZE
      modifies this`file, this`emitBuff, this`symbols
      ensures |emitBuff| <= EMIT_BUF_SIZE && SymNames(symbols) == SymNames(old(symbols))
      ensures Out() == old(Out()) + EncSyms(symbols) + Le4(4 + |Names(SymNames(symbols))|) + Names(SymNames(symbols))
      ensures |symbols| == |old(symbols)| && Placed(old(symbols), symbols, |symbols|)
    {
      var stringLength := EmitSyms();
      PlacedNames(old(symbols), symbols);
      EmitImmed(Le4(stringLength));
      EmitNames();
    }

    method EmitNames()
      requires |emitBuff| <= EMIT_BUF_SIZE
      modifies this`file, this`emitBuff
      ensures |emitBuff| <= EMIT_BUF_SIZE && Out() == old(Out()) + Names(SymNames(symbols))
    {
      ghost var names := SymNames(symbols);
      var i := 0;
      while i < |symbols|
        invariant 0 <= i <= |symbols| && |emitBuff| <= EMIT_BUF_SIZE
        invariant Out() == old(Out()) + Names(names[..i])
      {
        EmitImmed(symbols[i].name + [0]);
        assert names[..i + 1][..i] == names[..i];
        i := i + 1;
      }
      assert names[..i] == names;
    }

    /** The part of the file after code and literals. */
    method WriteTail()
      requires |emitBuff| <= EMIT_BUF_SIZE
      modifies this`file, this`emitBuff, this`symbols
      ensures SymNames(symbols) == SymNames(old(symbols))
      ensures file == old(Out()) + EncRels(textRel) + EncRels(dataRel) + EncSyms(symbols)
        + Le4(4 + |Names(SymNames(symbols))|) + Names(SymNames(symbols))
    {
      OutputRelocation();
      OutputSymbol();
      BuffEmit();
    }

    /** finish_object_file: everything is in the file, and each external entry carries the number of
        the symbol it was recorded under. */
    method FinishObjectFile()
      requires Valid()
      modifies this`file, this`emitBuff, this`symbols, this`textRel
      ensures SymNames(symbols) == SymNames(old(symbols)) && SameButNumbers(old(textRel), textRel)
      ensures Numbered(symbols, textRel, under)
      ensures file == old(Out()) + EncRels(textRel) + EncRels(dataRel) + EncSyms(symbols)
        + Le4(4 + |Names(SymNames(symbols))|) + Names(SymNames(symbols))
    {
      ResolveSym();
      ghost var symbols1 := symbols;
      WriteTail();
      NumberedNames(symbols1, symbols, textRel, under);
    }

    method BuffEmit()
      modifies this`file, this`emitBuff
      ensures emitBuff == [] && Out() == old(Out())
    {
      file := file + emitBuff;
      emitBuff := [];
    }
  }

  /** The same entries but for the symbol numbers of the external ones. */
  ghost predicate SameButNumbers(rels: seq<Rel>, rels': seq<Rel>) {
    |rels'| == |rels| && forall r :: 0 <= r < |rels| ==>
      rels'[r] == if rels[r].isExtern then rels[r].(symbolnum := rels'[r].symbolnum) else rels[r]
  }

  ghost predicate NumberedBelow(symbols: seq<Sym>, rels: seq<Rel>, under: seq<Name>, n: nat) {
    |under| == |rels| && forall r, k :: 0 <= r < |rels| && rels[r].isExtern && Named(symbols, k, under[r]) && k < n ==>
      rels[r].symbolnum == k % SYMNUMS
  }

  lemma Renumbered(symbols: seq<Sym>, rels: seq<Rel>, rels': seq<Rel>, under: seq<Name>)
    requires Recorded(symbols, rels, under) && SameButNumbers(rels, rels')
    ensures Recorded(symbols, rels', under)
  {
    forall k | 0 <= k < |symbols| ensures ChainOf(symbols[k], rels', under) {
      assert ChainOf(symbols[k], rels, under);
      assert forall m :: 0 <= m < |symbols[k].resolve| ==> OnChainOk(symbols[k], symbols[k].resolve[m], rels, under);
    }
  }

  /** One symbol's chain numbered: no other symbol's entries were touched. */
  lemma ChainNumbered(symbols: seq<Sym>, rels0: seq<Rel>, before: seq<Rel>, rels: seq<Rel>, under: seq<Name>,
                      symnum: nat)
    requires Sorted(symbols) && Recorded(symbols, rels0, under) && symnum < |symbols|
    requires SameButNumbers(rels0, before) && SameButNumbers(rels0, rels)
    requires NumberedBelow(symbols, before, under, symnum)
    requires forall m :: 0 <= m < |symbols[symnum].resolve| ==> HasNumber(rels, symbols[symnum].resolve[m], symnum)
    requires forall q :: 0 <= q < |rels| && q !in symbols[symnum].resolve ==> rels[q] == before[q]
    ensures NumberedBelow(symbols, rels, under, symnum + 1)
  {
    forall r, k | 0 <= r < |rels| && rels[r].isExtern && Named(symbols, k, under[r]) && k < symnum + 1
      ensures rels[r].symbolnum == k % SYMNUMS
    {
      assert rels0[r].isExtern && Chained(symbols, r, under);
      var j :| Named(symbols, j, under[r]) && r in symbols[j].resolve;
      NamedOnce(symbols, j, k, under[r]);
      if k < symnum && r in symbols[symnum].resolve {
        var m :| 0 <= m < |symbols[symnum].resolve| && symbols[symnum].resolve[m] == r;
        assert ChainOf(symbols[symnum], rels0, under);
        assert OnChainOk(symbols[symnum], r, rels0, under);
        NamedOnce(symbols, symnum, k, under[r]);
      }
    }
  }

  ghost predicate HasNumber(rels: seq<Rel>, r: nat, k: nat) { r < |rels| && rels[r].symbolnum == k % SYMNUMS }

  lemma AllNumbered(symbols: seq<Sym>, rels: seq<Rel>, under: seq<Name>, rels0: seq<Rel>)
    requires NumberedBelow(symbols, rels, under, |symbols|) && Recorded(symbols, rels0, under)
    requires SameButNumbers(rels0, rels)
    ensures Numbered(symbols, rels, under)
  {
    forall r | 0 <= r < |rels| && rels[r].isExtern ensures NumberedAt(symbols, rels[r], under[r]) {
      assert rels0[r].isExtern && Chained(symbols, r, under);
      var j :| Named(symbols, j, under[r]) && r in symbols[j].resolve;
    }
  }

  /** The numbering depends on the names only. */
  lemma NumberedNames(symbols: seq<Sym>, symbols': seq<Sym>, rels: seq<Rel>, under: seq<Name>)
    requires Numbered(symbols, rels, under) && SymNames(symbols') == SymNames(symbols)
    ensures Numbered(symbols', rels, under)
  {
    forall r | 0 <= r < |rels| && rels[r].isExtern ensures NumberedAt(symbols', rels[r], under[r]) {
      assert NumberedAt(symbols, rels[r], under[r]);
      var k :| Named(symbols, k, under[r]) && rels[r].symbolnum == k % SYMNUMS;
      assert SymNames(symbols')[k] == SymNames(symbols)[k];
      assert Named(symbols', k, under[r]);
    }
  }

  lemma NotFound(symbols: seq<Sym>, i: nat, name: Name)
    requires Sorted(symbols) && i <= |symbols|
    requires forall j :: 0 <= j < i ==> Less(symbols[j].name, name)
    requires i < |symbols| ==> Less(name, symbols[i].name)
    ensures !Defined(symbols, name)
  {
    forall k | Named(symbols, k, name) ensures false {
      LessTotal(name, name);
      if k > i {
        LessTransitive(name, symbols[i].name, symbols[k].name);
      }
    }
  }
}
