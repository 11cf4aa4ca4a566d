/** Writing an object and linking it: what becomes of each external reference. */
module ObjLink {
  import opened Options
  import opened Bytes
  import opened ObjFormat
  import W = ObjFile
  import L = IncrLink

  /** What linking has done about one reference at address `a` to target `t`: patched with the address
      bound to it, or put once on its queue, and nothing else. */
  ghost predicate Fate(before: L.Link, after: L.Link, routines: map<Name, L.Routine>, t: L.Target, a: nat) {
    match L.Bound(routines, t)
    case Some(v) => a in after.image && after.image[a] == v && QueuedMore(before, after, t, a, 0)
    case None => L.WordAt(after.image, a) == L.WordAt(before.image, a) && QueuedMore(before, after, t, a, 1)
  }

  /** Address `a` is `n` times more on the queue of `t`, and as often as before on the others. */
  ghost predicate QueuedMore(before: L.Link, after: L.Link, t: L.Target, a: nat, n: nat) {
    forall u :: L.Times(L.Queue(after.urx, u), a) == L.Times(L.Queue(before.urx, u), a) + if u == t then n else 0
  }

  /** An address that no event has. */
  lemma {:induction false} Untouched(l: L.Link, log: seq<L.Fixup>, table: seq<Byte>, routines: map<Name, L.Routine>,
                                     a: nat)
    requires forall j :: 0 <= j < |log| ==> log[j].address != a
    ensures var after := L.FixAll(l, log, table, routines);
      L.WordAt(after.image, a) == L.WordAt(l.image, a) && forall u ::
        L.Times(L.Queue(after.urx, u), a) == L.Times(L.Queue(l.urx, u), a)
  {
    if log != [] {
      Untouched(l, log[..|log| - 1], table, routines, a);
      OtherAddress(L.FixAll(l, log[..|log| - 1], table, routines), L.TargetOf(L.NameOf(table, log[|log| - 1].symnum)),
                   routines, log[|log| - 1].address, a);
    }
  }

  lemma OtherAddress(l: L.Link, t: L.Target, routines: map<Name, L.Routine>, b: nat, a: nat)
    requires a != b
    ensures var after := L.Fix(l, t, L.Bound(routines, t), b);
      (a in l.image ==> a in after.image) && L.WordAt(after.image, a) == L.WordAt(l.image, a) && forall u ::
        L.Times(L.Queue(after.urx, u), a) == L.Times(L.Queue(l.urx, u), a)
  {
  }

  lemma OwnAddress(l: L.Link, t: L.Target, routines: map<Name, L.Routine>, a: nat)
    ensures Fate(l, L.Fix(l, t, L.Bound(routines, t), a), routines, t, a)
  {
    assert ([a] + L.Queue(l.urx, t))[1..] == L.Queue(l.urx, t);
  }

  /** The one event with address `a` decides its fate. */
  lemma {:induction false} EventFate(l: L.Link, log: seq<L.Fixup>, table: seq<Byte>, routines: map<Name, L.Routine>,
                                     j: nat)
    requires j < |log|
    requires forall i :: 0 <= i < |log| && i != j ==> log[i].address != log[j].address
    ensures Fate(l, L.FixAll(l, log, table, routines), routines, L.TargetOf(L.NameOf(table, log[j].symnum)),
                 log[j].address)
  {
    var m := |log| - 1;
    var t := L.TargetOf(L.NameOf(table, log[m].symnum));
    var before := L.FixAll(l, log[..m], table, routines);
    if j == m {
      Untouched(l, log[..m], table, routines, log[j].address);
      OwnAddress(before, t, routines, log[j].address);
    } else {
      EventFate(l, log[..m], table, routines, j);
      OtherAddress(before, t, routines, log[m].address, log[j].address);
    }
  }

  /** No other entry has the address of entry `r`. */
  ghost predicate Alone(rels: seq<Rel>, r: nat)
    requires r < |rels|
  {
    forall q :: 0 <= q < |rels| && q != r ==> rels[q].address != rels[r].address
  }

  lemma {:induction false} CountAlone(rels: seq<Rel>, r: nat, s: nat)
    requires r < |rels| && Alone(rels, r) && rels[r].isExtern
    ensures L.Count(rels, s, rels[r].address) == if s == rels[r].symbolnum then 1 else 0
  {
    var m := |rels| - 1;
    var a := rels[r].address;
    if r < m {
      CountAlone(rels[..m], r, s);
    } else {
      CountFree(rels[..m], s, a);
    }
  }

  lemma {:induction false} CountFree(rels: seq<Rel>, s: nat, a: nat)
    requires forall q :: 0 <= q < |rels| ==> rels[q].address != a
    ensures L.Count(rels, s, a) == 0 && L.CountInternal(rels, a) == 0
  {
    if rels != [] {
      CountFree(rels[..|rels| - 1], s, a);
    }
  }

  lemma {:induction false} InternalAlone(rels: seq<Rel>, r: nat)
    requires r < |rels| && Alone(rels, r) && rels[r].isExtern
    ensures L.CountInternal(rels, rels[r].address) == 0
  {
    var m := |rels| - 1;
    if r < m {
      InternalAlone(rels[..m], r);
    } else {
      CountFree(rels[..m], 0, rels[r].address);
    }
  }

  /** Events are counted where they stand. */
  lemma {:induction false} Counted(log: seq<L.Fixup>, j: nat)
    requires j < |log|
    ensures L.CountLog(log, log[j].symnum, log[j].address) >= 1
    ensures forall i :: 0 <= i < |log| && i != j && log[i] == log[j] ==>
      L.CountLog(log, log[j].symnum, log[j].address) >= 2
  {
    var m := |log| - 1;
    if j < m {
      Counted(log[..m], j);
    } else {
      forall i | 0 <= i < m && log[i] == log[j] ensures L.CountLog(log, log[j].symnum, log[j].address) >= 2 {
        Counted(log[..m], i);
      }
    }
  }

  lemma {:induction false} EventOf(log: seq<L.Fixup>, s: nat, a: nat) returns (j: nat)
    requires L.CountLog(log, s, a) >= 1
    ensures j < |log| && log[j] == L.Fixup(s, a)
  {
    var m := |log| - 1;
    if log[m] == L.Fixup(s, a) {
      j := m;
    } else {
      j := EventOf(log[..m], s, a);
    }
  }

  /** An external entry whose address is its own is handled once, under its own number. */
  lemma EntryFate(l: L.Link, log: seq<L.Fixup>, rels: seq<Rel>, table: seq<Byte>, routines: map<Name, L.Routine>,
                  r: nat)
    requires L.Logged(log, rels) && r < |rels| && Alone(rels, r) && rels[r].isExtern
    ensures Fate(l, L.FixAll(l, log, table, routines), routines, L.TargetOf(L.NameOf(table, rels[r].symbolnum)),
                 rels[r].address)
  {
    var s, a := rels[r].symbolnum, rels[r].address;
    CountAlone(rels, r, s);
    assert L.CountLog(log, s, a) == 1;
    var j := EventOf(log, s, a);
    forall i | 0 <= i < |log| && i != j ensures log[i].address != a {
      Counted(log, i);
      CountAlone(rels, r, log[i].symnum);
      Counted(log, j);
    }
    EventFate(l, log, table, routines, j);
  }

  lemma {:induction false} EncRelsConcat(a: seq<Rel>, b: seq<Rel>)
    ensures EncRels(a + b) == EncRels(a) + EncRels(b)
    decreases |b|
  {
    if b == [] {
      assert a + b == a;
    } else {
      EncRelsConcat(a, b[..|b| - 1]);
      assert (a + b)[..|a + b| - 1] == a + b[..|b| - 1];
    }
  }

  /** The written sections, as the linker is given them. */
  function Sections(textRel: seq<Rel>, dataRel: seq<Rel>, symbols: seq<W.Sym>): seq<Byte> {
    var names := Names(W.SymNames(symbols));
    EncRels(textRel) + EncRels(dataRel) + W.EncSyms(symbols) + Le4(4 + |names|) + names
  }

  /** Entries that survive being written. */
  ghost predicate Writable(rels: seq<Rel>) {
    forall r :: 0 <= r < |rels| ==> rels[r].address < WORD && rels[r].symbolnum < SYMNUMS
  }

  lemma SectionsRels(textRel: seq<Rel>, dataRel: seq<Rel>, symbols: seq<W.Sym>)
    requires Writable(textRel) && Writable(dataRel)
    ensures |Sections(textRel, dataRel, symbols)| >= REL_SIZE * |textRel + dataRel|
    ensures DecRels(Sections(textRel, dataRel, symbols), |textRel + dataRel|) == textRel + dataRel
  {
    EncRelsConcat(textRel, dataRel);
    var names := Names(W.SymNames(symbols));
    var rest := W.EncSyms(symbols) + Le4(4 + |names|) + names;
    assert Sections(textRel, dataRel, symbols) == EncRels(textRel + dataRel) + rest;
    RelsRoundTrip(textRel + dataRel, rest);
  }

  lemma SectionsTable(textRel: seq<Rel>, dataRel: seq<Rel>, symbols: seq<W.Sym>)
    requires 4 + |Names(W.SymNames(symbols))| < WORD
    ensures var at := REL_SIZE * |textRel| + REL_SIZE * |dataRel| + NLIST_SIZE * |symbols|;
      var file := Sections(textRel, dataRel, symbols);
      L.HasTable(file, at) && L.TableAt(file, at) == Names(W.SymNames(symbols))
  {
    var names := Names(W.SymNames(symbols));
    var head := EncRels(textRel) + EncRels(dataRel) + W.EncSyms(symbols);
    TableAfter(head, names);
  }

  lemma TableAfter(head: seq<Byte>, names: seq<Byte>)
    requires 4 + |names| < WORD
    ensures var file := head + Le4(4 + |names|) + names;
      L.HasTable(file, |head|) && L.TableAt(file, |head|) == names
  {
    var file := head + Le4(4 + |names|) + names;
    WordOfLe4(4 + |names|);
    assert file[|head|..|head| + 4] == Le4(4 + |names|);
    assert file[|head| + 4..|file|] == names;
  }

  /** Symbol numbers lead back to the names the references were recorded under. */
  lemma NumberedName(symbols: seq<W.Sym>, rels: seq<Rel>, under: seq<Name>, r: nat)
    requires W.Numbered(symbols, rels, under) && r < |rels| && rels[r].isExtern && |symbols| <= SYMNUMS
    requires forall k :: 0 <= k < |symbols| ==> NoZero(symbols[k].name)
    ensures var table := Names(W.SymNames(symbols));
      HasString(table, rels[r].symbolnum) && L.NameOf(table, rels[r].symbolnum) == under[r]
  {
    assert W.NumberedAt(symbols, rels[r], under[r]);
    var k :| W.Named(symbols, k, under[r]) && rels[r].symbolnum == k % SYMNUMS;
    NamesRoundTrip(W.SymNames(symbols), k);
  }

  /** The entries of the two lists that go to the file, all internal in the second. */
  ghost predicate Internal(rels: seq<Rel>) { forall r :: 0 <= r < |rels| ==> !rels[r].isExtern }

  /** What the object writer demands for its fields to hold the numbers put in them, and names that
      have no zero byte. */
  ghost predicate Fits(symbols: seq<W.Sym>, textRel: seq<Rel>, dataRel: seq<Rel>) {
    && |symbols| <= SYMNUMS && 4 + |Names(W.SymNames(symbols))| < WORD
    && (forall k :: 0 <= k < |symbols| ==> NoZero(symbols[k].name))
    && Writable(textRel) && Writable(dataRel) && Internal(dataRel)
  }

  /** The sections link. */
  lemma SectionsLink(symbols: seq<W.Sym>, textRel: seq<Rel>, dataRel: seq<Rel>, under: seq<Name>)
    requires Fits(symbols, textRel, dataRel) && W.Numbered(symbols, textRel, under)
    ensures L.Linkable(Sections(textRel, dataRel, symbols), REL_SIZE * |textRel| + REL_SIZE * |dataRel|,
                       NLIST_SIZE * |symbols|)
  {
    SectionsRels(textRel, dataRel, symbols);
    SectionsTable(textRel, dataRel, symbols);
    var rels := textRel + dataRel;
    forall r | 0 <= r < |rels| && rels[r].isExtern ensures HasString(Names(W.SymNames(symbols)), rels[r].symbolnum) {
      assert r < |textRel|;
      NumberedName(symbols, textRel, under, r);
    }
  }

  /** The fate of an external reference through both programs, by the name it was recorded under. */
  lemma ReferenceFate(symbols: seq<W.Sym>, textRel: seq<Rel>, dataRel: seq<Rel>, under: seq<Name>, r: nat,
      l: L.Link, log: seq<L.Fixup>, routines: map<Name, L.Routine>)
    requires Fits(symbols, textRel, dataRel) && W.Numbered(symbols, textRel, under)
    requires r < |textRel| && textRel[r].isExtern && Alone(textRel + dataRel, r)
    requires L.Logged(log, textRel + dataRel)
    ensures Fate(l, L.FixAll(l, log, Names(W.SymNames(symbols)), routines), routines, L.TargetOf(under[r]),
                 textRel[r].address)
  {
    NumberedName(symbols, textRel, under, r);
    EntryFate(l, log, textRel + dataRel, Names(W.SymNames(symbols)), routines, r);
  }

  lemma FitsNumbered(symbols: seq<W.Sym>, symbols': seq<W.Sym>, textRel: seq<Rel>, textRel': seq<Rel>,
                     dataRel: seq<Rel>, under: seq<Name>)
    requires Fits(symbols, textRel, dataRel) && W.SymNames(symbols') == W.SymNames(symbols)
    requires W.SameButNumbers(textRel, textRel') && W.Numbered(symbols', textRel', under)
    ensures Fits(symbols', textRel', dataRel)
  {
    forall k | 0 <= k < |symbols'| ensures NoZero(symbols'[k].name) {
      assert W.SymNames(symbols')[k] == W.SymNames(symbols)[k];
    }
    forall r | 0 <= r < |textRel'| ensures textRel'[r].address < WORD && textRel'[r].symbolnum < SYMNUMS {
      if textRel'[r].isExtern {
        assert W.NumberedAt(symbols', textRel'[r], under[r]);
      }
    }
  }

  /** Only internal entries move words, so the word of a lone external one stands. */
  lemma FateFromStart(before: L.Link, moved: map<nat, int>, after: L.Link, rels: seq<Rel>, base: nat,
      routines: map<Name, L.Routine>, t: L.Target, r: nat)
    requires r < |rels| && Alone(rels, r) && rels[r].isExtern
    requires L.Moved(before.image, moved, rels, base)
    requires Fate(L.Link(moved, before.urx), after, routines, t, rels[r].address)
    ensures Fate(before, after, routines, t, rels[r].address)
  {
    InternalAlone(rels, r);
    assert L.WordAt(moved, rels[r].address) == L.WordAt(before.image, rels[r].address);
  }

  /** All the references, by the names and addresses they were recorded with. */
  ghost predicate AllFates(text0: seq<Rel>, dataRel: seq<Rel>, under: seq<Name>, before: L.Link, after: L.Link,
                           routines: map<Name, L.Routine>) {
    |under| == |text0| && forall r :: 0 <= r < |text0| && text0[r].isExtern && Alone(text0 + dataRel, r) ==>
      Fate(before, after, routines, L.TargetOf(under[r]), text0[r].address)
  }

  lemma LinkedFate(symbols: seq<W.Sym>, text0: seq<Rel>, textRel: seq<Rel>, dataRel: seq<Rel>, under: seq<Name>,
      before: L.Link, moved: map<nat, int>, log: seq<L.Fixup>, base: nat, routines: map<Name, L.Routine>, r: nat)
    requires Fits(symbols, textRel, dataRel) && W.Numbered(symbols, textRel, under) && W.SameButNumbers(text0, textRel)
    requires L.Moved(before.image, moved, textRel + dataRel, base) && L.Logged(log, textRel + dataRel)
    requires r < |text0| && text0[r].isExtern && Alone(text0 + dataRel, r)
    ensures r < |under| && Fate(before, L.FixAll(L.Link(moved, before.urx), log, Names(W.SymNames(symbols)), routines),
                                routines, L.TargetOf(under[r]), text0[r].address)
  {
    var rels := textRel + dataRel;
    forall q | 0 <= q < |rels| ensures rels[q].address == (text0 + dataRel)[q].address { }
    assert Alone(rels, r);
    ReferenceFate(symbols, textRel, dataRel, under, r, L.Link(moved, before.urx), log, routines);
    FateFromStart(before, moved, L.FixAll(L.Link(moved, before.urx), log, Names(W.SymNames(symbols)), routines),
                  rels, base, routines, L.TargetOf(under[r]), r);
  }

  lemma LinkedFates(symbols: seq<W.Sym>, text0: seq<Rel>, textRel: seq<Rel>, dataRel: seq<Rel>, under: seq<Name>,
      before: L.Link, moved: map<nat, int>, log: seq<L.Fixup>, base: nat, routines: map<Name, L.Routine>)
    requires Fits(symbols, textRel, dataRel) && W.Numbered(symbols, textRel, under) && W.SameButNumbers(text0, textRel)
    requires L.Moved(before.image, moved, textRel + dataRel, base) && L.Logged(log, textRel + dataRel)
    ensures AllFates(text0, dataRel, under, before,
      L.FixAll(L.Link(moved, before.urx), log, Names(W.SymNames(symbols)), routines), routines)
  {
    forall r | 0 <= r < |text0| && text0[r].isExtern && Alone(text0 + dataRel, r)
      ensures r < |under|
      ensures Fate(before, L.FixAll(L.Link(moved, before.urx), log, Names(W.SymNames(symbols)), routines),
                   routines, L.TargetOf(under[r]), text0[r].address)
    {
      LinkedFate(symbols, text0, textRel, dataRel, under, before, moved, log, base, routines, r);
    }
  }

  /** The object finished, and the part of the file the linker's address fixing reads. */
  method Write(w: W.ObjWriter) returns (tail: seq<Byte>)
    requires w.Valid() && Fits(w.symbols, w.textRel, w.dataRel)
    modifies w`file, w`emitBuff, w`symbols, w`textRel
    ensures Fits(w.symbols, w.textRel, w.dataRel) && W.Numbered(w.symbols, w.textRel, w.under)
    ensures W.SameButNumbers(old(w.textRel), w.textRel)
    ensures tail == Sections(w.textRel, w.dataRel, w.symbols) && w.file == old(w.Out()) + tail
  {
    ghost var text0, symbols0 := w.textRel, w.symbols;
    var head := |w.file| + |w.emitBuff|;
    w.FinishObjectFile();
    FitsNumbered(symbols0, w.symbols, text0, w.textRel, w.dataRel, w.under);
    tail := w.file[head..];
    SectionsAfter(old(w.Out()), w.textRel, w.dataRel, w.symbols);
  }

  lemma SectionsAfter(head: seq<Byte>, textRel: seq<Rel>, dataRel: seq<Rel>, symbols: seq<W.Sym>)
    ensures head + EncRels(textRel) + EncRels(dataRel) + W.EncSyms(symbols) + Le4(4 + |Names(W.SymNames(symbols))|) +
      Names(W.SymNames(symbols))
      == head + Sections(textRel, dataRel, symbols)
  {
    var names := Names(W.SymNames(symbols));
    Regroup(head, EncRels(textRel), EncRels(dataRel), W.EncSyms(symbols), Le4(4 + |names|), names);
  }

  lemma Regroup<T>(h: seq<T>, a: seq<T>, b: seq<T>, c: seq<T>, d: seq<T>, e: seq<T>)
    ensures h + a + b + c + d + e == h + (a + b + c + d + e)
  {
    assert h + (a + b + c + d + e) == h + (a + b + c + d) + e;
    assert h + (a + b + c + d) == h + (a + b + c) + d;
    assert h + (a + b + c) == h + a + b + c;
  }

  /** What the linker reads from the sections. */
  ghost predicate Reads(tail: seq<Byte>, trsize: nat, drsize: nat, syms: nat, rels: seq<Rel>, names: seq<Byte>) {
    && REL_SIZE * ((trsize + drsize) / REL_SIZE) <= |tail| && L.Linkable(tail, trsize + drsize, syms)
    && DecRels(tail, (trsize + drsize) / REL_SIZE) == rels && L.TableAt(tail, trsize + drsize + syms) == names
  }

  lemma SectionsRead(symbols: seq<W.Sym>, textRel: seq<Rel>, dataRel: seq<Rel>, under: seq<Name>)
    requires Fits(symbols, textRel, dataRel) && W.Numbered(symbols, textRel, under)
    ensures Reads(Sections(textRel, dataRel, symbols), REL_SIZE * |textRel|, REL_SIZE * |dataRel|,
                  NLIST_SIZE * |symbols|,
      textRel + dataRel, Names(W.SymNames(symbols)))
  {
    SectionsLink(symbols, textRel, dataRel, under);
    SectionsRels(textRel, dataRel, symbols);
    SectionsTable(textRel, dataRel, symbols);
  }

  method Link(l: L.Linker, tail: seq<Byte>, trsize: nat, drsize: nat, syms: nat, ghost rels: seq<Rel>,
              ghost names: seq<Byte>)
    returns (ok: bool, ghost log: seq<L.Fixup>, ghost moved: map<nat, int>)
    requires Reads(tail, trsize, drsize, syms, rels, names)
    modifies l`image, l`urx
    ensures ok && L.Moved(old(l.image), moved, rels, l.base) && L.Logged(log, rels)
    ensures l.Now() == L.FixAll(L.Link(moved, old(l.urx)), log, names, l.routines)
  {
    ok, log, moved := l.AddrFix(tail, trsize, drsize, syms);
  }

  /** A word is patched with `v`, or left with a place on the queue of `t` if there is no `v`. */
  ghost predicate PatchedOrQueued(before: L.Link, after: L.Link, a: nat, v: Option<int>, t: L.Target) {
    && (if v.Some? then a in after.image && after.image[a] == v.value
        else L.WordAt(after.image, a) == L.WordAt(before.image, a))
    && forall u :: multiset(L.Queue(after.urx, u))[a] ==
         multiset(L.Queue(before.urx, u))[a] + if v.None? && u == t then 1 else 0
  }

  lemma FateOutcome(before: L.Link, after: L.Link, routines: map<Name, L.Routine>, t: L.Target, a: nat)
    requires Fate(before, after, routines, t, a)
    ensures PatchedOrQueued(before, after, a, L.Bound(routines, t), t)
  {
    forall u ensures multiset(L.Queue(after.urx, u))[a] ==
      multiset(L.Queue(before.urx, u))[a] + if L.Bound(routines, t).None? && u == t then 1 else 0
    {
      L.TimesCounts(L.Queue(after.urx, u), a);
      L.TimesCounts(L.Queue(before.urx, u), a);
    }
  }

  /** The outcome for an external reference at `a` recorded under name `n`: a name without a dot stands for a
      routine; one with a dot for the first label of that name in the routine before the dot. An underscore at
      the start of either is a percent sign. The word is patched with the address, or left and queued if
      routine or label is missing. */
  ghost predicate Resolved(before: L.Link, after: L.Link, routines: map<Name, L.Routine>, n: Name, a: nat) {
    && (L.DOT !in n ==>
          var rtn := if n != [] && n[0] == L.UNDERSCORE then [L.PERCENT] + n[1..] else n;
          PatchedOrQueued(before, after, a, if rtn in routines then Some(routines[rtn].address) else None,
                          L.RoutineRef(rtn)))
    && (forall x, y :: n == x + [L.DOT] + y && L.DOT !in x ==>
          var rtn := if x != [] && x[0] == L.UNDERSCORE then [L.PERCENT] + x[1..] else x;
          var lab := if y != [] && y[0] == L.UNDERSCORE then [L.PERCENT] + y[1..] else y;
          LabelResolved(before, after, if rtn in routines then routines[rtn].labels else [], L.LabelRef(rtn, lab), a))
  }

  /** The first label of that name decides. */
  ghost predicate LabelResolved(before: L.Link, after: L.Link, labels: seq<L.Label>, t: L.Target, a: nat)
    requires t.LabelRef?
  {
    && (forall k :: (0 <= k < |labels| && labels[k].name == t.lab && forall j :: 0 <= j < k ==>
          labels[j].name != t.lab) ==>
          PatchedOrQueued(before, after, a, Some(labels[k].address), t))
    && ((forall k :: 0 <= k < |labels| ==> labels[k].name != t.lab) ==> PatchedOrQueued(before, after, a, None, t))
  }

  lemma FateResolved(before: L.Link, after: L.Link, routines: map<Name, L.Routine>, n: Name, a: nat)
    requires Fate(before, after, routines, L.TargetOf(n), a)
    ensures Resolved(before, after, routines, n, a)
  {
    FateOutcome(before, after, routines, L.TargetOf(n), a);
    if L.DOT !in n {
      L.RoutineName(n);
      L.RoutineBound(routines, L.TargetOf(n).rtn);
    }
    forall x, y | n == x + [L.DOT] + y && L.DOT !in x
      ensures
        var rtn := if x != [] && x[0] == L.UNDERSCORE then [L.PERCENT] + x[1..] else x;
        var lab := if y != [] && y[0] == L.UNDERSCORE then [L.PERCENT] + y[1..] else y;
        LabelResolved(before, after, if rtn in routines then routines[rtn].labels else [], L.LabelRef(rtn, lab), a)
    {
      L.LabelName(x, y);
      LabelOutcome(before, after, routines, L.TargetOf(n), a);
    }
  }

  lemma FatesResolved(text0: seq<Rel>, dataRel: seq<Rel>, under: seq<Name>, before: L.Link, after: L.Link,
                      routines: map<Name, L.Routine>)
    requires AllFates(text0, dataRel, under, before, after, routines)
    ensures var rels := text0 + dataRel;
      forall r :: 0 <= r < |under| && rels[r].isExtern && Alone(rels, r) ==>
        Resolved(before, after, routines, under[r], rels[r].address)
  {
    var rels := text0 + dataRel;
    forall r | 0 <= r < |under| && rels[r].isExtern && Alone(rels, r)
      ensures Resolved(before, after, routines, under[r], rels[r].address)
    {
      FateResolved(before, after, routines, under[r], rels[r].address);
    }
  }

  lemma LabelOutcome(before: L.Link, after: L.Link, routines: map<Name, L.Routine>, t: L.Target, a: nat)
    requires t.LabelRef? && PatchedOrQueued(before, after, a, L.Bound(routines, t), t)
    ensures LabelResolved(before, after, if t.rtn in routines then routines[t.rtn].labels else [], t, a)
  {
    L.LabelBound(routines, t.rtn, t.lab);
  }

  lemma {:induction false} InternalCounts(rels: seq<Rel>, r: nat)
    requires r < |rels| && Alone(rels, r) && !rels[r].isExtern
    ensures L.CountInternal(rels, rels[r].address) == 1
    ensures forall s: nat :: L.Count(rels, s, rels[r].address) == 0
  {
    var m := |rels| - 1;
    if r < m {
      InternalCounts(rels[..m], r);
    } else {
      forall s: nat ensures L.Count(rels, s, rels[r].address) == 0 {
        CountFree(rels[..m], s, rels[r].address);
      }
      CountFree(rels[..m], 0, rels[r].address);
    }
  }

  /** An internal reference whose address is its own moves its word by the base, once. */
  lemma InternalFate(before: L.Link, moved: map<nat, int>, log: seq<L.Fixup>, rels: seq<Rel>, table: seq<Byte>,
                     base: nat, routines: map<Name, L.Routine>, after: L.Link, r: nat, a: nat)
    requires r < |rels| && Alone(rels, r) && !rels[r].isExtern && a == rels[r].address
    requires L.Moved(before.image, moved, rels, base) && L.Logged(log, rels)
    requires after == L.FixAll(L.Link(moved, before.urx), log, table, routines)
    ensures MovedBy(before.image, after.image, base, a)
  {
    InternalCounts(rels, r);
    forall j | 0 <= j < |log| ensures log[j].address != a {
      Counted(log, j);
    }
    Untouched(L.Link(moved, before.urx), log, table, routines, a);
    OneRebase(L.WordAt(before.image, a), base);
  }

  lemma OneRebase(w: int, base: int)
    ensures L.Rebased(w, 1, base) == (w + base) % WORD
  {
    assert L.Rebased(w, 0, base) == w;
  }

  /** The word at `a` has moved by the base, in 32 bits. */
  ghost predicate MovedBy(before: map<nat, int>, after: map<nat, int>, base: nat, a: nat) {
    L.WordAt(after, a) == (L.WordAt(before, a) + base) % 0x1_0000_0000
  }

  lemma InternalOne(before: L.Link, moved: map<nat, int>, log: seq<L.Fixup>, text0: seq<Rel>, textRel: seq<Rel>,
                    dataRel: seq<Rel>, table: seq<Byte>, base: nat, routines: map<Name, L.Routine>, after: L.Link,
                    r: nat)
    requires L.Moved(before.image, moved, textRel + dataRel, base) && L.Logged(log, textRel + dataRel)
    requires W.SameButNumbers(text0, textRel) && after == L.FixAll(L.Link(moved, before.urx), log, table, routines)
    requires r < |text0 + dataRel| && !(text0 + dataRel)[r].isExtern && Alone(text0 + dataRel, r)
    ensures MovedBy(before.image, after.image, base, (text0 + dataRel)[r].address)
  {
    SameAlone(text0, textRel, dataRel, r);
    InternalFate(before, moved, log, textRel + dataRel, table, base, routines, after, r, (text0 + dataRel)[r].address);
  }

  /** All of them, by the addresses they were recorded with. */
  ghost predicate InternalsMoved(rels: seq<Rel>, before: map<nat, int>, after: map<nat, int>, base: nat) {
    forall r :: 0 <= r < |rels| && !rels[r].isExtern && Alone(rels, r) ==> MovedBy(before, after, base, rels[r].address)
  }

  lemma InternalFates(before: L.Link, moved: map<nat, int>, log: seq<L.Fixup>, text0: seq<Rel>, textRel: seq<Rel>,
                      dataRel: seq<Rel>, table: seq<Byte>, base: nat, routines: map<Name, L.Routine>, after: L.Link)
    requires L.Moved(before.image, moved, textRel + dataRel, base) && L.Logged(log, textRel + dataRel)
    requires W.SameButNumbers(text0, textRel) && after == L.FixAll(L.Link(moved, before.urx), log, table, routines)
    ensures InternalsMoved(text0 + dataRel, before.image, after.image, base)
  {
    var rels := text0 + dataRel;
    forall r | 0 <= r < |rels| && !rels[r].isExtern && Alone(rels, r)
      ensures MovedBy(before.image, after.image, base, rels[r].address)
    {
      InternalOne(before, moved, log, text0, textRel, dataRel, table, base, routines, after, r);
    }
  }

  lemma SameAlone(text0: seq<Rel>, textRel: seq<Rel>, dataRel: seq<Rel>, r: nat)
    requires W.SameButNumbers(text0, textRel) && r < |text0 + dataRel| && Alone(text0 + dataRel, r)
    ensures var rels, rels0 := textRel + dataRel, text0 + dataRel;
      && |rels| == |rels0| && Alone(rels, r)
      && rels[r].address == rels0[r].address && rels[r].isExtern == rels0[r].isExtern
  {
    var rels, rels0 := textRel + dataRel, text0 + dataRel;
    forall q | 0 <= q < |rels| ensures rels[q].address == rels0[q].address { }
  }

  /** A finished object is linked: it always links, each external reference that was recorded at an address of
      its own is patched or queued exactly once, by the name it was recorded with, and each internal one has its
      word moved by the base. */
  method WriteThenLink(w: W.ObjWriter, l: L.Linker) returns (ok: bool)
    requires w.Valid() && Fits(w.symbols, w.textRel, w.dataRel)
    modifies w, l
    ensures ok
    ensures w.under == old(w.under) && w.dataRel == old(w.dataRel) && |w.under| == |old(w.textRel)|
    ensures var rels := old(w.textRel) + w.dataRel;
      forall r :: 0 <= r < |w.under| && rels[r].isExtern && Alone(rels, r) ==>
        Resolved(old(l.Now()), l.Now(), l.routines, w.under[r], rels[r].address)
    ensures InternalsMoved(old(w.textRel) + w.dataRel, old(l.image), l.image, l.base)
  {
    ghost var text0 := w.textRel;
    var tail := Write(w);
    SectionsRead(w.symbols, w.textRel, w.dataRel, w.under);
    ghost var log, moved;
    ok, log, moved := Link(l, tail, REL_SIZE * |w.textRel|, REL_SIZE * |w.dataRel|, NLIST_SIZE * |w.symbols|,
      w.textRel + w.dataRel, Names(W.SymNames(w.symbols)));
    LinkedFates(w.symbols, text0, w.textRel, w.dataRel, w.under, old(l.Now()), moved, log, l.base, l.routines);
    FatesResolved(text0, w.dataRel, w.under, old(l.Now()), l.Now(), l.routines);
    InternalFates(old(l.Now()), moved, log, text0, w.textRel, w.dataRel, Names(W.SymNames(w.symbols)), l.base,
                  l.routines, l.Now());
  }
}
