/** The layout of an object file after its code and literals: relocation entries, symbol entries and
    the string table (sr_i386/masscomp.h), with the decoding that the linker does. */
module ObjFormat {
  import opened Bytes

  type Name = seq<Byte>

  const SYMNUMS: int := 0x100_0000

  /** A relocation entry; its remaining fields are constant: not pc-relative, length code 2, no pad. */
  datatype Rel = Rel(address: nat, symbolnum: nat, isExtern: bool)

  const REL_SIZE: nat := 8
  const NLIST_SIZE: nat := 12

  /** Eight bytes: the address, 24 bits of symbol number and the flag byte. */
  function EncRel(r: Rel): (b: seq<Byte>)
    ensures |b| == REL_SIZE
  {
    Le4(r.address) + Le4(r.symbolnum)[..3] + [if r.isExtern then 12 else 4]
  }

  function DecRel(b: seq<Byte>): (r: Rel)
    requires |b| == REL_SIZE
  {
    Rel(Word(b[..4]), (b[4] as int) + 256 * (b[5] as int) + 65536 * (b[6] as int), b[7] / 8 % 2 == 1)
  }

  function EncRels(rels: seq<Rel>): (b: seq<Byte>)
    ensures |b| == REL_SIZE * |rels|
  {
    if rels == [] then [] else EncRels(rels[..|rels| - 1]) + EncRel(rels[|rels| - 1])
  }

  /** The bytes of entry `i`. */
  function Entry(b: seq<Byte>, i: nat): (e: seq<Byte>)
    requires REL_SIZE * i + REL_SIZE <= |b|
    ensures |e| == REL_SIZE
  {
    b[REL_SIZE * i..REL_SIZE * i + REL_SIZE]
  }

  /** What the reader makes of `n` entries at the head of `b`. */
  ghost function DecRels(b: seq<Byte>, n: nat): (rels: seq<Rel>)
    requires REL_SIZE * n <= |b|
    ensures |rels| == n
  {
    seq(n, i requires 0 <= i < n => DecRel(Entry(b, i)))
  }

  /** The names one after the other, each ended by a zero byte. */
  function Names(names: seq<Name>): (b: seq<Byte>) {
    if names == [] then [] else Names(names[..|names| - 1]) + names[|names| - 1] + [0]
  }

  ghost predicate NoZero(n: Name) { forall i :: 0 <= i < |n| ==> n[i] != 0 }

  /** The first zero byte from `p` on, or the end. */
  function ZeroFrom(b: seq<Byte>, p: nat): (e: nat)
    requires p <= |b|
    ensures p <= e <= |b| && (e < |b| ==> b[e] == 0)
    ensures forall i :: p <= i < e ==> b[i] != 0
    decreases |b| - p
  {
    if p == |b| || b[p] == 0 then p else ZeroFrom(b, p + 1)
  }

  /** Where the `k`-th zero-ended string of `b` begins, if `b` has as many. */
  function StringStart(b: seq<Byte>, k: nat): (r: int)
    ensures r <= |b|
    decreases k
  {
    if k == 0 then 0
    else
      var s := StringStart(b, k - 1);
      if s < 0 then -1
      else
        var e := ZeroFrom(b, s);
        if e < |b| then e + 1 else -1
  }

  /** The `k`-th string is there, with its end. */
  predicate HasString(b: seq<Byte>, k: nat) {
    StringStart(b, k + 1) >= 0
  }

  function StringAt(b: seq<Byte>, k: nat): (n: Name)
    requires HasString(b, k)
    ensures NoZero(n)
  {
    var s := StringStart(b, k);
    b[s..ZeroFrom(b, s)]
  }

  /** An entry survives, up to the 24 bits that hold its symbol number; it is not pc-relative, has length code 2
      and no pad bits. */
  lemma RelRoundTrip(r: Rel)
    requires r.address < WORD
    ensures DecRel(EncRel(r)) == r.(symbolnum := r.symbolnum % SYMNUMS)
    ensures var flags := EncRel(r)[7]; flags % 2 == 0 && flags / 2 % 4 == 2 && flags / 16 == 0
  {
    WordOfLe4(r.address);
    var b := EncRel(r);
    assert b[..4] == Le4(r.address);
    var s := r.symbolnum;
    assert b[4] == s % 256 && b[5] == s / 256 % 256 && b[6] == s / 65536 % 256;
    Low24(s);
  }

  lemma Low24(s: nat)
    ensures s % 256 + 256 * (s / 256 % 256) + 65536 * (s / 65536 % 256) == s % SYMNUMS
  {
    var q := s / SYMNUMS;
    assert s / 65536 == s / 256 / 256;
    assert s / 65536 / 256 == q;
  }

  lemma {:induction false} EncRelsAt(rels: seq<Rel>, i: nat)
    requires i < |rels|
    ensures Entry(EncRels(rels), i) == EncRel(rels[i])
  {
    var m := |rels| - 1;
    if i < m {
      EncRelsAt(rels[..m], i);
      SliceOfHead(EncRels(rels[..m]), EncRel(rels[m]), REL_SIZE * i, REL_SIZE * i + REL_SIZE);
    }
  }

  lemma EntryOfHead(a: seq<Byte>, b: seq<Byte>, i: nat)
    requires REL_SIZE * i + REL_SIZE <= |a|
    ensures Entry(a + b, i) == Entry(a, i)
  {
    SliceOfHead(a, b, REL_SIZE * i, REL_SIZE * i + REL_SIZE);
  }

  lemma RelAt(rels: seq<Rel>, rest: seq<Byte>, i: nat)
    requires i < |rels|
    ensures Entry(EncRels(rels) + rest, i) == EncRel(rels[i])
  {
    EntryOfHead(EncRels(rels), rest, i);
    EncRelsAt(rels, i);
  }

  lemma RelExact(e: seq<Byte>, r: Rel)
    requires r.address < WORD && r.symbolnum < SYMNUMS && e == EncRel(r)
    ensures |e| == REL_SIZE && DecRel(e) == r
  {
    RelRoundTrip(r);
  }

  lemma SliceOfHead<T>(a: seq<T>, b: seq<T>, i: nat, j: nat)
    requires i <= j <= |a|
    ensures (a + b)[i..j] == a[i..j]
  {
  }

  /** The reader gets the written entries back. */
  lemma RelsRoundTrip(rels: seq<Rel>, rest: seq<Byte>)
    requires forall i :: 0 <= i < |rels| ==> rels[i].address < WORD && rels[i].symbolnum < SYMNUMS
    ensures DecRels(EncRels(rels) + rest, |rels|) == rels
  {
    forall i: nat | i < |rels| ensures DecRel(Entry(EncRels(rels) + rest, i)) == rels[i] {
      RelAt(rels, rest, i);
      RelExact(Entry(EncRels(rels) + rest, i), rels[i]);
    }
    DecRelsAre(EncRels(rels) + rest, rels);
  }

  lemma DecRelsAre(b: seq<Byte>, rels: seq<Rel>)
    requires REL_SIZE * |rels| <= |b| && forall i: nat :: i < |rels| ==> DecRel(Entry(b, i)) == rels[i]
    ensures DecRels(b, |rels|) == rels
  {
  }

  lemma {:induction false} NamesSplit(names: seq<Name>, k: nat)
    requires k < |names|
    ensures |Names(names[..k + 1])| <= |Names(names)|
    ensures Names(names)[..|Names(names[..k + 1])|] == Names(names[..k]) + names[k] + [0]
  {
    assert names[..k + 1][..k] == names[..k];
    if k + 1 < |names| {
      var m := |names| - 1;
      NamesSplit(names[..m], k);
      assert names[..m][..k + 1] == names[..k + 1] && names[..m][..k] == names[..k];
    } else {
      assert names[..k + 1] == names;
    }
  }

  /** The walk over the string table finds every name, in order. */
  lemma {:induction false} NamesRoundTrip(names: seq<Name>, k: nat)
    requires k <= |names| && forall i :: 0 <= i < |names| ==> NoZero(names[i])
    ensures StringStart(Names(names), k) == |Names(names[..k])|
    ensures k < |names| ==> HasString(Names(names), k) && StringAt(Names(names), k) == names[k]
  {
    if k > 0 {
      NamesRoundTrip(names, k - 1);
      NamesStep(names, k - 1);
    }
    if k < |names| {
      NamesStep(names, k);
    } else {
      assert names[..k] == names;
    }
  }

  lemma NamesAround(names: seq<Name>, k: nat)
    requires k < |names|
    ensures var s := |Names(names[..k])|;
      && s + |names[k]| + 1 == |Names(names[..k + 1])| <= |Names(names)|
      && Names(names)[s..] == names[k] + [0] + Names(names)[s + |names[k]| + 1..]
  {
    NamesSplit(names, k);
    assert names[..k + 1][..k] == names[..k];
    var b, s, e := Names(names), |Names(names[..k])|, |Names(names[..k + 1])|;
    assert b[s..] == b[..e][s..] + b[e..];
  }

  lemma TextAt(b: seq<Byte>, s: nat, n: Name)
    requires s + |n| + 1 <= |b| && b[s..] == n + [0] + b[s + |n| + 1..]
    ensures b[s..s + |n|] == n && b[s + |n|] == 0
    ensures forall i :: s <= i < s + |n| ==> b[i] == n[i - s]
  {
    assert b[s..][|n|] == 0;
    assert forall j :: 0 <= j < |n| ==> b[s..][j] == n[j] == b[s + j];
  }

  lemma NamesStep(names: seq<Name>, k: nat)
    requires k < |names| && NoZero(names[k])
    requires StringStart(Names(names), k) == |Names(names[..k])|
    ensures StringStart(Names(names), k + 1) == |Names(names[..k + 1])|
    ensures HasString(Names(names), k) && StringAt(Names(names), k) == names[k]
  {
    var b, s, n := Names(names), |Names(names[..k])|, names[k];
    NamesAround(names, k);
    var e := s + |n|;
    TextAt(b, s, n);
    assert ZeroFrom(b, s) == e;
  }
}
