/** The buddy list of sr_port/buddy_list.c: rows that double in size, addressed as one flat sequence. An
    address is a row and an offset in it, in elements. */
module BuddyList {
  import opened Options

  datatype Address = Address(row: nat, offset: nat)

  function Pow2(n: nat): (p: nat)
    ensures p > 0
  {
    if n == 0 then 1 else 2 * Pow2(n - 1)
  }

  /** How many elements the rows before row `i` hold together. */
  function RowStart(init: nat, i: nat): nat {
    if i == 0 then 0 else init * Pow2(i - 1)
  }

  function RowSize(init: nat, i: nat): nat {
    if i == 0 then init else init * Pow2(i - 1)
  }

  /** The rows up to and with row `i` hold `init * 2^i` elements. */
  lemma RowEnd(init: nat, i: nat)
    ensures RowStart(init, i) + RowSize(init, i) == init * Pow2(i) == RowStart(init, i + 1)
  {
    if i > 0 {
      assert init * Pow2(i) == init * (2 * Pow2(i - 1)) == 2 * (init * Pow2(i - 1));
    }
  }

  lemma RowNonempty(init: nat, i: nat)
    requires init > 0
    ensures RowSize(init, i) >= 1
  {
    if i > 0 {
      TimesOne(init, Pow2(i - 1));
    }
  }

  lemma {:induction false} RowsIncrease(init: nat, i: nat, j: nat)
    requires i <= j
    ensures RowStart(init, i) <= RowStart(init, j)
    ensures (i < j ==> RowStart(init, i) + RowSize(init, i) <= RowStart(init, j))
    decreases j
  {
    if i < j {
      RowsIncrease(init, i, j - 1);
      RowEnd(init, j - 1);
    }
  }

  /** Element `k` of the flat sequence is in row `i`. */
  ghost predicate InRow(init: nat, k: nat, i: nat) {
    RowStart(init, i) <= k < RowStart(init, i) + RowSize(init, i)
  }

  /** The place of element `k`. */
  ghost predicate At(init: nat, k: nat, a: Address) {
    InRow(init, k, a.row) && a.offset == k - RowStart(init, a.row)
  }

  lemma InRowOnce(init: nat, k: nat, i: nat, j: nat)
    requires InRow(init, k, i) && InRow(init, k, j)
    ensures i == j
  {
    if i < j {
      RowsIncrease(init, i, j);
    } else if j < i {
      RowsIncrease(init, j, i);
    }
  }

  /** Places and numbers correspond one to one. */
  lemma AtOnce(init: nat, j: nat, k: nat, a: Address, b: Address)
    requires At(init, j, a) && At(init, k, b)
    ensures a == b <==> j == k
  {
    if j == k {
      InRowOnce(init, k, a.row, b.row);
    }
  }

  class Buddy<V(0)> {
    const initAlloc: nat
    const initAllocBits: nat
    /** The rows allocated so far, which are never given back. */
    var ptrArray: seq<array<V>>
    var nElems: nat
    var cumulMaxElems: nat
    var cur: nat
    var nextFree: Address
    /** Elements given back one by one, the last one first. */
    var freeQue: seq<Address>

    /** A list of `2^bits` elements in its first row. */
    constructor (bits: nat)
      ensures Valid() && nElems == 0 && initAlloc == Pow2(bits) && fresh(Rows())
    {
      initAlloc, initAllocBits := Pow2(bits), bits;
      var row := new V[Pow2(bits)];
      ptrArray := [row];
      nElems, cumulMaxElems, cur, nextFree, freeQue := 0, Pow2(bits), 0, Address(0, 0), [];
    }

    /** reinitialize_list: empty again, with the rows kept. */
    method ReinitializeList()
      requires Valid()
      modifies this`nElems, this`cumulMaxElems, this`cur, this`nextFree, this`freeQue
      ensures Valid() && FreeGood() && nElems == 0 && forall a :: !InUse(a)
    {
      nElems, cumulMaxElems, cur, nextFree, freeQue := 0, initAlloc, 0, Address(0, 0), [];
    }

    /** The place of some element handed out. */
    ghost predicate Handed(a: Address) reads this { exists k: nat :: k < nElems && At(initAlloc, k, a) }

    ghost predicate InUse(a: Address) reads this { Handed(a) && a !in freeQue }

    ghost predicate FreeGood() reads this {
      && (forall i :: 0 <= i < |freeQue| ==> Handed(freeQue[i]))
      && (forall i, j :: 0 <= i < j < |freeQue| ==> freeQue[i] != freeQue[j])
    }

    /** get_new_free_element: an element that nobody is using. */
    method GetNewFreeElement() returns (a: Address)
      requires Valid() && FreeGood()
      modifies this
      ensures Valid() && FreeGood() && !old(InUse(a)) && InUse(a)
      ensures forall b :: b != a ==> (InUse(b) <==> old(InUse(b)))
      ensures if old(freeQue) != [] then a == old(freeQue)[0] && nElems == old(nElems) else nElems == old(nElems) + 1
    {
      if freeQue != [] {
        a := freeQue[0];
        assert freeQue == [a] + freeQue[1..];
        freeQue := freeQue[1..];
        return;
      }
      ghost var n := nElems;
      a := GetNewElements(1);
      assert nElems == n + 1 && At(initAlloc, n, a);
      forall b ensures Handed(b) <==> (b == a || old(Handed(b))) {
        if k: nat :| k < nElems && At(initAlloc, k, b) {
          AtOnce(initAlloc, k, n, b, a);
        }
      }
      assert !old(Handed(a)) by {
        if k: nat :| k < n && At(initAlloc, k, a) {
          AtOnce(initAlloc, k, n, a, a);
        }
      }
    }

    /** free_element: the element is not in use any more, and the others are as before. */
    method FreeElement(a: Address)
      requires Valid() && FreeGood() && InUse(a)
      modifies this`freeQue
      ensures Valid() && FreeGood() && !InUse(a) && freeQue == [a] + old(freeQue)
      ensures forall b :: b != a ==> (InUse(b) <==> old(InUse(b)))
    {
      freeQue := [a] + freeQue;
    }

    ghost function Rows(): set<object> reads this { set i | 0 <= i < |ptrArray| :: ptrArray[i] as object }

    /** The rows: as many as were ever needed, doubling, and apart from one another. */
    ghost predicate RowsGood() reads this {
      && initAlloc == Pow2(initAllocBits) && ptrArray != []
      && (forall i :: 0 <= i < |ptrArray| ==> ptrArray[i].Length == RowSize(initAlloc, i))
      && (forall i, j :: 0 <= i < j < |ptrArray| ==> ptrArray[i] != ptrArray[j])
    }

    /** The allocation state for `n` elements in row `c`: it is determined by `n`. */
    ghost predicate StateFor(n: nat, c: nat, cumul: nat, next: Address) reads this {
      && cumul == initAlloc * Pow2(c) && (c > 0 ==> RowStart(initAlloc, c) < n) && RowStart(initAlloc, c) <= n <= cumul
      && next == Address(c, n - RowStart(initAlloc, c))
    }

    ghost predicate Valid() reads this {
      RowsGood() && cur < |ptrArray| && StateFor(nElems, cur, cumulMaxElems, nextFree)
    }

    /** The state is a function of the number of elements. */
    lemma StateOnce(n: nat, c: nat, cumul: nat, next: Address, c': nat, cumul': nat, next': Address)
      requires initAlloc > 0 && StateFor(n, c, cumul, next) && StateFor(n, c', cumul', next')
      ensures c == c' && cumul == cumul' && next == next'
    {
      RowEnd(initAlloc, c);
      RowEnd(initAlloc, c');
      if c < c' {
        RowsIncrease(initAlloc, c, c');
      } else if c' < c {
        RowsIncrease(initAlloc, c', c);
      }
    }

    /** A row for index `i`, if there is none yet. */
    method EnsureRow(i: nat, size: nat)
      requires RowsGood() && i <= |ptrArray| && size == RowSize(initAlloc, i)
      modifies this`ptrArray
      ensures RowsGood() && i < |ptrArray| && |ptrArray| >= |old(ptrArray)|
      ensures ptrArray[..|old(ptrArray)|] == old(ptrArray)
      ensures fresh(Rows() - old(Rows()))
    {
      if i == |ptrArray| {
        var row := new V[size];
        ptrArray := ptrArray + [row];
      }
    }

    /** get_new_element for `n` elements in one row; what is left of the rows before it is skipped. */
    method GetNewElements(n: nat) returns (a: Address)
      requires Valid() && n > 0
      modifies this`ptrArray, this`cur, this`nElems, this`cumulMaxElems, this`nextFree
      ensures Valid() && nElems - n >= old(nElems) && At(initAlloc, nElems - n, a)
      ensures a.row < |ptrArray| && a.offset + n <= ptrArray[a.row].Length
      ensures n == 1 ==> nElems == old(nElems) + 1
      ensures old(nElems) + n <= RowStart(initAlloc, old(cur)) + RowSize(initAlloc, old(cur)) ==>
        nElems == old(nElems) + n
      ensures old(nElems) + n > RowStart(initAlloc, old(cur)) + RowSize(initAlloc, old(cur)) ==>
        a.row > old(cur) && a.offset == 0 && TooShort(old(cur), a.row, n)
      ensures |ptrArray| >= |old(ptrArray)| && ptrArray[..|old(ptrArray)|] == old(ptrArray)
      ensures fresh(Rows() - old(Rows()))
    {
      RowEnd(initAlloc, cur);
      if nElems + n <= cumulMaxElems {
        a := nextFree;
        nextFree := Address(nextFree.row, nextFree.offset + n);
        nElems := nElems + n;
        return;
      }
      a := SkipRows(n);
      RowEnd(initAlloc, cur);
      RowNonempty(initAlloc, old(cur) + 1);
      RowEnd(initAlloc, old(cur));
      nextFree := Address(cur, n);
      nElems := nElems + n;
    }

    /** On to the first later row with room for `n` elements. */
    method SkipRows(n: nat) returns (a: Address)
      requires RowsGood() && cur < |ptrArray| && cumulMaxElems == initAlloc * Pow2(cur) && nElems <= cumulMaxElems
      modifies this`ptrArray, this`cur, this`nElems, this`cumulMaxElems
      ensures RowsGood() && old(cur) < cur < |ptrArray| && a == Address(cur, 0) && nElems + n <= cumulMaxElems
      ensures nElems == RowStart(initAlloc, cur) && cumulMaxElems == initAlloc * Pow2(cur)
      ensures nElems >= old(nElems) && TooShort(old(cur), cur, n)
      ensures |ptrArray| >= |old(ptrArray)| && ptrArray[..|old(ptrArray)|] == old(ptrArray)
      ensures fresh(Rows() - old(Rows()))
    {
      a := NextRow();
      while nElems + n > cumulMaxElems
        invariant RowsGood() && old(cur) < cur < |ptrArray| && a == Address(cur, 0)
        invariant nElems == RowStart(initAlloc, cur) && cumulMaxElems == initAlloc * Pow2(cur)
        invariant nElems >= old(nElems) && TooShort(old(cur), cur, n)
        invariant |ptrArray| >= |old(ptrArray)| && ptrArray[..|old(ptrArray)|] == old(ptrArray)
        invariant fresh(Rows() - old(Rows()))
        decreases nElems + n - cumulMaxElems
      {
        ShortMore(old(cur), cur, n);
        a := NextRow();
      }
    }

    /** Row `c` has no room for `n` elements either. */
    lemma ShortMore(from: nat, c: nat, n: nat)
      requires TooShort(from, c, n) && RowStart(initAlloc, c) + n > initAlloc * Pow2(c)
      ensures TooShort(from, c + 1, n) && RowStart(initAlloc, c) <= initAlloc * Pow2(c)
    {
      RowEnd(initAlloc, c);
    }

    /** None of the rows after `from` and before `to` has room for `n` elements. */
    ghost predicate TooShort(from: nat, to: nat, n: nat) {
      forall r :: from < r < to ==> RowSize(initAlloc, r) < n
    }

    /** On to the start of the next row. */
    method NextRow() returns (a: Address)
      requires RowsGood() && cur < |ptrArray| && cumulMaxElems == initAlloc * Pow2(cur)
      modifies this`ptrArray, this`cur, this`nElems, this`cumulMaxElems
      ensures RowsGood() && cur == old(cur) + 1 < |ptrArray| && a == Address(cur, 0)
      ensures nElems == old(cumulMaxElems) == RowStart(initAlloc, cur)
      ensures cumulMaxElems == 2 * old(cumulMaxElems) == initAlloc * Pow2(cur)
      ensures |ptrArray| >= |old(ptrArray)| && ptrArray[..|old(ptrArray)|] == old(ptrArray)
      ensures fresh(Rows() - old(Rows()))
    {
      RowEnd(initAlloc, cur);
      RowEnd(initAlloc, cur + 1);
      cur := cur + 1;
      EnsureRow(cur, cumulMaxElems);
      a := Address(cur, 0);
      nElems := cumulMaxElems;
      cumulMaxElems := cumulMaxElems * 2;
    }

    /** free_last_n_elements: back to the state for that many fewer elements, across rows. */
    method FreeLastNElements(num: nat) returns (ok: bool)
      requires Valid()
      modifies this`nElems, this`cumulMaxElems, this`cur, this`nextFree
      ensures Valid() && ok == (old(nElems) >= num) && nElems == if ok then old(nElems) - num else old(nElems)
      ensures !ok ==> unchanged(this)
    {
      if nElems < num {
        return false;
      }
      RowEnd(initAlloc, cur);
      var c: nat, numLeft := cur, num;
      var rowElemsLeft := nextFree.offset;
      var rowElemsMax := nElems - rowElemsLeft;
      var cumul := cumulMaxElems;
      while numLeft >= rowElemsLeft && c != 0
        invariant c <= cur && 0 <= numLeft <= num && 0 <= rowElemsLeft && cumul == initAlloc * Pow2(c)
        invariant RowStart(initAlloc, c) + rowElemsLeft - numLeft == nElems - num
        invariant rowElemsLeft <= RowSize(initAlloc, c)
        invariant c > 0 ==> rowElemsMax == RowStart(initAlloc, c)
        modifies {}
        decreases c
      {
        RowEnd(initAlloc, c - 1);
        RowEnd(initAlloc, c);
        numLeft := numLeft - rowElemsLeft;
        cumul := cumul - rowElemsMax;
        Halved(initAlloc, c);
        if rowElemsMax != initAlloc {
          rowElemsMax := rowElemsMax / 2;
        }
        rowElemsLeft := rowElemsMax;
        c := c - 1;
      }
      RowEnd(initAlloc, c);
      nElems := nElems - num;
      cumulMaxElems := cumul;
      cur := c;
      nextFree := Address(c, rowElemsLeft - numLeft);
      return true;
    }

    /** Any run of single allocations is undone by freeing as many elements: the allocation state is
        what it was, and the rows that were there are still there. */
    method AllocateThenFree(n: nat) returns (ok: bool)
      requires Valid()
      modifies this
      ensures ok && nElems == old(nElems) && cumulMaxElems == old(cumulMaxElems) && cur == old(cur)
      ensures nextFree == old(nextFree)
      ensures |ptrArray| >= |old(ptrArray)| && ptrArray[..|old(ptrArray)|] == old(ptrArray)
    {
      var i := 0;
      while i < n
        invariant i <= n && Valid() && nElems == old(nElems) + i
        invariant |ptrArray| >= |old(ptrArray)| && ptrArray[..|old(ptrArray)|] == old(ptrArray)
      {
        var a := GetNewElements(1);
        i := i + 1;
      }
      ok := FreeLastNElements(n);
      StateOnce(nElems, cur, cumulMaxElems, nextFree, old(cur), old(cumulMaxElems), old(nextFree));
    }

    /** copy_list_to_buf: the first `num` elements, in order. */
    method CopyListToBuf(num: nat) returns (dst: seq<V>)
      requires Valid() && 0 < num <= nElems
      ensures |dst| == num && Copied(dst)
    {
      dst := [];
      var i, numLeft := 0, num;
      var curElems, cumul := initAlloc, initAlloc;
      RowEnd(initAlloc, cur);
      while true
        invariant 0 < numLeft <= num && |dst| == num - numLeft == RowStart(initAlloc, i) && i <= cur
        invariant curElems == RowSize(initAlloc, i) && cumul == initAlloc * Pow2(i)
        invariant Copied(dst)
        decreases cur - i
      {
        RowEnd(initAlloc, i);
        RowEnd(initAlloc, i + 1);
        var copyElems := if numLeft < curElems then numLeft else curElems;
        numLeft := numLeft - copyElems;
        CopiedMore(dst, i, copyElems);
        dst := dst + ptrArray[i][..copyElems];
        if numLeft == 0 {
          break;
        }
        if i >= cur {
          RowsIncrease(initAlloc, cur, i);
        }
        curElems := cumul;
        cumul := cumul * 2;
        i := i + 1;
      }
    }

    /** `dst` holds the elements from number 0 on. */
    ghost predicate Copied(dst: seq<V>)
      requires RowsGood()
      reads this, Rows()
    {
      forall k: nat, a :: k < |dst| && At(initAlloc, k, a) ==> ValueAt(a, dst[k])
    }

    ghost predicate ValueAt(a: Address, v: V)
      requires RowsGood()
      reads this, Rows()
    {
      a.row < |ptrArray| && a.offset < ptrArray[a.row].Length && ptrArray[a.row][a.offset] == v
    }

    lemma CopiedMore(dst: seq<V>, i: nat, n: nat)
      requires RowsGood() && i < |ptrArray| && Copied(dst) && |dst| == RowStart(initAlloc, i) && n <= ptrArray[i].Length
      ensures Copied(dst + ptrArray[i][..n])
    {
      var dst' := dst + ptrArray[i][..n];
      forall k: nat, a | k < |dst'| && At(initAlloc, k, a) ensures ValueAt(a, dst'[k]) {
        if k >= |dst| {
          assert InRow(initAlloc, k, i);
          InRowOnce(initAlloc, k, i, a.row);
        }
      }
    }

    /** find_element: where element `index` is, if there is one. */
    method FindElement(index: nat) returns (r: Option<Address>)
      requires Valid()
      ensures r.None? <==> index >= nElems
      ensures r.Some? ==>
        At(initAlloc, index, r.value) && r.value.row < |ptrArray| && r.value.offset < ptrArray[r.value.row].Length
    {
      if index >= nElems {
        return None;
      }
      var i := initAllocBits;
      Pow2Sum(initAllocBits, cur);
      while index / Pow2(i) != 0
        invariant initAllocBits <= i <= initAllocBits + cur
        invariant i > initAllocBits ==> Pow2(i - 1) <= index
        decreases initAllocBits + cur - i
      {
        ShiftZero(index, i);
        Pow2Order(i, initAllocBits + cur, index);
        i := i + 1;
      }
      ShiftZero(index, i);
      Pow2Sum(initAllocBits, i - initAllocBits);
      i := i - initAllocBits;
      if i > 0 {
        Pow2Sum(initAllocBits, i - 1);
      }
      RowEnd(initAlloc, i);
      return Some(Address(i, index - initAlloc * (if i > 0 then Pow2(i - 1) else 0)));
    }
  }

  lemma {:induction false} Pow2Sum(a: nat, b: nat)
    ensures Pow2(a + b) == Pow2(a) * Pow2(b)
  {
    if b > 0 {
      Pow2Sum(a, b - 1);
      assert Pow2(a) * (2 * Pow2(b - 1)) == 2 * (Pow2(a) * Pow2(b - 1));
    }
  }

  lemma {:induction false} Pow2Grows(a: nat, b: nat)
    requires a <= b
    ensures Pow2(a) <= Pow2(b)
  {
    if a < b {
      Pow2Grows(a, b - 1);
    }
  }

  lemma Pow2Order(a: nat, b: nat, n: nat)
    ensures Pow2(a) <= n < Pow2(b) ==> a < b
  {
    if a >= b {
      Pow2Grows(b, a);
    }
  }

  lemma ShiftZero(index: nat, i: nat)
    ensures index / Pow2(i) == 0 <==> index < Pow2(i)
  {
    QuotientZero(index, Pow2(i));
  }

  lemma QuotientZero(n: nat, p: nat)
    requires p > 0
    ensures n / p == 0 <==> n < p
  {
  }

  /** Half of where row `c` starts is the size of the row before it, but for row 1. */
  lemma Halved(init: nat, c: nat)
    requires c > 0 && init > 0
    ensures (if RowStart(init, c) != init then RowStart(init, c) / 2 else RowStart(init, c)) == RowSize(init, c - 1)
    ensures c > 1 ==> RowStart(init, c) != init && RowStart(init, c) / 2 == RowStart(init, c - 1)
    ensures init * Pow2(c) - RowStart(init, c) == init * Pow2(c - 1)
  {
    RowEnd(init, c);
    RowEnd(init, c - 1);
    if c > 1 {
      assert RowStart(init, c) == init * (2 * Pow2(c - 2)) == 2 * (init * Pow2(c - 2));
      assert init * Pow2(c - 2) >= init by { assert Pow2(c - 2) >= 1; TimesOne(init, Pow2(c - 2)); }
    }
  }

  lemma TimesOne(a: nat, b: nat)
    requires b >= 1
    ensures a * b >= a
  {
    assert a * b == a + a * (b - 1);
  }
}
