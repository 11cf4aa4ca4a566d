/** Where the temporaries of a frame are: the sizes computed at the end of sr_port/alloc_reg.c and the
    offset formula of emit_trip in sr_i386/emit_code.c. */
module FrameLayout {

  const TVAR_REF: nat := 1
  const TVAL_REF: nat := 2
  const TINT_REF: nat := 3
  const TVAD_REF: nat := 4
  const TCAD_REF: nat := 5

  /** Sizes of a pointer, an mval and an mint. */
  datatype Sizes = Sizes(ptr: nat, mval: nat, mint: nat)

  /** How many temporaries of each class there are. */
  datatype Counts = Counts(tvar: nat, tval: nat, tint: nat, tvad: nat, tcad: nat)

  function ClassSize(z: Sizes, r: nat): nat {
    if r == TVAL_REF then z.mval else if r == TINT_REF then z.mint else z.ptr
  }

  function Count(c: Counts, r: nat): nat {
    if r == TVAR_REF then c.tvar else if r == TVAL_REF then c.tval else if r == TINT_REF then c.tint
    else if r == TVAD_REF then c.tvad else c.tcad
  }

  /** The least multiple of `z` that is at least `n`. */
  function RoundUp(n: nat, z: nat): (m: nat)
    requires z > 0
    ensures n <= m < n + z && m % z == 0
  {
    RoundedUp(n, z);
    (n + z - 1) / z * z
  }

  lemma RoundedUp(n: nat, z: nat)
    requires z > 0
    ensures var m := (n + z - 1) / z * z; n <= m < n + z && m % z == 0
  {
    var k := n + z - 1;
    assert k == k / z * z + k % z;
    MultipleOf(k / z, z);
  }

  lemma MultipleOf(q: int, z: nat)
    requires z > 0
    ensures q * z % z == 0
  {
    var n := q * z;
    assert n == z * (n / z) + n % z;
    assert (q - n / z) * z == n % z;
    Small(q - n / z, z, n % z);
  }

  lemma Small(d: int, z: nat, t: int)
    requires 0 <= t < z && d * z == t
    ensures t == 0
  {
    assert (d - 1) * z == t - z && (-d) * z == -t;
    assert d >= 1 ==> d - 1 >= 0;
    Sign(d - 1, z);
    Sign(-d, z);
  }

  lemma Sign(a: int, b: int)
    ensures a >= 0 && b >= 0 ==> a * b >= 0
  {
  }

  /** The end of each class's region. */
  method LayOut(z: Sizes, c: Counts) returns (offset: map<nat, nat>)
    requires z.ptr > 0
    ensures offset == Ends(z, c)
  {
    offset := map[TVAR_REF := c.tvar * z.ptr];
    var size := c.tval * z.mval;
    offset := offset[TVAL_REF := size];
    size := size + RoundUp(c.tint * z.mint, z.ptr);
    offset := offset[TINT_REF := size];
    size := size + c.tvad * z.ptr;
    offset := offset[TVAD_REF := size];
    size := size + c.tcad * z.ptr;
    offset := offset[TCAD_REF := size];
  }

  function Ends(z: Sizes, c: Counts): map<nat, nat>
    requires z.ptr > 0
  {
    map[TVAR_REF := End(z, c, TVAR_REF), TVAL_REF := End(z, c, TVAL_REF), TINT_REF := End(z, c, TINT_REF),
      TVAD_REF := End(z, c, TVAD_REF), TCAD_REF := End(z, c, TCAD_REF)]
  }

  function End(z: Sizes, c: Counts, r: nat): nat
    requires z.ptr > 0
  {
    if r == TVAR_REF then c.tvar * z.ptr
    else if r == TVAL_REF then c.tval * z.mval
    else if r == TINT_REF then c.tval * z.mval + RoundUp(c.tint * z.mint, z.ptr)
    else if r == TVAD_REF then c.tval * z.mval + RoundUp(c.tint * z.mint, z.ptr) + c.tvad * z.ptr
    else c.tval * z.mval + RoundUp(c.tint * z.mint, z.ptr) + c.tvad * z.ptr + c.tcad * z.ptr
  }

  /** The offset of a temporary on its base register. */
  function Offset(z: Sizes, c: Counts, r: nat, temp: nat): int
    requires z.ptr > 0
  {
    End(z, c, r) - (Count(c, r) - temp) * ClassSize(z, r)
  }

  /** Temporaries of these two classes are on one base register. */
  predicate SameBase(r: nat, s: nat) {
    1 <= r <= 5 && 1 <= s <= 5 && (r == TVAR_REF <==> s == TVAR_REF)
  }

  /** The bytes of a temporary lie between those of its neighbours in the class. */
  lemma InRegion(z: Sizes, c: Counts, r: nat, temp: nat)
    requires z.ptr > 0 && 1 <= r <= 5 && temp < Count(c, r)
    ensures End(z, c, r) - Count(c, r) * ClassSize(z, r) <= Offset(z, c, r, temp)
    ensures Offset(z, c, r, temp) + ClassSize(z, r) <= End(z, c, r)
  {
    Between(Count(c, r), temp, ClassSize(z, r));
  }

  lemma Between(n: nat, t: nat, s: nat)
    requires t < n
    ensures s <= (n - t) * s <= n * s
  {
    assert (n - t) * s == (n - t - 1) * s + s;
    Times(n - t - 1, s);
    assert n * s == (n - t) * s + t * s;
    Times(t, s);
  }

  lemma Times(a: nat, b: nat)
    ensures a * b >= 0
  {
  }

  lemma InClass(z: Sizes, c: Counts, r: nat, i: nat, j: nat)
    requires z.ptr > 0 && 1 <= r <= 5 && i < j < Count(c, r)
    ensures Offset(z, c, r, i) + ClassSize(z, r) <= Offset(z, c, r, j)
  {
    var n, s := Count(c, r), ClassSize(z, r);
    assert (n - i) * s == (n - j) * s + (j - i - 1) * s + s;
    Times(j - i - 1, s);
  }

  /** The region of a class begins no earlier than the one before it ends. */
  lemma RegionsApart(z: Sizes, c: Counts, r: nat, s: nat)
    requires z.ptr > 0 && 2 <= r < s <= 5
    ensures End(z, c, r) <= End(z, c, s) - Count(c, s) * ClassSize(z, s)
  {
    Times(c.tval, z.mval);
    Times(c.tvad, z.ptr);
    Times(c.tcad, z.ptr);
  }

  /** Distinct temporaries on one base register do not overlap, and all are within the frame. */
  lemma FrameApart(z: Sizes, c: Counts, r: nat, i: nat, s: nat, j: nat)
    requires z.ptr > 0 && SameBase(r, s) && i < Count(c, r) && j < Count(c, s) && (r != s || i != j)
    ensures Offset(z, c, r, i) + ClassSize(z, r) <= Offset(z, c, s, j) ||
      Offset(z, c, s, j) + ClassSize(z, s) <= Offset(z, c, r, i)
    ensures 0 <= Offset(z, c, r, i)
    ensures Offset(z, c, r, i) + ClassSize(z, r) <= End(z, c, if r == TVAR_REF then TVAR_REF else TCAD_REF)
  {
    InRegion(z, c, r, i);
    InRegion(z, c, s, j);
    if r == s {
      if i < j {
        InClass(z, c, r, i, j);
      } else {
        InClass(z, c, r, j, i);
      }
    } else if r < s {
      RegionsApart(z, c, r, s);
    } else {
      RegionsApart(z, c, s, r);
    }
    if r != TVAR_REF && r != TCAD_REF {
      RegionsApart(z, c, r, TCAD_REF);
      Times(c.tcad, z.ptr);
    }
    if r > TVAL_REF {
      RegionsApart(z, c, TVAL_REF, r);
      Times(c.tval, z.mval);
    }
  }

  lemma Added(x: int, y: int, z: nat)
    requires z > 0 && x % z == 0 && y % z == 0
    ensures (x + y) % z == 0 && (x - y) % z == 0
  {
    var p, q := x / z, y / z;
    assert x == p * z && y == q * z;
    assert x + y == (p + q) * z && x - y == (p - q) * z;
    MultipleOf(p + q, z);
    MultipleOf(p - q, z);
  }

  lemma Scaled(k: int, m: int, z: nat)
    requires z > 0 && m % z == 0
    ensures k * m % z == 0
  {
    assert m == m / z * z;
    assert k * m == k * (m / z) * z;
    MultipleOf(k * (m / z), z);
  }

  /** Where mvals take whole pointers, everything but the ints begins at a multiple of the pointer size, whatever
      the number of ints. */
  lemma Aligned(z: Sizes, c: Counts, r: nat, i: nat)
    requires z.ptr > 0 && z.mval % z.ptr == 0 && 1 <= r <= 5 && r != TINT_REF && i < Count(c, r)
    ensures Offset(z, c, r, i) % z.ptr == 0
  {
    EndAligned(z, c, r);
    MultipleOf(1, z.ptr);
    Scaled(Count(c, r) - i, ClassSize(z, r), z.ptr);
    Added(End(z, c, r), (Count(c, r) - i) * ClassSize(z, r), z.ptr);
  }

  lemma EndAligned(z: Sizes, c: Counts, r: nat)
    requires z.ptr > 0 && z.mval % z.ptr == 0 && 1 <= r <= 5
    ensures End(z, c, r) % z.ptr == 0
  {
    var tvals, ints := c.tval * z.mval, RoundUp(c.tint * z.mint, z.ptr);
    Scaled(c.tval, z.mval, z.ptr);
    MultipleOf(c.tvar, z.ptr);
    MultipleOf(c.tvad, z.ptr);
    MultipleOf(c.tcad, z.ptr);
    Added(tvals, ints, z.ptr);
    Added(tvals + ints, c.tvad * z.ptr, z.ptr);
    Added(tvals + ints + c.tvad * z.ptr, c.tcad * z.ptr, z.ptr);
  }
}
