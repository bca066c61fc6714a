/**
 IPv4 address blocks (CIDRs). An address is a natural number below 2^32. A CIDR
 of prefix length `len` is one of the 2^len aligned blocks of 2^(32-len)
 addresses; it is stored as its block number `index`, so its base address
 `index * 2^(32-len)` is aligned by construction.
 */
module Ipv4 {

  /** A prefix length of an IPv4 network. */
  type PrefixLen = n: nat | n <= 32

  function Pow2(n: nat): (r: nat)
    ensures r >= 1
  {
    if n == 0 then 1 else 2 * Pow2(n - 1)
  }

  predicate InRange(lo: nat, hi: nat, a: nat)
  {
    lo <= a < hi
  }

  /** The naturals from `lo` up to but not including `hi`. */
  function Range(lo: nat, hi: nat): (r: set<nat>)
    ensures forall a :: a in r <==> lo <= a < hi
  {
    set a: nat | a < hi && InRange(lo, hi, a)
  }

  lemma {:induction false} RangeSize(lo: nat, hi: nat)
    ensures |Range(lo, hi)| == if lo <= hi then hi - lo else 0
    decreases hi - lo
  {
    if hi <= lo {
      assert Range(lo, hi) == {};
    } else {
      RangeSize(lo, hi - 1);
      assert Range(lo, hi) == Range(lo, hi - 1) + {hi - 1};
    }
  }

  /** Number of IPv4 addresses. */
  function SpaceSize(): nat
  {
    Pow2(32)
  }

  /** Number of addresses in a block of prefix length `len`. */
  function BlockSize(len: PrefixLen): (r: nat)
    ensures r >= 1
  {
    Pow2(32 - len)
  }

  /** The address written a.b.c.d. */
  function Dotted(a: nat, b: nat, c: nat, d: nat): nat
  {
    a * 0x100_0000 + b * 0x1_0000 + c * 0x100 + d
  }

  datatype Cidr = Cidr(index: nat, len: PrefixLen) {

    /** The block lies inside the IPv4 address space. */
    predicate Valid()
    {
      index < Pow2(len)
    }

    /** The network (first) address of the block. */
    function Base(): nat
    {
      index * BlockSize(len)
    }

    /** One past the last address of the block. */
    function End(): nat
    {
      Base() + BlockSize(len)
    }

    /** The addresses the block covers. */
    function Addresses(): set<nat>
    {
      Range(Base(), End())
    }
  }

  /** The whole address space, 0.0.0.0/0. */
  const Root: Cidr := Cidr(0, 0)

  /** `inner` lies inside `outer`. */
  predicate Within(inner: Cidr, outer: Cidr)
  {
    outer.Base() <= inner.Base() && inner.End() <= outer.End()
  }

  /** Every address of `a` is below every address of `b`. */
  predicate Below(a: Cidr, b: Cidr)
  {
    a.End() <= b.Base()
  }

  /** Strictly ascending and pairwise disjoint. */
  predicate Sorted(s: seq<Cidr>)
  {
    forall i, j :: 0 <= i < j < |s| ==> Below(s[i], s[j])
  }

  /** The lower half of a block (its first sub-block one bit longer). */
  function Lower(c: Cidr): Cidr
    requires c.len < 32
  {
    Cidr(2 * c.index, c.len + 1)
  }

  /** The upper half of a block. */
  function Upper(c: Cidr): Cidr
    requires c.len < 32
  {
    Cidr(2 * c.index + 1, c.len + 1)
  }

  /**
   The sub-blocks of prefix length `p` of `c`, in ascending order: what
   netaddr's IPNetwork.subnet(p) yields. A `p` shorter than the block's own
   prefix yields nothing.
   */
  function Subnets(c: Cidr, p: PrefixLen): seq<Cidr>
  {
    if p < c.len then []
    else
      var m := Pow2(p - c.len);
      seq(m, k requires 0 <= k => Cidr(c.index * m + k, p))
  }

  // ---------------------------------------------------------------------
  // Arithmetic

  lemma MulLe(a: nat, b: nat, k: nat)
    requires a <= b
    ensures a * k <= b * k
  {
  }

  lemma MulLeCancel(a: nat, b: nat, k: nat)
    requires k > 0 && a * k <= b * k
    ensures a <= b
  {
    if a > b {
      MulLe(b + 1, a, k);
    }
  }

  lemma MulAssoc(a: nat, b: nat, c: nat)
    ensures a * (b * c) == (a * b) * c
  {
  }

  lemma MulSucc(a: nat, k: nat)
    ensures (a + 1) * k == a * k + k
  {
  }

  lemma {:induction false} Pow2Add(a: nat, b: nat)
    ensures Pow2(a + b) == Pow2(a) * Pow2(b)
  {
    if a > 0 {
      Pow2Add(a - 1, b);
      MulAssoc(2, Pow2(a - 1), Pow2(b));
    }
  }

  /** A block of prefix `l` is 2^(p-l) blocks of prefix `p`. */
  lemma BlockSizeSplit(l: PrefixLen, p: PrefixLen)
    requires l <= p
    ensures BlockSize(l) == Pow2(p - l) * BlockSize(p)
  {
    Pow2Add(p - l, 32 - p);
  }

  /** The end of a block, as a multiple of its size. */
  lemma EndIsMultiple(c: Cidr)
    ensures c.End() == (c.index + 1) * BlockSize(c.len)
  {
    MulSucc(c.index, BlockSize(c.len));
  }

  lemma ValidInSpace(c: Cidr)
    requires c.Valid()
    ensures c.End() <= SpaceSize()
    ensures Within(c, Root)
  {
    EndIsMultiple(c);
    MulLe(c.index + 1, Pow2(c.len), BlockSize(c.len));
    Pow2Add(c.len, 32 - c.len);
  }

  lemma HalvesSplit(c: Cidr)
    requires c.len < 32
    ensures Lower(c).Base() == c.Base()
    ensures Lower(c).End() == Upper(c).Base()
    ensures Upper(c).End() == c.End()
    ensures c.Valid() ==> Lower(c).Valid() && Upper(c).Valid()
  {
    var h := BlockSize(c.len + 1);
    assert BlockSize(c.len) == 2 * h;
    HalvesInts(c.index, h, c.Base(), Lower(c).Base(), Upper(c).Base());
    assert Pow2(c.len + 1) == 2 * Pow2(c.len);
  }

  /** Block 2i and block 2i+1 of size h tile block i of size 2h. */
  lemma HalvesInts(i: nat, h: nat, base: nat, lowerBase: nat, upperBase: nat)
    requires base == i * (2 * h) && lowerBase == (2 * i) * h && upperBase == (2 * i + 1) * h
    ensures lowerBase == base && upperBase == lowerBase + h
  {
  }

  lemma AddressesHalves(c: Cidr)
    requires c.len < 32
    ensures c.Addresses() == Lower(c).Addresses() + Upper(c).Addresses()
  {
    HalvesSplit(c);
  }

  /** A block of prefix length `len` holds 2^(32 - len) addresses. */
  lemma AddressCount(c: Cidr)
    ensures |c.Addresses()| == BlockSize(c.len)
  {
    RangeSize(c.Base(), c.End());
  }

  lemma SingleAddress(c: Cidr)
    requires c.len == 32
    ensures c.Addresses() == {c.Base()}
  {
    assert BlockSize(32) == 1;
  }

  /** Aligned blocks never partially overlap: a finer block is inside, below or above a coarser one. */
  lemma Laminar(d: Cidr, b: Cidr)
    requires d.len <= b.len
    ensures Within(b, d) || Below(b, d) || Below(d, b)
  {
    var m, s := Pow2(b.len - d.len), BlockSize(b.len);
    BlockSizeSplit(d.len, b.len);
    EndIsMultiple(d);
    EndIsMultiple(b);
    IntervalCases(b.index, d.index, m, s, b.Base(), b.End(), d.Base(), d.End());
  }

  /**
   A scaled block [x·s, (x+1)·s) is inside, below or above the scaled block
   [y·(m·s), (y+1)·(m·s)).
   */
  lemma IntervalCases(x: nat, y: nat, m: nat, s: nat, xBase: nat, xEnd: nat, base: nat, end: nat)
    requires xBase == x * s && xEnd == (x + 1) * s
    requires base == y * (m * s) && end == (y + 1) * (m * s)
    ensures (base <= xBase && xEnd <= end) || xEnd <= base || end <= xBase
  {
    MulAssoc(y, m, s);
    MulAssoc(y + 1, m, s);
    ScaledCases(x, y * m, (y + 1) * m, s);
  }

  /** Where block number x falls against the range [lo, hi), scaled by the block size s. */
  lemma ScaledCases(x: nat, lo: nat, hi: nat, s: nat)
    ensures x < lo ==> (x + 1) * s <= lo * s
    ensures x >= hi ==> hi * s <= x * s
    ensures lo <= x < hi ==> lo * s <= x * s && (x + 1) * s <= hi * s
  {
    if x < lo {
      MulLe(x + 1, lo, s);
    }
    if x >= hi {
      MulLe(hi, x, s);
    }
    if lo <= x < hi {
      MulLe(lo, x, s);
      MulLe(x + 1, hi, s);
    }
  }

  /** A block inside another of the same prefix length is that block. */
  lemma SameLenWithin(b: Cidr, c: Cidr)
    requires b.len == c.len && Within(b, c)
    ensures b == c
  {
    var s := BlockSize(c.len);
    EndIsMultiple(b);
    EndIsMultiple(c);
    MulLeCancel(c.index, b.index, s);
    MulLeCancel(b.index + 1, c.index + 1, s);
  }

  /** A finer block inside `c` lies inside one of its halves. */
  lemma InHalf(b: Cidr, c: Cidr)
    requires c.len < b.len && Within(b, c)
    ensures Within(b, Lower(c)) || Within(b, Upper(c))
  {
    HalvesSplit(c);
    Laminar(Lower(c), b);
  }

  lemma WithinAddresses(b: Cidr, c: Cidr)
    requires Within(b, c)
    ensures b.Addresses() <= c.Addresses()
  {
  }

  lemma AddressesWithin(b: Cidr, c: Cidr)
    requires b.Addresses() <= c.Addresses()
    ensures Within(b, c)
  {
    assert b.Base() in b.Addresses();
    assert b.End() - 1 in b.Addresses();
  }

  lemma BelowDisjoint(a: Cidr, b: Cidr)
    requires Below(a, b)
    ensures a.Addresses() !! b.Addresses()
  {
  }

  lemma BelowAntisymmetric(a: Cidr, b: Cidr)
    ensures !(Below(a, b) && Below(b, a))
  {
  }

  /** The k-th sub-block of prefix `p` of `c`, by its block number. */
  lemma SubnetIndex(c: Cidr, p: PrefixLen, k: nat)
    requires k < |Subnets(c, p)|
    ensures c.len <= p && |Subnets(c, p)| == Pow2(p - c.len)
    ensures Subnets(c, p)[k] == Cidr(c.index * Pow2(p - c.len) + k, p)
  {
  }

  /** Block number `i` of prefix `p` lies inside `c` when it is among `c`'s sub-block numbers. */
  lemma IndexWithin(c: Cidr, p: PrefixLen, i: nat)
    requires c.len <= p
    requires c.index * Pow2(p - c.len) <= i < (c.index + 1) * Pow2(p - c.len)
    ensures Within(Cidr(i, p), c)
  {
    var b := Cidr(i, p);
    BlockSizeSplit(c.len, p);
    EndIsMultiple(c);
    EndIsMultiple(b);
    BoundsFromIndex(i, c.index, Pow2(p - c.len), BlockSize(p), b.Base(), b.End(), c.Base(), c.End());
  }

  /** A block number among y's gives a scaled block inside the scaled block of y·m. */
  lemma BoundsFromIndex(x: nat, y: nat, m: nat, s: nat, xBase: nat, xEnd: nat, base: nat, end: nat)
    requires xBase == x * s && xEnd == (x + 1) * s
    requires base == y * (m * s) && end == (y + 1) * (m * s)
    requires y * m <= x < (y + 1) * m
    ensures base <= xBase && xEnd <= end
  {
    MulAssoc(y, m, s);
    MulAssoc(y + 1, m, s);
    ScaledCases(x, y * m, (y + 1) * m, s);
  }

  /** A sub-block of a valid block is valid. */
  lemma IndexValid(c: Cidr, p: PrefixLen, i: nat)
    requires c.Valid() && c.len <= p
    requires i < (c.index + 1) * Pow2(p - c.len)
    ensures Cidr(i, p).Valid()
  {
    MulLe(c.index + 1, Pow2(c.len), Pow2(p - c.len));
    Pow2Add(c.len, p - c.len);
  }

  /** The k-th block IPNetwork.subnet yields is a valid /p block inside `c`. */
  lemma SubnetAt(c: Cidr, p: PrefixLen, k: nat)
    requires c.Valid() && k < |Subnets(c, p)|
    ensures Subnets(c, p)[k].Valid() && Subnets(c, p)[k].len == p && Within(Subnets(c, p)[k], c)
  {
    SubnetIndex(c, p, k);
    var m := Pow2(p - c.len);
    var i := c.index * m + k;
    assert i < (c.index + 1) * m by {
      MulSucc(c.index, m);
    }
    IndexWithin(c, p, i);
    IndexValid(c, p, i);
  }

  /** Everything IPNetwork.subnet yields is a valid /p block inside `c`. */
  lemma SubnetsSound(c: Cidr, p: PrefixLen)
    requires c.Valid()
    ensures forall x: Cidr :: x in Subnets(c, p) ==> x.Valid() && x.len == p && Within(x, c)
  {
    forall k | 0 <= k < |Subnets(c, p)|
      ensures Subnets(c, p)[k].Valid() && Subnets(c, p)[k].len == p && Within(Subnets(c, p)[k], c)
    {
      SubnetAt(c, p, k);
    }
  }

  /** A block inside `c` is no larger than `c`. */
  lemma WithinLonger(b: Cidr, c: Cidr)
    requires Within(b, c)
    ensures c.len <= b.len
  {
    if b.len < c.len {
      BlockSizeSplit(b.len, c.len);
      MulLe(2, Pow2(c.len - b.len), BlockSize(c.len));
    }
  }

  /** The block number of a block inside `c`, among `c`'s sub-block numbers of its prefix. */
  lemma WithinIndex(b: Cidr, c: Cidr)
    requires Within(b, c) && c.len <= b.len
    ensures c.index * Pow2(b.len - c.len) <= b.index < (c.index + 1) * Pow2(b.len - c.len)
  {
    var m, s := Pow2(b.len - c.len), BlockSize(b.len);
    BlockSizeSplit(c.len, b.len);
    EndIsMultiple(c);
    EndIsMultiple(b);
    IndexFromBounds(b.index, c.index, m, s, b.Base(), b.End(), c.Base(), c.End());
  }

  /** A scaled block inside the scaled block of y·m has a block number among y's. */
  lemma IndexFromBounds(x: nat, y: nat, m: nat, s: nat, xBase: nat, xEnd: nat, base: nat, end: nat)
    requires s > 0 && xBase == x * s && xEnd == (x + 1) * s
    requires base == y * (m * s) && end == (y + 1) * (m * s)
    requires base <= xBase && xEnd <= end
    ensures y * m <= x < (y + 1) * m
  {
    MulAssoc(y, m, s);
    MulAssoc(y + 1, m, s);
    ScaledBounds(y * m, x, (y + 1) * m, s);
  }

  /** Block number x lies in [lo, hi) when its scaled block does. */
  lemma ScaledBounds(lo: nat, x: nat, hi: nat, s: nat)
    requires s > 0 && lo * s <= x * s && (x + 1) * s <= hi * s
    ensures lo <= x < hi
  {
    MulLeCancel(lo, x, s);
    MulLeCancel(x + 1, hi, s);
  }

  /** Every valid /p block inside `c` is yielded by IPNetwork.subnet(p). */
  lemma SubnetsComplete(c: Cidr, b: Cidr)
    requires c.Valid() && Within(b, c)
    ensures b in Subnets(c, b.len)
  {
    WithinLonger(b, c);
    WithinIndex(b, c);
    var m := Pow2(b.len - c.len);
    var lo := c.index * m;
    assert b.index < lo + m by {
      MulSucc(c.index, m);
    }
    var k := b.index - lo;
    var r := Subnets(c, b.len);
    assert |r| == m;
    SubnetIndex(c, b.len, k);
    assert r[k] == b;
  }

  /** IPNetwork.subnet yields its blocks in ascending order. */
  lemma SubnetsSorted(c: Cidr, p: PrefixLen)
    requires c.Valid()
    ensures Sorted(Subnets(c, p))
  {
    var r := Subnets(c, p);
    forall i, j | 0 <= i < j < |r|
      ensures Below(r[i], r[j])
    {
      SubnetOrder(c, p, i, j);
    }
  }

  lemma SubnetOrder(c: Cidr, p: PrefixLen, i: nat, j: nat)
    requires i < j < |Subnets(c, p)|
    ensures Below(Subnets(c, p)[i], Subnets(c, p)[j])
  {
    SubnetIndex(c, p, i);
    SubnetIndex(c, p, j);
    var m, s := Pow2(p - c.len), BlockSize(p);
    var x, y := c.index * m + i, c.index * m + j;
    assert Subnets(c, p)[i].End() == (x + 1) * s by {
      EndIsMultiple(Subnets(c, p)[i]);
    }
    MulLe(x + 1, y, s);
  }
}
