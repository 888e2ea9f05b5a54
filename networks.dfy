/** IP networks as the `ipaddress` library represents them after non-strict
    parsing: a version (4 or 6), a base address with every host bit cleared,
    and a prefix length. */
module Networks {

  datatype Net = Net(version: nat, addr: nat, plen: nat)

  /** Address width in bits: 32 for IPv4, 128 for every other version. */
  function Width(version: nat): nat {
    if version == 4 then 32 else 128
  }

  function Pow2(k: nat): (r: nat)
    ensures r >= 1
  {
    if k == 0 then 1 else 2 * Pow2(k - 1)
  }

  /** A well-formed network: known version, prefix length within the address
      width, address within range and aligned on the network's size. */
  predicate ValidNet(n: Net) {
    && (n.version == 4 || n.version == 6)
    && n.plen <= Width(n.version)
    && n.addr < Pow2(Width(n.version))
    && n.addr % Pow2(Width(n.version) - n.plen) == 0
  }

  predicate AllValid(s: seq<Net>) {
    forall n :: n in s ==> ValidNet(n)
  }

  /** Number of host bits of a network: the base-2 logarithm of its size. */
  function HostBits(n: Net): nat
    requires ValidNet(n)
  {
    Width(n.version) - n.plen
  }

  /** `a.subnet_of(b)`: every address of `a` lies in `b`. The library raises
      an error when the versions differ, hence the second precondition. */
  /** The prefix test agrees with the library's own definition: `b` starts no
      later and ends no earlier than `a`. */
  function SubnetOf(a: Net, b: Net): (r: bool)
    requires ValidNet(a) && ValidNet(b)
    requires a.version == b.version
    ensures r <==> b.addr <= a.addr && LastAddr(a) <= LastAddr(b)
  {
    AlignedBlocks(a.addr, b.addr, HostBits(a), HostBits(b));
    a.plen >= b.plen && a.addr / Pow2(HostBits(b)) == b.addr / Pow2(HostBits(b))
  }

  /** Address `x` of version `v` lies in network `n`. */
  predicate Holds(n: Net, v: nat, x: nat)
    requires ValidNet(n)
  {
    n.version == v && x < Pow2(Width(v)) && x / Pow2(HostBits(n)) == n.addr / Pow2(HostBits(n))
  }

  /** Last address of a network (its broadcast address). */
  function LastAddr(n: Net): nat
    requires ValidNet(n)
  {
    n.addr + Pow2(HostBits(n)) - 1
  }

  // ---------------------------------------------------------------------
  // Arithmetic on powers of two

  lemma {:induction false} Pow2Add(i: nat, j: nat)
    ensures Pow2(i + j) == Pow2(i) * Pow2(j)
  {
    if j > 0 {
      Pow2Add(i, j - 1);
      assert Pow2(i + j) == 2 * Pow2(i + j - 1);
    }
  }

  lemma {:induction false} Pow2StrictMono(i: nat, j: nat)
    requires i < j
    ensures Pow2(i) < Pow2(j)
  {
    if j - 1 > i {
      Pow2StrictMono(i, j - 1);
    }
  }

  lemma MulLe(p: nat, a: nat, b: nat)
    requires a <= b
    ensures p * a <= p * b
  {
    MulDist(p, a, b - a);
  }

  lemma MulDist(p: nat, u: nat, v: nat)
    ensures p * (u + v) == p * u + p * v
  {
  }

  lemma MulAssoc(p: nat, q: nat, b: nat)
    ensures p * (q * b) == (p * q) * b
  {
  }

  lemma DivMod(x: nat, d: nat)
    requires d > 0
    ensures x == d * (x / d) + x % d && x % d < d
  {
  }

  lemma DivUnique(x: nat, d: nat, q: nat, r: nat)
    requires d > 0 && r < d && x == d * q + r
    ensures x / d == q && x % d == r
  {
    var q', r' := x / d, x % d;
    DivMod(x, d);
    if q' < q {
      MulLe(d, q' + 1, q);
      MulDist(d, q', 1);
      assert false;
    } else if q < q' {
      MulLe(d, q + 1, q');
      MulDist(d, q, 1);
      assert false;
    }
  }

  lemma DivDiv(x: nat, p: nat, q: nat)
    requires p > 0 && q > 0
    ensures x / (p * q) == x / p / q
  {
    var a, r1 := x / p, x % p;
    DivMod(x, p);
    var b, r2 := a / q, a % q;
    DivMod(a, q);
    MulDist(p, q * b, r2);
    MulAssoc(p, q, b);
    assert x == (p * q) * b + (p * r2 + r1);
    MulLe(p, r2, q - 1);
    MulDist(p, q - 1, 1);
    DivUnique(x, p * q, b, p * r2 + r1);
  }

  /** Agreeing on the top bits above position `i` implies agreeing on the
      top bits above any coarser position `j`. */
  lemma PrefixCoarsen(x: nat, y: nat, i: nat, j: nat)
    requires i <= j && x / Pow2(i) == y / Pow2(i)
    ensures x / Pow2(j) == y / Pow2(j)
  {
    Pow2Add(i, j - i);
    DivDiv(x, Pow2(i), Pow2(j - i));
    DivDiv(y, Pow2(i), Pow2(j - i));
  }

  // ---------------------------------------------------------------------
  // Properties of subnet containment

  lemma SubnetOfTransitive(a: Net, b: Net, c: Net)
    requires ValidNet(a) && ValidNet(b) && ValidNet(c)
    requires a.version == b.version == c.version
    requires SubnetOf(a, b) && SubnetOf(b, c)
    ensures SubnetOf(a, c)
  {
    PrefixCoarsen(a.addr, b.addr, HostBits(b), HostBits(c));
  }

  /** Two networks each containing the other are the same network; this
      needs the host bits to be cleared. */
  lemma SubnetOfAntisymmetric(a: Net, b: Net)
    requires ValidNet(a) && ValidNet(b) && a.version == b.version
    requires SubnetOf(a, b) && SubnetOf(b, a)
    ensures a == b
  {
    var p := Pow2(HostBits(a));
    assert HostBits(b) == HostBits(a);
    var q := a.addr / p;
    assert b.addr / p == q && a.addr % p == 0 && b.addr % p == 0;
    DivMod(a.addr, p);
    DivMod(b.addr, p);
  }

  /** An address of a subnet is an address of its supernet. */
  lemma SubnetOfHolds(a: Net, b: Net, v: nat, x: nat)
    requires ValidNet(a) && ValidNet(b) && a.version == b.version
    requires SubnetOf(a, b) && Holds(a, v, x)
    ensures Holds(b, v, x)
  {
    PrefixCoarsen(x, a.addr, HostBits(a), HostBits(b));
  }

  /** Two aligned blocks of `2^ha` and `2^hb` addresses: the first lies
      within the second exactly when it is no larger and their addresses
      agree above the low `hb` bits. */
  lemma AlignedBlocks(x: nat, base: nat, ha: nat, hb: nat)
    requires x % Pow2(ha) == 0 && base % Pow2(hb) == 0
    ensures (ha <= hb && x / Pow2(hb) == base / Pow2(hb)) <==> (base <= x && x + Pow2(ha) <= base + Pow2(hb))
  {
    if ha <= hb && x / Pow2(hb) == base / Pow2(hb) {
      BlockWithin(x, base, ha, hb);
    }
    if base <= x && x + Pow2(ha) <= base + Pow2(hb) {
      assert ha <= hb by {
        if hb < ha {
          Pow2StrictMono(hb, ha);
        }
      }
      WithinAlignedBlock(x, base, Pow2(hb));
    }
  }

  /** The same fact on bare numbers: an aligned block of `2^ha` addresses
      whose top bits above `hb` match an aligned base lies within the base's
      block of `2^hb` addresses. */
  lemma BlockWithin(x: nat, base: nat, ha: nat, hb: nat)
    requires ha <= hb && x % Pow2(ha) == 0 && base % Pow2(hb) == 0
    requires x / Pow2(hb) == base / Pow2(hb)
    ensures base <= x && x + Pow2(ha) <= base + Pow2(hb)
  {
    var pa, pb, t := Pow2(ha), Pow2(hb), Pow2(hb - ha);
    assert pb == pa * t by {
      Pow2Add(ha, hb - ha);
    }
    AlignedBlockWithin(x, base, pa, t, pb);
  }

  /** An address aligned on `pa` that falls in the block of size `pa * t`
      starting at `base` ends, with its own block, inside that block. */
  lemma AlignedBlockWithin(x: nat, base: nat, pa: nat, t: nat, pb: nat)
    requires pa > 0 && t > 0 && pb == pa * t
    requires x % pa == 0 && base % pb == 0
    requires x / pb == base / pb
    ensures base <= x && x + pa <= base + pb
  {
    var q := base / pb;
    DivMod(base, pb);
    DivMod(x, pb);
    assert base == pb * q;
    var m := x / pa;
    DivMod(x, pa);
    var n := t * (q + 1);
    assert base + pb == pa * n by {
      MulDist(pb, q, 1);
      MulAssoc(pa, t, q + 1);
    }
    if n <= m {
      MulLe(pa, n, m);
      assert false;
    }
    MulLe(pa, m + 1, n);
    MulDist(pa, m, 1);
  }

  /** An address inside the block of size `p` starting at an aligned base
      has the same quotient by `p` as the base. */
  lemma WithinAlignedBlock(x: nat, base: nat, p: nat)
    requires p > 0 && base % p == 0 && base <= x < base + p
    ensures x / p == base / p
  {
    var q := base / p;
    DivMod(base, p);
    DivUnique(x, p, q, x - base);
  }
}
