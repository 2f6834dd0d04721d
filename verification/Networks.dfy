/**
 Address blocks as prefix networks (section 3.1 of RFC 4632), for both address widths:
 membership by masking, the four-clause overlap test, and what they amount to.
 */
module Networks {
  datatype Version = V4 | V6

  datatype Address = Address(version: Version, value: nat)

  datatype Net = Net(version: Version, base: nat, prefix: nat)

  function Width(v: Version): nat {
    if v == V4 then 32 else 128
  }

  function Pow2(n: nat): (p: nat)
    ensures p >= 1
  {
    if n == 0 then 1 else 2 * Pow2(n - 1)
  }

  predicate ValidAddress(a: Address) {
    a.value < Pow2(Width(a.version))
  }

  function BlockSize(v: Version, prefix: nat): (s: nat)
    requires prefix <= Width(v)
    ensures s >= 1
  {
    Pow2(Width(v) - prefix)
  }

  /** `address & netmask`: the bits below the prefix are cleared. */
  function Masked(value: nat, size: nat): nat
    requires size >= 1
  {
    value / size * size
  }

  /** `ip_network(address/prefix, strict=False)` */
  function NetworkOf(a: Address, prefix: nat): Net
    requires prefix <= Width(a.version)
  {
    Net(a.version, Masked(a.value, BlockSize(a.version, prefix)), prefix)
  }

  predicate Canonical(n: Net) {
    && n.prefix <= Width(n.version)
    && n.base % BlockSize(n.version, n.prefix) == 0
    && n.base + BlockSize(n.version, n.prefix) <= Pow2(Width(n.version))
  }

  /** `address in network` */
  predicate Contains(n: Net, a: Address)
    requires Canonical(n)
  {
    a.version == n.version && Masked(a.value, BlockSize(n.version, n.prefix)) == n.base
  }

  function First(n: Net): Address {
    Address(n.version, n.base)
  }

  function Last(n: Net): Address
    requires Canonical(n)
  {
    Address(n.version, n.base + BlockSize(n.version, n.prefix) - 1)
  }

  /** `network.overlaps(other)` */
  predicate Overlaps(n: Net, m: Net)
    requires Canonical(n) && Canonical(m)
  {
    Contains(n, First(m)) || Contains(n, Last(m)) || Contains(m, First(n)) || Contains(m, Last(n))
  }

  /* ---------- Arithmetic ---------- */

  lemma {:induction false} Pow2Add(a: nat, b: nat)
    ensures Pow2(a + b) == Pow2(a) * Pow2(b)
  {
    if a > 0 {
      Pow2Add(a - 1, b);
    }
  }

  lemma MulMonotone(j: nat, k: nat, size: nat)
    requires j <= k
    ensures j * size <= k * size
  {
  }

  lemma MulAssociates(a: nat, b: nat, c: nat)
    ensures (a * b) * c == a * (b * c)
  {
  }

  lemma NextMultiple(j: nat, size: nat)
    ensures (j + 1) * size == j * size + size
  {
  }

  /** Quotient and remainder are determined. */
  lemma Divided(x: nat, size: nat, q: nat, r: nat)
    requires size >= 1 && x == q * size + r && r < size
    ensures x / size == q && x % size == r
  {
    var d := x / size;
    assert x == d * size + x % size;
    NextMultiple(q, size);
    NextMultiple(d, size);
    if d < q {
      MulMonotone(d + 1, q, size);
    } else if q < d {
      MulMonotone(q + 1, d, size);
    }
  }

  lemma MultipleMod(q: nat, size: nat)
    requires size >= 1
    ensures (q * size) % size == 0
  {
    Divided(q * size, size, q, 0);
  }

  /** Masking is rounding down to a block boundary. */
  lemma MaskedInterval(a: nat, size: nat, base: nat)
    requires size >= 1 && base % size == 0
    ensures Masked(a, size) == base <==> base <= a < base + size
    ensures Masked(a, size) % size == 0 && Masked(a, size) <= a < Masked(a, size) + size
  {
    var q, k := a / size, base / size;
    assert a == q * size + a % size && base == k * size;
    MultipleMod(q, size);
    if base <= a < base + size {
      Divided(a, size, k, a - base);
    }
  }

  /** A block at a multiple of the smaller size either lies inside the larger block or outside it. */
  lemma Aligned(j: nat, small: nat, times: nat, k: nat)
    ensures var base, size, big := j * small, times * small, k * (times * small);
            base + small <= big || big + size <= base || (big <= base && base + small <= big + size)
  {
    MulAssociates(k, times, small);
    MulAssociates(k + 1, times, small);
    NextMultiple(k, times * small);
    NextMultiple(j, small);
    if j < k * times {
      MulMonotone(j + 1, k * times, small);
    } else if (k + 1) * times <= j {
      MulMonotone((k + 1) * times, j, small);
    } else {
      MulMonotone(k * times, j, small);
      MulMonotone(j + 1, (k + 1) * times, small);
    }
  }

  lemma ItsMultiple(base: nat, size: nat)
    requires size >= 1 && base % size == 0
    ensures base == (base / size) * size
  {
  }

  lemma AlignedBlocks(base: nat, small: nat, start: nat, big: nat, times: nat)
    requires small >= 1 && big >= 1 && big == times * small && base % small == 0 && start % big == 0
    ensures base + small <= start || start + big <= base || (start <= base && base + small <= start + big)
  {
    ItsMultiple(base, small);
    ItsMultiple(start, big);
    Aligned(base / small, small, times, start / big);
  }

  /* ---------- Networks ---------- */

  /** The block around an address ends before the whole range does. */
  lemma BlockFits(value: nat, size: nat, times: nat)
    requires size >= 1 && value < times * size
    ensures Masked(value, size) + size <= times * size
  {
    var q := value / size;
    NextMultiple(q, size);
    MulMonotone(q + 1, times, size) by {
      if times <= q {
        MulMonotone(times, q, size);
      }
    }
  }

  lemma NetworkOfCanonical(a: Address, prefix: nat)
    requires ValidAddress(a) && prefix <= Width(a.version)
    ensures Canonical(NetworkOf(a, prefix)) && Contains(NetworkOf(a, prefix), a)
  {
    var size := BlockSize(a.version, prefix);
    MaskedInterval(a.value, size, 0);
    Pow2Add(prefix, Width(a.version) - prefix);
    BlockFits(a.value, size, Pow2(prefix));
  }

  /** Two addresses of one version agree on their leading bits: these are the quotient by the number of values the
      remaining bits can take. */
  predicate SharesBits(a: Address, b: Address, bits: nat)
    requires bits <= Width(a.version)
  {
    a.version == b.version && SameQuotient(a.value, b.value, Pow2((if a.version == V4 then 32 else 128) - bits))
  }

  predicate SameQuotient(a: nat, b: nat, size: nat)
    requires size >= 1
  {
    a / size == b / size
  }

  /** The network of an address, whatever its host bits, has the prefix asked for and holds exactly the addresses that
      agree with it on that many leading bits. */
  lemma NetworkOfExact(a: Address, prefix: nat)
    requires ValidAddress(a) && prefix <= Width(a.version)
    ensures var n := NetworkOf(a, prefix);
            && Canonical(n) && n.version == a.version && n.prefix == prefix
            && forall b: Address :: Contains(n, b) <==> SharesBits(a, b, prefix)
  {
    NetworkOfCanonical(a, prefix);
    forall b: Address
      ensures Contains(NetworkOf(a, prefix), b) <==> SharesBits(a, b, prefix)
    {
      SameBlock(a.value, b.value, BlockSize(a.version, prefix));
    }
  }

  lemma SameBlock(a: nat, b: nat, size: nat)
    requires size >= 1
    ensures Masked(b, size) == Masked(a, size) <==> SameQuotient(a, b, size)
  {
    if Masked(b, size) == Masked(a, size) {
      Divided(b, size, b / size, b % size);
      Divided(Masked(a, size), size, a / size, 0);
      Divided(Masked(b, size), size, b / size, 0);
    }
  }

  /** Membership is lying in the interval of the block. */
  lemma ContainsInterval(n: Net, a: Address)
    requires Canonical(n)
    ensures Contains(n, a) <==> a.version == n.version && n.base <= a.value <= Last(n).value
    ensures Last(n).value == n.base + Pow2((if n.version == V4 then 32 else 128) - n.prefix) - 1
  {
    MaskedInterval(a.value, BlockSize(n.version, n.prefix), n.base);
  }

  ghost predicate ShareAddress(n: Net, m: Net)
    requires Canonical(n) && Canonical(m)
  {
    exists a :: ValidAddress(a) && Contains(n, a) && Contains(m, a)
  }

  /** Every address of `m` is one of `n`. */
  ghost predicate Within(m: Net, n: Net)
    requires Canonical(n) && Canonical(m)
  {
    forall a :: Contains(m, a) ==> Contains(n, a)
  }

  /** The smaller of two blocks lies before, after or inside the larger. */
  lemma BlocksAlign(n: Net, m: Net)
    requires Canonical(n) && Canonical(m) && n.version == m.version && n.prefix <= m.prefix
    ensures Last(m).value < n.base || Last(n).value < m.base || (n.base <= m.base && Last(m).value <= Last(n).value)
  {
    var big, small, times := BlockSize(n.version, n.prefix), BlockSize(m.version, m.prefix), Pow2(m.prefix - n.prefix);
    Pow2Add(m.prefix - n.prefix, Width(n.version) - m.prefix);
    AlignedBlocks(m.base, small, n.base, big, times);
  }

  /** A network with the longer prefix lies inside the other or shares no address with it. */
  lemma NestedOrDisjoint(n: Net, m: Net)
    requires Canonical(n) && Canonical(m) && n.version == m.version && n.prefix <= m.prefix
    ensures Within(m, n) || !ShareAddress(n, m)
    ensures Overlaps(n, m) <==> Within(m, n)
    ensures Within(m, n) ==> ShareAddress(n, m)
  {
    BlocksAlign(n, m);
    forall a: Address
      ensures Contains(n, a) <==> a.version == n.version && n.base <= a.value <= Last(n).value
      ensures Contains(m, a) <==> a.version == m.version && m.base <= a.value <= Last(m).value
    {
      ContainsInterval(n, a);
      ContainsInterval(m, a);
    }
    assert Contains(m, First(m)) && Contains(m, Last(m)) && ValidAddress(First(m));
  }

  /** The four-clause test is true exactly when the networks share an address, and then one contains the other. */
  lemma OverlapExact(n: Net, m: Net)
    requires Canonical(n) && Canonical(m)
    ensures Overlaps(n, m) <==> ShareAddress(n, m)
    ensures Overlaps(n, m) ==> Within(n, m) || Within(m, n)
    ensures Overlaps(n, m) == Overlaps(m, n)
  {
    if n.version == m.version {
      if n.prefix <= m.prefix {
        NestedOrDisjoint(n, m);
      } else {
        NestedOrDisjoint(m, n);
      }
    }
  }
}
