/** IPv4 prefixes and the three bit-level containment tests of src/rib.rs, src/policy.rs and src/rpki.rs.

    Words are bit strings read as numbers: a shift right by one halves, a shift left by one
    doubles modulo 2^32. Shift amounts follow a release build: `32 - len` wraps and is taken
    modulo 32. */
module Prefixes {
  import opened Wire

  /** A network prefix; also the RIB's look-up key, which has the same two fields. */
  datatype Prefix = Prefix(address: u32, prefixLen: byte)

  function Pow2(n: nat): (p: nat)
    ensures p >= 1
  {
    if n == 0 then 1 else 2 * Pow2(n - 1)
  }

  const WORD: nat := 0x1_0000_0000

  function ShiftFor(len: byte): (s: nat)
    ensures s < 32
  {
    (32 - len) % 32
  }

  function Shr(x: nat, s: nat): (y: nat)
    ensures y <= x
  {
    if s == 0 then x else Shr(x / 2, s - 1)
  }

  function Shl(x: nat, s: nat): nat {
    if s == 0 then x else 2 * Shl(x, s - 1) % WORD
  }

  /** Bitwise conjunction of the low `n` bits. */
  function BitAnd(x: nat, y: nat, n: nat): nat {
    if n == 0 then 0
    else (if x % 2 == 1 && y % 2 == 1 then 1 else 0) + 2 * BitAnd(x / 2, y / 2, n - 1)
  }

  /** The mask `!((1 << s) - 1)`. */
  function NetMask(s: nat): nat
    requires s < 32
  {
    Pow2Monotone(s, 32);
    Pow2(32) - 1 - (Pow2(s) - 1)
  }

  /** `longest_match`'s test. */
  predicate CoversByShift(key: Prefix, addr: u32) {
    key.prefixLen == 0
    || Shr(addr, ShiftFor(key.prefixLen)) == Shr(key.address, ShiftFor(key.prefixLen))
  }

  /** `is_subnet`'s test. */
  predicate IsSubnet(test: Prefix, net: Prefix) {
    if test.prefixLen < net.prefixLen then false
    else if net.prefixLen == 0 then true
    else
      var mask := NetMask(ShiftFor(net.prefixLen));
      BitAnd(net.address, mask, 32) == BitAnd(test.address, mask, 32)
  }

  /** `Roa::covers`'s test on the network bits. */
  predicate SameNetByShifts(a: u32, b: u32, len: byte) {
    var s := ShiftFor(len);
    Shl(Shr(a, s), s) == Shl(Shr(b, s), s)
  }

  // ----- The reference: address quotients -----

  /** The network part of an address, as a number of `len` bits. */
  function Network(addr: u32, len: byte): nat
    requires len <= 32
  {
    Shr(addr, 32 - len)
  }

  /** `addr` belongs to `p`. */
  predicate Member(addr: u32, p: Prefix)
    requires p.prefixLen <= 32
  {
    Network(addr, p.prefixLen) == Network(p.address, p.prefixLen)
  }

  predicate Contains(net: Prefix, p: Prefix)
    requires net.prefixLen <= 32
  {
    net.prefixLen <= p.prefixLen && Member(p.address, net)
  }

  lemma {:induction false} Pow2Monotone(m: nat, n: nat)
    requires m <= n
    ensures Pow2(m) <= Pow2(n)
  {
    if m < n { Pow2Monotone(m, n - 1); }
  }

  lemma {:induction false} Pow2Word()
    ensures Pow2(32) == WORD
  {
    assert Pow2(4) == 16;
    assert Pow2(8) == 16 * Pow2(4);
    assert Pow2(12) == 16 * Pow2(8);
    assert Pow2(16) == 16 * Pow2(12);
    assert Pow2(20) == 16 * Pow2(16);
    assert Pow2(24) == 16 * Pow2(20);
    assert Pow2(28) == 16 * Pow2(24);
  }

  lemma MulStep(a: int, b: int, d: int)
    requires a < b && d >= 0
    ensures a * d + d <= b * d
  {
    var k := b - a - 1;
    assert k * d >= 0;
    assert b * d == a * d + k * d + d;
  }

  /** A quotient is determined by the interval it puts the dividend in. */
  lemma DivUnique(x: int, d: int, q: int)
    requires d >= 1 && q * d <= x < q * d + d
    ensures x / d == q
  {
    var q', r := x / d, x % d;
    assert x == q' * d + r;
    if q' > q {
      MulStep(q, q', d);
    } else if q' < q {
      MulStep(q', q, d);
    }
  }

  lemma DivBounds(x: int, d: int)
    requires d >= 1
    ensures x / d * d <= x < x / d * d + d
  {
    assert x == x / d * d + x % d;
  }

  lemma HalfQuotient(x: nat, p: nat)
    requires p >= 1
    ensures x / (2 * p) == x / 2 / p
  {
    var h := x / 2;
    var q := h / p;
    var m := q * p;
    assert m <= h < m + p by { DivBounds(h, p); }
    assert q * (2 * p) == 2 * m by { DoubleProduct(q, p); }
    assert 2 * m <= x < 2 * m + 2 * p;
    DivUnique(x, 2 * p, q);
  }

  lemma DoubleProduct(q: int, p: int)
    ensures q * (2 * p) == 2 * (q * p)
  {
  }

  /** Shifting right by `s` is dividing by 2^s. */
  lemma {:induction false} ShrIsQuotient(x: nat, s: nat)
    ensures Shr(x, s) == x / Pow2(s)
  {
    if s > 0 {
      ShrIsQuotient(x / 2, s - 1);
      HalfQuotient(x, Pow2(s - 1));
    }
  }

  // ----- The three tests agree with the reference -----

  lemma {:induction false} ShrVanishes(x: nat, s: nat)
    requires x < Pow2(s)
    ensures Shr(x, s) == 0
  {
    if s > 0 { ShrVanishes(x / 2, s - 1); }
  }

  lemma ShiftIsNetwork(key: Prefix, addr: u32)
    requires key.prefixLen <= 32
    ensures CoversByShift(key, addr) <==> Member(addr, key)
  {
    if key.prefixLen == 0 {
      Pow2Word();
      ShrVanishes(addr, 32);
      ShrVanishes(key.address, 32);
    }
  }

  /** `x` with its low `s` bits cleared. */
  function Clear(x: nat, s: nat): (y: nat)
    ensures y <= x
  {
    if s == 0 then x else 2 * Clear(x / 2, s - 1)
  }

  lemma {:induction false} ShiftBackClears(x: nat, s: nat)
    requires x < WORD
    ensures Shl(Shr(x, s), s) == Clear(x, s)
  {
    if s > 0 { ShiftBackClears(x / 2, s - 1); }
  }

  lemma {:induction false} MaskClears(x: nat, s: nat, n: nat)
    requires s <= n && x < Pow2(n)
    ensures Pow2(s) <= Pow2(n)
    ensures BitAnd(x, Pow2(n) - Pow2(s), n) == Clear(x, s)
  {
    Pow2Monotone(s, n);
    if n > 0 {
      var mask, s' := Pow2(n) - Pow2(s), if s == 0 then 0 else s - 1;
      MaskClears(x / 2, s', n - 1);
      assert mask / 2 == Pow2(n - 1) - Pow2(s');
      assert mask % 2 == if s == 0 then 1 else 0;
    }
  }

  lemma {:induction false} ClearIsNetwork(a: nat, b: nat, s: nat)
    ensures Clear(a, s) == Clear(b, s) <==> Shr(a, s) == Shr(b, s)
  {
    if s > 0 { ClearIsNetwork(a / 2, b / 2, s - 1); }
  }

  lemma ShiftsAreNetwork(a: u32, b: u32, len: byte)
    requires 1 <= len <= 32
    ensures SameNetByShifts(a, b, len) <==> Network(a, len) == Network(b, len)
  {
    hide Shr, Shl, Clear;
    var s := ShiftFor(len);
    ShiftBackClears(a, s);
    ShiftBackClears(b, s);
    ClearIsNetwork(a, b, s);
  }

  lemma MaskedSame(a: nat, b: nat, s: nat, n: nat)
    requires s <= n && a < Pow2(n) && b < Pow2(n)
    ensures Pow2(s) <= Pow2(n)
    ensures var mask := Pow2(n) - Pow2(s);
            BitAnd(a, mask, n) == BitAnd(b, mask, n) <==> Shr(a, s) == Shr(b, s)
  {
    MaskClears(a, s, n);
    MaskClears(b, s, n);
    ClearIsNetwork(a, b, s);
  }

  lemma MaskIsNetwork(test: Prefix, net: Prefix)
    requires net.prefixLen <= 32
    ensures IsSubnet(test, net) <==> Contains(net, test)
  {
    hide BitAnd, Pow2, Shr;
    Pow2Word();
    if net.prefixLen == 0 {
      ShrVanishes(net.address, 32);
      ShrVanishes(test.address, 32);
    } else if test.prefixLen >= net.prefixLen {
      MaskedSame(net.address, test.address, ShiftFor(net.prefixLen), 32);
    }
  }

  /** All three tests are equality of the addresses' quotients by 2^(32 - len), on lengths 1 to 32. */
  lemma TestsAgree(p: Prefix, addr: u32, len: byte)
    requires 1 <= p.prefixLen <= 32 && p.prefixLen <= len
    ensures var same := addr / Pow2(32 - p.prefixLen) == p.address / Pow2(32 - p.prefixLen);
            && (CoversByShift(p, addr) <==> same)
            && (IsSubnet(Prefix(addr, len), p) <==> same)
            && (SameNetByShifts(p.address, addr, p.prefixLen) <==> same)
  {
    ShrIsQuotient(addr, 32 - p.prefixLen);
    ShrIsQuotient(p.address, 32 - p.prefixLen);
    ShiftIsNetwork(p, addr);
    MaskIsNetwork(Prefix(addr, len), p);
    ShiftsAreNetwork(p.address, addr, p.prefixLen);
  }

  /** A length above 32, which the UPDATE parser and the policy text let through, acts like the length from 1
      to 32 that differs from it by a multiple of 32. */
  lemma Overlong(p: Prefix, addr: u32, len: byte, acts: byte)
    requires 32 < p.prefixLen <= len && 1 <= acts <= 32 && (p.prefixLen - acts) % 32 == 0
    ensures var same := addr / Pow2(32 - acts) == p.address / Pow2(32 - acts);
            && (CoversByShift(p, addr) <==> same)
            && (IsSubnet(Prefix(addr, len), p) <==> same)
            && (SameNetByShifts(p.address, addr, p.prefixLen) <==> same)
  {
    hide Shr, Shl, BitAnd, Pow2, NetMask;
    assert ShiftFor(p.prefixLen) == ShiftFor(acts);
    TestsAgree(Prefix(p.address, acts), addr, len);
  }

  // ----- Containment is an order, and prefixes are nested or disjoint -----

  lemma {:induction false} ShrShr(x: nat, m: nat, n: nat)
    ensures Shr(x, m + n) == Shr(Shr(x, m), n)
  {
    if m > 0 { ShrShr(x / 2, m - 1, n); }
  }

  lemma MembersAgree(a: u32, b: u32, short: byte, long: byte)
    requires short <= long <= 32
    requires Network(a, long) == Network(b, long)
    ensures Network(a, short) == Network(b, short)
  {
    ShrShr(a, 32 - long, long - short);
    ShrShr(b, 32 - long, long - short);
  }

  lemma ContainsTransitive(a: Prefix, b: Prefix, c: Prefix)
    requires a.prefixLen <= 32 && b.prefixLen <= 32
    requires Contains(a, b) && Contains(b, c)
    ensures Contains(a, c)
  {
    MembersAgree(b.address, c.address, a.prefixLen, b.prefixLen);
  }

  lemma NestedOrDisjoint(p: Prefix, q: Prefix, addr: u32)
    requires p.prefixLen <= 32 && q.prefixLen <= 32
    requires Member(addr, p) && Member(addr, q)
    ensures Contains(p, q) || Contains(q, p)
  {
    if p.prefixLen <= q.prefixLen {
      MembersAgree(addr, q.address, p.prefixLen, q.prefixLen);
    } else {
      MembersAgree(addr, p.address, q.prefixLen, p.prefixLen);
    }
  }

  /** `x` with bit `s` flipped. */
  function Flip(x: nat, s: nat): nat {
    if s == 0 then (if x % 2 == 0 then x + 1 else x - 1)
    else x % 2 + 2 * Flip(x / 2, s - 1)
  }

  lemma FlipNext(x: nat, s: nat)
    requires s > 0
    ensures Flip(x, s) / 2 == Flip(x / 2, s - 1) && Flip(x, s) == x % 2 + 2 * Flip(x / 2, s - 1)
  {
  }

  lemma ShrNext(x: nat, s: nat)
    requires s > 0
    ensures Shr(x, s) == Shr(x / 2, s - 1)
  {
  }

  lemma {:induction false} FlipShifted(x: nat, s: nat, n: nat)
    requires s < n && x < Pow2(n)
    ensures Flip(x, s) < Pow2(n)
    ensures Shr(Flip(x, s), s) != Shr(x, s)
    ensures Shr(Flip(x, s), s + 1) == Shr(x, s + 1)
  {
    hide Flip, Shr, Pow2;
    if s == 0 {
      FlipLowest(x, n);
    } else {
      var y := Flip(x, s);
      Pow2Next(n);
      FlipShifted(x / 2, s - 1, n - 1);
      FlipNext(x, s);
      ShrNext(x, s);
      ShrNext(y, s);
      ShrNext(x, s + 1);
      ShrNext(y, s + 1);
    }
  }

  lemma FlipLowest(x: nat, n: nat)
    requires n > 0 && x < Pow2(n)
    ensures Flip(x, 0) < Pow2(n) && Shr(Flip(x, 0), 0) != Shr(x, 0) && Shr(Flip(x, 0), 1) == Shr(x, 1)
  {
    hide Shr, Pow2;
    Pow2Next(n);
    FlipPair(x, Pow2(n - 1));
    ShrNext(x, 1);
    ShrNext(Flip(x, 0), 1);
    ShrNone(x);
    ShrNone(Flip(x, 0));
  }

  /** Flipping the lowest bit stays within a pair of neighbours. */
  lemma FlipPair(x: nat, p: nat)
    requires x < 2 * p
    ensures Flip(x, 0) != x && Flip(x, 0) / 2 == x / 2 && Flip(x, 0) < 2 * p
  {
    var q := x / 2;
    assert x == 2 * q || x == 2 * q + 1;
    assert q < p;
  }

  lemma ShrNone(x: nat)
    ensures Shr(x, 0) == x
  {
  }

  lemma Pow2Next(n: nat)
    requires n > 0
    ensures Pow2(n) == 2 * Pow2(n - 1)
  {
  }

  /** An address of `p` that differs from `a` in the first bit below the prefix. */
  lemma Sibling(p: Prefix, a: u32) returns (b: u32)
    requires p.prefixLen < 32 && Member(a, p)
    ensures Member(b, p)
    ensures forall len: byte :: p.prefixLen < len <= 32 ==> Network(a, len) != Network(b, len)
  {
    var len := p.prefixLen;
    Pow2Word();
    FlipShifted(a, 31 - len, 32);
    b := Flip(a, 31 - len);
    forall l: byte | len < l <= 32 ensures Network(a, l) != Network(b, l) {
      if Network(a, l) == Network(b, l) {
        MembersAgree(a, b, len + 1, l);
      }
    }
  }

  /** Containment of prefixes is exactly inclusion of their address sets. */
  lemma ContainsIsInclusion(net: Prefix, p: Prefix)
    requires net.prefixLen <= 32 && p.prefixLen <= 32
    ensures Contains(net, p) <==> forall a: u32 :: Member(a, p) ==> Member(a, net)
  {
    if Contains(net, p) {
      forall a: u32 | Member(a, p) ensures Member(a, net) {
        MembersAgree(a, p.address, net.prefixLen, p.prefixLen);
      }
    } else if Member(p.address, net) {
      var b := Sibling(p, p.address);
      assert Member(b, p) && !Member(b, net);
    } else {
      assert Member(p.address, p);
    }
  }
}
