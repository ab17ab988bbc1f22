/** Two-limb arithmetic over an arbitrary radix w: how carries, borrows and shifted-out bits of the
    low limb combine with the high limb.  Instantiated with w = 2^64 and w = 2^128. */
module Limbs {
  import opened Numerals

  function Join(upper: nat, lower: nat, w: nat): nat { upper * w + lower }

  lemma ModAdd(a: int, c: int, w: int)
    requires w > 0
    ensures (a % w + c) % w == (a + c) % w
  {
    var q, r := (a % w + c) / w, (a % w + c) % w;
    assert a == a / w * w + a % w;
    assert a + c == (a / w + q) * w + r;
    DivModUnique(a + c, w, a / w + q, r);
  }

  lemma JoinBound(u: nat, l: nat, w: nat)
    requires u < w && l < w
    ensures 0 <= Join(u, l, w) < w * w
  {
    MulAddLt(u, l, w, w);
  }

  /** Reducing the sum of two two-limb numbers whose low limbs sum to c * w + l. */
  lemma JoinMod(hi: int, lo: int, c: int, l: nat, w: nat)
    requires w > 0 && l < w && lo == c * w + l
    ensures Join((hi + c) % w, l, w) == (hi * w + lo) % (w * w)
  {
    var u, k := (hi + c) % w, (hi + c) / w;
    var n := hi * w + lo;
    assert n == (hi + c) * w + l;
    assert (hi + c) * w == k * (w * w) + u * w;
    JoinBound(u, l, w);
    DivModUnique(n, w * w, k, u * w + l);
  }

  /** Wrap-around of the low limb is its carry. */
  lemma AddLimbs(u1: nat, l1: nat, u2: nat, l2: nat, w: nat)
    requires u1 < w && l1 < w && u2 < w && l2 < w
    ensures var l := (l1 + l2) % w;
            var carry := if l < l1 then 1 else 0;
            Join(((u1 + u2) % w + carry) % w, l, w) == (Join(u1, l1, w) + Join(u2, l2, w)) % (w * w)
  {
    var l := (l1 + l2) % w;
    var carry := if l1 + l2 < w then 0 else 1;
    DivModUnique(l1 + l2, w, carry, l1 + l2 - carry * w);
    ModAdd(u1 + u2, carry, w);
    JoinMod(u1 + u2, l1 + l2, carry, l, w);
    assert (u1 + u2) * w + (l1 + l2) == Join(u1, l1, w) + Join(u2, l2, w);
  }

  /** Wrap-around of the low limb is its borrow. */
  lemma SubLimbs(u1: nat, l1: nat, u2: nat, l2: nat, w: nat)
    requires u1 < w && l1 < w && u2 < w && l2 < w
    ensures var l := (l1 - l2) % w;
            var borrow := if l > l1 then 1 else 0;
            Join(((u1 - u2) % w - borrow) % w, l, w) == (Join(u1, l1, w) - Join(u2, l2, w)) % (w * w)
  {
    var l := (l1 - l2) % w;
    var borrow := if l1 >= l2 then 0 else 1;
    DivModUnique(l1 - l2, w, -borrow, l1 - l2 + borrow * w);
    ModAdd(u1 - u2, -borrow, w);
    JoinMod(u1 - u2, l1 - l2, -borrow, l, w);
    assert (u1 - u2) * w + (l1 - l2) == Join(u1, l1, w) - Join(u2, l2, w);
  }

  /** The remainder as a function, so that it can be kept folded for large moduli. */
  function Mod(x: int, w: nat): int
    requires w > 0
  {
    x % w
  }

  lemma AddLimbsMod(u1: nat, l1: nat, u2: nat, l2: nat, w: nat)
    requires u1 < w && l1 < w && u2 < w && l2 < w
    ensures var u, l := Mod(u1 + u2, w), Mod(l1 + l2, w);
            && 0 <= u < w && 0 <= l < w
            && Join(Mod(u + if l < l1 then 1 else 0, w), l, w) == Mod(Join(u1, l1, w) + Join(u2, l2, w), w * w)
  {
    AddLimbs(u1, l1, u2, l2, w);
  }

  lemma SubLimbsMod(u1: nat, l1: nat, u2: nat, l2: nat, w: nat)
    requires u1 < w && l1 < w && u2 < w && l2 < w
    ensures var u, l := Mod(u1 - u2, w), Mod(l1 - l2, w);
            && 0 <= u < w && 0 <= l < w
            && Join(Mod(u - if l > l1 then 1 else 0, w), l, w) == Mod(Join(u1, l1, w) - Join(u2, l2, w), w * w)
  {
    SubLimbs(u1, l1, u2, l2, w);
  }

  /** Splitting w = p * q: the top part of a limb is shifted out, the rest shifted up. */
  lemma ShiftedLimb(l: nat, p: nat, q: nat, w: nat)
    requires p > 0 && q > 0 && w == p * q && l < w
    ensures 0 <= l / q < p && 0 <= l % q
    ensures l * p == (l / q) * w + (l % q) * p
    ensures (l % q) * p + p <= w
    ensures (l * p) % w == (l % q) * p
  {
    var d, m := l / q, l % q;
    DivIdentity(l, q);
    MulAddLt(d, m, p, q);
    assert (d * q + m) * p == d * (p * q) + m * p;
    MulMono(m + 1, q, p);
    assert (m + 1) * p == m * p + p;
    DivModUnique(l * p, w, d, m * p);
  }

  lemma JoinTimes(u: nat, l: nat, p: nat, w: nat)
    ensures (u * p) * w + l * p == Join(u, l, w) * p
  {
  }

  lemma ShlLimbs(u: nat, l: nat, p: nat, q: nat, w: nat)
    requires p > 0 && q > 0 && w == p * q && u < w && l < w
    ensures 0 <= l / q
    ensures (u * p) % w + l / q < w
    ensures Join(((u * p) % w + l / q) % w, (l * p) % w, w) == (Join(u, l, w) * p) % (w * w)
  {
    ShiftedLimb(u, p, q, w);
    ShiftedLimb(l, p, q, w);
    var hi, lo, c, low := u * p, l * p, l / q, (l % q) * p;
    ShlCombine(hi, lo, c, low, w);
    JoinTimes(u, l, p, w);
  }

  lemma ShlCombine(hi: nat, lo: nat, c: nat, low: nat, w: nat)
    requires low < w && lo == c * w + low
    ensures Join((hi % w + c) % w, low, w) == (hi * w + lo) % (w * w)
  {
    ModAdd(hi, c, w);
    JoinMod(hi, lo, c, low, w);
  }

  /** Shifting by w * p moves the low limb up and clears it. */
  lemma ShlLimbsWide(u: nat, l: nat, p: nat, w: nat)
    requires w > 0
    ensures Join((l * p) % w, 0, w) == (Join(u, l, w) * (w * p)) % (w * w)
  {
    DivIdentity(l * p, w);
    var k, r := l * p / w, (l * p) % w;
    JoinBound(r, 0, w);
    WideIdentity(u, l, p, k, r, w);
    DivModUnique((u * w + l) * (w * p), w * w, u * p + k, r * w);
  }

  lemma WideIdentity(u: nat, l: nat, p: nat, k: nat, r: nat, w: nat)
    requires l * p == k * w + r
    ensures (u * w + l) * (w * p) == (u * p + k) * (w * w) + r * w
  {
  }

  lemma ShrIdentity(d: nat, m: nat, e: nat, r: nat, p: nat, q: nat, w: nat)
    requires w == p * q
    ensures (d * p + m) * w + (e * p + r) == (d * w + (m * q + e)) * p + r
  {
  }

  lemma ShrCombine(u: nat, l: nat, d: nat, m: nat, e: nat, r: nat, p: nat, q: nat, w: nat)
    requires w == p * q && r < p
    requires u == d * p + m && l == e * p + r
    ensures Join(d, m * q + e, w) == Join(u, l, w) / p
  {
    ShrIdentity(d, m, e, r, p, q, w);
    DivModUnique(Join(u, l, w), p, d * w + (m * q + e), r);
  }

  lemma ShrLimbs(u: nat, l: nat, p: nat, q: nat, w: nat)
    requires p > 0 && q > 0 && w == p * q && u < w && l < w
    ensures 0 <= u / p && 0 <= l / p
    ensures (u * q) % w + l / p < w
    ensures Join(u / p, (u * q) % w + l / p, w) == Join(u, l, w) / p
  {
    assert w == q * p;
    ShiftedLimb(u, q, p, w);
    ShiftedLimb(l, q, p, w);
    DivIdentity(u, p);
    DivIdentity(l, p);
    ShrCombine(u, l, u / p, u % p, l / p, l % p, p, q, w);
  }

  lemma DivDiv(n: nat, w: nat, p: nat)
    requires w > 0 && p > 0
    ensures w * p > 0
    ensures 0 <= n / w
    ensures n / w / p == n / (w * p)
  {
    DivIdentity(n, w);
    var d, m := n / w, n % w;
    DivIdentity(d, p);
    var e, r := d / p, d % p;
    MulAddLt(r, m, p, w);
    assert (e * p + r) * w + m == e * (w * p) + (r * w + m);
    assert p * w == w * p;
    DivModUnique(n, w * p, e, r * w + m);
  }

  lemma ShlLimbsMod(u: nat, l: nat, p: nat, q: nat, w: nat)
    requires p > 0 && q > 0 && w == p * q && u < w && l < w
    ensures 0 <= l / q && 0 <= Mod(u * p, w) < w && 0 <= Mod(l * p, w) < w && 0 <= Mod(Mod(u * p, w) + l / q, w) < w
    ensures Join(Mod(Mod(u * p, w) + l / q, w), Mod(l * p, w), w) == Mod(Join(u, l, w) * p, w * w)
  {
    ShlLimbs(u, l, p, q, w);
  }

  lemma ShrLimbsMod(u: nat, l: nat, p: nat, q: nat, w: nat)
    requires p > 0 && q > 0 && w == p * q && u < w && l < w
    ensures 0 <= u / p && 0 <= l / p && 0 <= Mod(u * q, w) && Mod(u * q, w) + l / p < w
    ensures Join(u / p, Mod(u * q, w) + l / p, w) == Join(u, l, w) / p
  {
    ShrLimbs(u, l, p, q, w);
  }

  lemma ShrLimbsWide(u: nat, l: nat, p: nat, w: nat)
    requires w > 0 && p > 0 && l < w
    ensures w * p > 0
    ensures u / p == Join(u, l, w) / (w * p)
  {
    DivModUnique(Join(u, l, w), w, u, l);
    DivDiv(Join(u, l, w), w, p);
  }
}
