/** Powers of two and the bits of a number. */
module Bits {

  function TwoTo(n: nat): (p: nat)
    ensures p > 0
  {
    if n == 0 then 1 else 2 * TwoTo(n - 1)
  }

  lemma SevenMore(j: nat)
    ensures TwoTo(j + 7) == 128 * TwoTo(j)
  {
    assert TwoTo(j + 1) == 2 * TwoTo(j) && TwoTo(j + 2) == 2 * TwoTo(j + 1) && TwoTo(j + 3) == 2 * TwoTo(j + 2);
    assert TwoTo(j + 4) == 2 * TwoTo(j + 3) && TwoTo(j + 5) == 2 * TwoTo(j + 4) && TwoTo(j + 6) == 2 * TwoTo(j + 5);
  }

  lemma {:induction false} TwoToGrows(m: nat, n: nat)
    ensures m <= n ==> TwoTo(m) <= TwoTo(n)
    decreases n
  {
    if m < n {
      TwoToGrows(m, n - 1);
    }
  }

  lemma ModAdd(a: nat, b: nat, m: nat)
    requires m > 0
    ensures (a % m + b) % m == (a + b) % m
  {
    var q := a / m;
    assert a == a % m + q * m;
    ModMultiple(a % m + b, q, m);
  }

  lemma {:induction false} ModMultiple(a: nat, q: nat, m: nat)
    requires m > 0
    ensures (a + q * m) % m == a % m && (a + q * m) / m == a / m + q
    decreases q
  {
    if q > 0 {
      ModMultiple(a, q - 1, m);
      var b := a + (q - 1) * m;
      assert a + q * m == b + m;
      AddOnce(b, m);
    }
  }

  lemma AddOnce(b: nat, m: nat)
    requires m > 0
    ensures (b + m) % m == b % m && (b + m) / m == b / m + 1
  {
    assert b + m == b / m * m + m + b % m == (b / m + 1) * m + b % m;
    DivisionIsUnique(b + m, b / m + 1, b % m, m);
  }

  lemma DivisionIsUnique(x: nat, q: nat, r: nat, m: nat)
    requires x == q * m + r && r < m
    ensures x / m == q && x % m == r
  {
    var d := x / m - q;
    assert d * m == x / m * m - q * m == r - x % m;
    Multiple(d, m);
  }

  lemma Multiple(d: int, m: nat)
    ensures d >= 1 ==> d * m >= m
    ensures d <= -1 ==> d * m + m <= 0
  {
  }

  predicate Bit(word: nat, k: nat) {
    word / TwoTo(k) % 2 == 1
  }

  /** word | 1 << k. */
  function SetBit(word: nat, k: nat): nat {
    if Bit(word, k) then word else word + TwoTo(k)
  }

  lemma Doubled(a: nat, b: nat)
    ensures a * (2 * b) == 2 * (a * b)
  {
  }

  lemma {:induction false} TwoToSum(k: nat, j: nat)
    ensures TwoTo(k + j) == TwoTo(k) * TwoTo(j)
    decreases j
  {
    if j == 0 {
      assert TwoTo(0) == 1;
    } else {
      TwoToSum(k, j - 1);
      assert TwoTo(k + j) == 2 * TwoTo(k + j - 1) && TwoTo(j) == 2 * TwoTo(j - 1);
      hide TwoTo;
      Doubled(TwoTo(k), TwoTo(j - 1));
    }
  }

  lemma TopBit(low: nat, k: nat)
    requires low < TwoTo(k)
    ensures !Bit(low, k) && Bit(low + TwoTo(k), k)
  {
    DivisionIsUnique(low + TwoTo(k), 1, low, TwoTo(k));
    DivisionIsUnique(low, 0, low, TwoTo(k));
  }

  lemma Swap(a: nat, b: nat)
    ensures a * b == b * a
  {
  }

  lemma SameParity(q: nat, half: nat)
    ensures (q + 2 * half) % 2 == q % 2
  {
  }

  lemma EvenMultiple(a: nat, half: nat, p: nat)
    requires p > 0
    ensures (a + p * (2 * half)) / p % 2 == a / p % 2
  {
    Swap(p, 2 * half);
    ModMultiple(a, 2 * half, p);
    SameParity(a / p, half);
  }

  lemma LowerBit(low: nat, k: nat, top: nat)
    requires k < top
    ensures Bit(low + TwoTo(top), k) <==> Bit(low, k)
  {
    var half := TwoTo(top - k - 1);
    assert TwoTo(top - k) == 2 * half;
    TwoToSum(k, top - k);
    hide TwoTo;
    EvenMultiple(low, half, TwoTo(k));
  }

  lemma NestedDivision(h: nat, p: nat, m: nat, q: nat)
    requires m < p && q > 0
    ensures p * q > 0 && (h * p + m) / (p * q) == h / q
  {
    var a, r := h / q, h % q;
    Parts(h, q);
    Expand(a, q, r, p);
    Room(r, q, m, p);
    DivisionIsUnique(h * p + m, a, r * p + m, p * q);
  }

  lemma Expand(a: nat, q: nat, r: nat, p: nat)
    ensures (a * q + r) * p == a * (p * q) + r * p
  {
    assert a * q * p == a * (p * q);
  }

  lemma Room(r: nat, q: nat, m: nat, p: nat)
    requires r < q && m < p
    ensures r * p + m < p * q
  {
    assert (r + 1) * p <= q * p;
  }

  /** Setting bit `k` sets that bit and no other. */
  lemma SetBitBits(w: nat, k: nat, j: nat)
    ensures Bit(SetBit(w, k), j) <==> Bit(w, j) || j == k
  {
    if !Bit(w, k) {
      if j < k {
        LowerBit(w, j, k);
      } else if j == k {
        AddOnce(w, TwoTo(k));
      } else {
        HigherBit(w, k, j);
      }
    }
  }

  lemma HigherBit(w: nat, k: nat, j: nat)
    requires k < j && !Bit(w, k)
    ensures Bit(w + TwoTo(k), j) <==> Bit(w, j)
  {
    var p, q := TwoTo(k), TwoTo(j - k - 1);
    assert TwoTo(j) == 2 * p * q by {
      TwoToSum(k, j - k);
      Regroup(p, q);
    }
    hide TwoTo;
    EvenQuotient(w, p, q);
  }

  lemma Regroup(p: nat, q: nat)
    ensures p * (2 * q) == 2 * p * q
  {
  }

  /** Adding p to a number whose quotient by p is even carries nothing past 2p. */
  lemma EvenQuotient(w: nat, p: nat, q: nat)
    requires p > 0 && q > 0 && w / p % 2 != 1
    ensures 2 * p * q > 0 && (w + p) / (2 * p * q) == w / (2 * p * q)
  {
    var a, l := w / p, w % p;
    Parts(w, p);
    Halves(a, a / 2, p);
    SameQuotient(a / 2, 2 * p, l, l + p, q);
    assert w == a / 2 * (2 * p) + l;
  }

  lemma Parts(w: nat, p: nat)
    requires p > 0
    ensures w == w / p * p + w % p && w % p < p
  {
  }

  lemma SameQuotient(h: nat, p: nat, m: nat, n: nat, q: nat)
    requires m < p && n < p && q > 0
    ensures p * q > 0 && (h * p + m) / (p * q) == (h * p + n) / (p * q)
  {
    NestedDivision(h, p, m, q);
    NestedDivision(h, p, n, q);
  }

  lemma Halves(a: nat, h: nat, p: nat)
    requires a % 2 != 1 && h == a / 2
    ensures a * p == h * (2 * p)
  {
    assert a == 2 * h;
  }

  lemma ByteBits(w: nat, k: nat)
    requires w < 256 && k < 8
    ensures SetBit(w, k) < 256
  {
    if !Bit(w, k) {
      assert TwoTo(1) == 2 && TwoTo(2) == 4 && TwoTo(3) == 8 && TwoTo(4) == 16;
      assert TwoTo(5) == 32 && TwoTo(6) == 64 && TwoTo(7) == 128;
    }
  }

  lemma NoBit(k: nat)
    ensures !Bit(0, k)
  {
    DivisionIsUnique(0, 0, 0, TwoTo(k));
  }
}
