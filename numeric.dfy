/** Powers of two and the facts about Euclidean division that the bit and
    nibble extractions of BigInt values rest on: `x >> k` is `x / Pow2(k)`
    (floor division) and `x & (2^w - 1)` is `x % Pow2(w)`. */
module Numeric {

  function Pow2(n: nat): (p: nat)
    ensures p >= 1
  {
    if n == 0 then 1 else 2 * Pow2(n - 1)
  }

  lemma {:induction false} Pow2Add(a: nat, b: nat)
    ensures Pow2(a + b) == Pow2(a) * Pow2(b)
  {
    if a > 0 {
      Pow2Add(a - 1, b);
      calc {
        Pow2(a + b);
        2 * Pow2(a - 1 + b);
        2 * (Pow2(a - 1) * Pow2(b));
        (2 * Pow2(a - 1)) * Pow2(b);
      }
    }
  }

  /** Quotient and remainder are determined by `x == d * q + r` with `0 <= r < d`. */
  lemma DivModUnique(x: int, d: int, q: int, r: int)
    requires d > 0 && 0 <= r < d && x == d * q + r
    ensures x / d == q && x % d == r
  {
    var q0, r0 := x / d, x % d;
    assert d * (q - q0) == r0 - r;
    MulSign(d, q - q0);
  }

  lemma MulSign(d: int, k: int)
    requires d > 0
    ensures k >= 1 ==> d * k >= d
    ensures k <= -1 ==> d * k <= -d
  {
    if k >= 1 {
      assert d * k == d + d * (k - 1);
    } else if k <= -1 {
      assert d * k == -d + d * (k + 1);
    }
  }

  /** Adding a multiple of `d` shifts the quotient and keeps the remainder. */
  lemma DivAddMul(a: int, b: int, d: int)
    requires d > 0
    ensures (a * d + b) / d == a + b / d
    ensures (a * d + b) % d == b % d
  {
    assert a * d + b == d * (a + b / d) + b % d;
    DivModUnique(a * d + b, d, a + b / d, b % d);
  }

  lemma DivMod(x: int, d: int)
    requires d > 0
    ensures x == d * (x / d) + x % d && 0 <= x % d < d
  {
  }

  lemma MulAssoc(a: int, b: int, c: int)
    ensures (a * b) * c == a * (b * c)
  {
  }

  /** `(x >> k) & 0xF` only sees bits k..k+3 of `x`, so reducing `x` modulo
      2^n first changes nothing when `k + 4 <= n`. */
  lemma NibbleOfMod(x: int, k: nat, n: nat)
    requires k + 4 <= n
    ensures (x / Pow2(k)) % 16 == ((x % Pow2(n)) / Pow2(k)) % 16
  {
    var u := Pow2Split(k, n);
    DigitOfMod(x, Pow2(k), u, Pow2(n));
  }

  /** `2^n == 2^k * 16 * 2^(n-k-4)` when `k + 4 <= n`. */
  lemma Pow2Split(k: nat, n: nat) returns (u: int)
    requires k + 4 <= n
    ensures u > 0 && Pow2(n) == Pow2(k) * (16 * u)
  {
    var rest: nat := n - k - 4;
    u := Pow2(rest);
    assert Pow2(4) == 16;
    Pow2Add(4, rest);
    Pow2Add(k, 4 + rest);
  }

  /** Digit base 16 of `x` at weight `p` survives reducing `x` modulo `m == p * 16 * u`. */
  lemma DigitOfMod(x: int, p: int, u: int, m: int)
    requires p > 0 && u > 0 && m == p * (16 * u)
    ensures (x / p) % 16 == ((x % m) / p) % 16
  {
    var w := 16 * u;
    ModMulStep(x, p, w);
    assert (x % (p * w)) / p == (x / p) % w by {
      DivModUnique(x % (p * w), p, (x / p) % w, x % p);
    }
    ModOfMod(x / p, u);
  }

  /** Reducing modulo a multiple of 16 keeps the remainder modulo 16. */
  lemma ModOfMod(y: int, u: int)
    requires u > 0
    ensures (y % (16 * u)) % 16 == y % 16
  {
    var w := 16 * u;
    var bigQ, bigR := y / w, y % w;
    assert y == (u * bigQ) * 16 + bigR by {
      DivMod(y, w);
      MulAssoc(16, u, bigQ);
    }
    DivAddMul(u * bigQ, bigR, 16);
  }

  /** Splitting a remainder modulo `p * q` into its low part modulo `p` and
      the next digit in base `q`. */
  lemma ModMulStep(v: int, p: int, q: int)
    requires p > 0 && q > 0
    ensures v % (p * q) == v % p + ((v / p) % q) * p
  {
    var t, lo := v / p, v % p;
    var bigQ, hi := t / q, t % q;
    assert v == p * t + lo && 0 <= lo < p by {
      DivMod(v, p);
    }
    assert t == q * bigQ + hi && 0 <= hi < q by {
      DivMod(t, q);
    }
    assert p * t == (p * q) * bigQ + p * hi by {
      MulAssoc(p, q, bigQ);
    }
    assert p * hi <= p * q - p by {
      MulMono(hi, q - 1, p);
    }
    MulSign(p, q);
    DivModUnique(v, p * q, bigQ, p * hi + lo);
  }

  lemma MulMono(a: int, b: int, p: int)
    requires a <= b && p >= 0
    ensures a * p <= b * p
  {
    assert b * p == a * p + (b - a) * p;
  }
}
