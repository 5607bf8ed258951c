/** Powers, and the digits of a number. */
module Powers {

  function Pow(b: nat, n: nat): (p: nat)
    requires b > 0
    ensures p > 0
  {
    if n == 0 then 1 else b * Pow(b, n - 1)
  }

  lemma {:induction false} PowAdd(b: nat, m: nat, n: nat)
    requires b > 0
    ensures Pow(b, m + n) == Pow(b, m) * Pow(b, n)
  {
    if m > 0 {
      PowAdd(b, m - 1, n);
    }
  }

  lemma Pow64()
    ensures Pow(2, 64) == 0x1_0000_0000_0000_0000
  {
    assert Pow(2, 8) == 256;
    PowAdd(2, 8, 8);
    PowAdd(2, 16, 16);
    PowAdd(2, 32, 32);
  }

  lemma {:induction false} PowMul(b: nat, m: nat, n: nat)
    requires b > 0
    ensures Pow(b, m * n) == Pow(Pow(b, m), n)
  {
    if n == 0 {
      assert m * n == 0;
    } else {
      PowMul(b, m, n - 1);
      assert m * n == m + m * (n - 1);
      PowAdd(b, m, m * (n - 1));
    }
  }

  /** Digit `j` of a number written in base `b`. */
  function Digit(w: nat, b: nat, j: nat): nat
    requires b > 0
    decreases j
  {
    if j == 0 then w % b else Digit(w / b, b, j - 1)
  }

  lemma MulMono(a: nat, b: nat, c: nat)
    requires a <= b
    ensures a * c <= b * c && c * a <= c * b
  {
    assert (b - a) * c >= 0;
  }

  lemma MulAtLeast(d: nat, x: int)
    ensures x >= 1 ==> d * x >= d
    ensures x <= -1 ==> d * x + d <= 0
  {
    if x >= 1 {
      MulMono(1, x, d);
    } else if x <= -1 {
      MulMono(1, -x, d);
      var y: nat := -x;
      assert d * x + d * y == d * (x + y);
    }
  }

  lemma DivUnique(w: nat, d: nat, q: nat, r: nat)
    requires d > 0 && w == d * q + r && r < d
    ensures w / d == q && w % d == r
  {
    var x := w / d - q;
    assert d * x == d * (w / d) - d * q;
    assert d * x == r - w % d;
    MulAtLeast(d, x);
  }

  lemma DivDiv(w: nat, a: nat, b: nat)
    requires a > 0 && b > 0
    ensures a * b > 0 && w / (a * b) == (w / a) / b
  {
    var v := w / a;
    var q, r, s := v / b, v % b, w % a;
    assert v == b * q + r;
    calc {
      w;
      a * v + s;
      a * (b * q + r) + s;
      a * (b * q) + a * r + s;
      (a * b) * q + (a * r + s);
    }
    MulMono(r, b - 1, a);
    assert a * (b - 1) == a * b - a;
    MulMono(1, b, a);
    DivUnique(w, a * b, q, a * r + s);
  }

  /** Shifting and masking finds the digit. */
  lemma {:induction false} DigitIs(w: nat, b: nat, j: nat)
    requires b > 0
    ensures Digit(w, b, j) == (w / Pow(b, j)) % b
    decreases j
  {
    if j > 0 {
      DigitIs(w / b, b, j - 1);
      DivDiv(w, b, Pow(b, j - 1));
    }
  }

  lemma AddMultiple(w: nat, b: nat, x: nat)
    requires b > 0
    ensures (w + b * x) / b == w / b + x && (w + b * x) % b == w % b
  {
    assert w + b * x == b * (w / b + x) + w % b;
    DivUnique(w + b * x, b, w / b + x, w % b);
  }

  lemma DivSmaller(w: nat, b: nat, m: nat)
    requires b > 0 && w < b * m
    ensures w / b < m
  {
    assert w == b * (w / b) + w % b;
    if w / b >= m {
      MulMono(m, w / b, b);
    }
  }

  lemma DivMono(v: nat, w: nat, d: nat)
    requires d > 0 && v <= w
    ensures v / d <= w / d
  {
    var q := w / d;
    assert w == d * q + w % d;
    assert d * (q + 1) == d * q + d;
    DivSmaller(v, d, q + 1);
  }

  lemma IncLow(w: nat, b: nat, m: nat)
    requires b > 1 && w < b * m && w % b < b - 1
    ensures (w + 1) / b == w / b && (w + 1) % b == w % b + 1 && w + 1 < b * m
  {
    var v := w / b;
    DivSmaller(w, b, m);
    assert w == b * v + w % b;
    DivUnique(w + 1, b, v, w % b + 1);
    MulMono(v + 1, m, b);
    assert b * (v + 1) == b * v + b;
  }

  lemma IncHigh(w: nat, b: nat, m: nat, x: nat)
    requires b > 1 && w / b + x < m
    ensures (w + b * x) / b == w / b + x && (w + b * x) % b == w % b && w + b * x < b * m
  {
    var v := w / b;
    assert w == b * v + w % b;
    AddMultiple(w, b, x);
    MulMono(v + x + 1, m, b);
    assert b * (v + x + 1) == b * v + b * x + b;
  }

  /** Adding one to a digit that is not the largest changes no other digit, and no digit is carried out. */
  lemma {:induction false} DigitInc(w: nat, b: nat, n: nat, j: nat, k: nat)
    requires b > 1 && j < n && k < n && w < Pow(b, n) && Digit(w, b, j) < b - 1
    ensures Digit(w + Pow(b, j), b, k) == Digit(w, b, k) + if k == j then 1 else 0
    ensures w + Pow(b, j) < Pow(b, n)
    decreases j
  {
    if j == 0 {
      IncLow(w, b, Pow(b, n - 1));
    } else {
      DivSmaller(w, b, Pow(b, n - 1));
      DigitInc(w / b, b, n - 1, j - 1, if k == 0 then 0 else k - 1);
      IncHigh(w, b, Pow(b, n - 1), Pow(b, j - 1));
    }
  }
}
