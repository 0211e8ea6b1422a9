// 32-bit machine words, and the C operators that differ from Dafny's.
module Words {
  const TWO32 := 0x1_0000_0000

  type Word = x: int | 0 <= x < TWO32

  /** The word left when an integer is stored in 32 bits. */
  function ToWord(x: int): Word {
    x % TWO32
  }

  /** A word read as a two's complement integer. */
  function Signed(w: Word): (x: int)
    ensures -0x8000_0000 <= x < 0x8000_0000
    ensures ToWord(x) == w
  {
    if w < 0x8000_0000 then w else w - TWO32
  }

  /** C division and remainder truncate toward zero. */
  function TruncDiv(a: int, b: int): int
    requires b > 0
  {
    if a >= 0 then a / b else -(-a / b)
  }

  function TruncMod(a: int, b: int): int
    requires b > 0
  {
    if a >= 0 then a % b else -(-a % b)
  }

  lemma MulAtLeast(d: nat, k: nat)
    requires k >= 1
    ensures d * k >= d
  {
    assert d * k == d + d * (k - 1);
  }

  lemma DivModUnique(x: int, d: nat, q: int, r: nat)
    requires r < d && x == d * q + r
    ensures x / d == q && x % d == r
  {
    var q', r' := x / d, x % d;
    assert x == d * q' + r';
    assert d * (q - q') == r' - r;
    if q > q' {
      MulAtLeast(d, q - q');
      assert false;
    } else if q < q' {
      assert d * (q' - q) == r - r';
      MulAtLeast(d, q' - q);
      assert false;
    }
  }

  /** Below twice the modulus, the remainder is one conditional subtraction. */
  lemma WrapIsMod(x: nat, d: nat)
    requires x < 2 * d
    ensures x % d == if x < d then x else x - d
  {
    if x < d {
      DivModUnique(x, d, 0, x);
    } else {
      DivModUnique(x, d, 1, x - d);
    }
  }

  lemma ModSucc(x: nat, d: nat)
    requires d > 0
    ensures (x + 1) % d == if x % d + 1 == d then 0 else x % d + 1
  {
    var q, r := x / d, x % d;
    if r + 1 == d {
      assert d * (q + 1) == d * q + d;
      DivModUnique(x + 1, d, q + 1, 0);
    } else {
      DivModUnique(x + 1, d, q, r + 1);
    }
  }
}
