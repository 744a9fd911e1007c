/** One's-complement arithmetic on 16-bit words, as section 2 of RFC 1071 uses it.

    The two representations of zero are the delicate part: `Residue` maps the
    natural number 0 to 0 and every positive multiple of 0xFFFF to 0xFFFF,
    which is what folding carries back in actually computes. */
module OnesComplement {
  const ALL_ONES := 0xFFFF
  const ACC_MODULUS := 0x1_0000_0000

  type Byte = x: int | 0 <= x < 0x100
  type Word16 = x: int | 0 <= x < 0x1_0000

  predicate Congruent(a: int, b: int) {
    (a - b) % 0xFFFF == 0
  }

  /** The mathematical one's-complement sum of words whose plain sum is n. */
  function Residue(n: nat): Word16 {
    if n == 0 then 0 else (n - 1) % 0xFFFF + 1
  }

  function Complement(w: Word16): Word16 {
    0xFFFF - w
  }

  function Swap(w: Word16): Word16 {
    w % 0x100 * 0x100 + w / 0x100
  }

  /** 16-bit addition with end-around carry. */
  function EndAroundAdd(a: Word16, b: Word16): Word16 {
    if a + b > 0xFFFF then a + b - 0xFFFF else a + b
  }

  lemma Multiple(a: int, b: int, k: int)
    requires a - b == 0xFFFF * k
    ensures Congruent(a, b)
  {}

  lemma CongruentSymmetric(a: int, b: int)
    requires Congruent(a, b)
    ensures Congruent(b, a)
  {
    assert b - a == 0xFFFF * -((a - b) / 0xFFFF);
  }

  lemma CongruentTrans(a: int, b: int, c: int)
    requires Congruent(a, b) && Congruent(b, c)
    ensures Congruent(a, c)
  {
    assert a - c == (a - b) + (b - c);
    var j, k := (a - b) / 0xFFFF, (b - c) / 0xFFFF;
    assert a - c == 0xFFFF * (j + k);
  }

  /** Residue is the only word congruent to n that is zero exactly when n is. */
  lemma ResidueUnique(n: nat, r: Word16)
    ensures r == Residue(n) <==> Congruent(n, r) && (r == 0 <==> n == 0)
  {
    if n > 0 {
      var q := (n - 1) / 0xFFFF;
      assert n - Residue(n) == 0xFFFF * q;
      if Congruent(n, r) && r > 0 {
        var k := (n - r) / 0xFFFF;
        assert n - r == 0xFFFF * k;
        assert Residue(n) - r == 0xFFFF * (k - q);
      }
    }
  }

  lemma FoldOnce(n: nat)
    requires n > 0xFFFF
    ensures var m := n % 0x1_0000 + n / 0x1_0000; 0 < m < n && Residue(m) == Residue(n)
  {
    var m := n % 0x1_0000 + n / 0x1_0000;
    Multiple(m, n, -(n / 0x1_0000));
    ResidueUnique(n, Residue(n));
    CongruentTrans(m, n, Residue(n));
    ResidueUnique(m, Residue(n));
  }

  /** Folding stops, and what it leaves is the residue: for every accumulator value. */
  method Fold(n: nat) returns (r: Word16)
    ensures r == Residue(n)
  {
    var sum := n;
    while sum > 0xFFFF
      invariant Residue(sum) == Residue(n)
      decreases sum
    {
      FoldOnce(sum);
      sum := sum % 0x1_0000 + sum / 0x1_0000;
    }
    r := sum;
  }

  /** End-around carry computes the residue of the plain sum, one addition at a time. */
  lemma EndAroundAddIsResidue(m: nat, n: nat)
    ensures EndAroundAdd(Residue(m), Residue(n)) == Residue(m + n)
  {
    var a: int, b: int := Residue(m), Residue(n);
    ResidueUnique(m, a);
    ResidueUnique(n, b);
    var j, k := (m - a) / 0xFFFF, (n - b) / 0xFFFF;
    Multiple(m + n, EndAroundAdd(a, b), if a + b > 0xFFFF then j + k + 1 else j + k);
    ResidueUnique(m + n, EndAroundAdd(a, b));
  }

  lemma SwapByRotation(w: Word16)
    ensures Swap(w) == 0x100 * w - 0xFFFF * (w / 0x100)
    ensures Swap(w) == 0 <==> w == 0
  {
    var h: int, l: int := w / 0x100, w % 0x100;
    assert w == 0x100 * h + l;
  }

  lemma WordIsItsResidue(w: Word16)
    ensures Residue(w) == w
  {}

  /** Exchanging the bytes of a word multiplies it by 256 modulo 0xFFFF. */
  lemma SwapIsRotation(n: nat, w: Word16)
    requires w == Residue(n)
    ensures Swap(w) == Residue(0x100 * n)
  {
    ResidueUnique(n, w);
    var k := (n - w) / 0xFFFF;
    SwapByRotation(w);
    Multiple(0x100 * n, Swap(w), 0x100 * k + w / 0x100);
    ResidueUnique(0x100 * n, Swap(w));
  }

  /** Section 2 (item B) of RFC 1071: byte order does not matter to end-around addition. */
  lemma SwapCommutes(a: Word16, b: Word16)
    ensures Swap(EndAroundAdd(a, b)) == EndAroundAdd(Swap(a), Swap(b))
  {
    WordIsItsResidue(a);
    WordIsItsResidue(b);
    SwapIsRotation(a, a);
    SwapIsRotation(b, b);
    var n: nat := a as int + b as int;
    EndAroundAddIsResidue(a, b);
    SwapIsRotation(n, Residue(n));
    EndAroundAddIsResidue(0x100 * a, 0x100 * b);
  }

  lemma SwapTwice(w: Word16)
    ensures Swap(Swap(w)) == w
  {
    Digits(Swap(w), w % 0x100, w / 0x100);
  }

  /** What a receiver accepts: sums to 0xFFFF exactly when positive and divisible by 0xFFFF. */
  lemma ResidueAllOnes(n: nat)
    ensures Residue(n) == 0xFFFF <==> n > 0 && n % 0xFFFF == 0
  {
    if n > 0 {
      ResidueUnique(n, 0xFFFF);
      assert n == (n - 0xFFFF) + 0xFFFF;
      if n % 0xFFFF == 0 {
        assert n - 0xFFFF == 0xFFFF * (n / 0xFFFF - 1);
      }
      if Congruent(n, 0xFFFF) {
        assert n == 0xFFFF * ((n - 0xFFFF) / 0xFFFF + 1);
      }
    }
  }

  /** Which words complete a sum of n to all ones: the complement of its residue, and
      the other spelling of zero when that complement is zero. */
  lemma OnlyCompletion(n: nat, w: Word16)
    ensures Residue(n + w) == 0xFFFF
       <==> w == Complement(Residue(n)) || (Complement(Residue(n)) == 0 && w == 0xFFFF)
  {
    ResidueAllOnes(n + w);
    ResidueUnique(n, Residue(n));
    var c: int := Complement(Residue(n));
    var d: int := w - c;
    var k := (n - Residue(n)) / 0xFFFF;
    assert n + w == 0xFFFF * (k + 1) + d;
    assert -0xFFFF <= d <= 0xFFFF;
  }

  /** Congruent sums have the same residue unless exactly one of them is zero. */
  lemma SameResidue(a: nat, b: nat)
    requires Congruent(a, b)
    ensures Residue(a) == Residue(b) <==> (a == 0 <==> b == 0)
    ensures Congruent(Complement(Residue(a)), Complement(Residue(b)))
  {
    ResidueUnique(a, Residue(a));
    ResidueUnique(b, Residue(b));
    CongruentTrans(Residue(b), Residue(b), Residue(b));
    CongruentSymmetric(b, Residue(b));
    CongruentSymmetric(a, b);
    CongruentTrans(Residue(b), b, a);
    CongruentTrans(Residue(b), a, Residue(a));
    var x: int, y: int := Residue(a), Residue(b);
    assert Complement(Residue(a)) - Complement(Residue(b)) == y - x;
    assert -0xFFFF <= y - x <= 0xFFFF;
  }

  /** The complement of a word reads the same whichever way round its bytes are stored. */
  lemma ComplementOfSwap(w: Word16)
    ensures Complement(Swap(w)) % 0x100 == Complement(w) / 0x100
    ensures Complement(Swap(w)) / 0x100 == Complement(w) % 0x100
  {
    var h: int, l: int := w / 0x100, w % 0x100;
    Digits(Complement(w), 0xFF - h, 0xFF - l);
    Digits(Complement(Swap(w)), 0xFF - l, 0xFF - h);
  }

  lemma SwapOfComplement(w: Word16)
    ensures Complement(Swap(w)) == Swap(Complement(w))
  {
    ComplementOfSwap(w);
  }

  lemma Digits(w: int, high: int, low: int)
    requires w == 0x100 * high + low && 0 <= low < 0x100
    ensures w / 0x100 == high && w % 0x100 == low
  {}
}
