/**
 The monitor's `formatBytes`: choosing the unit a byte count is shown in.
 The value shown is `b / div` printed with one decimal; that floating
 point division and its rounding are not modelled, only the choice of
 divisor and unit letter.
 */
module Monitor {
  const Unit: nat := 1024
  /** One more than the largest `uint64`. */
  const Word: nat := 0x1_0000_0000_0000_0000
  const UnitLetters: string := "KMGTPE"

  function Pow(base: nat, k: nat): nat
  {
    if k == 0 then 1 else base * Pow(base, k - 1)
  }

  /** The label of a byte count: plain bytes, or `b / div` in the unit
      whose letter is `letter`. */
  datatype Size = Bytes(count: nat) | Scaled(div: nat, exp: nat, letter: char)

  /** How many times a count can be divided by 1024 before it drops below
      1024: the reference definition of the unit a count belongs in. */
  function Scale(b: nat): nat
    decreases b
  {
    if b < Unit then 0 else 1 + Scale(b / Unit)
  }

  /** `Scale` picks the one power of 1024 that the count reaches and whose
      next power it does not. */
  lemma {:induction false} ScaleBrackets(b: nat)
    ensures Pow(Unit, Scale(b)) <= b || b == 0
    ensures b < Pow(Unit, Scale(b) + 1)
    decreases b
  {
    if b >= Unit {
      ScaleBrackets(b / Unit);
      var k := Scale(b / Unit);
      assert Pow(Unit, k) <= b / Unit;
      assert b / Unit < Pow(Unit, k + 1);
      assert b == Unit * (b / Unit) + b % Unit;
    }
  }

  /** The bracketing power of 1024 is unique. */
  lemma {:induction false} BracketUnique(b: nat, j: nat, k: nat)
    requires Pow(Unit, j) <= b < Pow(Unit, j + 1)
    requires Pow(Unit, k) <= b < Pow(Unit, k + 1)
    ensures j == k
  {
    if j < k {
      PowMonotone(j + 1, k);
    } else if k < j {
      PowMonotone(k + 1, j);
    }
  }

  lemma {:induction false} PowMonotone(j: nat, k: nat)
    requires j <= k
    ensures Pow(Unit, j) <= Pow(Unit, k)
    decreases k
  {
    if j < k {
      PowMonotone(j, k - 1);
    }
  }

  /** Seven factors of 1024 exceed any `uint64`. */
  lemma PowPastWord(k: nat)
    requires k >= 7
    ensures Pow(Unit, k) >= Word
  {
    PowMonotone(7, k);
    assert Pow(Unit, 7) == 0x40_0000_0000_0000_0000 by {
      assert Pow(Unit, 1) == 1024;
      assert Pow(Unit, 2) == 1024 * 1024;
      assert Pow(Unit, 4) == Pow(Unit, 2) * Pow(Unit, 2) by { PowAdd(2, 2); }
      assert Pow(Unit, 7) == Pow(Unit, 4) * Pow(Unit, 2) * Pow(Unit, 1) by { PowAdd(4, 3); PowAdd(2, 1); }
    }
  }

  lemma {:induction false} PowAdd(j: nat, k: nat)
    ensures Pow(Unit, j + k) == Pow(Unit, j) * Pow(Unit, k)
    decreases j
  {
    if j > 0 {
      PowAdd(j - 1, k);
      assert Pow(Unit, j + k) == Unit * Pow(Unit, j - 1 + k);
    }
  }

  /** `formatBytes`: counts under 1024 are shown in bytes; otherwise the
      divisor starts at 1024 and is multiplied by 1024 while the quotient is
      still at least 1024. The divisor stays within `uint64`, and the unit
      letter index stays within "KMGTPE". */
  method FormatBytes(b: nat) returns (r: Size)
    requires b < Word
    ensures b < Unit <==> r == Bytes(b)
    ensures r.Scaled? ==>
      && r.div == Pow(Unit, r.exp + 1)
      && r.div <= b < r.div * Unit
      && r.div < Word
      && r.exp < |UnitLetters|
      && r.letter == UnitLetters[r.exp]
      && r.exp + 1 == Scale(b)
  {
    if b < Unit {
      return Bytes(b);
    }
    var div: nat, exp: nat := Unit, 0;
    var n := b / Unit;
    while n >= Unit
      invariant div == Pow(Unit, exp + 1) && Unit <= div <= b
      invariant n == b / div
      decreases n
    {
      DivideAgain(b, div);
      div := div * Unit;
      exp := exp + 1;
      n := n / Unit;
    }
    BelowNext(b, div);
    ScaleBrackets(b);
    BracketUnique(b, exp + 1, Scale(b));
    if exp >= 6 {
      PowPastWord(exp + 1);
      assert false;
    }
    r := Scaled(div, exp, UnitLetters[exp]);
  }

  /** Dividing the quotient by 1024 is dividing by the next power. */
  lemma DivideAgain(b: nat, div: nat)
    requires div > 0 && b / div >= Unit
    ensures (b / div) / Unit == b / (div * Unit)
    ensures div * Unit <= b
  {
    var q := b / div;
    var m := b % div;
    assert b == div * q + m;
    var q1 := q / Unit;
    var m1 := q % Unit;
    assert q == Unit * q1 + m1;
    assert div * q == (div * Unit) * q1 + div * m1;
    assert m1 <= Unit - 1;
    MulLe(div, m1, Unit - 1);
    assert div * m1 + m < div * Unit;
    DivUnique(b, div * Unit, q1, div * m1 + m);
    MulLe(div, Unit, q);
  }

  /** A quotient below 1024 means the count is below 1024 times the divisor. */
  lemma BelowNext(b: nat, div: nat)
    requires div > 0 && b / div < Unit
    ensures b < div * Unit
  {
    var q := b / div;
    assert b == div * q + b % div;
    MulLe(div, q + 1, Unit);
  }

  lemma MulLe(d: nat, x: nat, y: nat)
    requires x <= y
    ensures d * x <= d * y
  {
  }

  /** Quotient and remainder are determined by the division equation. */
  lemma DivUnique(b: nat, d: nat, q: nat, m: nat)
    requires d > 0 && b == d * q + m && m < d
    ensures b / d == q
  {
    var q' := b / d;
    assert b == d * q' + b % d;
    if q' < q {
      MulLe(d, q' + 1, q);
    } else if q' > q {
      MulLe(d, q + 1, q');
    }
  }
}
