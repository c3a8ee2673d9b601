/** Unsigned 64-bit words as natural numbers, with the C operators `&`, `|`, `<<` and `>>`
    defined bit by bit. The lemmas turn masks into division and remainder. */
module Bits {

  const WORD_SIZE: nat := 0x1_0000_0000_0000_0000

  type u64 = x: nat | x < WORD_SIZE

  function And(a: nat, b: nat): (r: nat)
    ensures r <= a && r <= b
  {
    if a == 0 || b == 0 then 0
    else 2 * And(a / 2, b / 2) + Both(a % 2, b % 2)
  }

  function Or(a: nat, b: nat): (r: nat)
    ensures a <= r && b <= r
  {
    if a == 0 then b
    else if b == 0 then a
    else 2 * Or(a / 2, b / 2) + Either(a % 2, b % 2)
  }

  function Both(x: nat, y: nat): (r: nat)
    ensures r <= x && r <= y
  {
    if x > 0 && y > 0 then 1 else 0
  }

  function Either(x: nat, y: nat): nat {
    if x > 0 || y > 0 then 1 else 0
  }

  function Shl(a: nat, k: nat): nat {
    if k == 0 then a else 2 * Shl(a, k - 1)
  }

  function Shr(a: nat, k: nat): nat
    decreases k
  {
    if k == 0 then a else Shr(a / 2, k - 1)
  }

  /** The n low bits of v. */
  function Low(v: nat, n: nat): nat
    decreases n
  {
    if n == 0 then 0 else 2 * Low(v / 2, n - 1) + v % 2
  }

  /** n one bits. */
  function Ones(n: nat): nat {
    if n == 0 then 0 else 2 * Ones(n - 1) + 1
  }

  // ---------- unfolding & and | one bit at a time ----------

  lemma AndStep(a: nat, b: nat)
    ensures And(a, b) / 2 == And(a / 2, b / 2) && And(a, b) % 2 == Both(a % 2, b % 2)
  {
  }

  lemma OrStep(a: nat, b: nat)
    ensures Or(a, b) / 2 == Or(a / 2, b / 2) && Or(a, b) % 2 == Either(a % 2, b % 2)
  {
  }

  lemma SameBits(x: nat, y: nat)
    requires x / 2 == y / 2 && x % 2 == y % 2
    ensures x == y
  {
  }

  lemma {:induction false} AndOr(a: nat, b: nat, m: nat)
    ensures And(Or(a, b), m) == Or(And(a, m), And(b, m))
  {
    if a == 0 || b == 0 || m == 0 {
    } else {
      AndOr(a / 2, b / 2, m / 2);
      OrStep(a, b);
      AndStep(a, m);
      AndStep(b, m);
      AndStep(Or(a, b), m);
      OrStep(And(a, m), And(b, m));
      SameBits(And(Or(a, b), m), Or(And(a, m), And(b, m)));
    }
  }

  lemma {:induction false} AndAnd(a: nat, m: nat, n: nat)
    ensures And(And(a, m), n) == And(a, And(m, n))
  {
    if a == 0 || m == 0 || n == 0 {
    } else {
      AndAnd(a / 2, m / 2, n / 2);
      AndStep(a, m);
      AndStep(m, n);
      AndStep(And(a, m), n);
      AndStep(a, And(m, n));
      SameBits(And(And(a, m), n), And(a, And(m, n)));
    }
  }

  lemma {:induction false} OrBound(a: nat, b: nat, k: nat)
    requires a <= Ones(k) && b <= Ones(k)
    ensures Or(a, b) <= Ones(k)
  {
    if k == 0 || a == 0 || b == 0 {
    } else {
      OrBound(a / 2, b / 2, k - 1);
    }
  }

  // ---------- masks select fields ----------

  /** A mask of n one bits starting at bit k selects that field of v. */
  lemma {:induction false} AndField(v: nat, n: nat, k: nat)
    ensures And(v, Shl(Ones(n), k)) == Shl(Low(Shr(v, k), n), k)
    decreases k, n
  {
    if k > 0 {
      AndField(v / 2, n, k - 1);
      AndStep(v, Shl(Ones(n), k));
      assert Shl(Ones(n), k) / 2 == Shl(Ones(n), k - 1) && Shl(Ones(n), k) % 2 == 0;
      SameBits(And(v, Shl(Ones(n), k)), Shl(Low(Shr(v, k), n), k));
    } else if n > 0 {
      AndField(v / 2, n - 1, 0);
      AndStep(v, Ones(n));
      assert Ones(n) / 2 == Ones(n - 1) && Ones(n) % 2 == 1;
    }
  }

  lemma {:induction false} ShrShl(a: nat, k: nat)
    ensures Shr(Shl(a, k), k) == a
  {
    if k > 0 {
      ShrShl(a, k - 1);
    }
  }

  lemma {:induction false} ShrAdd(a: nat, j: nat, k: nat)
    ensures Shr(a, j + k) == Shr(Shr(a, j), k)
    decreases j
  {
    if j > 0 {
      ShrAdd(a / 2, j - 1, k);
    }
  }

  lemma {:induction false} ShlAdd(a: nat, j: nat, k: nat)
    ensures Shl(a, j + k) == Shl(Shl(a, j), k)
    decreases k
  {
    if k > 0 {
      ShlAdd(a, j, k - 1);
    }
  }

  lemma Shift3(a: nat)
    ensures Shr(a, 3) == a / 8 && Shl(a, 3) == a * 8
  {
    assert Shr(a, 3) == Shr(a / 2, 2) == Shr(a / 2 / 2, 1) == Shr(a / 2 / 2 / 2, 0);
    assert Shl(a, 3) == 2 * Shl(a, 2) == 4 * Shl(a, 1) == 8 * Shl(a, 0);
  }

  lemma Shift9(a: nat)
    ensures Shr(a, 9) == a / 512 && Shl(a, 9) == a * 512
  {
    ShrAdd(a, 3, 6); ShrAdd(a / 8, 3, 3);
    ShlAdd(a, 3, 6); ShlAdd(a * 8, 3, 3);
    Shift3(a); Shift3(a / 8); Shift3(a / 64);
    Shift3(a * 8); Shift3(a * 64);
  }

  lemma Shift12(a: nat)
    ensures Shr(a, 12) == a / 4096 && Shl(a, 12) == a * 4096
  {
    ShrAdd(a, 9, 3); ShlAdd(a, 9, 3);
    Shift9(a); Shift3(a / 512); Shift3(a * 512);
  }

  lemma {:induction false} LowAdd(v: nat, j: nat, k: nat)
    ensures Low(v, j + k) == Low(v, j) + Shl(Low(Shr(v, j), k), j)
    decreases j
  {
    if j > 0 {
      LowAdd(v / 2, j - 1, k);
    }
  }

  lemma Remainder4(v: nat)
    ensures v % 2 + 2 * (v / 2 % 2) == v % 4
  {
    var a := v / 2;
    var b := a / 2;
    assert v == 4 * b + (2 * (a % 2) + v % 2);
  }

  lemma Remainder8(v: nat)
    ensures v % 2 + 2 * (v / 2 % 4) == v % 8
  {
    var a := v / 2;
    var b := a / 4;
    assert v == 8 * b + (2 * (a % 4) + v % 2);
  }

  lemma Low3(v: nat)
    ensures Low(v, 3) == v % 8
  {
    var a := v / 2;
    var b := a / 2;
    assert Low(b, 1) == 2 * Low(b / 2, 0) + b % 2;
    assert Low(a, 2) == 2 * Low(b, 1) + a % 2;
    assert Low(v, 3) == 2 * Low(a, 2) + v % 2;
    Remainder4(a);
    Remainder8(v);
  }

  lemma Remainder64(v: nat)
    ensures v % 8 + v / 8 % 8 * 8 == v % 64
  {
    var a := v / 8;
    var b := a / 8;
    assert v == 64 * b + (8 * (a % 8) + v % 8);
  }

  lemma Remainder512(v: nat)
    ensures v % 8 + v / 8 % 64 * 8 == v % 512
  {
    var a := v / 8;
    var b := a / 64;
    assert v == 512 * b + (8 * (a % 64) + v % 8);
  }

  lemma Low6(v: nat)
    ensures Low(v, 6) == v % 64
  {
    LowAdd(v, 3, 3);
    Shift3(v); Low3(v); Low3(v / 8);
    Shift3(v / 8 % 8);
    Remainder64(v);
  }

  lemma Low9(v: nat)
    ensures Low(v, 9) == v % 512
  {
    LowAdd(v, 3, 6);
    Shift3(v); Low3(v); Low6(v / 8);
    Shift3(v / 8 % 64);
    Remainder512(v);
  }

  lemma {:induction false} LowBound(v: nat, n: nat)
    ensures Low(v, n) <= Ones(n)
    ensures v <= Ones(n) ==> Low(v, n) == v
  {
    if n > 0 {
      LowBound(v / 2, n - 1);
    }
  }

  lemma {:induction false} OnesAdd(j: nat, k: nat)
    ensures Ones(j + k) == Ones(j) + Shl(Ones(k), j)
    decreases j
  {
    if j > 0 {
      OnesAdd(j - 1, k);
    }
  }

  lemma OnesValues()
    ensures Ones(1) == 1 && Ones(3) == 7 && Ones(9) == 0x1ff && Ones(12) == 0xfff
    ensures Ones(40) == 0xff_ffff_ffff && Ones(52) == 0xf_ffff_ffff_ffff && Ones(64) == WORD_SIZE - 1
  {
    assert Ones(1) == 1;
    assert Ones(2) == 3;
    assert Ones(3) == 7;
    assert Ones(4) == 15;
    OnesAdd(3, 6); OnesAdd(3, 3); Shift3(7); Shift3(63);
    OnesAdd(9, 3); Shift9(7);
    OnesAdd(12, 12); Shift12(0xfff);
    OnesAdd(12, 24); Shift12(0xff_ffff);
    OnesAdd(12, 36); Shift12(0xf_ffff_ffff);
    OnesAdd(12, 4); Shift12(15);
    OnesAdd(12, 16); Shift12(0xffff);
    OnesAdd(12, 28); Shift12(0xfff_ffff);
    OnesAdd(12, 40); Shift12(0xff_ffff_ffff);
    OnesAdd(12, 52); Shift12(0xf_ffff_ffff_ffff);
  }
}
