/** Two small loops of arithmetic in src/growlight.c: alignment and timeval_subtract. */
module Measures {
  import opened Arithmetic

  function Pow2(k: nat): (p: nat)
    ensures p > 0
  {
    if k == 0 then 1 else 2 * Pow2(k - 1)
  }

  lemma {:induction false} Pow2Grows(j: nat, k: nat)
    requires j <= k
    ensures Pow2(j) <= Pow2(k)
  {
    if j < k {
      Pow2Grows(j, k - 1);
    }
  }

  lemma Pow2Values()
    ensures Pow2(63) == 0x8000_0000_0000_0000 && Pow2(64) == TWO64
  {
    assert Pow2(3) == 8;
    assert Pow2(5) == 32;
    assert Pow2(8) == 256;
    hide Pow2;
    Pow2Sum(8, 7);
    Pow2Sum(8, 8);
    Pow2Sum(16, 15);
    Pow2Sum(16, 16);
    Pow2Sum(32, 31);
    Pow2Sum(32, 32);
  }

  lemma {:induction false} Pow2Sum(j: nat, k: nat)
    ensures Pow2(j + k) == Pow2(j) * Pow2(k)
  {
    if j > 0 {
      Pow2Sum(j - 1, k);
    }
  }

  /** A number divisible by a power of two is divisible by every lower one. */
  lemma {:induction false} DividesDown(val: nat, j: nat, k: nat)
    requires j <= k && val % Pow2(k) == 0
    ensures val % Pow2(j) == 0
  {
    if j < k {
      var p := Pow2(k - 1);
      var q := val / Pow2(k);
      assert val == (2 * q) * p by {
        assert val == q * Pow2(k);
      }
      MultipleMod(2 * q, p);
      DividesDown(val, j, k - 1);
    }
  }

  /** a is the largest of 1, 2, 4, ..., 2^63 that divides val. */
  ghost predicate IsAlignment(val: nat, a: nat) {
    && (exists k: nat :: k < 64 && a == Pow2(k))
    && val % a == 0
    && forall j: nat :: j < 64 && val % Pow2(j) == 0 ==> Pow2(j) <= a
  }

  /** The do-while loop, on a 64-bit a whose doubling wraps to zero after 2^63. */
  method Alignment(val: nat) returns (a: nat)
    requires val <= MAX64
    ensures a != 0 && IsAlignment(val, a)
  {
    Pow2Values();
    a := 1;
    ghost var k := 0;
    var more := true;
    while more
      invariant 0 <= k < 64 && a == Pow2(k)
      invariant more ==> val % a == 0
      invariant !more ==> k > 0 && val % a != 0 && val % Pow2(k - 1) == 0
      decreases 64 - k, more
    {
      a := (a * 2) % TWO64;
      if k < 63 {
        Pow2Grows(k + 1, 63);
        ModSmall(Pow2(k + 1), TWO64);
      }
      if a == 0 {
        a := 0x8000_0000_0000_0000;
        forall j: nat | j < 64
          ensures Pow2(j) <= a
        {
          Pow2Grows(j, 63);
        }
        return;
      }
      k := k + 1;
      more := val % a == 0;
    }
    forall j: nat | j < 64 && val % Pow2(j) == 0
      ensures Pow2(j) <= Pow2(k - 1)
    {
      if j >= k {
        DividesDown(val, k, j);
      } else {
        Pow2Grows(j, k - 1);
      }
    }
    a := a / 2;
  }

  datatype Timeval = Timeval(sec: int, usec: int)

  const MICRO: int := 1000000

  function Micros(t: Timeval): int {
    t.sec * MICRO + t.usec
  }

  /**
   timeval_subtract, machine overflow aside: the difference is exact for all inputs, although the
   borrow divides by 100000 and takes too much; microseconds are normalised exactly when the two
   microsecond fields do not differ by one full second.
   */
  method TimevalSubtract(minuend: Timeval, subtrahend: Timeval) returns (elapsed: Timeval)
    ensures Micros(elapsed) == Micros(minuend) - Micros(subtrahend)
    ensures 0 <= elapsed.usec <= MICRO
    ensures elapsed.usec < MICRO <==> minuend.usec - subtrahend.usec != MICRO
  {
    var sec, usec := minuend.sec, minuend.usec;
    if usec < subtrahend.usec {
      var nsec := (subtrahend.usec - usec) / 100000 + 1;
      usec := usec + MICRO * nsec;
      sec := sec - nsec;
    }
    if usec - subtrahend.usec > MICRO {
      var nsec := (usec - subtrahend.usec) / MICRO;
      usec := usec - MICRO * nsec;
      sec := sec + nsec;
    }
    elapsed := Timeval(sec - subtrahend.sec, usec - subtrahend.usec);
  }
}
