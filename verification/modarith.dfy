/** Facts about `%` on naturals that the cursor arithmetic of the ring buffer
    rests on. Cursors only ever grow, and the queue compares them after reducing
    both by the same modulus, so everything here is about two naturals that lie
    within one modulus of each other. */
module ModArith {

  /** Adding exactly one modulus does not change the residue. */
  lemma {:induction false} AddModulus(a: nat, n: nat)
    requires n >= 1
    ensures (a + n) % n == a % n
  {
    var q := a / n;
    var r := a % n;
    assert a == n * q + r;
    assert a + n == n * (q + 1) + r;
    assert 0 <= r < n;
    DivModUnique(a + n, n, q + 1, r);
  }

  /** Division with remainder is unique: any split `x == n*q + r` with
      `0 <= r < n` is the one `/` and `%` compute. */
  lemma {:induction false} DivModUnique(x: nat, n: nat, q: int, r: int)
    requires n >= 1
    requires x == n * q + r
    requires 0 <= r < n
    ensures x / n == q && x % n == r
  {
    var q0 := x / n;
    var r0 := x % n;
    assert x == n * q0 + r0;
    assert n * (q - q0) == r0 - r;
    if q > q0 {
      MulAtLeast(n, q - q0);
      assert false;
    } else if q < q0 {
      assert n * (q0 - q) == r - r0;
      MulAtLeast(n, q0 - q);
      assert false;
    }
  }

  /** A positive multiple of `n` is at least `n`. */
  lemma {:induction false} MulAtLeast(n: nat, k: int)
    requires n >= 1 && k >= 1
    ensures n * k >= n
  {
  }

  /** Two naturals less than one modulus apart have equal residues exactly
      when they are equal. */
  lemma {:induction false} ResidueWithinWindow(a: nat, d: nat, n: nat)
    requires n >= 1 && d < n
    ensures (a + d) % n == a % n <==> d == 0
  {
    if d > 0 && (a + d) % n == a % n {
      var q := a / n;
      var r := a % n;
      assert a == n * q + r;
      if r + d < n {
        DivModUnique(a + d, n, q, r + d);
      } else {
        assert a + d == n * (q + 1) + (r + d - n);
        DivModUnique(a + d, n, q + 1, r + d - n);
      }
      assert false;
    }
  }

  /** For `1 <= k <= n`, `a + k` and `a` share a residue exactly when `k == n`:
      the arithmetic behind the full test of `push`. */
  lemma {:induction false} ResidueAfterStep(a: nat, k: nat, n: nat)
    requires n >= 1 && 1 <= k <= n
    ensures (a + k) % n == a % n <==> k == n
  {
    if k == n {
      AddModulus(a, n);
    } else {
      ResidueWithinWindow(a, k, n);
    }
  }
}
