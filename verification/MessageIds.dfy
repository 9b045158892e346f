/** The message id counter of a communicator, used by one caller at a time. */
module MessageIds {
  import opened Arithmetic

  /** `++counter` on an unsigned integer type of `modulus` values. */
  function Increment(counter: nat, modulus: nat): (next: nat)
    requires counter < modulus
  {
    if counter + 1 == modulus then 0 else counter + 1
  }

  /** new_mid: step once, and once more to skip zero. */
  function NewMid(mesid: nat, modulus: nat): (next: nat)
    requires 1 < modulus && mesid < modulus
    ensures 0 < next < modulus
  {
    var once := Increment(mesid, modulus);
    if once == 0 then Increment(once, modulus) else once
  }

  /** The counter after `calls` calls of new_mid. */
  function After(mesid: nat, calls: nat, modulus: nat): (m: nat)
    requires 1 < modulus && mesid < modulus
    ensures m < modulus && (calls > 0 ==> m > 0)
  {
    if calls == 0 then mesid else NewMid(After(mesid, calls - 1, modulus), modulus)
  }

  /** Ids run through 1 .. modulus - 1 and start over. */
  lemma {:induction false} ClosedForm(mesid: nat, calls: nat, modulus: nat)
    requires 1 < modulus && 1 <= mesid < modulus
    ensures After(mesid, calls, modulus) == (mesid - 1 + calls) % (modulus - 1) + 1
  {
    if calls == 0 {
      DivModUnique(mesid - 1, modulus - 1, 0, mesid - 1);
    } else {
      ClosedForm(mesid, calls - 1, modulus);
      ModStep(mesid - 1 + calls - 1, modulus - 1);
    }
  }

  lemma ModStep(a: nat, n: nat)
    requires n > 0
    ensures (a + 1) % n == if a % n + 1 == n then 0 else a % n + 1
  {
    var q, r := a / n, a % n;
    if r + 1 == n {
      assert a + 1 == n * (q + 1);
      DivModUnique(a + 1, n, q + 1, 0);
    } else {
      assert a + 1 == n * q + (r + 1);
      DivModUnique(a + 1, n, q, r + 1);
    }
  }

  /** Two of the ids handed out from one counter are equal exactly when the number of calls
      between them is a multiple of modulus - 1; so modulus - 1 calls in a row never repeat. */
  lemma IdsRepeatIff(mesid: nat, i: nat, j: nat, modulus: nat)
    requires 1 < modulus && mesid < modulus && 1 <= i < j
    ensures After(mesid, i, modulus) == After(mesid, j, modulus) <==> (j - i) % (modulus - 1) == 0
  {
    var first, n := After(mesid, 1, modulus), modulus - 1;
    var a := first + i - 2;
    AfterFirst(mesid, i, modulus);
    AfterFirst(mesid, j, modulus);
    SumOfRemainders(n, a, j - i);
    assert a + (j - i) == first + j - 2;
  }

  lemma AfterFirst(mesid: nat, calls: nat, modulus: nat)
    requires 1 < modulus && mesid < modulus && 1 <= calls
    ensures After(mesid, calls, modulus) == (After(mesid, 1, modulus) + calls - 2) % (modulus - 1) + 1
  {
    Compose(mesid, 1, calls - 1, modulus);
    ClosedForm(After(mesid, 1, modulus), calls - 1, modulus);
  }

  lemma {:induction false} Compose(mesid: nat, a: nat, b: nat, modulus: nat)
    requires 1 < modulus && mesid < modulus
    ensures After(mesid, a + b, modulus) == After(After(mesid, a, modulus), b, modulus)
  {
    if b > 0 {
      Compose(mesid, a, b - 1, modulus);
    }
  }

  lemma SumOfRemainders(n: nat, a: nat, d: nat)
    requires n > 0
    ensures (a + d) % n == if a % n + d % n < n then a % n + d % n else a % n + d % n - n
  {
    var qa, ra, qd, rd := a / n, a % n, d / n, d % n;
    Distribute(n, qa, qd);
    if ra + rd < n {
      DivModUnique(a + d, n, qa + qd, ra + rd);
    } else {
      Distribute(n, qa + qd, 1);
      DivModUnique(a + d, n, qa + qd + 1, ra + rd - n);
    }
  }

  /** Any modulus - 1 ids in a row are pairwise different. */
  lemma ConsecutiveIdsDiffer(mesid: nat, i: nat, j: nat, modulus: nat)
    requires 1 < modulus && mesid < modulus && 1 <= i < j < i + (modulus - 1)
    ensures After(mesid, i, modulus) != After(mesid, j, modulus)
  {
    IdsRepeatIff(mesid, i, j, modulus);
    DivModUnique(j - i, modulus - 1, 0, j - i);
  }

  /** As long as the counter has not come round, the id is the number of calls. */
  lemma {:induction false} IdIsCallCount(calls: nat, modulus: nat)
    requires 1 < modulus && calls < modulus
    ensures After(0, calls, modulus) == calls
  {
    if calls > 0 {
      IdIsCallCount(calls - 1, modulus);
    }
  }
}
