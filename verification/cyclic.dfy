/** A modular counter over `n` positions, as the image slider and the home-page message rotator
    write it: forward is `(i + 1) % n`, backward is `(i - 1 + n) % n`, with JavaScript's `%`. */
module Cyclic {
  import JsMath

  /** One step forward. */
  function Succ(i: int, n: int): (r: int)
    requires n > 0
    ensures 0 <= i < n ==> 0 <= r < n
    ensures 0 <= i < n - 1 ==> r == i + 1
    ensures i == n - 1 ==> r == 0
  {
    JsMath.Rem(i + 1, n)
  }

  /** One step backward; adding `n` first keeps the dividend non-negative for every in-range `i`. */
  function Pred(i: int, n: int): (r: int)
    requires n > 0
    ensures 0 <= i < n ==> 0 <= r < n
    ensures 0 < i < n ==> r == i - 1
    ensures i == 0 ==> r == n - 1
  {
    JsMath.Rem(i - 1 + n, n)
  }

  /** `k` steps forward from `i`. */
  function SuccN(i: int, n: int, k: nat): int
    requires n > 0
  {
    if k == 0 then i else Succ(SuccN(i, n, k - 1), n)
  }

  /** `k` steps backward from `i`. */
  function PredN(i: int, n: int, k: nat): int
    requires n > 0
  {
    if k == 0 then i else Pred(PredN(i, n, k - 1), n)
  }

  /** Backward undoes forward. */
  lemma PredAfterSucc(i: int, n: int)
    requires n > 0 && 0 <= i < n
    ensures Pred(Succ(i, n), n) == i
  {
  }

  /** Forward undoes backward. */
  lemma SuccAfterPred(i: int, n: int)
    requires n > 0 && 0 <= i < n
    ensures Succ(Pred(i, n), n) == i
  {
  }

  /** Adding one after reducing is the same as reducing after adding one. */
  lemma ModAddOne(x: int, n: int)
    requires n > 0
    ensures (x % n + 1) % n == (x + 1) % n
  {
    var q, m := x / n, x % n;
    assert x == q * n + m;
    if m + 1 < n {
      JsMath.ModUnique(m + 1, n, 0, m + 1);
      JsMath.ModUnique(x + 1, n, q, m + 1);
    } else {
      assert (q + 1) * n == q * n + n;
      JsMath.ModUnique(m + 1, n, 1, 0);
      JsMath.ModUnique(x + 1, n, q + 1, 0);
    }
  }

  /** Subtracting one after reducing is the same as reducing after subtracting one. */
  lemma ModSubOne(x: int, n: int)
    requires n > 0
    ensures (x % n - 1 + n) % n == (x - 1) % n
  {
    var q, m := x / n, x % n;
    assert x == q * n + m;
    if m > 0 {
      JsMath.ModUnique(m - 1 + n, n, 1, m - 1);
      JsMath.ModUnique(x - 1, n, q, m - 1);
    } else {
      assert (q - 1) * n == q * n - n;
      JsMath.ModUnique(m - 1 + n, n, 0, n - 1);
      JsMath.ModUnique(x - 1, n, q - 1, n - 1);
    }
  }

  /** One forward step from the reduced form of `x` is the reduced form of `x + 1`. */
  lemma SuccOfMod(x: int, n: int)
    requires n > 0
    ensures Succ(x % n, n) == (x + 1) % n
  {
    ModAddOne(x, n);
  }

  /** One backward step from the reduced form of `x` is the reduced form of `x - 1`. */
  lemma PredOfMod(x: int, n: int)
    requires n > 0
    ensures Pred(x % n, n) == (x - 1) % n
  {
    ModSubOne(x, n);
  }

  /** `k` forward steps from an in-range index land on `(i + k) mod n`. */
  lemma {:induction false} SuccNIsAddition(i: int, n: int, k: nat)
    requires n > 0 && 0 <= i < n
    ensures SuccN(i, n, k) == (i + k) % n
  {
    if k == 0 {
      JsMath.ModUnique(i, n, 0, i);
    } else {
      var x := i + (k - 1);
      SuccNIsAddition(i, n, k - 1);
      assert SuccN(i, n, k) == Succ(x % n, n);
      SuccOfMod(x, n);
      assert x + 1 == i + k;
    }
  }

  /** `k` backward steps from an in-range index land on `(i - k) mod n`. */
  lemma {:induction false} PredNIsSubtraction(i: int, n: int, k: nat)
    requires n > 0 && 0 <= i < n
    ensures PredN(i, n, k) == (i - k) % n
  {
    if k == 0 {
      JsMath.ModUnique(i, n, 0, i);
    } else {
      var x := i - (k - 1);
      PredNIsSubtraction(i, n, k - 1);
      assert PredN(i, n, k) == Pred(x % n, n);
      PredOfMod(x, n);
      assert x - 1 == i - k;
    }
  }

  /** Every iterate of an in-range index stays in range. */
  lemma SuccNInRange(i: int, n: int, k: nat)
    requires n > 0 && 0 <= i < n
    ensures 0 <= SuccN(i, n, k) < n
  {
  }

  /** Going all the way round, `n` steps forward, is the identity. */
  lemma SuccNFullTurn(i: int, n: int)
    requires n > 0 && 0 <= i < n
    ensures SuccN(i, n, n) == i
  {
    SuccNIsAddition(i, n, n);
    JsMath.ModUnique(i + n, n, 1, i);
  }

  /** Going all the way round backward is the identity too. */
  lemma PredNFullTurn(i: int, n: int)
    requires n > 0 && 0 <= i < n
    ensures PredN(i, n, n) == i
  {
    PredNIsSubtraction(i, n, n);
    JsMath.ModUnique(i - n, n, -1, i);
  }
}
