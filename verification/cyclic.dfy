/** Carousel indices that advance with `idx = (idx + 1) % n`, as the gallery
    hero and the home page slideshow do. */
module Cyclic {
  /** The slot after `idx` among `n`, wrapping after the last. */
  function Next(idx: nat, n: nat): (r: nat)
    requires idx < n
    ensures r < n
    ensures idx + 1 < n ==> r == idx + 1
    ensures idx + 1 == n ==> r == 0
  {
    (idx + 1) % n
  }

  /** The slot reached from `start` after `k` steps. */
  function After(start: nat, n: nat, k: nat): (r: nat)
    requires start < n
    ensures r < n
  {
    if k == 0 then start else Next(After(start, n, k - 1), n)
  }

  /** `k` steps move `k` slots round: each slot comes up once every `n`
      steps. */
  lemma {:induction false} AfterSteps(start: nat, n: nat, k: nat)
    requires start < n
    ensures After(start, n, k) == (start + k) % n
  {
    if k == 0 {
      ModUnique(start, n, 0, start);
    } else {
      AfterSteps(start, n, k - 1);
      ModSucc(start + k - 1, n);
    }
  }

  lemma ModSucc(a: nat, n: nat)
    requires n > 0
    ensures (a % n + 1) % n == (a + 1) % n
  {
    var q, m := a / n, a % n;
    assert a == q * n + m;
    if m + 1 < n {
      ModUnique(a + 1, n, q, m + 1);
      ModUnique(m + 1, n, 0, m + 1);
    } else {
      assert a + 1 == (q + 1) * n;
      ModUnique(a + 1, n, q + 1, 0);
      ModUnique(m + 1, n, 1, 0);
    }
  }

  lemma ModUnique(a: int, n: int, q: int, m: int)
    requires n > 0 && 0 <= m < n && a == q * n + m
    ensures a % n == m
  {
    var q', m' := a / n, a % n;
    assert a == q' * n + m';
    if q > q' {
      MulMono(q' + 1, q, n);
      assert false;
    } else if q < q' {
      MulMono(q + 1, q', n);
      assert false;
    }
  }

  lemma MulMono(x: int, y: int, n: int)
    requires x <= y && n >= 0
    ensures x * n <= y * n
  {
    assert y * n - x * n == (y - x) * n;
  }
}
