/**
 * Elementary number theory used to state what the prime sieve computes:
 * primality by trial division, the ordered list of primes in a range,
 * and the existence of a prime factor.
 */
module Primality {

  /** No d with lo <= d < hi divides n (trial division, one candidate at a time). */
  predicate NoDivisorIn(n: int, lo: int, hi: int)
    requires 2 <= lo
    decreases hi - lo
  {
    lo >= hi || (n % lo != 0 && NoDivisorIn(n, lo + 1, hi))
  }

  /** n is prime: at least 2 and divisible by no d with 2 <= d < n. */
  predicate IsPrime(n: int) {
    n >= 2 && NoDivisorIn(n, 2, n)
  }

  lemma {:induction false} NoDivisorInMeans(n: int, lo: int, hi: int)
    requires 2 <= lo
    ensures NoDivisorIn(n, lo, hi) <==> forall d :: lo <= d < hi ==> n % d != 0
    decreases hi - lo
  {
    if lo < hi {
      NoDivisorInMeans(n, lo + 1, hi);
    }
  }

  /** The trial-division definition of IsPrime agrees with the textbook one. */
  lemma PrimeMeans(n: int)
    ensures IsPrime(n) <==> n >= 2 && forall d :: 2 <= d < n ==> n % d != 0
  {
    NoDivisorInMeans(n, 2, n);
  }

  /** A prime is not a multiple of any smaller number that is at least 2. */
  lemma PrimeNotMultiple(q: int, p: int)
    requires IsPrime(q) && 2 <= p < q
    ensures q % p != 0
  {
    PrimeMeans(q);
  }

  /** The primes in [lo, hi), in increasing order. */
  function PrimesIn(lo: int, hi: int): seq<int>
    decreases hi - lo
  {
    if lo >= hi then [] else (if IsPrime(lo) then [lo] else []) + PrimesIn(lo + 1, hi)
  }

  lemma {:induction false} PrimesInMembers(lo: int, hi: int)
    ensures forall x :: x in PrimesIn(lo, hi) <==> lo <= x < hi && IsPrime(x)
    decreases hi - lo
  {
    if lo < hi {
      PrimesInMembers(lo + 1, hi);
    }
  }

  /** PrimesIn lists its elements in strictly increasing order. */
  lemma {:induction false} PrimesInIncreasing(lo: int, hi: int)
    ensures forall i, j :: 0 <= i < j < |PrimesIn(lo, hi)| ==> PrimesIn(lo, hi)[i] < PrimesIn(lo, hi)[j]
    decreases hi - lo
  {
    if lo < hi {
      PrimesInIncreasing(lo + 1, hi);
      PrimesInMembers(lo + 1, hi);
      var rest := PrimesIn(lo + 1, hi);
      assert forall j :: 0 <= j < |rest| ==> lo < rest[j] by {
        forall j | 0 <= j < |rest| ensures lo < rest[j] {
          assert rest[j] in rest;
        }
      }
    }
  }

  /**
   * What trial division against the earlier entries would confirm: every
   * entry of PrimesIn is prime, later entries are larger, and no entry is a
   * multiple of an earlier one.
   */
  lemma PrimesInFacts(lo: int, hi: int)
    ensures forall k :: 0 <= k < |PrimesIn(lo, hi)| ==> PrimesIn(lo, hi)[k] >= 2 && IsPrime(PrimesIn(lo, hi)[k])
    ensures forall i, j :: 0 <= i < j < |PrimesIn(lo, hi)| ==> PrimesIn(lo, hi)[i] < PrimesIn(lo, hi)[j]
    ensures forall i, j :: 0 <= i < j < |PrimesIn(lo, hi)| ==> PrimesIn(lo, hi)[j] % PrimesIn(lo, hi)[i] != 0
  {
    var ps := PrimesIn(lo, hi);
    PrimesInMembers(lo, hi);
    PrimesInIncreasing(lo, hi);
    forall k | 0 <= k < |ps| ensures ps[k] >= 2 && IsPrime(ps[k]) {
      assert ps[k] in ps;
    }
    forall i, j | 0 <= i < j < |ps| ensures ps[j] % ps[i] != 0 {
      PrimeNotMultiple(ps[j], ps[i]);
    }
  }

  /** Splitting a range splits its list of primes. */
  lemma {:induction false} PrimesInSplit(a: int, b: int, c: int)
    requires a <= b <= c
    ensures PrimesIn(a, c) == PrimesIn(a, b) + PrimesIn(b, c)
    decreases b - a
  {
    if a < b {
      PrimesInSplit(a + 1, b, c);
    }
  }

  /** Joining three adjacent ranges joins their lists of primes. */
  lemma PrimesInJoin(a: int, b: int, c: int, d: int, x: seq<int>, y: seq<int>, z: seq<int>)
    requires a <= b <= c <= d
    requires PrimesIn(a, b) == x && PrimesIn(b, c) == y && PrimesIn(c, d) == z
    ensures PrimesIn(a, d) == x + y + z
  {
    PrimesInSplit(b, c, d);
    PrimesInSplit(a, b, d);
  }

  /**
   * The first prime at or after lo: nothing in [lo, q) is prime, and the
   * primes of [lo, q + 1) are exactly [q].
   */
  lemma {:induction false} FirstPrimeIn(lo: int, hi: int)
    requires PrimesIn(lo, hi) != []
    ensures var q := PrimesIn(lo, hi)[0];
      lo <= q < hi && IsPrime(q) && PrimesIn(lo, q + 1) == [q] &&
      forall x :: lo <= x < q ==> !IsPrime(x)
    decreases hi - lo
  {
    if !IsPrime(lo) {
      FirstPrimeIn(lo + 1, hi);
    }
  }

  /** Dafny's Euclidean remainder: a multiple of d leaves remainder 0. */
  lemma MultipleMod(d: int, k: int)
    requires d > 0
    ensures (d * k) % d == 0
  {
    var r := (d * k) % d;
    var m := (d * k) / d;
    assert 0 <= r < d;
    assert d * k == d * m + r;
    var t := k - m;
    assert d * t == r;
    if t >= 1 {
      ProductAtLeast(d, t);
    } else if t <= -1 {
      ProductAtLeast(d, -t);
    }
  }

  lemma ProductAtLeast(d: int, t: int)
    requires d > 0 && t >= 1
    ensures d * t >= d
  {
  }

  /** Divisibility is transitive. */
  lemma DividesTransitive(q: int, d: int, n: int)
    requires q > 0 && d > 0
    requires d % q == 0 && n % d == 0
    ensures n % q == 0
  {
    var a := n / d;
    var b := d / q;
    assert n == d * a;
    assert d == q * b;
    assert n == q * (b * a);
    MultipleMod(q, b * a);
  }

  /** Every n >= 2 has a prime factor no larger than itself. */
  lemma {:induction false} PrimeFactor(n: int) returns (q: int)
    requires n >= 2
    ensures IsPrime(q) && 2 <= q <= n && n % q == 0
    decreases n
  {
    PrimeMeans(n);
    if IsPrime(n) {
      assert n == n * 1;
      MultipleMod(n, 1);
      q := n;
    } else {
      var d :| 2 <= d < n && n % d == 0;
      q := PrimeFactor(d);
      DividesTransitive(q, d, n);
    }
  }

  /** lo * (lo + 1) * ... * (hi - 1). */
  function ProductOf(lo: int, hi: int): int
    decreases hi - lo
  {
    if lo >= hi then 1 else lo * ProductOf(lo + 1, hi)
  }

  lemma {:induction false} ProductPositive(lo: int, hi: int)
    requires lo >= 1
    ensures ProductOf(lo, hi) >= 1
    decreases hi - lo
  {
    if lo < hi {
      ProductPositive(lo + 1, hi);
      ProductAtLeast(ProductOf(lo + 1, hi), lo);
    }
  }

  lemma {:induction false} ProductDivisible(lo: int, hi: int, d: int)
    requires 1 <= lo <= d < hi
    ensures ProductOf(lo, hi) % d == 0
    decreases hi - lo
  {
    var rest := ProductOf(lo + 1, hi);
    if d == lo {
      MultipleMod(lo, rest);
    } else {
      ProductDivisible(lo + 1, hi, d);
      ProductPositive(lo + 1, hi);
      MultipleMod(rest, lo);
      assert (rest * lo) % rest == 0;
      assert ProductOf(lo, hi) == rest * lo;
      DividesTransitive(d, rest, rest * lo);
    }
  }

  lemma SuccessorOfMultiple(n: int, d: int)
    requires d >= 2 && n % d == 0
    ensures (n + 1) % d == 1
  {
    var a := n / d;
    var r := (n + 1) % d;
    var m := (n + 1) / d;
    assert n == d * a;
    assert 0 <= r < d;
    assert n + 1 == d * m + r;
    var t := a - m;
    assert d * t == r - 1;
    if t >= 1 {
      ProductAtLeast(d, t);
    } else if t <= -1 {
      ProductAtLeast(d, -t);
    }
  }

  /** Euclid: above any bound there is a prime. */
  lemma PrimeAtLeast(m: int) returns (q: int)
    ensures IsPrime(q) && q >= m
  {
    var lo := if m >= 2 then m else 2;
    ProductPositive(2, lo);
    var n := ProductOf(2, lo) + 1;
    q := PrimeFactor(n);
    if q < lo {
      ProductDivisible(2, lo, q);
      SuccessorOfMultiple(ProductOf(2, lo), q);
      assert false;
    }
  }

  /** For every k, some range [2, hi) holds at least k primes. */
  lemma {:induction false} EnoughPrimes(k: nat) returns (hi: int)
    ensures hi >= 2 && |PrimesIn(2, hi)| >= k
  {
    if k == 0 {
      hi := 2;
    } else {
      var h := EnoughPrimes(k - 1);
      var q := PrimeAtLeast(h);
      hi := q + 1;
      PrimesInSplit(2, h, hi);
      PrimesInMembers(h, hi);
      assert q in PrimesIn(h, hi);
    }
  }
}
