/**
 * The concurrent prime sieve of test/samples/sieve.go, read as the
 * sequential composition of its stages.
 *
 * Every channel of the Go program has one writer and one reader, and every
 * stage preserves the order of what it forwards, so the values that travel
 * along a channel form a sequence that does not depend on scheduling. Here a
 * channel is that sequence, restricted to the values produced from a finite
 * prefix of the generator's output: the generator stage is a loop that builds
 * the prefix, a filter stage is a loop that maps its input sequence to its
 * output sequence, and the coordinator is a loop that reads the head of the
 * current tail and replaces the tail with the output of a new filter.
 */
module Sieve {
  import opened Primality

  /** The integers lo, lo + 1, ..., hi - 1, in that order. */
  function Range(lo: int, hi: int): seq<int>
    decreases hi - lo
  {
    if lo >= hi then [] else [lo] + Range(lo + 1, hi)
  }

  lemma {:induction false} RangeAt(lo: int, hi: int)
    requires lo <= hi
    ensures |Range(lo, hi)| == hi - lo
    ensures forall k :: 0 <= k < hi - lo ==> Range(lo, hi)[k] == lo + k
    decreases hi - lo
  {
    if lo < hi {
      RangeAt(lo + 1, hi);
    }
  }

  /**
   * The generator stage, cut off after n sends: it sends 2, 3, 4, ... in
   * that order, so its first n values are 2 .. n + 1.
   */
  method Generate(n: nat) returns (sent: seq<int>)
    ensures |sent| == n
    ensures forall k :: 0 <= k < n ==> sent[k] == k + 2
    ensures sent == Range(2, n + 2)
  {
    sent := [];
    var i := 2;
    while i < n + 2
      invariant 2 <= i <= n + 2
      invariant |sent| == i - 2
      invariant forall k :: 0 <= k < i - 2 ==> sent[k] == k + 2
    {
      sent := sent + [i];
      i := i + 1;
    }
    RangeAt(2, n + 2);
  }

  /**
   * What a filter stage with divisor `prime` sends when it receives `s`:
   * the values of `s` that `prime` does not divide, in the same order.
   * Go's `%` truncates towards zero and Dafny's is Euclidean, but the two
   * agree on whether the remainder is zero, which is all the stage tests.
   * A zero divisor would make Go panic, so it is excluded.
   */
  function Filter(s: seq<int>, prime: int): seq<int>
    requires prime != 0
  {
    if s == [] then [] else (if s[0] % prime != 0 then [s[0]] else []) + Filter(s[1..], prime)
  }

  lemma {:induction false} FilterAppend(a: seq<int>, b: seq<int>, prime: int)
    requires prime != 0
    ensures Filter(a + b, prime) == Filter(a, prime) + Filter(b, prime)
  {
    if a != [] {
      assert (a + b)[0] == a[0];
      assert (a + b)[1..] == a[1..] + b;
      FilterAppend(a[1..], b, prime);
      var head := if a[0] % prime != 0 then [a[0]] else [];
      assert Filter(a + b, prime) == head + Filter(a[1..] + b, prime);
      assert Filter(a, prime) == head + Filter(a[1..], prime);
    } else {
      assert a + b == b;
    }
  }

  /**
   * The filter stage: receives every value of `input` in turn and forwards
   * exactly those that `prime` does not divide.
   */
  method FilterStage(input: seq<int>, prime: int) returns (output: seq<int>)
    requires prime != 0
    ensures output == Filter(input, prime)
  {
    output := [];
    var i := 0;
    while i < |input|
      invariant 0 <= i <= |input|
      invariant output == Filter(input[..i], prime)
    {
      var v := input[i];
      assert input[..i + 1] == input[..i] + [v];
      FilterAppend(input[..i], [v], prime);
      if v % prime != 0 {
        output := output + [v];
      }
      i := i + 1;
    }
    assert input[..i] == input;
  }

  /** `sub` is `s` with some elements deleted, the rest kept in order. */
  predicate IsSubsequence(sub: seq<int>, s: seq<int>)
  {
    if sub == [] then true
    else if s == [] then false
    else (sub[0] == s[0] && IsSubsequence(sub[1..], s[1..])) || IsSubsequence(sub, s[1..])
  }

  /** A filter never reorders or alters what it forwards. */
  lemma {:induction false} FilterIsSubsequence(s: seq<int>, prime: int)
    requires prime != 0
    ensures IsSubsequence(Filter(s, prime), s)
  {
    if s != [] {
      FilterIsSubsequence(s[1..], prime);
      if s[0] % prime != 0 {
        assert Filter(s, prime) == [s[0]] + Filter(s[1..], prime);
        assert Filter(s, prime)[1..] == Filter(s[1..], prime);
      } else {
        assert Filter(s, prime) == Filter(s[1..], prime);
      }
    }
  }

  /**
   * A filter forwards every occurrence of a value `prime` does not divide
   * and no occurrence of a value it does divide.
   */
  lemma {:induction false} FilterCounts(s: seq<int>, prime: int)
    requires prime != 0
    ensures forall x :: multiset(Filter(s, prime))[x] == if x % prime != 0 then multiset(s)[x] else 0
  {
    if s != [] {
      FilterCounts(s[1..], prime);
      assert s == [s[0]] + s[1..];
      assert multiset(s) == multiset{s[0]} + multiset(s[1..]);
    }
  }

  lemma FilterMembers(s: seq<int>, prime: int)
    requires prime != 0
    ensures forall x :: x in Filter(s, prime) <==> x in s && x % prime != 0
  {
    FilterCounts(s, prime);
    forall x ensures x in Filter(s, prime) <==> x in s && x % prime != 0 {
      assert x in Filter(s, prime) <==> multiset(Filter(s, prime))[x] > 0;
      assert x in s <==> multiset(s)[x] > 0;
    }
  }

  predicate Increasing(s: seq<int>)
  {
    forall i, j :: 0 <= i < j < |s| ==> s[i] < s[j]
  }

  /** A filter fed an increasing stream sends an increasing stream. */
  lemma {:induction false} FilterIncreasing(s: seq<int>, prime: int)
    requires prime != 0 && Increasing(s)
    ensures Increasing(Filter(s, prime))
  {
    if s != [] {
      FilterIncreasing(s[1..], prime);
      FilterMembers(s[1..], prime);
      var rest := Filter(s[1..], prime);
      forall j | 0 <= j < |rest| ensures s[0] < rest[j] {
        assert rest[j] in rest;
      }
    }
  }

  /** The filter that receives its own divisor first drops it. */
  lemma DropsOwnDivisor(s: seq<int>, prime: int)
    requires prime != 0 && s != [] && s[0] == prime
    ensures Filter(s[1..], prime) == Filter(s, prime)
  {
    MultipleMod(if prime > 0 then prime else -prime, 1);
  }

  predicate NonZero(divisors: seq<int>)
  {
    forall k :: 0 <= k < |divisors| ==> divisors[k] != 0
  }

  /**
   * The pipeline generator -> filter(p1) -> ... -> filter(pk): what comes
   * out of its tail when `s` goes in at the head.
   */
  function Chain(s: seq<int>, divisors: seq<int>): seq<int>
    requires NonZero(divisors)
    decreases |divisors|
  {
    if divisors == [] then s
    else Filter(Chain(s, divisors[..|divisors| - 1]), divisors[|divisors| - 1])
  }

  /** No divisor in the list divides x. */
  predicate Survives(x: int, divisors: seq<int>)
    requires NonZero(divisors)
  {
    forall k :: 0 <= k < |divisors| ==> x % divisors[k] != 0
  }

  /** The values of `s` that no divisor in the list divides, in order. */
  function Sift(s: seq<int>, divisors: seq<int>): seq<int>
    requires NonZero(divisors)
  {
    if s == [] then [] else (if Survives(s[0], divisors) then [s[0]] else []) + Sift(s[1..], divisors)
  }

  lemma {:induction false} FilterSift(s: seq<int>, divisors: seq<int>, prime: int)
    requires NonZero(divisors) && prime != 0
    ensures NonZero(divisors + [prime])
    ensures Filter(Sift(s, divisors), prime) == Sift(s, divisors + [prime])
  {
    var more := divisors + [prime];
    if s != [] {
      FilterSift(s[1..], divisors, prime);
      var head := if Survives(s[0], divisors) then [s[0]] else [];
      FilterAppend(head, Sift(s[1..], divisors), prime);
      assert Survives(s[0], more) <==> Survives(s[0], divisors) && s[0] % prime != 0 by {
        assert forall k :: 0 <= k < |divisors| ==> more[k] == divisors[k];
        assert more[|divisors|] == prime;
      }
    }
  }

  /** A chain of filters forwards exactly the values no stage's divisor divides. */
  lemma {:induction false} ChainIsSift(s: seq<int>, divisors: seq<int>)
    requires NonZero(divisors)
    ensures Chain(s, divisors) == Sift(s, divisors)
    decreases |divisors|
  {
    if divisors == [] {
      SiftNothing(s, divisors);
    } else {
      var front := divisors[..|divisors| - 1];
      var last := divisors[|divisors| - 1];
      ChainIsSift(s, front);
      FilterSift(s, front, last);
      assert front + [last] == divisors;
    }
  }

  lemma {:induction false} SiftNothing(s: seq<int>, divisors: seq<int>)
    requires divisors == []
    ensures Sift(s, divisors) == s
  {
    if s != [] {
      SiftNothing(s[1..], divisors);
    }
  }

  /** Values in [x, q) that do not survive can be skipped. */
  lemma {:induction false} SiftSkip(x: int, q: int, hi: int, divisors: seq<int>)
    requires NonZero(divisors)
    requires x <= q <= hi
    requires forall y :: x <= y < q ==> !Survives(y, divisors)
    ensures Sift(Range(x, hi), divisors) == Sift(Range(q, hi), divisors)
    decreases q - x
  {
    if x < q {
      SiftSkip(x + 1, q, hi, divisors);
    }
  }

  /**
   * The sieve invariant: when the filters are keyed on exactly the primes
   * below lo, the first value out of the tail is the first prime at or after
   * lo.
   */
  lemma TailHeadIsNextPrime(lo: int, hi: int, divisors: seq<int>)
    requires 2 <= lo <= hi
    requires divisors == PrimesIn(2, lo)
    requires PrimesIn(lo, hi) != []
    ensures NonZero(divisors)
    ensures Sift(Range(2, hi), divisors) != []
    ensures Sift(Range(2, hi), divisors)[0] == PrimesIn(lo, hi)[0]
  {
    PrimesInMembers(2, lo);
    assert forall k :: 0 <= k < |divisors| ==> 2 <= divisors[k] < lo by {
      forall k | 0 <= k < |divisors| ensures 2 <= divisors[k] < lo {
        assert divisors[k] in divisors;
      }
    }
    FirstPrimeIn(lo, hi);
    var q := PrimesIn(lo, hi)[0];
    forall y | 2 <= y < q ensures !Survives(y, divisors) {
      var r := PrimeFactor(y);
      assert r < lo;
      assert r in divisors;
      var k :| 0 <= k < |divisors| && divisors[k] == r;
      assert y % divisors[k] == 0;
    }
    SiftSkip(2, q, hi, divisors);
    forall k | 0 <= k < |divisors| ensures q % divisors[k] != 0 {
      PrimeNotMultiple(q, divisors[k]);
    }
    assert Range(q, hi)[0] == q;
  }

  /**
   * A round of the coordinator reads the next prime: if the filters are
   * keyed on exactly the primes below lo and a prime remains in the prefix,
   * the tail is not empty and its head is the first prime q in [lo, hi).
   * PrimesInExtend and Splice give the rest of the round.
   */
  lemma NextValueRead(lo: int, hi: int, stages: seq<int>, ch: seq<int>)
    requires 2 <= lo <= hi
    requires stages == PrimesIn(2, lo) && |stages| < |PrimesIn(2, hi)|
    requires NonZero(stages) && ch == Chain(Range(2, hi), stages)
    ensures ch != [] && lo <= ch[0] < hi && PrimesIn(lo, ch[0] + 1) == [ch[0]]
  {
    PrimesInSplit(2, lo, hi);
    assert PrimesIn(lo, hi) != [];
    ChainIsSift(Range(2, hi), stages);
    TailHeadIsNextPrime(lo, hi, stages);
    FirstPrimeIn(lo, hi);
  }

  /** Appending the first prime at or after lo to the primes below lo gives the primes up to it. */
  lemma PrimesInExtend(lo: int, q: int, stages: seq<int>)
    requires 2 <= lo <= q
    requires stages == PrimesIn(2, lo) && PrimesIn(lo, q + 1) == [q]
    ensures stages + [q] == PrimesIn(2, q + 1)
  {
    PrimesInSplit(2, lo, q + 1);
  }

  /**
   * Splicing in a filter keyed on the value just read, fed with the rest of
   * the tail, extends the chain by that filter.
   */
  lemma Splice(hi: int, stages: seq<int>, ch: seq<int>)
    requires NonZero(stages) && ch == Chain(Range(2, hi), stages)
    requires ch != [] && ch[0] != 0
    ensures NonZero(stages + [ch[0]])
    ensures Filter(ch[1..], ch[0]) == Chain(Range(2, hi), stages + [ch[0]])
  {
    var prime := ch[0];
    DropsOwnDivisor(ch, prime);
    var more := stages + [prime];
    assert more[..|more| - 1] == stages;
  }

  /**
   * The coordinator (`main`), run for `rounds` rounds on the first `limit`
   * values of the generator. Each round reads the head of the current tail,
   * reports it, and replaces the tail by a new filter stage fed with the rest
   * of the old tail. `stages` lists the divisors of the filters spliced in,
   * and `tail` is what the last filter will still send.
   *
   * The requires says that the prefix is long enough to reach the
   * rounds-th prime; LongEnoughPrefix shows such a limit exists for every
   * number of rounds.
   */
  method Run(rounds: nat, limit: nat) returns (printed: seq<int>, stages: seq<int>, tail: seq<int>)
    requires rounds <= |PrimesIn(2, limit + 2)|
    ensures |printed| == rounds
    ensures printed == PrimesIn(2, limit + 2)[..rounds]
    ensures forall k :: 0 <= k < rounds ==> printed[k] >= 2 && IsPrime(printed[k])
    ensures forall i, j :: 0 <= i < j < rounds ==> printed[i] < printed[j]
    ensures forall i, j :: 0 <= i < j < rounds ==> printed[j] % printed[i] != 0
    ensures stages == printed
    ensures NonZero(stages) && tail == Chain(Range(2, limit + 2), stages)
  {
    var hi := limit + 2;
    var ch := Generate(limit);
    printed, stages := [], [];
    ghost var lo := 2;
    var i := 0;
    while i < rounds
      invariant 0 <= i <= rounds
      invariant 2 <= lo <= hi
      invariant printed == PrimesIn(2, lo) && |printed| == i
      invariant stages == printed
      invariant NonZero(stages) && ch == Chain(Range(2, hi), stages)
    {
      NextValueRead(lo, hi, stages, ch);
      PrimesInExtend(lo, ch[0], stages);
      Splice(hi, stages, ch);
      var prime := ch[0];
      printed := printed + [prime];
      var ch1 := FilterStage(ch[1..], prime);
      stages := stages + [prime];
      ch := ch1;
      lo := prime + 1;
      i := i + 1;
    }
    tail := ch;
    PrimesInSplit(2, lo, hi);
    assert PrimesIn(2, hi)[..rounds] == printed;
    PrimesInFacts(2, lo);
  }

  /**
   * The bound on the prefix excludes no number of rounds: for each one there
   * is a prefix long enough for Run.
   */
  lemma LongEnoughPrefix(rounds: nat) returns (limit: nat)
    ensures rounds <= |PrimesIn(2, limit + 2)|
  {
    var hi := EnoughPrimes(rounds);
    limit := hi - 2;
  }

  /** The sample program: ten rounds print the first ten primes. */
  method Program() returns (printed: seq<int>)
    ensures printed == [2, 3, 5, 7, 11, 13, 17, 19, 23, 29]
  {
    FirstTenPrimes();
    assert PrimesIn(2, 30)[..10] == PrimesIn(2, 30);
    var stages, tail;
    printed, stages, tail := Run(10, 28);
  }

  lemma FirstTenPrimes()
    ensures PrimesIn(2, 30) == [2, 3, 5, 7, 11, 13, 17, 19, 23, 29]
  {
    PrimesBelow10();
    PrimesFrom10To20();
    PrimesFrom20To30();
    PrimesInJoin(2, 10, 20, 30, [2, 3, 5, 7], [11, 13, 17, 19], [23, 29]);
  }

  lemma PrimesBelow10()
    ensures PrimesIn(2, 10) == [2, 3, 5, 7]
  {
    assert PrimesIn(7, 10) == [7];
    assert PrimesIn(5, 10) == [5, 7];
    assert PrimesIn(3, 10) == [3, 5, 7];
  }

  lemma PrimesFrom10To20()
    ensures PrimesIn(10, 20) == [11, 13, 17, 19]
  {
    assert NoDivisorIn(17, 9, 17);
    assert NoDivisorIn(19, 11, 19);
    assert IsPrime(17) && IsPrime(19);
    assert PrimesIn(17, 20) == [17, 19];
    assert PrimesIn(13, 20) == [13, 17, 19];
    assert PrimesIn(11, 20) == [11, 13, 17, 19];
  }

  lemma PrimesFrom20To30()
    ensures PrimesIn(20, 30) == [23, 29]
  {
    assert NoDivisorIn(23, 15, 23);
    assert NoDivisorIn(23, 7, 23);
    assert NoDivisorIn(29, 21, 29);
    assert NoDivisorIn(29, 13, 29);
    assert NoDivisorIn(29, 5, 29);
    assert IsPrime(23) && IsPrime(29);
    assert PrimesIn(29, 30) == [29];
    assert PrimesIn(25, 30) == [29];
    assert PrimesIn(23, 30) == [23, 29];
  }
}
