/** The capped exponential backoff of dialRpcWithRetry, in wrapping int64 nanoseconds. */
module Backoff {
  import opened Prelude

  /** 100 ms and 10 s, the delays Start dials with. */
  const BASE := 100_000_000
  const MAX := 10_000_000_000

  const INT64 := 0x1_0000_0000_0000_0000

  function Pow2(n: nat): (p: nat)
    ensures p >= 1
  {
    if n == 0 then 1 else 2 * Pow2(n - 1)
  }

  /** Two's-complement wrap-around of int64. */
  function Wrap(x: int): (r: int)
    ensures -INT64 / 2 <= r < INT64 / 2 && (x - r) % INT64 == 0
  {
    (x + INT64 / 2) % INT64 - INT64 / 2
  }

  function Lesser(a: int, b: int): int {
    if a < b then a else b
  }

  /** time.Duration(math.Pow(2, i)). The conversion is exact up to 2^62; what it yields beyond the range of
      int64 is up to the platform. */
  function Factor(i: nat, outOfRange: nat -> int): int {
    if i <= 62 then Pow2(i) else outOfRange(i)
  }

  /** The wait before retry i + 1: the product wraps first, the cap is tested afterwards. */
  function Delay(base: int, max: int, i: nat, outOfRange: nat -> int): int {
    Lesser(Wrap(base * Factor(i, outOfRange)), max)
  }

  lemma WrapInRange(x: int)
    requires -INT64 / 2 <= x < INT64 / 2
    ensures Wrap(x) == x
  {
  }

  lemma {:induction false} Pow2Grows(i: nat, j: nat)
    requires i <= j
    ensures Pow2(i) <= Pow2(j)
  {
    if i < j {
      Pow2Grows(i, j - 1);
    }
  }

  lemma {:induction false} Pow2Add(i: nat, j: nat)
    ensures Pow2(i + j) == Pow2(i) * Pow2(j)
  {
    if j > 0 {
      Pow2Add(i, j - 1);
      assert Pow2(i) * (2 * Pow2(j - 1)) == 2 * (Pow2(i) * Pow2(j - 1));
    }
  }

  lemma Powers()
    ensures Pow2(6) == 64 && Pow2(7) == 128 && Pow2(36) == 0x10_0000_0000
  {
    assert Pow2(4) == 16;
    Pow2Add(4, 2);
    Pow2Add(4, 3);
    Pow2Add(4, 4);
    Pow2Add(8, 1);
    Pow2Add(9, 9);
    Pow2Add(18, 18);
  }

  /** For any base and cap, the delay is the capped exponential as long as the product fits an int64. */
  lemma DelayIsCappedExponential(base: int, max: int, i: nat, outOfRange: nat -> int)
    requires i <= 62 && 0 < base && base * Pow2(i) < INT64 / 2
    ensures Delay(base, max, i, outOfRange) == Lesser(base * Pow2(i), max)
  {
    assert base * Pow2(i) >= 0;
    WrapInRange(base * Pow2(i));
  }

  /** With 100 ms and 10 s: for every retry up to 36 the delay is min(BASE * 2^i, MAX), positive, and no less
      than the one before. */
  lemma DelayUpTo36(i: nat, outOfRange: nat -> int)
    requires i <= 36
    ensures Delay(BASE, MAX, i, outOfRange) == Lesser(100_000_000 * Pow2(i), 10_000_000_000)
    ensures 0 < Delay(BASE, MAX, i, outOfRange)
    ensures i > 0 ==> Delay(BASE, MAX, i - 1, outOfRange) <= Delay(BASE, MAX, i, outOfRange)
  {
    Powers();
    Pow2Grows(i, 36);
    DelayIsCappedExponential(BASE, MAX, i, outOfRange);
    if i > 0 {
      Pow2Grows(i - 1, 36);
      DelayIsCappedExponential(BASE, MAX, i - 1, outOfRange);
    }
  }

  /** The first seven waits double, later ones last MAX. */
  lemma DelaySplits(i: nat, outOfRange: nat -> int)
    requires i <= 36
    ensures Delay(BASE, MAX, i, outOfRange) == if i < 7 then BASE * Pow2(i) else MAX
  {
    DelayUpTo36(i, outOfRange);
    Powers();
    if i < 7 {
      Pow2Grows(i, 6);
    } else {
      Pow2Grows(7, i);
    }
  }

  /** Total waiting before retry n. */
  function Waited(n: nat, outOfRange: nat -> int): int {
    if n == 0 then 0 else Waited(n - 1, outOfRange) + Delay(BASE, MAX, n - 1, outOfRange)
  }

  /** A geometric prefix and a linear tail. */
  lemma {:induction false} WaitedClosedForm(n: nat, outOfRange: nat -> int)
    requires n <= 37
    ensures Waited(n, outOfRange) ==
            if n <= 7 then 100_000_000 * (Pow2(n) - 1) else 12_700_000_000 + 10_000_000_000 * (n - 7)
  {
    if n > 0 {
      WaitedClosedForm(n - 1, outOfRange);
      DelaySplits(n - 1, outOfRange);
      Powers();
    }
  }

  /** The retries after 36 at which wrapping happens to leave a positive product above the cap. */
  predicate LuckyRetry(i: nat) {
    i == 38 || i == 44 || i == 46 || 51 <= i <= 54
  }

  lemma WrapOfDouble(x: int)
    ensures Wrap(2 * x) == Wrap(2 * Wrap(x))
  {
    var q := (x + INT64 / 2) / INT64;
    assert x == Wrap(x) + INT64 * q;
    assert 2 * x + INT64 / 2 == 2 * Wrap(x) + INT64 / 2 + INT64 * (2 * q);
  }

  /** Wrap of a doubled int64: at most one turn. */
  function Fold(x: int): int {
    if x >= INT64 / 2 then x - INT64 else if x < -INT64 / 2 then x + INT64 else x
  }

  lemma FoldIsWrap(x: int)
    requires -INT64 <= x < INT64
    ensures Fold(x) == Wrap(x)
  {
  }

  /** The wrapped product of retry i, by doubling. */
  function Wrapped(i: nat): int {
    if i == 0 then BASE else Fold(2 * Wrapped(i - 1))
  }

  lemma {:induction false} WrappedIsWrap(i: nat)
    ensures Wrapped(i) == Wrap(BASE * Pow2(i))
  {
    if i > 0 {
      WrappedIsWrap(i - 1);
      WrapOfDouble(BASE * Pow2(i - 1));
      FoldIsWrap(2 * Wrapped(i - 1));
      assert 2 * (BASE * Pow2(i - 1)) == BASE * Pow2(i);
    }
  }

  lemma DelayIsWrapped(i: nat, outOfRange: nat -> int)
    requires i <= 62
    ensures Delay(BASE, MAX, i, outOfRange) == Lesser(Wrapped(i), MAX)
  {
    WrappedIsWrap(i);
  }

  predicate CapHolds(i: nat) {
    if LuckyRetry(i) then Wrapped(i) > MAX else Wrapped(i) <= 0
  }

  /** Once the product has no bits left it stays zero. */
  lemma {:induction false} WrappedVanishes(j: nat, i: nat)
    requires j <= i && Wrapped(j) == 0
    ensures Wrapped(i) == 0
  {
    if j < i {
      WrappedVanishes(j, i - 1);
    }
  }

  /** The wrapped products of retries 36 to 56. */
  const PRODUCTS: seq<int> := [
    6871947673600000000, -4702848726509551616, 9041046620690448384, -364650832328654848,
    -729301664657309696, -1458603329314619392, -2917206658629238784, -5834413317258477568,
    6777917439192596480, -4890909195324358656, 8664925683060834304, -1116892707587883008,
    -2233785415175766016, -4467570830351532032, -8935141660703064064, 576460752303423488,
    1152921504606846976, 2305843009213693952, 4611686018427387904, -9223372036854775808, 0]

  lemma {:induction false} WrappedProducts(i: nat)
    requires 36 <= i <= 56
    ensures Wrapped(i) == PRODUCTS[i - 36]
  {
    if i == 36 {
      WrappedAt36(i);
    } else {
      WrappedProducts(i - 1);
    }
  }

  lemma WrappedAt36(i: nat)
    requires i == 36
    ensures Wrapped(i) == 6871947673600000000
  {
    Powers();
    WrappedIsWrap(i);
    WrapInRange(BASE * Pow2(i));
  }

  lemma CapBeyond36(i: nat)
    requires i >= 37
    ensures CapHolds(i)
  {
    if i <= 56 {
      WrappedProducts(i);
    } else {
      var last := 56;
      WrappedProducts(last);
      WrappedVanishes(last, i);
    }
  }

  /** The exact range of the cap. Among the retries whose power of two is in range, the delay is
      min(BASE * 2^i, MAX) precisely for those up to 36 and seven later ones; at every other the product has
      wrapped to zero or below before the cap is tested, and the dial is retried without waiting. */
  lemma DelayIsCappedIff(i: nat, outOfRange: nat -> int)
    requires i <= 62
    ensures Delay(BASE, MAX, i, outOfRange) == Lesser(BASE * Pow2(i), MAX) <==> i <= 36 || LuckyRetry(i)
    ensures !(i <= 36 || LuckyRetry(i)) ==> Delay(BASE, MAX, i, outOfRange) <= 0
  {
    if i <= 36 {
      DelayUpTo36(i, outOfRange);
    } else {
      CapBeyond36(i);
      DelayIsWrapped(i, outOfRange);
      Powers();
      Pow2Grows(7, i);
    }
  }

  /** 36 is the last retry of the unbroken range: at the next one the wait is already negative. */
  lemma DelayBreaksAfter36(i: nat, outOfRange: nat -> int)
    requires i == 37
    ensures Delay(BASE, MAX, i, outOfRange) < 0
  {
    WrappedProducts(i);
    DelayIsWrapped(i, outOfRange);
  }

  class RpcAdapter {
    /** The connected client, as the number of the attempt that dialed it. */
    var rpcClient: Option<nat>

    /** dialRpcWithRetry. `dials(i)` is whether attempt i connects and `done(i)` whether the context ends while
        waiting after it; the loop is left at the first attempt where either holds. */
    method DialRpcWithRetry(base: int, max: int, dials: nat -> bool, done: nat -> bool, outOfRange: nat -> int,
                            ghost end: nat)
      returns (ok: bool, waits: seq<int>)
      requires dials(end) || done(end)
      modifies this
      ensures ok ==> rpcClient.Some? && dials(rpcClient.value) && |waits| == rpcClient.value
      ensures !ok ==> rpcClient == old(rpcClient) && waits != [] && !dials(|waits| - 1) && done(|waits| - 1)
      ensures forall j :: 0 <= j < |waits| ==> waits[j] == Delay(base, max, j, outOfRange)
      ensures forall j: nat :: j < (if ok then |waits| else |waits| - 1) ==> !dials(j) && !done(j)
    {
      waits := [];
      var i := 0;
      while true
        invariant i <= end && |waits| == i && rpcClient == old(rpcClient)
        invariant forall j: nat :: j < i ==> !dials(j) && !done(j)
        invariant forall j :: 0 <= j < i ==> waits[j] == Delay(base, max, j, outOfRange)
        decreases end - i
      {
        if dials(i) {
          rpcClient := Some(i);
          return true, waits;
        }
        var backoffDelay := Wrap(base * Factor(i, outOfRange));
        if backoffDelay > max {
          backoffDelay := max;
        }
        waits := waits + [backoffDelay];
        if done(i) {
          return false, waits;
        }
        i := i + 1;
      }
    }
  }
}
