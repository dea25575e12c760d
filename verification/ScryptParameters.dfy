/** libsodium's choice of the scrypt parameters for given operation and memory limits. */
module ScryptParameters {
  import opened Bytes

  datatype Params = Params(n: nat, r: nat, p: nat)

  const FLOOR: nat := 32768

  function Operations(opslimit: nat): nat {
    if opslimit < FLOOR then FLOOR else opslimit
  }

  predicate Processor(opslimit: nat, memlimit: nat) {
    Operations(opslimit) < memlimit / 32
  }

  /** The bound on N from whichever of the two limits is the tighter. */
  function Cap(opslimit: nat, memlimit: nat): nat {
    if Processor(opslimit, memlimit) then Operations(opslimit) / 32 else memlimit / 1024
  }

  function Log(cap: nat, from: nat): (k: nat)
    requires 1 <= from <= 63
    decreases 63 - from
  {
    if from < 63 && Power2(from) <= cap / 2 then Log(cap, from + 1) else from
  }

  /** The bound on r p. */
  function Most(ops: nat, n: nat): nat
    requires n > 0
  {
    if ops / 4 / n < 0x3FFFFFFF then ops / 4 / n else 0x3FFFFFFF
  }

  function Pick(opslimit: nat, memlimit: nat): Params {
    var n := Power2(Log(Cap(opslimit, memlimit), 1));
    if Processor(opslimit, memlimit) then Params(n, 8, 1)
    else Params(n, 8, Most(Operations(opslimit), n) / 8)
  }

  method PickParams(opslimit: nat, memlimit: nat) returns (params: Params)
    ensures params == Pick(opslimit, memlimit)
  {
    hide Most;
    var ops := if opslimit < FLOOR then FLOOR else opslimit;
    var r := 8;
    var log := 1;
    if ops < memlimit / 32 {
      var p := 1;
      var maxN := ops / (r * 4);
      while log < 63 && Power2(log) <= maxN / 2
        invariant 1 <= log <= 63 && Log(maxN, log) == Log(maxN, 1)
      {
        log := log + 1;
      }
      return Params(Power2(log), r, p);
    }
    var maxN := memlimit / (r * 128);
    while log < 63 && Power2(log) <= maxN / 2
      invariant 1 <= log <= 63 && Log(maxN, log) == Log(maxN, 1)
    {
      log := log + 1;
    }
    var n := Power2(log);
    var maxrp := Most(ops, n);
    return Params(n, r, maxrp / r);
  }

  lemma {:induction false} LogIsLargest(cap: nat, from: nat)
    requires 1 <= from <= 63 && (from == 1 || Power2(from) <= cap)
    ensures var k := Log(cap, from);
            && from <= k <= 63 && Power2(k) >= 2
            && (Power2(k) <= cap || k == 1)
            && (k == 63 || cap < 2 * Power2(k))
    decreases 63 - from
  {
    assert Power2(from) == 2 * Power2(from - 1);
    if from < 63 && Power2(from) <= cap / 2 {
      assert Power2(from + 1) == 2 * Power2(from);
      LogIsLargest(cap, from + 1);
    }
  }

  lemma QuotientBounds(a: nat, n: nat, q: nat)
    requires n > 0 && q == a / n
    ensures n * q <= a < n * (q + 1)
  {
  }

  lemma Monotone(n: nat, a: nat, b: nat)
    requires a <= b
    ensures n * a <= n * b
  {
  }

  lemma FitsQuotient(a: nat, n: nat, k: nat)
    requires n > 0 && n * k <= a
    ensures k <= a / n
  {
    var q := a / n;
    QuotientBounds(a, n, q);
    if k > q { Monotone(n, q + 1, k); }
  }

  /** The parameters are usable for every pair of limits: N is a power of two above one, the largest that
      the tighter limit allows; r p stays below 2^30, as section 6 of RFC 7914 demands; the operations
      stay within their limit; and the memory stays within its own exactly when that allows for the
      smallest N at all. */
  lemma Bounds(opslimit: nat, memlimit: nat)
    ensures var params, cap := Pick(opslimit, memlimit), Cap(opslimit, memlimit);
            && (exists k :: 1 <= k <= 63 && params.n == Power2(k) && (k == 63 || cap < 2 * params.n))
            && (params.n <= cap || params.n == 2)
            && params.r == 8 && params.p >= 1
            && params.r * params.p < 0x4000_0000
            && 4 * (params.n * (params.r * params.p)) <= (if opslimit < 32768 then 32768 else opslimit)
            && (128 * params.n * params.r <= memlimit <==> memlimit >= 2048)
  {
    hide Log, Power2;
    var params, cap, ops := Pick(opslimit, memlimit), Cap(opslimit, memlimit), Operations(opslimit);
    var k, n := Log(cap, 1), params.n;
    LogIsLargest(cap, 1);
    if k == 1 { SmallestPower(); }
    if Processor(opslimit, memlimit) {
      assert cap >= 1024;
      assert 32 * n <= ops;
    } else {
      var most := ops / 4 / n;
      QuotientBounds(ops / 4, n, most);
      assert n * 8 <= ops / 4;
      FitsQuotient(ops / 4, n, 8);
      Monotone(n, params.r * params.p, most);
    }
  }

  /** N is as large as the tighter limit allows: twice as much would take more operations, or more memory, than there
      are. */
  lemma DoublingBreaks(opslimit: nat, memlimit: nat)
    ensures var params, ops := Pick(opslimit, memlimit), if opslimit < 32768 then 32768 else opslimit;
            params.n == 0x8000_0000_0000_0000
            || if ops < memlimit / 32 then 4 * (2 * params.n) * params.r > ops
               else 128 * (2 * params.n) * params.r > memlimit
  {
    hide Log;
    LogIsLargest(Cap(opslimit, memlimit), 1);
    if Log(Cap(opslimit, memlimit), 1) == 63 { LargestPower(); }
  }

  lemma SevenMore(k: nat)
    ensures Power2(k + 7) == 128 * Power2(k)
  {
    assert Power2(k + 1) == 2 * Power2(k);
    assert Power2(k + 2) == 2 * Power2(k + 1);
    assert Power2(k + 3) == 2 * Power2(k + 2);
    assert Power2(k + 4) == 2 * Power2(k + 3);
    assert Power2(k + 5) == 2 * Power2(k + 4);
    assert Power2(k + 6) == 2 * Power2(k + 5);
  }

  lemma NoPower()
    ensures Power2(0) == 1
  {
  }

  lemma LargestPower()
    ensures Power2(63) == 0x8000_0000_0000_0000
  {
    hide *;
    NoPower();
    SevenMore(0);
    SevenMore(7);
    SevenMore(14);
    SevenMore(21);
    SevenMore(28);
    SevenMore(35);
    SevenMore(42);
    SevenMore(49);
    SevenMore(56);
  }

  lemma SmallestPower()
    ensures Power2(1) == 2
  {
  }

  /** Where memory is the tighter limit, p is as large as the other limits allow; otherwise it is 1. */
  lemma ParallelismIsLargest(opslimit: nat, memlimit: nat)
    ensures var params, ops := Pick(opslimit, memlimit), if opslimit < 32768 then 32768 else opslimit;
            if ops < memlimit / 32 then params.p == 1
            else
              || params.r * (params.p + 1) >= 0x4000_0000
              || 4 * (params.n * (params.r * (params.p + 1))) > ops
  {
    hide Log, Power2;
    var params, ops := Pick(opslimit, memlimit), Operations(opslimit);
    if !Processor(opslimit, memlimit) {
      var most := ops / 4 / params.n;
      QuotientBounds(ops / 4, params.n, most);
      if most < 0x3FFFFFFF { Monotone(params.n, most + 1, params.r * (params.p + 1)); }
    }
  }
}
