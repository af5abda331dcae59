/** The sieve compiled to 32-bit WebAssembly, and the JavaScript function the page checks it against. */
module Sieve {
  import opened Options

  newtype u32 = x: int | 0 <= x < 0x1_0000_0000

  /** The largest allocation a 32-bit Rust target makes: `isize::MAX` bytes. */
  const MAX_ALLOCATION: int := 0x7FFF_FFFF

  // ---- What is counted ----

  predicate Divides(d: nat, n: nat)
    requires d > 0
  {
    n % d == 0
  }

  predicate Prime(n: nat) {
    n >= 2 && forall d :: 2 <= d < n ==> !Divides(d, n)
  }

  /** How many primes are at most `limit`. */
  function PrimeCount(limit: nat): nat {
    if limit == 0 then 0 else PrimeCount(limit - 1) + if Prime(limit) then 1 else 0
  }

  /** `k` is a multiple of some prime below `n`, at or past that prime's square. */
  ghost predicate Struck(k: nat, n: nat) {
    exists p: nat :: StruckBy(k, p) && p < n
  }

  ghost predicate StruckBy(k: nat, p: nat) {
    Prime(p) && p * p <= k && Divides(p, k)
  }

  lemma Monotone(a: nat, b: nat, c: nat)
    requires a <= b
    ensures c * a <= c * b
  {
    assert c * b == c * a + c * (b - a);
  }

  lemma DividesTransitive(a: nat, b: nat, c: nat)
    requires 0 < a && 0 < b && Divides(a, b) && Divides(b, c)
    ensures Divides(a, c)
  {
    var x, y := b / a, c / b;
    assert c == a * (x * y) by {
      assert b == a * x && c == b * y;
      assert a * x * y == a * (x * y);
    }
    MultipleDivides(a, x * y);
  }

  lemma MultipleDivides(a: nat, q: nat)
    requires 0 < a
    ensures Divides(a, a * q)
    decreases q
  {
    if q > 0 {
      MultipleDivides(a, q - 1);
      assert a * q == a * (q - 1) + a;
    }
  }

  lemma {:induction false} LeastDivisor(n: nat, d: nat) returns (p: nat)
    requires 2 <= d < n && Divides(d, n)
    ensures 2 <= p <= d && Divides(p, n) && Prime(p)
    decreases d
  {
    if e :| 2 <= e < d && Divides(e, d) {
      DividesTransitive(e, d, n);
      p := LeastDivisor(n, e);
    } else {
      p := d;
    }
  }

  lemma Cofactor(n: nat, d: nat) returns (q: nat)
    requires 2 <= d < n && Divides(d, n)
    ensures 2 <= q < n && n == d * q && Divides(q, n)
  {
    q := n / d;
    assert n == d * q;
    assert q != 0 && q != 1;
    Monotone(2, d, q);
    MultipleDivides(q, d);
  }

  lemma SquareBelowProduct(p: nat, d: nat, q: nat)
    requires p <= d <= q
    ensures p * p <= d * q
  {
    Monotone(p, d, p);
    Monotone(p, q, d);
  }

  /** A composite number has a prime divisor no larger than its square root. */
  lemma CompositeHasSmallPrime(n: nat) returns (p: nat)
    requires n >= 2 && !Prime(n)
    ensures StruckBy(n, p) && p < n
  {
    var d :| 2 <= d < n && Divides(d, n);
    var q := Cofactor(n, d);
    if d <= q {
      p := LeastDivisor(n, d);
      SquareBelowProduct(p, d, q);
    } else {
      p := LeastDivisor(n, q);
      SquareBelowProduct(p, q, d);
      assert q * d == d * q;
    }
  }

  /** When the sieve reaches `n`, it is struck exactly if it is composite. */
  lemma StruckExactlyWhenComposite(n: nat)
    requires n >= 2
    ensures Struck(n, n) <==> !Prime(n)
  {
    if Prime(n) {
      assert forall p: nat :: p < n ==> !StruckBy(n, p);
    } else {
      var p := CompositeHasSmallPrime(n);
    }
  }

  lemma StruckNext(k: nat, n: nat)
    ensures Struck(k, n + 1) <==> Struck(k, n) || StruckBy(k, n)
  {
    if Struck(k, n + 1) {
      var p: nat :| StruckBy(k, p) && p < n + 1;
      assert p == n || Struck(k, n);
    }
    if Struck(k, n) {
      var p: nat :| StruckBy(k, p) && p < n;
      assert p < n + 1;
    }
    if StruckBy(k, n) {
      assert n < n + 1;
    }
  }

  lemma Quotient(n: nat, k: nat) returns (q: nat)
    requires 0 < n && Divides(n, k)
    ensures k == n * q
  {
    q := k / n;
  }

  lemma SameQuotient(n: nat, q: nat, r: nat)
    requires n * q <= n * r < n * q + n
    ensures r == q
  {
    if q < r {
      Monotone(q + 1, r, n);
    } else {
      Monotone(r, q, n);
    }
  }

  lemma Product(n: nat, q: nat)
    ensures n * (q + 1) == n * q + n
  {
  }

  /** The inner loop visits the next multiple and skips none. */
  lemma NextMultiple(n: nat, multiple: nat, k: nat)
    requires 0 < n && Divides(n, multiple)
    ensures Divides(n, multiple + n)
    ensures multiple <= k < multiple + n ==> (Divides(n, k) <==> k == multiple)
  {
    hide Divides;
    var q := Quotient(n, multiple);
    MultipleDivides(n, q + 1);
    Product(n, q);
    if multiple <= k < multiple + n && Divides(n, k) {
      var r := Quotient(n, k);
      SameQuotient(n, q, r);
    }
  }

  // ---- The array as the loops leave it ----

  /** The array has a mark at exactly the indices struck by primes below `n`. */
  ghost predicate Sieved(marks: seq<bv8>, n: nat) {
    forall k :: 2 <= k < |marks| ==> (marks[k] != 0 <==> Struck(k, n))
  }

  /** `marks` adds to `before` the multiples of `n` from its square up to `upTo`. */
  ghost predicate Marked(before: seq<bv8>, marks: seq<bv8>, n: nat, upTo: nat)
    requires n > 0
  {
    && |marks| == |before|
    && forall k :: 0 <= k < |marks| ==>
         (marks[k] != 0 <==> before[k] != 0 || (n * n <= k < upTo && Divides(n, k)))
  }

  lemma MarkNext(before: seq<bv8>, marks: seq<bv8>, n: nat, multiple: nat)
    requires 0 < n && Marked(before, marks, n, multiple)
    requires n * n <= multiple < |marks| && Divides(n, multiple)
    ensures Marked(before, marks[multiple := 1], n, multiple + n) && Divides(n, multiple + n)
  {
    var marks' := marks[multiple := 1];
    forall k | 0 <= k < |marks'|
      ensures marks'[k] != 0 <==> before[k] != 0 || (n * n <= k < multiple + n && Divides(n, k))
    {
      NextMultiple(n, multiple, k);
    }
    NextMultiple(n, multiple, multiple);
  }

  lemma PrimeSieved(before: seq<bv8>, marks: seq<bv8>, n: nat, upTo: nat)
    requires Prime(n) && Sieved(before, n) && Marked(before, marks, n, upTo) && |marks| <= upTo
    ensures Sieved(marks, n + 1)
  {
    forall k | 2 <= k < |marks| ensures marks[k] != 0 <==> Struck(k, n + 1) {
      StruckNext(k, n);
    }
  }

  lemma CompositeSieved(marks: seq<bv8>, n: nat)
    requires !Prime(n) && Sieved(marks, n)
    ensures Sieved(marks, n + 1)
  {
    forall k | 2 <= k < |marks| ensures marks[k] != 0 <==> Struck(k, n + 1) {
      StruckNext(k, n);
    }
  }

  lemma FreshIsSieved(marks: seq<bv8>)
    requires forall k :: 0 <= k < |marks| ==> marks[k] == 0
    ensures Sieved(marks, 2)
  {
  }

  // ---- WebAssembly ----

  datatype Outcome = Counted(count: u32) | Trapped

  function CheckedMul(a: u32, b: u32): Option<u32> {
    var product := (a as int) * (b as int);
    if product < 0x1_0000_0000 then Some(product as u32) else None
  }

  /** Every prime up to the limit, counted without overflow, or a trap exactly when the array cannot be
      allocated: `limit + 1` bytes passes `isize::MAX`, or wraps to nothing for the largest limit. */
  method CountPrimes(limit: u32) returns (outcome: Outcome)
    ensures outcome.Trapped? <==> limit as int + 1 > MAX_ALLOCATION
    ensures outcome.Counted? ==> outcome.count as int == PrimeCount(limit as int)
  {
    if limit < 2 {
      assert limit == 1 ==> PrimeCount(1) == PrimeCount(0);
      return Counted(0);
    }
    if limit as int + 1 > MAX_ALLOCATION {
      return Trapped;
    }
    var composite := new bv8[limit + 1](_ => 0);
    FreshIsSieved(composite[..]);
    var count: u32 := 0;
    var n: u32 := 2;
    assert PrimeCount(1) == 0;
    while n <= limit
      invariant 2 <= n <= limit + 1
      invariant count as int == PrimeCount(n as int - 1) && count < n
      invariant Sieved(composite[..], n as int)
    {
      ghost var p: nat := n as int;
      ghost var before := composite[..];
      StruckExactlyWhenComposite(p);
      assert composite[n] == before[p];
      if composite[n] != 0 {
        CompositeSieved(before, p);
        n := n + 1;
        continue;
      }
      count := count + 1;
      var start := CheckedMul(n, n);
      if start.Some? {
        var multiple := start.value;
        MultipleDivides(p, p);
        while multiple <= limit
          invariant p * p <= multiple as int && Divides(p, multiple as int)
          invariant Marked(before, composite[..], p, multiple as int)
          decreases limit as int - multiple as int
        {
          MarkNext(before, composite[..], p, multiple as int);
          composite[multiple] := 1;
          multiple := multiple + n;
        }
        PrimeSieved(before, composite[..], p, multiple as int);
      } else {
        PrimeSieved(before, composite[..], p, p * p);
      }
      n := n + 1;
    }
    outcome := Counted(count);
  }

  // ---- JavaScript ----

  /** Integers a JavaScript number represents exactly. */
  newtype safe = x: int | -0x1F_FFFF_FFFF_FFFF <= x <= 0x1F_FFFF_FFFF_FFFF

  /** The page clamps the requested limit to this. */
  const PAGE_LIMIT: safe := 10_000_000

  /** The same number for every limit the page allows, every intermediate value being exact. */
  method CountPrimesJs(limit: safe) returns (count: safe)
    requires limit <= PAGE_LIMIT
    ensures count as int == PrimeCount(if limit < 0 then 0 else limit as int)
  {
    if limit < 2 {
      assert limit == 1 ==> PrimeCount(1) == PrimeCount(0);
      return 0;
    }
    var composite := new bv8[limit + 1](_ => 0);
    FreshIsSieved(composite[..]);
    count := 0;
    var n: safe := 2;
    assert PrimeCount(1) == 0;
    while n <= limit
      invariant 2 <= n <= limit + 1
      invariant count as int == PrimeCount(n as int - 1) && 0 <= count < n
      invariant Sieved(composite[..], n as int)
    {
      ghost var p: nat := n as int;
      ghost var before := composite[..];
      StruckExactlyWhenComposite(p);
      assert composite[n] == before[p];
      if composite[n] != 0 {
        CompositeSieved(before, p);
        n := n + 1;
        continue;
      }
      count := count + 1;
      SquareIsSafe(p);
      var multiple := n * n;
      MultipleDivides(p, p);
      while multiple <= limit
        invariant p * p <= multiple as int && Divides(p, multiple as int)
        invariant Marked(before, composite[..], p, multiple as int)
        decreases limit as int - multiple as int
      {
        MarkNext(before, composite[..], p, multiple as int);
        composite[multiple] := 1;
        multiple := multiple + n;
      }
      PrimeSieved(before, composite[..], p, multiple as int);
      n := n + 1;
    }
  }

  lemma SquareIsSafe(n: nat)
    requires n <= 10_000_000
    ensures n * n <= 10_000_000 * 10_000_000
  {
    Monotone(n, 10_000_000, n);
    Monotone(n, 10_000_000, 10_000_000);
  }
}
