/** Receive timestamps and the leads between them. */
module Clock {
  /** Nanoseconds, in the range in which the casts to i64 are exact. */
  type Ns = n: nat | n < 0x8000_0000_0000_0000

  /** Rust's `/` on i64 rounds toward zero. */
  function TruncDiv(a: int, b: int): (r: int)
    requires b > 0
    ensures r * b <= a < r * b + b || r * b - b < a <= r * b
  {
    if a >= 0 then a / b else -((-a) / b)
  }

  function LeadUs(rpcNs: Ns, shredNs: Ns): (r: int) {
    TruncDiv(rpcNs - shredNs, 1000)
  }

  lemma LeadMonotone(rpcNs: Ns, a: Ns, b: Ns)
    requires a <= b
    ensures LeadUs(rpcNs, a) >= LeadUs(rpcNs, b)
  {
  }
}
