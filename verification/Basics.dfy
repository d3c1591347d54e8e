/** Small notions that every component uses. */
module Basics {

  datatype Option<T> = None | Some(value: T)

  function Max(a: nat, b: nat): nat { if a >= b then a else b }
  function Min(a: nat, b: nat): nat { if a <= b then a else b }

  function Clamp(v: nat, low: nat, high: nat): (r: nat)
    requires low <= high
    ensures low <= r <= high
  {
    if v < low then low else if v > high then high else v
  }

  /** Unsigned 64-bit subtraction of clock values. */
  function Elapsed(now: nat, since: nat): (ms: int)
    ensures now >= since ==> ms == now - since
  {
    if now >= since then now - since else now - since + 0x1_0000_0000_0000_0000
  }
}
