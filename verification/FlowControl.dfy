/** Flow-control windows (section 6.9 of RFC 7540): a window may be negative, and comparing it with a size then
    has an answer of its own. */
module FlowControl {
  import opened Arith
  import opened Headers

  const MAX_WINDOW_SIZE: nat := 0x7fff_ffff

  function Min(a: int, b: int): int {
    if a < b then a else b
  }

  /** A window as a size: none while it is negative. */
  function AsSize(w: int): (n: nat)
    ensures n >= w && (n == w || n == 0)
  {
    if w < 0 then 0 else w
  }

  /** Comparisons between a window and a size: a negative window is below every size and equal to none. */
  predicate SizeEq(w: int, n: nat) {
    w >= 0 && w == n
  }

  predicate SizeAbove(w: int, n: nat) {
    w >= 0 && w > n
  }

  const TWO_32: nat := 0x1_0000_0000

  predicate InI32(x: int) {
    -0x8000_0000 <= x <= 0x7fff_ffff
  }

  /** The signed value of the low 32 bits. */
  function AsI32(x: int): (r: int)
    ensures InI32(r) && (InI32(x) ==> r == x)
  {
    (x + 0x8000_0000) % TWO_32 - 0x8000_0000
  }

  /** A sum in 32 bits, and whether it wrapped round. */
  function OverflowingAdd(x: int, y: int): (int, bool) {
    (AsI32(x + y), AsI32(x + y) != x + y)
  }

  datatype Flow = Flow(window: int, available: int) {
    function WindowSize(): nat {
      AsSize(window)
    }

    predicate HasUnavailable() {
      window >= 0 && window > available
    }

    function Claim(n: nat): Flow {
      this.(available := available - n)
    }

    function Assign(n: nat): Flow {
      this.(available := available + n)
    }

    /** What may be announced to the peer: only once it is at least half the window. */
    function UnclaimedCapacity(): (r: Option<nat>)
      ensures r.Some? <==> available > window && 2 * (available - window) + 1 >= window
      ensures r.Some? ==> r.value == available - window
    {
      if window >= available then None
      else if available - window < TruncDiv(window, 2) then None
      else Some(available - window)
    }

    /** `None` where the window would exceed the largest admitted. */
    function IncWindow(n: nat): Option<Flow> {
      if window + n > MAX_WINDOW_SIZE then None else Some(this.(window := window + n))
    }

    /** The same in 32 bits with a sign, where a sum may wrap round: just for increments of 31 bits, which is what the
        wire carries, it comes to the true sum, or to the error if that is too large. */
    function IncWindow32(n: nat): (f: Option<Flow>)
      requires InI32(window) && n < TWO_32
      ensures f == IncWindow(n) <==> n <= MAX_WINDOW_SIZE
    {
      var (val, overflow) := OverflowingAdd(window, AsI32(n));
      if overflow then None else if val > MAX_WINDOW_SIZE then None else Some(this.(window := val))
    }

    function DecSendWindow(n: nat): Flow {
      this.(window := window - n)
    }

    function DecRecvWindow(n: nat): Flow {
      Flow(window - n, available - n)
    }

    /** Whether `SendData` passes its assertion. */
    predicate CanSend(n: nat) {
      window >= 0 && n <= window
    }

    function SendData(n: nat): Flow
      requires CanSend(n)
    {
      Flow(window - n, available - n)
    }
  }
}
