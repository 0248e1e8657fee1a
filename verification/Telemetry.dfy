/** Status codes and saturating counters, shared by the caches. */
module Telemetry {

  datatype Status = OK | InvalidArgument | OutOfMemory | OutOfRange | BufferTooSmall | CorruptData

  const U64_MAX: nat := 0xffff_ffff_ffff_ffff

  function IncrementSaturating(v: nat): (r: nat)
    ensures v < U64_MAX ==> r == v + 1
    ensures v >= U64_MAX ==> r == U64_MAX
  {
    if v >= U64_MAX then U64_MAX else v + 1
  }

  function Saturated(n: nat): nat {
    if n > U64_MAX then U64_MAX else n
  }
}
