/** Small failure-compatible wrappers shared by the tracker and the simulator. */
module Wrappers {

  /** `None` plays the role of a Java `null` reference or of an absent value. */
  datatype Option<+T> = None | Some(value: T)

  /** The outcome of an operation that may throw: `Failure` carries the exception kind. */
  datatype Result<+T, +E> = Success(value: T) | Failure(error: E)
}

/** The fixed-width Java integer types the source uses. */
module JavaInts {

  const TWO_31: int := 0x8000_0000
  const TWO_32: int := 0x1_0000_0000
  const TWO_63: int := 0x8000_0000_0000_0000

  /** Java `int`. */
  type Int32 = x: int | -TWO_31 <= x < TWO_31

  /** Java `long`. */
  type Int64 = x: int | -TWO_63 <= x < TWO_63

  predicate InInt32Range(x: int) {
    -TWO_31 <= x < TWO_31
  }

  /** Two's-complement reduction to 32 bits: what `AtomicInteger.addAndGet`
      does on overflow and what the narrowing cast `(int)` does to a `long`. */
  function Wrap32(x: int): (r: Int32)
    ensures (x - r) % TWO_32 == 0
    ensures InInt32Range(x) ==> r == x
  {
    (x + TWO_31) % TWO_32 - TWO_31
  }
}

/** The closed set of domain events exchanged between the simulator and the tracker. */
module Events {
  import opened Wrappers
  import opened JavaInts

  /** A Java `String` field of an event: `None` stands for `null`
      (a JSON body may omit a field). */
  type JString = Option<string>

  datatype HamsterEvent =
    | HamsterEnter(hamsterId: JString, wheelId: JString)
    | HamsterExit(hamsterId: JString, wheelId: JString)
    | WheelSpin(wheelId: JString, durationMs: Int64)
    | SensorFailure(sensorId: JString, errorCode: Int32)
}
