/**
 The vocabulary of the wire codec: bytes and machine words, what a read of a byte string can
 come back with, and what a printer intends to put on the wire.

 A read is described by a function from the bytes and a cursor to a `Parsed` value, which says
 where the cursor ends up also when the read throws.  A print is described by an `Emission`:
 the bytes put out before the printer stops, and the exception it stops with, if any.
 */
module Wire {
  type byte = x: int | 0 <= x < 0x100
  type u16 = x: int | 0 <= x < 0x1_0000
  type u32 = x: int | 0 <= x < 0x1_0000_0000

  type Bytes = seq<byte>

  const MAX_BUFFER_SIZE: nat := 1232
  const DEFAULT_BUFFER_SIZE: nat := 512

  datatype Option<+T> = None | Some(value: T)

  /** The exceptions of the original, by class. */
  datatype Error = OutOfRange | RuntimeError | LengthError | InvalidArgument

  /** What a call that returns a value or throws comes back with. */
  datatype Result<+T> = Success(value: T) | Failure(error: Error) {
    predicate IsFailure() { Failure? }

    function PropagateFailure<U>(): Result<U>
      requires Failure?
    {
      Failure(error)
    }

    function Extract(): T
      requires Success?
    {
      value
    }
  }

  /** What a call that returns nothing or throws comes back with. */
  datatype Outcome = Pass | Raise(error: Error) {
    predicate IsFailure() { Raise? }

    function PropagateFailure(): Outcome
      requires Raise?
    {
      this
    }
  }

  /** The outcome of a read: a value or an exception, and in both cases the cursor afterwards. */
  datatype Parsed<+T> = Ok(value: T, next: nat) | Fail(error: Error, next: nat) {
    predicate IsFailure() { Fail? }

    function PropagateFailure<U>(): Parsed<U>
      requires Fail?
    {
      Fail(error, next)
    }

    function Extract(): (T, nat)
      requires Ok?
    {
      (value, next)
    }

    function ToResult(): Result<T> {
      match this
      case Ok(v, _) => Success(v)
      case Fail(e, _) => Failure(e)
    }
  }

  /** The bytes a printer puts out, and the exception it then raises (if it gets that far). */
  datatype Emission = Emission(bytes: Bytes, error: Option<Error>) {
    /** Print this, and then, if it did not throw, `e`. */
    function Then(e: Emission): Emission {
      if error.Some? then this else Emission(bytes + e.bytes, e.error)
    }
  }

  function Plain(bytes: Bytes): Emission {
    Emission(bytes, None)
  }

  /** Big-endian words. */
  function BytesOfU16(v: u16): (w: Bytes)
    ensures |w| == 2
  {
    [v / 0x100, v % 0x100]
  }

  function BytesOfU32(v: u32): (w: Bytes)
    ensures |w| == 4
  {
    BytesOfU16(v / 0x1_0000) + BytesOfU16(v % 0x1_0000)
  }

  /** Putting a word together arithmetically is putting it together by shifts. */
  lemma WordIsBits(high: bv8, low: bv8)
    ensures (((high as bv16) << 8) | (low as bv16)) as int == high as int * 0x100 + low as int
  {
  }

  function ReadU8(b: Bytes, p: nat): Parsed<byte> {
    if p >= |b| then Fail(OutOfRange, p) else Ok(b[p], p + 1)
  }

  function ReadU16(b: Bytes, p: nat): Parsed<u16> {
    var (high, p1) :- ReadU8(b, p);
    var (low, p2) :- ReadU8(b, p1);
    Ok(high * 0x100 + low, p2)
  }

  function ReadU32(b: Bytes, p: nat): Parsed<u32> {
    var (high, p1) :- ReadU16(b, p);
    var (low, p2) :- ReadU16(b, p1);
    Ok(high * 0x1_0000 + low, p2)
  }

  function ReadBytes(b: Bytes, p: nat, count: nat): Parsed<Bytes> {
    if p > |b| || count > |b| - p then Fail(OutOfRange, p)
    else Ok(b[p..p + count], p + count)
  }

  /** The bytes `w` stand in `b` at position `p`, whatever surrounds them. */
  ghost predicate At(b: Bytes, p: nat, w: Bytes) {
    p + |w| <= |b| && b[p..p + |w|] == w
  }

  lemma AtSplit(b: Bytes, p: nat, u: Bytes, v: Bytes)
    requires At(b, p, u + v)
    ensures At(b, p, u) && At(b, p + |u|, v)
  {
    assert b[p..p + |u|] == (u + v)[..|u|];
    assert b[p + |u|..p + |u| + |v|] == (u + v)[|u|..];
  }

  lemma ReadU8At(b: Bytes, p: nat, v: byte)
    requires At(b, p, [v])
    ensures ReadU8(b, p) == Ok(v, p + 1)
  {
  }

  /** A word printed anywhere reads back, whatever bytes surround it. */
  lemma ReadU16At(b: Bytes, p: nat, v: u16)
    requires At(b, p, BytesOfU16(v))
    ensures ReadU16(b, p) == Ok(v, p + 2)
  {
  }

  lemma ReadU32At(b: Bytes, p: nat, v: u32)
    requires At(b, p, BytesOfU32(v))
    ensures ReadU32(b, p) == Ok(v, p + 4)
  {
  }

  lemma ReadBytesAt(b: Bytes, p: nat, w: Bytes)
    requires At(b, p, w)
    ensures ReadBytes(b, p, |w|) == Ok(w, p + |w|)
  {
  }
}
