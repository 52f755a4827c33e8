/**
  `UniformBuffer` (UniformBuffer.cpp): a window `[startOffset, endOffset)`
  over a shared `Buffer`, which checks the bounds of each `Fill` and `Map`
  and forwards it, translated by `startOffset`, to the buffer.

  The buffer itself (allocation, bytes, its own checks) is not part of this
  model: `Buffer` keeps its type, size and usage, records every call it
  receives in the ghost log `calls`, and answers with a value the model
  leaves open. Pointers (`data`, `initialData`, the mapped address) are
  addresses passed through unchanged; `None` is the null pointer.
*/
module UniformBuffers {
  import opened Wrappers

  const TwoTo64: int := 0x1_0000_0000_0000_0000

  /** The source's `UInt64`. */
  type UInt64 = x: int | 0 <= x < TwoTo64

  /** `BufferType`; only `Uniform` matters to a uniform buffer. */
  datatype BufferType = Uniform | OtherType

  /** `BufferUsageFlags`, a bit mask handed to the buffer factory unchanged. */
  type UsageFlags = nat

  /** An address in memory. */
  type Address = nat

  /** One call received by a `Buffer`, with the arguments it was given and its answer. */
  datatype BufferCall =
    | FillCall(data: Option<Address>, offset: UInt64, size: UInt64, filled: bool)
    | MapCall(offset: UInt64, size: UInt64, mapped: Option<Address>)
    | UnmapCall

  /** A request made to a `BufferFactory`. */
  datatype BufferRequest = BufferRequest(bufferType: BufferType, size: UInt64, usage: UsageFlags, initialData: Option<Address>)

  /** `a + b` in `UInt64` arithmetic, which wraps around modulo 2^64. */
  function WrappingAdd(a: UInt64, b: UInt64): (r: UInt64)
    ensures a + b < TwoTo64 ==> r == a + b
    ensures a + b >= TwoTo64 ==> r == a + b - TwoTo64 && r < a && r < b
  {
    (a + b) % TwoTo64
  }

  /** The bounds check of `Fill` and `Map`, over unbounded integers: `[start + offset, + size)` ends by `end`. */
  predicate WithinWindow(start: UInt64, end: UInt64, offset: UInt64, size: UInt64)
  {
    start + offset + size <= end
  }

  /** The same check as written in the source, where both additions wrap around in `UInt64`. */
  predicate WithinWindowAsWritten(start: UInt64, end: UInt64, offset: UInt64, size: UInt64)
  {
    WrappingAdd(WrappingAdd(start, offset), size) <= end
  }

  /** Bytes a window `[start, end)` spans; none when `end` lies before `start`. */
  function WindowLength(start: UInt64, end: UInt64): nat
  {
    if start <= end then end - start else 0
  }

  /**
    The check admits a relative range exactly when the window is not inverted
    and the range fits in its length, and then the forwarded absolute range `[start + offset, + size)`
    lies inside `[start, end)` with a start offset that is a `UInt64`.
  */
  lemma WithinWindowMeansInside(start: UInt64, end: UInt64, offset: UInt64, size: UInt64)
    ensures WithinWindow(start, end, offset, size) <==> start <= end && offset + size <= WindowLength(start, end)
    ensures WithinWindow(start, end, offset, size) ==>
      start <= start + offset && start + offset + size <= end && start + offset < TwoTo64
  {
  }

  /** As long as no addition wraps around, the source's check is the intended one. */
  lemma AsWrittenAgreesWithoutOverflow(start: UInt64, end: UInt64, offset: UInt64, size: UInt64)
    requires start + offset + size < TwoTo64
    ensures WithinWindowAsWritten(start, end, offset, size) <==> WithinWindow(start, end, offset, size)
  {
    assert WrappingAdd(start, offset) == start + offset;
  }

  /**
    With wrap-around, the source's check lets through a range far outside the
    window: on a 16-byte window at 0, offset 2^64 - 1 and size 1 add up to 0.
  */
  lemma AsWrittenAdmitsOverflow()
    ensures WithinWindowAsWritten(0, 16, TwoTo64 - 1, 1)
    ensures !WithinWindow(0, 16, TwoTo64 - 1, 1)
    ensures WrappingAdd(0, TwoTo64 - 1) >= 16
  {
    assert WrappingAdd(0, TwoTo64 - 1) == TwoTo64 - 1;
    assert WrappingAdd(TwoTo64 - 1, 1) == 0;
  }

  /**
    The sub-view constructor stores `size` as the end offset, not
    `offset + size`: a view asked for `size` bytes at `offset > 0` reaches
    the first `size - offset` of them and no more.
  */
  lemma SubViewReachesSizeMinusOffset(offset: UInt64, size: UInt64)
    requires 0 < offset <= size
    ensures WithinWindow(offset, size, 0, size - offset)
    ensures !WithinWindow(offset, size, 0, size - offset + 1)
    ensures !WithinWindow(offset, size, 0, size)
  {
  }

  /** The shared `Buffer` a uniform buffer forwards to, with the calls it has received. */
  class Buffer {
    const bufferType: BufferType
    const size: UInt64
    const usage: UsageFlags
    ghost var calls: seq<BufferCall>

    constructor (bufferType: BufferType, size: UInt64, usage: UsageFlags)
      ensures this.bufferType == bufferType && this.size == size && this.usage == usage && calls == []
    {
      this.bufferType := bufferType;
      this.size := size;
      this.usage := usage;
      calls := [];
    }

    /** `Buffer::Fill`; whether it succeeds is not part of this model. */
    method Fill(data: Option<Address>, offset: UInt64, size: UInt64) returns (filled: bool)
      modifies this`calls
      ensures calls == old(calls) + [FillCall(data, offset, size, filled)]
    {
      filled :| true;
      calls := calls + [FillCall(data, offset, size, filled)];
    }

    /** `Buffer::Map`; the address it returns (possibly null) is not part of this model. */
    method Map(offset: UInt64, size: UInt64) returns (mapped: Option<Address>)
      modifies this`calls
      ensures calls == old(calls) + [MapCall(offset, size, mapped)]
    {
      mapped :| true;
      calls := calls + [MapCall(offset, size, mapped)];
    }

    /** `Buffer::Unmap`. */
    method Unmap()
      modifies this`calls
      ensures calls == old(calls) + [UnmapCall]
    {
      calls := calls + [UnmapCall];
    }
  }

  /**
    The `BufferFactory` callback. It is code outside the model: all that is
    known of a call is the request it received; the buffer it hands back
    (possibly null, of any type and size) is left open.
  */
  class BufferFactory {
    ghost var requests: seq<BufferRequest>

    constructor ()
      ensures requests == []
    {
      requests := [];
    }

    method Make(bufferType: BufferType, size: UInt64, usage: UsageFlags, initialData: Option<Address>) returns (b: Buffer?)
      modifies this`requests
      ensures requests == old(requests) + [BufferRequest(bufferType, size, usage, initialData)]
    {
      b := new Buffer(bufferType, size, usage);
      requests := requests + [BufferRequest(bufferType, size, usage, initialData)];
    }
  }

  /** A window `[startOffset, endOffset)` over `buffer`. */
  class UniformBuffer {
    var buffer: Buffer?
    var startOffset: UInt64
    var endOffset: UInt64

    /** `UniformBuffer(buffer)`: the whole of a uniform buffer. */
    constructor FromBuffer(buffer: Buffer?)
      requires buffer != null && buffer.bufferType == Uniform
      ensures this.buffer == buffer && startOffset == 0 && endOffset == buffer.size
      ensures WindowLength(startOffset, endOffset) == buffer.size
    {
      this.buffer := buffer;
      startOffset := 0;
      endOffset := buffer.size;
    }

    /**
      `UniformBuffer(buffer, offset, size)`: no check at all, and the end
      offset is `size` itself (see `SubViewReachesSizeMinusOffset`).
    */
    constructor View(buffer: Buffer?, offset: UInt64, size: UInt64)
      ensures this.buffer == buffer && startOffset == offset && endOffset == size
    {
      this.buffer := buffer;
      startOffset := offset;
      endOffset := size;
    }

    /**
      `UniformBuffer(size, usage, bufferFactory, initialData)`: asks the
      factory for one uniform buffer of exactly `size` bytes and spans
      `[0, size)` of whatever buffer the factory returns, unchecked.
    */
    constructor Create(size: UInt64, usage: UsageFlags, factory: BufferFactory, initialData: Option<Address>)
      requires size > 0
      modifies factory
      ensures factory.requests == old(factory.requests) + [BufferRequest(Uniform, size, usage, initialData)]
      ensures startOffset == 0 && endOffset == size
    {
      var made := factory.Make(Uniform, size, usage, initialData);
      buffer := made;
      endOffset := size;
      startOffset := 0;
    }

    /**
      `Fill(data, offset, size)`: one `Fill` of the buffer at absolute offset
      `startOffset + offset`, whose answer it returns.
    */
    method Fill(data: Option<Address>, offset: UInt64, size: UInt64) returns (filled: bool)
      requires buffer != null && WithinWindow(startOffset, endOffset, offset, size)
      modifies buffer`calls
      ensures startOffset + offset < TwoTo64
      ensures buffer.calls == old(buffer.calls) + [FillCall(data, startOffset + offset, size, filled)]
      ensures startOffset <= startOffset + offset && startOffset + offset + size <= endOffset
      ensures unchanged(this)
    {
      WithinWindowMeansInside(startOffset, endOffset, offset, size);
      filled := buffer.Fill(data, startOffset + offset, size);
    }

    /**
      `Map(offset, size)`, both the mutable and the `const` overload: one
      `Map` of the buffer at absolute offset `startOffset + offset`, whose
      address it returns.
    */
    method Map(offset: UInt64, size: UInt64) returns (mapped: Option<Address>)
      requires buffer != null && WithinWindow(startOffset, endOffset, offset, size)
      modifies buffer`calls
      ensures startOffset + offset < TwoTo64
      ensures buffer.calls == old(buffer.calls) + [MapCall(startOffset + offset, size, mapped)]
      ensures startOffset <= startOffset + offset && startOffset + offset + size <= endOffset
      ensures unchanged(this)
    {
      WithinWindowMeansInside(startOffset, endOffset, offset, size);
      mapped := buffer.Map(startOffset + offset, size);
    }

    /** `Unmap()`: forwarded as it is, with no check. */
    method Unmap()
      requires buffer != null
      modifies buffer`calls
      ensures buffer.calls == old(buffer.calls) + [UnmapCall]
      ensures unchanged(this)
    {
      buffer.Unmap();
    }
  }
}
