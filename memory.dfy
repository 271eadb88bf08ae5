/** The memory the executors read and write: the stack buffer and the program
    buffer, each sitting at the host address its allocation returned. A 64-bit
    address reaches a byte of whichever buffer it falls in; the stack is
    consulted first. The four accessors read32u, read64, write32 and write64
    are modelled on this image. */
module Memory {
  import opened Words

  datatype Image = Image(stackBase: bv64, stack: seq<bv8>, programBase: bv64, program: seq<bv8>)

  datatype Region = Stack | Program

  datatype Location = At(region: Region, offset: nat) | Unmapped

  function Buffer(m: Image, r: Region): seq<bv8>
  {
    match r
    case Stack => m.stack
    case Program => m.program
  }

  /** `width` bytes starting at `addr` lie inside the buffer at `base` of `size` bytes. */
  predicate InBuffer(base: bv64, size: nat, addr: bv64, width: nat)
  {
    base <= addr && (addr - base) as int + width <= size
  }

  /** The offset of `addr` from the start of the buffer it lies in: the byte a
      host pointer cast of `addr` reaches, counted from the buffer's start. */
  function Offset(base: bv64, size: nat, addr: bv64, width: nat): (o: nat)
    requires InBuffer(base, size, addr, width)
    ensures o + width <= size
  {
    (addr - base) as nat
  }

  /** Where the `width` bytes at `addr` live, if they all lie in one buffer. */
  function Locate(m: Image, addr: bv64, width: nat): (l: Location)
    ensures l.At? ==> l.offset + width <= |Buffer(m, l.region)|
    ensures l.At? && l.region == Stack ==> InBuffer(m.stackBase, |m.stack|, addr, width)
    ensures l.At? && l.region == Program ==> InBuffer(m.programBase, |m.program|, addr, width)
    ensures l.Unmapped? ==>
      !InBuffer(m.stackBase, |m.stack|, addr, width) && !InBuffer(m.programBase, |m.program|, addr, width)
  {
    if InBuffer(m.stackBase, |m.stack|, addr, width) then
      At(Stack, Offset(m.stackBase, |m.stack|, addr, width))
    else if InBuffer(m.programBase, |m.program|, addr, width) then
      At(Program, Offset(m.programBase, |m.program|, addr, width))
    else Unmapped
  }

  /** The byte an address reaches is the one a host pointer cast reaches:
      `addr - base` bytes into the buffer it falls in. The stack takes
      priority over the program buffer. */
  lemma LocateReachesOffset(m: Image, addr: bv64, width: nat)
    ensures var l := Locate(m, addr, width);
      && (l.At? && l.region == Stack ==> l.offset == Offset(m.stackBase, |m.stack|, addr, width))
      && (l.At? && l.region == Program ==> l.offset == Offset(m.programBase, |m.program|, addr, width))
      && (InBuffer(m.stackBase, |m.stack|, addr, width) ==> l.At? && l.region == Stack)
  {
  }

  predicate Mapped(m: Image, addr: bv64, width: nat)
  {
    Locate(m, addr, width).At?
  }

  /** `width` bytes at an offset that fits in its buffer. */
  predicate Fits(m: Image, l: Location, width: nat)
  {
    l.At? && l.offset + width <= |Buffer(m, l.region)|
  }

  function Read(m: Image, l: Location, width: nat): (b: seq<bv8>)
    requires Fits(m, l, width)
    ensures |b| == width
  {
    Buffer(m, l.region)[l.offset .. l.offset + width]
  }

  /** The image with `bytes` written over a location. */
  function Write(m: Image, l: Location, bytes: seq<bv8>): (m': Image)
    requires Fits(m, l, |bytes|)
  {
    var b := Buffer(m, l.region);
    var b' := b[..l.offset] + bytes + b[l.offset + |bytes|..];
    if l.region == Stack then m.(stack := b') else m.(program := b')
  }

  /** The `width` bytes at a mapped address. */
  function Bytes(m: Image, addr: bv64, width: nat): (b: seq<bv8>)
    requires Mapped(m, addr, width)
    ensures |b| == width
  {
    Read(m, Locate(m, addr, width), width)
  }

  /** The image with `bytes` written at a mapped address. */
  function Put(m: Image, addr: bv64, bytes: seq<bv8>): Image
    requires Mapped(m, addr, |bytes|)
  {
    Write(m, Locate(m, addr, |bytes|), bytes)
  }

  /** read64: a plain host load of the eight bytes, then the byte swap. */
  function Load64(m: Image, addr: bv64): bv64
    requires Mapped(m, addr, 8)
  {
    Swap64(HostValue64(Bytes(m, addr, 8)))
  }

  /** write64: the byte swap, then a plain host store of the eight bytes. */
  function Store64(m: Image, addr: bv64, value: bv64): Image
    requires Mapped(m, addr, 8)
  {
    Put(m, addr, HostBytes64(Swap64(value)))
  }

  /** read32u: `ntohl` of the four bytes, i.e. their network-order value. */
  function Load32(m: Image, addr: bv64): bv32
    requires Mapped(m, addr, 4)
  {
    BigEndianValue32(Bytes(m, addr, 4))
  }

  /** write32: the four bytes of `htonl(data)`, i.e. `data` in network order. */
  function Store32(m: Image, addr: bv64, data: bv32): Image
    requires Mapped(m, addr, 4)
  {
    Put(m, addr, BigEndianBytes32(data))
  }

  /** Same buffers at the same addresses: every address resolves the same way. */
  predicate SameShape(m: Image, m': Image)
  {
    m'.stackBase == m.stackBase && |m'.stack| == |m.stack|
    && m'.programBase == m.programBase && |m'.program| == |m.program|
  }

  /** Locations depend only on where the buffers are and how long they are. */
  lemma LocateDependsOnShape(m: Image, m': Image, addr: bv64, width: nat)
    requires SameShape(m, m')
    ensures Locate(m', addr, width) == Locate(m, addr, width)
  {
  }

  /** Writing at a location changes the bytes it covers and nothing else. */
  lemma {:induction false} WriteFrame(m: Image, l: Location, bytes: seq<bv8>)
    requires Fits(m, l, |bytes|)
    ensures var m' := Write(m, l, bytes);
      SameShape(m, m') && Fits(m', l, |bytes|) && Read(m', l, |bytes|) == bytes
      && (forall i :: 0 <= i < |Buffer(m, l.region)| && !(l.offset <= i < l.offset + |bytes|) ==>
            Buffer(m', l.region)[i] == Buffer(m, l.region)[i])
      && (forall r :: r != l.region ==> Buffer(m', r) == Buffer(m, r))
  {
    var b := Buffer(m, l.region);
    var b' := b[..l.offset] + bytes + b[l.offset + |bytes|..];
    assert Buffer(Write(m, l, bytes), l.region) == b';
    assert b'[l.offset .. l.offset + |bytes|] == bytes;
  }

  /** A write changes the bytes it covers and nothing else: both buffers keep
      their place and size, the written bytes read back, every other byte of
      that buffer and all of the other buffer are untouched. */
  lemma {:induction false} PutFrame(m: Image, addr: bv64, bytes: seq<bv8>)
    requires Mapped(m, addr, |bytes|)
    ensures var m' := Put(m, addr, bytes); var l := Locate(m, addr, |bytes|);
      SameShape(m, m')
      && Mapped(m', addr, |bytes|) && Bytes(m', addr, |bytes|) == bytes
      && (forall i :: 0 <= i < |Buffer(m, l.region)| && !(l.offset <= i < l.offset + |bytes|) ==>
            Buffer(m', l.region)[i] == Buffer(m, l.region)[i])
      && (forall r :: r != l.region ==> Buffer(m', r) == Buffer(m, r))
  {
    var l := Locate(m, addr, |bytes|);
    WriteFrame(m, l, bytes);
    LocateDependsOnShape(m, Put(m, addr, bytes), addr, |bytes|);
  }

  /** read64 after write64 at the same address returns the written value. */
  lemma {:induction false} Load64OfStore64(m: Image, addr: bv64, value: bv64)
    requires Mapped(m, addr, 8)
    ensures Mapped(Store64(m, addr, value), addr, 8)
    ensures Load64(Store64(m, addr, value), addr) == value
  {
    PutFrame(m, addr, HostBytes64(Swap64(value)));
    HostRoundTrip(Swap64(value));
    Swap64Involutive(value);
  }

  /** write64 lays the value out big-endian: the byte at `addr + k` holds bits
      63-8k down to 56-8k. */
  lemma {:induction false} Store64IsBigEndian(m: Image, addr: bv64, value: bv64)
    requires Mapped(m, addr, 8)
    ensures Mapped(Store64(m, addr, value), addr, 8)
    ensures Bytes(Store64(m, addr, value), addr, 8) == BigEndianBytes64(value)
  {
    PutFrame(m, addr, HostBytes64(Swap64(value)));
    HostStoreOfSwapIsBigEndian(value);
  }

  /** read64 reads the bytes big-endian, whatever wrote them. */
  lemma {:induction false} Load64IsBigEndian(m: Image, addr: bv64)
    requires Mapped(m, addr, 8)
    ensures Load64(m, addr) == BigEndianValue64(Bytes(m, addr, 8))
  {
    SwapOfHostLoadIsBigEndian(Bytes(m, addr, 8));
  }

  /** read32u after write32 at the same address returns the written word. */
  lemma {:induction false} Load32OfStore32(m: Image, addr: bv64, data: bv32)
    requires Mapped(m, addr, 4)
    ensures Mapped(Store32(m, addr, data), addr, 4)
    ensures Load32(Store32(m, addr, data), addr) == data
  {
    PutFrame(m, addr, BigEndianBytes32(data));
    BigEndian32RoundTrip(data, BigEndianBytes32(data));
  }

  /** Reading a location that a write does not overlap sees the old bytes. */
  lemma {:induction false} ReadOfWriteElsewhere(m: Image, l: Location, bytes: seq<bv8>, k: Location, width: nat)
    requires Fits(m, l, |bytes|) && Fits(m, k, width)
    requires l.region != k.region || l.offset + |bytes| <= k.offset || k.offset + width <= l.offset
    ensures Fits(Write(m, l, bytes), k, width)
    ensures Read(Write(m, l, bytes), k, width) == Read(m, k, width)
  {
    WriteFrame(m, l, bytes);
    var m' := Write(m, l, bytes);
    forall i | k.offset <= i < k.offset + width
      ensures Buffer(m', k.region)[i] == Buffer(m, k.region)[i]
    {
    }
  }

  /** A 64-bit store leaves a load elsewhere unchanged: when the two 8-byte
      ranges lie in different buffers or do not overlap, read64 at `other`
      sees what it saw before. */
  lemma {:induction false} Load64OfStore64Elsewhere(m: Image, addr: bv64, value: bv64, other: bv64)
    requires Mapped(m, addr, 8) && Mapped(m, other, 8)
    requires var l, k := Locate(m, addr, 8), Locate(m, other, 8);
      l.region != k.region || l.offset + 8 <= k.offset || k.offset + 8 <= l.offset
    ensures Mapped(Store64(m, addr, value), other, 8)
    ensures Load64(Store64(m, addr, value), other) == Load64(m, other)
  {
    var l, k := Locate(m, addr, 8), Locate(m, other, 8);
    var bytes := HostBytes64(Swap64(value));
    ReadOfWriteElsewhere(m, l, bytes, k, 8);
    WriteFrame(m, l, bytes);
    LocateDependsOnShape(m, Store64(m, addr, value), other, 8);
  }
}
