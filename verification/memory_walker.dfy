/**
 * A cursor over a byte buffer shared by every cursor created on it.
 *
 * The buffer is an immutable sequence of bytes and a cursor is nothing but
 * its offset (`next`), which may be any integer: repositioning is never
 * checked, only the read or write that uses the offset is. Each read is a
 * function of the buffer and the offset that returns the value together with
 * the offset the cursor is left at; a read that throws a RangeError returns
 * `OutOfBounds` with the offset the cursor is left at after the throw. Writes
 * return the new buffer, which every other cursor then sees.
 */
module MemoryWalker {

  type byte = b: int | 0 <= b < 0x100

  type Buffer = seq<byte>

  /** The result of one cursor operation and the offset it leaves the cursor at. */
  datatype Step<T> = Ok(value: T, next: int) | OutOfBounds(next: int)

  /** `len` bytes starting at `at` lie inside the buffer. */
  predicate Within(buf: Buffer, at: int, len: int)
  {
    0 <= at && 0 <= len && at + len <= |buf|
  }

  function Pow256(n: nat): (p: nat)
    ensures p >= 1
  {
    if n == 0 then 1 else 0x100 * Pow256(n - 1)
  }

  /** The unsigned value of bytes stored least significant first. */
  function LittleEndian(b: seq<byte>): nat
  {
    if b == [] then 0 else b[0] + 0x100 * LittleEndian(b[1..])
  }

  /** The unsigned value of bytes stored most significant first. */
  function BigEndian(b: seq<byte>): nat
  {
    if b == [] then 0 else BigEndian(b[..|b| - 1]) * 0x100 + b[|b| - 1]
  }

  /** The `n` bytes that store `v` least significant first. */
  function Encode(v: nat, n: nat): (b: seq<byte>)
    requires v < Pow256(n)
    ensures |b| == n
    ensures LittleEndian(b) == v
  {
    if n == 0 then []
    else
      var rest := Encode(v / 0x100, n - 1);
      assert ([v % 0x100] + rest)[1..] == rest;
      [v % 0x100] + rest
  }

  /** Decoding is exact: `n` bytes hold a value below 256^n and encode back to themselves. */
  lemma {:induction false} DecodeEncode(b: seq<byte>)
    ensures LittleEndian(b) < Pow256(|b|)
    ensures Encode(LittleEndian(b), |b|) == b
  {
    if b != [] {
      DecodeEncode(b[1..]);
      var v := LittleEndian(b);
      assert v / 0x100 == LittleEndian(b[1..]);
      assert v % 0x100 == b[0];
    }
  }

  /** The value of a concatenation: the high part is worth 256^|lo| per unit. */
  lemma {:induction false} LittleEndianAppend(lo: seq<byte>, hi: seq<byte>)
    ensures LittleEndian(lo + hi) == LittleEndian(lo) + Pow256(|lo|) * LittleEndian(hi)
    decreases |lo|
  {
    if lo == [] {
      assert lo + hi == hi;
    } else {
      assert (lo + hi)[1..] == lo[1..] + hi;
      LittleEndianAppend(lo[1..], hi);
      var x := LittleEndian(lo[1..]);
      var p := Pow256(|lo| - 1);
      var h := LittleEndian(hi);
      assert LittleEndian(lo + hi) == lo[0] + 0x100 * (x + p * h);
      ScaleSum(x, p, h);
      assert Pow256(|lo|) == 0x100 * p;
    }
  }

  /** Distributing the byte weight over a value plus a scaled value. */
  lemma ScaleSum(x: int, p: int, h: int)
    ensures 0x100 * (x + p * h) == 0x100 * x + (0x100 * p) * h
  {
  }

  /** The value of four bytes given least significant first. */
  function LittleEndianQuad(b0: byte, b1: byte, b2: byte, b3: byte): nat
  {
    b0 as int + 0x100 * (b1 as int) + 0x1_0000 * (b2 as int) + 0x100_0000 * (b3 as int)
  }

  lemma LittleEndian4(b: seq<byte>)
    requires |b| == 4
    ensures LittleEndian(b) == b[0] as int + 0x100 * (b[1] as int) + 0x1_0000 * (b[2] as int) + 0x100_0000 * (b[3] as int)
  {
    assert b[1..][1..] == b[2..];
    assert b[2..][1..] == b[3..];
    assert b[3..][1..] == [];
    assert LittleEndian(b[3..]) == b[3];
    assert LittleEndian(b[2..]) == b[2] as int + 0x100 * (b[3] as int);
  }

  /** Eight bytes are worth their low four plus 2^32 times their high four. */
  lemma LittleEndian8(b: seq<byte>)
    requires |b| == 8
    ensures Pow256(8) == 0x1_0000_0000_0000_0000
    ensures LittleEndian(b) ==
      LittleEndianQuad(b[0], b[1], b[2], b[3]) + 0x1_0000_0000 * LittleEndianQuad(b[4], b[5], b[6], b[7])
  {
    var lo, hi := b[..4], b[4..];
    assert b == lo + hi;
    LittleEndianAppend(lo, hi);
    LittleEndian4(lo);
    LittleEndian4(hi);
    assert Pow256(4) == 0x1_0000_0000;
    assert Pow256(8) == 0x1_0000_0000_0000_0000;
  }

  lemma BigEndian4(b: seq<byte>)
    requires |b| == 4
    ensures BigEndian(b) == 0x100_0000 * (b[0] as int) + 0x1_0000 * (b[1] as int) + 0x100 * (b[2] as int) + b[3] as int
  {
    assert b[..3][..2] == b[..2];
    assert b[..2][..1] == b[..1];
    assert b[..1][..0] == [];
    assert BigEndian(b[..1]) == b[0];
    assert BigEndian(b[..2]) == (b[0] as int) * 0x100 + b[1] as int;
  }

  /** The two's-complement reading of the `n`-byte unsigned value `u`. */
  function Signed(u: nat, n: nat): int
    requires u < Pow256(n)
  {
    if 2 * u >= Pow256(n) then u - Pow256(n) else u
  }

  /** The 32-bit two's-complement reading lies in the signed range and is
      congruent to the unsigned value. */
  lemma Signed4(u: nat)
    requires u < 0x1_0000_0000
    ensures Pow256(4) == 0x1_0000_0000
    ensures -0x8000_0000 <= Signed(u, 4) < 0x8000_0000 && Signed(u, 4) % 0x1_0000_0000 == u
  {
    assert Pow256(4) == 0x1_0000_0000;
  }

  /** The same for 64 bits. */
  lemma Signed8(u: nat)
    requires u < 0x1_0000_0000_0000_0000
    ensures Pow256(8) == 0x1_0000_0000_0000_0000
    ensures
      && -0x8000_0000_0000_0000 <= Signed(u, 8) < 0x8000_0000_0000_0000
      && Signed(u, 8) % 0x1_0000_0000_0000_0000 == u
  {
    assert Pow256(8) == 0x1_0000_0000_0000_0000;
  }

  // ---------------------------------------------------------------- offsets

  /** `jumpTo(ptr)`: the cursor moves to `ptr`, wherever that is. */
  function JumpTo(at: int, ptr: int): (next: int)
    ensures next == ptr
  {
    ptr
  }

  /** `forkAndJump(ptr)`: a second cursor at `ptr`; this cursor keeps `at`. */
  function ForkAndJump(at: int, ptr: int): (cursors: (int, int))
    ensures cursors.0 == at && cursors.1 == ptr
  {
    (at, ptr)
  }

  /** `skip(bytes)`: moves by `bytes`, unchecked. */
  function Skip(at: int, bytes: int): (next: int)
    ensures next - at == bytes
  {
    at + bytes
  }

  // ---------------------------------------------------------------- reads

  /** A `DataView` getter of `width` bytes, least significant first: it throws
      unless the bytes lie inside the buffer, and the cursor moves only after
      the getter returned. */
  function ReadLittleEndian(buf: Buffer, at: int, width: nat): (r: Step<nat>)
    ensures r.Ok? <==> Within(buf, at, width)
    ensures r.Ok? ==> (
      && r.next == at + width && r.value < Pow256(width)
      && Encode(r.value, width) == buf[at..at + width]
    )
    ensures r.OutOfBounds? ==> r.next == at
  {
    if Within(buf, at, width) then
      DecodeEncode(buf[at..at + width]);
      Ok(LittleEndian(buf[at..at + width]), at + width)
    else OutOfBounds(at)
  }

  /** `readUInt8()`: the offset is incremented inside the argument of
      `getUint8`, so the cursor has moved even when the getter throws. */
  function ReadUInt8(buf: Buffer, at: int): (r: Step<byte>)
    ensures r.next == at + 1
    ensures r.Ok? <==> 0 <= at < |buf|
    ensures r.Ok? ==> r.value == buf[at]
  {
    if 0 <= at < |buf| then Ok(buf[at], at + 1) else OutOfBounds(at + 1)
  }

  /** `readBoolean()`: one byte, true unless zero; moves like `readUInt8`. */
  function ReadBoolean(buf: Buffer, at: int): (r: Step<bool>)
    ensures r.next == at + 1
    ensures r.Ok? <==> 0 <= at < |buf|
    ensures r.Ok? ==> (r.value <==> buf[at] != 0)
  {
    match ReadUInt8(buf, at)
    case Ok(b, next) => Ok(b != 0, next)
    case OutOfBounds(next) => OutOfBounds(next)
  }

  /** `readUInt32LE()`. */
  function ReadUInt32LE(buf: Buffer, at: int): (r: Step<nat>)
    ensures r.Ok? <==> Within(buf, at, 4)
    ensures r.Ok? ==> (
      && r.next == at + 4
      && r.value == LittleEndianQuad(buf[at], buf[at + 1], buf[at + 2], buf[at + 3])
    )
    ensures r.OutOfBounds? ==> r.next == at
  {
    if Within(buf, at, 4) then LittleEndian4(buf[at..at + 4]); ReadLittleEndian(buf, at, 4)
    else ReadLittleEndian(buf, at, 4)
  }

  /** `readUInt32BE()`: the same four bytes, most significant first. */
  function ReadUInt32BE(buf: Buffer, at: int): (r: Step<nat>)
    ensures r.Ok? <==> Within(buf, at, 4)
    ensures r.Ok? ==> (
      && r.next == at + 4
      && r.value == LittleEndianQuad(buf[at + 3], buf[at + 2], buf[at + 1], buf[at])
    )
    ensures r.OutOfBounds? ==> r.next == at
  {
    if Within(buf, at, 4) then
      BigEndian4(buf[at..at + 4]);
      Ok(BigEndian(buf[at..at + 4]), at + 4)
    else OutOfBounds(at)
  }

  /** `readInt32LE()`: the two's-complement reading of what `readUInt32LE` reads. */
  function ReadInt32LE(buf: Buffer, at: int): (r: Step<int>)
    ensures r.Ok? <==> Within(buf, at, 4)
    ensures r.next == ReadUInt32LE(buf, at).next
    ensures r.Ok? ==> (
      && -0x8000_0000 <= r.value < 0x8000_0000
      && r.value % 0x1_0000_0000 == ReadUInt32LE(buf, at).value
    )
  {
    match ReadUInt32LE(buf, at)
    case Ok(u, next) => Signed4(u); Ok(Signed(u, 4), next)
    case OutOfBounds(next) => OutOfBounds(next)
  }

  /** `readInt32BE()`: the two's-complement reading of what `readUInt32BE` reads. */
  function ReadInt32BE(buf: Buffer, at: int): (r: Step<int>)
    ensures r.Ok? <==> Within(buf, at, 4)
    ensures r.next == ReadUInt32BE(buf, at).next
    ensures r.Ok? ==> (
      && -0x8000_0000 <= r.value < 0x8000_0000
      && r.value % 0x1_0000_0000 == ReadUInt32BE(buf, at).value
    )
  {
    match ReadUInt32BE(buf, at)
    case Ok(u, next) => Signed4(u); Ok(Signed(u, 4), next)
    case OutOfBounds(next) => OutOfBounds(next)
  }

  /** `readUInt64LE()`: exact, as a BigInt; the two 32-bit halves combined. */
  function ReadUInt64LE(buf: Buffer, at: int): (r: Step<nat>)
    ensures r.Ok? <==> Within(buf, at, 8)
    ensures r.Ok? ==> (
      && r.next == at + 8 && r.value < 0x1_0000_0000_0000_0000
      && Encode(r.value, 8) == buf[at..at + 8]
      && r.value == ReadUInt32LE(buf, at).value + 0x1_0000_0000 * ReadUInt32LE(buf, at + 4).value
    )
    ensures r.OutOfBounds? ==> r.next == at
  {
    if Within(buf, at, 8) then
      LittleEndian8(buf[at..at + 8]);
      ReadLittleEndian(buf, at, 8)
    else ReadLittleEndian(buf, at, 8)
  }

  /** `readInt64LE()`: exact, as a BigInt; the two's-complement reading of the same 8 bytes. */
  function ReadInt64LE(buf: Buffer, at: int): (r: Step<int>)
    ensures r.Ok? <==> Within(buf, at, 8)
    ensures r.next == ReadUInt64LE(buf, at).next
    ensures r.Ok? ==> (
      && -0x8000_0000_0000_0000 <= r.value < 0x8000_0000_0000_0000
      && r.value % 0x1_0000_0000_0000_0000 == ReadUInt64LE(buf, at).value
    )
  {
    match ReadUInt64LE(buf, at)
    case Ok(u, next) => Signed8(u); Ok(Signed(u, 8), next)
    case OutOfBounds(next) => OutOfBounds(next)
  }

  /** `readDoubleLE()`, kept as the IEEE-754 bit pattern of the double: the
      same 8 bytes `readUInt64LE` reads, with the same bounds and movement. */
  function ReadDoubleLE(buf: Buffer, at: int): (r: Step<nat>)
    ensures r == ReadUInt64LE(buf, at)
  {
    ReadLittleEndian(buf, at, 8)
  }

  /** `readAndDereferencePointer()`: a new cursor positioned at the 32-bit
      little-endian pointer stored at `at`. `value` is the new cursor's offset,
      which nothing checks; this cursor moves past the pointer. */
  function ReadAndDereferencePointer(buf: Buffer, at: int): (r: Step<int>)
    ensures r.Ok? <==> Within(buf, at, 4)
    ensures r.Ok? ==> (
      && r.next == at + 4
      && r.value == LittleEndianQuad(buf[at], buf[at + 1], buf[at + 2], buf[at + 3])
    )
    ensures r.OutOfBounds? ==> r.next == at
  {
    match ReadUInt32LE(buf, at)
    case Ok(ptr, next) => Ok(ForkAndJump(next, ptr).1, next)
    case OutOfBounds(next) => OutOfBounds(next)
  }

  /** `readSliceView(len)`: the offset moves by `len` before the view is
      built, so it has moved even when the `Uint8Array` constructor throws. */
  function ReadSliceView(buf: Buffer, at: int, len: int): (r: Step<seq<byte>>)
    ensures r.next == at + len
    ensures r.Ok? <==> Within(buf, at, len)
    ensures r.Ok? ==> |r.value| == len && forall k :: 0 <= k < len ==> r.value[k] == buf[at + k]
  {
    if Within(buf, at, len) then Ok(buf[at..at + len], at + len) else OutOfBounds(at + len)
  }

  /** How `ArrayBuffer.prototype.slice` reads an index: negative counts from
      the end, and the result is clamped to the buffer. */
  function RelativeIndex(i: int, size: nat): (k: nat)
    ensures k <= size
    ensures 0 <= i <= size ==> k == i
  {
    if i < 0 then (if size + i < 0 then 0 else size + i)
    else if i > size then size
    else i
  }

  /** `readSliceCopy(len)`: a copy of the bytes between the old and the new
      offset, clamped as `ArrayBuffer.prototype.slice` clamps; never throws. */
  function ReadSliceCopy(buf: Buffer, at: int, len: int): (r: Step<seq<byte>>)
    ensures r.Ok? && r.next == at + len
    ensures |r.value| <= |buf|
    ensures Within(buf, at, len) ==> r.value == buf[at..at + len]
    ensures len <= 0 <= at + len ==> r.value == []
  {
    var first := RelativeIndex(at, |buf|);
    var final := RelativeIndex(at + len, |buf|);
    if first < final then Ok(buf[first..final], at + len) else Ok([], at + len)
  }

  /** The first zero byte at or after `i`, or the buffer end when there is none. */
  function TerminatorFrom(buf: Buffer, i: nat): (end: nat)
    requires i <= |buf|
    ensures i <= end <= |buf|
    ensures end == |buf| || buf[end] == 0
    ensures forall k :: i <= k < end ==> buf[k] != 0
    decreases |buf| - i
  {
    if i == |buf| || buf[i] == 0 then i else TerminatorFrom(buf, i + 1)
  }

  /** `readNullTerminatedString()`, returning the bytes before decoding: those
      from `at` up to the first zero byte. Indexing outside the buffer yields
      `undefined`, which ends the scan, so a missing terminator stops it at the
      buffer end and nothing throws. The cursor ends one past the stop. */
  function ReadNullTerminatedString(buf: Buffer, at: int): (r: Step<seq<byte>>)
    ensures r.Ok?
    ensures forall k :: 0 <= k < |r.value| ==> r.value[k] != 0
    ensures 0 <= at <= |buf| ==>
      && at + |r.value| <= |buf|
      && r.value == buf[at..at + |r.value|]
      && (at + |r.value| == |buf| || buf[at + |r.value|] == 0)
    ensures !(0 <= at <= |buf|) ==> r.value == []
    ensures r.next == at + |r.value| + 1
  {
    if 0 <= at <= |buf| then
      var end := TerminatorFrom(buf, at);
      Ok(buf[at..end], end + 1)
    else Ok([], at + 1)
  }

  /** The terminator is the first zero at or after `i`, or the buffer end. */
  lemma {:induction false} TerminatorIsFirstZero(buf: Buffer, i: nat, end: nat)
    requires i <= end <= |buf|
    requires end == |buf| || buf[end] == 0
    requires forall k :: i <= k < end ==> buf[k] != 0
    ensures TerminatorFrom(buf, i) == end
    decreases end - i
  {
    if i < end {
      TerminatorIsFirstZero(buf, i + 1, end);
    }
  }

  /** The bytes read are exactly those up to the first zero after `at`, or
      up to the buffer end when no zero follows. */
  lemma NullTerminatedAt(buf: Buffer, at: int, end: int)
    requires 0 <= at <= end <= |buf|
    requires end == |buf| || buf[end] == 0
    requires forall k :: at <= k < end ==> buf[k] != 0
    ensures ReadNullTerminatedString(buf, at) == Ok(buf[at..end], end + 1)
  {
    TerminatorIsFirstZero(buf, at, end);
  }

  // ---------------------------------------------------------------- writes

  /** `writeUInt32LE(val)`: stores `val` modulo 2^32 (what `setUint32` stores),
      least significant byte first, and leaves every other byte alone. */
  function WriteUInt32LE(buf: Buffer, at: int, val: int): (r: Step<Buffer>)
    ensures r.Ok? <==> Within(buf, at, 4)
    ensures r.OutOfBounds? ==> r.next == at
    ensures r.Ok? ==>
      && r.next == at + 4
      && |r.value| == |buf|
      && (forall k :: 0 <= k < |buf| && !(at <= k < at + 4) ==> r.value[k] == buf[k])
      && ReadUInt32LE(r.value, at) == Ok(val % 0x1_0000_0000, at + 4)
  {
    if Within(buf, at, 4) then
      var bytes := Encode(val % 0x1_0000_0000, 4);
      var mem := buf[..at] + bytes + buf[at + 4..];
      assert mem[at..at + 4] == bytes;
      var r := ReadLittleEndian(mem, at, 4);
      assert r.value == val % 0x1_0000_0000;
      Ok(mem, at + 4)
    else OutOfBounds(at)
  }

  /** A value written, the cursor jumped back to where it was written, and
      read again: the value modulo 2^32 comes back, and the cursor ends where
      the write left it. */
  lemma WriteJumpReadBack(buf: Buffer, at: int, val: int)
    requires Within(buf, at, 4)
    ensures
      var w := WriteUInt32LE(buf, at, val);
      && w.Ok?
      && ReadUInt32LE(w.value, JumpTo(w.next, at)) == Ok(val % 0x1_0000_0000, w.next)
  {
  }

  /** `skip(n)` leaves the cursor where reading `n` bytes leaves it: skipping
      is reading and discarding, without the bounds check. */
  lemma SkipLikeRead(buf: Buffer, at: int, len: int)
    ensures ReadSliceCopy(buf, at, len).next == Skip(at, len)
    ensures ReadSliceView(buf, at, len).next == Skip(at, len)
    ensures ReadUInt32LE(buf, at).Ok? ==> ReadUInt32LE(buf, at).next == Skip(at, 4)
    ensures ReadUInt64LE(buf, at).Ok? ==> ReadUInt64LE(buf, at).next == Skip(at, 8)
  {
  }

  /** `writeAll(src)`: copies `src` to `at` (the typed-array `set` throws when
      it does not fit) and moves past it; every other byte is left alone. */
  function WriteAll(buf: Buffer, at: int, src: seq<byte>): (r: Step<Buffer>)
    ensures r.Ok? <==> Within(buf, at, |src|)
    ensures r.OutOfBounds? ==> r.next == at
    ensures r.Ok? ==>
      && r.next == at + |src|
      && |r.value| == |buf|
      && (forall k :: 0 <= k < |buf| && !(at <= k < at + |src|) ==> r.value[k] == buf[k])
      && ReadSliceCopy(r.value, at, |src|) == Ok(src, at + |src|)
  {
    if Within(buf, at, |src|) then
      var mem := buf[..at] + src + buf[at + |src|..];
      assert mem[at..at + |src|] == src;
      Ok(mem, at + |src|)
    else OutOfBounds(at)
  }
}
