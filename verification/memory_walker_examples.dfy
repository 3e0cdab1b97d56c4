/**
 * The cursor on the variadic area of the repository's layout test
 * (src/MemoryWalker.test.ts): `char`, `short`, `char`, `char`, a pointer to
 * static data at 1024, four bytes of alignment padding, and a 64-bit value.
 */
module WalkerExamples {
  import opened MemoryWalker

  predicate VarargArea(buf: Buffer)
  {
    buf == [
      0x19, 0x00, 0x00, 0x00,
      0xF3, 0xF3, 0xFF, 0xFF,
      0x23, 0x00, 0x00, 0x00,
      0x29, 0x00, 0x00, 0x00,
      0x00, 0x04, 0x00, 0x00,
      0x00, 0x00, 0x00, 0x00,
      0xEF, 0xBE, 0xAD, 0xDE, 0xEF, 0xBE, 0xAD, 0xDE]
  }

  /** A `char` promoted to `int` reads back as itself. */
  lemma PromotedChar(buf: Buffer)
    requires VarargArea(buf)
    ensures ReadInt32LE(buf, 0) == Ok(0x19, 4)
  {
  }

  /** `(short) 0xf3f3`, sign-extended to 32 bits, reads back as -3085. */
  lemma PromotedShort(buf: Buffer)
    requires VarargArea(buf)
    ensures ReadInt32LE(buf, 4) == Ok(-3085, 8)
  {
  }

  /** The string argument points to static data at 1024. */
  lemma StringPointer(buf: Buffer)
    requires VarargArea(buf)
    ensures ReadAndDereferencePointer(buf, 16) == Ok(1024, 20)
  {
  }

  /** The 64-bit argument, read where the compiler put it, past the padding. */
  lemma AlignedQuad(buf: Buffer)
    requires VarargArea(buf)
    ensures ReadUInt64LE(buf, 24) == Ok(0xDEAD_BEEF_DEAD_BEEF, 32)
  {
  }

  /** Skipping the four bytes of padding after the pointer puts the cursor
      on the 64-bit argument. */
  lemma SkippedPadding(buf: Buffer)
    requires VarargArea(buf)
    ensures ReadUInt64LE(buf, Skip(ReadAndDereferencePointer(buf, 16).next, 4)) == Ok(0xDEAD_BEEF_DEAD_BEEF, 32)
  {
  }

  /** The same argument read right after the pointer, as a cursor that does
      not skip padding reads it: the padding becomes its low half. */
  lemma UnalignedQuad(buf: Buffer)
    requires VarargArea(buf)
    ensures ReadUInt64LE(buf, 20) == Ok(0xDEAD_BEEF_0000_0000, 28)
  {
  }

  /** Eight bytes from 28 run past the end: the read fails and the cursor stays. */
  lemma QuadPastEnd(buf: Buffer)
    requires VarargArea(buf)
    ensures ReadUInt64LE(buf, 28) == OutOfBounds(28)
  {
  }

  /** "chars: 10" and its terminator: the bytes before the zero, and the
      cursor past the zero. */
  lemma TerminatedString(buf: Buffer)
    requires buf == [99, 104, 97, 114, 115, 58, 32, 49, 48, 0]  // "chars: 10" and NUL
    ensures ReadNullTerminatedString(buf, 0) == Ok([99, 104, 97, 114, 115, 58, 32, 49, 48], 10)  // "chars: 10"
  {
    NullTerminatedAt(buf, 0, 9);
    assert buf[0..9] == [99, 104, 97, 114, 115, 58, 32, 49, 48];  // "chars: 10"
  }

  /** Without a terminator the scan stops at the buffer end; nothing throws. */
  lemma UnterminatedString(buf: Buffer)
    requires buf == [104, 105]  // "hi"
    ensures ReadNullTerminatedString(buf, 0) == Ok([104, 105], 3)  // "hi"
    ensures ReadNullTerminatedString(buf, 5) == Ok([], 6)
  {
    NullTerminatedAt(buf, 0, 2);
    assert buf[0..2] == buf;
  }
}
