/**
 * The table that resolves a (length modifier, conversion) pair to the way the
 * argument is read from the variadic area. It encodes default argument
 * promotion of the 32-bit target: every integer narrower than `long long` is
 * passed as 32 bits, `long long`/`intmax_t` as 64 bits, and `float` as `double`.
 */
module SpecifierTable {
  import opened Wrappers

  /** The length modifier of a specifier, named after the C type it denotes;
      `Default` is the omitted modifier, which the formatter reads as "". */
  datatype Length =
    | Default     // ""
    | Char        // hh
    | Short       // h
    | Long        // l
    | LongLong    // ll
    | LongDouble  // L
    | Size        // z
    | IntMax      // j
    | PtrDiff     // t
    | MsI         // I
    | MsI32       // I32
    | MsI64       // I64
    | Quad        // q

  function Spelling(l: Length): string
  {
    match l
    case Default => ""
    case Char => "hh"
    case Short => "h"
    case Long => "l"
    case LongLong => "ll"
    case LongDouble => "L"
    case Size => "z"
    case IntMax => "j"
    case PtrDiff => "t"
    case MsI => "I"
    case MsI32 => "I32"
    case MsI64 => "I64"
    case Quad => "q"
  }

  /** The modifier alternatives in the order the pattern tries them. */
  const ALTERNATIVES: seq<Length> :=
    [Char, Short, Long, LongLong, LongDouble, Size, IntMax, PtrDiff, MsI, MsI32, MsI64, Quad]

  /** Where a nonempty modifier sits among the alternatives: every one of
      them is tried, and only the omitted modifier is not among them. */
  function AlternativeIndex(l: Length): (j: nat)
    requires l != Default
    ensures j < |ALTERNATIVES| && ALTERNATIVES[j] == l
  {
    match l
    case Char => 0
    case Short => 1
    case Long => 2
    case LongLong => 3
    case LongDouble => 4
    case Size => 5
    case IntMax => 6
    case PtrDiff => 7
    case MsI => 8
    case MsI32 => 9
    case MsI64 => 10
    case Quad => 11
  }

  /** How an entry reads its argument. */
  datatype Decode =
    | Int32     // readInt32LE
    | UInt32    // readUInt32LE
    | Int64     // readInt64LE
    | UInt64    // readUInt64LE
    | Float64   // readDoubleLE
    | CString   // readAndDereferencePointer, then readNullTerminatedString
    | Percent   // reads nothing

  /** Bytes of the variadic area an entry consumes. */
  function Width(d: Decode): nat
  {
    match d
    case Int32 => 4
    case UInt32 => 4
    case CString => 4
    case Int64 => 8
    case UInt64 => 8
    case Float64 => 8
    case Percent => 0
  }

  datatype Entry = Entry(lengths: set<Length>, types: set<char>, decode: Decode)

  /** The parsers, in the order they are searched. */
  const PARSERS: seq<Entry> := [
    Entry({Char, Short, Long, Size, PtrDiff, Default}, {'d', 'i', 'c'}, Int32),
    Entry({Char, Short, Long, Size, PtrDiff, Default}, {'u', 'x', 'X', 'o', 'p'}, UInt32),
    Entry({LongLong, IntMax}, {'d', 'i'}, Int64),
    Entry({LongLong, IntMax}, {'u', 'x', 'X', 'o', 'p'}, UInt64),
    Entry({LongDouble, Default}, {'f', 'F', 'e', 'E', 'g', 'G', 'a', 'A'}, Float64),
    Entry({}, {'s'}, CString),
    Entry({}, {'%'}, Percent)
  ]

  predicate Accepts(e: Entry, l: Length, c: char)
  {
    l in e.lengths && c in e.types
  }

  /** No two entries accept the same pair, so the first match is the only one. */
  lemma EntriesDisjoint(l: Length, c: char)
    ensures forall a, b :: 0 <= a < b < |PARSERS| && Accepts(PARSERS[a], l, c) ==> !Accepts(PARSERS[b], l, c)
  {
  }

  /** The index of the first entry at or after `k` that accepts the pair. */
  function FirstAccepting(l: Length, c: char, k: nat): (r: Option<nat>)
    requires k <= |PARSERS|
    ensures r.Some? ==> (
      && k <= r.value < |PARSERS|
      && Accepts(PARSERS[r.value], l, c)
      && forall j :: k <= j < r.value ==> !Accepts(PARSERS[j], l, c)
    )
    ensures r.None? ==> forall j :: k <= j < |PARSERS| ==> !Accepts(PARSERS[j], l, c)
    decreases |PARSERS| - k
  {
    if k == |PARSERS| then None
    else if Accepts(PARSERS[k], l, c) then Some(k)
    else FirstAccepting(l, c, k + 1)
  }

  /** `SPECIFIER_PARSERS.find(...)`: the decoder of the first entry whose
      length set holds `l` and whose type set holds `c`; it is the decoder of
      every entry that accepts the pair. */
  function Lookup(l: Length, c: char): (r: Option<Decode>)
    ensures r.Some? <==> exists k :: 0 <= k < |PARSERS| && Accepts(PARSERS[k], l, c)
    ensures r.Some? ==> forall k :: 0 <= k < |PARSERS| && Accepts(PARSERS[k], l, c) ==> PARSERS[k].decode == r.value
  {
    EntriesDisjoint(l, c);
    match FirstAccepting(l, c, 0)
    case Some(k) => Some(PARSERS[k].decode)
    case None => None
  }

  /** The C type a conversion character prints. */
  datatype Kind = SignedInt | Character | UnsignedInt | Floating | Other

  function KindOf(c: char): Kind
  {
    if c == 'd' || c == 'i' then SignedInt
    else if c == 'c' then Character
    else if c == 'u' || c == 'x' || c == 'X' || c == 'o' || c == 'p' then UnsignedInt
    else if c == 'f' || c == 'F' || c == 'e' || c == 'E' || c == 'g' || c == 'G' || c == 'a' || c == 'A' then Floating
    else Other
  }

  /** Default argument promotion on the 32-bit target, stated per kind of
      conversion: the independent reference the table is checked against.
      Integers narrower than `long long` travel as 32 bits, `long long` and
      `intmax_t` as 64, a character as an `int`, and every floating-point
      argument as a `double`. */
  function Promoted(l: Length, c: char): Option<Decode>
  {
    var promotedToInt := l in {Default, Char, Short, Long, Size, PtrDiff};
    var sixtyFourBit := l in {LongLong, IntMax};
    match KindOf(c)
    case SignedInt => if promotedToInt then Some(Int32) else if sixtyFourBit then Some(Int64) else None
    case Character => if promotedToInt then Some(Int32) else None
    case UnsignedInt => if promotedToInt then Some(UInt32) else if sixtyFourBit then Some(UInt64) else None
    case Floating => if l in {Default, LongDouble} then Some(Float64) else None
    case Other => None
  }

  lemma LookupFinds(l: Length, c: char, k: nat)
    requires k < |PARSERS| && Accepts(PARSERS[k], l, c)
    ensures Lookup(l, c) == Some(PARSERS[k].decode)
  {
  }

  lemma LookupMisses(l: Length, c: char)
    requires forall k :: 0 <= k < |PARSERS| ==> !Accepts(PARSERS[k], l, c)
    ensures Lookup(l, c) == None
  {
  }

  /** No entry accepts the pair. */
  lemma NoEntryAccepts(l: Length, c: char)
    requires !(l in PARSERS[0].lengths && c in PARSERS[0].types)
    requires !(l in PARSERS[1].lengths && c in PARSERS[1].types)
    requires !(l in PARSERS[2].lengths && c in PARSERS[2].types)
    requires !(l in PARSERS[3].lengths && c in PARSERS[3].types)
    requires !(l in PARSERS[4].lengths && c in PARSERS[4].types)
    ensures Lookup(l, c) == None
  {
    forall k | 0 <= k < |PARSERS|
      ensures !Accepts(PARSERS[k], l, c)
    {
      if k >= 5 {
        assert PARSERS[k].lengths == {};
      }
    }
    LookupMisses(l, c);
  }

  lemma PromotionSigned(l: Length, c: char)
    requires KindOf(c) == SignedInt
    ensures Lookup(l, c) == Promoted(l, c)
  {
    if l in {Default, Char, Short, Long, Size, PtrDiff} { LookupFinds(l, c, 0); }
    else if l in {LongLong, IntMax} { LookupFinds(l, c, 2); }
    else { NoEntryAccepts(l, c); }
  }

  lemma PromotionChar(l: Length, c: char)
    requires KindOf(c) == Character
    ensures Lookup(l, c) == Promoted(l, c)
  {
    if l in {Default, Char, Short, Long, Size, PtrDiff} { LookupFinds(l, c, 0); }
    else { NoEntryAccepts(l, c); }
  }

  lemma PromotionUnsigned(l: Length, c: char)
    requires KindOf(c) == UnsignedInt
    ensures Lookup(l, c) == Promoted(l, c)
  {
    if l in {Default, Char, Short, Long, Size, PtrDiff} { LookupFinds(l, c, 1); }
    else if l in {LongLong, IntMax} { LookupFinds(l, c, 3); }
    else { NoEntryAccepts(l, c); }
  }

  lemma PromotionFloat(l: Length, c: char)
    requires KindOf(c) == Floating
    ensures Lookup(l, c) == Promoted(l, c)
  {
    if l in {Default, LongDouble} { LookupFinds(l, c, 4); }
    else { NoEntryAccepts(l, c); }
  }

  /** The table is exactly default argument promotion; in particular `%s` and
      `%%` never resolve (their entries accept no modifier, not even ""). */
  lemma LookupIsPromotion(l: Length, c: char)
    ensures Lookup(l, c) == Promoted(l, c)
    ensures Lookup(l, 's') == None && Lookup(l, '%') == None
  {
    NoEntryAccepts(l, 's');
    NoEntryAccepts(l, '%');
    match KindOf(c)
    case SignedInt => PromotionSigned(l, c);
    case Character => PromotionChar(l, c);
    case UnsignedInt => PromotionUnsigned(l, c);
    case Floating => PromotionFloat(l, c);
    case Other => NoEntryAccepts(l, c);
  }

  /** The modifiers no entry accepts, whatever the conversion. */
  lemma MicrosoftAndQuadModifiersInvalid(c: char)
    ensures Lookup(MsI, c) == None && Lookup(MsI32, c) == None
    ensures Lookup(MsI64, c) == None && Lookup(Quad, c) == None
  {
    NoEntryAccepts(MsI, c);
    NoEntryAccepts(MsI32, c);
    NoEntryAccepts(MsI64, c);
    NoEntryAccepts(Quad, c);
  }
}
