/**
 * `formatFromVarargs`: the C `printf` of the WebAssembly host. The walker it
 * is given sits on a 32-bit pointer to the NUL-terminated format string,
 * followed by the variadic arguments as clang lays them out. Every match of
 * the specifier pattern is replaced by its argument, rendered, and text
 * outside the matches is kept; the arguments are read left to right from the
 * walker, which ends up past the last one read.
 *
 * A JavaScript exception is modelled as an outcome `Threw` that carries the
 * offset the walker is left at when it propagates.
 */
module Printf {
  import opened Wrappers
  import opened Numerals
  import opened MemoryWalker
  import opened SpecifierTable
  import opened SpecifierGrammar
  import opened Tokens
  import opened Substitution

  /** The foreign code the formatter calls: `decodeUtf8` from the host
      library, and the floating-point renderers, given the conversion and the
      IEEE-754 bits of the double. */
  datatype Host = Host(decodeUtf8: seq<byte> -> Text, renderFloat: (char, nat) -> Text)

  /** What a table entry's parser returns: a number or BigInt, a double, or a string. */
  datatype Raw = Integer(n: int) | FloatBits(bits: nat) | Str(text: Text)

  function IntegerStep(r: Step<int>): Step<Raw>
  {
    match r
    case Ok(v, next) => Ok(Integer(v), next)
    case OutOfBounds(next) => OutOfBounds(next)
  }

  /** The `parse` of the entry with decoder `d`, reading from `at`. */
  function Parse(host: Host, d: Decode, buf: Buffer, at: int): (r: Step<Raw>)
    ensures d != Percent ==> (r.Ok? <==> Within(buf, at, Width(d)))
    ensures r.Ok? ==> r.next == at + Width(d)
    ensures r.OutOfBounds? ==> r.next == at
    ensures d in {Int32, UInt32, Int64, UInt64} && r.Ok? ==> r.value.Integer?
    ensures d == Float64 && r.Ok? ==> r.value.FloatBits?
    ensures d in {CString, Percent} ==> r.Ok? ==> r.value.Str?
  {
    match d
    case Int32 => IntegerStep(ReadInt32LE(buf, at))
    case UInt32 =>
      (match ReadUInt32LE(buf, at)
       case Ok(v, next) => Ok(Integer(v), next)
       case OutOfBounds(next) => OutOfBounds(next))
    case Int64 => IntegerStep(ReadInt64LE(buf, at))
    case UInt64 =>
      (match ReadUInt64LE(buf, at)
       case Ok(v, next) => Ok(Integer(v), next)
       case OutOfBounds(next) => OutOfBounds(next))
    case Float64 =>
      (match ReadDoubleLE(buf, at)
       case Ok(bits, next) => Ok(FloatBits(bits), next)
       case OutOfBounds(next) => OutOfBounds(next))
    case CString =>
      (match ReadAndDereferencePointer(buf, at)
       case Ok(ptr, next) => Ok(Str(host.decodeUtf8(ReadNullTerminatedString(buf, ptr).value)), next)
       case OutOfBounds(next) => OutOfBounds(next))
    case Percent => Ok(Str(['%' as int]), at)
  }

  /** The radix the integer formatters write in. */
  function Radix(c: char): nat
  {
    if c == 'x' || c == 'X' || c == 'p' then 16 else if c == 'o' then 8 else 10
  }

  /** The formatter for `c` takes what the parser gives. */
  predicate Suits(c: char, raw: Raw)
  {
    match raw
    case Integer(_) => KindOf(c) in {SignedInt, Character, UnsignedInt}
    case FloatBits(_) => KindOf(c) == Floating
    case Str(_) => c == 's' || c == '%'
  }

  /** `SPECIFIER_FORMATTERS[c]` applied to `raw`. */
  function Render(host: Host, c: char, raw: Raw): (r: Text)
    requires Suits(c, raw)
    ensures raw.Integer? && c != 'c' ==>
      && IsNumeral(r, Radix(c), c == 'X')
      && NumeralValue(r, Radix(c)) == raw.n
      && |r| > 0 && (r[0] == '-' as int <==> raw.n < 0)
    ensures raw.Integer? && c == 'c' ==> |r| == 1 && (r[0] - raw.n) % 0x1_0000 == 0
    ensures c == 's' ==> r == raw.text
    ensures c == '%' ==> r == ['%' as int]
  {
    match raw
    case Integer(n) =>
      if c == 'c' then FromCharCode(n)
      else if c == 'X' then
        var t := IntToText(n, 16);
        UpperCaseNumeral(t, 16);
        UpperCase(t)
      else IntToText(n, Radix(c))
    case FloatBits(bits) => host.renderFloat(c, bits)
    case Str(t) => if c == '%' then ['%' as int] else t
  }

  /** Whatever the table resolves a pair to, its parser's result suits the
      pair's formatter. */
  lemma ParseSuits(host: Host, l: Length, c: char, buf: Buffer, at: int)
    requires Lookup(l, c).Some?
    requires Parse(host, Lookup(l, c).value, buf, at).Ok?
    ensures Suits(c, Parse(host, Lookup(l, c).value, buf, at).value)
  {
    LookupIsPromotion(l, c);
  }

  /** A specifier the formatter accepts: no flag, width or precision, and an
      entry for its modifier and conversion. */
  predicate Accepted(sp: Specifier)
  {
    sp.Bare() && Lookup(sp.length, sp.conversion).Some?
  }

  /** The replacement of one specifier, read from `at`. */
  function Apply(host: Host, buf: Buffer, at: int, sp: Specifier): (r: Outcome)
    ensures !sp.Bare() ==> r == Threw(Unsupported(sp.text), at)
    ensures sp.Bare() && Lookup(sp.length, sp.conversion).None? ==> r == Threw(Invalid(sp.text), at)
    ensures r.Done? ==> Accepted(sp) && r.next == at + Width(Lookup(sp.length, sp.conversion).value)
    ensures r.Threw? && Accepted(sp) ==> r == Threw(RangeError, at)
  {
    if !sp.Bare() then Threw(Unsupported(sp.text), at)
    else
      match Lookup(sp.length, sp.conversion)
      case None => Threw(Invalid(sp.text), at)
      case Some(d) =>
        match Parse(host, d, buf, at)
        case OutOfBounds(next) => Threw(RangeError, next)
        case Ok(raw, next) =>
          ParseSuits(host, sp.length, sp.conversion, buf, at);
          Done(Render(host, sp.conversion, raw), next)
  }

  /** The table resolves nothing to the two parsers that read no number. */
  lemma LookupReadsNumber(l: Length, c: char)
    requires Lookup(l, c).Some?
    ensures Lookup(l, c).value in {Int32, UInt32, Int64, UInt64, Float64}
    ensures Width(Lookup(l, c).value) in {4, 8}
  {
    LookupIsPromotion(l, c);
  }

  /** An accepted specifier is replaced exactly when its argument lies inside
      the buffer. */
  lemma ApplyFits(host: Host, buf: Buffer, at: int, sp: Specifier)
    requires Accepted(sp)
    ensures Apply(host, buf, at, sp).Done? <==> Within(buf, at, Width(Lookup(sp.length, sp.conversion).value))
  {
    LookupReadsNumber(sp.length, sp.conversion);
  }

  /** `%s` and `%%` are invalid whatever their modifier: their entries accept
      no length, not even the omitted one. */
  lemma StringAndPercentInvalid(host: Host, buf: Buffer, at: int, sp: Specifier)
    requires sp.Bare() && (sp.conversion == 's' || sp.conversion == '%')
    ensures Apply(host, buf, at, sp) == Threw(Invalid(sp.text), at)
  {
    LookupIsPromotion(sp.length, sp.conversion);
  }

  /** The unsigned value of the `w` argument bytes at `at`. */
  function ArgumentBits(buf: Buffer, at: int, w: nat): nat
    requires Within(buf, at, w)
  {
    LittleEndian(buf[at..at + w])
  }

  /** The 4- or 8-byte reads give the little-endian value of their bytes. */
  lemma ReadsAreLittleEndian(buf: Buffer, at: int)
    ensures Within(buf, at, 4) ==> ReadUInt32LE(buf, at).value == ArgumentBits(buf, at, 4)
    ensures Within(buf, at, 8) ==> ReadUInt64LE(buf, at).value == ArgumentBits(buf, at, 8)
  {
    if Within(buf, at, 4) {
      LittleEndian4(buf[at..at + 4]);
    }
    if Within(buf, at, 8) {
      var v := ReadUInt64LE(buf, at).value;
      assert LittleEndian(Encode(v, 8)) == v;
    }
  }

  /** The text an integer formatter writes for `c` stands for the number `v`:
      the conversion's radix and case, no prefix, no padding. */
  predicate Writes(t: Text, c: char, v: int)
  {
    IsNumeral(t, Radix(c), c == 'X') && NumeralValue(t, Radix(c)) == v
  }

  /** An accepted unsigned specifier whose argument fits is replaced by the
      argument's bits in the conversion's radix. */
  lemma ApplyWritesUnsigned(host: Host, buf: Buffer, at: int, sp: Specifier, d: Decode)
    requires Accepted(sp) && KindOf(sp.conversion) == UnsignedInt
    requires Lookup(sp.length, sp.conversion) == Some(d) && Within(buf, at, Width(d))
    ensures Apply(host, buf, at, sp).Done?
    ensures Apply(host, buf, at, sp).next == at + Width(d)
    ensures Writes(Apply(host, buf, at, sp).text, sp.conversion, ArgumentBits(buf, at, Width(d)))
  {
    LookupIsPromotion(sp.length, sp.conversion);
    ReadsAreLittleEndian(buf, at);
  }

  /** An accepted signed specifier whose argument fits is replaced by the
      two's-complement reading of the argument's bits, in decimal. */
  lemma ApplyWritesSigned(host: Host, buf: Buffer, at: int, sp: Specifier, d: Decode)
    requires Accepted(sp) && KindOf(sp.conversion) == SignedInt
    requires Lookup(sp.length, sp.conversion) == Some(d) && Within(buf, at, Width(d))
    ensures Apply(host, buf, at, sp).Done?
    ensures Apply(host, buf, at, sp).next == at + Width(d)
    ensures
      var v := NumeralValue(Apply(host, buf, at, sp).text, 10);
      && Writes(Apply(host, buf, at, sp).text, sp.conversion, v)
      && v % Pow256(Width(d)) == ArgumentBits(buf, at, Width(d))
      && -(Pow256(Width(d)) as int) <= 2 * v < Pow256(Width(d))
  {
    LookupIsPromotion(sp.length, sp.conversion);
    ReadsAreLittleEndian(buf, at);
    assert Pow256(4) == 0x1_0000_0000;
    assert Pow256(8) == 0x1_0000_0000_0000_0000;
  }

  /** `%c` is replaced by the one code unit holding the low 16 bits of its
      argument. */
  lemma ApplyWritesChar(host: Host, buf: Buffer, at: int, sp: Specifier)
    requires Accepted(sp) && sp.conversion == 'c'
    requires Within(buf, at, 4)
    ensures Apply(host, buf, at, sp) == Done([buf[at] as int + 0x100 * buf[at + 1] as int], at + 4)
  {
    LookupIsPromotion(sp.length, sp.conversion);
    var v := ReadInt32LE(buf, at).value;
    assert Apply(host, buf, at, sp) == Done(FromCharCode(v), at + 4);
    LowSixteenBits(buf[at], buf[at + 1], buf[at + 2], buf[at + 3], v);
    assert FromCharCode(v) == [buf[at] as int + 0x100 * buf[at + 1] as int];
  }

  /** A number congruent to four bytes modulo 2^32 has their first two as its
      low 16 bits. */
  lemma LowSixteenBits(b0: byte, b1: byte, b2: byte, b3: byte, v: int)
    requires v % 0x1_0000_0000 == LittleEndianQuad(b0, b1, b2, b3)
    ensures v % 0x1_0000 == b0 as int + 0x100 * b1 as int
  {
    var q := v / 0x1_0000_0000;
    var low := b0 as int + 0x100 * b1 as int;
    var high := q * 0x1_0000 + b2 as int + 0x100 * b3 as int;
    Regroup(q);
    assert v == low + 0x1_0000 * high;
    RemainderOfSum(low, high);
  }

  lemma Regroup(q: int)
    ensures q * 0x1_0000_0000 == 0x1_0000 * (q * 0x1_0000)
  {
  }

  lemma RemainderOfSum(low: int, high: int)
    requires 0 <= low < 0x1_0000
    ensures (low + 0x1_0000 * high) % 0x1_0000 == low
  {
  }

  // ------------------------------------------------------------ the whole string

  /** The replacer callback `formatFromVarargs` hands to `replace`. */
  function Applier(host: Host, buf: Buffer): Replacer
  {
    (at: int, sp: Specifier) => Apply(host, buf, at, sp)
  }

  /** The format string with every specifier replaced, its arguments read
      from `at` on; a string in which nothing matches never throws. */
  function Format(host: Host, s: Text, buf: Buffer, at: int): (r: Outcome)
    ensures r.Threw? ==> exists k :: 0 <= k < |s| && MatchAt(s, k).Some?
  {
    Interpret(Applier(host, buf), Tokenize(s, Scan(s), 0), at)
  }

  /** Bytes of arguments a token consumes when it is replaced. */
  function Cost(t: Token): nat
  {
    match t
    case Literal(_) => 0
    case Directive(sp) => if Accepted(sp) then Width(Lookup(sp.length, sp.conversion).value) else 0
  }

  function ArgBytes(toks: seq<Token>): nat
  {
    if toks == [] then 0 else Cost(toks[0]) + ArgBytes(toks[1..])
  }

  /** A token can be replaced when it reads from `at`: a literal always, a
      specifier when it is accepted and its argument lies in the buffer. */
  predicate Readable(buf: Buffer, at: int, t: Token)
  {
    t.Directive? ==> Accepted(t.spec) && Within(buf, at, Cost(t))
  }

  /** One token is replaced exactly when it is readable, and then the walker
      moves past its argument. */
  lemma ReplaceDone(host: Host, buf: Buffer, at: int, t: Token)
    ensures Replace(Applier(host, buf), at, t).Done? <==> Readable(buf, at, t)
    ensures Replace(Applier(host, buf), at, t).Done? ==> Replace(Applier(host, buf), at, t).next == at + Cost(t)
  {
    if t.Directive? && Accepted(t.spec) {
      ApplyFits(host, buf, at, t.spec);
    }
  }

  lemma InterpretCons(host: Host, buf: Buffer, toks: seq<Token>, at: int)
    requires toks != []
    ensures Interpret(Applier(host, buf), toks, at).Done? <==>
      Readable(buf, at, toks[0]) && Interpret(Applier(host, buf), toks[1..], at + Cost(toks[0])).Done?
    ensures Interpret(Applier(host, buf), toks, at).Done? ==>
      Interpret(Applier(host, buf), toks, at).next == Interpret(Applier(host, buf), toks[1..], at + Cost(toks[0])).next
  {
    ReplaceDone(host, buf, at, toks[0]);
  }

  /** A completed call leaves the walker past all the arguments it read. */
  lemma {:induction false} InterpretNext(host: Host, buf: Buffer, toks: seq<Token>, at: int)
    ensures Interpret(Applier(host, buf), toks, at).Done? ==> Interpret(Applier(host, buf), toks, at).next == at + ArgBytes(toks)
    decreases |toks|
  {
    if toks != [] {
      InterpretCons(host, buf, toks, at);
      InterpretNext(host, buf, toks[1..], at + Cost(toks[0]));
    }
  }

  lemma ArgBytesCons(toks: seq<Token>, j: nat)
    requires 0 < j <= |toks|
    ensures ArgBytes(toks[..j]) == Cost(toks[0]) + ArgBytes(toks[1..][..j - 1])
  {
    assert toks[..j][0] == toks[0];
    assert toks[..j][1..] == toks[1..][..j - 1];
  }

  /** Every token of `toks` can be replaced where the arguments of the
      specifiers before it end. */
  predicate AllReadable(buf: Buffer, at: int, toks: seq<Token>)
  {
    forall k :: 0 <= k < |toks| ==> Readable(buf, at + ArgBytes(toks[..k]), toks[k])
  }

  lemma AllReadableCons(buf: Buffer, at: int, toks: seq<Token>)
    requires toks != []
    ensures AllReadable(buf, at, toks) <==>
      Readable(buf, at, toks[0]) && AllReadable(buf, at + Cost(toks[0]), toks[1..])
  {
    var t, rest, n := toks[0], toks[1..], at + Cost(toks[0]);
    assert toks[..0] == [];
    if AllReadable(buf, at, toks) {
      forall k | 0 <= k < |rest|
        ensures Readable(buf, n + ArgBytes(rest[..k]), rest[k])
      {
        ArgBytesCons(toks, k + 1);
        assert Readable(buf, at + ArgBytes(toks[..k + 1]), toks[k + 1]);
      }
    }
    if Readable(buf, at, t) && AllReadable(buf, n, rest) {
      forall k | 0 <= k < |toks|
        ensures Readable(buf, at + ArgBytes(toks[..k]), toks[k])
      {
        if k > 0 {
          ArgBytesCons(toks, k);
          assert Readable(buf, n + ArgBytes(rest[..k - 1]), rest[k - 1]);
        }
      }
    }
  }

  /** The call completes exactly when every token can be replaced where the
      arguments of the specifiers before it end. */
  lemma {:induction false} InterpretDone(host: Host, buf: Buffer, toks: seq<Token>, at: int)
    ensures Interpret(Applier(host, buf), toks, at).Done? <==> AllReadable(buf, at, toks)
    decreases |toks|
  {
    if toks != [] {
      InterpretDone(host, buf, toks[1..], at + Cost(toks[0]));
      InterpretDoneStep(host, buf, toks, at);
    }
  }

  /** `InterpretDone` for `toks` from `InterpretDone` for its tail. */
  lemma InterpretDoneStep(host: Host, buf: Buffer, toks: seq<Token>, at: int)
    requires toks != []
    requires Interpret(Applier(host, buf), toks[1..], at + Cost(toks[0])).Done? <==> AllReadable(buf, at + Cost(toks[0]), toks[1..])
    ensures Interpret(Applier(host, buf), toks, at).Done? <==> AllReadable(buf, at, toks)
  {
    InterpretCons(host, buf, toks, at);
    AllReadableCons(buf, at, toks);
  }

  /** The scanner finds nothing in a stretch without "%". */
  lemma ScanPercentFree(s: Text, a: nat, b: nat)
    requires a <= b <= |s| && PercentFree(s, a, b)
    ensures forall k :: a <= k < b ==> Scan(s)[k] == None
  {
    PercentFreeNoMatch(s, a, b);
  }

  /** A format string without "%" is copied as it is and reads nothing. */
  lemma PlainTextCopied(host: Host, s: Text, buf: Buffer, at: int)
    requires PercentFree(s, 0, |s|)
    ensures Format(host, s, buf, at) == Done(s, at)
  {
    ScanPercentFree(s, 0, |s|);
    NoMatchCopied(Applier(host, buf), s, Scan(s), at);
  }

  /** A format string in which no specifier matches, even one with "%" in
      it, is copied as it is and reads nothing. */
  lemma UnmatchedCopied(host: Host, s: Text, buf: Buffer, at: int)
    requires forall k :: 0 <= k < |s| ==> MatchAt(s, k) == None
    ensures Format(host, s, buf, at) == Done(s, at)
  {
    NoMatchCopied(Applier(host, buf), s, Scan(s), at);
  }

  /** When the first specifier of a format string throws, the call throws
      that; text before it may hold a "%" that starts no match. */
  lemma FirstSpecifierThrows(host: Host, s: Text, buf: Buffer, at: int, i: nat, sp: Specifier)
    requires i < |s| && MatchAt(s, i) == Some(sp)
    requires forall k :: 0 <= k < i ==> MatchAt(s, k) == None
    requires Apply(host, buf, at, sp).Threw?
    ensures Format(host, s, buf, at) == Apply(host, buf, at, sp)
  {
    assert Scan(s)[i] == Some(sp);
    FirstMatchThrows(Applier(host, buf), s, Scan(s), at, i, sp);
  }

  /** A format string with one specifier: the text around it, which may hold
      a "%" that starts no match, is copied and the specifier's replacement
      put between. */
  lemma OneSpecifier(host: Host, s: Text, buf: Buffer, at: int, i: nat, sp: Specifier)
    requires i < |s| && MatchAt(s, i) == Some(sp)
    requires forall k :: 0 <= k < i ==> MatchAt(s, k) == None
    requires forall k :: i + |sp.text| <= k < |s| ==> MatchAt(s, k) == None
    ensures Format(host, s, buf, at) == Surround(s[0..i], Apply(host, buf, at, sp), s[i + |sp.text|..])
  {
    assert Scan(s)[i] == Some(sp);
    OnlyMatch(Applier(host, buf), s, Scan(s), at, i, sp);
  }

  /** Text without "%", one specifier, text without "%": the specifier's
      replacement between the two texts. */
  lemma SpecifierBetween(host: Host, pre: Text, sp: Specifier, post: Text, buf: Buffer, at: int, t: Text, next: int)
    requires PercentFree(pre, 0, |pre|) && PercentFree(post, 0, |post|)
    requires MatchAt(pre + sp.text + post, |pre|) == Some(sp)
    requires Apply(host, buf, at, sp) == Done(t, next)
    ensures Format(host, pre + sp.text + post, buf, at) == Done(pre + t + post, next)
  {
    var s := pre + sp.text + post;
    PercentFreeAround(pre, sp.text, post);
    MatchAtSpan(s, |pre|);
    PercentFreeNoMatch(s, 0, |pre|);
    PercentFreeNoMatch(s, |pre| + |sp.text|, |s|);
    OneSpecifier(host, pre + sp.text + post, buf, at, |pre|, sp);
  }

  /** The format string a pointer designates: the bytes up to the first zero,
      decoded as UTF-8. */
  function FormatString(host: Host, buf: Buffer, ptr: int): Text
  {
    host.decodeUtf8(ReadNullTerminatedString(buf, ptr).value)
  }

  /** `formatFromVarargs`: the first four bytes at `at` point to the format
      string, and the arguments follow them. */
  function FormatFromVarargs(host: Host, buf: Buffer, at: int): (r: Outcome)
    ensures !Within(buf, at, 4) ==> r == Threw(RangeError, at)
    ensures Within(buf, at, 4) ==>
      r == Format(host, FormatString(host, buf, LittleEndianQuad(buf[at], buf[at + 1], buf[at + 2], buf[at + 3])), buf, at + 4)
  {
    match ReadAndDereferencePointer(buf, at)
    case OutOfBounds(next) => Threw(RangeError, next)
    case Ok(ptr, next) => Format(host, FormatString(host, buf, ptr), buf, next)
  }
}
