/**
 * The formatter on the format strings and arguments of the repository's
 * tests (src/printf.test.ts and src/MemoryWalker.test.ts). Texts are written
 * as their code units, with the string in a comment beside them. No example
 * renders a double. `HelloFromVarargs` decodes its format string, and
 * assumes that `decodeUtf8` maps those ASCII bytes to the same code units;
 * every other example starts from the decoded text and holds for any host.
 */
module PrintfExamples {
  import opened Wrappers
  import opened Numerals
  import opened MemoryWalker
  import opened SpecifierTable
  import opened SpecifierGrammar
  import opened Tokens
  import opened Substitution
  import opened Printf

  // ------------------------------------------------------------ "Hello%c\n"

  lemma HelloCharacterScan(s: Text)
    requires |s| == 8 && s[5] == 37 && s[6] == 99
    ensures MatchAt(s, 5) == Some(Specifier([37, 99], [], [], [], Default, 'c'))  // "%c"
  {
    PlainConversion(s, 5);
  }

  /** `%c` with the bytes of '?' writes "?". */
  lemma HelloCharacterArgument(host: Host, buf: Buffer, at: int, sp: Specifier)
    requires Within(buf, at, 4) && buf[at] == 0x3F && buf[at + 1] == 0
    requires sp == Specifier([37, 99], [], [], [], Default, 'c')  // "%c"
    ensures Apply(host, buf, at, sp) == Done([63], at + 4)  // "?"
  {
    LookupIsPromotion(Default, 'c');
    ApplyWritesChar(host, buf, at, sp);
  }

  /** How "Hello%c\n" and its result split around the specifier. */
  lemma HelloCharacterText(s: Text, pre: Text, post: Text)
    requires s == [72, 101, 108, 108, 111, 37, 99, 10]  // "Hello%c\n"
    requires pre == [72, 101, 108, 108, 111] && post == [10]  // "Hello", "\n"
    ensures s == pre + [37, 99] + post && |s| == 8 && s[5] == 37 && s[6] == 99  // "%c"
    ensures PercentFree(pre, 0, |pre|) && PercentFree(post, 0, |post|)
    ensures pre + [63] + post == [72, 101, 108, 108, 111, 63, 10]  // "?", "Hello?\n"
  {
  }

  /** `printf("Hello%c\n", '?')` writes "Hello?\n" and reads one `int`. */
  lemma HelloCharacter(host: Host, s: Text, buf: Buffer, at: int)
    requires s == [72, 101, 108, 108, 111, 37, 99, 10]  // "Hello%c\n"
    requires Within(buf, at, 4) && buf[at] == 0x3F && buf[at + 1] == 0
    ensures Format(host, s, buf, at) == Done([72, 101, 108, 108, 111, 63, 10], at + 4)  // "Hello?\n"
  {
    var pre, sp, post := [72, 101, 108, 108, 111], Specifier([37, 99], [], [], [], Default, 'c'), [10];  // "Hello", "%c", "\n"
    HelloCharacterText(s, pre, post);
    HelloCharacterScan(s);
    HelloCharacterArgument(host, buf, at, sp);
    SpecifierBetween(host, pre, sp, post, buf, at, [63], at + 4);  // "?"
  }

  /** The whole call: the pointer at 0 designates the format string at 8,
      and the argument follows the pointer. */
  lemma HelloFromVarargs(host: Host, buf: Buffer)
    requires buf == [8, 0, 0, 0, 0x3F, 0, 0, 0, 72, 101, 108, 108, 111, 37, 99, 10, 0]  // pointer 8, '?', "Hello%c\n" and NUL
    requires host.decodeUtf8([72, 101, 108, 108, 111, 37, 99, 10]) == [72, 101, 108, 108, 111, 37, 99, 10]  // "Hello%c\n" both
    ensures FormatFromVarargs(host, buf, 0) == Done([72, 101, 108, 108, 111, 63, 10], 8)  // "Hello?\n"
  {
    NullTerminatedAt(buf, 8, 16);
    assert buf[8..16] == [72, 101, 108, 108, 111, 37, 99, 10];  // "Hello%c\n"
    HelloCharacter(host, [72, 101, 108, 108, 111, 37, 99, 10], buf, 4);  // "Hello%c\n"
  }

  // ------------------------------------------------------------ "Oh my %lu\n"

  /** "l" is the modifier: neither "hh" nor "h", tried before it, is spelled. */
  lemma OhMyScan(s: Text)
    requires |s| == 10 && s[6] == 37 && s[7] == 108 && s[8] == 117
    ensures MatchAt(s, 6) == Some(Specifier([37, 108, 117], [], [], [], Long, 'u'))  // "%lu"
  {
    assert Fits(s, 7, Long);
    assert !Fits(s, 7, ALTERNATIVES[0]) by {
      assert Spelling(Char)[0] as int != s[7 + 0];
    }
    assert !Fits(s, 7, ALTERNATIVES[1]) by {
      assert Spelling(Short)[0] as int != s[7 + 0];
    }
    ChosenModifier(s, 7, Long);
    BareMatch(s, 6, Long, 8);
    ThreeUnits(s, 6);
  }

  lemma ThreeUnits(s: Text, i: nat)
    requires i + 3 <= |s|
    ensures s[i..i + 3] == [s[i], s[i + 1], s[i + 2]]
  {
  }

  /** The one decimal numeral worth 0xAAAAAAAA. */
  lemma OhMyDigits(t: Text)
    requires IsNumeral(t, 10, false) && NumeralValue(t, 10) == 2863311530
    ensures t == [50, 56, 54, 51, 51, 49, 49, 53, 51, 48]  // "2863311530"
  {
    NumeralRoundTrip(t, 10);
  }

  /** `%lu` reads its argument as an unsigned 32-bit number. */
  lemma OhMyBits(host: Host, buf: Buffer, sp: Specifier)
    requires buf == [0xAA, 0xAA, 0xAA, 0xAA]
    requires sp == Specifier([37, 108, 117], [], [], [], Long, 'u')  // "%lu"
    ensures Apply(host, buf, 0, sp).Done? && Apply(host, buf, 0, sp).next == 4
    ensures Writes(Apply(host, buf, 0, sp).text, 'u', 2863311530)
  {
    LookupIsPromotion(Long, 'u');
    ApplyWritesUnsigned(host, buf, 0, sp, UInt32);
    LittleEndian4(buf[0..4]);
  }

  lemma OhMyArgument(host: Host, buf: Buffer, sp: Specifier)
    requires buf == [0xAA, 0xAA, 0xAA, 0xAA]
    requires sp == Specifier([37, 108, 117], [], [], [], Long, 'u')  // "%lu"
    ensures Apply(host, buf, 0, sp) == Done([50, 56, 54, 51, 51, 49, 49, 53, 51, 48], 4)  // "2863311530"
  {
    OhMyBits(host, buf, sp);
    OhMyDigits(Apply(host, buf, 0, sp).text);
  }

  lemma OhMyText(s: Text, pre: Text, post: Text)
    requires s == [79, 104, 32, 109, 121, 32, 37, 108, 117, 10]  // "Oh my %lu\n"
    requires pre == [79, 104, 32, 109, 121, 32] && post == [10]  // "Oh my ", "\n"
    ensures s == pre + [37, 108, 117] + post && |s| == 10 && s[6] == 37 && s[7] == 108 && s[8] == 117  // "%lu"
    ensures PercentFree(pre, 0, |pre|) && PercentFree(post, 0, |post|)
    ensures pre + [50, 56, 54, 51, 51, 49, 49, 53, 51, 48] + post  // "2863311530"
      == [79, 104, 32, 109, 121, 32, 50, 56, 54, 51, 51, 49, 49, 53, 51, 48, 10]  // "Oh my 2863311530\n"
  {
  }

  /** `printf("Oh my %lu\n", 0xAAAAAAAAlu)` writes "Oh my 2863311530\n". */
  lemma OhMyUnsigned(host: Host, s: Text, buf: Buffer)
    requires s == [79, 104, 32, 109, 121, 32, 37, 108, 117, 10]  // "Oh my %lu\n"
    requires buf == [0xAA, 0xAA, 0xAA, 0xAA]
    ensures Format(host, s, buf, 0) ==
      Done([79, 104, 32, 109, 121, 32, 50, 56, 54, 51, 51, 49, 49, 53, 51, 48, 10], 4)  // "Oh my 2863311530\n"
  {
    var pre, sp, post := [79, 104, 32, 109, 121, 32], Specifier([37, 108, 117], [], [], [], Long, 'u'), [10];  // "Oh my ", "%lu", "\n"
    OhMyText(s, pre, post);
    OhMyScan(s);
    OhMyArgument(host, buf, sp);
    SpecifierBetween(host, pre, sp, post, buf, 0, [50, 56, 54, 51, 51, 49, 49, 53, 51, 48], 4);  // "2863311530"
  }

  // ------------------------------------------------------------ "Hello %dth customer\n"

  lemma CustomerScan(s: Text)
    requires |s| == 20 && s[6] == 37 && s[7] == 100
    ensures MatchAt(s, 6) == Some(Specifier([37, 100], [], [], [], Default, 'd'))  // "%d"
  {
    PlainConversion(s, 6);
  }

  /** A `short` 14, promoted to a 32-bit `int`, is read back as a signed number. */
  lemma CustomerBits(host: Host, buf: Buffer, sp: Specifier)
    requires buf == [14, 0, 0, 0]
    requires sp == Specifier([37, 100], [], [], [], Default, 'd')  // "%d"
    ensures Apply(host, buf, 0, sp).Done? && Apply(host, buf, 0, sp).next == 4
    ensures Writes(Apply(host, buf, 0, sp).text, 'd', 14)
  {
    LookupIsPromotion(Default, 'd');
    ApplyWritesSigned(host, buf, 0, sp, Int32);
    LittleEndian4(buf[0..4]);
    assert Pow256(4) == 0x1_0000_0000;
  }

  lemma CustomerDigits(t: Text)
    requires IsNumeral(t, 10, false) && NumeralValue(t, 10) == 14
    ensures t == [49, 52]  // "14"
  {
    NumeralRoundTrip(t, 10);
  }

  lemma CustomerArgument(host: Host, buf: Buffer, sp: Specifier)
    requires buf == [14, 0, 0, 0]
    requires sp == Specifier([37, 100], [], [], [], Default, 'd')  // "%d"
    ensures Apply(host, buf, 0, sp) == Done([49, 52], 4)  // "14"
  {
    CustomerBits(host, buf, sp);
    CustomerDigits(Apply(host, buf, 0, sp).text);
  }

  lemma CustomerText(s: Text, pre: Text, post: Text)
    requires s == [72, 101, 108, 108, 111, 32, 37, 100, 116, 104, 32, 99, 117, 115, 116, 111, 109, 101, 114, 10]  // "Hello %dth customer\n"
    requires pre == [72, 101, 108, 108, 111, 32] && post == [116, 104, 32, 99, 117, 115, 116, 111, 109, 101, 114, 10]  // "Hello ", "th customer\n"
    ensures s == pre + [37, 100] + post && |s| == 20 && s[6] == 37 && s[7] == 100  // "%d"
    ensures PercentFree(pre, 0, |pre|) && PercentFree(post, 0, |post|)
    ensures pre + [49, 52] + post  // "14"
      == [72, 101, 108, 108, 111, 32, 49, 52, 116, 104, 32, 99, 117, 115, 116, 111, 109, 101, 114, 10]  // "Hello 14th customer\n"
  {
  }

  /** `printf("Hello %dth customer\n", (short) 14)` writes "Hello 14th customer\n". */
  lemma Customer(host: Host, s: Text, buf: Buffer)
    requires s == [72, 101, 108, 108, 111, 32, 37, 100, 116, 104, 32, 99, 117, 115, 116, 111, 109, 101, 114, 10]  // "Hello %dth customer\n"
    requires buf == [14, 0, 0, 0]
    ensures Format(host, s, buf, 0) ==
      Done([72, 101, 108, 108, 111, 32, 49, 52, 116, 104, 32, 99, 117, 115, 116, 111, 109, 101, 114, 10], 4)  // "Hello 14th customer\n"
  {
    var pre, sp, post := [72, 101, 108, 108, 111, 32], Specifier([37, 100], [], [], [], Default, 'd'),  // "Hello ", "%d"
      [116, 104, 32, 99, 117, 115, 116, 111, 109, 101, 114, 10];  // "th customer\n"
    CustomerText(s, pre, post);
    CustomerScan(s);
    CustomerArgument(host, buf, sp);
    SpecifierBetween(host, pre, sp, post, buf, 0, [49, 52], 4);  // "14"
  }

  // ------------------------------------------------------------ "Hello %s%c\n"

  lemma WorldScan(s: Text)
    requires |s| == 11 && s[6] == 37 && s[7] == 115
    ensures MatchAt(s, 6) == Some(Specifier([37, 115], [], [], [], Default, 's'))  // "%s"
  {
    PlainConversion(s, 6);
  }

  /** `printf("Hello %s%c\n", "world", '.')`: the table has no entry for `%s`
      with the omitted modifier, so the call throws "Invalid format
      specifier" before it reads anything, whatever the arguments; the test
      expects "Hello world.\n". */
  lemma WorldIsInvalid(host: Host, s: Text, buf: Buffer, at: int)
    requires s == [72, 101, 108, 108, 111, 32, 37, 115, 37, 99, 10]  // "Hello %s%c\n"
    ensures Format(host, s, buf, at) == Threw(Invalid([37, 115]), at)  // "%s"
  {
    WorldScan(s);
    assert PercentFree(s, 0, 6);
    PercentFreeNoMatch(s, 0, 6);
    var sp := Specifier([37, 115], [], [], [], Default, 's');  // "%s"
    StringAndPercentInvalid(host, buf, at, sp);
    FirstSpecifierThrows(host, s, buf, at, 6, sp);
  }

  // ------------------------------------------------------------ "%5"

  /** A "%" and a width with no conversion after them is no match. */
  lemma TrailingWidthScan(s: Text)
    requires s == [37, 53]  // "%5"
    ensures forall k :: 0 <= k < |s| ==> MatchAt(s, k) == None
  {
    assert FlagsEnd(s, 1) == 1;
    assert DigitsEnd(s, 1) == 2;
    assert WidthEnd(s, 1) == 2;
    assert PrecisionEnd(s, 2) == Some(2);
    NoModifierAtEnd(s, 2);
    assert CutAt(s, 0) == None;
    NoMatchWithoutPercent(s, 1);
  }

  /** A trailing "%5" is no specifier: it is copied and nothing is read. */
  lemma TrailingWidthCopied(host: Host, s: Text, buf: Buffer, at: int)
    requires s == [37, 53]  // "%5"
    ensures Format(host, s, buf, at) == Done([37, 53], at)  // "%5"
  {
    TrailingWidthScan(s);
    UnmatchedCopied(host, s, buf, at);
  }

  // ------------------------------------------------------------ "%5d"

  /** "%5d" is a match of the pattern with a width. */
  lemma WidthScan5(s: Text)
    requires s == [37, 53, 100]  // "%5d"
    ensures MatchAt(s, 0).Some? && MatchAt(s, 0).value.text == s && !MatchAt(s, 0).value.Bare()
  {
    assert ModifierAt(s, 2, 2) by {
      assert SpelledAt(s, 2, Spelling(Default));
    }
    assert PatternAt(s, 0, 1, 2, 2, 2);
    MatchAtComplete(s, 0, 1, 2, 2, 2);
    CutAtComplete(s, 0, 1, 2, 2, 2);
    MatchAtSound(s, 0);
    assert s[0..3] == s;
  }

  /** `printf("%5d", 1)`: a width is an "Unsupported format specifier", and
      nothing is read. */
  lemma WidthIsUnsupported(host: Host, s: Text, buf: Buffer, at: int)
    requires s == [37, 53, 100]  // "%5d"
    ensures Format(host, s, buf, at) == Threw(Unsupported(s), at)
  {
    WidthScan5(s);
    var sp := MatchAt(s, 0).value;
    FirstSpecifierThrows(host, s, buf, at, 0, sp);
  }
}
