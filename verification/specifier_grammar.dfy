/**
 * The conversion-specifier pattern of the formatter,
 *
 *   "%" flags* width? precision? length? conversion
 *
 * with flags from "-+ 0'#", width digits or "*", precision "." then digits or
 * "*", the length alternatives tried in the order hh, h, l, ll, L, z, j, t, I,
 * I32, I64, q, and one conversion character from "%diufFeEgGxXoscpaA".
 *
 * `MatchAt` is a direct scanner for it. `PatternAt` states the pattern as a
 * relation on positions, and the scanner is proved sound and complete for it.
 * The scanner takes the longest flag, width and precision runs; whether a
 * match has any flag, width or precision does not depend on how it is split
 * (`MatchAtComplete`), and every such match is rejected whole, so the
 * backtracking order among those three parts never changes the outcome. The
 * length alternatives are tried in the pattern's order and one is kept only
 * when a conversion character follows it, as backtracking does.
 */
module SpecifierGrammar {
  import opened Wrappers
  import opened Numerals
  import opened SpecifierTable

  predicate IsFlag(u: CodeUnit)
  {
    u == '-' as int || u == '+' as int || u == ' ' as int || u == '0' as int || u == '\'' as int || u == '#' as int
  }

  predicate IsDecimalDigit(u: CodeUnit)
  {
    '0' as int <= u <= '9' as int
  }

  /** A unit of one of the conversion characters "%diufFeEgGxXoscpaA". */
  predicate IsConversion(u: CodeUnit)
  {
    || u == '%' as int || u == 'd' as int || u == 'i' as int || u == 'u' as int
    || u == 'f' as int || u == 'F' as int || u == 'e' as int || u == 'E' as int
    || u == 'g' as int || u == 'G' as int || u == 'x' as int || u == 'X' as int
    || u == 'o' as int || u == 's' as int || u == 'c' as int || u == 'p' as int
    || u == 'a' as int || u == 'A' as int
  }

  /** The conversion character a conversion unit stands for. */
  function ConversionChar(u: CodeUnit): (c: char)
    requires IsConversion(u)
    ensures c as int == u
  {
    u as char
  }

  /** The first unit of a nonempty length modifier. */
  predicate IsModifierHead(u: CodeUnit)
  {
    u == 'h' as int || u == 'l' as int || u == 'L' as int || u == 'z' as int
    || u == 'j' as int || u == 't' as int || u == 'I' as int || u == 'q' as int
  }

  /** The character `c` is at position `k` of `s`. */
  predicate At(s: Text, k: nat, c: char)
  {
    k < |s| && s[k] == c as int
  }

  predicate ConversionAt(s: Text, k: nat)
  {
    k < |s| && IsConversion(s[k])
  }

  // ------------------------------------------------------------ the pattern

  /** Flag characters span [a, b). */
  predicate FlagsAt(s: Text, a: nat, b: nat)
  {
    a <= b <= |s| && forall x :: a <= x < b ==> IsFlag(s[x])
  }

  /** Decimal digits span [a, b). */
  predicate DigitsAt(s: Text, a: nat, b: nat)
  {
    a <= b <= |s| && forall x :: a <= x < b ==> IsDecimalDigit(s[x])
  }

  /** The optional width, digits or "*", spans [f, w). */
  predicate WidthAt(s: Text, f: nat, w: nat)
  {
    (w == f + 1 && At(s, f, '*')) || DigitsAt(s, f, w)
  }

  /** The optional precision, "." then digits or "*", spans [w, p). */
  predicate PrecisionAt(s: Text, w: nat, p: nat)
  {
    || p == w
    || (At(s, w, '.') && ((p == w + 2 && At(s, w + 1, '*')) || (w + 2 <= p && DigitsAt(s, w + 1, p))))
  }

  /** The ASCII word `word` is spelled at `p`. */
  predicate SpelledAt(s: Text, p: nat, word: string)
  {
    p + |word| <= |s| && forall k :: 0 <= k < |word| ==> s[p + k] == word[k] as int
  }

  /** Some length modifier, possibly the omitted one, spans [p, m). */
  predicate ModifierAt(s: Text, p: nat, m: nat)
  {
    exists l: Length :: m == p + |Spelling(l)| && SpelledAt(s, p, Spelling(l))
  }

  /** A match of the pattern at `i`: flags in [i+1, f), width in [f, w),
      precision in [w, p), length modifier in [p, m), conversion at m. */
  predicate PatternAt(s: Text, i: nat, f: nat, w: nat, p: nat, m: nat)
  {
    && At(s, i, '%')
    && i + 1 <= f
    && FlagsAt(s, i + 1, f)
    && WidthAt(s, f, w)
    && PrecisionAt(s, w, p)
    && ModifierAt(s, p, m)
    && ConversionAt(s, m)
  }

  // ------------------------------------------------------------ the scanner

  /** The end of the run of flag characters that starts at `j`. */
  function FlagsEnd(s: Text, j: nat): (k: nat)
    requires j <= |s|
    ensures j <= k <= |s|
    decreases |s| - j
  {
    if j == |s| || !IsFlag(s[j]) then j else FlagsEnd(s, j + 1)
  }

  /** `FlagsEnd` stops at the first unit that is no flag. */
  lemma {:induction false} FlagsEndRun(s: Text, j: nat)
    requires j <= |s|
    ensures FlagsAt(s, j, FlagsEnd(s, j))
    ensures FlagsEnd(s, j) == |s| || !IsFlag(s[FlagsEnd(s, j)])
    decreases |s| - j
  {
    if j < |s| && IsFlag(s[j]) {
      FlagsEndRun(s, j + 1);
    }
  }

  /** The end of the run of decimal digits that starts at `j`. */
  function DigitsEnd(s: Text, j: nat): (k: nat)
    requires j <= |s|
    ensures j <= k <= |s|
    decreases |s| - j
  {
    if j == |s| || !IsDecimalDigit(s[j]) then j else DigitsEnd(s, j + 1)
  }

  /** `DigitsEnd` stops at the first unit that is no digit. */
  lemma {:induction false} DigitsEndRun(s: Text, j: nat)
    requires j <= |s|
    ensures DigitsAt(s, j, DigitsEnd(s, j))
    ensures DigitsEnd(s, j) == |s| || !IsDecimalDigit(s[DigitsEnd(s, j)])
    decreases |s| - j
  {
    if j < |s| && IsDecimalDigit(s[j]) {
      DigitsEndRun(s, j + 1);
    }
  }

  /** Where the width starting at `f` ends: after the longest run of digits,
      after a "*", or at `f` when there is none. */
  function WidthEnd(s: Text, f: nat): (w: nat)
    requires f <= |s|
    ensures f <= w <= |s|
  {
    if f < |s| && IsDecimalDigit(s[f]) then DigitsEnd(s, f)
    else if At(s, f, '*') then f + 1
    else f
  }

  lemma WidthEndSpans(s: Text, f: nat)
    requires f <= |s|
    ensures WidthAt(s, f, WidthEnd(s, f))
  {
    DigitsEndRun(s, f);
  }

  /** Where the precision starting at `w` ends; `None` when a "." is followed
      by neither a digit nor a "*", which nothing in the pattern accepts. */
  function PrecisionEnd(s: Text, w: nat): (r: Option<nat>)
    requires w <= |s|
    ensures r.Some? ==> w <= r.value <= |s|
  {
    if At(s, w, '.') then
      if w + 1 < |s| && IsDecimalDigit(s[w + 1]) then Some(DigitsEnd(s, w + 1))
      else if At(s, w + 1, '*') then Some(w + 2)
      else None
    else Some(w)
  }

  lemma PrecisionEndSpans(s: Text, w: nat)
    requires w <= |s|
    ensures PrecisionEnd(s, w).Some? ==> PrecisionAt(s, w, PrecisionEnd(s, w).value)
  {
    if w + 1 < |s| {
      DigitsEndRun(s, w + 1);
    }
  }

  /** Modifier `l` is spelled at `p` and a conversion character follows it. */
  predicate Fits(s: Text, p: nat, l: Length)
  {
    SpelledAt(s, p, Spelling(l)) && ConversionAt(s, p + |Spelling(l)|)
  }

  /** The index of the first alternative at or after `k` that fits at `p`. */
  function FirstFit(s: Text, p: nat, k: nat): (r: Option<nat>)
    requires k <= |ALTERNATIVES|
    ensures r.Some? ==> (
      && k <= r.value < |ALTERNATIVES|
      && Fits(s, p, ALTERNATIVES[r.value])
      && forall j :: k <= j < r.value ==> !Fits(s, p, ALTERNATIVES[j])
    )
    ensures r.None? ==> forall j :: k <= j < |ALTERNATIVES| ==> !Fits(s, p, ALTERNATIVES[j])
    decreases |ALTERNATIVES| - k
  {
    if k == |ALTERNATIVES| then None
    else if Fits(s, p, ALTERNATIVES[k]) then Some(k)
    else FirstFit(s, p, k + 1)
  }

  /** The length modifier settled on at `p`: the first alternative, in the
      pattern's order, that is followed by a conversion character, else the
      omitted one when a conversion character is at `p` itself. This is the
      choice a backtracking regular expression makes. */
  function Modifier(s: Text, p: nat): (r: Option<Length>)
    ensures r.Some? ==> ConversionAt(s, p + |Spelling(r.value)|)
  {
    match FirstFit(s, p, 0)
    case Some(k) => Some(ALTERNATIVES[k])
    case None => if ConversionAt(s, p) then Some(Default) else None
  }

  /** The modifier chosen fits; when none is, nothing fits; the omitted one
      is chosen only when no alternative fits. */
  lemma ModifierChoice(s: Text, p: nat)
    ensures Modifier(s, p).Some? ==> Fits(s, p, Modifier(s, p).value)
    ensures Modifier(s, p).None? ==>
      !Fits(s, p, Default) && forall j :: 0 <= j < |ALTERNATIVES| ==> !Fits(s, p, ALTERNATIVES[j])
    ensures Modifier(s, p) == Some(Default) ==> forall j :: 0 <= j < |ALTERNATIVES| ==> !Fits(s, p, ALTERNATIVES[j])
  {
    match FirstFit(s, p, 0)
    case Some(k) =>
      assert ALTERNATIVES[k] != Default;
    case None =>
      if ConversionAt(s, p) {
        assert SpelledAt(s, p, Spelling(Default));
      }
  }

  datatype Specifier = Specifier(
    text: Text,
    flags: Text,
    width: Text,
    precision: Text,
    length: Length,
    conversion: char)
  {
    /** No flag, width or precision: the only form the formatter supports. */
    predicate Bare()
    {
      flags == [] && width == [] && precision == []
    }
  }

  /** Where the parts of a match end: flags at `f`, width at `w`, precision
      at `p`, and the modifier `l` that starts at `p`. */
  datatype Cut = Cut(f: nat, w: nat, p: nat, l: Length)
  {
    /** Where the conversion character is. */
    function Conversion(): nat
    {
      p + |Spelling(l)|
    }
  }

  /** The specifier cut from `s` at `i` as `c` says: the text from the "%"
      through the conversion character, and its flags, width and precision. */
  function Split(s: Text, i: nat, c: Cut): (sp: Specifier)
    requires i + 1 <= c.f <= c.w <= c.p && ConversionAt(s, c.Conversion())
    ensures 2 <= |sp.text| && i + |sp.text| <= |s| && |sp.text| == c.Conversion() + 1 - i
    ensures sp.text == s[i..i + |sp.text|]
  {
    var m := c.Conversion();
    Specifier(s[i..m + 1], s[i + 1..c.f], s[c.f..c.w], s[c.w..c.p], c.l, ConversionChar(s[m]))
  }

  /** Where the scanner cuts a match that starts at `i`, if one does. */
  function CutAt(s: Text, i: nat): (r: Option<Cut>)
    requires i <= |s|
    ensures r.Some? ==> At(s, i, '%') && i + 1 <= r.value.f <= r.value.w <= r.value.p && ConversionAt(s, r.value.Conversion())
  {
    if At(s, i, '%') then
      var f := FlagsEnd(s, i + 1);
      var w := WidthEnd(s, f);
      match PrecisionEnd(s, w)
      case None => None
      case Some(p) =>
        match Modifier(s, p)
        case None => None
        case Some(l) => Some(Cut(f, w, p, l))
    else None
  }

  /** The specifier the pattern matches starting exactly at `i`, if any; a
      match runs from the "%" through the conversion character. */
  function MatchAt(s: Text, i: nat): (r: Option<Specifier>)
    requires i <= |s|
    ensures r.Some? ==> 2 <= |r.value.text| && r.value.text[0] == '%' as int
  {
    match CutAt(s, i)
    case None => None
    case Some(c) => Some(Split(s, i, c))
  }

  /** A match is a piece of the text of at least two units starting at `i`. */
  lemma MatchAtSpan(s: Text, i: nat)
    requires i <= |s|
    ensures
      var r := MatchAt(s, i);
      r.Some? ==> 2 <= |r.value.text| && i + |r.value.text| <= |s| && r.value.text == s[i..i + |r.value.text|]
  {
  }

  /** Where the scanner cuts, the pattern matches with exactly those parts. */
  lemma CutAtSound(s: Text, i: nat)
    requires i <= |s| && CutAt(s, i).Some?
    ensures
      var c := CutAt(s, i).value;
      PatternAt(s, i, c.f, c.w, c.p, c.Conversion())
  {
    var f := FlagsEnd(s, i + 1);
    FlagsEndRun(s, i + 1);
    var w := WidthEnd(s, f);
    WidthEndSpans(s, f);
    var p := PrecisionEnd(s, w).value;
    PrecisionEndSpans(s, w);
    var l := Modifier(s, p).value;
    ModifierChoice(s, p);
    assert ModifierAt(s, p, p + |Spelling(l)|);
  }

  /** What the scanner finds is a match of the pattern, split where the
      scanner cuts it. */
  lemma MatchAtSound(s: Text, i: nat)
    requires i <= |s| && MatchAt(s, i).Some?
    ensures CutAt(s, i).Some?
    ensures
      var c := CutAt(s, i).value;
      && PatternAt(s, i, c.f, c.w, c.p, c.Conversion())
      && MatchAt(s, i).value == Split(s, i, c)
  {
    CutAtSound(s, i);
  }

  // ------------------------------------------------------------ completeness

  /** What may follow a width: a precision's ".", a modifier or a conversion. */
  predicate AfterWidth(u: CodeUnit)
  {
    u == '.' as int || IsModifierHead(u) || IsConversion(u)
  }

  lemma AfterWidthIsNoWidth(u: CodeUnit)
    requires AfterWidth(u)
    ensures !IsFlag(u) && !IsDecimalDigit(u) && u != '*' as int
  {
  }

  /** A modifier followed by a conversion starts with a modifier letter or is
      the conversion itself. */
  lemma ModifierStart(s: Text, p: nat, m: nat)
    requires ModifierAt(s, p, m) && ConversionAt(s, m)
    ensures IsModifierHead(s[p]) || IsConversion(s[p])
  {
    var l :| m == p + |Spelling(l)| && SpelledAt(s, p, Spelling(l));
    if l != Default {
      assert s[p] == Spelling(l)[0] as int;
    }
  }

  /** The scanner's flag run and width end where some match's width ends. */
  lemma WidthScan(s: Text, i: nat, f: nat, w: nat, p: nat, m: nat)
    requires PatternAt(s, i, f, w, p, m)
    ensures f <= FlagsEnd(s, i + 1) <= w
    ensures WidthEnd(s, FlagsEnd(s, i + 1)) == w
  {
    ModifierStart(s, p, m);
    var k := FlagsEnd(s, i + 1);
    FlagsEndRun(s, i + 1);
    // s[w] ends the width: it is a ".", a modifier's first letter or a conversion
    assert AfterWidth(s[w]);
    AfterWidthIsNoWidth(s[w]);
    if !At(s, f, '*') || w != f + 1 {
      if k < w {
        DigitsEndRun(s, k);
      }
    }
  }

  /** The scanner's precision ends where some match's precision ends. */
  lemma PrecisionScan(s: Text, i: nat, f: nat, w: nat, p: nat, m: nat)
    requires PatternAt(s, i, f, w, p, m)
    ensures PrecisionEnd(s, w) == Some(p)
  {
    ModifierStart(s, p, m);
    if p != w && !At(s, w + 1, '*') {
      DigitsEndRun(s, w + 1);
      assert !IsDecimalDigit(s[p]);
    }
  }

  /** Whenever some modifier fits, one is settled on. */
  lemma FitsChosen(s: Text, p: nat, l: Length)
    requires Fits(s, p, l)
    ensures Modifier(s, p).Some?
  {
    ModifierChoice(s, p);
    if l != Default {
      var j := AlternativeIndex(l);
      assert Fits(s, p, ALTERNATIVES[j]);
    }
  }

  /** Some modifier is settled on wherever a match's modifier starts. */
  lemma ModifierScan(s: Text, p: nat, m: nat)
    requires ModifierAt(s, p, m) && ConversionAt(s, m)
    ensures Modifier(s, p).Some?
  {
    var l :| m == p + |Spelling(l)| && SpelledAt(s, p, Spelling(l));
    assert Fits(s, p, l);
    FitsChosen(s, p, l);
  }

  /** No unit of a spelled modifier is a conversion character: every one of
      them is a letter or a digit outside "%diufFeEgGxXoscpaA". */
  lemma NoConversionInside(s: Text, p: nat, l: Length)
    requires SpelledAt(s, p, Spelling(l))
    ensures forall k :: p <= k < p + |Spelling(l)| ==> !ConversionAt(s, k)
  {
    forall k | p <= k < p + |Spelling(l)|
      ensures !ConversionAt(s, k)
    {
      assert s[k] == Spelling(l)[k - p] as int;
    }
  }

  /** At most one modifier is followed by a conversion character, so where a
      match's modifier starts decides where its conversion is. */
  lemma FitsUnique(s: Text, p: nat, a: Length, b: Length)
    requires Fits(s, p, a) && Fits(s, p, b)
    ensures |Spelling(a)| == |Spelling(b)|
  {
    NoConversionInside(s, p, a);
    NoConversionInside(s, p, b);
  }

  /** The modifier settled on at `p` ends where a match's modifier ends. */
  lemma ModifierEnd(s: Text, p: nat, m: nat)
    requires ModifierAt(s, p, m) && ConversionAt(s, m)
    ensures Modifier(s, p).Some? && p + |Spelling(Modifier(s, p).value)| == m
  {
    var l :| m == p + |Spelling(l)| && SpelledAt(s, p, Spelling(l));
    assert Fits(s, p, l);
    ChosenFitEnd(s, p, l);
  }

  lemma ChosenFitEnd(s: Text, p: nat, l: Length)
    requires Fits(s, p, l)
    ensures Modifier(s, p).Some? && |Spelling(Modifier(s, p).value)| == |Spelling(l)|
  {
    FitsChosen(s, p, l);
    ModifierChoice(s, p);
    FitsUnique(s, p, l, Modifier(s, p).value);
  }

  /** Wherever the pattern matches, the scanner cuts the match so that its
      width and precision end where the match's do, and its conversion is
      the match's conversion. */
  lemma CutAtComplete(s: Text, i: nat, f: nat, w: nat, p: nat, m: nat)
    requires PatternAt(s, i, f, w, p, m)
    ensures CutAt(s, i).Some?
    ensures f <= CutAt(s, i).value.f && CutAt(s, i).value.w == w && CutAt(s, i).value.p == p
    ensures CutAt(s, i).value.Conversion() == m
  {
    WidthScan(s, i, f, w, p, m);
    PrecisionScan(s, i, f, w, p, m);
    ModifierEnd(s, p, m);
  }

  /** Every match of the pattern at `i` is found by the scanner, it runs
      through the same conversion character, and it has a flag, width or
      precision exactly when the scanner's match has one. */
  lemma MatchAtComplete(s: Text, i: nat, f: nat, w: nat, p: nat, m: nat)
    requires PatternAt(s, i, f, w, p, m)
    ensures MatchAt(s, i).Some?
    ensures |MatchAt(s, i).value.text| == m + 1 - i
    ensures MatchAt(s, i).value.Bare() <==> (f == i + 1 && p == f)
  {
    CutAtComplete(s, i, f, w, p, m);
  }

  /** No match starts where there is no "%". */
  lemma NoMatchWithoutPercent(s: Text, i: nat)
    requires i <= |s| && !At(s, i, '%')
    ensures MatchAt(s, i) == None
  {
  }

  /** The omitted modifier is chosen when a conversion character follows at
      once: every alternative starts with a unit that is no conversion. */
  lemma DefaultModifier(s: Text, p: nat)
    requires ConversionAt(s, p)
    ensures Modifier(s, p) == Some(Default)
  {
    assert !IsModifierHead(s[p]);
    forall j | 0 <= j < |ALTERNATIVES|
      ensures !Fits(s, p, ALTERNATIVES[j])
    {
      var word := Spelling(ALTERNATIVES[j]);
      assert IsModifierHead(word[0] as int);
    }
  }

  /** Nothing is settled on at the end of the text: no conversion follows. */
  lemma NoModifierAtEnd(s: Text, p: nat)
    requires p == |s|
    ensures Modifier(s, p) == None
  {
  }

  /** A nonempty modifier is chosen when it fits and no alternative tried
      before it does. */
  lemma ChosenModifier(s: Text, p: nat, l: Length)
    requires l != Default && Fits(s, p, l)
    requires forall j :: 0 <= j < AlternativeIndex(l) ==> !Fits(s, p, ALTERNATIVES[j])
    ensures Modifier(s, p) == Some(l)
  {
    var k := AlternativeIndex(l);
    assert FirstFit(s, p, 0).Some?;
  }

  /** A "%" followed by a modifier and a conversion, with no flag, width or
      precision between, is cut right after the "%". */
  lemma BareCut(s: Text, i: nat, l: Length)
    requires At(s, i, '%') && i + 1 < |s|
    requires !IsFlag(s[i + 1]) && !IsDecimalDigit(s[i + 1]) && s[i + 1] != '*' as int && s[i + 1] != '.' as int
    requires Modifier(s, i + 1) == Some(l)
    ensures CutAt(s, i) == Some(Cut(i + 1, i + 1, i + 1, l))
  {
    assert FlagsEnd(s, i + 1) == i + 1;
    assert WidthEnd(s, i + 1) == i + 1;
  }

  lemma MatchAtCut(s: Text, i: nat, c: Cut)
    requires i <= |s| && CutAt(s, i) == Some(c)
    ensures MatchAt(s, i) == Some(Split(s, i, c))
  {
  }

  /** Cut right after the "%", a match has no flag, width or precision. */
  lemma SplitBare(s: Text, i: nat, l: Length, m: nat)
    requires m == i + 1 + |Spelling(l)| && ConversionAt(s, m)
    ensures Split(s, i, Cut(i + 1, i + 1, i + 1, l)) == Specifier(s[i..m + 1], [], [], [], l, ConversionChar(s[m]))
  {
    var sp := Split(s, i, Cut(i + 1, i + 1, i + 1, l));
    assert sp.flags == [] && sp.width == [] && sp.precision == [];
  }

  /** A "%" followed by the modifier `l` and the conversion at `m`, with no
      flag, width or precision between, is matched bare up to `m`. */
  lemma BareMatch(s: Text, i: nat, l: Length, m: nat)
    requires At(s, i, '%') && i + 1 < |s|
    requires !IsFlag(s[i + 1]) && !IsDecimalDigit(s[i + 1]) && s[i + 1] != '*' as int && s[i + 1] != '.' as int
    requires Modifier(s, i + 1) == Some(l) && m == i + 1 + |Spelling(l)|
    ensures ConversionAt(s, m)
    ensures MatchAt(s, i) == Some(Specifier(s[i..m + 1], [], [], [], l, ConversionChar(s[m])))
  {
    BareCut(s, i, l);
    BareSplitAt(s, i, l, m);
  }

  /** Cut right after the "%", the match is the text through the conversion. */
  lemma BareSplitAt(s: Text, i: nat, l: Length, m: nat)
    requires m == i + 1 + |Spelling(l)| && ConversionAt(s, m)
    requires CutAt(s, i) == Some(Cut(i + 1, i + 1, i + 1, l))
    ensures MatchAt(s, i) == Some(Specifier(s[i..m + 1], [], [], [], l, ConversionChar(s[m])))
  {
    MatchAtCut(s, i, Cut(i + 1, i + 1, i + 1, l));
    SplitBare(s, i, l, m);
  }

  /** A "%" directly followed by a conversion character is a bare specifier
      with the omitted modifier. */
  lemma PlainConversion(s: Text, i: nat)
    requires At(s, i, '%') && ConversionAt(s, i + 1)
    ensures MatchAt(s, i) == Some(Specifier([s[i], s[i + 1]], [], [], [], Default, ConversionChar(s[i + 1])))
  {
    DefaultModifier(s, i + 1);
    BareMatch(s, i, Default, i + 1);
    TwoUnits(s, i);
  }

  lemma TwoUnits(s: Text, i: nat)
    requires i + 2 <= |s|
    ensures s[i..i + 2] == [s[i], s[i + 1]]
  {
  }

  /** No "%" in [a, b) of `s`. */
  predicate PercentFree(s: Text, a: nat, b: nat)
    requires a <= b <= |s|
  {
    forall k :: a <= k < b ==> s[k] != '%' as int
  }

  /** No match starts in a stretch without "%". */
  lemma PercentFreeNoMatch(s: Text, a: nat, b: nat)
    requires a <= b <= |s| && PercentFree(s, a, b)
    ensures forall k :: a <= k < b ==> MatchAt(s, k) == None
  {
    forall k | a <= k < b
      ensures MatchAt(s, k) == None
    {
      NoMatchWithoutPercent(s, k);
    }
  }

  /** Pieces without "%" stay without "%" when text is put between them. */
  lemma PercentFreeAround(pre: Text, mid: Text, post: Text)
    requires PercentFree(pre, 0, |pre|) && PercentFree(post, 0, |post|)
    ensures
      var s := pre + mid + post;
      && PercentFree(s, 0, |pre|) && PercentFree(s, |pre| + |mid|, |s|)
      && s[0..|pre|] == pre && s[|pre| + |mid|..] == post
  {
    var s := pre + mid + post;
    var e := |pre| + |mid|;
    assert s[0..|pre|] == pre && s[e..] == post;
    assert forall k :: e <= k < |s| ==> s[k] == post[k - e];
  }
}
