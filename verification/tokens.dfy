/**
 * The format string cut into the pieces the global replace sees: every
 * leftmost, non-overlapping match of the specifier pattern becomes a
 * directive, and every code unit outside a match is kept as a literal.
 * `String.prototype.replace` finds all matches before it calls the replacer,
 * and the replacer cannot change what matches, so finding the directives
 * first and interpreting them afterwards is the same computation.
 *
 * Whether a match starts at a position does not depend on the matches found
 * before it, so the scanner's verdict at every position (`Scan`) is computed
 * up front and the cutting works from those verdicts.
 */
module Tokens {
  import opened Wrappers
  import opened Numerals
  import opened SpecifierGrammar

  datatype Token = Literal(unit: CodeUnit) | Directive(spec: Specifier)

  /** The text a token stands for in the format string. */
  function Source(t: Token): Text
  {
    match t
    case Literal(u) => [u]
    case Directive(sp) => sp.text
  }

  function Join(toks: seq<Token>): Text
  {
    if toks == [] then [] else Source(toks[0]) + Join(toks[1..])
  }

  /** The tokens of plain text, one literal per code unit. */
  function Literals(t: Text): (toks: seq<Token>)
    ensures |toks| == |t|
    ensures forall k :: 0 <= k < |t| ==> toks[k] == Literal(t[k])
  {
    seq(|t|, k requires 0 <= k < |t| => Literal(t[k]))
  }

  /** `found[k]` is a match starting at `k` or nothing, and every match
      ends inside `s` after at least two units. */
  predicate Spans(s: Text, found: seq<Option<Specifier>>)
  {
    && |found| == |s|
    && forall k :: 0 <= k < |s| && found[k].Some? ==> 2 <= |found[k].value.text| <= |s| - k
  }

  /** Besides, every match is the piece of `s` it covers. */
  predicate Verdicts(s: Text, found: seq<Option<Specifier>>)
  {
    && Spans(s, found)
    && forall k :: 0 <= k < |s| && found[k].Some? ==> found[k].value.text == s[k..k + |found[k].value.text|]
  }

  /** The scanner's verdict at every position of `s`. */
  function Scan(s: Text): (found: seq<Option<Specifier>>)
    ensures Verdicts(s, found)
    ensures forall k :: 0 <= k < |s| ==> found[k] == MatchAt(s, k)
  {
    forall k | 0 <= k < |s| {
      MatchAtSpan(s, k);
    }
    seq(|s|, k requires 0 <= k < |s| => MatchAt(s, k))
  }

  /** The token at `i`: the match there, or else the code unit there. */
  function Head(s: Text, found: seq<Option<Specifier>>, i: nat): Token
    requires Spans(s, found) && i < |s|
  {
    if found[i].Some? then Directive(found[i].value) else Literal(s[i])
  }

  /** Where the token at `i` ends. */
  function Next(s: Text, found: seq<Option<Specifier>>, i: nat): (n: nat)
    requires Spans(s, found) && i < |s|
    ensures i < n <= |s|
  {
    if found[i].Some? then i + |found[i].value.text| else i + 1
  }

  /** The tokens of `s` from `i` on, cut where the verdicts say: each covers
      at least one code unit, and a directive only where a match starts. */
  function Tokenize(s: Text, found: seq<Option<Specifier>>, i: nat): (toks: seq<Token>)
    requires Spans(s, found) && i <= |s|
    ensures |toks| <= |s| - i
    ensures (exists k :: 0 <= k < |toks| && toks[k].Directive?) ==> exists k :: i <= k < |s| && found[k].Some?
    decreases |s| - i
  {
    if i == |s| then [] else [Head(s, found, i)] + Tokenize(s, found, Next(s, found, i))
  }

  /** Token `t` is what the verdicts give at `at`: a directive exactly where
      a match starts, otherwise the code unit there. */
  predicate TokenAt(s: Text, found: seq<Option<Specifier>>, at: nat, t: Token)
    requires |found| == |s|
  {
    && at < |s|
    && match t
       case Literal(u) => u == s[at] && found[at] == None
       case Directive(sp) => found[at] == Some(sp)
  }

  lemma JoinCons(t: Token, rest: seq<Token>, k: nat)
    requires k <= |rest|
    ensures ([t] + rest)[..k + 1] == [t] + rest[..k]
    ensures |Join([t] + rest[..k])| == |Source(t)| + |Join(rest[..k])|
  {
    assert ([t] + rest[..k])[1..] == rest[..k];
  }

  /** The token at `i` is what the verdict there says and covers the text up
      to where the next one starts. */
  lemma HeadCovers(s: Text, found: seq<Option<Specifier>>, i: nat)
    requires Spans(s, found) && i < |s|
    ensures TokenAt(s, found, i, Head(s, found, i))
    ensures Next(s, found, i) == i + |Source(Head(s, found, i))|
    ensures Verdicts(s, found) ==> Source(Head(s, found, i)) == s[i..Next(s, found, i)]
  {
  }

  /** A token covering `s[i..n]` followed by tokens joining to `s[n..]`. */
  lemma JoinPrepend(s: Text, i: nat, n: nat, t: Token, rest: seq<Token>)
    requires i <= n <= |s|
    requires Source(t) == s[i..n] && Join(rest) == s[n..]
    ensures Join([t] + rest) == s[i..]
  {
    assert ([t] + rest)[1..] == rest;
    assert s[i..] == s[i..n] + s[n..];
  }

  /** Joined back together, the tokens give the text: nothing is lost or
      repeated, so text outside the matches is copied unchanged. */
  lemma {:induction false} TokenizeJoins(s: Text, found: seq<Option<Specifier>>, i: nat)
    requires Verdicts(s, found) && i <= |s|
    ensures Join(Tokenize(s, found, i)) == s[i..]
    decreases |s| - i
  {
    if i < |s| {
      var n := Next(s, found, i);
      HeadCovers(s, found, i);
      TokenizeJoins(s, found, n);
      JoinPrepend(s, i, n, Head(s, found, i), Tokenize(s, found, n));
    }
  }

  /** Every token of `toks` is what the verdicts give where the text of the
      tokens before it, laid from `at` on, ends. */
  predicate Placed(s: Text, found: seq<Option<Specifier>>, at: nat, toks: seq<Token>)
    requires |found| == |s|
  {
    forall k :: 0 <= k < |toks| ==> TokenAt(s, found, at + |Join(toks[..k])|, toks[k])
  }

  lemma PlacedTail(s: Text, found: seq<Option<Specifier>>, at: nat, t: Token, rest: seq<Token>, k: nat)
    requires |found| == |s| && 0 < k <= |rest|
    requires Placed(s, found, at + |Source(t)|, rest)
    ensures TokenAt(s, found, at + |Join(([t] + rest)[..k])|, ([t] + rest)[k])
  {
    JoinCons(t, rest, k - 1);
    assert TokenAt(s, found, at + |Source(t)| + |Join(rest[..k - 1])|, rest[k - 1]);
  }

  lemma PlacedCons(s: Text, found: seq<Option<Specifier>>, at: nat, t: Token, rest: seq<Token>)
    requires |found| == |s|
    requires TokenAt(s, found, at, t)
    requires Placed(s, found, at + |Source(t)|, rest)
    ensures Placed(s, found, at, [t] + rest)
  {
    var toks := [t] + rest;
    forall k | 0 <= k < |toks|
      ensures TokenAt(s, found, at + |Join(toks[..k])|, toks[k])
    {
      if k == 0 {
        assert toks[..0] == [];
      } else {
        PlacedTail(s, found, at, t, rest, k);
      }
    }
  }

  /** Each token sits where the text before it ends, and is what the verdict
      there says: the matches are taken leftmost first and never overlap. */
  lemma {:induction false} TokenizeLeftmost(s: Text, found: seq<Option<Specifier>>, i: nat)
    requires Spans(s, found) && i <= |s|
    ensures Placed(s, found, i, Tokenize(s, found, i))
    decreases |s| - i
  {
    if i < |s| {
      HeadCovers(s, found, i);
      TokenizeLeftmost(s, found, Next(s, found, i));
      PlacedCons(s, found, i, Head(s, found, i), Tokenize(s, found, Next(s, found, i)));
    }
  }

  lemma LiteralsSlice(s: Text, i: nat, j: nat)
    requires i < j <= |s|
    ensures Literals(s[i..j]) == [Literal(s[i])] + Literals(s[i + 1..j])
  {
  }

  /** Where no match starts, every code unit is a literal. */
  lemma {:induction false} TokenizeSkipsPlainText(s: Text, found: seq<Option<Specifier>>, i: nat, j: nat)
    requires Spans(s, found) && i <= j <= |s|
    requires forall k :: i <= k < j ==> found[k] == None
    ensures Tokenize(s, found, i) == Literals(s[i..j]) + Tokenize(s, found, j)
    decreases j - i
  {
    if i < j {
      TokenizeSkipsPlainText(s, found, i + 1, j);
      LiteralsSlice(s, i, j);
    } else {
      assert Literals(s[i..j]) == [];
    }
  }

  /** The tokens from `j` on of text whose next match starts at `i`. */
  lemma TokenizeFirstMatch(s: Text, found: seq<Option<Specifier>>, j: nat, i: nat)
    requires Spans(s, found) && j <= i < |s| && found[i].Some?
    requires forall k :: j <= k < i ==> found[k] == None
    ensures Tokenize(s, found, j) ==
      Literals(s[j..i]) + ([Directive(found[i].value)] + Tokenize(s, found, i + |found[i].value.text|))
  {
    TokenizeSkipsPlainText(s, found, j, i);
  }

  /** The tokens of text with no match from `i` on. */
  lemma TokenizeNoMatch(s: Text, found: seq<Option<Specifier>>, i: nat)
    requires Spans(s, found) && i <= |s|
    requires forall k :: i <= k < |s| ==> found[k] == None
    ensures Tokenize(s, found, i) == Literals(s[i..])
  {
    TokenizeSkipsPlainText(s, found, i, |s|);
    assert Literals(s[i..|s|]) + [] == Literals(s[i..]);
  }
}
