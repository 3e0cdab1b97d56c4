/**
 * `String.prototype.replace` with a global pattern and a replacer callback,
 * over the tokens of the text: literals are kept, every match is handed to
 * the callback together with the walker offset its argument is read from,
 * and the callback's text is put in its place. The callback may throw; the
 * exception then ends the whole call.
 *
 * The callback is a parameter here, so that nothing in this module depends
 * on what a particular callback does.
 */
module Substitution {
  import opened Wrappers
  import opened Numerals
  import opened SpecifierGrammar
  import opened Tokens

  /** The exceptions a callback throws: "Unsupported format specifier",
      "Invalid format specifier" (a SyntaxError), and the RangeError of a
      read outside the buffer. */
  datatype Failure = Unsupported(spec: Text) | Invalid(spec: Text) | RangeError

  /** A call's result and the walker offset it leaves; an exception carries
      the offset the walker is at when it propagates. */
  datatype Outcome = Done(text: Text, next: int) | Threw(error: Failure, next: int)

  /** The callback: a match and the offset of its argument give its text. */
  type Replacer = (int, Specifier) -> Outcome

  /** The replacement of one token: a literal is kept, a match handed over. */
  function Replace(apply: Replacer, at: int, t: Token): Outcome
  {
    match t
    case Literal(u) => Done([u], at)
    case Directive(sp) => apply(at, sp)
  }

  /** Text `t` put in front of what an outcome wrote. */
  function Prepend(t: Text, r: Outcome): Outcome
  {
    match r
    case Done(rest, next) => Done(t + rest, next)
    case Threw(e, next) => Threw(e, next)
  }

  /** The tokens replaced left to right, each match reading where the one
      before stopped; the first exception ends the whole call. Literals never
      throw, so only a match can. */
  function Interpret(apply: Replacer, toks: seq<Token>, at: int): (r: Outcome)
    ensures r.Threw? ==> exists k :: 0 <= k < |toks| && toks[k].Directive?
    decreases |toks|
  {
    if toks == [] then Done([], at)
    else
      match Replace(apply, at, toks[0])
      case Threw(e, next) => Threw(e, next)
      case Done(t, next) => Prepend(t, Interpret(apply, toks[1..], next))
  }

  /** Carry on with the tokens `b` after an outcome: an exception stops,
      otherwise `b` is interpreted from where it stopped. */
  function AndThen(apply: Replacer, r: Outcome, b: seq<Token>): Outcome
  {
    match r
    case Threw(e, stop) => Threw(e, stop)
    case Done(t, stop) => Prepend(t, Interpret(apply, b, stop))
  }

  lemma PrependThen(apply: Replacer, t: Text, r: Outcome, b: seq<Token>)
    ensures AndThen(apply, Prepend(t, r), b) == Prepend(t, AndThen(apply, r, b))
  {
    if r.Done? {
      var rest := Interpret(apply, b, r.next);
      if rest.Done? {
        assert (t + r.text) + rest.text == t + (r.text + rest.text);
      }
    }
  }

  /** Interpreting two runs of tokens one after the other is interpreting
      them joined. */
  lemma {:induction false} InterpretAppend(apply: Replacer, a: seq<Token>, b: seq<Token>, at: int)
    ensures Interpret(apply, a + b, at) == AndThen(apply, Interpret(apply, a, at), b)
    decreases |a|
  {
    if a == [] {
      assert a + b == b;
      var r := Interpret(apply, b, at);
      if r.Done? {
        assert [] + r.text == r.text;
      }
    } else {
      assert (a + b)[0] == a[0];
      assert (a + b)[1..] == a[1..] + b;
      var first := Replace(apply, at, a[0]);
      if first.Done? {
        InterpretAppend(apply, a[1..], b, first.next);
        PrependThen(apply, first.text, Interpret(apply, a[1..], first.next), b);
      }
    }
  }

  /** The first token whose replacement throws decides the outcome: nothing
      after it is read. */
  lemma FirstFailureWins(apply: Replacer, before: seq<Token>, t: Token, after: seq<Token>, at: int)
    requires Interpret(apply, before, at).Done?
    requires Replace(apply, Interpret(apply, before, at).next, t).Threw?
    ensures Interpret(apply, before + [t] + after, at) == Replace(apply, Interpret(apply, before, at).next, t)
  {
    InterpretAppend(apply, before, [t] + after, at);
    assert before + [t] + after == before + ([t] + after);
    assert ([t] + after)[0] == t;
  }

  /** Plain text is copied as it is and reads nothing. */
  lemma {:induction false} InterpretLiterals(apply: Replacer, t: Text, at: int)
    ensures Interpret(apply, Literals(t), at) == Done(t, at)
    decreases |t|
  {
    if t != [] {
      var toks := Literals(t);
      assert toks[1..] == Literals(t[1..]);
      InterpretLiterals(apply, t[1..], at);
      assert [t[0]] + t[1..] == t;
    }
  }

  /** Plain text put around what an outcome wrote. */
  function Surround(pre: Text, r: Outcome, post: Text): Outcome
  {
    match r
    case Done(t, next) => Done(pre + t + post, next)
    case Threw(e, next) => Threw(e, next)
  }

  /** Text, one match, text: the match's replacement between the two texts. */
  lemma InterpretOne(apply: Replacer, toks: seq<Token>, pre: Text, sp: Specifier, post: Text, at: int)
    requires toks == Literals(pre) + ([Directive(sp)] + Literals(post))
    ensures Interpret(apply, toks, at) == Surround(pre, apply(at, sp), post)
  {
    InterpretAppend(apply, Literals(pre), [Directive(sp)] + Literals(post), at);
    InterpretLiterals(apply, pre, at);
    var r := apply(at, sp);
    assert ([Directive(sp)] + Literals(post))[1..] == Literals(post);
    if r.Done? {
      InterpretLiterals(apply, post, r.next);
      assert pre + (r.text + post) == pre + r.text + post;
    }
  }

  /** Text whose only match starts at `i`: the text around it is copied and
      the match's replacement put between. */
  lemma OnlyMatch(apply: Replacer, s: Text, found: seq<Option<Specifier>>, at: int, i: nat, sp: Specifier)
    requires Spans(s, found) && i < |s| && found[i] == Some(sp)
    requires forall k :: 0 <= k < i ==> found[k] == None
    requires forall k :: i + |sp.text| <= k < |s| ==> found[k] == None
    ensures Interpret(apply, Tokenize(s, found, 0), at) == Surround(s[0..i], apply(at, sp), s[i + |sp.text|..])
  {
    var e := i + |sp.text|;
    TokenizeFirstMatch(s, found, 0, i);
    TokenizeNoMatch(s, found, e);
    InterpretOne(apply, Tokenize(s, found, 0), s[0..i], sp, s[e..], at);
  }

  /** Text, a match that throws, anything: the match's exception. */
  lemma ThrowsAfterText(apply: Replacer, toks: seq<Token>, pre: Text, sp: Specifier, after: seq<Token>, at: int)
    requires toks == Literals(pre) + ([Directive(sp)] + after)
    requires apply(at, sp).Threw?
    ensures Interpret(apply, toks, at) == apply(at, sp)
  {
    InterpretAppend(apply, Literals(pre), [Directive(sp)] + after, at);
    InterpretLiterals(apply, pre, at);
    assert ([Directive(sp)] + after)[0] == Directive(sp);
  }

  /** Text whose first match starts at `i` and throws: that exception is the
      outcome, whatever follows. */
  lemma FirstMatchThrows(apply: Replacer, s: Text, found: seq<Option<Specifier>>, at: int, i: nat, sp: Specifier)
    requires Spans(s, found) && i < |s| && found[i] == Some(sp)
    requires forall k :: 0 <= k < i ==> found[k] == None
    requires apply(at, sp).Threw?
    ensures Interpret(apply, Tokenize(s, found, 0), at) == apply(at, sp)
  {
    TokenizeFirstMatch(s, found, 0, i);
    ThrowsAfterText(apply, Tokenize(s, found, 0), s[0..i], sp, Tokenize(s, found, i + |sp.text|), at);
  }

  /** Text without matches is copied as it is and reads nothing. */
  lemma NoMatchCopied(apply: Replacer, s: Text, found: seq<Option<Specifier>>, at: int)
    requires Spans(s, found)
    requires forall k :: 0 <= k < |s| ==> found[k] == None
    ensures Interpret(apply, Tokenize(s, found, 0), at) == Done(s, at)
  {
    TokenizeNoMatch(s, found, 0);
    assert s[0..] == s;
    InterpretLiterals(apply, s, at);
  }
}
