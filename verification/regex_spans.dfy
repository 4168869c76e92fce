/**
 * `parseRegEx` of lib/utils.js. The JavaScript tokenizer it calls is not part
 * of this model: its output is an input here, either the token list or an
 * opaque lexing error.
 */
module RegexSpans {
  import opened Wrappers
  import opened Spans

  /** The token types the tokenizer reports. */
  datatype TokenKind =
    | BooleanLiteral | Identifier | Keyword | NullLiteral | Numeric
    | Punctuator | StringLiteral | RegularExpression | Template

  /** A token with its half-open source range `[rangeStart, rangeEnd)`. */
  datatype Token = Token(kind: TokenKind, rangeStart: int, rangeEnd: int)

  /** The tokenizer rejected the input; the error carries no detail here. */
  datatype LexError = LexError

  /** Tokens come in source order and do not overlap. */
  predicate TokensOrdered(tokens: seq<Token>) {
    (forall i :: 0 <= i < |tokens| ==> tokens[i].rangeStart <= tokens[i].rangeEnd) &&
    (forall i, j :: 0 <= i < j < |tokens| ==> tokens[i].rangeEnd <= tokens[j].rangeStart)
  }

  /** Offset `p` lies after the opening slash and before the end of some regular-expression token. */
  predicate InsideRegexToken(tokens: seq<Token>, p: int) {
    exists i :: 0 <= i < |tokens| && tokens[i].kind == RegularExpression &&
      tokens[i].rangeStart < p < tokens[i].rangeEnd
  }

  /**
   * The interval recorded for one token: `{start: range[0] + 1, end: range[1] - 1}`.
   * Read as a closed interval, it holds every offset of the token except the first.
   */
  function Interior(t: Token): (iv: Interval)
    ensures forall p :: Within(iv, p) <==> t.rangeStart < p < t.rangeEnd
  {
    Interval(t.rangeStart + 1, t.rangeEnd - 1)
  }

  /** The tokenizer callback applied to each token in turn: regular expressions are pushed, the rest dropped. */
  function RegexIntervals(tokens: seq<Token>): seq<Interval> {
    if |tokens| == 0 then []
    else if tokens[0].kind == RegularExpression then [Interior(tokens[0])] + RegexIntervals(tokens[1..])
    else RegexIntervals(tokens[1..])
  }

  /**
   * The indices of the regular-expression tokens, in increasing order; the
   * reference selection that `RegexIntervals` is measured against.
   */
  function RegexPositions(tokens: seq<Token>): (ps: seq<nat>)
    ensures forall k :: 0 <= k < |ps| ==> ps[k] < |tokens| && tokens[ps[k]].kind == RegularExpression
    ensures forall k, l :: 0 <= k < l < |ps| ==> ps[k] < ps[l]
    ensures forall i :: 0 <= i < |tokens| && tokens[i].kind == RegularExpression ==> i in ps
  {
    if |tokens| == 0 then []
    else
      var last := |tokens| - 1;
      RegexPositions(tokens[..last]) + (if tokens[last].kind == RegularExpression then [last] else [])
  }

  /** `parseRegEx`: a lexing error propagates; otherwise the regular-expression intervals in token order. */
  function ParseRegEx(lexed: Result<seq<Token>, LexError>): (r: Result<seq<Interval>, LexError>)
    ensures r.Failure? <==> lexed.Failure?
    ensures r.Success? ==> forall p :: Contains(r.value, p) <==> InsideRegexToken(lexed.value, p)
    ensures r.Success? && TokensOrdered(lexed.value) ==> Ordered(r.value)
  {
    match lexed
    case Failure(e) => Failure(e)
    case Success(tokens) =>
      RegexIntervalsContains(tokens);
      RegexIntervalsOrdered(tokens);
      Success(RegexIntervals(tokens))
  }

  lemma {:induction false} RegexIntervalsAppend(a: seq<Token>, b: seq<Token>)
    ensures RegexIntervals(a + b) == RegexIntervals(a) + RegexIntervals(b)
  {
    if |a| == 0 {
      assert a + b == b;
    } else {
      assert (a + b)[1..] == a[1..] + b;
      RegexIntervalsAppend(a[1..], b);
    }
  }

  /** The k-th interval is the interior of the k-th regular-expression token: order and count are kept. */
  lemma {:induction false} RegexIntervalsSelect(tokens: seq<Token>)
    ensures |RegexIntervals(tokens)| == |RegexPositions(tokens)|
    ensures forall k :: 0 <= k < |RegexPositions(tokens)| ==>
      RegexIntervals(tokens)[k] == Interior(tokens[RegexPositions(tokens)[k]])
  {
    if |tokens| > 0 {
      var last := |tokens| - 1;
      var init := tokens[..last];
      assert tokens == init + [tokens[last]];
      RegexIntervalsSelect(init);
      RegexIntervalsAppend(init, [tokens[last]]);
      assert [tokens[last]][1..] == [];
      var ps := RegexPositions(tokens);
      var r := RegexIntervals(tokens);
      forall k | 0 <= k < |ps|
        ensures r[k] == Interior(tokens[ps[k]])
      {
        if k < |RegexPositions(init)| {
          assert tokens[ps[k]] == init[ps[k]];
        }
      }
    }
  }

  /** One offset: covered by the intervals exactly when inside some regular-expression token past its opening slash. */
  lemma {:induction false} RegexIntervalsContainsAt(tokens: seq<Token>, p: int)
    ensures Contains(RegexIntervals(tokens), p) <==> InsideRegexToken(tokens, p)
  {
    RegexIntervalsSelect(tokens);
    var ps := RegexPositions(tokens);
    var r := RegexIntervals(tokens);
    if Contains(r, p) {
      var k :| 0 <= k < |r| && Within(r[k], p);
      assert Within(Interior(tokens[ps[k]]), p);
    }
    if InsideRegexToken(tokens, p) {
      var i :| 0 <= i < |tokens| && tokens[i].kind == RegularExpression &&
        tokens[i].rangeStart < p < tokens[i].rangeEnd;
      var k :| 0 <= k < |ps| && ps[k] == i;
      assert Within(r[k], p);
    }
  }

  /** An offset is covered by the intervals exactly when it lies past the opening slash of some regular-expression token. */
  lemma {:induction false} RegexIntervalsContains(tokens: seq<Token>)
    ensures forall p :: Contains(RegexIntervals(tokens), p) <==> InsideRegexToken(tokens, p)
  {
    forall p
      ensures Contains(RegexIntervals(tokens), p) <==> InsideRegexToken(tokens, p)
    {
      RegexIntervalsContainsAt(tokens, p);
    }
  }

  /** Ordered tokens give ordered intervals, as the binary search needs. */
  lemma {:induction false} RegexIntervalsOrdered(tokens: seq<Token>)
    ensures TokensOrdered(tokens) ==> Ordered(RegexIntervals(tokens))
  {
    RegexIntervalsSelect(tokens);
    var ps := RegexPositions(tokens);
    var r := RegexIntervals(tokens);
    forall k, l | 0 <= k < l < |r| && TokensOrdered(tokens)
      ensures r[k].start <= r[l].start && r[k].end < r[l].start
    {
      assert r[k] == Interior(tokens[ps[k]]);
      assert r[l] == Interior(tokens[ps[l]]);
    }
  }

  /**
   * For a regular-expression token of at least two characters, its last
   * character (the closing slash or the last flag) is covered and its opening
   * slash is not.
   */
  lemma {:induction false} RegexDelimiters(tokens: seq<Token>, i: nat)
    requires TokensOrdered(tokens)
    requires i < |tokens| && tokens[i].kind == RegularExpression
    requires tokens[i].rangeEnd - tokens[i].rangeStart >= 2
    ensures Contains(RegexIntervals(tokens), tokens[i].rangeEnd - 1)
    ensures !Contains(RegexIntervals(tokens), tokens[i].rangeStart)
  {
    RegexIntervalsContains(tokens);
  }
}
