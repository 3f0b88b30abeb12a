/**
 * The grammar of header values, and that the character machine accepts exactly its language and
 * returns exactly the slices of a derivation.
 *
 *     header = param *("," param)
 *     param  = pair *(";" pair)
 *     pair   = *WSP 1*namechar *WSP "=" *WSP (1*valuechar / DQUOTE 1*quotedchar DQUOTE) *WSP
 */
module HeaderGrammar {
  import opened Ece
  import opened HeaderParser

  /** The parts of a pair in a header, by position. Without the quotes, if the value has any. */
  datatype PairSpan = PairSpan(
    start: nat, nameStart: nat, nameEnd: nat, equals: nat,
    quoted: bool, valueStart: nat, valueEnd: nat, end: nat)

  predicate Spaces(h: string, i: nat, j: nat) {
    i <= j <= |h| && forall k :: i <= k < j ==> IsSpace(h[k])
  }

  predicate NameChars(h: string, i: nat, j: nat) {
    i <= j <= |h| && forall k :: i <= k < j ==> IsNameChar(h[k])
  }

  predicate ValueChars(h: string, i: nat, j: nat) {
    i <= j <= |h| && forall k :: i <= k < j ==> IsValueChar(h[k])
  }

  predicate QuotedChars(h: string, i: nat, j: nat) {
    i <= j <= |h| && forall k :: i <= k < j ==> IsQuotedValueChar(h[k])
  }

  predicate IsPair(h: string, s: PairSpan) {
    && Spaces(h, s.start, s.nameStart)
    && s.nameStart < s.nameEnd && NameChars(h, s.nameStart, s.nameEnd)
    && Spaces(h, s.nameEnd, s.equals)
    && s.equals < |h| && h[s.equals] == '='
    && s.valueStart < s.valueEnd
    && if s.quoted then
      && s.equals + 1 < s.valueStart
      && Spaces(h, s.equals + 1, s.valueStart - 1)
      && QuotedChars(h, s.valueStart, s.valueEnd)
      && h[s.valueStart - 1] == '\"'
      && s.valueEnd < |h| && h[s.valueEnd] == '\"'
      && Spaces(h, s.valueEnd + 1, s.end)
    else
      && Spaces(h, s.equals + 1, s.valueStart)
      && ValueChars(h, s.valueStart, s.valueEnd)
      && Spaces(h, s.valueEnd, s.end)
  }

  /** Pairs separated by ';', from `start` up to the end of the last one. */
  predicate IsParam(h: string, pairs: seq<PairSpan>, start: nat) {
    && pairs != []
    && IsPair(h, pairs[0]) && pairs[0].start == start
    && (|pairs| > 1 ==>
          && pairs[0].end < |h| && h[pairs[0].end] == ';'
          && IsParam(h, pairs[1..], pairs[0].end + 1))
  }

  function EndOf(pairs: seq<PairSpan>): nat
    requires pairs != []
  {
    pairs[|pairs| - 1].end
  }

  /** Parameters separated by ',', from `start` up to the end of the header. */
  predicate IsHeader(h: string, params: seq<seq<PairSpan>>, start: nat) {
    params != [] && IsParam(h, params[0], start) && Continues(h, params[1..], EndOf(params[0]))
  }

  /** At `end` the header is over, or a ',' and more parameters follow. */
  predicate Continues(h: string, more: seq<seq<PairSpan>>, end: nat)
    decreases |more|, 0
  {
    if more == [] then end == |h|
    else
      && end < |h| && h[end] == ','
      && IsParam(h, more[0], end + 1) && Continues(h, more[1..], EndOf(more[0]))
  }

  function Slice(s: PairSpan): Pair
    requires s.nameStart <= s.nameEnd && s.valueStart <= s.valueEnd
  {
    Pair(s.nameStart, s.nameEnd - s.nameStart, s.valueStart, s.valueEnd - s.valueStart)
  }

  predicate Ordered(pairs: seq<PairSpan>) {
    forall s :: s in pairs ==> s.nameStart <= s.nameEnd && s.valueStart <= s.valueEnd
  }

  /** The pairs of a parameter, last first. */
  function SlicesBackward(pairs: seq<PairSpan>): seq<Pair>
    requires Ordered(pairs)
  {
    if pairs == [] then [] else SlicesBackward(pairs[1..]) + [Slice(pairs[0])]
  }

  /** The parameters in order. */
  function Slices(params: seq<seq<PairSpan>>): seq<seq<Pair>>
    requires forall pairs :: pairs in params ==> Ordered(pairs)
  {
    if params == [] then [] else [SlicesBackward(params[0])] + Slices(params[1..])
  }

  lemma {:induction false} ParamOrdered(h: string, pairs: seq<PairSpan>, start: nat)
    requires IsParam(h, pairs, start)
    ensures Ordered(pairs)
  {
    if |pairs| > 1 {
      ParamOrdered(h, pairs[1..], pairs[0].end + 1);
      assert forall s :: s in pairs ==> s == pairs[0] || s in pairs[1..];
    }
  }

  lemma {:induction false} MoreOrdered(h: string, more: seq<seq<PairSpan>>, end: nat)
    requires Continues(h, more, end)
    ensures forall pairs :: pairs in more ==> Ordered(pairs)
  {
    if more != [] {
      ParamOrdered(h, more[0], end + 1);
      MoreOrdered(h, more[1..], EndOf(more[0]));
      assert forall pairs :: pairs in more ==> pairs == more[0] || pairs in more[1..];
    }
  }

  lemma HeaderOrdered(h: string, params: seq<seq<PairSpan>>)
    requires IsHeader(h, params, 0)
    ensures forall pairs :: pairs in params ==> Ordered(pairs)
  {
    ParamOrdered(h, params[0], 0);
    MoreOrdered(h, params[1..], EndOf(params[0]));
    assert forall pairs :: pairs in params ==> pairs == params[0] || pairs in params[1..];
  }

  /** What the machine makes of the header from position `i` on. */
  function Outcome(p: Parser, h: string, i: nat): Option<seq<seq<Pair>>>
    requires p.Ready() && i <= |h|
  {
    Finish(Run(p, h, i))
  }

  lemma {:induction false} RunSpaces(p: Parser, h: string, i: nat, j: nat)
    requires p.Ready() && p.state in {BeginName, EndName, BeginValue, EndValue}
    requires Spaces(h, i, j)
    ensures Run(p, h, i) == Run(p, h, j)
    decreases j - i
  {
    if i < j {
      RunSpaces(p, h, i + 1, j);
    }
  }

  function AddName(params: seq<seq<Pair>>, n: nat): seq<seq<Pair>>
    requires params != [] && params[0] != []
  {
    var pair := params[0][0];
    SetPair(params, pair.(nameLen := pair.nameLen + n))
  }

  function AddValue(params: seq<seq<Pair>>, n: nat): seq<seq<Pair>>
    requires params != [] && params[0] != []
  {
    var pair := params[0][0];
    SetPair(params, pair.(valueLen := pair.valueLen + n))
  }

  lemma AddTwice(params: seq<seq<Pair>>, m: nat, n: nat)
    requires params != [] && params[0] != []
    ensures AddName(AddName(params, m), n) == AddName(params, m + n)
    ensures AddValue(AddValue(params, m), n) == AddValue(params, m + n)
    ensures AddName(params, 0) == params && AddValue(params, 0) == params
  {
    var pair := params[0][0];
    SetTwice(params, pair.(nameLen := pair.nameLen + m), pair.(nameLen := pair.nameLen + (m + n)));
    SetTwice(params, pair.(valueLen := pair.valueLen + m), pair.(valueLen := pair.valueLen + (m + n)));
    assert params[0][0 := pair] == params[0];
    assert params[0 := params[0]] == params;
  }

  lemma SetTwice(params: seq<seq<Pair>>, a: Pair, b: Pair)
    requires params != [] && params[0] != []
    ensures SetPair(params, a)[0][0] == a
    ensures SetPair(SetPair(params, a), b) == SetPair(params, b)
  {
    assert params[0][0 := a][0 := b] == params[0][0 := b];
    assert params[0 := params[0][0 := a]][0 := params[0][0 := b]] == params[0 := params[0][0 := b]];
  }

  lemma {:induction false} RunName(p: Parser, h: string, i: nat, j: nat)
    requires p.Ready() && p.state == Name && NameChars(h, i, j)
    ensures Run(p, h, i) == Run(p.(params := AddName(p.params, j - i)), h, j)
    decreases j - i
  {
    hide Run, AddName, AddValue;
    AddTwice(p.params, 1, if i < j then j - i - 1 else 0);
    if i < j {
      OneMore(p, h, i);
      RunName(p.(params := AddName(p.params, 1)), h, i + 1, j);
    }
  }

  /** One more character of a name or value. */
  lemma {:induction false} OneMore(p: Parser, h: string, i: nat)
    requires p.Ready() && i < |h| && p.state in {Name, Value, QuotedValue}
    ensures p.(params := AddName(p.params, 1)).Ready() && p.(params := AddValue(p.params, 1)).Ready()
    ensures p.state == Name && IsNameChar(h[i]) ==>
      Run(p, h, i) == Run(p.(params := AddName(p.params, 1)), h, i + 1)
    ensures p.state == Value && IsValueChar(h[i]) ==>
      Run(p, h, i) == Run(p.(params := AddValue(p.params, 1)), h, i + 1)
    ensures p.state == QuotedValue && IsQuotedValueChar(h[i]) ==>
      Run(p, h, i) == Run(p.(params := AddValue(p.params, 1)), h, i + 1)
  {
    hide SetPair, Run;
    if Parse(p, h[i], i).1 {
      RunOn(p, h, i);
    }
  }

  lemma {:induction false} RunOn(p: Parser, h: string, i: nat)
    requires p.Ready() && i < |h| && p.state != InvalidHeader && Parse(p, h[i], i).1
    ensures Run(p, h, i) == Run(Parse(p, h[i], i).0, h, i + 1)
  {
    hide Parse;
  }

  lemma {:induction false} RunValue(p: Parser, h: string, i: nat, j: nat)
    requires p.Ready() && p.state == Value && ValueChars(h, i, j)
    ensures Run(p, h, i) == Run(p.(params := AddValue(p.params, j - i)), h, j)
    decreases j - i
  {
    hide Run, AddName, AddValue;
    AddTwice(p.params, 1, if i < j then j - i - 1 else 0);
    if i < j {
      OneMore(p, h, i);
      RunValue(p.(params := AddValue(p.params, 1)), h, i + 1, j);
    }
  }

  lemma {:induction false} RunQuoted(p: Parser, h: string, i: nat, j: nat)
    requires p.Ready() && p.state == QuotedValue && QuotedChars(h, i, j)
    ensures Run(p, h, i) == Run(p.(params := AddValue(p.params, j - i)), h, j)
    decreases j - i
  {
    hide Run, AddName, AddValue;
    AddTwice(p.params, 1, if i < j then j - i - 1 else 0);
    if i < j {
      OneMore(p, h, i);
      RunQuoted(p.(params := AddValue(p.params, 1)), h, i + 1, j);
    }
  }

  /** The lists of the machine within the pair at `pair`. */
  function WithPair(pair: Pair, head: seq<Pair>, params: seq<seq<Pair>>): seq<seq<Pair>> {
    [[pair] + head] + params
  }

  lemma SetWithPair(pair: Pair, head: seq<Pair>, params: seq<seq<Pair>>, other: Pair)
    ensures SetPair(WithPair(pair, head, params), other) == WithPair(other, head, params)
  {
    assert ([pair] + head)[0 := other] == [other] + head;
  }

  /** The machine reads a name, up to the '='. */
  lemma RunThroughName(h: string, s: PairSpan, head: seq<Pair>, params: seq<seq<Pair>>)
    requires IsPair(h, s)
    ensures Run(Parser(BeginName, [head] + params), h, s.start)
         == Run(Parser(BeginValue, WithPair(Pair(s.nameStart, s.nameEnd - s.nameStart, 0, 0), head, params)), h,
                s.equals + 1)
  {
    hide Run, SetPair;
    var empty := WithPair(Pair(s.nameStart, 0, 0, 0), head, params);
    var named := WithPair(Pair(s.nameStart, s.nameEnd - s.nameStart, 0, 0), head, params);
    RunSpaces(Parser(BeginName, [head] + params), h, s.start, s.nameStart);
    NameBegins(h, s.nameStart, head, params);
    RunName(Parser(Name, empty), h, s.nameStart, s.nameEnd);
    SetWithPair(Pair(s.nameStart, 0, 0, 0), head, params, Pair(s.nameStart, s.nameEnd - s.nameStart, 0, 0));
    NameEnds(h, s.nameEnd, named);
    RunSpaces(Parser(EndName, named), h, s.nameEnd, s.equals);
    EqualsRead(h, s.equals, named);
  }

  lemma NameBegins(h: string, i: nat, head: seq<Pair>, params: seq<seq<Pair>>)
    requires i < |h| && IsNameChar(h[i])
    ensures Run(Parser(BeginName, [head] + params), h, i)
         == Run(Parser(Name, WithPair(Pair(i, 0, 0, 0), head, params)), h, i)
  {
    assert ([head] + params)[0 := [Pair(i, 0, 0, 0)] + head] == WithPair(Pair(i, 0, 0, 0), head, params);
  }

  lemma NameEnds(h: string, i: nat, params: seq<seq<Pair>>)
    requires i < |h| && (IsSpace(h[i]) || h[i] == '=') && params != [] && params[0] != []
    ensures Run(Parser(Name, params), h, i) == Run(Parser(EndName, params), h, i)
  {
  }

  lemma EqualsRead(h: string, i: nat, params: seq<seq<Pair>>)
    requires i < |h| && h[i] == '=' && params != [] && params[0] != []
    ensures Run(Parser(EndName, params), h, i) == Run(Parser(BeginValue, params), h, i + 1)
  {
  }

  /** A pair ends where the header does, or at a separator. */
  predicate Terminated(h: string, s: PairSpan) {
    s.end == |h| || (s.end < |h| && h[s.end] in {';', ','})
  }

  lemma ValueBegins(h: string, i: nat, named: Pair, head: seq<Pair>, params: seq<seq<Pair>>)
    requires i < |h| && IsValueChar(h[i])
    ensures Run(Parser(BeginValue, WithPair(named, head, params)), h, i)
         == Run(Parser(Value, WithPair(named.(valueStart := i), head, params)), h, i)
  {
    SetWithPair(named, head, params, named.(valueStart := i));
  }

  lemma QuoteOpens(h: string, i: nat, named: Pair, head: seq<Pair>, params: seq<seq<Pair>>)
    requires i + 1 < |h| && h[i] == '\"' && IsQuotedValueChar(h[i + 1]) && named.valueLen == 0
    ensures Run(Parser(BeginValue, WithPair(named, head, params)), h, i)
         == Run(Parser(QuotedValue, WithPair(named.(valueStart := i + 1, valueLen := 1), head, params)), h, i + 2)
  {
    var p := Parser(BeginQuotedValue, WithPair(named, head, params));
    assert Run(Parser(BeginValue, WithPair(named, head, params)), h, i) == Run(p, h, i + 1);
    SetWithPair(named, head, params, named.(valueStart := i + 1, valueLen := 1));
  }

  lemma QuoteCloses(h: string, i: nat, params: seq<seq<Pair>>)
    requires i < |h| && h[i] == '\"' && params != [] && params[0] != []
    ensures Run(Parser(QuotedValue, params), h, i) == Run(Parser(EndValue, params), h, i + 1)
  {
  }

  /** A value ends before a space or a separator, or with the header. */
  lemma ValueEnds(h: string, i: nat, params: seq<seq<Pair>>)
    requires params != [] && params[0] != []
    requires i == |h| || (i < |h| && (IsSpace(h[i]) || h[i] in {';', ','}))
    ensures Outcome(Parser(Value, params), h, i) == Outcome(Parser(EndValue, params), h, i)
  {
  }

  /** The machine reads an unquoted value, which may end with the header. */
  lemma RunThroughValue(h: string, s: PairSpan, head: seq<Pair>, params: seq<seq<Pair>>)
    requires IsPair(h, s) && Terminated(h, s) && !s.quoted
    ensures Outcome(Parser(BeginValue, WithPair(Pair(s.nameStart, s.nameEnd - s.nameStart, 0, 0), head, params)), h,
                    s.equals + 1)
         == Outcome(Parser(EndValue, WithPair(Slice(s), head, params)), h, s.end)
  {
    hide Run, Parse, Finish;
    var named := Pair(s.nameStart, s.nameEnd - s.nameStart, 0, 0);
    var begun := named.(valueStart := s.valueStart);
    RunSpaces(Parser(BeginValue, WithPair(named, head, params)), h, s.equals + 1, s.valueStart);
    ValueBegins(h, s.valueStart, named, head, params);
    RunValue(Parser(Value, WithPair(begun, head, params)), h, s.valueStart, s.valueEnd);
    SetWithPair(begun, head, params, Slice(s));
    ValueEnds(h, s.valueEnd, WithPair(Slice(s), head, params));
    RunSpaces(Parser(EndValue, WithPair(Slice(s), head, params)), h, s.valueEnd, s.end);
  }

  lemma RunThroughQuotedValue(h: string, s: PairSpan, head: seq<Pair>, params: seq<seq<Pair>>)
    requires IsPair(h, s) && s.quoted
    ensures Run(Parser(BeginValue, WithPair(Pair(s.nameStart, s.nameEnd - s.nameStart, 0, 0), head, params)), h,
                s.equals + 1)
         == Run(Parser(EndValue, WithPair(Slice(s), head, params)), h, s.end)
  {
    hide Run, Parse;
    var named := Pair(s.nameStart, s.nameEnd - s.nameStart, 0, 0);
    var begun := named.(valueStart := s.valueStart, valueLen := 1);
    RunSpaces(Parser(BeginValue, WithPair(named, head, params)), h, s.equals + 1, s.valueStart - 1);
    QuoteOpens(h, s.valueStart - 1, named, head, params);
    RunQuoted(Parser(QuotedValue, WithPair(begun, head, params)), h, s.valueStart + 1, s.valueEnd);
    SetWithPair(begun, head, params, Slice(s));
    QuoteCloses(h, s.valueEnd, WithPair(Slice(s), head, params));
    RunSpaces(Parser(EndValue, WithPair(Slice(s), head, params)), h, s.valueEnd + 1, s.end);
  }

  /** The machine reads a pair: its slices are added in front. */
  lemma PairOutcome(h: string, s: PairSpan, head: seq<Pair>, params: seq<seq<Pair>>)
    requires IsPair(h, s) && Terminated(h, s)
    ensures Outcome(Parser(BeginName, [head] + params), h, s.start)
         == Outcome(Parser(EndValue, WithPair(Slice(s), head, params)), h, s.end)
  {
    hide IsPair, Run;
    RunThroughName(h, s, head, params);
    if s.quoted {
      RunThroughQuotedValue(h, s, head, params);
    } else {
      RunThroughValue(h, s, head, params);
    }
  }

  /** What follows a pair, in the machine: nothing, another pair, or another parameter. */
  lemma AfterPair(h: string, end: nat, params: seq<seq<Pair>>)
    requires end <= |h| && params != [] && params[0] != []
    ensures end == |h| ==> Outcome(Parser(EndValue, params), h, end) == Some(params)
    ensures end < |h| && h[end] == ';' ==>
      Outcome(Parser(EndValue, params), h, end) == Outcome(Parser(BeginName, params), h, end + 1)
    ensures end < |h| && h[end] == ',' ==>
      Outcome(Parser(EndValue, params), h, end) == Outcome(Parser(BeginParam, params), h, end + 1)
  {
  }

  lemma NewParam(h: string, i: nat, params: seq<seq<Pair>>)
    requires i <= |h|
    ensures Outcome(Parser(BeginParam, params), h, i) == if i < |h| then Outcome(Parser(BeginName, [[]] + params), h, i)
      else None
  {
  }

  /** The machine accepts what derives from the grammar, with the slices of the derivation. */
  lemma {:induction false} Accepts(h: string, pairs: seq<PairSpan>, more: seq<seq<PairSpan>>, start: nat,
                                   head: seq<Pair>, params: seq<seq<Pair>>)
    requires IsParam(h, pairs, start) && Continues(h, more, EndOf(pairs))
    ensures start < |h| && Ordered(pairs) && forall ps :: ps in more ==> Ordered(ps)
    ensures Outcome(Parser(BeginName, [head] + params), h, start)
         == Some(Reverse(Slices(more)) + [SlicesBackward(pairs) + head] + params)
    decreases |more|, |pairs|
  {
    hide Outcome, IsPair, Ordered, Reverse, Slices, SlicesBackward;
    ParamOrdered(h, pairs, start);
    MoreOrdered(h, more, EndOf(pairs));
    var s := pairs[0];
    PairBounds(h, s);
    var next := WithPair(Slice(s), head, params);
    PairOutcome(h, s, head, params);
    AfterPair(h, s.end, next);
    FirstSlice(pairs, head);
    if |pairs| > 1 {
      Accepts(h, pairs[1..], more, s.end + 1, [Slice(s)] + head, params);
    } else {
      FirstSlices(more);
      if more == [] {
        assert [] + [[Slice(s)] + head] + params == next;
      } else {
        NewParam(h, s.end + 1, next);
        Accepts(h, more[0], more[1..], s.end + 1, [], next);
        assert SlicesBackward(more[0]) + [] == SlicesBackward(more[0]);
        Regroup(Reverse(Slices(more[1..])), SlicesBackward(more[0]), [Slice(s)] + head, params);
      }
    }
  }

  lemma {:induction false} FirstSlice(pairs: seq<PairSpan>, head: seq<Pair>)
    requires pairs != [] && Ordered(pairs)
    ensures pairs[0].nameStart <= pairs[0].nameEnd && pairs[0].valueStart <= pairs[0].valueEnd && Ordered(pairs[1..])
    ensures SlicesBackward(pairs[1..]) + ([Slice(pairs[0])] + head) == SlicesBackward(pairs) + head
    ensures |pairs| == 1 ==> SlicesBackward(pairs) == [Slice(pairs[0])]
  {
    assert pairs[0] in pairs && forall s :: s in pairs[1..] ==> s in pairs;
  }

  lemma {:induction false} FirstSlices(more: seq<seq<PairSpan>>)
    requires forall pairs :: pairs in more ==> Ordered(pairs)
    ensures more == [] ==> Reverse(Slices(more)) == []
    ensures more != [] ==> Reverse(Slices(more)) == Reverse(Slices(more[1..])) + [SlicesBackward(more[0])]
  {
    hide Ordered, SlicesBackward;
  }

  lemma Regroup<T>(before: seq<T>, x: T, y: T, after: seq<T>)
    ensures before + [x] + ([y] + after) == before + [x] + [y] + after
  {
  }

  lemma PairBounds(h: string, s: PairSpan)
    requires IsPair(h, s)
    ensures s.start < s.end <= |h| && s.nameStart < s.nameEnd && s.valueStart < s.valueEnd
  {
  }

  lemma SpanSpaces(h: string, i: nat) returns (j: nat)
    requires i <= |h|
    ensures Spaces(h, i, j) && (j < |h| ==> !IsSpace(h[j]))
  {
    j := i;
    while j < |h| && IsSpace(h[j])
      invariant Spaces(h, i, j)
    {
      j := j + 1;
    }
  }

  lemma SpanName(h: string, i: nat) returns (j: nat)
    requires i <= |h|
    ensures NameChars(h, i, j) && (j < |h| ==> !IsNameChar(h[j]))
  {
    j := i;
    while j < |h| && IsNameChar(h[j])
      invariant NameChars(h, i, j)
    {
      j := j + 1;
    }
  }

  lemma SpanValue(h: string, i: nat) returns (j: nat)
    requires i <= |h|
    ensures ValueChars(h, i, j) && (j < |h| ==> !IsValueChar(h[j]))
  {
    j := i;
    while j < |h| && IsValueChar(h[j])
      invariant ValueChars(h, i, j)
    {
      j := j + 1;
    }
  }

  lemma SpanQuoted(h: string, i: nat) returns (j: nat)
    requires i <= |h|
    ensures QuotedChars(h, i, j) && (j < |h| ==> !IsQuotedValueChar(h[j]))
  {
    j := i;
    while j < |h| && IsQuotedValueChar(h[j])
      invariant QuotedChars(h, i, j)
    {
      j := j + 1;
    }
  }

  /** The machine accepts in these states only before certain characters. */
  lemma AcceptsBefore(p: Parser, h: string, i: nat)
    requires p.Ready() && i <= |h| && Outcome(p, h, i).Some?
    ensures p.state in {BeginParam, BeginName, Name, EndName, BeginValue, BeginQuotedValue, QuotedValue} ==> i < |h|
    ensures i < |h| ==>
      match p.state
      case BeginName => IsSpace(h[i]) || IsNameChar(h[i])
      case Name => IsNameChar(h[i]) || IsSpace(h[i]) || h[i] == '='
      case EndName => IsSpace(h[i]) || h[i] == '='
      case BeginValue => IsSpace(h[i]) || IsValueChar(h[i]) || h[i] == '\"'
      case Value => IsSpace(h[i]) || h[i] in {';', ','} || IsValueChar(h[i])
      case BeginQuotedValue => IsQuotedValueChar(h[i])
      case QuotedValue => IsQuotedValueChar(h[i]) || h[i] == '\"'
      case EndValue => IsSpace(h[i]) || h[i] in {';', ','}
      case _ => true
  {
    if i < |h| && p.state != InvalidHeader {
      var (next, advance) := Parse(p, h[i], i);
      assert Run(p, h, i) == Run(next, h, if advance then i + 1 else i);
    }
  }

  /** If the machine accepts from here on, a name and '=' come next. */
  lemma ScanName(h: string, start: nat, head: seq<Pair>, params: seq<seq<Pair>>)
    returns (nameStart: nat, nameEnd: nat, equals: nat)
    requires start <= |h| && Outcome(Parser(BeginName, [head] + params), h, start).Some?
    ensures Spaces(h, start, nameStart) && nameStart < nameEnd && NameChars(h, nameStart, nameEnd)
    ensures Spaces(h, nameEnd, equals) && equals < |h| && h[equals] == '='
    ensures Outcome(Parser(BeginValue, WithPair(Pair(nameStart, nameEnd - nameStart, 0, 0), head, params)), h,
                    equals + 1).Some?
  {
    hide Finish;
    nameStart := SpanSpaces(h, start);
    RunSpaces(Parser(BeginName, [head] + params), h, start, nameStart);
    AcceptsBefore(Parser(BeginName, [head] + params), h, nameStart);
    nameEnd := SpanName(h, nameStart);
    var empty, named := Pair(nameStart, 0, 0, 0), Pair(nameStart, nameEnd - nameStart, 0, 0);
    NameBegins(h, nameStart, head, params);
    RunName(Parser(Name, WithPair(empty, head, params)), h, nameStart, nameEnd);
    SetWithPair(empty, head, params, named);
    var all := WithPair(named, head, params);
    AcceptsBefore(Parser(Name, all), h, nameEnd);
    NameEnds(h, nameEnd, all);
    equals := SpanSpaces(h, nameEnd);
    RunSpaces(Parser(EndName, all), h, nameEnd, equals);
    AcceptsBefore(Parser(EndName, all), h, equals);
    EqualsRead(h, equals, all);
  }

  /** If the machine accepts after a name and '=', a value comes next, and then an end or a separator. */
  lemma ScanValue(h: string, named: PairSpan, head: seq<Pair>, params: seq<seq<Pair>>) returns (s: PairSpan)
    requires Spaces(h, named.start, named.nameStart) && named.nameStart < named.nameEnd
      && NameChars(h, named.nameStart, named.nameEnd)
    requires Spaces(h, named.nameEnd, named.equals) && named.equals < |h| && h[named.equals] == '='
    requires var pair := Pair(named.nameStart, named.nameEnd - named.nameStart, 0, 0);
      Outcome(Parser(BeginValue, WithPair(pair, head, params)), h, named.equals + 1).Some?
    ensures IsPair(h, s) && Terminated(h, s) && s.start == named.start
  {
    hide Run, Parse, Finish;
    var pair := Pair(named.nameStart, named.nameEnd - named.nameStart, 0, 0);
    var i := SpanSpaces(h, named.equals + 1);
    RunSpaces(Parser(BeginValue, WithPair(pair, head, params)), h, named.equals + 1, i);
    AcceptsBefore(Parser(BeginValue, WithPair(pair, head, params)), h, i);
    if h[i] == '\"' {
      s := ScanQuoted(h, named, i + 1, pair, head, params);
    } else {
      s := ScanUnquoted(h, named, i, pair, head, params);
    }
  }

  lemma ScanUnquoted(h: string, named: PairSpan, i: nat, pair: Pair, head: seq<Pair>, params: seq<seq<Pair>>)
    returns (s: PairSpan)
    requires i < |h| && IsValueChar(h[i])
    requires Outcome(Parser(BeginValue, WithPair(pair, head, params)), h, i).Some?
    ensures s == named.(quoted := false, valueStart := i, valueEnd := s.valueEnd, end := s.end)
    ensures i < s.valueEnd && ValueChars(h, i, s.valueEnd) && Spaces(h, s.valueEnd, s.end) && Terminated(h, s)
  {
    hide Run, Parse, Finish;
    var begun := pair.(valueStart := i);
    var valueEnd := SpanValue(h, i);
    var done := begun.(valueLen := begun.valueLen + (valueEnd - i));
    ValueBegins(h, i, pair, head, params);
    RunValue(Parser(Value, WithPair(begun, head, params)), h, i, valueEnd);
    SetWithPair(begun, head, params, done);
    AcceptsBefore(Parser(Value, WithPair(done, head, params)), h, valueEnd);
    ValueEnds(h, valueEnd, WithPair(done, head, params));
    var end := ScanEnd(h, valueEnd, WithPair(done, head, params));
    s := named.(quoted := false, valueStart := i, valueEnd := valueEnd, end := end);
  }

  lemma ScanQuoted(h: string, named: PairSpan, i: nat, pair: Pair, head: seq<Pair>, params: seq<seq<Pair>>)
    returns (s: PairSpan)
    requires 0 < i <= |h| && h[i - 1] == '\"' && pair.valueLen == 0
    requires Outcome(Parser(BeginValue, WithPair(pair, head, params)), h, i - 1).Some?
    ensures s == named.(quoted := true, valueStart := i, valueEnd := s.valueEnd, end := s.end)
    ensures i < s.valueEnd && QuotedChars(h, i, s.valueEnd) && s.valueEnd < |h| && h[s.valueEnd] == '\"'
    ensures Spaces(h, s.valueEnd + 1, s.end) && Terminated(h, s)
  {
    hide Run, Parse, Finish;
    QuoteOpened(h, i, pair, head, params);
    AcceptsBefore(Parser(BeginQuotedValue, WithPair(pair, head, params)), h, i);
    var begun := pair.(valueStart := i, valueLen := 1);
    var valueEnd := SpanQuoted(h, i);
    var done := begun.(valueLen := valueEnd - i);
    QuoteOpens(h, i - 1, pair, head, params);
    RunQuoted(Parser(QuotedValue, WithPair(begun, head, params)), h, i + 1, valueEnd);
    SetWithPair(begun, head, params, done);
    AcceptsBefore(Parser(QuotedValue, WithPair(done, head, params)), h, valueEnd);
    QuoteCloses(h, valueEnd, WithPair(done, head, params));
    var end := ScanEnd(h, valueEnd + 1, WithPair(done, head, params));
    s := named.(quoted := true, valueStart := i, valueEnd := valueEnd, end := end);
  }

  lemma QuoteOpened(h: string, i: nat, pair: Pair, head: seq<Pair>, params: seq<seq<Pair>>)
    requires 0 < i <= |h| && h[i - 1] == '\"'
    ensures Run(Parser(BeginValue, WithPair(pair, head, params)), h, i - 1)
         == Run(Parser(BeginQuotedValue, WithPair(pair, head, params)), h, i)
  {
  }

  lemma ScanEnd(h: string, i: nat, params: seq<seq<Pair>>) returns (end: nat)
    requires i <= |h| && params != [] && params[0] != []
    requires Outcome(Parser(EndValue, params), h, i).Some?
    ensures Spaces(h, i, end) && (end < |h| ==> h[end] in {';', ','})
  {
    hide Run, Parse, Finish;
    end := SpanSpaces(h, i);
    RunSpaces(Parser(EndValue, params), h, i, end);
    AcceptsBefore(Parser(EndValue, params), h, end);
  }

  /** What the machine accepts derives from the grammar. */
  lemma {:induction false} Derivation(h: string, start: nat, head: seq<Pair>, params: seq<seq<Pair>>)
    returns (pairs: seq<PairSpan>, more: seq<seq<PairSpan>>)
    requires start <= |h| && Outcome(Parser(BeginName, [head] + params), h, start).Some?
    ensures IsParam(h, pairs, start) && Continues(h, more, EndOf(pairs))
    decreases |h| - start
  {
    hide Outcome, IsPair;
    var nameStart, nameEnd, equals := ScanName(h, start, head, params);
    var s := ScanValue(h, PairSpan(start, nameStart, nameEnd, equals, false, 0, 0, 0), head, params);
    PairBounds(h, s);
    var next := WithPair(Slice(s), head, params);
    PairOutcome(h, s, head, params);
    AfterPair(h, s.end, next);
    if s.end == |h| {
      pairs, more := [s], [];
    } else if h[s.end] == ';' {
      var rest;
      rest, more := Derivation(h, s.end + 1, [Slice(s)] + head, params);
      pairs := [s] + rest;
      assert pairs[1..] == rest;
    } else {
      NewParam(h, s.end + 1, next);
      var first, rest := Derivation(h, s.end + 1, [], next);
      pairs, more := [s], [first] + rest;
      assert more[1..] == rest;
    }
  }

  lemma {:induction false} ReverseAppend<T>(a: seq<T>, x: T)
    ensures Reverse(a + [x]) == [x] + Reverse(a)
  {
    if a == [] {
      assert [] + [x] == [x];
    } else {
      assert (a + [x])[1..] == a[1..] + [x];
      ReverseAppend(a[1..], x);
    }
  }

  lemma {:induction false} ReverseTwice<T>(s: seq<T>)
    ensures Reverse(Reverse(s)) == s
  {
    if s != [] {
      ReverseAppend(Reverse(s[1..]), s[0]);
      ReverseTwice(s[1..]);
    }
  }

  /** A derivable header is accepted; the result is the derivation's slices, in header order. */
  lemma DerivableAccepted(h: string, tree: seq<seq<PairSpan>>)
    requires IsHeader(h, tree, 0)
    ensures forall pairs :: pairs in tree ==> Ordered(pairs)
    ensures ExtractParams(h) == Some(Slices(tree))
  {
    hide IsParam, Continues, Outcome, Run, Finish;
    HeaderOrdered(h, tree);
    Accepts(h, tree[0], tree[1..], 0, [], []);
    NewParam(h, 0, []);
    StartOutcome(h);
    assert SlicesBackward(tree[0]) + [] == SlicesBackward(tree[0]);
    assert Reverse(Slices(tree[1..])) + [SlicesBackward(tree[0])] + [] == Reverse(Slices(tree));
    var none: seq<seq<Pair>> := [];
    assert [[]] + none == [[]];
    ReverseTwice(Slices(tree));
  }

  lemma StartOutcome(h: string)
    ensures ExtractParams(h) == match Outcome(Parser(BeginParam, []), h, 0)
      case None => None
      case Some(params) => Some(Reverse(params))
  {
  }

  /** The parser is exact: it accepts the language of the grammar, and returns its slices. */
  lemma ParserExact(h: string, r: seq<seq<Pair>>)
    ensures ExtractParams(h) == Some(r)
      <==> exists tree ::
             IsHeader(h, tree, 0) && (forall pairs :: pairs in tree ==> Ordered(pairs)) && Slices(tree) == r
  {
    hide IsParam, Continues, Run, Finish, Outcome, Slices;
    if ExtractParams(h) == Some(r) {
      StartOutcome(h);
      NewParam(h, 0, []);
      var pairs, more := Derivation(h, 0, [], []);
      var tree := [pairs] + more;
      assert tree[1..] == more;
      DerivableAccepted(h, tree);
    }
    forall tree | IsHeader(h, tree, 0)
      ensures (forall pairs :: pairs in tree ==> Ordered(pairs)) && ExtractParams(h) == Some(Slices(tree))
    {
      DerivableAccepted(h, tree);
    }
  }
}
