/** Headers written out, with any parameters, and that the parser gives back what is in them. */
module HeaderTexts {
  import opened Ece
  import opened HeaderFields
  import HeaderParser
  import opened HeaderGrammar

  /** A pair as it is written: a value in quotes may have '=' in it, such as the padding of Base64url text. */
  datatype Written = Written(field: Field, quoted: bool) {
    predicate Legal() {
      && field.name != "" && (forall c :: c in field.name ==> 'a' <= c <= 'z' || '0' <= c <= '9')
      && field.value != ""
      && forall c :: c in field.value ==>
           'A' <= c <= 'Z' || 'a' <= c <= 'z' || '0' <= c <= '9' || c in "-_" || (quoted && c == '=')
    }

    function Text(): string {
      field.name + "=" + (if quoted then "\"" + field.value + "\"" else field.value)
    }
  }

  /** The characters of names and values. */
  lemma CharacterClasses(c: char)
    ensures HeaderParser.IsSpace(c) <==> c in " \t"
    ensures HeaderParser.IsNameChar(c) <==> 'a' <= c <= 'z' || '0' <= c <= '9'
    ensures HeaderParser.IsValueChar(c)
      <==> 'A' <= c <= 'Z' || 'a' <= c <= 'z' || '0' <= c <= '9' || c in "-_"
    ensures HeaderParser.IsQuotedValueChar(c) <==> HeaderParser.IsValueChar(c) || c == '='
  {
  }

  predicate AllLegal(pairs: seq<Written>) {
    pairs != [] && forall w :: w in pairs ==> w.Legal()
  }

  function ParamText(pairs: seq<Written>): string
    requires pairs != []
  {
    if |pairs| == 1 then pairs[0].Text() else pairs[0].Text() + ";" + ParamText(pairs[1..])
  }

  function HeaderText(params: seq<seq<Written>>): string
    requires params != [] && forall pairs :: pairs in params ==> AllLegal(pairs)
  {
    assert AllLegal(params[0]);
    if |params| == 1 then ParamText(params[0]) else ParamText(params[0]) + "," + HeaderText(params[1..])
  }

  /** The fields of a parameter, last first. */
  function Backward(pairs: seq<Written>): seq<Field> {
    if pairs == [] then [] else Backward(pairs[1..]) + [pairs[0].field]
  }

  function BackwardEach(params: seq<seq<Written>>): (r: seq<seq<Field>>)
    ensures |r| == |params|
  {
    if params == [] then [] else [Backward(params[0])] + BackwardEach(params[1..])
  }

  /** `h` has the text at `start`. */
  predicate At(h: string, start: nat, text: string) {
    start + |text| <= |h| && forall k :: 0 <= k < |text| ==> h[start + k] == text[k]
  }

  lemma {:induction false} AtParts(h: string, start: nat, a: string, b: string)
    requires At(h, start, a + b)
    ensures At(h, start, a) && At(h, start + |a|, b)
  {
    assert forall k :: 0 <= k < |a| ==> a[k] == (a + b)[k];
    assert forall k :: 0 <= k < |b| ==> b[k] == (a + b)[|a| + k];
    forall k | 0 <= k < |b|
      ensures h[start + |a| + k] == b[k]
    {
      assert h[start + (|a| + k)] == (a + b)[|a| + k];
    }
  }

  lemma {:induction false} AtSlice(h: string, start: nat, text: string)
    requires At(h, start, text)
    ensures h[start..start + |text|] == text
  {
  }

  function Span(w: Written, start: nat): PairSpan {
    var nameEnd := start + |w.field.name|;
    var valueStart := nameEnd + (if w.quoted then 2 else 1);
    var valueEnd := valueStart + |w.field.value|;
    var end := if w.quoted then valueEnd + 1 else valueEnd;
    PairSpan(start, start, nameEnd, nameEnd, w.quoted, valueStart, valueEnd, end)
  }

  lemma {:induction false} SpanAt(h: string, w: Written, start: nat)
    requires w.Legal() && At(h, start, w.Text())
    ensures IsPair(h, Span(w, start)) && Span(w, start).start == start && Span(w, start).end == start + |w.Text()|
    ensures InBounds(h, Slice(Span(w, start))) && FieldOf(h, Slice(Span(w, start))) == w.field
  {
    hide At, Written.Legal, NameChars, ValueChars, QuotedChars;
    var nameEnd := start + |w.field.name|;
    PartsAt(h, w, start);
    LegalAt(h, start, w, w.field.name);
    AtSlice(h, start, w.field.name);
    if w.quoted {
      LegalAt(h, nameEnd + 2, w, w.field.value);
      AtSlice(h, nameEnd + 2, w.field.value);
    } else {
      LegalAt(h, nameEnd + 1, w, w.field.value);
      AtSlice(h, nameEnd + 1, w.field.value);
    }
  }

  lemma {:induction false} PartsAt(h: string, w: Written, start: nat)
    requires At(h, start, w.Text())
    ensures var nameEnd, n := start + |w.field.name|, |w.field.value|;
      && At(h, start, w.field.name) && nameEnd < |h| && h[nameEnd] == '='
      && if w.quoted then
           && At(h, nameEnd + 2, w.field.value) && nameEnd + 2 + n < |h|
           && h[nameEnd + 1] == '\"' && h[nameEnd + 2 + n] == '\"'
         else At(h, nameEnd + 1, w.field.value)
  {
    hide At;
    var name, value, nameEnd := w.field.name, w.field.value, start + |w.field.name|;
    var rest := if w.quoted then "\"" + value + "\"" else value;
    AtParts(h, start, name + "=", rest);
    AtParts(h, start, name, "=");
    FirstChar(h, nameEnd, "=");
    if w.quoted {
      AtParts(h, nameEnd + 1, "\"" + value, "\"");
      AtParts(h, nameEnd + 1, "\"", value);
      FirstChar(h, nameEnd + 1, "\"");
      FirstChar(h, nameEnd + 2 + |value|, "\"");
    }
  }

  lemma {:induction false} LegalAt(h: string, start: nat, w: Written, text: string)
    requires w.Legal() && At(h, start, text) && text in {w.field.name, w.field.value}
    ensures text != "" && start + |text| <= |h|
    ensures text == w.field.name ==> NameChars(h, start, start + |text|)
    ensures text == w.field.value && w.quoted ==> QuotedChars(h, start, start + |text|)
    ensures text == w.field.value && !w.quoted ==> ValueChars(h, start, start + |text|)
  {
    CharsAt(h, start, text);
  }

  lemma {:induction false} CharsAt(h: string, start: nat, text: string)
    requires At(h, start, text)
    ensures forall k :: start <= k < start + |text| ==> h[k] in text
  {
    forall k | start <= k < start + |text|
      ensures h[k] in text
    {
      assert h[start + (k - start)] == text[k - start];
    }
  }

  function Spans(pairs: seq<Written>, start: nat): seq<PairSpan> {
    if pairs == [] then [] else [Span(pairs[0], start)] + Spans(pairs[1..], Span(pairs[0], start).end + 1)
  }

  /** Spans of a parameter that ends behind so many characters, and the fields in them. */
  predicate ParamRead(h: string, spans: seq<PairSpan>, start: nat, length: nat, fields: seq<Field>) {
    && IsParam(h, spans, start) && EndOf(spans) == start + length && Ordered(spans)
    && AllInBounds(h, SlicesBackward(spans)) && FieldsOf(h, SlicesBackward(spans)) == fields
  }

  lemma {:induction false} OneRead(h: string, w: Written, start: nat)
    requires w.Legal() && At(h, start, w.Text())
    ensures ParamRead(h, [Span(w, start)], start, |w.Text()|, [w.field])
  {
    hide IsPair, Span, At, AllInBounds, FieldsOf, Ordered, SlicesBackward;
    SpanAt(h, w, start);
    PairBounds(h, Span(w, start));
    OneSlice(h, Span(w, start), w.field);
    assert [Span(w, start)][1..] == [];
  }

  lemma {:induction false} MoreRead(h: string, s: PairSpan, f: Field, more: seq<PairSpan>, length: nat,
                                    fields: seq<Field>)
    requires IsPair(h, s) && s.end < |h| && h[s.end] == ';'
    requires InBounds(h, Slice(s)) && FieldOf(h, Slice(s)) == f
    requires ParamRead(h, more, s.end + 1, length, fields)
    ensures s.start <= s.end && ParamRead(h, [s] + more, s.start, s.end - s.start + 1 + length, fields + [f])
  {
    hide IsPair, AllInBounds, FieldsOf, Ordered, SlicesBackward;
    PairBounds(h, s);
    MoreSlices(h, s, more, f, fields);
    assert ([s] + more)[1..] == more && ([s] + more)[0] == s;
  }

  lemma {:induction false} SpansAt(h: string, pairs: seq<Written>, start: nat)
    requires AllLegal(pairs) && At(h, start, ParamText(pairs))
    ensures ParamRead(h, Spans(pairs, start), start, |ParamText(pairs)|, Backward(pairs))
    decreases |pairs|
  {
    hide IsPair, Span, At, ParamRead, InBounds, FieldOf, Written.Text, Written.Legal;
    var w, rest := pairs[0], pairs[1..];
    assert w in pairs && forall x :: x in rest ==> x in pairs;
    if |pairs| == 1 {
      OneRead(h, w, start);
      assert rest == [] && Spans(rest, Span(w, start).end + 1) == [];
      assert Spans(pairs, start) == [Span(w, start)] && Backward(pairs) == [w.field];
    } else {
      SeparatedAt(h, start, w, rest);
      SpansAt(h, rest, Span(w, start).end + 1);
      MoreRead(h, Span(w, start), w.field, Spans(rest, Span(w, start).end + 1), |ParamText(rest)|, Backward(rest));
    }
  }

  lemma {:induction false} SeparatedAt(h: string, start: nat, w: Written, rest: seq<Written>)
    requires w.Legal() && rest != [] && At(h, start, w.Text() + ";" + ParamText(rest))
    ensures var s := Span(w, start);
      && IsPair(h, s) && s.start == start && s.end == start + |w.Text()| < |h| && h[s.end] == ';'
      && InBounds(h, Slice(s)) && FieldOf(h, Slice(s)) == w.field
      && At(h, s.end + 1, ParamText(rest))
  {
    hide IsPair, Span, At, Written.Text, Written.Legal, InBounds, FieldOf;
    assert w.Text() + ";" + ParamText(rest) == w.Text() + (";" + ParamText(rest));
    AtParts(h, start, w.Text(), ";" + ParamText(rest));
    SpanAt(h, w, start);
    PairBounds(h, Span(w, start));
    AtParts(h, start + |w.Text()|, ";", ParamText(rest));
    FirstChar(h, start + |w.Text()|, ";");
  }

  lemma FirstChar(h: string, start: nat, text: string)
    requires At(h, start, text) && |text| == 1
    ensures start < |h| && h[start] == text[0]
  {
    assert h[start + 0] == text[0];
  }

  lemma {:induction false} OneSlice(h: string, s: PairSpan, f: Field)
    requires s.nameStart < s.nameEnd && s.valueStart < s.valueEnd
    requires InBounds(h, Slice(s)) && FieldOf(h, Slice(s)) == f
    ensures Ordered([s]) && AllInBounds(h, SlicesBackward([s])) && FieldsOf(h, SlicesBackward([s])) == [f]
  {
    assert [s][1..] == [] && SlicesBackward([s]) == [Slice(s)];
  }

  lemma {:induction false} MoreSlices(h: string, s: PairSpan, more: seq<PairSpan>, f: Field, fields: seq<Field>)
    requires s.nameStart < s.nameEnd && s.valueStart < s.valueEnd && Ordered(more)
    requires InBounds(h, Slice(s)) && FieldOf(h, Slice(s)) == f
    requires AllInBounds(h, SlicesBackward(more)) && FieldsOf(h, SlicesBackward(more)) == fields
    ensures Ordered([s] + more)
    ensures var slices := SlicesBackward([s] + more);
      AllInBounds(h, slices) && FieldsOf(h, slices) == fields + [f]
  {
    assert ([s] + more)[1..] == more;
    assert forall x :: x in [s] + more ==> x == s || x in more;
    var slices := SlicesBackward(more) + [Slice(s)];
    assert SlicesBackward([s] + more) == slices;
    assert forall i :: 0 <= i < |fields| ==> FieldsOf(h, slices)[i] == FieldsOf(h, SlicesBackward(more))[i];
  }

  function Tree(params: seq<seq<Written>>, start: nat): seq<seq<PairSpan>>
    requires forall pairs :: pairs in params ==> AllLegal(pairs)
  {
    if params == [] then []
    else
      assert AllLegal(params[0]);
      [Spans(params[0], start)] + Tree(params[1..], start + |ParamText(params[0])| + 1)
  }

  /** Spans of a header up to its end, and the fields in them. */
  predicate HeaderRead(h: string, tree: seq<seq<PairSpan>>, start: nat, fields: seq<seq<Field>>) {
    && IsHeader(h, tree, start) && (forall spans :: spans in tree ==> Ordered(spans))
    && |Slices(tree)| == |fields|
    && forall i :: 0 <= i < |fields| ==>
         AllInBounds(h, Slices(tree)[i]) && FieldsOf(h, Slices(tree)[i]) == fields[i]
  }

  lemma {:induction false} OneParamRead(h: string, spans: seq<PairSpan>, start: nat, fields: seq<Field>)
    requires start <= |h| && ParamRead(h, spans, start, |h| - start, fields)
    ensures HeaderRead(h, [spans], start, [fields])
  {
    hide IsParam, Ordered, AllInBounds, FieldsOf, SlicesBackward;
    assert [spans][1..] == [] && Slices([spans]) == [SlicesBackward(spans)];
  }

  lemma {:induction false} MoreParamsRead(h: string, spans: seq<PairSpan>, start: nat, length: nat, fields: seq<Field>,
                                          tree: seq<seq<PairSpan>>, more: seq<seq<Field>>)
    requires ParamRead(h, spans, start, length, fields)
    requires start + length < |h| && h[start + length] == ','
    requires HeaderRead(h, tree, start + length + 1, more)
    ensures HeaderRead(h, [spans] + tree, start, [fields] + more)
  {
    hide IsParam, Ordered, AllInBounds, FieldsOf, SlicesBackward;
    assert ([spans] + tree)[1..] == tree && ([spans] + tree)[0] == spans;
    assert forall x :: x in [spans] + tree ==> x == spans || x in tree;
    assert Slices([spans] + tree) == [SlicesBackward(spans)] + Slices(tree);
  }

  lemma {:induction false} OneParam(params: seq<seq<Written>>, start: nat)
    requires |params| == 1 && forall pairs :: pairs in params ==> AllLegal(pairs)
    ensures Tree(params, start) == [Spans(params[0], start)] && BackwardEach(params) == [Backward(params[0])]
    ensures AllLegal(params[0]) && HeaderText(params) == ParamText(params[0])
  {
    hide Spans, Backward, ParamText;
    var rest := params[1..];
    assert rest == [] && BackwardEach(rest) == [];
  }

  lemma {:induction false} TreeAt(h: string, params: seq<seq<Written>>, start: nat)
    requires params != [] && forall pairs :: pairs in params ==> AllLegal(pairs)
    requires At(h, start, HeaderText(params)) && start + |HeaderText(params)| == |h|
    ensures HeaderRead(h, Tree(params, start), start, BackwardEach(params))
    decreases |params|
  {
    hide ParamRead, HeaderRead, Spans, At, Backward, ParamText;
    var first, rest := params[0], params[1..];
    assert AllLegal(first) && forall x :: x in rest ==> x in params;
    var spans, end := Spans(first, start), start + |ParamText(first)|;
    if |params| == 1 {
      SpansAt(h, first, start);
      OneParamRead(h, spans, start, Backward(first));
      OneParam(params, start);
    } else {
      assert ParamText(first) + "," + HeaderText(rest) == ParamText(first) + ("," + HeaderText(rest));
      AtParts(h, start, ParamText(first), "," + HeaderText(rest));
      AtParts(h, end, ",", HeaderText(rest));
      FirstChar(h, end, ",");
      SpansAt(h, first, start);
      TreeAt(h, rest, end + 1);
      MoreParamsRead(h, spans, start, |ParamText(first)|, Backward(first), Tree(rest, end + 1), BackwardEach(rest));
    }
  }

  /** Whatever parameters are written, the parser gives them back in order, each with its last pair first. */
  lemma {:induction false} TextReadsBack(params: seq<seq<Written>>)
    requires params != [] && forall pairs :: pairs in params ==> AllLegal(pairs)
    ensures Fields(HeaderText(params)) == Some(BackwardEach(params))
  {
    hide HeaderText, AllLegal, Fields, HeaderParser.ExtractParams, IsHeader, Tree, FieldsOf, AllInBounds, BackwardEach;
    var h := HeaderText(params);
    TreeAt(h, params, 0);
    DerivableAccepted(h, Tree(params, 0));
    FieldsFrom(h, Slices(Tree(params, 0)), BackwardEach(params));
  }
}
