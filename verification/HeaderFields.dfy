/** The names and values of a header, by their text, and how params.c compares them. */
module HeaderFields {
  import opened Ece
  import HeaderParser
  import HeaderGrammar

  /** A pair by its text. */
  datatype Field = Field(name: string, value: string) {
    /** The comparison stops with the parsed name, so each of its prefixes passes for `wanted`. */
    predicate HasName(wanted: string) {
      name <= wanted
    }

    /** Likewise each prefix of a value. */
    predicate HasValue(wanted: string) {
      value <= wanted
    }
  }

  /** `strncmp(a, b, n) == 0` for a C string `b`, where `a` has no NUL among its first `n` characters. */
  predicate SameUpTo(a: string, b: string, n: nat)
    requires n <= |a|
  {
    n == 0 || (b != [] && a[0] == b[0] && SameUpTo(a[1..], b[1..], n - 1))
  }

  lemma {:induction false} SameIsPrefix(a: string, b: string, n: nat)
    requires n <= |a|
    ensures SameUpTo(a, b, n) <==> a[..n] <= b
    decreases n
  {
    if n > 0 && b != [] {
      SameIsPrefix(a[1..], b[1..], n - 1);
      PrefixStep(a, b, n);
    }
  }

  lemma {:induction false} PrefixStep(a: string, b: string, n: nat)
    requires 0 < n <= |a| && b != []
    ensures a[..n] <= b <==> a[0] == b[0] && a[1..][..n - 1] <= b[1..]
  {
    assert a[..n] == [a[0]] + a[1..][..n - 1];
    assert b == [b[0]] + b[1..];
    var x, y := a[1..][..n - 1], b[1..];
    if a[..n] <= b {
      assert forall i :: 0 <= i < |x| ==> x[i] == ([a[0]] + x)[i + 1] == b[i + 1] == y[i];
    }
  }

  /** A pair has a name by `strncmp` exactly if its own name is a prefix of it. */
  lemma {:induction false} NameIsPrefix(h: string, start: nat, n: nat, wanted: string)
    requires start + n <= |h|
    ensures SameUpTo(h[start..], wanted, n) <==> Field(h[start..start + n], "").HasName(wanted)
  {
    SameIsPrefix(h[start..], wanted, n);
    assert h[start..][..n] == h[start..start + n];
  }

  /** A name and a value that are not empty and lie in the header. */
  predicate InBounds(h: string, p: HeaderParser.Pair) {
    && 0 < p.nameLen && p.nameStart + p.nameLen <= |h|
    && 0 < p.valueLen && p.valueStart + p.valueLen <= |h|
  }

  function FieldOf(h: string, p: HeaderParser.Pair): Field
    requires InBounds(h, p)
  {
    Field(h[p.nameStart..p.nameStart + p.nameLen], h[p.valueStart..p.valueStart + p.valueLen])
  }

  predicate AllInBounds(h: string, pairs: seq<HeaderParser.Pair>) {
    forall i :: 0 <= i < |pairs| ==> InBounds(h, pairs[i])
  }

  predicate AllNamed(fields: seq<Field>) {
    forall f :: f in fields ==> f.name != "" && f.value != ""
  }

  function FieldsOf(h: string, pairs: seq<HeaderParser.Pair>): (r: seq<Field>)
    requires AllInBounds(h, pairs)
    ensures |r| == |pairs| && AllNamed(r)
  {
    seq(|pairs|, i requires 0 <= i < |pairs| => FieldOf(h, pairs[i]))
  }

  lemma {:induction false} BackwardInBounds(h: string, pairs: seq<HeaderGrammar.PairSpan>, start: nat)
    requires HeaderGrammar.IsParam(h, pairs, start) && HeaderGrammar.Ordered(pairs)
    ensures AllInBounds(h, HeaderGrammar.SlicesBackward(pairs))
  {
    if |pairs| > 1 {
      BackwardInBounds(h, pairs[1..], pairs[0].end + 1);
    } else {
      assert pairs[1..] == [];
    }
  }

  lemma {:induction false} MoreInBounds(h: string, more: seq<seq<HeaderGrammar.PairSpan>>, end: nat)
    requires HeaderGrammar.Continues(h, more, end) && forall pairs :: pairs in more ==> HeaderGrammar.Ordered(pairs)
    ensures forall i :: 0 <= i < |HeaderGrammar.Slices(more)| ==> AllInBounds(h, HeaderGrammar.Slices(more)[i])
  {
    if more != [] {
      BackwardInBounds(h, more[0], end + 1);
      MoreInBounds(h, more[1..], HeaderGrammar.EndOf(more[0]));
    }
  }

  lemma TreeInBounds(h: string, tree: seq<seq<HeaderGrammar.PairSpan>>)
    requires HeaderGrammar.IsHeader(h, tree, 0) && forall pairs :: pairs in tree ==> HeaderGrammar.Ordered(pairs)
    ensures HeaderGrammar.Slices(tree) != []
    ensures forall i :: 0 <= i < |HeaderGrammar.Slices(tree)| ==> AllInBounds(h, HeaderGrammar.Slices(tree)[i])
  {
    hide HeaderGrammar.IsParam, HeaderGrammar.Continues, HeaderGrammar.Ordered, AllInBounds;
    assert tree[0] != [] by {
      ParamNotEmpty(h, tree[0], 0);
    }
    BackwardInBounds(h, tree[0], 0);
    MoreInBounds(h, tree[1..], HeaderGrammar.EndOf(tree[0]));
  }

  lemma ParamNotEmpty(h: string, pairs: seq<HeaderGrammar.PairSpan>, start: nat)
    requires HeaderGrammar.IsParam(h, pairs, start)
    ensures pairs != []
  {
  }

  /** The parser's slices lie in the header; there is at least one parameter. */
  lemma ParsedInBounds(h: string)
    ensures match HeaderParser.ExtractParams(h)
      case None => true
      case Some(params) => params != [] && forall i :: 0 <= i < |params| ==> AllInBounds(h, params[i])
  {
    hide HeaderParser.ExtractParams, HeaderGrammar.IsHeader, HeaderGrammar.Ordered, HeaderGrammar.Slices, AllInBounds;
    if HeaderParser.ExtractParams(h).Some? {
      var params := HeaderParser.ExtractParams(h).value;
      HeaderGrammar.ParserExact(h, params);
      var tree :| HeaderGrammar.IsHeader(h, tree, 0)
        && (forall pairs :: pairs in tree ==> HeaderGrammar.Ordered(pairs)) && HeaderGrammar.Slices(tree) == params;
      TreeInBounds(h, tree);
    }
  }

  /** The parameters of a header by their text, each with its last pair first. */
  function Fields(h: string): (r: Option<seq<seq<Field>>>)
    ensures r.Some? ==> r.value != [] && forall i :: 0 <= i < |r.value| ==> AllNamed(r.value[i])
  {
    ParsedInBounds(h);
    match HeaderParser.ExtractParams(h)
    case None => None
    case Some(params) => Some(seq(|params|, i requires 0 <= i < |params| => FieldsOf(h, params[i])))
  }

  lemma FieldsFrom(h: string, params: seq<seq<HeaderParser.Pair>>, fields: seq<seq<Field>>)
    requires HeaderParser.ExtractParams(h) == Some(params) && |params| == |fields|
    requires forall i :: 0 <= i < |params| ==> AllInBounds(h, params[i]) && FieldsOf(h, params[i]) == fields[i]
    ensures Fields(h) == Some(fields)
  {
    hide HeaderParser.ExtractParams, FieldsOf;
    assert Fields(h).Some? && |Fields(h).value| == |fields|;
    assert forall i :: 0 <= i < |fields| ==> Fields(h).value[i] == fields[i];
    assert Fields(h).value == fields;
  }
}
