/** The character machine of params.c for `Crypto-Key` and `Encryption` header values. */
module HeaderParser {
  import opened Ece

  datatype State =
    | BeginParam
    | BeginName
    | Name
    | EndName
    | BeginValue
    | Value
    | BeginQuotedValue
    | QuotedValue
    | EndValue
    | InvalidHeader

  /** A name and a value, as slices of the header. */
  datatype Pair = Pair(nameStart: nat, nameLen: nat, valueStart: nat, valueLen: nat)

  /** The newest parameter, and the newest pair of each, come first. */
  datatype Parser = Parser(state: State, params: seq<seq<Pair>>) {
    /** The lists have the heads that the state goes by. */
    predicate Ready() {
      && (state != BeginParam ==> params != [])
      && (state !in {BeginParam, BeginName, InvalidHeader} ==> params[0] != [])
    }
  }

  predicate IsSpace(c: char) {
    c == ' ' || c == '\t'
  }

  predicate IsNameChar(c: char) {
    'a' <= c <= 'z' || '0' <= c <= '9'
  }

  predicate IsValueChar(c: char) {
    'A' <= c <= 'Z' || 'a' <= c <= 'z' || '0' <= c <= '9' || c == '-' || c == '_'
  }

  predicate IsQuotedValueChar(c: char) {
    IsValueChar(c) || c == '='
  }

  /** Steps without advancing only lead to states of lower rank. */
  function Rank(s: State): nat {
    match s
    case BeginParam => 4
    case BeginName | BeginValue => 3
    case Name | Value => 2
    case EndName | EndValue | BeginQuotedValue | QuotedValue => 1
    case InvalidHeader => 0
  }

  function SetPair(params: seq<seq<Pair>>, pair: Pair): (r: seq<seq<Pair>>)
    requires params != [] && params[0] != []
    ensures r != [] && r[0] != []
  {
    params[0 := params[0][0 := pair]]
  }

  /** One call of `ece_header_parse` on the character at `pos`: the new state, and whether to advance. */
  function Parse(p: Parser, c: char, pos: nat): (r: (Parser, bool))
    requires p.Ready() && p.state != InvalidHeader
    ensures r.0.Ready()
    ensures !r.1 ==> Rank(r.0.state) < Rank(p.state)
  {
    var invalid := (p.(state := InvalidHeader), false);
    match p.state
    case BeginParam => (Parser(BeginName, [[]] + p.params), false)
    case BeginName =>
      if IsSpace(c) then (p, true)
      else if IsNameChar(c) then (Parser(Name, p.params[0 := [Pair(pos, 0, 0, 0)] + p.params[0]]), false)
      else invalid
    case Name =>
      var pair := p.params[0][0];
      if IsNameChar(c) then (p.(params := SetPair(p.params, pair.(nameLen := pair.nameLen + 1))), true)
      else if IsSpace(c) || c == '=' then (p.(state := EndName), false)
      else invalid
    case EndName =>
      if IsSpace(c) then (p, true)
      else if c == '=' then (p.(state := BeginValue), true)
      else invalid
    case BeginValue =>
      if IsSpace(c) then (p, true)
      else if IsValueChar(c) then (Parser(Value, SetPair(p.params, p.params[0][0].(valueStart := pos))), false)
      else if c == '\"' then (p.(state := BeginQuotedValue), true)
      else invalid
    case Value =>
      var pair := p.params[0][0];
      if IsSpace(c) || c == ';' || c == ',' then (p.(state := EndValue), false)
      else if IsValueChar(c) then (p.(params := SetPair(p.params, pair.(valueLen := pair.valueLen + 1))), true)
      else invalid
    case BeginQuotedValue =>
      var pair := p.params[0][0];
      if IsQuotedValueChar(c) then
        (Parser(QuotedValue, SetPair(p.params, pair.(valueStart := pos, valueLen := pair.valueLen + 1))), true)
      else invalid
    case QuotedValue =>
      var pair := p.params[0][0];
      if IsQuotedValueChar(c) then (p.(params := SetPair(p.params, pair.(valueLen := pair.valueLen + 1))), true)
      else if c == '\"' then (p.(state := EndValue), true)
      else invalid
    case EndValue =>
      if IsSpace(c) then (p, true)
      else if c == ';' then (p.(state := BeginName), true)
      else if c == ',' then (p.(state := BeginParam), true)
      else invalid
  }

  /** The loop over the header from position `i`; it ends at the end, or in the invalid state. */
  function Run(p: Parser, header: string, i: nat): (r: Parser)
    requires p.Ready() && i <= |header|
    ensures r.Ready()
    decreases |header| - i, Rank(p.state)
  {
    if i == |header| || p.state == InvalidHeader then p
    else
      var (next, advance) := Parse(p, header[i], i);
      Run(next, header, if advance then i + 1 else i)
  }

  /** An unquoted value may end with the header: a space is parsed in its place. */
  function Finish(p: Parser): Option<seq<seq<Pair>>>
    requires p.Ready()
  {
    if p.state == InvalidHeader then None
    else if p.state == EndValue then Some(p.params)
    else
      var (last, _) := Parse(p, ' ', 0);
      if last.state == EndValue then Some(last.params) else None
  }

  function Reverse<T>(s: seq<T>): (r: seq<T>)
    ensures |r| == |s|
  {
    if s == [] then [] else Reverse(s[1..]) + [s[0]]
  }

  /** The parameters of a header in order, or `None` if it is malformed. */
  function ExtractParams(header: string): Option<seq<seq<Pair>>> {
    match Finish(Run(Parser(BeginParam, []), header, 0))
    case None => None
    case Some(params) => Some(Reverse(params))
  }
}
