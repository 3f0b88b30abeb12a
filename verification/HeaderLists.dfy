/** The parser object of params.c, with its linked list of parameters. */
module HeaderLists {
  import HeaderParser

  type Pair = HeaderParser.Pair

  /** A parameter. Its own list of pairs is only ever changed at its head. */
  class ParamNode {
    var next: ParamNode?
    var pairs: seq<Pair>

    constructor (next: ParamNode?)
      ensures this.next == next && pairs == []
    {
      this.next, pairs := next, [];
    }
  }

  /** The node behind the i-th, if any. */
  ghost function After(nodes: seq<ParamNode>, i: int): ParamNode? {
    if 0 <= i + 1 < |nodes| then nodes[i + 1] else null
  }

  ghost function Before(nodes: seq<ParamNode>, i: int): ParamNode? {
    if 0 < i <= |nodes| then nodes[i - 1] else null
  }

  /** `nodes` are the nodes of the list that starts at `head`, in order and without repetition. */
  ghost predicate IsList(head: ParamNode?, nodes: seq<ParamNode>)
    reads nodes
  {
    && head == (if nodes == [] then null else nodes[0])
    && (forall i :: 0 <= i < |nodes| ==> nodes[i].next == After(nodes, i))
    && (forall i, j :: 0 <= i < j < |nodes| ==> nodes[i] != nodes[j])
  }

  ghost function PairsOf(nodes: seq<ParamNode>): (r: seq<seq<Pair>>)
    reads nodes
    ensures |r| == |nodes|
  {
    seq(|nodes|, i requires 0 <= i < |nodes| reads nodes => nodes[i].pairs)
  }

  lemma {:induction false} ReverseAt<T>(s: seq<T>, i: nat)
    requires i < |s|
    ensures HeaderParser.Reverse(s)[i] == s[|s| - 1 - i]
  {
    if i < |s| - 1 {
      ReverseAt(s[1..], i);
    }
  }

  /** Reverses a list in place, by turning its pointers round one by one. */
  method ReverseParams(head: ParamNode?, ghost nodes: seq<ParamNode>) returns (sibling: ParamNode?)
    requires IsList(head, nodes)
    modifies nodes
    ensures IsList(sibling, HeaderParser.Reverse(nodes))
    ensures PairsOf(HeaderParser.Reverse(nodes)) == HeaderParser.Reverse(old(PairsOf(nodes)))
    ensures forall n :: n in HeaderParser.Reverse(nodes) ==> n in nodes
  {
    hide IsList, PairsOf;
    sibling := null;
    var params := head;
    ghost var k: nat := 0;
    ListNodes(head, nodes);
    while params != null
      invariant k <= |nodes|
      invariant params == if k < |nodes| then nodes[k] else null
      invariant sibling == Before(nodes, k)
      invariant forall i :: 0 <= i < k ==> nodes[i].next == Before(nodes, i)
      invariant forall i :: k <= i < |nodes| ==> nodes[i].next == After(nodes, i)
      invariant forall i :: 0 <= i < |nodes| ==> nodes[i].pairs == old(nodes[i].pairs)
      decreases |nodes| - k
    {
      assert params == nodes[k] && forall j :: 0 <= j < |nodes| && j != k ==> nodes[j] != nodes[k];
      var next := params.next;
      params.next := sibling;
      sibling := params;
      params := next;
      k := k + 1;
    }
    PairsKept(nodes);
    TurnedList(sibling, nodes);
    PairsReversed(nodes);
  }

  lemma ListNodes(head: ParamNode?, nodes: seq<ParamNode>)
    requires IsList(head, nodes)
    ensures head == (if nodes == [] then null else nodes[0])
    ensures forall i :: 0 <= i < |nodes| ==> nodes[i].next == After(nodes, i)
    ensures forall i, j :: 0 <= i < j < |nodes| ==> nodes[i] != nodes[j]
  {
  }

  twostate lemma PairsKept(nodes: seq<ParamNode>)
    requires forall i :: 0 <= i < |nodes| ==> nodes[i].pairs == old(nodes[i].pairs)
    ensures PairsOf(nodes) == old(PairsOf(nodes))
  {
  }

  lemma TurnedList(head: ParamNode?, nodes: seq<ParamNode>)
    requires head == Before(nodes, |nodes|)
    requires forall i :: 0 <= i < |nodes| ==> nodes[i].next == Before(nodes, i)
    requires forall i, j :: 0 <= i < j < |nodes| ==> nodes[i] != nodes[j]
    ensures IsList(head, HeaderParser.Reverse(nodes))
    ensures forall n :: n in HeaderParser.Reverse(nodes) ==> n in nodes
  {
    var back := HeaderParser.Reverse(nodes);
    forall i | 0 <= i < |nodes|
      ensures back[i] == nodes[|nodes| - 1 - i]
    {
      ReverseAt(nodes, i);
    }
  }

  lemma {:induction false} PairsReversed(nodes: seq<ParamNode>)
    ensures PairsOf(HeaderParser.Reverse(nodes)) == HeaderParser.Reverse(PairsOf(nodes))
  {
    forall i | 0 <= i < |nodes|
      ensures HeaderParser.Reverse(nodes)[i] == nodes[|nodes| - 1 - i]
      ensures HeaderParser.Reverse(PairsOf(nodes))[i] == nodes[|nodes| - 1 - i].pairs
    {
      ReverseAt(nodes, i);
      ReverseAt(PairsOf(nodes), i);
    }
  }

  /** `ece_header_parser_t`: the state of the machine, and the list it builds. */
  class LinkedParser {
    var state: HeaderParser.State
    var params: ParamNode?

    /** The nodes of the list, newest first. */
    ghost var nodes: seq<ParamNode>

    ghost predicate Valid()
      reads this, nodes
    {
      IsList(params, nodes) && Snapshot().Ready()
    }

    ghost function Snapshot(): HeaderParser.Parser
      reads this, nodes
    {
      HeaderParser.Parser(state, PairsOf(nodes))
    }

    constructor ()
      ensures Valid() && Snapshot() == HeaderParser.Parser(HeaderParser.BeginParam, []) && nodes == []
    {
      state, params, nodes := HeaderParser.BeginParam, null, [];
    }

    /** Adds an empty parameter in front of the list. */
    method PushParam()
      requires Valid()
      modifies this
      ensures IsList(params, nodes) && state == old(state)
      ensures PairsOf(nodes) == [[]] + old(PairsOf(nodes))
      ensures |nodes| > 0 && fresh(nodes[0]) && nodes[1..] == old(nodes)
    {
      var param := new ParamNode(params);
      params := param;
      assert param !in nodes;
      nodes := [param] + nodes;
      assert forall i :: 1 <= i < |nodes| ==> nodes[i] == nodes[1..][i - 1];
    }

    /** Replaces the pairs of the newest parameter. */
    method SetPairs(pairs: seq<Pair>)
      requires IsList(params, nodes) && nodes != []
      modifies params
      ensures IsList(params, nodes)
      ensures PairsOf(nodes) == old(PairsOf(nodes))[0 := pairs]
    {
      assert params == nodes[0];
      params.pairs := pairs;
      assert forall i :: 0 <= i < |nodes| ==> nodes[i].next == old(nodes[i].next);
    }

    /** Adds a pair in front of those of the newest parameter. */
    method PushPair(pair: Pair)
      requires IsList(params, nodes) && nodes != []
      modifies nodes
      ensures IsList(params, nodes)
      ensures PairsOf(nodes) == old(PairsOf(nodes))[0 := [pair] + old(PairsOf(nodes)[0])]
    {
      SetPairs([pair] + params.pairs);
    }

    /** The newest pair of the newest parameter. */
    method HeadPair() returns (pair: Pair)
      requires IsList(params, nodes) && nodes != [] && PairsOf(nodes)[0] != []
      ensures pair == PairsOf(nodes)[0][0]
    {
      pair := params.pairs[0];
    }

    method SetPair(pair: Pair)
      requires IsList(params, nodes) && nodes != [] && PairsOf(nodes)[0] != []
      modifies nodes
      ensures IsList(params, nodes)
      ensures PairsOf(nodes) == HeaderParser.SetPair(old(PairsOf(nodes)), pair)
    {
      SetPairs(params.pairs[0 := pair]);
    }

    /** `ece_header_parse`: whether to advance past `c`, which stands at `pos`. */
    method Parse(c: char, pos: nat) returns (advance: bool)
      requires Valid() && state != HeaderParser.InvalidHeader
      modifies this, nodes
      ensures Valid()
      ensures (Snapshot(), advance) == HeaderParser.Parse(old(Snapshot()), c, pos)
      ensures nodes == old(nodes) || (nodes != [] && fresh(nodes[0]) && nodes[1..] == old(nodes))
    {
      hide IsList, PairsOf;
      match state {
        case BeginParam =>
          PushParam();
          state := HeaderParser.BeginName;
          return false;
        case BeginName | Name | EndName =>
          advance := ParseName(c, pos);
        case BeginValue | Value =>
          advance := ParseValue(c, pos);
        case BeginQuotedValue | QuotedValue =>
          advance := ParseQuotedValue(c, pos);
        case EndValue =>
          if HeaderParser.IsSpace(c) {
            return true;
          }
          if c == ';' {
            state := HeaderParser.BeginName;
            return true;
          }
          if c == ',' {
            state := HeaderParser.BeginParam;
            return true;
          }
          state := HeaderParser.InvalidHeader;
          advance := false;
      }
    }

    method ParseName(c: char, pos: nat) returns (advance: bool)
      requires Valid() && state in {HeaderParser.BeginName, HeaderParser.Name, HeaderParser.EndName}
      modifies this, nodes
      ensures Valid() && nodes == old(nodes)
      ensures (Snapshot(), advance) == HeaderParser.Parse(old(Snapshot()), c, pos)
    {
      hide IsList, PairsOf;
      match state {
        case BeginName =>
          if HeaderParser.IsSpace(c) {
            return true;
          }
          if HeaderParser.IsNameChar(c) {
            PushPair(HeaderParser.Pair(pos, 0, 0, 0));
            state := HeaderParser.Name;
            return false;
          }
        case Name =>
          if HeaderParser.IsNameChar(c) {
            var pair := HeadPair();
            SetPair(pair.(nameLen := pair.nameLen + 1));
            return true;
          }
          if HeaderParser.IsSpace(c) || c == '=' {
            state := HeaderParser.EndName;
            return false;
          }
        case EndName =>
          if HeaderParser.IsSpace(c) {
            return true;
          }
          if c == '=' {
            state := HeaderParser.BeginValue;
            return true;
          }
      }
      state := HeaderParser.InvalidHeader;
      advance := false;
    }

    method ParseValue(c: char, pos: nat) returns (advance: bool)
      requires Valid() && state in {HeaderParser.BeginValue, HeaderParser.Value}
      modifies this, nodes
      ensures Valid() && nodes == old(nodes)
      ensures (Snapshot(), advance) == HeaderParser.Parse(old(Snapshot()), c, pos)
    {
      hide IsList, PairsOf;
      var pair := HeadPair();
      match state {
        case BeginValue =>
          if HeaderParser.IsSpace(c) {
            return true;
          }
          if HeaderParser.IsValueChar(c) {
            SetPair(pair.(valueStart := pos));
            state := HeaderParser.Value;
            return false;
          }
          if c == '\"' {
            state := HeaderParser.BeginQuotedValue;
            return true;
          }
        case Value =>
          if HeaderParser.IsSpace(c) || c == ';' || c == ',' {
            state := HeaderParser.EndValue;
            return false;
          }
          if HeaderParser.IsValueChar(c) {
            SetPair(pair.(valueLen := pair.valueLen + 1));
            return true;
          }
      }
      state := HeaderParser.InvalidHeader;
      advance := false;
    }

    method ParseQuotedValue(c: char, pos: nat) returns (advance: bool)
      requires Valid() && state in {HeaderParser.BeginQuotedValue, HeaderParser.QuotedValue}
      modifies this, nodes
      ensures Valid() && nodes == old(nodes)
      ensures (Snapshot(), advance) == HeaderParser.Parse(old(Snapshot()), c, pos)
    {
      hide IsList, PairsOf;
      var pair := HeadPair();
      match state {
        case BeginQuotedValue =>
          if HeaderParser.IsQuotedValueChar(c) {
            SetPair(pair.(valueStart := pos, valueLen := pair.valueLen + 1));
            state := HeaderParser.QuotedValue;
            return true;
          }
        case QuotedValue =>
          if HeaderParser.IsQuotedValueChar(c) {
            SetPair(pair.(valueLen := pair.valueLen + 1));
            return true;
          }
          if c == '\"' {
            state := HeaderParser.EndValue;
            return true;
          }
      }
      state := HeaderParser.InvalidHeader;
      advance := false;
    }
  }

  /** `ece_header_extract_params`: the list of parameters in header order; null for a malformed header. */
  method ExtractParams(header: string) returns (head: ParamNode?, ghost nodes: seq<ParamNode>)
    ensures match HeaderParser.ExtractParams(header)
      case None => head == null
      case Some(params) => head != null && IsList(head, nodes) && PairsOf(nodes) == params
  {
    hide IsList, PairsOf, HeaderParser.Parse;
    head, nodes := null, [];
    var parser := new LinkedParser();
    var i: nat := 0;
    ghost var last := HeaderParser.Run(parser.Snapshot(), header, 0);
    while i < |header|
      invariant i <= |header| && parser.Valid() && fresh(parser)
      invariant forall k :: 0 <= k < |parser.nodes| ==> fresh(parser.nodes[k])
      invariant parser.state != HeaderParser.InvalidHeader
      invariant HeaderParser.Run(parser.Snapshot(), header, i) == last
      decreases |header| - i, HeaderParser.Rank(parser.state)
    {
      var advance := parser.Parse(header[i], i);
      if advance {
        i := i + 1;
      }
      if parser.state == HeaderParser.InvalidHeader {
        return;
      }
    }
    if parser.state != HeaderParser.EndValue {
      var _ := parser.Parse(' ', 0);
      if parser.state != HeaderParser.EndValue {
        return;
      }
    }
    head := ReverseParams(parser.params, parser.nodes);
    nodes := HeaderParser.Reverse(parser.nodes);
    ListNodes(head, nodes);
  }
}
