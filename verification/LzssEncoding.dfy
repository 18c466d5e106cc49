/** A reference encoder for the LZSS stream format, written from the format alone: the decoders are
    its left inverse. The tools themselves only decode. */
module LzssEncoding {
  import opened Basics
  import Bits
  import opened LzssHistory

  /** One item of a stream: a byte, or `count` bytes taken from `reach` bytes back. */
  datatype Token = Literal(value: byte) | Match(reach: nat, count: nat)

  predicate IsToken(t: Token) {
    t.Match? ==> 1 <= t.reach <= 4096 && 3 <= t.count <= 18
  }

  predicate AllTokens(tokens: seq<Token>) {
    forall i :: 0 <= i < |tokens| ==> IsToken(tokens[i])
  }

  // ----- what tokens mean

  function Repeat(output: seq<byte>, reach: nat, count: nat): (r: seq<byte>)
    requires reach > 0
    ensures |r| == |output| + count
    decreases count
  {
    if count == 0 then output
    else Repeat(output + [if reach <= |output| then output[|output| - reach] else 0], reach, count - 1)
  }

  function Write(output: seq<byte>, t: Token): (r: seq<byte>)
    requires IsToken(t)
    ensures |r| > |output|
  {
    match t
    case Literal(value) => output + [value]
    case Match(reach, count) => Repeat(output, reach, count)
  }

  function Expand(output: seq<byte>, tokens: seq<Token>): (r: seq<byte>)
    requires AllTokens(tokens)
    ensures |r| >= |output| + |tokens|
    decreases |tokens|
  {
    if tokens == [] then output else Expand(Write(output, tokens[0]), tokens[1..])
  }

  // ----- how they are stored

  /** Twelve bits of distance, 4096 stored as 0, and four bits of length less three. */
  function TokenBytes(t: Token): seq<byte>
    requires IsToken(t)
  {
    match t
    case Literal(value) => [value]
    case Match(reach, count) => [reach % 4096 % 256, reach % 4096 / 256 + (count - 3) * 16]
  }

  function GroupBytes(group: seq<Token>): seq<byte>
    requires AllTokens(group)
  {
    if group == [] then [] else TokenBytes(group[0]) + GroupBytes(group[1..])
  }

  /** One bit a token, the first token lowest. */
  function Control(group: seq<Token>): (c: nat)
    requires |group| <= 8
    ensures |group| == 0 ==> c == 0
    ensures c < Bits.Pow2(|group|)
  {
    if group == [] then 0 else (if group[0].Match? then 1 else 0) + 2 * Control(group[1..])
  }

  function ControlByte(group: seq<Token>): byte
    requires |group| <= 8
  {
    EightBits(|group|);
    Control(group)
  }

  lemma EightBits(n: nat)
    requires n <= 8
    ensures Bits.Pow2(n) <= 256
  {
    Bits.Pow2AtLeast(n, 8);
    assert Bits.Pow2(8) == 256;
  }

  /** Groups of eight tokens, each behind its control byte. */
  function Stream(tokens: seq<Token>): seq<byte>
    requires AllTokens(tokens)
  {
    if tokens == [] then []
    else
      var n := FirstGroup(tokens);
      [ControlByte(tokens[..n])] + GroupBytes(tokens[..n]) + Stream(tokens[n..])
  }

  function FirstGroup(tokens: seq<Token>): (n: nat)
    requires tokens != []
    ensures 0 < n <= 8 && n <= |tokens| && (n == 8 || n == |tokens|)
  {
    if |tokens| < 8 then |tokens| else 8
  }

  function Encoded(tokens: seq<Token>): seq<byte>
    requires AllTokens(tokens) && |Expand([], tokens)| < UINT32
  {
    LittleEndian(|Expand([], tokens)|) + Stream(tokens)
  }

  // ----- decoding undoes encoding

  ghost predicate Holds(data: seq<byte>, at: nat, bytes: seq<byte>) {
    at + |bytes| <= |data| && forall i {:trigger bytes[i]} :: 0 <= i < |bytes| ==> data[at + i] == bytes[i]
  }

  lemma HoldsParts(data: seq<byte>, at: nat, a: seq<byte>, b: seq<byte>)
    requires Holds(data, at, a + b)
    ensures Holds(data, at, a) && Holds(data, at + |a|, b)
  {
    forall i | 0 <= i < |a| ensures data[at + i] == a[i] { assert (a + b)[i] == a[i]; }
    forall i | 0 <= i < |b| ensures data[at + |a| + i] == b[i] { assert (a + b)[|a| + i] == b[i]; }
  }

  lemma {:induction false} CopyRepeats(output: seq<byte>, distance: nat, count: nat, target: nat)
    requires |output| + count <= target
    ensures Copied(output, distance, count, target) == Repeat(output, Reach(distance), count)
    decreases count
  {
    if count > 0 {
      CopyRepeats(output + [Back(output, distance)], distance, count - 1, target);
    }
  }

  lemma MatchFields(t: Token)
    requires t.Match? && IsToken(t)
    ensures var b := TokenBytes(t);
            |b| == 2 && Reach(Distance(b[0], b[1])) == t.reach && Length(b[1]) == t.count
  {
    var d := t.reach % 4096;
    assert (d / 256 + (t.count - 3) * 16) % 16 == d / 256;
    assert d % 256 + d / 256 * 256 == d;
  }

  lemma ItemDecodes(data: seq<byte>, p: Progress, t: Token, target: nat)
    requires IsToken(t) && Holds(data, p.cursor, TokenBytes(t)) && |Write(p.output, t)| <= target
    ensures Item(data, p, t.Match?, target) == Progress(p.cursor + |TokenBytes(t)|, p.truncated, Write(p.output, t))
  {
    var b := TokenBytes(t);
    assert data[p.cursor + 0] == b[0];
    if t.Match? {
      assert data[p.cursor + 1] == b[1];
      MatchFields(t);
      CopyRepeats(p.output, Distance(b[0], b[1]), t.count, target);
    }
  }

  /** The bits of a control byte, from `bit` on, tell the copies from the literals. */
  predicate Flags(control: byte, bit: nat, group: seq<Token>)
    decreases |group|
  {
    group == [] || ((BitSet(control, bit) <==> group[0].Match?) && Flags(control, bit + 1, group[1..]))
  }

  lemma {:induction false} ControlFlags(group: seq<Token>, bit: nat)
    requires bit <= |group| <= 8
    ensures Flags(ControlByte(group), bit, group[bit..])
    decreases |group| - bit
  {
    if bit < |group| {
      ControlBits(group, bit);
      ControlFlags(group, bit + 1);
      assert group[bit..][1..] == group[bit + 1..];
    }
  }

  lemma {:induction false} ControlBits(group: seq<Token>, bit: nat)
    requires bit < |group| <= 8
    ensures BitSet(ControlByte(group), bit) <==> group[bit].Match?
  {
    EightBits(|group|);
    if bit > 0 {
      ControlBits(group[1..], bit - 1);
      EightBits(|group| - 1);
      NextBit(ControlByte(group), ControlByte(group[1..]), bit);
    }
  }

  lemma NextBit(c: byte, half: byte, bit: nat)
    requires 0 < bit < 8 && half == c / 2
    ensures BitSet(c, bit) == BitSet(half, bit - 1)
  {
    var p := Bits.Pow2(bit - 1);
    Bits.DivMod(half, p);
    assert Bits.Pow2(bit) == 2 * p;
    Bits.Associate(2, p, half / p);
    Bits.ModUnique(c, 2 * p, half / p, 2 * (half % p) + c % 2);
  }

  /** The tokens stand in the data one after the other. */
  ghost predicate HoldsTokens(data: seq<byte>, at: nat, group: seq<Token>)
    requires AllTokens(group)
    decreases |group|
  {
    group == []
    || (Holds(data, at, TokenBytes(group[0])) && HoldsTokens(data, at + |TokenBytes(group[0])|, group[1..]))
  }

  lemma {:induction false} BytesHoldTokens(data: seq<byte>, at: nat, group: seq<Token>)
    requires AllTokens(group) && Holds(data, at, GroupBytes(group))
    ensures HoldsTokens(data, at, group)
    decreases |group|
  {
    if group != [] {
      HoldsParts(data, at, TokenBytes(group[0]), GroupBytes(group[1..]));
      BytesHoldTokens(data, at + |TokenBytes(group[0])|, group[1..]);
    }
  }

  function AfterToken(p: Progress, t: Token): Progress
    requires IsToken(t)
  {
    Progress(p.cursor + |TokenBytes(t)|, p.truncated, Write(p.output, t))
  }

  lemma GroupStep(data: seq<byte>, p: Progress, control: byte, bit: nat, t: Token, target: nat)
    requires IsToken(t) && bit < 8 && Holds(data, p.cursor, TokenBytes(t)) && |Write(p.output, t)| <= target
    requires BitSet(control, bit) <==> t.Match?
    ensures Group(data, p, control, bit, target) == Group(data, AfterToken(p, t), control, bit + 1, target)
  {
    ItemDecodes(data, p, t, target);
  }

  function AfterGroup(p: Progress, group: seq<Token>): Progress
    requires AllTokens(group)
  {
    Progress(p.cursor + |GroupBytes(group)|, p.truncated, Expand(p.output, group))
  }

  lemma {:induction false} GroupDecodes(
    data: seq<byte>, p: Progress, control: byte, bit: nat, group: seq<Token>, target: nat)
    requires AllTokens(group) && bit + |group| <= 8 && HoldsTokens(data, p.cursor, group)
    requires Flags(control, bit, group)
    requires |Expand(p.output, group)| <= target
    requires bit + |group| == 8 || |Expand(p.output, group)| == target
    ensures Group(data, p, control, bit, target) == AfterGroup(p, group)
    decreases |group|
  {
    if group == [] {
      assert AfterGroup(p, group) == p;
    } else {
      HeadIsHeld(data, p, control, bit, group);
      GroupStep(data, p, control, bit, group[0], target);
      GroupDecodes(data, AfterToken(p, group[0]), control, bit + 1, group[1..], target);
    }
  }

  lemma HeadIsHeld(data: seq<byte>, p: Progress, control: byte, bit: nat, group: seq<Token>)
    requires AllTokens(group) && group != [] && HoldsTokens(data, p.cursor, group) && Flags(control, bit, group)
    ensures Holds(data, p.cursor, TokenBytes(group[0])) && (BitSet(control, bit) <==> group[0].Match?)
    ensures HoldsTokens(data, AfterToken(p, group[0]).cursor, group[1..]) && Flags(control, bit + 1, group[1..])
    ensures |Write(p.output, group[0])| <= |Expand(p.output, group)|
  {
  }

  lemma {:induction false} ExpandParts(output: seq<byte>, tokens: seq<Token>, n: nat)
    requires AllTokens(tokens) && n <= |tokens|
    ensures Expand(output, tokens) == Expand(Expand(output, tokens[..n]), tokens[n..])
    decreases n
  {
    if n == 0 {
      assert tokens[0..] == tokens;
    } else {
      ExpandParts(Write(output, tokens[0]), tokens[1..], n - 1);
      assert tokens[..n][1..] == tokens[1..][..n - 1] && tokens[n..] == tokens[1..][n - 1..];
    }
  }

  lemma WholeGroupDecodes(data: seq<byte>, p: Progress, group: seq<Token>, target: nat)
    requires AllTokens(group) && |group| <= 8 && Holds(data, p.cursor, GroupBytes(group))
    requires |Expand(p.output, group)| <= target
    requires |group| == 8 || |Expand(p.output, group)| == target
    ensures Group(data, p, ControlByte(group), 0, target) == AfterGroup(p, group)
  {
    BytesHoldTokens(data, p.cursor, group);
    ControlFlags(group, 0);
    assert group[0..] == group;
    GroupDecodes(data, p, ControlByte(group), 0, group, target);
  }

  lemma GroupsStep(data: seq<byte>, p: Progress, control: byte, c: byte, target: nat)
    requires |p.output| < target && p.cursor < |data| && data[p.cursor] == c
    ensures Groups(data, p, control, target)
            == Groups(data, Group(data, p.(cursor := p.cursor + 1), c, 0, target), c, target)
  {
  }

  /** A control byte and its tokens; only the last group may be short. */
  lemma OneGroupDecodes(data: seq<byte>, p: Progress, control: byte, group: seq<Token>, target: nat)
    requires AllTokens(group) && 0 < |group| <= 8 && Holds(data, p.cursor, [ControlByte(group)] + GroupBytes(group))
    requires |Expand(p.output, group)| <= target
    requires |group| == 8 || |Expand(p.output, group)| == target
    ensures Groups(data, p, control, target)
            == Groups(data, AfterGroup(p.(cursor := p.cursor + 1), group), ControlByte(group), target)
  {
    var c := ControlByte(group);
    HoldsParts(data, p.cursor, [c], GroupBytes(group));
    assert data[p.cursor + 0] == [c][0];
    WholeGroupDecodes(data, p.(cursor := p.cursor + 1), group, target);
    GroupsStep(data, p, control, c, target);
  }

  lemma {:induction false} StreamDecodes(data: seq<byte>, p: Progress, control: byte, tokens: seq<Token>)
    requires AllTokens(tokens) && Holds(data, p.cursor, Stream(tokens))
    ensures Groups(data, p, control, |Expand(p.output, tokens)|)
            == Progress(p.cursor + |Stream(tokens)|, p.truncated, Expand(p.output, tokens))
    decreases |tokens|
  {
    if tokens != [] {
      var n := FirstGroup(tokens);
      var group, rest := tokens[..n], tokens[n..];
      var q := AfterGroup(p.(cursor := p.cursor + 1), group);
      ExpandParts(p.output, tokens, n);
      StreamParts(data, p.cursor, tokens);
      OneGroupDecodes(data, p, control, group, |Expand(p.output, tokens)|);
      StreamDecodes(data, q, ControlByte(group), rest);
    }
  }

  lemma StreamParts(data: seq<byte>, at: nat, tokens: seq<Token>)
    requires AllTokens(tokens) && tokens != [] && Holds(data, at, Stream(tokens))
    ensures var n := FirstGroup(tokens);
            var (group, rest) := (tokens[..n], tokens[n..]);
            && |Stream(tokens)| == 1 + |GroupBytes(group)| + |Stream(rest)|
            && Holds(data, at, [ControlByte(group)] + GroupBytes(group))
            && Holds(data, at + 1 + |GroupBytes(group)|, Stream(rest))
  {
    var n := FirstGroup(tokens);
    var head := [ControlByte(tokens[..n])] + GroupBytes(tokens[..n]);
    assert Stream(tokens) == head + Stream(tokens[n..]);
    HoldsParts(data, at, head, Stream(tokens[n..]));
  }

  lemma HeaderDecodes(data: seq<byte>, at: nat, w: nat)
    requires w < UINT32 && Holds(data, at, LittleEndian(w))
    ensures at + 4 <= |data| && Word(data, at) == w
  {
    var b := LittleEndian(w);
    assert data[at + 0] == b[0] && data[at + 1] == b[1] && data[at + 2] == b[2] && data[at + 3] == b[3];
    FourBytes(w);
  }

  /** Wherever an encoding stands in a file, decoding there gives back what its tokens mean, from exactly
      its own bytes, and not truncated. */
  lemma DecodeUndoesEncode(before: seq<byte>, tokens: seq<Token>, after: seq<byte>, maxSize: int)
    requires AllTokens(tokens) && 0 < |Expand([], tokens)| <= maxSize && |Expand([], tokens)| < UINT32
    ensures Decode(before + Encoded(tokens) + after, |before|, maxSize)
            == Ok(Expand([], tokens), |Encoded(tokens)|, false)
  {
    var data, target := before + Encoded(tokens) + after, |Expand([], tokens)|;
    forall i | 0 <= i < |Encoded(tokens)| ensures data[|before| + i] == Encoded(tokens)[i] {}
    HoldsParts(data, |before|, LittleEndian(target), Stream(tokens));
    HeaderDecodes(data, |before|, target);
    StreamDecodes(data, Progress(|before| + 4, false, []), 0, tokens);
  }

  lemma {:induction false} LiteralsExpand(output: seq<byte>, payload: seq<byte>)
    ensures Expand(output, seq(|payload|, i requires 0 <= i < |payload| => Literal(payload[i]))) == output + payload
    decreases |payload|
  {
    var tokens := seq(|payload|, i requires 0 <= i < |payload| => Literal(payload[i]));
    if payload != [] {
      LiteralsExpand(output + [payload[0]], payload[1..]);
      assert tokens[1..] == seq(|payload[1..]|, i requires 0 <= i < |payload[1..]| => Literal(payload[1..][i]));
      assert output + [payload[0]] + payload[1..] == output + payload;
    }
  }

  /** Every payload of a legal size is what some stream decodes to. */
  lemma EveryPayloadHasAStream(payload: seq<byte>, maxSize: int)
    requires 0 < |payload| <= maxSize && |payload| < UINT32
    ensures exists data: seq<byte> :: Decode(data, 0, maxSize) == Ok(payload, |data|, false)
  {
    var tokens := seq(|payload|, i requires 0 <= i < |payload| => Literal(payload[i]));
    LiteralsExpand([], payload);
    assert [] + payload == payload;
    DecodeUndoesEncode([], tokens, [], maxSize);
    assert [] + Encoded(tokens) + [] == Encoded(tokens);
  }
}
