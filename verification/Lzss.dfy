// The LZSS stream format of the disc, decoded twice by the tools: with a 4096-byte circular
// window, and here also by the plain "copy from what was already written" meaning.

/** What an LZSS stream means, stated on the output history alone: no window, no start position. */
module LzssHistory {
  import opened Basics
  import Bits

  const DEFAULT_MAX_IMAGE_SIZE: int := 8 * 1024 * 1024

  /** How far the decoder got: bytes taken from `data`, whether it ran off the end, bytes written. */
  datatype Progress = Progress(cursor: nat, truncated: bool, output: seq<byte>)

  datatype Taken = Taken(value: byte, progress: Progress)

  /** The byte at the cursor; past the end of the data, `fallback` without moving. */
  function ReadOr(data: seq<byte>, p: Progress, fallback: byte): (t: Taken)
    ensures t.progress.output == p.output
    ensures p.cursor <= t.progress.cursor <= p.cursor + 1
    ensures p.cursor <= |data| ==> t.progress.cursor <= |data|
  {
    if p.cursor >= |data| then Taken(fallback, p.(truncated := true))
    else Taken(data[p.cursor], p.(cursor := p.cursor + 1))
  }

  /** A distance field of 0 reaches back a full window. */
  function Reach(distance: nat): nat {
    if distance == 0 then 4096 else distance
  }

  /** The byte written `Reach(distance)` bytes ago; before the start of the output there are zeros. */
  function Back(output: seq<byte>, distance: nat): byte {
    if Reach(distance) <= |output| then output[|output| - Reach(distance)] else 0
  }

  /** `count` copied bytes, clipped at `target`; a copy may overlap what it is writing. */
  function Copied(output: seq<byte>, distance: nat, count: nat, target: nat): (r: seq<byte>)
    requires |output| <= target
    ensures output <= r
    ensures |r| == if |output| + count <= target then |output| + count else target
    decreases count
  {
    if count == 0 || |output| == target then output
    else Copied(output + [Back(output, distance)], distance, count - 1, target)
  }

  /** Twelve bits of distance across the two bytes of a back reference. */
  function Distance(low: byte, high: byte): (d: nat)
    ensures d < 4096
  {
    low as int + high as int % 16 * 256
  }

  function Length(high: byte): nat {
    high as int / 16 + 3
  }

  /** One item of a group: a two-byte back reference, or one literal byte. */
  function Item(data: seq<byte>, p: Progress, isCopy: bool, target: nat): (r: Progress)
    requires |p.output| < target
    ensures |p.output| < |r.output| <= target
    ensures p.cursor <= r.cursor
    ensures p.cursor <= |data| ==> r.cursor <= |data|
    ensures |r.output| < target ==> r.cursor - p.cursor <= |r.output| - |p.output|
    ensures r.cursor - p.cursor <= |r.output| - |p.output| + 1
  {
    if isCopy then
      var low := ReadOr(data, p, 0);
      var high := ReadOr(data, low.progress, low.value);
      high.progress.(output :=
        Copied(p.output, Distance(low.value, high.value), Length(high.value), target))
    else
      var literal := ReadOr(data, p, 0);
      literal.progress.(output := p.output + [literal.value])
  }

  predicate BitSet(control: byte, bit: nat) {
    control / Bits.Pow2(bit) % 2 == 1
  }

  /** The items of one control byte from `bit` on. */
  function Group(data: seq<byte>, p: Progress, control: byte, bit: nat, target: nat): (r: Progress)
    requires bit <= 8 && |p.output| <= target
    ensures p.cursor <= r.cursor && |p.output| <= |r.output| <= target
    ensures p.cursor <= |data| ==> r.cursor <= |data|
    ensures |r.output| < target ==> r.cursor - p.cursor <= |r.output| - |p.output|
    ensures |r.output| < target ==> |r.output| - |p.output| >= 8 - bit
    ensures r.cursor - p.cursor <= |r.output| - |p.output| + 1
    ensures bit < 8 && |p.output| < target ==> |p.output| < |r.output|
    decreases target - |p.output|
  {
    if bit == 8 || |p.output| == target then p
    else Group(data, Item(data, p, BitSet(control, bit), target), control, bit + 1, target)
  }

  /** Groups until `target` bytes are out; a control byte past the end repeats the previous one. */
  function Groups(data: seq<byte>, p: Progress, control: byte, target: nat): (r: Progress)
    requires |p.output| <= target
    ensures |r.output| == target && p.cursor <= r.cursor
    ensures p.cursor <= |data| ==> r.cursor <= |data|
    decreases target - |p.output|
  {
    if |p.output| == target then p
    else
      var c := ReadOr(data, p, control);
      Groups(data, Group(data, c.progress, c.value, 0, target), c.value, target)
  }

  datatype Error = NoHeader | BadSize

  datatype Decoded =
    | Ok(payload: seq<byte>, consumed: int, truncated: bool)
    | Err(error: Error)

  /** The meaning of the stream starting at `offset`. */
  function Decode(data: seq<byte>, offset: int, maxSize: int): Decoded {
    if offset < 0 || offset + 4 > |data| then Err(NoHeader)
    else if Word(data, offset) == 0 || Word(data, offset) > maxSize then Err(BadSize)
    else
      var end := Groups(data, Progress(offset + 4, false, []), 0, Word(data, offset));
      Ok(end.output, end.cursor - offset, end.truncated)
  }

  /** What the extractor hands on: the bytes, or the refusal. */
  datatype Expanded = Payload(bytes: seq<byte>) | Rejected(error: Error)

  ghost function PayloadOf(d: Decoded): Expanded {
    match d
    case Ok(payload, _, _) => Payload(payload)
    case Err(e) => Rejected(e)
  }

  // ----- length and consumption

  /** Every group but the last writes at least eight bytes, so control bytes are few. */
  lemma {:induction false} GroupsConsumption(data: seq<byte>, p: Progress, control: byte, target: nat)
    requires |p.output| <= target
    ensures var r := Groups(data, p, control, target);
            r.cursor - p.cursor <= (target - |p.output|) + (target - |p.output| + 7) / 8 + 1
    decreases target - |p.output|
  {
    if |p.output| < target {
      var c := ReadOr(data, p, control);
      var g := Group(data, c.progress, c.value, 0, target);
      if |g.output| < target {
        GroupsConsumption(data, g, c.value, target);
      }
    }
  }

  /** A legal header always decodes, to exactly the declared length, from a bounded prefix. */
  lemma DecodeIsTotalAndBounded(data: seq<byte>, offset: int, maxSize: int)
    ensures Decode(data, offset, maxSize).Ok? <==>
            0 <= offset && offset + 4 <= |data| && 0 < Word(data, offset) <= maxSize
    ensures var r := Decode(data, offset, maxSize);
            r.Ok? ==>
              && |r.payload| == Word(data, offset)
              && 4 <= r.consumed <= |data| - offset
              && r.consumed <= |r.payload| + (|r.payload| + 7) / 8 + 5
  {
    if 0 <= offset && offset + 4 <= |data| {
      GroupsConsumption(data, Progress(offset + 4, false, []), 0, Word(data, offset));
    }
  }

  // ----- members embedded in a packet

  /** The same progress seen from a member that starts at `start`. */
  function Shift(p: Progress, start: nat): Progress
    requires start <= p.cursor
  {
    p.(cursor := p.cursor - start)
  }

  lemma ReadIsLocal(data: seq<byte>, start: nat, end: nat, p: Progress, fallback: byte)
    requires start <= p.cursor && end <= |data|
    requires ReadOr(data, p, fallback).progress.cursor <= end
    ensures var t := ReadOr(data, p, fallback);
            ReadOr(data[start..end], Shift(p, start), fallback) == Taken(t.value, Shift(t.progress, start))
  {
  }

  lemma ItemIsLocal(data: seq<byte>, start: nat, end: nat, p: Progress, isCopy: bool, target: nat)
    requires start <= p.cursor && end <= |data| && |p.output| < target
    requires Item(data, p, isCopy, target).cursor <= end
    ensures Item(data[start..end], Shift(p, start), isCopy, target) == Shift(Item(data, p, isCopy, target), start)
  {
    ReadIsLocal(data, start, end, p, 0);
    if isCopy {
      var low := ReadOr(data, p, 0);
      ReadIsLocal(data, start, end, low.progress, low.value);
    }
  }

  lemma {:induction false} GroupIsLocal(
    data: seq<byte>, start: nat, end: nat, p: Progress, control: byte, bit: nat, target: nat)
    requires start <= p.cursor && end <= |data| && bit <= 8 && |p.output| <= target
    requires Group(data, p, control, bit, target).cursor <= end
    ensures Group(data[start..end], Shift(p, start), control, bit, target)
            == Shift(Group(data, p, control, bit, target), start)
    decreases 8 - bit
  {
    if bit < 8 && |p.output| < target {
      var i := Item(data, p, BitSet(control, bit), target);
      ItemIsLocal(data, start, end, p, BitSet(control, bit), target);
      GroupIsLocal(data, start, end, i, control, bit + 1, target);
    }
  }

  lemma {:induction false} GroupsAreLocal(
    data: seq<byte>, start: nat, end: nat, p: Progress, control: byte, target: nat)
    requires start <= p.cursor && end <= |data| && |p.output| <= target
    requires Groups(data, p, control, target).cursor <= end
    ensures Groups(data[start..end], Shift(p, start), control, target)
            == Shift(Groups(data, p, control, target), start)
    decreases target - |p.output|
  {
    if |p.output| < target {
      var c := ReadOr(data, p, control);
      var g := Group(data, c.progress, c.value, 0, target);
      ReadIsLocal(data, start, end, p, control);
      GroupIsLocal(data, start, end, c.progress, c.value, 0, target);
      GroupsAreLocal(data, start, end, g, c.value, target);
    }
  }

  /** The census's test for keeping a packet member is exactly "the member decodes the same
      on its own": payload, consumed count and truncation flag. */
  lemma MemberLocality(data: seq<byte>, start: nat, end: nat, maxSize: int)
    requires start <= end <= |data|
    requires Decode(data, start, maxSize).Ok?
    ensures start + Decode(data, start, maxSize).consumed <= end
            <==> Decode(data[start..end], 0, maxSize) == Decode(data, start, maxSize)
  {
    DecodeIsTotalAndBounded(data, start, maxSize);
    DecodeIsTotalAndBounded(data[start..end], 0, maxSize);
    if start + Decode(data, start, maxSize).consumed <= end {
      assert Word(data[start..end], 0) == Word(data, start);
      GroupsAreLocal(data, start, end, Progress(start + 4, false, []), 0, Word(data, start));
    }
  }
}

/** The decoder as it is written: a circular window, a cursor and an output buffer. */
module LzssWindow {
  import opened Basics
  import opened LzssHistory

  const WINDOW_START: nat := 0xFEE

  /** What a window slot holds after `output` was written from slot `start` on:
      the latest byte that landed there, or the initial zero. */
  function Slot(output: seq<byte>, start: nat, at: nat): byte
    requires start < 4096 && at < 4096
  {
    var age := (start + |output| - 1 - at) % 4096;
    if age < |output| then output[|output| - 1 - age] else 0
  }

  /** Writing at the window position replaces one slot and leaves the others. */
  lemma SlotAfterWrite(output: seq<byte>, value: byte, start: nat, at: nat)
    requires start < 4096 && at < 4096
    ensures Slot(output + [value], start, at)
            == if at == (start + |output|) % 4096 then value else Slot(output, start, at)
  {
    var age := (start + |output| - 1 - at) % 4096;
    assert at != (start + |output|) % 4096 ==> (start + |output| - at) % 4096 == age + 1;
  }

  /** The window read of a back reference is the history read, wherever the window starts. */
  lemma SlotIsBack(output: seq<byte>, start: nat, distance: nat)
    requires start < 4096 && distance < 4096
    ensures Slot(output, start, ((start + |output|) % 4096 - distance) % 4096) == Back(output, distance)
  {
    var at := ((start + |output|) % 4096 - distance) % 4096;
    assert (start + |output| - 1 - at) % 4096 == (if distance == 0 then 4095 else distance - 1);
  }

  class Decoder {
    const data: seq<byte>
    const targetSize: nat
    ghost const start: nat
    const window: array<byte>
    var windowAt: nat
    var cursor: nat
    var truncated: bool
    var output: seq<byte>

    ghost predicate Valid()
      reads this, window
    {
      && start < 4096
      && window.Length == 4096
      && windowAt == (start + |output|) % 4096
      && |output| <= targetSize
      && forall at :: 0 <= at < 4096 ==> window[at] == Slot(output, start, at)
    }

    ghost function At(): Progress
      reads this
    {
      Progress(cursor, truncated, output)
    }

    constructor (data: seq<byte>, cursor: nat, targetSize: nat, start: nat)
      requires start < 4096
      ensures Valid() && fresh(window)
      ensures this.data == data && this.targetSize == targetSize
      ensures At() == Progress(cursor, false, [])
    {
      this.data, this.targetSize, this.start := data, targetSize, start;
      window := new byte[4096](_ => 0);
      windowAt := start;
      this.cursor, truncated, output := cursor, false, [];
    }

    method ReadOr(fallback: byte) returns (value: byte)
      requires Valid()
      modifies this`cursor, this`truncated
      ensures Valid()
      ensures Taken(value, At()) == LzssHistory.ReadOr(data, old(At()), fallback)
    {
      if cursor >= |data| {
        truncated := true;
        return fallback;
      }
      value := data[cursor];
      cursor := cursor + 1;
    }

    method Emit(value: byte)
      requires Valid()
      modifies this`output, this`windowAt, window
      ensures Valid()
      ensures output == if |old(output)| < targetSize then old(output) + [value] else old(output)
    {
      if |output| >= targetSize {
        return;
      }
      forall at | 0 <= at < 4096
        ensures Slot(output + [value], start, at) == if at == windowAt then value else Slot(output, start, at)
      {
        SlotAfterWrite(output, value, start, at);
      }
      output := output + [value];
      window[windowAt] := value;
      windowAt := (windowAt + 1) % 4096;
    }

    method Copy(distance: nat, count: nat)
      requires Valid() && distance < 4096
      modifies this`output, this`windowAt, window
      ensures Valid()
      ensures output == Copied(old(output), distance, count, targetSize)
    {
      for i := 0 to count
        invariant Valid()
        invariant Copied(output, distance, count - i, targetSize) == Copied(old(output), distance, count, targetSize)
      {
        SlotIsBack(output, start, distance);
        Emit(window[(windowAt - distance) % 4096]);
      }
    }

    method Item(isCopy: bool)
      requires Valid() && |output| < targetSize
      modifies this, window
      ensures Valid()
      ensures At() == LzssHistory.Item(data, old(At()), isCopy, targetSize)
    {
      if isCopy {
        var low := ReadOr(0);
        var high := ReadOr(low);
        Copy(Distance(low, high), Length(high));
      } else {
        var literal := ReadOr(0);
        Emit(literal);
      }
    }

    method Group(control: byte)
      requires Valid() && |output| < targetSize
      modifies this, window
      ensures Valid()
      ensures At() == LzssHistory.Group(data, old(At()), control, 0, targetSize)
    {
      for bit := 0 to 8
        invariant Valid() && |output| < targetSize
        invariant LzssHistory.Group(data, At(), control, bit, targetSize)
                  == LzssHistory.Group(data, old(At()), control, 0, targetSize)
      {
        Item(BitSet(control, bit));
        if |output| >= targetSize {
          break;
        }
      }
    }

    method Run()
      requires Valid()
      modifies this, window
      ensures Valid()
      ensures At() == Groups(data, old(At()), 0, targetSize)
    {
      var control: byte := 0;
      while |output| < targetSize
        invariant Valid()
        invariant Groups(data, At(), control, targetSize) == Groups(data, old(At()), 0, targetSize)
        decreases targetSize - |output|
      {
        control := ReadOr(control);
        Group(control);
      }
    }
  }

  /** `lzss_decompress_with_status`: the window decoder computes the meaning of the stream. */
  method DecompressWithStatus(data: seq<byte>, offset: int, maxSize: int) returns (r: Decoded)
    ensures r == Decode(data, offset, maxSize)
  {
    if offset < 0 || offset + 4 > |data| {
      return Err(NoHeader);
    }
    var targetSize := Word(data, offset);
    if targetSize <= 0 || targetSize > maxSize {
      return Err(BadSize);
    }
    var d := new Decoder(data, offset + 4, targetSize, WINDOW_START);
    d.Run();
    DecodeIsTotalAndBounded(data, offset, maxSize);
    r := Ok(d.output, (if d.cursor < |data| then d.cursor else |data|) - offset, d.truncated);
  }

  /** `lzss_decompress`: the same stream from offset 0 at the 8 MiB limit, without the status. */
  method Decompress(data: seq<byte>) returns (r: Expanded)
    ensures r == PayloadOf(Decode(data, 0, DEFAULT_MAX_IMAGE_SIZE))
  {
    if |data| < 4 {
      return Rejected(NoHeader);
    }
    var targetSize := Word(data, 0);
    if targetSize <= 0 || targetSize > 8 * 1024 * 1024 {
      return Rejected(BadSize);
    }
    var d := new Decoder(data, 4, targetSize, WINDOW_START);
    d.Run();
    r := Payload(d.output);
  }
}

/** Packet containers: an offset table followed by members that may be LZSS streams. */
module Packet {
  import opened Basics
  import opened LzssHistory

  /** `packet_offsets`: the member boundaries, or nothing when the table is not a packet's. */
  function Offsets(data: seq<byte>, maxMembers: nat): (r: Option<seq<nat>>)
    ensures r.Some? ==> |r.value| >= 2 && r.value[|r.value| - 1] == |data|
    ensures r.Some? ==> forall i, j :: 0 <= i <= j < |r.value| ==> 12 <= r.value[i] <= r.value[j] <= |data|
  {
    if |data| < 12 then None
    else
      var count := Word(data, 0);
      var headerSize := 4 * count + 8;
      if count == 0 || count > maxMembers || headerSize > |data| then None
      else
        var offsets := seq(count + 1, i requires 0 <= i < count + 1 => Word(data, 4 + i * 4));
        if || offsets[0] != headerSize
           || offsets[count] != |data|
           || (exists i :: 0 <= i < |offsets| && (offsets[i] < headerSize || offsets[i] > |data|))
           || (exists i :: 0 <= i < |offsets| - 1 && offsets[i] > offsets[i + 1])
        then None
        else
          AdjacentOrderIsOrder(offsets);
          Some(offsets)
  }

  lemma AdjacentOrderIsOrder(s: seq<nat>)
    requires forall i :: 0 <= i < |s| - 1 ==> s[i] <= s[i + 1]
    ensures forall i, j :: 0 <= i <= j < |s| ==> s[i] <= s[j]
  {
    if s != [] {
      var front := s[..|s| - 1];
      AdjacentOrderIsOrder(front);
      assert forall i :: 0 <= i < |front| ==> s[i] == front[i] <= front[|front| - 1] == s[|s| - 2];
    }
  }

  /** A packet, by its table alone: boundaries that never step back, from the end of the table to the end of
      the file. */
  ghost predicate IsPacket(data: seq<byte>, maxMembers: nat) {
    && |data| >= 12
    && var count := Word(data, 0);
    && 0 < count <= maxMembers && 4 * count + 8 <= |data|
    && Word(data, 4) == 4 * count + 8 && Word(data, 4 + 4 * count) == |data|
    && forall i :: 0 <= i < count ==> Word(data, 4 + i * 4) <= Word(data, 4 + (i + 1) * 4)
  }

  lemma PacketsAreAccepted(data: seq<byte>, maxMembers: nat)
    requires IsPacket(data, maxMembers)
    ensures Offsets(data, maxMembers).Some?
  {
    var count := Word(data, 0);
    var offsets := seq(count + 1, i requires 0 <= i < count + 1 => Word(data, 4 + i * 4));
    forall i | 0 <= i < |offsets| - 1 ensures offsets[i] <= offsets[i + 1] {
      assert Word(data, 4 + i * 4) <= Word(data, 4 + (i + 1) * 4);
    }
    AdjacentOrderIsOrder(offsets);
    forall i | 0 <= i < |offsets| ensures 4 * count + 8 <= offsets[i] <= |data| {
      assert offsets[0] <= offsets[i] && offsets[i] <= offsets[count];
    }
  }

  /** The four tests on a table accept exactly the packets, and read their boundaries as they stand. */
  lemma OffsetsAreThePacketTable(data: seq<byte>, maxMembers: nat)
    ensures Offsets(data, maxMembers).Some? <==> IsPacket(data, maxMembers)
    ensures Offsets(data, maxMembers).Some? ==>
              && |Offsets(data, maxMembers).value| == Word(data, 0) + 1
              && forall i :: 0 <= i <= Word(data, 0) ==> Offsets(data, maxMembers).value[i] == Word(data, 4 + i * 4)
  {
    if IsPacket(data, maxMembers) {
      PacketsAreAccepted(data, maxMembers);
    }
    if Offsets(data, maxMembers).Some? {
      var offsets := Offsets(data, maxMembers).value;
      forall i | 0 <= i < Word(data, 0) ensures Word(data, 4 + i * 4) <= Word(data, 4 + (i + 1) * 4) {
        assert offsets[i] <= offsets[i + 1];
      }
    }
  }

  function Members(data: seq<byte>, offsets: seq<nat>): seq<seq<byte>>
    requires offsets != []
    requires forall i, j :: 0 <= i <= j < |offsets| ==> offsets[i] <= offsets[j] <= |data|
  {
    seq(|offsets| - 1, i requires 0 <= i < |offsets| - 1 => data[offsets[i]..offsets[i + 1]])
  }

  /** The members lie end to end: nothing between the table and the end of the file belongs to none. */
  lemma {:induction false} MembersTile(data: seq<byte>, offsets: seq<nat>)
    requires offsets != []
    requires forall i, j :: 0 <= i <= j < |offsets| ==> offsets[i] <= offsets[j] <= |data|
    ensures Flatten(Members(data, offsets)) == data[offsets[0]..offsets[|offsets| - 1]]
    decreases |offsets|
  {
    if |offsets| > 1 {
      var rest := offsets[1..];
      MembersTile(data, rest);
      MembersHead(data, offsets);
      SlicesJoin(data, offsets[0], offsets[1], offsets[|offsets| - 1]);
    }
  }

  lemma MembersHead(data: seq<byte>, offsets: seq<nat>)
    requires |offsets| > 1
    requires forall i, j :: 0 <= i <= j < |offsets| ==> offsets[i] <= offsets[j] <= |data|
    ensures Members(data, offsets) == [data[offsets[0]..offsets[1]]] + Members(data, offsets[1..])
  {
  }

  lemma SlicesJoin(data: seq<byte>, a: nat, b: nat, c: nat)
    requires a <= b <= c <= |data|
    ensures data[a..b] + data[b..c] == data[a..c]
  {
  }

  /** `_analyse_payload` keeps a member when it decodes in place without running past its end. */
  predicate MemberAccepted(data: seq<byte>, start: int, end: int, maxSize: int) {
    var r := Decode(data, start, maxSize);
    r.Ok? && start + r.consumed <= end
  }

  /** For every member of every packet: it is accepted exactly when its own slice is a legal stream
      that decodes to the same payload, consumed count and status as in place; the extractor's own
      decoder then gives that payload too. */
  lemma AcceptedMembersStandAlone(data: seq<byte>, maxMembers: nat, maxSize: int, i: nat)
    requires Offsets(data, maxMembers).Some? && i + 1 < |Offsets(data, maxMembers).value|
    ensures var offsets := Offsets(data, maxMembers).value;
            var (start, end) := (offsets[i], offsets[i + 1]);
            var alone := Decode(data[start..end], 0, maxSize);
            && (MemberAccepted(data, start, end, maxSize) <==> alone.Ok? && alone == Decode(data, start, maxSize))
            && (MemberAccepted(data, start, end, maxSize) && maxSize <= DEFAULT_MAX_IMAGE_SIZE ==>
                  PayloadOf(Decode(data[start..end], 0, DEFAULT_MAX_IMAGE_SIZE))
                    == Payload(Decode(data, start, maxSize).payload))
  {
    var offsets := Offsets(data, maxMembers).value;
    if Decode(data, offsets[i], maxSize).Ok? {
      MemberLocality(data, offsets[i], offsets[i + 1], maxSize);
    }
  }
}
