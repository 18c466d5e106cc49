/** Hexadecimal text and whitespace-separated fields. */
module HexText {
  import opened Basics

  function Digit(d: nat, upper: bool): char
    requires d < 16
  {
    if d < 10 then '0' + d as char else (if upper then 'A' else 'a') + (d - 10) as char
  }

  function Value(c: char): Option<nat> {
    if '0' <= c <= '9' then Some((c - '0') as nat)
    else if 'A' <= c <= 'F' then Some((c - 'A') as nat + 10)
    else if 'a' <= c <= 'f' then Some((c - 'a') as nat + 10)
    else None
  }

  function Digits(n: nat, upper: bool): (s: string)
    ensures s != ""
  {
    if n < 16 then [Digit(n, upper)] else Digits(n / 16, upper) + [Digit(n % 16, upper)]
  }

  function Zeros(count: nat): string {
    if count == 0 then "" else Zeros(count - 1) + "0"
  }

  /** `f"{n:0{width}X}"` */
  function Padded(n: nat, width: nat, upper: bool): (s: string)
    ensures s != ""
  {
    var d := Digits(n, upper);
    (if |d| < width then Zeros(width - |d|) else "") + d
  }

  predicate AllHex(s: string) {
    forall i :: 0 <= i < |s| ==> Value(s[i]).Some?
  }

  /** `int(s, 16)`: a sign, a prefix and single underscores before digits are allowed. */
  function Parse(s: string): Option<int> {
    match ParseDigits(Unprefixed(Unsigned(s)))
    case None => None
    case Some(n) => Some(if s[0] == '-' then -n else n)
  }

  function Unsigned(s: string): (r: string)
    ensures r != "" ==> s != ""
  {
    if s != "" && (s[0] == '-' || s[0] == '+') then s[1..] else s
  }

  function Unprefixed(s: string): (r: string)
    ensures r != "" ==> s != ""
  {
    if |s| < 2 || s[0] != '0' || (s[1] != 'x' && s[1] != 'X') then s
    else if |s| > 2 && s[2] == '_' then s[3..] else s[2..]
  }

  /** Digits, the last of them last, with at most one underscore between two of them. */
  function ParseDigits(s: string): (r: Option<int>)
    ensures r.Some? ==> s != "" && r.value >= 0
  {
    if s == "" || Value(s[|s| - 1]).None? then None
    else
      var last, front := Value(s[|s| - 1]).value, s[..|s| - 1];
      if front == "" then Some(last)
      else
        match ParseDigits(if front[|front| - 1] == '_' then front[..|front| - 1] else front)
        case None => None
        case Some(n) => Some(n * 16 + last)
  }

  lemma {:induction false} ParseHexDigits(s: string)
    requires s != "" && AllHex(s)
    ensures ParseDigits(s) == Some(Amount(s))
  {
    var front := s[..|s| - 1];
    if front == "" {
      assert Amount(front) == 0;
    } else {
      assert Value('_').None? && Value(s[|s| - 2]).Some?;
      ParseHexDigits(front);
    }
  }

  lemma ParseHex(s: string)
    requires s != "" && AllHex(s)
    ensures Parse(s) == Some(Amount(s))
  {
    assert Value('-').None? && Value('+').None? && Value('x').None? && Value('X').None?;
    assert Value(s[0]).Some? && (|s| > 1 ==> Value(s[1]).Some?);
    ParseHexDigits(s);
  }

  function Amount(s: string): nat
    requires AllHex(s)
  {
    if s == "" then 0 else Amount(s[..|s| - 1]) * 16 + Value(s[|s| - 1]).value
  }

  lemma {:induction false} AmountOfDigits(n: nat, upper: bool)
    ensures AllHex(Digits(n, upper)) && Amount(Digits(n, upper)) == n
  {
    var s := Digits(n, upper);
    if n < 16 {
      assert s[..0] == "";
    } else {
      AmountOfDigits(n / 16, upper);
      assert s[..|s| - 1] == Digits(n / 16, upper);
    }
  }

  lemma {:induction false} AmountOfZeros(count: nat, s: string)
    requires AllHex(s)
    ensures AllHex(Zeros(count) + s) && Amount(Zeros(count) + s) == Amount(s)
    decreases count, |s|
  {
    if s != "" {
      var z, front, last := Zeros(count), s[..|s| - 1], s[|s| - 1];
      AmountOfZeros(count, front);
      assert s == front + [last] && z + s == z + front + [last];
    } else if count > 0 {
      var z := Zeros(count - 1);
      AmountOfZeros(count - 1, "");
      assert Zeros(count) + "" == z + "0" && z + "" == z;
    }
  }

  /** Reading back a formatted number gives the number. */
  lemma ParsePadded(n: nat, width: nat, upper: bool)
    ensures Parse(Padded(n, width, upper)) == Some(n)
    ensures AllHex(Padded(n, width, upper))
  {
    var count := ZerosBefore(n, width, upper);
    AmountOfDigits(n, upper);
    AmountOfZeros(count, Digits(n, upper));
    ParseHex(Padded(n, width, upper));
  }

  lemma ZerosBefore(n: nat, width: nat, upper: bool) returns (count: nat)
    ensures Padded(n, width, upper) == Zeros(count) + Digits(n, upper)
  {
    var d := Digits(n, upper);
    count := if |d| < width then width - |d| else 0;
  }

  // ----- fields and lines

  /** The white space of ASCII, as Python has it. */
  predicate IsSpace(c: char) {
    '\t' <= c <= '\r' || '\U{001C}' <= c <= ' '
  }

  /** A nonempty run of characters with no whitespace in it. */
  predicate IsField(s: string) {
    s != "" && forall i :: 0 <= i < |s| ==> !IsSpace(s[i])
  }

  /** Where the leading run of non-spaces ends. */
  function FieldEnd(s: string): (n: nat)
    ensures n <= |s|
    ensures forall i :: 0 <= i < n ==> !IsSpace(s[i])
    ensures n < |s| ==> IsSpace(s[n])
  {
    if s == "" || IsSpace(s[0]) then 0 else 1 + FieldEnd(s[1..])
  }

  /** `s.split()` */
  function Fields(s: string): seq<string>
    decreases |s|
  {
    if s == "" then []
    else if IsSpace(s[0]) then Fields(s[1..])
    else [s[..FieldEnd(s)]] + Fields(s[FieldEnd(s)..])
  }

  lemma {:induction false} FieldEndOfField(field: string, rest: string)
    requires (forall i :: 0 <= i < |field| ==> !IsSpace(field[i])) && (rest == "" || IsSpace(rest[0]))
    ensures FieldEnd(field + rest) == |field|
  {
    if field == "" {
      assert field + rest == rest;
    } else {
      FieldEndOfField(field[1..], rest);
      assert (field + rest)[1..] == field[1..] + rest;
    }
  }

  /** Splitting takes off the first field. */
  lemma FirstField(field: string, rest: string)
    requires IsField(field) && (rest == "" || IsSpace(rest[0]))
    ensures Fields(field + rest) == [field] + Fields(rest)
  {
    FieldEndOfField(field, rest);
    assert (field + rest)[..|field|] == field && (field + rest)[|field|..] == rest;
  }

  function Join(fields: seq<string>): string {
    if fields == [] then "" else if |fields| == 1 then fields[0] else fields[0] + " " + Join(fields[1..])
  }

  lemma {:induction false} FieldsOfJoin(fields: seq<string>)
    requires forall i :: 0 <= i < |fields| ==> IsField(fields[i])
    ensures Fields(Join(fields)) == fields
  {
    if |fields| == 1 {
      FirstField(fields[0], "");
      assert fields[0] + "" == fields[0];
    } else if |fields| > 1 {
      var rest := " " + Join(fields[1..]);
      FieldsOfJoin(fields[1..]);
      FirstField(fields[0], rest);
      assert fields[0] + " " + Join(fields[1..]) == fields[0] + rest;
    }
  }

  predicate IsBreak(c: char) {
    c == '\n' || c == '\r'
  }

  predicate OneLine(s: string) {
    forall i :: 0 <= i < |s| ==> !IsBreak(s[i])
  }

  lemma {:induction false} JoinIsOneLine(fields: seq<string>)
    requires forall i :: 0 <= i < |fields| ==> IsField(fields[i])
    ensures OneLine(Join(fields))
  {
    if |fields| == 1 {
      assert IsField(fields[0]);
    } else if |fields| > 1 {
      assert IsField(fields[0]);
      JoinIsOneLine(fields[1..]);
    }
  }

  lemma HexIsField(s: string)
    requires s != "" && AllHex(s)
    ensures IsField(s)
  {
    forall i | 0 <= i < |s| ensures !IsSpace(s[i]) {
      assert Value(s[i]).Some?;
    }
  }

  /** The lines of a text, without their ends; `\n`, `\r` and `\r\n` end a line. */
  function Lines(text: string): seq<string>
    decreases |text|
  {
    if text == "" then []
    else
      var n := LineEnd(text);
      [text[..n]] + (if n < |text| then Lines(text[n + BreakLength(text, n)..]) else [])
  }

  function BreakLength(text: string, n: nat): (k: nat)
    requires n < |text|
    ensures 1 <= k <= 2 && n + k <= |text|
  {
    if text[n] == '\r' && n + 1 < |text| && text[n + 1] == '\n' then 2 else 1
  }

  function LineEnd(text: string): (n: nat)
    ensures n <= |text|
    ensures OneLine(text[..n])
    ensures n < |text| ==> IsBreak(text[n])
  {
    if text == "" || IsBreak(text[0]) then 0
    else
      var n := LineEnd(text[1..]);
      assert text[..n + 1] == [text[0]] + text[1..][..n];
      n + 1
  }

  lemma FirstLine(line: string, rest: string)
    requires OneLine(line)
    ensures Lines(line + "\n" + rest) == [line] + Lines(rest)
  {
    LineEndOfLine(line, "\n" + rest);
    var text := line + "\n" + rest;
    assert text == line + ("\n" + rest);
    assert text[|line|] == '\n' && text[..|line|] == line && text[|line| + 1..] == rest;
  }

  lemma {:induction false} LineEndOfLine(line: string, rest: string)
    requires OneLine(line) && rest != "" && rest[0] == '\n'
    ensures LineEnd(line + rest) == |line|
  {
    if line == "" {
      assert line + rest == rest;
    } else {
      LineEndOfLine(line[1..], rest);
      assert (line + rest)[1..] == line[1..] + rest;
    }
  }

  function Unlines(lines: seq<string>): string {
    if lines == [] then "" else lines[0] + "\n" + Unlines(lines[1..])
  }

  lemma {:induction false} LinesOfUnlines(lines: seq<string>)
    requires forall i :: 0 <= i < |lines| ==> OneLine(lines[i])
    ensures Lines(Unlines(lines)) == lines
  {
    if lines != [] {
      LinesOfUnlines(lines[1..]);
      FirstLine(lines[0], Unlines(lines[1..]));
    }
  }
}

/** The `.ranges` manifest of a published overlay: how it is written and what its readers see. */
module Manifest {
  import opened Basics
  import opened HexText

  datatype Range = Range(start: int, length: nat)

  /** One compiled function: its entry, the checksum of its code and the code's ranges. */
  datatype FuncId = FuncId(entry: nat, crc: int, ranges: seq<Range>)

  datatype Key = Key(entry: int, crc: int)

  function UpperChar(c: char): char {
    if 'a' <= c <= 'z' then c - 'a' + 'A' else c
  }

  /** `s.upper()` on ASCII. */
  function Upper(s: string): (r: string)
    ensures |r| == |s|
    ensures forall i :: 0 <= i < |s| ==> r[i] == UpperChar(s[i])
  {
    seq(|s|, i requires 0 <= i < |s| => UpperChar(s[i]))
  }

  /** What the manifest says besides its functions; `game` and `catalog` are upper-case digests. */
  datatype Header = Header(
    pairId: nat, game: string, catalog: string, load: nat, size: nat, crc: nat, variant: Option<string>)

  predicate IsHeader(h: Header) {
    && h.game != "" && AllHex(h.game) && h.catalog != "" && AllHex(h.catalog)
    && (h.variant.Some? ==> |h.variant.value| == 64 && AllHex(h.variant.value))
  }

  function Hex8(n: nat): string {
    Padded(n, 8, true)
  }

  const TITLE: seq<string> := ["#", "psxrecomp", "overlay", "code-range", "manifest", "v2", "(entry+code_crc)"]

  function PairRecord(h: Header): seq<string> { ["P", Padded(h.pairId, 16, true)] }
  function IdentityRecord(h: Header): seq<string> { ["I", h.game, h.catalog] }
  function ArtifactRecord(h: Header): seq<string> { ["A", Hex8(h.load), Hex8(h.size), Hex8(h.crc)] }
  function VariantRecord(variant: string): seq<string> { ["V", Upper(variant)] }

  function HeaderRecords(h: Header): seq<seq<string>> {
    [TITLE, PairRecord(h), IdentityRecord(h), ArtifactRecord(h)]
    + (if h.variant.Some? then [VariantRecord(h.variant.value)] else [])
  }

  function RangeRecord(r: Range): seq<string> {
    ["R", Hex8(r.start % PHYSICAL + 0x8000_0000), Padded(r.length, 0, true)]
  }

  function RangeRecords(ranges: seq<Range>): seq<seq<string>> {
    if ranges == [] then []
    else RangeRecords(ranges[..|ranges| - 1]) + [RangeRecord(ranges[|ranges| - 1])]
  }

  function FuncRecord(id: FuncId): seq<string> {
    ["F", Hex8(id.entry), Hex8(id.crc % UINT32)]
  }

  function FuncRecords(ids: seq<FuncId>): seq<seq<string>> {
    if ids == [] then []
    else FuncRecords(ids[..|ids| - 1]) + [FuncRecord(ids[|ids| - 1])] + RangeRecords(ids[|ids| - 1].ranges)
  }

  method AppendRanges(records: seq<seq<string>>, ranges: seq<Range>) returns (r: seq<seq<string>>)
    ensures r == records + RangeRecords(ranges)
  {
    r := records;
    for k := 0 to |ranges|
      invariant r == records + RangeRecords(ranges[..k])
    {
      assert ranges[..k + 1][..k] == ranges[..k];
      r := r + [RangeRecord(ranges[k])];
    }
    assert ranges[..|ranges|] == ranges;
  }

  lemma FuncRecordsStep(ids: seq<FuncId>, i: nat, before: seq<seq<string>>)
    requires i < |ids|
    ensures before + FuncRecords(ids[..i + 1])
            == before + FuncRecords(ids[..i]) + [FuncRecord(ids[i])] + RangeRecords(ids[i].ranges)
  {
    assert ids[..i + 1][..i] == ids[..i];
  }

  method AppendFunctions(records: seq<seq<string>>, ids: seq<FuncId>) returns (r: seq<seq<string>>)
    ensures r == records + FuncRecords(ids)
  {
    r := records;
    for i := 0 to |ids|
      invariant r == records + FuncRecords(ids[..i])
    {
      FuncRecordsStep(ids, i, records);
      r := AppendRanges(r + [FuncRecord(ids[i])], ids[i].ranges);
    }
    assert ids[..|ids|] == ids;
  }

  /** `overlay_ranges_text`: the records of the header and of the functions, one a line. A variant
      identity that is not a digest is refused. */
  method OverlayRangesText(ids: seq<FuncId>, h: Header) returns (text: Option<string>)
    ensures text == TextOf(ids, h)
  {
    if h.variant.Some? && (|h.variant.value| != 64 || !AllHex(h.variant.value)) {
      return None;
    }
    var records := AppendFunctions(HeaderRecords(h), ids);
    return Some(Unlines(Joined(records)));
  }

  function Joined(records: seq<seq<string>>): (lines: seq<string>)
    ensures |lines| == |records|
    ensures forall i :: 0 <= i < |lines| ==> lines[i] == Join(records[i])
  {
    seq(|records|, i requires 0 <= i < |records| => Join(records[i]))
  }

  function TextOf(ids: seq<FuncId>, h: Header): Option<string> {
    if h.variant.Some? && (|h.variant.value| != 64 || !AllHex(h.variant.value)) then None
    else Some(Unlines(Joined(HeaderRecords(h) + FuncRecords(ids))))
  }

  // ----- the readers

  /** The fields of every line. */
  function FieldsOf(text: string): (f: seq<seq<string>>)
    ensures |f| == |Lines(text)|
    ensures forall i :: 0 <= i < |f| ==> f[i] == Fields(Lines(text)[i])
  {
    var lines := Lines(text);
    seq(|lines|, i requires 0 <= i < |lines| => Fields(lines[i]))
  }

  /** The identity a function line carries; other and malformed lines have none. */
  function RecordKey(record: seq<string>): Option<Key> {
    if |record| >= 3 && record[0] == "F" && Parse(record[1]).Some? && Parse(record[2]).Some?
    then Some(Key(Parse(record[1]).value, Parse(record[2]).value)) else None
  }

  function KeysIn(records: seq<seq<string>>): set<Key> {
    set p | p in records && RecordKey(p).Some? :: RecordKey(p).value
  }

  /** The function identities one manifest provides. */
  function CoverageOf(text: string): set<Key> {
    KeysIn(FieldsOf(text))
  }

  predicate IsImmutableName(name: string) {
    && |name| == 33
    && AllHex(name[..8]) && name[8] == '_' && AllHex(name[9..17]) && name[17] == '_' && AllHex(name[18..26])
    && name[26..] == ".ranges"
  }

  predicate OfRegion(name: string, phys: nat) {
    Hex8(phys) + "_" <= name && IsImmutableName(name)
  }

  lemma OneMoreKey(records: seq<seq<string>>, i: nat)
    requires i < |records|
    ensures var key := RecordKey(records[i]);
            KeysIn(records[..i + 1]) == KeysIn(records[..i]) + if key.Some? then {key.value} else {}
  {
    TakeOneMore(records, i);
  }

  method AddCoverage(covered: set<Key>, text: string) returns (r: set<Key>)
    ensures r == covered + CoverageOf(text)
  {
    r := covered;
    var lines := FieldsOf(text);
    for i := 0 to |lines|
      invariant r == covered + KeysIn(lines[..i])
    {
      OneMoreKey(lines, i);
      if RecordKey(lines[i]).Some? {
        r := r + {RecordKey(lines[i]).value};
      }
    }
    assert lines[..|lines|] == lines;
  }

  /** `load_region_coverage` over the files of the cache directory. */
  method LoadRegionCoverage(files: map<string, string>, phys: nat) returns (covered: set<Key>)
    ensures forall k :: k in covered <==>
              exists name :: name in files && OfRegion(name, phys) && k in CoverageOf(files[name])
  {
    covered := {};
    var rest := files.Keys;
    while rest != {}
      invariant rest <= files.Keys
      invariant forall k :: k in covered <==>
                  exists name :: name in files.Keys - rest && OfRegion(name, phys) && k in CoverageOf(files[name])
      decreases rest
    {
      var name :| name in rest;
      ghost var done := files.Keys - rest;
      if OfRegion(name, phys) {
        covered := AddCoverage(covered, files[name]);
      }
      rest := rest - {name};
      assert files.Keys - rest == done + {name};
    }
    assert files.Keys - {} == files.Keys;
  }

  // ----- round trips

  function Tag(record: seq<string>): string {
    if record == [] then "" else record[0]
  }

  predicate IsRecord(record: seq<string>) {
    forall k :: 0 <= k < |record| ==> IsField(record[k])
  }

  /** A line that carries no function identity. */
  predicate IsKeyless(record: seq<string>) {
    IsRecord(record) && RecordKey(record) == None
  }

  predicate FieldsOnly(records: seq<seq<string>>) {
    forall i :: 0 <= i < |records| ==> IsRecord(records[i])
  }

  lemma Hex8IsField(n: nat, width: nat)
    ensures IsField(Padded(n, width, true)) && Parse(Padded(n, width, true)) == Some(n)
  {
    ParsePadded(n, width, true);
    HexIsField(Padded(n, width, true));
  }

  lemma OtherRecord(record: seq<string>, tag: char)
    requires record != [] && record[0] == [tag] && tag != 'F'
    ensures RecordKey(record) == None && RecordEntry(record) == None
  {
    assert record[0][0] != "F"[0];
  }

  lemma TitleIsRecord()
    ensures IsKeyless(TITLE)
  {
    OtherRecord(TITLE, '#');
    TitleWords();
  }

  lemma TitleWords()
    ensures IsField("#") && IsField("psxrecomp") && IsField("overlay") && IsField("code-range")
    ensures IsField("manifest") && IsField("v2") && IsField("(entry+code_crc)")
  {
  }

  lemma PairIsRecord(h: Header)
    ensures IsKeyless(PairRecord(h))
  {
    OtherRecord(PairRecord(h), 'P');
    HexIsOneField(h.pairId, 16);
    TagIsField('P');
  }

  lemma IdentityIsRecord(h: Header)
    requires IsHeader(h)
    ensures IsKeyless(IdentityRecord(h))
  {
    OtherRecord(IdentityRecord(h), 'I');
    HexIsField(h.game);
    HexIsField(h.catalog);
    TagIsField('I');
  }

  lemma TagIsField(tag: char)
    requires !IsSpace(tag)
    ensures IsField([tag])
  {
  }

  lemma HexIsOneField(n: nat, width: nat)
    ensures IsField(Padded(n, width, true))
  {
    Hex8IsField(n, width);
  }

  lemma HexReadsBack(n: nat)
    ensures Parse(Hex8(n)) == Some(n)
  {
    Hex8IsField(n, 8);
  }

  lemma ArtifactIsRecord(h: Header)
    ensures IsKeyless(ArtifactRecord(h))
  {
    OtherRecord(ArtifactRecord(h), 'A');
    HexIsOneField(h.load, 8);
    HexIsOneField(h.size, 8);
    HexIsOneField(h.crc, 8);
    TagIsField('A');
  }

  lemma VariantIsRecord(variant: string)
    requires |variant| == 64 && AllHex(variant)
    ensures IsKeyless(VariantRecord(variant))
  {
    forall i | 0 <= i < |variant| ensures Value(Upper(variant)[i]).Some? {
      assert Value(variant[i]).Some?;
    }
    OtherRecord(VariantRecord(variant), 'V');
    HexIsField(Upper(variant));
    TagIsField('V');
  }

  lemma KeylessRecords(a: seq<string>, b: seq<string>, c: seq<string>, d: seq<string>, rest: seq<seq<string>>)
    requires IsKeyless(a) && IsKeyless(b) && IsKeyless(c) && IsKeyless(d) && (forall p :: p in rest ==> IsKeyless(p))
    ensures FieldsOnly([a, b, c, d] + rest) && KeysIn([a, b, c, d] + rest) == {}
  {
    var records := [a, b, c, d] + rest;
    assert forall p :: p in records ==> IsKeyless(p);
    assert forall i :: 0 <= i < |records| ==> records[i] in records;
  }

  lemma HeaderIsFields(h: Header)
    requires IsHeader(h)
    ensures FieldsOnly(HeaderRecords(h)) && KeysIn(HeaderRecords(h)) == {}
  {
    TitleIsRecord();
    PairIsRecord(h);
    IdentityIsRecord(h);
    ArtifactIsRecord(h);
    if h.variant.Some? {
      VariantIsRecord(h.variant.value);
      KeylessRecords(
        TITLE, PairRecord(h), IdentityRecord(h), ArtifactRecord(h), [VariantRecord(h.variant.value)]);
    } else {
      KeylessRecords(TITLE, PairRecord(h), IdentityRecord(h), ArtifactRecord(h), []);
    }
  }

  lemma RangeIsRecord(r: Range)
    ensures IsRecord(RangeRecord(r)) && RecordKey(RangeRecord(r)) == None
  {
    OtherRecord(RangeRecord(r), 'R');
    HexIsOneField(r.start % PHYSICAL + 0x8000_0000, 8);
    HexIsOneField(r.length, 0);
    TagIsField('R');
  }

  lemma KeysInAppend(a: seq<seq<string>>, b: seq<seq<string>>)
    ensures KeysIn(a + b) == KeysIn(a) + KeysIn(b)
  {
    assert forall p :: p in a + b <==> p in a || p in b;
  }

  lemma {:induction false} RangesCarryNothing(ranges: seq<Range>)
    ensures FieldsOnly(RangeRecords(ranges)) && KeysIn(RangeRecords(ranges)) == {}
    ensures forall p :: p in RangeRecords(ranges) ==> Tag(p) == "R"
  {
    if ranges != [] {
      var front, last := RangeRecords(ranges[..|ranges| - 1]), RangeRecord(ranges[|ranges| - 1]);
      RangesCarryNothing(ranges[..|ranges| - 1]);
      RangeIsRecord(ranges[|ranges| - 1]);
      KeysInAppend(front, [last]);
    }
  }

  function KeysOf(ids: seq<FuncId>): set<Key> {
    set id | id in ids :: KeyOf(id)
  }

  function KeyOf(id: FuncId): Key {
    Key(id.entry, id.crc % UINT32)
  }

  lemma FuncIsRecord(id: FuncId)
    ensures IsRecord(FuncRecord(id))
  {
    HexIsOneField(id.entry, 8);
    HexIsOneField(id.crc % UINT32, 8);
    TagIsField('F');
  }

  lemma FuncHasKey(id: FuncId)
    ensures RecordKey(FuncRecord(id)) == Some(KeyOf(id))
  {
    HexReadsBack(id.entry);
    HexReadsBack(id.crc % UINT32);
    NumbersAreKey(FuncRecord(id), id.entry, id.crc % UINT32);
  }

  lemma FuncCarriesItsKey(id: FuncId)
    ensures IsRecord(FuncRecord(id)) && KeysIn([FuncRecord(id)]) == {KeyOf(id)}
  {
    FuncIsRecord(id);
    FuncHasKey(id);
    assert RecordKey([FuncRecord(id)][0]) == Some(KeyOf(id));
  }

  lemma NumbersAreKey(p: seq<string>, entry: int, crc: int)
    requires |p| == 3 && p[0] == "F" && Parse(p[1]) == Some(entry) && Parse(p[2]) == Some(crc)
    ensures RecordKey(p) == Some(Key(entry, crc))
  {
  }

  lemma KeysOfAppend(ids: seq<FuncId>, id: FuncId)
    ensures KeysOf(ids + [id]) == KeysOf(ids) + {KeyOf(id)}
  {
  }

  lemma {:induction false} FuncsCarryTheirKeys(ids: seq<FuncId>)
    ensures FieldsOnly(FuncRecords(ids)) && KeysIn(FuncRecords(ids)) == KeysOf(ids)
  {
    if ids != [] {
      var front, id := ids[..|ids| - 1], ids[|ids| - 1];
      SplitLast(ids);
      FuncsCarryTheirKeys(front);
      FuncCarriesItsKey(id);
      RangesCarryNothing(id.ranges);
      OneMoreFunction(FuncRecords(front), id);
      KeysOfAppend(front, id);
    }
  }

  /** Reading a text of well-formed records gives the records back. */
  lemma FieldsOfRecords(records: seq<seq<string>>)
    requires FieldsOnly(records)
    ensures FieldsOf(Unlines(Joined(records))) == records
  {
    var lines := Joined(records);
    forall i | 0 <= i < |lines| ensures OneLine(lines[i]) && Fields(lines[i]) == records[i] {
      JoinIsOneLine(records[i]);
      FieldsOfJoin(records[i]);
    }
    LinesOfUnlines(lines);
  }

  lemma TextHasRecords(ids: seq<FuncId>, h: Header)
    requires IsHeader(h)
    ensures TextOf(ids, h).Some? && FieldsOf(TextOf(ids, h).value) == HeaderRecords(h) + FuncRecords(ids)
  {
    HeaderIsFields(h);
    FuncsCarryTheirKeys(ids);
    FieldsOfRecords(HeaderRecords(h) + FuncRecords(ids));
  }

  /** A published manifest round-trips: coverage read back is the set of (entry, code_crc) written. */
  lemma CoverageRoundTrip(ids: seq<FuncId>, h: Header)
    requires IsHeader(h)
    ensures TextOf(ids, h).Some? && CoverageOf(TextOf(ids, h).value) == KeysOf(ids)
  {
    TextHasRecords(ids, h);
    HeaderIsFields(h);
    FuncsCarryTheirKeys(ids);
    KeysInAppend(HeaderRecords(h), FuncRecords(ids));
  }

  // ----- entries of one artifact

  /** The artifact asked for; a missing load address stands for the region's. */
  datatype Query = Query(crc: nat, load: Option<int>, size: Option<int>)

  datatype Match = Yes | No | Malformed

  function MatchRecord(p: seq<string>, phys: nat, q: Query): Match {
    if |p| < 4 || p[0] != "A" then No
    else if Parse(p[1]).None? then Malformed
    else if Parse(p[1]).value % PHYSICAL != (if q.load.Some? then q.load.value else phys) % PHYSICAL then No
    else if q.size.Some? && Parse(p[2]).None? then Malformed
    else if q.size.Some? && Parse(p[2]).value != q.size.value then No
    else if Parse(p[3]).None? then Malformed
    else if Parse(p[3]).value == q.crc then Yes else No
  }

  /** The first line that decides. */
  function MatchText(records: seq<seq<string>>, phys: nat, q: Query): Match {
    if records == [] then No
    else if MatchRecord(records[0], phys, q) != No then MatchRecord(records[0], phys, q)
    else MatchText(records[1..], phys, q)
  }

  function RecordEntry(p: seq<string>): Option<int> {
    if |p| >= 2 && p[0] == "F" && Parse(p[1]).Some? then Some(Parse(p[1]).value % PHYSICAL) else None
  }

  function EntriesIn(records: seq<seq<string>>): set<int> {
    set p | p in records && RecordEntry(p).Some? :: RecordEntry(p).value
  }

  /** The entries one manifest offers to a query. */
  function EntriesOf(text: string, phys: nat, q: Option<Query>): set<int> {
    if q.Some? && MatchText(FieldsOf(text), phys, q.value) != Yes then {} else EntriesIn(FieldsOf(text))
  }

  lemma OneMoreEntry(records: seq<seq<string>>, i: nat)
    requires i < |records|
    ensures var entry := RecordEntry(records[i]);
            EntriesIn(records[..i + 1]) == EntriesIn(records[..i]) + if entry.Some? then {entry.value} else {}
  {
    TakeOneMore(records, i);
  }

  method AddEntries(out: set<int>, text: string, phys: nat, q: Option<Query>) returns (r: set<int>)
    ensures r == out + EntriesOf(text, phys, q)
  {
    r := out;
    var lines := FieldsOf(text);
    if q.Some? && MatchText(lines, phys, q.value) != Yes {
      return;
    }
    for i := 0 to |lines|
      invariant r == out + EntriesIn(lines[..i])
    {
      OneMoreEntry(lines, i);
      if RecordEntry(lines[i]).Some? {
        r := r + {RecordEntry(lines[i]).value};
      }
    }
    assert lines[..|lines|] == lines;
  }

  /** `load_region_entry_set` over the files of the cache directory. */
  method LoadRegionEntrySet(files: map<string, string>, phys: nat, q: Option<Query>) returns (out: set<int>)
    ensures forall e :: e in out <==>
              exists name :: name in files && OfRegion(name, phys) && e in EntriesOf(files[name], phys, q)
  {
    out := {};
    var rest := files.Keys;
    while rest != {}
      invariant rest <= files.Keys
      invariant forall e :: e in out <==>
                  exists name :: name in files.Keys - rest && OfRegion(name, phys)
                    && e in EntriesOf(files[name], phys, q)
      decreases rest
    {
      var name :| name in rest;
      ghost var done := files.Keys - rest;
      if OfRegion(name, phys) {
        out := AddEntries(out, files[name], phys, q);
      }
      rest := rest - {name};
      assert files.Keys - rest == done + {name};
    }
    assert files.Keys - {} == files.Keys;
  }

  function EntrySet(ids: seq<FuncId>): set<int> {
    set id | id in ids :: id.entry % PHYSICAL
  }

  lemma {:induction false} FuncsOfferTheirEntries(ids: seq<FuncId>)
    ensures EntriesIn(FuncRecords(ids)) == EntrySet(ids)
  {
    if ids != [] {
      var front, id := ids[..|ids| - 1], ids[|ids| - 1];
      SplitLast(ids);
      FuncsOfferTheirEntries(front);
      OneMoreFunction(FuncRecords(front), id);
      EntrySetAppend(front, id);
    }
  }

  lemma OneMoreFunction(records: seq<seq<string>>, id: FuncId)
    ensures EntriesIn(records + [FuncRecord(id)] + RangeRecords(id.ranges))
            == EntriesIn(records) + {id.entry % PHYSICAL}
    ensures KeysIn(records + [FuncRecord(id)] + RangeRecords(id.ranges)) == KeysIn(records) + {KeyOf(id)}
  {
    FuncOffersItsEntry(id);
    FuncCarriesItsKey(id);
    RangesOfferNothing(id.ranges);
    RangesCarryNothing(id.ranges);
    EntriesInAppend(records, [FuncRecord(id)]);
    EntriesInAppend(records + [FuncRecord(id)], RangeRecords(id.ranges));
    KeysInAppend(records, [FuncRecord(id)]);
    KeysInAppend(records + [FuncRecord(id)], RangeRecords(id.ranges));
  }

  predicate IsTail(records: seq<seq<string>>) {
    forall i :: 0 <= i < |records| ==> Tag(records[i]) != "A"
  }

  lemma {:induction false} FuncsAreTail(ids: seq<FuncId>)
    ensures IsTail(FuncRecords(ids))
  {
    if ids != [] {
      FuncsAreTail(ids[..|ids| - 1]);
      RangesOfferNothing(ids[|ids| - 1].ranges);
      assert Tag(FuncRecord(ids[|ids| - 1])) == "F";
    }
  }

  lemma FuncOffersItsEntry(id: FuncId)
    ensures EntriesIn([FuncRecord(id)]) == {id.entry % PHYSICAL} && Tag(FuncRecord(id)) == "F"
  {
    Hex8IsField(id.entry, 8);
    assert RecordEntry([FuncRecord(id)][0]) == Some(id.entry % PHYSICAL);
  }

  lemma RangesOfferNothing(ranges: seq<Range>)
    ensures EntriesIn(RangeRecords(ranges)) == {}
    ensures forall p :: p in RangeRecords(ranges) ==> Tag(p) == "R"
  {
    RangesCarryNothing(ranges);
    forall p | p in RangeRecords(ranges) ensures RecordEntry(p) == None {
      assert Tag(p) == "R";
    }
  }

  lemma EntriesInAppend(a: seq<seq<string>>, b: seq<seq<string>>)
    ensures EntriesIn(a + b) == EntriesIn(a) + EntriesIn(b)
  {
    assert forall p :: p in a + b <==> p in a || p in b;
  }

  lemma EntrySetAppend(ids: seq<FuncId>, id: FuncId)
    ensures EntrySet(ids + [id]) == EntrySet(ids) + {id.entry % PHYSICAL}
  {
  }

  lemma {:induction false} NoArtifactNoMatch(records: seq<seq<string>>, phys: nat, q: Query)
    requires IsTail(records)
    ensures MatchText(records, phys, q) == No
  {
    if records != [] {
      assert Tag(records[0]) != "A";
      NoArtifactNoMatch(records[1..], phys, q);
    }
  }

  /** The written artifact line answers the query. */
  predicate Asks(q: Query, phys: nat, h: Header) {
    && h.load % PHYSICAL == (if q.load.Some? then q.load.value else phys) % PHYSICAL
    && (q.size.Some? ==> h.size == q.size.value)
    && h.crc == q.crc
  }

  lemma MatchOfText(ids: seq<FuncId>, h: Header, phys: nat, q: Query)
    requires IsHeader(h)
    ensures MatchText(HeaderRecords(h) + FuncRecords(ids), phys, q) == if Asks(q, phys, h) then Yes else No
  {
    var tail := (if h.variant.Some? then [VariantRecord(h.variant.value)] else []) + FuncRecords(ids);
    FuncsAreTail(ids);
    NoArtifactNoMatch(tail, phys, q);
    ArtifactAnswers(h, phys, q);
    var artifact := [ArtifactRecord(h)] + tail;
    var identity := [IdentityRecord(h)] + artifact;
    var pair := [PairRecord(h)] + identity;
    RecordsInOrder(h, FuncRecords(ids));
    SkipRecord(TITLE, pair, phys, q);
    SkipRecord(PairRecord(h), identity, phys, q);
    SkipRecord(IdentityRecord(h), artifact, phys, q);
    FirstDecides(ArtifactRecord(h), tail, phys, q);
  }

  lemma RecordsInOrder(h: Header, functions: seq<seq<string>>)
    ensures var tail := (if h.variant.Some? then [VariantRecord(h.variant.value)] else []) + functions;
            HeaderRecords(h) + functions
            == [TITLE] + ([PairRecord(h)] + ([IdentityRecord(h)] + ([ArtifactRecord(h)] + tail)))
  {
  }

  lemma FirstDecides(p: seq<string>, rest: seq<seq<string>>, phys: nat, q: Query)
    requires MatchText(rest, phys, q) == No
    ensures MatchText([p] + rest, phys, q) == MatchRecord(p, phys, q)
  {
    assert ([p] + rest)[1..] == rest;
  }

  lemma SkipRecord(p: seq<string>, rest: seq<seq<string>>, phys: nat, q: Query)
    requires Tag(p) != "A"
    ensures MatchText([p] + rest, phys, q) == MatchText(rest, phys, q)
  {
    assert ([p] + rest)[1..] == rest;
  }

  lemma ArtifactAnswers(h: Header, phys: nat, q: Query)
    ensures MatchRecord(ArtifactRecord(h), phys, q) == if Asks(q, phys, h) then Yes else No
  {
    HexReadsBack(h.load);
    HexReadsBack(h.size);
    HexReadsBack(h.crc);
    NumbersAnswer(ArtifactRecord(h), phys, q, h.load, h.size, h.crc);
  }

  lemma NumbersAnswer(p: seq<string>, phys: nat, q: Query, load: int, size: int, crc: int)
    requires |p| == 4 && p[0] == "A" && Parse(p[1]) == Some(load) && Parse(p[2]) == Some(size)
            && Parse(p[3]) == Some(crc)
    ensures MatchRecord(p, phys, q)
            == if && load % PHYSICAL == (if q.load.Some? then q.load.value else phys) % PHYSICAL
                  && (q.size.Some? ==> size == q.size.value) && crc == q.crc then Yes else No
  {
  }

  lemma HeaderOffersNoEntry(h: Header)
    ensures EntriesIn(HeaderRecords(h)) == {}
  {
  }

  /** A published manifest answers exactly the queries for its artifact, with exactly its entries. */
  lemma EntriesRoundTrip(ids: seq<FuncId>, h: Header, phys: nat, q: Query)
    requires IsHeader(h)
    ensures TextOf(ids, h).Some?
    ensures EntriesOf(TextOf(ids, h).value, phys, Some(q)) == if Asks(q, phys, h) then EntrySet(ids) else {}
  {
    TextHasRecords(ids, h);
    MatchOfText(ids, h, phys, q);
    HeaderOffersNoEntry(h);
    FuncsOfferTheirEntries(ids);
    EntriesInAppend(HeaderRecords(h), FuncRecords(ids));
  }

  // ----- names

  /** The published manifest's file name: region, image checksum and publication suffix. */
  function RangesName(phys: nat, crc: nat, suffix: string): string {
    Hex8(phys) + "_" + Hex8(crc) + "_" + suffix + ".ranges"
  }

  lemma {:induction false} DigitsOf32Bits(n: nat, k: nat, upper: bool)
    requires k > 0 && n < Pow16(k)
    ensures |Digits(n, upper)| <= k
    decreases k
  {
    if n >= 16 {
      DigitsOf32Bits(n / 16, k - 1, upper);
    }
  }

  function Pow16(k: nat): nat {
    if k == 0 then 1 else 16 * Pow16(k - 1)
  }

  lemma {:induction false} ZerosLength(count: nat)
    ensures |Zeros(count)| == count
  {
    if count > 0 {
      ZerosLength(count - 1);
    }
  }

  lemma Hex8IsEightDigits(n: nat)
    requires n < UINT32
    ensures |Hex8(n)| == 8 && AllHex(Hex8(n))
  {
    assert Pow16(8) == UINT32;
    DigitsOf32Bits(n, 8, true);
    PaddedLength(n, 8, true);
    ParsePadded(n, 8, true);
  }

  lemma PaddedLength(n: nat, width: nat, upper: bool)
    ensures |Padded(n, width, upper)| == if |Digits(n, upper)| < width then width else |Digits(n, upper)|
  {
    if |Digits(n, upper)| < width {
      ZerosLength(width - |Digits(n, upper)|);
    }
  }

  lemma Hex8IsAtLeastEight(n: nat)
    ensures |Hex8(n)| >= 8 && AllHex(Hex8(n))
  {
    PaddedLength(n, 8, true);
    ParsePadded(n, 8, true);
  }

  lemma HexPrefixEndsAtUnderscore(hex: string, name: string)
    requires AllHex(hex) && |hex| >= 8 && hex <= name && |name| > 8 && name[8] == '_'
    ensures |hex| == 8
  {
    forall i | 0 <= i < |hex| ensures Value(name[i]).Some? {
      assert name[i] == hex[i];
    }
  }

  /** A region's readers see the files published for it, and no other region's. */
  lemma NameBelongsToItsRegion(phys: nat, crc: nat, suffix: string, other: nat)
    requires phys < UINT32 && crc < UINT32 && |suffix| == 8 && AllHex(suffix)
    ensures OfRegion(RangesName(phys, crc, suffix), other) <==> phys == other
  {
    Hex8IsEightDigits(phys);
    Hex8IsEightDigits(crc);
    Hex8IsAtLeastEight(other);
    var name := RangesName(phys, crc, suffix);
    assert name[..8] == Hex8(phys) && name[8] == '_' && name[9..17] == Hex8(crc) && name[17] == '_';
    assert name[18..26] == suffix && name[26..] == ".ranges";
    if Hex8(other) + "_" <= name {
      HexPrefixEndsAtUnderscore(Hex8(other), name);
      assert name[..8] == (Hex8(other) + "_")[..8] == Hex8(other);
      ParsePadded(phys, 8, true);
      ParsePadded(other, 8, true);
    }
  }
}
