/** Code identities of named functions: a list of code ranges and the digest of their bytes. */
module CodeIdentity {
  import opened Basics

  datatype Range = Range(address: int, size: int)

  datatype Code = Code(ranges: seq<Range>, digest: string)

  function Normalized(r: Range): Range {
    Range(r.address % PHYSICAL, r.size)
  }

  /** Where the code before a further range ends. */
  function EndOf(ranges: seq<Range>, base: int): int {
    if ranges == [] then base else ranges[|ranges| - 1].address + ranges[|ranges| - 1].size
  }

  /** Whole instructions inside [base, end), in order and without overlap. */
  predicate IsLayout(ranges: seq<Range>, base: int, end: int) {
    ranges == []
    || (IsLayout(ranges[..|ranges| - 1], base, end)
        && Follows(ranges[|ranges| - 1], EndOf(ranges[..|ranges| - 1], base), end))
  }

  /** Whole instructions between the previous range and the end of the image. */
  predicate Follows(r: Range, previous: int, end: int) {
    && previous <= r.address && r.address + r.size <= end
    && r.address % 4 == 0 && r.size > 0 && r.size % 4 == 0
  }

  lemma IsLayoutStep(ranges: seq<Range>, i: nat, base: int, end: int)
    requires i < |ranges| && IsLayout(ranges[..i], base, end)
    ensures IsLayout(ranges[..i + 1], base, end) <==> Follows(ranges[i], EndOf(ranges[..i], base), end)
  {
    assert ranges[..i + 1][..i] == ranges[..i];
  }

  lemma BytesOfStep(ranges: seq<Range>, i: nat, previous: int, base: int, memory: seq<byte>)
    requires i < |ranges| && base <= previous && Follows(ranges[i], previous, base + |memory|)
    ensures BytesOf(ranges[..i + 1], base, memory)
            == BytesOf(ranges[..i], base, memory)
               + memory[ranges[i].address - base..ranges[i].address - base + ranges[i].size]
  {
    var longer, r := ranges[..i + 1], ranges[i];
    assert longer[..|longer| - 1] == ranges[..i] && longer[|longer| - 1] == r;
    assert BytesOf(longer, base, memory) == BytesOf(ranges[..i], base, memory) + Slice(r, base, memory);
  }

  lemma {:induction false} LayoutPrefix(ranges: seq<Range>, i: nat, base: int, end: int)
    requires i <= |ranges| && IsLayout(ranges, base, end)
    ensures IsLayout(ranges[..i], base, end)
  {
    if i < |ranges| {
      LayoutPrefix(ranges[..|ranges| - 1], i, base, end);
      assert ranges[..|ranges| - 1][..i] == ranges[..i];
    } else {
      assert ranges[..i] == ranges;
    }
  }

  /** The bytes of one range in a memory that starts at `base`; none outside it. */
  function Slice(r: Range, base: int, memory: seq<byte>): seq<byte> {
    if base <= r.address && r.size >= 0 && r.address + r.size <= base + |memory|
    then memory[r.address - base..r.address - base + r.size] else []
  }

  /** The bytes of the ranges, one after the other. */
  function BytesOf(ranges: seq<Range>, base: int, memory: seq<byte>): seq<byte> {
    if ranges == [] then []
    else BytesOf(ranges[..|ranges| - 1], base, memory) + Slice(ranges[|ranges| - 1], base, memory)
  }

  function NormalizedAll(ranges: seq<Range>): (n: seq<Range>)
    ensures |n| == |ranges|
    ensures forall i :: 0 <= i < |n| ==> n[i] == Normalized(ranges[i])
  {
    seq(|ranges|, i requires 0 <= i < |ranges| => Normalized(ranges[i]))
  }

  /** The digesting loop over already normalized ranges. */
  method DigestRanges(n: seq<Range>, base: int, data: seq<byte>) returns (ok: bool, digested: seq<byte>)
    ensures ok <==> IsLayout(n, base, base + |data|)
    ensures ok ==> digested == BytesOf(n, base, data)
  {
    digested := [];
    ghost var end := base + |data|;
    var previous := base;
    for i := 0 to |n|
      invariant IsLayout(n[..i], base, end) && base <= previous == EndOf(n[..i], base)
      invariant digested == BytesOf(n[..i], base, data)
    {
      IsLayoutStep(n, i, base, end);
      if Follows(n[i], previous, base + |data|) {
        BytesOfStep(n, i, previous, base, data);
        digested := digested + data[n[i].address - base..n[i].address - base + n[i].size];
        previous := n[i].address + n[i].size;
      } else {
        if IsLayout(n, base, end) { LayoutPrefix(n, i + 1, base, end); }
        return false, digested;
      }
    }
    assert n[..|n|] == n;
    return true, digested;
  }

  /** `fingerprint`: refuses anything but an ordered layout inside the source image. `sha` stands for
      SHA-256. */
  method Fingerprint(ranges: seq<Range>, base: int, data: seq<byte>, sha: seq<byte> -> string) returns (r: Option<Code>)
    ensures var n := NormalizedAll(ranges);
            && (r.Some? <==> 0 < |n| <= 4096 && IsLayout(n, base, base + |data|))
            && (r.Some? ==> r.value == Code(n, sha(BytesOf(n, base, data))))
  {
    var n := NormalizedAll(ranges);
    if n == [] || |n| > 4096 {
      return None;
    }
    var ok, digested := DigestRanges(n, base, data);
    return if ok then Some(Code(n, sha(digested))) else None;
  }

  ghost predicate Injective(sha: seq<byte> -> string) {
    forall a, b :: sha(a) == sha(b) ==> a == b
  }

  /** Every range holds the same bytes in both memories, each from its own base. */
  ghost predicate SameCode(ranges: seq<Range>, base: int, image: seq<byte>, at: int, ram: seq<byte>) {
    forall i :: 0 <= i < |ranges| ==> Slice(ranges[i], base, image) == Slice(ranges[i], at, ram)
  }

  predicate InMemory(r: Range, base: int, memory: seq<byte>) {
    base <= r.address && r.size >= 0 && r.address + r.size <= base + |memory|
  }

  ghost predicate AllInMemory(ranges: seq<Range>, base: int, memory: seq<byte>) {
    forall i :: 0 <= i < |ranges| ==> InMemory(ranges[i], base, memory)
  }

  lemma {:induction false} LayoutIsInMemory(ranges: seq<Range>, base: int, memory: seq<byte>)
    requires IsLayout(ranges, base, base + |memory|)
    ensures AllInMemory(ranges, base, memory) && base <= EndOf(ranges, base)
  {
    if ranges != [] {
      var front := ranges[..|ranges| - 1];
      LayoutIsInMemory(front, base, memory);
      forall i | 0 <= i < |ranges| ensures InMemory(ranges[i], base, memory) {
        if i < |front| { assert InMemory(front[i], base, memory); }
      }
    }
  }

  lemma AppendsAgree<T>(a: seq<T>, x: seq<T>, b: seq<T>, y: seq<T>)
    requires |a| == |b|
    ensures a + x == b + y <==> a == b && x == y
  {
    assert (a + x)[..|a|] == a && (b + y)[..|b|] == b;
    assert (a + x)[|a|..] == x && (b + y)[|b|..] == y;
  }

  lemma SameCodeStep(ranges: seq<Range>, base: int, image: seq<byte>, at: int, ram: seq<byte>)
    requires ranges != []
    ensures var front, last := ranges[..|ranges| - 1], ranges[|ranges| - 1];
            SameCode(ranges, base, image, at, ram)
            <==> SameCode(front, base, image, at, ram) && Slice(last, base, image) == Slice(last, at, ram)
  {
    assert forall i :: 0 <= i < |ranges| - 1 ==> ranges[..|ranges| - 1][i] == ranges[i];
  }

  /** Concatenating the ranges' bytes loses nothing. */
  lemma {:induction false} EqualBytesIffSameCode(
    ranges: seq<Range>, base: int, image: seq<byte>, at: int, ram: seq<byte>)
    requires AllInMemory(ranges, base, image) && AllInMemory(ranges, at, ram)
    ensures BytesOf(ranges, base, image) == BytesOf(ranges, at, ram) <==> SameCode(ranges, base, image, at, ram)
    ensures |BytesOf(ranges, base, image)| == |BytesOf(ranges, at, ram)|
  {
    if ranges != [] {
      var front, last := ranges[..|ranges| - 1], ranges[|ranges| - 1];
      assert InMemory(ranges[|ranges| - 1], base, image) && InMemory(ranges[|ranges| - 1], at, ram);
      assert forall i :: 0 <= i < |front| ==> front[i] == ranges[i];
      EqualBytesIffSameCode(front, base, image, at, ram);
      SameCodeStep(ranges, base, image, at, ram);
      AppendsAgree(
        BytesOf(front, base, image), Slice(last, base, image), BytesOf(front, at, ram), Slice(last, at, ram));
    }
  }

  /** The code is the fingerprint of these ranges of the image. */
  ghost predicate IsFingerprint(code: Code, base: int, image: seq<byte>, sha: seq<byte> -> string) {
    IsLayout(code.ranges, base, base + |image|) && code.digest == sha(BytesOf(code.ranges, base, image))
  }

  /** What a fingerprint proves: in any memory that the image fits into, its digest matches exactly when the code
      ranges hold the image's bytes there, given a digest without collisions. */
  lemma DigestMatchesIffCodeIsThere(
    code: Code, base: int, image: seq<byte>, at: int, ram: seq<byte>, sha: seq<byte> -> string)
    requires IsFingerprint(code, base, image, sha) && Injective(sha)
    requires at <= base && base + |image| <= at + |ram|
    ensures sha(BytesOf(code.ranges, at, ram)) == code.digest <==> SameCode(code.ranges, base, image, at, ram)
  {
    LayoutIsInMemory(code.ranges, base, image);
    forall i | 0 <= i < |code.ranges| ensures InMemory(code.ranges[i], at, ram) {
      assert InMemory(code.ranges[i], base, image);
    }
    EqualBytesIffSameCode(code.ranges, base, image, at, ram);
  }
}

/** The generated native-mod symbol table: which guard each named function gets, and what it checks. */
module NativeSymbols {
  import opened Basics
  import opened CodeIdentity

  const RESIDENT := "resident"

  datatype Symbol = Symbol(name: string, address: int, image: string)

  /** One emitted guard record; `scope` is the index of an earlier one. */
  datatype Guard = Guard(code: Code, scope: Option<nat>)

  /** Emitted records can be evaluated: a scope is an earlier, unscoped record. */
  ghost predicate WellFormed(guards: seq<Guard>) {
    forall i :: 0 <= i < |guards| && guards[i].scope.Some? ==>
      guards[i].scope.value < i && guards[guards[i].scope.value].scope.None?
  }

  /** The emitted `available`, on whatever memory `live` describes. */
  function Available(guards: seq<Guard>, g: nat, live: Code -> bool): bool
    requires WellFormed(guards) && g < |guards|
    decreases g
  {
    && (guards[g].scope.None? || Available(guards, guards[g].scope.value, live))
    && live(guards[g].code)
  }

  datatype Key = Key(code: Code, scope: Option<Code>)

  /** What a record checks, with its scope spelled out. */
  function KeyOf(guards: seq<Guard>, g: nat): Key
    requires WellFormed(guards) && g < |guards|
  {
    Key(guards[g].code, if guards[g].scope.None? then None else Some(guards[guards[g].scope.value].code))
  }

  lemma AvailableMeans(guards: seq<Guard>, g: nat, live: Code -> bool)
    requires WellFormed(guards) && g < |guards|
    ensures var key := KeyOf(guards, g);
            Available(guards, g, live) <==> live(key.code) && (key.scope.Some? ==> live(key.scope.value))
  {
  }

  /** The memo table names every record, once, by what it checks. */
  ghost predicate Memo(guards: map<Key, nat>, lines: seq<Guard>) {
    && WellFormed(lines)
    && |guards| == |lines|
    && (forall key :: key in guards ==> guards[key] < |lines| && KeyOf(lines, guards[key]) == key)
    && (forall g :: 0 <= g < |lines| ==> KeyOf(lines, g) in guards && guards[KeyOf(lines, g)] == g)
  }

  lemma MemoGrows(guards: map<Key, nat>, lines: seq<Guard>, key: Key, line: Guard)
    requires Memo(guards, lines) && key !in guards
    requires line.code == key.code && key.scope.Some? == line.scope.Some?
    requires line.scope.Some? ==>
            line.scope.value < |lines| && KeyOf(lines, line.scope.value) == Key(key.scope.value, None)
    ensures Memo(guards[key := |lines|], lines + [line])
    ensures KeyOf(lines + [line], |lines|) == key
  {
    var more := lines + [line];
    assert more[|lines|] == line;
    forall g | 0 <= g < |more|
      ensures KeyOf(more, g) in guards[key := |lines|] && guards[key := |lines|][KeyOf(more, g)] == g
    {
      if g < |lines| {
        assert KeyOf(more, g) == KeyOf(lines, g);
      }
    }
  }

  /** The memoised `guard` closure with the records it has emitted. */
  class GuardCompiler {
    var guards: map<Key, nat>
    var lines: seq<Guard>

    ghost predicate Valid()
      reads this
    {
      Memo(guards, lines)
    }

    constructor ()
      ensures Valid() && lines == []
    {
      guards, lines := map[], [];
    }

    method Emit(key: Key, scopeName: Option<nat>) returns (name: nat)
      requires Valid() && key !in guards
      requires key.scope.Some? == scopeName.Some?
      requires scopeName.Some? ==>
              scopeName.value < |lines| && KeyOf(lines, scopeName.value) == Key(key.scope.value, None)
      modifies this
      ensures Valid() && guards == old(guards)[key := name]
      ensures old(lines) <= lines && name < |lines| && KeyOf(lines, name) == key
    {
      name := |guards|;
      MemoGrows(guards, lines, key, Guard(key.code, scopeName));
      guards := guards[key := name];
      lines := lines + [Guard(key.code, scopeName)];
    }

    /** The record for `code`, emitted at most once, after the record of its scope. */
    method GuardFor(code: Code, scope: Option<Code>) returns (name: nat)
      requires Valid()
      modifies this
      ensures Valid() && old(lines) <= lines
      ensures name < |lines| && KeyOf(lines, name) == Key(code, scope)
      ensures forall k :: k in guards ==> k in old(guards) || k == Key(code, scope) || k.scope.None?
      decreases scope.Some?
    {
      var key := Key(code, scope);
      if key in guards {
        return guards[key];
      }
      var scopeName: Option<nat> := None;
      if scope.Some? {
        var outer := GuardFor(scope.value, None);
        scopeName := Some(outer);
      }
      name := Emit(key, scopeName);
    }
  }

  // ----- owners and scopes

  /** A supported symbol with its authenticated code. */
  datatype Entry = Entry(symbol: Symbol, code: Code)

  /** A compiled variant of an image's code at an address. */
  datatype Variant = Variant(image: string, address: int, code: Code)

  datatype Place = Place(address: int, code: Code)

  function PlaceOf(address: int, code: Code): Place {
    Place(address % PHYSICAL, code)
  }

  /** The image carries this code at this physical address. */
  ghost predicate Owns(entries: seq<Entry>, variants: seq<Variant>, image: string, place: Place) {
    || (exists v :: v in variants && v.image == image && PlaceOf(v.address, v.code) == place)
    || (exists e :: e in entries && e.symbol.image == image && PlaceOf(e.symbol.address, e.code) == place)
  }

  function OwnersAt(owners: map<Place, set<string>>, place: Place): set<string> {
    if place in owners then owners[place] else {}
  }

  ghost predicate OwnersExact(owners: map<Place, set<string>>, entries: seq<Entry>, variants: seq<Variant>) {
    forall place, image :: image in OwnersAt(owners, place) <==> Owns(entries, variants, image, place)
  }

  function AddOwner(owners: map<Place, set<string>>, place: Place, image: string): (r: map<Place, set<string>>)
    ensures forall p, i :: i in OwnersAt(r, p) <==> i in OwnersAt(owners, p) || (p == place && i == image)
  {
    owners[place := OwnersAt(owners, place) + {image}]
  }

  lemma OneMoreVariant(entries: seq<Entry>, variants: seq<Variant>, v: Variant, image: string, place: Place)
    ensures Owns(entries, variants + [v], image, place)
            <==> Owns(entries, variants, image, place) || (v.image == image && PlaceOf(v.address, v.code) == place)
  {
    assert forall x :: x in variants + [v] <==> x in variants || x == v;
  }

  lemma OneMoreEntry(entries: seq<Entry>, variants: seq<Variant>, e: Entry, image: string, place: Place)
    ensures Owns(entries + [e], variants, image, place)
            <==> Owns(entries, variants, image, place)
                 || (e.symbol.image == image && PlaceOf(e.symbol.address, e.code) == place)
  {
    assert forall x :: x in entries + [e] <==> x in entries || x == e;
  }

  method CollectOwners(entries: seq<Entry>, variants: seq<Variant>) returns (owners: map<Place, set<string>>)
    ensures OwnersExact(owners, entries, variants)
  {
    owners := map[];
    for i := 0 to |variants|
      invariant OwnersExact(owners, [], variants[..i])
    {
      owners := AddOwner(owners, PlaceOf(variants[i].address, variants[i].code), variants[i].image);
      assert variants[..i + 1] == variants[..i] + [variants[i]];
      forall place, image ensures image in OwnersAt(owners, place) <==> Owns([], variants[..i + 1], image, place) {
        OneMoreVariant([], variants[..i], variants[i], image, place);
      }
    }
    assert variants[..|variants|] == variants;
    for i := 0 to |entries|
      invariant OwnersExact(owners, entries[..i], variants)
    {
      owners := AddOwner(owners, PlaceOf(entries[i].symbol.address, entries[i].code), entries[i].symbol.image);
      assert entries[..i + 1] == entries[..i] + [entries[i]];
      forall place, image ensures image in OwnersAt(owners, place) <==> Owns(entries[..i + 1], variants, image, place) {
        OneMoreEntry(entries[..i], variants, entries[i], image, place);
      }
    }
    assert entries[..|entries|] == entries;
  }

  /** Some other image carries the symbol's code at the symbol's address. */
  ghost predicate Shared(entries: seq<Entry>, variants: seq<Variant>, e: Entry) {
    exists image :: image != e.symbol.image && Owns(entries, variants, image, PlaceOf(e.symbol.address, e.code))
  }

  /** The image identity a symbol's guard must check as well. */
  ghost function ScopeOf(entries: seq<Entry>, variants: seq<Variant>, scopes: map<string, Code>, e: Entry): Option<Code>
    requires e.symbol.image != RESIDENT ==> e.symbol.image in scopes
  {
    if e.symbol.image != RESIDENT && Shared(entries, variants, e) then Some(scopes[e.symbol.image]) else None
  }

  lemma ManyOwnersIffShared(owners: map<Place, set<string>>, entries: seq<Entry>, variants: seq<Variant>, e: Entry)
    requires OwnersExact(owners, entries, variants) && e in entries
    ensures |OwnersAt(owners, PlaceOf(e.symbol.address, e.code))| > 1 <==> Shared(entries, variants, e)
  {
    var place := PlaceOf(e.symbol.address, e.code);
    assert Owns(entries, variants, e.symbol.image, place);
    var all := OwnersAt(owners, place);
    var rest := all - {e.symbol.image};
    assert all == rest + {e.symbol.image} && |all| == |rest| + 1;
    if rest != {} {
      var other :| other in rest;
      assert Owns(entries, variants, other, place);
    }
  }

  /** The generated table: what each symbol's guard record checks. */
  ghost predicate Guarded(
    lines: seq<Guard>, guardOf: map<Symbol, nat>,
    entries: seq<Entry>, variants: seq<Variant>, scopes: map<string, Code>, e: Entry)
    requires WellFormed(lines) && (e.symbol.image != RESIDENT ==> e.symbol.image in scopes)
  {
    && e.symbol in guardOf && guardOf[e.symbol] < |lines|
    && KeyOf(lines, guardOf[e.symbol]) == Key(e.code, ScopeOf(entries, variants, scopes, e))
  }

  ghost predicate DistinctSymbols(entries: seq<Entry>) {
    forall i, j :: 0 <= i < j < |entries| ==> entries[i].symbol != entries[j].symbol
  }

  ghost predicate AllGuarded(
    lines: seq<Guard>, guardOf: map<Symbol, nat>,
    entries: seq<Entry>, variants: seq<Variant>, scopes: map<string, Code>, upTo: nat)
    requires upTo <= |entries|
    requires forall e :: e in entries && e.symbol.image != RESIDENT ==> e.symbol.image in scopes
  {
    && WellFormed(lines)
    && forall j :: 0 <= j < upTo ==> Guarded(lines, guardOf, entries, variants, scopes, entries[j])
  }

  lemma GuardedGrows(
    lines: seq<Guard>, more: seq<Guard>, guardOf: map<Symbol, nat>, name: nat,
    entries: seq<Entry>, variants: seq<Variant>, scopes: map<string, Code>, i: nat)
    requires i < |entries| && DistinctSymbols(entries)
    requires forall e :: e in entries && e.symbol.image != RESIDENT ==> e.symbol.image in scopes
    requires AllGuarded(lines, guardOf, entries, variants, scopes, i)
    requires lines <= more && WellFormed(more) && name < |more|
    requires KeyOf(more, name) == Key(entries[i].code, ScopeOf(entries, variants, scopes, entries[i]))
    ensures AllGuarded(more, guardOf[entries[i].symbol := name], entries, variants, scopes, i + 1)
  {
  }

  /** `generate`, from the authenticated entries on: every symbol gets a guard, and no two records
      check the same thing. */
  method Generate(entries: seq<Entry>, variants: seq<Variant>, scopes: map<string, Code>)
    returns (lines: seq<Guard>, guardOf: map<Symbol, nat>)
    requires DistinctSymbols(entries)
    requires forall e :: e in entries && e.symbol.image != RESIDENT ==> e.symbol.image in scopes
    ensures WellFormed(lines)
    ensures forall e :: e in entries ==> Guarded(lines, guardOf, entries, variants, scopes, e)
    ensures forall g, h :: 0 <= g < h < |lines| ==> KeyOf(lines, g) != KeyOf(lines, h)
  {
    var owners := CollectOwners(entries, variants);
    var compiler := new GuardCompiler();
    guardOf := map[];
    for i := 0 to |entries|
      invariant compiler.Valid()
      invariant AllGuarded(compiler.lines, guardOf, entries, variants, scopes, i)
    {
      var e := entries[i];
      ManyOwnersIffShared(owners, entries, variants, e);
      var many := |OwnersAt(owners, PlaceOf(e.symbol.address, e.code))| > 1;
      var scope := if many && e.symbol.image != RESIDENT then Some(scopes[e.symbol.image]) else None;
      ghost var before := compiler.lines;
      var name := compiler.GuardFor(e.code, scope);
      GuardedGrows(before, compiler.lines, guardOf, name, entries, variants, scopes, i);
      guardOf := guardOf[e.symbol := name];
    }
    lines := compiler.lines;
  }

  /** The guards mean what the authors of the symbols need, whatever memory holds: the function's own
      code is there and, when another image has the same code at the same address, so is the
      symbol's image. An unscoped guard of an overlay function leaves no other owner possible. */
  lemma GuardsMeanWhatTheyName(
    lines: seq<Guard>, guardOf: map<Symbol, nat>,
    entries: seq<Entry>, variants: seq<Variant>, scopes: map<string, Code>, e: Entry, live: Code -> bool)
    requires WellFormed(lines) && e in entries && (e.symbol.image != RESIDENT ==> e.symbol.image in scopes)
    requires Guarded(lines, guardOf, entries, variants, scopes, e)
    ensures Available(lines, guardOf[e.symbol], live)
            <==> && live(e.code)
                 && (e.symbol.image != RESIDENT && Shared(entries, variants, e) ==> live(scopes[e.symbol.image]))
    ensures e.symbol.image != RESIDENT && lines[guardOf[e.symbol]].scope.None? ==>
              forall image :: Owns(entries, variants, image, PlaceOf(e.symbol.address, e.code)) ==>
                image == e.symbol.image
  {
    AvailableMeans(lines, guardOf[e.symbol], live);
  }

  /** `psx_overlay_static_code_matches` on physical memory from address 0. */
  function LiveIn(ram: seq<byte>, sha: seq<byte> -> string): Code -> bool {
    (code: Code) => sha(BytesOf(code.ranges, 0, ram)) == code.digest
  }

  /** On bytes: when the function's code and its image's were fingerprinted from the same data, a symbol is available
      exactly when memory holds that data in the function's ranges and, for code that another image shares at that
      address, in all code ranges of the symbol's image. */
  lemma AvailableIffBytesAreThere(
    lines: seq<Guard>, guardOf: map<Symbol, nat>,
    entries: seq<Entry>, variants: seq<Variant>, scopes: map<string, Code>, e: Entry,
    base: nat, data: seq<byte>, ram: seq<byte>, sha: seq<byte> -> string)
    requires WellFormed(lines) && e in entries && (e.symbol.image != RESIDENT ==> e.symbol.image in scopes)
    requires Guarded(lines, guardOf, entries, variants, scopes, e)
    requires Injective(sha) && base + |data| <= |ram|
    requires IsFingerprint(e.code, base, data, sha)
    requires e.symbol.image != RESIDENT ==> IsFingerprint(scopes[e.symbol.image], base, data, sha)
    ensures Available(lines, guardOf[e.symbol], LiveIn(ram, sha))
            <==> && SameCode(e.code.ranges, base, data, 0, ram)
                 && (e.symbol.image != RESIDENT && Shared(entries, variants, e) ==>
                       SameCode(scopes[e.symbol.image].ranges, base, data, 0, ram))
  {
    GuardsMeanWhatTheyName(lines, guardOf, entries, variants, scopes, e, LiveIn(ram, sha));
    DigestMatchesIffCodeIsThere(e.code, base, data, 0, ram, sha);
    if e.symbol.image != RESIDENT {
      DigestMatchesIffCodeIsThere(scopes[e.symbol.image], base, data, 0, ram, sha);
    }
  }
}
