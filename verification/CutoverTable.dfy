/** The cutover lookup: an open-addressing table built with unbounded integers and probed with
    32-bit ones. The emitted C functions are modelled as the loops they denote over the table. */
module CutoverTable {
  import opened Basics
  import opened Bits
  import Sorting

  datatype Cutover = Cutover(pc: nat, instruction: nat)
  datatype Variant = Variant(cutovers: seq<Cutover>)
  datatype Site = Site(pc: nat, instruction: nat)

  const EMPTY_PC: nat := 0xffff_ffff

  // ----- which sites the table is for

  predicate IsCall(instruction: nat) {
    || instruction / 0x400_0000 == 0x03
    || (instruction / 0x400_0000 == 0 && instruction % 0x40 == 0x09)
  }

  function SitesOf(variants: seq<Variant>): set<Site> {
    set v, c | v in variants && c in v.cutovers && !IsCall(c.instruction)
      :: Site(c.pc % PHYSICAL, c.instruction)
  }

  predicate Before(a: Site, b: Site) {
    a.pc < b.pc || (a.pc == b.pc && a.instruction < b.instruction)
  }

  lemma FirstExists(sites: set<Site>)
    requires sites != {}
    ensures exists s :: s in sites && forall t :: t in sites ==> s == t || Before(s, t)
  {
    Sorting.LeastExists(Before, sites);
    var s :| Sorting.IsLeast(Before, sites, s);
    assert forall t :: t in sites ==> s == t || Before(s, t);
  }

  method Sorted(sites: set<Site>) returns (r: seq<Site>)
    ensures forall i, j :: 0 <= i < j < |r| ==> Before(r[i], r[j])
    ensures Unique(r) && |r| == |sites|
    ensures forall s :: s in r <==> s in sites
  {
    r := [];
    var rest := sites;
    while rest != {}
      invariant rest <= sites && |r| + |rest| == |sites|
      invariant forall i, j :: 0 <= i < j < |r| ==> Before(r[i], r[j])
      invariant forall i, t :: 0 <= i < |r| && t in rest ==> Before(r[i], t)
      invariant forall s :: s in r <==> s in sites - rest
      decreases rest
    {
      FirstExists(rest);
      var s :| s in rest && forall t :: t in rest ==> s == t || Before(s, t);
      r, rest := r + [s], rest - {s};
    }
  }

  // ----- the table

  type Slots = seq<Option<Site>>

  /** The sites in slot order. */
  function Contents(slots: Slots): seq<Site> {
    if slots == [] then []
    else (if slots[0].Some? then [slots[0].value] else []) + Contents(slots[1..])
  }

  /** Python's hash, on unbounded integers. */
  function Home(s: Site, capacity: nat): nat
    requires capacity > 0
  {
    And(Xor(s.pc / 4 * 0x9E37_79B1, s.instruction * 0x85EB_CA6B), capacity - 1)
  }

  /** C's hash, where both products wrap at 32 bits. */
  function WrappedHome(s: Site, mask: nat): nat {
    And(Xor(s.pc / 4 * 0x9E37_79B1 % UINT32, s.instruction * 0x85EB_CA6B % UINT32), mask)
  }

  lemma MaskedXor(a: nat, b: nat, k: nat)
    requires k <= 32
    ensures And(Xor(a, b), Pow2(k) - 1) == And(Xor(a % Pow2(32), b % Pow2(32)), Pow2(k) - 1) < Pow2(k)
  {
    AndMask(Xor(a, b), k);
    AndMask(Xor(a % Pow2(32), b % Pow2(32)), k);
    XorMod(a, b, 32);
    ModMod(Xor(a, b), k, 32);
  }

  lemma HashesAgree(s: Site, k: nat)
    requires k <= 32
    ensures Home(s, Pow2(k)) == WrappedHome(s, Pow2(k) - 1) < Pow2(k)
  {
    var (a, b) := (s.pc / 4 * 0x9E37_79B1, s.instruction * 0x85EB_CA6B);
    Pow2Of32();
    MaskedXor(a, b, k);
  }

  /** How many steps the probe takes from `from` to `to`. */
  function Steps(from: nat, to: nat, capacity: nat): int {
    if from <= to then to - from else to - from + capacity
  }

  /** Python's hash as a function of the site alone. */
  function Homes(capacity: nat): Site -> nat
    requires capacity > 0
  {
    (s: Site) => Home(s, capacity)
  }

  /** The table's shape: every stored site can be reached from its home over filled slots. */
  ghost predicate Reachable(slots: Slots, home: Site -> nat) {
    forall q, p :: 0 <= q < |slots| && 0 <= p < |slots| && slots[q].Some?
      && Steps(home(slots[q].value), p, |slots|) < Steps(home(slots[q].value), q, |slots|)
      ==> slots[p].Some?
  }

  ghost predicate IsTable(slots: Slots, home: Site -> nat, sites: seq<Site>) {
    && 0 < |slots| && 2 * |sites| <= |slots|
    && multiset(Contents(slots)) == multiset(sites)
    && Reachable(slots, home)
  }

  lemma {:induction false} ContentsStore(slots: Slots, q: nat, s: Site)
    requires q < |slots| && slots[q].None?
    ensures multiset(Contents(slots[q := Some(s)])) == multiset(Contents(slots)) + multiset{s}
    ensures |Contents(slots[q := Some(s)])| == |Contents(slots)| + 1
  {
    if q == 0 {
      assert slots[q := Some(s)][1..] == slots[1..];
    } else {
      ContentsStore(slots[1..], q - 1, s);
      assert slots[q := Some(s)][1..] == slots[1..][q - 1 := Some(s)];
    }
  }

  lemma {:induction false} EmptySlotExists(slots: Slots)
    requires |Contents(slots)| < |slots|
    ensures exists e :: 0 <= e < |slots| && slots[e].None?
  {
    if slots[0].Some? {
      EmptySlotExists(slots[1..]);
      var e :| 0 <= e < |slots[1..]| && slots[1..][e].None?;
      assert slots[e + 1].None?;
    }
  }

  lemma {:induction false} StoredIffContained(slots: Slots, s: Site)
    ensures s in Contents(slots) <==> Some(s) in slots
  {
    if slots != [] {
      StoredIffContained(slots[1..], s);
      assert slots == [slots[0]] + slots[1..];
    }
  }

  lemma {:induction false} EmptyTable(slots: Slots)
    requires forall q :: 0 <= q < |slots| ==> slots[q].None?
    ensures Contents(slots) == []
  {
    if slots != [] {
      EmptyTable(slots[1..]);
    }
  }

  /** The next slot, wrapping. */
  function Next(slot: nat, capacity: nat): nat {
    if slot + 1 == capacity then 0 else slot + 1
  }

  lemma NextIsMasked(slot: nat, k: nat)
    requires slot < Pow2(k)
    ensures And(slot + 1, Pow2(k) - 1) == Next(slot, Pow2(k))
  {
    AndMask(slot + 1, k);
    ModUnique(slot + 1, Pow2(k), if slot + 1 == Pow2(k) then 1 else 0, Next(slot, Pow2(k)));
  }

  /** `(slot + 1) & mask`. */
  method Advance(slot: nat, capacity: nat, ghost k: nat) returns (next: nat)
    requires capacity == Pow2(k) && slot < capacity
    ensures next == Next(slot, capacity)
  {
    NextIsMasked(slot, k);
    next := And(slot + 1, capacity - 1);
  }

  method HomeOf(s: Site, capacity: nat, ghost k: nat, ghost homes: Site -> nat) returns (slot: nat)
    requires capacity == Pow2(k) && homes == Homes(capacity)
    ensures slot == homes(s) < capacity
  {
    AndMask(Xor(s.pc / 4 * 0x9E37_79B1, s.instruction * 0x85EB_CA6B), k);
    slot := Home(s, capacity);
  }

  /** Storing at the first free slot of a probe keeps every stored site reachable. */
  lemma StoreKeepsReachable(slots: Slots, slot: nat, s: Site, homes: Site -> nat)
    requires slot < |slots| && slots[slot].None? && Reachable(slots, homes)
    requires forall p :: 0 <= p < |slots| && Steps(homes(s), p, |slots|) < Steps(homes(s), slot, |slots|)
               ==> slots[p].Some?
    ensures Reachable(slots[slot := Some(s)], homes)
  {
  }

  /** Linear probing: below full load the search for a free slot terminates. */
  method FindFree(slots: array<Option<Site>>, ghost k: nat, home: nat) returns (slot: nat)
    requires slots.Length == Pow2(k) && |Contents(slots[..])| < slots.Length && home < slots.Length
    ensures slot < slots.Length && slots[slot].None?
    ensures forall p :: 0 <= p < slots.Length && Steps(home, p, slots.Length) < Steps(home, slot, slots.Length)
              ==> slots[p].Some?
  {
    EmptySlotExists(slots[..]);
    ghost var e :| 0 <= e < |slots[..]| && slots[..][e].None?;
    slot := home;
    while slots[slot] != None
      invariant 0 <= slot < slots.Length
      invariant Steps(home, slot, slots.Length) <= Steps(home, e, slots.Length)
      invariant forall p :: 0 <= p < slots.Length && Steps(home, p, slots.Length) < Steps(home, slot, slots.Length)
                  ==> slots[p].Some?
      decreases Steps(home, e, slots.Length) - Steps(home, slot, slots.Length)
    {
      slot := Advance(slot, slots.Length, k);
    }
  }

  method Insert(slots: array<Option<Site>>, ghost k: nat, s: Site, home: nat, ghost homes: Site -> nat)
    requires slots.Length == Pow2(k) && |Contents(slots[..])| < slots.Length
    requires Reachable(slots[..], homes) && home == homes(s) < slots.Length
    modifies slots
    ensures Reachable(slots[..], homes)
    ensures multiset(Contents(slots[..])) == multiset(Contents(old(slots[..]))) + multiset{s}
    ensures |Contents(slots[..])| == |Contents(old(slots[..]))| + 1
  {
    var slot := FindFree(slots, k, home);
    ghost var before := slots[..];
    StoreKeepsReachable(before, slot, s, homes);
    ContentsStore(before, slot, s);
    slots[slot] := Some(s);
    assert slots[..] == before[slot := Some(s)];
  }

  /** The least power of two that is at least twice the number of sites. */
  method Capacity(count: nat) returns (capacity: nat, ghost k: nat)
    ensures capacity == Pow2(k) && 2 * count <= capacity
    ensures capacity == 1 || capacity < 4 * count
  {
    capacity, k := 1, 0;
    while capacity < count * 2
      invariant capacity == Pow2(k)
      invariant capacity == 1 || capacity < 4 * count
      decreases count * 2 - capacity
    {
      capacity, k := capacity * 2, k + 1;
    }
  }

  /** The table of `emit_cold_cutover_table`, before it is printed: a power-of-two capacity of at
      least twice the sites, filled at load at most one half. */
  method BuildTable(sites: seq<Site>) returns (slots: array<Option<Site>>, ghost k: nat)
    ensures fresh(slots) && slots.Length == Pow2(k)
    ensures slots.Length == 1 || slots.Length < 4 * |sites|
    ensures IsTable(slots[..], Homes(Pow2(k)), sites)
  {
    var capacity;
    capacity, k := Capacity(|sites|);
    slots := new Option<Site>[capacity](_ => None);
    EmptyTable(slots[..]);
    Fill(slots, k, sites, Homes(capacity));
  }

  method Fill(slots: array<Option<Site>>, ghost k: nat, sites: seq<Site>, ghost homes: Site -> nat)
    requires slots.Length == Pow2(k) && |sites| <= slots.Length
    requires homes == Homes(slots.Length)
    requires Contents(slots[..]) == [] && Reachable(slots[..], homes)
    modifies slots
    ensures Reachable(slots[..], homes) && multiset(Contents(slots[..])) == multiset(sites)
  {
    for i := 0 to |sites|
      invariant Reachable(slots[..], homes)
      invariant multiset(Contents(slots[..])) == multiset(sites[..i]) && |Contents(slots[..])| == i
    {
      var home := HomeOf(sites[i], slots.Length, k, homes);
      Insert(slots, k, sites[i], home, homes);
      TakeOneMore(sites, i);
    }
    assert sites[..|sites|] == sites;
  }

  // ----- the emitted C

  /** One printed row; an empty slot is printed with a pc no masked address can have. */
  function Row(slot: Option<Site>): (row: Site)
    ensures row.pc < PHYSICAL && slot.Some? ==> slot == Some(row)
  {
    match slot
    case Some(s) => s
    case None => Site(EMPTY_PC, 0)
  }

  function Printed(slots: Slots): (table: seq<Site>)
    ensures |table| == |slots|
    ensures forall q :: 0 <= q < |slots| ==> table[q] == Row(slots[q])
  {
    seq(|slots|, q requires 0 <= q < |slots| => Row(slots[q]))
  }

  /** Printing loses no site and adds none: an empty row is no site. */
  lemma PrintedHoldsSites(slots: Slots, home: Site -> nat, sites: seq<Site>, s: Site)
    requires IsTable(slots, home, sites) && s.pc < PHYSICAL
    ensures s in Printed(slots) <==> s in sites
  {
    StoredIffContained(slots, s);
    assert s in multiset(sites) <==> s in sites;
    assert s in multiset(Contents(slots)) <==> s in Contents(slots);
    if Some(s) in slots {
      var q :| 0 <= q < |slots| && slots[q] == Some(s);
      assert Printed(slots)[q] == s;
    }
  }

  /** A printed table whose length still fits the emitted `uint32_t` arithmetic. */
  ghost predicate IsPrinted(table: seq<Site>, slots: Slots, home: Site -> nat, sites: seq<Site>) {
    && IsTable(slots, home, sites)
    && table == Printed(slots)
    && |table| < UINT32
    && forall s :: s in sites ==> s.pc < PHYSICAL && s.instruction < UINT32
  }

  lemma RowsAreSites(table: seq<Site>, slots: Slots, home: Site -> nat, sites: seq<Site>, q: nat)
    requires IsPrinted(table, slots, home, sites) && q < |table|
    ensures slots[q].Some? <==> table[q].pc != EMPTY_PC
    ensures slots[q].Some? ==> table[q] == slots[q].value && table[q] in sites
  {
    if slots[q].Some? {
      StoredIffContained(slots, slots[q].value);
      assert slots[q].value in multiset(Contents(slots));
      assert slots[q].value in multiset(sites);
    }
  }

  lemma SitesAreRows(table: seq<Site>, slots: Slots, home: Site -> nat, sites: seq<Site>, s: Site)
    requires IsPrinted(table, slots, home, sites) && s in sites
    ensures exists q :: 0 <= q < |slots| && slots[q] == Some(s)
  {
    assert s in multiset(sites);
    assert s in multiset(Contents(slots));
    StoredIffContained(slots, s);
  }

  lemma SmallPower(k: nat)
    requires Pow2(k) < UINT32
    ensures k < 32
  {
    Pow2Of32();
    if k >= 32 {
      Pow2AtLeast(32, k);
    }
  }

  /** The probing loop of the emitted C from a given home slot. */
  method Probe(
    table: seq<Site>, wanted: Site, start: nat,
    ghost k: nat, ghost slots: Slots, ghost home: Site -> nat, ghost sites: seq<Site>)
    returns (found: bool)
    requires IsPrinted(table, slots, home, sites) && |table| == Pow2(k)
    requires start == home(wanted) < |table|
    ensures found <==> wanted in sites
  {
    var mask := |table| - 1;
    var slot := start;
    for probe := 0 to mask + 1
      invariant 0 <= slot < |table|
      invariant probe <= mask ==> Steps(start, slot, |table|) == probe
      invariant forall p :: 0 <= p < |slots| && Steps(start, p, |table|) < probe ==> slots[p] != Some(wanted)
    {
      var candidate := table[slot];
      RowsAreSites(table, slots, home, sites, slot);
      if candidate.pc == EMPTY_PC {
        assert forall q :: 0 <= q < |slots| ==> slots[q] != Some(wanted);
        if wanted in sites { SitesAreRows(table, slots, home, sites, wanted); }
        return false;
      }
      if candidate == wanted {
        return true;
      }
      slot := Advance(slot, mask + 1, k);
    }
    if wanted in sites { SitesAreRows(table, slots, home, sites, wanted); }
    return false;
  }

  /** `xg_render_overlay_cutover_relevant`: the 32-bit probe answers membership exactly. */
  method CutoverRelevant(
    table: seq<Site>, pc: nat, instruction: nat, ghost k: nat, ghost slots: Slots, ghost sites: seq<Site>)
    returns (found: bool)
    requires pc < UINT32 && instruction < UINT32
    requires |table| == Pow2(k) && IsPrinted(table, slots, Homes(Pow2(k)), sites)
    ensures found <==> Site(pc % PHYSICAL, instruction) in sites
  {
    var wanted := Site(pc % PHYSICAL, instruction);
    SmallPower(k);
    HashesAgree(wanted, k);
    var start := WrappedHome(wanted, |table| - 1);
    found := Probe(table, wanted, start, k, slots, Homes(Pow2(k)), sites);
  }

  /** `xg_render_overlay_cutover_pc_relevant`. */
  method PcRelevant(table: seq<Site>, pc: nat, ghost slots: Slots, ghost home: Site -> nat, ghost sites: seq<Site>)
    returns (found: bool)
    requires pc < UINT32
    requires IsPrinted(table, slots, home, sites)
    ensures found <==> exists s :: s in sites && s.pc == pc % PHYSICAL
  {
    var normalized := pc % PHYSICAL;
    for index := 0 to |table|
      invariant forall p :: 0 <= p < index ==> table[p].pc != normalized
    {
      RowsAreSites(table, slots, home, sites, index);
      if table[index].pc == normalized {
        return true;
      }
    }
    forall s | s in sites
      ensures s.pc != normalized
    {
      SitesAreRows(table, slots, home, sites, s);
    }
    return false;
  }

  lemma ContentsFirst(first: Option<Site>, rest: Slots)
    ensures Contents([first] + rest) == (if first.Some? then [first.value] else []) + Contents(rest)
  {
    assert ([first] + rest)[1..] == rest;
  }

  lemma {:induction false} ContentsAppend(slots: Slots, slot: Option<Site>)
    ensures Contents(slots + [slot]) == Contents(slots) + (if slot.Some? then [slot.value] else [])
  {
    if slots == [] {
      assert slots + [slot] == [slot] && [slot][1..] == [];
    } else {
      ContentsAppend(slots[1..], slot);
      ContentsFirst(slots[0], slots[1..] + [slot]);
      assert slots + [slot] == [slots[0]] + (slots[1..] + [slot]);
    }
  }

  lemma {:induction false} ContentsPrefix(slots: Slots, n: nat)
    requires n <= |slots|
    ensures |Contents(slots[..n])| <= |Contents(slots)|
    ensures Contents(slots[..n]) == Contents(slots)[..|Contents(slots[..n])|]
    decreases |slots| - n
  {
    if n < |slots| {
      assert slots[..n + 1] == slots[..n] + [slots[n]];
      ContentsAppend(slots[..n], slots[n]);
      ContentsPrefix(slots, n + 1);
    } else {
      assert slots[..n] == slots;
    }
  }

  /** `xg_render_overlay_cutover_site_at`: the index-th filled row, counting the index down. A pointer the caller
      leaves NULL is not written, and the site is reported found only when neither is NULL. */
  method SiteAt(
    table: seq<Site>, index: nat, hasPc: bool, hasInstruction: bool,
    ghost slots: Slots, ghost home: Site -> nat, ghost sites: seq<Site>)
    returns (found: bool, outPc: Option<nat>, outInstruction: Option<nat>)
    requires index < UINT32
    requires IsPrinted(table, slots, home, sites)
    ensures found <==> index < |Contents(slots)| && hasPc && hasInstruction
    ensures outPc == if hasPc && index < |Contents(slots)| then Some(Contents(slots)[index].pc) else None
    ensures outInstruction
         == if hasInstruction && index < |Contents(slots)| then Some(Contents(slots)[index].instruction) else None
  {
    var left := index;
    for slot := 0 to |table|
      invariant 0 <= left <= index
      invariant |Contents(slots[..slot])| == index - left
    {
      RowsAreSites(table, slots, home, sites, slot);
      assert slots[..slot + 1] == slots[..slot] + [slots[slot]];
      ContentsAppend(slots[..slot], slots[slot]);
      if table[slot].pc == EMPTY_PC {
        continue;
      }
      if left != 0 {
        left := left - 1;
        continue;
      }
      ContentsPrefix(slots, slot + 1);
      outPc := if hasPc then Some(table[slot].pc) else None;
      outInstruction := if hasInstruction then Some(table[slot].instruction) else None;
      return hasPc && hasInstruction, outPc, outInstruction;
    }
    assert slots[..|table|] == slots;
    return false, None, None;
  }

  /** `site_at` over `0..site_count-1` lists every site exactly once. */
  lemma EnumerationIsExact(slots: Slots, home: Site -> nat, sites: seq<Site>)
    requires IsTable(slots, home, sites) && Unique(sites)
    ensures |Contents(slots)| == |sites|
    ensures Unique(Contents(slots))
    ensures forall s :: s in Contents(slots) <==> s in sites
  {
    assert |multiset(Contents(slots))| == |multiset(sites)|;
    assert forall s :: s in Contents(slots) <==> s in multiset(Contents(slots));
    assert forall s :: s in sites <==> s in multiset(sites);
    var c := Contents(slots);
    forall i, j | 0 <= i < j < |c|
      ensures c[i] != c[j]
    {
      DistinctCounts(sites, c[i]);
      if c[i] == c[j] {
        RepeatedCounts(c, i, j);
      }
    }
  }

  lemma {:induction false} DistinctCounts(s: seq<Site>, x: Site)
    requires Unique(s)
    ensures multiset(s)[x] <= 1
  {
    if s != [] {
      assert s == s[..|s| - 1] + [s[|s| - 1]];
      DistinctCounts(s[..|s| - 1], x);
    }
  }

  lemma RepeatedCounts(s: seq<Site>, i: nat, j: nat)
    requires i < j < |s| && s[i] == s[j]
    ensures multiset(s)[s[i]] >= 2
  {
    assert s == s[..j] + [s[j]] + s[j + 1..];
    assert s[i] in s[..j];
  }

  /** The whole emission: the table, its site count, and what both stand for. */
  method EmitColdCutoverTable(variants: seq<Variant>)
    returns (table: seq<Site>, siteCount: nat, ghost k: nat, ghost slots: Slots, ghost sites: seq<Site>)
    requires forall v, c :: v in variants && c in v.cutovers ==> c.pc < UINT32 && c.instruction < UINT32
    ensures forall s: Site :: s.pc < PHYSICAL ==> (s in table <==> s in SitesOf(variants))
    ensures siteCount == |SitesOf(variants)| && 2 * siteCount <= |table|
    ensures |table| == Pow2(k) && table == Printed(slots) && IsTable(slots, Homes(Pow2(k)), sites)
    ensures siteCount <= 0x4000_0000 ==> IsPrinted(table, slots, Homes(Pow2(k)), sites)
    ensures Unique(sites) && siteCount == |sites|
    ensures forall s :: s in sites <==> exists v, c ::
              v in variants && c in v.cutovers && !IsCall(c.instruction) && s == Site(c.pc % PHYSICAL, c.instruction)
  {
    var ordered := Sorted(SitesOf(variants));
    var built: array<Option<Site>>;
    built, k := BuildTable(ordered);
    slots, sites := built[..], ordered;
    table := Printed(built[..]);
    siteCount := |ordered|;
    forall s: Site | s.pc < PHYSICAL ensures s in table <==> s in SitesOf(variants) {
      PrintedHoldsSites(slots, Homes(Pow2(k)), sites, s);
    }
  }
}
