/** `classify_overlay_seeds`: which captured addresses become roots of compiled functions. */
module SeedClassification {
  import opened Basics
  import opened IntSets
  import Sorting
  import opened OverlayCode
  import opened FunctionWalk

  datatype Reason =
    | DispatchEntry | DirectJalTarget | FunctionPointerTarget | TomlDeclaredEntry | DispatchInterior | DispatchRoot

  datatype Exclusion = Unknown | BranchTargetOnly | ObservedPcOnly

  /** A captured image with the addresses recorded for it, parsed. */
  datatype Capture = Capture(
    image: Image, executed: set<int>, dispatch: set<int>, functions: set<int>, toml: set<int>, legacy: set<int>,
    legacySchema: bool, gameLo: int, gameHi: int)

  function Hi(c: Capture): int { c.image.load + c.image.size }

  predicate Region(c: Capture, a: int) {
    c.image.load <= a < Hi(c) && a % 4 == 0
  }

  function RegionSet(c: Capture): set<int> {
    set a | c.image.load <= a < Hi(c) && Region(c, a)
  }

  predicate KernelWindow(c: Capture) {
    c.image.load % 0x2000_0000 < 0x1_0000
  }

  /** A jump target that is neither in the overlay, nor in the game's text, nor in the BIOS. */
  predicate LeadsNowhere(c: Capture, target: int) {
    var phys, lo := target % 0x2000_0000, c.image.load % 0x2000_0000;
    && !(lo <= phys < lo + c.image.size)
    && !(c.gameHi > c.gameLo && c.gameLo <= phys < c.gameHi)
    && !(0x1FC0_0000 <= phys < 0x1FC8_0000 || 0xBFC0_0000 <= target < 0xBFC8_0000)
  }

  predicate ImpossibleStart(c: Capture, a: int) {
    || !IsValidWord(WordAt(c.image, a))
    || match Classify(a, WordAt(c.image, a).value)
       case Jump(t) => LeadsNowhere(c, t)
       case Call(t) => Region(c, t) && !Callable(c.image, t)
       case _ => false
  }

  function LegacyCallable(c: Capture): set<int> {
    set a | a in c.legacy && Region(c, a) && Callable(c.image, a)
  }

  // ----- roots and their caps

  /** A root's function ends at the next root, or at the end of the region. */
  function CapOf(c: Capture, roots: set<int>, entry: int): (cap: int)
    ensures forall r :: r in roots && r > entry ==> cap <= r
    ensures cap == Hi(c) || (cap in roots && cap > entry)
  {
    var later := set r | r in roots && r > entry;
    assert forall r :: r in roots && r > entry ==> r in later;
    if later == {} then Hi(c) else Least(later)
  }

  lemma CapShrinks(c: Capture, roots: set<int>, more: set<int>, entry: int)
    requires roots <= more && forall r :: r in more ==> r < Hi(c)
    ensures CapOf(c, more, entry) <= CapOf(c, roots, entry)
  {
    assert CapOf(c, roots, entry) != Hi(c) ==> CapOf(c, roots, entry) in more;
  }

  function Walked(c: Capture, order: Order, entry: int, cap: int): Walk {
    WalkFrom(Extent(c.image, entry, cap), order)
  }

  function RootWalk(c: Capture, order: Order, roots: set<int>, entry: int): Walk {
    Walked(c, order, entry, CapOf(c, roots, entry))
  }

  /** Some root's final function contains the address. */
  ghost predicate Covered(c: Capture, order: Order, roots: set<int>, a: int) {
    exists r :: r in roots && a in RootWalk(c, order, roots, r).visited
  }

  /** With caps at the next root, the functions of different roots share no address. */
  lemma RootWalksAreDisjoint(c: Capture, order: Order, roots: set<int>, r: int, s: int)
    requires Enumerates(order) && r in roots && s in roots && r != s
    ensures RootWalk(c, order, roots, r).visited !! RootWalk(c, order, roots, s).visited
  {
    var (x, y) := (Extent(c.image, r, CapOf(c, roots, r)), Extent(c.image, s, CapOf(c, roots, s)));
    if r < s {
      CappedWalksAreDisjoint(x, y, order);
    } else {
      CappedWalksAreDisjoint(y, x, order);
    }
  }

  // ----- inclusion

  type Included = map<int, Reason>

  /** `include`: the reason an address ends up with. */
  function IncludedAfter(c: Capture, tables: set<int>, inc: Included, a: int, reason: Reason): Included {
    if !Region(c, a) then inc
    else if reason == DispatchEntry && ImpossibleStart(c, a) then inc
    else if reason == DispatchEntry && (a in tables || !Callable(c.image, a)) then
      if a in inc then inc else inc[a := DispatchInterior]
    else if reason != DispatchEntry && reason != TomlDeclaredEntry && a in tables && !Callable(c.image, a) then inc
    else if a !in inc || inc[a] in {FunctionPointerTarget, DispatchInterior} then inc[a := reason]
    else inc
  }

  function ExcludedAfter(
    c: Capture, tables: set<int>, exc: map<int, Exclusion>, a: int, reason: Reason): map<int, Exclusion>
  {
    if !Region(c, a) then exc[a := Unknown]
    else if reason == DispatchEntry then
      if ImpossibleStart(c, a) then exc[a := Unknown] else exc
    else if reason != TomlDeclaredEntry && a in tables && !Callable(c.image, a) then exc[a := BranchTargetOnly]
    else exc
  }

  /** What each reason is evidence of. */
  predicate Justified(c: Capture, tables: set<int>, a: int, reason: Reason) {
    && Region(c, a)
    && match reason
       case DispatchEntry => a in c.dispatch && !ImpossibleStart(c, a) && a !in tables && Callable(c.image, a)
       case DispatchInterior => a in c.dispatch && !ImpossibleStart(c, a) && (a in tables || !Callable(c.image, a))
       case DispatchRoot =>
         KernelWindow(c) && a in c.dispatch && !ImpossibleStart(c, a) && (a in tables || !Callable(c.image, a))
       case FunctionPointerTarget =>
         && (a in c.functions || (c.legacySchema && a in LegacyCallable(c)))
         && (a in tables ==> Callable(c.image, a))
       case TomlDeclaredEntry => a in c.toml
       case DirectJalTarget => Callable(c.image, a)
  }

  ghost predicate AllJustified(c: Capture, tables: set<int>, inc: Included) {
    forall a {:trigger Justified(c, tables, a, inc[a])} :: a in inc ==> Justified(c, tables, a, inc[a])
  }

  /** The grounds on which an address is offered for inclusion. */
  predicate Offered(c: Capture, a: int, reason: Reason) {
    match reason
    case DispatchEntry => a in c.dispatch
    case FunctionPointerTarget => a in c.functions || (c.legacySchema && a in LegacyCallable(c))
    case TomlDeclaredEntry => a in c.toml
    case DirectJalTarget => Callable(c.image, a)
    case _ => false
  }

  /** The reason the capture alone gives an address, whatever order its lists are read in: a callable dispatch entry
      comes first, then a declared entry, then a function pointer; other dispatched code is an interior. */
  function CapturedReason(c: Capture, tables: set<int>, a: int): Option<Reason> {
    if !Region(c, a) then None
    else if a in c.dispatch && !ImpossibleStart(c, a) && a !in tables && Callable(c.image, a) then Some(DispatchEntry)
    else if a in c.toml then Some(TomlDeclaredEntry)
    else if (a in c.functions || (c.legacySchema && a in LegacyCallable(c))) && (a in tables ==> Callable(c.image, a))
    then Some(FunctionPointerTarget)
    else if a in c.dispatch && !ImpossibleStart(c, a) then Some(DispatchInterior)
    else None
  }

  predicate IsCapturedRoot(c: Capture, tables: set<int>, a: int) {
    CapturedReason(c, tables, a).Some? && CapturedReason(c, tables, a) != Some(DispatchInterior)
  }

  predicate IsCapturedInterior(c: Capture, tables: set<int>, a: int) {
    CapturedReason(c, tables, a) == Some(DispatchInterior)
  }

  function ReasonOf(inc: Included, a: int): Option<Reason> {
    if a in inc then Some(inc[a]) else None
  }

  /** What one offer leaves at an address depends on what was there alone. */
  function ReasonAfter(c: Capture, tables: set<int>, before: Option<Reason>, a: int, reason: Reason): Option<Reason> {
    ReasonOf(IncludedAfter(c, tables, if before.Some? then map[a := before.value] else map[], a, reason), a)
  }

  lemma OfferIsLocal(c: Capture, tables: set<int>, inc: Included, a: int, reason: Reason, b: int)
    ensures ReasonOf(IncludedAfter(c, tables, inc, a, reason), b)
         == if b == a then ReasonAfter(c, tables, ReasonOf(inc, a), a, reason) else ReasonOf(inc, b)
  {
  }

  /** The four lists, offered one after the other, give every address its captured reason. */
  lemma OffersGiveCapturedReason(
    c: Capture, tables: set<int>, a: int,
    d: Option<Reason>, f: Option<Reason>, t: Option<Reason>, l: Option<Reason>)
    requires d == if a in c.dispatch then ReasonAfter(c, tables, None, a, DispatchEntry) else None
    requires f == if a in c.functions then ReasonAfter(c, tables, d, a, FunctionPointerTarget) else d
    requires t == if a in c.toml then ReasonAfter(c, tables, f, a, TomlDeclaredEntry) else f
    requires l == if c.legacySchema && a in LegacyCallable(c) then ReasonAfter(c, tables, t, a, FunctionPointerTarget)
                  else t
    ensures l == CapturedReason(c, tables, a)
  {
  }

  lemma IncludeKeepsJustified(c: Capture, tables: set<int>, inc: Included, a: int, reason: Reason)
    requires AllJustified(c, tables, inc) && Offered(c, a, reason)
    ensures AllJustified(c, tables, IncludedAfter(c, tables, inc, a, reason))
  {
    var after := IncludedAfter(c, tables, inc, a, reason);
    forall b | b in after ensures Justified(c, tables, b, after[b]) {
      if b in inc { assert Justified(c, tables, b, inc[b]); }
    }
  }

  /** A callable call target that is not a root yet becomes one, whatever it was before. */
  lemma CallTargetBecomesRoot(c: Capture, tables: set<int>, inc: Included, a: int)
    requires Region(c, a) && Callable(c.image, a) && a !in Roots(inc)
    ensures IncludedAfter(c, tables, inc, a, DirectJalTarget) == inc[a := DirectJalTarget]
    ensures Roots(inc[a := DirectJalTarget]) == Roots(inc) + {a}
  {
  }

  /** `after` is `before` with `targets` as call targets and nothing else changed. */
  ghost predicate WithTargets(before: Included, after: Included, targets: set<int>) {
    && after.Keys == before.Keys + targets
    && forall a :: a in after ==> after[a] == if a in targets then DirectJalTarget else before[a]
  }

  /** The address is not turned away when it is offered for this reason. */
  predicate Admits(c: Capture, tables: set<int>, a: int, reason: Reason) {
    && Region(c, a)
    && (reason == DispatchEntry ==> !ImpossibleStart(c, a))
    && (reason == FunctionPointerTarget && a in tables ==> Callable(c.image, a))
  }

  function Roots(inc: Included): set<int> {
    set a | a in inc && inc[a] != DispatchInterior
  }

  // ----- the fixpoint as a sequence of turns

  /** Where the fixpoint stands between two turns. */
  datatype Progress = Progress(roots: set<int>, pending: seq<int>, processed: set<int>, promoted: set<int>)

  function CapturedRoots(c: Capture, tables: set<int>): (r: set<int>)
    ensures forall a :: a in r <==> IsCapturedRoot(c, tables, a)
  {
    set a | a in c.dispatch + c.functions + c.toml + c.legacy && IsCapturedRoot(c, tables, a)
  }

  /** The captured interiors that are neither roots nor in some root's function. */
  ghost function Loose(c: Capture, order: Order, tables: set<int>, roots: set<int>): set<int> {
    set a | a in c.dispatch && IsCapturedInterior(c, tables, a) && a !in roots && !Covered(c, order, roots, a)
  }

  function Start(c: Capture, tables: set<int>): Progress {
    Progress(CapturedRoots(c, tables), Ascending(CapturedRoots(c, tables)), {}, {})
  }

  /** The calls of the next root's function, ended by the roots known now. */
  function NextCalls(c: Capture, order: Order, g: Progress): set<int>
    requires g.pending != []
  {
    RootWalk(c, order, g.roots, g.pending[0]).directJals
  }

  /** One turn: the first root in the queue is walked and its unknown callees join the queue in order; when none waits,
      in a kernel window, the least loose interior becomes a root. */
  ghost function Turned(c: Capture, order: Order, tables: set<int>, g: Progress): Option<Progress> {
    if g.pending != [] then
      var found := NextCalls(c, order, g) - g.roots;
      Some(Progress(g.roots + found, g.pending[1..] + Ascending(found), g.processed + {g.pending[0]}, g.promoted))
    else
      var loose := Loose(c, order, tables, g.roots);
      if KernelWindow(c) && loose != {} then
        Some(Progress(g.roots + {Least(loose)}, [Least(loose)], g.processed, g.promoted + {Least(loose)}))
      else None
  }

  type History = seq<Progress>

  ghost predicate IsHistory(c: Capture, order: Order, tables: set<int>, h: History) {
    && h != [] && h[0] == Start(c, tables)
    && forall i {:trigger IsTurn(c, order, tables, h, i)} :: 0 <= i < |h| - 1 ==> IsTurn(c, order, tables, h, i)
  }

  ghost predicate IsTurn(c: Capture, order: Order, tables: set<int>, h: History, i: int) {
    0 <= i < |h| - 1 && Turned(c, order, tables, h[i]) == Some(h[i + 1])
  }

  /** The reason an address has at that point. */
  function ReasonAt(c: Capture, tables: set<int>, g: Progress, a: int): Option<Reason> {
    if IsCapturedRoot(c, tables, a) then CapturedReason(c, tables, a)
    else if a in g.promoted then Some(DispatchRoot)
    else if a in g.roots then Some(DirectJalTarget)
    else CapturedReason(c, tables, a)
  }

  ghost predicate Reflects(c: Capture, tables: set<int>, inc: Included, g: Progress) {
    forall a :: ReasonOf(inc, a) == ReasonAt(c, tables, g, a)
  }

  /** Every root was walked or waits, once; only captured interiors of a kernel window were promoted; and a root that is
      neither captured nor promoted is callable. */
  ghost predicate Sane(c: Capture, tables: set<int>, g: Progress) {
    && CapturedRoots(c, tables) <= g.roots
    && g.roots == g.processed + Elements(g.pending) && g.processed !! Elements(g.pending) && Unique(g.pending)
    && (forall a :: a in g.promoted ==> a in g.roots && IsCapturedInterior(c, tables, a) && KernelWindow(c))
    && (forall a :: a in g.roots ==>
          Region(c, a) && (IsCapturedRoot(c, tables, a) || a in g.promoted || Callable(c.image, a)))
  }

  lemma AscendingIsUnique(s: set<int>)
    ensures Unique(Ascending(s)) && Elements(Ascending(s)) == s
  {
    AscendingOrdered(s);
    AscendingElements(s);
    forall i, j | 0 <= i < j < |Ascending(s)| ensures Ascending(s)[i] != Ascending(s)[j] {
      assert Sorting.IntLess(Ascending(s)[i], Ascending(s)[j]);
    }
  }

  lemma StartIsSane(c: Capture, tables: set<int>)
    ensures Sane(c, tables, Start(c, tables))
  {
    AscendingIsUnique(CapturedRoots(c, tables));
  }

  lemma QueueGrows(pending: seq<int>, found: set<int>)
    requires pending != [] && Unique(pending) && Elements(pending) !! found
    ensures var q := pending[1..] + Ascending(found);
            Unique(q) && Elements(q) == Elements(pending) - {pending[0]} + found
  {
    AscendingIsUnique(found);
    ElementsHead(pending);
    var front, back := pending[1..], Ascending(found);
    assert forall a :: a in Elements(front + back) <==> a in Elements(front) || a in Elements(back);
    forall i, j | 0 <= i < j < |front + back| ensures (front + back)[i] != (front + back)[j] {
      if i < |front| && j >= |front| {
        assert (front + back)[i] in Elements(front) && (front + back)[j] in Elements(back);
      }
    }
  }

  lemma NextCallsAreCallable(c: Capture, order: Order, g: Progress)
    requires Enumerates(order) && g.pending != []
    ensures forall a :: a in NextCalls(c, order, g) ==> Region(c, a) && Callable(c.image, a)
  {
    CallsAreCallable(Extent(c.image, g.pending[0], CapOf(c, g.roots, g.pending[0])), order);
  }

  lemma TurnIsSane(c: Capture, order: Order, tables: set<int>, g: Progress, t: Progress)
    requires Enumerates(order) && Sane(c, tables, g) && Turned(c, order, tables, g) == Some(t)
    ensures Sane(c, tables, t) && OnlyAdds(g, t)
  {
    if g.pending != [] {
      var found := NextCalls(c, order, g) - g.roots;
      NextCallsAreCallable(c, order, g);
      QueueGrows(g.pending, found);
      ElementsHead(g.pending);
      assert g.pending[0] in Elements(g.pending);
    } else {
      assert Elements(t.pending) == {t.pending[0]};
    }
  }

  lemma NextIsSane(c: Capture, order: Order, tables: set<int>, h: History, i: nat)
    requires Enumerates(order) && IsHistory(c, order, tables, h) && i < |h| - 1 && Sane(c, tables, h[i])
    ensures Sane(c, tables, h[i + 1]) && OnlyAdds(h[i], h[i + 1])
  {
    assert IsTurn(c, order, tables, h, i);
    TurnIsSane(c, order, tables, h[i], h[i + 1]);
  }

  lemma {:induction false} HistoryIsSane(c: Capture, order: Order, tables: set<int>, h: History, i: nat)
    requires Enumerates(order) && IsHistory(c, order, tables, h) && i < |h|
    ensures Sane(c, tables, h[i])
  {
    if i == 0 {
      StartIsSane(c, tables);
    } else {
      HistoryIsSane(c, order, tables, h, i - 1);
      NextIsSane(c, order, tables, h, i - 1);
    }
  }

  predicate OnlyAdds(g: Progress, t: Progress) {
    g.roots <= t.roots && g.processed <= t.processed && g.promoted <= t.promoted
  }

  lemma OnlyAddsOn(g: Progress, t: Progress, u: Progress)
    requires OnlyAdds(g, t) && OnlyAdds(t, u)
    ensures OnlyAdds(g, u)
  {
  }

  lemma {:induction false} HistoryOnlyAdds(c: Capture, order: Order, tables: set<int>, h: History, i: nat, j: nat)
    requires Enumerates(order) && IsHistory(c, order, tables, h) && i <= j < |h|
    ensures OnlyAdds(h[i], h[j])
    decreases j
  {
    if i < j {
      HistoryOnlyAdds(c, order, tables, h, i, j - 1);
      HistoryIsSane(c, order, tables, h, j - 1);
      NextIsSane(c, order, tables, h, j - 1);
      OnlyAddsOn(h[i], h[j - 1], h[j]);
    }
  }

  /** The turns so far led to `g`, and the reasons are those of this point. */
  ghost predicate StandsAt(c: Capture, order: Order, tables: set<int>, h: History, inc: Included, g: Progress) {
    && IsHistory(c, order, tables, h) && h[|h| - 1] == g
    && Sane(c, tables, g) && Reflects(c, tables, inc, g)
  }

  lemma HistoryGoesOn(c: Capture, order: Order, tables: set<int>, h: History, t: Progress)
    requires IsHistory(c, order, tables, h) && Turned(c, order, tables, h[|h| - 1]) == Some(t)
    ensures IsHistory(c, order, tables, h + [t])
  {
    forall i | 0 <= i < |h| ensures IsTurn(c, order, tables, h + [t], i) {
      if i < |h| - 1 { assert IsTurn(c, order, tables, h, i); }
    }
  }

  lemma ReasonMeans(c: Capture, tables: set<int>, inc: Included, g: Progress, a: int)
    requires Sane(c, tables, g) && ReasonOf(inc, a) == ReasonAt(c, tables, g, a)
    ensures (a in Roots(inc) <==> a in g.roots) && (a in Promoted(inc) <==> a in g.promoted)
    ensures a in inc ==> Justified(c, tables, a, inc[a])
    ensures a in inc && inc[a] == DispatchInterior <==> IsCapturedInterior(c, tables, a) && a !in g.roots
  {
  }

  /** What the reasons say about the turns, and the other way round. */
  lemma ReflectsMeans(c: Capture, tables: set<int>, inc: Included, g: Progress)
    requires Sane(c, tables, g) && Reflects(c, tables, inc, g)
    ensures Roots(inc) == g.roots && Promoted(inc) == g.promoted && AllJustified(c, tables, inc)
    ensures forall a :: a in inc && inc[a] == DispatchInterior <==> IsCapturedInterior(c, tables, a) && a !in g.roots
  {
    forall a ensures a in Roots(inc) <==> a in g.roots { ReasonMeans(c, tables, inc, g, a); }
    forall a ensures a in Promoted(inc) <==> a in g.promoted { ReasonMeans(c, tables, inc, g, a); }
    forall a | a in inc ensures Justified(c, tables, a, inc[a]) { ReasonMeans(c, tables, inc, g, a); }
    forall a
      ensures a in inc && inc[a] == DispatchInterior <==> IsCapturedInterior(c, tables, a) && a !in g.roots
    {
      ReasonMeans(c, tables, inc, g, a);
    }
  }

  function Promoted(inc: Included): set<int> {
    set a | a in inc && inc[a] == DispatchRoot
  }

  lemma StartReflects(c: Capture, tables: set<int>, inc: Included)
    requires forall a :: ReasonOf(inc, a) == CapturedReason(c, tables, a)
    ensures Reflects(c, tables, inc, Start(c, tables))
  {
  }

  lemma TargetsReflect(
    c: Capture, tables: set<int>, before: Included, after: Included, g: Progress, t: Progress, found: set<int>)
    requires Sane(c, tables, g) && Reflects(c, tables, before, g)
    requires found !! g.roots && t.roots == g.roots + found && t.promoted == g.promoted
    requires WithTargets(before, after, found)
    ensures Reflects(c, tables, after, t)
  {
    forall a ensures ReasonOf(after, a) == ReasonAt(c, tables, t, a) {
      assert ReasonOf(before, a) == ReasonAt(c, tables, g, a);
    }
  }

  lemma PromotionReflects(c: Capture, tables: set<int>, before: Included, g: Progress, t: Progress, a: int)
    requires Sane(c, tables, g) && Reflects(c, tables, before, g) && IsCapturedInterior(c, tables, a)
    requires t.roots == g.roots + {a} && t.promoted == g.promoted + {a}
    ensures Reflects(c, tables, before[a := DispatchRoot], t)
  {
    forall b ensures ReasonOf(before[a := DispatchRoot], b) == ReasonAt(c, tables, t, b) {
      assert ReasonOf(before, b) == ReasonAt(c, tables, g, b);
    }
  }

  lemma TargetsKeepPromoted(before: Included, after: Included, found: set<int>)
    requires WithTargets(before, after, found) && found !! Roots(before)
    ensures Promoted(after) == Promoted(before)
  {
    forall a ensures a in Promoted(after) <==> a in Promoted(before) {}
  }

  function Queued(g: Progress, calls: set<int>): Progress
    requires g.pending != []
  {
    Progress(
      g.roots + calls, g.pending[1..] + Ascending(calls - g.roots), g.processed + {g.pending[0]}, g.promoted)
  }

  lemma QueuedIsTurn(c: Capture, order: Order, tables: set<int>, g: Progress)
    requires g.pending != []
    ensures Turned(c, order, tables, g) == Some(Queued(g, NextCalls(c, order, g)))
  {
    var calls := NextCalls(c, order, g);
    assert g.roots + calls == g.roots + (calls - g.roots);
  }

  /** Walking the first root of the queue is a turn. */
  lemma WalkIsTurn(
    c: Capture, order: Order, tables: set<int>, h: History, before: Included, after: Included, g: Progress)
    requires Enumerates(order) && StandsAt(c, order, tables, h, before, g) && g.pending != []
    requires WithTargets(before, after, NextCalls(c, order, g) - g.roots)
    ensures var t := Queued(g, NextCalls(c, order, g));
            && Turned(c, order, tables, g) == Some(t) && StandsAt(c, order, tables, h + [t], after, t)
            && Promoted(after) == g.promoted
  {
    var calls := NextCalls(c, order, g);
    ReflectsMeans(c, tables, before, g);
    TargetsKeepPromoted(before, after, calls - g.roots);
    QueuedIsTurn(c, order, tables, g);
    TurnIsSane(c, order, tables, g, Queued(g, calls));
    TargetsReflect(c, tables, before, after, g, Queued(g, calls), calls - g.roots);
    HistoryGoesOn(c, order, tables, h, Queued(g, calls));
  }

  /** Promoting the least loose interior, when no root waits, is a turn. */
  lemma PromotionIsTurn(
    c: Capture, order: Order, tables: set<int>, h: History, before: Included, g: Progress, t: Progress, a: int)
    requires Enumerates(order) && StandsAt(c, order, tables, h, before, g) && g.pending == []
    requires KernelWindow(c) && IsLeastLoose(c, order, tables, g.roots, a)
    requires t == Progress(g.roots + {a}, [a], g.processed, Promoted(before[a := DispatchRoot]))
    ensures Turned(c, order, tables, g) == Some(t)
    ensures StandsAt(c, order, tables, h + [t], before[a := DispatchRoot], t)
  {
    ReflectsMeans(c, tables, before, g);
    assert Promoted(before[a := DispatchRoot]) == Promoted(before) + {a};
    TurnIsSane(c, order, tables, g, t);
    PromotionReflects(c, tables, before, g, t, a);
    HistoryGoesOn(c, order, tables, h, t);
  }

  ghost predicate IsLeastLoose(c: Capture, order: Order, tables: set<int>, roots: set<int>, a: int) {
    Loose(c, order, tables, roots) != {} && Least(Loose(c, order, tables, roots)) == a
  }

  lemma RootsAreInRegion(c: Capture, tables: set<int>, g: Progress)
    requires Sane(c, tables, g)
    ensures g.roots <= RegionSet(c)
    ensures forall r :: r in g.roots ==> r < Hi(c)
  {
  }

  /** Between two targets: the unknown ones so far are call targets and wait, in order; nothing else changed. */
  ghost predicate Adding(
    before: Included, roots: set<int>, queue: seq<int>, targets: set<int>, rest: set<int>,
    inc: Included, known: set<int>, pending: seq<int>)
  {
    var added := (targets - rest) - roots;
    && rest <= targets && roots == Roots(before) && known == Roots(inc) == roots + added
    && WithTargets(before, inc, added)
    && pending + Ascending(rest - roots) == queue + Ascending(targets - roots)
  }

  lemma AddingNext(
    before: Included, roots: set<int>, queue: seq<int>, targets: set<int>, rest: set<int>,
    inc: Included, known: set<int>, pending: seq<int>)
    requires rest != {} && Adding(before, roots, queue, targets, rest, inc, known, pending)
    ensures var a := Least(rest);
            if a in known then Adding(before, roots, queue, targets, rest - {a}, inc, known, pending)
            else Adding(
                   before, roots, queue, targets, rest - {a}, inc[a := DirectJalTarget], known + {a}, pending + [a])
  {
    var a := Least(rest);
    assert a in known <==> a in roots;
    QueueNext(pending, rest, roots);
    if a in roots {
      assert (targets - (rest - {a})) - roots == (targets - rest) - roots;
    } else {
      assert (targets - (rest - {a})) - roots == (targets - rest) - roots + {a};
      assert Roots(inc[a := DirectJalTarget]) == Roots(inc) + {a};
    }
  }

  class Classifier {
    const c: Capture
    const order: Order
    const tables: set<int>
    var included: Included
    var excluded: map<int, Exclusion>
    var known: set<int>
    var pending: seq<int>
    var processed: set<int>
    ghost var history: History

    constructor (c: Capture, order: Order, tables: set<int>)
      ensures this.c == c && this.order == order && this.tables == tables
      ensures included == map[] && excluded == map[] && known == {} && pending == [] && processed == {}
    {
      this.c, this.order, this.tables := c, order, tables;
      included, excluded, known, pending, processed := map[], map[], {}, [], {};
      history := [];
    }

    method Include(a: int, reason: Reason)
      modifies this`included, this`excluded
      ensures included == IncludedAfter(c, tables, old(included), a, reason)
      ensures excluded == ExcludedAfter(c, tables, old(excluded), a, reason)
    {
      if !Region(c, a) {
        excluded := excluded[a := Unknown];
        return;
      }
      if reason == DispatchEntry {
        if ImpossibleStart(c, a) {
          excluded := excluded[a := Unknown];
          return;
        }
        if a in tables || !Callable(c.image, a) {
          if a !in included {
            included := included[a := DispatchInterior];
          }
          return;
        }
      } else if reason != TomlDeclaredEntry && a in tables && !Callable(c.image, a) {
        excluded := excluded[a := BranchTargetOnly];
        return;
      }
      if a !in included || included[a] == FunctionPointerTarget || included[a] == DispatchInterior {
        included := included[a := reason];
      }
    }

    method IncludeAll(addrs: set<int>, reason: Reason)
      modifies this`included, this`excluded
      ensures forall a :: ReasonOf(included, a)
                       == if a in addrs then ReasonAfter(c, tables, ReasonOf(old(included), a), a, reason)
                          else ReasonOf(old(included), a)
    {
      var rest := addrs;
      while rest != {}
        invariant rest <= addrs
        invariant forall a :: ReasonOf(included, a)
                           == if a in addrs - rest then ReasonAfter(c, tables, ReasonOf(old(included), a), a, reason)
                              else ReasonOf(old(included), a)
        decreases rest
      {
        ghost var member := Member(rest);
        var a :| a in rest;
        forall b { OfferIsLocal(c, tables, included, a, reason, b); }
        Include(a, reason);
        rest := rest - {a};
      }
    }

    // ----- the fixpoint

    /** The lists of the capture, one after the other. */
    method IncludeLists()
      requires included == map[]
      modifies this`included, this`excluded
      ensures forall a :: ReasonOf(included, a) == CapturedReason(c, tables, a)
    {
      IncludeAll(c.dispatch, DispatchEntry);
      ghost var d := included;
      IncludeAll(c.functions, FunctionPointerTarget);
      ghost var f := included;
      IncludeAll(c.toml, TomlDeclaredEntry);
      ghost var t := included;
      if c.legacySchema {
        IncludeAll(LegacyCallable(c), FunctionPointerTarget);
      }
      forall a ensures ReasonOf(included, a) == CapturedReason(c, tables, a) {
        OffersGiveCapturedReason(c, tables, a, ReasonOf(d, a), ReasonOf(f, a), ReasonOf(t, a), ReasonOf(included, a));
      }
    }

    /** What the capture itself offers, and the first roots: everything included so far that is not
        an interior. */
    method IncludeCaptured()
      requires Enumerates(order) && included == map[] && processed == {}
      modifies this`included, this`excluded, this`known, this`pending, this`history
      ensures Valid() && Now() == Start(c, tables)
      ensures forall a :: ReasonOf(included, a) == CapturedReason(c, tables, a)
    {
      IncludeLists();
      StartIsSane(c, tables);
      StartReflects(c, tables, included);
      ReflectsMeans(c, tables, included, Start(c, tables));
      known := set a | a in included && included[a] != DispatchInterior;
      assert known == Roots(included);
      pending := Ascending(known);
      assert Now() == Start(c, tables);
      history := [Now()];
    }

    ghost function Now(): Progress
      reads this
    {
      Progress(known, pending, processed, Promoted(included))
    }

    /** Everything the loops keep: the turns so far led here, and the reasons are those of this point. */
    ghost predicate Valid()
      reads this
    {
      Enumerates(order) && StandsAt(c, order, tables, history, included, Now())
    }

    /** A direct call target becomes a root at once; it is callable, so `include` cannot refuse it. */
    method AddCallTarget(target: int)
      requires known == Roots(included)
      requires Region(c, target) && Callable(c.image, target) && target !in known
      modifies this`included, this`excluded, this`known, this`pending
      ensures known == Roots(included)
      ensures included == old(included)[target := DirectJalTarget]
      ensures known == old(known) + {target} && pending == old(pending) + [target]
    {
      CallTargetBecomesRoot(c, tables, included, target);
      Include(target, DirectJalTarget);
      if target in included {
        known := known + {target};
        pending := pending + [target];
      }
    }

    method AddCallTargets(targets: set<int>)
      requires known == Roots(included)
      requires forall t :: t in targets ==> Region(c, t) && Callable(c.image, t)
      modifies this`included, this`excluded, this`known, this`pending
      ensures known == Roots(included)
      ensures WithTargets(old(included), included, targets - old(known))
      ensures known == old(known) + targets
      ensures pending == old(pending) + Ascending(targets - old(known))
    {
      var rest := targets;
      assert targets - targets == {};
      while rest != {}
        invariant Adding(old(included), old(known), old(pending), targets, rest, included, known, pending)
        decreases rest
      {
        var target := Least(rest);
        AddingNext(old(included), old(known), old(pending), targets, rest, included, known, pending);
        if target !in known {
          AddCallTarget(target);
        }
        rest := rest - {target};
      }
      assert targets - {} == targets && {} - old(known) == {};
    }

    /** Walking one root: the calls it makes become roots, in order, and wait. */
    method ProcessRoot(entry: int)
      requires Enumerates(order) && known == Roots(included)
      modifies this`included, this`excluded, this`known, this`pending, this`processed
      ensures var calls := RootWalk(c, order, old(known), entry).directJals;
              && WithTargets(old(included), included, calls - old(known))
              && known == old(known) + calls && pending == old(pending) + Ascending(calls - old(known))
      ensures processed == old(processed) + {entry}
    {
      var cap := CapOf(c, known, entry);
      var walk := WalkOverlayFunction(Extent(c.image, entry, cap), order);
      CallsAreCallable(Extent(c.image, entry, cap), order);
      AddCallTargets(walk.directJals);
      processed := processed + {entry};
    }

    /** One turn of the inner loop. A root is never walked twice. */
    method ProcessFirst()
      requires Valid() && pending != []
      modifies this`included, this`excluded, this`known, this`pending, this`processed, this`history
      ensures Valid() && Turned(c, order, tables, old(Now())) == Some(Now())
      ensures old(known) <= known && (known == old(known) ==> |pending| < |old(pending)|)
    {
      ghost var g, before := Now(), included;
      ReflectsMeans(c, tables, included, g);
      assert pending[0] in Elements(pending);
      var entry := pending[0];
      pending := pending[1..];
      if entry !in processed {
        ProcessRoot(entry);
      }
      WalkIsTurn(c, order, tables, history, before, included, g);
      assert Now() == Queued(g, NextCalls(c, order, g));
      history := history + [Now()];
    }

    /** The inner loop: it ends, because roots are addresses of the region. */
    method ProcessPending()
      requires Valid()
      modifies this`included, this`excluded, this`known, this`pending, this`processed, this`history
      ensures Valid() && pending == [] && old(known) <= known
    {
      while pending != []
        invariant Valid() && old(known) <= known
        decreases RegionSet(c) - known, |pending|
      {
        ghost var roots := known;
        ProcessFirst();
        RootsAreInRegion(c, tables, Now());
        assert roots != known ==> RegionSet(c) - known < RegionSet(c) - roots;
      }
    }

    /** A kernel dispatch interior that no rooted walk covers becomes a root itself. */
    method PromoteOrphan(a: int)
      requires Valid() && pending == [] && KernelWindow(c)
      requires Orphaned(a) && forall b :: Orphaned(b) ==> a <= b
      modifies this`included, this`known, this`pending, this`history
      ensures Valid() && Turned(c, order, tables, old(Now())) == Some(Now())
      ensures included == old(included)[a := DispatchRoot]
      ensures known == old(known) + {a} && a !in old(known) && pending == [a]
    {
      ghost var g, before := Now(), included;
      OrphansAreLoose();
      included := included[a := DispatchRoot];
      known := known + {a};
      pending := pending + [a];
      PromotionIsTurn(c, order, tables, history, before, g, Now(), a);
      history := history + [Now()];
    }

    /** A dispatch interior outside every root's function. */
    ghost predicate Orphaned(a: int)
      reads this
    {
      a in included && included[a] == DispatchInterior && !Covered(c, order, known, a)
    }

    /** Between the walks, the orphans are the captured interiors that no root's function holds. */
    lemma OrphansAreLoose()
      requires Valid()
      ensures forall a :: Orphaned(a) <==> a in Loose(c, order, tables, known)
    {
      ReflectsMeans(c, tables, included, Now());
    }

    /** The least orphan. */
    method FindOrphan() returns (orphan: Option<int>)
      requires Valid()
      ensures orphan.Some? ==> Orphaned(orphan.value) && forall a :: Orphaned(a) ==> orphan.value <= a
      ensures orphan.None? ==> forall a :: !Orphaned(a)
    {
      var covered, _, _ := WalkAll(c, order, known);
      var promoted := set a | a in included && included[a] == DispatchInterior && a !in covered
                              && IsValidWord(WordAt(c.image, a));
      ReflectsMeans(c, tables, included, Now());
      forall a ensures Orphaned(a) <==> a in promoted {
        if Orphaned(a) { assert Justified(c, tables, a, included[a]); }
      }
      if promoted != {} {
        return Some(Least(promoted));
      }
      return None;
    }

    /** The outer loop: one orphan at a time, until no turn is left. */
    method Settle()
      requires Valid()
      modifies this`included, this`excluded, this`known, this`pending, this`processed, this`history
      ensures Valid() && Turned(c, order, tables, Now()) == None
      ensures KernelWindow(c) ==> forall a :: !Orphaned(a)
    {
      while true
        invariant Valid()
        decreases RegionSet(c) - known
      {
        ghost var roots := known;
        ProcessPending();
        if !KernelWindow(c) {
          break;
        }
        var orphan := FindOrphan();
        if orphan.None? {
          OrphansAreLoose();
          assert Loose(c, order, tables, known) == {};
          break;
        }
        PromoteOrphan(orphan.value);
        RootsAreInRegion(c, tables, Now());
        assert roots < known <= RegionSet(c);
        assert orphan.value in RegionSet(c) - roots;
      }
    }
  }

  /** The unknown targets that are left, in order, when the least target is taken out. */
  lemma QueueNext(pending: seq<int>, rest: set<int>, known: set<int>)
    requires rest != {}
    ensures var more := if Least(rest) in known then pending else pending + [Least(rest)];
            more + Ascending((rest - {Least(rest)}) - known) == pending + Ascending(rest - known)
  {
    var a := Least(rest);
    if a in known {
      assert (rest - {a}) - known == rest - known;
    } else {
      assert (rest - {a}) - known == (rest - known) - {a};
      assert a in rest - known && Least(rest - known) == a;
    }
  }

  /** The unions over `sorted(roots)` that the classification collects. */
  method WalkAll(c: Capture, order: Order, roots: set<int>)
    returns (visited: set<int>, branchTargets: set<int>, jumpTableTargets: set<int>)
    ensures forall a :: a in visited <==> Covered(c, order, roots, a)
    ensures forall a :: a in branchTargets <==>
              exists r :: r in roots && a in RootWalk(c, order, roots, r).branchTargets
    ensures forall a :: a in jumpTableTargets <==> InJumpTable(c, order, roots, a)
  {
    visited, branchTargets, jumpTableTargets := {}, {}, {};
    var rest := roots;
    while rest != {}
      invariant rest <= roots
      invariant forall a :: a in visited <==> exists r :: r in roots - rest && a in RootWalk(c, order, roots, r).visited
      invariant forall a :: a in branchTargets <==>
                  exists r :: r in roots - rest && a in RootWalk(c, order, roots, r).branchTargets
      invariant forall a :: a in jumpTableTargets <==>
                  exists r :: r in roots - rest && a in RootWalk(c, order, roots, r).jumpTableTargets
      decreases rest
    {
      var entry := Least(rest);
      var walk := WalkOverlayFunction(Extent(c.image, entry, CapOf(c, roots, entry)), order);
      assert walk == RootWalk(c, order, roots, entry);
      visited := visited + walk.visited;
      branchTargets := branchTargets + walk.branchTargets;
      jumpTableTargets := jumpTableTargets + walk.jumpTableTargets;
      ghost var done := roots - rest;
      rest := rest - {entry};
      assert forall r :: r in roots - rest <==> r in done || r == entry;
    }
    assert roots - {} == roots;
  }

  /** Some root's function jumps through a table to the address. */
  ghost predicate InJumpTable(c: Capture, order: Order, roots: set<int>, a: int) {
    exists r :: r in roots && a in RootWalk(c, order, roots, r).jumpTableTargets
  }

  // ----- the whole classification

  /** Entries trusted before any walk; their walks tell jump-table labels from callable entries. */
  function PreRoots(c: Capture): set<int> {
    set a | a in c.legacy + c.functions + c.toml + c.dispatch && Region(c, a)
            && (a in c.functions || a in c.toml || Callable(c.image, a))
  }

  function Candidates(c: Capture): set<int> {
    set a | a in c.executed + c.dispatch + c.functions + c.legacy + c.toml && Region(c, a)
  }

  /** Addresses that earn a place from the capture alone. */
  predicate Deserves(c: Capture, tables: set<int>, a: int) {
    || (a in c.dispatch && Admits(c, tables, a, DispatchEntry))
    || (a in c.functions && Admits(c, tables, a, FunctionPointerTarget))
    || (a in c.toml && Admits(c, tables, a, TomlDeclaredEntry))
    || (c.legacySchema && a in LegacyCallable(c))
  }

  ghost predicate Branched(c: Capture, order: Order, tables: set<int>, roots: set<int>, a: int) {
    || (exists r :: r in roots && a in RootWalk(c, order, roots, r).branchTargets)
    || InJumpTable(c, order, roots, a)
    || a in tables
  }

  /** Every candidate that found no place is excluded, for the reason the final walks give. */
  ghost predicate Explained(
    c: Capture, order: Order, tables: set<int>, included: Included, excluded: map<int, Exclusion>)
  {
    forall a :: a in Candidates(c) && a !in included ==>
      && a in excluded
      && excluded[a] == if Branched(c, order, tables, Roots(included), a) then BranchTargetOnly
                        else if a in c.executed || a in c.legacy then ObservedPcOnly else Unknown
  }

  /** The turns, from the captured roots to where none is left, that give every address its reason. */
  ghost predicate LeadsTo(c: Capture, order: Order, tables: set<int>, h: History, included: Included) {
    && IsHistory(c, order, tables, h)
    && Turned(c, order, tables, h[|h| - 1]) == None
    && Reflects(c, tables, included, h[|h| - 1])
  }

  /** What the classification settles on. */
  ghost predicate Settled(
    c: Capture, order: Order, tables: set<int>, included: Included, excluded: map<int, Exclusion>)
  {
    && (forall a :: a in tables <==> InJumpTable(c, order, PreRoots(c), a))
    && (exists h :: LeadsTo(c, order, tables, h, included))
    && Explained(c, order, tables, included, excluded)
  }

  method ClassifyOverlaySeeds(c: Capture, order: Order)
    returns (included: Included, excluded: map<int, Exclusion>, tables: set<int>)
    requires Enumerates(order)
    ensures Settled(c, order, tables, included, excluded)
  {
    var visited, branchTargets, finalTables;
    visited, branchTargets, tables := WalkAll(c, order, PreRoots(c));
    var k := new Classifier(c, order, tables);
    k.IncludeCaptured();
    k.Settle();
    assert LeadsTo(c, order, tables, k.history, k.included);
    ReflectsMeans(c, tables, k.included, k.Now());
    visited, branchTargets, finalTables := WalkAll(c, order, k.known);
    included := k.included;
    excluded := ExcludeRest(c, included.Keys, branchTargets + finalTables + tables, k.excluded);
    BranchedIsUnion(c, order, tables, Roots(included), branchTargets, finalTables);
    assert Explained(c, order, tables, included, excluded);
  }

  lemma BranchedIsUnion(
    c: Capture, order: Order, tables: set<int>, roots: set<int>, branchTargets: set<int>, finalTables: set<int>)
    requires forall a :: a in branchTargets <==>
               exists r :: r in roots && a in RootWalk(c, order, roots, r).branchTargets
    requires forall a :: a in finalTables <==> InJumpTable(c, order, roots, a)
    ensures forall a :: a in branchTargets + finalTables + tables <==> Branched(c, order, tables, roots, a)
  {
  }

  /** The candidates that found no place, with the reason why. */
  method ExcludeRest(c: Capture, included: set<int>, branched: set<int>, already: map<int, Exclusion>)
    returns (excluded: map<int, Exclusion>)
    ensures forall a :: a in Candidates(c) && a !in included ==>
              && a in excluded
              && excluded[a] == if a in branched then BranchTargetOnly
                                else if a in c.executed || a in c.legacy then ObservedPcOnly else Unknown
  {
    excluded := already;
    var rest := Candidates(c) - included;
    while rest != {}
      invariant rest <= Candidates(c) - included
      invariant forall a :: a in Candidates(c) && a !in included && a !in rest ==>
                  && a in excluded
                  && excluded[a] == if a in branched then BranchTargetOnly
                                    else if a in c.executed || a in c.legacy then ObservedPcOnly else Unknown
      decreases rest
    {
      var a := Least(rest);
      if a in branched {
        excluded := excluded[a := BranchTargetOnly];
      } else if a in c.executed || a in c.legacy {
        excluded := excluded[a := ObservedPcOnly];
      } else {
        excluded := excluded[a := Unknown];
      }
      rest := rest - {a};
    }
  }

  // ----- what a settled classification is

  /** Turns are forced: of two histories of one capture, one goes on from the other. */
  lemma {:induction false} HistoriesAgree(c: Capture, order: Order, tables: set<int>, h: History, k: History, i: nat)
    requires IsHistory(c, order, tables, h) && IsHistory(c, order, tables, k) && i < |h| && i < |k|
    ensures h[i] == k[i]
  {
    if i > 0 {
      HistoriesAgree(c, order, tables, h, k, i - 1);
      assert IsTurn(c, order, tables, h, i - 1);
      assert IsTurn(c, order, tables, k, i - 1);
    }
  }

  lemma EndsAgree(c: Capture, order: Order, tables: set<int>, h: History, k: History, x: Included, y: Included)
    requires LeadsTo(c, order, tables, h, x) && LeadsTo(c, order, tables, k, y)
    ensures h == k && x == y
  {
    if |h| < |k| {
      HistoriesAgree(c, order, tables, h, k, |h| - 1);
      assert IsTurn(c, order, tables, k, |h| - 1);
    } else if |k| < |h| {
      HistoriesAgree(c, order, tables, h, k, |k| - 1);
      assert IsTurn(c, order, tables, h, |k| - 1);
    }
    forall i | 0 <= i < |h| && i < |k| ensures h[i] == k[i] { HistoriesAgree(c, order, tables, h, k, i); }
    assert h == k;
    SameReasonsSameMap(c, tables, x, y, h[|h| - 1]);
  }

  lemma SameReasonsSameMap(c: Capture, tables: set<int>, x: Included, y: Included, g: Progress)
    requires Reflects(c, tables, x, g) && Reflects(c, tables, y, g)
    ensures x == y
  {
    forall a ensures ReasonOf(x, a) == ReasonOf(y, a) { assert ReasonOf(x, a) == ReasonAt(c, tables, g, a); }
    assert forall a :: (a in x <==> ReasonOf(x, a).Some?) && (a in y <==> ReasonOf(y, a).Some?);
    forall a | a in x ensures a in y && x[a] == y[a] { assert ReasonOf(x, a) == ReasonOf(y, a); }
    forall a | a in y ensures a in x { assert ReasonOf(x, a) == ReasonOf(y, a); }
  }

  /** There is one settled classification of a capture: the same addresses for the same reasons, and the same
      exclusions of what found no place. */
  lemma SettledIsUnique(
    c: Capture, order: Order, tables: set<int>, included: Included, excluded: map<int, Exclusion>,
    tables2: set<int>, included2: Included, excluded2: map<int, Exclusion>)
    requires Settled(c, order, tables, included, excluded) && Settled(c, order, tables2, included2, excluded2)
    ensures tables == tables2 && included == included2
    ensures forall a :: a in Candidates(c) && a !in included ==>
              a in excluded && a in excluded2 && excluded[a] == excluded2[a]
  {
    forall a ensures a in tables <==> a in tables2 { assert a in tables <==> InJumpTable(c, order, PreRoots(c), a); }
    assert tables == tables2;
    var h :| LeadsTo(c, order, tables, h, included);
    var k :| LeadsTo(c, order, tables, k, included2);
    EndsAgree(c, order, tables, h, k, included, included2);
  }

  /** At turn i the root r is walked. */
  predicate WalkedAt(h: History, i: int, r: int) {
    0 <= i < |h| - 1 && h[i].pending != [] && h[i].pending[0] == r
  }

  /** At turn i the walk of r, ended by the roots known then, calls `a`. */
  predicate CallsAt(c: Capture, order: Order, h: History, i: int, r: int, a: int) {
    WalkedAt(h, i, r) && a in RootWalk(c, order, h[i].roots, r).directJals
  }

  ghost predicate Calls(c: Capture, order: Order, h: History, r: int, a: int) {
    exists i :: CallsAt(c, order, h, i, r, a)
  }

  /** At turn i, with every root walked, `a` is the least interior that none of them covers, and is promoted. */
  ghost predicate PromotedAt(c: Capture, order: Order, tables: set<int>, h: History, i: int, a: int) {
    && 0 <= i < |h| - 1 && h[i].pending == [] && KernelWindow(c)
    && Loose(c, order, tables, h[i].roots) != {} && Least(Loose(c, order, tables, h[i].roots)) == a
  }

  ghost predicate WasPromoted(c: Capture, order: Order, tables: set<int>, h: History, i: int, a: int) {
    exists j :: j < i && PromotedAt(c, order, tables, h, j, a)
  }

  ghost predicate WasCalled(c: Capture, order: Order, h: History, i: int, a: int) {
    exists j, r :: j < i && CallsAt(c, order, h, j, r, a)
  }

  lemma TurnAdds(c: Capture, order: Order, tables: set<int>, h: History, i: nat, a: int)
    requires IsHistory(c, order, tables, h) && i < |h| - 1
    ensures a in h[i + 1].roots <==>
              || a in h[i].roots || PromotedAt(c, order, tables, h, i, a)
              || (h[i].pending != [] && CallsAt(c, order, h, i, h[i].pending[0], a))
    ensures a in h[i + 1].promoted <==> a in h[i].promoted || PromotedAt(c, order, tables, h, i, a)
  {
    assert IsTurn(c, order, tables, h, i);
  }

  /** The roots of this point are captured, promoted before or called before. */
  ghost predicate ComesFromTurns(c: Capture, order: Order, tables: set<int>, h: History, i: int, a: int) {
    && 0 <= i < |h|
    && (a in h[i].promoted <==> WasPromoted(c, order, tables, h, i, a))
    && (a in h[i].roots <==>
          IsCapturedRoot(c, tables, a) || WasPromoted(c, order, tables, h, i, a) || WasCalled(c, order, h, i, a))
  }

  lemma NextComesFromTurns(c: Capture, order: Order, tables: set<int>, h: History, i: nat, a: int)
    requires IsHistory(c, order, tables, h) && i < |h| - 1 && ComesFromTurns(c, order, tables, h, i, a)
    ensures ComesFromTurns(c, order, tables, h, i + 1, a)
  {
    TurnAdds(c, order, tables, h, i, a);
    OneMoreTurn(c, order, tables, h, i, a);
  }

  lemma {:induction false} RootsComeFromTurns(
    c: Capture, order: Order, tables: set<int>, h: History, i: nat, a: int)
    requires IsHistory(c, order, tables, h) && i < |h|
    ensures ComesFromTurns(c, order, tables, h, i, a)
  {
    if i > 0 {
      RootsComeFromTurns(c, order, tables, h, i - 1, a);
      NextComesFromTurns(c, order, tables, h, i - 1, a);
    }
  }

  lemma OneMoreTurn(c: Capture, order: Order, tables: set<int>, h: History, i: nat, a: int)
    ensures WasPromoted(c, order, tables, h, i + 1, a)
            <==> WasPromoted(c, order, tables, h, i, a) || PromotedAt(c, order, tables, h, i, a)
    ensures WasCalled(c, order, h, i + 1, a) <==>
              || WasCalled(c, order, h, i, a)
              || (i < |h| && h[i].pending != [] && CallsAt(c, order, h, i, h[i].pending[0], a))
  {
    if WasPromoted(c, order, tables, h, i + 1, a) && !WasPromoted(c, order, tables, h, i, a) {
      var j :| j < i + 1 && PromotedAt(c, order, tables, h, j, a);
      assert j == i;
    }
    if WasCalled(c, order, h, i + 1, a) && !WasCalled(c, order, h, i, a) {
      var j, r :| j < i + 1 && CallsAt(c, order, h, j, r, a);
      assert j == i;
    }
  }

  /** The roots, exactly: what the capture makes a root, what was promoted as the least uncovered interior of a fully
      walked root set, and what the walk of a root called, at the cap that held then. The reasons tell them apart. */
  lemma RootsAreCapturedCalledOrPromoted(
    c: Capture, order: Order, tables: set<int>, h: History, included: Included, a: int)
    requires Enumerates(order) && LeadsTo(c, order, tables, h, included)
    ensures var (promoted, called) :=
              (WasPromoted(c, order, tables, h, |h|, a), exists r :: Calls(c, order, h, r, a));
            ReasonOf(included, a)
            == if IsCapturedRoot(c, tables, a) then CapturedReason(c, tables, a)
               else if promoted then Some(DispatchRoot)
               else if called then Some(DirectJalTarget)
               else CapturedReason(c, tables, a)
    ensures a in Roots(included) <==>
              || IsCapturedRoot(c, tables, a) || WasPromoted(c, order, tables, h, |h|, a)
              || exists r :: Calls(c, order, h, r, a)
  {
    var n := |h| - 1;
    RootsComeFromTurns(c, order, tables, h, n, a);
    OneMoreTurn(c, order, tables, h, n, a);
    CallsAreBefore(c, order, h, a);
    assert ReasonOf(included, a) == ReasonAt(c, tables, h[n], a);
  }

  lemma CallsAreBefore(c: Capture, order: Order, h: History, a: int)
    ensures (exists r :: Calls(c, order, h, r, a)) <==> WasCalled(c, order, h, |h| - 1, a)
  {
    if j, r :| j < |h| - 1 && CallsAt(c, order, h, j, r, a) { assert Calls(c, order, h, r, a); }
    if r :| Calls(c, order, h, r, a) { var j :| CallsAt(c, order, h, j, r, a); assert j < |h| - 1; }
  }

  // ----- every root is walked once, and what that walk calls is a root

  lemma {:induction false} ProcessedWereWalked(
    c: Capture, order: Order, tables: set<int>, h: History, i: nat, r: int) returns (k: nat)
    requires IsHistory(c, order, tables, h) && i < |h| && r in h[i].processed
    ensures k < i && WalkedAt(h, k, r)
  {
    if i > 0 {
      assert IsTurn(c, order, tables, h, i - 1);
      if r in h[i - 1].processed {
        k := ProcessedWereWalked(c, order, tables, h, i - 1, r);
      } else {
        k := i - 1;
      }
    }
  }

  lemma WalkedStay(c: Capture, order: Order, tables: set<int>, h: History, i: nat, r: int)
    requires IsHistory(c, order, tables, h) && WalkedAt(h, i, r)
    ensures r in h[i + 1].processed && RootWalk(c, order, h[i].roots, r).directJals <= h[i + 1].roots
  {
    assert IsTurn(c, order, tables, h, i);
  }

  lemma FirstIsUnprocessed(c: Capture, order: Order, tables: set<int>, h: History, i: nat)
    requires Enumerates(order) && IsHistory(c, order, tables, h) && i < |h| && h[i].pending != []
    ensures h[i].pending[0] in h[i].roots && h[i].pending[0] !in h[i].processed
  {
    HistoryIsSane(c, order, tables, h, i);
    assert h[i].pending[0] in Elements(h[i].pending);
  }

  lemma WalkedBefore(c: Capture, order: Order, tables: set<int>, h: History, i: nat, k: nat, r: int)
    requires Enumerates(order) && IsHistory(c, order, tables, h) && WalkedAt(h, i, r) && WalkedAt(h, k, r)
    ensures !(i < k)
  {
    FirstIsUnprocessed(c, order, tables, h, k);
    WalkedStay(c, order, tables, h, i, r);
    if i < k {
      HistoryOnlyAdds(c, order, tables, h, i + 1, k);
    }
  }

  lemma EndOfTurns(c: Capture, order: Order, tables: set<int>, h: History, included: Included)
    requires Enumerates(order) && LeadsTo(c, order, tables, h, included)
    ensures var g := h[|h| - 1];
            && Sane(c, tables, g) && g.pending == [] && g.processed == g.roots == Roots(included)
            && (KernelWindow(c) ==> Loose(c, order, tables, g.roots) == {})
  {
    HistoryIsSane(c, order, tables, h, |h| - 1);
    ReflectsMeans(c, tables, included, h[|h| - 1]);
  }

  /** Each root is walked at exactly one turn, with the cap that the roots known then give it, and everything that walk
      calls is a root. */
  lemma RootsAreWalkedOnce(
    c: Capture, order: Order, tables: set<int>, h: History, included: Included, r: int) returns (i: nat)
    requires Enumerates(order) && LeadsTo(c, order, tables, h, included) && r in Roots(included)
    ensures WalkedAt(h, i, r) && forall k :: WalkedAt(h, k, r) ==> k == i
    ensures RootWalk(c, order, h[i].roots, r).directJals <= Roots(included)
  {
    EndOfTurns(c, order, tables, h, included);
    i := ProcessedWereWalked(c, order, tables, h, |h| - 1, r);
    WalkedStay(c, order, tables, h, i, r);
    HistoryOnlyAdds(c, order, tables, h, i + 1, |h| - 1);
    forall k | WalkedAt(h, k, r) ensures k == i {
      WalkedBefore(c, order, tables, h, i, k, r);
      WalkedBefore(c, order, tables, h, k, i, r);
    }
  }

  // ----- chains of calls

  /** A chain of calls, each seen at some turn, from an address that deserves its place to `a`. */
  ghost predicate IsCallChain(c: Capture, order: Order, tables: set<int>, h: History, p: seq<int>, a: int) {
    && p != [] && Deserves(c, tables, p[0]) && p[|p| - 1] == a
    && forall i :: 0 <= i < |p| - 1 ==> Calls(c, order, h, p[i], p[i + 1])
  }

  lemma CapturedDeserve(c: Capture, tables: set<int>, a: int)
    ensures Deserves(c, tables, a) <==> CapturedReason(c, tables, a).Some?
  {
  }

  lemma ChainGoesOn(c: Capture, order: Order, tables: set<int>, h: History, p: seq<int>, r: int, a: int)
    requires IsCallChain(c, order, tables, h, p, r) && Calls(c, order, h, r, a)
    ensures IsCallChain(c, order, tables, h, p + [a], a)
  {
    forall i | 0 <= i < |p| ensures Calls(c, order, h, (p + [a])[i], (p + [a])[i + 1]) {
      if i < |p| - 1 { assert Calls(c, order, h, p[i], p[i + 1]); }
    }
  }

  /** A root that a turn adds was promoted, or called by a root. */
  lemma AddedWasCalled(c: Capture, order: Order, tables: set<int>, h: History, i: nat, a: int)
    requires Enumerates(order) && IsHistory(c, order, tables, h) && i < |h| - 1
    requires a in h[i + 1].roots && a !in h[i].roots && a !in h[i + 1].promoted
    ensures h[i].pending != [] && h[i].pending[0] in h[i].roots && Calls(c, order, h, h[i].pending[0], a)
  {
    TurnAdds(c, order, tables, h, i, a);
    FirstIsUnprocessed(c, order, tables, h, i);
    assert CallsAt(c, order, h, i, h[i].pending[0], a);
  }

  lemma PromotedDeserve(c: Capture, order: Order, tables: set<int>, h: History, i: nat, a: int)
    requires Enumerates(order) && IsHistory(c, order, tables, h) && i < |h|
    requires IsCapturedRoot(c, tables, a) || a in h[i].promoted
    ensures Deserves(c, tables, a)
  {
    CapturedDeserve(c, tables, a);
    HistoryIsSane(c, order, tables, h, i);
  }

  lemma {:induction false} RootsEndChains(
    c: Capture, order: Order, tables: set<int>, h: History, i: nat, a: int) returns (p: seq<int>)
    requires Enumerates(order) && IsHistory(c, order, tables, h) && i < |h| && a in h[i].roots
    ensures IsCallChain(c, order, tables, h, p, a)
  {
    if IsCapturedRoot(c, tables, a) || a in h[i].promoted {
      PromotedDeserve(c, order, tables, h, i, a);
      p := [a];
    } else if i > 0 && a in h[i - 1].roots {
      p := RootsEndChains(c, order, tables, h, i - 1, a);
    } else {
      assert i > 0;
      AddedWasCalled(c, order, tables, h, i - 1, a);
      p := RootsEndChains(c, order, tables, h, i - 1, h[i - 1].pending[0]);
      ChainGoesOn(c, order, tables, h, p, h[i - 1].pending[0], a);
      p := p + [a];
    }
  }

  /** Everything that deserves a place has one, and nothing else has one but the callable end of a chain of calls
      that starts at an address which deserves its place: no function vouches for itself. */
  lemma IncludedIsDeservedOrCalled(
    c: Capture, order: Order, tables: set<int>, h: History, included: Included, a: int)
    requires Enumerates(order) && LeadsTo(c, order, tables, h, included)
    ensures Deserves(c, tables, a) ==> a in included
    ensures a in included ==>
              || Deserves(c, tables, a)
              || (Callable(c.image, a) && exists p :: |p| > 1 && IsCallChain(c, order, tables, h, p, a))
  {
    CapturedDeserve(c, tables, a);
    EndOfTurns(c, order, tables, h, included);
    assert ReasonOf(included, a) == ReasonAt(c, tables, h[|h| - 1], a);
    if a in included && !Deserves(c, tables, a) {
      var p := RootsEndChains(c, order, tables, h, |h| - 1, a);
      assert p[0] != a;
    }
  }

  /** In a settled kernel window every dispatch interior has exactly one host function. */
  lemma InteriorsHaveOneHost(
    c: Capture, order: Order, tables: set<int>, included: Included, excluded: map<int, Exclusion>, a: int)
    requires Enumerates(order) && Settled(c, order, tables, included, excluded)
    requires KernelWindow(c) && a in included && included[a] == DispatchInterior
    ensures exists r :: r in Roots(included) && a in RootWalk(c, order, Roots(included), r).visited
              && forall s :: s in Roots(included) && s != r ==> a !in RootWalk(c, order, Roots(included), s).visited
  {
    var roots := Roots(included);
    var h :| LeadsTo(c, order, tables, h, included);
    EndOfTurns(c, order, tables, h, included);
    ReflectsMeans(c, tables, included, h[|h| - 1]);
    assert a !in Loose(c, order, tables, roots);
    assert Covered(c, order, roots, a);
    var r :| r in roots && a in RootWalk(c, order, roots, r).visited;
    forall s | s in roots && s != r ensures a !in RootWalk(c, order, roots, s).visited {
      RootWalksAreDisjoint(c, order, roots, r, s);
    }
  }

  // ----- caps that shrank

  /** What a root's final function calls is a root, if its cap did not shrink after it was walked, or if the walk then
      decoded everything it reached. */
  lemma FinalCalleesAreRoots(
    c: Capture, order: Order, tables: set<int>, h: History, included: Included, i: nat, r: int)
    requires Enumerates(order) && LeadsTo(c, order, tables, h, included) && WalkedAt(h, i, r)
    requires || CapOf(c, h[i].roots, r) == CapOf(c, Roots(included), r)
             || DecodesAllReached(Extent(c.image, r, CapOf(c, h[i].roots, r)), order)
    ensures RootWalk(c, order, Roots(included), r).directJals <= Roots(included)
  {
    var n := |h| - 1;
    EndOfTurns(c, order, tables, h, included);
    WalkedStay(c, order, tables, h, i, r);
    HistoryOnlyAdds(c, order, tables, h, i + 1, n);
    HistoryOnlyAdds(c, order, tables, h, i, n);
    RootsAreInRegion(c, tables, h[n]);
    CapShrinks(c, h[i].roots, h[n].roots, r);
    if DecodesAllReached(Extent(c.image, r, CapOf(c, h[i].roots, r)), order) {
      LowerCapCallsLess(
        Extent(c.image, r, CapOf(c, Roots(included), r)), Extent(c.image, r, CapOf(c, h[i].roots, r)), order);
    }
  }
}
