/** Extents of an artifact's payload, and the overlap check on them. */
module Extents {
  import opened Basics
  import opened Sorting

  /** A reviewed executable range or function: a token and a stretch of the payload. */
  datatype Extent = Extent(id: string, offset: nat, size: nat)

  predicate Disjoint(a: Extent, b: Extent) {
    a.offset + a.size <= b.offset || b.offset + b.size <= a.offset
  }

  predicate ClearOf(a: Extent, s: seq<Extent>) {
    forall i :: 0 <= i < |s| ==> Disjoint(a, s[i])
  }

  predicate PairwiseDisjoint(s: seq<Extent>) {
    s == [] || (ClearOf(s[0], s[1..]) && PairwiseDisjoint(s[1..]))
  }

  lemma {:induction false} PairwiseDisjointAt(s: seq<Extent>, i: nat, j: nat)
    requires PairwiseDisjoint(s) && i < j < |s|
    ensures Disjoint(s[i], s[j])
  {
    if i > 0 {
      PairwiseDisjointAt(s[1..], i - 1, j - 1);
    } else {
      assert s[j] == s[1..][j - 1];
    }
  }

  /** Python sorts by offset (ties are broken by id, or left in place). */
  predicate NotAfter(a: Extent, b: Extent) {
    a.offset <= b.offset
  }

  function SortByOffset(s: seq<Extent>): seq<Extent> {
    Sort(NotAfter, s)
  }

  ghost predicate Rising(s: seq<Extent>) {
    forall i, j :: 0 <= i <= j < |s| ==> s[i].offset <= s[j].offset
  }

  lemma {:induction false} InsertClear(a: Extent, x: Extent, s: seq<Extent>)
    ensures ClearOf(a, Insert(NotAfter, x, s)) <==> Disjoint(a, x) && ClearOf(a, s)
  {
    if s == [] || x.offset <= s[0].offset {
      ClearOfHead(a, [x] + s);
      assert ([x] + s)[1..] == s;
    } else {
      InsertClear(a, x, s[1..]);
      ClearOfHead(a, [s[0]] + Insert(NotAfter, x, s[1..]));
      ClearOfHead(a, s);
      assert ([s[0]] + Insert(NotAfter, x, s[1..]))[1..] == Insert(NotAfter, x, s[1..]);
    }
  }

  lemma ClearOfHead(a: Extent, s: seq<Extent>)
    requires s != []
    ensures ClearOf(a, s) <==> Disjoint(a, s[0]) && ClearOf(a, s[1..])
  {
    assert s == [s[0]] + s[1..];
    if Disjoint(a, s[0]) && ClearOf(a, s[1..]) {
      forall i | 0 <= i < |s| ensures Disjoint(a, s[i]) {
        if i > 0 { assert s[i] == s[1..][i - 1]; }
      }
    }
  }

  lemma {:induction false} InsertDisjoint(x: Extent, s: seq<Extent>)
    ensures PairwiseDisjoint(Insert(NotAfter, x, s)) <==> ClearOf(x, s) && PairwiseDisjoint(s)
  {
    if s == [] || x.offset <= s[0].offset {
      assert ([x] + s)[1..] == s;
    } else {
      var rest := Insert(NotAfter, x, s[1..]);
      InsertDisjoint(x, s[1..]);
      InsertClear(s[0], x, s[1..]);
      ClearOfHead(x, s);
      assert ([s[0]] + rest)[1..] == rest;
    }
  }

  lemma {:induction false} SortKeepsDisjointness(s: seq<Extent>)
    ensures PairwiseDisjoint(SortByOffset(s)) <==> PairwiseDisjoint(s)
    ensures forall x :: x in SortByOffset(s) <==> x in s
  {
    if s != [] {
      SortKeepsDisjointness(s[1..]);
      InsertDisjoint(s[0], SortByOffset(s[1..]));
      InsertElements(NotAfter, s[0], SortByOffset(s[1..]));
      assert s == [s[0]] + s[1..];
      ClearOfMembers(s[0], SortByOffset(s[1..]), s[1..]);
    }
  }

  lemma ClearOfMembers(a: Extent, s: seq<Extent>, t: seq<Extent>)
    requires forall x :: x in s <==> x in t
    ensures ClearOf(a, s) <==> ClearOf(a, t)
  {
    if ClearOf(a, s) {
      forall i | 0 <= i < |t| ensures Disjoint(a, t[i]) { assert t[i] in s; }
    }
    if ClearOf(a, t) {
      forall i | 0 <= i < |s| ensures Disjoint(a, s[i]) { assert s[i] in t; }
    }
  }

  lemma {:induction false} InsertRising(x: Extent, s: seq<Extent>)
    requires Rising(s)
    ensures Rising(Insert(NotAfter, x, s))
  {
    if s != [] && x.offset > s[0].offset {
      InsertRising(x, s[1..]);
      InsertElements(NotAfter, x, s[1..]);
      var rest := Insert(NotAfter, x, s[1..]);
      forall i | 0 <= i < |rest| ensures s[0].offset <= rest[i].offset {
        assert rest[i] in rest;
        assert rest[i] == x || rest[i] in s[1..];
      }
    }
  }

  lemma {:induction false} SortRising(s: seq<Extent>)
    ensures Rising(SortByOffset(s))
  {
    if s != [] {
      SortRising(s[1..]);
      InsertRising(s[0], SortByOffset(s[1..]));
    }
  }

  predicate NeighboursClear(a: Extent, b: Extent) {
    a.offset + a.size <= b.offset
  }

  predicate AdjacentClear(s: seq<Extent>) {
    forall i :: 0 <= i < |s| - 1 ==> NeighboursClear(s[i], s[i + 1])
  }

  /** On extents in order, comparing neighbours is comparing all pairs. */
  lemma {:induction false} AdjacentIsPairwise(s: seq<Extent>)
    requires Rising(s) && forall i :: 0 <= i < |s| ==> s[i].size > 0
    ensures AdjacentClear(s) <==> PairwiseDisjoint(s)
  {
    if s != [] {
      var rest := s[1..];
      AdjacentIsPairwise(rest);
      assert forall i :: 0 <= i < |rest| ==> rest[i] == s[i + 1];
      if AdjacentClear(s) {
        assert AdjacentClear(rest) by {
          forall i | 0 <= i < |rest| - 1 ensures NeighboursClear(rest[i], rest[i + 1]) {
            assert NeighboursClear(s[i + 1], s[i + 1 + 1]);
          }
        }
        forall i | 0 <= i < |rest| ensures Disjoint(s[0], rest[i]) {
          assert NeighboursClear(s[0], s[0 + 1]) && s[1].offset <= s[i + 1].offset;
        }
      }
      if PairwiseDisjoint(s) {
        forall i | 0 <= i < |s| - 1 ensures NeighboursClear(s[i], s[i + 1]) {
          PairwiseDisjointAt(s, i, i + 1);
          assert s[i].offset <= s[i + 1].offset;
        }
      }
    }
  }

  /** The loop over neighbours in the sorted list accepts exactly the pairwise disjoint lists. */
  method CheckOverlaps(s: seq<Extent>) returns (ok: bool)
    requires forall x :: x in s ==> x.size > 0
    ensures ok <==> PairwiseDisjoint(s)
  {
    var sorted := SortByOffset(s);
    SortKeepsDisjointness(s);
    SortRising(s);
    assert forall i :: 0 <= i < |sorted| ==> sorted[i] in s;
    AdjacentIsPairwise(sorted);
    ok := CheckNeighbours(sorted);
  }

  method CheckNeighbours(sorted: seq<Extent>) returns (ok: bool)
    ensures ok <==> AdjacentClear(sorted)
  {
    var i := 0;
    while i + 1 < |sorted|
      invariant forall k :: 0 <= k < i && k + 1 < |sorted| ==> NeighboursClear(sorted[k], sorted[k + 1])
    {
      if sorted[i + 1].offset < sorted[i].offset + sorted[i].size {
        assert !NeighboursClear(sorted[i], sorted[i + 1]);
        return false;
      }
      i := i + 1;
    }
    return true;
  }
}

/** What the static census scans for, and how it names what it finds. */
module CensusScan {
  import opened Basics
  import opened Extents
  import opened HexText
  import OverlayCode

  /** The instruction kinds that are sites of their own. */
  function InstructionKind(w: nat): Option<string> {
    var op := w / 0x400_0000;
    if op == 0x12 && w / 0x200_0000 % 2 == 1 then Some("cop2-command")
    else if op == 0x12 && OverlayCode.Rs(w) == 0x00 then Some("mfc2")
    else if op == 0x12 && OverlayCode.Rs(w) == 0x02 then Some("cfc2")
    else if op == 0x12 && OverlayCode.Rs(w) == 0x04 then Some("mtc2")
    else if op == 0x12 && OverlayCode.Rs(w) == 0x06 then Some("ctc2")
    else if op == 0x32 then Some("lwc2")
    else if op == 0x3A then Some("swc2")
    else if op == 0x2B then Some("packet-store-candidate")
    else if op == 0x03 then Some("direct-jal")
    else if op == 0 && w % 0x40 == 0x09 then Some("jalr")
    else None
  }

  function BranchKind(w: nat): Option<string> {
    var op := w / 0x400_0000;
    if op == 0x02 then Some("direct-jump")
    else if 0x04 <= op <= 0x07 || 0x14 <= op <= 0x17 then Some("conditional-branch")
    else if op == 0x01 && (OverlayCode.Rt(w) <= 0x03
      || 0x10 <= OverlayCode.Rt(w) <= 0x13) then Some("conditional-branch")
    else if 0x10 <= op <= 0x13 && OverlayCode.Rs(w) == 0x08 then
      if OverlayCode.Rt(w) <= 3 then Some("coprocessor-branch") else None
    else if op == 0 && w % 0x40 == 0x08 && OverlayCode.Rs(w) != 31 then Some("indirect-jump")
    else None
  }

  /** `bcNf`, `bcNt` and their likely forms. */
  predicate IsCoprocessorBranch(w: nat) {
    0x10 <= w / 0x400_0000 <= 0x13 && OverlayCode.Rs(w) == 0x08 && OverlayCode.Rt(w) <= 3
  }

  /** A `regimm` word that is none of the eight branches of that group. */
  predicate IsOtherRegimm(w: nat) {
    w / 0x400_0000 == 0x01 && !(OverlayCode.Rt(w) <= 0x03 || 0x10 <= OverlayCode.Rt(w) <= 0x13)
  }

  /** Kind by kind, the census and the control-flow walk read the same jumps, calls and register transfers out of
      every 32-bit word. */
  lemma CensusSeesWhatTheWalkFollows(pc: int, w: nat)
    requires w < UINT32
    ensures OverlayCode.Classify(pc, w).Jump? <==> BranchKind(w) == Some("direct-jump")
    ensures OverlayCode.Classify(pc, w).JumpReg? <==> BranchKind(w) == Some("indirect-jump")
    ensures OverlayCode.Classify(pc, w).Call? <==> InstructionKind(w) == Some("direct-jal")
    ensures OverlayCode.Classify(pc, w).CallReg? <==> InstructionKind(w) == Some("jalr")
    ensures OverlayCode.Classify(pc, w).Branch? <==> BranchKind(w) == Some("conditional-branch") || IsOtherRegimm(w)
    ensures BranchKind(w) == Some("coprocessor-branch") ==> OverlayCode.Classify(pc, w).Normal?
  {
    assert OverlayCode.Op(w) == w / 0x400_0000;
  }

  /** Whether the walk follows a word as a jump or branch. */
  predicate Follows(pc: int, w: nat) {
    var f := OverlayCode.Classify(pc, w);
    f.Jump? || f.JumpReg? || f.Branch?
  }

  /** The two tools agree on what branches, but for two families of words: coprocessor branches, which only the census
      knows, and the remaining `regimm` words, which only the walk takes for branches. */
  lemma CensusAndWalkAgreeIff(pc: int, w: nat)
    requires w < UINT32
    ensures (BranchKind(w).Some? <==> Follows(pc, w)) <==> !IsCoprocessorBranch(w) && !IsOtherRegimm(w)
  {
    CensusSeesWhatTheWalkFollows(pc, w);
    assert BranchKind(w).Some? ==>
        BranchKind(w) in {Some("direct-jump"), Some("indirect-jump"), Some("conditional-branch"),
          Some("coprocessor-branch")};
  }

  /** `bc2f` and `tgei`. */
  lemma CensusAndWalkCanDisagree(pc: int)
    ensures BranchKind(0x4900_0000).Some? && !Follows(pc, 0x4900_0000)
    ensures BranchKind(0x0408_0000).None? && Follows(pc, 0x0408_0000)
  {
    CensusAndWalkAgreeIff(pc, 0x4900_0000);
    CensusAndWalkAgreeIff(pc, 0x0408_0000);
  }

  const INLINE_KIND := "inline-ot-insert"

  // ----- the inline ordering-table idiom

  /** A load of an ordering-table head. */
  predicate IsLoad(w: nat) {
    w / 0x400_0000 == 0x23 && OverlayCode.SignedImm(w) == 0 && OverlayCode.Rs(w) != 0 && OverlayCode.Rt(w) != 0
  }

  /** The old head stored into a packet. */
  predicate IsLink(load: nat, w: nat) {
    && w / 0x400_0000 == 0x2B && OverlayCode.SignedImm(w) == 0
    && OverlayCode.Rs(w) != 0 && OverlayCode.Rs(w) != OverlayCode.Rs(load)
    && OverlayCode.Rt(w) == OverlayCode.Rt(load)
  }

  /** The packet stored back as the new head. */
  predicate IsInsert(load: nat, link: nat, w: nat) {
    && w / 0x400_0000 == 0x2B && OverlayCode.SignedImm(w) == 0
    && OverlayCode.Rs(w) == OverlayCode.Rs(load) && OverlayCode.Rt(w) == OverlayCode.Rs(link)
  }

  /** A load, a link at most six words on, and an insert at most four words after that. */
  predicate IsIdiom(words: seq<nat>, i: int, j: int, k: int) {
    && 0 <= i < j < Min(i + 7, |words|) && j < k < Min(j + 5, |words|)
    && IsLoad(words[i]) && IsLink(words[i], words[j]) && IsInsert(words[i], words[j], words[k])
  }

  ghost predicate HasIdiom(words: seq<nat>, i: int) {
    exists j, k :: IsIdiom(words, i, j, k)
  }

  /** The earliest link, and for it the earliest insert. */
  ghost predicate IsFirstIdiom(words: seq<nat>, i: int, j: int, k: int) {
    && IsIdiom(words, i, j, k)
    && forall a, b :: IsIdiom(words, i, a, b) ==> j < a || (j == a && k <= b)
  }

  method FindInsert(words: seq<nat>, i: nat, j: nat) returns (k: Option<nat>)
    requires i < j < Min(i + 7, |words|) && IsLoad(words[i]) && IsLink(words[i], words[j])
    ensures k.Some? ==> IsIdiom(words, i, j, k.value) && forall b :: IsIdiom(words, i, j, b) ==> k.value <= b
    ensures k.None? ==> forall b :: !IsIdiom(words, i, j, b)
  {
    for b := j + 1 to Min(j + 5, |words|)
      invariant forall c :: IsIdiom(words, i, j, c) ==> b <= c
    {
      if IsInsert(words[i], words[j], words[b]) {
        return Some(b);
      }
    }
    return None;
  }

  method FindIdiom(words: seq<nat>, i: nat) returns (found: Option<(nat, nat)>)
    requires i < |words|
    ensures found.Some? ==> IsFirstIdiom(words, i, found.value.0, found.value.1)
    ensures found.None? ==> !HasIdiom(words, i)
  {
    if !IsLoad(words[i]) {
      return None;
    }
    for j := i + 1 to Min(i + 7, |words|)
      invariant forall a, b :: IsIdiom(words, i, a, b) ==> j <= a
    {
      if IsLink(words[i], words[j]) {
        var k := FindInsert(words, i, j);
        if k.Some? {
          return Some((j, k.value));
        }
      }
    }
    return None;
  }

  // ----- facts

  /** A scanned site or branch: the artifact, the payload offset and the kind name it. */
  datatype Fact = Fact(digest: string, offset: nat, kind: string)

  /** The bytes of an extent lie in the payload and are whole words. */
  predicate InPayload(payload: seq<byte>, x: Extent) {
    x.offset % 4 == 0 && x.size % 4 == 0 && x.size >= 4 && x.offset + x.size <= |payload|
  }

  function WordsOf(payload: seq<byte>, x: Extent): (w: seq<nat>)
    requires InPayload(payload, x)
    ensures |w| == x.size / 4
  {
    seq(x.size / 4, i requires 0 <= i < x.size / 4 => Word(payload, x.offset + i * 4))
  }

  /** The facts of the first `n` words that `kindOf` names. */
  function Named(digest: string, x: Extent, words: seq<nat>, kindOf: nat -> Option<string>, n: nat): seq<Fact>
    requires n <= |words|
  {
    if n == 0 then []
    else
      var front := Named(digest, x, words, kindOf, n - 1);
      var kind := kindOf(words[n - 1]);
      if kind.Some? then front + [Fact(digest, x.offset + (n - 1) * 4, kind.value)] else front
  }

  ghost function InlineNamed(digest: string, x: Extent, words: seq<nat>, n: nat): seq<Fact>
    requires n <= |words|
  {
    if n == 0 then []
    else
      var front := InlineNamed(digest, x, words, n - 1);
      if HasIdiom(words, n - 1) then front + [Fact(digest, x.offset + (n - 1) * 4, INLINE_KIND)] else front
  }

  method ScanNamed(digest: string, payload: seq<byte>, x: Extent, kindOf: nat -> Option<string>)
    returns (facts: seq<Fact>)
    requires InPayload(payload, x)
    ensures facts == Named(digest, x, WordsOf(payload, x), kindOf, x.size / 4)
  {
    facts := [];
    var words := WordsOf(payload, x);
    for i := 0 to |words|
      invariant facts == Named(digest, x, words, kindOf, i)
    {
      var kind := kindOf(words[i]);
      if kind.Some? {
        facts := facts + [Fact(digest, x.offset + i * 4, kind.value)];
      }
    }
  }

  /** `_scan_inline_ot_sites`: one site for each load that starts the idiom. */
  method ScanInline(digest: string, payload: seq<byte>, x: Extent) returns (facts: seq<Fact>)
    requires InPayload(payload, x)
    ensures facts == InlineNamed(digest, x, WordsOf(payload, x), x.size / 4)
  {
    facts := [];
    var words := WordsOf(payload, x);
    for i := 0 to |words|
      invariant facts == InlineNamed(digest, x, words, i)
    {
      var found := FindIdiom(words, i);
      if found.Some? {
        assert IsIdiom(words, i, found.value.0, found.value.1);
        facts := facts + [Fact(digest, x.offset + i * 4, INLINE_KIND)];
      }
    }
  }

  // ----- no fact twice

  ghost predicate Within(facts: seq<Fact>, digest: string, x: Extent, limit: nat) {
    forall f :: f in facts ==> f.digest == digest && x.offset <= f.offset < limit
  }

  lemma {:induction false} NamedIsUnique(
    digest: string, x: Extent, words: seq<nat>, kindOf: nat -> Option<string>, n: nat)
    requires n <= |words|
    ensures Unique(Named(digest, x, words, kindOf, n))
            && Within(Named(digest, x, words, kindOf, n), digest, x, x.offset + n * 4)
    ensures forall f :: f in Named(digest, x, words, kindOf, n) ==> exists w :: kindOf(w) == Some(f.kind)
  {
    if n > 0 {
      NamedIsUnique(digest, x, words, kindOf, n - 1);
      assert kindOf(words[n - 1]).Some? ==> kindOf(words[n - 1]) == Some(kindOf(words[n - 1]).value);
    }
  }

  /** The scan misses nothing and invents nothing: a fact is listed exactly when its word is of that kind. */
  lemma {:induction false} NamedIsExact(
    digest: string, x: Extent, words: seq<nat>, kindOf: nat -> Option<string>, n: nat, k: nat, kind: string)
    requires n <= |words| && k < n
    ensures Fact(digest, x.offset + k * 4, kind) in Named(digest, x, words, kindOf, n)
            <==> kindOf(words[k]) == Some(kind)
  {
    if k < n - 1 {
      NamedIsExact(digest, x, words, kindOf, n - 1, k, kind);
    } else {
      NamedIsUnique(digest, x, words, kindOf, n - 1);
    }
  }

  lemma {:induction false} InlineIsExact(digest: string, x: Extent, words: seq<nat>, n: nat, k: nat)
    requires n <= |words| && k < n
    ensures Fact(digest, x.offset + k * 4, INLINE_KIND) in InlineNamed(digest, x, words, n) <==> HasIdiom(words, k)
  {
    if k < n - 1 {
      InlineIsExact(digest, x, words, n - 1, k);
    } else {
      InlineIsUnique(digest, x, words, n - 1);
    }
  }

  lemma {:induction false} InlineIsUnique(digest: string, x: Extent, words: seq<nat>, n: nat)
    requires n <= |words|
    ensures Unique(InlineNamed(digest, x, words, n))
            && Within(InlineNamed(digest, x, words, n), digest, x, x.offset + n * 4)
    ensures forall f :: f in InlineNamed(digest, x, words, n) ==> f.kind == INLINE_KIND
  {
    if n > 0 {
      InlineIsUnique(digest, x, words, n - 1);
    }
  }

  lemma UniqueAppend<T>(a: seq<T>, b: seq<T>)
    requires Unique(a) && Unique(b) && forall x :: x in a ==> x !in b
    ensures Unique(a + b)
  {
    forall i, j | 0 <= i < j < |a + b| ensures (a + b)[i] != (a + b)[j] {
      if i < |a| && j >= |a| {
        assert (a + b)[i] in a && (a + b)[j] in b;
      }
    }
  }

  datatype What = Sites | Branches

  /** Everything found in one extent. */
  ghost function FactsIn(what: What, digest: string, payload: seq<byte>, x: Extent): seq<Fact>
    requires InPayload(payload, x)
  {
    var words := WordsOf(payload, x);
    match what
    case Sites => Named(digest, x, words, InstructionKind, |words|) + InlineNamed(digest, x, words, |words|)
    case Branches => Named(digest, x, words, BranchKind, |words|)
  }

  lemma FactsInAreUnique(what: What, digest: string, payload: seq<byte>, x: Extent)
    requires InPayload(payload, x)
    ensures Unique(FactsIn(what, digest, payload, x))
    ensures Within(FactsIn(what, digest, payload, x), digest, x, x.offset + x.size)
  {
    var words := WordsOf(payload, x);
    match what {
      case Branches => NamedIsUnique(digest, x, words, BranchKind, |words|);
      case Sites =>
        NamedIsUnique(digest, x, words, InstructionKind, |words|);
        InlineIsUnique(digest, x, words, |words|);
        var (a, b) := (Named(digest, x, words, InstructionKind, |words|), InlineNamed(digest, x, words, |words|));
        forall f | f in a ensures f !in b {
          var w :| InstructionKind(w) == Some(f.kind);
        }
        UniqueAppend(a, b);
    }
  }

  ghost function FactsAcross(what: What, digest: string, payload: seq<byte>, xs: seq<Extent>): seq<Fact>
    requires forall i :: 0 <= i < |xs| ==> InPayload(payload, xs[i])
  {
    if xs == [] then [] else FactsIn(what, digest, payload, xs[0]) + FactsAcross(what, digest, payload, xs[1..])
  }

  /** Disjoint extents never give the same fact twice. */
  lemma {:induction false} FactsAcrossAreUnique(what: What, digest: string, payload: seq<byte>, xs: seq<Extent>)
    requires forall i :: 0 <= i < |xs| ==> InPayload(payload, xs[i])
    requires PairwiseDisjoint(xs)
    ensures Unique(FactsAcross(what, digest, payload, xs))
    ensures forall f :: f in FactsAcross(what, digest, payload, xs) ==>
              f.digest == digest && exists i :: 0 <= i < |xs| && xs[i].offset <= f.offset < xs[i].offset + xs[i].size
  {
    if xs != [] {
      var (a, b) := (FactsIn(what, digest, payload, xs[0]), FactsAcross(what, digest, payload, xs[1..]));
      FactsInAreUnique(what, digest, payload, xs[0]);
      FactsAcrossAreUnique(what, digest, payload, xs[1..]);
      forall f | f in b
        ensures f !in a && exists i :: 0 <= i < |xs| && xs[i].offset <= f.offset < xs[i].offset + xs[i].size {
        var i :| 0 <= i < |xs[1..]| && xs[1..][i].offset <= f.offset < xs[1..][i].offset + xs[1..][i].size;
        PairwiseDisjointAt(xs, 0, i + 1);
        assert xs[i + 1] == xs[1..][i];
      }
      UniqueAppend(a, b);
    }
  }

  // ----- identifiers

  /** `site-<digest>-<offset>-<kind>` and its sisters. */
  function FactId(prefix: string, f: Fact): string {
    prefix + f.digest + "-" + Padded(f.offset, 8, false) + "-" + f.kind
  }

  function DashAt(s: string): nat {
    if s == "" || s[0] == '-' then 0 else 1 + DashAt(s[1..])
  }

  lemma {:induction false} DashAfter(a: string, x: string)
    requires forall i :: 0 <= i < |a| ==> a[i] != '-'
    ensures DashAt(a + "-" + x) == |a|
  {
    if a == "" {
      assert a + "-" + x == "-" + x;
    } else {
      DashAfter(a[1..], x);
      assert (a + "-" + x)[1..] == a[1..] + "-" + x;
    }
  }

  /** What stands before and after the first dash. */
  lemma SplitAtDash(a: string, x: string, b: string, y: string)
    requires AllHex(a) && AllHex(b) && a + "-" + x == b + "-" + y
    ensures a == b && x == y
  {
    DashAfter(a, x);
    DashAfter(b, y);
    assert (a + "-" + x)[..|a|] == a && (b + "-" + y)[..|b|] == b;
    assert (a + "-" + x)[|a| + 1..] == x && (b + "-" + y)[|b| + 1..] == y;
  }

  lemma IdParts(prefix: string, digest: string, hex: string, kind: string)
    ensures var id := prefix + digest + "-" + hex + "-" + kind;
            var n := |prefix| + |digest|;
            id[|prefix|..n] == digest && id[n + 1..] == hex + "-" + kind
  {
    var id, tail := prefix + digest + "-" + hex + "-" + kind, "-" + hex + "-" + kind;
    assert id == prefix + (digest + tail);
    assert id[|prefix|..] == digest + tail;
    assert tail[1..] == hex + "-" + kind;
  }

  lemma IdDecides(prefix: string, d: string, hex: string, kind: string, e: string, other: string, sort: string)
    requires |d| == |e| && prefix + d + "-" + hex + "-" + kind == prefix + e + "-" + other + "-" + sort
    ensures d == e && hex + "-" + kind == other + "-" + sort
  {
    IdParts(prefix, d, hex, kind);
    IdParts(prefix, e, other, sort);
  }

  /** Identifiers of facts with full digests are different whenever the facts are. */
  lemma FactIdIsInjective(prefix: string, f: Fact, g: Fact)
    requires |f.digest| == |g.digest| && FactId(prefix, f) == FactId(prefix, g)
    ensures f == g
  {
    var (hf, hg) := (Padded(f.offset, 8, false), Padded(g.offset, 8, false));
    IdDecides(prefix, f.digest, hf, f.kind, g.digest, hg, g.kind);
    ParsePadded(f.offset, 8, false);
    ParsePadded(g.offset, 8, false);
    SplitAtDash(hf, f.kind, hg, g.kind);
  }
}

/** The review gate: when the ledger may claim that the census is closed. */
module CensusLedger {
  import opened Basics
  import opened Extents
  import opened CensusScan

  datatype Status = MigratedRender | Excluded2D | NonRender | Error

  /** One review record: what it is about and what was concluded. */
  datatype Review = Review(id: string, status: Status)

  /** A reviewed function, and the token of the executable range it belongs to. */
  datatype ReviewedFunction = ReviewedFunction(extent: Extent, range: string)

  /** An authenticated artifact with its reviewed executable ranges and functions. `entry` is the entry point as an
      offset from the start of the payload, for images that have one. */
  datatype Artifact = Artifact(
    digest: string, payload: seq<byte>, main: bool, entry: Option<int>,
    ranges: seq<Extent>, functions: seq<ReviewedFunction>)

  datatype Document = Document(
    artifacts: seq<Artifact>, artifactReviews: seq<Review>, siteReviews: seq<Review>, branchReviews: seq<Review>)

  predicate InPayloadAll(payload: seq<byte>, xs: seq<Extent>) {
    forall i :: 0 <= i < |xs| ==> InPayload(payload, xs[i])
  }

  function FunctionExtents(functions: seq<ReviewedFunction>): (xs: seq<Extent>)
    ensures |xs| == |functions|
    ensures forall i :: 0 <= i < |xs| ==> xs[i] == functions[i].extent
  {
    seq(|functions|, i requires 0 <= i < |functions| => functions[i].extent)
  }

  predicate Holds(r: Extent, offset: int) {
    r.offset <= offset < r.offset + r.size
  }

  predicate IsCode(ranges: seq<Extent>, offset: int) {
    exists r :: r in ranges && Holds(r, offset)
  }

  /** The function lies in the range it names. */
  predicate InNamedRange(ranges: seq<Extent>, f: ReviewedFunction) {
    exists r :: r in ranges && r.id == f.range
                && r.offset <= f.extent.offset && f.extent.offset + f.extent.size <= r.offset + r.size
  }

  predicate InNamedRanges(ranges: seq<Extent>, functions: seq<ReviewedFunction>) {
    forall i :: 0 <= i < |functions| ==> InNamedRange(ranges, functions[i])
  }

  /** What parsing accepts of one artifact, overlaps included. */
  ghost predicate IsArtifact(a: Artifact) {
    && |a.digest| == 64 && a.ranges != []
    && InPayloadAll(a.payload, a.ranges) && InPayloadAll(a.payload, FunctionExtents(a.functions))
    && PairwiseDisjoint(a.ranges) && PairwiseDisjoint(FunctionExtents(a.functions))
    && (a.entry.Some? ==> IsCode(a.ranges, a.entry.value))
    && InNamedRanges(a.ranges, a.functions)
  }

  ghost predicate IsInventory(artifacts: seq<Artifact>) {
    && (forall i :: 0 <= i < |artifacts| ==> IsArtifact(artifacts[i]))
    && (forall i, j :: 0 <= i < j < |artifacts| ==> artifacts[i].digest != artifacts[j].digest)
  }

  function ExtentIds(xs: seq<Extent>): seq<string> {
    seq(|xs|, i requires 0 <= i < |xs| => xs[i].id)
  }

  function RangeIds(artifacts: seq<Artifact>): seq<string> {
    if artifacts == [] then [] else ExtentIds(artifacts[0].ranges) + RangeIds(artifacts[1..])
  }

  function FunctionIds(artifacts: seq<Artifact>): seq<string> {
    if artifacts == [] then [] else ExtentIds(FunctionExtents(artifacts[0].functions)) + FunctionIds(artifacts[1..])
  }

  function MainExecutables(artifacts: seq<Artifact>): nat {
    if artifacts == [] then 0 else (if artifacts[0].main then 1 else 0) + MainExecutables(artifacts[1..])
  }

  /** What parsing accepts: one main executable, and no token given to two ranges or to two functions. */
  ghost predicate IsReview(artifacts: seq<Artifact>) {
    && IsInventory(artifacts) && MainExecutables(artifacts) == 1
    && Unique(RangeIds(artifacts)) && Unique(FunctionIds(artifacts))
  }

  /** Sites are scanned over the ranges of an artifact, branches over its functions. */
  function ExtentsOf(what: What, a: Artifact): seq<Extent> {
    match what
    case Sites => a.ranges
    case Branches => FunctionExtents(a.functions)
  }

  ghost function ScannedIn(what: What, a: Artifact): seq<Fact>
    requires IsArtifact(a)
  {
    FactsAcross(what, a.digest, a.payload, ExtentsOf(what, a))
  }

  /** The scan of all artifacts. */
  ghost function Scanned(what: What, artifacts: seq<Artifact>): seq<Fact>
    requires forall i :: 0 <= i < |artifacts| ==> IsArtifact(artifacts[i])
  {
    if artifacts == [] then []
    else
      assert IsArtifact(artifacts[0]);
      ScannedIn(what, artifacts[0]) + Scanned(what, artifacts[1..])
  }

  lemma ScannedStep(what: What, artifacts: seq<Artifact>, i: nat, before: seq<Fact>)
    requires i < |artifacts| && forall k :: 0 <= k < |artifacts| ==> IsArtifact(artifacts[k])
    ensures (before + ScannedIn(what, artifacts[i])) + Scanned(what, artifacts[i + 1..])
            == before + Scanned(what, artifacts[i..])
  {
    ScannedHead(what, artifacts, i);
  }

  lemma ScannedHead(what: What, artifacts: seq<Artifact>, i: nat)
    requires i < |artifacts| && forall k :: 0 <= k < |artifacts| ==> IsArtifact(artifacts[k])
    ensures Scanned(what, artifacts[i..]) == ScannedIn(what, artifacts[i]) + Scanned(what, artifacts[i + 1..])
  {
    assert artifacts[i..][1..] == artifacts[i + 1..];
  }

  /** No site and no branch is found twice, in all artifacts together. */
  lemma {:induction false} ScannedIsUnique(what: What, artifacts: seq<Artifact>)
    requires IsInventory(artifacts)
    ensures Unique(Scanned(what, artifacts))
    ensures forall f :: f in Scanned(what, artifacts) ==>
              |f.digest| == 64 && exists i :: 0 <= i < |artifacts| && artifacts[i].digest == f.digest
  {
    if artifacts != [] {
      var a, rest := artifacts[0], artifacts[1..];
      assert forall i :: 0 <= i < |rest| ==> rest[i] == artifacts[i + 1];
      assert IsArtifact(a);
      FactsAcrossAreUnique(what, a.digest, a.payload, ExtentsOf(what, a));
      ScannedIsUnique(what, rest);
      var (x, y) := (ScannedIn(what, a), Scanned(what, rest));
      forall f | f in y ensures f !in x && exists i :: 0 <= i < |artifacts| && artifacts[i].digest == f.digest {
        var i :| 0 <= i < |rest| && rest[i].digest == f.digest;
        assert artifacts[i + 1].digest == f.digest;
      }
      UniqueAppend(x, y);
    }
  }

  ghost predicate LiesInCode(artifacts: seq<Artifact>, f: Fact) {
    exists i :: 0 <= i < |artifacts| && artifacts[i].digest == f.digest && IsCode(artifacts[i].ranges, f.offset)
  }

  lemma ScannedInLiesInCode(what: What, a: Artifact, f: Fact)
    requires IsArtifact(a) && f in ScannedIn(what, a)
    ensures f.digest == a.digest && IsCode(a.ranges, f.offset)
  {
    var xs := ExtentsOf(what, a);
    FactsAcrossAreUnique(what, a.digest, a.payload, xs);
    var i :| 0 <= i < |xs| && xs[i].offset <= f.offset < xs[i].offset + xs[i].size;
    match what {
      case Sites => assert Holds(a.ranges[i], f.offset);
      case Branches =>
        assert InNamedRange(a.ranges, a.functions[i]);
        var r :| r in a.ranges && r.id == a.functions[i].range
                 && r.offset <= xs[i].offset && xs[i].offset + xs[i].size <= r.offset + r.size;
        assert Holds(r, f.offset);
    }
  }

  /** Whatever the census counts, site or branch, lies in a reviewed executable range of its artifact. */
  lemma {:induction false} FactsLieInCode(what: What, artifacts: seq<Artifact>, f: Fact)
    requires IsInventory(artifacts) && f in Scanned(what, artifacts)
    ensures LiesInCode(artifacts, f)
  {
    var a, rest := artifacts[0], artifacts[1..];
    assert IsArtifact(a);
    if f in ScannedIn(what, a) {
      ScannedInLiesInCode(what, a, f);
    } else {
      assert forall i :: 0 <= i < |rest| ==> rest[i] == artifacts[i + 1];
      FactsLieInCode(what, rest, f);
      var i :| 0 <= i < |rest| && rest[i].digest == f.digest && IsCode(rest[i].ranges, f.offset);
      assert artifacts[i + 1] == rest[i];
    }
  }

  function PrefixOf(what: What): string {
    match what
    case Sites => "site-"
    case Branches => "branch-"
  }

  function Ids(prefix: string, facts: seq<Fact>): (ids: seq<string>)
    ensures |ids| == |facts|
    ensures forall i :: 0 <= i < |ids| ==> ids[i] == FactId(prefix, facts[i])
  {
    seq(|facts|, i requires 0 <= i < |facts| => FactId(prefix, facts[i]))
  }

  /** Site and branch identifiers are globally unique. */
  lemma IdsAreUnique(what: What, artifacts: seq<Artifact>)
    requires IsInventory(artifacts)
    ensures Unique(Ids(PrefixOf(what), Scanned(what, artifacts)))
  {
    ScannedIsUnique(what, artifacts);
    var facts := Scanned(what, artifacts);
    forall i, j | 0 <= i < j < |facts|
      ensures FactId(PrefixOf(what), facts[i]) != FactId(PrefixOf(what), facts[j])
    {
      assert facts[i] in facts && facts[j] in facts;
      if FactId(PrefixOf(what), facts[i]) == FactId(PrefixOf(what), facts[j]) {
        FactIdIsInjective(PrefixOf(what), facts[i], facts[j]);
      }
    }
  }

  function ArtifactIds(artifacts: seq<Artifact>): (ids: seq<string>)
    ensures |ids| == |artifacts|
    ensures forall i :: 0 <= i < |ids| ==> ids[i] == "artifact-" + artifacts[i].digest
  {
    seq(|artifacts|, i requires 0 <= i < |artifacts| => "artifact-" + artifacts[i].digest)
  }

  lemma ArtifactIdsAreUnique(artifacts: seq<Artifact>)
    requires IsInventory(artifacts)
    ensures Unique(ArtifactIds(artifacts))
  {
    forall i, j | 0 <= i < j < |artifacts|
      ensures "artifact-" + artifacts[i].digest != "artifact-" + artifacts[j].digest {
      assert ("artifact-" + artifacts[i].digest)[9..] == artifacts[i].digest;
      assert ("artifact-" + artifacts[j].digest)[9..] == artifacts[j].digest;
    }
  }

  // ----- the gate

  function IdSet(reviews: seq<Review>): set<string> {
    set r | r in reviews :: r.id
  }

  function Members(ids: seq<string>): set<string> {
    set i | i in ids
  }

  /** Every identifier has exactly one review record, no record is about anything else, and none is an
      unresolved error. */
  ghost predicate Closed(ids: seq<string>, reviews: seq<Review>) {
    && (forall i :: 0 <= i < |ids| ==> Reviewed(reviews, ids[i]))
    && (forall r :: 0 <= r < |reviews| ==> reviews[r].id in ids && reviews[r].status != Error)
  }

  ghost predicate IsOnlyReview(reviews: seq<Review>, r: int, id: string) {
    && 0 <= r < |reviews| && reviews[r].id == id
    && forall q :: 0 <= q < |reviews| && reviews[q].id == id ==> q == r
  }

  /** Exactly one record is about `id`. */
  ghost predicate Reviewed(reviews: seq<Review>, id: string) {
    exists r :: IsOnlyReview(reviews, r, id)
  }

  /** The reviews' identifiers are pairwise different. */
  predicate DistinctIds(reviews: seq<Review>) {
    forall q, r :: 0 <= q < r < |reviews| ==> reviews[q].id != reviews[r].id
  }

  /** Deduplication, staleness, coverage and errors, as the tool checks them one after the other. */
  method CheckReviews(ids: seq<string>, reviews: seq<Review>)
    returns (valid: bool, unreviewed: set<string>, errors: nat)
    ensures valid <==> DistinctIds(reviews) && IdSet(reviews) <= Members(ids)
    ensures unreviewed == Members(ids) - IdSet(reviews)
    ensures errors == 0 <==> forall r :: 0 <= r < |reviews| ==> reviews[r].status != Error
  {
    var seen: set<string> := {};
    valid, errors := true, 0;
    for i := 0 to |reviews|
      invariant seen == IdSet(reviews[..i])
      invariant valid <==> DistinctIds(reviews[..i])
      invariant errors == 0 <==> forall r :: 0 <= r < i ==> reviews[r].status != Error
    {
      var r := reviews[i];
      valid := valid && r.id !in seen;
      seen := seen + {r.id};
      if r.status == Error {
        errors := errors + 1;
      }
    }
    assert reviews[..|reviews|] == reviews;
    valid := valid && seen <= Members(ids);
    unreviewed := Members(ids) - seen;
  }

  lemma ClosedPassesChecks(ids: seq<string>, reviews: seq<Review>)
    requires Closed(ids, reviews)
    ensures DistinctIds(reviews) && IdSet(reviews) == Members(ids)
  {
    forall q, r | 0 <= q < r < |reviews| ensures reviews[q].id != reviews[r].id {
      var i :| 0 <= i < |ids| && ids[i] == reviews[q].id;
      var o :| IsOnlyReview(reviews, o, ids[i]);
      assert q == o;
    }
    forall id | id in Members(ids) ensures id in IdSet(reviews) {
      var i :| 0 <= i < |ids| && ids[i] == id;
      var o :| IsOnlyReview(reviews, o, ids[i]);
      assert reviews[o] in reviews;
    }
  }

  lemma ChecksCoverEveryId(ids: seq<string>, reviews: seq<Review>)
    requires DistinctIds(reviews) && IdSet(reviews) == Members(ids)
    ensures forall i :: 0 <= i < |ids| ==> Reviewed(reviews, ids[i])
    ensures forall r :: 0 <= r < |reviews| ==> reviews[r].id in ids
  {
    forall i | 0 <= i < |ids| ensures Reviewed(reviews, ids[i]) {
      assert ids[i] in IdSet(reviews);
      var x :| x in reviews && x.id == ids[i];
      var r :| 0 <= r < |reviews| && reviews[r] == x;
      assert IsOnlyReview(reviews, r, ids[i]);
    }
    forall r | 0 <= r < |reviews| ensures reviews[r].id in ids {
      assert reviews[r] in reviews;
      assert reviews[r].id in Members(ids);
    }
  }

  /** The checks amount to closure. */
  lemma ChecksMeanClosed(ids: seq<string>, reviews: seq<Review>)
    ensures Closed(ids, reviews)
            <==> && DistinctIds(reviews) && IdSet(reviews) == Members(ids)
                 && forall r :: 0 <= r < |reviews| ==> reviews[r].status != Error
  {
    if Closed(ids, reviews) {
      ClosedPassesChecks(ids, reviews);
    }
    if DistinctIds(reviews) && IdSet(reviews) == Members(ids) {
      ChecksCoverEveryId(ids, reviews);
    }
  }

  // ----- a closed ledger is a bijection

  lemma {:induction false} UniqueCount(s: seq<string>)
    requires Unique(s)
    ensures |Members(s)| == |s|
  {
    if s == [] {
      assert Members(s) == {};
    } else {
      var (front, last) := (s[..|s| - 1], s[|s| - 1]);
      UniqueCount(front);
      assert s == front + [last];
      assert last !in front;
      assert Members(s) == Members(front) + {last};
    }
  }

  /** With unique identifiers, closure pairs the scanned facts and the records off one to one: there are as many of
      one as of the other, no fact lacks its one record, and no record lacks its one fact. */
  lemma ClosedIsBijection(ids: seq<string>, reviews: seq<Review>)
    requires Unique(ids) && Closed(ids, reviews)
    ensures |reviews| == |ids|
    ensures forall i :: 0 <= i < |ids| ==> Reviewed(reviews, ids[i])
    ensures forall r :: 0 <= r < |reviews| ==> Found(ids, reviews[r].id)
  {
    ClosedPassesChecks(ids, reviews);
    var named := seq(|reviews|, r requires 0 <= r < |reviews| => reviews[r].id);
    assert Members(named) == IdSet(reviews) by {
      forall id | id in Members(named) ensures id in IdSet(reviews) {
        var r :| 0 <= r < |named| && named[r] == id;
        assert reviews[r] in reviews;
      }
      forall id | id in IdSet(reviews) ensures id in Members(named) {
        var x :| x in reviews && x.id == id;
        var r :| 0 <= r < |reviews| && reviews[r] == x;
        assert named[r] == id;
      }
    }
    UniqueCount(ids);
    UniqueCount(named);
    forall r | 0 <= r < |reviews| ensures Found(ids, reviews[r].id) {
      var i :| 0 <= i < |ids| && ids[i] == reviews[r].id;
      assert IsOnlyIndex(ids, i, reviews[r].id);
    }
  }

  ghost predicate IsOnlyIndex(ids: seq<string>, i: int, id: string) {
    && 0 <= i < |ids| && ids[i] == id
    && forall j :: 0 <= j < |ids| && ids[j] == id ==> j == i
  }

  /** Exactly one scanned fact has the identifier `id`. */
  ghost predicate Found(ids: seq<string>, id: string) {
    exists i :: IsOnlyIndex(ids, i, id)
  }

  // ----- the document

  ghost function ScannedIds(what: What, artifacts: seq<Artifact>): seq<string>
    requires IsInventory(artifacts)
  {
    Ids(PrefixOf(what), Scanned(what, artifacts))
  }

  /** No record is repeated and none is about something the scan did not find. */
  ghost predicate Accepted(ids: seq<string>, reviews: seq<Review>) {
    DistinctIds(reviews) && IdSet(reviews) <= Members(ids)
  }

  ghost predicate AllAccepted(doc: Document)
    requires IsInventory(doc.artifacts)
  {
    && Accepted(ArtifactIds(doc.artifacts), doc.artifactReviews)
    && Accepted(ScannedIds(Sites, doc.artifacts), doc.siteReviews)
    && Accepted(ScannedIds(Branches, doc.artifacts), doc.branchReviews)
  }

  ghost predicate AllClosed(doc: Document)
    requires IsInventory(doc.artifacts)
  {
    && Closed(ArtifactIds(doc.artifacts), doc.artifactReviews)
    && Closed(ScannedIds(Sites, doc.artifacts), doc.siteReviews)
    && Closed(ScannedIds(Branches, doc.artifacts), doc.branchReviews)
  }

  /** A claimed closure: every artifact, site and branch has exactly one record, every record exactly one of these,
      and no record is an unresolved error. */
  lemma ClosureIsABijection(doc: Document)
    requires IsInventory(doc.artifacts) && AllClosed(doc)
    ensures |doc.artifactReviews| == |doc.artifacts|
    ensures |doc.siteReviews| == |Scanned(Sites, doc.artifacts)|
    ensures |doc.branchReviews| == |Scanned(Branches, doc.artifacts)|
    ensures forall r :: 0 <= r < |doc.artifactReviews| ==>
              Found(ArtifactIds(doc.artifacts), doc.artifactReviews[r].id) && doc.artifactReviews[r].status != Error
    ensures forall r :: 0 <= r < |doc.siteReviews| ==>
              Found(ScannedIds(Sites, doc.artifacts), doc.siteReviews[r].id) && doc.siteReviews[r].status != Error
    ensures forall r :: 0 <= r < |doc.branchReviews| ==>
              Found(ScannedIds(Branches, doc.artifacts), doc.branchReviews[r].id)
                && doc.branchReviews[r].status != Error
  {
    ArtifactIdsAreUnique(doc.artifacts);
    IdsAreUnique(Sites, doc.artifacts);
    IdsAreUnique(Branches, doc.artifacts);
    ClosedIsBijection(ArtifactIds(doc.artifacts), doc.artifactReviews);
    ClosedIsBijection(ScannedIds(Sites, doc.artifacts), doc.siteReviews);
    ClosedIsBijection(ScannedIds(Branches, doc.artifacts), doc.branchReviews);
  }

  /** The validation of one artifact: word-aligned extents inside the payload, none overlapping another, the entry and
      every function in the code. */
  method CheckArtifact(a: Artifact) returns (ok: bool)
    ensures ok <==> IsArtifact(a)
  {
    var functions := FunctionExtents(a.functions);
    if |a.digest| != 64 || a.ranges == [] || !InPayloadAll(a.payload, a.ranges) || !InPayloadAll(a.payload, functions) {
      return false;
    }
    if (a.entry.Some? && !IsCode(a.ranges, a.entry.value)) || !InNamedRanges(a.ranges, a.functions) {
      return false;
    }
    ok := CheckOverlaps(a.ranges);
    var functionsOk := CheckOverlaps(functions);
    ok := ok && functionsOk;
  }

  /** No token twice. */
  method CheckTokens(ids: seq<string>) returns (ok: bool)
    ensures ok <==> Unique(ids)
  {
    var seen: set<string> := {};
    for i := 0 to |ids|
      invariant seen == Members(ids[..i]) && Unique(ids[..i])
    {
      TakeOneMore(ids, i);
      if ids[i] in seen {
        var j :| 0 <= j < |ids[..i]| && ids[..i][j] == ids[i];
        assert ids[j] == ids[i];
        return false;
      }
      assert Members(ids[..i + 1]) == Members(ids[..i]) + {ids[i]};
      seen := seen + {ids[i]};
    }
    assert ids[..|ids|] == ids;
    return true;
  }

  method CheckInventory(artifacts: seq<Artifact>) returns (ok: bool)
    ensures ok <==> IsInventory(artifacts)
  {
    var seen: set<string> := {};
    for i := 0 to |artifacts|
      invariant forall d :: d in seen <==> exists j :: 0 <= j < i && artifacts[j].digest == d
      invariant forall j :: 0 <= j < i ==> IsArtifact(artifacts[j])
      invariant forall j, k :: 0 <= j < k < i ==> artifacts[j].digest != artifacts[k].digest
    {
      ok := CheckArtifact(artifacts[i]);
      if !ok || artifacts[i].digest in seen {
        return false;
      }
      seen := seen + {artifacts[i].digest};
    }
    return true;
  }

  /** `_parse_review`, as far as the artifacts and their functions go. */
  method CheckReview(artifacts: seq<Artifact>) returns (ok: bool)
    ensures ok <==> IsReview(artifacts)
  {
    ok := CheckInventory(artifacts);
    var rangesOk := CheckTokens(RangeIds(artifacts));
    var functionsOk := CheckTokens(FunctionIds(artifacts));
    ok := ok && rangesOk && functionsOk && MainExecutables(artifacts) == 1;
  }

  method ScanExtent(what: What, digest: string, payload: seq<byte>, x: Extent) returns (facts: seq<Fact>)
    requires InPayload(payload, x)
    ensures facts == FactsIn(what, digest, payload, x)
  {
    match what {
      case Sites =>
        facts := ScanNamed(digest, payload, x, InstructionKind);
        var inline := ScanInline(digest, payload, x);
        facts := facts + inline;
      case Branches =>
        facts := ScanNamed(digest, payload, x, BranchKind);
    }
  }

  lemma FactsAcrossStep(what: What, digest: string, payload: seq<byte>, xs: seq<Extent>, i: nat, before: seq<Fact>)
    requires i < |xs| && InPayloadAll(payload, xs)
    ensures (before + FactsIn(what, digest, payload, xs[i])) + FactsAcross(what, digest, payload, xs[i + 1..])
         == before + FactsAcross(what, digest, payload, xs[i..])
  {
  }

  method ScanExtents(what: What, digest: string, payload: seq<byte>, xs: seq<Extent>) returns (facts: seq<Fact>)
    requires InPayloadAll(payload, xs)
    ensures facts == FactsAcross(what, digest, payload, xs)
  {
    facts := [];
    for i := 0 to |xs|
      invariant facts + FactsAcross(what, digest, payload, xs[i..]) == FactsAcross(what, digest, payload, xs)
    {
      var found := ScanExtent(what, digest, payload, xs[i]);
      FactsAcrossStep(what, digest, payload, xs, i, facts);
      facts := facts + found;
    }
  }

  /** `_scan_artifact`: every range is scanned for sites, every function for branches. */
  method ScanArtifact(what: What, a: Artifact) returns (facts: seq<Fact>)
    requires IsArtifact(a)
    ensures facts == ScannedIn(what, a)
  {
    facts := ScanExtents(what, a.digest, a.payload, ExtentsOf(what, a));
  }

  method ScanAll(what: What, artifacts: seq<Artifact>) returns (facts: seq<Fact>)
    requires forall i :: 0 <= i < |artifacts| ==> IsArtifact(artifacts[i])
    ensures facts == Scanned(what, artifacts)
  {
    facts := [];
    for i := 0 to |artifacts|
      invariant facts + Scanned(what, artifacts[i..]) == Scanned(what, artifacts)
    {
      var found := ScanArtifact(what, artifacts[i]);
      ScannedStep(what, artifacts, i, facts);
      facts := facts + found;
    }
  }

  datatype Ledger = Ledger(sites: seq<Fact>, branches: seq<Fact>, blocked: bool, closureClaimed: bool)

  /** `build_document`: an inventory that parsing does not accept is refused, a document that repeats or invents a
      record is refused, and so is an incomplete one when completeness is required; a closure is claimed exactly when
      it was required and is real. */
  method BuildDocument(doc: Document, requireComplete: bool) returns (ledger: Option<Ledger>)
    ensures ledger.Some? <==> IsReview(doc.artifacts) && AllAccepted(doc) && (requireComplete ==> AllClosed(doc))
    ensures ledger.Some? ==> (ledger.value.blocked <==> !AllClosed(doc))
    ensures ledger.Some? ==> (ledger.value.closureClaimed <==> requireComplete && AllClosed(doc))
    ensures ledger.Some? ==> ledger.value.sites == Scanned(Sites, doc.artifacts)
                             && ledger.value.branches == Scanned(Branches, doc.artifacts)
  {
    var ok := CheckReview(doc.artifacts);
    if !ok {
      return None;
    }
    var sites := ScanAll(Sites, doc.artifacts);
    var branches := ScanAll(Branches, doc.artifacts);
    var a := CheckCoverage(ArtifactIds(doc.artifacts), doc.artifactReviews);
    var s := CheckCoverage(Ids(PrefixOf(Sites), sites), doc.siteReviews);
    var b := CheckCoverage(Ids(PrefixOf(Branches), branches), doc.branchReviews);
    if a == Invalid || s == Invalid || b == Invalid {
      return None;
    }
    var blocked := a == Blocked || s == Blocked || b == Blocked;
    if requireComplete && blocked {
      return None;
    }
    return Some(Ledger(sites, branches, blocked, requireComplete && !blocked));
  }

  datatype Verdict = Invalid | Blocked | Pass

  method CheckCoverage(ids: seq<string>, reviews: seq<Review>) returns (v: Verdict)
    ensures v == Invalid <==> !Accepted(ids, reviews)
    ensures v == Pass <==> Closed(ids, reviews)
  {
    var valid, unreviewed, errors := CheckReviews(ids, reviews);
    ChecksMeanClosed(ids, reviews);
    assert valid && unreviewed == {} ==> IdSet(reviews) == Members(ids) by {
      assert unreviewed == {} ==> forall id :: id in Members(ids) ==> id in IdSet(reviews) || id in unreviewed;
    }
    if !valid {
      return Invalid;
    }
    return if unreviewed != {} || errors != 0 then Blocked else Pass;
  }
}
