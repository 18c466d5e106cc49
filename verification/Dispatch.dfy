/** Compiled overlay functions as the dispatch generator receives them, and their normal form. */
module OverlayVariants {
  import opened Basics
  import opened Sorting

  type Ranges = seq<(int, int)>

  datatype Raw = Raw(
    addr: int, ranges: Ranges, codeSha: string, artifactBase: int, artifactSize: int, artifactSha: string,
    capability: int, producer: int, resume: int, symbol: string, imageRanges: Ranges, imageSha: string,
    provenance: string)

  /** Everything that tells two normalized variants apart, apart from their image identity. */
  datatype Key = Key(
    addr: int, codeSha: string, ranges: Ranges, resume: int, symbol: string, producer: int,
    artifactBase: int, artifactSize: int, artifactSha: string, capability: int)

  datatype Image = Image(ranges: Ranges, sha: string)

  datatype Variant = Variant(key: Key, image: Image)

  const RAM_MIRRORS: int := 0x80_0000
  const PROVENANCE := "authenticated-static-image-v1"

  function LowerChar(c: char): char {
    if 'A' <= c <= 'Z' then c - 'A' + 'a' else c
  }

  function Lower(s: string): string {
    seq(|s|, i requires 0 <= i < |s| => LowerChar(s[i]))
  }

  predicate IsDigest(s: string) {
    |s| == 64 && forall i :: 0 <= i < 64 ==> '0' <= s[i] <= '9' || 'a' <= s[i] <= 'f'
  }

  function Masked(ranges: Ranges): (r: Ranges)
    ensures |r| == |ranges|
  {
    seq(|ranges|, i requires 0 <= i < |ranges| => (ranges[i].0 % PHYSICAL, ranges[i].1))
  }

  function KeyOf(v: Raw): Key {
    Key(v.addr, Lower(v.codeSha), Masked(v.ranges), v.resume % UINT32, v.symbol, v.producer % UINT32,
        v.artifactBase % PHYSICAL, v.artifactSize, Lower(v.artifactSha), v.capability)
  }

  function ImageOf(v: Raw): Image {
    Image(Masked(v.imageRanges), Lower(v.imageSha))
  }

  function VariantOf(v: Raw): Variant {
    Variant(KeyOf(v), ImageOf(v))
  }

  /** The artifact is authentic and the variant's code, entry and producer lie inside it. */
  predicate HasAuthority(v: Raw) {
    var k := KeyOf(v);
    var end := k.artifactBase + k.artifactSize;
    && k.ranges != [] && k.artifactSize >= 4 && k.artifactBase < RAM_MIRRORS
    && k.artifactSize <= RAM_MIRRORS - k.artifactBase
    && 0 < k.capability <= 0xFFFF_FFFF_FFFF_FFFF
    && IsDigest(k.codeSha) && IsDigest(k.artifactSha) && v.provenance == PROVENANCE
    && k.artifactBase <= k.producer % PHYSICAL && k.producer % PHYSICAL + 4 <= end
    && k.artifactBase <= k.addr % PHYSICAL && k.addr % PHYSICAL + 4 <= end
    && forall i :: 0 <= i < |k.ranges| ==>
         k.ranges[i].1 > 0 && k.artifactBase <= k.ranges[i].0 && k.ranges[i].0 + k.ranges[i].1 <= end
  }

  predicate HasImage(v: Raw) {
    v.imageRanges == [] || IsDigest(Lower(v.imageSha))
  }

  // ----- order

  function Chars(s: string): (r: seq<int>)
    ensures |r| == |s|
    ensures forall i :: 0 <= i < |s| ==> r[i] == s[i] as int
  {
    seq(|s|, i requires 0 <= i < |s| => s[i] as int)
  }

  function Flat(r: Ranges): seq<int> {
    if r == [] then [] else [r[0].0, r[0].1] + Flat(r[1..])
  }

  /** The sort key, as nested sequences of integers. */
  function SortKey(k: Key): (s: seq<seq<int>>)
    ensures |s| == 10
  {
    [[k.addr], Chars(k.codeSha), Flat(k.ranges), [k.resume], Chars(k.symbol), [k.producer],
     [k.artifactBase], [k.artifactSize], Chars(k.artifactSha), [k.capability]]
  }

  function Code(v: Variant): seq<seq<int>> {
    SortKey(v.key) + [Flat(v.image.ranges), Chars(v.image.sha)]
  }

  predicate SeqLess(a: seq<int>, b: seq<int>) {
    Lex(IntLess, a, b)
  }

  /** Python's order of the sort keys, extended over the image so that it is an order of variants. */
  predicate VariantLess(a: Variant, b: Variant) {
    Lex(SeqLess, Code(a), Code(b))
  }

  lemma {:induction false} FlatInjective(a: Ranges, b: Ranges)
    requires Flat(a) == Flat(b)
    ensures a == b
  {
    if a != [] && b != [] {
      var (fa, fb) := (Flat(a), Flat(b));
      assert fa[0] == a[0].0 && fa[1] == a[0].1 && fb[0] == b[0].0 && fb[1] == b[0].1;
      assert fa[2..] == Flat(a[1..]) && fb[2..] == Flat(b[1..]);
      FlatInjective(a[1..], b[1..]);
      assert a == [a[0]] + a[1..] && b == [b[0]] + b[1..];
    }
  }

  lemma SortKeyInjective(a: Key, b: Key)
    requires SortKey(a) == SortKey(b)
    ensures a == b
  {
    var (x, y) := (SortKey(a), SortKey(b));
    assert x[0][0] == y[0][0] && x[3][0] == y[3][0] && x[5][0] == y[5][0];
    assert x[6][0] == y[6][0] && x[7][0] == y[7][0] && x[9][0] == y[9][0];
    assert x[1] == y[1] && x[2] == y[2] && x[4] == y[4] && x[8] == y[8];
    FlatInjective(a.ranges, b.ranges);
  }

  lemma CodeInjective(a: Variant, b: Variant)
    requires Code(a) == Code(b)
    ensures a == b
  {
    assert Code(a)[..10] == SortKey(a.key) && Code(b)[..10] == SortKey(b.key);
    assert Code(a)[10] == Flat(a.image.ranges) && Code(a)[11] == Chars(a.image.sha);
    assert Code(b)[10] == Flat(b.image.ranges) && Code(b)[11] == Chars(b.image.sha);
    SortKeyInjective(a.key, b.key);
    FlatInjective(a.image.ranges, b.image.ranges);
  }

  lemma SeqLessIsStrictTotal()
    ensures StrictTotal(SeqLess)
  {
    assert StrictTotal(IntLess);
    forall a ensures !SeqLess(a, a) { LexIrreflexive(IntLess, a); }
    forall a, b | a != b ensures SeqLess(a, b) || SeqLess(b, a) { LexTotal(IntLess, a, b); }
    forall a, b, c | SeqLess(a, b) && SeqLess(b, c) ensures SeqLess(a, c) { LexTransitive(IntLess, a, b, c); }
  }

  lemma VariantLessIsStrictTotal()
    ensures StrictTotal(VariantLess)
  {
    SeqLessIsStrictTotal();
    forall a ensures !VariantLess(a, a) { LexIrreflexive(SeqLess, Code(a)); }
    forall a, b | a != b ensures VariantLess(a, b) || VariantLess(b, a) {
      if Code(a) == Code(b) { CodeInjective(a, b); }
      LexTotal(SeqLess, Code(a), Code(b));
    }
    forall a, b, c | VariantLess(a, b) && VariantLess(b, c) ensures VariantLess(a, c) {
      LexTransitive(SeqLess, Code(a), Code(b), Code(c));
    }
  }

  lemma {:induction false} LexPrefixDecides(a: seq<seq<int>>, b: seq<seq<int>>, x: seq<seq<int>>, y: seq<seq<int>>)
    requires |a| == |b| && a != b
    ensures Lex(SeqLess, a + x, b + y) == Lex(SeqLess, a, b)
  {
    assert (a + x)[0] == a[0] && (b + y)[0] == b[0];
    if a[0] == b[0] {
      assert (a + x)[1..] == a[1..] + x && (b + y)[1..] == b[1..] + y;
      assert a == [a[0]] + a[1..] && b == [b[0]] + b[1..];
      LexPrefixDecides(a[1..], b[1..], x, y);
    }
  }

  /** Between variants with different keys the image plays no part in the order. */
  lemma KeysDecideTheOrder(a: Variant, b: Variant)
    requires a.key != b.key
    ensures VariantLess(a, b) == Lex(SeqLess, SortKey(a.key), SortKey(b.key))
  {
    if SortKey(a.key) == SortKey(b.key) { SortKeyInjective(a.key, b.key); }
    LexPrefixDecides(SortKey(a.key), SortKey(b.key), [Flat(a.image.ranges), Chars(a.image.sha)],
      [Flat(b.image.ranges), Chars(b.image.sha)]);
  }

  // ----- normalization

  function KeysIn(vs: seq<Variant>): set<Key> {
    set v | v in vs :: v.key
  }

  /** The loop: refuse what has no authority, keep the first of each key. */
  function Collected(raws: seq<Raw>): Option<seq<Variant>> {
    if raws == [] then Some([])
    else
      var before, v := Collected(raws[..|raws| - 1]), raws[|raws| - 1];
      if before.None? || !HasAuthority(v) then None
      else if KeyOf(v) in KeysIn(before.value) then before
      else if !HasImage(v) then None
      else Some(before.value + [VariantOf(v)])
  }

  function Normalized(raws: seq<Raw>): Option<seq<Variant>> {
    match Collected(raws)
    case None => None
    case Some(unique) => Some(Sort(VariantLess, unique))
  }

  method NormalizedVariants(raws: seq<Raw>) returns (r: Option<seq<Variant>>)
    ensures r == Normalized(raws)
  {
    var unique: seq<Variant> := [];
    var seen: set<Key> := {};
    for i := 0 to |raws|
      invariant Collected(raws[..i]) == Some(unique) && seen == KeysIn(unique)
    {
      var v := raws[i];
      assert raws[..i + 1][..i] == raws[..i];
      if !HasAuthority(v) {
        CollectedFails(raws, i + 1);
        return None;
      }
      if KeyOf(v) in seen {
        continue;
      }
      seen := seen + {KeyOf(v)};
      if !HasImage(v) {
        CollectedFails(raws, i + 1);
        return None;
      }
      unique := unique + [VariantOf(v)];
    }
    assert raws[..|raws|] == raws;
    return Some(Sort(VariantLess, unique));
  }

  lemma {:induction false} CollectedFails(raws: seq<Raw>, i: nat)
    requires i <= |raws| && Collected(raws[..i]).None?
    ensures Collected(raws).None?
    decreases |raws|
  {
    if i < |raws| {
      assert raws[..|raws| - 1][..i] == raws[..i];
      CollectedFails(raws[..|raws| - 1], i);
    } else {
      assert raws[..i] == raws;
    }
  }

  // ----- order independence

  ghost predicate Acceptable(raws: seq<Raw>) {
    forall v :: v in raws ==> HasAuthority(v) && HasImage(v)
  }

  /** Inputs that agree on everything else agree on the image they belong to. */
  ghost predicate OneImagePerArtifact(raws: seq<Raw>) {
    forall v, w :: v in raws && w in raws && KeyOf(v) == KeyOf(w) ==> ImageOf(v) == ImageOf(w)
  }

  ghost predicate SameInputs(a: seq<Raw>, b: seq<Raw>) {
    forall v :: v in a <==> v in b
  }

  ghost predicate UniqueKeys(vs: seq<Variant>) {
    forall i, j :: 0 <= i < j < |vs| ==> vs[i].key != vs[j].key
  }

  /** What the loop collects, whenever it refuses nothing: each key of an input once, each entry from an input
      that has its image. */
  lemma {:induction false} CollectedFacts(raws: seq<Raw>)
    requires Collected(raws).Some?
    ensures UniqueKeys(Collected(raws).value)
    ensures forall v :: v in raws ==> HasAuthority(v) && KeyOf(v) in KeysIn(Collected(raws).value)
    ensures forall u :: u in Collected(raws).value ==> IsFrom(u, raws)
  {
    if raws != [] {
      var front, v := raws[..|raws| - 1], raws[|raws| - 1];
      SplitLast(raws);
      CollectedFacts(front);
    }
  }

  /** The normal form of an input that has its image. */
  ghost predicate IsFrom(u: Variant, raws: seq<Raw>) {
    exists v :: v in raws && VariantOf(v) == u && HasImage(v)
  }

  lemma {:induction false} AcceptableIsCollected(raws: seq<Raw>)
    requires Acceptable(raws)
    ensures Collected(raws).Some?
  {
    if raws != [] {
      AcceptableIsCollected(raws[..|raws| - 1]);
    }
  }

  /** With one image per artifact, only an unacceptable input makes the loop refuse. */
  lemma CollectedIffAcceptable(raws: seq<Raw>)
    requires OneImagePerArtifact(raws)
    ensures Collected(raws).Some? <==> Acceptable(raws)
  {
    if Acceptable(raws) { AcceptableIsCollected(raws); }
    if Collected(raws).Some? {
      CollectedFacts(raws);
      forall v | v in raws ensures HasImage(v) {
        var x := ImagedOfKey(raws, v);
      }
    }
  }

  /** When nothing is refused, every input has the image of its key's entry. */
  lemma ImagedOfKey(raws: seq<Raw>, v: Raw) returns (x: Raw)
    requires Collected(raws).Some? && v in raws
    ensures x in raws && KeyOf(x) == KeyOf(v) && HasImage(x)
  {
    CollectedFacts(raws);
    var u :| u in Collected(raws).value && u.key == KeyOf(v);
    assert IsFrom(u, raws);
    x :| x in raws && VariantOf(x) == u && HasImage(x);
  }

  /** With one image per artifact the collected variants are the inputs' normal forms, as a set. */
  lemma CollectedIsEveryInput(raws: seq<Raw>, u: Variant)
    requires Collected(raws).Some? && OneImagePerArtifact(raws)
    ensures u in Collected(raws).value <==> exists v :: v in raws && VariantOf(v) == u
  {
    CollectedFacts(raws);
    if u in Collected(raws).value { assert IsFrom(u, raws); }
    forall v | v in raws && VariantOf(v) == u ensures u in Collected(raws).value {
      var t :| t in Collected(raws).value && t.key == KeyOf(v);
      assert IsFrom(t, raws);
    }
  }

  lemma NormalizedFacts(raws: seq<Raw>)
    requires Collected(raws).Some?
    ensures Normalized(raws).Some? && Ordered(VariantLess, Normalized(raws).value)
    ensures forall u :: u in Normalized(raws).value <==> u in Collected(raws).value
  {
    CollectedFacts(raws);
    VariantLessIsStrictTotal();
    SortOrdered(VariantLess, Collected(raws).value);
    SortElements(VariantLess, Collected(raws).value);
  }

  /** A variant whose entry and code are bytes of its artifact, and whose artifact lies in RAM. */
  predicate InsideArtifact(u: Variant) {
    var (base, end) := (u.key.artifactBase, u.key.artifactBase + u.key.artifactSize);
    && 0 <= base && end <= RAM_MIRRORS
    && base <= u.key.addr % PHYSICAL && u.key.addr % PHYSICAL + 4 <= end
    && forall r :: r in u.key.ranges ==> base <= r.0 < r.0 + r.1 <= end
  }

  /** Nothing in a normal form reaches outside its artifact, whatever the inputs were. */
  lemma {:induction false} CollectedIsInside(raws: seq<Raw>)
    requires Collected(raws).Some?
    ensures forall u :: u in Collected(raws).value ==> InsideArtifact(u)
  {
    if raws != [] {
      CollectedIsInside(raws[..|raws| - 1]);
    }
  }

  lemma NormalizedIsInside(raws: seq<Raw>)
    requires Normalized(raws).Some?
    ensures forall u :: u in Normalized(raws).value ==> InsideArtifact(u)
  {
    CollectedIsInside(raws);
    SortElements(VariantLess, Collected(raws).value);
  }

  /** Reordering and repeating the inputs changes nothing, given one image per artifact: neither the normal form
      nor the refusal. */
  lemma NormalizedIgnoresOrder(a: seq<Raw>, b: seq<Raw>)
    requires OneImagePerArtifact(a) && SameInputs(a, b)
    ensures Normalized(a) == Normalized(b)
  {
    CollectedIffAcceptable(a);
    CollectedIffAcceptable(b);
    if Acceptable(a) {
      NormalizedFacts(a);
      NormalizedFacts(b);
      forall u ensures u in Normalized(a).value <==> u in Normalized(b).value {
        CollectedIsEveryInput(a, u);
        CollectedIsEveryInput(b, u);
      }
      VariantLessIsStrictTotal();
      OrderedIsDetermined(VariantLess, Normalized(a).value, Normalized(b).value);
    }
  }

  lemma {:induction false} FirstIsCollected(v: Raw, rest: seq<Raw>)
    requires Acceptable([v] + rest)
    ensures Collected([v] + rest).Some? && VariantOf(v) in Collected([v] + rest).value
    decreases |rest|
  {
    var raws := [v] + rest;
    AcceptableIsCollected(raws);
    if rest == [] {
      assert raws == [v] && raws[..0] == [];
    } else {
      assert raws[..|raws| - 1] == [v] + rest[..|rest| - 1];
      assert forall x :: x in [v] + rest[..|rest| - 1] ==> x in raws;
      FirstIsCollected(v, rest[..|rest| - 1]);
    }
  }

  /** Inputs whose keys are known already are looked at no further than their authority. */
  lemma {:induction false} KnownKeysAddNothing(a: seq<Raw>, b: seq<Raw>)
    requires Collected(a).Some?
    requires forall v :: v in b ==> HasAuthority(v) && KeyOf(v) in KeysIn(Collected(a).value)
    ensures Collected(a + b) == Collected(a)
    decreases |b|
  {
    if b == [] {
      assert a + b == a;
    } else {
      assert (a + b)[..|a + b| - 1] == a + b[..|b| - 1];
      KnownKeysAddNothing(a, b[..|b| - 1]);
    }
  }

  function Imaged(raws: seq<Raw>): (r: seq<Raw>)
    ensures forall v :: v in r <==> v in raws && HasImage(v)
  {
    if raws == [] then []
    else (if HasImage(raws[0]) then [raws[0]] else []) + Imaged(raws[1..])
  }

  ghost predicate KeyHasImage(raws: seq<Raw>, v: Raw) {
    exists x :: x in raws && KeyOf(x) == KeyOf(v) && HasImage(x)
  }

  /** Every key has an input with its image. */
  ghost predicate EveryKeyHasImage(raws: seq<Raw>) {
    forall v {:trigger KeyHasImage(raws, v)} :: v in raws ==> KeyHasImage(raws, v)
  }

  ghost predicate AllAuthorized(raws: seq<Raw>) {
    forall v :: v in raws ==> HasAuthority(v)
  }

  /** An order that lets `v` speak for its key and refuses nothing. */
  function Led(v: Raw, raws: seq<Raw>): seq<Raw> {
    ([v] + Imaged(raws)) + raws
  }

  lemma HeadKnowsEveryKey(v: Raw, raws: seq<Raw>)
    requires AllAuthorized(raws) && EveryKeyHasImage(raws) && v in raws && HasImage(v)
    ensures var head := [v] + Imaged(raws);
            && Collected(head).Some? && VariantOf(v) in Collected(head).value
            && forall x :: x in raws ==> KeyOf(x) in KeysIn(Collected(head).value)
  {
    var head := [v] + Imaged(raws);
    FirstIsCollected(v, Imaged(raws));
    CollectedFacts(head);
    forall x | x in raws ensures KeyOf(x) in KeysIn(Collected(head).value) {
      assert KeyHasImage(raws, x);
      var y :| y in raws && KeyOf(y) == KeyOf(x) && HasImage(y);
      assert y in head;
    }
  }

  lemma LeaderIsCollected(v: Raw, raws: seq<Raw>)
    requires AllAuthorized(raws) && EveryKeyHasImage(raws) && v in raws && HasImage(v)
    ensures SameInputs(raws, Led(v, raws))
    ensures Collected(Led(v, raws)).Some? && VariantOf(v) in Collected(Led(v, raws)).value
  {
    HeadKnowsEveryKey(v, raws);
    KnownKeysAddNothing([v] + Imaged(raws), raws);
  }

  lemma LeaderWithoutImageIsRefused(v: Raw, raws: seq<Raw>)
    requires v in raws && !HasImage(v)
    ensures SameInputs(raws, [v] + raws) && Collected([v] + raws).None?
  {
    assert ([v] + raws)[..1] == [v] && [v][..0] == [];
    CollectedFails([v] + raws, 1);
  }

  /** Two orders that let different images speak for one key give different normal forms. */
  lemma LeadersDiffer(v: Raw, w: Raw, vs: seq<Raw>, ws: seq<Raw>)
    requires KeyOf(v) == KeyOf(w) && ImageOf(v) != ImageOf(w)
    requires Collected(vs).Some? && VariantOf(v) in Collected(vs).value
    requires Collected(ws).Some? && VariantOf(w) in Collected(ws).value
    ensures Normalized(vs) != Normalized(ws)
  {
    CollectedFacts(ws);
    NormalizedFacts(vs);
    NormalizedFacts(ws);
    assert VariantOf(v) in Normalized(vs).value && VariantOf(w) in Normalized(ws).value;
    assert VariantOf(v) !in Normalized(ws).value;
  }

  /** Whatever the order, inputs that are not refused have their authority, and their keys an image. */
  lemma CollectedNeeds(raws: seq<Raw>, other: seq<Raw>)
    requires SameInputs(raws, other) && Normalized(other).Some?
    ensures AllAuthorized(raws) && EveryKeyHasImage(raws)
  {
    CollectedFacts(other);
    forall v | v in raws ensures KeyHasImage(raws, v) {
      var x := ImagedOfKey(other, v);
    }
  }

  lemma OrderMatters(raws: seq<Raw>, v: Raw, w: Raw) returns (a: seq<Raw>, b: seq<Raw>)
    requires AllAuthorized(raws) && EveryKeyHasImage(raws)
    requires v in raws && w in raws && KeyOf(v) == KeyOf(w) && ImageOf(v) != ImageOf(w)
    ensures SameInputs(raws, a) && SameInputs(raws, b) && Normalized(a) != Normalized(b)
  {
    if HasImage(v) && HasImage(w) {
      a, b := Led(v, raws), Led(w, raws);
      LeaderIsCollected(v, raws);
      LeaderIsCollected(w, raws);
      LeadersDiffer(v, w, a, b);
    } else {
      a, b := RefusalMatters(raws, if HasImage(v) then w else v);
    }
  }

  lemma RefusalMatters(raws: seq<Raw>, bad: Raw) returns (a: seq<Raw>, b: seq<Raw>)
    requires AllAuthorized(raws) && EveryKeyHasImage(raws) && bad in raws && !HasImage(bad)
    ensures SameInputs(raws, a) && SameInputs(raws, b) && Normalized(a) != Normalized(b)
  {
    var x := ImagedInput(raws, bad);
    a := Led(x, raws);
    LeaderIsCollected(x, raws);
    b := [bad] + raws;
    LeaderWithoutImageIsRefused(bad, raws);
  }

  lemma ImagedInput(raws: seq<Raw>, v: Raw) returns (x: Raw)
    requires EveryKeyHasImage(raws) && v in raws
    ensures x in raws && HasImage(x)
  {
    assert KeyHasImage(raws, v);
    x :| x in raws && KeyOf(x) == KeyOf(v) && HasImage(x);
  }

  /** For all inputs: every order and repetition has the same outcome exactly when some input lacks authority, or
      all inputs of some key lack an image identity, or inputs that agree on everything else agree on their image.
      In the first two cases that outcome is the refusal. */
  lemma OrderIndependentIffOneImage(raws: seq<Raw>)
    ensures (forall other :: SameInputs(raws, other) ==> Normalized(other) == Normalized(raws))
            <==> !AllAuthorized(raws) || !EveryKeyHasImage(raws) || OneImagePerArtifact(raws)
  {
    if !AllAuthorized(raws) || !EveryKeyHasImage(raws) {
      forall other | SameInputs(raws, other) ensures Normalized(other) == Normalized(raws) {
        if Normalized(raws).Some? { CollectedNeeds(raws, raws); }
        if Normalized(other).Some? { CollectedNeeds(raws, other); }
      }
    } else if OneImagePerArtifact(raws) {
      forall other | SameInputs(raws, other) ensures Normalized(other) == Normalized(raws) {
        NormalizedIgnoresOrder(raws, other);
      }
    } else {
      var v, w :| v in raws && w in raws && KeyOf(v) == KeyOf(w) && ImageOf(v) != ImageOf(w);
      var a, b := OrderMatters(raws, v, w);
    }
  }

  /** One function of one artifact, claimed for an image. */
  function Claim(imageSha: string): Raw {
    var digest := seq(64, _ => '0');
    Raw(0, [(0, 4)], digest, 0, 4, digest, 1, 0, 0, "f", [(0, 4)], imageSha, PROVENANCE)
  }

  lemma ClaimIsAcceptable(imageSha: string)
    requires IsDigest(imageSha) && Lower(imageSha) == imageSha
    ensures HasAuthority(Claim(imageSha)) && HasImage(Claim(imageSha))
    ensures ImageOf(Claim(imageSha)).sha == imageSha
  {
    var digest := seq(64, _ => '0');
    assert Lower(digest) == digest;
    assert Masked([(0, 4)]) == [(0, 4)];
  }

  /** Two acceptable inputs that differ in their image alone: the order decides which image is kept. */
  lemma OrderCanMatter()
    ensures exists v, w :: && Acceptable([v, w]) && KeyOf(v) == KeyOf(w) && SameInputs([v, w], [w, v])
                           && Normalized([v, w]) != Normalized([w, v])
  {
    var (zeros, ones) := (seq(64, _ => '0'), seq(64, _ => '1'));
    assert Lower(zeros) == zeros && Lower(ones) == ones;
    assert zeros[0] != ones[0];
    var v, w := Claim(zeros), Claim(ones);
    ClaimIsAcceptable(zeros);
    ClaimIsAcceptable(ones);
    assert [v] + [w] == [v, w] && [w] + [v] == [w, v];
    FirstIsCollected(v, [w]);
    FirstIsCollected(w, [v]);
    LeadersDiffer(v, w, [v, w], [w, v]);
  }
}

/** The generated dispatcher: sorted entries cut into shards, a router over the shards, and in each
    shard a content check of every variant at the address. */
module Dispatcher {
  import opened Basics
  import opened Sorting
  import opened IntSets
  import opened OverlayVariants
  import CodeIdentity

  /** What live memory holds: whether the bytes of some ranges have a given digest. */
  type Live = (Ranges, string) -> bool

  /** Whether the candidate that matched is accepted for the dispatched address. */
  type Accepts = (Variant, int) -> bool

  // ----- entries

  /** The variants at one address, in normal order. */
  function VariantsAt(vs: seq<Variant>, addr: int): seq<Variant> {
    if vs == [] then []
    else VariantsAt(vs[..|vs| - 1], addr) + (if vs[|vs| - 1].key.addr == addr then [vs[|vs| - 1]] else [])
  }

  function AddressSet(vs: seq<Variant>): set<int> {
    set v | v in vs :: v.key.addr
  }

  predicate SameCode(v: Variant, w: Variant) {
    v.key.ranges == w.key.ranges && v.key.codeSha == w.key.codeSha
  }

  /** Another image carries this code at this address. */
  predicate SharedCode(at: seq<Variant>, v: Variant) {
    exists i :: 0 <= i < |at| && SameCode(at[i], v) && at[i].image != v.image
  }

  /** The emitted condition of one variant. */
  predicate Matches(at: seq<Variant>, v: Variant, live: Live) {
    live(v.key.ranges, v.key.codeSha) && (SharedCode(at, v) ==> live(v.image.ranges, v.image.sha))
  }

  // ----- what a dispatch should answer

  datatype Answer =
    | Gated | NoEntry | NoMatch | Ambiguous | Refused | Possible | Run(variant: Variant)

  ghost predicate OnlyMatch(at: seq<Variant>, live: Live, i: int) {
    0 <= i < |at| && Matches(at, at[i], live) && forall j :: 0 <= j < |at| && j != i ==> !Matches(at, at[j], live)
  }

  ghost predicate NoneMatch(at: seq<Variant>, live: Live) {
    forall j :: 0 <= j < |at| ==> !Matches(at, at[j], live)
  }

  /** The right answer at an address: the one variant that memory identifies, if it is accepted. */
  ghost predicate RightAnswer(at: seq<Variant>, live: Live, probe: bool, accepts: Accepts, pc: int, a: Answer) {
    match a
    case Run(v) => !probe && accepts(v, pc) && exists i :: OnlyMatch(at, live, i) && at[i] == v
    case Refused => !probe && exists i :: OnlyMatch(at, live, i) && !accepts(at[i], pc)
    case Possible => probe && exists i :: OnlyMatch(at, live, i)
    case NoMatch => NoneMatch(at, live)
    case Ambiguous => exists i, j :: 0 <= i < j < |at| && Matches(at, at[i], live) && Matches(at, at[j], live)
    case _ => false
  }

  /** The first variant that matches, from an index on. */
  function NextMatch(at: seq<Variant>, live: Live, from: nat): (i: nat)
    requires from <= |at|
    ensures from <= i <= |at|
    ensures forall j :: from <= j < i ==> !Matches(at, at[j], live)
    ensures i < |at| ==> Matches(at, at[i], live)
    decreases |at| - from
  {
    if from == |at| || Matches(at, at[from], live) then from else NextMatch(at, live, from + 1)
  }

  function Decide(at: seq<Variant>, live: Live, probe: bool, accepts: Accepts, pc: int): (a: Answer)
    ensures RightAnswer(at, live, probe, accepts, pc, a)
  {
    var i := NextMatch(at, live, 0);
    if i == |at| then NoMatch
    else if NextMatch(at, live, i + 1) < |at| then Ambiguous
    else
      assert OnlyMatch(at, live, i);
      if probe then Possible else if accepts(at[i], pc) then Run(at[i]) else Refused
  }

  /** There is one right answer, whatever it is. */
  lemma RightAnswerIsUnique(at: seq<Variant>, live: Live, probe: bool, accepts: Accepts, pc: int, a: Answer)
    requires RightAnswer(at, live, probe, accepts, pc, a)
    ensures a == Decide(at, live, probe, accepts, pc)
  {
    var d := Decide(at, live, probe, accepts, pc);
    assert RightAnswer(at, live, probe, accepts, pc, d);
  }

  /** The probe says yes whenever a dispatch would run something; the rest is acceptance. */
  lemma ProbeCoversDispatch(at: seq<Variant>, live: Live, accepts: Accepts, pc: int)
    ensures Decide(at, live, true, accepts, pc) == Possible
            <==> Decide(at, live, false, accepts, pc).Run? || Decide(at, live, false, accepts, pc) == Refused
  {
  }

  /** Where the CPU stands when the dispatched function is entered: a resume point, if the variant has one. */
  function PcFor(a: Answer, pc: int): int {
    if a.Run? && a.variant.key.resume != 0 then a.variant.key.resume else pc
  }

  // ----- live memory as bytes

  /** Ranges as code identities have them. */
  function CodeRanges(ranges: Ranges): (r: seq<CodeIdentity.Range>)
    ensures |r| == |ranges|
  {
    seq(|ranges|, i requires 0 <= i < |ranges| => CodeIdentity.Range(ranges[i].0, ranges[i].1))
  }

  /** Memory from physical address 0 on, compared by digest. */
  function LiveIn(ram: seq<byte>, sha: seq<byte> -> string): Live {
    (ranges: Ranges, digest: string) => sha(CodeIdentity.BytesOf(CodeRanges(ranges), 0, ram)) == digest
  }

  // ----- what memory can make of an entry

  /** The digest of each list of ranges, where it has one: what any memory comes down to for the dispatcher. */
  type Memory = Ranges -> Option<string>

  function LiveBy(m: Memory): Live {
    (ranges: Ranges, digest: string) => m(ranges) == Some(digest)
  }

  /** What has to be in memory for a variant to match. */
  function Needs(at: seq<Variant>, v: Variant): set<(Ranges, string)> {
    {(v.key.ranges, v.key.codeSha)} + if SharedCode(at, v) then {(v.image.ranges, v.image.sha)} else {}
  }

  /** No list of ranges is needed with two digests. */
  predicate Consistent(needs: set<(Ranges, string)>) {
    forall p, q :: p in needs && q in needs && p.0 == q.0 ==> p.1 == q.1
  }

  predicate Holds(m: Memory, needs: set<(Ranges, string)>) {
    forall p :: p in needs ==> m(p.0) == Some(p.1)
  }

  lemma MatchesIffHolds(at: seq<Variant>, v: Variant, m: Memory)
    ensures Matches(at, v, LiveBy(m)) <==> Holds(m, Needs(at, v))
  {
    if Holds(m, Needs(at, v)) {
      assert (v.key.ranges, v.key.codeSha) in Needs(at, v);
      if SharedCode(at, v) { assert (v.image.ranges, v.image.sha) in Needs(at, v); }
    }
  }

  ghost function DigestIn(needs: set<(Ranges, string)>, ranges: Ranges): Option<string> {
    if exists p :: p in needs && p.0 == ranges then
      var p :| p in needs && p.0 == ranges;
      Some(p.1)
    else None
  }

  /** Consistent needs are exactly what some memory holds. */
  lemma SomeMemoryHolds(needs: set<(Ranges, string)>) returns (m: Memory)
    requires Consistent(needs)
    ensures forall others: set<(Ranges, string)> :: Holds(m, others) <==> others <= needs
  {
    m := r => DigestIn(needs, r);
    forall others: set<(Ranges, string)> ensures Holds(m, others) <==> others <= needs {
      if Holds(m, others) {
        forall p | p in others ensures p in needs {
          assert DigestIn(needs, p.0) == Some(p.1);
          var q :| q in needs && q.0 == p.0 && DigestIn(needs, p.0) == Some(q.1);
          assert q == (q.0, q.1) && p == (p.0, p.1);
        }
      }
      if others <= needs {
        forall p | p in others ensures m(p.0) == Some(p.1) {
          assert p in needs && p.0 == p.0;
        }
      }
    }
  }

  lemma HeldIsConsistent(m: Memory, needs: set<(Ranges, string)>)
    requires Holds(m, needs)
    ensures Consistent(needs)
  {
  }

  /** Two variants of the entry can be in memory at once. */
  predicate CanClash(at: seq<Variant>) {
    exists i, j :: 0 <= i < j < |at| && Consistent(Needs(at, at[i]) + Needs(at, at[j]))
  }

  ghost predicate AmbiguousIn(
    at: seq<Variant>, m: Memory, probe: bool, accepts: Accepts, pc: int)
  {
    Decide(at, LiveBy(m), probe, accepts, pc) == Ambiguous
  }

  lemma ClashIsAmbiguous(at: seq<Variant>, i: int, j: int, live: Live, probe: bool, accepts: Accepts, pc: int)
    requires 0 <= i < j < |at| && Matches(at, at[i], live) && Matches(at, at[j], live)
    ensures Decide(at, live, probe, accepts, pc) == Ambiguous
  {
    assert RightAnswer(at, live, probe, accepts, pc, Ambiguous);
    RightAnswerIsUnique(at, live, probe, accepts, pc, Ambiguous);
  }

  /** An entry can be ambiguous, in some memory, if and only if two of its variants need nothing that contradicts the
      other. */
  lemma AmbiguousIffCanClash(at: seq<Variant>, probe: bool, accepts: Accepts, pc: int)
    ensures (exists m: Memory :: AmbiguousIn(at, m, probe, accepts, pc)) <==> CanClash(at)
  {
    if m: Memory :| AmbiguousIn(at, m, probe, accepts, pc) {
      assert RightAnswer(at, LiveBy(m), probe, accepts, pc, Ambiguous);
      var i, j :| 0 <= i < j < |at| && Matches(at, at[i], LiveBy(m)) && Matches(at, at[j], LiveBy(m));
      MatchesIffHolds(at, at[i], m);
      MatchesIffHolds(at, at[j], m);
      HeldIsConsistent(m, Needs(at, at[i]) + Needs(at, at[j]));
    }
    if CanClash(at) {
      var i, j :| 0 <= i < j < |at| && Consistent(Needs(at, at[i]) + Needs(at, at[j]));
      var m := SomeMemoryHolds(Needs(at, at[i]) + Needs(at, at[j]));
      MatchesIffHolds(at, at[i], m);
      MatchesIffHolds(at, at[j], m);
      ClashIsAmbiguous(at, i, j, LiveBy(m), probe, accepts, pc);
      assert AmbiguousIn(at, m, probe, accepts, pc);
    }
  }

  lemma NeedsInBytes(at: seq<Variant>, v: Variant, ram: seq<byte>, sha: seq<byte> -> string, p: (Ranges, string))
    requires Matches(at, v, LiveIn(ram, sha)) && p in Needs(at, v)
    ensures sha(CodeIdentity.BytesOf(CodeRanges(p.0), 0, ram)) == p.1
  {
  }

  lemma MatchesInBytesAgree(at: seq<Variant>, v: Variant, w: Variant, ram: seq<byte>, sha: seq<byte> -> string)
    requires Matches(at, v, LiveIn(ram, sha)) && Matches(at, w, LiveIn(ram, sha))
    ensures Consistent(Needs(at, v) + Needs(at, w))
  {
    var needs := Needs(at, v) + Needs(at, w);
    forall p | p in needs ensures sha(CodeIdentity.BytesOf(CodeRanges(p.0), 0, ram)) == p.1 {
      if p in Needs(at, v) {
        NeedsInBytes(at, v, ram, sha, p);
      } else {
        NeedsInBytes(at, w, ram, sha, p);
      }
    }
  }

  /** Bytes are such a memory: an entry whose variants cannot clash is never ambiguous, whatever RAM holds. */
  lemma NoClashNoAmbiguity(
    at: seq<Variant>, ram: seq<byte>, sha: seq<byte> -> string, probe: bool, accepts: Accepts, pc: int)
    requires !CanClash(at)
    ensures Decide(at, LiveIn(ram, sha), probe, accepts, pc) != Ambiguous
  {
    var live := LiveIn(ram, sha);
    assert RightAnswer(at, live, probe, accepts, pc, Decide(at, live, probe, accepts, pc));
    forall i, j | 0 <= i < j < |at| ensures !(Matches(at, at[i], live) && Matches(at, at[j], live)) {
      if Matches(at, at[i], live) && Matches(at, at[j], live) {
        MatchesInBytesAgree(at, at[i], at[j], ram, sha);
      }
    }
  }

  /** In particular variants that differ in their code alone. */
  lemma DifferentCodeIsNeverAmbiguous(
    at: seq<Variant>, ram: seq<byte>, sha: seq<byte> -> string, probe: bool, accepts: Accepts, pc: int)
    requires forall i, j :: 0 <= i < j < |at| ==>
               at[i].key.ranges == at[j].key.ranges && at[i].key.codeSha != at[j].key.codeSha
    ensures Decide(at, LiveIn(ram, sha), probe, accepts, pc) != Ambiguous
  {
    forall i, j | 0 <= i < j < |at| ensures !Consistent(Needs(at, at[i]) + Needs(at, at[j])) {
      var p, q := (at[i].key.ranges, at[i].key.codeSha), (at[j].key.ranges, at[j].key.codeSha);
      assert p in Needs(at, at[i]) + Needs(at, at[j]) && q in Needs(at, at[i]) + Needs(at, at[j]);
    }
    NoClashNoAmbiguity(at, ram, sha, probe, accepts, pc);
  }

  /** The i-th variant can be the only match: its needs are consistent, and include those of no other variant. */
  predicate CanBeAlone(at: seq<Variant>, i: int) {
    && 0 <= i < |at| && Consistent(Needs(at, at[i]))
    && forall j :: 0 <= j < |at| && j != i ==> !(Needs(at, at[j]) <= Needs(at, at[i]))
  }

  lemma AloneIffCanBeAlone(at: seq<Variant>, i: int)
    ensures (exists m: Memory :: OnlyMatch(at, LiveBy(m), i)) <==> CanBeAlone(at, i)
  {
    if m: Memory :| OnlyMatch(at, LiveBy(m), i) {
      MatchesIffHolds(at, at[i], m);
      HeldIsConsistent(m, Needs(at, at[i]));
      forall j | 0 <= j < |at| && j != i ensures !(Needs(at, at[j]) <= Needs(at, at[i])) {
        MatchesIffHolds(at, at[j], m);
        assert !Matches(at, at[j], LiveBy(m));
      }
    }
    if CanBeAlone(at, i) {
      var m := SomeMemoryHolds(Needs(at, at[i]));
      forall j | 0 <= j < |at| ensures Matches(at, at[j], LiveBy(m)) <==> Needs(at, at[j]) <= Needs(at, at[i]) {
        MatchesIffHolds(at, at[j], m);
      }
      assert OnlyMatch(at, LiveBy(m), i);
    }
  }

  // ----- what a dispatch counts

  datatype Stats = Stats(checks: nat, hits: nat, variantMisses: nat, addressMisses: nat, entryHits: seq<nat>)

  /** How many variants are checked: all, or up to the second match. */
  function Evaluated(at: seq<Variant>, live: Live): (n: nat)
    ensures n == 0 ==> NextMatch(at, live, 0) == |at|
  {
    var i := NextMatch(at, live, 0);
    if i == |at| then |at|
    else
      var j := NextMatch(at, live, i + 1);
      if j == |at| then |at| else j + 1
  }

  function Missed(at: seq<Variant>, live: Live): nat {
    if NextMatch(at, live, 0) == |at| then |at| else Evaluated(at, live) - 1
  }

  function Counted(s: Stats, at: seq<Variant>, live: Live, a: Answer, entry: nat): Stats
    requires entry < |s.entryHits|
  {
    s.(checks := s.checks + Evaluated(at, live),
       variantMisses := s.variantMisses + Missed(at, live),
       hits := if a.Run? then s.hits + 1 else s.hits,
       entryHits := if a.Run? then s.entryHits[entry := s.entryHits[entry] + 1] else s.entryHits)
  }

  /** The emitted tables: the entries in address order and the variants at each. */
  datatype Program = Program(addresses: seq<int>, at: map<int, seq<Variant>>)

  ghost predicate IsProgram(p: Program) {
    Ordered(IntLess, p.addresses) && forall a :: a in p.at <==> a in p.addresses
  }

  function IndexOf(addresses: seq<int>, a: int): (i: nat)
    requires a in addresses
    ensures i < |addresses| && addresses[i] == a
  {
    if addresses[0] == a then 0 else 1 + IndexOf(addresses[1..], a)
  }

  /** One call of the dispatcher; `probe` is a call without a CPU. */
  datatype Call = Call(addr: int, gate: bool, probe: bool, live: Live, accepts: Accepts)

  function KeyFor(addr: int): int {
    addr % PHYSICAL + 0x8000_0000
  }

  function Answered(p: Program, c: Call): Answer {
    if !c.gate then Gated
    else if KeyFor(c.addr) !in p.at then NoEntry
    else Decide(p.at[KeyFor(c.addr)], c.live, c.probe, c.accepts, c.addr)
  }

  /** The counters after a call, with no mention of shards. */
  function After(p: Program, s: Stats, c: Call): (t: Stats)
    requires IsProgram(p) && |s.entryHits| == |p.addresses|
    ensures |t.entryHits| == |s.entryHits|
  {
    var key := KeyFor(c.addr);
    if !c.gate then s
    else if key !in p.at then s.(addressMisses := s.addressMisses + 1)
    else Counted(s, p.at[key], c.live, Answered(p, c), IndexOf(p.addresses, key))
  }

  predicate NoEntryIsEmpty(p: Program) {
    forall a :: a in p.at ==> p.at[a] != []
  }

  /** The probe is not read-only: it leaves the counters alone if and only if the identity gate stops it. Otherwise it
      counts an address miss, or at least one check. */
  lemma ProbeCountsUnlessGated(p: Program, s: Stats, c: Call)
    requires IsProgram(p) && NoEntryIsEmpty(p) && |s.entryHits| == |p.addresses| && c.probe
    ensures After(p, s, c) == s <==> !c.gate
    ensures After(p, s, c).hits == s.hits && After(p, s, c).entryHits == s.entryHits
  {
    var key := KeyFor(c.addr);
    if c.gate && key in p.at {
      assert After(p, s, c).checks == s.checks + Evaluated(p.at[key], c.live);
    }
  }

  // ----- shards

  /** Consecutive groups of `size` addresses. */
  function Chunks(s: seq<int>, size: nat): seq<seq<int>>
    requires size > 0
    decreases |s|
  {
    if s == [] then []
    else if |s| <= size then [s]
    else [s[..size]] + Chunks(s[size..], size)
  }

  lemma FlattenFirst(first: seq<int>, rest: seq<seq<int>>)
    ensures Flatten([first] + rest) == first + Flatten(rest)
  {
    assert ([first] + rest)[1..] == rest;
  }

  lemma {:induction false} ChunksPartition(s: seq<int>, size: nat)
    requires size > 0
    ensures Flatten(Chunks(s, size)) == s
    ensures forall i :: 0 <= i < |Chunks(s, size)| ==> Chunks(s, size)[i] != []
    decreases |s|
  {
    if |s| > size {
      ChunksPartition(s[size..], size);
      FlattenFirst(s[..size], Chunks(s[size..], size));
      assert s == s[..size] + s[size..];
    } else if s != [] {
      FlattenFirst(s, []);
      assert s + [] == s;
    }
  }

  /** Chunks of at least |s|/count addresses are at most `count` many. */
  lemma {:induction false} ChunksAreFew(s: seq<int>, size: nat, count: nat)
    requires size > 0 && |s| <= size * count
    ensures |Chunks(s, size)| <= count
    decreases |s|
  {
    if s != [] {
      assert count == 0 ==> size * count == 0;
      if |s| > size {
        assert size * (count - 1) == size * count - size;
        ChunksAreFew(s[size..], size, count - 1);
      }
    }
  }

  function CeilDiv(a: nat, b: nat): nat
    requires b > 0
  {
    (a + b - 1) / b
  }

  lemma CeilDivCovers(a: nat, b: nat)
    requires b > 0
    ensures a <= CeilDiv(a, b) * b
  {
    var q, r := (a + b - 1) / b, (a + b - 1) % b;
    assert a + b - 1 == q * b + r;
  }

  /** The router's chain of comparisons: the first group whose last address is not below the key. */
  function Routed(groups: seq<seq<int>>, key: int): (i: nat)
    requires forall i :: 0 <= i < |groups| ==> groups[i] != []
    ensures i <= |groups|
  {
    if groups == [] || key <= groups[0][|groups[0]| - 1] then 0 else 1 + Routed(groups[1..], key)
  }

  lemma FlattenHead(groups: seq<seq<int>>)
    requires groups != [] && groups[0] != [] && Ordered(IntLess, Flatten(groups))
    ensures Ordered(IntLess, Flatten(groups[1..])) && Ordered(IntLess, groups[0])
    ensures forall a, b :: a in groups[0] && b in Flatten(groups[1..]) ==> a < b
  {
    var (h, t) := (groups[0], Flatten(groups[1..]));
    var f := h + t;
    assert f == Flatten(groups);
    forall i, j | 0 <= i < j < |t| ensures t[i] < t[j] {
      assert f[|h| + i] == t[i] && f[|h| + j] == t[j];
      assert IntLess(f[|h| + i], f[|h| + j]);
    }
    forall i, j | 0 <= i < j < |h| ensures h[i] < h[j] {
      assert f[i] == h[i] && f[j] == h[j];
      assert IntLess(f[i], f[j]);
    }
    forall a, b | a in h && b in t ensures a < b {
      var i :| 0 <= i < |h| && h[i] == a;
      var j :| 0 <= j < |t| && t[j] == b;
      assert f[i] == a && f[|h| + j] == b;
      assert IntLess(f[i], f[|h| + j]);
    }
  }

  /** The chain reaches the only shard that can hold the key, and no shard when it is past them all. */
  lemma {:induction false} RoutedHoldsKey(groups: seq<seq<int>>, key: int)
    requires forall i :: 0 <= i < |groups| ==> groups[i] != []
    requires Ordered(IntLess, Flatten(groups))
    ensures key in Flatten(groups) <==> Routed(groups, key) < |groups| && key in groups[Routed(groups, key)]
  {
    if groups != [] {
      var h, t := groups[0], groups[1..];
      FlattenHead(groups);
      RoutedHoldsKey(t, key);
      var last := h[|h| - 1];
      assert last in h;
      if key <= last {
        assert key !in Flatten(t);
      } else {
        assert forall i :: 0 <= i < |h| - 1 ==> IntLess(h[i], h[|h| - 1]);
        assert key !in h;
      }
    }
  }

  // ----- the dispatcher as emitted

  class OverlayDispatcher {
    const program: Program
    const groups: seq<seq<int>>
    var checks: nat
    var hits: nat
    var variantMisses: nat
    var addressMisses: nat
    const entryHits: array<nat>
    var cpuPc: int

    ghost predicate Valid()
      reads this, entryHits
    {
      && IsProgram(program)
      && entryHits.Length == |program.addresses|
      && Flatten(groups) == program.addresses
      && forall i :: 0 <= i < |groups| ==> groups[i] != []
    }

    ghost function Now(): Stats
      reads this, entryHits
    {
      Stats(checks, hits, variantMisses, addressMisses, entryHits[..])
    }

    constructor (program: Program, groups: seq<seq<int>>, cpuPc: int)
      requires IsProgram(program) && Flatten(groups) == program.addresses
      requires forall i :: 0 <= i < |groups| ==> groups[i] != []
      ensures Valid() && fresh(entryHits) && this.program == program && this.groups == groups
      ensures Now() == Stats(0, 0, 0, 0, seq(|program.addresses|, _ => 0)) && this.cpuPc == cpuPc
    {
      this.program, this.groups, this.cpuPc := program, groups, cpuPc;
      checks, hits, variantMisses, addressMisses := 0, 0, 0, 0;
      entryHits := new nat[|program.addresses|](_ => 0);
      new;
      assert entryHits[..] == seq(|program.addresses|, _ => 0);
    }

    /** The unrolled checks of one address: stop at the second match. */
    method Select(at: seq<Variant>, live: Live) returns (selected: nat, ambiguous: bool)
      modifies this`checks, this`variantMisses
      ensures ambiguous <==> NextMatch(at, live, 0) < |at| && NextMatch(at, live, NextMatch(at, live, 0) + 1) < |at|
      ensures !ambiguous ==> selected == NextMatch(at, live, 0)
      ensures checks == old(checks) + Evaluated(at, live)
      ensures variantMisses == old(variantMisses) + Missed(at, live)
    {
      selected := |at|;
      for i := 0 to |at|
        invariant selected == |at| || selected < i
        invariant selected == |at| ==> NextMatch(at, live, 0) == NextMatch(at, live, i)
        invariant selected < |at| ==> NextMatch(at, live, 0) == selected
        invariant selected < |at| ==> NextMatch(at, live, selected + 1) == NextMatch(at, live, i)
        invariant checks == old(checks) + i
        invariant variantMisses == old(variantMisses) + (if selected == |at| then i else i - 1)
      {
        checks := checks + 1;
        if Matches(at, at[i], live) {
          if selected != |at| {
            variantMisses := variantMisses + 1;
            return selected, true;
          }
          selected := i;
        } else {
          variantMisses := variantMisses + 1;
        }
      }
      ambiguous := false;
    }

    /** Counting a hit and standing at the resume point, before the function is called. */
    method Enter(v: Variant, entry: nat)
      requires entry < entryHits.Length
      modifies this`hits, this`cpuPc, entryHits
      ensures hits == old(hits) + 1 && cpuPc == PcFor(Run(v), old(cpuPc))
      ensures entryHits[..] == old(entryHits[..])[entry := old(entryHits[entry]) + 1]
    {
      hits := hits + 1;
      entryHits[entry] := entryHits[entry] + 1;
      if v.key.resume != 0 {
        cpuPc := v.key.resume;
      }
    }

    /** One case of a shard's switch. */
    method DispatchAt(at: seq<Variant>, entry: nat, c: Call) returns (a: Answer)
      requires entry < entryHits.Length
      modifies this`checks, this`hits, this`variantMisses, this`cpuPc, entryHits
      ensures a == Decide(at, c.live, c.probe, c.accepts, c.addr)
      ensures Now() == Counted(old(Now()), at, c.live, a, entry) && cpuPc == PcFor(a, old(cpuPc))
    {
      var selected, ambiguous := Select(at, c.live);
      if ambiguous {
        return Ambiguous;
      }
      if c.probe {
        return if selected < |at| then Possible else NoMatch;
      }
      if selected == |at| {
        return NoMatch;
      }
      if !c.accepts(at[selected], c.addr) {
        return Refused;
      }
      Enter(at[selected], entry);
      a := Run(at[selected]);
    }

    /** One shard: a switch over its own addresses. */
    method DispatchShard(shard: nat, key: int, c: Call) returns (a: Answer)
      requires Valid() && shard < |groups|
      requires key in program.at ==> key in groups[shard]
      requires key in groups[shard] ==> key in program.at
      modifies this`checks, this`hits, this`variantMisses, this`addressMisses, this`cpuPc, entryHits
      ensures Valid()
      ensures key !in program.at ==> a == NoEntry && Now() == old(Now()).(addressMisses := old(addressMisses) + 1)
      ensures cpuPc == PcFor(a, old(cpuPc))
      ensures key in program.at ==>
                && a == Decide(program.at[key], c.live, c.probe, c.accepts, c.addr)
                && Now() == Counted(old(Now()), program.at[key], c.live, a, IndexOf(program.addresses, key))
    {
      if key in groups[shard] {
        a := DispatchAt(program.at[key], IndexOf(program.addresses, key), c);
      } else {
        addressMisses := addressMisses + 1;
        a := NoEntry;
      }
    }

    /** `psx_overlay_dispatch` through the router: for every key the answer and the counters are those
        of the program as a whole, however it was cut into shards. */
    method Dispatch(c: Call) returns (a: Answer)
      requires Valid()
      modifies this`checks, this`hits, this`variantMisses, this`addressMisses, this`cpuPc, entryHits
      ensures Valid()
      ensures a == Answered(program, c)
      ensures Now() == After(program, old(Now()), c) && cpuPc == PcFor(a, old(cpuPc))
    {
      if !c.gate {
        return Gated;
      }
      var key := KeyFor(c.addr);
      RoutedHoldsKey(groups, key);
      GroupsHoldEntries(groups);
      for shard := 0 to |groups|
        invariant Routed(groups, key) == shard + Routed(groups[shard..], key)
        invariant Now() == old(Now()) && cpuPc == old(cpuPc)
      {
        if key <= groups[shard][|groups[shard]| - 1] {
          assert Routed(groups, key) == shard;
          a := DispatchShard(shard, key, c);
          return;
        }
        assert groups[shard..][1..] == groups[shard + 1..];
      }
      addressMisses := addressMisses + 1;
      a := NoEntry;
    }

    /** `psx_overlay_static_can_dispatch`: a dispatch without a CPU never counts a hit. */
    method CanDispatch(addr: int, gate: bool, live: Live, accepts: Accepts) returns (yes: bool)
      requires Valid()
      modifies this`checks, this`hits, this`variantMisses, this`addressMisses, this`cpuPc, entryHits
      ensures Valid()
      ensures Answered(program, Call(addr, gate, false, live, accepts)).Run? ==> yes
      ensures yes <==> gate && KeyFor(addr) in program.at
                       && exists i :: OnlyMatch(program.at[KeyFor(addr)], live, i)
      ensures Now() == After(program, old(Now()), Call(addr, gate, true, live, accepts))
      ensures hits == old(hits) && entryHits[..] == old(entryHits[..]) && cpuPc == old(cpuPc)
      ensures NoEntryIsEmpty(program) ==> (Now() == old(Now()) <==> !gate)
    {
      var a := Dispatch(Call(addr, gate, true, live, accepts));
      if NoEntryIsEmpty(program) {
        ProbeCountsUnlessGated(program, old(Now()), Call(addr, gate, true, live, accepts));
      }
      yes := a == Possible;
    }
  }

  lemma {:induction false} GroupsHoldEntries(groups: seq<seq<int>>)
    ensures forall i, a :: 0 <= i < |groups| && a in groups[i] ==> a in Flatten(groups)
  {
    if groups != [] {
      GroupsHoldEntries(groups[1..]);
      forall i, a | 0 <= i < |groups| && a in groups[i] ensures a in Flatten(groups) {
        if i > 0 { assert groups[1..][i - 1] == groups[i]; }
      }
    }
  }

  // ----- generation

  /** No generated program has an empty entry. */
  lemma GeneratedEntriesAreNotEmpty(vs: seq<Variant>)
    ensures IsProgram(ProgramOf(vs)) && NoEntryIsEmpty(ProgramOf(vs))
  {
    ProgramIsProgram(vs);
    forall a | a in ProgramOf(vs).at ensures ProgramOf(vs).at[a] != [] {
      VariantsAtAre(vs, a);
      var v :| v in vs && v.key.addr == a;
      assert v in VariantsAt(vs, a);
    }
  }

  /** One probe of one generated entry: its variant is checked, and the check is counted. */
  lemma ProbeCanCount()
    ensures exists vs: seq<Variant>, s: Stats, c: Call ::
              && c.probe && KeyFor(c.addr) in ProgramOf(vs).at && |s.entryHits| == |ProgramOf(vs).addresses|
              && IsProgram(ProgramOf(vs)) && After(ProgramOf(vs), s, c).checks > s.checks
  {
    var v := VariantOf(Claim(seq(64, _ => '0')).(addr := 0x8000_0000));
    var (vs, live) := ([v], (ranges: Ranges, digest: string) => false);
    var p := ProgramOf(vs);
    var s := Stats(0, 0, 0, 0, seq(|p.addresses|, _ => 0));
    var c := Call(v.key.addr, true, true, live, (w: Variant, pc: int) => false);
    GeneratedEntriesAreNotEmpty(vs);
    assert v in vs && KeyFor(v.key.addr) == v.key.addr;
    assert v.key.addr in AddressSet(vs);
    assert After(p, s, c).checks == Evaluated(p.at[v.key.addr], live);
  }

  /** Code shared between images needs an image identity to tell them apart. */
  predicate LacksImage(at: seq<Variant>) {
    exists i :: 0 <= i < |at| && SharedCode(at, at[i]) && at[i].image.ranges == []
  }

  function ProgramOf(vs: seq<Variant>): Program {
    Program(Ascending(AddressSet(vs)), map a | a in AddressSet(vs) :: VariantsAt(vs, a))
  }

  lemma ProgramIsProgram(vs: seq<Variant>)
    ensures IsProgram(ProgramOf(vs))
  {
    AscendingOrdered(AddressSet(vs));
    AscendingElements(AddressSet(vs));
    assert forall a :: a in ProgramOf(vs).addresses <==> a in Elements(ProgramOf(vs).addresses);
  }

  lemma {:induction false} VariantsAtAre(vs: seq<Variant>, addr: int)
    ensures forall v :: v in VariantsAt(vs, addr) <==> v in vs && v.key.addr == addr
  {
    if vs != [] {
      VariantsAtAre(vs[..|vs| - 1], addr);
      SplitLast(vs);
    }
  }

  lemma {:induction false} VariantsAtAreUnique(vs: seq<Variant>, addr: int)
    requires Unique(vs)
    ensures Unique(VariantsAt(vs, addr))
  {
    if vs != [] {
      var front, last := vs[..|vs| - 1], vs[|vs| - 1];
      VariantsAtAreUnique(front, addr);
      VariantsAtAre(front, addr);
      assert last !in front;
    }
  }

  /** Memory identifies the variant: its code is there and, if another image has the same code at the
      same address, its image is there too. */
  ghost predicate Identified(vs: seq<Variant>, v: Variant, live: Live) {
    && live(v.key.ranges, v.key.codeSha)
    && ((exists w :: w in vs && w.key.addr == v.key.addr && SameCode(w, v) && w.image != v.image) ==>
          live(v.image.ranges, v.image.sha))
  }

  lemma MatchesIsIdentified(vs: seq<Variant>, v: Variant, live: Live)
    ensures Matches(VariantsAt(vs, v.key.addr), v, live) == Identified(vs, v, live)
  {
    var at := VariantsAt(vs, v.key.addr);
    VariantsAtAre(vs, v.key.addr);
    if SharedCode(at, v) {
      var i :| 0 <= i < |at| && SameCode(at[i], v) && at[i].image != v.image;
      assert at[i] in vs;
    }
  }

  lemma RunsIffOnlyIdentified(vs: seq<Variant>, c: Call, v: Variant)
    requires Unique(vs)
    ensures Answered(ProgramOf(vs), c) == Run(v)
            <==> && c.gate && !c.probe
                 && v in vs && v.key.addr == KeyFor(c.addr) && Identified(vs, v, c.live) && c.accepts(v, c.addr)
                 && forall w :: w in vs && w.key.addr == KeyFor(c.addr) && w != v ==> !Identified(vs, w, c.live)
  {
    var at := VariantsAt(vs, KeyFor(c.addr));
    VariantsAtAre(vs, KeyFor(c.addr));
    VariantsAtAreUnique(vs, KeyFor(c.addr));
    forall i | 0 <= i < |at| ensures Matches(at, at[i], c.live) == Identified(vs, at[i], c.live) {
      assert at[i] in at;
      MatchesIsIdentified(vs, at[i], c.live);
    }
    assert v in vs && v.key.addr == KeyFor(c.addr) ==> KeyFor(c.addr) in AddressSet(vs);
    if RightAnswer(at, c.live, c.probe, c.accepts, c.addr, Run(v)) {
      RightAnswerIsUnique(at, c.live, c.probe, c.accepts, c.addr, Run(v));
    }
  }

  /** Dispatch is exact and refuses to guess: whatever was fed to the generator, a variant runs if and only if it is the
      only one of all variants at the dispatched address that memory identifies, and its candidate is accepted. */
  lemma RunsOnlyTheIdentified(raws: seq<Raw>, c: Call, v: Variant)
    requires Normalized(raws).Some?
    ensures var vs := Normalized(raws).value;
            Answered(ProgramOf(vs), c) == Run(v)
            <==> && c.gate && !c.probe
                 && v in vs && v.key.addr == KeyFor(c.addr) && Identified(vs, v, c.live) && c.accepts(v, c.addr)
                 && forall w :: w in vs && w.key.addr == KeyFor(c.addr) && w != v ==> !Identified(vs, w, c.live)
  {
    NormalizedFacts(raws);
    VariantLessIsStrictTotal();
    forall i, j | 0 <= i < j < |Normalized(raws).value| ensures Normalized(raws).value[i] != Normalized(raws).value[j] {
      assert VariantLess(Normalized(raws).value[i], Normalized(raws).value[j]);
    }
    RunsIffOnlyIdentified(Normalized(raws).value, c, v);
  }

  lemma RunIsAtKey(vs: seq<Variant>, c: Call, v: Variant) returns (i: int)
    requires Answered(ProgramOf(vs), c) == Run(v)
    ensures OnlyMatch(VariantsAt(vs, KeyFor(c.addr)), c.live, i) && VariantsAt(vs, KeyFor(c.addr))[i] == v
    ensures v in vs && v.key.addr == KeyFor(c.addr)
  {
    var at := ProgramOf(vs).at[KeyFor(c.addr)];
    assert RightAnswer(at, c.live, c.probe, c.accepts, c.addr, Run(v));
    i :| OnlyMatch(at, c.live, i) && at[i] == v;
    VariantsAtAre(vs, KeyFor(c.addr));
  }

  lemma KeysStay(addr: int)
    ensures KeyFor(KeyFor(addr)) == KeyFor(addr)
  {
  }

  /** Some call, in some memory and with some acceptance, runs the variant. */
  ghost predicate SomeCallRuns(vs: seq<Variant>, v: Variant) {
    exists addr: int, m: Memory, accepts: Accepts :: RunsFor(vs, v, addr, m, accepts)
  }

  ghost predicate RunsFor(vs: seq<Variant>, v: Variant, addr: int, m: Memory, accepts: Accepts) {
    Answered(ProgramOf(vs), Call(addr, true, false, LiveBy(m), accepts)) == Run(v)
  }

  lemma RunIsAlone(vs: seq<Variant>, v: Variant, addr: int, m: Memory, accepts: Accepts)
    requires RunsFor(vs, v, addr, m, accepts)
    ensures v in vs && v.key.addr == KeyFor(v.key.addr)
    ensures exists i :: CanBeAlone(VariantsAt(vs, v.key.addr), i) && VariantsAt(vs, v.key.addr)[i] == v
  {
    KeysStay(addr);
    var i := RunIsAtKey(vs, Call(addr, true, false, LiveBy(m), accepts), v);
    AloneIffCanBeAlone(VariantsAt(vs, v.key.addr), i);
  }

  lemma AloneRuns(vs: seq<Variant>, i: int, v: Variant)
    requires v in vs && v.key.addr == KeyFor(v.key.addr)
    requires CanBeAlone(VariantsAt(vs, v.key.addr), i) && VariantsAt(vs, v.key.addr)[i] == v
    ensures SomeCallRuns(vs, v)
  {
    var at := VariantsAt(vs, v.key.addr);
    AloneIffCanBeAlone(at, i);
    var m: Memory :| OnlyMatch(at, LiveBy(m), i);
    var accepts: Accepts := (w: Variant, pc: int) => true;
    assert v.key.addr in AddressSet(vs);
    assert RightAnswer(at, LiveBy(m), false, accepts, v.key.addr, Run(v));
    RightAnswerIsUnique(at, LiveBy(m), false, accepts, v.key.addr, Run(v));
    assert RunsFor(vs, v, v.key.addr, m, accepts);
  }

  /** A variant can run if and only if its address is one that calls are looked up at, its own needs are consistent, and
      they do not include those of another variant of the entry. */
  lemma SomeCallRunsIff(vs: seq<Variant>, v: Variant)
    ensures SomeCallRuns(vs, v) <==>
              && v in vs && v.key.addr == KeyFor(v.key.addr)
              && exists i :: CanBeAlone(VariantsAt(vs, v.key.addr), i) && VariantsAt(vs, v.key.addr)[i] == v
  {
    if SomeCallRuns(vs, v) {
      var addr: int, m: Memory, accepts: Accepts :| RunsFor(vs, v, addr, m, accepts);
      RunIsAlone(vs, v, addr, m, accepts);
    }
    if v in vs && v.key.addr == KeyFor(v.key.addr) {
      if i :| CanBeAlone(VariantsAt(vs, v.key.addr), i) && VariantsAt(vs, v.key.addr)[i] == v {
        AloneRuns(vs, i, v);
      }
    }
  }

  lemma ClaimIsGenerated() returns (raws: seq<Raw>)
    ensures Normalized(raws).Some? && Normalized(raws).value != []
    ensures forall v :: v in Normalized(raws).value ==> v.key.addr == 0
  {
    var zeros := seq(64, _ => '0');
    var raw := Claim(zeros);
    raws := [raw];
    assert Lower(zeros) == zeros;
    ClaimIsAcceptable(zeros);
    assert [raw] + [] == raws;
    FirstIsCollected(raw, []);
    NormalizedFacts(raws);
    CollectedFacts(raws);
    forall v | v in Normalized(raws).value ensures v.key.addr == 0 { assert IsFrom(v, raws); }
  }

  /** Such entries are generated: an input whose address is not one of the cached segment's is accepted, and no call
      ever runs it. */
  lemma UnreachableEntry()
    ensures exists raws :: Normalized(raws).Some? && Normalized(raws).value != []
                           && forall v :: v in Normalized(raws).value ==> !SomeCallRuns(Normalized(raws).value, v)
  {
    var raws := ClaimIsGenerated();
    forall v | v in Normalized(raws).value ensures !SomeCallRuns(Normalized(raws).value, v) {
      SomeCallRunsIff(Normalized(raws).value, v);
    }
  }

  /** Two variants of one entry with the same code and the same image: neither ever runs. */
  lemma TwinsNeverRun(vs: seq<Variant>, v: Variant, w: Variant)
    requires v in vs && w in vs && v != w && v.key.addr == w.key.addr && SameCode(v, w) && v.image == w.image
    ensures !SomeCallRuns(vs, v)
  {
    SomeCallRunsIff(vs, v);
    var at := VariantsAt(vs, v.key.addr);
    VariantsAtAre(vs, v.key.addr);
    var j :| 0 <= j < |at| && at[j] == w;
    assert Needs(at, w) == Needs(at, v);
  }

  lemma KeyIsPhysical(addr: int)
    ensures KeyFor(addr) % PHYSICAL == addr % PHYSICAL
  {
  }

  /** Whatever was fed to the generator, what a dispatch runs is code of its own artifact, at the dispatched
      address, in RAM. */
  lemma RunsStayInside(raws: seq<Raw>, c: Call, v: Variant)
    requires Normalized(raws).Some? && Answered(ProgramOf(Normalized(raws).value), c) == Run(v)
    ensures InsideArtifact(v) && v.key.addr == KeyFor(c.addr)
    ensures v.key.artifactBase <= c.addr % PHYSICAL && c.addr % PHYSICAL + 4 <= v.key.artifactBase + v.key.artifactSize
  {
    var vs := Normalized(raws).value;
    var i := RunIsAtKey(vs, c, v);
    NormalizedIsInside(raws);
    KeyIsPhysical(c.addr);
  }

  datatype Generated = Rejected | Emitted(program: Program, groups: seq<seq<int>>)

  /** An image whose code the dispatcher knows. */
  datatype ImageRecord = ImageRecord(
    load: int, size: int, codeSha: string, artifactSha: string, capability: int, artifactRanges: Ranges,
    provenance: string)

  /** The record is about exactly one authentic artifact in RAM. */
  predicate IsAuthenticImage(m: ImageRecord) {
    var load := m.load % PHYSICAL;
    && m.size >= 4 && load < RAM_MIRRORS && m.size <= RAM_MIRRORS - load
    && IsDigest(Lower(m.codeSha)) && IsDigest(Lower(m.artifactSha))
    && 0 < m.capability <= 0xFFFF_FFFF_FFFF_FFFF && m.provenance == PROVENANCE
    && Masked(m.artifactRanges) == [(load, m.size)]
  }

  method CheckImages(images: seq<ImageRecord>) returns (ok: bool)
    ensures ok <==> forall m :: m in images ==> IsAuthenticImage(m)
  {
    for i := 0 to |images|
      invariant forall k :: 0 <= k < i ==> IsAuthenticImage(images[k])
    {
      if !IsAuthenticImage(images[i]) {
        return false;
      }
    }
    return true;
  }

  /** `generate_dispatch_shards`: at most `shardCount` non-empty groups that partition the addresses. */
  method GenerateDispatchShards(raws: seq<Raw>, images: seq<ImageRecord>, shardCount: int) returns (g: Generated)
    ensures g.Rejected? <==>
              || (exists m :: m in images && !IsAuthenticImage(m))
              || Normalized(raws).None? || Normalized(raws).value == [] || shardCount < 1
              || exists a ::
                   a in AddressSet(Normalized(raws).value) && LacksImage(VariantsAt(Normalized(raws).value, a))
    ensures g.Emitted? ==>
              && g.program == ProgramOf(Normalized(raws).value) && IsProgram(g.program) && NoEntryIsEmpty(g.program)
              && Flatten(g.groups) == g.program.addresses && 0 < |g.groups| <= shardCount
              && forall i :: 0 <= i < |g.groups| ==> g.groups[i] != []
  {
    var normalized := NormalizedVariants(raws);
    if normalized.None? {
      return Rejected;
    }
    var vs := normalized.value;
    var addresses := Ascending(AddressSet(vs));
    AscendingElements(AddressSet(vs));
    if addresses == [] || shardCount < 1 {
      assert addresses == [] ==> AddressSet(vs) == {};
      assert vs != [] ==> vs[0].key.addr in AddressSet(vs);
      return Rejected;
    }
    var activeCount := if shardCount < |addresses| then shardCount else |addresses|;
    var perShard := CeilDiv(|addresses|, activeCount);
    CeilDivCovers(|addresses|, activeCount);
    var groups := Chunks(addresses, perShard);
    ChunksPartition(addresses, perShard);
    ChunksAreFew(addresses, perShard, activeCount);
    if exists a :: a in AddressSet(vs) && LacksImage(VariantsAt(vs, a)) {
      return Rejected;
    }
    var authentic := CheckImages(images);
    if !authentic {
      return Rejected;
    }
    GeneratedEntriesAreNotEmpty(vs);
    g := Emitted(ProgramOf(vs), groups);
  }

  // ----- whole runs

  function Runs(p: Program, calls: seq<Call>): Stats
    requires IsProgram(p)
    ensures |Runs(p, calls).entryHits| == |p.addresses|
  {
    if calls == [] then Stats(0, 0, 0, 0, seq(|p.addresses|, _ => 0))
    else After(p, Runs(p, calls[..|calls| - 1]), calls[|calls| - 1])
  }

  function Sum(s: seq<nat>): nat {
    if s == [] then 0 else s[0] + Sum(s[1..])
  }

  lemma {:induction false} SumUpdate(s: seq<nat>, i: nat, x: nat)
    requires i < |s|
    ensures Sum(s[i := x]) == Sum(s) - s[i] + x
  {
    if i == 0 {
      assert s[0 := x][1..] == s[1..];
    } else {
      assert s[i := x][1..] == s[1..][i - 1 := x];
      SumUpdate(s[1..], i - 1, x);
    }
  }

  lemma {:induction false} SumZeros(n: nat)
    ensures Sum(seq(n, _ => 0)) == 0
  {
    if n > 0 {
      assert seq(n, _ => 0)[1..] == seq(n - 1, _ => 0);
      SumZeros(n - 1);
    }
  }

  /** Calls with some answer, counted over a run. */
  function Times(p: Program, calls: seq<Call>, wanted: Answer -> bool): nat {
    if calls == [] then 0
    else Times(p, calls[..|calls| - 1], wanted) + (if wanted(Answered(p, calls[|calls| - 1])) then 1 else 0)
  }

  lemma {:induction false} HitsConserve(p: Program, calls: seq<Call>)
    requires IsProgram(p)
    ensures var s := Runs(p, calls);
            Sum(s.entryHits) == s.hits == Times(p, calls, (a: Answer) => a.Run?)
  {
    if calls == [] {
      SumZeros(|p.addresses|);
    } else {
      var front, c := calls[..|calls| - 1], calls[|calls| - 1];
      HitsConserve(p, front);
      var s := Runs(p, front);
      var key := KeyFor(c.addr);
      if c.gate && key in p.at {
        var entry := IndexOf(p.addresses, key);
        SumUpdate(s.entryHits, entry, s.entryHits[entry] + 1);
      }
    }
  }

  lemma {:induction false} MissesConserve(p: Program, calls: seq<Call>)
    requires IsProgram(p)
    ensures var s := Runs(p, calls);
            s.addressMisses == Times(p, calls, (a: Answer) => a == NoEntry)
  {
    if calls != [] {
      MissesConserve(p, calls[..|calls| - 1]);
    }
  }

  lemma {:induction false} ChecksConserve(p: Program, calls: seq<Call>)
    requires IsProgram(p)
    ensures var s := Runs(p, calls);
            s.checks == s.variantMisses
                        + Times(p, calls, (a: Answer) => a.Run? || a == Refused || a == Possible || a == Ambiguous)
  {
    if calls != [] {
      ChecksConserve(p, calls[..|calls| - 1]);
    }
  }

  /** Over any run the counters account for every call: per-entry hits sum to the hits, which are the
      calls that ran something; every check is a miss, except one for each call that found a match; and
      every gated-through call without an entry is one address miss. */
  lemma RunsConserve(p: Program, calls: seq<Call>)
    requires IsProgram(p)
    ensures var s := Runs(p, calls);
            && Sum(s.entryHits) == s.hits == Times(p, calls, (a: Answer) => a.Run?)
            && s.addressMisses == Times(p, calls, (a: Answer) => a == NoEntry)
            && s.checks == s.variantMisses
                           + Times(p, calls, (a: Answer) => a.Run? || a == Refused || a == Possible || a == Ambiguous)
  {
    HitsConserve(p, calls);
    MissesConserve(p, calls);
    ChecksConserve(p, calls);
  }
}
