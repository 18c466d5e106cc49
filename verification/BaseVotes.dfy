/** Recovering an image's load address from its own code: every direct call target, paired with every
    function prologue it could be, votes for the base that would make them meet. */
module BaseVotes {
  import opened Basics

  // ----- what the code contains

  predicate IsPrologue(word: nat) {
    word / 0x1_0000 == 0x27BD && word / 0x8000 % 2 == 1
  }

  /** Offsets of stack-frame prologues, in increasing order. */
  function Prologues(data: seq<byte>, upTo: nat): (r: seq<int>)
    requires upTo % 4 == 0 && upTo <= |data|
    ensures forall i :: 0 <= i < |r| ==> 0 <= r[i] < upTo && r[i] % 4 == 0
    ensures forall i, j :: 0 <= i < j < |r| ==> r[i] < r[j]
  {
    if upTo == 0 then []
    else Prologues(data, upTo - 4) + (if IsPrologue(Word(data, upTo - 4)) then [upTo - 4] else [])
  }

  lemma {:induction false} ProloguesAreExact(data: seq<byte>, upTo: nat, at: nat)
    requires upTo % 4 == 0 && upTo <= |data| && at < upTo && at % 4 == 0
    ensures at in Prologues(data, upTo) <==> IsPrologue(Word(data, at))
  {
    var front, last := Prologues(data, upTo - 4), upTo - 4;
    var opens := IsPrologue(Word(data, last));
    assert Prologues(data, upTo) == front + if opens then [last] else [];
    if at < last {
      ProloguesAreExact(data, last, at);
    } else {
      assert at == last && last !in front;
    }
  }

  function Aligned(data: seq<byte>): (n: nat)
    ensures n % 4 == 0 && n <= |data| < n + 4
  {
    |data| / 4 * 4
  }

  function CallTarget(word: nat): nat {
    0x8000_0000 + word % 0x400_0000 * 4
  }

  function JalTargets(data: seq<byte>): set<int> {
    set at | 0 <= at < Aligned(data) && at % 4 == 0 && Word(data, at) / 0x400_0000 == 0x03
      :: CallTarget(Word(data, at))
  }

  function Returns(data: seq<byte>, upTo: nat): nat
    requires upTo % 4 == 0 && upTo <= |data|
  {
    if upTo == 0 then 0
    else Returns(data, upTo - 4) + (if Word(data, upTo - 4) == 0x03E0_0008 then 1 else 0)
  }

  // ----- the votes, by brute force

  /** An aligned base at which the whole image fits the aperture. */
  predicate Servable(base: int, lo: int, maxBase: int) {
    lo <= base <= maxBase && base % 4 == 0
  }

  /** The call targets that a prologue would serve if the image were loaded at `base`. */
  function Voters(targets: set<int>, prologues: seq<int>, base: int): set<int> {
    set t | t in targets && t - base in prologues
  }

  /** One vote per target that meets a prologue at this base. */
  function Brute(targets: set<int>, prologues: seq<int>, size: nat, lo: int, hi: int, base: int): nat {
    if Servable(base, lo, hi - size) then |Voters(targets, prologues, base)| else 0
  }

  // ----- the votes, as counted

  function Count(votes: map<int, nat>, base: int): nat {
    if base in votes then votes[base] else 0
  }

  predicate Increasing(s: seq<int>) {
    forall i, j :: 0 <= i < j < |s| ==> s[i] < s[j]
  }

  method BisectLeft(s: seq<int>, x: int) returns (at: nat)
    requires Increasing(s)
    ensures at <= |s|
    ensures forall i :: 0 <= i < |s| ==> (i < at <==> s[i] < x)
  {
    var lo, hi := 0, |s|;
    while lo < hi
      invariant 0 <= lo <= hi <= |s|
      invariant forall i :: 0 <= i < lo ==> s[i] < x
      invariant forall i :: hi <= i < |s| ==> s[i] >= x
    {
      var mid := (lo + hi) / 2;
      if s[mid] < x { lo := mid + 1; } else { hi := mid; }
    }
    at := lo;
  }

  method BisectRight(s: seq<int>, x: int) returns (at: nat)
    requires Increasing(s)
    ensures at <= |s|
    ensures forall i :: 0 <= i < |s| ==> (i < at <==> s[i] <= x)
  {
    var lo, hi := 0, |s|;
    while lo < hi
      invariant 0 <= lo <= hi <= |s|
      invariant forall i :: 0 <= i < lo ==> s[i] <= x
      invariant forall i :: hi <= i < |s| ==> s[i] > x
    {
      var mid := (lo + hi) / 2;
      if x < s[mid] { hi := mid; } else { lo := mid + 1; }
    }
    at := lo;
  }

  ghost predicate CountsExactly(
    votes: map<int, nat>, targets: set<int>, prologues: seq<int>, size: nat, lo: int, hi: int)
  {
    forall base :: Count(votes, base) == Brute(targets, prologues, size, lo, hi, base)
  }

  /** One more target adds one vote to each base that serves it. */
  lemma OneMoreTarget(targets: set<int>, t: int, prologues: seq<int>, size: nat, lo: int, hi: int, base: int)
    requires t !in targets
    ensures Brute(targets + {t}, prologues, size, lo, hi, base)
            == Brute(targets, prologues, size, lo, hi, base)
               + (if Servable(base, lo, hi - size) && t - base in prologues then 1 else 0)
  {
    var before, after := Voters(targets, prologues, base), Voters(targets + {t}, prologues, base);
    if t - base in prologues {
      assert after == before + {t};
    } else {
      assert after == before;
    }
  }

  /** Two binary searches cut out exactly the prologues that put the base inside the aperture. */
  lemma SliceIsAperture(prologues: seq<int>, target: int, lo: int, maxBase: int, first: nat, last: nat, base: int)
    requires first <= last <= |prologues|
    requires forall i :: 0 <= i < |prologues| ==> (i < first <==> prologues[i] < target - maxBase)
    requires forall i :: 0 <= i < |prologues| ==> (i < last <==> prologues[i] <= target - lo)
    ensures target - base in prologues[first..last] <==> lo <= base <= maxBase && target - base in prologues
  {
    if target - base in prologues {
      var i :| 0 <= i < |prologues| && prologues[i] == target - base;
      if first <= i < last { assert prologues[first..last][i - first] == target - base; }
    }
  }

  /** The votes of one target for the given prologues, one each. */
  method CountSlice(votes: map<int, nat>, target: int, slice: seq<int>) returns (r: map<int, nat>)
    requires Increasing(slice)
    ensures forall base :: Count(r, base) == Count(votes, base) + (if base % 4 == 0
            && target - base in slice then 1 else 0)
  {
    r := votes;
    for i := 0 to |slice|
      invariant forall base ::
          Count(r, base) == Count(votes, base) + (if base % 4 == 0 && target - base in slice[..i] then 1 else 0)
    {
      var base := target - slice[i];
      assert slice[i] !in slice[..i];
      TakeOneMore(slice, i);
      if base % 4 == 0 {
        r := r[base := Count(r, base) + 1];
      }
    }
    assert slice[..|slice|] == slice;
  }

  /** The votes of one target: the prologues between two binary searches. */
  method CastVotes(votes: map<int, nat>, target: int, prologues: seq<int>, lo: int, maxBase: int)
    returns (r: map<int, nat>)
    requires Increasing(prologues) && lo <= maxBase
    ensures forall base :: Count(r, base)
              == Count(votes, base) + (if Servable(base, lo, maxBase) && target - base in prologues then 1 else 0)
  {
    var first := BisectLeft(prologues, target - maxBase);
    var last := BisectRight(prologues, target - lo);
    assert first == 0 || prologues[first - 1] <= target - lo;
    r := CountSlice(votes, target, prologues[first..last]);
    forall base ensures Servable(base, lo, maxBase) && target - base in prologues
                        <==> base % 4 == 0 && target - base in prologues[first..last]
    {
      SliceIsAperture(prologues, target, lo, maxBase, first, last, base);
    }
  }

  /** `raw_base_votes` counts what brute force over all pairs would count. */
  method RawBaseVotes(data: seq<byte>, lo: int, hi: int) returns (votes: map<int, nat>)
    ensures CountsExactly(votes, JalTargets(data), Prologues(data, Aligned(data)), |data|, lo, hi)
  {
    var prologues := Prologues(data, Aligned(data));
    var targets := JalTargets(data);
    votes := map[];
    var maxBase := hi - |data|;
    if prologues == [] || targets == {} || maxBase < lo {
      assert forall base :: Voters(targets, [], base) == {} && Voters({}, prologues, base) == {};
      return;
    }
    var rest := targets;
    assert forall base :: Voters({}, prologues, base) == {};
    assert targets - rest == {};
    while rest != {}
      invariant rest <= targets
      invariant CountsExactly(votes, targets - rest, prologues, |data|, lo, hi)
      decreases rest
    {
      var target :| target in rest;
      forall base { OneMoreTarget(targets - rest, target, prologues, |data|, lo, hi, base); }
      votes := CastVotes(votes, target, prologues, lo, maxBase);
      assert targets - (rest - {target}) == (targets - rest) + {target};
      rest := rest - {target};
    }
    assert targets - rest == targets;
  }

  // ----- the decision

  datatype Signal = Strong | Weak | Absent

  datatype Analysis = Analysis(
    prologues: nat, returnCount: nat, targets: nat,
    candidate: Option<int>, score: nat, runnerUp: nat, recovered: Option<int>, signal: Signal)

  lemma {:induction false} MostVotedExists(votes: map<int, nat>, bases: set<int>)
    requires bases <= votes.Keys && |bases| > 0
    ensures exists b :: b in bases && forall c :: c in bases ==> votes[c] <= votes[b]
    decreases |bases|
  {
    var b := Member(bases);
    if bases != {b} {
      MostVotedExists(votes, bases - {b});
      var c :| c in bases - {b} && forall d :: d in bases - {b} ==> votes[d] <= votes[c];
      assert forall d :: d in bases ==> d == b || d in bases - {b};
      if votes[b] < votes[c] {
        assert forall d :: d in bases ==> votes[d] <= votes[c];
      } else {
        assert forall d :: d in bases ==> votes[d] <= votes[b];
      }
    }
  }

  /** `most_common(2)`, whatever order it gives to ties. */
  method MostCommon2(votes: map<int, nat>) returns (top: Option<int>, score: nat, runnerUp: nat)
    ensures top.None? <==> votes == map[]
    ensures top.None? ==> score == runnerUp == 0
    ensures top.Some? ==> top.value in votes && score == votes[top.value]
    ensures forall b :: b in votes ==> votes[b] <= score && (top == Some(b) || votes[b] <= runnerUp)
    ensures runnerUp == 0 || exists b :: b in votes && top != Some(b) && votes[b] == runnerUp
  {
    if votes == map[] {
      return None, 0, 0;
    }
    assert |votes.Keys| > 0;
    MostVotedExists(votes, votes.Keys);
    var b :| b in votes.Keys && forall c :: c in votes.Keys ==> votes[c] <= votes[b];
    top, score, runnerUp := Some(b), votes[b], 0;
    var others := votes.Keys - {b};
    assert forall c :: c in votes ==> c == b || c in others;
    if others != {} {
      MostVotedExists(votes, others);
      var c :| c in others && forall d :: d in others ==> votes[d] <= votes[c];
      runnerUp := votes[c];
    }
  }

  /** A base that convinces: enough votes, and at least twice as many as any other base has. */
  ghost predicate Convincing(data: seq<byte>, lo: int, hi: int, base: int) {
    var prologues, targets := Prologues(data, Aligned(data)), JalTargets(data);
    var votes := Brute(targets, prologues, |data|, lo, hi, base);
    && Returns(data, Aligned(data)) > 0
    && votes >= 8 && votes * 4 >= |prologues|
    && forall b :: b != base ==> votes >= 2 * Brute(targets, prologues, |data|, lo, hi, b)
  }

  /** `analyze_mips`: the recovered base is the convincing one, and does not depend on how ties in
      the ranking fall. */
  method AnalyzeMips(data: seq<byte>, lo: int, hi: int) returns (r: Analysis)
    ensures forall base :: r.recovered == Some(base) <==> Convincing(data, lo, hi, base)
    ensures r.returnCount == Returns(data, Aligned(data)) && r.prologues == |Prologues(data, Aligned(data))|
    ensures r.targets == |JalTargets(data)|
    ensures r.signal == if r.recovered.Some? then Strong
                        else if r.returnCount >= 1 && r.prologues >= 1 then Weak else Absent
  {
    var prologues := Prologues(data, Aligned(data));
    var targets := JalTargets(data);
    var returnCount := Returns(data, Aligned(data));
    var votes := map[];
    if returnCount != 0 {
      votes := RawBaseVotes(data, lo, hi);
    }
    var top, score, runnerUp := MostCommon2(votes);
    var recovered := if top.Some? && score >= 8 && score >= runnerUp * 2 && score * 4 >= |prologues| then top else None;
    forall base ensures recovered == Some(base) <==> Convincing(data, lo, hi, base) {
      assert returnCount != 0 ==> Count(votes, base) == Brute(targets, prologues, |data|, lo, hi, base);
      if returnCount != 0 && Convincing(data, lo, hi, base) {
        assert base in votes && votes[base] <= score;
        assert Count(votes, top.value) == Brute(targets, prologues, |data|, lo, hi, top.value);
        assert top == Some(base);
        forall b | b in votes && b != base ensures 2 * votes[b] <= score {
          assert Count(votes, b) == Brute(targets, prologues, |data|, lo, hi, b);
        }
      }
      if recovered == Some(base) {
        forall b | b != base ensures score >= 2 * Brute(targets, prologues, |data|, lo, hi, b) {
          assert Count(votes, b) == Brute(targets, prologues, |data|, lo, hi, b);
        }
      }
    }
    var signal :=
      if recovered.Some? then Strong
      else if returnCount >= 2 && |prologues| >= 2 then Weak
      else if returnCount >= 1 && |prologues| >= 1 then Weak
      else Absent;
    r := Analysis(|prologues|, returnCount, |targets|, top, score, runnerUp, recovered, signal);
  }
}
