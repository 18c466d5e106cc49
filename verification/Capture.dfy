/** The capture workers of one run: they share per-region coverage sets and publish into one cache.
    Checking and updating coverage is done under a lock; building and publishing in between is not. */
module CaptureWorkers {
  import opened Basics
  import HexText
  import opened Manifest
  import opened Publication

  /** One capture: its region, the checksum of its bytes, and what it would publish. */
  datatype Work = Work(region: nat, crc: nat, job: Job)

  type Plan = Pid -> Work

  /** The identities a capture would provide. */
  function Wanted(w: Work): set<Key> {
    CoverageOf(w.job.manifest)
  }

  /** A worker's progress. `Ready` holds the lock of its (region, crc). */
  datatype Stage = Idle | Ready | Skip | Build | Publish | Update | Leave | Finished(skipped: bool)

  datatype Sys = Sys(
    pub: State, coverage: map<nat, set<Key>>, holder: map<(nat, nat), Pid>, stage: map<Pid, Stage>)

  function StageOf(s: Sys, p: Pid): Stage {
    if p in s.stage then s.stage[p] else Idle
  }

  /** The stem's manifest is one that readers of the region look at. */
  predicate StemOf(n: string, region: nat) {
    OfRegion(n + ".ranges", region)
  }

  /** `load_region_coverage` on the visible manifests. */
  function Loaded(c: Cache, region: nat): set<Key> {
    set n, k | n in c.ranges && StemOf(n, region) && k in CoverageOf(TextBy(c, c.ranges[n])) :: k
  }

  datatype Move = Acquire | Check | Compile(ok: bool) | Advance(act: Action) | Record | Release

  function ToStage(s: Sys, p: Pid, stage: Stage): Sys {
    s.(stage := s.stage[p := stage])
  }

  /** The dedup check, under the coverage lock: load the region's coverage once, then compare. */
  function Checked(w: Work, force: bool, s: Sys, p: Pid): Sys {
    var covered := if w.region in s.coverage then s.coverage[w.region] else Loaded(s.pub.cache, w.region);
    var skip := Wanted(w) != {} && Wanted(w) <= covered && !force;
    ToStage(s, p, if skip then Skip else Build).(coverage := s.coverage[w.region := covered])
  }

  /** The update after a publication, under the coverage lock. */
  function Recorded(w: Work, s: Sys, p: Pid): Sys {
    var covered := if w.region in s.coverage then s.coverage[w.region] else {};
    ToStage(s, p, Leave).(coverage := s.coverage[w.region := covered + Wanted(w)])
  }

  function AfterPublish(outcome: Outcome): Stage {
    if outcome == Published || outcome == AlreadyPublished then Update else Leave
  }

  function Released(w: Work, s: Sys, p: Pid): Sys {
    ToStage(s, p, Finished(StageOf(s, p) == Skip)).(holder := s.holder - {(w.region, w.crc)})
  }

  /** One move of a worker. A publication may fail or stop at every operation; a worker whose publication reports
      an error goes on to release its lock, one that is stopped does nothing more. */
  function Moved(w: Work, force: bool, s: Sys, p: Pid, m: Move): Option<Sys> {
    match m
    case Acquire =>
      if StageOf(s, p) != Idle || (w.region, w.crc) in s.holder then None
      else Some(ToStage(s, p, Ready).(holder := s.holder[(w.region, w.crc) := p]))
    case Check => if StageOf(s, p) != Ready then None else Some(Checked(w, force, s, p))
    case Compile(ok) =>
      if StageOf(s, p) != Build then None else Some(ToStage(s, p, if ok && Wanted(w) != {} then Publish else Leave))
    case Advance(act) =>
      if StageOf(s, p) != Publish then None
      else if PhaseOf(s.pub, p).Done? then Some(ToStage(s, p, AfterPublish(PhaseOf(s.pub, p).outcome)))
      else
        var pub := Step(w.job, s.pub, p, act);
        if pub.Some? then Some(s.(pub := pub.value)) else None
    case Record => if StageOf(s, p) != Update then None else Some(Recorded(w, s, p))
    case Release => if StageOf(s, p) !in {Skip, Leave} then None else Some(Released(w, s, p))
  }

  ghost predicate NextSys(plan: Plan, force: bool, s: Sys, t: Sys) {
    exists p, m :: Moved(plan(p), force, s, p, m) == Some(t)
  }

  function JobsOf(plan: Plan): Jobs {
    (p: Pid) => plan(p).job
  }

  /** Every capture publishes under a name of its own region. */
  ghost predicate NamesMatch(plan: Plan) {
    forall p, region :: StemOf(plan(p).job.stem, region) <==> plan(p).region == region
  }

  /** The names `_publication_paths` gives satisfy that. */
  lemma PublicationNamesMatch(plan: Plan, suffixOf: Pid -> string)
    requires forall p :: plan(p).region < UINT32 && plan(p).crc < UINT32
    requires forall p :: |suffixOf(p)| == 8 && HexText.AllHex(suffixOf(p))
    requires forall p :: plan(p).job.stem + ".ranges" == RangesName(plan(p).region, plan(p).crc, suffixOf(p))
    ensures NamesMatch(plan)
  {
    forall p, region ensures StemOf(plan(p).job.stem, region) <==> plan(p).region == region {
      NameBelongsToItsRegion(plan(p).region, plan(p).crc, suffixOf(p), region);
    }
  }

  /** What a worker wants covered is what its recompiler found: the manifest loses nothing. */
  lemma WantedIsWhatWasFound(w: Work, ids: seq<FuncId>, h: Header)
    requires IsHeader(h) && TextOf(ids, h) == Some(w.job.manifest)
    ensures Wanted(w) == KeysOf(ids)
  {
    CoverageRoundTrip(ids, h);
  }

  /** A cache as earlier runs left it, orphans included; no worker has started. */
  ghost predicate AtRest(plan: Plan, s: Sys) {
    && Inv(JobsOf(plan), s.pub)
    && (forall p :: StageOf(s, p) == Idle ==> PhaseOf(s.pub, p) == CheckDll)
    && (forall p :: StageOf(s, p) in {Idle, Finished(false)})
    && s.coverage == map[] && s.holder == map[]
  }

  ghost predicate IsSession(plan: Plan, force: bool, run: seq<Sys>) {
    && run != [] && AtRest(plan, run[0])
    && forall i :: 0 <= i < |run| - 1 ==> NextSys(plan, force, run[i], run[i + 1])
  }

  /** A published pair of the region provides the identity. */
  ghost predicate Provided(c: Cache, region: nat, k: Key) {
    exists n :: n in c.dll && n in c.ranges && StemOf(n, region) && k in CoverageOf(TextBy(c, c.ranges[n]))
  }

  ghost predicate AllProvided(c: Cache, region: nat, keys: set<Key>) {
    forall k :: k in keys ==> Provided(c, region, k)
  }

  /** The manifests of a region that readers see without a DLL. */
  ghost predicate HalfPublished(c: Cache, n: string, region: nat) {
    n in c.ranges && n !in c.dll && StemOf(n, region)
  }

  /** Lone manifests of the region list nothing that no published pair provides. */
  ghost predicate LoadSound(c: Cache, region: nat) {
    forall n, k :: HalfPublished(c, n, region) && k in CoverageOf(TextBy(c, c.ranges[n])) ==> Provided(c, region, k)
  }

  /** That holds of every region that some worker is still to capture. */
  ghost predicate LoadsSoundly(plan: Plan, s: Sys) {
    forall p :: StageOf(s, p) == Idle ==> LoadSound(s.pub.cache, plan(p).region)
  }

  /** What a worker knows, at each stage. */
  ghost predicate WorkerOk(w: Work, s: Sys, p: Pid) {
    var (c, stage, phase) := (s.pub.cache, StageOf(s, p), PhaseOf(s.pub, p));
    && (stage in {Idle, Ready, Skip, Build} ==> phase == CheckDll)
    && (stage in {Idle, Ready} && w.region !in s.coverage ==> LoadSound(c, w.region))
    && (stage in {Build, Publish, Update} ==> w.region in s.coverage)
    && (stage == Update ==> phase in {Done(Published), Done(AlreadyPublished)})
    && (stage in {Skip, Finished(true)} ==> AllProvided(c, w.region, Wanted(w)))
    && (!stage.Idle? && !stage.Finished? ==> (w.region, w.crc) in s.holder && s.holder[(w.region, w.crc)] == p)
  }

  ghost predicate CoverageOk(c: Cache, coverage: map<nat, set<Key>>) {
    forall r :: r in coverage ==> AllProvided(c, r, coverage[r])
  }

  ghost predicate SysInv(plan: Plan, s: Sys) {
    && Inv(JobsOf(plan), s.pub)
    && CoverageOk(s.pub.cache, s.coverage)
    && (forall p {:trigger WorkerOk(plan(p), s, p)} :: WorkerOk(plan(p), s, p))
  }

  /** Loading coverage is sound exactly when no lone manifest of the region lists an identity that no
      published pair provides. */
  lemma LoadIsSoundIff(c: Cache, region: nat)
    requires forall n :: n in c.dll ==> n in c.ranges
    ensures AllProvided(c, region, Loaded(c, region)) <==> LoadSound(c, region)
  {
    if AllProvided(c, region, Loaded(c, region)) {
      forall n, k | HalfPublished(c, n, region) && k in CoverageOf(TextBy(c, c.ranges[n]))
        ensures Provided(c, region, k) {
        assert k in Loaded(c, region);
      }
    } else {
      var k :| k in Loaded(c, region) && !Provided(c, region, k);
      var n :| n in c.ranges && StemOf(n, region) && k in CoverageOf(TextBy(c, c.ranges[n]));
      assert HalfPublished(c, n, region);
    }
  }

  lemma ProvidedStays(c: Cache, d: Cache, region: nat, k: Key)
    requires Keeps(c, d) && Provided(c, region, k)
    ensures Provided(d, region, k)
  {
    var n :| n in c.dll && n in c.ranges && StemOf(n, region) && k in CoverageOf(TextBy(c, c.ranges[n]));
    assert VisibleText(d, n) == VisibleText(c, n);
  }

  lemma AllProvidedStays(c: Cache, d: Cache, region: nat, keys: set<Key>)
    requires Keeps(c, d) && AllProvided(c, region, keys)
    ensures AllProvided(d, region, keys)
  {
    forall k | k in keys ensures Provided(d, region, k) { ProvidedStays(c, d, region, k); }
  }

  predicate HasPublished(s: Sys, p: Pid) {
    PhaseOf(s.pub, p) in {Done(Published), Done(AlreadyPublished)}
  }

  /** A worker that published has made all it wanted available. */
  lemma PublishedProvides(plan: Plan, s: Sys, p: Pid)
    requires NamesMatch(plan) && Inv(JobsOf(plan), s.pub) && HasPublished(s, p)
    ensures AllProvided(s.pub.cache, plan(p).region, Wanted(plan(p)))
  {
    var n := plan(p).job.stem;
    assert PhaseOk(JobsOf(plan)(p), s.pub, p);
    assert RangesOk(JobsOf(plan), s.pub, n) && DllOk(s.pub, n);
    assert StemOf(n, plan(p).region);
    assert VisibleText(s.pub.cache, n) == Some(plan(p).job.manifest);
  }

  /** What a move by `p` leaves to the other workers. */
  ghost predicate Disturbs(s: Sys, p: Pid, t: Sys) {
    && t.pub == s.pub && s.coverage.Keys <= t.coverage.Keys
    && (forall q :: q != p ==> StageOf(t, q) == StageOf(s, q))
    && (forall key :: key in s.holder && s.holder[key] != p ==> key in t.holder && t.holder[key] == s.holder[key])
  }

  lemma OthersAreFine(plan: Plan, s: Sys, p: Pid, t: Sys)
    requires SysInv(plan, s) && Disturbs(s, p, t)
    requires CoverageOk(t.pub.cache, t.coverage) && WorkerOk(plan(p), t, p)
    ensures SysInv(plan, t)
  {
    forall q ensures WorkerOk(plan(q), t, q) {
      assert WorkerOk(plan(q), s, q);
    }
  }

  lemma AcquireKeepsInv(plan: Plan, s: Sys, p: Pid)
    requires SysInv(plan, s) && StageOf(s, p) == Idle && (plan(p).region, plan(p).crc) !in s.holder
    ensures SysInv(plan, ToStage(s, p, Ready).(holder := s.holder[(plan(p).region, plan(p).crc) := p]))
  {
    assert WorkerOk(plan(p), s, p);
    OthersAreFine(plan, s, p, ToStage(s, p, Ready).(holder := s.holder[(plan(p).region, plan(p).crc) := p]));
  }

  lemma CheckIsSound(plan: Plan, s: Sys, p: Pid)
    requires SysInv(plan, s) && StageOf(s, p) == Ready
    ensures var r := plan(p).region;
            AllProvided(s.pub.cache, r, if r in s.coverage then s.coverage[r] else Loaded(s.pub.cache, r))
  {
    assert WorkerOk(plan(p), s, p);
    if plan(p).region !in s.coverage {
      forall n | n in s.pub.cache.dll ensures n in s.pub.cache.ranges { assert DllOk(s.pub, n); }
      LoadIsSoundIff(s.pub.cache, plan(p).region);
    }
  }

  lemma CheckKeepsInv(plan: Plan, force: bool, s: Sys, p: Pid)
    requires SysInv(plan, s) && StageOf(s, p) == Ready
    ensures SysInv(plan, Checked(plan(p), force, s, p))
  {
    assert WorkerOk(plan(p), s, p);
    CheckIsSound(plan, s, p);
    OthersAreFine(plan, s, p, Checked(plan(p), force, s, p));
  }

  lemma RecordKeepsInv(plan: Plan, s: Sys, p: Pid)
    requires NamesMatch(plan) && SysInv(plan, s) && StageOf(s, p) == Update
    ensures SysInv(plan, Recorded(plan(p), s, p))
  {
    assert WorkerOk(plan(p), s, p);
    PublishedProvides(plan, s, p);
    assert AllProvided(s.pub.cache, plan(p).region, s.coverage[plan(p).region]);
    OthersAreFine(plan, s, p, Recorded(plan(p), s, p));
  }

  lemma ReleaseKeepsInv(plan: Plan, s: Sys, p: Pid)
    requires SysInv(plan, s) && StageOf(s, p) in {Skip, Leave}
    ensures SysInv(plan, Released(plan(p), s, p))
  {
    assert WorkerOk(plan(p), s, p);
    OthersAreFine(plan, s, p, Released(plan(p), s, p));
  }

  /** Stages a worker passes through without touching anything shared. */
  lemma PassKeepsInv(plan: Plan, s: Sys, p: Pid, stage: Stage)
    requires SysInv(plan, s)
    requires (StageOf(s, p) == Build && stage in {Publish, Leave})
             || (StageOf(s, p) == Publish && PhaseOf(s.pub, p).Done?
               && stage == AfterPublish(PhaseOf(s.pub, p).outcome))
    ensures SysInv(plan, ToStage(s, p, stage))
  {
    assert WorkerOk(plan(p), s, p);
    OthersAreFine(plan, s, p, ToStage(s, p, stage));
  }

  /** A publication only adds names of its own region, so what other regions would load stays sound. */
  lemma PublishingKeepsLoads(plan: Plan, s: Sys, p: Pid, a: Action, pub: State, region: nat)
    requires NamesMatch(plan) && Inv(JobsOf(plan), s.pub) && region != plan(p).region
    requires Step(plan(p).job, s.pub, p, a) == Some(pub) && LoadSound(s.pub.cache, region)
    ensures LoadSound(pub.cache, region)
  {
    var (c, d) := (s.pub.cache, pub.cache);
    assert !StemOf(plan(p).job.stem, region);
    StepKeepsCache(JobsOf(plan), s.pub, p, a, pub);
    forall n, k | HalfPublished(d, n, region) && k in CoverageOf(TextBy(d, d.ranges[n]))
      ensures Provided(d, region, k) {
      NewNamesAreOwn(plan(p).job, s.pub, p, a, pub, n);
      LoneManifestStays(c, d, n, region);
      ProvidedStays(c, d, region, k);
    }
  }

  lemma NewNamesAreOwn(job: Job, s: State, p: Pid, a: Action, t: State, n: string)
    requires Step(job, s, p, a) == Some(t) && n != job.stem
    ensures n in t.cache.ranges ==> n in s.cache.ranges
    ensures n in s.cache.dll ==> n in t.cache.dll
  {
  }

  lemma LoneManifestStays(c: Cache, d: Cache, n: string, region: nat)
    requires Keeps(c, d) && HalfPublished(d, n, region) && n in c.ranges
    ensures HalfPublished(c, n, region) && TextBy(d, d.ranges[n]) == TextBy(c, c.ranges[n])
  {
    assert VisibleText(d, n) == VisibleText(c, n);
  }

  lemma PublishingKeepsWorker(plan: Plan, s: Sys, p: Pid, a: Action, pub: State, q: Pid)
    requires NamesMatch(plan) && SysInv(plan, s) && StageOf(s, p) == Publish
    requires Step(JobsOf(plan)(p), s.pub, p, a) == Some(pub)
    ensures WorkerOk(plan(q), s.(pub := pub), q)
  {
    assert WorkerOk(plan(p), s, p) && WorkerOk(plan(q), s, q);
    StepKeepsCache(JobsOf(plan), s.pub, p, a, pub);
    StepKeepsOthers(JobsOf(plan)(p), s.pub, p, a, pub);
    if StageOf(s, q) in {Skip, Finished(true)} {
      AllProvidedStays(s.pub.cache, pub.cache, plan(q).region, Wanted(plan(q)));
    }
    if StageOf(s, q) in {Idle, Ready} && plan(q).region !in s.coverage {
      PublishingKeepsLoads(plan, s, p, a, pub, plan(q).region);
    }
  }

  lemma PublishingKeepsInv(plan: Plan, s: Sys, p: Pid, a: Action, pub: State)
    requires NamesMatch(plan) && SysInv(plan, s) && StageOf(s, p) == Publish
    requires Step(JobsOf(plan)(p), s.pub, p, a) == Some(pub)
    ensures SysInv(plan, s.(pub := pub))
  {
    StepKeepsInv(JobsOf(plan), s.pub, p, a, pub);
    StepKeepsCache(JobsOf(plan), s.pub, p, a, pub);
    forall r | r in s.coverage ensures AllProvided(pub.cache, r, s.coverage[r]) {
      AllProvidedStays(s.pub.cache, pub.cache, r, s.coverage[r]);
    }
    forall q ensures WorkerOk(plan(q), s.(pub := pub), q) {
      PublishingKeepsWorker(plan, s, p, a, pub, q);
    }
  }

  lemma MoveKeepsInv(plan: Plan, force: bool, s: Sys, p: Pid, m: Move, t: Sys)
    requires NamesMatch(plan) && SysInv(plan, s) && Moved(plan(p), force, s, p, m) == Some(t)
    ensures SysInv(plan, t)
  {
    match m {
      case Acquire => AcquireKeepsInv(plan, s, p);
      case Check => CheckKeepsInv(plan, force, s, p);
      case Compile(_) => PassKeepsInv(plan, s, p, StageOf(t, p));
      case Record => RecordKeepsInv(plan, s, p);
      case Release => ReleaseKeepsInv(plan, s, p);
      case Advance(act) =>
        if PhaseOf(s.pub, p).Done? {
          PassKeepsInv(plan, s, p, StageOf(t, p));
        } else {
          PublishingKeepsInv(plan, s, p, act, t.pub);
        }
    }
  }

  lemma StartIsFine(plan: Plan, s: Sys)
    requires AtRest(plan, s) && LoadsSoundly(plan, s)
    ensures SysInv(plan, s)
  {
    forall p ensures WorkerOk(plan(p), s, p) {
      assert StageOf(s, p) in {Idle, Finished(false)};
    }
  }

  lemma {:induction false} SessionKeepsInv(plan: Plan, force: bool, run: seq<Sys>, i: nat)
    requires NamesMatch(plan) && IsSession(plan, force, run) && LoadsSoundly(plan, run[0]) && i < |run|
    ensures SysInv(plan, run[i])
  {
    if i == 0 {
      StartIsFine(plan, run[0]);
    } else {
      SessionKeepsInv(plan, force, run, i - 1);
      assert NextSys(plan, force, run[i - 1], run[i - 1 + 1]);
      var p, m :| Moved(plan(p), force, run[i - 1], p, m) == Some(run[i]);
      MoveKeepsInv(plan, force, run[i - 1], p, m, run[i]);
    }
  }

  /** At every step of every interleaving of workers, failures and stops of their publications included: whatever a
      coverage set lists is in a published pair of its region, and a capture that was skipped as covered or whose
      publication succeeded has lost no function. */
  lemma CoverageIsPublished(plan: Plan, force: bool, run: seq<Sys>, i: nat)
    requires NamesMatch(plan) && IsSession(plan, force, run) && LoadsSoundly(plan, run[0]) && i < |run|
    ensures CoverageOk(run[i].pub.cache, run[i].coverage)
    ensures forall p, k :: IsServed(run[i], p) && k in Wanted(plan(p)) ==>
              Provided(run[i].pub.cache, plan(p).region, k)
  {
    SessionKeepsInv(plan, force, run, i);
    forall p, k | IsServed(run[i], p) && k in Wanted(plan(p)) ensures Provided(run[i].pub.cache, plan(p).region, k) {
      assert WorkerOk(plan(p), run[i], p);
      if HasPublished(run[i], p) { PublishedProvides(plan, run[i], p); }
    }
  }

  /** The capture was skipped as covered, or its publication reported success. */
  predicate IsServed(s: Sys, p: Pid) {
    StageOf(s, p) in {Skip, Finished(true)} || HasPublished(s, p)
  }

  ghost predicate IsSoundAt(s: Sys) {
    CoverageOk(s.pub.cache, s.coverage)
  }

  ghost predicate SessionsAreSound(plan: Plan, force: bool, s: Sys) {
    forall run: seq<Sys>, i :: IsSession(plan, force, run) && run[0] == s && 0 <= i < |run| ==> IsSoundAt(run[i])
  }

  /** The session in which one worker starts and checks. */
  function FirstCheck(plan: Plan, force: bool, s: Sys, p: Pid): seq<Sys> {
    var ready := ToStage(s, p, Ready).(holder := s.holder[(plan(p).region, plan(p).crc) := p]);
    [s, ready, Checked(plan(p), force, ready, p)]
  }

  lemma FirstCheckIsSession(plan: Plan, force: bool, s: Sys, p: Pid)
    requires AtRest(plan, s) && StageOf(s, p) == Idle
    ensures var run := FirstCheck(plan, force, s, p);
            && IsSession(plan, force, run) && run[2].pub == s.pub
            && run[2].coverage == map[plan(p).region := Loaded(s.pub.cache, plan(p).region)]
  {
    var run := FirstCheck(plan, force, s, p);
    assert Moved(plan(p), force, run[0], p, Acquire) == Some(run[1]);
    assert Moved(plan(p), force, run[1], p, Check) == Some(run[2]);
    assert forall i :: 0 <= i < |run| - 1 ==> NextSys(plan, force, run[i], run[i + 1]);
  }

  /** Exactly then: from a cache at rest, coverage is in published pairs at every step of every session if and only
      if no lone manifest of a region still to be captured lists an identity that no published pair provides. */
  lemma SessionsAreSoundIff(plan: Plan, force: bool, s: Sys)
    requires NamesMatch(plan) && AtRest(plan, s)
    ensures SessionsAreSound(plan, force, s) <==> LoadsSoundly(plan, s)
  {
    if LoadsSoundly(plan, s) {
      forall run: seq<Sys>, i | IsSession(plan, force, run) && run[0] == s && 0 <= i < |run|
        ensures IsSoundAt(run[i])
      {
        CoverageIsPublished(plan, force, run, i);
      }
    }
    if SessionsAreSound(plan, force, s) {
      forall p | StageOf(s, p) == Idle ensures LoadSound(s.pub.cache, plan(p).region) {
        FirstCheckTells(plan, force, s, p);
      }
    }
  }

  lemma FirstCheckTells(plan: Plan, force: bool, s: Sys, p: Pid)
    requires AtRest(plan, s) && StageOf(s, p) == Idle && SessionsAreSound(plan, force, s)
    ensures LoadSound(s.pub.cache, plan(p).region)
  {
    var run := FirstCheck(plan, force, s, p);
    FirstCheckIsSession(plan, force, s, p);
    assert IsSoundAt(run[2]);
    forall n | n in s.pub.cache.dll ensures n in s.pub.cache.ranges { assert DllOk(s.pub, n); }
    LoadIsSoundIff(s.pub.cache, plan(p).region);
  }

  // ----- the failing case happens

  /** After one worker's publication stopped between its links, in an earlier run. */
  function AfterStop(plan: Plan, p: Pid): Sys {
    Sys(Solo(HalfDone(plan(p).job, p), p, Stopped), map[], map[], map[p := Finished(false)])
  }

  lemma AfterStopIsAtRest(plan: Plan, p: Pid) returns (earlier: seq<State>)
    ensures IsRun(JobsOf(plan), earlier) && earlier[|earlier| - 1] == AfterStop(plan, p).pub
    ensures AtRest(plan, AfterStop(plan, p))
  {
    earlier := StopLeavesOrphan(JobsOf(plan), p);
    RunKeepsInv(JobsOf(plan), earlier, |earlier| - 1);
  }

  /** A capture of the same region that wants no more than the stopped one is then skipped, and its functions are in
      no published pair. */
  lemma StoppedPublicationIsCountedAsCoverage(plan: Plan, p: Pid, q: Pid)
    requires NamesMatch(plan) && p != q && plan(p).region == plan(q).region
    requires Wanted(plan(q)) != {} && Wanted(plan(q)) <= Wanted(plan(p))
    ensures AtRest(plan, AfterStop(plan, p)) && !LoadsSoundly(plan, AfterStop(plan, p))
    ensures var last := FirstCheck(plan, false, AfterStop(plan, p), q)[2];
            && IsSession(plan, false, FirstCheck(plan, false, AfterStop(plan, p), q)) && StageOf(last, q) == Skip
            && forall k :: k in Wanted(plan(q)) ==> !Provided(last.pub.cache, plan(q).region, k)
  {
    var s := AfterStop(plan, p);
    var (c, r, n) := (s.pub.cache, plan(p).region, plan(p).job.stem);
    var earlier := AfterStopIsAtRest(plan, p);
    FirstCheckIsSession(plan, false, s, q);
    assert StemOf(n, r) && HalfPublished(c, n, r) && TextBy(c, c.ranges[n]) == plan(p).job.manifest;
    forall k ensures !Provided(c, r, k) && (k in Wanted(plan(p)) ==> k in Loaded(c, r)) {
      if k in Wanted(plan(p)) { assert n in c.ranges && StemOf(n, r) && k in CoverageOf(TextBy(c, c.ranges[n])); }
    }
    var k :| k in Wanted(plan(q));
    assert !LoadSound(c, r) by {
      assert k in CoverageOf(TextBy(c, c.ranges[n]));
    }
  }

  /** Every worker captures the same one function under the same name. */
  function SamePlan(text: string): Plan {
    (p: Pid) => Work(0, 0, Job(Hex8(0) + "_" + Hex8(0) + "_" + "00000000", text))
  }

  /** A session that follows an earlier run skips a capture although an identity it would provide is in no published
      pair. */
  ghost predicate Loses(plan: Plan, earlier: seq<State>, run: seq<Sys>, q: Pid, k: Key) {
    && NamesMatch(plan) && IsRun(JobsOf(plan), earlier)
    && IsSession(plan, false, run) && run[0].pub == earlier[|earlier| - 1]
    && StageOf(run[|run| - 1], q) == Skip && k in Wanted(plan(q))
    && !Provided(run[|run| - 1].pub.cache, plan(q).region, k)
  }

  lemma StoppedPublicationLoses(plan: Plan, p: Pid, q: Pid, k: Key)
    requires NamesMatch(plan) && p != q && plan(p).region == plan(q).region
    requires k in Wanted(plan(q)) && Wanted(plan(q)) <= Wanted(plan(p))
    ensures exists earlier, run :: Loses(plan, earlier, run, q, k)
  {
    StoppedPublicationIsCountedAsCoverage(plan, p, q);
    var earlier := AfterStopIsAtRest(plan, p);
    assert Loses(plan, earlier, FirstCheck(plan, false, AfterStop(plan, p), q), q, k);
  }

  lemma SamePlanNamesMatch(text: string)
    ensures NamesMatch(SamePlan(text))
  {
    Hex8IsAtLeastEight(0);
    var zeros := (p: Pid) => "00000000";
    assert HexText.AllHex("00000000");
    PublicationNamesMatch(SamePlan(text), zeros);
  }

  /** There are such plans: a session from a cache with an orphan can lose functions. */
  lemma SessionsCanLoseFunctions()
    ensures exists plan, earlier, run, q, k :: Loses(plan, earlier, run, q, k)
  {
    var (ids, h) := ([FuncId(0, 0, [])], Header(0, "0", "0", 0, 0, 0, None));
    TextHasRecords(ids, h);
    var plan := SamePlan(TextOf(ids, h).value);
    SamePlanNamesMatch(TextOf(ids, h).value);
    WantedIsWhatWasFound(plan(0), ids, h);
    assert KeyOf(ids[0]) in KeysOf(ids);
    StoppedPublicationLoses(plan, 0, 1, KeyOf(ids[0]));
  }

  /** Captures of identical bytes never build or publish at the same time, however their publications end. */
  lemma IdenticalCapturesTakeTurns(plan: Plan, force: bool, run: seq<Sys>, i: nat, p: Pid, q: Pid)
    requires IsSession(plan, force, run) && i < |run|
    requires plan(p).region == plan(q).region && plan(p).crc == plan(q).crc
    requires StageOf(run[i], p) in {Ready, Build, Publish, Update}
            && StageOf(run[i], q) in {Ready, Build, Publish, Update}
    ensures p == q
  {
    SessionKeepsLocks(plan, force, run, i, p);
    SessionKeepsLocks(plan, force, run, i, q);
  }

  predicate HoldsLock(w: Work, s: Sys, p: Pid) {
    !StageOf(s, p).Idle? && !StageOf(s, p).Finished? ==>
      (w.region, w.crc) in s.holder && s.holder[(w.region, w.crc)] == p
  }

  lemma MoveKeepsLock(plan: Plan, force: bool, s: Sys, p: Pid, m: Move, t: Sys, q: Pid)
    requires Moved(plan(p), force, s, p, m) == Some(t) && HoldsLock(plan(p), s, p) && HoldsLock(plan(q), s, q)
    ensures HoldsLock(plan(q), t, q)
  {
  }

  lemma {:induction false} SessionKeepsLocks(plan: Plan, force: bool, run: seq<Sys>, i: nat, q: Pid)
    requires IsSession(plan, force, run) && i < |run|
    ensures HoldsLock(plan(q), run[i], q)
  {
    if i > 0 {
      assert NextSys(plan, force, run[i - 1], run[i - 1 + 1]);
      var p, m :| Moved(plan(p), force, run[i - 1], p, m) == Some(run[i]);
      SessionKeepsLocks(plan, force, run, i - 1, p);
      SessionKeepsLocks(plan, force, run, i - 1, q);
      MoveKeepsLock(plan, force, run[i - 1], p, m, run[i], q);
    }
  }

  // ----- no deadlock on the key locks

  predicate IsActive(stage: Stage) {
    !stage.Idle? && !stage.Finished?
  }

  /** A lock is held by a worker of its key that has started and not finished. */
  predicate HolderOk(plan: Plan, s: Sys, key: (nat, nat)) {
    key in s.holder ==>
      IsActive(StageOf(s, s.holder[key])) && key == (plan(s.holder[key]).region, plan(s.holder[key]).crc)
  }

  /** What keeps a worker's next operation possible. */
  predicate IsOnTrack(w: Work, s: Sys, p: Pid) {
    && (StageOf(s, p) in {Idle, Ready, Skip, Build} ==> PhaseOf(s.pub, p) == CheckDll)
    && (StageOf(s, p) == Publish && PhaseOf(s.pub, p) == Write ==> |TextBy(s.pub.cache, p)| <= |w.job.manifest|)
  }

  lemma MoveKeepsHolder(plan: Plan, force: bool, s: Sys, p: Pid, m: Move, t: Sys, key: (nat, nat))
    requires Moved(plan(p), force, s, p, m) == Some(t) && HolderOk(plan, s, key)
    ensures HolderOk(plan, t, key)
  {
  }

  lemma MoveKeepsTrack(plan: Plan, force: bool, s: Sys, p: Pid, m: Move, t: Sys, q: Pid)
    requires Moved(plan(p), force, s, p, m) == Some(t) && IsOnTrack(plan(p), s, p) && IsOnTrack(plan(q), s, q)
    ensures IsOnTrack(plan(q), t, q)
  {
    if m.Advance? && !PhaseOf(s.pub, p).Done? && q != p {
      StepKeepsOthers(plan(p).job, s.pub, p, m.act, t.pub);
    }
  }

  lemma {:induction false} SessionKeepsTrack(plan: Plan, force: bool, run: seq<Sys>, i: nat, q: Pid, key: (nat, nat))
    requires IsSession(plan, force, run) && i < |run|
    ensures IsOnTrack(plan(q), run[i], q) && HolderOk(plan, run[i], key)
  {
    if i == 0 {
      assert StageOf(run[0], q) in {Idle, Finished(false)};
    } else {
      assert NextSys(plan, force, run[i - 1], run[i - 1 + 1]);
      var p, m :| Moved(plan(p), force, run[i - 1], p, m) == Some(run[i]);
      SessionKeepsTrack(plan, force, run, i - 1, p, key);
      SessionKeepsTrack(plan, force, run, i - 1, q, key);
      MoveKeepsTrack(plan, force, run[i - 1], p, m, run[i], q);
      MoveKeepsHolder(plan, force, run[i - 1], p, m, run[i], key);
    }
  }

  /** Some move other than a failure or a stop is open to the worker. */
  ghost predicate CanMove(plan: Plan, force: bool, s: Sys, p: Pid) {
    exists m :: m !in {Advance(Fail), Advance(Stop)} && Moved(plan(p), force, s, p, m).Some?
  }

  lemma ActiveCanMoveIff(plan: Plan, force: bool, s: Sys, p: Pid)
    requires IsActive(StageOf(s, p)) && IsOnTrack(plan(p), s, p)
    ensures CanMove(plan, force, s, p) <==> !(StageOf(s, p) == Publish && PhaseOf(s.pub, p) == Stopped)
  {
    var stage, phase := StageOf(s, p), PhaseOf(s.pub, p);
    if stage == Ready {
      assert Moved(plan(p), force, s, p, Check).Some?;
    } else if stage == Build {
      assert Moved(plan(p), force, s, p, Compile(true)).Some?;
    } else if stage == Update {
      assert Moved(plan(p), force, s, p, Record).Some?;
    } else if stage in {Skip, Leave} {
      assert Moved(plan(p), force, s, p, Release).Some?;
    } else if phase == Write {
      assert Moved(plan(p), force, s, p, Advance(WriteSome(|plan(p).job.manifest|))).Some?;
    } else if phase != Stopped {
      assert Moved(plan(p), force, s, p, Advance(Go)).Some?;
    }
  }

  /** At every step of every session, a worker that has not finished can move, or waits for a worker of its own key
      that can; unless one of the two was stopped in its publication. */
  lemma NoDeadlock(plan: Plan, force: bool, run: seq<Sys>, i: nat, p: Pid)
    requires IsSession(plan, force, run) && i < |run| && !StageOf(run[i], p).Finished?
    requires forall q :: StageOf(run[i], q) == Publish ==> PhaseOf(run[i].pub, q) != Stopped
    ensures var (s, key) := (run[i], (plan(p).region, plan(p).crc));
            || CanMove(plan, force, s, p)
            || (StageOf(s, p) == Idle && key in s.holder && CanMove(plan, force, s, s.holder[key])
                && plan(s.holder[key]).region == plan(p).region && plan(s.holder[key]).crc == plan(p).crc)
  {
    var (s, key) := (run[i], (plan(p).region, plan(p).crc));
    SessionKeepsTrack(plan, force, run, i, p, key);
    if StageOf(s, p) != Idle {
      ActiveCanMoveIff(plan, force, s, p);
    } else if key !in s.holder {
      assert Moved(plan(p), force, s, p, Acquire).Some?;
    } else {
      SessionKeepsTrack(plan, force, run, i, s.holder[key], key);
      ActiveCanMoveIff(plan, force, s, s.holder[key]);
    }
  }
}
