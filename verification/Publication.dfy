/** `publish_overlay_pair` as a protocol: any number of publishers, interleaved at every file-system
    operation, each of which may fail or stop for good at any point. */
module Publication {
  import opened Basics

  type Pid = nat

  /** What a publisher was asked to make visible. Two jobs may share a stem, that is, both names. */
  datatype Job = Job(stem: string, manifest: string)

  datatype Outcome = Published | AlreadyPublished | Conflict | Failed

  /** The next operation of a publisher. */
  datatype Phase =
    | CheckDll | CheckRanges
    | CompareDll | CompareRanges | CompareText | DropStaged
    | MakeTemp | Write | LinkRanges | LinkDll
    | DropTemp(ok: bool) | DropDll(ok: bool)
    | Done(outcome: Outcome) | Stopped

  /** The cache directory: which publisher's file each visible name is a link to, what each
      publisher's manifest file holds, and which staged names are gone or present. */
  datatype Cache = Cache(
    dll: map<string, Pid>, ranges: map<string, Pid>, text: map<Pid, string>, temps: set<Pid>, dropped: set<Pid>)

  datatype State = State(cache: Cache, phase: map<Pid, Phase>)

  const EMPTY := State(Cache(map[], map[], map[], {}, {}), map[])

  function PhaseOf(s: State, p: Pid): Phase {
    if p in s.phase then s.phase[p] else CheckDll
  }

  function TextBy(c: Cache, p: Pid): string {
    if p in c.text then c.text[p] else ""
  }

  /** What a reader of the visible manifest sees. */
  function VisibleText(c: Cache, stem: string): Option<string> {
    if stem in c.ranges then Some(TextBy(c, c.ranges[stem])) else None
  }

  /** `Go` does the next operation, `WriteSome` writes up to a length, `Fail` is an I/O error, `Stop`
      ends the process. */
  datatype Action = Go | WriteSome(upTo: nat) | Fail | Stop

  function At(s: State, p: Pid, phase: Phase): State {
    s.(phase := s.phase[p := phase])
  }

  function AtWith(s: State, p: Pid, phase: Phase, cache: Cache): State {
    State(cache, s.phase[p := phase])
  }

  /** One operation that succeeds or is refused by the file system. */
  function DoGo(job: Job, s: State, p: Pid): Option<State> {
    var (c, n) := (s.cache, job.stem);
    match PhaseOf(s, p)
    case CheckDll => Some(At(s, p, if n in c.dll then CompareDll else CheckRanges))
    case CheckRanges => Some(At(s, p, if n in c.ranges then CompareDll else MakeTemp))
    case CompareDll => Some(At(s, p, if n in c.dll then CompareRanges else Done(Conflict)))
    case CompareRanges => Some(At(s, p, if n in c.ranges then CompareText else Done(Conflict)))
    case CompareText =>
      Some(At(s, p, if VisibleText(c, n) == Some(job.manifest) then DropStaged
                    else if VisibleText(c, n) == None then Done(Failed) else Done(Conflict)))
    case DropStaged => Some(AtWith(s, p, Done(AlreadyPublished), c.(dropped := c.dropped + {p})))
    case MakeTemp => Some(AtWith(s, p, Write, c.(temps := c.temps + {p}, text := c.text[p := ""])))
    case Write => if TextBy(c, p) == job.manifest then Some(At(s, p, LinkRanges)) else None
    case LinkRanges =>
      if n in c.ranges then Some(At(s, p, DropTemp(false)))
      else Some(AtWith(s, p, LinkDll, c.(ranges := c.ranges[n := p])))
    case LinkDll =>
      if n in c.dll || p in c.dropped then Some(At(s, p, DropTemp(false)))
      else Some(AtWith(s, p, DropTemp(true), c.(dll := c.dll[n := p])))
    case DropTemp(ok) => Some(AtWith(s, p, DropDll(ok), c.(temps := c.temps - {p})))
    case DropDll(ok) => Some(AtWith(s, p, Done(if ok then Published else Failed), c.(dropped := c.dropped + {p})))
    case _ => None
  }

  function Step(job: Job, s: State, p: Pid, a: Action): Option<State> {
    var phase := PhaseOf(s, p);
    if phase.Done? || phase.Stopped? then None
    else match a
    case Go => DoGo(job, s, p)
    case WriteSome(k) =>
      if phase == Write && |TextBy(s.cache, p)| <= k <= |job.manifest|
      then Some(AtWith(s, p, Write, s.cache.(text := s.cache.text[p := job.manifest[..k]]))) else None
    case Fail =>
      Some(At(s, p, if phase in {Write, LinkRanges, LinkDll} then DropTemp(false) else Done(Failed)))
    case Stop => Some(At(s, p, Stopped))
  }

  type Jobs = Pid -> Job

  ghost predicate Next(jobs: Jobs, s: State, t: State) {
    exists p, a :: Step(jobs(p), s, p, a) == Some(t)
  }

  /** Any interleaving, from an empty cache. A cache left by earlier runs is such a run's last state. */
  ghost predicate IsRun(jobs: Jobs, run: seq<State>) {
    && run != [] && run[0] == EMPTY
    && forall i :: 0 <= i < |run| - 1 ==> Next(jobs, run[i], run[i + 1])
  }

  // ----- what every step keeps

  predicate Linked(phase: Phase) {
    phase == LinkDll || phase.DropTemp? || phase.DropDll? || phase.Done? || phase.Stopped?
  }

  /** The publisher whose manifest is visible under a stem wrote it for that stem, completely, and will
      not write again. */
  predicate RangesOk(jobs: Jobs, s: State, n: string) {
    n in s.cache.ranges ==>
      && var p := s.cache.ranges[n];
      && jobs(p).stem == n && TextBy(s.cache, p) == jobs(p).manifest && Linked(PhaseOf(s, p))
  }

  predicate DllOk(s: State, n: string) {
    n in s.cache.dll ==>
      && n in s.cache.ranges && s.cache.ranges[n] == s.cache.dll[n]
      && PhaseOf(s, s.cache.dll[n]) != LinkDll
  }

  /** What a publisher knows at each point. */
  predicate PhaseOk(job: Job, s: State, p: Pid) {
    var (c, n) := (s.cache, job.stem);
    match PhaseOf(s, p)
    case LinkRanges => TextBy(c, p) == job.manifest
    case LinkDll => n in c.ranges && c.ranges[n] == p && n !in c.dll
    case DropTemp(ok) => ok ==> n in c.dll && c.dll[n] == p
    case DropDll(ok) => ok ==> n in c.dll && c.dll[n] == p
    case CompareRanges => n in c.dll
    case CompareText => n in c.dll && n in c.ranges
    case DropStaged => n in c.dll && VisibleText(c, n) == Some(job.manifest)
    case Done(Published) => n in c.dll && c.dll[n] == p
    case Done(AlreadyPublished) => n in c.dll && VisibleText(c, n) == Some(job.manifest)
    case _ => true
  }

  ghost predicate Inv(jobs: Jobs, s: State) {
    && (forall n :: RangesOk(jobs, s, n))
    && (forall n :: DllOk(s, n))
    && (forall p :: PhaseOk(jobs(p), s, p))
  }

  /** No name that is visible ever goes away, changes hands, or changes what it shows. */
  ghost predicate Keeps(s: Cache, t: Cache) {
    && (forall n :: n in s.dll ==> n in t.dll && t.dll[n] == s.dll[n])
    && (forall n :: n in s.ranges ==>
      n in t.ranges && t.ranges[n] == s.ranges[n] && VisibleText(t, n) == VisibleText(s, n))
  }

  lemma StepKeepsOthers(job: Job, s: State, p: Pid, a: Action, t: State)
    requires Step(job, s, p, a) == Some(t)
    ensures forall q :: q != p ==> PhaseOf(t, q) == PhaseOf(s, q) && TextBy(t.cache, q) == TextBy(s.cache, q)
  {
  }

  lemma StepKeepsCache(jobs: Jobs, s: State, p: Pid, a: Action, t: State)
    requires Inv(jobs, s) && Step(jobs(p), s, p, a) == Some(t)
    ensures Keeps(s.cache, t.cache)
  {
    forall n | n in s.cache.ranges ensures VisibleText(t.cache, n) == VisibleText(s.cache, n) {
      assert RangesOk(jobs, s, n);
    }
  }

  lemma StepKeepsRanges(jobs: Jobs, s: State, p: Pid, a: Action, t: State, m: string)
    requires Inv(jobs, s) && Step(jobs(p), s, p, a) == Some(t)
    ensures RangesOk(jobs, t, m)
  {
    assert PhaseOk(jobs(p), s, p) && RangesOk(jobs, s, m);
  }

  lemma StepKeepsDll(jobs: Jobs, s: State, p: Pid, a: Action, t: State, m: string)
    requires Inv(jobs, s) && Step(jobs(p), s, p, a) == Some(t)
    ensures DllOk(t, m)
  {
    assert PhaseOk(jobs(p), s, p) && RangesOk(jobs, s, m) && DllOk(s, m);
  }

  lemma StepKeepsOwnPhase(jobs: Jobs, s: State, p: Pid, a: Action, t: State)
    requires Inv(jobs, s) && Step(jobs(p), s, p, a) == Some(t)
    ensures PhaseOk(jobs(p), t, p)
  {
    var n := jobs(p).stem;
    assert PhaseOk(jobs(p), s, p) && RangesOk(jobs, s, n) && DllOk(s, n);
  }

  lemma StepKeepsOtherPhase(jobs: Jobs, s: State, p: Pid, a: Action, t: State, q: Pid)
    requires Inv(jobs, s) && Step(jobs(p), s, p, a) == Some(t) && q != p
    ensures PhaseOk(jobs(q), t, q)
  {
    StepKeepsOthers(jobs(p), s, p, a, t);
    StepKeepsCache(jobs, s, p, a, t);
    assert PhaseOk(jobs(p), s, p) && PhaseOk(jobs(q), s, q);
  }

  lemma StepKeepsInv(jobs: Jobs, s: State, p: Pid, a: Action, t: State)
    requires Inv(jobs, s) && Step(jobs(p), s, p, a) == Some(t)
    ensures Inv(jobs, t)
  {
    forall m ensures RangesOk(jobs, t, m) { StepKeepsRanges(jobs, s, p, a, t, m); }
    forall m ensures DllOk(t, m) { StepKeepsDll(jobs, s, p, a, t, m); }
    forall q ensures PhaseOk(jobs(q), t, q) {
      if q == p { StepKeepsOwnPhase(jobs, s, p, a, t); } else { StepKeepsOtherPhase(jobs, s, p, a, t, q); }
    }
  }

  // ----- safety over whole runs

  lemma {:induction false} RunKeepsInv(jobs: Jobs, run: seq<State>, i: nat)
    requires IsRun(jobs, run) && i < |run|
    ensures Inv(jobs, run[i])
  {
    if i > 0 {
      RunKeepsInv(jobs, run, i - 1);
      assert Next(jobs, run[i - 1], run[i - 1 + 1]);
      var p, a :| Step(jobs(p), run[i - 1], p, a) == Some(run[i]);
      StepKeepsInv(jobs, run[i - 1], p, a, run[i]);
    }
  }

  lemma {:induction false} RunKeepsNames(jobs: Jobs, run: seq<State>, i: nat, j: nat)
    requires IsRun(jobs, run) && i <= j < |run|
    ensures Keeps(run[i].cache, run[j].cache)
    decreases j
  {
    if i < j {
      RunKeepsNames(jobs, run, i, j - 1);
      RunKeepsInv(jobs, run, j - 1);
      assert Next(jobs, run[j - 1], run[j - 1 + 1]);
      var p, a :| Step(jobs(p), run[j - 1], p, a) == Some(run[j]);
      StepKeepsCache(jobs, run[j - 1], p, a, run[j]);
      KeepsIsTransitive(run[i].cache, run[j - 1].cache, run[j].cache);
    }
  }

  lemma KeepsIsTransitive(a: Cache, b: Cache, c: Cache)
    requires Keeps(a, b) && Keeps(b, c)
    ensures Keeps(a, c)
  {
  }

  /** At every step of every interleaving, collisions and stops included: a visible DLL has a visible
      manifest by the same publisher, complete and for that stem; and from then on neither name is
      re-bound and the manifest never changes. */
  lemma PairsAreCompleteAndImmutable(jobs: Jobs, run: seq<State>, i: nat, j: nat, n: string)
    requires IsRun(jobs, run) && i <= j < |run| && n in run[i].cache.dll
    ensures var c := run[i].cache;
            && n in c.ranges && c.ranges[n] == c.dll[n]
            && jobs(c.dll[n]).stem == n && VisibleText(c, n) == Some(jobs(c.dll[n]).manifest)
    ensures var (c, d) := (run[i].cache, run[j].cache);
            && n in d.dll && d.dll[n] == c.dll[n] && n in d.ranges && d.ranges[n] == c.ranges[n]
            && VisibleText(d, n) == VisibleText(c, n)
  {
    RunKeepsInv(jobs, run, i);
    RunKeepsNames(jobs, run, i, j);
    assert DllOk(run[i], n) && RangesOk(jobs, run[i], n);
  }

  /** A publisher that reports success is right: its stem shows its own manifest beside a DLL. */
  lemma SuccessIsTrue(jobs: Jobs, run: seq<State>, i: nat, p: Pid)
    requires IsRun(jobs, run) && i < |run|
    requires PhaseOf(run[i], p) in {Done(Published), Done(AlreadyPublished)}
    ensures jobs(p).stem in run[i].cache.dll && VisibleText(run[i].cache, jobs(p).stem) == Some(jobs(p).manifest)
  {
    RunKeepsInv(jobs, run, i);
    assert PhaseOk(jobs(p), run[i], p) && DllOk(run[i], jobs(p).stem) && RangesOk(jobs, run[i], jobs(p).stem);
  }

  /** Once a publisher has linked its manifest, no one else can take the DLL name from it. */
  lemma SecondLinkIsFree(jobs: Jobs, run: seq<State>, i: nat, p: Pid)
    requires IsRun(jobs, run) && i < |run| && PhaseOf(run[i], p) == LinkDll
    ensures var (c, n) := (run[i].cache, jobs(p).stem);
            n !in c.dll && n in c.ranges && c.ranges[n] == p
  {
    RunKeepsInv(jobs, run, i);
    assert PhaseOk(jobs(p), run[i], p);
  }

  // ----- staged files

  /** Where a staged manifest may still be lying, and when the staged DLL is gone. */
  predicate Tidy(s: State, p: Pid) {
    && (p in s.cache.temps ==>
          PhaseOf(s, p) in {Write, LinkRanges, LinkDll, DropTemp(false), DropTemp(true), Done(Failed), Stopped})
    && (PhaseOf(s, p) in {Done(Published), Done(AlreadyPublished)} ==> p in s.cache.dropped)
  }

  lemma StepKeepsTidy(job: Job, s: State, p: Pid, a: Action, t: State, q: Pid)
    requires Step(job, s, p, a) == Some(t) && Tidy(s, p) && Tidy(s, q)
    ensures Tidy(t, q)
  {
  }

  lemma {:induction false} RunKeepsTidy(jobs: Jobs, run: seq<State>, i: nat, p: Pid)
    requires IsRun(jobs, run) && i < |run|
    ensures Tidy(run[i], p)
  {
    if i > 0 {
      assert Next(jobs, run[i - 1], run[i - 1 + 1]);
      var q, a :| Step(jobs(q), run[i - 1], q, a) == Some(run[i]);
      RunKeepsTidy(jobs, run, i - 1, p);
      RunKeepsTidy(jobs, run, i - 1, q);
      StepKeepsTidy(jobs(q), run[i - 1], q, a, run[i], p);
    }
  }

  /** A publisher that reports success leaves neither of its staged files behind; one that reports a conflict
      leaves no staged manifest. */
  lemma SuccessLeavesNothingStaged(jobs: Jobs, run: seq<State>, i: nat, p: Pid)
    requires IsRun(jobs, run) && i < |run|
    ensures PhaseOf(run[i], p) in {Done(Published), Done(AlreadyPublished)} ==>
              p !in run[i].cache.temps && p in run[i].cache.dropped
    ensures PhaseOf(run[i], p) == Done(Conflict) ==> p !in run[i].cache.temps
  {
    RunKeepsTidy(jobs, run, i, p);
  }

  /** A run that says who did what. */
  ghost predicate IsLabelled(jobs: Jobs, run: seq<State>, who: seq<Pid>, acts: seq<Action>) {
    && run != [] && run[0] == EMPTY && |who| == |acts| == |run| - 1
    && forall i :: 0 <= i < |who| ==> Step(jobs(who[i]), run[i], who[i], acts[i]) == Some(run[i + 1])
  }

  ghost predicate NeverFails(who: seq<Pid>, acts: seq<Action>, p: Pid) {
    forall i :: 0 <= i < |who| && i < |acts| && who[i] == p ==> acts[i] != Fail
  }

  lemma LabelledIsRun(jobs: Jobs, run: seq<State>, who: seq<Pid>, acts: seq<Action>)
    requires IsLabelled(jobs, run, who, acts)
    ensures IsRun(jobs, run)
  {
    forall i | 0 <= i < |run| - 1 ensures Next(jobs, run[i], run[i + 1]) {
      assert Step(jobs(who[i]), run[i], who[i], acts[i]) == Some(run[i + 1]);
    }
  }

  predicate KeepsStagedDll(s: State, p: Pid) {
    p in s.cache.dropped <==> PhaseOf(s, p).Done? && PhaseOf(s, p) != Done(Conflict)
  }

  lemma StepKeepsStagedDll(jobs: Jobs, s: State, q: Pid, a: Action, t: State, p: Pid)
    requires Inv(jobs, s) && Step(jobs(q), s, q, a) == Some(t) && (q == p ==> a != Fail)
    requires KeepsStagedDll(s, p)
    ensures KeepsStagedDll(t, p)
  {
    assert PhaseOk(jobs(p), s, p);
  }

  /** Without an I/O error of its own, a publisher removes its staged DLL exactly when it ends in anything but a
      conflict found before staging: that refusal is the one ending that leaves the staged DLL behind. */
  lemma {:induction false} StagedDllStaysIffConflict(
    jobs: Jobs, run: seq<State>, who: seq<Pid>, acts: seq<Action>, i: nat, p: Pid)
    requires IsLabelled(jobs, run, who, acts) && NeverFails(who, acts, p) && i < |run|
    ensures p in run[i].cache.dropped <==> PhaseOf(run[i], p).Done? && PhaseOf(run[i], p) != Done(Conflict)
  {
    if i > 0 {
      StagedDllStaysIffConflict(jobs, run, who, acts, i - 1, p);
      LabelledIsRun(jobs, run, who, acts);
      RunKeepsInv(jobs, run, i - 1);
      assert Step(jobs(who[i - 1]), run[i - 1], who[i - 1], acts[i - 1]) == Some(run[i - 1 + 1]);
      StepKeepsStagedDll(jobs, run[i - 1], who[i - 1], acts[i - 1], run[i], p);
    }
  }

  /** The cache shows this job's manifest beside a DLL. */
  predicate Offers(c: Cache, job: Job) {
    job.stem in c.dll && VisibleText(c, job.stem) == Some(job.manifest)
  }

  /** What a publisher found each time it came to compare, in a labelled run up to a step. */
  function Found(jobs: Jobs, run: seq<State>, who: seq<Pid>, i: nat, p: Pid): seq<bool>
    requires i <= |who| && i <= |run|
  {
    if i == 0 then []
    else
      Found(jobs, run, who, i - 1, p)
      + if who[i - 1] == p && PhaseOf(run[i - 1], p) == CompareDll then [Offers(run[i - 1].cache, jobs(p))] else []
  }

  /** Publishers compare at most once, and what they find decides how they end. */
  predicate FoundFits(job: Job, s: State, p: Pid, found: seq<bool>) {
    match PhaseOf(s, p)
    case CompareRanges => found == [Offers(s.cache, job)]
    case CompareText => found == [Offers(s.cache, job)]
    case DropStaged => found == [true]
    case Done(AlreadyPublished) => found == [true]
    case Done(Conflict) => found == [false]
    case Stopped => true
    case _ => found == []
  }

  lemma OthersKeepOffer(jobs: Jobs, s: State, q: Pid, a: Action, t: State, p: Pid)
    requires Inv(jobs, s) && Step(jobs(q), s, q, a) == Some(t) && q != p
    requires PhaseOf(s, p) in {CompareRanges, CompareText}
    ensures PhaseOf(t, p) == PhaseOf(s, p) && Offers(t.cache, jobs(p)) == Offers(s.cache, jobs(p))
  {
    StepKeepsOthers(jobs(q), s, q, a, t);
    StepKeepsCache(jobs, s, q, a, t);
    assert PhaseOk(jobs(p), s, p) && DllOk(s, jobs(p).stem);
  }

  lemma StepKeepsFound(jobs: Jobs, s: State, q: Pid, a: Action, t: State, p: Pid, found: seq<bool>)
    requires Inv(jobs, s) && Step(jobs(q), s, q, a) == Some(t) && (q == p ==> a != Fail)
    requires FoundFits(jobs(p), s, p, found)
    ensures var more := if q == p && PhaseOf(s, p) == CompareDll then [Offers(s.cache, jobs(p))] else [];
            FoundFits(jobs(p), t, p, found + more)
  {
    assert PhaseOk(jobs(p), s, p) && DllOk(s, jobs(p).stem);
    if q != p {
      StepKeepsOthers(jobs(q), s, q, a, t);
      if PhaseOf(s, p) in {CompareRanges, CompareText} { OthersKeepOffer(jobs, s, q, a, t, p); }
      assert found + [] == found;
    }
  }

  lemma {:induction false} RunKeepsFound(jobs: Jobs, run: seq<State>, who: seq<Pid>, acts: seq<Action>, i: nat, p: Pid)
    requires IsLabelled(jobs, run, who, acts) && NeverFails(who, acts, p) && i < |run|
    ensures FoundFits(jobs(p), run[i], p, Found(jobs, run, who, i, p))
  {
    if i > 0 {
      RunKeepsFound(jobs, run, who, acts, i - 1, p);
      LabelledIsRun(jobs, run, who, acts);
      RunKeepsInv(jobs, run, i - 1);
      assert Step(jobs(who[i - 1]), run[i - 1], who[i - 1], acts[i - 1]) == Some(run[i - 1 + 1]);
      StepKeepsFound(jobs, run[i - 1], who[i - 1], acts[i - 1], run[i], p, Found(jobs, run, who, i - 1, p));
    }
  }

  /** The publisher's name was taken and, when it came to compare, by something other than its own pair. */
  predicate MeetsOther(jobs: Jobs, run: seq<State>, who: seq<Pid>, k: int, p: Pid) {
    && 0 <= k < |who| && k < |run| && who[k] == p
    && PhaseOf(run[k], p) == CompareDll && !Offers(run[k].cache, jobs(p))
  }

  lemma {:induction false} FoundAt(jobs: Jobs, run: seq<State>, who: seq<Pid>, i: nat, p: Pid)
    requires i <= |who| && i <= |run|
    ensures false in Found(jobs, run, who, i, p) <==> exists k :: k < i && MeetsOther(jobs, run, who, k, p)
  {
    if i > 0 {
      FoundAt(jobs, run, who, i - 1, p);
      assert MeetsOther(jobs, run, who, i - 1, p) ==> false in Found(jobs, run, who, i, p);
    }
  }

  /** The exact condition, in every interleaving: a publisher that has ended, without an I/O error of its own, left its
      staged DLL behind if and only if at its comparison the cache did not show its own manifest beside a DLL. */
  lemma StagedDllStaysIffOtherPair(
    jobs: Jobs, run: seq<State>, who: seq<Pid>, acts: seq<Action>, i: nat, p: Pid)
    requires IsLabelled(jobs, run, who, acts) && NeverFails(who, acts, p) && i < |run| && PhaseOf(run[i], p).Done?
    ensures p !in run[i].cache.dropped <==> exists k :: k < i && MeetsOther(jobs, run, who, k, p)
  {
    StagedDllStaysIffConflict(jobs, run, who, acts, i, p);
    RunKeepsFound(jobs, run, who, acts, i, p);
    FoundAt(jobs, run, who, i, p);
  }

  // ----- liveness, kept apart

  /** A manifest without its DLL whose publisher will not link it any more. */
  predicate Orphan(s: State, n: string) {
    n in s.cache.ranges && n !in s.cache.dll && PhaseOf(s, s.cache.ranges[n]) != LinkDll
  }

  lemma NoOneLinksOrphan(jobs: Jobs, s: State, p: Pid, a: Action, t: State, n: string)
    requires Inv(jobs, s) && Step(jobs(p), s, p, a) == Some(t) && Orphan(s, n)
    ensures n !in t.cache.dll
  {
    assert PhaseOk(jobs(p), s, p);
  }

  lemma OrphanOwnerIsPastLinking(jobs: Jobs, s: State, p: Pid, a: Action, t: State, n: string)
    requires Inv(jobs, s) && Step(jobs(p), s, p, a) == Some(t) && Orphan(s, n)
    ensures PhaseOf(t, s.cache.ranges[n]) != LinkDll
  {
    assert RangesOk(jobs, s, n);
  }

  lemma StepKeepsOrphan(jobs: Jobs, s: State, t: State, n: string)
    requires Inv(jobs, s) && Next(jobs, s, t) && Orphan(s, n)
    ensures Orphan(t, n) && VisibleText(t.cache, n) == VisibleText(s.cache, n)
  {
    var p, a :| Step(jobs(p), s, p, a) == Some(t);
    StepKeepsCache(jobs, s, p, a, t);
    NoOneLinksOrphan(jobs, s, p, a, t, n);
    OrphanOwnerIsPastLinking(jobs, s, p, a, t, n);
  }

  /** A stop between the two links blocks the stem for good: no later publisher ever makes the DLL
      visible, and readers keep seeing the orphan's manifest. */
  lemma {:induction false} OrphanBlocksForever(jobs: Jobs, run: seq<State>, i: nat, j: nat, n: string)
    requires IsRun(jobs, run) && i <= j < |run| && Orphan(run[i], n)
    ensures Orphan(run[j], n) && VisibleText(run[j].cache, n) == VisibleText(run[i].cache, n)
    decreases j
  {
    if i < j {
      OrphanBlocksForever(jobs, run, i, j - 1, n);
      RunKeepsInv(jobs, run, j - 1);
      assert Next(jobs, run[j - 1], run[j - 1 + 1]);
      StepKeepsOrphan(jobs, run[j - 1], run[j], n);
    }
  }

  /** The cache after a publisher stopped between its two links, and nothing else happened. */
  function HalfDone(job: Job, p: Pid): Cache {
    Cache(map[], map[job.stem := p], map[p := job.manifest], {p}, {})
  }

  /** A cache with one publisher, at some point. */
  function Solo(c: Cache, p: Pid, phase: Phase): State {
    State(c, map[p := phase])
  }

  lemma SoloMoves(c: Cache, p: Pid, phase: Phase, next: Phase, d: Cache)
    ensures AtWith(Solo(c, p, phase), p, next, d) == Solo(d, p, next)
    ensures At(Solo(c, p, phase), p, next) == Solo(c, p, next) && PhaseOf(Solo(c, p, phase), p) == phase
  {
    assert map[p := phase][p := next] == map[p := next];
  }

  /** The cache with the temporary file alone, holding `text`. */
  function Staged(p: Pid, text: string): Cache {
    Cache(map[], map[], map[p := text], {p}, {})
  }

  lemma SoloStages(job: Job, p: Pid)
    ensures Step(job, EMPTY, p, Go) == Some(Solo(EMPTY.cache, p, CheckRanges))
    ensures Step(job, Solo(EMPTY.cache, p, CheckRanges), p, Go) == Some(Solo(EMPTY.cache, p, MakeTemp))
    ensures Step(job, Solo(EMPTY.cache, p, MakeTemp), p, Go) == Some(Solo(Staged(p, ""), p, Write))
  {
    SoloMoves(EMPTY.cache, p, CheckRanges, MakeTemp, EMPTY.cache);
    SoloMoves(EMPTY.cache, p, MakeTemp, Write, Staged(p, ""));
    assert EMPTY.cache.text[p := ""] == map[p := ""] && EMPTY.cache.temps + {p} == {p};
  }

  lemma SoloWrites(job: Job, p: Pid)
    ensures Step(job, Solo(Staged(p, ""), p, Write), p, WriteSome(|job.manifest|))
            == Some(Solo(Staged(p, job.manifest), p, Write))
  {
    SoloMoves(Staged(p, ""), p, Write, Write, Staged(p, job.manifest));
    assert job.manifest[..|job.manifest|] == job.manifest;
    assert map[p := ""][p := job.manifest] == map[p := job.manifest];
  }

  lemma SoloLinks(job: Job, p: Pid)
    ensures Step(job, Solo(Staged(p, job.manifest), p, Write), p, Go)
            == Some(Solo(Staged(p, job.manifest), p, LinkRanges))
    ensures Step(job, Solo(Staged(p, job.manifest), p, LinkRanges), p, Go) == Some(Solo(HalfDone(job, p), p, LinkDll))
    ensures Step(job, Solo(HalfDone(job, p), p, LinkDll), p, Stop) == Some(Solo(HalfDone(job, p), p, Stopped))
  {
    var c := Staged(p, job.manifest);
    SoloMoves(c, p, Write, LinkRanges, c);
    SoloMoves(c, p, LinkRanges, LinkDll, HalfDone(job, p));
    SoloMoves(HalfDone(job, p), p, LinkDll, Stopped, HalfDone(job, p));
    assert c.ranges[job.stem := p] == map[job.stem := p];
  }

  /** Every job can end that way: from an empty cache, its publisher links the manifest and stops. */
  lemma StopLeavesOrphan(jobs: Jobs, p: Pid) returns (run: seq<State>)
    ensures IsRun(jobs, run)
    ensures run[|run| - 1] == Solo(HalfDone(jobs(p), p), p, Stopped)
    ensures Orphan(run[|run| - 1], jobs(p).stem)
  {
    var job := jobs(p);
    var (none, written, linked) := (EMPTY.cache, Staged(p, job.manifest), HalfDone(job, p));
    run := [
      EMPTY, Solo(none, p, CheckRanges), Solo(none, p, MakeTemp), Solo(Staged(p, ""), p, Write),
      Solo(written, p, Write),
      Solo(written, p, LinkRanges), Solo(linked, p, LinkDll), Solo(linked, p, Stopped)];
    SoloStages(job, p);
    SoloWrites(job, p);
    SoloLinks(job, p);
    ghost var acts := [Go, Go, Go, WriteSome(|job.manifest|), Go, Go, Stop];
    forall i | 0 <= i < 7 ensures Next(jobs, run[i], run[i + 1]) {
      assert Step(jobs(p), run[i], p, acts[i]) == Some(run[i + 1]);
    }
  }

  /** What a second publisher of a stem does when it meets an orphan: check, check, compare. */
  lemma LaterComers(job: Job, c: Cache, p: Pid, phase: Phase, q: Pid) returns (t: State, u: State, v: State)
    requires q != p && job.stem !in c.dll && job.stem in c.ranges
    ensures Step(job, Solo(c, p, phase), q, Go) == Some(t) && Step(job, t, q, Go) == Some(u)
            && Step(job, u, q, Go) == Some(v)
    ensures v.cache == c && PhaseOf(v, q) == Done(Conflict)
  {
    var s := Solo(c, p, phase);
    t := At(s, q, CheckRanges);
    u := At(t, q, CompareDll);
    v := At(u, q, Done(Conflict));
  }

  lemma RunOneMore(jobs: Jobs, run: seq<State>, p: Pid, a: Action, t: State)
    requires IsRun(jobs, run) && Step(jobs(p), run[|run| - 1], p, a) == Some(t)
    ensures IsRun(jobs, run + [t])
  {
    forall i | 0 <= i < |run| ensures Next(jobs, (run + [t])[i], (run + [t])[i + 1]) {
      if i < |run| - 1 { assert Next(jobs, run[i], run[i + 1]); }
    }
  }

  /** It happens: behind a stopped publisher, any other publisher of the stem ends in a conflict, with no error of its
      own, and its staged DLL is still there. */
  lemma ConflictLeavesStagedDll(jobs: Jobs, p: Pid, q: Pid) returns (run: seq<State>)
    requires p != q && jobs(p).stem == jobs(q).stem
    ensures IsRun(jobs, run)
    ensures PhaseOf(run[|run| - 1], q) == Done(Conflict) && q !in run[|run| - 1].cache.dropped
  {
    run := StopLeavesOrphan(jobs, p);
    var t, u, v := LaterComers(jobs(q), HalfDone(jobs(p), p), p, Stopped, q);
    RunOneMore(jobs, run, q, Go, t);
    RunOneMore(jobs, run + [t], q, Go, u);
    RunOneMore(jobs, run + [t] + [u], q, Go, v);
    run := run + [t] + [u] + [v];
  }

  /** How orphans arise: whatever the owner of a lone manifest does next, either its DLL becomes
      visible or the stem is orphaned. An error at the second link does not take the first back. */
  lemma SecondLinkDecides(jobs: Jobs, s: State, p: Pid, a: Action, t: State)
    requires Inv(jobs, s) && PhaseOf(s, p) == LinkDll && Step(jobs(p), s, p, a) == Some(t)
    ensures jobs(p).stem in t.cache.dll || Orphan(t, jobs(p).stem)
    ensures jobs(p).stem in t.cache.dll <==> a == Go && p !in s.cache.dropped
  {
    assert PhaseOk(jobs(p), s, p);
  }

  function Rank(phase: Phase): nat {
    match phase
    case CheckDll => 12
    case CheckRanges => 11
    case CompareDll => 10
    case CompareRanges => 9
    case CompareText => 8
    case DropStaged => 7
    case MakeTemp => 6
    case Write => 5
    case LinkRanges => 4
    case LinkDll => 3
    case DropTemp(_) => 2
    case DropDll(_) => 1
    case _ => 0
  }

  /** A publisher left alone, without errors, writing its manifest in one piece. */
  function Alone(job: Job, s: State, p: Pid): State
    decreases Rank(PhaseOf(s, p)), if TextBy(s.cache, p) == job.manifest then 0 else 1
  {
    var phase := PhaseOf(s, p);
    if phase.Done? || phase.Stopped? then s
    else if phase == Write && TextBy(s.cache, p) != job.manifest then
      assert job.manifest[..|job.manifest|] == job.manifest;
      Alone(job, AtWith(s, p, Write, s.cache.(text := s.cache.text[p := job.manifest])), p)
    else Alone(job, DoGo(job, s, p).value, p)
  }

  lemma AloneGoes(job: Job, s: State, p: Pid) returns (t: State)
    requires !PhaseOf(s, p).Done? && !PhaseOf(s, p).Stopped?
    requires PhaseOf(s, p) == Write ==> TextBy(s.cache, p) == job.manifest
    ensures DoGo(job, s, p) == Some(t) && Alone(job, t, p) == Alone(job, s, p)
  {
    t := DoGo(job, s, p).value;
  }

  /** From the first link on, a publisher whose names are free gets through. */
  lemma AloneLinks(job: Job, s: State, p: Pid)
    requires PhaseOf(s, p) == LinkRanges && p !in s.cache.dropped
    requires job.stem !in s.cache.ranges && job.stem !in s.cache.dll
    ensures PhaseOf(Alone(job, s, p), p) == Done(Published)
  {
    var t := AloneGoes(job, s, p);
    t := AloneGoes(job, t, p);
    t := AloneGoes(job, t, p);
    t := AloneGoes(job, t, p);
  }

  lemma AlonePublishes(job: Job, s: State, p: Pid)
    requires PhaseOf(s, p) == MakeTemp && p !in s.cache.dropped
    requires job.stem !in s.cache.ranges && job.stem !in s.cache.dll
    ensures PhaseOf(Alone(job, s, p), p) == Done(Published)
  {
    var t := AloneGoes(job, s, p);
    if job.manifest != "" {
      t := AtWith(t, p, Write, t.cache.(text := t.cache.text[p := job.manifest]));
    }
    t := AloneGoes(job, t, p);
    AloneLinks(job, t, p);
  }

  lemma AloneCompares(job: Job, s: State, p: Pid)
    requires PhaseOf(s, p) == CompareDll
    ensures var (n, c) := (job.stem, s.cache);
            PhaseOf(Alone(job, s, p), p)
            == if n !in c.dll || n !in c.ranges then Done(Conflict)
               else if VisibleText(c, n) == Some(job.manifest) then Done(AlreadyPublished) else Done(Conflict)
  {
    var t := AloneGoes(job, s, p);
    if job.stem in s.cache.dll {
      t := AloneGoes(job, t, p);
      if job.stem in s.cache.ranges {
        t := AloneGoes(job, t, p);
        if VisibleText(s.cache, job.stem) == Some(job.manifest) {
          t := AloneGoes(job, t, p);
        }
      }
    }
  }

  /** What publishing does when nothing interferes: it succeeds exactly when the stem is free or
      already carries this manifest beside its DLL; an orphan or another manifest is a conflict. */
  lemma AloneOutcome(jobs: Jobs, s: State, p: Pid)
    requires Inv(jobs, s) && PhaseOf(s, p) == CheckDll && p !in s.cache.dropped
    ensures var (n, c) := (jobs(p).stem, s.cache);
            PhaseOf(Alone(jobs(p), s, p), p)
            == if n !in c.dll && n !in c.ranges then Done(Published)
               else if n in c.dll && VisibleText(c, n) == Some(jobs(p).manifest) then Done(AlreadyPublished)
               else Done(Conflict)
  {
    assert DllOk(s, jobs(p).stem);
    var t := AloneGoes(jobs(p), s, p);
    if PhaseOf(t, p) == CheckRanges {
      t := AloneGoes(jobs(p), t, p);
    }
    if PhaseOf(t, p) == MakeTemp {
      AlonePublishes(jobs(p), t, p);
    } else {
      AloneCompares(jobs(p), t, p);
    }
  }

  lemma AloneLinksDrop(job: Job, s: State, p: Pid)
    requires PhaseOf(s, p) in {LinkRanges, LinkDll, DropTemp(true), DropTemp(false), DropDll(true), DropDll(false)}
    ensures p in Alone(job, s, p).cache.dropped
    decreases Rank(PhaseOf(s, p))
  {
    var t := AloneGoes(job, s, p);
    if !PhaseOf(t, p).Done? {
      AloneLinksDrop(job, t, p);
    }
  }

  lemma AlonePublishesDrop(job: Job, s: State, p: Pid)
    requires PhaseOf(s, p) == MakeTemp
    ensures p in Alone(job, s, p).cache.dropped
  {
    var t := AloneGoes(job, s, p);
    if job.manifest != "" {
      t := AtWith(t, p, Write, t.cache.(text := t.cache.text[p := job.manifest]));
    }
    t := AloneGoes(job, t, p);
    AloneLinksDrop(job, t, p);
  }

  lemma AloneComparesDrop(job: Job, s: State, p: Pid)
    requires PhaseOf(s, p) == CompareDll && p !in s.cache.dropped
    ensures p in Alone(job, s, p).cache.dropped <==> Offers(s.cache, job)
  {
    var t := AloneGoes(job, s, p);
    if job.stem in s.cache.dll {
      t := AloneGoes(job, t, p);
      if job.stem in s.cache.ranges {
        t := AloneGoes(job, t, p);
        if VisibleText(s.cache, job.stem) == Some(job.manifest) {
          t := AloneGoes(job, t, p);
        }
      }
    }
  }

  /** A condition the caller can check: a publisher left alone removes its staged DLL if and only if the stem is free,
      or already shows this manifest beside a DLL. */
  lemma AloneDropsStagedDllIff(jobs: Jobs, s: State, p: Pid)
    requires Inv(jobs, s) && PhaseOf(s, p) == CheckDll && p !in s.cache.dropped
    ensures var (n, c) := (jobs(p).stem, s.cache);
            p in Alone(jobs(p), s, p).cache.dropped <==> (n !in c.dll && n !in c.ranges) || Offers(c, jobs(p))
  {
    assert DllOk(s, jobs(p).stem);
    var t := AloneGoes(jobs(p), s, p);
    if PhaseOf(t, p) == CheckRanges {
      t := AloneGoes(jobs(p), t, p);
    }
    if PhaseOf(t, p) == MakeTemp {
      AlonePublishesDrop(jobs(p), t, p);
    } else {
      AloneComparesDrop(jobs(p), t, p);
    }
  }
}
