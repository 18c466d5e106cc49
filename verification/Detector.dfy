/** The anti-blinker gate of the missing-patch detector. A frame comes with the bounding box of its
    deviation mask and whether the deviation was localized; both are inputs here. */
module Detector {
  import opened Basics

  datatype Box = Box(x0: int, y0: int, x1: int, y1: int)

  /** A measured frame, or one seen before the baseline has enough history. */
  datatype Frame = NoBaseline | Measured(bbox: Option<Box>, localized: bool)

  datatype Shot = Shot(frame: Frame, time: real)

  datatype Event = Event(time: real, bbox: Option<Box>)

  function Area(b: Box): int {
    (b.x1 - b.x0) * (b.y1 - b.y0)
  }

  /** Intersection over union, 0 when there is no overlap or no box. */
  function Overlap(a: Option<Box>, b: Option<Box>): real {
    if a.None? || b.None? then 0.0
    else
      var ix0, iy0 := Max(a.value.x0, b.value.x0), Max(a.value.y0, b.value.y0);
      var ix1, iy1 := Min(a.value.x1, b.value.x1), Min(a.value.y1, b.value.y1);
      if ix1 <= ix0 || iy1 <= iy0 then 0.0
      else
        var inter := (ix1 - ix0) * (iy1 - iy0);
        var union := Area(a.value) + Area(b.value) - inter;
        if union <= 0 then 0.0 else inter as real / union as real
  }

  predicate Covers(b: Box, x: int, y: int) {
    b.x0 <= x < b.x1 && b.y0 <= y < b.y1
  }

  lemma ProductsGrow(a: int, b: int, c: int, d: int)
    requires 0 < a <= c && 0 < b <= d
    ensures 0 < a * b <= c * d
    ensures a * b == c * d ==> a == c && b == d
  {
    PositiveProduct(a, b);
    assert c * d == a * b + a * (d - b) + (c - a) * d;
    if d > b { PositiveProduct(a, d - b); }
    if c > a { PositiveProduct(c - a, d); }
  }

  lemma RatioBounds(part: int, whole: int)
    requires 0 < part <= whole
    ensures 0.0 < part as real / whole as real <= 1.0
    ensures part as real / whole as real == 1.0 <==> part == whole
  {
    var r := part as real / whole as real;
    assert r * whole as real == part as real;
  }

  /** The overlap of two boxes is a symmetric fraction: 0 when they share no pixel and only then, 1 when they
      are the same box and only then. */
  lemma OverlapIsAFraction(a: Box, b: Box)
    requires a.x0 < a.x1 && a.y0 < a.y1 && b.x0 < b.x1 && b.y0 < b.y1
    ensures 0.0 <= Overlap(Some(a), Some(b)) <= 1.0
    ensures Overlap(Some(a), Some(b)) == Overlap(Some(b), Some(a))
    ensures Overlap(Some(a), Some(b)) > 0.0 <==> exists x, y :: Covers(a, x, y) && Covers(b, x, y)
    ensures Overlap(Some(a), Some(b)) == 1.0 <==> a == b
  {
    var (ix0, iy0) := (Max(a.x0, b.x0), Max(a.y0, b.y0));
    var (w, h) := (Min(a.x1, b.x1) - ix0, Min(a.y1, b.y1) - iy0);
    if w > 0 && h > 0 {
      assert Covers(a, ix0, iy0) && Covers(b, ix0, iy0);
      ProductsGrow(w, h, a.x1 - a.x0, a.y1 - a.y0);
      ProductsGrow(w, h, b.x1 - b.x0, b.y1 - b.y0);
      RatioBounds(w * h, Area(a) + Area(b) - w * h);
    } else {
      assert forall x, y :: !(Covers(a, x, y) && Covers(b, x, y));
    }
  }

  lemma OverlapWithSelf(b: Box)
    requires b.x0 < b.x1 && b.y0 < b.y1
    ensures Overlap(Some(b), Some(b)) == 1.0
  {
    OverlapIsAFraction(b, b);
  }

  lemma PositiveProduct(a: int, b: int)
    requires a > 0 && b > 0
    ensures a * b > 0
  {
  }

  type Region = Option<Box>

  /** The limiter's settings; `same` says whether a new region repeats an earlier one. */
  datatype Limits = Limits(blinkK: int, window: real, same: (Region, Region) -> bool)

  function IouLimits(blinkK: int, window: real, iou: real): Limits {
    Limits(blinkK, window, (a: Region, b: Region) => Overlap(a, b) >= iou)
  }

  /** How many of the events lie in the same region as `bbox`. */
  function CountSame(l: Limits, events: seq<Event>, bbox: Region): nat {
    if bbox.None? || events == [] then 0
    else CountSame(l, events[..|events| - 1], bbox) + (if l.same(bbox, events[|events| - 1].bbox) then 1 else 0)
  }

  // ----- the detector

  /** The queue drops expired events from its front, and stops at the first that is not. */
  function DropWhileExpired(queue: seq<Event>, cutoff: real): seq<Event> {
    if queue == [] || queue[0].time >= cutoff then queue else DropWhileExpired(queue[1..], cutoff)
  }

  predicate QueueFlags(l: Limits, queue: seq<Event>, shot: Shot) {
    && shot.frame.Measured? && shot.frame.localized
    && CountSame(l, DropWhileExpired(queue, shot.time - l.window), shot.frame.bbox) <= l.blinkK
  }

  function QueueAfter(l: Limits, queue: seq<Event>, shot: Shot): seq<Event> {
    DropWhileExpired(queue, shot.time - l.window)
    + (if QueueFlags(l, queue, shot) then [Event(shot.time, shot.frame.bbox)] else [])
  }

  function Latest(s: seq<bool>, n: nat): (r: seq<bool>)
    ensures |r| <= n
  {
    if |s| <= n then s else s[|s| - n..]
  }

  /** The length of the run of deviating frames that ends now. */
  function TrailingTrue(s: seq<bool>): (n: nat)
    ensures n <= |s|
  {
    if s == [] || !s[|s| - 1] then 0 else 1 + TrailingTrue(s[..|s| - 1])
  }

  class MissingPatchDetector {
    const limits: Limits
    const reversionWindow: nat
    var recentFlags: seq<Event>
    var reversionBuf: seq<bool>

    constructor (limits: Limits, reversionWindow: nat)
      ensures this.limits == limits && this.reversionWindow == reversionWindow
      ensures recentFlags == [] && reversionBuf == []
    {
      this.limits, this.reversionWindow := limits, reversionWindow;
      recentFlags, reversionBuf := [], [];
    }

    method DropExpired(now: real)
      modifies this`recentFlags
      ensures recentFlags == DropWhileExpired(old(recentFlags), now - limits.window)
    {
      var cutoff := now - limits.window;
      while recentFlags != [] && recentFlags[0].time < cutoff
        invariant DropWhileExpired(recentFlags, cutoff) == DropWhileExpired(old(recentFlags), cutoff)
        decreases |recentFlags|
      {
        recentFlags := recentFlags[1..];
      }
    }

    method CountSameRegion(bbox: Option<Box>) returns (n: nat)
      ensures n == CountSame(limits, recentFlags, bbox)
    {
      if bbox.None? {
        return 0;
      }
      n := 0;
      for i := 0 to |recentFlags|
        invariant n == CountSame(limits, recentFlags[..i], bbox)
      {
        assert recentFlags[..i + 1][..i] == recentFlags[..i];
        if limits.same(bbox, recentFlags[i].bbox) {
          n := n + 1;
        }
      }
      assert recentFlags[..|recentFlags|] == recentFlags;
    }

    method ConsecutiveDev() returns (n: nat)
      ensures n == TrailingTrue(reversionBuf)
    {
      n := 0;
      assert reversionBuf[..|reversionBuf|] == reversionBuf;
      while n < |reversionBuf| && reversionBuf[|reversionBuf| - 1 - n]
        invariant n <= |reversionBuf|
        invariant TrailingTrue(reversionBuf) == n + TrailingTrue(reversionBuf[..|reversionBuf| - n])
      {
        assert reversionBuf[..|reversionBuf| - n][..|reversionBuf| - n - 1] == reversionBuf[..|reversionBuf| - n - 1];
        n := n + 1;
      }
    }

    method Score(shot: Shot) returns (flagged: bool, consecutiveDev: nat)
      modifies this
      ensures flagged == QueueFlags(limits, old(recentFlags), shot)
      ensures recentFlags == QueueAfter(limits, old(recentFlags), shot)
      ensures reversionBuf
              == Latest(old(reversionBuf) + [shot.frame.Measured? && shot.frame.localized], reversionWindow)
      ensures consecutiveDev == TrailingTrue(reversionBuf)
    {
      var localized := shot.frame.Measured? && shot.frame.localized;
      DropExpired(shot.time);
      var sameRegion := 0;
      if localized {
        sameRegion := CountSameRegion(shot.frame.bbox);
      }
      var periodic := sameRegion > limits.blinkK;
      reversionBuf := Latest(reversionBuf + [localized], reversionWindow);
      consecutiveDev := ConsecutiveDev();
      flagged := localized && !periodic;
      if flagged {
        recentFlags := recentFlags + [Event(shot.time, shot.frame.bbox)];
      }
    }
  }

  // ----- whole runs

  /** The queue after a run of `Score` calls on a fresh detector, and everything it flagged. */
  datatype Outcome = Outcome(queue: seq<Event>, flagged: seq<Event>)

  /** A run with one more shot. */
  function Then(l: Limits, o: Outcome, shot: Shot): Outcome {
    Outcome(
      QueueAfter(l, o.queue, shot),
      o.flagged + if QueueFlags(l, o.queue, shot) then [Event(shot.time, shot.frame.bbox)] else [])
  }

  function Run(l: Limits, shots: seq<Shot>): Outcome {
    if shots == [] then Outcome([], [])
    else Then(l, Run(l, shots[..|shots| - 1]), shots[|shots| - 1])
  }

  ghost predicate InOrder(shots: seq<Shot>) {
    |shots| <= 1 || (shots[|shots| - 2].time <= shots[|shots| - 1].time && InOrder(shots[..|shots| - 1]))
  }

  /** The events not older than the window, wherever they stand: what the limiter means to look at. */
  function Trailing(events: seq<Event>, now: real, window: real): seq<Event> {
    if events == [] then []
    else
      var earlier := Trailing(events[..|events| - 1], now, window);
      if events[|events| - 1].time < now - window then earlier else earlier + [events[|events| - 1]]
  }

  ghost predicate SortedUntil(events: seq<Event>, now: real) {
    forall i, j :: 0 <= i <= j < |events| ==> events[i].time <= events[j].time <= now
  }

  ghost predicate ExpiredBefore(events: seq<Event>, from: nat, cutoff: real) {
    from <= |events| && forall i :: 0 <= i < from ==> events[i].time < cutoff
  }

  lemma {:induction false} TrailingIsSuffix(events: seq<Event>, from: nat, now: real, window: real)
    requires from <= |events|
    requires forall i :: 0 <= i < from ==> events[i].time < now - window
    requires forall i :: from <= i < |events| ==> events[i].time >= now - window
    ensures Trailing(events, now, window) == events[from..]
  {
    if events != [] {
      var n := |events| - 1;
      if from <= n {
        TrailingIsSuffix(events[..n], from, now, window);
        assert events[from..] == events[..n][from..] + [events[n]];
      } else {
        TrailingIsSuffix(events[..n], n, now, window);
      }
    }
  }

  /** Dropping from the front of what is left of a sorted history keeps exactly the window. */
  lemma {:induction false} DropIsTrailing(events: seq<Event>, from: nat, now: real, window: real) returns (to: nat)
    requires SortedUntil(events, now) && ExpiredBefore(events, from, now - window)
    ensures ExpiredBefore(events, to, now - window)
    ensures DropWhileExpired(events[from..], now - window) == events[to..] == Trailing(events, now, window)
    decreases |events| - from
  {
    if from == |events| || events[from].time >= now - window {
      TrailingIsSuffix(events, from, now, window);
      to := from;
    } else {
      assert events[from..][1..] == events[from + 1..];
      to := DropIsTrailing(events, from + 1, now, window);
    }
  }

  lemma ThenKeepsWindow(l: Limits, o: Outcome, from: nat, shot: Shot) returns (to: nat)
    requires SortedUntil(o.flagged, shot.time) && ExpiredBefore(o.flagged, from, shot.time - l.window)
    requires o.queue == o.flagged[from..]
    ensures DropWhileExpired(o.queue, shot.time - l.window) == Trailing(o.flagged, shot.time, l.window)
    ensures SortedUntil(Then(l, o, shot).flagged, shot.time)
    ensures ExpiredBefore(Then(l, o, shot).flagged, to, shot.time - l.window)
    ensures Then(l, o, shot).queue == Then(l, o, shot).flagged[to..]
  {
    to := DropIsTrailing(o.flagged, from, shot.time, l.window);
    if QueueFlags(l, o.queue, shot) {
      AppendKeepsWindow(o.flagged, to, Event(shot.time, shot.frame.bbox), shot.time - l.window);
    }
  }

  lemma AppendKeepsWindow(events: seq<Event>, from: nat, e: Event, cutoff: real)
    requires SortedUntil(events, e.time) && ExpiredBefore(events, from, cutoff)
    ensures SortedUntil(events + [e], e.time) && ExpiredBefore(events + [e], from, cutoff)
    ensures (events + [e])[from..] == events[from..] + [e]
  {
  }

  lemma WindowLater(events: seq<Event>, from: nat, before: real, now: real, window: real)
    requires SortedUntil(events, before) && ExpiredBefore(events, from, before - window) && before <= now
    ensures SortedUntil(events, now) && ExpiredBefore(events, from, now - window)
  {
  }

  /** After any run in order, the queue is what is left of the history behind expired events. */
  lemma {:induction false} RunKeepsWindow(l: Limits, shots: seq<Shot>, now: real) returns (from: nat)
    requires InOrder(shots) && (shots != [] ==> shots[|shots| - 1].time <= now)
    ensures SortedUntil(Run(l, shots).flagged, now)
    ensures ExpiredBefore(Run(l, shots).flagged, from, now - l.window)
    ensures Run(l, shots).queue == Run(l, shots).flagged[from..]
  {
    from := 0;
    if shots != [] {
      var front, shot := shots[..|shots| - 1], shots[|shots| - 1];
      from := RunKeepsWindow(l, front, shot.time);
      from := ThenKeepsWindow(l, Run(l, front), from, shot);
      WindowLater(Run(l, shots).flagged, from, shot.time, now, l.window);
    }
  }

  /** The rule the limiter stands for, with no queue and no expiry. */
  predicate HistoryFlags(l: Limits, history: seq<Event>, shot: Shot) {
    && shot.frame.Measured? && shot.frame.localized
    && CountSame(l, Trailing(history, shot.time, l.window), shot.frame.bbox) <= l.blinkK
  }

  lemma DropDecides(l: Limits, o: Outcome, from: nat, shot: Shot)
    requires SortedUntil(o.flagged, shot.time) && ExpiredBefore(o.flagged, from, shot.time - l.window)
    requires o.queue == o.flagged[from..]
    ensures QueueFlags(l, o.queue, shot) == HistoryFlags(l, o.flagged, shot)
  {
    var to := DropIsTrailing(o.flagged, from, shot.time, l.window);
  }

  /** With non-decreasing timestamps the queue decides every shot as the whole history would: a
      localized frame is flagged exactly when at most blinkK flagged events of its region, anywhere
      in the past, are inside the window. */
  lemma QueueDecidesLikeHistory(l: Limits, shots: seq<Shot>, shot: Shot)
    requires InOrder(shots) && (shots != [] ==> shots[|shots| - 1].time <= shot.time)
    ensures QueueFlags(l, Run(l, shots).queue, shot) == HistoryFlags(l, Run(l, shots).flagged, shot)
  {
    var from := RunKeepsWindow(l, shots, shot.time);
    DropDecides(l, Run(l, shots), from, shot);
  }

  // ----- how much of one region gets through

  /** Says of two timestamps, the earlier shot's first, whether they count as lying in one window. */
  type Together = (real, real) -> bool

  /** A window of length `window` holds no two shots of which the second is later by more than that. */
  ghost predicate FitsWindow(near: Together, window: real) {
    forall a, b :: near(a, b) ==> b - a <= window
  }

  /** Two shots at most `window` apart. */
  function Within(window: real): Together {
    (a, b) => -window <= b - a <= window
  }

  function Clock(shots: seq<Shot>): seq<real> {
    if shots == [] then [] else Clock(shots[..|shots| - 1]) + [shots[|shots| - 1].time]
  }

  /** A reading that a later one leaves behind by more than the window is not met again: no reading after
      both lies in one window with it. Clocks that never step back satisfy this, and so do clocks whose
      steps back stay clear of what has expired. */
  ghost predicate NoReturn(clock: seq<real>, window: real, near: Together) {
    forall i, k, j :: 0 <= i < k < j < |clock| && clock[i] < clock[k] - window ==> !near(clock[i], clock[j])
  }

  /** Flagged events, by increasing position, that a viewer would call one blinking region inside
      one window. */
  ghost predicate Burst(l: Limits, near: Together, events: seq<Event>, chosen: seq<nat>) {
    && (forall i :: 0 <= i < |chosen| ==> chosen[i] < |events| && events[chosen[i]].bbox.Some?)
    && (forall i, j :: 0 <= i < j < |chosen| ==>
          && chosen[i] < chosen[j]
          && near(events[chosen[i]].time, events[chosen[j]].time)
          && l.same(events[chosen[j]].bbox, events[chosen[i]].bbox))
  }

  lemma {:induction false} ClockReads(shots: seq<Shot>, i: nat)
    requires i < |shots|
    ensures |Clock(shots)| == |shots| && Clock(shots)[i] == shots[i].time
  {
    if i < |shots| - 1 {
      ClockReads(shots[..|shots| - 1], i);
    } else if i > 0 {
      ClockReads(shots[..|shots| - 1], i - 1);
    }
  }

  lemma {:induction false} ClockRises(shots: seq<Shot>, i: nat, j: nat)
    requires InOrder(shots) && i <= j < |shots|
    ensures |Clock(shots)| == |shots| && Clock(shots)[i] <= Clock(shots)[j]
  {
    var n := |shots| - 1;
    ClockReads(shots, i);
    ClockReads(shots, j);
    if i < n {
      ClockReads(shots, n - 1);
      ClockRises(shots[..n], i, if j < n then j else n - 1);
      ClockReads(shots[..n], i);
      ClockReads(shots[..n], if j < n then j else n - 1);
    }
  }

  lemma ClockKeepsLength(shots: seq<Shot>)
    ensures |Clock(shots)| == |shots|
  {
    if shots != [] {
      ClockReads(shots, 0);
    }
  }

  /** Timestamps that never step back never return. */
  lemma InOrderNeverReturns(shots: seq<Shot>, window: real, near: Together)
    requires InOrder(shots) && FitsWindow(near, window)
    ensures NoReturn(Clock(shots), window, near)
  {
    ClockKeepsLength(shots);
    forall i, k, j | 0 <= i < k < j < |shots| && Clock(shots)[i] < Clock(shots)[k] - window
      ensures !near(Clock(shots)[i], Clock(shots)[j])
    {
      ClockRises(shots, k, j);
    }
  }

  /** The reading `t` was left behind by a later one. */
  ghost predicate LeftBehind(clock: seq<real>, t: real, window: real) {
    exists i, k :: 0 <= i < k < |clock| && clock[i] == t < clock[k] - window
  }

  lemma LeftBehindLater(clock: seq<real>, t: real, window: real, now: real)
    requires LeftBehind(clock, t, window)
    ensures LeftBehind(clock + [now], t, window)
  {
    var i, k :| 0 <= i < k < |clock| && clock[i] == t < clock[k] - window;
    assert (clock + [now])[i] == t < (clock + [now])[k] - window;
  }

  lemma LeftBehindNow(clock: seq<real>, t: real, window: real, now: real)
    requires t in clock && t < now - window
    ensures LeftBehind(clock + [now], t, window)
  {
    var i :| 0 <= i < |clock| && clock[i] == t;
    assert (clock + [now])[i] == t < (clock + [now])[|clock|] - window;
  }

  /** Dropping takes a stretch of expired events off the front, in any order of timestamps. */
  lemma {:induction false} DropIsSuffix(events: seq<Event>, from: nat, cutoff: real) returns (to: nat)
    requires from <= |events|
    ensures from <= to <= |events| && DropWhileExpired(events[from..], cutoff) == events[to..]
    ensures forall m :: from <= m < to ==> events[m].time < cutoff
    decreases |events| - from
  {
    to := from;
    if from < |events| && events[from].time < cutoff {
      assert events[from..][1..] == events[from + 1..];
      to := DropIsSuffix(events, from + 1, cutoff);
    }
  }

  /** Whatever the clock does, the queue is a suffix of the history, and what it lost was left behind. */
  ghost predicate QueueIsSuffix(o: Outcome, clock: seq<real>, window: real, from: nat) {
    && from <= |o.flagged| && o.queue == o.flagged[from..]
    && (forall m :: 0 <= m < |o.flagged| ==> o.flagged[m].time in clock)
    && (forall m :: 0 <= m < from ==> LeftBehind(clock, o.flagged[m].time, window))
  }

  lemma ThenKeepsSuffix(l: Limits, o: Outcome, clock: seq<real>, from: nat, shot: Shot) returns (to: nat)
    requires QueueIsSuffix(o, clock, l.window, from)
    ensures QueueIsSuffix(Then(l, o, shot), clock + [shot.time], l.window, to)
  {
    to := DropIsSuffix(o.flagged, from, shot.time - l.window);
    forall m | 0 <= m < to
      ensures LeftBehind(clock + [shot.time], o.flagged[m].time, l.window)
    {
      if m < from {
        LeftBehindLater(clock, o.flagged[m].time, l.window, shot.time);
      } else {
        LeftBehindNow(clock, o.flagged[m].time, l.window, shot.time);
      }
    }
  }

  lemma {:induction false} RunKeepsSuffix(l: Limits, shots: seq<Shot>) returns (from: nat)
    ensures QueueIsSuffix(Run(l, shots), Clock(shots), l.window, from)
  {
    from := 0;
    if shots != [] {
      var front, shot := shots[..|shots| - 1], shots[|shots| - 1];
      from := RunKeepsSuffix(l, front);
      from := ThenKeepsSuffix(l, Run(l, front), Clock(front), from, shot);
    }
  }

  lemma CountAppend(l: Limits, events: seq<Event>, e: Event, bbox: Region)
    requires bbox.Some?
    ensures CountSame(l, events + [e], bbox) == CountSame(l, events, bbox) + if l.same(bbox, e.bbox) then 1 else 0
  {
    assert (events + [e])[..|events + [e]| - 1] == events;
  }

  /** Every chosen event that is still queued is one that the count sees. */
  lemma {:induction false} ChosenAreCounted(l: Limits, events: seq<Event>, from: nat, chosen: seq<nat>, bbox: Region)
    requires bbox.Some? && from <= |events|
    requires forall i, j :: 0 <= i < j < |chosen| ==> chosen[i] < chosen[j]
    requires forall i :: 0 <= i < |chosen| ==>
               from <= chosen[i] < |events| && l.same(bbox, events[chosen[i]].bbox)
    ensures |chosen| <= CountSame(l, events[from..], bbox)
    decreases |events|
  {
    if chosen != [] {
      assert from <= chosen[0] < |events|;
      var n := |events| - 1;
      var rest := if chosen[|chosen| - 1] == n then chosen[..|chosen| - 1] else chosen;
      assert forall i :: 0 <= i < |rest| ==> rest[i] == chosen[i] < n;
      ChosenAreCounted(l, events[..n], from, rest, bbox);
      assert events[from..] == events[..n][from..] + [events[n]];
      CountAppend(l, events[..n][from..], events[n], bbox);
    }
  }

  /** What was left behind is in no window with the shot being scored. */
  lemma LeftBehindIsFar(clock: seq<real>, window: real, near: Together, t: real, now: real)
    requires NoReturn(clock + [now], window, near) && LeftBehind(clock, t, window)
    ensures !near(t, now)
  {
    var i, k :| 0 <= i < k < |clock| && clock[i] == t < clock[k] - window;
    assert (clock + [now])[i] == t < (clock + [now])[k] - window && (clock + [now])[|clock|] == now;
  }

  lemma FlaggedMeetsFew(
    l: Limits, near: Together, o: Outcome, clock: seq<real>, from: nat, shot: Shot, earlier: seq<nat>)
    requires QueueIsSuffix(o, clock, l.window, from) && QueueFlags(l, o.queue, shot) && shot.frame.bbox.Some?
    requires FitsWindow(near, l.window) && NoReturn(clock + [shot.time], l.window, near)
    requires forall i, j :: 0 <= i < j < |earlier| ==> earlier[i] < earlier[j]
    requires forall i :: 0 <= i < |earlier| ==>
               && earlier[i] < |o.flagged|
               && near(o.flagged[earlier[i]].time, shot.time)
               && l.same(shot.frame.bbox, o.flagged[earlier[i]].bbox)
    ensures |earlier| <= l.blinkK
  {
    var to := DropIsSuffix(o.flagged, from, shot.time - l.window);
    forall i | 0 <= i < |earlier|
      ensures to <= earlier[i]
    {
      if earlier[i] < from {
        LeftBehindIsFar(clock, l.window, near, o.flagged[earlier[i]].time, shot.time);
        assert false;
      }
    }
    ChosenAreCounted(l, o.flagged, to, earlier, shot.frame.bbox);
  }

  lemma NoReturnBefore(clock: seq<real>, now: real, window: real, near: Together)
    requires NoReturn(clock + [now], window, near)
    ensures NoReturn(clock, window, near)
  {
    forall i, k, j | 0 <= i < k < j < |clock| && clock[i] < clock[k] - window
      ensures !near(clock[i], clock[j])
    {
      assert (clock + [now])[i] == clock[i] && (clock + [now])[k] == clock[k] && (clock + [now])[j] == clock[j];
    }
  }

  /** A burst that ends with the newest event. */
  lemma BurstEndsNow(l: Limits, near: Together, before: seq<Event>, e: Event, chosen: seq<nat>)
    requires Burst(l, near, before + [e], chosen) && chosen != [] && chosen[|chosen| - 1] == |before|
    ensures e.bbox.Some?
    ensures forall i :: 0 <= i < |chosen| - 1 ==>
              && chosen[i] < |before|
              && near(before[chosen[i]].time, e.time)
              && l.same(e.bbox, before[chosen[i]].bbox)
  {
    assert (before + [e])[chosen[|chosen| - 1]] == e;
  }

  /** The guarantee: over any run whose clock does not return, no window holds more than blinkK + 1
      flagged events of one region. */
  lemma {:induction false} BlinkersAreLimited(l: Limits, near: Together, shots: seq<Shot>, chosen: seq<nat>)
    requires FitsWindow(near, l.window) && NoReturn(Clock(shots), l.window, near)
    requires Burst(l, near, Run(l, shots).flagged, chosen)
    ensures |chosen| <= Max(0, l.blinkK + 1)
    decreases |shots|
  {
    if chosen != [] {
      assert chosen[0] < |Run(l, shots).flagged|;
      var front, shot := shots[..|shots| - 1], shots[|shots| - 1];
      var before, newest := Run(l, front).flagged, chosen[|chosen| - 1];
      if newest < |before| {
        NoReturnBefore(Clock(front), shot.time, l.window, near);
        BlinkersAreLimited(l, near, front, chosen);
      } else {
        BurstEndsNow(l, near, before, Event(shot.time, shot.frame.bbox), chosen);
        var from := RunKeepsSuffix(l, front);
        FlaggedMeetsFew(l, near, Run(l, front), Clock(front), from, shot, chosen[..|chosen| - 1]);
      }
    }
  }

  /** In particular for one bounding box that keeps coming back, whatever the overlap threshold. */
  lemma SameBoxIsLimited(
    blinkK: int, window: real, near: Together, iou: real, shots: seq<Shot>, chosen: seq<nat>, b: Box)
    requires FitsWindow(near, window) && NoReturn(Clock(shots), window, near) && iou <= 1.0
    requires b.x0 < b.x1 && b.y0 < b.y1
    requires var events := Run(IouLimits(blinkK, window, iou), shots).flagged;
             && (forall i :: 0 <= i < |chosen| ==> chosen[i] < |events| && events[chosen[i]].bbox == Some(b))
             && (forall i, j :: 0 <= i < j < |chosen| ==>
                   chosen[i] < chosen[j] && near(events[chosen[i]].time, events[chosen[j]].time))
    ensures |chosen| <= Max(0, blinkK + 1)
  {
    OverlapWithSelf(b);
    BlinkersAreLimited(IouLimits(blinkK, window, iou), near, shots, chosen);
  }

  // ----- clocks that return

  /** One box seen at shots `i` and `j`, and quiet frames elsewhere. */
  function TwoHits(clock: seq<real>, i: nat, j: nat, b: Box): (shots: seq<Shot>)
    ensures |shots| == |clock|
  {
    if clock == [] then []
    else
      var n := |clock| - 1;
      var frame := if n == i || n == j then Measured(Some(b), true) else Measured(None, false);
      TwoHits(clock[..n], i, j, b) + [Shot(frame, clock[n])]
  }

  lemma {:induction false} TwoHitsKeepTime(clock: seq<real>, i: nat, j: nat, b: Box)
    ensures Clock(TwoHits(clock, i, j, b)) == clock
  {
    if clock != [] {
      var shots := TwoHits(clock, i, j, b);
      TwoHitsKeepTime(clock[..|clock| - 1], i, j, b);
      assert shots[..|clock| - 1] == TwoHits(clock[..|clock| - 1], i, j, b);
      assert clock == clock[..|clock| - 1] + [clock[|clock| - 1]];
    }
  }

  lemma QuietShot(l: Limits, o: Outcome, e: Event, now: real)
    requires o.queue == [] || o.queue == [e]
    ensures Then(l, o, Shot(Measured(None, false), now))
         == Outcome(if o.queue == [] || e.time < now - l.window then [] else [e], o.flagged)
  {
    assert DropWhileExpired([e][1..], now - l.window) == [];
  }

  lemma QuietFlagsNothing(l: Limits, o: Outcome, now: real)
    ensures Then(l, o, Shot(Measured(None, false), now)).flagged == o.flagged
  {
  }

  lemma FreshHit(l: Limits, o: Outcome, b: Box, now: real)
    requires o.queue == [] && l.blinkK >= 0
    ensures var e := Event(now, Some(b));
            Then(l, o, Shot(Measured(Some(b), true), now)) == Outcome([e], o.flagged + [e])
  {
  }

  lemma RunGoesOn(l: Limits, clock: seq<real>, i: nat, j: nat, b: Box)
    requires clock != []
    ensures var n := |clock| - 1;
            Run(l, TwoHits(clock, i, j, b))
            == Then(l, Run(l, TwoHits(clock[..n], i, j, b)),
                    Shot(if n == i || n == j then Measured(Some(b), true) else Measured(None, false), clock[n]))
  {
    var shots := TwoHits(clock, i, j, b);
    assert shots[..|clock| - 1] == TwoHits(clock[..|clock| - 1], i, j, b);
  }

  /** Between the hits the first is the only flagged event, and a late reading empties the queue. */
  ghost predicate OneHit(o: Outcome, clock: seq<real>, i: nat, window: real, e: Event) {
    && o.flagged == [e] && (o.queue == [] || o.queue == [e])
    && (forall k :: i < k < |clock| && e.time < clock[k] - window ==> o.queue == [])
  }

  lemma QuietKeepsOneHit(l: Limits, o: Outcome, clock: seq<real>, i: nat, e: Event)
    requires clock != [] && OneHit(o, clock[..|clock| - 1], i, l.window, e)
    ensures OneHit(Then(l, o, Shot(Measured(None, false), clock[|clock| - 1])), clock, i, l.window, e)
  {
    var n := |clock| - 1;
    QuietShot(l, o, e, clock[n]);
    assert forall k :: 0 <= k < n ==> clock[..n][k] == clock[k];
  }

  lemma FreshHitIsOne(l: Limits, o: Outcome, clock: seq<real>, b: Box)
    requires clock != [] && o == Outcome([], []) && l.blinkK >= 0
    ensures var now := clock[|clock| - 1];
            OneHit(Then(l, o, Shot(Measured(Some(b), true), now)), clock, |clock| - 1, l.window, Event(now, Some(b)))
  {
    FreshHit(l, o, b, clock[|clock| - 1]);
  }

  lemma {:induction false} BeforeFirstHit(l: Limits, clock: seq<real>, i: nat, j: nat, b: Box)
    requires |clock| <= i < j
    ensures Run(l, TwoHits(clock, i, j, b)) == Outcome([], [])
  {
    if clock != [] {
      var n := |clock| - 1;
      BeforeFirstHit(l, clock[..n], i, j, b);
      RunGoesOn(l, clock, i, j, b);
      QuietShot(l, Outcome([], []), Event(clock[n], None), clock[n]);
    }
  }

  lemma {:induction false} AfterFirstHit(l: Limits, clock: seq<real>, i: nat, j: nat, b: Box, e: Event)
    requires l.blinkK >= 0 && i < |clock| <= j && e == Event(clock[i], Some(b))
    ensures OneHit(Run(l, TwoHits(clock, i, j, b)), clock, i, l.window, e)
  {
    var n := |clock| - 1;
    RunGoesOn(l, clock, i, j, b);
    if n == i {
      BeforeFirstHit(l, clock[..n], i, j, b);
      FreshHitIsOne(l, Outcome([], []), clock, b);
    } else {
      AfterFirstHit(l, clock[..n], i, j, b, e);
      QuietKeepsOneHit(l, Run(l, TwoHits(clock[..n], i, j, b)), clock, i, e);
    }
  }

  lemma SecondHit(l: Limits, o: Outcome, clock: seq<real>, i: nat, k: nat, e: Event, b: Box, now: real)
    requires OneHit(o, clock, i, l.window, e) && l.blinkK >= 0
    requires i < k < |clock| && e.time < clock[k] - l.window
    ensures Then(l, o, Shot(Measured(Some(b), true), now)).flagged == [e, Event(now, Some(b))]
  {
    FreshHit(l, o, b, now);
  }

  /** A reading that returns lets two hits of one box through one window. */
  lemma {:induction false} BothHits(l: Limits, clock: seq<real>, i: nat, k: nat, j: nat, b: Box)
    requires l.blinkK >= 0 && i < k < j < |clock| && clock[i] < clock[k] - l.window
    ensures Run(l, TwoHits(clock, i, j, b)).flagged == [Event(clock[i], Some(b)), Event(clock[j], Some(b))]
  {
    var n := |clock| - 1;
    var before := Run(l, TwoHits(clock[..n], i, j, b));
    RunGoesOn(l, clock, i, j, b);
    if j < n {
      BothHits(l, clock[..n], i, k, j, b);
      QuietFlagsNothing(l, before, clock[n]);
    } else {
      AfterFirstHit(l, clock[..n], i, j, b, Event(clock[i], Some(b)));
      SecondHit(l, before, clock[..n], i, k, Event(clock[i], Some(b)), b, clock[n]);
    }
  }

  /** Some run with these timestamps has a burst of more than blinkK + 1 events. */
  ghost predicate Overruns(l: Limits, near: Together, shots: seq<Shot>, chosen: seq<nat>) {
    Burst(l, near, Run(l, shots).flagged, chosen) && |chosen| > Max(0, l.blinkK + 1)
  }

  lemma ReturnOverruns(clock: seq<real>, window: real, near: Together, i: nat, k: nat, j: nat)
    returns (l: Limits, shots: seq<Shot>)
    requires i < k < j < |clock| && clock[i] < clock[k] - window && near(clock[i], clock[j])
    ensures l.window == window && l.blinkK == 0 && Clock(shots) == clock && Overruns(l, near, shots, [0, 1])
  {
    var b := Box(0, 0, 2, 2);
    l, shots := IouLimits(0, window, 1.0), TwoHits(clock, i, j, b);
    TwoHitsKeepTime(clock, i, j, b);
    OverlapWithSelf(b);
    BothHits(l, clock, i, k, j, b);
    assert l.same(Some(b), Some(b));
  }

  ghost predicate Limited(clock: seq<real>, window: real, near: Together) {
    forall l: Limits, shots: seq<Shot>, chosen: seq<nat> ::
      l.window == window && Clock(shots) == clock ==> !Overruns(l, near, shots, chosen)
  }

  lemma NoReturnLimits(clock: seq<real>, window: real, near: Together)
    requires FitsWindow(near, window) && NoReturn(clock, window, near)
    ensures Limited(clock, window, near)
  {
    forall l: Limits, shots: seq<Shot>, chosen: seq<nat> | l.window == window && Clock(shots) == clock
      ensures !Overruns(l, near, shots, chosen)
    {
      if Overruns(l, near, shots, chosen) {
        BlinkersAreLimited(l, near, shots, chosen);
      }
    }
  }

  /** The exact condition on the clock: whatever the frames and the other settings, no run with these
      timestamps exceeds the limit, if and only if the clock does not return. */
  lemma LimitedIffNoReturn(clock: seq<real>, window: real, near: Together)
    requires FitsWindow(near, window)
    ensures Limited(clock, window, near) <==> NoReturn(clock, window, near)
  {
    if NoReturn(clock, window, near) {
      NoReturnLimits(clock, window, near);
    } else {
      var i, k, j :| 0 <= i < k < j < |clock| && clock[i] < clock[k] - window && near(clock[i], clock[j]);
      var l, shots := ReturnOverruns(clock, window, near, i, k, j);
    }
  }

  /** A clock that steps back after a late shot voids the guarantee: the late shot empties the queue, and
      an earlier timestamp then sees no past. A smaller step back does not. */
  lemma BackwardsClockBreaksTheLimit()
    ensures exists l: Limits, shots: seq<Shot> ::
              l.window == 5.0 && Clock(shots) == [10.0, 20.0, 12.0] && Overruns(l, Within(5.0), shots, [0, 1])
    ensures NoReturn([10.0, 20.0, 18.0], 5.0, Within(5.0))
  {
    var l, shots := ReturnOverruns([10.0, 20.0, 12.0], 5.0, Within(5.0), 0, 1, 2);
  }
}
