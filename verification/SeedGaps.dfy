/** A capture whose classification leaves a direct callee of a root's final function out of the roots. */
module SeedGaps {
  import opened Basics
  import opened IntSets
  import opened OverlayCode
  import opened FunctionWalk
  import opened SeedClassification

  // ----- images from words

  predicate AreWords(words: seq<nat>) {
    forall i :: 0 <= i < |words| ==> words[i] < UINT32
  }

  function Assembly(words: seq<nat>): (data: seq<byte>)
    requires AreWords(words)
    ensures |data| == 4 * |words|
  {
    if words == [] then [] else LittleEndian(words[0]) + Assembly(words[1..])
  }

  lemma {:induction false} AssemblyReads(words: seq<nat>, i: nat)
    requires AreWords(words) && i < |words|
    ensures Word(Assembly(words), 4 * i) == words[i]
  {
    var head, tail := LittleEndian(words[0]), Assembly(words[1..]);
    if i == 0 {
      FourBytes(words[0]);
    } else {
      AssemblyReads(words[1..], i - 1);
      assert forall k :: 0 <= k < |tail| ==> (head + tail)[4 + k] == tail[k];
    }
  }

  // ----- the capture

  const RETURN: nat := 0x03E0_0008

  /** At 0: `jal 0x30`, then a branch to 0x14 or 0x40. From 0x14 control jumps to 0x20, which calls 0x38; from 0x40 it
      jumps to 0x1C, a return whose delay slot 0x20 is. At 0x30 and 0x38 there are empty functions. */
  const CODE: seq<nat> := [
    0x0C00_000C, 0, 0x1000_000D, 0, 0, 0x0800_0008, 0, RETURN, 0x0C00_000E, 0, RETURN, 0, RETURN, 0, RETURN, 0,
    0x0800_0007, 0]

  const IMAGE: Image := Image(Assembly(CODE), 0, 72)

  function Straddled(): Capture {
    Capture(IMAGE, {}, {0}, {}, {}, {}, false, 0, 0)
  }

  lemma CodeReads(i: nat)
    requires i < |CODE|
    ensures WordAt(IMAGE, 4 * i) == Some(CODE[i])
  {
    AssemblyReads(CODE, i);
  }

  /** A word after a return and its slot may be called. */
  lemma AfterReturnIsCallable(i: nat)
    requires 2 <= i < |CODE| && CODE[i] == RETURN && CODE[i - 2] == RETURN
    ensures Callable(IMAGE, 4 * i)
  {
    CodeReads(i);
    CodeReads(i - 2);
  }

  lemma CallFlows()
    ensures Classify(0, 0x0C00_000C) == Call(0x30) && Classify(0x20, 0x0C00_000E) == Call(0x38)
  {
  }

  lemma FirstIsCallable()
    ensures Callable(IMAGE, 0) && !ImpossibleStart(Straddled(), 0)
  {
    CodeReads(0);
    AfterReturnIsCallable(12);
    CallFlows();
  }

  // ----- its walks

  /** What the instruction at `pc` does in a function that starts at `entry` and ends at `cap`. */
  predicate Does(entry: int, cap: int, order: Order, pc: int, e: Effect) {
    var x := Extent(IMAGE, entry, cap);
    Readable(x, pc) && EffectAt(x, order, pc) == e
  }

  lemma InsideTwo(x: Extent, a: int, b: int)
    requires InFunction(x, a)
    ensures Inside(x, [a, b]) == if InFunction(x, b) then [a, b] else [a]
  {
    assert [a, b][1..] == [b] && [b][1..] == [];
    assert Inside(x, [b]) == if InFunction(x, b) then [b] else [];
  }

  lemma FirstCall(order: Order, cap: int)
    requires 0x30 <= cap <= 72
    ensures Does(0, cap, order, 0, Effect(true, [8], {8}, {0x30}, {}))
  {
    CodeReads(0);
    AfterReturnIsCallable(12);
    InsideOne(Extent(IMAGE, 0, cap), 8);
    CallFlows();
  }

  lemma Fork(order: Order, cap: int)
    requires cap in {0x30, 72}
    ensures cap == 72 ==> Does(0, cap, order, 8, Effect(true, [0x10, 0x40], {0x10, 0x40}, {}, {}))
    ensures cap == 0x30 ==> Does(0, cap, order, 8, Effect(true, [0x10], {0x10}, {}, {}))
  {
    CodeReads(2);
    InsideTwo(Extent(IMAGE, 0, cap), 0x10, 0x40);
    assert Classify(8, 0x1000_000D) == Branch(0x40);
    assert Elements([0x10, 0x40]) == {0x10, 0x40};
  }

  lemma Nop(order: Order, cap: int)
    requires 0x30 <= cap <= 72
    ensures Does(0, cap, order, 0x10, Effect(false, [0x14], {}, {}, {}))
  {
    CodeReads(4);
    InsideOne(Extent(IMAGE, 0, cap), 0x14);
    assert Classify(0x10, 0) == Normal;
  }

  lemma JumpToCall(order: Order, cap: int)
    requires 0x30 <= cap <= 72
    ensures Does(0, cap, order, 0x14, Effect(true, [0x20], {0x20}, {}, {}))
  {
    CodeReads(5);
    InsideOne(Extent(IMAGE, 0, cap), 0x20);
    assert Classify(0x14, 0x0800_0008) == Jump(0x20);
  }

  lemma SecondCall(order: Order, cap: int)
    requires 0x30 <= cap <= 72
    ensures Does(0, cap, order, 0x20, Effect(true, [0x28], {0x28}, {0x38}, {}))
  {
    CodeReads(8);
    AfterReturnIsCallable(14);
    InsideOne(Extent(IMAGE, 0, cap), 0x28);
    CallFlows();
  }

  lemma JumpToReturn(order: Order)
    ensures Does(0, 72, order, 0x40, Effect(true, [0x1C], {0x1C}, {}, {}))
  {
    CodeReads(16);
    InsideOne(Extent(IMAGE, 0, 72), 0x1C);
    assert Classify(0x40, 0x0800_0007) == Jump(0x1C);
  }

  lemma ReturnDoes(order: Order, entry: int, cap: int, i: nat)
    requires i < |CODE| && CODE[i] == RETURN && entry % 4 == 0 && 0 <= entry <= 4 * i < cap <= 72
    ensures Does(entry, cap, order, 4 * i, Effect(true, [], {}, {}, {}))
  {
    CodeReads(i);
    assert Classify(4 * i, RETURN) == Return;
  }

  lemma Returns(order: Order, entry: int, cap: int, pc: int)
    requires pc in {0x1C, 0x28, 0x30} && entry % 4 == 0 && 0 <= entry <= pc < cap <= 72
    ensures Does(entry, cap, order, pc, Effect(true, [], {}, {}, {}))
  {
    ReturnDoes(order, entry, cap, pc / 4);
  }

  /** The walk has come to this queue, having marked and called these addresses. */
  ghost predicate ComesTo(
    entry: int, cap: int, order: Order, work: seq<int>, visited: set<int>, calls: set<int>)
  {
    exists w :: IsAt(entry, cap, order, work, visited, calls, w)
  }

  predicate IsAt(
    entry: int, cap: int, order: Order, work: seq<int>, visited: set<int>, calls: set<int>, w: Walk)
  {
    var x := Extent(IMAGE, entry, cap);
    && WalkFrom(x, order) == Explore(x, order, work, w)
    && w.visited == visited && w.directJals == calls && w.jumpTableTargets == {}
  }

  lemma Begins(entry: int, cap: int, order: Order)
    ensures ComesTo(entry, cap, order, [entry], {}, {})
  {
    assert IsAt(entry, cap, order, [entry], {}, {}, UNWALKED);
  }

  /** The first instruction of the queue is decoded. */
  lemma Goes(
    entry: int, cap: int, order: Order, pc: int, rest: seq<int>, visited: set<int>, calls: set<int>, e: Effect)
    requires ComesTo(entry, cap, order, [pc] + rest, visited, calls) && pc !in visited
    requires Does(entry, cap, order, pc, e) && e.tables == {}
    ensures var slot := if e.delayed && InFunction(Extent(IMAGE, entry, cap), pc + 4) then {pc + 4} else {};
            ComesTo(entry, cap, order, rest + e.next, visited + {pc} + slot, calls + e.jals)
  {
    var x := Extent(IMAGE, entry, cap);
    var w :| IsAt(entry, cap, order, [pc] + rest, visited, calls, w);
    var slot := if e.delayed && InFunction(x, pc + 4) then {pc + 4} else {};
    assert ([pc] + rest)[1..] == rest;
    assert IsAt(entry, cap, order, rest + e.next, visited + {pc} + slot, calls + e.jals, After(x, w, pc, e));
  }

  /** The last of the queue was marked already: the walk is done. */
  lemma EndsMarked(entry: int, cap: int, order: Order, pc: int, visited: set<int>, calls: set<int>)
    requires ComesTo(entry, cap, order, [pc], visited, calls) && pc in visited
    ensures ComesTo(entry, cap, order, [], visited, calls)
  {
    var w :| IsAt(entry, cap, order, [pc], visited, calls, w);
    assert [pc][1..] == [];
    assert IsAt(entry, cap, order, [], visited, calls, w);
  }

  lemma Ends(entry: int, cap: int, order: Order, visited: set<int>, calls: set<int>)
    requires ComesTo(entry, cap, order, [], visited, calls)
    ensures var w := WalkFrom(Extent(IMAGE, entry, cap), order); w.directJals == calls && w.jumpTableTargets == {}
  {
  }

  /** A jump, a call or a return, with its slot in the function. */
  lemma GoesOn(
    entry: int, cap: int, order: Order, pc: int, rest: seq<int>, visited: set<int>, calls: set<int>, e: Effect,
    work: seq<int>, marked: set<int>, called: set<int>)
    requires ComesTo(entry, cap, order, [pc] + rest, visited, calls) && pc !in visited
    requires Does(entry, cap, order, pc, e) && e.tables == {}
    requires work == rest + e.next && called == calls + e.jals
    requires var hasSlot := e.delayed && InFunction(Extent(IMAGE, entry, cap), pc + 4);
             marked == visited + if hasSlot then {pc, pc + 4} else {pc}
    ensures ComesTo(entry, cap, order, work, marked, called)
  {
    Goes(entry, cap, order, pc, rest, visited, calls, e);
    var slot := if e.delayed && InFunction(Extent(IMAGE, entry, cap), pc + 4) then {pc + 4} else {};
    assert marked == visited + {pc} + slot;
  }

  /** Both walks begin with the first call and the fork. */
  lemma ToTheFork(order: Order, cap: int)
    requires cap in {0x30, 72}
    ensures ComesTo(0, cap, order, [8], {0, 4}, {0x30})
  {
    Begins(0, cap, order);
    FirstCall(order, cap);
    assert [0] + [] == [0];
    GoesOn(0, cap, order, 0, [], {}, {}, Effect(true, [8], {8}, {0x30}, {}), [8], {0, 4}, {0x30});
  }

  lemma WidePastTheFork(order: Order)
    ensures ComesTo(0, 72, order, [0x40] + [0x14], {0, 4, 8, 0xC, 0x10}, {0x30})
  {
    ToTheFork(order, 72);
    Fork(order, 72);
    Nop(order, 72);
    assert [8] + [] == [8] && [0x10, 0x40] == [0x10] + [0x40];
    var e := Effect(true, [0x10, 0x40], {0x10, 0x40}, {}, {});
    GoesOn(0, 72, order, 8, [], {0, 4}, {0x30}, e, [0x10] + [0x40], {0, 4, 8, 0xC}, {0x30});
    GoesOn(
      0, 72, order, 0x10, [0x40], {0, 4, 8, 0xC}, {0x30}, Effect(false, [0x14], {}, {}, {}),
      [0x40] + [0x14], {0, 4, 8, 0xC, 0x10}, {0x30});
  }

  lemma WideJumps(order: Order)
    ensures ComesTo(0, 72, order, [0x1C] + [0x20], {0, 4, 8, 0xC, 0x10, 0x14, 0x18, 0x40, 0x44}, {0x30})
  {
    WidePastTheFork(order);
    JumpToReturn(order);
    JumpToCall(order, 72);
    GoesOn(
      0, 72, order, 0x40, [0x14], {0, 4, 8, 0xC, 0x10}, {0x30}, Effect(true, [0x1C], {0x1C}, {}, {}),
      [0x14] + [0x1C], {0, 4, 8, 0xC, 0x10, 0x40, 0x44}, {0x30});
    GoesOn(
      0, 72, order, 0x14, [0x1C], {0, 4, 8, 0xC, 0x10, 0x40, 0x44}, {0x30}, Effect(true, [0x20], {0x20}, {}, {}),
      [0x1C] + [0x20], {0, 4, 8, 0xC, 0x10, 0x14, 0x18, 0x40, 0x44}, {0x30});
  }

  /** With the region's end as its cap, the function of 0 reaches the return first: its slot is marked, and the second
      call never seen. */
  lemma WideWalk(order: Order)
    ensures WalkFrom(Extent(IMAGE, 0, 72), order).directJals == {0x30}
    ensures WalkFrom(Extent(IMAGE, 0, 72), order).jumpTableTargets == {}
  {
    WideJumps(order);
    Returns(order, 0, 72, 0x1C);
    var visited := {0, 4, 8, 0xC, 0x10, 0x14, 0x18, 0x40, 0x44};
    GoesOn(
      0, 72, order, 0x1C, [0x20], visited, {0x30}, Effect(true, [], {}, {}, {}),
      [0x20], visited + {0x1C, 0x20}, {0x30});
    EndsMarked(0, 72, order, 0x20, visited + {0x1C, 0x20}, {0x30});
    Ends(0, 72, order, visited + {0x1C, 0x20}, {0x30});
  }

  lemma NarrowPastTheFork(order: Order)
    ensures ComesTo(0, 0x30, order, [0x14], {0, 4, 8, 0xC, 0x10}, {0x30})
  {
    ToTheFork(order, 0x30);
    Fork(order, 0x30);
    Nop(order, 0x30);
    assert [8] + [] == [8] && [0x10] + [] == [0x10];
    var e := Effect(true, [0x10], {0x10}, {}, {});
    GoesOn(0, 0x30, order, 8, [], {0, 4}, {0x30}, e, [0x10], {0, 4, 8, 0xC}, {0x30});
    GoesOn(
      0, 0x30, order, 0x10, [], {0, 4, 8, 0xC}, {0x30}, Effect(false, [0x14], {}, {}, {}),
      [0x14], {0, 4, 8, 0xC, 0x10}, {0x30});
  }

  lemma NarrowJumps(order: Order)
    ensures ComesTo(0, 0x30, order, [0x20], {0, 4, 8, 0xC, 0x10, 0x14, 0x18}, {0x30})
  {
    NarrowPastTheFork(order);
    JumpToCall(order, 0x30);
    assert [0x14] + [] == [0x14];
    GoesOn(
      0, 0x30, order, 0x14, [], {0, 4, 8, 0xC, 0x10}, {0x30}, Effect(true, [0x20], {0x20}, {}, {}),
      [0x20], {0, 4, 8, 0xC, 0x10, 0x14, 0x18}, {0x30});
  }

  lemma NarrowCalls(order: Order)
    ensures ComesTo(0, 0x30, order, [0x28], {0, 4, 8, 0xC, 0x10, 0x14, 0x18, 0x20, 0x24}, {0x30, 0x38})
  {
    NarrowJumps(order);
    SecondCall(order, 0x30);
    assert [0x20] + [] == [0x20];
    GoesOn(
      0, 0x30, order, 0x20, [], {0, 4, 8, 0xC, 0x10, 0x14, 0x18}, {0x30}, Effect(true, [0x28], {0x28}, {0x38}, {}),
      [0x28], {0, 4, 8, 0xC, 0x10, 0x14, 0x18, 0x20, 0x24}, {0x30, 0x38});
  }

  /** With 0x30 as its cap, the way to the return is cut off, and the second call is decoded. */
  lemma NarrowWalk(order: Order)
    ensures WalkFrom(Extent(IMAGE, 0, 0x30), order).directJals == {0x30, 0x38}
  {
    NarrowCalls(order);
    Returns(order, 0, 0x30, 0x28);
    assert [0x28] + [] == [0x28];
    var visited := {0, 4, 8, 0xC, 0x10, 0x14, 0x18, 0x20, 0x24};
    GoesOn(
      0, 0x30, order, 0x28, [], visited, {0x30, 0x38}, Effect(true, [], {}, {}, {}),
      [], visited + {0x28, 0x2C}, {0x30, 0x38});
    Ends(0, 0x30, order, visited + {0x28, 0x2C}, {0x30, 0x38});
  }

  lemma EmptyFunctionWalk(order: Order)
    ensures WalkFrom(Extent(IMAGE, 0x30, 72), order).directJals == {}
  {
    Begins(0x30, 72, order);
    Returns(order, 0x30, 72, 0x30);
    assert [0x30] + [] == [0x30];
    GoesOn(
      0x30, 72, order, 0x30, [], {}, {}, Effect(true, [], {}, {}, {}), [], {0x30, 0x34}, {});
    Ends(0x30, 72, order, {0x30, 0x34}, {});
  }

  // ----- its classification

  const START: Progress := Progress({0}, [0], {}, {})
  const CALLED: Progress := Progress({0, 0x30}, [0x30], {0}, {})
  const DONE: Progress := Progress({0, 0x30}, [], {0, 0x30}, {})

  function Result(): Included {
    map[0 := DispatchEntry, 0x30 := DirectJalTarget]
  }

  lemma CapturedAlone()
    ensures IsCapturedRoot(Straddled(), {}, 0) && CapturedReason(Straddled(), {}, 0) == Some(DispatchEntry)
    ensures forall a :: a != 0 ==> CapturedReason(Straddled(), {}, a) == None
    ensures CapturedRoots(Straddled(), {}) == {0} && PreRoots(Straddled()) == {0}
  {
    FirstIsCallable();
  }

  lemma AscendingOne(a: int)
    ensures Ascending({a}) == [a] && Ascending({}) == []
  {
    assert {a} - {a} == {};
  }

  lemma CapsWiden()
    ensures CapOf(Straddled(), {0}, 0) == 72
    ensures CapOf(Straddled(), {0, 0x30}, 0x30) == 72 && CapOf(Straddled(), {0, 0x30}, 0) == 0x30
  {
  }

  lemma StartCalls(order: Order)
    ensures Turned(Straddled(), order, {}, START) == Some(CALLED)
  {
    CapsWiden();
    WideWalk(order);
    AscendingOne(0x30);
    assert {0x30} - {0} == {0x30} && {0} + {0x30} == {0, 0x30} && [0][1..] + [0x30] == [0x30] && {} + {0} == {0};
  }

  lemma CalledEnds(order: Order)
    ensures Turned(Straddled(), order, {}, CALLED) == Some(DONE)
  {
    CapsWiden();
    EmptyFunctionWalk(order);
    AscendingOne(0);
    assert {} - {0, 0x30} == {} && {0, 0x30} + {} == {0, 0x30} && [0x30][1..] + [] == [] && {0} + {0x30} == {0, 0x30};
  }

  lemma DoneStays(order: Order)
    ensures Turned(Straddled(), order, {}, DONE) == None
  {
    CapturedAlone();
    assert Loose(Straddled(), order, {}, {0, 0x30}) == {};
  }

  lemma ResultReflects()
    ensures Reflects(Straddled(), {}, Result(), DONE)
  {
    CapturedAlone();
  }

  lemma ResultFollows(order: Order)
    ensures LeadsTo(Straddled(), order, {}, [START, CALLED, DONE], Result())
  {
    CapturedAlone();
    AscendingOne(0);
    StartCalls(order);
    CalledEnds(order);
    DoneStays(order);
    var h := [START, CALLED, DONE];
    assert IsTurn(Straddled(), order, {}, h, 0) && IsTurn(Straddled(), order, {}, h, 1);
    ResultReflects();
  }

  lemma NoTables(order: Order)
    ensures forall a :: !InJumpTable(Straddled(), order, PreRoots(Straddled()), a)
  {
    CapturedAlone();
    CapsWiden();
    WideWalk(order);
  }

  lemma ResultIsSettled(order: Order)
    ensures Settled(Straddled(), order, {}, Result(), map[])
  {
    NoTables(order);
    ResultFollows(order);
    assert Candidates(Straddled()) == {0};
    assert Explained(Straddled(), order, {}, Result(), map[]);
  }

  /** The classification of this capture has the roots 0 and 0x30. The function of 0 then ends at 0x30 and calls 0x38,
      which is callable and no root: nobody walks it again. */
  lemma FinalFunctionCanCallNonRoot(order: Order)
    ensures Settled(Straddled(), order, {}, Result(), map[])
    ensures 0 in Roots(Result()) && 0x38 in RootWalk(Straddled(), order, Roots(Result()), 0).directJals
    ensures 0x38 !in Result()
  {
    ResultIsSettled(order);
    CapsWiden();
    NarrowWalk(order);
    assert Roots(Result()) == {0, 0x30};
  }
}
