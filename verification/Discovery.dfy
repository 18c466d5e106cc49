/** The MIPS words of an overlay image, as the discovery code reads them. Addresses are unbounded. */
module OverlayCode {
  import opened Basics
  import Bits

  /** Captured bytes at a load address; `size` is the capture's own claim. */
  datatype Image = Image(data: seq<byte>, load: int, size: int)

  function WordAt(m: Image, addr: int): Option<nat> {
    var off := addr - m.load;
    if off < 0 || off + 4 > |m.data| then None else Some(Word(m.data, off))
  }

  function Op(w: nat): nat { w / 0x400_0000 % 0x40 }
  function Fn(w: nat): nat { w % 0x40 }
  function Rs(w: nat): nat { w / 0x20_0000 % 0x20 }
  function Rt(w: nat): nat { w / 0x1_0000 % 0x20 }
  function Rd(w: nat): nat { w / 0x800 % 0x20 }
  function Imm(w: nat): nat { w % 0x1_0000 }
  function SignedImm(w: nat): int { if Imm(w) >= 0x8000 then Imm(w) - 0x1_0000 else Imm(w) }

  datatype Flow =
    | Normal | Branch(target: int) | Jump(target: int) | Call(target: int) | CallReg | JumpReg(reg: nat) | Return

  function JumpTarget(pc: int, w: nat): int {
    (pc + 4) / 0x1000_0000 % 0x10 * 0x1000_0000 + w % 0x400_0000 * 4
  }

  function BranchTarget(pc: int, w: nat): int {
    pc + 4 + SignedImm(w) * 4
  }

  predicate IsBranchOp(op: nat) {
    op == 0x01 || 0x04 <= op <= 0x07 || 0x14 <= op <= 0x17
  }

  function Classify(pc: int, w: nat): Flow {
    if Op(w) == 0 && Fn(w) == 0x08 then (if Rs(w) == 31 then Return else JumpReg(Rs(w)))
    else if Op(w) == 0 && Fn(w) == 0x09 then CallReg
    else if Op(w) == 0x02 then Jump(JumpTarget(pc, w))
    else if Op(w) == 0x03 then Call(JumpTarget(pc, w))
    else if IsBranchOp(Op(w)) then Branch(BranchTarget(pc, w))
    else Normal
  }

  predicate IsControlFlow(w: Option<nat>) {
    && w.Some?
    && (|| IsBranchOp(Op(w.value)) || 0x02 <= Op(w.value) <= 0x03
        || (Op(w.value) == 0 && Fn(w.value) in {0x08, 0x09}))
  }

  predicate IsValidWord(w: Option<nat>) {
    && w.Some? && w.value != 0xFFFF_FFFF && w.value != 0xFFFF_FFFD
    && if Op(w.value) == 0x00 then IsValidFunct(Fn(w.value))
       else if Op(w.value) == 0x01 then Rt(w.value) in {0x00, 0x01, 0x10, 0x11}
       else IsValidOp(Op(w.value))
  }

  predicate IsValidFunct(fn: nat) {
    || fn == 0x00 || 0x02 <= fn <= 0x04 || 0x06 <= fn <= 0x09 || 0x0C <= fn <= 0x0D || 0x10 <= fn <= 0x13
    || 0x18 <= fn <= 0x1B || 0x20 <= fn <= 0x27 || 0x2A <= fn <= 0x2B
  }

  predicate IsValidOp(op: nat) {
    || 0x02 <= op <= 0x10 || op == 0x12 || 0x20 <= op <= 0x26 || 0x28 <= op <= 0x2B
    || op == 0x2E || op == 0x30 || op == 0x32 || op == 0x38 || op == 0x3A
  }

  predicate IsReturn(w: Option<nat>) {
    w == Some(0x03E0_0008)
  }

  predicate OpensFrame(w: Option<nat>) {
    w.Some? && Op(w.value) == 0x09 && Rs(w.value) == 29 && Rt(w.value) == 29 && Imm(w.value) >= 0x8000
  }

  /** Boundary evidence: the first word of the image, or a word after a return, or a frame prologue. */
  predicate Callable(m: Image, addr: int) {
    && IsValidWord(WordAt(m, addr))
    && (|| addr == m.load
        || IsReturn(WordAt(m, addr - 8))
        || (OpensFrame(WordAt(m, addr)) && !IsControlFlow(WordAt(m, addr - 4))))
  }

  // ----- what the classes mean: they undo assembling

  /** An instruction word from its fields. */
  function Assembled(op: nat, rs: nat, rt: nat, imm: nat): nat {
    op * 0x400_0000 + rs * 0x20_0000 + rt * 0x1_0000 + imm
  }

  lemma AssembledFields(op: nat, rs: nat, rt: nat, imm: nat)
    requires op < 0x40 && rs < 0x20 && rt < 0x20 && imm < 0x1_0000
    ensures var w := Assembled(op, rs, rt, imm);
            Op(w) == op && Rs(w) == rs && Rt(w) == rt && Imm(w) == imm && Fn(w) == imm % 0x40
  {
    var w := Assembled(op, rs, rt, imm);
    Bits.ModUnique(w, 0x1_0000, op * 0x400 + rs * 0x20 + rt, imm);
    Bits.ModUnique(w, 0x20_0000, op * 0x20 + rs, rt * 0x1_0000 + imm);
    Bits.ModUnique(w, 0x400_0000, op, rs * 0x20_0000 + rt * 0x1_0000 + imm);
    Bits.ModUnique(w / 0x1_0000, 0x20, op * 0x20 + rs, rt);
    Bits.ModUnique(w / 0x20_0000, 0x20, op, rs);
    Bits.ModUnique(w, 0x40, op * 0x10_0000 + rs * 0x8000 + rt * 0x400 + imm / 0x40, imm % 0x40);
  }

  /** A branch, whatever it compares, leads as many words on as it was assembled with. */
  lemma BranchUndoesAssembly(pc: int, op: nat, rs: nat, rt: nat, words: int)
    requires op < 0x40 && IsBranchOp(op) && rs < 0x20 && rt < 0x20 && -0x8000 <= words < 0x8000
    ensures Classify(pc, Assembled(op, rs, rt, words % 0x1_0000)) == Branch(pc + 4 + words * 4)
  {
    AssembledFields(op, rs, rt, words % 0x1_0000);
    SignOf(words);
  }

  lemma SignOf(words: int)
    requires -0x8000 <= words < 0x8000
    ensures words == if words % 0x1_0000 >= 0x8000 then words % 0x1_0000 - 0x1_0000 else words % 0x1_0000
  {
  }

  /** `j` and `jal` reach every aligned address of the delay slot's 256 MiB segment. */
  lemma JumpUndoesAssembly(pc: nat, target: nat)
    requires pc + 4 < UINT32 && target % 4 == 0 && target / 0x1000_0000 == (pc + 4) / 0x1000_0000
    ensures Classify(pc, 0x0800_0000 + target % 0x1000_0000 / 4) == Jump(target)
    ensures Classify(pc, 0x0C00_0000 + target % 0x1000_0000 / 4) == Call(target)
  {
    var index := target % 0x1000_0000 / 4;
    assert (0x0800_0000 + index) / 0x400_0000 == 2 && (0x0C00_0000 + index) / 0x400_0000 == 3;
    assert (0x0800_0000 + index) % 0x400_0000 == index && (0x0C00_0000 + index) % 0x400_0000 == index;
    assert target == target / 0x1000_0000 * 0x1000_0000 + index * 4;
  }

  lemma RegisterFields(reg: nat, rt: nat, rd: nat, fn: nat)
    requires reg < 0x20 && rt < 0x20 && rd < 0x20 && fn < 0x40
    ensures var w := Assembled(0, reg, rt, rd * 0x800 + fn);
            Op(w) == 0 && Rs(w) == reg && Fn(w) == fn
  {
    AssembledFields(0, reg, rt, rd * 0x800 + fn);
    Bits.ModUnique(rd * 0x800 + fn, 0x40, rd * 0x20, fn);
  }

  lemma ClassifyRegister(pc: int, w: nat)
    requires Op(w) == 0
    ensures Fn(w) == 0x08 ==> Classify(pc, w) == if Rs(w) == 31 then Return else JumpReg(Rs(w))
    ensures Fn(w) == 0x09 ==> Classify(pc, w) == CallReg
  {
  }

  /** Register jumps; a jump through `ra` is a return. */
  lemma RegisterJumpUndoesAssembly(pc: int, reg: nat, rt: nat, rd: nat)
    requires reg < 0x20 && rt < 0x20 && rd < 0x20
    ensures Classify(pc, Assembled(0, reg, rt, rd * 0x800 + 0x08)) == if reg == 31 then Return else JumpReg(reg)
  {
    RegisterFields(reg, rt, rd, 0x08);
    ClassifyRegister(pc, Assembled(0, reg, rt, rd * 0x800 + 0x08));
  }

  lemma RegisterCallUndoesAssembly(pc: int, reg: nat, rt: nat, rd: nat)
    requires reg < 0x20 && rt < 0x20 && rd < 0x20
    ensures Classify(pc, Assembled(0, reg, rt, rd * 0x800 + 0x09)) == CallReg
  {
    RegisterFields(reg, rt, rd, 0x09);
    ClassifyRegister(pc, Assembled(0, reg, rt, rd * 0x800 + 0x09));
  }

  /** The classification agrees with the separate list of control-flow instructions. */
  lemma ControlFlowIsNotNormal(pc: int, w: nat)
    ensures IsControlFlow(Some(w)) <==> !Classify(pc, w).Normal?
  {
  }

  // ----- the extent of one function

  /** A walk starts at `entry` and must stay below `cap`. */
  datatype Extent = Extent(image: Image, entry: int, cap: int)

  predicate InFunction(x: Extent, addr: int) {
    x.image.load <= addr < x.image.load + x.image.size && x.entry <= addr < x.cap && addr % 4 == 0
  }

  // ----- jump tables

  /** What the backward scan from a `jr` has recognized so far. */
  datatype Scan = Scan(
    base: Option<nat>, offset: int, sum: Option<(nat, nat)>, lui: Option<nat>,
    add0: Option<int>, add1: Option<int>, count: nat)

  const NOTHING_YET := Scan(None, 0, None, None, None, None, 0)

  /** One instruction further back. */
  function ScanWord(s: Scan, w: nat, reg: nat): Scan {
    if Op(w) == 0x23 && Rt(w) == reg && s.base.None? then s.(base := Some(Rs(w)), offset := SignedImm(w))
    else if Op(w) == 0x00 && Fn(w) == 0x21 && s.base == Some(Rd(w)) && s.sum.None? then s.(sum := Some((Rs(w), Rt(w))))
    else if Op(w) == 0x09 && s.sum.Some? then
      if s.add0.None? && Rs(w) == s.sum.value.0 && Rt(w) == s.sum.value.0 then s.(add0 := Some(SignedImm(w)))
      else if s.add1.None? && Rs(w) == s.sum.value.1 && Rt(w) == s.sum.value.1 then s.(add1 := Some(SignedImm(w)))
      else s
    else if Op(w) == 0x0F && s.sum.Some? && s.lui.None? then
      if Rt(w) == s.sum.value.0 then s.(lui := Some(Imm(w) * 0x1_0000))
      else if Rt(w) == s.sum.value.1 then s.(lui := Some(Imm(w) * 0x1_0000), add0 := s.add1)
      else s
    else if Op(w) == 0x0B && s.count == 0 then s.(count := Imm(w))
    else s
  }

  /** The scan stops at a word that adds nothing once both the base and the count are known. */
  predicate ScanStops(s: Scan, w: nat, reg: nat) {
    && s.lui.Some? && s.count != 0
    && !(Op(w) == 0x23 && Rt(w) == reg && s.base.None?)
    && !(Op(w) == 0x00 && Fn(w) == 0x21 && s.base == Some(Rd(w)) && s.sum.None?)
    && !(Op(w) == 0x09 && s.sum.Some?)
  }

  function ScanBack(x: Extent, pc: int, reg: nat, back: nat, s: Scan): Scan
    requires 1 <= back <= 41
    decreases 41 - back, x
  {
    var w := WordAt(x.image, pc - back * 4);
    if back == 41 || pc - back * 4 < x.entry || w.None? || ScanStops(s, w.value, reg) then s
    else ScanBack(x, pc, reg, back + 1, ScanWord(s, w.value, reg))
  }

  function TableBase(s: Scan): int
    requires s.lui.Some?
  {
    s.lui.value + (if s.add0.Some? then s.add0.value else 0) + s.offset
  }

  /** A table word counts when it is an address inside the function. */
  function TableEntry(x: Extent, at: int): (r: set<int>)
    ensures forall t :: t in r ==> InFunction(x, t)
  {
    var t := WordAt(x.image, at);
    if t.Some? && InFunction(x, t.value) then {t.value} else {}
  }

  function TableTargets(x: Extent, base: int, count: nat): (r: set<int>)
    ensures forall t :: t in r ==> InFunction(x, t)
  {
    if count == 0 then {} else TableTargets(x, base, count - 1) + TableEntry(x, base + (count - 1) * 4)
  }

  function JumpTable(x: Extent, pc: int, reg: nat): (r: set<int>)
    ensures forall t :: t in r ==> InFunction(x, t)
  {
    var s := ScanBack(x, pc, reg, 1, NOTHING_YET);
    if s.lui.None? || s.count == 0 || s.count >= 512 then {} else TableTargets(x, TableBase(s), s.count)
  }

  // ----- where a jump table comes from

  /** Where the pieces of the idiom stand, in words back from the `jr`. */
  datatype Places = Places(load: nat, sum: nat, lui: nat, add0: nat, add1: nat, bound: nat)

  /** A word the scan may look at. */
  predicate InScan(x: Extent, pc: int, back: nat, limit: nat) {
    1 <= back < limit && pc - back * 4 >= x.entry && WordAt(x.image, pc - back * 4).Some?
  }

  function Before(x: Extent, pc: int, back: nat): nat
    requires WordAt(x.image, pc - back * 4).Some?
  {
    WordAt(x.image, pc - back * 4).value
  }

  predicate LoadsInto(w: nat, reg: nat) {
    Op(w) == 0x23 && Rt(w) == reg
  }

  /** `addiu r, r, value` on one of the two summands. */
  predicate Adjusts(w: nat, sum: (nat, nat), value: int) {
    Op(w) == 0x09 && Rs(w) == Rt(w) && (Rt(w) == sum.0 || Rt(w) == sum.1) && SignedImm(w) == value
  }

  /** The nearest load into the jump register. */
  ghost predicate LoadFound(x: Extent, pc: int, reg: nat, limit: nat, s: Scan, k: Places) {
    && (s.base.Some? ==>
          && InScan(x, pc, k.load, limit)
          && var w := Before(x, pc, k.load); LoadsInto(w, reg) && Rs(w) == s.base.value && SignedImm(w) == s.offset)
    && (forall j :: InScan(x, pc, j, if s.base.Some? then k.load else limit) ==> !LoadsInto(Before(x, pc, j), reg))
  }

  ghost predicate SumFound(x: Extent, pc: int, limit: nat, s: Scan, k: Places) {
    s.sum.Some? ==>
      && s.base.Some? && k.load < k.sum && InScan(x, pc, k.sum, limit)
      && var w := Before(x, pc, k.sum);
         Op(w) == 0x00 && Fn(w) == 0x21 && Rd(w) == s.base.value && (Rs(w), Rt(w)) == s.sum.value
  }

  ghost predicate HighFound(x: Extent, pc: int, limit: nat, s: Scan, k: Places) {
    s.lui.Some? ==>
      && s.sum.Some? && k.sum < k.lui && InScan(x, pc, k.lui, limit)
      && var w := Before(x, pc, k.lui);
         Op(w) == 0x0F && (Rt(w) == s.sum.value.0 || Rt(w) == s.sum.value.1) && s.lui.value == Imm(w) * 0x1_0000
  }

  ghost predicate LowFound(x: Extent, pc: int, limit: nat, s: Scan, low: Option<int>, k: Places, at: nat) {
    low.Some? ==>
      && s.sum.Some? && k.sum < at && InScan(x, pc, at, limit)
      && Adjusts(Before(x, pc, at), s.sum.value, low.value)
  }

  ghost predicate BoundFound(x: Extent, pc: int, limit: nat, s: Scan, k: Places) {
    s.count != 0 ==>
      InScan(x, pc, k.bound, limit) && Op(Before(x, pc, k.bound)) == 0x0B && Imm(Before(x, pc, k.bound)) == s.count
  }

  /** Every recognized piece is an instruction of the function before the `jr`, in the idiom's order. */
  ghost predicate Explains(x: Extent, pc: int, reg: nat, limit: nat, s: Scan, k: Places) {
    && LoadFound(x, pc, reg, limit, s, k) && SumFound(x, pc, limit, s, k) && HighFound(x, pc, limit, s, k)
    && LowFound(x, pc, limit, s, s.add0, k, k.add0) && LowFound(x, pc, limit, s, s.add1, k, k.add1)
    && BoundFound(x, pc, limit, s, k)
  }

  function NextPlaces(s: Scan, w: nat, reg: nat, back: nat, k: Places): Places {
    var t := ScanWord(s, w, reg);
    if s.base.None? && t.base.Some? then k.(load := back)
    else if s.sum.None? && t.sum.Some? then k.(sum := back)
    else if s.lui.None? && t.lui.Some? then
      if Rt(w) == s.sum.value.0 then k.(lui := back) else k.(lui := back, add0 := k.add1)
    else if s.add0.None? && t.add0.Some? then k.(add0 := back)
    else if s.add1.None? && t.add1.Some? then k.(add1 := back)
    else if s.count == 0 && t.count != 0 then k.(bound := back)
    else k
  }

  lemma LoadStays(x: Extent, pc: int, reg: nat, back: nat, s: Scan, k: Places)
    requires LoadFound(x, pc, reg, back, s, k) && InScan(x, pc, back, back + 1)
    ensures var w := Before(x, pc, back);
            LoadFound(x, pc, reg, back + 1, ScanWord(s, w, reg), NextPlaces(s, w, reg, back, k))
  {
  }

  lemma SumStays(x: Extent, pc: int, reg: nat, back: nat, s: Scan, k: Places)
    requires LoadFound(x, pc, reg, back, s, k) && SumFound(x, pc, back, s, k) && InScan(x, pc, back, back + 1)
    ensures var w := Before(x, pc, back);
            SumFound(x, pc, back + 1, ScanWord(s, w, reg), NextPlaces(s, w, reg, back, k))
  {
  }

  lemma HighStays(x: Extent, pc: int, reg: nat, back: nat, s: Scan, k: Places)
    requires SumFound(x, pc, back, s, k) && HighFound(x, pc, back, s, k) && InScan(x, pc, back, back + 1)
    ensures var w := Before(x, pc, back);
            HighFound(x, pc, back + 1, ScanWord(s, w, reg), NextPlaces(s, w, reg, back, k))
  {
  }

  lemma LowStays(x: Extent, pc: int, reg: nat, back: nat, s: Scan, k: Places)
    requires SumFound(x, pc, back, s, k) && InScan(x, pc, back, back + 1)
    requires LowFound(x, pc, back, s, s.add0, k, k.add0) && LowFound(x, pc, back, s, s.add1, k, k.add1)
    ensures var w := Before(x, pc, back);
            var (t, l) := (ScanWord(s, w, reg), NextPlaces(s, w, reg, back, k));
            LowFound(x, pc, back + 1, t, t.add0, l, l.add0) && LowFound(x, pc, back + 1, t, t.add1, l, l.add1)
  {
  }

  lemma BoundStays(x: Extent, pc: int, reg: nat, back: nat, s: Scan, k: Places)
    requires BoundFound(x, pc, back, s, k) && InScan(x, pc, back, back + 1)
    ensures var w := Before(x, pc, back);
            BoundFound(x, pc, back + 1, ScanWord(s, w, reg), NextPlaces(s, w, reg, back, k))
  {
  }

  lemma ScanWordExplains(x: Extent, pc: int, reg: nat, back: nat, s: Scan, k: Places)
    requires Explains(x, pc, reg, back, s, k) && InScan(x, pc, back, back + 1)
    ensures var w := Before(x, pc, back);
            Explains(x, pc, reg, back + 1, ScanWord(s, w, reg), NextPlaces(s, w, reg, back, k))
  {
    LoadStays(x, pc, reg, back, s, k);
    SumStays(x, pc, reg, back, s, k);
    HighStays(x, pc, reg, back, s, k);
    LowStays(x, pc, reg, back, s, k);
    BoundStays(x, pc, reg, back, s, k);
  }

  lemma {:induction false} ScanExplains(x: Extent, pc: int, reg: nat, back: nat, s: Scan, k: Places)
    returns (l: Places, limit: nat)
    requires 1 <= back <= 41 && Explains(x, pc, reg, back, s, k)
    ensures limit <= 41 && Explains(x, pc, reg, limit, ScanBack(x, pc, reg, back, s), l)
    decreases 41 - back
  {
    var w := WordAt(x.image, pc - back * 4);
    if back == 41 || pc - back * 4 < x.entry || w.None? || ScanStops(s, w.value, reg) {
      assert ScanBack(x, pc, reg, back, s) == s;
      l, limit := k, back;
    } else {
      var t := ScanWord(s, w.value, reg);
      assert ScanBack(x, pc, reg, back, s) == ScanBack(x, pc, reg, back + 1, t);
      ScanWordExplains(x, pc, reg, back, s, k);
      l, limit := ScanExplains(x, pc, reg, back + 1, t, NextPlaces(s, w.value, reg, back, k));
    }
  }

  /** The compiler's switch idiom: `sltiu _, _, count`, `lui r, high`, perhaps `addiu r, r, low`,
      `addu base, r0, r1`, `lw reg, offset(base)`, with the table at `high * 65536 + low + offset`. */
  ghost predicate IsSwitch(x: Extent, pc: int, reg: nat, k: Places, table: int, count: nat) {
    && InScan(x, pc, k.load, k.sum) && InScan(x, pc, k.sum, k.lui) && InScan(x, pc, k.lui, 41)
      && InScan(x, pc, k.bound, 41)
    && LoadsInto(Before(x, pc, k.load), reg)
    && (forall j :: InScan(x, pc, j, k.load) ==> !LoadsInto(Before(x, pc, j), reg))
    && var (load, sum, lui) := (Before(x, pc, k.load), Before(x, pc, k.sum), Before(x, pc, k.lui));
    && Op(sum) == 0x00 && Fn(sum) == 0x21 && Rd(sum) == Rs(load)
    && Op(lui) == 0x0F && (Rt(lui) == Rs(sum) || Rt(lui) == Rt(sum))
    && Op(Before(x, pc, k.bound)) == 0x0B && Imm(Before(x, pc, k.bound)) == count && 0 < count < 512
    && var low := table - Imm(lui) * 0x1_0000 - SignedImm(load);
    && (low == 0 || (k.sum < k.add0 && InScan(x, pc, k.add0, 41)
      && Adjusts(Before(x, pc, k.add0), (Rs(sum), Rt(sum)), low)))
  }

  /** Targets are only ever read from the table of a switch that the function contains before the `jr`. */
  lemma TargetsComeFromASwitch(x: Extent, pc: int, reg: nat, t: int)
    requires t in JumpTable(x, pc, reg)
    ensures InFunction(x, t)
    ensures exists k, table, count, i :: IsSwitch(x, pc, reg, k, table, count) && IsEntry(x, table, count, i, t)
  {
    var s := ScanBack(x, pc, reg, 1, NOTHING_YET);
    var k, limit := ScanExplains(x, pc, reg, 1, NOTHING_YET, Places(0, 0, 0, 0, 0, 0));
    var i := EntryOf(x, TableBase(s), s.count, t);
    assert IsSwitch(x, pc, reg, k, TableBase(s), s.count);
  }

  /** Words the scan passes over: not a load, an addition, an upper immediate or a bound check. */
  predicate Neutral(w: nat) {
    Op(w) !in {0x23, 0x09, 0x0F, 0x0B} && !(Op(w) == 0x00 && Fn(w) == 0x21)
  }

  predicate Passes(x: Extent, pc: int, back: nat) {
    InScan(x, pc, back, 41) && Neutral(Before(x, pc, back))
  }

  predicate Known(s: Scan) {
    s.lui.Some? && s.count != 0
  }

  lemma {:induction false} ScanSkips(x: Extent, pc: int, reg: nat, from: nat, to: nat, s: Scan)
    requires 1 <= from <= to <= 41 && !Known(s)
    requires forall j: nat :: from <= j < to ==> Passes(x, pc, j)
    ensures ScanBack(x, pc, reg, from, s) == ScanBack(x, pc, reg, to, s)
    decreases 41 - from
  {
    if from < to {
      assert Passes(x, pc, from);
      ScanSkips(x, pc, reg, from + 1, to, s);
    }
  }

  lemma ScanTakes(x: Extent, pc: int, reg: nat, at: nat, s: Scan)
    requires InScan(x, pc, at, 41) && !Known(s)
    ensures ScanBack(x, pc, reg, at, s) == ScanBack(x, pc, reg, at + 1, ScanWord(s, Before(x, pc, at), reg))
  {
  }

  /** Once every piece is known, reading further back changes nothing that is used. */
  lemma {:induction false} ScanSettles(x: Extent, pc: int, reg: nat, back: nat, s: Scan)
    requires 1 <= back <= 41 && Known(s) && s.base.Some? && s.sum.Some? && s.add0.Some?
    ensures var t := ScanBack(x, pc, reg, back, s);
            t.lui.Some? && TableBase(t) == TableBase(s) && t.count == s.count
    decreases 41 - back
  {
    var w := WordAt(x.image, pc - back * 4);
    if back < 41 && pc - back * 4 >= x.entry && w.Some? && !ScanStops(s, w.value, reg) {
      ScanSettles(x, pc, reg, back + 1, ScanWord(s, w.value, reg));
    }
  }

  /** The five words of a switch, read backwards. */
  predicate AreSwitchWords(
    reg: nat, load: nat, sum: nat, add: nat, lui: nat, bound: nat, offset: int, low: int, high: nat, count: nat)
  {
    && LoadsInto(load, reg) && SignedImm(load) == offset
    && Op(sum) == 0x00 && Fn(sum) == 0x21 && Rd(sum) == Rs(load)
    && Adjusts(add, (Rs(sum), Rt(sum)), low)
    && Op(lui) == 0x0F && Rt(lui) == Rt(add) && Imm(lui) == high
    && Op(bound) == 0x0B && Imm(bound) == count && 0 < count < 512
  }

  lemma SwitchWordsAreRecognized(
    reg: nat, load: nat, sum: nat, add: nat, lui: nat, bound: nat, offset: int, low: int, high: nat, count: nat)
    requires AreSwitchWords(reg, load, sum, add, lui, bound, offset, low, high, count)
    ensures var s1 := ScanWord(NOTHING_YET, load, reg);
            var s2 := ScanWord(s1, sum, reg);
            var s3 := ScanWord(s2, add, reg);
            var s4 := ScanWord(s3, lui, reg);
            var s5 := ScanWord(s4, bound, reg);
            && !Known(s1) && !Known(s2) && !Known(s3) && !Known(s4)
            && Known(s5) && s5.base.Some? && s5.sum.Some? && s5.add0.Some?
            && s5.count == count && TableBase(s5) == high * 0x1_0000 + low + offset
  {
  }

  /** A switch in the compiler's order, with any neutral instructions in between. */
  ghost predicate IsPlainSwitch(
    x: Extent, pc: int, reg: nat, k: Places, offset: int, low: int, high: nat, count: nat)
  {
    && 1 <= k.load < k.sum < k.add0 < k.lui < k.bound <= 40
    && InScan(x, pc, k.load, 41) && InScan(x, pc, k.sum, 41) && InScan(x, pc, k.add0, 41)
    && InScan(x, pc, k.lui, 41) && InScan(x, pc, k.bound, 41)
    && (forall j: nat :: 1 <= j < k.bound && j !in {k.load, k.sum, k.add0, k.lui} ==> Passes(x, pc, j))
    && AreSwitchWords(
         reg, Before(x, pc, k.load), Before(x, pc, k.sum), Before(x, pc, k.add0), Before(x, pc, k.lui),
         Before(x, pc, k.bound), offset, low, high, count)
  }

  /** The scan takes the word at `at` and becomes `t`. */
  ghost predicate Advances(x: Extent, pc: int, reg: nat, at: nat, s: Scan, t: Scan) {
    InScan(x, pc, at, 41) && !Known(s) && t == ScanWord(s, Before(x, pc, at), reg)
  }

  lemma SkipAndTake(x: Extent, pc: int, reg: nat, from: nat, at: nat, s: Scan, t: Scan)
    requires 1 <= from <= at <= 40 && Advances(x, pc, reg, at, s, t)
    requires forall j: nat :: from <= j < at ==> Passes(x, pc, j)
    ensures ScanBack(x, pc, reg, from, s) == ScanBack(x, pc, reg, at + 1, t)
  {
    ScanSkips(x, pc, reg, from, at, s);
    ScanTakes(x, pc, reg, at, s);
  }

  lemma TakeTwo(x: Extent, pc: int, reg: nat, from: nat, a: nat, b: nat, s: Scan, t: Scan, u: Scan)
    requires 1 <= from <= a < b <= 40 && Advances(x, pc, reg, a, s, t) && Advances(x, pc, reg, b, t, u)
    requires forall j: nat :: from <= j < b && j != a ==> Passes(x, pc, j)
    ensures ScanBack(x, pc, reg, from, s) == ScanBack(x, pc, reg, b + 1, u)
  {
    SkipAndTake(x, pc, reg, from, a, s, t);
    SkipAndTake(x, pc, reg, a + 1, b, t, u);
  }

  lemma TakeFour(x: Extent, pc: int, reg: nat, k: Places, s1: Scan, s2: Scan, s3: Scan, s4: Scan)
    requires 1 <= k.load < k.sum < k.add0 < k.lui <= 40
    requires Advances(x, pc, reg, k.load, NOTHING_YET, s1) && Advances(x, pc, reg, k.sum, s1, s2)
    requires Advances(x, pc, reg, k.add0, s2, s3) && Advances(x, pc, reg, k.lui, s3, s4)
    requires forall j: nat :: 1 <= j < k.lui && j !in {k.load, k.sum, k.add0} ==> Passes(x, pc, j)
    ensures ScanBack(x, pc, reg, 1, NOTHING_YET) == ScanBack(x, pc, reg, k.lui + 1, s4)
  {
    TakeTwo(x, pc, reg, 1, k.load, k.sum, NOTHING_YET, s1, s2);
    TakeTwo(x, pc, reg, k.sum + 1, k.add0, k.lui, s2, s3, s4);
  }

  /** The five words the scan takes from a plain switch, one after the other. */
  lemma PlainSwitchStates(
    x: Extent, pc: int, reg: nat, k: Places, offset: int, low: int, high: nat, count: nat)
    returns (s1: Scan, s2: Scan, s3: Scan, s4: Scan, s5: Scan)
    requires IsPlainSwitch(x, pc, reg, k, offset, low, high, count)
    ensures Advances(x, pc, reg, k.load, NOTHING_YET, s1) && Advances(x, pc, reg, k.sum, s1, s2)
    ensures Advances(x, pc, reg, k.add0, s2, s3) && Advances(x, pc, reg, k.lui, s3, s4)
    ensures Advances(x, pc, reg, k.bound, s4, s5) && Known(s5) && s5.base.Some? && s5.sum.Some? && s5.add0.Some?
    ensures s5.count == count && TableBase(s5) == high * 0x1_0000 + low + offset
  {
    var (load, sum, add, lui, bound) :=
      (Before(x, pc, k.load), Before(x, pc, k.sum), Before(x, pc, k.add0), Before(x, pc, k.lui),
       Before(x, pc, k.bound));
    SwitchWordsAreRecognized(reg, load, sum, add, lui, bound, offset, low, high, count);
    s1 := ScanWord(NOTHING_YET, load, reg);
    s2 := ScanWord(s1, sum, reg);
    s3 := ScanWord(s2, add, reg);
    s4 := ScanWord(s3, lui, reg);
    s5 := ScanWord(s4, bound, reg);
  }

  /** The scan of a plain switch knows everything when it has passed the bound check. */
  lemma PlainSwitchScan(
    x: Extent, pc: int, reg: nat, k: Places, offset: int, low: int, high: nat, count: nat) returns (s: Scan)
    requires IsPlainSwitch(x, pc, reg, k, offset, low, high, count)
    ensures ScanBack(x, pc, reg, 1, NOTHING_YET) == ScanBack(x, pc, reg, k.bound + 1, s)
    ensures Known(s) && s.base.Some? && s.sum.Some? && s.add0.Some?
    ensures s.count == count && TableBase(s) == high * 0x1_0000 + low + offset
  {
    var s1, s2, s3, s4, s5 := PlainSwitchStates(x, pc, reg, k, offset, low, high, count);
    TakeFour(x, pc, reg, k, s1, s2, s3, s4);
    SkipAndTake(x, pc, reg, k.lui + 1, k.bound, s4, s5);
    s := s5;
  }

  /** Every such switch is found, whichever summand carries the table's address, and its whole table is read. */
  lemma PlainSwitchIsFound(
    x: Extent, pc: int, reg: nat, k: Places, offset: int, low: int, high: nat, count: nat)
    requires IsPlainSwitch(x, pc, reg, k, offset, low, high, count)
    ensures JumpTable(x, pc, reg) == TableTargets(x, high * 0x1_0000 + low + offset, count)
  {
    var s := PlainSwitchScan(x, pc, reg, k, offset, low, high, count);
    ScanSettles(x, pc, reg, k.bound + 1, s);
  }

  predicate IsEntry(x: Extent, table: int, count: nat, i: nat, t: int) {
    i < count && WordAt(x.image, table + i * 4) == Some(t)
  }

  lemma {:induction false} EntryOf(x: Extent, table: int, count: nat, t: int) returns (i: nat)
    requires t in TableTargets(x, table, count)
    ensures IsEntry(x, table, count, i, t)
  {
    if t in TableEntry(x, table + (count - 1) * 4) {
      i := count - 1;
    } else {
      i := EntryOf(x, table, count - 1, t);
    }
  }

  method ScanBackwards(x: Extent, pc: int, reg: nat) returns (s: Scan)
    ensures s == ScanBack(x, pc, reg, 1, NOTHING_YET)
  {
    s := NOTHING_YET;
    for back := 1 to 41
      invariant ScanBack(x, pc, reg, back, s) == ScanBack(x, pc, reg, 1, NOTHING_YET)
    {
      var w := WordAt(x.image, pc - back * 4);
      if pc - back * 4 < x.entry || w.None? || ScanStops(s, w.value, reg) {
        break;
      }
      s := ScanWord(s, w.value, reg);
    }
  }

  /** `_find_jump_table_targets` with its backward scan and its table loop. */
  method FindJumpTableTargets(x: Extent, pc: int, reg: nat) returns (targets: set<int>)
    ensures targets == JumpTable(x, pc, reg)
  {
    var s := ScanBackwards(x, pc, reg);
    targets := {};
    if s.lui.None? || s.count == 0 || s.count >= 512 {
      return;
    }
    targets := ReadTable(x, TableBase(s), s.count);
  }

  method ReadTable(x: Extent, base: int, count: nat) returns (targets: set<int>)
    ensures targets == TableTargets(x, base, count)
  {
    targets := {};
    for i := 0 to count
      invariant targets == TableTargets(x, base, i)
    {
      targets := targets + TableEntry(x, base + i * 4);
    }
  }
}

/** `_walk_overlay_function`: which instructions belong to the function that starts at an entry. */
module FunctionWalk {
  import opened Basics
  import opened IntSets
  import opened OverlayCode

  /** The order in which a set of addresses is iterated: some order of exactly its elements. */
  type Order = set<int> -> seq<int>

  ghost predicate Enumerates(order: Order) {
    forall s, a :: a in order(s) <==> a in s
  }

  /** The walk's result. `decoded` is not part of the source's: it separates the instructions that were
      decoded from the delay slots that were only marked. */
  datatype Walk = Walk(
    decoded: set<int>, visited: set<int>,
    directJals: set<int>, branchTargets: set<int>, jumpTableTargets: set<int>)

  const UNWALKED := Walk({}, {}, {}, {}, {})

  function Inside(x: Extent, addrs: seq<int>): (r: seq<int>)
    ensures forall a :: a in r <==> a in addrs && InFunction(x, a)
  {
    if addrs == [] then []
    else (if InFunction(x, addrs[0]) then [addrs[0]] else []) + Inside(x, addrs[1..])
  }

  /** What decoding one instruction adds: whether it has a delay slot, where control goes on, and
      which targets it names. */
  datatype Effect = Effect(delayed: bool, next: seq<int>, branches: set<int>, jals: set<int>, tables: set<int>)

  function CallEntry(x: Extent, target: int): set<int> {
    if x.image.load <= target < x.image.load + x.image.size && target % 4 == 0 && Callable(x.image, target)
    then {target} else {}
  }

  function Following(next: seq<int>, jals: set<int>): Effect {
    Effect(true, next, Elements(next), jals, {})
  }

  function EffectOf(x: Extent, order: Order, pc: int, w: nat): Effect {
    match Classify(pc, w)
    case Normal => Effect(false, Inside(x, [pc + 4]), {}, {}, {})
    case Branch(t) => Following(Inside(x, [pc + 8, t]), {})
    case Jump(t) => Following(Inside(x, [t]), {})
    case Call(t) => Following(Inside(x, [pc + 8]), CallEntry(x, t))
    case CallReg => Following(Inside(x, [pc + 8]), {})
    case JumpReg(reg) =>
      var tables := JumpTable(x, pc, reg);
      Effect(true, order(tables), tables, {}, tables)
    case Return => Effect(true, [], {}, {}, {})
  }

  function After(x: Extent, w: Walk, pc: int, e: Effect): Walk {
    Walk(
      w.decoded + {pc},
      w.visited + {pc} + (if e.delayed && InFunction(x, pc + 4) then {pc + 4} else {}),
      w.directJals + e.jals,
      w.branchTargets + e.branches,
      w.jumpTableTargets + e.tables)
  }

  function Room(x: Extent): set<int> {
    set a | x.image.load <= a < x.image.load + x.image.size && InFunction(x, a)
  }

  predicate Decodes(x: Extent, w: Walk, pc: int) {
    pc !in w.visited && InFunction(x, pc) && WordAt(x.image, pc).Some?
  }

  /** The worklist, taken from the front and grown at the back. */
  function Explore(x: Extent, order: Order, work: seq<int>, w: Walk): Walk
    decreases Room(x) - w.visited, |work|
  {
    if work == [] then w
    else if Decodes(x, w, work[0]) then
      var e := EffectOf(x, order, work[0], WordAt(x.image, work[0]).value);
      assert work[0] in Room(x) - w.visited;
      Explore(x, order, work[1..] + e.next, After(x, w, work[0], e))
    else Explore(x, order, work[1..], w)
  }

  function WalkFrom(x: Extent, order: Order): Walk {
    Explore(x, order, [x.entry], UNWALKED)
  }

  /** The body of the walk's loop for an instruction that is decoded. */
  method DecodeAt(x: Extent, order: Order, pc: int, word: nat, w: Walk) returns (next: seq<int>, r: Walk)
    ensures next == EffectOf(x, order, pc, word).next
    ensures r == After(x, w, pc, EffectOf(x, order, pc, word))
  {
    var visited, directJals := w.visited + {pc}, w.directJals;
    var branchTargets, jumpTableTargets := w.branchTargets, w.jumpTableTargets;
    var flow := Classify(pc, word);
    if !flow.Normal? && InFunction(x, pc + 4) {
      visited := visited + {pc + 4};
    }
    match flow {
      case Normal => next := Inside(x, [pc + 4]);
      case Branch(t) => next := Inside(x, [pc + 8, t]);
      case Jump(t) => next := Inside(x, [t]);
      case Call(t) =>
        next := Inside(x, [pc + 8]);
        directJals := directJals + CallEntry(x, t);
      case CallReg => next := Inside(x, [pc + 8]);
      case JumpReg(reg) =>
        var tables := FindJumpTableTargets(x, pc, reg);
        next := order(tables);
        branchTargets, jumpTableTargets := branchTargets + tables, jumpTableTargets + tables;
      case Return => next := [];
    }
    if !flow.Normal? && !flow.JumpReg? {
      branchTargets := branchTargets + Elements(next);
    }
    r := Walk(w.decoded + {pc}, visited, directJals, branchTargets, jumpTableTargets);
  }

  method WalkOverlayFunction(x: Extent, order: Order) returns (r: Walk)
    ensures r == WalkFrom(x, order)
  {
    var work := [x.entry];
    r := UNWALKED;
    while work != []
      invariant Explore(x, order, work, r) == WalkFrom(x, order)
      decreases Room(x) - r.visited, |work|
    {
      var pc := work[0];
      work := work[1..];
      if pc in r.visited || !InFunction(x, pc) {
        continue;
      }
      var word := WordAt(x.image, pc);
      if word.None? {
        continue;
      }
      assert pc in Room(x) - r.visited;
      var next;
      next, r := DecodeAt(x, order, pc, word.value, r);
      work := work + next;
    }
  }

  // ----- what the walk guarantees

  predicate Readable(x: Extent, a: int) {
    InFunction(x, a) && WordAt(x.image, a).Some?
  }

  function EffectAt(x: Extent, order: Order, a: int): Effect
    requires Readable(x, a)
  {
    EffectOf(x, order, a, WordAt(x.image, a).value)
  }

  /** Control passes from the instruction at `a`, and from the delay slot executed with it, to `b`. */
  predicate Edge(x: Extent, order: Order, a: int, b: int) {
    Readable(x, a) && InFunction(x, b) && b in EffectAt(x, order, a).next
  }

  /** The instruction at `a` has `b` as its delay slot. */
  predicate HasSlot(x: Extent, order: Order, a: int, b: int) {
    Readable(x, a) && InFunction(x, b) && b == a + 4 && EffectAt(x, order, a).delayed
  }

  ghost predicate Path(x: Extent, order: Order, p: seq<int>) {
    && p != [] && p[0] == x.entry && InFunction(x, x.entry)
    && forall i :: 0 <= i < |p| - 1 ==> Edge(x, order, p[i], p[i + 1])
  }

  ghost predicate Reachable(x: Extent, order: Order, a: int) {
    exists p :: Path(x, order, p) && p[|p| - 1] == a
  }

  lemma ReachOneMore(x: Extent, order: Order, a: int, b: int)
    requires Reachable(x, order, a) && Edge(x, order, a, b)
    ensures Reachable(x, order, b)
  {
    var p :| Path(x, order, p) && p[|p| - 1] == a;
    assert Path(x, order, p + [b]);
    assert (p + [b])[|p + [b]| - 1] == b;
  }

  /** What is decoded is readable and reached by successor edges, and so is what still waits; what is visited
      is what is decoded and the delay slots of that. */
  ghost predicate Sound(x: Extent, order: Order, work: seq<int>, w: Walk) {
    && (forall a :: a in w.decoded ==> Readable(x, a) && Reachable(x, order, a))
    && (forall a :: a in work && InFunction(x, a) ==> Reachable(x, order, a))
    && MarksSlots(x, order, w)
  }

  ghost predicate MarksSlots(x: Extent, order: Order, w: Walk) {
    forall a :: a in w.visited <==> Marked(x, order, w, a)
  }

  predicate Marked(x: Extent, order: Order, w: Walk, a: int) {
    a in w.decoded || (a - 4 in w.decoded && HasSlot(x, order, a - 4, a))
  }

  /** Every successor of a decoded instruction is visited, waiting or unreadable. */
  ghost predicate Complete(x: Extent, order: Order, work: seq<int>, w: Walk) {
    forall a, b :: a in w.decoded && Edge(x, order, a, b) ==> b in w.visited || b in work || !Readable(x, b)
  }

  ghost predicate NamesTargets(x: Extent, order: Order, w: Walk) {
    && (forall a :: a in w.decoded ==> Readable(x, a))
    && (forall t :: t in w.directJals <==> exists a :: a in w.decoded && t in EffectAt(x, order, a).jals)
    && (forall t :: t in w.branchTargets <==> exists a :: a in w.decoded && t in EffectAt(x, order, a).branches)
    && (forall t :: t in w.jumpTableTargets <==> exists a :: a in w.decoded && t in EffectAt(x, order, a).tables)
  }

  lemma MarkingStep(x: Extent, order: Order, w: Walk, pc: int)
    requires MarksSlots(x, order, w) && Decodes(x, w, pc)
    ensures MarksSlots(x, order, After(x, w, pc, EffectAt(x, order, pc)))
  {
    var after := After(x, w, pc, EffectAt(x, order, pc));
    forall a ensures a in after.visited <==> Marked(x, order, after, a) {
      assert HasSlot(x, order, pc, a) <==> a == pc + 4 && InFunction(x, a) && EffectAt(x, order, pc).delayed;
    }
  }

  lemma StepIsSound(x: Extent, order: Order, work: seq<int>, w: Walk)
    requires Enumerates(order) && work != [] && Decodes(x, w, work[0]) && Sound(x, order, work, w)
    ensures var e := EffectAt(x, order, work[0]);
            Sound(x, order, work[1..] + e.next, After(x, w, work[0], e))
  {
    var pc := work[0];
    var e := EffectAt(x, order, pc);
    assert pc in work;
    forall a | a in e.next ensures Reachable(x, order, a) {
      assert Edge(x, order, pc, a);
      ReachOneMore(x, order, pc, a);
    }
    MarkingStep(x, order, w, pc);
  }

  lemma StepNamesTargets(x: Extent, order: Order, w: Walk, pc: int)
    requires Decodes(x, w, pc) && NamesTargets(x, order, w)
    ensures NamesTargets(x, order, After(x, w, pc, EffectAt(x, order, pc)))
  {
    var after := After(x, w, pc, EffectAt(x, order, pc));
    assert pc in after.decoded;
    assert forall a :: a in after.decoded <==> a in w.decoded || a == pc;
  }

  lemma {:induction false} ExploreKeepsClaims(x: Extent, order: Order, work: seq<int>, w: Walk)
    requires Enumerates(order)
    requires Sound(x, order, work, w) && Complete(x, order, work, w) && NamesTargets(x, order, w)
    ensures var r := Explore(x, order, work, w);
            Sound(x, order, [], r) && Complete(x, order, [], r) && NamesTargets(x, order, r) && w.decoded <= r.decoded
    decreases Room(x) - w.visited, |work|
  {
    if work != [] {
      if Decodes(x, w, work[0]) {
        var e := EffectAt(x, order, work[0]);
        assert work[0] in Room(x) - w.visited;
        StepIsSound(x, order, work, w);
        StepNamesTargets(x, order, w, work[0]);
        ExploreKeepsClaims(x, order, work[1..] + e.next, After(x, w, work[0], e));
      } else {
        ExploreKeepsClaims(x, order, work[1..], w);
      }
    }
  }

  /** Every decoded instruction is readable and reached from the entry by successor edges alone; its readable
      successors are visited; what is visited is what is decoded and the delay slots of that; and the target
      sets are exactly the decoded instructions' targets. */
  lemma WalkIsExact(x: Extent, order: Order)
    requires Enumerates(order)
    ensures var w := WalkFrom(x, order);
            && Sound(x, order, [], w) && Complete(x, order, [], w) && NamesTargets(x, order, w)
            && (Readable(x, x.entry) ==> x.entry in w.decoded)
  {
    if InFunction(x, x.entry) {
      assert Path(x, order, [x.entry]);
      assert Reachable(x, order, x.entry);
    }
    if Decodes(x, UNWALKED, x.entry) {
      var e := EffectAt(x, order, x.entry);
      StepIsSound(x, order, [x.entry], UNWALKED);
      StepNamesTargets(x, order, UNWALKED, x.entry);
      ExploreKeepsClaims(x, order, [x.entry][1..] + e.next, After(x, UNWALKED, x.entry, e));
    } else {
      ExploreKeepsClaims(x, order, [x.entry], UNWALKED);
    }
  }

  // ----- when the walk decodes everything that is reached

  predicate IsNew(x: Extent, done: seq<int>, a: int) {
    a !in done && Readable(x, a)
  }

  /** The plain breadth-first traversal of the successor edges: no delay slots, no marks. */
  function Plain(x: Extent, order: Order, work: seq<int>, done: seq<int>): (r: seq<int>)
    ensures done <= r
    decreases Room(x) - Elements(done), |work|
  {
    if work == [] then done
    else if IsNew(x, done, work[0]) then
      ElementsAppend(done, work[0]);
      assert work[0] in Room(x) - Elements(done);
      Plain(x, order, work[1..] + EffectAt(x, order, work[0]).next, done + [work[0]])
    else Plain(x, order, work[1..], done)
  }

  function PlainOrder(x: Extent, order: Order): seq<int> {
    Plain(x, order, [x.entry], [])
  }

  /** Some instruction comes after the one whose delay slot it is. */
  ghost predicate Shadowed(x: Extent, order: Order, done: seq<int>) {
    exists i, j :: Shadows(x, order, done, i, j)
  }

  predicate Shadows(x: Extent, order: Order, done: seq<int>, i: int, j: int) {
    0 <= i < j < |done| && HasSlot(x, order, done[i], done[j])
  }

  /** The walk decodes what is reached and readable, and nothing else. */
  ghost predicate DecodesAllReached(x: Extent, order: Order) {
    forall a :: a in WalkFrom(x, order).decoded <==> Reachable(x, order, a) && Readable(x, a)
  }

  ghost predicate PlainClaims(x: Extent, order: Order, work: seq<int>, done: seq<int>) {
    && (forall a :: a in done ==> Readable(x, a) && Reachable(x, order, a))
    && (forall a :: a in work && InFunction(x, a) ==> Reachable(x, order, a))
    && (forall a, b :: a in done && Edge(x, order, a, b) ==> b in done || b in work || !Readable(x, b))
  }

  lemma PlainStep(x: Extent, order: Order, work: seq<int>, done: seq<int>)
    requires Enumerates(order) && work != [] && IsNew(x, done, work[0]) && PlainClaims(x, order, work, done)
    ensures PlainClaims(x, order, work[1..] + EffectAt(x, order, work[0]).next, done + [work[0]])
  {
    var pc := work[0];
    var e := EffectAt(x, order, pc);
    assert pc in work;
    forall a | a in e.next && InFunction(x, a) ensures Reachable(x, order, a) {
      assert Edge(x, order, pc, a);
      ReachOneMore(x, order, pc, a);
    }
    forall a, b | a in done + [pc] && Edge(x, order, a, b)
      ensures b in done + [pc] || b in work[1..] + e.next || !Readable(x, b)
    {
      if a in done && b in work && b != pc { assert b in work[1..]; }
    }
  }

  lemma {:induction false} PlainKeepsClaims(x: Extent, order: Order, work: seq<int>, done: seq<int>)
    requires Enumerates(order) && PlainClaims(x, order, work, done)
    ensures PlainClaims(x, order, [], Plain(x, order, work, done))
    decreases Room(x) - Elements(done), |work|
  {
    if work != [] {
      if IsNew(x, done, work[0]) {
        ElementsAppend(done, work[0]);
        assert work[0] in Room(x) - Elements(done);
        PlainStep(x, order, work, done);
        PlainKeepsClaims(x, order, work[1..] + EffectAt(x, order, work[0]).next, done + [work[0]]);
      } else {
        PlainKeepsClaims(x, order, work[1..], done);
      }
    }
  }

  lemma {:induction false} PathIsTraversed(x: Extent, order: Order, p: seq<int>)
    requires PlainClaims(x, order, [], PlainOrder(x, order)) && (Readable(x, x.entry) ==>
            x.entry in PlainOrder(x, order))
    requires Path(x, order, p) && Readable(x, p[|p| - 1])
    ensures p[|p| - 1] in PlainOrder(x, order)
    decreases |p|
  {
    if |p| > 1 {
      var front := p[..|p| - 1];
      assert Edge(x, order, p[|p| - 2], p[|p| - 1]);
      assert Path(x, order, front);
      PathIsTraversed(x, order, front);
    }
  }

  lemma PlainStartsAtEntry(x: Extent, order: Order)
    requires Readable(x, x.entry)
    ensures x.entry in PlainOrder(x, order)
  {
    var rest := Plain(x, order, [x.entry][1..] + EffectAt(x, order, x.entry).next, [] + [x.entry]);
    assert [] + [x.entry] <= rest && rest[0] == x.entry;
  }

  /** The traversal lists exactly what is reached and readable. */
  lemma PlainIsReachable(x: Extent, order: Order, a: int)
    requires Enumerates(order)
    ensures a in PlainOrder(x, order) <==> Reachable(x, order, a) && Readable(x, a)
  {
    if InFunction(x, x.entry) {
      assert Path(x, order, [x.entry]);
      assert Reachable(x, order, x.entry);
    }
    PlainKeepsClaims(x, order, [x.entry], []);
    if Readable(x, x.entry) { PlainStartsAtEntry(x, order); }
    if Reachable(x, order, a) && Readable(x, a) {
      var p :| Path(x, order, p) && p[|p| - 1] == a;
      PathIsTraversed(x, order, p);
    }
  }

  /** The walk and the traversal have gone through the same instructions, none of them behind its shadow. */
  ghost predicate Together(x: Extent, order: Order, done: seq<int>, w: Walk) {
    && (forall a :: a in w.decoded <==> a in done)
    && MarksSlots(x, order, w) && !Shadowed(x, order, done)
    && forall a :: a in done ==> Readable(x, a)
  }

  lemma TogetherStep(x: Extent, order: Order, done: seq<int>, w: Walk, pc: int)
    requires Together(x, order, done, w) && Decodes(x, w, pc)
    ensures Together(x, order, done + [pc], After(x, w, pc, EffectAt(x, order, pc)))
  {
    MarkingStep(x, order, w, pc);
    forall i | 0 <= i < |done| ensures !HasSlot(x, order, done[i], pc) {
      assert done[i] in done;
    }
    forall i, j ensures !Shadows(x, order, done + [pc], i, j) {
      assert !Shadows(x, order, done, i, j);
    }
  }

  /** A marked slot is never decoded later. */
  lemma {:induction false} MarkedStaysUndecoded(x: Extent, order: Order, work: seq<int>, w: Walk, a: int)
    requires a in w.visited && a !in w.decoded
    ensures a !in Explore(x, order, work, w).decoded
    decreases Room(x) - w.visited, |work|
  {
    if work != [] {
      if Decodes(x, w, work[0]) {
        var e := EffectAt(x, order, work[0]);
        assert work[0] in Room(x) - w.visited;
        MarkedStaysUndecoded(x, order, work[1..] + e.next, After(x, w, work[0], e), a);
      } else {
        MarkedStaysUndecoded(x, order, work[1..], w, a);
      }
    }
  }

  lemma ShadowStays(x: Extent, order: Order, work: seq<int>, done: seq<int>)
    requires Shadowed(x, order, done)
    ensures Shadowed(x, order, Plain(x, order, work, done))
  {
    var i, j :| Shadows(x, order, done, i, j);
    assert Shadows(x, order, Plain(x, order, work, done), i, j);
  }

  /** The first marked instruction the traversal takes is where the two part. */
  lemma MarkedIsShadowed(x: Extent, order: Order, done: seq<int>, w: Walk, pc: int)
    requires Together(x, order, done, w) && IsNew(x, done, pc) && pc in w.visited
    ensures Shadowed(x, order, done + [pc])
  {
    assert pc - 4 in done;
    var i :| 0 <= i < |done| && done[i] == pc - 4;
    assert Shadows(x, order, done + [pc], i, |done|);
  }

  lemma NotTakenIsNotDecoded(x: Extent, order: Order, done: seq<int>, w: Walk, pc: int)
    requires Together(x, order, done, w) && !IsNew(x, done, pc)
    ensures !Decodes(x, w, pc)
  {
    if pc in done {
      assert pc in w.decoded && Marked(x, order, w, pc);
    }
  }

  ghost predicate Misses(w: Walk, all: seq<int>) {
    exists a :: a in all && a !in w.decoded
  }

  lemma PartingMisses(x: Extent, order: Order, work: seq<int>, done: seq<int>, w: Walk)
    requires Together(x, order, done, w) && work != [] && IsNew(x, done, work[0]) && work[0] in w.visited
    ensures Shadowed(x, order, Plain(x, order, work, done))
    ensures Misses(Explore(x, order, work, w), Plain(x, order, work, done))
  {
    var pc := work[0];
    var rest := work[1..] + EffectAt(x, order, pc).next;
    ElementsAppend(done, pc);
    assert Plain(x, order, work, done) == Plain(x, order, rest, done + [pc]);
    MarkedIsShadowed(x, order, done, w, pc);
    ShadowStays(x, order, rest, done + [pc]);
    MarkedStaysUndecoded(x, order, work, w, pc);
    assert pc in done + [pc] && done + [pc] <= Plain(x, order, work, done);
    assert Plain(x, order, work, done)[|done|] == pc;
  }

  lemma {:induction false} WalkFollowsPlain(x: Extent, order: Order, work: seq<int>, done: seq<int>, w: Walk)
    requires Together(x, order, done, w)
    ensures Shadowed(x, order, Plain(x, order, work, done))
            <==> Misses(Explore(x, order, work, w), Plain(x, order, work, done))
    decreases Room(x) - Elements(done), |work|
  {
    if work != [] {
      var pc := work[0];
      if !IsNew(x, done, pc) {
        assert Plain(x, order, work, done) == Plain(x, order, work[1..], done);
        NotTakenIsNotDecoded(x, order, done, w, pc);
        assert Explore(x, order, work, w) == Explore(x, order, work[1..], w);
        WalkFollowsPlain(x, order, work[1..], done, w);
      } else if pc in w.visited {
        PartingMisses(x, order, work, done, w);
      } else {
        var rest, after := work[1..] + EffectAt(x, order, pc).next, After(x, w, pc, EffectAt(x, order, pc));
        ElementsAppend(done, pc);
        assert pc in Room(x) - Elements(done);
        assert Plain(x, order, work, done) == Plain(x, order, rest, done + [pc]);
        assert Explore(x, order, work, w) == Explore(x, order, rest, after);
        TogetherStep(x, order, done, w, pc);
        WalkFollowsPlain(x, order, rest, done + [pc], after);
      }
    }
  }

  /** The walk decodes everything that is reached exactly when, in the plain traversal of the successor edges, no
      instruction comes after the one whose delay slot it is. */
  lemma DecodesAllReachedIffNoneShadowed(x: Extent, order: Order)
    requires Enumerates(order)
    ensures DecodesAllReached(x, order) <==> !Shadowed(x, order, PlainOrder(x, order))
  {
    WalkIsExact(x, order);
    WalkFollowsPlain(x, order, [x.entry], [], UNWALKED);
    forall a ensures a in PlainOrder(x, order) <==> Reachable(x, order, a) && Readable(x, a) {
      PlainIsReachable(x, order, a);
    }
  }

  /** In particular when no reached instruction is the delay slot of a reached one, as in code that never jumps
      into a delay slot. */
  lemma SeparateSlotsAreHarmless(x: Extent, order: Order)
    requires Enumerates(order)
    requires forall a, b :: HasSlot(x, order, a, b) && Reachable(x, order, a) && Readable(x, b) ==>
            !Reachable(x, order, b)
    ensures DecodesAllReached(x, order)
  {
    DecodesAllReachedIffNoneShadowed(x, order);
    if Shadowed(x, order, PlainOrder(x, order)) {
      var i, j :| Shadows(x, order, PlainOrder(x, order), i, j);
      PlainIsReachable(x, order, PlainOrder(x, order)[i]);
      PlainIsReachable(x, order, PlainOrder(x, order)[j]);
    }
  }

  // ----- lower caps

  ghost predicate IsLowered(x: Extent, y: Extent) {
    x.image == y.image && x.entry == y.entry && x.cap <= y.cap
  }

  lemma {:induction false} LowerScan(x: Extent, y: Extent, pc: int, reg: nat, back: nat, s: Scan)
    requires IsLowered(x, y) && 1 <= back <= 41
    ensures ScanBack(x, pc, reg, back, s) == ScanBack(y, pc, reg, back, s)
    decreases 41 - back
  {
    var w := WordAt(x.image, pc - back * 4);
    if back < 41 && w.Some? {
      LowerScan(x, y, pc, reg, back + 1, ScanWord(s, w.value, reg));
    }
  }

  lemma {:induction false} LowerTargets(x: Extent, y: Extent, base: int, count: nat)
    requires IsLowered(x, y)
    ensures TableTargets(x, base, count) <= TableTargets(y, base, count)
  {
    if count > 0 { LowerTargets(x, y, base, count - 1); }
  }

  lemma LowerEffect(x: Extent, y: Extent, order: Order, pc: int, w: nat)
    requires Enumerates(order) && IsLowered(x, y)
    ensures EffectOf(x, order, pc, w).jals == EffectOf(y, order, pc, w).jals
    ensures forall a :: a in EffectOf(x, order, pc, w).next ==> a in EffectOf(y, order, pc, w).next
  {
    if Classify(pc, w).JumpReg? {
      var s := ScanBack(x, pc, Classify(pc, w).reg, 1, NOTHING_YET);
      LowerScan(x, y, pc, Classify(pc, w).reg, 1, NOTHING_YET);
      if s.lui.Some? { LowerTargets(x, y, TableBase(s), s.count); }
    }
  }

  lemma LowerPath(x: Extent, y: Extent, order: Order, p: seq<int>)
    requires Enumerates(order) && IsLowered(x, y) && Path(x, order, p)
    ensures Path(y, order, p)
  {
    forall i | 0 <= i < |p| - 1 ensures Edge(y, order, p[i], p[i + 1]) {
      assert Edge(x, order, p[i], p[i + 1]);
      LowerEffect(x, y, order, p[i], WordAt(x.image, p[i]).value);
    }
  }

  /** A walk with a lower cap calls nothing new, unless the walk with the higher cap left reached code undecoded. */
  lemma LowerCapCallsLess(x: Extent, y: Extent, order: Order)
    requires Enumerates(order) && IsLowered(x, y) && DecodesAllReached(y, order)
    ensures WalkFrom(x, order).directJals <= WalkFrom(y, order).directJals
  {
    WalkIsExact(x, order);
    WalkIsExact(y, order);
    forall t | t in WalkFrom(x, order).directJals ensures t in WalkFrom(y, order).directJals {
      var a :| a in WalkFrom(x, order).decoded && t in EffectAt(x, order, a).jals;
      var p :| Path(x, order, p) && p[|p| - 1] == a;
      LowerPath(x, y, order, p);
      assert Reachable(y, order, a) && Readable(y, a);
      LowerEffect(x, y, order, a, WordAt(x.image, a).value);
    }
  }

  /** Three words at address 0: a jump to its own delay slot, and two no-ops. */
  function SlotJumper(): Extent {
    Extent(Image([1, 0, 0, 8, 0, 0, 0, 0, 0, 0, 0, 0], 0, 12), 0, 12)
  }

  lemma SlotJumperWords()
    ensures var m := SlotJumper().image;
            WordAt(m, 0) == Some(0x0800_0001) && WordAt(m, 4) == Some(0) && WordAt(m, 8) == Some(0)
  {
  }

  lemma SlotJumperFlow()
    ensures Classify(0, 0x0800_0001) == Jump(4) && Classify(4, 0) == Normal
  {
  }

  lemma InsideOne(x: Extent, a: int)
    requires InFunction(x, a)
    ensures Inside(x, [a]) == [a] && Elements([a]) == {a}
  {
    assert [a][1..] == [];
  }

  lemma SlotJumperEffects(order: Order)
    ensures var x := SlotJumper();
            && WordAt(x.image, 0) == Some(0x0800_0001) && WordAt(x.image, 4) == Some(0) && WordAt(x.image, 8) == Some(0)
            && EffectOf(x, order, 0, 0x0800_0001) == Effect(true, [4], {4}, {}, {})
            && EffectOf(x, order, 4, 0) == Effect(false, [8], {}, {}, {})
  {
    SlotJumperWords();
    SlotJumperFlow();
    InsideOne(SlotJumper(), 4);
    InsideOne(SlotJumper(), 8);
  }

  lemma SlotJumperWalk(order: Order)
    ensures WalkFrom(SlotJumper(), order).decoded == {0} && WalkFrom(SlotJumper(), order).visited == {0, 4}
  {
    var x := SlotJumper();
    SlotJumperEffects(order);
    var w := After(x, UNWALKED, 0, EffectOf(x, order, 0, 0x0800_0001));
    assert w.decoded == {0} && w.visited == {0, 4};
    assert [0][1..] + [4] == [4] && [4][1..] == [];
    assert Decodes(x, UNWALKED, 0) && !Decodes(x, w, 4);
    assert WalkFrom(x, order) == Explore(x, order, [4], w) == Explore(x, order, [], w) == w;
  }

  lemma SlotJumperEdges(order: Order)
    ensures var x := SlotJumper();
            Edge(x, order, 0, 4) && Edge(x, order, 4, 8) && Readable(x, 4) && Readable(x, 8)
  {
    SlotJumperEffects(order);
  }

  /** It can miss code: in a function that jumps into its own delay slot, the slot is marked and never decoded,
      and neither is what follows it. */
  lemma MarkedSlotCanHideCode(order: Order)
    ensures var x := SlotJumper();
            && !DecodesAllReached(x, order)
            && Reachable(x, order, 8) && Readable(x, 8) && 8 !in WalkFrom(x, order).visited
  {
    var x := SlotJumper();
    SlotJumperEdges(order);
    SlotJumperWalk(order);
    var p := [0, 4, 8];
    assert Path(x, order, p) && p[|p| - 1] == 8;
    assert Reachable(x, order, 8);
  }

  lemma EffectCallsAreCallable(x: Extent, order: Order, pc: int, w: nat, t: int)
    requires t in EffectOf(x, order, pc, w).jals
    ensures x.image.load <= t < x.image.load + x.image.size && t % 4 == 0 && Callable(x.image, t)
  {
  }

  /** Direct call targets of a walk are callable addresses of the region. */
  lemma CallsAreCallable(x: Extent, order: Order)
    requires Enumerates(order)
    ensures forall t :: t in WalkFrom(x, order).directJals ==>
              x.image.load <= t < x.image.load + x.image.size && t % 4 == 0 && Callable(x.image, t)
  {
    WalkIsExact(x, order);
    var w := WalkFrom(x, order);
    forall t | t in w.directJals
      ensures x.image.load <= t < x.image.load + x.image.size && t % 4 == 0 && Callable(x.image, t)
    {
      var a :| a in w.decoded && t in EffectAt(x, order, a).jals;
      EffectCallsAreCallable(x, order, a, WordAt(x.image, a).value, t);
    }
  }

  lemma SoundIsInside(x: Extent, order: Order, w: Walk)
    requires Sound(x, order, [], w)
    ensures forall a :: a in w.visited ==> InFunction(x, a)
  {
    forall a | a in w.visited ensures InFunction(x, a) {
      assert Marked(x, order, w, a);
    }
  }

  lemma WalkStaysInside(x: Extent, order: Order)
    requires Enumerates(order)
    ensures forall a :: a in WalkFrom(x, order).visited ==> InFunction(x, a)
  {
    WalkIsExact(x, order);
    SoundIsInside(x, order, WalkFrom(x, order));
  }

  /** A function capped at or before the entry of another shares no address with it. */
  lemma CappedWalksAreDisjoint(x: Extent, y: Extent, order: Order)
    requires Enumerates(order) && x.cap <= y.entry
    ensures WalkFrom(x, order).visited !! WalkFrom(y, order).visited
  {
    WalkStaysInside(x, order);
    WalkStaysInside(y, order);
    var (vx, vy) := (WalkFrom(x, order).visited, WalkFrom(y, order).visited);
    assert forall a :: a in vx ==> a < x.cap;
    assert forall a :: a in vy ==> y.entry <= a;
    assert vx !! vy;
  }
}
