/**
 The read planner: batched Modbus reads of the configured registers of one width of one PLC.

 `PlanFrom` is what the nested loops do; the lemmas show that a plan reads every configured register exactly
 once, nothing else, and that no other choice of reads is shorter.
 */
module StatusQuery {
  import opened Bytes
  import opened SwitchIndex
  import Modbus

  const MAX_LORA_DATA_LEN: nat := 20
  const MAX_REG_IN_ONE_READ: nat := MAX_LORA_DATA_LEN / 2

  /** `count` consecutive registers from `start`. */
  datatype Read = Read(start: nat, count: nat)

  predicate Reads(read: Read, r: int) {
    read.start <= r < read.start + read.count
  }

  // ---------------------------------------------------------------- the plan

  /** The end of the run of configured registers at `i`, cut at `limit`. */
  function RunEnd(marks: seq<bool>, i: nat, limit: nat): (e: nat)
    requires i <= |marks| && i <= limit
    ensures i <= e <= |marks| && e <= limit
    ensures forall r :: i <= r < e ==> marks[r]
    ensures e == limit || e == |marks| || !marks[e]
    decreases |marks| - i
  {
    if i < limit && i < |marks| && marks[i] then RunEnd(marks, i + 1, limit) else i
  }

  function NextConfigured(marks: seq<bool>, i: nat): (n: nat)
    requires i <= |marks|
    ensures i <= n <= |marks| && (n < |marks| ==> marks[n])
    ensures forall r :: i <= r < n ==> !marks[r]
    decreases |marks| - i
  {
    if i < |marks| && !marks[i] then NextConfigured(marks, i + 1) else i
  }

  /** Where the read that starts at `start` ends. */
  function ReadEnd(marks: seq<bool>, start: nat): (e: nat)
    requires start < |marks| && marks[start]
    ensures start < e <= |marks|
  {
    RunEnd(marks, start, start + MAX_REG_IN_ONE_READ)
  }

  function PlanFrom(marks: seq<bool>, start: nat): seq<Read>
    requires start <= |marks| && (start < |marks| ==> marks[start])
    decreases |marks| - start
  {
    if start == |marks| then []
    else
      var e := ReadEnd(marks, start);
      [Read(start, e - start)] + PlanFrom(marks, NextConfigured(marks, e))
  }

  /** The plan for a register index whose first configured register is `first`. */
  function Plan(marks: seq<bool>, first: int): seq<Read>
    requires IsFirst(marks, first)
  {
    PlanFrom(marks, first)
  }

  predicate IsFirst(marks: seq<bool>, first: int) {
    && 0 <= first <= |marks| && (first < |marks| ==> marks[first])
    && forall r :: 0 <= r < first ==> !marks[r]
  }

  // ---------------------------------------------------------------- what a plan achieves

  /** A read a device answers with configured registers only, within the limit of one reply. */
  ghost predicate Allowed(marks: seq<bool>, read: Read) {
    && 0 < read.count <= 10 && read.start + read.count <= |marks|
    && forall r :: Reads(read, r) ==> marks[r]
  }

  ghost predicate AllAllowed(marks: seq<bool>, batch: seq<Read>) {
    forall k :: 0 <= k < |batch| ==> Allowed(marks, batch[k])
  }

  ghost predicate Covered(batch: seq<Read>, r: int) {
    exists k :: 0 <= k < |batch| && Reads(batch[k], r)
  }

  /** The reads are in ascending order and share no register. */
  predicate Ascending(batch: seq<Read>) {
    forall i, j :: 0 <= i < j < |batch| ==> batch[i].start + batch[i].count <= batch[j].start
  }

  /** What a list of reads achieves for the registers from `start` on. */
  ghost predicate Sweeps(marks: seq<bool>, start: nat, batch: seq<Read>) {
    && AllAllowed(marks, batch) && Ascending(batch)
    && (forall k :: 0 <= k < |batch| ==> start <= batch[k].start)
    && forall r :: start <= r < |marks| && marks[r] ==> Covered(batch, r)
  }

  lemma {:induction false} PlanFromSweeps(marks: seq<bool>, start: nat)
    requires start <= |marks| && (start < |marks| ==> marks[start])
    ensures Sweeps(marks, start, PlanFrom(marks, start))
    decreases |marks| - start
  {
    hide *;
    if start == |marks| {
      PlanStop(marks);
      NothingToSweep(marks);
    } else {
      var e := ReadEnd(marks, start);
      var next := NextConfigured(marks, e);
      ReadEndIs(marks, start);
      PlanStep(marks, start);
      PlanFromSweeps(marks, next);
      SweepsMore(marks, start, e, next, PlanFrom(marks, next));
    }
  }

  lemma ReadEndIs(marks: seq<bool>, start: nat)
    requires start < |marks| && marks[start]
    ensures ReadEnd(marks, start) == RunEnd(marks, start, start + MAX_REG_IN_ONE_READ)
  {
  }

  lemma NothingToSweep(marks: seq<bool>)
    ensures Sweeps(marks, |marks|, [])
  {
  }

  /** A read up to `e`, nothing configured up to `next`, and a sweep of the rest. */
  lemma SweepsMore(marks: seq<bool>, start: nat, e: nat, next: nat, rest: seq<Read>)
    requires start < e <= next <= |marks| && e <= start + MAX_REG_IN_ONE_READ
    requires forall r :: start <= r < e ==> marks[r]
    requires forall r :: e <= r < next ==> !marks[r]
    requires Sweeps(marks, next, rest)
    ensures Sweeps(marks, start, [Read(start, e - start)] + rest)
  {
    hide Covered;
    var batch := [Read(start, e - start)] + rest;
    forall r | start <= r < |marks| && marks[r]
      ensures Covered(batch, r)
    {
      CoveredCons(batch[0], rest, r);
    }
    assert forall k :: 0 < k < |batch| ==> batch[k] == rest[k - 1];
  }

  lemma CoveredCons(read: Read, rest: seq<Read>, r: int)
    ensures Covered([read] + rest, r) <==> Reads(read, r) || Covered(rest, r)
  {
    var all := [read] + rest;
    if Reads(read, r) {
      assert Reads(all[0], r);
    } else if Covered(rest, r) {
      var k :| 0 <= k < |rest| && Reads(rest[k], r);
      assert Reads(all[k + 1], r);
    }
  }

  /**
   The plan consists of non-empty reads of at most ten configured registers, ascending and disjoint, and
   covers exactly the configured registers.
   */
  lemma PlanCovers(marks: seq<bool>, first: int)
    requires IsFirst(marks, first)
    ensures AllAllowed(marks, Plan(marks, first)) && Ascending(Plan(marks, first))
    ensures forall r :: Covered(Plan(marks, first), r) <==> 0 <= r < |marks| && marks[r]
  {
    PlanFromSweeps(marks, first);
    var plan := Plan(marks, first);
    forall r | Covered(plan, r)
      ensures 0 <= r < |marks| && marks[r]
    {
      var k :| 0 <= k < |plan| && Reads(plan[k], r);
      assert Allowed(marks, plan[k]);
    }
  }

  /** In ascending reads no register is read twice. */
  lemma ReadOnce(batch: seq<Read>, r: int, i: nat, j: nat)
    requires Ascending(batch) && i < |batch| && j < |batch| && i != j
    ensures !(Reads(batch[i], r) && Reads(batch[j], r))
  {
  }

  /** An allowed read that covers `start` ends no later than the read the planner makes there. */
  lemma GreedyReachesFurthest(marks: seq<bool>, start: nat, read: Read)
    requires start < |marks| && Allowed(marks, read) && Reads(read, start)
    ensures read.start + read.count <= ReadEnd(marks, start)
  {
  }

  lemma {:induction false} NoneShorterFrom(marks: seq<bool>, start: nat, other: seq<Read>)
    requires start <= |marks| && (start < |marks| ==> marks[start])
    requires AllAllowed(marks, other)
    requires forall r :: start <= r < |marks| && marks[r] ==> Covered(other, r)
    ensures |PlanFrom(marks, start)| <= |other|
    decreases |marks| - start
  {
    if start < |marks| {
      assert Covered(other, start);
      var k :| 0 <= k < |other| && Reads(other[k], start);
      GreedyReachesFurthest(marks, start, other[k]);
      var next := NextConfigured(marks, ReadEnd(marks, start));
      var rest := other[..k] + other[k + 1..];
      forall r | next <= r < |marks| && marks[r]
        ensures Covered(rest, r)
      {
        assert Covered(other, r);
        var j :| 0 <= j < |other| && Reads(other[j], r);
        assert rest[if j < k then j else j - 1] == other[j];
      }
      NoneShorterFrom(marks, next, rest);
    }
  }

  /** No other reads of configured registers, at most ten each, cover them with fewer requests. */
  lemma NoneShorter(marks: seq<bool>, first: int, other: seq<Read>)
    requires IsFirst(marks, first) && AllAllowed(marks, other)
    requires forall r :: 0 <= r < |marks| && marks[r] ==> Covered(other, r)
    ensures |Plan(marks, first)| <= |other|
  {
    NoneShorterFrom(marks, first, other);
  }

  // ---------------------------------------------------------------- the loops

  /** A frame for a LoRa node, as handed to the websocket queue. */
  datatype Query = Query(lora: seq<byte>, frame: seq<Modbus.Byte>)

  function QueriesOf(lora: seq<byte>, plc: int, batch: seq<Read>): (r: seq<Query>)
    ensures |r| == |batch|
  {
    seq(|batch|, k requires 0 <= k < |batch| =>
      Query(lora, Modbus.Frame(plc, Modbus.FC_READ, batch[k].start, batch[k].count)))
  }

  /** One width of one PLC. */
  method QueryRegisters(lora: seq<byte>, plc: int, marks: array<bool>, first: int) returns (sent: seq<Query>)
    requires marks.Length == REGISTERS && IsFirst(marks[..], first)
    ensures sent == QueriesOf(lora, plc, Plan(marks[..], first))
  {
    hide *;
    ghost var bits := marks[..];
    ghost var batch: seq<Read> := [];
    sent := [];
    FirstInRange(bits, first);
    NoQueries(lora, plc);
    var startReg := first;
    if first < MAX_REG_ADDR + 1 {
      while startReg < MAX_REG_ADDR + 1
        invariant 0 <= startReg <= REGISTERS == |bits| && (startReg < REGISTERS ==> bits[startReg])
        invariant sent == QueriesOf(lora, plc, batch)
        invariant Plan(bits, first) == batch + PlanFrom(bits, startReg)
        decreases REGISTERS - startReg
      {
        var i := startReg;
        var regContinuous := 0;
        while regContinuous < MAX_REG_IN_ONE_READ && i <= MAX_REG_ADDR && marks[i]
          invariant startReg <= i <= REGISTERS && regContinuous == i - startReg <= MAX_REG_IN_ONE_READ
          invariant RunEnd(bits, startReg, startReg + MAX_REG_IN_ONE_READ)
                    == RunEnd(bits, i, startReg + MAX_REG_IN_ONE_READ)
          decreases REGISTERS - i
        {
          RunStep(bits, i, startReg + MAX_REG_IN_ONE_READ);
          regContinuous := regContinuous + 1;
          i := i + 1;
        }
        RunStop(bits, i, startReg + MAX_REG_IN_ONE_READ);
        ReadEndIs(bits, startReg);
        var frame := Modbus.Compose(plc, Modbus.FC_READ, startReg, i - startReg);
        sent := sent + [Query(lora, frame[..])];
        var nextReg := i;
        while nextReg <= MAX_REG_ADDR && !marks[nextReg]
          invariant i <= nextReg <= REGISTERS
          invariant NextConfigured(bits, i) == NextConfigured(bits, nextReg)
          decreases REGISTERS - nextReg
        {
          NextStep(bits, nextReg);
          nextReg := nextReg + 1;
        }
        NextStop(bits, nextReg);
        PlanStep(bits, startReg);
        QueriesMore(lora, plc, batch, Read(startReg, i - startReg));
        batch := batch + [Read(startReg, i - startReg)];
        startReg := nextReg;
      }
    }
    PlanStop(bits);
    assert batch + [] == batch;
  }

  lemma FirstInRange(marks: seq<bool>, first: int)
    requires IsFirst(marks, first)
    ensures 0 <= first <= |marks| && (first < |marks| ==> marks[first])
    ensures Plan(marks, first) == PlanFrom(marks, first) == [] + PlanFrom(marks, first)
    ensures REGISTERS == MAX_REG_ADDR + 1 && MAX_REG_IN_ONE_READ == 10
  {
  }

  lemma NoQueries(lora: seq<byte>, plc: int)
    ensures QueriesOf(lora, plc, []) == []
  {
  }

  lemma QueriesMore(lora: seq<byte>, plc: int, batch: seq<Read>, read: Read)
    ensures QueriesOf(lora, plc, batch + [read]) ==
            QueriesOf(lora, plc, batch) + [Query(lora, Modbus.Frame(plc, Modbus.FC_READ, read.start, read.count))]
  {
  }

  lemma RunStep(marks: seq<bool>, i: nat, limit: nat)
    requires i < |marks| && i < limit && marks[i]
    ensures RunEnd(marks, i, limit) == RunEnd(marks, i + 1, limit)
  {
  }

  lemma RunStop(marks: seq<bool>, i: nat, limit: nat)
    requires i <= |marks| && i <= limit && (i == limit || i == |marks| || !marks[i])
    ensures RunEnd(marks, i, limit) == i
  {
  }

  lemma NextStep(marks: seq<bool>, i: nat)
    requires i < |marks| && !marks[i]
    ensures NextConfigured(marks, i) == NextConfigured(marks, i + 1)
  {
  }

  lemma NextStop(marks: seq<bool>, i: nat)
    requires i <= |marks| && (i < |marks| ==> marks[i])
    ensures NextConfigured(marks, i) == i
  {
  }

  lemma PlanStep(marks: seq<bool>, start: nat)
    requires start < |marks| && marks[start]
    ensures var e := ReadEnd(marks, start);
            PlanFrom(marks, start) == [Read(start, e - start)] + PlanFrom(marks, NextConfigured(marks, e))
  {
    hide ReadEnd;
    hide NextConfigured;
  }

  lemma PlanStop(marks: seq<bool>)
    ensures PlanFrom(marks, |marks|) == []
  {
  }

  /** The index of a PLC tells the planner where to start. */
  lemma IndexedFirst(defs: seq<Switch>, plc: int, length: int, marks: seq<bool>, first: int, last: int)
    requires Indexed(defs, plc, length, marks, first, last)
    ensures IsFirst(marks, first)
  {
  }
}
