/**
 The status sweep: for every LoRa node and every PLC, the planned reads of both widths.

 What a sweep sends is judged from the outside: how many of the frames sent to a LoRa node does a device behind
 it read as asking for a given register?
 */
module StatusSweep {
  import opened Bytes
  import opened StatusQuery
  import opened SwitchIndex
  import Modbus
  import ModbusDevice

  // ---------------------------------------------------------------- the loops over nodes and PLCs

  /** The fields of a PLC node that the sweep reads. */
  datatype Index = Index(plc: int, oneByte: seq<bool>, firstOne: int, twoByte: seq<bool>, firstTwo: int)

  ghost function Snapshot(p: PlcNode): Index
    reads p, p.channel1B, p.channel2B
  {
    Index(p.addr485, p.channel1B[..], p.first1B, p.channel2B[..], p.first2B)
  }

  ghost predicate Ready(index: Index) {
    && |index.oneByte| == REGISTERS && IsFirst(index.oneByte, index.firstOne)
    && |index.twoByte| == REGISTERS && IsFirst(index.twoByte, index.firstTwo)
  }

  ghost function QueriesForPlc(lora: seq<byte>, index: Index): seq<Query>
    requires Ready(index)
  {
    QueriesOf(lora, index.plc, Plan(index.oneByte, index.firstOne))
    + QueriesOf(lora, index.plc, Plan(index.twoByte, index.firstTwo))
  }

  ghost function QueriesForPlcs(lora: seq<byte>, plcs: seq<Index>): seq<Query>
    requires forall i :: 0 <= i < |plcs| ==> Ready(plcs[i])
  {
    if plcs == [] then []
    else QueriesForPlcs(lora, plcs[..|plcs| - 1]) + QueriesForPlc(lora, plcs[|plcs| - 1])
  }

  /** Node by node, PLC by PLC, the one-byte registers before the two-byte ones. */
  ghost function QueriesForAll(loras: seq<seq<byte>>, plcs: seq<Index>): seq<Query>
    requires forall i :: 0 <= i < |plcs| ==> Ready(plcs[i])
  {
    if loras == [] then []
    else QueriesForAll(loras[..|loras| - 1], plcs) + QueriesForPlcs(loras[|loras| - 1], plcs)
  }

  /** The inner loop: all PLCs of one LoRa node. */
  method SweepNode(lora: seq<byte>, plcs: seq<PlcNode>, ghost index: seq<Index>) returns (sent: seq<Query>)
    requires |index| == |plcs|
    requires forall i :: 0 <= i < |plcs| ==> Ready(index[i]) && Snapshot(plcs[i]) == index[i]
    ensures sent == QueriesForPlcs(lora, index)
  {
    hide QueriesOf;
    hide Plan;
    hide IsFirst;
    sent := [];
    assert index[..0] == [];
    for j := 0 to |plcs|
      invariant forall k :: 0 <= k < |plcs| ==> Snapshot(plcs[k]) == index[k]
      invariant sent == QueriesForPlcs(lora, index[..j])
    {
      ghost var before := sent;
      assert index[..j + 1][..j] == index[..j];
      assert plcs[j].channel1B.Length == REGISTERS && plcs[j].channel2B.Length == REGISTERS by {
        assert |Snapshot(plcs[j]).oneByte| == REGISTERS && |Snapshot(plcs[j]).twoByte| == REGISTERS;
      }
      var one := QueryRegisters(lora, plcs[j].addr485, plcs[j].channel1B, plcs[j].first1B);
      var two := QueryRegisters(lora, plcs[j].addr485, plcs[j].channel2B, plcs[j].first2B);
      sent := sent + one + two;
      assert sent == before + (one + two);
    }
    assert index[..|plcs|] == index;
  }

  method SweepNodes(loras: seq<seq<byte>>, plcs: seq<PlcNode>, ghost index: seq<Index>) returns (sent: seq<Query>)
    requires |index| == |plcs|
    requires forall i :: 0 <= i < |plcs| ==> Ready(index[i]) && Snapshot(plcs[i]) == index[i]
    ensures sent == QueriesForAll(loras, index)
  {
    hide Ready;
    hide QueriesForPlcs;
    sent := [];
    assert loras[..0] == [];
    for i := 0 to |loras|
      invariant forall k :: 0 <= k < |plcs| ==> Snapshot(plcs[k]) == index[k]
      invariant sent == QueriesForAll(loras[..i], index)
    {
      assert loras[..i + 1][..i] == loras[..i];
      var node := SweepNode(loras[i], plcs, index);
      sent := sent + node;
    }
    assert loras[..|loras|] == loras;
  }

  /** A device at 485 address `plc` reads the query as asking for register `r`. */
  ghost predicate AsksFor(query: Query, plc: int, r: int) {
    match ModbusDevice.React(query.frame, plc % 0x100)
    case Returns(first, count) => first <= r < first + count
    case _ => false
  }

  // ---------------------------------------------------------------- counting queries

  /** How many of the queries go to `lora` and are read as asking for `r` by a device at address `plc`. */
  ghost function Asked(sent: seq<Query>, lora: seq<byte>, plc: int, r: int): nat {
    if sent == [] then 0
    else
      var last := sent[|sent| - 1];
      Asked(sent[..|sent| - 1], lora, plc, r) + if last.lora == lora && AsksFor(last, plc, r) then 1 else 0
  }

  lemma {:induction false} AskedConcat(a: seq<Query>, b: seq<Query>, lora: seq<byte>, plc: int, r: int)
    ensures Asked(a + b, lora, plc, r) == Asked(a, lora, plc, r) + Asked(b, lora, plc, r)
  {
    hide AsksFor;
    if b == [] {
      assert a + b == a;
    } else {
      assert (a + b)[..|a + b| - 1] == a + b[..|b| - 1];
      AskedConcat(a, b[..|b| - 1], lora, plc, r);
    }
  }

  /** Addresses go out as one byte, so PLCs that agree in it hear each other's queries. */
  predicate Hears(plc: int, addressed: int) {
    plc % 0x100 == addressed % 0x100
  }

  lemma BatchSize(count: int)
    ensures count <= MAX_REG_IN_ONE_READ ==> count <= 10
  {
  }

  lemma QueryAsksFor(marks: seq<bool>, lora: seq<byte>, addressed: int, read: Read, plc: int, r: int)
    requires |marks| == REGISTERS && Allowed(marks, read)
    ensures var query := Query(lora, Modbus.Frame(addressed, Modbus.FC_READ, read.start, read.count));
            AsksFor(query, plc, r) <==> Hears(plc, addressed) && Reads(read, r)
  {
    hide ModbusDevice.React;
    hide Modbus.Frame;
    BatchSize(read.count);
    ModbusDevice.ReadReturns(addressed, read.start, read.count, plc % 0x100);
  }

  /** Ascending reads of configured registers ask for a register once or not at all. */
  lemma {:induction false} AskedOfBatch(marks: seq<bool>, batch: seq<Read>, to: seq<byte>, addressed: int,
                                        lora: seq<byte>, plc: int, r: int)
    requires |marks| == REGISTERS && AllAllowed(marks, batch) && Ascending(batch)
    ensures Asked(QueriesOf(to, addressed, batch), lora, plc, r) ==
            if to == lora && Hears(plc, addressed) && Covered(batch, r) then 1 else 0
  {
    hide AsksFor;
    hide Modbus.Frame;
    hide Reads;
    if batch != [] {
      var front, last := batch[..|batch| - 1], batch[|batch| - 1];
      AskedOfBatch(marks, front, to, addressed, lora, plc, r);
      QueryAsksFor(marks, to, addressed, last, plc, r);
      CoveredLast(front, last, r);
      assert batch == front + [last];
      QueriesMore(to, addressed, front, last);
      var sent := QueriesOf(to, addressed, batch);
      assert sent[..|sent| - 1] == QueriesOf(to, addressed, front);
    }
  }

  lemma CoveredLast(front: seq<Read>, last: Read, r: int)
    requires Ascending(front + [last])
    ensures Covered(front + [last], r) <==> Covered(front, r) || Reads(last, r)
    ensures !(Covered(front, r) && Reads(last, r))
  {
    var batch := front + [last];
    if Covered(front, r) {
      var k :| 0 <= k < |front| && Reads(front[k], r);
      assert Reads(batch[k], r);
      ReadOnce(batch, r, k, |front|);
    }
    if Reads(last, r) {
      assert Reads(batch[|front|], r);
    }
  }

  // ---------------------------------------------------------------- what a sweep asks

  /** A node's fields say what the definitions say. */
  ghost predicate Reflects(index: Index, defs: seq<Switch>) {
    && Ready(index)
    && (forall r :: 0 <= r < REGISTERS ==> (index.oneByte[r] <==> Defined(defs, index.plc, 1, r)))
    && (forall r :: 0 <= r < REGISTERS ==> (index.twoByte[r] <==> Defined(defs, index.plc, 2, r)))
  }

  /** In how many of the two widths the definitions use a register of a PLC. */
  ghost function Widths(defs: seq<Switch>, plc: int, r: int): nat {
    (if Defined(defs, plc, 1, r) then 1 else 0) + if Defined(defs, plc, 2, r) then 1 else 0
  }

  /** The uses of a register by any PLC that a device at address `plc` hears the queries of. */
  ghost function Uses(addresses: seq<int>, defs: seq<Switch>, plc: int, r: int): nat {
    if addresses == [] then 0
    else
      var last := addresses[|addresses| - 1];
      Uses(addresses[..|addresses| - 1], defs, plc, r) + if Hears(plc, last) then Widths(defs, last, r) else 0
  }

  function Times(loras: seq<seq<byte>>, lora: seq<byte>): nat {
    if loras == [] then 0
    else Times(loras[..|loras| - 1], lora) + if loras[|loras| - 1] == lora then 1 else 0
  }

  lemma AskedOfPlc(index: Index, defs: seq<Switch>, to: seq<byte>, lora: seq<byte>, plc: int, r: int)
    requires Reflects(index, defs) && 0 <= r < REGISTERS
    ensures Asked(QueriesForPlc(to, index), lora, plc, r) ==
            if to == lora && Hears(plc, index.plc) then Widths(defs, index.plc, r) else 0
  {
    hide Asked;
    hide Plan;
    hide Defined;
    hide QueriesOf;
    hide IsFirst;
    hide Covered;
    var one, two := Plan(index.oneByte, index.firstOne), Plan(index.twoByte, index.firstTwo);
    PlanCovers(index.oneByte, index.firstOne);
    PlanCovers(index.twoByte, index.firstTwo);
    AskedOfBatch(index.oneByte, one, to, index.plc, lora, plc, r);
    AskedOfBatch(index.twoByte, two, to, index.plc, lora, plc, r);
    AskedConcat(QueriesOf(to, index.plc, one), QueriesOf(to, index.plc, two), lora, plc, r);
  }

  /** The nodes stand for these addresses. */
  ghost predicate AllReflect(index: seq<Index>, addresses: seq<int>, defs: seq<Switch>) {
    |index| == |addresses|
    && forall i :: 0 <= i < |index| ==> index[i].plc == addresses[i] && Reflects(index[i], defs)
  }

  lemma {:induction false} AskedOfPlcs(index: seq<Index>, addresses: seq<int>, defs: seq<Switch>,
                                       to: seq<byte>, lora: seq<byte>, plc: int, r: int)
    requires AllReflect(index, addresses, defs) && 0 <= r < REGISTERS
    ensures Asked(QueriesForPlcs(to, index), lora, plc, r) == if to == lora then Uses(addresses, defs, plc, r) else 0
  {
    hide Asked;
    hide Widths;
    hide QueriesForPlc;
    if index == [] {
      NothingAsked(lora, plc, r);
    } else {
      var n := |index| - 1;
      AskedOfPlcs(index[..n], addresses[..n], defs, to, lora, plc, r);
      AskedOfPlc(index[n], defs, to, lora, plc, r);
      AskedConcat(QueriesForPlcs(to, index[..n]), QueriesForPlc(to, index[n]), lora, plc, r);
    }
  }

  lemma NothingAsked(lora: seq<byte>, plc: int, r: int)
    ensures Asked([], lora, plc, r) == 0
  {
  }

  /** A whole sweep: as many queries as the node is listed, times the uses of the register. */
  lemma {:induction false} AskedOfSweep(loras: seq<seq<byte>>, index: seq<Index>, addresses: seq<int>,
                                        defs: seq<Switch>, lora: seq<byte>, plc: int, r: int)
    requires AllReflect(index, addresses, defs) && 0 <= r < REGISTERS
    ensures Asked(QueriesForAll(loras, index), lora, plc, r) == Times(loras, lora) * Uses(addresses, defs, plc, r)
  {
    hide Asked;
    hide Reflects;
    hide QueriesForPlcs;
    hide Uses;
    AllReady(index, defs);
    if loras == [] {
      NothingAsked(lora, plc, r);
    } else {
      var front, last := loras[..|loras| - 1], loras[|loras| - 1];
      AskedOfSweep(front, index, addresses, defs, lora, plc, r);
      AskedOfPlcs(index, addresses, defs, last, lora, plc, r);
      AskedConcat(QueriesForAll(front, index), QueriesForPlcs(last, index), lora, plc, r);
      var t, u := Times(front, lora), Uses(addresses, defs, plc, r);
      assert (t + 1) * u == t * u + u;
    }
  }

  lemma LoadedReflects(registry: Registry, defs: seq<Switch>, i: nat)
    requires registry.Holds(defs) && i < |registry.plcs|
    ensures Reflects(Snapshot(registry.plcs[i]), defs)
    ensures registry.plcs[i].addr485 == Addresses(defs)[i]
  {
    hide Defined;
    hide IsFirst;
    var p := registry.plcs[i];
    IndexedFirst(defs, p.addr485, 1, p.channel1B[..], p.first1B, p.last1B);
    IndexedFirst(defs, p.addr485, 2, p.channel2B[..], p.first2B, p.last2B);
  }

  lemma SnapshotAddress(p: PlcNode)
    ensures Snapshot(p).plc == p.addr485
  {
  }

  lemma AllReady(index: seq<Index>, defs: seq<Switch>)
    requires forall i :: 0 <= i < |index| ==> Reflects(index[i], defs)
    ensures forall i :: 0 <= i < |index| ==> Ready(index[i])
  {
  }

  // ---------------------------------------------------------------- exactly once

  /** No other definition puts the register, in either width, where a device at `plc` would hear it asked for. */
  ghost predicate OnlyUse(defs: seq<Switch>, plc: int, length: int, r: int) {
    forall i :: 0 <= i < |defs| && ReadAt(defs[i], r) && Hears(plc, defs[i].plc) && 1 <= defs[i].length <= 2 ==>
      defs[i].plc == plc && defs[i].length == length
  }

  ghost predicate AllDifferent(addresses: seq<int>) {
    forall i, j :: 0 <= i < j < |addresses| ==> addresses[i] != addresses[j]
  }

  lemma DifferentMore(addresses: seq<int>, plc: int)
    requires AllDifferent(addresses)
    ensures AllDifferent(WithAddress(addresses, plc))
  {
    if plc !in addresses {
      var a := [plc] + addresses;
      forall i, j | 0 <= i < j < |a|
        ensures a[i] != a[j]
      {
        assert a[j] == addresses[j - 1] && a[j] in addresses;
        assert i > 0 ==> a[i] == addresses[i - 1];
      }
    }
  }

  lemma {:induction false} AddressesDistinct(defs: seq<Switch>)
    ensures AllDifferent(Addresses(defs))
  {
    hide AllDifferent;
    if defs == [] {
      NoneDiffer();
    } else {
      AddressesDistinct(defs[..|defs| - 1]);
      DifferentMore(Addresses(defs[..|defs| - 1]), defs[|defs| - 1].plc);
    }
  }

  lemma NoneDiffer()
    ensures AllDifferent([])
  {
  }

  lemma {:induction false} NoUses(addresses: seq<int>, defs: seq<Switch>, plc: int, r: int)
    ensures Uses(addresses, defs, plc, r) == 0 <==>
            forall i :: 0 <= i < |addresses| && Hears(plc, addresses[i]) ==> Widths(defs, addresses[i], r) == 0
  {
    hide Widths;
    hide Hears;
    if addresses != [] {
      var front := addresses[..|addresses| - 1];
      NoUses(front, defs, plc, r);
      assert forall i :: 0 <= i < |front| ==> addresses[i] == front[i];
    }
  }

  /** Among different addresses, one of which uses the register. */
  lemma {:induction false} OneUse(addresses: seq<int>, defs: seq<Switch>, plc: int, r: int, k: nat)
    requires AllDifferent(addresses)
    requires k < |addresses| && addresses[k] == plc && Widths(defs, plc, r) > 0
    ensures Uses(addresses, defs, plc, r) == 1 <==>
            && Widths(defs, plc, r) == 1
            && forall i :: 0 <= i < |addresses| && i != k && Hears(plc, addresses[i]) ==>
                 Widths(defs, addresses[i], r) == 0
    ensures Uses(addresses, defs, plc, r) >= 1
  {
    hide Widths;
    var n := |addresses| - 1;
    var front := addresses[..n];
    assert forall i :: 0 <= i < n ==> addresses[i] == front[i];
    if k == n {
      NoUses(front, defs, plc, r);
    } else {
      OneUse(front, defs, plc, r, k);
    }
  }

  lemma WidthsOf(defs: seq<Switch>, plc: int, r: int)
    ensures Widths(defs, plc, r) == 0 <==> !Defined(defs, plc, 1, r) && !Defined(defs, plc, 2, r)
    ensures Widths(defs, plc, r) == 1 <==> (Defined(defs, plc, 1, r) <==> !Defined(defs, plc, 2, r))
  {
    hide Defined;
  }

  /** Every query counted by `Uses` is due to a definition, and the other way round. */
  lemma UseIsOnly(defs: seq<Switch>, plc: int, length: int, r: int)
    requires 1 <= length <= 2 && Defined(defs, plc, length, r)
    ensures Uses(Addresses(defs), defs, plc, r) == 1 <==> OnlyUse(defs, plc, length, r)
  {
    var addresses := Addresses(defs);
    AddressesDistinct(defs);
    AddressesUsed(defs, plc);
    var k :| 0 <= k < |addresses| && addresses[k] == plc;
    WidthsOf(defs, plc, r);
    OneUse(addresses, defs, plc, r, k);
    if OnlyUse(defs, plc, length, r) {
      OnlyUseWidths(defs, plc, length, r, k);
    } else {
      var i :| 0 <= i < |defs| && ReadAt(defs[i], r) && Hears(plc, defs[i].plc) && 1 <= defs[i].length <= 2
               && !(defs[i].plc == plc && defs[i].length == length);
      AddressesUsed(defs, defs[i].plc);
      var j :| 0 <= j < |addresses| && addresses[j] == defs[i].plc;
      assert Defined(defs, defs[i].plc, defs[i].length, r);
      WidthsOf(defs, defs[i].plc, r);
    }
  }

  lemma OnlyUseWidths(defs: seq<Switch>, plc: int, length: int, r: int, k: nat)
    requires 1 <= length <= 2 && Defined(defs, plc, length, r) && OnlyUse(defs, plc, length, r)
    requires k < |Addresses(defs)| && Addresses(defs)[k] == plc
    ensures Widths(defs, plc, r) == 1
    ensures var a := Addresses(defs);
            forall i :: 0 <= i < |a| && i != k && Hears(plc, a[i]) ==> Widths(defs, a[i], r) == 0
  {
    AddressesDistinct(defs);
    WidthsOf(defs, plc, r);
    var a := Addresses(defs);
    forall i | 0 <= i < |a| && i != k && Hears(plc, a[i])
      ensures Widths(defs, a[i], r) == 0
    {
      WidthsOf(defs, a[i], r);
    }
  }

  /** What the count comes to for a register defined for the device. */
  lemma AskedExactlyOnce(loras: seq<seq<byte>>, defs: seq<Switch>, sent: seq<Query>, lora: seq<byte>,
                         plc: int, length: int, r: int)
    requires 1 <= length <= 2 && Defined(defs, plc, length, r) && 0 <= r < REGISTERS
    requires Asked(sent, lora, plc, r) == Times(loras, lora) * Uses(Addresses(defs), defs, plc, r)
    ensures Asked(sent, lora, plc, r) == 1 <==> Times(loras, lora) == 1 && OnlyUse(defs, plc, length, r)
    ensures Asked(sent, lora, plc, r) >= Times(loras, lora)
  {
    hide Asked;
    hide Times;
    hide OnlyUse;
    hide Defined;
    hide Addresses;
    UseIsOnly(defs, plc, length, r);
    UsedAtLeastOnce(defs, plc, length, r);
    ProductIsOne(Times(loras, lora), Uses(Addresses(defs), defs, plc, r));
  }

  lemma UsedAtLeastOnce(defs: seq<Switch>, plc: int, length: int, r: int)
    requires 1 <= length <= 2 && Defined(defs, plc, length, r)
    ensures Uses(Addresses(defs), defs, plc, r) >= 1
  {
    var addresses := Addresses(defs);
    AddressesDistinct(defs);
    AddressesUsed(defs, plc);
    var k :| 0 <= k < |addresses| && addresses[k] == plc;
    OneUse(addresses, defs, plc, r, k);
  }

  lemma ProductIsOne(a: nat, b: nat)
    requires b >= 1
    ensures a * b == 1 <==> a == 1 && b == 1
    ensures a * b >= a
  {
  }

  /** One register in both widths, and one register of two PLCs whose addresses agree in the low byte. */
  lemma AskedTwice(name: seq<byte>, other: seq<byte>)
    ensures var defs := [Switch(name, 1, 5, -1, 1, 0), Switch(other, 1, 5, -1, 2, 0)];
            Defined(defs, 1, 1, 5) && Uses(Addresses(defs), defs, 1, 5) > 1
    ensures var defs := [Switch(name, 1, 5, -1, 1, 0), Switch(other, 0x101, 5, -1, 1, 0)];
            Defined(defs, 1, 1, 5) && Uses(Addresses(defs), defs, 1, 5) > 1
  {
    hide Addresses;
    hide Uses;
    var first := Switch(name, 1, 5, -1, 1, 0);
    MoreThanOnce([first, Switch(other, 1, 5, -1, 2, 0)]);
    MoreThanOnce([first, Switch(other, 0x101, 5, -1, 1, 0)]);
  }

  lemma MoreThanOnce(defs: seq<Switch>)
    requires |defs| == 2 && defs[0].plc == 1 && defs[0].length == 1
    requires ReadAt(defs[0], 5) && ReadAt(defs[1], 5) && Hears(1, defs[1].plc) && 1 <= defs[1].length <= 2
    requires defs[1].plc != 1 || defs[1].length != 1
    ensures Defined(defs, 1, 1, 5) && Uses(Addresses(defs), defs, 1, 5) > 1
  {
    hide Addresses;
    hide Uses;
    assert Defined(defs, 1, 1, 5);
    UseIsOnly(defs, 1, 1, 5);
    UsedAtLeastOnce(defs, 1, 1, 5);
    assert !OnlyUse(defs, 1, 1, 5);
  }

  // ---------------------------------------------------------------- what a sweep leaves alone

  /** No device takes any of the frames for a write. */
  ghost predicate Reading(sent: seq<Query>) {
    forall i, device :: 0 <= i < |sent| ==> !ModbusDevice.React(sent[i].frame, device).Sets?
  }

  function FramesOf(sent: seq<Query>): (r: seq<seq<Modbus.Byte>>)
    ensures |r| == |sent| && forall i :: 0 <= i < |sent| ==> r[i] == sent[i].frame
  {
    seq(|sent|, i requires 0 <= i < |sent| => sent[i].frame)
  }

  lemma ReadingConcat(a: seq<Query>, b: seq<Query>)
    requires Reading(a) && Reading(b)
    ensures Reading(a + b)
  {
    hide ModbusDevice.React;
  }

  lemma ReadingBatch(marks: seq<bool>, first: int, to: seq<byte>, plc: int)
    requires |marks| == REGISTERS && IsFirst(marks, first)
    ensures Reading(QueriesOf(to, plc, Plan(marks, first)))
  {
    hide ModbusDevice.React;
    hide Plan;
    hide IsFirst;
    hide Modbus.Frame;
    var batch := Plan(marks, first);
    PlanCovers(marks, first);
    forall i, device | 0 <= i < |batch|
      ensures !ModbusDevice.React(QueriesOf(to, plc, batch)[i].frame, device).Sets?
    {
      assert Allowed(marks, batch[i]);
      BatchSize(batch[i].count);
      ModbusDevice.ReadReturns(plc, batch[i].start, batch[i].count, device);
    }
  }

  lemma {:induction false} ReadingPlcs(to: seq<byte>, index: seq<Index>)
    requires forall i :: 0 <= i < |index| ==> Ready(index[i])
    ensures Reading(QueriesForPlcs(to, index))
  {
    hide Reading;
    hide Plan;
    hide QueriesOf;
    if index == [] {
      NothingRead();
    } else {
      var n := |index| - 1;
      ReadingPlcs(to, index[..n]);
      ReadingBatch(index[n].oneByte, index[n].firstOne, to, index[n].plc);
      ReadingBatch(index[n].twoByte, index[n].firstTwo, to, index[n].plc);
      ReadingConcat(QueriesOf(to, index[n].plc, Plan(index[n].oneByte, index[n].firstOne)),
                    QueriesOf(to, index[n].plc, Plan(index[n].twoByte, index[n].firstTwo)));
      ReadingConcat(QueriesForPlcs(to, index[..n]), QueriesForPlc(to, index[n]));
    }
  }

  lemma NothingRead()
    ensures Reading([])
  {
  }

  lemma {:induction false} ReadingAll(loras: seq<seq<byte>>, index: seq<Index>)
    requires forall i :: 0 <= i < |index| ==> Ready(index[i])
    ensures Reading(QueriesForAll(loras, index))
  {
    hide Reading;
    hide QueriesForPlcs;
    if loras == [] {
      NothingRead();
    } else {
      var n := |loras| - 1;
      ReadingAll(loras[..n], index);
      ReadingPlcs(loras[n], index);
      ReadingConcat(QueriesForAll(loras[..n], index), QueriesForPlcs(loras[n], index));
    }
  }

  /** A whole sweep changes no register of any device, even one that hears all of it. */
  lemma SweepSetsNothing(loras: seq<seq<byte>>, index: seq<Index>, registers: ModbusDevice.Registers, device: nat)
    requires forall i :: 0 <= i < |index| ==> Ready(index[i])
    ensures ModbusDevice.AfterFrames(registers, FramesOf(QueriesForAll(loras, index)), device) == registers
  {
    hide ModbusDevice.React;
    hide QueriesForAll;
    ReadingAll(loras, index);
    ModbusDevice.NothingSet(registers, FramesOf(QueriesForAll(loras, index)), device);
  }

  // ---------------------------------------------------------------- the sweep

  /**
   The sweep over a loaded registry: node by node, PLC by PLC.  For every LoRa node, every address and every
   register, `sent` holds as many queries to the node that a device at the address reads as asking for the
   register as the node is listed, times the uses of the register.  So a device is asked for a register defined
   for it exactly once if and only if its node is listed once and no other definition uses that register: not in
   the other width, and not at an address with the same low byte.  And no register of any device changes.
   */
  method LoopEachLoraEachPlcEachSwitch(loras: seq<seq<byte>>, registry: Registry, ghost defs: seq<Switch>)
    returns (sent: seq<Query>, ghost index: seq<Index>)
    requires registry.Holds(defs)
    ensures |index| == |registry.plcs|
    ensures forall i :: 0 <= i < |index| ==> Ready(index[i]) && index[i] == Snapshot(registry.plcs[i])
    ensures sent == QueriesForAll(loras, index)
    ensures forall lora, plc, r :: 0 <= r < REGISTERS ==>
              Asked(sent, lora, plc, r) == Times(loras, lora) * Uses(Addresses(defs), defs, plc, r)
    ensures forall lora, plc, length, r :: 1 <= length <= 2 && Defined(defs, plc, length, r) && 0 <= r < REGISTERS ==>
              && Asked(sent, lora, plc, r) >= Times(loras, lora)
              && (Asked(sent, lora, plc, r) == 1 <==> Times(loras, lora) == 1 && OnlyUse(defs, plc, length, r))
    ensures forall registers: ModbusDevice.Registers, device ::
              ModbusDevice.AfterFrames(registers, FramesOf(sent), device) == registers
  {
    hide Asked;
    hide ModbusDevice.AfterFrames;
    hide FramesOf;
    hide Uses;
    hide Times;
    hide Snapshot;
    hide Ready;
    hide Reflects;
    hide QueriesForAll;
    hide Addresses;
    hide Defined;
    hide OnlyUse;
    index := [];
    while |index| < |registry.plcs|
      invariant |index| <= |registry.plcs|
      invariant forall i :: 0 <= i < |index| ==>
                  && index[i] == Snapshot(registry.plcs[i]) && Reflects(index[i], defs)
                  && index[i].plc == Addresses(defs)[i]
    {
      LoadedReflects(registry, defs, |index|);
      SnapshotAddress(registry.plcs[|index|]);
      index := index + [Snapshot(registry.plcs[|index|])];
    }
    AllReady(index, defs);
    sent := SweepNodes(loras, registry.plcs, index);
    forall lora, plc, r | 0 <= r < REGISTERS
      ensures Asked(sent, lora, plc, r) == Times(loras, lora) * Uses(Addresses(defs), defs, plc, r)
    {
      AskedOfSweep(loras, index, Addresses(defs), defs, lora, plc, r);
    }
    forall lora, plc, length, r | 1 <= length <= 2 && Defined(defs, plc, length, r) && 0 <= r < REGISTERS
      ensures Asked(sent, lora, plc, r) >= Times(loras, lora)
      ensures Asked(sent, lora, plc, r) == 1 <==> Times(loras, lora) == 1 && OnlyUse(defs, plc, length, r)
    {
      AskedExactlyOnce(loras, defs, sent, lora, plc, length, r);
    }
    forall registers: ModbusDevice.Registers, device
      ensures ModbusDevice.AfterFrames(registers, FramesOf(sent), device) == registers
    {
      SweepSetsNothing(loras, index, registers, device);
    }
  }
}
