/**
 The registry built from the switch definitions: a list of switches, newest first, and for every PLC an index
 of the registers its switches use.

 The loader is specified by the list of all definitions loaded so far; how their numbers and names are taken
 from JSON is not modelled.
 */
module SwitchIndex {
  import opened Bytes
  import opened Wrappers

  const MAX_REG_ADDR: nat := 1024
  const REGISTERS: nat := MAX_REG_ADDR + 1

  /** One definition; `value` is the command value in its list node, which loading leaves as it was allocated. */
  datatype Switch = Switch(name: seq<byte>, plc: int, channel: int, roChannel: int, length: int, value: int)

  /** The register a switch is read at: its read-only channel takes precedence when there is one. */
  function Register(sw: Switch): int {
    if sw.roChannel >= 0 then sw.roChannel else sw.channel
  }

  /** What the loader needs of a definition: it does not check the register it indexes with. */
  predicate InRange(sw: Switch) {
    0 <= Register(sw) <= MAX_REG_ADDR
  }

  // ---------------------------------------------------------------- what the index stands for

  /** The definition is read at register `r`: by its read-only channel, or by its channel when it has none. */
  predicate ReadAt(sw: Switch, r: int) {
    (sw.roChannel == r && r >= 0) || (sw.roChannel < 0 && sw.channel == r)
  }

  /** The loader computes that register. */
  ghost predicate Defined(defs: seq<Switch>, plc: int, length: int, r: int) {
    exists i :: 0 <= i < |defs| && defs[i].plc == plc && defs[i].length == length && ReadAt(defs[i], r)
  }

  /** The bitmap marks exactly the registers of that width, and `first` and `last` are its extremes. */
  ghost predicate Indexed(defs: seq<Switch>, plc: int, length: int, marks: seq<bool>, first: int, last: int) {
    && |marks| == REGISTERS
    && (forall r :: 0 <= r < REGISTERS ==> (marks[r] <==> Defined(defs, plc, length, r)))
    && (first == REGISTERS || (0 <= first < REGISTERS && marks[first]))
    && (last == -1 || (0 <= last < REGISTERS && marks[last]))
    && (forall r :: 0 <= r < REGISTERS && marks[r] ==> first <= r <= last)
  }

  /** The name of the last definition that uses register `r` of `plc`, whatever its width. */
  function NameAt(defs: seq<Switch>, plc: int, r: int): Option<seq<byte>> {
    if defs == [] then None
    else
      var sw := defs[|defs| - 1];
      if sw.plc == plc && ReadAt(sw, r) then Some(sw.name) else NameAt(defs[..|defs| - 1], plc, r)
  }

  ghost predicate Named(defs: seq<Switch>, plc: int, names: seq<Option<seq<byte>>>) {
    |names| == REGISTERS && forall r :: 0 <= r < REGISTERS ==> names[r] == NameAt(defs, plc, r)
  }

  /** The PLCs the definitions use, each once; the one that appeared last comes first. */
  function Addresses(defs: seq<Switch>): seq<int> {
    if defs == [] then [] else WithAddress(Addresses(defs[..|defs| - 1]), defs[|defs| - 1].plc)
  }

  function WithAddress(addresses: seq<int>, plc: int): seq<int> {
    if plc in addresses then addresses else [plc] + addresses
  }

  lemma AddressesMore(defs: seq<Switch>, sw: Switch)
    ensures Addresses(defs + [sw]) == WithAddress(Addresses(defs), sw.plc)
  {
    assert (defs + [sw])[..|defs|] == defs;
  }

  lemma {:induction false} AddressesUsed(defs: seq<Switch>, plc: int)
    ensures plc in Addresses(defs) <==> exists i :: 0 <= i < |defs| && defs[i].plc == plc
  {
    if defs != [] {
      AddressesUsed(defs[..|defs| - 1], plc);
      LastUsed(defs, plc);
      AddressAdded(Addresses(defs[..|defs| - 1]), defs[|defs| - 1].plc, plc);
    }
  }

  lemma {:induction false} LastUsed(defs: seq<Switch>, plc: int)
    requires defs != []
    ensures var front := defs[..|defs| - 1];
            (exists i :: 0 <= i < |defs| && defs[i].plc == plc) <==>
            defs[|defs| - 1].plc == plc || exists i :: 0 <= i < |front| && front[i].plc == plc
  {
    var front := defs[..|defs| - 1];
    if i :| 0 <= i < |defs| && defs[i].plc == plc {
      assert i < |front| ==> front[i].plc == plc;
    }
    if i :| 0 <= i < |front| && front[i].plc == plc {
      assert defs[i].plc == plc;
    }
  }

  lemma AddressAdded(addresses: seq<int>, plc: int, other: int)
    ensures other in WithAddress(addresses, plc) <==> other in addresses || other == plc
  {
  }

  /** The last definition with a name. */
  function SwitchNamed(defs: seq<Switch>, name: seq<byte>): (r: Option<Switch>) {
    if defs == [] then None
    else if defs[|defs| - 1].name == name then Some(defs[|defs| - 1])
    else SwitchNamed(defs[..|defs| - 1], name)
  }

  lemma {:induction false} NameAtIsLast(defs: seq<Switch>, plc: int, r: int, i: nat)
    requires i < |defs| && defs[i].plc == plc && ReadAt(defs[i], r)
    requires forall j :: i < j < |defs| ==> !(defs[j].plc == plc && ReadAt(defs[j], r))
    ensures NameAt(defs, plc, r) == Some(defs[i].name)
  {
    if i < |defs| - 1 {
      NameAtIsLast(defs[..|defs| - 1], plc, r, i);
    }
  }

  lemma {:induction false} SwitchNamedIsLast(defs: seq<Switch>, name: seq<byte>, i: nat)
    requires i < |defs| && defs[i].name == name
    requires forall j :: i < j < |defs| ==> defs[j].name != name
    ensures SwitchNamed(defs, name) == Some(defs[i])
  {
    if i < |defs| - 1 {
      SwitchNamedIsLast(defs[..|defs| - 1], name, i);
    }
  }

  lemma {:induction false} NoSwitchNamed(defs: seq<Switch>, name: seq<byte>)
    ensures SwitchNamed(defs, name) == None <==> forall i :: 0 <= i < |defs| ==> defs[i].name != name
  {
    if defs != [] {
      NoSwitchNamed(defs[..|defs| - 1], name);
    }
  }

  // ---------------------------------------------------------------- one more definition

  lemma DefinedMore(defs: seq<Switch>, sw: Switch, plc: int, length: int, r: int)
    ensures Defined(defs + [sw], plc, length, r) <==>
            Defined(defs, plc, length, r) || (sw.plc == plc && sw.length == length && ReadAt(sw, r))
  {
    var more := defs + [sw];
    if Defined(defs, plc, length, r) {
      var i :| 0 <= i < |defs| && defs[i].plc == plc && defs[i].length == length && ReadAt(defs[i], r);
      assert more[i] == defs[i];
    }
    assert more[|defs|] == sw;
  }

  /** A definition of another PLC or width leaves the index of this one as it is. */
  lemma IndexedOther(defs: seq<Switch>, sw: Switch, plc: int, length: int, marks: seq<bool>, first: int, last: int)
    requires Indexed(defs, plc, length, marks, first, last) && (sw.plc != plc || sw.length != length)
    ensures Indexed(defs + [sw], plc, length, marks, first, last)
  {
    hide Defined;
    forall r | 0 <= r < REGISTERS
      ensures marks[r] <==> Defined(defs + [sw], plc, length, r)
    {
      DefinedMore(defs, sw, plc, length, r);
    }
  }

  /** Marking a register and widening the extremes by it accounts for a definition of this PLC and width. */
  lemma IndexedMore(defs: seq<Switch>, sw: Switch, marks: seq<bool>, first: int, last: int)
    requires Indexed(defs, sw.plc, sw.length, marks, first, last) && InRange(sw)
    ensures var r := Register(sw);
            Indexed(defs + [sw], sw.plc, sw.length, marks[r := true],
                    if r <= first then r else first, if r >= last then r else last)
  {
    hide Defined;
    forall r | 0 <= r < REGISTERS
      ensures marks[Register(sw) := true][r] <==> Defined(defs + [sw], sw.plc, sw.length, r)
    {
      DefinedMore(defs, sw, sw.plc, sw.length, r);
    }
  }

  lemma NotYetDefined(defs: seq<Switch>, plc: int)
    requires forall i :: 0 <= i < |defs| ==> defs[i].plc != plc
    ensures forall length, r :: !Defined(defs, plc, length, r)
    ensures forall r :: NameAt(defs, plc, r) == None
  {
    forall r
      ensures NameAt(defs, plc, r) == None
    {
      NoName(defs, plc, r);
    }
  }

  lemma {:induction false} NoName(defs: seq<Switch>, plc: int, r: int)
    requires forall i :: 0 <= i < |defs| ==> defs[i].plc != plc
    ensures NameAt(defs, plc, r) == None
  {
    if defs != [] {
      NoName(defs[..|defs| - 1], plc, r);
    }
  }

  lemma NamedMore(defs: seq<Switch>, sw: Switch, plc: int, names: seq<Option<seq<byte>>>)
    requires Named(defs, plc, names) && InRange(sw)
    ensures Named(defs + [sw], plc, if sw.plc == plc then names[Register(sw) := Some(sw.name)] else names)
  {
  }

  // ---------------------------------------------------------------- the lists in the heap

  class PlcNode {
    const addr485: int
    const channel1B: array<bool>
    var first1B: int
    var last1B: int
    const channel2B: array<bool>
    var first2B: int
    var last2B: int
    const reg2name: array<Option<seq<byte>>>

    ghost function Repr(): set<object> {
      {this, channel1B, channel2B, reg2name}
    }

    /** The node holds the index of its PLC's definitions. */
    ghost predicate Indexes(defs: seq<Switch>)
      reads Repr()
    {
      && channel1B != channel2B
      && Indexed(defs, addr485, 1, channel1B[..], first1B, last1B)
      && Indexed(defs, addr485, 2, channel2B[..], first2B, last2B)
      && Named(defs, addr485, reg2name[..])
    }

    constructor (addr: int, ghost defs: seq<Switch>)
      requires forall i :: 0 <= i < |defs| ==> defs[i].plc != addr
      ensures addr485 == addr && Indexes(defs) && fresh(Repr())
    {
      addr485 := addr;
      channel1B := new bool[REGISTERS](_ => false);
      channel2B := new bool[REGISTERS](_ => false);
      reg2name := new Option<seq<byte>>[REGISTERS](_ => None);
      first1B, last1B := REGISTERS, -1;
      first2B, last2B := REGISTERS, -1;
      new;
      NotYetDefined(defs, addr);
    }

    /** The rest of the loop body, once the node is found. */
    method Record(sw: Switch, ghost defs: seq<Switch>)
      requires Indexes(defs) && sw.plc == addr485 && InRange(sw)
      modifies Repr()
      ensures Indexes(defs + [sw])
    {
      hide Indexed;
      hide Named;
      Sizes(defs);
      ghost var names, one, two := reg2name[..], channel1B[..], channel2B[..];
      NamedMore(defs, sw, addr485, names);
      ghost var f1, l1, f2, l2 := first1B, last1B, first2B, last2B;
      Extended(defs, sw, 1, one, f1, l1);
      Extended(defs, sw, 2, two, f2, l2);
      var channel := Register(sw);
      reg2name[channel] := Some(sw.name);
      if sw.length == 1 {
        if channel <= first1B {
          first1B := channel;
        }
        if channel >= last1B {
          last1B := channel;
        }
        channel1B[channel] := true;
      }
      if sw.length == 2 {
        if channel <= first2B {
          first2B := channel;
        }
        if channel >= last2B {
          last2B := channel;
        }
        channel2B[channel] := true;
      }
      assert reg2name[..] == names[channel := Some(sw.name)];
      assert channel1B[..] == if sw.length == 1 then one[channel := true] else one;
      assert channel2B[..] == if sw.length == 2 then two[channel := true] else two;
    }

    lemma Sizes(defs: seq<Switch>)
      requires Indexes(defs)
      ensures channel1B.Length == REGISTERS && channel2B.Length == REGISTERS && reg2name.Length == REGISTERS
    {
    }
  }

  lemma Extended(defs: seq<Switch>, sw: Switch, length: int, marks: seq<bool>, first: int, last: int)
    requires Indexed(defs, sw.plc, length, marks, first, last) && InRange(sw)
    ensures var r := Register(sw);
            |marks| == REGISTERS &&
            if sw.length == length
            then Indexed(defs + [sw], sw.plc, length, marks[r := true],
                         if r <= first then r else first, if r >= last then r else last)
            else Indexed(defs + [sw], sw.plc, length, marks, first, last)
  {
    hide Defined;
    if sw.length == length {
      IndexedMore(defs, sw, marks, first, last);
    } else {
      IndexedOther(defs, sw, sw.plc, length, marks, first, last);
    }
  }

  /** Two nodes have different addresses and share no array. */
  ghost predicate Apart(p: PlcNode, q: PlcNode) {
    && p.addr485 != q.addr485 && p.reg2name != q.reg2name
    && p.channel1B != q.channel1B && p.channel1B != q.channel2B
    && p.channel2B != q.channel1B && p.channel2B != q.channel2B
  }

  ghost predicate Separate(plcs: seq<PlcNode>) {
    forall i, j :: 0 <= i < |plcs| && 0 <= j < |plcs| && i != j ==> Apart(plcs[i], plcs[j])
  }

  ghost predicate Within(plcs: seq<PlcNode>, repr: set<object>) {
    forall i :: 0 <= i < |plcs| ==> plcs[i].Repr() <= repr
  }

  /** The nodes have these addresses, in this order. */
  ghost predicate Addressed(plcs: seq<PlcNode>, addresses: seq<int>) {
    |plcs| == |addresses| && forall i :: 0 <= i < |plcs| ==> plcs[i].addr485 == addresses[i]
  }

  class Registry {
    var switches: seq<Switch>
    var plcs: seq<PlcNode>
    ghost var repr: set<object>

    /** The switch list is the definitions, newest first, and every node holds its PLC's index of them. */
    ghost predicate Lists(defs: seq<Switch>)
      reads this, repr
    {
      && this in repr && Within(plcs, repr)
      && |switches| == |defs| && (forall i :: 0 <= i < |defs| ==> switches[i] == defs[|defs| - 1 - i])
      && (forall i :: 0 <= i < |plcs| ==> plcs[i].Indexes(defs))
      && Separate(plcs)
    }

    /** The lists hold exactly the definitions `defs`, with one node for every PLC used and no other. */
    ghost predicate Holds(defs: seq<Switch>)
      reads this, repr
    {
      Lists(defs) && Addressed(plcs, Addresses(defs))
    }

    constructor ()
      ensures Holds([]) && fresh(repr)
    {
      switches := [];
      plcs := [];
      repr := {this};
    }

    method GetPlcNode(addr: int) returns (p: PlcNode?, ghost k: nat)
      ensures p == null ==> forall i :: 0 <= i < |plcs| ==> plcs[i].addr485 != addr
      ensures p != null ==> k < |plcs| && plcs[k] == p && p.addr485 == addr
    {
      var i := 0;
      while i < |plcs|
        invariant 0 <= i <= |plcs| && forall k :: 0 <= k < i ==> plcs[k].addr485 != addr
      {
        if plcs[i].addr485 == addr {
          return plcs[i], i;
        }
        i := i + 1;
      }
      p, k := null, 0;
    }

    method GetSwitchNode(name: seq<byte>, ghost defs: seq<Switch>) returns (found: Option<Switch>)
      requires Holds(defs)
      ensures found == SwitchNamed(defs, name)
    {
      var i := 0;
      while i < |switches|
        invariant 0 <= i <= |switches| && forall k :: 0 <= k < i ==> switches[k].name != name
      {
        if switches[i].name == name {
          ghost var at := |defs| - 1 - i;
          assert forall j :: at < j < |defs| ==> defs[j] == switches[|defs| - 1 - j];
          SwitchNamedIsLast(defs, name, at);
          return Some(switches[i]);
        }
        i := i + 1;
      }
      assert forall j :: 0 <= j < |defs| ==> defs[j] == switches[|defs| - 1 - j];
      NoSwitchNamed(defs, name);
      found := None;
    }

    /** The node of a PLC, added to the list when it is the first switch of that PLC. */
    method PlcNodeFor(addr: int, ghost defs: seq<Switch>) returns (p: PlcNode, ghost k: nat)
      requires Holds(defs)
      modifies this`plcs, this`repr
      ensures Lists(defs) && Addressed(plcs, WithAddress(Addresses(defs), addr)) && fresh(repr - old(repr))
      ensures k < |plcs| && plcs[k] == p && p.addr485 == addr
    {
      hide PlcNode.Indexes;
      hide Apart;
      hide Addresses;
      ghost var addresses := Addresses(defs);
      var found;
      found, k := GetPlcNode(addr);
      if found != null {
        assert addresses[k] == addr;
        return found, k;
      }
      assert forall i :: 0 <= i < |addresses| ==> addresses[i] == plcs[i].addr485;
      AddressesUsed(defs, addr);
      p := new PlcNode(addr, defs);
      ghost var older := plcs;
      plcs := [p] + plcs;
      repr := repr + p.Repr();
      k := 0;
      forall i | 0 <= i < |older|
        ensures Apart(p, older[i]) && Apart(older[i], p)
      {
        FreshApart(p, older[i], old(repr));
      }
    }

    /** The loop body of `readSwitches`. */
    method AddSwitch(sw: Switch, ghost defs: seq<Switch>)
      requires Holds(defs) && InRange(sw)
      modifies repr
      ensures Holds(defs + [sw]) && fresh(repr - old(repr))
    {
      hide PlcNode.Indexes;
      hide Apart;
      hide InRange;
      hide Addresses;
      hide WithAddress;
      var p;
      ghost var k;
      p, k := PlcNodeFor(sw.plc, defs);
      switches := [sw] + switches;
      forall i | 0 <= i < |plcs| && i != k
        ensures plcs[i].Indexes(defs + [sw]) && plcs[i].Repr() !! p.Repr()
      {
        ApartRepr(plcs[i], p);
        OtherPlc(plcs[i], sw, defs);
      }
      p.Record(sw, defs);
      AddressesMore(defs, sw);
    }

    /** The loop of `readSwitches`; a second file is added to the first. */
    method ReadSwitches(more: seq<Switch>, ghost defs: seq<Switch>)
      requires Holds(defs) && forall i :: 0 <= i < |more| ==> InRange(more[i])
      modifies repr
      ensures Holds(defs + more) && fresh(repr - old(repr))
    {
      hide Holds;
      assert defs + more[..0] == defs;
      for i := 0 to |more|
        invariant Holds(defs + more[..i]) && fresh(repr - old(repr))
      {
        assert defs + more[..i] + [more[i]] == defs + more[..i + 1];
        AddSwitch(more[i], defs + more[..i]);
      }
      assert more[..|more|] == more;
    }
  }

  /**
   What a loaded node says of a register: it is marked in the bitmap of a width exactly when some definition of that
   PLC and width has it as its read-only channel, or has none and has it as its channel.
   */
  lemma BitmapsTell(registry: Registry, defs: seq<Switch>, p: PlcNode, r: int)
    requires registry.Holds(defs) && p in registry.plcs && 0 <= r <= 1024
    ensures p.channel1B.Length == p.channel2B.Length == 1025
    ensures p.channel1B[r] <==>
            exists sw :: sw in defs && sw.plc == p.addr485 && sw.length == 1
                         && (sw.roChannel == r || (sw.roChannel < 0 && sw.channel == r))
    ensures p.channel2B[r] <==>
            exists sw :: sw in defs && sw.plc == p.addr485 && sw.length == 2
                         && (sw.roChannel == r || (sw.roChannel < 0 && sw.channel == r))
  {
    assert p.Indexes(defs);
    assert p.channel1B[r] == p.channel1B[..][r] && p.channel2B[r] == p.channel2B[..][r];
    DefinedIn(defs, p.addr485, 1, r);
    DefinedIn(defs, p.addr485, 2, r);
  }

  lemma DefinedIn(defs: seq<Switch>, plc: int, length: int, r: int)
    requires r >= 0
    ensures Defined(defs, plc, length, r) <==>
            exists sw :: sw in defs && sw.plc == plc && sw.length == length
                         && (sw.roChannel == r || (sw.roChannel < 0 && sw.channel == r))
  {
  }

  /** And the name kept for a register is that of the last such definition of the PLC, whatever its width. */
  lemma NamesTell(registry: Registry, defs: seq<Switch>, p: PlcNode, r: int, i: nat)
    requires registry.Holds(defs) && p in registry.plcs && 0 <= r < REGISTERS && i < |defs|
    requires defs[i].plc == p.addr485 && (defs[i].roChannel == r || (defs[i].roChannel < 0 && defs[i].channel == r))
    requires forall j :: i < j < |defs| && defs[j].plc == p.addr485 ==>
               defs[j].roChannel != r && (defs[j].roChannel >= 0 || defs[j].channel != r)
    ensures p.reg2name.Length == REGISTERS && p.reg2name[r] == Some(defs[i].name)
  {
    assert p.Indexes(defs);
    assert p.reg2name[r] == p.reg2name[..][r];
    NameAtIsLast(defs, p.addr485, r, i);
  }

  lemma FreshApart(p: PlcNode, q: PlcNode, older: set<object>)
    requires p.addr485 != q.addr485 && p.Repr() !! older && q.Repr() <= older
    ensures Apart(p, q) && Apart(q, p)
  {
  }

  lemma ApartRepr(p: PlcNode, q: PlcNode)
    requires Apart(p, q)
    ensures p.Repr() !! q.Repr() && p.addr485 != q.addr485
  {
  }

  lemma OtherPlc(p: PlcNode, sw: Switch, defs: seq<Switch>)
    requires p.Indexes(defs) && p.addr485 != sw.plc && InRange(sw)
    ensures p.Indexes(defs + [sw])
  {
    hide Indexed;
    IndexedOther(defs, sw, p.addr485, 1, p.channel1B[..], p.first1B, p.last1B);
    IndexedOther(defs, sw, p.addr485, 2, p.channel2B[..], p.first2B, p.last2B);
    NamedMore(defs, sw, p.addr485, p.reg2name[..]);
  }
}
