/** The order in which a sweep asks: node by node, PLC by PLC, one-byte registers first, registers ascending. */
module SweepOrder {
  import opened Bytes
  import opened StatusQuery
  import opened StatusSweep
  import Modbus

  /** What a query asks: the LoRa node and the PLC by their places in the lists, the width and the first register. */
  datatype Place = Place(node: nat, plc: nat, width: nat, register: nat)

  predicate Earlier(a: Place, b: Place) {
    || a.node < b.node
    || (a.node == b.node && a.plc < b.plc)
    || (a.node == b.node && a.plc == b.plc && a.width < b.width)
    || (a.node == b.node && a.plc == b.plc && a.width == b.width && a.register < b.register)
  }

  ghost predicate InOrder(places: seq<Place>) {
    forall i, j :: 0 <= i < j < |places| ==> Earlier(places[i], places[j])
  }

  /** The query goes to that node and reads, from that register on, registers of that PLC and width. */
  ghost predicate Stands(q: Query, place: Place, lora: seq<byte>, index: Index) {
    && q.lora == lora && 1 <= place.width <= 2
    && exists count: nat ::
         && q.frame == Modbus.Frame(index.plc, Modbus.FC_READ, place.register, count)
         && Allowed(if place.width == 1 then index.oneByte else index.twoByte, Read(place.register, count))
  }

  ghost predicate AllStand(sent: seq<Query>, places: seq<Place>, loras: seq<seq<byte>>, plcs: seq<Index>) {
    |places| == |sent|
    && forall i :: 0 <= i < |sent| ==>
         && places[i].node < |loras| && places[i].plc < |plcs|
         && Stands(sent[i], places[i], loras[places[i].node], plcs[places[i].plc])
  }

  lemma Joined(a: seq<Place>, b: seq<Place>)
    requires InOrder(a) && InOrder(b) && forall i, j :: 0 <= i < |a| && 0 <= j < |b| ==> Earlier(a[i], b[j])
    ensures InOrder(a + b)
  {
  }

  lemma StandJoined(s: seq<Query>, a: seq<Place>, t: seq<Query>, b: seq<Place>, loras: seq<seq<byte>>,
                    plcs: seq<Index>)
    requires AllStand(s, a, loras, plcs) && AllStand(t, b, loras, plcs)
    ensures AllStand(s + t, a + b, loras, plcs)
  {
    hide Stands;
  }

  /** The reads of one width of one PLC. */
  lemma BatchPlaces(loras: seq<seq<byte>>, plcs: seq<Index>, n: nat, p: nat, width: nat) returns (places: seq<Place>)
    requires n < |loras| && p < |plcs| && Ready(plcs[p]) && 1 <= width <= 2
    ensures var plan := if width == 1 then Plan(plcs[p].oneByte, plcs[p].firstOne)
                        else Plan(plcs[p].twoByte, plcs[p].firstTwo);
            AllStand(QueriesOf(loras[n], plcs[p].plc, plan), places, loras, plcs)
    ensures InOrder(places)
    ensures forall i :: 0 <= i < |places| ==> places[i].node == n && places[i].plc == p && places[i].width == width
  {
    hide Plan;
    hide IsFirst;
    hide Allowed;
    hide Modbus.Frame;
    var marks := if width == 1 then plcs[p].oneByte else plcs[p].twoByte;
    var first := if width == 1 then plcs[p].firstOne else plcs[p].firstTwo;
    var plan := Plan(marks, first);
    PlanCovers(marks, first);
    places := seq(|plan|, k requires 0 <= k < |plan| => Place(n, p, width, plan[k].start));
    var sent := QueriesOf(loras[n], plcs[p].plc, plan);
    forall i | 0 <= i < |plan|
      ensures Stands(sent[i], places[i], loras[n], plcs[p])
    {
      assert plan[i] == Read(plan[i].start, plan[i].count);
      assert sent[i].frame == Modbus.Frame(plcs[p].plc, Modbus.FC_READ, places[i].register, plan[i].count);
    }
    forall i, j | 0 <= i < j < |plan|
      ensures Earlier(places[i], places[j])
    {
      ReadsSomething(marks, plan[i]);
    }
  }

  lemma ReadsSomething(marks: seq<bool>, read: Read)
    requires Allowed(marks, read)
    ensures read.count > 0
  {
  }

  /** One node's queries to the first `k` PLCs. */
  lemma {:induction false} NodePlaces(loras: seq<seq<byte>>, plcs: seq<Index>, n: nat, k: nat)
    returns (places: seq<Place>)
    requires n < |loras| && k <= |plcs| && forall i :: 0 <= i < |plcs| ==> Ready(plcs[i])
    ensures AllStand(QueriesForPlcs(loras[n], plcs[..k]), places, loras, plcs) && InOrder(places)
    ensures forall i :: 0 <= i < |places| ==> places[i].node == n && places[i].plc < k
    decreases k
  {
    hide Stands;
    hide Ready;
    hide QueriesOf;
    hide Plan;
    if k == 0 {
      places := [];
    } else {
      var before := NodePlaces(loras, plcs, n, k - 1);
      var one := BatchPlaces(loras, plcs, n, k - 1, 1);
      var two := BatchPlaces(loras, plcs, n, k - 1, 2);
      assert plcs[..k][..k - 1] == plcs[..k - 1];
      var p := plcs[k - 1];
      ReadyIs(p);
      StandJoined(QueriesOf(loras[n], p.plc, Plan(p.oneByte, p.firstOne)), one,
                  QueriesOf(loras[n], p.plc, Plan(p.twoByte, p.firstTwo)), two, loras, plcs);
      Joined(one, two);
      StandJoined(QueriesForPlcs(loras[n], plcs[..k - 1]), before, QueriesForPlc(loras[n], p), one + two, loras, plcs);
      Joined(before, one + two);
      places := before + (one + two);
    }
  }

  lemma ReadyIs(index: Index)
    requires Ready(index)
    ensures IsFirst(index.oneByte, index.firstOne) && IsFirst(index.twoByte, index.firstTwo)
  {
  }

  /** Every query of a sweep has its place, and the places ascend. */
  lemma {:induction false} SweepPlaces(loras: seq<seq<byte>>, plcs: seq<Index>, n: nat) returns (places: seq<Place>)
    requires n <= |loras| && forall i :: 0 <= i < |plcs| ==> Ready(plcs[i])
    ensures AllStand(QueriesForAll(loras[..n], plcs), places, loras, plcs) && InOrder(places)
    ensures forall i :: 0 <= i < |places| ==> places[i].node < n
    decreases n
  {
    hide Stands;
    hide Ready;
    hide QueriesForPlcs;
    if n == 0 {
      places := [];
    } else {
      var before := SweepPlaces(loras, plcs, n - 1);
      var node := NodePlaces(loras, plcs, n - 1, |plcs|);
      assert loras[..n][..n - 1] == loras[..n - 1] && plcs[..|plcs|] == plcs;
      StandJoined(QueriesForAll(loras[..n - 1], plcs), before, QueriesForPlcs(loras[n - 1], plcs), node, loras, plcs);
      Joined(before, node);
      places := before + node;
    }
  }

  /** The whole sweep. */
  lemma SweepInOrder(loras: seq<seq<byte>>, plcs: seq<Index>) returns (places: seq<Place>)
    requires forall i :: 0 <= i < |plcs| ==> Ready(plcs[i])
    ensures AllStand(QueriesForAll(loras, plcs), places, loras, plcs) && InOrder(places)
  {
    hide *;
    places := SweepPlaces(loras, plcs, |loras|);
    assert loras[..|loras|] == loras;
  }
}
