/**
 The threads around the websocket queue, interleaved one memory access at a time.

 Any number of threads run `eb_ws_write`; the websocket thread runs the writeable callback, which looks at the
 head pointer without the mutex.  A step that follows a null or freed pointer sets `fault`.
 */
module WsProtocol {
  import opened Wrappers

  /** A queue node: `number` tells allocations apart. */
  datatype Msg = Msg(number: nat, priority: bool)

  type Pid = nat

  /** Where a thread is in `eb_ws_write`; each name is the access it makes next. */
  datatype Writer =
    | Lock(m: Msg)
    | LinkToHead(m: Msg)
    | TailIfFirst(m: Msg)
    | SetHead(m: Msg)
    | Terminate(m: Msg)
    | HeadIfFirst(m: Msg)
    | LinkFromTail(m: Msg)
    | SetTail(m: Msg)
    | Unlock(m: Msg)
    | Request(m: Msg)

  /** Where the websocket thread is in the writeable callback. */
  datatype Callback =
    | Waiting
    | Checking
    | Locking
    | Testing
    | Advancing
    | ClearingHead
    | ClearingTail
    | Unlocking
    | Writing
    | Freeing
    | Requesting

  datatype Holder = Free | Writer(pid: Pid) | Websocket

  /** What the queue's history is made of, in the order the changes take effect. */
  datatype Event = Enqueued(m: Msg) | Dequeued

  datatype State = State(
    head: Option<Msg>,
    tail: Option<Msg>,
    next: map<Msg, Option<Msg>>,
    mutex: Holder,
    pending: bool,
    writers: map<Pid, Writer>,
    callback: Callback,
    node: Option<Msg>,
    written: seq<Msg>,
    issued: set<Msg>,
    history: seq<Event>,
    fault: bool)

  const INITIAL: State := State(None, None, map[], Free, false, map[], Waiting, None, [], {}, [], false)

  // ---------------------------------------------------------------- steps

  datatype Action =
    | Established
    | Begin(pid: Pid, m: Msg)
    | Write(pid: Pid)
    | Deliver
    | Run

  predicate Enabled(s: State, a: Action) {
    match a
    case Established => s.callback == Waiting
    case Begin(pid, m) => pid !in s.writers && m !in s.issued
    case Write(pid) => pid in s.writers && (s.writers[pid].Lock? ==> s.mutex == Free)
    case Deliver => s.pending && s.callback == Waiting
    case Run => s.callback != Waiting && (s.callback == Locking ==> s.mutex == Free)
  }

  function Store(s: State, m: Msg, to: Option<Msg>): State {
    if m in s.next then s.(next := s.next[m := to]) else s.(fault := true)
  }

  function Record(s: State, e: Event): State {
    s.(history := s.history + [e])
  }

  /** The access a thread makes at `w`. */
  function WriterAccess(s: State, pid: Pid, w: Writer): State {
    match w
    case Lock(m) => s.(mutex := Holder.Writer(pid))
    case LinkToHead(m) => Store(s, m, s.head)
    case TailIfFirst(m) => if s.head == None then s.(tail := Some(m)) else s
    case SetHead(m) => Record(s.(head := Some(m)), Enqueued(m))
    case Terminate(m) => Store(s, m, None)
    case HeadIfFirst(m) => if s.head == None then s.(head := Some(m)) else s
    case LinkFromTail(m) => if s.tail == None then s else Store(s, s.tail.value, Some(m))
    case SetTail(m) => Record(s.(tail := Some(m)), Enqueued(m))
    case Unlock(m) => s.(mutex := Free)
    case Request(m) => s.(pending := true)
  }

  /** Where it goes from there; after `Request` it leaves `eb_ws_write`. */
  function Onward(w: Writer): Writer {
    match w
    case Lock(m) => if m.priority then LinkToHead(m) else Terminate(m)
    case LinkToHead(m) => TailIfFirst(m)
    case TailIfFirst(m) => SetHead(m)
    case SetHead(m) => Unlock(m)
    case Terminate(m) => HeadIfFirst(m)
    case HeadIfFirst(m) => LinkFromTail(m)
    case LinkFromTail(m) => SetTail(m)
    case SetTail(m) => Unlock(m)
    case Unlock(m) => Request(m)
    case Request(m) => w
  }

  function Moved(writers: map<Pid, Writer>, pid: Pid): map<Pid, Writer>
    requires pid in writers
  {
    if writers[pid].Request? then writers - {pid} else writers[pid := Onward(writers[pid])]
  }

  function WriterStep(s: State, pid: Pid): State
    requires pid in s.writers
  {
    WriterAccess(s, pid, s.writers[pid]).(writers := Moved(s.writers, pid))
  }

  function CallbackStep(s: State): State {
    match s.callback
    case Waiting => s
    case Checking => s.(callback := if s.head == None then Waiting else Locking)
    case Locking => s.(mutex := Websocket, callback := Testing)
    case Testing => if s.head == None then s.(callback := Unlocking) else s.(node := s.head, callback := Advancing)
    case Advancing =>
      if s.head == s.tail then s.(callback := ClearingHead)
      else if s.head == None || s.head.value !in s.next then s.(fault := true)
      else Record(s.(head := s.next[s.head.value], callback := Unlocking), Dequeued)
    case ClearingHead => s.(head := None, callback := ClearingTail)
    case ClearingTail => Record(s.(tail := None, callback := Unlocking), Dequeued)
    case Unlocking => s.(mutex := Free, callback := Writing)
    case Writing =>
      if s.node == None || s.node.value !in s.next then s.(fault := true)
      else s.(written := s.written + [s.node.value], callback := Freeing)
    case Freeing =>
      if s.node == None || s.node.value !in s.next then s.(fault := true)
      else s.(next := s.next - {s.node.value}, callback := Requesting)
    case Requesting => s.(pending := true, callback := Waiting)
  }

  function Apply(s: State, a: Action): State
    requires Enabled(s, a)
  {
    match a
    case Established => s.(pending := true)
    case Begin(pid, m) =>
      s.(next := s.next[m := None], issued := s.issued + {m}, writers := s.writers[pid := Lock(m)])
    case Write(pid) => WriterStep(s, pid)
    case Deliver => s.(pending := false, node := None, callback := Checking)
    case Run => CallbackStep(s)
  }

  /** The actions can be taken one after the other from `s`. */
  predicate Possible(s: State, run: seq<Action>)
    decreases |run|
  {
    run == [] || (Enabled(s, run[0]) && Possible(Apply(s, run[0]), run[1..]))
  }

  function After(s: State, run: seq<Action>): State
    requires Possible(s, run)
    decreases |run|
  {
    if run == [] then s else After(Apply(s, run[0]), run[1..])
  }

  // ---------------------------------------------------------------- the sequential queue

  /** What a history amounts to: the messages queued, and those taken out, in order. */
  datatype Queue = Queue(items: seq<Msg>, taken: seq<Msg>)

  function Effect(q: Queue, e: Event): Queue {
    match e
    case Enqueued(m) => q.(items := if m.priority then [m] + q.items else q.items + [m])
    case Dequeued => if q.items == [] then q else Queue(q.items[1..], q.taken + [q.items[0]])
  }

  function Replay(history: seq<Event>): Queue {
    if history == [] then Queue([], [])
    else Effect(Replay(history[..|history| - 1]), history[|history| - 1])
  }

  /** No message is ever taken out of an empty queue. */
  predicate Proper(history: seq<Event>) {
    history != [] ==>
      var before := history[..|history| - 1];
      Proper(before) && (history[|history| - 1] == Dequeued ==> Replay(before).items != [])
  }

  function Arrivals(history: seq<Event>): seq<Msg> {
    if history == [] then []
    else
      var before := Arrivals(history[..|history| - 1]);
      match history[|history| - 1]
      case Enqueued(m) => before + [m]
      case Dequeued => before
  }

  function Ordinary(ms: seq<Msg>): seq<Msg> {
    if ms == [] then []
    else if ms[0].priority then Ordinary(ms[1..])
    else [ms[0]] + Ordinary(ms[1..])
  }

  lemma {:induction false} OrdinaryConcat(a: seq<Msg>, b: seq<Msg>)
    ensures Ordinary(a + b) == Ordinary(a) + Ordinary(b)
  {
    if a == [] {
      assert a + b == b;
    } else {
      OrdinaryConcat(a[1..], b);
      assert (a + b)[0] == a[0] && (a + b)[1..] == a[1..] + b;
    }
  }

  lemma OrdinaryOne(m: Msg)
    ensures Ordinary([m]) == if m.priority then [] else [m]
  {
  }

  lemma OrdinaryEffect(q: Queue, e: Event)
    ensures var r := Effect(q, e);
            Ordinary(r.taken) + Ordinary(r.items) ==
            Ordinary(q.taken) + Ordinary(q.items) + if e.Enqueued? then Ordinary([e.m]) else []
  {
    hide Ordinary;
    match e
    case Enqueued(m) =>
      OrdinaryOne(m);
      OrdinaryConcat([m], q.items);
      OrdinaryConcat(q.items, [m]);
    case Dequeued =>
      if q.items != [] {
        OrdinaryConcat(q.taken, [q.items[0]]);
        OrdinaryConcat([q.items[0]], q.items[1..]);
        assert [q.items[0]] + q.items[1..] == q.items;
      }
  }

  /** Ordinary messages leave in the order they arrived, whatever priority messages do. */
  lemma {:induction false} OrdinaryFifo(history: seq<Event>)
    ensures Ordinary(Replay(history).taken) + Ordinary(Replay(history).items) == Ordinary(Arrivals(history))
  {
    hide Ordinary;
    hide Effect;
    if history == [] {
      NoOrdinary();
    } else {
      var before, e := history[..|history| - 1], history[|history| - 1];
      OrdinaryFifo(before);
      OrdinaryEffect(Replay(before), e);
      if e.Enqueued? {
        OrdinaryConcat(Arrivals(before), [e.m]);
      }
    }
  }

  lemma NoOrdinary()
    ensures Ordinary([]) == []
  {
  }

  lemma EffectConserves(q: Queue, e: Event)
    ensures var r := Effect(q, e);
            multiset(r.taken) + multiset(r.items) ==
            multiset(q.taken) + multiset(q.items) + if e.Enqueued? then multiset{e.m} else multiset{}
  {
    if e == Dequeued && q.items != [] {
      assert [q.items[0]] + q.items[1..] == q.items;
    }
  }

  /** Every message that arrived is queued or taken out, as many times as it arrived. */
  lemma {:induction false} Conserved(history: seq<Event>)
    ensures multiset(Replay(history).taken) + multiset(Replay(history).items) == multiset(Arrivals(history))
  {
    hide Effect;
    if history != [] {
      Conserved(history[..|history| - 1]);
      EffectConserves(Replay(history[..|history| - 1]), history[|history| - 1]);
    }
  }

  // ---------------------------------------------------------------- the invariant

  function Nth(q: seq<Msg>, i: int): Option<Msg> {
    if 0 <= i < |q| then Some(q[i]) else None
  }

  ghost predicate Distinct(q: seq<Msg>) {
    forall i, j :: 0 <= i < j < |q| ==> q[i] != q[j]
  }

  /** The nodes of `q` are allocated and linked in order. */
  ghost predicate Chain(next: map<Msg, Option<Msg>>, q: seq<Msg>) {
    forall i {:trigger q[i]} :: 0 <= i < |q| ==> q[i] in next && next[q[i]] == Nth(q, i + 1)
  }

  /** The two pointers and the links between the nodes spell `q`. */
  ghost predicate Spells(s: State, q: seq<Msg>) {
    s.head == Nth(q, 0) && s.tail == Nth(q, |q| - 1) && Chain(s.next, q)
  }

  predicate WriterHolds(w: Writer) {
    !w.Lock? && !w.Request?
  }

  predicate CallbackHolds(c: Callback) {
    c in {Testing, Advancing, ClearingHead, ClearingTail, Unlocking}
  }

  /** The message has not reached the queue yet. */
  predicate Uncommitted(w: Writer) {
    !w.Unlock? && !w.Request?
  }

  /** Exactly the thread named by the mutex is between locking and unlocking it. */
  ghost predicate Exclusive(writers: map<Pid, Writer>, mutex: Holder, callback: Callback) {
    && (forall p :: p in writers ==> (WriterHolds(writers[p]) <==> mutex == Holder.Writer(p)))
    && (mutex.Writer? ==> mutex.pid in writers)
    && (CallbackHolds(callback) <==> mutex == Websocket)
  }

  /** The path a thread takes fits the priority of its message. */
  predicate OnPath(w: Writer) {
    && (w.LinkToHead? || w.TailIfFirst? || w.SetHead? ==> w.m.priority)
    && (w.Terminate? || w.HeadIfFirst? || w.LinkFromTail? || w.SetTail? ==> !w.m.priority)
  }

  /** Every message issued has reached the queue, once, or is with one writer that has not put it there yet. */
  ghost predicate Placed(known: seq<Msg>, writers: map<Pid, Writer>, issued: set<Msg>, nodes: set<Msg>) {
    && Distinct(known)
    && (forall i :: 0 <= i < |known| ==> known[i] in issued)
    && (forall p :: p in writers ==> OnPath(writers[p]))
    && (forall p :: p in writers && Uncommitted(writers[p]) ==>
          writers[p].m in issued && writers[p].m in nodes && writers[p].m !in known)
    && (forall p, r :: p in writers && r in writers && p != r && Uncommitted(writers[p]) && Uncommitted(writers[r])
                       ==> writers[p].m != writers[r].m)
    && (forall m :: m in issued ==> m in known || WithWriter(writers, m))
  }

  ghost predicate WithWriter(writers: map<Pid, Writer>, m: Msg) {
    exists p :: p in writers && Uncommitted(writers[p]) && writers[p].m == m
  }

  function Known(history: seq<Event>): seq<Msg> {
    Replay(history).taken + Replay(history).items
  }

  /** What memory holds while a writer is inside the mutex. */
  ghost predicate WriterMemory(s: State, w: Writer, q: seq<Msg>) {
    match w
    case Lock(m) => true
    case LinkToHead(m) => Spells(s, q)
    case TailIfFirst(m) => Spells(s, q) && m in s.next && s.next[m] == s.head
    case SetHead(m) => s.head == Nth(q, 0) && s.tail == Nth([m] + q, |q|) && Chain(s.next, [m] + q)
    case Terminate(m) => Spells(s, q)
    case HeadIfFirst(m) => Spells(s, q) && m in s.next && s.next[m] == None
    case LinkFromTail(m) =>
      && s.head == Nth(q + [m], 0) && s.tail == Nth(q, |q| - 1) && Chain(s.next, q)
      && m in s.next && s.next[m] == None
    case SetTail(m) => s.head == Nth(q + [m], 0) && s.tail == Nth(q, |q| - 1) && Chain(s.next, q + [m])
    case Unlock(m) => Spells(s, q)
    case Request(m) => true
  }

  /** What memory holds while the websocket thread is inside the mutex. */
  ghost predicate CallbackMemory(s: State, q: seq<Msg>) {
    match s.callback
    case Testing => Spells(s, q) && q != []
    case Advancing => Spells(s, q) && q != [] && s.node == Some(q[0])
    case ClearingHead => Spells(s, q) && |q| == 1 && s.node == Some(q[0])
    case ClearingTail => |q| == 1 && s.head == None && s.tail == Some(q[0]) && Chain(s.next, q) && s.node == Some(q[0])
    case Unlocking => Spells(s, q)
    case _ => true
  }

  ghost predicate Memory(s: State) {
    var q := Replay(s.history).items;
    match s.mutex
    case Free => Spells(s, q)
    case Websocket => CallbackMemory(s, q)
    case Writer(p) => p in s.writers && WriterMemory(s, s.writers[p], q)
  }

  /** What has been taken out has been written, but for the message in the websocket thread's hands. */
  ghost predicate Hand(s: State) {
    var taken := Replay(s.history).taken;
    match s.callback
    case Unlocking | Writing => s.node.Some? && s.node.value in s.next && taken == s.written + [s.node.value]
    case Freeing => s.node.Some? && s.node.value in s.next && s.node.value in taken && taken == s.written
    case Locking => s.head.Some? && taken == s.written
    case _ => taken == s.written
  }

  /** A queued message has a wake-up coming: requested, about to be requested, or being acted on. */
  ghost predicate Awake(s: State) {
    Replay(s.history).items != [] ==>
      s.pending || s.callback != Waiting || AboutToRequest(s.writers)
  }

  ghost predicate AboutToRequest(writers: map<Pid, Writer>) {
    exists p :: p in writers && !Uncommitted(writers[p])
  }

  ghost predicate Inv(s: State) {
    && !s.fault && Proper(s.history) && Exclusive(s.writers, s.mutex, s.callback)
    && Placed(Known(s.history), s.writers, s.issued, s.next.Keys)
    && Memory(s) && Hand(s) && Awake(s)
  }

  lemma ReplayMore(history: seq<Event>, e: Event)
    ensures Replay(history + [e]) == Effect(Replay(history), e)
    ensures Proper(history + [e]) <==> Proper(history) && (e == Dequeued ==> Replay(history).items != [])
  {
  }

  lemma InitialInv()
    ensures Inv(INITIAL)
  {
  }

  // ---------------------------------------------------------------- every step keeps it

  lemma AccessFields(s: State, pid: Pid, w: Writer)
    ensures var r := WriterAccess(s, pid, w);
            && r.mutex == (if w.Lock? then Holder.Writer(pid) else if w.Unlock? then Free else s.mutex)
            && r.callback == s.callback && r.node == s.node && r.written == s.written && r.issued == s.issued
            && (s.pending ==> r.pending) && (w.Request? ==> r.pending) && (s.head.Some? ==> r.head.Some?)
            && r.history == if w.SetHead? || w.SetTail? then s.history + [Enqueued(w.m)] else s.history
  {
    match w
    case Lock(_) =>
    case LinkToHead(_) =>
    case TailIfFirst(_) =>
    case SetHead(_) =>
    case Terminate(_) =>
    case HeadIfFirst(_) =>
    case LinkFromTail(_) =>
    case SetTail(_) =>
    case Unlock(_) =>
    case Request(_) =>
  }

  lemma WriterFields(s: State, pid: Pid)
    requires pid in s.writers
    ensures var w, r := s.writers[pid], WriterStep(s, pid);
            && r.writers == Moved(s.writers, pid)
            && r.mutex == (if w.Lock? then Holder.Writer(pid) else if w.Unlock? then Free else s.mutex)
            && r.callback == s.callback && r.node == s.node && r.written == s.written && r.issued == s.issued
            && (s.pending ==> r.pending) && (w.Request? ==> r.pending) && (s.head.Some? ==> r.head.Some?)
            && r.history == if w.SetHead? || w.SetTail? then s.history + [Enqueued(w.m)] else s.history
  {
    hide Moved;
    hide WriterAccess;
    AccessFields(s, pid, s.writers[pid]);
  }

  lemma AccessNodes(s: State, pid: Pid, w: Writer)
    ensures var r := WriterAccess(s, pid, w);
            && r.next.Keys == s.next.Keys
            && (!WriterHolds(w) ==> r.head == s.head && r.tail == s.tail && r.next == s.next && r.fault == s.fault)
  {
  }

  lemma WriterNodes(s: State, pid: Pid)
    requires pid in s.writers
    ensures var w, r := s.writers[pid], WriterStep(s, pid);
            && r.next.Keys == s.next.Keys
            && (!WriterHolds(w) ==> r.head == s.head && r.tail == s.tail && r.next == s.next && r.fault == s.fault)
  {
    hide Moved;
    hide WriterAccess;
    AccessNodes(s, pid, s.writers[pid]);
  }

  lemma CallbackFields(s: State)
    ensures var c, r := s.callback, CallbackStep(s);
            && r.mutex == (if c == Locking then Websocket else if c == Unlocking then Free else s.mutex)
            && CallbackHolds(r.callback) == (c == Locking || (CallbackHolds(c) && c != Unlocking))
  {
    match s.callback
    case Waiting =>
    case Checking =>
    case Locking =>
    case Testing =>
    case Advancing =>
    case ClearingHead =>
    case ClearingTail =>
    case Unlocking =>
    case Writing =>
    case Freeing =>
    case Requesting =>
  }

  lemma CallbackLeaves(s: State)
    ensures CallbackStep(s).writers == s.writers && CallbackStep(s).issued == s.issued
  {
    match s.callback
    case Waiting =>
    case Checking =>
    case Locking =>
    case Testing =>
    case Advancing =>
    case ClearingHead =>
    case ClearingTail =>
    case Unlocking =>
    case Writing =>
    case Freeing =>
    case Requesting =>
  }

  lemma CallbackHistory(s: State)
    ensures var c, r := s.callback, CallbackStep(s);
            r.history == s.history || ((c == Advancing || c == ClearingTail) && r.history == s.history + [Dequeued])
  {
    match s.callback
    case Waiting =>
    case Checking =>
    case Locking =>
    case Testing =>
    case Advancing =>
    case ClearingHead =>
    case ClearingTail =>
    case Unlocking =>
    case Writing =>
    case Freeing =>
    case Requesting =>
  }

  lemma CallbackNodes(s: State)
    ensures var r := CallbackStep(s);
            || r.next.Keys == s.next.Keys
            || (s.callback == Freeing && s.node.Some? && r.next.Keys == s.next.Keys - {s.node.value})
  {
    match s.callback
    case Waiting =>
    case Checking =>
    case Locking =>
    case Testing =>
    case Advancing =>
    case ClearingHead =>
    case ClearingTail =>
    case Unlocking =>
    case Writing =>
    case Freeing =>
    case Requesting =>
  }

  lemma ExclusiveWriter(writers: map<Pid, Writer>, mutex: Holder, callback: Callback, pid: Pid)
    requires Exclusive(writers, mutex, callback) && pid in writers && (writers[pid].Lock? ==> mutex == Free)
    ensures var w := writers[pid];
            Exclusive(Moved(writers, pid),
                      if w.Lock? then Holder.Writer(pid) else if w.Unlock? then Free else mutex, callback)
  {
  }

  lemma ExclusiveKept(s: State, a: Action)
    requires Enabled(s, a) && Exclusive(s.writers, s.mutex, s.callback)
    ensures var r := Apply(s, a);
            Exclusive(r.writers, r.mutex, r.callback)
  {
    hide WriterStep;
    hide CallbackStep;
    hide Moved;
    match a
    case Write(pid) =>
      WriterFields(s, pid);
      ExclusiveWriter(s.writers, s.mutex, s.callback, pid);
    case Run =>
      CallbackLeaves(s);
      CallbackFields(s);
    case _ =>
  }

  lemma OnwardFields(w: Writer)
    requires OnPath(w)
    ensures Onward(w).m == w.m && OnPath(Onward(w))
    ensures !w.SetHead? && !w.SetTail? ==> (Uncommitted(Onward(w)) <==> Uncommitted(w))
    ensures w.Request? ==> !Uncommitted(w)
  {
  }

  lemma PlacedMoved(known: seq<Msg>, writers: map<Pid, Writer>, issued: set<Msg>, nodes: set<Msg>, pid: Pid)
    requires Placed(known, writers, issued, nodes) && pid in writers
    requires !writers[pid].SetHead? && !writers[pid].SetTail?
    ensures Placed(known, Moved(writers, pid), issued, nodes)
  {
    hide Onward;
    hide OnPath;
    hide Uncommitted;
    OnwardFields(writers[pid]);
    var moved := Moved(writers, pid);
    forall m | m in issued && m !in known
      ensures WithWriter(moved, m)
    {
      assert WithWriter(writers, m);
      var p :| p in writers && Uncommitted(writers[p]) && writers[p].m == m;
      assert p in moved && Uncommitted(moved[p]) && moved[p].m == m;
    }
  }

  lemma PlacedCommitted(known: seq<Msg>, known': seq<Msg>, writers: map<Pid, Writer>, issued: set<Msg>,
                        nodes: set<Msg>, pid: Pid)
    requires Placed(known, writers, issued, nodes) && pid in writers
    requires writers[pid].SetHead? || writers[pid].SetTail?
    requires Distinct(known') && forall m :: m in known' <==> m in known || m == writers[pid].m
    ensures Placed(known', Moved(writers, pid), issued, nodes)
  {
    var moved := Moved(writers, pid);
    forall m | m in issued && m !in known'
      ensures WithWriter(moved, m)
    {
      assert WithWriter(writers, m);
      var p :| p in writers && Uncommitted(writers[p]) && writers[p].m == m;
      assert p in moved && Uncommitted(moved[p]) && moved[p].m == m;
    }
    assert forall i :: 0 <= i < |known'| ==> known'[i] in known';
    assert forall i :: 0 <= i < |known| ==> known[i] in known;
  }

  lemma PlacedBegun(known: seq<Msg>, writers: map<Pid, Writer>, issued: set<Msg>, nodes: set<Msg>, pid: Pid, m: Msg)
    requires Placed(known, writers, issued, nodes) && pid !in writers && m !in issued
    ensures Placed(known, writers[pid := Lock(m)], issued + {m}, nodes + {m})
  {
    var begun := writers[pid := Lock(m)];
    forall k | k in issued + {m} && k !in known
      ensures WithWriter(begun, k)
    {
      if k == m {
        assert pid in begun && Uncommitted(begun[pid]) && begun[pid].m == m;
      } else {
        assert WithWriter(writers, k);
        var p :| p in writers && Uncommitted(writers[p]) && writers[p].m == k;
        assert p in begun && Uncommitted(begun[p]) && begun[p].m == k;
      }
    }
  }

  lemma DistinctInsert(a: seq<Msg>, m: Msg, b: seq<Msg>)
    requires Distinct(a + b) && m !in a + b
    ensures Distinct(a + ([m] + b)) && forall k :: k in a + ([m] + b) <==> k in a + b || k == m
  {
    var before, after := a + b, a + ([m] + b);
    assert forall i :: 0 <= i < |after| ==>
        after[i] == if i < |a| then before[i] else if i == |a| then m else before[i - 1];
    forall i, j | 0 <= i < j < |after|
      ensures after[i] != after[j]
    {
      if i == |a| {
        assert before[j - 1] in before;
      } else if j == |a| {
        assert before[i] in before;
      } else {
        assert before[if i < |a| then i else i - 1] != before[if j < |a| then j else j - 1];
      }
    }
    assert forall i :: 0 <= i < |before| ==> before[i] == after[if i < |a| then i else i + 1];
    assert after[|a|] == m;
  }

  lemma DequeueKeepsKnown(q: Queue)
    ensures Effect(q, Dequeued).taken + Effect(q, Dequeued).items == q.taken + q.items
  {
  }

  lemma PlacedFreed(known: seq<Msg>, writers: map<Pid, Writer>, issued: set<Msg>, nodes: set<Msg>, m: Msg)
    requires Placed(known, writers, issued, nodes) && m in known
    ensures Placed(known, writers, issued, nodes - {m})
  {
  }

  lemma KnownMore(history: seq<Event>, m: Msg)
    requires Distinct(Known(history)) && m !in Known(history)
    ensures var after := Known(history + [Enqueued(m)]);
            Distinct(after) && forall k :: k in after <==> k in Known(history) || k == m
  {
    hide Distinct;
    var q := Replay(history);
    ReplayMore(history, Enqueued(m));
    if m.priority {
      DistinctInsert(q.taken, m, q.items);
    } else {
      assert q.taken + q.items + [] == q.taken + q.items;
      DistinctInsert(q.taken + q.items, m, []);
      assert q.taken + (q.items + [m]) == q.taken + q.items + ([m] + []);
    }
  }

  lemma PlacedWriter(s: State, pid: Pid)
    requires Placed(Known(s.history), s.writers, s.issued, s.next.Keys) && pid in s.writers
    ensures var r := WriterStep(s, pid);
            Placed(Known(r.history), r.writers, r.issued, r.next.Keys)
  {
    hide WriterStep;
    hide Known;
    hide Moved;
    var w := s.writers[pid];
    WriterFields(s, pid);
    WriterNodes(s, pid);
    if w.SetHead? || w.SetTail? {
      KnownMore(s.history, w.m);
      PlacedCommitted(Known(s.history), Known(s.history + [Enqueued(w.m)]), s.writers, s.issued, s.next.Keys, pid);
    } else {
      PlacedMoved(Known(s.history), s.writers, s.issued, s.next.Keys, pid);
    }
  }

  lemma PlacedCallback(s: State)
    requires Placed(Known(s.history), s.writers, s.issued, s.next.Keys) && Hand(s)
    ensures var r := CallbackStep(s);
            Placed(Known(r.history), r.writers, r.issued, r.next.Keys)
  {
    hide CallbackStep;
    hide Replay;
    hide Placed;
    CallbackLeaves(s);
    CallbackFields(s);
    CallbackHistory(s);
    CallbackNodes(s);
    ReplayMore(s.history, Dequeued);
    DequeueKeepsKnown(Replay(s.history));
    if s.callback == Freeing {
      PlacedFreed(Known(s.history), s.writers, s.issued, s.next.Keys, s.node.value);
    }
  }

  lemma PlacedKept(s: State, a: Action)
    requires Enabled(s, a) && Placed(Known(s.history), s.writers, s.issued, s.next.Keys) && Hand(s)
    ensures var r := Apply(s, a);
            Placed(Known(r.history), r.writers, r.issued, r.next.Keys)
  {
    hide WriterStep;
    hide CallbackStep;
    hide Moved;
    hide Replay;
    hide Placed;
    match a
    case Begin(pid, m) =>
      PlacedBegun(Known(s.history), s.writers, s.issued, s.next.Keys, pid, m);
      assert Apply(s, a).next.Keys == s.next.Keys + {m};
    case Write(pid) => PlacedWriter(s, pid);
    case Run => PlacedCallback(s);
    case _ =>
  }

  // ---------------------------------------------------------------- memory

  /** Storing into a node outside the chain leaves the chain. */
  lemma ChainApart(next: map<Msg, Option<Msg>>, q: seq<Msg>, m: Msg, to: Option<Msg>)
    requires Chain(next, q) && m !in q
    ensures Chain(next[m := to], q)
  {
  }

  /** What memory holds once a writer has made the access at `w`. */
  ghost predicate MemoryPast(r: State, w: Writer, q: seq<Msg>) {
    if w.SetHead? then Spells(r, [w.m] + q)
    else if w.SetTail? then Spells(r, q + [w.m])
    else if w.Unlock? then Spells(r, q)
    else WriterMemory(r, Onward(w), q)
  }

  ghost predicate Apart(s: State, w: Writer, q: seq<Msg>) {
    Uncommitted(w) ==> w.m in s.next && w.m !in q
  }

  /** Putting a message in front: its link, the tail of an empty queue, the head. */
  lemma PriorityMemoryKept(s: State, pid: Pid, w: Writer, q: seq<Msg>)
    requires (w.LinkToHead? || w.TailIfFirst? || w.SetHead?) && WriterMemory(s, w, q) && Apart(s, w, q)
    ensures WriterAccess(s, pid, w).fault == s.fault && MemoryPast(WriterAccess(s, pid, w), w, q)
  {
    if w.LinkToHead? {
      ChainApart(s.next, q, w.m, s.head);
    }
  }

  /** Appending a message: its link and the head of an empty queue. */
  lemma OrdinaryHeadKept(s: State, pid: Pid, w: Writer, q: seq<Msg>)
    requires (w.Terminate? || w.HeadIfFirst?) && WriterMemory(s, w, q) && Apart(s, w, q)
    ensures WriterAccess(s, pid, w).fault == s.fault && MemoryPast(WriterAccess(s, pid, w), w, q)
  {
    if w.Terminate? {
      ChainApart(s.next, q, w.m, None);
    }
  }

  /** Appending a message: the link of the last one and the tail. */
  lemma OrdinaryTailKept(s: State, pid: Pid, w: Writer, q: seq<Msg>)
    requires (w.LinkFromTail? || w.SetTail?) && WriterMemory(s, w, q) && Apart(s, w, q)
    ensures WriterAccess(s, pid, w).fault == s.fault && MemoryPast(WriterAccess(s, pid, w), w, q)
  {
  }

  lemma StepMemory(s: State, pid: Pid, q: seq<Msg>)
    requires pid in s.writers
    ensures var w, a, r := s.writers[pid], WriterAccess(s, pid, s.writers[pid]), WriterStep(s, pid);
            r.fault == a.fault && (MemoryPast(a, w, q) ==> MemoryPast(r, w, q))
  {
    hide WriterAccess;
    hide Chain;
    hide Onward;
  }

  /** What one thread does inside the mutex to what the memory spells. */
  lemma WriterMemoryKept(s: State, pid: Pid, q: seq<Msg>)
    requires pid in s.writers && WriterHolds(s.writers[pid]) && OnPath(s.writers[pid])
    requires WriterMemory(s, s.writers[pid], q)
    requires Uncommitted(s.writers[pid]) ==> s.writers[pid].m in s.next && s.writers[pid].m !in q
    ensures var w, r := s.writers[pid], WriterStep(s, pid);
            && r.fault == s.fault
            && if w.SetHead? then Spells(r, [w.m] + q)
               else if w.SetTail? then Spells(r, q + [w.m])
               else if w.Unlock? then Spells(r, q)
               else WriterMemory(r, Onward(w), q)
  {
    hide Moved;
    hide Chain;
    hide WriterStep;
    hide Onward;
    var w := s.writers[pid];
    if w.LinkToHead? || w.TailIfFirst? || w.SetHead? {
      PriorityMemoryKept(s, pid, w, q);
    } else if w.Terminate? || w.HeadIfFirst? {
      OrdinaryHeadKept(s, pid, w, q);
    } else if w.LinkFromTail? || w.SetTail? {
      OrdinaryTailKept(s, pid, w, q);
    }
    StepMemory(s, pid, q);
  }

  lemma ChainTail(next: map<Msg, Option<Msg>>, q: seq<Msg>)
    requires Chain(next, q) && q != []
    ensures Chain(next, q[1..])
  {
  }

  /** The first message of a non-empty queue is in hand and has left the queue. */
  ghost predicate TookFirst(s: State, r: State, items: seq<Msg>) {
    && r.callback == Unlocking && r.node == s.node && r.history == s.history + [Dequeued]
    && items != [] && s.node == Some(items[0]) && Spells(r, items[1..])
  }

  /** What the websocket thread does inside the mutex: one step on, or the first message taken. */
  lemma CallbackMemoryKept(s: State, q: Queue)
    requires CallbackHolds(s.callback) && CallbackMemory(s, q.items) && Distinct(q.items)
    ensures var c, r := s.callback, CallbackStep(s);
            && r.fault == s.fault && r.next == s.next && r.written == s.written
            && (c != Testing ==> r.node == s.node)
            && (c == Unlocking ==> r.callback == Writing && Spells(r, q.items) && r.history == s.history)
            && (c != Unlocking ==>
                  TookFirst(s, r, q.items)
                  || (CallbackHolds(r.callback) && r.callback != Unlocking
                      && CallbackMemory(r, q.items) && r.history == s.history))
  {
    if s.callback == Advancing {
      assert s.head == s.tail <==> |q.items| == 1;
      ChainTail(s.next, q.items);
    }
  }

  ghost predicate SameElsewhere(next: map<Msg, Option<Msg>>, next': map<Msg, Option<Msg>>, m: Msg) {
    forall k :: k != m ==> (k in next <==> k in next') && (k in next ==> next[k] == next'[k])
  }

  lemma ChainElsewhere(next: map<Msg, Option<Msg>>, next': map<Msg, Option<Msg>>, m: Msg, q: seq<Msg>)
    requires Chain(next, q) && SameElsewhere(next, next', m) && m !in q
    ensures Chain(next', q)
  {
  }

  /** Allocating or freeing a node that is neither queued nor with a writer changes nothing for the queue. */
  lemma MemoryElsewhere(s: State, r: State, m: Msg)
    requires Memory(s) && r == s.(next := r.next, writers := r.writers, issued := r.issued, callback := r.callback)
    requires SameElsewhere(s.next, r.next, m) && m !in Replay(s.history).items
    requires s.mutex.Writer? ==>
               var p := s.mutex.pid;
               p in r.writers && r.writers[p] == s.writers[p]
               && WriterHolds(s.writers[p]) && (Uncommitted(s.writers[p]) ==> s.writers[p].m != m)
    requires s.mutex == Websocket ==> r.callback == s.callback
    ensures Memory(r)
  {
    hide Chain;
    hide SameElsewhere;
    var q := Replay(s.history).items;
    if s.mutex.Writer? {
      var w := s.writers[s.mutex.pid];
      if w.SetHead? && Chain(s.next, [w.m] + q) {
        ChainElsewhere(s.next, r.next, m, [w.m] + q);
      }
      if w.SetTail? && Chain(s.next, q + [w.m]) {
        ChainElsewhere(s.next, r.next, m, q + [w.m]);
      }
      if Chain(s.next, q) {
        ChainElsewhere(s.next, r.next, m, q);
      }
      WriterElsewhere(s, r, m, w, q);
    } else {
      if Chain(s.next, q) {
        ChainElsewhere(s.next, r.next, m, q);
      }
    }
  }

  lemma WriterElsewhere(s: State, r: State, m: Msg, w: Writer, q: seq<Msg>)
    requires r.head == s.head && r.tail == s.tail && SameElsewhere(s.next, r.next, m)
    requires WriterHolds(w) && (Uncommitted(w) ==> w.m != m)
    requires Chain(s.next, q) ==> Chain(r.next, q)
    requires w.SetHead? ==> Chain(s.next, [w.m] + q) ==> Chain(r.next, [w.m] + q)
    requires w.SetTail? ==> Chain(s.next, q + [w.m]) ==> Chain(r.next, q + [w.m])
    ensures WriterMemory(s, w, q) ==> WriterMemory(r, w, q)
  {
  }

  // ---------------------------------------------------------------- the invariant, action by action

  lemma BeginKeeps(s: State, pid: Pid, m: Msg)
    requires Inv(s) && Enabled(s, Begin(pid, m))
    ensures var r := Apply(s, Begin(pid, m));
            !r.fault && Proper(r.history) && Memory(r) && Hand(r) && Awake(r)
  {
    hide Replay;
    hide Chain;
    hide WriterMemory;
    hide CallbackMemory;
    var r := Apply(s, Begin(pid, m));
    assert m !in Known(s.history);
    MemoryElsewhere(s, r, m);
    if AboutToRequest(s.writers) {
      var p :| p in s.writers && !Uncommitted(s.writers[p]);
      assert p in r.writers && !Uncommitted(r.writers[p]);
    }
  }

  lemma DeliverKeeps(s: State)
    requires Inv(s) && Enabled(s, Deliver)
    ensures var r := Apply(s, Deliver);
            !r.fault && Proper(r.history) && Memory(r) && Hand(r) && Awake(r)
  {
  }

  /** A step of the thread that holds the mutex. */
  lemma InsideKeepsMemory(s: State, pid: Pid)
    requires Memory(s) && !s.fault && pid in s.writers && s.mutex == Holder.Writer(pid)
    requires WriterHolds(s.writers[pid]) && OnPath(s.writers[pid])
    requires Uncommitted(s.writers[pid]) ==>
               s.writers[pid].m in s.next && s.writers[pid].m !in Replay(s.history).items
    ensures !WriterStep(s, pid).fault && Memory(WriterStep(s, pid))
  {
    hide Replay;
    hide WriterStep;
    hide WriterMemory;
    hide CallbackMemory;
    hide Spells;
    var w, r := s.writers[pid], WriterStep(s, pid);
    WriterFields(s, pid);
    ReplayMore(s.history, Enqueued(w.m));
    WriterMemoryKept(s, pid, Replay(s.history).items);
    PathEnds(r, Unlock(w.m), Replay(r.history).items);
  }

  /** A step outside the mutex: taking it, or making the request. */
  lemma OutsideKeepsMemory(s: State, pid: Pid)
    requires Memory(s) && !s.fault && pid in s.writers && s.mutex != Holder.Writer(pid)
    requires !WriterHolds(s.writers[pid]) && (s.writers[pid].Lock? ==> s.mutex == Free)
    ensures !WriterStep(s, pid).fault && Memory(WriterStep(s, pid))
  {
  }

  lemma WriteKeepsMemory(s: State, pid: Pid)
    requires Inv(s) && Enabled(s, Write(pid))
    ensures !WriterStep(s, pid).fault && Memory(WriterStep(s, pid))
  {
    hide Replay;
    hide Hand;
    hide Awake;
    hide WriterStep;
    hide Memory;
    hide Distinct;
    if WriterHolds(s.writers[pid]) {
      assert Uncommitted(s.writers[pid]) ==> s.writers[pid].m !in Known(s.history);
      InsideKeepsMemory(s, pid);
    } else {
      OutsideKeepsMemory(s, pid);
    }
  }

  lemma PathEnds(s: State, w: Writer, q: seq<Msg>)
    requires w.LinkToHead? || w.Terminate? || w.Unlock?
    ensures Spells(s, q) <==> WriterMemory(s, w, q)
  {
  }

  lemma WriteKeepsHand(s: State, pid: Pid)
    requires Hand(s) && pid in s.writers
    ensures Hand(WriterStep(s, pid))
  {
    hide Replay;
    hide WriterStep;
    WriterNodes(s, pid);
    WriterFields(s, pid);
    ReplayMore(s.history, Enqueued(s.writers[pid].m));
  }

  /** The writer that made the queue non-empty is on its way to the request, and stays so until it has made it. */
  lemma WriteKeepsAwake(s: State, pid: Pid)
    requires Awake(s) && pid in s.writers
    ensures Awake(WriterStep(s, pid))
  {
    hide Replay;
    hide WriterStep;
    var r := WriterStep(s, pid);
    WriterFields(s, pid);
    ReplayMore(s.history, Enqueued(s.writers[pid].m));
    if s.writers[pid].Request? {
      assert r.pending;
    } else if s.writers[pid].SetHead? || s.writers[pid].SetTail? {
      assert pid in r.writers && !Uncommitted(r.writers[pid]);
    } else if AboutToRequest(s.writers) {
      var p :| p in s.writers && !Uncommitted(s.writers[p]);
      assert p in r.writers && !Uncommitted(r.writers[p]);
    }
  }

  /** The unlocked look at the head pointer never misses a queued message. */
  lemma HeadTells(s: State)
    requires Memory(s) && Exclusive(s.writers, s.mutex, s.callback) && s.mutex != Websocket && s.head == None
    ensures Replay(s.history).items == []
  {
  }

  lemma CallbackInside(s: State)
    requires Inv(s) && CallbackHolds(s.callback)
    ensures var r := CallbackStep(s);
            !r.fault && Proper(r.history) && Memory(r) && Hand(r) && Awake(r)
  {
    hide Replay;
    hide CallbackStep;
    hide Placed;
    hide Proper;
    CallbackFields(s);
    var q := Replay(s.history);
    ItemsDistinct(s);
    CallbackMemoryKept(s, q);
    ReplayMore(s.history, Dequeued);
  }

  lemma ItemsDistinct(s: State)
    requires Placed(Known(s.history), s.writers, s.issued, s.next.Keys)
    ensures Distinct(Replay(s.history).items)
    ensures forall m :: m in Replay(s.history).taken ==> m !in Replay(s.history).items
    ensures forall p :: p in s.writers && Uncommitted(s.writers[p]) ==> s.writers[p].m !in Replay(s.history).taken
  {
    hide Replay;
    hide Distinct;
    DistinctParts(Replay(s.history).taken, Replay(s.history).items);
  }

  lemma DistinctParts(a: seq<Msg>, b: seq<Msg>)
    requires Distinct(a + b)
    ensures Distinct(b) && forall m :: m in a ==> m !in b
  {
    var whole := a + b;
    assert forall i :: 0 <= i < |b| ==> whole[|a| + i] == b[i];
    forall m | m in a
      ensures m !in b
    {
      var i :| 0 <= i < |a| && a[i] == m;
      forall j | 0 <= j < |b|
        ensures b[j] != m
      {
        assert whole[i] != whole[|a| + j];
      }
    }
  }

  lemma CallbackOutside(s: State)
    requires Inv(s) && s.callback != Waiting && !CallbackHolds(s.callback)
    requires s.callback == Locking ==> s.mutex == Free
    ensures var r := CallbackStep(s);
            !r.fault && Proper(r.history) && Memory(r) && Hand(r) && Awake(r)
  {
    hide Replay;
    hide Placed;
    hide Proper;
    hide Chain;
    var r := CallbackStep(s);
    var q := Replay(s.history);
    ItemsDistinct(s);
    match s.callback
    case Checking =>
      if s.head == None {
        HeadTells(s);
      }
    case Freeing =>
      MemoryElsewhere(s, r, s.node.value);
    case _ =>
  }

  lemma EstablishedKeeps(s: State)
    requires Inv(s) && Enabled(s, Established)
    ensures var r := Apply(s, Established);
            !r.fault && Proper(r.history) && Memory(r) && Hand(r) && Awake(r)
  {
  }

  lemma WriteKeeps(s: State, pid: Pid)
    requires Inv(s) && Enabled(s, Write(pid))
    ensures var r := Apply(s, Write(pid));
            !r.fault && Proper(r.history) && Memory(r) && Hand(r) && Awake(r)
  {
    hide WriterStep;
    hide Memory;
    hide Hand;
    hide Awake;
    hide Proper;
    WriterFields(s, pid);
    ReplayMore(s.history, Enqueued(s.writers[pid].m));
    WriteKeepsMemory(s, pid);
    WriteKeepsHand(s, pid);
    WriteKeepsAwake(s, pid);
  }

  lemma RunKeeps(s: State)
    requires Inv(s) && Enabled(s, Run)
    ensures var r := Apply(s, Run);
            !r.fault && Proper(r.history) && Memory(r) && Hand(r) && Awake(r)
  {
    hide CallbackStep;
    hide Inv;
    hide Memory;
    hide Hand;
    hide Awake;
    hide Proper;
    if CallbackHolds(s.callback) {
      CallbackInside(s);
    } else {
      CallbackOutside(s);
    }
  }

  lemma StepKeeps(s: State, a: Action)
    requires Inv(s) && Enabled(s, a)
    ensures Inv(Apply(s, a))
  {
    hide Exclusive;
    hide Placed;
    hide Memory;
    hide Hand;
    hide Awake;
    hide Proper;
    hide Apply;
    ExclusiveKept(s, a);
    PlacedKept(s, a);
    match a
    case Established => EstablishedKeeps(s);
    case Begin(pid, m) => BeginKeeps(s, pid, m);
    case Deliver => DeliverKeeps(s);
    case Write(pid) => WriteKeeps(s, pid);
    case Run => RunKeeps(s);
  }

  // ---------------------------------------------------------------- over whole runs

  lemma {:induction false} RunsKeep(s: State, run: seq<Action>)
    requires Inv(s) && Possible(s, run)
    ensures Inv(After(s, run))
    decreases |run|
  {
    hide Inv;
    hide Apply;
    if run != [] {
      StepKeeps(s, run[0]);
      RunsKeep(Apply(s, run[0]), run[1..]);
    }
  }

  /** What the websocket thread has taken out and not yet written. */
  function InHand(s: State): seq<Msg> {
    if (s.callback == Unlocking || s.callback == Writing) && s.node.Some? then [s.node.value] else []
  }

  function Queued(s: State): seq<Msg> {
    Replay(s.history).items
  }

  /**
   Every reachable state, whatever the interleaving and the number of writers: no null or freed pointer is
   followed and no message is taken from an empty queue; what was written, is in hand and is queued are
   different messages, and together with those their writers still hold they are all there ever were; ordinary
   messages are written in the order they reached the queue; and a queued message has a wake-up coming.
   */
  lemma Safety(run: seq<Action>)
    requires Possible(INITIAL, run)
    ensures var s := After(INITIAL, run);
            && !s.fault && Proper(s.history)
            && Distinct(s.written + InHand(s) + Queued(s))
            && (forall m :: m in s.issued ==> m in s.written + InHand(s) + Queued(s) || WithWriter(s.writers, m))
            && multiset(s.written + InHand(s) + Queued(s)) == multiset(Arrivals(s.history))
            && Ordinary(s.written + InHand(s) + Queued(s)) == Ordinary(Arrivals(s.history))
            && (s.mutex == Free ==> Spells(s, Queued(s)))
            && Awake(s) && (s.callback == Checking && Queued(s) != [] ==> s.head.Some?)
  {
    hide After;
    hide Possible;
    hide Replay;
    InitialInv();
    RunsKeep(INITIAL, run);
    var s := After(INITIAL, run);
    TakenIsWritten(s);
    Conserved(s.history);
    OrdinaryFifo(s.history);
    if s.callback == Checking && s.head == None {
      HeadTells(s);
    }
    OrdinaryConcat(s.written + InHand(s), Queued(s));
  }

  lemma TakenIsWritten(s: State)
    requires Hand(s)
    ensures Replay(s.history).taken == s.written + InHand(s)
  {
  }

  // ---------------------------------------------------------------- what priority is for

  /** Everything that has reached the queue, in the order in which it is or will be written. */
  function Line(s: State): seq<Msg> {
    s.written + InHand(s) + Queued(s)
  }

  ghost predicate Before(line: seq<Msg>, a: Msg, b: Msg) {
    exists i, j :: 0 <= i < j < |line| && line[i] == a && line[j] == b
  }

  lemma BeforeAt(line: seq<Msg>, i: nat, j: nat)
    requires i < j < |line|
    ensures Before(line, line[i], line[j])
  {
  }

  lemma BeforeInserted(x: seq<Msg>, m: Msg, y: seq<Msg>, a: Msg, b: Msg)
    requires Before(x + y, a, b)
    ensures Before(x + [m] + y, a, b)
  {
    var i, j :| 0 <= i < j < |x + y| && (x + y)[i] == a && (x + y)[j] == b;
    var line := x + [m] + y;
    var i', j' := if i < |x| then i else i + 1, if j < |x| then j else j + 1;
    assert line[i'] == a && line[j'] == b;
  }

  /** An arrival goes in at one place; nothing else moves. */
  lemma KnownEnqueued(history: seq<Event>, m: Msg)
    ensures var q := Replay(history);
            Known(history + [Enqueued(m)]) ==
            if m.priority then q.taken + [m] + q.items else q.taken + q.items + [m]
  {
    hide Replay;
    ReplayMore(history, Enqueued(m));
  }

  lemma KnownDequeued(history: seq<Event>)
    ensures Known(history + [Dequeued]) == Known(history)
  {
    hide Replay;
    ReplayMore(history, Dequeued);
    DequeueKeepsKnown(Replay(history));
  }

  lemma StepHistory(s: State, a: Action)
    requires Enabled(s, a)
    ensures var h := Apply(s, a).history;
            || h == s.history || h == s.history + [Dequeued]
            || (a.Write? && h == s.history + [Enqueued(s.writers[a.pid].m)])
  {
    hide WriterStep;
    hide CallbackStep;
    if a.Write? {
      WriterFields(s, a.pid);
    }
    CallbackHistory(s);
  }

  lemma BeforeKept(s: State, step: Action, a: Msg, b: Msg)
    requires Enabled(s, step) && Before(Known(s.history), a, b)
    ensures Before(Known(Apply(s, step).history), a, b)
  {
    hide Apply;
    hide Before;
    hide Replay;
    StepHistory(s, step);
    KnownDequeued(s.history);
    if step.Write? {
      var q, m := Replay(s.history), s.writers[step.pid].m;
      KnownEnqueued(s.history, m);
      if m.priority {
        BeforeInserted(q.taken, m, q.items, a, b);
      } else {
        assert q.taken + q.items + [] == q.taken + q.items;
        assert q.taken + q.items + [m] + [] == q.taken + q.items + [m];
        BeforeInserted(q.taken + q.items, m, [], a, b);
      }
    }
  }

  lemma {:induction false} BeforeForever(s: State, run: seq<Action>, a: Msg, b: Msg)
    requires Possible(s, run) && Before(Known(s.history), a, b)
    ensures Before(Known(After(s, run).history), a, b)
    decreases |run|
  {
    hide Apply;
    hide Before;
    hide Known;
    if run != [] {
      BeforeKept(s, run[0], a, b);
      BeforeForever(Apply(s, run[0]), run[1..], a, b);
    }
  }

  /** Where an arrival stands among those that reached the queue before it. */
  lemma ArrivalStands(history: seq<Event>, m: Msg, k: Msg)
    requires k in Known(history)
    ensures k in Replay(history).items && m.priority ==> Before(Known(history + [Enqueued(m)]), m, k)
    ensures k in Replay(history).taken || !m.priority ==> Before(Known(history + [Enqueued(m)]), k, m)
  {
    hide Before;
    hide Replay;
    var q := Replay(history);
    KnownEnqueued(history, m);
    var line := Known(history + [Enqueued(m)]);
    if k in q.items && m.priority {
      var j :| 0 <= j < |q.items| && q.items[j] == k;
      assert line[|q.taken|] == m && line[|q.taken| + 1 + j] == k;
      BeforeAt(line, |q.taken|, |q.taken| + 1 + j);
    }
    if k in q.taken {
      var j :| 0 <= j < |q.taken| && q.taken[j] == k;
      var at := if m.priority then |q.taken| else |q.taken + q.items|;
      assert line[at] == m && line[j] == k;
      BeforeAt(line, j, at);
    } else if !m.priority {
      var j :| 0 <= j < |q.items| && q.items[j] == k;
      assert line[|q.taken + q.items|] == m && line[|q.taken| + j] == k;
      BeforeAt(line, |q.taken| + j, |q.taken + q.items|);
    }
  }

  lemma LineIsKnown(s: State)
    requires Inv(s)
    ensures Line(s) == Known(s.history) && Replay(s.history).taken == s.written + InHand(s)
  {
    TakenIsWritten(s);
  }

  /** A message that is new in the line has just arrived. */
  lemma Newcomer(s: State, step: Action, m: Msg)
    requires Enabled(s, step)
    requires m !in Known(s.history) && m in Known(Apply(s, step).history)
    ensures Apply(s, step).history == s.history + [Enqueued(m)]
  {
    hide Apply;
    hide Replay;
    StepHistory(s, step);
    KnownDequeued(s.history);
    if step.Write? {
      KnownEnqueued(s.history, s.writers[step.pid].m);
    }
  }

  /**
   The step that puts message `m` into the queue decides its place for good.  A priority message is written before
   everything queued at that moment, and after only what had been taken out; an ordinary one is written after all
   that reached the queue before it.
   */
  lemma Overtakes(past: seq<Action>, step: Action, rest: seq<Action>, m: Msg, k: Msg)
    requires Possible(INITIAL, past) && Enabled(After(INITIAL, past), step)
    requires Possible(Apply(After(INITIAL, past), step), rest)
    requires m !in Line(After(INITIAL, past)) && m in Line(Apply(After(INITIAL, past), step))
    ensures var s, later := After(INITIAL, past), After(Apply(After(INITIAL, past), step), rest);
            && (k in Queued(s) && m.priority ==> Before(Line(later), m, k))
            && (k in Queued(s) && !m.priority ==> Before(Line(later), k, m))
            && (k in s.written + InHand(s) ==> Before(Line(later), k, m))
  {
    hide Inv;
    hide Apply;
    hide After;
    hide Possible;
    hide Before;
    hide Line;
    hide Replay;
    var s := After(INITIAL, past);
    var t := Apply(s, step);
    InitialInv();
    RunsKeep(INITIAL, past);
    StepKeeps(s, step);
    RunsKeep(t, rest);
    LineIsKnown(s);
    LineIsKnown(t);
    LineIsKnown(After(t, rest));
    StepHistory(s, step);
    KnownDequeued(s.history);
    Newcomer(s, step, m);
    if k in Known(s.history) {
      ArrivalStands(s.history, m, k);
      if m.priority && k in Queued(s) {
        BeforeForever(t, rest, m, k);
      }
      if !m.priority || k in s.written + InHand(s) {
        BeforeForever(t, rest, k, m);
      }
    }
  }

  // ---------------------------------------------------------------- runs without priority messages

  lemma {:induction false} IssuedInRun(s: State, run: seq<Action>)
    requires Possible(s, run)
    requires forall m :: m in s.issued ==> !m.priority
    requires forall i :: 0 <= i < |run| && run[i].Begin? ==> !run[i].m.priority
    ensures forall m :: m in After(s, run).issued ==> !m.priority
    decreases |run|
  {
    hide WriterStep;
    hide CallbackStep;
    if run != [] {
      if run[0].Write? {
        WriterFields(s, run[0].pid);
      }
      CallbackLeaves(s);
      assert forall i :: 0 <= i < |run[1..]| ==> run[1..][i] == run[i + 1];
      IssuedInRun(Apply(s, run[0]), run[1..]);
    }
  }

  lemma {:induction false} AllOrdinary(ms: seq<Msg>)
    requires forall m :: m in ms ==> !m.priority
    ensures Ordinary(ms) == ms
  {
    if ms != [] {
      assert ms[0] in ms;
      AllOrdinary(ms[1..]);
    }
  }

  /** Without priority messages the queue is first in, first out: messages are written exactly in order of arrival. */
  lemma PlainFifo(run: seq<Action>)
    requires Possible(INITIAL, run)
    requires forall i :: 0 <= i < |run| && run[i].Begin? ==> !run[i].m.priority
    ensures var s := After(INITIAL, run);
            s.written + InHand(s) + Queued(s) == Arrivals(s.history)
  {
    hide After;
    hide Possible;
    hide Replay;
    hide Ordinary;
    hide Arrivals;
    var s := After(INITIAL, run);
    Safety(run);
    IssuedInRun(INITIAL, run);
    InitialInv();
    RunsKeep(INITIAL, run);
    TakenIsWritten(s);
    var all, arrived := s.written + InHand(s) + Queued(s), Arrivals(s.history);
    assert forall m :: m in all ==> m in s.issued;
    assert forall m :: m in arrived ==> m in multiset(arrived) && m in multiset(all);
    AllOrdinary(all);
    AllOrdinary(arrived);
  }

  // ---------------------------------------------------------------- progress

  function Rank(s: State): nat {
    20 * |Queued(s)| +
    match s.callback
    case Waiting => if s.pending then 11 else 0
    case Checking => if s.pending then 12 else 10
    case Locking => 9
    case Testing => 8
    case Advancing => 7
    case ClearingHead => 6
    case ClearingTail => 5
    case Unlocking => 15
    case Writing => 14
    case Freeing => 13
    case Requesting => 12
  }

  lemma StepRanks(s: State, a: Action)
    requires Inv(s) && Enabled(s, a) && a in {Deliver, Run}
    ensures Known(Apply(s, a).history) == Known(s.history) && Rank(Apply(s, a)) < Rank(s)
  {
    hide Replay;
    hide Placed;
    hide Chain;
    hide Proper;
    hide WriterMemory;
    if s.callback == Checking && s.head == None {
      HeadTells(s);
    }
    if CallbackHolds(s.callback) {
      ItemsDistinct(s);
      CallbackMemoryKept(s, Replay(s.history));
    }
    ReplayMore(s.history, Dequeued);
    DequeueKeepsKnown(Replay(s.history));
  }

  /** With no writer about, one step of the library or the websocket thread is possible while messages wait. */
  lemma NextAction(s: State) returns (a: Action)
    requires Inv(s) && s.writers == map[] && (s.callback != Waiting || s.pending)
    ensures a in {Deliver, Run} && Enabled(s, a)
    ensures var r := Apply(s, a);
            r.writers == map[] && Known(r.history) == Known(s.history) && Rank(r) < Rank(s)
  {
    hide Known;
    hide Rank;
    hide Placed;
    hide Memory;
    hide Hand;
    hide Awake;
    hide CallbackStep;
    a := if s.callback == Waiting then Deliver else Run;
    CallbackLeaves(s);
    StepRanks(s, a);
  }

  /**
   Once the writers are done, the requests already made are enough for every queued message to be written, in
   queue order: the run below needs only the library and the websocket thread.
   */
  lemma {:induction false} Drains(s: State) returns (run: seq<Action>)
    requires Inv(s) && s.writers == map[]
    ensures Possible(s, run) && forall i :: 0 <= i < |run| ==> run[i] in {Deliver, Run}
    ensures After(s, run).written == s.written + InHand(s) + Queued(s) && Queued(After(s, run)) == []
    ensures After(s, run).callback == Waiting && After(s, run).writers == map[]
    decreases Rank(s)
  {
    hide Inv;
    hide Apply;
    hide Known;
    hide Rank;
    KnownIs(s);
    if s.callback == Waiting && !s.pending {
      run := [];
      Quiet(s);
    } else {
      var a := NextAction(s);
      StepKeeps(s, a);
      var rest := Drains(Apply(s, a));
      KnownIs(Apply(s, a));
      run := [a] + rest;
      assert run[1..] == rest;
    }
  }

  lemma KnownIs(s: State)
    requires Inv(s)
    ensures Known(s.history) == s.written + InHand(s) + Queued(s)
  {
  }

  lemma Quiet(s: State)
    requires Inv(s) && s.writers == map[] && s.callback == Waiting && !s.pending
    ensures Queued(s) == [] && InHand(s) == []
  {
  }

  // ---------------------------------------------------------------- writers in flight

  /** Accesses a writer still has to make. */
  function Remaining(w: Writer): nat {
    match w
    case Lock(_) => 7
    case LinkToHead(_) => 6
    case TailIfFirst(_) => 5
    case SetHead(_) => 3
    case Terminate(_) => 6
    case HeadIfFirst(_) => 5
    case LinkFromTail(_) => 4
    case SetTail(_) => 3
    case Unlock(_) => 2
    case Request(_) => 1
  }

  /** No new message is written. */
  predicate NoneBegun(run: seq<Action>) {
    forall i :: 0 <= i < |run| ==> !run[i].Begin?
  }

  lemma {:induction false} RunsJoin(s: State, a: seq<Action>, b: seq<Action>)
    requires Possible(s, a) && Possible(After(s, a), b)
    ensures Possible(s, a + b) && After(s, a + b) == After(After(s, a), b)
    decreases |a|
  {
    hide Apply;
    hide Enabled;
    if a == [] {
      assert a + b == b;
    } else {
      assert (a + b)[0] == a[0] && (a + b)[1..] == a[1..] + b;
      RunsJoin(Apply(s, a[0]), a[1..], b);
    }
  }

  lemma {:induction false} NoneBegunIssued(s: State, run: seq<Action>)
    requires Possible(s, run) && NoneBegun(run)
    ensures After(s, run).issued == s.issued
    decreases |run|
  {
    hide WriterStep;
    hide CallbackStep;
    if run != [] {
      if run[0].Write? {
        WriterFields(s, run[0].pid);
      }
      CallbackLeaves(s);
      NoneBegunIssued(Apply(s, run[0]), run[1..]);
    }
  }

  lemma WriteMoves(s: State, pid: Pid)
    requires pid in s.writers && (WriterHolds(s.writers[pid]) <==> s.mutex == Holder.Writer(pid))
    requires s.mutex == Free || s.mutex == Holder.Writer(pid)
    ensures Enabled(s, Write(pid))
    ensures var r := Apply(s, Write(pid));
            if s.writers[pid].Request? then r.writers == s.writers - {pid}
            else
              && r.writers == s.writers[pid := Onward(s.writers[pid])]
              && Remaining(Onward(s.writers[pid])) < Remaining(s.writers[pid])
              && (r.mutex == Free || r.mutex == Holder.Writer(pid))
  {
    hide WriterStep;
    WriterFields(s, pid);
  }

  /** With nobody else in the mutex a writer can finish: among the rest it gives the mutex back. */
  lemma {:induction false} WriterFinishes(s: State, pid: Pid) returns (run: seq<Action>)
    requires Inv(s) && pid in s.writers && (s.mutex == Free || s.mutex == Holder.Writer(pid))
    ensures Possible(s, run) && NoneBegun(run) && After(s, run).writers == s.writers - {pid}
    decreases Remaining(s.writers[pid])
  {
    hide Apply;
    hide Placed;
    hide Memory;
    hide Hand;
    hide Awake;
    hide Proper;
    WriteMoves(s, pid);
    StepKeeps(s, Write(pid));
    var next := Apply(s, Write(pid));
    var rest: seq<Action> := [];
    if !s.writers[pid].Request? {
      rest := WriterFinishes(next, pid);
      assert next.writers - {pid} == s.writers - {pid};
    }
    run := [Write(pid)] + rest;
    assert run[1..] == rest;
  }

  function Inside(c: Callback): nat {
    match c
    case Testing => 5
    case Advancing => 4
    case ClearingHead => 3
    case ClearingTail => 2
    case _ => 1
  }

  lemma InsideMoves(s: State)
    requires CallbackHolds(s.callback) && s.callback != Unlocking && !CallbackStep(s).fault
    ensures Inside(CallbackStep(s).callback) < Inside(s.callback)
  {
  }

  lemma RunMoves(s: State)
    requires CallbackHolds(s.callback) && s.mutex == Websocket && !CallbackStep(s).fault
    ensures Enabled(s, Run) && Apply(s, Run).writers == s.writers
    ensures var r := CallbackStep(s);
            r.mutex == Free || (r.mutex == Websocket && Inside(r.callback) < Inside(s.callback))
  {
    hide CallbackStep;
    hide Inside;
    CallbackLeaves(s);
    CallbackFields(s);
    if s.callback != Unlocking {
      InsideMoves(s);
    }
  }

  /** The websocket thread gives the mutex back. */
  lemma {:induction false} CallbackReleases(s: State) returns (run: seq<Action>)
    requires Inv(s) && s.mutex == Websocket
    ensures Possible(s, run) && NoneBegun(run) && After(s, run).writers == s.writers && After(s, run).mutex == Free
    decreases Inside(s.callback)
  {
    hide CallbackStep;
    hide Placed;
    hide Memory;
    hide Hand;
    hide Awake;
    hide Proper;
    StepKeeps(s, Run);
    RunMoves(s);
    var next := Apply(s, Run);
    var rest: seq<Action> := [];
    if next.mutex != Free {
      rest := CallbackReleases(next);
    }
    run := [Run] + rest;
    assert run[1..] == rest;
  }

  /** From every state of the invariant the writers in flight can all finish. */
  lemma {:induction false} WritersFinish(s: State) returns (run: seq<Action>)
    requires Inv(s)
    ensures Possible(s, run) && NoneBegun(run) && After(s, run).writers == map[]
    decreases |s.writers|
  {
    hide Apply;
    hide Possible;
    hide After;
    hide Placed;
    hide Memory;
    hide Hand;
    hide Awake;
    hide Proper;
    if s.writers == map[] {
      run := [];
      NothingRuns(s);
    } else {
      var pid: Pid;
      var before: seq<Action> := [];
      NothingRuns(s);
      if s.mutex == Websocket {
        before := CallbackReleases(s);
        RunsKeep(s, before);
      }
      var free := After(s, before);
      if free.mutex.Writer? {
        pid := free.mutex.pid;
      } else {
        assert free.writers.Keys != {};
        pid :| pid in free.writers.Keys;
      }
      var one := WriterFinishes(free, pid);
      RunsJoin(s, before, one);
      RunsKeep(free, one);
      FewerWriters(free.writers, pid);
      var rest := WritersFinish(After(free, one));
      RunsJoin(s, before + one, rest);
      run := before + one + rest;
    }
  }

  lemma NothingRuns(s: State)
    ensures Possible(s, []) && After(s, []) == s
  {
  }

  lemma FewerWriters(writers: map<Pid, Writer>, pid: Pid)
    requires pid in writers
    ensures |writers - {pid}| < |writers|
  {
    assert writers.Keys == (writers - {pid}).Keys + {pid};
  }

  /**
   From every reachable state, messages being written included, some run that begins no new one ends with every
   message ever begun written exactly once, nobody in the mutex and nobody waiting for it.
   */
  lemma AllWritten(past: seq<Action>) returns (run: seq<Action>)
    requires Possible(INITIAL, past)
    ensures var s := After(INITIAL, past);
            && Possible(s, run) && NoneBegun(run)
            && var r := After(s, run);
            && r.writers == map[] && r.mutex == Free && r.callback == Waiting && Queued(r) == []
            && Distinct(r.written) && forall m :: m in r.written <==> m in s.issued
  {
    hide Possible;
    hide After;
    hide Apply;
    InitialInv();
    RunsKeep(INITIAL, past);
    var s := After(INITIAL, past);
    var finish := WritersFinish(s);
    RunsKeep(s, finish);
    var drain := Drains(After(s, finish));
    RunsJoin(s, finish, drain);
    run := finish + drain;
    RunsKeep(s, run);
    NoneBegunIssued(s, run);
    WrittenAll(After(s, run));
  }

  lemma WrittenAll(s: State)
    requires Inv(s) && s.writers == map[] && s.callback == Waiting && Queued(s) == []
    ensures s.mutex == Free && Distinct(s.written) && forall m :: m in s.written <==> m in s.issued
  {
    hide Memory;
    hide Proper;
    hide Replay;
    KnownIs(s);
    assert s.written + InHand(s) + Queued(s) == s.written;
  }
}
