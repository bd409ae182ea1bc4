/**
 Batching of deadline requests: a collector fills batches of as many requests as
 the machine has lanes, a timer flushes what is waiting, workers process batches.
 */
module Collector {
  const AVX2_PARALLEL := 8
  const SSE4_PARALLEL := 4

  /** The parameters of a request, as far as the native calculation sees them. */
  datatype Params = Params(account: int, nonce: int, baseTarget: int, scoop: int, height: int)

  class Request {
    const params: Params
    var deadline: int

    constructor (params: Params)
    {
      this.params, deadline := params, 0;
    }
  }

  /** A copy of the collector's slots and how many of them count. */
  datatype Batch<T> = Batch(pending: nat, reqs: seq<T>) {
    /** The requests that count. */
    function Requests(): seq<T>
    {
      if pending <= |reqs| then reqs[..pending] else []
    }
  }

  /** What can happen to the collector, in any order. */
  datatype Event = Arrival(r: Request) | Timeout

  ghost predicate WellFormed<T>(b: Batch<T>, lanes: nat)
  {
    b.pending <= lanes <= |b.reqs|
  }

  /** A batch as it goes through the channel: all slots, no more of them counting than there are lanes. */
  ghost predicate Sized<T>(b: Batch<T>, lanes: nat)
  {
    b.pending <= lanes <= |b.reqs| == AVX2_PARALLEL
  }

  /** The requests of a sequence of batches, in order. */
  ghost function Dispatched<T>(batches: seq<Batch<T>>, lanes: nat): seq<T>
    requires forall b :: b in batches ==> WellFormed(b, lanes)
  {
    if batches == [] then []
    else
      var b := batches[|batches| - 1];
      assert WellFormed(batches[|batches| - 1], lanes);
      Dispatched(batches[..|batches| - 1], lanes) + b.reqs[..b.pending]
  }

  lemma DispatchedSnoc<T>(batches: seq<Batch<T>>, b: Batch<T>, lanes: nat)
    requires (forall c :: c in batches ==> WellFormed(c, lanes)) && WellFormed(b, lanes)
    ensures Dispatched(batches + [b], lanes) == Dispatched(batches, lanes) + b.reqs[..b.pending]
  {
    assert (batches + [b])[..|batches|] == batches;
  }

  ghost function Arrivals(events: seq<Event>): seq<Request>
  {
    if events == [] then []
    else
      var e := events[|events| - 1];
      Arrivals(events[..|events| - 1]) + if e.Arrival? then [e.r] else []
  }

  // ---------- the collector ----------

  class RequestCollector {
    const lanes: nat
    const reqs: array<Request>
    var pending: nat
    /** Whether the latest timer has yet to fire. */
    var armed: bool
    /** The channel to the workers: what has been sent and not yet received. */
    var batches: seq<Batch<Request>>
    /** Everything sent, and everything received from the callers. */
    ghost var sent: seq<Batch<Request>>
    ghost var arrived: seq<Request>

    /** Nothing is lost, reordered or duplicated, and whatever waits has a timer running. */
    ghost predicate Valid()
      reads this, reqs
      ensures Valid() ==> pending < lanes <= reqs.Length == AVX2_PARALLEL
      ensures Valid() ==> forall b :: b in batches ==> Sized(b, lanes)
    {
      && (lanes == SSE4_PARALLEL || lanes == AVX2_PARALLEL) && reqs.Length == AVX2_PARALLEL
      && pending < lanes
      && (forall b :: b in sent ==> WellFormed(b, lanes))
      && (forall b :: b in batches ==> Sized(b, lanes))
      && Dispatched(sent, lanes) + Waiting() == arrived
      && (pending > 0 ==> armed)
    }

    ghost function Waiting(): seq<Request>
      requires pending <= reqs.Length
      reads this, reqs
    {
      reqs[..pending]
    }

    constructor (lanes: nat, dummy: Request)
      requires lanes == SSE4_PARALLEL || lanes == AVX2_PARALLEL
      ensures Valid() && arrived == [] && batches == [] && pending == 0 && fresh(reqs) && this.lanes == lanes
    {
      this.lanes := lanes;
      reqs := new Request[AVX2_PARALLEL](_ => dummy);
      pending, armed, batches, sent, arrived := 0, false, [], [], [];
    }

    /** The request joins those waiting; a full set of lanes is sent in order of arrival. */
    method OnArrival(r: Request)
      requires Valid()
      modifies this, reqs
      ensures Valid() && arrived == old(arrived) + [r]
      ensures old(pending) + 1 < lanes ==> batches == old(batches) && Waiting() == old(Waiting()) + [r]
      ensures old(pending) + 1 == lanes ==>
                pending == 0 && |batches| == |old(batches)| + 1 && batches[..|old(batches)|] == old(batches)
                && Sized(batches[|old(batches)|], lanes) && batches[|old(batches)|].Requests() == old(Waiting()) + [r]
      ensures reqs[..] == old(reqs[..])[old(pending) := r]
      ensures forall b :: b in batches ==> b in old(batches) || b.reqs == reqs[..]
    {
      hide Dispatched, WellFormed, Sized;
      ghost var waiting := Waiting();
      reqs[pending] := r;
      arrived := arrived + [r];
      assert reqs[..pending + 1] == waiting + [r];
      if pending == 0 {
        armed := true;
      } else if pending == lanes - 1 {
        Dispatch(pending + 1);
        return;
      }
      pending := pending + 1;
    }

    /** Whatever waits is sent in order; a stale timer, with nothing waiting, sends an empty batch. */
    method OnTimeout()
      requires Valid()
      modifies this
      ensures Valid() && arrived == old(arrived) && pending == 0
      ensures |batches| == |old(batches)| + 1 && batches[..|old(batches)|] == old(batches)
      ensures Sized(batches[|old(batches)|], lanes) && batches[|old(batches)|].Requests() == old(Waiting())
      ensures batches[|old(batches)|].reqs == reqs[..]
    {
      armed := false;
      Dispatch(pending);
    }

    method Dispatch(count: nat)
      requires (lanes == SSE4_PARALLEL || lanes == AVX2_PARALLEL) && reqs.Length == AVX2_PARALLEL && count <= lanes
      requires (forall b :: b in sent ==> WellFormed(b, lanes)) && (forall b :: b in batches ==> Sized(b, lanes))
      requires Dispatched(sent, lanes) + reqs[..count] == arrived
      modifies `batches, `pending, `sent
      ensures Valid() && pending == 0 && batches == old(batches) + [Batch(count, reqs[..])]
    {
      hide Dispatched;
      var b := Batch(count, reqs[..]);
      assert b.reqs[..count] == reqs[..count];
      DispatchedSnoc(sent, b, lanes);
      sent := sent + [b];
      batches := batches + [b];
      pending := 0;
    }

    /** A worker receives a batch. */
    method Receive(k: nat) returns (b: Batch<Request>)
      requires Valid() && k < |batches|
      modifies `batches
      ensures Valid() && b == old(batches)[k] && Sized(b, lanes)
      ensures batches == old(batches)[..k] + old(batches)[k + 1..]
    {
      b := batches[k];
      batches := batches[..k] + batches[k + 1..];
    }

    /** The select loop, for any interleaving of arrivals and timeouts. */
    method Collect(events: seq<Event>)
      requires Valid()
      modifies this, reqs
      ensures Valid() && arrived == old(arrived) + Arrivals(events)
    {
      for i := 0 to |events|
        invariant Valid() && arrived == old(arrived) + Arrivals(events[..i])
      {
        assert events[..i + 1][..i] == events[..i];
        match events[i]
        case Arrival(r) => OnArrival(r);
        case Timeout => OnTimeout();
      }
      assert events[..|events|] == events;
    }
  }

  // ---------- a worker ----------

  class Worker {
    const avx2: bool
    const creqs: array<Request>
    /** The deadline of one set of parameters: the native calculation. */
    const deadlineOf: Params -> int
    /** The requests whose owners have been told, in order. */
    var signalled: seq<Request>

    ghost predicate Valid()
    {
      creqs.Length == AVX2_PARALLEL
    }

    constructor (avx2: bool, deadlineOf: Params -> int, dummy: Request)
      ensures Valid() && signalled == [] && fresh(creqs)
    {
      this.avx2, this.deadlineOf := avx2, deadlineOf;
      creqs := new Request[AVX2_PARALLEL](_ => dummy);
      signalled := [];
    }

    /** Every lane calculates the deadline of its request; lanes may share one. */
    method Calculate(n: nat)
      requires Valid() && n <= AVX2_PARALLEL
      modifies creqs[..n]
      ensures forall i :: 0 <= i < n ==> creqs[i].deadline == deadlineOf(creqs[i].params)
      ensures forall r :: r in creqs[..n] ==> r.deadline == deadlineOf(r.params)
    {
      for i := 0 to n
        invariant forall k :: 0 <= k < i ==> creqs[k].deadline == deadlineOf(creqs[k].params)
      {
        creqs[i].deadline := deadlineOf(creqs[i].params);
      }
    }

    /** Every request that counts gets its deadline and is signalled once; unused lanes repeat the first slot. */
    method ProcessReqs(reqs: seq<Request>, total: nat)
      requires Valid() && |reqs| == AVX2_PARALLEL
      requires total <= if avx2 then AVX2_PARALLEL else SSE4_PARALLEL
      modifies this, creqs, reqs
      ensures Valid() && signalled == old(signalled) + reqs[..total]
      ensures forall i :: 0 <= i < total ==> reqs[i].deadline == deadlineOf(reqs[i].params)
      ensures forall r :: r in reqs && r !in reqs[..total] && r != reqs[0] ==> r.deadline == old(r.deadline)
      ensures forall r :: r in reqs ==> r.deadline == old(r.deadline) || r.deadline == deadlineOf(r.params)
    {
      LoadLanes(reqs, total);
      var n := if avx2 then AVX2_PARALLEL else SSE4_PARALLEL;
      ghost var slots := creqs[..n];
      assert forall k :: 0 <= k < total ==> slots[k] == reqs[k];
      assert forall r :: r in slots ==> r in reqs[..total] || r == reqs[0];
      Calculate(n);
      assert creqs[..n] == slots;
      forall k | 0 <= k < total ensures reqs[k].deadline == deadlineOf(reqs[k].params) {
        assert creqs[k] == slots[k];
      }
      Signal(reqs, total);
    }

    method LoadLanes(reqs: seq<Request>, total: nat)
      requires Valid() && |reqs| == AVX2_PARALLEL && total <= AVX2_PARALLEL
      modifies creqs
      ensures forall k :: 0 <= k < AVX2_PARALLEL ==> creqs[k] == if k < total then reqs[k] else reqs[0]
    {
      for i := 0 to total
        invariant forall k :: 0 <= k < i ==> creqs[k] == reqs[k]
      {
        creqs[i] := reqs[i];
      }
      for i := total to AVX2_PARALLEL
        invariant forall k :: 0 <= k < i ==> creqs[k] == if k < total then reqs[k] else reqs[0]
      {
        creqs[i] := reqs[0];
      }
    }

    method Signal(reqs: seq<Request>, total: nat)
      requires total <= |reqs|
      modifies `signalled
      ensures signalled == old(signalled) + reqs[..total]
    {
      for i := 0 to total
        invariant signalled == old(signalled) + reqs[..i]
      {
        signalled := signalled + [reqs[i]];
      }
    }
  }

  // ---------- collector, channel and workers together ----------

  /** The requests waiting, the batches in the channel, everything signalled and everything that has arrived. */
  datatype System<T(==)> = System(waiting: seq<T>, queue: seq<seq<T>>, signalled: multiset<T>, arrived: multiset<T>)

  /** A request arrives, the timer fires, or some worker takes and finishes some batch. */
  datatype Move<T> = Arrive(r: T) | TimeOut | Finish(k: nat)

  ghost function Moved<T>(s: System<T>, m: Move<T>, lanes: nat): System<T>
  {
    match m
    case Arrive(r) =>
      var w := s.waiting + [r];
      if |w| < lanes then s.(waiting := w, arrived := s.arrived + multiset{r})
      else s.(waiting := [], queue := s.queue + [w], arrived := s.arrived + multiset{r})
    case TimeOut => s.(waiting := [], queue := s.queue + [s.waiting])
    case Finish(k) =>
      if k < |s.queue| then
        s.(queue := s.queue[..k] + s.queue[k + 1..], signalled := s.signalled + multiset(s.queue[k]))
      else s
  }

  lemma NothingToFinish<T>(s: System<T>, k: nat, lanes: nat)
    requires k >= |s.queue|
    ensures Moved(s, Finish(k), lanes) == s
  {
  }

  ghost function Run<T>(s: System<T>, moves: seq<Move<T>>, lanes: nat): System<T>
  {
    if moves == [] then s else Moved(Run(s, moves[..|moves| - 1], lanes), moves[|moves| - 1], lanes)
  }

  ghost function Bag<T>(s: seq<T>): multiset<T>
  {
    multiset(s)
  }

  /** All requests of several sequences. */
  ghost function Queued<T>(queue: seq<seq<T>>): multiset<T>
  {
    if queue == [] then multiset{} else Bag(queue[0]) + Queued(queue[1..])
  }

  lemma {:induction false} QueuedSplit<T>(a: seq<seq<T>>, b: seq<seq<T>>)
    ensures Queued(a + b) == Queued(a) + Queued(b)
  {
    hide Bag;
    if a == [] {
      assert a + b == b;
    } else {
      QueuedSplit(a[1..], b);
      assert (a + b)[1..] == a[1..] + b;
    }
  }

  lemma QueuedOne<T>(w: seq<T>)
    ensures Queued([w]) == multiset(w)
  {
    assert [w][1..] == [];
  }

  lemma QueuedUpdate<T>(q: seq<seq<T>>, j: nat, t: seq<T>)
    requires j < |q|
    ensures Queued(q[j := q[j] + t]) == Queued(q) + Bag(t)
  {
    hide Queued;
    assert q == q[..j] + ([q[j]] + q[j + 1..]);
    assert q[j := q[j] + t] == q[..j] + ([q[j] + t] + q[j + 1..]);
    QueuedSplit(q[..j], [q[j]] + q[j + 1..]);
    QueuedSplit(q[..j], [q[j] + t] + q[j + 1..]);
    QueuedSplit([q[j]], q[j + 1..]);
    QueuedSplit([q[j] + t], q[j + 1..]);
    QueuedOne(q[j]);
    QueuedOne(q[j] + t);
  }

  /** Every request that has arrived is waiting, queued or signalled, as often as it arrived. */
  ghost predicate Accounted<T>(s: System<T>)
  {
    s.arrived == s.signalled + Queued(s.queue) + multiset(s.waiting)
  }

  /** No move loses or repeats a request. */
  lemma MoveKeeps<T>(s: System<T>, m: Move<T>, lanes: nat)
    requires Accounted(s)
    ensures Accounted(Moved(s, m, lanes))
  {
    hide Queued;
    match m
    case Arrive(r) =>
      assert multiset(s.waiting + [r]) == multiset(s.waiting) + multiset{r};
      QueuedSplit(s.queue, [s.waiting + [r]]);
      QueuedOne(s.waiting + [r]);
    case TimeOut =>
      QueuedSplit(s.queue, [s.waiting]);
      QueuedOne(s.waiting);
    case Finish(k) =>
      if k < |s.queue| {
        assert s.queue == s.queue[..k] + ([s.queue[k]] + s.queue[k + 1..]);
        QueuedSplit(s.queue[..k], [s.queue[k]] + s.queue[k + 1..]);
        QueuedSplit([s.queue[k]], s.queue[k + 1..]);
        QueuedSplit(s.queue[..k], s.queue[k + 1..]);
        QueuedOne(s.queue[k]);
      }
  }

  /** So in every run, once nothing waits and the channel is empty, all have been signalled as often as they arrived. */
  lemma {:induction false} RunAccounts<T>(moves: seq<Move<T>>, lanes: nat)
    ensures var s := Run(System([], [], multiset{}, multiset{}), moves, lanes);
            Accounted(s) && (s.waiting == [] && s.queue == [] ==> s.signalled == s.arrived)
  {
    hide Moved;
    if moves != [] {
      RunAccounts(moves[..|moves| - 1], lanes);
      MoveKeeps(Run(System([], [], multiset{}, multiset{}), moves[..|moves| - 1], lanes), moves[|moves| - 1], lanes);
    }
  }

  ghost function Contents(batches: seq<Batch<Request>>): (q: seq<seq<Request>>)
    ensures |q| == |batches|
  {
    seq(|batches|, i requires 0 <= i < |batches| => batches[i].Requests())
  }

  lemma ContentsGrow(before: seq<Batch<Request>>, after: seq<Batch<Request>>)
    requires |after| == |before| + 1 && after[..|before|] == before
    ensures Contents(after) == Contents(before) + [after[|before|].Requests()]
  {
  }

  lemma ContentsShrink(batches: seq<Batch<Request>>, k: nat)
    requires k < |batches|
    ensures Contents(batches[..k] + batches[k + 1..]) == Contents(batches)[..k] + Contents(batches)[k + 1..]
    ensures Contents(batches)[k] == batches[k].Requests()
  {
  }

  ghost function Signals(workers: seq<Worker>): (q: seq<seq<Request>>)
    reads workers
    ensures |q| == |workers|
  {
    seq(|workers|, i requires 0 <= i < |workers| reads workers => workers[i].signalled)
  }

  /** The request handler: one collector, one channel, any number of workers. */
  class Handler {
    const collector: RequestCollector
    const workers: seq<Worker>
    const deadlineOf: Params -> int

    ghost predicate Valid()
      reads this, collector, collector.reqs, workers
    {
      && collector.Valid()
      && (forall w :: w in workers ==>
            w.Valid() && w.deadlineOf == deadlineOf && w.avx2 == (collector.lanes == AVX2_PARALLEL)
            && w.creqs != collector.reqs)
      && (forall i, j :: 0 <= i < j < |workers| ==> workers[i] != workers[j])
    }

    /** Everyone who has been signalled finds the deadline of their own parameters. */
    ghost predicate Answered()
      reads workers, set w, r | w in workers && r in w.signalled :: r
    {
      forall w, r :: w in workers && r in w.signalled ==> r.deadline == deadlineOf(r.params)
    }

    ghost function Abs(): System<Request>
      requires collector.pending <= collector.reqs.Length
      reads this, collector, collector.reqs, workers
    {
      System(collector.Waiting(), Contents(collector.batches), Queued(Signals(workers)), multiset(collector.arrived))
    }

    constructor (lanes: nat, workers: seq<Worker>, deadlineOf: Params -> int, dummy: Request)
      requires lanes == SSE4_PARALLEL || lanes == AVX2_PARALLEL
      requires forall w :: w in workers ==>
                 w.Valid() && w.deadlineOf == deadlineOf && w.avx2 == (lanes == AVX2_PARALLEL) && w.signalled == []
      requires forall i, j :: 0 <= i < j < |workers| ==> workers[i] != workers[j]
      ensures Valid() && Answered() && collector.lanes == lanes && fresh(collector) && fresh(collector.reqs)
      ensures this.workers == workers && this.deadlineOf == deadlineOf
      ensures Abs() == System([], [], multiset{}, multiset{})
    {
      collector := new RequestCollector(lanes, dummy);
      this.workers, this.deadlineOf := workers, deadlineOf;
      new;
      NoneSignalled(workers);
    }

    /** A request comes in. */
    method OnArrival(r: Request)
      requires Valid() && Answered()
      modifies collector, collector.reqs
      ensures Valid() && Answered() && Abs() == Moved(old(Abs()), Arrive(r), collector.lanes)
      ensures collector.reqs[..] == old(collector.reqs[..])[old(collector.pending) := r]
      ensures forall b :: b in collector.batches ==> b in old(collector.batches) || b.reqs == collector.reqs[..]
    {
      hide RequestCollector.Valid, Queued, Answered, Contents, Signals, WellFormed, Sized, Dispatched;
      ghost var before := collector.batches;
      collector.OnArrival(r);
      if |collector.batches| > |before| {
        ContentsGrow(before, collector.batches);
      }
    }

    /** The timer fires. */
    method OnTimeout()
      requires Valid() && Answered()
      modifies collector
      ensures Valid() && Answered() && Abs() == Moved(old(Abs()), TimeOut, collector.lanes)
      ensures forall b :: b in collector.batches ==> b in old(collector.batches) || b.reqs == collector.reqs[..]
    {
      hide RequestCollector.Valid, Queued, Answered, Contents, Signals, WellFormed, Sized, Dispatched;
      ghost var before := collector.batches;
      collector.OnTimeout();
      ContentsGrow(before, collector.batches);
    }

    /** Some worker receives some batch, calculates and signals. */
    method FinishBatch(k: nat, j: nat)
      requires Valid() && Answered() && k < |collector.batches| && j < |workers|
      modifies collector, workers[j], workers[j].creqs, collector.batches[k].reqs
      ensures Valid() && Answered() && Abs() == Moved(old(Abs()), Finish(k), collector.lanes)
      ensures collector.reqs[..] == old(collector.reqs[..])
      ensures forall b :: b in collector.batches ==> b in old(collector.batches)
    {
      hide RequestCollector.Valid, Queued, Contents, WellFormed, Dispatched;
      var w := workers[j];
      ghost var before, signals := collector.batches, Signals(workers);
      var b := collector.Receive(k);
      w.ProcessReqs(b.reqs, b.pending);
      ContentsShrink(before, k);
      assert Signals(workers) == signals[j := signals[j] + b.Requests()];
      QueuedUpdate(signals, j, b.Requests());
    }

    /** Every request in the collector's slots or in the channel is one of these. */
    ghost predicate Within(pool: set<Request>)
      reads collector, collector.reqs
    {
      && (forall r :: r in collector.reqs[..] ==> r in pool)
      && (forall b, r :: b in collector.batches && r in b.reqs ==> r in pool)
    }

    /** One move, by the worker j where a batch is finished. */
    method Step(m: Move<Request>, j: nat, ghost pool: set<Request>)
      requires Valid() && Answered() && j < |workers| && Within(pool) && (m.Arrive? ==> m.r in pool)
      modifies collector, collector.reqs, workers, set w | w in workers :: w.creqs, pool
      ensures Valid() && Answered() && Within(pool)
      ensures Abs() == Moved(old(Abs()), m, collector.lanes)
    {
      hide RequestCollector.Valid, Queued, Moved, Answered, Contents, Signals, WellFormed, Sized, Dispatched;
      match m
      case Arrive(r) => OnArrival(r);
      case TimeOut => OnTimeout();
      case Finish(k) =>
        if k < |collector.batches| {
          FinishBatch(k, j);
        } else {
          NothingToFinish(Abs(), k, collector.lanes);
        }
    }

    /** Any sequence of arrivals, timeouts and finished batches; who[i] is the worker that takes the batch of move i. */
    method Handle(moves: seq<Move<Request>>, who: seq<nat>, ghost pool: set<Request>)
      requires Valid() && Answered() && Within(pool) && |who| == |moves|
      requires forall i :: 0 <= i < |who| ==> who[i] < |workers|
      requires forall m :: m in moves && m.Arrive? ==> m.r in pool
      modifies collector, collector.reqs, workers, set w | w in workers :: w.creqs, pool
      ensures Valid() && Answered() && Within(pool)
      ensures Abs() == Run(old(Abs()), moves, collector.lanes)
    {
      hide Queued, Moved, Answered, Within;
      for i := 0 to |moves|
        invariant Valid() && Answered() && Within(pool)
        invariant Abs() == Run(old(Abs()), moves[..i], collector.lanes)
      {
        assert moves[..i + 1][..i] == moves[..i];
        Step(moves[i], who[i], pool);
      }
      assert moves[..|moves|] == moves;
    }
  }

  lemma NoneSignalled(workers: seq<Worker>)
    requires forall w :: w in workers ==> w.signalled == []
    ensures Queued(Signals(workers)) == multiset{}
  {
    NoRequests(Signals(workers));
  }

  lemma {:induction false} NoRequests<T>(q: seq<seq<T>>)
    requires forall i :: 0 <= i < |q| ==> q[i] == []
    ensures Queued(q) == multiset{}
  {
    if q != [] {
      NoRequests(q[1..]);
    }
  }
}
