/** The animation-frame packet batcher of the dashboard as a state machine. A frame's time budget is the
    number of packets it gets through. */
module PacketBatcher {
  import opened Common

  const MAX_QUEUED: nat := 2000

  /** The module's variables, what `document.hidden` says, and the history of the run. */
  datatype State<P> = State(
    installed: bool, queue: seq<P>, scheduled: bool, hidden: bool,
    delivered: seq<P>,          // every call of the handler
    pushed: seq<P>,             // every call of push
    queuedPushes: seq<P>,       // the pushes that took the queue path
    queueDeliveries: seq<P>)    // the handler calls made from the queue

  datatype Event<P> = Init | Push(packet: P) | Frame(budget: nat) | Visibility(hidden: bool)

  function Start<P>(hidden: bool): State<P> {
    State(false, [], false, hidden, [], [], [], [])
  }

  function Deliver<P>(s: State<P>, n: nat): State<P>
    requires n <= |s.queue|
  {
    s.(queue := s.queue[n..], delivered := s.delivered + s.queue[..n],
       queueDeliveries := s.queueDeliveries + s.queue[..n])
  }

  function Enqueue<P>(s: State<P>, p: P): State<P> {
    s.(queue := s.queue + [p], pushed := s.pushed + [p], queuedPushes := s.queuedPushes + [p])
  }

  function Next<P>(s: State<P>, e: Event<P>): State<P> {
    match e
    case Init => s.(installed := true)
    case Visibility(h) => s.(hidden := h)
    case Push(p) =>
      if !s.installed then Enqueue(s, p).(scheduled := true)
      else if s.hidden then s.(delivered := s.delivered + [p], pushed := s.pushed + [p])
      else
        var t := Enqueue(s, p);
        (if |t.queue| > MAX_QUEUED then Deliver(t, |t.queue| - MAX_QUEUED) else t).(scheduled := true)
    case Frame(budget) =>
      if !s.installed then s.(scheduled := false)
      else
        var t := Deliver(s, if budget <= |s.queue| then budget else |s.queue|);
        t.(scheduled := t.queue != [])
  }

  class Batcher<P> {
    var installed: bool
    var queue: seq<P>
    var scheduled: bool
    var hidden: bool
    var delivered: seq<P>
    ghost var pushed: seq<P>
    ghost var queuedPushes: seq<P>
    ghost var queueDeliveries: seq<P>

    ghost function View(): State<P>
      reads this
    {
      State(installed, queue, scheduled, hidden, delivered, pushed, queuedPushes, queueDeliveries)
    }

    constructor (hidden: bool)
      ensures View() == Start(hidden)
    {
      installed, queue, scheduled := false, [], false;
      this.hidden, delivered := hidden, [];
      pushed, queuedPushes, queueDeliveries := [], [], [];
    }

    method InstallHandler()
      modifies this
      ensures View() == Next(old(View()), Init)
    {
      installed := true;
    }

    method SetHidden(h: bool)
      modifies this
      ensures View() == Next(old(View()), Visibility(h))
    {
      hidden := h;
    }

    method Schedule()
      modifies this`scheduled
      ensures scheduled
    {
      if scheduled {
        return;
      }
      scheduled := true;
    }

    /** Takes n packets from the front and hands each to the handler. */
    method Drain(n: nat)
      requires n <= |queue|
      modifies this`queue, this`delivered, this`queueDeliveries
      ensures View() == Deliver(old(View()), n)
    {
      var i := 0;
      while i < n
        invariant 0 <= i <= n
        invariant queue == old(queue)[i..] && delivered == old(delivered) + old(queue)[..i]
        invariant queueDeliveries == old(queueDeliveries) + old(queue)[..i]
      {
        delivered := delivered + [queue[0]];
        queueDeliveries := queueDeliveries + [queue[0]];
        queue := queue[1..];
        assert old(queue)[..i + 1] == old(queue)[..i] + [old(queue)[i]];
        i := i + 1;
      }
    }

    /** `push`; without a handler the packet is kept by the placeholder. */
    method PushPacket(p: P)
      modifies this
      ensures View() == Next(old(View()), Push(p))
    {
      pushed := pushed + [p];
      if !installed {
        queue := queue + [p];
        queuedPushes := queuedPushes + [p];
        Schedule();
        return;
      }
      if hidden {
        delivered := delivered + [p];
        return;
      }
      queue := queue + [p];
      queuedPushes := queuedPushes + [p];
      if |queue| > MAX_QUEUED {
        Drain(|queue| - MAX_QUEUED);
      }
      Schedule();
    }

    /** `flush`; the frame's budget allows `budget` packets. */
    method Flush(budget: nat)
      modifies this
      ensures View() == Next(old(View()), Frame(budget))
    {
      scheduled := false;
      if !installed {
        return;
      }
      Drain(if budget <= |queue| then budget else |queue|);
      if |queue| > 0 {
        Schedule();
      }
    }
  }

  // ---------------------------------------------------------------- every run

  function Run<P>(s: State<P>, es: seq<Event<P>>): State<P> {
    if es == [] then s else Next(Run(s, es[..|es| - 1]), es[|es| - 1])
  }

  /** What holds throughout once the handler is installed. */
  ghost predicate Invariant<P>(s: State<P>) {
    s.installed
    && Accounted(s)
    && |s.queue| <= MAX_QUEUED
    && (s.queue != [] ==> s.scheduled)
  }

  /** Nothing lost, nothing doubled, and the queue path in order. */
  ghost predicate Accounted<P>(s: State<P>) {
    multiset(s.delivered) + multiset(s.queue) == multiset(s.pushed)
    && s.queueDeliveries + s.queue == s.queuedPushes
  }

  lemma DeliverKeeps<P>(s: State<P>, n: nat)
    requires n <= |s.queue| && Accounted(s)
    ensures Accounted(Deliver(s, n))
  {
    assert s.queue == s.queue[..n] + s.queue[n..];
  }

  lemma EnqueueKeeps<P>(s: State<P>, p: P)
    requires Accounted(s)
    ensures Accounted(Enqueue(s, p))
  {
  }

  lemma PushKeepsAccounted<P>(s: State<P>, p: P)
    requires Accounted(s)
    ensures Accounted(Next(s, Push(p)))
  {
    hide Enqueue, Deliver;
    EnqueueKeeps(s, p);
    var t := Enqueue(s, p);
    if |t.queue| > MAX_QUEUED {
      DeliverKeeps(t, |t.queue| - MAX_QUEUED);
    }
  }

  lemma NextKeepsInvariant<P>(s: State<P>, e: Event<P>)
    requires Invariant(s)
    ensures Invariant(Next(s, e))
  {
    assert Accounted(s);
    match e {
      case Init =>
      case Visibility(_) =>
      case Push(p) =>
        PushKeepsAccounted(s, p);
        hide Accounted;
      case Frame(budget) =>
        DeliverKeeps(s, if budget <= |s.queue| then budget else |s.queue|);
    }
  }

  /** Over every run with the handler installed first: no packet is lost or delivered twice, packets that
      take the queue path come out in push order even across overflow, the queue stays within its bound,
      and a non-empty queue has a flush scheduled. */
  lemma {:induction false} RunKeepsInvariant<P>(hidden: bool, es: seq<Event<P>>)
    requires es != [] && es[0] == Init
    ensures Invariant(Run(Start(hidden), es))
  {
    hide Invariant, Next;
    if |es| == 1 {
      assert es[..0] == [];
      StartInvariant<P>(hidden);
    } else {
      RunKeepsInvariant(hidden, es[..|es| - 1]);
      NextKeepsInvariant(Run(Start(hidden), es[..|es| - 1]), es[|es| - 1]);
    }
  }

  lemma StartInvariant<P>(hidden: bool)
    ensures Invariant(Next(Start<P>(hidden), Init))
  {
  }

  /** A push loses nothing and doubles nothing: without a handler the packet waits; on a hidden tab it is handed over
      at once; otherwise it joins the queue, of which the oldest come out as far as needed to leave 2000. */
  lemma PushMoves<P>(s: State<P>, p: P)
    ensures var t := Next(s, Push(p));
            t.pushed == s.pushed + [p]
            && (!s.installed ==> t.delivered == s.delivered && t.queue == s.queue + [p])
            && (s.installed && s.hidden ==> t.delivered == s.delivered + [p] && t.queue == s.queue)
            && (s.installed && !s.hidden ==>
                  t.delivered + t.queue == s.delivered + s.queue + [p]
                  && |t.queue| == if |s.queue| < 2000 then |s.queue| + 1 else 2000)
  {
    ConcatAssoc(s.delivered, s.queue, [p]);
    var q := s.queue + [p];
    if s.installed && !s.hidden && |q| > MAX_QUEUED {
      var n := |q| - MAX_QUEUED;
      assert q[..n] + q[n..] == q;
      ConcatAssoc(s.delivered, q[..n], q[n..]);
    }
  }

  // ---------------------------------------------------------------- no more pushes

  /** What the frames of a run get through together. */
  function TotalBudget<P>(es: seq<Event<P>>): nat {
    if es == [] then 0
    else TotalBudget(es[..|es| - 1]) + if es[|es| - 1].Frame? then es[|es| - 1].budget else 0
  }

  /** The frames that have time for at least one packet. */
  function WorkingFrames<P>(es: seq<Event<P>>): nat {
    if es == [] then 0
    else WorkingFrames(es[..|es| - 1]) + if es[|es| - 1].Frame? && es[|es| - 1].budget > 0 then 1 else 0
  }

  lemma {:induction false} WorkAddsUp<P>(es: seq<Event<P>>)
    ensures WorkingFrames(es) <= TotalBudget(es)
  {
    if es != [] { WorkAddsUp(es[..|es| - 1]); }
  }

  function Least(a: nat, b: nat): nat { if a <= b then a else b }

  /** The handler has been given the first n packets of the queue since s. */
  ghost predicate HasDelivered<P>(s: State<P>, t: State<P>, n: nat) {
    n <= |s.queue| && t.installed && t.queue == s.queue[n..] && t.delivered == s.delivered + s.queue[..n]
  }

  lemma QuietStep<P>(s: State<P>, e: Event<P>)
    requires s.installed && !e.Push?
    ensures HasDelivered(s, Next(s, e), Least(if e.Frame? then e.budget else 0, |s.queue|))
  {
    assert s.delivered + s.queue[..0] == s.delivered;
  }

  lemma DeliverOn<P>(s: State<P>, t: State<P>, u: State<P>, n: nat, m: nat)
    requires HasDelivered(s, t, n) && HasDelivered(t, u, m)
    ensures HasDelivered(s, u, n + m)
  {
    ConcatAssoc(s.delivered, s.queue[..n], s.queue[n..][..m]);
    assert s.queue[..n] + s.queue[n..][..m] == s.queue[..n + m];
  }

  /** Once the handler is installed and nothing more is pushed, frames deliver the queue from its front, as far as
      their budgets reach together. */
  lemma {:induction false} FramesDeliver<P>(s: State<P>, es: seq<Event<P>>)
    requires s.installed && forall e :: e in es ==> !e.Push?
    ensures HasDelivered(s, Run(s, es), Least(TotalBudget(es), |s.queue|))
  {
    if es == [] {
      assert s.delivered + s.queue[..0] == s.delivered;
    } else {
      hide Next, HasDelivered;
      var front, e := es[..|es| - 1], es[|es| - 1];
      FramesDeliver(s, front);
      FrameDeliversOn(s, Run(s, front), TotalBudget(front), e);
    }
  }

  lemma FrameDeliversOn<P>(s: State<P>, t: State<P>, budget: nat, e: Event<P>)
    requires HasDelivered(s, t, Least(budget, |s.queue|)) && !e.Push?
    ensures HasDelivered(s, Next(t, e), Least(budget + if e.Frame? then e.budget else 0, |s.queue|))
  {
    hide Next, HasDelivered, Least;
    var n, more := Least(budget, |s.queue|), if e.Frame? then e.budget else 0;
    WhatIsLeft(s, t, n);
    QuietStep(t, e);
    DeliverOn(s, t, Next(t, e), n, Least(more, |t.queue|));
    LeastInTurn(budget, more, |s.queue|);
  }

  lemma WhatIsLeft<P>(s: State<P>, t: State<P>, n: nat)
    requires HasDelivered(s, t, n)
    ensures t.installed && |t.queue| == |s.queue| - n
  {
  }

  lemma LeastInTurn(a: nat, b: nat, n: nat)
    ensures Least(a, n) <= n && Least(a + b, n) == Least(a, n) + Least(b, n - Least(a, n))
  {
  }

  /** They empty the queue exactly when their budgets together reach that far, which as many frames with time for a
      packet as there are packets always do; then everything has come out in order. */
  lemma FramesEmptyIff<P>(s: State<P>, es: seq<Event<P>>)
    requires s.installed && forall e :: e in es ==> !e.Push?
    ensures Run(s, es).queue == [] <==> TotalBudget(es) >= |s.queue|
    ensures WorkingFrames(es) >= |s.queue| ==>
              Run(s, es).queue == [] && Run(s, es).delivered == s.delivered + s.queue
  {
    hide Run, TotalBudget, WorkingFrames;
    FramesDeliver(s, es);
    WorkAddsUp(es);
    assert s.queue[..|s.queue|] == s.queue;
  }

  // ---------------------------------------------------------------- full FIFO

  function Pushes<P>(es: seq<Event<P>>): seq<P> {
    if es == [] then []
    else Pushes(es[..|es| - 1]) + if es[|es| - 1].Push? then [es[|es| - 1].packet] else []
  }

  /** A packet arrives while the tab is hidden and others are still queued. */
  predicate Overtakes<P>(s: State<P>, e: Event<P>) {
    e.Push? && s.installed && s.hidden && s.queue != []
  }

  predicate EverOvertakes<P>(s: State<P>, es: seq<Event<P>>) {
    es != []
    && (EverOvertakes(s, es[..|es| - 1]) || Overtakes(Run(s, es[..|es| - 1]), es[|es| - 1]))
  }

  ghost predicate InOrder<P>(s: State<P>) { s.delivered + s.queue == s.pushed }

  /** Some packet was delivered in the place of another. */
  ghost predicate Broken<P>(s: State<P>) {
    |s.delivered| <= |s.pushed| && exists i :: 0 <= i < |s.delivered| && s.delivered[i] != s.pushed[i]
  }

  ghost predicate Distinct<P>(ps: seq<P>) { forall i, j :: 0 <= i < j < |ps| ==> ps[i] != ps[j] }

  lemma {:induction false} RunPushes<P>(s: State<P>, es: seq<Event<P>>)
    ensures Run(s, es).pushed == s.pushed + Pushes(es)
  {
    if es != [] {
      RunPushes(s, es[..|es| - 1]);
    }
  }

  lemma DeliverInOrder<P>(s: State<P>, n: nat)
    requires n <= |s.queue| && InOrder(s)
    ensures InOrder(Deliver(s, n))
  {
    ConcatAssoc(s.delivered, s.queue[..n], s.queue[n..]);
    assert s.queue == s.queue[..n] + s.queue[n..];
  }

  lemma NextInOrder<P>(s: State<P>, e: Event<P>)
    requires InOrder(s) && !Overtakes(s, e)
    ensures InOrder(Next(s, e))
  {
    match e {
      case Init =>
      case Visibility(_) =>
      case Push(p) =>
        ConcatAssoc(s.delivered, s.queue, [p]);
        if s.installed && s.hidden {
          assert s.delivered + [] == s.delivered && (s.delivered + [p]) + [] == s.delivered + [p];
        } else if s.installed && |s.queue| + 1 > MAX_QUEUED {
          DeliverInOrder(Enqueue(s, p), |s.queue| + 1 - MAX_QUEUED);
        }
      case Frame(budget) =>
        if s.installed { DeliverInOrder(s, if budget <= |s.queue| then budget else |s.queue|); }
    }
  }

  lemma OvertakingBreaks<P>(s: State<P>, e: Event<P>)
    requires InOrder(s) && Overtakes(s, e) && Distinct(s.pushed + [e.packet])
    ensures Broken(Next(s, e))
  {
    var t, n := Next(s, e), |s.delivered|;
    assert s.pushed[n] == s.queue[0];
    assert (s.pushed + [e.packet])[|s.pushed|] == e.packet && (s.pushed + [e.packet])[n] == s.pushed[n];
    assert t.delivered[n] == e.packet && t.pushed[n] == s.queue[0];
  }

  lemma BrokenStays<P>(s: State<P>, e: Event<P>)
    requires Broken(s) && |s.delivered| + |s.queue| == |s.pushed|
    ensures Broken(Next(s, e)) && |Next(s, e).delivered| + |Next(s, e).queue| == |Next(s, e).pushed|
  {
    var i :| 0 <= i < |s.delivered| && s.delivered[i] != s.pushed[i];
    var t := Next(s, e);
    assert t.delivered[i] == s.delivered[i] && t.pushed[i] == s.pushed[i];
  }

  lemma {:induction false} OrderedUnlessOvertaken<P>(hidden: bool, es: seq<Event<P>>)
    requires Distinct(Pushes(es))
    ensures var s := Run(Start(hidden), es);
            |s.delivered| + |s.queue| == |s.pushed|
            && if EverOvertakes(Start(hidden), es) then Broken(s) else InOrder(s)
  {
    hide Next, Broken, Overtakes, InOrder;
    if es == [] {
      StartInOrder<P>(hidden);
    } else {
      var front, e := es[..|es| - 1], es[|es| - 1];
      assert Distinct(Pushes(front)) by {
        assert forall i :: 0 <= i < |Pushes(front)| ==> Pushes(front)[i] == Pushes(es)[i];
      }
      OrderedUnlessOvertaken(hidden, front);
      var s := Run(Start(hidden), front);
      RunPushes(Start(hidden), front);
      if EverOvertakes(Start(hidden), front) {
        BrokenStays(s, e);
      } else if Overtakes(s, e) {
        OvertakingIsPush(s, e);
        assert s.pushed + [e.packet] == Pushes(es);
        OvertakingBreaks(s, e);
        LengthsKept(s, e);
      } else {
        NextInOrder(s, e);
        LengthsKept(s, e);
      }
    }
  }

  lemma OvertakingIsPush<P>(s: State<P>, e: Event<P>)
    requires Overtakes(s, e)
    ensures e.Push?
  {
  }

  lemma StartInOrder<P>(hidden: bool)
    ensures InOrder(Start<P>(hidden))
  {
  }

  lemma LengthsKept<P>(s: State<P>, e: Event<P>)
    requires |s.delivered| + |s.queue| == |s.pushed|
    ensures |Next(s, e).delivered| + |Next(s, e).queue| == |Next(s, e).pushed|
  {
  }

  /** Everything pushed has come out, or is still queued, in push order exactly when no packet arrived on
      a hidden tab while others were queued. */
  lemma FifoIff<P>(hidden: bool, es: seq<Event<P>>)
    requires Distinct(Pushes(es))
    ensures InOrder(Run(Start(hidden), es)) <==> !EverOvertakes(Start(hidden), es)
  {
    OrderedUnlessOvertaken(hidden, es);
    var s := Run(Start(hidden), es);
    if Broken(s) {
      var i :| 0 <= i < |s.delivered| && s.delivered[i] != s.pushed[i];
      assert (s.delivered + s.queue)[i] == s.delivered[i];
    }
  }

  // ---------------------------------------------------------------- why the handler comes first

  /** A frame fires while packets wait for a handler. */
  predicate Premature<P>(s: State<P>, e: Event<P>) { e.Frame? && !s.installed && s.queue != [] }

  predicate EverPremature<P>(s: State<P>, es: seq<Event<P>>) {
    es != []
    && (EverPremature(s, es[..|es| - 1]) || Premature(Run(s, es[..|es| - 1]), es[|es| - 1]))
  }

  ghost predicate Awake<P>(s: State<P>) { s.queue != [] ==> s.scheduled }

  /** In every run, from any point on, a waiting queue always has a flush scheduled exactly when no frame
      fires before the handler is installed while packets wait. */
  lemma {:induction false} AlwaysScheduledIff<P>(s: State<P>, es: seq<Event<P>>)
    requires Awake(s)
    ensures (forall n :: 0 <= n <= |es| ==> Awake(Run(s, es[..n]))) <==> !EverPremature(s, es)
  {
    hide Next, Awake, Premature;
    if es == [] {
      assert es[..0] == es;
    } else {
      var front, e := es[..|es| - 1], es[|es| - 1];
      AlwaysScheduledIff(s, front);
      assert forall n :: 0 <= n <= |front| ==> es[..n] == front[..n];
      assert es[..|es|] == es && front[..|front|] == front;
      if Awake(Run(s, front)) {
        AwakeUnlessPremature(Run(s, front), e);
      }
    }
  }

  lemma AwakeUnlessPremature<P>(s: State<P>, e: Event<P>)
    requires Awake(s)
    ensures Awake(Next(s, e)) <==> !Premature(s, e)
  {
  }

  lemma RunSnoc<P>(s: State<P>, es: seq<Event<P>>, e: Event<P>)
    ensures Run(s, es + [e]) == Next(Run(s, es), e)
  {
    assert (es + [e])[..|es|] == es;
  }

  /** A packet that arrives on a hidden tab overtakes the one that waits. */
  lemma HiddenTabOvertakes<P>(p: P, q: P)
    ensures var s := Run(Start(false), [Init, Push(p), Visibility(true), Push(q)]);
            s.pushed == [p, q] && s.delivered == [q] && s.queue == [p]
  {
    hide Run;
    var s0 := Start<P>(false);
    var s1 := Next(s0, Init);
    var s2 := Next(s1, Push(p));
    var s3 := Next(s2, Visibility(true));
    var s4 := Next(s3, Push(q));
    assert s2.queue == [p] && s2.pushed == [p] && s2.delivered == [];
    assert s4.queue == [p] && s4.pushed == [p, q] && s4.delivered == [q];
    hide Next;
    RunFour(s0, Init, Push(p), Visibility(true), Push(q));
  }

  lemma RunFour<P>(s: State<P>, a: Event<P>, b: Event<P>, c: Event<P>, d: Event<P>)
    ensures Run(s, [a, b, c, d]) == Next(Next(Next(Next(s, a), b), c), d)
  {
    hide Run, Next;
    RunNothing(s);
    RunSnoc(s, [], a);
    RunSnoc(s, [a], b);
    RunSnoc(s, [a, b], c);
    RunSnoc(s, [a, b, c], d);
    assert [] + [a] == [a] && [a] + [b] == [a, b] && [a, b] + [c] == [a, b, c];
    assert [a, b, c] + [d] == [a, b, c, d];
  }

  lemma RunNothing<P>(s: State<P>)
    ensures Run(s, []) == s
  {
  }

  /** A frame before the handler is installed leaves the packet waiting with nothing scheduled. */
  lemma EarlyFrameStrands<P>(p: P, budget: nat)
    ensures var s := Run(Start(false), [Push(p), Frame(budget)]); s.queue == [p] && !s.scheduled
  {
    hide Run;
    var es: seq<Event<P>> := [];
    RunNothing(Start<P>(false));
    RunSnoc(Start(false), es, Push(p));
    RunSnoc(Start(false), [Push(p)], Frame(budget));
    assert es + [Push(p)] == [Push(p)] && [Push(p)] + [Frame(budget)] == [Push(p), Frame(budget)];
  }
}
