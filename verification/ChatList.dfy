/** The rendered message list of the chat view: bubbles with day separators, appended to at the bottom
    and prepended to when older messages are loaded. */
module ChatList {
  import opened Common

  type Day = int

  /** A message with the day its timestamp falls on, if it has a timestamp. */
  datatype Message = Message(id: int, day: Option<Day>)

  datatype Element = Separator(day: Day) | Bubble(message: Message)

  // ---------------------------------------------------------------- rendering from scratch

  /** The elements of one message after messages whose last known day is `last`. */
  function Rendered(last: Option<Day>, m: Message): seq<Element> {
    (if m.day.Some? && m.day != last then [Separator(m.day.value)] else []) + [Bubble(m)]
  }

  function RenderAfter(last: Option<Day>, ms: seq<Message>): seq<Element>
    decreases ms
  {
    if ms == [] then [] else Rendered(last, ms[0]) + RenderAfter(OrElse(ms[0].day, last), ms[1..])
  }

  /** The whole list, rendered at once. */
  function Render(ms: seq<Message>): seq<Element> { RenderAfter(None, ms) }

  function LastDay(last: Option<Day>, ms: seq<Message>): Option<Day>
    decreases ms
  {
    if ms == [] then last else LastDay(OrElse(ms[0].day, last), ms[1..])
  }

  /** One more message shown. */
  lemma RenderStep(shown: seq<Element>, last: Option<Day>, ms: seq<Message>, i: nat)
    requires i < |ms|
    ensures shown + RenderAfter(last, ms[i..])
         == (shown + Rendered(last, ms[i])) + RenderAfter(OrElse(ms[i].day, last), ms[i + 1..])
    ensures LastDay(last, ms[i..]) == LastDay(OrElse(ms[i].day, last), ms[i + 1..])
  {
    assert ms[i..][0] == ms[i] && ms[i..][1..] == ms[i + 1..];
    ConcatAssoc(shown, Rendered(last, ms[i]), RenderAfter(OrElse(ms[i].day, last), ms[i + 1..]));
  }

  function FirstDay(ms: seq<Message>): Option<Day> {
    if ms == [] then None else OrElse(ms[0].day, FirstDay(ms[1..]))
  }

  function WithoutFirstSeparator(es: seq<Element>): seq<Element> {
    if es == [] then []
    else if es[0].Separator? then es[1..]
    else [es[0]] + WithoutFirstSeparator(es[1..])
  }

  // ---------------------------------------------------------------- what a rendered list looks like

  function Bubbles(es: seq<Element>): seq<Message> {
    if es == [] then []
    else (if es[0].Bubble? then [es[0].message] else []) + Bubbles(es[1..])
  }

  /** Read from the top, after messages whose last known day is `last`: a separator stands right above a bubble of its
      day, and only where the day changes; a bubble without one has no day or that of the last dated bubble. */
  predicate Separated(last: Option<Day>, es: seq<Element>)
    decreases |es|
  {
    if es == [] then true
    else
      match es[0]
      case Separator(d) =>
        last != Some(d) && |es| > 1 && es[1].Bubble? && es[1].message.day == Some(d) && Separated(Some(d), es[2..])
      case Bubble(m) => (m.day.None? || m.day == last) && Separated(last, es[1..])
  }

  /** The first bubble, and whether it has a separator. */
  lemma StartsWithSeparator(last: Option<Day>, es: seq<Element>)
    requires es != [] && Separated(last, es)
    ensures Bubbles(es) != []
    ensures var m := Bubbles(es)[0];
            if m.day.Some? && m.day != last then |es| >= 2 && es[0] == Separator(m.day.value) && es[1] == Bubble(m)
            else es[0] == Bubble(m)
  {
    if es[0].Separator? { assert es[1..][0] == es[1]; }
  }

  lemma BelowSeparator(last: Option<Day>, es: seq<Element>, d: Day, m: Message, rest: seq<Element>)
    requires |es| >= 2 && es[0] == Separator(d) && es[1] == Bubble(m) && m.day == Some(d) && last != Some(d)
    ensures Separated(last, es) <==> Separated(Some(d), es[2..])
    ensures Bubbles(es) == [m] + Bubbles(es[2..])
    ensures es == [Separator(d), Bubble(m)] + rest <==> es[2..] == rest
  {
    assert es[1..][1..] == es[2..] && es == [Separator(d), Bubble(m)] + es[2..];
    assert Bubbles(es) == [] + Bubbles(es[1..]) == Bubbles(es[1..]);
  }

  lemma BelowBubble(last: Option<Day>, es: seq<Element>, m: Message, rest: seq<Element>)
    requires es != [] && es[0] == Bubble(m) && (m.day.None? || m.day == last)
    ensures Separated(last, es) <==> Separated(last, es[1..])
    ensures Bubbles(es) == [m] + Bubbles(es[1..])
    ensures es == [Bubble(m)] + rest <==> es[1..] == rest
  {
    assert es == [Bubble(m)] + es[1..];
  }

  lemma SameTail(m: Message, x: seq<Message>, ms: seq<Message>)
    requires ms != [] && ms[0] == m
    ensures [m] + x == ms <==> x == ms[1..]
  {
    assert ms == [ms[0]] + ms[1..];
    assert ([m] + x)[1..] == x;
  }

  /** The rendering of the messages is the only list with their bubbles, in order, that is separated so. */
  lemma {:induction false} RenderIff(last: Option<Day>, ms: seq<Message>, es: seq<Element>)
    ensures es == RenderAfter(last, ms) <==> Separated(last, es) && Bubbles(es) == ms
    decreases |es| + |ms|
  {
    if es == [] {
      if ms != [] { assert RenderAfter(last, ms) != []; }
    } else {
      if Separated(last, es) { StartsWithSeparator(last, es); }
      hide Separated, Bubbles;
      if ms != [] {
        var (m, tail) := (ms[0], ms[1..]);
        var rest := RenderAfter(OrElse(m.day, last), tail);
        if m.day.Some? && m.day != last {
          var d := m.day.value;
          assert RenderAfter(last, ms) == [Separator(d), Bubble(m)] + rest;
          if |es| >= 2 && es[0] == Separator(d) && es[1] == Bubble(m) {
            BelowSeparator(last, es, d, m, rest);
            RenderIff(Some(d), tail, es[2..]);
            SameTail(m, Bubbles(es[2..]), ms);
          }
        } else {
          assert RenderAfter(last, ms) == [Bubble(m)] + rest;
          if es[0] == Bubble(m) {
            BelowBubble(last, es, m, rest);
            RenderIff(last, tail, es[1..]);
            SameTail(m, Bubbles(es[1..]), ms);
          }
        }
      }
    }
  }

  // ---------------------------------------------------------------- the view

  datatype View = View(messages: seq<Message>, lastDayKey: Option<Day>, elements: seq<Element>)

  datatype Event =
    | Opened                              // setConversation
    | Loaded(messages: seq<Message>)      // the first page arrives
    | Appended(message: Message)          // addMessage
    | Older(messages: seq<Message>)       // an older page arrives

  /** The day of the message now at the top, where it has one. */
  function TopDay(ms: seq<Message>): Option<Day> { if ms == [] then None else ms[0].day }

  function Next(v: View, e: Event): View {
    match e
    case Opened => View([], None, [])
    case Loaded(ms) => View(ms, LastDay(v.lastDayKey, ms), RenderAfter(v.lastDayKey, ms))
    case Appended(m) =>
      View(v.messages + [m], OrElse(m.day, v.lastDayKey), v.elements + Rendered(v.lastDayKey, m))
    case Older(older) =>
      if older == [] then v
      else
        var edge := LastDay(None, older);
        View(older + v.messages, v.lastDayKey,
             Render(older) + if edge.Some? && edge == TopDay(v.messages)
                             then WithoutFirstSeparator(v.elements) else v.elements)
  }

  class ChatView {
    var messages: seq<Message>
    var lastDayKey: Option<Day>
    var elements: seq<Element>
    var allLoaded: bool

    ghost function State(): View
      reads this
    {
      View(messages, lastDayKey, elements)
    }

    constructor ()
      ensures State() == View([], None, [])
    {
      messages, lastDayKey, elements, allLoaded := [], None, [], false;
    }

    method SetConversation()
      modifies this
      ensures State() == Next(old(State()), Opened) && !allLoaded
    {
      messages, allLoaded := [], false;
      elements, lastDayKey := [], None;
    }

    /** `_insertDaySeparator` and the bubble behind it. */
    method AppendBubble(m: Message)
      modifies this`lastDayKey, this`elements
      ensures elements == old(elements) + Rendered(old(lastDayKey), m)
      ensures lastDayKey == OrElse(m.day, old(lastDayKey))
    {
      if m.day.Some? && m.day != lastDayKey {
        lastDayKey := m.day;
        elements := elements + [Separator(m.day.value)];
      }
      elements := elements + [Bubble(m)];
    }

    method AddMessage(m: Message)
      modifies this
      ensures State() == Next(old(State()), Appended(m)) && allLoaded == old(allLoaded)
    {
      messages := messages + [m];
      AppendBubble(m);
    }

    method LoadMessages(page: seq<Message>)
      modifies this
      ensures State() == Next(old(State()), Loaded(page))
      ensures allLoaded == (old(allLoaded) || |page| < 50)
    {
      messages := page;
      elements := [];
      var i := 0;
      assert page[0..] == page && page[|page|..] == [];
      while i < |page|
        invariant 0 <= i <= |page| && messages == page && allLoaded == old(allLoaded)
        invariant elements + RenderAfter(lastDayKey, page[i..]) == RenderAfter(old(lastDayKey), page)
        invariant LastDay(lastDayKey, page[i..]) == LastDay(old(lastDayKey), page)
      {
        hide RenderAfter, LastDay, Rendered;
        RenderStep(elements, lastDayKey, page, i);
        AppendBubble(page[i]);
        i := i + 1;
      }
      assert elements + [] == elements;
      if |page| < 50 {
        allLoaded := true;
      }
    }

    /** `older` is what the server answers, if it is asked: not for an empty list, nor past the first message. */
    method LoadOlderMessages(older: seq<Message>)
      modifies this
      ensures var asked := !old(allLoaded) && old(messages) != [];
              State() == (if asked then Next(old(State()), Older(older)) else old(State()))
              && allLoaded == (old(allLoaded) || (asked && older == []))
    {
      if allLoaded || |messages| == 0 {
        return;
      }
      if |older| == 0 {
        allLoaded := true;
        return;
      }
      var frag: seq<Element> := [];
      var prevKey: Option<Day> := None;
      var i := 0;
      assert older[0..] == older && older[|older|..] == [];
      while i < |older|
        invariant 0 <= i <= |older| && unchanged(this)
        invariant frag + RenderAfter(prevKey, older[i..]) == Render(older)
        invariant LastDay(prevKey, older[i..]) == LastDay(None, older)
      {
        var m := older[i];
        hide RenderAfter, LastDay;
        RenderStep(frag, prevKey, older, i);
        ghost var before, key := frag, prevKey;
        if m.day.Some? && m.day != prevKey {
          frag := frag + [Separator(m.day.value)];
          prevKey := m.day;
        }
        frag := frag + [Bubble(m)];
        assert frag == before + Rendered(key, m);
        i := i + 1;
      }
      assert frag + [] == frag;
      if prevKey.Some? && prevKey == TopDay(messages) {
        elements := WithoutFirstSeparator(elements);
      }
      elements := frag + elements;
      messages := older + messages;
    }
  }

  // ---------------------------------------------------------------- incremental equals from scratch

  /** The list on screen is the one a full render would give, and the remembered day is the last one. */
  ghost predicate Faithful(v: View) {
    v.elements == Render(v.messages) && v.lastDayKey == LastDay(None, v.messages)
  }

  lemma {:induction false} RenderConcat(last: Option<Day>, a: seq<Message>, b: seq<Message>)
    ensures RenderAfter(last, a + b) == RenderAfter(last, a) + RenderAfter(LastDay(last, a), b)
    ensures LastDay(last, a + b) == LastDay(LastDay(last, a), b)
    decreases a
  {
    if a == [] {
      assert a + b == b;
    } else {
      assert (a + b)[1..] == a[1..] + b;
      RenderConcat(OrElse(a[0].day, last), a[1..], b);
    }
  }

  lemma {:induction false} LastDayOr(last: Option<Day>, ms: seq<Message>)
    ensures LastDay(last, ms) == OrElse(LastDay(None, ms), last)
    ensures LastDay(None, ms).None? <==> FirstDay(ms).None?
    decreases ms
  {
    if ms != [] {
      LastDayOr(OrElse(ms[0].day, last), ms[1..]);
      LastDayOr(ms[0].day, ms[1..]);
    }
  }

  /** Starting after day `d` drops exactly the separator of a list that begins on that day. */
  lemma {:induction false} RenderAfterDay(d: Day, ms: seq<Message>)
    ensures RenderAfter(Some(d), ms)
         == if FirstDay(ms) == Some(d) then WithoutFirstSeparator(Render(ms)) else Render(ms)
    ensures FirstDay(ms).Some? ==> |WithoutFirstSeparator(Render(ms))| == |Render(ms)| - 1
  {
    if ms != [] {
      var rest := RenderAfter(OrElse(ms[0].day, None), ms[1..]);
      if ms[0].day.None? {
        RenderAfterDay(d, ms[1..]);
        assert Render(ms) == [Bubble(ms[0])] + Render(ms[1..]);
        assert Render(ms)[1..] == Render(ms[1..]);
      } else {
        assert Render(ms) == [Separator(ms[0].day.value)] + ([Bubble(ms[0])] + rest);
        assert Render(ms)[1..] == [Bubble(ms[0])] + rest;
      }
    }
  }

  /** The guard each event needs. A first page must not meet a remembered day it starts with, nor leave one
      behind; an older page needs a dated message at the top, or a list that starts on another day. */
  predicate Fits(v: View, e: Event) {
    match e
    case Opened => true
    case Appended(_) => true
    case Loaded(ms) => v.lastDayKey.None? || (FirstDay(ms).Some? && FirstDay(ms) != v.lastDayKey)
    case Older(older) =>
      LastDay(None, older).None? || TopDay(v.messages).Some?
      || (FirstDay(v.messages).Some? && FirstDay(v.messages) != LastDay(None, older))
  }

  /** A faithful list stays faithful exactly when the event fits. */
  lemma StaysFaithfulIff(v: View, e: Event)
    requires Faithful(v)
    ensures Faithful(Next(v, e)) <==> Fits(v, e)
  {
    match e {
      case Opened =>
      case Appended(m) =>
        RenderConcat(None, v.messages, [m]);
        assert [m][1..] == [];
        assert RenderAfter(v.lastDayKey, [m]) == Rendered(v.lastDayKey, m) + [];
      case Loaded(ms) =>
        LastDayOr(v.lastDayKey, ms);
        if v.lastDayKey.Some? {
          RenderAfterDay(v.lastDayKey.value, ms);
        }
      case Older(older) =>
        OlderIff(v, older);
    }
  }

  lemma OlderIff(v: View, older: seq<Message>)
    requires Faithful(v)
    ensures Faithful(Next(v, Older(older))) <==> Fits(v, Older(older))
  {
    hide WithoutFirstSeparator, RenderAfter;
    var edge := LastDay(None, older);
    if older != [] {
      RenderConcat(None, older, v.messages);
      LastDayOr(edge, v.messages);
      if edge.Some? {
        RenderAfterDay(edge.value, v.messages);
        SamePrefix(Render(older), RenderAfter(edge, v.messages), v.elements);
        SamePrefix(Render(older), RenderAfter(edge, v.messages), WithoutFirstSeparator(v.elements));
      }
    }
  }

  lemma SamePrefix(a: seq<Element>, b: seq<Element>, c: seq<Element>)
    ensures a + b == a + c <==> b == c
  {
    if a + b == a + c {
      assert b == (a + b)[|a|..] && c == (a + c)[|a|..];
    }
  }

  // ---------------------------------------------------------------- every run

  function Run(es: seq<Event>): View {
    if es == [] then View([], None, []) else Next(Run(es[..|es| - 1]), es[|es| - 1])
  }

  lemma {:induction false} FaithfulUpToIff(es: seq<Event>, n: nat)
    requires n <= |es|
    ensures (forall k :: 0 <= k <= n ==> Faithful(Run(es[..k])))
       <==> (forall i :: 0 <= i < n ==> Fits(Run(es[..i]), es[i]))
  {
    hide Faithful, Fits, Next, Run;
    if n == 0 {
      EmptyIsFaithful();
      assert es[..0] == [];
    } else {
      FaithfulUpToIff(es, n - 1);
      assert es[..n] == es[..n - 1] + [es[n - 1]];
      RunSnoc(es[..n - 1], es[n - 1]);
      if Faithful(Run(es[..n - 1])) { StaysFaithfulIff(Run(es[..n - 1]), es[n - 1]); }
    }
  }

  /** Over every run the list on screen is a full render at every point exactly when every event fits the list it
      meets. */
  lemma AlwaysFaithfulIff(es: seq<Event>)
    ensures (forall n :: 0 <= n <= |es| ==> Faithful(Run(es[..n])))
       <==> (forall i :: 0 <= i < |es| ==> Fits(Run(es[..i]), es[i]))
  {
    hide Faithful, Fits, Run;
    FaithfulUpToIff(es, |es|);
  }

  lemma EmptyIsFaithful()
    ensures Faithful(Run([]))
  {
  }

  predicate AllDated(ms: seq<Message>) { forall i :: 0 <= i < |ms| ==> ms[i].day.Some? }

  predicate Dated(e: Event) {
    match e
    case Opened => true
    case Loaded(ms) => AllDated(ms)
    case Appended(m) => m.day.Some?
    case Older(ms) => AllDated(ms)
  }

  /** Step i of an orderly run: every message has a timestamp, a first page arrives right after its
      conversation was opened, and older pages only reach a list that has messages. */
  predicate OrderlyAt(es: seq<Event>, i: nat)
    requires i < |es|
  {
    Dated(es[i])
    && (es[i].Loaded? ==> i > 0 && es[i - 1].Opened?)
    && (es[i].Older? ==> Run(es[..i]).messages != [])
  }

  ghost predicate Orderly(es: seq<Event>) { forall i :: 0 <= i < |es| ==> OrderlyAt(es, i) }

  /** In every orderly run the list on screen equals a full render of the messages. */
  lemma {:induction false} RunIsFaithful(es: seq<Event>)
    requires Orderly(es)
    ensures Faithful(Run(es)) && AllDated(Run(es).messages)
  {
    if es != [] {
      var n := |es| - 1;
      var front, e := es[..n], es[n];
      forall i | 0 <= i < n
        ensures OrderlyAt(front, i)
      {
        assert OrderlyAt(es, i) && front[..i] == es[..i];
      }
      RunIsFaithful(front);
      assert OrderlyAt(es, n);
      if e.Loaded? {
        assert front[|front| - 1] == es[n - 1];
      }
      StaysFaithfulIff(Run(front), e);
      DatedStays(Run(front), e);
    }
  }

  lemma RunSnoc(es: seq<Event>, e: Event)
    ensures Run(es + [e]) == Next(Run(es), e)
  {
    assert (es + [e])[..|es|] == es;
  }

  /** A message that arrives while the first page is under way costs the page its separator. */
  lemma EarlyMessageHidesTheDay(id: int, d: Day)
    ensures var m := Message(id, Some(d));
            var v := Run([Opened, Appended(m), Loaded([m])]);
            v.elements == [Bubble(m)] && Render(v.messages) == [Separator(d), Bubble(m)] && !Faithful(v)
  {
    hide Run;
    var m := Message(id, Some(d));
    assert Run([]) == View([], None, []) by { RunNothing(); }
    RunSnoc([], Opened);
    RunSnoc([Opened], Appended(m));
    RunSnoc([Opened, Appended(m)], Loaded([m]));
    assert [] + [Opened] == [Opened] && [Opened] + [Appended(m)] == [Opened, Appended(m)];
    assert [Opened, Appended(m)] + [Loaded([m])] == [Opened, Appended(m), Loaded([m])];
    assert [m][1..] == [];
    assert RenderAfter(Some(d), [m]) == [Bubble(m)] + RenderAfter(Some(d), []);
    assert Render([m]) == [Separator(d), Bubble(m)] + RenderAfter(Some(d), []);
  }

  lemma RunNothing()
    ensures Run([]) == View([], None, [])
  {
  }

  /** An older page of the same day before an undated message at the top shows the day twice. */
  lemma UndatedTopKeepsTwoSeparators(d: Day)
    ensures var (a, b, c) := (Message(0, Some(d)), Message(1, None), Message(2, Some(d)));
            var v := Next(View([b, c], Some(d), [Bubble(b), Separator(d), Bubble(c)]), Older([a]));
            v.elements == [Separator(d), Bubble(a), Bubble(b), Separator(d), Bubble(c)] && !Faithful(v)
  {
    var (a, b, c) := (Message(0, Some(d)), Message(1, None), Message(2, Some(d)));
    assert [a][1..] == [] && [a, b, c][1..] == [b, c] && [b, c][1..] == [c] && [c][1..] == [];
    assert [a] + [b, c] == [a, b, c];
    assert RenderAfter(Some(d), [c]) == [Bubble(c)];
    assert RenderAfter(Some(d), [b, c]) == [Bubble(b)] + [Bubble(c)];
    assert |Render([a, b, c])| == 4;
  }

  lemma DatedStays(v: View, e: Event)
    requires AllDated(v.messages) && Dated(e)
    ensures AllDated(Next(v, e).messages)
  {
  }
}
