/** Runs of the batch machine: which sink what leaves the connection goes to, and to whom. */
module BatchSinks {
  import opened Basics
  import opened Batches
  import opened BatchRuns
  import opened BatchContent

  // ---------- relayed or bound as an echo ----------

  /** What leaves as a message of its own is bound as an echo exactly if the first message behind
      it is the network's echo of an own one, and relayed otherwise. */
  ghost predicate Sorted(k: Sink, sent: seq<Msg>) {
    k.Live? || k.Echo? ==>
      && k.entry.from != [] && k.entry.from[0] < |sent|
      && (k.Echo? <==> sent[k.entry.from[0]].echo)
  }

  ghost predicate AllSorted(sinks: seq<Sink>, sent: seq<Msg>) {
    forall k :: k in sinks ==> Sorted(k, sent)
  }

  lemma SortedLater(sinks: seq<Sink>, sent: seq<Msg>, m: Msg)
    requires AllSorted(sinks, sent)
    ensures AllSorted(sinks, sent + [m])
  {
    forall k | k in sinks
      ensures Sorted(k, sent + [m])
    {
      assert Sorted(k, sent);
    }
  }

  lemma SortedSnoc(sinks: seq<Sink>, sent: seq<Msg>, k: Sink)
    requires AllSorted(sinks, sent) && Sorted(k, sent)
    ensures AllSorted(sinks + [k], sent)
  {
  }

  lemma ReceivedSorted(s: State, sent: seq<Msg>, tag: string, m: Msg)
    requires AllSorted(s.sinks, sent) && m.n == |sent|
    ensures AllSorted(Received(s, tag, m).sinks, sent + [m])
  {
    hide AllSorted;
    SortedLater(s.sinks, sent, m);
    var t := Received(s, tag, m);
    if t.sinks != s.sinks {
      SortedSnoc(s.sinks, sent + [m], t.sinks[|s.sinks|]);
    }
  }

  lemma FlushedSorted(s: State, sent: seq<Msg>, acc: LineBatch)
    requires AllSorted(s.sinks, sent) && Gathers(acc.frames, sent)
    ensures AllSorted(FlushedLine(s, acc).sinks, sent)
  {
    hide AllSorted, FramesOfMsgs, Lines, Anchor, Extras;
    var t := FlushedLine(s, acc);
    if t.sinks != s.sinks {
      assert acc.frames[0] in acc.frames;
      SortedSnoc(s.sinks, sent, t.sinks[|s.sinks|]);
    }
  }

  lemma ControlledSorted(s: State, sent: seq<Msg>, c: Control, msgid: string)
    requires AllSorted(s.sinks, sent) && Faithful(s, sent)
    ensures AllSorted(Controlled(s, c, msgid).sinks, sent)
  {
    hide AllSorted, FlushedLine, Gathers, AllTell, EqualFold, Popped;
    if c.Close? && c.ref in s.lines {
      FlushedSorted(s.(lines := s.lines - {c.ref}), sent, s.lines[c.ref]);
    } else if c.Close? && c.ref in s.chats {
      SortedSnoc(s.sinks, sent, Page(s.chats[c.ref]));
      SortedSnoc(s.sinks, sent, History(s.chats[c.ref]));
    }
  }

  /** Over every run: an own message back from the network is never relayed, and no other message
      is ever taken for one. */
  lemma {:induction false} EchoesExactly(events: seq<Event>)
    requires Numbered(events)
    ensures AllSorted(Run(events).sinks, Sent(events))
  {
    hide AllSorted, Faithful, Received, Controlled;
    if events == [] {
      NothingSorted();
    } else {
      var before, e := events[..|events| - 1], events[|events| - 1];
      EchoesExactly(before);
      RunFaithful(before);
      match e
      case Message(tag, m) => ReceivedSorted(Run(before), Sent(before), tag, m);
      case Batch(c, msgid) => ControlledSorted(Run(before), Sent(before), c, msgid);
      case Await(target, now) =>
      case Send(target, row) =>
    }
  }

  lemma NothingSorted()
    ensures AllSorted(START.sinks, [])
  {
  }

  /** A message that is no echo and in no open batch is relayed as it is, and nothing else
      changes: no own send is taken by it. */
  lemma RelayedAsIs(s: State, tag: string, m: Msg)
    requires !m.echo && (tag == "" || (tag !in s.lines && tag !in s.chats))
    ensures var t := Received(s, tag, m);
            && t == s.(sinks := t.sinks) && |t.sinks| == |s.sinks| + 1 && t.sinks[..|s.sinks|] == s.sinks
            && t.sinks[|s.sinks|] == Live(Entry(m.target, m.author, m.text, m.msgid, [], [m.n]))
  {
  }

  ghost predicate TakesOldest(s: State, t: State) {
    var n := |s.sinks|;
    && |t.sinks| == n + 1 && t.sinks[n].Echo? && t.sinks[n].entry.anchor != ""
    && var q := PendingTo(s.pending, t.sinks[n].entry.target);
       q != [] && t.sinks[n].row == q[0] && PendingTo(t.pending, t.sinks[n].entry.target) == q[1..]
  }

  lemma EchoTakes(s: State, target: string, e: Entry)
    requires e.target == target && Echoed(s, target, e).pending != s.pending
    ensures TakesOldest(s, Echoed(s, target, e))
  {
    hide ToLower;
  }

  /** What takes an own send is an echo with an id that leaves the connection right then, and it
      takes the oldest one of its target. */
  lemma TakesExactly(s: State, e: Event)
    requires !e.Send? && Next(s, e).pending != s.pending
    ensures TakesOldest(s, Next(s, e))
  {
    hide TakesOldest, Echoed, EqualFold, Popped, Anchor, Extras, FramesOfMsgs, Lines;
    if e.Message? {
      EchoTakes(s, e.m.target, Single(e.m));
    } else if e.Batch? {
      assert e.control.Close? && e.control.ref in s.lines;
      var rest, acc := s.(lines := s.lines - {e.control.ref}), s.lines[e.control.ref];
      EchoTakes(rest, acc.target, Joined(acc));
      SameTaken(rest, s, Next(s, e));
    }
  }

  lemma SameTaken(rest: State, s: State, t: State)
    requires TakesOldest(rest, t) && rest.sinks == s.sinks && rest.pending == s.pending
    ensures TakesOldest(s, t)
  {
  }

  // ---------- history or page ----------

  /** The history batch is the one a page fetch waits for. */
  ghost predicate Wanted(s: State, batch: ChatBatch) {
    s.waiting.Some? && batch.target != "" && EqualFold(s.waiting.value.target, batch.target)
  }

  /** A closed history batch goes to the page fetch exactly if one waits for its target, which then
      waits no more; else it goes to the history, and whoever waits waits on. */
  lemma PagesExactly(s: State, ref: string, msgid: string)
    requires ref !in s.lines && ref in s.chats
    ensures var t, batch := Controlled(s, Close(ref), msgid), s.chats[ref];
            && t.sinks == s.sinks + [if Wanted(s, batch) then Page(batch) else History(batch)]
            && t.waiting == (if Wanted(s, batch) then None else s.waiting)
  {
  }

  /** How many page fetches began, and how many pages were handed over. */
  ghost function Fetches(events: seq<Event>): nat {
    if events == [] then 0
    else Fetches(events[..|events| - 1]) + if events[|events| - 1].Await? then 1 else 0
  }

  ghost function Pages(sinks: seq<Sink>): nat {
    if sinks == [] then 0 else Pages(sinks[..|sinks| - 1]) + if sinks[|sinks| - 1].Page? then 1 else 0
  }

  ghost predicate AskedFor(events: seq<Event>, target: string) {
    exists i :: 0 <= i < |events| && events[i].Await? && EqualFold(events[i].target, target)
  }

  /** Over every run a page fetch gets one page at most, and each page is of a target asked for. */
  ghost predicate PagesFit(s: State, events: seq<Event>) {
    && Pages(s.sinks) + (if s.waiting.Some? then 1 else 0) <= Fetches(events)
    && (s.waiting.Some? ==> AskedFor(events, s.waiting.value.target))
    && (forall k :: k in s.sinks && k.Page? ==> k.batch.target != "" && AskedFor(events, k.batch.target))
  }

  lemma PagesSnoc(sinks: seq<Sink>, k: Sink)
    ensures Pages(sinks + [k]) == Pages(sinks) + if k.Page? then 1 else 0
  {
    assert (sinks + [k])[..|sinks|] == sinks;
  }

  lemma AskedLater(events: seq<Event>, e: Event)
    ensures forall t :: AskedFor(events, t) ==> AskedFor(events + [e], t)
    ensures e.Await? ==> AskedFor(events + [e], e.target)
  {
    hide ToLower;
    var more := events + [e];
    forall t | AskedFor(events, t)
      ensures AskedFor(more, t)
    {
      var i :| 0 <= i < |events| && events[i].Await? && EqualFold(events[i].target, t);
      assert more[i] == events[i];
    }
    assert more[|events|] == e;
  }

  ghost predicate PageStep(s: State, t: State) {
    || (t.sinks == s.sinks && t.waiting == s.waiting)
    || (exists k :: t.sinks == s.sinks + [k] && !k.Page? && t.waiting == s.waiting)
    || (exists k :: t.sinks == s.sinks + [k] && k.Page? && Wanted(s, k.batch) && t.waiting == None)
  }

  lemma NoPage(s: State, t: State)
    requires t.waiting == s.waiting
    requires t.sinks == s.sinks || (|t.sinks| == |s.sinks| + 1 &&
               t.sinks == s.sinks + [t.sinks[|s.sinks|]] && !t.sinks[|s.sinks|].Page?)
    ensures PageStep(s, t)
  {
  }

  /** An event hands over no page, unless it closes the batch waited for. */
  lemma StepPages(s: State, e: Event)
    requires !e.Await?
    ensures PageStep(s, Next(s, e))
  {
    hide PageStep, Joined, EqualFold, Popped, Echoed, Wanted;
    if e.Batch? && e.control.Close? && e.control.ref !in s.lines && e.control.ref in s.chats {
      PagesExactly(s, e.control.ref, e.msgid);
      PageNow(s, Next(s, e), s.chats[e.control.ref]);
    } else {
      NoPage(s, Next(s, e));
    }
  }

  lemma PageNow(s: State, t: State, batch: ChatBatch)
    requires t.sinks == s.sinks + [if Wanted(s, batch) then Page(batch) else History(batch)]
    requires t.waiting == (if Wanted(s, batch) then None else s.waiting)
    ensures PageStep(s, t)
  {
    hide Wanted;
  }

  /** One more sink, which is no page, or the page waited for. */
  lemma SinkFits(s: State, t: State, events: seq<Event>, more: seq<Event>, k: Sink)
    requires PagesFit(s, events) && Fetches(more) == Fetches(events)
    requires forall a :: AskedFor(events, a) ==> AskedFor(more, a)
    requires t.sinks == s.sinks + [k]
    requires if k.Page? then Wanted(s, k.batch) && t.waiting == None else t.waiting == s.waiting
    ensures PagesFit(t, more)
  {
    hide EqualFold, AskedFor, Fetches;
    PagesSnoc(s.sinks, k);
    if k.Page? {
      AskedAlike(more, s.waiting.value.target, k.batch.target);
    }
  }

  lemma NoSinkFits(s: State, t: State, events: seq<Event>, more: seq<Event>)
    requires PagesFit(s, events) && t.sinks == s.sinks
    requires forall a :: AskedFor(events, a) ==> AskedFor(more, a)
    requires if t.waiting == s.waiting then Fetches(more) >= Fetches(events)
             else t.waiting.Some? && AskedFor(more, t.waiting.value.target) && Fetches(more) == Fetches(events) + 1
    ensures PagesFit(t, more)
  {
    hide EqualFold, AskedFor, Fetches, Pages;
  }

  lemma FetchesSnoc(events: seq<Event>, e: Event)
    ensures Fetches(events + [e]) == Fetches(events) + if e.Await? then 1 else 0
  {
    assert (events + [e])[..|events|] == events;
  }

  lemma StepFits(s: State, events: seq<Event>, e: Event)
    requires PagesFit(s, events)
    ensures PagesFit(Next(s, e), events + [e])
  {
    hide Next, EqualFold, PagesFit, Fetches, Wanted, AskedFor;
    var t, more := Next(s, e), events + [e];
    FetchesSnoc(events, e);
    AskedLater(events, e);
    if e.Await? {
      AwaitWaits(s, e);
      NoSinkFits(s, t, events, more);
    } else {
      StepPages(s, e);
      if t.sinks == s.sinks {
        SameSinks(s, t);
        NoSinkFits(s, t, events, more);
      } else {
        SinkFits(s, t, events, more, t.sinks[|s.sinks|]);
      }
    }
  }

  lemma SameSinks(s: State, t: State)
    requires PageStep(s, t) && t.sinks == s.sinks
    ensures t.waiting == s.waiting
  {
    hide Wanted;
    assert |t.sinks| == |s.sinks|;
  }

  lemma AwaitWaits(s: State, e: Event)
    requires e.Await?
    ensures var t := Next(s, e);
            t.sinks == s.sinks && (t.waiting == s.waiting || t.waiting == Some(Wait(e.target, e.now)))
  {
  }

  lemma AskedAlike(events: seq<Event>, a: string, b: string)
    requires EqualFold(a, b) && AskedFor(events, a)
    ensures AskedFor(events, b)
  {
    hide ToLower;
  }

  lemma {:induction false} RunPages(events: seq<Event>)
    ensures PagesFit(Run(events), events)
  {
    hide PagesFit, Next;
    if events == [] {
      NoPages();
    } else {
      var before := events[..|events| - 1];
      RunPages(before);
      StepFits(Run(before), before, events[|events| - 1]);
      assert events == before + [events[|events| - 1]];
    }
  }

  lemma NoPages()
    ensures PagesFit(START, [])
  {
  }
}
