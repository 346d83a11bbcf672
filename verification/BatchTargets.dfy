/** Runs of the batch machine: whom each message that left is to, and by which id it goes. */
module BatchTargets {
  import opened Basics
  import opened Batches
  import opened BatchRuns

  /** The entry is a message that came in alone, as it came. */
  ghost predicate CameAlone(e: Entry, sent: seq<Msg>) {
    exists n: nat :: n < |sent| && IsAlone(e, sent[n], n)
  }

  ghost predicate IsAlone(e: Entry, m: Msg, n: nat) {
    e == Entry(m.target, m.author, m.text, m.msgid, [], [n])
  }

  /** The entry goes to the target its multiline batch was opened for, by the id of the opening
      line, if that has one. */
  ghost predicate OpenedFor(target: string, openMsgid: string, events: seq<Event>) {
    exists i :: 0 <= i < |events| && Opens(events[i], target, openMsgid)
  }

  ghost predicate Opens(e: Event, target: string, openMsgid: string) {
    e.Batch? && e.control.OpenLine? && e.control.target == target && e.msgid == openMsgid
  }

  ghost predicate WasOpened(e: Entry, events: seq<Event>) {
    exists openMsgid :: OpenedFor(e.target, openMsgid, events) && (openMsgid != "" ==> e.anchor == openMsgid)
  }

  /** A history batch was opened for that target. */
  ghost predicate ChatFor(target: string, events: seq<Event>) {
    exists i :: 0 <= i < |events| && OpensChat(events[i], target)
  }

  ghost predicate OpensChat(e: Event, target: string) {
    e.Batch? && e.control.OpenChat? && e.control.target == target
  }

  ghost predicate Addressed(e: Entry, events: seq<Event>) {
    CameAlone(e, Sent(events)) || WasOpened(e, events)
  }

  ghost predicate ChatAddressed(batch: ChatBatch, events: seq<Event>) {
    ChatFor(batch.target, events) && forall e :: e in batch.frames ==> Addressed(e, events)
  }

  ghost predicate SinkAddressed(k: Sink, events: seq<Event>) {
    if k.Live? || k.Echo? then Addressed(k.entry, events) else ChatAddressed(k.batch, events)
  }

  ghost predicate AllAddressed(s: State, events: seq<Event>) {
    && (forall ref :: ref in s.lines ==> OpenedFor(s.lines[ref].target, s.lines[ref].openMsgid, events))
    && (forall ref :: ref in s.chats ==> ChatAddressed(s.chats[ref], events))
    && (forall k :: k in s.sinks ==> SinkAddressed(k, events))
  }

  // ---------- later events ----------

  lemma EntryLater(e: Entry, events: seq<Event>, x: Event)
    requires Addressed(e, events)
    ensures Addressed(e, events + [x])
  {
    var more := events + [x];
    assert more[..|events|] == events;
    if CameAlone(e, Sent(events)) {
      var n: nat :| n < |Sent(events)| && IsAlone(e, Sent(events)[n], n);
      assert Sent(more)[n] == Sent(events)[n];
    } else {
      var openMsgid :| OpenedFor(e.target, openMsgid, events) && (openMsgid != "" ==> e.anchor == openMsgid);
      OpenLater(e.target, openMsgid, events, x);
    }
  }

  lemma OpenLater(target: string, openMsgid: string, events: seq<Event>, x: Event)
    requires OpenedFor(target, openMsgid, events)
    ensures OpenedFor(target, openMsgid, events + [x])
  {
    var i :| 0 <= i < |events| && Opens(events[i], target, openMsgid);
    assert (events + [x])[i] == events[i];
  }

  lemma ChatLater(batch: ChatBatch, events: seq<Event>, x: Event)
    requires ChatAddressed(batch, events)
    ensures ChatAddressed(batch, events + [x])
  {
    hide Addressed;
    var i :| 0 <= i < |events| && OpensChat(events[i], batch.target);
    assert (events + [x])[i] == events[i];
    forall e | e in batch.frames
      ensures Addressed(e, events + [x])
    {
      EntryLater(e, events, x);
    }
  }

  lemma AllLater(s: State, events: seq<Event>, x: Event)
    requires AllAddressed(s, events)
    ensures AllAddressed(s, events + [x])
  {
    hide Addressed, ChatAddressed, OpenedFor;
    forall ref | ref in s.lines
      ensures OpenedFor(s.lines[ref].target, s.lines[ref].openMsgid, events + [x])
    {
      OpenLater(s.lines[ref].target, s.lines[ref].openMsgid, events, x);
    }
    forall ref | ref in s.chats
      ensures ChatAddressed(s.chats[ref], events + [x])
    {
      ChatLater(s.chats[ref], events, x);
    }
    forall k | k in s.sinks
      ensures SinkAddressed(k, events + [x])
    {
      if k.Live? || k.Echo? {
        EntryLater(k.entry, events, x);
      } else {
        ChatLater(k.batch, events, x);
      }
    }
  }

  // ---------- one event ----------

  lemma AppendAddressed(s: State, events: seq<Event>, ref: string, e: Entry)
    requires AllAddressed(s, events) && Addressed(e, events)
    ensures AllAddressed(AppendEntry(s, ref, e), events)
  {
    hide Addressed, OpenedFor, ChatFor;
  }

  lemma SinkSnoc(s: State, t: State, events: seq<Event>, k: Sink)
    requires AllAddressed(s, events) && SinkAddressed(k, events)
    requires t.sinks == s.sinks + [k] && t.lines == s.lines && t.chats == s.chats
    ensures AllAddressed(t, events)
  {
    hide Addressed, OpenedFor, ChatAddressed, SinkAddressed;
  }

  lemma EchoAddressed(s: State, events: seq<Event>, target: string, e: Entry)
    requires AllAddressed(s, events) && Addressed(e, events)
    ensures AllAddressed(Echoed(s, target, e), events)
  {
    hide Addressed, AllAddressed;
    var t := Echoed(s, target, e);
    SinkSnoc(s, t, events, t.sinks[|s.sinks|]);
  }

  lemma SingleAddressed(before: seq<Event>, tag: string, m: Msg)
    requires m.n == |Sent(before)|
    ensures Addressed(Single(m), before + [Message(tag, m)])
  {
    var events := before + [Message(tag, m)];
    assert events[..|before|] == before;
    assert IsAlone(Single(m), Sent(events)[m.n], m.n);
  }

  lemma MessageAddressed(s: State, before: seq<Event>, tag: string, m: Msg)
    requires AllAddressed(s, before) && m.n == |Sent(before)|
    ensures AllAddressed(Received(s, tag, m), before + [Message(tag, m)])
  {
    hide Addressed, Echoed, Sent;
    var events := before + [Message(tag, m)];
    AllLater(s, before, Message(tag, m));
    SingleAddressed(before, tag, m);
    if tag != "" && tag in s.lines {
      SameAddressed(s, Received(s, tag, m), events);
    } else if tag != "" && tag in s.chats {
      AppendAddressed(s, events, tag, Single(m));
    } else if m.echo {
      EchoAddressed(s, events, m.target, Single(m));
    } else {
      SinkSnoc(s, Received(s, tag, m), events, Live(Single(m)));
    }
  }

  lemma SameAddressed(s: State, t: State, events: seq<Event>)
    requires AllAddressed(s, events) && t.chats == s.chats && t.sinks == s.sinks
    requires forall ref :: ref in t.lines ==>
               ref in s.lines && t.lines[ref].target == s.lines[ref].target &&
               t.lines[ref].openMsgid == s.lines[ref].openMsgid
    ensures AllAddressed(t, events)
  {
    hide OpenedFor, ChatAddressed, SinkAddressed;
  }

  lemma JoinedAddressed(acc: LineBatch, events: seq<Event>)
    requires acc.frames != [] && OpenedFor(acc.target, acc.openMsgid, events)
    ensures Addressed(Joined(acc), events)
  {
    hide OpenedFor, Lines, FramesOfMsgs, Numbers, Extras;
    OpenIsAnchor(acc.openMsgid, acc.frames);
    assert WasOpened(Joined(acc), events);
  }

  /** The id of the opening line is the one the batch goes by. */
  lemma {:induction false} OpenIsAnchor(openMsgid: string, frames: seq<Msg>)
    ensures openMsgid != "" ==> Msgids(openMsgid, frames) != [] && Msgids(openMsgid, frames)[0] == openMsgid
    ensures openMsgid != "" ==> Anchor(openMsgid, frames) == openMsgid
  {
    if frames != [] {
      OpenIsAnchor(openMsgid, frames[..|frames| - 1]);
    }
  }

  lemma FlushAddressed(s: State, events: seq<Event>, acc: LineBatch)
    requires AllAddressed(s, events) && OpenedFor(acc.target, acc.openMsgid, events)
    ensures AllAddressed(FlushedLine(s, acc), events)
  {
    hide Addressed, OpenedFor, Joined, AllAddressed, Echoed;
    if acc.frames != [] {
      JoinedAddressed(acc, events);
      var e := Joined(acc);
      if acc.chatRef != "" {
        AppendAddressed(s, events, acc.chatRef, e);
      } else if acc.frames[0].echo {
        EchoAddressed(s, events, acc.target, e);
      } else {
        SinkSnoc(s, s.(sinks := s.sinks + [Live(e)]), events, Live(e));
      }
    }
  }

  lemma ControlAddressed(s: State, before: seq<Event>, c: Control, msgid: string)
    requires AllAddressed(s, before)
    ensures AllAddressed(Controlled(s, c, msgid), before + [Batch(c, msgid)])
  {
    hide Addressed, FlushedLine, EqualFold, Popped, Sent;
    var events := before + [Batch(c, msgid)];
    assert events[|before|] == Batch(c, msgid);
    AllLater(s, before, Batch(c, msgid));
    match c
    case OpenLine(ref, target) =>
      assert Opens(events[|before|], target, msgid);
      assert OpenedFor(target, msgid, events);
    case OpenChat(ref, target) =>
      assert OpensChat(events[|before|], target);
      assert ChatAddressed(ChatBatch(target, []), events);
    case Close(ref) =>
      if ref in s.lines {
        var rest := s.(lines := s.lines - {ref});
        SameAddressed(s, rest, events);
        FlushAddressed(rest, events, s.lines[ref]);
      } else if ref in s.chats {
        ChatClosed(s, events, ref, msgid);
      }
    case Other =>
  }

  lemma ChatClosed(s: State, events: seq<Event>, ref: string, msgid: string)
    requires AllAddressed(s, events) && ref !in s.lines && ref in s.chats
    ensures AllAddressed(Controlled(s, Close(ref), msgid), events)
  {
    hide ChatAddressed, OpenedFor, EqualFold, Popped, Addressed;
    var t := Controlled(s, Close(ref), msgid);
    assert t.sinks == s.sinks + [t.sinks[|s.sinks|]];
  }

  /** Over every run: each message that left, alone or in a history batch, goes to the target it
      was sent to, or its multiline batch was opened for, by its own id or the opening line's; and
      each history batch to the target it was opened for. */
  lemma {:induction false} RunAddresses(events: seq<Event>)
    requires Numbered(events)
    ensures AllAddressed(Run(events), events)
  {
    hide AllAddressed, Controlled, Received;
    if events == [] {
      NothingLeft();
    } else {
      var before, e := events[..|events| - 1], events[|events| - 1];
      assert events == before + [e];
      RunAddresses(before);
      var s := Run(before);
      match e
      case Message(tag, m) => MessageAddressed(s, before, tag, m);
      case Batch(c, msgid) => ControlAddressed(s, before, c, msgid);
      case Await(target, now) => AllLater(s, before, e); SameAddressed(s, Awaited(s, target, now), events);
      case Send(target, row) =>
        AllLater(s, before, e);
        SameAddressed(s, s.(pending := Pushed(s.pending, target, row)), events);
    }
  }

  lemma NothingLeft()
    ensures AllAddressed(START, [])
  {
  }
}
