/** Runs of the batch machine: what each entry says is what its frames said, in wire order. */
module BatchContent {
  import opened Basics
  import opened Multiline
  import opened Batches
  import opened BatchRuns

  /** The messages numbered `from`. */
  ghost function Picked(sent: seq<Msg>, from: seq<nat>): seq<Msg>
    requires forall n :: n in from ==> n < |sent|
  {
    seq(|from|, i requires 0 <= i < |from| => assert from[i] in from; sent[from[i]])
  }

  /** The entry joins messages that came in, in the order they came, and keeps all their ids. */
  ghost predicate Tells(e: Entry, sent: seq<Msg>) {
    && e.from != [] && InOrder(e.from)
    && (forall n :: n in e.from ==> n < |sent|)
    && e.author == Picked(sent, e.from)[0].author
    && e.content == Lines(Join(FramesOfMsgs(Picked(sent, e.from))))
    && (forall m :: m in Picked(sent, e.from) && m.msgid != "" ==> m.msgid in [e.anchor] + e.extras)
  }

  /** The frames of an open batch are messages that came in, in the order they came. */
  ghost predicate Gathers(msgs: seq<Msg>, sent: seq<Msg>) {
    && InOrder(Numbers(msgs))
    && (forall m :: m in msgs ==> m.n < |sent| && m == sent[m.n])
  }

  ghost predicate AllTell(entries: seq<Entry>, sent: seq<Msg>) {
    forall e :: e in entries ==> Tells(e, sent)
  }

  ghost function Entries(k: Sink): seq<Entry> {
    if k.Live? || k.Echo? then [k.entry] else k.batch.frames
  }

  ghost predicate Faithful(s: State, sent: seq<Msg>) {
    && (forall ref :: ref in s.lines ==> Gathers(s.lines[ref].frames, sent))
    && (forall ref :: ref in s.chats ==> AllTell(s.chats[ref].frames, sent))
    && (forall k :: k in s.sinks ==> AllTell(Entries(k), sent))
  }

  lemma SingleTells(m: Msg, sent: seq<Msg>)
    requires m.n < |sent| && sent[m.n] == m
    ensures Tells(Single(m), sent)
  {
    var frames := FramesOfMsgs(Picked(sent, [m.n]));
    assert Picked(sent, [m.n]) == [m];
    assert frames == [Frame(m.text, m.concat)];
    assert Join(frames[..0]) == [];
    assert Join(frames) == [m.text];
  }

  lemma JoinedTells(acc: LineBatch, sent: seq<Msg>)
    requires acc.frames != [] && Gathers(acc.frames, sent)
    ensures Tells(Joined(acc), sent)
  {
    hide Join, Lines, FramesOfMsgs;
    var from := Numbers(acc.frames);
    assert forall i :: 0 <= i < |from| ==> acc.frames[i] in acc.frames;
    assert Picked(sent, from) == acc.frames;
    var ids := Msgids(acc.openMsgid, acc.frames);
    MsgidsDistinct(acc.openMsgid, acc.frames);
    assert ids != [] ==> ids == [ids[0]] + ids[1..];
  }

  lemma PickedStays(sent: seq<Msg>, m: Msg, from: seq<nat>)
    requires forall n :: n in from ==> n < |sent|
    ensures Picked(sent + [m], from) == Picked(sent, from)
  {
    assert forall i :: 0 <= i < |from| ==> from[i] in from;
  }

  lemma StillTells(entries: seq<Entry>, sent: seq<Msg>, m: Msg)
    requires AllTell(entries, sent)
    ensures AllTell(entries, sent + [m])
  {
    hide Picked, Join, Lines, FramesOfMsgs, InOrder;
    forall e | e in entries
      ensures Tells(e, sent + [m])
    {
      PickedStays(sent, m, e.from);
    }
  }

  lemma StillFaithful(s: State, sent: seq<Msg>, m: Msg)
    requires Faithful(s, sent)
    ensures Faithful(s, sent + [m])
  {
    hide AllTell, InOrder, Entries;
    forall ref | ref in s.chats
      ensures AllTell(s.chats[ref].frames, sent + [m])
    {
      StillTells(s.chats[ref].frames, sent, m);
    }
    forall k | k in s.sinks
      ensures AllTell(Entries(k), sent + [m])
    {
      StillTells(Entries(k), sent, m);
    }
  }

  lemma GathersSnoc(msgs: seq<Msg>, sent: seq<Msg>, m: Msg)
    requires Gathers(msgs, sent) && m.n == |sent|
    ensures Gathers(msgs + [m], sent + [m])
  {
    var nums := Numbers(msgs + [m]);
    forall i, j | 0 <= i < j < |nums|
      ensures nums[i] < nums[j]
    {
      assert msgs[i] in msgs;
      assert nums[i] == Numbers(msgs)[i];
      assert j < |msgs| ==> nums[j] == Numbers(msgs)[j];
    }
  }

  lemma AppendFaithful(s: State, sent: seq<Msg>, ref: string, e: Entry)
    requires Faithful(s, sent) && Tells(e, sent)
    ensures Faithful(AppendEntry(s, ref, e), sent)
  {
    hide Tells, Gathers;
  }

  lemma SinkFaithful(s: State, sent: seq<Msg>, k: Sink)
    requires Faithful(s, sent) && AllTell(Entries(k), sent)
    ensures Faithful(s.(sinks := s.sinks + [k]), sent)
  {
    hide AllTell, Gathers, Entries;
  }

  lemma EchoFaithful(s: State, sent: seq<Msg>, target: string, e: Entry)
    requires Faithful(s, sent) && Tells(e, sent)
    ensures Faithful(Echoed(s, target, e), sent)
  {
    hide Tells, Gathers, Faithful;
    var t := Echoed(s, target, e);
    SinkFaithful(s, sent, t.sinks[|s.sinks|]);
    SameFaithful(s.(sinks := t.sinks), sent, t);
  }

  lemma ReceiveFaithful(s: State, sent: seq<Msg>, tag: string, m: Msg)
    requires Faithful(s, sent) && m.n == |sent|
    ensures Faithful(Received(s, tag, m), sent + [m])
  {
    hide Tells, Gathers, Echoed;
    var after := sent + [m];
    StillFaithful(s, sent, m);
    SingleTells(m, after);
    if tag != "" && tag in s.lines {
      GathersSnoc(s.lines[tag].frames, sent, m);
    } else if tag != "" && tag in s.chats {
      AppendFaithful(s, after, tag, Single(m));
    } else {
      if m.echo {
        EchoFaithful(s, after, m.target, Single(m));
      } else {
        SinkFaithful(s, after, Live(Single(m)));
      }
    }
  }

  lemma ControlFaithful(s: State, sent: seq<Msg>, c: Control, msgid: string)
    requires Faithful(s, sent)
    ensures Faithful(Controlled(s, c, msgid), sent)
  {
    hide Tells, Joined, EqualFold, Popped, InOrder, Join, Lines, Echoed;
    if c.OpenLine? {
      assert Numbers([]) == [];
      EmptyInOrder();
    } else if c.Close? && c.ref in s.lines && s.lines[c.ref].frames != [] {
      var acc, rest := s.lines[c.ref], s.(lines := s.lines - {c.ref});
      JoinedTells(acc, sent);
      if acc.chatRef != "" {
        AppendFaithful(rest, sent, acc.chatRef, Joined(acc));
      } else {
        EchoFaithful(rest, sent, acc.target, Joined(acc));
        SinkFaithful(rest, sent, Live(Joined(acc)));
      }
    } else if c.Close? && c.ref !in s.lines && c.ref in s.chats {
      var acc := s.chats[c.ref];
      var rest := s.(chats := s.chats - {c.ref}, stack := Popped(s.stack, c.ref));
      SinkFaithful(rest, sent, History(acc));
      SinkFaithful(rest.(waiting := None), sent, Page(acc));
    }
  }

  lemma EmptyInOrder()
    ensures InOrder([])
  {
  }

  /** After any run, every entry that left, or waits in a history batch, says what its frames
      said, in the order they came in. */
  lemma {:induction false} RunFaithful(events: seq<Event>)
    requires Numbered(events)
    ensures Faithful(Run(events), Sent(events))
  {
    hide Faithful, Controlled, Received;
    if events == [] {
      StartFaithful();
    } else {
      var before, e := events[..|events| - 1], events[|events| - 1];
      RunFaithful(before);
      var s, sent := Run(before), Sent(before);
      match e
      case Message(tag, m) => ReceiveFaithful(s, sent, tag, m);
      case Batch(c, msgid) => ControlFaithful(s, sent, c, msgid);
      case Await(target, now) => SameFaithful(s, sent, Awaited(s, target, now));
      case Send(target, row) => SameFaithful(s, sent, s.(pending := Pushed(s.pending, target, row)));
    }
  }

  lemma StartFaithful()
    ensures Faithful(START, [])
  {
  }

  lemma SameFaithful(s: State, sent: seq<Msg>, t: State)
    requires Faithful(s, sent) && t.lines == s.lines && t.chats == s.chats && t.sinks == s.sinks
    ensures Faithful(t, sent)
  {
  }
}
