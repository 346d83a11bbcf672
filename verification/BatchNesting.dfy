/** Runs of the batch machine whose batches are well nested: the tables follow the open batches,
    and no frame is lost. */
module BatchNesting {
  import opened Basics
  import opened Batches
  import opened BatchRuns

  datatype Open = Open(ref: string, chat: bool)

  /** What the tables hold, the collected frames left out: the open multiline batches with the
      history batch around each, the open history batches, and these in order. */
  datatype Shape = Shape(lines: map<string, string>, chats: set<string>, stack: seq<string>)

  ghost function ShapeOf(s: State): Shape {
    Shape(map ref | ref in s.lines :: s.lines[ref].chatRef, s.chats.Keys, s.stack)
  }

  ghost function Opened(h: Shape, o: Open): Shape {
    if o.chat then h.(chats := h.chats + {o.ref}, stack := h.stack + [o.ref])
    else h.(lines := h.lines[o.ref := Peek(h.stack)])
  }

  /** What the tables should hold while the batches `open` are open, the innermost last. */
  ghost function ShapeFor(open: seq<Open>): Shape {
    if open == [] then Shape(map[], {}, []) else Opened(ShapeFor(open[..|open| - 1]), open[|open| - 1])
  }

  ghost predicate IsOpen(h: Shape, ref: string) {
    ref in h.lines || ref in h.chats
  }

  /** The batches open after an event; None if the event breaks the nesting. A new batch needs
      a reference that no open batch has, and only the innermost batch may close. */
  ghost function Nested(open: seq<Open>, e: Event): Option<seq<Open>> {
    if !e.Batch? || e.control.Other? then Some(open)
    else
      var ref, known := e.control.ref, IsOpen(ShapeFor(open), e.control.ref);
      if !e.control.Close? then
        if ref == "" || known then None else Some(open + [Open(ref, e.control.OpenChat?)])
      else if !known then Some(open)
      else if open != [] && open[|open| - 1].ref == ref then Some(open[..|open| - 1])
      else None
  }

  /** The batches open after a run, if it is well nested. */
  ghost function OpenAfter(events: seq<Event>): Option<seq<Open>> {
    if events == [] then Some([])
    else
      var before := OpenAfter(events[..|events| - 1]);
      if before.None? then None else Nested(before.value, events[|events| - 1])
  }

  /** No two open batches share a reference. */
  ghost predicate Apart(open: seq<Open>) {
    open != [] ==>
      var before, o := open[..|open| - 1], open[|open| - 1];
      Apart(before) && o.ref != "" && !IsOpen(ShapeFor(before), o.ref)
  }

  ghost predicate Mirrors(s: State, open: seq<Open>) {
    Apart(open) && ShapeOf(s) == ShapeFor(open)
  }

  lemma {:induction false} StackIsChats(open: seq<Open>)
    requires Apart(open)
    ensures forall ref :: ref in ShapeFor(open).stack <==> ref in ShapeFor(open).chats
    ensures "" !in ShapeFor(open).chats
  {
    if open != [] {
      StackIsChats(open[..|open| - 1]);
    }
  }

  lemma ShapeOpened(s: State, c: Control, msgid: string)
    requires c.OpenLine? || c.OpenChat?
    ensures ShapeOf(Controlled(s, c, msgid)) == Opened(ShapeOf(s), Open(c.ref, c.OpenChat?))
  {
    hide Peek;
    var t := Controlled(s, c, msgid);
    if c.OpenLine? {
      assert ShapeOf(t).lines == ShapeOf(s).lines[c.ref := Peek(s.stack)];
    } else {
      assert ShapeOf(t).chats == ShapeOf(s).chats + {c.ref};
    }
  }

  lemma OpenSnoc(open: seq<Open>, o: Open)
    ensures ShapeFor(open + [o]) == Opened(ShapeFor(open), o)
    ensures Apart(open + [o]) <==> Apart(open) && o.ref != "" && !IsOpen(ShapeFor(open), o.ref)
  {
    assert (open + [o])[..|open|] == open;
  }

  lemma OpenMirrors(s: State, open: seq<Open>, c: Control, msgid: string)
    requires Mirrors(s, open) && (c.OpenLine? || c.OpenChat?) && c.ref != "" && !IsOpen(ShapeFor(open), c.ref)
    ensures Mirrors(Controlled(s, c, msgid), open + [Open(c.ref, c.OpenChat?)])
  {
    hide ShapeFor, Apart, Opened, IsOpen, ShapeOf, Controlled;
    OpenSnoc(open, Open(c.ref, c.OpenChat?));
    ShapeOpened(s, c, msgid);
  }

  lemma FlushKeepsShape(s: State, acc: LineBatch)
    ensures ShapeOf(FlushedLine(s, acc)) == ShapeOf(s)
  {
    hide Joined, Echoed;
    assert FlushedLine(s, acc).chats.Keys == s.chats.Keys;
  }

  lemma ShapeLineClosed(s: State, ref: string, msgid: string)
    requires ref in s.lines
    ensures ShapeOf(Controlled(s, Close(ref), msgid)) == ShapeOf(s).(lines := ShapeOf(s).lines - {ref})
  {
    hide FlushedLine;
    var rest := s.(lines := s.lines - {ref});
    FlushKeepsShape(rest, s.lines[ref]);
    assert ShapeOf(rest).lines == ShapeOf(s).lines - {ref};
  }

  lemma ShapeChatClosed(s: State, ref: string, msgid: string)
    requires ref !in s.lines && ref in s.chats
    ensures ShapeOf(Controlled(s, Close(ref), msgid)) ==
            Shape(ShapeOf(s).lines, ShapeOf(s).chats - {ref}, Popped(s.stack, ref))
  {
    hide Popped, EqualFold;
    var rest := s.(chats := s.chats - {ref}, stack := Popped(s.stack, ref));
    assert rest.chats.Keys == s.chats.Keys - {ref};
    assert ClosedChat(rest, s.chats[ref]).chats == rest.chats;
  }

  lemma LineUnopened(before: Shape, ref: string)
    requires !IsOpen(before, ref)
    ensures var h := Opened(before, Open(ref, false)); ref in h.lines && h.(lines := h.lines - {ref}) == before
  {
    hide Peek;
    var m := before.lines[ref := Peek(before.stack)];
    assert m - {ref} == before.lines;
  }

  lemma ChatUnopened(before: Shape, ref: string)
    requires !IsOpen(before, ref)
    ensures var h := Opened(before, Open(ref, true));
            ref in h.chats && ref !in h.lines && Shape(h.lines, h.chats - {ref}, Popped(h.stack, ref)) == before
  {
    assert (before.chats + {ref}) - {ref} == before.chats;
    assert (before.stack + [ref])[..|before.stack|] == before.stack;
  }

  lemma InShape(s: State, ref: string)
    ensures ref in ShapeOf(s).lines <==> ref in s.lines
    ensures ref in ShapeOf(s).chats <==> ref in s.chats
    ensures ShapeOf(s).stack == s.stack
  {
  }

  lemma CloseMirrors(s: State, open: seq<Open>, msgid: string)
    requires Mirrors(s, open) && open != []
    ensures Mirrors(Controlled(s, Close(open[|open| - 1].ref), msgid), open[..|open| - 1])
  {
    hide ShapeFor, Apart, Opened, IsOpen, ShapeOf, Controlled, Popped;
    var before, o := open[..|open| - 1], open[|open| - 1];
    assert open == before + [o];
    OpenSnoc(before, o);
    InShape(s, o.ref);
    if o.chat {
      ChatUnopened(ShapeFor(before), o.ref);
      ShapeChatClosed(s, o.ref, msgid);
    } else {
      LineUnopened(ShapeFor(before), o.ref);
      ShapeLineClosed(s, o.ref, msgid);
    }
  }

  lemma ReceiveMirrors(s: State, open: seq<Open>, tag: string, m: Msg)
    requires Mirrors(s, open)
    ensures Mirrors(Received(s, tag, m), open)
  {
    hide Apart, ShapeFor, Echoed;
    assert ShapeOf(Received(s, tag, m)) == ShapeOf(s);
  }

  lemma StepMirrors(s: State, open: seq<Open>, e: Event)
    requires Mirrors(s, open) && Nested(open, e).Some?
    ensures Mirrors(Next(s, e), Nested(open, e).value)
  {
    hide Apart, ShapeFor, Received, EqualFold, Joined, Peek;
    match e
    case Message(tag, m) => ReceiveMirrors(s, open, tag, m);
    case Await(_, _) =>
    case Send(_, _) =>
    case Batch(c, msgid) =>
      if c.OpenLine? || c.OpenChat? {
        OpenMirrors(s, open, c, msgid);
      } else if c.Close? {
        assert IsOpen(ShapeOf(s), c.ref) <==> c.ref in s.lines || c.ref in s.chats;
        if IsOpen(ShapeOf(s), c.ref) {
          CloseMirrors(s, open, msgid);
        }
      }
  }

  /** A well-nested event loses nothing, and a multiline batch goes to the innermost history
      batch around it, or leaves if there is none. */
  lemma NestedDropsNothing(s: State, open: seq<Open>, e: Event)
    requires Mirrors(s, open) && Nested(open, e).Some?
    ensures !Drops(s, e)
    ensures e.Batch? && e.control.Close? && e.control.ref in s.lines ==>
      open != [] &&
      var around := ShapeFor(open[..|open| - 1]).stack;
      MovedBy(s, e.control) ==
        (InLine(e.control.ref), if around == [] then Sunk(|s.sinks|) else InChat(around[|around| - 1]))
  {
    hide Numbers, NumbersOf;
    if e.Batch? && !e.control.Other? {
      var ref := e.control.ref;
      assert IsOpen(ShapeOf(s), ref) <==> ref in s.lines || ref in s.chats;
      if e.control.Close? && ref in s.lines {
        var before := open[..|open| - 1];
        StackIsChats(before);
        assert ShapeOf(s).lines[ref] == s.lines[ref].chatRef;
        assert ShapeOf(s).chats == s.chats.Keys;
        assert before != [] || ShapeFor(before).stack == [];
      }
    }
  }

  /** Over any well-nested run the tables follow the open batches, and every frame that came in
      is in an open batch or in one of the sinks. */
  lemma {:induction false} NestedRun(events: seq<Event>)
    requires Numbered(events) && OpenAfter(events).Some?
    ensures Mirrors(Run(events), OpenAfter(events).value)
    ensures |Places(events)| == |Sent(events)| && Accounted(Run(events), Places(events))
    ensures Lost !in Places(events)
  {
    hide Mirrors, Nested, Accounted, Next, PlaceAfter, Drops;
    if events == [] {
      StartMirrors();
    } else {
      var before, e := events[..|events| - 1], events[|events| - 1];
      NestedRun(before);
      var s, place, open := Run(before), Places(before), OpenAfter(before).value;
      StepMirrors(s, open, e);
      NestedDropsNothing(s, open, e);
      LosesExactly(s, place, e);
      AccountStep(s, place, e);
      StaysPlaced(s, place, e);
    }
  }

  lemma StartMirrors()
    ensures Mirrors(START, []) && Accounted(START, [])
  {
  }

  lemma StaysPlaced(s: State, place: seq<Place>, e: Event)
    requires Lost !in place && |place| <= |PlaceAfter(s, place, e)|
    requires !exists n :: 0 <= n < |place| && place[n] != Lost && PlaceAfter(s, place, e)[n] == Lost
    ensures Lost !in PlaceAfter(s, place, e)
  {
    var after := PlaceAfter(s, place, e);
    forall n | 0 <= n < |after|
      ensures after[n] != Lost
    {
      assert n < |place| ==> place[n] != Lost;
    }
  }

  /** Once every batch of a well-nested run is closed, nothing is left in the tables and each
      frame is in exactly one sink, once. */
  lemma AllClosed(events: seq<Event>)
    requires Numbered(events) && OpenAfter(events) == Some([])
    ensures var s := Run(events); s.lines == map[] && s.chats == map[] && s.stack == []
    ensures |Places(events)| == |Sent(events)|
    ensures forall n :: 0 <= n < |Sent(events)| ==>
            Places(events)[n].Sunk? && Places(events)[n].sink < |Run(events).sinks|
    ensures forall i :: 0 <= i < |Run(events).sinks| ==>
            Lists(SinkNumbers(Run(events).sinks[i]), Places(events), Sunk(i))
  {
    hide Run, Places, Sent, OpenAfter, Lists, SinkNumbers;
    NestedRun(events);
    var s, place := Run(events), Places(events);
    assert ShapeOf(s).lines.Keys == s.lines.Keys;
    assert s.lines == map[] && s.chats == map[];
    forall n | 0 <= n < |place|
      ensures place[n].Sunk? && place[n].sink < |s.sinks|
    {
      assert place[n] in place;
      assert ListAt(s, place[n]).Some?;
    }
    forall i | 0 <= i < |s.sinks|
      ensures Lists(SinkNumbers(s.sinks[i]), place, Sunk(i))
    {
      assert ListAt(s, Sunk(i)).Some?;
    }
  }
}
