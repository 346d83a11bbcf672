/** Runs of the batch machine: no frame is lost or doubled. */
module BatchRuns {
  import opened Basics
  import opened Batches

  datatype Event =
    | Batch(control: Control, msgid: string)
    | Message(tag: string, m: Msg)
    | Await(target: string, now: int)
    | Send(target: string, row: string)

  ghost function Next(s: State, e: Event): State {
    match e
    case Batch(control, msgid) => Controlled(s, control, msgid)
    case Message(tag, m) => Received(s, tag, m)
    case Await(target, now) => Awaited(s, target, now)
    case Send(target, row) => s.(pending := Pushed(s.pending, target, row))
  }

  const START := State(map[], map[], [], None, map[], [])

  ghost function Run(events: seq<Event>): State {
    if events == [] then START else Next(Run(events[..|events| - 1]), events[|events| - 1])
  }

  ghost function SentBy(sent: seq<Msg>, e: Event): seq<Msg> {
    if e.Message? then sent + [e.m] else sent
  }

  /** The messages that came in. */
  ghost function Sent(events: seq<Event>): seq<Msg> {
    if events == [] then [] else SentBy(Sent(events[..|events| - 1]), events[|events| - 1])
  }

  /** Messages are numbered in the order they come in. */
  ghost predicate Numbered(events: seq<Event>) {
    events != [] ==>
      && Numbered(events[..|events| - 1])
      && (events[|events| - 1].Message? ==> events[|events| - 1].m.n == |Sent(events[..|events| - 1])|)
  }

  // ---------- where a frame is ----------

  datatype Place = InLine(ref: string) | InChat(ref: string) | Sunk(sink: nat) | Lost

  ghost function NumbersOf(entries: seq<Entry>): seq<nat> {
    if entries == [] then [] else NumbersOf(entries[..|entries| - 1]) + entries[|entries| - 1].from
  }

  ghost function SinkNumbers(k: Sink): seq<nat> {
    if k.Live? || k.Echo? then k.entry.from else NumbersOf(k.batch.frames)
  }

  /** `nums` lists the frames at place `p`, each once. */
  ghost predicate Lists(nums: seq<nat>, place: seq<Place>, p: Place) {
    && (forall i, j :: 0 <= i < j < |nums| ==> nums[i] != nums[j])
    && (forall n: nat :: n in nums <==> n < |place| && place[n] == p)
  }

  /** `nums` is in wire order. */
  ghost predicate InOrder(nums: seq<nat>) {
    forall i, j :: 0 <= i < j < |nums| ==> nums[i] < nums[j]
  }

  /** The list a place keeps, if it exists. */
  ghost function ListAt(s: State, p: Place): Option<seq<nat>> {
    match p
    case InLine(ref) => if ref in s.lines then Some(Numbers(s.lines[ref].frames)) else None
    case InChat(ref) => if ref in s.chats then Some(NumbersOf(s.chats[ref].frames)) else None
    case Sunk(i) => if i < |s.sinks| then Some(SinkNumbers(s.sinks[i])) else None
    case Lost => None
  }

  /** Every frame is at one place, and the list of that place, and no other list, has it, once. */
  ghost predicate Accounted(s: State, place: seq<Place>) {
    && (forall p :: ListAt(s, p).Some? ==> Lists(ListAt(s, p).value, place, p))
    && (forall n :: 0 <= n < |place| ==> place[n].Lost? || ListAt(s, place[n]).Some?)
  }

  ghost function Moved(place: seq<Place>, from: Place, to: Place): seq<Place> {
    seq(|place|, n requires 0 <= n < |place| => if place[n] == from then to else place[n])
  }

  lemma MovedLists(a: seq<nat>, b: seq<nat>, place: seq<Place>, from: Place, to: Place)
    requires Lists(a, place, from) && Lists(b, place, to) && from != to
    ensures Lists(b + a, Moved(place, from, to), to)
    ensures Lists([], Moved(place, from, to), from)
    ensures b == [] ==> Lists(a, Moved(place, from, to), to)
  {
    assert b == [] ==> b + a == a;
    assert forall i :: 0 <= i < |a| ==> a[i] in a;
    assert forall i :: 0 <= i < |b| ==> b[i] in b;
    forall n: nat | n < |place|
      ensures n in b + a <==> Moved(place, from, to)[n] == to
    {
      assert n in a <==> place[n] == from;
      assert n in b <==> place[n] == to;
    }
  }

  lemma OthersStay(c: seq<nat>, place: seq<Place>, from: Place, to: Place, q: Place)
    requires Lists(c, place, q) && q != from && q != to
    ensures Lists(c, Moved(place, from, to), q)
  {
    forall n: nat
      ensures n in c <==> n < |place| && Moved(place, from, to)[n] == q
    {
      assert n in c <==> n < |place| && place[n] == q;
    }
  }

  lemma ArriveLists(b: seq<nat>, place: seq<Place>, to: Place)
    requires Lists(b, place, to)
    ensures Lists(b + [|place|], place + [to], to)
    ensures InOrder(b) ==> InOrder(b + [|place|])
  {
    forall i | 0 <= i < |b|
      ensures b[i] < |place|
    {
      assert b[i] in b;
    }
    forall n: nat
      ensures n in b + [|place|] <==> n < |place + [to]| && (place + [to])[n] == to
    {
      assert n in b <==> n < |place| && place[n] == to;
    }
  }

  lemma ArriveElsewhere(c: seq<nat>, place: seq<Place>, to: Place, q: Place)
    requires Lists(c, place, q) && q != to
    ensures Lists(c, place + [to], q)
  {
    forall n: nat
      ensures n in c <==> n < |place + [to]| && (place + [to])[n] == q
    {
      assert n in c <==> n < |place| && place[n] == q;
    }
  }

  lemma NothingThere(s: State, place: seq<Place>, p: Place)
    requires Accounted(s, place) && ListAt(s, p) == None && p != Lost
    ensures Lists([], place, p)
  {
  }

  ghost function ListOr(s: State, p: Place): seq<nat> {
    if ListAt(s, p).Some? then ListAt(s, p).value else []
  }

  /** A step that moves the list of one place behind that of another. */
  lemma MoveKeeps(s: State, t: State, place: seq<Place>, from: Place, to: Place)
    requires Accounted(s, place) && ListAt(s, from).Some? && from != to
    requires forall q :: q != from && q != to ==> ListAt(t, q) == ListAt(s, q)
    requires ListAt(t, from).Some? ==> ListAt(t, from) == Some([])
    requires to == Lost || ListAt(t, to) == Some(ListOr(s, to) + ListAt(s, from).value)
    ensures Accounted(t, Moved(place, from, to))
  {
    hide ListAt;
    var after, a, b := Moved(place, from, to), ListAt(s, from).value, ListOr(s, to);
    if to != Lost {
      if ListAt(s, to).None? {
        NothingThere(s, place, to);
      }
      MovedLists(a, b, place, from, to);
    }
    forall p | ListAt(t, p).Some?
      ensures Lists(ListAt(t, p).value, after, p)
    {
      if p == from {
        Emptied(place, from, to);
      } else if p != to {
        OthersStay(ListAt(s, p).value, place, from, to, p);
      } else {
        LostKeepsNoList(t);
      }
    }
  }

  lemma LostKeepsNoList(s: State)
    ensures ListAt(s, Lost) == None
  {
  }

  lemma Emptied(place: seq<Place>, from: Place, to: Place)
    requires from != to
    ensures Lists([], Moved(place, from, to), from)
  {
  }

  /** A step that puts the next frame at the end of a place's list. */
  lemma ArriveKeeps(s: State, t: State, place: seq<Place>, to: Place)
    requires Accounted(s, place) && to != Lost
    requires forall q :: q != to ==> ListAt(t, q) == ListAt(s, q)
    requires ListAt(t, to) == Some(ListOr(s, to) + [|place|])
    ensures Accounted(t, place + [to])
  {
    hide ListAt;
    var after := place + [to];
    if ListAt(s, to).None? {
      NothingThere(s, place, to);
    }
    ArriveLists(ListOr(s, to), place, to);
    forall p | ListAt(t, p).Some?
      ensures Lists(ListAt(t, p).value, after, p)
    {
      if p != to {
        ArriveElsewhere(ListAt(s, p).value, place, to, p);
      }
    }
  }

  /** A step that changes no list. */
  lemma SameLists(s: State, t: State, place: seq<Place>)
    requires Accounted(s, place) && forall p :: ListAt(t, p) == ListAt(s, p)
    ensures Accounted(t, place)
  {
  }

  lemma NumbersOfSnoc(entries: seq<Entry>, e: Entry)
    ensures NumbersOf(entries + [e]) == NumbersOf(entries) + e.from
  {
    assert (entries + [e])[..|entries|] == entries;
  }

  lemma NumbersSnoc(msgs: seq<Msg>, m: Msg)
    ensures Numbers(msgs + [m]) == Numbers(msgs) + [m.n]
  {
  }

  // ---------- one step ----------

  /** The frames an event drops: those of an open batch whose reference is opened again, and
      those of a multiline batch closed after the history batch it was opened in. */
  ghost predicate Drops(s: State, e: Event) {
    e.Batch? &&
    match e.control
    case OpenLine(ref, _) => ref in s.lines && s.lines[ref].frames != []
    case OpenChat(ref, _) => ref in s.chats && NumbersOf(s.chats[ref].frames) != []
    case Close(ref) =>
      ref in s.lines && s.lines[ref].frames != [] && s.lines[ref].chatRef != "" && s.lines[ref].chatRef !in s.chats
    case Other => false
  }

  ghost function Destination(s: State, tag: string): Place {
    if tag != "" && tag in s.lines then InLine(tag)
    else if tag != "" && tag in s.chats then InChat(tag)
    else Sunk(|s.sinks|)
  }

  /** Where a BATCH line moves the frames of the batch it names. */
  ghost function MovedBy(s: State, c: Control): (Place, Place) {
    match c
    case OpenLine(ref, _) => (InLine(ref), Lost)
    case OpenChat(ref, _) => (InChat(ref), Lost)
    case Close(ref) =>
      if ref in s.lines then
        (InLine(ref),
         if s.lines[ref].chatRef == "" then Sunk(|s.sinks|)
         else if s.lines[ref].chatRef in s.chats then InChat(s.lines[ref].chatRef)
         else Lost)
      else (InChat(ref), Sunk(|s.sinks|))
    case Other => (Lost, Lost)
  }

  ghost function PlaceAfter(s: State, place: seq<Place>, e: Event): seq<Place> {
    match e
    case Message(tag, _) => place + [Destination(s, tag)]
    case Batch(control, _) => Moved(place, MovedBy(s, control).0, MovedBy(s, control).1)
    case Await(_, _) => place
    case Send(_, _) => place
  }

  lemma MessageKeeps(s: State, place: seq<Place>, tag: string, m: Msg)
    requires Accounted(s, place) && m.n == |place|
    ensures Accounted(Received(s, tag, m), place + [Destination(s, tag)])
  {
    hide Accounted, Lists, Numbers, NumbersOf, Echoed;
    var t, to := Received(s, tag, m), Destination(s, tag);
    if to.InLine? {
      NumbersSnoc(s.lines[tag].frames, m);
    } else if to.InChat? {
      NumbersOfSnoc(s.chats[tag].frames, Single(m));
    } else {
      assert [] + [m.n] == [m.n];
    }
    ArriveKeeps(s, t, place, to);
  }

  /** Moving the frames of a place with no frames changes nothing. */
  lemma NothingMoves(s: State, place: seq<Place>, from: Place, to: Place)
    requires Accounted(s, place) && from != Lost && ListOr(s, from) == []
    ensures Moved(place, from, to) == place
  {
    forall n | 0 <= n < |place|
      ensures place[n] != from
    {
      assert ListAt(s, from).Some? ==> n !in ListAt(s, from).value;
    }
  }

  lemma OpenKeeps(s: State, place: seq<Place>, c: Control, msgid: string)
    requires Accounted(s, place) && (c.OpenLine? || c.OpenChat?)
    ensures Accounted(Controlled(s, c, msgid), PlaceAfter(s, place, Batch(c, msgid)))
  {
    hide Accounted, Lists, Moved;
    var t, from := Controlled(s, c, msgid), MovedBy(s, c).0;
    assert Numbers([]) == [] && NumbersOf([]) == [];
    if ListAt(s, from).Some? {
      MoveKeeps(s, t, place, from, Lost);
    } else {
      NothingMoves(s, place, from, Lost);
      OpenedFresh(s, t, place, from);
    }
  }

  lemma OpenedFresh(s: State, t: State, place: seq<Place>, p: Place)
    requires Accounted(s, place) && ListAt(s, p) == None && p != Lost
    requires forall q :: q != p ==> ListAt(t, q) == ListAt(s, q)
    requires ListAt(t, p) == Some([])
    ensures Accounted(t, place)
  {
    NothingThere(s, place, p);
  }

  /** A batch without frames goes away. */
  lemma EmptyGone(s: State, t: State, place: seq<Place>, p: Place)
    requires Accounted(s, place) && ListAt(s, p) == Some([])
    requires forall q :: q != p ==> ListAt(t, q) == ListAt(s, q)
    requires ListAt(t, p) == None
    ensures Accounted(t, place)
  {
    forall n | 0 <= n < |place|
      ensures place[n] != p
    {
      assert n !in ListAt(s, p).value;
    }
  }

  lemma CloseLineKeeps(s: State, place: seq<Place>, ref: string, msgid: string)
    requires Accounted(s, place) && ref in s.lines
    ensures Accounted(Controlled(s, Close(ref), msgid), PlaceAfter(s, place, Batch(Close(ref), msgid)))
  {
    hide Accounted, Lists, Moved, Numbers, NumbersOf, Anchor, Extras, Echoed;
    var t, from, to := Controlled(s, Close(ref), msgid), InLine(ref), MovedBy(s, Close(ref)).1;
    var acc := s.lines[ref];
    if acc.frames == [] {
      assert Numbers(acc.frames) == [] by { NumbersEmpty(); }
      NothingMoves(s, place, from, to);
      EmptyGone(s, t, place, from);
    } else {
      assert [] + Numbers(acc.frames) == Numbers(acc.frames);
      if to.InChat? {
        NumbersOfSnoc(s.chats[to.ref].frames, Joined(acc));
      }
      MoveKeeps(s, t, place, from, to);
    }
  }

  lemma NumbersEmpty()
    ensures Numbers([]) == []
  {
  }

  lemma CloseChatKeeps(s: State, place: seq<Place>, ref: string, msgid: string)
    requires Accounted(s, place) && ref !in s.lines
    ensures Accounted(Controlled(s, Close(ref), msgid), PlaceAfter(s, place, Batch(Close(ref), msgid)))
  {
    hide Accounted, Lists, Moved, Numbers, NumbersOf, EqualFold, Popped;
    var t, from, to := Controlled(s, Close(ref), msgid), InChat(ref), Sunk(|s.sinks|);
    if ref in s.chats {
      var list := NumbersOf(s.chats[ref].frames);
      assert [] + list == list;
      MoveKeeps(s, t, place, from, to);
    } else {
      NothingMoves(s, place, from, to);
    }
  }

  lemma NoMove(place: seq<Place>, p: Place)
    ensures Moved(place, p, p) == place
  {
  }

  /** Every event leaves each frame at exactly one place, and moves it only as `PlaceAfter` says. */
  lemma StepKeeps(s: State, place: seq<Place>, e: Event)
    requires Accounted(s, place) && (e.Message? ==> e.m.n == |place|)
    ensures Accounted(Next(s, e), PlaceAfter(s, place, e))
  {
    hide Accounted, Received, Controlled, Moved, ListAt;
    match e
    case Message(tag, m) => MessageKeeps(s, place, tag, m);
    case Await(target, now) => SameTables(s, Awaited(s, target, now), place);
    case Send(target, row) => SameTables(s, s.(pending := Pushed(s.pending, target, row)), place);
    case Batch(c, msgid) =>
      if c.OpenLine? || c.OpenChat? {
        OpenKeeps(s, place, c, msgid);
      } else if c.Close? {
        if c.ref in s.lines {
          CloseLineKeeps(s, place, c.ref, msgid);
        } else {
          CloseChatKeeps(s, place, c.ref, msgid);
        }
      } else {
        OtherKeeps(s, place, msgid);
      }
  }

  lemma SameTables(s: State, t: State, place: seq<Place>)
    requires Accounted(s, place) && t.lines == s.lines && t.chats == s.chats && t.sinks == s.sinks
    ensures Accounted(t, place)
  {
    SameLists(s, t, place);
  }

  lemma OtherKeeps(s: State, place: seq<Place>, msgid: string)
    requires Accounted(s, place)
    ensures Accounted(Controlled(s, Other, msgid), PlaceAfter(s, place, Batch(Other, msgid)))
  {
    NoMove(place, Lost);
  }

  /** An event loses a frame exactly when it is one of those `Drops` names. */
  lemma LosesExactly(s: State, place: seq<Place>, e: Event)
    requires Accounted(s, place)
    ensures Drops(s, e) <==>
      exists n :: 0 <= n < |place| && place[n] != Lost && PlaceAfter(s, place, e)[n] == Lost
  {
    hide Numbers, NumbersOf;
    if e.Batch? && !e.control.Other? {
      var from, to := MovedBy(s, e.control).0, MovedBy(s, e.control).1;
      var list := ListOr(s, from);
      if e.control.OpenLine? || e.control.Close? {
        assert from.InLine? && from.ref in s.lines ==> |list| == |s.lines[from.ref].frames| by { NumbersLength(); }
      }
      if list == [] {
        NothingMoves(s, place, from, to);
      } else {
        assert list[0] in list;
        assert place[list[0]] == from;
      }
    }
  }

  lemma NumbersLength()
    ensures forall msgs {:trigger Numbers(msgs)} :: |Numbers(msgs)| == |msgs|
  {
  }

  /** Where each frame is after a run. */
  ghost function Places(events: seq<Event>): seq<Place> {
    if events == [] then []
    else
      var before := events[..|events| - 1];
      PlaceAfter(Run(before), Places(before), events[|events| - 1])
  }

  lemma {:induction false} RunAccounts(events: seq<Event>)
    requires Numbered(events)
    ensures |Places(events)| == |Sent(events)| && Accounted(Run(events), Places(events))
  {
    if events != [] {
      var before, e := events[..|events| - 1], events[|events| - 1];
      RunAccounts(before);
      AccountStep(Run(before), Places(before), e);
    }
  }

  lemma AccountStep(s: State, place: seq<Place>, e: Event)
    requires Accounted(s, place) && (e.Message? ==> e.m.n == |place|)
    ensures Accounted(Next(s, e), PlaceAfter(s, place, e))
    ensures |PlaceAfter(s, place, e)| == |place| + if e.Message? then 1 else 0
  {
    StepKeeps(s, place, e);
  }

  // ---------- frames that are lost ----------

  lemma RunSnoc(events: seq<Event>, e: Event)
    ensures Run(events + [e]) == Next(Run(events), e) && Sent(events + [e]) == SentBy(Sent(events), e)
    ensures Places(events + [e]) == PlaceAfter(Run(events), Places(events), e)
    ensures Numbered(events + [e]) <==> Numbered(events) && (e.Message? ==> e.m.n == |Sent(events)|)
  {
    assert (events + [e])[..|events|] == events;
  }

  lemma NothingRun()
    ensures Run([]) == START && Sent([]) == [] && Places([]) == [] && Numbered([])
  {
  }

  const FIRST := Msg(0, "#c", "ann", "one", "", false, false)

  /** A multiline batch opened, one frame in it, and its reference opened again. */
  lemma ReopenedLoses()
    ensures var open := Batch(OpenLine("a", "#c"), "");
            var events := [] + [open] + [Message("a", FIRST)] + [open];
            Numbered(events) && Places(events) == [Lost]
  {
    hide Run, Places, Sent, Numbered;
    NothingRun();
    var open := Batch(OpenLine("a", "#c"), "");
    var one := [] + [open];
    var two := one + [Message("a", FIRST)];
    RunSnoc([], open);
    RunSnoc(one, Message("a", FIRST));
    RunSnoc(two, open);
    assert Places(two) == [InLine("a")];
  }

  const HISTORY := ChatBatch("#c", [])
  const IN_HISTORY := LineBatch("#c", "c", "", [FIRST])

  /** A history batch, in it a multiline batch, and in that a frame. */
  const NESTED_EVENTS: seq<Event> :=
    [] + [Batch(OpenChat("c", "#c"), "")] + [Batch(OpenLine("l", "#c"), "")] + [Message("l", FIRST)]

  lemma NestedEvents()
    ensures Run(NESTED_EVENTS) == State(map["l" := IN_HISTORY], map["c" := HISTORY], ["c"], None, map[], [])
    ensures Numbered(NESTED_EVENTS) && Sent(NESTED_EVENTS) == [FIRST] && Places(NESTED_EVENTS) == [InLine("l")]
  {
    hide Run, Places, Sent, Numbered;
    NothingRun();
    var one := [] + [Batch(OpenChat("c", "#c"), "")];
    var two := one + [Batch(OpenLine("l", "#c"), "")];
    RunSnoc([], Batch(OpenChat("c", "#c"), ""));
    assert Run(one) == State(map[], map["c" := HISTORY], ["c"], None, map[], []);
    RunSnoc(one, Batch(OpenLine("l", "#c"), ""));
    assert Run(two) == State(map["l" := IN_HISTORY.(frames := [])], map["c" := HISTORY], ["c"], None, map[], []);
    RunSnoc(two, Message("l", FIRST));
    assert [] + [FIRST] == [FIRST] && "l" in Run(two).lines;
    assert Places(one) == [] && Places(two) == [];
  }

  /** A history batch closed before the multiline batch opened in it. */
  lemma ClosedLateLoses()
    ensures var events := NESTED_EVENTS + [Batch(Close("c"), "")] + [Batch(Close("l"), "")];
            Numbered(events) && Places(events) == [Lost]
  {
    hide Run, Places, Sent, Numbered, Joined, NESTED_EVENTS;
    NestedEvents();
    var four := NESTED_EVENTS + [Batch(Close("c"), "")];
    RunSnoc(NESTED_EVENTS, Batch(Close("c"), ""));
    RunSnoc(four, Batch(Close("l"), ""));
    assert "c" !in Run(four).chats && Run(four).lines == map["l" := IN_HISTORY];
    assert Places(four) == [InLine("l")];
  }
}
