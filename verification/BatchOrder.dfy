/** Wire order inside what a connection puts out: when the frames of a history batch, and of
    every sink, are in the order they came in. */
module BatchOrder {
  import opened Basics
  import opened Batches
  import opened BatchRuns
  import opened BatchNesting

  ghost predicate UpTo(nums: seq<nat>, n: nat) {
    InOrder(nums) && forall x :: x in nums ==> x < n
  }

  ghost predicate LinesTidy(s: State, n: nat) {
    forall ref :: ref in s.lines ==> UpTo(Numbers(s.lines[ref].frames), n)
  }

  ghost predicate ChatsTidy(s: State, n: nat) {
    forall ref :: ref in s.chats ==> UpTo(NumbersOf(s.chats[ref].frames), n)
  }

  ghost predicate SinksTidy(s: State) {
    forall k :: k in s.sinks ==> InOrder(SinkNumbers(k))
  }

  /** Multiline batch `l` has frames and will put them into history batch `c`. */
  ghost predicate BegunIn(s: State, c: string, l: string) {
    c != "" && l in s.lines && s.lines[l].chatRef == c && s.lines[l].frames != []
  }

  ghost predicate AllBelow(nums: seq<nat>, n: nat) {
    forall x :: x in nums ==> x < n
  }

  /** No history batch has a frame later than the first of a multiline batch begun in it. */
  ghost predicate Clear(s: State) {
    forall c, l :: c in s.chats && BegunIn(s, c, l) ==> AllBelow(NumbersOf(s.chats[c].frames), s.lines[l].frames[0].n)
  }

  ghost predicate Tidy(s: State, n: nat) {
    LinesTidy(s, n) && ChatsTidy(s, n) && SinksTidy(s) && Clear(s)
  }

  /** An event puts a frame into a history batch past an earlier frame of a multiline batch
      that is still open in it. */
  ghost predicate Overtakes(s: State, e: Event) {
    match e
    case Message(tag, _) => tag !in s.lines && tag in s.chats && exists l :: BegunIn(s, tag, l)
    case Batch(c, _) =>
      && c.Close? && c.ref in s.lines && BegunIn(s, s.lines[c.ref].chatRef, c.ref) && s.lines[c.ref].chatRef in s.chats
      && (var frames := s.lines[c.ref].frames;
          exists l :: l != c.ref && BegunIn(s, s.lines[c.ref].chatRef, l) &&
            s.lines[l].frames[0].n <= frames[|frames| - 1].n)
    case Await(_, _) => false
    case Send(_, _) => false
  }

  ghost predicate NoneOvertakes(events: seq<Event>) {
    events != [] ==>
      var before := events[..|events| - 1];
      NoneOvertakes(before) && !Overtakes(Run(before), events[|events| - 1])
  }

  // ---------- without overtaking ----------

  lemma UpToSnoc(nums: seq<nat>, n: nat)
    requires UpTo(nums, n)
    ensures UpTo(nums + [n], n + 1) && UpTo(nums, n + 1)
  {
    assert forall i :: 0 <= i < |nums| ==> nums[i] in nums;
  }

  lemma NumbersOfFirst(msgs: seq<Msg>)
    requires msgs != []
    ensures Numbers(msgs)[0] == msgs[0].n && Numbers(msgs)[0] in Numbers(msgs)
    ensures Numbers(msgs)[|msgs| - 1] == msgs[|msgs| - 1].n && msgs[|msgs| - 1].n in Numbers(msgs)
    ensures forall x :: InOrder(Numbers(msgs)) && x in Numbers(msgs) ==> msgs[0].n <= x <= msgs[|msgs| - 1].n
  {
  }

  lemma Behind(a: seq<nat>, b: seq<nat>, n: nat)
    requires UpTo(a, n) && UpTo(b, n) && b != [] && AllBelow(a, b[0])
    ensures UpTo(a + b, n)
  {
    assert forall i :: 0 <= i < |a| ==> a[i] in a;
    assert forall i :: 0 <= i < |b| ==> b[0] <= b[i];
  }

  lemma EmptyUpTo(n: nat)
    ensures UpTo([], n) && Numbers([]) == [] && NumbersOf([]) == [] && UpTo([n], n + 1)
  {
  }

  lemma WiderUpTo(nums: seq<nat>, n: nat)
    requires UpTo(nums, n)
    ensures UpTo(nums, n + 1)
  {
  }

  lemma MessageTidy(s: State, n: nat, tag: string, m: Msg)
    requires Tidy(s, n) && m.n == n && !Overtakes(s, Message(tag, m))
    ensures Tidy(Received(s, tag, m), n + 1)
  {
    hide UpTo, InOrder, Numbers, NumbersOf, Echoed, SinkNumbers, AllBelow;
    var t := Received(s, tag, m);
    forall ref | ref in s.lines
      ensures UpTo(Numbers(s.lines[ref].frames), n + 1)
      ensures UpTo(Numbers(s.lines[ref].frames + [m]), n + 1)
    {
      WiderUpTo(Numbers(s.lines[ref].frames), n);
      NumbersSnoc(s.lines[ref].frames, m);
      UpToSnoc(Numbers(s.lines[ref].frames), n);
    }
    forall ref | ref in s.chats
      ensures UpTo(NumbersOf(s.chats[ref].frames), n + 1)
      ensures UpTo(NumbersOf(s.chats[ref].frames + [Single(m)]), n + 1)
    {
      WiderUpTo(NumbersOf(s.chats[ref].frames), n);
      NumbersOfSnoc(s.chats[ref].frames, Single(m));
      UpToSnoc(NumbersOf(s.chats[ref].frames), n);
    }
    SinkOne(s, t, m);
    forall c, l | c in t.chats && BegunIn(t, c, l)
      ensures AllBelow(NumbersOf(t.chats[c].frames), t.lines[l].frames[0].n)
    {
      if !BegunIn(s, c, l) {
        UpToBelow(NumbersOf(s.chats[c].frames), n);
      }
    }
  }

  lemma UpToBelow(nums: seq<nat>, n: nat)
    requires UpTo(nums, n)
    ensures AllBelow(nums, n)
  {
  }

  lemma SinkOne(s: State, t: State, m: Msg)
    requires SinksTidy(s)
    requires
      || t.sinks == s.sinks
      || exists k: Sink :: (k.Live? || k.Echo?) && k.entry == Single(m) && t.sinks == s.sinks + [k]
    ensures SinksTidy(t)
  {
  }

  lemma OpenTidy(s: State, n: nat, c: Control, msgid: string)
    requires Tidy(s, n) && (c.OpenLine? || c.OpenChat?)
    ensures Tidy(Controlled(s, c, msgid), n)
  {
    hide UpTo, InOrder, Numbers, NumbersOf, SinkNumbers;
    EmptyUpTo(n);
  }

  lemma CloseLineTidy(s: State, n: nat, ref: string, msgid: string)
    requires Tidy(s, n) && ref in s.lines && !Overtakes(s, Batch(Close(ref), msgid))
    ensures Tidy(Controlled(s, Close(ref), msgid), n)
  {
    hide UpTo, InOrder, Numbers, NumbersOf, Echoed, Anchor, Extras, AllBelow, SinksTidy;
    var acc, t := s.lines[ref], Controlled(s, Close(ref), msgid);
    var nums := Numbers(acc.frames);
    if acc.frames != [] {
      NumbersOfFirst(acc.frames);
      SinkJoined(s, t, acc, n);
      if acc.chatRef != "" && acc.chatRef in s.chats {
        var list := NumbersOf(s.chats[acc.chatRef].frames);
        assert BegunIn(s, acc.chatRef, ref);
        Behind(list, nums, n);
        NumbersOfSnoc(s.chats[acc.chatRef].frames, Joined(acc));
        forall c, l | c in t.chats && BegunIn(t, c, l)
          ensures AllBelow(NumbersOf(t.chats[c].frames), t.lines[l].frames[0].n)
        {
          assert BegunIn(s, c, l);
          if c == acc.chatRef {
            NotOvertaken(s, ref, msgid, l, n);
            BothBelow(list, nums, t.lines[l].frames[0].n);
          }
        }
      }
    } else {
      SameSinks(s, t);
    }
  }

  lemma SameSinks(s: State, t: State)
    requires SinksTidy(s) && t.sinks == s.sinks
    ensures SinksTidy(t)
  {
  }

  lemma BothBelow(a: seq<nat>, b: seq<nat>, n: nat)
    requires AllBelow(a, n) && AllBelow(b, n)
    ensures AllBelow(a + b, n)
  {
  }

  /** All frames of the closing batch are before the first of any other begun in its history batch. */
  lemma NotOvertaken(s: State, ref: string, msgid: string, l: string, n: nat)
    requires ref in s.lines && !Overtakes(s, Batch(Close(ref), msgid)) && LinesTidy(s, n)
    requires s.lines[ref].chatRef in s.chats && BegunIn(s, s.lines[ref].chatRef, ref)
    requires l != ref && BegunIn(s, s.lines[ref].chatRef, l)
    ensures AllBelow(Numbers(s.lines[ref].frames), s.lines[l].frames[0].n)
  {
    NumbersOfFirst(s.lines[ref].frames);
  }

  lemma SinkJoined(s: State, t: State, acc: LineBatch, n: nat)
    requires SinksTidy(s) && acc.frames != [] && UpTo(Numbers(acc.frames), n)
    requires
      || t.sinks == s.sinks
      || exists k: Sink :: (k.Live? || k.Echo?) && k.entry == Joined(acc) && t.sinks == s.sinks + [k]
    ensures SinksTidy(t)
  {
    hide Joined;
    JoinedNumbers(acc);
  }

  lemma JoinedNumbers(acc: LineBatch)
    requires acc.frames != []
    ensures Joined(acc).from == Numbers(acc.frames)
  {
  }

  lemma CloseChatTidy(s: State, n: nat, ref: string, msgid: string)
    requires Tidy(s, n) && ref !in s.lines
    ensures Tidy(Controlled(s, Close(ref), msgid), n)
  {
    hide UpTo, InOrder, Numbers, NumbersOf, AllBelow, Popped, EqualFold, SinksTidy;
    if ref in s.chats {
      SinkChat(s, Controlled(s, Close(ref), msgid), s.chats[ref], n);
    }
  }

  lemma SinkChat(s: State, t: State, acc: ChatBatch, n: nat)
    requires SinksTidy(s) && UpTo(NumbersOf(acc.frames), n)
    requires t.sinks == s.sinks + [History(acc)] || t.sinks == s.sinks + [Page(acc)]
    ensures SinksTidy(t)
  {
  }

  lemma SameTidy(s: State, n: nat, t: State)
    requires Tidy(s, n) && t.lines == s.lines && t.chats == s.chats && t.sinks == s.sinks
    ensures Tidy(t, n)
  {
  }

  lemma StepTidy(s: State, n: nat, e: Event)
    requires Tidy(s, n) && !Overtakes(s, e) && (e.Message? ==> e.m.n == n)
    ensures Tidy(Next(s, e), if e.Message? then n + 1 else n)
  {
    hide Tidy, Overtakes, Received, Controlled;
    match e
    case Message(tag, m) => MessageTidy(s, n, tag, m);
    case Await(target, now) => SameTidy(s, n, Awaited(s, target, now));
    case Send(target, row) => SameTidy(s, n, s.(pending := Pushed(s.pending, target, row)));
    case Batch(c, msgid) =>
      if c.OpenLine? || c.OpenChat? {
        OpenTidy(s, n, c, msgid);
      } else if c.Close? && c.ref in s.lines {
        CloseLineTidy(s, n, c.ref, msgid);
      } else if c.Close? {
        CloseChatTidy(s, n, c.ref, msgid);
      } else {
        assert Controlled(s, c, msgid) == s by {
          OtherIsNothing(s, c, msgid);
        }
      }
  }

  lemma OtherIsNothing(s: State, c: Control, msgid: string)
    requires c.Other?
    ensures Controlled(s, c, msgid) == s
  {
  }

  /** If no event overtakes, the frames of every batch and every sink are in wire order. */
  lemma {:induction false} RunTidy(events: seq<Event>)
    requires Numbered(events) && NoneOvertakes(events)
    ensures Tidy(Run(events), |Sent(events)|)
  {
    hide Tidy, Overtakes, Next;
    if events == [] {
      StartTidy();
    } else {
      var before, e := events[..|events| - 1], events[|events| - 1];
      RunTidy(before);
      StepTidy(Run(before), |Sent(before)|, e);
    }
  }

  lemma StartTidy()
    ensures Tidy(START, 0)
  {
  }

  // ---------- overtaking shows ----------

  ghost predicate SinkSpoiled(s: State) {
    exists k :: k in s.sinks && !InOrder(SinkNumbers(k))
  }

  ghost predicate ChatSpoiled(s: State, c: string) {
    c in s.chats && !InOrder(NumbersOf(s.chats[c].frames))
  }

  ghost predicate LineSpoils(s: State, c: string, l: string) {
    c in s.chats && BegunIn(s, c, l) && !AllBelow(NumbersOf(s.chats[c].frames), s.lines[l].frames[0].n)
  }

  /** Some batch or sink is out of order, or will be once its open batches are closed. */
  ghost predicate Spoiled(s: State) {
    SinkSpoiled(s) || (exists c :: ChatSpoiled(s, c)) || (exists c, l :: LineSpoils(s, c, l))
  }

  /** Over every run frames come in at the end of their open multiline batches. */
  ghost predicate LinesBelow(s: State, n: nat) {
    forall ref :: ref in s.lines ==> AllBelow(Numbers(s.lines[ref].frames), n)
  }

  lemma LinesStayBelow(s: State, n: nat, e: Event)
    requires LinesBelow(s, n) && (e.Message? ==> e.m.n == n)
    ensures LinesBelow(Next(s, e), if e.Message? then n + 1 else n)
  {
    hide Echoed, Joined, Popped, EqualFold, AllBelow, Numbers;
    var t := Next(s, e);
    BelowNothing(n);
    forall ref | ref in t.lines
      ensures AllBelow(Numbers(t.lines[ref].frames), if e.Message? then n + 1 else n)
    {
      if e.Message? {
        NumbersSnoc(s.lines[ref].frames, e.m);
        BelowSnoc(Numbers(s.lines[ref].frames), n);
      }
    }
  }

  lemma BelowNothing(n: nat)
    ensures AllBelow(Numbers([]), n)
  {
  }

  lemma BelowSnoc(nums: seq<nat>, n: nat)
    requires AllBelow(nums, n)
    ensures AllBelow(nums + [n], n + 1) && AllBelow(nums, n + 1)
  {
  }

  lemma {:induction false} RunLinesBelow(events: seq<Event>)
    requires Numbered(events)
    ensures LinesBelow(Run(events), |Sent(events)|)
  {
    hide LinesBelow, Next;
    if events == [] {
      assert LinesBelow(START, 0) by {
        StartBelow();
      }
    } else {
      var before := events[..|events| - 1];
      RunLinesBelow(before);
      LinesStayBelow(Run(before), |Sent(before)|, events[|events| - 1]);
    }
  }

  lemma StartBelow()
    ensures LinesBelow(START, 0)
  {
  }

  lemma FirstBelow(s: State, n: nat, l: string)
    requires LinesBelow(s, n) && l in s.lines && s.lines[l].frames != []
    ensures s.lines[l].frames[0].n < n
  {
    hide Numbers;
    NumbersOfFirst(s.lines[l].frames);
    assert AllBelow(Numbers(s.lines[l].frames), n);
  }

  lemma LastStands(nums: seq<nat>, more: seq<nat>, x: nat, n: nat)
    requires x in more && n <= x
    ensures !AllBelow(nums + more, n)
  {
    assert x in nums + more;
  }

  /** An overtaking event spoils the batch. */
  lemma OvertakingSpoils(s: State, n: nat, e: Event)
    requires LinesBelow(s, n) && (e.Message? ==> e.m.n == n) && Overtakes(s, e)
    ensures Spoiled(Next(s, e))
  {
    hide Numbers, NumbersOf, AllBelow, LinesBelow, InOrder, SinkNumbers, Anchor, Extras;
    var t := Next(s, e);
    match e
    case Message(tag, m) =>
      var l :| BegunIn(s, tag, l);
      FirstBelow(s, n, l);
      NumbersOfSnoc(s.chats[tag].frames, Single(m));
      LastStands(NumbersOf(s.chats[tag].frames), [m.n], m.n, s.lines[l].frames[0].n);
      assert LineSpoils(t, tag, l);
    case Batch(ctrl, msgid) =>
      var acc := s.lines[ctrl.ref];
      var c := acc.chatRef;
      var l :| l != ctrl.ref && BegunIn(s, c, l) && s.lines[l].frames[0].n <= acc.frames[|acc.frames| - 1].n;
      NumbersOfFirst(acc.frames);
      NumbersOfSnoc(s.chats[c].frames, Joined(acc));
      LastStands(NumbersOf(s.chats[c].frames), Numbers(acc.frames), acc.frames[|acc.frames| - 1].n,
        s.lines[l].frames[0].n);
      assert LineSpoils(t, c, l);
  }

  lemma PrefixSpoils(nums: seq<nat>, more: seq<nat>)
    requires !InOrder(nums)
    ensures !InOrder(nums + more)
  {
    var i, j :| 0 <= i < j < |nums| && nums[i] >= nums[j];
    assert (nums + more)[i] == nums[i] && (nums + more)[j] == nums[j];
  }

  lemma PastSpoils(nums: seq<nat>, more: seq<nat>)
    requires more != [] && !AllBelow(nums, more[0])
    ensures !InOrder(nums + more)
  {
    var x :| x in nums && x >= more[0];
    var i :| 0 <= i < |nums| && nums[i] == x;
    assert (nums + more)[i] == x && (nums + more)[|nums|] == more[0];
  }

  lemma SinksStay(s: State, e: Event)
    requires SinkSpoiled(s)
    ensures SinkSpoiled(Next(s, e))
  {
    hide InOrder, SinkNumbers, Joined, EqualFold, Popped;
    var k :| k in s.sinks && !InOrder(SinkNumbers(k));
    assert k in Next(s, e).sinks;
  }

  lemma ChatStaysSpoiled(s: State, e: Event, c: string)
    requires ChatSpoiled(s, c) && !(e.Batch? && e.control.OpenChat? && e.control.ref == c)
    ensures Spoiled(Next(s, e))
  {
    hide InOrder, Numbers, NumbersOf, Echoed, Popped, EqualFold, Anchor, Extras, LineSpoils;
    var t := Next(s, e);
    var frames := s.chats[c].frames;
    if e.Message? {
      NumbersOfSnoc(frames, Single(e.m));
      PrefixSpoils(NumbersOf(frames), [e.m.n]);
      assert ChatSpoiled(t, c);
    } else if e.Batch? && e.control.Close? {
      var ref := e.control.ref;
      if ref in s.lines && s.lines[ref].frames != [] {
        NumbersOfSnoc(frames, Joined(s.lines[ref]));
        PrefixSpoils(NumbersOf(frames), Numbers(s.lines[ref].frames));
        assert ChatSpoiled(t, c);
      } else if ref !in s.lines && ref == c {
        var k := t.sinks[|s.sinks|];
        assert k in t.sinks && !InOrder(SinkNumbers(k));
      } else {
        assert ChatSpoiled(t, c);
      }
    } else {
      assert ChatSpoiled(t, c);
    }
  }

  /** Without an open history batch the shape has no multiline batch inside one. */
  lemma {:induction false} LinesAreIn(open: seq<Open>)
    requires Apart(open)
    ensures var h := ShapeFor(open);
            forall l :: l in h.lines ==> h.lines[l] == "" || h.lines[l] in h.chats
  {
    if open != [] {
      LinesAreIn(open[..|open| - 1]);
      StackIsChats(open[..|open| - 1]);
    }
  }

  /** No multiline batch is open inside the innermost batch. */
  lemma NothingInside(s: State, open: seq<Open>, l: string)
    requires Mirrors(s, open) && open != [] && l in s.lines
    ensures s.lines[l].chatRef != open[|open| - 1].ref
  {
    var before, o := open[..|open| - 1], open[|open| - 1];
    LinesAreIn(before);
    assert ShapeOf(s).lines[l] == s.lines[l].chatRef;
    if !o.chat {
      LinesAreIn(open);
      StackIsChats(open);
      assert ShapeFor(open).chats == ShapeFor(before).chats;
    } else {
      assert ShapeFor(open).lines == ShapeFor(before).lines;
    }
  }

  lemma LineStaysSpoiling(s: State, e: Event, open: seq<Open>, c: string, l: string)
    requires LineSpoils(s, c, l) && Mirrors(s, open) && Nested(open, e).Some?
    ensures Spoiled(Next(s, e))
  {
    hide InOrder, Numbers, NumbersOf, Echoed, Popped, EqualFold, Anchor, Extras, AllBelow, Apart, ShapeFor, SinkSpoiled;
    var t := Next(s, e);
    var list, first := NumbersOf(s.chats[c].frames), s.lines[l].frames[0].n;
    OpenOnes(s, open, e, c, l);
    if e.Message? && e.tag == c && c !in s.lines {
      NumbersOfSnoc(s.chats[c].frames, Single(e.m));
      StillPast(list, [e.m.n], first);
      assert LineSpoils(t, c, l);
    } else if e.Batch? && e.control.Close? && e.control.ref == l {
      NumbersOfSnoc(s.chats[c].frames, Joined(s.lines[l]));
      NumbersOfFirst(s.lines[l].frames);
      PastSpoils(list, Numbers(s.lines[l].frames));
      assert ChatSpoiled(t, c);
    } else if e.Batch? && e.control.Close? && e.control.ref in s.lines && s.lines[e.control.ref].frames != [] {
      NumbersOfSnoc(s.chats[c].frames, Joined(s.lines[e.control.ref]));
      StillPast(list, Numbers(s.lines[e.control.ref].frames), first);
      assert LineSpoils(t, c, l);
    } else {
      assert LineSpoils(t, c, l);
    }
  }

  lemma StillPast(nums: seq<nat>, more: seq<nat>, n: nat)
    requires !AllBelow(nums, n)
    ensures !AllBelow(nums + more, n)
  {
    var x :| x in nums && x >= n;
    assert x in nums + more;
  }

  /** A nested event opens neither batch again and does not close the history batch around an
      open multiline batch. */
  lemma OpenOnes(s: State, open: seq<Open>, e: Event, c: string, l: string)
    requires Mirrors(s, open) && Nested(open, e).Some? && l in s.lines && c in s.chats && s.lines[l].chatRef == c
    ensures e.Batch? && (e.control.OpenLine? || e.control.OpenChat?) ==> e.control.ref != c && e.control.ref != l
    ensures e.Batch? && e.control.Close? ==> e.control.ref != c || c in s.lines
  {
    InShape(s, c);
    InShape(s, l);
    if e.Batch? && e.control.Close? && e.control.ref == c {
      NothingInside(s, open, l);
    }
  }

  lemma SpoiledStays(s: State, e: Event, open: seq<Open>)
    requires Spoiled(s) && Mirrors(s, open) && Nested(open, e).Some?
    ensures Spoiled(Next(s, e))
  {
    hide SinkSpoiled, ChatSpoiled, LineSpoils, Next, ShapeFor, Apart;
    if SinkSpoiled(s) {
      SinksStay(s, e);
    } else if exists c :: ChatSpoiled(s, c) {
      var c :| ChatSpoiled(s, c);
      ChatIsOpen(s, e, open, c);
      ChatStaysSpoiled(s, e, c);
    } else {
      var c, l :| LineSpoils(s, c, l);
      LineStaysSpoiling(s, e, open, c, l);
    }
  }

  lemma ChatIsOpen(s: State, e: Event, open: seq<Open>, c: string)
    requires ChatSpoiled(s, c) && Mirrors(s, open) && Nested(open, e).Some?
    ensures !(e.Batch? && e.control.OpenChat? && e.control.ref == c)
  {
    InShape(s, c);
  }

  lemma {:induction false} RunSpoiled(events: seq<Event>)
    requires Numbered(events) && OpenAfter(events).Some? && !NoneOvertakes(events)
    ensures Spoiled(Run(events))
  {
    hide Spoiled, Overtakes, Next, Nested, Mirrors, Accounted;
    var before, e := events[..|events| - 1], events[|events| - 1];
    NestedRun(before);
    if NoneOvertakes(before) {
      RunLinesBelow(before);
      OvertakingSpoils(Run(before), |Sent(before)|, e);
    } else {
      RunSpoiled(before);
      SpoiledStays(Run(before), e, OpenAfter(before).value);
    }
  }

  /** Once every batch of a well-nested run is closed, every sink is in wire order exactly if no
      event overtook: no frame got into a history batch past an earlier one of a multiline batch
      still open in it. */
  lemma WireOrderExactly(events: seq<Event>)
    requires Numbered(events) && OpenAfter(events) == Some([])
    ensures SinksTidy(Run(events)) <==> NoneOvertakes(events)
  {
    hide Run, NoneOvertakes, OpenAfter, Sent, InOrder, SinkNumbers;
    if NoneOvertakes(events) {
      RunTidy(events);
    } else {
      RunSpoiled(events);
      AllClosed(events);
    }
  }

  // ---------- a stream that never overtakes ----------

  /** Every message carries the reference of the innermost open batch, if one is open, and no
      batch opens inside a multiline batch. */
  ghost predicate Orderly(open: seq<Open>, e: Event) {
    && (e.Message? && open != [] ==> e.tag == open[|open| - 1].ref)
    && (e.Batch? && (e.control.OpenLine? || e.control.OpenChat?) && open != [] ==> open[|open| - 1].chat)
  }

  ghost predicate OrderlyRun(events: seq<Event>) {
    events != [] ==>
      var before := events[..|events| - 1];
      OrderlyRun(before) && OpenAfter(before).Some? && Orderly(OpenAfter(before).value, events[|events| - 1])
  }

  ghost predicate AllChats(open: seq<Open>) {
    forall i :: 0 <= i < |open| ==> open[i].chat
  }

  lemma {:induction false} NoLines(open: seq<Open>)
    requires AllChats(open)
    ensures ShapeFor(open).lines == map[]
  {
    if open != [] {
      NoLines(open[..|open| - 1]);
    }
  }

  /** The open batches of an orderly run: history batches, and a multiline one innermost if at all. */
  lemma {:induction false} OrderlyOpen(events: seq<Event>)
    requires OrderlyRun(events) && OpenAfter(events).Some?
    ensures var open := OpenAfter(events).value; open != [] ==> AllChats(open[..|open| - 1])
  {
    hide ShapeFor;
    if events != [] {
      OrderlyOpen(events[..|events| - 1]);
    }
  }

  lemma OrderlyStep(s: State, open: seq<Open>, e: Event)
    requires Mirrors(s, open) && Nested(open, e).Some? && Orderly(open, e)
    requires open != [] ==> AllChats(open[..|open| - 1])
    ensures !Overtakes(s, e)
  {
    if open == [] {
      assert ShapeFor(open) == Shape(map[], {}, []);
    } else {
      NoLines(open[..|open| - 1]);
    }
    assert forall ref :: ref in ShapeOf(s).lines <==> ref in s.lines;
    assert ShapeOf(s).chats == s.chats.Keys;
  }

  lemma {:induction false} OrderlyNeverOvertakes(events: seq<Event>)
    requires OrderlyRun(events) && Numbered(events) && OpenAfter(events).Some?
    ensures NoneOvertakes(events)
  {
    hide Overtakes, Nested, Mirrors, Orderly, Accounted;
    if events != [] {
      var before := events[..|events| - 1];
      OrderlyNeverOvertakes(before);
      OrderlyOpen(before);
      NestedRun(before);
      OrderlyStep(Run(before), OpenAfter(before).value, events[|events| - 1]);
    }
  }

  lemma OpenStep(events: seq<Event>, e: Event, open: seq<Open>)
    requires OpenAfter(events) == Some(open)
    ensures OpenAfter(events + [e]) == Nested(open, e)
  {
    assert (events + [e])[..|events|] == events;
  }

  lemma NestedOpens()
    ensures OpenAfter(NESTED_EVENTS) == Some([Open("c", true), Open("l", false)])
    ensures ShapeFor([Open("c", true)]) == Shape(map[], {"c"}, ["c"])
    ensures ShapeFor([Open("c", true), Open("l", false)]) == Shape(map["l" := "c"], {"c"}, ["c"])
  {
    hide OpenAfter;
    var one := [] + [Batch(OpenChat("c", "#c"), "")];
    var two := one + [Batch(OpenLine("l", "#c"), "")];
    assert OpenAfter([]) == Some([]) by {
      NothingOpen();
    }
    OpenStep([], Batch(OpenChat("c", "#c"), ""), []);
    assert [] + [Open("c", true)] == [Open("c", true)];
    OpenSnoc([], Open("c", true));
    OpenStep(one, Batch(OpenLine("l", "#c"), ""), [Open("c", true)]);
    assert [Open("c", true)] + [Open("l", false)] == [Open("c", true), Open("l", false)];
    OpenSnoc([Open("c", true)], Open("l", false));
    OpenStep(two, Message("l", FIRST), [Open("c", true), Open("l", false)]);
  }

  lemma NothingOpen()
    ensures OpenAfter([]) == Some([])
  {
  }

  const SECOND := FIRST.(n := 1)

  /** A frame of a multiline batch, one of the history batch around it, and both closed. */
  const OVERTAKEN: seq<Event> :=
    NESTED_EVENTS + [Message("c", SECOND)] + [Batch(Close("l"), "")] + [Batch(Close("c"), "")]

  lemma OvertakenNests()
    ensures OpenAfter(OVERTAKEN) == Some([])
  {
    hide OpenAfter, ShapeFor, NESTED_EVENTS;
    NestedOpens();
    var both, outer := [Open("c", true), Open("l", false)], [Open("c", true)];
    var four := NESTED_EVENTS + [Message("c", SECOND)];
    var five := four + [Batch(Close("l"), "")];
    OpenStep(NESTED_EVENTS, Message("c", SECOND), both);
    OpenStep(four, Batch(Close("l"), ""), both);
    assert both[..1] == outer;
    OpenStep(five, Batch(Close("c"), ""), outer);
    assert outer[..0] == [];
  }

  lemma OvertakenFrames()
    ensures Numbered(OVERTAKEN) && |Run(OVERTAKEN).sinks| == 1 && SinkNumbers(Run(OVERTAKEN).sinks[0]) == [1, 0]
  {
    hide Run, Places, Sent, Numbered, Joined, NumbersOf, NESTED_EVENTS;
    NestedEvents();
    var four := NESTED_EVENTS + [Message("c", SECOND)];
    RunSnoc(NESTED_EVENTS, Message("c", SECOND));
    assert [] + [Single(SECOND)] == [Single(SECOND)];
    assert Run(four).lines == map["l" := IN_HISTORY] &&
      Run(four).chats == map["c" := ChatBatch("#c", [Single(SECOND)])];
    var five := four + [Batch(Close("l"), "")];
    RunSnoc(four, Batch(Close("l"), ""));
    var entries := [Single(SECOND)] + [Joined(IN_HISTORY)];
    assert Run(five).lines == map[] && Run(five).chats == map["c" := ChatBatch("#c", entries)];
    RunSnoc(five, Batch(Close("c"), ""));
    assert Run(OVERTAKEN).sinks == [History(ChatBatch("#c", entries))];
    NumbersOfNone();
    NumbersOfSnoc([], Single(SECOND));
    assert [] + [Single(SECOND)] == [Single(SECOND)];
    NumbersOfSnoc([Single(SECOND)], Joined(IN_HISTORY));
    JoinedNumbers(IN_HISTORY);
    assert Numbers([FIRST]) == [0];
  }

  /** This run is well nested, closes all it opens and loses nothing, and its later frame comes
      first. */
  lemma OvertakenRun()
    ensures Numbered(OVERTAKEN) && OpenAfter(OVERTAKEN) == Some([]) && Lost !in Places(OVERTAKEN)
    ensures |Run(OVERTAKEN).sinks| == 1 && SinkNumbers(Run(OVERTAKEN).sinks[0]) == [1, 0]
    ensures !SinksTidy(Run(OVERTAKEN)) && !NoneOvertakes(OVERTAKEN)
  {
    hide Run, Places, OpenAfter, Numbered, SinkNumbers, NoneOvertakes, OVERTAKEN;
    OvertakenNests();
    OvertakenFrames();
    NestedRun(OVERTAKEN);
    WireOrderExactly(OVERTAKEN);
    var nums := SinkNumbers(Run(OVERTAKEN).sinks[0]);
    assert nums[0] == 1 && nums[1] == 0;
    assert Run(OVERTAKEN).sinks[0] in Run(OVERTAKEN).sinks;
  }

  lemma NumbersOfNone()
    ensures NumbersOf([]) == []
  {
  }
}
