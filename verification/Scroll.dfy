/** Scrolling back: rounds of history fetches, each below the buffer's current floor. */
module Scroll {
  import opened Basics
  import opened Snowflake
  import opened Ordered
  import opened MintOrder
  import opened MessageRing
  import opened History
  import opened Backfill

  const ROUNDS: nat := 3

  /** Every row of the channel, and of all channels the batches have no messages for, is still
      there, unchanged. */
  ghost predicate Keeps(c: Setting, channel: string, answers: seq<seq<ChatFrame>>, buffered: Rows, rows: Rows) {
    forall k :: k in buffered && (k.channel == channel || Untouched(c, answers, k.channel)) ==> Kept(k, buffered, rows)
  }

  ghost predicate Untouched(c: Setting, answers: seq<seq<ChatFrame>>, channel: string) {
    forall i :: 0 <= i < |answers| ==> !Targets(c, answers[i], channel)
  }

  /** Ids are unsigned numbers. */
  ghost predicate Unsigned(rows: Rows) {
    forall k :: k in rows ==> k.id >= 0
  }

  /** The channel's ids are dated `d` milliseconds after the epoch or later. */
  ghost predicate Dated(rows: Rows, channel: string, d: int) {
    forall k :: k in rows && k.channel == channel ==> MsOf(k.id) >= d
  }

  ghost predicate FramesDated(frames: seq<ChatFrame>, now: int, d: int) {
    forall f :: f in frames ==> FrameMs(f, now) - DISCORD_EPOCH >= d
  }

  /** The least id of a channel, if it has one. */
  ghost predicate IsFloor(rows: Rows, channel: string, floor: Option<nat>) {
    if Ids(rows, channel) == {} then floor.None? else floor.Some? && IsMin(Ids(rows, channel), floor.value)
  }

  // ---------- one round ----------

  lemma ApplyOneDated(c: Setting, channel: string, s: State, f: ChatFrame, d: int, n: nat)
    requires !c.live && d >= 1 && (c.ceiling.None? || MsOf(c.ceiling.value) >= d)
    requires Roomy(s.aux, n + 1) && Dated(s.rows, channel, d - 1) && FrameMs(f, c.now) - DISCORD_EPOCH >= d - 1
    ensures var t := ApplyOne(c, s, f); Roomy(t.aux, n) && Dated(t.rows, channel, d - 1)
  {
    hide MsOf, Id, MintAt, MintBelow, FreeSlots, Ids, Top, Bound;
    if Accepted(c, s.index, f) {
      var ms := MsFor(f, c.now);
      if c.ceiling.None? {
        OneAt(c.node, s.aux, ms, n);
      } else {
        OneBelow(c.node, s.aux, ms, c.ceiling.value, n);
      }
    }
  }

  /** No millisecond will be used up by `n` more ids. */
  ghost predicate Roomy(aux: Counters, n: nat) {
    GoodCounters(aux) && forall ms :: Count(aux, ms) + n <= MAX_SEQ
  }

  lemma RoomyAfter(aux: Counters, m: int, n: nat)
    requires Roomy(aux, n + 1) && m >= 0
    ensures Roomy(aux[m := Count(aux, m) + 1], n)
  {
    var after := aux[m := Count(aux, m) + 1];
    forall ms
      ensures Count(after, ms) + n <= MAX_SEQ
    {
      assert Count(aux, ms) + (n + 1) <= MAX_SEQ;
    }
    assert Count(aux, m) + (n + 1) <= MAX_SEQ;
  }

  lemma RoomyMeetsNone(node: Node, aux: Counters, q: Request)
    requires Roomy(aux, 1)
    ensures !MeetsFull(node, aux, q) && GoodCounters(aux)
  {
    assert forall ms :: Count(aux, ms) + 1 <= MAX_SEQ ==> Count(aux, ms) < MAX_SEQ;
  }

  lemma OneAt(node: Node, aux: Counters, ms: nat, n: nat)
    requires Roomy(aux, n + 1)
    ensures var r := MintAt(node, aux, ms); Roomy(r.aux, n) && MsOf(r.id) == ms
  {
    hide MintAt, MsOf, Roomy, MeetsFull, Id;
    RoomyLess(aux, n + 1, 1);
    RoomyMeetsNone(node, aux, At(ms));
    LandsOnOwn(node, aux, ms);
    RoomyAfter(aux, ms, n);
  }

  lemma OneBelow(node: Node, aux: Counters, ms: nat, ceiling: nat, n: nat)
    requires Roomy(aux, n + 1) && MsOf(ceiling) >= 1
    ensures var r := MintBelow(node, aux, ms, ceiling);
            Roomy(r.aux, n) && (MsOf(r.id) == ms || MsOf(r.id) >= MsOf(ceiling) - 1)
  {
    hide MintBelow, FreeSlots, MsOf, Id, Roomy, MeetsFull;
    RoomyLess(aux, n + 1, 1);
    RoomyMeetsNone(node, aux, Below(ms, ceiling));
    LandsOn(node, aux, ms, ceiling);
    var m := Landing(ms, MsOf(ceiling), FreeSlots(node, aux, ceiling) > 0);
    RoomyAfter(aux, m, n);
    IdTime(node, m, Count(aux, m) + 1);
  }

  lemma {:induction false} RoundDated(c: Setting, channel: string, s: State, frames: seq<ChatFrame>, d: int, n: nat)
    requires !c.live && d >= 1 && (c.ceiling.None? || MsOf(c.ceiling.value) >= d)
    requires Roomy(s.aux, |frames| + n) && Dated(s.rows, channel, d - 1) && FramesDated(frames, c.now, d - 1)
    ensures var t := ApplyAll(c, s, frames); Roomy(t.aux, n) && Dated(t.rows, channel, d - 1)
  {
    hide ApplyOne, Dated, MsOf, Roomy;
    if frames != [] {
      var before, f := frames[..|frames| - 1], frames[|frames| - 1];
      assert f in frames && forall g :: g in before ==> g in frames;
      RoundDated(c, channel, s, before, d, n + 1);
      ApplyOneDated(c, channel, ApplyAll(c, s, before), f, d, n);
    } else {
      RoomyLess(s.aux, |frames| + n, n);
    }
  }

  lemma RoomyLess(aux: Counters, m: nat, n: nat)
    requires Roomy(aux, m) && n <= m
    ensures Roomy(aux, n)
  {
    assert forall ms :: Count(aux, ms) + m <= MAX_SEQ ==> Count(aux, ms) + n <= MAX_SEQ;
  }

  lemma DatedLess(rows: Rows, channel: string, d: int, e: int)
    requires Dated(rows, channel, d) && e <= d
    ensures Dated(rows, channel, e)
  {
  }

  lemma FloorDated(rows: Rows, channel: string, floor: Option<nat>, d: int)
    requires IsFloor(rows, channel, floor) && Dated(rows, channel, d) && d >= 1
    ensures floor.None? || (MsOf(floor.value) >= d && floor.value > 0)
  {
    hide Ids;
    if floor.Some? {
      IdsHold(rows, channel, floor.value);
      PositiveMs(floor.value);
    }
  }

  /** A round below the channel's lowest row, whatever the batch, keeps all rows of the channel
      and of every channel it has no messages for, unless that lowest row has id 0. */
  lemma RoundKeeps(c: Setting, channel: string, s: State, frames: seq<ChatFrame>, k: Key)
    requires !c.live && IsFloor(s.rows, channel, c.ceiling) && c.ceiling != Some(0)
    requires GoodCounters(s.aux) && WithinCap(s.rows)
    requires k in s.rows && (k.channel == channel || !Targets(c, frames, k.channel))
    ensures Kept(k, s.rows, ApplyAll(c, s, frames).rows)
  {
    hide ApplyAll, Ids, WithinCap;
    if k.channel == channel {
      IdsHold(s.rows, channel, k.id);
    }
    RowStays(c, s, frames, k);
  }

  lemma ApplyOneUnsigned(c: Setting, s: State, f: ChatFrame)
    requires Unsigned(s.rows) && GoodCounters(s.aux)
    ensures Unsigned(ApplyOne(c, s, f).rows)
  {
    hide MintBelow, MintAt, Bound, Ids, Above, Top;
    if Accepted(c, s.index, f) {
      var ms := MsFor(f, c.now);
      if c.live || c.ceiling.None? {
        AtIsSomeId(c.node, s.aux, ms);
      } else {
        BelowIsUnsigned(c.node, s.aux, ms, c.ceiling.value);
      }
    }
  }

  lemma BelowIsUnsigned(node: Node, aux: Counters, ms: nat, ceiling: nat)
    requires GoodCounters(aux)
    ensures MintBelow(node, aux, ms, ceiling).id >= 0
  {
    hide UsedUp, Without;
    MintBelowIs(node, aux, ms, ceiling);
    var r := MintBelow(node, aux, ms, ceiling);
    if r.id != 0 {
      PositiveId(node, MsOf(r.id), Count(aux, MsOf(r.id)) + 1);
    }
  }

  lemma {:induction false} BatchUnsigned(c: Setting, s: State, frames: seq<ChatFrame>)
    requires Unsigned(s.rows) && GoodCounters(s.aux) && WithinCap(s.rows)
    ensures Unsigned(ApplyAll(c, s, frames).rows)
  {
    hide ApplyOne, Unsigned, GoodCounters, WithinCap;
    if frames != [] {
      var before := frames[..|frames| - 1];
      BatchUnsigned(c, s, before);
      BatchSizes(c, s, before);
      ApplyOneUnsigned(c, ApplyAll(c, s, before), frames[|frames| - 1]);
    }
  }

  // ---------- a floor of 0 ----------

  /** One append keeps every row of its channel exactly if it overwrites none with another and
      the channel has room for it or it is the lowest. */
  lemma AppendKeepsExactly(rows: Rows, channel: string, id: int, row: Row)
    requires |Ids(rows, channel)| <= MSG_BUFFER_CAP
    ensures var after := Appended(rows, channel, id, row);
            (forall k :: k in rows && k.channel == channel ==> Kept(k, rows, after)) <==>
              if Key(channel, id) in rows then rows[Key(channel, id)] == row
              else |Ids(rows, channel)| < MSG_BUFFER_CAP || forall x :: x in Ids(rows, channel) ==> id < x
  {
    hide Ids, Top, Ascending;
    var after, had := Appended(rows, channel, id, row), Ids(rows, channel);
    AppendedIds(rows, Append(channel, id, row), channel);
    IdsHold(rows, channel, id);
    if Key(channel, id) in rows {
      assert had + {id} == had;
      TopSize(had, MSG_BUFFER_CAP);
      SameRows(rows, channel, id, row);
    } else if |had| < MSG_BUFFER_CAP {
      TopSize(had + {id}, MSG_BUFFER_CAP);
      SameRows(rows, channel, id, row);
    } else if forall x :: x in had ==> id < x {
      forall k | k in rows && k.channel == channel
        ensures Kept(k, rows, after)
      {
        IdsHold(rows, channel, k.id);
        AppendBelow(rows, channel, id, row, k);
      }
    } else {
      LowestGoes(rows, channel, id, row);
    }
  }

  lemma SameRows(rows: Rows, channel: string, id: int, row: Row)
    requires forall x :: x in Ids(rows, channel) ==> x in Ids(Appended(rows, channel, id, row), channel)
    ensures (forall k :: k in rows && k.channel == channel ==> Kept(k, rows, Appended(rows, channel, id, row))) <==>
              (Key(channel, id) in rows ==> rows[Key(channel, id)] == row)
  {
    hide Ids, Top;
    var after := Appended(rows, channel, id, row);
    forall k | k in rows && k.channel == channel
      ensures k in after && after[k] == if k == Key(channel, id) then row else rows[k]
    {
      IdsHold(rows, channel, k.id);
      IdsHold(after, channel, k.id);
    }
    if Key(channel, id) in rows {
      assert Kept(Key(channel, id), rows, after) <==> rows[Key(channel, id)] == row;
    }
  }

  /** A new row that is not the lowest pushes the lowest out of a full channel. */
  lemma LowestGoes(rows: Rows, channel: string, id: int, row: Row)
    requires |Ids(rows, channel)| == MSG_BUFFER_CAP && Key(channel, id) !in rows
    requires exists x :: x in Ids(rows, channel) && x <= id
    ensures exists k :: k in rows && k.channel == channel && !Kept(k, rows, Appended(rows, channel, id, row))
  {
    hide Ids, Top;
    var after, had := Appended(rows, channel, id, row), Ids(rows, channel);
    AppendedIds(rows, Append(channel, id, row), channel);
    IdsHold(rows, channel, id);
    HasMin(had);
    var low :| IsMin(had, low);
    assert Above(had + {id}, low) == had + {id} - {low};
    assert |had + {id}| == MSG_BUFFER_CAP + 1;
    assert |had + {id} - {low}| == MSG_BUFFER_CAP;
    NotInTop(had + {id}, low, MSG_BUFFER_CAP);
    IdsHold(rows, channel, low);
    IdsHold(after, channel, low);
    assert !Kept(Key(channel, low), rows, after);
  }

  lemma NotInTop(s: set<int>, x: int, k: nat)
    requires |Above(s, x)| >= k
    ensures x !in Top(s, k)
  {
  }

  /** A ceiling of 0 is none: a message gets the next id of its own millisecond. */
  lemma ZeroIsNoCeiling(node: Node, aux: Counters, ms: nat)
    requires Count(aux, ms) < MAX_SEQ
    ensures MintBelow(node, aux, ms, 0).id == Id(node, ms, Count(aux, ms) + 1)
  {
  }

  // ---------- all rounds ----------

  function Total(answers: seq<seq<ChatFrame>>): nat {
    if answers == [] then 0 else |answers[0]| + Total(answers[1..])
  }

  /** The id of the channel's last row, newest first: its lowest. */
  method LowestId(store: Store, channel: string) returns (floor: Option<nat>)
    requires WithinCap(store.rows) && Unsigned(store.rows)
    ensures IsFloor(store.rows, channel, floor)
  {
    hide Ids, Descending, WithinCap;
    var all := store.ChannelMessages(channel, None, None, MSG_BUFFER_CAP);
    ghost var ids := Ids(store.rows, channel);
    assert Before(ids, None) == ids;
    HadWithin(store.rows, channel);
    LastIsLeast(ids);
    if all == [] {
      return None;
    }
    IdsHold(store.rows, channel, all[|all| - 1]);
    return Some(all[|all| - 1]);
  }

  lemma LastIsLeast(s: set<int>)
    ensures |Descending(s)| == |s| && (s == {} <==> Descending(s) == [])
    ensures s != {} ==> IsMin(s, Descending(s)[|s| - 1])
  {
    var q := Descending(s);
    if s != {} {
      HasElement(s);
      assert q != [];
      assert q[|q| - 1] in q;
      forall y | y in s
        ensures q[|q| - 1] <= y
      {
        assert y in q;
        var i :| 0 <= i < |q| && q[i] == y;
      }
    }
  }

  lemma {:induction false} NoneInserted(c: Setting, s: State, frames: seq<ChatFrame>)
    ensures var t := ApplyAll(c, s, frames);
            |t.ids| >= |s.ids| && (|t.ids| == |s.ids| ==> t.rows == s.rows && t.index == s.index)
  {
    hide Minted, Bound, Appended;
    if frames != [] {
      NoneInserted(c, s, frames[..|frames| - 1]);
    }
  }

  lemma TotalFrom(answers: seq<seq<ChatFrame>>, i: nat)
    requires i < |answers|
    ensures Total(answers[i..]) == |answers[i]| + Total(answers[i + 1..])
  {
    assert answers[i..][1..] == answers[i + 1..];
  }

  lemma SameFrames(frames: seq<ChatFrame>, batch: seq<ChatFrame>)
    requires Permutes(frames, batch)
    ensures |frames| == |batch| && forall f :: f in frames <==> f in batch
  {
    assert |frames| == |multiset(frames)| == |multiset(batch)| == |batch|;
    assert forall f :: f in frames <==> f in multiset(frames);
    assert forall f :: f in batch <==> f in multiset(batch);
  }

  lemma KeepsSelf(c: Setting, channel: string, answers: seq<seq<ChatFrame>>, rows: Rows)
    ensures Keeps(c, channel, answers, rows, rows)
  {
  }

  lemma KeepsOn(c: Setting, ceiling: Option<nat>, channel: string, answers: seq<seq<ChatFrame>>, round: nat,
                buffered: Rows, s: State, frames: seq<ChatFrame>)
    requires Keeps(c, channel, answers, buffered, s.rows) && round < |answers| && Permutes(frames, answers[round])
    requires !c.live && IsFloor(s.rows, channel, ceiling) && ceiling != Some(0) && GoodCounters(s.aux) &&
             WithinCap(s.rows)
    ensures Keeps(c, channel, answers, buffered, ApplyAll(c.(ceiling := ceiling), s, frames).rows)
  {
    hide ApplyAll, IsFloor, WithinCap, GoodCounters;
    SameFrames(frames, answers[round]);
    var setting := c.(ceiling := ceiling);
    forall k | k in buffered && (k.channel == channel || Untouched(c, answers, k.channel))
      ensures Kept(k, buffered, ApplyAll(setting, s, frames).rows)
    {
      assert Kept(k, buffered, s.rows);
      if k.channel != channel {
        assert !Targets(c, answers[round], k.channel);
        assert !Targets(setting, frames, k.channel);
      }
      RoundKeeps(setting, channel, s, frames, k);
    }
  }

  /** While ids and messages are dated after the first milliseconds of the epoch and no
      millisecond is used up, rounds so far leave enough of both. */
  ghost predicate Safe(rows: Rows, channel: string, aux: Counters, answers: seq<seq<ChatFrame>>, now: int, round: int) {
    && 0 <= round <= ROUNDS == |answers|
    && Dated(rows, channel, ROUNDS - round) && Roomy(aux, Total(answers[round..]))
    && forall i :: 0 <= i < ROUNDS ==> FramesDated(answers[i], now, ROUNDS)
  }

  lemma SafeFloor(rows: Rows, channel: string, aux: Counters, answers: seq<seq<ChatFrame>>, now: int, round: int,
      floor: Option<nat>)
    requires Safe(rows, channel, aux, answers, now, round) && round < ROUNDS && IsFloor(rows, channel, floor)
    ensures floor != Some(0)
  {
    FloorDated(rows, channel, floor, ROUNDS - round);
  }

  lemma SafeOn(c: Setting, channel: string, s: State, answers: seq<seq<ChatFrame>>, round: int, frames: seq<ChatFrame>)
    requires !c.live && Safe(s.rows, channel, s.aux, answers, c.now, round) && round < ROUNDS
    requires IsFloor(s.rows, channel, c.ceiling) && Permutes(frames, answers[round])
    ensures var t := ApplyAll(c, s, frames); Safe(t.rows, channel, t.aux, answers, c.now, round + 1)
  {
    hide Roomy, Dated, ApplyAll, IsFloor, Permutes, Total;
    var d := ROUNDS - round;
    TotalFrom(answers, round);
    SameFrames(frames, answers[round]);
    FloorDated(s.rows, channel, c.ceiling, d);
    DatedLess(s.rows, channel, d, d - 1);
    assert FramesDated(frames, c.now, d - 1);
    RoundDated(c, channel, s, frames, d, Total(answers[round + 1..]));
  }

  // ---------- what the rounds do ----------

  /** The buffer, its index and the counters, and how many messages were inserted so far. */
  datatype Buffer = Buffer(rows: Rows, index: map<string, Key>, aux: Counters, total: nat)

  /** The batches, applied one after the other, each below its floor. */
  ghost function Rounds(c: Setting, b: Buffer, floors: seq<Option<nat>>, batches: seq<seq<ChatFrame>>): Buffer
    requires |floors| == |batches|
  {
    if floors == [] then b
    else
      var n := |floors| - 1;
      var g := Rounds(c, b, floors[..n], batches[..n]);
      var t := Applied(c.(ceiling := floors[n]), g.rows, g.index, g.aux, batches[n]);
      Buffer(t.rows, t.index, t.aux, g.total + |t.ids|)
  }

  /** Round `i` is asked for: the page is not full yet, the round before, if any, inserted
      something, the floor is the lowest row by then, and the batch is the answer in order of time. */
  ghost predicate AskedAt(c: Setting, channel: string, b: Buffer, want: int, answer: seq<ChatFrame>,
                          floors: seq<Option<nat>>, batches: seq<seq<ChatFrame>>, i: nat)
    requires i < |floors| == |batches|
  {
    var g := Rounds(c, b, floors[..i], batches[..i]);
    && g.total < want && IsFloor(g.rows, channel, floors[i])
    && (i > 0 ==> Rounds(c, b, floors[..i - 1], batches[..i - 1]).total < g.total)
    && ByTime(batches[i]) && Permutes(batches[i], answer)
  }

  ghost predicate Asked(c: Setting, channel: string, b: Buffer, want: int, answers: seq<seq<ChatFrame>>,
                        floors: seq<Option<nat>>, batches: seq<seq<ChatFrame>>) {
    && |floors| == |batches| <= |answers|
    && forall i :: 0 <= i < |floors| ==> AskedAt(c, channel, b, want, answers[i], floors, batches, i)
  }

  /** No more rounds: there were three, or the page is full, or the last one inserted nothing. */
  ghost predicate Stops(c: Setting, b: Buffer, want: int, floors: seq<Option<nat>>, batches: seq<seq<ChatFrame>>)
    requires |floors| == |batches|
  {
    var n, total := |floors|, Rounds(c, b, floors, batches).total;
    n == 3 || total >= want || (n > 0 && total == Rounds(c, b, floors[..n - 1], batches[..n - 1]).total)
  }

  lemma NoneAsked(c: Setting, channel: string, b: Buffer, want: int, answers: seq<seq<ChatFrame>>)
    ensures Asked(c, channel, b, want, answers, [], []) && Rounds(c, b, [], []) == b
  {
  }

  /** One more round. */
  lemma AskedSnoc(c: Setting, channel: string, b: Buffer, want: int, answers: seq<seq<ChatFrame>>,
                  floors: seq<Option<nat>>, batches: seq<seq<ChatFrame>>, floor: Option<nat>, frames: seq<ChatFrame>)
    requires Asked(c, channel, b, want, answers, floors, batches) && |floors| < |answers|
    requires var g, n := Rounds(c, b, floors, batches), |floors|;
             && g.total < want && IsFloor(g.rows, channel, floor)
             && (n > 0 ==> Rounds(c, b, floors[..n - 1], batches[..n - 1]).total < g.total)
    requires ByTime(frames) && Permutes(frames, answers[|floors|])
    ensures Asked(c, channel, b, want, answers, floors + [floor], batches + [frames])
    ensures var g := Rounds(c, b, floors, batches);
            var t := Applied(c.(ceiling := floor), g.rows, g.index, g.aux, frames);
            Rounds(c, b, floors + [floor], batches + [frames]) == Buffer(t.rows, t.index, t.aux, g.total + |t.ids|)
    ensures (floors + [floor])[..|floors|] == floors && (batches + [frames])[..|floors|] == batches
  {
    hide Applied, IsFloor, ByTime, Permutes;
    var fs, bs, n := floors + [floor], batches + [frames], |floors|;
    assert fs[..n] == floors && bs[..n] == batches;
    forall i | 0 <= i < |fs|
      ensures AskedAt(c, channel, b, want, answers[i], fs, bs, i)
    {
      assert fs[..i] == floors[..i] && bs[..i] == batches[..i];
      if i > 0 {
        assert fs[..i - 1] == floors[..i - 1] && bs[..i - 1] == batches[..i - 1];
      }
      if i < n {
        assert AskedAt(c, channel, b, want, answers[i], floors, batches, i);
      }
    }
  }

  /** What a round below the lowest row keeps. */
  lemma RoundDone(c: Setting, ceiling: Option<nat>, channel: string, answers: seq<seq<ChatFrame>>, round: nat,
                  buffered: Rows, s: State, frames: seq<ChatFrame>)
    requires !c.live && round < |answers| && Permutes(frames, answers[round]) && IsFloor(s.rows, channel, ceiling)
    requires GoodCounters(s.aux) && WithinCap(s.rows) && Unsigned(s.rows) && s.ids == []
    ensures var t := ApplyAll(c.(ceiling := ceiling), s, frames);
            && WithinCap(t.rows) && Unsigned(t.rows)
            && (ceiling != Some(0) && Keeps(c, channel, answers, buffered, s.rows) ==>
                  Keeps(c, channel, answers, buffered, t.rows))
            && (Safe(s.rows, channel, s.aux, answers, c.now, round) && round < ROUNDS ==>
                  ceiling != Some(0) && Safe(t.rows, channel, t.aux, answers, c.now, round + 1))
            && (EachOnce(s.rows, s.index) ==> EachOnce(t.rows, t.index))
            && (t.ids == [] ==> t.rows == s.rows && t.index == s.index)
  {
    hide Safe, ApplyAll, Ids, EachOnce, IsFloor, WithinCap, Keeps, Unsigned, Permutes;
    var setting := c.(ceiling := ceiling);
    BatchSizes(setting, s, frames);
    BatchUnsigned(setting, s, frames);
    NoneInserted(setting, s, frames);
    if ceiling != Some(0) && Keeps(c, channel, answers, buffered, s.rows) {
      KeepsOn(c, ceiling, channel, answers, round, buffered, s, frames);
    }
    if Safe(s.rows, channel, s.aux, answers, c.now, round) && round < ROUNDS {
      SafeFloor(s.rows, channel, s.aux, answers, c.now, round, ceiling);
      SafeOn(setting, channel, s, answers, round, frames);
    }
    if EachOnce(s.rows, s.index) {
      NoMessageTwice(setting, s, frames);
    }
  }

  /** Asks for older messages until the page is full, up to three times, each time below the
      row that is the lowest by then. `answers` are the batches the network would send, an
      empty one if it sends none, `floors` the ids gone below and `batches` the answers asked
      for, in order of time. What is stored and counted is what these batches, applied one
      after the other, store and count; and it goes on exactly while the page is not full and
      something comes in. No message is stored twice. Nothing buffered is lost or changed, in
      the channel and in every channel the batches have no messages for, unless a floor is 0;
      and none is while ids and messages are dated after the first milliseconds of the epoch
      and no millisecond is used up. */
  method FetchOlderMessages(store: Store, gen: Generator, c: Setting, channel: string, want: int,
      answers: seq<seq<ChatFrame>>)
    returns (total: nat, ghost floors: seq<Option<nat>>, ghost batches: seq<seq<ChatFrame>>)
    requires gen.Valid() && gen.node == c.node && !c.live && |answers| == ROUNDS
    requires WithinCap(store.rows) && Unsigned(store.rows)
    modifies store, gen`aux
    ensures gen.Valid() && WithinCap(store.rows) && Unsigned(store.rows)
    ensures var b := old(Buffer(store.rows, store.index, gen.aux, 0));
            && Asked(c, channel, b, want, answers, floors, batches)
            && Stops(c, b, want, floors, batches)
            && Buffer(store.rows, store.index, gen.aux, total) == Rounds(c, b, floors, batches)
    ensures Some(0) !in floors ==> Keeps(c, channel, answers, old(store.rows), store.rows)
    ensures old(Safe(store.rows, channel, gen.aux, answers, c.now, 0)) ==> Some(0) !in floors
    ensures old(EachOnce(store.rows, store.index)) ==> EachOnce(store.rows, store.index)
    ensures want <= 0 ==> total == 0
    ensures total == 0 ==> store.rows == old(store.rows) && store.index == old(store.index)
  {
    hide Safe, ApplyAll, Applied, Ids, EachOnce, IsFloor, WithinCap, Keeps, Unsigned, Asked, ByTime, Permutes, Rounds;
    total, floors, batches := 0, [], [];
    var need, round := want, 0;
    ghost var b := Buffer(store.rows, store.index, gen.aux, 0);
    ghost var safe := Safe(store.rows, channel, gen.aux, answers, c.now, 0);
    KeepsSelf(c, channel, answers, store.rows);
    NoneAsked(c, channel, b, want, answers);
    while round < ROUNDS && need > 0
      invariant 0 <= round == |floors| == |batches| <= ROUNDS && gen.Valid() && need == want - total
      invariant WithinCap(store.rows) && Unsigned(store.rows)
      invariant Asked(c, channel, b, want, answers, floors, batches)
      invariant Buffer(store.rows, store.index, gen.aux, total) == Rounds(c, b, floors, batches)
      invariant round > 0 ==> Rounds(c, b, floors[..round - 1], batches[..round - 1]).total < total
      invariant Some(0) !in floors ==> Keeps(c, channel, answers, old(store.rows), store.rows)
      invariant safe ==> Safe(store.rows, channel, gen.aux, answers, c.now, round) && Some(0) !in floors
      invariant old(EachOnce(store.rows, store.index)) ==> EachOnce(store.rows, store.index)
      invariant want <= 0 ==> total == 0
      invariant total == 0 ==> store.rows == old(store.rows) && store.index == old(store.index)
      decreases ROUNDS - round
    {
      var ceiling := LowestId(store, channel);
      ghost var s := State(store.rows, store.index, gen.aux, [], []);
      var setting := c.(ceiling := ceiling);
      var got, marked, sent, frames := FlushChatBatch(store, gen, setting, channel, answers[round]);
      RoundIs(setting, s, frames);
      RoundDone(c, ceiling, channel, answers, round, old(store.rows), s, frames);
      AskedSnoc(c, channel, b, want, answers, floors, batches, ceiling, frames);
      ghost var fs, bs := floors, batches;
      floors, batches := floors + [ceiling], batches + [frames];
      assert floors[..|floors| - 1] == fs && batches[..|batches| - 1] == bs;
      total := total + got;
      if got == 0 {
        break;
      }
      need := need - got;
      round := round + 1;
    }
  }

  lemma RoundIs(c: Setting, s: State, frames: seq<ChatFrame>)
    requires s.times == [] && s.ids == []
    ensures Applied(c, s.rows, s.index, s.aux, frames) == ApplyAll(c, s, frames)
  {
  }
}
