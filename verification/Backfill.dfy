/** What a history batch does to a buffer: ids in order of time, nothing buffered lost, no
    message twice. */
module Backfill {
  import opened Basics
  import opened Ordered
  import opened Snowflake
  import opened MintOrder
  import opened MessageRing
  import opened History

  // ---------- order ----------

  /** The ids of a batch are those of a burst at its messages' times. */
  lemma {:induction false} IdsAreABurst(c: Setting, s: State, frames: seq<ChatFrame>)
    requires s.times == [] && s.ids == []
    ensures var t := ApplyAll(c, s, frames);
            var b := if c.live || c.ceiling.None? then BurstAt(c.node, s.aux, t.times)
                     else BurstBelow(c.node, s.aux, t.times, c.ceiling.value);
            t.ids == b.ids && t.aux == b.aux
  {
    hide MintAt, MintBelow, Appended, Bound, Accepted;
    if frames != [] {
      var before := frames[..|frames| - 1];
      IdsAreABurst(c, s, before);
      var u, t := ApplyAll(c, s, before), ApplyAll(c, s, frames);
      if t.times != u.times {
        assert t.times[..|t.times| - 1] == u.times;
      }
    }
  }

  lemma FrameMsGrows(f: ChatFrame, g: ChatFrame, now: int)
    requires f.at <= g.at
    ensures MsFor(f, now) <= MsFor(g, now)
  {
  }

  /** Applied in order of time, the messages' milliseconds are in order. */
  lemma {:induction false} TimesInOrder(c: Setting, s: State, frames: seq<ChatFrame>)
    requires s.times == [] && ByTime(frames)
    ensures var t := ApplyAll(c, s, frames);
            && Chronological(t.times) && |t.times| <= |frames|
            && (t.times != [] ==> exists i :: 0 <= i < |frames| && t.times[|t.times| - 1] == MsFor(frames[i], c.now))
  {
    hide Minted, Appended, Bound, Accepted, FrameMs;
    if frames != [] {
      var n := |frames| - 1;
      var before, f := frames[..n], frames[n];
      TimesInOrder(c, s, before);
      var u, t := ApplyAll(c, s, before), ApplyAll(c, s, frames);
      if u.times != [] {
        var i :| 0 <= i < |before| && u.times[|u.times| - 1] == MsFor(before[i], c.now);
        assert frames[i] == before[i];
        FrameMsGrows(frames[i], f, c.now);
      }
    }
  }

  /** A silent batch, sorted and applied: while none of its messages meets a used-up counter its
      ids rise in order of time exactly when the ceiling's millisecond has no free slot below
      the ceiling, or one for every message from that millisecond on. */
  lemma BatchOrder(c: Setting, rows: Rows, index: map<string, Key>, aux: Counters, frames: seq<ChatFrame>)
    requires ByTime(frames) && !c.live && c.ceiling.Some? && MsOf(c.ceiling.value) >= 1 && GoodCounters(aux)
    requires QuietBelow(c.node, aux, Applied(c, rows, index, aux, frames).times, c.ceiling.value)
    ensures var t, free := Applied(c, rows, index, aux, frames), FreeSlots(c.node, aux, c.ceiling.value);
            && |t.ids| == |t.times| && Chronological(t.times)
            && (forall i :: 0 <= i < |t.ids| ==> t.ids[i] < c.ceiling.value)
            && (StrictlyAscending(t.ids) <==> free == 0 || Late(t.times, MsOf(c.ceiling.value)) <= free)
  {
    hide ApplyAll, MintBelow, FreeSlots, Late, MsOf, QuietBelow;
    var s := State(rows, index, aux, [], []);
    var t := Applied(c, rows, index, aux, frames);
    PositiveMs(c.ceiling.value);
    IdsAreABurst(c, s, frames);
    TimesInOrder(c, s, frames);
    BackfillOrder(c.node, aux, t.times, c.ceiling.value);
    BackfillBelow(c.node, aux, t.times, c.ceiling.value);
  }

  /** A live prefill: its ids rise in order of time and carry the messages' own times, while
      none of them meets a used-up counter. */
  lemma PrefillBatchOrder(c: Setting, rows: Rows, index: map<string, Key>, aux: Counters, frames: seq<ChatFrame>)
    requires ByTime(frames) && c.live && GoodCounters(aux)
    requires QuietAt(c.node, aux, Applied(c, rows, index, aux, frames).times)
    ensures var t := Applied(c, rows, index, aux, frames);
            |t.ids| == |t.times| && Chronological(t.times) && StrictlyAscending(t.ids)
            && forall i :: 0 <= i < |t.ids| ==> MsOf(t.ids[i]) == t.times[i]
  {
    hide ApplyAll, MintAt, MsOf, QuietAt;
    var s := State(rows, index, aux, [], []);
    IdsAreABurst(c, s, frames);
    TimesInOrder(c, s, frames);
    PrefillOrder(c.node, aux, Applied(c, rows, index, aux, frames).times);
  }

  // ---------- nothing buffered is lost ----------

  ghost predicate WithinCap(rows: Rows) {
    forall channel :: |Ids(rows, channel)| <= MSG_BUFFER_CAP
  }

  /** The batch has messages for this channel. */
  ghost predicate Targets(c: Setting, frames: seq<ChatFrame>, channel: string) {
    exists f :: f in frames && c.channelOf(f.target) == Some(channel)
  }

  ghost predicate Kept(k: Key, buffered: Rows, rows: Rows) {
    k in buffered && k in rows && rows[k] == buffered[k]
  }

  /** A row below all others pushes none of them out. */
  lemma AppendBelow(rows: Rows, channel: string, id: int, row: Row, k: Key)
    requires k in rows && Key(channel, id) != k && (k.channel == channel ==> id < k.id)
    requires |Ids(rows, channel)| <= MSG_BUFFER_CAP
    ensures k in Appended(rows, channel, id, row) && Appended(rows, channel, id, row)[k] == rows[k]
  {
    var more := rows[Key(channel, id) := row];
    if k.channel == channel {
      IdsHold(rows, channel, k.id);
      IdsHold(more, channel, k.id);
      forall x
        ensures x in Above(Ids(more, channel), k.id) <==> x in Above(Ids(rows, channel), k.id)
      {
        IdsHold(rows, channel, x);
        IdsHold(more, channel, x);
      }
      assert Above(Ids(more, channel), k.id) == Above(Ids(rows, channel), k.id);
      SubsetSize(Above(Ids(rows, channel), k.id) + {k.id}, Ids(rows, channel));
    }
  }

  lemma AppendedSize(rows: Rows, a: Append, channel: string)
    requires |Ids(rows, channel)| <= MSG_BUFFER_CAP
    ensures |Ids(Appended(rows, a.channel, a.id, a.row), channel)| <= MSG_BUFFER_CAP
  {
    hide Appended, Top;
    AppendedIds(rows, a, channel);
    TopSize(Ids(rows, channel) + {a.id}, MSG_BUFFER_CAP);
  }

  lemma ApplyOneSizes(c: Setting, s: State, f: ChatFrame)
    requires WithinCap(s.rows) && GoodCounters(s.aux)
    ensures WithinCap(ApplyOne(c, s, f).rows) && GoodCounters(ApplyOne(c, s, f).aux)
  {
    hide MintBelow, MintAt, Bound, Ids, Above, Top;
    if Accepted(c, s.index, f) {
      var ms := MsFor(f, c.now);
      var channel, r := c.channelOf(f.target).value, Minted(c, s.aux, ms);
      if c.live || c.ceiling.None? {
        MintAtIs(c.node, s.aux, ms);
      } else {
        MintBelowIs(c.node, s.aux, ms, c.ceiling.value);
      }
      forall x: string
        ensures |Ids(ApplyOne(c, s, f).rows, x)| <= MSG_BUFFER_CAP
      {
        AppendedSize(s.rows, Append(channel, r.id, Row(c.render(f), FrameMs(f, c.now), f.msgid)), x);
      }
    }
  }

  lemma {:induction false} BatchSizes(c: Setting, s: State, frames: seq<ChatFrame>)
    requires WithinCap(s.rows) && GoodCounters(s.aux)
    ensures WithinCap(ApplyAll(c, s, frames).rows) && GoodCounters(ApplyAll(c, s, frames).aux)
  {
    hide ApplyOne, WithinCap, GoodCounters;
    if frames != [] {
      BatchSizes(c, s, frames[..|frames| - 1]);
      ApplyOneSizes(c, ApplyAll(c, s, frames[..|frames| - 1]), frames[|frames| - 1]);
    }
  }

  /** One message leaves a row alone that is of another channel, or not below the ceiling. */
  lemma ApplyOneKeeps(c: Setting, s: State, f: ChatFrame, k: Key)
    requires WithinCap(s.rows) && GoodCounters(s.aux) && k in s.rows
    requires c.channelOf(f.target) != Some(k.channel) || (!c.live && c.ceiling.Some? && 0 < c.ceiling.value <= k.id)
    ensures Kept(k, s.rows, ApplyOne(c, s, f).rows)
  {
    hide MintBelow, MintAt, Bound, Ids, Above, Top;
    if Accepted(c, s.index, f) {
      var ms := MsFor(f, c.now);
      var channel, r := c.channelOf(f.target).value, Minted(c, s.aux, ms);
      if channel == k.channel {
        MintBelowIs(c.node, s.aux, ms, c.ceiling.value);
      }
      AppendBelow(s.rows, channel, r.id, Row(c.render(f), FrameMs(f, c.now), f.msgid), k);
    }
  }

  /** A batch, whatever is in it, keeps every row of the channels it has no messages for, and
      under a ceiling every row that is not below it. */
  lemma {:induction false} RowStays(c: Setting, s: State, frames: seq<ChatFrame>, k: Key)
    requires WithinCap(s.rows) && GoodCounters(s.aux) && k in s.rows
    requires !Targets(c, frames, k.channel) || (!c.live && c.ceiling.Some? && 0 < c.ceiling.value <= k.id)
    ensures Kept(k, s.rows, ApplyAll(c, s, frames).rows)
  {
    hide ApplyOne, Ids;
    if frames != [] {
      var before, f := frames[..|frames| - 1], frames[|frames| - 1];
      assert f in frames && forall g :: g in before ==> g in frames;
      BatchSizes(c, s, before);
      RowStays(c, s, before, k);
      ApplyOneKeeps(c, ApplyAll(c, s, before), f, k);
    }
  }

  lemma ApplyOneBelow(c: Setting, s: State, f: ChatFrame, k: Key)
    requires !c.live && c.ceiling.Some? && c.ceiling.value > 0 && GoodCounters(s.aux)
    requires k in ApplyOne(c, s, f).rows && k !in s.rows
    ensures k.id < c.ceiling.value
  {
    hide MintBelow, Bound, Top;
    var ms := MsFor(f, c.now);
    MintBelowIs(c.node, s.aux, ms, c.ceiling.value);
  }

  lemma {:induction false} NewRowsBelow(c: Setting, s: State, frames: seq<ChatFrame>, k: Key)
    requires !c.live && c.ceiling.Some? && c.ceiling.value > 0 && GoodCounters(s.aux) && WithinCap(s.rows)
    requires k in ApplyAll(c, s, frames).rows && k !in s.rows
    ensures k.id < c.ceiling.value
  {
    hide ApplyOne, Ids;
    if frames != [] {
      var before := frames[..|frames| - 1];
      BatchSizes(c, s, before);
      if k in ApplyAll(c, s, before).rows {
        NewRowsBelow(c, s, before, k);
      } else {
        ApplyOneBelow(c, ApplyAll(c, s, before), frames[|frames| - 1], k);
      }
    }
  }

  /** A backfill under a ceiling neither evicts nor changes a row that is not below it, in any
      channel, and adds only rows below it. */
  lemma BackfillProtects(c: Setting, s: State, frames: seq<ChatFrame>)
    requires !c.live && c.ceiling.Some? && c.ceiling.value > 0 && GoodCounters(s.aux) && WithinCap(s.rows)
    ensures var t := ApplyAll(c, s, frames);
            && WithinCap(t.rows) && GoodCounters(t.aux)
            && (forall k :: k in s.rows && k.id >= c.ceiling.value ==> Kept(k, s.rows, t.rows))
            && (forall k :: k in t.rows && k !in s.rows ==> k.id < c.ceiling.value)
  {
    hide ApplyAll, WithinCap;
    BatchSizes(c, s, frames);
    forall k | k in s.rows && k.id >= c.ceiling.value
      ensures Kept(k, s.rows, ApplyAll(c, s, frames).rows)
    {
      RowStays(c, s, frames, k);
    }
    forall k | k in ApplyAll(c, s, frames).rows && k !in s.rows
      ensures k.id < c.ceiling.value
    {
      NewRowsBelow(c, s, frames, k);
    }
  }

  /** Below everything a channel holds a row is kept exactly when the channel is not full: a
      backfill into a full channel leaves the buffer as it was. */
  lemma FullChannelKeepsNothing(rows: Rows, channel: string, id: int, row: Row)
    requires forall x :: x in Ids(rows, channel) ==> id < x
    requires |Ids(rows, channel)| <= MSG_BUFFER_CAP
    ensures Key(channel, id) in Appended(rows, channel, id, row) <==> |Ids(rows, channel)| < MSG_BUFFER_CAP
    ensures |Ids(rows, channel)| == MSG_BUFFER_CAP ==> Appended(rows, channel, id, row) == rows
  {
    var k, more, after := Key(channel, id), rows[Key(channel, id) := row], Appended(rows, channel, id, row);
    IdsHold(rows, channel, id);
    IdsHold(more, channel, id);
    forall x
      ensures x in Above(Ids(more, channel), id) <==> x in Ids(rows, channel)
    {
      IdsHold(rows, channel, x);
      IdsHold(more, channel, x);
    }
    assert Above(Ids(more, channel), id) == Ids(rows, channel);
    if |Ids(rows, channel)| == MSG_BUFFER_CAP {
      forall j | j in rows
        ensures j in after && after[j] == rows[j]
      {
        IdsHold(rows, j.channel, j.id);
        AppendBelow(rows, channel, id, row, j);
      }
      assert k !in rows;
      assert after.Keys == rows.Keys;
    }
  }

  // ---------- what a batch adds ----------

  /** The ids a batch gives to messages of one channel. */
  ghost function IdsFor(c: Setting, s: State, frames: seq<ChatFrame>, channel: string): seq<int> {
    if frames == [] then []
    else
      var before, f := frames[..|frames| - 1], frames[|frames| - 1];
      var u := ApplyAll(c, s, before);
      IdsFor(c, s, before, channel) + IdFor(c, u, f, channel)
  }

  ghost function IdFor(c: Setting, u: State, f: ChatFrame, channel: string): seq<int> {
    if Accepted(c, u.index, f) && c.channelOf(f.target) == Some(channel)
    then [Minted(c, u.aux, MsFor(f, c.now)).id] else []
  }

  lemma OneAdds(c: Setting, u: State, f: ChatFrame, channel: string)
    requires WithinCap(u.rows)
    ensures Ids(ApplyOne(c, u, f).rows, channel) ==
            Top(Ids(u.rows, channel) + Elements(IdFor(c, u, f, channel)), MSG_BUFFER_CAP)
    ensures IdFor(c, u, f, channel) == [] ==> forall k: Key :: k.channel == channel ==>
            (k in u.rows <==> k in ApplyOne(c, u, f).rows)
  {
    hide Minted, Bound, Top, Ids;
    TopSize(Ids(u.rows, channel), MSG_BUFFER_CAP);
    assert Ids(u.rows, channel) + {} == Ids(u.rows, channel);
    if Accepted(c, u.index, f) {
      var ms := MsFor(f, c.now);
      var to, r := c.channelOf(f.target).value, Minted(c, u.aux, ms);
      AppendedIds(u.rows, Append(to, r.id, Row(c.render(f), FrameMs(f, c.now), f.msgid)), channel);
      assert Elements([r.id]) == {r.id};
    }
  }

  /** After a batch a channel holds the 500 greatest of its ids and the new ones. */
  lemma {:induction false} BatchAdds(c: Setting, s: State, frames: seq<ChatFrame>, channel: string)
    requires WithinCap(s.rows) && GoodCounters(s.aux)
    ensures Ids(ApplyAll(c, s, frames).rows, channel) ==
            Top(Ids(s.rows, channel) + Elements(IdsFor(c, s, frames, channel)), MSG_BUFFER_CAP)
  {
    hide ApplyOne, Ids, Top, IdFor, WithinCap, GoodCounters;
    if frames == [] {
      NothingAdded(s, channel);
    } else {
      var before, f := frames[..|frames| - 1], frames[|frames| - 1];
      BatchSizes(c, s, before);
      BatchAdds(c, s, before, channel);
      var u := ApplyAll(c, s, before);
      OneAdds(c, u, f, channel);
      var all, more := Ids(s.rows, channel) + Elements(IdsFor(c, s, before, channel)), IdFor(c, u, f, channel);
      AtMostOne(c, u, f, channel);
      if more == [] {
        TopSize(Top(all, MSG_BUFFER_CAP), MSG_BUFFER_CAP);
        TopSize(all, MSG_BUFFER_CAP);
        assert Elements(more) == {} && Top(all, MSG_BUFFER_CAP) + {} == Top(all, MSG_BUFFER_CAP);
        assert IdsFor(c, s, frames, channel) == IdsFor(c, s, before, channel);
      } else {
        TopStep(all, more[0], MSG_BUFFER_CAP);
        assert more == [more[0]] && Elements(more) == {more[0]};
        ElementsConcat(IdsFor(c, s, before, channel), more);
        assert all + {more[0]} == Ids(s.rows, channel) + Elements(IdsFor(c, s, frames, channel));
      }
    }
  }

  lemma NothingAdded(s: State, channel: string)
    requires WithinCap(s.rows)
    ensures Ids(s.rows, channel) == Top(Ids(s.rows, channel) + Elements([]), MSG_BUFFER_CAP)
  {
    hide Ids, Top;
    assert Ids(s.rows, channel) + Elements([]) == Ids(s.rows, channel);
    TopSize(Ids(s.rows, channel), MSG_BUFFER_CAP);
  }

  lemma AtMostOne(c: Setting, u: State, f: ChatFrame, channel: string)
    ensures |IdFor(c, u, f, channel)| <= 1
  {
  }

  lemma ElementsConcat(a: seq<int>, b: seq<int>)
    ensures Elements(a + b) == Elements(a) + Elements(b)
  {
  }

  lemma {:induction false} ElementsSize(ids: seq<int>)
    ensures |Elements(ids)| <= |ids| && (|Elements(ids)| == |ids| <==> Distinct(ids))
  {
    hide Distinct;
    if ids == [] {
      NoneDistinct();
    } else {
      var n := |ids| - 1;
      var less, x := ids[..n], ids[n];
      ElementsSize(less);
      assert ids == less + [x];
      DistinctLast(less, x);
      ElementsConcat(less, [x]);
      assert Elements([x]) == {x};
      assert x in less <==> x in Elements(less);
      assert x in less ==> Elements(less) + {x} == Elements(less);
    }
  }

  lemma NoneDistinct()
    ensures Distinct<int>([])
  {
  }

  lemma DistinctLast(less: seq<int>, x: int)
    ensures Distinct(less + [x]) <==> Distinct(less) && x !in less
  {
    var ids := less + [x];
    if Distinct(ids) {
      assert forall i :: 0 <= i < |less| ==> ids[i] == less[i] && ids[i] != ids[|less|];
    }
  }

  /** The ids of a batch are below its ceiling, so new to a channel that holds none below it. */
  lemma {:induction false} IdsForBelow(c: Setting, s: State, frames: seq<ChatFrame>, channel: string)
    requires !c.live && c.ceiling.Some? && c.ceiling.value > 0 && GoodCounters(s.aux) && WithinCap(s.rows)
    ensures forall x :: x in IdsFor(c, s, frames, channel) ==> x < c.ceiling.value
  {
    hide ApplyOne, Ids, WithinCap;
    if frames != [] {
      var before, f := frames[..|frames| - 1], frames[|frames| - 1];
      IdsForBelow(c, s, before, channel);
      BatchSizes(c, s, before);
      var ms := MsFor(f, c.now);
      MintBelowIs(c.node, ApplyAll(c, s, before).aux, ms, c.ceiling.value);
    }
  }

  lemma BothSizes(had: set<int>, given: seq<int>, ceiling: int)
    requires (forall x :: x in had ==> x >= ceiling) && (forall x :: x in given ==> x < ceiling)
    ensures |had + Elements(given)| == |had| + |Elements(given)|
  {
    forall x | x in had
      ensures x !in Elements(given)
    {
      assert x in given ==> x < ceiling;
    }
    assert had !! Elements(given);
  }

  /** Below everything a channel holds, the channel grows by the number of messages it was given
      exactly if these got distinct ids and fit the buffer. */
  lemma BatchCounts(c: Setting, s: State, frames: seq<ChatFrame>, channel: string)
    requires !c.live && c.ceiling.Some? && c.ceiling.value > 0 && GoodCounters(s.aux) && WithinCap(s.rows)
    requires forall x :: x in Ids(s.rows, channel) ==> x >= c.ceiling.value
    ensures var had, given := Ids(s.rows, channel), IdsFor(c, s, frames, channel);
            var has := Ids(ApplyAll(c, s, frames).rows, channel);
            |has| - |had| == |given| <==> Distinct(given) && |had| + |given| <= MSG_BUFFER_CAP
  {
    hide ApplyAll, Ids, Top, Distinct, WithinCap, Elements, IdsFor, GoodCounters;
    var had, given := Ids(s.rows, channel), IdsFor(c, s, frames, channel);
    BatchAdds(c, s, frames, channel);
    IdsForBelow(c, s, frames, channel);
    ElementsSize(given);
    BothSizes(had, given, c.ceiling.value);
    TopSize(had + Elements(given), MSG_BUFFER_CAP);
    HadWithin(s.rows, channel);
  }

  lemma HadWithin(rows: Rows, channel: string)
    requires WithinCap(rows)
    ensures |Ids(rows, channel)| <= MSG_BUFFER_CAP
  {
  }

  /** A full channel stays as it was, however many messages below it a batch gives it. */
  lemma FullChannelStays(c: Setting, s: State, frames: seq<ChatFrame>, channel: string, k: Key)
    requires !c.live && c.ceiling.Some? && c.ceiling.value > 0 && GoodCounters(s.aux) && WithinCap(s.rows)
    requires forall x :: x in Ids(s.rows, channel) ==> x >= c.ceiling.value
    requires |Ids(s.rows, channel)| == MSG_BUFFER_CAP && k.channel == channel
    ensures var t := ApplyAll(c, s, frames);
            (k in t.rows <==> k in s.rows) && (k in s.rows ==> t.rows[k] == s.rows[k])
  {
    hide ApplyAll, Ids, WithinCap, GoodCounters;
    var t := ApplyAll(c, s, frames);
    BackfillProtects(c, s, frames);
    forall x | x in Ids(s.rows, channel)
      ensures x in Ids(t.rows, channel)
    {
      IdsHold(s.rows, channel, x);
      IdsHold(t.rows, channel, x);
      assert Kept(Key(channel, x), s.rows, t.rows);
    }
    HadWithin(t.rows, channel);
    IdsHold(s.rows, channel, k.id);
    IdsHold(t.rows, channel, k.id);
    NoMore(Ids(s.rows, channel), Ids(t.rows, channel), k.id);
    if k in s.rows {
      assert Kept(k, s.rows, t.rows);
    }
  }

  lemma NoMore(a: set<int>, b: set<int>, x: int)
    requires a <= b && |b| <= |a|
    ensures x in b ==> x in a
  {
    if x in b && x !in a {
      SubsetSize(a + {x}, b);
      assert false;
    }
  }

  /** For a batch of one channel the messages it is given are all that count as inserted. */
  lemma {:induction false} AllForOne(c: Setting, s: State, frames: seq<ChatFrame>, channel: string)
    requires forall f :: f in frames && c.channelOf(f.target).Some? ==> c.channelOf(f.target).value == channel
    ensures ApplyAll(c, s, frames).ids == s.ids + IdsFor(c, s, frames, channel)
  {
    hide Minted, Bound, Appended;
    if frames == [] {
      assert s.ids + [] == s.ids;
    } else {
      var before, f := frames[..|frames| - 1], frames[|frames| - 1];
      assert f in frames && forall g :: g in before ==> g in frames;
      AllForOne(c, s, before, channel);
    }
  }

  // ---------- distinct ids ----------

  /** The id carries a number its millisecond has given out since the counters were `aux`. */
  ghost predicate GivenSince(aux: Counters, now: Counters, id: int) {
    Count(aux, MsOf(id)) < id % 4096 <= Count(now, MsOf(id))
  }

  lemma {:induction false} BurstIsNew(node: Node, aux: Counters, times: seq<nat>, ceiling: nat)
    requires GoodCounters(aux) && QuietBelow(node, aux, times, ceiling) && MsOf(ceiling) >= 1
    ensures var b := BurstBelow(node, aux, times, ceiling);
            && GoodCounters(b.aux) && Distinct(b.ids)
            && (forall m :: Count(aux, m) <= Count(b.aux, m))
            && (forall id :: id in b.ids ==> GivenSince(aux, b.aux, id))
  {
    hide Id, MsOf, MintBelow, FreeSlots, Distinct, QuietBelow, MeetsFull;
    if times == [] {
      NoneDistinct();
    } else {
      var before, t := times[..|times| - 1], times[|times| - 1];
      QuietPrefix(node, aux, times, ceiling, |times| - 1);
      BurstIsNew(node, aux, before, ceiling);
      var b := BurstBelow(node, aux, before, ceiling);
      LandsOn(node, b.aux, t, ceiling);
      var m := Landing(t, MsOf(ceiling), FreeSlots(node, b.aux, ceiling) > 0);
      var id := Id(node, m, Count(b.aux, m) + 1);
      IdFields(node, m, Count(b.aux, m) + 1);
      assert id !in b.ids by {
        assert !GivenSince(aux, b.aux, id);
      }
      DistinctLast(b.ids, id);
    }
  }

  /** While no message of it meets a used-up counter a backfill of one channel, below all it
      holds, adds as many rows as it counts exactly if they all fit the buffer. */
  lemma CountIsGrowth(c: Setting, rows: Rows, index: map<string, Key>, aux: Counters, frames: seq<ChatFrame>,
      channel: string)
    requires !c.live && c.ceiling.Some? && MsOf(c.ceiling.value) >= 1 && GoodCounters(aux) && WithinCap(rows)
    requires QuietBelow(c.node, aux, Applied(c, rows, index, aux, frames).times, c.ceiling.value)
    requires forall x :: x in Ids(rows, channel) ==> x >= c.ceiling.value
    requires forall f :: f in frames && c.channelOf(f.target).Some? ==> c.channelOf(f.target).value == channel
    ensures var t, had := Applied(c, rows, index, aux, frames), |Ids(rows, channel)|;
            |Ids(t.rows, channel)| - had == |t.ids| <==> had + |t.ids| <= MSG_BUFFER_CAP
  {
    hide ApplyAll, MintBelow, MsOf, Ids, IdsFor, Distinct, WithinCap, QuietBelow;
    var s := State(rows, index, aux, [], []);
    PositiveMs(c.ceiling.value);
    IdsAreABurst(c, s, frames);
    BurstIsNew(c.node, aux, Applied(c, rows, index, aux, frames).times, c.ceiling.value);
    AllForOne(c, s, frames, channel);
    assert [] + IdsFor(c, s, frames, channel) == IdsFor(c, s, frames, channel);
    BatchCounts(c, s, frames, channel);
  }

  /** Messages of one channel, none of them indexed under its own id or found under an id of an
      earlier one. */
  ghost predicate AllNew(c: Setting, index: map<string, Key>, frames: seq<ChatFrame>, channel: string) {
    forall i :: 0 <= i < |frames| ==> NewAfter(c, index, frames[..i], frames[i], channel)
  }

  ghost predicate NewAfter(c: Setting, index: map<string, Key>, before: seq<ChatFrame>, f: ChatFrame, channel: string) {
    && IsChannelName(f.target) && c.channelOf(f.target) == Some(channel)
    && (f.msgid != "" ==> f.msgid !in index && forall g :: g in before ==> f.msgid != g.msgid && f.msgid !in g.extras)
  }

  lemma {:induction false} IndexedBy(index: map<string, Key>, msgids: seq<string>, k: Key, m: string)
    requires m in IndexedAll(index, msgids, k)
    ensures m in index || m in msgids
  {
    if msgids != [] {
      var n := |msgids| - 1;
      if m in IndexedAll(index, msgids[..n], k) {
        IndexedBy(index, msgids[..n], k, m);
      }
    }
  }

  lemma BoundBy(index: map<string, Key>, rows: Rows, k: Key, f: ChatFrame, m: string)
    requires m in Bound(index, rows, k, f)
    ensures m in index || m == f.msgid || m in f.extras
  {
    if f.msgid != "" {
      IndexedBy(if k in rows then index[f.msgid := k] else index, f.extras, k, m);
    }
  }

  lemma OneIndexes(c: Setting, u: State, f: ChatFrame, m: string)
    requires m in ApplyOne(c, u, f).index
    ensures m in u.index || m == f.msgid || m in f.extras
  {
    hide Minted, Appended, Bound;
    if Accepted(c, u.index, f) {
      var t := ApplyOne(c, u, f);
      BoundBy(u.index, t.rows, Key(c.channelOf(f.target).value, t.ids[|u.ids|]), f, m);
    }
  }

  /** Only ids of the batch get into the index. */
  lemma {:induction false} IndexFrom(c: Setting, s: State, frames: seq<ChatFrame>, m: string)
    requires m in ApplyAll(c, s, frames).index
    ensures m in s.index || exists g :: g in frames && (m == g.msgid || m in g.extras)
  {
    hide ApplyOne;
    if frames != [] {
      var before, f := frames[..|frames| - 1], frames[|frames| - 1];
      var u := ApplyAll(c, s, before);
      assert f in frames && forall g :: g in before ==> g in frames;
      if m in u.index {
        IndexFrom(c, s, before, m);
      } else {
        OneIndexes(c, u, f, m);
      }
    }
  }

  lemma AllNewPrefix(c: Setting, index: map<string, Key>, frames: seq<ChatFrame>, channel: string)
    requires AllNew(c, index, frames, channel) && frames != []
    ensures var n := |frames| - 1;
            AllNew(c, index, frames[..n], channel) && NewAfter(c, index, frames[..n], frames[n], channel)
  {
    hide NewAfter;
    var n := |frames| - 1;
    assert forall i :: 0 <= i < n ==> frames[..n][..i] == frames[..i] && frames[..n][i] == frames[i];
  }

  lemma NewIsAccepted(c: Setting, s: State, before: seq<ChatFrame>, f: ChatFrame, channel: string)
    requires NewAfter(c, s.index, before, f, channel)
    ensures Accepted(c, ApplyAll(c, s, before).index, f)
  {
    hide ApplyAll;
    if f.msgid != "" && f.msgid in ApplyAll(c, s, before).index {
      IndexFrom(c, s, before, f.msgid);
      assert false;
    }
  }

  /** New messages are all inserted. */
  lemma {:induction false} AllInserted(c: Setting, s: State, frames: seq<ChatFrame>, channel: string)
    requires AllNew(c, s.index, frames, channel)
    ensures |ApplyAll(c, s, frames).ids| == |s.ids| + |frames|
  {
    hide ApplyOne, AllNew, NewAfter;
    if frames != [] {
      var n := |frames| - 1;
      AllNewPrefix(c, s.index, frames, channel);
      AllInserted(c, s, frames[..n], channel);
      NewIsAccepted(c, s, frames[..n], frames[n], channel);
      ApplyOneGrows(c, ApplyAll(c, s, frames[..n]), frames[n]);
    }
  }

  /** A backfill of new messages of one channel, below all it holds, adds one row for each exactly
      if the channel has room for all of them; it says that it did in any case. */
  lemma NewMessagesGrow(c: Setting, rows: Rows, index: map<string, Key>, aux: Counters, frames: seq<ChatFrame>,
      channel: string)
    requires !c.live && c.ceiling.Some? && MsOf(c.ceiling.value) >= 1 && GoodCounters(aux) && WithinCap(rows)
    requires QuietBelow(c.node, aux, Applied(c, rows, index, aux, frames).times, c.ceiling.value)
    requires forall x :: x in Ids(rows, channel) ==> x >= c.ceiling.value
    requires AllNew(c, index, frames, channel)
    ensures var t, had := Applied(c, rows, index, aux, frames), |Ids(rows, channel)|;
            && |t.ids| == |frames|
            && (|Ids(t.rows, channel)| == had + |frames| <==> had + |frames| <= MSG_BUFFER_CAP)
  {
    hide ApplyAll, Ids, WithinCap, QuietBelow, MsOf;
    assert forall f :: f in frames ==> c.channelOf(f.target) == Some(channel);
    AllInserted(c, State(rows, index, aux, [], []), frames, channel);
    CountIsGrowth(c, rows, index, aux, frames, channel);
  }

  /** At a full channel they all count and none of them is there afterwards. */
  lemma FullChannelCounts(c: Setting, s: State, frames: seq<ChatFrame>, channel: string, k: Key)
    requires !c.live && c.ceiling.Some? && c.ceiling.value > 0 && GoodCounters(s.aux) && WithinCap(s.rows)
    requires forall x :: x in Ids(s.rows, channel) ==> x >= c.ceiling.value
    requires |Ids(s.rows, channel)| == MSG_BUFFER_CAP && k.channel == channel && AllNew(c, s.index, frames, channel)
    ensures var t := ApplyAll(c, s, frames);
            && |t.ids| == |s.ids| + |frames|
            && (k in t.rows <==> k in s.rows) && (k in s.rows ==> t.rows[k] == s.rows[k])
  {
    hide ApplyAll, Ids, WithinCap;
    AllInserted(c, s, frames, channel);
    FullChannelStays(c, s, frames, channel, k);
  }

  // ---------- messages without a millisecond ----------

  /** A message gets no id, 0, exactly if no millisecond up to its own has one left below the
      ceiling. */
  lemma NoIdExactly(c: Setting, s: State, f: ChatFrame)
    requires Accepted(c, s.index, f) && !c.live && c.ceiling.Some? && GoodCounters(s.aux)
    ensures var ms := MsFor(f, c.now);
            ApplyOne(c, s, f).ids == s.ids + [0]
            <==> forall k :: 0 <= k <= ms ==> !Fits(c.node, s.aux, k, c.ceiling.value)
  {
    hide MintBelow, Bound, Appended, Fits;
    var after := ApplyOne(c, s, f).ids;
    assert after[|s.ids|] == MintBelow(c.node, s.aux, MsFor(f, c.now), c.ceiling.value).id;
    MintBelowIs(c.node, s.aux, MsFor(f, c.now), c.ceiling.value);
  }

  lemma NothingUnderFirst(node: Node)
    ensures MintBelow(node, map[], 0, Id(node, 0, 1)) == Mint(0, map[])
  {
  }

  lemma OneGetsNoId(c: Setting, s: State, f: ChatFrame, channel: string)
    requires !c.live && c.ceiling == Some(Id(c.node, 0, 1)) && s.aux == map[]
    requires Accepted(c, s.index, f) && c.channelOf(f.target) == Some(channel) && FrameMs(f, c.now) <= DISCORD_EPOCH
    requires |Ids(s.rows, channel) + {0}| <= MSG_BUFFER_CAP
    ensures var t := ApplyOne(c, s, f);
            && t.ids == s.ids + [0] && t.aux == map[]
            && Ids(t.rows, channel) == Ids(s.rows, channel) + {0}
            && Key(channel, 0) in t.rows && t.rows[Key(channel, 0)] == Row(c.render(f), FrameMs(f, c.now), f.msgid)
  {
    hide Bound, Ids, Top, MintBelow;
    NothingUnderFirst(c.node);
    var row := Row(c.render(f), FrameMs(f, c.now), f.msgid);
    AppendedIds(s.rows, Append(channel, 0, row), channel);
    TopSize(Ids(s.rows, channel) + {0}, MSG_BUFFER_CAP);
    IdsHold(Appended(s.rows, channel, 0, row), channel, 0);
    AppendedRow(s.rows, channel, 0, row);
  }

  /** Two messages dated before the epoch, under its first id: both get 0, both count as
      inserted, and the second is stored over the first. */
  lemma BothGetNoId(c: Setting, s: State, f: ChatFrame, g: ChatFrame, channel: string)
    requires !c.live && c.ceiling == Some(Id(c.node, 0, 1)) && s.aux == map[]
    requires Accepted(c, s.index, f) && Accepted(c, ApplyOne(c, s, f).index, g)
    requires c.channelOf(f.target) == Some(channel) == c.channelOf(g.target)
    requires FrameMs(f, c.now) <= DISCORD_EPOCH && FrameMs(g, c.now) <= DISCORD_EPOCH
    requires |Ids(s.rows, channel) + {0}| <= MSG_BUFFER_CAP
    ensures var t := ApplyAll(c, s, [f, g]);
            && t.ids == s.ids + [0, 0]
            && Ids(t.rows, channel) == Ids(s.rows, channel) + {0}
            && Key(channel, 0) in t.rows && t.rows[Key(channel, 0)] == Row(c.render(g), FrameMs(g, c.now), g.msgid)
  {
    hide ApplyOne, Ids, Accepted, FrameMs, Id;
    assert [f, g][..1] == [f] && [f][..0] == [];
    assert ApplyAll(c, s, [f]) == ApplyOne(c, s, f);
    OneGetsNoId(c, s, f, channel);
    var u, had := ApplyOne(c, s, f), Ids(s.rows, channel);
    assert had + {0} + {0} == had + {0};
    OneGetsNoId(c, u, g, channel);
    assert s.ids + [0] + [0] == s.ids + [0, 0];
  }

  // ---------- no message twice ----------

  /** Every buffered msgid is indexed, and none is on two rows. */
  ghost predicate EachOnce(rows: Rows, index: map<string, Key>) {
    && (forall k :: k in rows && rows[k].msgid != "" ==> rows[k].msgid in index)
    && (forall j, k :: j in rows && k in rows && j != k && rows[j].msgid != "" ==> rows[j].msgid != rows[k].msgid)
  }

  lemma {:induction false} IndexGrows(index: map<string, Key>, msgids: seq<string>, k: Key)
    ensures index.Keys <= IndexedAll(index, msgids, k).Keys
  {
    if msgids != [] {
      IndexGrows(index, msgids[..|msgids| - 1], k);
    }
  }

  lemma BoundGrows(index: map<string, Key>, rows: Rows, k: Key, f: ChatFrame)
    ensures index.Keys <= Bound(index, rows, k, f).Keys
    ensures f.msgid != "" && k in rows ==> f.msgid in Bound(index, rows, k, f)
  {
    hide IndexedAll;
    if f.msgid != "" {
      IndexGrows(if k in rows then index[f.msgid := k] else index, f.extras, k);
    }
  }

  /** A batch keeps every message in the buffer at most once, and adds no row for a msgid that
      was already indexed, in this batch or before. */
  lemma {:induction false} NoMessageTwice(c: Setting, s: State, frames: seq<ChatFrame>)
    requires EachOnce(s.rows, s.index)
    ensures var t := ApplyAll(c, s, frames);
            && EachOnce(t.rows, t.index) && s.index.Keys <= t.index.Keys
            && (forall k :: k in t.rows && t.rows[k].msgid in s.index && t.rows[k].msgid != "" ==>
                 k in s.rows && s.rows[k] == t.rows[k])
  {
    hide Minted, Bound, Top, Ids;
    if frames != [] {
      var before, f := frames[..|frames| - 1], frames[|frames| - 1];
      NoMessageTwice(c, s, before);
      var u := ApplyAll(c, s, before);
      if Accepted(c, u.index, f) {
        var ms := MsFor(f, c.now);
        var channel, r := c.channelOf(f.target).value, Minted(c, u.aux, ms);
        BoundGrows(u.index, ApplyOne(c, u, f).rows, Key(channel, r.id), f);
      }
    }
  }
}
