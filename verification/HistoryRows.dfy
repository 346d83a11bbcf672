/** What a history batch leaves in the buffer: which messages are stored, under which time, and
    what their rows say. */
module HistoryRows {
  import opened Snowflake
  import opened MintOrder
  import opened MessageRing
  import opened History
  import opened Backfill

  /** A message that was stored, where and under which id. */
  datatype Stored = Stored(f: ChatFrame, key: Key)

  ghost function KeyOf(c: Setting, u: State, f: ChatFrame): Key
    requires Accepted(c, u.index, f)
  {
    Key(c.channelOf(f.target).value, Minted(c, u.aux, MsFor(f, c.now)).id)
  }

  ghost function StoredBy(c: Setting, s: State, frames: seq<ChatFrame>): seq<Stored> {
    if frames == [] then []
    else
      var before, f := frames[..|frames| - 1], frames[|frames| - 1];
      var u := ApplyAll(c, s, before);
      StoredBy(c, s, before) +
      (if Accepted(c, u.index, f) then [Stored(f, KeyOf(c, u, f))] else [])
  }

  /** The time a message is stored under, in Unix milliseconds: its own, but not a future one. */
  ghost function OwnTime(f: ChatFrame, now: int): int {
    (if f.at <= now then f.at else now) / 1000000
  }

  /** No id carries a time before the first millisecond of 2015. */
  ghost function FromEpoch(ms: int): int {
    if ms < 1420070400000 then 1420070400000 else ms
  }

  lemma OwnMs(f: ChatFrame, now: int)
    ensures FrameMs(f, now) == OwnTime(f, now)
    ensures MsFor(f, now) + DISCORD_EPOCH == FromEpoch(OwnTime(f, now))
  {
  }

  /** A message is stored exactly if it is to a channel that can be resolved and has no id or one
      that is not in the index by then. */
  lemma StoredExactly(c: Setting, s: State, before: seq<ChatFrame>, f: ChatFrame)
    ensures var u, had, has := ApplyAll(c, s, before), StoredBy(c, s, before), StoredBy(c, s, before + [f]);
            if f.target != "" && f.target[0] in "#&" && c.channelOf(f.target).Some? &&
               (f.msgid == "" || f.msgid !in u.index)
            then |has| == |had| + 1 && has[..|had|] == had && has[|had|].f == f &&
                 has[|had|].key.channel == c.channelOf(f.target).value
            else has == had && ApplyAll(c, s, before + [f]) == u
  {
    hide Minted, Appended, Bound, ApplyAll, StoredBy;
    StoredSnoc(c, s, before, f);
  }

  lemma StoredSnoc(c: Setting, s: State, before: seq<ChatFrame>, f: ChatFrame)
    ensures var u := ApplyAll(c, s, before);
            && ApplyAll(c, s, before + [f]) == ApplyOne(c, u, f)
            && StoredBy(c, s, before + [f]) == StoredBy(c, s, before) +
               (if Accepted(c, u.index, f) then [Stored(f, KeyOf(c, u, f))] else [])
  {
    hide ApplyOne, Minted, Accepted;
    assert (before + [f])[..|before|] == before;
  }

  // ---------- times ----------

  ghost predicate Dates(c: Setting, x: Stored) {
    SnowflakeTime(x.key.id) == FromEpoch(OwnTime(x.f, c.now))
  }

  ghost predicate QuietSince(c: Setting, s: State, frames: seq<ChatFrame>) {
    forall i :: 0 <= i < |frames| ==> QuietStep(c, ApplyAll(c, s, frames[..i]), frames[i])
  }

  /** The message, if it is stored, meets no used-up counter. */
  ghost predicate QuietStep(c: Setting, u: State, f: ChatFrame) {
    Accepted(c, u.index, f) ==> !MeetsFull(c.node, u.aux, At(MsFor(f, c.now)))
  }

  /** Every message of a live batch that is stored, while none meets a used-up counter, gets an id
      that carries its own time. */
  lemma {:induction false} LiveDates(c: Setting, s: State, frames: seq<ChatFrame>)
    requires c.live && GoodCounters(s.aux) && QuietSince(c, s, frames)
    ensures GoodCounters(ApplyAll(c, s, frames).aux)
    ensures forall x :: x in StoredBy(c, s, frames) ==> Dates(c, x)
  {
    hide ApplyOne, Accepted, GoodCounters, QuietStep;
    if frames != [] {
      var n := |frames| - 1;
      var before, f := frames[..n], frames[n];
      assert frames == before + [f];
      assert forall i :: 0 <= i < n ==> before[..i] == frames[..i] && before[i] == frames[i];
      LiveDates(c, s, before);
      assert QuietStep(c, ApplyAll(c, s, frames[..n]), frames[n]);
      LiveDate(c, ApplyAll(c, s, before), f);
      StoredSnoc(c, s, before, f);
    }
  }

  lemma LiveDate(c: Setting, u: State, f: ChatFrame)
    requires c.live && GoodCounters(u.aux) && QuietStep(c, u, f)
    ensures GoodCounters(ApplyOne(c, u, f).aux)
    ensures Accepted(c, u.index, f) ==>
              SnowflakeTime(Minted(c, u.aux, MsFor(f, c.now)).id) == FromEpoch(OwnTime(f, c.now))
  {
    hide MintAt, Appended, Bound, MsFor, GoodCounters, MeetsFull, Id, Accepted;
    OwnMs(f, c.now);
    if Accepted(c, u.index, f) {
      LandsOnOwn(c.node, u.aux, MsFor(f, c.now));
    }
  }

  /** A quiet burst of the stored messages' times is a quiet batch. */
  lemma {:induction false} QuietBatch(c: Setting, s: State, frames: seq<ChatFrame>)
    requires c.live && s.times == [] && s.ids == [] && QuietAt(c.node, s.aux, ApplyAll(c, s, frames).times)
    ensures QuietSince(c, s, frames)
  {
    hide ApplyOne, Accepted, QuietAt, MintAt, MeetsFull;
    if frames != [] {
      var n := |frames| - 1;
      var before, f := frames[..n], frames[n];
      var u := ApplyAll(c, s, before);
      IdsAreABurst(c, s, before);
      OneTime(c, u, f);
      var times := ApplyAll(c, s, frames).times;
      if Accepted(c, u.index, f) {
        QuietAtPrefix(c.node, s.aux, times);
        assert times[..|times| - 1] == u.times;
      }
      QuietBatch(c, s, before);
      forall i | 0 <= i < |frames|
        ensures QuietStep(c, ApplyAll(c, s, frames[..i]), frames[i])
      {
        if i < n {
          assert before[..i] == frames[..i] && before[i] == frames[i];
          assert QuietStep(c, ApplyAll(c, s, before[..i]), before[i]);
        }
      }
    }
  }

  lemma OneTime(c: Setting, u: State, f: ChatFrame)
    ensures ApplyOne(c, u, f).times == if Accepted(c, u.index, f) then u.times + [MsFor(f, c.now)] else u.times
  {
    hide Minted, Appended, Bound, MsFor;
  }

  ghost function IdsOf(stored: seq<Stored>): seq<int> {
    seq(|stored|, i requires 0 <= i < |stored| => stored[i].key.id)
  }

  /** The ids a batch gives, and a live one sends out, are those of the messages stored. */
  lemma {:induction false} StoredIds(c: Setting, s: State, frames: seq<ChatFrame>)
    ensures ApplyAll(c, s, frames).ids == s.ids + IdsOf(StoredBy(c, s, frames))
  {
    hide Minted, Appended, Bound, Accepted, MsFor;
    if frames == [] {
      assert s.ids + [] == s.ids;
    } else {
      var before, f := frames[..|frames| - 1], frames[|frames| - 1];
      StoredIds(c, s, before);
      var u := ApplyAll(c, s, before);
      if Accepted(c, u.index, f) {
        var x := Stored(f, KeyOf(c, u, f));
        assert IdsOf(StoredBy(c, s, before) + [x]) == IdsOf(StoredBy(c, s, before)) + [x.key.id];
      } else {
        assert StoredBy(c, s, before) + [] == StoredBy(c, s, before);
      }
    }
  }

  /** So a live batch none of whose messages meets a used-up counter stores and sends out every
      message under an id of its own time. */
  lemma LiveBatchDates(c: Setting, rows: Rows, index: map<string, Key>, aux: Counters, frames: seq<ChatFrame>)
    requires c.live && GoodCounters(aux) && QuietAt(c.node, aux, Applied(c, rows, index, aux, frames).times)
    ensures var stored := StoredBy(c, State(rows, index, aux, [], []), frames);
            && Applied(c, rows, index, aux, frames).ids == IdsOf(stored)
            && forall x :: x in stored ==> Dates(c, x)
  {
    hide ApplyAll, QuietAt, Dates, IdsOf, StoredBy;
    var s := State(rows, index, aux, [], []);
    QuietBatch(c, s, frames);
    LiveDates(c, s, frames);
    StoredIds(c, s, frames);
    assert [] + IdsOf(StoredBy(c, s, frames)) == IdsOf(StoredBy(c, s, frames));
  }

  /** Under a ceiling a message that gets an id gets one of its own time or an earlier one. */
  lemma {:induction false} BackfillDates(c: Setting, s: State, frames: seq<ChatFrame>)
    requires !c.live && c.ceiling.Some? && GoodCounters(s.aux) && WithinCap(s.rows)
    ensures forall x :: x in StoredBy(c, s, frames) && x.key.id != 0 ==>
              SnowflakeTime(x.key.id) <= FromEpoch(OwnTime(x.f, c.now))
  {
    hide ApplyOne, Accepted, GoodCounters, WithinCap;
    if frames != [] {
      var n := |frames| - 1;
      var before, f := frames[..n], frames[n];
      assert frames == before + [f];
      BackfillDates(c, s, before);
      BatchSizes(c, s, before);
      BackfillDate(c, ApplyAll(c, s, before), f);
      StoredSnoc(c, s, before, f);
    }
  }

  lemma BackfillDate(c: Setting, u: State, f: ChatFrame)
    requires !c.live && c.ceiling.Some? && GoodCounters(u.aux)
    ensures var id := Minted(c, u.aux, MsFor(f, c.now)).id;
            id != 0 ==> SnowflakeTime(id) <= FromEpoch(OwnTime(f, c.now))
  {
    hide MintBelow, MsFor, GoodCounters, Fits, UsedUp, Without, Id;
    OwnMs(f, c.now);
    MintBelowIs(c.node, u.aux, MsFor(f, c.now), c.ceiling.value);
  }

  // ---------- rows ----------

  /** What the row of a stored message says. */
  ghost function RowFor(c: Setting, f: ChatFrame): Row {
    Row(c.render(f), OwnTime(f, c.now), f.msgid)
  }

  /** The row under a key is that of the message stored there last, or the one from before. */
  ghost predicate RowStands(c: Setting, had: Rows, stored: seq<Stored>, k: Key, row: Row) {
    || (k in had && row == had[k] && forall x :: x in stored ==> x.key != k)
    || (exists i :: LastUnder(stored, i, k) && row == RowFor(c, stored[i].f))
  }

  ghost predicate LastUnder(stored: seq<Stored>, i: int, k: Key) {
    0 <= i < |stored| && stored[i].key == k && forall j :: i < j < |stored| ==> stored[j].key != k
  }

  lemma StandsOn(c: Setting, had: Rows, stored: seq<Stored>, k: Key, row: Row, x: Stored)
    requires RowStands(c, had, stored, k, row) && x.key != k
    ensures RowStands(c, had, stored + [x], k, row)
  {
    hide RowFor;
    if !(k in had && row == had[k] && forall y :: y in stored ==> y.key != k) {
      var i :| LastUnder(stored, i, k) && row == RowFor(c, stored[i].f);
      assert LastUnder(stored + [x], i, k);
    }
  }

  lemma StandsNow(c: Setting, had: Rows, stored: seq<Stored>, x: Stored)
    ensures RowStands(c, had, stored + [x], x.key, RowFor(c, x.f))
  {
    hide RowFor;
    assert LastUnder(stored + [x], |stored|, x.key);
  }

  lemma AppendedHas(rows: Rows, channel: string, id: int, row: Row, k: Key)
    requires k in Appended(rows, channel, id, row)
    ensures Appended(rows, channel, id, row)[k] == if k == Key(channel, id) then row else rows[k]
    ensures k != Key(channel, id) ==> k in rows
  {
    hide Top, Ids;
  }

  /** After a batch every row is that of the message stored there last, with its own text, time
      and id, or the row from before. */
  lemma {:induction false} RowsStand(c: Setting, s: State, frames: seq<ChatFrame>, k: Key)
    requires k in ApplyAll(c, s, frames).rows
    ensures RowStands(c, s.rows, StoredBy(c, s, frames), k, ApplyAll(c, s, frames).rows[k])
  {
    hide RowStands, Accepted, Minted, Appended, Bound, FrameMs, RowFor, StoredBy;
    if frames == [] {
      NothingStored(c, s, k);
    } else {
      var before, f := frames[..|frames| - 1], frames[|frames| - 1];
      assert frames == before + [f];
      var u := ApplyAll(c, s, before);
      StoredSnoc(c, s, before, f);
      if Accepted(c, u.index, f) {
        var x := Stored(f, KeyOf(c, u, f));
        var row := Row(c.render(f), FrameMs(f, c.now), f.msgid);
        AppendedHas(u.rows, x.key.channel, x.key.id, row, k);
        if k == x.key {
          RowIs(c, f);
          StandsNow(c, s.rows, StoredBy(c, s, before), x);
        } else {
          RowsStand(c, s, before, k);
          StandsOn(c, s.rows, StoredBy(c, s, before), k, u.rows[k], x);
        }
      } else {
        RowsStand(c, s, before, k);
        assert StoredBy(c, s, before) + [] == StoredBy(c, s, before);
      }
    }
  }

  lemma RowIs(c: Setting, f: ChatFrame)
    ensures Row(c.render(f), FrameMs(f, c.now), f.msgid) == RowFor(c, f)
  {
    OwnMs(f, c.now);
  }

  lemma NothingStored(c: Setting, s: State, k: Key)
    requires k in s.rows
    ensures RowStands(c, s.rows, StoredBy(c, s, []), k, s.rows[k])
  {
  }

  // ---------- the index ----------

  lemma {:induction false} IndexedIs(index: map<string, Key>, msgids: seq<string>, k: Key, m: string)
    ensures m != "" && m in msgids ==> m in IndexedAll(index, msgids, k) && IndexedAll(index, msgids, k)[m] == k
    ensures m == "" || m !in msgids ==>
              (m in IndexedAll(index, msgids, k) <==> m in index) &&
              (m in index ==> IndexedAll(index, msgids, k)[m] == index[m])
  {
    if msgids != [] {
      var n := |msgids| - 1;
      IndexedIs(index, msgids[..n], k, m);
      assert msgids == msgids[..n] + [msgids[n]];
    }
  }

  /** A message that is stored with an id is found under it, if its row is kept, and under each of
      its further ids; no other id finds anything else than before. */
  lemma FoundUnder(c: Setting, u: State, f: ChatFrame, m: string)
    requires Accepted(c, u.index, f)
    ensures var t, k := ApplyOne(c, u, f), KeyOf(c, u, f);
            if m != "" && f.msgid != "" && (m in f.extras || (m == f.msgid && k in t.rows))
            then m in t.index && t.index[m] == k
            else (m in t.index <==> m in u.index) && (m in u.index ==> t.index[m] == u.index[m])
  {
    hide Minted, Appended;
    var t, k := ApplyOne(c, u, f), KeyOf(c, u, f);
    IndexedIs(if k in t.rows then u.index[f.msgid := k] else u.index, f.extras, k, m);
  }
}
