/** What a fetch of older messages brings in. */
module ScrollPages {
  import opened Basics
  import opened Snowflake
  import opened Ordered
  import opened MessageRing
  import opened History
  import opened Backfill
  import opened Scroll

  /** Messages of the channel, none of them indexed, and none found under an id of another. */
  ghost predicate AllFresh(c: Setting, index: map<string, Key>, frames: seq<ChatFrame>, channel: string) {
    forall f :: f in frames ==> Fresh(c, index, frames, f, channel)
  }

  ghost predicate Fresh(c: Setting, index: map<string, Key>, frames: seq<ChatFrame>, f: ChatFrame, channel: string) {
    && f.target != "" && f.target[0] in "#&" && c.channelOf(f.target) == Some(channel)
    && (f.msgid != "" ==>
          && f.msgid !in index && multiset(frames)[f] == 1
          && forall g :: g in frames && g != f ==> f.msgid != g.msgid && f.msgid !in g.extras)
  }

  lemma FoundOnce(frames: seq<ChatFrame>, i: nat)
    requires i < |frames| && multiset(frames)[frames[i]] == 1
    ensures frames[i] !in frames[..i]
  {
    assert frames == frames[..i] + [frames[i]] + frames[i + 1..];
  }

  /** In whatever order they come. */
  lemma FreshAreNew(c: Setting, index: map<string, Key>, frames: seq<ChatFrame>, batch: seq<ChatFrame>, channel: string)
    requires AllFresh(c, index, batch, channel) && Permutes(frames, batch)
    ensures AllNew(c, index, frames, channel)
  {
    SameFrames(frames, batch);
    forall i | 0 <= i < |frames|
      ensures NewAfter(c, index, frames[..i], frames[i], channel)
    {
      assert Fresh(c, index, batch, frames[i], channel);
      if frames[i].msgid != "" {
        FoundOnce(frames, i);
      }
      assert forall g :: g in frames[..i] ==> g in frames;
    }
  }

  ghost predicate Played(c: Setting, channel: string, b: Buffer, want: int, answers: seq<seq<ChatFrame>>,
                         floors: seq<Option<nat>>, batches: seq<seq<ChatFrame>>) {
    && !c.live && |answers| == ROUNDS && b.total == 0
    && Asked(c, channel, b, want, answers, floors, batches) && Stops(c, b, want, floors, batches)
  }

  lemma FirstRound(c: Setting, b: Buffer, floors: seq<Option<nat>>, batches: seq<seq<ChatFrame>>)
    requires |floors| == |batches| > 0
    ensures var t := Applied(c.(ceiling := floors[0]), b.rows, b.index, b.aux, batches[0]);
            Rounds(c, b, floors[..1], batches[..1]) == Buffer(t.rows, t.index, t.aux, b.total + |t.ids|)
  {
    hide Applied;
    assert floors[..1][..0] == [] && batches[..1][..0] == [];
  }

  lemma {:induction false} TotalsGrow(
      c: Setting, b: Buffer, floors: seq<Option<nat>>, batches: seq<seq<ChatFrame>>, k: nat)
    requires k <= |floors| == |batches|
    ensures Rounds(c, b, floors[..k], batches[..k]).total <= Rounds(c, b, floors, batches).total
  {
    hide Applied;
    if k == |floors| {
      assert floors[..k] == floors && batches[..k] == batches;
    } else {
      var n := |floors| - 1;
      assert floors[..n][..k] == floors[..k] && batches[..n][..k] == batches[..k];
      TotalsGrow(c, b, floors[..n], batches[..n], k);
    }
  }

  lemma SomeAsked(c: Setting, b: Buffer, want: int, floors: seq<Option<nat>>, batches: seq<seq<ChatFrame>>)
    requires |floors| == |batches| && b.total < want && Stops(c, b, want, floors, batches)
    ensures floors != []
  {
  }

  /** A page that is wanted is asked for, and a first answer of new messages counts in full. */
  lemma FirstAnswerCounts(c: Setting, channel: string, b: Buffer, want: int, answers: seq<seq<ChatFrame>>,
                          floors: seq<Option<nat>>, batches: seq<seq<ChatFrame>>)
    requires Played(c, channel, b, want, answers, floors, batches) && want > 0
    ensures floors != []
    ensures AllFresh(c, b.index, answers[0], channel) ==> Rounds(c, b, floors, batches).total >= |answers[0]|
  {
    hide Applied, IsFloor, ByTime, Permutes, AllFresh;
    SomeAsked(c, b, want, floors, batches);
    if AllFresh(c, b.index, answers[0], channel) {
      var first := c.(ceiling := floors[0]);
      assert AskedAt(c, channel, b, want, answers[0], floors, batches, 0);
      SameFrames(batches[0], answers[0]);
      FreshAreNew(c, b.index, batches[0], answers[0], channel);
      SameNew(c, floors[0], b.index, batches[0], channel);
      FirstRound(c, b, floors, batches);
      AllInserted(first, State(b.rows, b.index, b.aux, [], []), batches[0], channel);
      AppliedIs(first, b, batches[0]);
      TotalsGrow(c, b, floors, batches, 1);
    }
  }

  lemma AppliedIs(c: Setting, b: Buffer, frames: seq<ChatFrame>)
    ensures Applied(c, b.rows, b.index, b.aux, frames) == ApplyAll(c, State(b.rows, b.index, b.aux, [], []), frames)
  {
  }

  lemma SameNew(c: Setting, floor: Option<nat>, index: map<string, Key>, frames: seq<ChatFrame>, channel: string)
    requires AllNew(c, index, frames, channel)
    ensures AllNew(c.(ceiling := floor), index, frames, channel)
  {
    forall i | 0 <= i < |frames|
      ensures NewAfter(c.(ceiling := floor), index, frames[..i], frames[i], channel)
    {
      assert NewAfter(c, index, frames[..i], frames[i], channel);
    }
  }

  lemma {:induction false} RoundsSized(c: Setting, b: Buffer, floors: seq<Option<nat>>, batches: seq<seq<ChatFrame>>)
    requires |floors| == |batches| && WithinCap(b.rows) && GoodCounters(b.aux)
    ensures var g := Rounds(c, b, floors, batches); WithinCap(g.rows) && GoodCounters(g.aux)
  {
    hide ApplyAll, WithinCap, GoodCounters;
    if floors != [] {
      var n := |floors| - 1;
      RoundsSized(c, b, floors[..n], batches[..n]);
      var g := Rounds(c, b, floors[..n], batches[..n]);
      BatchSizes(c.(ceiling := floors[n]), State(g.rows, g.index, g.aux, [], []), batches[n]);
    }
  }

  /** Whatever is in the channel after some round is there after all of them, if no floor is 0. */
  lemma {:induction false} StaysIn(c: Setting, channel: string, b: Buffer, want: int, answers: seq<seq<ChatFrame>>,
                                   floors: seq<Option<nat>>, batches: seq<seq<ChatFrame>>, p: nat, k: Key)
    requires !c.live && Asked(c, channel, b, want, answers, floors, batches) && WithinCap(b.rows) && GoodCounters(b.aux)
    requires Some(0) !in floors && p <= |floors|
    requires k.channel == channel && k in Rounds(c, b, floors[..p], batches[..p]).rows
    ensures Kept(k, Rounds(c, b, floors[..p], batches[..p]).rows, Rounds(c, b, floors, batches).rows)
  {
    hide ApplyAll, WithinCap, GoodCounters, IsFloor, ByTime, Permutes;
    if p == |floors| {
      assert floors[..p] == floors && batches[..p] == batches;
    } else {
      var n := |floors| - 1;
      assert floors[..n][..p] == floors[..p] && batches[..n][..p] == batches[..p];
      AskedPrefix(c, channel, b, want, answers, floors, batches);
      assert forall x :: x in floors[..n] ==> x in floors;
      StaysIn(c, channel, b, want, answers, floors[..n], batches[..n], p, k);
      var g := Rounds(c, b, floors[..n], batches[..n]);
      RoundsSized(c, b, floors[..n], batches[..n]);
      assert AskedAt(c, channel, b, want, answers[n], floors, batches, n);
      assert floors[n] in floors;
      RoundKeeps(c.(ceiling := floors[n]), channel, State(g.rows, g.index, g.aux, [], []), batches[n], k);
    }
  }

  lemma AskedPrefix(c: Setting, channel: string, b: Buffer, want: int, answers: seq<seq<ChatFrame>>,
                    floors: seq<Option<nat>>, batches: seq<seq<ChatFrame>>)
    requires Asked(c, channel, b, want, answers, floors, batches) && floors != []
    ensures var n := |floors| - 1; Asked(c, channel, b, want, answers, floors[..n], batches[..n])
  {
    hide Rounds, IsFloor, ByTime, Permutes;
    var n := |floors| - 1;
    forall i | 0 <= i < n
      ensures AskedAt(c, channel, b, want, answers[i], floors[..n], batches[..n], i)
    {
      assert AskedAt(c, channel, b, want, answers[i], floors, batches, i);
      assert floors[..n][..i] == floors[..i] && batches[..n][..i] == batches[..i];
      if i > 0 {
        assert floors[..n][..i - 1] == floors[..i - 1] && batches[..n][..i - 1] == batches[..i - 1];
      }
    }
  }

  /** The new messages of the first answer are in the channel in the end, as many as the buffer
      takes beside what it had: those with the greatest ids. */
  lemma FirstAnswerArrives(c: Setting, channel: string, b: Buffer, want: int, answers: seq<seq<ChatFrame>>,
                           floors: seq<Option<nat>>, batches: seq<seq<ChatFrame>>) returns (given: seq<int>)
    requires Played(c, channel, b, want, answers, floors, batches) && want > 0
    requires WithinCap(b.rows) && GoodCounters(b.aux) && Some(0) !in floors
    requires AllFresh(c, b.index, answers[0], channel)
    ensures |given| == |answers[0]|
    ensures Top(Ids(b.rows, channel) + Elements(given), MSG_BUFFER_CAP) <=
            Ids(Rounds(c, b, floors, batches).rows, channel)
  {
    hide Applied, ApplyAll, IsFloor, ByTime, Permutes, AllFresh, WithinCap, Top, Ids, Rounds, IdsFor;
    FirstAnswerCounts(c, channel, b, want, answers, floors, batches);
    var first, s := c.(ceiling := floors[0]), State(b.rows, b.index, b.aux, [], []);
    assert AskedAt(c, channel, b, want, answers[0], floors, batches, 0);
    SameFrames(batches[0], answers[0]);
    FreshAreNew(c, b.index, batches[0], answers[0], channel);
    SameNew(c, floors[0], b.index, batches[0], channel);
    AllInserted(first, s, batches[0], channel);
    NewAreTheChannels(first, b.index, batches[0], channel);
    AllForOne(first, s, batches[0], channel);
    given := IdsFor(first, s, batches[0], channel);
    BatchAdds(first, s, batches[0], channel);
    FirstRound(c, b, floors, batches);
    AppliedIs(first, b, batches[0]);
    var g, t := Rounds(c, b, floors[..1], batches[..1]), Rounds(c, b, floors, batches);
    forall x | x in Ids(g.rows, channel)
      ensures x in Ids(t.rows, channel)
    {
      IdsHold(g.rows, channel, x);
      IdsHold(t.rows, channel, x);
      StaysIn(c, channel, b, want, answers, floors, batches, 1, Key(channel, x));
    }
  }

  lemma NewAreTheChannels(c: Setting, index: map<string, Key>, frames: seq<ChatFrame>, channel: string)
    requires AllNew(c, index, frames, channel)
    ensures forall f :: f in frames ==> c.channelOf(f.target) == Some(channel)
  {
    forall f | f in frames
      ensures c.channelOf(f.target) == Some(channel)
    {
      var i :| 0 <= i < |frames| && frames[i] == f;
      assert NewAfter(c, index, frames[..i], frames[i], channel);
    }
  }
}
