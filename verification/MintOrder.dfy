/** Ids minted for a burst of messages, and when their order is the order of the times. */
module MintOrder {
  import opened Snowflake
  import opened Ordered

  /** The ids minted for a list of times, in milliseconds since the epoch, one after another. */
  datatype Burst = Burst(ids: seq<int>, aux: Counters)

  ghost function BurstBelow(node: Node, aux: Counters, times: seq<nat>, ceiling: nat): Burst {
    if times == [] then Burst([], aux)
    else
      var b := BurstBelow(node, aux, times[..|times| - 1], ceiling);
      var r := MintBelow(node, b.aux, times[|times| - 1], ceiling);
      Burst(b.ids + [r.id], r.aux)
  }

  ghost function BurstAt(node: Node, aux: Counters, times: seq<nat>): Burst {
    if times == [] then Burst([], aux)
    else
      var b := BurstAt(node, aux, times[..|times| - 1]);
      var r := MintAt(node, b.aux, times[|times| - 1]);
      Burst(b.ids + [r.id], r.aux)
  }

  ghost predicate Chronological(times: seq<nat>) {
    forall i, j :: 0 <= i <= j < |times| ==> times[i] <= times[j]
  }

  /** No message of the burst meets a used-up counter. */
  ghost predicate QuietBelow(node: Node, aux: Counters, times: seq<nat>, ceiling: nat) {
    forall i :: 0 <= i < |times| ==>
      !MeetsFull(node, BurstBelow(node, aux, times[..i], ceiling).aux, Below(times[i], ceiling))
  }

  ghost predicate QuietAt(node: Node, aux: Counters, times: seq<nat>) {
    forall i :: 0 <= i < |times| ==> !MeetsFull(node, BurstAt(node, aux, times[..i]).aux, At(times[i]))
  }

  /** How many more ids below the ceiling the ceiling's own millisecond has. */
  ghost function FreeSlots(node: Node, aux: Counters, ceiling: nat): nat {
    var cm := MsOf(ceiling);
    var below := ceiling - 1 - Id(node, cm, 0);
    var top := if below > MAX_SEQ then MAX_SEQ else below;
    if top > Count(aux, cm) then top - Count(aux, cm) else 0
  }

  /** How many of the times are in the ceiling's millisecond or after it. */
  ghost function Late(times: seq<nat>, cm: int): nat {
    if times == [] then 0 else Late(times[..|times| - 1], cm) + (if times[|times| - 1] >= cm then 1 else 0)
  }

  /** The millisecond a message of time `ms` gets its id in. */
  ghost function Landing(ms: int, cm: int, free: bool): int {
    if ms < cm then ms else if free then cm else cm - 1
  }

  lemma FitsExactly(node: Node, aux: Counters, ms: int, ceiling: nat)
    requires GoodCounters(aux) && ceiling > 0 && Count(aux, ms) < MAX_SEQ
    ensures Fits(node, aux, ms, ceiling) <==>
            ms < MsOf(ceiling) || (ms == MsOf(ceiling) && FreeSlots(node, aux, ceiling) > 0)
  {
  }

  /** The milliseconds from the one a message lands in up to its own have numbers left. */
  lemma NoneFull(node: Node, aux: Counters, ms: nat, ceiling: nat)
    requires !MeetsFull(node, aux, Below(ms, ceiling)) && ceiling > 0 && MsOf(ceiling) >= 1
    ensures var m := Landing(ms, MsOf(ceiling), FreeSlots(node, aux, ceiling) > 0);
            (forall k :: m <= k <= ms ==> Count(aux, k) < MAX_SEQ) && 0 <= m <= ms
  {
    hide MsOf, FreeSlots, Fits;
    var cm := MsOf(ceiling);
    NoneFitsAbove(node, aux, ceiling);
    assert forall k :: 0 <= k <= ms && k >= cm ==> Count(aux, k) < MAX_SEQ;
    if ms >= cm && FreeSlots(node, aux, ceiling) == 0 {
      FitsNot(node, aux, ceiling);
      assert forall j :: cm - 1 < j <= ms ==> !Fits(node, aux, j, ceiling);
      assert Count(aux, cm - 1) < MAX_SEQ;
    }
  }

  /** After the ceiling's millisecond there are no ids below it. */
  lemma NoneFitsAbove(node: Node, aux: Counters, ceiling: nat)
    requires ceiling > 0
    ensures forall k :: k > MsOf(ceiling) ==> !Fits(node, aux, k, ceiling)
  {
  }

  lemma FitsNot(node: Node, aux: Counters, ceiling: nat)
    requires ceiling > 0 && FreeSlots(node, aux, ceiling) == 0
    ensures !Fits(node, aux, MsOf(ceiling), ceiling)
  {
  }

  lemma NothingUsedUp(aux: Counters, low: int, high: int)
    requires forall k :: low <= k < high ==> Count(aux, k) < MAX_SEQ
    ensures Without(aux, low, high) == aux
  {
    assert UsedUp(aux, low, high) == {};
    assert aux - {} == aux;
  }

  /** A message that meets no used-up counter lands in its own millisecond, or, from the ceiling's
      on, in the ceiling's if that has a free slot and else in the one before. */
  lemma LandsOn(node: Node, aux: Counters, ms: nat, ceiling: nat)
    requires GoodCounters(aux) && !MeetsFull(node, aux, Below(ms, ceiling)) && MsOf(ceiling) >= 1
    ensures var r := MintBelow(node, aux, ms, ceiling);
            var m := Landing(ms, MsOf(ceiling), FreeSlots(node, aux, ceiling) > 0);
            && m >= 0 && Count(aux, m) < MAX_SEQ
            && r.id == Id(node, m, Count(aux, m) + 1) && r.aux == aux[m := Count(aux, m) + 1]
            && GoodCounters(r.aux) && 0 < r.id < ceiling
  {
    hide MintBelow, Id, UsedUp, Without, FreeSlots, MeetsFull, Fits;
    var cm := MsOf(ceiling);
    var m := Landing(ms, cm, FreeSlots(node, aux, ceiling) > 0);
    PositiveMs(ceiling);
    NoneFull(node, aux, ms, ceiling);
    MintBelowIs(node, aux, ms, ceiling);
    forall k | m <= k <= ms
      ensures Fits(node, aux, k, ceiling) <==> k < cm || (k == cm && FreeSlots(node, aux, ceiling) > 0)
    {
      FitsExactly(node, aux, k, ceiling);
    }
    assert Fits(node, aux, m, ceiling);
    var r := MintBelow(node, aux, ms, ceiling);
    assert MsOf(r.id) == m;
    NothingUsedUp(aux, m + 1, ms + 1);
    PositiveId(node, m, Count(aux, m) + 1);
  }

  lemma PositiveMs(id: int)
    requires MsOf(id) >= 1
    ensures id > 0
  {
  }

  lemma PositiveId(node: Node, ms: int, s: nat)
    requires ms >= 0 && s > 0
    ensures Id(node, ms, s) > 0
  {
  }

  lemma FreeAfter(node: Node, aux: Counters, m: int, ceiling: nat)
    requires Count(aux, m) < MAX_SEQ
    ensures FreeSlots(node, aux[m := Count(aux, m) + 1], ceiling) ==
            if m == MsOf(ceiling) && FreeSlots(node, aux, ceiling) > 0 then FreeSlots(node, aux, ceiling) - 1
            else FreeSlots(node, aux, ceiling)
  {
  }

  lemma IdsRise(node: Node, m: int, s: nat, m': int, s': nat)
    requires s <= MAX_SEQ && s' <= MAX_SEQ && (m < m' || (m == m' && s < s'))
    ensures Id(node, m, s) < Id(node, m', s')
  {
    IdOrder(node, m, s, m', s');
  }

  lemma AscendingSnoc(ids: seq<int>, id: int)
    requires StrictlyAscending(ids) && (ids != [] ==> ids[|ids| - 1] < id)
    ensures StrictlyAscending(ids + [id])
  {
  }

  lemma CountAtMost(aux: Counters, ms: int)
    requires GoodCounters(aux)
    ensures Count(aux, ms) <= MAX_SEQ
  {
  }

  lemma NoneAscending()
    ensures StrictlyAscending([])
  {
  }

  /** What a burst has done while no late message was turned away from the ceiling's millisecond. */
  ghost predicate Steady(node: Node, aux: Counters, times: seq<nat>, ceiling: nat) {
    var b, cm, free := BurstBelow(node, aux, times, ceiling), MsOf(ceiling), FreeSlots(node, aux, ceiling);
    && |b.ids| == |times| && StrictlyAscending(b.ids)
    && GoodCounters(b.aux)
    && FreeSlots(node, b.aux, ceiling) == (if free == 0 then 0 else free - Late(times, cm))
    && (times != [] ==>
          var m := Landing(times[|times| - 1], cm, free > 0);
          m >= 0 && b.ids[|times| - 1] == Id(node, m, Count(b.aux, m)))
  }

  lemma QuietPrefix(node: Node, aux: Counters, times: seq<nat>, ceiling: nat, k: nat)
    requires QuietBelow(node, aux, times, ceiling) && k <= |times|
    ensures QuietBelow(node, aux, times[..k], ceiling)
    ensures k < |times| ==> !MeetsFull(node, BurstBelow(node, aux, times[..k], ceiling).aux, Below(times[k], ceiling))
  {
    hide MeetsFull;
    assert forall i :: 0 <= i < k ==> times[..k][..i] == times[..i] && times[..k][i] == times[i];
  }

  lemma {:induction false} SteadyBurst(node: Node, aux: Counters, times: seq<nat>, ceiling: nat)
    requires Chronological(times) && MsOf(ceiling) >= 1
    requires GoodCounters(aux) && QuietBelow(node, aux, times, ceiling)
    requires FreeSlots(node, aux, ceiling) == 0 || Late(times, MsOf(ceiling)) <= FreeSlots(node, aux, ceiling)
    ensures Steady(node, aux, times, ceiling)
  {
    hide Id, MsOf, FreeSlots, MintBelow, MeetsFull, QuietBelow, StrictlyAscending, GoodCounters;
    if times == [] {
      NoneAscending();
    } else {
      var before, t := times[..|times| - 1], times[|times| - 1];
      QuietPrefix(node, aux, times, ceiling, |times| - 1);
      SteadyBurst(node, aux, before, ceiling);
      var b, cm, free := BurstBelow(node, aux, before, ceiling), MsOf(ceiling), FreeSlots(node, aux, ceiling);
      LandsOn(node, b.aux, t, ceiling);
      var m := Landing(t, cm, free > 0);
      FreeAfter(node, b.aux, m, ceiling);
      if before != [] {
        var last := Landing(before[|before| - 1], cm, free > 0);
        assert before[|before| - 1] <= t;
        CountAtMost(b.aux, last);
        IdsRise(node, last, Count(b.aux, last), m, Count(b.aux, m) + 1);
      }
      AscendingSnoc(b.ids, Id(node, m, Count(b.aux, m) + 1));
    }
  }

  lemma {:induction false} BurstPrefix(node: Node, aux: Counters, times: seq<nat>, ceiling: nat, k: nat)
    requires k <= |times|
    ensures |BurstBelow(node, aux, times, ceiling).ids| == |times|
    ensures BurstBelow(node, aux, times[..k], ceiling).ids == BurstBelow(node, aux, times, ceiling).ids[..k]
  {
    hide MintBelow;
    if k < |times| {
      var before := times[..|times| - 1];
      BurstPrefix(node, aux, before, ceiling, k);
      assert before[..k] == times[..k];
    } else {
      assert times[..k] == times;
      if times != [] {
        BurstPrefix(node, aux, times[..|times| - 1], ceiling, 0);
      }
    }
  }

  lemma {:induction false} LateAreLast(times: seq<nat>, cm: int)
    requires Chronological(times)
    ensures Late(times, cm) <= |times|
    ensures forall i :: 0 <= i < |times| ==> (times[i] >= cm <==> i >= |times| - Late(times, cm))
  {
    if times != [] {
      var n := |times| - 1;
      LateAreLast(times[..n], cm);
      assert forall i :: 0 <= i < n ==> times[..n][i] == times[i];
      if times[n] < cm {
        assert forall i :: 0 <= i < n ==> times[i] <= times[n];
      }
    }
  }

  lemma {:induction false} LatePrefix(times: seq<nat>, cm: int, k: nat)
    requires Chronological(times) && k <= |times|
    ensures Late(times[..k], cm) == if k <= |times| - Late(times, cm) then 0 else k - (|times| - Late(times, cm))
  {
    LateAreLast(times, cm);
    if k > 0 {
      LatePrefix(times, cm, k - 1);
      assert times[..k][..k - 1] == times[..k - 1];
    }
  }

  /** With the free slots used up by late messages the next one gets an id below the last. */
  lemma NextFallsBack(node: Node, aux: Counters, before: seq<nat>, t: nat, ceiling: nat)
    requires Steady(node, aux, before, ceiling) && before != [] && MsOf(ceiling) >= 1
    requires !MeetsFull(node, BurstBelow(node, aux, before, ceiling).aux, Below(t, ceiling))
    requires 0 < FreeSlots(node, aux, ceiling) == Late(before, MsOf(ceiling))
    requires before[|before| - 1] >= MsOf(ceiling) && t >= MsOf(ceiling)
    ensures var ids := BurstBelow(node, aux, before + [t], ceiling).ids;
            |ids| == |before| + 1 && ids[|before|] < ids[|before| - 1]
  {
    hide Id, MsOf, FreeSlots, MintBelow, Late, MeetsFull;
    var cm, b := MsOf(ceiling), BurstBelow(node, aux, before, ceiling);
    LandsOn(node, b.aux, t, ceiling);
    assert (before + [t])[..|before|] == before;
    IdsRise(node, cm - 1, Count(b.aux, cm - 1) + 1, cm, Count(b.aux, cm));
  }

  /** One more late message than free slots: it gets an id below the one before it. */
  lemma OverflowFallsBack(node: Node, aux: Counters, times: seq<nat>, ceiling: nat)
    requires Chronological(times) && MsOf(ceiling) >= 1
    requires GoodCounters(aux) && QuietBelow(node, aux, times, ceiling)
    requires 0 < FreeSlots(node, aux, ceiling) < Late(times, MsOf(ceiling))
    ensures !StrictlyAscending(BurstBelow(node, aux, times, ceiling).ids)
  {
    hide Id, MsOf, FreeSlots, MintBelow, BurstBelow, Steady, Late, MeetsFull, QuietBelow;
    var cm, free := MsOf(ceiling), FreeSlots(node, aux, ceiling);
    LateAreLast(times, cm);
    var k := |times| - Late(times, cm) + free;
    var before := times[..k];
    LatePrefix(times, cm, k);
    QuietPrefix(node, aux, times, ceiling, k);
    SteadyBurst(node, aux, before, ceiling);
    assert before[k - 1] == times[k - 1] >= cm;
    NextFallsBack(node, aux, before, times[k], ceiling);
    assert before + [times[k]] == times[..k + 1];
    BurstPrefix(node, aux, times, ceiling, k + 1);
    var ids := BurstBelow(node, aux, times, ceiling).ids;
    assert ids[..k + 1][k] == ids[k] && ids[..k + 1][k - 1] == ids[k - 1];
  }

  /** Backfilled messages, minted in order of time, get ids in order of time exactly when the
      ceiling's millisecond has no free slot below the ceiling or enough of them for all
      messages from that millisecond on; if none of them meets a used-up counter. */
  lemma BackfillOrder(node: Node, aux: Counters, times: seq<nat>, ceiling: nat)
    requires Chronological(times) && MsOf(ceiling) >= 1
    requires GoodCounters(aux) && QuietBelow(node, aux, times, ceiling)
    ensures var free := FreeSlots(node, aux, ceiling);
            StrictlyAscending(BurstBelow(node, aux, times, ceiling).ids)
            <==> free == 0 || Late(times, MsOf(ceiling)) <= free
  {
    hide Id, MsOf, FreeSlots, MintBelow, QuietBelow;
    var free := FreeSlots(node, aux, ceiling);
    if free == 0 || Late(times, MsOf(ceiling)) <= free {
      SteadyBurst(node, aux, times, ceiling);
    } else {
      OverflowFallsBack(node, aux, times, ceiling);
    }
  }

  /** However they are ordered, all of them are below the ceiling. */
  lemma {:induction false} BackfillBelow(node: Node, aux: Counters, times: seq<nat>, ceiling: nat)
    requires GoodCounters(aux) && ceiling > 0
    ensures var b := BurstBelow(node, aux, times, ceiling);
            GoodCounters(b.aux) && |b.ids| == |times| && forall i :: 0 <= i < |b.ids| ==> b.ids[i] < ceiling
  {
    hide MintBelow;
    if times != [] {
      var before := times[..|times| - 1];
      BackfillBelow(node, aux, before, ceiling);
      MintBelowIs(node, BurstBelow(node, aux, before, ceiling).aux, times[|times| - 1], ceiling);
    }
  }

  lemma LandsOnOwn(node: Node, aux: Counters, ms: nat)
    requires GoodCounters(aux) && !MeetsFull(node, aux, At(ms))
    ensures Count(aux, ms) < MAX_SEQ
    ensures var r := MintAt(node, aux, ms);
            && r.id == Id(node, ms, Count(aux, ms) + 1) && MsOf(r.id) == ms
            && r.aux == aux[ms := Count(aux, ms) + 1] && GoodCounters(r.aux)
  {
    hide Id, MsOf, MintAt, UsedUp, Without;
    MintAtIs(node, aux, ms);
    NothingUsedUp(aux, ms, ms);
  }

  lemma QuietAtPrefix(node: Node, aux: Counters, times: seq<nat>)
    requires QuietAt(node, aux, times) && times != []
    ensures var n := |times| - 1;
            QuietAt(node, aux, times[..n]) && !MeetsFull(node, BurstAt(node, aux, times[..n]).aux, At(times[n]))
  {
    hide MeetsFull;
    var n := |times| - 1;
    assert forall i :: 0 <= i < n ==> times[..n][..i] == times[..i] && times[..n][i] == times[i];
  }

  /** Prefilled messages, minted in order of time, always get ids in that order and carry
      their own times, as long as none of them meets a used-up counter. */
  lemma {:induction false} PrefillOrder(node: Node, aux: Counters, times: seq<nat>)
    requires Chronological(times) && GoodCounters(aux) && QuietAt(node, aux, times)
    ensures var b := BurstAt(node, aux, times);
            && |b.ids| == |times| && StrictlyAscending(b.ids) && GoodCounters(b.aux)
            && (forall i :: 0 <= i < |times| ==> MsOf(b.ids[i]) == times[i])
            && (times != [] ==> b.ids[|times| - 1] == Id(node, times[|times| - 1], Count(b.aux, times[|times| - 1])))
  {
    hide Id, MsOf, MintAt, MeetsFull, QuietAt;
    if times != [] {
      var before, t := times[..|times| - 1], times[|times| - 1];
      QuietAtPrefix(node, aux, times);
      PrefillOrder(node, aux, before);
      var b := BurstAt(node, aux, before);
      LandsOnOwn(node, b.aux, t);
      if before != [] {
        var last := before[|before| - 1];
        assert last == times[|times| - 2] <= t;
        IdsRise(node, last, Count(b.aux, last), t, Count(b.aux, t) + 1);
      }
      AscendingSnoc(b.ids, Id(node, t, Count(b.aux, t) + 1));
    }
  }
}
