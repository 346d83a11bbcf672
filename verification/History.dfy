/** Applying a batch of chat history to the message buffer. */
module History {
  import opened Basics
  import opened Snowflake
  import opened MessageRing

  /** One message of a history batch; `at` is its time in Unix nanoseconds. */
  datatype ChatFrame = ChatFrame(target: string, author: string, content: string, at: int,
                                 msgid: string, extras: seq<string>)

  // ---------- sorting ----------

  ghost predicate ByTime(frames: seq<ChatFrame>) {
    forall i, j :: 0 <= i <= j < |frames| ==> frames[i].at <= frames[j].at
  }

  /** The first `i` frames are in order and no later frame is before any of them. */
  ghost predicate SortedUpTo(frames: seq<ChatFrame>, i: nat) {
    forall k, l :: 0 <= k < i && k <= l < |frames| ==> frames[k].at <= frames[l].at
  }

  ghost function SwappedAt(s: seq<ChatFrame>, i: nat, j: nat): seq<ChatFrame>
    requires i < |s| && j < |s|
  {
    s[i := s[j]][j := s[i]]
  }

  lemma SwapKeepsAll(s: seq<ChatFrame>, i: nat, j: nat)
    requires i < j < |s|
    ensures multiset(SwappedAt(s, i, j)) == multiset(s)
  {
    assert s == s[..i] + [s[i]] + s[i + 1..j] + [s[j]] + s[j + 1..];
    assert SwappedAt(s, i, j) == s[..i] + [s[j]] + s[i + 1..j] + [s[i]] + s[j + 1..];
  }

  ghost predicate Permutes(s: seq<ChatFrame>, t: seq<ChatFrame>) {
    multiset(s) == multiset(t)
  }

  /** `s` has its earliest frame from `i` on, as far as `j`, at `i`. */
  ghost predicate EarliestAt(s: seq<ChatFrame>, i: nat, j: nat) {
    i < |s| && j <= |s| && forall l :: i <= l < j ==> s[i].at <= s[l].at
  }

  lemma SwapStep(s: seq<ChatFrame>, i: nat, j: nat)
    requires i < j < |s| && SortedUpTo(s, i) && EarliestAt(s, i, j)
    ensures s[j].at >= s[i].at ==> EarliestAt(s, i, j + 1)
    ensures s[j].at < s[i].at ==> SortedUpTo(SwappedAt(s, i, j), i) && EarliestAt(SwappedAt(s, i, j), i, j + 1)
    ensures Permutes(SwappedAt(s, i, j), s)
  {
    SwapKeepsAll(s, i, j);
  }

  lemma OneMoreSorted(s: seq<ChatFrame>, i: nat)
    requires SortedUpTo(s, i) && EarliestAt(s, i, |s|)
    ensures SortedUpTo(s, i + 1)
  {
  }

  method ExchangeIfEarlier(a: array<ChatFrame>, i: nat, j: nat)
    requires i < j < a.Length
    modifies a
    ensures a[..] == if old(a[j].at < a[i].at) then SwappedAt(old(a[..]), i, j) else old(a[..])
  {
    if a[j].at < a[i].at {
      a[i], a[j] := a[j], a[i];
    }
  }

  lemma AllSorted(s: seq<ChatFrame>, n: nat)
    requires SortedUpTo(s, n) && n == |s|
    ensures ByTime(s)
  {
  }

  lemma NoneSorted(s: seq<ChatFrame>, i: nat)
    ensures SortedUpTo(s, 0) && Permutes(s, s)
    ensures i < |s| ==> EarliestAt(s, i, i + 1)
  {
  }

  lemma PermutesTrans(s: seq<ChatFrame>, t: seq<ChatFrame>, u: seq<ChatFrame>)
    requires Permutes(s, t) && Permutes(t, u)
    ensures Permutes(s, u)
  {
  }

  /** The exchange sort puts the frames in order of time and loses none. */
  method ExchangeSort(a: array<ChatFrame>)
    modifies a
    ensures ByTime(a[..])
    ensures Permutes(a[..], old(a[..]))
  {
    hide SortedUpTo, EarliestAt, SwappedAt, Permutes, ByTime;
    NoneSorted(a[..], 0);
    for i := 0 to a.Length
      invariant SortedUpTo(a[..], i) && Permutes(a[..], old(a[..]))
    {
      NoneSorted(a[..], i);
      for j := i + 1 to a.Length
        invariant SortedUpTo(a[..], i) && Permutes(a[..], old(a[..]))
        invariant EarliestAt(a[..], i, j)
      {
        ghost var s := a[..];
        SwapStep(s, i, j);
        ExchangeIfEarlier(a, i, j);
        PermutesTrans(if s[j].at < s[i].at then SwappedAt(s, i, j) else s, s, old(a[..]));
      }
      OneMoreSorted(a[..], i);
    }
    AllSorted(a[..], a.Length);
  }

  // ---------- applying ----------

  /** What a batch is applied with: the id generator's node, whether it is a live prefill,
      the id the new ones must stay below, if any, the present, which buffer channel a
      target has, and how a frame's text is rendered. */
  datatype Setting = Setting(node: Node, live: bool, ceiling: Option<nat>, now: int,
                             channelOf: string -> Option<string>, render: ChatFrame -> string)

  /** The buffer and the counters, and of the messages inserted so far the times and ids. */
  datatype State = State(rows: Rows, index: map<string, Key>, aux: Counters, times: seq<nat>, ids: seq<int>)

  const NANOS_PER_MS: int := 1000000

  predicate IsChannelName(target: string) {
    target != "" && (target[0] == '#' || target[0] == '&')
  }

  /** The Unix millisecond a frame is stored under: its own, but not after the present. */
  function FrameMs(f: ChatFrame, now: int): int {
    (if f.at > now then now else f.at) / NANOS_PER_MS
  }

  /** The millisecond since the epoch it gets its id for. */
  function MsFor(f: ChatFrame, now: int): nat {
    Clamped(FrameMs(f, now) - DISCORD_EPOCH)
  }

  predicate Accepted(c: Setting, index: map<string, Key>, f: ChatFrame) {
    IsChannelName(f.target) && (f.msgid == "" || f.msgid !in index) && c.channelOf(f.target).Some?
  }

  ghost function Minted(c: Setting, aux: Counters, ms: nat): Mint {
    if c.live || c.ceiling.None? then MintAt(c.node, aux, ms) else MintBelow(c.node, aux, ms, c.ceiling.value)
  }

  ghost function IndexedAll(index: map<string, Key>, msgids: seq<string>, k: Key): map<string, Key> {
    if msgids == [] then index
    else
      var m := msgids[|msgids| - 1];
      var before := IndexedAll(index, msgids[..|msgids| - 1], k);
      if m == "" then before else before[m := k]
  }

  /** The index once a row with the msgids of a frame was appended to give `rows`. */
  ghost function Bound(index: map<string, Key>, rows: Rows, k: Key, f: ChatFrame): map<string, Key> {
    if f.msgid == "" then index
    else IndexedAll(if k in rows then index[f.msgid := k] else index, f.extras, k)
  }

  ghost function ApplyOne(c: Setting, s: State, f: ChatFrame): State {
    if !Accepted(c, s.index, f) then s
    else
      var ms := MsFor(f, c.now);
      var channel, r := c.channelOf(f.target).value, Minted(c, s.aux, ms);
      var rows := Appended(s.rows, channel, r.id, Row(c.render(f), FrameMs(f, c.now), f.msgid));
      State(rows, Bound(s.index, rows, Key(channel, r.id), f), r.aux, s.times + [ms], s.ids + [r.id])
  }

  ghost function ApplyAll(c: Setting, s: State, frames: seq<ChatFrame>): State {
    if frames == [] then s else ApplyOne(c, ApplyAll(c, s, frames[..|frames| - 1]), frames[|frames| - 1])
  }

  /** The frames sorted by time, applied one after another. */
  ghost function Applied(c: Setting, rows: Rows, index: map<string, Key>, aux: Counters,
      frames: seq<ChatFrame>): State {
    ApplyAll(c, State(rows, index, aux, [], []), frames)
  }

  method IndexExtras(store: Store, msgids: seq<string>, channel: string, id: int)
    modifies store`index
    ensures store.index == IndexedAll(old(store.index), msgids, Key(channel, id))
  {
    for i := 0 to |msgids|
      invariant store.index == IndexedAll(old(store.index), msgids[..i], Key(channel, id))
    {
      assert msgids[..i + 1][..i] == msgids[..i];
      store.IndexMessageMsgID(msgids[i], channel, id);
    }
    assert msgids[..|msgids|] == msgids;
  }

  method MintFor(gen: Generator, c: Setting, ts: int) returns (id: int)
    requires gen.Valid() && gen.node == c.node
    modifies gen`aux
    ensures gen.Valid() && Mint(id, gen.aux) == Minted(c, old(gen.aux), Clamped(ts - DISCORD_EPOCH))
  {
    hide MintAt, MintBelow, Id;
    if c.live || c.ceiling.None? {
      id := gen.NewAt(ts);
    } else {
      id := gen.NewBelow(ts, c.ceiling.value);
    }
  }

  /** A row into the buffer, and its msgids into the index. */
  method StoreFrame(store: Store, channel: string, id: int, row: Row, f: ChatFrame)
    requires row.msgid == f.msgid
    modifies store
    ensures store.rows == Appended(old(store.rows), channel, id, row)
    ensures store.index == Bound(old(store.index), store.rows, Key(channel, id), f)
  {
    hide Appended;
    store.AppendMessage(channel, id, row);
    if f.msgid != "" {
      ghost var rows := store.rows;
      AppendedRow(old(store.rows), channel, id, row);
      var ok := store.SetMessageMsgID(channel, id, f.msgid);
      assert store.rows == rows;
      IndexExtras(store, f.extras, channel, id);
    }
  }

  /** One step of the flush: filtering, deduplication, minting, appending and indexing. */
  method ApplyFrame(store: Store, gen: Generator, c: Setting, f: ChatFrame, ghost s: State)
    returns (stored: Option<int>, ghost t: State)
    requires gen.Valid() && gen.node == c.node
    requires s.rows == store.rows && s.index == store.index && s.aux == gen.aux
    modifies store, gen`aux
    ensures gen.Valid() && t == ApplyOne(c, s, f)
    ensures stored == if Accepted(c, s.index, f) then Some(t.ids[|s.ids|]) else None
    ensures t.rows == store.rows && t.index == store.index && t.aux == gen.aux
  {
    hide MintAt, MintBelow, Appended, Id, Bound, Minted;
    t := ApplyOne(c, s, f);
    if !IsChannelName(f.target) {
      return None, t;
    }
    if f.msgid != "" && f.msgid in store.index {
      return None, t;
    }
    var ts := if f.at > c.now then c.now else f.at;
    ts := ts / NANOS_PER_MS;
    var ch := c.channelOf(f.target);
    if ch == None {
      return None, t;
    }
    var id := MintFor(gen, c, ts);
    StoreFrame(store, ch.value, id, Row(c.render(f), ts, f.msgid), f);
    return Some(id), t;
  }

  lemma AppendedRow(rows: Rows, channel: string, id: int, row: Row)
    ensures var after := Appended(rows, channel, id, row);
            Key(channel, id) in after ==> after[Key(channel, id)] == row && after[Key(channel, id) := row] == after
  {
  }

  /** Applies frames one by one; those of a live batch go out to attached clients. */
  method ApplyFrames(store: Store, gen: Generator, c: Setting, frames: seq<ChatFrame>)
    returns (inserted: nat, sent: seq<int>)
    requires gen.Valid() && gen.node == c.node
    modifies store, gen`aux
    ensures gen.Valid()
    ensures var t := Applied(c, old(store.rows), old(store.index), old(gen.aux), frames);
            && t.rows == store.rows && t.index == store.index && t.aux == gen.aux
            && inserted == |t.ids| && sent == if c.live then t.ids else []
  {
    hide ApplyOne, Accepted, GoodCounters;
    inserted, sent := 0, [];
    ghost var s0 := State(store.rows, store.index, gen.aux, [], []);
    ghost var s := s0;
    for i := 0 to |frames|
      invariant gen.Valid() && s == ApplyAll(c, s0, frames[..i])
      invariant s.rows == store.rows && s.index == store.index && s.aux == gen.aux
      invariant inserted == |s.ids| && sent == if c.live then s.ids else []
    {
      ApplyOneGrows(c, s, frames[i]);
      assert frames[..i + 1][..i] == frames[..i];
      var stored;
      stored, s := ApplyFrame(store, gen, c, frames[i], s);
      if stored.Some? {
        if c.live {
          sent := sent + [stored.value];
        }
        inserted := inserted + 1;
      }
    }
    assert frames[..|frames|] == frames;
  }

  /** Applies a whole batch, and says how many messages it inserted, for which target, if any, the
      history counts as fetched from now on, and which messages go out to attached clients. */
  method FlushChatBatch(store: Store, gen: Generator, c: Setting, target: string, batch: seq<ChatFrame>)
    returns (inserted: nat, marked: Option<string>, sent: seq<int>, ghost frames: seq<ChatFrame>)
    requires gen.Valid() && gen.node == c.node
    modifies store, gen`aux
    ensures gen.Valid()
    ensures marked == if c.live && target != "" then Some(target) else None
    ensures ByTime(frames) && Permutes(frames, batch)
    ensures var t := Applied(c, old(store.rows), old(store.index), old(gen.aux), frames);
            && t.rows == store.rows && t.index == store.index && t.aux == gen.aux
            && inserted == |t.ids| && sent == if c.live then t.ids else []
  {
    hide Applied, Permutes, ByTime, GoodCounters;
    marked := if c.live && target != "" then Some(target) else None;
    var a := new ChatFrame[|batch|](i requires 0 <= i < |batch| => batch[i]);
    assert a[..] == batch;
    ExchangeSort(a);
    var sorted := a[..];
    frames := sorted;
    inserted, sent := ApplyFrames(store, gen, c, sorted);
  }

  lemma ApplyOneGrows(c: Setting, s: State, f: ChatFrame)
    ensures |ApplyOne(c, s, f).ids| == |s.ids| + (if Accepted(c, s.index, f) then 1 else 0)
    ensures s.ids == ApplyOne(c, s, f).ids[..|s.ids|]
  {
  }
}
