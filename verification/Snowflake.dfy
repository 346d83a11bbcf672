/** Snowflake ids: a millisecond, the generator's node and a sequence number in one number. */
module Snowflake {
  import opened Ordered

  const DISCORD_EPOCH: int := 1420070400000
  const MAX_SEQ: nat := 4095
  const MS_UNIT: int := 4194304

  /** A generator's node: its five worker bits and five process bits. */
  type Node = n: int | 0 <= n < 1024

  function NodeOf(worker: int, process: int): Node {
    worker % 32 * 32 + process % 32
  }

  /** The id with a sequence number of at most twelve bits. */
  function Id(node: Node, ms: int, seqNo: nat): int {
    ms * MS_UNIT + node * 4096 + seqNo
  }

  /** The milliseconds since the epoch an id carries. */
  function MsOf(id: int): int {
    id / MS_UNIT
  }

  function SnowflakeTime(id: int): int {
    MsOf(id) + DISCORD_EPOCH
  }

  /** The time is read back from an id. */
  lemma IdTime(node: Node, ms: int, seqNo: nat)
    requires seqNo <= MAX_SEQ
    ensures MsOf(Id(node, ms, seqNo)) == ms && SnowflakeTime(Id(node, ms, seqNo)) == ms + DISCORD_EPOCH
  {
  }

  /** Ids of one node compare by time, then by sequence number. */
  lemma IdOrder(node: Node, ms: int, seqNo: nat, ms': int, seqNo': nat)
    requires seqNo <= MAX_SEQ && seqNo' <= MAX_SEQ
    ensures Id(node, ms, seqNo) < Id(node, ms', seqNo') <==> ms < ms' || (ms == ms' && seqNo < seqNo')
  {
  }

  /** The three fields of an id are read back from it. */
  lemma IdFields(node: Node, ms: int, seqNo: nat)
    requires seqNo <= MAX_SEQ
    ensures MsOf(Id(node, ms, seqNo)) == ms && SnowflakeTime(Id(node, ms, seqNo)) == ms + DISCORD_EPOCH
    ensures Id(node, ms, seqNo) % 4096 == seqNo && Id(node, ms, seqNo) / 4096 % 1024 == node
  {
    IdTime(node, ms, seqNo);
    var rest := node * 4096 + seqNo;
    assert Id(node, ms, seqNo) == 4096 * (ms * 1024 + node) + seqNo;
    assert Id(node, ms, seqNo) / 4096 == ms * 1024 + node;
  }

  /** Bit by bit: 42 bits of time since the first millisecond of 2015, then five of the worker,
      five of the process and twelve of the sequence number. */
  lemma IdBits(worker: int, process: int, ms: nat, seqNo: nat)
    requires 0 <= worker < 32 && 0 <= process < 32 && seqNo <= 4095
    ensures var id := Id(NodeOf(worker, process), ms, seqNo);
            && id / 4194304 == ms && id / 131072 % 32 == worker && id / 4096 % 32 == process && id % 4096 == seqNo
            && SnowflakeTime(id) == ms + 1420070400000
  {
    hide Id, NodeOf;
    var id, high := Id(NodeOf(worker, process), ms, seqNo), 32 * ms + worker;
    Packed(worker, process, ms, seqNo);
    ByPages(32 * high + process, seqNo);
    ByWorkers(high, 4096 * process + seqNo);
    ByFives(high, process);
    ByFives(ms, worker);
    IdTime(NodeOf(worker, process), ms, seqNo);
  }

  lemma Packed(worker: int, process: int, ms: nat, seqNo: nat)
    requires 0 <= worker < 32 && 0 <= process < 32
    ensures var id, high := Id(NodeOf(worker, process), ms, seqNo), 32 * ms + worker;
            id == 4096 * (32 * high + process) + seqNo == 131072 * high + (4096 * process + seqNo)
  {
  }

  lemma ByFives(high: nat, low: nat)
    requires low < 32
    ensures (32 * high + low) % 32 == low
  {
  }

  lemma ByPages(high: nat, low: nat)
    requires low < 4096
    ensures (4096 * high + low) / 4096 == high && (4096 * high + low) % 4096 == low
  {
  }

  lemma ByWorkers(high: nat, low: nat)
    requires low < 131072
    ensures (131072 * high + low) / 131072 == high
  {
  }

  // ---------- ids by the clock ----------

  /** The millisecond and the sequence number last used. */
  datatype Tick = Tick(ms: int, seqNo: nat)

  /** The next one, whatever the clock says: a clock that stands still or runs back only
      moves the sequence on, into the next millisecond when it is used up. */
  function NextTick(t: Tick, ms: int): Tick {
    if ms <= t.ms then
      var s := (t.seqNo + 1) % 4096;
      Tick(if s == 0 then t.ms + 1 else t.ms, s)
    else Tick(ms, 0)
  }

  function TickAfter(clock: seq<int>): (t: Tick)
    ensures t.seqNo <= MAX_SEQ && t.ms >= 0
  {
    if clock == [] then Tick(0, 0) else NextTick(TickAfter(clock[..|clock| - 1]), clock[|clock| - 1])
  }

  /** Ids rise strictly for every clock trace, and none is dated before its clock reading. */
  lemma {:induction false} NextRises(node: Node, clock: seq<int>, i: nat)
    requires i < |clock|
    ensures var t, u := TickAfter(clock[..i]), TickAfter(clock);
            Id(node, t.ms, t.seqNo) < Id(node, u.ms, u.seqNo)
    ensures TickAfter(clock).ms >= clock[|clock| - 1]
  {
    hide Id, MsOf;
    var before := clock[..|clock| - 1];
    var t, u := TickAfter(before), TickAfter(clock);
    IdOrder(node, t.ms, t.seqNo, u.ms, u.seqNo);
    if i < |before| {
      assert before[..i] == clock[..i];
      NextRises(node, before, i);
    } else {
      assert clock[..i] == before;
    }
  }

  /** The next id is the least there is above the last one and not before the clock. */
  lemma NextIsLeast(node: Node, t: Tick, clock: int, ms: int, s: nat)
    requires t.seqNo <= MAX_SEQ && s <= MAX_SEQ && ms >= clock
    requires Id(node, ms, s) > Id(node, t.ms, t.seqNo)
    ensures var u := NextTick(t, clock); Id(node, u.ms, u.seqNo) <= Id(node, ms, s)
  {
    hide Id;
    var u := NextTick(t, clock);
    IdOrder(node, t.ms, t.seqNo, ms, s);
    IdOrder(node, ms, s, u.ms, u.seqNo);
  }

  // ---------- ids by a message's own time ----------

  /** How many ids each millisecond has handed out. */
  type Counters = map<int, nat>

  function Count(aux: Counters, ms: int): nat {
    if ms in aux then aux[ms] else 0
  }

  /** An id and the counters after it; 0 is no id. */
  datatype Mint = Mint(id: int, aux: Counters)

  ghost predicate GoodCounters(aux: Counters) {
    forall ms :: ms in aux ==> ms >= 0 && 0 < aux[ms] <= MAX_SEQ
  }

  ghost function MintAt(node: Node, aux: Counters, ms: int): Mint
    decreases |aux|
  {
    if Count(aux, ms) >= MAX_SEQ && ms in aux then MintAt(node, aux - {ms}, ms + 1)
    else Mint(Id(node, ms, Count(aux, ms) + 1), aux[ms := Count(aux, ms) + 1])
  }

  ghost function MintBelow(node: Node, aux: Counters, ms: int, ceiling: int): Mint
    decreases ms + 1
  {
    if ms < 0 then Mint(0, aux)
    else if Count(aux, ms) >= MAX_SEQ then MintBelow(node, aux - {ms}, ms - 1, ceiling)
    else if ceiling == 0 || Id(node, ms, Count(aux, ms) + 1) < ceiling then
      Mint(Id(node, ms, Count(aux, ms) + 1), aux[ms := Count(aux, ms) + 1])
    else MintBelow(node, aux, ms - 1, ceiling)
  }

  /** Does millisecond `ms` have an id left below the ceiling? */
  ghost predicate Fits(node: Node, aux: Counters, ms: int, ceiling: int) {
    Count(aux, ms) < MAX_SEQ && (ceiling == 0 || Id(node, ms, Count(aux, ms) + 1) < ceiling)
  }

  /** Milliseconds whose counter is used up. */
  ghost function UsedUp(aux: Counters, low: int, high: int): set<int> {
    set ms | low <= ms < high && Count(aux, ms) >= MAX_SEQ
  }

  /** The counters left when those of the used-up milliseconds of a range are deleted. */
  ghost function Without(aux: Counters, low: int, high: int): Counters {
    aux - UsedUp(aux, low, high)
  }

  lemma WithoutNone(aux: Counters, low: int)
    ensures Without(aux, low, low) == aux
  {
    assert UsedUp(aux, low, low) == {};
  }

  /** Deleting a used-up counter and going on, upwards or downwards. */
  lemma WithoutStep(aux: Counters, ms: int, low: int, high: int)
    requires low <= ms < high
    ensures var less := if Count(aux, ms) >= MAX_SEQ then aux - {ms} else aux;
            && (forall k :: k != ms ==> Count(less, k) == Count(aux, k))
            && (low == ms ==> Without(less, ms + 1, high) == Without(aux, low, high))
            && (high == ms + 1 ==> Without(less, low, ms) == Without(aux, low, high))
  {
    var step := if Count(aux, ms) >= MAX_SEQ then {ms} else {};
    var less := if Count(aux, ms) >= MAX_SEQ then aux - {ms} else aux;
    assert less == aux - step;
    assert low == ms ==> UsedUp(aux, low, high) == step + UsedUp(less, ms + 1, high);
    assert high == ms + 1 ==> UsedUp(aux, low, high) == step + UsedUp(less, low, ms);
  }

  /** The mint landed on millisecond `m`: its id is the next one there, and the used-up
      milliseconds between `m` and the one asked for have lost their counters. */
  ghost predicate Landed(node: Node, aux: Counters, m: int, low: int, high: int, r: Mint) {
    && r.id == Id(node, m, Count(aux, m) + 1)
    && r.aux == Without(aux, low, high)[m := Count(aux, m) + 1]
    && GoodCounters(r.aux)
  }

  lemma LandHere(node: Node, aux: Counters, ms: int, low: int)
    requires GoodCounters(aux) && ms >= 0 && Count(aux, ms) < MAX_SEQ
    ensures Landed(node, aux, ms, low, low, Mint(Id(node, ms, Count(aux, ms) + 1), aux[ms := Count(aux, ms) + 1]))
    ensures MsOf(Id(node, ms, Count(aux, ms) + 1)) == ms
  {
    IdTime(node, ms, Count(aux, ms) + 1);
    WithoutNone(aux, low);
  }

  /** A time-anchored id lands on the first millisecond from its own on that has one left. */
  lemma {:induction false} MintAtIs(node: Node, aux: Counters, ms: int)
    requires GoodCounters(aux) && ms >= 0
    ensures var r := MintAt(node, aux, ms); var m := MsOf(r.id);
            && m >= ms && Count(aux, m) < MAX_SEQ
            && (forall k :: ms <= k < m ==> Count(aux, k) >= MAX_SEQ)
            && Landed(node, aux, m, ms, m, r)
    decreases |aux|
  {
    hide Id, MsOf, UsedUp, Without;
    if Count(aux, ms) >= MAX_SEQ {
      var less := aux - {ms};
      assert |less| < |aux| by {
        assert aux.Keys == less.Keys + {ms};
      }
      MintAtIs(node, less, ms + 1);
      WithoutStep(aux, ms, ms, MsOf(MintAt(node, less, ms + 1).id));
    } else {
      LandHere(node, aux, ms, ms);
    }
  }

  /** An id below a ceiling lands on the last millisecond up to its own that has one left
      below the ceiling; there is none exactly when no millisecond has. */
  lemma {:induction false} MintBelowIs(node: Node, aux: Counters, ms: int, ceiling: int)
    requires GoodCounters(aux) && ms >= -1 && ceiling >= 0
    ensures var r := MintBelow(node, aux, ms, ceiling); var m := MsOf(r.id);
            && GoodCounters(r.aux)
            && (ceiling > 0 ==> r.id < ceiling)
            && (r.id == 0 <==> forall k :: 0 <= k <= ms ==> !Fits(node, aux, k, ceiling))
            && (r.id == 0 ==> r.aux == Without(aux, 0, ms + 1))
            && (r.id != 0 ==>
                  && 0 <= m <= ms && Fits(node, aux, m, ceiling)
                  && (forall k :: m < k <= ms ==> !Fits(node, aux, k, ceiling))
                  && Landed(node, aux, m, m + 1, ms + 1, r))
    decreases ms + 1
  {
    hide MsOf, UsedUp, Without;
    if ms < 0 {
      WithoutNone(aux, ms + 1);
    } else if Fits(node, aux, ms, ceiling) {
      LandHere(node, aux, ms, ms + 1);
    } else {
      var less := if Count(aux, ms) >= MAX_SEQ then aux - {ms} else aux;
      MintBelowIs(node, less, ms - 1, ceiling);
      var m := MsOf(MintBelow(node, less, ms - 1, ceiling).id);
      WithoutStep(aux, ms, 0, ms + 1);
      if m < ms {
        WithoutStep(aux, ms, m + 1, ms + 1);
      }
      assert forall k :: k < ms ==> (Fits(node, less, k, ceiling) <==> Fits(node, aux, k, ceiling));
    }
  }

  lemma MintAtStep(node: Node, aux: Counters, ms: int)
    ensures MintAt(node, aux, ms) ==
            if Count(aux, ms) >= MAX_SEQ then MintAt(node, aux - {ms}, ms + 1)
            else Mint(Id(node, ms, Count(aux, ms) + 1), aux[ms := Count(aux, ms) + 1])
  {
  }

  lemma MintBelowStep(node: Node, aux: Counters, ms: int, ceiling: int)
    requires ms >= 0
    ensures MintBelow(node, aux, ms, ceiling) ==
            if Count(aux, ms) >= MAX_SEQ then MintBelow(node, aux - {ms}, ms - 1, ceiling)
            else if ceiling == 0 || Id(node, ms, Count(aux, ms) + 1) < ceiling then
              Mint(Id(node, ms, Count(aux, ms) + 1), aux[ms := Count(aux, ms) + 1])
            else MintBelow(node, aux, ms - 1, ceiling)
  {
  }

  /** The counters without a used-up one. */
  lemma LessIsGood(aux: Counters, ms: int)
    requires GoodCounters(aux) && Count(aux, ms) >= MAX_SEQ
    ensures GoodCounters(aux - {ms}) && |aux - {ms}| < |aux|
  {
    assert aux.Keys == (aux - {ms}).Keys + {ms};
  }

  /** The counters after one more id. */
  lemma MoreIsGood(aux: Counters, ms: int)
    requires GoodCounters(aux) && ms >= 0 && Count(aux, ms) < MAX_SEQ
    ensures GoodCounters(aux[ms := Count(aux, ms) + 1])
  {
  }

  function Clamped(ms: int): int {
    if ms < 0 then 0 else ms
  }

  class Generator {
    const node: Node
    var lastMs: int
    var seqNo: nat
    var aux: Counters

    ghost predicate Valid()
      reads this
    {
      seqNo <= MAX_SEQ && lastMs >= 0 && GoodCounters(aux)
    }

    constructor (worker: int, process: int)
      ensures Valid() && node == NodeOf(worker, process)
      ensures lastMs == 0 && seqNo == 0 && aux == map[]
    {
      node := NodeOf(worker, process);
      lastMs, seqNo, aux := 0, 0, map[];
    }

    /** An id of the present moment, `now` in Unix milliseconds. */
    method Next(now: int) returns (id: int)
      requires Valid()
      modifies this`lastMs, this`seqNo
      ensures Valid() && Tick(lastMs, seqNo) == NextTick(Tick(old(lastMs), old(seqNo)), now - DISCORD_EPOCH)
      ensures id == Id(node, lastMs, seqNo) > Id(node, old(lastMs), old(seqNo))
    {
      var ms := now - DISCORD_EPOCH;
      if ms <= lastMs {
        ms := lastMs;
        seqNo := (seqNo + 1) % 4096;
        if seqNo == 0 {
          ms := ms + 1;
        }
      } else {
        seqNo := 0;
      }
      lastMs := ms;
      id := Id(node, ms, seqNo);
      IdOrder(node, old(lastMs), old(seqNo), ms, seqNo);
    }

    /** An id that carries the time `at`, in Unix milliseconds. */
    method NewAt(at: int) returns (id: int)
      requires Valid()
      modifies this`aux
      ensures Valid() && Mint(id, aux) == MintAt(node, old(aux), Clamped(at - DISCORD_EPOCH))
    {
      hide MintAt, Id, GoodCounters;
      var ms := at - DISCORD_EPOCH;
      if ms < 0 {
        ms := 0;
      }
      var s := Count(aux, ms) + 1;
      while s > 0xFFF
        invariant ms >= 0 && s == Count(aux, ms) + 1 && GoodCounters(aux)
        invariant MintAt(node, aux, ms) == MintAt(node, old(aux), Clamped(at - DISCORD_EPOCH))
        decreases |aux|
      {
        MintAtStep(node, aux, ms);
        LessIsGood(aux, ms);
        aux := aux - {ms};
        ms := ms + 1;
        s := Count(aux, ms) + 1;
      }
      MintAtStep(node, aux, ms);
      MoreIsGood(aux, ms);
      aux := aux[ms := s];
      id := Id(node, ms, s);
    }

    /** An id that carries the time `at` or an earlier one and is below `ceiling`; no ceiling
        and one that is no positive number are 0. */
    method NewBelow(at: int, ceiling: nat) returns (id: int)
      requires Valid()
      modifies this`aux
      ensures Valid() && Mint(id, aux) == MintBelow(node, old(aux), Clamped(at - DISCORD_EPOCH), ceiling)
    {
      hide MintBelow, Id, GoodCounters;
      var ms := at - DISCORD_EPOCH;
      if ms < 0 {
        ms := 0;
      }
      while ms >= 0
        invariant ms >= -1 && GoodCounters(aux)
        invariant MintBelow(node, aux, ms, ceiling) == MintBelow(node, old(aux), Clamped(at - DISCORD_EPOCH), ceiling)
        decreases ms + 1
      {
        MintBelowStep(node, aux, ms, ceiling);
        var s := Count(aux, ms) + 1;
        if s > 0xFFF {
          LessIsGood(aux, ms);
          aux := aux - {ms};
          ms := ms - 1;
          continue;
        }
        id := Id(node, ms, s);
        if ceiling == 0 || id < ceiling {
          MoreIsGood(aux, ms);
          aux := aux[ms := s];
          return;
        }
        ms := ms - 1;
      }
      NothingBelow(node, aux, ceiling);
      id := 0;
    }
  }

  lemma NothingBelow(node: Node, aux: Counters, ceiling: int)
    ensures MintBelow(node, aux, -1, ceiling) == Mint(0, aux)
  {
  }

  // ---------- no id twice ----------

  datatype Request = At(ms: nat) | Below(ms: nat, ceiling: nat)

  /** The counters, the milliseconds that have lost theirs, and every id minted so far. */
  datatype Book = Book(aux: Counters, retired: set<int>, ids: set<int>)

  ghost function Served(node: Node, aux: Counters, q: Request): Mint {
    match q
    case At(ms) => MintAt(node, aux, ms)
    case Below(ms, ceiling) => MintBelow(node, aux, ms, ceiling)
  }

  ghost function Entered(node: Node, b: Book, q: Request): Book {
    var r := Served(node, b.aux, q);
    Book(r.aux, b.retired + (b.aux.Keys - r.aux.Keys), b.ids + {r.id})
  }

  ghost function BookOf(node: Node, requests: seq<Request>): Book {
    if requests == [] then Book(map[], {}, {})
    else Entered(node, BookOf(node, requests[..|requests| - 1]), requests[|requests| - 1])
  }

  /** Millisecond `ms` has handed out its `s`th id. */
  ghost predicate HandedOut(b: Book, ms: int, s: nat) {
    1 <= s <= MAX_SEQ && (ms in b.retired || s <= Count(b.aux, ms))
  }

  ghost predicate BookOk(node: Node, b: Book) {
    && GoodCounters(b.aux)
    && (forall ms :: ms in b.retired ==> ms >= 0)
    && (forall ms, s: nat :: ms >= 0 && 1 <= s <= MAX_SEQ ==> (Id(node, ms, s) in b.ids <==> HandedOut(b, ms, s)))
  }

  /** Where a request lands. */
  lemma ServedLands(node: Node, b: Book, q: Request) returns (low: int, high: int)
    requires BookOk(node, b)
    ensures var r := Served(node, b.aux, q); var m := MsOf(r.id);
            && GoodCounters(r.aux)
            && (r.id != 0 ==> m >= 0 && Count(b.aux, m) < MAX_SEQ && !(low <= m < high)
                              && r.id == Id(node, m, Count(b.aux, m) + 1)
                              && r.aux == Without(b.aux, low, high)[m := Count(b.aux, m) + 1])
            && (r.id == 0 ==> r.aux == Without(b.aux, low, high))
  {
    hide Id, MsOf, UsedUp, Without;
    match q {
      case At(ms) =>
        MintAtIs(node, b.aux, ms);
        low, high := ms, MsOf(MintAt(node, b.aux, ms).id);
        AtIsSomeId(node, b.aux, ms);
      case Below(ms, ceiling) =>
        MintBelowIs(node, b.aux, ms, ceiling);
        var r := MintBelow(node, b.aux, ms, ceiling);
        low, high := if r.id == 0 then 0 else MsOf(r.id) + 1, ms + 1;
    }
  }

  lemma AtIsSomeId(node: Node, aux: Counters, ms: nat)
    requires GoodCounters(aux)
    ensures MintAt(node, aux, ms).id > 0
  {
    MintAtIs(node, aux, ms);
  }

  lemma EnteredOk(node: Node, b: Book, q: Request)
    requires BookOk(node, b)
    ensures BookOk(node, Entered(node, b, q))
  {
    hide Served, Id, MsOf;
    var r, c := Served(node, b.aux, q), Entered(node, b, q);
    var low, high := ServedLands(node, b, q);
    var m := MsOf(r.id);
    forall ms, s: nat | ms >= 0 && 1 <= s <= MAX_SEQ
      ensures Id(node, ms, s) in c.ids <==> HandedOut(c, ms, s)
    {
      assert Id(node, ms, s) in b.ids <==> HandedOut(b, ms, s);
      SameId(node, ms, s, m, Count(b.aux, m) + 1);
      NotZero(node, ms, s);
    }
  }

  lemma NotZero(node: Node, ms: int, s: nat)
    requires ms >= 0 && s > 0
    ensures Id(node, ms, s) != 0
  {
  }

  lemma SameId(node: Node, ms: int, s: nat, m: int, t: nat)
    requires s <= MAX_SEQ
    ensures t <= MAX_SEQ && Id(node, ms, s) == Id(node, m, t) ==> ms == m && s == t
  {
    if t <= MAX_SEQ {
      IdOrder(node, ms, s, m, t);
      IdOrder(node, m, t, ms, s);
    }
  }

  lemma {:induction false} BookOfOk(node: Node, requests: seq<Request>)
    ensures BookOk(node, BookOf(node, requests))
  {
    hide BookOk, Entered;
    if requests == [] {
      EmptyBookOk(node);
    } else {
      BookOfOk(node, requests[..|requests| - 1]);
      EnteredOk(node, BookOf(node, requests[..|requests| - 1]), requests[|requests| - 1]);
    }
  }

  lemma EmptyBookOk(node: Node)
    ensures BookOk(node, Book(map[], {}, {}))
  {
  }

  /** The millisecond a request finds: the first from its own on that has a number left, or,
      under a ceiling, the last up to its own that has one left below the ceiling. */
  ghost predicate Finds(node: Node, aux: Counters, q: Request, m: int) {
    match q
    case At(ms) => m >= ms && Count(aux, m) < MAX_SEQ && forall k :: ms <= k < m ==> Count(aux, k) >= MAX_SEQ
    case Below(ms, ceiling) =>
      0 <= m <= ms && Fits(node, aux, m, ceiling) && forall k :: m < k <= ms ==> !Fits(node, aux, k, ceiling)
  }

  /** On its way a request meets a used-up counter, which it deletes. */
  ghost predicate MeetsFull(node: Node, aux: Counters, q: Request) {
    match q
    case At(ms) => Count(aux, ms) >= MAX_SEQ
    case Below(ms, ceiling) =>
      exists k :: 0 <= k <= ms && Count(aux, k) >= MAX_SEQ && forall j :: k < j <= ms ==> !Fits(node, aux, j, ceiling)
  }

  /** There is no id exactly if there is nothing to find; else the id is the next one of the
      millisecond found, and no other is found. */
  lemma ServedFinds(node: Node, aux: Counters, q: Request)
    requires GoodCounters(aux)
    ensures var r := Served(node, aux, q); var m := MsOf(r.id);
            && (r.id != 0 ==> m >= 0 && Finds(node, aux, q, m) && r.id == Id(node, m, Count(aux, m) + 1))
            && (r.id == 0 ==> forall k :: !Finds(node, aux, q, k))
            && (forall k :: Finds(node, aux, q, k) ==> k == m)
  {
    hide Id, MsOf, UsedUp, Without, Fits;
    match q {
      case At(ms) =>
        MintAtIs(node, aux, ms);
        AtIsSomeId(node, aux, ms);
      case Below(ms, ceiling) =>
        MintBelowIs(node, aux, ms, ceiling);
    }
  }

  /** The next id was given out before exactly if the millisecond it is found in has given out
      its last number before. */
  lemma RepeatsExactly(node: Node, requests: seq<Request>, q: Request, m: int)
    requires Finds(node, BookOf(node, requests).aux, q, m)
    ensures var b := BookOf(node, requests);
            Served(node, b.aux, q).id in b.ids <==> Id(node, m, MAX_SEQ) in b.ids
  {
    hide Served, Id, MsOf, BookOf, Fits;
    BookOfOk(node, requests);
    var b := BookOf(node, requests);
    ServedFinds(node, b.aux, q);
    assert Count(b.aux, m) < MAX_SEQ && m >= 0 by {
      FoundHasRoom(node, b.aux, q, m);
    }
    assert HandedOut(b, m, Count(b.aux, m) + 1) <==> m in b.retired;
    assert HandedOut(b, m, MAX_SEQ) <==> m in b.retired;
  }

  lemma FoundHasRoom(node: Node, aux: Counters, q: Request, m: int)
    requires Finds(node, aux, q, m)
    ensures Count(aux, m) < MAX_SEQ && m >= 0
  {
  }

  ghost function Lost(node: Node, aux: Counters, q: Request): set<int> {
    aux.Keys - Served(node, aux, q).aux.Keys
  }

  lemma LostIs(aux: Counters, low: int, high: int, m: int, n: nat, after: Counters)
    requires after == Without(aux, low, high)[m := n] || after == Without(aux, low, high)
    requires !(low <= m < high)
    ensures forall k :: k in aux.Keys - after.Keys ==> low <= k < high && Count(aux, k) >= MAX_SEQ
    ensures forall k :: low <= k < high && Count(aux, k) >= MAX_SEQ ==> k in aux.Keys - after.Keys
  {
  }

  /** A request deletes a counter exactly if it meets a used-up one. */
  lemma LosesExactly(node: Node, aux: Counters, q: Request)
    requires GoodCounters(aux)
    ensures Lost(node, aux, q) == {} <==> !MeetsFull(node, aux, q)
  {
    hide Id, MsOf, Without, UsedUp, Fits;
    var r := Served(node, aux, q);
    var m := MsOf(r.id);
    match q
    case At(ms) =>
      MintAtIs(node, aux, ms);
      LostIs(aux, ms, m, m, Count(aux, m) + 1, r.aux);
      assert Count(aux, ms) >= MAX_SEQ ==> ms in Lost(node, aux, q);
    case Below(ms, ceiling) =>
      MintBelowIs(node, aux, ms, ceiling);
      var low := if r.id == 0 then 0 else m + 1;
      LostIs(aux, low, ms + 1, if r.id == 0 then -1 else m, Count(aux, m) + 1, r.aux);
      FullFitsNot(node, aux, ceiling);
      if Lost(node, aux, q) != {} {
        HasElement(Lost(node, aux, q));
        var k :| k in Lost(node, aux, q);
        assert 0 <= k <= ms && forall j :: k < j <= ms ==> !Fits(node, aux, j, ceiling);
      } else {
        forall k | 0 <= k <= ms && Count(aux, k) >= MAX_SEQ
          ensures exists j :: k < j <= ms && Fits(node, aux, j, ceiling)
        {
          assert k !in Lost(node, aux, q);
          assert k < m;
        }
      }
  }

  lemma FullFitsNot(node: Node, aux: Counters, ceiling: int)
    ensures forall k :: Count(aux, k) >= MAX_SEQ ==> !Fits(node, aux, k, ceiling)
  {
  }

  /** No request so far has met a used-up counter. */
  ghost predicate Quiet(node: Node, requests: seq<Request>) {
    forall i :: 0 <= i < |requests| ==> !MeetsFull(node, BookOf(node, requests[..i]).aux, requests[i])
  }

  lemma QuietSnoc(node: Node, requests: seq<Request>)
    requires requests != []
    ensures var n := |requests| - 1;
            Quiet(node, requests) <==>
              Quiet(node, requests[..n]) && !MeetsFull(node, BookOf(node, requests[..n]).aux, requests[n])
  {
    hide MeetsFull, BookOf;
    var n := |requests| - 1;
    assert forall i :: 0 <= i < n ==> requests[..n][..i] == requests[..i] && requests[..n][i] == requests[i];
  }

  /** A millisecond has lost its counter exactly if some request met a used-up one. */
  lemma {:induction false} RetiredExactly(node: Node, requests: seq<Request>)
    ensures BookOf(node, requests).retired == {} <==> Quiet(node, requests)
  {
    hide Quiet, MeetsFull, Served, BookOk;
    if requests == [] {
      NothingAsked(node);
    } else {
      var n := |requests| - 1;
      var b := BookOf(node, requests[..n]);
      RetiredExactly(node, requests[..n]);
      QuietSnoc(node, requests);
      BookOfOk(node, requests[..n]);
      CountersGood(node, b);
      LosesExactly(node, b.aux, requests[n]);
      assert BookOf(node, requests).retired == b.retired + Lost(node, b.aux, requests[n]);
    }
  }

  lemma NothingAsked(node: Node)
    ensures Quiet(node, []) && BookOf(node, []).retired == {}
  {
  }

  lemma CountersGood(node: Node, b: Book)
    requires BookOk(node, b)
    ensures GoodCounters(b.aux)
  {
  }

  /** The id the `i`th request got. */
  ghost function IdAt(node: Node, requests: seq<Request>, i: nat): int
    requires i < |requests|
  {
    Served(node, BookOf(node, requests[..i]).aux, requests[i]).id
  }

  lemma {:induction false} IdIsBooked(node: Node, requests: seq<Request>, i: nat)
    requires i < |requests|
    ensures IdAt(node, requests, i) in BookOf(node, requests).ids
  {
    hide Served;
    var n := |requests| - 1;
    if i < n {
      IdIsBooked(node, requests[..n], i);
      assert requests[..n][..i] == requests[..i] && requests[..n][i] == requests[i];
    }
  }

  /** While no request meets a used-up counter, no id is given out twice. */
  lemma NoIdTwice(node: Node, requests: seq<Request>, i: nat, j: nat)
    requires Quiet(node, requests) && i < j < |requests|
    ensures IdAt(node, requests, j) == 0 || IdAt(node, requests, i) != IdAt(node, requests, j)
  {
    hide Served, BookOf, MeetsFull, Id, MsOf, Finds, HandedOut;
    var before := requests[..j];
    assert Quiet(node, before) by {
      assert forall k :: 0 <= k < j ==> before[..k] == requests[..k] && before[k] == requests[k];
    }
    RetiredExactly(node, before);
    BookOfOk(node, before);
    var b := BookOf(node, before);
    IdIsBooked(node, before, i);
    assert before[..i] == requests[..i] && before[i] == requests[i];
    ServedFinds(node, b.aux, requests[j]);
    var m := MsOf(Served(node, b.aux, requests[j]).id);
    if IdAt(node, requests, j) != 0 {
      FoundHasRoom(node, b.aux, requests[j], m);
      NotHandedOut(b, m);
    }
  }

  lemma NotHandedOut(b: Book, m: int)
    requires m !in b.retired
    ensures !HandedOut(b, m, Count(b.aux, m) + 1)
  {
  }

  lemma {:induction false} CountsRequests(node: Node, requests: seq<Request>, ms: int)
    ensures Count(BookOf(node, requests).aux, ms) <= |requests|
  {
    hide Served, Id, MsOf, UsedUp;
    if requests != [] {
      var n := |requests| - 1;
      CountsRequests(node, requests[..n], ms);
      BookOfOk(node, requests[..n]);
      var b := BookOf(node, requests[..n]);
      var low, high := ServedLands(node, b, requests[n]);
      CountsRequests(node, requests[..n], MsOf(Served(node, b.aux, requests[n]).id));
      WithoutCounts(b.aux, low, high, ms);
    }
  }

  lemma WithoutCounts(aux: Counters, low: int, high: int, ms: int)
    ensures Count(Without(aux, low, high), ms) <= Count(aux, ms)
  {
  }

  /** 4095 requests, whatever they ask for, meet none. */
  lemma FewAreQuiet(node: Node, requests: seq<Request>)
    requires |requests| <= MAX_SEQ
    ensures Quiet(node, requests)
  {
    hide BookOf, Fits;
    forall i | 0 <= i < |requests|
      ensures !MeetsFull(node, BookOf(node, requests[..i]).aux, requests[i])
    {
      forall ms
        ensures Count(BookOf(node, requests[..i]).aux, ms) < MAX_SEQ
      {
        CountsRequests(node, requests[..i], ms);
      }
    }
  }

  ghost function Repeated(ms: nat, n: nat): seq<Request> {
    seq(n, i => At(ms))
  }

  lemma {:induction false} SameBook(node: Node, ms: nat, n: nat)
    requires n <= MAX_SEQ
    ensures var b := BookOf(node, Repeated(ms, n));
            b.aux == (if n == 0 then map[] else map[ms := n]) && (n > 0 ==> Id(node, ms, 1) in b.ids)
  {
    hide Id;
    if n > 0 {
      SameBook(node, ms, n - 1);
      assert Repeated(ms, n)[..n - 1] == Repeated(ms, n - 1);
      MintAtStep(node, BookOf(node, Repeated(ms, n - 1)).aux, ms);
    }
  }

  /** 4096 ids of one millisecond, and the next one asked for is the first of them again. */
  lemma SaturatedRepeats(node: Node, ms: nat)
    ensures var b := BookOf(node, Repeated(ms, MAX_SEQ + 1));
            var r := Served(node, b.aux, At(ms));
            r.id == Id(node, ms, 1) && r.id in b.ids
  {
    hide Id;
    SameBook(node, ms, MAX_SEQ);
    var full := BookOf(node, Repeated(ms, MAX_SEQ));
    assert Repeated(ms, MAX_SEQ + 1)[..MAX_SEQ] == Repeated(ms, MAX_SEQ);
    MintAtStep(node, full.aux, ms);
    assert full.aux - {ms} == map[];
    MintAtStep(node, map[], ms + 1);
    var b := BookOf(node, Repeated(ms, MAX_SEQ + 1));
    assert b.aux == map[ms + 1 := 1];
    MintAtStep(node, b.aux, ms);
  }
}
