/** Runs of a session and its client: dispatches, queue overflow, lost connections and
    resumes, each resume taken as one step. */
module ResumeRuns {
  import opened ReplayLog
  import opened SessionModel

  /** The log still has every recorded event the client has not seen. */
  ghost predicate ReachesBack(s: Sys) {
    forall rec :: rec in s.history && rec.seqNo > s.last ==> rec in LogOf(s.history).events
  }

  /** And the new queue has room for all of them and for RESUMED. */
  ghost predicate Served(s: Sys, waiting: seq<Write>, capacity: nat) {
    ReachesBack(s) && |waiting| + |Missed(LogOf(s.history).events, s.last)| < capacity
  }

  ghost function Recorded(queue: seq<Wire>): seq<Record> {
    if queue == [] then []
    else (if queue[0].Event? && queue[0].recorded then [queue[0].rec] else []) + Recorded(queue[1..])
  }

  /** The dispatches in the queue are in order, numbered above `low` and up to `high`. */
  ghost predicate InOrder(queue: seq<Wire>, low: int, high: int) {
    && (forall i :: 0 <= i < |queue| && queue[i].Event? ==> low < queue[i].rec.seqNo <= high)
    && (forall i, j :: 0 <= i < j < |queue| && queue[i].Event? && queue[j].Event? ==>
          queue[i].rec.seqNo < queue[j].rec.seqNo)
  }

  /** The highest number below the `m`th recorded event's, or the highest given out. */
  ghost function Below(s: Sys, m: nat): int {
    if m < |s.history| then s.history[m].seqNo - 1 else s.seqNo
  }

  lemma InOrderSnoc(queue: seq<Wire>, low: int, high: int, w: Wire, top: int)
    requires InOrder(queue, low, high) && high <= top
    requires w.Event? ==> low < w.rec.seqNo && high < w.rec.seqNo <= top
    ensures InOrder(queue + [w], low, top)
  {
  }

  lemma InOrderTail(queue: seq<Wire>, low: int, high: int)
    requires InOrder(queue, low, high) && queue != []
    ensures InOrder(queue[1..], if queue[0].Event? then queue[0].rec.seqNo else low, high)
    ensures queue[0].Event? ==> low < queue[0].rec.seqNo <= high
    ensures queue[0].Event? ==> forall w :: w in queue[1..] && w.Event? ==> queue[0].rec.seqNo < w.rec.seqNo
  {
    var rest := queue[1..];
    assert forall i :: 0 <= i < |rest| ==> rest[i] == queue[i + 1];
  }

  /** The recorded events from the `i`th up to the `j`th. */
  ghost function Span(h: seq<Record>, i: nat, j: nat): seq<Record> {
    if i <= j <= |h| then h[i..j] else []
  }

  lemma SpanSnoc(h: seq<Record>, rec: Record, i: nat, j: nat)
    requires i <= j <= |h|
    ensures Span(h + [rec], i, j) == Span(h, i, j)
    ensures Span(h + [rec], i, |h| + 1) == Span(h, i, |h|) + [rec]
  {
  }

  lemma SpanHead(h: seq<Record>, i: nat, j: nat)
    requires i <= j <= |h|
    ensures Span(h, i, j) == [] <==> i == j
    ensures i < j ==> Span(h, i, j) == [h[i]] + Span(h, i + 1, j)
    ensures i < j ==> Span(h, i, j)[0] == h[i] && Span(h, i, j)[1..] == Span(h, i + 1, j)
    ensures i < j ==> Span(h, 0, i + 1) == Span(h, 0, i) + [h[i]]
  {
  }

  /** The client has seen the numbers of the first `k` recorded events; what it reads next are
      those from the `from`th to the `m`th, and while attached all the rest. */
  ghost predicate Inv(s: Sys, k: nat, from: nat, m: nat) {
    && Rising(s.history, s.seqNo)
    && k <= from <= m <= |s.history| && s.last <= s.seqNo
    && SeenTo(s, k)
    && Recorded(s.queue) == Span(s.history, from, m)
    && InOrder(s.queue, Floor(s, from), Below(s, m))
    && (s.attached ==> m == |s.history|)
  }

  ghost predicate SeenTo(s: Sys, k: nat) {
    && k <= |s.history|
    && (k > 0 ==> s.history[k - 1].seqNo <= s.last)
    && (k < |s.history| ==> s.last < s.history[k].seqNo)
  }

  /** What everything still to be read is numbered above. */
  ghost function Floor(s: Sys, from: nat): int {
    if 0 < from <= |s.history| && s.history[from - 1].seqNo > s.last then s.history[from - 1].seqNo else s.last
  }

  lemma {:induction false} RecordedSnoc(queue: seq<Wire>, w: Wire)
    ensures Recorded(queue + [w]) == Recorded(queue) + (if w.Event? && w.recorded then [w.rec] else [])
  {
    if queue == [] {
      assert queue + [w] == [w] && [w][1..] == [];
    } else {
      assert (queue + [w])[1..] == queue[1..] + [w];
      RecordedSnoc(queue[1..], w);
    }
  }

  lemma {:induction false} RecordedIsQueued(queue: seq<Wire>)
    ensures Recorded(queue) != [] ==> Event(Recorded(queue)[0], true) in queue
  {
    if queue != [] {
      RecordedIsQueued(queue[1..]);
    }
  }

  /** A step that records at most one more event keeps what is queued. */
  lemma OneMoreKeeps(s: Sys, t: Sys, k: nat, from: nat, m: nat, rec: Record)
    requires Inv(s, k, from, m) && rec.seqNo == s.seqNo + 1 == t.seqNo
    requires t.history == s.history || t.history == s.history + [rec]
    requires t.last == s.last && t.queue == s.queue && !t.attached
    ensures Inv(t, k, from, m) && Floor(t, from) == Floor(s, from)
  {
    hide Recorded, InOrder, Rising, Span;
    RisingAt(s, from, m);
    RisingSnoc(s.history, s.seqNo, rec);
    SpanSnoc(s.history, rec, from, m);
    InOrderWider(s.queue, Floor(s, from), Below(s, m), Below(t, m));
  }

  lemma DispatchKeeps(s: Sys, frame: string, record: bool, k: nat, from: nat, m: nat) returns (n: nat)
    requires Inv(s, k, from, m)
    ensures Inv(Dispatched(s, frame, record), k, from, n)
  {
    hide Recorded, InOrder, Rising, Span;
    var rec, h := Record(s.seqNo + 1, frame), s.history;
    var t := Dispatched(s, frame, record);
    OneMoreKeeps(s, t.(queue := s.queue, attached := false), k, from, m, rec);
    n := m;
    if t.queue != s.queue {
      n := |t.history|;
      SpanSnoc(h, rec, from, m);
      RecordedSnoc(s.queue, Event(rec, record));
      FloorWithin(s, from);
      InOrderSnoc(s.queue, Floor(s, from), s.seqNo, Event(rec, record), s.seqNo + 1);
    }
  }

  lemma FloorWithin(s: Sys, from: nat)
    requires Rising(s.history, s.seqNo) && s.last <= s.seqNo
    ensures s.last <= Floor(s, from) <= s.seqNo
    ensures 0 < from <= |s.history| ==> s.history[from - 1].seqNo <= Floor(s, from)
  {
  }

  lemma RisingSnoc(h: seq<Record>, top: nat, rec: Record)
    requires Rising(h, top) && rec.seqNo == top + 1
    ensures Rising(h + [rec], top + 1) && Rising(h, top + 1)
  {
  }

  lemma InOrderWider(queue: seq<Wire>, low: int, high: int, top: int)
    requires InOrder(queue, low, high) && high <= top
    ensures InOrder(queue, low, top)
  {
  }

  /** Reading a recorded event: the client has seen it and those before it. */
  lemma ReadRecorded(s: Sys, k: nat, from: nat, m: nat)
    requires Inv(s, k, from, m) && s.queue != [] && s.queue[0].Event? && s.queue[0].recorded
    ensures from < |s.history| && s.queue[0].rec == s.history[from]
    ensures Inv(ReadOne(s), from + 1, from + 1, m) && s.last <= ReadOne(s).last
  {
    hide InOrder, Rising, Recorded, Span;
    InOrderTail(s.queue, Floor(s, from), Below(s, m));
    FloorWithin(s, from);
    RecordedHead(s.queue);
    SpanHead(s.history, from, m);
    RisingAt(s, from + 1, m);
  }

  /** Reading an unrecorded one: the client has seen the recorded events before it. */
  lemma ReadUnrecorded(s: Sys, k: nat, from: nat, m: nat)
    requires Inv(s, k, from, m) && s.queue != [] && s.queue[0].Event? && !s.queue[0].recorded
    ensures Inv(ReadOne(s), from, from, m) && s.last <= ReadOne(s).last
  {
    hide InOrder, Rising, Recorded, Span;
    InOrderTail(s.queue, Floor(s, from), Below(s, m));
    FloorWithin(s, from);
    RecordedHead(s.queue);
    RecordedIsQueued(s.queue[1..]);
    SpanHead(s.history, from, m);
    RisingAt(s, from, m);
  }

  lemma ReadControl(s: Sys, k: nat, from: nat, m: nat)
    requires Inv(s, k, from, m) && s.queue != [] && s.queue[0].Control?
    ensures Inv(ReadOne(s), k, from, m)
  {
    hide InOrder, Rising, Recorded, Span;
    InOrderTail(s.queue, Floor(s, from), Below(s, m));
    RecordedHead(s.queue);
  }

  lemma RecordedHead(queue: seq<Wire>)
    requires queue != []
    ensures queue[0].Event? && queue[0].recorded ==>
              Recorded(queue) != [] && Recorded(queue)[0] == queue[0].rec &&
                Recorded(queue)[1..] == Recorded(queue[1..])
    ensures !(queue[0].Event? && queue[0].recorded) ==> Recorded(queue) == Recorded(queue[1..])
  {
  }

  lemma RisingAt(s: Sys, k: nat, m: nat)
    requires Rising(s.history, s.seqNo) && k <= m <= |s.history|
    ensures 0 < k < |s.history| ==> s.history[k - 1].seqNo < s.history[k].seqNo
    ensures Below(s, m) <= s.seqNo
    ensures k < m < |s.history| ==> s.history[k].seqNo < s.history[m].seqNo
  {
  }

  lemma AnswerKeeps(s: Sys, item: Write, k: nat, from: nat, m: nat)
    requires Inv(s, k, from, m)
    ensures Inv(Next(s, Answer(item)), k, from, m)
  {
    hide Recorded, InOrder, Rising, Span;
    RecordedSnoc(s.queue, Control(item));
    InOrderSnoc(s.queue, Floor(s, from), Below(s, m), Control(item), Below(s, m));
  }

  lemma StartKeeps(initial: seq<Write>, capacity: nat)
    ensures Inv(Start(initial, capacity), 0, 0, 0)
  {
    RecordedReplay(initial, []);
    assert Controls(initial) + Events([]) == Controls(initial);
  }

  lemma DropKeeps(s: Sys, k: nat, from: nat, m: nat)
    requires Inv(s, k, from, m)
    ensures Inv(Next(s, Drop), k, k, k)
  {
    hide Rising, InOrder;
    EmptyInOrder(Floor(s, k), Below(s, k));
  }

  lemma EmptyInOrder(low: int, high: int)
    ensures InOrder([], low, high)
  {
  }

  // ---------- what a resume replays ----------

  lemma NewestLength<T>(s: seq<T>, n: nat)
    requires n <= |s|
    ensures |Newest(s, n)| == n && Newest(s, n) == s[|s| - n..]
  {
  }

  /** The events the client has not seen are the last ones of the history. */
  lemma {:induction false} MissedIsTail(h: seq<Record>, top: int, last: int)
    requires Rising(h, top)
    ensures var n := |Missed(h, last)|;
            && n <= |h| && Missed(h, last) == Newest(h, n)
            && forall i :: 0 <= i < |h| ==> (h[i].seqNo > last <==> i >= |h| - n)
  {
    hide Rising, Missed, Newest;
    MissedHead(h, last);
    if h == [] {
      NewestLength(h, 0);
    } else {
      RisingTail(h, top);
      var rest, n := h[1..], |Missed(h[1..], last)|;
      MissedIsTail(rest, top, last);
      if h[0].seqNo > last {
        AllMissed(rest, last);
        assert [h[0]] + rest == h;
        NewestLength(h, |h|);
      } else {
        NewestLength(h, n);
        NewestLength(rest, n);
        assert forall i :: 0 < i < |h| ==> (h[i].seqNo > last <==> i - 1 >= |rest| - n);
      }
    }
  }

  lemma MissedHead(h: seq<Record>, last: int)
    ensures Missed(h, last) ==
            if h == [] then [] else if h[0].seqNo > last then [h[0]] + Missed(h[1..], last) else Missed(h[1..], last)
  {
  }


  lemma RisingTail(h: seq<Record>, top: int)
    requires Rising(h, top) && h != []
    ensures Rising(h[1..], top)
    ensures forall i :: 0 < i < |h| ==> h[0].seqNo < h[i].seqNo && h[1..][i - 1] == h[i]
  {
  }

  lemma {:induction false} AllMissed(h: seq<Record>, last: int)
    requires forall i :: 0 <= i < |h| ==> h[i].seqNo > last
    ensures Missed(h, last) == h
  {
    if h != [] {
      AllMissed(h[1..], last);
    }
  }

  /** So many recorded events the client has seen the numbers of. */
  ghost function Seen(s: Sys): int {
    |s.history| - |Missed(s.history, s.last)|
  }

  lemma SeenIs(s: Sys, k: nat)
    requires Rising(s.history, s.seqNo) && SeenTo(s, k)
    ensures Seen(s) == k && Missed(s.history, s.last) == s.history[k..]
  {
    hide Missed;
    MissedIsTail(s.history, s.seqNo, s.last);
  }

  /** Of the newest `n` events those after `last` are the unseen ones, as far as they go back. */
  lemma {:induction false} MissedOfNewest(h: seq<Record>, last: int, k: nat, n: nat)
    requires k <= |h| && forall i :: 0 <= i < |h| ==> (h[i].seqNo > last <==> i >= k)
    requires n <= |h|
    ensures Missed(Newest(h, n), last) == if n <= |h| - k then Newest(h, n) else h[k..]
  {
    if n == 0 {
      assert Newest(h, n) == [];
    } else {
      var i := |h| - n;
      MissedOfNewest(h, last, k, n - 1);
      assert Newest(h, n)[1..] == Newest(h, n - 1) && Newest(h, n)[0] == h[i];
      if i >= k {
        assert h[i].seqNo > last;
        assert [h[i]] + Newest(h, n - 1) == Newest(h, n);
      } else {
        assert h[i].seqNo <= last;
        if i == k - 1 {
          assert Newest(h, n - 1) == h[k..];
        }
      }
    }
  }

  lemma {:induction false} RecordedReplay(waiting: seq<Write>, recs: seq<Record>)
    ensures Recorded(Controls(waiting) + Events(recs)) == recs
    decreases |waiting| + |recs|
  {
    var q := Controls(waiting) + Events(recs);
    if waiting != [] {
      assert q[1..] == Controls(waiting[1..]) + Events(recs);
      RecordedReplay(waiting[1..], recs);
    } else if recs != [] {
      assert q[1..] == Controls([]) + Events(recs[1..]);
      RecordedReplay([], recs[1..]);
    }
  }


  /** What the resumed connection's queue holds: of the events the client has not seen those
      the log still has, cut where the queue is full. */
  lemma ReplayedIs(s: Sys, waiting: seq<Write>, capacity: nat)
    requires Rising(s.history, s.seqNo) && |waiting| <= capacity
    ensures var unseen, logged := |Missed(s.history, s.last)|, |LogOf(s.history).events|;
            && logged <= |s.history| && unseen <= |s.history|
            && Missed(LogOf(s.history).events, s.last) == Newest(s.history, if logged <= unseen then logged else unseen)
            && Recorded(Reattached(s, waiting, capacity).queue) ==
               Fit(Missed(LogOf(s.history).events, s.last), capacity - |waiting|)
  {
    hide Recorded, Missed, LogOf;
    RunKeepsNewest(s.history);
    var log := LogOf(s.history).events;
    MissedIsTail(s.history, s.seqNo, s.last);
    MissedOfNewest(s.history, s.last, |s.history| - |Missed(s.history, s.last)|, |log|);
    var recs := Missed(log, s.last);
    assert Fit(Events(recs), capacity - |waiting|) == Events(Fit(recs, capacity - |waiting|));
    RecordedReplay(waiting, Fit(recs, capacity - |waiting|));
  }

  /** How many of the events the client has not seen are gone from the log. */
  ghost function Gone(s: Sys): int {
    |Missed(s.history, s.last)| - |Missed(LogOf(s.history).events, s.last)|
  }

  lemma GoneIs(s: Sys)
    requires Rising(s.history, s.seqNo)
    ensures var unseen, logged := |Missed(s.history, s.last)|, |LogOf(s.history).events|;
            Gone(s) == if logged <= unseen then unseen - logged else 0
  {
    hide Missed, LogOf;
    ReplayedIs(s, [], 0);
  }

  /** The log still has every event the client has not seen exactly when it goes back that far. */
  lemma LogReachesBack(s: Sys)
    requires Rising(s.history, s.seqNo)
    ensures ReachesBack(s) <==> |LogOf(s.history).events| >= |Missed(s.history, s.last)|
    ensures ReachesBack(s) <==> Gone(s) == 0
  {
    hide LogOf, Bytes, Missed, Gone;
    GoneIs(s);
    MissedIsTail(s.history, s.seqNo, s.last);
    RunKeepsNewest(s.history);
    var h, log := s.history, LogOf(s.history).events;
    var from, k := |h| - |log|, |h| - |Missed(h, s.last)|;
    assert forall j :: 0 <= j < |log| ==> log[j] == h[from + j];
    if from <= k {
      forall rec | rec in h && rec.seqNo > s.last
        ensures rec in log
      {
        var i :| 0 <= i < |h| && h[i] == rec;
        assert log[i - from] == rec;
      }
    } else {
      assert h[k] in h && h[k].seqNo > s.last;
      forall j | 0 <= j < |log|
        ensures log[j] != h[k]
      {
        assert h[k].seqNo < h[from + j].seqNo;
      }
    }
  }

  lemma DispatchedIs(r: Sys, frame: string)
    requires r.attached
    ensures var t := Dispatched(r, frame, false);
            (t.attached <==> |r.queue| < r.capacity) && Recorded(t.queue) == Recorded(r.queue)
  {
    hide Recorded;
    RecordedSnoc(r.queue, Event(Record(r.seqNo + 1, frame), false));
  }

  lemma ReattachedIs(s: Sys, waiting: seq<Write>, capacity: nat)
    requires |waiting| <= capacity
    ensures var r, recs := Reattached(s, waiting, capacity), Missed(LogOf(s.history).events, s.last);
            && r.attached && r.capacity == capacity
            && |r.queue| == |waiting| + |Fit(recs, capacity - |waiting|)|
  {
    hide Missed, LogOf;
  }

  /** A resume leaves the connection attached with every event the client has not seen queued,
      once and in order, exactly when none of them was trimmed and the queue had room. */
  lemma ResumeExactly(s: Sys, waiting: seq<Write>, capacity: nat, frame: string)
    requires Rising(s.history, s.seqNo) && |waiting| <= capacity
    ensures var t := Next(s, Resume(waiting, capacity, frame));
            (t.attached && Recorded(t.queue) == Missed(s.history, s.last)) <==> Served(s, waiting, capacity)
  {
    hide Recorded, Missed, LogOf, Newest, Reattached, Dispatched, ReachesBack, Gone;
    ReplayedIs(s, waiting, capacity);
    LogReachesBack(s);
    MissedIsTail(s.history, s.seqNo, s.last);
    ReattachedIs(s, waiting, capacity);
    DispatchedIs(Reattached(s, waiting, capacity), frame);
    forall n: nat | n <= |s.history|
      ensures |Newest(s.history, n)| == n
    {
      NewestLength(s.history, n);
    }
  }

  /** What is replayed leaves out just the events gone from the log. */
  lemma ReplayedSpan(s: Sys, waiting: seq<Write>, capacity: nat, k: nat)
    requires Rising(s.history, s.seqNo) && SeenTo(s, k) && |waiting| <= capacity
    ensures var recs, from, room := Missed(LogOf(s.history).events, s.last), k + Gone(s), capacity - |waiting|;
            && k <= from <= |s.history| && recs == s.history[from..]
            && Fit(recs, room) == s.history[from..from + |Fit(recs, room)|]
            && Recorded(Reattached(s, waiting, capacity).queue) == Fit(recs, room)
  {
    hide Recorded, Missed, LogOf, Newest, Rising, Reattached;
    ReplayedIs(s, waiting, capacity);
    GoneIs(s);
    SeenIs(s, k);
    NewestLength(s.history, |s.history| - k - Gone(s));
  }

  lemma FitSize<T>(s: seq<T>, room: nat)
    ensures |Fit(s, room)| <= |s| && (|Fit(s, room)| < room ==> Fit(s, room) == s)
  {
  }

  lemma ReattachKeeps(s: Sys, waiting: seq<Write>, capacity: nat, k: nat) returns (from: nat, m: nat)
    requires Rising(s.history, s.seqNo) && s.last <= s.seqNo && SeenTo(s, k) && |waiting| <= capacity
    ensures from == k + Gone(s)
    ensures var r := Reattached(s, waiting, capacity);
            Inv(r.(attached := false), k, from, m) && (|r.queue| < capacity ==> Inv(r, k, from, m))
  {
    hide Recorded, Missed, LogOf, Newest, Rising, Gone, Fit, InOrder, Floor, Below;
    var recs, room := Missed(LogOf(s.history).events, s.last), capacity - |waiting|;
    ReplayedSpan(s, waiting, capacity, k);
    FitSize(recs, room);
    ReattachedIs(s, waiting, capacity);
    from := k + Gone(s);
    m := from + |Fit(recs, room)|;
    RisingAt(s, k, from);
    ReplayInOrder(s, from, m, waiting);
    FitEvents(recs, room);
    SameBounds(s, Reattached(s, waiting, capacity), from, m);
  }

  lemma SameBounds(s: Sys, r: Sys, from: nat, m: nat)
    requires r.history == s.history && r.last == s.last && r.seqNo == s.seqNo
    ensures Floor(r, from) == Floor(s, from) && Below(r, m) == Below(s, m)
    ensures Floor(r.(attached := false), from) == Floor(s, from) && Below(r.(attached := false), m) == Below(s, m)
  {
  }

  lemma FitEvents(recs: seq<Record>, room: nat)
    ensures Events(Fit(recs, room)) == Fit(Events(recs), room)
  {
  }

  lemma ReplayInOrder(s: Sys, from: nat, m: nat, waiting: seq<Write>)
    requires Rising(s.history, s.seqNo) && s.last <= s.seqNo && from <= m <= |s.history|
    requires from < |s.history| ==> s.last < s.history[from].seqNo
    ensures InOrder(Controls(waiting) + Events(s.history[from..m]), Floor(s, from), Below(s, m))
  {
    var h := s.history;
    var queue, w := Controls(waiting) + Events(h[from..m]), |waiting|;
    forall i | 0 <= i < |queue| && queue[i].Event?
      ensures w <= i && queue[i].rec == h[from + i - w]
      ensures Floor(s, from) < queue[i].rec.seqNo <= Below(s, m)
    {
      assert h[from..m][i - w] == h[from + i - w];
    }
    forall i, j | 0 <= i < j < |queue| && queue[i].Event? && queue[j].Event?
      ensures queue[i].rec.seqNo < queue[j].rec.seqNo
    {
      assert queue[i].rec == h[from + i - w] && queue[j].rec == h[from + j - w];
    }
  }

  lemma ResumeKeeps(s: Sys, waiting: seq<Write>, capacity: nat, frame: string, k: nat, from: nat, m: nat)
    returns (from': nat, m': nat)
    requires Inv(s, k, from, m) && |waiting| <= capacity
    ensures Inv(Next(s, Resume(waiting, capacity, frame)), k, from', m') && from' == k + Gone(s)
  {
    hide Inv, Gone, Missed, LogOf, Recorded;
    InvSeen(s, k, from, m);
    from', m' := ReattachKeeps(s, waiting, capacity, k);
    var r := Reattached(s, waiting, capacity);
    if |r.queue| < capacity {
      m' := DispatchKeeps(r, frame, false, k, from', m');
    } else {
      m' := DispatchKeeps(r.(attached := false), frame, false, k, from', m');
      QueueFull(r, frame);
    }
  }

  lemma QueueFull(r: Sys, frame: string)
    requires |r.queue| >= r.capacity
    ensures Dispatched(r, frame, false) == Dispatched(r.(attached := false), frame, false)
  {
  }

  lemma InvSeen(s: Sys, k: nat, from: nat, m: nat)
    requires Inv(s, k, from, m)
    ensures Rising(s.history, s.seqNo) && s.last <= s.seqNo && SeenTo(s, k)
  {
  }

  // ---------- what a run skips ----------

  ghost predicate ReadsEvent(s: Sys, step: Step) {
    step.Read? && s.queue != [] && s.queue[0].Event?
  }

  /** How many events are missing between what the client has seen and what it reads next: those
      that were gone from the log at the last resume, until it reads on or the connection ends. */
  ghost function Gap(initial: seq<Write>, capacity: nat, steps: seq<Step>): int {
    if steps == [] then 0
    else
      var before, step := steps[..|steps| - 1], steps[|steps| - 1];
      var s := Run(initial, capacity, before);
      if step.Resume? && |step.waiting| <= step.capacity then Gone(s)
      else if step.Drop? || ReadsEvent(s, step) then 0
      else Gap(initial, capacity, before)
  }

  /** How many events the client has read past without getting them. */
  ghost function Skipped(initial: seq<Write>, capacity: nat, steps: seq<Step>): int {
    if steps == [] then 0
    else
      var before, step := steps[..|steps| - 1], steps[|steps| - 1];
      Skipped(initial, capacity, before) +
      if ReadsEvent(Run(initial, capacity, before), step) then Gap(initial, capacity, before) else 0
  }

  /** What one step does to the client: reading an event it gets that event, if it is a recorded
      one, and has seen all before it; no other step changes what it has. */
  ghost predicate Moves(s: Sys, step: Step, k: nat, from: nat, k': nat, from': nat) {
    var t := Next(s, step);
    && s.last <= t.last
    && (t.history == s.history || exists rec :: t.history == s.history + [rec] && rec.seqNo > s.last)
    && (if ReadsEvent(s, step) then
          && k' == from' && from <= k' <= from + 1 && k' <= |s.history|
          && t.history == s.history && t.got == s.got + Span(s.history, from, k')
        else
          && k' == k && t.got == s.got
          && from' == (if step.Resume? && |step.waiting| <= step.capacity then k + Gone(s)
                       else if step.Drop? then k
                       else from))
  }

  lemma ReadMoves(s: Sys, k: nat, from: nat, m: nat) returns (k': nat, from': nat)
    requires Inv(s, k, from, m)
    ensures Inv(ReadOne(s), k', from', m) && Moves(s, Read, k, from, k', from')
  {
    hide Inv, Gone;
    k', from' := k, from;
    if s.queue != [] {
      if s.queue[0].Control? {
        ReadControl(s, k, from, m);
      } else if s.queue[0].recorded {
        ReadRecorded(s, k, from, m);
        k', from' := from + 1, from + 1;
        assert Span(s.history, from, from + 1) == [s.history[from]];
      } else {
        ReadUnrecorded(s, k, from, m);
        k', from' := from, from;
        FromWithin(s, k, from, m);
        assert s.got + Span(s.history, from, from) == s.got;
      }
    }
  }

  lemma FromWithin(s: Sys, k: nat, from: nat, m: nat)
    requires Inv(s, k, from, m)
    ensures k <= from <= |s.history|
  {
  }

  lemma NotRead(s: Sys, step: Step)
    requires !step.Read? && s.last <= s.seqNo
    ensures var t := Next(s, step);
            && t.got == s.got && t.last == s.last
            && (t.history == s.history || exists rec :: t.history == s.history + [rec] && rec.seqNo > s.last)
  {
    hide Missed, LogOf;
    if step.Dispatch? && step.record {
      var rec := Record(s.seqNo + 1, step.frame);
      assert Next(s, step).history == s.history + [rec];
    }
  }

  lemma StepKeeps(s: Sys, step: Step, k: nat, from: nat, m: nat) returns (k': nat, from': nat, m': nat)
    requires Inv(s, k, from, m)
    ensures Inv(Next(s, step), k', from', m') && Moves(s, step, k, from, k', from')
  {
    hide Inv, Gone, Reattached, Span;
    k', from', m' := k, from, m;
    if !step.Read? {
      InvSeen(s, k, from, m);
      NotRead(s, step);
    }
    match step {
      case Dispatch(frame, record) => m' := DispatchKeeps(s, frame, record, k, from, m);
      case Answer(item) => AnswerKeeps(s, item, k, from, m);
      case Read => k', from' := ReadMoves(s, k, from, m);
      case Drop => DropKeeps(s, k, from, m); from', m' := k, k;
      case Resume(waiting, room, frame) =>
        if |waiting| <= room {
          from', m' := ResumeKeeps(s, waiting, room, frame, k, from, m);
        }
    }
  }

  /** Over every run, whether its resumes are served or not. */
  lemma {:induction false} RunKeeps(initial: seq<Write>, capacity: nat, steps: seq<Step>)
    returns (k: nat, from: nat, m: nat)
    ensures var s := Run(initial, capacity, steps);
            && Inv(s, k, from, m) && from == k + Gap(initial, capacity, steps)
            && k == |s.got| + Skipped(initial, capacity, steps)
  {
    hide Inv, Gone, Next, Reattached;
    if steps == [] {
      k, from, m := 0, 0, 0;
      StartKeeps(initial, capacity);
    } else {
      var before, step := steps[..|steps| - 1], steps[|steps| - 1];
      k, from, m := RunKeeps(initial, capacity, before);
      k, from, m := StepKeeps(Run(initial, capacity, before), step, k, from, m);
    }
  }

  lemma NextMoves(s: Sys, step: Step, k: nat, from: nat, m: nat) returns (k': nat, from': nat)
    requires Inv(s, k, from, m)
    ensures Moves(s, step, k, from, k', from')
    ensures Seen(s) == k <= |s.history| && Seen(Next(s, step)) == k' <= |Next(s, step).history| &&
            Rising(Next(s, step).history, Next(s, step).seqNo)
  {
    hide Inv, Moves, Missed, Next, Seen;
    var m': nat;
    k', from', m' := StepKeeps(s, step, k, from, m);
    InvSeen(s, k, from, m);
    InvSeen(Next(s, step), k', from', m');
    SeenIs(s, k);
    SeenIs(Next(s, step), k');
  }

  /** What the client gets from some point on, if it skips nothing, are the recorded events from
      the first it had not seen up to the last it has seen. */
  lemma {:induction false} GotSince(initial: seq<Write>, capacity: nat, steps: seq<Step>, p: nat)
    requires p <= |steps|
    ensures Skipped(initial, capacity, steps[..p]) <= Skipped(initial, capacity, steps)
    ensures var s, t := Run(initial, capacity, steps[..p]), Run(initial, capacity, steps);
            && s.history <= t.history && 0 <= Seen(s) <= Seen(t) <= |t.history|
            && SeenTo(t.(last := s.last), Seen(s)) && s.last <= t.last
            && (Skipped(initial, capacity, steps[..p]) == Skipped(initial, capacity, steps) ==>
                  t.got == s.got + Span(t.history, Seen(s), Seen(t)))
  {
    hide Run, Next, Missed, Gone, Inv, Rising, Span, Gap;
    if p == |steps| {
      assert steps[..p] == steps;
      var k, from, m := RunKeeps(initial, capacity, steps);
      SeenOf(Run(initial, capacity, steps), k, from, m);
    } else {
      var n := |steps| - 1;
      var before, step := steps[..n], steps[n];
      assert before[..p] == steps[..p];
      GotSince(initial, capacity, before, p);
      var u := Run(initial, capacity, before);
      var k, from, m := RunKeeps(initial, capacity, before);
      FromWithin(u, k, from, m);
      var k', from' := NextMoves(u, step, k, from, m);
      RunStep(initial, capacity, steps);
      var f := Seen(Run(initial, capacity, steps[..p]));
      assert k' <= |Next(u, step).history|;
      SpansJoin(u.history, Next(u, step).history, f, k, k');
    }
  }

  lemma RunStep(initial: seq<Write>, capacity: nat, steps: seq<Step>)
    requires steps != []
    ensures Run(initial, capacity, steps) == Next(Run(initial, capacity, steps[..|steps| - 1]), steps[|steps| - 1])
  {
  }

  lemma SeenOf(s: Sys, k: nat, from: nat, m: nat)
    requires Inv(s, k, from, m)
    ensures Seen(s) == k <= |s.history| && Span(s.history, k, k) == [] && SeenTo(s, k)
  {
    SeenIs(s, k);
  }

  lemma SpansJoin(h: seq<Record>, g: seq<Record>, f: nat, k: nat, k': nat)
    requires h <= g && f <= k <= |h| && k <= k' <= |g|
    ensures Span(g, f, k) == Span(h, f, k) && Span(g, f, k') == Span(h, f, k) + Span(g, k, k')
    ensures k' == k ==> Span(g, k, k') == []
  {
  }

  /** Every recorded event was got by the client, is still to be read, or was skipped: what is
      lost is counted by what was gone from the log at the resumes it read on from. */
  lemma SkipsExactly(initial: seq<Write>, capacity: nat, steps: seq<Step>)
    ensures var s := Run(initial, capacity, steps);
            && |s.history| == |s.got| + |Missed(s.history, s.last)| + Skipped(initial, capacity, steps)
            && Skipped(initial, capacity, steps) >= 0
  {
    hide Missed, Recorded, InOrder, Run, Gap, Rising;
    var k, from, m := RunKeeps(initial, capacity, steps);
    SeenOf(Run(initial, capacity, steps), k, from, m);
    GotSince(initial, capacity, steps, 0);
    assert steps[..0] == [];
  }

  /** From any point of any run on: what the client had not seen then is what it has got since
      and what it has not seen yet, in order and each event once, exactly if it skipped nothing. */
  lemma ExactlyOnce(initial: seq<Write>, capacity: nat, steps: seq<Step>, p: nat)
    requires p <= |steps|
    ensures var s, t := Run(initial, capacity, steps[..p]), Run(initial, capacity, steps);
            s.got + Missed(t.history, s.last) == t.got + Missed(t.history, t.last)
            <==> Skipped(initial, capacity, steps[..p]) == Skipped(initial, capacity, steps)
  {
    hide Run, Skipped, Missed, Seen, Rising;
    var s, t := Run(initial, capacity, steps[..p]), Run(initial, capacity, steps);
    GotSince(initial, capacity, steps, p);
    SkipsExactly(initial, capacity, steps[..p]);
    SkipsExactly(initial, capacity, steps);
    SeenLater(initial, capacity, steps, p);
    var f, k := Seen(s), Seen(t);
    assert f == |s.history| - |Missed(s.history, s.last)| && k == |t.history| - |Missed(t.history, t.last)| by {
      SeenCounts(s);
      SeenCounts(t);
    }
    assert Missed(t.history, s.last) == t.history[f..] && Missed(t.history, t.last) == t.history[k..];
    assert Span(t.history, f, k) + t.history[k..] == t.history[f..];
  }

  lemma SeenCounts(s: Sys)
    ensures Seen(s) == |s.history| - |Missed(s.history, s.last)|
  {
  }

  /** What was not seen then are the events from there on, those recorded since included. */
  lemma SeenLater(initial: seq<Write>, capacity: nat, steps: seq<Step>, p: nat)
    requires p <= |steps|
    ensures var s, t := Run(initial, capacity, steps[..p]), Run(initial, capacity, steps);
            && 0 <= Seen(s) <= |t.history| && 0 <= Seen(t) <= |t.history|
            && Missed(t.history, s.last) == t.history[Seen(s)..] && Missed(t.history, t.last) == t.history[Seen(t)..]
  {
    hide Run, Missed, Skipped, Rising;
    GotSince(initial, capacity, steps, p);
    var s, t := Run(initial, capacity, steps[..p]), Run(initial, capacity, steps);
    var k, from, m := RunKeeps(initial, capacity, steps);
    InvSeen(t, k, from, m);
    SeenIs(t, k);
    SeenIs(t.(last := s.last), Seen(s));
  }

  /** No event was gone from the log at a resume from the `p`th step on. */
  ghost predicate ReachBackFrom(initial: seq<Write>, capacity: nat, steps: seq<Step>, p: nat) {
    forall i :: p <= i < |steps| && steps[i].Resume? ==> ReachesBack(Run(initial, capacity, steps[..i]))
  }

  /** The run begins at step `p`, or a connection resumes there. */
  ghost predicate Connects(steps: seq<Step>, p: nat) {
    p == 0 || (p < |steps| && steps[p].Resume? && |steps[p].waiting| <= steps[p].capacity)
  }

  lemma {:induction false} NoneSkipped(initial: seq<Write>, capacity: nat, steps: seq<Step>, p: nat)
    requires p <= |steps| && Connects(steps, p) && ReachBackFrom(initial, capacity, steps, p)
    ensures Skipped(initial, capacity, steps[..p]) == Skipped(initial, capacity, steps)
    ensures p == 0 || p < |steps| ==> Gap(initial, capacity, steps) == 0
  {
    hide Run, ReachesBack, Gone;
    if p == |steps| {
      assert steps[..p] == steps;
    } else {
      var n := |steps| - 1;
      var before, s := steps[..n], Run(initial, capacity, steps[..n]);
      assert before[..p] == steps[..p];
      if p < n || p == 0 {
        forall i | p <= i < n && before[i].Resume?
          ensures ReachesBack(Run(initial, capacity, before[..i]))
        {
          assert before[..i] == steps[..i] && before[i] == steps[i];
        }
        NoneSkipped(initial, capacity, before, p);
      }
      if steps[n].Resume? {
        var k, from, m := RunKeeps(initial, capacity, before);
        InvSeen(s, k, from, m);
        LogReachesBack(s);
      }
    }
  }

  /** From the start, or from any resume on, as long as no event is gone from the log at that
      resume and later ones: what the client had not seen it reads once and in order, and all
      of it once its queue is drained. */
  lemma ServedOnward(initial: seq<Write>, capacity: nat, steps: seq<Step>, p: nat)
    requires p <= |steps| && Connects(steps, p) && ReachBackFrom(initial, capacity, steps, p)
    ensures var s, t := Run(initial, capacity, steps[..p]), Run(initial, capacity, steps);
            && s.got + Missed(t.history, s.last) == t.got + Missed(t.history, t.last)
            && (t.attached && Recorded(t.queue) == [] ==> t.got == s.got + Missed(t.history, s.last))
  {
    hide Run, Missed, Recorded, Skipped, Gap, ReachesBack, InOrder, Rising;
    NoneSkipped(initial, capacity, steps, p);
    ExactlyOnce(initial, capacity, steps, p);
    var k, from, m := RunKeeps(initial, capacity, steps);
    var t := Run(initial, capacity, steps);
    SeenIs(t, k);
    if t.attached && Recorded(t.queue) == [] {
      Drained(t, k, from, m);
      assert t.got + [] == t.got;
    }
  }

  lemma Drained(t: Sys, k: nat, from: nat, m: nat)
    requires Inv(t, k, from, m) && t.attached && Recorded(t.queue) == [] && from == k
    ensures t.history[k..] == []
  {
  }

  /** A client that missed more events than the log keeps never gets them all. */
  lemma AwayTooLong(s: Sys)
    requires Rising(s.history, s.seqNo) && |Missed(s.history, s.last)| > 256
    ensures !ReachesBack(s)
  {
    hide Missed, LogOf, ReachesBack, Gone;
    LogReachesBack(s);
    RunKeepsNewest(s.history);
  }

  // ---------- at most once ----------

  ghost predicate GotRises(got: seq<Record>, history: seq<Record>, last: int) {
    && (forall i, j :: 0 <= i < j < |got| ==> got[i].seqNo < got[j].seqNo)
    && (forall rec :: rec in got ==> rec in history && rec.seqNo <= last)
  }

  lemma GotMore(got: seq<Record>, history: seq<Record>, last: int, rec: Record)
    requires GotRises(got, history, last) && last < rec.seqNo
    ensures GotRises(got, history, rec.seqNo)
    ensures rec in history ==> GotRises(got + [rec], history, rec.seqNo)
  {
    assert forall i :: 0 <= i < |got| ==> got[i] in got;
  }

  lemma StepRises(s: Sys, step: Step, k: nat, from: nat, m: nat)
    requires Inv(s, k, from, m) && GotRises(s.got, s.history, s.last)
    ensures GotRises(Next(s, step).got, Next(s, step).history, Next(s, step).last)
  {
    hide Inv, Rising, Dispatched, Reattached;
    InvSeen(s, k, from, m);
    if step.Read? {
      if s.queue != [] && s.queue[0].Event? {
        HeadIsNew(s, k, from, m);
        GotMore(s.got, s.history, s.last, s.queue[0].rec);
      }
    } else {
      NotRead(s, step);
    }
  }

  lemma HeadIsNew(s: Sys, k: nat, from: nat, m: nat)
    requires Inv(s, k, from, m) && s.queue != [] && s.queue[0].Event?
    ensures s.last < s.queue[0].rec.seqNo
    ensures s.queue[0].recorded ==> s.queue[0].rec in s.history
  {
    hide InOrder, Rising, Recorded, Span;
    InOrderTail(s.queue, Floor(s, from), Below(s, m));
    FloorWithin(s, from);
    if s.queue[0].recorded {
      ReadRecorded(s, k, from, m);
    }
  }

  lemma {:induction false} RunRises(initial: seq<Write>, capacity: nat, steps: seq<Step>)
    ensures var s := Run(initial, capacity, steps); GotRises(s.got, s.history, s.last)
  {
    hide GotRises, Next;
    if steps == [] {
      NothingGot(initial, capacity);
    } else {
      var before := steps[..|steps| - 1];
      RunRises(initial, capacity, before);
      var k, from, m := RunKeeps(initial, capacity, before);
      StepRises(Run(initial, capacity, before), steps[|steps| - 1], k, from, m);
    }
  }

  lemma NothingGot(initial: seq<Write>, capacity: nat)
    ensures var s := Start(initial, capacity); GotRises(s.got, s.history, s.last)
  {
  }

  /** In every run, whatever its resumes find, the client reads recorded events only, in the
      order recorded, and none twice. */
  lemma AtMostOnce(initial: seq<Write>, capacity: nat, steps: seq<Step>)
    ensures var s := Run(initial, capacity, steps);
            && (forall rec :: rec in s.got ==> rec in s.history)
            && (forall i, j :: 0 <= i < j < |s.got| ==> s.got[i].seqNo < s.got[j].seqNo)
  {
    hide Run;
    RunRises(initial, capacity, steps);
  }

  /** After any run a resume is complete exactly if it is served. */
  lemma AnyResumeExactly(initial: seq<Write>, capacity: nat, steps: seq<Step>, waiting: seq<Write>, room: nat,
      frame: string)
    requires |waiting| <= room
    ensures var s := Run(initial, capacity, steps);
            var t := Next(s, Resume(waiting, room, frame));
            (t.attached && Recorded(t.queue) == Missed(s.history, s.last)) <==> Served(s, waiting, room)
  {
    hide Run, Next, Served, Recorded, Missed, Inv;
    var k, from, m := RunKeeps(initial, capacity, steps);
    InvSeen(Run(initial, capacity, steps), k, from, m);
    ResumeExactly(Run(initial, capacity, steps), waiting, room, frame);
  }
}
