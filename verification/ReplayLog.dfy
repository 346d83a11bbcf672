/** The replay log of one gateway session: which recorded frames it keeps. */
module ReplayLog {

  const REPLAY_LIMIT: nat := 256
  const REPLAY_BYTES: nat := 4194304

  /** One recorded event: its sequence number and the bytes sent for it. */
  datatype Record = Record(seqNo: nat, frame: string)

  ghost function Bytes(events: seq<Record>): nat {
    if events == [] then 0 else |events[0].frame| + Bytes(events[1..])
  }

  /** The log with the size the session believes it has: `drift` bytes above the true one. */
  datatype Log = Log(events: seq<Record>, drift: nat)

  /** Dropping oldest frames until the believed size is within the limit or one is left. */
  ghost function TrimBytes(events: seq<Record>, drift: nat): seq<Record> {
    if |events| > 1 && Bytes(events) + drift > REPLAY_BYTES then TrimBytes(events[1..], drift) else events
  }

  /** The log after one more recorded frame. The count limit drops frames without taking
      their bytes off the believed size, so they stay in `drift` for good. */
  ghost function AfterRecord(log: Log, rec: Record): Log {
    var kept := TrimBytes(log.events + [rec], log.drift);
    if |kept| > REPLAY_LIMIT then
      Log(kept[|kept| - REPLAY_LIMIT..], log.drift + Bytes(kept[..|kept| - REPLAY_LIMIT]))
    else Log(kept, log.drift)
  }

  /** The last `n` elements. */
  ghost function Newest<T>(s: seq<T>, n: nat): seq<T>
    requires n <= |s|
  {
    s[|s| - n..]
  }

  ghost predicate IsSuffix<T>(a: seq<T>, b: seq<T>) {
    |a| <= |b| && a == Newest(b, |a|)
  }

  lemma SuffixSnoc<T>(a: seq<T>, b: seq<T>, x: T)
    requires IsSuffix(a, b)
    ensures IsSuffix(a + [x], b + [x])
  {
  }

  lemma SuffixOf<T>(a: seq<T>, b: seq<T>, c: seq<T>)
    requires IsSuffix(a, b) && IsSuffix(b, c)
    ensures IsSuffix(a, c)
  {
  }

  lemma NewestIsSuffix<T>(s: seq<T>, n: nat)
    requires n <= |s|
    ensures IsSuffix(Newest(s, n), s) && s == s[..|s| - n] + Newest(s, n)
  {
  }

  /** What a log always is: the newest frames of `history`, at least the last one, within
      both limits as far as the byte limit counts the drift. */
  ghost predicate KeepsNewest(log: Log, history: seq<Record>) {
    && IsSuffix(log.events, history)
    && |log.events| <= REPLAY_LIMIT
    && (history != [] ==> log.events != [])
    && (|log.events| <= 1 || Bytes(log.events) + log.drift <= REPLAY_BYTES)
  }

  lemma {:induction false} TrimBytesKeeps(events: seq<Record>, drift: nat)
    requires events != []
    ensures var kept := TrimBytes(events, drift);
            && kept != [] && IsSuffix(kept, events)
            && (|kept| == 1 || Bytes(kept) + drift <= REPLAY_BYTES)
            && (forall n :: |kept| < n <= |events| ==> Bytes(Newest(events, n)) + drift > REPLAY_BYTES)
  {
    if |events| > 1 && Bytes(events) + drift > REPLAY_BYTES {
      var rest := events[1..];
      TrimBytesKeeps(rest, drift);
      forall n | |TrimBytes(events, drift)| < n <= |events|
        ensures Bytes(Newest(events, n)) + drift > REPLAY_BYTES
      {
        if n < |events| {
          assert Newest(rest, n) == Newest(events, n);
        } else {
          assert Newest(events, n) == events;
        }
      }
    } else {
      assert Newest(events, |events|) == events;
    }
  }

  /** Recording keeps the log the newest frames of the history; and it keeps as many as fit:
      with one more frame a limit would be broken, or there is no older one in the log. */
  lemma RecordKeepsNewest(log: Log, rec: Record, history: seq<Record>)
    requires KeepsNewest(log, history)
    ensures KeepsNewest(AfterRecord(log, rec), history + [rec])
    ensures var all, n := log.events + [rec], |AfterRecord(log, rec).events|;
            && n <= |all|
            && (n < |all| && n < REPLAY_LIMIT ==> Bytes(Newest(all, n + 1)) + log.drift > REPLAY_BYTES)
  {
    hide TrimBytes, Bytes, Newest;
    var all := log.events + [rec];
    TrimBytesKeeps(all, log.drift);
    var kept := TrimBytes(all, log.drift);
    SuffixSnoc(log.events, history, rec);
    SuffixOf(kept, all, history + [rec]);
    if |kept| > REPLAY_LIMIT {
      var cut := |kept| - REPLAY_LIMIT;
      NewestIsSuffix(kept, REPLAY_LIMIT);
      AfterRecordIs(log, rec);
      SuffixOf(Newest(kept, REPLAY_LIMIT), kept, history + [rec]);
      BytesConcat(kept[..cut], Newest(kept, REPLAY_LIMIT));
    }
  }

  lemma AfterRecordIs(log: Log, rec: Record)
    ensures var kept := TrimBytes(log.events + [rec], log.drift);
            AfterRecord(log, rec) ==
            if |kept| > REPLAY_LIMIT then
              Log(Newest(kept, REPLAY_LIMIT), log.drift + Bytes(kept[..|kept| - REPLAY_LIMIT]))
            else Log(kept, log.drift)
  {
  }

  lemma {:induction false} BytesConcat(a: seq<Record>, b: seq<Record>)
    ensures Bytes(a + b) == Bytes(a) + Bytes(b)
  {
    if a == [] {
      assert a + b == b;
    } else {
      assert (a + b)[1..] == a[1..] + b;
      BytesConcat(a[1..], b);
    }
  }

  /** The believed size is off by exactly the bytes the count limit has dropped so far: one
      frame whenever 257 frames were within the byte limit, and nothing otherwise. */
  lemma DriftGrows(log: Log, rec: Record)
    requires |log.events| <= REPLAY_LIMIT
    ensures var all := log.events + [rec];
            AfterRecord(log, rec).drift ==
            if |all| > REPLAY_LIMIT && Bytes(all) + log.drift <= REPLAY_BYTES then log.drift + |all[0].frame|
              else log.drift
  {
    var all := log.events + [rec];
    TrimBytesKeeps(all, log.drift);
    var kept := TrimBytes(all, log.drift);
    if |kept| > REPLAY_LIMIT {
      assert kept == all;
      assert kept[..1] == [all[0]];
      assert Bytes([all[0]]) == |all[0].frame| + Bytes([all[0]][1..]);
    }
  }

  // ---------- runs ----------

  /** The log after recording the frames of `history` one by one. */
  ghost function LogOf(history: seq<Record>): Log {
    if history == [] then Log([], 0) else AfterRecord(LogOf(history[..|history| - 1]), history[|history| - 1])
  }

  /** At every point of every run the log is the newest frames of what was recorded, and the
      true size is within the limit less the drift, unless one frame is left. */
  lemma {:induction false} RunKeepsNewest(history: seq<Record>)
    ensures KeepsNewest(LogOf(history), history)
    ensures var log := LogOf(history).events; |log| <= 256 && (|log| <= 1 || Bytes(log) <= 4194304)
  {
    hide AfterRecord, Bytes;
    if history != [] {
      var before, rec := history[..|history| - 1], history[|history| - 1];
      RunKeepsNewest(before);
      RecordKeepsNewest(LogOf(before), rec, before);
      assert before + [rec] == history;
    }
  }

  /** The byte budget a run has lost is never regained. */
  lemma {:induction false} DriftNeverShrinks(history: seq<Record>, k: nat)
    requires k <= |history|
    ensures LogOf(history[..k]).drift <= LogOf(history).drift
  {
    if k == |history| {
      assert history[..k] == history;
    } else {
      var before := history[..|history| - 1];
      assert before[..k] == history[..k];
      DriftNeverShrinks(before, k);
      RunKeepsNewest(before);
      DriftGrows(LogOf(before), history[|history| - 1]);
    }
  }

  /** Frame `k` and the 256 before it fit the byte limit together, and the oldest has bytes. */
  ghost predicate Overfull(history: seq<Record>, k: int) {
    && REPLAY_LIMIT <= k < |history|
    && Bytes(history[k - REPLAY_LIMIT..k + 1]) <= REPLAY_BYTES
    && history[k - REPLAY_LIMIT].frame != []
  }

  lemma NewestSnoc<T>(s: seq<T>, x: T, n: nat)
    requires n <= |s|
    ensures Newest(s + [x], n + 1) == Newest(s, n) + [x]
  {
  }

  lemma NewestOfSuffix<T>(a: seq<T>, b: seq<T>, n: nat)
    requires IsSuffix(a, b) && n <= |a|
    ensures Newest(a, n) == Newest(b, n)
  {
  }

  /** The log does not drop what fits both limits, as long as it has not lost any budget. */
  lemma {:induction false} KeepsWhatFits(history: seq<Record>, w: nat)
    requires LogOf(history).drift == 0
    requires w <= |history| && w <= 256 && Bytes(Newest(history, w)) <= 4194304
    ensures |LogOf(history).events| >= w
  {
    hide AfterRecord, Bytes, Newest, IsSuffix;
    if w > 0 {
      var n := |history| - 1;
      var before, rec := history[..n], history[n];
      assert history == before + [rec];
      DriftNeverShrinks(history, n);
      RunKeepsNewest(before);
      NewestSnoc(before, rec, w - 1);
      BytesConcat(Newest(before, w - 1), [rec]);
      KeepsWhatFits(before, w - 1);
      RecordKeepsNewest(LogOf(before), rec, before);
      var all, kept := LogOf(before).events + [rec], |LogOf(history).events|;
      SuffixSnoc(LogOf(before).events, before, rec);
      if kept < w {
        NewestOfSuffix(all, history, kept + 1);
        NewestOfNewest(history, kept + 1, w);
        assert false;
      }
    }
  }

  lemma NewestOfNewest(history: seq<Record>, n: nat, w: nat)
    requires n <= w <= |history|
    ensures Bytes(Newest(history, n)) <= Bytes(Newest(history, w))
  {
    assert Newest(history, w) == Newest(history, w)[..w - n] + Newest(history, n);
    BytesConcat(Newest(history, w)[..w - n], Newest(history, n));
  }

  lemma SuffixIsLonger<T>(a: seq<T>, b: seq<T>)
    requires IsSuffix(a, b)
    ensures |a| <= |b|
  {
  }

  lemma SuffixIsNewest<T>(a: seq<T>, b: seq<T>)
    requires IsSuffix(a, b)
    ensures a == Newest(b, |a|)
  {
  }

  lemma LastOnes(history: seq<Record>, rec: Record)
    requires |history| > REPLAY_LIMIT && rec == history[|history| - 1]
    ensures var n := |history| - 1;
            && Newest(history[..n], REPLAY_LIMIT) + [rec] == history[n - REPLAY_LIMIT..n + 1]
            && (Newest(history[..n], REPLAY_LIMIT) + [rec])[0] == history[n - REPLAY_LIMIT]
  {
  }

  /** One more frame loses the first bytes of the budget exactly if the log is `Overfull`. */
  lemma FirstDrift(history: seq<Record>)
    requires history != [] && LogOf(history[..|history| - 1]).drift == 0
    ensures LogOf(history).drift > 0 <==> Overfull(history, |history| - 1)
  {
    hide AfterRecord, Bytes, IsSuffix, Newest;
    var n := |history| - 1;
    var before, rec, log := history[..n], history[n], LogOf(history[..n]).events;
    RunKeepsNewest(before);
    DriftGrows(LogOf(before), rec);
    SuffixIsLonger(log, before);
    if REPLAY_LIMIT <= n {
      LastOnes(history, rec);
      var last := Newest(before, REPLAY_LIMIT);
      BytesConcat(last, [rec]);
      if |log| < REPLAY_LIMIT && Bytes(last) <= REPLAY_BYTES {
        KeepsWhatFits(before, REPLAY_LIMIT);
        assert false;
      } else if |log| == REPLAY_LIMIT {
        SuffixIsNewest(log, before);
      }
    }
  }

  /** The believed size is the true size exactly if no 257 frames recorded one after another
      fitted the byte limit, the oldest of them with bytes. */
  lemma {:induction false} DriftExactly(history: seq<Record>)
    ensures LogOf(history).drift == 0 <==> forall k :: !Overfull(history, k)
  {
    hide AfterRecord, LogOf, Bytes;
    if history == [] {
      NoDrift();
    } else {
      var n := |history| - 1;
      var before := history[..n];
      DriftExactly(before);
      DriftNeverShrinks(history, n);
      forall k | k < n
        ensures Overfull(history, k) <==> Overfull(before, k)
      {
        if REPLAY_LIMIT <= k {
          assert before[k - REPLAY_LIMIT..k + 1] == history[k - REPLAY_LIMIT..k + 1];
        }
      }
      if LogOf(before).drift == 0 {
        FirstDrift(history);
      }
    }
  }

  lemma NoDrift()
    ensures LogOf([]).drift == 0
  {
  }

  ghost function SmallFrames(n: nat): seq<Record> {
    seq(n, i requires 0 <= i < n => Record(i + 1, "x"))
  }

  lemma {:induction false} SmallFramesBytes(n: nat)
    ensures Bytes(SmallFrames(n)) == n
  {
    if n > 0 {
      SmallFramesBytes(n - 1);
      BytesConcat(SmallFrames(n - 1), [Record(n, "x")]);
      assert SmallFrames(n) == SmallFrames(n - 1) + [Record(n, "x")];
      assert [Record(n, "x")][1..] == [];
    }
  }

  /** 257 frames of one byte are enough to lose a byte of the budget. */
  lemma SmallFramesDrift()
    ensures LogOf(SmallFrames(257)).drift > 0
  {
    hide LogOf, Bytes;
    var history := SmallFrames(REPLAY_LIMIT + 1);
    SmallFramesBytes(REPLAY_LIMIT + 1);
    assert history[0..REPLAY_LIMIT + 1] == history;
    assert Overfull(history, REPLAY_LIMIT);
    DriftExactly(history);
  }
}
