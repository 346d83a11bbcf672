/** A gateway session: sequence numbers, the write queue of its connection, the replay log,
    takeover and resume. */
module GatewaySession {
  import opened Basics
  import opened ReplayLog
  import opened SessionModel

  /** A connection's bounded write queue. Sending to a closed one is an error. */
  class WriteQueue {
    const capacity: nat
    var items: seq<Write>
    var closed: bool

    constructor (capacity: nat)
      ensures this.capacity == capacity && items == [] && !closed
    {
      this.capacity := capacity;
      items, closed := [], false;
    }

    /** A send that gives up instead of waiting. */
    method TrySend(w: Write) returns (sent: bool)
      requires !closed
      modifies this`items
      ensures sent <==> old(|items|) < capacity
      ensures items == if sent then old(items) + [w] else old(items)
    {
      sent := |items| < capacity;
      if sent {
        items := items + [w];
      }
    }

    /** The write pump takes the next write. */
    method Take() returns (w: Write)
      requires items != []
      modifies this`items
      ensures w == old(items[0]) && items == old(items[1..])
    {
      w := items[0];
      items := items[1..];
    }
  }

  ghost function Frames(events: seq<Record>): seq<Write> {
    seq(|events|, i requires 0 <= i < |events| => Frame(events[i].frame))
  }

  class Session {
    var seqNo: nat
    var events: seq<Record>
    var eventsBytes: nat
    var send: WriteQueue?
    var detachedAt: Option<int>
    ghost var history: seq<Record>

    /** The queue the client still reads from: that of its connection, even once given up. */
    ghost var client: WriteQueue?

    /** The log is what recording `history` gives, the byte counter is its believed size, and
        the session never holds a closed queue. */
    ghost predicate Valid()
      reads this, send
    {
      && Rising(history, seqNo)
      && events == LogOf(history).events
      && eventsBytes == Bytes(events) + LogOf(history).drift
      && (send != null ==> !send.closed && client == send)
    }

    /** The session and its client's queue are as the system `s` has them. */
    ghost predicate Shows(s: Sys)
      reads this, client
    {
      && s.seqNo == seqNo && s.history == history
      && (s.attached <==> send != null) && (send != null ==> client == send)
      && (if client == null then s.queue == [] else ItemsOf(s.queue) == client.items && s.capacity == client.capacity)
    }

    constructor ()
      ensures Valid() && seqNo == 0 && history == [] && send == null && detachedAt == None && client == null
    {
      seqNo, events, eventsBytes, send, detachedAt, history, client := 0, [], 0, null, None, [], null;
    }

    /** Binds the session to a connection's queue and closes the one it displaces. */
    method Attach(ch: WriteQueue) returns (tookOver: bool)
      requires Valid() && !ch.closed
      modifies this`send, this`detachedAt, this`client, send
      ensures Valid() && send == ch == client && detachedAt == None && !ch.closed && ch.items == old(ch.items)
      ensures seqNo == 0 && history == [] ==> Shows(Start(ch.items, ch.capacity))
      ensures tookOver <==> old(send) != null && old(send) != ch
      ensures tookOver ==> old(send).closed && old(send).items == old(send.items)
    {
      tookOver := send != null && send != ch;
      if tookOver {
        send.closed := true;
      }
      send := ch;
      client := ch;
      detachedAt := None;
      assert ItemsOf(Controls(ch.items)) == ch.items;
    }

    /** Unbinds the queue of a connection that ended, unless another one took over. */
    method Detach(ch: WriteQueue, now: int)
      requires Valid()
      modifies this`send, this`detachedAt, this`client
      ensures Valid()
      ensures forall s :: old(Shows(s)) ==> Shows(if old(client) == ch then Next(s, Drop) else s)
      ensures if old(send) == ch then send == null && detachedAt == Some(now)
              else send == old(send) && detachedAt == old(detachedAt)
    {
      if send == ch {
        send := null;
        detachedAt := Some(now);
      }
      if client == ch {
        client := null;
      }
    }

    /** Queues one frame; a full queue is closed and given up. */
    method SendFrame(frame: string, now: int)
      requires Valid()
      modifies this`send, this`detachedAt, send
      ensures Valid()
      ensures old(send) == null ==> send == null && detachedAt == old(detachedAt)
      ensures old(send) != null && old(|send.items|) < old(send).capacity ==>
                send == old(send) && send.items == old(send.items) + [Frame(frame)] && detachedAt == old(detachedAt)
      ensures old(send) != null && old(|send.items|) >= old(send).capacity ==>
                send == null && old(send).closed && old(send).items == old(send.items) && detachedAt == Some(now)
    {
      if send == null {
        return;
      }
      var sent := send.TrySend(Frame(frame));
      if !sent {
        send.closed := true;
        send := null;
        detachedAt := Some(now);
      }
    }

    /** Records one frame and drops the oldest ones the limits push out. */
    method Record(frame: string)
      requires Rising(history, seqNo - 1) && 0 < seqNo
      requires events == LogOf(history).events && eventsBytes == Bytes(events) + LogOf(history).drift
      modifies this`events, this`eventsBytes, this`history
      ensures history == old(history) + [ReplayLog.Record(seqNo, frame)]
      ensures Rising(history, seqNo)
      ensures events == LogOf(history).events && eventsBytes == Bytes(events) + LogOf(history).drift
    {
      hide TrimBytes, Bytes, LogOf, AfterRecord;
      ghost var drift := LogOf(history).drift;
      var rec := ReplayLog.Record(seqNo, frame);
      LogOfSnoc(history, rec);
      history := history + [rec];
      BytesConcat(events, [rec]);
      OneRecordBytes(rec);
      events := events + [rec];
      eventsBytes := eventsBytes + |frame|;
      ghost var all := events;
      while eventsBytes > REPLAY_BYTES && |events| > 1
        invariant history == old(history) + [rec]
        invariant events != [] && eventsBytes == Bytes(events) + drift
        invariant TrimBytes(events, drift) == TrimBytes(all, drift)
        decreases |events|
      {
        TrimStep(events, drift);
        eventsBytes := eventsBytes - |events[0].frame|;
        events := events[1..];
      }
      TrimStep(events, drift);
      AfterRecordIs(LogOf(old(history)), rec);
      if |events| > REPLAY_LIMIT {
        var cut := |events| - REPLAY_LIMIT;
        BytesConcat(events[..cut], events[cut..]);
        assert events == events[..cut] + events[cut..];
        events := events[cut..];
      }
    }

    /** Gives the next sequence number to a payload, records it if asked to, and queues it.
        `encode` is what serialising the payload under a number gives, if it can be. */
    method DispatchRaw(encode: nat -> Option<string>, record: bool, now: int) returns (r: Option<nat>)
      requires Valid()
      modifies this, send
      ensures Valid()
      ensures encode(old(seqNo) + 1) == None ==>
                r == None && seqNo == old(seqNo) && history == old(history) && send == old(send) &&
                  detachedAt == old(detachedAt)
                && (send != null ==> send.items == old(send.items))
      ensures encode(old(seqNo) + 1).Some? ==>
                r == Some(seqNo) && seqNo == old(seqNo) + 1
                && history ==
                   (if record then old(history) + [ReplayLog.Record(seqNo, encode(seqNo).value)] else old(history))
      ensures encode(old(seqNo) + 1).Some? && old(send) != null && old(|send.items|) < old(send).capacity ==>
                send == old(send) && send.items == old(send.items) + [Frame(encode(seqNo).value)]
      ensures encode(old(seqNo) + 1).Some? && old(send) != null && old(|send.items|) >= old(send).capacity ==>
                send == null && old(send).closed && old(send).items == old(send.items)
      ensures old(send) == null ==> send == null
      ensures client == old(client) && (client != null && client != old(send) ==> client.items == old(client.items))
      ensures forall s :: old(Shows(s)) ==>
                Shows(if encode(old(seqNo) + 1).Some? then Next(s, Dispatch(encode(old(seqNo) + 1).value, record))
                      else s)
    {
      hide LogOf, Bytes, ItemsOf;
      seqNo := seqNo + 1;
      var encoded := encode(seqNo);
      if encoded == None {
        seqNo := seqNo - 1;
        return None;
      }
      if record {
        Record(encoded.value);
      }
      SendFrame(encoded.value, now);
      forall s | old(Shows(s))
        ensures Shows(Next(s, Dispatch(encoded.value, record)))
      {
        ItemsOfSnoc(s.queue, Event(ReplayLog.Record(s.seqNo + 1, encoded.value), record));
      }
      return Some(seqNo);
    }

    /** Queues the logged events after `since`, as far as the queue has room. */
    method Replay(since: int, ch: WriteQueue)
      requires !ch.closed && |ch.items| <= ch.capacity
      modifies ch`items
      ensures ch.items == old(ch.items) + Fit(Frames(Missed(events, since)), ch.capacity - old(|ch.items|))
    {
      hide Missed, Fit, Frames;
      ghost var room := ch.capacity - |ch.items|;
      NoneMissed(since, room);
      for i := 0 to |events|
        invariant ch.items == old(ch.items) + Fit(Frames(Missed(events[..i], since)), room)
      {
        MissedSnoc(events[..i], events[i], since);
        assert events[..i + 1] == events[..i] + [events[i]];
        if events[i].seqNo > since {
          FitSnoc(Missed(events[..i], since), events[i], room);
          var sent := ch.TrySend(Frame(events[i].frame));
        }
      }
      assert events[..|events|] == events;
    }

    /** The resume of a session on a new connection, with no dispatch in between: the queue
        gets the logged events after `since` and then RESUMED. */
    method Resume(since: int, ch: WriteQueue, encode: nat -> Option<string>, now: int)
      requires Valid() && !ch.closed && |ch.items| <= ch.capacity && encode(seqNo + 1).Some?
      modifies this, send, ch
      ensures Valid() && seqNo == old(seqNo) + 1 && history == old(history)
      ensures var replayed := old(ch.items) + Fit(Frames(Missed(old(events), since)), ch.capacity - old(|ch.items|));
              if |replayed| < ch.capacity then send == ch && ch.items == replayed + [Frame(encode(seqNo).value)]
              else send == null && ch.closed && ch.items == replayed
      ensures forall s :: old(Shows(s)) && s.last == since ==>
                Shows(Next(s, Step.Resume(old(ch.items), ch.capacity, encode(seqNo).value)))
    {
      hide LogOf, Missed, Bytes, ItemsOf, Fit, Frames, Events, Controls;
      var tookOver := Attach(ch);
      Replay(since, ch);
      forall s | old(Shows(s)) && s.last == since
        ensures Shows(Reattached(s, old(ch.items), ch.capacity))
      {
        ItemsOfReplay(old(ch.items), Missed(events, since), ch.capacity - |old(ch.items)|);
      }
      var r := DispatchRaw(encode, false, now);
    }
  }

  lemma LogOfSnoc(history: seq<Record>, rec: Record)
    ensures LogOf(history + [rec]) == AfterRecord(LogOf(history), rec)
  {
    assert (history + [rec])[..|history|] == history;
  }

  lemma OneRecordBytes(rec: Record)
    ensures Bytes([rec]) == |rec.frame|
  {
    assert [rec][1..] == [];
  }

  lemma TrimStep(events: seq<Record>, drift: nat)
    requires events != []
    ensures Bytes(events) == |events[0].frame| + Bytes(events[1..])
    ensures TrimBytes(events, drift) ==
            if |events| > 1 && Bytes(events) + drift > REPLAY_BYTES then TrimBytes(events[1..], drift) else events
  {
  }

  lemma NoneMissed(since: int, room: nat)
    ensures Missed([], since) == [] && Fit(Frames([]), room) == []
  {
  }

  lemma {:induction false} MissedSnoc(events: seq<Record>, rec: Record, since: int)
    ensures Missed(events + [rec], since) == 
            if rec.seqNo > since then Missed(events, since) + [rec] else Missed(events, since)
  {
    if events == [] {
      assert events + [rec] == [rec] && [rec][1..] == [];
    } else {
      assert (events + [rec])[1..] == events[1..] + [rec];
      MissedSnoc(events[1..], rec, since);
    }
  }

  lemma FitSnoc(events: seq<Record>, rec: Record, room: nat)
    ensures |Fit(Frames(events), room)| <= room
    ensures Fit(Frames(events + [rec]), room) ==
            if |Fit(Frames(events), room)| < room then Fit(Frames(events), room) + [Frame(rec.frame)]
              else Fit(Frames(events), room)
  {
    assert Frames(events + [rec]) == Frames(events) + [Frame(rec.frame)];
  }

  lemma ItemsOfSnoc(queue: seq<Wire>, w: Wire)
    ensures ItemsOf(queue + [w]) == ItemsOf(queue) + ItemsOf([w]) && |ItemsOf(queue)| == |queue|
    ensures ItemsOf([w]) == [if w.Event? then Frame(w.rec.frame) else w.item]
  {
  }

  lemma ItemsOfReplay(waiting: seq<Write>, recs: seq<Record>, room: nat)
    ensures ItemsOf(Controls(waiting) + Fit(Events(recs), room)) == waiting + Fit(Frames(recs), room)
  {
  }

  /** A write taken by the pump is what the client reads next. */
  lemma TakeIsRead(s: Sys)
    requires s.queue != []
    ensures ItemsOf(Next(s, Read).queue) == ItemsOf(s.queue)[1..]
  {
  }

  /** An answer put on the client's queue, while it has room, is the system's. */
  lemma TrySendIsAnswer(s: Sys, item: Write)
    requires s.attached
    ensures ItemsOf(Next(s, Answer(item)).queue) ==
            if |ItemsOf(s.queue)| < s.capacity then ItemsOf(s.queue) + [item] else ItemsOf(s.queue)
  {
  }
}
