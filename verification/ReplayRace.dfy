/** A resume while the write pump already reads the new connection's queue: which of the events
    the client missed get into the queue. */
module ReplayRace {
  import opened ReplayLog
  import opened SessionModel

  /** The replay offers the next missed event to the queue, or the pump takes a write off it. */
  datatype Move = Offer(rec: Record) | Pump

  /** What the pump has taken, and what still waits. */
  datatype Line = Line(out: seq<Wire>, queue: seq<Wire>)

  /** An event offered to a full queue is passed over. */
  ghost function Moved(l: Line, capacity: nat, move: Move): Line {
    match move
    case Offer(rec) => if |l.queue| < capacity then l.(queue := l.queue + [Event(rec, true)]) else l
    case Pump => if l.queue == [] then l else Line(l.out + [l.queue[0]], l.queue[1..])
  }

  ghost function Played(l: Line, capacity: nat, moves: seq<Move>): Line {
    if moves == [] then l else Moved(Played(l, capacity, moves[..|moves| - 1]), capacity, moves[|moves| - 1])
  }

  /** The connection as the resume finds it. */
  ghost function Fresh(waiting: seq<Write>): Line {
    Line([], Controls(waiting))
  }

  /** The events the replay offers. */
  ghost function Offers(moves: seq<Move>): seq<Record> {
    if moves == [] then []
    else
      var last := moves[|moves| - 1];
      Offers(moves[..|moves| - 1]) + (if last.Offer? then [last.rec] else [])
  }

  /** How many writes wait if `n` did at first and none is turned away. */
  ghost function Depth(n: nat, moves: seq<Move>): nat {
    if moves == [] then n
    else
      var d := Depth(n, moves[..|moves| - 1]);
      if moves[|moves| - 1].Offer? then d + 1 else if d > 0 then d - 1 else 0
  }

  /** The pump keeps up: whenever an event is offered, fewer writes wait than the queue takes. */
  ghost predicate KeepsUp(n: nat, capacity: nat, moves: seq<Move>) {
    forall i :: 0 <= i < |moves| && moves[i].Offer? ==> Depth(n, moves[..i]) < capacity
  }

  /** Everything the client gets on this connection. */
  ghost function Delivered(l: Line): seq<Wire> {
    l.out + l.queue
  }

  /** The client gets what waited, and after it some of the events offered, in order; all of
      them, and then just as many writes wait as counted, if the pump keeps up. */
  ghost predicate Passed(waiting: seq<Write>, capacity: nat, moves: seq<Move>, got: seq<Record>) {
    var l := Played(Fresh(waiting), capacity, moves);
    && Delivered(l) == Controls(waiting) + Events(got)
    && |got| <= |Offers(moves)|
    && (KeepsUp(|waiting|, capacity, moves) ==> got == Offers(moves) && |l.queue| == Depth(|waiting|, moves))
    && (!KeepsUp(|waiting|, capacity, moves) ==> |got| < |Offers(moves)|)
  }

  lemma KeepsUpSnoc(n: nat, capacity: nat, moves: seq<Move>)
    requires moves != []
    ensures var k := |moves| - 1;
            KeepsUp(n, capacity, moves) <==>
            KeepsUp(n, capacity, moves[..k]) && (moves[k].Offer? ==> Depth(n, moves[..k]) < capacity)
  {
    var k := |moves| - 1;
    assert forall i :: 0 <= i < k ==> moves[..k][..i] == moves[..i] && moves[..k][i] == moves[i];
  }

  lemma PumpDelivers(l: Line, capacity: nat)
    ensures Delivered(Moved(l, capacity, Pump)) == Delivered(l)
  {
  }

  lemma OfferDelivers(l: Line, capacity: nat, rec: Record, waiting: seq<Write>, got: seq<Record>)
    requires Delivered(l) == Controls(waiting) + Events(got)
    ensures |l.queue| < capacity ==>
              Delivered(Moved(l, capacity, Offer(rec))) == Controls(waiting) + Events(got + [rec])
  {
    var e := [Event(rec, true)];
    assert Events(got + [rec]) == Events(got) + e;
    assert l.out + (l.queue + e) == Delivered(l) + e;
    assert (Controls(waiting) + Events(got)) + e == Controls(waiting) + (Events(got) + e);
  }

  lemma {:induction false} Passes(waiting: seq<Write>, capacity: nat, moves: seq<Move>) returns (got: seq<Record>)
    ensures Passed(waiting, capacity, moves, got)
  {
    hide Delivered, Controls, Events, KeepsUp;
    if moves == [] {
      got := [];
      NothingMoved(waiting, capacity);
    } else {
      var k := |moves| - 1;
      var l, move := Played(Fresh(waiting), capacity, moves[..k]), moves[k];
      got := Passes(waiting, capacity, moves[..k]);
      KeepsUpSnoc(|waiting|, capacity, moves);
      if move.Pump? {
        PumpDelivers(l, capacity);
      } else {
        OfferDelivers(l, capacity, move.rec, waiting, got);
        if |l.queue| < capacity {
          got := got + [move.rec];
        }
      }
    }
  }

  lemma NothingMoved(waiting: seq<Write>, capacity: nat)
    ensures Passed(waiting, capacity, [], [])
  {
    assert Controls(waiting) + Events([]) == Controls(waiting);
  }

  /** The client gets every event the replay offers, once and in order, exactly if the pump keeps
      up; an event offered to a full queue it does not get on this connection. */
  lemma ReplayedExactly(waiting: seq<Write>, capacity: nat, moves: seq<Move>)
    ensures Delivered(Played(Fresh(waiting), capacity, moves)) == Controls(waiting) + Events(Offers(moves))
            <==> KeepsUp(|waiting|, capacity, moves)
  {
    hide KeepsUp, Delivered;
    var got := Passes(waiting, capacity, moves);
    if Controls(waiting) + Events(got) == Controls(waiting) + Events(Offers(moves)) {
      assert |waiting| + |got| == |waiting| + |Offers(moves)|;
    }
  }

  ghost function OfferAll(recs: seq<Record>): seq<Move> {
    seq(|recs|, i requires 0 <= i < |recs| => Offer(recs[i]))
  }

  /** While the pump stands still the replay is the one taken as a single step. */
  lemma {:induction false} StillPump(waiting: seq<Write>, capacity: nat, recs: seq<Record>)
    requires |waiting| <= capacity
    ensures Played(Fresh(waiting), capacity, OfferAll(recs)) ==
            Line([], Controls(waiting) + Fit(Events(recs), capacity - |waiting|))
    ensures Offers(OfferAll(recs)) == recs
  {
    if recs == [] {
      assert Controls(waiting) + Fit(Events([]), capacity - |waiting|) == Controls(waiting);
    } else {
      var n := |recs| - 1;
      StillPump(waiting, capacity, recs[..n]);
      assert OfferAll(recs)[..n] == OfferAll(recs[..n]) && recs == recs[..n] + [recs[n]];
      assert Events(recs) == Events(recs[..n]) + [Event(recs[n], true)];
    }
  }

  /** A replay one event too long for the queue: the pump takes a write only after it, and there
      is room for RESUMED though the last event is missing. */
  lemma RoomForResumed(waiting: seq<Write>, capacity: nat, recs: seq<Record>)
    requires capacity > 0 && recs != [] && |waiting| + |recs| == capacity + 1
    ensures var moves := OfferAll(recs) + [Pump];
            var l := Played(Fresh(waiting), capacity, moves);
            && Offers(moves) == recs && |l.queue| < capacity
            && Delivered(l) == Controls(waiting) + Events(recs[..|recs| - 1])
  {
    hide Played, Moved;
    var moves, n := OfferAll(recs) + [Pump], |recs| - 1;
    StillPump(waiting, capacity, recs);
    assert moves[..|recs|] == OfferAll(recs);
    var l := Line([], Controls(waiting) + Fit(Events(recs), capacity - |waiting|));
    assert Fit(Events(recs), capacity - |waiting|) == Events(recs[..n]);
    LastMove(Fresh(waiting), capacity, moves);
    PumpDelivers(l, capacity);
    assert Delivered(l) == l.queue;
    PumpTakes(l, capacity);
  }

  lemma LastMove(l: Line, capacity: nat, moves: seq<Move>)
    requires moves != []
    ensures Played(l, capacity, moves) == Moved(Played(l, capacity, moves[..|moves| - 1]), capacity, moves[|moves| - 1])
  {
  }

  lemma PumpTakes(l: Line, capacity: nat)
    requires l.queue != []
    ensures |Moved(l, capacity, Pump).queue| == |l.queue| - 1
  {
  }
}
