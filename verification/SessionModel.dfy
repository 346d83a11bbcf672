/** A gateway session with its client as one system: what each step does to both. */
module SessionModel {
  import opened ReplayLog

  /** A queued write: a frame, or a barrier that asks to be told when it is reached. */
  datatype Write = Frame(frame: string) | Barrier

  /** The sequence numbers of a history rise strictly and none is beyond `top`. */
  ghost predicate Rising(history: seq<Record>, top: int) {
    && (forall i :: 0 <= i < |history| ==> 0 < history[i].seqNo <= top)
    && (forall i, j :: 0 <= i < j < |history| ==> history[i].seqNo < history[j].seqNo)
  }

  /** The logged events a client has not seen. */
  ghost function Missed(events: seq<Record>, since: int): seq<Record> {
    if events == [] then []
    else (if events[0].seqNo > since then [events[0]] else []) + Missed(events[1..], since)
  }

  /** As much of a list as there is room for. */
  ghost function Fit<T>(s: seq<T>, room: nat): seq<T> {
    if |s| <= room then s else s[..room]
  }

  /** What waits in the connection's queue: a dispatch with its number, or a frame without one. */
  datatype Wire = Event(rec: Record, recorded: bool) | Control(item: Write)

  /** The session (`history` to `capacity`) and its client: `got` are the recorded events it
      has read and `last` the last sequence number it has seen. */
  datatype Sys = Sys(history: seq<Record>, seqNo: nat, attached: bool, queue: seq<Wire>, capacity: nat,
                     got: seq<Record>, last: nat)

  datatype Step =
    | Dispatch(frame: string, record: bool)
    | Answer(item: Write)
    | Read
    | Drop
    | Resume(waiting: seq<Write>, capacity: nat, frame: string)

  /** A new session, just attached to a connection where some writes already wait. */
  ghost function Start(waiting: seq<Write>, capacity: nat): Sys {
    Sys([], 0, true, Controls(waiting), capacity, [], 0)
  }

  ghost function Dispatched(s: Sys, frame: string, record: bool): Sys {
    var rec := Record(s.seqNo + 1, frame);
    var t := s.(seqNo := s.seqNo + 1, history := if record then s.history + [rec] else s.history);
    if !s.attached then t
    else if |s.queue| < s.capacity then t.(queue := s.queue + [Event(rec, record)])
    else t.(attached := false)
  }

  ghost function Controls(waiting: seq<Write>): seq<Wire> {
    seq(|waiting|, i requires 0 <= i < |waiting| => Control(waiting[i]))
  }

  ghost function Events(recs: seq<Record>): seq<Wire> {
    seq(|recs|, i requires 0 <= i < |recs| => Event(recs[i], true))
  }

  /** The new connection's queue, where `waiting` already waits, once it is attached
      and the missed events are replayed into it. */
  ghost function Reattached(s: Sys, waiting: seq<Write>, capacity: nat): Sys
    requires |waiting| <= capacity
  {
    s.(attached := true, capacity := capacity,
       queue := Controls(waiting) + Fit(Events(Missed(LogOf(s.history).events, s.last)), capacity - |waiting|))
  }

  ghost function ReadOne(s: Sys): Sys {
    if s.queue == [] then s
    else
      match s.queue[0]
      case Control(_) => s.(queue := s.queue[1..])
      case Event(rec, recorded) =>
        s.(queue := s.queue[1..], last := rec.seqNo, got := if recorded then s.got + [rec] else s.got)
  }

  ghost function Next(s: Sys, step: Step): Sys {
    match step
    case Dispatch(frame, record) => Dispatched(s, frame, record)
    case Answer(item) => if s.attached && |s.queue| < s.capacity then s.(queue := s.queue + [Control(item)]) else s
    case Read => ReadOne(s)
    case Drop => s.(attached := false, queue := [])
    case Resume(waiting, capacity, frame) =>
      if |waiting| <= capacity then Dispatched(Reattached(s, waiting, capacity), frame, false) else s
  }

  ghost function Run(waiting: seq<Write>, capacity: nat, steps: seq<Step>): Sys {
    if steps == [] then Start(waiting, capacity)
    else Next(Run(waiting, capacity, steps[..|steps| - 1]), steps[|steps| - 1])
  }

  /** What the queue holds for the connection to write. */
  ghost function ItemsOf(queue: seq<Wire>): seq<Write> {
    seq(|queue|, i requires 0 <= i < |queue| => if queue[i].Event? then Frame(queue[i].rec.frame) else queue[i].item)
  }
}
