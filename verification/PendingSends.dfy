/** Runs of the batch machine: own sends wait for their echoes, and the echoes of a target take
    them in the order they were sent. */
module PendingSends {
  import opened Basics
  import opened Batches
  import opened BatchRuns

  ghost function RowSent(e: Event, t: string): seq<string> {
    if e.Send? && EqualFold(e.target, t) then [e.row] else []
  }

  /** The rows of the sends to a target, in order. */
  ghost function SendsTo(events: seq<Event>, t: string): seq<string> {
    if events == [] then []
    else
      SendsTo(events[..|events| - 1], t) + RowSent(events[|events| - 1], t)
  }

  /** The row an echo of a target took. */
  ghost function RowOf(k: Sink, t: string): seq<string> {
    if k.Echo? && EqualFold(k.entry.target, t) && k.row != "" then [k.row] else []
  }

  /** The rows the echoes of a target took, in the order they came. */
  ghost function TakenBy(sinks: seq<Sink>, t: string): seq<string> {
    if sinks == [] then [] else TakenBy(sinks[..|sinks| - 1], t) + RowOf(sinks[|sinks| - 1], t)
  }

  /** An own send always has a row. */
  ghost predicate HaveRows(events: seq<Event>) {
    forall e :: e in events && e.Send? ==> e.row != ""
  }

  /** A send to the target comes while as many of them wait as are remembered. */
  ghost predicate Crowds(s: State, e: Event, t: string) {
    e.Send? && EqualFold(e.target, t) && |PendingTo(s.pending, t)| >= 64
  }

  ghost predicate NoneCrowds(events: seq<Event>, t: string) {
    forall i :: 0 <= i < |events| ==> !Crowds(Run(events[..i]), events[i], t)
  }

  /** How many sends to the target were forgotten. */
  ghost function Forgotten(events: seq<Event>, t: string): nat {
    if events == [] then 0
    else
      var before := events[..|events| - 1];
      Forgotten(before, t) + if Crowds(Run(before), events[|events| - 1], t) then 1 else 0
  }

  lemma TakenSnoc(sinks: seq<Sink>, k: Sink, t: string)
    ensures TakenBy(sinks + [k], t) == TakenBy(sinks, t) + RowOf(k, t)
  {
    assert (sinks + [k])[..|sinks|] == sinks;
  }

  /** Of the rows `q` that wait some are taken, from the front, and `r` still wait. */
  ghost predicate Handed(taken: seq<string>, q: seq<string>, taken': seq<string>, r: seq<string>) {
    taken' + r == taken + q && |r| <= |q| && r == q[|q| - |r|..]
  }

  ghost predicate Passes(s: State, u: State, t: string) {
    Handed(TakenBy(s.sinks, t), PendingTo(s.pending, t), TakenBy(u.sinks, t), PendingTo(u.pending, t))
  }

  lemma NoneHanded(taken: seq<string>, q: seq<string>)
    ensures Handed(taken, q, taken, q) && Handed(taken, q, taken + [], q)
  {
    assert taken + [] == taken;
  }

  lemma FrontHanded(taken: seq<string>, q: seq<string>)
    requires q != []
    ensures Handed(taken, q, taken + [q[0]], q[1..])
  {
    assert (taken + [q[0]]) + q[1..] == taken + q;
  }

  lemma StaysPending(pending: map<string, seq<string>>, target: string, t: string)
    ensures var q := PendingTo(pending, t);
            PendingTo(Taken(pending, target), t) == if EqualFold(target, t) && q != [] then q[1..] else q
  {
  }

  /** The row an echo gets. */
  lemma EchoRow(s: State, target: string, e: Entry, t: string)
    requires e.target == target
    ensures var u, q := Echoed(s, target, e), PendingTo(s.pending, t);
            var k := u.sinks[|s.sinks|];
            && u.sinks == s.sinks + [k]
            && (if e.anchor != "" && EqualFold(target, t) && q != [] && q[0] != ""
                then RowOf(k, t) == [q[0]] && u.pending == Taken(s.pending, target)
                else RowOf(k, t) == [] && (e.anchor == "" ==> u.pending == s.pending)
                     && (e.anchor != "" ==> u.pending == Taken(s.pending, target)))
  {
    hide Taken, ToLower;
    if EqualFold(target, t) {
      assert PendingTo(s.pending, target) == PendingTo(s.pending, t);
    }
  }

  /** An echo with an id takes the oldest send of its target, if there is one, and no other. */
  lemma EchoPasses(s: State, target: string, e: Entry, t: string)
    requires e.target == target && "" !in PendingTo(s.pending, t)
    ensures Passes(s, Echoed(s, target, e), t)
  {
    hide Taken, ToLower, TakenBy, Echoed, EqualFold, RowOf, PendingTo, Handed;
    var q := PendingTo(s.pending, t);
    EchoRow(s, target, e, t);
    TakenSnoc(s.sinks, Echoed(s, target, e).sinks[|s.sinks|], t);
    StaysPending(s.pending, target, t);
    NoneHanded(TakenBy(s.sinks, t), q);
    if q != [] {
      assert q[0] in q;
      FrontHanded(TakenBy(s.sinks, t), q);
    }
  }

  /** Whatever else leaves the connection takes no send. */
  lemma OtherPasses(s: State, u: State, t: string)
    requires u.pending == s.pending
    requires u.sinks == s.sinks || exists k :: u.sinks == s.sinks + [k] && !k.Echo?
    ensures Passes(s, u, t)
  {
    hide TakenBy, PendingTo, Handed;
    NoneHanded(TakenBy(s.sinks, t), PendingTo(s.pending, t));
    if u.sinks != s.sinks {
      var k :| u.sinks == s.sinks + [k] && !k.Echo?;
      TakenSnoc(s.sinks, k, t);
    }
  }

  lemma ReceivePasses(s: State, tag: string, m: Msg, t: string)
    requires "" !in PendingTo(s.pending, t)
    ensures Passes(s, Received(s, tag, m), t)
  {
    hide Echoed, Passes, PendingTo;
    var u := Received(s, tag, m);
    if (tag != "" && (tag in s.lines || tag in s.chats)) || !m.echo {
      assert u.sinks == s.sinks || u.sinks == s.sinks + [Live(Single(m))];
      OtherPasses(s, u, t);
    } else {
      EchoPasses(s, m.target, Single(m), t);
    }
  }

  lemma FlushPasses(s: State, acc: LineBatch, t: string)
    requires "" !in PendingTo(s.pending, t)
    ensures Passes(s, FlushedLine(s, acc), t)
  {
    hide Echoed, Passes, PendingTo, Lines, FramesOfMsgs, Anchor, Extras, Numbers;
    var u := FlushedLine(s, acc);
    if acc.frames != [] && acc.chatRef == "" && acc.frames[0].echo {
      EchoPasses(s, acc.target, Joined(acc), t);
    } else {
      assert u.sinks == s.sinks || u.sinks == s.sinks + [Live(Joined(acc))];
      OtherPasses(s, u, t);
    }
  }

  lemma ControlPasses(s: State, c: Control, msgid: string, t: string)
    requires "" !in PendingTo(s.pending, t)
    ensures Passes(s, Controlled(s, c, msgid), t)
  {
    hide FlushedLine, PendingTo, Popped, EqualFold, TakenBy;
    var u := Controlled(s, c, msgid);
    if c.Close? && c.ref in s.lines {
      FlushPasses(s.(lines := s.lines - {c.ref}), s.lines[c.ref], t);
    } else {
      if c.Close? && c.ref in s.chats {
        assert u.sinks == s.sinks + [Page(s.chats[c.ref])] || u.sinks == s.sinks + [History(s.chats[c.ref])];
      }
      OtherPasses(s, u, t);
    }
  }

  lemma NextPasses(s: State, e: Event, t: string)
    requires "" !in PendingTo(s.pending, t) && !e.Send?
    ensures Passes(s, Next(s, e), t)
  {
    hide Passes, Received, Controlled, PendingTo;
    match e
    case Message(tag, m) => ReceivePasses(s, tag, m, t);
    case Batch(c, msgid) => ControlPasses(s, c, msgid, t);
    case Await(target, now) => OtherPasses(s, Awaited(s, target, now), t);
  }

  /** A send waits behind those before it; of too many the oldest is forgotten. */
  lemma SendWaits(s: State, e: Event, t: string)
    requires e.Send?
    ensures var q, u := PendingTo(s.pending, t), Next(s, e);
            && u.sinks == s.sinks
            && PendingTo(u.pending, t) ==
               if EqualFold(e.target, t) then (if Crowds(s, e, t) then q[1..] else q) + [e.row] else q
  {
  }

  /** What waits are the latest sends, at most 64 of them; those taken, those that wait and
      those forgotten, `n` of them, are all sends. */
  ghost predicate Accounts(sent: seq<string>, taken: seq<string>, waiting: seq<string>, n: nat) {
    && |taken| + |waiting| + n == |sent|
    && |waiting| <= 64 && waiting == sent[|sent| - |waiting|..]
    && "" !in sent
    && (n == 0 ==> taken + waiting == sent)
  }

  lemma AccountsPassed(sent: seq<string>, taken: seq<string>, waiting: seq<string>, n: nat,
                       taken': seq<string>, waiting': seq<string>)
    requires Accounts(sent, taken, waiting, n)
    requires Handed(taken, waiting, taken', waiting')
    ensures Accounts(sent, taken', waiting', n)
  {
    assert |taken'| + |waiting'| == |taken' + waiting'| == |taken + waiting|;
    assert sent[|sent| - |waiting|..][|waiting| - |waiting'|..] == sent[|sent| - |waiting'|..];
  }

  lemma AccountsSent(sent: seq<string>, taken: seq<string>, waiting: seq<string>, n: nat, row: string)
    requires Accounts(sent, taken, waiting, n) && row != ""
    ensures |waiting| < PENDING_CAP ==> Accounts(sent + [row], taken, waiting + [row], n)
    ensures |waiting| == PENDING_CAP ==> Accounts(sent + [row], taken, waiting[1..] + [row], n + 1)
  {
    var more := sent + [row];
    assert more[|sent| - |waiting|..] == waiting + [row];
    if |waiting| == PENDING_CAP {
      assert more[|more| - PENDING_CAP..] == waiting[1..] + [row];
    } else {
      assert n == 0 ==> taken + (waiting + [row]) == more;
    }
  }

  lemma NoneEmpty(sent: seq<string>, taken: seq<string>, waiting: seq<string>, n: nat)
    requires Accounts(sent, taken, waiting, n)
    ensures "" !in waiting && |waiting| <= PENDING_CAP
  {
    assert forall i :: 0 <= i < |waiting| ==> waiting[i] == sent[|sent| - |waiting| + i] && waiting[i] in sent;
  }

  lemma StepAccounts(s: State, e: Event, t: string, sent: seq<string>, n: nat)
    requires Accounts(sent, TakenBy(s.sinks, t), PendingTo(s.pending, t), n) && (e.Send? ==> e.row != "")
    ensures var u := Next(s, e);
            Accounts(sent + RowSent(e, t), TakenBy(u.sinks, t), PendingTo(u.pending, t),
                     n + if Crowds(s, e, t) then 1 else 0)
  {
    hide Next, PendingTo, Accounts, TakenBy, ToLower, Handed;
    var taken, waiting := TakenBy(s.sinks, t), PendingTo(s.pending, t);
    NoneEmpty(sent, taken, waiting, n);
    if e.Send? {
      SendWaits(s, e, t);
      AccountsSent(sent, taken, waiting, n, e.row);
    } else {
      NextPasses(s, e, t);
      AccountsPassed(sent, taken, waiting, n, TakenBy(Next(s, e).sinks, t), PendingTo(Next(s, e).pending, t));
    }
    assert sent + [] == sent;
  }

  lemma {:induction false} SendsAccounted(events: seq<Event>, t: string)
    requires HaveRows(events)
    ensures Accounts(SendsTo(events, t), TakenBy(Run(events).sinks, t), PendingTo(Run(events).pending, t),
                     Forgotten(events, t))
  {
    hide Next, PendingTo, Crowds, Accounts, TakenBy, RowSent;
    if events == [] {
      NothingSent(t);
    } else {
      var before, e := events[..|events| - 1], events[|events| - 1];
      assert e in events && forall f :: f in before ==> f in events;
      SendsAccounted(before, t);
      StepAccounts(Run(before), e, t, SendsTo(before, t), Forgotten(before, t));
    }
  }

  lemma NothingSent(t: string)
    ensures Accounts([], TakenBy(START.sinks, t), PendingTo(START.pending, t), 0)
  {
  }

  lemma {:induction false} ForgottenExactly(events: seq<Event>, t: string)
    ensures Forgotten(events, t) == 0 <==> NoneCrowds(events, t)
  {
    hide Run, Crowds;
    if events != [] {
      var n := |events| - 1;
      var before := events[..n];
      ForgottenExactly(before, t);
      assert forall i :: 0 <= i < n ==> before[..i] == events[..i] && before[i] == events[i];
      assert events[..n] == before;
      if NoneCrowds(events, t) {
        assert !Crowds(Run(events[..n]), events[n], t);
      }
    }
  }

  /** Over every run: the rows the echoes of a target took, then those still waiting, are the
      sends to it in order, exactly if none came while 64 waited; else some are missing. */
  lemma EchoesInOrder(events: seq<Event>, t: string)
    requires HaveRows(events)
    ensures var s, sent := Run(events), SendsTo(events, t);
            var taken, waiting := TakenBy(s.sinks, t), PendingTo(s.pending, t);
            && (taken + waiting == sent <==> NoneCrowds(events, t))
            && (!NoneCrowds(events, t) ==> |taken| + |waiting| < |sent|)
  {
    hide Run, NoneCrowds, TakenBy, PendingTo, SendsTo, Forgotten;
    SendsAccounted(events, t);
    ForgottenExactly(events, t);
  }
}
