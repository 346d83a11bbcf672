/** Coalescing of occupancy changes: a burst of events for one user and guild ends in one rebuild
    of the member lists. */
module Occupancy {
  import opened Basics

  type Key = (string, string)

  /** The changes of one user and guild since the last rebuild. */
  datatype Pending = Pending(all: bool, chans: set<string>)

  /** A member list a session asked for; no channel means the list of the whole guild. */
  datatype Spec = Spec(guildID: string, channelID: string)

  /** `timers` counts the armed flushes of each key. */
  datatype State = State(occ: map<Key, Pending>, timers: map<Key, nat>)

  const EMPTY := State(map[], map[])

  ghost function Timers(s: State, k: Key): nat {
    if k in s.timers then s.timers[k] else 0
  }

  ghost function Noted(p: Pending, ircChannel: string): Pending {
    if ircChannel == "" then p.(all := true)
    else if !p.all then p.(chans := p.chans + {ToLower(ircChannel)})
    else p
  }

  ghost function Refreshed(s: State, k: Key, ircChannel: string): State {
    if k in s.occ then s.(occ := s.occ[k := Noted(s.occ[k], ircChannel)])
    else State(s.occ[k := Noted(Pending(false, {}), ircChannel)], s.timers[k := Timers(s, k) + 1])
  }

  ghost function Flushed(s: State, k: Key): State {
    State(s.occ - {k}, s.timers[k := Timers(s, k) - if Timers(s, k) > 0 then 1 else 0])
  }

  /** A list is rebuilt for pending changes; `names` gives the IRC names of stored channels. */
  predicate Touches(p: Pending, guildID: string, spec: Spec, names: map<string, string>) {
    && spec.guildID == guildID
    && (p.all || spec.channelID == "" || (spec.channelID in names && ToLower(names[spec.channelID]) in p.chans))
  }

  ghost function Filtered(specs: seq<Spec>, wanted: Spec -> bool): seq<Spec> {
    if specs == [] then []
    else
      var before, spec := Filtered(specs[..|specs| - 1], wanted), specs[|specs| - 1];
      if wanted(spec) then before + [spec] else before
  }

  class Service {
    var occ: map<Key, Pending>
    var timers: map<Key, nat>

    ghost function Now(): State
      reads this
    {
      State(occ, timers)
    }

    constructor ()
      ensures Now() == EMPTY
    {
      occ, timers := map[], map[];
    }

    method RefreshOccupancy(userID: string, guildID: string, ircChannel: string)
      modifies this
      ensures Now() == Refreshed(old(Now()), (userID, guildID), ircChannel)
    {
      var k := (userID, guildID);
      var armed := k in occ;
      var p := if armed then occ[k] else Pending(false, {});
      if ircChannel == "" {
        p := p.(all := true);
      } else if !p.all {
        p := p.(chans := p.chans + {ToLower(ircChannel)});
      }
      occ := occ[k := p];
      if !armed {
        timers := timers[k := (if k in timers then timers[k] else 0) + 1];
      }
    }

    /** An armed flush fires. `specs` are the lists the user's sessions asked for, `payloads`
        those that can be built; `out` are the lists sent. */
    method FlushOccupancy(userID: string, guildID: string, specs: seq<Spec>, names: map<string, string>,
        payloads: set<Spec>)
      returns (out: seq<Spec>)
      requires Timers(Now(), (userID, guildID)) > 0
      modifies this
      ensures Now() == Flushed(old(Now()), (userID, guildID))
      ensures var k := (userID, guildID);
        out == if k !in old(occ) then []
               else var p := old(occ)[k]; Filtered(specs, spec => Touches(p, guildID, spec, names) && spec in payloads)
    {
      var k := (userID, guildID);
      timers := timers[k := timers[k] - 1];
      if k !in occ {
        assert occ - {k} == occ;
        return [];
      }
      var p := occ[k];
      occ := occ - {k};
      out := [];
      ghost var wanted := spec => Touches(p, guildID, spec, names) && spec in payloads;
      for i := 0 to |specs|
        invariant out == Filtered(specs[..i], wanted)
        invariant Now() == Flushed(old(Now()), k)
      {
        assert specs[..i + 1][..i] == specs[..i];
        var spec := specs[i];
        if spec.guildID != guildID {
          continue;
        }
        if !p.all && spec.channelID != "" {
          if spec.channelID !in names || ToLower(names[spec.channelID]) !in p.chans {
            continue;
          }
        }
        if spec in payloads {
          out := out + [spec];
        }
      }
      assert specs[..|specs|] == specs;
    }
  }

  // ---------- runs ----------

  datatype Op = Refresh(key: Key, ircChannel: string) | Fire(key: Key)

  ghost function Next(s: State, op: Op): State {
    match op
    case Refresh(k, ircChannel) => Refreshed(s, k, ircChannel)
    case Fire(k) => Flushed(s, k)
  }

  ghost function Run(ops: seq<Op>): State {
    if ops == [] then EMPTY else Next(Run(ops[..|ops| - 1]), ops[|ops| - 1])
  }

  /** Only armed timers fire. */
  ghost predicate Fires(ops: seq<Op>) {
    ops != [] ==>
      var before, op := ops[..|ops| - 1], ops[|ops| - 1];
      Fires(before) && (op.Fire? ==> Timers(Run(before), op.key) > 0)
  }

  /** The events of a key since its last flush. */
  ghost function Since(ops: seq<Op>, k: Key): seq<string> {
    if ops == [] then []
    else
      var before, op := Since(ops[..|ops| - 1], k), ops[|ops| - 1];
      if op.key != k then before else if op.Fire? then [] else before + [op.ircChannel]
  }

  /** One event on its own would rebuild this list: the guild's list on any change, a channel's
      list when it is the channel that changed, or everything did. */
  ghost predicate Rebuilds(event: string, guildID: string, spec: Spec, names: map<string, string>) {
    && spec.guildID == guildID
    && (event == "" || spec.channelID == ""
        || (spec.channelID in names && ToLower(names[spec.channelID]) == ToLower(event)))
  }

  ghost predicate AnyRebuilds(events: seq<string>, guildID: string, spec: Spec, names: map<string, string>) {
    exists i :: 0 <= i < |events| && Rebuilds(events[i], guildID, spec, names)
  }

  /** The pending changes stand for these events. */
  ghost predicate Gathers(p: Pending, events: seq<string>) {
    && events != []
    && (p.all <==> "" in events)
    && (forall x :: x in p.chans ==> exists i :: 0 <= i < |events| && events[i] != "" && ToLower(events[i]) == x)
    && (!p.all ==> forall i :: 0 <= i < |events| ==> ToLower(events[i]) in p.chans)
  }

  /** Events wait exactly while there is an entry, and an entry has exactly one armed flush. */
  ghost predicate Coalesces(s: State, ops: seq<Op>, k: Key) {
    && (k in s.occ <==> Since(ops, k) != [])
    && (k in s.occ ==> Gathers(s.occ[k], Since(ops, k)))
    && Timers(s, k) == if k in s.occ then 1 else 0
  }

  lemma NotedGathers(p: Pending, events: seq<string>, event: string)
    requires Gathers(p, events) || (events == [] && p == Pending(false, {}))
    ensures Gathers(Noted(p, event), events + [event])
  {
    hide ToLower;
    var p', more := Noted(p, event), events + [event];
    assert more[|events|] == event;
    forall x | x in p'.chans
      ensures exists i :: 0 <= i < |more| && more[i] != "" && ToLower(more[i]) == x
    {
      if x in p.chans {
        var i :| 0 <= i < |events| && events[i] != "" && ToLower(events[i]) == x;
        assert more[i] == events[i];
      }
    }
    forall i | 0 <= i < |more|
      ensures !p'.all ==> ToLower(more[i]) in p'.chans
    {
    }
  }

  lemma StepCoalesces(s: State, ops: seq<Op>, op: Op, k: Key)
    requires Coalesces(s, ops, k) && (op.Fire? ==> Timers(s, op.key) > 0)
    ensures Coalesces(Next(s, op), ops + [op], k)
  {
    hide Gathers, Noted;
    assert (ops + [op])[..|ops|] == ops;
    if op.Refresh? && op.key == k {
      NotedGathers(if k in s.occ then s.occ[k] else Pending(false, {}), Since(ops, k), op.ircChannel);
    }
  }

  lemma {:induction false} RunCoalesces(ops: seq<Op>, k: Key)
    requires Fires(ops)
    ensures Coalesces(Run(ops), ops, k)
  {
    hide Coalesces, Next;
    if ops == [] {
      NothingPending(k);
    } else {
      var before, op := ops[..|ops| - 1], ops[|ops| - 1];
      RunCoalesces(before, k);
      StepCoalesces(Run(before), before, op, k);
      assert ops == before + [op];
    }
  }

  lemma NothingPending(k: Key)
    ensures Coalesces(EMPTY, [], k)
  {
  }

  /** Pending changes touch just the lists that one of their events would rebuild. */
  lemma TouchesIsUnion(p: Pending, events: seq<string>, guildID: string, spec: Spec, names: map<string, string>)
    requires Gathers(p, events)
    ensures Touches(p, guildID, spec, names) <==> AnyRebuilds(events, guildID, spec, names)
  {
    hide ToLower;
    if Touches(p, guildID, spec, names) {
      if p.all {
        var i :| 0 <= i < |events| && events[i] == "";
        assert Rebuilds(events[i], guildID, spec, names);
      } else if spec.channelID == "" {
        assert Rebuilds(events[0], guildID, spec, names);
      } else {
        var i :| 0 <= i < |events| && events[i] != "" && ToLower(events[i]) == ToLower(names[spec.channelID]);
        assert Rebuilds(events[i], guildID, spec, names);
      }
    }
    forall i | 0 <= i < |events|
      ensures Rebuilds(events[i], guildID, spec, names) ==> Touches(p, guildID, spec, names)
    {
      assert events[i] in events;
    }
  }

  /** The lists sent are those asked for that are wanted, each as often as it was asked for, and
      in that order: asking for more only adds at the end. */
  lemma {:induction false} FilteredExactly(specs: seq<Spec>, wanted: Spec -> bool, k: nat)
    requires k <= |specs|
    ensures forall spec :: multiset(Filtered(specs, wanted))[spec] == if wanted(spec) then multiset(specs)[spec] else 0
    ensures Filtered(specs[..k], wanted) <= Filtered(specs, wanted)
  {
    if specs == [] {
      assert specs[..k] == specs;
    } else {
      var n := |specs| - 1;
      assert specs == specs[..n] + [specs[n]];
      FilteredExactly(specs[..n], wanted, if k <= n then k else n);
      assert k <= n ==> specs[..n][..k] == specs[..k];
      assert k > n ==> specs[..k] == specs;
    }
  }

  lemma {:induction false} SameFilter(specs: seq<Spec>, f: Spec -> bool, g: Spec -> bool)
    requires forall spec :: f(spec) <==> g(spec)
    ensures Filtered(specs, f) == Filtered(specs, g)
  {
    if specs != [] {
      SameFilter(specs[..|specs| - 1], f, g);
    }
  }

  /** Whenever a flush fires, there are events waiting, and it sends, in order,
      the lists that at least one of the events would have rebuilt on its own. */
  lemma FlushIsUnion(ops: seq<Op>, k: Key, specs: seq<Spec>, names: map<string, string>, payloads: set<Spec>)
    requires Fires(ops + [Fire(k)])
    ensures var s, events := Run(ops), Since(ops, k);
      && events != [] && k in s.occ
      && Filtered(specs, spec => Touches(s.occ[k], k.1, spec, names) && spec in payloads) ==
         Filtered(specs, spec => AnyRebuilds(events, k.1, spec, names) && spec in payloads)
  {
    hide Touches, AnyRebuilds;
    assert (ops + [Fire(k)])[..|ops|] == ops;
    RunCoalesces(ops, k);
    var p, events := Run(ops).occ[k], Since(ops, k);
    forall spec: Spec
      ensures Touches(p, k.1, spec, names) <==> AnyRebuilds(events, k.1, spec, names)
    {
      TouchesIsUnion(p, events, k.1, spec, names);
    }
    SameFilter(specs, spec => Touches(p, k.1, spec, names) && spec in payloads,
               spec => AnyRebuilds(events, k.1, spec, names) && spec in payloads);
  }

  /** No event is left without an armed flush, and no key has two. */
  lemma AlwaysArmed(ops: seq<Op>, k: Key)
    requires Fires(ops)
    ensures Timers(Run(ops), k) == if Since(ops, k) != [] then 1 else 0
  {
    RunCoalesces(ops, k);
  }
}
