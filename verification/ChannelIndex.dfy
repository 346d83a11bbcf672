/** Runs over the channel index: every entry finds its channel, and which records are left behind. */
module ChannelIndex {
  import opened Basics
  import opened NetworkStore

  datatype Op =
    | Ensure(netID: string, ircName: string, name: string, newID: string)
    | Rename(netID: string, oldIRC: string, newIRC: string)
    | Cascade(netID: string)
    | Mark(netID: string, ircName: string, at: string)

  ghost function Next(s: State, op: Op): State {
    match op
    case Ensure(netID, ircName, name, newID) => Ensured(s, netID, ircName, name, newID)
    case Rename(netID, oldIRC, newIRC) => Renamed(s, netID, oldIRC, newIRC)
    case Cascade(netID) => Cascaded(s, netID)
    case Mark(netID, ircName, at) => Fetched(s, netID, ircName, at)
  }

  ghost function Run(ops: seq<Op>): State {
    if ops == [] then EMPTY else Next(Run(ops[..|ops| - 1]), ops[|ops| - 1])
  }

  ghost predicate NewIdIsFree(s: State, op: Op) {
    op.Ensure? && (op.netID, op.ircName) !in s.chanNet ==> op.newID !in s.chans
  }

  /** The generator never gives the id of a stored channel. */
  ghost predicate FreshIds(ops: seq<Op>) {
    ops != [] ==> FreshIds(ops[..|ops| - 1]) && NewIdIsFree(Run(ops[..|ops| - 1]), ops[|ops| - 1])
  }

  /** Every entry finds a record with just that network and name. */
  ghost predicate Indexed(s: State) {
    && (forall k :: k in s.chanNet ==>
          && s.chanNet[k] in s.chans
          && s.chans[s.chanNet[k]].networkID == k.0 && s.chans[s.chanNet[k]].ircName == k.1)
    && (forall id :: id in s.chans ==> s.chans[id].id == id)
  }

  ghost predicate IsListed(s: State, id: string)
    requires id in s.chans
  {
    var k := (s.chans[id].networkID, s.chans[id].ircName);
    k in s.chanNet && s.chanNet[k] == id
  }

  /** The records no index entry finds. */
  ghost function Orphans(s: State): set<string> {
    set id | id in s.chans && !IsListed(s, id)
  }

  /** The channel whose name an operation gives to another channel. */
  ghost function TakenOver(s: State, op: Op): set<string> {
    if op.Rename? && op.oldIRC != op.newIRC
       && ChannelAt(s, op.netID, op.oldIRC).Some? && (op.netID, op.newIRC) in s.chanNet
    then {s.chanNet[(op.netID, op.newIRC)]} else {}
  }

  ghost function AllTakenOver(ops: seq<Op>): set<string> {
    if ops == [] then {}
    else AllTakenOver(ops[..|ops| - 1]) + TakenOver(Run(ops[..|ops| - 1]), ops[|ops| - 1])
  }

  lemma EnsureKeeps(s: State, op: Op)
    requires Indexed(s) && op.Ensure? && NewIdIsFree(s, op)
    ensures Indexed(Next(s, op)) && Orphans(Next(s, op)) == Orphans(s)
  {
    var t := Next(s, op);
    if t != s {
      assert forall k :: k in s.chanNet ==> t.chanNet[k] == s.chanNet[k] && s.chanNet[k] != op.newID;
      assert forall id :: id in s.chans ==> (IsListed(t, id) <==> IsListed(s, id));
      assert IsListed(t, op.newID);
    }
  }

  lemma RenameKeeps(s: State, op: Op)
    requires Indexed(s) && op.Rename?
    ensures Indexed(Next(s, op)) && Orphans(Next(s, op)) == Orphans(s) + TakenOver(s, op)
  {
    var t, found := Next(s, op), ChannelAt(s, op.netID, op.oldIRC);
    if found.Some? {
      var id, oldKey, newKey := found.value.id, (op.netID, op.oldIRC), (op.netID, op.newIRC);
      assert t.chanNet[newKey] == id && IsListed(t, id);
      assert IsListed(s, id);
      forall other | other in s.chans && other != id
        ensures IsListed(t, other) <==> IsListed(s, other) && other !in TakenOver(s, op)
      {
        var k := (s.chans[other].networkID, s.chans[other].ircName);
        assert t.chans[other] == s.chans[other];
        if k != oldKey && k != newKey {
          assert k in t.chanNet <==> k in s.chanNet;
        }
      }
      assert t.chans.Keys == s.chans.Keys;
      assert TakenOver(s, op) <= s.chans.Keys;
    }
  }

  lemma CascadeKeeps(s: State, op: Op)
    requires Indexed(s) && op.Cascade?
    ensures Indexed(Next(s, op)) && Orphans(Next(s, op)) == Orphans(s)
  {
    var t := Next(s, op);
    forall k | k in t.chanNet
      ensures s.chanNet[k] !in Listed(s.chanNet, op.netID)
    {
      assert s.chans[s.chanNet[k]].networkID == k.0 != op.netID;
    }
    forall id | id in s.chans
      ensures id in Listed(s.chanNet, op.netID) ==> IsListed(s, id)
      ensures id !in Listed(s.chanNet, op.netID) ==> (IsListed(t, id) <==> IsListed(s, id))
    {
      var k := (s.chans[id].networkID, s.chans[id].ircName);
      if k in s.chanNet && s.chanNet[k] == id && k.0 == op.netID {
        assert id in Listed(s.chanNet, op.netID);
      }
    }
  }

  lemma MarkKeeps(s: State, op: Op)
    requires Indexed(s) && op.Mark?
    ensures Indexed(Next(s, op)) && Orphans(Next(s, op)) == Orphans(s)
  {
    var t := Next(s, op);
    assert forall id :: id in s.chans ==> (IsListed(t, id) <==> IsListed(s, id));
  }

  /** Over every run, the index finds what it names, and a record is out of its reach exactly if
      another channel was renamed onto its name. */
  lemma {:induction false} RunKeepsIndex(ops: seq<Op>)
    requires FreshIds(ops)
    ensures Indexed(Run(ops)) && Orphans(Run(ops)) == AllTakenOver(ops)
  {
    hide Indexed, Orphans, TakenOver, Next, NewIdIsFree;
    if ops == [] {
      EmptyIsIndexed();
    } else {
      var s, op := Run(ops[..|ops| - 1]), ops[|ops| - 1];
      RunKeepsIndex(ops[..|ops| - 1]);
      match op
      case Ensure(_, _, _, _) => EnsureKeeps(s, op); OnlyRenames(s, op);
      case Rename(_, _, _) => RenameKeeps(s, op);
      case Cascade(_) => CascadeKeeps(s, op); OnlyRenames(s, op);
      case Mark(_, _, _) => MarkKeeps(s, op); OnlyRenames(s, op);
    }
  }

  lemma EmptyIsIndexed()
    ensures Indexed(EMPTY) && Orphans(EMPTY) == {}
  {
  }

  lemma OnlyRenames(s: State, op: Op)
    ensures !op.Rename? ==> TakenOver(s, op) == {}
  {
  }

  /** Removing a network takes every entry of its index; of its channel records it leaves just
      those no entry found, and nothing of other networks is touched. */
  lemma CascadeLeaves(s: State, netID: string)
    requires Indexed(s)
    ensures var t := Cascaded(s, netID);
      && netID !in t.networks && Of(t.members, netID) == {} && Of(t.chanNet, netID) == {} && Of(t.prefill, netID) == {}
      && (forall id :: id in s.chans && s.chans[id].networkID == netID ==> (id in t.chans <==> id in Orphans(s)))
      && (forall id :: id in s.chans && s.chans[id].networkID != netID ==> id in t.chans && t.chans[id] == s.chans[id])
      && (forall k :: k in s.chanNet && k.0 != netID ==> k in t.chanNet && t.chanNet[k] == s.chanNet[k])
      && (forall r :: r in s.rows && r.0 in s.chans ==> (r in t.rows <==> r.0 in t.chans))
      && t.networks == s.networks - {netID} && t.netConn == s.netConn
      && (forall k :: k in s.members && k.0 != netID ==> k in t.members && t.members[k] == s.members[k])
      && (forall k :: k in s.prefill && k.0 != netID ==> k in t.prefill && t.prefill[k] == s.prefill[k])
  {
    var t := Cascaded(s, netID);
    forall id | id in s.chans
      ensures id in Listed(s.chanNet, netID) <==> s.chans[id].networkID == netID && IsListed(s, id)
    {
      var k := (s.chans[id].networkID, s.chans[id].ircName);
      if k in s.chanNet && s.chanNet[k] == id && k.0 == netID {
        assert id in Listed(s.chanNet, netID);
      }
    }
  }

  /** So a removed network leaves no channel record exactly if none of its channels ever lost its
      name to another. */
  lemma NoResidue(ops: seq<Op>, netID: string)
    requires FreshIds(ops)
    ensures AllTakenOver(ops) <= Run(ops).chans.Keys
    ensures (forall id :: id in Cascaded(Run(ops), netID).chans ==>
            Cascaded(Run(ops), netID).chans[id].networkID != netID)
      <==> (forall id :: id in AllTakenOver(ops) ==> Run(ops).chans[id].networkID != netID)
  {
    hide Indexed, Run, FreshIds, AllTakenOver;
    RunKeepsIndex(ops);
    CascadeLeaves(Run(ops), netID);
  }

  lemma RunSnoc(ops: seq<Op>, op: Op)
    ensures Run(ops + [op]) == Next(Run(ops), op)
    ensures FreshIds(ops + [op]) <==> FreshIds(ops) && NewIdIsFree(Run(ops), op)
  {
    assert (ops + [op])[..|ops|] == ops;
  }

  /** Two channels, one renamed onto the other: removing the network leaves the other's record. */
  lemma TakenOverStays(netID: string)
    ensures var ops := [] + [Ensure(netID, "#a", "a", "1")] + [Ensure(netID, "#b", "b", "2")] +
            [Rename(netID, "#a", "#b")] + [Cascade(netID)];
      FreshIds(ops) && Run(ops).chans == map["2" := Channel("2", netID, "#b", "b")]
  {
    hide Run, FreshIds;
    assert Run([]) == EMPTY && FreshIds([]) by {
      NothingRun();
    }
    var one := [] + [Ensure(netID, "#a", "a", "1")];
    var two := one + [Ensure(netID, "#b", "b", "2")];
    var three := two + [Rename(netID, "#a", "#b")];
    RunSnoc([], Ensure(netID, "#a", "a", "1"));
    RunSnoc(one, Ensure(netID, "#b", "b", "2"));
    RunSnoc(two, Rename(netID, "#a", "#b"));
    RunSnoc(three, Cascade(netID));
    assert Run(one).chanNet == map[(netID, "#a") := "1"];
    assert Run(two).chanNet == map[(netID, "#a") := "1", (netID, "#b") := "2"];
    assert Run(three).chanNet == map[(netID, "#b") := "1"];
    assert (netID, "#b") in Run(three).chanNet && Listed(Run(three).chanNet, netID) == {"1"};
  }

  lemma NothingRun()
    ensures Run([]) == EMPTY && FreshIds([])
  {
  }

  /** A mark is lost exactly if its network is removed or the channel found under its name is
      renamed away; the new name then has it, unless it is the old one. */
  lemma MarkLostExactly(s: State, op: Op, k: (string, string))
    requires k in s.prefill
    ensures k !in Next(s, op).prefill <==>
      (op.Cascade? && op.netID == k.0) || (op.Rename? && (op.netID, op.oldIRC) == k && ChannelAt(s, k.0, k.1).Some?)
  {
    assert k in Of(s.prefill, k.0);
  }

  /** A rename keeps the channel's id and its rows, frees the old name and changes no other
      name's channel. */
  lemma RenameMoves(s: State, netID: string, oldIRC: string, newIRC: string)
    requires Indexed(s) && ChannelAt(s, netID, oldIRC).Some?
    ensures var t, ch := Renamed(s, netID, oldIRC, newIRC), ChannelAt(s, netID, oldIRC).value;
      && ChannelAt(t, netID, newIRC) == Some(Channel(ch.id, netID, newIRC, TrimHash(newIRC)))
      && (oldIRC != newIRC ==> ChannelAt(t, netID, oldIRC) == None)
      && (forall n, c :: (n, c) != (netID, oldIRC) && (n, c) != (netID, newIRC) ==>
           ChannelAt(t, n, c) == ChannelAt(s, n, c))
      && t.rows == s.rows
  {
    var t, ch := Renamed(s, netID, oldIRC, newIRC), ChannelAt(s, netID, oldIRC).value;
    forall n, c | (n, c) != (netID, oldIRC) && (n, c) != (netID, newIRC)
      ensures ChannelAt(t, n, c) == ChannelAt(s, n, c)
    {
      if (n, c) in s.chanNet {
        assert s.chanNet[(n, c)] != ch.id;
      }
    }
  }

  /** Ensuring a channel finds the one there is, or makes one of that network and name; doing so
      again gives the same, and no other name finds anything else. */
  lemma EnsureFinds(s: State, netID: string, ircName: string, name: string, newID: string, otherID: string)
    requires Indexed(s) && NewIdIsFree(s, Ensure(netID, ircName, name, newID))
    ensures var t := Ensured(s, netID, ircName, name, newID);
      && ChannelAt(t, netID, ircName) ==
         (if ChannelAt(s, netID, ircName).Some? then ChannelAt(s, netID, ircName)
          else Some(Channel(newID, netID, ircName, name)))
      && Ensured(t, netID, ircName, name, otherID) == t
      && (forall n, c :: (n, c) != (netID, ircName) ==> ChannelAt(t, n, c) == ChannelAt(s, n, c))
      && t.networks == s.networks && t.members == s.members && t.prefill == s.prefill && t.rows == s.rows
  {
  }

  /** A channel is shown under its IRC name without the hash. */
  lemma ShownName(name: string)
    ensures TrimHash("#" + name) == name
    ensures name == "" || name[0] != '#' ==> TrimHash(name) == name
  {
  }

  /** The mark of a fetched history goes along, unless the channel is renamed to its own name:
      then the mark is lost and the history is asked for again. */
  lemma MarkFollows(s: State, netID: string, oldIRC: string, newIRC: string)
    requires ChannelAt(s, netID, oldIRC).Some? && (netID, oldIRC) in s.prefill
    ensures var t := Renamed(s, netID, oldIRC, newIRC);
      ((netID, newIRC) in t.prefill && t.prefill[(netID, newIRC)] == s.prefill[(netID, oldIRC)]) <==> oldIRC != newIRC
  {
  }

  lemma SelfRenameForgets(netID: string)
    ensures var k := (netID, "#a");
            var s := Ensured(EMPTY, netID, "#a", "a", "1").(prefill := map[k := "then"]);
            ChannelAt(s, netID, "#a").Some? && k in s.prefill && k !in Renamed(s, netID, "#a", "#a").prefill
  {
  }

  /** Renaming back undoes a rename onto a free name. */
  lemma RenameBack(s: State, netID: string, oldIRC: string, newIRC: string)
    requires Indexed(s) && ChannelAt(s, netID, oldIRC).Some? && oldIRC != newIRC
    requires ChannelAt(s, netID, oldIRC).value.name == TrimHash(oldIRC)
    requires (netID, newIRC) !in s.chanNet && (netID, newIRC) !in s.prefill
    ensures Renamed(Renamed(s, netID, oldIRC, newIRC), netID, newIRC, oldIRC) == s
  {
    var t := Renamed(s, netID, oldIRC, newIRC);
    var back := Renamed(t, netID, newIRC, oldIRC);
    var ch := ChannelAt(s, netID, oldIRC).value;
    assert ChannelAt(t, netID, newIRC) == Some(Channel(ch.id, netID, newIRC, TrimHash(newIRC)));
    assert back.chans == s.chans;
    assert back.chanNet == s.chanNet;
    assert back.prefill == s.prefill;
  }
}
