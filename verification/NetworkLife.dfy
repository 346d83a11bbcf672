/** Joining and leaving networks: a network is stored exactly while it has a member. */
module NetworkLife {
  import opened Basics
  import opened NetworkStore
  import opened AutoJoin
  import ChannelIndex

  /** A parsed connection string; `id` is its canonical form, scheme, host and port. */
  datatype Invite = Invite(id: string, name: string, keys: map<string, string>, password: string,
                           saslUser: string, saslPass: string, nick: string, channels: seq<string>)

  datatype JoinResult = Joined(net: Network) | BadConnString

  // ---------- what joining and leaving do ----------

  ghost function KeysMerged(keys: map<string, string>, more: map<string, string>): map<string, string> {
    map ch | ch in keys.Keys + more.Keys && (ch in keys || more[ch] != "") :: if ch in more then more[ch] else keys[ch]
  }

  /** A known network with the keys and credentials a fresh connection string brings. */
  ghost function Updated(n: Network, c: Invite): Network {
    var keyed := n.(keys := KeysMerged(n.keys, c.keys));
    var worded := if c.password != "" then keyed.(password := c.password) else keyed;
    if c.saslUser != "" then worded.(saslUser := c.saslUser, saslPass := c.saslPass) else worded
  }

  ghost function Stored(s: State, n: Network): State {
    s.(networks := s.networks[n.id := n], netConn := s.netConn[n.connID := n.id])
  }

  /** The network a connection string leads to, made under `newID` if there is none. */
  ghost function Hosted(s: State, c: Invite, newID: string): (State, Network) {
    var known := ByConnID(s, c.id);
    if known.None? then
      var n := Network(newID, c.id, c.name, c.keys, c.password, c.saslUser, c.saslPass);
      (Stored(s, n), n)
    else
      var n := Updated(known.value, c);
      (if n == known.value then s else Stored(s, n), n)
  }

  ghost function Enrolled(s: State, netID: string, userID: string, c: Invite, account: string): State {
    var k := (netID, userID);
    if k !in s.members then
      s.(members := s.members[k := Membership(if c.nick != "" then c.nick else account, c.channels)])
    else if Changes(s.members[k].autoJoin, c.channels) then
      s.(members := s.members[k := s.members[k].(autoJoin := Deduped(s.members[k].autoJoin + c.channels))])
    else s
  }

  ghost function AfterJoin(s: State, userID: string, c: Invite, newID: string, account: string): State {
    var h := Hosted(s, c, newID);
    Enrolled(h.0, h.1.id, userID, c, account)
  }

  ghost function AfterLeave(s: State, userID: string, netID: string): State {
    if (netID, userID) !in s.members then s
    else
      var t := s.(members := s.members - {(netID, userID)});
      if Of(t.members, netID) == {} then Cascaded(t, netID) else t
  }

  ghost function Among(m: map<string, string>, keys: set<string>): map<string, string> {
    map ch | ch in m && ch in keys :: m[ch]
  }

  ghost function OrEmpty(m: map<string, string>, ch: string): string {
    if ch in m then m[ch] else ""
  }

  lemma MergeKeysStep(keys: map<string, string>, more: map<string, string>, done: set<string>, ch: string)
    requires ch in more && ch !in done
    ensures var merged, next := KeysMerged(keys, Among(more, done)), KeysMerged(keys, Among(more, done + {ch}));
      && next == (if OrEmpty(merged, ch) != more[ch] then merged[ch := more[ch]] else merged)
      && (ch in merged <==> ch in keys) && (ch in keys ==> merged[ch] == keys[ch])
  {
    var before, after := Among(more, done), Among(more, done + {ch});
    var merged, next := KeysMerged(keys, before), KeysMerged(keys, after);
    assert forall x :: x != ch ==> (x in before <==> x in after) && (x in before ==> before[x] == after[x]);
    assert ch !in before && ch in after && after[ch] == more[ch];
    forall x | x != ch
      ensures (x in merged <==> x in next) && (x in merged ==> merged[x] == next[x])
    {
    }
  }

  lemma UpdateDiffers(keys: map<string, string>, merged: map<string, string>, ch: string, v: string)
    requires (ch in merged <==> ch in keys) && (ch in keys ==> merged[ch] == keys[ch]) && OrEmpty(merged, ch) != v
    ensures merged[ch := v] != keys
  {
    assert ch in merged[ch := v] && merged[ch := v][ch] == v;
  }

  method MergeKeys(keys: map<string, string>, more: map<string, string>)
    returns (merged: map<string, string>, changed: bool)
    ensures merged == KeysMerged(keys, more)
    ensures changed <==> merged != keys
  {
    hide KeysMerged, Among;
    merged, changed := keys, false;
    var todo := more.Keys;
    MergeNone(keys, more);
    while todo != {}
      invariant todo <= more.Keys
      invariant merged == KeysMerged(keys, Among(more, more.Keys - todo))
      invariant changed <==> merged != keys
      decreases |todo|
    {
      var ch :| ch in todo;
      MergeKeysStep(keys, more, more.Keys - todo, ch);
      assert more.Keys - (todo - {ch}) == more.Keys - todo + {ch};
      if (if ch in merged then merged[ch] else "") != more[ch] {
        UpdateDiffers(keys, merged, ch, more[ch]);
        merged := merged[ch := more[ch]];
        changed := true;
      }
      todo := todo - {ch};
    }
    assert more.Keys - todo == more.Keys;
    MergeNone(keys, more);
  }

  lemma MergeNone(keys: map<string, string>, more: map<string, string>)
    ensures KeysMerged(keys, Among(more, more.Keys - more.Keys)) == keys
    ensures Among(more, more.Keys) == more
  {
  }

  class Service {
    const store: Store

    constructor (store: Store)
      ensures this.store == store
    {
      this.store := store;
    }

    /** `c` is what parsing the connection string gave, `newID` the id the generator gives if it
        is asked, `account` the user's name. */
    method Join(userID: string, c: Option<Invite>, newID: string, account: string) returns (r: JoinResult)
      modifies store
      ensures r.BadConnString? <==> c.None?
      ensures r.BadConnString? ==> store.Now() == old(store.Now())
      ensures r.Joined? ==> r.net == Hosted(old(store.Now()), c.value, newID).1
      ensures r.Joined? ==> store.Now() == AfterJoin(old(store.Now()), userID, c.value, newID, account)
    {
      hide KeysMerged, Changes, Deduped;
      if c.None? {
        return BadConnString;
      }
      var conn := c.value;
      var net: Network;
      var known := store.NetworkByConnID(conn.id);
      if known.None? {
        net := Network(newID, conn.id, conn.name, conn.keys, conn.password, conn.saslUser, conn.saslPass);
        store.UpsertNetwork(net);
      } else {
        net := known.value;
        var keys, changed := MergeKeys(net.keys, conn.keys);
        net := net.(keys := keys);
        if conn.password != "" && conn.password != net.password {
          net := net.(password := conn.password);
          changed := true;
        }
        if conn.saslUser != "" && (conn.saslUser != net.saslUser || conn.saslPass != net.saslPass) {
          net := net.(saslUser := conn.saslUser, saslPass := conn.saslPass);
          changed := true;
        }
        if changed {
          store.UpsertNetwork(net);
        }
      }
      assert store.Now() == Hosted(old(store.Now()), conn, newID).0;
      var nick := account;
      if conn.nick != "" {
        nick := conn.nick;
      }
      if (net.id, userID) !in store.members {
        store.UpsertMembership(net.id, userID, Membership(nick, conn.channels));
      } else {
        var mem := store.members[(net.id, userID)];
        var merged, changed := MergeChannels(mem.autoJoin, conn.channels);
        if changed {
          store.UpsertMembership(net.id, userID, mem.(autoJoin := merged));
        }
      }
      return Joined(net);
    }

    method Leave(userID: string, netID: string) returns (ok: bool)
      modifies store
      ensures ok <==> (netID, userID) in old(store.members)
      ensures store.Now() == AfterLeave(old(store.Now()), userID, netID)
    {
      hide Cascaded;
      if (netID, userID) !in store.members {
        return false;
      }
      store.DeleteMembership(netID, userID);
      if Of(store.members, netID) == {} {
        store.DeleteNetworkCascade(netID);
      }
      return true;
    }
  }

  // ---------- runs ----------

  datatype Act =
    | Join(userID: string, c: Invite, newID: string, account: string)
    | Leave(userID: string, netID: string)
    | Touch(op: ChannelIndex.Op)

  ghost function Next(s: State, a: Act): State {
    match a
    case Join(userID, c, newID, account) => AfterJoin(s, userID, c, newID, account)
    case Leave(userID, netID) => AfterLeave(s, userID, netID)
    case Touch(op) => ChannelIndex.Next(s, op)
  }

  /** An id given to a new network or channel was never given before; networks are removed by
      the last member's leaving only. */
  ghost predicate Fair(s: State, a: Act) {
    match a
    case Join(_, c, newID, _) =>
      ByConnID(s, c.id).None? ==> newID !in s.networks && (forall id :: id in s.netConn ==> s.netConn[id] != newID)
    case Leave(_, _) => true
    case Touch(op) => !op.Cascade? && ChannelIndex.NewIdIsFree(s, op)
  }

  ghost function Run(acts: seq<Act>): State {
    if acts == [] then EMPTY else Next(Run(acts[..|acts| - 1]), acts[|acts| - 1])
  }

  ghost predicate FairRun(acts: seq<Act>) {
    acts != [] ==> FairRun(acts[..|acts| - 1]) && Fair(Run(acts[..|acts| - 1]), acts[|acts| - 1])
  }

  /** A network is stored under its own id, and its connection string leads to it; an entry that
      leads to a stored network leads to that of its connection string. */
  ghost predicate Addressed(s: State) {
    && (forall id :: id in s.networks ==>
          && s.networks[id].id == id
          && s.networks[id].connID in s.netConn && s.netConn[s.networks[id].connID] == id)
    && (forall c :: c in s.netConn && s.netConn[c] in s.networks ==> s.networks[s.netConn[c]].connID == c)
  }

  ghost predicate HasMember(s: State, id: string) {
    exists u :: (id, u) in s.members
  }

  /** A network is stored exactly if it has a member. */
  ghost predicate Peopled(s: State) {
    forall id :: id in s.networks <==> HasMember(s, id)
  }

  lemma StoredAddressed(s: State, n: Network)
    requires Addressed(s) && (n.id in s.networks ==> s.networks[n.id].connID == n.connID)
    requires n.connID in s.netConn && s.netConn[n.connID] in s.networks ==> s.netConn[n.connID] == n.id
    requires forall c :: c in s.netConn && s.netConn[c] == n.id ==> c == n.connID
    ensures Addressed(Stored(s, n))
  {
    var t := Stored(s, n);
    forall id | id in t.networks
      ensures t.networks[id].id == id && t.networks[id].connID in t.netConn && t.netConn[t.networks[id].connID] == id
    {
    }
  }

  lemma KnownAddressed(s: State, connID: string)
    requires Addressed(s) && ByConnID(s, connID).Some?
    ensures var n := ByConnID(s, connID).value;
      && n.id in s.networks && s.networks[n.id] == n && n.connID == connID
      && s.netConn[connID] == n.id && forall c :: c in s.netConn && s.netConn[c] == n.id ==> c == connID
  {
  }

  lemma NewAddressed(s: State, newID: string)
    requires newID !in s.networks
    ensures forall n: Network :: n.id == newID ==> Stored(s, n).networks.Keys == s.networks.Keys + {newID}
  {
  }

  lemma HostedAddressed(s: State, c: Invite, newID: string)
    requires Addressed(s) && Fair(s, Join("", c, newID, ""))
    ensures var h := Hosted(s, c, newID);
      && Addressed(h.0) && h.1.id in h.0.networks && h.0.networks[h.1.id] == h.1 && h.1.connID == c.id
      && h.0.networks.Keys == s.networks.Keys + {h.1.id}
      && h.0.members == s.members && h.0.chans == s.chans && h.0.chanNet == s.chanNet
  {
    hide KeysMerged, Addressed;
    var known, h := ByConnID(s, c.id), Hosted(s, c, newID);
    if known.Some? {
      KnownAddressed(s, c.id);
    } else {
      NewAddressed(s, newID);
    }
    StoredAddressed(s, h.1);
  }

  lemma EnrollsOnly(s: State, netID: string, userID: string, c: Invite, account: string)
    ensures Enrolled(s, netID, userID, c, account) == s.(members := Enrolled(s, netID, userID, c, account).members)
  {
  }

  lemma EnrolledKeys(s: State, netID: string, userID: string, c: Invite, account: string)
    ensures var t := Enrolled(s, netID, userID, c, account);
            t.networks == s.networks && forall k :: k in t.members <==> k in s.members || k == (netID, userID)
  {
    hide Changes, Deduped;
  }

  lemma EnrolledPeopled(s: State, netID: string, userID: string, c: Invite, account: string)
    requires netID in s.networks && forall id :: id in s.networks && id != netID ==> HasMember(s, id)
    requires forall id :: HasMember(s, id) ==> id in s.networks
    ensures Peopled(Enrolled(s, netID, userID, c, account))
  {
    hide Enrolled;
    var t := Enrolled(s, netID, userID, c, account);
    EnrolledKeys(s, netID, userID, c, account);
    forall id
      ensures HasMember(t, id) <==> HasMember(s, id) || id == netID
    {
      assert (netID, userID) in t.members;
      if HasMember(s, id) {
        var u :| (id, u) in s.members;
        assert (id, u) in t.members;
      }
    }
  }

  lemma JoinKeeps(s: State, userID: string, c: Invite, newID: string, account: string)
    requires Addressed(s) && Peopled(s) && ChannelIndex.Indexed(s) && Fair(s, Join(userID, c, newID, account))
    ensures var t := AfterJoin(s, userID, c, newID, account); Addressed(t) && Peopled(t) && ChannelIndex.Indexed(t)
  {
    hide Hosted, Enrolled, KeysMerged, Addressed, ByConnID, ChannelIndex.Indexed;
    HostedAddressed(s, c, newID);
    var h, t := Hosted(s, c, newID), AfterJoin(s, userID, c, newID, account);
    EnrollsOnly(h.0, h.1.id, userID, c, account);
    assert forall id :: HasMember(h.0, id) <==> HasMember(s, id);
    EnrolledPeopled(h.0, h.1.id, userID, c, account);
    SameAddresses(h.0, t);
    SameIndex(s, t);
  }

  lemma LeaveKeeps(s: State, userID: string, netID: string)
    requires Addressed(s) && Peopled(s) && ChannelIndex.Indexed(s)
    ensures var t := AfterLeave(s, userID, netID); Addressed(t) && Peopled(t) && ChannelIndex.Indexed(t)
  {
    hide ChannelIndex.Indexed, Listed, RowsLeft;
    if (netID, userID) in s.members {
      var left, t := s.(members := s.members - {(netID, userID)}), AfterLeave(s, userID, netID);
      SameIndex(s, left);
      ChannelIndex.CascadeKeeps(left, ChannelIndex.Cascade(netID));
      forall id
        ensures id in t.networks <==> HasMember(t, id)
      {
        if id != netID {
          if HasMember(s, id) {
            var u :| (id, u) in s.members;
            assert (id, u) in left.members;
            assert (id, u) in t.members;
          }
        } else {
          assert HasMember(s, netID);
          if Of(left.members, netID) != {} {
            var k :| k in Of(left.members, netID);
            assert (netID, k.1) in left.members;
          }
        }
      }
    }
  }

  lemma SameIndex(s: State, t: State)
    requires ChannelIndex.Indexed(s) && t.chans == s.chans && t.chanNet == s.chanNet
    ensures ChannelIndex.Indexed(t)
  {
  }

  lemma TouchKeeps(s: State, op: ChannelIndex.Op)
    requires Addressed(s) && Peopled(s) && ChannelIndex.Indexed(s) && Fair(s, Touch(op))
    ensures var t := ChannelIndex.Next(s, op); Addressed(t) && Peopled(t) && ChannelIndex.Indexed(t)
  {
    hide ChannelIndex.Indexed, Addressed;
    var t := ChannelIndex.Next(s, op);
    if op.Ensure? {
      ChannelIndex.EnsureKeeps(s, op);
    } else if op.Rename? {
      ChannelIndex.RenameKeeps(s, op);
    } else {
      ChannelIndex.MarkKeeps(s, op);
    }
    assert forall id :: HasMember(t, id) <==> HasMember(s, id);
    SameAddresses(s, t);
  }

  lemma SameAddresses(s: State, t: State)
    requires Addressed(s) && t.networks == s.networks && t.netConn == s.netConn
    ensures Addressed(t)
  {
  }

  lemma {:induction false} RunKeeps(acts: seq<Act>)
    requires FairRun(acts)
    ensures Addressed(Run(acts)) && Peopled(Run(acts)) && ChannelIndex.Indexed(Run(acts))
  {
    hide Addressed, Peopled, ChannelIndex.Indexed, Next, Fair;
    if acts == [] {
      EmptyKeeps();
    } else {
      var s, a := Run(acts[..|acts| - 1]), acts[|acts| - 1];
      RunKeeps(acts[..|acts| - 1]);
      StepKeeps(s, a);
    }
  }

  lemma EmptyKeeps()
    ensures Addressed(EMPTY) && Peopled(EMPTY) && ChannelIndex.Indexed(EMPTY)
  {
  }

  lemma StepKeeps(s: State, a: Act)
    requires Addressed(s) && Peopled(s) && ChannelIndex.Indexed(s) && Fair(s, a)
    ensures Addressed(Next(s, a)) && Peopled(Next(s, a)) && ChannelIndex.Indexed(Next(s, a))
  {
    hide Addressed, Peopled, ChannelIndex.Indexed, AfterJoin, AfterLeave, Fair;
    match a
    case Join(userID, c, newID, account) => JoinKeeps(s, userID, c, newID, account);
    case Leave(userID, netID) => LeaveKeeps(s, userID, netID);
    case Touch(op) => TouchKeeps(s, op);
  }

  /** After any run: a network is stored exactly if it has a member; no two have the same
      connection string; and looking a connection string up finds its network, if there is one,
      whatever entries removed networks left behind. */
  lemma NetworksAreKept(acts: seq<Act>)
    requires FairRun(acts)
    ensures var s := Run(acts);
      && (forall id :: id in s.networks <==> exists u :: (id, u) in s.members)
      && (forall a, b :: a in s.networks && b in s.networks && s.networks[a].connID == s.networks[b].connID ==> a == b)
      && (forall id :: id in s.networks ==> ByConnID(s, s.networks[id].connID) == Some(s.networks[id]))
      && (forall c :: ByConnID(s, c).Some? ==> ByConnID(s, c).value.connID == c)
  {
    hide Run, FairRun, ChannelIndex.Indexed;
    RunKeeps(acts);
    var s := Run(acts);
    assert forall id :: HasMember(s, id) <==> exists u :: (id, u) in s.members;
  }

  /** A leaving member takes the network along exactly if no other member is left. */
  lemma LastMemberRemoves(s: State, userID: string, netID: string)
    requires Addressed(s) && Peopled(s) && (netID, userID) in s.members
    ensures netID in AfterLeave(s, userID, netID).networks <==> exists u :: u != userID && (netID, u) in s.members
  {
    hide Listed, RowsLeft;
    var left := s.members - {(netID, userID)};
    assert HasMember(s, netID);
    if Of(left, netID) != {} {
      var k :| k in Of(left, netID);
      assert (netID, k.1) in s.members && k.1 != userID;
    } else {
      forall u | (netID, u) in s.members
        ensures u == userID
      {
        assert (netID, u) in left ==> (netID, u) in Of(left, netID);
      }
    }
  }

  lemma KeysMergedTwice(keys: map<string, string>, more: map<string, string>)
    ensures KeysMerged(KeysMerged(keys, more), more) == KeysMerged(keys, more)
    ensures KeysMerged(more, more) == more
  {
  }

  lemma HostedTwice(s: State, t: State, c: Invite, newID: string, otherID: string)
    requires Addressed(s) && Fair(s, Join("", c, newID, ""))
    requires t == Hosted(s, c, newID).0.(members := t.members)
    ensures Hosted(t, c, otherID) == (t, Hosted(s, c, newID).1)
  {
    hide KeysMerged;
    var known, h := ByConnID(s, c.id), Hosted(s, c, newID);
    KeysMergedTwice(if known.Some? then known.value.keys else map[], c.keys);
    assert ByConnID(t, c.id) == Some(h.1);
    assert Updated(h.1, c) == h.1;
  }

  lemma EnrolledTwice(s: State, netID: string, userID: string, c: Invite, account: string)
    ensures var t := Enrolled(s, netID, userID, c, account); Enrolled(t, netID, userID, c, account) == t
  {
    hide Changes, Deduped;
    var k := (netID, userID);
    MergeTwice(if k in s.members then s.members[k].autoJoin else [], c.channels);
  }

  /** Joining with the same connection string again finds the same network and changes nothing. */
  lemma JoinTwice(s: State, userID: string, c: Invite, newID: string, account: string, otherID: string)
    requires Addressed(s) && Fair(s, Join(userID, c, newID, account))
    ensures var t := AfterJoin(s, userID, c, newID, account);
      && AfterJoin(t, userID, c, otherID, account) == t
      && Hosted(t, c, otherID).1 == Hosted(s, c, newID).1
  {
    hide Hosted, Enrolled, Addressed, ByConnID;
    var h, t := Hosted(s, c, newID), AfterJoin(s, userID, c, newID, account);
    EnrollsOnly(h.0, h.1.id, userID, c, account);
    HostedTwice(s, t, c, newID, otherID);
    EnrolledTwice(h.0, h.1.id, userID, c, account);
  }

  /** Joining a new network and leaving it again leaves nothing but the connection string's entry. */
  lemma JoinThenLeave(s: State, userID: string, c: Invite, newID: string, account: string)
    requires ByConnID(s, c.id).None? && newID !in s.networks
    requires Of(s.members, newID) == {} && Of(s.chanNet, newID) == {} && Of(s.prefill, newID) == {}
    ensures AfterLeave(AfterJoin(s, userID, c, newID, account), userID, newID) ==
            s.(netConn := s.netConn[c.id := newID])
  {
    hide KeysMerged, Changes, Deduped;
    var t := AfterJoin(s, userID, c, newID, account);
    assert (newID, userID) !in s.members by {
      assert (newID, userID) in s.members ==> (newID, userID) in Of(s.members, newID);
    }
    var left := t.(members := t.members - {(newID, userID)});
    assert left.members == s.members;
    assert left.networks - {newID} == s.networks;
    NothingListed(s, newID);
  }

  lemma NothingListed(s: State, netID: string)
    requires Of(s.chanNet, netID) == {}
    ensures Listed(s.chanNet, netID) == {} && RowsLeft(s.rows, {}) == s.rows
  {
    forall k | k in s.chanNet
      ensures k.0 != netID
    {
      assert k.0 == netID ==> k in Of(s.chanNet, netID);
    }
  }
}
