/** What a join brings to a network and a membership, and what joins and leaves leave alone. */
module NetworkJoins {
  import opened Basics
  import opened NetworkStore
  import opened AutoJoin
  import opened NetworkLife

  /** The network a connection string leads to. A new one is as the string says; a known one keeps
      its id and name, takes a password if the string has one, a SASL account with its password
      if it has one, and every channel key, though an empty key is no news where there is none. */
  ghost predicate Brought(known: Option<Network>, c: Invite, newID: string, n: Network) {
    match known
    case None => n == Network(newID, c.id, c.name, c.keys, c.password, c.saslUser, c.saslPass)
    case Some(o) =>
      && n.id == o.id && n.connID == o.connID && n.name == o.name
      && n.password == (if c.password != "" then c.password else o.password)
      && n.saslUser == (if c.saslUser != "" then c.saslUser else o.saslUser)
      && n.saslPass == (if c.saslUser != "" then c.saslPass else o.saslPass)
      && (forall ch :: ch in n.keys <==> ch in o.keys || (ch in c.keys && c.keys[ch] != ""))
      && (forall ch :: ch in n.keys ==> n.keys[ch] == if ch in c.keys then c.keys[ch] else o.keys[ch])
  }

  lemma KnownNetwork(s: State, connID: string)
    requires Addressed(s) && ByConnID(s, connID).Some?
    ensures var n := ByConnID(s, connID).value; n.id in s.networks && s.networks[n.id] == n && n.connID == connID
  {
    KnownAddressed(s, connID);
  }

  lemma HostedBrings(s: State, c: Invite, newID: string)
    requires Addressed(s)
    ensures var h := Hosted(s, c, newID);
            && Brought(ByConnID(s, c.id), c, newID, h.1)
            && h.1.connID == c.id && h.1.id in h.0.networks && h.0.networks[h.1.id] == h.1
            && h.0.members == s.members
            && (forall id :: id != h.1.id ==> (id in h.0.networks <==> id in s.networks))
            && (forall id :: id != h.1.id && id in s.networks ==> h.0.networks[id] == s.networks[id])
  {
    hide Addressed;
    if ByConnID(s, c.id).Some? {
      KnownNetwork(s, c.id);
    }
  }

  /** After a join the network is stored as the connection string brings it, and every other one is
      as it was. */
  lemma JoinBrings(s: State, userID: string, c: Invite, newID: string, account: string)
    requires Addressed(s)
    ensures var t, n := AfterJoin(s, userID, c, newID, account), Hosted(s, c, newID).1;
            && Brought(ByConnID(s, c.id), c, newID, n) && n.connID == c.id
            && n.id in t.networks && t.networks[n.id] == n
            && (forall id :: id != n.id ==> (id in t.networks <==> id in s.networks))
            && (forall id :: id != n.id && id in s.networks ==> t.networks[id] == s.networks[id])
  {
    hide Addressed, Brought, ByConnID, Hosted, Changes, Deduped;
    HostedBrings(s, c, newID);
  }

  /** A new member is called as the connection string says, or by the account's name, and joins the
      string's channels; one who is a member already keeps name and channels, in their places,
      and gets those channels besides that are not on the list in any spelling. No other
      membership changes. */
  lemma JoinEnrolls(s: State, userID: string, c: Invite, newID: string, account: string)
    requires Addressed(s)
    ensures var t, k := AfterJoin(s, userID, c, newID, account), (Hosted(s, c, newID).1.id, userID);
            && k in t.members
            && (k !in s.members ==> t.members[k] == Membership(if c.nick == "" then account else c.nick, c.channels))
            && (k in s.members ==>
                  var had, has := s.members[k].autoJoin, t.members[k].autoJoin;
                  && t.members[k].nick == s.members[k].nick
                  && (forall ch :: Has(has, ch) <==> Has(had, ch) || Has(c.channels, ch))
                  && (Spellings(had) ==> had <= has && Spellings(has))
                  && ((forall i :: 0 <= i < |c.channels| ==> Has(had, c.channels[i])) ==> has == had))
            && (forall j :: j != k ==> (j in t.members <==> j in s.members))
            && (forall j :: j != k && j in s.members ==> t.members[j] == s.members[j])
  {
    hide Addressed, Brought, ByConnID, Hosted, Changes, Deduped, Has, Spellings, ToLower;
    HostedBrings(s, c, newID);
    var k := (Hosted(s, c, newID).1.id, userID);
    if k in s.members {
      ListGrows(s.members[k].autoJoin, c.channels);
    }
  }

  lemma ListGrows(had: seq<string>, add: seq<string>)
    ensures var has := if Changes(had, add) then Deduped(had + add) else had;
            && (forall ch :: Has(has, ch) <==> Has(had, ch) || Has(add, ch))
            && (Spellings(had) ==> had <= has && Spellings(has))
            && ((forall i :: 0 <= i < |add| ==> Has(had, add[i])) ==> has == had)
  {
    hide Changes, Deduped, Has, Spellings, ToLower;
    ChangesExactly(had, add);
    DedupedLists(had + add);
    DedupedStays(had, add);
    HasEither(had, add);
    if !Changes(had, add) {
      NothingMore(had, add);
    }
  }

  lemma HasEither(a: seq<string>, b: seq<string>)
    ensures forall ch :: Has(a + b, ch) <==> Has(a, ch) || Has(b, ch)
  {
    hide ToLower;
    forall ch
      ensures Has(a + b, ch) <==> Has(a, ch) || Has(b, ch)
    {
      if Has(a, ch) {
        var i :| 0 <= i < |a| && ToLower(a[i]) == ToLower(ch);
        assert (a + b)[i] == a[i];
      }
      if Has(b, ch) {
        var i :| 0 <= i < |b| && ToLower(b[i]) == ToLower(ch);
        assert (a + b)[|a| + i] == b[i];
      }
    }
  }

  lemma NothingMore(had: seq<string>, add: seq<string>)
    requires forall i :: 0 <= i < |add| ==> Has(had, add[i])
    ensures forall ch :: Has(add, ch) ==> Has(had, ch)
  {
    hide ToLower;
    forall ch | Has(add, ch)
      ensures Has(had, ch)
    {
      var i :| 0 <= i < |add| && ToLower(add[i]) == ToLower(ch);
      assert Has(had, add[i]);
    }
  }

  /** Leaving takes just the one membership; other networks and their members are as they were. */
  lemma LeaveKeeps(s: State, userID: string, netID: string)
    ensures var t := AfterLeave(s, userID, netID);
            && (netID, userID) !in t.members
            && (forall k :: k in t.members ==> k in s.members)
            && (forall k :: k in s.members && k != (netID, userID) ==> k in t.members && t.members[k] == s.members[k])
            && (forall id :: id in s.networks && id != netID ==> id in t.networks && t.networks[id] == s.networks[id])
            && (forall id :: id in t.networks ==> id in s.networks)
  {
    hide Listed, RowsLeft;
    var left := s.members - {(netID, userID)};
    assert forall k :: k in left && k.0 == netID ==> k in Of(left, netID);
  }
}
