/** The stored networks, memberships and channels. A map or set stands for the keys of one prefix
    of the key-value store. */
module NetworkStore {
  import opened Basics

  datatype Network = Network(id: string, connID: string, name: string, keys: map<string, string>,
                             password: string, saslUser: string, saslPass: string)

  datatype Membership = Membership(nick: string, autoJoin: seq<string>)

  datatype Channel = Channel(id: string, networkID: string, ircName: string, name: string)

  /** `chanNet` finds a channel's id by network and IRC name, `prefill` marks by the same key the
      channels whose history was fetched; `rows` holds (channel id, message key). */
  datatype State = State(networks: map<string, Network>, netConn: map<string, string>,
                         members: map<(string, string), Membership>,
                         chans: map<string, Channel>, chanNet: map<(string, string), string>,
                         prefill: map<(string, string), string>, rows: set<(string, string)>)

  const EMPTY := State(map[], map[], map[], map[], map[], map[], {})

  const SYSTEM_IRC_NAME := "\0system"
  const SYSTEM_CHAN_NAME := "server-notices"

  function TrimHash(name: string): string {
    if name != "" && name[0] == '#' then name[1..] else name
  }

  /** The channel an index entry finds. */
  ghost function ChannelAt(s: State, netID: string, ircName: string): Option<Channel> {
    if (netID, ircName) in s.chanNet && s.chanNet[(netID, ircName)] in s.chans
    then Some(s.chans[s.chanNet[(netID, ircName)]]) else None
  }

  ghost function Ensured(s: State, netID: string, ircName: string, name: string, id: string): State {
    if (netID, ircName) in s.chanNet then s
    else s.(chans := s.chans[id := Channel(id, netID, ircName, name)], chanNet := s.chanNet[(netID, ircName) := id])
  }

  ghost function Renamed(s: State, netID: string, oldIRC: string, newIRC: string): State {
    var ch := ChannelAt(s, netID, oldIRC);
    if ch.None? then s
    else s.(chans := s.chans[ch.value.id := ch.value.(ircName := newIRC, name := TrimHash(newIRC))],
            chanNet := (s.chanNet - {(netID, oldIRC)})[(netID, newIRC) := ch.value.id],
            prefill :=
              if (netID, oldIRC) in s.prefill
              then s.prefill[(netID, newIRC) := s.prefill[(netID, oldIRC)]] - {(netID, oldIRC)}
              else s.prefill)
  }

  function Of<V>(m: map<(string, string), V>, netID: string): set<(string, string)> {
    set k | k in m && k.0 == netID
  }

  /** The channels the index lists for a network. */
  function Listed(chanNet: map<(string, string), string>, netID: string): set<string> {
    set k | k in chanNet && k.0 == netID :: chanNet[k]
  }

  /** The history under a name counts as fetched. */
  ghost function Fetched(s: State, netID: string, ircName: string, at: string): State {
    s.(prefill := s.prefill[(netID, ircName) := at])
  }

  function RowsLeft(rows: set<(string, string)>, ids: set<string>): set<(string, string)> {
    set r | r in rows && r.0 !in ids
  }

  ghost function Cascaded(s: State, netID: string): State {
    State(s.networks - {netID}, s.netConn, s.members - Of(s.members, netID),
          s.chans - Listed(s.chanNet, netID), s.chanNet - Of(s.chanNet, netID), s.prefill - Of(s.prefill, netID),
          RowsLeft(s.rows, Listed(s.chanNet, netID)))
  }

  method DeleteKeys<K, V>(m: map<K, V>, keys: set<K>) returns (rest: map<K, V>)
    ensures rest == m - keys
  {
    rest := m;
    var todo := keys;
    while todo != {}
      invariant todo <= keys && rest == m - (keys - todo)
      decreases |todo|
    {
      var k :| k in todo;
      rest := rest - {k};
      todo := todo - {k};
    }
  }

  /** The records of channels, and their replay buffers. */
  method DeleteChannels(chans: map<string, Channel>, rows: set<(string, string)>, ids: set<string>)
    returns (chansLeft: map<string, Channel>, rowsLeft: set<(string, string)>)
    ensures chansLeft == chans - ids && rowsLeft == RowsLeft(rows, ids)
  {
    chansLeft, rowsLeft := chans, rows;
    var todo := ids;
    while todo != {}
      invariant todo <= ids && chansLeft == chans - (ids - todo)
      invariant forall r :: r in rowsLeft <==> r in rows && r.0 !in ids - todo
      decreases |todo|
    {
      var id :| id in todo;
      chansLeft := chansLeft - {id};
      rowsLeft := set r | r in rowsLeft && r.0 != id;
      todo := todo - {id};
    }
  }

  class Store {
    var networks: map<string, Network>
    var netConn: map<string, string>
    var members: map<(string, string), Membership>
    var chans: map<string, Channel>
    var chanNet: map<(string, string), string>
    var prefill: map<(string, string), string>
    var rows: set<(string, string)>

    ghost function Now(): State
      reads this
    {
      State(networks, netConn, members, chans, chanNet, prefill, rows)
    }

    constructor ()
      ensures Now() == EMPTY
    {
      networks, netConn, members := map[], map[], map[];
      chans, chanNet, prefill, rows := map[], map[], map[], {};
    }

    /** `newID` is the id the generator gives, if it is asked. */
    method EnsureChannel(netID: string, ircName: string, newID: string) returns (ch: Option<Channel>)
      modifies this
      ensures Now() == Ensured(old(Now()), netID, ircName, TrimHash(ircName), newID)
      ensures ch == ChannelAt(Now(), netID, ircName)
    {
      if (netID, ircName) in chanNet {
        if chanNet[(netID, ircName)] !in chans {
          return None;
        }
        return Some(chans[chanNet[(netID, ircName)]]);
      }
      var made := Channel(newID, netID, ircName, TrimHash(ircName));
      chans := chans[newID := made];
      chanNet := chanNet[(netID, ircName) := newID];
      return Some(made);
    }

    method EnsureSystemChannel(netID: string, newID: string) returns (ch: Option<Channel>)
      modifies this
      ensures Now() == Ensured(old(Now()), netID, SYSTEM_IRC_NAME, SYSTEM_CHAN_NAME, newID)
      ensures ch == ChannelAt(Now(), netID, SYSTEM_IRC_NAME)
    {
      if (netID, SYSTEM_IRC_NAME) in chanNet {
        if chanNet[(netID, SYSTEM_IRC_NAME)] !in chans {
          return None;
        }
        return Some(chans[chanNet[(netID, SYSTEM_IRC_NAME)]]);
      }
      var made := Channel(newID, netID, SYSTEM_IRC_NAME, SYSTEM_CHAN_NAME);
      chans := chans[newID := made];
      chanNet := chanNet[(netID, SYSTEM_IRC_NAME) := newID];
      return Some(made);
    }

    method RenameChannel(netID: string, oldIRC: string, newIRC: string) returns (ok: bool)
      modifies this
      ensures ok <==> ChannelAt(old(Now()), netID, oldIRC).Some?
      ensures Now() == Renamed(old(Now()), netID, oldIRC, newIRC)
    {
      if (netID, oldIRC) !in chanNet {
        return false;
      }
      var id := chanNet[(netID, oldIRC)];
      if id !in chans {
        return false;
      }
      var ch := chans[id].(ircName := newIRC, name := TrimHash(newIRC));
      chans := chans[ch.id := ch];
      chanNet := chanNet - {(netID, oldIRC)};
      chanNet := chanNet[(netID, newIRC) := ch.id];
      if (netID, oldIRC) in prefill {
        prefill := prefill[(netID, newIRC) := prefill[(netID, oldIRC)]];
        prefill := prefill - {(netID, oldIRC)};
      }
      return true;
    }

    method MarkChatPrefill(netID: string, ircName: string, at: string)
      modifies this`prefill
      ensures Now() == Fetched(old(Now()), netID, ircName, at)
    {
      prefill := prefill[(netID, ircName) := at];
    }

    method UpsertNetwork(n: Network)
      modifies this`networks, this`netConn
      ensures Now() == old(Now()).(networks := old(networks)[n.id := n], netConn := old(netConn)[n.connID := n.id])
    {
      networks := networks[n.id := n];
      netConn := netConn[n.connID := n.id];
    }

    method NetworkByConnID(connID: string) returns (n: Option<Network>)
      ensures n == ByConnID(Now(), connID)
    {
      if connID !in netConn || netConn[connID] !in networks {
        return None;
      }
      return Some(networks[netConn[connID]]);
    }

    method UpsertMembership(netID: string, userID: string, m: Membership)
      modifies this`members
      ensures Now() == old(Now()).(members := old(members)[(netID, userID) := m])
    {
      members := members[(netID, userID) := m];
    }

    method DeleteMembership(netID: string, userID: string)
      modifies this`members
      ensures Now() == old(Now()).(members := old(members) - {(netID, userID)})
    {
      members := members - {(netID, userID)};
    }

    method DeleteNetworkCascade(netID: string)
      modifies this
      ensures Now() == Cascaded(old(Now()), netID)
    {
      hide Of, Listed, RowsLeft;
      networks := networks - {netID};
      var memberKeys, prefillKeys, chanIdxKeys := Of(members, netID), Of(prefill, netID), Of(chanNet, netID);
      var chanIDs := Listed(chanNet, netID);
      members := DeleteKeys(members, memberKeys);
      prefill := DeleteKeys(prefill, prefillKeys);
      chanNet := DeleteKeys(chanNet, chanIdxKeys);
      chans, rows := DeleteChannels(chans, rows, chanIDs);
    }
  }

  ghost function ByConnID(s: State, connID: string): Option<Network> {
    if connID in s.netConn && s.netConn[connID] in s.networks then Some(s.networks[s.netConn[connID]]) else None
  }
}
