/** Read positions and mention badges of channels. */
module ReadMarkers {
  import opened MessageKeys

  datatype Row = Row(marker: string, badge: nat)

  type Rows = map<(string, string), Row>

  // ---------- the order of ids ----------

  lemma {:induction false} LessTotal(a: string, b: string)
    ensures a != b ==> Less(a, b) || Less(b, a)
    ensures !(Less(a, b) && Less(b, a))
    ensures !Less(a, a)
  {
    if a != [] && b != [] {
      LessTotal(a[1..], b[1..]);
      assert a == [a[0]] + a[1..] && b == [b[0]] + b[1..];
    }
    if a != [] {
      LessTotal(a[1..], a[1..]);
    }
  }

  lemma {:induction false} LessTransitive(a: string, b: string, c: string)
    requires Less(a, b) && Less(b, c)
    ensures Less(a, c)
  {
    if a != [] && a[0] == b[0] == c[0] {
      LessTransitive(a[1..], b[1..], c[1..]);
    }
  }

  /** Any two different ids compare, one way only; the empty id is the least. */
  lemma GreaterTotal(a: string, b: string)
    ensures a != b ==> SnowflakeGreater(a, b) || SnowflakeGreater(b, a)
    ensures !(SnowflakeGreater(a, b) && SnowflakeGreater(b, a))
    ensures !SnowflakeGreater(a, a) && !SnowflakeGreater("", a)
  {
    LessTotal(a, b);
    LessTotal(a, a);
  }

  lemma GreaterTransitive(a: string, b: string, c: string)
    requires SnowflakeGreater(a, b) && SnowflakeGreater(b, c)
    ensures SnowflakeGreater(a, c)
  {
    if |a| == |b| == |c| {
      LessTransitive(c, b, a);
    }
  }

  /** With leading zeros the comparison is not numeric. */
  lemma LeadingZeroMisleads()
    ensures SnowflakeGreater("010", "99") && AllDigits("010") && AllDigits("99") && Value("010") < Value("99")
  {
    assert "010"[..2] == "01" && "01"[..1] == "0" && "0"[..0] == [];
    assert "99"[..1] == "9" && "9"[..0] == [];
  }

  // ---------- the operations ----------

  /** An absent row reads as: everything read. */
  function At(rows: Rows, userID: string, channelID: string): Row {
    if (userID, channelID) in rows then rows[(userID, channelID)] else Row("", 0)
  }

  ghost function Marked(r: Row, id: string): Row {
    if SnowflakeGreater(r.marker, id) then r else Row(id, 0)
  }

  /** A channel acknowledged at its newest buffered message, if it has one. */
  ghost function AckedAt(r: Row, newest: map<string, string>, channelID: string): Row {
    var ahead := channelID in newest && !SnowflakeGreater(r.marker, newest[channelID]);
    Row(if ahead then newest[channelID] else r.marker, 0)
  }

  ghost function GuildAcked(rows: Rows, userID: string, chans: seq<string>, newest: map<string, string>): Rows {
    if chans == [] then rows
    else
      var before, c := GuildAcked(rows, userID, chans[..|chans| - 1], newest), chans[|chans| - 1];
      before[(userID, c) := AckedAt(At(before, userID, c), newest, c)]
  }

  method TextLess(a: string, b: string) returns (r: bool)
    ensures r <==> Less(a, b)
  {
    var i := 0;
    while i < |a| && i < |b| && a[i] == b[i]
      invariant i <= |a| && i <= |b|
      invariant Less(a, b) <==> Less(a[i..], b[i..])
    {
      i := i + 1;
    }
    r := i < |b| && (i == |a| || a[i] < b[i]);
  }

  method Greater(a: string, b: string) returns (r: bool)
    ensures r <==> SnowflakeGreater(a, b)
  {
    if |a| != |b| {
      return |a| > |b|;
    }
    r := TextLess(b, a);
  }

  class Service {
    var rows: Rows

    constructor ()
      ensures rows == map[]
    {
      rows := map[];
    }

    method MarkChannelRead(userID: string, channelID: string, messageID: string) returns (rs: Row)
      modifies this
      ensures rs == Marked(At(old(rows), userID, channelID), messageID)
      ensures rows == Next(old(rows), Mark(userID, channelID, messageID))
    {
      rs := At(rows, userID, channelID);
      var behind := Greater(rs.marker, messageID);
      if behind {
        assert (userID, channelID) in rows;
        return;
      }
      rs := Row(messageID, 0);
      rows := rows[(userID, channelID) := rs];
    }

    /** `chans` are the guild's channels, `newest` the id of each one's newest message. */
    method AckGuild(userID: string, chans: seq<string>, newest: map<string, string>) returns (out: seq<Row>)
      modifies this
      ensures rows == Next(old(rows), AckAll(userID, chans, newest))
      ensures |out| == |chans| && forall i :: 0 <= i < |chans| ==> out[i] == At(rows, userID, chans[i])
    {
      out := [];
      for i := 0 to |chans|
        invariant rows == GuildAcked(old(rows), userID, chans[..i], newest)
        invariant |out| == i && forall j :: 0 <= j < i ==> out[j] == At(rows, userID, chans[j])
      {
        ghost var was := At(rows, userID, chans[i]);
        assert chans[..i + 1][..i] == chans[..i];
        forall j | 0 <= j < i && chans[j] == chans[i]
          ensures AckedAt(was, newest, chans[i]) == was
        {
          AckedAlready(old(rows), userID, chans[..i], newest, chans[i]);
        }
        var rs := At(rows, userID, chans[i]);
        if chans[i] in newest {
          var behind := Greater(rs.marker, newest[chans[i]]);
          if !behind {
            rs := rs.(marker := newest[chans[i]]);
          }
        }
        rs := rs.(badge := 0);
        rows := rows[(userID, chans[i]) := rs];
        out := out + [rs];
      }
      assert chans[..|chans|] == chans;
    }

    method OnMentionRelayed(userID: string, channelID: string)
      modifies this
      ensures rows == Next(old(rows), Mention(userID, channelID))
    {
      var rs := At(rows, userID, channelID);
      rs := rs.(badge := rs.badge + 1);
      rows := rows[(userID, channelID) := rs];
    }
  }

  lemma {:induction false} AckedAlready(rows: Rows, userID: string, chans: seq<string>, newest: map<string, string>,
      c: string)
    requires c in chans
    ensures At(GuildAcked(rows, userID, chans, newest), userID, c) == AckedAt(At(rows, userID, c), newest, c)
    ensures var r := At(GuildAcked(rows, userID, chans, newest), userID, c); AckedAt(r, newest, c) == r
  {
    GuildAckedAt(rows, userID, chans, newest, userID, c);
    AckTwice(At(rows, userID, c), newest, c);
  }

  lemma AckTwice(r: Row, newest: map<string, string>, c: string)
    ensures AckedAt(AckedAt(r, newest, c), newest, c) == AckedAt(r, newest, c)
  {
  }

  /** Acknowledging a guild acknowledges each of its channels, once, and no other row. */
  lemma {:induction false} GuildAckedAt(rows: Rows, userID: string, chans: seq<string>, newest: map<string, string>,
                                        u: string, c: string)
    ensures At(GuildAcked(rows, userID, chans, newest), u, c) ==
      if u == userID && c in chans then AckedAt(At(rows, u, c), newest, c) else At(rows, u, c)
  {
    if chans != [] {
      var before, last := chans[..|chans| - 1], chans[|chans| - 1];
      assert chans == before + [last];
      GuildAckedAt(rows, userID, before, newest, u, c);
      AckTwice(At(rows, u, c), newest, c);
    }
  }

  // ---------- runs ----------

  datatype Op =
    | Mark(userID: string, channelID: string, messageID: string)
    | AckAll(userID: string, chans: seq<string>, newest: map<string, string>)
    | Mention(userID: string, channelID: string)

  ghost function Next(rows: Rows, op: Op): Rows {
    match op
    case Mark(u, c, id) => rows[(u, c) := Marked(At(rows, u, c), id)]
    case AckAll(u, chans, newest) => GuildAcked(rows, u, chans, newest)
    case Mention(u, c) => rows[(u, c) := At(rows, u, c).(badge := At(rows, u, c).badge + 1)]
  }

  ghost function Run(ops: seq<Op>): Rows {
    if ops == [] then map[] else Next(Run(ops[..|ops| - 1]), ops[|ops| - 1])
  }

  /** The ids an operation acknowledges in a channel. */
  ghost function AckedBy(op: Op, u: string, c: string): set<string> {
    if op.userID != u then {}
    else if op.Mark? then if op.channelID == c then {op.messageID} else {}
    else if op.AckAll? then if c in op.chans && c in op.newest then {op.newest[c]} else {}
    else {}
  }

  /** All ids ever acknowledged in a channel, in whatever order. */
  ghost function Acked(ops: seq<Op>, u: string, c: string): set<string> {
    if ops == [] then {""} else Acked(ops[..|ops| - 1], u, c) + AckedBy(ops[|ops| - 1], u, c)
  }

  ghost predicate IsGreatest(id: string, ids: set<string>) {
    id in ids && forall x :: x in ids ==> !SnowflakeGreater(x, id)
  }

  /** An acknowledgement takes effect: the whole guild's always, a message's unless a greater id
      was acknowledged before. */
  ghost predicate Clears(acked: set<string>, op: Op, u: string, c: string) {
    && op.userID == u
    && (if op.Mark? then op.channelID == c && (forall x :: x in acked ==> !SnowflakeGreater(x, op.messageID))
        else op.AckAll? && c in op.chans)
  }

  /** The mentions since the last acknowledgement that took effect. */
  ghost function Unseen(ops: seq<Op>, u: string, c: string): nat {
    if ops == [] then 0
    else
      var before, op := ops[..|ops| - 1], ops[|ops| - 1];
      if Clears(Acked(before, u, c), op, u, c) then 0
      else Unseen(before, u, c) + if op == Mention(u, c) then 1 else 0
  }

  lemma GreatestWith(m: string, ids: set<string>, x: string)
    requires IsGreatest(m, ids)
    ensures IsGreatest(if SnowflakeGreater(m, x) then m else x, ids + {x})
    ensures (forall y :: y in ids ==> !SnowflakeGreater(y, x)) <==> !SnowflakeGreater(m, x)
  {
    GreaterTotal(x, m);
    GreaterTotal(x, x);
    forall y | y in ids
      ensures !SnowflakeGreater(m, x) ==> !SnowflakeGreater(y, x)
    {
      GreaterTotal(y, m);
      if SnowflakeGreater(y, x) && !SnowflakeGreater(m, x) {
        if m != x {
          GreaterTransitive(y, x, m);
        }
      }
    }
  }

  /** The marker is the greatest id ever acknowledged, and the badge counts the mentions since the
      last acknowledgement that took effect. */
  ghost predicate Reads(r: Row, ops: seq<Op>, u: string, c: string) {
    IsGreatest(r.marker, Acked(ops, u, c)) && r.badge == Unseen(ops, u, c)
  }

  lemma StepReads(rows: Rows, ops: seq<Op>, op: Op, u: string, c: string)
    requires Reads(At(rows, u, c), ops, u, c)
    ensures Reads(At(Next(rows, op), u, c), ops + [op], u, c)
  {
    hide SnowflakeGreater, GuildAcked;
    var m, ids := At(rows, u, c).marker, Acked(ops, u, c);
    assert (ops + [op])[..|ops|] == ops;
    match op
    case Mark(_, _, id) => GreatestWith(m, ids, id);
    case AckAll(user, chans, newest) =>
      GuildAckedAt(rows, user, chans, newest, u, c);
      if c in newest {
        GreatestWith(m, ids, newest[c]);
      }
    case Mention(_, _) =>
  }

  lemma {:induction false} RunReads(ops: seq<Op>, u: string, c: string)
    ensures Reads(At(Run(ops), u, c), ops, u, c)
  {
    hide Reads, Next;
    if ops == [] {
      NothingRead(u, c);
    } else {
      var before := ops[..|ops| - 1];
      RunReads(before, u, c);
      StepReads(Run(before), before, ops[|ops| - 1], u, c);
      assert ops == before + [ops[|ops| - 1]];
    }
  }

  lemma NothingRead(u: string, c: string)
    ensures Reads(At(map[], u, c), [], u, c)
  {
    GreaterTotal("", "");
  }

  lemma {:induction false} AckedGrows(ops: seq<Op>, k: nat, u: string, c: string)
    requires k <= |ops|
    ensures Acked(ops[..k], u, c) <= Acked(ops, u, c)
  {
    if k < |ops| {
      assert ops[..|ops| - 1][..k] == ops[..k];
      AckedGrows(ops[..|ops| - 1], k, u, c);
    } else {
      assert ops[..k] == ops;
    }
  }

  /** A marker never moves back; among ids without leading zeros, not as a number either. */
  lemma NeverBack(ops: seq<Op>, k: nat, u: string, c: string)
    requires k <= |ops|
    ensures var was, now := At(Run(ops[..k]), u, c).marker, At(Run(ops), u, c).marker;
      && !SnowflakeGreater(was, now)
      && (Canonical(was) && Canonical(now) ==> Value(was) <= Value(now))
  {
    hide SnowflakeGreater, Run, Canonical;
    RunReads(ops[..k], u, c);
    RunReads(ops, u, c);
    AckedGrows(ops, k, u, c);
    var was, now := At(Run(ops[..k]), u, c).marker, At(Run(ops), u, c).marker;
    if Canonical(was) && Canonical(now) {
      CanonicalDigits(was);
      CanonicalDigits(now);
      GreaterIsNumeric(was, now);
    }
  }

  lemma CanonicalDigits(s: string)
    requires Canonical(s)
    ensures AllDigits(s)
  {
  }
}
