/** The bounded two-way table between message ids of the network and rows of the store: a row's
    one canonical id (its anchor), and further ids (aliases) that find the same row. */
module MsgidRegistry {
  import opened Basics

  datatype Ref = Ref(snowflake: string, channelID: string, guildID: string)

  const CAP := 4096

  datatype Registry = Registry(anchorOf: map<string, string>, refOf: map<string, Ref>, order: seq<string>,
    aliases: seq<string>)

  const EMPTY := Registry(map[], map[], [], [])

  // ---------- what the operations do ----------

  ghost function ForgetAnchor(r: Registry): Registry
    requires r.order != []
  {
    var oldest := r.order[0];
    Registry(r.anchorOf - {oldest},
             if oldest in r.anchorOf then r.refOf - {r.anchorOf[oldest]} else r.refOf,
             r.order[1..], r.aliases)
  }

  ghost function TrimAnchors(r: Registry): Registry
    decreases |r.order|
  {
    if |r.order| > CAP then TrimAnchors(ForgetAnchor(r)) else r
  }

  ghost function AddAnchor(r: Registry, ref: Ref, msgid: string): Registry {
    Registry(r.anchorOf[ref.snowflake := msgid], r.refOf[msgid := ref],
             if ref.snowflake in r.anchorOf then r.order else r.order + [ref.snowflake], r.aliases)
  }

  ghost function Anchored(r: Registry, ref: Ref, msgid: string): Registry {
    TrimAnchors(AddAnchor(r, ref, msgid))
  }

  ghost function ForgetAlias(r: Registry): Registry
    requires r.aliases != []
  {
    r.(refOf := r.refOf - {r.aliases[0]}, aliases := r.aliases[1..])
  }

  ghost function TrimAliases(r: Registry): Registry
    decreases |r.aliases|
  {
    if |r.aliases| > CAP then TrimAliases(ForgetAlias(r)) else r
  }

  ghost predicate IsCanonical(r: Registry, ref: Ref, msgid: string) {
    ref.snowflake in r.anchorOf && r.anchorOf[ref.snowflake] == msgid
  }

  ghost function AddAlias(r: Registry, ref: Ref, msgid: string): Registry {
    r.(refOf := r.refOf[msgid := ref], aliases := r.aliases + [msgid])
  }

  ghost function Aliased(r: Registry, ref: Ref, msgid: string): Registry {
    if msgid == "" || IsCanonical(r, ref, msgid) then r else TrimAliases(AddAlias(r, ref, msgid))
  }

  class Conn {
    var snowToMsgid: map<string, string>
    var msgidToRef: map<string, Ref>
    var msgidOrder: seq<string>
    var aliasOrder: seq<string>

    ghost function Now(): Registry
      reads this
    {
      Registry(snowToMsgid, msgidToRef, msgidOrder, aliasOrder)
    }

    constructor ()
      ensures Now() == EMPTY
    {
      snowToMsgid, msgidToRef, msgidOrder, aliasOrder := map[], map[], [], [];
    }

    /** Makes `msgid` the canonical id of a row. */
    method RegisterMsgid(ref: Ref, msgid: string)
      modifies this
      ensures Now() == Anchored(old(Now()), ref, msgid)
    {
      if ref.snowflake !in snowToMsgid {
        msgidOrder := msgidOrder + [ref.snowflake];
      }
      snowToMsgid := snowToMsgid[ref.snowflake := msgid];
      msgidToRef := msgidToRef[msgid := ref];
      while |msgidOrder| > CAP
        invariant TrimAnchors(Now()) == Anchored(old(Now()), ref, msgid)
      {
        var oldest := msgidOrder[0];
        msgidOrder := msgidOrder[1..];
        if oldest in snowToMsgid {
          msgidToRef := msgidToRef - {snowToMsgid[oldest]};
        }
        snowToMsgid := snowToMsgid - {oldest};
      }
    }

    /** Lets `msgid` find a row, without becoming its canonical id. */
    method RegisterMsgidAlias(ref: Ref, msgid: string)
      modifies this
      ensures Now() == Aliased(old(Now()), ref, msgid)
    {
      if msgid == "" {
        return;
      }
      if ref.snowflake in snowToMsgid && snowToMsgid[ref.snowflake] == msgid {
        return;
      }
      msgidToRef := msgidToRef[msgid := ref];
      aliasOrder := aliasOrder + [msgid];
      while |aliasOrder| > CAP
        invariant TrimAliases(Now()) == Aliased(old(Now()), ref, msgid)
      {
        var oldest := aliasOrder[0];
        aliasOrder := aliasOrder[1..];
        msgidToRef := msgidToRef - {oldest};
      }
    }

    /** A row answers with an id registered as its anchor, exactly while it is listed. */
    method LookupMsgid(snowflake: string) returns (msgid: Option<string>)
      ensures forall ops :: Good(Now(), ops) ==>
        (msgid.Some? <==> snowflake in Now().order) && (msgid.Some? ==> HasAnchor(ops, snowflake, msgid.value))
      ensures msgid == if snowflake in Now().anchorOf then Some(Now().anchorOf[snowflake]) else None
    {
      if snowflake in snowToMsgid {
        return Some(snowToMsgid[snowflake]);
      }
      return None;
    }

    /** An id finds the row last registered under it, or nothing. */
    method LookupRef(msgid: string) returns (ref: Option<Ref>)
      ensures forall ops :: Good(Now(), ops) && ref.Some? ==> msgid in Named(ops) && ref.value == Named(ops)[msgid]
      ensures ref == if msgid in Now().refOf then Some(Now().refOf[msgid]) else None
    {
      if msgid in msgidToRef {
        return Some(msgidToRef[msgid]);
      }
      return None;
    }

    /** A row found by its snowflake is that row, as long as the table is as `Good` says. */
    method RefBySnowflake(snowflake: string) returns (ref: Option<Ref>)
      ensures ref == var r := Now();
        if snowflake in r.anchorOf && r.anchorOf[snowflake] in r.refOf then Some(r.refOf[r.anchorOf[snowflake]])
          else None
      ensures forall ops :: Good(Now(), ops) ==>
        (ref.Some? <==> snowflake in Now().order) && (ref.Some? ==> ref.value.snowflake == snowflake)
    {
      if snowflake !in snowToMsgid {
        return None;
      }
      if snowToMsgid[snowflake] !in msgidToRef {
        return None;
      }
      return Some(msgidToRef[snowToMsgid[snowflake]]);
    }

    /** All the ids of a joined batch: the anchor, then the others. */
    method RegisterBatch(ref: Ref, anchor: string, extras: seq<string>)
      modifies this
      ensures Now() == Bound(old(Now()), ref, anchor, extras)
    {
      RegisterMsgid(ref, anchor);
      for i := 0 to |extras|
        invariant Now() == Bound(old(Now()), ref, anchor, extras[..i])
      {
        assert extras[..i + 1][..i] == extras[..i];
        RegisterMsgidAlias(ref, extras[i]);
      }
      assert extras[..|extras|] == extras;
    }
  }

  ghost function Bound(r: Registry, ref: Ref, anchor: string, extras: seq<string>): Registry {
    if extras == [] then Anchored(r, ref, anchor)
    else Aliased(Bound(r, ref, anchor, extras[..|extras| - 1]), ref, extras[|extras| - 1])
  }

  // ---------- runs ----------

  datatype Op = Anchor(ref: Ref, msgid: string) | Alias(ref: Ref, msgid: string)

  ghost function Next(r: Registry, op: Op): Registry {
    match op
    case Anchor(ref, msgid) => Anchored(r, ref, msgid)
    case Alias(ref, msgid) => Aliased(r, ref, msgid)
  }

  ghost function Run(ops: seq<Op>): Registry {
    if ops == [] then EMPTY else Next(Run(ops[..|ops| - 1]), ops[|ops| - 1])
  }

  /** Rows and anchors pair one to one, and no alias is an anchor. */
  ghost predicate Paired(ops: seq<Op>) {
    forall a, b :: a in ops && b in ops && a.Anchor? ==>
      if b.Anchor? then a.ref.snowflake == b.ref.snowflake <==> a.msgid == b.msgid else a.msgid != b.msgid
  }

  /** The row last registered under each id. */
  ghost function Named(ops: seq<Op>): map<string, Ref> {
    if ops == [] then map[]
    else
      var before, op := Named(ops[..|ops| - 1]), ops[|ops| - 1];
      if op.Alias? && op.msgid == "" then before else before[op.msgid := op.ref]
  }

  ghost predicate HasAnchor(ops: seq<Op>, snowflake: string, msgid: string) {
    exists a :: a in ops && a.Anchor? && a.ref.snowflake == snowflake && a.msgid == msgid
  }

  ghost predicate HasAlias(ops: seq<Op>, msgid: string) {
    exists a :: a in ops && a.Alias? && a.msgid == msgid
  }

  /** The two maps are inverse on anchors, the rows with an anchor are those in the order list,
      and every id held is the anchor of a held row or one of the latest aliases and finds the
      row last registered under it. */
  ghost predicate Sound(r: Registry, ops: seq<Op>) {
    && Distinct(r.order) && (forall s :: s in r.order <==> s in r.anchorOf)
    && (forall s :: s in r.anchorOf ==>
          && HasAnchor(ops, s, r.anchorOf[s])
          && r.anchorOf[s] in r.refOf && r.refOf[r.anchorOf[s]].snowflake == s)
    && (forall a :: a in r.aliases ==> HasAlias(ops, a))
    && (forall m :: m in r.refOf ==>
          && m in Named(ops) && r.refOf[m] == Named(ops)[m]
          && (m in r.aliases || IsCanonical(r, r.refOf[m], m)))
  }

  ghost predicate Good(r: Registry, ops: seq<Op>) {
    Sound(r, ops) && |r.order| <= CAP && |r.aliases| <= CAP
  }

  lemma OneRow(ops: seq<Op>, s: string, m: string, t: string, n: string)
    requires Paired(ops) && HasAnchor(ops, s, m) && HasAnchor(ops, t, n)
    ensures s == t <==> m == n
  {
  }

  lemma NoAlias(ops: seq<Op>, s: string, m: string)
    requires Paired(ops) && HasAnchor(ops, s, m)
    ensures !HasAlias(ops, m)
  {
  }

  lemma Longer(ops: seq<Op>, op: Op)
    ensures forall s, m :: HasAnchor(ops, s, m) ==> HasAnchor(ops + [op], s, m)
    ensures forall m :: HasAlias(ops, m) ==> HasAlias(ops + [op], m)
    ensures op.Anchor? ==> HasAnchor(ops + [op], op.ref.snowflake, op.msgid)
    ensures op.Alias? ==> HasAlias(ops + [op], op.msgid)
    ensures Named(ops + [op]) == if op.Alias? && op.msgid == "" then Named(ops) else Named(ops)[op.msgid := op.ref]
    ensures Paired(ops + [op]) ==> Paired(ops)
  {
    assert (ops + [op])[..|ops|] == ops;
    assert forall a :: a in ops ==> a in ops + [op];
    assert op in ops + [op];
  }

  lemma AddAnchorSound(r: Registry, ops: seq<Op>, ref: Ref, msgid: string)
    requires Sound(r, ops) && Paired(ops + [Anchor(ref, msgid)])
    ensures Sound(AddAnchor(r, ref, msgid), ops + [Anchor(ref, msgid)])
  {
    hide HasAnchor, HasAlias, Named, Paired, Distinct;
    var r', ops' := AddAnchor(r, ref, msgid), ops + [Anchor(ref, msgid)];
    Longer(ops, Anchor(ref, msgid));
    DistinctSnoc(r.order, ref.snowflake);
    forall s | s in r'.anchorOf
      ensures HasAnchor(ops', s, r'.anchorOf[s]) && r'.anchorOf[s] in r'.refOf &&
              r'.refOf[r'.anchorOf[s]].snowflake == s
    {
      OneRow(ops', s, r'.anchorOf[s], ref.snowflake, msgid);
    }
    forall m | m in r'.refOf
      ensures m in Named(ops') && r'.refOf[m] == Named(ops')[m] && (m in r'.aliases || IsCanonical(r', r'.refOf[m], m))
    {
      if m != msgid && IsCanonical(r, r.refOf[m], m) {
        OneRow(ops', r.refOf[m].snowflake, m, ref.snowflake, msgid);
      }
    }
  }

  lemma DistinctSnoc(s: seq<string>, x: string)
    requires Distinct(s)
    ensures x !in s ==> Distinct(s + [x])
    ensures s != [] ==> Distinct(s[1..])
  {
  }

  lemma ForgetAnchorSound(r: Registry, ops: seq<Op>)
    requires Sound(r, ops) && Paired(ops) && r.order != []
    ensures Sound(ForgetAnchor(r), ops)
  {
    hide HasAnchor, HasAlias, Named, Paired, Distinct;
    var r', oldest := ForgetAnchor(r), r.order[0];
    DistinctSnoc(r.order, oldest);
    InTail(r.order);
    forall s | s in r'.anchorOf
      ensures HasAnchor(ops, s, r'.anchorOf[s]) && r'.anchorOf[s] in r'.refOf && r'.refOf[r'.anchorOf[s]].snowflake == s
    {
      OneRow(ops, s, r.anchorOf[s], oldest, r.anchorOf[oldest]);
    }
    forall m | m in r'.refOf
      ensures m in r'.aliases || IsCanonical(r', r'.refOf[m], m)
    {
      assert m in r.refOf && r'.refOf[m] == r.refOf[m];
    }
  }

  lemma InTail(s: seq<string>)
    requires Distinct(s) && s != []
    ensures forall x :: x in s[1..] <==> x in s && x != s[0]
  {
    assert s == [s[0]] + s[1..];
  }

  lemma AddAliasSound(r: Registry, ops: seq<Op>, ref: Ref, msgid: string)
    requires Sound(r, ops) && msgid != "" && Paired(ops + [Alias(ref, msgid)])
    ensures Sound(AddAlias(r, ref, msgid), ops + [Alias(ref, msgid)])
  {
    hide HasAnchor, HasAlias, Named, Paired, Distinct;
    var r', ops' := AddAlias(r, ref, msgid), ops + [Alias(ref, msgid)];
    Longer(ops, Alias(ref, msgid));
    forall s | s in r'.anchorOf
      ensures r'.anchorOf[s] in r'.refOf && r'.refOf[r'.anchorOf[s]].snowflake == s
    {
      NoAlias(ops', s, r.anchorOf[s]);
    }
  }

  lemma ForgetAliasSound(r: Registry, ops: seq<Op>)
    requires Sound(r, ops) && Paired(ops) && r.aliases != []
    ensures Sound(ForgetAlias(r), ops)
  {
    hide HasAnchor, HasAlias, Named, Paired, Distinct;
    var r' := ForgetAlias(r);
    assert r.aliases == [r.aliases[0]] + r.aliases[1..];
    forall s | s in r'.anchorOf
      ensures r'.anchorOf[s] in r'.refOf && r'.refOf[r'.anchorOf[s]].snowflake == s
    {
      NoAlias(ops, s, r.anchorOf[s]);
    }
  }

  lemma NoAliasSound(r: Registry, ops: seq<Op>, ref: Ref)
    requires Sound(r, ops)
    ensures Sound(r, ops + [Alias(ref, "")])
  {
    hide HasAnchor, HasAlias, Named, Paired;
    Longer(ops, Alias(ref, ""));
  }

  /** An alias never is the row's canonical id. */
  lemma NotCanonical(r: Registry, ops: seq<Op>, ref: Ref, msgid: string)
    requires Sound(r, ops) && Paired(ops + [Alias(ref, msgid)])
    ensures !IsCanonical(r, ref, msgid)
  {
    hide Named, Paired, HasAnchor, HasAlias;
    Longer(ops, Alias(ref, msgid));
    if IsCanonical(r, ref, msgid) {
      NoAlias(ops + [Alias(ref, msgid)], ref.snowflake, msgid);
    }
  }

  /** Each step trims at most one entry. */
  lemma TrimOnce(r: Registry)
    ensures |r.order| <= CAP ==> TrimAnchors(r) == r
    ensures |r.order| == CAP + 1 ==> TrimAnchors(r) == ForgetAnchor(r)
    ensures |r.aliases| <= CAP ==> TrimAliases(r) == r
    ensures |r.aliases| == CAP + 1 ==> TrimAliases(r) == ForgetAlias(r)
  {
  }

  lemma StepGood(r: Registry, ops: seq<Op>, op: Op)
    requires Good(r, ops) && Paired(ops + [op])
    ensures Good(Next(r, op), ops + [op])
  {
    hide Sound, Paired, TrimAnchors, TrimAliases;
    if op.Anchor? {
      var r' := AddAnchor(r, op.ref, op.msgid);
      AddAnchorSound(r, ops, op.ref, op.msgid);
      TrimOnce(r');
      if |r'.order| > CAP {
        ForgetAnchorSound(r', ops + [op]);
      }
    } else if op.msgid == "" {
      NoAliasSound(r, ops, op.ref);
    } else {
      var r' := AddAlias(r, op.ref, op.msgid);
      NotCanonical(r, ops, op.ref, op.msgid);
      AddAliasSound(r, ops, op.ref, op.msgid);
      TrimOnce(r');
      if |r'.aliases| > CAP {
        ForgetAliasSound(r', ops + [op]);
      }
    }
  }

  /** Over every run that pairs rows and anchors one to one. */
  lemma {:induction false} RunGood(ops: seq<Op>)
    requires Paired(ops)
    ensures Good(Run(ops), ops)
  {
    hide Good, Next;
    if ops == [] {
      EmptyGood();
    } else {
      var before, op := ops[..|ops| - 1], ops[|ops| - 1];
      assert ops == before + [op];
      Longer(before, op);
      RunGood(before);
      StepGood(Run(before), before, op);
    }
  }

  lemma EmptyGood()
    ensures Good(EMPTY, [])
  {
  }

  lemma Elements(s: seq<string>)
    ensures |set x | x in s| <= |s|
  {
    if s != [] {
      Elements(s[1..]);
      assert (set x | x in s) == {s[0]} + (set x | x in s[1..]);
    }
  }

  /** So the table never holds more than twice its cap. */
  lemma Bounded(ops: seq<Op>)
    requires Paired(ops)
    ensures |Run(ops).anchorOf| <= 4096 && |Run(ops).refOf| <= 8192
  {
    hide Named, HasAnchor, HasAlias, Run, Paired;
    RunGood(ops);
    var r := Run(ops);
    Elements(r.order);
    assert r.anchorOf.Keys == set s | s in r.order;
    var anchors := seq(|r.order|,
      i requires 0 <= i < |r.order| => assert r.order[i] in r.order; r.anchorOf[r.order[i]]);
    var held := anchors + r.aliases;
    forall m | m in r.refOf
      ensures m in held
    {
      if m !in r.aliases {
        var i :| 0 <= i < |r.order| && r.order[i] == r.refOf[m].snowflake;
        assert anchors[i] == m;
        assert m in anchors;
      }
    }
    Elements(held);
    Subset(r.refOf.Keys, set x | x in held);
  }

  lemma Subset(a: set<string>, b: set<string>)
    requires a <= b
    ensures |a| <= |b|
  {
    if a != {} {
      var x :| x in a;
      Subset(a - {x}, b - {x});
    }
  }

  /** The table holds an id that neither list will ever drop. */
  ghost predicate Strays(r: Registry, msgid: string) {
    msgid in r.refOf && msgid !in r.aliases && !IsCanonical(r, r.refOf[msgid], msgid)
  }

  /** A held row is registered under another id than its own, which is no listed alias. */
  ghost predicate Reanchors(r: Registry, ref: Ref, msgid: string) {
    ref.snowflake in r.anchorOf && r.anchorOf[ref.snowflake] != msgid && r.anchorOf[ref.snowflake] !in r.aliases
  }

  lemma AddAnchorStrays(r: Registry, ops: seq<Op>, ref: Ref, msgid: string, m: string)
    requires Good(r, ops)
    ensures Strays(AddAnchor(r, ref, msgid), m) <==> Reanchors(r, ref, msgid) && m == r.anchorOf[ref.snowflake]
  {
    hide HasAnchor, HasAlias, Named, Distinct;
    if m in r.refOf && m !in r.aliases {
      assert IsCanonical(r, r.refOf[m], m);
    }
  }

  lemma ForgetAnchorStrays(r: Registry, m: string)
    requires r.order != [] && !Strays(r, m)
    ensures !Strays(ForgetAnchor(r), m)
  {
  }

  /** One more anchor leaves an id behind, outside both lists, exactly if it gives a held row
      another id than its own, which is no listed alias; it then leaves just that one. */
  lemma OldAnchorStays(r: Registry, ops: seq<Op>, ref: Ref, msgid: string, m: string)
    requires Good(r, ops)
    ensures Strays(Anchored(r, ref, msgid), m) <==> Reanchors(r, ref, msgid) && m == r.anchorOf[ref.snowflake]
  {
    hide HasAnchor, HasAlias, Named, Distinct, TrimAnchors, Strays;
    var r' := AddAnchor(r, ref, msgid);
    AddAnchorStrays(r, ops, ref, msgid, m);
    TrimOnce(r');
    if |r'.order| > CAP {
      ForgetAnchorStrays(r', m);
    }
  }

  /** So does every run that paired rows and anchors so far. */
  lemma RunStrays(ops: seq<Op>, ref: Ref, msgid: string, m: string)
    requires Paired(ops)
    ensures Strays(Run(ops + [Anchor(ref, msgid)]), m) <==>
            Reanchors(Run(ops), ref, msgid) && m == Run(ops).anchorOf[ref.snowflake]
  {
    hide Good, Strays, Reanchors, Anchored;
    RunGood(ops);
    OldAnchorStays(Run(ops), ops, ref, msgid, m);
    assert (ops + [Anchor(ref, msgid)])[..|ops|] == ops;
  }

  /** Registering a row's own id as an alias of it, or no id, changes nothing. */
  lemma OwnIdIsNoAlias(r: Registry, ref: Ref, msgid: string)
    requires msgid == "" || (ref.snowflake in r.anchorOf && r.anchorOf[ref.snowflake] == msgid)
    ensures Aliased(r, ref, msgid) == r
  {
  }

  // ---------- what is retained ----------

  ghost function Window(log: seq<string>): seq<string> {
    if |log| > CAP then log[|log| - CAP..] else log
  }

  /** The rows in the order they got into the table: a row enters when it is registered while it
      is not among the latest CAP. */
  ghost function Entered(ops: seq<Op>): seq<string> {
    if ops == [] then []
    else
      var log, op := Entered(ops[..|ops| - 1]), ops[|ops| - 1];
      if op.Anchor? && op.ref.snowflake !in Window(log) then log + [op.ref.snowflake] else log
  }

  /** The aliases in the order they were registered. */
  ghost function AliasLog(ops: seq<Op>): seq<string> {
    if ops == [] then []
    else
      var log, op := AliasLog(ops[..|ops| - 1]), ops[|ops| - 1];
      if op.Alias? && op.msgid != "" then log + [op.msgid] else log
  }

  /** `a` was registered at `p`, and none of its registrations was dropped then or later. */
  ghost predicate KeptSince(log: seq<string>, p: int, a: string) {
    0 <= p < |log| && log[p] == a && forall q :: 0 <= q && p - CAP <= q < |log| - CAP ==> log[q] != a
  }

  ghost predicate Kept(log: seq<string>, a: string) {
    exists p :: KeptSince(log, p, a)
  }

  /** The registration of one more alias drops `a`. */
  ghost predicate DropsNext(log: seq<string>, a: string) {
    |log| >= CAP && log[|log| - CAP] == a
  }

  lemma WindowSnoc(log: seq<string>, x: string)
    ensures |Window(log)| < CAP ==> Window(log + [x]) == Window(log) + [x]
    ensures |Window(log)| == CAP ==> Window(log + [x]) == Window(log)[1..] + [x]
    ensures |Window(log)| <= CAP
  {
  }

  lemma KeptSinceSnoc(log: seq<string>, x: string, p: int, a: string)
    requires p < |log|
    ensures KeptSince(log + [x], p, a) <==> KeptSince(log, p, a) && !DropsNext(log, a)
  {
    var longer := log + [x];
    if KeptSince(longer, p, a) {
      if |log| >= CAP {
        assert longer[|log| - CAP] == log[|log| - CAP];
      }
      forall q | 0 <= q && p - CAP <= q < |log| - CAP
        ensures log[q] != a
      {
        assert longer[q] == log[q];
      }
    }
  }

  lemma KeptSinceNow(log: seq<string>, x: string, a: string)
    ensures KeptSince(log + [x], |log|, a) <==> x == a && !DropsNext(log, a)
  {
    if |log| >= CAP {
      assert (log + [x])[|log| - CAP] == log[|log| - CAP];
    }
  }

  lemma KeptSnoc(log: seq<string>, x: string, a: string)
    ensures Kept(log + [x], a) <==> (Kept(log, a) || x == a) && !DropsNext(log, a)
  {
    hide KeptSince, DropsNext;
    KeptSinceNow(log, x, a);
    forall p | p < |log|
      ensures KeptSince(log + [x], p, a) <==> KeptSince(log, p, a) && !DropsNext(log, a)
    {
      KeptSinceSnoc(log, x, p, a);
    }
    KeptRange(log, a);
    KeptRange(log + [x], a);
  }

  lemma KeptRange(log: seq<string>, a: string)
    ensures forall p :: KeptSince(log, p, a) ==> 0 <= p < |log|
  {
  }

  /** The table holds the anchors of the latest CAP rows to enter, and lists the latest CAP
      aliases; an alias finds a row exactly while `Kept`. */
  ghost predicate Retains(r: Registry, ops: seq<Op>) {
    && r.order == Window(Entered(ops))
    && r.aliases == Window(AliasLog(ops))
    && (forall m :: HasAlias(ops, m) && m != "" ==> (m in r.refOf <==> Kept(AliasLog(ops), m)))
  }

  lemma LogsSnoc(ops: seq<Op>, op: Op)
    ensures AliasLog(ops + [op]) == if op.Alias? && op.msgid != "" then AliasLog(ops) + [op.msgid] else AliasLog(ops)
    ensures Entered(ops + [op]) ==
      if op.Anchor? && op.ref.snowflake !in Window(Entered(ops)) then Entered(ops) + [op.ref.snowflake]
        else Entered(ops)
  {
    assert (ops + [op])[..|ops|] == ops;
  }

  lemma AliasIn(ops: seq<Op>, op: Op, m: string)
    ensures HasAlias(ops + [op], m) <==> HasAlias(ops, m) || (op.Alias? && op.msgid == m)
  {
    assert forall a :: a in ops + [op] <==> a in ops || a == op;
  }

  lemma {:induction false} NeverLogged(ops: seq<Op>, m: string)
    requires !HasAlias(ops, m)
    ensures m !in AliasLog(ops)
  {
    if ops != [] {
      var before, op := ops[..|ops| - 1], ops[|ops| - 1];
      assert ops == before + [op];
      AliasIn(before, op, m);
      NeverLogged(before, m);
    }
  }

  lemma NotAnAnchor(r: Registry, ops: seq<Op>, m: string)
    requires Sound(r, ops) && Paired(ops) && HasAlias(ops, m)
    ensures forall s :: s in r.anchorOf ==> r.anchorOf[s] != m
  {
    hide HasAnchor, HasAlias, Named, Paired;
    forall s | s in r.anchorOf
      ensures r.anchorOf[s] != m
    {
      NoAlias(ops, s, r.anchorOf[s]);
    }
  }

  lemma AnchorRetains(r: Registry, ops: seq<Op>, op: Op)
    requires Good(r, ops) && Retains(r, ops) && op.Anchor? && Paired(ops + [op])
    ensures Retains(Next(r, op), ops + [op])
  {
    hide HasAnchor, HasAlias, Named, Paired, Kept, Window, Entered, AliasLog, Distinct;
    var r', log := AddAnchor(r, op.ref, op.msgid), Entered(ops);
    LogsSnoc(ops, op);
    WindowSnoc(log, op.ref.snowflake);
    TrimOnce(r');
    Longer(ops, op);
    AddAnchorSound(r, ops, op.ref, op.msgid);
    if |r'.order| > CAP {
      assert r'.order[0] == r.order[0];
    }
    forall m | HasAlias(ops + [op], m) && m != ""
      ensures m in Next(r, op).refOf <==> m in r.refOf
      ensures HasAlias(ops, m)
    {
      AliasIn(ops, op, m);
      NotAnAnchor(r', ops + [op], m);
      assert r'.anchorOf[op.ref.snowflake] != m;
      assert |r'.order| > CAP ==> r'.anchorOf[r'.order[0]] != m;
    }
  }

  lemma AliasKept(r: Registry, ops: seq<Op>, op: Op, m: string)
    requires Good(r, ops) && Retains(r, ops) && op.Alias? && op.msgid != "" && Paired(ops + [op])
    requires HasAlias(ops + [op], m) && m != ""
    ensures m in Next(r, op).refOf <==> Kept(AliasLog(ops) + [op.msgid], m)
  {
    hide HasAnchor, HasAlias, Named, Paired, Kept, Entered, AliasLog, Distinct, Sound, TrimAliases, TrimAnchors;
    var log, r' := AliasLog(ops), AddAlias(r, op.ref, op.msgid);
    NotCanonical(r, ops, op.ref, op.msgid);
    TrimOnce(r');
    AliasIn(ops, op, m);
    KeptSnoc(log, op.msgid, m);
    if !HasAlias(ops, m) {
      NeverLogged(ops, m);
      NeverKept(log, m);
    }
  }

  lemma AliasRetains(r: Registry, ops: seq<Op>, op: Op)
    requires Good(r, ops) && Retains(r, ops) && op.Alias? && Paired(ops + [op])
    ensures Retains(Next(r, op), ops + [op])
  {
    hide HasAnchor, HasAlias, Named, Paired, Kept, Entered, AliasLog, Distinct, Sound, TrimAliases, TrimAnchors, Window;
    LogsSnoc(ops, op);
    if op.msgid == "" {
      forall m | HasAlias(ops + [op], m) && m != ""
        ensures HasAlias(ops, m)
      {
        AliasIn(ops, op, m);
      }
    } else {
      NotCanonical(r, ops, op.ref, op.msgid);
      TrimOnce(AddAlias(r, op.ref, op.msgid));
      WindowSnoc(AliasLog(ops), op.msgid);
      forall m | HasAlias(ops + [op], m) && m != ""
        ensures m in Next(r, op).refOf <==> Kept(AliasLog(ops + [op]), m)
      {
        AliasKept(r, ops, op, m);
      }
    }
  }

  lemma NeverKept(log: seq<string>, a: string)
    requires a !in log
    ensures !Kept(log, a)
  {
  }

  lemma {:induction false} RunRetains(ops: seq<Op>)
    requires Paired(ops)
    ensures Retains(Run(ops), ops)
  {
    hide Good, Retains, Next;
    if ops == [] {
      EmptyRetains();
    } else {
      var before, op := ops[..|ops| - 1], ops[|ops| - 1];
      assert ops == before + [op];
      Longer(before, op);
      RunRetains(before);
      RunGood(before);
      if op.Anchor? {
        AnchorRetains(Run(before), before, op);
      } else {
        AliasRetains(Run(before), before, op);
      }
    }
  }

  lemma EmptyRetains()
    ensures Retains(EMPTY, [])
  {
  }

  /** An alias registered once stays for the next 4095 registrations of aliases. */
  lemma OnceIsKept(log: seq<string>, p: nat)
    requires p < |log| && forall q :: 0 <= q < |log| && q != p ==> log[q] != log[p]
    ensures Kept(log, log[p]) <==> |log| - 4096 <= p
  {
    forall k
      ensures KeptSince(log, k, log[p]) ==> k == p && |log| - CAP <= p
    {
    }
    if |log| - CAP <= p {
      assert KeptSince(log, p, log[p]);
    }
  }

  /** One registered again may be lost with its earlier registration, however recent the later. */
  lemma AgainMayBeLost(log: seq<string>, p: nat, k: nat)
    requires p < k < |log| && log[p] == log[k] && k - CAP <= p < |log| - CAP
    requires forall q :: k < q < |log| ==> log[q] != log[k]
    ensures !Kept(log, log[k])
  {
    forall j
      ensures !KeptSince(log, j, log[k])
    {
      assert k < j < |log| ==> log[j] != log[k];
    }
  }

  ghost function AgainOps(ref: Ref): seq<Op> {
    [Alias(ref, "a"), Alias(ref, "a")] + seq(CAP - 1, i => Alias(ref, "b"))
  }

  lemma {:induction false} AliasesLogged(ops: seq<Op>)
    requires forall op :: op in ops ==> op.Alias? && op.msgid != ""
    ensures |AliasLog(ops)| == |ops| && forall i :: 0 <= i < |ops| ==> AliasLog(ops)[i] == ops[i].msgid
  {
    if ops != [] {
      var before := ops[..|ops| - 1];
      assert ops == before + [ops[|ops| - 1]];
      AliasesLogged(before);
    }
  }

  /** The alias "a", registered twice and then 4095 times another: its second registration is
      among the latest 4096, and it finds nothing. */
  lemma SecondAliasLost(ref: Ref)
    ensures var ops := AgainOps(ref);
      && Paired(ops) && |ops| == CAP + 1 && ops[1] == Alias(ref, "a")
      && "a" !in Run(ops).refOf
  {
    hide Run, AliasLog, Kept, Named, Window, Entered;
    var ops := AgainOps(ref);
    assert forall i :: 0 <= i < |ops| ==> ops[i] == Alias(ref, if i < 2 then "a" else "b");
    AliasesLogged(ops);
    var log := AliasLog(ops);
    assert log[0] == log[1] == "a";
    AgainMayBeLost(log, 0, 1);
    RunRetains(ops);
    assert HasAlias(ops, "a") by {
      assert ops[0] in ops;
    }
  }

  lemma RunSnoc(ops: seq<Op>, op: Op)
    ensures Run(ops + [op]) == Next(Run(ops), op)
  {
    assert (ops + [op])[..|ops|] == ops;
  }

  /** One row under two anchors: the first one stays in the table, in neither list. */
  lemma TwoAnchorsLeak(ref: Ref)
    ensures var r := Run([] + [Anchor(ref, "a")] + [Anchor(ref, "b")]);
      "a" in r.refOf && r.anchorOf == map[ref.snowflake := "b"] && r.order == [ref.snowflake] && r.aliases == []
  {
    hide TrimAnchors;
    RunSnoc([], Anchor(ref, "a"));
    RunSnoc([] + [Anchor(ref, "a")], Anchor(ref, "b"));
    var one := AddAnchor(EMPTY, ref, "a");
    TrimOnce(one);
    TrimOnce(AddAnchor(one, ref, "b"));
  }

  /** What a client can ask after any paired run: a row has an anchor exactly while it is among
      the latest, the anchor finds the row, and no alias takes its place. */
  lemma Answers(ops: seq<Op>, s: string)
    requires Paired(ops)
    ensures var r := Run(ops);
      && (s in r.anchorOf <==> s in Window(Entered(ops)))
      && (s in r.anchorOf ==>
            && HasAnchor(ops, s, r.anchorOf[s]) && !HasAlias(ops, r.anchorOf[s])
            && r.anchorOf[s] in r.refOf && r.refOf[r.anchorOf[s]].snowflake == s)
      && (forall m :: m in r.refOf ==> m in Named(ops) && r.refOf[m] == Named(ops)[m])
  {
    hide Run, Named, HasAnchor, HasAlias, Paired, Distinct, Window, Entered, AliasLog;
    RunGood(ops);
    RunRetains(ops);
    if s in Run(ops).anchorOf {
      NoAlias(ops, s, Run(ops).anchorOf[s]);
    }
  }

  // ---------- a joined batch ----------

  ghost predicate Apart(r: Registry, anchor: string, extras: seq<string>) {
    && Distinct(extras) && anchor !in extras && "" !in extras && anchor !in r.aliases
    && (forall a :: a in extras ==> a !in r.aliases)
    && (forall s :: s in r.anchorOf ==> r.anchorOf[s] !in extras)
  }

  /** Every id of a joined batch finds the batch's row, and the row answers with the anchor. */
  ghost predicate Finds(r: Registry, ref: Ref, anchor: string, extras: seq<string>) {
    && IsCanonical(r, ref, anchor)
    && anchor in r.refOf && r.refOf[anchor] == ref
    && (forall a :: a in extras ==> a in r.refOf && r.refOf[a] == ref)
  }

  lemma AnchorFinds(r: Registry, ops: seq<Op>, ref: Ref, anchor: string)
    requires Good(r, ops) && Paired(ops + [Anchor(ref, anchor)])
    ensures Finds(Anchored(r, ref, anchor), ref, anchor, [])
    ensures Anchored(r, ref, anchor).aliases == r.aliases
  {
    hide Named, HasAnchor, HasAlias, Paired, Distinct, TrimAnchors;
    var r' := AddAnchor(r, ref, anchor);
    Longer(ops, Anchor(ref, anchor));
    AddAnchorSound(r, ops, ref, anchor);
    TrimOnce(r');
    if |r'.order| > CAP {
      var oldest := r.order[0];
      assert r'.order[0] == oldest && oldest in r.anchorOf && oldest != ref.snowflake;
      OneRow(ops + [Anchor(ref, anchor)], oldest, r'.anchorOf[oldest], ref.snowflake, anchor);
    }
  }

  lemma AliasFinds(r: Registry, first: seq<string>, ref: Ref, anchor: string, extras: seq<string>, x: string)
    requires Finds(r, ref, anchor, extras) && x != "" && x != anchor && |r.aliases| <= CAP && |extras| < CAP
    requires r.aliases == Window(first + extras) && anchor !in first
    requires forall a :: a in extras + [x] ==> a !in first
    requires Distinct(extras + [x])
    ensures Finds(Aliased(r, ref, x), ref, anchor, extras + [x])
    ensures Aliased(r, ref, x).aliases == Window(first + (extras + [x]))
  {
    hide Distinct;
    var log, r' := first + extras, AddAlias(r, ref, x);
    assert first + (extras + [x]) == log + [x];
    WindowSnoc(log, x);
    TrimOnce(r');
    if |r'.aliases| > CAP {
      assert r'.aliases[0] == log[|log| - CAP];
      assert |log| - CAP < |first|;
      assert r'.aliases[0] in first;
    }
  }

  lemma {:induction false} BatchFinds(r: Registry, ops: seq<Op>, ref: Ref, anchor: string, extras: seq<string>)
    requires Good(r, ops) && Paired(ops + [Anchor(ref, anchor)]) && Apart(r, anchor, extras) && |extras| <= CAP
    ensures Finds(Bound(r, ref, anchor, extras), ref, anchor, extras)
    ensures Bound(r, ref, anchor, extras).aliases == Window(r.aliases + extras)
  {
    hide Good, Paired, Finds, Anchored, Aliased;
    if extras == [] {
      AnchorFinds(r, ops, ref, anchor);
      assert r.aliases + [] == r.aliases;
      GoodBound(r, ops);
    } else {
      var before, x := extras[..|extras| - 1], extras[|extras| - 1];
      assert extras == before + [x];
      BatchFinds(r, ops, ref, anchor, before);
      GoodBound(r, ops);
      WindowSnoc(r.aliases + before, x);
      AliasFinds(Bound(r, ref, anchor, before), r.aliases, ref, anchor, before, x);
    }
  }

  lemma GoodBound(r: Registry, ops: seq<Op>)
    requires Good(r, ops)
    ensures |r.aliases| <= CAP
  {
  }
}
