/** Incoming batches: nested chathistory and draft/multiline batches, and where every message
    frame ends up. Frames are numbered in the order they came in. */
module Batches {
  import opened Basics
  import opened Multiline

  /** One PRIVMSG or NOTICE; `n` is its place among all of them. */
  datatype Msg = Msg(n: nat, target: string, author: string, text: string, msgid: string, echo: bool, concat: bool)

  /** An open draft/multiline batch; `chatRef` is the history batch it is nested in, if any. */
  datatype LineBatch = LineBatch(target: string, chatRef: string, openMsgid: string, frames: seq<Msg>)

  /** One message of a history batch, joined from the frames numbered `from`. */
  datatype Entry = Entry(target: string, author: string, content: string, anchor: string, extras: seq<string>,
    from: seq<nat>)

  datatype ChatBatch = ChatBatch(target: string, frames: seq<Entry>)

  /** Where frames leave the connection: relayed as a message, bound as an echo to the row of an
      own earlier send (to none, "", if there is no such send or the echo has no id), flushed as
      history, or handed to a waiting page fetch. */
  datatype Sink =
    | Live(entry: Entry)
    | Echo(entry: Entry, row: string)
    | History(batch: ChatBatch)
    | Page(batch: ChatBatch)

  /** A page fetch that waits for its target's batch, since `issued`, in nanoseconds. */
  datatype Wait = Wait(target: string, issued: int)

  // ---------- message ids of a batch ----------

  ghost function AddMsgid(ids: seq<string>, id: string): seq<string> {
    if id == "" || id in ids then ids else ids + [id]
  }

  /** The distinct message ids of a batch, the opening line's first, then in wire order. */
  ghost function Msgids(openMsgid: string, frames: seq<Msg>): seq<string> {
    if frames == [] then AddMsgid([], openMsgid)
    else AddMsgid(Msgids(openMsgid, frames[..|frames| - 1]), frames[|frames| - 1].msgid)
  }

  lemma {:induction false} MsgidsDistinct(openMsgid: string, frames: seq<Msg>)
    ensures Distinct(Msgids(openMsgid, frames)) && "" !in Msgids(openMsgid, frames)
    ensures forall f :: f in frames && f.msgid != "" ==> f.msgid in Msgids(openMsgid, frames)
    ensures forall id :: id in Msgids(openMsgid, frames) ==> id == openMsgid || exists f :: f in frames && f.msgid == id
  {
    if frames != [] {
      var before, f := frames[..|frames| - 1], frames[|frames| - 1];
      MsgidsDistinct(openMsgid, before);
      assert frames == before + [f];
      assert f in frames;
      forall id | id in Msgids(openMsgid, frames) && id != openMsgid
        ensures exists g :: g in frames && g.msgid == id
      {
        if id in Msgids(openMsgid, before) {
          var g :| g in before && g.msgid == id;
          assert g in frames;
        }
      }
    }
  }

  ghost function Anchor(openMsgid: string, frames: seq<Msg>): string {
    var ids := Msgids(openMsgid, frames);
    if ids == [] then "" else ids[0]
  }

  ghost function Extras(openMsgid: string, frames: seq<Msg>): seq<string> {
    var ids := Msgids(openMsgid, frames);
    if ids == [] then [] else ids[1..]
  }

  /** The id the batch goes by is the first of its ids. */
  method BatchAnchorMsgid(acc: LineBatch) returns (id: string)
    ensures id == Anchor(acc.openMsgid, acc.frames)
  {
    if acc.openMsgid != "" {
      FirstStays(acc.openMsgid, acc.frames, 0);
      return acc.openMsgid;
    }
    for i := 0 to |acc.frames|
      invariant Msgids("", acc.frames[..i]) == []
    {
      assert acc.frames[..i + 1][..i] == acc.frames[..i];
      if acc.frames[i].msgid != "" {
        FirstStays("", acc.frames, i + 1);
        return acc.frames[i].msgid;
      }
    }
    assert acc.frames[..|acc.frames|] == acc.frames;
    return "";
  }

  lemma {:induction false} FirstStays(openMsgid: string, frames: seq<Msg>, k: nat)
    requires k <= |frames| && Msgids(openMsgid, frames[..k]) != []
    ensures Msgids(openMsgid, frames) != [] && Msgids(openMsgid, frames)[0] == Msgids(openMsgid, frames[..k])[0]
  {
    if k == |frames| {
      assert frames[..k] == frames;
    } else {
      var before := frames[..|frames| - 1];
      assert before[..k] == frames[..k];
      FirstStays(openMsgid, before, k);
    }
  }

  /** The other ids of the batch: each once, in the order found, without the anchor. */
  method BatchExtraMsgids(acc: LineBatch) returns (out: seq<string>)
    ensures out == Extras(acc.openMsgid, acc.frames)
  {
    var seen: set<string> := {};
    out := [];
    if acc.openMsgid != "" {
      seen := seen + {acc.openMsgid};
      out := out + [acc.openMsgid];
    }
    for i := 0 to |acc.frames|
      invariant out == Msgids(acc.openMsgid, acc.frames[..i])
      invariant forall id :: id in seen <==> id in out
    {
      assert acc.frames[..i + 1][..i] == acc.frames[..i];
      var f := acc.frames[i];
      if f.msgid == "" || f.msgid in seen {
        continue;
      }
      seen := seen + {f.msgid};
      out := out + [f.msgid];
    }
    assert acc.frames[..|acc.frames|] == acc.frames;
    if |out| > 0 {
      MsgidsDistinct(acc.openMsgid, acc.frames);
      var anchor := BatchAnchorMsgid(acc);
      var i := |out| - 1;
      while out[i] != anchor
        invariant 0 <= i < |out| && anchor == out[0]
        decreases i
      {
        i := i - 1;
      }
      assert i == 0;
      out := out[..i] + out[i + 1..];
    }
  }

  // ---------- joining ----------

  ghost function FramesOfMsgs(msgs: seq<Msg>): seq<Frame> {
    seq(|msgs|, i requires 0 <= i < |msgs| => Frame(msgs[i].text, msgs[i].concat))
  }

  ghost function Lines(lines: seq<string>): string {
    if lines == [] then ""
    else if |lines| == 1 then lines[0]
    else Lines(lines[..|lines| - 1]) + "\n" + lines[|lines| - 1]
  }

  ghost function Numbers(msgs: seq<Msg>): seq<nat> {
    seq(|msgs|, i requires 0 <= i < |msgs| => msgs[i].n)
  }

  /** A closed multiline batch as the one message it is. */
  ghost function Joined(acc: LineBatch): Entry
    requires acc.frames != []
  {
    Entry(acc.target, acc.frames[0].author, Lines(Join(FramesOfMsgs(acc.frames))),
          Anchor(acc.openMsgid, acc.frames), Extras(acc.openMsgid, acc.frames), Numbers(acc.frames))
  }

  method JoinLines(lines: seq<string>) returns (s: string)
    ensures s == Lines(lines)
  {
    if lines == [] {
      return "";
    }
    s := lines[0];
    for i := 1 to |lines|
      invariant s == Lines(lines[..i])
    {
      assert lines[..i + 1][..i] == lines[..i];
      s := s + "\n" + lines[i];
    }
    assert lines[..|lines|] == lines;
  }

  method JoinBatch(acc: LineBatch) returns (e: Entry)
    requires acc.frames != []
    ensures e == Joined(acc)
  {
    var frames, from := [], [];
    for i := 0 to |acc.frames|
      invariant frames == FramesOfMsgs(acc.frames[..i]) && from == Numbers(acc.frames[..i])
    {
      frames := frames + [Frame(acc.frames[i].text, acc.frames[i].concat)];
      from := from + [acc.frames[i].n];
    }
    assert acc.frames[..|acc.frames|] == acc.frames;
    var lines := AccLines(frames);
    var content := JoinLines(lines);
    var anchor := BatchAnchorMsgid(acc);
    var extras := BatchExtraMsgids(acc);
    e := Entry(acc.target, acc.frames[0].author, content, anchor, extras, from);
  }

  // ---------- BATCH lines ----------

  datatype Control =
    | OpenLine(ref: string, target: string)
    | OpenChat(ref: string, target: string)
    | Close(ref: string)
    | Other

  predicate IsMultilineType(t: string) {
    t == "draft/multiline" || t == "multiline"
  }

  predicate IsChatType(t: string) {
    t == "draft/chathistory" || t == "chathistory"
  }

  predicate IsChatSubcommand(s: string) {
    s in {"LATEST", "BEFORE", "AFTER", "BETWEEN", "AROUND", "TARGETS"}
  }

  predicate HasSign(p: string, sign: char) {
    p != "" && p[0] == sign
  }

  function ChatTarget(params: seq<string>): string {
    if |params| > 3 && IsChatSubcommand(params[2]) then params[3]
    else if |params| > 2 then params[2]
    else ""
  }

  /** What a BATCH line asks for. */
  function Parse(params: seq<string>): Control {
    if params == [] then Other
    else if HasSign(params[0], '+') then
      if |params| < 2 then Other
      else if IsMultilineType(params[1]) then OpenLine(params[0][1..], params[|params| - 1])
      else if IsChatType(params[1]) then OpenChat(params[0][1..], ChatTarget(params))
      else Other
    else if HasSign(params[0], '-') then Close(params[0][1..])
    else Other
  }

  // ---------- the machine ----------

  /** The tables, the page fetch that waits, the rows of own sends not echoed yet by target, and
      what has left so far. */
  datatype State = State(lines: map<string, LineBatch>, chats: map<string, ChatBatch>, stack: seq<string>,
                         waiting: Option<Wait>, pending: map<string, seq<string>>, sinks: seq<Sink>)

  const PENDING_CAP := 64
  const ASK_WINDOW := 10000000000

  /** The rows of own sends to a target that wait for their echo, oldest first. */
  function PendingTo(pending: map<string, seq<string>>, target: string): seq<string> {
    if ToLower(target) in pending then pending[ToLower(target)] else []
  }

  function Pushed(pending: map<string, seq<string>>, target: string, row: string): map<string, seq<string>> {
    var q := PendingTo(pending, target);
    pending[ToLower(target) := (if |q| >= PENDING_CAP then q[1..] else q) + [row]]
  }

  /** The sends to a target without the oldest. */
  function Taken(pending: map<string, seq<string>>, target: string): map<string, seq<string>> {
    var q := PendingTo(pending, target);
    if q == [] then pending
    else if |q| == 1 then pending - {ToLower(target)}
    else pending[ToLower(target) := q[1..]]
  }

  /** An own message back from the network: with an id it belongs to the oldest send. */
  function Echoed(s: State, target: string, e: Entry): (t: State)
    ensures t.lines == s.lines && t.chats == s.chats && t.stack == s.stack && t.waiting == s.waiting
    ensures |t.sinks| == |s.sinks| + 1 && t.sinks[|s.sinks|].Echo? && t.sinks[|s.sinks|].entry == e
    ensures t.sinks == s.sinks + [t.sinks[|s.sinks|]]
  {
    var q := PendingTo(s.pending, target);
    if e.anchor == "" then s.(sinks := s.sinks + [Echo(e, "")])
    else s.(pending := Taken(s.pending, target), sinks := s.sinks + [Echo(e, if q == [] then "" else q[0])])
  }

  /** A page fetch waits unless another one began less than ten seconds ago. */
  function Awaited(s: State, target: string, now: int): State {
    if s.waiting.Some? && now - s.waiting.value.issued < ASK_WINDOW then s else s.(waiting := Some(Wait(target, now)))
  }

  function AppendEntry(s: State, ref: string, e: Entry): State {
    if ref in s.chats then s.(chats := s.chats[ref := s.chats[ref].(frames := s.chats[ref].frames + [e])]) else s
  }

  function Peek(stack: seq<string>): string {
    if stack == [] then "" else stack[|stack| - 1]
  }

  function Popped(stack: seq<string>, ref: string): seq<string> {
    if stack != [] && stack[|stack| - 1] == ref then stack[..|stack| - 1] else stack
  }

  ghost function FlushedLine(s: State, acc: LineBatch): State {
    if acc.frames == [] then s
    else if acc.chatRef != "" then AppendEntry(s, acc.chatRef, Joined(acc))
    else if acc.frames[0].echo then Echoed(s, acc.target, Joined(acc))
    else s.(sinks := s.sinks + [Live(Joined(acc))])
  }

  function ClosedChat(s: State, acc: ChatBatch): State {
    if s.waiting.Some? && acc.target != "" && EqualFold(acc.target, s.waiting.value.target) then
      s.(waiting := None, sinks := s.sinks + [Page(acc)])
    else s.(sinks := s.sinks + [History(acc)])
  }

  ghost function Controlled(s: State, c: Control, msgid: string): State {
    match c
    case OpenLine(ref, target) => s.(lines := s.lines[ref := LineBatch(target, Peek(s.stack), msgid, [])])
    case OpenChat(ref, target) => s.(chats := s.chats[ref := ChatBatch(target, [])], stack := s.stack + [ref])
    case Close(ref) =>
      if ref in s.lines then FlushedLine(s.(lines := s.lines - {ref}), s.lines[ref])
      else if ref in s.chats then ClosedChat(s.(chats := s.chats - {ref}, stack := Popped(s.stack, ref)), s.chats[ref])
      else s
    case Other => s
  }

  function Single(m: Msg): Entry {
    Entry(m.target, m.author, m.text, m.msgid, [], [m.n])
  }

  /** A message: into its batch, or bound as an echo of an own send, or relayed. */
  function Received(s: State, tag: string, m: Msg): State {
    if tag != "" && tag in s.lines then
      s.(lines := s.lines[tag := s.lines[tag].(frames := s.lines[tag].frames + [m])])
    else if tag != "" && tag in s.chats then AppendEntry(s, tag, Single(m))
    else if m.echo then Echoed(s, m.target, Single(m))
    else s.(sinks := s.sinks + [Live(Single(m))])
  }

  class Conn {
    var lineBatches: map<string, LineBatch>
    var chatBatches: map<string, ChatBatch>
    var chatStack: seq<string>
    var page: Option<Wait>
    var pendingSend: map<string, seq<string>>
    var sinks: seq<Sink>

    ghost function Now(): State
      reads this
    {
      State(lineBatches, chatBatches, chatStack, page, pendingSend, sinks)
    }

    constructor ()
      ensures Now() == State(map[], map[], [], None, map[], [])
    {
      lineBatches, chatBatches, chatStack, page, pendingSend, sinks := map[], map[], [], None, map[], [];
    }

    /** An own send is remembered until its echo; of too many to one target the oldest is forgotten. */
    method PushPendingSend(target: string, row: string)
      modifies this`pendingSend
      ensures Now() == old(Now()).(pending := Pushed(old(pendingSend), target, row))
    {
      var k := ToLower(target);
      var q := if k in pendingSend then pendingSend[k] else [];
      if |q| >= PENDING_CAP {
        q := q[1..];
      }
      pendingSend := pendingSend[k := q + [row]];
    }

    method PopPendingSend(target: string) returns (row: string)
      modifies this`pendingSend
      ensures pendingSend == Taken(old(pendingSend), target)
      ensures var q := PendingTo(old(pendingSend), target); row == if q == [] then "" else q[0]
    {
      var k := ToLower(target);
      var q := if k in pendingSend then pendingSend[k] else [];
      if |q| == 0 {
        return "";
      }
      row := q[0];
      q := q[1..];
      if |q| == 0 {
        pendingSend := pendingSend - {k};
      } else {
        pendingSend := pendingSend[k := q];
      }
    }

    /** Binds an echo, if it has an id, to the send it belongs to. */
    method BindEcho(target: string, e: Entry)
      modifies this`pendingSend, this`sinks
      ensures Now() == Echoed(old(Now()), target, e)
    {
      var row := "";
      if e.anchor != "" {
        row := PopPendingSend(target);
      }
      sinks := sinks + [Echo(e, row)];
    }

    method AppendChatFrame(ref: string, e: Entry)
      modifies this`chatBatches
      ensures Now() == AppendEntry(old(Now()), ref, e)
    {
      if ref in chatBatches {
        chatBatches := chatBatches[ref := chatBatches[ref].(frames := chatBatches[ref].frames + [e])];
      }
    }

    method PopChatStack(ref: string)
      modifies this`chatStack
      ensures chatStack == Popped(old(chatStack), ref)
    {
      var n := |chatStack|;
      if n > 0 && chatStack[n - 1] == ref {
        chatStack := chatStack[..n - 1];
      }
    }

    /** Resolves a closed multiline batch: into its history batch, as an own echo, or as one
        relayed message. */
    method FlushLineBatch(acc: LineBatch)
      modifies this`chatBatches, this`pendingSend, this`sinks
      ensures Now() == FlushedLine(old(Now()), acc)
    {
      hide Joined, Echoed;
      if |acc.frames| == 0 {
        return;
      }
      var e := JoinBatch(acc);
      if acc.chatRef != "" {
        AppendChatFrame(acc.chatRef, e);
        return;
      }
      if acc.frames[0].echo {
        BindEcho(acc.target, e);
        return;
      }
      sinks := sinks + [Live(e)];
    }

    /** The multiline half of a BATCH line; says whether the line was its own. */
    method MultilineBatchControl(params: seq<string>, msgid: string) returns (consumed: bool)
      modifies this
      ensures consumed <==> var c := Parse(params); c.OpenLine? || (c.Close? && c.ref in old(lineBatches))
      ensures Now() == if consumed then Controlled(old(Now()), Parse(params), msgid) else old(Now())
    {
      hide FlushedLine;
      if |params| < 1 {
        return false;
      }
      var ref := params[0];
      if HasSign(ref, '+') {
        if |params| < 2 || !IsMultilineType(params[1]) {
          return false;
        }
        var acc := LineBatch(params[|params| - 1], "", msgid, []);
        if |chatStack| > 0 {
          acc := acc.(chatRef := chatStack[|chatStack| - 1]);
        }
        lineBatches := lineBatches[ref[1..] := acc];
        return true;
      } else if HasSign(ref, '-') {
        if ref[1..] !in lineBatches {
          return false;
        }
        var acc := lineBatches[ref[1..]];
        lineBatches := lineBatches - {ref[1..]};
        FlushLineBatch(acc);
        return true;
      }
      return false;
    }

    /** The chathistory half of a BATCH line. */
    method ChatBatchControl(params: seq<string>)
      requires var c := Parse(params); !(c.OpenLine? || (c.Close? && c.ref in lineBatches))
      modifies this
      ensures Now() == Controlled(old(Now()), Parse(params), "")
    {
      if |params| < 1 {
        return;
      }
      var ref := params[0];
      if HasSign(ref, '+') {
        if |params| < 2 || !IsChatType(params[1]) {
          return;
        }
        chatBatches := chatBatches[ref[1..] := ChatBatch(ChatTarget(params), [])];
        chatStack := chatStack + [ref[1..]];
      } else if HasSign(ref, '-') {
        if ref[1..] in chatBatches {
          var acc := chatBatches[ref[1..]];
          chatBatches := chatBatches - {ref[1..]};
          PopChatStack(ref[1..]);
          if page.Some? && acc.target != "" && EqualFold(acc.target, page.value.target) {
            page := None;
            sinks := sinks + [Page(acc)];
            return;
          }
          sinks := sinks + [History(acc)];
        }
      }
    }

    method OnBatch(params: seq<string>, msgid: string)
      modifies this
      ensures Now() == Controlled(old(Now()), Parse(params), msgid)
    {
      hide FlushedLine, Parse;
      var consumed := MultilineBatchControl(params, msgid);
      if !consumed {
        ChatBatchControl(params);
      }
    }

    /** A PRIVMSG or NOTICE through both of its handlers: the one that sees every event owns
        batched frames and echoes, the other relays what is neither. */
    method OnMessage(tag: string, m: Msg)
      modifies this
      ensures Now() == Received(old(Now()), tag, m)
    {
      if tag != "" && tag in lineBatches {
        lineBatches := lineBatches[tag := lineBatches[tag].(frames := lineBatches[tag].frames + [m])];
      } else if tag != "" && tag in chatBatches {
        AppendChatFrame(tag, Single(m));
      } else if m.echo {
        BindEcho(m.target, Single(m));
      }
      if m.echo || (tag != "" && tag in chatBatches) || (tag != "" && tag in lineBatches) {
        return;
      }
      sinks := sinks + [Live(Single(m))];
    }

    /** A page fetch starts to wait for its target's batch; one at a time, unless the last is stale. */
    method AwaitPage(target: string, now: int) returns (goesAhead: bool)
      modifies this`page
      ensures Now() == Awaited(old(Now()), target, now)
      ensures goesAhead ==> Now().waiting == Some(Wait(target, now))
      ensures !goesAhead ==> Now() == old(Now()) && page.Some? && now - page.value.issued < ASK_WINDOW
    {
      if page.Some? && now - page.value.issued < ASK_WINDOW {
        return false;
      }
      page := Some(Wait(target, now));
      return true;
    }
  }
}
