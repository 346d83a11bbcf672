/** What BATCH lines ask for, in which order ids are found, and how lines are told apart. */
module BatchForms {
  import opened Basics
  import opened Batches

  /** The lines that open and close batches, by what they carry, and those that do neither. */
  lemma ControlForms(ref: string, target: string, more: seq<string>)
    ensures Parse(["+" + ref, "draft/multiline", target]) == OpenLine(ref, target)
    ensures Parse(["+" + ref, "multiline", "x", target]) == OpenLine(ref, target)
    ensures Parse(["+" + ref, "draft/chathistory", target]) == OpenChat(ref, target)
    ensures Parse(["+" + ref, "chathistory", target]) == OpenChat(ref, target)
    ensures forall c :: c in ["LATEST", "BEFORE", "AFTER", "BETWEEN", "AROUND", "TARGETS"] ==>
              Parse(["+" + ref, "chathistory", c, target] + more) == OpenChat(ref, target)
    ensures Parse(["+" + ref, "chathistory"]) == OpenChat(ref, "")
    ensures Parse(["-" + ref] + more) == Close(ref)
    ensures Parse([]) == Other && Parse(["+" + ref]) == Other && Parse(["+" + ref, "netsplit"] + more) == Other
    ensures ref == "" || (ref[0] != '+' && ref[0] != '-') ==> Parse([ref] + more) == Other
  {
    assert ("+" + ref)[1..] == ref && ("-" + ref)[1..] == ref;
  }

  // ---------- message ids ----------

  /** Where the batch first has an id: in its opening line, place 0, or in frame `i`, place `i + 1`. */
  ghost predicate FirstAt(openMsgid: string, frames: seq<Msg>, id: string, i: nat) {
    && i <= |frames|
    && (if i == 0 then openMsgid == id else frames[i - 1].msgid == id)
    && (i > 0 ==> openMsgid != id) && forall j :: 0 <= j < i - 1 ==> frames[j].msgid != id
  }

  ghost predicate FoundInOrder(ids: seq<string>, openMsgid: string, frames: seq<Msg>) {
    forall a, b, i: nat, j: nat ::
      0 <= a < b < |ids| && FirstAt(openMsgid, frames, ids[a], i) && FirstAt(openMsgid, frames, ids[b], j) ==> i < j
  }

  lemma FirstStaysFirst(openMsgid: string, frames: seq<Msg>, id: string, i: nat)
    requires frames != [] && FirstAt(openMsgid, frames, id, i) && i < |frames|
    ensures FirstAt(openMsgid, frames[..|frames| - 1], id, i)
  {
  }

  /** The ids of a batch are listed in the order they are first found, the opening line's first. */
  lemma {:induction false} IdsInOrder(openMsgid: string, frames: seq<Msg>)
    ensures FoundInOrder(Msgids(openMsgid, frames), openMsgid, frames)
  {
    var ids := Msgids(openMsgid, frames);
    if frames != [] {
      var n := |frames| - 1;
      var before, had := frames[..n], Msgids(openMsgid, frames[..n]);
      IdsInOrder(openMsgid, before);
      MsgidsDistinct(openMsgid, before);
      forall a, b, i: nat, j: nat | 0 <= a < b < |ids| &&
          FirstAt(openMsgid, frames, ids[a], i) && FirstAt(openMsgid, frames, ids[b], j)
        ensures i < j
      {
        assert ids[a] == had[a] && had[a] in had;
        HadEarlier(openMsgid, frames, ids[a], i);
        FirstStaysFirst(openMsgid, frames, ids[a], i);
        if b < |had| {
          assert had[b] in had;
          HadEarlier(openMsgid, frames, ids[b], j);
          FirstStaysFirst(openMsgid, frames, ids[b], j);
        } else {
          NewIsLast(openMsgid, frames, ids[b], j);
        }
      }
    }
  }

  /** An id among those before the last frame is first found before it. */
  lemma HadEarlier(openMsgid: string, frames: seq<Msg>, id: string, i: nat)
    requires frames != [] && id in Msgids(openMsgid, frames[..|frames| - 1]) && FirstAt(openMsgid, frames, id, i)
    ensures i < |frames|
  {
    var before := frames[..|frames| - 1];
    MsgidsDistinct(openMsgid, before);
    if id != openMsgid {
      var f :| f in before && f.msgid == id;
      var k :| 0 <= k < |before| && before[k] == f;
      assert frames[k].msgid == id;
    }
  }

  lemma FoundIsHad(openMsgid: string, frames: seq<Msg>, id: string, j: nat)
    requires id != "" && FirstAt(openMsgid, frames, id, j)
    ensures id in Msgids(openMsgid, frames)
  {
    MsgidsDistinct(openMsgid, frames);
    if j == 0 {
      OpenIsHad(openMsgid, frames);
    } else {
      assert frames[j - 1] in frames;
    }
  }

  /** An id that the last frame brings in is first found there. */
  lemma NewIsLast(openMsgid: string, frames: seq<Msg>, id: string, j: nat)
    requires frames != [] && id !in Msgids(openMsgid, frames[..|frames| - 1]) && id != ""
    requires FirstAt(openMsgid, frames, id, j)
    ensures j == |frames|
  {
    if j < |frames| {
      FirstStaysFirst(openMsgid, frames, id, j);
      FoundIsHad(openMsgid, frames[..|frames| - 1], id, j);
    }
  }

  lemma {:induction false} OpenIsHad(openMsgid: string, frames: seq<Msg>)
    ensures openMsgid != "" ==> openMsgid in Msgids(openMsgid, frames)
  {
    if frames != [] {
      OpenIsHad(openMsgid, frames[..|frames| - 1]);
    }
  }

  /** The anchor and the further ids are all of them. */
  lemma AnchorAndRest(openMsgid: string, frames: seq<Msg>)
    ensures var ids := Msgids(openMsgid, frames);
            if ids == [] then Anchor(openMsgid, frames) == "" && Extras(openMsgid, frames) == []
            else [Anchor(openMsgid, frames)] + Extras(openMsgid, frames) == ids
  {
  }

  // ---------- lines ----------

  /** The lines of a text. */
  ghost function SplitLines(s: string): (lines: seq<string>)
    ensures lines != []
  {
    if s == "" then [""]
    else
      var before, c := SplitLines(s[..|s| - 1]), s[|s| - 1];
      if c == '\n' then before + [""] else before[..|before| - 1] + [before[|before| - 1] + [c]]
  }

  lemma {:induction false} SplitMore(s: string, line: string)
    requires '\n' !in line
    ensures SplitLines(s + "\n" + line) == SplitLines(s) + [line]
  {
    var n := |line| - 1;
    if line == "" {
      assert (s + "\n" + line)[..|s|] == s;
    } else {
      assert line == line[..n] + [line[n]];
      assert (s + "\n" + line)[..|s| + 1 + n] == s + "\n" + line[..n];
      SplitMore(s, line[..n]);
      var before := SplitLines(s) + [line[..n]];
      assert before[..|before| - 1] == SplitLines(s);
    }
  }

  lemma {:induction false} OneLineSplit(line: string)
    requires '\n' !in line
    ensures SplitLines(line) == [line]
  {
    if line != "" {
      var n := |line| - 1;
      assert line == line[..n] + [line[n]];
      OneLineSplit(line[..n]);
    }
  }

  /** The text of a joined message has its lines one below the other. */
  lemma {:induction false} LinesReadBack(lines: seq<string>)
    requires lines != [] && forall ln :: ln in lines ==> '\n' !in ln
    ensures SplitLines(Lines(lines)) == lines
  {
    var n := |lines| - 1;
    assert lines[n] in lines;
    if n == 0 {
      OneLineSplit(lines[0]);
    } else {
      assert forall ln :: ln in lines[..n] ==> ln in lines;
      LinesReadBack(lines[..n]);
      SplitMore(Lines(lines[..n]), lines[n]);
      assert lines == lines[..n] + [lines[n]];
    }
  }

  // ---------- where a message goes ----------

  /** A message goes to the open multiline batch of its tag, else to the open history batch of its
      tag, there at the end; else it leaves. */
  lemma MessageGoes(s: State, tag: string, m: Msg)
    ensures var t := Received(s, tag, m);
            if tag != "" && tag in s.lines then
              && tag in t.lines && t.lines[tag] == s.lines[tag].(frames := s.lines[tag].frames + [m])
              && t == s.(lines := t.lines) && t.lines == s.lines[tag := t.lines[tag]]
            else if tag != "" && tag in s.chats then
              && tag in t.chats && t.chats[tag].target == s.chats[tag].target
              && t.chats[tag].frames == s.chats[tag].frames + [Entry(m.target, m.author, m.text, m.msgid, [], [m.n])]
              && t == s.(chats := t.chats) && t.chats == s.chats[tag := t.chats[tag]]
            else
              && t == s.(sinks := t.sinks, pending := t.pending)
              && |t.sinks| == |s.sinks| + 1 && t.sinks[..|s.sinks|] == s.sinks
              && (t.sinks[|s.sinks|].Live? || t.sinks[|s.sinks|].Echo?)
              && t.sinks[|s.sinks|].entry == Entry(m.target, m.author, m.text, m.msgid, [], [m.n])
  {
    hide PendingTo, Taken;
  }

  /** A page fetch waits unless another began less than ten seconds ago, in nanoseconds. */
  lemma AsksAgain(s: State, target: string, other: string, since: int, now: int)
    requires s.waiting == None
    ensures var t := Awaited(Awaited(s, target, since), other, now);
            t.waiting == Some(if now < since + 10000000000 then Wait(target, since) else Wait(other, now))
  {
  }
}
