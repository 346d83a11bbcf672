/** Outgoing draft/multiline messages: logical lines are split into frames, frames are
    packed into batches, and the receiver glues the frames back into lines. A `char` here
    is one byte of the message. */
module Multiline {

  /** The longest frame the planner makes. */
  const FRAME_BUDGET: nat := 350

  /** One PRIVMSG of a batch; a `concat` frame continues the frame before it. */
  datatype Frame = Frame(text: string, concat: bool)

  // ---------- joining ----------

  ghost function AddFrame(lines: seq<string>, f: Frame): seq<string> {
    if f.concat && lines != [] then lines[..|lines| - 1] + [lines[|lines| - 1] + f.text]
    else lines + [f.text]
  }

  /** The lines a list of frames stands for. */
  ghost function Join(frames: seq<Frame>): seq<string> {
    if frames == [] then [] else AddFrame(Join(frames[..|frames| - 1]), frames[|frames| - 1])
  }

  lemma JoinSnoc(frames: seq<Frame>, f: Frame)
    ensures Join(frames + [f]) == AddFrame(Join(frames), f)
  {
    assert (frames + [f])[..|frames|] == frames;
  }

  lemma {:induction false} JoinNonEmpty(frames: seq<Frame>)
    ensures Join(frames) == [] <==> frames == []
  {
    if frames != [] {
      JoinNonEmpty(frames[..|frames| - 1]);
    }
  }

  method AccLines(frames: seq<Frame>) returns (out: seq<string>)
    ensures out == Join(frames)
  {
    hide Join;
    out := [];
    JoinNonEmpty(frames[..0]);
    for i := 0 to |frames|
      invariant out == Join(frames[..i])
    {
      assert frames[..i + 1] == frames[..i] + [frames[i]];
      JoinSnoc(frames[..i], frames[i]);
      var f := frames[i];
      if f.concat && |out| > 0 {
        ghost var was := out;
        out := out[|out| - 1 := out[|out| - 1] + f.text];
        assert out == AddFrame(was, f);
        continue;
      }
      out := out + [f.text];
    }
    assert frames[..|frames|] == frames;
  }

  lemma AddFrameRight(x: seq<string>, y: seq<string>, f: Frame)
    requires y != []
    ensures AddFrame(x + y, f) == x + AddFrame(y, f)
  {
    assert (x + y)[..|x + y| - 1] == x + y[..|y| - 1];
  }

  /** Joining two stretches together and apart: the same unless the second continues the first. */
  lemma {:induction false} JoinConcat(a: seq<Frame>, b: seq<Frame>)
    requires b != []
    ensures a == [] || !b[0].concat ==> Join(a + b) == Join(a) + Join(b)
    ensures a != [] && b[0].concat ==> |Join(a + b)| == |Join(a)| + |Join(b)| - 1
  {
    hide Join;
    var n := |b| - 1;
    var last := b[n];
    assert a + b == (a + b[..n]) + [last] && b == b[..n] + [last];
    JoinSnoc(a + b[..n], last);
    JoinSnoc(b[..n], last);
    JoinNonEmpty(a);
    JoinNonEmpty(b[..n]);
    if n == 0 {
      assert a + b[..n] == a;
    } else {
      JoinConcat(a, b[..n]);
      AddFrameRight(Join(a), Join(b[..n]), last);
    }
  }

  // ---------- splitting ----------

  function LastSpace(s: string): (i: int)
    ensures -1 <= i < |s|
    ensures i >= 0 ==> s[i] == ' '
    ensures forall j :: i < j < |s| ==> s[j] != ' '
  {
    if s == [] then -1
    else if s[|s| - 1] == ' ' then |s| - 1
    else LastSpace(s[..|s| - 1])
  }

  /** How much of the rest of a long line goes into the next frame. */
  function ChunkLen(rest: string): (n: nat)
    requires rest != []
    ensures 0 < n <= |rest| && n <= FRAME_BUDGET
    ensures |rest| <= FRAME_BUDGET ==> n == |rest|
    ensures n < |rest| && n < FRAME_BUDGET ==> n > 1 && rest[n - 1] == ' '
    ensures |rest| > FRAME_BUDGET ==> forall m :: n <= m < FRAME_BUDGET ==> rest[m] != ' '
  {
    if |rest| <= FRAME_BUDGET then |rest|
    else
      var sp := LastSpace(rest[..FRAME_BUDGET]);
      if sp > 0 then sp + 1 else FRAME_BUDGET
  }

  function Chunks(rest: string, first: bool): seq<Frame>
    decreases |rest|
  {
    if rest == [] then []
    else [Frame(rest[..ChunkLen(rest)], !first)] + Chunks(rest[ChunkLen(rest)..], false)
  }

  lemma ChunksStep(rest: string, first: bool)
    ensures rest == [] ==> Chunks(rest, first) == []
    ensures rest != [] ==>
              Chunks(rest, first) == [Frame(rest[..ChunkLen(rest)], !first)] + Chunks(rest[ChunkLen(rest)..], false)
  {
  }

  /** The frames of one logical line: one if it fits, else word-split continuation frames. */
  function LineFrames(ln: string): seq<Frame> {
    if |ln| <= FRAME_BUDGET then [Frame(ln, false)] else Chunks(ln, true)
  }

  function FramesOf(lines: seq<string>): seq<Frame> {
    if lines == [] then [] else FramesOf(lines[..|lines| - 1]) + LineFrames(lines[|lines| - 1])
  }

  lemma {:induction false} ChunksGlue(before: seq<Frame>, rest: string, lines: seq<string>, line: string)
    requires Join(before) == lines + [line]
    ensures Join(before + Chunks(rest, false)) == lines + [line + rest]
    decreases |rest|
  {
    hide Join, Chunks;
    ChunksStep(rest, false);
    if rest == [] {
      assert before + Chunks(rest, false) == before;
      assert line + rest == line;
    } else {
      var n := ChunkLen(rest);
      var f := Frame(rest[..n], true);
      JoinSnoc(before, f);
      assert AddFrame(lines + [line], f) == lines + [line + rest[..n]];
      ChunksGlue(before + [f], rest[n..], lines, line + rest[..n]);
      assert before + Chunks(rest, false) == (before + [f]) + Chunks(rest[n..], false);
      assert (line + rest[..n]) + rest[n..] == line + rest;
    }
  }

  /** The frames of a line, put after any others, add exactly that line. */
  lemma LineFramesJoin(before: seq<Frame>, ln: string)
    ensures Join(before + LineFrames(ln)) == Join(before) + [ln]
  {
    hide Join, Chunks;
    ChunksStep(ln, true);
    if |ln| <= FRAME_BUDGET {
      JoinSnoc(before, Frame(ln, false));
    } else {
      var n := ChunkLen(ln);
      var f := Frame(ln[..n], false);
      JoinSnoc(before, f);
      ChunksGlue(before + [f], ln[n..], Join(before), ln[..n]);
      assert before + LineFrames(ln) == (before + [f]) + Chunks(ln[n..], false);
      assert ln[..n] + ln[n..] == ln;
    }
  }

  /** Joining undoes splitting, for lines of any length, empty ones included. */
  lemma {:induction false} JoinUndoesSplit(lines: seq<string>)
    ensures Join(FramesOf(lines)) == lines
  {
    hide Join, LineFrames;
    JoinNonEmpty([]);
    if lines != [] {
      assert FramesOf(lines) == FramesOf(lines[..|lines| - 1]) + LineFrames(lines[|lines| - 1]);
      JoinUndoesSplit(lines[..|lines| - 1]);
      LineFramesJoin(FramesOf(lines[..|lines| - 1]), lines[|lines| - 1]);
    }
  }

  ghost predicate FitsBudget(frames: seq<Frame>) {
    forall f :: f in frames ==> |f.text| <= FRAME_BUDGET
  }

  lemma {:induction false} ChunksFit(rest: string, first: bool)
    ensures FitsBudget(Chunks(rest, first))
    decreases |rest|
  {
    if rest != [] {
      ChunksFit(rest[ChunkLen(rest)..], false);
    }
  }

  lemma {:induction false} FramesFit(lines: seq<string>)
    ensures FitsBudget(FramesOf(lines))
    ensures lines != [] ==> FramesOf(lines) != [] && !FramesOf(lines)[0].concat
  {
    if lines != [] {
      var ln := lines[|lines| - 1];
      FramesFit(lines[..|lines| - 1]);
      ChunksFit(ln, true);
    }
  }

  // ---------- packing ----------

  type Batch = seq<Frame>

  ghost function Flatten(batches: seq<Batch>): seq<Frame> {
    if batches == [] then [] else batches[0] + Flatten(batches[1..])
  }

  ghost function TextBytes(b: Batch): nat {
    if b == [] then 0 else TextBytes(b[..|b| - 1]) + |b[|b| - 1].text|
  }

  /** A batch's content size, its frames joined by one byte each. */
  ghost function Size(b: Batch): int {
    TextBytes(b) + |b| - 1
  }

  /** A batch within the negotiated limits; a frame alone may exceed the byte limit. */
  ghost predicate Allowed(b: Batch, maxLines: int, maxBytes: int) {
    1 <= |b| <= maxLines && (|b| == 1 || Size(b) <= maxBytes)
  }

  ghost predicate AllAllowed(batches: seq<Batch>, maxLines: int, maxBytes: int) {
    forall b :: b in batches ==> Allowed(b, maxLines, maxBytes)
  }

  /** No batch had room for the first frame of the next one. */
  ghost predicate Greedy(batches: seq<Batch>, maxLines: int, maxBytes: int) {
    && (forall i :: 0 <= i < |batches| ==> batches[i] != [])
    && (forall i :: 0 < i < |batches| ==> !Allowed(batches[i - 1] + [batches[i][0]], maxLines, maxBytes))
  }

  lemma {:induction false} FlattenConcat(a: seq<Batch>, b: seq<Batch>)
    ensures Flatten(a + b) == Flatten(a) + Flatten(b)
  {
    if a == [] {
      assert a + b == b;
    } else {
      assert (a + b)[1..] == a[1..] + b;
      FlattenConcat(a[1..], b);
    }
  }

  lemma FlattenHead(a: seq<Batch>)
    ensures Flatten(a) == if a == [] then [] else a[0] + Flatten(a[1..])
  {
  }

  lemma TextBytesSnoc(b: Batch, f: Frame)
    ensures TextBytes(b + [f]) == TextBytes(b) + |f.text|
  {
    assert (b + [f])[..|b|] == b;
  }

  lemma {:induction false} TextBytesConcat(a: Batch, b: Batch)
    ensures TextBytes(a + b) == TextBytes(a) + TextBytes(b)
  {
    if b == [] {
      assert a + b == a;
    } else {
      var n := |b| - 1;
      assert a + b == (a + b[..n]) + [b[n]];
      TextBytesSnoc(a + b[..n], b[n]);
      TextBytesConcat(a, b[..n]);
    }
  }

  /** Any stretch of an allowed batch is allowed. */
  lemma StretchAllowed(pre: Batch, b: Batch, post: Batch, maxLines: int, maxBytes: int)
    requires b != [] && Allowed(pre + b + post, maxLines, maxBytes)
    ensures Allowed(b, maxLines, maxBytes)
  {
    TextBytesConcat(pre + b, post);
    TextBytesConcat(pre, b);
  }

  /** What is left of a list behind a piece of it. */
  lemma RestIs(b: seq<Frame>, rest: seq<Frame>, x: seq<Frame>, y: seq<Frame>)
    requires b + rest == x + y
    ensures |b| <= |x| ==> rest == x[|b|..] + y
    ensures |x| <= |b| ==> rest == y[|b| - |x|..] && b[|x|..] + rest == y
  {
    assert rest == (b + rest)[|b|..];
    assert |x| <= |b| ==> b[|x|..] + rest == (b + rest)[|x|..];
  }

  lemma AllowedTail(q: seq<Batch>, maxLines: int, maxBytes: int)
    requires AllAllowed(q, maxLines, maxBytes) && q != []
    ensures Allowed(q[0], maxLines, maxBytes) && AllAllowed(q[1..], maxLines, maxBytes)
  {
    assert q[0] in q;
  }

  /** Greedy batches stay ahead: cutting a list of which they cover only the end never takes
      fewer batches. */
  lemma {:induction false} GreedyStaysAhead(p: seq<Batch>, q: seq<Batch>, ahead: seq<Frame>, maxLines: int,
      maxBytes: int)
    requires Greedy(p, maxLines, maxBytes)
    requires AllAllowed(q, maxLines, maxBytes)
    requires Flatten(q) == ahead + Flatten(p)
    ensures |p| <= |q|
    decreases |q|
  {
    hide Flatten, Allowed, AllAllowed, Greedy;
    FlattenHead(p);
    FlattenHead(q);
    if p != [] {
      GreedyTail(p, maxLines, maxBytes);
      var b, rest, first, later := q[0], Flatten(q[1..]), p[0], Flatten(p[1..]);
      AllowedTail(q, maxLines, maxBytes);
      RestIs(b, rest, ahead, Flatten(p));
      if |b| <= |ahead| {
        GreedyStaysAhead(p, q[1..], ahead[|b|..], maxLines, maxBytes);
      } else {
        RestIs(b[|ahead|..], rest, first, later);
        if |b| <= |ahead| + |first| {
          GreedyStaysAhead(p[1..], q[1..], first[|b| - |ahead|..], maxLines, maxBytes);
        } else if |p| > 1 {
          NotBoth(p, b, rest, ahead, maxLines, maxBytes);
          assert false;
        }
      }
    }
  }

  /** A batch that reaches past the first greedy one would have let it grow. */
  lemma NotBoth(p: seq<Batch>, b: Batch, rest: seq<Frame>, ahead: seq<Frame>, maxLines: int, maxBytes: int)
    requires Greedy(p, maxLines, maxBytes) && |p| > 1
    requires b + rest == ahead + Flatten(p) && |b| > |ahead| + |p[0]|
    ensures !Allowed(b, maxLines, maxBytes)
  {
    hide Flatten;
    TwoBatches(p);
    assert !Allowed(p[1 - 1] + [p[1][0]], maxLines, maxBytes);
    hide Allowed;
    var more, n := p[0] + [p[1][0]], |ahead| + |p[0]| + 1;
    assert b[..n] == (b + rest)[..n] == (ahead + Flatten(p))[..n] == ahead + Flatten(p)[..|more|];
    assert b == ahead + more + b[n..];
    if Allowed(b, maxLines, maxBytes) {
      StretchAllowed(ahead, more, b[n..], maxLines, maxBytes);
    }
  }

  lemma TwoBatches(p: seq<Batch>)
    requires |p| > 1 && p[1] != []
    ensures |Flatten(p)| > |p[0]| && Flatten(p)[..|p[0]| + 1] == p[0] + [p[1][0]]
  {
    hide Flatten;
    FlattenHead(p);
    FlattenHead(p[1..]);
    assert Flatten(p)[|p[0]|] == p[1][0];
  }

  lemma GreedyTail(p: seq<Batch>, maxLines: int, maxBytes: int)
    requires Greedy(p, maxLines, maxBytes) && p != []
    ensures p[0] != [] && Greedy(p[1..], maxLines, maxBytes)
  {
    forall i | 0 < i < |p[1..]|
      ensures !Allowed(p[1..][i - 1] + [p[1..][i][0]], maxLines, maxBytes)
    {
      assert !Allowed(p[i + 1 - 1] + [p[i + 1][0]], maxLines, maxBytes);
    }
  }

  /** No order-preserving cut of the same frames into allowed batches has fewer of them. */
  lemma GreedyIsOptimal(p: seq<Batch>, q: seq<Batch>, maxLines: int, maxBytes: int)
    requires Greedy(p, maxLines, maxBytes)
    requires AllAllowed(q, maxLines, maxBytes) && Flatten(q) == Flatten(p)
    ensures |p| <= |q|
  {
    assert Flatten(q) == [] + Flatten(p);
    GreedyStaysAhead(p, q, [], maxLines, maxBytes);
  }

  function LineLimit(maxLines: int): int {
    if maxLines < 1 then 1 else maxLines
  }

  function ByteLimit(maxBytes: int): int {
    if maxBytes < 1 then FRAME_BUDGET else maxBytes
  }

  method SplitLine(ln: string) returns (frames: seq<Frame>)
    ensures frames == LineFrames(ln)
  {
    hide Chunks, LastSpace;
    if |ln| <= FRAME_BUDGET {
      return [Frame(ln, false)];
    }
    frames := [];
    var rest, first := ln, true;
    while |rest| > 0
      invariant frames + Chunks(rest, first) == Chunks(ln, true)
      decreases |rest|
    {
      var cut := if FRAME_BUDGET > |rest| then |rest| else FRAME_BUDGET;
      var chunk := rest[..cut];
      if cut < |rest| {
        var sp := LastSpace(chunk);
        if sp > 0 {
          chunk := chunk[..sp + 1];
        }
      }
      assert chunk == rest[..ChunkLen(rest)];
      ChunksStep(rest, first);
      frames := frames + [Frame(chunk, !first)];
      first := false;
      rest := rest[|chunk|..];
    }
    ChunksStep(rest, first);
  }

  ghost function WithCurrent(out: seq<Batch>, cur: Batch): seq<Batch> {
    if cur == [] then out else out + [cur]
  }

  /** The batches made so far and the one being filled hold the first frames, greedily cut. */
  ghost predicate Packed(out: seq<Batch>, cur: Batch, frames: seq<Frame>, maxLines: int, maxBytes: int) {
    && Flatten(WithCurrent(out, cur)) == frames
    && AllAllowed(WithCurrent(out, cur), maxLines, maxBytes)
    && Greedy(WithCurrent(out, cur), maxLines, maxBytes)
    && (out != [] ==> cur != [])
  }

  lemma PackedNothing(frames: seq<Frame>, maxLines: int, maxBytes: int)
    ensures Packed([], [], frames[..0], maxLines, maxBytes)
    ensures TextBytes([]) == 0
  {
  }

  lemma PackedRoom(out: seq<Batch>, cur: Batch, maxLines: int, maxBytes: int, frames: seq<Frame>)
    requires Packed(out, cur, frames, maxLines, maxBytes)
    ensures |cur| <= maxLines || cur == []
  {
    assert cur != [] ==> cur in out + [cur];
  }

  lemma FlattenSnoc(out: seq<Batch>, b: Batch)
    ensures Flatten(out + [b]) == Flatten(out) + b
  {
    FlattenConcat(out, [b]);
    assert Flatten([b]) == b + [] == b;
  }

  lemma SingleAllowed(f: Frame, maxLines: int, maxBytes: int)
    requires maxLines >= 1
    ensures Allowed([f], maxLines, maxBytes)
  {
  }

  /** The next frame joins the batch being filled. */
  lemma PackedSame(out: seq<Batch>, cur: Batch, frames: seq<Frame>, i: nat, maxLines: int, maxBytes: int)
    requires i < |frames| && Packed(out, cur, frames[..i], maxLines, maxBytes)
    requires Allowed(cur + [frames[i]], maxLines, maxBytes)
    ensures Packed(out, cur + [frames[i]], frames[..i + 1], maxLines, maxBytes)
  {
    hide Flatten, Allowed;
    var f := frames[i];
    FlattenSnoc(out, cur);
    FlattenSnoc(out, cur + [f]);
    assert frames[..i + 1] == frames[..i] + [f];
    assert Flatten(out) + (cur + [f]) == (Flatten(out) + cur) + [f];
    if cur == [] {
      assert cur + [f] == [f] && out + [cur + [f]] == [[f]];
    } else {
      var now, next := out + [cur], out + [cur + [f]];
      assert forall j :: 0 <= j < |now| ==> now[j] != [];
      assert (cur + [f])[0] == cur[0] && now[|out|] == cur && next[|out|] == cur + [f];
      assert forall j :: 0 <= j < |out| ==> next[j] == now[j];
      assert forall j :: 0 <= j < |next| ==> next[j] != [] && next[j][0] == now[j][0];
      forall j | 0 < j < |next|
        ensures !Allowed(next[j - 1] + [next[j][0]], maxLines, maxBytes)
      {
        assert next[j - 1] == now[j - 1];
        assert !Allowed(now[j - 1] + [now[j][0]], maxLines, maxBytes);
      }
      assert forall b :: b in out ==> b in now;
    }
  }

  /** The batch being filled has no room for the next frame, which starts another. */
  lemma PackedNext(out: seq<Batch>, cur: Batch, frames: seq<Frame>, i: nat, maxLines: int, maxBytes: int)
    requires i < |frames| && Packed(out, cur, frames[..i], maxLines, maxBytes)
    requires maxLines >= 1 && cur != [] && !Allowed(cur + [frames[i]], maxLines, maxBytes)
    ensures Packed(out + [cur], [] + [frames[i]], frames[..i + 1], maxLines, maxBytes)
  {
    hide Flatten, Allowed;
    SingleAllowed(frames[i], maxLines, maxBytes);
    var f, now := frames[i], out + [cur];
    var next := now + [[f]];
    FlattenSnoc(now, [f]);
    assert [] + [f] == [f] && frames[..i + 1] == frames[..i] + [f];
    assert forall j :: 0 <= j < |now| ==> now[j] != [] && next[j] == now[j];
    forall j | 0 < j < |next|
      ensures !Allowed(next[j - 1] + [next[j][0]], maxLines, maxBytes)
    {
      if j < |now| {
        assert !Allowed(now[j - 1] + [now[j][0]], maxLines, maxBytes);
      }
    }
  }

  lemma PackedEnd(out: seq<Batch>, cur: Batch, frames: seq<Frame>, maxLines: int, maxBytes: int)
    requires Packed(out, cur, frames, maxLines, maxBytes)
    ensures var all := if |cur| > 0 then out + [cur] else out;
            Flatten(all) == frames && AllAllowed(all, maxLines, maxBytes) && Greedy(all, maxLines, maxBytes)
  {
  }

  method ExpandLines(lines: seq<string>) returns (frames: seq<Frame>)
    ensures frames == FramesOf(lines)
  {
    frames := [];
    for i := 0 to |lines|
      invariant frames == FramesOf(lines[..i])
    {
      var more := SplitLine(lines[i]);
      assert lines[..i + 1][..i] == lines[..i];
      frames := frames + more;
    }
    assert lines[..|lines|] == lines;
  }

  method PackFrames(frames: seq<Frame>, maxLines: int, maxBytes: int) returns (out: seq<Batch>)
    requires maxLines >= 1
    ensures Flatten(out) == frames
    ensures AllAllowed(out, maxLines, maxBytes) && Greedy(out, maxLines, maxBytes)
  {
    hide Packed, AllAllowed, Greedy, Flatten, TextBytes;
    out := [];
    var cur: Batch, curBytes := [], 0;
    PackedNothing(frames, maxLines, maxBytes);
    for i := 0 to |frames|
      invariant Packed(out, cur, frames[..i], maxLines, maxBytes)
      invariant curBytes == if cur == [] then 0 else Size(cur)
    {
      var f := frames[i];
      var cost := |f.text|;
      if |cur| > 0 {
        cost := cost + 1;
      }
      TextBytesSnoc(cur, f);
      TextBytesSnoc([], f);
      PackedRoom(out, cur, maxLines, maxBytes, frames[..i]);
      if |cur| >= maxLines || (|cur| > 0 && curBytes + cost > maxBytes) {
        PackedNext(out, cur, frames, i, maxLines, maxBytes);
        out := out + [cur];
        cur, curBytes := [], 0;
        cost := |f.text|;
      } else {
        PackedSame(out, cur, frames, i, maxLines, maxBytes);
      }
      cur := cur + [f];
      curBytes := curBytes + cost;
    }
    assert frames[..|frames|] == frames;
    PackedEnd(out, cur, frames, maxLines, maxBytes);
    if |cur| > 0 {
      out := out + [cur];
    }
  }

  /** The plan loses nothing, keeps the limits and uses as few batches as any plan can. */
  method PlanMultiline(lines: seq<string>, maxLines: int, maxBytes: int) returns (out: seq<Batch>)
    ensures Flatten(out) == FramesOf(lines)
    ensures Join(Flatten(out)) == lines
    ensures FitsBudget(Flatten(out))
    ensures AllAllowed(out, LineLimit(maxLines), ByteLimit(maxBytes))
    ensures Greedy(out, LineLimit(maxLines), ByteLimit(maxBytes))
    ensures forall q :: AllAllowed(q, LineLimit(maxLines), ByteLimit(maxBytes)) && Flatten(q) == FramesOf(lines) ==>
            |out| <= |q|
  {
    hide Flatten, AllAllowed, Greedy, FramesOf, Join, FitsBudget;
    var L, B := LineLimit(maxLines), ByteLimit(maxBytes);
    var frames := ExpandLines(lines);
    out := PackFrames(frames, L, B);
    JoinUndoesSplit(lines);
    FramesFit(lines);
    forall q | AllAllowed(q, L, B) && Flatten(q) == FramesOf(lines)
      ensures |out| <= |q|
    {
      GreedyIsOptimal(out, q, L, B);
    }
  }

  // ---------- batches joined one by one ----------

  /** The lines a receiver sees when every batch becomes a message of its own. */
  ghost function JoinEach(batches: seq<Batch>): seq<string> {
    if batches == [] then [] else Join(batches[0]) + JoinEach(batches[1..])
  }

  ghost predicate StartsLine(b: Batch) {
    b != [] && !b[0].concat
  }

  lemma {:induction false} JoinEachCount(batches: seq<Batch>)
    requires forall b :: b in batches ==> b != []
    ensures |JoinEach(batches)| >= |Join(Flatten(batches))|
    ensures (forall i :: 0 < i < |batches| ==> StartsLine(batches[i])) ==> JoinEach(batches) == Join(Flatten(batches))
    ensures !(forall i :: 0 < i < |batches| ==> StartsLine(batches[i])) ==>
            |JoinEach(batches)| > |Join(Flatten(batches))|
  {
    if batches != [] {
      var b, rest := batches[0], batches[1..];
      assert forall x :: x in rest ==> x in batches;
      JoinEachCount(rest);
      assert b in batches;
      assert forall i :: 0 <= i < |rest| ==> rest[i] == batches[i + 1];
      if rest == [] {
        assert b + Flatten(rest) == b;
      } else {
        assert rest[0] in batches && Flatten(rest) == rest[0] + Flatten(rest[1..]);
        assert Flatten(rest)[0] == rest[0][0];
        JoinConcat(b, Flatten(rest));
        assert StartsLine(rest[0]) <==> !Flatten(rest)[0].concat;
        if forall i :: 0 < i < |rest| ==> StartsLine(rest[i]) {
          assert StartsLine(rest[0]) ==> forall i :: 0 < i < |batches| ==> StartsLine(batches[i]);
          assert !StartsLine(rest[0]) ==> !StartsLine(batches[1]);
        } else {
          var i :| 0 < i < |rest| && !StartsLine(rest[i]);
          assert !StartsLine(batches[i + 1]);
        }
      }
    }
  }

  /** Joined batch by batch the plan gives the message back exactly when no batch after the
      first starts in the middle of a line. */
  lemma PerBatchJoin(lines: seq<string>, batches: seq<Batch>)
    requires forall b :: b in batches ==> b != []
    requires Flatten(batches) == FramesOf(lines)
    ensures JoinEach(batches) == lines <==> forall i :: 0 < i < |batches| ==> StartsLine(batches[i])
  {
    JoinUndoesSplit(lines);
    JoinEachCount(batches);
  }

  lemma {:induction false} ShortLinesNeverContinue(lines: seq<string>)
    requires forall ln :: ln in lines ==> |ln| <= FRAME_BUDGET
    ensures forall f :: f in FramesOf(lines) ==> !f.concat
  {
    if lines != [] {
      assert lines[|lines| - 1] in lines;
      ShortLinesNeverContinue(lines[..|lines| - 1]);
    }
  }

  lemma {:induction false} FlattenHolds(batches: seq<Batch>, i: nat)
    requires i < |batches| && batches[i] != []
    ensures batches[i][0] in Flatten(batches)
  {
    if i > 0 {
      FlattenHolds(batches[1..], i - 1);
    }
  }

  /** Lines that fit one frame each always survive batch-by-batch joining. */
  lemma ShortLinesJoinEach(lines: seq<string>, batches: seq<Batch>)
    requires forall ln :: ln in lines ==> |ln| <= FRAME_BUDGET
    requires forall b :: b in batches ==> b != []
    requires Flatten(batches) == FramesOf(lines)
    ensures JoinEach(batches) == lines
  {
    ShortLinesNeverContinue(lines);
    forall i | 0 < i < |batches|
      ensures StartsLine(batches[i])
    {
      assert batches[i] in batches;
      FlattenHolds(batches, i);
    }
    PerBatchJoin(lines, batches);
  }

  /** A longer line, one frame to a batch, never does. */
  lemma LongLineFallsApart(ln: string, batches: seq<Batch>, maxBytes: int)
    requires |ln| > FRAME_BUDGET
    requires AllAllowed(batches, 1, maxBytes) && Flatten(batches) == FramesOf([ln])
    ensures JoinEach(batches) != [ln]
  {
    hide Flatten, Join, JoinEach, Chunks, FramesOf;
    assert FramesOf([ln]) == Chunks(ln, true) by {
      OneLine(ln);
    }
    var n := ChunkLen(ln);
    ChunksStep(ln, true);
    ChunksStep(ln[n..], false);
    var frames := FramesOf([ln]);
    assert |frames| >= 2 && frames[1].concat;
    FlattenHead(batches);
    FlattenHead(batches[1..]);
    assert batches[0] in batches && |batches[0]| == 1;
    assert batches[1] in batches && batches[1] == batches[1..][0] && batches[1][0] == frames[1];
    assert !StartsLine(batches[1]);
    assert forall b :: b in batches ==> b != [];
    PerBatchJoin([ln], batches);
  }

  lemma OneLine(ln: string)
    ensures FramesOf([ln]) == LineFrames(ln)
  {
    assert [ln][..0] == [];
    assert FramesOf([ln][..0]) + LineFrames(ln) == LineFrames(ln);
  }
}
