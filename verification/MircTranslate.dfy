/** From independent on/off toggles to nested spans. */
module MircTranslate {
  import opened Basics
  import opened Bytes
  import opened MircScan
  import opened Markdown

  const RESET: byte := 0x0f
  const REVERSE: byte := 0x16
  const COLOUR: byte := 0x03
  const HEX_COLOUR: byte := 0x04
  const NEWLINE: byte := 10

  /** The input after the control byte it starts with, colour parameters dropped. */
  ghost function AfterControl(s: seq<byte>): (rest: seq<byte>)
    requires s != []
    ensures |rest| < |s|
  {
    if s[0] == COLOUR then s[1 + ColourLen(false, s[1..])..]
    else if s[0] == HEX_COLOUR then s[1 + ColourLen(true, s[1..])..]
    else s[1..]
  }

  predicate IsDropped(c: byte) {
    c == REVERSE || c == COLOUR || c == HEX_COLOUR
  }

  /** What mIRC itself shows: formats switch on and off independently of each other, a reset
      switches all of them off, and every line starts with none. */
  ghost function Shown(s: seq<byte>, on: set<byte>): seq<Cell>
    decreases |s|
  {
    if s == [] then []
    else if IsCode(s[0]) then Shown(s[1..], if s[0] in on then on - {s[0]} else on + {s[0]})
    else if s[0] == RESET then Shown(s[1..], {})
    else if IsDropped(s[0]) then Shown(AfterControl(s), on)
    else if s[0] == NEWLINE then [Cell(NEWLINE, {})] + Shown(s[1..], {})
    else [Cell(s[0], on)] + Shown(s[1..], on)
  }

  function IndexOf(on: seq<byte>, c: byte): (i: nat)
    requires c in on
    ensures i < |on| && on[i] == c
  {
    if on[0] == c then 0 else 1 + IndexOf(on[1..], c)
  }

  lemma FoundAt(on: seq<byte>, i: nat)
    requires Distinct(on) && i < |on|
    ensures IndexOf(on, on[i]) == i
  {
    assert IndexOf(on, on[i]) != i ==> on[IndexOf(on, on[i])] != on[i];
  }

  /** The formats that are on, oldest first, after one is switched. */
  ghost function Switched(on: seq<byte>, c: byte): seq<byte> {
    if c !in on then on + [c] else on[..IndexOf(on, c)] + on[IndexOf(on, c) + 1..]
  }

  /** The stream with the delimiter that closes its innermost open span, if one is open. */
  ghost function ClosedInnermost(toks: seq<Token>): seq<Token> {
    var open := Read(toks).open;
    if open == [] then toks else toks + [Close(open[|open| - 1])]
  }

  /** The stream with its `k` innermost open spans closed. */
  ghost function ClosedInner(toks: seq<Token>, k: nat): seq<Token>
    decreases k
  {
    if k == 0 then toks else ClosedInnermost(ClosedInner(toks, k - 1))
  }

  /** The stream with the spans `codes` opened, outermost first. */
  ghost function Reopened(toks: seq<Token>, codes: seq<byte>): seq<Token>
    decreases codes
  {
    if codes == [] then toks else Reopened(toks + [Open(codes[0])], codes[1..])
  }

  /** The stream once format `c` is switched: opened; or taken back with its opening
      delimiter when nothing was written since; or closed with all spans inside it, which
      are then opened again. */
  ghost function ToggledStream(toks: seq<Token>, c: byte): seq<Token> {
    var r := Read(toks);
    if c !in r.open then toks + [Open(c)]
    else
      var i := IndexOf(r.open, c);
      if i == |r.open| - 1 && r.bare > 0 then toks[..|toks| - 1]
      else Reopened(ClosedInner(toks, |r.open| - i), r.open[i + 1..])
  }

  /** The stream once everything is closed: the opening delimiters it ends with are taken
      back, the other open spans are closed. */
  ghost function Finished(toks: seq<Token>): seq<Token> {
    ClosedInner(toks[..|toks| - Read(toks).bare], |Read(toks).open| - Read(toks).bare)
  }

  lemma ReopenedStep(toks: seq<Token>, codes: seq<byte>, i: nat)
    requires i < |codes|
    ensures Reopened(toks, codes[i..]) == Reopened(toks + [Open(codes[i])], codes[i + 1..])
  {
    assert codes[i..][1..] == codes[i + 1..];
  }

  /** The markdown stream `s` is translated to, after the stream `toks` written so far. */
  ghost function Spelled(s: seq<byte>, toks: seq<Token>): seq<Token>
    decreases |s|
  {
    if s == [] then Finished(toks)
    else if IsCode(s[0]) then Spelled(s[1..], ToggledStream(toks, s[0]))
    else if s[0] == RESET then Spelled(s[1..], Finished(toks))
    else if IsDropped(s[0]) then Spelled(AfterControl(s), toks)
    else if s[0] == NEWLINE then Spelled(s[1..], Finished(toks) + [Text(NEWLINE)])
    else Spelled(s[1..], toks + [Text(s[0])])
  }

  /** Does switching a format off ever find, above it, a format switched on (or kept on by
      an earlier such switch) since which no text came? `on` lists the formats in the order
      they were switched on, the last `bare` of them with no text yet. */
  ghost predicate SplitsEmptySpan(s: seq<byte>, on: seq<byte>, bare: nat)
    decreases |s|
  {
    if s == [] then false
    else if IsCode(s[0]) then
      var after := Switched(on, s[0]);
      if s[0] !in on then SplitsEmptySpan(s[1..], after, bare + 1)
      else if IndexOf(on, s[0]) == |on| - 1 then SplitsEmptySpan(s[1..], after, if bare == 0 then 0 else bare - 1)
      else bare > 0 || SplitsEmptySpan(s[1..], after, |after| - IndexOf(on, s[0]))
    else if s[0] == RESET then SplitsEmptySpan(s[1..], [], 0)
    else if IsDropped(s[0]) then SplitsEmptySpan(AfterControl(s), on, bare)
    else if s[0] == NEWLINE then SplitsEmptySpan(s[1..], [], 0)
    else SplitsEmptySpan(s[1..], on, 0)
  }

  /** An open span and the length of the buffer right before its opening delimiter. */
  datatype Span = Span(code: byte, pos: nat)

  /** The stack holds exactly the formats of `open`, in that order, none twice. */
  ghost predicate Holds(spans: seq<Span>, open: seq<byte>) {
    && |spans| == |open|
    && (forall i :: 0 <= i < |spans| ==> spans[i].code == open[i])
    && Distinct(open)
  }

  /** Token `m` is the opening delimiter of `span`, written where the span says it is. */
  ghost predicate IsMark(toks: seq<Token>, m: nat, span: Span) {
    m < |toks| && toks[m] == Open(span.code) && |Read(toks[..m]).bytes| == span.pos
  }

  /** The tokens `marks` open the spans, in order, and the opening delimiters the stream ends
      with are those of the topmost spans. */
  ghost predicate Tracks(toks: seq<Token>, spans: seq<Span>, marks: seq<nat>) {
    && |marks| == |spans|
    && (forall i :: 0 <= i < |spans| ==> IsMark(toks, marks[i], spans[i]))
    && (forall i, j :: 0 <= i < j < |spans| ==> marks[i] < marks[j])
    && Read(toks).bare <= |spans|
    && (forall i :: |spans| - Read(toks).bare <= i < |spans| ==> marks[i] == |toks| - |spans| + i)
  }

  /** The stack is exactly the spans open at the end of the stream, no format twice. */
  ghost predicate Mirrors(toks: seq<Token>, spans: seq<Span>, marks: seq<nat>) {
    && Read(toks).ok
    && Holds(spans, Read(toks).open)
    && Tracks(toks, spans, marks)
  }

  lemma MarkStays(toks: seq<Token>, t: Token, m: nat, span: Span)
    requires m < |toks|
    ensures IsMark(toks + [t], m, span) <==> IsMark(toks, m, span)
  {
    assert (toks + [t])[..m] == toks[..m];
  }

  lemma MarksStay(toks: seq<Token>, t: Token, spans: seq<Span>, marks: seq<nat>)
    requires |marks| == |spans| && forall i :: 0 <= i < |spans| ==> marks[i] < |toks|
    ensures forall i :: 0 <= i < |spans| ==>
            (IsMark(toks + [t], marks[i], spans[i]) <==> IsMark(toks, marks[i], spans[i]))
  {
    forall i | 0 <= i < |spans|
      ensures IsMark(toks + [t], marks[i], spans[i]) <==> IsMark(toks, marks[i], spans[i])
    {
      MarkStays(toks, t, marks[i], spans[i]);
    }
  }

  lemma TopIsMark(toks: seq<Token>, span: Span)
    requires span.pos == |Read(toks).bytes|
    ensures IsMark(toks + [Open(span.code)], |toks|, span)
  {
    assert (toks + [Open(span.code)])[..|toks|] == toks;
  }

  lemma MirrorsOpen(toks: seq<Token>, spans: seq<Span>, marks: seq<nat>, code: byte)
    requires Mirrors(toks, spans, marks)
    requires IsCode(code) && code !in Read(toks).open
    ensures Mirrors(toks + [Open(code)], spans + [Span(code, |Read(toks).bytes|)], marks + [|toks|])
  {
    hide Read;
    Append(toks, Open(code));
    MarksStay(toks, Open(code), spans, marks);
    TopIsMark(toks, Span(code, |Read(toks).bytes|));
    var above := spans + [Span(code, |Read(toks).bytes|)];
  }

  lemma MirrorsText(toks: seq<Token>, spans: seq<Span>, marks: seq<nat>, ch: byte)
    requires Mirrors(toks, spans, marks)
    ensures Mirrors(toks + [Text(ch)], spans, marks)
  {
    Append(toks, Text(ch));
    MarksStay(toks, Text(ch), spans, marks);
  }

  /** Closing the topmost span; an empty one would leave an empty span behind. */
  lemma MirrorsClose(toks: seq<Token>, spans: seq<Span>, marks: seq<nat>)
    requires Mirrors(toks, spans, marks) && spans != []
    ensures var n := |spans| - 1;
            var more := toks + [Close(spans[n].code)];
            && Mirrors(more, spans[..n], marks[..n])
            && Read(more).bare == 0
            && (Read(more).emptySpan <==> Read(toks).emptySpan || Read(toks).bare > 0)
            && Read(more).bytes == Read(toks).bytes + Delim(spans[n].code)
            && Read(more).cells == Read(toks).cells
  {
    hide Read;
    var n := |spans| - 1;
    var t := Close(spans[n].code);
    Append(toks, t);
    MarksStay(toks, t, spans, marks);
    assert IsMark(toks, marks[n], spans[n]);
  }

  /** Cutting the topmost span while nothing was written since it was opened. */
  lemma MirrorsCut(toks: seq<Token>, spans: seq<Span>, marks: seq<nat>)
    requires Mirrors(toks, spans, marks) && Read(toks).bare > 0
    ensures var n, less := |spans| - 1, toks[..|toks| - 1];
            && Mirrors(less, spans[..n], marks[..n])
            && Read(less).bare == Read(toks).bare - 1
            && (Read(less).emptySpan <==> Read(toks).emptySpan)
            && Read(toks).bytes == Read(less).bytes + Delim(spans[n].code)
            && |Read(less).bytes| == spans[n].pos
            && Read(less).cells == Read(toks).cells
  {
    hide Read;
    var n, less := |spans| - 1, toks[..|toks| - 1];
    var t := toks[|less|];
    assert toks == less + [t];
    Append(less, t);
    assert marks[n] == |less| && IsMark(toks, marks[n], spans[n]);
    MarksStay(less, t, spans[..n], marks[..n]);
    assert forall i :: 0 <= i < n ==> IsMark(toks, marks[i], spans[i]);
  }

  /** The byte-length test for an empty span finds exactly the topmost span, and that only
      while no token follows its opening delimiter. */
  lemma EmptyTailTest(toks: seq<Token>, spans: seq<Span>, marks: seq<nat>, idx: nat)
    requires Mirrors(toks, spans, marks) && idx < |spans|
    ensures |Read(toks).bytes| == spans[idx].pos + |Delim(spans[idx].code)|
            <==> idx == |spans| - 1 && Read(toks).bare > 0
  {
    hide Read;
    var m := marks[idx];
    var upto := toks[..m + 1];
    assert upto == toks[..m] + [toks[m]];
    Append(toks[..m], toks[m]);
    ReadPrefix(toks, m + 1);
    if m + 1 == |toks| {
      assert upto == toks;
    }
    assert IsMark(toks, m, spans[idx]);
    assert marks[|spans| - 1] >= m;
  }

  /** `r` became `after` by switching format `c`: no text changed, and an empty span was left
      exactly when `c` was closed below a span with no text. */
  ghost predicate Toggled(r: Reading, c: byte, after: Reading) {
    && after.cells == r.cells
    && after.open == Switched(r.open, c)
    && (if c !in r.open then after.bare == r.bare + 1 && after.emptySpan == r.emptySpan
        else if IndexOf(r.open, c) == |r.open| - 1 then
          after.bare == (if r.bare == 0 then 0 else r.bare - 1) && after.emptySpan == r.emptySpan
        else after.bare == |after.open| - IndexOf(r.open, c) && after.emptySpan == (r.emptySpan || r.bare > 0))
  }

  /** `r` became `after` by closing everything: no text changed and no empty span was left. */
  ghost predicate WasReset(r: Reading, after: Reading) {
    after.cells == r.cells && after.open == [] && after.bare == 0 && after.emptySpan == r.emptySpan
  }

  /** Closing the `k` innermost spans of `toks0`, read as `r0`, gave `toks`, read as `r`. */
  ghost predicate ClosedBy(toks0: seq<Token>, r0: Reading, k: nat, toks: seq<Token>, r: Reading) {
    && k <= |r0.open|
    && toks == ClosedInner(toks0, k)
    && r.open == r0.open[..|r0.open| - k]
    && r.cells == r0.cells
    && (if k == 0 then r.bare == r0.bare && r.emptySpan == r0.emptySpan
        else r.bare == 0 && r.emptySpan == (r0.emptySpan || r0.bare > 0))
  }

  lemma ClosedByOneMore(toks0: seq<Token>, r0: Reading, k: nat, toks1: seq<Token>, r1: Reading, toks: seq<Token>,
      r: Reading)
    requires ClosedBy(toks0, r0, k, toks1, r1) && ClosedBy(toks1, r1, 1, toks, r)
    ensures ClosedBy(toks0, r0, k + 1, toks, r)
  {
    assert ClosedInner(toks1, 1) == ClosedInnermost(ClosedInner(toks1, 0));
    hide ClosedInnermost;
  }

  /** What closing everything has done to `toks0`, read as `r0`, after `m` spans. */
  ghost predicate ResetBy(toks0: seq<Token>, r0: Reading, m: nat, toks: seq<Token>, r: Reading) {
    && r0.bare <= |r0.open| && r0.bare <= |toks0| && m <= |r0.open|
    && toks == (if m <= r0.bare then toks0[..|toks0| - m] else ClosedInner(toks0[..|toks0| - r0.bare], m - r0.bare))
    && r.open == r0.open[..|r0.open| - m]
    && r.cells == r0.cells
    && r.bare == (if m <= r0.bare then r0.bare - m else 0)
    && r.emptySpan == r0.emptySpan
  }

  ghost predicate PoppedFrom(toks0: seq<Token>, r0: Reading, toks: seq<Token>, r: Reading) {
    if r0.bare > 0 then CutFrom(toks0, r0, toks, r) else ClosedBy(toks0, r0, 1, toks, r)
  }

  /** Spans are cut while they are bare, and closed from then on. */
  lemma ResetByOneMore(toks0: seq<Token>, r0: Reading, m: nat, toks1: seq<Token>, r1: Reading, toks: seq<Token>,
      r: Reading)
    requires ResetBy(toks0, r0, m, toks1, r1) && m < |r0.open|
    requires PoppedFrom(toks1, r1, toks, r)
    ensures ResetBy(toks0, r0, m + 1, toks, r)
  {
    if r1.bare > 0 {
      assert toks == toks0[..|toks0| - (m + 1)];
    } else {
      assert ClosedInner(toks1, 1) == ClosedInnermost(ClosedInner(toks1, 0));
      hide ClosedInnermost;
    }
  }

  lemma ResetByAll(toks0: seq<Token>, r0: Reading, toks: seq<Token>, r: Reading)
    requires ResetBy(toks0, r0, |r0.open|, toks, r) && r0 == Read(toks0)
    ensures WasReset(r0, r) && toks == Finished(toks0)
  {
    hide Read;
  }

  /** The topmost span, bare so far, was cut out. */
  ghost predicate CutFrom(toks0: seq<Token>, r0: Reading, toks: seq<Token>, r: Reading) {
    && toks0 != [] && toks == toks0[..|toks0| - 1]
    && r0.open != [] && r.open == r0.open[..|r0.open| - 1]
    && r.cells == r0.cells
    && r.bare == r0.bare - 1
    && r.emptySpan == r0.emptySpan
  }

  /** The buffer and the stack of one translation. */
  datatype Buffer = Buffer(b: seq<byte>, stack: seq<Span>)

  /** What the buffer spells, and which tokens opened the spans on the stack. */
  datatype Trace = Trace(toks: seq<Token>, marks: seq<nat>)

  ghost predicate Valid(w: Buffer, t: Trace) {
    w.b == Read(t.toks).bytes && Mirrors(t.toks, w.stack, t.marks)
  }

  lemma NothingDone(w: Buffer, t: Trace)
    requires Valid(w, t)
    ensures |Read(t.toks).open| == |w.stack|
    ensures ClosedBy(t.toks, Read(t.toks), 0, t.toks, Read(t.toks))
    ensures ResetBy(t.toks, Read(t.toks), 0, t.toks, Read(t.toks))
  {
    assert t.toks[..|t.toks| - 0] == t.toks;
  }

  method OpenSpan(w: Buffer, code: byte, ghost t: Trace) returns (v: Buffer, ghost u: Trace)
    requires Valid(w, t) && IsCode(code) && code !in Read(t.toks).open
    ensures Valid(v, u) && u.toks == t.toks + [Open(code)]
    ensures Read(u.toks) == ReadToken(Read(t.toks), Open(code))
  {
    hide Read;
    MirrorsOpen(t.toks, w.stack, t.marks, code);
    Append(t.toks, Open(code));
    v := Buffer(w.b + Delim(code), w.stack + [Span(code, |w.b|)]);
    u := Trace(t.toks + [Open(code)], t.marks + [|t.toks|]);
  }

  method Write(w: Buffer, ch: byte, ghost t: Trace) returns (v: Buffer, ghost u: Trace)
    requires Valid(w, t)
    ensures Valid(v, u) && u.toks == t.toks + [Text(ch)]
    ensures Read(u.toks) == ReadToken(Read(t.toks), Text(ch))
  {
    hide Read;
    MirrorsText(t.toks, w.stack, t.marks, ch);
    Append(t.toks, Text(ch));
    v := w.(b := w.b + [ch]);
    u := t.(toks := t.toks + [Text(ch)]);
  }

  /** The byte-length test for an empty span. */
  method EndsInside(w: Buffer, idx: nat, ghost t: Trace) returns (empty: bool)
    requires Valid(w, t) && idx < |w.stack|
    ensures empty <==> idx == |w.stack| - 1 && Read(t.toks).bare > 0
  {
    hide Read;
    EmptyTailTest(t.toks, w.stack, t.marks, idx);
    empty := |w.b| == w.stack[idx].pos + |Delim(w.stack[idx].code)|;
  }

  /** Cuts the topmost span out, with its opening delimiter, when the buffer ends there. */
  method CutTop(w: Buffer, ghost t: Trace) returns (v: Buffer, ghost u: Trace)
    requires Valid(w, t) && Read(t.toks).bare > 0
    ensures Valid(v, u) && |v.stack| == |w.stack| - 1
    ensures CutFrom(t.toks, Read(t.toks), u.toks, Read(u.toks))
  {
    hide Read, ReadToken;
    MirrorsCut(t.toks, w.stack, t.marks);
    var top := |w.stack| - 1;
    v := Buffer(w.b[..w.stack[top].pos], w.stack[..top]);
    u := Trace(t.toks[..|t.toks| - 1], t.marks[..top]);
  }

  /** Writes the closing delimiter of the topmost span. */
  method CloseTop(w: Buffer, ghost t: Trace) returns (v: Buffer, ghost u: Trace)
    requires Valid(w, t) && w.stack != []
    ensures Valid(v, u) && |v.stack| == |w.stack| - 1
    ensures ClosedBy(t.toks, Read(t.toks), 1, u.toks, Read(u.toks))
  {
    hide Read, ReadToken;
    MirrorsClose(t.toks, w.stack, t.marks);
    var top := |w.stack| - 1;
    v := Buffer(w.b + Delim(w.stack[top].code), w.stack[..top]);
    u := Trace(t.toks + [Close(w.stack[top].code)], t.marks[..top]);
    assert ClosedInner(t.toks, 1) == ClosedInnermost(ClosedInner(t.toks, 0));
  }

  /** Closes span `idx` and every span above it, innermost first. A span closed leaves the
      stack at once. */
  method CloseDownTo(w: Buffer, idx: nat, ghost t: Trace) returns (v: Buffer, ghost u: Trace)
    requires Valid(w, t) && idx < |w.stack|
    ensures Valid(v, u) && |v.stack| == idx && |w.stack| == |Read(t.toks).open|
    ensures ClosedBy(t.toks, Read(t.toks), |w.stack| - idx, u.toks, Read(u.toks))
  {
    hide Read, Valid, ClosedBy, Finished;
    v, u := w, t;
    NothingDone(w, t);
    while |v.stack| > idx
      invariant Valid(v, u) && idx <= |v.stack| <= |w.stack|
      invariant ClosedBy(t.toks, Read(t.toks), |w.stack| - |v.stack|, u.toks, Read(u.toks))
    {
      ghost var last := u;
      v, u := CloseTop(v, u);
      ClosedByOneMore(t.toks, Read(t.toks), |w.stack| - |v.stack| - 1, last.toks, Read(last.toks), u.toks,
        Read(u.toks));
    }
  }

  /** Opens the spans `above` again, outermost first, each where the buffer now ends. */
  method Reopen(w: Buffer, above: seq<Span>, ghost codes: seq<byte>, ghost t: Trace) returns (v: Buffer, ghost u: Trace)
    requires Valid(w, t) && Read(t.toks).bare == 0
    requires Holds(above, codes)
    requires forall i :: 0 <= i < |codes| ==> IsCode(codes[i]) && codes[i] !in Read(t.toks).open
    ensures Valid(v, u) && u.toks == Reopened(t.toks, codes)
    ensures Read(u.toks).open == Read(t.toks).open + codes
    ensures Read(u.toks).cells == Read(t.toks).cells
    ensures Read(u.toks).bare == |above|
    ensures Read(u.toks).emptySpan == Read(t.toks).emptySpan
  {
    hide Read, Valid;
    v, u := w, t;
    assert codes[0..] == codes;
    for i := 0 to |above|
      invariant Valid(v, u) && Read(u.toks).bare == i
      invariant Reopened(u.toks, codes[i..]) == Reopened(t.toks, codes)
      invariant Read(u.toks).open == Read(t.toks).open + codes[..i]
      invariant Read(u.toks).cells == Read(t.toks).cells
      invariant Read(u.toks).emptySpan == Read(t.toks).emptySpan
    {
      ReopenedStep(u.toks, codes, i);
      v, u := OpenSpan(v, above[i].code, u);
    }
  }

  /** Closes span `idx` and only it: the spans above are closed and reopened around it. */
  method CloseAt(w: Buffer, idx: nat, ghost t: Trace) returns (v: Buffer, ghost u: Trace)
    requires Valid(w, t) && idx < |w.stack|
    ensures Valid(v, u) && idx < |Read(t.toks).open|
    ensures u.toks == ToggledStream(t.toks, Read(t.toks).open[idx])
    ensures Toggled(Read(t.toks), Read(t.toks).open[idx], Read(u.toks))
  {
    hide Read, ReadToken, ClosedInner, ClosedBy, CutFrom, Toggled, ToggledStream, Tracks;
    var empty := EndsInside(w, idx, t);
    if empty {
      v, u := CutTop(w, t);
      CutToggles(t.toks, idx, u.toks);
    } else {
      OpenAreCodes(t.toks);
      v, u := CloseDownTo(w, idx, t);
      ghost var mid := u.toks;
      ClosedOpen(t.toks, Read(t.toks), |w.stack| - idx, mid, Read(mid));
      v, u := Reopen(v, w.stack[idx + 1..], Read(t.toks).open[idx + 1..], u);
      ReopenToggles(t.toks, idx, mid, u.toks);
    }
  }

  lemma ClosedOpen(toks: seq<Token>, r: Reading, k: nat, mid: seq<Token>, m: Reading)
    requires 0 < k && ClosedBy(toks, r, k, mid, m)
    ensures k <= |r.open| && m.open == r.open[..|r.open| - k] && m.bare == 0
  {
  }

  lemma CutToggles(toks: seq<Token>, idx: nat, more: seq<Token>)
    requires Distinct(Read(toks).open) && |Read(toks).open| == idx + 1 && Read(toks).bare > 0
    requires CutFrom(toks, Read(toks), more, Read(more))
    ensures more == ToggledStream(toks, Read(toks).open[idx])
    ensures Toggled(Read(toks), Read(toks).open[idx], Read(more))
  {
    hide Read;
    FoundAt(Read(toks).open, idx);
  }

  lemma ReopenToggles(toks: seq<Token>, idx: nat, mid: seq<Token>, more: seq<Token>)
    requires Distinct(Read(toks).open) && idx < |Read(toks).open|
    requires !(idx == |Read(toks).open| - 1 && Read(toks).bare > 0)
    requires ClosedBy(toks, Read(toks), |Read(toks).open| - idx, mid, Read(mid))
    requires more == Reopened(mid, Read(toks).open[idx + 1..])
    requires Read(more).open == Read(mid).open + Read(toks).open[idx + 1..]
    requires Read(more).cells == Read(mid).cells
    requires Read(more).bare == |Read(toks).open| - idx - 1
    requires Read(more).emptySpan == Read(mid).emptySpan
    ensures more == ToggledStream(toks, Read(toks).open[idx])
    ensures Toggled(Read(toks), Read(toks).open[idx], Read(more))
  {
    hide Read, ClosedInner, Reopened;
    FoundAt(Read(toks).open, idx);
  }

  /** Switches one format off if it is on, and on if it is off. */
  method Toggle(w: Buffer, code: byte, ghost t: Trace) returns (v: Buffer, ghost u: Trace)
    requires Valid(w, t) && IsCode(code)
    ensures Valid(v, u) && u.toks == ToggledStream(t.toks, code)
    ensures Distinct(Read(t.toks).open) && Toggled(Read(t.toks), code, Read(u.toks))
  {
    hide Read;
    for i := 0 to |w.stack|
      invariant forall j :: 0 <= j < i ==> w.stack[j].code != code
    {
      if w.stack[i].code == code {
        v, u := CloseAt(w, i, t);
        return;
      }
    }
    v, u := OpenSpan(w, code, t);
  }

  method CutOrCloseTop(w: Buffer, ghost t: Trace) returns (v: Buffer, ghost u: Trace)
    requires Valid(w, t) && w.stack != []
    ensures Valid(v, u) && |v.stack| == |w.stack| - 1
    ensures PoppedFrom(t.toks, Read(t.toks), u.toks, Read(u.toks))
  {
    hide Read, Valid, CutFrom, ClosedBy;
    var empty := EndsInside(w, |w.stack| - 1, t);
    if empty {
      v, u := CutTop(w, t);
    } else {
      v, u := CloseTop(w, t);
    }
  }

  /** Closes everything open, innermost first; spans with nothing in them are cut. */
  method Reset(w: Buffer, ghost t: Trace) returns (v: Buffer, ghost u: Trace)
    requires Valid(w, t)
    ensures Valid(v, u) && u.toks == Finished(t.toks)
    ensures WasReset(Read(t.toks), Read(u.toks))
  {
    hide Read, Valid, ResetBy, PoppedFrom, Finished, WasReset;
    v, u := w, t;
    NothingDone(w, t);
    while v.stack != []
      invariant Valid(v, u) && |v.stack| <= |w.stack|
      invariant ResetBy(t.toks, Read(t.toks), |w.stack| - |v.stack|, u.toks, Read(u.toks))
      decreases |v.stack|
    {
      ghost var last := u;
      v, u := CutOrCloseTop(v, u);
      ResetByOneMore(t.toks, Read(t.toks), |w.stack| - |v.stack| - 1, last.toks, Read(last.toks), u.toks, Read(u.toks));
    }
    ResetByAll(t.toks, Read(t.toks), u.toks, Read(u.toks));
  }

  /** `out` spells properly nested markdown that shows every text byte of `s` as mIRC shows
      it, and leaves an empty span behind exactly when `s` switches off a format below one
      that has no text yet. */
  ghost predicate Translates(s: seq<byte>, out: seq<byte>, toks: seq<Token>) {
    && Read(toks).bytes == out
    && Balanced(toks)
    && Read(toks).cells == Shown(s, {})
    && (HasEmptySpan(toks) <==> SplitsEmptySpan(s, [], 0))
  }

  /** What is written so far and what the rest of `s` adds make up what all of `s` gives. */
  ghost predicate Remains(s: seq<byte>, i: nat, toks: seq<Token>)
    requires i <= |s|
  {
    var r := Read(toks);
    && Spelled(s[i..], toks) == Spelled(s, [])
    && r.cells + Shown(s[i..], Formats(r.open)) == Shown(s, {})
    && (r.emptySpan || SplitsEmptySpan(s[i..], r.open, r.bare) <==> SplitsEmptySpan(s, [], 0))
  }

  lemma RemainsToggle(s: seq<byte>, i: nat, toks: seq<Token>, more: seq<Token>)
    requires i < |s| && Remains(s, i, toks)
    requires IsCode(s[i]) && more == ToggledStream(toks, s[i])
    requires Distinct(Read(toks).open) && Toggled(Read(toks), s[i], Read(more))
    ensures Remains(s, i + 1, more)
  {
    hide Read, ToggledStream;
    assert s[i..][1..] == s[i + 1..];
    FormatsOfSwitched(Read(toks).open, s[i]);
  }

  lemma RemainsReset(s: seq<byte>, i: nat, toks: seq<Token>, more: seq<Token>)
    requires i < |s| && Remains(s, i, toks)
    requires s[i] == RESET && more == Finished(toks) && WasReset(Read(toks), Read(more))
    ensures Remains(s, i + 1, more)
  {
    hide Read, Finished;
    assert s[i..][1..] == s[i + 1..];
    assert Formats([]) == {};
  }

  lemma DroppedStep(x: seq<byte>, toks: seq<Token>, formats: set<byte>, on: seq<byte>, bare: nat)
    requires x != [] && IsDropped(x[0])
    ensures Spelled(x, toks) == Spelled(AfterControl(x), toks)
    ensures Shown(x, formats) == Shown(AfterControl(x), formats)
    ensures SplitsEmptySpan(x, on, bare) == SplitsEmptySpan(AfterControl(x), on, bare)
  {
  }

  lemma RemainsDropped(s: seq<byte>, i: nat, toks: seq<Token>, n: nat)
    requires i < |s| && Remains(s, i, toks)
    requires IsDropped(s[i])
    requires n == if s[i] == REVERSE then 0 else ColourLen(s[i] == HEX_COLOUR, s[i + 1..])
    ensures i + 1 + n <= |s| && Remains(s, i + 1 + n, toks)
  {
    hide Read, Spelled, Shown, SplitsEmptySpan;
    var r := Read(toks);
    DroppedStep(s[i..], toks, Formats(r.open), r.open, r.bare);
    assert s[i..][1..] == s[i + 1..];
    assert s[i..][1 + n..] == s[i + 1 + n..];
  }

  /** A byte of text: what it spells, what it shows under the formats on, and that no span has
      been left empty by it. A new line closes everything first. */
  lemma TextStep(x: seq<byte>, toks: seq<Token>, formats: set<byte>, on: seq<byte>, bare: nat)
    requires x != [] && !IsCode(x[0]) && x[0] != RESET && !IsDropped(x[0])
    ensures Spelled(x, toks) == Spelled(x[1..], (if x[0] == NEWLINE then Finished(toks) else toks) + [Text(x[0])])
    ensures var left := if x[0] == NEWLINE then {} else formats;
            Shown(x, formats) == [Cell(x[0], left)] + Shown(x[1..], left)
    ensures SplitsEmptySpan(x, on, bare) == SplitsEmptySpan(x[1..], if x[0] == NEWLINE then [] else on, 0)
  {
  }

  lemma CellsJoin(a: seq<Cell>, x: seq<Cell>, b: seq<Cell>)
    ensures (a + x) + b == a + (x + b)
  {
  }

  lemma RemainsText(s: seq<byte>, i: nat, toks: seq<Token>, closed: seq<Token>)
    requires i < |s| && Remains(s, i, toks)
    requires !IsCode(s[i]) && s[i] != RESET && !IsDropped(s[i])
    requires if s[i] == NEWLINE then closed == Finished(toks) && WasReset(Read(toks), Read(closed)) else closed == toks
    ensures Remains(s, i + 1, closed + [Text(s[i])])
  {
    hide Read, Finished, Spelled, Shown, SplitsEmptySpan;
    var r0, r := Read(toks), Read(closed);
    Append(closed, Text(s[i]));
    assert s[i..][1..] == s[i + 1..] && s[i..][0] == s[i];
    assert Formats([]) == {};
    TextStep(s[i..], toks, Formats(r0.open), r0.open, r0.bare);
    CellsJoin(r.cells, [Cell(s[i], Formats(r.open))], Shown(s[i + 1..], Formats(r.open)));
  }

  /** How many bytes a dropped control byte and its parameters take. */
  method DroppedLen(s: seq<byte>, i: nat) returns (n: nat)
    requires i < |s| && IsDropped(s[i])
    ensures n == if s[i] == REVERSE then 1 else 1 + ColourLen(s[i] == HEX_COLOUR, s[i + 1..])
  {
    if s[i] == REVERSE {
      n := 1;
    } else if s[i] == COLOUR {
      n := MircColorLen(s[i + 1..]);
      n := 1 + n;
    } else {
      n := MircHexLen(s[i + 1..]);
      n := 1 + n;
    }
  }

  /** One step of the input loop: a control byte with its parameters, or a byte of text. */
  method Step(w: Buffer, s: seq<byte>, i: nat, ghost t: Trace) returns (v: Buffer, next: nat, ghost u: Trace)
    requires Valid(w, t) && i < |s| && Remains(s, i, t.toks)
    ensures i < next <= |s| && Valid(v, u) && Remains(s, next, u.toks)
  {
    hide Read, ReadToken, Remains, Toggled, Shown, SplitsEmptySpan, ColourLen, WasReset, Finished, ToggledStream, Valid;
    var ch := s[i];
    next := i + 1;
    v, u := w, t;
    if IsDropped(ch) {
      var n := DroppedLen(s, i);
      RemainsDropped(s, i, t.toks, n - 1);
      next := i + n;
    } else if IsCode(ch) {
      v, u := Toggle(w, ch, t);
      RemainsToggle(s, i, t.toks, u.toks);
    } else {
      if ch == RESET || ch == NEWLINE {
        v, u := Reset(w, t);
      }
      if ch == RESET {
        RemainsReset(s, i, t.toks, u.toks);
      } else {
        RemainsText(s, i, t.toks, u.toks);
        v, u := Write(v, ch, u);
      }
    }
  }

  method MircToMarkdown(s: seq<byte>) returns (out: seq<byte>)
    ensures Translates(s, out, Spelled(s, []))
  {
    hide *;
    var w, i := Buffer([], []), 0;
    ghost var t := Trace([], []);
    StartsWhole(s);
    while i < |s|
      invariant 0 <= i <= |s|
      invariant Valid(w, t)
      invariant Remains(s, i, t.toks)
    {
      w, i, t := Step(w, s, i, t);
    }
    ghost var last := t;
    w, t := Reset(w, t);
    EndsWhole(s, last.toks, w, t);
    out := w.b;
  }

  lemma StartsWhole(s: seq<byte>)
    ensures Remains(s, 0, []) && Valid(Buffer([], []), Trace([], []))
  {
    assert s[0..] == s && Formats([]) == {};
  }

  lemma EndsWhole(s: seq<byte>, toks: seq<Token>, w: Buffer, t: Trace)
    requires Remains(s, |s|, toks)
    requires Valid(w, t) && t.toks == Finished(toks) && WasReset(Read(toks), Read(t.toks))
    ensures Translates(s, w.b, Spelled(s, []))
  {
    hide Read, HasEmptySpan, Finished;
    assert s[|s|..] == [];
    EmptySpanMeans(t.toks);
  }

  lemma FormatsOfSwitched(on: seq<byte>, c: byte)
    requires Distinct(on)
    ensures Formats(Switched(on, c)) == if c in Formats(on) then Formats(on) - {c} else Formats(on) + {c}
  {
    if c in on {
      var i := IndexOf(on, c);
      assert on == on[..i] + [c] + on[i + 1..];
    }
  }

  const BOLD_ITALIC: seq<Token> := [Open(BOLD), Open(ITALIC)]
  const BOLD_OFF: seq<Token> := [Open(BOLD), Open(ITALIC), Close(ITALIC), Close(BOLD), Open(ITALIC)]

  lemma BoldItalicRead()
    ensures Read([Open(BOLD)]).open == [BOLD]
    ensures Read(BOLD_ITALIC).open == [BOLD, ITALIC] && Read(BOLD_ITALIC).bare == 2
    ensures Read(BOLD_ITALIC + [Close(ITALIC)]).open == [BOLD]
    ensures Read(BOLD_OFF + [Text(120)]).open == [ITALIC] && Read(BOLD_OFF + [Text(120)]).bare == 0
  {
    hide Read;
    assert Read([]) == NOTHING_READ by {
      NothingIsRead();
    }
    var one, three := [Open(BOLD)], BOLD_ITALIC + [Close(ITALIC)];
    Append([], Open(BOLD));
    assert [] + [Open(BOLD)] == one;
    Append(one, Open(ITALIC));
    assert one + [Open(ITALIC)] == BOLD_ITALIC;
    Append(BOLD_ITALIC, Close(ITALIC));
    Append(three, Close(BOLD));
    Append(three + [Close(BOLD)], Open(ITALIC));
    assert three + [Close(BOLD)] + [Open(ITALIC)] == BOLD_OFF;
    Append(BOLD_OFF, Text(120));
  }

  lemma NothingIsRead()
    ensures Read([]) == NOTHING_READ
  {
  }

  lemma BoldSwitchedOff()
    ensures ToggledStream([], BOLD) == [Open(BOLD)]
    ensures ToggledStream([Open(BOLD)], ITALIC) == BOLD_ITALIC
    ensures ToggledStream(BOLD_ITALIC, BOLD) == BOLD_OFF
  {
    hide Read;
    BoldItalicRead();
    NothingIsRead();
    assert IndexOf([BOLD, ITALIC], BOLD) == 0;
    var three := BOLD_ITALIC + [Close(ITALIC)];
    assert ClosedInner(BOLD_ITALIC, 1) == three && ClosedInner(BOLD_ITALIC, 2) == three + [Close(BOLD)];
    assert [BOLD, ITALIC][1..] == [ITALIC] && [ITALIC][1..] == [];
    var four := three + [Close(BOLD)];
    assert four + [Open(ITALIC)] == BOLD_OFF;
    assert Reopened(four, [ITALIC]) == Reopened(BOLD_OFF, []) == BOLD_OFF;
    assert ClosedInnermost(three) == four;
  }

  lemma BoldOffFinished()
    ensures Finished(BOLD_OFF + [Text(120)]) == BOLD_OFF + [Text(120), Close(ITALIC)]
  {
    hide Read;
    BoldItalicRead();
    var six := BOLD_OFF + [Text(120)];
    assert six[..|six| - 0] == six;
    assert ClosedInner(six, 1) == six + [Close(ITALIC)];
  }

  lemma SpelledWithEmptySpan()
    ensures HasEmptySpan(Spelled([BOLD, ITALIC, BOLD, 120], []))
  {
    hide Read, ToggledStream, Finished;
    BoldSwitchedOff();
    BoldOffFinished();
    var s := [BOLD, ITALIC, BOLD, 120];
    assert s[1..] == [ITALIC, BOLD, 120] && s[1..][1..] == [BOLD, 120] && [BOLD, 120][1..] == [120] && [120][1..] == [];
    assert Spelled([120], BOLD_OFF) == Spelled([], BOLD_OFF + [Text(120)]);
    assert Spelled([BOLD, 120], BOLD_ITALIC) == Spelled([120], BOLD_OFF);
    assert Spelled([ITALIC, BOLD, 120], [Open(BOLD)]) == Spelled([BOLD, 120], BOLD_ITALIC);
    assert EmptySpanAt(BOLD_OFF + [Text(120), Close(ITALIC)], 1);
  }

  /** "bold, italic, bold, x" leaves an italic span with nothing in it. */
  lemma EmptySpanSurvives()
    ensures SplitsEmptySpan([BOLD, ITALIC, BOLD, 120], [], 0)
    ensures HasEmptySpan(Spelled([BOLD, ITALIC, BOLD, 120], []))
  {
    hide Spelled, HasEmptySpan;
    SpelledWithEmptySpan();
    var s := [BOLD, ITALIC, BOLD, 120];
    assert s[1..] == [ITALIC, BOLD, 120] && s[1..][1..] == [BOLD, 120];
    assert Switched([], BOLD) == [BOLD] && Switched([BOLD], ITALIC) == [BOLD, ITALIC];
    assert IndexOf([BOLD, ITALIC], BOLD) == 0;
    assert SplitsEmptySpan([BOLD, 120], [BOLD, ITALIC], 2);
    assert SplitsEmptySpan([ITALIC, BOLD, 120], [BOLD], 1);
  }

  const BOLD_X: seq<Token> := [Open(BOLD), Text(120)]

  lemma BoldXRead()
    ensures Read(BOLD_X).open == [BOLD] && Read(BOLD_X).bare == 0
    ensures Read(BOLD_X + [Close(BOLD)]).open == [] && Read(BOLD_X + [Close(BOLD)]).bare == 0
  {
    hide Read;
    BoldItalicRead();
    Append([Open(BOLD)], Text(120));
    assert [Open(BOLD)] + [Text(120)] == BOLD_X;
    Append(BOLD_X, Close(BOLD));
  }

  lemma ItalicCut()
    ensures ToggledStream([], BOLD) == [Open(BOLD)]
    ensures ToggledStream([Open(BOLD)], ITALIC) == BOLD_ITALIC
    ensures ToggledStream(BOLD_ITALIC, ITALIC) == [Open(BOLD)]
    ensures ToggledStream(BOLD_X, BOLD) == BOLD_X + [Close(BOLD)] == Finished(BOLD_X + [Close(BOLD)])
  {
    hide Read;
    BoldSwitchedOff();
    BoldItalicRead();
    BoldXRead();
    assert IndexOf([BOLD, ITALIC], ITALIC) == 1 && IndexOf([BOLD], BOLD) == 0;
    assert BOLD_ITALIC[..1] == [Open(BOLD)] && [BOLD][1..] == [];
    assert ClosedInner(BOLD_X, 1) == BOLD_X + [Close(BOLD)];
    var all := BOLD_X + [Close(BOLD)];
    assert all[..|all| - 0] == all;
  }

  lemma SpelledWithoutEmptySpan()
    ensures !HasEmptySpan(Spelled([BOLD, ITALIC, ITALIC, 120, BOLD], []))
  {
    hide Read, ToggledStream, Finished;
    ItalicCut();
    var s := [BOLD, ITALIC, ITALIC, 120, BOLD];
    assert s[1..] == [ITALIC, ITALIC, 120, BOLD] && s[1..][1..] == [ITALIC, 120, BOLD];
    assert [ITALIC, 120, BOLD][1..] == [120, BOLD] && [120, BOLD][1..] == [BOLD] && [BOLD][1..] == [];
    assert [Open(BOLD)] + [Text(120)] == BOLD_X;
    assert Spelled([BOLD], BOLD_X) == Spelled([], BOLD_X + [Close(BOLD)]);
    assert Spelled([120, BOLD], [Open(BOLD)]) == Spelled([BOLD], BOLD_X);
    assert Spelled([ITALIC, 120, BOLD], BOLD_ITALIC) == Spelled([120, BOLD], [Open(BOLD)]);
    assert Spelled([ITALIC, ITALIC, 120, BOLD], [Open(BOLD)]) == Spelled([ITALIC, 120, BOLD], BOLD_ITALIC);
  }

  /** "bold, italic, italic, x, bold" leaves none: the innermost empty span is cut out. */
  lemma InnermostIsCut()
    ensures !SplitsEmptySpan([BOLD, ITALIC, ITALIC, 120, BOLD], [], 0)
    ensures !HasEmptySpan(Spelled([BOLD, ITALIC, ITALIC, 120, BOLD], []))
  {
    hide Spelled, HasEmptySpan;
    SpelledWithoutEmptySpan();
    var u := [BOLD, ITALIC, ITALIC, 120, BOLD];
    assert u[1..] == [ITALIC, ITALIC, 120, BOLD] && u[1..][1..] == [ITALIC, 120, BOLD];
    assert u[1..][1..][1..] == [120, BOLD] && [120, BOLD][1..] == [BOLD];
    assert Switched([], BOLD) == [BOLD] && Switched([BOLD], ITALIC) == [BOLD, ITALIC];
    assert IndexOf([BOLD, ITALIC], ITALIC) == 1 && Switched([BOLD, ITALIC], ITALIC) == [BOLD];
    assert IndexOf([BOLD], BOLD) == 0 && Switched([BOLD], BOLD) == [];
    assert !SplitsEmptySpan([BOLD], [BOLD], 0);
    assert !SplitsEmptySpan([120, BOLD], [BOLD], 1);
    assert !SplitsEmptySpan([ITALIC, 120, BOLD], [BOLD, ITALIC], 2);
    assert !SplitsEmptySpan([ITALIC, ITALIC, 120, BOLD], [BOLD], 1);
  }

  const CTCP: byte := 0x01
  const ACTION: seq<byte> := [65, 67, 84, 73, 79, 78]
  const SPACE: byte := 32
  const STAR: byte := 42

  /** The bytes that make a line more than plain text. */
  predicate IsControl(c: byte) {
    IsCode(c) || IsDropped(c) || c == RESET || c == CTCP
  }

  /** The payload between the delimiters of a CTCP message. */
  function CtcpBody(s: seq<byte>): seq<byte>
    requires s != []
  {
    var body := s[1..];
    if body != [] && body[|body| - 1] == CTCP then body[..|body| - 1] else body
  }

  function TrimSpace(s: seq<byte>): seq<byte> {
    if s != [] && s[0] == SPACE then s[1..] else s
  }

  predicate IsAction(body: seq<byte>) {
    body == ACTION || ACTION + [SPACE] <= body
  }

  /** The markdown of one translated text. */
  ghost function Markdowned(s: seq<byte>): seq<byte> {
    Read(Spelled(s, [])).bytes
  }

  /** A line's markdown: actions in italics, other CTCP messages without their delimiters. */
  ghost function Formatted(s: seq<byte>): seq<byte> {
    if s != [] && s[0] == CTCP then
      var body := CtcpBody(s);
      if IsAction(body) then [STAR] + Markdowned(TrimSpace(body[|ACTION|..])) + [STAR] else Markdowned(body)
    else Markdowned(s)
  }

  /** Text without control bytes goes through the translator unchanged. */
  lemma {:induction false} PlainIsKept(s: seq<byte>, toks: seq<Token>)
    requires forall c :: c in s ==> !IsControl(c)
    requires Read(toks).open == [] && Read(toks).bare == 0
    ensures Read(Spelled(s, toks)).bytes == Read(toks).bytes + s
    decreases |s|
  {
    hide Read;
    assert s == [] ==> Spelled(s, toks) == Finished(toks);
    assert Finished(toks) == toks by {
      assert toks[..|toks| - 0] == toks;
    }
    if s == [] {
      assert Read(toks).bytes + s == Read(toks).bytes;
    } else {
      assert s[0] in s;
      Append(toks, Text(s[0]));
      PlainIsKept(s[1..], toks + [Text(s[0])]);
      assert (Read(toks).bytes + [s[0]]) + s[1..] == Read(toks).bytes + s;
    }
  }

  lemma ShortcutAgrees(s: seq<byte>)
    requires forall c :: c in s ==> !IsControl(c)
    ensures Formatted(s) == s
  {
    assert s != [] ==> s[0] in s;
    PlainIsKept(s, []);
    assert [] + s == s;
  }

  /** The shortcut for plain lines gives what the translator would have given. */
  method FormatIRC(s: seq<byte>) returns (out: seq<byte>)
    ensures out == Formatted(s)
  {
    hide Spelled, Read, SplitsEmptySpan, Shown;
    if forall c :: c in s ==> !IsControl(c) {
      ShortcutAgrees(s);
      return s;
    }
    var action, text := false, s;
    if s != [] && s[0] == CTCP {
      text := CtcpBody(s);
      if IsAction(text) {
        action := true;
        text := TrimSpace(text[|ACTION|..]);
      }
    }
    out := MircToMarkdown(text);
    if action {
      out := [STAR] + out + [STAR];
    }
  }
}
