/** What the markdown side means: a stream of delimiters and text bytes, the bytes it is
    written as, and the formatting each text byte is read with. */
module Markdown {
  import opened Bytes

  const BOLD: byte := 0x02
  const ITALIC: byte := 0x1d
  const UNDERLINE: byte := 0x1f
  const STRIKE: byte := 0x1e
  const MONO: byte := 0x11

  predicate IsCode(c: byte) {
    c == BOLD || c == ITALIC || c == UNDERLINE || c == STRIKE || c == MONO
  }

  /** The delimiter table; other bytes have no entry. */
  function Delim(c: byte): (d: seq<byte>)
    ensures IsCode(c) <==> d != []
  {
    if c == BOLD then [42, 42]
    else if c == ITALIC then [42]
    else if c == UNDERLINE then [95, 95]
    else if c == STRIKE then [126, 126]
    else if c == MONO then [96]
    else []
  }

  /** Opening and closing delimiters are written alike; tokens keep them apart. */
  datatype Token = Open(code: byte) | Close(code: byte) | Text(ch: byte)

  function Spelling(t: Token): seq<byte> {
    if t.Text? then [t.ch] else Delim(t.code)
  }

  /** One text byte together with the set of formats it is shown in. */
  datatype Cell = Cell(ch: byte, formats: set<byte>)

  /** What a reader of the stream keeps track of: the bytes it is written as; whether every
      closing delimiter so far met the innermost open span and no span was opened inside one
      of its own format; the open spans, outermost first; the formatted text; how many
      opening delimiters the stream ends with; and whether some span was closed with
      nothing in it. */
  datatype Reading = Reading(bytes: seq<byte>, ok: bool, open: seq<byte>, cells: seq<Cell>,
                             bare: nat, emptySpan: bool)

  const NOTHING_READ := Reading([], true, [], [], 0, false)

  ghost function Formats(open: seq<byte>): set<byte> {
    set c | c in open
  }

  ghost function ReadToken(r: Reading, t: Token): Reading {
    var bytes, n := r.bytes + Spelling(t), |r.open|;
    match t
    case Open(c) => Reading(bytes, r.ok && IsCode(c) && c !in r.open, r.open + [c], r.cells, r.bare + 1, r.emptySpan)
    case Close(c) =>
      if n == 0 then Reading(bytes, false, [], r.cells, 0, r.emptySpan)
      else Reading(bytes, r.ok && r.open[n - 1] == c, r.open[..n - 1], r.cells, 0, r.emptySpan || r.bare > 0)
    case Text(ch) => Reading(bytes, r.ok, r.open, r.cells + [Cell(ch, Formats(r.open))], 0, r.emptySpan)
  }

  ghost function Read(toks: seq<Token>): (r: Reading)
    ensures r.bare <= |r.open| && r.bare <= |toks|
  {
    if toks == [] then NOTHING_READ
    else ReadToken(Read(toks[..|toks| - 1]), toks[|toks| - 1])
  }

  /** Properly nested spans, each closed, none inside a span of the same format. */
  ghost predicate Balanced(toks: seq<Token>) {
    Read(toks).ok && Read(toks).open == []
  }

  /** Appending one token. */
  lemma Append(toks: seq<Token>, t: Token)
    ensures Read(toks + [t]) == ReadToken(Read(toks), t)
  {
    assert (toks + [t])[..|toks|] == toks;
  }

  /** Token boundaries are byte boundaries, and a longer stream is written in more bytes. */
  lemma {:induction false} ReadPrefix(toks: seq<Token>, k: nat)
    requires k <= |toks|
    requires Read(toks).ok
    ensures Read(toks[..k]).ok
    ensures |Read(toks).bytes| >= |Read(toks[..k]).bytes| + (|toks| - k)
    ensures Read(toks).bytes[..|Read(toks[..k]).bytes|] == Read(toks[..k]).bytes
  {
    if k == |toks| {
      assert toks[..k] == toks;
    } else {
      var shorter := toks[..|toks| - 1];
      assert shorter[..k] == toks[..k];
      OpenAreCodes(shorter);
      ReadPrefix(shorter, k);
    }
  }

  lemma {:induction false} OpenAreCodes(toks: seq<Token>)
    ensures Read(toks).ok ==> forall i :: 0 <= i < |Read(toks).open| ==> IsCode(Read(toks).open[i])
  {
    if toks != [] {
      OpenAreCodes(toks[..|toks| - 1]);
    }
  }

  /** Token `i` opens a span that the next token closes. */
  ghost predicate EmptySpanAt(toks: seq<Token>, i: nat) {
    i + 1 < |toks| && toks[i].Open? && toks[i + 1] == Close(toks[i].code)
  }

  ghost predicate HasEmptySpan(toks: seq<Token>) {
    exists i: nat :: EmptySpanAt(toks, i)
  }

  lemma AppendEmptySpan(toks: seq<Token>, t: Token)
    ensures HasEmptySpan(toks + [t]) <==>
            HasEmptySpan(toks) || (toks != [] && toks[|toks| - 1].Open? && t == Close(toks[|toks| - 1].code))
  {
    var more := toks + [t];
    assert forall i: nat :: i + 1 < |toks| ==> (EmptySpanAt(more, i) <==> EmptySpanAt(toks, i));
    if toks != [] {
      assert EmptySpanAt(more, |toks| - 1) <==> toks[|toks| - 1].Open? && t == Close(toks[|toks| - 1].code);
    }
  }

  /** In a well-formed stream a span was closed empty exactly when somewhere an opening
      delimiter is followed at once by the closing one of the same format. */
  lemma {:induction false} EmptySpanMeans(toks: seq<Token>)
    requires Read(toks).ok
    ensures Read(toks).emptySpan <==> HasEmptySpan(toks)
    ensures Read(toks).bare > 0 <==> toks != [] && toks[|toks| - 1].Open?
    ensures Read(toks).bare > 0 ==>
            Read(toks).open != [] && Read(toks).open[|Read(toks).open| - 1] == toks[|toks| - 1].code
  {
    if toks != [] {
      var less, t := toks[..|toks| - 1], toks[|toks| - 1];
      assert toks == less + [t];
      Append(less, t);
      EmptySpanMeans(less);
      AppendEmptySpan(less, t);
      hide Read, HasEmptySpan;
    }
  }
}
