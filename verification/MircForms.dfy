/** What the translator writes, byte by byte, for the forms formatted text comes in. */
module MircForms {
  import opened Bytes
  import opened MircScan
  import opened Markdown
  import opened MircTranslate

  /** No control byte of the formatting set, and one line. */
  ghost predicate Plain(t: seq<byte>) {
    forall b :: b in t ==> b !in {0x02, 0x03, 0x04, 0x0a, 0x0f, 0x11, 0x16, 0x1d, 0x1e, 0x1f}
  }

  ghost function Texts(t: seq<byte>): seq<Token> {
    seq(|t|, i requires 0 <= i < |t| => Text(t[i]))
  }

  lemma {:induction false} PlainSpelled(t: seq<byte>, rest: seq<byte>, toks: seq<Token>)
    requires Plain(t)
    ensures Spelled(t + rest, toks) == Spelled(rest, toks + Texts(t))
    decreases |t|
  {
    hide Finished, ToggledStream;
    if t == [] {
      assert t + rest == rest && toks + Texts(t) == toks;
    } else {
      assert t[0] in t && (t + rest)[1..] == t[1..] + rest;
      assert forall b :: b in t[1..] ==> b in t;
      PlainSpelled(t[1..], rest, toks + [Text(t[0])]);
      assert Texts(t) == [Text(t[0])] + Texts(t[1..]);
      assert toks + Texts(t) == (toks + [Text(t[0])]) + Texts(t[1..]);
    }
  }

  lemma {:induction false} PlainRead(toks: seq<Token>, t: seq<byte>)
    ensures var r, after := Read(toks), Read(toks + Texts(t));
            && after.bytes == r.bytes + t && after.open == r.open
            && after.bare == (if t == [] then r.bare else 0)
  {
    hide Read;
    if t == [] {
      assert toks + Texts(t) == toks && Read(toks).bytes + t == Read(toks).bytes;
    } else {
      var n := |t| - 1;
      PlainRead(toks, t[..n]);
      Append(toks + Texts(t[..n]), Text(t[n]));
      assert toks + Texts(t) == toks + Texts(t[..n]) + [Text(t[n])];
      assert Read(toks).bytes + t == (Read(toks).bytes + t[..n]) + [t[n]];
    }
  }

  /** One span with text in it, switched off, reset, ended by a line or by the text's end. */
  lemma SpanClosed(toks: seq<Token>, c: byte)
    requires IsCode(c) && Read(toks).open == [c] && Read(toks).bare == 0
    ensures ToggledStream(toks, c) == toks + [Close(c)] == Finished(toks)
    ensures var r := Read(toks + [Close(c)]); r.bytes == Read(toks).bytes + Delim(c) && r.open == [] && r.bare == 0
  {
    hide Read;
    Append(toks, Close(c));
    assert IndexOf([c], c) == 0 && [c][1..] == [];
    assert toks[..|toks| - 0] == toks;
    assert ClosedInner(toks, 1) == ClosedInnermost(ClosedInner(toks, 0)) == toks + [Close(c)];
  }

  lemma NothingOpen(toks: seq<Token>)
    requires Read(toks).open == [] && Read(toks).bare == 0
    ensures Finished(toks) == toks
  {
    assert toks[..|toks| - 0] == toks;
  }

  /** A span opened and filled with plain text. */
  lemma SpanFilled(c: byte, t: seq<byte>, rest: seq<byte>)
    requires IsCode(c) && Plain(t) && t != []
    ensures var toks := [Open(c)] + Texts(t);
            && Spelled([c] + t + rest, []) == Spelled(rest, toks)
            && Read(toks).bytes == Delim(c) + t && Read(toks).open == [c] && Read(toks).bare == 0
  {
    hide Read, Finished;
    NothingIsRead();
    Append([], Open(c));
    assert [] + [Open(c)] == [Open(c)] && [] + Delim(c) == Delim(c);
    assert ([c] + t + rest)[1..] == t + rest;
    assert ToggledStream([], c) == [Open(c)];
    PlainSpelled(t, rest, [Open(c)]);
    PlainRead([Open(c)], t);
  }

  /** However a format ends, its text is between its delimiters: switched off again, reset, or
      with the text, and what is plain behind it stays plain; a new line ends it as well. */
  lemma OneFormat(c: byte, t: seq<byte>, u: seq<byte>)
    requires IsCode(c) && Plain(t) && t != [] && Plain(u)
    ensures Markdowned([c] + t) == Delim(c) + t + Delim(c)
    ensures Markdowned([c] + t + ([c] + u)) == Delim(c) + t + Delim(c) + u
    ensures Markdowned([c] + t + ([0x0f] + u)) == Delim(c) + t + Delim(c) + u
    ensures Markdowned([c] + t + ([0x0a] + u)) == Delim(c) + t + Delim(c) + ([0x0a] + u)
  {
    hide Read, Finished, ToggledStream;
    var toks := [Open(c)] + Texts(t);
    var closed := toks + [Close(c)];
    SpanFilled(c, t, []);
    SpanClosed(toks, c);
    assert [c] + t + [] == [c] + t;
    SpanFilled(c, t, [c] + u);
    SpanFilled(c, t, [0x0f] + u);
    SpanFilled(c, t, [0x0a] + u);
    assert ([c] + u)[1..] == u && ([0x0f] + u)[1..] == u && ([0x0a] + u)[1..] == u;
    PlainAfter(closed, u);
    Append(closed, Text(0x0a));
    PlainAfter(closed + [Text(0x0a)], u);
    assert (Read(closed).bytes + [0x0a]) + u == Read(closed).bytes + ([0x0a] + u);
  }

  lemma PlainAfter(toks: seq<Token>, u: seq<byte>)
    requires Read(toks).open == [] && Read(toks).bare == 0 && Plain(u)
    ensures Read(Spelled(u, toks)).bytes == Read(toks).bytes + u
  {
    hide Read, Finished;
    PlainSpelled(u, [], toks);
    assert u + [] == u;
    PlainRead(toks, u);
    NothingOpen(toks + Texts(u));
  }

  /** The five formats: bold, italic, underline, strikethrough and monospace. */
  lemma FiveFormats(t: seq<byte>)
    requires Plain(t) && t != []
    ensures Markdowned([0x02] + t + [0x02]) == [42, 42] + t + [42, 42]
    ensures Markdowned([0x1d] + t + [0x1d]) == [42] + t + [42]
    ensures Markdowned([0x1f] + t + [0x1f]) == [95, 95] + t + [95, 95]
    ensures Markdowned([0x1e] + t + [0x1e]) == [126, 126] + t + [126, 126]
    ensures Markdowned([0x11] + t + [0x11]) == [96] + t + [96]
  {
    hide Markdowned;
    Twice(0x02, t);
    Twice(0x1d, t);
    Twice(0x1f, t);
    Twice(0x1e, t);
    Twice(0x11, t);
  }

  lemma Twice(c: byte, t: seq<byte>)
    requires IsCode(c) && Plain(t) && t != []
    ensures Markdowned([c] + t + [c]) == Delim(c) + t + Delim(c)
  {
    hide Markdowned;
    OneFormat(c, t, []);
    assert [c] + [] == [c];
    assert Delim(c) + t + Delim(c) + [] == Delim(c) + t + Delim(c);
  }

  /** Reversed text and colours with their parameters leave nothing but the text behind: here
      `09,90` in decimal and `fF09aA` in hexadecimal digits, whatever follows; but a comma behind
      the latter would go on. */
  lemma ColoursDropped(t: seq<byte>)
    requires Plain(t) && (t == [] || t[0] != 44)
    ensures Markdowned([0x16] + t) == t
    ensures Markdowned([0x03] + ([48, 57, 44, 57, 48] + t)) == t
    ensures Markdowned([0x04] + ([102, 70, 48, 57, 97, 65] + t)) == t
  {
    hide Markdowned;
    Dropped(0x16, [], t);
    assert [] + t == t;
    DecimalRun(t);
    Dropped(0x03, [48, 57, 44, 57, 48], t);
    HexadecimalRun(t);
    Dropped(0x04, [102, 70, 48, 57, 97, 65], t);
  }

  lemma Dropped(c: byte, x: seq<byte>, t: seq<byte>)
    requires Plain(t) && c in {0x16, 0x03, 0x04}
    requires |x| == if c == 0x16 then 0 else ColourLen(c == 0x04, x + t)
    ensures Markdowned([c] + (x + t)) == t
  {
    hide Read, Spelled, ColourLen, AfterControl, Shown, SplitsEmptySpan;
    PlainMarkdown(t);
    var s := [c] + (x + t);
    RestIs(c, x, t);
    DroppedStep(s, [], {}, [], 0);
  }

  lemma RestIs(c: byte, x: seq<byte>, t: seq<byte>)
    requires c in {0x16, 0x03, 0x04}
    requires |x| == if c == 0x16 then 0 else ColourLen(c == 0x04, x + t)
    ensures var s := [c] + (x + t); AfterControl(s) == t && IsDropped(s[0])
  {
    hide ColourLen;
    var s := [c] + (x + t);
    assert s[1..] == x + t && s[1 + |x|..] == t;
  }

  lemma DecimalRun(t: seq<byte>)
    ensures ColourLen(false, [48, 57, 44, 57, 48] + t) == 5
  {
    var s := [48, 57, 44, 57, 48] + t;
    assert s[0] == 48 && s[1] == 57 && s[2] == 44 && s[3] == 57 && s[4] == 48;
    ScannedIsLongest(false, 2, s, 2, 5, 5);
    LongestIsOne(false, 2, s, ColourLen(false, s), 5);
  }

  lemma HexadecimalRun(t: seq<byte>)
    requires t == [] || t[0] != 44
    ensures ColourLen(true, [102, 70, 48, 57, 97, 65] + t) == 6
  {
    var s := [102, 70, 48, 57, 97, 65] + t;
    assert forall i :: 0 <= i < 6 ==> IsHex(s[i]);
    ScannedIsLongest(true, 6, s, 6, 0, 6);
    LongestIsOne(true, 6, s, ColourLen(true, s), 6);
  }

  /** An action is its text in italics; another CTCP message is its payload. */
  lemma CtcpForms(t: seq<byte>)
    requires Plain(t)
    ensures Formatted([0x01] + ([65, 67, 84, 73, 79, 78, 32] + t) + [0x01]) == [42] + t + [42]
    ensures !([65, 67, 84, 73, 79, 78] <= t) ==> Formatted([0x01] + t + [0x01]) == t
    ensures 0x01 !in t ==> Formatted(t) == t
  {
    hide Markdowned, IsAction;
    PlainMarkdown(t);
    ActionBody(t);
    BodyOf([65, 67, 84, 73, 79, 78, 32] + t);
    BodyOf(t);
    assert t != [] ==> t[0] in t;
  }

  lemma PlainMarkdown(t: seq<byte>)
    requires Plain(t)
    ensures Markdowned(t) == t
  {
    hide Read, Finished;
    NothingIsRead();
    PlainAfter([], t);
    assert [] + t == t;
  }

  lemma BodyOf(body: seq<byte>)
    ensures CtcpBody([0x01] + body + [0x01]) == body
  {
    var s := [0x01] + body + [0x01];
    assert s[1..] == body + [0x01] && (body + [0x01])[..|body|] == body;
  }

  lemma ActionBody(t: seq<byte>)
    ensures var body := [65, 67, 84, 73, 79, 78, 32] + t; IsAction(body) && TrimSpace(body[|ACTION|..]) == t
    ensures IsAction(t) ==> [65, 67, 84, 73, 79, 78] <= t
  {
    var body := [65, 67, 84, 73, 79, 78, 32] + t;
    assert body[6..] == [32] + t && ([32] + t)[1..] == t;
  }
}
