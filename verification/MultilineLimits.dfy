/** The limits of a planned message in plain numbers. */
module MultilineLimits {
  import opened Multiline

  /** What a batch says: its frames, a newline between any two. */
  ghost function Content(b: Batch): string {
    if b == [] then ""
    else if |b| == 1 then b[0].text
    else Content(b[..|b| - 1]) + "\n" + b[|b| - 1].text
  }

  lemma {:induction false} SizeIsContent(b: Batch)
    requires b != []
    ensures Size(b) == |Content(b)|
  {
    if |b| > 1 {
      SizeIsContent(b[..|b| - 1]);
    } else {
      assert b[..0] == [] && TextBytes([]) == 0;
    }
  }

  /** A batch that may be sent: as many frames as negotiated, and unless it is one frame, as many
      bytes; a limit below 1 stands for one frame, or for 350 bytes. */
  ghost predicate MayBeSent(b: Batch, maxLines: int, maxBytes: int) {
    && b != []
    && (if maxLines >= 1 then |b| <= maxLines else |b| == 1)
    && (|b| == 1 || |Content(b)| <= if maxBytes >= 1 then maxBytes else 350)
  }

  lemma AllowedExactly(b: Batch, maxLines: int, maxBytes: int)
    ensures Allowed(b, LineLimit(maxLines), ByteLimit(maxBytes)) <==> MayBeSent(b, maxLines, maxBytes)
  {
    if b != [] {
      SizeIsContent(b);
    }
  }

  /** Every batch of a plan may be sent as negotiated, none would have had room for the next
      frame, and no frame is longer than 350 bytes. */
  lemma PlanLimits(lines: seq<string>, out: seq<Batch>, maxLines: int, maxBytes: int)
    requires Flatten(out) == FramesOf(lines)
    requires AllAllowed(out, LineLimit(maxLines), ByteLimit(maxBytes))
    requires Greedy(out, LineLimit(maxLines), ByteLimit(maxBytes))
    ensures forall i :: 0 <= i < |out| ==> MayBeSent(out[i], maxLines, maxBytes)
    ensures forall i :: 0 < i < |out| ==> !MayBeSent(out[i - 1] + [out[i][0]], maxLines, maxBytes)
    ensures forall f :: f in FramesOf(lines) ==> |f.text| <= 350
  {
    hide Allowed, MayBeSent, Flatten, LineLimit, ByteLimit;
    FramesFit(lines);
    forall i | 0 <= i < |out|
      ensures out[i] != [] && MayBeSent(out[i], maxLines, maxBytes)
    {
      assert out[i] in out;
      AllowedExactly(out[i], maxLines, maxBytes);
    }
    forall i | 0 < i < |out|
      ensures !MayBeSent(out[i - 1] + [out[i][0]], maxLines, maxBytes)
    {
      AllowedExactly(out[i - 1] + [out[i][0]], maxLines, maxBytes);
    }
  }

  /** A line of up to 350 bytes is one frame. The first frame of a longer one ends after its last
      space in the first 350 bytes, if there is one behind the first byte, and else is full; the
      rest is cut the same way and continues it. */
  lemma CutAtSpaces(ln: string)
    ensures |ln| <= 350 ==> LineFrames(ln) == [Frame(ln, false)]
    ensures |ln| > 350 ==>
              var n := ChunkLen(ln);
              && LineFrames(ln) == [Frame(ln[..n], false)] + Chunks(ln[n..], false)
              && 0 < n <= 350 && (forall m :: n <= m < 350 ==> ln[m] != ' ')
              && (n < 350 ==> n > 1 && ln[n - 1] == ' ')
              && (n == 350 ==> ln[349] == ' ' || forall m :: 0 < m < 350 ==> ln[m] != ' ')
  {
    if |ln| > 350 {
      ChunksStep(ln, true);
      var sp := LastSpace(ln[..350]);
      assert forall m :: sp < m < 350 ==> ln[..350][m] == ln[m];
    }
  }
}
