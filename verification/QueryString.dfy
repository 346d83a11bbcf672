/** The query of a connection string, read so that a value may hold a raw '&'. */
module QueryString {
  import opened Basics

  // ---------- splitting ----------

  /** The parts between the '&'s. */
  function Split(s: string): (parts: seq<string>)
    ensures parts != []
  {
    if s == "" then [""]
    else
      var rest := Split(s[1..]);
      if s[0] == '&' then [""] + rest else [[s[0]] + rest[0]] + rest[1..]
  }

  /** The place of the first '=', or the length if there is none. */
  function FirstEq(s: string): (i: nat)
    ensures i <= |s| && (forall j :: 0 <= j < i ==> s[j] != '=') && (i < |s| ==> s[i] == '=')
  {
    if s == "" || s[0] == '=' then 0 else 1 + FirstEq(s[1..])
  }

  lemma {:induction false} SplitJoined(a: string, b: string)
    ensures Split(a + "&" + b) == Split(a) + Split(b)
  {
    if a == "" {
      assert a + "&" + b == "&" + b && ("&" + b)[1..] == b;
    } else {
      assert (a + "&" + b)[1..] == a[1..] + "&" + b;
      SplitJoined(a[1..], b);
    }
  }

  lemma {:induction false} OnePart(s: string)
    requires '&' !in s
    ensures Split(s) == [s]
  {
    if s != "" {
      OnePart(s[1..]);
      assert s == [s[0]] + s[1..];
    }
  }

  lemma {:induction false} PartsAreFree(s: string)
    ensures forall p :: p in Split(s) ==> '&' !in p && (forall c :: c in p ==> c in s)
  {
    if s != "" {
      PartsAreFree(s[1..]);
      var rest := Split(s[1..]);
      assert rest == [rest[0]] + rest[1..];
      assert s == [s[0]] + s[1..];
    }
  }

  lemma {:induction false} SplitPrefixed(a: string, b: string)
    requires '&' !in a
    ensures Split(a + b) == [a + Split(b)[0]] + Split(b)[1..]
  {
    if a == "" {
      assert a + b == b && a + Split(b)[0] == Split(b)[0];
      assert Split(b) == [Split(b)[0]] + Split(b)[1..];
    } else {
      assert (a + b)[1..] == a[1..] + b;
      SplitPrefixed(a[1..], b);
      assert a == [a[0]] + a[1..];
      assert [a[0]] + (a[1..] + Split(b)[0]) == a + Split(b)[0];
    }
  }

  // ---------- escapes ----------

  function HexValue(c: char): Option<nat> {
    if '0' <= c <= '9' then Some(c as nat - '0' as nat)
    else if 'a' <= c <= 'f' then Some(c as nat - 'a' as nat + 10)
    else if 'A' <= c <= 'F' then Some(c as nat - 'A' as nat + 10)
    else None
  }

  /** Decodes %XX; None if an escape is malformed. */
  function Unescape(s: string): Option<string> {
    if s == "" then Some("")
    else if s[0] != '%' then
      var rest := Unescape(s[1..]);
      if rest.Some? then Some([s[0]] + rest.value) else None
    else if |s| < 3 || HexValue(s[1]).None? || HexValue(s[2]).None? then None
    else
      var rest := Unescape(s[3..]);
      if rest.Some? then Some([(HexValue(s[1]).value * 16 + HexValue(s[2]).value) as char] + rest.value) else None
  }

  function UnescapeLoose(s: string): string {
    if Unescape(s).Some? then Unescape(s).value else s
  }

  lemma {:induction false} UnescapeShrinks(s: string)
    ensures Unescape(s).Some? ==> |Unescape(s).value| <= |s|
    ensures Unescape(s).Some? && '%' in s ==> |Unescape(s).value| < |s|
    ensures '%' !in s ==> Unescape(s) == Some(s)
  {
    if s != "" {
      assert s == [s[0]] + s[1..];
      if s[0] != '%' {
        UnescapeShrinks(s[1..]);
      } else if |s| >= 3 {
        UnescapeShrinks(s[3..]);
      }
    }
  }

  /** A character of one byte as a writer of URLs escapes it. */
  ghost function Escaped(c: char): string
    requires c as int < 256
  {
    var digits := "0123456789ABCDEF";
    ['%', digits[c as int / 16], digits[c as int % 16]]
  }

  ghost function EscapedAll(s: string): string
    requires forall c :: c in s ==> c as int < 256
  {
    if s == "" then "" else
      assert s[0] in s && forall c :: c in s[1..] ==> c in s;
      Escaped(s[0]) + EscapedAll(s[1..])
  }

  /** A digit counts what it stands for, in either case. */
  lemma HexDigits(d: nat)
    requires d < 16
    ensures HexValue("0123456789ABCDEF"[d]) == Some(d) == HexValue("0123456789abcdef"[d])
    ensures HexValue('G') == None == HexValue('g') && HexValue('/') == None == HexValue(':')
    ensures HexValue('@') == None == HexValue('`')
  {
  }

  lemma UnescapeOne(c: char, rest: string)
    requires c as int < 256 && Unescape(rest).Some?
    ensures Unescape(Escaped(c) + rest) == Some([c] + Unescape(rest).value)
  {
    hide HexValue;
    HexDigits(c as int / 16);
    HexDigits(c as int % 16);
    var e := Escaped(c);
    assert (e + rest)[3..] == rest && (e + rest)[0] == e[0] && (e + rest)[1] == e[1] && (e + rest)[2] == e[2];
    assert (c as int / 16 * 16 + c as int % 16) as char == c;
  }

  /** What was escaped is read back, character by character. */
  lemma {:induction false} UnescapeEscaped(s: string)
    requires forall c :: c in s ==> c as int < 256
    ensures Unescape(EscapedAll(s)) == Some(s)
  {
    if s != "" {
      assert s[0] in s && forall c :: c in s[1..] ==> c in s;
      UnescapeEscaped(s[1..]);
      UnescapeOne(s[0], EscapedAll(s[1..]));
      assert [s[0]] + s[1..] == s;
    }
  }

  /** A text is left alone exactly if it has no '%' or a malformed escape. */
  lemma LeftAlone(s: string)
    ensures UnescapeLoose(s) == s <==> '%' !in s || Unescape(s).None?
  {
    UnescapeShrinks(s);
  }

  // ---------- reading ----------

  const KNOWN: set<string> := {"name", "nick", "tls", "port", "sasl"}

  datatype State = State(out: map<string, string>, lastKey: string)

  predicate StartsPair(seg: string) {
    FirstEq(seg) < |seg| && ToLower(seg[..FirstEq(seg)]) in KNOWN
  }

  ghost function Step(st: State, seg: string): State {
    if StartsPair(seg) then
      var k := ToLower(seg[..FirstEq(seg)]);
      State(st.out[k := UnescapeLoose(seg[FirstEq(seg) + 1..])], k)
    else if st.lastKey != "" then
      var before := if st.lastKey in st.out then st.out[st.lastKey] else "";
      st.(out := st.out[st.lastKey := before + "&" + UnescapeLoose(seg)])
    else st
  }

  ghost function After(st: State, segs: seq<string>): State {
    if segs == [] then st else Step(After(st, segs[..|segs| - 1]), segs[|segs| - 1])
  }

  const START := State(map[], "")

  method ParseQueryTolerant(raw: string) returns (out: map<string, string>)
    ensures out == After(START, Split(raw)).out
  {
    hide UnescapeLoose, Split, FirstEq, ToLower;
    out := map[];
    var lastKey := "";
    var segs := Split(raw);
    for i := 0 to |segs|
      invariant State(out, lastKey) == After(START, segs[..i])
    {
      assert segs[..i + 1][..i] == segs[..i];
      var seg := segs[i];
      var eq := FirstEq(seg);
      if eq < |seg| && ToLower(seg[..eq]) in KNOWN {
        lastKey := ToLower(seg[..eq]);
        out := out[lastKey := UnescapeLoose(seg[eq + 1..])];
        continue;
      }
      if lastKey != "" {
        var before := if lastKey in out then out[lastKey] else "";
        out := out[lastKey := before + "&" + UnescapeLoose(seg)];
      }
    }
    assert segs[..|segs|] == segs;
  }

  // ---------- the round trip ----------

  datatype Pair = Pair(key: string, value: string)

  /** Known keys, none twice, and values without '%'. */
  ghost predicate Proper(pairs: seq<Pair>) {
    && (forall p :: p in pairs ==> p.key in KNOWN && '%' !in p.value)
    && (forall i, j :: 0 <= i < j < |pairs| ==> pairs[i].key != pairs[j].key)
  }

  ghost function Written(p: Pair): string {
    p.key + "=" + p.value
  }

  ghost function Write(pairs: seq<Pair>): string {
    if pairs == [] then ""
    else if |pairs| == 1 then Written(pairs[0])
    else Write(pairs[..|pairs| - 1]) + "&" + Written(pairs[|pairs| - 1])
  }

  ghost function Meant(pairs: seq<Pair>): map<string, string> {
    if pairs == [] then map[]
    else Meant(pairs[..|pairs| - 1])[pairs[|pairs| - 1].key := pairs[|pairs| - 1].value]
  }

  /** No part of the value after its first '&' looks like a pair of its own. */
  ghost predicate Clean(value: string) {
    forall j :: 1 <= j < |Split(value)| ==> !StartsPair(Split(value)[j])
  }

  lemma {:induction false} AfterConcat(st: State, a: seq<string>, b: seq<string>)
    ensures After(st, a + b) == After(After(st, a), b)
  {
    hide Step;
    if b == [] {
      assert a + b == a;
    } else {
      var n := |b| - 1;
      assert (a + b)[..|a| + n] == a + b[..n] && (a + b)[|a| + n] == b[n];
      AfterConcat(st, a, b[..n]);
    }
  }

  lemma KnownKeys(k: string)
    requires k in KNOWN
    ensures '&' !in k && '=' !in k && ToLower(k) == k && k != ""
  {
    assert ToLower("name") == "name" && ToLower("nick") == "nick" && ToLower("tls") == "tls";
    assert ToLower("port") == "port" && ToLower("sasl") == "sasl";
  }

  lemma FirstEqAt(k: string, v: string)
    requires '=' !in k
    ensures FirstEq(k + "=" + v) == |k|
    ensures (k + "=" + v)[..|k|] == k && (k + "=" + v)[|k| + 1..] == v
  {
    var s := k + "=" + v;
    assert s[|k|] == '=';
    assert forall j :: 0 <= j < |k| ==> s[j] == k[j];
  }

  ghost function JoinAmp(segs: seq<string>): string
    requires segs != []
  {
    if |segs| == 1 then segs[0] else JoinAmp(segs[..|segs| - 1]) + "&" + segs[|segs| - 1]
  }

  lemma {:induction false} JoinCons(a: string, segs: seq<string>)
    requires segs != []
    ensures JoinAmp([a] + segs) == a + "&" + JoinAmp(segs)
  {
    var n := |segs| - 1;
    assert ([a] + segs)[..n + 1] == [a] + segs[..n];
    if n > 0 {
      JoinCons(a, segs[..n]);
    } else {
      assert [a] + segs == [a, segs[0]];
    }
  }

  lemma {:induction false} JoinSplit(s: string)
    ensures JoinAmp(Split(s)) == s
  {
    if s != "" {
      var rest := Split(s[1..]);
      JoinSplit(s[1..]);
      assert s == [s[0]] + s[1..];
      if s[0] == '&' {
        JoinCons("", rest);
      } else {
        JoinFirst([s[0]], rest);
      }
    }
  }

  lemma {:induction false} JoinFirst(a: string, segs: seq<string>)
    requires segs != []
    ensures JoinAmp([a + segs[0]] + segs[1..]) == a + JoinAmp(segs)
  {
    var n, longer := |segs| - 1, [a + segs[0]] + segs[1..];
    if n > 0 {
      JoinFirst(a, segs[..n]);
      assert longer[..n] == [a + segs[..n][0]] + segs[..n][1..];
      assert longer[n] == segs[n];
    }
  }

  /** Parts that start no pair are put back behind the value they belong to. */
  lemma {:induction false} Rejoins(st: State, segs: seq<string>)
    requires st.lastKey != "" && st.lastKey in st.out
    requires forall s :: s in segs ==> !StartsPair(s) && '%' !in s
    ensures After(st, segs) == st.(out := st.out[st.lastKey := JoinAmp([st.out[st.lastKey]] + segs)])
  {
    hide StartsPair, UnescapeLoose;
    var first := st.out[st.lastKey];
    if segs == [] {
      assert [first] + segs == [first];
    } else {
      var n := |segs| - 1;
      assert segs[n] in segs;
      Rejoins(st, segs[..n]);
      LeftAlone(segs[n]);
      assert ([first] + segs)[..n + 1] == [first] + segs[..n];
    }
  }

  lemma HeadRead(st: State, k: string, v: string)
    requires k in KNOWN && '%' !in v
    ensures Step(st, k + "=" + v) == State(st.out[k := v], k)
  {
    hide UnescapeLoose, ToLower, FirstEq;
    KnownKeys(k);
    FirstEqAt(k, v);
    LeftAlone(v);
  }

  lemma OneStep(st: State, seg: string)
    ensures After(st, [seg]) == Step(st, seg)
  {
    assert [seg][..0] == [];
  }

  /** Reading one written pair sets its key to its value, if the value is clean. */
  lemma PairRead(st: State, p: Pair)
    requires p.key in KNOWN && '%' !in p.value && Clean(p.value)
    ensures After(st, Split(Written(p))) == State(st.out[p.key := p.value], p.key)
  {
    hide UnescapeLoose, Split, JoinAmp, Step, After, StartsPair, ToLower;
    var parts, k := Split(p.value), p.key;
    KnownKeys(k);
    SplitPrefixed(k + "=", p.value);
    PartsAreFree(p.value);
    var head := k + "=" + parts[0];
    assert parts[0] in parts;
    HeadRead(st, k, parts[0]);
    OneStep(st, head);
    AfterConcat(st, [head], parts[1..]);
    forall s | s in parts[1..]
      ensures !StartsPair(s) && '%' !in s
    {
      var j :| 0 <= j < |parts| - 1 && parts[1..][j] == s;
      assert parts[j + 1] == s && s in parts;
    }
    Rejoins(State(st.out[k := parts[0]], k), parts[1..]);
    assert [parts[0]] + parts[1..] == parts;
    JoinSplit(p.value);
  }

  lemma {:induction false} CleanRead(pairs: seq<Pair>)
    requires Proper(pairs) && forall p :: p in pairs ==> Clean(p.value)
    ensures After(START, Split(Write(pairs))).out == Meant(pairs)
  {
    hide Clean, Written, Split;
    if pairs == [] {
      NothingRead();
    } else {
      var before, p := pairs[..|pairs| - 1], pairs[|pairs| - 1];
      assert p in pairs;
      if before == [] {
        PairRead(START, p);
      } else {
        CleanRead(before);
        SplitJoined(Write(before), Written(p));
        AfterConcat(START, Split(Write(before)), Split(Written(p)));
        PairRead(After(START, Split(Write(before))), p);
      }
    }
  }

  lemma NothingRead()
    ensures After(START, Split("")) == START
  {
    assert Split("") == [""] && [""][..0] == [];
  }

  lemma {:induction false} EscapedChars(s: string)
    requires forall c :: c in s ==> c as int < 256
    ensures '&' !in EscapedAll(s) && '=' !in EscapedAll(s)
  {
    if s != "" {
      assert s[0] in s && forall c :: c in s[1..] ==> c in s;
      EscapedChars(s[1..]);
      assert forall i :: 0 <= i < 16 ==> "0123456789ABCDEF"[i] != '&' && "0123456789ABCDEF"[i] != '=';
    }
  }

  lemma NoEqualsNoPair(s: string)
    requires '=' !in s
    ensures !StartsPair(s)
  {
  }

  /** An escaped value is read back whatever is in it, and so is what follows a raw '&'. */
  lemma EscapedPairRead(k: string, v: string, w: string)
    requires k in KNOWN && (forall c :: c in v ==> c as int < 256) && (forall c :: c in w ==> c as int < 256)
    ensures After(START, Split(k + "=" + EscapedAll(v))).out == map[k := v]
    ensures After(START, Split(k + "=" + EscapedAll(v) + "&" + EscapedAll(w))).out == map[k := v + "&" + w]
  {
    hide Split, Unescape, ToLower, EscapedAll, After, StartsPair, FirstEq;
    var pair, more := k + "=" + EscapedAll(v), EscapedAll(w);
    KnownKeys(k);
    EscapedChars(v);
    EscapedChars(w);
    UnescapeEscaped(v);
    UnescapeEscaped(w);
    OnePart(pair);
    OnePart(more);
    SplitJoined(pair, more);
    HeadIs(START, k, EscapedAll(v));
    OneStep(START, pair);
    var st := State(START.out[k := v], k);
    AfterConcat(START, [pair], [more]);
    OneStep(st, more);
    NoEqualsNoPair(more);
    assert Step(st, more).out == map[k := v + "&" + w];
  }

  lemma HeadIs(st: State, k: string, v: string)
    requires k in KNOWN
    ensures Step(st, k + "=" + v) == State(st.out[k := UnescapeLoose(v)], k)
  {
    hide UnescapeLoose, ToLower, FirstEq;
    KnownKeys(k);
    FirstEqAt(k, v);
  }

  ghost predicate AllClean(st: State) {
    && (st.lastKey != "" ==> st.lastKey in st.out)
    && forall k :: k in st.out ==> Clean(st.out[k])
  }

  /** Whatever is read from a text without '%' is clean. */
  lemma {:induction false} ReadIsClean(segs: seq<string>)
    requires forall s :: s in segs ==> '%' !in s && '&' !in s
    ensures AllClean(After(START, segs))
  {
    hide Clean, UnescapeLoose, Split, FirstEq;
    if segs != [] {
      var before, seg := segs[..|segs| - 1], segs[|segs| - 1];
      ReadIsClean(before);
      assert seg in segs;
      var st := After(START, before);
      if StartsPair(seg) {
        var v := seg[FirstEq(seg) + 1..];
        assert forall c :: c in v ==> c in seg;
        LeftAlone(v);
        OneIsClean(v);
      } else if st.lastKey != "" {
        LeftAlone(seg);
        LongerIsClean(st.out[st.lastKey], seg);
      }
    }
  }

  lemma OneIsClean(v: string)
    requires '&' !in v
    ensures Clean(v)
  {
    OnePart(v);
  }

  lemma LongerIsClean(v: string, seg: string)
    requires Clean(v) && '&' !in seg && !StartsPair(seg)
    ensures Clean(v + "&" + seg)
  {
    hide StartsPair;
    SplitJoined(v, seg);
    OnePart(seg);
    forall j | 1 <= j < |Split(v + "&" + seg)|
      ensures !StartsPair(Split(v + "&" + seg)[j])
    {
    }
  }

  lemma {:induction false} NoPercent(pairs: seq<Pair>)
    requires Proper(pairs)
    ensures '%' !in Write(pairs)
  {
    if pairs != [] {
      var before, p := pairs[..|pairs| - 1], pairs[|pairs| - 1];
      assert p in pairs;
      NoPercent(before);
      assert forall k :: k in KNOWN ==> '%' !in k;
    }
  }

  lemma {:induction false} MeantHas(pairs: seq<Pair>)
    requires Proper(pairs)
    ensures forall p :: p in pairs ==> p.key in Meant(pairs) && Meant(pairs)[p.key] == p.value
  {
    if pairs != [] {
      var before, last := pairs[..|pairs| - 1], pairs[|pairs| - 1];
      assert pairs == before + [last];
      MeantHas(before);
      forall p | p in before
        ensures p.key != last.key
      {
        var i :| 0 <= i < |before| && before[i] == p;
        assert pairs[i].key != pairs[|pairs| - 1].key;
      }
    }
  }

  /** Written pairs are read back exactly if no value has an inner part that looks like a pair. */
  lemma RoundTrip(pairs: seq<Pair>)
    requires Proper(pairs)
    ensures After(START, Split(Write(pairs))).out == Meant(pairs) <==> forall p :: p in pairs ==> Clean(p.value)
  {
    hide Clean, Split, After, Write, Meant;
    var segs := Split(Write(pairs));
    if forall p :: p in pairs ==> Clean(p.value) {
      CleanRead(pairs);
    } else if After(START, segs).out == Meant(pairs) {
      NoPercent(pairs);
      PartsAreFree(Write(pairs));
      ReadIsClean(segs);
      MeantHas(pairs);
    }
  }
}
