/** Opaque protobuf settings blobs: splitting the wire format into top-level records, and
    merging two blobs record by record. */
module SettingsProto {
  import opened Bytes
  import opened Ordered

  datatype Error = BadTag | BadVarint | ShortFixed64 | BadLength | ShortFixed32 | Unsupported(wire: nat)

  datatype Result<+T> = Ok(value: T) | Err(error: Error)

  // ---------- varints ----------

  /** A decoded varint and the bytes it took; `NoVarint` for one cut short or over 64 bits. */
  datatype Varint = Varint(value: nat, len: nat) | NoVarint

  const MAX_VARINT_LEN: nat := 10

  /** Base 128 varints, the `i`th byte of one at the front of `b`. */
  function Uvarint(b: seq<byte>, i: nat := 0): (v: Varint)
    ensures v.Varint? ==> 0 < v.len <= |b| && i + v.len <= MAX_VARINT_LEN
    decreases |b|
  {
    if b == [] || i >= MAX_VARINT_LEN then NoVarint
    else if b[0] < 128 then
      if i == MAX_VARINT_LEN - 1 && b[0] > 1 then NoVarint else Varint(b[0], 1)
    else
      match Uvarint(b[1..], i + 1)
      case NoVarint => NoVarint
      case Varint(value, len) => Varint(b[0] - 128 + 128 * value, len + 1)
  }

  /** A varint is decided by its own bytes. */
  lemma {:induction false} UvarintLocal(b: seq<byte>, c: seq<byte>, i: nat)
    requires Uvarint(b, i).Varint?
    requires Uvarint(b, i).len <= |c| && c[..Uvarint(b, i).len] == b[..Uvarint(b, i).len]
    ensures Uvarint(c, i) == Uvarint(b, i)
    decreases |b|
  {
    assert c[0] == c[..1][0] == b[0] by {
      assert c[0] == c[..Uvarint(b, i).len][0];
      assert b[0] == b[..Uvarint(b, i).len][0];
    }
    if b[0] >= 128 {
      var n := Uvarint(b, i).len;
      assert c[1..][..n - 1] == c[..n][1..];
      assert b[1..][..n - 1] == b[..n][1..];
      UvarintLocal(b[1..], c[1..], i + 1);
    }
  }

  /** How large a number may be whose first varint byte is the `i`th: 2 to the 64 - 7i. */
  ghost function Cap(i: nat): (c: nat)
    requires i < MAX_VARINT_LEN
    ensures c >= 2
    decreases MAX_VARINT_LEN - i
  {
    if i == MAX_VARINT_LEN - 1 then 2 else 128 * Cap(i + 1)
  }

  /** The varint a protobuf writer makes of a number: seven bits a byte, lowest first. */
  ghost function PutUvarint(x: nat): seq<byte> {
    if x < 128 then [x] else [x % 128 + 128] + PutUvarint(x / 128)
  }

  /** Every 64-bit number is read back from its varint, whatever follows it. */
  lemma {:induction false} VarintRoundTrip(x: nat, rest: seq<byte>, i: nat)
    requires i < MAX_VARINT_LEN && x < Cap(i)
    ensures Uvarint(PutUvarint(x) + rest, i) == Varint(x, |PutUvarint(x)|)
    decreases x
  {
    var b := PutUvarint(x) + rest;
    if x >= 128 {
      assert b[1..] == PutUvarint(x / 128) + rest;
      VarintRoundTrip(x / 128, rest, i + 1);
    }
  }

  /** What is read fits in 64 bits. */
  lemma {:induction false} VarintFits(b: seq<byte>, i: nat)
    requires i < MAX_VARINT_LEN && Uvarint(b, i).Varint?
    ensures Uvarint(b, i).value < Cap(i)
    decreases |b|
  {
    if b[0] >= 128 {
      VarintFits(b[1..], i + 1);
    }
  }

  // ---------- records ----------

  /** One top-level record: its field number and its bytes, tag included. */
  datatype Field = Field(num: int, raw: seq<byte>)

  /** The field number and the length of the record at the front of a message. */
  datatype Head = Head(num: int, len: nat)

  /** The length of a record's payload, by wire type. */
  function PayloadLen(wire: nat, b: seq<byte>): (r: Result<nat>)
    ensures r.Ok? ==> r.value <= |b|
  {
    if wire == 0 then
      match Uvarint(b)
      case NoVarint => Err(BadVarint)
      case Varint(_, m) => Ok(m)
    else if wire == 1 then
      if |b| < 8 then Err(ShortFixed64) else Ok(8)
    else if wire == 2 then
      match Uvarint(b)
      case NoVarint => Err(BadLength)
      case Varint(l, m) => if |b| - m < l then Err(BadLength) else Ok(m + l)
    else if wire == 5 then
      if |b| < 4 then Err(ShortFixed32) else Ok(4)
    else Err(Unsupported(wire))
  }

  function Record(b: seq<byte>): (r: Result<Head>)
    ensures r.Ok? ==> 0 < r.value.len <= |b| && r.value.num > 0
  {
    match Uvarint(b)
    case NoVarint => Err(BadTag)
    case Varint(tag, n) =>
      if tag / 8 == 0 then Err(BadTag)
      else
        match PayloadLen(tag % 8, b[n..])
        case Err(e) => Err(e)
        case Ok(m) => Ok(Head(tag / 8, n + m))
  }

  /** A record is decided by its own bytes, whatever follows it. */
  lemma RecordLocal(b: seq<byte>, c: seq<byte>)
    requires Record(b).Ok?
    requires Record(b).value.len <= |c| && c[..Record(b).value.len] == b[..Record(b).value.len]
    ensures Record(c) == Record(b)
  {
    hide Uvarint;
    var len := Record(b).value.len;
    var n := Uvarint(b).len;
    assert c[..n] == c[..len][..n] && b[..n] == b[..len][..n];
    UvarintLocal(b, c, 0);
    var wire := Uvarint(b).value % 8;
    var x, y := b[n..], c[n..];
    if wire == 0 || wire == 2 {
      var m := Uvarint(x).len;
      assert x[..m] == b[..len][n..n + m] && y[..m] == c[..len][n..n + m];
      UvarintLocal(x, y, 0);
    }
  }

  // ---------- splitting ----------

  function Split(b: seq<byte>): Result<seq<Field>>
    decreases |b|
  {
    if b == [] then Ok([])
    else
      match Record(b)
      case Err(e) => Err(e)
      case Ok(h) =>
        match Split(b[h.len..])
        case Err(e) => Err(e)
        case Ok(fields) => Ok([Field(h.num, b[..h.len])] + fields)
  }

  lemma SplitHead(b: seq<byte>)
    ensures b == [] ==> Split(b) == Ok([])
    ensures b != [] && Record(b).Err? ==> Split(b) == Err(Record(b).error)
    ensures b != [] && Record(b).Ok? ==>
              var h, rest := Record(b).value, Split(b[Record(b).value.len..]);
              Split(b) == if rest.Err? then rest else Ok([Field(h.num, b[..h.len])] + rest.value)
  {
  }

  lemma CutMore(b: seq<byte>, n: nat, m: nat)
    requires n + m <= |b|
    ensures b[..n] + b[n..][..m] == b[..n + m] && b[n..][m..] == b[n + m..]
  {
  }

  method SplitProtoFields(blob: seq<byte>) returns (r: Result<seq<Field>>)
    ensures r == Split(blob)
  {
    hide Split, Uvarint, After;
    var b, out := blob, [];
    NothingBefore(blob);
    while |b| > 0
      invariant Split(blob) == After(out, Split(b))
      decreases |b|
    {
      ghost var whole := b;
      SplitStep(out, b);
      var tagged := Uvarint(b);
      if tagged.NoVarint? || tagged.value / 8 == 0 {
        return Err(BadTag);
      }
      var rec := b[..tagged.len];
      b := b[tagged.len..];
      match tagged.value % 8 {
        case 0 =>
          var v := Uvarint(b);
          if v.NoVarint? {
            return Err(BadVarint);
          }
          CutMore(whole, tagged.len, v.len);
          rec := rec + b[..v.len];
          b := b[v.len..];
        case 1 =>
          if |b| < 8 {
            return Err(ShortFixed64);
          }
          CutMore(whole, tagged.len, 8);
          rec := rec + b[..8];
          b := b[8..];
        case 2 =>
          var v := Uvarint(b);
          if v.NoVarint? || |b| - v.len < v.value {
            return Err(BadLength);
          }
          CutMore(whole, tagged.len, v.len + v.value);
          rec := rec + b[..v.len + v.value];
          b := b[v.len + v.value..];
        case 5 =>
          if |b| < 4 {
            return Err(ShortFixed32);
          }
          CutMore(whole, tagged.len, 4);
          rec := rec + b[..4];
          b := b[4..];
        case wire =>
          return Err(Unsupported(wire));
      }
      out := out + [Field(tagged.value / 8, rec)];
    }
    NothingAfter(out);
    return Ok(out);
  }

  /** A split whose first records are `out` and whose rest is `r`. */
  ghost function After(out: seq<Field>, r: Result<seq<Field>>): Result<seq<Field>> {
    match r
    case Err(e) => Err(e)
    case Ok(fields) => Ok(out + fields)
  }

  lemma NothingBefore(b: seq<byte>)
    ensures After([], Split(b)) == Split(b)
  {
    assert forall fields: seq<Field> :: [] + fields == fields;
  }

  lemma NothingAfter(out: seq<Field>)
    ensures After(out, Split([])) == Ok(out)
  {
    assert out + [] == out;
  }

  lemma SplitStep(out: seq<Field>, b: seq<byte>)
    requires b != []
    ensures After(out, Split(b)) ==
            if Record(b).Err? then Err(Record(b).error)
            else After(out + [Field(Record(b).value.num, b[..Record(b).value.len])], Split(b[Record(b).value.len..]))
  {
    if Record(b).Ok? {
      var h := Record(b).value;
      var f := Field(h.num, b[..h.len]);
      assert forall fields: seq<Field> :: (out + [f]) + fields == out + ([f] + fields);
    }
  }

  ghost function Raws(fields: seq<Field>): seq<byte> {
    if fields == [] then [] else fields[0].raw + Raws(fields[1..])
  }

  /** The bytes of a field are one whole record with that field's number. */
  ghost predicate WellFormed(f: Field) {
    Record(f.raw) == Ok(Head(f.num, |f.raw|))
  }

  ghost predicate AllWellFormed(fields: seq<Field>) {
    forall f :: f in fields ==> WellFormed(f)
  }

  /** Joining the records of an accepted blob gives the blob back. */
  lemma {:induction false} JoinUndoesSplit(b: seq<byte>)
    requires Split(b).Ok?
    ensures Raws(Split(b).value) == b
    ensures AllWellFormed(Split(b).value)
    decreases |b|
  {
    hide Split, Record;
    SplitHead(b);
    if b != [] {
      var h := Record(b).value;
      JoinUndoesSplit(b[h.len..]);
      RecordLocal(b, b[..h.len]);
      var fields := Split(b).value;
      assert fields[1..] == Split(b[h.len..]).value;
      assert b == b[..h.len] + b[h.len..];
    }
  }

  /** Splitting the concatenation of an accepted blob and any other one: the records of the
      first, then whatever the second gives. */
  lemma {:induction false} SplitConcat(a: seq<byte>, b: seq<byte>)
    requires Split(a).Ok?
    ensures Split(a + b) == if Split(b).Err? then Split(b) else Ok(Split(a).value + Split(b).value)
    decreases |a|
  {
    hide Split, Record;
    SplitHead(a);
    if a == [] {
      assert a + b == b;
      assert Split(b).Ok? ==> [] + Split(b).value == Split(b).value;
    } else {
      var h := Record(a).value;
      SplitHead(a + b);
      assert (a + b)[..h.len] == a[..h.len];
      assert (a + b)[h.len..] == a[h.len..] + b;
      RecordLocal(a, a + b);
      SplitConcat(a[h.len..], b);
      var f, tail := Field(h.num, a[..h.len]), Split(a[h.len..]).value;
      assert Split(b).Ok? ==> ([f] + tail) + Split(b).value == [f] + (tail + Split(b).value);
    }
  }

  /** Splitting undoes joining, for any list of well-formed records. */
  lemma {:induction false} SplitUndoesJoin(fields: seq<Field>)
    requires AllWellFormed(fields)
    ensures Split(Raws(fields)) == Ok(fields)
  {
    hide Split, Record;
    SplitHead([]);
    if fields != [] {
      var f, rest := fields[0], fields[1..];
      assert f in fields;
      SplitUndoesJoin(rest);
      assert f.raw[|f.raw|..] == [] && f.raw[..|f.raw|] == f.raw;
      assert f.raw != [];
      SplitHead(f.raw);
      assert [f] + [] == [f];
      SplitConcat(f.raw, Raws(rest));
      assert [f] + rest == fields;
    }
  }

  // ---------- merging ----------

  /** The last record of each field number. */
  function LastWins(fields: seq<Field>): map<int, seq<byte>> {
    if fields == [] then map[]
    else
      var f := fields[|fields| - 1];
      LastWins(fields[..|fields| - 1])[f.num := f.raw]
  }

  /** Every entry is a well-formed record of its field. */
  ghost predicate GoodTable(m: map<int, seq<byte>>) {
    forall n :: n in m ==> WellFormed(Field(n, m[n]))
  }

  lemma {:induction false} LastWinsGood(fields: seq<Field>)
    requires AllWellFormed(fields)
    ensures GoodTable(LastWins(fields))
  {
    if fields != [] {
      LastWinsGood(fields[..|fields| - 1]);
      assert fields[|fields| - 1] in fields;
    }
  }

  /** The entries of `m` under the numbers `nums`, as records. */
  ghost function Records(m: map<int, seq<byte>>, nums: seq<int>): (fields: seq<Field>)
    requires forall i :: 0 <= i < |nums| ==> nums[i] in m
    ensures |fields| == |nums| && forall i :: 0 <= i < |nums| ==> fields[i] == Field(nums[i], m[nums[i]])
  {
    seq(|nums|, i requires 0 <= i < |nums| => Field(nums[i], m[nums[i]]))
  }

  /** A table as records in ascending field order. */
  ghost function Listed(m: map<int, seq<byte>>): seq<Field> {
    Records(m, Ascending(m.Keys))
  }

  ghost function Encode(m: map<int, seq<byte>>): seq<byte> {
    Raws(Listed(m))
  }

  /** The fields of a blob, each by its last record. */
  ghost function Fields(b: seq<byte>): map<int, seq<byte>>
    requires Split(b).Ok?
  {
    LastWins(Split(b).value)
  }

  ghost function Merge(stored: seq<byte>, patch: seq<byte>): Result<seq<byte>> {
    if Split(stored).Err? then Err(Split(stored).error)
    else if Split(patch).Err? then Err(Split(patch).error)
    else Ok(Encode(Fields(stored) + Fields(patch)))
  }

  lemma MergeIs(stored: seq<byte>, patch: seq<byte>)
    ensures Split(stored).Err? ==> Merge(stored, patch) == Err(Split(stored).error)
    ensures Split(stored).Ok? && Split(patch).Err? ==> Merge(stored, patch) == Err(Split(patch).error)
    ensures Split(stored).Ok? && Split(patch).Ok? ==>
              Merge(stored, patch) == Ok(Encode(LastWins(Split(stored).value) + LastWins(Split(patch).value)))
  {
  }

  method MergeProtoFields(stored: seq<byte>, patch: seq<byte>) returns (r: Result<seq<byte>>)
    ensures r == Merge(stored, patch)
  {
    hide Split, LastWins, Encode, Merge, Ascending;
    MergeIs(stored, patch);
    var split := SplitProtoFields(stored);
    if split.Err? {
      return Err(split.error);
    }
    var base := split.value;
    split := SplitProtoFields(patch);
    if split.Err? {
      return Err(split.error);
    }
    var inc := split.value;
    var fields := FileAll(map[], base);
    assert fields == LastWins(base);
    fields := FileAll(fields, inc);
    var nums := CollectNums(fields);
    nums := Ascending(set n | n in nums);
    var out := AppendAll(fields, nums);
    return Ok(out);
  }

  /** The keys of a table, in no particular order. */
  method CollectNums(fields: map<int, seq<byte>>) returns (nums: seq<int>)
    ensures (set n | n in nums) == fields.Keys
  {
    nums := [];
    var todo := fields.Keys;
    while todo != {}
      invariant todo <= fields.Keys
      invariant forall n :: n in nums <==> n in fields.Keys - todo
      decreases todo
    {
      HasElement(todo);
      var n :| n in todo;
      nums := nums + [n];
      todo := todo - {n};
    }
    assert forall n :: n in nums <==> n in fields.Keys;
  }

  method AppendAll(fields: map<int, seq<byte>>, nums: seq<int>) returns (out: seq<byte>)
    requires nums == Ascending(fields.Keys)
    ensures out == Encode(fields)
  {
    hide Raws, Ascending, GoodTable, WellFormed;
    ghost var listed := Listed(fields);
    out := [];
    NoRaws();
    for i := 0 to |nums|
      invariant out == Raws(listed[..i])
    {
      RawsSnoc(listed[..i], listed[i]);
      assert listed[..i + 1] == listed[..i] + [listed[i]];
      assert nums[i] in nums;
      out := out + fields[nums[i]];
    }
    assert listed[..|nums|] == listed;
  }

  lemma NoRaws()
    ensures Raws([]) == []
  {
  }

  method FileAll(table: map<int, seq<byte>>, records: seq<Field>) returns (fields: map<int, seq<byte>>)
    ensures fields == table + LastWins(records)
  {
    fields := table;
    for i := 0 to |records|
      invariant fields == table + LastWins(records[..i])
    {
      assert records[..i + 1][..i] == records[..i];
      fields := fields[records[i].num := records[i].raw];
    }
    assert records[..|records|] == records;
  }

  lemma {:induction false} RawsSnoc(fields: seq<Field>, f: Field)
    ensures Raws(fields + [f]) == Raws(fields) + f.raw
  {
    if fields == [] {
      assert fields + [f] == [f];
    } else {
      assert (fields + [f])[1..] == fields[1..] + [f];
      RawsSnoc(fields[1..], f);
    }
  }

  // ---------- what merging promises ----------

  lemma {:induction false} LastWinsListed(m: map<int, seq<byte>>, nums: seq<int>)
    requires (forall n :: n in nums ==> n in m) && (forall i :: 0 <= i < |nums| ==> nums[i] in m)
    ensures LastWins(Records(m, nums)) == map n | n in nums :: m[n]
  {
    if nums != [] {
      var k := |nums| - 1;
      assert Records(m, nums)[..k] == Records(m, nums[..k]);
      assert nums[k] in nums && nums == nums[..k] + [nums[k]];
      LastWinsListed(m, nums[..k]);
    }
  }

  lemma FieldsGood(b: seq<byte>)
    requires Split(b).Ok?
    ensures GoodTable(Fields(b))
  {
    JoinUndoesSplit(b);
    LastWinsGood(Split(b).value);
  }

  /** Splitting and filing undo encoding. */
  lemma EncodeRoundTrip(m: map<int, seq<byte>>)
    requires GoodTable(m)
    ensures Split(Encode(m)) == Ok(Listed(m)) && Fields(Encode(m)) == m
  {
    hide Split, WellFormed, Raws, LastWins, Ascending;
    var nums := Ascending(m.Keys);
    forall f | f in Listed(m)
      ensures WellFormed(f)
    {
      var i :| 0 <= i < |nums| && Listed(m)[i] == f;
      assert nums[i] in nums;
    }
    SplitUndoesJoin(Listed(m));
    LastWinsListed(m, nums);
    assert (map n | n in nums :: m[n]) == m;
  }

  /** The merged blob splits into one record per field, the field numbers rising strictly:
      the patch's last record of the field if it has one, else the stored blob's. */
  lemma MergedFields(stored: seq<byte>, patch: seq<byte>)
    requires Split(stored).Ok? && Split(patch).Ok?
    ensures Merge(stored, patch).Ok? && Split(Merge(stored, patch).value).Ok?
    ensures var fields := Split(Merge(stored, patch).value).value;
            forall i, j :: 0 <= i < j < |fields| ==> fields[i].num < fields[j].num
    ensures Fields(Merge(stored, patch).value) == Fields(stored) + Fields(patch)
  {
    hide Split, Raws, LastWins, WellFormed;
    FieldsGood(stored);
    FieldsGood(patch);
    EncodeRoundTrip(Fields(stored) + Fields(patch));
  }

  /** Record `i` is the last one of field `n`. */
  ghost predicate LastAt(fields: seq<Field>, i: int, n: int) {
    0 <= i < |fields| && fields[i].num == n && forall j :: i < j < |fields| ==> fields[j].num != n
  }

  /** A field's record in a blob is its last one there. */
  lemma {:induction false} LastWinsIsLast(fields: seq<Field>, n: int)
    ensures n in LastWins(fields) <==> exists i :: 0 <= i < |fields| && fields[i].num == n
    ensures n in LastWins(fields) ==> exists i :: LastAt(fields, i, n) && fields[i].raw == LastWins(fields)[n]
  {
    if fields != [] {
      var k := |fields| - 1;
      var less := fields[..k];
      LastWinsIsLast(less, n);
      assert fields == less + [fields[k]];
      if fields[k].num == n {
        assert LastAt(fields, k, n);
      } else if n in LastWins(less) {
        var i :| LastAt(less, i, n) && less[i].raw == LastWins(less)[n];
        assert LastAt(fields, i, n);
      }
    }
  }

  lemma MergeAssociative(a: seq<byte>, b: seq<byte>, c: seq<byte>)
    requires Split(a).Ok? && Split(b).Ok? && Split(c).Ok?
    ensures Merge(a, b).Ok? && Merge(b, c).Ok?
    ensures Merge(Merge(a, b).value, c) == Merge(a, Merge(b, c).value)
  {
    hide Split, Encode, LastWins;
    MergedFields(a, b);
    MergedFields(b, c);
    assert (Fields(a) + Fields(b)) + Fields(c) == Fields(a) + (Fields(b) + Fields(c));
  }

  /** Applying the same patch again changes nothing. */
  lemma MergeIdempotent(stored: seq<byte>, patch: seq<byte>)
    requires Split(stored).Ok? && Split(patch).Ok?
    ensures Merge(stored, patch).Ok? && Merge(Merge(stored, patch).value, patch) == Merge(stored, patch)
  {
    hide Split, Encode, LastWins;
    MergedFields(stored, patch);
    assert (Fields(stored) + Fields(patch)) + Fields(patch) == Fields(stored) + Fields(patch);
  }
}
