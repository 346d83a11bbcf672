/** The message buffer: per channel the rows with the greatest ids, and pages of them. A key
    stands for its id's number, as the order of keys is the order of numbers. */
module MessageRing {
  import opened Basics
  import opened Ordered

  const MSG_BUFFER_CAP: nat := 500

  datatype Key = Key(channel: string, id: int)

  datatype Row = Row(content: string, timestamp: int, msgid: string)

  type Rows = map<Key, Row>

  function Ids(rows: Rows, channel: string): set<int> {
    set k | k in rows && k.channel == channel :: k.id
  }

  lemma IdsHold(rows: Rows, channel: string, id: int)
    ensures id in Ids(rows, channel) <==> Key(channel, id) in rows
  {
    if Key(channel, id) in rows {
      assert Key(channel, id).id in Ids(rows, channel);
    }
  }

  // ---------- the greatest ids ----------

  ghost function Above(s: set<int>, x: int): set<int> {
    set y | y in s && y > x
  }

  /** The `k` greatest elements of a set. */
  ghost function Top(s: set<int>, k: nat): set<int> {
    set x | x in s && |Above(s, x)| < k
  }

  lemma SubsetSize(a: set<int>, b: set<int>)
    requires a <= b
    ensures |a| <= |b|
  {
    assert b == a + (b - a);
  }

  /** In the ascending listing of a set an element has as many elements above as after it. */
  lemma {:induction false} AboveCount(s: set<int>, i: nat)
    requires i < |s|
    ensures i < |Ascending(s)| && |Above(s, Ascending(s)[i])| == |s| - 1 - i
    decreases |s|
  {
    hide Ascending;
    var m := MinOf(s);
    var rest := s - {m};
    AscendingStep(s);
    if i == 0 {
      assert Above(s, m) == rest;
    } else {
      AboveCount(rest, i - 1);
      var x := Ascending(rest)[i - 1];
      assert x in Ascending(rest);
      assert Above(s, x) == Above(rest, x);
    }
  }

  /** The greatest `k` are the last `k` of the listing. */
  lemma TopIsLast(s: set<int>, k: nat, i: nat)
    requires i < |s|
    ensures i < |Ascending(s)| && (Ascending(s)[i] in Top(s, k) <==> i >= |s| - k)
  {
    hide Ascending;
    AboveCount(s, i);
    assert Ascending(s)[i] in Ascending(s);
  }

  lemma {:induction false} ListedAt(s: set<int>, x: int) returns (i: nat)
    requires x in s
    ensures i < |s| == |Ascending(s)| && Ascending(s)[i] == x
  {
    hide Ascending;
    assert x in Ascending(s);
    i :| i < |Ascending(s)| && Ascending(s)[i] == x;
  }

  /** A set has `k` elements above `x` as soon as its `k` greatest do. */
  lemma TopAbove(s: set<int>, x: int, k: nat)
    requires |Above(s, x)| >= k
    ensures |Above(Top(s, k), x)| >= k
  {
    hide Ascending;
    var t := Top(s, k);
    SubsetSize(Above(s, x), s);
    if k > 0 {
      var i := |s| - k;
      AboveCount(s, i);
      TopIsLast(s, k, i);
      var y := Ascending(s)[i];
      if y <= x {
        SubsetSize(Above(s, x), Above(s, y));
        assert false;
      }
      assert y in t && y !in Above(s, y);
      forall z | z in Above(s, y) + {y}
        ensures z in Above(t, x)
      {
        SubsetSize(Above(s, z), Above(s, y));
      }
      SubsetSize(Above(s, y) + {y}, Above(t, x));
    }
  }

  /** Keeping the `k` greatest at every insertion keeps the `k` greatest of all. */
  lemma TopStep(s: set<int>, x: int, k: nat)
    ensures Top(Top(s, k) + {x}, k) == Top(s + {x}, k)
  {
    var t := Top(s, k);
    forall y
      ensures y in Top(t + {x}, k) <==> y in Top(s + {x}, k)
    {
      SubsetSize(Above(t + {x}, y), Above(s + {x}, y));
      if y in Top(s + {x}, k) && y != x {
        SubsetSize(Above(s, y), Above(s + {x}, y));
        assert y in t;
      }
      if y in Top(t + {x}, k) {
        if |Above(s, y)| >= k {
          TopAbove(s, y, k);
          SubsetSize(Above(t, y), Above(t + {x}, y));
          assert false;
        }
        forall z | z in Above(s, y)
          ensures z in t
        {
          SubsetSize(Above(s, z), Above(s, y));
        }
        assert Above(s + {x}, y) == Above(t + {x}, y);
      }
    }
  }

  lemma TopSize(s: set<int>, k: nat)
    ensures |Top(s, k)| == if |s| <= k then |s| else k
    ensures |s| <= k ==> Top(s, k) == s
  {
    hide Ascending;
    if |s| <= k {
      forall x | x in s
        ensures x in Top(s, k)
      {
        SubsetSize(Above(s, x) + {x}, s);
      }
      assert Top(s, k) == s;
    } else if k == 0 {
      assert Top(s, k) == {};
    } else {
      var i := |s| - k;
      AboveCount(s, i);
      var y := Ascending(s)[i];
      assert y in Ascending(s);
      forall z
        ensures z in Top(s, k) <==> z in Above(s, y) + {y}
      {
        if z in s {
          if z >= y {
            SubsetSize(Above(s, z), Above(s, y));
          } else {
            SubsetSize(Above(s, y) + {y}, Above(s, z));
          }
        }
      }
      assert Top(s, k) == Above(s, y) + {y};
    }
  }

  // ---------- appending ----------

  /** The rows after one append: the row is stored, and its channel keeps the greatest ids. */
  ghost function Appended(rows: Rows, channel: string, id: int, row: Row): Rows {
    var more := rows[Key(channel, id) := row];
    var kept := Top(Ids(more, channel), MSG_BUFFER_CAP);
    map k | k in more && (k.channel == channel ==> k.id in kept) :: more[k]
  }

  ghost function KeysOf(channel: string, ids: seq<int>): set<Key> {
    set id | id in ids :: Key(channel, id)
  }

  /** Deleting all but the last keys of the listing is keeping the greatest. */
  lemma TrimmedKeys(more: Rows, channel: string, id: int, row: Row, rows: Rows, n: nat)
    requires more == rows[Key(channel, id) := row]
    requires var keys := Ascending(Ids(more, channel));
             n <= |keys| && n == if |keys| > MSG_BUFFER_CAP then |keys| - MSG_BUFFER_CAP else 0
    ensures more - KeysOf(channel, Ascending(Ids(more, channel))[..n]) == Appended(rows, channel, id, row)
  {
    hide Ascending, Top;
    var s := Ids(more, channel);
    var keys := Ascending(s);
    var gone := KeysOf(channel, keys[..n]);
    forall k | k in more
      ensures k in gone <==> !(k.channel == channel ==> k.id in Top(s, MSG_BUFFER_CAP))
    {
      if k.channel == channel {
        IdsHold(more, channel, k.id);
        var i := ListedAt(s, k.id);
        TopIsLast(s, MSG_BUFFER_CAP, i);
        if i < n {
          assert keys[..n][i] == k.id;
        } else {
          forall j | 0 <= j < n
            ensures keys[..n][j] != k.id
          {
            assert keys[j] < keys[i];
          }
        }
      }
    }
  }

  class Store {
    var rows: Rows
    var index: map<string, Key>

    constructor ()
      ensures rows == map[] && index == map[]
    {
      rows, index := map[], map[];
    }

    /** Stores a row and trims its channel: the keys are listed in order and all but the
        last `MSG_BUFFER_CAP` deleted. */
    method AppendMessage(channel: string, id: int, row: Row)
      modifies this`rows
      ensures rows == Appended(old(rows), channel, id, row)
    {
      hide Top, Ascending, Appended, Ids;
      rows := rows[Key(channel, id) := row];
      ghost var more := rows;
      var keys := Ascending(Ids(rows, channel));
      var i := 0;
      assert more - KeysOf(channel, keys[..0]) == more;
      while i < |keys| - MSG_BUFFER_CAP
        invariant 0 <= i <= (if |keys| > MSG_BUFFER_CAP then |keys| - MSG_BUFFER_CAP else 0)
        invariant rows == more - KeysOf(channel, keys[..i])
      {
        assert keys[..i + 1] == keys[..i] + [keys[i]];
        assert KeysOf(channel, keys[..i + 1]) == KeysOf(channel, keys[..i]) + {Key(channel, keys[i])};
        rows := rows - {Key(channel, keys[i])};
        i := i + 1;
      }
      TrimmedKeys(more, channel, id, row, old(rows), i);
    }

    /** Binds a stored row to its msgid, and the msgid to the row; fails without a row. */
    method SetMessageMsgID(channel: string, id: int, msgid: string) returns (ok: bool)
      modifies this
      ensures ok <==> Key(channel, id) in old(rows)
      ensures ok ==> rows == old(rows)[Key(channel, id) := old(rows)[Key(channel, id)].(msgid := msgid)]
                     && index == old(index)[msgid := Key(channel, id)]
      ensures !ok ==> rows == old(rows) && index == old(index)
    {
      var k := Key(channel, id);
      ok := k in rows;
      if ok {
        if rows[k].msgid != msgid {
          rows := rows[k := rows[k].(msgid := msgid)];
        }
        index := index[msgid := k];
      }
    }

    /** Binds a msgid to a row without touching the row. */
    method IndexMessageMsgID(msgid: string, channel: string, id: int)
      modifies this`index
      ensures index == if msgid == "" then old(index) else old(index)[msgid := Key(channel, id)]
    {
      if msgid != "" {
        index := index[msgid := Key(channel, id)];
      }
    }

    /** A page of a channel's ids: newest first below `before`, or, with `after`, oldest first
        above it. */
    method ChannelMessages(channel: string, before: Option<int>, after: Option<int>, limit: int) returns (out: seq<int>)
      ensures out == if after.Some? then PageAfter(Ids(rows, channel), after.value, limit)
                     else PageBefore(Ids(rows, channel), before, limit)
    {
      var s := Ids(rows, channel);
      if after == None {
        // In reverse the iterator starts at the largest key up to the cursor.
        var keys := Descending(set x | x in s && (before.Some? ==> x <= before.value));
        SeekDown(s, before);
        out := Collect(keys, before, limit);
      } else {
        var keys := Ascending(set x | x in s && x >= after.value);
        SeekUp(s, after.value);
        out := Collect(keys, after, limit);
      }
    }
  }

  // ---------- pages ----------

  function PageSize(limit: int): nat {
    if limit < 1 then 1 else limit
  }

  ghost function Take(q: seq<int>, n: nat): seq<int> {
    if |q| <= n then q else q[..n]
  }

  ghost function Before(s: set<int>, before: Option<int>): set<int> {
    set x | x in s && (before.Some? ==> x < before.value)
  }

  ghost function PageBefore(s: set<int>, before: Option<int>, limit: int): seq<int> {
    Take(Descending(Before(s, before)), PageSize(limit))
  }

  ghost function PageAfter(s: set<int>, after: int, limit: int): seq<int> {
    Take(Ascending(set x | x in s && x > after), PageSize(limit))
  }

  ghost function Skip(keys: seq<int>, exclude: Option<int>): seq<int> {
    if keys != [] && exclude == Some(keys[0]) then keys[1..] else keys
  }

  lemma SeekDown(s: set<int>, before: Option<int>)
    ensures var keys := Descending(set x | x in s && (before.Some? ==> x <= before.value));
            && Skip(keys, before) == Descending(Before(s, before))
            && forall i :: 0 < i < |keys| ==> Some(keys[i]) != before
  {
    hide Descending;
    var from := set x | x in s && (before.Some? ==> x <= before.value);
    var keys := Descending(from);
    if before.Some? && keys != [] && keys[0] == before.value {
      forall x
        ensures x in keys[1..] <==> x in Before(s, before)
      {
        assert x in keys <==> x in from;
        if x in keys && x != keys[0] {
          var i :| 0 <= i < |keys| && keys[i] == x;
          assert keys[1..][i - 1] == x;
        }
      }
      DescendingUnique(keys[1..], Before(s, before));
    } else {
      assert forall x :: x in from ==> x in keys;
      assert forall i :: 0 < i < |keys| ==> keys[0] > keys[i];
      assert forall i :: 0 <= i < |keys| ==> keys[i] in from;
      assert from == Before(s, before);
    }
  }

  lemma SeekUp(s: set<int>, after: int)
    ensures var keys := Ascending(set x | x in s && x >= after);
            && Skip(keys, Some(after)) == Ascending(set x | x in s && x > after)
            && forall i :: 0 < i < |keys| ==> keys[i] != after
  {
    hide Ascending;
    var from, past := set x | x in s && x >= after, set x | x in s && x > after;
    var keys := Ascending(from);
    if keys != [] && keys[0] == after {
      forall x
        ensures x in keys[1..] <==> x in past
      {
        assert x in keys <==> x in from;
        if x in keys && x != keys[0] {
          var i :| 0 <= i < |keys| && keys[i] == x;
          assert keys[1..][i - 1] == x;
        }
      }
      AscendingUnique(keys[1..], past);
    } else {
      assert forall i :: 0 < i < |keys| ==> keys[0] < keys[i];
      assert forall i :: 0 <= i < |keys| ==> keys[i] in from;
      assert forall x :: x in from ==> x in keys;
      assert from == past;
    }
  }

  /** The iterator loop of both directions: the cursor itself is skipped, and the limit is
      looked at after each row, so that at least one row comes back if there is one. */
  method Collect(keys: seq<int>, exclude: Option<int>, limit: int) returns (out: seq<int>)
    requires forall i :: 0 < i < |keys| ==> Some(keys[i]) != exclude
    ensures out == Take(Skip(keys, exclude), PageSize(limit))
  {
    out := [];
    ghost var rows := Skip(keys, exclude);
    var i := 0;
    while i < |keys|
      invariant 0 <= i <= |keys| && |out| < PageSize(limit)
      invariant |out| == i - (if i > 0 then |keys| - |rows| else 0)
      invariant out == rows[..|out|]
    {
      if Some(keys[i]) == exclude {
        i := i + 1;
        continue;
      }
      out := out + [keys[i]];
      i := i + 1;
      if |out| >= limit {
        break;
      }
    }
  }

  /** A page is as long as asked for, one row at least, or has all there is; it goes down from the
      newest row below the cursor, or up from the oldest above it, and leaves out only rows
      further on. */
  lemma PagesExactly(s: set<int>, before: Option<int>, after: int, limit: int)
    ensures var page := PageBefore(s, before, limit);
            var below := set x | x in s && (before.Some? ==> x < before.value);
            && |page| ==
               (if |below| < 1 then 0 else if limit < 1 then 1 else if limit < |below| then limit else |below|)
            && (forall x :: x in page ==> x in below) && (forall i, j :: 0 <= i < j < |page| ==> page[i] > page[j])
            && (forall x, y :: x in page && y in below && y !in page ==> y < x)
    ensures var page := PageAfter(s, after, limit);
            var above := set x | x in s && x > after;
            && |page| ==
               (if |above| < 1 then 0 else if limit < 1 then 1 else if limit < |above| then limit else |above|)
            && (forall x :: x in page ==> x in above) && (forall i, j :: 0 <= i < j < |page| ==> page[i] < page[j])
            && (forall x, y :: x in page && y in above && y !in page ==> x < y)
  {
    hide Ascending, Descending;
    DescendingPage(Before(s, before), PageSize(limit));
    AscendingPage((set x | x in s && x > after), PageSize(limit));
    assert Before(s, before) == set x | x in s && (before.Some? ==> x < before.value);
  }

  lemma DescendingPage(s: set<int>, n: nat)
    ensures var page := Take(Descending(s), n);
            && |page| == (if n < |s| then n else |s|) && (forall x :: x in page ==> x in s)
            && (forall i, j :: 0 <= i < j < |page| ==> page[i] > page[j])
            && (forall x, y :: x in page && y in s && y !in page ==> y < x)
  {
    hide Descending;
    var all, page := Descending(s), Take(Descending(s), n);
    assert |all| == |s|;
    assert forall x :: x in page ==> x in all;
    forall x, y | x in page && y in s && y !in page
      ensures y < x
    {
      var i :| 0 <= i < |page| && page[i] == x;
      assert y in all;
      var j :| 0 <= j < |all| && all[j] == y;
      assert forall m :: 0 <= m < |page| ==> page[m] == all[m];
      assert all[i] == x;
    }
  }

  lemma AscendingPage(s: set<int>, n: nat)
    ensures var page := Take(Ascending(s), n);
            && |page| == (if n < |s| then n else |s|) && (forall x :: x in page ==> x in s)
            && (forall i, j :: 0 <= i < j < |page| ==> page[i] < page[j])
            && (forall x, y :: x in page && y in s && y !in page ==> x < y)
  {
    hide Ascending;
    var all, page := Ascending(s), Take(Ascending(s), n);
    assert forall x :: x in page ==> x in all;
    forall x, y | x in page && y in s && y !in page
      ensures x < y
    {
      var i :| 0 <= i < |page| && page[i] == x;
      assert y in all;
      var j :| 0 <= j < |all| && all[j] == y;
      assert forall m :: 0 <= m < |page| ==> page[m] == all[m];
      assert all[i] == x;
    }
  }

  /** The pages a client reads going back from `before`, each by the last id of the one before. */
  ghost function Walk(s: set<int>, before: Option<int>, limit: int): seq<seq<int>>
    decreases |Before(s, before)|
  {
    var page := PageBefore(s, before, limit);
    if page == [] then []
    else
      assert page[|page| - 1] in Before(s, before);
      SmallerBefore(s, before, page[|page| - 1]);
      [page] + Walk(s, Some(page[|page| - 1]), limit)
  }

  lemma SmallerBefore(s: set<int>, before: Option<int>, x: int)
    requires x in Before(s, before)
    ensures |Before(s, Some(x))| < |Before(s, before)|
  {
    SubsetSize(Before(s, Some(x)) + {x}, Before(s, before));
  }

  ghost function Flatten(pages: seq<seq<int>>): seq<int> {
    if pages == [] then [] else pages[0] + Flatten(pages[1..])
  }

  /** Walking back page by page reads every row below the start once, newest first. */
  lemma {:induction false} WalkReadsAll(s: set<int>, before: Option<int>, limit: int)
    ensures Flatten(Walk(s, before, limit)) == Descending(Before(s, before))
    decreases |Before(s, before)|
  {
    hide Descending, Walk, Flatten, Before;
    WalkStep(s, before, limit);
    NoPages();
    var all, page := Descending(Before(s, before)), PageBefore(s, before, limit);
    if page != [] {
      var n := |page|;
      var x := page[n - 1];
      assert all[n - 1] == x && x in all;
      SmallerBefore(s, before, x);
      WalkReadsAll(s, Some(x), limit);
      RestBelow(Before(s, before), n);
      BeforeTwice(s, before, x);
      assert all == page + all[n..];
    }
  }

  lemma WalkStep(s: set<int>, before: Option<int>, limit: int)
    ensures var page := PageBefore(s, before, limit);
            && (page == [] ==> Walk(s, before, limit) == [])
            && (page != [] ==>
                  Flatten(Walk(s, before, limit)) == page + Flatten(Walk(s, Some(page[|page| - 1]), limit)))
  {
    hide Descending, Before;
    var page := PageBefore(s, before, limit);
    if page != [] {
      var rest := Walk(s, Some(page[|page| - 1]), limit);
      assert ([page] + rest)[1..] == rest;
    }
  }

  lemma NoPages()
    ensures Flatten([]) == []
  {
  }

  lemma BeforeTwice(s: set<int>, before: Option<int>, x: int)
    requires x in Before(s, before)
    ensures Before(Before(s, before), Some(x)) == Before(s, Some(x))
  {
  }

  /** What comes after an element of a descending listing is the listing of what is below it. */
  lemma RestBelow(s: set<int>, n: nat)
    requires 0 < n <= |s|
    ensures n <= |Descending(s)| && Descending(s)[n..] == Descending(Before(s, Some(Descending(s)[n - 1])))
  {
    hide Descending;
    var all := Descending(s);
    var x := all[n - 1];
    forall y
      ensures y in all[n..] <==> y in Before(s, Some(x))
    {
      assert y in all <==> y in s;
      if y in all {
        var i :| 0 <= i < |all| && all[i] == y;
        if i >= n {
          assert all[n..][i - n] == y;
        }
      }
    }
    DescendingUnique(all[n..], Before(s, Some(x)));
  }

  // ---------- runs of appends ----------

  datatype Append = Append(channel: string, id: int, row: Row)

  ghost function RowsAfter(appends: seq<Append>): Rows {
    if appends == [] then map[]
    else
      var a := appends[|appends| - 1];
      Appended(RowsAfter(appends[..|appends| - 1]), a.channel, a.id, a.row)
  }

  /** The ids ever appended to a channel. */
  ghost function EverAppended(appends: seq<Append>, channel: string): set<int> {
    set a | a in appends && a.channel == channel :: a.id
  }

  lemma EverSnoc(appends: seq<Append>, a: Append, channel: string)
    ensures EverAppended(appends + [a], channel) ==
            EverAppended(appends, channel) + (if a.channel == channel then {a.id} else {})
  {
    forall x
      ensures x in EverAppended(appends + [a], channel) <==>
              x in EverAppended(appends, channel) || (a.channel == channel && x == a.id)
    {
      if x in EverAppended(appends, channel) {
        var b :| b in appends && b.channel == channel && b.id == x;
        assert b in appends + [a];
      }
      if a.channel == channel && x == a.id {
        assert a in appends + [a];
      }
    }
  }

  lemma AppendedIds(rows: Rows, a: Append, channel: string)
    ensures Ids(Appended(rows, a.channel, a.id, a.row), channel) ==
            if a.channel == channel then Top(Ids(rows, channel) + {a.id}, MSG_BUFFER_CAP) else Ids(rows, channel)
  {
    hide Top;
    var more, after := rows[Key(a.channel, a.id) := a.row], Appended(rows, a.channel, a.id, a.row);
    forall x
      ensures x in Ids(more, channel) <==> x in Ids(rows, channel) || (a.channel == channel && x == a.id)
    {
      IdsHold(more, channel, x);
      IdsHold(rows, channel, x);
    }
    assert a.channel == channel ==> Ids(more, channel) == Ids(rows, channel) + {a.id};
    TopIsSubset(Ids(more, a.channel), MSG_BUFFER_CAP);
    forall x
      ensures x in Ids(after, channel) <==>
              x in Ids(more, channel) && (a.channel == channel ==> x in Top(Ids(more, channel), MSG_BUFFER_CAP))
    {
      IdsHold(after, channel, x);
      IdsHold(more, channel, x);
    }
  }

  lemma TopIsSubset(s: set<int>, k: nat)
    ensures Top(s, k) <= s
  {
  }

  /** After any run of appends every channel holds exactly the greatest 500 ids ever appended
      to it. */
  lemma {:induction false} RingKeepsGreatest(appends: seq<Append>, channel: string)
    ensures Ids(RowsAfter(appends), channel) == Top(EverAppended(appends, channel), 500)
  {
    hide Top, Appended, Ids;
    if appends == [] {
      NoRows(channel);
    } else {
      var before, a := appends[..|appends| - 1], appends[|appends| - 1];
      assert appends == before + [a];
      RingKeepsGreatest(before, channel);
      EverSnoc(before, a, channel);
      AppendedIds(RowsAfter(before), a, channel);
      TopStep(EverAppended(before, channel), a.id, MSG_BUFFER_CAP);
      assert EverAppended(before, channel) + {} == EverAppended(before, channel);
    }
  }

  lemma NoRows(channel: string)
    ensures Ids(map[], channel) == {} && Top({}, MSG_BUFFER_CAP) == {} && EverAppended([], channel) == {}
  {
  }

  /** The rows kept are the ones appended last under their ids. */
  lemma {:induction false} RingKeepsLast(appends: seq<Append>, k: Key)
    requires k in RowsAfter(appends)
    ensures exists i :: 0 <= i < |appends| && appends[i] == Append(k.channel, k.id, RowsAfter(appends)[k])
                        && forall j :: i < j < |appends| ==> appends[j].channel != k.channel || appends[j].id != k.id
  {
    hide Top;
    var n := |appends| - 1;
    var before, a := appends[..n], appends[n];
    if a.channel == k.channel && a.id == k.id {
      assert appends[n] == Append(k.channel, k.id, RowsAfter(appends)[k]);
    } else {
      RingKeepsLast(before, k);
      var i :| 0 <= i < |before| && before[i] == Append(k.channel, k.id, RowsAfter(before)[k])
               && forall j :: i < j < |before| ==> before[j].channel != k.channel || before[j].id != k.id;
      assert appends[i] == Append(k.channel, k.id, RowsAfter(appends)[k]);
      forall j | i < j < |appends|
        ensures appends[j].channel != k.channel || appends[j].id != k.id
      {
        assert j < n ==> appends[j] == before[j];
      }
    }
  }
}
