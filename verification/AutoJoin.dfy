/** A member's list of channels to join, kept free of names that differ only in case. */
module AutoJoin {
  import opened Basics

  predicate Has(names: seq<string>, ch: string) {
    exists i :: 0 <= i < |names| && ToLower(names[i]) == ToLower(ch)
  }

  /** The first spelling of each name, in order. */
  ghost function Deduped(names: seq<string>): seq<string> {
    if names == [] then []
    else
      var out, ch := Deduped(names[..|names| - 1]), names[|names| - 1];
      if Has(out, ch) then out else out + [ch]
  }

  ghost predicate Changes(existing: seq<string>, add: seq<string>) {
    Deduped(existing + add) != Deduped(existing)
  }

  lemma DedupedSnoc(names: seq<string>, ch: string)
    ensures Deduped(names + [ch]) == if Has(Deduped(names), ch) then Deduped(names) else Deduped(names) + [ch]
  {
    assert (names + [ch])[..|names|] == names;
  }

  method MergeChannels(existing: seq<string>, add: seq<string>) returns (out: seq<string>, changed: bool)
    ensures out == Deduped(existing + add)
    ensures changed <==> Changes(existing, add)
  {
    hide ToLower, Has, Deduped;
    var seen: set<string> := {};
    out := [];
    NothingHas();
    for i := 0 to |existing|
      invariant out == Deduped(existing[..i])
      invariant forall ch :: ToLower(ch) in seen <==> Has(out, ch)
    {
      var ch := existing[i];
      assert existing[..i + 1] == existing[..i] + [ch];
      DedupedSnoc(existing[..i], ch);
      HasSnoc(out, ch);
      if ToLower(ch) !in seen {
        seen := seen + {ToLower(ch)};
        out := out + [ch];
      }
    }
    assert existing[..|existing|] == existing;
    assert existing + add[..0] == existing;
    changed := false;
    for i := 0 to |add|
      invariant out == Deduped(existing + add[..i])
      invariant forall ch :: ToLower(ch) in seen <==> Has(out, ch)
      invariant |out| >= |Deduped(existing)|
      invariant changed <==> |out| > |Deduped(existing)|
      invariant !changed ==> out == Deduped(existing)
    {
      var ch := add[i];
      assert existing + add[..i + 1] == existing + add[..i] + [ch];
      DedupedSnoc(existing + add[..i], ch);
      HasSnoc(out, ch);
      if ToLower(ch) !in seen {
        seen := seen + {ToLower(ch)};
        out := out + [ch];
        changed := true;
      }
    }
    assert add[..|add|] == add;
  }

  lemma NothingHas()
    ensures Deduped([]) == [] && forall c :: !Has([], c)
  {
  }

  lemma HasSnoc(out: seq<string>, ch: string)
    ensures forall c :: Has(out + [ch], c) <==> Has(out, c) || ToLower(c) == ToLower(ch)
  {
    hide ToLower;
    forall c
      ensures Has(out + [ch], c) <==> Has(out, c) || ToLower(c) == ToLower(ch)
    {
      assert (out + [ch])[|out|] == ch;
      if Has(out, c) {
        var i :| 0 <= i < |out| && ToLower(out[i]) == ToLower(c);
        assert (out + [ch])[i] == out[i];
      }
    }
  }

  ghost predicate Spellings(out: seq<string>) {
    forall i, j :: 0 <= i < j < |out| ==> ToLower(out[i]) != ToLower(out[j])
  }

  lemma SpellingsSnoc(out: seq<string>, ch: string)
    requires Spellings(out) && !Has(out, ch)
    ensures Spellings(out + [ch])
  {
    hide ToLower;
  }

  /** Every name is listed in one spelling, and nothing else is. */
  lemma {:induction false} DedupedLists(names: seq<string>)
    ensures forall ch :: Has(Deduped(names), ch) <==> Has(names, ch)
    ensures Spellings(Deduped(names))
    ensures forall ch :: ch in Deduped(names) ==> ch in names
  {
    hide ToLower, Has, Spellings;
    if names == [] {
      NoSpellings();
    } else {
      var before, ch := names[..|names| - 1], names[|names| - 1];
      assert names == before + [ch];
      DedupedLists(before);
      HasSnoc(before, ch);
      if !Has(Deduped(before), ch) {
        HasSnoc(Deduped(before), ch);
        SpellingsSnoc(Deduped(before), ch);
      } else {
        SameFold(before, ch);
      }
    }
  }

  /** Names keep their places: what is added only comes behind them, and a list of names that all
      differ stays as it is. */
  lemma {:induction false} DedupedStays(names: seq<string>, add: seq<string>)
    ensures Deduped(names) <= Deduped(names + add)
    ensures Spellings(names) ==> Deduped(names) == names
    decreases |names| + |add|
  {
    hide Has, ToLower;
    if add != [] {
      var n := |add| - 1;
      assert names + add == names + add[..n] + [add[n]];
      DedupedSnoc(names + add[..n], add[n]);
      DedupedStays(names, add[..n]);
    } else {
      assert names + add == names;
      if names != [] {
        var n := |names| - 1;
        DedupedStays(names[..n], []);
        if Spellings(names) {
          NotYetHad(names);
        }
      }
    }
  }

  lemma NotYetHad(names: seq<string>)
    requires Spellings(names) && names != []
    ensures var n := |names| - 1; !Has(names[..n], names[n]) && Spellings(names[..n])
  {
    hide ToLower;
  }

  lemma NoSpellings()
    ensures Spellings([])
  {
  }

  lemma SameFold(names: seq<string>, ch: string)
    ensures forall c :: ToLower(c) == ToLower(ch) && Has(names, ch) ==> Has(names, c)
  {
    hide ToLower;
  }

  /** Names already listed change nothing. */
  lemma {:induction false} ListedChangesNothing(names: seq<string>, add: seq<string>)
    requires forall i :: 0 <= i < |add| ==> Has(names, add[i])
    ensures Deduped(names + add) == Deduped(names)
  {
    hide Has;
    if add == [] {
      assert names + add == names;
    } else {
      var before, ch := add[..|add| - 1], add[|add| - 1];
      ListedChangesNothing(names, before);
      assert names + add == names + before + [ch];
      DedupedSnoc(names + before, ch);
      DedupedLists(names);
    }
  }

  lemma MemberHas(names: seq<string>)
    ensures forall i :: 0 <= i < |names| ==> Has(names, names[i])
  {
  }

  /** A merge changes the list exactly if it brings a name not listed yet. */
  lemma ChangesExactly(existing: seq<string>, add: seq<string>)
    ensures Changes(existing, add) <==> exists i :: 0 <= i < |add| && !Has(existing, add[i])
  {
    hide Has;
    if forall i :: 0 <= i < |add| ==> Has(existing, add[i]) {
      ListedChangesNothing(existing, add);
    } else {
      var i :| 0 <= i < |add| && !Has(existing, add[i]);
      MemberHas(existing + add);
      assert (existing + add)[|existing| + i] == add[i];
      DedupedLists(existing);
      DedupedLists(existing + add);
    }
  }

  /** Adding the same names again changes nothing. */
  lemma MergeTwice(existing: seq<string>, add: seq<string>)
    ensures !Changes(Deduped(existing + add), add) && !Changes(add, add)
  {
    hide Has;
    var names := existing + add;
    DedupedLists(names);
    MemberHas(names);
    MemberHas(add);
    forall i | 0 <= i < |add|
      ensures Has(Deduped(names), add[i])
    {
      assert names[|existing| + i] == add[i];
    }
    ListedChangesNothing(Deduped(names), add);
    ListedChangesNothing(add, add);
  }
}
