/** The multiple-mode toggle of `onSelection`: the current array becomes a
    JavaScript `Set` (insertion-ordered, compared by reference), the clicked
    option is deleted when present and added otherwise, and the set becomes an
    array again. */
module Toggle {
  import opened FilterOptions

  /** No option object occurs twice. */
  predicate NoDuplicates(s: seq<FilterOption>)
  {
    forall i, j :: 0 <= i < j < |s| ==> s[i] != s[j]
  }

  /** The index of the first occurrence of `x` in `s`. */
  function FirstIndex(s: seq<FilterOption>, x: FilterOption): (i: nat)
    requires x in s
    ensures i < |s| && s[i] == x && x !in s[..i]
  {
    if s[0] == x then 0
    else
      var i := 1 + FirstIndex(s[1..], x);
      assert s[..i] == [s[0]] + s[1..][..i - 1];
      i
  }

  /** An index holding `x` with no earlier `x` is the first index of `x`. */
  lemma FirstIndexUnique(s: seq<FilterOption>, x: FilterOption, i: nat)
    requires i < |s| && s[i] == x && x !in s[..i]
    ensures FirstIndex(s, x) == i
  {
  }

  /** Appending an object does not move the first occurrences before it. */
  lemma FirstIndexSnoc(s: seq<FilterOption>, o: FilterOption)
    ensures forall x :: x in s ==> FirstIndex(s + [o], x) == FirstIndex(s, x)
    ensures o !in s ==> FirstIndex(s + [o], o) == |s|
  {
    forall x | x in s ensures FirstIndex(s + [o], x) == FirstIndex(s, x) {
      var k := FirstIndex(s, x);
      assert (s + [o])[..k] == s[..k];
      FirstIndexUnique(s + [o], x, k);
    }
    if o !in s {
      assert (s + [o])[..|s|] == s;
      FirstIndexUnique(s + [o], o, |s|);
    }
  }

  /** `Array.from(new Set(s))`: every object once, in the order of its first
      occurrence in `s`. */
  function Dedup(s: seq<FilterOption>): (r: seq<FilterOption>)
    ensures NoDuplicates(r)
    ensures forall i :: 0 <= i < |r| ==> r[i] in s
    ensures forall i :: 0 <= i < |s| ==> s[i] in r
    ensures |r| <= |s|
  {
    if s == [] then []
    else
      var d := Dedup(s[..|s| - 1]);
      var last := s[|s| - 1];
      assert forall i :: 0 <= i < |s| - 1 ==> s[i] == s[..|s| - 1][i];
      if last in d then d else d + [last]
  }

  /** `Dedup` keeps the objects in the order of their first occurrence, as a
      `Set` keeps insertion order and ignores a repeated insertion. */
  lemma {:induction false} DedupOrder(s: seq<FilterOption>)
    ensures forall i, j :: 0 <= i < j < |Dedup(s)| ==> FirstIndex(s, Dedup(s)[i]) < FirstIndex(s, Dedup(s)[j])
  {
    if s != [] {
      var init, last := s[..|s| - 1], s[|s| - 1];
      var d := Dedup(init);
      assert s == init + [last];
      DedupOrder(init);
      FirstIndexSnoc(init, last);
      if last !in d {
        assert last !in init;
      }
    }
  }

  /** `Set.delete`: the sequence without the given object. */
  function Without(s: seq<FilterOption>, o: FilterOption): (r: seq<FilterOption>)
    ensures forall i :: 0 <= i < |r| ==> r[i] in s && r[i] != o
    ensures forall i :: 0 <= i < |s| && s[i] != o ==> s[i] in r
    ensures o !in s ==> r == s
  {
    if s == [] then []
    else if s[0] == o then Without(s[1..], o)
    else [s[0]] + Without(s[1..], o)
  }

  /** The tail of a set is a set without its head. */
  lemma NoDuplicatesTail(s: seq<FilterOption>)
    requires NoDuplicates(s) && s != []
    ensures NoDuplicates(s[1..]) && s[0] !in s[1..]
  {
  }

  /** Putting a new object in front of a set gives a set. */
  lemma NoDuplicatesCons(x: FilterOption, r: seq<FilterOption>)
    requires NoDuplicates(r) && x !in r
    ensures NoDuplicates([x] + r)
  {
  }

  /** On a set, `Set.delete` keeps a set and shortens it by one exactly when
      the object was present. */
  lemma {:induction false} WithoutOfSet(s: seq<FilterOption>, o: FilterOption)
    ensures NoDuplicates(s) ==> NoDuplicates(Without(s, o))
    ensures NoDuplicates(s) ==> |Without(s, o)| == if o in s then |s| - 1 else |s|
  {
    if s != [] && NoDuplicates(s) {
      var t := s[1..];
      NoDuplicatesTail(s);
      WithoutOfSet(t, o);
      if s[0] != o {
        assert s[0] !in Without(t, o);
        NoDuplicatesCons(s[0], Without(t, o));
      }
    }
  }

  /** `has ? delete : add` on the set built from `s`. */
  function ToggleIn(s: seq<FilterOption>, o: FilterOption): (r: seq<FilterOption>)
    ensures o in r <==> o !in s
    ensures forall i :: 0 <= i < |r| && r[i] != o ==> r[i] in s
    ensures forall i :: 0 <= i < |s| && s[i] != o ==> s[i] in r
    ensures NoDuplicates(s) ==> NoDuplicates(r)
  {
    if o in s then WithoutOfSet(s, o); Without(s, o) else s + [o]
  }

  /** The array `onSelection` reads in multiple mode: `selected || []`. */
  function CurrentArray(sel: Selection): seq<FilterOption>
    requires !sel.Single?
  {
    if sel.Null? then [] else sel.options
  }

  /** The array `onSelection` stores in multiple mode. */
  function Reselect(sel: Selection, o: FilterOption): (r: seq<FilterOption>)
    requires !sel.Single?
    ensures NoDuplicates(r)
    ensures o in r <==> o !in CurrentArray(sel)
    ensures forall i :: 0 <= i < |r| && r[i] != o ==> r[i] in CurrentArray(sel)
    ensures forall i :: 0 <= i < |CurrentArray(sel)| && CurrentArray(sel)[i] != o ==>
              CurrentArray(sel)[i] in r
  {
    ToggleIn(Dedup(CurrentArray(sel)), o)
  }

  /** A sequence without duplicates is already a set. */
  lemma {:induction false} DedupOfSet(s: seq<FilterOption>)
    requires NoDuplicates(s)
    ensures Dedup(s) == s
  {
    if s != [] {
      var init := s[..|s| - 1];
      assert NoDuplicates(init);
      DedupOfSet(init);
      assert s == init + [s[|s| - 1]];
    }
  }

  /** Deleting the entry at index i leaves the other entries in their order. */
  lemma WithoutAt(s: seq<FilterOption>, i: nat)
    requires NoDuplicates(s) && i < |s|
    ensures Without(s, s[i]) == s[..i] + s[i + 1..]
  {
    assert s[i] !in s[..i] && s[i] !in s[i + 1..];
    WithoutOnlyAt(s, i);
  }

  /** The same, for an object that occurs at index i only. */
  lemma {:induction false} WithoutOnlyAt(s: seq<FilterOption>, i: nat)
    requires i < |s| && s[i] !in s[..i] && s[i] !in s[i + 1..]
    ensures Without(s, s[i]) == s[..i] + s[i + 1..]
  {
    var o := s[i];
    if i == 0 {
      assert s[1..] == s[i + 1..];
      assert s[..0] + s[1..] == s[1..];
    } else {
      var t := s[1..];
      assert t[i - 1] == o;
      assert t[..i - 1] == s[1..i];
      assert o !in t[..i - 1] by { assert s[..i] == [s[0]] + s[1..i]; }
      assert t[i..] == s[i + 1..];
      assert s[0] != o by { assert s[0] == s[..i][0]; }
      WithoutOnlyAt(t, i - 1);
      calc {
        Without(s, o);
        [s[0]] + Without(t, o);
        [s[0]] + (t[..i - 1] + t[i..]);
        { assert [s[0]] + t[..i - 1] == s[..i]; }
        s[..i] + s[i + 1..];
      }
    }
  }

  /** Adding an object to the end and deleting it again gives back the set. */
  lemma {:induction false} WithoutAppended(s: seq<FilterOption>, o: FilterOption)
    ensures Without(s + [o], o) == Without(s, o)
  {
    if s != [] {
      assert (s + [o])[1..] == s[1..] + [o];
      WithoutAppended(s[1..], o);
    } else {
      assert [o][1..] == [];
    }
  }

  /** Toggling an absent option twice restores the set exactly. */
  lemma ToggleTwiceRestores(s: seq<FilterOption>, o: FilterOption)
    requires o !in s
    ensures ToggleIn(ToggleIn(s, o), o) == s
  {
    WithoutAppended(s, o);
  }

  /** Toggling a present option twice keeps the same members but moves that
      option to the end, so the order comes back only when it was already
      last. */
  lemma ToggleTwiceMovesToEnd(s: seq<FilterOption>, o: FilterOption, i: nat)
    requires NoDuplicates(s) && i < |s| && s[i] == o
    ensures ToggleIn(ToggleIn(s, o), o) == s[..i] + s[i + 1..] + [o]
    ensures ToggleIn(ToggleIn(s, o), o) == s <==> i == |s| - 1
  {
    WithoutAt(s, i);
    var r := s[..i] + s[i + 1..] + [o];
    if i == |s| - 1 {
      assert r == s;
    } else {
      assert r[i] == s[i + 1] != s[i];
    }
  }

  /** In multiple mode, clicking an option that is not selected and then
      clicking it again leaves the selection as it was, apart from the
      compaction of duplicates that building a `Set` performs. */
  lemma ReselectTwice(sel: Selection, o: FilterOption)
    requires !sel.Single? && o !in CurrentArray(sel)
    ensures Reselect(List(Reselect(sel, o)), o) == Dedup(CurrentArray(sel))
  {
    var d := Dedup(CurrentArray(sel));
    DedupOfSet(d + [o]);
    ToggleTwiceRestores(d, o);
  }

  /** Clicking an unselected option appends it after the current entries,
      with duplicates removed; clicking a selected one removes it and keeps
      the others in the order of their first occurrence. */
  lemma ReselectOrder(sel: Selection, o: FilterOption)
    requires !sel.Single?
    ensures o !in CurrentArray(sel) ==> Reselect(sel, o) == Dedup(CurrentArray(sel)) + [o]
    ensures forall i :: 0 <= i < |Dedup(CurrentArray(sel))| && Dedup(CurrentArray(sel))[i] == o ==>
              Reselect(sel, o) == Dedup(CurrentArray(sel))[..i] + Dedup(CurrentArray(sel))[i + 1..]
  {
    var d := Dedup(CurrentArray(sel));
    forall i | 0 <= i < |d| && d[i] == o
      ensures Reselect(sel, o) == d[..i] + d[i + 1..]
    {
      WithoutAt(d, i);
    }
  }

  /** The toggle empties the selection exactly when the clicked option was the
      only one selected. */
  lemma ReselectEmpties(sel: Selection, o: FilterOption)
    requires !sel.Single?
    ensures Reselect(sel, o) == [] <==> Dedup(CurrentArray(sel)) == [o]
  {
  }
}
