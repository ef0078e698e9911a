/** The read-only questions the template asks about the selection:
    `isSelected`, `hasSelection` and `selectedColor`. */
module SelectionQueries {
  import opened FilterOptions
  import Toggle

  /** `selected.map(opt => opt.label)`. */
  function Labels(s: seq<FilterOption>): (r: seq<string>)
    ensures |r| == |s|
    ensures forall i :: 0 <= i < |s| ==> r[i] == s[i].labelText
  {
    if s == [] then [] else [s[0].labelText] + Labels(s[1..])
  }

  /** `isSelected`: for an array selection, some selected option carries the
      same label (a label comparison); otherwise the selection is that very
      option object (a reference comparison). */
  function IsSelected(sel: Selection, o: FilterOption): (b: bool)
    ensures sel.List? ==>
              (b <==> exists i :: 0 <= i < |sel.options| && sel.options[i].labelText == o.labelText)
    ensures !sel.List? ==> (b <==> sel.Single? && sel.option == o)
  {
    if sel.List? then
      var labels := Labels(sel.options);
      assert forall i :: 0 <= i < |sel.options| ==> labels[i] == sel.options[i].labelText;
      o.labelText in labels
    else
      sel == Single(o)
  }

  /** `hasSelection`: a non-empty array, or any single option. */
  function HasSelection(sel: Selection): (b: bool)
    ensures b <==> sel != Null && sel != List([])
  {
    if sel.List? then |sel.options| > 0 else sel != Null
  }

  /** An option the template shows as selected means there is a selection. */
  lemma IsSelectedImpliesHasSelection(sel: Selection, o: FilterOption)
    requires IsSelected(sel, o)
    ensures HasSelection(sel)
  {
  }

  /** When no other option shares a label with `o`, the label comparison of
      `isSelected` agrees with the reference comparison of the toggle. */
  lemma IsSelectedByIdentity(s: seq<FilterOption>, o: FilterOption)
    requires forall i :: 0 <= i < |s| && s[i].labelText == o.labelText ==> s[i] == o
    ensures IsSelected(List(s), o) <==> o in s
  {
  }

  /** The two comparisons diverge: after selecting `a` in multiple mode, an
      option `b` that is a different object with the same label is reported as
      selected, yet clicking it adds it instead of removing `a`. */
  lemma IsSelectedDivergesFromToggle(sel: Selection, a: FilterOption, b: FilterOption)
    requires !sel.Single? && a != b && a.labelText == b.labelText
    requires a !in Toggle.CurrentArray(sel) && b !in Toggle.CurrentArray(sel)
    ensures IsSelected(List(Toggle.Reselect(sel, a)), b)
    ensures b !in Toggle.Reselect(sel, a)
    ensures a in Toggle.Reselect(List(Toggle.Reselect(sel, a)), b)
    ensures b in Toggle.Reselect(List(Toggle.Reselect(sel, a)), b)
  {
  }

  // ---- selectedColor ----

  /** The `id` the lookup compares with: an option's own, and `undefined` for
      an array, which has no such property. */
  function SelectedId(sel: Selection): Option<int>
    requires !sel.Null?
  {
    if sel.Single? then sel.option.id else None
  }

  /** The `group` the lookup compares with, in the same way. */
  function SelectedGroup(sel: Selection): Option<string>
    requires !sel.Null?
  {
    if sel.Single? then sel.option.group else None
  }

  /** The predicate given to `options.find`: same id, and also the same group
      when both the candidate and the selection have a non-empty group. */
  predicate Matches(opt: FilterOption, id: Option<int>, group: Option<string>)
  {
    if Truthy(opt.group) && Truthy(group) then opt.id == id && opt.group == group
    else opt.id == id
  }

  /** `Array.prototype.find` with `Matches`, as the index of the first match. */
  function FirstMatch(options: seq<FilterOption>, id: Option<int>, group: Option<string>): (r: Option<nat>)
    ensures r.Some? ==> r.value < |options| && Matches(options[r.value], id, group)
    ensures r.Some? ==> forall j :: 0 <= j < r.value ==> !Matches(options[j], id, group)
    ensures r.None? ==> forall j :: 0 <= j < |options| ==> !Matches(options[j], id, group)
  {
    if options == [] then None
    else if Matches(options[0], id, group) then Some(0)
    else match FirstMatch(options[1..], id, group)
      case None => None
      case Some(k) => Some(k + 1)
  }

  /** Index i holds the first option matching the given id and group. */
  predicate IsFirstMatch(options: seq<FilterOption>, i: nat, id: Option<int>, group: Option<string>)
  {
    i < |options| && Matches(options[i], id, group) &&
    forall j :: 0 <= j < i ==> !Matches(options[j], id, group)
  }

  /** `selectedColor`: nothing in multiple mode or for a `null` selection;
      otherwise (an empty array is truthy, so it is looked up too) the color
      of the first listed option matching the selection, and nothing when
      none matches. */
  function SelectedColor(options: seq<FilterOption>, multiple: bool, sel: Selection): (r: Option<string>)
    ensures sel.Null? || multiple ==> r == None
    ensures r.Some? ==>
              exists i: nat :: IsFirstMatch(options, i, SelectedId(sel), SelectedGroup(sel)) && options[i].color == r
    ensures !sel.Null? && !multiple ==>
              forall i: nat :: IsFirstMatch(options, i, SelectedId(sel), SelectedGroup(sel)) ==> r == options[i].color
  {
    if sel.Null? || multiple then None
    else
      match FirstMatch(options, SelectedId(sel), SelectedGroup(sel))
      case None => None
      case Some(i) => options[i].color
  }

  /** In single mode, a listed option that no other listed option can be
      mistaken for (by id, or by id and group) shows its own color. */
  lemma SelectedColorOfListedOption(options: seq<FilterOption>, i: nat)
    requires i < |options|
    requires forall j :: 0 <= j < |options| && j != i ==>
               !Matches(options[j], options[i].id, options[i].group)
    ensures SelectedColor(options, false, Single(options[i])) == options[i].color
  {
  }

  /** A single option whose id no listed option carries has no color. */
  lemma SelectedColorOfUnlistedId(options: seq<FilterOption>, o: FilterOption)
    requires forall j :: 0 <= j < |options| ==> options[j].id != o.id
    ensures SelectedColor(options, false, Single(o)) == None
  {
  }

  /** An array left in the selection in single mode has neither id nor group,
      so the lookup picks the first listed option that has no id. */
  lemma SelectedColorOfArrayInSingleMode(options: seq<FilterOption>, s: seq<FilterOption>, i: nat)
    requires i < |options| && options[i].id == None
    requires forall j :: 0 <= j < i ==> options[j].id != None
    ensures SelectedColor(options, false, List(s)) == options[i].color
  {
  }
}
