/** The dropdown filter component: its inputs, its one piece of mutable
    state (the selection), the events it emits, and the views the template
    reads. The confirm and cancel emitters are recorded in ghost logs. */
module DropdownFilterComponent {
  import opened FilterOptions
  import Toggle
  import SummaryLabel
  import SelectionQueries
  import Grouping

  class DropdownFilter {
    // inputs, bound by the enclosing view
    var options: seq<FilterOption>
    var multiple: bool
    var prefix: Option<string>
    var showPrefix: bool

    /** The current selection. */
    var selected: Selection

    /** The injected translation service. */
    const translate: SummaryLabel.Translator

    /** Every value emitted on `confirm`, oldest first. */
    ghost var confirmLog: seq<Selection>
    /** How many times `cancel` has been emitted. */
    ghost var cancelCount: nat

    /** A new component has the inputs' defaults and no selection. */
    constructor (translate: SummaryLabel.Translator)
      ensures this.translate == translate
      ensures options == [] && !multiple && prefix == None && !showPrefix
      ensures selected == Null && ShapeMatches(multiple, selected)
      ensures confirmLog == [] && cancelCount == 0
    {
      this.translate := translate;
      options := [];
      multiple := false;
      prefix := None;
      showPrefix := false;
      selected := Null;
      confirmLog := [];
      cancelCount := 0;
    }

    /** The `value` input: `null` and `[]` become the mode's empty shape, any
        other value is stored as given, whatever its shape. */
    method SetValue(value: Selection)
      modifies this`selected
      ensures value == Null || value == List([]) ==> selected == EmptyShape(multiple)
      ensures value != Null && value != List([]) ==> selected == value
      ensures HasSelection() == SelectionQueries.HasSelection(value)
      ensures ShapeMatches(multiple, value) ==> ShapeMatches(multiple, selected)
    {
      if value == Null || (value.List? && |value.options| == 0) {
        selected := if multiple then List([]) else Null;
      } else {
        selected := value;
      }
    }

    /** `displayLabel`, recomputed from the current state: the translated
        `TODOS` for no selection, otherwise the selection's text, under the
        prefix rule. */
    function DisplayLabel(): (r: string)
      reads this
      ensures selected == Null || selected == List([]) ==>
                r == SummaryLabel.Prefixed(showPrefix, prefix, translate(SummaryLabel.AllKey))
      ensures selected.List? && selected.options != [] ==>
                r == SummaryLabel.Prefixed(showPrefix, prefix,
                       SummaryLabel.Join(SummaryLabel.TranslatedLabels(translate, selected.options), SummaryLabel.Separator))
      ensures selected.Single? && Truthy(selected.option.labelInput) ==>
                r == SummaryLabel.Prefixed(showPrefix, prefix, translate(selected.option.labelInput.value))
      ensures selected.Single? && !Truthy(selected.option.labelInput) ==>
                r == SummaryLabel.Prefixed(showPrefix, prefix, translate(selected.option.labelText))
    {
      SummaryLabel.Display(translate, showPrefix, prefix, selected)
    }

    /** `groupedOptions`: walks the options once and appends each to the
        bucket of its group, creating the bucket on first use. */
    method GroupedOptions() returns (groups: map<string, seq<FilterOption>>)
      ensures groups == Grouping.Grouped(options)
    {
      groups := map[];
      for i := 0 to |options|
        invariant groups == Grouping.Grouped(options[..i])
      {
        var option := options[i];
        var groupKey := Grouping.GroupKey(option);
        ghost var before := groups;
        if groupKey !in groups {
          groups := groups[groupKey := []];
        }
        assert groups[groupKey] == if groupKey in before then before[groupKey] else [];
        groups := groups[groupKey := groups[groupKey] + [option]];
        assert groups == before[groupKey := (if groupKey in before then before[groupKey] else []) + [option]];
        Grouping.GroupedSnoc(options[..i], option);
        assert options[..i + 1] == options[..i] + [option];
      }
      assert options[..|options|] == options;
    }

    /** `onConfirm`: emits the current selection as it is. */
    method OnConfirm()
      modifies this`confirmLog
      ensures confirmLog == old(confirmLog) + [selected]
    {
      confirmLog := confirmLog + [selected];
    }

    /** `onCancel`: emits `cancel` and leaves the selection alone. */
    method OnCancel()
      modifies this`cancelCount
      ensures cancelCount == old(cancelCount) + 1
    {
      cancelCount := cancelCount + 1;
    }

    /** `isSelected`, on the current selection. */
    function IsSelected(option: FilterOption): (b: bool)
      reads this
      ensures selected.List? ==>
                (b <==> exists i :: 0 <= i < |selected.options| && selected.options[i].labelText == option.labelText)
      ensures !selected.List? ==> (b <==> selected == Single(option))
      ensures b ==> HasSelection()
    {
      SelectionQueries.IsSelected(selected, option)
    }

    /** `onSelection`. In multiple mode the clicked option is toggled in or
        out of the set built from the current array and nothing is emitted; in
        single mode it replaces the selection and is emitted at once. A single
        option stored in multiple mode is excluded: the source throws on it. */
    method OnSelection(option: FilterOption)
      requires multiple ==> !selected.Single?
      modifies this`selected, this`confirmLog
      ensures multiple ==> selected == List(Toggle.Reselect(old(selected), option))
      ensures multiple ==> confirmLog == old(confirmLog)
      ensures !multiple ==> selected == Single(option) && confirmLog == old(confirmLog) + [Single(option)]
      ensures ShapeMatches(multiple, selected)
      ensures multiple ==> Toggle.NoDuplicates(selected.options)
      ensures multiple ==> (option in selected.options <==> option !in Toggle.CurrentArray(old(selected)))
      ensures !multiple ==> HasSelection() && IsSelected(option)
    {
      if multiple {
        var current := Toggle.Dedup(if selected.Null? then [] else selected.options);
        if option in current {
          current := Toggle.Without(current, option);
        } else {
          current := current + [option];
        }
        selected := List(current);
      } else {
        selected := Single(option);
        confirmLog := confirmLog + [Single(option)];
      }
    }

    /** `hasSelection`, on the current selection. */
    function HasSelection(): (b: bool)
      reads this
      ensures b <==> selected != Null && selected != List([])
    {
      SelectionQueries.HasSelection(selected)
    }

    /** `clearSelection`: resets to the mode's empty shape and emits it. */
    method ClearSelection()
      modifies this`selected, this`confirmLog
      ensures selected == EmptyShape(multiple)
      ensures confirmLog == old(confirmLog) + [EmptyShape(multiple)]
      ensures ShapeMatches(multiple, selected) && !HasSelection()
      ensures DisplayLabel() == SummaryLabel.Prefixed(showPrefix, prefix, translate(SummaryLabel.AllKey))
    {
      selected := if multiple then List([]) else Null;
      confirmLog := confirmLog + [if multiple then List([]) else Null];
    }

    /** `selectedColor`, on the current state. */
    function SelectedColor(): (r: Option<string>)
      reads this
      ensures selected.Null? || multiple ==> r == None
      ensures !selected.Null? && !multiple ==>
                forall i: nat :: SelectionQueries.IsFirstMatch(options, i, SelectionQueries.SelectedId(selected),
                                                               SelectionQueries.SelectedGroup(selected))
                                 ==> r == options[i].color
      ensures r.Some? ==>
                exists i: nat :: SelectionQueries.IsFirstMatch(options, i, SelectionQueries.SelectedId(selected),
                                                               SelectionQueries.SelectedGroup(selected))
                                 && options[i].color == r
    {
      SelectionQueries.SelectedColor(options, multiple, selected)
    }
  }

  /** In single mode, choosing `a` and then `b` leaves exactly `b` selected
      and emits both choices, in order. */
  method SelectTwiceInSingleMode(c: DropdownFilter, a: FilterOption, b: FilterOption)
    requires !c.multiple
    modifies c`selected, c`confirmLog
    ensures c.selected == Single(b)
    ensures c.confirmLog == old(c.confirmLog) + [Single(a), Single(b)]
  {
    c.OnSelection(a);
    c.OnSelection(b);
  }

  /** In multiple mode, clicking an unselected option twice restores a
      selection without duplicates (`null` comes back as `[]`) and emits
      nothing. */
  method ToggleTwiceInMultipleMode(c: DropdownFilter, o: FilterOption)
    requires c.multiple && !c.selected.Single?
    requires Toggle.NoDuplicates(Toggle.CurrentArray(c.selected))
    requires o !in Toggle.CurrentArray(c.selected)
    modifies c`selected, c`confirmLog
    ensures c.selected == List(Toggle.CurrentArray(old(c.selected)))
    ensures c.confirmLog == old(c.confirmLog)
  {
    ghost var before := c.selected;
    c.OnSelection(o);
    c.OnSelection(o);
    Toggle.ReselectTwice(before, o);
    Toggle.DedupOfSet(Toggle.CurrentArray(before));
  }
}
