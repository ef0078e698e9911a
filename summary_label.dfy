/** The text the closed dropdown shows (`displayLabel`): the translated
    selection, or the translated "all" token when nothing is selected, with the
    prefix in front when it is switched on. */
module SummaryLabel {
  import opened FilterOptions

  /** Translation lookup (`translate.instant`), a total function from key to
      text whose behaviour the model does not fix. */
  type Translator = string -> string

  /** The key shown when nothing is selected. */
  const AllKey := "TODOS"

  /** The separator of the labels of several selected options. */
  const Separator := ", "

  /** `Array.prototype.join`: the parts with `sep` between neighbours. */
  function Join(parts: seq<string>, sep: string): (r: string)
    ensures parts == [] ==> r == ""
    ensures |parts| == 1 ==> r == parts[0]
    ensures |parts| > 0 ==> |r| >= |parts[0]| && r[..|parts[0]|] == parts[0]
  {
    if parts == [] then ""
    else if |parts| == 1 then parts[0]
    else parts[0] + sep + Join(parts[1..], sep)
  }

  /** Joining one more part appends the separator and that part. */
  lemma {:induction false} JoinAppend(parts: seq<string>, sep: string, last: string)
    requires parts != []
    ensures Join(parts + [last], sep) == Join(parts, sep) + sep + last
  {
    if |parts| > 1 {
      assert (parts + [last])[1..] == parts[1..] + [last];
      JoinAppend(parts[1..], sep, last);
    } else {
      assert (parts + [last])[1..] == [last];
    }
  }

  /** The length of a join: every part once and one separator per gap. */
  lemma {:induction false} JoinLength(parts: seq<string>, sep: string)
    requires parts != []
    ensures |Join(parts, sep)| == TotalLength(parts) + (|parts| - 1) * |sep|
  {
    if |parts| > 1 {
      JoinLength(parts[1..], sep);
    }
  }

  /** The sum of the lengths of the parts. */
  function TotalLength(parts: seq<string>): nat
  {
    if parts == [] then 0 else |parts[0]| + TotalLength(parts[1..])
  }

  /** `selected.map(opt => translate.instant(opt.label))`. */
  function TranslatedLabels(tr: Translator, s: seq<FilterOption>): (r: seq<string>)
    ensures |r| == |s|
    ensures forall i :: 0 <= i < |s| ==> r[i] == tr(s[i].labelText)
  {
    if s == [] then [] else [tr(s[0].labelText)] + TranslatedLabels(tr, s[1..])
  }

  /** The prefix is shown when `showPrefix` is on and `prefix` is non-empty. */
  predicate ShowsPrefix(showPrefix: bool, prefix: Option<string>)
  {
    showPrefix && Truthy(prefix)
  }

  /** `` `${prefix}: ${text}` `` when the prefix is shown, `text` otherwise. */
  function Prefixed(showPrefix: bool, prefix: Option<string>, text: string): (r: string)
    ensures |r| >= |text| && r[|r| - |text|..] == text
    ensures r == text <==> !ShowsPrefix(showPrefix, prefix)
    ensures ShowsPrefix(showPrefix, prefix) ==>
              |r| == |prefix.value| + 2 + |text| && r[..|prefix.value| + 2] == prefix.value + ": "
  {
    if showPrefix && Truthy(prefix) then prefix.value + ": " + text else text
  }

  /** `displayLabel`, as a function of the state it reads. */
  function Display(tr: Translator, showPrefix: bool, prefix: Option<string>, sel: Selection): (r: string)
    ensures sel == Null || sel == List([]) ==> r == Prefixed(showPrefix, prefix, tr(AllKey))
    ensures sel.List? && sel.options != [] ==>
              r == Prefixed(showPrefix, prefix, Join(TranslatedLabels(tr, sel.options), Separator))
    ensures sel.Single? && Truthy(sel.option.labelInput) ==>
              r == Prefixed(showPrefix, prefix, tr(sel.option.labelInput.value))
    ensures sel.Single? && !Truthy(sel.option.labelInput) ==>
              r == Prefixed(showPrefix, prefix, tr(sel.option.labelText))
  {
    if sel.Null? then
      Prefixed(showPrefix, prefix, tr(AllKey))
    else if sel.List? && |sel.options| == 0 then
      Prefixed(showPrefix, prefix, tr(AllKey))
    else
      var value := if sel.List? then Join(TranslatedLabels(tr, sel.options), Separator)
                   else tr(sel.option.labelText);
      if sel.Single? && Truthy(sel.option.labelInput) then
        var returnValue := if Truthy(sel.option.labelInput) then tr(sel.option.labelInput.value) else value;
        Prefixed(showPrefix, prefix, returnValue)
      else
        Prefixed(showPrefix, prefix, value)
  }

  /** With several options selected, selecting one more extends the shown text
      by the separator and that option's translated label, whether or not the
      prefix is shown. */
  lemma DisplayAppend(tr: Translator, showPrefix: bool, prefix: Option<string>,
                      s: seq<FilterOption>, o: FilterOption)
    requires s != []
    ensures Display(tr, showPrefix, prefix, List(s + [o]))
         == Display(tr, showPrefix, prefix, List(s)) + Separator + tr(o.labelText)
  {
    assert TranslatedLabels(tr, s + [o]) == TranslatedLabels(tr, s) + [tr(o.labelText)];
    JoinAppend(TranslatedLabels(tr, s), Separator, tr(o.labelText));
  }
}
