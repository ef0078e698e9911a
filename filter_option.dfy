/** The entities the dropdown filter works on: a selectable option, the
    JavaScript notion of an optional field, and the shapes the selection
    state can take. */
module FilterOptions {

  /** An optional field of a TypeScript interface (`x?: T`): absent or present. */
  datatype Option<T> = None | Some(value: T)

  /** JavaScript truthiness of an optional string: present and not "". */
  predicate Truthy(s: Option<string>)
  {
    s.Some? && s.value != ""
  }

  /** One selectable entry. It is an object: two options with equal fields are
      still different entries, and Dafny's `==` on this class compares
      references, as JavaScript's `===` and `Set` do. The component never
      writes to an option, so the fields are constants. */
  class FilterOption {
    const labelText: string  // the `label` field (`label` is a Dafny keyword)
    const id: Option<int>
    const group: Option<string>
    const icon: Option<string>
    const color: Option<string>
    const labelInput: Option<string>

    constructor (labelText: string, id: Option<int>, group: Option<string>,
                 icon: Option<string>, color: Option<string>, labelInput: Option<string>)
      ensures this.labelText == labelText && this.id == id && this.group == group
      ensures this.icon == icon && this.color == color && this.labelInput == labelInput
    {
      this.labelText := labelText;
      this.id := id;
      this.group := group;
      this.icon := icon;
      this.color := color;
      this.labelInput := labelInput;
    }
  }

  /** The value held by the component and carried by its confirm event:
      `null`, one option, or an array of options. */
  datatype Selection = Null | Single(option: FilterOption) | List(options: seq<FilterOption>)

  /** The empty shape of a mode: `[]` when several options may be chosen,
      `null` otherwise. */
  function EmptyShape(multiple: bool): Selection
  {
    if multiple then List([]) else Null
  }

  /** The selection has the shape its mode expects. */
  predicate ShapeMatches(multiple: bool, sel: Selection)
  {
    if multiple then !sel.Single? else !sel.List?
  }
}
