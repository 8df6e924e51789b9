/** The configurator's form state (`BadgeFormData` in
    components/glassmorphic-nav.tsx) and the handlers that update it. */
module BadgeForm {
  import opened Wrappers
  import Text

  /** `fontSize` starts as the number 12, but the input handler stores the
      input element's text, so after the first edit it holds a string. */
  datatype FontSize = Num(n: int) | Raw(text: string)

  /** `label` is a reserved word here, so the label field is `labelText`. */
  datatype BadgeForm = BadgeForm(url: string, labelText: string, color: string, fontSize: FontSize)

  /** The form the component mounts with. */
  const Initial := BadgeForm("", "Views", "#0d6efd", Num(12))

  /** The `name` attribute of the input that raised a change event. */
  datatype Field = Url | Label | Color | FontSizeField

  /** `fontSize.toString()`: the decimal numeral of a number, a string as is. */
  function FontSizeText(fs: FontSize): (s: string)
    ensures fs.Num? ==> Text.IsIntNumeral(s) && Text.ParseInt(s) == Some(fs.n)
    ensures fs.Raw? ==> s == fs.text
  {
    match fs
    case Num(n) => Text.IntToDecimal(n)
    case Raw(t) => t
  }

  /** The text a field shows in its input. */
  function Get(f: BadgeForm, field: Field): string {
    match field
    case Url => f.url
    case Label => f.labelText
    case Color => f.color
    case FontSizeField => FontSizeText(f.fontSize)
  }

  /** `handleInputChange`: store the input's text under the field its name
      selects, keeping every other field. */
  function HandleInputChange(f: BadgeForm, field: Field, value: string): (r: BadgeForm)
    ensures Get(r, field) == value
    ensures forall other: Field :: other != field ==> Get(r, other) == Get(f, other)
    ensures field == FontSizeField ==> r.fontSize == Raw(value)
    ensures field != FontSizeField ==> r.fontSize == f.fontSize
  {
    match field
    case Url => f.(url := value)
    case Label => f.(labelText := value)
    case Color => f.(color := value)
    case FontSizeField => f.(fontSize := Raw(value))
  }

  /** `handleColorInputChange`: the colour text box replaces only the colour. */
  function HandleColorInputChange(f: BadgeForm, value: string): (r: BadgeForm)
    ensures r.color == value
    ensures r.url == f.url && r.labelText == f.labelText && r.fontSize == f.fontSize
  {
    f.(color := value)
  }

  /** The form together with the colour palette's open flag. */
  datatype Editor = Editor(form: BadgeForm, paletteOpen: bool)

  /** `handleColorSelect`: picking a palette colour replaces only the colour
      and closes the palette. */
  function HandleColorSelect(e: Editor, value: string): (r: Editor)
    ensures r.form.color == value
    ensures r.form.url == e.form.url && r.form.labelText == e.form.labelText && r.form.fontSize == e.form.fontSize
    ensures !r.paletteOpen
  {
    Editor(e.form.(color := value), false)
  }

  /** The two colour handlers agree on the form with the generic handler
      under the name `color`. */
  lemma ColorHandlersAgree(e: Editor, value: string)
    ensures HandleColorSelect(e, value).form == HandleColorInputChange(e.form, value)
    ensures HandleColorInputChange(e.form, value) == HandleInputChange(e.form, Color, value)
  {
  }

  /** Of two changes to one field, the later wins; changes to different
      fields commute. */
  lemma InputChangesCompose(f: BadgeForm, a: Field, u: string, b: Field, v: string)
    ensures a == b ==> HandleInputChange(HandleInputChange(f, a, u), b, v) == HandleInputChange(f, b, v)
    ensures a != b ==>
      HandleInputChange(HandleInputChange(f, a, u), b, v) == HandleInputChange(HandleInputChange(f, b, v), a, u)
  {
  }

  /** Writing back what a field shows changes nothing, except that a numeric
      font size becomes its text. */
  lemma InputChangeOfShownText(f: BadgeForm, field: Field)
    ensures field != FontSizeField ==> HandleInputChange(f, field, Get(f, field)) == f
    ensures field == FontSizeField ==>
      HandleInputChange(f, field, Get(f, field)) == f.(fontSize := Raw(FontSizeText(f.fontSize)))
  {
  }
}
