/** Element descriptors the checker extracts from a rendered page, one
    datatype per element category it queries. */
module Page {

  /** An `img` element: its source reference and its alternative text
      (the empty string when the attribute is absent). */
  datatype Image = Image(src: string, alt: string)

  /** An element carrying a `role` attribute, and whether it also has `aria-label`. */
  datatype AriaElement = AriaElement(role: string, hasAriaLabel: bool)

  /** An `h1`..`h6` element: its level (the digit of its tag name) and its text. */
  datatype Heading = Heading(level: nat, text: string)

  /** An `input`, `select` or `textarea`: its control type, whether some
      `label` is associated with it, and whether it has `aria-label`. */
  datatype FormControl = FormControl(controlType: string, hasLabel: bool, hasAriaLabel: bool)

  /** Everything the checks read from one page, each list in document order. */
  datatype Snapshot = Snapshot(
    images: seq<Image>,
    ariaElements: seq<AriaElement>,
    headings: seq<Heading>,
    forms: seq<FormControl>)
}
