/** The fixed catalog of component templates the builder's palette offers:
    a read-only map from a type key to its display name, icon and default
    markup. */
module Catalog {

  /** One palette entry: what the sidebar shows and the markup a drop inserts. */
  datatype Template = Template(name: string, icon: string, markup: string)

  /** `n` blanks; the card template is a multi-line literal whose lines are
      indented with blanks. */
  function Blanks(n: nat): string
  {
    if n == 0 then "" else " " + Blanks(n - 1)
  }

  /** The card markup exactly as the multi-line literal spells it: it starts
      with a line break and ends with a line break and sixteen blanks. */
  const CardMarkup: string :=
    "\n" + Blanks(20) + "<div class=\"card\">" +
    "\n" + Blanks(24) + "<div class=\"card-body\">" +
    "\n" + Blanks(28) + "<h5 class=\"card-title\">Card title</h5>" +
    "\n" + Blanks(28) + "<p class=\"card-text\">Card content</p>" +
    "\n" + Blanks(24) + "</div>" +
    "\n" + Blanks(20) + "</div>" +
    "\n" + Blanks(16)

  /** The catalog, keyed by component type. */
  const Templates: map<string, Template> := map[
    "container" := Template("Container", "Box", "<div class=\"container\">Container content</div>"),
    "row"       := Template("Row", "Layout", "<div class=\"row\">Row content</div>"),
    "col"       := Template("Column", "Columns", "<div class=\"col\">Column content</div>"),
    "heading"   := Template("Heading", "Type", "<h2>Heading</h2>"),
    "paragraph" := Template("Paragraph", "AlignLeft", "<p>Lorem ipsum dolor sit amet</p>"),
    "button"    := Template("Button", "Square", "<button class=\"btn btn-primary\">Button</button>"),
    "card"      := Template("Card", "CreditCard", CardMarkup),
    "alert"     := Template("Alert", "AlertTriangle", "<div class=\"alert alert-primary\">Alert message</div>")
  ]

  /** The catalog has exactly eight types, and none of them is the empty
      string, so a dragged type is never falsy in a truthiness test. */
  lemma CatalogTypes()
    ensures Templates.Keys == {"container", "row", "col", "heading", "paragraph", "button", "card", "alert"}
    ensures |Templates| == 8
    ensures forall t :: t in Templates ==> t != ""
  {
    assert Templates.Keys == {"container", "row", "col", "heading", "paragraph", "button", "card", "alert"};
  }
}
