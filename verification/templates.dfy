/** The two `%`-format templates of the generator, `latex_pattern` and
    `latex_aliases_pattern`, and Python's `template % fields` for a
    template whose fields are all `%(name)s`. */
module Templates {

  /** A format string: literal text and named `%(name)s` fields. */
  datatype Template = End | Text(text: string, rest: Template) | Field(name: string, rest: Template)

  /** The names of the fields a template refers to. */
  function FieldsOf(t: Template): set<string> {
    match t
    case End => {}
    case Text(_, rest) => FieldsOf(rest)
    case Field(n, rest) => {n} + FieldsOf(rest)
  }

  /** `t % fields`: every field replaced by its value.  A missing key is a
      `KeyError` in Python, so every field must have a value. */
  function Format(t: Template, fields: map<string, string>): string
    requires FieldsOf(t) <= fields.Keys
  {
    match t
    case End => ""
    case Text(s, rest) => s + Format(rest, fields)
    case Field(n, rest) => fields[n] + Format(rest, fields)
  }

  /** `latex_pattern`: the internal name `faicon@<csname>` bound to the
      glyph `<hex>`, and the public macro `<icon_name>` typesetting it. */
  const LatexPattern: Template :=
    Text("\\expandafter\\def\\csname faicon@", Field("csname",
    Text("\\endcsname {\\symbol{", Field("hex",
    Text("}} \\def", Field("icon_name",
    Text(" {{\\FA\\csname faicon@", Field("csname",
    Text("\\endcsname}}", End)))))))))

  /** `latex_aliases_pattern`: the internal name `faicon@<alias_name>` and
      the macro `<alias_icon>` expanding to the primary's macro. */
  const LatexAliasesPattern: Template :=
    Text("\\expandafter\\def\\csname faicon@", Field("alias_name",
    Text("\\endcsname {", Field("primary",
    Text("} \\def", Field("alias_icon",
    Text(" {", Field("primary_icon",
    Text("}", End)))))))))
}
