/** Column values of tree items.
    A Qt `QVariant` as the part tree uses it: either empty (a default-constructed
    `QVariant()`, returned for every out-of-range lookup) or a piece of text such as a
    part name or the flag strings "true"/"false". */
module Values {

  datatype Value = Null | Text(text: string)

  /** The literal strings the boolean columns are displayed as. */
  function FlagText(b: bool): (v: Value)
    ensures v.Text?
    ensures v.text == "true" <==> b
    ensures !b ==> v.text == "false"
  {
    if b then Text("true") else Text("false")
  }
}
