/** element.go: the three kinds of element the reader produces and the writer prints. */
module Elements {
  import opened Bytes
  import opened KeyValues
  import opened StartElements
  import opened TextElements

  /** The Element interface as a value: the contents of a StartElement, an EndElement or a
      TextElement at the moment it is handed on. */
  datatype Element =
    | Start(name: seq<byte>, attrs: seq<KV>, hasEnd: bool)
    | End(name: seq<byte>)
    | Text(text: TextElement)

  /** Element.String. The closing tag has no textual form of its own in this revision, so it is
      supplied as `endForm`. */
  function Render(e: Element, endForm: seq<byte> -> seq<byte>): (s: seq<byte>)
    ensures e.Start? ==> |s| >= 2 && s[0] == Lt && s[|s| - 1] == Gt
    ensures e.End? ==> s == endForm(e.name)
    ensures e.Text? ==> s == e.text.bytes
  {
    match e
    case Start(name, attrs, hasEnd) => StartText(name, attrs, hasEnd)
    case End(name) => endForm(name)
    case Text(t) => t.String()
  }
}
