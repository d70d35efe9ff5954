/** text.go: a run of character data between tags. */
module TextElements {
  import opened Bytes
  import Bufio

  /** A TextElement is its bytes, exactly as they stood in the input. */
  datatype TextElement = TextElement(bytes: seq<byte>)
  {
    /** String: the bytes themselves, with no escaping and no delimiters. */
    function String(): (s: seq<byte>)
      ensures |s| == |bytes| && forall i :: 0 <= i < |s| ==> s[i] == bytes[i]
    {
      bytes
    }

    /** parse: a text element reads nothing from the reader (no `modifies`) and never fails. */
    method Parse(r: Bufio.Reader) returns (err: Option<Error>)
      ensures err == None
    {
      err := None;
    }
  }

  /** NewText: the element holding `s`. */
  function NewText(s: seq<byte>): (t: TextElement)
    ensures t.bytes == s
  {
    TextElement(s)
  }

  /** NewText and String are inverse to each other. */
  lemma TextRoundTrip(s: seq<byte>, t: TextElement)
    ensures NewText(s).String() == s
    ensures NewText(t.String()) == t
  {
  }
}
