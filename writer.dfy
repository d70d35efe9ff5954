/** writer.go: printing elements back to text, flat or with a two-space indent per open element. */
module XmlWriter {
  import opened Bytes
  import opened KeyValues
  import opened StartElements
  import opened EndElements
  import opened TextElements
  import opened Elements
  import opened XmlReader

  /** The io.Writer behind a Writer: it takes bytes until it holds `capacity` of them; a write that
      does not fit writes the part that does and fails with a short write. */
  class Sink {
    var out: seq<byte>
    const capacity: nat

    ghost predicate Valid()
      reads this
    {
      |out| <= capacity
    }

    constructor (capacity: nat)
      ensures Valid() && out == [] && this.capacity == capacity
    {
      out := [];
      this.capacity := capacity;
    }

    /** io.WriteString: the bytes written and the error. */
    method WriteString(s: seq<byte>) returns (n: nat, err: Option<Error>)
      requires Valid()
      modifies this
      ensures Valid()
      ensures |old(out)| + |s| <= capacity ==> out == old(out) + s && n == |s| && err == None
      ensures |old(out)| + |s| > capacity ==>
        out == (old(out) + s)[..capacity] && n == capacity - |old(out)| && err == Some(ShortWrite)
    {
      if |out| + |s| <= capacity {
        out := out + s;
        n, err := |s|, None;
      } else {
        n := capacity - |out|;
        out := (out + s)[..capacity];
        err := Some(ShortWrite);
      }
    }
  }

  /** The bytes of `strs`, one after the other. */
  function Concat(strs: seq<seq<byte>>): seq<byte>
  {
    if strs == [] then [] else strs[0] + Concat(strs[1..])
  }

  /** What a sink holds after a write, and the error of the write. */
  datatype Written = Written(out: seq<byte>, err: Option<Error>)

  /** writeString on a sink holding `out0`: the strings in order, stopping at the first that does
      not fit. */
  function WriteSpec(out0: seq<byte>, strs: seq<seq<byte>>, capacity: nat): (w: Written)
    requires |out0| <= capacity
    ensures |out0| <= |w.out| <= capacity && w.out[..|out0|] == out0
    ensures w.err == None || w.err == Some(ShortWrite)
    decreases |strs|
  {
    if strs == [] then Written(out0, None)
    else
      var x := out0 + strs[0];
      if |x| <= capacity then
        var w := WriteSpec(x, strs[1..], capacity);
        assert w.out[..|out0|] == w.out[..|x|][..|out0|];
        w
      else Written(x[..capacity], Some(ShortWrite))
  }

  /** writeString succeeds exactly when all the strings fit, and then the sink gains their
      concatenation; otherwise it is filled with as much of that concatenation as fits. */
  lemma {:induction false} WriteSpecIsTruncatedConcat(out0: seq<byte>, strs: seq<seq<byte>>, capacity: nat)
    requires |out0| <= capacity
    ensures var all := out0 + Concat(strs);
      WriteSpec(out0, strs, capacity)
        == if |all| <= capacity then Written(all, None) else Written(all[..capacity], Some(ShortWrite))
    decreases |strs|
  {
    if strs != [] {
      var x := out0 + strs[0];
      var all := out0 + Concat(strs);
      assert all == x + Concat(strs[1..]);
      if |x| <= capacity {
        WriteSpecIsTruncatedConcat(x, strs[1..], capacity);
      } else {
        assert all[..capacity] == x[..capacity];
      }
    }
  }

  /** writeString: each string in turn, breaking at the first error and returning it. */
  method WriteStrings(w: Sink, strs: seq<seq<byte>>) returns (err: Option<Error>)
    requires w.Valid()
    modifies w
    ensures w.Valid()
    ensures Written(w.out, err) == WriteSpec(old(w.out), strs, w.capacity)
  {
    ghost var goal := WriteSpec(w.out, strs, w.capacity);
    err := None;
    var i := 0;
    while i < |strs|
      invariant 0 <= i <= |strs| && w.Valid() && err == None
      invariant WriteSpec(w.out, strs[i..], w.capacity) == goal
    {
      assert strs[i..][1..] == strs[i + 1..];
      var _, e := w.WriteString(strs[i]);
      err := e;
      if err != None {
        break;
      }
      i := i + 1;
    }
  }

  /** A string of spaces of even length: the indents WriteIndent can reach from "". */
  predicate IsIndent(s: seq<byte>)
  {
    |s| % 2 == 0 && forall i :: 0 <= i < |s| ==> s[i] == Space
  }

  /** How an element moves the nesting depth: an open start tag deepens it, an end tag closes
      one level, text and self-closing tags leave it. */
  function Delta(e: Element): int
  {
    if e.Start? && !e.hasEnd then 1 else if e.End? then -1 else 0
  }

  /** The indent an element is printed with: an end tag's is two bytes shorter. */
  function IndentBefore(indent: seq<byte>, e: Element): (s: seq<byte>)
    requires e.End? ==> |indent| >= 2
    ensures e.End? ==> |s| == |indent| - 2 && s <= indent
    ensures !e.End? ==> s == indent
  {
    if e.End? then indent[..|indent| - 2] else indent
  }

  /** The indent left for the next element. */
  function IndentAfter(indent: seq<byte>, e: Element): (s: seq<byte>)
    requires e.End? ==> |indent| >= 2
    ensures |s| == |indent| + 2 * Delta(e)
    ensures IsIndent(indent) ==> IsIndent(s)
  {
    var before := IndentBefore(indent, e);
    if e.Start? && !e.hasEnd then before + [Space, Space] else before
  }

  /** The nesting depth a sequence of elements adds up to. */
  function Depth(es: seq<Element>): int
  {
    if es == [] then 0 else Delta(es[0]) + Depth(es[1..])
  }

  /** Starting at depth `h`, no prefix of `es` closes more levels than are open. */
  predicate NeverBelow(h: int, es: seq<Element>)
    ensures NeverBelow(h, es) ==> h + Depth(es) >= 0
    decreases |es|
  {
    if es == [] then h >= 0
    else h + Delta(es[0]) >= 0 && NeverBelow(h + Delta(es[0]), es[1..])
  }

  /** The indent after WriteIndent has printed each of `es` in turn, or None when an end tag
      meets an indent shorter than two bytes (where the slice in WriteIndent panics). */
  function IndentsAfter(indent: seq<byte>, es: seq<Element>): Option<seq<byte>>
    decreases |es|
  {
    if es == [] then Some(indent)
    else if es[0].End? && |indent| < 2 then None
    else IndentsAfter(IndentAfter(indent, es[0]), es[1..])
  }

  /** From an indent, the printer never panics exactly when the elements never close more than
      is open, and the indent is then two spaces per open level. */
  lemma {:induction false} IndentTracksDepth(indent: seq<byte>, es: seq<Element>)
    requires IsIndent(indent)
    ensures NeverBelow(|indent| / 2, es) ==>
      IndentsAfter(indent, es) == Some(Spaces(|indent| + 2 * Depth(es)))
    ensures !NeverBelow(|indent| / 2, es) ==> IndentsAfter(indent, es) == None
    decreases |es|
  {
    if es == [] {
      assert indent == Spaces(|indent|);
    } else if es[0].End? && |indent| < 2 {
    } else {
      var next := IndentAfter(indent, es[0]);
      assert |next| / 2 == |indent| / 2 + Delta(es[0]);
      IndentTracksDepth(next, es[1..]);
    }
  }

  /** Raising the starting depth keeps a sequence from closing too much. */
  lemma {:induction false} NeverBelowRaised(h: int, k: int, es: seq<Element>)
    requires NeverBelow(h, es) && h <= k
    ensures NeverBelow(k, es)
    decreases |es|
  {
    if es != [] {
      NeverBelowRaised(h + Delta(es[0]), k + Delta(es[0]), es[1..]);
    }
  }

  /** A balanced run of elements (every end tag closes an open start tag, and all are closed)
      leaves the indent where it found it. */
  lemma BalancedRestoresIndent(indent: seq<byte>, es: seq<Element>)
    requires IsIndent(indent) && NeverBelow(0, es) && Depth(es) == 0
    ensures IndentsAfter(indent, es) == Some(indent)
  {
    NeverBelowRaised(0, |indent| / 2, es);
    IndentTracksDepth(indent, es);
    assert indent == Spaces(|indent|);
  }

  /** Writer: the sink, and the indent WriteIndent has reached. The closing tag's text is
      `endForm`, since EndElement has no textual form of its own in this revision. */
  class Writer {
    const w: Sink
    var indent: seq<byte>
    const endForm: seq<byte> -> seq<byte>

    ghost predicate Valid()
      reads this, w
    {
      w.Valid() && IsIndent(indent)
    }

    /** NewWriter: no indent yet. */
    constructor (w: Sink, endForm: seq<byte> -> seq<byte>)
      requires w.Valid()
      ensures Valid() && this.w == w && this.endForm == endForm && indent == []
      ensures w.out == old(w.out)
    {
      this.w := w;
      this.endForm := endForm;
      indent := [];
    }

    /** Write: the element's text and nothing else. */
    method Write(e: Element) returns (err: Option<Error>)
      requires w.Valid()
      modifies w
      ensures w.Valid()
      ensures Written(w.out, err) == WriteSpec(old(w.out), [Render(e, endForm)], w.capacity)
    {
      err := WriteStrings(w, [Render(e, endForm)]);
    }

    /** WriteIndent: the indent (first shortened for an end tag), the element and a newline; after
        an open start tag the indent grows by two spaces. The indent moves whether or not the
        write fails. */
    method WriteIndent(e: Element) returns (err: Option<Error>)
      requires Valid() && (e.End? ==> |indent| >= 2)
      modifies this, w
      ensures Valid()
      ensures indent == IndentAfter(old(indent), e)
      ensures Written(w.out, err)
        == WriteSpec(old(w.out), [IndentBefore(old(indent), e), Render(e, endForm), [LF]], w.capacity)
    {
      if e.End? {
        indent := indent[..|indent| - 2];
      }
      err := WriteStrings(w, [indent, Render(e, endForm), [LF]]);
      if e.Start? && !e.hasEnd {
        indent := indent + [Space, Space];
      }
    }
  }

  /** The element a call of Next produced, as a value. */
  function ElementOf(p: Parsed): Option<Element>
    requires p.StartParsed? ==> p.st.Valid()
  {
    match p
    case Nothing => None
    case StartParsed(st) => Some(Start(st.name, st.Attrs(), st.hasEnd))
    case EndParsed(name) => Some(End(name))
    case TextRead(t) => Some(Text(NewText(t)))
  }

  /** Elements whose printed text the reader reads back as the same element: names and
      attributes it can parse, a closing tag printed as "</name>", text that is a whole run. */
  predicate Readable(e: Element, endForm: seq<byte> -> seq<byte>)
  {
    match e
    case Start(name, attrs, _) =>
      WellFormedName(name) && name[0] != Slash && name[0] != Bang && name[0] != Question
      && forall i :: 0 <= i < |attrs| ==> WellFormedAttr(attrs[i])
    case End(name) => WellFormedEndName(name) && endForm(name) == [Lt, Slash] + name + [Gt]
    case Text(t) => IsTextRun(t.bytes)
  }

  /** A written closing tag, read by a fresh call of Next, gives the closing tag with the name
      converted as end.go converts it. */
  lemma EndReadBack(name: seq<byte>, rest: seq<byte>, buf: seq<KV>)
    requires WellFormedEndName(name)
    ensures var o := NextSpec([Lt, Slash] + name + [Gt] + rest, 0, false, buf, []);
      o.err == None && o.pos == |name| + 3 && ElementOf(o.parsed) == Some(End(Widen(name)))
  {
    ReadsWrittenEnd(name, rest, false, buf, []);
    var w := Widen(name);
    assert [] + w == w;
    var o := NextSpec([Lt, Slash] + name + [Gt] + rest, 0, false, buf, []);
    assert o.parsed == EndParsed(w);
  }

  /** Writing an element and reading it back gives the same element, consuming exactly what
      was written (text is read up to the '<' that follows it). A closing tag comes back with
      its name as end.go builds it, each byte through `string(c)`: it is the same element
      exactly when the name is ASCII. */
  lemma ReadsBackWritten(e: Element, endForm: seq<byte> -> seq<byte>, rest: seq<byte>, buf: seq<KV>)
    requires Readable(e, endForm)
    ensures var s := Render(e, endForm);
      var o := NextSpec(s + [Lt] + rest, 0, false, buf, []);
      o.err == None && o.pos == |s| && (o.parsed.StartParsed? ==> o.parsed.st.Valid())
      && ElementOf(o.parsed) == Some(if e.End? then End(Widen(e.name)) else e)
      && (ElementOf(o.parsed) == Some(e) <==> (e.End? ==> forall i :: 0 <= i < |e.name| ==> e.name[i] < 128))
  {
    var s := Render(e, endForm);
    assert s + [Lt] + rest == s + ([Lt] + rest);
    match e
    case Start(name, attrs, h) =>
      ReadsWrittenStart(name, attrs, h, [Lt] + rest, false, buf, []);
    case End(name) =>
      EndReadBack(name, [Lt] + rest, buf);
      assert s == [Lt, Slash] + name + [Gt];
      WidenIsIdentityIff(name);
    case Text(t) =>
      AssignNextTakesText(t.bytes, rest, buf, []);
  }
}
