/** reader.go: the pull loop that turns the input into elements. */
module XmlReader {
  import opened Bytes
  import Bufio
  import opened Scanner
  import opened KeyValues
  import opened StartElements
  import opened EndElements
  import opened TextElements

  /** The string a caller hands to AssignNext; the next text run is stored into it. */
  class TextTarget {
    var value: seq<byte>

    constructor (v: seq<byte>)
      ensures value == v
    {
      value := v;
    }
  }

  /** The value behind a target, or nothing for nil. */
  ghost function TargetValue(n: TextTarget?): seq<byte>
    reads n
  {
    if n == null then [] else n.value
  }

  /** The reader's current element: nil, or the object the last parse filled. */
  datatype ElementRef = NoRef | StartRef(start: StartElement) | EndRef(end: EndElement) | TextRef(text: TextElement)

  /** What a call of Next did to the element objects: the parse that ran and the state it left
      (kept even when that parse failed), or the text it read. */
  datatype Parsed = Nothing | StartParsed(st: StartState) | EndParsed(name: seq<byte>) | TextRead(text: seq<byte>)

  /** The reference Next leaves for what was parsed: the pooled object that was filled, or a
      fresh text element. */
  function RefTo(parsed: Parsed, start: StartElement, end: EndElement): (e: ElementRef)
    ensures e.NoRef? <==> parsed.Nothing?
  {
    match parsed
    case Nothing => NoRef
    case StartParsed(_) => StartRef(start)
    case EndParsed(_) => EndRef(end)
    case TextRead(t) => TextRef(TextElement(t))
  }

  /** One turn of Next's loop. `Finish` ends the call; `Again` goes round once more from `pos`,
      after a skipped declaration or a text run handed to the pending target. */
  datatype Turn = Finish(pos: nat, err: Option<Error>, parsed: Parsed) | Again(pos: nat, stored: Option<seq<byte>>)

  /** Where a call (or a turn) leaves the cursor, the error, what it parsed, and the text it
      stored into the pending target, if any. */
  datatype NextOutcome = NextOutcome(pos: nat, err: Option<Error>, parsed: Parsed, stored: Option<seq<byte>>)

  function TurnOutcome(t: Turn): NextOutcome
  {
    match t
    case Finish(pos, err, parsed) => NextOutcome(pos, err, parsed, None)
    case Again(pos, a) => NextOutcome(pos, None, Nothing, a)
  }

  // ---------------------------------------------------------------------------
  // Next, specified on the input

  /** skip: discard everything through the next '>'. */
  function SkipSpec(d: seq<byte>, p: nat): (t: Turn)
    requires p <= |d|
    ensures t.Again? ==> p < t.pos <= |d| && t.stored.None?
    ensures t.Finish? ==> t == Finish(|d|, Some(EOF), Nothing)
  {
    match IndexOf(d, p, Gt)
    case None => Finish(|d|, Some(EOF), Nothing)
    case Some(t) => Again(t + 1, None)
  }

  /** next, from just after a '<': the first significant byte picks a closing tag ('/'), a
      declaration to skip ('!' or '?') or a start tag (any other byte, pushed back). `buf` is
      the pooled StartElement's backing array, `endName` the pooled EndElement's name. The closing
      tag is parsed by end.go as written, which appends each kept byte through `string(c)`. */
  function TagSpec(d: seq<byte>, p: nat, buf: seq<KV>, endName: seq<byte>): (t: Turn)
    requires p <= |d|
    ensures p <= t.pos <= |d|
    ensures t.Again? ==> p < t.pos && t.stored.None?
    ensures t.Finish? && t.err.None? ==> p < t.pos && !t.parsed.Nothing?
  {
    match NextSignificant(d, p)
    case None => Finish(|d|, Some(EOF), Nothing)
    case Some(q) =>
      if d[q] == Slash then
        var o := ParseEndSpec(d, q + 1);
        Finish(o.pos, o.err, EndParsed(endName + Widen(o.parsed)))
      else if d[q] == Bang || d[q] == Question then
        SkipSpec(d, q + 1)
      else
        ParseStopsAtGtOrEnd(d, q, buf);
        var o := ParseStartSpec(d, q, buf);
        Finish(o.pos, o.err, StartParsed(o.st))
  }

  /** The text branch of Next, from the first significant byte at `q`: the bytes up to the next
      '<', which is left unread. Without a '<' the text is dropped and EOF reported. */
  function TextSpec(d: seq<byte>, q: nat, pending: bool): (t: Turn)
    requires q < |d| && d[q] != Lt
    ensures q < t.pos <= |d|
    ensures t.Again? ==> pending && t.stored.Some?
    ensures t.Finish? && t.err.None? ==> t.parsed.TextRead?
  {
    match IndexOf(d, q, Lt)
    case None => Finish(|d|, Some(EOF), Nothing)
    case Some(t) =>
      if pending then Again(t, Some(d[q..t])) else Finish(t, None, TextRead(d[q..t]))
  }

  /** One turn of Next from `p`: skipWS, then a tag after '<', or else a text run. */
  function TurnSpec(d: seq<byte>, p: nat, pending: bool, buf: seq<KV>, endName: seq<byte>): (t: Turn)
    requires p <= |d|
    ensures p <= t.pos <= |d|
    ensures t.Again? ==> p < t.pos && (t.stored.Some? ==> pending)
    ensures t.Finish? && t.err.None? ==> p < t.pos && !t.parsed.Nothing?
  {
    match NextSignificant(d, p)
    case None => Finish(|d|, Some(EOF), Nothing)
    case Some(q) =>
      if d[q] == Lt then TagSpec(d, q + 1, buf, endName) else TextSpec(d, q, pending)
  }

  /** Next from `p`, `pending` when a target is waiting for text, `stored` the text a turn
      before this one stored into it: turns until one finishes. */
  function NextFrom(d: seq<byte>, p: nat, pending: bool, stored: Option<seq<byte>>,
                    buf: seq<KV>, endName: seq<byte>): (o: NextOutcome)
    requires p <= |d|
    ensures p <= o.pos <= |d|
    ensures o.stored.Some? ==> pending || stored.Some?
    decreases |d| - p
  {
    match TurnSpec(d, p, pending, buf, endName)
    case Finish(pos, err, parsed) => NextOutcome(pos, err, parsed, stored)
    case Again(p', a) => NextFrom(d, p', pending && a.None?, if a.Some? then a else stored, buf, endName)
  }

  /** Next from `p`: what a call does. */
  function NextSpec(d: seq<byte>, p: nat, pending: bool, buf: seq<KV>, endName: seq<byte>): (o: NextOutcome)
    requires p <= |d|
    ensures p <= o.pos <= |d|
    ensures o.stored.Some? ==> pending
  {
    NextFrom(d, p, pending, None, buf, endName)
  }

  // ---------------------------------------------------------------------------
  // The reader

  class Reader {
    const r: Bufio.Reader
    var err: Option<Error>
    var e: ElementRef
    /** The pending AssignNext target, nil when none. */
    var n: TextTarget?

    ghost predicate Valid()
      reads this, r
    {
      r.Valid()
    }

    /** The pending target got the text `a` (and was dropped), or, with no text stored, the
        target and its value are as they were. */
    ghost predicate TargetReflects(a: Option<seq<byte>>, n0: TextTarget?, v0: seq<byte>)
      reads this, n0
    {
      (a.Some? ==> n0 != null && n == null && n0.value == a.value)
      && (a.None? ==> n == n0 && TargetValue(n0) == v0)
    }

    /** The reader and the pooled objects show outcome `o`, starting from `st0`, `nm0`, `n0`
        holding `v0`. */
    ghost predicate Reflects(o: NextOutcome, start: StartElement, end: EndElement,
                             st0: StartState, nm0: seq<byte>, n0: TextTarget?, v0: seq<byte>)
      reads this, r, start, end, n0
    {
      r.pos == o.pos && err == o.err
      && e == (if o.err.None? then RefTo(o.parsed, start, end) else NoRef)
      && start.State() == (if o.parsed.StartParsed? then o.parsed.st else st0)
      && end.name == (if o.parsed.EndParsed? then o.parsed.name else nm0)
      && TargetReflects(o.stored, n0, v0)
    }

    /** NewReader. */
    constructor (input: seq<byte>)
      ensures Valid() && fresh(r) && r.data == input && r.pos == 0
      ensures err == None && e == NoRef && n == null
    {
      r := new Bufio.Reader(input);
      err := None;
      e := NoRef;
      n := null;
    }

    /** Element: the current element. */
    function Element(): ElementRef
      reads this
    {
      e
    }

    /** Err: the error the last call stopped on. */
    function Err(): Option<Error>
      reads this
    {
      err
    }

    /** AssignNext: the next text run goes into `ptr` instead of becoming an element. */
    method AssignNext(ptr: TextTarget?)
      modifies this`n
      ensures n == ptr
    {
      n := ptr;
    }

    /** Next: turns until an element is produced or an error is met. `start` and `end` are the
        objects the pools hand out (some existing or fresh object each). */
    method Next(start: StartElement, end: EndElement) returns (ok: bool)
      requires Valid() && start.Valid()
      modifies this, r, start, end, n
      ensures Valid() && start.Valid()
      ensures Reflects(NextSpec(r.data, old(r.pos), old(n) != null, old(start.buf), old(end.name)),
                       start, end, old(start.State()), old(end.name), old(n), old(TargetValue(n)))
      ensures ok == !e.NoRef? && (ok <==> err == None)
    {
      ghost var d, p0 := r.data, r.pos;
      ghost var st0, nm0, n0, v0 := start.State(), end.name, n, TargetValue(n);
      ghost var o := NextSpec(d, p0, n != null, st0.buf, nm0);
      ghost var acc: Option<seq<byte>> := None;
      ghost var finished := false;
      e := NoRef;
      while e.NoRef?
        invariant Valid() && start.Valid() && r.data == d && r.pos <= |d|
        invariant finished ==> Reflects(o, start, end, st0, nm0, n0, v0) && !e.NoRef?
        invariant !finished ==>
          e.NoRef? && start.State() == st0 && end.name == nm0
          && o == NextFrom(d, r.pos, n != null, acc, st0.buf, nm0)
          && TargetReflects(acc, n0, v0) && (acc.Some? ==> n == null)
        decreases |d| - r.pos
      {
        ghost var t := TurnSpec(d, r.pos, n != null, st0.buf, nm0);
        Turn(start, end);
        if t.Again? {
          acc := if t.stored.Some? then t.stored else acc;
        } else {
          finished := true;
        }
        if err != None {
          break;
        }
      }
      ok := !e.NoRef?;
      NextShape(d, p0, n0 != null, st0.buf, nm0);
    }

    /** One turn of Next's loop body. */
    method Turn(start: StartElement, end: EndElement)
      requires Valid() && start.Valid() && e.NoRef?
      modifies this, r, start, end, n
      ensures Valid() && start.Valid()
      ensures Reflects(TurnOutcome(TurnSpec(r.data, old(r.pos), old(n) != null, old(start.buf), old(end.name))),
                       start, end, old(start.State()), old(end.name), old(n), old(TargetValue(n)))
    {
      ghost var d, p := r.data, r.pos;
      var c;
      c, err := SkipWS(r);
      if err != None {
        assert NextSignificant(d, p) == None;
        return;
      }
      assert NextSignificant(d, p) == Some(r.pos - 1);
      if c == Lt {
        NextTag(start, end);
      } else {
        TextRun(start, end);
      }
    }

    /** The text branch: push the byte back, read through the next '<', keep the bytes before
        it, hand them to the pending target or make them the element, push the '<' back. */
    method TextRun(start: StartElement, end: EndElement)
      requires Valid() && r.canUnread && 0 < r.pos && r.data[r.pos - 1] != Lt
      requires e.NoRef? && err == None
      modifies this, r, n
      ensures Valid()
      ensures Reflects(TurnOutcome(TextSpec(r.data, old(r.pos) - 1, old(n) != null)),
                       start, end, old(start.State()), old(end.name), old(n), old(TargetValue(n)))
    {
      ghost var q := r.pos - 1;
      var u := r.UnreadByte();
      assert u == None;
      var t, rerr := r.ReadBytes(Lt);
      if rerr != None {
        err := rerr;
        return;
      }
      t := t[..|t| - 1];
      if n != null {
        n.value, n := t, null;
      } else {
        e := TextRef(TextElement(t));
      }
      u := r.UnreadByte();
      assert u == None;
    }

    /** skip: ReadBytes('>'), keeping only its error. */
    method Skip() returns (res: Option<Error>)
      requires Valid()
      modifies r
      ensures Valid()
      ensures var t := SkipSpec(r.data, old(r.pos));
        r.pos == t.pos && res == (if t.Again? then None else t.err)
    {
      var _, rerr := r.ReadBytes(Gt);
      res := rerr;
    }

    /** next: what follows a '<'. */
    method NextTag(start: StartElement, end: EndElement)
      requires Valid() && start.Valid() && e.NoRef?
      modifies this, r, start, end
      ensures Valid() && start.Valid() && n == old(n)
      ensures Reflects(TurnOutcome(TagSpec(r.data, old(r.pos), old(start.buf), old(end.name))),
                       start, end, old(start.State()), old(end.name), old(n), old(TargetValue(n)))
    {
      ghost var d, p, b, nm := r.data, r.pos, start.buf, end.name;
      var c;
      c, err := SkipWS(r);
      if err != None {
        assert TagSpec(d, p, b, nm) == Finish(|d|, Some(EOF), Nothing);
        return;
      }
      ghost var q := r.pos - 1;
      TagAt(d, p, q, b, nm);
      if c == Slash {
        e := EndRef(end);
      } else if c == Bang {
        err := Skip();
      } else if c == Question {
        err := Skip();
      } else {
        e := StartRef(start);
        var u := r.UnreadByte();
        assert u == None;
      }
      if err == None && !e.NoRef? {
        ParseElement(start, end);
      }
    }

    /** `r.e.parse(r.r)`, dropping the element when it fails. */
    method ParseElement(start: StartElement, end: EndElement)
      requires Valid() && start.Valid() && (e == StartRef(start) || e == EndRef(end))
      modifies this`e, this`err, r, start, end
      ensures Valid() && start.Valid()
      ensures old(e).StartRef? ==>
        var o := ParseStartSpec(r.data, old(r.pos), old(start.buf));
        start.State() == o.st && r.pos == o.pos && err == o.err
        && e == (if o.err.None? then old(e) else NoRef) && end.name == old(end.name)
      ensures old(e).EndRef? ==>
        var o := ParseEndSpec(r.data, old(r.pos));
        end.name == old(end.name) + Widen(o.parsed) && r.pos == o.pos && err == o.err
        && e == (if o.err.None? then old(e) else NoRef) && start.State() == old(start.State())
    {
      if e.StartRef? {
        err := start.Parse(r);
      } else {
        err := end.ParseAsWritten(r);
      }
      if err != None {
        e := NoRef;
      }
    }
  }

  /** The three ways next goes once the byte after the '<' (and any whitespace) is known. */
  lemma TagAt(d: seq<byte>, p: nat, q: nat, buf: seq<KV>, endName: seq<byte>)
    requires p <= |d| && NextSignificant(d, p) == Some(q)
    ensures d[q] == Slash ==>
      var o := ParseEndSpec(d, q + 1);
      TagSpec(d, p, buf, endName) == Finish(o.pos, o.err, EndParsed(endName + Widen(o.parsed)))
    ensures d[q] == Bang || d[q] == Question ==> TagSpec(d, p, buf, endName) == SkipSpec(d, q + 1)
    ensures d[q] != Slash && d[q] != Bang && d[q] != Question ==>
      var o := ParseStartSpec(d, q, buf);
      TagSpec(d, p, buf, endName) == Finish(o.pos, o.err, StartParsed(o.st))
  {
  }

  // ---------------------------------------------------------------------------
  // Properties of Next

  /** A text run as Next hands it on: it starts at a significant byte and holds no '<'. */
  predicate IsTextRun(t: seq<byte>)
  {
    |t| > 0 && IsSignificant(t[0]) && Lt !in t
  }

  /** `t` is a text run that stands in the input just before the '<' at `pos`. */
  predicate TextBefore(d: seq<byte>, pos: nat, t: seq<byte>)
  {
    IsTextRun(t) && |t| <= pos < |d| && d[pos] == Lt && d[pos - |t|..pos] == t
  }

  /** What a single turn can leave: errors only at the end of the input, a text run just before a
      '<', a tag just after its '>'. */
  predicate TurnShaped(d: seq<byte>, t: Turn)
  {
    match t
    case Finish(pos, err, parsed) =>
      (err.Some? ==> err == Some(EOF) && pos == |d|)
      && (err.None? && parsed.TextRead? ==> TextBefore(d, pos, parsed.text))
      && (err.None? && (parsed.StartParsed? || parsed.EndParsed?) ==> 0 < pos <= |d| && d[pos - 1] == Gt)
    case Again(pos, a) => a.Some? ==> TextBefore(d, pos, a.value)
  }

  lemma TextTurnShape(d: seq<byte>, q: nat, pending: bool, u: Turn)
    requires q < |d| && d[q] != Lt && IsSignificant(d[q]) && u == TextSpec(d, q, pending)
    ensures TurnShaped(d, u)
  {
    match IndexOf(d, q, Lt)
    case None =>
    case Some(t) =>
      IndexOfSkips(d, q, Lt);
      var run := d[q..t];
      assert run[0] == d[q];
      assert Lt !in run by {
        forall i | 0 <= i < |run| ensures run[i] != Lt {
          assert run[i] == d[q + i];
        }
      }
      assert TextBefore(d, t, run);
  }

  lemma EndTagTurnShape(d: seq<byte>, q: nat, endName: seq<byte>)
    requires q < |d|
    ensures var o := ParseEndSpec(d, q + 1);
      TurnShaped(d, Finish(o.pos, o.err, EndParsed(endName + Widen(o.parsed))))
  {
    ParsedEndShape(d, q + 1);
  }

  lemma StartTagTurnShape(d: seq<byte>, q: nat, buf: seq<KV>)
    requires q <= |d|
    ensures var o := ParseStartSpec(d, q, buf);
      TurnShaped(d, Finish(o.pos, o.err, StartParsed(o.st)))
  {
    ParseStopsAtGtOrEnd(d, q, buf);
  }

  lemma TagTurnShape(d: seq<byte>, p: nat, buf: seq<KV>, endName: seq<byte>, u: Turn)
    requires p <= |d| && u == TagSpec(d, p, buf, endName)
    ensures TurnShaped(d, u)
  {
    match NextSignificant(d, p)
    case None =>
    case Some(q) =>
      TagAt(d, p, q, buf, endName);
      if d[q] == Slash {
        EndTagTurnShape(d, q, endName);
      } else if d[q] == Bang || d[q] == Question {
      } else {
        StartTagTurnShape(d, q, buf);
      }
  }

  lemma TagTurnAt(d: seq<byte>, p: nat, q: nat, pending: bool, buf: seq<KV>, endName: seq<byte>)
    requires p <= |d| && NextSignificant(d, p) == Some(q) && d[q] == Lt
    ensures TurnSpec(d, p, pending, buf, endName) == TagSpec(d, q + 1, buf, endName)
  {
  }

  lemma TextTurnAt(d: seq<byte>, p: nat, q: nat, pending: bool, buf: seq<KV>, endName: seq<byte>)
    requires p <= |d| && NextSignificant(d, p) == Some(q) && d[q] != Lt
    ensures TurnSpec(d, p, pending, buf, endName) == TextSpec(d, q, pending)
  {
  }

  lemma TurnShape(d: seq<byte>, p: nat, pending: bool, buf: seq<KV>, endName: seq<byte>)
    requires p <= |d|
    ensures TurnShaped(d, TurnSpec(d, p, pending, buf, endName))
  {
    var t := TurnSpec(d, p, pending, buf, endName);
    match NextSignificant(d, p)
    case None =>
      assert t == Finish(|d|, Some(EOF), Nothing);
    case Some(q) =>
      if d[q] == Lt {
        TagTurnAt(d, p, q, pending, buf, endName);
        TagTurnShape(d, q + 1, buf, endName, t);
      } else {
        TextTurnAt(d, p, q, pending, buf, endName);
        TextTurnShape(d, q, pending, t);
      }
  }

  /** Next's loop from any turn on: an error is always the end of the input, reached; without
      one an element was produced; a text element is a run just before the '<' left unread, a
      tag ends just after its '>'; only a pending target is ever given text, and that text is a
      run of the input. */
  lemma {:induction false} NextFromShape(d: seq<byte>, p: nat, pending: bool, stored: Option<seq<byte>>,
                                         buf: seq<KV>, endName: seq<byte>)
    requires p <= |d|
    ensures var o := NextFrom(d, p, pending, stored, buf, endName);
      (o.err.None? ==> !o.parsed.Nothing?)
      && (o.err.Some? ==> o.err == Some(EOF) && o.pos == |d|)
      && (o.err.None? && o.parsed.TextRead? ==> TextBefore(d, o.pos, o.parsed.text))
      && (o.err.None? && (o.parsed.StartParsed? || o.parsed.EndParsed?) ==> 0 < o.pos && d[o.pos - 1] == Gt)
      && (o.stored != stored ==> pending && o.stored.Some? && IsTextRun(o.stored.value))
    decreases |d| - p
  {
    TurnShape(d, p, pending, buf, endName);
    match TurnSpec(d, p, pending, buf, endName)
    case Finish(pos, err, parsed) =>
      assert NextFrom(d, p, pending, stored, buf, endName) == NextOutcome(pos, err, parsed, stored);
    case Again(p', a) =>
      var stored' := if a.Some? then a else stored;
      NextFromShape(d, p', pending && a.None?, stored', buf, endName);
      assert NextFrom(d, p, pending, stored, buf, endName) == NextFrom(d, p', pending && a.None?, stored', buf, endName);
  }

  /** Next returns an element exactly when it reports no error, and every error is the end of
      the input. A text element is non-empty, starts with a significant byte (so whitespace alone
      is never a text element), holds no '<', and the '<' after it is left unread; a start or end
      tag is consumed through its '>'. */
  lemma NextShape(d: seq<byte>, p: nat, pending: bool, buf: seq<KV>, endName: seq<byte>)
    requires p <= |d|
    ensures var o := NextSpec(d, p, pending, buf, endName);
      (o.err.None? ==> !o.parsed.Nothing?)
      && (o.err.Some? ==> o.err == Some(EOF) && o.pos == |d|)
      && (o.err.None? && o.parsed.TextRead? ==> TextBefore(d, o.pos, o.parsed.text))
      && (o.err.None? && (o.parsed.StartParsed? || o.parsed.EndParsed?) ==> 0 < o.pos && d[o.pos - 1] == Gt)
      && (o.stored.Some? ==> pending && IsTextRun(o.stored.value))
  {
    NextFromShape(d, p, pending, None, buf, endName);
  }

  /** Input holding nothing but whitespace gives EOF, no element and no text. */
  lemma WhitespaceOnlyIsEOF(d: seq<byte>, p: nat, pending: bool, buf: seq<KV>, endName: seq<byte>)
    requires p <= |d|
    requires forall i :: p <= i < |d| ==> !IsSignificant(d[i])
    ensures NextSpec(d, p, pending, buf, endName) == NextOutcome(|d|, Some(EOF), Nothing, None)
  {
    assert NextSignificant(d, p) == None;
  }

  /** Text with no '<' after it is dropped and the end of the input reported. */
  lemma UnclosedTextIsDropped(ws: seq<byte>, text: seq<byte>, pending: bool, buf: seq<KV>, endName: seq<byte>)
    requires forall i :: 0 <= i < |ws| ==> !IsSignificant(ws[i])
    requires IsTextRun(text)
    ensures NextSpec(ws + text, 0, pending, buf, endName) == NextOutcome(|ws + text|, Some(EOF), Nothing, None)
  {
    var d := ws + text;
    assert d[|ws|] == text[0];
    NextSignificantAt(d, 0, |ws|);
    forall i | |ws| <= i < |d| ensures d[i] != Lt {
      assert d[i] == text[i - |ws|];
    }
    assert IndexOf(d, |ws|, Lt) == None;
  }

  /** `<!...>` and `<?...>` are skipped through the first '>', and scanning goes on after it
      with the same pending target. */
  lemma SkipsDeclaration(pre: seq<byte>, b: byte, body: seq<byte>, rest: seq<byte>,
                         pending: bool, buf: seq<KV>, endName: seq<byte>)
    requires b == Bang || b == Question
    requires Gt !in body
    ensures var d := pre + [Lt, b] + body + [Gt] + rest;
      NextSpec(d, |pre|, pending, buf, endName) == NextSpec(d, |pre| + |body| + 3, pending, buf, endName)
  {
    var d := pre + [Lt, b] + body + [Gt] + rest;
    var k := |pre| + 1;
    var t := |pre| + 2 + |body|;
    assert d[|pre|] == Lt && d[k] == b && d[t] == Gt;
    NextSignificantAt(d, |pre|, |pre|);
    NextSignificantAt(d, k, k);
    forall i | k + 1 <= i < t ensures d[i] != Gt {
      assert d[i] == body[i - k - 1];
    }
    IndexOfAt(d, k + 1, Gt, t);
    assert TurnSpec(d, |pre|, pending, buf, endName) == Again(t + 1, None);
  }

  /** Next reads back a start tag as String writes it. */
  lemma ReadsWrittenStart(name: seq<byte>, attrs: seq<KV>, h: bool, rest: seq<byte>,
                          pending: bool, buf: seq<KV>, endName: seq<byte>)
    requires WellFormedName(name) && name[0] != Slash && name[0] != Bang && name[0] != Question
    requires forall i :: 0 <= i < |attrs| ==> WellFormedAttr(attrs[i])
    ensures var s := StartText(name, attrs, h);
      var o := NextSpec(s + rest, 0, pending, buf, endName);
      o.err == None && o.pos == |s| && o.stored == None && o.parsed.StartParsed?
      && o.parsed.st.name == name && o.parsed.st.Attrs() == attrs && o.parsed.st.hasEnd == h
  {
    var s := StartText(name, attrs, h);
    var d := s + rest;
    assert d[0] == Lt && d[1] == name[0];
    NextSignificantAt(d, 0, 0);
    NextSignificantAt(d, 1, 1);
    TagAt(d, 1, 1, buf, endName);
    ParseWrittenStart(name, attrs, h, rest, buf);
  }

  /** After the '<', next parses a written closing tag through its '>'. */
  lemma WrittenEndTag(name: seq<byte>, rest: seq<byte>, buf: seq<KV>, endName: seq<byte>)
    requires WellFormedEndName(name)
    ensures TagSpec([Lt, Slash] + name + [Gt] + rest, 1, buf, endName)
         == Finish(|name| + 3, None, EndParsed(endName + Widen(name)))
  {
    var d := [Lt, Slash] + name + [Gt] + rest;
    var o := ParseEndSpec(d, 2);
    assert o == EndOutcome(name, |name| + 3, None) by {
      var lt: seq<byte> := [Lt, Slash];
      assert lt + [] == lt;
      ParseWrittenEnd(lt, [], name, rest);
    }
    assert d[1] == Slash;
    NextSignificantAt(d, 1, 1);
    TagAt(d, 1, 1, buf, endName);
  }

  /** Next reads back a closing tag `</name>`, appending to the pooled element's name the name
      as end.go builds it: each byte through `string(c)`, so unchanged exactly when it is ASCII. */
  lemma ReadsWrittenEnd(name: seq<byte>, rest: seq<byte>, pending: bool, buf: seq<KV>, endName: seq<byte>)
    requires WellFormedEndName(name)
    ensures var d := [Lt, Slash] + name + [Gt] + rest;
      NextSpec(d, 0, pending, buf, endName) == NextOutcome(|name| + 3, None, EndParsed(endName + Widen(name)), None)
  {
    var d := [Lt, Slash] + name + [Gt] + rest;
    var u := Finish(|name| + 3, None, EndParsed(endName + Widen(name)));
    WrittenEndTag(name, rest, buf, endName);
    assert TurnSpec(d, 0, pending, buf, endName) == u by {
      NextSignificantAt(d, 0, 0);
      TagTurnAt(d, 0, 0, pending, buf, endName);
    }
  }

  /** With a target pending, the next text run goes into it, no element is made of it and
      scanning goes on at the '<'; with none, the run is the element. */
  lemma AssignNextTakesText(text: seq<byte>, rest: seq<byte>, buf: seq<KV>, endName: seq<byte>)
    requires IsTextRun(text)
    ensures var d := text + [Lt] + rest;
      NextSpec(d, 0, true, buf, endName) == NextFrom(d, |text|, false, Some(text), buf, endName)
      && NextSpec(d, 0, true, buf, endName).stored == Some(text)
      && NextSpec(d, 0, false, buf, endName) == NextOutcome(|text|, None, TextRead(text), None)
  {
    var d := text + [Lt] + rest;
    assert d[0] == text[0];
    NextSignificantAt(d, 0, 0);
    forall i | 0 <= i < |text| ensures d[i] != Lt {
      assert d[i] == text[i];
    }
    IndexOfAt(d, 0, Lt, |text|);
    assert d[0..|text|] == text;
    NextFromShape(d, |text|, false, Some(text), buf, endName);
  }
}
