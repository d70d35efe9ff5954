/** start.go: the attribute list and the StartElement state machine. */
module StartElements {
  import opened Bytes
  import Bufio
  import opened Scanner
  import opened KeyValues

  // ---------------------------------------------------------------------------
  // Attrs

  /** NewAttrs: the strings taken in pairs, even positions as keys and odd positions
      as values; an odd trailing key gets an empty value. */
  method NewAttrs(strs: seq<seq<byte>>) returns (att: seq<KV>)
    ensures |att| == |strs| / 2 + |strs| % 2
    ensures forall i :: 0 <= i < |att| ==> att[i].k == strs[2 * i]
    ensures forall i :: 0 <= i < |att| ==>
      att[i].v == if 2 * i + 1 < |strs| then strs[2 * i + 1] else []
  {
    att := seq(|strs| / 2 + |strs| % 2, _ => KV([], []));
    for i := 0 to |strs|
      invariant |att| == |strs| / 2 + |strs| % 2
      invariant forall j :: 0 <= j < |att| ==> att[j].k == if 2 * j < i then strs[2 * j] else []
      invariant forall j :: 0 <= j < |att| ==> att[j].v == if 2 * j + 1 < i then strs[2 * j + 1] else []
    {
      var h := i / 2;
      if i % 2 == 0 {
        att := att[h := att[h].(k := att[h].k + strs[i])];
      } else {
        att := att[h := att[h].(v := att[h].v + strs[i])];
      }
    }
  }

  /** CopyTo: `dst` grows to the length of `src` if shorter, takes a copy of every
      entry of `src`, and keeps its own entries beyond. */
  method CopyTo(src: seq<KV>, dst: seq<KV>) returns (r: seq<KV>)
    ensures |r| == if |src| > |dst| then |src| else |dst|
    ensures forall i :: 0 <= i < |src| ==> r[i] == src[i]
    ensures forall i :: |src| <= i < |dst| ==> r[i] == dst[i]
  {
    r := dst;
    if |src| > |dst| {
      r := r + seq(|src| - |dst|, _ => KV([], []));
    }
    for i := 0 to |src|
      invariant |r| == if |src| > |dst| then |src| else |dst|
      invariant forall j :: 0 <= j < i ==> r[j] == src[j]
      invariant forall j :: |src| <= j < |dst| ==> r[j] == dst[j]
    {
      r := r[i := KV(src[i].k, src[i].v)];
    }
  }

  /** Get and GetBytes (the same search in the model, where strings are bytes):
      the first attribute whose key is `name`, or nothing when no key is. */
  method Get(attrs: seq<KV>, name: seq<byte>) returns (r: Option<KV>)
    ensures r.None? <==> forall i :: 0 <= i < |attrs| ==> attrs[i].k != name
    ensures r.Some? ==> exists i :: 0 <= i < |attrs| && attrs[i] == r.value && attrs[i].k == name &&
                                    forall j :: 0 <= j < i ==> attrs[j].k != name
  {
    var i := 0;
    while i < |attrs|
      invariant 0 <= i <= |attrs|
      invariant forall j :: 0 <= j < i ==> attrs[j].k != name
    {
      if attrs[i].k == name {
        return Some(attrs[i]);
      }
      i := i + 1;
    }
    return None;
  }

  // ---------------------------------------------------------------------------
  // Textual form

  /** ` k="v"`, with no escaping. */
  function AttrText(kv: KV): seq<byte>
  {
    [Space] + kv.k + [Equals, Quote] + kv.v + [Quote]
  }

  function AttrsText(attrs: seq<KV>): seq<byte>
  {
    if attrs == [] then [] else AttrText(attrs[0]) + AttrsText(attrs[1..])
  }

  /** The closing of a start tag: "/>" when self-closing, ">" otherwise. */
  function Close(hasEnd: bool): seq<byte>
  {
    if hasEnd then [Slash, Gt] else [Gt]
  }

  /** StartElement.String: "<" + name + each attribute + the closing. */
  function StartText(name: seq<byte>, attrs: seq<KV>, hasEnd: bool): seq<byte>
  {
    [Lt] + name + AttrsText(attrs) + Close(hasEnd)
  }

  lemma {:induction false} AttrsTextSnoc(attrs: seq<KV>, kv: KV)
    ensures AttrsText(attrs + [kv]) == AttrsText(attrs) + AttrText(kv)
    decreases |attrs|
  {
    if attrs == [] {
      assert [kv][1..] == [];
    } else {
      assert (attrs + [kv])[1..] == attrs[1..] + [kv];
      AttrsTextSnoc(attrs[1..], kv);
    }
  }

  // ---------------------------------------------------------------------------
  // Parsing, specified on the input

  /** What parse leaves in a StartElement: `buf` is the backing array of the
      attribute slice and `count` its length, so `buf[..count]` are the attributes. */
  datatype StartState = StartState(name: seq<byte>, buf: seq<KV>, count: nat, hasEnd: bool)
  {
    ghost predicate Valid() { count <= |buf| }
    function Attrs(): seq<KV> requires Valid() { buf[..count] }
  }

  datatype StartOutcome = StartOutcome(st: StartState, pos: nat, err: Option<Error>)

  /** The name ends at a space or a '>'; tabs and newlines do not end it. */
  predicate IsNameEnd(b: byte) { b == Space || b == Gt }

  /** The name loop's search: the first ' ' or '>' at or after `p`. */
  function NextNameEnd(d: seq<byte>, p: nat): (r: Option<nat>)
    requires p <= |d|
    ensures r.Some? ==> p <= r.value < |d| && IsNameEnd(d[r.value])
    ensures r.Some? ==> forall i {:trigger IsNameEnd(d[i])} :: p <= i < r.value ==> !IsNameEnd(d[i])
    ensures r.None? ==> forall i {:trigger IsNameEnd(d[i])} :: p <= i < |d| ==> !IsNameEnd(d[i])
    decreases |d| - p
  {
    if p == |d| then None
    else if IsNameEnd(d[p]) then Some(p)
    else NextNameEnd(d, p + 1)
  }

  lemma NextNameEndAt(d: seq<byte>, p: nat, t: nat)
    requires p <= t < |d| && IsNameEnd(d[t])
    requires forall i :: p <= i < t ==> !IsNameEnd(d[i])
    ensures NextNameEnd(d, p) == Some(t)
  {
  }

  lemma NextNameEndFrom(d: seq<byte>, p: nat, q: nat)
    requires p <= q <= |d|
    requires forall i :: p <= i < q ==> !IsNameEnd(d[i])
    ensures NextNameEnd(d, p) == NextNameEnd(d, q)
  {
  }

  /** The bytes before the first '/'. */
  function BeforeSlash(s: seq<byte>): (r: seq<byte>)
    ensures r <= s && Slash !in r
    ensures |r| < |s| ==> s[|r|] == Slash
  {
    if s == [] || s[0] == Slash then [] else [s[0]] + BeforeSlash(s[1..])
  }

  lemma {:induction false} BeforeSlashSnoc(s: seq<byte>, b: byte)
    ensures BeforeSlash(s + [b]) ==
      if Slash in s then BeforeSlash(s) else if b == Slash then s else s + [b]
    decreases |s|
  {
    if s != [] {
      assert (s + [b])[1..] == s[1..] + [b];
      BeforeSlashSnoc(s[1..], b);
    }
  }

  /** The name scanned from the first significant byte at `q` up to (not including) `e`:
      the first byte, then each later byte until the first '/'. */
  function NameUpTo(d: seq<byte>, q: nat, e: nat): (r: seq<byte>)
    requires q < e <= |d|
    ensures |r| > 0 && r[0] == d[q]
    decreases e
  {
    if e == q + 1 then [d[q]]
    else
      var r := NameUpTo(d, q, e - 1);
      if SlashWithin(d, q, e - 1) || d[e - 1] == Slash then r else r + [d[e - 1]]
  }

  /** Whether a '/' came after the first byte and before `e`: the element is self-closing. */
  predicate SlashWithin(d: seq<byte>, q: nat, e: nat)
    requires q < e <= |d|
    decreases e
  {
    e > q + 1 && (d[e - 1] == Slash || SlashWithin(d, q, e - 1))
  }

  /** A sequence without '/' is all before its first '/'. */
  lemma BeforeSlashWhole(s: seq<byte>)
    requires Slash !in s
    ensures BeforeSlash(s) == s
  {
  }

  /** The element is self-closing exactly when a '/' follows the first byte. */
  lemma {:induction false} SlashWithinIsIn(d: seq<byte>, q: nat, e: nat)
    requires q < e <= |d|
    ensures SlashWithin(d, q, e) == (Slash in d[q + 1..e])
    decreases e
  {
    if e > q + 1 {
      SlashWithinIsIn(d, q, e - 1);
      assert d[q + 1..e] == d[q + 1..e - 1] + [d[e - 1]];
    }
  }

  /** With no '/' after the first byte, the scanned name is every byte up to `e`. */
  lemma {:induction false} NoSlashNameIsSlice(d: seq<byte>, q: nat, e: nat)
    requires q < e <= |d|
    requires forall i :: q < i < e ==> d[i] != Slash
    ensures NameUpTo(d, q, e) == d[q..e] && !SlashWithin(d, q, e)
    decreases e
  {
    if e > q + 1 {
      NoSlashNameIsSlice(d, q, e - 1);
      assert d[q..e] == d[q..e - 1] + [d[e - 1]];
    }
  }

  /** After its first byte, the name keeps no '/' and no byte that ends it. */
  lemma {:induction false} NameUpToKeepsNameBytes(d: seq<byte>, q: nat, e: nat)
    requires q < e <= |d|
    requires forall i :: q < i < e ==> !IsNameEnd(d[i])
    ensures forall i :: 1 <= i < |NameUpTo(d, q, e)| ==>
      !IsNameEnd(NameUpTo(d, q, e)[i]) && NameUpTo(d, q, e)[i] != Slash
    decreases e
  {
    if e > q + 1 {
      NameUpToKeepsNameBytes(d, q, e - 1);
      var r := NameUpTo(d, q, e - 1);
      if !(SlashWithin(d, q, e - 1) || d[e - 1] == Slash) {
        var r' := r + [d[e - 1]];
        forall i | 1 <= i < |r'| ensures !IsNameEnd(r'[i]) && r'[i] != Slash {
          if i < |r| {
            assert r'[i] == r[i];
          }
        }
        assert NameUpTo(d, q, e) == r';
      }
    }
  }

  /** One more byte after the first: what comes before the first '/' grows by it only when no
      '/' came before and it is not one. */
  lemma BeforeSlashStep(first: byte, a: seq<byte>, b: byte)
    ensures [first] + BeforeSlash(a + [b])
      == if Slash in a || b == Slash then [first] + BeforeSlash(a) else [first] + BeforeSlash(a) + [b]
  {
    BeforeSlashSnoc(a, b);
    if Slash !in a {
      BeforeSlashWhole(a);
      if b != Slash {
        AppendAssoc([first], a, [b]);
      }
    }
  }

  /** The scanned name is the first byte and the bytes before the first '/' after it. */
  lemma {:induction false} NameUpToIsBeforeSlash(d: seq<byte>, q: nat, e: nat)
    requires q < e <= |d|
    ensures NameUpTo(d, q, e) == [d[q]] + BeforeSlash(d[q + 1..e])
    decreases e
  {
    if e > q + 1 {
      NameUpToIsBeforeSlash(d, q, e - 1);
      SlashWithinIsIn(d, q, e - 1);
      assert d[q + 1..e] == d[q + 1..e - 1] + [d[e - 1]];
      BeforeSlashStep(d[q], d[q + 1..e - 1], d[e - 1]);
    }
  }

  function ScannedName(d: seq<byte>, q: nat, e: nat, buf: seq<KV>): StartState
    requires q < e <= |d|
  {
    StartState(NameUpTo(d, q, e), buf, 0, SlashWithin(d, q, e))
  }

  /** StartElement.parse from `p`: reset, skipWS, the name up to the first ' ' or '>',
      then the attribute loop when the name ended at a space. */
  function ParseStartSpec(d: seq<byte>, p: nat, buf: seq<KV>): (o: StartOutcome)
    requires p <= |d|
    ensures p <= o.pos <= |d| && o.st.Valid()
  {
    match NextSignificant(d, p)
    case None => StartOutcome(StartState([], buf, 0, false), |d|, Some(EOF))
    case Some(q) => AfterFirstSpec(d, q, buf)
  }

  /** The rest of parse once the first significant byte, at `q`, has started the name. */
  function AfterFirstSpec(d: seq<byte>, q: nat, buf: seq<KV>): (o: StartOutcome)
    requires q < |d|
    ensures q < o.pos <= |d| && o.st.Valid()
  {
    match NextNameEnd(d, q + 1)
    case None => StartOutcome(ScannedName(d, q, |d|, buf), |d|, Some(EOF))
    case Some(t) => AfterNameSpec(d, t, ScannedName(d, q, t, buf))
  }

  /** The rest of parse once the name ended at `t`: done at '>', attributes after a space. */
  function AfterNameSpec(d: seq<byte>, t: nat, st: StartState): (o: StartOutcome)
    requires t < |d| && st.Valid()
    ensures t < o.pos <= |d| && o.st.Valid()
  {
    if d[t] == Gt then StartOutcome(st, t + 1, None)
    else ParseAttrsSpec(d, t + 1, st, 0)
  }

  /** A slot index the attribute loop may ask for: within the backing array, or just past it
      when the slice is full. */
  ghost predicate SlotReady(st: StartState, idx: nat)
  {
    st.Valid() && idx <= |st.buf| && (idx == |st.buf| ==> st.count == idx)
  }

  /** getNextElement: reuse the backing array when it has room, else grow it by a fresh entry. */
  function WithSlot(st: StartState, idx: nat): (r: StartState)
    requires SlotReady(st, idx)
    ensures r.Valid() && r.count == idx + 1
    ensures r.name == st.name && r.hasEnd == st.hasEnd
    ensures |r.buf| >= |st.buf| && forall i :: 0 <= i < |st.buf| ==> r.buf[i] == st.buf[i]
  {
    if idx < |st.buf| then st.(count := idx + 1)
    else st.(buf := st.buf + [KV([], [])], count := idx + 1)
  }

  datatype AttrsTurn = Stop(o: StartOutcome) | Continue(p: nat, st: StartState, idx: nat)

  /** One turn of parseAttrs from `p`, the next attribute going to slot `idx`: stop at the end of
      the input or at '>', note a '/', or read an attribute into the slot (advancing the slot on success). */
  function AttrsTurnSpec(d: seq<byte>, p: nat, st: StartState, idx: nat): (t: AttrsTurn)
    requires p <= |d| && SlotReady(st, idx)
    ensures t.Stop? ==> p <= t.o.pos <= |d| && t.o.st == st
    ensures t.Continue? ==> p < t.p <= |d| && SlotReady(t.st, t.idx) && t.st.name == st.name
  {
    match NextSignificant(d, p)
    case None => Stop(StartOutcome(st, |d|, Some(EOF)))
    case Some(q) =>
      if d[q] == Gt then Stop(StartOutcome(st, q + 1, None))
      else if d[q] == Slash then Continue(q + 1, st.(hasEnd := true), idx)
      else
        var slot := WithSlot(st, idx);
        var kv := ParseKVSpec(d, q, slot.buf[idx]);
        Continue(kv.pos, slot.(buf := slot.buf[idx := kv.kv]), if kv.err.None? then idx + 1 else idx)
  }

  /** parseAttrs from `p`: its turns until one stops. */
  function ParseAttrsSpec(d: seq<byte>, p: nat, st: StartState, idx: nat): (o: StartOutcome)
    requires p <= |d| && SlotReady(st, idx)
    ensures p <= o.pos <= |d| && o.st.Valid() && o.st.name == st.name
    decreases |d| - p
  {
    match AttrsTurnSpec(d, p, st, idx)
    case Stop(o) => o
    case Continue(p', st', idx') => ParseAttrsSpec(d, p', st', idx')
  }

  // ---------------------------------------------------------------------------
  // The element

  class StartElement {
    var name: seq<byte>
    /** The backing array of the attribute slice; its first `count` entries are the attributes. */
    var buf: seq<KV>
    var count: nat
    var hasEnd: bool

    ghost predicate Valid()
      reads this
    {
      count <= |buf|
    }

    function State(): StartState
      reads this
    {
      StartState(name, buf, count, hasEnd)
    }

    function Attrs(): seq<KV>
      reads this
      requires Valid()
    {
      buf[..count]
    }

    /** NewStart: the given name and flag, and a copy of the given attributes (none when nil). */
    constructor (nm: seq<byte>, end: bool, attrs: Option<seq<KV>>)
      ensures Valid() && name == nm && hasEnd == end
      ensures Attrs() == if attrs.Some? then attrs.value else []
    {
      name := nm;
      hasEnd := end;
      var copied := [];
      if attrs.Some? {
        copied := CopyTo(attrs.value, []);
      }
      buf := copied;
      count := |copied|;
    }

    method SetNameBytes(nm: seq<byte>)
      modifies this`name
      ensures name == nm
    {
      name := nm;
    }

    /** Reset: empty name, empty attribute slice (the backing array is kept), no '/' seen. */
    method Reset()
      modifies this
      ensures name == [] && count == 0 && !hasEnd && buf == old(buf)
      ensures Valid()
    {
      name := [];
      count := 0;
      hasEnd := false;
    }

    /** getNextElement: makes the slice `idx + 1` long and returns entry `idx`. */
    method GetNextElement(idx: nat) returns (kv: KV)
      requires SlotReady(State(), idx)
      modifies this`buf, this`count
      ensures State() == WithSlot(old(State()), idx) && kv == buf[idx]
    {
      if idx < |buf| {
        count := idx + 1;
      } else {
        buf := buf + [KV([], [])];
        count := idx + 1;
      }
      kv := buf[idx];
    }

    /** String: the textual form, attributes in order, no escaping. */
    method String() returns (s: seq<byte>)
      requires Valid()
      ensures s == StartText(name, Attrs(), hasEnd)
    {
      s := [Lt] + name;
      var i := 0;
      while i < count
        invariant i <= count
        invariant s == [Lt] + name + AttrsText(buf[..i])
      {
        assert buf[..i + 1] == buf[..i] + [buf[i]];
        AttrsTextSnoc(buf[..i], buf[i]);
        s := s + AttrText(buf[i]);
        i := i + 1;
      }
      assert buf[..count] == Attrs();
      if hasEnd {
        s := s + [Slash, Gt];
      } else {
        s := s + [Gt];
      }
    }

    /** parse: the StartElement state machine. */
    method Parse(r: Bufio.Reader) returns (err: Option<Error>)
      requires Valid() && r.Valid()
      modifies this, r
      ensures Valid() && r.Valid()
      ensures var o := ParseStartSpec(r.data, old(r.pos), old(buf));
        State() == o.st && r.pos == o.pos && err == o.err
    {
      ghost var d, p, b := r.data, r.pos, buf;
      Reset();
      var c;
      c, err := SkipWS(r);
      if err != None {
        assert NextSignificant(d, p) == None;
        return;
      }
      ghost var q := r.pos - 1;
      assert NextSignificant(d, p) == Some(q);
      name := name + [c];
      err := ParseAfterFirst(r);
    }

    /** parse after the first significant byte: the name loop, then the attributes. */
    method ParseAfterFirst(r: Bufio.Reader) returns (err: Option<Error>)
      requires Valid() && r.Valid() && 0 < r.pos && name == [r.data[r.pos - 1]]
      requires count == 0 && !hasEnd
      modifies this, r
      ensures Valid() && r.Valid()
      ensures var o := AfterFirstSpec(r.data, old(r.pos) - 1, old(buf));
        State() == o.st && r.pos == o.pos && err == o.err
    {
      ghost var q := r.pos - 1;
      var c;
      c, err := ScanName(r);
      if err != None {
        return;
      }
      assert AfterFirstSpec(r.data, q, old(buf)) == AfterNameSpec(r.data, r.pos - 1, State());
      if c == Space {
        err := ParseAttrs(r);
      }
    }

    /** `s.getNextElement(idx).parse(r)`: the next attribute parsed into slot `idx`. */
    method ParseAttr(r: Bufio.Reader, idx: nat) returns (err: Option<Error>)
      requires r.Valid() && SlotReady(State(), idx)
      modifies this`buf, this`count, r
      ensures r.Valid()
      ensures var slot := WithSlot(old(State()), idx);
        var kv := ParseKVSpec(r.data, old(r.pos), slot.buf[idx]);
        State() == slot.(buf := slot.buf[idx := kv.kv]) && r.pos == kv.pos && err == kv.err
    {
      var kv := GetNextElement(idx);
      var parsed;
      parsed, err := ParseKV(r, kv);
      buf := buf[idx := parsed];
    }

    /** The name loop of parse: bytes up to the first ' ' or '>' (consumed) are added to the
        name, except that a '/' sets hasEnd and nothing after it is added. */
    method ScanName(r: Bufio.Reader) returns (c: byte, err: Option<Error>)
      requires r.Valid() && 0 < r.pos && name == [r.data[r.pos - 1]] && !hasEnd
      modifies this`name, this`hasEnd, r
      ensures r.Valid()
      ensures var q := old(r.pos) - 1;
        var t := NextNameEnd(r.data, q + 1);
        var e := if t.Some? then t.value else |r.data|;
        name == NameUpTo(r.data, q, e) && hasEnd == SlashWithin(r.data, q, e)
        && (t.Some? ==> r.pos == e + 1 && err == None && c == r.data[e])
        && (t.None? ==> r.pos == e && err == Some(EOF) && c == 0)
    {
      ghost var q := r.pos - 1;
      while true
        invariant r.Valid() && q < r.pos
        invariant NextNameEnd(r.data, r.pos) == NextNameEnd(r.data, q + 1)
        invariant name == NameUpTo(r.data, q, r.pos) && hasEnd == SlashWithin(r.data, q, r.pos)
        decreases |r.data| - r.pos
      {
        ghost var j := r.pos;
        c, err := r.ReadByte();
        if err != None {
          assert NextNameEnd(r.data, j) == None;
          break;
        }
        if c == Space || c == Gt {
          NextNameEndAt(r.data, j, j);
          break;
        }
        NextNameEndFrom(r.data, j, j + 1);
        if c == Slash {
          hasEnd := true;
        } else if !hasEnd {
          name := name + [c];
        }
        assert name == NameUpTo(r.data, q, r.pos) && hasEnd == SlashWithin(r.data, q, r.pos);
      }
    }

    /** parseAttrs: until '>' or an error, a '/' marks the element self-closing and any other
        significant byte is pushed back and starts the next attribute. */
    method ParseAttrs(r: Bufio.Reader) returns (err: Option<Error>)
      requires Valid() && r.Valid() && count == 0
      modifies this, r
      ensures Valid() && r.Valid()
      ensures var o := ParseAttrsSpec(r.data, old(r.pos), old(State()), 0);
        State() == o.st && r.pos == o.pos && err == o.err
    {
      var idx := 0;
      while true
        invariant Valid() && r.Valid() && SlotReady(State(), idx)
        invariant ParseAttrsSpec(r.data, r.pos, State(), idx)
               == ParseAttrsSpec(r.data, old(r.pos), old(State()), 0)
        decreases |r.data| - r.pos
      {
        var done;
        done, err, idx := AttrsTurn(r, idx);
        if done {
          break;
        }
      }
    }

    /** One turn of the parseAttrs loop. */
    method AttrsTurn(r: Bufio.Reader, idx: nat) returns (done: bool, err: Option<Error>, next: nat)
      requires r.Valid() && SlotReady(State(), idx)
      modifies this`buf, this`count, this`hasEnd, r
      ensures r.Valid() && SlotReady(State(), next)
      ensures match AttrsTurnSpec(r.data, old(r.pos), old(State()), idx)
        case Stop(o) => done && State() == o.st && r.pos == o.pos && err == o.err
        case Continue(p, st, i) => !done && State() == st && r.pos == p && next == i
    {
      var c;
      c, err := SkipWS(r);
      next := idx;
      if err != None || c == Gt {
        return true, err, next;
      }
      done := false;
      if c == Slash {
        hasEnd := true;
        return;
      }
      var _ := r.UnreadByte();
      err := ParseAttr(r, idx);
      if err == None {
        next := idx + 1;
      }
    }
  }

  // ---------------------------------------------------------------------------
  // Properties of parse

  /** Two attribute-loop states that agree on everything a successful parse can show:
      the name, the '/' flag, the slice length and the attributes read so far. */
  ghost predicate AgreeUpTo(st1: StartState, st2: StartState, idx: nat)
  {
    st1.name == st2.name && st1.hasEnd == st2.hasEnd && st1.count == st2.count
    && idx <= |st1.buf| && idx <= |st2.buf| && st1.buf[..idx] == st2.buf[..idx]
  }

  /** The two outcomes agree on the cursor and the error, and on what a success shows. */
  ghost predicate SameSuccess(o1: StartOutcome, o2: StartOutcome)
  {
    o1.st.Valid() && o2.st.Valid() && o1.pos == o2.pos && o1.err == o2.err
    && (o1.err.None? ==>
          o1.st.name == o2.st.name && o1.st.hasEnd == o2.st.hasEnd && o1.st.Attrs() == o2.st.Attrs())
  }

  /** What the loop may start a turn from: either no failed slot is in the slice, or the input is spent. */
  ghost predicate LoopAgree(d: seq<byte>, p: nat, st1: StartState, st2: StartState, idx: nat)
  {
    p <= |d| && SlotReady(st1, idx) && SlotReady(st2, idx)
    && AgreeUpTo(st1, st2, idx) && (st1.count == idx || p == |d|)
  }

  /** One turn keeps two agreeing states in agreement. */
  lemma TurnIgnoresStaleSlots(d: seq<byte>, p: nat, st1: StartState, st2: StartState, idx: nat)
    requires LoopAgree(d, p, st1, st2, idx)
    ensures var t1, t2 := AttrsTurnSpec(d, p, st1, idx), AttrsTurnSpec(d, p, st2, idx);
      t1.Stop? == t2.Stop?
      && (t1.Stop? ==> SameSuccess(t1.o, t2.o))
      && (t1.Continue? ==> t1.p == t2.p && t1.idx == t2.idx && LoopAgree(d, t1.p, t1.st, t2.st, t1.idx))
  {
    match NextSignificant(d, p)
    case None =>
    case Some(q) =>
      if d[q] == Gt {
        assert st1.Attrs() == st1.buf[..idx];
      } else if d[q] != Slash {
        SlotParseAgrees(d, q, st1, st2, idx);
      }
  }

  /** Reading an attribute into slot `idx` of two agreeing states keeps them in agreement. */
  lemma SlotParseAgrees(d: seq<byte>, q: nat, st1: StartState, st2: StartState, idx: nat)
    requires q < |d| && SlotReady(st1, idx) && SlotReady(st2, idx)
    requires AgreeUpTo(st1, st2, idx) && st1.count == idx
    ensures var s1, s2 := WithSlot(st1, idx), WithSlot(st2, idx);
      var k1, k2 := ParseKVSpec(d, q, s1.buf[idx]), ParseKVSpec(d, q, s2.buf[idx]);
      k1.pos == k2.pos && k1.err == k2.err
      && LoopAgree(d, k1.pos, s1.(buf := s1.buf[idx := k1.kv]), s2.(buf := s2.buf[idx := k2.kv]),
                   if k1.err.None? then idx + 1 else idx)
  {
    var s1, s2 := WithSlot(st1, idx), WithSlot(st2, idx);
    var k1, k2 := ParseKVSpec(d, q, s1.buf[idx]), ParseKVSpec(d, q, s2.buf[idx]);
    OldContentsOnlyShowOnFailure(d, q, s1.buf[idx], s2.buf[idx]);
    var n1, n2 := s1.(buf := s1.buf[idx := k1.kv]), s2.(buf := s2.buf[idx := k2.kv]);
    assert n1.buf[..idx] == st1.buf[..idx] && n2.buf[..idx] == st2.buf[..idx];
    if k1.err.None? {
      assert n1.buf[..idx + 1] == n1.buf[..idx] + [k1.kv];
      assert n2.buf[..idx + 1] == n2.buf[..idx] + [k2.kv];
    }
  }

  /** The attribute loop only shows leftovers of an earlier parse when it fails. */
  lemma {:induction false} AttrsIgnoreStaleSlots(d: seq<byte>, p: nat, st1: StartState, st2: StartState, idx: nat)
    requires LoopAgree(d, p, st1, st2, idx)
    ensures SameSuccess(ParseAttrsSpec(d, p, st1, idx), ParseAttrsSpec(d, p, st2, idx))
    decreases |d| - p
  {
    TurnIgnoresStaleSlots(d, p, st1, st2, idx);
    match AttrsTurnSpec(d, p, st1, idx)
    case Stop(_) =>
    case Continue(p', st1', idx') =>
      AttrsIgnoreStaleSlots(d, p', st1', AttrsTurnSpec(d, p, st2, idx).st, idx');
  }

  /** A successful parse gives the same name, attributes and '/' flag whatever the element held
      before: stale attribute slots are overwritten or left outside the slice. */
  lemma ParseIgnoresStaleSlots(d: seq<byte>, p: nat, buf1: seq<KV>, buf2: seq<KV>)
    requires p <= |d|
    ensures SameSuccess(ParseStartSpec(d, p, buf1), ParseStartSpec(d, p, buf2))
  {
    if NextSignificant(d, p).Some? {
      AfterFirstIgnoresStaleSlots(d, NextSignificant(d, p).value, buf1, buf2);
    }
  }

  /** The same, once the name has started at `q`. */
  lemma AfterFirstIgnoresStaleSlots(d: seq<byte>, q: nat, buf1: seq<KV>, buf2: seq<KV>)
    requires q < |d|
    ensures SameSuccess(AfterFirstSpec(d, q, buf1), AfterFirstSpec(d, q, buf2))
  {
    if NextNameEnd(d, q + 1).Some? {
      var t := NextNameEnd(d, q + 1).value;
      AfterNameIgnoresStaleSlots(d, t, ScannedName(d, q, t, buf1), ScannedName(d, q, t, buf2));
    }
  }

  /** The same, once the name has ended at `t` with no attribute read yet. */
  lemma AfterNameIgnoresStaleSlots(d: seq<byte>, t: nat, st1: StartState, st2: StartState)
    requires t < |d| && st1.Valid() && st2.Valid() && st1.count == 0 && st2.count == 0
    requires st1.name == st2.name && st1.hasEnd == st2.hasEnd
    ensures SameSuccess(AfterNameSpec(d, t, st1), AfterNameSpec(d, t, st2))
  {
    if d[t] != Gt {
      AttrsIgnoreStaleSlots(d, t + 1, st1, st2, 0);
    }
  }

  /** A name parse can produce: a significant first byte, then no ' ', '>' or '/'. */
  predicate WellFormedName(name: seq<byte>)
  {
    |name| > 0 && IsSignificant(name[0])
    && forall i :: 1 <= i < |name| ==> !IsNameEnd(name[i]) && name[i] != Slash
  }

  /** The name is empty exactly when the input holds no significant byte from `p`; otherwise
      it is well formed, whether or not the rest of the parse succeeds. */
  lemma ParsedNameShape(d: seq<byte>, p: nat, buf: seq<KV>)
    requires p <= |d|
    ensures var o := ParseStartSpec(d, p, buf);
      (o.st.name == [] <==> forall i :: p <= i < |d| ==> !IsSignificant(d[i]))
      && (o.st.name != [] ==> WellFormedName(o.st.name))
  {
    match NextSignificant(d, p)
    case None =>
    case Some(q) =>
      var e := match NextNameEnd(d, q + 1) case Some(t) => t case None => |d|;
      var name := NameUpTo(d, q, e);
      assert ParseStartSpec(d, p, buf).st.name == name;
      NameUpToKeepsNameBytes(d, q, e);
  }

  /** The attribute loop stops only at a '>', which it consumes, or at the end of the input. */
  lemma {:induction false} AttrsStopAtGtOrEnd(d: seq<byte>, p: nat, st: StartState, idx: nat)
    requires p <= |d| && SlotReady(st, idx)
    ensures var o := ParseAttrsSpec(d, p, st, idx);
      (o.err.None? ==> p < o.pos && d[o.pos - 1] == Gt)
      && (o.err.Some? ==> o.err == Some(EOF) && o.pos == |d|)
    decreases |d| - p
  {
    match AttrsTurnSpec(d, p, st, idx)
    case Stop(o) =>
    case Continue(p', st', idx') =>
      AttrsStopAtGtOrEnd(d, p', st', idx');
  }

  /** parse succeeds only by consuming a '>'; every failure is the end of the input, reached. */
  lemma ParseStopsAtGtOrEnd(d: seq<byte>, p: nat, buf: seq<KV>)
    requires p <= |d|
    ensures var o := ParseStartSpec(d, p, buf);
      (o.err.None? ==> p < o.pos && d[o.pos - 1] == Gt)
      && (o.err.Some? ==> o.err == Some(EOF) && o.pos == |d|)
  {
    match NextSignificant(d, p)
    case None =>
    case Some(q) =>
      match NextNameEnd(d, q + 1)
      case None =>
      case Some(t) =>
        var st := ScannedName(d, q, t, buf);
        assert ParseStartSpec(d, p, buf) == AfterNameSpec(d, t, st);
        AfterNameStops(d, t, st);
  }

  lemma AfterNameStops(d: seq<byte>, t: nat, st: StartState)
    requires t < |d| && st.Valid()
    ensures var o := AfterNameSpec(d, t, st);
      (o.err.None? ==> t < o.pos && d[o.pos - 1] == Gt)
      && (o.err.Some? ==> o.err == Some(EOF) && o.pos == |d|)
  {
    if d[t] != Gt {
      AttrsStopAtGtOrEnd(d, t + 1, st, 0);
    }
  }

  /** The attribute loop never clears the '/' flag, and sets it only on a '/' it consumes. */
  lemma {:induction false} AttrsSetEndOnSlash(d: seq<byte>, p: nat, st: StartState, idx: nat)
    requires p <= |d| && SlotReady(st, idx)
    ensures var o := ParseAttrsSpec(d, p, st, idx);
      (st.hasEnd ==> o.st.hasEnd)
      && (o.st.hasEnd && !st.hasEnd ==> exists i :: p <= i < o.pos && d[i] == Slash)
    decreases |d| - p
  {
    match AttrsTurnSpec(d, p, st, idx)
    case Stop(o) =>
    case Continue(p', st', idx') =>
      AttrsSetEndOnSlash(d, p', st', idx');
      var o := ParseAttrsSpec(d, p', st', idx');
      assert ParseAttrsSpec(d, p, st, idx) == o;
      if o.st.hasEnd && !st.hasEnd {
        var q := NextSignificant(d, p).value;
        if st'.hasEnd {
          assert d[q] == Slash && p <= q < p' <= o.pos;
        } else {
          var i :| p' <= i < o.pos && d[i] == Slash;
          assert p <= i;
        }
      }
  }

  /** A '/' seen in the name loop stands in the input. */
  lemma {:induction false} SlashWithinWitness(d: seq<byte>, q: nat, e: nat)
    requires q < e <= |d| && SlashWithin(d, q, e)
    ensures exists i :: q < i < e && d[i] == Slash
    decreases e
  {
    if d[e - 1] != Slash {
      SlashWithinWitness(d, q, e - 1);
    }
  }

  /** parse sets the '/' flag only on a '/' it consumes: one in the name after its first byte,
      or one at the start of an attribute-loop turn. */
  lemma SelfClosingOnlyOnSlash(d: seq<byte>, p: nat, buf: seq<KV>)
    requires p <= |d|
    ensures var o := ParseStartSpec(d, p, buf);
      o.st.hasEnd ==> exists i :: p <= i < o.pos && d[i] == Slash
  {
    if NextSignificant(d, p).Some? {
      var q := NextSignificant(d, p).value;
      AfterFirstSetsEndOnSlash(d, q, buf);
      assert ParseStartSpec(d, p, buf) == AfterFirstSpec(d, q, buf);
    }
  }

  /** The same, once the name has started at `q`. */
  lemma AfterFirstSetsEndOnSlash(d: seq<byte>, q: nat, buf: seq<KV>)
    requires q < |d|
    ensures var o := AfterFirstSpec(d, q, buf);
      o.st.hasEnd ==> exists i :: q < i < o.pos && d[i] == Slash
  {
    var e := match NextNameEnd(d, q + 1) case Some(t) => t case None => |d|;
    var st := ScannedName(d, q, e, buf);
    var o := AfterFirstSpec(d, q, buf);
    if st.hasEnd {
      SlashWithinWitness(d, q, e);
      assert e <= o.pos;
    } else if NextNameEnd(d, q + 1).Some? && d[e] != Gt {
      AttrsSetEndOnSlash(d, e + 1, st, 0);
    }
  }

  /** What String writes for an attribute and parse reads back as written. */
  predicate WellFormedAttr(kv: KV)
  {
    |kv.k| > 0 && IsSignificant(kv.k[0]) && kv.k[0] != Gt && kv.k[0] != Slash && WellFormedKV(kv.k, kv.v)
  }

  /** A turn that finds an attribute's first byte at `q` and parses it successfully fills slot `idx`. */
  lemma SlotTurn(d: seq<byte>, p: nat, q: nat, st: StartState, idx: nat, kv: KV, next: nat)
    requires p <= q < |d| && SlotReady(st, idx)
    requires NextSignificant(d, p) == Some(q) && d[q] != Gt && d[q] != Slash
    requires ParseKVSpec(d, q, WithSlot(st, idx).buf[idx]) == KVOutcome(kv, next, None)
    ensures var slot := WithSlot(st, idx);
      AttrsTurnSpec(d, p, st, idx) == Continue(next, slot.(buf := slot.buf[idx := kv]), idx + 1)
  {
  }

  /** A turn over a written attribute reads it into slot `idx` and moves past it. */
  lemma WrittenAttrTurn(d: seq<byte>, p: nat, st: StartState, idx: nat, kv: KV)
    requires SlotReady(st, idx) && WellFormedAttr(kv)
    requires p + |AttrText(kv)| <= |d| && d[p..p + |AttrText(kv)|] == AttrText(kv)
    ensures var slot := WithSlot(st, idx);
      AttrsTurnSpec(d, p, st, idx) == Continue(p + |AttrText(kv)|, slot.(buf := slot.buf[idx := kv]), idx + 1)
  {
    var a := AttrText(kv);
    assert d[p] == a[0] == Space;
    assert d[p + 1] == a[1] == kv.k[0];
    NextSignificantAt(d, p, p + 1);
    assert d[p + 1..p + |a|] == kv.k + [Equals, Quote] + kv.v + [Quote] by {
      assert d[p + 1..p + |a|] == d[p..p + |a|][1..];
    }
    ParseWrittenKV(d, p + 1, WithSlot(st, idx).buf[idx], kv.k, kv.v);
    SlotTurn(d, p, p + 1, st, idx, kv, p + |a|);
  }

  /** The written closing of a start tag ends the attribute loop, setting the '/' flag for "/>". */
  lemma WrittenCloseTurns(d: seq<byte>, p: nat, st: StartState, idx: nat, h: bool)
    requires SlotReady(st, idx) && !st.hasEnd
    requires p + |Close(h)| <= |d| && d[p..p + |Close(h)|] == Close(h)
    ensures ParseAttrsSpec(d, p, st, idx) == StartOutcome(st.(hasEnd := h), p + |Close(h)|, None)
  {
    assert d[p] == Close(h)[0];
    NextSignificantAt(d, p, p);
    if h {
      assert d[p + 1] == Close(h)[1];
      NextSignificantAt(d, p + 1, p + 1);
    }
  }

  /** A turn that does not stop hands the rest of the loop to the next turn. */
  lemma ParseAttrsContinue(d: seq<byte>, p: nat, st: StartState, idx: nat, p': nat, st': StartState, idx': nat)
    requires p <= |d| && SlotReady(st, idx)
    requires AttrsTurnSpec(d, p, st, idx) == Continue(p', st', idx')
    ensures ParseAttrsSpec(d, p, st, idx) == ParseAttrsSpec(d, p', st', idx')
  {
  }

  /** The state after `attrs` are read, in order, into the slots from `idx`. */
  function FillSlots(st: StartState, idx: nat, attrs: seq<KV>): (r: StartState)
    requires SlotReady(st, idx) && st.count == idx
    ensures r.Valid() && r.name == st.name && r.hasEnd == st.hasEnd
    ensures r.Attrs() == st.buf[..idx] + attrs
    decreases |attrs|
  {
    if attrs == [] then st
    else
      var slot := WithSlot(st, idx);
      var st' := slot.(buf := slot.buf[idx := attrs[0]]);
      assert st'.buf[..idx + 1] == st.buf[..idx] + [attrs[0]];
      assert attrs == [attrs[0]] + attrs[1..];
      FillSlots(st', idx + 1, attrs[1..])
  }

  /** Written attributes followed by a closing: the first attribute, then the rest. */
  lemma WrittenSplit(d: seq<byte>, p: nat, attrs: seq<KV>, h: bool)
    requires attrs != []
    requires p + |AttrsText(attrs) + Close(h)| <= |d|
    requires d[p..p + |AttrsText(attrs) + Close(h)|] == AttrsText(attrs) + Close(h)
    ensures var a, w' := AttrText(attrs[0]), AttrsText(attrs[1..]) + Close(h);
      |AttrsText(attrs) + Close(h)| == |a| + |w'|
      && d[p..p + |a|] == a && d[p + |a|..p + |a| + |w'|] == w'
  {
    var a, w' := AttrText(attrs[0]), AttrsText(attrs[1..]) + Close(h);
    AppendAssoc(a, AttrsText(attrs[1..]), Close(h));
    SliceConcat(d, p, a, w');
  }

  lemma SliceConcat(d: seq<byte>, p: nat, a: seq<byte>, b: seq<byte>)
    requires p + |a + b| <= |d| && d[p..p + |a + b|] == a + b
    ensures d[p..p + |a|] == a && d[p + |a|..p + |a| + |b|] == b
  {
    assert d[p..p + |a|] == d[p..p + |a + b|][..|a|];
    assert d[p + |a|..p + |a| + |b|] == d[p..p + |a + b|][|a|..];
  }

  /** A turn that fills slot `idx` with the first attribute, followed by a loop that fills
      the rest, fills them all. */
  lemma FirstSlotThenRest(d: seq<byte>, p: nat, st: StartState, idx: nat, attrs: seq<KV>, h: bool,
                          st': StartState, p': nat, last: nat)
    requires SlotReady(st, idx) && st.count == idx && attrs != [] && p <= |d|
    requires st' == WithSlot(st, idx).(buf := WithSlot(st, idx).buf[idx := attrs[0]])
    requires AttrsTurnSpec(d, p, st, idx) == Continue(p', st', idx + 1)
    requires ParseAttrsSpec(d, p', st', idx + 1) == StartOutcome(FillSlots(st', idx + 1, attrs[1..]).(hasEnd := h), last, None)
    ensures ParseAttrsSpec(d, p, st, idx) == StartOutcome(FillSlots(st, idx, attrs).(hasEnd := h), last, None)
  {
    ParseAttrsContinue(d, p, st, idx, p', st', idx + 1);
    FillFirstSlot(st, idx, attrs);
  }

  /** Reading the first written attribute fills slot `idx`, as FillSlots does. */
  lemma FillFirstSlot(st: StartState, idx: nat, attrs: seq<KV>)
    requires SlotReady(st, idx) && st.count == idx && attrs != []
    ensures var slot := WithSlot(st, idx);
      FillSlots(st, idx, attrs) == FillSlots(slot.(buf := slot.buf[idx := attrs[0]]), idx + 1, attrs[1..])
  {
  }

  /** Well-formed attributes, written, and the written closing lie in `d` from `p`, one after
      the other. */
  predicate AttrsWrittenAt(d: seq<byte>, p: nat, attrs: seq<KV>, h: bool)
    decreases |attrs|
  {
    if attrs == [] then p + |Close(h)| <= |d| && d[p..p + |Close(h)|] == Close(h)
    else
      var a := AttrText(attrs[0]);
      WellFormedAttr(attrs[0]) && p + |a| <= |d| && d[p..p + |a|] == a
      && AttrsWrittenAt(d, p + |a|, attrs[1..], h)
  }

  /** Bytes holding the written attributes and closing hold them one after the other. */
  lemma {:induction false} AttrsWrittenFromSlice(d: seq<byte>, p: nat, attrs: seq<KV>, h: bool)
    requires forall i :: 0 <= i < |attrs| ==> WellFormedAttr(attrs[i])
    requires p + |AttrsText(attrs) + Close(h)| <= |d|
    requires d[p..p + |AttrsText(attrs) + Close(h)|] == AttrsText(attrs) + Close(h)
    ensures AttrsWrittenAt(d, p, attrs, h)
    decreases |attrs|
  {
    if attrs == [] {
      assert AttrsText(attrs) + Close(h) == Close(h);
    } else {
      WrittenSplit(d, p, attrs, h);
      forall i | 0 <= i < |attrs[1..]| ensures WellFormedAttr(attrs[1..][i]) {
        assert attrs[1..][i] == attrs[i + 1];
      }
      AttrsWrittenFromSlice(d, p + |AttrText(attrs[0])|, attrs[1..], h);
    }
  }

  /** The attribute loop reads written attributes and the written closing back as written. */
  lemma {:induction false} ParseWrittenAttrs(d: seq<byte>, p: nat, st: StartState, idx: nat, attrs: seq<KV>, h: bool)
    requires SlotReady(st, idx) && st.count == idx && !st.hasEnd
    requires AttrsWrittenAt(d, p, attrs, h)
    ensures p + |AttrsText(attrs) + Close(h)| <= |d|
    ensures ParseAttrsSpec(d, p, st, idx)
         == StartOutcome(FillSlots(st, idx, attrs).(hasEnd := h), p + |AttrsText(attrs) + Close(h)|, None)
    decreases |attrs|
  {
    if attrs == [] {
      assert AttrsText(attrs) + Close(h) == Close(h);
      WrittenCloseTurns(d, p, st, idx, h);
    } else {
      var n := |AttrText(attrs[0])|;
      var slot := WithSlot(st, idx);
      var st' := slot.(buf := slot.buf[idx := attrs[0]]);
      assert |AttrsText(attrs) + Close(h)| == n + |AttrsText(attrs[1..]) + Close(h)|;
      ParseWrittenAttrs(d, p + n, st', idx + 1, attrs[1..], h);
      WrittenAttrTurn(d, p, st, idx, attrs[0]);
      FirstSlotThenRest(d, p, st, idx, attrs, h, st', p + n, p + n + |AttrsText(attrs[1..]) + Close(h)|);
    }
  }

  /** A turn started on a space is the turn started just after it. */
  lemma AttrsFromSpace(d: seq<byte>, t: nat, st: StartState, idx: nat)
    requires t < |d| && d[t] == Space && SlotReady(st, idx)
    ensures ParseAttrsSpec(d, t + 1, st, idx) == ParseAttrsSpec(d, t, st, idx)
  {
    NextSignificantFrom(d, t, t + 1);
    assert AttrsTurnSpec(d, t, st, idx) == AttrsTurnSpec(d, t + 1, st, idx);
  }

  /** A written name after the '<' is scanned whole: the name loop runs past it, keeping every
      byte, and sees no '/'. */
  lemma WrittenNameScanned(d: seq<byte>, name: seq<byte>, t: nat)
    requires WellFormedName(name) && t == 1 + |name| <= |d| && d[1..t] == name
    ensures NextNameEnd(d, 2) == NextNameEnd(d, t)
    ensures NameUpTo(d, 1, t) == name && !SlashWithin(d, 1, t)
  {
    forall i | 2 <= i < t ensures !IsNameEnd(d[i]) && d[i] != Slash {
      assert d[i] == name[i - 1];
    }
    NextNameEndFrom(d, 2, t);
    NoSlashNameIsSlice(d, 1, t);
  }

  /** A written name after the '<' is scanned back whole; a '/' right after it, followed
      by '>', marks the element self-closing. */
  lemma NameEndsAt(d: seq<byte>, name: seq<byte>, t: nat, buf: seq<KV>)
    requires WellFormedName(name) && t == 1 + |name| < |d| && d[1..t] == name
    requires IsNameEnd(d[t]) || (d[t] == Slash && t + 1 < |d| && d[t + 1] == Gt)
    ensures var e := if IsNameEnd(d[t]) then t else t + 1;
      NextNameEnd(d, 2) == Some(e) && ScannedName(d, 1, e, buf) == StartState(name, buf, 0, !IsNameEnd(d[t]))
  {
    WrittenNameScanned(d, name, t);
    if IsNameEnd(d[t]) {
      assert NextNameEnd(d, t) == Some(t);
    } else {
      assert NextNameEnd(d, t) == NextNameEnd(d, t + 1) == Some(t + 1);
      assert NameUpTo(d, 1, t + 1) == name;
    }
  }

  /** parse, from just after the '<', over a written name followed by written attributes and
      the written closing. */
  lemma ParseNamedThen(d: seq<byte>, name: seq<byte>, attrs: seq<KV>, h: bool, buf: seq<KV>)
    requires WellFormedName(name)
    requires forall i :: 0 <= i < |attrs| ==> WellFormedAttr(attrs[i])
    requires 1 + |name| + |AttrsText(attrs) + Close(h)| <= |d| && d[1..1 + |name|] == name
    requires d[1 + |name|..1 + |name| + |AttrsText(attrs) + Close(h)|] == AttrsText(attrs) + Close(h)
    ensures ParseStartSpec(d, 1, buf)
         == StartOutcome(FillSlots(StartState(name, buf, 0, false), 0, attrs).(hasEnd := h),
                         1 + |name| + |AttrsText(attrs) + Close(h)|, None)
  {
    var t := 1 + |name|;
    var w := AttrsText(attrs) + Close(h);
    var st := StartState(name, buf, 0, false);
    assert d[1] == name[0];
    NextSignificantAt(d, 1, 1);
    assert d[t] == w[0];
    if attrs != [] {
      assert w[0] == Space;
      NameEndsAt(d, name, t, buf);
      AttrsFromSpace(d, t, st, 0);
      AttrsWrittenFromSlice(d, t, attrs, h);
      ParseWrittenAttrs(d, t, st, 0, attrs, h);
    } else if h {
      assert w == [Slash, Gt];
      assert d[t + 1] == w[1];
      NameEndsAt(d, name, t, buf);
    } else {
      assert w == [Gt];
      NameEndsAt(d, name, t, buf);
    }
  }

  /** parse reads back what String writes: given the bytes after the '<', a well-formed element
      comes back with its name, attributes and '/' flag, the cursor just past its '>'. */
  lemma ParseWrittenStart(name: seq<byte>, attrs: seq<KV>, h: bool, rest: seq<byte>, buf: seq<KV>)
    requires WellFormedName(name)
    requires forall i :: 0 <= i < |attrs| ==> WellFormedAttr(attrs[i])
    ensures var s := StartText(name, attrs, h);
      var o := ParseStartSpec(s + rest, 1, buf);
      o.err == None && o.pos == |s|
      && o.st.name == name && o.st.Attrs() == attrs && o.st.hasEnd == h
  {
    var s := StartText(name, attrs, h);
    var w := AttrsText(attrs) + Close(h);
    AppendAssoc([Lt] + name, AttrsText(attrs), Close(h));
    var d := s + rest;
    assert d[1..1 + |name|] == name;
    assert d[1 + |name|..1 + |name| + |w|] == w;
    ParseNamedThen(d, name, attrs, h, buf);
    var f := FillSlots(StartState(name, buf, 0, false), 0, attrs);
    var o := ParseStartSpec(d, 1, buf);
    assert o.pos == |s| && o.err == None && o.st == f.(hasEnd := h);
    assert f.Attrs() == buf[..0] + attrs == attrs;
  }
}
