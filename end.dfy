/** end.go: the closing tag `</name>`, read after the '<' and the '/'. */
module EndElements {
  import opened Bytes
  import Bufio
  import opened Scanner

  /** The bytes of `s` other than ' ' (tabs and newlines are kept). */
  function WithoutSpaces(s: seq<byte>): (r: seq<byte>)
    ensures Space !in r && |r| <= |s|
  {
    if s == [] then []
    else WithoutSpaces(s[..|s| - 1]) + (if s[|s| - 1] == Space then [] else [s[|s| - 1]])
  }

  lemma WithoutSpacesSnoc(s: seq<byte>, b: byte)
    ensures WithoutSpaces(s + [b]) == WithoutSpaces(s) + (if b == Space then [] else [b])
  {
    assert (s + [b])[..|s|] == s;
  }

  /** Only ' ' is dropped: a run without spaces is kept whole. */
  lemma {:induction false} KeepsAllButSpaces(s: seq<byte>)
    requires Space !in s
    ensures WithoutSpaces(s) == s
  {
    if s != [] {
      KeepsAllButSpaces(s[..|s| - 1]);
      assert s == s[..|s| - 1] + [s[|s| - 1]];
    }
  }

  /** The name bytes the loop has gathered from the first significant byte at `q` up to (not
      including) `e`: each byte after the first is kept unless it is ' '. */
  function EndNameUpTo(d: seq<byte>, q: nat, e: nat): (r: seq<byte>)
    requires q < e <= |d|
    ensures |r| > 0 && r[0] == d[q]
    decreases e
  {
    if e == q + 1 then [d[q]]
    else EndNameUpTo(d, q, e - 1) + (if d[e - 1] == Space then [] else [d[e - 1]])
  }

  /** The gathered name is the first byte followed by the later bytes with the spaces dropped. */
  lemma {:induction false} EndNameUpToDropsSpaces(d: seq<byte>, q: nat, e: nat)
    requires q < e <= |d|
    ensures EndNameUpTo(d, q, e) == [d[q]] + WithoutSpaces(d[q + 1..e])
    decreases e
  {
    if e == q + 1 {
      assert d[q + 1..e] == [];
    } else {
      EndNameUpToDropsSpaces(d, q, e - 1);
      var x: seq<byte> := if d[e - 1] == Space then [] else [d[e - 1]];
      assert EndNameUpTo(d, q, e) == EndNameUpTo(d, q, e - 1) + x;
      assert d[q + 1..e] == d[q + 1..e - 1] + [d[e - 1]];
      WithoutSpacesSnoc(d[q + 1..e - 1], d[e - 1]);
      AppendAssoc([d[q]], WithoutSpaces(d[q + 1..e - 1]), x);
    }
  }

  /** The name as written, built the way the loop builds it: each kept byte converted in turn. */
  function WidenedEndNameUpTo(d: seq<byte>, q: nat, e: nat): seq<byte>
    requires q < e <= |d|
    decreases e
  {
    if e == q + 1 then RuneBytes(d[q])
    else WidenedEndNameUpTo(d, q, e - 1) + (if d[e - 1] == Space then [] else RuneBytes(d[e - 1]))
  }

  /** Converting byte by byte while gathering is converting the gathered name. */
  lemma {:induction false} WidenedEndNameIsWiden(d: seq<byte>, q: nat, e: nat)
    requires q < e <= |d|
    ensures WidenedEndNameUpTo(d, q, e) == Widen(EndNameUpTo(d, q, e))
    decreases e
  {
    if e == q + 1 {
      WidenSnoc([], d[q]);
      assert [] + [d[q]] == [d[q]];
    } else {
      WidenedEndNameIsWiden(d, q, e - 1);
      if d[e - 1] != Space {
        var kept := EndNameUpTo(d, q, e - 1);
        assert EndNameUpTo(d, q, e) == kept + [d[e - 1]];
        WidenSnoc(kept, d[e - 1]);
      } else {
        assert EndNameUpTo(d, q, e) == EndNameUpTo(d, q, e - 1);
        assert WidenedEndNameUpTo(d, q, e) == WidenedEndNameUpTo(d, q, e - 1);
      }
    }
  }

  /** The name parse as written appends once the first significant byte, at `q`, has been read:
      the converted bytes up to the first '>' after it, or up to the end of the input. */
  function WidenedEndName(d: seq<byte>, q: nat): seq<byte>
    requires q < |d|
  {
    match IndexOf(d, q + 1, Gt)
    case None => WidenedEndNameUpTo(d, q, |d|)
    case Some(t) => WidenedEndNameUpTo(d, q, t)
  }

  /** The name as written is the converted name parse gathers. */
  lemma WidenedEndNameIsWidenedSpec(d: seq<byte>, q: nat)
    requires q < |d|
    ensures WidenedEndName(d, q) == Widen(EndNameSpec(d, q).parsed)
  {
    match IndexOf(d, q + 1, Gt)
    case None => WidenedEndNameIsWiden(d, q, |d|);
    case Some(t) => WidenedEndNameIsWiden(d, q, t);
  }

  datatype EndOutcome = EndOutcome(parsed: seq<byte>, pos: nat, err: Option<Error>)

  /** What parse appends to the name, where it leaves the cursor and what it returns, from `p`:
      the first significant byte, then every byte but ' ' up to the first '>' after it. */
  function ParseEndSpec(d: seq<byte>, p: nat): (o: EndOutcome)
    requires p <= |d|
    ensures p <= o.pos <= |d|
  {
    match NextSignificant(d, p)
    case None => EndOutcome([], |d|, Some(EOF))
    case Some(q) => EndNameSpec(d, q)
  }

  /** The rest of parse once the first significant byte, at `q`, has been read. */
  function EndNameSpec(d: seq<byte>, q: nat): (o: EndOutcome)
    requires q < |d|
    ensures q < o.pos <= |d|
  {
    match IndexOf(d, q + 1, Gt)
    case None => EndOutcome(EndNameUpTo(d, q, |d|), |d|, Some(EOF))
    case Some(t) => EndOutcome(EndNameUpTo(d, q, t), t + 1, None)
  }

  /** Go's `string(c)` for a byte `c`: the UTF-8 encoding of the code point `c`, one byte below
      0x80, else the lead byte 0xC0 + c / 64 followed by 0x80 + c % 64. */
  function RuneBytes(c: byte): (r: seq<byte>)
    ensures |r| == if c < 0x80 then 1 else 2
  {
    if c < 0x80 then [c]
    else if c < 0xC0 then [0xC2, c]
    else [0xC3, c - 0x40]
  }

  /** Every byte replaced by its `string(c)` conversion. */
  function Widen(s: seq<byte>): seq<byte>
  {
    if s == [] then [] else Widen(s[..|s| - 1]) + RuneBytes(s[|s| - 1])
  }

  lemma WidenSnoc(s: seq<byte>, b: byte)
    ensures Widen(s + [b]) == Widen(s) + RuneBytes(b)
  {
    assert (s + [b])[..|s|] == s;
  }

  /** The conversion changes nothing exactly when every byte is ASCII. */
  lemma {:induction false} WidenIsIdentityIff(s: seq<byte>)
    ensures Widen(s) == s <==> forall i :: 0 <= i < |s| ==> s[i] < 128
    decreases |s|
  {
    WidenLength(s);
    if s != [] {
      var init := s[..|s| - 1];
      WidenIsIdentityIff(init);
      assert s == init + [s[|s| - 1]];
      if forall i :: 0 <= i < |s| ==> s[i] < 128 {
        assert forall i :: 0 <= i < |init| ==> init[i] < 128 by {
          forall i | 0 <= i < |init| ensures init[i] < 128 {
            assert init[i] == s[i];
          }
        }
      }
    }
  }

  /** The conversion never shortens, and lengthens as soon as one byte is not ASCII. */
  lemma {:induction false} WidenLength(s: seq<byte>)
    ensures |Widen(s)| >= |s|
    ensures (exists i :: 0 <= i < |s| && s[i] >= 128) ==> |Widen(s)| > |s|
    decreases |s|
  {
    if s != [] {
      var init := s[..|s| - 1];
      WidenLength(init);
      if exists i :: 0 <= i < |s| && s[i] >= 128 {
        var i :| 0 <= i < |s| && s[i] >= 128;
        if i < |s| - 1 {
          assert init[i] == s[i];
        }
      }
    }
  }

  class EndElement {
    var name: seq<byte>

    constructor ()
      ensures name == []
    {
      name := [];
    }

    /** parse as intended: each kept byte is appended to the name as it is. Nothing clears the
        name first, so the name grows by the parsed bytes. */
    method Parse(r: Bufio.Reader) returns (err: Option<Error>)
      requires r.Valid()
      modifies this, r
      ensures r.Valid()
      ensures var o := ParseEndSpec(r.data, old(r.pos));
        name == old(name) + o.parsed && r.pos == o.pos && err == o.err
    {
      ghost var d, p := r.data, r.pos;
      var c;
      c, err := SkipWS(r);
      if err != None {
        assert NextSignificant(d, p) == None;
        return;
      }
      assert NextSignificant(d, p) == Some(r.pos - 1);
      name := name + [c];
      err := ScanEndName(r);
    }

    /** The loop of parse, after the first significant byte. */
    method ScanEndName(r: Bufio.Reader) returns (err: Option<Error>)
      requires r.Valid() && 0 < r.pos && |name| > 0 && name[|name| - 1] == r.data[r.pos - 1]
      modifies this, r
      ensures r.Valid()
      ensures var o := EndNameSpec(r.data, old(r.pos) - 1);
        name == old(name[..|name| - 1]) + o.parsed && r.pos == o.pos && err == o.err
    {
      ghost var q := r.pos - 1;
      ghost var base := name[..|name| - 1];
      assert name == base + EndNameUpTo(r.data, q, r.pos);
      while true
        invariant r.Valid() && q < r.pos
        invariant IndexOf(r.data, r.pos, Gt) == IndexOf(r.data, q + 1, Gt)
        invariant name == base + EndNameUpTo(r.data, q, r.pos)
        decreases |r.data| - r.pos
      {
        ghost var j := r.pos;
        var c;
        c, err := r.ReadByte();
        if err != None {
          break;
        }
        if c == Gt {
          IndexOfAt(r.data, j, Gt, j);
          break;
        }
        IndexOfFrom(r.data, j, j + 1, Gt);
        if c == Space {
          continue;
        }
        name := name + [c];
      }
    }

    /** parse as written: `e.Name += string(c)` appends the UTF-8 encoding of the code point `c`,
        so a byte of 0x80 or more is appended as two bytes. */
    method ParseAsWritten(r: Bufio.Reader) returns (err: Option<Error>)
      requires r.Valid()
      modifies this, r
      ensures r.Valid()
      ensures var o := ParseEndSpec(r.data, old(r.pos));
        name == old(name) + Widen(o.parsed) && r.pos == o.pos && err == o.err
    {
      ghost var d, p := r.data, r.pos;
      var c;
      c, err := SkipWS(r);
      if err != None {
        assert NextSignificant(d, p) == None;
        return;
      }
      assert NextSignificant(d, p) == Some(r.pos - 1);
      WidenedEndNameIsWidenedSpec(d, r.pos - 1);
      err := ScanEndNameAsWritten(r, c);
    }

    /** The loop of parse as written, after the first significant byte `c`. */
    method ScanEndNameAsWritten(r: Bufio.Reader, c: byte) returns (err: Option<Error>)
      requires r.Valid() && 0 < r.pos && c == r.data[r.pos - 1]
      modifies this, r
      ensures r.Valid()
      ensures var o := EndNameSpec(r.data, old(r.pos) - 1);
        name == old(name) + WidenedEndName(r.data, old(r.pos) - 1) && r.pos == o.pos && err == o.err
    {
      ghost var q := r.pos - 1;
      ghost var base := name;
      name := name + RuneBytes(c);
      while true
        invariant r.Valid() && q < r.pos
        invariant IndexOf(r.data, r.pos, Gt) == IndexOf(r.data, q + 1, Gt)
        invariant name == base + WidenedEndNameUpTo(r.data, q, r.pos)
        decreases |r.data| - r.pos
      {
        ghost var j := r.pos;
        var b;
        b, err := r.ReadByte();
        if err != None {
          break;
        }
        if b == Gt {
          IndexOfAt(r.data, j, Gt, j);
          break;
        }
        IndexOfFrom(r.data, j, j + 1, Gt);
        if b == Space {
          continue;
        }
        name := name + RuneBytes(b);
      }
    }
  }

  /** A name parse can produce: a significant first byte, then no ' ' and no '>'. */
  predicate WellFormedEndName(name: seq<byte>)
  {
    |name| > 0 && IsSignificant(name[0]) && Space !in name && Gt !in name
  }

  /** On success the parsed bytes start with a significant byte (which may itself be '>'), hold
      no ' ' and no '>' after the first byte, and the cursor sits just past a '>'; on failure the
      input is spent. */
  lemma ParsedEndShape(d: seq<byte>, p: nat)
    requires p <= |d|
    ensures var o := ParseEndSpec(d, p);
      (o.err.None? ==> |o.parsed| > 0 && IsSignificant(o.parsed[0]) && Space !in o.parsed
                       && Gt !in o.parsed[1..] && d[o.pos - 1] == Gt)
      && (o.err.Some? ==> o.err == Some(EOF) && o.pos == |d|)
  {
    match NextSignificant(d, p)
    case None =>
    case Some(q) =>
      match IndexOf(d, q + 1, Gt)
      case None =>
      case Some(t) =>
        var rest := WithoutSpaces(d[q + 1..t]);
        EndNameUpToDropsSpaces(d, q, t);
        IndexOfSkips(d, q + 1, Gt);
        assert Gt !in d[q + 1..t];
        WithoutSpacesSubset(d[q + 1..t]);
        assert ParseEndSpec(d, p).parsed[1..] == rest;
  }

  /** Every byte kept comes from the input. */
  lemma {:induction false} WithoutSpacesSubset(s: seq<byte>)
    ensures forall b :: b in WithoutSpaces(s) ==> b in s
    decreases |s|
  {
    if s != [] {
      WithoutSpacesSubset(s[..|s| - 1]);
      assert forall b :: b in s[..|s| - 1] ==> b in s;
    }
  }

  /** parse over whitespace, a significant byte at `q`, bytes other than ' ' and '>', then a '>'
      at `t`: the name is exactly the bytes in between. */
  lemma ParseEndAt(d: seq<byte>, p: nat, q: nat, t: nat)
    requires p <= q < t < |d|
    requires forall i :: p <= i < q ==> !IsSignificant(d[i])
    requires IsSignificant(d[q]) && d[t] == Gt
    requires forall i :: q < i < t ==> d[i] != Gt && d[i] != Space
    ensures ParseEndSpec(d, p) == EndOutcome(d[q..t], t + 1, None)
  {
    NextSignificantAt(d, p, q);
    IndexOfAt(d, q + 1, Gt, t);
    NameWithoutSpaces(d, q, t);
  }

  /** With no ' ' after the first byte, the gathered name is the input run itself. */
  lemma NameWithoutSpaces(d: seq<byte>, q: nat, t: nat)
    requires q < t <= |d|
    requires forall i :: q < i < t ==> d[i] != Space
    ensures EndNameUpTo(d, q, t) == d[q..t]
  {
    assert Space !in d[q + 1..t];
    KeepsAllButSpaces(d[q + 1..t]);
    EndNameUpToDropsSpaces(d, q, t);
    assert d[q..t] == [d[q]] + d[q + 1..t];
  }

  /** parse reads back a written closing tag: from just after `pre`, leading whitespace, the
      name, then '>'. */
  lemma ParseWrittenEnd(pre: seq<byte>, ws: seq<byte>, name: seq<byte>, rest: seq<byte>)
    requires forall i :: 0 <= i < |ws| ==> !IsSignificant(ws[i])
    requires WellFormedEndName(name)
    ensures ParseEndSpec(pre + ws + name + [Gt] + rest, |pre|)
         == EndOutcome(name, |pre| + |ws| + |name| + 1, None)
  {
    var d := pre + ws + name + [Gt] + rest;
    var q := |pre| + |ws|;
    var t := q + |name|;
    forall i | |pre| <= i < q ensures !IsSignificant(d[i]) {
      assert d[i] == ws[i - |pre|];
    }
    forall i | q <= i < t ensures d[i] == name[i - q] {
    }
    assert d[t] == Gt;
    assert d[q..t] == name;
    ParseEndAt(d, |pre|, q, t);
  }

  /** The discrepancy as written: the closing tag of an element named "é" (bytes C3 A9) is read
      into the name as C3 83 C2 A9, while the intended parse reads it back as written. */
  lemma AsWrittenWidensNonAscii()
    ensures var d: seq<byte> := [0xC3, 0xA9, Gt];
      ParseEndSpec(d, 0).parsed == [0xC3, 0xA9]
      && Widen(ParseEndSpec(d, 0).parsed) == [0xC3, 0x83, 0xC2, 0xA9]
  {
    var d: seq<byte> := [0xC3, 0xA9, Gt];
    NextSignificantAt(d, 0, 0);
    IndexOfAt(d, 1, Gt, 2);
    assert d[1..2] == [0xA9];
    assert WithoutSpaces([0xA9]) == WithoutSpaces([]) + [0xA9];
    var s: seq<byte> := [0xC3, 0xA9];
    assert s[..1] == [0xC3];
    assert Widen([0xC3]) == Widen([]) + RuneBytes(0xC3);
  }
}
