/** kv.go: one `key = "value"` attribute. */
module KeyValues {
  import opened Bytes
  import Bufio
  import opened Scanner

  /** An attribute. KV lives by value inside the attribute list, so its in-place
      parse is modelled as returning the updated value. Key/KeyBytes and
      Value/ValueBytes are the fields `k` and `v`. */
  datatype KV = KV(k: seq<byte>, v: seq<byte>)

  /** The cut set of bytes.TrimRight at kv.go:41. */
  predicate IsKeyPadding(b: byte) { b == Space || b == CR || b == LF }

  /** bytes.TrimRight(s, " \r\n"): the longest prefix of `s` that does not end in padding. */
  function TrimRight(s: seq<byte>): (r: seq<byte>)
    ensures r <= s
    ensures |r| == 0 || !IsKeyPadding(r[|r| - 1])
    ensures forall i :: |r| <= i < |s| ==> IsKeyPadding(s[i])
  {
    if |s| > 0 && IsKeyPadding(s[|s| - 1]) then TrimRight(s[..|s| - 1]) else s
  }

  /** reset: both buffers truncated to length zero. */
  function Reset(kv: KV): (r: KV)
    ensures |r.k| == 0 && |r.v| == 0
  {
    KV([], [])
  }

  datatype KVOutcome = KVOutcome(kv: KV, pos: nat, err: Option<Error>)

  /** What parse does to `kv` and the cursor when started at `p`: the key is the
      bytes before the first '=' (trimmed on the right), the value the bytes
      between the first two '"' after it; every other byte in between is skipped. */
  function ParseKVSpec(d: seq<byte>, p: nat, kv: KV): (o: KVOutcome)
    requires p <= |d|
    ensures p <= o.pos <= |d| && (p < |d| ==> p < o.pos)
  {
    match IndexOf(d, p, Equals)
    case None => KVOutcome(kv, |d|, Some(EOF))
    case Some(e) => QuotedValueSpec(d, e + 1, KV(TrimRight(d[p..e]), kv.v))
  }

  /** The second half of parse, from just after the '=': the value between the next two quotes. */
  function QuotedValueSpec(d: seq<byte>, p: nat, kv: KV): (o: KVOutcome)
    requires p <= |d|
    ensures p <= o.pos <= |d| && o.kv.k == kv.k
  {
    match IndexOf(d, p, Quote)
    case None => KVOutcome(kv, |d|, Some(EOF))
    case Some(q) =>
      match IndexOf(d, q + 1, Quote)
      case None => KVOutcome(kv, |d|, Some(EOF))
      case Some(t) => KVOutcome(kv.(v := d[q + 1..t]), t + 1, None)
  }

  /** KV.parse: ReadBytes('='), then the quoted value. */
  method ParseKV(r: Bufio.Reader, kv: KV) returns (res: KV, err: Option<Error>)
    requires r.Valid()
    modifies r
    ensures r.Valid()
    ensures var o := ParseKVSpec(r.data, old(r.pos), kv);
      res == o.kv && err == o.err && r.pos == o.pos
    ensures err.None? ==> r.canUnread
  {
    var k;
    k, err := r.ReadBytes(Equals);
    res := kv;
    if err == None {
      assert k[..|k| - 1] == r.data[old(r.pos)..r.pos - 1];
      res := res.(k := TrimRight(k[..|k| - 1]));
      res, err := ParseQuotedValue(r, res);
    }
  }

  /** The labelled loop of KV.parse: skipWS until a '"' (dropping any other byte), then ReadBytes('"'). */
  method ParseQuotedValue(r: Bufio.Reader, kv: KV) returns (res: KV, err: Option<Error>)
    requires r.Valid()
    modifies r
    ensures r.Valid()
    ensures var o := QuotedValueSpec(r.data, old(r.pos), kv);
      res == o.kv && err == o.err && r.pos == o.pos
    ensures err.None? ==> r.canUnread
  {
    res := kv;
    err := None;
    while true
      invariant r.Valid() && old(r.pos) <= r.pos && err == None && res == kv
      invariant IndexOf(r.data, r.pos, Quote) == IndexOf(r.data, old(r.pos), Quote)
      decreases |r.data| - r.pos
    {
      var c;
      ghost var p := r.pos;
      IndexOfPastWhitespace(r.data, p, Quote);
      c, err := SkipWS(r);
      if err != None {
        break;
      }
      if c == Quote {
        var v;
        v, err := r.ReadBytes(Quote);
        if err == None {
          res := res.(v := v[..|v| - 1]);
        }
        break;
      }
    }
  }

  /** Without an '=' before the end of the input, parse fails and leaves key and value as they were. */
  lemma NoEqualsLeavesKV(d: seq<byte>, p: nat, kv: KV)
    requires p <= |d|
    requires forall i :: p <= i < |d| ==> d[i] != Equals
    ensures ParseKVSpec(d, p, kv) == KVOutcome(kv, |d|, Some(EOF))
  {
    assert IndexOf(d, p, Equals) == None;
  }

  /** Once an '=' is found the key is overwritten, even if the value is then missing:
      it is the bytes before the first '=' less trailing ' ', '\r', '\n' (tabs and leading bytes kept). */
  lemma {:induction false} KeyIsTrimmedPrefix(d: seq<byte>, p: nat, kv: KV, e: nat)
    requires p <= e < |d| && d[e] == Equals
    requires forall i :: p <= i < e ==> d[i] != Equals
    ensures var o := ParseKVSpec(d, p, kv);
      o.kv.k <= d[p..e] && Equals !in o.kv.k
      && (|o.kv.k| == 0 || !IsKeyPadding(o.kv.k[|o.kv.k| - 1]))
      && (forall i :: p + |o.kv.k| <= i < e ==> IsKeyPadding(d[i]))
      && (o.err.Some? ==> o.kv.v == kv.v && o.pos == |d|)
  {
    IndexOfAt(d, p, Equals, e);
    var key := TrimRight(d[p..e]);
    forall i | p + |key| <= i < e ensures IsKeyPadding(d[i]) {
      assert d[i] == d[p..e][i - p];
    }
    assert Equals !in d[p..e];
  }

  /** On success the value is exactly the bytes between two quotes, holds no quote,
      and the cursor sits just past the closing quote. */
  lemma ValueBetweenQuotes(d: seq<byte>, p: nat, kv: KV)
    requires p <= |d|
    ensures var o := ParseKVSpec(d, p, kv);
      o.err.None? ==>
        Quote !in o.kv.v && |o.kv.v| + 2 <= o.pos && d[o.pos - 1] == Quote
        && d[o.pos - |o.kv.v| - 2] == Quote && o.kv.v == d[o.pos - |o.kv.v| - 1..o.pos - 1]
  {
    match IndexOf(d, p, Equals)
    case None =>
    case Some(e) =>
      match IndexOf(d, e + 1, Quote)
      case None =>
      case Some(q) =>
        IndexOfSkips(d, q + 1, Quote);
  }

  /** parse succeeds exactly when an '=' is followed, somewhere later, by two quotes. */
  lemma SucceedsIff(d: seq<byte>, p: nat, kv: KV)
    requires p <= |d|
    ensures ParseKVSpec(d, p, kv).err.None? <==>
      exists e, q, t :: p <= e < q < t < |d| && KeyValueFrame(d, e, q, t)
  {
    if exists e, q, t :: p <= e < q < t < |d| && KeyValueFrame(d, e, q, t) {
      var e, q, t :| p <= e < q < t < |d| && KeyValueFrame(d, e, q, t);
      FrameSucceeds(d, p, kv, e, q, t);
    }
    if ParseKVSpec(d, p, kv).err.None? {
      var e := IndexOf(d, p, Equals).value;
      var q := IndexOf(d, e + 1, Quote).value;
      var t := IndexOf(d, q + 1, Quote).value;
      assert KeyValueFrame(d, e, q, t);
    }
  }

  /** An '=' at `e` and quotes at `q` and `t` after it are enough for parse to succeed, though
      the quotes it settles on may be earlier ones. */
  lemma FrameSucceeds(d: seq<byte>, p: nat, kv: KV, e: nat, q: nat, t: nat)
    requires p <= e < q < t < |d| && KeyValueFrame(d, e, q, t)
    ensures ParseKVSpec(d, p, kv).err.None?
  {
    IndexOfSkips(d, p, Equals);
    var e' := IndexOf(d, p, Equals).value;
    IndexOfSkips(d, e' + 1, Quote);
    var q' := IndexOf(d, e' + 1, Quote).value;
    assert q' <= q;
    var t' := if q' < q then q else t;
    IndexOfSkips(d, q' + 1, Quote);
    assert d[t'] == Quote && q' < t';
    assert IndexOf(d, q' + 1, Quote).Some?;
    assert QuotedValueSpec(d, e' + 1, KV(TrimRight(d[p..e']), kv.v)).err == None;
  }

  /** Where parse stops and whether it fails never depend on what the KV held before,
      a failure always runs to the end of the input, and a success overwrites key and value. */
  lemma OldContentsOnlyShowOnFailure(d: seq<byte>, p: nat, kv1: KV, kv2: KV)
    requires p <= |d|
    ensures var o1, o2 := ParseKVSpec(d, p, kv1), ParseKVSpec(d, p, kv2);
      o1.pos == o2.pos && o1.err == o2.err
      && (o1.err.Some? ==> o1.pos == |d|)
      && (o1.err.None? ==> o1.kv == o2.kv)
  {
  }

  /** An '=' at `e` and quotes at `q` and `t`. */
  ghost predicate KeyValueFrame(d: seq<byte>, e: nat, q: nat, t: nat)
    requires e < |d| && q < |d| && t < |d|
  {
    d[e] == Equals && d[q] == Quote && d[t] == Quote
  }

  /** Parsing a written attribute `k="v"` gives back `k` and `v` and stops after the closing quote. */
  lemma {:induction false} ParseWrittenKV(d: seq<byte>, p: nat, kv: KV, k: seq<byte>, v: seq<byte>)
    requires WellFormedKV(k, v)
    requires p + |k| + |v| + 3 <= |d|
    requires d[p..p + |k| + |v| + 3] == k + [Equals, Quote] + v + [Quote]
    ensures ParseKVSpec(d, p, kv) == KVOutcome(KV(k, v), p + |k| + |v| + 3, None)
  {
    var e := p + |k|;
    var w := k + [Equals, Quote] + v + [Quote];
    assert Slice: d[p..p + |w|] == w;
    assert d[p..e] == k by {
      assert d[p..e] == d[p..p + |w|][..|k|];
    }
    assert d[e + 2..e + 2 + |v|] == v by {
      forall j | 0 <= j < |v| ensures d[e + 2 + j] == v[j] {
        assert d[e + 2 + j] == d[p..p + |w|][|k| + 2 + j] == w[|k| + 2 + j];
      }
    }
    assert d[e] == Equals && d[e + 1] == Quote && d[e + 2 + |v|] == Quote by {
      assert d[e] == w[|k|] && d[e + 1] == w[|k| + 1] && d[e + 2 + |v|] == w[|w| - 1];
    }
    forall i | p <= i < e ensures d[i] != Equals {
      assert d[i] == d[p..e][i - p];
    }
    forall i | e + 2 <= i < e + 2 + |v| ensures d[i] != Quote {
      assert d[i] == d[e + 2..e + 2 + |v|][i - e - 2];
    }
    IndexOfAt(d, p, Equals, e);
    IndexOfAt(d, e + 1, Quote, e + 1);
    IndexOfAt(d, e + 2, Quote, e + 2 + |v|);
  }

  /** What the writer emits as an attribute is read back as it was written: no '=' in the
      key, which does not end in padding, and no '"' in the value. */
  predicate WellFormedKV(k: seq<byte>, v: seq<byte>)
  {
    Equals !in k && (|k| == 0 || !IsKeyPadding(k[|k| - 1])) && Quote !in v
  }
}
