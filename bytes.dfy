/** Bytes, the byte constants the tokenizer switches on, the error values it
    can see, and the two searches every scanner in the model is specified by. */
module Bytes {

  /** Go's `byte`. */
  newtype byte = x: int | 0 <= x < 256

  const LF: byte := 10
  const CR: byte := 13
  const Space: byte := 32
  const Bang: byte := 33      // '!'
  const Quote: byte := 34     // '"'
  const Slash: byte := 47     // '/'
  const Lt: byte := 60        // '<'
  const Equals: byte := 61    // '='
  const Gt: byte := 62        // '>'
  const Question: byte := 63  // '?'

  datatype Option<T> = None | Some(value: T)

  /** `EOF` is io.EOF, the only error a finite input produces; `InvalidUnreadByte`
      is bufio's refusal to push back; `ShortWrite` is a sink that took less than it was given. */
  datatype Error = EOF | InvalidUnreadByte | ShortWrite

  /** Whitespace for this tokenizer is every byte up to and including 32. */
  predicate IsSignificant(b: byte) { b > 32 }

  /** skipWS's search: the first significant byte at or after `p`. */
  function NextSignificant(d: seq<byte>, p: nat): (r: Option<nat>)
    requires p <= |d|
    ensures r.Some? ==> p <= r.value < |d| && IsSignificant(d[r.value])
    ensures r.Some? ==> forall i {:trigger IsSignificant(d[i])} :: p <= i < r.value ==> !IsSignificant(d[i])
    ensures r.None? ==> forall i {:trigger IsSignificant(d[i])} :: p <= i < |d| ==> !IsSignificant(d[i])
    decreases |d| - p
  {
    if p == |d| then None
    else if IsSignificant(d[p]) then Some(p)
    else NextSignificant(d, p + 1)
  }

  /** The first occurrence of `b` at or after `p` (bytes.IndexByte on the rest of the input). */
  function IndexOf(d: seq<byte>, p: nat, b: byte): (r: Option<nat>)
    requires p <= |d|
    ensures r.Some? ==> p <= r.value < |d| && d[r.value] == b
    decreases |d| - p
  {
    if p == |d| then None
    else if d[p] == b then Some(p)
    else IndexOf(d, p + 1, b)
  }

  /** The search passes over no earlier `b`. */
  lemma {:induction false} IndexOfSkips(d: seq<byte>, p: nat, b: byte)
    requires p <= |d|
    ensures var r := IndexOf(d, p, b);
      (r.Some? ==> forall i :: p <= i < r.value ==> d[i] != b)
      && (r.None? ==> forall i :: p <= i < |d| ==> d[i] != b)
    decreases |d| - p
  {
    if p < |d| && d[p] != b {
      IndexOfSkips(d, p + 1, b);
    }
  }

  /** A search is determined by the first hit: anything found at `t` with no hit before it is the answer. */
  lemma NextSignificantAt(d: seq<byte>, p: nat, t: nat)
    requires p <= t < |d| && IsSignificant(d[t])
    requires forall i :: p <= i < t ==> !IsSignificant(d[i])
    ensures NextSignificant(d, p) == Some(t)
  {
  }

  /** Starting the search later changes nothing when the skipped bytes cannot match. */
  lemma NextSignificantFrom(d: seq<byte>, p: nat, q: nat)
    requires p <= q <= |d|
    requires forall i :: p <= i < q ==> !IsSignificant(d[i])
    ensures NextSignificant(d, p) == NextSignificant(d, q)
  {
  }

  lemma {:induction false} IndexOfAt(d: seq<byte>, p: nat, b: byte, t: nat)
    requires p <= t < |d| && d[t] == b
    requires forall i :: p <= i < t ==> d[i] != b
    ensures IndexOf(d, p, b) == Some(t)
    decreases t - p
  {
    if p < t {
      IndexOfAt(d, p + 1, b, t);
    }
  }

  lemma {:induction false} IndexOfFrom(d: seq<byte>, p: nat, q: nat, b: byte)
    requires p <= q <= |d|
    requires forall i :: p <= i < q ==> d[i] != b
    ensures IndexOf(d, p, b) == IndexOf(d, q, b)
    decreases q - p
  {
    if p < q {
      IndexOfFrom(d, p + 1, q, b);
    }
  }

  /** Whitespace never holds a significant byte `b`, so searching for `b` can skip it: the search
      finds nothing when nothing significant is left, and otherwise resumes at the significant byte. */
  lemma IndexOfPastWhitespace(d: seq<byte>, p: nat, b: byte)
    requires p <= |d| && IsSignificant(b)
    ensures NextSignificant(d, p).None? ==> IndexOf(d, p, b) == None
    ensures NextSignificant(d, p).Some? ==> IndexOf(d, p, b) == IndexOf(d, NextSignificant(d, p).value, b)
  {
    var n := NextSignificant(d, p);
    var q := if n.Some? then n.value else |d|;
    forall i | p <= i < q ensures d[i] != b {
      assert !IsSignificant(d[i]);
    }
    IndexOfFrom(d, p, q, b);
  }

  lemma AppendAssoc(a: seq<byte>, b: seq<byte>, c: seq<byte>)
    ensures a + b + c == a + (b + c)
  {
  }

  /** `n` space bytes. */
  function Spaces(n: nat): (s: seq<byte>)
    ensures |s| == n && forall i :: 0 <= i < n ==> s[i] == Space
  {
    seq(n, _ => Space)
  }
}
