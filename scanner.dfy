/** util.go: skipping whitespace. */
module Scanner {
  import opened Bytes
  import Bufio

  /** skipWS: consumes bytes up to and including the first byte above 32 and returns it,
      or reports EOF with the whole input consumed. */
  method SkipWS(r: Bufio.Reader) returns (c: byte, err: Option<Error>)
    requires r.Valid()
    modifies r
    ensures r.Valid()
    ensures NextSignificant(r.data, old(r.pos)).Some? ==>
      var q := NextSignificant(r.data, old(r.pos)).value;
      c == r.data[q] && err == None && r.pos == q + 1 && r.canUnread
    ensures NextSignificant(r.data, old(r.pos)).None? ==>
      c == 0 && err == Some(EOF) && r.pos == |r.data|
      && r.canUnread == (old(r.canUnread) || old(r.pos) < |r.data|)
  {
    while true
      invariant r.Valid() && old(r.pos) <= r.pos
      invariant NextSignificant(r.data, r.pos) == NextSignificant(r.data, old(r.pos))
      invariant r.canUnread == (old(r.canUnread) || old(r.pos) < r.pos)
      decreases |r.data| - r.pos
    {
      c, err := r.ReadByte();
      if err != None || c > 32 {
        break;
      }
    }
  }
}
