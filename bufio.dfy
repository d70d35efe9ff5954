/** The part of Go's bufio.Reader the tokenizer relies on: a finite input with
    a cursor, ReadByte, UnreadByte and ReadBytes(delim). Buffering is abstracted
    away; the only read error is the end of the input. */
module Bufio {
  import opened Bytes

  class Reader {
    const data: seq<byte>
    var pos: nat
    /** bufio's `lastByte >= 0`: the last read consumed a byte that UnreadByte may push back. */
    var canUnread: bool

    ghost predicate Valid()
      reads this
    {
      pos <= |data| && (canUnread ==> 0 < pos)
    }

    constructor (input: seq<byte>)
      ensures Valid() && data == input && pos == 0 && !canUnread
    {
      data := input;
      pos := 0;
      canUnread := false;
    }

    /** Consumes one byte, or reports EOF at the end of the input. */
    method ReadByte() returns (c: byte, err: Option<Error>)
      requires Valid()
      modifies this
      ensures Valid()
      ensures old(pos) < |data| ==> c == data[old(pos)] && err == None && pos == old(pos) + 1 && canUnread
      ensures old(pos) == |data| ==> c == 0 && err == Some(EOF) && pos == old(pos) && canUnread == old(canUnread)
    {
      if pos < |data| {
        c, err := data[pos], None;
        pos, canUnread := pos + 1, true;
      } else {
        c, err := 0, Some(EOF);
      }
    }

    /** Pushes back the byte the last read consumed; a second push back in a row fails. */
    method UnreadByte() returns (err: Option<Error>)
      requires Valid()
      modifies this
      ensures Valid() && !canUnread
      ensures old(canUnread) ==> err == None && pos == old(pos) - 1
      ensures !old(canUnread) ==> err == Some(InvalidUnreadByte) && pos == old(pos)
    {
      if canUnread {
        pos, canUnread, err := pos - 1, false, None;
      } else {
        err := Some(InvalidUnreadByte);
      }
    }

    /** Reads up to and including the first `delim`; without one, returns the rest of the input and EOF.
        ReadString is the same operation returning the bytes as a Go string. */
    method ReadBytes(delim: byte) returns (line: seq<byte>, err: Option<Error>)
      requires Valid()
      modifies this
      ensures Valid()
      ensures IndexOf(data, old(pos), delim).Some? ==>
        var t := IndexOf(data, old(pos), delim).value;
        line == data[old(pos)..t + 1] && err == None && pos == t + 1 && canUnread
      ensures IndexOf(data, old(pos), delim).None? ==>
        line == data[old(pos)..] && err == Some(EOF) && pos == |data|
        && canUnread == (old(canUnread) || old(pos) < |data|)
    {
      var t := IndexOf(data, pos, delim);
      if t.Some? {
        line, err := data[pos..t.value + 1], None;
        pos, canUnread := t.value + 1, true;
      } else {
        line, err := data[pos..], Some(EOF);
        canUnread := canUnread || pos < |data|;
        pos := |data|;
      }
    }
  }
}
