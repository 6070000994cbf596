/** The parts of the standard streams and of Boost iostreams devices that
    the vault relies on: a byte source read by a filter, and the
    `std::istream::read` / `std::ostream::write` pair with the istream's
    eof and fail flags. */
module Streams {
  import opened Bytes
  import opened Wrappers

  /** A `std::istream`'s position and its `eofbit` and `failbit`. */
  datatype StreamState = StreamState(pos: nat, eof: bool, fail: bool) {
    /** `std::istream::good()` (the bad bit is never set in this model). */
    predicate Good() { !eof && !fail }

    /** Every way this model reaches a state sets the two bits together. */
    predicate Consistent() { eof == fail }
  }

  const Start := StreamState(0, false, false)

  /** `stream.read(buf, n)` on an istream over `data`: the bytes extracted
      and the state afterwards. A stream that is not good extracts nothing
      and gains the fail bit; a read that finds fewer than `n` bytes
      extracts what is left and sets both eof and fail. */
  function Extract(data: seq<Byte>, st: StreamState, n: nat): (r: (seq<Byte>, StreamState))
    requires st.pos <= |data|
    ensures st.pos <= r.1.pos <= |data| && r.0 == data[st.pos..r.1.pos]
    ensures |r.0| <= n
    ensures r.1.Good() <==> st.Good() && st.pos + n <= |data|
    ensures r.1.Good() ==> |r.0| == n
    ensures st.Consistent() ==> r.1.Consistent()
    ensures !st.Good() ==> r == ([], st.(fail := true))
    ensures st.Good() && st.pos + n > |data| ==> r == (data[st.pos..], StreamState(|data|, true, true))
  {
    if !st.Good() then ([], st.(fail := true))
    else if st.pos + n <= |data| then (data[st.pos..st.pos + n], st.(pos := st.pos + n))
    else (data[st.pos..], StreamState(|data|, true, true))
  }

  /** A `std::istream` over a fixed byte sequence. */
  class InStream {
    const data: seq<Byte>
    var pos: nat
    var eof: bool
    var fail: bool

    ghost predicate Valid()
      reads this
    {
      pos <= |data| && eof == fail
    }

    function State(): StreamState
      reads this
    {
      StreamState(pos, eof, fail)
    }

    constructor (data: seq<Byte>)
      ensures Valid() && this.data == data && State() == Start
    {
      this.data := data;
      pos, eof, fail := 0, false, false;
    }

    /** `std::istream::read(buf, n)`; returns the bytes extracted. */
    method Read(n: nat) returns (got: seq<Byte>)
      requires Valid()
      modifies this
      ensures Valid()
      ensures (got, State()) == Extract(data, old(State()), n)
    {
      if eof || fail {
        got := [];
        fail := true;
      } else if pos + n <= |data| {
        got := data[pos..pos + n];
        pos := pos + n;
      } else {
        got := data[pos..];
        pos, eof, fail := |data|, true, true;
      }
    }
  }

  /** A `std::ostream` that collects what is written to it. */
  class OutStream {
    var written: seq<Byte>

    constructor ()
      ensures written == []
    {
      written := [];
    }

    /** `std::ostream::write(buf, n)`. */
    method Write(bytes: seq<Byte>)
      modifies this
      ensures written == old(written) + bytes
    {
      written := written + bytes;
    }
  }

  /** A Boost `file_source` over the bytes of a file, read from the start. */
  class FileSource {
    const data: seq<Byte>
    var pos: nat

    ghost predicate Valid()
      reads this
    {
      pos <= |data|
    }

    constructor (data: seq<Byte>)
      ensures Valid() && this.data == data && pos == 0
    {
      this.data := data;
      pos := 0;
    }

    /** `io::read(src, buf, n)`: `None` (the C++ -1) when the source is
        exhausted, otherwise the next bytes, at most `n` of them. */
    method Read(n: nat) returns (r: Option<seq<Byte>>)
      requires Valid()
      modifies this
      ensures Valid()
      ensures old(pos) == |data| ==> r == None && pos == old(pos)
      ensures old(pos) < |data| ==>
        pos == old(pos) + Min(n, |data| - old(pos)) && r == Some(data[old(pos)..pos])
    {
      if pos == |data| {
        r := None;
      } else {
        var k := Min(n, |data| - pos);
        r := Some(data[pos..pos + k]);
        pos := pos + k;
      }
    }

    /** `io::get(src)`: the next byte, or `EOF` once the source is exhausted. */
    method Get() returns (c: Char)
      requires Valid()
      modifies this
      ensures Valid()
      ensures old(pos) == |data| ==> c == Eof && pos == old(pos)
      ensures old(pos) < |data| ==> c == Ch(data[old(pos)]) && pos == old(pos) + 1
    {
      if pos == |data| {
        c := Eof;
      } else {
        c := Ch(data[pos]);
        pos := pos + 1;
      }
    }
  }
}
