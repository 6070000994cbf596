/** Records and the in-memory store (manager.cpp): each field is written as
    a native `size_t` length followed by its bytes, and the `Manager` maps a
    record's name to the record, keeping the first record added per name. */
module Records {
  import opened Bytes
  import opened Streams

  /** `sizeof(std::size_t)`: the length prefix is 8 bytes, least significant first. */
  const SIZE_T_BYTES: nat := 8
  const SIZE_T_LIMIT: nat := 0x1_0000_0000_0000_0000

  /** The contents of a `std::string` field: its length fits in a `size_t`. */
  type Field = s: seq<Byte> | |s| < SIZE_T_LIMIT

  /** `Record`: one credential. */
  datatype Record = Record(name: Field, login: Field, pass: Field)

  function Pow256(k: nat): (p: nat)
    ensures p >= 1
  {
    if k == 0 then 1 else 256 * Pow256(k - 1)
  }

  /** The `k` little-endian bytes of `n`. */
  function LittleEndian(n: nat, k: nat): (bs: seq<Byte>)
    ensures |bs| == k
  {
    if k == 0 then [] else [ByteOf(n % 256)] + LittleEndian(n / 256, k - 1)
  }

  /** The number whose little-endian bytes are `bs`. */
  function FromLittleEndian(bs: seq<Byte>): (n: nat)
    ensures n < Pow256(|bs|)
  {
    if bs == [] then 0 else bs[0] as nat + 256 * FromLittleEndian(bs[1..])
  }

  lemma {:induction false} LittleEndianRoundTrip(n: nat, k: nat)
    requires n < Pow256(k)
    ensures FromLittleEndian(LittleEndian(n, k)) == n
  {
    if k > 0 {
      var bs := LittleEndian(n, k);
      assert bs[1..] == LittleEndian(n / 256, k - 1);
      assert n / 256 < Pow256(k - 1);
      LittleEndianRoundTrip(n / 256, k - 1);
      ByteOfValue(n % 256);
      assert n == n % 256 + 256 * (n / 256);
    }
  }

  /** Encoding a decoded byte sequence back to its own width gives it back. */
  lemma {:induction false} FromLittleEndianRoundTrip(bs: seq<Byte>)
    ensures LittleEndian(FromLittleEndian(bs), |bs|) == bs
  {
    if bs != [] {
      var hi := FromLittleEndian(bs[1..]);
      LittleEndianCons(bs[0], hi, |bs|);
      FromLittleEndianRoundTrip(bs[1..]);
      assert bs == [bs[0]] + bs[1..];
    }
  }

  /** The encoding of `b + 256 * hi` is the byte `b` followed by the
      encoding of `hi`. */
  lemma LittleEndianCons(b: Byte, hi: nat, k: nat)
    requires k > 0
    ensures LittleEndian(b as nat + 256 * hi, k) == [b] + LittleEndian(hi, k - 1)
  {
    var lo := b as nat;
    DivModByte(lo, hi);
    ByteOfValue(lo);
  }

  /** The low byte and the rest of a number written as `lo + 256 * hi`. */
  lemma DivModByte(lo: nat, hi: nat)
    requires lo < 256
    ensures (lo + 256 * hi) % 256 == lo && (lo + 256 * hi) / 256 == hi
  {
  }

  lemma SizeTLimit()
    ensures Pow256(SIZE_T_BYTES) == SIZE_T_LIMIT
  {
  }

  /** What `writeWithLen` writes for `s`: the length prefix, then the bytes. */
  function FieldBytes(s: Field): (bs: seq<Byte>)
    ensures |bs| == SIZE_T_BYTES + |s|
  {
    SizeTLimit();
    LittleEndian(|s|, SIZE_T_BYTES) + s
  }

  /** The prefix written for a field decodes to the field's length, and the
      field's bytes follow it unchanged. */
  lemma FieldBytesLayout(s: Field)
    ensures FromLittleEndian(FieldBytes(s)[..SIZE_T_BYTES]) == |s|
    ensures FieldBytes(s)[SIZE_T_BYTES..] == s
  {
    SizeTLimit();
    assert FieldBytes(s)[..SIZE_T_BYTES] == LittleEndian(|s|, SIZE_T_BYTES);
    LittleEndianRoundTrip(|s|, SIZE_T_BYTES);
  }

  /** What `Record::dump` writes: name, login and pass, in that order. */
  function RecordBytes(r: Record): (bs: seq<Byte>)
    ensures |bs| == 3 * SIZE_T_BYTES + |r.name| + |r.login| + |r.pass|
  {
    FieldBytes(r.name) + FieldBytes(r.login) + FieldBytes(r.pass)
  }

  /** `writeWithLen`. */
  method WriteWithLen(stream: OutStream, s: Field)
    modifies stream
    ensures stream.written == old(stream.written) + FieldBytes(s)
  {
    SizeTLimit();
    var len := LittleEndian(|s|, SIZE_T_BYTES);
    stream.Write(len);
    stream.Write(s);
  }

  /** `Record::dump`. */
  method Dump(r: Record, stream: OutStream)
    modifies stream
    ensures stream.written == old(stream.written) + RecordBytes(r)
  {
    ghost var before := stream.written;
    WriteWithLen(stream, r.name);
    WriteWithLen(stream, r.login);
    WriteWithLen(stream, r.pass);
    assert stream.written == before + (FieldBytes(r.name) + FieldBytes(r.login) + FieldBytes(r.pass));
  }

  /** What `readWithLen` returns from `data` in state `st`, and the state
      after it: the empty string when the prefix cannot be read in full,
      otherwise a string of the declared length holding the bytes that
      could be read, padded with spaces. */
  function ReadField(data: seq<Byte>, st: StreamState): (r: (Field, StreamState))
    requires st.pos <= |data|
    ensures st.pos <= r.1.pos <= |data|
    ensures st.Consistent() ==> r.1.Consistent()
    ensures r.1.Good() ==> st.Good() && r.1.pos == st.pos + SIZE_T_BYTES + |r.0|
    ensures r.1.Good() ==> data[st.pos..r.1.pos] == FieldBytes(r.0)
    ensures !st.Good() ==> r == ([], st.(fail := true))
  {
    var (prefix, st1) := Extract(data, st, SIZE_T_BYTES);
    if !st1.Good() then ([], st1)
    else
      var len := FromLittleEndian(prefix);
      SizeTLimit();
      var (payload, st2) := Extract(data, st1, len);
      if !st2.Good() then (Filled(payload, len), st2)
      else
        PrefixAndPayload(data, st.pos, st1.pos, st2.pos);
        (Filled(payload, len), st2)
  }

  /** A length prefix read in full, followed by as many bytes as it
      declares, is the field those bytes make. */
  lemma PrefixAndPayload(data: seq<Byte>, at: nat, mid: nat, end: nat)
    requires at + SIZE_T_BYTES == mid <= end <= |data|
    requires FromLittleEndian(data[at..mid]) == end - mid
    ensures end - mid < SIZE_T_LIMIT
    ensures data[at..end] == FieldBytes(data[mid..end])
  {
    SizeTLimit();
    FromLittleEndianRoundTrip(data[at..mid]);
    assert data[at..end] == data[at..mid] + data[mid..end];
  }

  /** What `Record::load` returns: three fields read in order. */
  function LoadSpec(data: seq<Byte>, st: StreamState): (r: (Record, StreamState))
    requires st.pos <= |data|
    ensures st.pos <= r.1.pos <= |data|
    ensures st.Consistent() ==> r.1.Consistent()
    ensures r.1.Good() ==> st.Good() && r.1.pos == st.pos + |RecordBytes(r.0)|
    ensures r.1.Good() ==> data[st.pos..r.1.pos] == RecordBytes(r.0)
  {
    var name := ReadField(data, st);
    var login := ReadField(data, name.1);
    var pass := ReadField(data, login.1);
    assert pass.1.Good() ==>
      data[st.pos..pass.1.pos]
        == data[st.pos..name.1.pos] + data[name.1.pos..login.1.pos] + data[login.1.pos..pass.1.pos];
    (Record(name.0, login.0, pass.0), pass.1)
  }

  /** `readWithLen`. */
  method ReadWithLen(stream: InStream) returns (s: Field)
    requires stream.Valid()
    modifies stream
    ensures stream.Valid()
    ensures (s, stream.State()) == ReadField(stream.data, old(stream.State()))
  {
    var prefix := stream.Read(SIZE_T_BYTES);
    if stream.eof || stream.fail {
      return [];
    }
    var len := FromLittleEndian(prefix);
    SizeTLimit();
    var payload := stream.Read(len);
    s := Filled(payload, len);
  }

  /** `Record::load`. */
  method Load(stream: InStream) returns (r: Record)
    requires stream.Valid()
    modifies stream
    ensures stream.Valid()
    ensures (r, stream.State()) == LoadSpec(stream.data, old(stream.State()))
  {
    var name := ReadWithLen(stream);
    var login := ReadWithLen(stream);
    var pass := ReadWithLen(stream);
    r := Record(name, login, pass);
  }

  /** `readWithLen` gives the empty string and sets eof when fewer bytes
      than a length prefix remain. */
  lemma ReadFieldTruncatedPrefix(data: seq<Byte>, st: StreamState)
    requires st.Good() && st.pos <= |data| < st.pos + SIZE_T_BYTES
    ensures ReadField(data, st) == ([], StreamState(|data|, true, true))
  {
    assert Extract(data, st, SIZE_T_BYTES).1 == StreamState(|data|, true, true);
  }

  /** Reading a field at offset `at` of `data`, where one was written,
      yields it and leaves the stream good, just past it. */
  lemma ReadFieldAt(data: seq<Byte>, at: nat, s: Field, e: nat)
    requires e == at + |FieldBytes(s)| <= |data|
    requires data[at..e] == FieldBytes(s)
    ensures ReadField(data, StreamState(at, false, false)) == (s, StreamState(e, false, false))
  {
    var mid := at + SIZE_T_BYTES;
    FieldSlices(data, at, s);
    var st1 := StreamState(mid, false, false);
    assert Extract(data, StreamState(at, false, false), SIZE_T_BYTES)
        == (FieldBytes(s)[..SIZE_T_BYTES], st1);
    assert Extract(data, st1, |s|) == (s, StreamState(e, false, false));
    assert Filled(s, |s|) == s;
  }

  /** Where the length prefix and the bytes of a written field sit, and
      what the prefix decodes to. */
  lemma FieldSlices(data: seq<Byte>, at: nat, s: Field)
    requires at + |FieldBytes(s)| <= |data|
    requires data[at..at + |FieldBytes(s)|] == FieldBytes(s)
    ensures data[at..at + SIZE_T_BYTES] == FieldBytes(s)[..SIZE_T_BYTES]
    ensures FromLittleEndian(data[at..at + SIZE_T_BYTES]) == |s|
    ensures data[at + SIZE_T_BYTES..at + |FieldBytes(s)|] == s
  {
    FieldBytesLayout(s);
    var e := at + |FieldBytes(s)|;
    SliceOfSlice(data, at, e, 0, SIZE_T_BYTES);
    SliceOfSlice(data, at, e, SIZE_T_BYTES, |FieldBytes(s)|);
  }

  /** Round trip: reading a field where one was written yields it and
      leaves exactly what follows it unread. */
  lemma ReadFieldWritten(pre: seq<Byte>, s: Field, rest: seq<Byte>)
    ensures var data := pre + FieldBytes(s) + rest;
      ReadField(data, StreamState(|pre|, false, false))
        == (s, StreamState(|pre| + |FieldBytes(s)|, false, false))
  {
    var data := pre + FieldBytes(s) + rest;
    var e := |pre| + |FieldBytes(s)|;
    MiddleSlice(pre, FieldBytes(s), rest);
    ReadFieldAt(data, |pre|, s, e);
  }

  /** Loading reads the three fields one after the other. */
  lemma LoadFields(data: seq<Byte>, st0: StreamState, st1: StreamState, st2: StreamState,
                   st3: StreamState, r: Record)
    requires st0.pos <= |data| && st1.pos <= |data| && st2.pos <= |data|
    requires ReadField(data, st0) == (r.name, st1)
    requires ReadField(data, st1) == (r.login, st2)
    requires ReadField(data, st2) == (r.pass, st3)
    ensures LoadSpec(data, st0) == (r, st3)
  {
  }

  /** Where the three fields sit in the bytes of a dumped record. */
  lemma RecordSlices(data: seq<Byte>, r: Record, at: nat, b: nat, c: nat, e: nat)
    requires b == at + |FieldBytes(r.name)| && c == b + |FieldBytes(r.login)|
    requires e == at + |RecordBytes(r)| <= |data| && data[at..e] == RecordBytes(r)
    ensures e == c + |FieldBytes(r.pass)|
    ensures data[at..b] == FieldBytes(r.name)
    ensures data[b..c] == FieldBytes(r.login)
    ensures data[c..e] == FieldBytes(r.pass)
  {
    var n, l := |FieldBytes(r.name)|, |FieldBytes(r.login)|;
    var whole := RecordBytes(r);
    assert whole[..n] == FieldBytes(r.name);
    assert whole[n..n + l] == FieldBytes(r.login);
    assert whole[n + l..|whole|] == FieldBytes(r.pass);
    SliceOfSlice(data, at, e, 0, n);
    SliceOfSlice(data, at, e, n, n + l);
    SliceOfSlice(data, at, e, n + l, |whole|);
  }

  /** Loading at offset `at` of `data`, where a record was dumped, gives
      the record back and stops just after it. */
  lemma LoadAt(data: seq<Byte>, at: nat, r: Record, e: nat)
    requires e == at + |RecordBytes(r)| <= |data|
    requires data[at..e] == RecordBytes(r)
    ensures LoadSpec(data, StreamState(at, false, false)) == (r, StreamState(e, false, false))
  {
    var b := at + |FieldBytes(r.name)|;
    var c := b + |FieldBytes(r.login)|;
    RecordSlices(data, r, at, b, c, e);
    ReadFieldAt(data, at, r.name, b);
    ReadFieldAt(data, b, r.login, c);
    ReadFieldAt(data, c, r.pass, e);
    LoadFields(data, StreamState(at, false, false), StreamState(b, false, false),
      StreamState(c, false, false), StreamState(e, false, false), r);
  }

  /** Round trip: loading where a record was dumped gives the record back
      and leaves exactly what follows it unread. */
  lemma LoadDumped(pre: seq<Byte>, r: Record, rest: seq<Byte>)
    ensures var data := pre + RecordBytes(r) + rest;
      LoadSpec(data, StreamState(|pre|, false, false))
        == (r, StreamState(|pre| + |RecordBytes(r)|, false, false))
  {
    var data := pre + RecordBytes(r) + rest;
    var e := |pre| + |RecordBytes(r)|;
    MiddleSlice(pre, RecordBytes(r), rest);
    LoadAt(data, |pre|, r, e);
  }

  /** A field cut short by the end of the data sets eof: either its
      length prefix or its payload cannot be read in full. */
  lemma ReadFieldCut(data: seq<Byte>, at: nat, s: Field)
    requires at <= |data| < at + |FieldBytes(s)|
    requires data[at..] == FieldBytes(s)[..|data| - at]
    ensures ReadField(data, StreamState(at, false, false)).1.eof
  {
    var st := StreamState(at, false, false);
    if |data| < at + SIZE_T_BYTES {
      ReadFieldTruncatedPrefix(data, st);
    } else {
      FieldBytesLayout(s);
      assert data[at..at + SIZE_T_BYTES] == FieldBytes(s)[..SIZE_T_BYTES];
      var st1 := StreamState(at + SIZE_T_BYTES, false, false);
      assert Extract(data, st, SIZE_T_BYTES) == (data[at..at + SIZE_T_BYTES], st1);
      assert Extract(data, st1, |s|).1.eof;
    }
  }

  /** Where `data` from `at` on is a prefix of `whole`, its slices are
      the corresponding slices of `whole`. */
  lemma SliceOfPrefix(data: seq<Byte>, at: nat, whole: seq<Byte>, i: nat, j: nat)
    requires at <= |data| <= at + |whole| && data[at..] == whole[..|data| - at]
    requires i <= j <= |data| - at
    ensures data[at + i..at + j] == whole[i..j]
    ensures data[at + i..] == whole[i..|data| - at]
  {
    var k := |data| - at;
    forall t | 0 <= t < k - i
      ensures data[at + i..][t] == whole[i..k][t]
    {
      assert data[at + i..][t] == data[at..][i + t];
    }
    forall t | 0 <= t < j - i
      ensures data[at + i..at + j][t] == whole[i..j][t]
    {
      assert data[at + i..at + j][t] == data[at..][i + t];
    }
  }

  /** Once one of its three field reads reaches eof, loading a record
      ends at eof. */
  lemma LoadStops(data: seq<Byte>, st0: StreamState, st1: StreamState, st2: StreamState)
    requires st0.pos <= |data| && st1.pos <= |data| && st2.pos <= |data|
    requires || ReadField(data, st0).1.eof
             || (ReadField(data, st0).1 == st1 && ReadField(data, st1).1.eof)
             || (ReadField(data, st0).1 == st1 && ReadField(data, st1).1 == st2
                 && ReadField(data, st2).1.eof)
    ensures LoadSpec(data, st0).1.eof
  {
  }

  /** Where the parts of `x + y + z` sit in its prefix of length `k`. */
  lemma PrefixParts(x: seq<Byte>, y: seq<Byte>, z: seq<Byte>, k: nat)
    requires k <= |x + y + z|
    ensures k < |x| ==> (x + y + z)[0..k] == x[..k]
    ensures |x| <= k ==> (x + y + z)[0..|x|] == x
    ensures |x| <= k < |x| + |y| ==> (x + y + z)[|x|..k] == y[..k - |x|]
    ensures |x| + |y| <= k ==> (x + y + z)[|x|..|x| + |y|] == y
    ensures |x| + |y| <= k ==> (x + y + z)[|x| + |y|..k] == z[..k - |x| - |y|]
  {
  }

  /** A record cut short by the end of the data leaves the stream at eof. */
  lemma LoadCut(data: seq<Byte>, at: nat, r: Record)
    requires at <= |data| < at + |RecordBytes(r)|
    requires data[at..] == RecordBytes(r)[..|data| - at]
    ensures LoadSpec(data, StreamState(at, false, false)).1.eof
  {
    var n, l := FieldBytes(r.name), FieldBytes(r.login);
    var whole := RecordBytes(r);
    var k := |data| - at;
    PrefixParts(n, l, FieldBytes(r.pass), k);
    if k < |n| {
      SliceOfPrefix(data, at, whole, 0, 0);
      ReadFieldCut(data, at, r.name);
      LoadStops(data, StreamState(at, false, false), Start, Start);
    } else if k < |n| + |l| {
      SliceOfPrefix(data, at, whole, 0, |n|);
      SliceOfPrefix(data, at, whole, |n|, |n|);
      LoadCutLogin(data, at, r);
    } else {
      SliceOfPrefix(data, at, whole, 0, |n|);
      SliceOfPrefix(data, at, whole, |n|, |n| + |l|);
      SliceOfPrefix(data, at, whole, |n| + |l|, |n| + |l|);
      LoadCutPass(data, at, r);
    }
  }

  /** The case of `LoadCut` where the name is whole and the login is cut. */
  lemma LoadCutLogin(data: seq<Byte>, at: nat, r: Record)
    requires at + |FieldBytes(r.name)| <= |data| < at + |FieldBytes(r.name)| + |FieldBytes(r.login)|
    requires data[at..at + |FieldBytes(r.name)|] == FieldBytes(r.name)
    requires data[at + |FieldBytes(r.name)|..]
      == FieldBytes(r.login)[..|data| - at - |FieldBytes(r.name)|]
    ensures LoadSpec(data, StreamState(at, false, false)).1.eof
  {
    var b := at + |FieldBytes(r.name)|;
    ReadFieldAt(data, at, r.name, b);
    ReadFieldCut(data, b, r.login);
    LoadStops(data, StreamState(at, false, false), StreamState(b, false, false), Start);
  }

  /** The case of `LoadCut` where name and login are whole and the pass is cut. */
  lemma LoadCutPass(data: seq<Byte>, at: nat, r: Record)
    requires var c := at + |FieldBytes(r.name)| + |FieldBytes(r.login)|;
      c <= |data| < c + |FieldBytes(r.pass)|
      && data[at..at + |FieldBytes(r.name)|] == FieldBytes(r.name)
      && data[at + |FieldBytes(r.name)|..c] == FieldBytes(r.login)
      && data[c..] == FieldBytes(r.pass)[..|data| - c]
    ensures LoadSpec(data, StreamState(at, false, false)).1.eof
  {
    var b := at + |FieldBytes(r.name)|;
    var c := b + |FieldBytes(r.login)|;
    ReadFieldAt(data, at, r.name, b);
    ReadFieldAt(data, b, r.login, c);
    ReadFieldCut(data, c, r.pass);
    LoadStops(data, StreamState(at, false, false), StreamState(b, false, false),
      StreamState(c, false, false));
  }

  /** `relations_.insert`: a name already present keeps its record. */
  function Inserted(m: map<Field, Record>, r: Record): (m': map<Field, Record>)
    ensures r.name in m ==> m' == m
    ensures r.name !in m ==> m'.Keys == m.Keys + {r.name} && m'[r.name] == r
    ensures forall n :: n in m ==> n in m' && m'[n] == m[n]
  {
    if r.name in m then m else m[r.name := r]
  }

  /** Every entry is filed under its record's name. */
  ghost predicate NamesAreKeys(m: map<Field, Record>) {
    forall n :: n in m ==> m[n].name == n
  }

  /** Inserting grows the store by one exactly when the name was absent,
      and keeps every entry filed under its own name. */
  lemma InsertedSize(m: map<Field, Record>, r: Record)
    ensures |Inserted(m, r)| == |m| + (if r.name in m then 0 else 1)
    ensures NamesAreKeys(m) ==> NamesAreKeys(Inserted(m, r))
  {
  }

  /** First write wins: a second record under the same name changes nothing. */
  lemma FirstWriteWins(m: map<Field, Record>, a: Record, b: Record)
    requires a.name == b.name && a.name !in m
    ensures Inserted(Inserted(m, a), b) == m[a.name := a]
    ensures Inserted(Inserted(m, a), b)[b.name] == a
  {
  }

  /** `Manager`: the records of the vault, by name. */
  class Manager {
    var relations: map<Field, Record>

    ghost predicate Valid()
      reads this
    {
      NamesAreKeys(relations)
    }

    constructor ()
      ensures Valid() && relations == map[]
    {
      relations := map[];
    }

    /** `add_record`: never overwrites an existing name. */
    method AddRecord(r: Record)
      requires Valid()
      modifies this
      ensures Valid() && relations == Inserted(old(relations), r)
      ensures |relations| == |old(relations)| + (if r.name in old(relations) then 0 else 1)
    {
      InsertedSize(relations, r);
      relations := Inserted(relations, r);
    }

    /** `has_record`: whether some stored record has this name. */
    method HasRecord(name: Field) returns (b: bool)
      requires Valid()
      ensures b <==> name in relations
      ensures b <==> exists r :: r in relations.Values && r.name == name
    {
      b := name in relations;
      if b {
        assert relations[name] in relations.Values;
      }
    }

    /** `find`: the stored record with this name; only called after
        `has_record` said there is one. */
    method Find(name: Field) returns (r: Record)
      requires Valid() && name in relations
      ensures r in relations.Values && r.name == name
      ensures r == relations[name]
    {
      r := relations[name];
    }

    /** `size`: the number of stored records. */
    method Size() returns (n: nat)
      requires Valid()
      ensures n == |relations| == |relations.Keys|
    {
      n := |relations|;
    }
  }
}
