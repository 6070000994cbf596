/** Bytes, the characters of a Boost iostreams filter and the abstract hash. */
module Bytes {

  /** One unsigned byte of a `std::string` or of the vault file. */
  type Byte = bv8

  /** The ASCII space, with which `std::string(n, ' ')` pre-fills a buffer. */
  const SPACE: Byte := 0x20

  /** Digest length of SHA-256 in bytes; seeds and key blocks have this length too. */
  const DIGEST_SIZE: nat := 32

  /** What a filter's `get`/`put` sees: a byte, or one of the sentinels
      `EOF` and `io::WOULD_BLOCK`. */
  datatype Char = Ch(b: Byte) | Eof | WouldBlock

  /** SHA-256 is not modelled: any function from messages to bytes stands
      for it. */
  type Hasher = seq<Byte> -> seq<Byte>

  /** `n` spaces: the unfilled tail of a buffer created as `std::string(n, ' ')`. */
  function Spaces(n: nat): (r: seq<Byte>)
    ensures |r| == n
    ensures forall i :: 0 <= i < n ==> r[i] == SPACE
  {
    seq(n, _ => SPACE)
  }

  /** The content of a `std::string(n, ' ')` into which `got` was read:
      the bytes read, followed by the spaces that were not overwritten. */
  function Filled(got: seq<Byte>, n: nat): (r: seq<Byte>)
    requires |got| <= n
    ensures |r| == n && r[..|got|] == got
    ensures r[|got|..] == Spaces(n - |got|)
  {
    got + Spaces(n - |got|)
  }

  /** The byte whose unsigned value is `v`, assembled bit by bit from the
      most significant end. */
  function ByteOf(v: nat): (b: Byte)
    requires v < 256
    decreases v
  {
    if v == 0 then 0 else Shifted(ByteOf(v / 2), v % 2 == 1)
  }

  /** `b` shifted left by one, with `odd` as its new lowest bit. */
  function Shifted(b: Byte, odd: bool): Byte {
    (b << 1) | (if odd then 1 else 0)
  }

  lemma ShiftedValue(b: Byte, odd: bool)
    requires b as nat < 128
    ensures Shifted(b, odd) as nat == 2 * (b as nat) + (if odd then 1 else 0)
  {
  }

  /** `ByteOf` is the inverse of reading a byte as an unsigned number. */
  lemma {:induction false} ByteOfValue(v: nat)
    requires v < 256
    ensures ByteOf(v) as nat == v
    decreases v
  {
    if v > 0 {
      ByteOfValue(v / 2);
      ShiftedValue(ByteOf(v / 2), v % 2 == 1);
    }
  }

  /** The first `i + 1` elements are the first `i` followed by element `i`. */
  lemma TakeOneMore<T>(s: seq<T>, i: nat)
    requires i < |s|
    ensures s[..i + 1] == s[..i] + [s[i]]
  {
  }

  /** The middle part of a concatenation, sliced back out. */
  lemma MiddleSlice<T>(pre: seq<T>, x: seq<T>, rest: seq<T>)
    ensures (pre + x + rest)[|pre|..|pre| + |x|] == x
  {
  }

  /** A slice of a slice is a slice of the whole. */
  lemma SliceOfSlice<T>(s: seq<T>, a: nat, b: nat, i: nat, j: nat)
    requires a <= b <= |s| && i <= j <= b - a
    ensures s[a..b][i..j] == s[a + i..a + j]
  {
    forall k | 0 <= k < j - i
      ensures s[a..b][i..j][k] == s[a + i..a + j][k]
    {
      assert s[a..b][i..j][k] == s[a..b][i + k] == s[a + i + k];
    }
  }

  function Min(a: nat, b: nat): nat { if a <= b then a else b }

  /** `digest`: the hash of `m` calculated into a buffer of DIGEST_SIZE bytes. */
  function Digest(h: Hasher, m: seq<Byte>): (d: seq<Byte>)
    ensures |d| == DIGEST_SIZE
  {
    var full := h(m);
    Filled(full[..Min(DIGEST_SIZE, |full|)], DIGEST_SIZE)
  }
}
