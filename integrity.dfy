/** The integrity layer of the vault file (krypto_file.cpp): `DigestFilter`
    appends a digest of everything written through it, and the
    `VerifyingFilter` checks and strips that digest when reading. */
module Integrity {
  import opened Bytes
  import opened Wrappers

  /** The `std::ios::failure("Incorrect Password")` thrown on a bad digest. */
  datatype ReadError = IncorrectPassword

  /** The byte `byte b = c` keeps of a character or sentinel: its low 8 bits
      (EOF is -1 and io::WOULD_BLOCK is -2). */
  function LowByte(c: Char): Byte {
    match c
    case Ch(b) => b
    case Eof => 0xFF
    case WouldBlock => 0xFE
  }

  /** `DigestFilter`: forwards every character and feeds every non-EOF one
      to a running hash, whose digest it writes on close. */
  class DigestFilter {
    const h: Hasher
    /** The bytes given to the running hash `hash_` since it was last finalized. */
    var hashed: seq<Byte>

    constructor (h: Hasher)
      ensures this.h == h && hashed == []
    {
      this.h := h;
      hashed := [];
    }

    /** `put`: returns the character passed on to the next link. */
    method Put(c: Char) returns (forwarded: Char)
      modifies this
      ensures forwarded == c
      ensures hashed == old(hashed) + (if c == Eof then [] else [LowByte(c)])
    {
      if c != Eof {
        hashed := hashed + [LowByte(c)];
      }
      forwarded := c;
    }

    /** `close`: the digest of everything hashed, to be written downstream;
        finalizing restarts the running hash. */
    method Close() returns (digest: seq<Byte>)
      modifies this
      ensures digest == Digest(h, old(hashed)) && |digest| == DIGEST_SIZE
      ensures hashed == []
    {
      digest := Digest(h, hashed);
      hashed := [];
    }
  }

  /** `VerifyingFilter::do_filter` on the whole buffered input `src`: an input
      shorter than a digest yields nothing and no error; otherwise the last
      DIGEST_SIZE bytes must be the digest of the rest, which is the output. */
  function Verify(h: Hasher, src: seq<Byte>): (r: Result<seq<Byte>, ReadError>)
    ensures |src| < DIGEST_SIZE ==> r == Success([])
    ensures |src| >= DIGEST_SIZE ==>
      (r.Success? <==> src[|src| - DIGEST_SIZE..] == Digest(h, src[..|src| - DIGEST_SIZE]))
    ensures |src| >= DIGEST_SIZE && r.Success? ==> r.value == src[..|src| - DIGEST_SIZE]
    ensures r.Failure? ==> r.error == IncorrectPassword
  {
    if |src| < DIGEST_SIZE then Success([])
    else
      var size := |src| - DIGEST_SIZE;
      if Digest(h, src[..size]) != src[size..] then Failure(IncorrectPassword)
      else Success(src[..size])
  }

  /** A message followed by its own digest passes verification and yields the message. */
  lemma VerifyDigested(h: Hasher, m: seq<Byte>)
    ensures Verify(h, m + Digest(h, m)) == Success(m)
  {
    var src := m + Digest(h, m);
    assert src[..|m|] == m && src[|m|..] == Digest(h, m);
  }

  /** Conversely, every input of at least a digest's length that passes
      verification is its output followed by the output's digest. */
  lemma VerifiedIsDigested(h: Hasher, src: seq<Byte>)
    requires |src| >= DIGEST_SIZE && Verify(h, src).Success?
    ensures src == Verify(h, src).value + Digest(h, Verify(h, src).value)
  {
    var size := |src| - DIGEST_SIZE;
    assert src == src[..size] + src[size..];
  }
}
