/** The keystream cipher of the vault file (krypto_file.cpp): `xor_str`, the
    chained-hash keystream and the dual-use `EncryptionFilter` that applies it. */
module Cipher {
  import opened Bytes
  import opened Streams

  /** Byte-wise XOR of `lhs` with the first |lhs| bytes of `rhs`. */
  function Xor(lhs: seq<Byte>, rhs: seq<Byte>): seq<Byte>
    requires |rhs| >= |lhs|
  {
    seq(|lhs|, i requires 0 <= i < |lhs| => lhs[i] ^ rhs[i])
  }

  /** `xor_str`: fills a result as long as `lhs`, byte by byte. */
  method XorStr(lhs: seq<Byte>, rhs: seq<Byte>) returns (r: seq<Byte>)
    requires |rhs| >= |lhs|
    ensures |r| == |lhs|
    ensures forall i :: 0 <= i < |lhs| ==> r[i] == lhs[i] ^ rhs[i]
    ensures r == Xor(lhs, rhs)
  {
    r := [];
    var i := 0;
    while i < |lhs|
      invariant i <= |lhs| && |r| == i
      invariant forall k :: 0 <= k < i ==> r[k] == lhs[k] ^ rhs[k]
    {
      r := r + [lhs[i] ^ rhs[i]];
      i := i + 1;
    }
  }

  /** XOR with the same key twice gives the original back. */
  lemma XorInvolutive(a: seq<Byte>, b: seq<Byte>)
    requires |b| >= |a|
    ensures Xor(Xor(a, b), b) == a
  {
    var x := Xor(Xor(a, b), b);
    forall i | 0 <= i < |a| ensures x[i] == a[i] {
      assert x[i] == (a[i] ^ b[i]) ^ b[i];
    }
  }

  /** Key block `k` of the chain for `pass` and `seed`: block 0 is
      H(seed) XOR H(pass), and block k+1 is H(block k XOR seed). */
  function KeyBlock(h: Hasher, pass: seq<Byte>, seed: seq<Byte>, k: nat): (b: seq<Byte>)
    requires |seed| == DIGEST_SIZE
    ensures |b| == DIGEST_SIZE
  {
    if k == 0 then Xor(Digest(h, seed), Digest(h, pass))
    else Digest(h, Xor(KeyBlock(h, pass, seed, k - 1), seed))
  }

  /** Byte `i` of the keystream: the blocks are used up left to right. */
  function KeystreamByte(h: Hasher, pass: seq<Byte>, seed: seq<Byte>, i: nat): Byte
    requires |seed| == DIGEST_SIZE
  {
    KeyBlock(h, pass, seed, i / DIGEST_SIZE)[i % DIGEST_SIZE]
  }

  /** The first `n` bytes of the keystream. */
  function Keystream(h: Hasher, pass: seq<Byte>, seed: seq<Byte>, n: nat): (ks: seq<Byte>)
    requires |seed| == DIGEST_SIZE
  {
    seq(n, i requires 0 <= i < n => KeystreamByte(h, pass, seed, i))
  }

  /** What an `EncryptionFilter` keyed by `pass` and `seed` makes of the
      bytes `m` that pass through it, in either direction. */
  function Encrypt(h: Hasher, pass: seq<Byte>, seed: seq<Byte>, m: seq<Byte>): seq<Byte>
    requires |seed| == DIGEST_SIZE
  {
    Xor(m, Keystream(h, pass, seed, |m|))
  }

  /** Decoding with the same password and seed undoes encoding. */
  lemma EncryptInvolutive(h: Hasher, pass: seq<Byte>, seed: seq<Byte>, m: seq<Byte>)
    requires |seed| == DIGEST_SIZE
    ensures Encrypt(h, pass, seed, Encrypt(h, pass, seed, m)) == m
  {
    XorInvolutive(m, Keystream(h, pass, seed, |m|));
  }

  /** Encrypting one more byte extends the output by that byte XOR the next
      keystream byte. */
  lemma EncryptSnoc(h: Hasher, pass: seq<Byte>, seed: seq<Byte>, m: seq<Byte>, b: Byte)
    requires |seed| == DIGEST_SIZE
    ensures Encrypt(h, pass, seed, m + [b])
         == Encrypt(h, pass, seed, m) + [b ^ KeystreamByte(h, pass, seed, |m|)]
  {
    var l := Encrypt(h, pass, seed, m + [b]);
    var r := Encrypt(h, pass, seed, m) + [b ^ KeystreamByte(h, pass, seed, |m|)];
    assert |l| == |r|;
    forall i | 0 <= i < |l| ensures l[i] == r[i] {
      if i < |m| {
        assert (m + [b])[i] == m[i];
      }
    }
  }

  /** Position `k` of block `b` is keystream byte b * DIGEST_SIZE + k. */
  lemma BlockPosition(b: nat, k: nat)
    requires k < DIGEST_SIZE
    ensures (b * DIGEST_SIZE + k) / DIGEST_SIZE == b
    ensures (b * DIGEST_SIZE + k) % DIGEST_SIZE == k
  {
  }

  /** Block b + 1 starts where block b ends. */
  lemma NextBlockStart(b: nat)
    ensures (b + 1) * DIGEST_SIZE == b * DIGEST_SIZE + DIGEST_SIZE
  {
  }

  /** `EncryptionFilter`: XORs every byte with the keystream of `pass` and a
      seed; a writer sends the seed in clear ahead of the first byte, a
      reader takes it from the head of its source. */
  class EncryptionFilter {
    const h: Hasher
    const pass: seq<Byte>
    var seed: seq<Byte>
    var currentKey: seq<Byte>
    var keyPos: nat
    var initialized: bool
    /** Index of `currentKey` in the chain of key blocks. */
    ghost var block: nat

    ghost predicate Valid()
      reads this
    {
      && (initialized ==>
            && |seed| == DIGEST_SIZE
            && keyPos <= DIGEST_SIZE
            && currentKey == KeyBlock(h, pass, seed, block))
      && (!initialized ==> NoKeyMaterial())
    }

    /** Nothing derived from the password or the seed is held. */
    ghost predicate NoKeyMaterial()
      reads this
    {
      !initialized && seed == [] && currentKey == [] && keyPos == 0 && block == 0
    }

    /** How many keystream bytes have been used since `initialize`. */
    ghost function Used(): nat
      reads this
    {
      block * DIGEST_SIZE + keyPos
    }

    constructor (h: Hasher, pass: seq<Byte>)
      ensures Valid() && NoKeyMaterial()
      ensures this.h == h && this.pass == pass
    {
      this.h := h;
      this.pass := pass;
      seed, currentKey, keyPos, initialized := [], [], 0, false;
      block := 0;
    }

    /** `initialize`: keep the seed and start the chain at H(seed) XOR H(pass). */
    method Initialize(s: seq<Byte>)
      requires Valid() && !initialized && |s| == DIGEST_SIZE
      modifies this
      ensures Valid() && initialized
      ensures seed == s && |currentKey| == DIGEST_SIZE
      ensures currentKey == Xor(Digest(h, s), Digest(h, pass))
      ensures Used() == 0
    {
      seed := s;
      currentKey := XorStr(Digest(h, s), Digest(h, pass));
      initialized := true;
    }

    /** `finalize`: erase the seed and the key block and fall back to the
        uninitialized state. */
    method Finalize()
      modifies this
      ensures Valid() && NoKeyMaterial()
    {
      seed := [];
      currentKey := [];
      keyPos := 0;
      initialized := false;
      block := 0;
    }

    /** `transform`: the sentinels pass unchanged; a byte is XORed with the
        next key byte, moving to the next block when this one is used up. */
    method Transform(c: Char) returns (r: Char)
      requires Valid() && initialized
      modifies this
      ensures Valid() && initialized && seed == old(seed)
      ensures c.Ch? ==> r == Ch(c.b ^ KeystreamByte(h, pass, seed, old(Used())))
      ensures c.Ch? ==> Used() == old(Used()) + 1
      ensures !c.Ch? ==> r == c && keyPos == old(keyPos) && currentKey == old(currentKey)
      ensures !c.Ch? ==> Used() == old(Used())
      decreases if keyPos < |currentKey| then 0 else 1
    {
      if c.Eof? || c.WouldBlock? {
        return c;
      }
      if keyPos < |currentKey| {
        BlockPosition(block, keyPos);
        assert currentKey[keyPos] == KeystreamByte(h, pass, seed, Used());
        r := Ch(c.b ^ currentKey[keyPos]);
        keyPos := keyPos + 1;
        return;
      }
      NextBlock();
      r := Transform(c);
    }

    /** The block-change step of `transform`: the used-up key block is
        replaced by H(block XOR seed) and the position restarts at 0. */
    method NextBlock()
      requires Valid() && initialized && keyPos >= |currentKey|
      modifies this
      ensures Valid() && initialized && seed == old(seed)
      ensures keyPos == 0 < |currentKey| && block == old(block) + 1
      ensures Used() == old(Used())
    {
      var mixed := XorStr(currentKey, seed);
      NextBlockStart(block);
      ghost var next := KeyBlock(h, pass, seed, block + 1);
      assert next == Digest(h, mixed);
      currentKey := Digest(h, mixed);
      keyPos := 0;
      block := block + 1;
    }

    /** `put` on the write side: the first call draws `freshSeed` from the
        random generator and writes it in clear; every call then writes the
        encrypted byte. Returns what reaches the sink. */
    method Put(c: Byte, freshSeed: seq<Byte>) returns (out: seq<Byte>)
      requires Valid() && |freshSeed| == DIGEST_SIZE
      modifies this
      ensures Valid() && initialized
      ensures seed == if old(initialized) then old(seed) else freshSeed
      ensures out == (if old(initialized) then [] else freshSeed)
                     + [c ^ KeystreamByte(h, pass, seed, old(Used()))]
      ensures Used() == old(Used()) + 1
    {
      out := [];
      if !initialized {
        Initialize(freshSeed);
        out := seed;
      }
      var t := Transform(Ch(c));
      out := out + [t.b];
    }

    /** `get` on the read side: the first call reads up to DIGEST_SIZE bytes
        from `src` as the seed (EOF, still uninitialized, if there are none);
        then the next byte of `src` is decrypted. */
    method Get(src: FileSource) returns (c: Char)
      requires Valid() && src.Valid()
      modifies this, src
      ensures Valid() && src.Valid()
      ensures !old(initialized) && old(src.pos) == |src.data| ==>
        c == Eof && NoKeyMaterial() && src.pos == old(src.pos)
      ensures old(initialized) ==> seed == old(seed)
      ensures !old(initialized) && old(src.pos) < |src.data| ==>
        seed == SeedFrom(src.data[old(src.pos)..])
      ensures old(initialized) || old(src.pos) < |src.data| ==>
        var at := if old(initialized) then old(src.pos)
                  else old(src.pos) + Min(DIGEST_SIZE, |src.data| - old(src.pos));
        var used := if old(initialized) then old(Used()) else 0;
        && initialized
        && (at == |src.data| ==> c == Eof && src.pos == at && Used() == used)
        && (at < |src.data| ==>
              && c == Ch(src.data[at] ^ KeystreamByte(h, pass, seed, used))
              && src.pos == at + 1 && Used() == used + 1)
    {
      if !initialized {
        var got := src.Read(DIGEST_SIZE);
        if got.None? {
          return Eof;
        }
        Initialize(Filled(got.value, DIGEST_SIZE));
      }
      var x := src.Get();
      c := Transform(x);
    }
  }

  /** The seed a reader takes from `s`: its first DIGEST_SIZE bytes, padded
      with the spaces of the seed buffer when `s` is shorter. */
  function SeedFrom(s: seq<Byte>): (seed: seq<Byte>)
    ensures |seed| == DIGEST_SIZE
    ensures |s| >= DIGEST_SIZE ==> seed == s[..DIGEST_SIZE]
    ensures |s| < DIGEST_SIZE ==> seed == s + Spaces(DIGEST_SIZE - |s|)
  {
    Filled(s[..Min(DIGEST_SIZE, |s|)], DIGEST_SIZE)
  }
}
