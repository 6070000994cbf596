/** The vault file as a whole (krypto_file.cpp): the output chain
    DigestFilter -> EncryptionFilter -> file sink, the input chain
    file source -> EncryptionFilter -> VerifyingFilter, and the `KryptoFile`
    that attaches and detaches the file device. */
module Krypto {
  import opened Bytes
  import opened Wrappers
  import opened Streams
  import opened Cipher
  import opened Integrity

  /** The part of a file a reader decrypts: everything after the seed. */
  function BodyOf(file: seq<Byte>): (body: seq<Byte>)
    ensures |file| >= DIGEST_SIZE ==> body == file[DIGEST_SIZE..]
    ensures |file| <= DIGEST_SIZE ==> body == []
  {
    if |file| <= DIGEST_SIZE then [] else file[DIGEST_SIZE..]
  }

  /** The file the output chain leaves for `plain`: the seed in clear, then
      the plaintext followed by its digest, all encrypted. */
  function EncodeFile(h: Hasher, pass: seq<Byte>, seed: seq<Byte>, plain: seq<Byte>): (file: seq<Byte>)
    requires |seed| == DIGEST_SIZE
  {
    seed + Encrypt(h, pass, seed, plain + Digest(h, plain))
  }

  /** What the encryption filter of the input chain delivers for `file`. */
  function Decrypted(h: Hasher, pass: seq<Byte>, file: seq<Byte>): seq<Byte> {
    if file == [] then [] else Encrypt(h, pass, SeedFrom(file), BodyOf(file))
  }

  /** What the input chain delivers for `file`: the decrypted bytes,
      checked and stripped of their digest by the verifying filter. */
  function DecodeFile(h: Hasher, pass: seq<Byte>, file: seq<Byte>): Result<seq<Byte>, ReadError> {
    Verify(h, Decrypted(h, pass, file))
  }

  /** A file written with a password reads back, with that password, as
      exactly the plaintext that was written. */
  lemma DecodeEncode(h: Hasher, pass: seq<Byte>, seed: seq<Byte>, plain: seq<Byte>)
    requires |seed| == DIGEST_SIZE
    ensures |EncodeFile(h, pass, seed, plain)| == |plain| + 2 * DIGEST_SIZE
    ensures DecodeFile(h, pass, EncodeFile(h, pass, seed, plain)) == Success(plain)
  {
    var inner := plain + Digest(h, plain);
    var file := EncodeFile(h, pass, seed, plain);
    assert file[..DIGEST_SIZE] == seed;
    assert BodyOf(file) == Encrypt(h, pass, seed, inner);
    EncryptInvolutive(h, pass, seed, inner);
    VerifyDigested(h, plain);
  }

  /** A file too short to hold a seed and a digest reads as no data at all,
      without an error. */
  lemma ShortFileReadsEmpty(h: Hasher, pass: seq<Byte>, file: seq<Byte>)
    requires |file| < 2 * DIGEST_SIZE
    ensures DecodeFile(h, pass, file) == Success([])
  {
    assert |Decrypted(h, pass, file)| == |BodyOf(file)| < DIGEST_SIZE;
  }

  /** Reading one more byte of the body extends the decrypted prefix. */
  lemma DecryptStep(h: Hasher, pass: seq<Byte>, file: seq<Byte>, k: nat)
    requires k < |BodyOf(file)|
    ensures Encrypt(h, pass, SeedFrom(file), BodyOf(file)[..k + 1])
         == Encrypt(h, pass, SeedFrom(file), BodyOf(file)[..k])
            + [file[DIGEST_SIZE + k] ^ KeystreamByte(h, pass, SeedFrom(file), k)]
  {
    var body := BodyOf(file);
    TakeOneMore(body, k);
    EncryptSnoc(h, pass, SeedFrom(file), body[..k], body[k]);
  }

  /** What the output encryption filter emits for one more byte extends
      the file to the encryption of one more byte: the seed comes first,
      ahead of the first byte. */
  lemma SinkGrows(h: Hasher, pass: seq<Byte>, seed: seq<Byte>, ciphered: seq<Byte>, b: Byte,
                  disk: seq<Byte>, out: seq<Byte>)
    requires |seed| == DIGEST_SIZE
    requires ciphered == [] ==> disk == [] && out == seed + [b ^ KeystreamByte(h, pass, seed, 0)]
    requires ciphered != [] ==>
      && disk == seed + Encrypt(h, pass, seed, ciphered)
      && out == [b ^ KeystreamByte(h, pass, seed, |ciphered|)]
    ensures disk + out == seed + Encrypt(h, pass, seed, ciphered + [b])
  {
    EncryptSnoc(h, pass, seed, ciphered, b);
    if ciphered == [] {
      assert [] + [b] == [b];
    }
  }

  /** Nothing of the body decrypted yet. */
  lemma DecryptedNone(h: Hasher, pass: seq<Byte>, file: seq<Byte>)
    ensures Encrypt(h, pass, SeedFrom(file), BodyOf(file)[..0]) == []
  {
  }

  /** Once the whole body is read, what was decrypted is all the input
      chain delivers. */
  lemma DecryptedAll(h: Hasher, pass: seq<Byte>, file: seq<Byte>, plain: seq<Byte>)
    requires file != [] && |plain| == |BodyOf(file)|
    requires plain == Encrypt(h, pass, SeedFrom(file), BodyOf(file)[..|plain|])
    ensures plain == Decrypted(h, pass, file)
  {
    assert BodyOf(file)[..|plain|] == BodyOf(file);
  }

  /** The decryption of the body read so far, followed by the next byte
      decrypted, is the decryption of the body read one byte further. */
  lemma DecryptOneMore(h: Hasher, pass: seq<Byte>, file: seq<Byte>, plain: seq<Byte>, b: Byte)
    requires DIGEST_SIZE + |plain| < |file|
    requires plain == Encrypt(h, pass, SeedFrom(file), BodyOf(file)[..|plain|])
    requires b == file[DIGEST_SIZE + |plain|] ^ KeystreamByte(h, pass, SeedFrom(file), |plain|)
    ensures plain + [b] == Encrypt(h, pass, SeedFrom(file), BodyOf(file)[..|plain| + 1])
  {
    DecryptStep(h, pass, file, |plain|);
  }

  /** `KryptoFile`: one vault file with its output and input filter chains. */
  class KryptoFile {
    const h: Hasher
    const pass: seq<Byte>
    /** The contents of the file the vault lives in. */
    var disk: seq<Byte>
    const digestOut: DigestFilter
    const cipherOut: EncryptionFilter
    const cipherIn: EncryptionFilter
    /** Whether a file device is pushed onto the input / output chain. */
    var inputComplete: bool
    var outputComplete: bool
    var verifiedInput: bool
    /** The seed the random generator yields for the current output session. */
    var freshSeed: seq<Byte>
    /** Plaintext written to the output stream since the sink was attached. */
    ghost var written: seq<Byte>
    /** Plaintext that has reached the output encryption filter. */
    ghost var ciphered: seq<Byte>

    ghost function Repr(): set<object> {
      {this, digestOut, cipherOut, cipherIn}
    }

    ghost predicate Valid()
      reads Repr()
    {
      && cipherOut != cipherIn
      && Keyed(cipherOut) && Keyed(cipherIn) && digestOut.h == h
      && cipherOut.Valid() && cipherIn.Valid()
      && (!inputComplete ==> cipherIn.NoKeyMaterial())
      && (!outputComplete ==> cipherOut.NoKeyMaterial() && digestOut.hashed == [])
      && (outputComplete ==> digestOut.hashed == written && ciphered == written && SinkHolds())
    }

    ghost predicate Keyed(f: EncryptionFilter)
      reads f
    {
      f.h == h && f.pass == pass
    }

    /** The file holds the seed and the encryption of all that has reached
        the output encryption filter. */
    ghost predicate SinkHolds()
      reads this, cipherOut
    {
      && |freshSeed| == DIGEST_SIZE
      && (ciphered == [] <==> !cipherOut.initialized)
      && (ciphered == [] ==> disk == [])
      && (ciphered != [] ==>
            && cipherOut.seed == freshSeed
            && cipherOut.Used() == |ciphered|
            && disk == freshSeed + Encrypt(h, pass, freshSeed, ciphered))
    }

    /** No filter holds a seed, a key block or hashed plaintext. */
    ghost predicate NoSessionState()
      reads Repr()
    {
      cipherIn.NoKeyMaterial() && cipherOut.NoKeyMaterial() && digestOut.hashed == []
    }

    /** The constructor: both chains hold their filters, no device is attached. */
    constructor (h: Hasher, pass: seq<Byte>, disk: seq<Byte>)
      ensures Valid() && fresh(Repr() - {this})
      ensures this.h == h && this.pass == pass && this.disk == disk
      ensures !inputComplete && !outputComplete && !verifiedInput
    {
      this.h := h;
      this.pass := pass;
      this.disk := disk;
      digestOut := new DigestFilter(h);
      cipherOut := new EncryptionFilter(h, pass);
      cipherIn := new EncryptionFilter(h, pass);
      inputComplete, outputComplete, verifiedInput := false, false, false;
      freshSeed := [];
    }

    /** `output`: attach the file as a sink, truncating it; `seed` is what
        the random generator will give the first write. */
    method Output(seed: seq<Byte>)
      requires Valid() && !outputComplete && |seed| == DIGEST_SIZE
      modifies this
      ensures Valid() && outputComplete && inputComplete == old(inputComplete)
      ensures disk == [] && written == [] && freshSeed == seed
    {
      outputComplete := true;
      disk := [];
      freshSeed := seed;
      written, ciphered := [], [];
    }

    /** `input`: attach the file as the source of the input chain. */
    method Input()
      requires Valid() && !inputComplete
      modifies this
      ensures Valid() && inputComplete && outputComplete == old(outputComplete)
      ensures disk == old(disk) && written == old(written) && freshSeed == old(freshSeed)
    {
      inputComplete := true;
    }

    /** One byte through the output encryption filter into the file. */
    method Emit(b: Byte)
      requires cipherOut.Valid() && Keyed(cipherOut) && SinkHolds()
      modifies this, cipherOut
      ensures cipherOut.Valid() && SinkHolds()
      ensures ciphered == old(ciphered) + [b]
      ensures written == old(written) && freshSeed == old(freshSeed)
      ensures inputComplete == old(inputComplete) && outputComplete == old(outputComplete)
      ensures verifiedInput == old(verifiedInput)
    {
      var out := cipherOut.Put(b, freshSeed);
      SinkGrows(h, pass, freshSeed, ciphered, b, disk, out);
      disk := disk + out;
      ciphered := ciphered + [b];
    }

    /** Writing `data` to the output stream: each byte is hashed by the
        digest filter and then encrypted into the file. */
    method Write(data: seq<Byte>)
      requires Valid() && outputComplete
      modifies this, digestOut, cipherOut
      ensures Valid() && outputComplete && inputComplete == old(inputComplete)
      ensures written == old(written) + data && freshSeed == old(freshSeed)
      ensures verifiedInput == old(verifiedInput)
    {
      var i := 0;
      while i < |data|
        invariant i <= |data| && Valid() && outputComplete
        invariant written == old(written) + data[..i] && freshSeed == old(freshSeed)
        invariant inputComplete == old(inputComplete) && verifiedInput == old(verifiedInput)
      {
        WriteByte(data[i]);
        TakeOneMore(data, i);
        i := i + 1;
      }
    }

    /** One byte through the output chain: `put` on the digest filter,
        which forwards it to the encryption filter and on into the file. */
    method WriteByte(b: Byte)
      requires Valid() && outputComplete
      modifies this, digestOut, cipherOut
      ensures Valid() && outputComplete && inputComplete == old(inputComplete)
      ensures written == old(written) + [b] && freshSeed == old(freshSeed)
      ensures verifiedInput == old(verifiedInput)
    {
      var forwarded := digestOut.Put(Ch(b));
      written := written + [b];
      Emit(forwarded.b);
    }

    /** The first read of the input chain: the verifying filter pulls every
        byte the encryption filter decrypts from the file, then checks the
        digest. */
    method ReadAll() returns (r: Result<seq<Byte>, ReadError>)
      requires Valid() && inputComplete && cipherIn.NoKeyMaterial()
      modifies cipherIn
      ensures Valid()
      ensures r == DecodeFile(h, pass, disk)
    {
      var src := new FileSource(disk);
      var plain: seq<Byte> := [];
      while true
        invariant Reading(src, plain)
        decreases |disk| - src.pos
      {
        var c;
        c, plain := Pull(src, plain);
        if c.Eof? {
          break;
        }
      }
      r := Verify(h, plain);
    }

    /** The state of the input chain while the verifying filter pulls bytes
        from `src`, having received `plain` so far. */
    ghost predicate Reading(src: FileSource, plain: seq<Byte>)
      reads this, cipherIn, src
    {
      && src.Valid() && src.data == disk
      && cipherIn.Valid() && Keyed(cipherIn)
      && (!cipherIn.initialized ==> cipherIn.NoKeyMaterial() && src.pos == 0 && plain == [])
      && (cipherIn.initialized ==> ReadProgress(src.pos, plain))
    }

    /** One `get` of the input encryption filter, on behalf of the verifying
        filter, which appends what it receives to `plain`. */
    method Pull(src: FileSource, plain: seq<Byte>) returns (c: Char, next: seq<Byte>)
      requires Reading(src, plain)
      modifies cipherIn, src
      ensures Reading(src, next)
      ensures c.Eof? ==> next == plain == Decrypted(h, pass, disk)
      ensures !c.Eof? ==> old(src.pos) < src.pos
      ensures !c.Eof? ==> c.Ch? && next == plain + [c.b]
    {
      if cipherIn.initialized {
        c, next := PullNext(src, plain);
      } else {
        c, next := PullFirst(src, plain);
      }
    }

    /** The first `get`: the filter takes the seed from the head of the
        file, then decrypts the byte after it, if any. */
    method PullFirst(src: FileSource, plain: seq<Byte>) returns (c: Char, next: seq<Byte>)
      requires Reading(src, plain) && !cipherIn.initialized
      modifies cipherIn, src
      ensures Reading(src, next)
      ensures c.Eof? ==> next == plain == Decrypted(h, pass, disk)
      ensures !c.Eof? ==> old(src.pos) < src.pos
      ensures !c.Eof? ==> c.Ch? && next == plain + [c.b]
    {
      c := cipherIn.Get(src);
      if disk != [] {
        assert disk[0..] == disk;
        DecryptedNone(h, pass, disk);
      }
      if c.Eof? {
        next := plain;
        if disk != [] {
          DecryptedAll(h, pass, disk, plain);
        }
      } else {
        DecryptOneMore(h, pass, disk, plain, c.b);
        next := plain + [c.b];
      }
    }

    /** A later `get`: the next byte of the file, decrypted, or EOF. */
    method PullNext(src: FileSource, plain: seq<Byte>) returns (c: Char, next: seq<Byte>)
      requires Reading(src, plain) && cipherIn.initialized
      modifies cipherIn, src
      ensures Reading(src, next)
      ensures c.Eof? ==> next == plain == Decrypted(h, pass, disk)
      ensures !c.Eof? ==> old(src.pos) < src.pos
      ensures !c.Eof? ==> c.Ch? && next == plain + [c.b]
    {
      c := cipherIn.Get(src);
      if c.Eof? {
        next := plain;
        DecryptedAll(h, pass, disk, plain);
      } else {
        DecryptOneMore(h, pass, disk, plain, c.b);
        next := plain + [c.b];
      }
    }

    /** After reading up to `pos`, the seed has been taken from the head of
        the file and `plain` is the decryption of the body read so far. */
    ghost predicate ReadProgress(pos: nat, plain: seq<Byte>)
      reads this, cipherIn
    {
      && disk != []
      && cipherIn.seed == SeedFrom(disk)
      && pos == Min(DIGEST_SIZE, |disk|) + |plain| <= |disk|
      && cipherIn.Used() == |plain|
      && plain == Encrypt(h, pass, SeedFrom(disk), BodyOf(disk)[..|plain|])
    }

    /** `reset`, run when a `KryptoLock` goes out of scope: popping a device
        closes its chain. Closing the output chain writes the digest through
        the encryption filter and erases the key; closing the input chain
        erases the key. */
    method Reset()
      requires Valid()
      modifies Repr()
      ensures Valid() && !inputComplete && !outputComplete && !verifiedInput
      ensures NoSessionState()
      ensures old(outputComplete) ==> disk == EncodeFile(h, pass, old(freshSeed), old(written))
      ensures !old(outputComplete) ==> disk == old(disk)
    {
      if inputComplete {
        cipherIn.Finalize();
        inputComplete := false;
      }
      if outputComplete {
        CloseOutput();
      }
      verifiedInput := false;
    }

    /** Closing the output chain: the digest filter's `close` writes the
        digest of all that was written, which is encrypted into the file,
        and the encryption filter's `finalize` erases the key. */
    method CloseOutput()
      requires Valid() && outputComplete
      modifies this, digestOut, cipherOut
      ensures Valid() && !outputComplete
      ensures cipherOut.NoKeyMaterial() && digestOut.hashed == []
      ensures disk == EncodeFile(h, pass, old(freshSeed), old(written))
      ensures inputComplete == old(inputComplete) && verifiedInput == old(verifiedInput)
    {
      var digest := digestOut.Close();
      EmitAll(digest);
      assert ciphered == old(written) + Digest(h, old(written));
      cipherOut.Finalize();
      outputComplete := false;
    }

    /** Each byte of `bytes` through the output encryption filter into the file. */
    method EmitAll(bytes: seq<Byte>)
      requires cipherOut.Valid() && Keyed(cipherOut) && SinkHolds()
      modifies this, cipherOut
      ensures cipherOut.Valid() && SinkHolds()
      ensures ciphered == old(ciphered) + bytes
      ensures written == old(written) && freshSeed == old(freshSeed)
      ensures inputComplete == old(inputComplete) && outputComplete == old(outputComplete)
      ensures verifiedInput == old(verifiedInput)
    {
      var i := 0;
      while i < |bytes|
        invariant i <= |bytes|
        invariant cipherOut.Valid() && Keyed(cipherOut) && SinkHolds()
        invariant ciphered == old(ciphered) + bytes[..i]
        invariant written == old(written) && freshSeed == old(freshSeed)
        invariant inputComplete == old(inputComplete) && outputComplete == old(outputComplete)
        invariant verifiedInput == old(verifiedInput)
      {
        Emit(bytes[i]);
        TakeOneMore(bytes, i);
        i := i + 1;
      }
    }
  }
}
