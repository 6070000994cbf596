# pass_manager vault core in Dafny

`pass_manager` keeps name / login / password triples in one encrypted file.
This project models the three cooperating parts of its core and proves
properties of them:

- **The encrypted file** (`krypto_file.cpp`), in modules `Cipher`,
  `Integrity` and `Krypto`:
  - `xor_str`.
  - The `EncryptionFilter` state machine (`seed_`, `current_key_`,
    `key_pos_`, `initialized_`). It writes a clear seed, then XORs each byte
    with a chained-hash keystream. Block 0 is H(seed) XOR H(pass). Block k+1 is
    H(block k XOR seed).
  - The `DigestFilter`, which appends a digest of what was written.
  - `VerifyingFilter::do_filter`, which checks and strips that digest.
  - `KryptoFile`, with its two filter chains and the attach / detach
    (`output`, `input`, `reset`) that the `KryptoLock`s perform.
  - The file that the output chain leaves is
    `seed ‖ Encrypt(plaintext ‖ H(plaintext))`, and `DecodeFile` undoes it.
- **Records and the store** (`manager.cpp`), in module `Records`:
  - `writeWithLen` / `readWithLen`, with an 8-byte little-endian `size_t`
    length prefix and the exact `std::istream::read` eof / fail behaviour.
  - `Record::dump` / `Record::load`.
  - The `Manager` map, where the first record per name wins.
- **The application** (`application.cpp`), in module `App`:
  - The constructor loads the vault and catches a read failure.
  - `initialize`'s loop loads records until a load reaches eof.
  - The destructor saves only when the vault was read, and dumps every
    record exactly once.
  - The action table: `register_action`, where the first registration wins,
    and `get_action`, which falls back to `no_action`.
  - `quit` and the command `loop`.

Supporting modules:

- `Bytes`: bytes, the hash `Digest`, and space-filled buffers.
- `Streams`: the `std::istream` / `std::ostream` and Boost source semantics
  the code relies on.
- `Wrappers`: `Result` / `Option`.

The hash (SHA-256) is an arbitrary function `h` passed as a parameter.
`Digest` fits its output into the 32-byte buffer that `digest` allocates. The
random seed of a save is a parameter.

The two halves of the main round trip:

- `Krypto.DecodeEncode` proves that a file written with a password reads
  back as the plaintext written.
- `App.VaultRoundTrip` proves that a store saved by the destructor, whatever
  order the records are dumped in and whatever the seed, loads back as the
  same store.
- `App.Application.Destroy` ties the two to the state machine.

Behaviour of the code worth noting:

- The digest covers the plaintext and is itself encrypted. The chains are
  built as DigestFilter → EncryptionFilter on output, and reading undoes them
  in reverse (`krypto_file.cpp:166-169`).
- A decrypted input shorter than a digest raises no error. The
  verifying filter passes nothing on and raises nothing, so the vault loads as
  empty (`krypto_file.cpp:149-151`). `Krypto.ShortFileReadsEmpty` and
  `App.EmptyFileIsEmptyVault` state this.
- A seed shorter than 32 bytes raises no error either. `io::read`
  fails only when no byte is left. Otherwise the seed buffer keeps its
  trailing spaces (`krypto_file.cpp:60-64`; `Cipher.SeedFrom`).
- A record cut off by the end of the plaintext is dropped silently, with no
  error (`application.cpp:78-82`; `App.LoadAllDropsCutRecord`).
- Closing the output chain first writes the digest through the encryption
  filter, and only then erases the key (`Krypto.KryptoFile.CloseOutput`).

## Model

| member | source | states |
|---|---|---|
| Bytes.Filled | manager.cpp:30-31 | a buffer made as `std::string(n, ' ')` and partly read into has length `n`, begins with the bytes read and ends with spaces for the rest |
| Bytes.Digest | krypto_file.cpp:25-31 | every digest is exactly DIGEST_SIZE (32) bytes |
| Streams.Extract | manager.cpp:26-27 | `istream::read`: a good stream with `n` bytes left yields them and stays good; a short read yields every byte left and ends at the end of the data with eof and fail set; a stream already not good yields nothing and gains the fail bit |
| Streams.InStream.Read | manager.cpp:26 | the stream method extracts exactly what `Extract` specifies and moves to its state |
| Streams.OutStream.Write | manager.cpp:14-15 | `ostream::write` appends the bytes to what was written |
| Streams.FileSource.Read | krypto_file.cpp:61 | `io::read` returns -1 (None) on an exhausted source, else the next min(n, left) bytes |
| Streams.FileSource.Get | krypto_file.cpp:67 | `io::get` returns the next byte and advances by one, or EOF at the end |
| Cipher.XorStr | krypto_file.cpp:34-42 | the result has length \|lhs\| and byte i is lhs[i] ^ rhs[i], given \|rhs\| >= \|lhs\| |
| Cipher.XorInvolutive | krypto_file.cpp:34-42 | `xor_str(xor_str(a, b), b) == a` |
| Cipher.KeyBlock | krypto_file.cpp:94 | every key block of the chain has digest length |
| Cipher.EncryptInvolutive | krypto_file.cpp:105-117 | two filters with the same password and seed apply the same keystream, so decrypting the encryption gives the bytes back |
| Cipher.EncryptSnoc | krypto_file.cpp:110-111 | one more byte through the filter is that byte XOR the next keystream byte, appended |
| Cipher.EncryptionFilter.constructor | krypto_file.cpp:88-90 | a new filter is uninitialized and holds no seed, key or position |
| Cipher.EncryptionFilter.Initialize | krypto_file.cpp:92-96 | `initialize` keeps the seed, sets the key block to H(seed) XOR H(pass), of digest length, and sets `initialized_` |
| Cipher.EncryptionFilter.Finalize | krypto_file.cpp:98-103 | `finalize` erases seed and key, zeroes the position and clears `initialized_`: no key material remains |
| Cipher.EncryptionFilter.Transform | krypto_file.cpp:105-117 | EOF and WOULD_BLOCK pass unchanged without moving the key position; a byte comes out XORed with keystream byte number `Used()`, which then grows by one; the seed never changes |
| Cipher.EncryptionFilter.NextBlock | krypto_file.cpp:114-115 | a used-up block is replaced by the next block of the chain, H(block XOR seed), and the position restarts at 0 |
| Cipher.EncryptionFilter.Put | krypto_file.cpp:49-55 | the first `put` writes the fresh seed in clear exactly once, ahead of the first encrypted byte; later calls write only the encrypted byte |
| Cipher.EncryptionFilter.Get | krypto_file.cpp:58-68 | the first `get` on an empty source returns EOF and stays uninitialized; otherwise it takes up to DIGEST_SIZE bytes as the seed, then returns the next source byte decrypted, or EOF |
| Cipher.SeedFrom | krypto_file.cpp:60-64 | the seed read is DIGEST_SIZE long: the first DIGEST_SIZE bytes, or all that are left followed by spaces when fewer are left |
| Integrity.DigestFilter.constructor | krypto_file.cpp:140 | a new digest filter has hashed nothing |
| Integrity.DigestFilter.Put | krypto_file.cpp:123-130 | every character is forwarded unchanged; every non-EOF one is appended to the hashed bytes |
| Integrity.DigestFilter.Close | krypto_file.cpp:133-137 | `close` yields H(all hashed bytes), of digest length, and restarts the hash |
| Integrity.Verify | krypto_file.cpp:146-161 | input shorter than a digest yields empty output and no error; otherwise it succeeds iff the trailer is H(message), and then yields exactly the message; failure is "Incorrect Password" |
| Integrity.VerifyDigested | krypto_file.cpp:146-161 | `verify(m ‖ H(m)) == m` |
| Integrity.VerifiedIsDigested | krypto_file.cpp:153-160 | conversely, an input that verifies is its output followed by the output's digest |
| Krypto.DecodeEncode | krypto_file.cpp:164-169 | the file the output chain writes is seed + \|plain\| + digest bytes long, and the input chain reads it back, with the same password, as exactly the plaintext |
| Krypto.ShortFileReadsEmpty | krypto_file.cpp:149-151 | a file shorter than a seed and a digest reads as no data, without an error |
| Krypto.KryptoFile.constructor | krypto_file.cpp:164-171 | both chains hold their filters, keyed with the password, and no device is attached |
| Krypto.KryptoFile.Output | krypto_file.cpp:173-176 | attaching the sink truncates the file and starts an output session |
| Krypto.KryptoFile.Input | krypto_file.cpp:178-181 | attaching the source leaves the file untouched |
| Krypto.KryptoFile.Emit | krypto_file.cpp:49-55 | one byte through the output encryption filter keeps the file equal to seed + the encryption of everything that reached the filter |
| Krypto.KryptoFile.EmitAll | krypto_file.cpp:136 | the same for a whole buffer, byte by byte |
| Krypto.KryptoFile.WriteByte | krypto_file.cpp:123-130 | one byte through the output chain is hashed, forwarded and encrypted into the file |
| Krypto.KryptoFile.Write | krypto_file.cpp:166-167 | writing appends to the plaintext written, with the file staying seed + the encryption of it |
| Krypto.KryptoFile.ReadAll | krypto_file.cpp:168-169 | the first read of the input chain returns exactly `DecodeFile` of the file: the verified, digest-stripped decryption, or the error |
| Krypto.KryptoFile.Pull | krypto_file.cpp:58-68 | each `get` pulled through the input filter either advances the source and delivers exactly one more decrypted byte, or, at EOF, has delivered the whole decryption of the file |
| Krypto.KryptoFile.PullFirst | krypto_file.cpp:59-67 | the first `get` takes the seed from the head of the file and returns the first body byte decrypted, appended as the one new delivered byte, or EOF |
| Krypto.KryptoFile.PullNext | krypto_file.cpp:67 | a later `get` returns the next body byte decrypted, appended as the one new delivered byte, or EOF once the body is used up |
| Krypto.KryptoFile.CloseOutput | krypto_file.cpp:133-137 | closing the output chain writes the digest through the encryption filter, so the file is `EncodeFile(seed, written)`, and erases the key |
| Krypto.KryptoFile.Reset | krypto_file.cpp:183-191 | `reset` detaches both devices; it leaves no key material or hash state; a closed output session leaves the encoded file, and otherwise the file is unchanged |
| Records.LittleEndianRoundTrip | manager.cpp:14 | the `size_t` length prefix decodes back to the length written |
| Records.FromLittleEndianRoundTrip | manager.cpp:25-26 | any bytes read as a `size_t` are exactly the encoding of the length they decode to |
| Records.FieldBytesLayout | manager.cpp:12-16 | a field is written as an 8-byte prefix decoding to \|s\|, then the bytes of `s`, with no delimiter |
| Records.RecordBytes | manager.cpp:18-22 | a record takes three prefixes plus its three fields' lengths |
| Records.WriteWithLen | manager.cpp:12-16 | `writeWithLen` appends exactly the prefix and the bytes |
| Records.Dump | manager.cpp:18-22 | `dump` appends name, login and pass fields, in that order |
| Records.ReadField | manager.cpp:24-33 | a read that ends good consumed exactly the field bytes (length prefix, then contents) of the string it returns; a stream not good yields the empty string and gains the fail bit |
| Records.LoadSpec | manager.cpp:35-40 | a load that ends good consumed exactly the bytes `Record::dump` writes for the record it returns |
| Records.ReadWithLen | manager.cpp:24-33 | `readWithLen` returns and leaves the stream as `ReadField` says |
| Records.Load | manager.cpp:35-40 | `load` returns and leaves the stream as `LoadSpec` says |
| Records.ReadFieldTruncatedPrefix | manager.cpp:26-29 | fewer than 8 bytes left: the empty string and the stream at eof |
| Records.ReadFieldAt | manager.cpp:24-33 | reading where a field was written yields the field and stops just after it, still good |
| Records.ReadFieldWritten | manager.cpp:12-33 | `readWithLen` on `writeWithLen(s) ‖ rest` yields `s` and leaves exactly `rest` |
| Records.LoadAt | manager.cpp:35-40 | loading where a record was dumped yields it and stops just after it, still good |
| Records.LoadDumped | manager.cpp:12-40 | `load` on `dump(r) ‖ rest` yields `r` and leaves exactly `rest` unread |
| Records.ReadFieldCut | manager.cpp:24-33 | a field cut short by the end of the data leaves the stream at eof |
| Records.LoadCut | manager.cpp:35-40 | a record cut short by the end of the data leaves the stream at eof |
| Records.Inserted | manager.cpp:52-54 | `insert`: a present name leaves the map unchanged; an absent one adds name → record and nothing else |
| Records.InsertedSize | manager.cpp:52-54 | the size grows by one exactly when the name was absent; every entry stays filed under its record's name |
| Records.FirstWriteWins | manager.cpp:52-54 | a second record under the same name is ignored |
| Records.Manager.AddRecord | manager.cpp:52-54 | `add_record` inserts without overwriting, and `size` grows by one iff the name was absent |
| Records.Manager.HasRecord | manager.cpp:56-58 | `has_record(n)` iff `n` is a key, iff some stored record is named `n` |
| Records.Manager.Find | manager.cpp:60-62 | given `has_record`, `find` returns the stored record, whose name is the one asked for |
| Records.Manager.Size | manager.cpp:64-66 | `size` is the number of stored records |
| App.LoadAll | application.cpp:76-84 | loading only adds: entries present before are kept, and names stay the keys of their records |
| App.AddAll | application.cpp:81 | adding a sequence of records adds exactly their names and overwrites nothing |
| App.LoadVault | application.cpp:14-21 | the vault loads iff the input chain reads the file without error; the error is "Incorrect Password"; a loaded store files each record under its name |
| App.LoadAllAtEnd | application.cpp:78-80 | at the end of the data no record is added |
| App.LoadAllLaidOut | application.cpp:78-82 | records laid out one after another are added in stream order |
| App.LoadAllDumpAll | application.cpp:76-84 | `initialize` over the dump of a sequence of records adds exactly them, in order |
| App.LoadAllDropsCutRecord | application.cpp:79-80 | the incomplete last record is not added |
| App.AddAllRebuilds | application.cpp:39-41 | adding the records of an enumeration of a store to an empty store rebuilds it |
| App.VisitStep | application.cpp:39-41 | visiting one more record of the store keeps each record visited once and appends its dump |
| App.VisitedAll | application.cpp:39-41 | once nothing is pending, every record has been visited exactly once |
| App.VaultRoundTrip | application.cpp:35-42 | a store saved in any order, with any seed, loads back with the same password as the same store |
| App.EmptyFileIsEmptyVault | krypto_file.cpp:58-63 | a missing or empty file loads as an empty store |
| App.Registered | application.cpp:70-74 | `register_action` never replaces a registered name; a new name maps to its action |
| App.Lookup | application.cpp:103-111 | `get_action` returns the registered handler, or `no_action` for an unknown name |
| App.RegisteredLookup | application.cpp:70-74 | the first registration wins; registering leaves every other name dispatching as before |
| App.BuiltinDispatch | application.cpp:23-32 | after construction, `quit`/`q` quit, `list`/`ls`/`?` list, and every other name falls back to `no_action` |
| App.Application.constructor | application.cpp:9-33 | the store holds the records of the vault and `initialized` is set iff the file could be read; a read failure leaves the store empty; the built-in actions are registered |
| App.Application.RegisterBuiltins | application.cpp:23-32 | the constructor's five registrations give the built-in table and touch nothing else |
| App.Application.Initialize | application.cpp:76-84 | `initialize` with the constructor's catch: the store holds `LoadVault` of the file when it succeeds and stays empty otherwise; `initialized` says which; the file is detached and unchanged |
| App.Application.LoadRecords | application.cpp:78-82 | the load loop adds to the store exactly what `LoadAll` says |
| App.Application.Destroy | application.cpp:35-42 | when not initialized the file is not touched; when initialized every record is dumped exactly once, the file is the encoding of that dump, and it loads back as the store |
| App.Application.DumpRecords | application.cpp:39-41 | the loop dumps an enumeration of the store: each record once |
| App.Application.RegisterAction | application.cpp:70-74 | `register_action` inserts with first-registration-wins |
| App.Application.Quit | application.cpp:86-88 | `quit` sets the quit flag and changes nothing else |
| App.Application.Loop | application.cpp:58-68 | no command runs once quit is set; the loop stops right after a command that quits, or when the commands run out |

## Left out

- SHA-256 and `generate_seed` / `BlockingRng` (`krypto_file.cpp:18-32`):
  - The hash is an arbitrary function. `Digest` truncates or pads its output
    to the 32-byte buffer.
  - The seed of a save is a parameter of `Output` and `Destroy`.
  - Security claims are probabilistic and are not stated: that a wrong
    password or a flipped byte is detected, and that seeds differ.
- Boost iostreams plumbing:
  - `push` / `pop` are modelled as the `inputComplete` / `outputComplete`
    flags, and the chains as methods over byte sequences.
  - The `std::ios::failure` thrown by the verifying filter is a `Failure`
    result carrying the `ReadError` `IncorrectPassword`.
  - Opening errors of `file_source` / `file_sink` (the IOError case) are not
    modelled. A missing file reads like an empty one.
- The verifying filter is an aggregate filter: it buffers all input before
  passing anything on. So `initialize`'s first read drains the input chain.
  The model reads the whole chain (`ReadAll`) and then parses the plaintext
  from an `InStream`.
- Destroy: the records are dumped into one buffer that is then written
  through the output chain. The C++ writes each record into the chain as it
  is dumped. The bytes reaching the file are the same.
- App.Application.Loop: reading `std::cin` is replaced by a sequence of
  command names. A console error ends the loop like the end of the sequence.
  What `list`, `no_action` and externally registered actions print, or do to
  the store, is not modelled. Only whether a command quits is.
- The constructor's message to `std::cerr` when loading fails
  (`application.cpp:17-20`): only the caught failure is modelled.
- `read_arguments` (`application.cpp:50-56`): it is entirely `std::quoted`
  parsing, so commands carry no arguments here.
- The `operator<<` formatting of records (`manager.cpp:42-50`) and the
  printing in `list` / `no_action` (`application.cpp:90-101`).
- main.cpp and map_iterator.hpp are not part of this model.
  - Iteration over the `Manager` picks the stored names in an unspecified
    order.
- `verify_input` is declared but never defined. `verified_input_` is only
  ever reset to false, and so it is here.
- Platform details:
  - The `size_t` prefix is fixed at 8 bytes, little-endian.
  - Bytes are 0..255. The sign extension of `char` to `int` in `transform`
    and `DigestFilter::put` is not modelled. Where `char` is signed, the
    bytes 0xFF and 0xFE written to the output chain arrive as `EOF` and
    `io::WOULD_BLOCK`: both are passed on unencrypted and the key position
    does not advance; 0xFF is also left out of the digest, while 0xFE is
    hashed (`krypto_file.cpp:105-108`, `krypto_file.cpp:123-129`). On the
    read side `transform` XORs with a sign-extended key byte
    (`krypto_file.cpp:111`), so a plaintext 0xFF or 0xFE under a key byte of
    0x80 or more leaves `get` as `EOF` or `io::WOULD_BLOCK`, which ends the
    decryption early or drops that byte. A file whose plaintext or digest
    holds such a byte then does not read back, so `Krypto.DecodeEncode` and
    `App.VaultRoundTrip` hold for the model's unsigned bytes only.
  - An allocation failure of `std::string(len, ' ')` for a huge declared
    length is not modelled. The model yields the space-padded string.
- `io::WOULD_BLOCK` only appears in `transform`. The sources in the model
  never block.
