# go-backup in Dafny

This project models the core of go-backup, a Go library that packs a
wallet's sensitive data into one backup file and protects the key of that
file with Shamir's secret sharing. The model covers five parts.

- **The filecrypt container.** A backup file holds a key header (NoKey,
  Direct or PBKDF2) followed by a chain of blocks. Each block is a 16-byte
  encryption header (clear, AES-GCM, RSA-OAEP or SHA-256 digest) and the
  bytes that header announces. The model has the header layouts, the
  dispatch on their type bytes, the block-size arithmetic, each variant's
  block layout, `Encrypt` and the `Decrypt` loop. The loop reads blocks
  until one is tagged LAST or SINGLE.
- **Shamir's secret sharing.** This covers the configuration, the random
  polynomial, share generation at the abscissae `1..MaxShares`,
  reconstruction by the Lagrange sum at 0, and the 41-byte share codec.
- **The field arithmetic of package ff.** Elements are four 64-bit limbs
  updated in place, in Montgomery form. The model has modular addition,
  subtraction, negation and doubling with carry and borrow chains, the
  binary extended-Euclid inverse, the always-reduced `SetRandom`, and the
  CIOS Montgomery product with its reduction for the base field.
- **The backuplib glue.** This is the mobile form of a share, the share
  store, and key recovery from the first `MinShares` shares.
- **The wrapper's backup layer.** This is the registry, the position tags
  `CreateBackup` assigns, and the lookup of shares among decoded values.

## How it is modelled

- Go structs whose methods update their fields become classes. Examples are
  the headers, the key objects, the field elements, the Shamir
  configuration, the registry and the share store. Their methods carry
  `modifies` clauses and state the whole new state. Pure helpers and the
  decrypt paths are functions, and the methods are proved against them.
- A file is a class with an existence flag, its contents and a cursor.
  Creating truncates the file. The append-mode open does not create a
  missing file. A read of `n` bytes fails when fewer remain.
- AES-GCM, RSA-OAEP, PBKDF2, SHA-256 and gob encoding are library calls.
  They are gathered as function parameters in `Primitives.Primitives`.
  `Primitives.Lawful` states the laws the round trips use: gob decoding
  inverts encoding, and GCM opening inverts sealing under the same key and
  nonce.
- Randomness becomes a parameter: nonces, salts, polynomial coefficients
  and the bytes of `SetRandom`.
- A Go panic is the error value `Panic`.
- Shamir's scheme and the share codec work on the values field elements
  stand for: residues modulo the field's prime. The limb-level element
  methods are modelled separately in `FieldP` and `FieldQ`.
- `Lagrange` holds the algebra Shamir's reconstruction relies on. It has
  inverses modulo a prime, the factor theorem, a bound on the roots of a
  polynomial, and Lagrange interpolation.

Four behaviours of the code are worth knowing before reading the model.

- An authentication failure is not fatal: `Decrypt` drops a block whose
  decryption fails and goes on with the next one
  (filecrypt/filecrypt.go:186-189). Only a short read, an unknown header
  type or a panic aborts it.
- The block-indexed header keeps the encryption type at offset 1 and the
  position tag at offset 2 (filecrypt/fchdr.go:99-123).
- `NewConfig` rejects only a `MinShares` of zero, so a negative `MinShares`
  passes. Share generation then panics on the negative polynomial length.
- The digest variant has no type byte in the decoder's dispatch, so
  `Decrypt` never selects it.

The repository carries two revisions of the encryption header.
`filecrypt/fchdr.go` has the block index and two size classes.
`filecrypt/hdre.go` has no block index and four size classes. `ClearFc`
embeds fchdr (filecrypt/clear_e.go), while `GcmFc`, `RsaFc` and `HashFc`
embed hdre (filecrypt/gcm_e.go:10-12, rsa_e.go:12-14, hash_e.go:10-12). The
container's interface in filecrypt/filecrypt.go and the wrapper
(wrapper/utils.go:546-550) call the four-argument `FillHdr` and
`isLasttBlock`, which only fchdr has. The model therefore gives all four
encryption types fchdr's header (`FcHdrs`) in the container model; this is
a modelling choice, and "## Left out" says what it loses. hdre is modelled
on its own (`Hdre`) with `NewHdrEncrypt` and `decryptBlock`. There too, a
clear block is built as `ClearFc` and read with fchdr's layout, since
`getEncFCFromType(0)` returns a `ClearFc`. The table `fc_bsize` that fchdr.go
indexes is defined outside the modelled files; the model takes its two
classes as 16 and 32 bytes, the sizes of the same classes in
filecrypt/filecrypt.go:99-110. Both headers compute `getNBlockBytes` in
64-bit integers, and the model wraps that product and difference as Go
does. The wrapper's `GenerateKey` (wrapper/utils.go:120-134) has the same
logic as backuplib's `generateKey`, and `BackupSecret.GenerateKey` stands
for both. `PRIME` is defined outside the modelled files; it is taken as the
scalar field `FF_BN256_FP`, the library's `DEFAULT_PRIME`.

## Model

| member | source | states |
|---|---|---|
| FcHdrs.Encode | filecrypt/fchdr.go:112-123 | `toBytes` always yields a 16-byte header |
| FcHdrs.DecodeEncode | filecrypt/fchdr.go:99-123 | `fromBytes(toBytes(h))` restores every field of a header whose one-byte fields fit a byte and whose block count fits 64 bits |
| FcHdrs.EncodeDecode | filecrypt/fchdr.go:99-123 | any 16-byte header with zero bytes 14 and 15 is rewritten byte for byte by `toBytes(fromBytes(b))` |
| FcHdrs.NBlockBytesAfterSetNBlocks | filecrypt/fchdr.go:93-97 | for `n` at least one block below 2^63, after `setNBlocks(n)`, `getNBlockBytes` (136-142) gives back `n`, the blocks cover `n` with less than a block to spare, and the last-block size is below the block size |
| FcHdrs.NoncePaddingFillsBlocks | filecrypt/fchdr.go:125-130 | the nonce padding is below the block size, and the nonce plus its padding fills a whole number of blocks |
| FcHdrs.NBlockBytesWraps | filecrypt/fchdr.go:136-142 | `getNBlockBytes` multiplies in 64-bit `int`: 2^60 blocks of 16 bytes announce 0 bytes and 2^59 blocks announce -2^63 |
| FcHdrs.SetNBlocks1039 | filecrypt/fchdr_test.go:13-34 | 1039 bytes are 65 blocks with a last block of 15 in the 16-byte class and 33 blocks with a last block of 15 in the 32-byte class, as fchdr.go:93-97 computes them |
| FcHdrs.NoncePadding12 | filecrypt/fchdr_test.go:180-185 | a 12-byte nonce in the 32-byte class gets 20 bytes of padding, as fchdr.go:125-130 computes it |
| FcHdrs.FirstAndLast | filecrypt/fchdr.go:144-158 | a header is both first and last exactly when its index is SINGLE; a MID block is neither |
| FcHdrs.SizeClass | filecrypt/fchdr.go:74-80 | the class found by the scan of the size table has the requested byte size, and when none is found no class has it |
| FcHdrs.FcHdr.constructor | filecrypt/fchdr.go:56-64 | a fresh header is the all-zero Go struct |
| FcHdrs.FcHdr.FillHdr | filecrypt/fchdr.go:67-91 | succeeds exactly when version, type and index are below their limits and the byte size is in the table; an error leaves the header as it was; success sets version, index, type and size class and nothing else |
| FcHdrs.FcHdr.SetNBlocks | filecrypt/fchdr.go:93-97 | the header becomes its old value with the block count and last-block size of `n` bytes, all other fields unchanged |
| FcHdrs.FcHdr.FromBytes | filecrypt/fchdr.go:99-109 | the header becomes the decoding of offsets 0 to 13 |
| FcHdrs.FcHdr.SetNonceSize | filecrypt/fchdr.go:132-134 | only the nonce size changes |
| Hdre.Encode | filecrypt/hdre.go:128-139 | `toBytes` yields 16 bytes whose last three are zero |
| Hdre.DecodeEncode | filecrypt/hdre.go:117-139 | `fromBytes(toBytes(h))` restores every field of a header whose one-byte fields fit a byte and whose block count fits 64 bits |
| Hdre.NBlockBytesAfterSetNBlocks | filecrypt/hdre.go:110-115 | for `n` at least one block below 2^63, after `setNBlocks(n)`, `getNBlockBytes` (152-158) gives back `n`, the blocks cover `n` with less than a block to spare, and the last-block size is below the block size |
| Hdre.SmallClassRoundTrip | filecrypt/hdre.go:110-139 | for the 16-, 32- and 256-byte classes, a header sized for `n` bytes survives `toBytes`/`fromBytes` and still announces `n` bytes |
| Hdre.LastBlocksizeTruncated | filecrypt/hdre.go:110-139 | in the 512-byte class, 300 bytes give a last-block size of 300, which `toBytes` writes as the byte 44, so the header read back announces 44 bytes |
| Hdre.NoncePaddingFillsBlocks | filecrypt/hdre.go:141-146 | the nonce padding is below the block size, and the nonce plus its padding fills a whole number of blocks |
| Hdre.NBlockBytesWraps | filecrypt/hdre.go:152-158 | `getNBlockBytes` works in `int64`: 2^60 blocks of 16 bytes announce 0 bytes, and 2^55 blocks of 512 bytes with a last block of 100 announce -412 bytes |
| Hdre.SizeClass | filecrypt/hdre.go:92-98 | the class found by the scan has the requested byte size, and when none is found no class has it |
| Hdre.DecryptBlockAt | filecrypt/hdre.go:208-228 | a negative offset is a seek error, and a file with fewer than 16 bytes from the offset is a format error; a clear block is sized by the block-indexed header `ClearFc` embeds (`BodyLen`), a GCM or RSA block by this revision's |
| Hdre.DecryptBlockWritten | filecrypt/hdre.go:208-228 | a GCM or RSA block written at an offset, as a header of this layout announcing exactly the bytes that follow it, is decrypted from those bytes whatever surrounds it, with the variant its type byte selects |
| Hdre.ClearBlockWritten | filecrypt/hdre.go:208-228 | a clear block written at an offset with `ClearFc`'s block-indexed header (filecrypt/clear_e.go) announcing exactly the bytes that follow decodes to the codec's value of those bytes, whatever surrounds it |
| Hdre.HdreFc.constructor | filecrypt/hdre.go:76-83 | a fresh header is the all-zero Go struct |
| Hdre.HdreFc.FillHdr | filecrypt/hdre.go:85-108 | succeeds exactly when version and type are below their limits and the byte size is in the table; an error leaves the header as it was; success sets version, type and size class and nothing else |
| Hdre.HdreFc.SetNBlocks | filecrypt/hdre.go:110-115 | the header becomes its old value with the block count and last-block size of `n` bytes |
| Hdre.HdreFc.FromBytes | filecrypt/hdre.go:117-126 | the header becomes the decoding of offsets 0 to 12 |
| Hdre.HdreFc.SetNonceSize | filecrypt/hdre.go:148-150 | only the nonce size changes |
| Hdre.NewHdrEncrypt | filecrypt/hdre.go:177-186 | an unknown type byte gives no object and a handler-type error; otherwise a fresh header is returned together with the fill's outcome, filled on success and all zero on error: the block-indexed header with block index 0 and its two size classes for type 0, this revision's header and four classes for GCM and RSA |
| Hdre.NewHdrEncryptFromFile | filecrypt/hdre.go:160-175 | reads 16 bytes at the cursor; a short read or an unknown type byte gives no object and that error; otherwise a fresh object of the selected variant holds the header decoded in that variant's layout: the block-indexed one for a clear block, this revision's for GCM and RSA |
| Hdre.DecryptBlock | filecrypt/hdre.go:208-228 | equals `DecryptBlockAt` on the file's contents: seek, header, exactly the variant's `getNBlockBytes` bytes (the 64-bit count, a negative one panicking), then the variant's `decrypt`, whose GCM path panics on a nonce that is not 12 bytes |
| Hdre.DecodeEncodeLowBytes | filecrypt/hdre.go:117-139 | for any header with a 64-bit block count, `fromBytes(toBytes(h))` keeps the low byte of each one-byte field and the whole block count |
| KeyHdrs.KeyKindOf | filecrypt/hdrk.go:59-76 | the type byte is accepted exactly when it is below the number of key types, the kind found carries that very byte as its code, and any other byte is an invalid key header |
| KeyHdrs.KeyKindOfCode | filecrypt/hdrk.go:59-76 | every key kind's code fits a byte and is mapped back to that same kind |
| KeyHdrs.NewHdrKey | filecrypt/hdrk.go:47-58 | fewer than two parameters is an argument error; an unknown type in `params[1]` gives no header; otherwise a fresh object of the selected variant is returned with its fill outcome, which succeeds exactly under that variant's checks and then holds the parameters given |
| KeyHdrs.RetrieveFrom | filecrypt/hdrk.go:26-45 | a key is produced only when both prefix bytes are present and the type is known; a short file is a format error, an unknown type an invalid key header; a NoKey header yields a nil key and a Direct header the caller's key, both leaving the cursor right after the prefix |
| KeyHdrs.RetrievePrefixHeader | filecrypt/hdrk.go:26-45 | reading back a two-byte NoKey or Direct header yields the key those variants hand out and stops after two bytes, whatever follows |
| KeyHdrs.RetrievePbkdf2Header | filecrypt/hdrk.go:26-45 | reading back a written PBKDF2 header derives the same key from the same password and stops exactly at the end of the header |
| KeyHdrs.RetrieveKey | filecrypt/hdrk.go:26-45 | a negative offset is a seek error that leaves the cursor alone; otherwise the key and the final cursor are those of `RetrieveFrom` on the file's bytes at the offset |
| KeyHdrs.KeyGenOf | filecrypt/nokey_k.go:70-96 | a variant that appends (NoKey, Direct) writes only to a file that exists, and an open error happens only when the file is missing and writes nothing |
| KeyHdrs.GenerateKey | filecrypt/direct_k.go:75-101 | dispatches to the variant's `generateKey`: the error, the key, the new file contents and whether the file now exists are those `KeyGenOf` gives for the variant's state |
| NoKey.NoKeyFc.constructor | filecrypt/nokey_k.go:15-20 | a fresh header is the zero Go struct |
| NoKey.NoKeyFc.FillHdr | filecrypt/nokey_k.go:29-47 | anything but two parameters is an argument error; a version or type beyond its limit is an invalid-argument error; an error leaves the header unchanged, success sets version and type |
| NoKey.NoKeyFc.FromBytes | filecrypt/nokey_k.go:50-55 | version and type are bytes 0 and 1, and both keys become nil |
| NoKey.NoKeyFc.ToBytes | filecrypt/nokey_k.go:58-64 | two bytes, which are the version and the type whenever those fit a byte, so `FromBytes(ToBytes())` restores both |
| NoKey.NoKeyFc.GenerateKey | filecrypt/nokey_k.go:70-96 | the key is always nil; on the first call the two header bytes are appended to an existing file, a missing file is an open error that writes nothing, and later calls write nothing |
| DirectKey.DirectKeyFc.constructor | filecrypt/direct_k.go:19-24 | a fresh header is the zero Go struct |
| DirectKey.DirectKeyFc.FillHdr | filecrypt/direct_k.go:33-51 | anything but two parameters is an argument error; a version or type beyond its limit is an invalid-argument error; an error leaves the header unchanged, success sets version, type and the caller's key and clears the output key |
| DirectKey.DirectKeyFc.FromBytes | filecrypt/direct_k.go:54-59 | version and type are bytes 0 and 1, and both keys become nil |
| DirectKey.DirectKeyFc.ToBytes | filecrypt/direct_k.go:62-68 | two bytes, which are the version and the type whenever those fit a byte, so `FromBytes(ToBytes())` restores both |
| DirectKey.DirectKeyFc.GenerateKey | filecrypt/direct_k.go:75-101 | on the first call the two header bytes are appended to an existing file and the caller's key becomes the output key; a missing file is an open error that writes nothing; later calls return the key already produced and write nothing |
| Pbkdf2Key.CopySalt | filecrypt/pbkdf2_k.go:105-113 | the salt field is exactly `saltlen` bytes long and holds the salt, cut short or padded with zeros as Go's `copy` into a zeroed slice leaves it |
| Pbkdf2Key.Encode | filecrypt/pbkdf2_k.go:101-116 | succeeds exactly when the length field equals 10 plus the salt length (a mismatch is the malformed-struct error), and then yields that many bytes |
| Pbkdf2Key.DecodeEncode | filecrypt/pbkdf2_k.go:87-116 | `fromBytes(toBytes(h))` restores every field of a header whose fields fit their bytes, whose iteration count fits 32 bits and whose salt is as long as its length says |
| Pbkdf2Key.DerivedKey | filecrypt/pbkdf2_k.go:164-177 | a key is derived exactly for SHA-1 and SHA-256; any other hash is the not-implemented error |
| Pbkdf2Key.RetrieveWritten | filecrypt/pbkdf2_k.go:118-138 | reading back a header written at the start of a file, with the same password, derives the key its writer derived and leaves the cursor on the first byte after the header |
| Pbkdf2Key.Pbkdf2Fc.constructor | filecrypt/pbkdf2_k.go:47-58 | a fresh header is the zero Go struct |
| Pbkdf2Key.Pbkdf2Fc.FillHdr | filecrypt/pbkdf2_k.go:61-84 | any parameter at or beyond its limit is an invalid-argument error that leaves the header unchanged; success stores the parameters, a length of 10 plus the salt length, the drawn salt and the caller's key, and clears the output key |
| Pbkdf2Key.Pbkdf2Fc.FromBytes | filecrypt/pbkdf2_k.go:87-98 | the header becomes the decoding of the bytes, with a salt as long as the salt-length byte, and both keys become nil |
| Pbkdf2Key.Pbkdf2Fc.ComputeKey | filecrypt/pbkdf2_k.go:164-177 | the output key becomes the derived key for SHA-1 and SHA-256; any other hash is an error that leaves it alone |
| Pbkdf2Key.Pbkdf2Fc.RetrieveKey | filecrypt/pbkdf2_k.go:118-138 | the key returned and the final cursor are those `RetrieveSpec` gives for the file's bytes at the cursor |
| Pbkdf2Key.Pbkdf2Fc.GenerateKey | filecrypt/pbkdf2_k.go:140-162 | on the first call the file is created or truncated to hold exactly the encoded header and the key is derived; a malformed header or an unimplemented hash panics; later calls return the key already derived and touch no file |
| Files.ReadAt | filecrypt/filecrypt_utils.go:89-95 | a read of `n` bytes succeeds exactly when `n` is zero or that many bytes remain, returns exactly the bytes at the cursor and moves the cursor past them; a negative `n` panics in `make` |
| Files.File.constructor | filecrypt/filecrypt_utils.go:57-80 | a file is present with its contents or absent and empty; the cursor starts at 0 |
| Files.File.Create | filecrypt/filecrypt_utils.go:58-63 | `os.Create` leaves an existing, empty file |
| Files.File.OpenAppend | filecrypt/filecrypt_utils.go:66-72 | the append-mode open fails exactly when the file is missing, since it does not create it |
| Files.File.Write | filecrypt/filecrypt_utils.go:66-72 | a write in append mode adds the bytes at the end of the file |
| Files.File.OpenRead | filecrypt/filecrypt_utils.go:74-80 | the read-mode open fails exactly when the file is missing, and otherwise puts the cursor at 0 |
| Files.File.Seek | filecrypt/hdre.go:208-213 | a seek to a negative offset fails and leaves the cursor; any other offset, even past the end, becomes the cursor |
| Files.File.ReadN | filecrypt/filecrypt_utils.go:89-95 | the bytes returned and the new cursor are those `ReadAt` gives on the file's contents |
| EncTypes.EncKindOf | filecrypt/hdre.go:188-206 | a type byte is accepted exactly when it is one of the three decoder codes, the handler found carries that code, and any other byte is the handler-type error; the hashing handler is never selected |
| EncTypes.ClearDecrypt | filecrypt/clear_e.go:50-56 | a clear block decrypts exactly when gob decoding of its bytes succeeds |
| EncTypes.GcmDecrypt | filecrypt/gcm_e.go:88-120 | a GCM block decrypts only when the key is a valid AES key, the nonce is 12 bytes, the nonce and its padding lie within the block, and opening the rest with that nonce authenticates; a valid key with any other nonce size panics |
| EncTypes.RsaDecrypt | filecrypt/rsa_e.go:71-92 | an RSA block decrypts only when the private key parses and OAEP decryption of the block succeeds |
| EncTypes.WithNBlocksRepresentable | filecrypt/fchdr.go:93-97 | a writable header sized for any stream under 2^60 bytes (`MAX_STREAM`) still fits the byte layout and announces exactly that many bytes |
| EncTypes.ClearRoundTrip | filecrypt/clear_e.go:13-56 | a clear block written by `encrypt` starts with a header that decodes to the header set, announces exactly the bytes that follow, and `decrypt` of those bytes returns the value |
| EncTypes.GcmBlockLayout | filecrypt/gcm_e.go:15-84 | a GCM block written by `encrypt` decodes to its header, records a 12-byte nonce, and carries the nonce, the padding and then the sealed stream |
| EncTypes.GcmWrongKey | filecrypt/gcm_e.go:88-110 | a GCM block read under another valid key that `gcm.Open` rejects decrypts to an authentication error, not a value or a panic |
| EncTypes.GcmRoundTrip | filecrypt/gcm_e.go:15-120 | a GCM block written by `encrypt` decodes to its header, announces the nonce, padding and ciphertext that follow, and `decrypt` under the sealing key with the recorded nonce size and padding returns the value |
| EncTypes.RsaRoundTrip | filecrypt/rsa_e.go:18-92 | an RSA block decodes to its header, announces the ciphertext that follows, and `decrypt` under a private key that inverts the public key's OAEP encryption returns the value |
| EncTypes.HashBlockContents | filecrypt/hash_e.go:14-63 | a hash block in the 256-bit class announces 32 bytes, which are the SHA-256 of the value's gob stream, and `decrypt` hands them back unchanged |
| EncTypes.AppendBlock | filecrypt/clear_e.go:28-45 | an append-mode open on a missing file fails and writes nothing; otherwise the parts are appended in order |
| EncTypes.ClearEncrypt | filecrypt/clear_e.go:13-48 | the error, the new header and the bytes appended are those of `ClearEncryptSpec`: the header with the stream's block count, then the gob stream |
| EncTypes.GcmEncrypt | filecrypt/gcm_e.go:15-84 | the error, the new header and the bytes appended are those of `GcmEncryptSpec`: header, nonce, zero padding to a whole block, sealed stream; the header is fchdr's where Go's `GcmFc` embeds hdre (see "## Left out") |
| EncTypes.RsaEncrypt | filecrypt/rsa_e.go:18-67 | the error, the new header and the bytes appended are those of `RsaEncryptSpec`: an unparsable key, a failed encoding or a stream not shorter than the block size writes nothing; the header is fchdr's where Go's `RsaFc` embeds hdre (see "## Left out") |
| EncTypes.HashEncrypt | filecrypt/hash_e.go:14-59 | the error, the new header and the bytes appended are those of `HashEncryptSpec`: a header announcing 32 bytes, then the digest, or the header alone and an error outside the 256-bit class; the header is fchdr's where Go's `HashFc` embeds hdre (see "## Left out") |
| FileCrypt.ReadBlock | filecrypt/filecrypt.go:160-184 | a block is read only when its 16-byte header, a known type and all the bytes its 64-bit `getNBlockBytes` announces are there (a negative count panics); its body is exactly those bytes and its header is the decoding of the 16 bytes |
| FileCrypt.BadBlockSkipped | filecrypt/filecrypt.go:174-190 | a block laid out as the reader expects but failing to decrypt under the reader's method adds no value, whatever surrounds it |
| FileCrypt.GcmBlockUnderOtherKeySkipped | filecrypt/filecrypt.go:174-190 | a GCM block sealed under one key and rejected by `gcm.Open` under the reader's key adds no value: reading goes on after it, or ends with nothing when it was the terminating block |
| FileCrypt.GcmBlockRejected | filecrypt/gcm_e.go:88-110 | a GCM block written under one key is a good block for that key, and the same bytes read under another valid key that `gcm.Open` rejects decrypt to an authentication error |
| FileCrypt.FailedBlockSkipped | filecrypt/filecrypt.go:174-190 | a block that reads whole but fails to decrypt adds no value: reading goes on with the next block, or ends with the values so far when the block was the last |
| FileCrypt.Decrypt | filecrypt/filecrypt.go:137-193 | the result is `DecryptSpec` of the file: a missing file, a short or unknown key header, a block that cannot be read, or a panic while decrypting (a GCM nonce other than 12 bytes among them) is an error; otherwise the decrypted values of the blocks up to the terminating one, in file order |
| FileCrypt.DecryptLoop | filecrypt/filecrypt.go:160-191 | the loop's result is the passes over the blocks from the cursor (`DecryptBlocks`) |
| FileCrypt.DecryptChain | filecrypt/filecrypt.go:160-191 | a chain of good blocks, only the last terminating, placed anywhere in the file, is decrypted to the chain's values in order, whatever bytes follow it |
| FileCrypt.DecryptFile | filecrypt/filecrypt.go:137-193 | a file made of a key header yielding key `k` and a chain of good blocks under `k`, followed by any bytes, decrypts to the chain's values |
| FileCrypt.ClearBlockGood | filecrypt/clear_e.go:13-56 | a clear block written with a clear-type header is read back whole and decrypts to its value under any key, terminating exactly when its header says LAST or SINGLE |
| FileCrypt.GcmBlockGood | filecrypt/gcm_e.go:15-120 | a GCM block written with a GCM-type header is read back whole and decrypts to its value under the sealing key |
| FileCrypt.EncryptBlock | filecrypt/filecrypt.go:124-128 | the variant's `encrypt`: error, new header and appended bytes are those of `EncryptSpec` for its kind |
| FileCrypt.Encrypt | filecrypt/filecrypt.go:116-131 | the key header's `generateKey` runs first; its error stops everything and leaves the block header alone; otherwise the block is encrypted under the key produced and appended after whatever the key step wrote |
| FileCrypt.GoodChainOf | filecrypt/filecrypt.go:160-191 | good blocks of which only the last terminates form a good chain |
| FileCrypt.DirectGcmRoundTrip | filecrypt/filecrypt.go:116-193 | a backup of a Direct key header and GCM blocks under that key, the last block alone terminating, decrypts with the same key to the values in the order written |
| FileCrypt.NoKeyClearRoundTrip | filecrypt/filecrypt.go:116-193 | a backup of a NoKey header and clear blocks, the last block alone terminating, decrypts to the values in order whatever key the reader gives |
| FileCrypt.Pbkdf2GcmRoundTrip | filecrypt/filecrypt.go:116-193 | a backup of a PBKDF2 header and GCM blocks under the key it derives, the last block alone terminating, decrypts with the same password to the values in order |
| Lagrange.InvCorrect | secret/shamir.go:46 | every residue other than 0 modulo a prime has an inverse: `a * Inv(a, p) ≡ 1` |
| Lagrange.Interpolation | secret/shamir.go:19-21 | for points at distinct abscissae modulo a prime, the Lagrange sum at any `z` equals, modulo `p`, every polynomial with no more coefficients than points that passes through them |
| Shamir.PolyOf | secret/shamir.go:126-134 | `generatePoly` draws exactly `MinShares - 1` coefficients |
| Shamir.ShareValueIsEval | secret/shamir.go:73-84 | the ordinate accumulated by the inner loop is the polynomial `secret + a1*x + … + ak*x^k` at `x`, modulo `p` |
| Shamir.SharesOf | secret/shamir.go:60-89 | `GenerateShares` returns `MaxShares` shares (none for a negative count) |
| Shamir.SharesOfAt | secret/shamir.go:69-86 | share `i` sits at abscissa `i + 1` and holds the polynomial's value there |
| Shamir.SharesOfAll | secret/shamir.go:69-86 | every share holds a residue below `p` at its position's abscissa |
| Shamir.ShareOrdinate | secret/shamir.go:73-84 | the loop over the coefficients computes the same ordinate as the reference definition, with `idx^(k+1)` taken exactly |
| Shamir.WeightIsBasis | secret/shamir.go:29-49 | the inner loop of `GenerateSecret` (numerator `xm`, denominator `xm - xj` negated when `xm < xj`, shares at `xj` skipped) computes the Lagrange basis of `xj` at 0 |
| Shamir.CombineIsLagrange | secret/shamir.go:29-52 | the outer loop sums each share's ordinate times its weight: the Lagrange interpolation at 0 |
| Shamir.DistinctAbscissae | secret/shamir.go:69 | distinct abscissae in `1..MaxShares`, below `p`, stay distinct modulo `p` |
| Shamir.SelectedOnPoly | secret/shamir.go:69-86 | any shares picked from `GenerateShares`'s output lie on the sharing polynomial |
| Shamir.GenerateSecretRecovers | secret/shamir.go:19-89 | at least `MinShares` distinct shares from `GenerateShares` recover the secret exactly, given that the modulus is prime (not proved here for the two field moduli) |
| Shamir.Shamir.constructor | secret/shamir.go:13-17 | the zero value: no shares and the first field type |
| Shamir.Shamir.NewConfig | secret/shamir.go:92-114 | the three argument errors in the source's order, the receiver untouched on error, and the fields set exactly when all checks pass |
| Shamir.Shamir.GeneratePoly | secret/shamir.go:126-134 | `MinShares - 1` coefficients, each a draw reduced into the field; a negative length panics |
| Shamir.Shamir.GenerateShares | secret/shamir.go:60-89 | shares at `1..MaxShares` with reduced ordinates, equal to the reference `SharesOf`; panics when the polynomial length is negative |
| Shamir.Shamir.GenerateSecret | secret/shamir.go:22-55 | the Lagrange combination of the given shares, a residue, 0 for no shares; never an error |
| Shamir.LagrangeWeight | secret/shamir.go:31-49 | the product over the other shares, a residue unless no other abscissa occurs |
| ShareCodec.ToBytes | ff/element_bn256p.go:538-552 | `ToByte` yields 32 bytes |
| ShareCodec.FromBytes | ff/element_bn256p.go:555-562 | `FromByte` yields a reduced element of the requested field |
| ShareCodec.ElementRoundTrip | ff/element_bn256p.go:538-562 | `FromByte(ToByte(e)) == e` for every reduced element |
| ShareCodec.Marshal | shamir/share.go:22-29 | 41 bytes: the little-endian `uint64` of `Px` at 0..7, `Py.ToByte()` at 8..39 and the low byte of the field tag at 40 |
| ShareCodec.PxOf | shamir/share.go:33 | the abscissa read back is the `int64` whose `uint64` image is the first eight bytes |
| ShareCodec.ShareBox.constructor | shamir/share.go:17-20 | a share with the given fields |
| ShareCodec.ShareBox.Unmarshal | shamir/share.go:31-42 | panics on a buffer too short for its reads, fails on an unknown field tag after setting `Px` and clearing `Py` to nil, otherwise fills both fields as `Decode` describes |
| ShareCodec.MarshalRoundTrip | shamir/share.go:22-42 | `Unmarshal(Marshal(s, tag of s's field))` gives `s` back for every share with an `int64` abscissa and a reduced ordinate |
| ShareCodec.MarshalUnknownTag | shamir/share.go:34-38 | a tag that names no field makes `Unmarshal` fail whatever the share |
| Ff.NewElement | ff/ff.go:74-87 | an element of the field the type selects, and "Invalid FF type" exactly for the other codes |
| Ff.TypeCodeRoundTrip | ff/ff.go:61-87 | each field's code is valid and selects that field again |
| Ff.FromInterface | ff/ff.go:91-114 | the field type is checked first; then an error exactly for unsupported dynamic types; converted values belong to the selected field |
| Ff.FromInterfacePassesElements | ff/ff.go:107-108 | an `Element` argument is returned as it is, even when it belongs to the other field |
| Ff.Bit | ff/ff.go:145-150 | the result is 0 or 1 |
| Ff.BitOfValue | ff/ff.go:145-150 | `Bit(el, b)` is binary digit `b` of the element's regular value |
| Ff.ZeroIffNoBits | ff/ff.go:132-150 | the value is zero exactly when none of the 256 bits is set |
| Ff.Msb | ff/ff.go:132-142 | the index of the highest set bit, 0 for zero |
| Ff.MsbBounds | ff/ff.go:131-142 | for a nonzero value the result `r` satisfies `2^r <= value < 2^(r+1)` |
| Ff.HighSetBit | ff/ff.go:132-142 | a value of at least `2^m` has a set bit at `m` or above, so `Msb` cannot stop below it |
| FieldP.Reduce | ff/element_bn256p.go:375-383 | the conditional subtraction of `q` turns any value below `2q` into its remainder modulo `q` |
| FieldP.AddMod | ff/element_bn256p.go:365-385 | the limb sum of two reduced values followed by the conditional subtraction is the sum modulo `q` |
| FieldP.SubMod | ff/element_bn256p.go:434-450 | the borrow chain with `q` added back after a borrow is the difference modulo `q` |
| FieldP.SubResult | ff/element_bn256p.go:434-450 | the value left by the borrow chain and the correction is the difference modulo `q` |
| FieldP.HalveWhileEven | ff/element_bn256p.go:186-259 | halving `v` while even and `s` modulo `q` keeps `x*s ≡ v*R^2`, `s <= q`, `v` odd and coprime to the other variable |
| FieldP.SubtractStep | ff/element_bn256p.go:261-320 | subtracting the smaller of `u`, `v` from the larger, with `r`, `s` adjusted modulo `q`, keeps both congruences and coprimality and decreases `u + v` |
| FieldP.InverseStart | ff/element_bn256p.go:161-184 | the starting values `u = q`, `s = R^2 mod q`, `r = 0`, `v = x` satisfy the loop's congruences |
| FieldP.InverseEnd | ff/element_bn256p.go:323-330 | when `v` (or `u`) reaches 1 the matching `s` (or `r`) is a nonzero `z` with `x*z ≡ R^2` |
| FieldP.ElementP.constructor | ff/ff.go:80-82 | a zero element with its own limb array |
| FieldP.ElementP.SetWords | ff/element_bn256p.go:76-83 | writes the four limbs |
| FieldP.ElementP.Set | ff/element_bn256p.go:65-73 | copies the limbs of `x` |
| FieldP.ElementP.SetZero | ff/element_bn256p.go:86-93 | the value becomes 0 |
| FieldP.ElementP.SetOne | ff/element_bn256p.go:96-103 | the value becomes `R mod q`, the Montgomery form of 1 |
| FieldP.ElementP.IsZero | ff/element_bn256p.go:137-139 | true exactly when the value is 0 |
| FieldP.ElementP.Equal | ff/element_bn256p.go:130-134 | true exactly when the two values are equal |
| FieldP.ElementP.Neg | ff/element_bn256p.go:106-118 | the value becomes `-x mod q`: 0 stays 0, any other `x` becomes `q - x` |
| FieldP.ElementP.Add | ff/element_bn256p.go:365-385 | the value becomes `(x + y) mod q` |
| FieldP.ElementP.AddAssign | ff/element_bn256p.go:388-408 | the value becomes `(z + x) mod q` |
| FieldP.ElementP.Double | ff/element_bn256p.go:411-431 | the value becomes `2x mod q` |
| FieldP.ElementP.Sub | ff/element_bn256p.go:434-450 | the value becomes `(x - y) mod q` |
| FieldP.ElementP.SubAssign | ff/element_bn256p.go:453-469 | the value becomes `(z - x) mod q` |
| FieldP.ElementP.SetRandom | ff/element_bn256p.go:333-354 | the four big-endian words of the random bytes, the top one reduced modulo the top limb of `q`: always below `q`, so the final subtraction never runs |
| FieldP.ElementP.Inverse | ff/element_bn256p.go:155-330 | 0 maps to 0; any other reduced `x` coprime to `q` gets a nonzero reduced `z` with `x*z ≡ 2^512 (mod q)`, the Montgomery inverse |
| FieldQ.MontWord | ff/element_bn256q_mul.go:40 | `m = c * q'` makes `m*q0 + c` a multiple of `2^64` |
| FieldQ.RoundValue | ff/element_bn256q_mul.go:36-48 | one CIOS round computes `(t + v*y + m*q) / 2^64`, below `2q` |
| FieldQ.MontRoundsValue | ff/element_bn256q_mul.go:30-87 | the four rounds give a value below `2q` congruent to `x*y*R^-1` |
| FieldQ.Reduce | ff/element_bn256q_mul.go:297-308 | the conditional subtraction leaves a value below `q` unchanged and turns any value below `2q` into its remainder |
| FieldQ.MontMul | ff/element_bn256q_mul.go:30-99 | `Mul` yields the reduced Montgomery product: `r < q` and `r*R ≡ x*y (mod q)` |
| FieldQ.FromMontRoundsValue | ff/element_bn256q_mul.go:245-283 | the four reduction rounds give a value at most `q` congruent to `z*R^-1` |
| FieldQ.FromMont | ff/element_bn256q_mul.go:245-294 | the regular value: `r < q` and `r*R ≡ z (mod q)` |
| FieldQ.ElementQ.constructor | ff/ff.go:76-78 | a zero element with its own limb array |
| FieldQ.ElementQ.SetWords | ff/element_bn256q_mul.go:242 | writes the four limbs |
| FieldQ.ElementQ.ReduceInPlace | ff/element_bn256q_mul.go:297-308 | the limbs become `Reduce` of the old limbs |
| FieldQ.ElementQ.Mul | ff/element_bn256q_mul.go:30-99 | the value becomes the reduced Montgomery product of `x` and `y` |
| FieldQ.ElementQ.MulAssign | ff/element_bn256q_mul.go:103-172 | the value becomes the reduced Montgomery product of `z` and `x` |
| FieldQ.ElementQ.FromMontInPlace | ff/element_bn256q_mul.go:245-294 | the value becomes the regular form of the old value |
| BackupSecret.ElementBytes | ff/element_bn256p.go:538-552 | `ToByte` of a value is 32 bytes |
| BackupSecret.ElementOf | ff/element_bn256p.go:555-562 | `FromByte` yields a residue of the field |
| BackupSecret.FromShares | backuplib/secret.go:66-74 | each share's abscissa and `Py.ToByte()`, in order |
| BackupSecret.ToShares | backuplib/secret.go:53-64 | each mobile share read back into the configured field, in order; panics exactly when some `Py` is shorter than the 32 bytes `FromByte` reads |
| BackupSecret.FieldOfMobile | backuplib/secret.go:53-74 | `toShares(fromShares(s)) == s` for shares holding residues |
| BackupSecret.MobileOfField | backuplib/secret.go:53-74 | `fromShares(toShares(m)) == m` for mobile shares of 32 reduced bytes |
| BackupSecret.Pool | backuplib/secret.go:83-89 | the first `MinShares` shares when there are that many, all of them otherwise |
| BackupSecret.GenerateKey | backuplib/secret.go:82-96 | `ToByte` of the Lagrange combination of the pool |
| BackupSecret.PoolRecovers | backuplib/secret.go:82-96 | the pool of freshly generated shares recovers the secret, given that the modulus is prime (not proved here for the two field moduli) |
| BackupSecret.KeyRecovered | backuplib/secret.go:42-96 | generating shares, storing them in mobile form, reading them back and pooling them gives back the secret's bytes, for any random coefficients, given that the field's modulus is prime (not proved here) |
| BackupSecret.Store.constructor | backuplib/secret.go:107-111 | an empty share store |
| BackupSecret.Store.GetShare | backuplib/secret.go:32-39 | the `n`-th share, `nil` past the end, a panic for a negative index |
| BackupSecret.GenerateShares | backuplib/secret.go:42-51 | with the scalar-field configuration `initSecretCfg` builds, the stored shares are the mobile form of the shares of the secret read into the scalar field; a short secret or `MinShares` below 1 panics and leaves the store as it was |
| Wrapper.InitConfigAccepted | wrapper/utils.go:578-582 | `init`'s `NewConfig(4, 10, PRIME)` passes all three checks of `NewConfig` |
| Wrapper.BackupKeyParamsAccepted | wrapper/utils.go:518-520 | `CreateBackup`'s PBKDF2 parameters (60000 iterations, a 32-byte key, a 12-byte salt) pass `FillHdr`'s limits and give a 22-byte key header |
| Wrapper.BlockIdx | wrapper/utils.go:533-541 | the position tag is one of the four the header knows |
| Wrapper.BlockIdxPositions | wrapper/utils.go:533-541 | the tag ends the chain exactly at the last entry, opens it exactly at the first, and is MID exactly in between |
| Wrapper.BlockIdxHeader | wrapper/utils.go:533-541 | a header carrying the tag is the last block the reader sees exactly at the last entry, and the first exactly at the first |
| Wrapper.BlocksOfKnownModes | wrapper/utils.go:531-557 | with known modes each entry gets one block with its data, the block type its mode selects, the 32-byte size `FC_BSIZE_BYTES_256` (the header's 256-bit class) and its position's tag |
| Wrapper.BackupChain | wrapper/utils.go:525-557 | a non-empty registry gives a chain of blocks that opens only at the first and ends only at the last |
| Wrapper.Registry.constructor | wrapper/utils.go:583 | an empty registry |
| Wrapper.Registry.AddToBackup | wrapper/utils.go:497-512 | a registered type is left as it is; a new one is recorded with its data and mode |
| Wrapper.Registry.CreateBackup | wrapper/utils.go:515-557 | the `FillHdr`/`fc.Encrypt` calls, in the visiting order, each with the 32-byte block size, with the counter advancing for every entry |
| Wrapper.RetrieveShares | wrapper/utils.go:465-478 | the result of the reference `Retrieve` |
| Wrapper.RetrieveFirst | wrapper/utils.go:465-478 | shares are found exactly when some value carries them, and they come from the first such value, a single share becoming a list of one |

## Left out

- AES-GCM, RSA-OAEP, PBKDF2, SHA-256 and gob are parameters with stated laws, not implementations. The JSON parsing of RSA keys belongs to those parameters too.
- `Share.Hash` (shamir/share.go:44-48) is one SHA-256 call over `Marshal`. It is not modelled separately.
- Random bytes come from the caller. The model says nothing about their distribution, so the secrecy of fewer than `MinShares` shares is not stated.
- Files are not closed, and there are no concurrent writers. Only the behaviours the package relies on are modelled: truncating create, append without create, reads that stop at the end, and seeks.
- `Shamir.ShareOrdinate`: the power `idx^(k+1)` is exact. `math.Pow` in float64 and its conversion to `uint64` agree with it only while the power is below 2^53. Larger powers are not modelled.
- `Shamir.Shamir.NewSecret` (secret/shamir.go:117-121) draws an element and converts it with `ToMont`. The conversion is defined outside the modelled files, so it is not modelled.
- The Montgomery conversions in `ToByte` and `FromByte` are defined outside the modelled files, so they are not modelled. `ShareCodec` and `BackupSecret` read and write the 32 little-endian bytes of the value an element stands for.
- element_bn256p's `Mul`, `Square`, `MulAssign`, `ToMont`, `FromMont`, `Exp`, `Sqrt`, `Legendre`, `Div` and its `math/big` conversions are not modelled, nor is element_bn256q outside its multiplication file. They call code defined outside the modelled files (`mulAssign`, `fromMont`, `big.Int`).
- `SetUint64` and `SetFromArray` of element_bn256p are not modelled as Montgomery conversions. `SetWords` writes limbs as given.
- The `madd0`–`madd3` helpers are defined outside the modelled files. `Limbs.Madd0`–`Limbs.Madd3` define them by their arithmetic meaning: the high and low words of `a*b + c (+ d)`.
- `FieldP.ElementP.Inverse`: requires a nonzero `x` to be coprime to `q`. That holds for every nonzero `x` because `q` is prime, but the primality of the 254-bit modulus is not proved here.
- `Ff.Bit`: requires `0 <= b < 256`. Outside that range the Go code indexes past the limbs or shifts by a negative count, and panics. That path is not modelled.
- `Ff.Msb` and `Ff.Bit` take the regular limbs of the element. `ToRegular` is defined outside the modelled files.
- Go's map iteration order in `CreateBackup` is a parameter (`order`), which may be any enumeration of the registry.
- `Wrapper.Registry.CreateBackup`: returns the `(type, block size, tag, data)` records it hands to `FillHdr` and `fc.Encrypt`. It does not fill the PBKDF2 key header or write the file; `FileCrypt.Encrypt` models the write of each block. `encodeType`, the gob registration, is not modelled.
- `BackupSecret.Store.GetShare` returns the share by value. Go returns the address of the slice element; aliasing through that address is not modelled.
- `KeyHdrs.NewHdrKey` forwards the PBKDF2 parameters positionally: version, type, hash, iterations, output length and salt length, the order `Pbkdf2Fc.FillHdr` takes them in. The key file's own variadic forwarding has no such method for PBKDF2.
- `KeyHdrs.RetrieveFrom` folds the errors of the prefix read and the type dispatch together with the variant's key. `Decrypt` returns the first two and ignores the variant's own error (filecrypt/filecrypt.go:159), which the variants never raise.
- `BackupSecret.GenerateShares`: takes a configuration over the scalar field, the one `initSecretCfg` builds (backuplib/secret.go:98-105). A configuration over FQ installed through `SetSecretCfg` is not modelled: Go then copies the FP element's Montgomery limbs into FQ elements with `Set`, and the FQ element type is defined outside the modelled files.
- `EncTypes.GcmEncrypt`: `GcmFc` embeds hdre (filecrypt/gcm_e.go:10-12), but the model fills and writes fchdr's header. Go writes hdre's 16-byte layout (no block index; size class at byte 2, nonce size at 3, last-block size at 4, block count at 5..12), and its 256- and 512-byte classes, which pad the nonce to 256 or 512 bytes, cannot be chosen in the model.
- `EncTypes.RsaEncrypt`: `RsaFc` embeds hdre (filecrypt/rsa_e.go:12-14), but the model uses fchdr's two classes. In Go a header filled for the 256- or 512-byte class accepts streams of 32 to 255 or 511 bytes (rsa_e.go:31); in the model `FillHdr` rejects those classes, so only streams under 32 bytes are encrypted. The header bytes Go writes have hdre's layout, not fchdr's.
- `EncTypes.HashEncrypt`: `HashFc` embeds hdre (filecrypt/hash_e.go:10-12), so Go writes hdre's header layout without a block index; the model writes fchdr's. The 256- and 512-byte classes of hdre, which hash_e.go rejects after writing the header, cannot be chosen in the model.
- `Hdre.NewHdrEncrypt`: for type 0 hdre.go:183 calls a three-argument `fillHdr` that `ClearFc` does not have; its header (filecrypt/fchdr.go) only has the four-argument `FillHdr`. The model calls that one with block index 0, the value of a field no caller sets, so a clear object gets fchdr's two size classes.
- `Pbkdf2Key.Pbkdf2Fc.RetrieveKey`: a salt-length byte that runs past the header bytes read is modelled as a panic (`RetrieveSpec`, `Parsable`). Go's `hdr_bytes[10:10+saltlen]` (pbkdf2_k.go:95) is checked against the capacity of the slice `retrieveKey` builds with three appends, not its length. When the allocator left enough spare capacity, Go reads the spare bytes into the salt and derives a key instead. That capacity depends on Go's slice growth, which is not modelled.
- `Pbkdf2Key.Pbkdf2Fc.FromBytes`: requires `Parsable`, a salt no longer than the bytes given. Reading a salt from the spare capacity of the argument, as Go's slice expression allows, is not modelled, for the reason in the line above.
- `BackupSecret.GenerateShares`: a secret shorter than 32 bytes is modelled as a panic. Go's `FromByte` slices `x[24:32]` (ff/element_bn256p.go:557-560), which is checked against the capacity of the caller's slice, so a short secret with spare capacity is read with whatever bytes lie past its length. That is not modelled.
- `FcHdrs.FcHdr.SetNBlocks` and `Hdre.HdreFc.SetNBlocks` compute `nbytes + bs - 1` without a 64-bit wrap. That sum wraps only for a length within one block of 2^63, which no Go byte slice reaches; the round-trip lemmas state their results below that bound.
- GCM's refusal of a block sealed under another key holds for all but a negligible share of key pairs, not for all of them: a sealed message is only 16 bytes longer than the plaintext, so no law can make it fail for every other key. `EncTypes.GcmWrongKey` and `FileCrypt.GcmBlockUnderOtherKeySkipped` therefore take the failed `gcm.Open` as a hypothesis.
- NoKey's `keyOut` sentinel, a non-nil slice, is modelled as `Some([0])`.
- QR generation and scanning, the Android UI, the demo program, dummy data, identity and keystore glue, and the global getters and setters are not modelled. They are presentation or storage plumbing around the core.
- backuplib/backup.go and backuplib/encoding.go are not part of this model. They call container operations (`fc.New`, `AddBlock`, `NewFromFile`, `DecryptAll`) that are defined outside the modelled files.
- The wrapper's `GenerateShares` (wrapper/utils.go:109-117) does what `BackupSecret.GenerateShares` does, without the share store. It is not modelled separately.
