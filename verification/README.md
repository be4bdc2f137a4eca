# Alice 1121 modem firmware: verified models

The firmware tree of this modem contains a Linux kernel with its crypto layer and the tools that
build its squashfs images. This project states what the most intricate parts of that code promise
and proves it of Dafny models written in the code's own form: classes whose methods update fields,
loops with invariants, arrays changed in place. `dafny verify dfyconfig.toml` checks everything.
Lemmas are marked `{:induction false}` wherever Dafny would add an induction hypothesis of its own, so
every proof is the one written down.

## What is modelled

**Block cipher modes over scatterlists** (`ScatterWalk`, `CipherModes`). Memory is one byte array
with page p at p * 4096; a scatterlist names addresses in it, in segments that may be empty and may
cross pages. The block loop of `crypt`, with its direct and scratch buffers and its in-place case, is
proved to write exactly the ECB or CBC of NIST SP 800-38A to the named bytes and nothing else. The block
cipher is any function on blocks.

**AES** (`GaloisField`, `AesSpec`, `AesTables`, `AesRounds`, `AesKey`, `Aes`, `AesLaws`). The reference is FIPS
197 over GF(2^8), built from polynomial multiplication; no table of constants is assumed. `gen_tabs`,
the key schedule, `aes_encrypt` and `aes_decrypt` are proved against it, and the equivalent inverse
cipher is proved to undo the cipher.

**Serpent and Twofish** (`Serpent`, `Twofish`). Serpent works on words of 32 bits given as booleans:
each S-box program is proved to be the table of the Serpent proposal at every bit position, and the
unrolled rounds with their rotating registers to be the cipher and its inverse, from bytes to bytes.
Twofish is proved for arbitrary S-boxes and subkeys.

**Squashfs** (`BitCodec`, `MetaBlocks`, `MetaStream`, `Restore`, `Directory`, `Filesystem`, `Fragments`,
`FileData`). The bit-field codec in both byte orders, metadata streams of compressed blocks and
references into them, the abort path that restores an image, directory listings from the entries
through the directory inode to the disk and back, and fragment packing with the search for duplicate
files and what it means for their content. The compressor is any pair of functions where
decompression undoes compression and the compressed form is not empty.

**Page completion, buffer LRU and asynchronous I/O** (`PageIo`, `PageWriters`, `BhLru`, `Aio`). Step
systems: each locked section is a step, and so is each stretch of code between two of them; runs are
arbitrary sequences of steps, and the invariants hold after every one. The `BUG` checks of the code
set a flag that is proved never set.

**Digests and HMAC** (`Merkle`, `Sha256`, `Md5`, `Michael`, `Hmac`). Buffered updates are proved equal
to the one-shot function of the whole message. The compression functions of SHA-256 and MD5 are
arbitrary; Michael's block function is modelled in full.

## Where the code and its promises differ

- A directory listing of 2^19 bytes or more is stored with its size modulo 2^19, and its block modulo
  2^24. `Filesystem.WriteAndReadBack` gives the exact condition and the block read instead,
  `Filesystem.SizeLost` a failing size.
- `restorefs` does not restore the root reference of the superblock, so an abort after the new root was
  put there leaves an image whose root is not found, unless both roots have the same place.
  `Restore.Abort` and `Restore.AppendAndAbort` give the exact condition.
- `__block_write_full_page` unlocks the page before its submitting loop. `PageWriters.ExactlyPassed`
  says exactly when the next call may begin, `PageWriters.BothSubmit` shows a run where it may not.
- `get_inode` moves the rest of the cache down with `memcpy`, whose source and destination overlap when
  the cache holds more than 16384 bytes. `MetaStream.CopyApart` gives the exact condition, and
  `MetaStream.AddFileInode` says which files lead there. The model moves the bytes.
- `sha256_update` shifts the chunk length in 32 bits, so the high count word is wrong after a chunk of
  2^29 bytes or more unless the low word happens to carry. `Sha256.HighRight` gives the exact
  condition and `Sha256.HighWrong` an input. Its loop test wraps for some lengths close to 2^32;
  `Sha256.PastEnd` says for which.
- `loop8` writes words 60 to 63 past the sixty words of `E`. In C they fall on the start of `D`, which
  is written afterwards; the model gives `E` sixty-four words.
- The image writer compresses with LZMA by default while `read_fs.c` decompresses with zlib. The model
  takes a matched pair.
- `duplicate` compares stored bytes and not block lists, so a file stored as it is can be taken for a
  compressed one. `FileData.WriteContent` gives the exact condition on the files recorded before,
  `FileData.WrongShare` two files.
- When memory is low, `write_file` writes before it looks for a duplicate, and a hit puts the write
  position back to the file found instead of to its own start. `Fragments.Files.WriteFileInPieces` says
  exactly what is lost or open to be overwritten, and `Fragments.NextWrite` what the next write leaves.
- A hit of that kind on a file of the image being appended to puts the write position below the saved
  end of the data, and an abort does not bring the data back. `Restore.SafeExactly` and
  `Restore.CutLoses` give the exact conditions, `Restore.AppendAndAbort` what the abort leaves.
- `aio_complete` uses the context after its lock, for the wake-up, also when it has no reference to it.
  That is safe if and only if the submitter had let go of the request: `Aio.KeptUntilWoken` and
  `Aio.FreedBeforeWoken`; `Aio.LateWake` is a run where it is not.
- `put_ioctx` looks at the count again after a decrement that was not the last, without a reference.
  `Aio.KeptUntilChecked` says when that is in time; `Aio.FreedBeforeChecked` and `Aio.LateCheck` show
  that otherwise the context may be gone.
- `squashfs_readdir` copies the size of a pointer where it means the size of an entry, in the unswapped
  case; the model reads the three bytes of the entry.
- The comment above the index in `sha256_update` says bytes modulo 128; the code takes them modulo 64.
- `michael_setkey` does not clear pending bytes, so without `michael_init` they become the start of the
  next message; `Michael.WrongCode` is an input. Nor does `michael_init` reset the words, so a second
  digest without a new key is made under the first code: `Michael.DigestTwice`.
- `add_dir` cuts names at 256 bytes and writes the length less one, so a name has at least one byte.

## Model

| member | source | states |
|---|---|---|
| `ScatterWalk.Walk.constructor` | kernel/linux/crypto/scatterwalk.c:49-61 | a new walk has exactly the byte addresses of the whole list ahead of it |
| `ScatterWalk.Walk.Start` | kernel/linux/crypto/scatterwalk.c:49-61 | after starting on segment k, what lies ahead is the addresses of segments k onward, in order, whatever the page offset of the segment |
| `ScatterWalk.Walk.Map` | kernel/linux/crypto/scatterwalk.c:63-66 | mapping makes the data pointer the address of the next byte and moves nothing |
| `ScatterWalk.Walk.DirectExactly` | kernel/linux/crypto/scatterwalk.c:31-39 | the mask arithmetic of whichbuf picks the mapped memory if and only if the next n bytes lie on the current page |
| `ScatterWalk.Walk.PageDone` | kernel/linux/crypto/scatterwalk.c:68-90 | with more to come, the walk has dropped exactly the rest of the finished page, whether the segment goes on or ends; without, it is unchanged |
| `ScatterWalk.Walk.NextPage` | kernel/linux/crypto/scatterwalk.c:81-86 | inside a segment the next page starts at the address following the last one and is not empty |
| `ScatterWalk.Walk.NextSegment` | kernel/linux/crypto/scatterwalk.c:87-88 | at the end of a segment the next one follows with no address lost or repeated |
| `ScatterWalk.Walk.Done` | kernel/linux/crypto/scatterwalk.c:92-97 | finishing never changes the addresses ahead; it steps over an exhausted page and only over such a one, so that the next byte is on the current page |
| `ScatterWalk.Walk.CopyChunks` | kernel/linux/crypto/scatterwalk.c:103-124 | copying n bytes in fills the buffer with the memory at the next n addresses and nothing else; copying out writes those addresses and no other; a buffer that already is the memory is left alone; the walk advances by n, across any number of pages and of empty segments |
| `ScatterWalk.Walk.CopyPages` | kernel/linux/crypto/scatterwalk.c:106-115 | invariant of the page loop: the bytes of every finished page are in place and a non-empty remainder on the current page is left |
| `ScatterWalk.Walk.CopyPart` | kernel/linux/crypto/scatterwalk.c:41-47 | one memcpy piece, in either direction, extends the copied part by exactly its length |
| `ScatterWalk.Walk.Advance` | kernel/linux/crypto/scatterwalk.c:120-122 | advancing inside the page drops n addresses |
| `ScatterWalk.AddrsAt` | kernel/linux/crypto/scatterwalk.c:49-61 | byte i of segment k of a list comes after the bytes of the segments before, and lies i bytes past offset and page of the segment |
| `CipherModes.XorInto` | kernel/linux/crypto/cipher.c:27-39 | the in-place block xor changes the block to the bytewise xor and nothing around it |
| `CipherModes.EcbProcess` | kernel/linux/crypto/cipher.c:123-127 | also when source and destination are the same block, the destination holds the cipher of the old source |
| `CipherModes.CbcProcessEncrypt` | kernel/linux/crypto/cipher.c:98-110 | destination and chaining value both become the cipher of old chaining value xor old source, source and destination possibly the same block |
| `CipherModes.CbcProcessDecrypt` | kernel/linux/crypto/cipher.c:111-121 | destination becomes decryption xor old chaining value and the chaining value the old ciphertext, also when the block is decrypted in place through the stack buffer |
| `CipherModes.PickBuffers` | kernel/linux/crypto/cipher.c:75-78 | samebuf holds exactly when the two chosen pointers are equal; different pointers into memory never overlap in part |
| `CipherModes.CryptBlock` | kernel/linux/crypto/cipher.c:73-89 | one pass of the loop writes the mode's output of the next input block to the next output addresses, leaves every other byte of memory, advances both walks by one block and hands on the right chaining value |
| `CipherModes.ProgressStep` | kernel/linux/crypto/cipher.c:69-95 | writing one more block keeps the statement that the memory is the input chained up to here, because output written so far never covers input still to be read |
| `CipherModes.CryptLoop` | kernel/linux/crypto/cipher.c:66-95 | over the whole loop the invariant reaches the last byte |
| `CipherModes.Crypt` | kernel/linux/crypto/cipher.c:47-96 | for any two scatterlists, in place or disjoint, any page breaks and empty segments: fails exactly when the length is not whole blocks and then changes nothing; otherwise the output bytes are the chained result of the input bytes and no other memory changes |
| `CipherModes.CbcEncryptIv` | kernel/linux/crypto/cipher.c:170-178 | the memory named by the destination list is the CBC encryption of section 6.2 of NIST SP 800-38A of the bytes the source list named, and the IV is left as the last ciphertext block |
| `CipherModes.CbcDecryptIv` | kernel/linux/crypto/cipher.c:190-198 | the same for CBC decryption, with the IV left as the last input block even when it was overwritten |
| `CipherModes.ChainedIsNistEncryption` | kernel/linux/crypto/cipher.c:98-110 | the loop's chaining is CBC encryption of NIST SP 800-38A block by block |
| `CipherModes.ChainedIsNistDecryption` | kernel/linux/crypto/cipher.c:111-121 | the loop's chaining is CBC decryption of NIST SP 800-38A block by block |
| `CipherModes.CbcRoundTrip` | kernel/linux/crypto/cipher.c:98-121 | decrypting with an inverse block function and the same IV gives back every plaintext |
| `CipherModes.ChainedAppend` | kernel/linux/crypto/cipher.c:160-198 | a call that starts from the IV another call left continues it |
| `CipherModes.ChainedUnique` | kernel/linux/crypto/cipher.c:47-96 | the result of chaining is unique |
| `CipherModes.SplitCallsAgree` | kernel/linux/crypto/cipher.c:160-198 | two split calls threading the IV give the same bytes and IV as one long call |
| `CipherModes.InPlaceOrDisjoint` | kernel/linux/crypto/cipher.c:47-96 | the same list twice, or two lists with no byte in common, satisfy what the calls demand |
| `CipherModes.BlocksAre` | kernel/linux/crypto/cipher.c:66-95 | block j of a text is its bytes from j times the block size on |
| `CipherModes.ChainedIsNistEcb` | kernel/linux/crypto/cipher.c:123-127 | without chaining every block is processed alone, as in section 6.1 of NIST SP 800-38A, and the IV is not touched |
| `CipherModes.EcbCrypt` | kernel/linux/crypto/cipher.c:142-158 | for any two scatterlists: block j of the destination text is the block function of block j of the old source text, the IV and all other memory stay, and a partial block is refused |
| `CipherModes.EcbSplitCalls` | kernel/linux/crypto/cipher.c:142-158 | two calls on parts of a text are one call on the whole |
| `CipherModes.EcbRoundTrip` | kernel/linux/crypto/cipher.c:142-158 | decrypting with an inverse block function gives back every text |
| `CipherModes.CbcEquations` | kernel/linux/crypto/cipher.c:98-110 | the equation of section 6.2 of NIST SP 800-38A, written out for block j |
| `CipherModes.CbcInverseEquations` | kernel/linux/crypto/cipher.c:111-121 | and that of decryption |
| `GaloisField.ExpAdd` | kernel/linux/crypto/aes.c:116-124 | powers of the generator 3 multiply by adding exponents |
| `GaloisField.ExpInjective` | kernel/linux/crypto/aes.c:162-173 | the first 255 powers of 3 are all different |
| `GaloisField.ExpPeriod` | kernel/linux/crypto/aes.c:162-173 | the powers of 3 repeat after 255 steps |
| `GaloisField.ExpSurjective` | kernel/linux/crypto/aes.c:162-173 | every non-zero byte is a power of 3 below 255, so the log table has no gap |
| `AesSpec.InverseInvolution` | kernel/linux/crypto/aes.c:181-187 | inversion in GF(2^8), with 0 fixed, undoes itself |
| `AesSpec.AffineIsFips` | kernel/linux/crypto/aes.c:183-184 | the affine step equals the bit equation (5.1) of section 5.1.1 of FIPS 197 at every bit |
| `AesSpec.InvSboxSbox` | kernel/linux/crypto/aes.c:181-187 | the inverse S-box undoes the S-box on every byte |
| `AesSpec.InvMixMix` | kernel/linux/crypto/aes.c:227-237 | InvMixColumns undoes MixColumns on every column |
| `AesSpec.InverseCipher` | kernel/linux/crypto/aes.c:394-431 | the equivalent inverse cipher of section 5.3.5 of FIPS 197, with its own transformed key schedule, undoes the cipher of section 5.1 for every key and block |
| `AesTables.LogsMultiply` | kernel/linux/crypto/aes.c:116-122 | adding logs in a byte with end-around carry and looking up the power gives the field product |
| `AesTables.LogsInvert` | kernel/linux/crypto/aes.c:182 | the power at 255 minus the log is the field inverse |
| `AesTables.AffineByRotations` | kernel/linux/crypto/aes.c:183-184 | the rotation and xor sequence of gen_tabs is the affine map |
| `AesTables.SboxesDone` | kernel/linux/crypto/aes.c:181-187 | when all 256 rows are done both S-box tables hold the S-boxes of FIPS 197 |
| `AesTables.EntryTurns` | kernel/linux/crypto/aes.c:189-224 | each of the four tables is the previous one rotated by a byte |
| `AesTables.RoundEntry` | kernel/linux/crypto/aes.c:198-200 | a forward table word is the MixColumns column of one substituted byte |
| `AesTables.InverseEntry` | kernel/linux/crypto/aes.c:215-218 | an inverse table word is the InvMixColumns column of one inversely substituted byte |
| `AesTables.Tables.Multiply` | kernel/linux/crypto/aes.c:116-124 | ff_mult is multiplication in GF(2^8), zero operands included |
| `AesTables.Tables.GenLogs` | kernel/linux/crypto/aes.c:166-173 | the loop leaves power and log tables inverse to each other |
| `AesTables.Tables.GenRcon` | kernel/linux/crypto/aes.c:175-179 | the loop leaves the ten round constants, powers of x |
| `AesTables.Tables.SboxValue` | kernel/linux/crypto/aes.c:182-184 | the value computed for a byte is its S-box value |
| `AesTables.Tables.GenSboxes` | kernel/linux/crypto/aes.c:181-187 | the loop fills both S-boxes |
| `AesTables.Tables.GenRow` | kernel/linux/crypto/aes.c:189-224 | one pass adds row i to all sixteen lookup columns |
| `AesTables.Tables.GenTabs` | kernel/linux/crypto/aes.c:156-225 | from arbitrary memory, gen_tabs builds every table the ciphers use |
| `AesRounds.LookupsAreRound` | kernel/linux/crypto/aes.c:126-154 | four table lookups xored with a key word are substitution, column mixing and key addition of one column, for normal and last rounds in both directions |
| `AesRounds.ForwardColumns` | kernel/linux/crypto/aes.c:126-154 | the byte positions read by the forward macros are ShiftRows |
| `AesRounds.InverseColumns` | kernel/linux/crypto/aes.c:126-154 | the byte positions read by the inverse macros are InvShiftRows |
| `AesRounds.RoundWord` | kernel/linux/crypto/aes.c:126-136 | one output word is the round column of the four bytes read |
| `AesRounds.ForwardWords` | kernel/linux/crypto/aes.c:328-339 | f_nround computes one full round of section 5.1 of FIPS 197 on the four words |
| `AesRounds.InverseWords` | kernel/linux/crypto/aes.c:380-392 | i_nround computes one full round of the equivalent inverse cipher |
| `AesKey.ColumnStarX` | kernel/linux/crypto/aes.c:227 | star_x doubles all four bytes of a word in the field at once |
| `AesKey.ImixIsInvMixColumn` | kernel/linux/crypto/aes.c:227-237 | imix_col is InvMixColumns on every word |
| `AesKey.LsBox` | kernel/linux/crypto/aes.c:138-142 | ls_box is SubWord |
| `AesKey.Chain` | kernel/linux/crypto/aes.c:241-270 | each xor with the word nk back appends the next word of the FIPS 197 schedule |
| `AesKey.Core` | kernel/linux/crypto/aes.c:241-243 | rotation, ls_box and rco give the schedule's temporary word at a multiple of nk |
| `AesKey.Loop4` | kernel/linux/crypto/aes.c:241-248 | one loop4 appends four schedule words for a 128-bit key |
| `AesKey.Loop6` | kernel/linux/crypto/aes.c:249-258 | one loop6 appends six schedule words for a 192-bit key |
| `AesKey.Loop8` | kernel/linux/crypto/aes.c:259-270 | one loop8 appends eight schedule words for a 256-bit key, the middle SubWord included |
| `Aes.Context.LoadKey` | kernel/linux/crypto/aes.c:285-308 | the first words of E are the key bytes as columns |
| `Aes.Context.ExpandKey` | kernel/linux/crypto/aes.c:285-312 | E holds the whole key expansion of section 5.2 of FIPS 197 for all three key sizes |
| `Aes.Context.InvertKey` | kernel/linux/crypto/aes.c:314-321 | D holds the schedule with InvMixColumns applied to the middle rounds |
| `Aes.Context.SetKey` | kernel/linux/crypto/aes.c:272-324 | succeeds exactly for 16, 24 and 32 byte keys with both schedules right, and otherwise leaves the context as it was |
| `Aes.Context.EncryptRound` | kernel/linux/crypto/aes.c:328-339 | one round moves the state from after round r to after round r + 1 |
| `Aes.Context.EncryptTen` | kernel/linux/crypto/aes.c:362-371 | the ten rounds every key size shares end in the cipher's result |
| `Aes.Context.Encrypt` | kernel/linux/crypto/aes.c:341-377 | for every key and block the table-driven code computes the Cipher of section 5.1 of FIPS 197, also in place, and no byte past the block changes |
| `Aes.Context.DecryptRound` | kernel/linux/crypto/aes.c:380-392 | one inverse round, reading the schedule backwards |
| `Aes.Context.DecryptTen` | kernel/linux/crypto/aes.c:416-425 | the ten shared inverse rounds end in the inverse cipher's result |
| `Aes.Context.Decrypt` | kernel/linux/crypto/aes.c:394-431 | computes the equivalent inverse cipher of section 5.3.5 of FIPS 197 |
| `Aes.EncryptDecrypt` | kernel/linux/crypto/aes.c:272-431 | for every 16, 24 or 32 byte key and every block, set_key, encrypt and decrypt give the block back |
| `AesLaws.FieldExamples` | kernel/linux/crypto/aes.c:116-124 | the products of the examples in section 4.2 of FIPS 197 |
| `AesLaws.SboxIs` | kernel/linux/crypto/aes.c:181-187 | every bit of the S-box is given by equation 5.1 of FIPS 197 from the inverse of the byte |
| `AesLaws.BlockIs` | kernel/linux/crypto/aes.c:93-94 | byte r + 4c of a block is in row r of column c |
| `AesLaws.KeyIs` | kernel/linux/crypto/aes.c:285-308 | a key word is four bytes of the key |
| `AesLaws.FirstIs` | kernel/linux/crypto/aes.c:347-350 | word c of the key is added to column c of the block |
| `AesLaws.MixIs` | kernel/linux/crypto/aes.c:189-224 | equation 5.6 of FIPS 197 for every byte of a column |
| `AesLaws.RoundIs` | kernel/linux/crypto/aes.c:328-332 | column c after round n, from the bytes of the four columns before it and word 4n + c of the key |
| `AesLaws.LastIs` | kernel/linux/crypto/aes.c:334-339 | the last round, the tenth, twelfth or fourteenth, without column mixing |
| `AesLaws.RconIs` | kernel/linux/crypto/aes.c:175-179 | the ten round constants |
| `AesLaws.ScheduleIs` | kernel/linux/crypto/aes.c:241-312 | after set_key every byte of every word of E satisfies the recurrence of section 5.2 of FIPS 197 for its key size, rotation, substitutions and round constants included |
| `AesLaws.ExampleA1` | kernel/linux/crypto/aes.c:241-248 | word 4 of the key of appendix A.1 of FIPS 197 |
| `AesLaws.ExampleA2` | kernel/linux/crypto/aes.c:249-258 | word 6 of the key of appendix A.2 |
| `AesLaws.ExampleA3` | kernel/linux/crypto/aes.c:259-270 | words 8 and 12 of the key of appendix A.3 |
| `BitCodec.OredPacks` | hostTools/squashfs/mksquashfs.h:38-46 | shifting a value and OR-ing its bytes in sets exactly the bits of the field and keeps all others |
| `BitCodec.Pack` | hostTools/squashfs/mksquashfs.h:30-46 | the packing macro adds one field to the bytes, in either byte order |
| `BitCodec.Unpack` | hostTools/squashfs/read_fs.h:30-47 | the unpacking macro returns the bits of the field, for any bit offset |
| `BitCodec.RoundTrip` | hostTools/squashfs/squashfs_fs.h:262-363 | every field of a packed structure reads back as the value stored, for every layout of non-overlapping fields |
| `BitCodec.PackAll` | hostTools/squashfs/squashfs_fs.h:262-363 | a swap macro's field sequence, started on zeroed bytes, leaves every field set and nothing else |
| `BitCodec.UnpackAll` | hostTools/squashfs/read_fs.h:30-48 | reading all fields gives the decoded value of each |
| `BitCodec.PackUnpack` | hostTools/squashfs/squashfs_fs.h:262-363 | packing then unpacking any structure returns all values, whatever the destination held before |
| `BitCodec.ConsecutiveLayout` | hostTools/squashfs/squashfs_fs.h:262-363 | consecutive fields no wider than 64 bits with their bit offset form such a layout |
| `BitCodec.SuperBlockLayout` | hostTools/squashfs/squashfs_fs.h:262-283 | the superblock layout is one |
| `BitCodec.InodeLayouts` | hostTools/squashfs/squashfs_fs.h:285-303 | so are the base, device and symlink inode layouts |
| `BitCodec.FileLayouts` | hostTools/squashfs/squashfs_fs.h:305-320 | so are the file and directory inode layouts |
| `BitCodec.DirectoryLayouts` | hostTools/squashfs/squashfs_fs.h:322-339 | so are the directory header, directory entry and fragment entry layouts |
| `BitCodec.RowLayout` | hostTools/squashfs/squashfs_fs.h:341-363 | so are the array swaps of n items |
| `BitCodec.EncodedBit` | hostTools/squashfs/mksquashfs.h:38-46 | in which byte and at which place of it bit k of value i of a packed structure lies, in both byte orders |
| `BitCodec.LayoutsAre` | hostTools/squashfs/squashfs_fs.h:174-252 | the positions of the swap macros are those of the packed structures as they are declared |
| `BitCodec.SuperBlockIs` | hostTools/squashfs/squashfs_fs.h:152-172 | likewise for the superblock |
| `BitCodec.EncodePacked` | hostTools/squashfs/mksquashfs.h:30-47 | the encoded bytes of a structure have every field set |
| `BitCodec.PackedIsEncode` | hostTools/squashfs/mksquashfs.h:30-47 | and are the only bytes that do |
| `BitCodec.PackStruct` | hostTools/squashfs/squashfs_fs.h:262-363 | the macro run on fresh bytes gives that encoding |
| `MetaBlocks.MangleSize` | hostTools/squashfs/mksquashfs.c:343-408 | the size word of a mangled block always tells its stored length and whether to decompress, including 8192 bytes stored as they are |
| `MetaBlocks.MangleIs` | hostTools/squashfs/mksquashfs.c:343-408 | a block is compressed exactly if that is wanted and makes it shorter, and bit 15 of its size says that it is not |
| `MetaBlocks.SizeIs` | hostTools/squashfs/squashfs_fs.h:99-103 | bit 15 of a size word is the flag for not compressed, the rest the size, 0 standing for 32768 |
| `MetaBlocks.SizeWordIs` | hostTools/squashfs/mksquashfs.c:425-431 | bit k of the size is bit k mod 8 of its low or high byte, in the order of the image |
| `MetaBlocks.EncodeBlockIs` | hostTools/squashfs/mksquashfs.c:425-434 | a stored block is its size, the marker byte 0xff if there are marker bytes, and the bytes |
| `MetaBlocks.SizeWordBack` | hostTools/squashfs/read_fs.c:53-75 | the two size bytes are read back in either byte order |
| `MetaBlocks.ReadBlockBack` | hostTools/squashfs/read_fs.c:53-94 | read_block on a mangled block returns its content and the start of the next one |
| `MetaBlocks.WalkEncoded` | hostTools/squashfs/read_fs.c:97-121 | reading blocks until the end of a table gives the concatenation of all blocks |
| `MetaBlocks.ScanBlocks` | hostTools/squashfs/read_fs.c:97-121 | the scan loop computes that walk, and the offset at which the root inode's block begins |
| `MetaBlocks.EncodeBlocksAppend` | hostTools/squashfs/mksquashfs.c:343-408 | tables of blocks append |
| `MetaStream.Stream.GrowTable` | hostTools/squashfs/mksquashfs.c:417-423 | the reallocated table keeps its bytes and has room for one more block |
| `MetaStream.Stream.StoreBlock` | hostTools/squashfs/mksquashfs.c:425-434 | one mangled block with its size word is appended and nothing else moves |
| `MetaStream.Stream.Append` | hostTools/squashfs/mksquashfs.c:425-434 | bytes appended to the table come after all others |
| `MetaStream.Stream.FlushFull` | hostTools/squashfs/mksquashfs.c:416-438 | flushing one full block keeps the concatenated stream, the bytes being moved down |
| `MetaStream.Stream.MoveDown` | hostTools/squashfs/mksquashfs.c:436-437 | the cache without its first block, at the start of the buffer |
| `MetaStream.CopyApart` | hostTools/squashfs/mksquashfs.c:436 | the copy reads no place that it writes if and only if the cache holds at most 16384 bytes |
| `MetaStream.AddFileInode` | hostTools/squashfs/mksquashfs.c:640-660 | after the inode of a file the next such copy is one that memcpy allows if and only if the offset of the inode and its size add up to at most 16384 bytes; for a file of 4091 blocks or more it never is |
| `MetaStream.Stream.GetInode` | hostTools/squashfs/mksquashfs.c:411-456 | however large the request and the cache, the stream is unchanged, all stored blocks are full and the record starts below 8192 in the cache |
| `MetaStream.Stream.Reserve` | hostTools/squashfs/mksquashfs.c:441-453 | the cache grows exactly if it has to and the bytes are counted, with a state to be interrupted at after each |
| `MetaStream.Stream.FillIn` | hostTools/squashfs/mksquashfs.c:650-660 | the record goes to its reserved place and nothing before it changes |
| `MetaStream.Stream.AddRecord` | hostTools/squashfs/mksquashfs.c:240 | the stream grows by exactly the record; the MKINODE reference holds the byte position of the current block and an offset below 8192, so it fits thirteen bits, and names the old end of the stream; the cache is left with offset and record |
| `MetaStream.RefStays` | hostTools/squashfs/mksquashfs.c:240 | a reference once given stays right whatever is appended later |
| `MetaStream.RefResolves` | hostTools/squashfs/read_fs.c:53-121 | reading from the block a reference names, its offset is where the record starts |
| `MetaStream.Stream.StoreNext` | hostTools/squashfs/mksquashfs.c:501-521 | each pass of the flush loop moves one block from cache to table |
| `MetaStream.Stream.WriteTable` | hostTools/squashfs/mksquashfs.c:494-563 | after write_inodes or write_directories, reading the table back from the disk gives exactly the concatenated records |
| `MetaStream.Stream.Finish` | hostTools/squashfs/mksquashfs.c:494-563 | and every reference ever handed out resolves to its record on that disk |
| `MetaStream.Stream.FromTable` | hostTools/squashfs/read_fs.c:430-469 | a stream opened on an existing table continues it |
| `MetaStream.TrailSteps` | hostTools/squashfs/mksquashfs.c:411-563 | between any two recorded points of a run the buffers differ only by growth |
| `MetaStream.KeptAlong` | hostTools/squashfs/mksquashfs.c:306-328 | what the save block needs survives every assignment of every operation |
| `MetaStream.Stream.Interrupt` | hostTools/squashfs/mksquashfs.c:331-334 | the state at any statement at which the second signal can call restorefs |
| `MetaStream.Stream.Restore` | hostTools/squashfs/mksquashfs.c:306-328 | from any such state the saved counters and cache give back the original stream |
| `Restore.CutAt` | hostTools/squashfs/read_fs.c:430-469 | cutting a table at the root's block gives two well-formed tables and loses nothing |
| `Restore.ReadUpTo` | hostTools/squashfs/read_fs.c:303-312 | reading the directory blocks yields a prefix of the table at least as long as asked |
| `Restore.OpenStream` | hostTools/squashfs/read_fs.c:430-469 | the kept prefix and the uncompressed rest together are the original table |
| `Restore.ReadFilesystem` | hostTools/squashfs/read_fs.c:392-498 | both streams are opened so that appending can start, with the root inode and the root listing dropped from the caches unless they are to be kept under a name |
| `Restore.AppendAll` | hostTools/squashfs/mksquashfs.c:1207-1245 | any sequence of appended records, of file data at the write position and of low-memory hits that put it back keeps the saved state usable and leaves the data area that AreaAfter says |
| `Restore.LowestKept` | hostTools/squashfs/mksquashfs.c:1217-1241 | nothing before the lowest write position ever changes |
| `Restore.NoLowHit` | hostTools/squashfs/mksquashfs.c:1217-1241 | without a hit below the saved end all old data is there |
| `Restore.CutLoses` | hostTools/squashfs/mksquashfs.c:1239-1241 | after a cut below the saved end the old data is there if and only if only zeros were cut off |
| `Restore.SafeExactly` | hostTools/squashfs/mksquashfs.c:1217-1241 | the old data is there whatever is written next if and only if it is there now and the write position is not below the saved end |
| `Restore.AbortStream` | hostTools/squashfs/mksquashfs.c:306-328 | one restored and written table decodes to the original one |
| `Restore.Abort` | hostTools/squashfs/mksquashfs.c:306-328 | restorefs from any pair of states along the run writes both tables so that they decode to the original streams, leaves the data area as it finds it, filled up with zeros if it was cut, and lets a reader find the root if and only if the superblock still has the original root; the image can then be appended to again |
| `Restore.AppendAndAbort` | hostTools/squashfs/mksquashfs.c:2079-2148 | open an image, append anything, write any file data over its tables and run into any low-memory hits, abort with each stream at any state between two assignments that it has been through: both tables read as before; the old data is unchanged up to the lowest hit, and all of it is there if and only if it was there when the abort came; the root is found if and only if the new root was not yet in the superblock, or took the very place of the old one because nothing came before it |
| `Restore.ReplaceRoot` | hostTools/squashfs/mksquashfs.c:2128-2134 | the new root has the number of the old one exactly when it is at the same position of the inode stream |
| `Restore.RootFoundExactly` | hostTools/squashfs/read_fs.c:97-121 | of all numbers with an offset inside a block only the root's own leads a reader to the root |
| `Restore.RestoredRoot` | hostTools/squashfs/mksquashfs.c:306-328 | a restored image is well formed again if the root reference is the original one |
| `Directory.HeaderExactly` | hostTools/squashfs/squashfs_fs.h:322-326 | count and start block of a header read back if and only if they fit 8 and 24 bits |
| `Directory.FieldsExactly` | hostTools/squashfs/squashfs_fs.h:328-333 | offset, type and name size of an entry read back if and only if they fit 13, 3 and 8 bits; an empty name would be read as 256 bytes |
| `Directory.EncodeEntriesAppend` | hostTools/squashfs/mksquashfs.c:757-811 | encoded entries grow at the end |
| `Directory.EncodeRunsAppend` | hostTools/squashfs/mksquashfs.c:757-811 | encoded runs and their entries grow at the end |
| `Directory.ReadEntries` | hostTools/squashfs/read_fs.c:330-344 | the inner loop reads back exactly the entries written under a header and stops right after them; when the table ends before they do, it passes the end |
| `Directory.EntryBack` | hostTools/squashfs/read_fs.c:330-344 | the first entry of a run is recovered: name, inode number rebuilt from start block and offset, type |
| `Directory.ReadDir` | hostTools/squashfs/read_fs.c:294-349 | told the right size it returns all entries in order; told a size short by the length of 256 entries it returns fewer, wherever the table ends |
| `Directory.RunBack` | hostTools/squashfs/read_fs.c:318-328 | the first header is recovered and the next run follows its entries |
| `Directory.PackHeader` | hostTools/squashfs/squashfs_fs.h:322-326 | the header macro writes that encoding |
| `Directory.PackFields` | hostTools/squashfs/squashfs_fs.h:328-333 | the entry macro writes that encoding |
| `Directory.Builder.constructor` | hostTools/squashfs/mksquashfs.c:744-754 | an empty listing |
| `Directory.Builder.FillHeader` | hostTools/squashfs/mksquashfs.c:783-792 | the deferred header is filled in with the number of entries and the block of its run, making the bytes a complete encoding |
| `Directory.Builder.OpenHeader` | hostTools/squashfs/mksquashfs.c:794-797 | room is left for the next header |
| `Directory.Builder.AddEntry` | hostTools/squashfs/mksquashfs.c:800-810 | an entry is appended to the open run |
| `Directory.Builder.MakeRoom` | hostTools/squashfs/mksquashfs.c:770-780 | the buffer always has room for a header and the longest entry |
| `Directory.Builder.NextRun` | hostTools/squashfs/mksquashfs.c:782-798 | a run is closed only after 256 entries or when the block changes |
| `Directory.Builder.AddDir` | hostTools/squashfs/mksquashfs.c:757-811 | the listing grows by exactly the entry, its name cut at 256 bytes, and stays made of headers with 1 to 256 entries |
| `Directory.Builder.Close` | hostTools/squashfs/mksquashfs.c:814-866 | the finished bytes encode the entries in order, and no other grouping the format allows has fewer headers |
| `Directory.BuildListing` | hostTools/squashfs/mksquashfs.c:744-866 | the same for any list of entries |
| `Directory.GroupedIsFewest` | hostTools/squashfs/mksquashfs.c:782-798 | starting a header only on another block or after 256 entries gives the fewest headers |
| `Directory.RunsSize` | hostTools/squashfs/mksquashfs.c:757-811 | a listing takes at most 263 bytes for each entry |
| `Filesystem.DirInodeBack` | hostTools/squashfs/squashfs_fs.h:314-320 | a directory inode keeps size, offset and start block modulo 2^19, 2^13 and 2^24 |
| `Filesystem.SizeLost` | hostTools/squashfs/mksquashfs.c:667-674 | a listing of 2^19 bytes is stored with size 0 |
| `Filesystem.WriteDir` | hostTools/squashfs/mksquashfs.c:814-866 | the listing is appended to the directory table and an inode with its cut size and place to the inode table; the number returned is the position of that inode |
| `Filesystem.WriteTables` | hostTools/squashfs/mksquashfs.c:2144-2148 | both tables are in the file one after the other, hold exactly the streams, and nothing before them changes |
| `Filesystem.WriteImage` | hostTools/squashfs/mksquashfs.c:2128-2148 | the root inode is the last of its table and the listing it is about the last of the other |
| `Filesystem.WrittenWellFormed` | hostTools/squashfs/read_fs.c:392-498 | such an image can be read and appended to if and only if the listing is under 2^19 bytes and its block under 2^24 |
| `Filesystem.RootPlace` | hostTools/squashfs/read_fs.c:412-431 | the place, offset and size read from the stored root inode are those of the listing modulo 2^24, 2^13 and 2^19, so the block is the right one if and only if it lies under 2^24 |
| `Filesystem.ReadRootBlocks` | hostTools/squashfs/read_fs.c:294-312 | wherever the listing is, if the place read is that of the j-th block, the directory is taken from the j-th block on |
| `Filesystem.ReadRoot` | hostTools/squashfs/read_fs.c:412-431 | the entries of the root come back from the stored fields if and only if the listing is under 2^19 bytes, its block being under 2^24 |
| `Filesystem.ListingAtLeast` | hostTools/squashfs/mksquashfs.c:757-811 | a listing takes at least four bytes for each entry, so 131072 entries never fit |
| `Filesystem.WriteAndReadBack` | hostTools/squashfs/read_fs.c:294-349 | for any entries with fields in range, after write_dir, both tables and scan_inode_table the block read is the one at the place of the listing modulo 2^24; with the place under 2^24, squashfs_readdir gives the same names, inodes and types in the same order if and only if the listing is under 2^19 bytes |
| `Fragments.MangleBlockBack` | hostTools/squashfs/squashfs_fs.h:105-109 | the size word of a data block tells length and compression, so the block unmangles to its content |
| `Fragments.GetChecksum` | hostTools/squashfs/mksquashfs.c:1055-1073 | the 16-bit rotate-and-add checksum over the pieces is that of the whole |
| `Fragments.ChecksumIs` | hostTools/squashfs/mksquashfs.c:1055-1073 | a further byte rotates the sum right by one bit in sixteen and is added modulo 2^16 |
| `Fragments.MangleBlockIs` | hostTools/squashfs/mksquashfs.c:343-408 | a data block is compressed exactly if that is wanted and makes it shorter, and bit 24 of its size says that it is not |
| `Fragments.SizeBlockIs` | hostTools/squashfs/squashfs_fs.h:105-109 | bit 24 of a block size is the flag for not compressed, the other bits the size, 0 standing for 2^24 |
| `Fragments.SameRun` | hostTools/squashfs/mksquashfs.c:1114-1127 | the piecewise comparison with the file holds exactly when the stored bytes are equal |
| `Fragments.NamesStay` | hostTools/squashfs/mksquashfs.c:909-935 | a fragment handle keeps naming its bytes when its block grows or is flushed |
| `Fragments.AllStoredStay` | hostTools/squashfs/mksquashfs.c:1170-1262 | everything handed out before keeps its bytes when the disk and fragments grow |
| `Fragments.OneMoreIndexed` | hostTools/squashfs/mksquashfs.c:1143-1163 | the hash chains stay complete when a file is put at the head of one |
| `Fragments.Files.WriteOut` | hostTools/squashfs/mksquashfs.c:475-491 | fails exactly beyond 2^32 - 1 bytes; otherwise appends and keeps what was there |
| `Fragments.Files.WriteFragment` | hostTools/squashfs/mksquashfs.c:938-959 | flushing the fragment block changes where its bytes live, not what any handle names |
| `Fragments.Files.GetAndFillFragment` | hostTools/squashfs/mksquashfs.c:962-983 | the handle returned names the tail, before and after any later flush |
| `Fragments.Files.GetFragment` | hostTools/squashfs/mksquashfs.c:909-935 | a handle resolves to the bytes first stored, from memory or from disk |
| `Fragments.Files.SameFile` | hostTools/squashfs/mksquashfs.c:1113-1139 | a recorded file is judged the same exactly when stored bytes and tail are |
| `Fragments.Files.Find` | hostTools/squashfs/mksquashfs.c:1112-1140 | the chain is searched without missing a match |
| `Fragments.Files.LookFor` | hostTools/squashfs/mksquashfs.c:1104-1140 | a hit names stored bytes and a tail identical to the new ones; a miss means no recorded file at all has both |
| `Fragments.Files.Duplicate` | hostTools/squashfs/mksquashfs.c:1104-1166 | the same, and a miss adds the file to its chain while a hit changes nothing |
| `Fragments.Files.StoreFile` | hostTools/squashfs/mksquashfs.c:1234-1247 | on a miss the stored bytes and the tail are where the record will say |
| `Fragments.Files.WriteFile` | hostTools/squashfs/mksquashfs.c:1170-1262 | over any run of file writes, start and fragment given to an inode name exactly its stored bytes and keep doing so; with duplicate checking a file is shared if and only if one with equal stored bytes and tail was recorded, and then nothing is written and the block list of that one is handed on; no two records agree in both; nothing fails while there is room |
| `Fragments.Files.WriteFileInPieces` | hostTools/squashfs/mksquashfs.c:1217-1245 | the low-memory branch: a new file is stored as safely; on a hit the write position goes back to the file found, and what was stored before stays in the part in use if and only if all of it lies before that place, which is never so for a file with stored bytes; on a block device its bytes are still there, otherwise they are cut off |
| `Fragments.NextWrite` | hostTools/squashfs/mksquashfs.c:475-491 | the next write after such a hit: on a block device the file found survives if and only if its bytes agree with those written; where it was cut off, it is back if and only if they begin with it |
| `Fragments.CutOff` | hostTools/squashfs/mksquashfs.c:1239-1241 | cutting the file at a place keeps every recorded and written file if and only if all of them end before it |
| `Fragments.Files.FillAndKeep` | hostTools/squashfs/mksquashfs.c:1247-1249 | the tail of a stored file is packed and its stored bytes stay |
| `Fragments.Files.SetFragment` | hostTools/squashfs/mksquashfs.c:1248-1249 | the fragment is set in the record that is at the head of its chain |
| `FileData.StoreBlocks` | hostTools/squashfs/mksquashfs.c:1208-1216 | the block loop gives the stored bytes of all blocks and their size words |
| `FileData.ReadBlocksBack` | hostTools/squashfs/mksquashfs.c:1208-1216 | blocks read with their own list come back |
| `FileData.CutBack` | hostTools/squashfs/mksquashfs.c:1208-1216 | the blocks joined are the file |
| `FileData.TailSizeIs` | hostTools/squashfs/mksquashfs.c:1183-1187 | a file shorter than a block goes to a fragment whole, a longer one only with its end and only if that is asked for, and none if fragments are off |
| `FileData.CutIs` | hostTools/squashfs/mksquashfs.c:1208-1211 | all blocks of a file but the last have the block size, and none is empty |
| `FileData.SharedList` | hostTools/squashfs/mksquashfs.c:1113-1138 | of two files with the same stored bytes, the list of one reads as the other if and only if the lists are equal, and then the files are |
| `FileData.WrongShare` | hostTools/squashfs/mksquashfs.c:1113-1138 | from an empty filesystem with a sound compressor, write_file on a file of two zeros and then on one of a seven: the inode of the second does not read as it |
| `FileData.WriteContent` | hostTools/squashfs/mksquashfs.c:1170-1262 | over any run of file writes, the inode of a file reads as its blocks if and only if, before the call, duplicates were not looked for or the file recorded with the same stored bytes and tail, if any, has the same block list; the tail is named by its fragment in any case; nothing fails while there is room |
| `FileData.ListedOnly` | hostTools/squashfs/mksquashfs.c:1113-1138 | as no two records agree in stored bytes and tail, the list handed on by a hit is the own one if and only if every such record has it |
| `Aio.RingSlots` | kernel/linux/fs/aio.c:99-123 | the ring has at least two slots more than the requests asked for, after rounding up to pages |
| `Aio.RingIsPages` | kernel/linux/fs/aio.c:99-123 | the ring fills whole pages of 128 places of 32 bytes, one of them the header, and takes no page more than it must |
| `Aio.AvailIsFree` | kernel/linux/include/linux/aio.h:102 | aio_ring_avail is the number of slots less one less the unread events, and head meets tail exactly when all events are read |
| `Aio.SlotsApart` | kernel/linux/fs/aio.c:668-690 | fewer than nr consecutive events occupy different slots |
| `Aio.CompleteKeeps` | kernel/linux/fs/aio.c:668-718 | storing a completion in the next slot keeps every unread event |
| `Aio.RequestAdded` | kernel/linux/fs/aio.c:382-422 | reserving a request keeps the request accounting |
| `Aio.HolderGone` | kernel/linux/fs/aio.c:482-508 | dropping the first of two holders keeps it |
| `Aio.LastHolderGone` | kernel/linux/fs/aio.c:482-508 | dropping the last one does, with the request freed or its file put deferred |
| `Aio.Kioctx.constructor` | kernel/linux/fs/aio.c:198-247 | a new context satisfies the invariant of every reachable state |
| `Aio.Kioctx.Get` | kernel/linux/include/linux/aio.h:161 | with a user left the BUG check does not fire |
| `Aio.Kioctx.Lookup` | kernel/linux/fs/aio.c:529-545 | a lookup of a live context takes one reference |
| `Aio.Kioctx.GetReq` | kernel/linux/fs/aio.c:382-422 | a request is granted exactly when active requests are below the free slots; otherwise nothing changes |
| `Aio.Kioctx.Reserve` | kernel/linux/fs/aio.c:407-412 | a granted request has a holder for its submitter and one for its completion, and the context one user more |
| `Aio.Kioctx.PutReqLocked` | kernel/linux/fs/aio.c:482-508 | the last holder retires the request, or defers it for the file put; no earlier one does |
| `Aio.Kioctx.Retire` | kernel/linux/fs/aio.c:439-453 | the request leaves the active count once, when it is freed |
| `Aio.Kioctx.PutReq` | kernel/linux/fs/aio.c:514-524 | the submitter's reference goes, and a context reference to drop remains exactly when it was the last |
| `Aio.Kioctx.DropReq` | kernel/linux/fs/aio.c:1091-1094 | on a failed submission the I/O reference goes without an event |
| `Aio.Kioctx.Store` | kernel/linux/fs/aio.c:668-704 | the event goes to the tail of the ring and to the end of the log, and no unread event is overwritten |
| `Aio.Kioctx.Complete` | kernel/linux/fs/aio.c:634-709 | the locked part of a completion: the event is appended to the log, the request loses one holder, and the completion is left to wake the readers, with a reference to the context if and only if the submitter had let go of the request |
| `Aio.Kioctx.Wake` | kernel/linux/fs/aio.c:711-715 | the wake-up of a completion with a reference finds the context not freed, and leaves the reference to be put |
| `Aio.Kioctx.WakeBare` | kernel/linux/fs/aio.c:711-712 | the wake-up of one without a reference; it is late exactly if the context has been freed |
| `Aio.Kioctx.ReadCopy` | kernel/linux/fs/aio.c:726-747 | under the ring lock a reader copies the oldest unread event, or finds none exactly when all are read |
| `Aio.Kioctx.ReadAdvance` | kernel/linux/fs/aio.c:748-752 | then it takes that event off the ring, whatever completions came in between: the event it has is the one next in the log |
| `Aio.Kioctx.FputOne` | kernel/linux/fs/aio.c:455-477 | the deferred put frees the request once |
| `Aio.Kioctx.Kill` | kernel/linux/fs/aio.c:904-928 | however many destroys race, only the first drops the list's reference |
| `Aio.Kioctx.Release` | kernel/linux/fs/aio.c:904-928 | a lookup's reference becomes one to drop |
| `Aio.Kioctx.Put` | kernel/linux/include/linux/aio.h:162 | the decrement: the context is freed exactly when it was the last user, and then it is dead, with no active request and no reference left, so the check of __put_ioctx does not fire; any other put is left to look at the count again |
| `Aio.Kioctx.Check` | kernel/linux/include/linux/aio.h:162 | the second look finds no negative count; it is late exactly if the context has been freed meanwhile |
| `Aio.FreedIsQuiet` | kernel/linux/fs/aio.c:355-369 | all that is still possible on a freed context is the wake-up of a completion without a reference and the second look of a put that was not the last; nothing at all if no completion came before its submitter had let go and no look is left |
| `Aio.KeptUntilWoken` | kernel/linux/fs/aio.c:634-718 | a completion whose submitter had let go: through any sections of any tasks the context is not freed before it has woken the readers |
| `Aio.FreedBeforeWoken` | kernel/linux/fs/aio.c:634-718 | a completion whose submitter had not: from every state there is a run of sections that frees the context before it has woken the readers |
| `Aio.Take` | kernel/linux/fs/aio.c:382-760 | every step, in any order, does what its section does if some task can run it, keeps the invariant, reads what is next in the log and forgets no wake-up |
| `Aio.Run` | kernel/linux/fs/aio.c:382-760 | over every interleaving on one context, what readers received is the log of completions from its start, in order and each once; uncompleted requests never exceed the free slots; users are at least the active requests; no BUG fires |
| `Aio.LateWake` | kernel/linux/fs/aio.c:634-718 | such a run from a new context to the late wake-up |
| `Aio.KeptUntilChecked` | kernel/linux/include/linux/aio.h:162 | after a put with the context on the list, or in use by a system call: through any sections without a destroy, or without the end of a system call, the context is not freed, so the second look is in time |
| `Aio.FreedBeforeChecked` | kernel/linux/include/linux/aio.h:162 | otherwise: from every state with a put that is not the last there is a run of sections that frees the context before its second look |
| `Aio.LateCheck` | kernel/linux/include/linux/aio.h:162 | such a run from a new context to the late look, without any request |
| `Aio.TotalWithout` | kernel/linux/fs/aio.c:198-262 | the sum over live contexts splits off any one of them |
| `Aio.System.AllocAdd` | kernel/linux/fs/aio.c:203-235 | refuses exactly the lengths that would overflow and those above the limit, with different errors, and adds any other before it is known whether it fits |
| `Aio.System.AllocDecide` | kernel/linux/fs/aio.c:236-237 | an allocation goes on exactly when the total read, racing additions included, is not above the limit; otherwise its addition is left to be taken back |
| `Aio.System.AllocLink` | kernel/linux/fs/aio.c:239-243 | an allocation that went on makes a context that is counted from then on |
| `Aio.System.MakeContext` | kernel/linux/fs/aio.c:198-243 | a new context leaves all others alone |
| `Aio.System.PutAt` | kernel/linux/fs/aio.c:355-369 | a put on one context leaves all others alone |
| `Aio.System.PutIoctx` | kernel/linux/fs/aio.c:355-369 | freeing a context leaves its requests to be subtracted |
| `Aio.System.SubReleased` | kernel/linux/fs/aio.c:250-368 | the subtraction of a refused allocation or at the end of a release keeps the sum |
| `Aio.System.TakeAt` | kernel/linux/fs/aio.c:382-928 | a section on one context leaves all others alone, and its readers still have its completions in order |
| `Aio.System.RunSection` | kernel/linux/fs/aio.c:382-928 | and leaves the sum alone |
| `Aio.System.Step` | kernel/linux/fs/aio.c:198-928 | any step of an allocation, a release or a section on any context does what it does, if it can be taken, and keeps the whole system in order |
| `Aio.RunSystem` | kernel/linux/fs/aio.c:198-928 | in every run of a system, with any contexts and racing allocations, destroys and deferred puts: no BUG fires in any context, a context is counted exactly until it is freed and used later only by the wake-up of a completion that came before its submitter had let go or by the second look of a put that was not the last, the readers of each have its completions in order and each once, uncompleted requests never exceed free slots, and between operations aio_nr is the sum of max_reqs over the live contexts |
| `PageIo.FullTurn` | kernel/linux/fs/buffer.c:632-641 | following b_this_page from any buffer back to it visits every buffer of the page |
| `PageIo.MarkedStart` | kernel/linux/fs/buffer.c:2215-2221 | starting a read keeps the marks equal to reads queued or under way |
| `PageIo.MarkedEnd` | kernel/linux/fs/buffer.c:605-656 | so does finishing one, and the mark was still set |
| `PageIo.ReadPage.Busy` | kernel/linux/fs/buffer.c:632-641 | the walk finds another marked buffer exactly when there is one, and otherwise tells whether all are up to date; its BUG check does not fire |
| `PageIo.ReadPage.Arrive` | kernel/linux/fs/buffer.c:605-622 | before the lock, the result of a marked buffer is noted |
| `PageIo.ReadPage.Leave` | kernel/linux/fs/buffer.c:629-642 | under the lock the mark goes, and this completion is to unlock the page exactly when no other buffer is marked |
| `PageIo.ReadPage.Unlock` | kernel/linux/fs/buffer.c:644-651 | after the lock the page is unlocked, once, and its state decided |
| `PageIo.ReadPage.LookUp` | kernel/linux/fs/buffer.c:2161-2187 | a buffer is to be read if and only if it is not up to date and has a block, or gets one that its lookup does not fill; it is mapped if it was or its lookup maps it; a hole or a block past the end is cleared |
| `PageIo.ReadPage.StartNext` | kernel/linux/fs/buffer.c:2215-2221 | a buffer brought up to date meanwhile starts its completion at once, any other its read |
| `PageIo.ReadPage.Gather` | kernel/linux/fs/buffer.c:2161-2187 | the buffers gathered are exactly those to be read, in order, and all others are up to date; exactly the holes and the blocks past the end are cleared, and the page has an error exactly if a lookup failed |
| `PageIo.ReadPage.MarkAll` | kernel/linux/fs/buffer.c:2203-2208 | all of them are locked and marked before any read starts |
| `PageIo.ReadPage.BlockReadFullPage` | kernel/linux/fs/buffer.c:2139-2208 | the buffers to be started are exactly those that have to come from the disk; the page is up to date at once if and only if there is none and no lookup failed, and then every buffer was up to date, was cleared or was filled by its lookup |
| `PageIo.ReadPage.ReadStep` | kernel/linux/fs/buffer.c:605-656 | what each start and each part of a completion does |
| `PageIo.ReadPage.RunRead` | kernel/linux/fs/buffer.c:605-656 | for every order of starts and of the parts of completions the page is unlocked exactly once, only after the last read, and is up to date if and only if all buffers are and no error was seen |
| `PageIo.ReadPage.FinishRead` | kernel/linux/fs/buffer.c:605-656 | from every state of a read the page can still be unlocked |
| `PageIo.WritingStart` | kernel/linux/fs/buffer.c:1877-1899 | marking establishes the submission invariant |
| `PageIo.WritingSubmit` | kernel/linux/fs/buffer.c:1909-1917 | submitting keeps it |
| `PageIo.WritingEnd` | kernel/linux/fs/buffer.c:662-705 | completing keeps it |
| `PageIo.WritePage.Busy` | kernel/linux/fs/buffer.c:690-697 | finds another marked buffer exactly when there is one |
| `PageIo.WritePage.Clear` | kernel/linux/fs/buffer.c:688-689 | mark and lock of the buffer go |
| `PageIo.WritePage.Arrive` | kernel/linux/fs/buffer.c:662-685 | before the lock, the result of a marked buffer is noted |
| `PageIo.WritePage.Leave` | kernel/linux/fs/buffer.c:687-698 | under the lock the mark goes, and this completion is to end writeback exactly when no other buffer is marked |
| `PageIo.WritePage.EndWriteback` | kernel/linux/fs/buffer.c:699-700 | after the lock writeback ends, once |
| `PageIo.WritePage.MapBuffers` | kernel/linux/fs/buffer.c:1846-1875 | up to the first dirty buffer of the file whose lookup fails, exactly the buffers past the end are cleaned and exactly the dirty ones of the file get a block; from there on nothing changes |
| `PageIo.WritePage.MarkOne` | kernel/linux/fs/buffer.c:1877-1898 | one turn of the marking loop |
| `PageIo.WritePage.MarkNormal` | kernel/linux/fs/buffer.c:1877-1899 | exactly the mapped dirty buffers that could be locked are marked, locked and no longer dirty, and the page is dirtied again exactly if one could not be locked |
| `PageIo.WritePage.MarkRecovery` | kernel/linux/fs/buffer.c:1953-1967 | in recovery exactly the mapped dirty buffers are marked, and the others are cleaned |
| `PageIo.WritePage.Begin` | kernel/linux/fs/buffer.c:1905-1907 | the page is under writeback and unlocked before any buffer is submitted |
| `PageIo.WritePage.BlockWriteFullPage` | kernel/linux/fs/buffer.c:1814-1971 | fails if and only if some dirty buffer of the file without a block does not get one; marked to be written are exactly the buffers that were dirty, lie in the file and can be locked, and after a failure the dirty ones of the file before the failing one and the dirty ones that had a block from there on |
| `PageIo.WritePage.SubmitNext` | kernel/linux/fs/buffer.c:1909-1917 | the loop submits each marked buffer once, and cleans it in recovery |
| `PageIo.WritePage.Finish` | kernel/linux/fs/buffer.c:1919-1944 | with nothing submitted the loop ends writeback itself, and the page is up to date then if all its buffers are |
| `PageIo.WritePage.WriteStep` | kernel/linux/fs/buffer.c:662-705 | what each submission, each part of a completion and the return does |
| `PageIo.WritePage.RunWrite` | kernel/linux/fs/buffer.c:662-705 | for every order of submissions and of the parts of completions, on the normal, recovery and nothing-submitted paths, writeback ends exactly once and never while a marked buffer is unsubmitted or unfinished |
| `PageIo.WritePage.FinishWrite` | kernel/linux/fs/buffer.c:662-705 | from every state of a write the writeback can still end |
| `PageWriters.StepsKeep` | kernel/linux/fs/buffer.c:1905-1944 | several calls on one page stay safe through any steps of their loops and any completions |
| `PageWriters.SafeIs` | kernel/linux/fs/buffer.c:662-705 | what safe means, and that the checks fire exactly if writeback is already up when a call begins, or a completing buffer is not marked |
| `PageWriters.SpacedIsSafe` | kernel/linux/fs/buffer.c:1814-1944 | any number of calls, each begun without writeback and marking only buffers that every running loop has passed, keep the page safe: no buffer written twice at once, writeback up while any is marked, ended once for each call |
| `PageWriters.ExactlyPassed` | kernel/linux/fs/buffer.c:1905-1917 | a call may begin while an earlier loop is still running if and only if every buffer it marks is behind every such loop; otherwise some run submits a buffer twice |
| `PageWriters.FirstDone` | kernel/linux/fs/buffer.c:1905-1917 | the page can be free of writeback while the loop of its first call is half way |
| `PageWriters.BothSubmit` | kernel/linux/fs/buffer.c:1905-1917 | a second call then marks the buffer ahead of that loop, and both loops submit it |
| `BhLru.InstallList` | kernel/linux/fs/buffer.c:1443-1480 | installing is move-to-front with at most one eviction, and only when the buffer was not there and the list was full |
| `BhLru.LookupList` | kernel/linux/fs/buffer.c:1485-1514 | a hit moves the match to the front and a miss means nothing matches |
| `BhLru.MovedMembers` | kernel/linux/fs/buffer.c:1443-1480 | after a move to front a buffer is there at most once and only the evictee is gone |
| `BhLru.HeldUpdate` | kernel/linux/fs/buffer.c:1423-1480 | the number of LRUs holding a buffer follows a change of one list |
| `BhLru.CountsMoved` | kernel/linux/fs/buffer.c:1443-1480 | taking a reference for the new front and dropping the evictee's keeps every count equal to its holders |
| `BhLru.FindBlockUnique` | kernel/linux/fs/buffer.c:498-538 | a page's buffer list holds a block once |
| `BhLru.BufferCache.Brelse` | kernel/linux/fs/buffer.c:1358-1366 | with a holder left the warning does not fire |
| `BhLru.BufferCache.Install` | kernel/linux/fs/buffer.c:1443-1476 | the locked part on the cache: counts stay right, the other CPUs' lists do not change, and the reference of what falls off the end is the caller's to release |
| `BhLru.KeptEvictee` | kernel/linux/fs/buffer.c:1443-1480 | the counts are right with the evictee's reference in the hands of the caller, before it is released |
| `BhLru.BufferCache.Search` | kernel/linux/fs/buffer.c:1485-1514 | the match found has the device, block and size asked for, and without one no buffer of the list has |
| `BhLru.BufferCache.LookupLru` | kernel/linux/fs/buffer.c:1485-1514 | a hit is the very buffer the slow lookup would return, with one more holder |
| `BhLru.BufferCache.SlowAgrees` | kernel/linux/fs/buffer.c:498-538 | any buffer with a device is what the slow lookup finds for its device and block |
| `BhLru.BufferCache.WalkPage` | kernel/linux/fs/buffer.c:511-524 | the locked walk of a page found earlier gives the slow lookup's buffer while the page is still the cached one, with one more holder |
| `BhLru.BufferCache.FindGetBlock` | kernel/linux/fs/buffer.c:1521-1534 | fast or slow, the result is the slow lookup's, with one more holder if it is found and no other change of holders once the evictee is released |
| `BhLru.BufferCache.Invalidate` | kernel/linux/fs/buffer.c:1595-1605 | the list of the CPU is emptied and its references dropped, and the lists of the others stay |
| `BhLru.BufferCache.Discard` | kernel/linux/fs/buffer.c:1631-1641 | a discarded buffer has no device, so no later lookup can hit it |
| `BhLru.BufferCache.DropBuffers` | kernel/linux/fs/buffer.c:2890-2923 | succeeds exactly when no buffer of the page is busy, and then none of them was in any LRU |
| `BhLru.BufferCache.AttachBuffer` | kernel/linux/fs/buffer.c:1174-1196 | a buffer for a block of a cached page that has none keeps everything in order |
| `BhLru.BufferCache.Revive` | kernel/linux/fs/buffer.c:1184-1192 | so does giving a buffer without a device one again, with a block that no other buffer of its page has |
| `BhLru.BufferCache.AddPage` | kernel/linux/fs/buffer.c:1204-1251 | so does a page that enters the cache |
| `BhLru.BufferCache.RemovePage` | kernel/linux/fs/buffer.c:1631-1641 | and a page that leaves it after its buffers were discarded |
| `BhLru.StepLists` | kernel/linux/fs/buffer.c:1423-1641 | what each section on the LRUs and the references does |
| `BhLru.StepBuffers` | kernel/linux/fs/buffer.c:1174-1641 | what each section on pages and buffers does |
| `BhLru.Step` | kernel/linux/fs/buffer.c:1423-1641 | every section, if a caller can run it, does that and keeps the invariant |
| `BhLru.Run` | kernel/linux/fs/buffer.c:1423-1641 | from no pages and buffers, through any sections of lookups, walks and installs of any callers with pages and buffers coming and going: each LRU holds a buffer at most once and only existing ones, each count is its outside holders plus the LRUs holding it, no release finds zero, and a buffer of a device is what the slow lookup finds |
| `Serpent.S0` | kernel/linux/crypto/serpent.c:66-73 | the boolean program applies the published 4-bit table of S-box 0 to all 32 bit positions, its output found in the rotated registers |
| `Serpent.S1` | kernel/linux/crypto/serpent.c:75-82 | the boolean program applies the published 4-bit table of S-box 1 to all 32 bit positions, its output found in the rotated registers |
| `Serpent.S2` | kernel/linux/crypto/serpent.c:84-91 | the boolean program applies the published 4-bit table of S-box 2 to all 32 bit positions, its output found in the rotated registers |
| `Serpent.S3` | kernel/linux/crypto/serpent.c:93-100 | the boolean program applies the published 4-bit table of S-box 3 to all 32 bit positions, its output found in the rotated registers |
| `Serpent.S4` | kernel/linux/crypto/serpent.c:102-110 | the boolean program applies the published 4-bit table of S-box 4 to all 32 bit positions, its output found in the rotated registers |
| `Serpent.S5` | kernel/linux/crypto/serpent.c:112-119 | the boolean program applies the published 4-bit table of S-box 5 to all 32 bit positions, its output found in the rotated registers |
| `Serpent.S6` | kernel/linux/crypto/serpent.c:121-128 | the boolean program applies the published 4-bit table of S-box 6 to all 32 bit positions, its output found in the rotated registers |
| `Serpent.S7` | kernel/linux/crypto/serpent.c:130-138 | the boolean program applies the published 4-bit table of S-box 7 to all 32 bit positions, its output found in the rotated registers |
| `Serpent.SI0` | kernel/linux/crypto/serpent.c:140-146 | the boolean program applies the inverse table of S-box 0 to all 32 bit positions |
| `Serpent.SI1` | kernel/linux/crypto/serpent.c:148-155 | the boolean program applies the inverse table of S-box 1 to all 32 bit positions |
| `Serpent.SI2` | kernel/linux/crypto/serpent.c:157-163 | the boolean program applies the inverse table of S-box 2 to all 32 bit positions |
| `Serpent.SI3` | kernel/linux/crypto/serpent.c:165-172 | the boolean program applies the inverse table of S-box 3 to all 32 bit positions |
| `Serpent.SI4` | kernel/linux/crypto/serpent.c:174-181 | the boolean program applies the inverse table of S-box 4 to all 32 bit positions |
| `Serpent.SI5` | kernel/linux/crypto/serpent.c:183-190 | the boolean program applies the inverse table of S-box 5 to all 32 bit positions |
| `Serpent.SI6` | kernel/linux/crypto/serpent.c:192-199 | the boolean program applies the inverse table of S-box 6 to all 32 bit positions |
| `Serpent.SI7` | kernel/linux/crypto/serpent.c:201-208 | the boolean program applies the inverse table of S-box 7 to all 32 bit positions |
| `Serpent.K` | kernel/linux/crypto/serpent.c:42-44 | key mixing |
| `Serpent.BoxesAre` | kernel/linux/crypto/serpent.c:66-138 | the eight S-boxes of the Serpent proposal |
| `Serpent.SubstituteIs` | kernel/linux/crypto/serpent.c:66-138 | in every bit position the four words go through the S-box as one number |
| `Serpent.LinearIs` | kernel/linux/crypto/serpent.c:46-55 | every bit of the linear map, with its rotations by 13, 3, 1, 7, 5 and 22 and shifts by 3 and 7 |
| `Serpent.AddKeyIs` | kernel/linux/crypto/serpent.c:42-44 | round key i is words 4i to 4i + 3 of the schedule |
| `Serpent.CipherIs` | kernel/linux/crypto/serpent.c:365-416 | keys 0 to 32, S-box r mod 8 in round r, and the linear map in all rounds but the last |
| `Serpent.TextIs` | kernel/linux/crypto/serpent.c:378-381 | a block is four little-endian words |
| `Serpent.LK` | kernel/linux/crypto/serpent.c:46-55 | the interleaved shifts and xors are the linear transformation of the cipher followed by key mixing |
| `Serpent.KL` | kernel/linux/crypto/serpent.c:57-64 | key mixing followed by the inverse linear transformation |
| `Serpent.SubstituteInverse` | kernel/linux/crypto/serpent.c:66-208 | each inverse S-box undoes its S-box |
| `Serpent.LinearInverse` | kernel/linux/crypto/serpent.c:46-64 | the inverse linear transformation undoes the linear one |
| `Serpent.RoundsUndone` | kernel/linux/crypto/serpent.c:365-474 | after undoing rounds 31 down to r the state is what encryption had after round r |
| `Serpent.CipherInverse` | kernel/linux/crypto/serpent.c:365-474 | decryption undoes encryption for every schedule and block |
| `Serpent.EncryptFrom0` | kernel/linux/crypto/serpent.c:384-391 | the eight rounds from 0, with their rotating register names, are eight rounds of the specification |
| `Serpent.EncryptFrom8` | kernel/linux/crypto/serpent.c:392-399 | the eight rounds from 8, with their rotating register names, are eight rounds of the specification |
| `Serpent.EncryptFrom16` | kernel/linux/crypto/serpent.c:400-407 | the eight rounds from 16, with their rotating register names, are eight rounds of the specification |
| `Serpent.EncryptFrom24` | kernel/linux/crypto/serpent.c:408-415 | the eight rounds from 24, with their rotating register names, are eight rounds of the specification |
| `Serpent.Encrypt` | kernel/linux/crypto/serpent.c:383-415 | the unrolled code is the 32-round cipher of the Serpent proposal |
| `Serpent.DecryptFrom31` | kernel/linux/crypto/serpent.c:437-444 | the inverse rounds from 31 down, with their rotating register names |
| `Serpent.DecryptFrom23` | kernel/linux/crypto/serpent.c:445-452 | the inverse rounds from 23 down, with their rotating register names |
| `Serpent.DecryptFrom15` | kernel/linux/crypto/serpent.c:453-460 | the inverse rounds from 15 down, with their rotating register names |
| `Serpent.DecryptFrom7` | kernel/linux/crypto/serpent.c:461-468 | the inverse rounds from 7 down, with their rotating register names |
| `Serpent.Decrypt` | kernel/linux/crypto/serpent.c:436-468 | the unrolled inverse code is the inverse cipher |
| `Serpent.StoreWord` | kernel/linux/crypto/serpent.c:417-420 | a word stored in little-endian bytes reads back and no other byte changes |
| `Serpent.EncryptBlock` | kernel/linux/crypto/serpent.c:365-421 | from bytes to bytes, also in place, the cipher of the Serpent proposal |
| `Serpent.DecryptBlock` | kernel/linux/crypto/serpent.c:423-474 | from bytes to bytes its inverse |
| `Serpent.EncryptDecrypt` | kernel/linux/crypto/serpent.c:365-474 | a block encrypted and decrypted in place has its bytes back for every schedule |
| `Twofish.SumsAgree` | kernel/linux/crypto/twofish.c:591-604 | the two rounds add the same words in a different order and agree modulo 2^32 |
| `Twofish.GIs` | kernel/linux/crypto/twofish.c:578-584 | g takes S-box i for byte i, and the second word goes through it rotated left by eight bits |
| `Twofish.FIs` | kernel/linux/crypto/twofish.c:591-596 | the values of g added up, and subkeys 2n and 2n + 1 in round n |
| `Twofish.SumsAre` | kernel/linux/crypto/twofish.c:591-596 | the sums are the pseudo-Hadamard transform modulo 2^32 |
| `Twofish.RotationsAre` | kernel/linux/crypto/twofish.c:591-604 | the rotations are by one bit |
| `Twofish.RoundsAre` | kernel/linux/crypto/twofish.c:591-611 | one round, with the exchange of the halves |
| `Twofish.CipherIs` | kernel/linux/crypto/twofish.c:804-836 | sixteen rounds between whitening words 0 to 3 and 4 to 7, the last exchange undone |
| `Twofish.TextIs` | kernel/linux/crypto/twofish.c:623-625 | a block is four little-endian words |
| `Twofish.EncRound` | kernel/linux/crypto/twofish.c:591-596 | one Feistel round with its one-bit rotations |
| `Twofish.DecRound` | kernel/linux/crypto/twofish.c:598-604 | one inverse round with the rotations on the other side |
| `Twofish.RoundUndone` | kernel/linux/crypto/twofish.c:591-604 | a round is undone for arbitrary S-boxes and subkeys |
| `Twofish.RoundsUndone` | kernel/linux/crypto/twofish.c:609-615 | and so are sixteen |
| `Twofish.CipherUndone` | kernel/linux/crypto/twofish.c:804-871 | with whitening, decryption undoes encryption |
| `Twofish.EncCycle` | kernel/linux/crypto/twofish.c:609-611 | two rounds without a swap are two rounds of the Feistel network |
| `Twofish.DecCycle` | kernel/linux/crypto/twofish.c:613-615 | likewise backwards |
| `Twofish.InPack` | kernel/linux/crypto/twofish.c:623-625 | a little-endian word is read and whitened |
| `Twofish.OutUnpack` | kernel/linux/crypto/twofish.c:627-630 | the whitened word is written so that it reads back, and no other byte changes |
| `Twofish.Encrypt` | kernel/linux/crypto/twofish.c:804-836 | the unrolled code is the Feistel cipher, also in place |
| `Twofish.Decrypt` | kernel/linux/crypto/twofish.c:839-871 | the unrolled code is its inverse |
| `Twofish.EncryptDecrypt` | kernel/linux/crypto/twofish.c:804-871 | encrypting then decrypting a block in place gives its bytes back for arbitrary key-dependent S-boxes |
| `Merkle.Absorb` | kernel/linux/crypto/sha256.c:260-290 | folding a concatenation is folding the first part, then its unfinished tail with the second |
| `Merkle.FoldBlock` | kernel/linux/crypto/sha256.c:278-282 | one whole block is folded at a time |
| `Sha256.IndexFromCount` | kernel/linux/crypto/sha256.c:266 | the buffer index taken from the wrapped bit count is the length modulo 64 |
| `Sha256.LowRight` | kernel/linux/crypto/sha256.c:268-269 | the low count word is right for every length |
| `Sha256.HighRight` | kernel/linux/crypto/sha256.c:268-272 | the high count word is right if and only if the chunk is under 2^29 bytes or the low word carries |
| `Sha256.HighWrong` | kernel/linux/crypto/sha256.c:268-272 | a chunk of 2^29 bytes loses its bit count, so the property fails without that condition |
| `Sha256.PastEnd` | kernel/linux/crypto/sha256.c:281-282 | for any other length below 2^32 the loop test wraps and the loop goes on with less than a block left |
| `Sha256.ShortPiece` | kernel/linux/crypto/sha256.c:260-290 | pieces under 2^29 bytes keep the count right and the loop in range |
| `Sha256.Context.AddCount` | kernel/linux/crypto/sha256.c:268-272 | the two count words after a piece |
| `Sha256.Context.Take` | kernel/linux/crypto/sha256.c:274-289 | whole blocks are folded and the rest is in the buffer |
| `Sha256.PaddedLength` | kernel/linux/crypto/sha256.c:312-318 | padded messages are whole blocks |
| `Sha256.PaddedIs` | kernel/linux/crypto/sha256.c:300-318 | a padded message is the message, 0x80, zeroes, and the two count words as one number in base 256, the most significant digit first, in the least whole number of blocks |
| `Sha256.FipsPaddedIs` | kernel/linux/crypto/sha256.c:300-318 | with a right count that number is the length in bits modulo 2^64, as in section 5.1.1 of FIPS 180-2 |
| `Sha256.Context.constructor` | kernel/linux/crypto/sha256.c:245-258 | a new context has absorbed nothing |
| `Sha256.Context.Reset` | kernel/linux/crypto/sha256.c:245-258 | so has a reset one, whatever it held |
| `Sha256.Context.Absorb` | kernel/linux/crypto/sha256.c:274-283 | completing the buffered block and folding whole blocks leaves exactly the tail of the message |
| `Sha256.Context.Update` | kernel/linux/crypto/sha256.c:260-290 | the state is that of the old message with the data appended, and the count stays right exactly under that condition |
| `Sha256.Context.Final` | kernel/linux/crypto/sha256.c:292-331 | with a right count the digest is that of the message padded by section 5.1.1 of FIPS 180-2; in any case it is that of the message padded with the count held |
| `Sha256.Digest` | kernel/linux/crypto/sha256.c:245-331 | for every message and every way of cutting it into pieces that keep the count right, as all under 2^29 bytes do, the digest is the one-shot one |
| `Md5.LengthWords` | kernel/linux/crypto/md5.c:206-207 | the two length words from the byte count are the bit count modulo 2^64 |
| `Md5.PaddedLength` | kernel/linux/crypto/md5.c:190-214 | padded messages are whole blocks |
| `Md5.RfcPaddedIs` | kernel/linux/crypto/md5.c:190-214 | a padded message is the message, 0x80, zeroes, and the length in bits modulo 2^64 in base 256, the least significant digit first, in the least whole number of blocks |
| `Md5.LastBlocks` | kernel/linux/crypto/md5.c:193-210 | one or two last blocks, decided by the offset, fold the padding of section 3.1 of RFC 1321 |
| `Md5.Context.constructor` | kernel/linux/crypto/md5.c:149-158 | a new context has absorbed nothing |
| `Md5.Context.Blocks` | kernel/linux/crypto/md5.c:173-187 | completing the buffered block and folding whole blocks leaves the tail in the buffer |
| `Md5.Context.Update` | kernel/linux/crypto/md5.c:160-188 | the context holds the old message with the data appended |
| `Md5.Context.Pad` | kernel/linux/crypto/md5.c:193-205 | the padding bytes, with an extra block exactly when fewer than eight bytes are left |
| `Md5.Context.Final` | kernel/linux/crypto/md5.c:190-214 | the digest is that of the message padded by sections 3.1 and 3.2 of RFC 1321 |
| `Md5.Digest` | kernel/linux/crypto/md5.c:149-214 | for every way of cutting a message the digest is the one-shot one |
| `Michael.PaddingMultiple` | kernel/linux/crypto/michael_mic.c:115-142 | the padding of 0x5a and four to seven zeros makes whole words |
| `Michael.LastWords` | kernel/linux/crypto/michael_mic.c:121-135 | the four cases of the switch are the padded last word |
| `Michael.LastTwo` | kernel/linux/crypto/michael_mic.c:121-138 | the switch and two block steps fold the padding |
| `Michael.Context.SetKey` | kernel/linux/crypto/michael_mic.c:145-157 | succeeds exactly for eight bytes; bytes pending from before become the start of the next message |
| `Michael.Context.Init` | kernel/linux/crypto/michael_mic.c:73-77 | no byte is pending and the words stay |
| `Michael.Context.Words4` | kernel/linux/crypto/michael_mic.c:101-111 | whole words are folded and the rest is kept pending |
| `Michael.Context.Update` | kernel/linux/crypto/michael_mic.c:80-112 | the context holds the old message with the data appended, for any pending bytes |
| `Michael.Context.Final` | kernel/linux/crypto/michael_mic.c:115-142 | the eight bytes are the little-endian words of the code of section 8.3.2.3 of IEEE 802.11i-2004 of the whole message |
| `Michael.Context.MixLast` | kernel/linux/crypto/michael_mic.c:117-135 | the switch mixes in the padded last word |
| `Michael.Digest` | kernel/linux/crypto/digest.c:69-84 | init, the pieces and final give the code of the message under whatever the words hold, and leave the code there |
| `Michael.DigestTwice` | kernel/linux/crypto/digest.c:60-84 | two digests after one setkey: the second code is made with the first one for its key |
| `Michael.Mic` | kernel/linux/crypto/michael_mic.c:73-157 | for every way of cutting a message the code is the one-shot one, of the message with init before or after the key, and of the pending bytes and the message without |
| `Michael.WrongCode` | kernel/linux/crypto/michael_mic.c:145-157 | a zero byte pending when a key of zeros is set gives the empty message a wrong code |
| `Michael.PutGet` | kernel/linux/crypto/michael_mic.c:64-70 | a word put in bytes is got back |
| `Hmac.Tfm.UpdateSegment` | kernel/linux/crypto/digest.c:33-51 | the page loop absorbs exactly the bytes of the segment, in order, across pages |
| `Hmac.Tfm.Update` | kernel/linux/crypto/digest.c:26-53 | a scatterlist is absorbed as the bytes it names |
| `Hmac.Tfm.TakeSegment` | kernel/linux/crypto/digest.c:76-82 | a segment is absorbed whole |
| `Hmac.Tfm.Chunks` | kernel/linux/crypto/digest.c:69-84 | so is every segment of a list |
| `Hmac.Tfm.Digest` | kernel/linux/crypto/digest.c:69-84 | the digest is the hash of the bytes the list names |
| `Hmac.Tfm.HashKey` | kernel/linux/crypto/hmac.c:24-33 | through a list of one entry, the key is replaced in place by its hash |
| `Hmac.Tfm.Shorten` | kernel/linux/crypto/hmac.c:62-65 | exactly the keys longer than a block are |
| `Hmac.Tfm.Pad` | kernel/linux/crypto/hmac.c:67-71 | the pad buffer is the zero-filled key xored with the constant |
| `Hmac.Tfm.AbsorbBuffer` | kernel/linux/crypto/hmac.c:73-78 | a list of one entry absorbs the start of a buffer |
| `Hmac.Tfm.HmacInit` | kernel/linux/crypto/hmac.c:56-79 | the shortened key and length written back are the block key of RFC 2104, and the inner pad is absorbed |
| `Hmac.Tfm.HmacFinal` | kernel/linux/crypto/hmac.c:87-120 | the key, already short, is not hashed again, and the result is the outer hash |
| `Hmac.Tfm.Hmac` | kernel/linux/crypto/hmac.c:122-128 | for every key and scatterlist the result is H((K xor opad) and then H((K xor ipad) and then text)) of section 2 of RFC 2104 |
| `Hmac.Md5Serves` | kernel/linux/crypto/md5.c:149-214 | an MD5 context gives for any start, absorb and finish the digest the transform promises |
| `Hmac.HmacMd5` | kernel/linux/crypto/hmac.c:122-128 | HMAC-MD5 of any key and scatterlist is that of RFC 2104 |
| `Hmac.BytesAre` | kernel/linux/crypto/digest.c:26-53 | the segments' bytes joined are the memory at the list's addresses |
| `Hmac.ShortKey` | kernel/linux/crypto/hmac.c:56-79 | hashing long keys and zero-filling gives the block key |
| `Hmac.Rfc2104Is` | kernel/linux/crypto/hmac.c:56-120 | RFC 2104 written out: the key, hashed if it is longer than a block and filled with zeroes, xor 0x36 and 0x5c in every byte |

## Left out

- Sha256.Context.Update: pieces for which the loop test does not wrap; for the others, given exactly by Sha256.PastEnd, the C code reads past the piece.
- Sha256.Digest: pieces that keep the count right; with any other the digest is that of a wrong count, as Sha256.Context.Final states.
- Hmac.Tfm.Hmac: the digest is no longer than a block, as for every digest of the tree.
- Directory.Builder.AddDir: name not empty, and inode offset, type and start block fit their fields; Directory.FieldsExactly and Directory.HeaderExactly say that otherwise they do not come back.
- Filesystem.WriteAndReadBack: the entries read when the block of the root directory lies at 2^24 bytes of directory table or beyond; Filesystem.ReadRootBlocks says which block they are taken from when there is one at that place.
- Fragments.Files.WriteFileInPieces: the pieces are written as one.
- FileData.WriteContent: the file fits the size limit and is read without errors.
- MetaStream.Stream.Interrupt: the first signal, which only warns.
- Restore.ReadFilesystem: the scan of the single inodes, which counts them and records their files, and the uid tables.
- CipherModes.Crypt: source and destination are the same list or have no byte in common, or overlap only at equal positions; other overlaps are not defined by the code.
- CBC with a null IV, where the code returns without writing a block.
- The key schedules of Serpent and Twofish: both ciphers are proved for every schedule.
- The compression functions of SHA-256 and MD5, and the final clearing of contexts.
- SHA-1, SHA-512, MD4: the same buffering argument. Blowfish, CAST, TEA, XTEA, ARC4, Khazad: simpler round trips.
- `write_fragment_table`, `add_file` for existing images, uid tables, device tables, option parsing and statistics of the squashfs tools.
- LZMA and zlib.
- `aio_kick_handler`, cancellation, `exit_aio`, synchronous iocbs, failed allocations, and a user process writing to its ring page.
- Memory barriers, kernel mappings, cache flushes and scheduling: locked sections are single steps.
- Executable loaders and the other file system and driver code of the tree.
