# Video encryption schemes: a Dafny model

This project models the algorithmic core of a small video-encryption toolkit.

- **Scheme 1** is a column-permutation image cipher.
  - A rolling 32-bit hash of the key seeds a shuffle of the column indices.
  - Every pixel of column `j` is XORed with `key[j mod |key|]`, and then the columns are permuted.
  - Decryption regenerates the permutation, applies its inverse and XORs again.
- **Scheme 2** is a selective H.264 slice cipher. It has three parts.
  - The Annex B byte stream is split into NAL units.
  - Every coded slice (NAL types 1 and 5) whose quantisation parameter (QP) is at most a threshold has its payload encrypted:
    1. the emulation prevention bytes are removed;
    2. the payload goes through AES-CTR under the key index of its slice number;
    3. the emulation prevention bytes are inserted again.
  - The encrypted video, the optional audio and the encrypted metadata are framed into a `.bin` package and read back.

  The QP list comes from folding the lines of an `ffmpeg trace_headers` run.
- **A stand-alone NAL lister** splits a stream at four-byte start codes and reports each unit's type.

## Modules

| file | module | contents |
|---|---|---|
| `wrappers.dfy` | `Wrappers` | `Option`, `Result` |
| `bytes.dfy` | `Bytes` | bytes (`bv8`), start codes, `bytes.find`, concatenation |
| `text.dfy` | `Text` | `str.strip`, `in` on strings, `str(int)`, `int(str)` |
| `scheme1.dfy` | `Scheme1` | `simpleHash`, `generateSwapKey`, `invertPermutation`, `encrypt_image`, `decrypt_image` |
| `emulation.dfy` | `Emulation` | `extract_rbsp`, `insert_emulation_prevention` and their specification |
| `nal_split.dfy` | `NalSplit` | `parse_nal_units`, `get_nal_type_name` |
| `extract_nal.dfy` | `ExtractNal` | `find_nal_units` and the lister's per-unit report |
| `slices.dfy` | `SliceCipher` | the NAL loops of `selective_encrypt` and `selective_decrypt` |
| `package.dfy` | `Package` | `package_encrypted_files` and `unpack_package` |
| `trace.dfy` | `Trace` | the line fold of `trace_h264_headers_line_by_line` |

## How the model is built

The loops of the source are methods with loop invariants. Each method is proved equal to a specification function, and the properties are lemmas about those functions.

Scheme 1:
- The image (`cv::Mat`) is a two-dimensional array of three-byte pixels.
- `encrypt_image` and `decrypt_image` clone it, fill row buffers and write them back into the clone cell by cell.

Scheme 2:
- The package writer and the package reader are classes. One holds the file being written; the other holds a read cursor.
- AES-CTR under the key and nonce of a key index is a keystream XOR. The keystream is a parameter (`Keystream`), so the lemmas hold for any key derivation. That encryption and decryption are inverse is proved (`CtrInvolution`), not assumed.

Scheme 1's generator: `std::mt19937` with `std::shuffle` is modelled as a Fisher–Yates shuffle driven by an abstract index source parameter (`IndexSource`).
- `draw(seed, i) % (i + 1)` stands for whatever index the library picks for position `i`. The library's own visiting order and its scaling of raw generator output are not modelled.
- Only what holds for every index source is claimed of the real generator: the swap key is a permutation, and it depends only on the width and the key's hash.

The code converts each key `char` with `static_cast<unsigned int>`. `char` is signed on the usual targets, so a byte `b >= 0x80` adds `2^32 - 256 + b`. The model follows the code (`Scheme1.Widen`).

The code accepts width 0, and so does the model: the swap key is then empty.

The code does not reject an empty key: `j % key.size()` then divides by zero. The image operations therefore require a non-empty key.

## Model

| member | source | states |
|---|---|---|
| `Scheme1.Widen` | encryption_schemes/scheme1/scheme_1.cpp:18-19 | a key byte below 0x80 widens to itself; one from 0x80 up sign-extends to at least 0xFFFFFF80; the low 8 bits are always the byte |
| `Scheme1.HashIsPolynomialMod` | encryption_schemes/scheme1/scheme_1.cpp:16-21 | the wrapped rolling hash equals the unbounded base-101 polynomial of the widened key bytes reduced modulo 2^32 |
| `Scheme1.SimpleHash` | encryption_schemes/scheme1/scheme_1.cpp:16-21 | the loop computes the left fold `h*101 + c mod 2^32` from 0; the result is below 2^32 and the empty key hashes to 0 |
| `Scheme1.IdentityIsPermutation` | encryption_schemes/scheme1/scheme_1.cpp:25-28 | the vector filled with `0..width-1` is a permutation of the columns |
| `Scheme1.SwapPreservesPermutation` | encryption_schemes/scheme1/scheme_1.cpp:31 | exchanging two positions of a permutation of `0..n-1` leaves a permutation |
| `Scheme1.ShufflePreservesPermutation` | encryption_schemes/scheme1/scheme_1.cpp:31 | the Fisher–Yates shuffle keeps a permutation a permutation, whatever the generator draws |
| `Scheme1.SwapKeyIsPermutation` | encryption_schemes/scheme1/scheme_1.cpp:24-33 | the shuffled identity is a permutation of the columns for every seed and every draw sequence |
| `Scheme1.Shuffle` | encryption_schemes/scheme1/scheme_1.cpp:30-31 | the in-place shuffle leaves the array equal to the specified Fisher–Yates result of its old contents |
| `Scheme1.GenerateSwapKey` | encryption_schemes/scheme1/scheme_1.cpp:24-33 | the swap key is a permutation of `0..width-1` and is a function of the width and the key's hash only |
| `Scheme1.InverseInverts` | encryption_schemes/scheme1/scheme_1.cpp:36-42 | the inverse of a permutation is a permutation with `inv[p[i]] == i` and `p[inv[j]] == j` |
| `Scheme1.InvertPermutation` | encryption_schemes/scheme1/scheme_1.cpp:36-42 | the loop writing `inv[perm[i]] = i` yields the inverse permutation, which undoes `perm` on both sides |
| `Scheme1.EncryptRowAt` | encryption_schemes/scheme1/scheme_1.cpp:54-67 | encrypted pixel `j` is input pixel `p[j]` with every channel XORed with `key[p[j] mod |key|]`, whatever the row |
| `Scheme1.DecryptRowAt` | encryption_schemes/scheme1/scheme_1.cpp:89-99 | decrypted pixel `j` is input pixel `inv[j]` with every channel XORed with `key[j mod |key|]` |
| `Scheme1.RowRoundTrip` | encryption_schemes/scheme1/scheme_1.cpp:51-99 | decrypting an encrypted row with the inverse permutation gives the row back |
| `Scheme1.GridRoundTrip` | encryption_schemes/scheme1/scheme_1.cpp:45-108 | row by row encryption with `p` and decryption with its inverse restore every row of the image |
| `Scheme1.ImageRoundTrip` | encryption_schemes/scheme1/scheme_1.cpp:45-108 | for a non-empty key, decrypting the encryption of an image with the regenerated swap key restores it pixel for pixel |
| `Scheme1.Clone` | encryption_schemes/scheme1/scheme_1.cpp:46 | the clone is a fresh matrix of the same shape and pixels |
| `Scheme1.ReadXoredRow` | encryption_schemes/scheme1/scheme_1.cpp:53-60 | the row buffer holds row `i` XORed column by column with the repeating key |
| `Scheme1.PermuteBuffer` | encryption_schemes/scheme1/scheme_1.cpp:62-67 | buffer column `j` takes column `swapKey[j]` |
| `Scheme1.WriteRow` | encryption_schemes/scheme1/scheme_1.cpp:69-73 | row `i` of the matrix becomes the buffer and every other row is unchanged |
| `Scheme1.ReadPermutedRow` | encryption_schemes/scheme1/scheme_1.cpp:87-93 | buffer column `j` takes matrix column `invSwap[j]` of row `i` |
| `Scheme1.XorBuffer` | encryption_schemes/scheme1/scheme_1.cpp:95-99 | every buffer column `j` is XORed with `key[j mod |key|]` |
| `Scheme1.EncryptImage` | encryption_schemes/scheme1/scheme_1.cpp:45-76 | the output has the input's shape, and its rows are the input rows XORed and then permuted by a swap key that is a permutation; the input is not modified |
| `Scheme1.DecryptImage` | encryption_schemes/scheme1/scheme_1.cpp:79-108 | the output has the input's shape, and its rows are the input rows read through the inverse swap key and then XORed; the input is not modified |
| `Scheme1.RoundTrip` | encryption_schemes/scheme1/scheme_1.cpp:45-108 | decrypting what `EncryptImage` returns, with the same key, gives back the original pixels |
| `Emulation.UnescapeLength` | encryption_schemes/scheme2/helper.py:239-251 | the output length plus the number of dropped `03` bytes is the input length, so the output is never longer |
| `Emulation.UnescapeAtMatch` | encryption_schemes/scheme2/helper.py:244-246 | at `00 00 03` the two zeros are kept, the `03` is dropped and removal goes on after it |
| `Emulation.UnescapeAtCopy` | encryption_schemes/scheme2/helper.py:247-249 | anywhere else the byte is copied and removal goes on at the next byte |
| `Emulation.ExtractRbsp` | encryption_schemes/scheme2/helper.py:229-251 | the index loop removes the `03` of every `00 00 03` met left to right, as the recursive specification says, and never lengthens the payload |
| `Emulation.EscapeFromLength` | encryption_schemes/scheme2/helper.py:267-272 | the escaped form is the input plus one byte per inserted `03` |
| `Emulation.EscapeLength` | encryption_schemes/scheme2/helper.py:264-274 | the output length is the input length plus the number of insertions, and extraction drops exactly as many bytes |
| `Emulation.EmitNoEmulation` | encryption_schemes/scheme2/helper.py:268-272 | emitting one byte, with its `03` when one is due, keeps the output free of `00 00 00/01/02` and keeps `zero_count` equal to its trailing zeros |
| `Emulation.EscapeFromNoEmulation` | encryption_schemes/scheme2/helper.py:267-272 | escaping after a clean prefix whose trailing zeros are counted leaves no `00 00 00`, `00 00 01` or `00 00 02` |
| `Emulation.EscapeNoEmulation` | encryption_schemes/scheme2/helper.py:254-274 | no escaped RBSP contains `00 00 00`, `00 00 01` or `00 00 02` (section 7.4.1 of ITU-T H.264) |
| `Emulation.UnescapeEscapeFrom` | encryption_schemes/scheme2/helper.py:243-272 | with up to two zeros already emitted, extraction of what escaping emits gives those zeros and the input back |
| `Emulation.UnescapeEscape` | encryption_schemes/scheme2/helper.py:229-274 | `extract_rbsp(insert_emulation_prevention(x)) == x` for every byte string `x` |
| `Emulation.InsertEmulationPrevention` | encryption_schemes/scheme2/helper.py:254-274 | the loop carrying `zero_count` computes the escaped form, whose length is the input length plus the insertions and which contains no forbidden triple |
| `Bytes.Find` | encryption_schemes/scheme2/helper.py:197-198 | `bytes.find`: the first occurrence at or after the start position, or -1 exactly when there is none |
| `Bytes.StartCodesEverywhere` | encryption_schemes/scheme2/helper.py:187-190 | comparing a four- or three-byte slice with a start code is the same as matching the start code at that position |
| `NalSplit.PrefixLengthMatch4` | encryption_schemes/scheme2/encrypt.py:127 | the offset is 4 exactly when the unit begins with `00 00 00 01`, and 3 otherwise |
| `NalSplit.FirstStartFrom` | encryption_schemes/scheme2/helper.py:186-195 | the cursor skips exactly the positions where no three- or four-byte start code begins |
| `NalSplit.UnitEnd` | encryption_schemes/scheme2/helper.py:197-200 | a unit ends at the nearest later three- or four-byte start code, or at the end of the stream |
| `NalSplit.UnitWellFormed` | encryption_schemes/scheme2/helper.py:187-202 | a cut unit begins with its start code and holds no `00 00 01` after it |
| `NalSplit.ParseNalUnits` | encryption_schemes/scheme2/helper.py:172-205 | no units exactly when the stream has no `00 00 01`; the units concatenate to the stream from its first start code on; each begins with a start code and holds no `00 00 01` after it; unit `n` starts where the units before it end and runs exactly up to the nearest later three- or four-byte start code, or the end of the stream |
| `NalSplit.CutAtUnit` | encryption_schemes/scheme2/helper.py:186-202 | the unit cut from a start code at `start` up to the nearest later start code is the unit `CutAt` describes |
| `NalSplit.NalTypeName` | encryption_schemes/scheme2/helper.py:208-226 | total; a fixed name exactly for types 1, 5, 6, 7, 8 and 9, and `Unknown (type ` followed by the number otherwise |
| `NalSplit.NalTypeNameInjective` | encryption_schemes/scheme2/helper.py:218-226 | two types with the same name are the same type |
| `ExtractNal.CutStep` | extract_nal.py:11-23 | one round of the search extends the reframed units up to the next four-byte start code, and the new unit holds none |
| `ExtractNal.FindStartCode4` | extract_nal.py:11-13 | the first search fails exactly when the data holds no `00 00 00 01` |
| `ExtractNal.FindNalUnits` | extract_nal.py:4-24 | no units exactly when there is no `00 00 00 01`; each unit put back behind `00 00 00 01` and all concatenated reproduce the data from the first start code on; no unit contains `00 00 00 01` |
| `ExtractNal.UnitType` | extract_nal.py:33 | the type is the low five bits of the first byte, a value below 32 |
| `ExtractNal.ReportsFromFacts` | extract_nal.py:32-40 | reporting fails exactly when some unit is empty; otherwise one report per unit in order, with an SPS note exactly on type 7 and a PPS note exactly on type 8 |
| `ExtractNal.ReportUnits` | extract_nal.py:32-40 | the loop's result is the specified reports, and on an empty unit the reports already printed are those of the units before it |
| `ExtractNal.ReportsFailAt` | extract_nal.py:32-33 | the first empty unit raises `IndexError`, whatever follows it |
| `ExtractNal.ReportsSucceed` | extract_nal.py:32-40 | with no empty unit every unit is reported, in order, with its own index |
| `Text.SkipSpaceSkips` | encryption_schemes/scheme2/encrypt.py:53 | everything skipped at the front is white space |
| `Text.TrimEndTrims` | encryption_schemes/scheme2/encrypt.py:53 | everything trimmed at the back is white space |
| `Text.StripTrims` | encryption_schemes/scheme2/encrypt.py:53 | the stripped line is a slice of the line, with only white space before and after it and none at either end |
| `Text.DigitsValueNatToString` | encryption_schemes/scheme2/encrypt.py:59 | reading back the decimal digits of `n` gives `n` |
| `Text.ParseIntToString` | encryption_schemes/scheme2/encrypt.py:59 | `int(str(n)) == n` for every integer |
| `Trace.CloseBracket` | encryption_schemes/scheme2/encrypt.py:56 | the lazy `.*?` stops at the first `]`, and finds none when a line break comes first |
| `Trace.DropTag` | encryption_schemes/scheme2/encrypt.py:56 | the entry is the line itself or, after a leading `[`, a suffix of it |
| `Trace.SecondField` | encryption_schemes/scheme2/encrypt.py:59 | there is no field (Python's `IndexError`) exactly when the entry has no `=` |
| `Trace.SecondFieldAfterFirstEquals` | encryption_schemes/scheme2/encrypt.py:59 | the field found is the text after the first `=`, up to the next `=` or the end |
| `Trace.ApplyEntry` | encryption_schemes/scheme2/encrypt.py:58-65 | the `if`/`elif` chain on the four variables computes the specified update of the fold state, or the exception of `int()` or of the index |
| `Trace.ApplyNal` | encryption_schemes/scheme2/encrypt.py:58-59 | an entry naming `nal_unit_type` sets the current NAL type from its field, whatever else it names |
| `Trace.ApplyPic` | encryption_schemes/scheme2/encrypt.py:60-61 | otherwise an entry naming `pic_init_qp_minus26` sets the initial QP to its field plus 26 |
| `Trace.ApplySlice` | encryption_schemes/scheme2/encrypt.py:62-65 | otherwise an entry naming `slice_qp_delta`, while the current NAL type is 1 or 5, records one slice QP |
| `Trace.ApplyOther` | encryption_schemes/scheme2/encrypt.py:58-65 | any other entry leaves the state unchanged |
| `Trace.AddSliceQpValue` | encryption_schemes/scheme2/encrypt.py:63-65 | the recorded QP is the delta plus the initial QP, and the recorded type is the current NAL type |
| `Trace.FoldStep` | encryption_schemes/scheme2/encrypt.py:52-56 | a line that raises ends the fold with its error; any other line hands its state to the rest of the lines |
| `Trace.TraceHeaders` | encryption_schemes/scheme2/encrypt.py:52-68 | the line loop returns the fold's QPs, initial QP and slice types, or the first exception; on success the QP list and the slice-type list have equal length and every slice type is 1 or 5 |
| `Trace.AddSliceQpConsistent` | encryption_schemes/scheme2/encrypt.py:62-65 | recording a slice QP appends one QP and one slice type, which is 1 or 5 |
| `Trace.ApplyConsistent` | encryption_schemes/scheme2/encrypt.py:58-65 | one entry keeps the invariant and either keeps the QP list or appends one QP |
| `Trace.StepConsistent` | encryption_schemes/scheme2/encrypt.py:52-65 | one line keeps the invariant, and the old QP list is a prefix of the new one, at most one longer |
| `Trace.FoldConsistent` | encryption_schemes/scheme2/encrypt.py:52-65 | the fold keeps the invariant, and the QPs recorded before it begin the final QP list |
| `Trace.TraceConsistent` | encryption_schemes/scheme2/encrypt.py:62-65 | after all lines, `qps` and `nal_types` have equal length and every slice type is 1 or 5 |
| `Trace.FoldSplit` | encryption_schemes/scheme2/encrypt.py:52 | folding a prefix of the lines and then the rest is folding all of them |
| `Trace.QpsOnlyGrow` | encryption_schemes/scheme2/encrypt.py:64 | the QPs found in the first `j` lines are a prefix of the QPs found in all of them |
| `SliceCipher.CtrInvolution` | encryption_schemes/scheme2/decrypt.py:129-131 | AES-CTR decryption under the same key index undoes encryption |
| `SliceCipher.TransformSlice` | encryption_schemes/scheme2/encrypt.py:136-139 | a transformed slice keeps its start code, header byte and type; its payload unescapes to the CTR image of the old unescaped payload and has no forbidden triple |
| `SliceCipher.SliceByte` | encryption_schemes/scheme2/encrypt.py:132-133 | a unit with a header byte is a slice exactly when `header & 0x1F` is 1 or 5 |
| `SliceCipher.TransformSliceIs` | encryption_schemes/scheme2/encrypt.py:136-139 | the first `offset+1` bytes followed by the escaped CTR image of the unescaped rest are the transformed slice |
| `SliceCipher.PassUnitChosen` | encryption_schemes/scheme2/encrypt.py:133-139 | a slice whose number is chosen is replaced by its transformation under that key index |
| `SliceCipher.PassUnitKept` | encryption_schemes/scheme2/encrypt.py:141-142 | every other unit is kept unchanged |
| `SliceCipher.CryptSlice` | encryption_schemes/scheme2/encrypt.py:134-139 | extract, CTR, insert and re-attaching the first `offset+1` bytes compute the transformed slice |
| `SliceCipher.PassStep` | encryption_schemes/scheme2/encrypt.py:126-144 | one more unit extends the pass output, the slice count and the transformed-slice list by that unit's share |
| `SliceCipher.SelectiveEncrypt` | encryption_schemes/scheme2/encrypt.py:126-144 | the output is the selective pass (slice `k` transformed with key index `k` exactly when `k < len(qps)` and `qps[k] <= threshold`); `count` ends as the number of slices |
| `SliceCipher.SelectiveDecrypt` | encryption_schemes/scheme2/decrypt.py:120-146 | the output is the same selective pass; `dec_units` lists exactly the transformed slices' `[nal_type, qp]`; `count` stops at `len(qps)` |
| `SliceCipher.SelectivePassPrefix` | encryption_schemes/scheme2/encrypt.py:126-144 | the pass is one output per unit in order: a prefix of the output is the pass over the prefix |
| `SliceCipher.SelectivePassAt` | encryption_schemes/scheme2/encrypt.py:127-144 | output unit `i` is unit `i` transformed with key index `k`, the number of slices before it, when it is a slice and `k` is chosen, and unit `i` unchanged otherwise |
| `SliceCipher.PassUnitKeepsHeader` | encryption_schemes/scheme2/encrypt.py:139 | every unit keeps its start code, header byte, type and slice status through the pass |
| `SliceCipher.SliceCountPreserved` | encryption_schemes/scheme2/decrypt.py:125-137 | the pass does not change how many slices a stream has |
| `SliceCipher.SameSelection` | encryption_schemes/scheme2/decrypt.py:126-127 | on the encrypted units, decryption sees the same slices with the same slice numbers, so it selects the same slices with the same key indices |
| `SliceCipher.TransformTwice` | encryption_schemes/scheme2/decrypt.py:130-133 | transforming a slice twice with one key index restores it up to re-escaping its payload |
| `SliceCipher.RoundTrip` | encryption_schemes/scheme2/decrypt.py:120-143 | decrypting the encrypted unit list restores every unit, except that a chosen slice comes back with its payload re-escaped |
| `SliceCipher.RoundTripCanonical` | encryption_schemes/scheme2/decrypt.py:120-143 | when every chosen slice's payload re-escapes to itself, the unit list is restored exactly |
| `SliceCipher.TransformedSlicesFacts` | encryption_schemes/scheme2/decrypt.py:134 | `dec_units` has one entry per chosen slice number below `min(slices, len(qps))`, each of type 1 or 5 with a QP from `qps` at most the threshold |
| `Package.ValueOfByteOf` | encryption_schemes/scheme2/encrypt.py:214 | the byte built for a value below 256 has that value |
| `Package.ByteOfValue` | encryption_schemes/scheme2/decrypt.py:73 | every byte is the byte built for its own value |
| `Package.BigEndianRoundTrip` | encryption_schemes/scheme2/encrypt.py:214 | reading back the `k`-byte big-endian encoding of `n < 256^k` gives `n` |
| `Package.BigEndianOfValue` | encryption_schemes/scheme2/decrypt.py:73 | encoding the value of a big-endian byte string at its own width gives the string back |
| `Package.LengthRoundTrip` | encryption_schemes/scheme2/encrypt.py:214 | `struct.unpack('>Q', struct.pack('>Q', n))[0] == n` for `n < 2^64`, and packing an unpacked header gives the header back |
| `Package.PackageFile.Write` | encryption_schemes/scheme2/encrypt.py:214-215 | a write appends its bytes to the file |
| `Package.FramesAppend` | encryption_schemes/scheme2/encrypt.py:213-215 | framing one more blob appends its frame to the framed blobs |
| `Package.FramesPrefix` | encryption_schemes/scheme2/encrypt.py:213-215 | writing one more blob's length and bytes extends the framed prefix by that blob's frame |
| `Package.PackageEncryptedFiles` | encryption_schemes/scheme2/encrypt.py:199-215 | the loop writes the specified package, video then audio then the metadata encrypted with key index -2, or `struct.error` for a blob too long |
| `Package.FramesThree` | encryption_schemes/scheme2/encrypt.py:213-215 | the three blobs framed in order are the three frames concatenated |
| `Package.PackageOfBlobs` | encryption_schemes/scheme2/encrypt.py:199-215 | the package is the framing of video, audio blob and encrypted metadata when all three fit, and `struct.error` otherwise |
| `Package.PackageSucceeds` | encryption_schemes/scheme2/encrypt.py:212-215 | packing fails exactly when one of the three blobs is 2^64 bytes or longer |
| `Package.PackageLayout` | encryption_schemes/scheme2/encrypt.py:212-215 | the package is the three length-prefixed blobs in order, 24 bytes longer than the blobs together |
| `Package.AudioOnlyWhenIncluded` | encryption_schemes/scheme2/encrypt.py:200-202 | the audio blob is empty unless audio is included, and is the audio file when it is included and exists |
| `Package.PackageReader.constructor` | encryption_schemes/scheme2/decrypt.py:72 | the file opens with its cursor at 0 |
| `Package.PackageReader.Read` | encryption_schemes/scheme2/decrypt.py:74 | `read(n)` raises `OverflowError` and leaves the cursor alone when `n >= 2^63`; otherwise it returns the next `n` bytes, fewer at the end of the file, and advances the cursor past them |
| `Package.ReadFrame` | encryption_schemes/scheme2/decrypt.py:73-74 | reading a frame is `struct.error` exactly when fewer than 8 bytes remain for the length, `OverflowError` exactly when the length is `2^63` or more, and fails in no other case; otherwise the blob is the `n` bytes after the header, fewer only when the data ends first |
| `Package.ReadBlob` | encryption_schemes/scheme2/decrypt.py:73-78 | one header read and one blob read from the cursor are the specified frame read and move the cursor past it, or fail with the same error, `struct.error` or `OverflowError` |
| `Package.UnpackPackage` | encryption_schemes/scheme2/decrypt.py:72-87 | three sequential frame reads, video, audio and metadata, with the metadata decrypted under key index -2, or the first `struct.error` or `OverflowError` |
| `Package.ReadFrameFails` | encryption_schemes/scheme2/decrypt.py:73 | a header read returning fewer than 8 bytes is exactly when the frame read fails with `struct.error` |
| `Package.ReadFrameOverflows` | encryption_schemes/scheme2/decrypt.py:73-74 | after a full header, the frame read fails with `OverflowError` exactly when the length is `2^63` or more |
| `Package.ReadFrameReads` | encryption_schemes/scheme2/decrypt.py:73-74 | after an 8-byte header holding `n < 2^63`, the blob is the next `n` bytes or what is left of the data |
| `Package.ReadFrameOfFrame` | encryption_schemes/scheme2/decrypt.py:73-74 | a frame reads back as its blob whatever precedes and follows it, or raises `OverflowError` when the blob is `2^63` bytes or longer |
| `Package.FirstRead` | encryption_schemes/scheme2/decrypt.py:73-74 | the first read of three frames yields the video blob and stops after it, or raises `OverflowError` for a video of `2^63` bytes or more |
| `Package.SecondRead` | encryption_schemes/scheme2/decrypt.py:75-76 | the second read yields the audio blob and stops after it, or raises `OverflowError` for audio of `2^63` bytes or more |
| `Package.ThirdRead` | encryption_schemes/scheme2/decrypt.py:77-78 | the third read yields the metadata blob and stops after it, or raises `OverflowError` for metadata of `2^63` bytes or more |
| `Package.UnpackOfReads` | encryption_schemes/scheme2/decrypt.py:72-87 | three successful reads in sequence unpack to video, audio and the decrypted metadata |
| `Package.UnpackThreeFrames` | encryption_schemes/scheme2/decrypt.py:72-78 | three frames followed by anything unpack to their three blobs when each is shorter than `2^63` bytes, and raise `OverflowError` otherwise |
| `Package.UnpackOfPackage` | encryption_schemes/scheme2/decrypt.py:72-87 | unpacking a written package, even with trailing bytes, gives back the video, the audio blob and the original metadata when every blob is shorter than `2^63` bytes; a longer blob, which packing accepts, makes unpacking raise `OverflowError` |
| `Package.ShortPackageFails` | encryption_schemes/scheme2/decrypt.py:73 | a package shorter than one 8-byte header is `struct.error` |

## Left out

- I/O is left out. This covers the ffmpeg and ffprobe subprocesses, OpenCV image reading and writing, file opening and writing, directory handling, `argparse`, `print` messages and every `main`. Files enter the model as byte sequences and trace output as a sequence of lines.
- AES-CTR, SHA-256 key and nonce derivation, random seeds and base64 are left out. The keystream is the `Keystream` parameter, indexed by key index and position.
- `std::mt19937` and `std::shuffle` internals are left out: the library's visiting order, its scaling of raw generator output into an index, and its drawing of two positions from one raw value. The model's shuffle takes its indices from the `IndexSource` parameter, so the exact swap key of a given key and width is not modelled; only its permutation property and what it depends on are.
- JSON is left out. The metadata blob is taken and returned as bytes, and `json.dumps` and `json.loads` are not modelled.
- Partial files are not modelled. When `struct.error` interrupts packaging, the result is the error; the bytes already written to the file are not part of the model.
- `SliceCipher.RoundTrip`: the restoration is exact only for canonical payloads.
  - For any other payload, the restored slice has its payload re-escaped.
  - An example is a payload ending in `00 00 03`, where the `03` protects a trailing `cabac_zero_word`.
  - The source makes the same transformation, and the lemma states it precisely.
- The round trip is proved on unit lists, not on the written byte stream split again by `parse_nal_units`.
  - An encrypted payload may end in `0x00`, because `insert_emulation_prevention` appends nothing after a final zero.
  - If that unit is followed by a three-byte start code, the next split sees a four-byte start code one byte earlier, and the unit loses that zero.
- `Text.ParseInt` models `int()` on ASCII decimal strings with a sign and surrounding white space. Underscore separators and non-ASCII digits, which Python also accepts, are not modelled.
- `Scheme1.Pixel`: the three channels are one datatype value. The source's three parallel buffers `rowB`, `rowG` and `rowR` are one buffer of pixels, because every channel gets the same treatment.
- `Package.PackageReader.Read`: a `read(n)` with `n` below `2^63` but too large to allocate raises `MemoryError` in Python. That depends on the memory of the machine, so the model reads what is left of the file instead.
- The width checks of `cv::Mat` (`int` rows and columns) and the `size_t` loop index in `invertPermutation` are unbounded integers in the model.
