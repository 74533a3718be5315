# Verified model of the mp4ff core

This project models the parts of the mp4ff library whose correctness rests on state that is carried from one call to
the next, and proves what the library's users rely on. Classes stand for the library's objects, methods for its loops
and in-place updates, and each method is tied to a function on values about which the laws are proved as lemmas.

**NAL units.** `EBSPWriter` packs bit fields and Exp-Golomb codes into a 64-bit accumulator and inserts emulation
prevention bytes; `EBSPReader` undoes both; `FixedSliceWriter` is a second printer of the same codes.
`getStartCodePositions` scans a stream a word at a time, with a bit trick and a look at odd bytes only, and the Annex
B conversions work partly in place. The pieces compose: what the writer emits contains no start code and does not end
in a zero byte, so in any stream that puts a 3-byte or 4-byte start code before each written unit the scanner finds
exactly the inserted codes, and the reader gets back every field (`NalPipeline.Pipeline`).

**Common encryption** (ISO/IEC 23001-7). Counter mode over scattered ranges, striped CBC with the chain running across
the stripes of one range, the IV arithmetic, the `senc` and `saiz` bookkeeping, and the encryption and decryption of
whole runs of samples in all three modes (`CencRun.EncryptAndDecrypt`). The block cipher is an arbitrary permutation
of blocks with its inverse. The protect ranges of AVC, HEVC and AV1 samples are proved to be the mask that the units
or tiles call for. What a sample becomes is also stated block by block, in terms of what the cipher is given
(`SampleCrypt.CencBlock`, `CencRun.CbcsBlock`). All of it is composed for a sequence of samples that is cut into
fragments in any way, encrypted by one `FragmentEncryptor` and decrypted fragment by fragment: every sample comes back,
and with scheme cenc the cipher is never given one counter for two blocks of data, within or across the fragments
(`CencPipeline.ProtectEncryptDecrypt`).

**BoxSeekReader.** A seekable window over a forward-only stream. Reads and seeks keep the window invariant, whatever
they return. Three calls rely on the caller and are stated with the exact condition under which they keep it: setting
the mdat bounds, resetting, and a peek that reads a new header. After a peek that fails, and after a full read that
meets the end of the stream, the window is lost. The loops of the stream decoder that use the reader are proved to
deliver the boxes and samples of the stream.

**Fragments of several tracks.** Any interleaving of added samples is read back track by track from the finished
fragment once it was written and decoded (`Fragment.BuildAndRead`); where it is read before that is exact too
(`Fragment.TrunExact`, `Fragment.InMemoryExact`).

**Smaller kernels.** AV1 `tile_info`, OBU and LEB128 parsing and printing, buffered sample copying, the `ctts` and
`saiz` tables, and the HEVC layer-dependency closure.

## Findings

Properties that do not hold of the code in general, each with the exact condition under which they do:

- Writing a field of n bits keeps all bits if and only if the pending bits and the new ones fit the 64-bit accumulator
  (`Accumulator.AccumulateExact`, `Write`, `WriteBits`), and `WriteExpGolomb` does so if and only if each of its
  writes does (`Accumulator.TwoWrites`). `FixedSliceWriter.WriteExpGolomb` writes a code in one piece, so that 2^29 -
  1, well within the range of ue(v), can lose pending bits (`SliceWriter.LargeUeLosesBits`). Reading a code is exact
  if and only if its value fits a word and its suffix the accumulator (`EbspReader.CodeNumIff`).
- `MoreRbspData` seeks to an absolute position, so it restores the reading position if and only if the underlying
  stream was handed over at its start.
- With 16-byte IVs, `incrementIV` counts the whole blocks of each protected range. A counter block is used twice in a
  run if and only if a sample with a partial block in a range is followed by one with protected bytes
  (`CencCounters.RunReuseExact`). The ranges that the library's own protectors produce for cenc consist of whole
  blocks (`ProtectRanges.GetProtectRanges`, `Av1Tiles.GetAV1ProtectRanges`), and then no counter block is used twice
  (`CencCounters.CountersDistinct`, `CencPipeline.NoneShared`).
- The saiz box gives for every sample the size of the entry that the senc box writes if and only if all samples have
  patterns or none has (`CencRun.EntriesExact`): with patterns in one sample, every other one gets a count of two bytes,
  which its size leaves out. The library's own protectors give all samples patterns, or none for audio
  (`CencPipeline.ProtectAll`).
- The patterns for a sample of NAL units cover all of it if and only if its last unit is not empty or is the only one:
  the loop stops before the length field of an empty unit at the end (`ProtectRanges.CoverageExact`).
- `BoxSeekReader.Seek` sizes its forward read from the current position, not from the end of the buffer. After a seek
  backwards it therefore reads as many bytes too many as lie between the two, fails where the stream is not that much
  longer, and leaves the next box unreachable after the reset (`Window.Seek`, `FinishMdat`, `OverReadExample`).
- A stream that ends between the two parts of a header with a large size is taken to end cleanly: `PeekBoxHeader`
  reports plain end of file if and only if nothing is left, or just 8 bytes whose size field is 1
  (`BoxSeekReader.CutHeaderAccepted`).
- A start code at the very end of a stream is not found, and 00 00 01 inside a unit is taken for one. Converting a
  sample to a byte stream and back is the identity if and only if its last unit is not empty and no unit has 00 00 01
  inside, except that the last one may end in it (`AnnexBRoundTrip.SampleRoundTrip`); from a byte stream to a sample
  the further condition is that no 3-byte start code follows a zero byte (`AnnexBRoundTrip.StreamToSample`).
- `Fragment.GetFullSamples` looks for the samples of a trun at the offset of the trun from the start of the moof box,
  less the start of the mdat payload. Both positions are set by decoding only. After `SetTrunDataOffsets` a trun is
  looked for where its data are if and only if the mdat box follows the moof box (`Fragment.OffsetExact`, `TrunExact`),
  as it does once the fragment was written and decoded (`BuildAndRead`). Before that both positions are 0 and every
  trun is looked for as far behind its data as the moof box is long (`InMemoryExact`), so that the track of the last
  sample can never be read (`BuildAndReadInMemory`).
- `ReadLeb128` of the IAMF package gives the value as it was written if and only if the code has fewer than ten bytes
  or its tenth byte is 0 or 1 (`Leb128.Cut64Exact`, `Leb128.LosesBits`).
- `AddSampleToTrack` takes the last traf where no traf has the track ID; the traf is that of the track if and only if
  there is one (`Fragment.FoundExact`, `Fragment.UnknownTrackExample`). The text of its error suggests otherwise, and
  the model follows the code.

## Conventions

- `uint` is 64 bits wide. Shifts and masks of words are the functions `Shl`, `Shr` and `Low`; `|` of words with
  disjoint bits is written as an addition, which is proved to be exact where it is used.
- Underlying readers are byte strings whose only error is the end of the data. How many bytes a short read delivers is
  a parameter (`grant`), about which nothing is assumed; a read makes progress where there is data. Writers may stop
  after any number of bytes.
- AES, the slice header parser and the AV1 frame header parser are function parameters. Of the first only that it
  permutes blocks is assumed, of the others only that what they report lies within the data that they were given.
- Decode times and positions in a file are unbounded numbers; the source keeps them in 64 bits.
- A `Result` or `Option` stands for Go's error returns.
- `NalPipeline.WrapUnits`, which puts a start code before every unit, is this project's own: it stands for whatever
  wrote the stream that the library scans.

## Model

| member | source | states |
|---|---|---|
| Emulation.EscapeAppend | bits/ebspwriter.go:30-62 | The escaped form of a payload grows by what the writer emits for one more byte, from its zero counter alone |
| Emulation.UnescapeEscape | bits/ebspreader.go:63-101 | Reading what the writer emitted gives the payload, whatever follows it: both zero counters agree at every byte |
| Emulation.EscapeRoundTrip | bits/ebspreader.go:63-101 | Unescaping an escaped payload gives the payload, for every byte string |
| Emulation.EscapeIsClean | bits/ebspwriter.go:30-62 | An escaped payload contains no 00 00 00, 00 00 01 or 00 00 02 |
| Emulation.EscapeLast | bits/ebspwriter.go:30-62 | Escaping keeps the last byte, so a payload closed by a stop bit does not end in a zero |
| Emulation.EscapePlain | bits/ebspwriter.go:38-59 | A payload without 00 00 before a byte of at most 3 is written as it is |
| Emulation.EscapeIsNeeded | bits/ebspwriter.go:38-59 | Every 00 00 03 in an escaped payload is followed by a byte of at most 3: no prevention byte is superfluous |
| Emulation.EscapeUnique | bits/ebspwriter.go:30-62 | Of all byte strings without the forbidden patterns and without superfluous prevention bytes, just one is read as the payload, and this one is written |
| Emulation.UnescapeDrops | bits/ebspreader.go:63-101 | Reading drops every 3 behind exactly two zero bytes, and no other byte |
| Accumulator.AccumulateIsJoined | bits/ebspwriter.go:34-36 | The `or` never carries: the accumulator is the joined bit string cut to 64 bits |
| Accumulator.AccumulateExact | bits/ebspwriter.go:34-36 | New bits follow the pending ones exactly if and only if both together fit the word, as up to 64 bits always do |
| Accumulator.WholeBytesBits | bits/ebspwriter.go:37-60 | The emitted bytes and the bits that stay pending are together the bits of the accumulator |
| Accumulator.WriteExact | bits/ebspwriter.go:30-62 | One write adds its bits to all bits written before if and only if they fit next to the pending ones |
| Accumulator.TwoWrites | bits/ebspwriter.go:65-83 | Two writes in a row keep all bits if and only if each of them fits; what the first one loses, the second cannot repair |
| Golomb.SeRoundTrip | bits/ebspreader.go:153-165 | The maps between signed values and code numbers are inverse in both directions |
| Golomb.SeAlternates | bits/ebspreader.go:153-165 | Code numbers 1, 2, 3, 4 stand for 1, -1, 2, -2, and so on |
| Golomb.UeShape | bits/ebspwriter.go:65-83 | A ue(v) code is zeros, a one bit and the offset from the power of two |
| Golomb.UeByPrefix | bits/ebspwriter.go:65-83 | The prefix and suffix that EBSPWriter writes are the ue(v) code |
| Golomb.UeByWidth | bits/fixedslicewriter.go:232-243 | The single field that FixedSliceWriter writes is the same ue(v) code |
| EbspWriter.GolombPrefix | bits/ebspwriter.go:65-83 | The search loop finds floor(log2(nr + 1)) and the offset |
| EbspWriter.EBSPWriter.EmitByte | bits/ebspwriter.go:38-59 | One payload byte becomes its escaped form in the output, or the output stops where the sink fails |
| EbspWriter.EBSPWriter.EmitWholeBytes | bits/ebspwriter.go:37-60 | The output is the escaped form of all whole bytes so far; after a write error it is as much of it as the sink takes |
| EbspWriter.EBSPWriter.Write | bits/ebspwriter.go:30-62 | Output, zero counter and pending bits are those of the escaped bit string; all bits written are kept if and only if they fit the word; after an error nothing more is written |
| EbspWriter.EBSPWriter.WriteExpGolomb | bits/ebspwriter.go:65-83 | ue(v) is added to the bits written if and only if its prefix and its suffix each fit next to the bits pending then, as those of all values below 2^57 - 1 do |
| EbspWriter.EBSPWriter.StuffByteWithZeros | bits/ebspwriter.go:105-109 | Zeros up to the next byte boundary are added, none at one |
| EbspWriter.EBSPWriter.WriteRbspTrailingBits | bits/ebspwriter.go:99-102 | The payload is the bits written, a one, and zeros that fill the byte; nothing stays pending |
| EbspReader.UeParses | bits/ebspreader.go:125-150 | A ue(v) code is recognised and gives its value, whatever follows it |
| EbspReader.TakeBits | bits/ebspreader.go:97-101 | Shift and mask of the buffer give the next n bits, although only the low 64 bits of the buffer are kept |
| EbspReader.CodeNumExact | bits/ebspreader.go:125-150 | The 64-bit sum for the code number is exact for up to 57 leading zeros |
| EbspReader.CodeNumIff | bits/ebspreader.go:125-150 | For any number of leading zeros the sum is right if and only if it fits a word and no bit of the suffix was cut |
| EbspReader.EBSPReader.NextPayloadByte | bits/ebspreader.go:68-95 | The next byte of the unescaped payload is taken, or the payload is at its end and the reader fails |
| EbspReader.EBSPReader.LoadByte | bits/ebspreader.go:67-96 | Eight payload bits move into the buffer, none is lost |
| EbspReader.EBSPReader.Fill | bits/ebspreader.go:67-96 | The buffer holds at least n bits, unless fewer are left, which is an error |
| EbspReader.EBSPReader.Read | bits/ebspreader.go:63-101 | Fails if and only if fewer than n bits are left; otherwise takes exactly n bits and, up to 57, gives their number |
| EbspReader.EBSPReader.ReadBit | bits/ebspreader.go:120-122 | Gives the next bit, and fails if and only if none is left |
| EbspReader.EBSPReader.ReadExpGolomb | bits/ebspreader.go:125-150 | Fails if and only if no whole ue(v) code is left; otherwise consumes just the code, and its value is right if and only if it fits a word and the bits after its leading one fit the accumulator |
| EbspReader.EBSPReader.ReadSignedGolomb | bits/ebspreader.go:153-165 | The same for se(v), in both directions too |
| EbspReader.EBSPReader.Reset | bits/ebspreader.go:218-230 | Puts the fields back to a saved state and seeks to the byte after the last one read then, counted from the start of the underlying stream |
| EbspReader.EBSPReader.MoreRbspData | bits/ebspreader.go:176-215 | Says whether anything but trailing bits is left, and leaves every field as it was; the stream below stays where it was if and only if it had been handed over at its start |
| EbspReader.EBSPReader.ReadRbspTrailingBits | bits/ebspreader.go:233-257 | Accepts exactly a one followed by zeros up to the end of the data |
| AnnexB.CodesSound | avc/annexb.go:101-162 | Every entry is a start code with its length and position, and the entries are ordered |
| AnnexB.CodesComplete | avc/annexb.go:101-162 | No start code is missed |
| AnnexB.ZeroByteExact | avc/annexb.go:97-99 | The bit trick says that a word has a zero byte if and only if it has one |
| AnnexB.NoZeroNoCode | avc/annexb.go:115-119 | A word without a zero byte can be skipped |
| AnnexB.CheckOddByte | avc/annexb.go:120-145 | A look at an odd byte and its neighbours finds the start code at it or at the byte before it, if there is one |
| AnnexB.CheckOddBytes | avc/annexb.go:115-146 | The odd bytes of one word suffice for all start codes that begin in it |
| AnnexB.CheckTailByte | avc/annexb.go:148-160 | The byte-wise loop finds the start code at its position, if there is one |
| AnnexB.GetStartCodePositions | avc/annexb.go:101-162 | Word loop and tail loop give the same list and the same minimal length as the naive scan of every index, for every byte array |
| ByteStream.LengthFieldExact | avc/annexb.go:54-87 | A length field gives its length back modulo 2^32 |
| ByteStream.FieldIsBigEndian | avc/annexb.go:54-87 | A length field is read as a big-endian number |
| ByteStream.NaiveScanDelimits | avc/annexb.go:54-87 | The codes that the scan finds cut any stream into units that do not overlap |
| ByteStream.ReplaceInPlace | avc/annexb.go:61-72 | With 4-byte codes only, every code is overwritten by the length of its unit, and no other byte changes |
| ByteStream.BuildSample | avc/annexb.go:74-86 | Otherwise the rebuilt sample is the units in order, each after its length |
| ByteStream.ConvertByteStreamToNaluSample | avc/annexb.go:54-87 | For every byte array the result is the scanned units, each after its length, in place or in a new array |
| AnnexBRoundTrip.ConvertSampleToByteStream | avc/annexb.go:166-176 | Every length field becomes a start code, in place, and no other byte changes |
| AnnexBRoundTrip.DelimitPrefixed | avc/annexb.go:166-176 | For a sample that is a sequence of length-prefixed units the result is the byte stream of these units |
| AnnexBRoundTrip.ScanStream | avc/annexb.go:101-162 | In a stream of units without 00 00 01 (at its very end there may be one) the scanner finds exactly the inserted codes: none inside a unit, none across its end |
| AnnexBRoundTrip.StreamScan | avc/annexb.go:101-162 | The scanner recovers codes and units of every stream of such units, with start codes of either length |
| AnnexBRoundTrip.SamePrefixed | avc/annexb.go:164-176 | A sample below 2^32 bytes is the sample of one list of units only |
| AnnexBRoundTrip.FoundSeparable | avc/annexb.go:101-162 | Conversely, if the units that are found in any stream are those it was made of, none of them shows a further start code, and no 3-byte code follows a zero byte |
| AnnexBRoundTrip.RecoversExact | avc/annexb.go:54-162 | Scanning a stream of any units gives these units back if and only if the last one is not empty and the units are of that kind |
| AnnexBRoundTrip.SampleRoundTrip | avc/annexb.go:54-176 | For every sample of units, to a byte stream and back is the identity if and only if the last unit is not empty and none has 00 00 01 inside, except that the last one may end in it |
| AnnexBRoundTrip.StreamToSample | avc/annexb.go:54-87 | A stream of any units, with 3-byte and 4-byte codes, becomes the sample of its units if and only if, in addition, no 3-byte code follows a zero byte; from 2^32 bytes on the condition is sufficient |
| AnnexBRoundTrip.EmptyLastUnitLost | avc/annexb.go:148-160 | For every list of units with an empty last one, neither way of conversion gives the sample of the units |
| NalPipeline.WriteUnit | bits/ebspwriter.go:30-109 | Any list of fields of at most 57 bits, closed by trailing bits, becomes the escaped form of exactly these bits |
| NalPipeline.ReadUnit | bits/ebspreader.go:63-257 | Reading a written unit with the same kinds of fields gives the same values and then proper trailing bits |
| NalPipeline.UnitIsProper | bits/ebspwriter.go:30-109 | A written unit is not empty, has no start code inside and does not end in a zero byte |
| NalPipeline.WrittenUnitsFound | avc/annexb.go:101-162 | In any byte stream of written units the scanner finds exactly the inserted start codes, and so the units |
| NalPipeline.WriteUnits | bits/ebspwriter.go:30-109 | The same for a list of units |
| NalPipeline.ReadUnits | bits/ebspreader.go:63-257 | All units that the codes delimit are read back |
| NalPipeline.Pipeline | avc/annexb.go:101-162 | End to end, fields to writer to byte stream to scanner to reader: every field of every unit comes back |
| SliceWriter.FixedSliceWriter.EmitWholeBytes | bits/fixedslicewriter.go:222-226 | The whole bytes go to the slice; an error if and only if they do not fit |
| SliceWriter.FixedSliceWriter.WriteBits | bits/fixedslicewriter.go:216-229 | The bits come out right if and only if they fit next to the pending ones; an error if and only if the slice is full |
| SliceWriter.CountZeros | bits/fixedslicewriter.go:236-241 | The loop counts floor(log2(x + 1)), also where x + 1 wraps around to 0 |
| SliceWriter.FixedSliceWriter.WriteExpGolomb | bits/fixedslicewriter.go:232-243 | ue(v) comes out right if and only if the whole code fits next to the pending bits; the greatest value wraps to a single zero bit |
| SliceWriter.FixedSliceWriter.WriteSignedGolomb | bits/fixedslicewriter.go:246-257 | The same for se(v); the least value comes out as 0 |
| SliceWriter.FixedSliceWriter.FlushBits | bits/fixedslicewriter.go:270-278 | The slice holds all bits written, then zeros up to a byte |
| SliceWriter.SmallUeFits | bits/fixedslicewriter.go:232-243 | Values below 2^29 - 1 always fit |
| SliceWriter.LargeUeLosesBits | bits/fixedslicewriter.go:232-243 | 2^29 - 1 does not fit next to the pending bits 1000000, which are lost |
| BigEndian.AddBEIsAddition | mp4/crypto.go:335-346 | Incrementing a counter is addition modulo 256^length |
| BigEndian.AddBEAdd | mp4/crypto.go:335-346 | Increments add up |
| BigEndian.AddBEInjective | mp4/crypto.go:335-346 | Counters less than a full cycle apart differ |
| BigEndian.IncrementIVInPlace | mp4/crypto.go:335-346 | The loop with its carry and early exit is that addition, in place |
| BlockCipher.XorTwice | mp4/crypto.go:217-242 | Exclusive or with the same byte undoes itself |
| BlockCipher.XorIsBitwise | mp4/crypto.go:217-242 | A bit of the result is set if and only if it is set in just one of the two bytes |
| BlockCipher.KeyIsCounter | mp4/crypto.go:217-242 | Key byte k is byte k % 16 of what the cipher makes of the counter that is k / 16 steps after the vector, as a number modulo 2^128 |
| BlockCipher.KeyedBlock | mp4/crypto.go:217-242 | Block j of a message in counter mode is the old block joined to what the cipher makes of the counter j steps after the vector |
| BlockCipher.CtrStream.XORKeyStream | mp4/crypto.go:217-242 | Only the given range changes, by the key bytes from the stream's position on, and the position moves on by its length |
| BlockCipher.CryptInverse | mp4/crypto.go:286-317 | A chaining mode is undone block by block, whatever follows |
| BlockCipher.CryptConcat | mp4/crypto.go:286-317 | A message may be split at a block boundary when the second part is chained to the first |
| BlockCipher.CbcLaws | mp4/crypto.go:286-317 | CBC decryption inverts CBC encryption for every permutation of blocks, and leaves the same block to chain to |
| BlockCipher.CbcChains | mp4/crypto.go:286-317 | Both directions of CBC may be split at block boundaries |
| BlockCipher.CbcEncrypts | mp4/crypto.go:286-317 | Block i of CBC encryption is what the cipher makes of the old block joined to block i - 1 of the result, or to the vector; a partial block at the end stays |
| BlockCipher.CbcDecrypts | mp4/crypto.go:286-317 | Block i of CBC decryption is what the inverse cipher makes of it, joined to block i - 1 of the input, or to the vector |
| BlockCipher.BlockMode.CryptBlocks | mp4/crypto.go:286-317 | Only the given range changes, to the message encrypted from the current chaining block, which moves on |
| SampleCrypt.CencSampleTwice | mp4/crypto.go:217-242 | Counter mode over scattered ranges is its own inverse |
| SampleCrypt.CencStep | mp4/crypto.go:228-240 | One more range: its bytes meet the key bytes that follow those of all earlier ranges |
| SampleCrypt.CryptSampleCenc | mp4/crypto.go:217-242 | Protected byte number k of the sample meets key byte k and no other byte changes; without patterns all bytes are protected |
| SampleCrypt.CencJoined | mp4/crypto.go:217-242 | The protected bytes of a sample, joined, are one message in counter mode |
| SampleCrypt.CencClear | mp4/crypto.go:224-240 | The clear bytes before each range, and what is left behind the last one, stay |
| SampleCrypt.CencBlock | mp4/crypto.go:217-242 | Block j of the protected bytes, joined, becomes the old block joined to what the cipher makes of the counter j steps after the vector |
| SampleCrypt.StripesInverse | mp4/crypto.go:286-317 | Striped decryption of what striped encryption left gives the range back |
| SampleCrypt.RangeInverse | mp4/crypto.go:286-317 | The same with and without skipped blocks, partial blocks at the end included |
| SampleCrypt.OutsideStripes | mp4/crypto.go:296-314 | A byte that is not in the first cr bytes of a complete period stays as it is, in both directions |
| SampleCrypt.StripesAreOneMessage | mp4/crypto.go:296-314 | The stripes of one range, joined, are one message under the mode: the chain runs on across skipped bytes |
| SampleCrypt.StripedAt | mp4/crypto.go:296-314 | Byte k of the joined stripes stands k / cr periods and k % cr bytes into the range; there are as many stripes as are complete |
| SampleCrypt.StripingLaws | mp4/crypto.go:286-317 | Striping keeps lengths, and striping with the inverse mode undoes it |
| SampleCrypt.StripeLoop | mp4/crypto.go:296-314 | The loop over the stripes, in place, including the round where too little is left |
| SampleCrypt.CbcsCrypt | mp4/crypto.go:286-317 | One protected range becomes its striped form, started from the IV, and nothing else changes |
| SampleCrypt.CbcsSampleInverse | mp4/crypto.go:257-282 | For every sample, list of patterns that fits it and pattern of blocks, decryption restores every byte |
| SampleCrypt.CryptSampleCbcs | mp4/crypto.go:257-282 | The sample becomes its patterns' ranges, each striped from the IV, the clear bytes as they were; without patterns it is one range |
| SampleCrypt.CbcsRangeAt | mp4/crypto.go:257-282 | Each range of the sample is encrypted from the same vector, the clear bytes before it and behind the last one stay |
| SampleCrypt.RangeIsMessage | mp4/crypto.go:286-317 | The encrypted bytes of a range are one message under the mode, from the vector on, with and without skipping |
| SampleCrypt.CbcsEncrypts | mp4/crypto.go:286-317 | Block i of them is what the cipher makes of the old block joined to the encrypted block before it, across skipped bytes too |
| SampleCrypt.CbcsDecrypts | mp4/crypto.go:286-317 | Decrypted, it is what the inverse cipher makes of it, joined to the encrypted block before it |
| Saiz.DecodeBody | mp4/saiz.go:32-155 | The written box has the expected size, and reading inverts writing |
| Saiz.BodyDecode | mp4/saiz.go:32-57 | Whatever is read is a valid box that is written again as the same bytes |
| Saiz.BoxRoundTrip | mp4/saiz.go:32-155 | A box that was filled is read back as it was written |
| Saiz.SaizBox.AddSampleInfo | mp4/saiz.go:74-100 | The list of sizes that the box stands for grows by the new size, in default or in per-sample form; size 0 is not recorded, above 255 is an error without effect |
| Saiz.AddAll | mp4/saiz.go:74-100 | After any run of additions the box stands for exactly the non-zero sizes added, in order, and so does what a reader gets from the written box |
| CencRun.IncrementIV | mp4/crypto.go:320-333 | The next counter in a new array; the old one, which may be recorded, is not touched |
| CencRun.CryptedInverse | mp4/crypto.go:1044-1086 | Decryption of one sample from the same IV and patterns restores it, for cenc and cbcs |
| CencRun.PaddedAt | mp4/crypto.go:697-703 | A vector of 8 bytes is followed by zeros |
| CencRun.CbcsBlock | mp4/crypto.go:257-317 | The law for block i of a range of a cbcs sample, in both directions, with the pattern of the tenc box: as many blocks encrypted and then skipped as it says |
| CencRun.SencBox.AddSample | mp4/senc.go:66-95 | IVs and patterns grow by those of the sample and stay aligned with the samples; an IV of another size is an error that records nothing |
| CencRun.EntriesExact | mp4/senc.go:380-410 | The sizes that the saiz box records are those of the entries that the senc box writes if and only if all samples have patterns or none has |
| CencRun.EncryptCenc | mp4/crypto.go:697-720 | The cenc branch for one sample: data, recorded IV, and next IV in the 8-byte and the 16-byte mode |
| CencRun.EncryptCbcs | mp4/crypto.go:721-731 | The cbcs branch for one sample: data, and a recorded sample without an IV |
| CencRun.EncryptSample | mp4/crypto.go:690-735 | One round keeps the run's invariant: earlier samples encrypted, later ones untouched, all recorded IVs unchanged |
| CencRun.FragmentEncryptor.constructor | mp4/crypto.go:617-650 | The encryptor holds a copy of the IV |
| CencRun.NewFragmentEncryptor | mp4/crypto.go:617-650 | Fails if and only if the vector has the wrong length for the mode; outside the 8-byte mode 8 bytes are extended to 16 by zeros |
| CencRun.FragmentEncryptor.EncryptSamples | mp4/crypto.go:690-735 | The whole loop: all samples encrypted under chained IVs, all patterns and IVs recorded |
| CencRun.FragmentEncryptor.EncryptFragment | mp4/crypto.go:660-742 | After a run the samples are encrypted, the senc box holds the IVs and patterns in order, the encryptor's IV is the one for the next run; fails if and only if an entry does not fit the saiz box |
| CencRun.ConstantIVs | mp4/crypto.go:721-731 | With cbcs the IV never moves |
| CencRun.LoadIV | mp4/crypto.go:1054-1066 | The IV buffer is the recorded IV, padded with zeros to 16 bytes |
| CencRun.DecryptSample | mp4/crypto.go:1067-1083 | One sample is decrypted in place |
| CencRun.DecryptSamplesInPlace | mp4/crypto.go:1044-1086 | All samples are decrypted with the recorded or the constant IVs and the recorded patterns |
| CencRun.RunInverse | mp4/crypto.go:1044-1086 | Decryption from IVs that agree with those of the encryption restores all samples |
| CencRun.UsedAgree | mp4/crypto.go:1044-1086 | The IVs that decryption takes from the boxes agree with those of the encryption |
| CencPipeline.NoneShared | mp4/crypto.go:217-346 | In a run of up to 2^32 samples below 2^32 bytes each, the counters for two blocks of data differ: with 8-byte IVs always, with 16-byte IVs if all ranges are whole |
| CencPipeline.CounterMet | mp4/crypto.go:217-242 | Every protected byte is encrypted by what the cipher makes of just that counter |
| CencPipeline.IVsPart | mp4/crypto.go:660-742 | The IVs of a part of a run are those that follow from the IV at its start, so that the encryptor can go on from there |
| CencPipeline.EncryptPart | mp4/crypto.go:660-742 | One fragment in the middle of a sequence: its samples are encrypted under their part of the chain of IVs, which the encryptor moves past, and recorded in its own senc box |
| CencPipeline.EncryptFragments | mp4/crypto.go:769-780 | However a sequence is cut into fragments, its samples are encrypted as in one single fragment; no later fragment touches the senc box of an earlier one |
| CencPipeline.DecryptPart | mp4/crypto.go:978-1086 | One fragment, decrypted with its own senc box, is restored, and the others stay |
| CencPipeline.DecryptFragments | mp4/crypto.go:978-1086 | Decrypting all fragments, each with its own senc box, restores the whole sequence |
| CencPipeline.EncryptAndDecryptFragments | mp4/crypto.go:769-1086 | Both together, in all three modes: every sample of every fragment comes back |
| CencPipeline.ProtectSample | mp4/crypto.go:353-355 | The ranges of a sample have the mask of its units or tiles, fit it, and are whole for cenc; an error exactly where the mask has one; for AV1 after all samples before it |
| CencPipeline.ProtectAll | mp4/crypto.go:769-780 | The same for all samples of a sequence in decode order; either all of them get patterns or, for audio, none |
| CencPipeline.AudioMasks | mp4/crypto.go:212-214 | For audio there is no error, and no sample gets patterns |
| CencPipeline.ProtectEncryptDecrypt | mp4/crypto.go:660-1086 | From the ranges of audio, AVC, HEVC or AV1 samples to encrypted fragments and back: succeeds if and only if all ranges are found and fit the saiz boxes; then all samples come back, and with cenc every protected byte met its own counter, and the cipher was never given one counter for two blocks of data within or across fragments |
| CencRun.EncryptAndDecrypt | mp4/crypto.go:660-1086 | Decrypting a run with what encryption recorded restores every sample: cenc with 8-byte and 16-byte IVs, and cbcs |
| CencCounters.BlocksExact | mp4/crypto.go:320-333 | The counter moves past all blocks used if and only if all ranges consist of whole blocks; otherwise it moves less |
| CencCounters.IVIsCounter | mp4/crypto.go:690-735 | With 16-byte IVs each sample starts exactly where the steps of all earlier samples end |
| CencCounters.CounterValue | mp4/crypto.go:217-242 | The counter block for any protected byte of any sample, as a number |
| CencCounters.CountersDistinct | mp4/crypto.go:217-346 | With whole ranges and at most 2^128 blocks in all, no counter block of a run is used for two blocks of data |
| CencCounters.ReuseAt | mp4/crypto.go:320-346 | Which byte of a sample shares its counter block with the start of the next sample |
| CencCounters.ReuseExact | mp4/crypto.go:320-346 | The counter that is left for the next sample was already used by this one if and only if some range of this one has a partial block |
| CencCounters.RunReuseExact | mp4/crypto.go:217-346 | In a run of up to 2^128 blocks some counter block is used for two blocks of data if and only if a sample with a partial block in a range is followed, at any distance, by a sample with protected bytes |
| CencCounters.PartialShares | mp4/crypto.go:320-346 | Which two bytes of the run share a counter block then |
| CencCounters.ReuseExample | mp4/crypto.go:320-333 | Two ranges of 8 bytes: one counter block is used, and the counter does not move |
| CencCounters.ProtectedRanges | mp4/crypto.go:203-210 | Ranges of whole blocks meet the premise, and cover as many bytes as their mask |
| CencCounters.UpperPart | mp4/crypto.go:335-346 | The upper half of a counter takes the carry of the lower half |
| CencCounters.Iv8Counter | mp4/crypto.go:713-718 | With 8-byte IVs sample k has the first IV plus k |
| CencCounters.Iv8Upper | mp4/crypto.go:697-703 | All counter blocks of a sample begin with its 8-byte IV |
| CencCounters.Iv8CountersDistinct | mp4/crypto.go:697-718 | So no two of up to 2^64 samples share a counter block, whatever their ranges are |
| ProtectRanges.MaskIsCovered | mp4/crypto.go:217-242 | The mask of a pattern list has one entry for each byte and says which bytes are encrypted |
| ProtectRanges.AppendProtectRange | mp4/crypto.go:203-210 | The mask grows by the clear and the protected bytes, also where the clear count has to be split to fit 16 bits |
| ProtectRanges.ProtectUnit | mp4/crypto.go:38-79 | One round of the loop over the units: the mask so far, and the clear bytes not yet in a pattern |
| ProtectRanges.GetProtectRanges | mp4/crypto.go:28-148 | For every sample the patterns have exactly the mask that walking its length fields gives, errors included; protected counts for cenc are multiples of 16 |
| ProtectRanges.CencUnit | mp4/crypto.go:44-57 | In scheme cenc a unit that is not of a video type (up to 5 in AVC, up to 31 in HEVC) and a short one stay clear; any other keeps 96 to 111 leading bytes clear, its length field included, and protects a positive multiple of 16 |
| ProtectRanges.CbcsUnit | mp4/crypto.go:58-66 | In scheme cbcs a video unit keeps its length field and its slice header clear and protects everything behind them, or is an error; any other unit stays clear |
| ProtectRanges.OtherScheme | mp4/crypto.go:67-69 | With any other scheme a video unit is an error, and no other unit is |
| ProtectRanges.WalkUnits | mp4/crypto.go:38-79 | Walking a sequence of units visits each of them once and does not wrap |
| ProtectRanges.MaskOfUnits | mp4/crypto.go:28-148 | The mask of a sequence of non-empty units is the masks of the units, one after the other, and as long as the sample |
| ProtectRanges.CoverageExact | mp4/crypto.go:37-148 | For a sample of any units, empty ones too, the mask is as long as the sample if and only if the last unit is not empty or is the only one; otherwise the last four bytes are in no pattern |
| ProtectRanges.TileMaskAt | mp4/crypto.go:164-200 | Of each tile exactly the leading whole blocks (cenc) or all bytes (cbcs) are protected |
| ProtectRanges.TileRest | mp4/crypto.go:176-195 | For cenc at most 15 bytes at the end of a tile stay clear, for cbcs none |
| ProtectRanges.TileMaskOutside | mp4/crypto.go:164-200 | No byte outside the tiles is protected |
| ProtectRanges.ProtectTile | mp4/crypto.go:176-195 | One round of the loop over the tiles |
| ProtectRanges.ProtectTiles | mp4/crypto.go:164-200 | The patterns for ordered tiles have exactly the mask of the tiles and cover the sample |
| BitReader.Reader.Read | bits/reader.go:33-57 | Fails if and only if fewer than n bits are left; otherwise takes exactly n bits and gives their number, cut to what the word holds for more than 57 |
| BitReader.Reader.ReadFlag | bits/reader.go:70-76 | Gives the next bit, false after an error |
| BitReader.Reader.ByteAlign | bits/reader.go:156-165 | Drops the rest of the current byte and nothing else |
| BitReader.Reader.NrBytesRead | bits/reader.go:135-137 | The number of bytes taken from the stream |
| Av1TileInfo.FloorLog2Loop | av1/frameheader.go:895-902 | floor(log2 x), and -1 for 0 |
| Av1TileInfo.TileLogLeast | av1/frameheader.go:905-911 | The smallest shift that reaches the target is the only one that does while the one before does not |
| Av1TileInfo.TileLog2 | av1/frameheader.go:905-911 | The loop finds that shift |
| Av1TileInfo.CeilDivBounds | av1/frameheader.go:927-932 | The quotient is the number of pieces that cover the whole, the last one not empty |
| Av1TileInfo.NsParses | av1/frameheader.go:881-893 | ns(n) parses back every value below n, whatever follows it |
| Av1TileInfo.ReadNS | av1/frameheader.go:881-893 | The value is always below n, also after a read error; fails if and only if the code is incomplete |
| Av1TileInfo.Log2Back | av1/frameheader.go:600-607 | Increment bits are parsed back, whatever follows them |
| Av1TileInfo.ReadLog2 | av1/frameheader.go:599-607 | The increment loop ends at the maximum or at a zero bit, and consumes just its bits |
| Av1TileInfo.UniformTiles | av1/frameheader.go:608-609 | Uniform tiles number at most 2^k, cover the frame, none is superfluous, and they keep their maximal width |
| Av1TileInfo.ReadSizes | av1/frameheader.go:626-634 | Ends for any bits, also after a read error; the sizes are at least 1, at most the maximum, and add up to the superblocks |
| Av1TileInfo.SizesBack | av1/frameheader.go:626-634 | Every list of sizes that fit is parsed back, whatever follows it |
| Av1TileInfo.CutsRun | av1/frameheader.go:626-634 | Sizes that add up to the superblocks and keep the maximum can be written |
| Av1TileInfo.ReadUniform | av1/frameheader.go:598-621 | One direction with uniform spacing |
| Av1TileInfo.ReadExplicit | av1/frameheader.go:622-651 | One direction with explicit sizes |
| Av1TileInfo.Limits | av1/frameheader.go:578-596 | The limits that follow from the frame size |
| Av1TileInfo.SuperblocksCover | av1/frameheader.go:578-590 | The superblocks of 64 or 128 pixels cover the frame, and none is superfluous |
| Av1TileInfo.FrameLimits | av1/frameheader.go:591-596 | The limits in numbers: 4096 pixels of width, 4096 * 2304 of area, 64 columns and 64 rows; each logarithm is the least that will do |
| Av1TileInfo.RowsForColumns | av1/frameheader.go:610 | The least logarithms of columns and rows add up to that of the tiles |
| Av1TileInfo.HeightForWidth | av1/frameheader.go:636-642 | The maximal height is the greatest for which a tile of the widest width keeps its share of the frame, and at least 1 |
| Av1TileInfo.UniformLayout | av1/frameheader.go:598-621 | The uniform branch gives what its bits say, within the limits for any bits |
| Av1TileInfo.ExplicitLayout | av1/frameheader.go:622-651 | The explicit branch gives what its bits say; tiles as high and wide as possible keep the area limit |
| Av1TileInfo.UniformBack | av1/frameheader.go:577-660 | Every reachable uniform layout, printed, is parsed back |
| Av1TileInfo.ExplicitBack | av1/frameheader.go:577-660 | Every layout with explicit sizes within the limits, printed, is parsed back |
| Av1TileInfo.TileInfo | av1/frameheader.go:577-660 | For any bits, also after read errors, the tiles cover the frame, number at most 2^(colsLog2 + rowsLog2) and keep their limits; fails if and only if bits are missing, and otherwise gives what the bits say |
| Av1TileInfo.SubexpBack | av1/frameheader.go:782-802 | Of every decode_subexp code exactly its own bits are consumed |
| Av1TileInfo.DecodeSubexp | av1/frameheader.go:782-802 | Ends for any bits, consumes exactly the bits of the code, and fails if and only if they are missing |
| Leb128.LebLength | av1/obu.go:142-164 | A value below 128^n takes at most n bytes |
| Leb128.ParseLeb | av1/obu.go:98-154 | Reading inverts writing for every value whose code keeps the limit, whatever follows |
| Leb128.ParseBound | av1/obu.go:98-111 | The last byte read holds the upper bits of the value: it lies between the byte and its successor, each times the power of 128 of its place |
| Leb128.AppendLEB128 | av1/obu.go:142-154 | The loop appends the code of the value |
| Leb128.Leb128Len | av1/obu.go:157-164 | The length of that code |
| Leb128.Leb128Size | iamf/iamf.go:50-60 | The length of that code, for all 64-bit values |
| Leb128.ReadLEB128 | av1/obu.go:98-111 | Gives value and length of the code at the start of the data, or the error for a code that is cut off or too long |
| Leb128.Or7Exact | iamf/iamf.go:14-32 | Only the tenth byte can lose bits, and what is left is the value modulo 2^64 |
| Leb128.ReadLeb128 | iamf/iamf.go:14-32 | The same on 64 bits and for up to ten bytes |
| Leb128.Cut64Exact | iamf/iamf.go:14-32 | The value is read as it was written if and only if the code has fewer than ten bytes or its tenth byte is 0 or 1 |
| Leb128.LosesBits | iamf/iamf.go:14-32 | Nine bytes 80 and then 02, which is 2^64, are read as 0 |
| Leb128.Leb128RoundTrip | iamf/iamf.go:14-60 | Every 64-bit value is read back as it was written, in Leb128Size bytes |
| Obu.HeaderRoundTrip | av1/obu.go:70-94 | A printed header, with or without the size flag, is parsed back |
| Obu.HeaderFields | av1/obu.go:70-94 | The fields of any parsed header are the bits in the places that the specification gives them |
| Obu.Encode | av1/obu.go:127-139 | Header, length and payload, in this order |
| Obu.Size | av1/obu.go:120-122 | The length of what Encode gives |
| Obu.ReadUnit | av1/obu.go:176-198 | One OBU within the data, with or without a size field, or the error of the first check that fails |
| Obu.SplitOBUs | av1/obu.go:172-200 | The loop gives the OBUs of the data in order, or the first error |
| Obu.UnitInData | av1/obu.go:172-200 | A printed OBU is found where it stands, between any others |
| Obu.SplitEncoded | av1/obu.go:120-200 | Splitting the printed forms of any list of well-formed OBUs gives the list, with the size flags set |
| Obu.SplitUnsized | av1/obu.go:176-198 | A last OBU without a size field has the rest of the data as its payload |
| Av1Tiles.LeToUint | av1/tiles.go:139-145 | The number that the bytes denote, lowest first |
| Av1Tiles.LERoundTrip | av1/tiles.go:139-145 | n bytes hold every number below 256^n |
| Av1Tiles.ReadGroupHeader | av1/tiles.go:91-113 | First and last tile and the start of the tile data, from the bits of the header, or an error |
| Av1Tiles.TileGroupRanges | av1/tiles.go:91-136 | The loop gives the tile ranges of a group, or an error |
| Av1Tiles.TilesExhaust | av1/tiles.go:114-136 | The tiles are as many as the group says, ordered, disjoint, within it, and exhaust it but for the size fields |
| Av1Tiles.TilesRoundTrip | av1/tiles.go:114-136 | Tiles put into a group, each but the last after its size, are found as they were |
| Av1Tiles.GroupHeaderBack | av1/tiles.go:91-113 | The header of a group in each of its three forms is parsed back |
| Av1Tiles.GroupBack | av1/tiles.go:91-136 | Of a whole group, header and tiles, just its tiles are found |
| Av1Tiles.FrameBack | av1/tiles.go:26-86 | A sample of one printed OBU of type 6: the tiles behind its frame header are found |
| Av1Tiles.HeaderAndGroupBack | av1/tiles.go:26-86 | A sample of a printed frame header, of type 3 or 7, and a tile group, of type 4: its tiles are found |
| Av1Tiles.FrameHeaderDecoder.ParseFrameHeader | av1/frameheader.go:102-110 | The decoder's state after a call, for any header parser that stays within its payload |
| Av1Tiles.ReadUnitTiles | av1/tiles.go:38-82 | What one OBU contributes: a frame, a tile group, or nothing |
| Av1Tiles.GroupInOrder | av1/tiles.go:26-86 | The tiles of a group lie in order within its part of the sample |
| Av1Tiles.GetTileRanges | av1/tiles.go:26-86 | The tiles of all groups of a sample, in order, apart from each other and within it |
| Av1Tiles.InOrderIsOrdered | mp4/crypto.go:164-200 | Such tiles are what the protect ranges are computed from |
| Av1Tiles.GetAV1ProtectRanges | mp4/crypto.go:164-200 | The patterns cover the sample exactly, and protect of each tile the leading whole blocks for cenc, all of it for cbcs |
| BoxSeekReader.HeaderFromBuffer | mp4/boxseekreader.go:275-357 | A buffered header says the same as the stream at its position |
| BoxSeekReader.HeaderBack | mp4/boxseekreader.go:275-357 | A printed header, with a 32-bit or a 64-bit size, says the size, the name and the header length that it was printed from |
| BoxSeekReader.HeaderFound | mp4/boxseekreader.go:275-357 | And so it does wherever it stands in a stream |
| BoxSeekReader.ReadHeaderBytes | mp4/boxseekreader.go:300-340 | The 8 or 16 bytes of a header; fewer where the stream ends before the header does, and none exactly where plain end of file is reported |
| BoxSeekReader.Window.constructor | mp4/boxseekreader.go:26-38 | The window starts empty at the stream's position |
| BoxSeekReader.Window.FillFrom | mp4/boxseekreader.go:66-76 | The rest of the buffer is read from the stream, or the stream is too short |
| BoxSeekReader.Window.ReadFullBox | mp4/boxseekreader.go:42-82 | The bytes of the whole box; each error has its exact condition, and one for a bad size changes nothing |
| BoxSeekReader.Window.SetMdatBounds | mp4/boxseekreader.go:89-99 | The window is empty at the given start, and valid if and only if the stream is there |
| BoxSeekReader.Window.ResetBuffer | mp4/boxseekreader.go:103-109 | The window stays valid if and only if the position is at the end of the buffer |
| BoxSeekReader.Window.ReadOn | mp4/boxseekreader.go:140-164 | Bytes from the stream go to the caller and to the end of the buffer |
| BoxSeekReader.Window.ReadAllowed | mp4/boxseekreader.go:126-164 | Delivery from the buffer first, then from the stream |
| BoxSeekReader.Window.Read | mp4/boxseekreader.go:114-164 | Delivers the stream's bytes at the position, never beyond the mdat end; end of file exactly at the mdat end or the end of the stream |
| BoxSeekReader.Window.SeekForward | mp4/boxseekreader.go:205-240 | A target beyond the buffer: how far the stream is read, and when that succeeds |
| BoxSeekReader.Window.Seek | mp4/boxseekreader.go:169-245 | Succeeds if and only if the target is allowed and the stream is as long as the code's count asks for; the window is kept in any case |
| BoxSeekReader.Window.ReadAhead | mp4/boxseekreader.go:205-240 | The bytes that follow, as far as the stream has them, become the end of the buffer |
| BoxSeekReader.Window.ReadHeader | mp4/boxseekreader.go:290-357 | A header read from the stream becomes the buffer, which is taken to start at the position; the window is kept if and only if that was the end of the buffer |
| BoxSeekReader.Window.PeekBoxHeader | mp4/boxseekreader.go:275-357 | The header at the buffer's start or, with fewer than 8 bytes buffered, the next one of the stream, the window being kept if and only if the position is there; end of file if and only if nothing is left, or just 8 bytes whose size field is 1; any other stream without a whole sensible header is an error |
| BoxSeekReader.PeekTwice | mp4/boxseekreader.go:275-357 | A second peek gives the same header and start, and reads nothing |
| BoxSeekReader.NextBox | mp4/stream.go:38-97 | Peek, full read and reset give the box at the position and leave the window at the next one, unless the box ends the init segment; what ends it is exact |
| BoxSeekReader.ReadBoxes | mp4/stream.go:38-97 | The loop delivers exactly the boxes of the init segment, and ends at the end of the stream, at the first box of a fragment, whose header stays in the buffer, or with an error, each exactly where it should |
| BoxSeekReader.BoxesBack | mp4/stream.go:38-97 | In the concatenation of any list of printed boxes exactly these boxes are found, in order |
| BoxSeekReader.ReadPrinted | mp4/stream.go:38-97 | ReadBoxes on it gives the list, and a clean end |
| BoxSeekReader.CutHeaderAccepted | mp4/boxseekreader.go:326-332 | A stream that ends in the first half of a header with a large size is taken to end cleanly |
| BoxSeekReader.EnterMdat | mp4/stream.go:514-546 | From a peeked mdat header to its payload |
| BoxSeekReader.ReadFull | mp4/boxseekreader.go:114-164 | Reading in full over any short reads gives all bytes up to the mdat end or the end of the stream |
| BoxSeekReader.ReadSample | mp4/stream.go:171-250 | A sample at any offset of the payload, got if and only if the seek is allowed and the stream long enough for it and for the sample, which lies within the payload; taken in stream order, nothing beyond it is read |
| BoxSeekReader.FinishMdat | mp4/stream.go:607-617 | The window is at the next box if and only if the position was at the end of the buffer or the buffer reached just to the end of the payload |
| BoxSeekReader.ReadMdatInOrder | mp4/stream.go:514-620 | Samples taken in stream order are the slices of the payload, and the window is at the next box afterwards |
| BoxSeekReader.OverReadExample | mp4/boxseekreader.go:205-240 | After a seek back, leaving a payload of 20 bytes reads 30 |
| Fragment.OrderIsSet | mp4/fragment.go:356-383 | With more than one trun the write order is set, so the early return is not taken |
| Fragment.SortedIsOrder | mp4/fragment.go:372-376 | The sorted truns of all trafs are the truns in write order |
| Fragment.CollectedOwned | mp4/fragment.go:356-376 | Collecting finds every trun once |
| Fragment.SortByWriteOrder | mp4/fragment.go:372-376 | The result is sorted by write order and has the same truns |
| Fragment.StillTight | mp4/fragment.go:252-287 | No trun is empty and consecutive truns belong to different tracks, after every added sample |
| Fragment.OffsetIsLength | mp4/trun.go:514-519 | The truns cut the mdat data into consecutive slices without gap or overlap |
| Fragment.ReadPartAt | mp4/trun.go:366-383 | The samples of a trun are read back from its slice |
| Fragment.ReadTrack | mp4/fragment.go:140-195 | Where all truns are looked for in the right place, those of a track give its samples and their data in the order in which they were added |
| Fragment.TimedConcat | mp4/fragment.go:163-192 | The decode times of one list of samples run on into the next |
| Fragment.TimedAt | mp4/fragment.go:163-192 | The first sample has the base time, and each other one the time at which the sample before it ends |
| Fragment.Trun.AddSample | mp4/trun.go:442-444 | The sample becomes the last one |
| Fragment.Trun.SizeOfData | mp4/trun.go:514-519 | The total of the sizes |
| Fragment.GetFullSamples | mp4/trun.go:366-383 | All samples of the trun with their data, from the offset on, and their decode times, which the durations add up; fails, as the source's slicing does, if and only if they end beyond the data |
| Fragment.Fragment.constructor | mp4/fragment.go:51-70 | A traf for each track, in order, and no trun |
| Fragment.Fragment.FindTraf | mp4/fragment.go:253-261 | The first traf with the track ID, or the last one where there is none |
| Fragment.Fragment.FoundExact | mp4/fragment.go:253-261 | The traf found has the track ID if and only if some traf has it |
| Fragment.UnknownTrackExample | mp4/fragment.go:210-287 | A sample for track 2 of a fragment with track 1 alone is no error, but goes to track 1 |
| Fragment.Fragment.OpenTrun | mp4/fragment.go:262-269 | The new trun is the latest of its traf and of all, and changes no track |
| Fragment.Fragment.FirstTrun | mp4/fragment.go:262-273 | A first trun where there is none; the decode time is set exactly while the track's first trun is empty |
| Fragment.Fragment.LatestTrun | mp4/fragment.go:274-283 | The trun of the sample is the latest of all, opened exactly when the latest belongs to another track |
| Fragment.Fragment.AddToLatest | mp4/trun.go:442-444 | The sample joins its track and no other, and its data follow all data so far |
| Fragment.Fragment.AddSampleToTrack | mp4/fragment.go:252-287 | The sample becomes the last of its track, in the latest trun or a new one; the track's decode time is the one given with its first sample; all else stays |
| Fragment.Fragment.AddFullSampleToTrack | mp4/fragment.go:210-220 | In addition the data become the last of the mdat box |
| Fragment.Fragment.CountTruns | mp4/fragment.go:357-369 | The number of truns, and whether a write order is set |
| Fragment.Fragment.CollectTruns | mp4/fragment.go:370-371 | The truns of all trafs |
| Fragment.Fragment.SortedTruns | mp4/fragment.go:356-376 | All truns in write order |
| Fragment.Fragment.SetTrunDataOffsets | mp4/fragment.go:356-383 | Every trun has the offset of its own slice behind the moof box and the mdat header, as a 32-bit number |
| Fragment.Int32Exact | mp4/fragment.go:377-383 | The offset is a signed 32-bit number, the right one modulo 2^32 |
| Fragment.HeaderSizeExact | mp4/mdat.go:169-177 | HeaderSize is the length of the header that the box needs: 8 if and only if its size fits the 32-bit field |
| Fragment.Fragment.AssignOffset | mp4/fragment.go:377-383 | One round of the loop over the sorted truns |
| Fragment.ReadTrun | mp4/fragment.go:163-192 | One round of the loop, from the start positions of moof and mdat: the error for an offset beyond the data, a slice out of range, and success each have their exact condition |
| Fragment.ReadTrackBack | mp4/fragment.go:140-195 | For the track of any fragment: all samples of all its truns, with decode times that run on over them, if and only if each trun is found within the data; else the first one that is not decides what the failure is |
| Fragment.OffsetExact | mp4/fragment.go:164-187 | In 64-bit arithmetic a trun is looked for in its place if and only if the mdat box follows the moof box, and else is off by just as much |
| Fragment.TrunExact | mp4/fragment.go:164-187 | The same for each trun of a finished fragment, and whether its samples are within the data where they are looked for |
| Fragment.ReadFinished | mp4/fragment.go:140-195 | If the mdat box follows the moof box, reading a track of a finished fragment gives all samples that were added to it, in order, with their data |
| Fragment.ReadTracksBack | mp4/fragment.go:140-195 | The same for all tracks |
| Fragment.InMemoryExact | mp4/fragment.go:164-187 | With both start positions 0, as before decoding, a track can be read if and only if the data reach the length of the moof box beyond each of its truns |
| Fragment.Finish | mp4/fragment.go:356-383 | Setting the offsets of any filled fragment finishes it |
| Fragment.WriteAndDecode | mp4/fragment.go:290-312 | Written moof box first and decoded, the mdat box starts where the moof box ends, and the offsets stay |
| Fragment.AddOne | mp4/fragment.go:210-220 | One more call in any interleaving keeps what holds of the fragment |
| Fragment.Build | mp4/fragment.go:51-287 | The fragment after any list of calls |
| Fragment.TimesBack | mp4/fragment.go:140-287 | Where the decode times given are continuous, exactly these are read back |
| Fragment.BuildAndRead | mp4/fragment.go:51-383 | Any interleaving of samples over any number of tracks, finished, written and decoded, is read back track by track, in order, with all fields and data, and with decode times from the one of the first sample on; where the given ones are continuous, they are read back |
| Fragment.BuildAndReadInMemory | mp4/fragment.go:51-383 | Finished, but not written and decoded, the track of the last sample cannot be read, whatever samples were added |
| SampleCopy.SamplesAreRange | mp4/file.go:656-669 | Consecutive samples of a chunk are one range of the file |
| SampleCopy.PumpSome | mp4/file.go:686-694 | One short read adds to what is written or held in the workspace |
| SampleCopy.PumpRange | mp4/file.go:684-708 | For any short reads the loop ends with the whole range written or in the workspace |
| SampleCopy.Flush | mp4/file.go:698-706 | Writing the workspace out loses and repeats nothing |
| SampleCopy.RangeOf | mp4/file.go:649-669 | Start and size of what is wanted of a chunk, the first and the last chunk included |
| SampleCopy.CopyRange | mp4/file.go:670-709 | One range through the workspace, or directly where there is none |
| SampleCopy.CopyLazily | mp4/file.go:613-731 | For every workspace, also an empty one, and all short reads exactly the wanted samples are written, in order |
| SampleCopy.WantedAt | mp4/file.go:613-731 | What is copied holds every sample from the first to the last one, in order and at the place that the sizes before it give, as it is in the file, and nothing else |
| SampleCopy.CopyFromMemory | mp4/file.go:710-719 | The path with the data in memory writes the same |
| Ctts.ExpandAt | mp4/ctts.go:131-148 | A sample within a run has the offset of the run when all runs are expanded |
| Ctts.CttsBox.AddSampleCountsAndOffset | mp4/ctts.go:114-128 | The box stands for the old offsets and then the new ones, empty runs included; lists of different lengths are an error without effect |
| Ctts.AddRuns | mp4/ctts.go:118-127 | The loop over the runs |
| Ctts.CttsBox.GetCompositionTimeOffset | mp4/ctts.go:131-148 | The binary search gives for every sample the offset found by expanding the runs |
| Ctts.DecodeEntries | mp4/ctts.go:46-55 | The running sums of the counts give the run ends back |
| Ctts.DecodeBody | mp4/ctts.go:33-100 | Reading inverts writing, and the length is the expected one |
| Ctts.BoxRoundTrip | mp4/ctts.go:33-100 | A reader of the written box finds the offsets that the box stands for, negative ones included |
| Ctts.AddAll | mp4/ctts.go:33-128 | After any run of additions the box, and what a reader gets from it, stands for all offsets added, in order |
| LayerSets.Transitive | hevc/vps.go:452-463 | Dependency by chains is transitive |
| LayerSets.FirstLink | hevc/vps.go:452-463 | It begins with a direct dependency |
| LayerSets.ReachedAll | hevc/vps.go:456-461 | When all lower layers were looked at, the flag is dependency |
| LayerSets.CloseEntry | hevc/vps.go:455-461 | One entry of the table, from the rows above it |
| LayerSets.CloseRow | hevc/vps.go:454-462 | One row of the table |
| LayerSets.DependencyClosure | hevc/vps.go:452-463 | For any number of layers the triple loop gives exactly the transitive closure of the direct dependencies |
| LayerSets.MarkNeeded | hevc/vps.go:537-547 | One output layer marks itself and the earlier layers that it depends on |
| LayerSets.NecessaryLayers | hevc/vps.go:535-548 | The flags are the output layers and the layers that output layers depend on |
| LayerSets.NecessaryIsClosed | hevc/vps.go:535-548 | The necessary layers contain the output layers and are closed under dependency on earlier layers of the set |
| LayerSets.NecessaryIsLeast | hevc/vps.go:535-548 | No smaller set is |

## Left out

- EbspWriter.EBSPWriter.WriteExpGolomb: 2^64 - 1 is excluded, for which the search loop of the source does not end.
- AnnexBRoundTrip.ConvertSampleToByteStream: samples with a length field that is cut off, where the source panics, or
  that wraps the 32-bit position, where it may go back over what it has converted, are excluded.
- ProtectRanges.GetProtectRanges: samples of 2^32 bytes or more and those with a length field that wraps the 32-bit
  position are excluded; slice header sizes are a parameter.
- CencRun.FragmentEncryptor.EncryptFragment: the protect ranges are a parameter; an unknown scheme and fragments with
  several trafs or truns are not modelled.
- CencRun.NewFragmentEncryptor: missing protection data and a protector that cannot be created.
- CencPipeline.ProtectEncryptDecrypt: the ranges of all samples are asked for first, so that an error leaves all
  samples as they were; in the source it leaves those before it encrypted. Samples are those that `GetProtectRanges`
  takes, and at most 2^32, as a sample count has 32 bits.
- CencRun.EncryptAndDecrypt: the constant IV of the tenc box has to be the one that the encryptor was given, which the
  source leaves to its caller.
- Fragment.BuildAndRead: data offsets are 32-bit numbers, so the moof box and the data stay below 2^31 bytes; the size
  of the moof box is a parameter, and the defaults of tfhd and trex boxes are not modelled, as the truns built here
  have all fields.
- Fragment.ReadTrackBack: mdat data of 2^32 bytes or more, where the offset is cut to 32 bits; base data offsets of the
  tfhd box, which the fragments built here do not have.
- Fragment.WriteAndDecode: the bytes of the boxes; it stands for their effect on the start positions.
- Fragment.SortByWriteOrder: an insertion sort stands for the library's sort, whose result is the same as all
  write-order numbers differ.
- Ctts.CttsBox.AddSampleCountsAndOffset: sums of sample counts that do not fit 32 bits.
- SampleCopy.CopyLazily: errors of the reader and the writer; the chunk and size tables are lists.
- LayerSets.NecessaryLayers: layers are taken by their index in the VPS, after the source's mapping; what the sets are
  made of is parsed elsewhere.
- EbspReader.EBSPReader.Reset: a seek that fails, which does not happen for a byte string.
- EbspReader.EBSPReader.MoreRbspData: a seek that fails, and read errors other than the end of the data.
- BoxSeekReader.NextBox: errors of decoding a box, and the check that a progressive moov box makes.
- BoxSeekReader.ReadBoxes: the same for the whole loop.
- BoxSeekReader.Window.Seek: positions are not bounded by 64 bits, and the branches for a position before the buffer
  after a read cannot be reached while the window is valid.
- Av1Tiles.FrameHeaderDecoder.ParseFrameHeader: the parsing of the header itself.
- AES, key lookup, PSSH boxes, PIFF scheme names, and the placement of senc, saiz and saio boxes in the file.
- SPS, PPS, slice header, IAMF descriptor and AV1 header-tail parsers, which have no printer to invert.
- Most box files, `Info` dumpers, codec strings, file opening and writing, and the command-line tools: same-shape code
  with easy members only.
