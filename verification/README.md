# Verified model of s2n-tls record, key-derivation and encoding layers

This project models parts of s2n-tls, a C implementation of TLS, and proves what they promise.

| file | models |
|---|---|
| Bytes.dfy | bytes, C's bit operations, network byte order |
| Hashes.dfy, Hmac.dfy, Cbc.dfy | streaming hash states, the four-state HMAC, the constant-work check of CBC records |
| Hkdf.dfy | HKDF and the TLS 1.3 HKDF-Expand-Label |
| Counters.dfy, Drbg.dfy | record sequence numbers, the counter-mode random generator |
| Stuffer.dfy, NetworkOrder.dfy, StufferRuns.dfy | stuffers (growable byte buffers), integers and length-prefixed vectors in them, whole runs |
| Base64.dfy, Text.dfy, Pem.dfy | base64, text scanning and PEM objects |
| Certificates.dfy, PemChain.dfy, PemRender.dfy | loading a certificate chain from PEM |
| PemShapes.dfy | which texts are accepted as lines, certificates and chains, read off their characters |
| PemStops.dfy | where reading stops if a certificate is not there, and which texts that uses up |
| CertificateList.dfy | the certificate list that is sent, and the client's list that is stored |
| AsyncPkey.dfy, AsyncLedger.dfy | private-key operations handed to the application, and what its calls make of them |

## How it is built

- Code that updates structures in place is a class or a method on an `array`, proved against a function of the old
  state. What the code promises is then proved about those functions.
- The hash and the block cipher are function-valued constants (`HashFn`, `CipherFn`), so every theorem holds for every
  hash and every cipher. Private-key results, entropy, verification outcomes and callback outcomes are parameters.
- Machine integers are written out: `% 2^32` and `% 2^64` where the source wraps, the unsigned comparison of the padding
  mask, truncating length writes, the 16-bit and 8-bit fields of the HKDF label.
- What a specification function computes is stated once more without it, in literal bytes and numbers: the HMAC formula
  with its pads, the HKDF blocks and label, every byte of the random generator's state, the base64 alphabet and its
  24-bit groups, the words of a PEM line, both certificate lists, and the acceptance of a CBC record.
- `work` counts compression calls of a hash: one per filled block, and 1 or 2 to finish.
- Runs of stuffer operations are runs of a state machine over all cells and cursors (`StufferRuns.Moves`), in which only
  the allocator is free: how much more memory it delivers, and what that memory holds.
- `past` in a random generator lists the blocks encrypted under each earlier key, and `log` in an operation is what
  happened to it. Both exist for the proofs only.

## What does not hold, and exactly when it does

- CBC: a padding length that overruns the record skips all padding bytes, because the mask compares unsigned numbers.
  Such a record is accepted on the MAC of the header alone (`Cbc.AcceptsIffNaive`). The check equals the naive one on
  all records of a size exactly from MAC size + 256 bytes on (`Cbc.AcceptsIffNaiveForSize`). The number of compressions
  does not depend on the padding for any key prefix, block-aligned or not, in every record of up to 17536 bytes beside
  its MAC (`Cbc.VerifyCbc`).
- CBC: the re-hashed partial block lies inside every record exactly if at most MAC size + 1 bytes are in the current
  hash block (`Cbc.ReadsInBoundsIff`).
- HKDF label: the one-byte context length is cut. The block is the standard's encoding exactly if the context has at
  most 255 bytes (`Hkdfs.InfoIsHkdfLabel`), yet it stays injective for every context the code accepts
  (`Hkdfs.InfoInjective`).
- Base64 in PEM goes through a 64-byte buffer, and each buffer is decoded on its own. That is decoding in one pass
  exactly if the latter fails or no block is left in the buffers after the one in which it ends
  (`Base64.StagedIsDecode`). A padded block with more than its buffer after it is an input on which the two differ
  (`Base64.EarlyPadding`).
- Operations: a freed operation leaks a buffer exactly if a buffer for a signature was allocated twice, or the last thing
  that happened to it was that non-empty output was set (`AsyncPkey.History`); output that an empty one replaces is
  released. Signing again after a failure does the first (`AsyncPkey.RetriedSigningLeaks`), output set after apply the
  second (`AsyncPkey.LateOutputLeaks`). A strict verification sees the original digest exactly if no fast signing and no
  earlier verification used it up (`AsyncPkey.Before`).
- Loading a chain: the comment in crypto/s2n_certificate.c:79-82 wants to fail rather than use a partial chain. The
  code keeps the certificates read so far exactly if the attempt that failed ran to the end of the text
  (`Certificates.CreateCertChainFromStuffer`). That is exactly if the text breaks off there: it has no further dash, ends
  in the first dashes of a BEGIN or END line or right after one of its words, or ends in the contents with every full
  buffer before the last character decoding (`PemStops.ExhaustedIff`). So trailing text without a dash is ignored
  (`Certificates.TrailingText`), and a file cut off anywhere in the base64 of its last certificate loads without that
  certificate (`PemRender.CutRenderLoads`).

## Model

| member | source | states |
|---|---|---|
| Hashes.HashState.Update | crypto/s2n_hash.c:183-220 | absorbs the bytes, costs one compression per filled block, fails unless ready or if the 64-bit count overflows |
| Hashes.HashState.Digest | crypto/s2n_hash.c:222-265 | the hash of all absorbed bytes, for the right size only, after which the state is not ready |
| Hashes.HashState.CopyFrom | crypto/s2n_hash.c:267-271 | takes over algorithm, message and count without compressing |
| Hashes.HashState.Reset | crypto/s2n_hash.c:273-277 | back to the empty message of the same algorithm |
| Hashes.HashState.CurrentlyInHashBlock | crypto/s2n_hash.c:618-630 | the masked count is the byte count modulo the block size |
| Hashes.MessageWork | crypto/s2n_hash.c:183-265 | the compressions counted for a message are the 64- or 128-byte blocks of its padded form (section 5.1 of FIPS 180-4) |
| Hmacs.InnerToOuterPad | crypto/s2n_hmac.c:115-140 | xor with 0x6a turns the inner key block into the outer one |
| Hmacs.Hmac.SslV3MacInit | crypto/s2n_hmac.c:96-113 | the just-key states hold key and pads of section 5.2.3.1 of RFC 6101, whose bytes `SslV3Formula` spells out |
| Hmacs.Hmac.TlsHmacInit | crypto/s2n_hmac.c:115-140 | the just-key states hold the key blocks of section 2 of RFC 2104 for keys of any length, whose bytes `HmacFormula` spells out |
| Hmacs.Hmac.Init | crypto/s2n_hmac.c:201-242 | keyed with the key and nothing absorbed, for every algorithm and key |
| Hmacs.HmacFormula | crypto/s2n_hmac.c:115-140 | for keys up to a block, the MAC is h(K xor 0x5c.. , h(K xor 0x36.. , message)) with K zero-filled to 64 or 128 bytes, for each of the six algorithms by name |
| Hmacs.LongKeyFormula | crypto/s2n_hmac.c:119-125 | a longer key counts as its hash |
| Hmacs.SslV3Formula | crypto/s2n_hmac.c:96-113 | the SSLv3 MAC is h(K, 0x5c.. , h(K, 0x36.. , message)) with 48 pad bytes for MD5 and 40 for SHA-1 |
| Hmacs.MacSizes | crypto/s2n_hmac.c:68-74 | the size of each MAC in bytes |
| Hmacs.Hmac.Update | crypto/s2n_hmac.c:244-276 | appends to the message, keeps currently_in_hash_block equal to the inner count modulo the block size despite the 4294949760 offset, refuses over 17535 bytes |
| Hmacs.OffsetVanishes | crypto/s2n_hmac.c:250-276 | the large constant offset disappears modulo 64 and 128 |
| Hmacs.Hmac.Digest | crypto/s2n_hmac.c:278-286 | the MAC of everything absorbed since the reset |
| Hmacs.Hmac.DigestTwoCompressionRounds | crypto/s2n_hmac.c:288-311 | the same bytes, at exactly two compressions whatever the fill of the last block |
| Hmacs.Hmac.Reset | crypto/s2n_hmac.c:325-338 | ready for a new message under the same key, without compressing |
| Hmacs.Hmac.CopyFrom | crypto/s2n_hmac.c:345-369 | absorbs on from where the source was, under the same key |
| Hmacs.MacInPieces | crypto/s2n_hmac.c:244-338 | every split of a message into accepted updates gives the MAC of the whole message, by either digest, and leaves a reset state |
| Cbc.SplitWork | tls/s2n_cbc.c:63-81 | the floor identity that makes the hash work independent of where the payload ends |
| Cbc.MaskedDifference | tls/s2n_cbc.c:91-95 | a masked byte difference is zero unless the byte is padding and differs; a negative cutoff masks everything out |
| Cbc.PaddingMismatches | tls/s2n_cbc.c:88-95 | the 255-step loop finds a mismatch exactly if some padding byte differs from the length byte |
| Cbc.ReadsInBoundsIff | tls/s2n_cbc.c:63-81 | all reads are in bounds on all records exactly if at most MAC size + 1 bytes are in the current block |
| Cbc.AcceptsIffNaive | tls/s2n_cbc.c:49-100 | with fitting padding the check accepts exactly what the naive check accepts, otherwise exactly if the MAC of the header matches |
| Cbc.AcceptsIffNaiveForSize | tls/s2n_cbc.c:58-97 | the two checks agree on all records of a size exactly from MAC size + 256 bytes on |
| Cbc.VerifyWorkSplit | tls/s2n_cbc.c:65-81 | the work of both halves adds up to a number free of the padding |
| Cbc.VerifyCost | tls/s2n_cbc.c:65-81 | with keys up to a block and a 13-byte header that number is the blocks in size - MAC + 12 bytes, plus 3 |
| Cbc.AcceptsExactly | tls/s2n_cbc.c:49-100 | what is accepted, in positions and numbers for every version |
| Cbc.VerifyCbc | tls/s2n_cbc.c:49-100 | for version 30 succeeds exactly if the MAC after the payload matches, whatever the padding bytes, and for every other version exactly if padding that fits also repeats its length, with both parts within 17535 bytes; the number of compressions depends only on sizes and algorithm for every record of up to 17536 bytes beside its MAC, whatever its padding |
| Hkdfs.Extract | crypto/s2n_hkdf.c:33-46 | the MAC of the key under the salt, refused only for over-long keys |
| Hkdfs.Round | crypto/s2n_hkdf.c:64-72 | T(i) from T(i-1) of section 2.3 of RFC 5869 |
| Hkdfs.RoundsAtMost | crypto/s2n_hkdf.c:57-62 | the rounded-up quotient is at most 255 exactly if the size is at most 255 hash lengths |
| Hkdfs.Expand | crypto/s2n_hkdf.c:48-87 | the first bytes of T(1) T(2) ..., refused exactly outside 1..255 hash lengths or for over-long info, and then nothing is written |
| Hkdfs.OkmPrefix | crypto/s2n_hkdf.c:48-87 | a shorter output is a prefix of a longer one with the same info |
| Hkdfs.OkmBlock | crypto/s2n_hkdf.c:64-84 | block k of the output is the MAC of the block before it, the info and the byte k, cut off where the output ends |
| Hkdfs.Hkdf | crypto/s2n_hkdf.c:117-127 | extract followed by expand |
| Hkdfs.WriteInfo | crypto/s2n_hkdf.c:102-111 | the info block, refused exactly if it exceeds 514 bytes |
| Hkdfs.InfoIs | crypto/s2n_hkdf.c:102-111 | the block byte by byte, with the letters of "tls13 " |
| Hkdfs.InfoIsHkdfLabel | crypto/s2n_hkdf.c:89-115 | the block is the HkdfLabel encoding of section 7.1 of RFC 8446 exactly if the context has at most 255 bytes |
| Hkdfs.LongContext | crypto/s2n_hkdf.c:108-109 | a context of 256 bytes is accepted with length byte 0, for which no HkdfLabel exists |
| Hkdfs.InfoInjective | crypto/s2n_hkdf.c:89-115 | different lengths below 65536, labels or contexts never give the same block |
| Hkdfs.ExpandLabel | crypto/s2n_hkdf.c:89-115 | the expansion under that block; on success the 16-bit length is not cut |
| Counters.IncrementSequenceNumber | crypto/s2n_sequence.c:26-45 | adds one to the big-endian number, and fails exactly if that wraps |
| Counters.IncrementDrbgCounter | crypto/s2n_drbg.c:34-45 | adds one modulo 256^length |
| Counters.AfterAfter | crypto/s2n_drbg.c:34-45 | increments add up, modulo 256^length |
| Counters.ToBEDiffer | crypto/s2n_drbg.c:34-45 | a counter shows no value twice in fewer than 256^length steps |
| Counters.RunCounts | crypto/s2n_sequence.c:26-45 | n successful increments add n |
| Counters.RunDistinct | crypto/s2n_sequence.c:33-39 | in a run of successful increments no sequence number repeats |
| Counters.SequenceNumberToUint64 | crypto/s2n_sequence.c:47-59 | reads the big-endian number back |
| Drbgs.DistinctIff | crypto/s2n_drbg.c:58-87 | counter blocks are pairwise distinct exactly while there are at most 256^width of them |
| Drbgs.KeystreamBlock | crypto/s2n_drbg.c:58-87 | block i of a keystream is the encryption of the i-th counter block |
| Drbgs.Drbg.Bits | crypto/s2n_drbg.c:58-87 | the truncated counter keystream; the counter and bytes_used move by whole blocks |
| Drbgs.Drbg.Update | crypto/s2n_drbg.c:89-112 | CTR_DRBG_Update of section 10.2.1.2 of NIST SP 800-90A, whose bytes `UpdatedIs` spells out, and which blocks were encrypted under the key it gives up; wrong sizes change nothing |
| Drbgs.UpdatedIs | crypto/s2n_drbg.c:89-112 | byte i of the new key and counter is byte i % 16 of E(key, counter + i / 16 + 1) xor byte i of the data, for keys of 16 and 32 bytes |
| Drbgs.UpdatedInjective | crypto/s2n_drbg.c:101-104 | different data never lead from one state to the same state, so different entropy never does |
| Drbgs.Drbg.MixInEntropy | crypto/s2n_drbg.c:114-129 | updates with entropy xor string, refused exactly for wrong sizes |
| Drbgs.Drbg.Seed | crypto/s2n_drbg.c:131-141 | seeds and sets bytes_used to 0, unless entropy fails |
| Drbgs.Drbg.Mix | crypto/s2n_drbg.c:143-158 | reseeds and counts one mix; without entropy nothing changes |
| Drbgs.Drbg.Instantiate | crypto/s2n_drbg.c:160-200 | the working state of section 10.2.1.3.1, with the string cut to the seed size, after the first counter blocks under the zero key |
| Drbgs.InstantiatedIs | crypto/s2n_drbg.c:160-200 | the first state byte by byte: entropy xor personalization on the keystream of the zero key |
| Drbgs.Drbg.Generate | crypto/s2n_drbg.c:202-224 | refines reseed-then-generate (sections 10.2.1.4.1 and 10.2.1.5.1), adds 2 seed sizes plus 16 per started block to bytes_used, and encrypts exactly the counter blocks after the counter under the old key, then those after the reseeded counter under the next, none twice under one key; refused requests change nothing |
| Drbgs.GeneratedIs | crypto/s2n_drbg.c:202-224 | output and next state byte by byte, from the state into which the entropy was mixed |
| Stuffers.Stuffer.Resize | stuffer/s2n_stuffer.c:117-145 | shrinking wipes and cuts all cursors, growing keeps the contents, with the exact memory afterwards; refused exactly if tainted or static |
| Stuffers.Stuffer.ReserveSpace | stuffer/s2n_stuffer.c:372-385 | room for n bytes, growing by at least 1k and exactly to the size needed, in the same memory if that is large enough; or nothing changes |
| Stuffers.RoomIs | stuffer/s2n_stuffer.c:372-385 | in numbers: growth to the end of the data or by 1024, whichever is more, if that is below 2^32 |
| Stuffers.Stuffer.Wipe | stuffer/s2n_stuffer.c:204-217 | everything up to the high-water mark is overwritten with the pattern, nothing else is touched, and the stuffer is empty |
| Stuffers.Stuffer.WipeN | stuffer/s2n_stuffer.c:184-198 | drops and overwrites the last n bytes and nothing else, and pulls the read cursor along; from n = all on it is a wipe |
| Stuffers.Stuffer.ReadBytes | stuffer/s2n_stuffer.c:257-268 | the next n bytes of the queue; fails exactly if there are fewer or there is no memory at all, and then nothing moves |
| Stuffers.Stuffer.EraseAndReadBytes | stuffer/s2n_stuffer.c:270-280 | the same, and zeros in their place |
| Stuffers.Stuffer.SkipWrite | stuffer/s2n_stuffer.c:282-290 | moves the write cursor and the high-water mark over reserved room |
| Stuffers.Stuffer.WriteBytes | stuffer/s2n_stuffer.c:308-326 | appends, exactly if there is room or the buffer may grow; every other cell of the memory keeps its byte |
| Stuffers.Stuffer.WritevBytes | stuffer/s2n_stuffer.c:328-357 | appends bytes offs..offs+n of the concatenated vectors |
| Stuffers.Copy | stuffer/s2n_stuffer.c:390-402 | moves n bytes from queue to queue; a failed copy leaves both as they were |
| StufferRuns.FirstInFirstOut | stuffer/s2n_stuffer.c:257-402 | over every run, what left a queue followed by what is in it is what was in it followed by what entered |
| StufferRuns.RunQueues | stuffer/s2n_stuffer.c:257-402 | every run of writes, gathered writes, reads and copies on two stuffers is that run on two FIFO queues, and each operation succeeds exactly if the queue machine accepts it |
| StufferRuns.Step | stuffer/s2n_stuffer.c:117-402 | each operation is exactly a move of the state machine: all cells, cursors, flags and reservations, failures included |
| StufferRuns.RunThenWipe | stuffer/s2n_stuffer.c:117-217 | any run of writes, gathers, numbers, copies, skips, raw writes that the caller fills, reads, erasures, rewinds, rewrites, wipes, resizes, and reservations filled in or closed in any order is a run of the machine; a wipe then leaves the letter w or a zero in every cell that was ever below the high-water mark, also in memory that growth added, and every other cell holds one of these or what it held at the start or when delivered |
| StufferRuns.RunIsClean | stuffer/s2n_stuffer.c:117-402 | in every run of the machine no cell from the high-water mark on holds data |
| StufferRuns.StaysReached | stuffer/s2n_stuffer.c:117-402 | a cell that was below the mark at any time counts as reached, unless it was left behind in memory that was given up |
| StufferRuns.WriteThenWipe | stuffer/s2n_stuffer.c:204-217 | of chunks written to an empty growable stuffer, with any growth in between, a wipe leaves no byte |
| StufferRuns.PointersStay | stuffer/s2n_stuffer.c:117-145 | once a raw pointer was handed out the memory keeps its place and size until a wipe, over every run |
| StufferRuns.RawTaints | stuffer/s2n_stuffer.c:292-299 | raw reads, raw writes and gathered writes that do anything hand one out |
| NetworkOrder.WriteNetworkOrder | stuffer/s2n_stuffer_network_order.c:24-37 | appends the low bytes, most significant first |
| NetworkOrder.ReadUint24 | stuffer/s2n_stuffer_network_order.c:94-106 | the big-endian number in the next three bytes, or nothing moves |
| NetworkOrder.ReadUint16 | stuffer/s2n_stuffer_network_order.c:71-82 | the same for two bytes |
| Bytes.ReadsBack | stuffer/s2n_stuffer_network_order.c:24-106 | a value that fits the width is read as written |
| Bytes.XorBit | crypto/s2n_hmac.c:127-138 | the exclusive or of the model is that of every bit |
| NetworkOrder.Reserve | stuffer/s2n_stuffer_network_order.c:39-50 | appends that many wipe-pattern bytes and remembers where |
| NetworkOrder.LengthMatchesValue | stuffer/s2n_stuffer_network_order.c:162-173 | true exactly if the value fits the width |
| NetworkOrder.WriteReservation | stuffer/s2n_stuffer_network_order.c:175-193 | overwrites just the reserved bytes that are still contents; succeeds exactly if the value fits, the read cursor is not past them, the high-water mark is not before them and there is room, and changes nothing otherwise |
| NetworkOrder.WriteVectorSize | stuffer/s2n_stuffer_network_order.c:195-202 | stores the size written since, and fails exactly if it does not fit the width |
| NetworkOrder.CloseVector | stuffer/s2n_stuffer_network_order.c:195-202 | after a body the reserved bytes become its exact length; fails exactly if the length does not fit |
| NetworkOrder.WriteBody | stuffer/s2n_stuffer_network_order.c:24-202 | any nesting of reserve, write and close is the recursive encoding of section 3.4 of RFC 8446, with growth in between, and refused only if there is none |
| NetworkOrder.ReadsIff | stuffer/s2n_stuffer_network_order.c:24-202 | a reader that follows the length prefixes finds a body at a place exactly if its encoding is there |
| Base64.BlockRoundTrip | stuffer/s2n_stuffer_base64.c:75-209 | four characters decode to the bytes they encode |
| Base64.BlockCanonical | stuffer/s2n_stuffer_base64.c:99-135 | accepted characters are the encoding of what they decode to, so unused bits are zero |
| Base64.AlphabetIs | stuffer/s2n_stuffer_base64.c:24-29 | the 64 characters of section 4 of RFC 4648 and the padding character, as literals |
| Base64.Base64Chars | stuffer/s2n_stuffer_base64.c:46-68 | a base64 character is a letter, a digit, plus, slash or equals, and nothing else |
| Base64.BlockNumber | stuffer/s2n_stuffer_base64.c:148-209 | four characters and their three bytes spell the same 24-bit number, with zero bits before the padding |
| Base64.EncodeBlockAt | stuffer/s2n_stuffer_base64.c:148-209 | block k encodes bytes 3k to 3k + 3 |
| Base64.DecodeEncode | stuffer/s2n_stuffer_base64.c:75-209 | decoding an encoding gives the bytes back and consumes all of it |
| Base64.EncodeDecode | stuffer/s2n_stuffer_base64.c:75-209 | whenever decoding succeeds, encoding the output gives the characters consumed |
| Base64.StagedIsDecode | stuffer/s2n_stuffer_pem.c:73-111 | decoding through a 64-byte staging buffer is decoding in one pass, exactly if the latter fails or no block is left in the buffers after the one in which it ends |
| Base64.StagedIff | stuffer/s2n_stuffer_pem.c:73-111 | staged decoding succeeds exactly if every buffer of 64 characters and the last shorter one decode, and yields their bytes in order |
| Base64.EarlyPadding | stuffer/s2n_stuffer_pem.c:73-111 | a padded block, any 60 characters and a padded block: staging yields both bytes, one pass the first only |
| Base64.ReadBase64 | stuffer/s2n_stuffer_base64.c:75-146 | appends what the consumed characters decode to; fails only on bad data or lack of room |
| Base64.WriteBase64 | stuffer/s2n_stuffer_base64.c:148-209 | appends the encoding of all unread bytes |
| Text.SkipToChar | stuffer/s2n_stuffer_text.c:107-118 | stops at the first occurrence or the end |
| Text.SkipToIff | stuffer/s2n_stuffer_text.c:107-118 | that position is the one before which the character does not occur |
| Text.SkipRunIff | stuffer/s2n_stuffer_text.c:121-139 | a bounded run ends at the bound, the end or another character |
| Text.SkipSpaceIff | stuffer/s2n_stuffer_text.c:44-60 | whitespace ends at the first other character |
| Pem.ReadEncapsulationLine | stuffer/s2n_stuffer_pem.c:35-61 | accepts exactly the lines of `LineIff`, stepping back one dash when the next BEGIN follows at once, and stops at the first piece that is missing |
| Pem.ReadContents | stuffer/s2n_stuffer_pem.c:73-111 | up to the next dash, appends the decoding of the base64 characters in between; otherwise stops at the end, the dash, or the character that makes a full staging buffer fail |
| Pem.Object | stuffer/s2n_stuffer_pem.c:45-61 | an object ends beyond where it began in spite of the one-byte rewind, so loading terminates, and holds at most 3/4 of the bytes it spans |
| Pem.DataFromPem | stuffer/s2n_stuffer_pem.c:113-126 | appends the bytes of one object and stops after it |
| PemShapes.Words | stuffer/s2n_stuffer_pem.c:23-33 | the words BEGIN, END and CERTIFICATE, the dash and the whitespace, letter by letter |
| PemShapes.LineIff | stuffer/s2n_stuffer_pem.c:35-61 | a line is accepted exactly if the text has no dash up to 1 to 64 dashes, then the marker, then CERTIFICATE, then 1 to 64 dashes and whitespace |
| PemShapes.FilteredAt | stuffer/s2n_stuffer_pem.c:84-101 | the characters decoded are those in base64 positions of the contents, all of them, in order |
| PemShapes.CertificateIff | stuffer/s2n_stuffer_pem.c:113-126 | a certificate is accepted exactly if such a BEGIN line, contents up to a dash that decode to it, and such an END line follow each other |
| PemShapes.ChainIff | crypto/s2n_certificate.c:43-88 | the chain read from any text is exactly the certificates it holds in order, up to its end or to where no certificate follows |
| PemStops.LineStopIff | stuffer/s2n_stuffer_pem.c:35-61 | a missing line is searched to the end exactly if there is no dash, or a line ends the text in its first dashes or right after a word |
| PemStops.ContentsStopIff | stuffer/s2n_stuffer_pem.c:73-111 | contents are read to the end exactly if there is no dash and no flush fails before the last character |
| PemStops.BodyCutIff | stuffer/s2n_stuffer_pem.c:73-111 | no flush fails exactly if every full buffer of base64 characters that another one follows decodes |
| PemStops.ObjectStopIff | stuffer/s2n_stuffer_pem.c:113-126 | a missing object is searched to the end exactly if the text breaks off in or before its BEGIN line, in its contents or in its END line |
| PemStops.ExhaustedIff | crypto/s2n_certificate.c:51-83 | the text of a chain is used up exactly if no attempt fails, or it breaks off where the first attempt fails |
| PemChain.BodyParses | stuffer/s2n_stuffer_pem.c:73-111 | every interleaving of base64(d) with characters that are neither base64 nor dash, ended by a dash, reads as d |
| PemChain.EndCloses | stuffer/s2n_stuffer_pem.c:45-61 | after an END line the rest of the text is the rest of the chain, also when dashes of two lines run together |
| PemChain.CutParses | crypto/s2n_certificate.c:51-83 | a text that breaks off after any part of a certificate's contents, with any characters in between, yields no further certificate and is used up |
| PemChain.ParseRender | crypto/s2n_certificate.c:43-88 | every text of comments, lines and bodies for a list of certificates parses as exactly that list, and without its last certificate if the text breaks off in it |
| PemRender.RenderLoads | crypto/s2n_certificate.c:43-88 | any non-empty list of non-empty certificates, written with or without whitespace in between, loads as that list |
| PemRender.CutRenderLoads | crypto/s2n_certificate.c:51-83 | a text cut off after any number of base64 characters of its last certificate loads as the list without it |
| Certificates.CreateCertChainFromStuffer | crypto/s2n_certificate.c:43-88 | keeps the certificates in order with chain_size the sum of length + 3; succeeds exactly if there is one, none is empty, and the text was used up by them or by a failed attempt at one more |
| Certificates.TrailingText | crypto/s2n_certificate.c:51-58 | text without a dash after the last certificate is ignored |
| CertificateLists.SendCertChain | crypto/s2n_certificate.c:508-547 | on success the list is sent with exact lengths and outer length chain_size; a certificate of 2^24 bytes or more always fails |
| CertificateLists.List12Size | crypto/s2n_certificate.c:72-85 | the bytes of a list are the chain_size computed at load |
| CertificateLists.ListsAre | tls/s2n_client_cert.c:67-93 | the TLS 1.2 and 1.3 lists byte by byte from the front |
| CertificateLists.EntriesOfList | tls/s2n_client_cert.c:77-87 | every TLS 1.3 list of entries that fit their lengths is read back entry by entry |
| CertificateLists.ListOfEntries | tls/s2n_client_cert.c:77-87 | only the encoding of a list of entries reads as one |
| CertificateLists.StripExtensions | tls/s2n_client_cert.c:67-93 | the TLS 1.2 list of the certificates in order, within a buffer of the input's size, refused exactly if the input is no list of entries |
| CertificateLists.StoreClientCertChain | tls/s2n_client_cert.c:57-94 | a copy before TLS 1.3; since then exactly the TLS 1.2 form of a well-formed TLS 1.3 list |
| AsyncPkey.Connection.Guard | tls/s2n_async_pkey.h:32-48 | continues, blocks, or clears a completed operation |
| AsyncPkey.Connection.Execute | tls/s2n_async_pkey.c:161-184 | hands the operation out only if none is out, and frees it otherwise |
| AsyncPkey.PkeyOp.Perform | tls/s2n_async_pkey.c:289-304 | runs at most once to success; fast signing uses up the digest, strict signing a copy |
| AsyncPkey.PkeyOp.SignPerform | tls/s2n_async_pkey.c:387-413 | a new buffer per attempt, and which digest is signed |
| AsyncPkey.PkeyOp.SetOutput | tls/s2n_async_pkey.c:577-618 | replaces the result by all the data and marks the operation complete, at any time; `Delivers` says what becomes of it |
| AsyncPkey.PkeyOp.Complete | tls/s2n_async_pkey.c:360-430 | strict signatures are verified first, and a failed verification stops |
| AsyncPkey.PkeyOp.Apply | tls/s2n_async_pkey.c:306-332 | only a complete, unapplied operation on its own waiting connection, which then is complete |
| AsyncPkey.PkeyOp.Free | tls/s2n_async_pkey.c:334-347 | releases unless apply already did |
| AsyncPkey.PkeyOp.SetValidationMode | tls/s2n_async_pkey.c:461-473 | changes the mode and nothing else |
| AsyncPkey.CallSound | tls/s2n_async_pkey.c:289-473 | every call keeps the history of an operation in order and its flags and buffers in step with it |
| AsyncPkey.NextOneEach | tls/s2n_async_pkey.c:161-332 | every step keeps: a connection waits exactly while one operation of its is handed out and not applied |
| AsyncPkey.RunsAreSound | tls/s2n_async_pkey.c:161-347 | both hold after every run on any set of connections |
| AsyncPkey.History | tls/s2n_async_pkey.c:306-347 | in every run a result is applied successfully at most once, a freed operation was released exactly once, and it leaks exactly if two buffers were allocated for signing or its last event is non-empty output |
| AsyncPkey.Before | tls/s2n_async_pkey.c:415-430 | in every run on_complete follows a result and gets the last one given, is told of a failure exactly if a decryption failed, in strict mode comes right after the verification of that signature, and a verification sees the original digest exactly if nothing used it before |
| AsyncLedgers.Delivers | tls/s2n_async_pkey.c:360-430 | in every run on_complete gets exactly the bytes that the calls of the application gave last, the mode they set last and whether the decryption failed, all read off the calls alone |
| AsyncLedgers.RunMatches | tls/s2n_async_pkey.c:289-473 | in every run an operation has the result, mode, failure flag and signing attempts that its calls say |
| AsyncLedgers.ResumedIff | tls/s2n_async_pkey.c:306-332 | applying resumes the connection exactly if the operation is pending on it, the calls gave a result, a strict signature verifies and on_complete succeeds |
| AsyncLedgers.LeaksByCalls | tls/s2n_async_pkey.c:334-347 | freeing leaks exactly if the calls tried to sign twice, or non-empty output was set last of all after apply |
| AsyncPkey.ResumedByOwn | tls/s2n_async_pkey.c:306-332 | a waiting connection is resumed only by applying its own completed operation |
| AsyncPkey.FreedBlocks | tls/s2n_async_pkey.c:334-347 | after an unapplied operation is freed its connection waits forever |
| AsyncPkey.LateOutputLeaks | tls/s2n_async_pkey.c:577-618 | an example: output set again after apply is never released |
| AsyncPkey.RetriedSigningLeaks | tls/s2n_async_pkey.c:387-413 | an example: the buffer of a failed signing is never released if signing is tried again, and is if not |
| AsyncPkey.LateStrictness | tls/s2n_async_pkey.c:398-424 | an example: signed fast and then made strict, the verification gets a used digest |

## Left out

- Cbc.VerifyCbc: records of 2^31 bytes and more and states that hashed 2^64 bytes are excluded, because the source computes in `int` and the count would overflow; the comparison of MAC bytes is plain equality.
- Counters.SequenceNumberToUint64: numbers over 8 bytes are excluded, because the shift is undefined there.
- Hkdfs.Round: the round byte is the low byte of a 32-bit counter in memory, which assumes a little-endian machine.
- AsyncPkey.PkeyOp.Apply: the contents of the hash state after a fast signing or a verification are not modelled, only that the digest was used.
- Wall-clock time: only the number of hash compressions is modelled.
- Allocation failure and memory addresses: allocations succeed, `s2n_realloc` may allocate more than asked, and stuffers are distinct objects.
- The checks of debug builds (`s2n_stuffer_validate`) are part of `Valid`; release builds skip them.
- The linked list of certificates is a sequence, and its nodes' memory is not modelled.
- libcrypto, its failures, the EVP variant of the hash state, and FIPS flags.
- Sending certificate extensions in TLS 1.3, the synchronous private-key path, and reading an operation's input.
- Wiping and reusing a connection while an operation is out, and calls on an operation that was freed.
- The test-only switch that turns off prediction resistance, and unknown DRBG modes.
- The handshake loop, record layer, alerts, cipher wrappers, command-line programs and file input.
- Reads of 8, 32 and 64 bits, the fixed-width forms of the integer writes, skipping to a string, and reading lines and tokens.
