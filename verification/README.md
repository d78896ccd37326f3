# CMFuzz: a verified model of the arithmetic, the generator, the voting oracle and the wire formats

CMFuzz drives cryptographic libraries and compares them with each other. Most of its code calls into
those libraries. This project models the parts that compute something themselves, for builds without
injected faults, and proves what they promise:

- **Raw ECDSA** (`ModArith`, `CurveGroup`, `Ecdsa`): signer, verifier and nonce-reuse solver
  (section 6.4 of FIPS 186-5), over an arbitrary group of prime order with an arbitrary x-coordinate
  that opposite points share. The main result is an if-and-only-if: for r and s in 1..n-1 the verifier
  accepts exactly the pairs that the key owner can sign with some nonce. It tests no range itself:
  outside, it accepts every signature with a multiple of n added to s, and r = 0 under a stated
  condition. For two different nonces, equal r is avoided exactly when they are not opposite and their
  coordinates do not collide modulo the order. Solving for the key succeeds exactly when the two nonces
  were equal, and from a reused nonce exactly when the digests are not congruent. `GroupOf5` is a
  concrete group, so the laws assumed of a group can be met.
- **Generator** (`Iteration`, `Words`, `Generator`, `Reader`): SplitMix64 on machine words, its
  explicit inverse, its exact period 2^64 and its byte stream, the FNV-1a seed, and the byte reader.
  A request gives the bytes of two requests that add up to it exactly when the first ends on a word
  boundary or the second is empty.
- **Nonces** (`Nonces`): the TLS 1.3 record nonce (section 5.3 of RFC 8446) and the counter nonce
  source over whole runs.
- **Encrypt-then-MAC** (`EncryptThenMac`): CBC with PKCS#7 padding over an arbitrary keyed permutation
  of blocks, under an arbitrary MAC.
- **Wire formats** (`HexCodec`, `WireCodec`, `Parsers`, `JavaHex`): hex lines, request blobs and the
  verify payload nested in them; the five re-implementations of the parsers and exactly where they
  agree.
- **Request generation** (`Draws`, `Requests`, `Payloads`, `RequestRun`): from the generator state to
  what a CLI reads, for one compute request, one verify request, and all requests of a run.
- **Voting oracle** (`Tally`, `Ballots`, `Voting`, `RunProperties`, `Runner`): who votes, who is
  charged, and what the counters of a whole run mean.
- **End to end** (`WholeRun`): from the seed to the exit status, which is 0 exactly when every backend,
  wherever it is heard, gives what one function of the parsed request yields.
- **Timing engine** (`Statistics`, `Cropping`): the one-pass accumulator, Welch's t, percentile
  cropping and the verdict, over exact reals.

Code that updates state is modelled by classes and by methods with loops. Each method is tied to a
function of its inputs or of the old state, and the theorems are about those functions. `Bytes` and
`Options` hold shared vocabulary.

`dafny verify dfyconfig.toml` checks everything.

## Where the code and its comments part

- `cmfuzz/harness/seq_ecdsa_harness.c:108` calls equal r the same as a reused nonce. In every group of
  order above 2 the nonces `k` and `n - k` differ and give equal r, whatever the two messages
  (`OppositeNonces`). `EqualRMeansReuseIff` gives the exact condition for the comment to hold,
  `EqualRWithoutReuse` numbers for which it does not and solving returns neither nonce nor key.
- `cmfuzz/harness/seq_ecdsa_harness.c:111-112` speaks of recovering the private key from a reused nonce.
  On congruent digests the two s are equal and the key does not come out: `ReuseRevealsKeyIff`.
- `cmfuzz/harness/seq_ecdsa_harness.c:111-127` cannot be reached: the assertion before it ends the
  process exactly when its guard holds. The block is modelled on its own, by `SolveForKey`.
- `cmfuzz/harness/subproc/diff_subproc_runner.c:505-506` lets every backend that answered vote. There is
  room for fifteen. `EveryoneHeardIff` gives the exact condition, `SixteenthUnheard` a run where the
  order of the command line decides between silence and a report.
- `cmfuzz/harness/subproc/compute_pycryptodome.py:46-56` accepts a payload whose signature length
  overruns, which the C parser refuses; everywhere else they agree. `PythonPayloadAgreesIff` gives the
  condition, `PythonPayloadDisagrees` the shortest case.
- `cmfuzz/harness/subproc/compute_common.h:53-55` has both sides agree by construction.
  On hex text that no runner writes, Java and C do not: Java takes a sign as the first of a pair of hex
  digits and digits beyond ASCII, trims every control character where C trims three, pairs characters
  where C pairs bytes, and finds no text at all after a lone op, where C decodes zero bytes.
  `JavaHex.LinesDifferIff` gives the exact condition for every text after the op. Except for a text
  without visible characters, whatever C decodes Java decodes to the same bytes.

## Model

The main results are marked. The other rows are the operations, and the facts that lead to the main
results or follow from them.

| member | source | states |
|---|---|---|
| ModArith.InverseCorrect | cmfuzz/harness/seq_ecdsa_harness.c:56 | modulo a prime, every number that is no multiple of it has the inverse the code takes, in 1..n-1 |
| ModArith.QuotientSolves | cmfuzz/harness/seq_ecdsa_harness.c:55-59 | multiplying by the inverse gives the one solution x of a * x = b modulo the prime, and no other |
| CurveGroup.MulAdd | cmfuzz/harness/seq_ecdsa_harness.c:75 | scalar multiplication turns sums of scalars into sums of points |
| CurveGroup.MulMul | cmfuzz/harness/seq_ecdsa_harness.c:75 | multiplying by a product is multiplying twice, so u2 * pub is (u2 * d) * G |
| CurveGroup.MulCong | cmfuzz/harness/seq_ecdsa_harness.c:51 | scalars congruent modulo the order reach the same point |
| CurveGroup.MulIsZero | cmfuzz/harness/seq_ecdsa_harness.c:51-52 | k * G is the point at infinity exactly when the order divides k, so a nonce never reaches it |
| CurveGroup.MulOpposite | cmfuzz/harness/seq_ecdsa_harness.c:51-53 | n - k reaches the opposite point of k, with the same x-coordinate |
| CurveGroup.MulInjective | cmfuzz/harness/seq_ecdsa_harness.c:51 | below the order, distinct scalars reach distinct points |
| CurveGroup.EqualCoordinatesIff | cmfuzz/harness/seq_ecdsa_harness.c:51-53 | where only opposite points share a coordinate, two nonces reach the same one iff they are equal or add up to the order |
| Ecdsa.DrawNonce | cmfuzz/harness/seq_ecdsa_harness.c:30-39 | the nonce lies in 1..n-1, and is the draw unless that is zero |
| Ecdsa.NonceFromDraw | cmfuzz/harness/seq_ecdsa_harness.c:36-38 | two draws give the same nonce iff they are equal or are zero and one |
| Ecdsa.SignEquation | cmfuzz/harness/seq_ecdsa_harness.c:51-61 | (r, s) is the signature under nonce k iff r is the reduced x-coordinate of k * G, both are nonzero residues, and k * s = z + r * d |
| Ecdsa.EcdsaSign | cmfuzz/harness/seq_ecdsa_harness.c:42-62 | the BIGNUM steps return success exactly when a signature exists, and then leave it in r and s |
| Ecdsa.ModInverse | cmfuzz/harness/seq_ecdsa_harness.c:56 | leaves a number in 1..n-1 whose product with the argument is 1 modulo n; it fails exactly when no number has that product, and then leaves a parameter |
| Ecdsa.VerifyScalars | cmfuzz/harness/seq_ecdsa_harness.c:72-74 | u1 + u2 * d = k for every k with s * k = z + r * d |
| Ecdsa.VerifyPoint | cmfuzz/harness/seq_ecdsa_harness.c:75-78 | for every such k, and every r, verification accepts iff r is the reduced x-coordinate of k * G |
| Ecdsa.VerifyAcceptsExactlySignatures | cmfuzz/harness/seq_ecdsa_harness.c:42-81 | **Main result:** under pub = d * G, for every r and every invertible s, verification accepts iff some nonce signs (r, s mod n), or r = 0 and the point of z / s has reduced coordinate 0; in the range 1..n-1 iff some nonce signs (r, s) |
| Ecdsa.AcceptsUnsignedZero | cmfuzz/harness/seq_ecdsa_harness.c:64-81 | a concrete r = 0 that verification accepts and no nonce signs |
| Ecdsa.HonestVerifies | cmfuzz/harness/seq_ecdsa_harness.c:104-106 | every signature the signer produces is accepted, and its s is invertible |
| Ecdsa.EcdsaVerify | cmfuzz/harness/seq_ecdsa_harness.c:64-81 | the BIGNUM steps accept exactly when the x-coordinate test holds; for an s without inverse, with what the failed inversion leaves in its place, and if that is zero exactly r = 0 is accepted |
| Ecdsa.OppositeNonces | cmfuzz/harness/seq_ecdsa_harness.c:108 | k and n - k differ when n > 2; whatever the digests, their signatures share r, and the second exists unless its digest is -r * d; on one digest the s are opposite |
| Ecdsa.CollideIff | cmfuzz/harness/seq_ecdsa_harness.c:52-53 | coordinates below 2n collide iff they differ by exactly n, coordinates below n never |
| Ecdsa.EqualRIff | cmfuzz/harness/seq_ecdsa_harness.c:108 | two signatures share r iff the nonces are equal, opposite, or reach coordinates that differ by a nonzero multiple of the order |
| Ecdsa.EqualRMeansReuseIff | cmfuzz/harness/seq_ecdsa_harness.c:108 | **Main result:** "equal r iff reused nonce" holds for two signatures iff the nonces are equal, or neither opposite nor in collision; where coordinates are below the order, iff they are equal or not opposite |
| Ecdsa.ReusedNonce | cmfuzz/harness/seq_ecdsa_harness.c:108 | with one nonce r is repeated, and s is repeated iff the digests are congruent |
| Ecdsa.SolvedKeyIffNonceReused | cmfuzz/harness/seq_ecdsa_harness.c:111-127 | **Main result:** from two signatures with equal r and different s, the steps return the nonce, and the key, iff the nonces were equal |
| Ecdsa.EqualRWithoutReuse | cmfuzz/harness/seq_ecdsa_harness.c:108-127 | a concrete group where r is equal, the nonces differ, and solving returns neither nonce nor key |
| Ecdsa.SolveForKey | cmfuzz/harness/seq_ecdsa_harness.c:118-125 | the in-place steps leave the solved nonce in k and the solved key in dr, where an inversion fails with what it leaves; on congruent digests k is zero |
| Ecdsa.EqualDigestsSolveNothing | cmfuzz/harness/seq_ecdsa_harness.c:111-127 | from a nonce reused on congruent digests the solved key is never the private key |
| Ecdsa.ReuseRevealsKeyIff | cmfuzz/harness/seq_ecdsa_harness.c:111-127 | **Main result:** from a reused nonce the block ends with the private key iff the digests are not congruent, whatever its failed inversions leave |
| Ecdsa.RunSequence | cmfuzz/harness/seq_ecdsa_harness.c:83-110 | a run never reports an honest signature, and reports reuse iff both signatures exist and agree in r |
| Iteration.CountPeriod | cmfuzz/engine/cmfuzz_common.h:31 | a wrapping counter seen through an invertible map meets every state once per period |
| Words.WordLawful | cmfuzz/engine/cmfuzz_common.h:31 | 64-bit words with their bytes and wrapping increment are such a counter, of period 2^64 |
| Words.RawBytes | cmfuzz/engine/cmfuzz_common.h:48 | byte i of a word is what a shift by 8 * i leaves in its low byte |
| Generator.MixBijective | cmfuzz/engine/cmfuzz_common.h:30-35 | **Main result:** the finalizer has a two-sided inverse on 64-bit words |
| Generator.StatePeriod | cmfuzz/engine/cmfuzz_common.h:31 | the states after m and n steps are equal iff m and n are congruent modulo 2^64 |
| Generator.StateReaches | cmfuzz/engine/cmfuzz_common.h:31 | every state is reached from every other in fewer than 2^64 steps |
| Generator.OutputPeriod | cmfuzz/engine/cmfuzz_common.h:30-35 | **Main result:** outputs i and j are equal iff i and j are congruent modulo 2^64: 2^64 consecutive outputs are distinct |
| Generator.OutputReaches | cmfuzz/engine/cmfuzz_common.h:30-35 | **Main result:** every 64-bit word is among the first 2^64 outputs, from every seed |
| Generator.KnownOutputs | cmfuzz/engine/cmfuzz_common.h:30-35 | from state zero the first two words are those of SplitMix64 |
| Generator.Prng.Next | cmfuzz/engine/cmfuzz_common.h:30-35 | one call returns output 0 of the old state and moves one step on |
| Generator.Prng.RandomBytes | cmfuzz/engine/cmfuzz_common.h:44-52 | **Main result:** byte j is byte j mod 8, little-endian, of word j / 8; the state advances by exactly ceil(n / 8) steps |
| Generator.StreamWord | cmfuzz/engine/cmfuzz_common.h:45-50 | eight bytes of a request from a word boundary are the word, least significant byte first |
| Generator.AlignedSplits | cmfuzz/engine/cmfuzz_common.h:44-52 | a request of a + b bytes equals one of a followed by one of b whenever 8 divides a |
| Generator.MisalignedDoesNotSplit | cmfuzz/engine/cmfuzz_common.h:44-52 | for every other a and nonempty b, a state exists from which the bytes differ |
| Generator.SplitIffAligned | cmfuzz/engine/cmfuzz_common.h:44-52 | **Main result:** so requests split from every state iff 8 divides a or b is zero |
| Generator.Prng.Seed | cmfuzz/engine/cmfuzz_common.h:37-41 | the loop stores the fold of the buffer, or the fallback for zero; the stored state is never zero |
| Generator.FoldUndone | cmfuzz/engine/cmfuzz_common.h:39 | the last step is undone by dividing by the prime and then XORing the byte away, so the byte goes in first |
| Generator.FoldOfA | cmfuzz/engine/cmfuzz_common.h:38-40 | the fold of the byte "a", the stored state for no bytes, and the fallback, as numbers |
| Generator.FnvStepInjective | cmfuzz/engine/cmfuzz_common.h:39 | each XOR-then-multiply step is injective in the state, and in the byte |
| Generator.FoldSeparates | cmfuzz/engine/cmfuzz_common.h:39 | buffers of one length that differ in exactly one byte never fold to the same value |
| Generator.StoredSeparates | cmfuzz/engine/cmfuzz_common.h:37-41 | **Main result:** their stored states coincide iff one folds to zero and the other to the fallback value |
| Generator.VectorSource.Rnd | cmfuzz/harness/subproc/diff_subproc_runner.c:35-40 | the runner's generator gives the engine's word and next state from the same state |
| Generator.VectorSource.RndBytes | cmfuzz/harness/subproc/diff_subproc_runner.c:41-43 | byte k is the low byte of word k, one step for each byte; the rest of the buffer is unchanged |
| Reader.NumberDetermines | cmfuzz/engine/cmfuzz_common.h:67-71 | byte strings of one length have the same big-endian number iff they are equal |
| Reader.FourBytes | cmfuzz/engine/cmfuzz_common.h:67-71 | four bytes count 2^24, 2^16, 2^8 and 1 times their values, the first the most |
| Reader.WindowSplits | cmfuzz/engine/cmfuzz_common.h:64-66 | successive reads are one read, also across the end, where zeros follow |
| Reader.Cursor.U8 | cmfuzz/engine/cmfuzz_common.h:64-66 | the next byte, or zero at the end, where the position stays |
| Reader.Cursor.U32 | cmfuzz/engine/cmfuzz_common.h:67-71 | the big-endian number of the next four bytes, zeros past the end, without loss in 32 bits |
| Reader.Cursor.Rest | cmfuzz/engine/cmfuzz_common.h:73-78 | what was read and the returned slice make up the data, and nothing is left |
| Nonces.RecNonce | cmfuzz/harness/comp_trad_harness.c:70-74 | the loop computes the static IV XOR the sequence number left-padded to 12 bytes |
| Nonces.RecordNonceInjective | cmfuzz/harness/comp_trad_harness.c:70-74 | **Main result:** the sequence number can be read back, nonces are equal iff sequence numbers are, and the first four bytes are the IV's |
| Nonces.PaddedBytes | cmfuzz/harness/comp_trad_harness.c:72-73 | the padded number is four zeros and then its bytes, each a shift of it, most significant first |
| Nonces.FlippedSequence | cmfuzz/harness/comp_trad_harness.c:148 | seq XOR 1 always has another nonce, which differs in exactly the lowest bit of the last byte |
| Nonces.ReadPadded | cmfuzz/harness/seq_aead_harness.c:42 | the emitted bytes decode to the counter value |
| Nonces.NonceSource.Next | cmfuzz/harness/seq_aead_harness.c:37-45 | one call emits the padded counter and increments it, wrapping at 2^64 |
| Nonces.RunNonceRepeats | cmfuzz/harness/seq_aead_harness.c:37-45 | calls i and j of a run emit equal nonces iff i and j are congruent modulo 2^64, from every starting counter |
| Nonces.RunDistinctIff | cmfuzz/harness/seq_aead_harness.c:35-45 | **Main result:** a run never repeats a nonce iff it makes at most 2^64 calls |
| EncryptThenMac.PadBytes | cmfuzz/harness/comp_trad_harness.c:40 | padding adds one to sixteen bytes up to a block boundary, each holding their number |
| EncryptThenMac.UnpadPad | cmfuzz/harness/comp_trad_harness.c:63 | the padding check undoes the padding, for every message |
| EncryptThenMac.PadUnpad | cmfuzz/harness/comp_trad_harness.c:63 | and accepts nothing but padded messages |
| EncryptThenMac.DecryptEncrypt | cmfuzz/harness/comp_trad_harness.c:38-40 | CBC decryption undoes encryption |
| EncryptThenMac.EncryptDecrypt | cmfuzz/harness/comp_trad_harness.c:60-64 | and encryption undoes decryption |
| EncryptThenMac.Chained | cmfuzz/harness/comp_trad_harness.c:38-40 | every ciphertext block is the cipher of its plaintext block XORed with the block before it, the IV before the first |
| EncryptThenMac.Unchained | cmfuzz/harness/comp_trad_harness.c:61-62 | every block decrypts to its inverse cipher XORed with the block before it |
| EncryptThenMac.SealLayout | cmfuzz/harness/comp_trad_harness.c:33-45 | a sealed message is the IV, a ciphertext that decrypts to the padded message, and the MAC of both, of length 16 + 16 * (n / 16 + 1) + 32 |
| EncryptThenMac.SealedBlock | cmfuzz/harness/comp_trad_harness.c:33-45 | in a sealed message, block i after the IV is the cipher of block i of the padded message XORed with the block before it |
| EncryptThenMac.OpenedBlock | cmfuzz/harness/comp_trad_harness.c:61-64 | of an opened message, block i of the padded text is the inverse cipher of that block XORed with the block before it |
| EncryptThenMac.OpensExactlySealed | cmfuzz/harness/comp_trad_harness.c:33-67 | **Main result:** opening x yields m iff x is the sealing of m under the IV that x begins with |
| EncryptThenMac.AcceptedTag | cmfuzz/harness/comp_trad_harness.c:53-58 | accepted input ends in exactly the MAC of what precedes it; after the same iv and ciphertext every other tag is rejected |
| EncryptThenMac.AcceptedFlip | cmfuzz/harness/comp_trad_harness.c:124-130 | an accepted message with one bit flipped is accepted iff the bit lies before the tag, the MAC collides on the two prefixes, and the flipped ciphertext decrypts to a padded text |
| EncryptThenMac.LastBlock | cmfuzz/harness/comp_trad_harness.c:62-63 | the last plaintext block depends on the last two blocks of IV and ciphertext only |
| EncryptThenMac.PaddedAfterFlip | cmfuzz/harness/comp_trad_harness.c:63 | a padded text with one bit of its last block flipped is still padded iff the bit belongs to the message |
| EncryptThenMac.EarlyFlip | cmfuzz/harness/comp_trad_harness.c:124-130 | **Main result:** a bit flipped before the last ciphertext block goes undetected iff the MAC collides and the number of its byte is below the message length |
| EncryptThenMac.EtmSeal | cmfuzz/harness/comp_trad_harness.c:33-45 | writes exactly the sealed message into the buffer and returns its length |
| EncryptThenMac.EtmOpen | cmfuzz/harness/comp_trad_harness.c:47-67 | returns the message and its length, or -1; a wrong tag leaves the output untouched |
| EncryptThenMac.TestEtm | cmfuzz/harness/comp_trad_harness.c:113-131 | the fixed buffers suffice, a round trip is never reported, and a flipped bit is reported iff it goes undetected in that sense |
| HexCodec.DigitIff | cmfuzz/harness/subproc/compute_common.h:110-115 | a character has value v iff its lower-case form is the digit written for v |
| HexCodec.ReadPairIff | cmfuzz/harness/subproc/compute_common.h:125-127 | two characters denote a byte iff in lower case they are its two digits |
| HexCodec.DecodesIff | cmfuzz/harness/subproc/compute_common.h:118-131 | a line decodes to b iff, trailing blanks and an odd last character dropped, it is the encoding of b up to case |
| HexCodec.DecodeEncode | cmfuzz/harness/subproc/compute_common.h:118-137 | what is printed decodes to itself, with and without the line end |
| HexCodec.KnownEncoding | cmfuzz/harness/subproc/compute_common.h:133-137 | a byte is written in lower case, high half first, and digits of either case have their values |
| HexCodec.CmfHexDecode | cmfuzz/harness/subproc/compute_common.h:118-131 | the loops compute the decoded bytes, or the null pointer exactly when some pair is not hex |
| HexCodec.ToHex | cmfuzz/harness/subproc/diff_subproc_runner.c:299-302 | writes two digits for each byte, high half first |
| WireCodec.CmfVerifyParse | cmfuzz/harness/subproc/compute_common.h:85-99 | the offset steps compute the three views, or refuse; no read is out of range |
| WireCodec.UnpacksIff | cmfuzz/harness/subproc/compute_common.h:85-99 | **Main result:** a payload parses to t iff it is the packing of t and both lengths fit 16 bits |
| WireCodec.PackLayout | cmfuzz/harness/subproc/diff_subproc_runner.c:194-201 | in a packed payload the lengths stand high byte first before key and signature, and the message follows |
| WireCodec.EmitPayload | cmfuzz/harness/subproc/diff_subproc_runner.c:194-201 | the packing steps write exactly the packed payload; no further room is needed |
| WireCodec.ParseBlobIff | cmfuzz/harness/subproc/compute_common.h:150-164 | a blob parses to the fields it was built from iff the associated data is below 65536 bytes |
| WireCodec.BlobLayout | cmfuzz/harness/subproc/diff_subproc_runner.c:405-410 | in a blob 32 key bytes, 12 nonce bytes, the length high byte first, associated data and message follow one another |
| WireCodec.ParseBlobEdges | cmfuzz/harness/subproc/compute_common.h:150-163 | a blob below 46 bytes is all message, with key and nonce zero; a declared length that overruns takes all that follows |
| WireCodec.ParsedBlobRebuilds | cmfuzz/harness/subproc/compute_common.h:150-164 | the parsed fields partition every full blob, and rebuild it iff the declared length does not overrun |
| WireCodec.AtoiDecimal | cmfuzz/harness/subproc/compute_common.h:145 | the op number that is printed is read back |
| WireCodec.AtoiReads | cmfuzz/harness/subproc/compute_common.h:145 | white space and one sign are skipped, and reading stops at the first character that is no digit |
| WireCodec.ParseRunnerLine | cmfuzz/harness/subproc/compute_common.h:140-165 | the line for an op and a blob parses to that op and the fields of that blob |
| WireCodec.RequestRoundTrip | cmfuzz/harness/subproc/compute_common.h:140-165 | **Main result:** for every op, key, nonce and message the line parses back to the fields iff the associated data fits |
| WireCodec.VerifyRequestRoundTrip | cmfuzz/harness/subproc/compute_common.h:85-165 | a payload packed into the message of a request line is found again, part by part |
| WireCodec.Vec.Parse | cmfuzz/harness/subproc/compute_common.h:140-165 | fills in the parsed fields and returns 0, or returns -1 with every field empty but the op |
| Draws.TapeLinked | cmfuzz/harness/subproc/diff_subproc_runner.c:34-43 | from every state, the generator gives a tape of words whose entries and states are its own |
| Draws.DrawBytes | cmfuzz/harness/subproc/diff_subproc_runner.c:41-43 | exactly the given range of the blob takes the low bytes of the next draws |
| Requests.LengthsBounded | cmfuzz/harness/subproc/diff_subproc_runner.c:399-404 | whatever is drawn, associated data is below 64 bytes and absent where the op takes none, the message below 512, a peer key 32 |
| Requests.LengthsByDraws | cmfuzz/harness/subproc/diff_subproc_runner.c:399-404 | which draw gives which length, and how many draws the lengths take, for every op |
| Requests.FieldsByDraws | cmfuzz/harness/subproc/diff_subproc_runner.c:405-421 | which draw gives which byte of key, nonce, associated data and message, and how many draws a request takes |
| Requests.PeerByDraws | cmfuzz/harness/subproc/diff_subproc_runner.c:414-421 | a peer coordinate is its own bytes or the drawn edge value, with bit 255 dropped |
| Requests.NearPrimeValue | cmfuzz/harness/subproc/diff_subproc_runner.c:322-330 | the middle edge values are 2^255 - 19 and its neighbours |
| Requests.PeerBounded | cmfuzz/harness/subproc/diff_subproc_runner.c:411-421 | whatever is drawn, the peer coordinate has 32 bytes and is below 2^255 |
| Requests.DrawLengths | cmfuzz/harness/subproc/diff_subproc_runner.c:399-404 | the lengths, and the number of draws they take, are those the draws determine |
| Requests.CanonicalPeer | cmfuzz/harness/subproc/diff_subproc_runner.c:411-421 | the last 32 bytes become the drawn or edge coordinate with bit 255 clear; the header is unchanged |
| Requests.DrawTail | cmfuzz/harness/subproc/diff_subproc_runner.c:410-421 | after the header come the drawn bytes, or the canonical peer coordinate |
| Requests.FillBlob | cmfuzz/harness/subproc/diff_subproc_runner.c:405-421 | the blob is the drawn key and nonce, the length of the associated data, and the drawn tail; the generator has made exactly these draws |
| Requests.ComposeRequest | cmfuzz/harness/subproc/diff_subproc_runner.c:399-434 | anywhere in a run, a CLI parses out of the line exactly the drawn fields, which the reference computes on |
| Requests.BuildRequest | cmfuzz/harness/subproc/diff_subproc_runner.c:399-434 | so it is from every generator state, and the final state is the number of draws away that the request takes |
| Payloads.FlipsOnly | cmfuzz/harness/subproc/diff_subproc_runner.c:183-184 | XOR with 1 << k changes exactly bit k of a number |
| Payloads.FlipInExactly | cmfuzz/harness/subproc/diff_subproc_runner.c:183-184 | of all bits of a buffer exactly the given one changes |
| Payloads.SentByDraws | cmfuzz/harness/subproc/diff_subproc_runner.c:182-185 | which draws decide whether to tamper, with message or signature, at which byte and bit |
| Payloads.PayloadByDraws | cmfuzz/harness/subproc/diff_subproc_runner.c:167-185 | which draws give length and bytes of the message, and how many draws a payload takes in each case |
| Payloads.SentFits | cmfuzz/harness/subproc/diff_subproc_runner.c:181-201 | what is sent is the signed message and its signature, or one of them with exactly one bit flipped; the verdict is that on what is sent; it fits the 2048-byte buffer and the 16-bit lengths |
| Payloads.TamperedAtMostOnce | cmfuzz/harness/subproc/diff_subproc_runner.c:165-202 | so it is for every payload, with the drawn message of 1 to 200 bytes |
| Payloads.Tamper | cmfuzz/harness/subproc/diff_subproc_runner.c:183-184 | one drawn bit of the buffer is flipped, with either order of the two draws |
| Payloads.MaybeTamper | cmfuzz/harness/subproc/diff_subproc_runner.c:182-185 | message and signature end as the tampering draws decide, and the draws are counted |
| Payloads.MakePayload | cmfuzz/harness/subproc/diff_subproc_runner.c:165-202 | packs the payload into the buffer, or fails where key, signature or encoding is missing, after the draws made until then |
| Payloads.BuildVerifyRequest | cmfuzz/harness/subproc/diff_subproc_runner.c:378-397 | a CLI finds exactly the payload in the line, or refuses the empty one; the verdict kept is the signer's, and reject on failure |
| RequestRun.BuildVector | cmfuzz/harness/subproc/diff_subproc_runner.c:371-440 | one turn of the loop draws the op and builds the request of its kind |
| RequestRun.BuildRun | cmfuzz/harness/subproc/diff_subproc_runner.c:371-440 | **Main result:** from every seed, each request of a run says what was drawn at its place in the run: a CLI reads exactly what the reference side keeps |
| RequestRun.RunDetermined | cmfuzz/harness/subproc/diff_subproc_runner.c:360-440 | two runs from one seed keep the same op, fields and verdict for every vector that both have |
| Parsers.RequestParsersAgree | cmfuzz/harness/rustbridge/src/main.rs:37-48 | **Main result:** five parsers find the same message and associated data in every blob, and the same key and nonce as C iff the header is complete (Java always) |
| Parsers.FullHeader | cmfuzz/harness/gobridge/main.go:61-74 | on blobs of at least 46 bytes all parsers, and both AEAD slicings, agree in every field they keep |
| Parsers.JavaVec.Parse | cmfuzz/harness/bcbridge/CmfCompute.java:74-90 | fills in the fields that the C parser finds, in every blob |
| Parsers.RustGoPayload | cmfuzz/harness/rustbridge/src/main.rs:51-71 | the offset steps, in Rust and in Go, give the C parser's value on every payload |
| Parsers.JavaPayload | cmfuzz/harness/bcbridge/CmfCompute.java:92-100 | throws exactly where the C parser refuses, and gives its value elsewhere |
| Parsers.PythonParseVerify | cmfuzz/harness/subproc/compute_pycryptodome.py:46-56 | the steps give the value of cut slices, or raise |
| Parsers.PythonPayloadAgreesIff | cmfuzz/harness/subproc/compute_pycryptodome.py:46-56 | **Main result:** agrees with the C parser iff the signature length does not overrun; an overrun is accepted with the signature cut short and an empty message |
| Parsers.PythonPayloadDisagrees | cmfuzz/harness/subproc/compute_pycryptodome.py:46-56 | four bytes that C refuses and Python accepts |
| JavaHex.JavaHexDec | cmfuzz/harness/bcbridge/CmfCompute.java:56-62 | the loop computes the bytes of the pairs, or throws exactly when some pair is no number, for any digits beyond ASCII |
| JavaHex.JavaReadsIff | cmfuzz/harness/bcbridge/CmfCompute.java:56-62 | Java decodes iff every pair is a digit after a digit or a sign |
| JavaHex.JavaReadLine | cmfuzz/harness/bcbridge/CmfCompute.java:192-199 | the blob is decoded from what follows the first blank of the trimmed line, or an exception is raised |
| JavaHex.HexTextsDifferIff | cmfuzz/harness/bcbridge/CmfCompute.java:193-199 | for every text after the op, in any encoding, decoding Java's trimmed text differs from C's iff Java can read every pair and C sees more pairs or some pair has a sign or goes beyond ASCII; what C decodes, Java decodes alike |
| JavaHex.JavaHexEnc | cmfuzz/harness/bcbridge/CmfCompute.java:63-67 | the same text as the C encoders |
| JavaHex.LinesDifferIff | cmfuzz/harness/bcbridge/CmfCompute.java:192-199 | **Main result:** the same for whole lines, where a text without visible characters is refused by Java, and decoded by C unless it trims to two or more characters |
| JavaHex.SignedPairRead | cmfuzz/harness/bcbridge/CmfCompute.java:60 | a sign and a hex digit: C refuses, Java reads the signed digit |
| JavaHex.ControlsRefused | cmfuzz/harness/bcbridge/CmfCompute.java:193 | control characters that only Java trims, after a pair: C refuses, Java reads the pair |
| JavaHex.WideCharacterRefused | cmfuzz/harness/bcbridge/CmfCompute.java:57 | one character of several bytes after a pair: C refuses, Java reads the pair |
| JavaHex.EmptyTextRefused | cmfuzz/harness/bcbridge/CmfCompute.java:195-199 | nothing after the op: C decodes zero bytes, Java raises an exception |
| Voting.Oracle.CollectVoters | cmfuzz/harness/subproc/diff_subproc_runner.c:516-522 | the reference and the first fifteen backends that answer, with their owners in step |
| Voting.FindBest | cmfuzz/harness/subproc/diff_subproc_runner.c:559-564 | the value at the returned index has the returned backing, and no value has more |
| Voting.BestDecides | cmfuzz/harness/subproc/diff_subproc_runner.c:565-575 | a strict majority exists iff the best count exceeds half, and then the best value is the only one |
| Ballots.MajorityUnique | cmfuzz/harness/subproc/diff_subproc_runner.c:566-575 | two values cannot both have a strict majority |
| Ballots.FlagsWithMajority | cmfuzz/harness/subproc/diff_subproc_runner.c:575-582 | with a strict majority exactly the other replies are reported, also in a vote of two |
| Ballots.MajorityOutnumbers | cmfuzz/harness/subproc/diff_subproc_runner.c:566-575 | a value has a strict majority iff the voters that back it outnumber those that do not |
| Ballots.FlagsWithoutMajority | cmfuzz/harness/subproc/diff_subproc_runner.c:547-574 | without a strict majority only the backend of a two-way disagreement is reported |
| Ballots.ReferenceCharged | cmfuzz/harness/subproc/diff_subproc_runner.c:547-582 | on every ballot the reference is charged iff a strict majority of a compute op replies something else |
| Ballots.PairCharged | cmfuzz/harness/subproc/diff_subproc_runner.c:547-556 | a vote of two that disagrees is one failure, charged to its backend and nothing else |
| Ballots.NothingCharged | cmfuzz/harness/subproc/diff_subproc_runner.c:566-574 | three or more voters without a strict majority are one unresolved failure, and nobody is charged |
| Ballots.VerifyCharged | cmfuzz/harness/subproc/diff_subproc_runner.c:525-545 | on a verify op a backend is reported iff accepting, the reply "01", differs from the reference, which itself never is |
| Voting.Oracle.Charge | cmfuzz/harness/subproc/diff_subproc_runner.c:580-581 | one divergence goes to its owner or to the reference, and to nobody else |
| Voting.Oracle.ChargeVerify | cmfuzz/harness/subproc/diff_subproc_runner.c:535-543 | charges each backend whose accept bit is not the reference's, and nobody else |
| Voting.Oracle.ChargeMinority | cmfuzz/harness/subproc/diff_subproc_runner.c:575-582 | charges exactly the voters that are not with the majority |
| Voting.Oracle.JudgeVector | cmfuzz/harness/subproc/diff_subproc_runner.c:515-583 | on each of its branches the oracle adds to every counter exactly what the ballot reports |
| Voting.Oracle.JudgeRun | cmfuzz/harness/subproc/diff_subproc_runner.c:513-583 | **Main result:** after a run every counter is the sum over the ballots |
| Ballots.NoFailureIffAgree | cmfuzz/harness/subproc/diff_subproc_runner.c:523-582 | a vector adds no failure iff all voters agree: on the reply, or on the accept bit for ops 13 and 14 |
| Ballots.Conservation | cmfuzz/harness/subproc/diff_subproc_runner.c:515-583 | per vector, failures = charges of all backends + charge of the reference + 1 if unresolved |
| RunProperties.RunConservation | cmfuzz/harness/subproc/diff_subproc_runner.c:513-583 | **Main result:** per run, failures = sum of bdiv + ref_outlier + number of unresolved vectors |
| RunProperties.RunSilentIff | cmfuzz/harness/subproc/diff_subproc_runner.c:513-583 | **Main result:** a run has no failures iff on every vector all voters agree |
| RunProperties.HeardIff | cmfuzz/harness/subproc/diff_subproc_runner.c:518-522 | a backend votes iff it answers and fewer than fifteen before it answered |
| RunProperties.EveryoneHeardIff | cmfuzz/harness/subproc/diff_subproc_runner.c:504-522 | **Main result:** every backend that answers votes iff at most fifteen answer |
| RunProperties.ChargedIff | cmfuzz/harness/subproc/diff_subproc_runner.c:515-583 | a backend is charged, once, iff it votes and its reply is reported |
| RunProperties.Coverage | cmfuzz/harness/subproc/diff_subproc_runner.c:488-522 | with at most fifteen answering, a backend votes on exactly the vectors it answered without NA, and is charged no more often |
| RunProperties.Attribution | cmfuzz/harness/subproc/diff_subproc_runner.c:513-583 | **Main result:** when on every compute vector most voters are right, bdiv and ref_outlier count exactly the wrong replies and nothing is unresolved |
| RunProperties.OrderIrrelevant | cmfuzz/harness/subproc/diff_subproc_runner.c:515-583 | **Main result:** with at most fifteen answering, permuting the backends permutes bdiv and leaves the other counters unchanged |
| RunProperties.SixteenthUnheard | cmfuzz/harness/subproc/diff_subproc_runner.c:516-518 | beside any fifteen backends that agree with the reference, a deviating one is reported from the first place and unheard from the last |
| Runner.X25519Normalize | cmfuzz/harness/subproc/diff_subproc_runner.c:348-352 | exactly an all-zero 32-byte secret becomes ERR |
| Runner.FoldedText | cmfuzz/harness/subproc/diff_subproc_runner.c:348-352 | the one text that changes is 64 zeros, and it becomes ERR |
| Runner.FoldZeroIdentifies | cmfuzz/harness/subproc/diff_subproc_runner.c:344-352 | two replies are identified iff they are equal or both degenerate; folding twice changes nothing |
| Runner.AbstainsIff | cmfuzz/harness/subproc/diff_subproc_runner.c:490-497 | only a line that says NA becomes an abstention, whatever normalising and cropping do |
| Runner.ReadReply | cmfuzz/harness/subproc/diff_subproc_runner.c:490-496 | one output line gives its stored reply, and whether it abstains |
| Runner.CollectReplies | cmfuzz/harness/subproc/diff_subproc_runner.c:488-502 | at most one reply for each vector, in order, and the count of abstentions |
| Runner.Summarise | cmfuzz/harness/subproc/diff_subproc_runner.c:585-594 | the summary gives each backend its lines, abstentions and divergences, and the two warnings exactly when they apply |
| Runner.Differential | cmfuzz/harness/subproc/diff_subproc_runner.c:448-606 | exit status 0 iff on every vector all voters agree; the counters are the sums over the ballots; the summary is that of the run |
| Runner.SummaryAccounts | cmfuzz/harness/subproc/diff_subproc_runner.c:585-594 | with at most fifteen answering, lines = abstentions + votes, divergences are at most the votes, and a backend that abstains throughout votes on nothing |
| WholeRun.ReferenceComputes | cmfuzz/harness/subproc/diff_subproc_runner.c:426-439 | what the reference keeps beside a line is the function of the request that a CLI parses out of it |
| WholeRun.MatchesIff | cmfuzz/harness/subproc/diff_subproc_runner.c:490-496 | a stored reply agrees with the reference iff the output line gives the same result: op 12 up to degenerate outputs, ops 13 and 14 up to the accept bit |
| WholeRun.AllAgreeIff | cmfuzz/harness/subproc/diff_subproc_runner.c:515-583 | all voters agree on all vectors iff every backend gives the kept result wherever it is heard |
| WholeRun.RunAll | cmfuzz/harness/subproc/diff_subproc_runner.c:355-606 | **Main result:** from any seed: if one function verifies as the keys of the run do, the exit status is 0 iff every backend, wherever it is heard, gives what that function yields on the line it read |
| Statistics.NextStat | cmfuzz/engine/ct_dudect.c:40-45 | count, mean and sum of squared deviations of one more sample follow from those before by the update formulas |
| Statistics.TStat.Push | cmfuzz/engine/ct_dudect.c:40-45 | **Main result:** after any pushes n, mean and m2 are count, mean and sum of squared deviations of the samples |
| Statistics.StatFromSums | cmfuzz/engine/ct_dudect.c:40-45 | n * mean is the sum, and n * m2 is n times the sum of squares less the squared sum |
| Statistics.StatOrderIrrelevant | cmfuzz/engine/ct_dudect.c:40-45 | the result does not depend on the order of the samples, and m2 is never negative |
| Statistics.WelchLaw | cmfuzz/engine/ct_dudect.c:46-51 | **Main result:** unless no class varies, t squared times the summed variances of the two means is the squared difference of the means, and t has its sign |
| Statistics.WelchAntisymmetric | cmfuzz/engine/ct_dudect.c:46-51 | exchanging the classes changes the sign of t |
| Statistics.WelchInvariant | cmfuzz/engine/ct_dudect.c:46-51 | **Main result:** a common shift and positive scale of all samples leaves t unchanged |
| Statistics.WelchZeroIff | cmfuzz/engine/ct_dudect.c:46-51 | t is zero iff a class has fewer than two samples, the means agree, or neither class varies |
| Cropping.IndexInRange | cmfuzz/engine/ct_dudect.c:142 | every percentile index is within the sorted copy, and indices do not decrease |
| Cropping.HalfPowersHalve | cmfuzz/engine/ct_dudect.c:142 | the exact powers, whose tenth is one over 2^(p + 1), lie between 0 and 1 and decrease |
| Cropping.CutsNested | cmfuzz/engine/ct_dudect.c:139-142 | cuts do not decrease, so what a pass retains the later passes retain |
| Cropping.CutKeeps | cmfuzz/engine/ct_dudect.c:140-145 | the cut at index i keeps at least i + 1 measurements, the last pass all |
| Cropping.CutIsQuantile | cmfuzz/engine/ct_dudect.c:140-142 | **Main result:** each cut is a measurement with more than the fraction 1 - 0.5^((p + 1) / 10) of all at or below it, and at most that fraction strictly below |
| Cropping.ClassesPartition | cmfuzz/engine/ct_dudect.c:144-148 | the two class counts add up to the number kept |
| Cropping.KeptExactly | cmfuzz/engine/ct_dudect.c:144-148 | each class keeps its measurements up to the cut, each as often as it was measured |
| Cropping.RunPass | cmfuzz/engine/ct_dudect.c:143-148 | one pass accumulates exactly the kept measurements of each class |
| Cropping.LargestT | cmfuzz/engine/ct_dudect.c:138-151 | the largest absolute t over all passes, and the cut of the first pass that attains it |
| Cropping.ContainsIff | cmfuzz/engine/ct_dudect.c:71 | a name contains another iff it stands in it as a whole |
| Cropping.Judge | cmfuzz/engine/ct_dudect.c:153-157 | **Main result:** a leak is reported iff some pass exceeds 4.5, as a finding iff constant time is expected |
| Cropping.ClassesExchangeable | cmfuzz/engine/ct_dudect.c:144-157 | exchanging the two classes never changes whether a leak is reported |

## Left out

- Ecdsa.EcdsaVerify: what a failed BN_mod_inverse leaves in its destination is a parameter, as the code does not determine it.
- Ecdsa.SolveForKey: likewise, for both of its inversions.
- Ecdsa.EqualRIff: assumes that only opposite points share a coordinate, which holds on P-256; so does Ecdsa.EqualRMeansReuseIff.
- JavaHex.LinesDifferIff: the digits beyond ASCII that Integer.parseInt takes and the encoding of characters beyond ASCII are parameters, with no more code units than bytes; lines with a carriage return inside, which end a line for Java only, and lines that do not begin with an op are not compared.
- Payloads.MakePayload: key generation, signing, verifying and encoding are parameters, with outputs of at most 512 bytes; C leaves the order of the two draws of a tampering step open, and both orders are covered.
- RunProperties.Attribution: concerns the backends that are heard; EveryoneHeardIff says when that is every backend that answers.
- Statistics.WelchInvariant: is over exact reals with an exact square root; floating-point rounding is not modelled, here or in the other statistics.
- Cropping.IndexInRange: takes the powers of one half as any decreasing sequence between 0 and 1; the exact powers are one, by HalfPowersHalve, but the rounding of pow is not modelled.
- WholeRun.RunAll: a backend is any function from the lines of the run to its output lines, and results are assumed to fit the reply buffer; what a backend computes inside is not modelled.
- The abstract group, hash, block cipher and MAC stand for OpenSSL, whose internals and failures are not part of this model; the group's laws are a precondition.
- The sorted copy of the measurements is a parameter: that qsort sorts is taken from the C library, and cmp_u64 is an ordinary comparison.
- The sealing and opening of records with AES-GCM: calls into the library around the record nonce, which is modelled.
- Overflow of the int and long counters and of atoi, and NUL characters inside C strings, are not modelled; neither are big-endian hosts, where copying a word would reverse its bytes.
- Views into a shared buffer are modelled as values: that the parsed parts alias the input is not captured.
- The hex decoders of the Rust, Go and Python backends belong to libraries.
- Processes, pipes, files, allocation failure and the text of the reports; a backend is the sequence of its output lines.
- Timing measurement itself, the harnesses for other libraries, the key-encapsulation, homomorphic and zero-knowledge harnesses, build scripts and the specification generator: library calls with simple assertions on top.
