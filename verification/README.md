# purecrypt in Dafny

A model of the arithmetic, the loops and the state of purecrypt, a cryptography
library written in pure Python, with proofs of what its documentation and tests
promise. Nothing of the library was executed; every statement below is a theorem
about the model.

What is modelled, and the main result of each part:

* **ML-DSA** (`mldsa.py`, FIPS 204): the in-place transforms, rounding and hints,
  bit packing, samplers, key and signature codecs, key generation, the signing loop
  and verification. Every signature the signing loop returns for a generated key is
  accepted by verification, at the level of the encoded bytes
  (`MlDsaComplete.Completeness`), signature encodings are unique, and what signing
  returns and verification accepts is stated exactly in the ring, without transforms
  (`MlDsaExact`).
* **ML-KEM** (`mlkem.py`, FIPS 203): decryption returns the message exactly when the
  centred noise of every coefficient lies in a window around its bit
  (`MlKemCorrect.DecryptIff`), and then decapsulation returns the encapsulated key;
  a ciphertext that is no encapsulation is answered with the rejection key.
* **BLAKE3** (`blake3.py`): the incremental hasher computes the recursive tree hash of
  its whole input for any split into updates, and that tree is the fold of its numbered
  chunks.
* **Argon2** (`kdf.py`): the reference block is the one of section 3.4.2 of RFC 9106,
  every slice satisfies the filling equation, and the lanes of a slice may be interleaved
  in any way, block by block, without changing the memory.
* **Elliptic curves** (`ec.py`, `eddsa.py`): the masked Jacobian ladder equals affine
  double-and-add for every scalar and point; ECDSA signatures and their twins verify,
  from the nonce generator to the DER form, which is unique; the Edwards law is complete
  and closed, its ladder is double-and-add, strict point encoding is a bijection, every
  scalar the library uses fits the ladder and no shorter one would do, and Ed25519
  signatures verify on bytes.
* **RSA** (`rsa.py`): the blinded CRT operation, Miller-Rabin and the sieve, and the
  PSS, OAEP and v1.5 codecs up to end-to-end schemes, with the exact sets of signatures
  and ciphertexts that are accepted.
* **DER** (`asn1.py`): decoding accepts exactly the encodings of well-formed trees, and
  of their concatenations; integers and identifiers, also as dotted text, round-trip.
* **AES** (`aes.py`): the field, the S-box as a bijection, the key schedule, the rounds,
  block functions inverse to each other in both orders, PKCS#7, CBC, the counter modes,
  the field of GHASH, and GCM with the pre-counter block and tag of SP 800-38D.
* **X.509 paths** (`x509.py`): the search returns trusted chains and misses none, and
  it is proved exactly when the path-length rule differs from section 6.1.4 of RFC 5280.

How the model is written:

* Loops that overwrite lists are methods on arrays; objects with fields are classes.
  Each is proved equal to a function, and the properties are lemmas about that
  function. The two transform files share one set of loops, written once for a ring
  with a root of unity (`Ntt`, `NttProduct`, `NttLoops`) and instantiated twice.
* Hash functions, HMAC, SHAKE and the BLAKE3 and Argon2 compression functions are
  function-valued parameters; theorems hold for any such function. Random draws are
  arguments.
* Exceptions and failing decodings are `None` or an error value. Samplers read a
  finite prefix of a SHAKE stream through the incremental reader and return `None` when
  it is used up; for each of the four a longer prefix never changes an answer. The nonce
  loop of ECDSA is bounded by a number of candidates in the same way.
* Congruence modulo q is equality of remainders. Masked selections such as
  `x ^= m & (x ^ y)` with m all ones or zero are written as conditionals.
* Primality of moduli and group laws of the curves are premises of the theorems that
  use them.

Three results refine what one might expect. The noise window of ML-KEM is not
symmetric: the message survives if and only if every coefficient with bit 0 has noise
in -832..832 and every one with bit 1 has noise in -832..831. The path-length rule of
`validate_chain` counts self-issued intermediates, which the counter of RFC 5280
skips. The counter accepts a chain exactly when every path length allows the
certificates below it that are not self-issued, and the two rules differ exactly when it
accepts and some path length lies between the two counts (`X509Path.PathLengthRules`).
`X509Path.SelfIssuedDiffers` gives stores for which `build_chain` finds such a chain and
`validate_chain` refuses it. RSA verification does not compare the signature with the
modulus: a v1.5 signature verifies exactly when it has the length of the key and is
congruent to the signature below the modulus (`RsaSchemes.VerifyV15Iff`).

Check everything with `dafny verify dfyconfig.toml`.

## Model

| member | source | states |
|---|---|---|
| NttLoops.BitReverse | src/purecrypt/mldsa.py:25-30 | the bit loop computes the reversal by which the zeta table is ordered |
| NttLoops.Transform | src/purecrypt/mldsa.py:132-146 | the three nested in-place loops compute the recursive transform of the whole list |
| NttLoops.InverseTransform | src/purecrypt/mldsa.py:149-163 | the in-place inverse loops with the running zeta index and final scaling compute the recursive inverse |
| NttProduct.ForwardIsEvaluation | src/purecrypt/mldsa.py:132-146 | every leaf of the transform is the polynomial evaluated at the root of that leaf |
| Ntt.InverseForward | src/purecrypt/mldsa.py:149-163 | the inverse transform of the transform of f is f modulo q, for all f |
| Ntt.ForwardInverse | src/purecrypt/mlkem.py:217-231 | the transform of the inverse transform is the identity modulo q |
| NttProduct.ForwardLinear | src/purecrypt/mldsa.py:132-146 | transforms of linear combinations are linear combinations of transforms |
| NttProduct.ForwardRingMul | src/purecrypt/mldsa.py:166-167 | pointwise products of transforms are the transform of the negacyclic product, defined independently |
| NttProduct.ForwardPairRingMul | src/purecrypt/mlkem.py:234-243 | pairwise products with the gammas are the transform of the negacyclic product |
| BitPack.PackBits | src/purecrypt/mldsa.py:339-352 | the accumulator loop writes the whole bytes of the number whose digits are the values, for any number of values |
| BitPack.UnpackBits | src/purecrypt/mldsa.py:355-370 | the accumulator loop reads the digits of the number the bytes spell |
| BitPack.UnpackPack | src/purecrypt/mlkem.py:123-137 | unpacking packed values that fit the width gives the values back |
| BitPack.PackUnpack | src/purecrypt/mlkem.py:140-155 | packing unpacked bytes gives the bytes back |
| BitPack.RowsRoundTrip | src/purecrypt/mldsa.py:384-393 | the same for lists of polynomials packed one after the other |
| Xof.XofReader.Read | src/purecrypt/mldsa.py:106-121 | successive reads return consecutive pieces of the stream whatever the buffer growth |
| MlDsaRounding.Power2RoundSplits | src/purecrypt/mldsa.py:209-213 | the two parts recombine to r modulo q and the low part is in its half-open window |
| MlDsaRounding.DecomposeSplits | src/purecrypt/mldsa.py:216-222 | the parts recombine to r modulo q with the low part in range, including the wraparound at q - 1 |
| MlDsaRounding.HintRecovers | src/purecrypt/mldsa.py:229-240 | using the hint made for z and r gives the high part of r + z, for every r and every z up to gamma2 |
| MlDsaRounding.LowBitsAbsorb | src/purecrypt/mldsa.py:225-226 | adding s up to beta keeps the high part when the low part is below gamma2 - beta |
| MlDsaCodec.KnownSizes | src/purecrypt/mldsa.py:37-81 | the three parameter sets have the bit widths and sizes their properties compute |
| MlDsaCodec.OffsetRoundTrip | src/purecrypt/mldsa.py:373-374 | values in the window of an offset are read back |
| MlDsaCodec.OffsetUnique | src/purecrypt/mldsa.py:377-378 | packed offsets that are read are written back to the same bytes |
| MlDsaCodec.HintRoundTrip | src/purecrypt/mldsa.py:443-463 | every list of at most omega hints is decoded from its encoding |
| MlDsaCodec.HintUnique | src/purecrypt/mldsa.py:466-497 | every hint section that decodes is the encoding of what it decodes to |
| MlDsaCodec.SigRoundTrip | src/purecrypt/mldsa.py:443-463 | every well-formed signature decodes to itself from its encoding |
| MlDsaCodec.SigUnique | src/purecrypt/mldsa.py:466-497 | every byte string of the right length that decodes re-encodes to itself |
| MlDsaCodecLoops.EncodeHints | src/purecrypt/mldsa.py:443-463 | the loop with the running index writes the positions and totals of the specification |
| MlDsaCodecLoops.EncodeSignature | src/purecrypt/mldsa.py:443-463 | the encoder method writes the specified bytes |
| MlDsaCodecLoops.DecodeRow | src/purecrypt/mldsa.py:466-497 | one row loop accepts exactly rising positions and marks them |
| MlDsaCodecLoops.DecodeHints | src/purecrypt/mldsa.py:466-497 | the index-walking loops with their three rejections compute the specified decoding |
| MlDsaCodecLoops.DecodeSignature | src/purecrypt/mldsa.py:466-497 | the decoder method returns the specified result |
| MlDsaKeys.PkRoundTrip | src/purecrypt/mldsa.py:384-393 | public keys decode to what was encoded |
| MlDsaKeys.SkRoundTrip | src/purecrypt/mldsa.py:396-436 | secret keys decode to what was encoded |
| MlDsaSampling.RejBoundedRange | src/purecrypt/mldsa.py:278-292 | sampled secrets have centred coefficients up to eta |
| MlDsaSampling.RejNttStable | src/purecrypt/mldsa.py:259-268 | a longer stream prefix never changes a uniform polynomial |
| MlDsaSampling.RejNttPoly | src/purecrypt/mldsa.py:259-268 | the loop on the incremental reader computes the specified polynomial |
| MlDsaSampling.RejNttIs | src/purecrypt/mldsa.py:259-268 | the polynomial is the first 256 of the 23-bit values of the stream below q |
| MlDsaSampling.RejBoundedStable | src/purecrypt/mldsa.py:278-292 | a longer stream prefix never changes a sampled secret |
| MlDsaSampling.RejBoundedPoly | src/purecrypt/mldsa.py:278-292 | the loop on the incremental reader computes the specified secret |
| MlDsaSampling.RejBoundedIs | src/purecrypt/mldsa.py:278-292 | the polynomial is the first 256 of the coefficients of all half-bytes, low halves first |
| MlDsaSampling.ChallengeWeight | src/purecrypt/mldsa.py:321-333 | the challenge has exactly tau coefficients plus or minus one and zeros elsewhere |
| MlDsaSampling.ChallengeStable | src/purecrypt/mldsa.py:321-333 | a longer stream prefix never changes the challenge |
| MlDsaSampling.SampleChallenge | src/purecrypt/mldsa.py:321-333 | the swapping loop over the array, fed by the incremental reader, computes the specified challenge |
| MlDsaSampling.ChallengeNorm | src/purecrypt/mldsa.py:321-333 | products with a challenge are bounded by tau times the bound of the other factor |
| MlDsaRing.RingValid | src/purecrypt/mldsa.py:18-33 | 1753 is a root of unity of the order the transform needs modulo 8380417 |
| MlDsaRing.NttRoundTrip | src/purecrypt/mldsa.py:149-163 | the round trip for the ring of this file |
| MlDsaRing.NttOfProduct | src/purecrypt/mldsa.py:166-167 | the product law for the ring of this file |
| MlDsaRing.VerifierRow | src/purecrypt/mldsa.py:584-606 | the verifier's A z - c t1 2^13 is the signer's w - c s2 + c t0 in every row |
| MlDsa.CheckNorm | src/purecrypt/mldsa.py:243-253 | the norm loop accepts exactly vectors whose centred coefficients are below the bound |
| MlDsa.RowAccepts | src/purecrypt/mldsa.py:532-572 | when the signer's checks pass, the verifier's hints recover the signer's commitment in a row |
| MlDsa.SignLoop | src/purecrypt/mldsa.py:532-572 | the kappa loop returns the specified signature |
| MlDsaComplete.KeysAreGood | src/purecrypt/mldsa.py:503-523 | generated keys satisfy t1 2^13 + t0 = A s1 + s2 with small secrets |
| MlDsaComplete.AttemptWellFormed | src/purecrypt/mldsa.py:532-572 | an accepted attempt is an encodable signature with at most omega hints |
| MlDsaComplete.AttemptVerifies | src/purecrypt/mldsa.py:532-606 | an accepted attempt passes the verifier's norm and challenge checks |
| MlDsaComplete.SignFromAttempt | src/purecrypt/mldsa.py:532-572 | whatever the loop returns comes from one accepted attempt |
| MlDsaComplete.Completeness | src/purecrypt/mldsa.py:503-606 | for every seed, message representative mu and randomness, a signature returned by _sign_mu decodes and is accepted by _verify_mu under the generated key |
| MlDsaComplete.CompletenessInternal | src/purecrypt/mldsa.py:526-581 | the same for _sign_internal and _verify_internal, which compute the same mu |
| MlDsaComplete.KeyLengths | src/purecrypt/mldsa.py:503-523 | generated keys have the advertised lengths |
| MlDsa.MatrixAt | src/purecrypt/mldsa.py:271-275 | entry (i, j) of the matrix is sampled from rho, j and i |
| MlDsa.SecretAt | src/purecrypt/mldsa.py:295-304 | secret i is sampled from the seed and its own nonce |
| MlDsa.MaskAt | src/purecrypt/mldsa.py:307-318 | a mask coefficient is gamma1 minus a packed value of the stream for nonce kappa + i |
| MlDsaExact.RingDotTransforms | src/purecrypt/mldsa.py:166-167 | the dot product of transforms is the transform of the dot product in the ring |
| MlDsaExact.AttemptIff | src/purecrypt/mldsa.py:538-572 | an attempt returns exactly the signature whose challenge comes from mu and the high bits of A y in the ring and whose z, low bits, c t0 and hint count keep their bounds |
| MlDsaExact.SignFromIff | src/purecrypt/mldsa.py:543-572 | the loop returns exactly the signature of the first attempt that keeps the bounds, every attempt with ell fresh nonces |
| MlDsaExact.VerifierPolyIs | src/purecrypt/mldsa.py:592-600 | what the verifier recomputes in a row is A z - c t1 2^13 in the ring, modulo q |
| MlDsaExact.VerifyMuIff | src/purecrypt/mldsa.py:584-606 | verification accepts exactly the bytes that decode to a short z whose challenge hash is that of mu and of the high bits the hints recover from A z - c t1 2^13, stated without transforms; it answers whenever the samplers do |
| MlDsaExact.VerifyInternalIff | src/purecrypt/mldsa.py:575-581 | the same for _verify_internal, with the length check and mu from the public key |
| MlDsaExact.OneChallenge | src/purecrypt/mldsa.py:606 | a signature accepted for two message representatives has one challenge hash for both |
| MlKemRing.RingValid | src/purecrypt/mlkem.py:20-36 | 17 is a root of unity of the order the seven-layer transform needs modulo 3329 |
| MlKemRing.GammaIsLeafRoot | src/purecrypt/mlkem.py:37 | the gamma table holds the root of every leaf of the transform |
| MlKemRing.MultiplyLoop | src/purecrypt/mlkem.py:234-243 | the pair loop computes the specified product |
| MlKemRing.NttRoundTrip | src/purecrypt/mlkem.py:217-231 | the round trip for the ring of this file |
| MlKemRing.NttOfProduct | src/purecrypt/mlkem.py:234-243 | the product law for the ring of this file |
| MlKemRing.PolyDotAt | src/purecrypt/mlkem.py:254-258 | the accumulated vector product is the sum of the leaf products |
| MlKem.CompressDecompress | src/purecrypt/mlkem.py:158-165 | compressing a decompressed value is the identity for every width used |
| MlKem.BitSurvives | src/purecrypt/mlkem.py:158-165 | a bit survives noise if and only if the centred noise is in -832..832 minus the bit |
| MlKem.SampleNttStable | src/purecrypt/mlkem.py:171-183 | a longer stream prefix never changes a uniform polynomial |
| MlKem.SampleNttPoly | src/purecrypt/mlkem.py:171-183 | the loop on the incremental reader computes the specified polynomial |
| MlKem.SampleNttIs | src/purecrypt/mlkem.py:171-183 | the polynomial is the first 256 of the 12-bit values of the stream below q |
| MlKem.CbdIs | src/purecrypt/mlkem.py:186-194 | coefficient i is the number of set bits among eta minus the number among the next eta |
| MlKem.MatrixAt | src/purecrypt/mlkem.py:268-269 | entry (i, j) of the matrix is sampled from rho, j and i |
| MlKem.CoinsAt | src/purecrypt/mlkem.py:292-302 | the noise polynomials of one encryption use the nonces 0 to 2 k |
| MlKem.CbdSmall | src/purecrypt/mlkem.py:186-194 | sampled noise has centred coefficients up to eta |
| MlKemIdentity.Exchange | src/purecrypt/mlkem.py:264-319 | summing y by rows of A s equals summing s by columns of A y |
| MlKemIdentity.MatrixCancels | src/purecrypt/mlkem.py:322-335 | the matrix terms of encryption and decryption cancel up to the error terms |
| MlKemIdentity.DecryptionIdentity | src/purecrypt/mlkem.py:322-335 | the recovered polynomial is the message plus e y + e2 + dv - s (e1 + du), modulo q |
| MlKemCorrect.EkDecodes | src/purecrypt/mlkem.py:264-319 | encryption reads the public vector that key generation wrote |
| MlKemCorrect.CipherDecodes | src/purecrypt/mlkem.py:287-335 | decryption reads the compressed polynomials that encryption wrote |
| MlKemCorrect.DecryptIff | src/purecrypt/mlkem.py:264-335 | decryption returns the message if and only if every noise coefficient fits its window |
| MlKemCorrect.DecapsReturnsKey | src/purecrypt/mlkem.py:341-370 | when the noise fits, decapsulation returns the encapsulated key, never the rejection key |
| MlKemCorrect.DecapsExact | src/purecrypt/mlkem.py:355-370 | for any ciphertext the answer is the shared key of the decrypted message if encapsulating it gives this ciphertext, and else the rejection key |
| MlKemCorrect.DecapsRejects | src/purecrypt/mlkem.py:355-370 | a ciphertext that is no encapsulation is answered with J(z + c), and any other with that or with a shared key it encapsulates |
| MlKemCorrect.KeySizes | src/purecrypt/mlkem.py:341-345 | generated keys have the advertised sizes |
| Blake3Tree.MergeSubtrees | src/purecrypt/blake3.py:158-179 | a parent of two adjacent complete subtrees is the subtree over both |
| Blake3Tree.StackLast | src/purecrypt/blake3.py:239-244 | the last entry of the stack for c u chunks, c odd, covers exactly u chunks |
| Blake3Tree.StackSize | src/purecrypt/blake3.py:239-244 | the stack has one entry per set bit of the number of completed chunks |
| Blake3Tree.LeftChunksLargest | src/purecrypt/blake3.py:272-281 | the left subtree of the reference tree has the largest power of two of chunks that leaves at least one byte to the right, as section 2.1 of the BLAKE3 specification demands |
| Blake3Tree.CloseIsTree | src/purecrypt/blake3.py:272-281 | folding the stack onto the open chunk gives the root of the recursive tree |
| Blake3Tree.ChunkByBlocks | src/purecrypt/blake3.py:202-225 | block by block, with the chunk number, the lengths and the flags 1 and 2 of section 2.4 of the BLAKE3 specification |
| Blake3Tree.TreeIsFold | src/purecrypt/blake3.py:158-179 | the tree is the fold of the chaining values of the numbered chunks, parents compressing left then right with flag 4 |
| Blake3Tree.RootIs | src/purecrypt/blake3.py:272-281 | the root is the only chunk or the parent of the two sides of the leaves |
| Blake3Tree.StreamAt | src/purecrypt/blake3.py:137-155 | byte i of the output is byte i % 64 of the root compressed with counter i / 64 and the flag 8 |
| Blake3Tree.WordsRoundTrip | src/purecrypt/blake3.py:100-107 | reading a block as words and writing them gives the block padded with zeros |
| Blake3.ChunkState.CompressBuffer | src/purecrypt/blake3.py:202-212 | a full buffer moves into the chaining value and the absorbed bytes stay the same |
| Blake3.ChunkState.Update | src/purecrypt/blake3.py:198-216 | the lazy block buffer absorbs any piece: the state is that of the concatenation |
| Blake3.ChunkState.CurrentOutput | src/purecrypt/blake3.py:218-225 | the chunk output is the one defined over the absorbed bytes |
| Blake3.RootOutputBytes | src/purecrypt/blake3.py:137-155 | bytes seek to seek + length of the output stream, and an error for negative arguments |
| Blake3.Hasher.PushCv | src/purecrypt/blake3.py:239-244 | the carry loop never pops an empty stack and leaves the stack of all completed chunks |
| Blake3.Hasher.Update | src/purecrypt/blake3.py:246-261 | after any update the invariant holds for the concatenated input |
| Blake3.Hasher.Copy | src/purecrypt/blake3.py:263-270 | the clone holds the same input in its own objects |
| Blake3.Hasher.FinalOutput | src/purecrypt/blake3.py:272-281 | the loop over the stack returns the root of the tree over the whole input |
| Blake3.Hasher.Digest | src/purecrypt/blake3.py:283-285 | the digest is the wanted window of the stream of the tree over the concatenated input |
| Blake3.Hasher.Reset | src/purecrypt/blake3.py:290-292 | the hasher starts again from the empty input |
| Argon2.Sizing | src/purecrypt/kdf.py:296-342 | accepted parameters give segments of at least two blocks that tile the memory |
| Argon2.AddressStream.Next | src/purecrypt/kdf.py:209-221 | the lazy generator returns the next word of the address blocks |
| Argon2.IndexAlphaWindow | src/purecrypt/kdf.py:224-251 | the reference is in range, never the current or previous block of its lane, never in the current slice of another lane, and already written in the first pass |
| Argon2.IndexAlphaSelects | src/purecrypt/kdf.py:224-251 | the reference is eligible by section 3.4.2 of RFC 9106, and the number t of eligible blocks written after it is area x / 2^32 for x = j1^2 / 2^32, so t 2^64 lies within one rounding of area j1^2, and j1 = 0 names the newest |
| Argon2.CountEligible | src/purecrypt/kdf.py:233-244 | the eligible columns since a time are counted by the window of times |
| Argon2Fill.FillSegment | src/purecrypt/kdf.py:254-293 | the in-place segment loop leaves the memory of the lane running alone |
| Argon2Fill.NewBlockLocal | src/purecrypt/kdf.py:277-293 | a block depends only on its own lane and on other lanes outside the current slice |
| Argon2Fill.AloneFrame | src/purecrypt/kdf.py:277-293 | a lane changes only its own blocks of the current slice |
| Argon2Fill.SliceEquation | src/purecrypt/kdf.py:277-293 | after a slice every block it wrote satisfies the equation of section 3.2 of RFC 9106 over the final memory, with the old block added from the second pass on |
| Argon2Fill.RunIsOwn | src/purecrypt/kdf.py:254-293 | after any interleaving every block is what its own lane alone would have left |
| Argon2Fill.OrderIsIrrelevant | src/purecrypt/kdf.py:369-384 | interleavings with equal progress leave equal memory |
| Argon2Fill.InterleavingIsSequential | src/purecrypt/kdf.py:369-384 | any complete interleaving of a slice equals the loop over its lanes |
| Argon2Fill.ParallelIsSequential | src/purecrypt/kdf.py:333-384 | lanes may run in parallel between slice boundaries for the whole run |
| Argon2Fill.FillMemory | src/purecrypt/kdf.py:369-384 | the pass, slice and lane loops compute the sequential fill |
| EcAlgebra.TangentCloses | src/purecrypt/ec.py:187-195 | the doubled point satisfies the curve equation |
| EcAlgebra.ChordCloses | src/purecrypt/ec.py:191-195 | the sum of two points with different abscissas satisfies the curve equation |
| EcLadder.AddGood | src/purecrypt/ec.py:179-195 | addition of points of one curve never raises and stays on the curve |
| EcLadder.DoubleRepresents | src/purecrypt/ec.py:198-208 | Jacobian doubling represents affine doubling, also at infinity and for points of order two |
| EcLadder.AddRepresents | src/purecrypt/ec.py:211-233 | the flag is set exactly for equal points, and otherwise mixed addition represents affine addition, also for opposite points |
| EcLadder.StepRepresents | src/purecrypt/ec.py:253-272 | one patched iteration represents double and conditional add for every accumulator |
| EcLadder.ToAffineIs | src/purecrypt/ec.py:273-277 | the final inversion returns the represented point |
| EcLadder.ScalarMult | src/purecrypt/ec.py:236-277 | for every scalar up to the order and every affine point the ladder returns affine double-and-add, and other scalars are refused |
| Ecdsa.SignedVerifies | src/purecrypt/ec.py:547-572 | a signature and its twin (r, n - s) verify under the key of the scalar |
| Ecdsa.MultipleOfMultiple | src/purecrypt/ec.py:547-572 | multiples of a multiple of the base point are multiples by the product, from the addition law alone |
| Ecdsa.TryNonce | src/purecrypt/ec.py:560-570 | one turn of the signing loop over the ladder computes the specified attempt |
| Ecdsa.VerifyEcdsa | src/purecrypt/ec.py:432-450 | verification over the ladder decides the specified predicate |
| Ecdsa.VerifyIff | src/purecrypt/ec.py:432-450 | under the key of d a pair is accepted exactly when both numbers are in range and r is the abscissa of the multiple by the t with s t = z + r d |
| EcdsaBytes.Bits2IntBound | src/purecrypt/ec.py:355-360 | the leftmost qlen bits are a number below 2^qlen |
| EcdsaBytes.NonceSource.Next | src/purecrypt/ec.py:371-392 | one turn of the generator yields the specified candidate and leaves the specified state |
| EcdsaBytes.MoreCandidates | src/purecrypt/ec.py:371-392 | allowing more candidates never changes a signature |
| EcdsaBytes.DssIff | src/purecrypt/ec.py:395-409 | a byte string decodes to (r, s) exactly when both are in range and it is the encoding of (r, s) |
| EcdsaBytes.SignedMessageVerifies | src/purecrypt/ec.py:432-450 | whatever sign_ecdsa returns is accepted under the public key, as is the encoding of its twin, with s at most half the order |
| EcdsaBytes.SignEcdsa | src/purecrypt/ec.py:547-572 | the signing loop over the generator and the ladder computes the specified bytes |
| EcdsaBytes.VerifySignature | src/purecrypt/ec.py:432-450 | verification of DER bytes over the ladder decides the specified predicate |
| EcdsaBytes.VerifyMessageIff | src/purecrypt/ec.py:432-450 | exactly the DER encodings of such pairs are accepted |
| EdCurve.Complete | src/purecrypt/eddsa.py:62-69 | the denominators of the addition law never vanish on the curve |
| EdCurve.AddGood | src/purecrypt/eddsa.py:62-69 | the sum of two points of the curve is on the curve |
| EdCurve.ExtAddRepresents | src/purecrypt/eddsa.py:82-96 | extended addition represents affine addition with no exceptional case |
| EdCurve.ScalarMult | src/purecrypt/eddsa.py:99-122 | 256 iterations give affine double-and-add for every scalar that fits |
| Eddsa.DecodeEncode | src/purecrypt/eddsa.py:125-148 | decoding the encoding of a point gives the point |
| Eddsa.DecodeUnique | src/purecrypt/eddsa.py:130-148 | whatever decodes is on the curve and is its only encoding |
| Eddsa.ClampedNotMultiple | src/purecrypt/eddsa.py:155-159 | a clamped scalar, and eight times it, is never a multiple of the group order |
| Eddsa.HonestKeyAccepted | src/purecrypt/eddsa.py:252-256 | eight times the point of a clamped scalar is on the curve and never the identity |
| Eddsa.MultipleOfMultiple | src/purecrypt/eddsa.py:263-267 | multiples of a multiple of the base point are multiples by the product, from the addition law alone |
| Eddsa.EquationIff | src/purecrypt/eddsa.py:263-265 | the cofactored equation between multiples of the base point holds exactly for s = (r + k a) modulo the order |
| Eddsa.EqualMultiples | src/purecrypt/eddsa.py:263-265 | multiples of the base point are equal exactly for congruent scalars |
| Ed25519.SignatureVerifies | src/purecrypt/eddsa.py:231-267 | every signature of a seed is accepted under its public key, for every message and both variants, on bytes |
| Ed25519.DecodePointIff | src/purecrypt/eddsa.py:125-148 | 32 bytes decode to a point exactly when it is on the curve and they are its encoding |
| Ed25519.HonestKeyDecodes | src/purecrypt/eddsa.py:252-256 | the key of a seed decodes and the small-order rejection never fires on it |
| Ed25519.ScalarsFit | src/purecrypt/eddsa.py:78-79 | eight, every scalar below the order and eight times that fit 256 bits |
| Ed25519.WidthIsLeast | src/purecrypt/eddsa.py:78-79 | some scalar below the order times eight does not fit 255 bits |
| Ed25519.PublicKeyOf | src/purecrypt/eddsa.py:210-213 | the public key over the ladder is the specified one |
| Ed25519.SignMessage | src/purecrypt/eddsa.py:231-242 | _sign over the 256-iteration ladder computes the specified signature |
| Ed25519.VerifySignature | src/purecrypt/eddsa.py:245-267 | _verify over the 256-iteration ladder decides the specified predicate for any bytes |
| Ed25519.VerifyIff | src/purecrypt/eddsa.py:245-267 | for any bytes verification accepts exactly the encodings of curve points A and R and an s below the order with 8 A not the identity and 8 s B = 8 (R + k A) |
| Ed25519.VerifyScalarIff | src/purecrypt/eddsa.py:245-267 | for a key and a commitment that are multiples of the base point exactly one s is accepted, the one the signer computes |
| Ed25519.OneScalar | src/purecrypt/eddsa.py:262-267 | a signature accepted for two messages has the same message scalar for both |
| Eddsa.Ed25519Constants | src/purecrypt/eddsa.py:35-36 | the modulus and the order have the sizes the proofs use |
| Rsa.InverseMod | src/purecrypt/rsa.py:483 | the inverse exists exactly for coprime arguments and inverts |
| Rsa.KeyFactors | src/purecrypt/rsa.py:399-417 | the checks give e d = 1 modulo p - 1 and q - 1 and distinct odd primes |
| Rsa.HalfPower | src/purecrypt/rsa.py:477-481 | each CRT half is c^d r modulo its prime, also when the prime divides c |
| Rsa.Garner | src/purecrypt/rsa.py:482-483 | the recombination is congruent to both halves |
| Rsa.RsadpCorrect | src/purecrypt/rsa.py:465-486 | the blinded operation returns c^d modulo n and the fault check never fires |
| Rsa.PrivateUndoesPublic | src/purecrypt/rsa.py:260-261 | the private operation undoes the public one |
| RsaPrimality.BuildSmallPrimes | src/purecrypt/rsa.py:120-126 | the sieve returns exactly the primes below 2048 in order |
| RsaPrimality.TestBase | src/purecrypt/rsa.py:158-167 | one round accepts exactly the strong probable primes to its base |
| RsaPrimality.PrimeIsStrong | src/purecrypt/rsa.py:151-168 | a prime is a strong probable prime to every base |
| RsaPrimality.MillerRabin | src/purecrypt/rsa.py:151-168 | the test accepts exactly the strong probable primes to all bases, hence every prime |
| RsaPrimality.IsProbablePrime | src/purecrypt/rsa.py:171-177 | primes are accepted, and the answer is exact below 2048 and for numbers with a small factor |
| RsaPadding.MaskGeneration | src/purecrypt/rsa.py:104-112 | the counter loop computes the mask, and a negative length or a counter beyond four bytes fails |
| RsaPadding.Scan | src/purecrypt/rsa.py:740-744 | the scan that never stops early finds the first hit |
| RsaPadding.PssVerifyIff | src/purecrypt/rsa.py:701-751 | PSS verification accepts exactly the encodings with some salt of the wanted length |
| RsaPadding.OaepRoundTrip | src/purecrypt/rsa.py:766-794 | OAEP decoding returns the encoded message |
| RsaPadding.OaepUnique | src/purecrypt/rsa.py:777-794 | only OAEP encodings decode |
| RsaPadding.SplitV15Iff | src/purecrypt/rsa.py:754-763 | splitting succeeds exactly on padded blocks and returns their message |
| RsaSchemes.PssSignatureVerifies | src/purecrypt/rsa.py:498-511 | every PSS signature verifies for any salt, also when the first byte is fully used |
| RsaSchemes.VerifyPssIff | src/purecrypt/rsa.py:280-310 | a byte string verifies exactly when the public operation takes it to the integer of an encoding of the message with some salt of the wanted length |
| RsaSchemes.V15SignatureVerifies | src/purecrypt/rsa.py:490-496 | every v1.5 signature verifies |
| RsaSchemes.VerifyV15Iff | src/purecrypt/rsa.py:265-278 | for a sound key exactly the strings congruent to the private power of the encoding verify |
| RsaSchemes.OaepDecrypts | src/purecrypt/rsa.py:536-553 | OAEP decryption returns every message that fits |
| RsaSchemes.OaepIff | src/purecrypt/rsa.py:536-553 | decryption returns m exactly for the ciphertexts that encrypting m gives with some seed |
| RsaSchemes.V15Decrypts | src/purecrypt/rsa.py:515-534 | v1.5 decryption returns every message that fits |
| RsaSchemes.V15Iff | src/purecrypt/rsa.py:515-534 | decryption returns m exactly for the ciphertexts that encrypting m gives with some admissible padding |
| RsaSchemes.DecryptIff | src/purecrypt/rsa.py:515-534 | the private operation gives a block exactly when the block is below the modulus and encrypts to this ciphertext |
| Der.ReadCanonical | src/purecrypt/asn1.py:78-99 | a length that can be read is written canonically and is below 2^64 |
| Der.ReadEncoded | src/purecrypt/asn1.py:303-309 | every length below 2^64 is read back |
| Der.ReadElement | src/purecrypt/asn1.py:180-198 | the reading method computes the specified element and position |
| Der.ReadChildren | src/purecrypt/asn1.py:169-177 | the child loop reads the specified list within the nesting limit |
| Der.DecodeAll | src/purecrypt/asn1.py:214-222 | the loop returns a list of trees exactly when they are well formed and the data is the concatenation of their encodings |
| Der.DecodeIff | src/purecrypt/asn1.py:201-211 | decoding gives a tree exactly when the tree is well formed and the data is its encoding rebuilt from the leaves |
| Der.DecodeAllIff | src/purecrypt/asn1.py:214-222 | the same for a concatenation of elements |
| Der.IntegerRoundTrip | src/purecrypt/asn1.py:319-326 | encoded integers are valid, not negative and read back |
| Der.IntegerUnique | src/purecrypt/asn1.py:239-244 | a valid content that is not negative is the one the encoder writes |
| Der.ArcsRoundTrip | src/purecrypt/asn1.py:358-367 | encoded arcs parse to themselves |
| Der.ArcsUnique | src/purecrypt/asn1.py:124-141 | arcs that parse are written back to the same bytes |
| Der.OidIff | src/purecrypt/asn1.py:276-284 | identifiers and their content octets correspond one to one |
| Oids.ParseBase128Loop | src/purecrypt/asn1.py:124-141 | the nested loops parse the specified arcs |
| Oids.Base128Loop | src/purecrypt/asn1.py:358-367 | the loops that insert low bits in front and mark all but the last byte write the specified bytes |
| Oids.TextRoundTrip | src/purecrypt/asn1.py:276-284 | the dotted text of a content is encoded back to that content |
| Oids.TextNormalised | src/purecrypt/asn1.py:370-388 | whatever text is encoded decodes to the plain decimals of its arcs |
| AesField.Multiply | src/purecrypt/aes.py:28-39 | the shift-and-add loop computes the field product |
| AesField.Associates | src/purecrypt/aes.py:28-39 | the field product is associative |
| AesField.Commutes | src/purecrypt/aes.py:28-39 | the field product is commutative |
| AesField.Power | src/purecrypt/aes.py:42-49 | the square-and-multiply loop computes the n-fold product |
| AesField.ReciprocalInverts | src/purecrypt/aes.py:60 | x^254 is the inverse of every x that is not zero |
| AesField.ReciprocalTwice | src/purecrypt/aes.py:60 | x^254 is its own inverse on all bytes |
| AesField.ReciprocalUnique | src/purecrypt/aes.py:60 | the reciprocal is the only byte whose product with x is one |
| AesField.SubByteBijective | src/purecrypt/aes.py:56-64 | the S-box is a bijection: its inverse is given and inverts on both sides |
| Aes.BuildSbox | src/purecrypt/aes.py:56-64 | the table loop fills the S-box and its inverse |
| Aes.SboxEntries | src/purecrypt/aes.py:56-64 | the entries at 00, 01 and 53 are those of FIPS 197 |
| Aes.KeyExpansion | src/purecrypt/aes.py:84-100 | the words begin with the key and satisfy the recurrence of the key schedule by position, with powers of 2 as round constants; other key sizes fail |
| Aes.ScheduleOfKey | src/purecrypt/aes.py:84-100 | the recurrence holds of the specified schedule |
| Aes.RecurrenceUnique | src/purecrypt/aes.py:84-100 | the recurrence and the key determine the schedule |
| Aes.AddRoundKey | src/purecrypt/aes.py:103-107 | the in-place loop adds the round key to every entry |
| Aes.SubBytes | src/purecrypt/aes.py:110-112 | the in-place loop substitutes every entry |
| Aes.ShiftRows | src/purecrypt/aes.py:120-124 | the in-place loop rotates the rows |
| Aes.ShiftAt | src/purecrypt/aes.py:120-124 | row r is rotated left by r |
| Aes.MixColumns | src/purecrypt/aes.py:134-140 | the in-place loop mixes every column |
| Aes.MixColumnIsProduct | src/purecrypt/aes.py:134-140 | a mixed column is the product with 3 x^3 + x^2 + x + 2 modulo x^4 + 1 of section 5.1.3 of FIPS 197 |
| Aes.InvMixColumns | src/purecrypt/aes.py:143-149 | the in-place loop applies the inverse matrix to every column |
| Aes.ShiftInverts | src/purecrypt/aes.py:120-131 | rotating back restores the state, in both orders |
| Aes.MixInverts | src/purecrypt/aes.py:134-149 | the inverse matrix restores the state, in both orders |
| Aes.Cipher.EncryptBlock | src/purecrypt/aes.py:169-182 | the round loop computes the specified encryption |
| Aes.Cipher.DecryptBlock | src/purecrypt/aes.py:184-197 | the inverse round loop computes the specified decryption |
| Aes.DecryptEncrypt | src/purecrypt/aes.py:169-197 | decryption undoes encryption for every schedule and block |
| Aes.EncryptDecrypt | src/purecrypt/aes.py:169-197 | encryption undoes decryption for every schedule and block |
| AesModes.BlockRoundTrip | src/purecrypt/aes.py:200-205 | for every key of 16, 24 or 32 bytes the block functions are inverse to each other |
| AesModes.UnpadScan | src/purecrypt/aes.py:216-237 | the scan that accumulates mismatches computes the specified unpadding |
| AesModes.UnpadIff | src/purecrypt/aes.py:208-237 | unpadding succeeds exactly on padded data |
| AesModes.CbcEncryptLoop | src/purecrypt/aes.py:263-274 | the loop computes the specified chaining, and a bad vector or length fails |
| AesModes.CbcDecryptLoop | src/purecrypt/aes.py:277-289 | the loop computes the specified chaining, and a bad vector or length fails |
| AesModes.CbcBlock | src/purecrypt/aes.py:263-274 | block i is the encryption of the data block combined with the ciphertext block before it, or with the vector for the first |
| AesModes.CbcIff | src/purecrypt/aes.py:263-289 | decryption gives p exactly when encryption of p gives the ciphertext |
| AesModes.CbcPadIff | src/purecrypt/aes.py:208-289 | decrypting and unpadding gives m exactly when the ciphertext is the encryption of m padded, for data of any length |
| AesModes.CounterModeLoop | src/purecrypt/aes.py:356-367 | the keystream loop computes the specified counter mode |
| AesModes.CounterModeAt | src/purecrypt/aes.py:292-321 | byte j is combined with byte j % 16 of the encryption of counter c0 + j / 16, modulo 2^128 for CTR and in the low 32 bits for GCTR |
| AesModes.CountersDiffer | src/purecrypt/aes.py:356-371 | the counters of the first 2^32 blocks are pairwise different, for CTR those of the first 2^128 |
| AesModes.KeystreamDiffers | src/purecrypt/aes.py:356-371 | so no two of those blocks share their keystream |
| AesModes.CounterModeTwice | src/purecrypt/aes.py:299-321 | a counter mode is its own inverse on data of any length |
| Ghash.Multiply128 | src/purecrypt/aes.py:324-332 | the shift-and-reduce loop computes the specified product |
| Ghash.GcmMulCommutes | src/purecrypt/aes.py:324-332 | that product is commutative |
| Ghash.GcmMulAssociates | src/purecrypt/aes.py:324-332 | and associative |
| Ghash.GcmMulLinear | src/purecrypt/aes.py:324-332 | and linear in both factors |
| Ghash.TimesSingle | src/purecrypt/aes.py:324-332 | with the leftmost bit as its unit |
| Ghash.HashBlocks | src/purecrypt/aes.py:340-345 | the loop over blocks computes the specified accumulation |
| Ghash.GhashIsSum | src/purecrypt/aes.py:340-345 | the accumulation is the sum of the blocks times falling powers of the key of section 6.4 of SP 800-38D |
| Ghash.GhashLinear | src/purecrypt/aes.py:340-345 | the hash of a sum of messages of one length is the sum of their hashes |
| Ghash.BlockBack | src/purecrypt/aes.py:374-377 | writing a number read from a block gives the block back |
| Gcm.PreCounterStandard | src/purecrypt/aes.py:348-353 | the pre-counter block is the one of section 7.1 of SP 800-38D although the length is appended without padding |
| Gcm.TagStandard | src/purecrypt/aes.py:374-377 | the tag is the polynomial over data, ciphertext and lengths, encrypted with the pre-counter block |
| Gcm.Seal | src/purecrypt/aes.py:385-406 | encryption over the loops returns the specified ciphertext and tag |
| Gcm.Unseal | src/purecrypt/aes.py:409-431 | decryption over the loops returns the specified plaintext or failure |
| Gcm.GcmIff | src/purecrypt/aes.py:385-431 | decryption returns m exactly when encrypting m gives this ciphertext and tag, for tags of 4 to 16 bytes |
| X509Path.BuildChainSound | src/purecrypt/x509.py:1014-1036 | a returned chain starts at the leaf, links by issuing, repeats no certificate, is depth-bounded and ends at or in the entity of a root |
| X509Path.BuildChainIff | src/purecrypt/x509.py:990-1036 | unless one of its own checks raises, the search succeeds exactly when a trusted walk of at most eight intermediates exists |
| X509Path.QuietNeverRaises | src/purecrypt/x509.py:972-1011 | the search raises only if a check of a store certificate at the end of some walk from the leaf raises |
| X509Path.AcceptedPassesRfc | src/purecrypt/x509.py:1101-1112 | every accepted chain passes the path-length counter of section 6.1.4 of RFC 5280 |
| X509Path.PathLengthRulesAgree | src/purecrypt/x509.py:1056-1075 | without self-issued intermediates the two path-length rules agree exactly |
| X509Path.RfcPathLengthIff | src/purecrypt/x509.py:1056-1075 | the counter of steps (l) and (m) accepts exactly when every path length allows the certificates below it that are not self-issued |
| X509Path.PathLengthRules | src/purecrypt/x509.py:1056-1075 | for CA intermediates the source rule holds exactly when the counter accepts and no path length lies between the two counts |
| X509Path.ValidateChainIff | src/purecrypt/x509.py:1101-1112 | a built chain whose other checks pass is accepted exactly under that condition |
| X509Path.SelfIssuedDiffers | src/purecrypt/x509.py:1071-1073 | stores for which build_chain finds a chain with a self-issued intermediate that the counter and all other checks accept and validate_chain refuses |

## Left out

- MlDsaComplete.Completeness: speaks of signatures that are returned; it does not say that signing succeeds, since the loop may use up its counter or a sampler its stream prefix.
- MlKemCorrect.DecapsReturnsKey: does not bound the probability that the noise fits, which depends on the distribution of SHAKE outputs.
- Ecdsa.SignedVerifies: assumes that multiples of the base point add modulo the order; associativity of the curve law is not proved.
- Ed25519.SignatureVerifies: assumes the same for the Edwards base point and that the order is exactly L.
- EcdsaBytes.DssIff: is stated for orders of less than 2^32 bits, so that no length overflows.
- RsaPadding.PssVerifyIff: takes the mask as a total function; an encoding of more than 2^32 digests would overflow the counter instead (RsaPadding.MaskFits).
- Oids.TextNormalised: the spellings int(p, 10) accepts are a parameter that must read plain decimals.
- Termination of the samplers and of the nonce loop, which depends on the hash outputs; the methods stop after a given number of bytes or candidates.
- Constant-time comparison is modelled as equality and masked selection as a conditional; timing is not modelled.
- Argon2 parameter validation beyond the sizes, the initial hash, the variable-length hash and the final tag.
- BLAKE3 keyed and derive-key construction, which only choose the key words and flags that the model takes as arguments.
- The key, PEM and PKCS#8 wrappers, names, times, extensions and host names of X.509, HKDF, PBKDF2, scrypt, ChaCha20-Poly1305 and X25519.
- Security strength: no statement is made about distributions, forgery or secrecy.
- Termination of prime generation, which depends on the draws.
