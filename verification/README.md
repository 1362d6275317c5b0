# Pyxis: a Dafny model of its hard parts

Pyxis stores files that browsers encrypt before uploading. This project models the parts of it whose
correctness depends on long arguments, and proves what they are for. `dafny verify dfyconfig.toml`
checks all of it.

| part | modules |
|---|---|
| ML-KEM: number-theoretic transform, byte coders, K-PKE, key encapsulation | `Poly`, `Zetas`, `NttSpec`, `NttMul`, `NttEvaluation`, `Ntt`, `BitPacking`, `Coders`, `KpkeSpec`, `KpkeBytes`, `KpkeLayout`, `KpkeCode`, `Kem` |
| scalar multiplication, modular powers and roots, Montgomery ladder | `Groups`, `Recoding`, `PointTables`, `ScalarMul`, `Primes`, `ModPow`, `TonelliShanks`, `Ladder`, `X25519` |
| the Keccak sponge object | `Sponge`, `SpongeStandard`, `KeccakCode` |
| quotas, reservations, rows and blobs | `Tables`, `Storage`, `Transactions`, `QuotaSafety`, `Accounting`, `ReservationPromise`, `Lifecycle`, `BatchSlots`, `Server`, `Downloads` |
| QR codes: Reed-Solomon blocks and the GIF raster | `GaloisField`, `ReedSolomon`, `QrCodewords`, `QrInterleave`, `Bits`, `Lzw`, `GifRaster`, `GifEndCode` |
| the encrypted container | `Container`, `ContainerProofs` |
| the archive writer | `Crc32`, `ZipNames`, `ZipFormat`, `ZipCode` |
| shared arithmetic and small types | `ModArith`, `Sets`, `Options`, `Bytes` |

How the parts are modelled:

- Polynomials, header buffers, tables and output streams that the source overwrites are arrays, classes
  and loops; each method is tied to a specification function or to the property it is for, and the
  theorems are proved about those.
- Hash functions, the Keccak permutation, noise sampling, AES-GCM, JSON parsing, text encoding and the
  curve's group law are parameters. AES-GCM under a key used once is ideal: it opens exactly what it
  sealed (`ContainerProofs.IdealKeyIsIdeal` gives such a key). The curve is any commutative group.
- A database transaction under the advisory lock is one step with its own timestamp, which is not
  later than the clock but may be earlier than that of the transaction before it, because the
  database's `NOW()` is the start of the transaction. Statements and the disk work after them are
  separate steps, and handlers, the sweeper and crashes interleave freely.
- What a method and its theorems share is also described from outside: key and ciphertext bytes by the
  sampled polynomials (`KpkeLayout`), the transform by residues (`NttEvaluation`), the hash by the states
  of the standard's sponge (`SpongeStandard`), the quota checks by the sums the queries take
  (`Accounting`), download slots by whole sequences of requests (`Downloads`).
- JavaScript's truncating remainder is written out where an operand could be negative. An array hole
  is the number 0.

Four promises fail for some inputs or runs; each is stated with the condition under which it holds:

- A live reservation is honoured exactly when the final transaction does not start before the latest
  admitted one (`ReservationPromise.PromiseIffInOrder`, with a reachable run in which it is refused).
- A GIF decoder that has the pixels finds the end code exactly when the encoder's table does not end
  with 16 strings, that is, unless the pixels took eleven codes (`GifEndCode.EndCodeFound`); 56 pixels of
  value 0 are an image without a readable end code (`GifEndCode.EndCodeLost`).
- An archive can be read back exactly when its entries and name lengths fit 16 bits
  (`ZipFormat.RoundTripIff`); 65536 empty files are accepted and cannot be read back
  (`ZipFormat.EmptyFilesAreLost`).
- An unarchived row has its blob on disk whenever its upload's handler saw the commit succeed
  (`Lifecycle.LifecycleSafety`); when a commit that took effect is reported as an error, the handler
  removes the blob and the row stays (`Lifecycle.UnseenCommitLosesBlob`).

## Model

| member | source | states |
|---|---|---|
| `Poly.MulIsConvolution` | web/static/mlkem.js:2420-2437 | the product used as reference is the textbook one: coefficient k is the sum of f[i]*g[j] over i+j = k, before folding by X^256 = -1 |
| `Poly.FoldMul` | web/static/mlkem.js:2420-2437 | reducing modulo X^n - c commutes with multiplication, which is why the transform may work block by block |
| `Zetas.ReverseBits` | web/static/mlkem.js:1717-1727 | the loop computes the bit reversal, for every width |
| `Zetas.GetZetas` | web/static/mlkem.js:2275-2283 | the table holds 17 to the bit-reversed index, modulo 3329 |
| `Zetas.ZetaSquare` | web/static/mlkem.js:2275-2283 | the two child blocks of a block use the square roots of its root, with opposite signs |
| `Zetas.ZetaMirror` | web/static/mlkem.js:1779 | the root at N - grp is the negated inverse of the forward root it has to undo |
| `Zetas.Root128` | web/static/mlkem.js:2275-2283 | 17 to the 128th power is -1 modulo 3329 |
| `NttSpec.StageUndo` | web/static/mlkem.js:1772-1798 | one inverse stage undoes one forward stage up to the factor 2, for every input |
| `NttSpec.DecodeEncode` | web/static/mlkem.js:2305-2324 | the inverse transform undoes the forward one on every polynomial; 3303 cancels the factor 2^7 |
| `NttSpec.EncodeDecode` | web/static/mlkem.js:2305-2324 | and the other way round |
| `NttMul.ProductStage` | web/static/mlkem.js:1772-1798 | a forward stage carries a product in every block to products in its two halves |
| `NttMul.EncodeProduct` | web/static/mlkem.js:2420-2437 | the transform of a ring product is the blockwise product of the transforms, with zeta index 64 + (i >> 1) and its alternating sign |
| `NttMul.NttMultiplies` | web/static/mlkem.js:2420-2437 | transforming, multiplying and transforming back multiplies in Z_3329[X]/(X^256 + 1), for all polynomials |
| `NttEvaluation.GammaPower` | web/static/mlkem.js:2275-2283 | the constant of quadratic factor b is 17 to the power 2 rev7(b) + 1, modulo 3329 |
| `NttEvaluation.StageResidues` | web/static/mlkem.js:1753-1803 | after each stage every block holds the residue of the polynomial modulo its factor of X^256 + 1 |
| `NttEvaluation.EncodeEvaluates` | web/static/mlkem.js:2314-2317 | coefficients 2b and 2b + 1 of the transform are the residue modulo X^2 - 17^(2 rev7(b) + 1): the sums of f[2i + e] times powers of that constant |
| `Ntt.FftCore` | web/static/mlkem.js:1753-1803 | the in-place triple loop computes exactly the stages of the specification, in either direction, with every value reduced |
| `Ntt.NttEncode` | web/static/mlkem.js:2314-2317 | the buffer becomes the transform of what it held |
| `Ntt.NttDecode` | web/static/mlkem.js:2318-2323 | the buffer becomes the inverse transform, scaled by 3303 |
| `Ntt.PolyAdd` | web/static/mlkem.js:2404-2411 | one conditional subtraction gives the reduced sum |
| `Ntt.PolySub` | web/static/mlkem.js:2412-2419 | one conditional addition gives the reduced difference |
| `Ntt.MultiplyNtts` | web/static/mlkem.js:2425-2437 | the first buffer is overwritten with the reduced blockwise product, the second keeps its values |
| `BitPacking.DigitsOfValue` | web/static/mlkem.js:2325-2358 | reading a number's digits gives back the digits it was written with |
| `BitPacking.RepackInverse` | web/static/mlkem.js:2325-2358 | repacking a-bit fields into b-bit fields loses nothing and fills the fields exactly, for all widths |
| `BitPacking.RepackBits` | web/static/mlkem.js:2325-2358 | repacking keeps every bit in its place, counted from the lowest bit of the first field |
| `Coders.BitsEncode` | web/static/mlkem.js:2336-2346 | the shifting loop writes exactly the d*N/8 bytes that hold the coded coefficients |
| `Coders.BitsDecode` | web/static/mlkem.js:2347-2355 | the shifting loop reads exactly the N fields of d bits and decodes each |
| `Coders.CompressFloor` | web/static/mlkem.js:2640 | the fractional quotient, once masked, is the nearest multiple modulo 2^d |
| `Coders.CompressError` | web/static/mlkem.js:2634-2644 | compressing and decompressing moves a coefficient by at most round(q / 2^(d+1)) modulo q |
| `Coders.UnpackPack` | web/static/mlkem.js:2325-2358 | decoding undoes encoding of the d-bit fields, for every d |
| `Coders.PackedBits` | web/static/mlkem.js:2336-2346 | bit t of the bytes, the lowest one of each byte first, is bit t % d of field t / d |
| `Coders.Decode12Encode12` | web/static/mlkem.js:2645-2646 | with 12 bits every reduced polynomial comes back unchanged |
| `Coders.ModulusCheck` | web/static/mlkem.js:2468-2475 | re-encoding reproduces 384 bytes exactly when all their 12-bit fields are below 3329 |
| `KpkeSpec.VSumSwap` | web/static/mlkem.js:2683-2702 | the double sum over the matrix may be taken by rows or by columns |
| `KpkeSpec.CrossTerms` | web/static/mlkem.js:2683-2707 | the public-key products of sender and receiver cancel up to products of small polynomials |
| `KpkeSpec.DotDecodes` | web/static/mlkem.js:2690-2702 | decoding a sum of transformed products is the sum of the ring products |
| `KpkeSpec.DecryptionNoise` | web/static/mlkem.js:2766-2777 | what decryption computes is the message polynomial plus the total noise, compression errors included |
| `KpkeBytes.DecodedKeys` | web/static/mlkem.js:2715-2742 | the polynomials read from the key bytes are the ones key generation made |
| `KpkeBytes.CompressionNoise` | web/static/mlkem.js:2634-2644 | the compression part of the noise is bounded by round(q / 2^(d+1)) in every coefficient |
| `KpkeBytes.MessageRecovered` | web/static/mlkem.js:2772-2773 | a message with noise added is recovered exactly when each centred noise coefficient is at least -832 and at most 832, or 831 under a bit 1 |
| `KpkeBytes.KpkeRoundTrip` | web/static/mlkem.js:2673-2778 | for every matrix, secret, error and message: decrypting an encryption gives the message exactly when all noise coefficients fit |
| `KpkeBytes.SmallNoiseFits` | web/static/mlkem.js:2673-2778 | in particular whenever every centred noise coefficient is at most 831 in absolute value |
| `KpkeLayout.SecretRow` | web/static/mlkem.js:2715-2742 | bytes 384i to 384(i+1) of the secret key encode the transform of the noise sampled with nonce i |
| `KpkeLayout.PublicRowAt` | web/static/mlkem.js:2722-2737 | row i of the public key is the transform of the noise with nonce k + i plus the sum over j of the matrix entry (j, i) times the transform of the noise with nonce j; the matrix seed follows |
| `KpkeLayout.CipherRowIs` | web/static/mlkem.js:2683-2697 | part i of the ciphertext is the noise with nonce k + i plus the sum over j of the matrix entry (i, j) times the transform of the noise with nonce j, transformed back |
| `KpkeLayout.CipherTailIs` | web/static/mlkem.js:2698-2706 | the last part is message, noise with nonce 2k, and the key rows times the same transforms, transformed back |
| `KpkeLayout.DecryptIs` | web/static/mlkem.js:2766-2777 | the decrypted bits are those of v minus the secret rows times the transforms of the parts of u |
| `KpkeCode.KeyGen` | web/static/mlkem.js:2715-2742 | the buffers that transforms and products overwrite still yield the specified key bytes, whose rows `KpkeLayout` describes |
| `KpkeCode.EncryptCore` | web/static/mlkem.js:2683-2707 | the overwriting and clearing of shared buffers never touches a value still in use: the result is the specified ciphertext, whose parts `KpkeLayout` describes |
| `KpkeCode.EncryptBytes` | web/static/mlkem.js:2743-2749 | encryption from key bytes is the specified one |
| `KpkeCode.DecryptBytes` | web/static/mlkem.js:2766-2777 | decryption, which transforms and multiplies in place, is the specified one |
| `KpkeCode.ValidateModulus` | web/static/mlkem.js:2468-2475 | accepts a key exactly when every 12-bit field of its rows is below 3329 |
| `KpkeCode.ModulusRows` | web/static/mlkem.js:2207-2233 | re-encoding a whole vector reproduces the bytes exactly when it does so field by field |
| `Kem.OwnKeyAccepted` | web/static/mlkem.js:2486-2522 | every generated public key passes the modulus check of encapsulation |
| `Kem.KemRoundTrip` | web/static/mlkem.js:2486-2553 | decapsulation gives the encapsulated key whenever the noise fits; otherwise the rejection key, unless another message encapsulates to the same ciphertext |
| `Kem.KemKeyGen` | web/static/mlkem.js:2486-2501 | the secret key is the K-PKE key, the public key, its hash and the rejection seed |
| `Kem.Encapsulate` | web/static/mlkem.js:2515-2535 | refused exactly for a key with an unreduced field; otherwise the shared key is the first half of the digest of message and hashed key, and the ciphertext is made with its second half as coins |
| `Kem.Decapsulate` | web/static/mlkem.js:2536-2553 | refused exactly for a wrong key hash; the first half of the digest is returned exactly if the decrypted message encrypts, with the second half as coins, to the ciphertext, and the rejection key otherwise |
| `Groups.MulAnnihilated` | web/static/mlkem.js:1130-1141 | adding a multiple of an annihilating order changes no multiple of the point |
| `Recoding.WnafDigits` | web/static/mlkem.js:896-913 | terminates for windows of two bits or more; the digits sum back to the scalar, each 0 or odd and below half the window size |
| `Recoding.WindowOfOneSticks` | web/static/mlkem.js:896-913 | with a window of one bit the loop would reproduce 1 forever |
| `Recoding.SignedWindowDigits` | web/static/mlkem.js:914-932 | refused exactly when the scalar exceeds what the windows hold; otherwise the digits sum back to it and index inside the table |
| `Recoding.ExtraWindowSuffices` | web/static/mlkem.js:1042-1044 | one window more than the bit length needs absorbs every final carry |
| `PointTables.OddMultiples` | web/static/mlkem.js:889-895 | entry j is (2j+1) times the point |
| `PointTables.WnafWalk` | web/static/mlkem.js:933-950 | one pass over several scalars computes the plain sum of n_i * P_i |
| `PointTables.BuildWnafTable` | web/static/mlkem.js:1042-1056 | entry i of window w is (i+1) * 2^(w*W) times the point, with no doubling lost between windows |
| `PointTables.WnafCachedCT` | web/static/mlkem.js:1066-1086 | the additions-only multiplication gives n*P, or refuses exactly the scalars that do not fit |
| `PointTables.FixedWindowCT` | web/static/mlkem.js:1157-1178 | the flat-window multiplication gives n*P for every n below 2^bits |
| `ScalarMul.MulAddUnsafe` | web/static/mlkem.js:951-961 | gives the sum of n_i * P_i; refused exactly for unequal lists or a scalar out of range |
| `ScalarMul.BlindedFits` | web/static/mlkem.js:1130-1141 | the blinded scalar always fits the wider table |
| `ScalarMul.BlindRange` | web/static/mlkem.js:1130-1141 | the blind has its top bit set and the next one clear |
| `ScalarMul.ScalarMultiplier.SetWindowSize` | web/static/mlkem.js:1207-1214 | accepted exactly for sizes from 1 to the bit length whose table stays within 2 GiB; it drops the old tables |
| `ScalarMul.ScalarMultiplier.GetWnafPrecomputes` | web/static/mlkem.js:1090-1104 | whatever was cached before, the returned table belongs to this point, width and length |
| `ScalarMul.ScalarMultiplier.RunCT` | web/static/mlkem.js:1120-1125 | the cached and the table-less path compute the same n*P |
| `ScalarMul.ScalarMultiplier.MulCT` | web/static/mlkem.js:1126-1129 | n*P for 1 <= n < order, refused otherwise |
| `ScalarMul.ScalarMultiplier.MulCTBlinded` | web/static/mlkem.js:1130-1141 | the blinded multiple equals n*P for every point the order annihilates |
| `ScalarMul.ScalarMultiplier.MulUnsafe` | web/static/mlkem.js:1193-1202 | n*P for every n below the fourth power of the order, reduced or not |
| `ScalarMul.ScalarMultiplier.ShouldBlind` | web/static/mlkem.js:1179-1189 | blinding is chosen only where the order is known to annihilate the point |
| `ScalarMul.ScalarMultiplier.MulSecret` | web/static/mlkem.js:1190-1192 | the secret multiplication is n*P whether or not it was blinded |
| `ModPow.PowMod` | web/static/mlkem.js:401-446 | congruent to the plain power for every base and exponent, reduced except for the exponent 1, which gives the number back; refused exactly for a modulus below 2 or a negative exponent |
| `ModPow.PowWindowed` | web/static/mlkem.js:426-445 | four squarings and a table of 16 powers per hexadecimal digit compute the power |
| `Primes.Fermat` | web/static/mlkem.js:624-636 | a^(p-1) = 1 modulo a prime that does not divide a, on which the Legendre symbol rests |
| `Primes.NonResidueExists` | web/static/mlkem.js:538-543 | the search for a non-residue below an odd prime can succeed |
| `TonelliShanks.Legendre` | web/static/mlkem.js:624-636 | for a prime the symbol is always 1, 0 or -1, and 1 exactly for residues |
| `TonelliShanks.Prepare` | web/static/mlkem.js:528-547 | refused exactly for 2 or when 2..1001 are all residues; otherwise p-1 = Q*2^S with Q odd and cc has order 2^S |
| `TonelliShanks.LeastExponent` | web/static/mlkem.js:561-568 | the inner search ends below M with the least i such that t^(2^i) = 1 |
| `TonelliShanks.Round` | web/static/mlkem.js:569-574 | one round keeps R^2 = t*n and t^(2^(M-1)) = 1 while M falls |
| `TonelliShanks.TonelliSlow` | web/static/mlkem.js:548-577 | terminates, and finds a root exactly for 0 and the residues |
| `TonelliShanks.Sqrt3Mod4` | web/static/mlkem.js:487-493 | a returned root is one, and every residue modulo a prime 3 mod 4 gets one |
| `TonelliShanks.SquareRoot` | web/static/mlkem.js:528-578 | for a prime modulus at least 3: a root is returned exactly for squares, once a non-residue was found |
| `Ladder.ArithmeticSwap` | web/static/mlkem.js:1527-1538 | the arithmetic swap is a conditional swap, and its dividend is never negative |
| `Ladder.XorBit` | web/static/mlkem.js:1618-1620 | bit t of k xor (k >> 1) is the difference of neighbouring bits of k |
| `Ladder.Round` | web/static/mlkem.js:1623-1637 | reducing after every product gives the round of the standard |
| `Ladder.MontgomeryLadder` | web/static/mlkem.js:1609-1644 | for every scalar and u in range, and every inversion the curve brings, the result is x_2 times the inversion of z_2 of the ladder of section 5 of RFC 7748; refused otherwise |
| `X25519.Squarings` | web/static/mlkem.js:447-458 | repeated squaring gives the power with exponent 2^power; refused for a modulus below 2 or a negative exponent |
| `X25519.PrimeShape` | web/static/mlkem.js:1863 | the modulus written in the source is 2^255 - 19 |
| `X25519.JoinOnes` | web/static/mlkem.js:1812-1820 | squaring k times and multiplying joins two exponents of one bits to one of n + k one bits |
| `X25519.Chain` | web/static/mlkem.js:1808-1824 | the addition chain gives the powers with exponents (p - 5) / 8 and 3, also for negative arguments |
| `X25519.PowPminus2` | web/static/mlkem.js:1877-1880 | the result is exactly x^(p - 2) mod p |
| `X25519.Multiply` | web/static/mlkem.js:1609-1644 | for every scalar and u in range the result is x_2 * z_2^(p - 2) of the standard's ladder; refused otherwise |
| `X25519.QuotientIsDivision` | web/static/mlkem.js:1642-1643 | that product is x / z in the field, and 0 for the point at infinity |
| `Ladder.ClampedFits` | web/static/mlkem.js:1564-1566 | no clamped scalar has more bits than the ladder has rounds |
| `Ladder.CurveConstants` | web/static/mlkem.js:1556-1566 | the coefficient A is that of section 4 of RFC 7748, and every clamped scalar is in the accepted range |
| `Ladder.DeferredSwap` | web/static/mlkem.js:1618-1641 | deferring the swaps equals swapping before and after each round |
| `Ladder.StepIsMontgomery` | web/static/mlkem.js:1623-1637 | a round is Montgomery's doubling for the coefficient A = 4*a24 + 2 and his differential addition, up to a common factor 4 |
| `Ladder.RfcMultiple` | web/static/mlkem.js:1609-1644 | if a round doubles one point and adds the other differentially, the ladder ends with the k-th multiple |
| `Sponge.AbsorbChunk` | web/static/mlkem.js:2032-2056 | adding a piece in place, with a permutation when the block fills, absorbs the longer message |
| `Sponge.PaddedIsWhole` | web/static/mlkem.js:2057-2067 | the padded message always ends on a block boundary |
| `Sponge.SqueezePrefix` | web/static/mlkem.js:2068-2083 | asking for more output only appends |
| `SpongeStandard.AbsorbedByte` | web/static/mlkem.js:2050-2052 | byte i of the state is the old byte xor byte i of the input |
| `SpongeStandard.PaddedBits` | web/static/mlkem.js:2057-2067 | the padded string is the message, the suffix bits, zeros and a final 1 in the top bit of its last byte |
| `SpongeStandard.PaddedLength` | web/static/mlkem.js:2057-2067 | it fills the least number of blocks with room for suffix and final bit |
| `SpongeStandard.OutputStates` | web/static/mlkem.js:2068-2083 | output byte i stands at place i % r of the state i / r permutations later |
| `SpongeStandard.HashIsSponge` | web/static/mlkem.js:2025-2083 | the hash is that of algorithm 8 of FIPS 202: from the zero state, each block is added bytewise to the first r bytes before the permutation, and the output is read from the states that follow |
| `KeccakCode.PadInPlace` | web/static/mlkem.js:2057-2067 | the in-place padding, with its extra permutation when suffix and final bit collide, absorbs the padding bytes |
| `KeccakCode.Keccak.Update` | web/static/mlkem.js:2032-2056 | by the word or the byte path, the state becomes that of the longer message; refused after the end or after destruction |
| `KeccakCode.Keccak.Finish` | web/static/mlkem.js:2057-2067 | pads once, and does nothing the second time |
| `KeccakCode.Keccak.WriteInto` | web/static/mlkem.js:2068-2083 | the buffer receives the next bytes of the one output belonging to the message |
| `KeccakCode.Keccak.XofInto` | web/static/mlkem.js:2084-2088 | only an object made for it gives extendable output |
| `KeccakCode.Keccak.Digest` | web/static/mlkem.js:2093-2108 | the digest is the one-shot hash of the message, given once |
| `KeccakCode.Keccak.Clone` | web/static/mlkem.js:2109-2124 | a copy has its own state and continues from the same point |
| `KeccakCode.Stream` | web/static/mlkem.js:2025-2092 | however input and output are cut into pieces, the joined output is the one-shot sponge of the joined input |
| `Storage.ViolationIffOverrun` | storage.go:310-323 | the chain of quota and drop checks refuses exactly when one of the counted limits would be overrun or the drop is gone |
| `Storage.BookedExactly` | storage.go:493-502 | the declared length is booked if it is positive and fits both ceilings, otherwise the lower ceiling |
| `Accounting.FileCounts` | storage.go:34-54 | a placed file counts against each limit exactly what its check added, until it is archived or expires, and nothing afterwards |
| `Accounting.ReservationCounts` | storage.go:55-66 | a reservation counts exactly what it books, for fifteen minutes |
| `Accounting.AdmittedIff` | storage.go:310-471 | an upload is admitted exactly if the sums and counts of the queries, with it added, stay within every limit that is set |
| `Accounting.DeliveryIff` | storage.go:475-488 | a delivery is opened exactly below the drop's limits of open deliveries and of files |
| `Accounting.ReserveCounts` | storage.go:527-540 | a reservation raises the booked amounts by exactly what it books |
| `Accounting.FinalizeCounts` | storage.go:548-590 | a stored file raises the stored amounts by exactly its own, and exactly its reservation's are taken off |
| `Accounting.ArchivingCounts` | sweeper.go:108-119 | archiving takes exactly the archived rows' amounts away |
| `Accounting.DeletingCounts` | sweeper.go:127-136 | deleting takes exactly the deleted rows' amounts away |
| `QuotaSafety.ReserveIsSafe` | storage.go:493-540 | an admitted reservation keeps every limit respected at all later times |
| `QuotaSafety.FinalizeIsSafe` | storage.go:548-590 | so does exchanging a reservation, live or lapsed, for a file row |
| `QuotaSafety.OpenSubmissionIsSafe` | handlers_drops.go:757-800 | so does a submission admitted under the lock |
| `QuotaSafety.OtherStepsFree` | sweeper.go:51-253 | every sweep, archive, delete, release and download step only frees capacity |
| `QuotaSafety.NextIsSafe` | storage.go:419-590 | every enabled step of the system keeps the limits |
| `QuotaSafety.RunIsSafe` | storage.go:45-65 | every interleaving of steps does |
| `QuotaSafety.QuotaSafety` | storage.go:45-65 | in every run, stored plus live-reserved bytes and counts never exceed the instance, user, drop and submission limits, nor a drop's submissions theirs |
| `ReservationPromise.LiveReservationIsKept` | storage.go:548-590 | the final check never refuses an upload whose reservation is live and large enough |
| `ReservationPromise.BookedUploadIsKept` | handlers.go:548-552 | what is booked from the declared length or the ceiling is always large enough, because the container is never shorter than the file |
| `ReservationPromise.LateStateReachable` | storage.go:493-590 | a run in which space that expires at a later timestamp is given away |
| `ReservationPromise.LateUploadRefused` | storage.go:548-590 | in it, a transaction that started earlier is refused although its reservation is live |
| `ReservationPromise.PromiseIffInOrder` | storage.go:548-590 | the promise holds exactly for transactions that start no earlier than the latest admitted one |
| `Lifecycle.NextKeeps` | sweeper.go:108-253 | every step of handlers and sweeper keeps rows, blobs, pending removals and counts consistent |
| `Lifecycle.LifecycleSafety` | handlers.go:1071-1118 | in every run each unarchived row whose commit its handler saw has its blob on disk, and no link serves more downloads than its limit |
| `Lifecycle.UnseenCommitLosesBlob` | handlers.go:787-814 | whenever a commit that took effect is reported as an error, a run leads to an unarchived row without a blob |
| `Lifecycle.StaleCheckIsSound` | handlers.go:1088-1093 | retiring a link on a stale count never takes away a free slot |
| `Lifecycle.LastRequestRetires` | handlers.go:1088-1093 | the request that saw and took the last slot archives the link and has its blob removed |
| `Lifecycle.RetiredIsDoomed` | sweeper.go:108-180 | every row that an archiving or deleting statement retires has its blob removed, cascades excepted |
| `Lifecycle.ArchivingIsFinal` | sweeper.go:108-180 | an archived row is never unarchived and its archive time never changes |
| `BatchSlots.SlotsSafety` | handlers_batch.go:556-574 | in every run a batch link serves at most as many files as its limit, even after its row is gone |
| `BatchSlots.StaleCheckIsSound` | handlers_batch.go:576-581 | the check after a download retires a batch only when no slot is left |
| `BatchSlots.LastRequestRetires` | handlers_batch.go:576-581 | the request that saw and took the last slot archives the batch |
| `BatchSlots.ServedIff` | handlers_batch.go:556-574 | a member download is served exactly while the row is there, below its limit and before its expiry |
| `BatchSlots.ArchivingIsFinal` | sweeper.go:184-241 | archiving a batch is never undone and its count never falls |
| `Server.App.ReserveUpload` | storage.go:493-540 | the books change exactly as the specified transaction, or not at all |
| `Server.App.FinalizeUpload` | storage.go:548-590 | reservation out, checks, row in; a refusal restores the reservation |
| `Server.App.ReleaseReservation` | storage.go:592-599 | afterwards no reservation has that number and every other one is there as often as before |
| `Server.App.StoreUpload` | handlers.go:552-800 | on success row and blob are there; otherwise no blob is left, and a row only if its commit was not acknowledged; either way exactly the own reservation is gone |
| `Server.App.CollectStored` | sweeper.go:138-153 | returns the names of exactly the matching rows |
| `Server.App.RemoveBlobs` | sweeper.go:155-162 | removes exactly the named blobs, missing or not |
| `Server.SweepIsComplete` | sweeper.go:108-136 | after a sweep no unarchived row is expired or used up, none is past retention, and every other row is as it was |
| `Server.SweptRows` | sweeper.go:108-136 | exactly the unarchived rows past their expiry or at their limit are archived, and exactly the rows archived thirty days ago or longer are gone |
| `Server.SweptBatches` | sweeper.go:184-194 | the same archiving for batch links |
| `Server.SweptDropFiles` | sweeper.go:69-77 | exactly the files in deliveries of drops past their expiry are archived |
| `Server.App.SweepExpiredFiles` | sweeper.go:108-136 | archives exactly the dead links, purges exactly the rows past retention, removes exactly their blobs |
| `Server.App.ConsumeDownload` | handlers.go:1071-1086 | succeeds exactly when the count is below the limit, if any, and the expiry, if any, is in the future; then one row counts one download more, within its limit, and nothing else changes; otherwise nothing does |
| `Server.App.ConsumeBatchDownload` | handlers_batch.go:556-574 | the same for a batch link |
| `Downloads.FirstRequestsServed` | handlers.go:1071-1086 | of any sequence of requests before its expiry a link serves exactly the first ones, as many as it has slots; without a limit all of them; none from the expiry on |
| `Downloads.FirstMembersServed` | handlers_batch.go:556-574 | the same for the member files of a batch link |
| `GaloisField.OrderMinimal` | web/static/qrlib.js:1137-1149 | the field element has order exactly 255 |
| `GaloisField.PowersDistinct` | web/static/qrlib.js:1147-1149 | the logarithm table assigns every entry at most once |
| `ReedSolomon.PowersCover` | web/static/qrlib.js:1147-1149 | every nonzero byte has a logarithm |
| `ReedSolomon.InitTables` | web/static/qrlib.js:1134-1149 | the recurrence fills the table of powers, and the other table inverts it on every nonzero byte |
| `ReedSolomon.QrMath.Gexp` | web/static/qrlib.js:1162-1173 | the power of any integer exponent, by its remainder modulo 255 |
| `ReedSolomon.ExpOfLog` | web/static/qrlib.js:1229-1238 | adding to a logarithm, of either sign, multiplies by that power |
| `ReedSolomon.GeneratorTied` | web/static/qrlib.js:966-972 | neighbouring generator coefficients are tied by (a^n + a^m) c[m] = (a^(m+1) + 1) c[m+1] |
| `ReedSolomon.GeneratorNonzero` | web/static/qrlib.js:966-972 | with fewer than 255 error codewords no generator coefficient is 0, so no logarithm of 0 is taken |
| `QrCodewords.CleanIffMultiple` | web/static/qrlib.js:292-300 | all syndromes of a block vanish exactly when it is a multiple of the product of (x + a^i) |
| `QrCodewords.SyndromeSum` | web/static/qrlib.js:292-300 | syndrome i is the sum of the codewords, each times a^i to its place from the end |
| `QrCodewords.CleanSum` | web/static/qrlib.js:292-300 | the codewords of a clean block add up to 0 |
| `QrCodewords.TooManyRoots` | web/static/qrlib.js:292-300 | no nonzero polynomial of n coefficients has n of the roots |
| `QrCodewords.ParityUnique` | web/static/qrlib.js:292-300 | the error codewords are the only ones that complete the data to a multiple |
| `QrCodewords.GeneratorEncodesOne` | web/static/qrlib.js:966-972 | the generator is the product of its n linear factors |
| `QrCodewords.Multiply` | web/static/qrlib.js:1210-1221 | the table product is the convolution over the field |
| `QrCodewords.ErrorCorrectPolynomial` | web/static/qrlib.js:966-972 | the loop builds the generator, without zero coefficients |
| `QrCodewords.Mod` | web/static/qrlib.js:1223-1242 | the recursive division ends with a shorter polynomial that has the dividend's value at every root of the divisor |
| `QrCodewords.BlockParity` | web/static/qrlib.js:292-300 | data followed by the computed codewords has all syndromes 0, for every data block, zero or not |
| `QrInterleave.PlaceOf` | web/static/qrlib.js:311-327 | entry i of block r stands after all earlier columns and the long enough blocks above it |
| `QrInterleave.InterleavingInjective` | web/static/qrlib.js:311-327 | blocks of the same lengths are recovered from the interleaved sequence |
| `QrInterleave.Interleave` | web/static/qrlib.js:311-318 | the double loop writes the columns one after another |
| `QrInterleave.CreateBytes` | web/static/qrlib.js:267-330 | the blocks split the buffer, each with its codewords is clean, and interleaved they fill the array exactly |
| `QrInterleave.BlocksSplit` | web/static/qrlib.js:278-291 | the blocks, one after another, are the buffer continued by zeros |
| `Bits.BitOutputStream.Write` | web/static/qrlib.js:2100-2116 | appends exactly the low bits of the code to the bit stream |
| `Bits.BitOutputStream.Flush` | web/static/qrlib.js:2118-2122 | completes the last byte with zero bits |
| `Bits.ValueOfBits` | web/static/qrlib.js:2100-2116 | a number is read back from its bits |
| `Bits.BitOf` | web/static/qrlib.js:2100-2116 | bit i of a code is the one of weight 2^i |
| `Bits.BitOfByte` | web/static/qrlib.js:2100-2122 | bit 8k + i of the stream is bit i of byte k |
| `Lzw.Understood` | web/static/qrlib.js:2153-2177 | the decoder knows the meaning of every written code, also of the entry it has yet to add |
| `Lzw.WidthsAgree` | web/static/qrlib.js:2166-2173 | encoder and decoder widen their codes at the same place, up to the cap |
| `Lzw.StillFollows` | web/static/qrlib.js:2164-2176 | after every code the decoder's table is one entry behind the encoder's, until it is full |
| `Lzw.DecodeEmit` | web/static/qrlib.js:2127-2179 | a decoder written from the format recovers the pixels from the codes and stops right after them |
| `GifRaster.LzwTable.Add` | web/static/qrlib.js:2196-2202 | a new string gets the next number |
| `GifRaster.GetLzwRaster` | web/static/qrlib.js:2127-2187 | a GIF decoder recovers exactly the pixels from the raster, which is the clear code, their codes, the end code and fewer than 8 zero bits |
| `GifRaster.RasterDecodes` | web/static/qrlib.js:2127-2187 | decoding the raster bytes gives exactly the pixels, for every non-empty image of values below 4; the decoder's width is then one more exactly when the table size is a power of two |
| `GifRaster.StartsWithClear` | web/static/qrlib.js:2145-2146 | the first three bits are the clear code 4 |
| `GifEndCode.EmitLength` | web/static/qrlib.js:2153-2179 | below the cap the final table size alone gives the number of bits of all codes, at widths that grow with the table |
| `GifEndCode.OnlySixteen` | web/static/qrlib.js:2166-2184 | of the tables that have just filled the code width, exactly the one of 16 strings leaves no zero bit behind the end code |
| `GifEndCode.EndCodeFound` | web/static/qrlib.js:2179-2184 | for every non-empty image, after its pixels a decoder finds the end code exactly when the final table does not hold 16 strings |
| `GifEndCode.EndCodeLost` | web/static/qrlib.js:2179-2184 | 56 pixels of value 0 are decoded, and no end code follows them |
| `GifRaster.BlocksRead` | web/static/qrlib.js:2071-2085 | a reader of the data sub-blocks recovers the raster |
| `GifRaster.WriteBlocks` | web/static/qrlib.js:2071-2085 | the loop writes these sub-blocks |
| `Container.ChunkCountsAgree` | crypto.go:195-205 | the server's and the browser's chunk counts agree for every version with a manifest |
| `Container.CipherLenIncreases` | crypto.go:250-256 | the stored size strictly grows with the plaintext and is never below it |
| `Container.NonceInjective` | web/static/e2e.js:190-196 | no two chunks of a file share a nonce |
| `Container.NonceValue` | web/static/e2e.js:190-196 | the twelve bytes are the chunk's index as a number, the highest byte first |
| `Container.HeaderRoundTrip` | web/static/e2e.js:533-552 | a written header is read back from every object it begins |
| `Container.HeaderLayout` | web/static/e2e.js:544-552 | "PYX", the version digit, the manifest's length with the high byte first, and the manifest |
| `Container.AcceptedHeader` | web/static/e2e.js:533-542 | an accepted object begins with the header of its manifest under one of three magics |
| `Container.WriteHeader` | web/static/e2e.js:544-552 | refused exactly for manifests that exceed the length field |
| `Container.VerifyContainerHeader` | crypto.go:278-292 | accepts exactly the uploads that begin with the header of the declared manifest |
| `Container.ServerAndClientAgree` | crypto.go:262-292 | what the server lets in carries, for the browser, the manifest the server stored |
| `Container.EncryptFile` | web/static/e2e.js:658-686 | the object is the header and the sealed pieces in order |
| `Container.DecryptFile` | web/static/e2e.js:690-740 | the loop opens the chunks in order under the embedded manifest, after the checks of manifest, expectation and length |
| `ContainerProofs.ObjectLength` | web/static/e2e.js:658-686 | the object has exactly the size the server computes |
| `ContainerProofs.ObjectChunk` | web/static/e2e.js:658-686 | at byte 6 + (length of the manifest) + 65552 i stands 65536 bytes of the plaintext, or its rest, sealed under the nonce i and the manifest |
| `ContainerProofs.RoundTrip` | web/static/e2e.js:658-740 | an encrypted file opens to its manifest and bytes, for every size including 0 |
| `ContainerProofs.AcceptedIsSealed` | web/static/e2e.js:690-740 | whatever is accepted yields the sealed manifest and plaintext, and is the sealed object up to the last byte of its magic |
| `ContainerProofs.AcceptedIff` | web/static/e2e.js:690-740 | accepted are exactly the sealed object and its two relabelled copies |
| `ContainerProofs.OpenedManifest` | web/static/e2e.js:690-740 | whatever opens carries a manifest of version 2 to 5 with chunk size 65536, the chunk count of its size, and the size of the plaintext |
| `ContainerProofs.IdealKeyIsIdeal` | web/static/e2e.js:658-686 | the assumptions about the file key hold together |
| `ContainerProofs.VersionConfusion` | web/static/e2e.js:769-782 | reading a container as version 1 or 2 always fails |
| `ContainerProofs.HeaderlessConfusion` | web/static/e2e.js:769-782 | a version 2 object opens neither as version 1 nor as version 3 or later |
| `ContainerProofs.LegacyConfusion` | web/static/e2e.js:769-782 | under a version 1 key no object opens as version 2 or later |
| `ContainerProofs.EmptyObject` | web/static/e2e.js:754-767 | only version 1 accepts an object of no bytes |
| `Crc32.TableStep` | web/static/zip.js:26-40 | one table entry and a shift equal eight bitwise steps |
| `Crc32.RegisterAppend` | web/static/zip.js:44-51 | the register may be carried from one part of the data to the next |
| `Crc32.CrcTable` | web/static/zip.js:26-34 | the 256 entries are eight bitwise steps of their index |
| `Crc32.CrcUpdate` | web/static/zip.js:36-40 | the table loop equals the bitwise register, for every start and every data |
| `Crc32.CrcOfBlob` | web/static/zip.js:44-51 | the checksum over slices is the checksum of the whole |
| `Crc32.Residue` | web/static/zip.js:44-51 | data followed by its checksum, the low byte first, always leaves the register 0xdebb20e3; no data has the checksum 0 |
| `ZipNames.CleanIsSafe` | web/static/zip.js:68-69 | a cleaned name is not empty, has no slash and does not begin with a dot |
| `ZipNames.CleanKeeps` | web/static/zip.js:68-69 | a name without slashes and leading dots is kept |
| `ZipNames.OneUnderscorePerRun` | web/static/zip.js:68 | every maximal run of slashes becomes one underscore, everything else is kept in order |
| `ZipNames.CleanIs` | web/static/zip.js:68-69 | exactly the leading dots are dropped, and an empty name becomes "file" |
| `ZipNames.CandidateIs` | web/static/zip.js:74-78 | the number goes before the last extension, or at the end of a name without one |
| `ZipNames.DecimalReads` | web/static/zip.js:77-82 | the number is written in decimal without leading zeros |
| `ZipNames.CandidateInjective` | web/static/zip.js:74-82 | different numbers give different names |
| `ZipNames.FreeNumber` | web/static/zip.js:77-82 | the search ends, at the first number whose name is free |
| `ZipNames.UniqueNames` | web/static/zip.js:65-87 | the names are safe and pairwise distinct; a free name is kept, a taken one gets the first free number from 2 on |
| `ZipFormat.InsideArchive` | web/static/zip.js:101-151 | every recorded size and offset lies inside the archive, so no 32-bit field wraps |
| `ZipFormat.LocalLayout` | web/static/zip.js:111-124 | every field of the local header stands at its offset, the low byte first |
| `ZipFormat.CentralLayout` | web/static/zip.js:128-142 | every field of the directory record stands at its offset, the low byte first |
| `ZipFormat.RoundTrip` | web/static/zip.js:94-162 | a reader following end record, directory and local headers recovers every entry in order |
| `ZipFormat.RoundTripIff` | web/static/zip.js:94-162 | it does so exactly when the number of entries and all name lengths fit 16 bits |
| `ZipFormat.TooManyEntries` | web/static/zip.js:94-162 | any 65536 empty files with names up to 1000 bytes pass the size checks and cannot be read back |
| `ZipFormat.EmptyFilesAreLost` | web/static/zip.js:153-157 | such files exist, with pairwise distinct names |
| `ZipCode.LocalHeader` | web/static/zip.js:111-124 | the written fields are the local header |
| `ZipCode.CentralHeader` | web/static/zip.js:128-142 | the written fields are the directory record |
| `ZipCode.EndRecord` | web/static/zip.js:153-159 | the written fields are the end record |
| `ZipCode.Build` | web/static/zip.js:94-162 | refused exactly when the archive would pass the 32-bit limit; otherwise it is readable under distinct, safe names as far as the 16-bit fields reach |

## Left out

- `KpkeBytes.SmallNoiseFits`: how probable such noise is under the sampling distributions is not stated.
- `KpkeCode.KeyGen`: rejection sampling of matrix entries and binomial sampling are parameters that give reduced polynomials; buffer lengths that the callers check are preconditions.
- `Coders.BitsEncode`: the bit-or of disjoint fields is addition, and the double-precision quotient of the compressor is exact.
- `Kem.Encapsulate`: the prepared variants that cache the expanded matrix, and key derivation over X25519 and ML-KEM together.
- `TonelliShanks.TonelliSlow`: composite moduli, for which the source may stop with an error or not stop at all; the roots for moduli 5 mod 8 and 9 mod 16 have code of their own.
- `Ladder.RfcMultiple`: that Montgomery's formulas double and add points of the curve; decoding and clamping of byte strings; the set of refused low-order points.
- `X25519.QuotientIsDivision`: that 2^255 - 19 is prime is a hypothesis; multiples of the base point through the Edwards curve.
- `ScalarMul.ScalarMultiplier.GetWnafPrecomputes`: the transform of a new table to another representation of the same points, and a cache keyed by the identity of the point rather than its value, since points are abstract group elements.
- `PointTables.WnafCachedCT`: timing, and the second accumulator, whose value is unspecified.
- `KeccakCode.Keccak.Update`: the 24 rounds of the permutation; the word view of the state is four bytes added at once.
- `QuotaSafety.QuotaSafety`: lowering a limit below the present use; 64-bit overflow of the sums; the free-disk check; deleting a user with everything that hangs on it.
- `Server.App.StoreUpload`: the checks of the request before the reservation; writing the copy to disk in pieces.
- `Lifecycle.LifecycleSafety`: blobs without a row, which crashes and cascading deletes do leave behind; closing a drop that has become full.
- `BatchSlots.SlotsSafety`: the members' blobs, which `Lifecycle` covers through the archiving statement for a batch's members.
- `QrInterleave.CreateBytes`: version and format information, masks, module placement and the bit buffer of the segments.
- `GifRaster.GetLzwRaster`: the fixed header bytes of the image; that table keys are control characters that no inherited property name equals.
- `ContainerProofs.AcceptedIsSealed`: manifests whose size is not an integer; re-reading of slices, progress, cancellation and flushing of partial objects.
- `Container.VerifyContainerHeader`: the server's field-by-field check of the manifest, and sealed names and notes with their padding.
- `ZipCode.Build`: text encoding of names with lone surrogates, which may give equal bytes for different names; date stamps beyond their bit fields.
- Sessions, sign-in, pages, translations, the installer, rate limiting, settings and schema migrations.
