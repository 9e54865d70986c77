# Dafny models of the Anarchy protocol's core algorithms

Anarchy is a chain-backed anonymous social network: a browser frontend, a WebAssembly engine, storage nodes and a
Substrate chain. This project models the self-contained algorithms those parts depend on and proves what each one is
for. Every file is one module; `Common`, `Digits`, `JsText` and `Bytes` are shared.

| module | component |
|---|---|
| `Polynomials`, `Kzg` | storage proofs: powers-of-tau setup, synthetic division, commitment, and the chain node's opening check |
| `Merkle` | the fragment Merkle tree, against sections 2.1 and 2.1.1 of RFC 6962 |
| `Base58` | Base58 text and SS58 addresses, signer and frontend together |
| `Amount` | decimal text of token amounts |
| `Base64` | chunked Base64 (section 4 of RFC 4648) |
| `PostCodec` | the binary post format |
| `Framing`, `Utf8` | length-prefixed SCALE frames of the fragment protocol, and the text in them (RFC 3629) |
| `Jpeg` | the metadata filter (annex B of ITU-T T.81) |
| `Threads` | thread roots, reply lists, and which posts the timeline shows, how often |
| `Auth` | nonce cache and timestamp window of the write API |
| `RateLimiting` | sliding-window limiter |
| `Failover` | active-standby endpoint manager |
| `WorkerPools` | the Web Worker pool as an event machine |
| `Economy` | the ledgers of the economic simulator, over exact reals |

Where the source updates state in place, the model is a class, a loop over a buffer, or a loop over local variables,
and each such method is proved equal to a function of its inputs or of the old state. The lemmas then state what that
function guarantees over all inputs or over whole runs. Clocks, hash functions, timers and signature verification are
parameters.

## Where code and stated intent differ

The code is followed; each difference has a lemma, with the exact condition where one decides.

- `threadGrouping.ts` line 100 equates "top-level" with "is its own root". That holds if and only if parent links have
  no cycle (`Threads.TopLevelIsOwnRoot`; `Threads.CycleExample` is a two-post counterexample). A single post is
  top-level or in the list of one top-level root if and only if the parent walk from it stops (`Threads.PostPlaced`).
  The timeline shows it, once, if and only if that walk stops at one of the first fifty top-level posts
  (`Threads.TimelineShows`, `Threads.DisplayedExactly`).
- `simulator.py` lines 4-9 equate issuance with minted minus burned. In M0 this always holds. In M1 it holds if and
  only if no post and no direct message was ever charged (`Economy.M1HeaderClaim`), because fees credited to pools leave
  issuance without being counted as burned (`Economy.M1Gap`). The counter reported as base-fee burn leaves out direct
  messages; it is complete if and only if none with a byte in it was charged (`Economy.M1BaseFeeCounter`). The base-fee
  constants in the header's unit notes also differ from the code's; the code's are used.
- `auth.rs` lines 33-36 set the nonce lifetime to the signature validity, and line 151 offers the cache against replay.
  A cached nonce is a string, while the signature covers its bytes, which several strings spell. After any run, an
  accepted signed message can be accepted once more if and only if some spelling of its nonce is not in the cache, or
  was recorded at a time t with timestamp + gap > t, where gap bounds the seconds between the two clock readings of one
  call (`Auth.AcceptedAgain`). As long as nonces have their canonical spelling, 32 lower-case digits without prefix, the
  condition is timestamp + gap > time of the first acceptance (`Auth.ReplayWindow`); with other spellings a second
  acceptance at the same instant is always possible after such a run (`Auth.PrefixedIsAccepted`).
- `WorkerPool.ts` lets a caller pass its own task id. That is safe if and only if the id is not pending, or names the
  timerless entry of a post that threw (`WorkerPools.ReuseLosesPromise`); ids from the pool's own counter are never
  pending (`WorkerPools.PoolIdsAreNotReused`).
- `mediaProcessor.ts` documents removal of APP1; its code drops APP1 to APP15 (`Jpeg.StripRemovesMetadata`). Segments it
  does not know are scanned byte by byte, so a restart interval that looks like a known marker can derail it. An
  interval is safe in every file if and only if it is not 0xFFxx with xx an APPn, SOFn, DHT, DQT, COM, SOS or EOI code
  (`Jpeg.DriSafeExactly`); `Jpeg.DriExactly` is a file of fourteen bytes that tells all of them apart.
- `transfer.ts` parses each side of the point as a BigInt literal. The sign of a negative text reaches its integer part
  only (`Amount.ParseNegative`), and a printed negative amount reads back if and only if it is whole, or its remainder
  below one MORAL has exactly eleven digits of which none but zeros are cut (`Amount.RoundTripExactly`).
- `postCodec.ts` reads past the end without noticing: offsets turn to NaN, and a DataView reads NaN as 0. A file cut off
  where a medium starts, or in its data, is no error; the media that are missing come back as empty ones with the file's
  first two bytes as width and height (`PostCodec.CutBetweenMedia`, `PostCodec.CutInData`).

## Assumptions

- `rs_merkle` is not part of this model: its tree is the level-by-level fold of `concat_and_hash`, siblings are listed
  bottom-up, a level without right neighbour adds none, and proof hashes beyond those needed are ignored.
- Blake2b is an arbitrary function. The two soundness lemmas assume that it has no collision among the inputs that were
  actually hashed while building the tree and checking the proof, and nothing else.
- A G1 point is the scalar that multiplies the generator, and the pairing equation is stated in the exponents.
- `atob` follows the WHATWG Infra standard, `btoa` section 4 of RFC 4648, `BigInt`, `trim`, `split`, `padStart` and
  `padEnd` follow ECMAScript, and `Array.prototype.sort` is stable as ECMAScript requires. `bs58` prints Base58 as
  sections 3 and 4 of draft-msporny-base58 describe it.
- Clock readings never decrease from one cache operation, limiter call or failover event to the next.

## Model

| member | source | states |
|---|---|---|
| Polynomials.Division | apps/storage-node/src/prover.rs:345-370 | f(x) = (x - z) q(x) + f(z) at every point x of the field, for every non-empty f, with q the quotient of synthetic division |
| Polynomials.OrderOfBls | apps/storage-node/src/prover.rs:14-16 | the field order the proofs work in is v^2 - v + 1 for v = 0xd201000000010000^2, the order BLS12-381 is defined with |
| Polynomials.ModIsRemainder | apps/storage-node/src/prover.rs:14-16 | the field element of an integer is its remainder modulo that order, for negative integers too |
| Kzg.KzgProver.InitTestSrs | apps/storage-node/src/prover.rs:199-226 | the tau-power loop yields exactly maxDegree + 1 points, point i being tau^i times the generator, tau = 12345 |
| Kzg.LastWriteAnswers | apps/storage-node/src/prover.rs:243-308 | once stored, a share answers the challenges on its key, and once removed they find none, whatever is stored or removed under other keys |
| Kzg.KzgProver.EvaluatePolynomial | apps/storage-node/src/prover.rs:333-343 | the running-power loop computes the Horner value of the polynomial |
| Kzg.KzgProver.QuotientStep | apps/storage-node/src/prover.rs:346-370 | each quotient coefficient follows from the next higher one by the division recurrence |
| Kzg.KzgProver.ComputeQuotient | apps/storage-node/src/prover.rs:346-370 | coefficient i of the result is the value at z of the part of f above i; only an empty polynomial is rejected |
| Kzg.KzgProver.QuotientIsDense | apps/storage-node/src/prover.rs:346-370 | normalising the quotient of a normalised polynomial drops nothing |
| Kzg.CombinationCommits | apps/storage-node/src/prover.rs:373-391 | the sum of coefficients times setup points is f(tau) times the generator |
| Kzg.KzgProver.CommitToPolynomial | apps/storage-node/src/prover.rs:373-391 | fails exactly when the polynomial exceeds the setup, otherwise commits to f(tau) under any tau the setup is built from |
| Kzg.KzgProver.DecodePolynomialCoeffs | apps/storage-node/src/prover.rs:394-407 | fails exactly on misaligned bytes; otherwise the i-th coefficient is the i-th little-endian 32-byte block modulo the field order |
| Kzg.OpeningIsExact | apps/storage-node/src/prover.rs:311-391 | the commitment to the quotient opens f at z to y if and only if y = f(z) |
| Kzg.KzgProver.GenerateKzgProof | apps/storage-node/src/prover.rs:311-330 | a proof exists exactly when f is non-zero and its quotient fits the setup; it is the commitment to the quotient, accepted for f(index) and for no other value |
| Kzg.KzgProver.GenerateProofForChallenge | apps/storage-node/src/prover.rs:264-308 | every error has its exact condition; otherwise the stored value comes with a proof that opens the polynomial of the stored coefficients only at its true value |
| Kzg.DenseIsSame | apps/storage-node/src/prover.rs:290-291 | normalising a polynomial changes neither its values nor its commitment |
| Kzg.VerifyEquation | apps/blockchain/node/src/rpc/storage.rs:1028-1096 | the check fails exactly on a value of another length than 32, index 0 or a value not below the field order; otherwise it is true if and only if commitment = y * G + (tau - index) * proof |
| Kzg.ChallengeAccepted | apps/blockchain/node/src/rpc/storage.rs:1028-1096 | for every index and share value the prover's proof passes the chain node's check if and only if the index is not 0 and the value is the 32-byte little-endian f(index) |
| Kzg.ResponseAccepted | apps/blockchain/node/src/rpc/storage.rs:1028-1096 | the response for a stored share passes that check against the commitment to its stored coefficients if and only if the index is not 0 and the stored value is the 32-byte little-endian value of the stored polynomial there |
| Merkle.RootSplit | packages/wasm-engine/src/merkle.rs:60-71 | folding by levels joins a full left part and a right part no longer than it last of all |
| Merkle.RootIsTreeHash | packages/wasm-engine/src/merkle.rs:97-118 | the level-by-level root with propagation is the recursive Merkle Tree Hash of RFC 6962 section 2.1, H(0x00 + entry) for one and H(0x01 + left + right) for more, for every non-empty list |
| Merkle.ProofIsAuditPath | packages/wasm-engine/src/merkle.rs:83-93 | the generated siblings are the Merkle audit path of RFC 6962 section 2.1.1 |
| Merkle.BuildMeetsRfc | packages/wasm-engine/src/merkle.rs:83-118 | building fails exactly on the empty list; otherwise root and every proof's bytes are those RFC 6962 defines, and there is no proof beyond the last index |
| Merkle.VerifyRefuses | packages/wasm-engine/src/merkle.rs:122-145 | each error of the verifier occurs exactly under its condition, in the order of the checks; a proof with fewer hashes than the path has siblings is answered with false |
| Merkle.FromBytesOfFlatten | packages/wasm-engine/src/merkle.rs:83-145 | serialised proofs parse back to the same hashes |
| Merkle.FlattenOfFromBytes | packages/wasm-engine/src/merkle.rs:122-145 | only the serialised form of a proof parses to it |
| Merkle.Completeness | packages/wasm-engine/src/merkle.rs:83-145 | every generated proof verifies for its own fragment, index and leaf count |
| Merkle.PathIsUnique | packages/wasm-engine/src/merkle.rs:122-145 | with the true width, a path that reaches the root starts at the true node and begins with the true siblings |
| Merkle.SoundnessTrueCount | packages/wasm-engine/src/merkle.rs:122-145 | with the true leaf count, any accepted proof bytes show the fragment at that index and begin with its audit path |
| Merkle.ClimbStartsAtEntry | packages/wasm-engine/src/merkle.rs:35-71 | by the two prefixes, a hash path from a leaf that ends in a tree hash starts at one of the tree's entries |
| Merkle.SoundnessAnyCount | packages/wasm-engine/src/merkle.rs:5-12 | under any claimed index and leaf count, whatever the proof bytes, an accepted leaf is one of the fragments, never an inner node's children |
| Base58.ConvertInverse | apps/frontend/src/lib/addressValidation.ts:140-175 | changing base and back, with leading zeros kept, is the identity on all digit strings |
| Base58.AlphabetExactly | apps/frontend/src/lib/addressValidation.ts:11-15 | a character is in the alphabet if and only if it is an ASCII letter or digit other than 0, O, I and l, and its digit is the number of smaller alphabet characters |
| JsText.SpacesExactly | apps/frontend/src/lib/addressValidation.ts:50-60 | the white space that trimming takes off, by code point |
| JsText.TrimExactly | apps/frontend/src/lib/addressValidation.ts:50-60 | trimming takes white space off both ends, and all of it |
| Base58.Base58Decode | apps/frontend/src/lib/addressValidation.ts:140-175 | the three loops compute that change of base, and throw exactly on characters outside the alphabet |
| Base58.DecodeEncode | apps/frontend/src/lib/addressValidation.ts:140-175 | decoding inverts Base58 encoding on every byte string |
| Base58.EncodeDecode | apps/frontend/src/lib/addressValidation.ts:140-175 | encoding inverts decoding on every alphabet string |
| Base58.DecodeInjective | apps/frontend/src/lib/addressValidation.ts:140-175 | no two alphabet strings decode to the same bytes |
| Base58.ValidateSS58Address | apps/frontend/src/lib/addressValidation.ts:50-93 | valid if and only if the trimmed text has 47 or 48 characters, starts with one of 1 to 9 and is the Base58 text of prefix, 32-byte key and 2-byte checksum; each error occurs exactly under its condition |
| Base58.ExtractPublicKey | apps/frontend/src/lib/addressValidation.ts:183-201 | returns the key an address carries, for every address that carries one, and nothing otherwise |
| Base58.Ss58Address | apps/storage-node/src/chain/signer.rs:57-67 | prints prefix 42, account and the first two bytes of the hash of SS58PRE, prefix and account, and the text is one that validation accepts and extraction inverts |
| Base58.Ss58PreIsText | apps/storage-node/src/chain/signer.rs:87-99 | the bytes hashed in front of the data are the text SS58PRE |
| Base58.SignerAddress | apps/storage-node/src/chain/signer.rs:57-67 | every such address has 48 characters, starts with '5', is accepted, and carries its account |
| Threads.Resolve | apps/frontend/src/lib/threadGrouping.ts:38-71 | one walk settles its start, keeps earlier roots, and takes at most two iterations per newly settled post |
| Threads.ExtendedIsSettled | apps/frontend/src/lib/threadGrouping.ts:43-69 | giving the found root to the whole path keeps the map closed under parents and right about every entry |
| Threads.ComputeRootMap | apps/frontend/src/lib/threadGrouping.ts:27-75 | maps every id, gives each post its present parent's root and each root itself, within 2N inner iterations, cycles and orphans included; a root on a cycle is the post where the earliest listed post that leads there enters it |
| Threads.WalkEnds | apps/frontend/src/lib/threadGrouping.ts:27-75 | following parents stops within as many steps as there are posts, unless it comes to a cycle |
| Threads.AcyclicMeansStops | apps/frontend/src/lib/threadGrouping.ts:27-75 | parent links have no cycle if and only if every walk stops |
| Threads.RootIsPlainRoot | apps/frontend/src/lib/threadGrouping.ts:27-75 | where the plain parent walk stops, the computed root is the post it stops at |
| Threads.RootIsOnCycle | apps/frontend/src/lib/threadGrouping.ts:49-53 | when the walk from a post comes to a cycle, the computed root lies on that very cycle |
| Threads.RootIsFirstMet | apps/frontend/src/lib/threadGrouping.ts:49-53 | of its members, the root is the one at which the earliest listed post that leads into the cycle enters it |
| Threads.RootMapIsUnique | apps/frontend/src/lib/threadGrouping.ts:27-75 | no other root map has the properties above |
| Threads.TopLevelIsOwnRoot | apps/frontend/src/lib/threadGrouping.ts:98-107 | "root of itself" equals "top-level" for all posts if and only if parent links have no cycle |
| Threads.CycleExample | apps/frontend/src/lib/threadGrouping.ts:98-107 | two posts that answer each other have a root, and that root is not top-level |
| Threads.GroupRepliesByRoot | apps/frontend/src/lib/threadGrouping.ts:80-96 | one list per root that has replies, and each list is the sorted list of exactly its replies |
| Threads.GroupsExactly | apps/frontend/src/lib/threadGrouping.ts:80-96 | a root has a list if and only if another post has it as root; the list holds exactly those posts, oldest first, and of the same age in the order they were listed |
| Threads.SortIsStable | apps/frontend/src/lib/threadGrouping.ts:92-94 | sorting orders by creation time, is a permutation, and keeps the order of equal times |
| Threads.StableSortIsUnique | apps/frontend/src/lib/threadGrouping.ts:92-94 | no other list is such a stable sort, so any conforming engine yields this one |
| Threads.PostPlaced | apps/frontend/src/lib/threadGrouping.ts:80-107 | a post is top-level and in no list, or once in the list of exactly one top-level root, if and only if the walk from it stops |
| Threads.EveryPostPlaced | apps/frontend/src/lib/threadGrouping.ts:80-107 | that holds of all posts if and only if parent links have no cycle |
| Threads.DisplayedExactly | apps/frontend/src/components/Timeline.tsx:193-195 | a post is a displayed root if and only if it is top-level and fewer than 50 top-level posts are newer, or as new and earlier among all posts |
| Threads.DisplayedInOrder | apps/frontend/src/components/Timeline.tsx:193-195 | the k-th displayed root has exactly k top-level posts before it |
| Threads.IndexExactly | apps/frontend/src/components/Timeline.tsx:187-189 | of posts with one id the index holds the last |
| Threads.TimelineShows | apps/frontend/src/components/Timeline.tsx:187-233 | a post is on the timeline, and then once, if and only if the walk from it stops at a displayed root |
| Framing.CompactRoundTrip | apps/storage-node/src/network/mod.rs:59-74 | SCALE compact lengths read back in all four modes, whatever follows |
| Framing.RequestRoundTrip | apps/storage-node/src/network/mod.rs:59-65 | a request that fits a frame decodes to itself, whatever follows |
| Framing.ResponseRoundTrip | apps/storage-node/src/network/mod.rs:68-74 | a response that fits a frame decodes to itself, whatever follows |
| Framing.CompactIsCanonical | apps/storage-node/src/network/mod.rs:59-74 | a length decodes from its one shortest encoding only |
| Framing.CompactLayout | apps/storage-node/src/network/mod.rs:59-74 | a length is four times itself plus the mode as one, two or four little-endian bytes, or 3 and four bytes, in the shortest form |
| Framing.RequestLayout | apps/storage-node/src/network/mod.rs:59-65 | tag 0 and id; tag 1, id, compact length and data |
| Framing.ResponseLayout | apps/storage-node/src/network/mod.rs:68-74 | tag 0 and the optional fragment; tag 1, the flag and the optional text; options have a tag byte of their own |
| Utf8.Utf8Exactly | apps/storage-node/src/network/mod.rs:68-74 | the byte strings accepted as text are exactly the encodings of sequences of Unicode characters, surrogates and overlong forms excluded |
| Utf8.TextInjective | apps/storage-node/src/network/mod.rs:68-74 | no two character sequences have the same encoding |
| Framing.RequestCanonical | apps/storage-node/src/network/mod.rs:59-65 | whatever decodes to a request is its encoding, with the bytes left over behind it |
| Framing.ResponseCanonical | apps/storage-node/src/network/mod.rs:68-74 | whatever decodes to a response is its encoding, with the bytes left over behind it |
| Framing.RequestFaithful | apps/storage-node/src/network/mod.rs:59-65 | the request codec meets the hypothesis of the stream round trip |
| Framing.ResponseFaithful | apps/storage-node/src/network/mod.rs:68-74 | the response codec meets the hypothesis of the stream round trip |
| Framing.Stream.ReadExact | apps/storage-node/src/network/mod.rs:87-109 | fills the buffer with the next bytes of the stream, or fails when there are too few |
| Framing.Stream.WriteAll | apps/storage-node/src/network/mod.rs:112-133 | appends the bytes to the stream |
| Framing.ReadFramed | apps/storage-node/src/network/mod.rs:87-109 | returns what the frame grammar assigns to the incoming bytes, and leaves the bytes behind the frame |
| Framing.WriteFramed | apps/storage-node/src/network/mod.rs:112-133 | appends prefix and payload, or appends nothing when the message is too large |
| Framing.FrameLayout | apps/storage-node/src/network/mod.rs:112-133 | a frame is the payload behind its length as a four-byte big-endian number, and payloads over 134,218,752 bytes are refused |
| Framing.ReadExactly | apps/storage-node/src/network/mod.rs:87-109 | what the reader answers and leaves behind, for every input: early end, oversized length, undecodable payload, message |
| Framing.FrameRoundTrip | apps/storage-node/src/network/mod.rs:87-133 | the reader admits every frame the writer emits, the prefix never truncates, and the message comes back |
| Framing.CodecsAreCanonical | apps/storage-node/src/network/mod.rs:59-74 | the request and the response codec meet the hypothesis of the next row |
| Framing.FrameContents | apps/storage-node/src/network/mod.rs:87-109 | with a codec that decodes messages from their encodings only, a message is read only from a frame that holds its encoding and possibly padding; the frame is the written one if and only if there is no padding |
| Framing.StreamRoundTrip | apps/storage-node/src/network/mod.rs:87-133 | reading a concatenation of accepted frames yields the list of messages in order and leaves what follows |
| Framing.FragmentsFit | apps/storage-node/src/network/mod.rs:46-56 | the exact largest Put and Data payloads (128 MiB + 987 and + 1018 bytes); 128 MiB always fits |
| Jpeg.CopyTail | apps/frontend/src/lib/mediaProcessor.ts:44-57 | the copy loop appends everything from a scan or end marker on |
| Jpeg.CopySegment | apps/frontend/src/lib/mediaProcessor.ts:70-75 | the copy loop appends the whole segment, zero-filled past the end of the data |
| Jpeg.CopyTable | apps/frontend/src/lib/mediaProcessor.ts:81-93 | the copy loop appends the segment clipped to the data and stops behind it |
| Jpeg.StripExifFromJpeg | apps/frontend/src/lib/mediaProcessor.ts:19-101 | the filter ends on every byte array and returns what its segment scan emits |
| Jpeg.SegmentStep | apps/frontend/src/lib/mediaProcessor.ts:19-101 | one well-formed segment is copied or dropped as a whole, wherever it stands |
| Jpeg.StripRemovesMetadata | apps/frontend/src/lib/mediaProcessor.ts:19-101 | on a file whose unknown segments hold no such byte pair exactly the APP1 to APP15 segments disappear; the others and the tail stay, in order and byte for byte |
| Jpeg.StripIsIdempotent | apps/frontend/src/lib/mediaProcessor.ts:19-101 | a second run on such a file changes nothing |
| Jpeg.MarkerSets | apps/frontend/src/lib/mediaProcessor.ts:41-94 | the markers with a length are 0xC0 to 0xCF, 0xDB, 0xE0 to 0xEF and 0xFE; with 0xD9 and 0xDA these are all the filter acts on |
| Jpeg.NoJpegIsKept | apps/frontend/src/lib/mediaProcessor.ts:20-24 | data without SOI in front comes back unchanged |
| Jpeg.StripCut | apps/frontend/src/lib/mediaProcessor.ts:59-94 | of a file that ends inside a segment, what is before it is filtered as ever; of the segment nothing comes out for APP1 to APP15, the zero-filled whole for APP0, and what there is for the others |
| Jpeg.DriSafeExactly | apps/frontend/src/lib/mediaProcessor.ts:96-97 | a restart interval is safe, that is, exactly the metadata is removed from every file that holds it, if and only if it is not 0xFF followed by the code of a marker the filter acts on |
| Jpeg.DriExactly | apps/frontend/src/lib/mediaProcessor.ts:96-97 | a file of SOI, DRI, an empty APP1 segment and EOI is filtered right for exactly the same intervals |
| Amount.ParseDecimal | apps/frontend/src/types/transfer.ts:71-88 | decimal text means integer part times 10^12 plus its first twelve fraction digits, zero-filled |
| Amount.ParseNegative | apps/frontend/src/types/transfer.ts:71-88 | with a sign, the fraction is added to the negated integer part, so the text means what it says if and only if the fraction is zero |
| Amount.ParsePartial | apps/frontend/src/types/transfer.ts:78-85 | without digits in front of the point the integer part is 0, and without a point the fraction is 0 |
| Amount.ParseOutside | apps/frontend/src/types/transfer.ts:72-76 | white space around the text makes no difference; nothing else, or two points or more, is worth 0 |
| Amount.BigIntExactly | apps/frontend/src/types/transfer.ts:81-87 | the literals that are read, by the grammar of StringIntegerLiteral, their values, and that nothing else is read |
| Amount.ParseExactly | apps/frontend/src/types/transfer.ts:71-88 | every text with at most one point by its parts: no integer part counts as 0, of the fraction twelve characters count, and the text is worth 0 when a part is no literal |
| Amount.PrintedFraction | apps/frontend/src/types/transfer.ts:96-108 | the printed fraction is the first k digits of the twelve-digit remainder without trailing zeros |
| Amount.FormatExactly | apps/frontend/src/types/transfer.ts:96-108 | the text of a non-negative amount: integer part without leading zeros; behind a point, unless all are zero, the first d of twelve decimals without trailing zeros |
| Amount.TruncateDigits | apps/frontend/src/types/transfer.ts:96-108 | cutting digits clears the value below the last kept digit's weight |
| Amount.RoundTrip | apps/frontend/src/types/transfer.ts:71-108 | the value that parse(format(n, d)) has, over all integers n and all d: n - n mod 10^(12 - min(d, 12)) for non-negative n, and for negative n the integer part with what its fraction reads back as |
| Amount.RoundTripExactly | apps/frontend/src/types/transfer.ts:71-108 | over all integers and numbers of decimals, the exact set of amounts that printing and parsing return |
| Base64.EncodeConcat | apps/frontend/src/lib/chainRpc.ts:76-87 | cutting the input after a multiple of three bytes cuts the text in the same place |
| Base64.EncodeMeetsRfc | apps/frontend/src/lib/chainRpc.ts:64-88 | on every byte string the text is the one that section 4 of RFC 4648 defines, with table and padding |
| Base64.Uint8ArrayToBase64 | apps/frontend/src/lib/chainRpc.ts:64-88 | the chunked form equals the one-shot form for every byte array |
| Base64.AtobOfEncode | apps/frontend/src/lib/chainRpc.ts:91-99 | decoding inverts encoding on every byte array |
| Base64.AtobAccepts | apps/frontend/src/lib/chainRpc.ts:91-99 | exactly the texts decode that are, but for white space, characters of the table in a number that bytes can have, with the padding they call for or none |
| Base64.AtobMeans | apps/frontend/src/lib/chainRpc.ts:91-99 | the decoded bytes are those whose text is the given one, except that bits of its last character beyond the last whole byte do not count |
| Base64.AtobSpace | apps/frontend/src/lib/chainRpc.ts:91-99 | white space makes no difference anywhere |
| Base64.AsciiSpaces | apps/frontend/src/lib/chainRpc.ts:91-99 | which characters that is, by code point |
| Base64.Base64ToUint8Array | apps/frontend/src/lib/chainRpc.ts:91-99 | copies the decoded bytes into a fresh buffer, so encoded data comes back, and passes on the decoder's error |
| PostCodec.TotalSize | apps/frontend/src/lib/postCodec.ts:54-59 | the computed size is the length of the encoding, for every content |
| PostCodec.PostLayout | apps/frontend/src/lib/postCodec.ts:1-18 | where version, text length, text and media count stand, their widths and byte order; what does not fit its field keeps its low bits |
| PostCodec.MediumLayout | apps/frontend/src/lib/postCodec.ts:9-17 | the same of the eight fields of every medium |
| PostCodec.Store | apps/frontend/src/lib/postCodec.ts:62-107 | a store at an offset extends the written prefix by exactly its bytes |
| PostCodec.StoreItem | apps/frontend/src/lib/postCodec.ts:80-107 | the eight stores of one medium extend the written prefix by its encoding |
| PostCodec.EncodePostContent | apps/frontend/src/lib/postCodec.ts:43-110 | the buffer is filled exactly, with header and items in order, for every content |
| PostCodec.DecodePostContent | apps/frontend/src/lib/postCodec.ts:115-174 | the moving-offset loop computes the decoder function, truncated and malformed input included |
| PostCodec.DamagedHeader | apps/frontend/src/lib/postCodec.ts:120-136 | another version is refused; a text length that is cut off is an error; of a text that is cut off the rest is returned, without media |
| PostCodec.CutBetweenMedia | apps/frontend/src/lib/postCodec.ts:138-174 | a file cut off where a medium starts decodes to the media before it and, for each of the others, an empty one whose width and height are the first two bytes of the file |
| PostCodec.CutInData | apps/frontend/src/lib/postCodec.ts:138-174 | a file cut off in the data of a medium decodes likewise, that medium with what is left of its data |
| PostCodec.ItemRoundTrip | apps/frontend/src/lib/postCodec.ts:80-171 | a fitting medium at any position decodes to itself and leaves the offset behind it |
| PostCodec.DecodeEncode | apps/frontend/src/lib/postCodec.ts:43-174 | a content whose lengths fit their fields comes back, whatever bytes follow |
| PostCodec.DecodedFits | apps/frontend/src/lib/postCodec.ts:115-174 | whatever is decoded, from any bytes, fits the fields |
| PostCodec.RoundTripExactly | apps/frontend/src/lib/postCodec.ts:43-174 | encoding then decoding is the identity if and only if the content fits |
| Auth.NonceCache.CheckAndInsert | apps/storage-node/src/rpc/auth.rs:171-186 | refuses exactly a nonce held for at most ttl seconds, otherwise records it; other entries are kept |
| Auth.NonceCache.RunGc | apps/storage-node/src/rpc/auth.rs:189-196 | keeps exactly the entries not older than ttl |
| Auth.CollectedExactly | apps/storage-node/src/rpc/auth.rs:189-196 | after any run, a collection leaves no entry older than the lifetime and loses no other |
| Auth.NonceCache.ValidateRequest | apps/storage-node/src/rpc/auth.rs:252-299 | stale or future requests fail first and leave the cache alone; then reused nonces; then hash and field errors; then the signature over account, timestamp, nonce bytes and hash decides |
| Auth.OutcomeExactly | apps/storage-node/src/rpc/auth.rs:252-299 | each answer with its exact condition, in terms of the request, the cache, the payload hash and the verifier of signatures |
| Auth.AcceptedExactly | apps/storage-node/src/rpc/auth.rs:252-299 | over any run a call is accepted if and only if its timestamp is at most 300 seconds old and at most 30 ahead, its nonce was not used in the last 300 seconds, its payload hash is that of the body, and its signature verifies over account, eight little-endian timestamp bytes, nonce bytes and hash |
| Auth.FieldIsRead | apps/storage-node/src/rpc/auth.rs:66-104 | a field is read from its hex text in either case, alone or behind 0x or 0X |
| Auth.FieldIsRefused | apps/storage-node/src/rpc/auth.rs:66-104 | a field is refused exactly when, behind an optional prefix, it is not 2n hex digits |
| Auth.MessageInjective | apps/storage-node/src/rpc/auth.rs:286-292 | the signed bytes determine timestamp and nonce bytes |
| Auth.CanonicalUnique | apps/storage-node/src/rpc/auth.rs:82-87 | nonce bytes have only one spelling of 32 lower-case digits |
| Auth.CanonicalExactly | apps/storage-node/src/rpc/auth.rs:82-87 | and that spelling is the lower-case hex text of the bytes |
| Auth.UseIsRemembered | apps/storage-node/src/rpc/auth.rs:171-196 | over any run, a use stays recorded until more than ttl seconds have passed |
| Auth.UsesAreSpaced | apps/storage-node/src/rpc/auth.rs:171-196 | over any run, two accepted uses of one nonce string are more than ttl seconds apart |
| Auth.GcIsInvisible | apps/storage-node/src/rpc/auth.rs:189-196 | deleting every gc from a run changes none of its answers |
| Auth.NoReplay | apps/storage-node/src/rpc/auth.rs:252-273 | over any run, two acceptances of one signed message under one spelling require timestamp + gap > time of the first |
| Auth.AcceptedAgain | apps/storage-node/src/rpc/auth.rs:168-186 | after any run that ends with an acceptance, some continuation accepts the signed message again if and only if an allowed spelling is unknown to the cache or was recorded before timestamp + gap |
| Auth.PrefixedIsAccepted | apps/storage-node/src/rpc/auth.rs:168-186 | after a run of canonical nonces an accepted message is accepted again at the same instant with its nonce prefixed |
| Auth.ReplayWindow | apps/storage-node/src/rpc/auth.rs:33-36 | as long as nonces are spelled canonically, some continuation accepts an accepted message again if and only if timestamp + gap > time of its acceptance |
| RateLimiting.RateLimiter.TryAcquire | apps/storage-node/src/chain/mod.rs:55-68 | prunes, then grants and records exactly when fewer than maxCalls calls are recent |
| RateLimiting.RateLimiter.Remaining | apps/storage-node/src/chain/mod.rs:71-76 | returns the quota and changes nothing |
| RateLimiting.ListIsHistory | apps/storage-node/src/chain/mod.rs:55-68 | the pruned list decides as the whole grant history would |
| RateLimiting.ListStaysShort | apps/storage-node/src/chain/mod.rs:55-68 | after any run the list holds at most maxCalls times, all from the 60 seconds before the last call |
| RateLimiting.WindowBound | apps/storage-node/src/chain/mod.rs:55-68 | over any run, no half-open 60-second window holds more than maxCalls grants |
| RateLimiting.RefusedWhenFull | apps/storage-node/src/chain/mod.rs:55-68 | a call is refused if and only if maxCalls grants lie in the 60 seconds up to it |
| RateLimiting.RemainingIsExact | apps/storage-node/src/chain/mod.rs:71-76 | of further calls at one instant exactly the first `remaining` ones are granted |
| Failover.FailoverManager.SetPrimary | apps/storage-node/src/chain/failover.rs:126-133 | installs a fresh primary and keeps the standbys |
| Failover.FailoverManager.AddStandby | apps/storage-node/src/chain/failover.rs:136-142 | appends a hot standby and keeps the primary |
| Failover.FailoverManager.RecordPrimarySuccess | apps/storage-node/src/chain/failover.rs:151-156 | clears the failure count of the primary, if there is one |
| Failover.FailoverManager.RecordPrimaryFailure | apps/storage-node/src/chain/failover.rs:161-198 | counts the failure and, at the threshold, swaps in the first hot standby and reports the URL the primary then has |
| Failover.FailoverTakesFirst | apps/storage-node/src/chain/failover.rs:161-198 | a failover takes the oldest hot standby and keeps the order of the others |
| Failover.FailoverSwaps | apps/storage-node/src/chain/failover.rs:174-190 | a failover makes the first hot standby the primary and reports its URL, puts the old primary last among the standbys with its own URL, and keeps every other standby as it is |
| Failover.PrimaryIsLatest | apps/storage-node/src/chain/failover.rs:126-198 | over any run the primary has the URL last set or promoted, whichever came later, role Primary, the failures since then that no success interrupted, and the time of its latest answer |
| Failover.PromotedInOrderAdded | apps/storage-node/src/chain/failover.rs:126-198 | over any run roles are in order, and the added standbys are those promoted so far followed by those waiting |
| Failover.PromotionsArePrefix | apps/storage-node/src/chain/failover.rs:126-198 | each addition is promoted at most once, promotions follow the order of addition, and they never outnumber additions |
| Failover.LivenessKeepsEndpoints | apps/storage-node/src/chain/failover.rs:151-198 | recording successes and failures keeps the multiset of endpoints |
| Failover.CounterCountsFailures | apps/storage-node/src/chain/failover.rs:74-105 | the counter is the number of failures since the last success, promotion or set_primary, up to saturation at 2^32 - 1 |
| Failover.FailoverExactlyWhen | apps/storage-node/src/chain/failover.rs:161-198 | a failure fails over if and only if it is at least the third in a row and a hot standby waits |
| WorkerPools.WorkerPool.AcquireWorker | apps/frontend/src/workers/WorkerPool.ts:262-270 | hands out the current index and moves on cyclically; fails exactly on an empty pool |
| WorkerPools.RoundRobin | apps/frontend/src/workers/WorkerPool.ts:262-270 | over every run the current index is that of a worker, if there is any, and until termination the n-th acquisition gets worker n modulo the pool size |
| WorkerPools.WorkerPool.CheckWorker | apps/frontend/src/workers/WorkerPool.ts:217-223 | passes exactly the indices of existing workers, with the error that fits otherwise |
| WorkerPools.WorkerPool.Execute | apps/frontend/src/workers/WorkerPool.ts:227-255 | enters the promise with its timer under the chosen id; when the worker is gone by then or the payload cannot be cloned, the promise is rejected at once and the entry stays |
| WorkerPools.WorkerPool.OnMessage | apps/frontend/src/workers/WorkerPool.ts:106-124 | settles and removes exactly the named entry, if it exists, and resolves it on success, rejects it otherwise |
| WorkerPools.WorkerPool.OnTimeout | apps/frontend/src/workers/WorkerPool.ts:232-240 | settles and removes exactly the timer's entry |
| WorkerPools.WorkerPool.RejectTasksForWorker | apps/frontend/src/workers/WorkerPool.ts:147-154 | the loop settles and removes exactly the entries of that worker |
| WorkerPools.WorkerPool.ClearAndSettle | apps/frontend/src/workers/WorkerPool.ts:157-163 | entry, timer and promise go together |
| WorkerPools.WorkerPool.OnError | apps/frontend/src/workers/WorkerPool.ts:126-141 | settles the crashed worker's entries and replaces it unless it was replaced or the pool terminated |
| WorkerPools.WorkerPool.TerminatePool | apps/frontend/src/workers/WorkerPool.ts:275-290 | the loop settles every entry and empties pool and maps |
| WorkerPools.RunKeepsTrack | apps/frontend/src/workers/WorkerPool.ts:106-163 | over every interleaving of safe posts (the id is not pending, or names the timerless entry of a post that threw) every posted promise is settled or waits in exactly one entry, whose timer is live when timeouts are on; settled promises have an entry only if their post threw |
| WorkerPools.TrackedExactly | apps/frontend/src/workers/WorkerPool.ts:211-256 | a run keeps track of all its promises at every moment if and only if all its posts are safe |
| WorkerPools.SettledAtMostOnce | apps/frontend/src/workers/WorkerPool.ts:106-163 | after a run of safe posts, each event settles promises through the removal of their one entry, or at once for a post that throws; the entries removed belong to settled promises exactly when their post threw |
| WorkerPools.ResolvedExactly | apps/frontend/src/workers/WorkerPool.ts:115-122 | a promise is resolved exactly by a successful reply that settles it; whatever else settles one rejects it |
| WorkerPools.ThrownExactly | apps/frontend/src/workers/WorkerPool.ts:227-255 | over every run, a promise counts as thrown if and only if its post found the worker gone or could not clone the payload |
| WorkerPools.ThrowsWhenTerminated | apps/frontend/src/workers/WorkerPool.ts:217-255 | a post to an index that passed the check throws if and only if its payload cannot be cloned or the pool was terminated by then |
| WorkerPools.TimerSettles | apps/frontend/src/workers/WorkerPool.ts:232-240 | with timeouts on, after a run of safe posts, an unsettled promise has a live timer whose firing settles it |
| WorkerPools.CrashSettlesWorker | apps/frontend/src/workers/WorkerPool.ts:126-154 | after a run of safe posts, a crash settles exactly the unsettled promises that were posted to that worker |
| WorkerPools.CrashReplaces | apps/frontend/src/workers/WorkerPool.ts:132-140 | over any run, a crash of the worker in place, before termination, puts a worker there that was never in the pool before; any other crash changes no worker |
| WorkerPools.TerminateSettlesAll | apps/frontend/src/workers/WorkerPool.ts:275-290 | after a run of safe posts and a terminate no entry, no timer and no unsettled promise remains |
| WorkerPools.PoolIdsAreNotReused | apps/frontend/src/workers/WorkerPool.ts:227 | with pool-generated ids no pending id is ever reused, so all posts are safe |
| WorkerPools.TaskIdExactly | apps/frontend/src/workers/WorkerPool.ts:227 | over any run, the id of a post is the caller's, or "pool-" and the number of posts without one up to it |
| WorkerPools.ReuseLosesPromise | apps/frontend/src/workers/WorkerPool.ts:227-248 | a single post keeps all promises tracked if and only if it is safe |
| Economy.M0State.MineDay | docs/economic/simulator.py:97-105 | the block loop credits exactly the scheduled rewards to miners, issuance and the mint counter |
| Economy.M0State.ChargeFees | docs/economic/simulator.py:107-127 | fees leave issuance, count as burned, and their pool shares arrive |
| Economy.M0State.PayRewards | docs/economic/simulator.py:129-145 | payouts are capped by the pool and move from pool to issuance and mint counter |
| Economy.M0PayoutsExactly | docs/economic/simulator.py:129-145 | the payouts of a day from its posts, reactions and pools, with all constants |
| Economy.M0FeesExactly | docs/economic/simulator.py:107-127 | on every day all fees were burned, four fifths of them were credited to storage, and a tenth of those on posts to reactions |
| Economy.CountsExactly | docs/economic/simulator.py:107-139 | users follow the curve and stay at its last value; counts per user are cut to whole numbers |
| Economy.SimulateM0 | docs/economic/simulator.py:83-147 | the simulator's final ledger is that of the day-by-day run |
| Economy.M0Conservation | docs/economic/simulator.py:83-147 | on every day of every run issuance = minted - burned, mint sources add up, and the storage pool accounts for four fifths of what was burned |
| Economy.M0Solvency | docs/economic/simulator.py:83-147 | with non-negative parameters, on every day: no pool is overdrawn, payouts are never negative, and their sum is covered by the initial endowment plus the pool's share of what was burned |
| Economy.MinedExactly | docs/economic/simulator.py:97-105 | up to the last halving, the rewards mined and those an unbounded schedule would still pay add up to 42,048,000 |
| Economy.M0MinerRevenue | docs/economic/simulator.py:97-105 | miner revenue is what the schedule pays in 2880 blocks a day; it never falls, stays below 42,048,000, and ends after 93,440 days |
| Economy.M1State.MineDay | docs/economic/simulator.py:229-248 | the block loop splits each reward 50/30/20 and moves the base fee once per block |
| Economy.M1State.ChargePosts | docs/economic/simulator.py:250-259 | base fee and three tenths of the rest burn, the base fee is counted, the remainder reaches storage and reaction pools |
| Economy.M1State.ChargeDms | docs/economic/simulator.py:261-269 | base fee and three tenths of the rest burn, the remainder reaches storage and stealth pools |
| Economy.M1State.RunFaucet | docs/economic/simulator.py:271-277 | mints the day's whole claims while the cap is not reached |
| Economy.M1State.PayRewards | docs/economic/simulator.py:279-309 | payouts are capped by the storage pool and by a twentieth of the reaction pool |
| Economy.SimulateM1 | docs/economic/simulator.py:171-311 | the simulator's final ledger is that of the day-by-day run |
| Economy.FeeBounds | docs/economic/simulator.py:242-247 | the base fee stays in [1e-7, 0.1] and moves by at most one eighth per block, whatever the load |
| Economy.FeeExactly | docs/economic/simulator.py:242-247 | up to 100,000 bytes per block the fee moves by fee * (load / 50,000 - 1) / 8, beyond by an eighth, within its bounds |
| Economy.FeeFollowsLoad | docs/economic/simulator.py:242-247 | it rises above 50,000 bytes per block, falls below and stays there, up to the bounds |
| Economy.DayEndsAtBound | docs/economic/simulator.py:229-248 | after any run a day without bytes ends at the minimum fee, and a day at double load or more at the maximum |
| Economy.SteadyFee | docs/economic/simulator.py:193-197 | while every day has exactly 50,000 bytes a block the fee is the one it starts with, 1e-5 |
| Economy.M1Conservation | docs/economic/simulator.py:171-311 | on every day of every run issuance + pools + burned = 300000 + 2 * miner revenue + faucet, and mint sources add up |
| Economy.M1Bounds | docs/economic/simulator.py:171-311 | with non-negative parameters, on every day: no negative pool, base fee in bounds, faucet within its cap |
| Economy.M1PoolAccounts | docs/economic/simulator.py:171-311 | on every day, whatever the parameters, each pool plus what it paid is its seed plus its shares of rewards and fees, and burned is the base fees plus three tenths of the rest |
| Economy.M1PaysOut | docs/economic/simulator.py:279-309 | with non-negative parameters no day's payout is negative |
| Economy.M1PayoutsExactly | docs/economic/simulator.py:279-309 | the payouts of a day from its posts, reactions, pools and issuance, with all constants and both caps |
| Economy.M1TailEmission | docs/economic/simulator.py:229-239 | miners earn at least 720 on every day, halvings notwithstanding |
| Economy.TailRewardExactly | docs/economic/simulator.py:231-234 | the reward by height: four eras of halving from 5, then 0.5 for ever |
| Economy.M1MinerRevenue | docs/economic/simulator.py:229-248 | on every day miner revenue is half of the rewards of 2880 blocks a day |
| Economy.FaucetSchedule | docs/economic/simulator.py:271-277 | on every day the faucet has minted 5000 for each of at most twenty days |
| Economy.M1BurnedExactly | docs/economic/simulator.py:250-269 | what a day burns, from its posts, messages, sizes and the base fee the day ends with |
| Economy.M1BaseFeeCounter | docs/economic/simulator.py:250-269 | the base-fee counter is at most the base fees burned, and equal to them if and only if no direct message with a byte in it was charged |
| Economy.M1Gap | docs/economic/simulator.py:250-269 | minted - burned - issuance is exactly the fees that went into pools |
| Economy.M1HeaderClaim | docs/economic/simulator.py:4-9 | in M1, issuance = minted - burned if and only if no post and no direct message was charged |

## Left out

- Kzg.ChallengeAccepted: takes points after decoding; point serialisation, SRS files, the ceremony's own tau and the zero polynomial (which the prover rejects) are not modelled.
- Merkle.SoundnessAnyCount: assumes no collision among the inputs actually hashed, since injectivity of a 256-bit hash on all inputs is impossible; the chain node's twin of the scheme (apps/blockchain/node/src/rpc/storage.rs:940-1012) is not modelled separately.
- Base58.Ss58Address: the checksum hash is an arbitrary function; neither the frontend nor this model checks the checksum.
- Base58.ValidateSS58Address: lengths count characters; a character outside the basic plane counts two in JavaScript, which could only change which error is reported.
- Framing.ReadFramed: I/O errors other than a stream that ends early are left out, and after such an end the rest of the stream counts as consumed.
- Framing.WriteFramed: a vector of 2^32 bytes or more makes the SCALE crate panic; here such a message is refused as oversized.
- PostCodec.DecodeEncode: strings are their UTF-8 bytes; TextEncoder and TextDecoder behaviour, lone surrogates and byte-order marks are left out.
- Base64.Base64ToUint8Array: the Node.js Buffer fallback is left out.
- Auth.NonceCache.ValidateRequest: signature verification is an arbitrary function of key, message and signature; the JSON-RPC body enters as its payload hash.
- Auth.AcceptedAgain: calls may overlap, but readings at insertion follow the order of insertions, while the code reads the clock just before it takes the lock.
- RateLimiting.WindowBound: time is counted in nanoseconds; the asynchronous wait around the limiter is left out.
- WorkerPools.WorkerPool.Execute: readiness promises, message contents, error texts and the choice of pool size are left out.
- Economy.M1Conservation: arithmetic is exact; IEEE rounding is left out, square roots enter as factors, and the repair pool and bonded totals are not part of the ledger.
- Jpeg.StripRemovesMetadata: of unknown segments that hold a pair 0xFFxx with a known marker code, only DRI is covered, by Jpeg.DriSafeExactly; file and canvas handling around the filter are not modelled.
- Elliptic-curve, pairing, Blake2b, sr25519 and ed25519 internals, and the KZG-VSS code of the WebAssembly engine.
- libp2p swarm, HTTP servers, chain RPC clients, redb, IndexedDB, Tor and deployment generation: plumbing around libraries that are not part of this model.
- Runtime pallets, React components and hooks, wallet and mining UI, counters, getters and one-branch validators.
- Share regeneration, challenge polling and the repair receiver's proof check.
