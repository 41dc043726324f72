# Lotus SDK core: a verified model

Dafny model of the core of a TypeScript SDK for the Lotus blockchain: script and address encodings,
commitment structures, key algebra, and the stateful peer-to-peer machinery. `dafny verify
dfyconfig.toml` checks everything. Hashes, HMAC, UTF-8 and the clock are parameters;
binding results say "equal, or these inputs hashed on the way collide", so nothing false is assumed
of a hash. Operations that change state are classes whose methods are proved to take the steps of a
specification, and the laws are proved about that specification over all inputs and all runs.

| module | models |
|---|---|
| `Buffers`, `ModArith`, `Hex` | byte strings and fixed-width integers, modular arithmetic, hex and decimal text |
| `ScriptCodec` | script chunks and their bytes |
| `EllipticCurve`, `Ecdsa` | the curve group as a lawful parameter; signing, verification, recovery |
| `PublicKeys`, `HdKeys`, `HdSteps` | compressed keys, scalar addition, BIP 32 derivation, and each of its steps read back from the bytes |
| `HdStrings`, `HdPaths` | extended key strings; derivation paths |
| `Taproot`, `TaprootHashes` | script trees; what their hashes and tweaks are taken of |
| `TaprootSpend`, `TaprootRules` | outputs, control blocks, spend verification |
| `BlockMerkle`, `ScriptNum` | the flat Merkle array; signed-magnitude numbers |
| `Base58`, `Networks` | Base58Check with its loops; network version numbers |
| `Addresses`, `AddressStrings` | address strings; their characters, bytes and checksum |
| `Rank`, `RankScripts` | RANK and RNKC output scripts; their fields |
| `Bootstrap`, `BootstrapRules`, `BootstrapManagers` | reconnection to bootstrap peers: step machine, one peer at a time, and object |
| `DhtQueue`, `DhtEntries`, `DhtAnnouncementQueues` | the announcement queue: step machine, one entry at a time, and object |
| `ResourceTracker`, `RateLimiter`, `PeerBans` | announcement limits and bans |
| `SecurityManager`, `ManagerHooks`, `ManagerRates`, `CoreSecurityManagers` | the manager that combines them: step machine, hooks, collaborators, and object |
| `SeenMessages` | the duplicate filter of the stream handler |

How to read it: `None`, `Err` and `Throws` stand for exceptions; asynchronous code is cut at its
awaits, so that any sequence of steps is an interleaving; every step takes the current time as an
input, and run theorems assume only that time does not go back.

## Where the code does less than its description

Each entry names the theorem, or the function, that states it exactly.

- The ECDSA verifier accepts high and low s alike (`Ecdsa.NegatedSAccepted`), although the
  comment on normalisation suggests otherwise (lib/bitcore/crypto/ecdsa.ts:211-264).
- Public key recovery reads the hash big-endian whatever the signer did, and multiplies by a possibly
  negative remainder. `Ecdsa.ByteOrderIff` says when a signature of the other byte order is recovered,
  `Ecdsa.UnrecoveredSignature` shows one that is not, and `Ecdsa.RecoverAtIndexIff` and
  `Ecdsa.LibraryRecoversIff` say what the negative remainder must give.
- BIP 32 rejects a left half of n or more; the code reduces it. Commutation is therefore proved for
  every left half. A retry that reaches 2^31 turns hardened on the private side and throws on the
  public side; at depth 255 the private side throws and the public side wraps (`HdKeys.StepCommutes`,
  `HdKeys.RetryLeavesNormalRange`, `HdKeys.DepthWraps`). A negative index with the hardened flag is
  hashed as a hardened one but recorded at a normal index (`HdSteps.PrivateTurn`).
- Extended private keys come back from their strings uncompressed, and regtest ones as testnet
  (`HdStrings.XprivRoundTrip`); a testnet key's public counterpart says regtest
  (`HdKeys.NeuteredNetworkIff`); the public path parser accepts empty steps (`HdStrings.EmptyStepIsZero`).
- Writing a record for a peer whose connection is open, as `start` after `connect` does, can leave it
  tracked, unconnected and waiting for nothing until that connection ends; exactly such calls can
  (`Bootstrap.WakeUpIff`, `Bootstrap.StartAfterConnectLosesPeer`).
- An empty queue key is never evicted (`DhtQueue.EnqueueSizeIff`, `DhtQueue.EmptyKeyRun`), and an entry
  is removed by the settlement of an older one exactly when they share a key
  (`DhtQueue.SettleSparesOthersIff`, `DhtQueue.NewerEntryIsLost`).
- Resource types with colons make the two views of the tracker disagree
  (`ResourceTracker.ColonsBreakAgreement`).
- Rate limits above 24 hours are forgotten by cleanup (`RateLimiter.LongIntervalsAreForgotten`), and a
  fifth warning may shorten a temporary ban (`PeerBans.WarningShortensBan`).
- Totals of the security metrics miss calls whose validator hook throws, and a reset with calls in
  flight shifts them (`SecurityManager.TotalsIff`, `SecurityManager.ThrownCallIsMissing`,
  `SecurityManager.ResetCallIsMissing`).
- The Merkle root binds the number of transactions only up to a null hash and up to transactions whose
  hash and id are the halves of an inner node; apart from those and collisions it does bind it
  (`BlockMerkle.RootBindsBlocks`). For bare hash lists both exceptions occur
  (`BlockMerkle.PaddingIsInvisible`, `BlockMerkle.RootOfRoot`).
- Reading a negative big-endian signed magnitude changes the caller's buffer (`ScriptNum.ReadSM`).
- A string with a colon sends address parsing into endless recursion, and the last two bytes of an
  embedded P2PKH script are never looked at (`Addresses.ParsingEndsIff`, `Addresses.ReencodeIff`).
- Twitter post ids below 2^60 or from 2^64 on, and upper-case hex ids, do not come back from a RANK
  script (`Rank.RankRoundTripIff`).
- A tweaked private key is always compressed, a tweaked public key only if the given one was
  (`TaprootSpend.TweaksAgree`).
- Over-long Twitter post ids can spoil the script they are in (`Rank.RankIsDataOutIff`, `Rank.LongPostSpoils`).
- Taproot leaves with an odd version are hashed with the low bit when building and without it when
  verifying (`TaprootSpend.SpendCompleteness`).

## Model

| member | source | states |
|---|---|---|
| ScriptCodec.ParseThenEncode | lib/bitcore/script.ts:102-167 | whatever `fromBuffer` accepts, also a script whose last push is cut short, `toBuffer` writes back byte for byte |
| ScriptCodec.RoundTripIff | lib/bitcore/script.ts:102-167 | `fromBuffer(toBuffer(cs))` restores a chunk list exactly when every chunk is complete, the last one possibly a push cut short |
| ScriptCodec.ThrowsIff | lib/bitcore/script.ts:102-167 | `fromBuffer` throws exactly on complete chunks followed by a push opcode whose length field is cut off |
| ScriptCodec.BuiltRoundTripIff | lib/bitcore/script.ts:713-768 | a script made with `add` survives serialisation exactly when each item is a non-push opcode or nonempty data below 2^32 bytes |
| ScriptCodec.AddIsShortest | lib/bitcore/script.ts:713-746 | among all readable pushes of the same data `add` picks a shortest, with the boundaries 75/76, 255/256 and 65535/65536 |
| ScriptCodec.PushBytesMean | lib/bitcore/script.ts:713-768 | a push is written behind its length up to 75, behind 0x4c and one byte, 0x4d and two or 0x4e and four bytes, the lowest first |
| ScriptCodec.ReadMeans | lib/bitcore/script.ts:102-167 | reading any buffer: which bytes announce data, how the length is read, what a cut length and cut data give |
| ScriptCodec.ReadEncodedChunk | lib/bitcore/script.ts:102-167 | a complete chunk is read back from the front of any buffer, a cut one only at its end |
| ScriptCodec.Script.Add | lib/bitcore/script.ts:713-746 | appends the one chunk for the opcode or data and changes nothing else |
| ScriptCodec.Script.ToBuffer | lib/bitcore/script.ts:752-768 | the writer loop returns the bytes of all chunks, or fails where a length does not fit its field |
| ScriptCodec.Script.ReadAt | lib/bitcore/script.ts:102-167 | one turn of the reader loop agrees with reading the first chunk of the remaining bytes |
| ScriptCodec.Script.FromBuffer | lib/bitcore/script.ts:102-167 | the reader loop, whose position may run past the end, yields the recursive parse or fails with it |
| Taproot.BranchCommutes | lib/bitcore/taproot.ts:195-203 | the branch hash does not depend on the order of its two arguments |
| Taproot.LeavesFoldToRoot | lib/bitcore/taproot.ts:266-316 | each leaf the builder records folds along its recorded path to the root, and its script is a parsed leaf of the tree |
| Taproot.RootBindsLeaf | lib/bitcore/taproot.ts:195-316 | soundness: any script, version and path that fold to the root are recorded in the tree, or two inputs hashed on the way collide |
| Taproot.LeafDataInjective | lib/bitcore/taproot.ts:171-183 | the hashed leaf data determine script and version despite the compact-size length |
| Taproot.LeafIsNotBranch | lib/bitcore/taproot.ts:171-203 | a leaf input is never a branch input unless the two tag hashes agree |
| TaprootHashes.LeafHashMeans | lib/bitcore/taproot.ts:171-183 | a leaf hash is of "TapLeaf" hashed twice, the version byte, the shortest compact size that reads as the script's length, and the script |
| TaprootHashes.BranchHashMeans | lib/bitcore/taproot.ts:195-203 | a branch hash is of "TapBranch" hashed twice and the two children in ascending big-endian order |
| TaprootHashes.PathGoesUp | lib/bitcore/taproot.ts:266-316 | in ((a, b), c) the path of a is the hash of b and then that of c, and so on |
| TaprootHashes.BuildsIff | lib/bitcore/taproot.ts:266-316 | a tree is built exactly when every leaf script parses and every version is a byte; the leaves are listed from left to right, a missing or zero version as 0xc0 |
| TaprootHashes.TweakInputIff | lib/bitcore/taproot.ts:153-160 | the tweak hashes "TapTweak" hashed twice, the whole serialised key (parity and x, or both coordinates) and the root, and no other bytes have these fields |
| TaprootHashes.TweakInputBinds | lib/bitcore/taproot.ts:153-160 | two compressed keys and two roots have one tweak input exactly when both are equal |
| TaprootHashes.TweakMeans | lib/bitcore/taproot.ts:214-244 | the tweaked key is the key plus G times the hash of those bytes and fails only at infinity; the tweaked secret is the secret plus that hash modulo the order and fails only at zero |
| TaprootSpend.IsPayToTaprootIff | lib/bitcore/taproot.ts:404-431 | the recogniser accepts exactly the two layouts, without and with a 32-byte state |
| TaprootSpend.PayToTaprootBytes | lib/bitcore/taproot.ts:474-500 | the built output serialises to one of those layouts and is recognised |
| TaprootSpend.CreateControlBlock | lib/bitcore/taproot.ts:339-372 | the writer loop yields the control byte, the key's x-coordinate and the leaf's path, and throws for an index outside the tree |
| TaprootSpend.ControlBlockRoundTrip | lib/bitcore/taproot.ts:339-372 | re-parsing a control block returns version bits, parity, x-coordinate and every path node |
| TaprootSpend.VerifyTaprootScriptPath | lib/bitcore/taproot.ts:563-611 | the loop over the path computes the fold, and the answer is the specified comparison of tweaked keys |
| TaprootSpend.ScriptPathValidIff | lib/bitcore/taproot.ts:563-611 | for a built output the script-path check succeeds exactly when the folded root tweaks the key as the tree's root does |
| TaprootSpend.VerifyTaprootSpend | lib/bitcore/taproot.ts:644-774 | the stack-popping verifier with its annex, size and flag tests returns the specified result |
| TaprootSpend.SpendCompleteness | lib/bitcore/taproot.ts:527-774 | the exact result of spending any leaf of any tree with its control block: version 0xc0 at depth at most 128 succeeds with that script, the arguments and the state; depth, version and odd-version cases are decided too |
| TaprootSpend.NamedPathValidIff | lib/bitcore/taproot.ts:563-611 | whatever key a control block names, the check on a built output succeeds exactly when that key tweaked with the folded root is the output's tweaked key |
| TaprootRules.OutputIff | lib/bitcore/taproot.ts:474-547 | a script-path output is built exactly when the tree can be, the key is compressed, the state has 32 bytes and the sum is finite; its script is 0x62 0x51 0x21, that sum, and 0x20 before a state |
| TaprootRules.ControlFields | lib/bitcore/taproot.ts:339-372 | the control block is the version with the parity of y in its lowest bit, x, and the path, 32 bytes a node |
| TaprootRules.ControlSizeIff | lib/bitcore/taproot.ts:700-720 | the accepted sizes are 33 + 32 m for m up to 128 |
| TaprootRules.VerdictIff | lib/bitcore/taproot.ts:644-774 | each verdict that needs no hash is given exactly when it should: the phaseout flag first, then form, empty stack, annex byte 0x50, unreadable script, block size and version; a one-element stack is a key-path spend that keeps its stack |
| TaprootRules.SpendIff | lib/bitcore/taproot.ts:644-774 | whatever the stack, a built output is spent by script path exactly when the block has its size and version 0xc0 and names a key that, plus G times the hash of itself and the root folded from the script, is the output's key |
| TaprootSpend.SpendSoundness | lib/bitcore/taproot.ts:563-774 | whatever stack spends a built output by script path runs exactly its script and keeps exactly the remaining arguments and the state; its block names the internal key, and then a recorded leaf or a collision, or another key, and then the tweaks of both keys hash two different inputs, each of the whole key and its root, and the two sums of key and hash are one point |
| TaprootSpend.TweaksAgree | lib/bitcore/taproot.ts:214-244 | the point of the tweaked private key is that of the tweaked public key, both throw together, and the keys are equal exactly when the given one was compressed |
| EllipticCurve.LiftOfX | lib/bitcore/crypto/point.ts:31-64 | lifting the x-coordinate and parity of a point on the curve returns that point |
| EllipticCurve.MulInjective | lib/bitcore/crypto/point.ts:147-151 | multiples of a point other than infinity agree exactly when the scalars agree modulo the order |
| EllipticCurve.LawsHaveModel | lib/bitcore/crypto/point.ts:31-151 | the laws assumed of points, that of negative scalars included, are consistent: a concrete curve meets all of them |
| Ecdsa.LowSRange | lib/bitcore/crypto/ecdsa.ts:254-264 | the literal threshold is (n - 1) / 2: normalised values are exactly 1 to (n - 1) / 2, and s or n - s is kept |
| Ecdsa.AcceptedIffNonce | lib/bitcore/crypto/ecdsa.ts:211-240 | verification accepts exactly when the nonce determined by (r, s) has a point with x mod n = r |
| Ecdsa.SigErrorIff | lib/bitcore/crypto/ecdsa.ts:211-240 | which error is reported: a number out of range first, the point at infinity exactly when e + d r is a multiple of n, otherwise an invalid signature |
| Ecdsa.AcceptedIffSigned | lib/bitcore/crypto/ecdsa.ts:211-291 | (r, s) verifies for a key exactly when some nonce below n signs to it |
| Ecdsa.AttemptIsAccepted | lib/bitcore/crypto/ecdsa.ts:211-291 | each pair computed from a nonce verifies |
| Ecdsa.NegatedSAccepted | lib/bitcore/crypto/ecdsa.ts:211-264 | the verifier accepts s and n - s alike, so no high-s test takes place |
| Ecdsa.SignThenVerify | lib/bitcore/crypto/ecdsa.ts:254-291 | each signature that signing leaves is in the low half and verifies for the same hash and key |
| Ecdsa.NonceIsLifted | lib/bitcore/crypto/ecdsa.ts:175-206 | because p < 2n, lifting r or r + n with the index's parity returns the nonce point |
| Ecdsa.RecoveredMeans | lib/bitcore/crypto/ecdsa.ts:175-206 | what is recovered at index i: r times it is s times the point with parity bit 0 and x equal to r, or r + n for bit 1, plus the base point times minus the hash; nothing only without such a point or at infinity |
| Ecdsa.RecoverAtIndexIff | lib/bitcore/crypto/ecdsa.ts:175-206 | at the nonce point's index recovery returns the signer exactly when the curve library's multiple by -e mod n is exact |
| Ecdsa.RecoveryFindsSigner | lib/bitcore/crypto/ecdsa.ts:86-206 | for every accepted signature, low-s or not, one of the four indices recovers the signer |
| Ecdsa.ByteOrderIff | lib/bitcore/crypto/ecdsa.ts:175-314 | for a signature accepted under its own byte order: the nonce's own index recovers exactly when both readings agree modulo n; some index does exactly when the readings agree, or their sum is -2dr, or the big-endian reading's nonce point has the second x-coordinate that r stands for |
| Ecdsa.AcceptedUnderBothIff | lib/bitcore/crypto/ecdsa.ts:211-240 | a pair accepted under one reading of the hash is accepted under another exactly when the readings agree or sum to -2dr modulo n, or the nonce points have the x-coordinates r and r + n; for r + n >= p only the readings count |
| Ecdsa.UnrecoveredKey | lib/bitcore/crypto/ecdsa.ts:86-314 | for every hash with differing readings and every usable nonce there is a key whose little-endian signature verifies and is recovered by no index |
| Ecdsa.UnrecoveredSignature | lib/bitcore/crypto/ecdsa.ts:86-314 | such a signature exists |
| Ecdsa.LibraryRecoversIff | lib/bitcore/crypto/ecdsa.ts:175-206 | whatever curve point the library returns for the negated hash, some index recovers the signer exactly when the one nonce point that needs has an x-coordinate the indices try |
| Ecdsa.RecoverableIff | lib/bitcore/crypto/ecdsa.ts:175-206 | any of the four indices recovers the signer exactly when the nonce behind (r, s) under the big-endian hash has an x-coordinate the indices try, r or r + n modulo p |
| Ecdsa.RecoverableIffAccepted | lib/bitcore/crypto/ecdsa.ts:86-240 | for every r and s, some index recovers the signer exactly when the verifier accepts under the big-endian reading, or r + n wraps around p onto the nonce point's x-coordinate |
| Ecdsa.ECDSA.FindSignature | lib/bitcore/crypto/ecdsa.ts:269-291 | the retry loop ends with the first nonce of the stream (the given one, then the deterministic ones) whose r and s are nonzero, and returns its low-s pair |
| Ecdsa.ECDSA.Sign | lib/bitcore/crypto/ecdsa.ts:296-314 | the stored signature is the low-s pair of the first usable nonce and is accepted for this key and hash |
| Ecdsa.ECDSA.Verify | lib/bitcore/crypto/ecdsa.ts:350-357 | the flag says exactly whether the check finds no error |
| Ecdsa.ECDSA.Calci | lib/bitcore/crypto/ecdsa.ts:86-105 | for an accepted big-endian signature it stores an index that recovers the signer, or throws and then no index does |
| PublicKeys.DERRoundTrip | lib/bitcore/publickey.ts:152-198 | a compressed key is restored from its 33 bytes |
| PublicKeys.DERInjective | lib/bitcore/publickey.ts:352-372 | two compressed keys with equal bytes are equal |
| PublicKeys.DERFields | lib/bitcore/publickey.ts:352-372 | the first byte is 2 or 3 by the parity of y, or 4; x and y follow big-endian |
| PublicKeys.FromDERIff | lib/bitcore/publickey.ts:152-198 | 33 bytes give a key exactly when they start with 2 or 3 and a point has that parity and the x they give modulo p |
| PublicKeys.AddScalarValid | lib/bitcore/publickey.ts:416-434 | a successful scalar addition yields a valid key of the same form |
| PublicKeys.AddScalarInjective | lib/bitcore/publickey.ts:416-434 | two scalars give the same key exactly when they agree modulo the order |
| PublicKeys.TweakCommutes | lib/bitcore/publickey.ts:416-434 | adding t to the secret or t times G to the point gives the same key, infinity exactly when the secret is zero |
| HdKeys.StepCommutes | lib/bitcore/hdprivatekey.ts:405-468 | one normal step: public derivation succeeds exactly when the private retry stays below 2^31, and below depth 255 gives the public key of the private child, up to the parent fingerprint for uncompressed keys |
| HdKeys.HardenedStays | lib/bitcore/hdprivatekey.ts:405-468 | retrying from a hardened index never returns to a normal one |
| HdKeys.ReduceCommutes | lib/bitcore/hdpublickey.ts:525-579 | folding steps over any list of indices keeps a public and a private key in agreement, or ends on both sides |
| HdKeys.DerivationCommutes | lib/bitcore/hdpublickey.ts:525-579 | for every list of indices and every private key the public derivation succeeds within 255 levels exactly when no private step throws or leaves the normal range, and then gives the public key of the derived private key in every field, the parent fingerprint of uncompressed keys excepted |
| HdKeys.UncompressedFingerprint | lib/bitcore/hdprivatekey.ts:405-468 | an uncompressed private key differs from the public side in the parent fingerprint only |
| HdKeys.RetryLeavesNormalRange | lib/bitcore/hdprivatekey.ts:405-468 | for every private key some hash makes the retry at the last normal index leave the range: a hardened private child, and a public throw |
| HdKeys.DepthWraps | lib/bitcore/hdpublickey.ts:525-560 | at depth 255 some hash lets the public side derive a child of depth 0 while the private side throws |
| HdKeys.HardenedDataAgreesIff | lib/bitcore/hdprivatekey.ts:405-437 | `derive` and `deriveChild` hash the same bytes for a hardened child exactly when the secret has no leading zero byte |
| HdKeys.NeuteredNetworkIff | lib/bitcore/hdpublickey.ts:383-428 | an extended public key names its private key's network exactly unless that is testnet |
| HdSteps.NormalDataIff | lib/bitcore/hdprivatekey.ts:405-437 | a normal child hashes the 33 compressed bytes of the parent's key and the index in four, and no other bytes have these fields |
| HdSteps.HardenedDataMeans | lib/bitcore/hdprivatekey.ts:405-437 | a hardened child hashes a zero byte, the secret and the index; only the non-compliant form leaves out leading zeros of the secret |
| HdSteps.PrivateTurn | lib/bitcore/hdprivatekey.ts:288-468 | one private turn for any request: out of range it throws, a zero secret goes on at the next index, depth 255 throws, otherwise every field of the child follows from the parent and those bytes; a negative index with the hardened flag is hashed as hardened at a normal index |
| HdSteps.PrivateChild | lib/bitcore/hdprivatekey.ts:405-468 | every private child stands at the first index with a nonzero secret; secret, chain code, depth, index and fingerprint are those of the hash of that index's bytes |
| HdSteps.PublicTurn | lib/bitcore/hdpublickey.ts:525-560 | one public turn: refused outside 0 to 2^31 - 1 or with the flag, retried at infinity, otherwise every field of the child, depth modulo 256 and version numbers included |
| HdSteps.PublicChild | lib/bitcore/hdpublickey.ts:525-560 | every public child stands at the first index whose sum is finite and has the point, chain code and fingerprint of that index's bytes |
| HdStrings.XprivRoundTrip | lib/bitcore/hdprivatekey.ts:118-283 | an extended private key's string restores everything but the compressed flag, which reads false, and regtest, which reads testnet |
| HdStrings.XprivReserialisesIff | lib/bitcore/hdprivatekey.ts:130-161 | an accepted string is written back exactly when its filler byte is zero |
| HdStrings.XpubRoundTrip | lib/bitcore/hdpublickey.ts:347-428 | an extended public key is restored from its string |
| HdStrings.WrittenFields | lib/bitcore/hdprivatekey.ts:199-283 | where each field of both extended keys is written, with the version numbers of the networks |
| HdStrings.ParsePrivateIff | lib/bitcore/hdprivatekey.ts:118-283 | 78 bytes are read as a private key exactly when the version is one of two numbers and the secret lies between 1 and n - 1, field by field |
| HdStrings.ParsePublicIff | lib/bitcore/hdpublickey.ts:347-428 | 78 bytes are read as a public key exactly when the last 33 are a key, field by field |
| HdStrings.ToBuffer | lib/bitcore/hdprivatekey.ts:531-554 | filling the 78-byte buffer field by field leaves the specified bytes |
| HdStrings.PathsAgreeIff | lib/bitcore/hdpublickey.ts:565-579 | a quote-free path means the same to both parsers exactly when it starts at the root and has no empty or negative step |
| HdStrings.StringDerivationCommutes | lib/bitcore/hdprivatekey.ts:384-400 | for every path string the private parser reads, public derivation by string succeeds within 255 levels exactly when the path has no quote and no private step throws or leaves the normal range, and then agrees with the private result |
| HdStrings.EmptyStepIsZero | lib/bitcore/hdpublickey.ts:565-579 | the public parser takes an empty step for index 0, the private one refuses it |
| HdPaths.StepsIff | lib/bitcore/hdprivatekey.ts:309-310 | the steps of a path are the one list of slash-free texts that joins to it |
| HdPaths.PrivatePathSnoc | lib/bitcore/hdprivatekey.ts:288-400 | deriving along a list of indices is deriving the last from what the front derives; an index outside 0 to 2^32 - 1 anywhere throws |
| HdPaths.PublicPathSnoc | lib/bitcore/hdpublickey.ts:140-579 | the same on the public side below 2^31 |
| HdPaths.PrivateStringSnoc | lib/bitcore/hdprivatekey.ts:309-400 | a path string derives the key itself exactly when it is one of the four roots, another first step throws, and one more step derives the child at its number, plus 2^31 before a quote |
| HdPaths.PublicStringSnoc | lib/bitcore/hdpublickey.ts:565-579 | the public side refuses any quote, ignores what the first step says, and takes each further step as a number |
| Base58.DecodeIff | lib/bitcore/encoding/base58check.ts:79-138 | a text decodes to a buffer exactly when it is that buffer's encoding, leading zeros included |
| Base58.EncodeIff | lib/bitcore/encoding/base58check.ts:79-100 | the encoding of a buffer is the one text over the alphabet that stands for its big-endian number and starts with as many 1 as it has zero bytes |
| Base58.CheckDecodeIff | lib/bitcore/encoding/base58check.ts:23-57 | with the checksum, a text is accepted as b exactly when it is the checked encoding of b |
| Base58.CheckMeans | lib/bitcore/encoding/base58check.ts:23-57 | a text is accepted exactly when its last four bytes start the double hash of the bytes before them |
| Base58.Base58Encode | lib/bitcore/encoding/base58check.ts:79-100 | the three loops of the encoder produce the leading ones and the base-58 numeral |
| Base58.Base58Decode | lib/bitcore/encoding/base58check.ts:105-138 | the loops of the decoder produce the leading zeros and the bytes, or fail on a foreign character |
| Base58.NumeralOfValue | lib/bitcore/encoding/base58check.ts:79-138 | any digits are their leading zeros followed by the numeral of their value, in every base |
| BlockMerkle.FlatTreeLayout | lib/bitcore/block/block.ts:300-317 | level h of the recursive null-padded tree lies contiguously at its offset, for every number of leaves |
| BlockMerkle.NodeMeans | lib/bitcore/block/block.ts:300-317 | a node above leaves is the hash of its left child followed by its right child, one without leaves is 32 zero bytes |
| BlockMerkle.RootIsTreeRoot | lib/bitcore/block/block.ts:300-325 | the last element of the array is the root of the recursive tree and nothing else is stored |
| BlockMerkle.RootMeans | lib/bitcore/block/block.ts:300-325 | the root is the top node of the lowest tree whose 2^h leaves hold the list |
| BlockMerkle.LeavesMean | lib/bitcore/block/block.ts:280-294 | the leaves are the hashes of each transaction's hash followed by its id, in order, or one null hash |
| BlockMerkle.NodeShift | lib/bitcore/block/block.ts:300-317 | level h above the paired level is level h + 1 |
| BlockMerkle.RootBindsHashes | lib/bitcore/block/block.ts:300-325 | two lists of one length with one root are equal, or two hashed inputs collide, at every height and padding |
| BlockMerkle.RootBindsAnyLists | lib/bitcore/block/block.ts:300-325 | two hash lists of any two lengths with one root are equal, or two hashed inputs collide, or the null hash is an entry or a hashed value, or an entry of one is an inner node over the other |
| BlockMerkle.RootBindsBlocks | lib/bitcore/block/block.ts:280-325 | two blocks of any two sizes with one root carry the same transactions, or inputs collide, or one hashes to the null hash, or a transaction's hash and id are the halves of an inner node over the other |
| BlockMerkle.PaddingIsInvisible | lib/bitcore/block/block.ts:300-325 | for bare hash lists the null-hash exception is real: an odd list and the same list with a null hash appended share their root |
| BlockMerkle.RootOfRoot | lib/bitcore/block/block.ts:300-325 | for bare hash lists the inner-node exception is real: a list of two hashes and the list of their parent share their root |
| BlockMerkle.RootBindsTransactions | lib/bitcore/block/block.ts:280-325 | two blocks with equally many transactions and one root carry the same hashes and ids in order, or hashed inputs collide |
| BlockMerkle.Block.GetTransactionHashes | lib/bitcore/block/block.ts:280-294 | the loop returns the leaf hash of each transaction in order, one null hash for an empty block |
| BlockMerkle.Block.PushLevel | lib/bitcore/block/block.ts:305-317 | hashing the level at the running offset appends exactly its next level |
| BlockMerkle.Block.GetMerkleTree | lib/bitcore/block/block.ts:300-317 | the loop with running offset and size bumped in its body terminates with the levels of the tree one after the other |
| BlockMerkle.Block.GetMerkleRoot | lib/bitcore/block/block.ts:322-325 | returns the root of the recursive tree |
| BlockMerkle.Block.ValidMerkleRoot | lib/bitcore/block/block.ts:330-339 | true exactly when the header holds that root |
| ScriptNum.MinimalIsEncoding | lib/bitcore/crypto/bn.ts:102-131 | a minimal signed magnitude is the encoding of its value |
| ScriptNum.MagnitudeLength | lib/bitcore/crypto/bn.ts:217-245 | a number fits k bytes exactly when its magnitude has at most k bytes |
| ScriptNum.RoundTrip | lib/bitcore/crypto/bn.ts:102-131 | decoding an encoded integer returns it, and each encoding is minimal |
| ScriptNum.DecodeMeans | lib/bitcore/crypto/bn.ts:69-131 | a script number is little-endian with its sign in the top bit of the last byte |
| ScriptNum.BigEndianMeans | lib/bitcore/crypto/bn.ts:69-92 | a big-endian signed magnitude has its sign in the first byte |
| ScriptNum.ReencodeIff | lib/bitcore/crypto/bn.ts:102-131 | exactly the buffers that pass the minimality test are reproduced by decoding and encoding |
| ScriptNum.MinimalIff | lib/bitcore/crypto/bn.ts:102-131 | the minimality test passes exactly the buffers that are strictly the shortest with their value |
| ScriptNum.ReadIff | lib/bitcore/crypto/bn.ts:102-131 | a buffer is refused exactly when it is longer than the size (four by default), or, when asked, another no longer one has its value |
| ScriptNum.LengthIff | lib/bitcore/crypto/bn.ts:386-426 | the encoding has at most k bytes exactly when the magnitude is below 2^(8k-1) |
| ScriptNum.DefaultRange | lib/bitcore/crypto/bn.ts:102-131 | the default 4-byte limit accepts exactly the encodings of -(2^31-1) to 2^31-1 and reads each back |
| ScriptNum.ReverseBuf | lib/bitcore/crypto/bn.ts:136-142 | the new buffer is the reversed input, which stays as it was |
| ScriptNum.ReadSM | lib/bitcore/crypto/bn.ts:69-92 | returns the signed value; reading a negative big-endian buffer clears the sign bit in the caller's memory and changes nothing else |
| ScriptNum.WriteScriptNum | lib/bitcore/crypto/bn.ts:386-426 | the in-place sign setting and reversal produce the little-endian encoding |
| Bootstrap.DelayBound | lib/p2p/bootstrap-manager.ts:488-520 | a reconnect delay lies between 0 and cap * (1 + jitter / 2) |
| BootstrapRules.BackoffDoubles | lib/p2p/bootstrap-manager.ts:500-505 | before jitter the delay starts at the base, doubles with each attempt and is capped |
| BootstrapRules.JitterMeans | lib/p2p/bootstrap-manager.ts:507-510 | the delay is the base times 1 + jitter * (random - 1/2), never below zero, and so within half the jitter of the base |
| BootstrapRules.PeerIdMeans | lib/p2p/bootstrap-manager.ts:357-363 | the peer id is the last part of the split at "/p2p/", when there are two parts and it is not empty |
| Bootstrap.StepInv | lib/p2p/bootstrap-manager.ts:112-228 | each step keeps: timers belong to tracked peers and respect the longest delay, attempts stay within the maximum |
| Bootstrap.ReachableInv | lib/p2p/bootstrap-manager.ts:112-228 | that invariant holds in every reachable state under every interleaving |
| BootstrapRules.PeersAreApart | lib/p2p/bootstrap-manager.ts:87-582 | what any event makes of one peer's record, timer, dials and connection depends on that peer alone, on the node and on the started flag |
| BootstrapRules.TrackedIff | lib/p2p/bootstrap-manager.ts:112-201 | a peer is tracked from a start or connect that names it until stop, and in no other case |
| BootstrapRules.AttemptsMean | lib/p2p/bootstrap-manager.ts:206-542 | attempts go back to zero exactly when the connection opens or reconnect or start names the peer, and grow by one exactly for a failure with attempts left |
| BootstrapRules.ConnectedIff | lib/p2p/bootstrap-manager.ts:419-483 | a tracked peer counts as connected from the opening of its connection until that drops or start names it |
| BootstrapRules.TimerMeans | lib/p2p/bootstrap-manager.ts:488-542 | the timer is armed exactly by such a failure, with the delay of the attempts so far, and cleared exactly when it fires, by an opening, reconnect and stop |
| BootstrapRules.DialsMean | lib/p2p/bootstrap-manager.ts:112-414 | which events dial a peer once more and which end a dial |
| BootstrapRules.SwitchesMean | lib/p2p/bootstrap-manager.ts:87-175 | when there is a node, when the manager is started, and which connections are open |
| Bootstrap.StepSyncIff | lib/p2p/bootstrap-manager.ts:112-228 | a step keeps every open connection known to the manager exactly when it writes no record for a live peer |
| Bootstrap.StepAwake | lib/p2p/bootstrap-manager.ts:384-542 | while in sync no step loses a wake-up |
| Bootstrap.NoLostWakeUp | lib/p2p/bootstrap-manager.ts:384-542 | in every such run each tracked peer of a started manager is connected, being dialled, waiting on its one timer, or out of attempts |
| Bootstrap.WakeUpIff | lib/p2p/bootstrap-manager.ts:112-228 | a step from a good state keeps every such continuation awake exactly when it writes no record for a live peer, or no attempts are allowed |
| Bootstrap.EveryRun | lib/p2p/bootstrap-manager.ts:79-228 | both results for every run of a fresh manager |
| Bootstrap.StartAfterConnectLosesPeer | lib/p2p/bootstrap-manager.ts:112-150 | a run that loses a wake-up: connect, then start with the same address leaves a live peer tracked, unconnected and without dial or timer |
| Bootstrap.QuietAfterStop | lib/p2p/bootstrap-manager.ts:155-175 | after stop no event arms a timer or tracks a peer until start or connect runs again |
| BootstrapManagers.BootstrapManager.Start | lib/p2p/bootstrap-manager.ts:112-150 | takes the start step: records, dials and the started flag, or nothing when it throws |
| BootstrapManagers.BootstrapManager.Stop | lib/p2p/bootstrap-manager.ts:155-175 | takes the stop step: no timer, no record, not started |
| BootstrapManagers.BootstrapManager.Connect | lib/p2p/bootstrap-manager.ts:180-201 | takes the connect step or reports the throw |
| BootstrapManagers.BootstrapManager.Reconnect | lib/p2p/bootstrap-manager.ts:206-228 | takes the reconnect step or reports the throw |
| BootstrapManagers.BootstrapManager.ConnectToPeer | lib/p2p/bootstrap-manager.ts:384-414 | dials exactly when the peer is tracked, unconnected and a node exists |
| BootstrapManagers.BootstrapManager.HandleBootstrapConnect | lib/p2p/bootstrap-manager.ts:419-452 | marks the peer connected, resets its attempts and clears its timer |
| BootstrapManagers.BootstrapManager.HandleBootstrapDisconnect | lib/p2p/bootstrap-manager.ts:457-483 | marks the peer unconnected and schedules it when started |
| BootstrapManagers.BootstrapManager.ScheduleReconnect | lib/p2p/bootstrap-manager.ts:488-542 | replaces the peer's timer by one of the specified delay, or gives up at the maximum |
| BootstrapManagers.BootstrapManager.OnTimer | lib/p2p/bootstrap-manager.ts:530-541 | a fired timer is forgotten and its peer is dialled |
| BootstrapManagers.BootstrapManager.OnDialFailure | lib/p2p/bootstrap-manager.ts:384-414 | a failed dial schedules its peer again |
| BootstrapManagers.BootstrapManager.PerformHealthCheck | lib/p2p/bootstrap-manager.ts:556-582 | the loop is a run of per-peer checks after which no tracked peer counts as connected without a connection |
| DhtQueue.StepInv | lib/p2p/dht-queue.ts:111-234 | each step keeps distinct keys, the attempt bounds and the accounting of a running flush |
| DhtQueue.AttemptsBounded | lib/p2p/dht-queue.ts:153-234 | in every reachable state no entry was handed to the callback more than max(1, maxRetries) times |
| DhtQueue.FlushAccounting | lib/p2p/dht-queue.ts:153-234 | when the last batch has settled success + failed is the snapshot size |
| DhtQueue.FlushHandlesEachEntryOnce | lib/p2p/dht-queue.ts:153-234 | in every run a flush hands each snapshot entry to the callback exactly once |
| DhtQueue.EnqueueSizeIff | lib/p2p/dht-queue.ts:111-143 | enqueueing keeps the limit exactly when the key is present, there is room, or the limit is positive and the oldest key is not empty |
| DhtQueue.EvictsOldest | lib/p2p/dht-queue.ts:111-143 | a full queue gives up its first entry of least queuedAt and keeps the others in order |
| DhtQueue.SizeBounded | lib/p2p/dht-queue.ts:111-234 | the size limit holds throughout every run without empty keys, also while a flush is in progress |
| DhtQueue.EmptyKeyDisablesLimit | lib/p2p/dht-queue.ts:111-143 | an empty oldest key is never evicted and each new key then grows the queue beyond its limit |
| DhtQueue.EmptyKeyRun | lib/p2p/dht-queue.ts:111-143 | a run from the empty queue for every limit: after the empty key, any number of different keys all stay |
| DhtQueue.SettleSparesOthersIff | lib/p2p/dht-queue.ts:178-215 | settling a callback, with either result, removes no entry but its own exactly when it removes nothing or no other waiting entry has its key |
| DhtEntries.SettleMeans | lib/p2p/dht-queue.ts:178-215 | a settlement counts once under its result; a failure below maxRetries leaves the waiting entries as they are, a success or last failure takes out the entry with that key |
| DhtEntries.EnqueueMeans | lib/p2p/dht-queue.ts:111-143 | a waiting key is updated in place, another goes to the end with no attempt, and an entry leaves only from a full queue whose first of least time has a nonempty key |
| DhtEntries.FlushStartMeans | lib/p2p/dht-queue.ts:153-180 | a flush takes all waiting entries for its snapshot and calls the first batch, each of them tried once more and no other |
| DhtEntries.NextBatchMeans | lib/p2p/dht-queue.ts:170-234 | when no callback runs any more, the next batch is called or the flush is over |
| DhtEntries.CleanupMeans | lib/p2p/dht-queue.ts:325-345 | cleanup keeps exactly the entries that have waited no longer than the limit, in their order |
| DhtEntries.LeavesIff | lib/p2p/dht-queue.ts:111-345 | a waiting entry leaves at a step exactly by a success or last allowed failure under its key, expiry, eviction, remove or clear |
| DhtEntries.StaysIff | lib/p2p/dht-queue.ts:111-345 | over every run a waiting entry still waits at the end exactly when no event took it out in one of those ways |
| DhtEntries.RetriedUntilLimit | lib/p2p/dht-queue.ts:178-215 | from the empty queue, after k failed flushes the entry still waits with k attempts for every k below maxRetries, and the one that reaches it drops the entry |
| DhtQueue.SettleRemovesSameKey | lib/p2p/dht-queue.ts:178-215 | the entry lost is the waiting one with the same key |
| DhtQueue.NewerEntryIsLost | lib/p2p/dht-queue.ts:111-262 | a run from the empty queue that gets there: removed and enqueued anew during its callback, the new entry leaves with no attempt made |
| DhtQueue.EveryRun | lib/p2p/dht-queue.ts:111-262 | in every run of a fresh queue the keys are distinct, the attempts bounded and, without empty keys, the size within its limit |
| DhtAnnouncementQueues.DHTAnnouncementQueue.Enqueue | lib/p2p/dht-queue.ts:111-143 | takes the enqueue step on the pending map |
| DhtAnnouncementQueues.DHTAnnouncementQueue.FindOldestKey | lib/p2p/dht-queue.ts:350-362 | the scan returns the first entry of least queuedAt |
| DhtAnnouncementQueues.DHTAnnouncementQueue.CleanupExpired | lib/p2p/dht-queue.ts:325-345 | removes exactly the entries older than the time to live |
| DhtAnnouncementQueues.DHTAnnouncementQueue.StartFlush | lib/p2p/dht-queue.ts:153-180 | takes the snapshot and starts the first batch |
| DhtAnnouncementQueues.DHTAnnouncementQueue.SettleOne | lib/p2p/dht-queue.ts:178-215 | records one callback result, with its deletions, as the machine does |
| DhtAnnouncementQueues.DHTAnnouncementQueue.FinishBatch | lib/p2p/dht-queue.ts:218-234 | starts the next batch or returns totals that add up to the snapshot size |
| ResourceTracker.PairCount | lib/p2p/security.ts:92-197 | the number of tracked (type, id) pairs is the sum of the per-type set sizes |
| ResourceTracker.AnnounceAgreesIff | lib/p2p/security.ts:99-146 | an accepted announcement keeps both views in agreement exactly when it is a repetition or its key is new |
| ResourceTracker.RemoveAgreesIff | lib/p2p/security.ts:151-181 | a removal keeps agreement exactly when the pair is tracked or its key belongs to no other |
| ResourceTracker.KeyInjective | lib/p2p/security.ts:99-110 | without colons in types the combined key determines type and id |
| ResourceTracker.TrackerAgreement | lib/p2p/security.ts:92-197 | after any colon-free sequence the flat set is the union of the type sets, its size their sum, and the limits 100 and 20 hold |
| ResourceTracker.EveryRun | lib/p2p/security.ts:92-197 | the same for every colon-free run of a fresh tracker |
| ResourceTracker.ReannounceSucceeds | lib/p2p/security.ts:99-146 | announcing a tracked resource again succeeds and changes no set, even at the limits |
| ResourceTracker.AnnounceIff | lib/p2p/security.ts:99-146 | over every colon-free run a resource is accepted exactly when it is tracked, or fewer than 100 of the peer and fewer than 20 of the type are, and then it is tracked besides the others |
| ResourceTracker.RemovePairs | lib/p2p/security.ts:151-181 | a removal takes out exactly that resource, from both views |
| ResourceTracker.EveryRunTight | lib/p2p/security.ts:99-181 | over every run no empty set or type map is kept |
| ResourceTracker.ColonsBreakAgreement | lib/p2p/security.ts:99-181 | with a colon in a type two resources share a key and the views diverge |
| ResourceTracker.DHTResourceTracker.CanAnnounceResource | lib/p2p/security.ts:99-146 | the two nested updates take the specified step and answer |
| ResourceTracker.DHTResourceTracker.RemoveResource | lib/p2p/security.ts:151-181 | the two removals, dropping emptied sets and maps, take the specified step |
| RateLimiter.StepInv | lib/p2p/security.ts:33-81 | announcements and cleanup keep the spacing of accepted times and the memory of the last one |
| RateLimiter.AcceptedIff | lib/p2p/security.ts:33-51 | over every run, with an interval of at most 86,400,001 ms, the next announcement is accepted exactly when each accepted one of that peer is at least the interval before |
| RateLimiter.CountIsAccepted | lib/p2p/security.ts:33-66 | without cleanup the count of a peer is the number of its accepted announcements |
| RateLimiter.CleanupMeans | lib/p2p/security.ts:71-81 | cleanup forgets exactly the peers whose last acceptance is more than 86,400,000 ms ago |
| RateLimiter.SpacedGrowth | lib/p2p/security.ts:33-51 | times at least m apart grow at least m per acceptance |
| RateLimiter.RateBound | lib/p2p/security.ts:33-81 | under any interleaving with other peers and cleanup, acceptances of a peer are at least m apart and a closed window of length w holds at most w / m + 1, for m up to 24 hours plus 1 ms |
| RateLimiter.LongIntervalsAreForgotten | lib/p2p/security.ts:71-81 | for every longer interval there is a run that breaks the spacing |
| RateLimiter.DHTAnnouncementRateLimiter.CanAnnounceAt | lib/p2p/security.ts:33-51 | takes the specified step, counting acceptances only |
| RateLimiter.DHTAnnouncementRateLimiter.CleanupOld | lib/p2p/security.ts:71-81 | the loop forgets exactly the peers whose last acceptance is more than 24 hours old |
| PeerBans.AllowedIff | lib/p2p/security.ts:207-287 | over every history a peer is let through exactly when, since its last unban, nobody banned it, it got fewer than ten warnings and its latest temporary ban is over |
| PeerBans.WarningShortensBan | lib/p2p/security.ts:224-252 | the latest temporary ban wins: after four warnings, a fifth replaces a day's ban by one hour |
| PeerBans.FourWarnings | lib/p2p/security.ts:236-252 | four warnings in a row are such a history |
| PeerBans.WarnedTimes | lib/p2p/security.ts:236-276 | after k warnings at one time a peer is let through exactly when k is below 5, or below 10 and 3,600,000 ms have passed |
| PeerBans.CheckMeans | lib/p2p/security.ts:257-276 | a check drops the temporary ban of that peer when it is over and changes nothing else |
| PeerBans.StepEscalated | lib/p2p/security.ts:236-287 | ten warnings imply the blacklist, and only unbanning leaves it or lowers the count |
| PeerBans.CorePeerBanManager.WarnNow | lib/p2p/security.ts:236-252 | counts, and escalates at five and at ten warnings |
| PeerBans.CorePeerBanManager.IsAllowedNow | lib/p2p/security.ts:257-276 | answers as specified and deletes an expired temporary ban |
| PeerBans.CorePeerBanManager.UnbanNow | lib/p2p/security.ts:281-287 | forgets bans and warnings of that peer only |
| SecurityManager.RegisterThenLookup | lib/p2p/security.ts:366-371 | the latest registration of a name is the one found, and other names are unaffected |
| ManagerHooks.FindHooksMeans | lib/p2p/security.ts:469-485 | the hooks of a type are those under its own name, otherwise those of the first registered name it starts with, otherwise none |
| ManagerHooks.RegistrationMeans | lib/p2p/security.ts:366-371 | a registration takes the place of the one with its name, or the last place, and changes nothing else |
| ManagerHooks.CallBegins | lib/p2p/security.ts:377-450 | a call that passes all checks waits for the policy hook, then the data hook, or is accepted without hooks; disabled checks accept and touch nothing |
| ManagerHooks.SettleMeans | lib/p2p/security.ts:425-450 | an answer counts once, for the call it belongs to: a no is a rejection, and only a no of the data hook is a warning |
| ManagerHooks.HooksDecide | lib/p2p/security.ts:425-450 | over every run a waiting call is accepted exactly when as many answers as it has hooks are yes, and rejected, or thrown out of, exactly when the first other one says so |
| SecurityManager.Conservation | lib/p2p/security.ts:377-450 | over every interleaving of calls, late answers, bans and resets, total plus the calls in flight at the latest reset equals accepted, rejected, rate limited, thrown and in flight |
| SecurityManager.TotalsIff | lib/p2p/security.ts:377-516 | in every run the total is accepted + rejected + rateLimited since the latest reset exactly when the calls in flight at that reset are as many as those thrown since and those in flight now |
| SecurityManager.ThrownCallIsMissing | lib/p2p/security.ts:425-450 | a run whose total misses a call because its hook throws |
| SecurityManager.ResetCallIsMissing | lib/p2p/security.ts:425-516 | a run whose total is short of a call in flight at a reset |
| SecurityManager.PlainTotals | lib/p2p/security.ts:377-450 | without resets and throwing hooks total = accepted + rejected + rateLimited + in flight, each counter being the number of such calls |
| SecurityManager.ManagerTracks | lib/p2p/security.ts:377-450 | inside the manager the tracker's two views stay in agreement and within limits over every run |
| SecurityManager.BannedStaysOut | lib/p2p/security.ts:377-450 | in every run without an unban a blacklisted peer has each call rejected, its last accepted time never moves on, and nothing is added to what the tracker holds for it |
| SecurityManager.LimitedAtMostTenTimes | lib/p2p/security.ts:399-411 | a peer nobody unbans is rate limited at most ten times in any run |
| ManagerRates.RateLimitedIff | lib/p2p/security.ts:377-411 | over every run the next call of a peer is rate limited exactly when the peer is allowed and one of its calls that passed the limiter is less than the interval before |
| ManagerRates.BansAreHistory | lib/p2p/security.ts:377-450 | the ban list after any run is that of the checks, warnings and bans the calls send to it |
| ManagerRates.TrackerIsRun | lib/p2p/security.ts:377-450 | the tracker after any run is that of the calls that pass the limiter and of the removals |
| SecurityManager.EveryRun | lib/p2p/security.ts:377-450 | in every run of a fresh manager the counters are the changes of the call log and the limit of ten holds |
| SecurityManager.AcceptedRate | lib/p2p/security.ts:377-450 | the calls of one peer that start in a closed window of length w and are not refused are at most w / interval + 1, under every interleaving |
| CoreSecurityManagers.CoreSecurityManager.CanAnnounceToDHT | lib/p2p/security.ts:377-430 | the call up to its first wait takes the specified step through ban manager, limiter and tracker |
| CoreSecurityManagers.CoreSecurityManager.SettleNow | lib/p2p/security.ts:425-450 | a hook's answer settles the call, or makes it wait for the second hook, as specified |
| CoreSecurityManagers.CoreSecurityManager.FindValidator | lib/p2p/security.ts:469-485 | an exact name wins, else the first registered prefix |
| CoreSecurityManagers.CoreSecurityManager.RegisterProtocolValidator | lib/p2p/security.ts:366-371 | a known name keeps its place in the order |
| CoreSecurityManagers.CoreSecurityManager.Cleanup | lib/p2p/security.ts:490-492 | takes the cleanup step |
| CoreSecurityManagers.CoreSecurityManager.ResetMetricsNow | lib/p2p/security.ts:510-516 | all counters start again while calls in flight go on |
| SeenMessages.DeliveredIff | lib/p2p/coordinator.ts:1898-1910 | over every run the set is the latest entries of the delivery log since the last clearing, between min(n, 9001) and 10000 of them, and a message is delivered exactly when its hash is not among them |
| SeenMessages.ClearedForgets | lib/p2p/coordinator.ts:1611-1611 | right after a clearing every message is delivered, whatever came before |
| SeenMessages.RedeliveryDistance | lib/p2p/coordinator.ts:1898-1910 | between two clearings a hash is delivered again only after at least 9001 deliveries of others |
| SeenMessages.RedeliveryIsTight | lib/p2p/coordinator.ts:1898-1910 | after 10001 deliveries the last dropped hash comes through with exactly 9001 in between |
| SeenMessages.WindowSucc | lib/p2p/coordinator.ts:1905-1909 | the window grows by one per delivery and falls to 9001 after 10000 |
| SeenMessages.MessageFilter.Accepts | lib/p2p/coordinator.ts:1898-1910 | adding and deleting the first 1000 entries one by one takes the specified step |
| SeenMessages.MessageFilter.Clear | lib/p2p/coordinator.ts:1611-1611 | takes the clearing step |
| Addresses.XRoundTripIff | lib/bitcore/xaddress.ts:405-610 | an XAddress survives its string exactly when its prefix has no upper-case letter or underscore and it is no script hash |
| Addresses.Base58IsLawful | lib/bitcore/encoding/base58check.ts:79-138 | the Base58 code inside Base58Check meets the laws assumed of the bs58 package that address strings use |
| Addresses.ParsingEndsIff | lib/bitcore/address.ts:192-217 | parsing ends within some number of nested calls exactly for texts without a colon |
| Addresses.DecodeLayout | lib/bitcore/xaddress.ts:569-610 | a string in the encoder's layout decodes to its parts for every type byte |
| Addresses.RecogniseIff | lib/bitcore/address.ts:283-367 | the embedded script gives an address back exactly when the hash has the length of its kind |
| Addresses.RoundTripIff | lib/bitcore/address.ts:192-367 | parsing the string of any address restores hash, network and kind exactly when the hash has the length of its kind and the caller insists on no other network |
| Addresses.AcceptedHasParts | lib/bitcore/address.ts:192-367 | every accepted XAddress-form string is prefix, network character and Base58 of type, payload and their checksum |
| AddressStrings.LayoutDecodesIff | lib/bitcore/xaddress.ts:453-610 | a string in the encoder's layout is accepted exactly when its four bytes start the SHA-256 of prefix, network, type and payload; any other four give a checksum error |
| AddressStrings.AcceptedInLayout | lib/bitcore/address.ts:192-367 | every accepted XAddress-form string is in the layout with exactly that checksum |
| AddressStrings.ChecksumBinds | lib/bitcore/xaddress.ts:453-610 | two accepted strings with the same four bytes agree in prefix, network, type and payload, or the two hashed inputs differ and their hashes start alike |
| AddressStrings.PayloadTable | lib/bitcore/address.ts:283-422 | what every payload of every type means, and when it is refused, on the network it insists on too |
| AddressStrings.OtherForms | lib/bitcore/address.ts:192-245 | texts without an inner upper-case letter or underscore are left to the legacy parser |
| AddressStrings.XStringMeans | lib/bitcore/xaddress.ts:405-414 | what is written for any prefix, network, type and payload |
| AddressStrings.StringFields | lib/bitcore/address.ts:752-773 | an address with a hash of its length is written as "lotus", the network's mark, and type, standard script and checksum |
| AddressStrings.TrimMeans | lib/bitcore/address.ts:192-200 | a text is its trimmed middle between two runs of blanks |
| AddressStrings.Utf8IsLawful | lib/bitcore/xaddress.ts:453-466 | UTF-8 itself meets the laws assumed of the encoder |
| Addresses.ReencodeIff | lib/bitcore/address.ts:752-773 | an accepted string is the address's own string exactly when its prefix is "lotus" and type byte and payload, including the script tail the parser skips, are canonical |
| Hex.HexDigitsBytes | utils/functions.ts:51-63 | the bytes of an even number of hex digits read big-endian are the number |
| Hex.HexUnhex | utils/functions.ts:51-63 | lower-case hex of whole bytes is restored from its bytes |
| Rank.RankLayout | lib/rank/index.ts:383-432 | the hex text that the builder appends to decodes to the pushes byte for byte |
| RankScripts.RankBuilt | lib/rank/index.ts:383-432 | a RANK script is built exactly for a matching profile id and a post id that is a number or absent on Twitter; each of its bytes |
| RankScripts.RnkcBuilt | lib/rank/index.ts:445-520 | RNKC scripts are built exactly for matching ids and a comment of 1 to 440 bytes; each of their bytes, 220 of the comment at a time |
| RankScripts.ProfileMeans | lib/rank/index.ts:260-294 | which profile ids match and the bytes of their field |
| RankScripts.PostMeans | lib/rank/index.ts:311-323 | the bytes of a post id: leading pairs of hex digits, or the number's digits in pairs without an odd last one |
| RankScripts.RankReadIff | lib/rank/index.ts:731-764 | which scripts are read as RANK, which throw, and where each field is found |
| RankScripts.RnkcReadIff | lib/rank/index.ts:769-828 | which scripts are read as RNKC, which throw, and where each field is found |
| RankScripts.ProfileRead | lib/rank/index.ts:624-656 | what is read at the profile's place, and that zero bytes are left out of names |
| RankScripts.PostRead | lib/rank/index.ts:662-697 | what is read at the post's place |
| RankScripts.CommentMeans | lib/rank/index.ts:704-725 | a comment is the data up to the first script of another form, and throws only where that form cannot be seen |
| Rank.ProfileIff | lib/rank/index.ts:624-656 | the padded profile field gives the id back exactly when it is a Twitter name or lower-case hex |
| Rank.PostIff | lib/rank/index.ts:662-697 | the post field gives the id back exactly for whole lower-case hex bytes up to 32 (Lotusia) or a canonical decimal with 16 hex digits (Twitter) |
| Rank.RankRoundTripIff | lib/rank/index.ts:731-764 | reading any built RANK script restores sentiment and platform, and each id exactly when it survives |
| Rank.RnkcRoundTripIff | lib/rank/index.ts:769-828 | a built comment is accepted exactly when the burn pays the minimum rate; then the bytes come back across the 220-byte split at no less than that rate |
| RankScripts.DataOutIff | lib/bitcore/script.ts:1362-1386 | a script is a standard data output exactly when it starts with 0x6a, has at most 223 bytes and holds only opcodes up to 0x60 behind |
| Rank.RankIsDataOutIff | lib/bitcore/script.ts:1362-1386 | a RANK script is a standard data output exactly when it is at most 223 bytes long and its post id's bytes beyond the announced length, if any, parse as pushes |
| Rank.LongPostSpoils | lib/rank/index.ts:311-323 | a Twitter post id with 18 hex digits, the last two above 0x60, makes a RANK script that is no data output |
| Rank.SpoilingIdExists | lib/rank/index.ts:311-323 | there is such a post id |
| Rank.RnkcIsDataOutIff | lib/bitcore/script.ts:1362-1386 | all scripts of a comment are standard data outputs exactly under that condition on the first one |
| Rank.ScriptProcessor.AddScript | lib/rank/index.ts:552-561 | stores a script exactly when its first byte is OP_RETURN |
| Rank.ScriptProcessor.ProcessComment | lib/rank/index.ts:704-725 | the loop concatenates the data up to the first script of another form |
| Rank.ScriptProcessor.ProcessScriptRNKC | lib/rank/index.ts:769-828 | the early returns give the specified output, null or exception |

## Left out

- Ecdsa.ECDSA.FindSignature: takes as a ghost input a round of the nonce stream that succeeds; that the RFC 6979 stream reaches one depends on hash outputs.
- Ecdsa.ECDSA.Calci: needs the curve library's multiple by a negative scalar to be exact for a recovery guarantee; `Point.mul` on negative scalars belongs to the elliptic library and is not part of this model.
- Ecdsa.RecoveryFindsSigner: assumes the same law, for the base point and scalars between -n and 0; `Ecdsa.RecoverAtIndexIff` says that it is needed, `Ecdsa.LibraryRecoversIff` is the result without it. `Ecdsa.RecoverableIff`, `Ecdsa.RecoverableIffAccepted`, `Ecdsa.ByteOrderIff`, `Ecdsa.UnrecoveredKey` and `Ecdsa.UnrecoveredSignature` assume it too; `Ecdsa.RecoveredMeans` assumes only that this multiple is a point of the curve.
- PublicKeys.DERRoundTrip: compressed keys only; the 65-byte uncompressed form is a direct coordinate copy.
- HdStrings.StringDerivationCommutes: JavaScript's number parsing is a parameter, and fractional path numbers are not part of this model.
- HdStrings.XprivRoundTrip: strings that happen to be hexadecimal and are therefore read as hex are not part of this model.
- TaprootSpend.SpendCompleteness: scripts are shorter than 2^53 bytes, the longest buffer Node can hold.
- Rank.RnkcRoundTripIff: the comment is its UTF-8 bytes, burned satoshis are an exact integer, and the minimum rate and length are the default settings.
- AddressStrings.ChecksumBinds: strings are sequences of whole characters; unpaired surrogates are not part of this model, and `AddressStrings.Utf8IsLawful` is the instance of the laws used.
- Addresses.RoundTripIff: Base58 is any inverse pair, of which `Addresses.Base58IsLawful` is an instance; legacy Base58Check strings are a parameter.
- RateLimiter.RateBound: one fixed interval per run.
- SecurityManager.Conservation: the message counters, the peer counters and the emitted events are not part of this model.
- Overlapping flushes of the announcement queue, and the item object being updated in place while a flush holds it: slots stand for the shared objects, and at most one flush runs.
- Timestamps of bootstrap records, registered capabilities, peer list queries, events and console output of the bootstrap manager.
- Secp256k1 itself, SHA-256, RIPEMD-160, HMAC: parameters with the group laws, or with nothing but an output length.
- libp2p, GossipSub, Chronik, RPC, DHT queries: a dial, a timer, a validator hook and a flush callback are nondeterministic outcomes.
- MuSig2, SwapSig, the script interpreter, signature hashes and transactions.
- Units, formatting, URIs, script classifiers other than the data output and Taproot tests.
