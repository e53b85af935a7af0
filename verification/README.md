# ethbacknode: a verified model of its algorithms

These modules model the algorithmic parts of the ethbacknode service in Dafny and prove what the code promises
about them. `dafny verify dfyconfig.toml` checks all of it.

| files | models |
|---|---|
| `Wrappers.dfy`, `Radix.dfy`, `FixedDigits.dfy` | options and results, positional notation; shared by everything below |
| `RlpSpec.dfy`, `RlpRaw.dfy`, `RlpUint.dfy` | RLP items and their recursive encoding (Ethereum Yellow Paper, Appendix B), the slice reader, the integer encodings |
| `RlpEncBuffer.dfy`, `RlpReader.dfy` | the flat encoder buffer with its separate list headers, and the three ways to get the bytes out of it |
| `RlpStream.dfy` | the decoder with its kind cache, its stack of list limits and the uint64 wrap-around of `List` |
| `Field.dfy`, `Curve.dfy`, `Jacobian.dfy`, `Group.dfy` | modular arithmetic, affine points, the Jacobian formulas, double-and-add |
| `Ecdsa.dfy`, `Recover.dfy` | signing, verification, recovery of the public key (SEC 1 v2 section 4.1.6), the RFC 6979 signer |
| `SmallCurve.dfy` | a curve of seven points of which all assumptions on curves are proved |
| `FastMap.dfy`, `PoolState.dfy`, `Pool.dfy` | the flattened trie index; the address pool as a state machine over values, and the classes that implement it |
| `Base58.dfy`, `Bip32.dfy` | Base58, extended keys, derivation in the code and in BIP-32, serialisation |
| `Mnemonic.dfy`, `SeedPhrase.dfy` | BIP-39 with big integers and with bit arrays |
| `Subscriptions.dfy`, `Watchdog.dfy` | confirmation tracking, and the block catch-up loop |
| `Amounts.dfy` | decimal amounts |

How the models are built:

- Imperative code stays imperative. `EncBuffer`, `EncReader`, `Stream`, `MapBuilder`, `Record` and the managers are
  classes with the source's fields; the loops of the arithmetic, Base58, mnemonic, trie and event code are loops with
  invariants. Each such method is tied to a specification function, and the theorems are lemmas about that function.
- Go's fixed widths are written out where they matter: uint64 in `RlpStream.Sub64`, bytes in `FastMap.Span` and the
  RLP heads, uint32 in the trie's `nextLo`, the byte `depth` of a BIP-32 key.
- An index out of range in Go is an outcome, not a precondition, in the trie builder and in the mnemonic decoder.
- Randomness, hashes, the network and the storage are parameters: nonces and generated keys are sequences, SHA-256,
  HMAC and RIPEMD are functions of fixed output length, and a storage that may refuse a write is a predicate on keys.

Where the code does something its documentation does not say, the model follows the code and states the exact
condition:

- `List` subtracts the size of an over-long inner list from the enclosing limit in uint64. The limit wraps to about
  2^64, and the proof of `DecodeSliceElems` shows that such a frame is never closed (`RlpStream.ElementRead`).
- The RFC 6979 signer does not reduce r modulo N, so its result is a signature if and only if the abscissa of the
  nonce point is below N (`Recover.SignRfc6979`, `Recover.SignRfc6979Bytes`; `SmallCurve.NoSignature` has one that is
  not).
- Derivation departs from BIP-32, which calls an index invalid if IL >= N, if the private key is zero or if the public
  sum is infinity. The private side does not compare IL with N. The public side refuses IL G if it is infinity or has
  abscissa zero, and otherwise takes any sum, also infinity. `Bip32.DerivesAsBip32` says exactly when the two agree;
  `Bip32.OrderAccepted`, `Bip32.InfinityAccepted` and `Bip32.ZeroRefused` are inputs on which they do not.
- The trie builder counts siblings in a byte. It indexes past an empty slice if and only if some prefix is
  followed by both byte 0 and byte 255 (`FastMap.ObjectBuild`, `FastMap.WideKeys`).
- A handout whose address is not yet in the lookup index drops its update, and the address stays free
  (`PoolState.HandedTwice`, `Pool.LaggingIndex`).
- A handout drops the error of its save. If the row is refused, the next start brings the address back as free, if and
  only if the stored row is free (`PoolState.BackAfterRestart`, `PoolState.RefusedHandedTwice`).
- A single addition looks in the index only. It replaces a record in memory that is not indexed, and leaves the free
  map wrong if and only if that one is free and the new one is subscribed (`Pool.Manager.AddAddressRecord`,
  `Pool.SingleReplaces`).
- Preloading leaves the free map wrong if and only if an address has a free row and a subscribed last one
  (`Pool.Manager.PreLoadAddresses`, `PoolState.StaleFreeRow`).
- The bulk add promises never to overwrite. It keeps every record in memory, and every stored row that it can see.
  A row that cannot be read, or that has a blank address, is written over by the first new record with its key
  (`PoolState.BulkRow`, `PoolState.BulkReplaces`, `Pool.BlankRow`). The empty key is no such case: Badger refuses to
  write under it.
- The bit-array mnemonic decoder also accepts 0, 3, 6 and 9 words, and panics on 27, 30, ... 93 known words, where
  the checksum slice runs past one byte (`SeedPhrase.AgreeExactly`).
- A transaction in block n gets no notification in block n + min - 1, and the confirmed one, with count min, in block
  n + min. In block 1 the counts in between are left out (`Subscriptions.Lifecycle`).
- Amounts: characters past the last decimal are never looked at, an empty numeral counts as zero when there are
  decimals, and a negative amount with fewer digits than decimals does not survive printing and reading
  (`Amounts.TailIgnored`, `Amounts.Accepted`, `Amounts.RoundTrip`, `Amounts.LostSign`).

## Model

| member | source | states |
|---|---|---|
| RlpSpec.StringHeaders | common/rlp/decode.go:1055-1076 | the three forms of an encoded string with their tag bytes and lengths |
| RlpSpec.ListHeaders | common/rlp/decode.go:1077-1094 | the two forms of an encoded list with their tag bytes and lengths |
| RlpSpec.Examples | common/rlp/decode.go:1066-1071 | the documented string of 1024 bytes, and the integers 1024 and 0 |
| RlpRaw.SplitIff | common/rlp/raw.go:80-86 | Split accepts b with kind, content and rest if and only if b is that content under its canonical head, followed by the rest |
| RlpRaw.ReadSizeCanonical | common/rlp/raw.go:194-223 | an accepted long size is at least 56, below 2^64, and written in its shortest big-endian form |
| RlpRaw.ReadKindCanonical | common/rlp/raw.go:153-192 | an accepted head is the canonical head of its kind and size |
| RlpRaw.ParseSound | common/rlp/raw.go:80-86 | every byte string that parses to an item starts with the encoding of that item, so no second encoding exists |
| RlpRaw.ParseEncode | common/rlp/raw.go:80-86 | the encoding of any item shorter than 2^64 bytes parses back to it, leaving exactly what follows |
| RlpRaw.EncodeInjective | common/rlp/encode.go:302-339 | two encodings followed by anything are equal only for equal items and equal rests |
| RlpRaw.CountValues | common/rlp/raw.go:141-151 | the loop ends and agrees with the recursive count |
| RlpRaw.CountEncodeAll | common/rlp/raw.go:141-151 | a concatenation of n encodings counts n |
| RlpRaw.CountSound | common/rlp/raw.go:141-151 | a count of n means the input is n canonically wrapped values and nothing else |
| RlpUint.PutIntIsBytes | common/rlp/encode.go:431-486 | the eight-way case split writes the shortest big-endian bytes |
| RlpUint.IntSize | common/rlp/encode.go:489-495 | the number of those bytes |
| RlpUint.HeadSize | common/rlp/encode.go:117-122 | the length of a string or list head of that size |
| RlpUint.EncodedIntSize | common/rlp/raw.go:71-76 | the length of the canonical encoding of the integer |
| RlpUint.StringSize | common/rlp/raw.go:32-45 | the length of the encoding of the string |
| RlpUint.ListSize | common/rlp/raw.go:65-67 | the length of a list of that content size |
| RlpUint.AppendUint64Canonical | common/rlp/raw.go:226-294 | AppendUint64 appends the canonical encoding of the integer |
| RlpUint.SplitUint64Iff | common/rlp/raw.go:103-125 | SplitUint64 returns x and a rest if and only if x < 2^64 and the input is the canonical encoding of x before that rest: the inverse of the encoder, and every longer form is refused |
| RlpEncBuffer.PutInt | common/rlp/encode.go:431-486 | writes the shortest bytes in place and touches nothing else of the buffer |
| RlpEncBuffer.PutHead | common/rlp/encode.go:126-134 | writes the canonical head in place |
| RlpEncBuffer.EncBuffer.Reset | common/rlp/encbuffer.go:47-51 | an empty buffer with no list open, whatever it held |
| RlpEncBuffer.EncBuffer.Size | common/rlp/encbuffer.go:54-56 | with no list open, the length of the bytes of the recursive encoding |
| RlpEncBuffer.EncBuffer.WriteBytes | common/rlp/encbuffer.go:134-142 | appends the encoding of a string to the innermost open list |
| RlpEncBuffer.EncBuffer.WriteUint64 | common/rlp/encbuffer.go:121-132 | appends the canonical encoding of an integer to the innermost open list |
| RlpEncBuffer.EncBuffer.List | common/rlp/encbuffer.go:194-197 | opens an empty list |
| RlpEncBuffer.EncBuffer.ListEnd | common/rlp/encbuffer.go:199-207 | closes the innermost list: its bytes, with their list head, join the enclosing ones |
| RlpEncBuffer.EncBuffer.EncodeItem | common/rlp/encode.go:302-339 | for any item, the buffer then holds the recursive encoding |
| RlpEncBuffer.EncBuffer.CopyTo | common/rlp/encbuffer.go:65-79 | fills the target with exactly the recursive encoding |
| RlpEncBuffer.EncBuffer.WriteTo | common/rlp/encbuffer.go:82-104 | for a writer that fails at any call and in the middle of a piece: what it received, the calls it has left and the result are exactly those of writing the pieces in order; with room in every call it succeeds and has received the recursive encoding |
| RlpEncBuffer.PiecesJoin | common/rlp/encbuffer.go:82-104 | the pieces join to the recursive encoding, and there are at most two for a list header and one more |
| RlpEncBuffer.SendIff | common/rlp/encbuffer.go:82-104 | writing pieces succeeds if and only if every call has room for its piece; then all is received, otherwise a prefix |
| RlpEncBuffer.EncBuffer.MakeBytes | common/rlp/encbuffer.go:59-63 | a fresh array with the recursive encoding |
| RlpEncBuffer.EncodeToBytes | common/rlp/encode.go:77-85 | the bytes of any item's recursive encoding |
| RlpReader.EncReader.Next | common/rlp/encbuffer.go:262-293 | the next piece is a nonempty prefix of what is still to be read; none is left only at the end |
| RlpReader.EncReader.Read | common/rlp/encbuffer.go:237-258 | for buffers of any sizes, what was read and what is left is always the recursive encoding; it stops short only at the end |
| RlpReader.WriteBigInt | common/rlp/encbuffer.go:152-173 | both branches append the same canonical encoding as writeUint64 |
| RlpReader.ByteLen | common/rlp/encbuffer.go:152-173 | the bit length rounded up to bytes is the length of the shortest bytes |
| RlpStream.Stream.SplitIsNext | common/rlp/decode.go:1011-1096 | the slice reader and the stream see the same kind, content and remainder; Split refuses more only a byte below 0x80 with a string header, the stream only what exceeds the limit of the innermost list |
| RlpStream.Stream.WillRead | common/rlp/decode.go:1160-1176 | succeeds exactly if the innermost limit and the input allow it, and charges that limit |
| RlpStream.Stream.ReadUint | common/rlp/decode.go:1098-1122 | accepts exactly the integers without leading zero byte, and returns their value |
| RlpStream.Stream.ReadKind | common/rlp/decode.go:1038-1096 | the kind, size and position after the tag |
| RlpStream.Stream.Kind | common/rlp/decode.go:1011-1036 | in every state: the cached header or error, the end of a list, and which tags are let through against the limit before the tag was read |
| RlpStream.Stream.Bytes | common/rlp/decode.go:635-656 | with or without a cached header: accepts exactly a byte, or a string within the limit that is not a single byte below 0x80 |
| RlpStream.Stream.List | common/rlp/decode.go:796-815 | with or without a cached header: accepts exactly lists; the enclosing limit loses the size in uint64, and the size becomes the new limit |
| RlpStream.Stream.ListEnd | common/rlp/decode.go:819-830 | closes a list exactly when its limit is used up |
| RlpStream.Stream.Uint | common/rlp/decode.go:742-773 | for every width and with or without a cached header, the integer at hand; on a fresh header what DecodedUintIff describes |
| RlpStream.Stream.DecodeBigInt | common/rlp/decode.go:848-889 | the same without a bound |
| RlpStream.DecodedUintIff | common/rlp/decode.go:742-773 | an integer is decoded if and only if the input starts with its canonical encoding and it is within the bound |
| RlpStream.Stream.DecodeInterface | common/rlp/decode.go:517-539 | inside any stack of limits, with or without a cached header: the item that the slice reader sees, if it ends within the limits, and the exact rest and limits |
| RlpStream.Stream.DecodeListSlice | common/rlp/decode.go:297-310 | decodes if and only if the next header is a list whose content is a sequence of encodings, and consumes exactly that |
| RlpStream.Stream.DecodeSliceElems | common/rlp/decode.go:312-339 | the element loop reads exactly the items of the window given by the limit, and fails for every other window |
| RlpStream.ElementRead | common/rlp/decode.go:796-815 | an element longer than the limit leaves a wrapped limit larger than all input that is left, so the list is never closed; otherwise the loop goes on in the rest of the window |
| RlpStream.WindowParse | common/rlp/decode.go:1179-1184 | reading within a limit is reading the slice that the limit cuts out |
| RlpStream.DecodeBytes | common/rlp/decode.go:92-106 | both directions at once: what is decoded encodes back to exactly the input, and every encoding is decoded to its item |
| Jacobian.DoubleJacobian | crypto/secp256k1/elliptic.go:175-229 | for any point, infinity and y = 0 included, the result represents the affine double; the a = -3 shortcut and the general formula alike |
| Jacobian.AddJacobian | crypto/secp256k1/elliptic.go:91-165 | for any two points of the curve, infinite, equal or opposite ones included, the result represents the affine sum |
| Jacobian.AffineFromJacobian | crypto/secp256k1/elliptic.go:66-80 | gives back the coordinates of the represented point, and (0, 0) for infinity |
| Group.PlusOnCurve | crypto/secp256k1/elliptic.go:83-87 | sums of points of the curve are on the curve |
| Group.AddPoints | crypto/secp256k1/elliptic.go:83-87 | Add gives the coordinates of the affine sum |
| Group.ScalarMult | crypto/secp256k1/elliptic.go:232-247 | for every byte string, the multiple by its big-endian value |
| Group.ScalarBytes | crypto/secp256k1/elliptic.go:232-247 | leading zero bytes do not matter, and scalars that agree modulo N give the same point |
| Group.TimesCong | crypto/secp256k1/elliptic.go:232-247 | multiples depend on the scalar modulo N only |
| Ecdsa.LeftmostBits | crypto/secp256k1/ecdsa.go:67-80 | the number of any hash is the whole hash shifted right by the bits that it has more than the order, if any; crypto/signecdsa.go:70-83 is the same code |
| Ecdsa.HashInjective | crypto/secp256k1/ecdsa.go:67-80 | two hashes of one length that fit the order have different numbers |
| Ecdsa.Sign | crypto/secp256k1/ecdsa.go:145-191 | the result is a signature with the first nonce that gives nonzero r and s; if there is none, every nonce was unusable |
| Ecdsa.FirstOnce | crypto/secp256k1/ecdsa.go:145-191 | there is at most one signature with the first usable nonce, and further nonces do not change it |
| Ecdsa.RejectedIff | crypto/secp256k1/ecdsa.go:145-191 | a nonce makes no signature exactly if r is 0 or e + d r is 0 modulo N |
| Ecdsa.FlipSignature | crypto/secp256k1/ecdsa.go:283-306 | replacing s by N - s and flipping the recovery id gives a signature with the opposite nonce (low S, EIP-2) |
| Ecdsa.NoOrderTwo | crypto/secp256k1/ecdsa_recover.go:96-128 | no point of the curve has ordinate 0, so the zero test only refuses abscissa 0 and infinity |
| Ecdsa.Verify | crypto/secp256k1/ecdsa.go:218-248 | accepts if and only if r and s are in range and the ECDSA equation holds |
| Ecdsa.SignedIsValid | crypto/secp256k1/ecdsa.go:218-248 | every signature, flipped or not, satisfies the equation for the signer's public key |
| Recover.SignBytes | crypto/secp256k1/ecdsa.go:283-306 | the bytes hold the signature of the first usable nonce, reflected exactly if asked for and s is above half the order, and are a signature of the hash |
| Recover.LoweredIs | crypto/secp256k1/ecdsa.go:283-306 | without the flag or with a low s nothing changes; otherwise s becomes N - s and only the parity in v turns |
| Recover.SigParts | crypto/secp256k1/ecdsa.go:332-350 | r, s and v are taken from the first part, the second part and the last byte |
| Recover.ComputePointFromX | crypto/secp256k1/ecdsa_recover.go:75-94 | finds the point with the abscissa and parity that the recovery id asks for, if and only if one is on the curve; ids 2 and 3 add N |
| Recover.KeyOfSignature | crypto/secp256k1/ecdsa_recover.go:96-128 | the recovery formula at the nonce point gives the signer's public key |
| Recover.KeyIsSigner | crypto/secp256k1/ecdsa_recover.go:96-128 | conversely, any recovered point belongs to a key that can have made the signature |
| Recover.RecoverPubkey | crypto/secp256k1/ecdsa_recover.go:16-73 | returns Q exactly when the bytes are a signature of the hash by the key of Q, also for x >= N; only a key with a zero abscissa is refused |
| Recover.TrySecret | crypto/signecdsa.go:22-46 | refuses a secret exactly if r or s is 0; r is the abscissa, s is low and s k = e + d r modulo N with the parity of the nonce point in v, or s and v are turned over; a signature if and only if r < N |
| Recover.SignRfc6979 | crypto/signecdsa.go:18-49 | the first candidate in range that gives nonzero r and s is taken, with s low; the result is a signature if and only if its nonce point's abscissa is below N |
| Recover.SignRfc6979Bytes | crypto/signecdsa.go:52-59 | the 65 bytes hold that r, s and v, and are a signature under exactly that condition |
| Recover.FirstUsableOnce | crypto/signecdsa.go:18-49 | there is at most one first usable candidate, and further candidates do not change it |
| Recover.UnusableIsRejected | crypto/signecdsa.go:22-46 | for an abscissa below N, the secrets refused are the nonces with which no signature can be made |
| SmallCurve.NoSignature | crypto/signecdsa.go:18-59 | on a curve with an abscissa above N the signer makes, for every hash, bytes that are no signature |
| Recover.RecoverAndVerify | crypto/secp256k1/ecdsa_recover.go:16-73 | from any signature bytes the signer's public key is recovered, and it verifies them |
| Recover.RecoverSigned | crypto/secp256k1/ecdsa.go:283-306 | recovery inverts SignBytes, with or without the low S, and the recovered key verifies |
| Recover.RecoverRfc6979 | crypto/signecdsa.go:52-59 | recovery inverts the RFC 6979 signer whenever the abscissa is below N |
| FastMap.MapBuilder.Alloc | address/fastmap.go:103-122 | the new nodes are exactly the next positions of the store laid end to end, whether the block had room or not; no earlier node moves |
| FastMap.MapBuilder.Store | address/fastmap.go:65-80 | a write through a pointer changes one position of the store laid end to end |
| FastMap.MapBuilder.MakeByteValue | address/fastmap.go:65-90 | the node answers every key with its prefix as the map does, touching no other existing node; it fails if and only if some prefix below is followed by bytes 0 and 255 |
| FastMap.WalkFrame | address/fastmap.go:65-90 | building elsewhere does not change what a finished subtree answers |
| FastMap.ObjectBuild | address/fastmap.go:48-61 | succeeds if and only if no prefix is followed by bytes 0 and 255; a store of at most 2^32 nodes then answers every string as the map does |
| FastMap.WideKeys | address/fastmap.go:75-78 | two keys on which the build fails |
| FastMap.NewAddressMemStore | address/fastmap.go:37-43 | the same, also without keys |
| FastMap.LookupString | address/fastmap.go:125-139 | the value and true for a key, null and false for any other string |
| Pool.Manager.PreLoadAddresses | address/address.go:134-152 | the state is that of reading the rows in order: the last row of every address is loaded and indexed; the free map is the unsubscribed records if and only if no address has a free row and a subscribed last one |
| PoolState.StaleFreeRow | address/address.go:134-152 | two rows, under different keys, with which it is not |
| Pool.Manager.UpdatePool | address/poolupdate.go:6-12 | the index is the full map |
| Pool.Manager.AddAddressUnsafe | address/api.go:224-231 | the record is in memory, in place of any other of its address, among the free ones if unsubscribed, and in storage if the row is accepted; nothing else changes. The pool is left valid if and only if no free record made way for a subscribed one |
| Pool.Manager.AddAddressRecord | address/api.go:99-109 | nothing for an indexed address; otherwise the same, so that another record of that address in memory is replaced if and only if it is not indexed |
| Pool.SingleReplaces | address/api.go:99-109 | an addition before the index is rebuilt that replaces a record, and leaves the old one to be handed out if the new one is subscribed |
| Pool.Manager.AddFromBatch | address/api.go:64-79 | a record is added, and saved if accepted, exactly if it is not null, blank, in memory or seen in storage |
| Pool.Manager.AddAddressRecordsBulk | address/api.go:58-81 | the whole new state, storage included, is that of adding the records one by one up to the first refused row; records in memory stay the same objects |
| PoolState.BulkMemory | address/api.go:54-57 | a batch changes no record in memory, brings in only its own records, and keeps the pool coherent |
| PoolState.BulkRow | address/api.go:54-57 | for every key: a row under which no record of the batch is written stays as it was, and none is written under a row that can be seen; otherwise the row is one of the batch |
| PoolState.BulkReplaces | address/api.go:71-78 | for every batch, told from the state before it: the batch succeeds if and only if the rows of all chosen records are accepted, and a key is written if and only if an accepted chosen record has it; chosen are the new records whose predecessors leave them room |
| PoolState.DistinctReplaces | address/api.go:71-78 | for new, distinct, accepted records: a stored row is written over if and only if it cannot be seen and some record has its key |
| PoolState.NewStored | address/api.go:224-231 | a record new in memory is in storage if its row was accepted, and is what can be read back |
| PoolState.BulkComplete | address/api.go:58-81 | on success every named address is in memory or its row is in storage |
| Pool.BlankRow | address/api.go:88-97 | a stored row with a blank address is written over |
| Pool.Manager.UpdateAddressUnsafe | address/api.go:200-219 | changes the indexed record, moves it in or out of the free map and saves it; without an index entry nothing changes |
| PoolState.HandoutFields | address/api.go:43-48 | the record and, if accepted, the row of a handout have the requested service, user, invoice and watch-only mark and are subscribed; every other record and row stays, and the address leaves the free ones |
| Pool.Manager.GetFreeAddressAndSubscribe | address/api.go:33-52 | nothing exactly if no address is free; otherwise a free record, with the requested fields, subscribed, saved and taken from the free map if the index has it, and left untouched if not; every other record and row stays |
| Pool.Manager.RefillFreeAddressPool | address/fillpool.go:34-62 | the whole new state: the generated records are free and saved, up to the amount, to the first failure of generation, or to the first refused row |
| PoolState.RefillAdds | address/fillpool.go:34-62 | the records added are the first generated ones, up to the amount, the keys or the first refused row: free, with their address and bytes and nothing else set; their accepted rows are stored as they are in memory, and every other record and row stays |
| PoolState.RefillFills | address/fillpool.go:34-62 | when every row is accepted, the free addresses grow by the amount, as far as keys are generated |
| PoolState.RefillKeeps | address/fillpool.go:34-62 | records in memory stay as they are, and the pool stays coherent |
| Pool.Manager.CountFree | address/fillpool.go:8-17 | the count over the full map is the size of the free map |
| Pool.Manager.CheckFreeAddressPool | address/fillpool.go:8-29 | the whole new state: a refill of what is missing exactly if the pool is empty or short, and no change otherwise |
| PoolState.CheckedFills | address/fillpool.go:22-28 | a pool found short ends with the configured number of free addresses |
| PoolState.CheckedLeaves | address/fillpool.go:18-28 | a check changes nothing if and only if it is off, the pool is neither empty nor short, or there is nothing to add |
| Pool.Manager.Step | address/api.go:33-81 | every call is one step of the pool as a value, with what the request was given; the record given while indexed has the fields of the request |
| PoolState.StepKeeps | address/api.go:33-81 | every step keeps the pool coherent and every subscription, and gives out only unsubscribed addresses |
| Pool.Manager.Run | address/manager.go:71-79 | any sequence of calls is a run of the pool as a value, ending in the actual state, and what its requests were given has no address again that was given while indexed |
| PoolState.HandedOnce | address/api.go:33-52 | over any run: an address handed out while the index contains it is never handed out again |
| PoolState.HandedOnceStored | address/api.go:33-52 | the same over runs with starts anywhere, if the row of the handout was accepted and address bytes determine the address |
| PoolState.BackAfterRestart | address/api.go:43-51 | a start brings a handed-out address back as free if and only if its row was refused and the stored one is free |
| PoolState.RefusedHandedTwice | address/api.go:43-51 | with a refused row, one address is handed out before and after a start |
| PoolState.RestartedAt | address/address.go:134-152 | after a start, memory holds of an address the row stored under its bytes, and it is free if that row is |
| Pool.LaggingIndex | address/api.go:33-52 | one address handed out twice when the index has not been rebuilt |
| Pool.CurrentIndex | address/api.go:33-52 | with the rebuild the second request finds no free address |
| Base58.Alphabet | common/base58/alphabet.go:11-11 | the 58 symbols in order, and the table that inverts them |
| Base58.EncodedValue | common/base58/base58.go:49-75 | an encoding is a 1 for every leading zero byte and then, first digit leading, the same number in base 58 |
| Base58.Encode | common/base58/base58.go:49-75 | the loop and the reversal in place give the digits in base 58 after one 1 for every leading zero byte |
| Base58.Decode | common/base58/base58.go:17-46 | reads the number and the leading ones; empty for a character outside the alphabet |
| Base58.DecodeEncode | common/base58/base58.go:17-75 | decoding an encoding gives back the bytes, leading zeros included |
| Base58.EncodeDecode | common/base58/base58.go:17-75 | encoding what a valid string decodes to gives back the string |
| Bip32.CompressPublicKey | common/bip32/utils.go:127-141 | the parity tag and the abscissa in 32 bytes |
| Bip32.ExpandPublicKey | common/bip32/utils.go:144-167 | gives back the point that was compressed |
| Bip32.UnmarshalCompressed | crypto/secp256k1/elliptic.go:273-299 | returns (x, y) if and only if the data is the compressed form of that point of the curve |
| Bip32.CompressInjective | common/bip32/utils.go:127-167 | no two points of the curve have the same compressed form |
| Bip32.AddPublicKeys | common/bip32/utils.go:104-108 | the compressed sum of the two points |
| Bip32.NewChildKey | common/bip32/bip32.go:95-149 | the child that the code derives, with the fields of `ChildFields`, and each of its errors, for hardened and other indices; it is the child of BIP-32, or neither exists, if and only if `Standard` holds |
| Bip32.WhatIsHashed | common/bip32/bip32.go:151-175 | the HMAC is taken of exactly these 37 bytes: zero and the private key for a hardened index, else the compressed public point; then the index, big-endian in four bytes |
| Bip32.ChildFields | common/bip32/bip32.go:107-146 | every child, of the code or of BIP-32: version, index, depth, the fingerprint of the parent's compressed point, the right half of that HMAC as chain code, and the key that its left half gives |
| Bip32.DerivesAsBip32 | common/bip32/bip32.go:116-145 | the code agrees with BIP-32 if and only if: on the private side IL < N or IL plus the key is 0 modulo N; on the public side, for IL >= N, IL G has no nonzero abscissa, and below N, IL is not 0 and IL G has abscissa 0 exactly if the sum is infinity |
| Bip32.OrderAccepted | common/bip32/utils.go:169-177 | with IL = N, which fits 32 bytes, every private key has a child in the code, with the parent's key, and none in BIP-32 |
| Bip32.InfinityAccepted | common/bip32/utils.go:179-187 | for every public key k G with nonzero abscissa, IL = N - k makes the sum infinity, and the code returns a key with abscissa 0 |
| Bip32.ZeroRefused | common/bip32/utils.go:179-187 | with IL = 0 the code refuses the child of every public key, which in BIP-32 has the parent's point |
| Bip32.NeuterDerived | common/bip32/bip32.go:95-195 | in BIP-32 itself deriving and neutering commute without exception, up to which indices are invalid |
| Bip32.KeySum | common/bip32/utils.go:100-125 | adding private keys modulo N and then taking the public key is adding the public keys |
| Bip32.NeuterSame | common/bip32/bip32.go:151-195 | a key and its public key derive from the same HMAC input for a non-hardened index |
| Bip32.NeuterCommutes | common/bip32/bip32.go:95-195 | for a non-hardened index the public key of the private child is the child of the public key in all fields, where both exist; and exactly when each of them exists |
| Bip32.Layout | common/bip32/bip32.go:198-222 | the position of every field in the 82 bytes |
| Bip32.DeserializeSerialize | common/bip32/bip32.go:198-271 | every well-formed key is read back from its 82 bytes |
| Bip32.SerializeDeserialize | common/bip32/bip32.go:198-271 | every accepted byte string is the serialisation of the key it gives |
| Bip32.B58RoundTrip | common/bip32/bip32.go:224-280 | the same through Base58 |
| Bip32.B58Serialize | common/bip32/bip32.go:224-231 | the Base58 form of the 82 bytes |
| Bip32.B58Deserialize | common/bip32/bip32.go:274-280 | accepts the printed form of every well-formed key, and only strings whose bytes are a serialisation |
| Mnemonic.AddChecksum | common/bip39/bip39.go:267-291 | the shifted-in bits make entropy times 2^cs plus the leading cs bits of the checksum byte |
| Mnemonic.NewMnemonic | common/bip39/bip39.go:170-212 | the words of the sentence for 16 to 32 bytes in steps of 4, an error otherwise |
| Mnemonic.EntropyFromMnemonic | common/bip39/bip39.go:115-165 | the entropy for 12 to 24 known words in steps of 3 with a matching checksum, an error otherwise |
| Mnemonic.SentenceBits | common/bip39/bip39.go:170-212 | the bits of a sentence, eleven for a word, are those of the entropy and then the first ones of the checksum byte, one for every four bytes |
| Mnemonic.EntropyOfSentence | common/bip39/bip39.go:115-212 | the sentence of an entropy decodes to it |
| Mnemonic.SentenceOfEntropy | common/bip39/bip39.go:115-212 | a sentence that decodes is the sentence of what it decodes to |
| Mnemonic.SetWordList | common/bip39/bip39.go:77-84 | the word index inverts the list |
| SeedPhrase.BytesToBitArray | common/seedphrase/common.go:88-97 | the eight bits of every byte in order |
| SeedPhrase.BitArrayToBytes | common/seedphrase/common.go:100-111 | the bytes of a whole number of octets |
| SeedPhrase.Uint16ToBitArray | common/seedphrase/common.go:35-42 | the sixteen bits of an index |
| SeedPhrase.SignedBitsValue | common/seedphrase/common.go:45-57 | data and checksum bits are, as a number, what common/bip39 builds |
| SeedPhrase.ValidateChecksumBits | common/seedphrase/common.go:60-79 | accepts if and only if the last bits are the first bits of the checksum byte of the data; panics if there are more than eight |
| SeedPhrase.Bytes2Mnemonic | common/seedphrase/bytes2mnemonic.go:8-30 | the same words and the same refusals as NewMnemonic |
| SeedPhrase.Mnemonic2Bytes | common/seedphrase/mnemonic2bytes.go:3-21 | the outcome for every list of words: entropy, error or panic |
| SeedPhrase.ChecksumAgrees | common/seedphrase/common.go:30-79 | the bit arrays accept a sentence and extract its data exactly as the big integers do |
| SeedPhrase.AgreeExactly | common/seedphrase/common.go:20-28 | the two decoders agree on all sentences of n words if and only if n is 12, 15, 18, 21 or 24 or one both refuse |
| SeedPhrase.MnemonicRoundTrip | common/seedphrase/mnemonic2bytes.go:3-21 | either decoder returns an entropy of standard size if and only if the words are its sentence |
| Subscriptions.NewReport | subscriptions/event_transaction.go:33-40 | a first report is stored as reported and not ignored, and queued as stored, with count 0 exactly if it is in the memory pool and 1 otherwise; nothing happens if the save is refused |
| Subscriptions.LeavesPool | subscriptions/event_transaction.go:49-66 | a transaction that leaves the pool: block number and timestamp as reported, out of the pool, all other fields as stored, count 1; a refused save loses the record but not the notification |
| Subscriptions.OtherReports | subscriptions/event_transaction.go:44-62 | every other report changes nothing, and none touches another transaction |
| Subscriptions.Manager.TransactionEventProcess | subscriptions/event_transaction.go:20-71 | one transaction event: the new store, and the notification queued for each transaction |
| Subscriptions.Manager.SearchTransactionsBeforeBlock | subscriptions/transactionstorage.go:34-47 | exactly the unconfirmed records in blocks below, each once |
| Subscriptions.Manager.SearchTransactionsAfterBlock | subscriptions/transactionstorage.go:50-63 | exactly the unconfirmed records in blocks above, each once |
| Subscriptions.Manager.BlockEvent | subscriptions/event_block.go:16-66 | one block event: the new store, and at most one notification for each transaction |
| Subscriptions.AtBlock | subscriptions/event_block.go:16-66 | at a block only the confirmed flag can change, exactly for a waiting record below the bound whose save is accepted; which records get a notification, with the record as it then is and which count |
| Subscriptions.Manager.EventLoop | subscriptions/event_process.go:5-10 | any sequence of events leaves the store and the queue of the specified run |
| Subscriptions.ConfirmedOnce | subscriptions/event_block.go:16-66 | over any run, also with failing writes: InPool falls at most once, Confirmed rises at most once, and one confirmed notification is queued exactly if it rises and the record is not ignored |
| Subscriptions.RunForward | subscriptions/event_transaction.go:20-71 | records are never lost, return to the pool or lose their confirmation |
| Subscriptions.Lifecycle | subscriptions/event_block.go:16-66 | with consecutive blocks and any transaction events in between, the counts queued are 1, 2, ... min - 1 and then one confirmed with count min |
| Subscriptions.LaterBlocks | subscriptions/event_block.go:16-66 | the same from the block of the transaction on, with the record after every block |
| Watchdog.Service.ProcessTx | watchdog/processtx.go:11-35 | pushes one event for a transaction that involves a known address, also if both sides are known, and none otherwise; it fails exactly if the process stops first |
| Watchdog.Service.ProcessBlock | watchdog/processblock.go:7-32 | pushes exactly the block event and then those of the transactions, or as many of them as the process lives for |
| Watchdog.Service.ProcessMemPool | watchdog/processmempool.go:10-24 | pushes exactly the events of the successful transactions of the pool that involve a known address, or as many as the process lives for |
| Watchdog.Service.CatchUp | watchdog/runloop.go:47-59 | performs exactly the pushes of every missed block in order, with a save after each, or as many of them as the process lives for |
| Watchdog.Service.RunLoop | watchdog/runloop.go:11-78 | for any answers of the node: performs exactly the first pushes and saves of the plan of the run, as many as the process lives for, and is complete if and only if that is all of them; a complete run pushes every event exactly as often as `PlanIsComplete` says, and none is ever pushed more often |
| Watchdog.PlanIsComplete | watchdog/runloop.go:19-75 | a whole run pushes each transaction that involves a known address as often as it is among the successful ones of the polled pools and in the blocks after the start, other transactions never, and each of these blocks once |
| Watchdog.PoolFirst | watchdog/runloop.go:31-62 | a turn pushes the transactions of its pool before its blocks |
| Watchdog.InOrder | watchdog/processmempool.go:10-24 | transactions are pushed in the order in which they are listed |
| Watchdog.Service.Restarts | watchdog/runloop.go:11-78 | any number of runs leaves exactly what the cut plans leave, each made from the number that the one before persisted |
| Watchdog.PlanIsSafe | watchdog/runloop.go:11-78 | every part of a plan pushes the numbers after the start, in order and without repeats, and everything up to the persisted number is complete; a whole plan reaches the greatest height and persists the last; while the height does not fall, at most one of the blocks pushed is not persisted |
| Watchdog.NoneSkipped | watchdog/runloop.go:11-78 | over any number of restarts, also after the height has gone down, every block in (start, persisted number] has been pushed with all its transactions |
| Amounts.RoundTrip | endpoint/methods_transfers.go:342-377 | parsing a printed amount gives it back if and only if it is not negative or has at least as many digits as decimals |
| Amounts.Printed | endpoint/methods_transfers.go:370-377 | a printed amount has one point and exactly as many characters behind it as decimals; its digits are those of the amount, with no needless leading zero |
| Amounts.DigitChars | endpoint/methods_transfers.go:364-377 | the ten digits in order |
| Amounts.SqueezeOne | endpoint/methods_transfers.go:344-346 | a comma becomes a point, a blank and a tab go, every other character stays |
| Amounts.SqueezeParts | endpoint/methods_transfers.go:344-346 | and each character by itself |
| Amounts.TrimQuotes | endpoint/methods_transfers.go:343-343 | all quotes at both ends go, and none inside |
| Amounts.LostSign | endpoint/methods_transfers.go:370-377 | minus five units with two decimals are not read back |
| Amounts.ParseNumeral | endpoint/methods_transfers.go:342-368 | hi.lo, however quoted, spaced, signed or with a comma, is the value times 10^decimals, truncated toward zero |
| Amounts.ParseWhole | endpoint/methods_transfers.go:360-368 | a numeral without a point is the integer times 10^decimals |
| Amounts.TailIgnored | endpoint/methods_transfers.go:354-358 | characters past the last decimal do not change the result |
| Amounts.Accepted | endpoint/methods_transfers.go:342-368 | exactly which strings are accepted |

## Left out

- Assumptions about the curve, stated once in `Group.GroupLaw`: P and N are odd primes, point addition is associative,
  and G generates all points of the curve, N in number. Closure, inverses and multiples are proved. That these
  assumptions, and those on sizes, can hold together is `SmallCurve.Assumptions`; that they hold of secp256k1 is not
  proved.
- math/big: inverses and square roots modulo a prime are specified by what they return (`Field.ModInverse`,
  `Field.ModSqrt`); `fermatInverse` is the same inverse. Exp and the word layout are not modelled, except in
  `WriteBigInt`.
- Termination of the nonce loops with a random source: the nonces are a finite sequence, and running out of it is a result.
- `RecoverPubkey` looks its curve up by name; here the curve is a parameter, and the named NIST curves are covered
  only as far as they are Weierstrass curves of prime order. ASN.1 signatures are not modelled.
- Reflection, type caches, struct tags, optional fields, pointers, booleans, arrays and uint256 in common/rlp: items stand for Go values.
- Buffer pooling and the reuse of slices that alias the encoder's buffer: pieces are values.
- `Stream` over an unlimited io.Reader, `Raw`, `ReadBytes` and `NewListStream`: the decoder is modelled on byte slices.
- Error values of `Stream` beyond the end-of-list error: which of the other errors is returned is not stated.
- `NewMasterKey`, seeds, BIP-44 paths and the key stretching of mnemonics: compositions of hashes.
- Splitting and joining a sentence at spaces, and the word list itself: a sentence is a sequence of words, and the list any 2048 distinct ones.
- Sorting the keys (sort.Strings) and the order of the query results (SortBy): a sorted list is given, and the lists are in any order.
- The fast index is a map in `Pool.dfy`; that the trie answers as that map does is `FastMap.LookupString`.
- `AddPrivateKey` and the other single additions come down to the steps of `AddAddressRecord`. None of them is a step of
  a run (`PoolState.Op`), because it can leave the pool invalid.
- Locks and goroutines of the pool: every method is one step, and rebuilding the index is a step of its own. The
  private key and mnemonic of a record are not modelled.
- Failing reads in the subscription events: a record that cannot be read (event_transaction.go:41-43) and a failing first
  query (event_block.go:23-27) end the event with nothing done; a failing second query (event_block.go:44-48) leaves what
  the model has for a block in which no write is accepted. `Subscriptions.Event` has no such failures.
- The notification has no chain-specific data; that of the model carries the whole record.
- Delivery of notifications, subscriptions and fund gathering; events whose amount or fee is null.
- Error paths of `runLoop`, which leave its mutex locked or unlock it twice, and the override of the start block.
- Configuration, HTTP and JSON-RPC, storage back ends, logging, `abi`, `hexnum`, `txcache`, `base58check.go`.
- Ecdsa.Verify: assumes that the public key is on the curve, which the source does not check; for any other pair the
  formulas add points of different curves.
- Bip32.NewChildKey: assumes a well-formed key: a private key below N or a public key on the curve. `Deserialize`
  does not check this, and what derivation does with any other key is not described.
- Watchdog.NoneSkipped: the contents of a block and the set of known addresses stay the same over all restarts,
  so reorganisations of the chain and addresses added in between are not covered.
- A refill in a run (`PoolState.Stepped`) whose generated keys are not new is skipped.
- Negative numbers of decimals, on which strings.Repeat panics; token decimals are never negative.
- SeedPhrase.BitArrayToBytes: requires whole octets, because the source would index out of range otherwise; all its callers check this.
- FastMap.ObjectBuild: says nothing about a store of more than 2^32 nodes, where nextLo no longer names a node.
- Pool.Manager.RefillFreeAddressPool: assumes that generated addresses are new, as keys drawn at random are.
- Recover.SignRfc6979: does not describe how the secrets are generated.
