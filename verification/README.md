# A verified model of the gateway's SRTP data path

This project models, in Dafny 4.11, the part of a WebRTC-to-IMS media gateway where state,
arithmetic and branching are hardest: the bundled libSRTP, which protects RTP and RTCP packets as
RFC 3711 describes, and the gateway's own base64 codec and message framing.  Each operation is
written in the form its source has: contexts, databases, streams and sessions are classes whose
fields and arrays are updated in place, and the in-place code is proved against functions on
values; the theorems are lemmas about those functions, over all inputs or all runs.

`dafny verify dfyconfig.toml` checks everything.

## How it is built

| layer | files | what is proved |
|---|---|---|
| bits and octets | `Bits`, `BitVector`, `Bytes`, `Sequences`, `Status` | word shifts are sequence shifts; octets, blocks, network byte order |
| replay databases | `Rdbx`, `Rdb` | both bitmask windows are fast forms of the set of accepted indices, over whole runs; how an index is recovered from 16 bits |
| keys and ciphers | `KeyLimit`, `Icm`, `KeyDerivation`, `AesSpec`, `Aes`, `AesCounter`, `Cbc` | key lifetime; counter mode as an offset into one keystream, however the data is divided; label separation; AES inversion through the equivalent inverse cipher; AES under counter mode; padded CBC |
| authentication | `Sha1`, `Sha1Vector`, `Sha1Context`, `Hmac` | streaming SHA-1 and HMAC equal their definitions for every split of the input; the definition of SHA-1 gives the published digest of "abc" |
| packets | `Packets`, `PacketLayout`, `PacketBuffers` | round trip of one packet; what it is octet by octet, and what its tag covers; the in-place work on buffers |
| sessions as values | `SrtpSteps`, `SrtpStreams` | the four calls as steps of a state machine; what each step does to the streams |
| runs | `SrtpRuns`, `SrtpKeystream`, `SrtpSenders`, `SrtcpKeystream`, `SrtpDelivery`, `SrtcpDelivery`, `SrtpEvents` | when keystream is reused and when not; end-to-end delivery; collisions, directions and key limits |
| sessions in memory | `SrtpSession` | linked streams, shared pointers, creation, the four calls in place, deallocation: each call does what its step says, and nothing leaks |
| gateway | `Base64`, `Framing` | round trips, the second against an adversarial `recv` |

A run theorem about `SrtpSteps` holds of the code because `Session.Protect`, `Session.Unprotect`,
`Session.ProtectRtcp` and `Session.UnprotectRtcp` are proved to return the outcome of the step of the
same name on the session's abstract state, and `Session.ServeAll` carries that over any list of calls.

The block cipher under a key is a function on blocks in `Icm`, `Packets` and everything above, so the
results hold for every cipher; `Aes` supplies the real one, and `AesCounter` puts the two together.  SHA-1 and HMAC are modelled completely.
The AES tables are derived from an S-box pair of which only mutual inversion is assumed.

Round trips alone do not fix a format: two ends that make the same mistake still agree.  So every format
is also stated octet by octet with the numbers of its standard, apart from the functions that build it:
cipher input blocks, keystream positions, tag coverage and header fields in `PacketLayout`, the block
counter in `CounterMode`, the labels in `KeyDerivation`, the key schedule and rounds of AES in `Aes` and
`AesSpec`, the words and rounds of SHA-1 in `Sha1Spec` and `Sha1Vector`, the pads of HMAC, the chaining
of CBC, the base64 alphabet and the length field of frames.

## Where the code differs from what is said about it

* `index_guess` (include/libsrtp/rdbx.c:111-121) documents its result as guess minus local index.  In the
  branch for a packet that is late across a rollover (include/libsrtp/rdbx.c:146-148) it returns the
  positive distance.  `DeltaIsDifferenceIff` gives the exact condition, `LateDeltaHasWrongSign` a
  concrete input, and `RepeatRefusedIff` the consequence: an index accepted before is refused by the
  replay check if and only if the packet is not late across a rollover.  The delivery theorems follow
  the code through that branch: a late packet is accepted in any case, and enters the index as far
  ahead of the highest one as the packet is behind it (`Took`).  `HandedOutTwice` is a run in which a
  packet is accepted twice, `LateRepeatReuses` one in which keystream is used twice.
* `key_limit_update` wraps to 2^64 - 1 after the hard limit (include/libsrtp/key.c:95).  The calls never
  ask `key_limit_check`, so `HardLimitStopsOneUse`: the n-th use is refused if and only if n is the limit.
* `rdb_increment` tests the old value (include/libsrtp/rdb.c:129), so index 2^31 is given out once;
  `IncrementCounts` counts exactly.  The receiver reads that index as 0 with the encryption bit set, also
  for a packet sent in the clear, and runs a keystream over it (`RtcpIndexReadsBackIff`, `LastIndexCollides`).
* `rdb_check` adds 128 to the start of the window in 32 bits (include/libsrtp/rdb.c:76); `CheckWrapsIff` says when
  that matters, `ChecksDoNotWrap` how long it does not.
* The gateway allows repeated transmissions (src/rtpconverter.cpp:39-66), which encrypt again under the same
  index.  `ReuseIffRepeat` states by the guard of that branch when keystream is reused, and
  `CountingNeverReuses` that a sender which counts its sequence numbers up is safe under every policy.
* Without message authentication `srtp_unprotect` still cuts off the tag length
  (include/libsrtp/srtp.c:1225); `OpenSeal` states exactly when a packet comes back.
* `srtp_create` with a bad window size or repeat flag frees the stream record but not the five blocks
  it points to (include/libsrtp/srtp.c:1369-1374); `Session.Create` states the count.
* The segment check of counter mode adds in 32 bits (include/libsrtp/aes_icm.c:346); `EveryDivisionFitsIff`
  says when a call that passes can be divided into any number of calls that pass.
* `octet_string_set_to_zero` clears one octet even for length 0 (include/libsrtp/datatypes.c:519-526), so
  `srtp_protect_rtcp` needs one octet of room behind the trailer also when tags are empty.
* `aes_expand_decryption_key` reads `num_rounds` before it is set (include/libsrtp/aes.c:1502); `ExpandDecryption`
  states the result in terms of what it held, and that a new record keeps the schedule for encryption.

## Model

| member | source | states |
|---|---|---|
| BitVectors.ShiftedTwice | include/libsrtp/datatypes.c:480-506 | shifting by a and then by b is shifting by a + b, for vectors of any length |
| BitVectors.ShiftedWordBit | include/libsrtp/datatypes.c:492-500 | each bit of a word put together from two shifted words is the bit `shift` places on, or clear past the end |
| BitVectors.BitVector.Alloc | include/libsrtp/datatypes.c:415-440 | the length is rounded up to whole words and every bit is clear |
| BitVectors.BitVector.GetBit | include/libsrtp/datatypes.h:447-450 | the masked word holds exactly the addressed bit |
| BitVectors.BitVector.SetBit | include/libsrtp/datatypes.h:453-456 | one bit is set and all others keep their value |
| BitVectors.BitVector.LeftShift | include/libsrtp/datatypes.c:480-506 | in place, for every shift and length: new bit j is old bit j + shift, or clear past the end; the 128-bit shift is the case of four words |
| ReplayExtended.EstimateLocates | include/libsrtp/rdbx.c:123-173 | the guess has the packet's 16 bits, lies within 2^15 of the index, and the returned difference is guess - index except late across a rollover, where it is the opposite |
| ReplayExtended.GuessIsNearIff | include/libsrtp/rdbx.c:123-173 | the condition of the lemmas around it is exact: the guess lies near a 48-bit index if and only if it need not be carried beyond 48 bits |
| ReplayExtended.EstimateIsClosest | include/libsrtp/rdbx.c:319-352 | no index with the same low 16 bits is closer to the local index than the guess |
| ReplayExtended.EstimateRecovers | include/libsrtp/rdbx.c:319-352 | every true 48-bit index less than 2^15 away is recovered from its low 16 bits |
| ReplayExtended.GuessIs48Bit | include/libsrtp/rdbx.c:162-170 | the guess always fits 48 bits, for every local index |
| ReplayExtended.DeltaIsDifferenceIff | include/libsrtp/rdbx.c:111-173 | the documented result is returned if and only if the packet is not late across a rollover |
| ReplayExtended.LateDeltaHasWrongSign | include/libsrtp/rdbx.c:146-148 | a concrete index and sequence number for which the documented result is not returned |
| ReplayExtended.CheckIsMembership | include/libsrtp/rdbx.c:263-282 | the check passes exactly the positions inside the window that are not in the accepted set, and its two errors mean accepted before and too old |
| ReplayExtended.AddKeepsSet | include/libsrtp/rdbx.c:290-306 | adding a position makes the window stand for the set with that position added, for forward and backward moves |
| ReplayExtended.RunRefinesSet | include/libsrtp/rdbx.c:263-306 | over any run of check-then-add the window stands for the set of all accepted positions, and no position is accepted twice |
| ReplayExtended.ReplayProtection | include/libsrtp/rdbx.c:185-306 | from a new database, any run: accepted positions are distinct and at most the index, and the next check passes exactly the ones neither accepted nor older than the window |
| ReplayExtended.Rdbx.Init | include/libsrtp/rdbx.c:185-197 | size 0 is refused, otherwise an empty window of whole words |
| ReplayExtended.Rdbx.Check | include/libsrtp/rdbx.c:263-282 | answers what the window function answers, without changing anything |
| ReplayExtended.Rdbx.AddIndex | include/libsrtp/rdbx.c:290-306 | index and bitmask move as the window function says, shift and bit set in place |
| ReplayDatabase.CheckIsMembership | include/libsrtp/rdb.c:72-93 | passes exactly the indices not below the window that were not accepted; the errors mean accepted and too old |
| ReplayDatabase.CheckWrapsIff | include/libsrtp/rdb.c:72-93 | the check with its sum taken in 32 bits agrees with the one above on all indices if and only if the end of the window has 32 bits |
| ReplayDatabase.AddKeepsSet | include/libsrtp/rdb.c:100-124 | the window stands for the set with the index added, and its start never decreases |
| ReplayDatabase.WindowAfter | include/libsrtp/rdb.c:72-124 | behind a new highest index, 127 older ones are inside the window and all others too old |
| ReplayDatabase.RunRefinesSet | include/libsrtp/rdb.c:72-124 | over any run of check-then-add with 31-bit indices the 128 bits stand for the accepted set, the start only grows, and nothing passes twice |
| ReplayDatabase.IncrementCounts | include/libsrtp/rdb.c:126-137 | the n-th increment of a new counter yields n; the first 2^31 succeed and the following ones report an expired key |
| ReplayDatabase.CounterWraps | include/libsrtp/rdb.c:126-137 | increment 2^32 + 1 gives out index 1 a second time, without an error |
| ReplayDatabase.Rdb.Check | include/libsrtp/rdb.c:72-93 | answers what the window function answers |
| ReplayDatabase.Rdb.Add | include/libsrtp/rdb.c:100-124 | start and bitmask move as the window function says |
| ReplayDatabase.Rdb.Advance | include/libsrtp/rdb.c:126-132 | the old value is tested, the new one stored in any case |
| KeyLimits.Lifecycle | include/libsrtp/key.c:79-114 | after setting s, update n reports normal up to s - 2^16, soft up to s - 1 and hard at s, with the matching state |
| KeyLimits.NeverRevives | include/libsrtp/key.c:79-114 | the state only moves forward over any number of updates |
| KeyLimits.ExpiredExactlyFromHardLimit | include/libsrtp/key.c:71-77 | the check reports an expired key from update s on, and never before |
| KeyLimits.NormalAfterWrap | include/libsrtp/key.c:94-98 | past the hard limit the count has wrapped and updates report normal use |
| KeyLimits.HardEventIff | include/libsrtp/key.c:79-114 | exactly update s reports the hard limit |
| KeyLimits.KeyLimit.Set | include/libsrtp/key.c:49-61 | limits below 2^16 are refused and leave the record alone |
| KeyLimits.KeyLimit.Check | include/libsrtp/key.c:71-77 | refuses exactly in the expired state |
| KeyLimits.KeyLimit.UpdateLimit | include/libsrtp/key.c:79-114 | event and new record as the update function says |
| CounterMode.ClockedIsNext | include/libsrtp/aes_icm.c:314-317 | incrementing the last octet with a carry into the one before adds 1 to the 16-bit block index and leaves the rest |
| CounterMode.ClockedOctets | include/libsrtp/aes_icm.c:314-317 | octet 15 counts up modulo 256, octet 14 exactly when it was 255, the first fourteen stay |
| CounterMode.CounterOctets | include/libsrtp/aes_icm.c:314-317 | after n blocks octets 14 and 15 are the high and the low octet of the sum modulo 2^16 |
| CounterMode.CryptOctet | include/libsrtp/aes_icm.c:338-444 | the octet at offset j of block i is added to octet j of the encrypted i-th counter |
| CounterMode.FitsIs | include/libsrtp/aes_icm.c:346-348 | the segment check in terms of octets 14 and 15 and the number 65535 |
| CounterMode.AheadAfter | include/libsrtp/aes_icm.c:338-444 | using n octets of keystream only moves the reading position by n, across buffer and block boundaries |
| CounterMode.AfterSum | include/libsrtp/aes_icm.c:338-444 | counter and unused keystream after a and then b octets are those after a + b |
| CounterMode.ChunkIndependence | include/libsrtp/aes_icm.c:338-444 | for every division of the data into calls, octets, final counter and leftover keystream are those of one call on all of it |
| CounterMode.PiecesFit | include/libsrtp/aes_icm.c:346-348 | what fits the segment at once passes the check call by call, for every division |
| CounterMode.EveryDivisionFitsIff | include/libsrtp/aes_icm.c:346-348 | if one call passes the segment check, every division of it into any number of calls does too, if and only if the 32-bit sum did not wrap |
| CounterMode.CryptTwice | include/libsrtp/aes_icm.c:338-444 | the same stretch of keystream restores the data |
| CounterMode.InputBlocksDiffer | include/libsrtp/aes_icm.c:346-348 | within one segment the block counter does not wrap, so all cipher inputs differ |
| CounterMode.Icm.constructor | include/libsrtp/aes_icm.c:165-204 | salt and two zero octets become offset and counter, no keystream is left over |
| CounterMode.Icm.SetIv | include/libsrtp/aes_icm.c:268-285 | the counter is offset xor vector, the buffer counts as used up |
| CounterMode.Icm.Advance | include/libsrtp/aes_icm.c:295-318 | the buffer holds the cipher of the old counter, the counter is the next one |
| CounterMode.Icm.Encrypt | include/libsrtp/aes_icm.c:338-444 | data and state change as one stretch of keystream says, through leftover octets, whole blocks and tail; past the segment nothing changes |
| CounterMode.Icm.EncryptPieces | include/libsrtp/aes_icm.c:338-444 | successive calls on neighbouring stretches of a buffer leave buffer and context as one call would; what fits the segment is not refused |
| CounterMode.Icm.Clear | include/libsrtp/datatypes.c:518-526 | the loop with its test at the end clears at least one octet |
| CounterMode.Icm.Output | include/libsrtp/aes_icm.c:451-460 | raw keystream, or zeros past the segment |
| AesCounter.NewContext | include/libsrtp/aes_icm.c:92-204 | key lengths 30 and 46 give a context whose cipher is AES under the front of the key and whose offset is the 14 octets behind it; 38 is refused after allocation, any other length before |
| AesCounter.KeystreamBlock | include/libsrtp/aes_icm.c:295-300 | AES in place on a copy of the counter gives the block that the context's cipher function stands for |
| KeyDerivation.LabelsApart | include/libsrtp/srtp.c:355-378 | different labels never lead to the same cipher input block |
| KeyDerivation.SixKeysApart | include/libsrtp/srtp.c:319-326 | the six session keys are made from pairwise disjoint sets of cipher input blocks |
| KeyDerivation.KeyInput | include/libsrtp/srtp.c:355-378 | the cipher input behind a key is the master salt with the label added to octet 7 and the block number in octets 14 and 15 |
| KeyDerivation.SixLabels | include/libsrtp/srtp.c:319-326 | labels 0, 1, 2 for RTP key, authentication key and salt, 3, 4, 5 for those of RTCP |
| KeyDerivation.Generate | include/libsrtp/srtp.c:355-378 | the key is the keystream under its label, written in place, and the rest of the buffer stays |
| KeyDerivation.DeriveSet | include/libsrtp/srtp.c:440-496 | key and salt side by side in the scratch buffer, then the authentication key over them, are the three derived keys |
| KeyDerivation.InitKeys | include/libsrtp/srtp.c:411-568 | all six keys, each under its own label |
| KeyDerivation.CryptoOf | include/libsrtp/srtp.c:467-496 | derived keys meet what the packet functions ask of keys: a salt that ends in two zero octets, and key and tag lengths within the limits |
| Sha1Spec.ShortPaddingIff | include/libsrtp/sha1.c:251-402 | the padding with a 32-bit bit count is the standard's if and only if the message is shorter than 2^29 octets |
| Sha1Spec.ShortSha1IsSha1 | include/libsrtp/sha1.c:251-402 | below 2^29 octets the library's hash is SHA-1 of FIPS 180-1, whose definition the next rows fix |
| Sha1Spec.Rotations | include/libsrtp/sha1.c:56-58 | the three macros rotate left by 1, 5 and 30 |
| Sha1Spec.ChooseIs | include/libsrtp/sha1.c:60-63 | f0 takes its second argument where the first has a bit set, and its third elsewhere |
| Sha1Spec.MajorityIs | include/libsrtp/sha1.c:60-63 | f2 takes the value on which two arguments agree, and elsewhere the third |
| Sha1Spec.ScheduleWord | include/libsrtp/sha1.c:115-154 | each word of the schedule is the rotated sum of those 3, 8, 14 and 16 places before |
| Sha1Vector.AbcDigest | include/libsrtp/sha1.c:98-183 | the digest of "abc" is the one printed in appendix A of FIPS 180-1, which fixes constants, functions, rounds and padding |
| Sha1Context.Sha1Ctx.Init | include/libsrtp/sha1.c:185-201 | the context stands for the empty message |
| Sha1Context.Sha1Ctx.Core | include/libsrtp/sha1.c:98-183 | chaining words after one block are the compression of the block, schedule and four round loops included |
| Sha1Context.Sha1Ctx.Update | include/libsrtp/sha1.c:203-245 | the context stands for the old message followed by the data, for every fill of the buffer and every length |
| Sha1Context.Sha1Ctx.Final | include/libsrtp/sha1.c:251-402 | the digest of everything hashed, through every case of octets in the buffer, with or without a second block |
| Sha1Context.PaddedTailOctets | include/libsrtp/sha1.c:277-341 | the masked words of the last block are the message tail, the mark and zeros of the padding |
| HmacSha1.TagIsHmac | include/libsrtp/hmac.c:169-211 | the tag is HMAC of RFC 2104 over SHA-1 |
| HmacSha1.HmacIs | include/libsrtp/hmac.c:123-147 | the pads are 0x36 and 0x5c under the key and bare behind it, the inner hash comes first |
| HmacSha1.ZerosBehindKey | include/libsrtp/hmac.c:123-135 | a key and the same key with zeros behind it give the same tags |
| HmacSha1.HmacContext.Init | include/libsrtp/hmac.c:111-147 | keys up to 20 octets leave a started context for that key, longer ones are refused |
| HmacSha1.HmacContext.Start | include/libsrtp/hmac.c:149-155 | the context is ready for a new message, whatever was computed before |
| HmacSha1.HmacContext.Update | include/libsrtp/hmac.c:157-167 | the input grows by the data |
| HmacSha1.HmacContext.Compute | include/libsrtp/hmac.c:169-211 | the first octets of the tag over all input, and the context can be started again |
| AesSpec.DecryptUndoesEncrypt | include/libsrtp/aes.c:2001-2065 | the equivalent inverse cipher under the transformed schedule undoes the cipher, for any number of rounds |
| AesSpec.InvMixColumnsLinear | include/libsrtp/aes.c:1496-1588 | InvMixColumns distributes over the addition of a round key |
| AesSpec.InvMixColumnsUndoes | include/libsrtp/aes.c:1593-1644 | the column coefficients of decryption invert those of encryption |
| AesSpec.DoubleIs | include/libsrtp/gf2_8.h:67-68 | doubling reduces by x^8 + x^4 + x^3 + x + 1, for every octet and in the example of FIPS 197 |
| AesSpec.MixColIs | include/libsrtp/aes.c:1593-1618 | a mixed column is the matrix of FIPS 197 applied to it |
| AesSpec.ShiftRowsIsRotation | include/libsrtp/aes.c:1593-1618 | row r moves r columns to the left |
| AesSpec.RoundColumn | include/libsrtp/aes.c:1593-1618 | each column of a round, from the octets of the state before: substituted, gathered along the rows, mixed, and the key added |
| AesSpec.LastRoundColumn | include/libsrtp/aes.c:1646-1680 | the same without mixing |
| Aes.ExpandedKey.ExpandEncryption | include/libsrtp/aes.c:1476-1494 | the round keys of the 128- or 256-bit schedule and their number, or a refusal of other lengths |
| Aes.ExpandedKey.Expand128 | include/libsrtp/aes.c:1361-1411 | the word-by-word recurrence of the 128-bit schedule, in place |
| Aes.ExpandedKey.Expand256 | include/libsrtp/aes.c:1413-1474 | the recurrence of the 256-bit schedule with its two alternating steps |
| Aes.NextKey128 | include/libsrtp/aes.c:1361-1411 | octet by octet, for every key and round: the last word rotated and substituted, the round constant, and the chain of the other words |
| Aes.NextKey256 | include/libsrtp/aes.c:1413-1474 | the two alternating steps of the 256-bit schedule, octet by octet |
| Aes.RoundConstants | include/libsrtp/aes.c:1373-1408 | 1, 2, 4, ... 0x80, 0x1b, 0x36 |
| Aes.ExpandedKey.ExpandDecryption | include/libsrtp/aes.c:1496-1588 | the schedule reversed and inverse-mixed up to the number of rounds the record held before: the decryption schedule if that was the key's, the encryption schedule for a new record |
| Aes.TablesMix | include/libsrtp/aes.c:1593-1618 | four table lookups xored are SubBytes, ShiftRows and MixColumns of a column |
| Aes.InvTablesMix | include/libsrtp/aes.c:1620-1644 | the same for the inverse tables |
| Aes.Round | include/libsrtp/aes.c:1593-1618 | the in-place table round is one round of the standard |
| Aes.InvRound | include/libsrtp/aes.c:1620-1644 | the in-place inverse table round is one round of the equivalent inverse cipher |
| Aes.FinalRound | include/libsrtp/aes.c:1646-1680 | the octet moves of the last round are SubBytes and ShiftRows with the last key |
| Aes.InvFinalRound | include/libsrtp/aes.c:1682-1716 | and their inverses |
| Aes.EncryptBlock | include/libsrtp/aes.c:2001-2032 | the block becomes its encryption under the held schedule of 10, 12 or 14 rounds |
| Aes.EncryptUnder | include/libsrtp/aes.c:2001-2032 | under the expanded key, the block becomes what the block cipher of that key makes of it |
| Aes.DecryptBlock | include/libsrtp/aes.c:2034-2065 | the block becomes its decryption |
| Aes.AesInverts | include/libsrtp/aes.c:1361-2065 | decryption inverts encryption for every block and every 128- or 256-bit key |
| Aes.EncryptThenDecrypt | include/libsrtp/cipher.c:120-187 | expanding for encryption, encrypting, expanding the same record for decryption and decrypting restores the block |
| BlockChaining.CbcRoundTrip | include/libsrtp/aes_cbc.c:150-261 | decryption of whole blocks restores them, for an inverting cipher |
| BlockChaining.EncBlock | include/libsrtp/aes_cbc.c:150-198 | a block of the output is the plain block with the output block before it, or the vector, added, encrypted |
| BlockChaining.DecBlock | include/libsrtp/aes_cbc.c:200-261 | a block comes back decrypted, with the encrypted block before it, or the vector, added |
| BlockChaining.PaddedOctets | include/libsrtp/aes_cbc.c:263-297 | one octet 0xa0 behind the data, then zeros, 1 to 16 octets in all |
| BlockChaining.PaddedRoundTrip | include/libsrtp/aes_cbc.c:263-329 | padding, encryption, decryption and removal of the padding restore every message, also the empty one |
| BlockChaining.AesPaddedRoundTrip | include/libsrtp/aes_cbc.c:263-329 | the same with AES for every 128- or 256-bit key |
| BlockChaining.AesCbc.Encrypt | include/libsrtp/aes_cbc.c:150-198 | in place, block by block with the chaining state; lengths that are no multiple of 16 are refused |
| BlockChaining.AesCbc.Decrypt | include/libsrtp/aes_cbc.c:200-261 | in place, each block decrypted with the one before |
| BlockChaining.AesCbc.NistEncrypt | include/libsrtp/aes_cbc.c:263-297 | mark and zeros behind the data, then encryption of the padded length |
| BlockChaining.AesCbc.NistDecrypt | include/libsrtp/aes_cbc.c:299-329 | decryption, and the length before the last mark |
| BlockChaining.AesCbc.NistRoundTrip | include/libsrtp/aes_cbc.c:263-329 | encrypting and decrypting in the same buffer restores data and length, given one octet of room past the padding |
| Packets.Index6Injective | include/libsrtp/srtp.c:852-862 | the six octets of a packet index determine it |
| Packets.FreshCounterIsZero | include/libsrtp/aes_icm.c:177-184 | after the vector is set the block counter is 0, because the salt ends in two zero octets |
| Packets.InputBlockInjective | include/libsrtp/srtp.c:852-863 | two packets under one key share a cipher input block only if SSRC, index and block number agree |
| Packets.SealKeepsHeader | include/libsrtp/srtp.c:803-816 | the receiver finds SSRC, sequence number and start of the encrypted part as the sender did |
| Packets.OpenSeal | include/libsrtp/srtp.c:852-1228 | a packet protected and opened under one index comes back if and only if it carries a tag or tags are empty |
| Packets.SealRtcpKeepsHeader | include/libsrtp/srtp.c:1689-1722 | SSRC, index and encryption bit are read from the trailer as they were written, but for index 2^31 |
| Packets.OpenSealRtcp | include/libsrtp/srtp.c:1683-1978 | every protected RTCP packet with a 31-bit index opens to the original |
| Packets.RtcpIndexReadsBackIff | include/libsrtp/srtp.c:1689-1722 | over all indices the counter gives out, the receiver reads the sender's index if and only if it has 31 bits |
| Packets.LastIndexCollides | include/libsrtp/rdb.c:126-132 | index 2^31, let through once, reads as 0 with the encryption bit set, and the receiver runs the keystream of index 0 over the payload, encrypted or not |
| PacketLayout.CipherInput | include/libsrtp/srtp.c:852-863 | octet by octet, the cipher input block of a packet: the salt with SSRC in octets 4 to 7, the 48-bit index in 8 to 13, the block number in 14 and 15 |
| PacketLayout.InputUnique | include/libsrtp/srtp.c:852-863 | these octets determine the block |
| PacketLayout.HeaderFields | include/libsrtp/srtp.c:803-816 | where SSRC, sequence number, CSRC count, extension bit and extension length stand, and the start of the payload they give |
| PacketLayout.PayloadFitsIs | include/libsrtp/aes_icm.c:346-348 | a payload may have 65535 octets |
| PacketLayout.SealedPayload | include/libsrtp/srtp.c:852-913 | each octet of a protected payload is the original with its octet of the encrypted input block added; header and length are as they should be |
| PacketLayout.OpenedPayload | include/libsrtp/srtp.c:1020-1172 | the receiver adds the same octets |
| PacketLayout.SealedTag | include/libsrtp/srtp.c:919-936 | the tag is HMAC-SHA1 over everything before it and the four octets of the rollover counter, cut to its length |
| PacketLayout.OpenedTag | include/libsrtp/srtp.c:1099-1145 | a packet is refused for its tag if and only if that is not this value |
| PacketLayout.SealedRtcp | include/libsrtp/srtp.c:1689-1794 | packet, trailer, tag: the trailer is the encryption bit over a 31-bit index, the tag is HMAC-SHA1 over packet and trailer |
| PacketLayout.SealedRtcpPayload | include/libsrtp/srtp.c:1683-1776 | all but the first eight octets are encrypted, with the input blocks of SSRC and index |
| PacketLayout.OpenedRtcpTag | include/libsrtp/srtp.c:1937-1953 | an RTCP packet is refused for its tag if and only if that is not HMAC-SHA1 over packet and trailer |
| PacketLayout.OpenedRtcpPayload | include/libsrtp/srtp.c:1871-1978 | an accepted packet is decrypted from octet 8 to the trailer if the encryption bit is set, and comes as it is otherwise |
| PacketLayout.ReadRtcp | include/libsrtp/srtp.c:1871-1907 | index, encryption bit and SSRC are read from the octets where they stand |
| PacketBuffers.PayloadOffset | include/libsrtp/srtp.c:803-816 | the start of the payload from CSRC count and extension length; past the end for a header that does not fit |
| PacketBuffers.CryptInPlace | include/libsrtp/srtp.c:810-816 | encryption from start to end in the buffer; a start past the end wraps to a length that the segment check refuses |
| PacketBuffers.SealInPlace | include/libsrtp/srtp.c:849-943 | the buffer holds the protected packet and nothing behind it changes; a payload that does not fit leaves it as it was |
| PacketBuffers.TagIsBad | include/libsrtp/srtp.c:1099-1145 | true exactly when the received tag is not the tag over packet and rollover counter |
| PacketBuffers.DecryptInPlace | include/libsrtp/srtp.c:1166-1172 | the buffer holds the original, or is unchanged for a payload that does not fit |
| PacketBuffers.OrTrailer | include/libsrtp/srtp.c:1691-1722 | the trailer word is the or of encryption bit and index, octet by octet |
| PacketBuffers.FinishRtcp | include/libsrtp/srtp.c:1721-1794 | index into the trailer, payload encrypted, tag appended: the buffer holds the protected packet |
| PacketBuffers.ReadTrailer | include/libsrtp/srtp.c:1871-1907 | index and encryption bit as the packet functions read them |
| PacketBuffers.DecryptRtcpInPlace | include/libsrtp/srtp.c:1970-1977 | with a good tag, the original or an unchanged buffer |
| SrtpSteps.Find | include/libsrtp/srtp.c:1288-1303 | the first stream with the SSRC, or none |
| SrtpSteps.Step | include/libsrtp/srtp.c:707-2036 | every call keeps every window of every stream well formed and of the policy's length |
| SrtpStreams.ProtectEffect | include/libsrtp/srtp.c:707-946 | srtp_protect changes the one stream of the packet, cloned if new, enters the index as soon as the check passes, counts one use of the key, and seals under the estimated index |
| SrtpStreams.UnprotectEffect | include/libsrtp/srtp.c:949-1228 | the order of replay check, tag check, key limit and payload; packets refused by the first two leave the session as it was |
| SrtpStreams.UnprotectAccepted | include/libsrtp/srtp.c:1174-1222 | an accepted packet changes one stream only, made from the template if the SSRC is new |
| SrtpStreams.ProtectRtcpEffect | include/libsrtp/srtp.c:1617-1797 | the stream's index is counted up and the packet sealed under the new value; other streams stay |
| SrtpStreams.UnprotectRtcpEffect | include/libsrtp/srtp.c:1800-2036 | an accepted packet enters its index; anything else leaves the whole session alone |
| SrtpStreams.UnprotectRtcpKeepsWindow | include/libsrtp/srtp.c:1986-2032 | RTCP packets do not touch a stream's RTP window |
| SrtpStreams.RunKeepsUniqueSsrcs | include/libsrtp/srtp.c:735-759 | over any run of the four calls no SSRC gets a second stream and no stream is lost |
| SrtpKeystream.RepeatRefusedIff | include/libsrtp/srtp.c:833-840 | an index accepted before is refused if and only if the estimate is not late across a rollover |
| SrtpKeystream.LateRepeatPasses | include/libsrtp/rdbx.c:146-148 | a concrete repeat that is let through |
| SrtpKeystream.StepTracks | include/libsrtp/srtp.c:707-2036 | every call moves the windows of all streams along with the sets of indices entered |
| SrtpKeystream.CallLabelsFresh | include/libsrtp/srtp.c:833-912 | a successful srtp_protect that does not take the branch for allowed repeats encrypts under an index not entered before and entered afterwards |
| SrtpKeystream.ReuseIffIndexRepeats | include/libsrtp/srtp.c:852-912 | for any session, policy and run: keystream is reused if and only if some SSRC and packet index is encrypted twice |
| SrtpKeystream.KeystreamIsNeverReused | include/libsrtp/srtp.c:707-946 | from a new session under any policy, over any run of calls for any SSRCs without late estimates in which no call takes the branch for allowed repeats, all cipher input blocks of all successful srtp_protect calls are distinct |
| SrtpKeystream.ReuseIffRepeat | include/libsrtp/srtp.c:833-843 | for a session that sends packets with payloads, without late estimates and while the key lasts: keystream is reused if and only if some call takes that branch |
| SrtpSenders.CountingNeverReuses | include/libsrtp/srtp.c:833-946 | in any session under any policy, the gateway's with repeats allowed among them, as long as every stream that sends counts its sequence numbers up, and the key lasts, no keystream is used twice, over any number of rollovers and among any receiving streams |
| SrtpSenders.LateRepeatReuses | include/libsrtp/rdbx.c:146-148 | three calls of srtp_protect on a new session, with sequence numbers 65535, 0 and 65535, use keystream twice under every policy |
| SrtcpKeystream.StartMoves | include/libsrtp/rdb.c:100-132 | the start of a stream's RTCP window, which is also its sender's counter, moves on by one for a packet sent, for one received at most into the 31-bit indices, and never back |
| SrtcpKeystream.RtcpKeystreamIsNeverReused | include/libsrtp/srtp.c:1709-1794 | in any session and over any run that sends and receives, all cipher input blocks of all successful srtp_protect_rtcp calls are distinct, as long as no call wraps the 32-bit counter of its stream |
| SrtcpKeystream.NewSessionLasts | include/libsrtp/srtp.c:1709-1794 | for a new session that covers any run of up to 2^31 - 1 calls |
| SrtcpKeystream.ChecksDoNotWrap | include/libsrtp/rdb.c:72-93 | nor does the sum in rdb_check wrap in the first 2^31 - 129 calls, on any stream |
| SrtpRuns.StepKeepsWindow | include/libsrtp/srtp.c:707-2036 | no call for another stream, and no RTCP call, touches a stream's RTP replay window |
| SrtpRuns.StepKeepsRtcpWindow | include/libsrtp/srtp.c:707-2036 | no call for another stream, and no RTP call, touches a stream's RTCP index or window |
| SrtpRuns.StepLimit | include/libsrtp/srtp.c:775-791 | which calls count as a use of the key, and that exactly the use reaching the hard limit is refused |
| SrtpRuns.MoreLeftForRest | include/libsrtp/srtp.c:775-791 | a key with more uses left than a run makes of it never refuses one of them |
| SrtpDelivery.SendRun | include/libsrtp/srtp.c:707-946 | a sender that counts its sequence numbers up seals every packet under its true index over any number of rollovers, among any other calls on the session |
| SrtpDelivery.DeliverOne | include/libsrtp/srtp.c:949-1228 | a genuine packet within 2^15 is accepted if and only if it is new and inside the window, or late across a rollover; accepted it equals the original and the window stands for the receiver's set with the index entered, the mirrored one if it was late; refused it changes nothing |
| SrtpDelivery.DeliverRun | include/libsrtp/srtp.c:949-1228 | over any run of deliveries, each within 2^15 of where the session has got to, late ones included, and among any other calls: exactly the accepted ones succeed, with the original octets |
| SrtpDelivery.TookIsGotIff | include/libsrtp/rdbx.c:146-148 | the session enters what a receiver with an unbounded set of indices would enter, if and only if the packet is not late across a rollover |
| SrtpDelivery.TimelyIsExact | include/libsrtp/srtp.c:949-1228 | over a run without late deliveries the session accepts what the set-based receiver accepts |
| SrtpDelivery.AcceptedTwice | include/libsrtp/rdbx.c:146-148 | a concrete order of deliveries in which the session accepts a packet twice and the set-based receiver once |
| SrtpDelivery.EndToEnd | include/libsrtp/srtp.c:707-1228 | sender, network with loss, reordering and duplication, also across rollovers, and receiver, both serving other streams too: which deliveries succeed is told exactly, and they return the original octets |
| SrtpDelivery.TimelyEndToEnd | include/libsrtp/srtp.c:707-1228 | without late deliveries these are exactly the ones the set-based receiver accepts |
| SrtpDelivery.HandedOutTwice | include/libsrtp/srtp.c:707-1228 | sender and receiver, sequence numbers 65535 and 0 with the first packet delivered again: it is accepted and returned twice |
| SrtpDelivery.InOrderDelivery | include/libsrtp/srtp.c:707-1228 | if every delivery is newer than the last by less than 2^15, every delivered packet is accepted and equals the original, across rollovers |
| SrtpDelivery.NeverTwice | include/libsrtp/rdbx.c:263-306 | the set-based receiver accepts no index twice, whatever the order |
| SrtpDelivery.FirstDeliveryAccepted | include/libsrtp/rdbx.c:263-306 | reordering by less than the window loses nothing |
| SrtcpDelivery.SendRtcpRun | include/libsrtp/srtp.c:1617-1797 | the n-th packet of a stream is sealed under index n, whatever else the session does |
| SrtcpDelivery.DeliverOneRtcp | include/libsrtp/srtp.c:1800-2036 | a genuine packet is accepted if and only if its index is new and at most 127 behind the largest accepted one |
| SrtcpDelivery.RtcpEndToEnd | include/libsrtp/srtp.c:1617-2036 | up to 2^31 - 1 packets under any network and among any other calls: exactly those deliveries succeed, each with the original packet |
| SrtcpDelivery.RtcpNeverTwice | include/libsrtp/rdb.c:72-124 | each packet is accepted at most once |
| SrtcpDelivery.RtcpFirstDeliveryAccepted | include/libsrtp/rdb.c:72-124 | reordering by less than 128 loses nothing |
| SrtpEvents.DirectionIsFinal | include/libsrtp/srtp.c:761-773 | once a stream sends or receives, no run of calls turns it round |
| SrtpEvents.CollisionReportedIff | include/libsrtp/srtp.c:761-773 | a collision is reported by exactly the calls that use a stream against its direction, on the receiving side only for accepted packets |
| SrtpEvents.LimitReportedIff | include/libsrtp/srtp.c:775-791 | the hard limit is reported by exactly the RTP calls that answer key expired, the soft limit by exactly those that leave the key between 1 and 65535 uses |
| SrtpEvents.EventsName | include/libsrtp/srtp.c:761-791 | every event names the stream of the call, or the template's SSRC for a provisional stream |
| SrtpEvents.TemplateDirection | include/libsrtp/srtp.c:1175-1190 | the template becomes a receiver with the first accepted packet of a new stream if it had no direction, and never changes otherwise |
| SrtpEvents.RunLimit | include/libsrtp/srtp.c:272-274 | all streams draw on one limit, which counts their uses together over any run |
| SrtpEvents.HardLimitStopsOneUse | include/libsrtp/srtp.c:780-791 | the n-th use over a run is refused if and only if n is the limit |
| SrtpSession.Kernel.AllocIcm | include/libsrtp/aes_icm.c:92-131 | one more live block and use count |
| SrtpSession.Kernel.FreeIcm | include/libsrtp/aes_icm.c:137-152 | only a live block can be freed; the use count goes down |
| SrtpSession.Kernel.AllocHmac | include/libsrtp/hmac.c:56-92 | the same for authenticators; keys and tags longer than a digest are refused and nothing is allocated |
| SrtpSession.Stream.Clone | include/libsrtp/srtp.c:251-296 | pointers, services and direction of the template, replay databases of its own, empty and as long as the template's |
| SrtpSession.Session.GetStream | include/libsrtp/srtp.c:1288-1303 | the walk along `next` finds the position the specification finds |
| SrtpSession.Session.AddClone | include/libsrtp/srtp.c:735-752 | a new stream leads the list, all others keep their state and place, and what is allocated for it is accounted for |
| SrtpSession.Session.ClaimDirection | include/libsrtp/srtp.c:767-773 | an unknown direction is taken, an opposite one reported |
| SrtpSession.Session.CountKeyUse | include/libsrtp/srtp.c:780-791 | limit, event and refusal of one key use |
| SrtpSession.Session.Protect | include/libsrtp/srtp.c:707-946 | status, session and buffer are those of the step, nothing behind the packet changes, and no block is lost |
| SrtpSession.Session.Unprotect | include/libsrtp/srtp.c:949-1228 | the same for srtp_unprotect, with a provisional stream on the template |
| SrtpSession.Session.ProtectRtcp | include/libsrtp/srtp.c:1617-1797 | the same for srtp_protect_rtcp |
| SrtpSession.Session.UnprotectRtcp | include/libsrtp/srtp.c:1800-2036 | the same for srtp_unprotect_rtcp |
| SrtpSession.Session.OneStreamChanged | include/libsrtp/srtp.c:761-946 | a call that changes one stream and the shared parts leaves list, separation and all other streams in order |
| SrtpSession.Session.Create | include/libsrtp/srtp.c:1353-1449 | an acceptable policy gives a new session with everything it owns allocated; any other is refused and leaves five blocks and four use counts behind |
| SrtpSession.WindowInForce | include/libsrtp/srtp.c:583-590 | window size 0 stands for 128, any other is rounded up to a multiple of 32 |
| SrtpSession.StartsEmpty | include/libsrtp/srtp.c:1380-1400 | a new session has no streams and no events, and the direction of its policy |
| SrtpSession.NewKeyLasts | include/libsrtp/srtp.c:595-601 | of the first 2^63 uses of a new session's key, over any calls, exactly number 2^48 - 1 is refused |
| SrtpSession.Session.StreamDealloc | include/libsrtp/srtp.c:166-240 | exactly what the stream does not share with the template is freed |
| SrtpSession.Session.Dealloc | include/libsrtp/srtp.c:1305-1345 | every block the session owns is freed, once, and the use counts go down by what creation added |
| SrtpSession.Session.ServeAll | include/libsrtp/srtp.c:707-2036 | any list of calls takes the session through the states of the functional run, and other allocations stay |
| SrtpSession.Session.Lifetime | include/libsrtp/srtp.c:73-300 | creation, any calls and deallocation: live blocks and use counts are what they were, and no SSRC had two streams |
| Base64.RoundTrip | src/base64.cpp:3-85 | decoding an encoded string gives the octets back, for every length |
| Base64.Encoded | src/base64.cpp:3-44 | the encoded length is 4 * ceil(n / 3) |
| Base64.EncodesBack | src/base64.cpp:3-85 | a string of whole groups of letters is the encoding of what it decodes to |
| Base64.GroupIsNumber | src/base64.cpp:13-16 | the four values are the base-64 digits of the 24-bit number of three octets |
| Base64.LetterIs | include/base64.h:7-10 | the alphabet of RFC 4648 |
| Base64.Examples | src/base64.cpp:3-44 | three of its examples: no padding, one and two padding characters |
| Base64.DecodingStops | src/base64.cpp:54 | nothing behind the first character outside the alphabet matters |
| Base64.UntailTail | src/base64.cpp:70-82 | missing letters read as 255 do not disturb the octets that count |
| Base64.Encode | src/base64.cpp:3-44 | the loops through the arrays of three and four compute the encoding |
| Base64.Decode | src/base64.cpp:46-85 | the loops compute the decoding |
| Framing.WireHasFrame | src/etcp.cpp:220-234 | a stream of framed messages starts with a complete frame of the first one and goes on with the others |
| Framing.FrameOctets | src/etcp.cpp:220-234 | four octets of length, the most significant first, then the message |
| Framing.Socket.Readn | src/etcp.cpp:139-161 | all octets asked for, however recv cuts and interrupts; fewer only when the stream ends |
| Framing.Socket.SkipFrame | src/etcp.cpp:187-200 | a message longer than the buffer is read to its end, chunk by chunk, and reported with -1 |
| Framing.Socket.ReadPacket | src/etcp.cpp:174-207 | one frame: the message, or -1 for one that is too long, and the stream stands at the next frame in both cases |
| Framing.Socket.ReceiveAll | src/mediagateway.cpp:36-51 | exactly the messages sent, in order, up to the first that is too long |
| Framing.Socket.SendPacket | src/etcp.cpp:220-234 | one frame for a text that is not empty, nothing otherwise |
| Framing.Exchange | src/etcp.cpp:139-234 | what one end sends the other receives, under any fragmentation and finitely many interruptions |

## Left out

- Allocation failures and the error paths they cause; every allocation in the model succeeds.
- Policies for specific SSRCs, lists of policies and srtp_remove_stream: the gateway makes every session from one wildcard policy (src/rtpconverter.cpp:39-66).
- Session.Create: keys are given ready for use; KeyDerivation models how they come from the master key, and the temporary derivation cipher is not part of the accounting.
- Session.Protect: a packet header whose extension length cannot be read from the buffer at all is outside its precondition, as the code reads that memory in any case.
- SrtpSteps.Step: RTCP packets shorter than the fields the code reads are outside its precondition; the code makes no length check there.
- SrtpKeystream.KeystreamIsNeverReused: says nothing about runs that take the late-across-rollover branch, for which LateRepeatReuses shows it to be false; ReuseIffIndexRepeats covers them.
- SrtpDelivery.EndToEnd: says nothing about deliveries 2^15 or more away from where the receiver has got to, whose index is estimated wrongly; that their tags then do not match is a matter of cryptographic strength.
- ReplayExtended.ReplayProtection: window sizes of 2^31 and more, which overflow the signed bit index, are not modelled; policies stop at 2^15.
- ReplayExtended.Rdbx.Init: the same bound on the window size.
- ReplayDatabase.CheckIsMembership: the end of the window is not taken modulo 2^32; CheckWrapsIff says that this matters only for starts of 2^32 - 128 and more, where rdb_add_index may set bits outside its four words.
- ReplayDatabase.Rdb.Check: the same; ChecksDoNotWrap says how many calls a session can take before.
- CounterMode.Icm.constructor: is given cipher function and salt; key lengths and key expansion are in AesCounter.NewContext, without the ISMAcryp lengths that aes_icm_alloc refuses.
- SrtpSession.Kernel.AllocIcm: key lengths are checked in AesCounter.NewContext; sessions are made with keys of an accepted length.
- rdbx_set_roc, v128_right_shift and the other v128 operations: easy members that the data path does not use.
- BitVectors.BitVector.LeftShift: stands for v128_left_shift too, whose four-word loops compute the same; that function has no method of its own.
- Encrypted Key Transport (ekt.c): unfinished stubs, taken as absent.
- Null ciphers, null authentication and keystream prefixes of universal hashes: the prefix length is 0 for HMAC-SHA1.
- The branches for NO_64BIT_MATH, big-endian hosts, CPU_RISC, CPU_16 and ISMAcryp, which config.h and the gateway do not select.
- Aes.ExpandedKey.ExpandDecryption: records that held an odd number of rounds, or more than the new key has, are outside its precondition.
- Aes.AesInverts: 192-bit keys, whose rounds exist but whose key expansion does not, and the concrete S-box entries.
- BlockChaining.AesCbc.NistDecrypt: decrypted data without a padding mark, for which the code reads on before the start of the buffer, is outside its precondition.
- Base64.Decode: letters and values have an array each; the code overwrites the letters in one array of four.
- aes_icm_set_octet, whose own comment says it is wrong.
- Framing.Socket.SendPacket: send is taken to accept the whole frame, as the code assumes, and texts are shorter than the packet buffer.
- Framing.Socket.ReadPacket: a buffer of length 0 is outside its precondition; with one, the loop over a long frame would not end.
- Sockets, threads, libnice and glib callbacks, timers, JSON, SDP and session dispatch of the gateway.
- Random sources, statistical tests, timing, zeroing of freed memory, and cryptographic strength.
