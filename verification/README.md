# Verified cores of the VPN client

A Dafny model of the algorithmic and protocol cores of the client, with proofs of what
each is for. Verify it with `dafny verify dfyconfig.toml`.

* **LZS.** `LzsFormat` states the bit format and what a token list stands for.
  `LzsParse` says which tokens the compressor chooses (longest match in the window,
  nearest among equals) without mentioning hash tables. `LzsDecoder` is the decoder as a
  function of bits. `LzsCompress` and `LzsDecompress` are the loops over the hash table,
  the 2048-slot chain and the byte buffers, proved against those. `LzsGreedy` says which
  token list is written in terms of the bytes alone, `LzsErrors` which error a failing
  input gives, and `LzsRoundTrip` joins compressor and decompressor.
* **Legacy DTLS.** `DtlsRecords` (record codec), `DtlsCbcRecords` (MAC-then-encrypt CBC
  with the branch-free padding check), `HandshakeFragments`, `HandshakeReassembly`,
  `HandshakeRoundTrip`, `HandshakeOutcomes`, `HandshakeStalls`.
* **ESP.** `ReplayWindows` (both bitmap windows against a set of accepted numbers),
  `EspAssociations` (one association), `EspKeySets` (the three associations of a key set),
  `EspRuns` (every sequence of seal, open, install and destroy).
* **Data plane.** `PacketQueue` is the ring queue, one method per critical section;
  `QueueSignals` runs producers and a consumer around it. `OutboundWriter` is the
  transition system of the outgoing path, `OutboundSafety` its invariant,
  `OutboundReasons` why batches fail and `OutboundProgress` when the path can stand still.
  `ClientSessions` holds the client's session fields; `SessionIsolation` interleaves
  supervisor, writers and readers over them, `SessionFates` says what becomes of packets
  and sessions, and `OutboundSessions` runs that system and the outgoing path together.
* **Smaller cores.** `OncpMessages`, `Adler32`, `Keepalive`, `TunnelMtu`.
* `Bits`, `Bytes` and `Cbc` hold words, big-endian fields and block chaining over an
  abstract cipher.

Where the source changes fields or buffers, a class or an array method does the same and
its `ensures` ties the new state to a function of the old one; the theorems are about
those functions. Concurrency is a transition system: a step is one critical section, one
channel operation or one protocol write, and theorems quantify over every run.

Results that differ from what one might expect of the code, each with an input:

* A match that reaches within two bytes of the end of the LZS source ends the loop before
  its own bytes are indexed, so the search for the last two bytes sees only the positions
  up to the start of that match (`limit` in `LzsParse`). `LzsParse.TailExample` is a text
  whose last two bytes become literals although a match is there, and
  `LzsParse.TailMisses` says exactly when the limit matters: when the two bytes stand
  together in the window after the start of that match. The round trip is not affected.
* An ESP payload that is empty and sent with an explicit next header is sealed, but the
  receiver rejects it, and only such a payload (`EspAssociations.SealThenOpen`,
  `EspKeySets.KeySetRoundTrip`).
* A handshake fragment that brings all that was missing and then contradicts a received
  byte leaves the message with every byte received and still partial. This is the only way
  there (`HandshakeStalls.StalledExactly`, `HandshakeStalls.StalledExample`), and the next
  fragment that agrees completes the message (`HandshakeStalls.StalledCompletes`).
* Handshake records are read into 65536 bytes, and without an MTU a record can have up to
  65548: fragmentation and reassembly cancel if and only if the longest record fits that
  buffer (`HandshakeRoundTrip.FragmentsReassemble`, `HandshakeRoundTrip.CutOffExample`).
* A packet pushed, and the queue closed, between the outgoing writer's empty pop and its
  look at whether the queue is closed is never completed, and its caller never returns
  (`OutboundProgress.StandstillExample`, `OutboundProgress.AbandonedForEver`). In every
  other state with a caller waiting some step gets something done
  (`OutboundProgress.NoStandstill`).
* At most three DPD requests are sent in a row for every period except 1 and 3 ticks,
  where four are possible (`Keepalive.AtMostThreeProbes`, `Keepalive.FourProbes`).
* At the exact instant of two DPD periods of silence `nextDelay` has a deadline while
  `action` does nothing, exactly if a probe was sent less than half a period before and
  neither rekeying nor a keepalive is due (`Keepalive.ActionMatchesDeadlines`,
  `Keepalive.DeadlineWithoutAction`).
* Below 61 bytes no AES-CBC record fits at all, so the CBC data MTU is meaningful exactly
  from 61 on (`TunnelMtu.CbcDataMtuExact`).

## Model

| member | source | states |
|---|---|---|
| LzsFormat.CopyBackReproduces | lzs.go:262-266 | Copying forward byte by byte from an earlier position whose text agrees reproduces the text, also when the copy overlaps its own output |
| LzsFormat.TokenCost | lzs.go:151-187 | Every token costs at most nine bits per byte it covers |
| LzsFormat.StreamCost | lzs.go:151-187 | So does every token list, measured against the bytes it expands to |
| LzsDecoder.LengthReads | lzs.go:230-258 | Each of the three length encodings, wherever it stands, is read back as its length when it fits the output |
| LzsDecoder.LengthSound | lzs.go:230-258 | Whatever length is read, its own encoding is what stood there |
| LzsDecoder.OffsetReads | lzs.go:218-225 | Both offset forms are read back as their offset |
| LzsDecoder.OffsetSound | lzs.go:218-225 | Whatever offset is read, its own encoding is what stood there |
| LzsDecoder.StreamReads | lzs.go:199-268 | A token stream with its end marker decodes to the bytes the tokens stand for |
| LzsDecoder.DecodeSound | lzs.go:199-268 | Every successful decoding is of some token stream standing in the input |
| LzsDecoder.AcceptsExactlyStreams | lzs.go:199-268 | For all bits: the decoder returns a text if and only if the input begins with a token stream that stands for it and it fits the destination |
| LzsDecompress.BitReader.Read | lzs.go:270-282 | Reads the next bits as a number and advances, or reports truncation and stays |
| LzsDecompress.ReadOffset | lzs.go:218-225 | Reads the narrow or wide offset exactly as specified |
| LzsDecompress.ReadExtension | lzs.go:241-257 | The groups of four are added up exactly as specified, with the capacity test before each addition |
| LzsDecompress.ReadLength | lzs.go:230-258 | Reads a length field exactly as specified |
| LzsDecompress.CopyMatch | lzs.go:262-266 | The in-place loop leaves the overlapping copy in the destination |
| LzsDecompress.ReadMatch | lzs.go:218-266 | One match is decoded with every error in the order the code tests them |
| LzsDecompress.Decompress | lzs.go:199-268 | Result, error and destination contents are those of the decoder function, for every input |
| LzsParse.BestIsBest | lzs.go:78-97 | The exhaustive search finds the longest candidate in the window, the nearest among equals, or shows there is none |
| LzsParse.BestIsUnique | lzs.go:78-97 | Only one position is longest and nearest, so the choice of the search is determined |
| LzsParse.LimitedSearch | lzs.go:103-121 | Searching only the positions indexed so far finds what a full index would if and only if that is nothing or one of them |
| LzsParse.TailMisses | lzs.go:103-121 | With two bytes left, the positions indexed so far miss a match if and only if the same two bytes stand in the window at a later position |
| LzsParse.TailExample | lzs.go:103-133 | For 1 2 9 1 2 2 2 the tokens end in two literals although a full index has a match one byte back |
| LzsParse.ParseMeans | lzs.go:64-139 | For every text, the chosen tokens expand to exactly that text |
| LzsParse.RoundTrip | lzs.go:55-145 | Any buffer that begins with the compressed form, cut to the whole bytes `compress` reports, decodes to the source at every capacity that holds it |
| LzsParse.WorstCase | lzs.go:64-145 | The tokens of a source never take more than nine bits per byte |
| LzsGreedy.ParseIsGreedy | lzs.go:64-139 | Every token of the parse is the chosen one: a literal if no two bytes repeat within 2047 back among the indexed positions, otherwise the longest repeat, the nearest of the longest, in nine bits of offset exactly up to 127 |
| LzsGreedy.GreedyIsOne | lzs.go:64-139 | No other token list is like that, so what is written is determined by the bytes |
| LzsGreedy.EncodedIsGreedy | lzs.go:55-145 | The compressed form of a source is the encoding of its greedy token list |
| LzsGreedy.FormatCodes | lzs.go:151-160 | For all values: a literal is 0 and eight bits, a match 11 and seven bits of offset or 10 and eleven, the end 11 and seven zeros, then zeros to fill the byte |
| LzsGreedy.LengthCodes | lzs.go:161-178 | For all lengths: two bits to 4, four bits to 7, then 1111 once and once more for every fifteen, and the rest in four bits |
| LzsGreedy.BitOrder | lzs.go:186-188 | Bits fill a byte from its top |
| LzsErrors.PrefixIsTruncated | lzs.go:199-282 | Every proper front part of a stream that fits is reported as truncated, wherever it is cut |
| LzsErrors.FullIsReported | lzs.go:207-266 | A token that does not fit after tokens that do is reported as exceeding the destination |
| LzsErrors.BadOffsetIsReported | lzs.go:218-228 | An offset of zero or one before the output is reported as invalid, whatever follows |
| LzsCompress.BitWriter.Write | lzs.go:181-197 | Appends exactly the low bits of the value to the bits written, or fails and leaves the buffer untouched |
| LzsCompress.StreamUpdate | lzs.go:188-193 | Setting or clearing a masked bit of a byte changes that bit of the stream and no other |
| LzsCompress.WriteMatch | lzs.go:151-179 | Appends the format's encoding of the match, and fails exactly when that does not fit |
| LzsCompress.WriteLength | lzs.go:161-178 | The eight-bit-at-a-time length loop writes the format's groups of four |
| LzsCompress.HashMeansMatch | lzs.go:147-149 | Two positions hash alike if and only if they agree on two bytes |
| LzsCompress.PreviousIsLast | lzs.go:65-68 | No earlier position of the same hash lies behind the one the index answers with |
| LzsCompress.SlotsDiffer | lzs.go:67 | Positions less than a window apart never share a chain slot |
| LzsCompress.ChainStep | lzs.go:67 | Overwriting one slot keeps every still-reachable chain entry right |
| LzsCompress.Compressor.Reset | lzs.go:59-61 | Clearing only the table gives a correct empty index whatever the chain holds |
| LzsCompress.Compressor.Insert | lzs.go:65-68 | Indexes one more position and returns the last earlier one of its hash |
| LzsCompress.Compressor.InsertRange | lzs.go:108-113 | Indexes every position of a match |
| LzsCompress.Measure | lzs.go:82-95 | The slice comparison and byte loop find the length of a longer match, or leave the best length alone |
| LzsCompress.MeasuredCandidate | lzs.go:80-97 | Following one chain link skips no candidate of the window |
| LzsCompress.WalkEnds | lzs.go:80-97 | When the walk stops, by the window, by the end of the chain or by reaching the end of the source, its match is the best of all |
| LzsCompress.LongestMatch | lzs.go:78-97 | The chain walk terminates and returns the longest, nearest match, so offsets lie in 1..2047 |
| LzsCompress.Compressor.EmitMatch | lzs.go:78-106 | Writes the token of the parse for a match, or fails only if the whole output cannot fit |
| LzsCompress.Compressor.EmitToken | lzs.go:64-114 | One pass of the loop writes the next token of the parse and keeps the index right |
| LzsCompress.Compressor.WriteTail | lzs.go:116-139 | The last two bytes or fewer are written as the parse says |
| LzsCompress.Compressor.Compress | lzs.go:55-145 | For every source, buffer and leftover table contents, writes the compressed form of the source and nothing depending on the leftovers; fails if and only if the source exceeds 65536 bytes or the form does not fit |
| LzsRoundTrip.CompressThenDecompress | lzs.go:55-282 | On a dirty compressor and any buffers: `compress` succeeds whenever nine bits per byte plus sixteen fit, and `decompressLZS` of what it wrote is the source |
| Bytes.BigEndianRoundTrip | dtls_legacy_record.go:519-535 | Every number that fits a field is read back from it |
| Bytes.FromBigEndianRoundTrip | dtls_legacy_record.go:519-535 | Every field is restored by storing what it was read as |
| Cbc.DecryptUndoesEncrypt | dtls_legacy_record.go:429-450 | CBC decryption undoes CBC encryption for every cipher whose block decryption undoes block encryption |
| Cbc.EncryptContinues | esp_packet.go:284-297 | Encrypting one block more chains it to the last block of the ciphertext |
| DtlsRecords.Marshal | dtls_legacy_record.go:387-402 | Encodes exactly the records with a 48-bit sequence and a 16-bit length |
| DtlsRecords.HeaderFields | dtls_legacy_record.go:394-400 | Every header field is found where the parser looks for it |
| DtlsRecords.ParseRecords | dtls_legacy_record.go:362-385 | The loop returns the record list, or the first error, of the recursive definition |
| DtlsRecords.ParseMarshalled | dtls_legacy_record.go:362-402 | A marshalled record followed by anything parses to the record and leaves the rest |
| DtlsRecords.MarshalParsed | dtls_legacy_record.go:362-402 | A parsed record marshals back to the bytes it was parsed from |
| DtlsRecords.ParseConcatenated | dtls_legacy_record.go:362-402 | Any concatenation of marshalled records parses to the same list |
| DtlsRecords.ParseExact | dtls_legacy_record.go:362-402 | Every datagram that parses is the concatenation of its marshalled records |
| DtlsRecords.FrontIsRefused | dtls_legacy_record.go:364-375 | Every proper front part of a record is refused, as a short header below 13 bytes and as a truncated payload from there on |
| DtlsRecords.OtherVersionIsRefused | dtls_legacy_record.go:368-370 | A record of another version is refused |
| DtlsRecords.FirstErrorIsReported | dtls_legacy_record.go:362-385 | After any number of good records the first error is the result |
| DtlsCbcRecords.CheckPadding | dtls_legacy_record.go:451-459 | The constant-time loop yields 1 if and only if the padding leaves room for the MAC and all its bytes are equal |
| DtlsCbcRecords.DecryptInPlace | dtls_legacy_record.go:436-477 | All slice bounds hold for every accepted length, and the result is that of the plain rule: padding valid and MAC equal |
| DtlsCbcRecords.CiphertextLength | dtls_legacy_record.go:414-442 | What the encrypter produces always has a length the decrypter accepts |
| DtlsCbcRecords.PaddedTextChecks | dtls_legacy_record.go:409-477 | A padded, MACed plaintext passes the check and gives back the payload |
| DtlsCbcRecords.EncryptThenDecrypt | dtls_legacy_record.go:362-477 | For every epoch-1 record that encodes, parsing the encrypted record gives its type, epoch and number back, and decrypting it the payload |
| DtlsCbcRecords.EncryptsExactly | dtls_legacy_record.go:404-434 | A record is encoded if and only if the key is taken, the number has 48 bits and vector and padded text fit 65535 bytes, with the error of each other case |
| DtlsCbcRecords.DecryptExactly | dtls_legacy_record.go:436-477 | A record gives a payload if and only if its text is that payload, its HMAC over epoch, number, type, version, length and payload, and n + 1 bytes of value n; every other record gives the error named |
| DtlsCbcRecords.MacInputIsOne | dtls_legacy_record.go:479-496 | No two records share what the MAC covers |
| ReplayWindows.EspAcceptExact | esp_replay.go:10-41 | One call accepts a number if and only if it is new and at most 65 behind the next expected, and the bitmap keeps representing the accepted set |
| ReplayWindows.EspWindowExact | esp_replay.go:10-41 | The same after every history, across every shift |
| ReplayWindows.EspReplayWindow.Accept | esp_replay.go:10-41 | The method on its two fields does exactly that step |
| ReplayWindows.DtlsAcceptExact | dtls_legacy_record.go:96-129 | One call accepts if and only if nothing was accepted before, or the number is new and less than 64 behind the maximum |
| ReplayWindows.DtlsWindowExact | dtls_legacy_record.go:96-129 | The same after every history |
| ReplayWindows.LegacyDtlsReplayWindow.Accept | dtls_legacy_record.go:102-129 | The method on its three fields does exactly that step |
| EspAssociations.NewAssociation | esp_packet.go:127-173 | Succeeds if and only if the algorithms are known, the SPI is not zero and both keys have their length, with the error of each other case; the association holds exactly the material given |
| EspAssociations.AppendTrailer | esp_packet.go:266-281 | The loop appends 1, 2, 3, … , the padding length and the next header |
| EspAssociations.StripTrailer | esp_packet.go:344-363 | The loop accepts exactly a complete trailer with a known next header and a non-empty payload |
| EspAssociations.StripUndoesPlaintext | esp_packet.go:266-281 | Stripping a trailer returns payload and next header, and rejects exactly the empty payload |
| EspAssociations.StripExact | esp_packet.go:344-363 | A text is stripped to a payload if and only if it is that payload, not empty, then 1, 2, ..., n, then n, then next header 4, 5 or 41 |
| EspAssociations.NextIvContinues | esp_packet.go:286-297 | The next initial vector is what the running CBC state gives for the last block of the full digest |
| EspAssociations.DatagramFields | esp_packet.go:265-289 | SPI, sequence, IV, ciphertext and ICV are found where the receiver reads them |
| EspAssociations.SealedIsAuthentic | esp_packet.go:322-343 | A sealed datagram passes length, block and ICV tests of a matching association and decrypts to its plaintext |
| EspAssociations.SealThenOpen | esp_packet.go:239-364 | Opening a sealed datagram gives next header and payload unless the number is refused by the window or the payload is empty, and names the error of each |
| EspKeySets.KeySetRoundTrip | esp_packet.go:239-364 | Whatever one key set seals, a matching one opens to the payload and the next header chosen from the inner IP version, except that a number its window refuses is a replay and an empty payload is invalid |
| EspKeySets.SealsExactly | esp_packet.go:242-264 | With a live association and a number left, a payload is sealed if and only if it is an IPv4 or IPv6 packet, or the next header is 4, 5 or 41; otherwise it is invalid and nothing changes |
| EspKeySets.OpenExactly | esp_packet.go:322-364 | What opening gives for every datagram: by shape, by HMAC, by window and by trailer, each with its error; the window moves for every genuine datagram and no other |
| EspKeySets.OpenedIsGenuine | esp_packet.go:302-364 | A datagram that is opened or moves a window bears the SPI of the current or previous association and ends in the HMAC, under its key, of everything before |
| EspKeySets.ForgedIsRefused | esp_packet.go:330-335 | A well-shaped datagram whose integrity value is not the HMAC fails authentication and changes nothing |
| EspKeySets.PeersTalk | esp_packet.go:193-364 | Key sets installed from mirrored configurations understand each other from the first datagram on |
| EspKeySets.InstallSupersedes | esp_packet.go:210-237 | What an install makes of every field, and when it fails |
| EspKeySets.DestroyLeavesNothing | esp_packet.go:366-379 | After destroy no association is valid and no key byte is left |
| EspKeySets.EspKeySet.InstallKeys | esp_packet.go:210-237 | The current inbound association becomes the previous one with its limit; on error nothing changes |
| EspKeySets.EspKeySet.SealBuffer | esp_packet.go:239-300 | Result and every field after a seal, the chained next IV included, in each error case too |
| EspKeySets.EspKeySet.OpenBuffer | esp_packet.go:302-364 | Result and every field after an open, in each error case too: only the chosen association's window moves |
| EspKeySets.EspKeySet.DestroyKeys | esp_packet.go:366-379 | All associations become invalid |
| EspRuns.StepInv | esp_packet.go:210-379 | Every operation keeps the invariant tying windows, accepted sets, sent numbers and limits together |
| EspRuns.RunIsSafe | esp_packet.go:210-379 | Over every run with replay protection: no association delivers a number twice, not even after it was superseded; the datagrams sealed under one association carry 0, 1, 2, ... in their 32-bit fields, so none twice; at most 96 numbers are accepted on a superseded association |
| EspRuns.SealedNumber | esp_packet.go:262-274 | A seal that succeeds puts the counter on the wire unreduced, and the counter advances by one |
| EspRuns.SealsUntilExhausted | esp_packet.go:239-300 | After every run the next seal carries the number of datagrams sent under the association, until there are 2^32; then it reports exhaustion and changes nothing |
| EspRuns.LingeringCount | esp_packet.go:231-232 | The numbers accepted after an install are at most 96 |
| EspRuns.NinetySixReached | esp_packet.go:210-340 | For all keys there is a run in which exactly 96 are accepted, so the bound is exact |
| EspRuns.AcceptedIffAdmitted | esp_packet.go:302-340 | A datagram is accepted on the superseded association if and only if it is authentic for it, its number is new and at most 65 behind, and that number plus the new association's next one is below 32 more than where the old one stood when superseded |
| EspRuns.SupersededDiesOut | esp_packet.go:316-319 | Nothing is accepted on the superseded association once the new one's next number has reached 32 more than the old one's was |
| EspRuns.AcceptedAfterInstall | esp_packet.go:210-340 | Right after an install the datagrams accepted on the superseded association are exactly the authentic ones with new numbers from 65 behind to 31 ahead |
| EspRuns.AcceptedShrinks | esp_packet.go:302-340 | Whatever is accepted on the superseded association after an operation other than an install would have been accepted before it |
| EspRuns.AcceptedShrinksOverRuns | esp_packet.go:239-379 | The same over every run without an install |
| EspRuns.AdmittedShrinks | esp_packet.go:314-320 | The same of the numbers the history admits |
| EspRuns.SupersededStillOpens | esp_packet.go:314-364 | A datagram for an admitted number still opens under the superseded association |
| EspRuns.OpenRefused | esp_packet.go:302-340 | A refused datagram changes nothing |
| EspRuns.DestroyedStays | esp_packet.go:366-379 | After destroy no operation has any effect |
| HandshakeFragments.MessageRoundTrip | dtls_certificate_legacy_handshake.go:461-470 | A marshalled message is well formed and read back as itself |
| HandshakeFragments.FirstIsLongest | dtls_certificate_legacy_handshake.go:270-274 | No fragment is longer than the first |
| HandshakeFragments.CutCovers | dtls_certificate_legacy_handshake.go:270-295 | The fragments cover every byte of the body |
| HandshakeFragments.CutUsesMtu | dtls_certificate_legacy_handshake.go:251-295 | With an MTU the fragments stand at multiples of mtu - 25, and every record but the last has exactly mtu bytes |
| HandshakeFragments.CutInOne | dtls_certificate_legacy_handshake.go:251-295 | Without an MTU, or with an empty body, there is one fragment |
| HandshakeFragments.FragmentFields | dtls_certificate_legacy_handshake.go:275-280 | Where type, total length, sequence, offset, length and bytes of a fragment stand on the wire |
| HandshakeFragments.HandshakeSender.MarshalRecord | dtls_certificate_legacy_handshake.go:300-315 | Encodes a record of any content type under the next record sequence, which advances only on success |
| HandshakeFragments.HandshakeSender.MarshalFragment | dtls_certificate_legacy_handshake.go:275-289 | One record carries one stretch of the body and fits the MTU; the size error never happens |
| HandshakeFragments.HandshakeSender.MarshalFragments | dtls_certificate_legacy_handshake.go:270-297 | The loop produces the records of the whole cut in order, with consecutive sequences |
| HandshakeFragments.HandshakeSender.MarshalHandshakeRecords | dtls_certificate_legacy_handshake.go:243-298 | Every record carries its fragment and fits the MTU, the error at line 288 is unreachable, and every failure is named: short, wrong length, MTU of at most 25, or the first record that cannot encode, at which the counter stops |
| HandshakeReassembly.WriteBytes | dtls_certificate_legacy_handshake.go:427-435 | The copy loop writes the longest agreeing prefix and reports whether it was everything |
| HandshakeReassembly.AddGood | dtls_certificate_legacy_handshake.go:383-459 | After every input, errors included: bytes is twice the partial lengths plus the completed ones and at most 32 MiB, at most 64 messages, partial and completed disjoint |
| HandshakeReassembly.AddKeeps | dtls_certificate_legacy_handshake.go:428-435 | A received byte never changes its value, errors included |
| HandshakeReassembly.AcceptedIsKept | dtls_certificate_legacy_handshake.go:397-455 | After a fragment taken without error each of its bytes is held with its value, whether the message was new, partial or complete |
| HandshakeReassembly.AcceptedPayloadIsKept | dtls_certificate_legacy_handshake.go:383-459 | The same for every fragment of a payload taken without error |
| HandshakeReassembly.TakeGood | dtls_certificate_legacy_handshake.go:358-366 | Taking a message keeps the accounting and removes exactly that message |
| HandshakeReassembly.TakeExact | dtls_certificate_legacy_handshake.go:358-366 | The message handed out is the one held, whole; partial messages and the other messages stay as they are |
| HandshakeReassembly.Reassembler.AddFragment | dtls_certificate_legacy_handshake.go:397-455 | Maps, byte count and error after one fragment, in every branch |
| HandshakeReassembly.Reassembler.MergeFragment | dtls_certificate_legacy_handshake.go:424-455 | Maps, byte count and error after merging into an existing partial message |
| HandshakeReassembly.Reassembler.AddPayload | dtls_certificate_legacy_handshake.go:383-459 | Maps, byte count and error after a payload of several fragments, and the invariant kept |
| HandshakeReassembly.Reassembler.TakeMessage | dtls_certificate_legacy_handshake.go:358-366 | The message and the remaining state, and the invariant kept |
| HandshakeRoundTrip.ParseFragment | dtls_certificate_legacy_handshake.go:275-396 | The reassembler reads a fragment as the stretch the fragmenter wrote |
| HandshakeRoundTrip.FeedOne | dtls_certificate_legacy_handshake.go:397-455 | One more fragment adds its stretch, and completes the message exactly when everything is covered; repeats and late fragments are harmless |
| HandshakeRoundTrip.AddFragmentOf | dtls_certificate_legacy_handshake.go:383-459 | The same on encoded bytes |
| HandshakeRoundTrip.FragmentsAdd | dtls_certificate_legacy_handshake.go:383-459 | Any list of fragments of a message, with any order, overlap and repetition, is taken and leaves what it covers |
| HandshakeRoundTrip.FragmentsCancel | dtls_certificate_legacy_handshake.go:270-459 | The fragments of any cut, fed to a fresh reassembler in any order with any repetition, leave exactly the message, at every length |
| HandshakeRoundTrip.ReceivePicked | dtls_certificate_legacy_handshake.go:317-349 | Any selection of the records, in any order, leaves exactly what its stretches cover, and fails if and only if one of them exceeds the read buffer |
| HandshakeRoundTrip.CutOff | dtls_certificate_legacy_handshake.go:318-327 | A record longer than the read buffer is cut off and does not parse |
| HandshakeRoundTrip.FragmentsReassemble | dtls_certificate_legacy_handshake.go:243-459 | For every message and MTU that fragments, the records received in any order with any repetition leave exactly one complete message with the original type, sequence and body, if and only if the longest record fits the read buffer; otherwise an error |
| HandshakeRoundTrip.SmallMtuFits | dtls_certificate_legacy_handshake.go:252-257 | It always fits when there is an MTU of at most 65536 |
| HandshakeRoundTrip.FragmentsDeliver | dtls_certificate_legacy_handshake.go:243-459 | Sent, received in any order and taken, the message arrives itself and the reassembler is empty again |
| HandshakeRoundTrip.CutOffExample | dtls_certificate_legacy_handshake.go:318-327 | A body of 65512 bytes without an MTU makes a record that encodes and is not received |
| HandshakeOutcomes.ParseExactly | dtls_certificate_legacy_handshake.go:385-396 | A payload is read as a fragment if and only if it begins with that fragment's bytes; the two errors are told apart |
| HandshakeOutcomes.AddExactly | dtls_certificate_legacy_handshake.go:397-435 | A fragment is accepted if and only if it agrees in type, length and every known byte, or is new with fewer than 64 messages and twice its length left of 32 MiB; every error has its condition, and only differing bytes change anything when refused |
| HandshakeOutcomes.NothingInvented | dtls_certificate_legacy_handshake.go:424-455 | A byte known after a fragment was known before with that value or is the fragment's |
| HandshakeOutcomes.CompletesExactly | dtls_certificate_legacy_handshake.go:436-455 | An accepted fragment completes its message if and only if every byte is then known, and touches no other message |
| HandshakeStalls.StalledExactly | dtls_certificate_legacy_handshake.go:424-455 | After any fragment in any state, a message is fully received and still partial if and only if this fragment filled its last gap and then contradicted a received byte, or it was so before and this fragment is another's or was refused |
| HandshakeStalls.StalledCompletes | dtls_certificate_legacy_handshake.go:424-455 | A fragment of such a message is accepted if and only if it agrees with the bytes there, and then the message is complete with those bytes |
| HandshakeStalls.OnlyDifferingBytesStall | dtls_certificate_legacy_handshake.go:383-459 | No payload leaves a message so unless it is refused because overlapping bytes differ |
| HandshakeStalls.StalledExample | dtls_certificate_legacy_handshake.go:424-455 | Two bytes, the second received as 5: the fragment 7 9 is refused and leaves every byte received, the fragment 7 completes |
| PacketQueue.RingPush | data_packet_queue.go:34-38 | Storing at the tail appends to the ring and keeps free places zero |
| PacketQueue.RingPop | data_packet_queue.go:96-103 | Clearing places and moving the head drops the oldest elements and keeps free places zero |
| PacketQueue.DataPacketQueue.constructor | data_packet_queue.go:18-24 | A new queue is empty and open with all places zero |
| PacketQueue.DataPacketQueue.Store | data_packet_queue.go:36-38 | Appends one element to the contents |
| PacketQueue.DataPacketQueue.PushOne | data_packet_queue.go:29-47 | Pushes, refuses or names the channel to wait on, with the token set when the queue was empty |
| PacketQueue.DataPacketQueue.TryPushBatch | data_packet_queue.go:57-74 | Appends as many elements as fit and returns how many |
| PacketQueue.DataPacketQueue.TakeFront | data_packet_queue.go:96-103 | Returns the oldest elements in order and clears their places |
| PacketQueue.DataPacketQueue.PopInto | data_packet_queue.go:80-117 | Contents, token and channel after a pop |
| PacketQueue.DataPacketQueue.SendNotEmpty | data_packet_queue.go:155-160 | Only called while the channel is open; afterwards a token is pending |
| PacketQueue.DataPacketQueue.ReplaceNotFull | data_packet_queue.go:162-165 | Only called on a channel not closed before; the channels closed are those before the current one |
| PacketQueue.DataPacketQueue.WakeConsumer | data_packet_queue.go:119-129 | A token is pending if the queue is open and not empty |
| PacketQueue.DataPacketQueue.CloseNotEmpty | data_packet_queue.go:141 | Only called while notEmpty is open |
| PacketQueue.DataPacketQueue.CloseQueue | data_packet_queue.go:137-145 | Closes both channels the first time, neither of them closed before, and does nothing later |
| QueueSignals.StepInv | data_packet_queue.go:26-165 | Every step of producers, consumer and closer keeps the signalling invariant |
| QueueSignals.NoLostWakeup | data_packet_queue.go:26-165 | In every state of every run: bounded FIFO, what was pushed is what was popped plus the contents; a producer waiting on the current channel faces a full open queue; whoever can go on has its signal; a sleeping consumer can wake if and only if the queue is not empty or closed |
| QueueSignals.RunInv | data_packet_queue.go:26-165 | Every state of every run satisfies the signalling invariant with the queue's capacity |
| QueueSignals.PopInv | data_packet_queue.go:80-117 | A pop keeps the invariant: order preserved, waiting producers woken, token kept for the rest |
| QueueSignals.MovesAsMuchAsPossible | data_packet_queue.go:57-117 | An open queue takes a prefix of the batch, all of it or until it is full; a pop returns the front, all of it or as much as was asked for |
| QueueSignals.WakesForAReason | data_packet_queue.go:112-165 | The producers' channel is closed by a step if and only if it makes room in a full queue or closes an open one |
| QueueSignals.ClosedTakesNothing | data_packet_queue.go:57-145 | A closed queue or a context that is over takes nothing, closing twice is closing once, and what is in the queue can still be popped |
| OutboundWriter.Completion.CompleteWith | data_packet_writer.go:27-37 | The first error stays, with its value, and the last completion sends it |
| OutboundSafety.HandOverInv | data_packet_writer.go:146-167 | The group handed to the session is the next stretch of its batch |
| OutboundSafety.CompleteInv | data_packet_writer.go:170-173 | Completing a packet settles the next one of its batch and none twice |
| OutboundSafety.PushInv | data_packet_writer.go:89-103 | A push appends the next packet of its batch and passes its slot on |
| OutboundSafety.StepInv | data_packet_writer.go:65-198 | Every step of producers, writer and closer keeps slots, counters, order and results right |
| OutboundSafety.OutboundConservation | data_packet_writer.go:65-198 | In every state of every run: held slots are the acquired, queued and popped packets and never exceed the capacity; no packet completes twice; the session gets a prefix of each batch in order; a nil result means everything was handed over and every write returned nil; any other result is the first error a packet of the batch was completed with |
| OutboundSafety.NeverStuck | client.go:162-165 | A push made with a slot never finds an open queue full, a slot can always be returned, and the writer always has a step to take |
| OutboundSafety.ResultIsFinal | data_packet_writer.go:45-63 | Once a result is sent no packet of the batch is in flight, so its completion object can be reused |
| OutboundSafety.NoSpuriousFailure | data_packet_writer.go:65-174 | Without close, stale session or write error no batch fails |
| OutboundReasons.ResultIsTrue | data_packet_writer.go:89-173 | In every run a result tells the truth: closed only if the client was closing, not ready only if the batch's ticket was found out of date, a session's error only if a write of this batch returned it |
| OutboundWriter.GroupIsMaximal | data_packet_writer.go:125-129 | The group handed over takes in every adjacent packet of its batch |
| OutboundProgress.NoStandstill | data_packet_writer.go:65-134 | In every state of every run in which no packet is abandoned, as long as a caller has not returned some step gets something done |
| OutboundProgress.AbandonedForEver | data_packet_writer.go:111-115 | Packets left in the queue by a writer that exits stay there, and their callers never return |
| OutboundProgress.StandstillExample | data_packet_writer.go:111-115 | A run in which that happens: empty pop, push, close, look |
| ClientSessions.Client.SetCurrentSession | client_supervisor.go:423-442 | Installs a session under a new generation and withdraws the published one, or changes nothing |
| ClientSessions.Client.PublishCurrentSession | client_supervisor.go:444-458 | Publishes the current, ready session with its revision, or changes nothing |
| ClientSessions.Client.ClearCurrentSession | client_supervisor.go:460-475 | Clears only the session it was called for |
| ClientSessions.Client.CloseSupervisorState | client_supervisor.go:560-576 | Withdraws everything and closes the client unless it ended with an error |
| ClientSessions.Client.SetTerminalError | client_supervisor.go:505-525 | An open client keeps the first error it is ended with, a default for nil, and its supervisor is cancelled if it was started; a closed client stays as it is |
| ClientSessions.Client.Start | client.go:363-379 | Starts an open client once; a second call has no effect, and a client closed before it was started refuses |
| ClientSessions.Client.Close | client.go:866-872 | Closes the client and cancels a started supervisor |
| ClientSessions.Client.SetTunnelConfiguration | client.go:677-685 | Hands out the next revision |
| ClientSessions.Client.PublishTunnelConfigurationEvent | client.go:687-695 | Raises the published revision of the current session, never lowers it |
| SessionIsolation.StepInv | client_supervisor.go:423-475 | Every step keeps a published session current and an ongoing write's ticket good |
| SessionIsolation.RunPrecedes | client_supervisor.go:423-576 | Between any two states of a run generations grow, a generation is installed, published and cleared in that order, and its revision never falls |
| SessionIsolation.EndIsFinal | client_supervisor.go:505-576 | Once a client is over it stays over for the same reason, and once its supervisor is cancelled no session is installed or published |
| SessionIsolation.WritesAreIsolated | data_packet_writer.go:146-182 | In every reachable state a published session is the current one of the current generation, and session, generation and revision checked before a protocol write hold until it ends |
| SessionIsolation.IncomingIsIsolated | client.go:788-858 | A packet reaches a reader only if no session was installed or cleared since it was tagged and its revision was the published one whenever the session was published |
| SessionIsolation.UndisturbedIsDelivered | client.go:788-858 | Conversely a packet whose generation and revision are still published is delivered |
| SessionIsolation.TicketStaysGood | data_packet_writer.go:176-183 | A ticket is good later if and only if the client is open and the same generation is published, ready and at the same revision |
| SessionFates.PacketFate | client.go:788-858 | Packets are let in exactly for the current session of an open client, and at every later instant each is dropped, told the end with its reason, kept waiting or delivered, by the conditions named |
| SessionFates.EarlyPacketIsDelivered | client.go:788-858 | A packet that came before its session was published waits, and is delivered once it is published, under its first revision |
| SessionFates.TicketsIssued | client_supervisor.go:486-503 | A ticket is issued if and only if the client is open and its session published and ready, and names what is published |
| SessionFates.SessionComesUp | client_supervisor.go:423-458 | From any reachable state between sessions, installing, configuring and publishing a ready session makes it the published one of the next generation and revision |
| SessionFates.NotPublished | client_supervisor.go:449-451 | A session cancelled, not ready or of a client that is over is not published, and nothing changes |
| SessionFates.AnnouncedIsPublished | client.go:687-695 | An announced revision becomes the published one if it is higher and a session is published |
| SessionFates.EndSilences | client_supervisor.go:460-576 | After clearing, the supervisor's end, a terminal error or closing no packet is let in and no ticket is issued or good |
| SessionFates.InstallReplaces | client_supervisor.go:423-442 | A new session silences the one before it until it is published |
| SessionFates.FirstReasonCounts | client_supervisor.go:505-576 | A client is started once, and what ends it first is the reason it reports |
| OutboundSessions.GroupAlike | data_packet_writer.go:79-87 | The packets of a group carry one ticket, so checking the first checks all |
| OutboundSessions.StepInv | data_packet_writer.go:107-183 | Every step of the outgoing path and of the session fields together keeps tickets, locks and deliveries right |
| OutboundSessions.EveryPacketOnItsTicket | data_packet_writer.go:136-183 | In every run every packet handed over went to the session of its own ticket while the client was open and that ticket was the published session, generation and revision, and this holds for the whole group until the write ends |
| OncpMessages.HeaderReads | nc_oncp.go:491-507 | Every well-formed header, the legacy data form included, is read back |
| OncpMessages.HeaderExactly | nc_oncp.go:491-507 | A header is read if and only if it is six zeros, the type, the constant bytes or their legacy form for type 300, and the length |
| OncpMessages.RecordReads | nc_oncp.go:399-425 | A record is read from the stream and the rest is left |
| OncpMessages.RecordExactly | nc_oncp.go:399-425 | A record is read if and only if a length, low byte first and not zero, and that many bytes stand there; two zeros and a reason terminate; otherwise the stream ended |
| OncpMessages.OncpConnection.FillPending | nc_oncp.go:320-341 | The read loop appends records until enough is pending, or reports the first error |
| OncpMessages.OncpConnection.ReadMessage | nc_oncp.go:319-352 | Type, payload, remaining stream and pending bytes of one call; on error pending is dropped |
| OncpMessages.FillReads | nc_oncp.go:320-369 | Filling consumes whole records and pending stays the joined bytes |
| OncpMessages.ReadNext | nc_oncp.go:319-369 | One call returns the next message, and pending is the unread remainder of the records consumed |
| OncpMessages.SegmentationIndependent | nc_oncp.go:319-425 | For every list of messages and every cut of their bytes into non-empty records, repeated calls return exactly those messages in order |
| OncpMessages.CutMessageFails | nc_oncp.go:319-369 | A message of which only a front part came gives the error of the stream, wherever it stops and however it was cut |
| Adler32.SumBlock | anyconnect_compression.go:242-245 | No 32-bit sum overflows within a block, and the sums are the unreduced ones |
| Adler32.BlockFits | anyconnect_compression.go:236-251 | 5552 bytes after a reduction stay below 2^32 from any 16-bit sums |
| Adler32.ReductionCanWait | anyconnect_compression.go:236-251 | Reducing once at the end equals reducing after every byte |
| Adler32.Update | anyconnect_compression.go:236-251 | Equals the byte-by-byte definition of section 2.2 of RFC 1950 for every payload and every 32-bit start |
| Adler32.UpdateTwice | anyconnect_compression.go:236-251 | For every 32-bit start, valid or not, updating by a and then b is updating by their concatenation |
| Adler32.ChecksumOfAb | anyconnect_compression.go:236-251 | The checksum of ab from 1 is 0x012600c4 |
| Adler32.StaysReduced | anyconnect_compression.go:236-251 | Both sums of a valid checksum stay below 65521 |
| Keepalive.NextDelay | cstp_keepalive.go:76-107 | The wait until the earliest deadline, always positive, an hour if there is none |
| Keepalive.Earliest | cstp_keepalive.go:96-101 | The loop finds the least deadline |
| Keepalive.KeepaliveState.TakeAction | cstp_keepalive.go:49-74 | The action and the two marks it moves |
| Keepalive.TalkingPeerIsLeftAlone | cstp_keepalive.go:40-74 | Over every run a peer not yet probed is never probed and never declared dead if and only if every tick at which rekeying is not due comes less than a period after the last mark of a reception |
| Keepalive.BusyLineNeedsNoKeepalive | cstp_keepalive.go:44-73 | In every run a keepalive goes out only a whole period after the last mark of a transmission |
| Keepalive.RekeyExactly | cstp_keepalive.go:51-54 | In every run a tick rekeys if and only if rekeying is due |
| Keepalive.ProbeExactly | cstp_keepalive.go:55-67 | In every run a tick probes if and only if rekeying is not due, two periods have not passed since the last reception, and a period has passed since then or half a period since the last probe |
| Keepalive.ActionMatchesDeadlines | cstp_keepalive.go:49-107 | The action is none if and only if the earliest deadline of the scheduler is ahead, or it is now and only the dead-peer one is due |
| Keepalive.SleepReachesDeadline | cstp_keepalive.go:76-107 | Sleeping the computed delay misses no action and ends at the deadline, after which some action is due |
| Keepalive.AtMostThreeProbes | cstp_keepalive.go:49-74 | Every ordered run has at most three DPD requests between two receptions if and only if the period is neither 1 nor 3 ticks |
| Keepalive.FourProbes | cstp_keepalive.go:56-67 | For periods of 1 and 3 ticks a run with four |
| Keepalive.DeadlineWithoutAction | cstp_keepalive.go:56-107 | Period 4, probe at 7, tick at 8: the deadline is reached and there is nothing to do |
| Keepalive.SilentPeerIsProbed | cstp_keepalive.go:51-67 | A silent peer is probed by any tick in the second period at which rekeying is not due |
| Keepalive.DeadExactly | cstp_keepalive.go:51-59 | In every run a tick declares the peer dead if and only if it comes more than two periods after the last reception and rekeying is not due |
| Keepalive.SilentPeerIsDead | cstp_keepalive.go:51-59 | Rekeying cannot hide a dead peer: of two ticks after two silent periods, less than a rekey period apart, one declares it dead |
| TunnelMtu.SealedLengthIsDatagram | esp_packet.go:265-289 | The length formula is the length of the sealed datagram |
| TunnelMtu.LargestSealed | gp_config.go:792-822 | A payload fits if and only if it is at most the rounded-down remainder |
| TunnelMtu.CalculateTunnelMtu | gp_config.go:792-822 | Without a requested MTU, a payload fits the base MTU with UDP and outer IP headers if and only if it is at most the result; likewise for the other branches |
| TunnelMtu.RecordLengthIsRecord | dtls_legacy_record.go:404-434 | The length formula is the length of the encrypted AES-CBC record |
| TunnelMtu.CbcDataMtuExact | dtls_certificate.go:384-393 | From 61 bytes on, and only from there, the data MTU is the largest payload whose record fits |

## Left out

- Authentication flows over HTTP, HTML, XML and JSON, host scan, HIP reports and TNCC: input and output with library parsing.
- TLS, DTLS 1.2, X.509, key derivation and signatures. Ciphers and MACs are functions of which only lengths and "decrypt undoes encrypt" are assumed; random IVs are parameters.
- LZ4, flate and LZO codecs; of the deflate path only Adler-32.
- Buffer pooling, headroom, release and the zeroing of secrets: packets are byte sequences. CBC text and handshake bodies are values too, so overwriting of the caller's slice is not captured.
- The LZS source and the compressed input of the decoder are values, so calls whose source and destination overlap are not covered.
- Fairness of the outgoing path: that some step can be taken is proved, that it is taken in time is not.
- Any claim that the published revision is the latest configuration revision: revisions are handed out before they are announced.
- The Read loop of the legacy DTLS connection, and sequence uniqueness of its failed writes.
- Whole handshake exchanges with their retries, and the supervisor's retry, backoff and error classification.
- Waiting on contexts and clocks is a step that may or may not happen, or a parameter; the read loops above the incoming queue and waiting for readiness are not modelled.
- Overflow of 64-bit counters and of timer sums: they are unbounded here.
- ESP runs with replay protection switched off: the step functions cover them, the run theorem does not.
- The initial configuration exchange of oNCP and its attribute parser.
- ClientSessions.Client.SetTerminalError: the active transport and the state-changed channel are not modelled; waiting for a change is a step that may or may not happen.
- TunnelMtu.CalculateTunnelMtu: without a requested MTU and without ESP the result is stated as the base MTU less headers, because there is no encoder of this repository to compare it with.
