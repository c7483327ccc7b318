# StealthGate: the layered streams and the split protocol, modelled and proved

StealthGate is a proxy for Telegram's MTProto. In its `ee` mode a client speaks obfuscated2 inside
something that looks like TLS. A single node can serve such a client, or a *front* close to the
client hands the session over an encrypted link (SGFB version 2) to a *back* that talks to the data
centre. This project models that path, byte for byte, and proves that nothing on it is lost, repeated
or reordered, and where the code gives less than that, exactly when.

`dafny verify dfyconfig.toml` checks everything. No axioms, no assumptions: the hash, the keyed hash,
the AES-CTR keystream and the AEAD cipher are parameters, arbitrary functions of which only the laws
used are required (`SgfbCrypto.Lawful`; `SgfbCrypto.TransparentIsLawful` shows that they can be met).

## How the streams are modelled

Every `poll_*` of the program is a method on a class, with the same fields. Below each stack lies a
*script*: the outcomes that the socket will still produce (a segment of any length, an end, a stall, a
failure; for a sink: room for n bytes, a stall, a failure). A statement about all scripts is one about
all chunkings, stalls and failures. `Streams.Arriving` is what a script still delivers; each layer has
an *outlook*, what it will still deliver to the layer above, and the contract of each `poll_read` is
that its result comes off the front of the outlook, that every failure below is reported once and none
is made up, and that a reader is kept waiting only while there is something left to wait for. For a
sink the ghost fields say what has been sealed, encrypted or framed, and the contracts give the answer
to every write as a function of what the sink will accept. A runtime may poll again at any time, so
`pending` is a state to resume from; whether a wake-up has been registered is not modelled.

| file | repository file | content |
|---|---|---|
| `Options.dfy`, `Bytes.dfy`, `Utf8.dfy` | | options, octets, integers on the wire, exclusive-or, well-formed UTF-8 (section 4 of RFC 3629) |
| `Streams.dfy` | `src/io_util.rs` | scripts, sockets, `PrefixedStream` |
| `SgfbCrypto.dfy` | `src/sgfb_crypto.rs` | the encrypted relay stream |
| `FakeTls.dfy` | `src/faketls.rs` | the record stream: deframer, abandoned hello, resync, writer |
| `ClientHelloAuth.dfy` | `src/faketls.rs` | hello parsers for complete and cut records, signing and checking |
| `Tls.dfy` | `src/tls.rs` | strict and tolerant hello parsers, server name, builder |
| `Obfuscated2.dfy` | `src/mtproto_obfuscate.rs` | handshakes, relay header, the CTR stream |
| `OpeningFrame.dfy` | `src/split.rs` | codec and reader of the opening frame |
| `Split.dfy` | `src/split.rs` | what a back decides and answers, how a front dials, the terms of a session |
| `Session.dfy` | `src/split.rs` | front, backs and network as one state machine over all interleavings |
| `Link.dfy` | `src/split.rs`, `src/proxy.rs`, `src/network.rs` | the relay between a front and a back, encrypted or plain, piece by piece, for every sink |
| `Uplink.dfy` | `src/split.rs` | from the record stream to the back's decryptor |
| `DcRelay.dfy` | `src/split.rs`, `src/proxy.rs` | the way on to the data centre; the split against the single node |
| `WholePath.dfy` | `src/split.rs`, `src/proxy.rs` | both together, from the client's wire to what the data centre reads |
| `Limits.dfy`, `BackendPool.dfy`, `AntiReplay.dfy` | `src/limits.rs`, `src/backend_pool.rs`, `src/antireplay.rs` | the shared managers |

The main results, top down: `WholePath.ClientToDc` (a session, from the client's wire to the data centre's
view, against a single node), its halves `Uplink.EndToEnd` and `DcRelay.RelayToDc`, and
`DcRelay.SplitRefinesMonolith`; `Session.SessionIsSafe` (every run of the protocol); the polls of
`SgfbCrypto.EncryptedStream`, `FakeTls.FakeTlsStream` and `Obfuscated2.ObfuscatedStream` (every layer); and
`Limits.RunsConserve` (every interleaving of the limiter).

None of these asks anything of a sink. What a stalled or short write costs on an encrypted link or towards
a data centre is told piece by piece: `Link.Carries` and `DcRelay.Copies` say when a sink takes one piece as
it should, `Link.CarriesAll` and `DcRelay.CopiesAll` when it takes them all, and a relay has moved exactly
what it was given if and only if that holds. A stall between the bytes of a pending rest or before a flush is
not among the bad cases; one at the moment of sealing is.

## Where the code does less than one would wish

Each of these is a lemma with a concrete input, or an exact condition, beside the theorem it limits.

- `EncryptedStream::poll_write` seals before it knows whether the sink has room, so a stalled or short
  write is sealed again when it is retried (`SgfbCrypto.StallSealsTwice`). A buffer is carried exactly
  once if and only if the sink takes each of its frames in one go (`SgfbCrypto.EncryptedStream.WriteAll`),
  and a whole relay is if and only if that goes for every piece (`Link.CopyUplink`, `Uplink.EndToEnd`).
- `ObfuscatedStream::poll_write` encrypts before it knows, too (`Obfuscated2.StallEncryptsTwice`): exactly
  once if and only if the first attempt takes something, and the keystream is lost with the ciphertext
  if and only if the sink fails just then (`Obfuscated2.ObfuscatedStream.WriteAll`, `.PollWrite`); for a
  whole relay piece by piece (`DcRelay.CopyFlushed`).
- A back waits for a raw byte behind its answer and gives up without one (`src/network.rs:44-54`,
  `src/split.rs:693`), where a single node has contacted the data centre already. A client that sends its
  64-byte handshake and waits is served by a single node and never by a back
  (`DcRelay.HandshakeAloneIsNotServed`); both tell their data centres the same if and only if a raw byte
  reached the back or neither accepts the handshake (`DcRelay.BackServesAlike`).
- `FakeTlsStream::poll_write` leaves a record cut short when the sink stops inside it
  (`FakeTls.StallCutsARecord`); the wire holds whole records if and only if that never happens.
- Padding is added to the payload and never taken out again, so a peer reads what was sent if and only
  if none was drawn (`FakeTls.PeerReads`).
- A link that ends right behind a length field ends as cleanly as an empty one
  (`SgfbCrypto.HeaderAloneEndsCleanly`).
- The abandoned-hello heuristic takes the tail of a hello for a record if the tail starts with 17 03
  (`FakeTls.AbandonMisfires`). A hello is passed over and what stands behind it is kept if and only if no
  fill that starts inside its record starts 17 03 (`FakeTls.HandshakeEndsExactly`).
- Front and back disagree on encryption if and only if the front asks for it and the back has it switched
  off (`Split.TermsAgree`).
- Round robin is fair across a wrap of its 64-bit counter if and only if the number of backends divides
  two to the sixty-fourth (`BackendPool.FairExactly`); nonces repeat only after the counter has saturated
  (`SgfbCrypto.NonceReuse`).
- A front goes on with a hello that is cut short without checking its signature; it admits the same
  hellos as a single node but for these (`Uplink.GatesDifferExactly`, with `Uplink.CutHelloIsAdmitted`).
- A single node builds its record stream on the bare socket (`src/proxy.rs:133-136`), so what was peeked
  behind the hello is lost to it, while a front keeps the whole peek (`src/split.rs:300-308`). Both read the
  same if and only if no application data was peeked behind the hello (`DcRelay.SingleNodeDropsThePeek`); a
  client that sends hello and handshake in one segment is served by a back and never by a single node
  (`DcRelay.DataPeekedIsLost`).
- No gate looks at the version of the hello's record (`src/tls.rs:67-90`, `src/split.rs:152-190`), but the
  front's record stream does: on a version other than 03 01 and 03 03 it searches the hello for a header and
  delivers what it takes for a record there, which a single node never sees (`WholePath.RecordVersionMatters`).
  The hello is left alone if and only if its version is one of the two or nothing in its first 2048 bytes
  looks like a header (`FakeTls.FirstFillIsKeptExactly`).
- A hello cut short that claims more than 18432 bytes passes the front's gate, and its record stream then
  fails (`FakeTls.OversizedHello`).
- `docs/SPLIT.md` gives an error answer as one byte and a message; the code puts a two-byte length
  between them (`src/split.rs:616-618`), and sends nothing for a message that does not fit it. The model
  follows the code.

## Model

| member | source | states |
|---|---|---|
| WholePath.ClientToDc | src/split.rs:306-769 | for every chunking, delay and failure of the client's wire, the link, the answer and the relay, and every sink: the data centre is contacted only if the front read an OK and a raw byte reached the back behind its answer; if it is, it is told the index and tag that a single node with the same secret and payload would tell it, and a prefix of the same stream unless something was sealed or encrypted twice; with nothing lost or broken and every piece carried, it is contacted exactly if there is data behind the handshake, and told exactly the same precisely if every piece was copied; the payload is as in `PayloadIsDeframed` |
| WholePath.ClientToBack | src/split.rs:306-708 | the same up to the back's decryptor, for a record stream over a peek of any length and the client's socket, the payload being as in `PayloadIsDeframed` |
| WholePath.BackToDc | src/split.rs:693-769 | the handshake from the frame in front of any chunking of the decrypted relay, with stalls and failures anywhere, is served as the one stream they make up |
| WholePath.PayloadIsDeframed | src/split.rs:300-346 | behind a hello the stream leaves alone, peeked in part, whole, or with records behind it, the record stream carries the application data of what the hello leaves on the wire; if it was peeked whole, that is the data peeked behind it and then what a single node's carries, and the two are equal exactly if no data was peeked |
| WholePath.RecordVersionMatters | src/faketls.rs:405-413 | for every secret a hello of record version 03 02 that both gates admit for some keyed hash, from which the front's stream delivers a byte of its session id, while a single node reads nothing |
| Uplink.EndToEnd | src/split.rs:306-480 | for every chunking, delay and failure of the client's wire, of the link and of the answer, every sink, encrypted or plain: nothing but the frame goes out before the front has read an OK, and only a back that serves its very session sends one; once a raw byte has reached the back, and not before, the handshake followed by what the back decrypts is a prefix of the client's payload unless a frame was sealed twice; with nothing lost or broken it is all of it exactly if the link carries every piece and there is data behind the handshake; the session comes about whenever the frame arrives whole at a back that allows the peer, has the same token and secret and can answer, and the answer arrives |
| Uplink.OpenSession | src/split.rs:306-446 | up to the reading of the answer the link holds the frame alone, and an OK that was sent or read comes from a back that holds the front's handshake and has allowed it |
| Uplink.ReadAnswer | src/split.rs:427-441 | it succeeds only if the first byte that arrives is the OK byte, and fails otherwise or when the link fails |
| Uplink.FrontOpen | src/split.rs:306-346 | the front sends nothing before it holds a valid handshake, then the frame for that handshake, whole if the sink takes and flushes it and a prefix of it otherwise; handshake, deframed remainder and what is still to be deframed make up the payload; each way to fail has its cause |
| Uplink.ReadHandshake | src/split.rs:313-318 | the 64 bytes come off the front of the record stream's payload; it fails only for too little payload, a bad record or a failed connection |
| Uplink.FrontRelay | src/split.rs:445-476 | whatever part of the front's relay arrives opens to a prefix of one text, which is what was forwarded exactly if the link carries every piece; a plain link always does |
| Link.Relay | src/split.rs:445-476 | the link holds the sealed frames of exactly the remainder followed by the payload, piece by piece, once exactly if the sink takes every piece as it should, and otherwise more |
| Link.RelayPlain | src/split.rs:445-476 | on a plain link the remainder and the payload go out as they are, never twice, and all of them unless the sink stops |
| Link.PrimeAndCopy | src/split.rs:457-476 | the remainder is sealed before the first copied byte, and nothing that has arrived is left behind |
| Link.CopyUplink | src/proxy.rs:264-282 | every piece the copy loop moves comes off the front of the record stream, in order; what is sealed is the pieces exactly if the sink carries them all; it stops only at the end, for want of bytes, for a full link or for an error |
| Link.Forward | src/proxy.rs:264-282 | one piece written and flushed goes out once exactly if the sink takes its frames in one go and the flush drains; any stall in between is waited out |
| Link.PeekRaw | src/network.rs:37-57 | the peeked bytes are the first that arrive, at least one, and nothing else is taken; without any, the link has ended, failed or is silent |
| Link.BackUplink | src/split.rs:693-708 | the back is handed the stream exactly once a raw byte has arrived; peeking and putting back changes nothing: it is handed what the wire comes to, all of it unless the link fails, and a bad frame is an error exactly where the wire has one |
| Uplink.BackOpen | src/split.rs:795-942 | a back of any configuration that answers OK, even if the answer is not flushed, has read the front's very frame, holds its valid handshake and has derived its terms from it; it does answer OK if it allows the peer, shares token and secret, and everything arrives |
| Uplink.GatesDifferExactly | src/split.rs:152-190 | front and single node admit the same hellos except those cut short that the front can parse |
| Uplink.AdmittedIsSigned | src/faketls.rs:170-209 | a single node admits a buffer exactly if it holds a whole hello record that parses, whose bytes 11 to 42 are the hash of the record with these zeroed, keyed with the secret, the last four mixed with a time within 120 seconds of now |
| Uplink.CutHelloIsAdmitted | src/split.rs:152-190 | forty-four bytes of a record of 261 are admitted by the front and refused by a single node, whatever the secret |
| DcRelay.RelayToDc | src/proxy.rs:165-195 | for every sink, from the bytes on its wire alone the data centre reads the client's tag, the client's index with its sign or the fallback if that is zero, and, unless something was encrypted twice, a prefix of the client's text; once the stream has run dry, all of it exactly if the sink copies every piece as it should; tag, index and text are what bytes 56, 60 and 64 on of the client's stream decrypt to under the hash of bytes 8 to 39 with the secret |
| DcRelay.ServedSays | src/mtproto_obfuscate.rs:136-189 | the same of what a stream is to become upstream: it is served exactly if its tag is one of three, and then as its bytes say |
| DcRelay.DcViewSays | src/mtproto_obfuscate.rs:213-276 | a data centre's view is what the bytes after the header's keys decrypt to, without a secret |
| DcRelay.KnownAddresses | src/mtproto_obfuscate.rs:409-419 | whatever port follows, the four listed addresses give data centres 4, 3, 1 and 5, each only that address, and any other the second |
| DcRelay.CopyFlushed | src/proxy.rs:264-282 | the pieces copied between two obfuscated2 streams are exactly what was decrypted, in order; what is encrypted anew is the pieces, once, exactly if the first attempt at each takes something; nothing that has arrived is left behind |
| DcRelay.ServeDc | src/split.rs:743-769 | header first, then the copied stream under the header's own cipher at position 64; each way to fail has its cause |
| DcRelay.BackServesAlike | src/split.rs:651-769 | a back's data centre is told the index and tag that a single node with the same secret would tell it exactly if a raw byte was peeked or neither accepts, a prefix of its stream as far as it was delivered, and the whole of it exactly if all was |
| DcRelay.SingleNodeDropsThePeek | src/split.rs:300-308 | behind a hello peeked whole, with whole records behind it in the peek, the front reads the data peeked and then what a single node reads; the two are equal exactly if no data was peeked |
| DcRelay.SplitRefinesMonolith | src/split.rs:651-769 | the split against a single node for such a client, over any chunking of its records: with all of its data delivered both tell their data centres exactly the same if and only if no data was peeked behind the hello, and then they agree as in `BackServesAlike` whatever was delivered |
| DcRelay.DataPeekedIsLost | src/split.rs:300-308 | for every secret and every short whole hello a client that sends its handshake with the hello is served by a back and not by a single node |
| DcRelay.HandshakeAloneIsNotServed | src/split.rs:693-693 | for every secret there is a handshake that a single node serves and a back, without a byte behind it, does not |
| DcRelay.DcReads | src/mtproto_obfuscate.rs:213-276 | what a data centre decrypts with what it derives from the header is what was encrypted, as far as it has arrived |
| Session.SessionIsSafe | src/split.rs:388-524 | in every state of every run: no client byte is taken and no byte beyond the frame is sent before an OK was read on that connection, every back is sent a prefix of the same frame and answers at most once, and the chosen back has allowed the peer, knows the token, holds a valid handshake for ee and has otherwise reached its server, and agrees on keys, and on encryption unless it does not offer it |
| Session.RunsAreSafe | src/split.rs:388-524 | the invariant behind it holds in every reachable state, over all interleavings, partial writes, failures and failovers |
| Session.BackReadsTheFrame | src/split.rs:527-595 | whatever part or extension of the frame has arrived, a back that finds the end of a frame has found the front's |
| Split.TermsAgree | src/split.rs:383-383 | both sides derive equal keys, and agree on encryption exactly unless the front encrypts and the back does not |
| Split.KeysTellApart | src/sgfb_crypto.rs:27-46 | the keys of two sessions differ if their tokens or opening frames do, and the two directions always differ, unless two of the hashed strings, label, token and hash of the frame in a row, collide |
| Split.HandleBackConnection | src/split.rs:795-942 | the back decides what the arrived bytes demand unless the connection fails, reads no byte beyond one frame, none at all from a stranger, sends a prefix of that one answer, and serves exactly if it accepts and its answer was written and flushed; an accepting back vouches for the frame, and for a session that is not ee has reached its server |
| Split.VerdictExactly | src/split.rs:795-942 | for every frame a front makes, in each mode: the one reason of each refusal, and acceptance exactly if the peer is allowed, the token's hash is the back's, and for ee the data is 64 bytes whose tag decrypts under the back's secret, otherwise the server was reached |
| Split.SendAck | src/split.rs:597-624 | the answer goes out whole if the sink takes it all, and an acceptance succeeds exactly if it was also flushed, stalls being waited out |
| Split.AckBytes | src/split.rs:597-624 | the first byte is the OK byte only for an acceptance |
| Split.AnswerReads | src/split.rs:597-624 | an acceptance is one zero byte; a refusal is a one, the length of its text in two bytes and the text, or nothing if that is too long |
| Split.Dialer.DialBacks | src/split.rs:388-524 | the chosen back is the first to answer OK and has the whole frame; backs before it have a prefix of the same frame as their outcome says, backs after it have nothing; each back that is tried is dialled once, but the first not at all if a connection was made ahead; the last error is reported |
| Split.Dialer.Attempt | src/split.rs:405-446 | an attempt writes the frame up to where it breaks and succeeds only on the OK byte |
| OpeningFrame.DecodeInvertsEncode | src/split.rs:47-129 | decoding gives back mode, backend and data for every backend up to 256 bytes and data up to 65536, and encoding fails exactly beyond these |
| OpeningFrame.EncodeInvertsDecode | src/split.rs:47-129 | a frame within the limits is spelled in one way only |
| OpeningFrame.FrameDelimitsItself | src/split.rs:527-595 | a frame marks its own end, whatever follows |
| OpeningFrame.EncodedIsRead | src/split.rs:527-595 | the reader finds exactly the encoded frame in front of anything |
| OpeningFrame.ReadOpeningFrame | src/split.rs:527-595 | the reader finds what is at the front of the stream or says why not, takes that and no byte more, and what it returns passes every length check of the decoder |
| OpeningFrame.WholeFrameDecodes | src/split.rs:82-129 | a frame that ends where it says can be refused only for its version, mode or text |
| SgfbCrypto.EncryptedStream.constructor | src/sgfb_crypto.rs:118-132 | a fresh stream's outlook is its wire opened from counter zero |
| SgfbCrypto.EncryptedStream.PollRead | src/sgfb_crypto.rs:136-245 | every poll takes its bytes off the front of what the whole wire opens to; a bad frame is reported only after everything before it, end of stream is clean only with zero or two bytes of a frame left, failures pass through once, and the poll terminates |
| SgfbCrypto.EncryptedStream.NextFrame | src/sgfb_crypto.rs:153-226 | resuming at any byte of header or body loses nothing |
| SgfbCrypto.EncryptedStream.ReadHeaderByte | src/sgfb_crypto.rs:155-178 | a header byte moves from the wire into the buffer; a stall, end or failure moves nothing |
| SgfbCrypto.EncryptedStream.FillHeader | src/sgfb_crypto.rs:155-188 | the length is refused exactly if it is zero or above 16400 |
| SgfbCrypto.EncryptedStream.FillBody | src/sgfb_crypto.rs:190-213 | at most 1024 bytes of body move, and an incomplete body is pending, not lost |
| SgfbCrypto.EncryptedStream.OpenBody | src/sgfb_crypto.rs:215-228 | opening a body delivers the plaintext of the frame at the front of the outlook, or the frame does not open |
| SgfbCrypto.EncryptedStream.HandOut | src/sgfb_crypto.rs:143-151 | bytes are handed out in order and only once |
| SgfbCrypto.EncryptedStream.DrainWritePending | src/sgfb_crypto.rs:247-279 | wire and pending bytes together never change; one attempt, and a short write is pending |
| SgfbCrypto.EncryptedStream.SealChunk | src/sgfb_crypto.rs:299-312 | the pending frame is the next one of the log under the next nonce |
| SgfbCrypto.EncryptedStream.PollWrite | src/sgfb_crypto.rs:282-319 | wire and pending bytes spell the frames of all sealed chunks under nonces 0, 1, 2 and so on after every poll; the answer, what is sealed and what is used of the sink are exact; a chunk is reported only when its frame is on the wire |
| SgfbCrypto.EncryptedStream.PollFlush | src/sgfb_crypto.rs:321-328 | nothing is pending when it succeeds, and its answer is exact |
| SgfbCrypto.EncryptedStream.Flush | src/sgfb_crypto.rs:321-328 | flushing until it is done seals nothing, keeps wire and pending bytes in line, and ends as the sink's script says |
| SgfbCrypto.EncryptedStream.WriteAll | src/sgfb_crypto.rs:282-319 | for every sink, from a drained stream: the buffer is sealed exactly once and accepted if and only if the sink takes each of its frames in one go; when it is accepted otherwise, more has been sealed |
| SgfbCrypto.StallSealsTwice | src/sgfb_crypto.rs:299-317 | one stall and the same chunk is sealed twice |
| SgfbCrypto.HeaderAloneEndsCleanly | src/sgfb_crypto.rs:197-206 | a wire that ends behind a length field is reported as a clean end |
| SgfbCrypto.PeerDelivers | src/sgfb_crypto.rs:136-319 | at any moment the peer can open what has reached it to a prefix of the sealed chunks, and to exactly these once nothing is pending or on its way |
| SgfbCrypto.RoundTrip | src/sgfb_crypto.rs:59-76 | opening the frames of any log returns the log and leaves nothing over |
| SgfbCrypto.PrefixOpens | src/sgfb_crypto.rs:136-245 | any prefix of such a wire opens to whole chunks and a remainder, with no complaint |
| SgfbCrypto.BadFrameEndsIt | src/sgfb_crypto.rs:153-228 | a frame of no length or more than 16400 bytes, or whose tag does not fit under its number's nonce, ends the reading: everything sealed before it is delivered, nothing of it or behind it |
| SgfbCrypto.NonceRecovers | src/sgfb_crypto.rs:78-82 | the twelve bytes of a nonce, read as one number, are the counter |
| SgfbCrypto.FrameLength | src/sgfb_crypto.rs:297-312 | every length written lies in 17 to 16400, so the cast loses nothing and the reader accepts it |
| SgfbCrypto.NonceReuse | src/sgfb_crypto.rs:59-82 | two frames of one direction share a nonce exactly when both come after the counter has saturated |
| FakeTls.FakeTlsStream.PollRead | src/faketls.rs:448-519 | every poll takes its bytes off the front of what the fills to come deframe to; the only error of its own is for a record that is too large, after everything before it; failures pass through once, and the poll terminates |
| FakeTls.FakeTlsStream.TakeRecords | src/faketls.rs:461-493 | whole records leave the stash in order and only application data is delivered |
| FakeTls.FakeTlsStream.Settle | src/faketls.rs:499-517 | between records a short stash is filled and garbage before the next header is skipped, and nothing else |
| FakeTls.FakeTlsStream.PollFill | src/faketls.rs:416-433 | a fill appends at most 2048 bytes of the wire to the stash |
| FakeTls.FakeTlsStream.HandOut | src/faketls.rs:448-460 | buffered bytes are handed out in order and only once |
| FakeTls.FakeTlsStream.TakeReadBuf | src/faketls.rs:369-371 | the remainder is handed over once and is no longer delivered |
| FakeTls.FillsCarryAll | src/faketls.rs:416-433 | the fills of any script carry exactly its bytes |
| FakeTls.ChunkingIsIrrelevant | src/faketls.rs:448-519 | on well-formed change-cipher-spec and application-data records every chunking delivers what one pass over the whole wire does (section 5.1 of RFC 8446) |
| FakeTls.AbandonExactly | src/faketls.rs:437-444 | a fill replaces the stash exactly when the stash starts a handshake record and the fill starts 17 03 |
| FakeTls.HandshakeEndsExactly | src/faketls.rs:437-494 | over a whole wire and any fills, what is left behind a handshake record at its front is what stands behind it exactly if no fill that starts inside the record starts 17 03 |
| FakeTls.HandshakeIsPassedOver | src/faketls.rs:461-493 | a handshake record at the front delivers nothing, whether it is completed or abandoned, and all records behind it are delivered |
| FakeTls.FirstFillIsKeptExactly | src/faketls.rs:508-517 | the first fill of a hello is left alone exactly if its version is one the stream knows or nothing in it looks like a header; otherwise the stream goes on from the first place that does |
| FakeTls.PeekedHelloIsPassedOver | src/faketls.rs:437-494 | the same for a stream that starts with a peek of any length that the first fill leaves alone |
| FakeTls.BehindHelloExactly | src/faketls.rs:437-494 | what is left is what stands behind the hello on the wire exactly if no fill that starts inside the hello, later ones of the peek included, starts 17 03 |
| FakeTls.OversizedHello | src/faketls.rs:462-468 | a hello that claims more than a record may hold ends the stream with an error and no data |
| FakeTls.AbandonedHello | src/faketls.rs:482-494 | a cut hello followed by a fill that starts 17 03 is dropped, exactly it, and the records behind it are delivered whole |
| FakeTls.CompleteHello | src/split.rs:300-308 | a peek that holds the whole hello leaves the bytes peeked behind it and those that follow |
| FakeTls.AbandonMisfires | src/faketls.rs:437-444 | the tail of a hello that starts 17 03 is delivered as data |
| FakeTls.FakeTlsStream.PollWrite | src/faketls.rs:523-558 | what is reported as written is what went out in whole records, pending means that nothing went out, and a failure of the sink is reported once; the wire holds whole records exactly if it did before and the sink does not stop inside one; answer, size list and what is used of the sink are exact; a complete write is cut by the size list |
| FakeTls.FakeTlsStream.WriteAll | src/faketls.rs:523-558 | written again whenever it was blocked, a buffer goes out in whole records with no byte twice and none left out, and with nothing else on the wire exactly if the sink never cuts a record or fails |
| FakeTls.FakeTlsStream.WriteRecords | src/faketls.rs:529-556 | the loop puts out records until the buffer ends or the sink stops, with how far it came and what was cut |
| FakeTls.FakeTlsStream.WriteRecord | src/faketls.rs:531-555 | one chunk becomes one record, padded within the record limit, or is cut where the sink stops |
| FakeTls.FakeTlsStream.PutRecord | src/faketls.rs:537-555 | a record is offered until it is taken or the sink stops; what was taken is on the wire |
| FakeTls.CutFollowsSizes | src/faketls.rs:373-383 | the pieces make up the buffer, each of 1 to 16384 bytes, and follow the size list in turn up to the last |
| FakeTls.CutFills | src/faketls.rs:373-383 | without a size list every piece but the last is 16384 bytes |
| FakeTls.SizesGoOn | src/faketls.rs:373-383 | after a complete write the list stands behind its last piece, so the next write goes on from there |
| FakeTls.StallCutsARecord | src/faketls.rs:547-551 | three bytes of a record go out and nothing is reported as written |
| FakeTls.WrittenIsRead | src/faketls.rs:448-558 | a reader of the records receives exactly their payloads, however they are chunked |
| FakeTls.PeerReads | src/faketls.rs:385-402 | the peer reads exactly what was sent, if and only if no padding was drawn |
| ClientHelloAuth.SignedIsValid | src/faketls.rs:170-245 | a signed record, with anything behind it, parses as before but for its random, and passes exactly if the clock at signing, on 32 bits, is at most 120 seconds away |
| ClientHelloAuth.ValidExactly | src/faketls.rs:170-209 | a hello passes exactly if its random is one that signing within 120 seconds of now puts in |
| ClientHelloAuth.ValidSays | src/faketls.rs:170-209 | a hello passes exactly if its random starts with 28 bytes of the keyed hash over the record with the random zeroed and the rest, mixed with the hash, is a time within 120 seconds, lowest byte first |
| ClientHelloAuth.ValidateClientHello | src/faketls.rs:170-209 | the checking loops compute the verdict the two lemmas above are about |
| ClientHelloAuth.SignClientHelloRecord | src/faketls.rs:225-245 | signing in place replaces the random field, blanked for the hash, and nothing else |
| ClientHelloAuth.PrefixAgreesWithRecord | src/faketls.rs:69-167 | on a complete record both parsers read the same random, session id and server name |
| ClientHelloAuth.PrefixSays | src/faketls.rs:69-121 | a buffer that may stop anywhere is readable exactly if it goes to the end of its session id, and tells its random and session id |
| ClientHelloAuth.ParseSeesRandomOnly | src/tls.rs:92-209 | no other parsed field depends on the random |
| Tls.ExtractSni | src/tls.rs:212-235 | the loop finds the name in the first server-name extension, if that is complete |
| Tls.SniIsFoundBehind | src/tls.rs:212-235 | behind any whole extensions of other types, in front of anything, the host of a server-name extension is found, and without one none is |
| Tls.ParseSniExtension | src/tls.rs:237-265 | the loop finds the first host name of the extension |
| Tls.FirstHostCounts | src/tls.rs:237-265 | behind any names of other types the first host name of a list is found if it is text, whatever follows, and a list without one names none |
| Tls.ParsersAgree | src/tls.rs:92-357 | where the strict parser succeeds the tolerant one finds the same name |
| Tls.SniFromPayloadIsStable | src/tls.rs:298-357 | a name found in part of a message is the name found in any more of it |
| Tls.SniIsStable | src/tls.rs:278-295 | a name found in a buffer is the name found in every extension of it |
| Tls.TryIsTolerant | src/tls.rs:278-295 | trying strictly first never changes the answer |
| Tls.MessageParses | src/tls.rs:92-209 | the strict parser takes a message apart into the fields it was made of, whatever stands behind it |
| Tls.SniIsFound | src/tls.rs:212-265 | the name in a server-name extension is found, whatever extensions follow |
| Tls.CutHelloNamesHost | src/tls.rs:298-357 | of a hello cut anywhere the tolerant parser finds the host exactly if the server-name extension has come whole, wherever it stands |
| Tls.CutHelloIsRefused | src/tls.rs:92-209 | the strict parser refuses a hello that is cut anywhere |
| Tls.CutRecordTells | src/tls.rs:278-295 | a record cut anywhere behind the first byte of its message tells what that part of the message tells |
| Tls.BuiltHelloParses | src/tls.rs:449-486 | the built hello is a whole record that parses, to the name it was built for |
| Obfuscated2.ApplySplit | src/mtproto_obfuscate.rs:314-328 | applying the keystream in pieces is applying it in one pass |
| Obfuscated2.KeysSurvive | src/mtproto_obfuscate.rs:225-276 | forwards and backwards the keys depend on bytes 8 to 55 only, so what is embedded behind them changes none |
| Obfuscated2.HandshakeIsUnderstood | src/mtproto_obfuscate.rs:47-189 | whatever handshake carries a valid tag and an index, every reader of it finds these |
| Obfuscated2.AcceptedExactly | src/mtproto_obfuscate.rs:47-189 | a handshake is accepted exactly if the secret has 16 bytes and bytes 56 to 59 decrypt, under the hash of bytes 8 to 39 with the secret and the vector in bytes 40 to 55, to one of three tags; index, tag and both ciphers are what its bytes say |
| Obfuscated2.SecretMatters | src/mtproto_obfuscate.rs:47-75 | for any two secrets there are a hash and a keystream under which a handshake made for one is refused for the other |
| Obfuscated2.PeerSays | src/mtproto_obfuscate.rs:213-276 | what a data centre derives from a header is what its bytes say, the keys standing in it as they are |
| Obfuscated2.FirstUsableSays | src/mtproto_obfuscate.rs:221-235 | the draw that is used is the first that starts like none of the protocols listed |
| Obfuscated2.ReadersAgree | src/mtproto_obfuscate.rs:47-189 | the readers of a handshake never disagree, whatever its bytes, and acceptance leaves the decryptor at 64 and the encryptor at 0 |
| Obfuscated2.GenerateTestHandshake | src/mtproto_obfuscate.rs:433-465 | for every index on 16 bits, every valid tag and every secret of 16 bytes all readers recover both; bytes 0 to 55 are those of the first usable draw |
| Obfuscated2.GenerateRelayInit | src/mtproto_obfuscate.rs:213-276 | from the 64 bytes alone the peer recovers the tag, the index and both ciphers as the generator holds them, at 64 and 0; only an invalid tag is refused |
| Obfuscated2.AcceptHandshake | src/mtproto_obfuscate.rs:136-189 | it takes 64 bytes off the stream and no more, accepts them exactly as in `AcceptedExactly`, and leaves both ciphers at the keys, vectors and positions that the bytes and the secret give |
| Obfuscated2.ObfuscatedStream.PollRead | src/mtproto_obfuscate.rs:314-328 | chunked decryption is decryption in one pass, and it answers as the stream below does |
| Obfuscated2.ObfuscatedStream.PollWrite | src/mtproto_obfuscate.rs:336-390 | wire and pending bytes are the encryption of everything encrypted in one contiguous keystream, unless and only unless the sink fails right after an encryption; answer, text encrypted and what is used of the sink are exact |
| Obfuscated2.ObfuscatedStream.PollFlush | src/mtproto_obfuscate.rs:392-401 | it keeps the stream aligned, encrypts nothing, and nothing is pending when it succeeds |
| Obfuscated2.ObfuscatedStream.Flush | src/mtproto_obfuscate.rs:392-401 | flushing until it is done encrypts nothing and ends as the sink's script says; nothing is pending when it succeeds |
| Obfuscated2.ObfuscatedStream.WriteAll | src/mtproto_obfuscate.rs:336-390 | from a drained stream the buffer is encrypted exactly once and accepted, if and only if the sink takes some of it at the first attempt |
| Obfuscated2.StallEncryptsTwice | src/mtproto_obfuscate.rs:371-389 | one stall and the same text is encrypted twice |
| Obfuscated2.PeerReads | src/mtproto_obfuscate.rs:313-401 | a peer that starts at the same position reads what has reached it as a prefix of what was encrypted, even after a write has failed |
| Streams.PrefixedStream.PollRead | src/io_util.rs:29-44 | the stream is indistinguishable from one whose script starts with the unread prefix as a segment of its own |
| Limits.ConnectionLimiter.Acquire | src/limits.rs:16-54 | it succeeds exactly if neither table is at its limit and the address is not blacklisted; a refusal leaves both tables as they were |
| Limits.ConnectionLimiter.Release | src/limits.rs:57-70 | it gives back one slot in each limited table |
| Limits.TakeThenGive | src/limits.rs:25-83 | taking a slot and giving it back restores the table |
| Limits.RunsConserve | src/limits.rs:16-83 | in every state of every interleaving of lock-sized steps each count is the number of connections that hold, or still roll back, a slot, and no entry is zero |
| Limits.RunsStayWithin | src/limits.rs:16-83 | a fixed limit is never exceeded |
| Limits.RefusedForCause | src/limits.rs:16-54 | in every run, who has got past the start is not blacklisted, and who is refused is blacklisted or came when as many connections held a slot as the limit allows |
| Limits.HoldersDecide | src/limits.rs:25-54 | each decision is taken by the blacklist or by the number of connections that hold a slot just then, both ways |
| Limits.NeverSaturates | src/limits.rs:57-83 | a connection that gives a slot back has one, so the subtraction never saturates |
| Limits.NeverStuck | src/limits.rs:40-83 | locks nest only secret before address: while a connection has not ended, some connection can step |
| Limits.NothingLeaks | src/acceptor.rs:135-163 | when all connections have ended both tables are empty |
| BackendPool.OrderIsPermutation | src/backend_pool.rs:78-102 | the order is a permutation of the pool, the preferred backend first, the others in cyclic order |
| BackendPool.Pool.constructor | src/config.rs:190-198 | the pool lists the primary first and every configured backend once |
| BackendPool.Pool.ConnectionOrder | src/backend_pool.rs:78-102 | removing and inserting in place computes that order, starting where the counter stands, and advances the counter only for a round robin of several; without a preferred backend it starts with the first one, or with the one whose turn it is |
| BackendPool.Pool.Connect | src/backend_pool.rs:38-71 | it returns the first backend in that order that is not cooling down and can be reached; exactly those tried in vain are marked, each with the time at which that was known, and the failover count grows by their number |
| BackendPool.FairExactly | src/backend_pool.rs:83-92 | over n consecutive calls each of n backends leads, and none twice, exactly unless the counter wraps between them and n does not divide its range |
| AntiReplay.AntiReplayCache.CheckReplay | src/antireplay.rs:24-41 | over every sequence of calls the answer is that of the window of the last fingerprints that were new; set and queue stay in step, distinct and within capacity |
| AntiReplay.WindowIsDistinct | src/antireplay.rs:24-41 | the remembered fingerprints are distinct |
| AntiReplay.HitsDoNotRefresh | src/antireplay.rs:24-41 | asking again at once is a replay, and a replay, whenever it was, changes no answer to anything asked after any further calls |
| AntiReplay.RememberedExactly | src/antireplay.rs:24-41 | a fingerprint is forgotten exactly after as many newer ones as the cache holds |
| AntiReplay.NeverAsked | src/antireplay.rs:24-41 | what was never asked about is no replay |

## Left out

- The insides of AES-CTR, ChaCha20-Poly1305, SHA-256 and HMAC, and everything about secrecy: library calls, kept as arbitrary functions. `Lawful` asks only that opening undoes sealing and that the tag is sixteen bytes; nothing is claimed about what a forger can do.
- Wake-ups: several paths return pending without one registered (`src/sgfb_crypto.rs:209-211`, `src/faketls.rs:487-489`). Termination of each poll and safety are proved; that a runtime polls again is taken for granted.
- Uplink.EndToEnd: about the bytes it promises something only where front and back treat the link alike (`Uplink.Agree`: the same token, and the back encrypts or the front does not). Where they do not, `Split.TermsAgree` says so, and the back reads frames as plain bytes.
- The non-ee path through front and back: the front sends the initial data twice there (`src/split.rs:353-361`, `src/split.rs:478-480`), and the rest is a byte copy. `Split.HandleBackConnection` covers the back's decisions for it.
- The way down, from the data centre to the client: the same stream classes in the other direction, composed by the same copy loop.
- Which secret a label resolves to: front and back are given theirs. The back always uses the default one (`src/split.rs:649`), so `Uplink.EndToEnd` promises acceptance only where the two are equal.
- DcRelay.SplitRefinesMonolith: it is about a hello peeked whole and a peek that does not end inside a record behind it. If it does, a single node starts inside that record and searches for a header from there; what a front reads then is still told by `FakeTls.CompleteHello`.
- Link.CopyUplink: after a write error that counts as a closed connection the program flushes once more (`src/proxy.rs:286-303`), which can still put pending bytes on the wire; here, as in `DcRelay.CopyFlushed`, the copy ends with the error. Those bytes are in line with what went out before: wire and pending bytes are kept together by every poll.
- DcRelay.RelayToDc: the stream below the decryptor is any chunking of its bytes, not the record stream or the relay stream itself; `WholePath.ClientToDc` joins the two sides by what was decrypted, however it is cut up.
- Random numbers: padding and handshake draws are parameters. A run that meets no usable draw is `NoHeader` here and another round of the loop in the program.
- Sockets, timeouts, SOCKS5, connecting: outcomes in the scripts, in `Split.Outcome` and in the actions of `Session`. `header_buf` is a value of two bytes and the polls are split into helper methods; their order of effects is the program's.
- `poll_shutdown` and dropping a stream: they forward to the stream below.
- ServerHello, the padded hello builder, the cipher suite of `parse_client_hello_prefix` (it reads the length field, `src/faketls.rs:109-113`), JA4, the detector, fragmentation, DRS and dd writers: easy members or of no consequence for the bytes relayed.
- The web interface, REST and admin sockets, sessions, users, webhooks, metrics, configuration files and scripts.
