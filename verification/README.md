# wolfNanoTLS: a verified model of the TLS 1.3 client shell

wolfNanoTLS is an allocation-free TLS 1.3 client. This project models the hand-written code in `src/`
in Dafny and proves what it is for: the record layer, the wire codec and the hello messages, the
identity checks, the two handshake drivers (PSK and certificate) and the application-data session.
The cryptography behind the `wc_*` calls is a parameter: `Crypto.Suite` holds an AEAD, a hash, HMAC
and HKDF as functions, `Chain.Pki` the certificate library, and the drivers take the signature check
and the key agreement as functions. The transport is `Transport.Channel`: it fixes in advance, in
every possible way, how `recv` divides the incoming bytes and what each `send` answers.
`Crypto.DemandsConsistent` exhibits a suite with the output sizes, the inverse and the total key derivation
that the theorems ask for, and `IdealAead.AssumptionsMet` a peer over it that meets every hypothesis of the
in-order theorems, ideal AEAD included, in a run that authenticates a record and returns data.
`Counting.SuiteExists` exhibits one whose derived secrets and keys never collide, for the theorems that ask
for that.

Code that updates buffers and fields is modelled as methods and classes on arrays, with the loops of
the source; each is proved against a specification function, and the theorems are about those
functions. What the specification functions themselves say is tied to a second description that shares
neither code nor constants with them: numbers and bits (`Numbers`), records (`RecordLaw`), the key
schedule (`Rfc8446` in `Schedule.dfy`), a server's reading of the ClientHellos (`HelloServer`), a whole
server (`PeerServer`), a peer that follows the application keys (`Delivery`), names by label and chains from
the anchor down (`IdentityLaw`).

| file | contents |
|---|---|
| `Base.dfy` | bytes, big-endian integers, handshake messages, exclusive or |
| `Numbers.dfy` | byte strings as numbers, bytes as bits |
| `Wire.dfy` | the sticky-error writer and reader; trees of nested vectors |
| `Record.dfy` | the cryptographic seam, the transport, records and nonces |
| `RecordLaw.dfy` | nonces, frames and protected records as RFC 8446 lays them out |
| `Schedule.dfy` | the key schedule of an independent endpoint, and what equal keys say about their inputs |
| `Session.dfy` | the client's key schedule, the session as a state machine and as a class |
| `SessionRuns.dfy` | whole runs: nonce uniqueness per epoch and per key, key coherence |
| `Counting.dfy` | a suite that meets what those theorems ask of a key derivation |
| `Delivery.dfy` | what the records handed over say to a peer, and how receives and closes end |
| `PostMessages.dfy` | the language of post-handshake records |
| `InOrder.dfy` | whole runs: in-order integrity, when exactly it holds, and a run in which it fails |
| `KeySync.dfy` | two endpoints: key synchronisation |
| `Extensions.dfy`, `ServerHello.dfy`, `ClientHello.dfy` | the hello grammars, the parser and both builders |
| `HelloServer.dfy` | what a server reads in either ClientHello, and its check of the PSK binder |
| `Messages.dfy` | EncryptedExtensions, Certificate, CertificateVerify, the order gate |
| `Identity.dfy` | host names and certificate chains, each in two ways |
| `Flight.dfy` | the flight reassembler, its independence of record boundaries, its exact language |
| `Readers.dfy` | both flight loops on their buffers |
| `Handshake.dfy` | the steps both connect calls share, from the hello records to the application secrets |
| `PeerServer.dfy` | a server with its own messages, records and key schedule, and its agreement with the client |
| `ConnectPsk.dfy`, `ConnectCert.dfy` | both connect calls, what an established session means, and servers that get one |

Main results:

- **Established means authenticated.** `ConnectPsk.Connect` and `ConnectCert.Connect` set the
  established flag exactly when the specification reaches an outcome, and `EstablishedMeans` says what
  that implies, in terms of a server that shares nothing with the client but the suite: the ClientHello is
  the one meant and was sent whole; the server's hello selects what was offered and echoes the session id;
  the flight is exactly EncryptedExtensions, Finished or EncryptedExtensions, Certificate,
  CertificateVerify, Finished, correct for a server that has the agreed secret, both hellos and (with a
  PSK) the PSK; that server accepts the client's Finished, which was taken whole, and both hold the same
  handshake and application keys. `ConnectCert.IdentityBound` adds that the anchor vouches for the chain
  whose leaf signed. A failing call that passed its argument checks leaves the flags at 0; a call with
  bad arguments touches nothing.
- **Honest servers get a session.** `HonestServerConnects`: with every such server that answers with an
  acceptable hello and a correct flight, over a transport that takes what it is handed, the client
  establishes a session, the server accepts its Finished and the application keys agree.
  `HonestServerExists`: there is one for every agreement that accepts some share and, with certificates,
  every trust that accepts some chain and signer; with a PSK exactly if the identity leaves room for the
  extension block, because exactly then a server that computes the binder by itself accepts the hello
  (`ConnectPsk.BinderAccepted`). `ConnectPsk.HelloRecordLegal` says for exactly which identities the record
  around the hello is one. The code accepts longer ones than either.
- **Keys depend on everything they should.** Where extract and expand do not collide, equal handshake keys
  mean equal early secrets, equal agreed secrets and equal hellos (`KeySeparation.KeysFixInputs`).
- **Only the bytes matter.** How `recv` divides the stream does not matter (every contract speaks of
  `Stream(incoming)` alone), nor does how the server divides its flight into records
  (`Division.DivisionIrrelevant`): the incremental reassembler is one pass over the contents.
- **Whole-run safety of the session.** No epoch's write key seals two records under one nonce
  (`NonceSafety.NonceNeverReused`), and no key does while the "traffic upd" chain does not repeat and "key"
  tells its members apart (`NonceSafety.KeyNeverReusesNonce`); keys stay those of RFC 8446. Two endpoints
  stay synchronised under any interleaving of KeyUpdates and split messages.
- **What is sent is what is heard.** Over every run a peer that starts from the application secret and
  steps its keys by itself opens, in order, one application-data record with exactly the caller's bytes
  for each send handed over, the KeyUpdate replies, and the close_notify (`Delivery.PeerHears`).
- **In-order integrity, exactly.** Against a network that drops, reorders, replays or alters, the
  authenticated records are a prefix of what the peer sealed, for every peer that ends its handshake
  records between messages (`PeerRules.WholePeerInOrder`). It is false for some peers that split a message
  over two records, which section 5.1 of RFC 8446 allows: `wn_Recv` reports the first half as an error but
  leaves the session open and reads the second half from its own start. `PeerRules.SplitTicketSkips` is a
  run over a grammatical NewSessionTicket in which a record is skipped, and `InOrderExact.IntegrityExact`
  says for exactly which peers no such run exists: wherever reading the peer's records one by one can take
  the receiver, the peer goes too, or never does.
- **Exact languages.** What the ServerHello parser, the Certificate parser, the EncryptedExtensions
  check, post-handshake records, both flights, the host match and the chain check let through, and which
  signature schemes the hellos offer, is characterised by an if-and-only-if with a grammar or a declarative
  specification.

## Model

| member | source | states |
|---|---|---|
| `Wire.Writer.WriteU16` | src/wn_msg.c:48-58 | appends the two bytes of v; the error is latched exactly when more was asked for than the capacity, and until then the buffer holds everything asked for |
| `Wire.Writer.WriteU24` | src/wn_msg.c:60-71 | the same for three bytes |
| `Wire.Writer.WriteBytes` | src/wn_msg.c:73-84 | the same for a byte string of any length that 32 bits can count |
| `Wire.Writer.LenStart` | src/wn_msg.c:86-97 | reserves the zeros of a 1-, 2- or 3-byte length and returns the offset behind them |
| `Wire.Writer.LenEnd` | src/wn_msg.c:99-113 | overwrites exactly the reserved bytes with the number of bytes written since, all other bytes of the buffer unchanged, also behind the end; a count too long for its prefix loses its high bytes |
| `Wire.Reader.ReadU16` | src/wn_msg.c:138-151 | reads the big-endian value and advances, or latches the error, stays and returns 0 |
| `Wire.Reader.ReadU24` | src/wn_msg.c:153-168 | the same for three bytes |
| `Wire.Reader.ReadBytes` | src/wn_msg.c:170-183 | returns exactly the next n bytes and advances, or latches the error, stays and returns NULL, for any n that 32 bits can count |
| `WireTree.WriteItem` | src/wn_msg.c:37-113 | for any tree of nested vectors the two-pass writer emits the recursively defined encoding |
| `WireTree.ReadItem` | src/wn_msg.c:123-183 | reads that follow the tree's shape recover every value and end right behind the encoding |
| `WireTree.RoundTrip` | src/wn_msg.c:37-183 | writing succeeds exactly when the encoding fits the capacity; the buffer then equals it, and reading gives the tree back and ends behind the last byte |
| `Record.RecvExact` | src/wn_record.c:34-51 | n bytes arrive exactly when the stream has them before the next failure, however recv divides it; nothing else in the buffer changes |
| `Record.RecvRecord` | src/wn_record.c:53-80 | the record read is the one framed at the front of the byte stream, whatever the chunking; error codes as framed; nothing behind the capacity is written |
| `Record.Frame` | src/wn_record.c:59-77 | a framed record is a prefix of the stream of at least 6 bytes that fits the capacity |
| `Record.BuildNonce` | src/wn_record.c:82-90 | the in-place loop yields the nonce that `RecordLaw.NonceLaw` and `Record.NonceInjective` are about |
| `Record.NonceInjective` | src/wn_record.c:82-90 | for one iv, two sequence numbers below 2^64 with the same nonce are equal |
| `Numbers.XorIsBitwise` | src/wn_record.c:87-89 | each of the eight bits of the arithmetic exclusive or is set exactly if that bit of the operands differs |
| `RecordLaw.NonceLaw` | src/wn_record.c:82-90 | as a big-endian number the last eight bytes under a zero iv are the sequence number; under any other iv they are exclusive-ored with its bytes, and its first four bytes are kept |
| `RecordLaw.FrameExact` | src/wn_record.c:53-80 | a stream starts with a framed record exactly when it starts with a type, two bytes nobody looks at, and a length that is the fragment's and within 2^14 + 256 and the capacity; a change_cipher_spec is the single byte 1 |
| `Record.Protect` | src/wn_record.c:92-163 | succeeds exactly up to 2^14 bytes; the buffer then holds the header and the sealed content, type byte included; otherwise it is untouched |
| `RecordLaw.SealedIsCiphertext` | src/wn_record.c:92-163 | a sealed record is the TLSCiphertext of section 5.2 of RFC 8446: type 23, version 0x0303, the ciphertext's length, and the inner plaintext sealed under the per-record nonce with that header as additional data |
| `Record.Unprotect` | src/wn_record.c:165-225 | the result is that of opening the record as it stood before the call, also when decrypting in place; only the decrypted range is written |
| `RecordLaw.OpenExact` | src/wn_record.c:165-225 | a record opens to a type and a content exactly when it has at least 22 bytes and decrypts, under the per-record nonce and with its own header as additional data, to that content, that nonzero type and some zeros |
| `RecordLaw.OpenErrors` | src/wn_record.c:165-225 | otherwise the code says why: too short, not authentic, or nothing but zeros inside |
| `Record.SplitUnique` | src/wn_record.c:213-225 | content, nonzero type and any zero padding are split back into exactly that content and type |
| `Record.SplitExists` | src/wn_record.c:213-225 | the split is rejected exactly for all-zero plaintexts, and otherwise the plaintext is the content, the nonzero type and zeros |
| `Record.RecordRoundTrip` | src/wn_record.c:53-225 | a sealed record carried in any stream is framed as itself and opens to the same content and type |
| `KeySchedule.DeriveHsKeys` | src/wn_connect.c:243-264 | succeeds exactly when no derivation fails; secrets and keys are those of an independent handshake stage, spelled out in extract and expand steps, that starts from the early secret, the agreed secret and the hash of both hellos |
| `KeySeparation.KeysFixInputs` | src/wn_connect.c:243-264 | where extract and expand do not collide on two handshakes, equal handshake secrets mean equal early and agreed secrets, equal traffic secrets or keys of a direction mean equal hello hashes too, and no key serves both directions |
| `Counting.SuiteExists` | src/wn_keyschedule.c:174-201 | one suite for which no two handshakes with small inputs collide, and whose chain of traffic secrets does not repeat and expands to different keys over any number of steps below 2^64 |
| `KeySchedule.Direction.KeyUpdate` | src/wn_keyschedule.c:174-201 | the three in-place steps of an update, with the partial state an error leaves; after a success secret, key and iv are the "traffic upd", "key" and "iv" expansions of what was there; the sequence number is untouched |
| `KeySchedule.Direction.Install` | src/wn_connect.c:281-292 | writes an application secret with its key and iv at sequence number 0 and reports whether a derivation failed |
| `KeySchedule.RekeyAt` | src/wn_keyschedule.c:186-196 | an update takes the RFC's epoch e to its epoch e + 1 |
| `ScheduleLaw.ApplicationKeysAre` | src/wn_connect.c:268-309 | the states the session starts from are the client and server traffic of an independent application stage over the same transcript hash |
| `ScheduleLaw.HalfAtIs` | src/wn_keyschedule.c:186-196 | the state of a direction after n updates is the n-th traffic secret of section 7.2 of RFC 8446 with its key and iv |
| `Session.Session.Zero` | src/wn_connect.c:344-346 | a zeroed session: no flag, no transport, no history |
| `Session.Session.Establish` | src/wn_connect.c:268-309 | the flag is set exactly when every derivation succeeded; the state is then the initial one of the run theorems, with the application secrets over the given hash |
| `Session.Session.Emit` | src/wn_session.c:142-151 | seals under the current key and sequence number, counts before handing over, and what the transport got is the record logged; under the state before the call it opens to exactly this content and this type, if not 0 |
| `Session.Session.SendKeyUpdate` | src/wn_session.c:46-75 | replies update_not_requested, then rekeys and restarts only if the record was taken whole |
| `Session.Session.ApplyKeyUpdate` | src/wn_session.c:99-108 | rekeys the read side first, then answers if asked; errors leave what was done |
| `Session.Session.PostHs` | src/wn_session.c:79-119 | the loop handles the record's messages as the recursive specification does, up to the first error |
| `Session.Session.Send` | src/wn_session.c:121-154 | refines the machine's send: codes, state and the record emitted, also for short or failed sends; when a record is handed over, it opens under the state before the call to application data with exactly the caller's bytes |
| `Session.Session.Dispatch` | src/wn_session.c:192-216 | data is copied out unchanged if it fits, handshake records are processed, close_notify closes, all else is an error |
| `Session.Session.Authenticate` | src/wn_session.c:186-191 | decrypts in place; the read state and history advance only if the record authenticates |
| `Session.Session.Recv` | src/wn_session.c:156-225 | refines the machine's receive over the delivered bytes: state, code and output; always returns |
| `Session.Session.Close` | src/wn_session.c:227-254 | refines the machine's close: close_notify if open, then everything wiped |
| `NonceSafety.NonceNeverReused` | src/wn_session.c:59-72 | over every run of sends, receives, replies and close, with any send results and key-derivation failures, two records of one key epoch have different nonces while the epoch has fewer than 2^64 records |
| `NonceSafety.KeyNeverReusesNonce` | src/wn_session.c:59-72 | over every run, two records sealed under one and the same key have different nonces below 2^64 records, if the "traffic upd" chain from the first secret does not repeat over the run and "key" tells its members apart |
| `NonceSafety.KeysStayCoherent` | src/wn_keyschedule.c:186-196 | in every reachable state of an open session key and iv of each direction are the expansions of its secret, the epoch-fold "traffic upd" iterate of the handshake's |
| `NonceSafety.OneReplyPerRequest` | src/wn_session.c:94-108 | each update_requested handled without error causes exactly one reply, no reply requests another, each KeyUpdate advances the read epoch by one |
| `Delivery.RunDelivers` | src/wn_session.c:46-254 | over every run, the records handed over open, in order, to one (application data, the caller's bytes) for each send of an open session that fits, update_not_requested replies during receives, one close_notify for the close of an open session, and nothing else |
| `Delivery.SendVerdict` | src/wn_session.c:121-154 | a send succeeds exactly in an open session, with data of at most 2^14 bytes that fits the scratch buffer, and a transport that takes the whole record; each error code has its exact condition |
| `Delivery.PeerHears` | src/wn_session.c:46-254 | if the replies were taken whole, a peer that starts from the first application secret and steps its keys by itself at each KeyUpdate opens every record of the run and hears exactly that |
| `Endings.ReceiveVerdict` | src/wn_session.c:156-225 | any receive of any stream: it returns Closed, and closes the session, exactly when the last record it authenticated is an alert with description 0; it returns data exactly when that record is application data that fits; other alerts and types have their codes |
| `Endings.CloseWipes` | src/wn_session.c:227-254 | a close leaves neither flag, and zeros for every secret, key, iv and sequence number |
| `PostMessages.LanguageExact` | src/wn_session.c:79-119 | while derivations and replies succeed, a post-handshake record is read to its end without error exactly when it is a concatenation of complete tickets and valid KeyUpdates |
| `PostMessages.UpdatesPostHandshake` | src/wn_session.c:88-116 | a record of tickets and at most one final KeyUpdate is read as exactly that update |
| `PostMessages.PartialRefused` | src/wn_session.c:113-115 | tickets followed by the beginning of another message are a decoding error that changes nothing |
| `InOrder.AcceptedIsPrefix` | src/wn_session.c:156-225 | over every run against a network that drops, reorders, replays or alters, and for every safe peer, the authenticated records are a prefix of those the peer sealed, in order, across epochs |
| `InOrder.SuccessIsNext` | src/wn_session.c:180-222 | after any run, one more receive authenticates only the peer's next records, and a success returns the first application data among them unchanged, behind handshake records only |
| `InOrder.NothingAuthenticated` | src/wn_session.c:180-222 | on any stream whatever, a receive only adds to the authenticated records; if it adds none the whole state is as it was and the call fails |
| `InOrderExact.IntegrityExact` | src/wn_session.c:156-225 | for peers without alerts whose records fit, differ and cannot be forged: every run authenticates a prefix if and only if the peer is safe |
| `InOrderExact.Skips` | src/wn_session.c:113-115 | if reading a record of the peer can stop after k of its key changes, and that leads to the position of record j, then delivering everything up to that record and then record j authenticates exactly those |
| `PeerRules.WholePeerInOrder` | src/wn_session.c:156-225 | the same for every peer whose handshake records hold whole tickets and at most one final KeyUpdate, after which, and only then, it changes its key |
| `PeerRules.StepExact` | src/wn_session.c:185-205 | a record handled without a crypto error moves the receiver to the peer's next position if and only if it reads as many key changes as the peer made |
| `PeerRules.SplitTicketSkips` | src/wn_session.c:88-116 | a grammatical NewSessionTicket split over two records, then data, a KeyUpdate and data: delivering records 0, 1 and 4 skips the first data, and the authenticated records are no prefix |
| `IdealAead.AssumptionsMet` | src/wn_session.c:156-225 | a suite, a peer and a stream that meet all hypotheses of the in-order theorems, in a run that returns the peer's data |
| `KeySync.AlwaysSynced` | src/wn_session.c:79-119 | for any interleaving over reliable ordered queues in which no call failed, messages split over records included: draining what is in flight succeeds exactly when every record in flight ends between messages, and then takes each receiver's secret, key, iv and sequence number to exactly the sender's; otherwise the first record that ends inside a message is where it stops; towards the peer it always goes through |
| `KeySync.PostHsFollows` | src/wn_session.c:88-116 | handling a post-handshake record moves the read side as the plain reader does, and a reader of the replies follows the new write state |
| `KeySync.NextRecordIsHandled` | src/wn_session.c:180-217 | in a synchronised state a whole next record authenticates and is data or handshake; data fails exactly when it exceeds the output buffer, a record of one message or update exactly as its reply does |
| `Extensions.ParsesRaw` | src/wn_connect.c:85-100 | parsing an encoded extension block gives the extensions back |
| `Extensions.DecodesRaw` | src/wn_connect.c:85-100 | a block that parses is the encoding of what was parsed |
| `ServerHello.ParserExact` | src/wn_serverhello.c:77-150 | a byte string parses exactly when it is the encoding of a hello with version 0x0303, null compression and each of key_share, supported_versions, pre_shared_key at most once in any order and nothing else, and the report is that hello's; a HelloRetryRequest is recognised by its random |
| `PeerLaw.HelloIsHello` | src/wn_serverhello.c:42-154 | the grammar accepted is the ServerHello of section 4.1.3 of RFC 8446, every field and extension written out in bytes |
| `PeerLaw.ReportsSelection` | src/wn_serverhello.c:113-150 | the fields reported of a hello are the offered ones exactly when its extension list, in any order, holds this share and version and this PSK identity or none |
| `PeerLaw.RetryExact` | src/wn_serverhello.c:84-100 | exactly the ServerHellos with the random of a HelloRetryRequest are taken for one, whatever else they hold |
| `ServerHello.Parse` | src/wn_serverhello.c:42-154 | the cursor-and-flags parser computes exactly that function on every input |
| `ServerHello.ReadExt` | src/wn_serverhello.c:113-142 | one turn of the extension loop: duplicates, overruns, bad lengths and unknown types latch the error |
| `HelloGrammar.DecodesIffBlockFits` | src/wn_clienthello.c:68-157 | decoding an encoded ClientHello returns it exactly when its extension block fits 16 bits |
| `HelloBuilder.BuildCert` | src/wn_clienthello.c:47-160 | succeeds exactly when the arguments are in range and the encoding fits the capacity; the buffer then holds the encoding of the meant hello, hand-computed lengths included |
| `HelloBuilder.CertInputsRecovered` | src/wn_clienthello.c:62-157 | for every build option, decoding the certificate hello returns random, session id, server name and key share |
| `HelloServer.CertHelloOffers` | src/wn_clienthello.c:47-160 | a server decodes the certificate hello to TLS_AES_128_GCM_SHA256, null compression, version 0x0304 only, the group and one share of it, ecdsa_secp256r1_sha256 among the schemes, and the host name exactly if there is one |
| `HelloServer.CertSchemesExact` | src/wn_clienthello.c:112-138 | a scheme is offered exactly if the build options switch it on |
| `HelloBuilder.WriteSigAlgs` | src/wn_clienthello.c:112-138 | the two nested backfills emit the self-sized signature_algorithms extension |
| `PskHello.Build` | src/wn_connect.c:144-221 | emits the hello with a zero binder and all lengths final; the hash boundary is 35 and the binder 32 bytes before the end |
| `PskHello.StemAndBinder` | src/wn_connect.c:209-221 | whatever the binder, the hello is the same stem, the list lengths and the binder |
| `PskHello.BinderConsistent` | src/wn_connect.c:368-391 | the finished hello decodes exactly when 88 bytes, the key share, the optional scheme and the identity stay below 2^16; it then decodes to its inputs and a server's truncation is exactly the stem the client hashed |
| `HelloServer.PskHelloOffers` | src/wn_connect.c:144-221 | if its block fits, a server decodes the PSK hello to the same offer with psk_dhe_ke as the only mode |
| `HelloServer.PskAcceptedExactly` | src/wn_connect.c:368-391 | a server that computes the binder by itself from the received bytes accepts the hello exactly if the block fits and the binder is the MAC of the stem |
| `PskHello.LongestIdentityBreaks` | src/wn_connect.c:340-343 | the longest identity that the argument check lets through yields a hello that does not decode |
| `Messages.EncExtExact` | src/wn_connect.c:66-103 | the accepted bodies are exactly the vectors of supported_groups and, if offered, empty server_name extensions, in any number |
| `Messages.CheckEncExt` | src/wn_connect.c:70-103 | the reader loop accepts exactly those bodies |
| `Messages.CertListExact` | src/wn_connect.c:1295-1316 | a Certificate body is accepted exactly when it has an empty context and an exact list of up to four encoded entries, with nothing behind fewer than four; the slices hold the entries' certificates |
| `CertFormat.PresentedExact` | src/wn_connect.c:1295-1316 | a body presents a chain exactly if it is an empty context and a list of at most four length-prefixed certificates with extensions, anything behind only a fourth, and the chain is theirs in order |
| `Messages.SlicesInOrder` | src/wn_connect.c:1303-1312 | the certificate slices are in bounds, in order and disjoint |
| `Messages.ParseCertificate` | src/wn_connect.c:1290-1316 | the parsing loop accepts exactly those bodies and yields those slices |
| `Messages.ParseCertVerify` | src/wn_connect.c:1330-1343 | succeeds exactly when the signature spans the rest of the message, and returns scheme and signature |
| `PeerFlight.VerifyExact` | src/wn_connect.c:1330-1343 | scheme and signature are read exactly from the bodies that consist of those two, the signature with its length |
| `PeerFlight.SignedIs` | src/wn_connect.c:621-631 | what is verified is 64 spaces, the server's context string, a zero and the hash |
| `Messages.FlightOrder` | src/wn_flight.h:42-77 | accepts a type exactly when it may follow the ones seen, and marks it |
| `Messages.GateExact` | src/wn_flight.h:42-77 | the gate alone lets through exactly a part of EncryptedExtensions, Certificate, CertificateVerify in order, or all three and any number of Finished |
| `Messages.GateRepeats` | src/wn_flight.h:21-27 | of the sequences the gate lets through, those without duplicates are exactly the ones of at most four messages |
| `Messages.SecondFinished` | src/wn_flight.h:67-71 | the concrete sequence that the header's comment rules out and the gate accepts |
| `HostName.CaseEq` | src/wn_connect.c:895-905 | true exactly for equality ignoring ASCII case |
| `HostName.NameMatch` | src/wn_connect.c:909-932 | succeeds exactly on a case-insensitive equal non-wildcard pattern, or "*." and suffix against one nonempty dot-free label, a dot and that suffix |
| `HostName.CheckServerName` | src/wn_connect.c:936-965 | succeeds exactly when some dNSName matches, or there is none and the common name matches |
| `IdentityLaw.MatchesByLabel` | src/wn_connect.c:909-932 | a pattern matches exactly if it has as many labels as the host and they are equal but for letter case, where an asterisk in front of more stands for any nonempty label |
| `Chain.CheckLink` | src/wn_connect.c:1030-1063 | one link passes exactly when the issuer parses, signs it, and a presented issuer is a CA and in date unless it is the anchor |
| `Chain.CheckLeaf` | src/wn_connect.c:1065-1106 | the leaf passes exactly when its key fits and usage, pin, name and date allow it; only the key buffer is written |
| `Chain.VerifyChain` | src/wn_connect.c:1009-1109 | for every chain length the verdict is the specification's, the leaf key is copied out, and nothing else in the shared array changes |
| `IdentityLaw.ChainMeans` | src/wn_connect.c:1009-1109 | a chain passes exactly if, from the anchor down, each certificate is signed by the one above, which, if presented, is a CA and in date or the anchor itself, and the leaf suits the key buffer, the usages, the date, the pin and the name, matched by label |
| `Flight.CutResumes` | src/wn_connect.c:468-482 | stopping at a partial message and resuming with more bytes equals having had them all at once, and an error stays one |
| `Flight.FedIsOneShot` | src/wn_connect.c:1238-1363 | after any sequence of records that the loop takes, finished or not, the state is that of one pass over the concatenated contents |
| `Division.DividedReadsAsOne` | src/wn_connect.c:442-523 | from any settled state, reading any division of a handshake stream into records that pass the size checks, padded and mixed with change_cipher_spec, is one pass over its contents |
| `Division.DivisionIrrelevant` | src/wn_connect.c:1238-1363 | two such divisions of one stream get the same verdict, messages, transcript and leaf key, and the flight completes exactly when one pass does |
| `FlightExact.PskFlightExact` | src/wn_connect.c:468-522 | the PSK flight completes exactly when the contents start with EncryptedExtensions and Finished of at most 512 bytes that pass, the MAC over the transcript before it; the transcript then runs through Finished |
| `FlightExact.CertFlightExact` | src/wn_connect.c:1264-1362 | the certificate flight completes exactly when the contents start with EncryptedExtensions, Certificate, CertificateVerify, Finished that pass, signature and MAC each over the transcript before them |
| `PeerFlight.CertIsCorrect` | src/wn_connect.c:1264-1362 | while no derivation fails, signature and MAC are accepted exactly if they are those of a server with its own key schedule, over its own encoding of the messages before them |
| `PskReader.PskReader.CutMessages` | src/wn_connect.c:468-521 | the inner loop on plain[512] cuts what the specification cuts, and gives up on a header that cannot fit |
| `PskReader.PskReader.Append` | src/wn_connect.c:450-467 | the size check counts type and padding; the decrypted content goes right behind the earlier ones |
| `PskReader.PskReader.Read` | src/wn_connect.c:442-523 | the nested loops return the specification's verdict, state and remaining stream |
| `CertReader.CertReader.OnCertificate` | src/wn_connect.c:1289-1329 | accepts exactly the valid lists whose chain passes; the leaf key then stands in its region |
| `CertReader.CertReader.CheckBody` | src/wn_connect.c:1275-1360 | each message type's check, against the hash of the transcript before the message |
| `CertReader.CertReader.OnMessage` | src/wn_connect.c:1273-1360 | one message does what the specification's step does, in the flags, the transcript and the leaf key |
| `CertReader.CertReader.MoveContent` | src/wn_connect.c:1254-1262 | appends the decrypted content to the accumulator and leaves the leaf key alone |
| `CertReader.CertReader.ReceiveRecord` | src/wn_connect.c:1239 | reading a record changes neither the accumulator nor the leaf key |
| `CertReader.CertReader.Read` | src/wn_connect.c:1238-1363 | on one array shared by record, accumulator and leaf key, the loops return the specification's verdict and state: the accumulator is the concatenation of the contents and the leaf key the one Certificate left |
| `Handshake.SendHello` | src/wn_connect.c:108-140 | header, hello, and change_cipher_spec, in order; success exactly when each was taken whole |
| `Interop.HelloOnTheWire` | src/wn_connect.c:108-140 | together the buffers are one plaintext handshake record of the hello and one change_cipher_spec record |
| `Handshake.ReceiveHello` | src/wn_connect.c:400-408 | skips change_cipher_spec and returns the first handshake record's fragment, or fails exactly if there is none |
| `Handshake.CheckHello` | src/wn_connect.c:409-432 | succeeds exactly when the hello parses, is no retry, has the offered parameters, the right key-share size and PSK selection, echoes the session id, and the agreement succeeds |
| `Handshake.HelloMeans` | src/wn_connect.c:1201-1219 | such a hello is the encoding of a grammatical one with those parameters |
| `Interop.NegotiatedChooses` | src/wn_connect.c:409-439 | it selects what was offered, the agreement on its share gave the secret, and the keys derived are those of a server with its own schedule over the same hellos |
| `Handshake.HelloFrames` | src/wn_connect.c:108-133 | header and hello frame back to the hello exactly up to 2^14 + 256 bytes |
| `Handshake.AfterHelloMeans` | src/wn_connect.c:400-552 | whatever the driver, an outcome implies a grammatical hello with the right parameters, the keys of section 7.1 of RFC 8446 over both hellos, a flight that is one pass over its contents, and a Finished taken whole |
| `Handshake.DivisionIrrelevantToOutcome` | src/wn_connect.c:1238-1363 | for either driver, two divisions of the same flight behind one ClientHello lead to the same verdict, keys, messages, leaf key and transcript |
| `Handshake.NegotiateKeys` | src/wn_connect.c:400-439 | from the server's bytes to the handshake keys over the hash of both hellos |
| `Handshake.SendFinished` | src/wn_connect.c:529-545 | seals the client's verify_data over the given hash with sequence number 0; success exactly when it was taken whole |
| `Interop.FinishedAccepted` | src/wn_connect.c:529-545 | a server with the same handshake keys accepts it: the first record under the client's key opens to a Finished with the MAC over the messages through the server's own |
| `Handshake.Finalize` | src/wn_connect.c:526-552 | established exactly when the Finished was taken whole and the application secrets could be derived, both over the transcript through the server's Finished |
| `ConnectPsk.BuildHello` | src/wn_connect.c:368-391 | succeeds exactly when the hello fits and the binder can be computed; if the block fits, a server accepts the PSK of the message written |
| `ConnectPsk.BinderAccepted` | src/wn_connect.c:368-391 | a server that decodes the client's hello, truncates it before the binder list and computes the MAC under "ext binder" and "finished" accepts it exactly if the block fits |
| `ConnectPsk.Connect` | src/wn_connect.c:311-572 | bad arguments touch nothing; otherwise the session is established exactly when the specified outcome exists, with the specified secrets, records sent and bytes consumed, and else its flags are 0 |
| `ConnectPsk.EstablishedMeans` | src/wn_connect.c:368-552 | an established PSK session implies the ClientHello with the PSK's binder, sent whole, a hello that selects what was offered, a flight of exactly EncryptedExtensions and the Finished of a server that has the PSK, the agreed secret and both hellos, that this server accepts the client's Finished, taken whole, and that both hold the same handshake and application keys |
| `ConnectPsk.HonestServerConnects` | src/wn_connect.c:311-552 | with every server that accepts the hello and its binder, answers with an acceptable hello and a correct flight under its own keys, divided, padded and mixed with change_cipher_spec at will, over a transport that takes everything: a session is established, the server accepts the client's Finished, and the application keys agree |
| `ConnectPsk.HonestServerExists` | src/wn_connect.c:409-432 | for a client whose agreement accepts some share of the configured size, such a server exists exactly if the identity leaves room for the extension block |
| `ConnectPsk.HelloRecordLegal` | src/wn_connect.c:340-395 | the hello's record frames back to it exactly when 167 bytes, the key share, the optional scheme and the identity stay within 2^14 + 256, and is within the limit of section 5.1 of RFC 8446 exactly when they stay within 2^14 |
| `ConnectCert.Connect` | src/wn_connect.c:1111-1420 | the same for the certificate driver, and what goes out is hello buffers, then records under the client handshake key numbered 0, 1, … |
| `ConnectCert.ConnectNamed` | src/wn_connect.c:1430-1448 | without a name or a pin nothing is touched |
| `ConnectCert.HandshakeNoncesDiffer` | src/wn_connect.c:1372-1401 | the Finished and the optional alert never share a nonce, however the handshake failed |
| `ConnectCert.EstablishedMeans` | src/wn_connect.c:1190-1395 | an established certificate session implies the ClientHello meant, sent whole, a hello that selects what was offered and no PSK, exactly the four messages of a server that has the agreed secret and both hellos, chain and signature over CH..Certificate by the leaf's key included, that this server accepts the client's Finished, taken whole, and that both hold the same handshake and application keys |
| `CertServer.HonestServerConnects` | src/wn_connect.c:1111-1395 | the same for every server that can read the offer in the hello and whose chain, signature and MAC are correct |
| `CertServer.HonestServerExists` | src/wn_connect.c:1238-1363 | such a server exists for every trust that accepts some chain and whatever some signer signs, and every share the agreement accepts, if the flight fits the accumulator |
| `ConnectCert.IdentityBound` | src/wn_connect.c:1087-1096 | the anchor vouches for the presented chain, and the key of its leaf, which signed the handshake, is the pinned one and bears the name asked for |

## Left out

- The `wc_*` primitives: AES-GCM, SHA-256, HMAC, HKDF, the certificate library, signatures and key agreement are functions. Only `expand` (HKDF-Expand-Label) and the key agreement can report an error; the other calls are taken not to fail, as the source notes for most of them.
- InOrder.AcceptedIsPrefix: assumes an ideal AEAD (a delivered record that opens under a key of the peer was sealed by the peer under that key and nonce), key derivations that do not fail, fewer than 2^64 records per epoch, and a safe peer; of peers that split messages some are safe and some are not, and `IntegrityExact` says which.
- InOrderExact.IntegrityExact: about peers that send no alerts and whose records fit the receiver's scratch buffer, are pairwise distinct and are no forgeries themselves; the half from safe to prefix, `AcceptedIsPrefix`, needs the delivered bytes unforged and nothing else of this.
- KeySync.AlwaysSynced: assumes, as the RFC asks, that a KeyUpdate is the last message of its record and that no other record comes between the parts of a message; its runs are those in which no call failed, so the client never gets past a record that ends inside a message.
- PostMessages.LanguageExact: with a failing derivation or reply the record may be well formed and the call fail; `Session.PostHs` states the exact state and code for those too.
- NonceSafety.NonceNeverReused: says nothing past 2^64 records in one epoch, where the counter wraps.
- NonceSafety.KeyNeverReusesNonce: the hypotheses on the key derivation are about the run's own chain of secrets; that HKDF meets them is not a theorem. `Counting.SuiteExists` shows they can be met.
- KeySeparation.KeysFixInputs: assumes no collision among the values of the two handshakes; `Counting.SuiteExists` meets that for handshakes with small inputs.
- Delivery.PeerHears: about runs in which no key derivation fails and the transport takes the KeyUpdate replies whole; after a reply that was cut off the client keeps its old key. `Delivery.RunDelivers` needs neither.
- ConnectPsk.HonestServerConnects: about a server that has the ClientHello, however it came by it; for identities beyond `HelloRecordLegal` no record brings it there.
- Error codes: the flight loops and the connect calls are specified by success or failure; which code a failing handshake returns is not stated (`Connect` states it for bad arguments).
- Buffer contents after a failed decryption, `ForceZero`, and constant-time comparison.
- NULL pointers and aliasing of caller buffers: the model's arguments exist, and `wn_Recv`'s output is not the scratch buffer.
- A `recv` callback that claims more bytes than asked for.
- Codec calls whose position plus length reaches 2^32, where the 32-bit bounds tests would wrap; record limits keep callers far below.
- Digests other than SHA-256 and cipher suites other than TLS_AES_128_GCM_SHA256, which the drivers fix.
- Whether the offered signature schemes are those that can be checked: the two lists depend on different build flags. `BuildCert` covers every combination of flags, the signature check is a parameter.
- The random source and the key share: parameters; their failure is the missing `Entropy`.
- `wn_keyshare.c`, `wn_hybrid.c`, `wn_transcript.c`, `wn_error.c`: thin wrappers and tables. The transcript is the byte string that is hashed.
- Path validation under section 6 of RFC 5280 (name chaining, path length, revocation): the code does not attempt it.
- Where comments and code disagree the model follows the code: `src/wn_flight.h` promises "no duplicates" and two return codes, but the gate alone accepts a second Finished (`GateRepeats`; the driver's `done` flag stops at the first, and `FlightExact` is about the driver) and answers CertificateRequest with a third code.
- Things the code accepts and the model therefore accepts: repeated extensions in EncryptedExtensions, certificate entries past the fourth (ignored), ServerHello session ids longer than 32 bytes in the parser (refused by the drivers).
- Examples, benches, tests, build files and emulator support.
