# Compy in Dafny

Compy is a C99 library for RTSP, RTP and SRTP. This project models its six most
intricate parts and proves what they are for:

* **SRTP and SRTCP** (RFC 3711): a sender that counts rollovers of the 16-bit RTP
  sequence number, a network that loses, repeats and reorders packets, and a
  receiver that guesses the rollover counter, keeps a 64-bit replay window, checks
  the tag and decrypts in place. Modules `Bits`, `Bytes`, `Buffers`, `RtpHeader`,
  `SrtpCipher`, `SrtpKeys`, `ReplayWindow`, `Srtp`, `SrtpReceiver`, `DeliveryLog`,
  `RtpTransport`, `SrtpSession`, `Srtcp`, `SrtpContext`, `SrtpEndpoints`, `RtpOrder`.
* **The incremental RTSP request parser and its printer** (RFC 2326): `Parsing`,
  `Rtsp`, `RtspIncremental`, `RtspRoundTrip`, `RtspPrinter`, `RtspParser`,
  `Interleaved`.
* **NAL fragmentation** (RFC 6184, RFC 7798): `Nal`, `NalTransport`, `NalStream`.
* **JPEG parsing and packetization** (RFC 2435): `JpegFrame`, `JpegShape`,
  `JpegTables`, `JpegTransport`, `JpegSender`.
* **Streaming MD5** (RFC 1321): `Md5`.
* **Base64** (RFC 4648): `Base64`.

Code that updates fields and buffers in place is modelled by classes and methods
(`SrtpContext`, `RtpTransport.Transport`, `RtspParser`, `Interleaved.TcpTransport`,
`NalTransport.UnitSender`, `JpegSender`, `Md5.Context`, the buffer writers). Each
method is proved equal to a function of the old state, and the theorems are about
those functions. For the SRTP session the objects are also put together:
`SrtpEndpoints.Session` holds an RTP transport over an SRTP sender and a receiver
with the same master key, and each of its methods is one step of the system that
the session theorems are about; `SrtpEndpoints.ControlSession` does the same for
SRTCP.

AES, HMAC-SHA1, the MD5 block transform and the number conversions of `sscanf` are
function-valued parameters: every theorem holds for all of them. A transport or
writer below the modelled code is an oracle that says how the n-th call ends,
together with a record of what it took. Machine integers are mathematical integers
with the wrap-around written out; the host is little-endian.

## What the code does where its documentation says otherwise

* `include/compy/types/rtp.h` (line 19) says that the serializer converts
  multi-byte fields to network byte order. The code copies the memory of every
  field but the extension length, so they arrive in network order exactly when
  swapping their bytes changes nothing (`RtpHeader.NetworkOrderExactly`);
  `RtpHeader.HostOrderOnWire` is a header for which they do not. The RTP transport
  swaps them beforehand.
* After `Compy_RtpHeader_deserialize` the extension length is in network order, but
  `Compy_RtpHeader_size` reads it in host order. `RtpHeader.ReceivedSize` says
  exactly when the answer is right and `RtpHeader.ReceivedSizeWrong` gives an input
  for which it is not.
* A packet index is kept in 32 bits, not 48. Every reachable receiver keeps its
  rollover counter within 16 bits, and an index that would need more is refused as
  too old (`SrtpReceiver.OverflowingRocIsTooOld`, `SrtpSession.NothingBeyond`). The
  sender starts over with the counter blocks of its first packets.
* A packet that the inner transport refuses does not use up its sequence number, so
  the next packet, whatever its payload, is encrypted with the same counter blocks.
  `SrtpSession.SharedCounterBlock` and `SrtpSession.SharedByRetry` say exactly which
  packets share blocks and `SrtpSession.RetrySharesBlocks` gives a run of two sends
  that do.
* An SRTP packet whose tag is right but whose header claims more bytes than there
  are is refused after the replay window has moved (`Srtp.FailureKeepsState`,
  `Srtp.FailureCanChangeState`).
* `compy_srtp_recv_unprotect` does not look at the length of a packet before it
  copies it, with four more bytes, to a local buffer of 2052 bytes. The copy stays
  inside the buffer exactly when the packet is too short to be looked at, its index
  is refused as a replay, or it has at most 2048 bytes without its tag
  (`Srtp.CopyInBounds`; `Srtp.LongPacketRunsOver` is a packet for which it does
  not). Other packets have no outcome: they end every run in `SrtpReceiver.Run`,
  they are no events of a session, and the methods require them away. Packets the
  library's own sender makes always fit (`SrtpSession.HandedFits`).
* The SRTCP sender does not mask its index to 31 bits. Both ends use the same
  counter block exactly while the index is below 2^31 (`Srtcp.IvAgreement`).
* A buffer that ends in CR is always answered with Partial once the request line is
  complete, even after a complete request; a request with 32 headers cut right after
  the last header line is refused instead of asking for more. Both exceptions are
  part of the exact statements in `RtspIncremental` and `RtspRoundTrip`.
* The token matchers look at the first byte of a slice before its length. The slice
  is empty exactly when the view ends right behind "RTSP/"
  (`RtspRoundTrip.EndsBehindSlash`); the byte read there is behind the view.
* The serializers promise a negative value on error (for one,
  `include/compy/types/request.h`, line 59). They return the bytes written so far,
  which a caller takes for success: if the request line fails, the headers are still
  written (`RtspPrinter.ErrorGoesUnnoticed`). The count returned is that of the
  whole text exactly when no write failed (`RtspPrinter.PrintedExactly`).
* Section 3.1.8 of RFC 2435 gives the precision bits to the tables by position; the
  code sets the bit of the table's id. A receiver gets all tables back exactly when
  a table at position i is wide iff some wide table has id i
  (`JpegTables.TablesRecovered`), which always holds for baseline frames;
  `JpegTransport.WideTableLost` is a frame whose only table is lost.
* The Base64 decoder accepts texts that no encoder writes: equals signs anywhere and
  stray bits in front of them. `Base64.ReencodeExactly` says which texts come back.
* Fragmenting an H.264 unit drops its forbidden bit, and a whole unit of the type
  reserved for fragments reads like a fragment (`NalTransport.RoundTripExact`).

## Model

| member | source | states |
|---|---|---|
| SrtpSession.EndToEnd | src/transport/srtp.c:215-296 | In every run of any length of sender, receiver and a network that loses, repeats, reorders and injects, each delivery of a packet handed on returns it byte for byte exactly when its index is below 2^32, no packet of that index was accepted before and no accepted one is 64 or more ahead; otherwise it returns nothing. Packets the inner transport reported as refused may arrive too |
| SrtpSession.NothingBeyond | src/transport/srtp.c:545-598 | From index 2^32 on every delivery is refused |
| SrtpSession.AcceptedOnce | src/transport/srtp.c:629-703 | Over a whole run no index is accepted twice, so no packet is, and of a packet and its retries at most one |
| SrtpSession.SenderIndices | src/rtp_transport.c:84-131 | Every packet handed on carries index start + k, where k packets were taken before it, and is sealed under the matching rollover counter, however many attempts failed in between |
| SrtpSession.RollIsRight | src/transport/srtp.c:245-252 | The sender's counter after the update is the high half of the next index modulo 2^32, also when a sequence number is retried |
| SrtpSession.RollExactly | src/transport/srtp.c:245-252 | For a sender that skips or repeats numbers: less than a cycle away the counter comes out right iff the index is in the same cycle and at most 0x7FFF back, or in the next and at most 0x8000 ahead |
| SrtpSession.SendStep | src/transport/srtp.c:215-296 | One send attempt keeps the sender's counter in step with the number of packets taken, and hands on nothing or one packet that carries the next index |
| SrtpSession.DeliverStep | src/transport/srtp.c:629-703 | One delivery is accepted iff fresh and below 2^32, returns the sent packet, keeps the window equal to the accepted set, and changes nothing when refused |
| SrtpSession.HalfCycleEnabled | src/transport/srtp.c:545-569 | A packet less than half a cycle from the highest index received is always within what the session theorems cover |
| SrtpSession.HandedFits | src/transport/srtp.c:658-662 | A packet the sender handed on never runs past the receiver's buffer |
| SrtpSession.StepKeepsInvariant | src/transport/srtp.c:215-296 | Every enabled event keeps the joint invariant of sender, network and receiver |
| SrtpSession.RunKeepsInvariant | src/transport/srtp.c:545-703 | The invariant holds in every reachable state |
| SrtpSession.FirstPacketArrives | src/transport/srtp.c:629-703 | From any first sequence number a packet that fits is returned on its first arrival and refused on its second |
| SrtpSession.InjectChangesNothing | src/transport/srtp.c:629-677 | A packet from elsewhere that has an outcome and does not carry a valid tag for a fresh index changes nothing |
| RtpOrder.ResultsAre | src/transport/srtp.c:629-703 | What unprotect returned for any choice of accepted deliveries are the RTP packets that were sent |
| RtpOrder.ArrangeRestores | src/rtp_transport.c:118-128 | Packets numbered one after the other come out in order, whatever order and repetition they came in, if there are at most 65536 of them |
| RtpOrder.PacketsNumbered | src/rtp_transport.c:84-131 | The packets of a stream carry consecutive sequence numbers |
| RtpOrder.ListOverSrtp | src/transport/srtp.c:629-703 | Once every packet of a numbered list was accepted in a session, in whatever order, arranging what unprotect returned gives the list |
| SrtpSession.SharedSlot | src/rtp_transport.c:118-128 | Two packets have the same index iff no packet from the first up to the second was taken |
| SrtpSession.EncryptedIndex | src/transport/srtp.c:252-279 | A packet is encrypted under its index modulo 2^32 |
| SrtpSession.BlockOfCounts | src/transport/srtp.c:128-158 | The counter block of a packet spells salt * 2^16 xor SSRC * 2^64 xor index * 2^16, plus the block number |
| SrtpSession.HandedBytes | src/transport/srtp.c:276-279 | In every run payload byte i of a packet handed on is the RTP byte xored with byte i mod 16 of AES of counter block i / 16 |
| SrtpSession.SharedCounterBlock | src/transport/srtp.c:125-162 | In every run, however long, two packets handed on share a counter block iff the block numbers agree and the number of packets taken from the first up to the second is a multiple of 2^32 |
| SrtpSession.SharedByRetry | src/rtp_transport.c:118-128 | With fewer than 2^32 packets taken in between, they share one iff the block numbers agree and every attempt from the first up to the second failed |
| SrtpSession.RetrySharesBlocks | src/rtp_transport.c:118-128 | A refused packet and the next one, with any two payloads, are encrypted with the same counter blocks |
| SrtpSession.KeystreamNeverReused | src/transport/srtp.c:125-162 | Among fewer than 2^32 packets the inner transport took, no two (packet, block) pairs use the same counter block |
| SrtpEndpoints.Session.constructor | src/transport/srtp.c:465-511 | Both ends derive the same keys from one master key and start in the initial state of the session |
| SrtpEndpoints.Session.SendPacket | src/rtp_transport.c:84-131 | Sending through the RTP transport over the SRTP sender is the send step of the session, also when SRTP refuses the packet for its content or the link fails |
| SrtpEndpoints.Session.Receive | src/transport/srtp.c:629-703 | Unprotecting a packet the sender handed on is the delivery step of the session and returns what that step logs |
| SrtpEndpoints.Session.ReceiveForeign | src/transport/srtp.c:629-703 | Unprotecting any other packet that has an outcome is the injection step of the session |
| SrtpEndpoints.ControlSession.constructor | src/transport/srtp.c:465-511 | Both ends derive the same SRTCP keys from one master key and start in the initial state |
| SrtpEndpoints.ControlSession.Transmit | src/transport/srtp.c:367-424 | Sending is the send step of the SRTCP system, whether or not the link takes the packet |
| SrtpEndpoints.ControlSession.Receive | src/transport/srtp.c:705-777 | Unprotecting a packet the sender handed on is the delivery step and returns what that step logs |
| SrtpEndpoints.ControlSession.ReceiveForeign | src/transport/srtp.c:705-777 | Unprotecting any other packet is the injection step |
| SrtpReceiver.WindowRefinesSet | src/transport/srtp.c:577-627 | In every run on arbitrary packets that has an outcome the highest index is the maximum of the accepted set, bit d says whether highest - d was accepted, and the rollover counter stays within 16 bits |
| SrtpReceiver.NextPacket | src/transport/srtp.c:629-703 | After any run the next packet has an outcome iff it is short, or its index is not fresh, or it has at most 2048 bytes without its tag; then it is authenticated iff it is long enough, its index is not in the accepted set and less than 64 behind its maximum, and its tag is right; its index then did not wrap, and the highest index never decreases |
| SrtpReceiver.ReplayCheckIsFreshness | src/transport/srtp.c:577-598 | The replay check passes iff the index was not accepted and is less than 64 behind the maximum |
| SrtpReceiver.WindowEdge | src/transport/srtp.c:588-597 | After sequence number 100, index 37 is accepted and index 36 is refused |
| SrtpReceiver.UpdateDescribes | src/transport/srtp.c:600-627 | The window update adds exactly the new index to the set the window stands for, without wrap-around |
| SrtpReceiver.OverflowingRocIsTooOld | src/transport/srtp.c:545-598 | Estimating a rollover counter of 65536 always ends in a replay rejection |
| SrtpReceiver.EstimateExact | src/transport/srtp.c:545-569 | The estimate is the true rollover counter iff the true index is within the stated half circle around the highest one, which has a different end for each half of the sequence space and is the whole first cycle while the counter is 0 |
| SrtpReceiver.HalfCycleWithinReach | src/transport/srtp.c:545-569 | Section 3.3.1 of RFC 3711: for every index less than 2^15 from the highest the estimate is right |
| ReplayWindow.SeenIsMembership | src/transport/srtp.c:588-597 | The mask test inside the window is membership in the accepted set |
| ReplayWindow.AdvanceTracks | src/transport/srtp.c:613-622 | Shifting and setting the low bit tracks the set with the new maximum added, also past 64 |
| ReplayWindow.MarkTracks | src/transport/srtp.c:623-626 | Setting bit delta tracks the set with the older index added |
| Srtp.UnsealSealed | src/transport/srtp.c:629-703 | If the receiver estimates the counter a packet was sealed under, it returns the original packet iff the index is no replay, and otherwise leaves its state alone |
| Srtp.HeaderLengthKept | src/transport/srtp.c:254-274 | Encryption does not change what the receiver reads as header length |
| Srtp.SealedBytes | src/transport/srtp.c:254-291 | The protected packet byte by byte: header in clear, payload xored with AES of the counter block of RFC 3711, and the first bytes of the HMAC of all that and the rollover counter |
| Srtp.ProtectLimit | src/transport/srtp.c:219-274 | A packet is sent iff it has at least 12 bytes, a whole header and, with its tag of 10 or 4 bytes, at most 2048 bytes |
| Srtp.BothSuites | src/transport/srtp.c:20-22 | Tags of 10 and of 4 bytes are both there |
| Srtp.FailureKeepsState | src/transport/srtp.c:676-695 | A failing call leaves the receiver unchanged iff the packet did not pass replay and tag checks |
| Srtp.FailureCanChangeState | src/transport/srtp.c:676-695 | For every key a packet exists that fails and still moves the window |
| Srtp.CleanForEveryTag | src/transport/srtp.c:636-695 | Without the key: whatever the tag, a failing call leaves the receiver unchanged, iff the header fits in front of the tag or the index is a replay |
| Srtp.CopyInBounds | src/transport/srtp.c:658-662 | The copy of the packet and the rollover counter stays inside the 2052-byte buffer iff the packet is short, a replay, or has at most 2048 bytes without its tag |
| Srtp.LongPacketRunsOver | src/transport/srtp.c:658-662 | A fresh receiver that is given 3000 zeros writes past its buffer |
| SrtpCipher.CryptRoundTrip | src/transport/srtp.c:125-162 | Encrypting twice under one SSRC and index is the identity |
| SrtpCipher.CryptByte | src/transport/srtp.c:125-162 | Byte i is xored with byte i mod 16 of AES of the block that spells the initial counter of RFC 3711 plus i / 16 |
| SrtpCipher.IvIsRfcFormula | src/transport/srtp.c:128-158 | The 16-byte buffer, read as a number, is salt * 2^16 xor SSRC * 2^64 xor index * 2^16 |
| SrtpCipher.CounterStaysLow | src/transport/srtp.c:125-162 | For fewer than 2^16 blocks counting changes only the last two bytes |
| SrtpCipher.CounterBlocksDistinct | src/transport/srtp.c:125-162 | Equal counter blocks imply equal SSRC, index and block number |
| SrtpKeys.Kdf | src/transport/srtp.c:69-109 | The block loop fills the buffer with the counter mode keystream of section 4.3.1 of RFC 3711 for the label |
| SrtpKeys.DerivedByte | src/transport/srtp.c:69-109 | Byte i of a derived key is byte i mod 16 of AES of the block that spells (salt xor label * 2^48) * 2^16 + i / 16 |
| SrtpKeys.SixKeys | src/transport/srtp.c:26-31 | Labels 0 to 2 and 3 to 5 give the encryption, authentication and salting keys of SRTP and SRTCP, of 16, 20 and 14 bytes |
| SrtpKeys.LabelsSeparateKeys | src/transport/srtp.c:69-109 | Keys derived under different labels share no AES input block |
| SrtpKeys.DeriveKeys | src/transport/srtp.c:111-121 | Encryption, salting and authentication key of 16, 14 and 20 bytes under their labels |
| SrtpContext.BuildIv | src/transport/srtp.c:138-158 | The xor steps on the buffer give the specified initial counter block |
| SrtpContext.CryptInPlace | src/transport/srtp.c:125-162 | The range is replaced by its encryption, nothing else changes |
| SrtpContext.SameTag | src/transport/srtp.c:668-675 | The accumulating comparison is true iff all bytes agree |
| SrtpContext.HeaderLength | src/transport/srtp.c:254-274 | The header length steps agree with the specification, including where they give up |
| SrtpContext.SealInPlace | src/transport/srtp.c:276-287 | Encrypting, tagging with the rollover counter in slack space and overwriting it by the tag gives the sealed packet |
| SrtpContext.Sender.constructor | src/transport/srtp.c:166-192 | A new sender has rollover counter and previous sequence number 0 and the SRTP keys of the master key |
| SrtpContext.Sender.Transmit | src/transport/srtp.c:215-296 | State, return value and bytes handed on are those of the packet function, in every failing case too |
| SrtpContext.Receiver.constructor | src/transport/srtp.c:465-511 | A new receiver is uninitialized with both windows empty and has the SRTP and SRTCP keys of the master key |
| SrtpContext.Receiver.EstimateRoc | src/transport/srtp.c:545-569 | The branches compute the specified estimate and 32-bit index |
| SrtpContext.Receiver.ReplayCheck | src/transport/srtp.c:577-598 | 0 iff the specified replay check passes |
| SrtpContext.Receiver.ReplayUpdate | src/transport/srtp.c:600-627 | The new fields are the specified update |
| SrtpContext.Receiver.CheckTag | src/transport/srtp.c:658-675 | The copied and extended buffer is compared under the tag of packet and counter |
| SrtpContext.Receiver.DecryptBody | src/transport/srtp.c:680-699 | Exactly the bytes after the header are decrypted, and only if the header fits |
| SrtpContext.Receiver.Unprotect | src/transport/srtp.c:629-703 | State, return value, length and all bytes of the buffer after the call |
| SrtpContext.Receiver.RtcpReplay | src/transport/srtp.c:740-760 | The combined check and update of the SRTCP window |
| SrtpContext.Receiver.UnprotectRtcp | src/transport/srtp.c:705-777 | State, return value, length and bytes after the call; every -1 leaves context, bytes and length unchanged |
| SrtpContext.RtcpSender.constructor | src/transport/srtp.c:320-345 | A new sender has index 0 and the SRTCP keys of the master key |
| SrtpContext.RtcpSender.Transmit | src/transport/srtp.c:367-424 | Index, return value and packet handed on, in every failing case too |
| Srtcp.RtcpEndToEnd | src/transport/srtp.c:367-424 | In every run with fewer than 2^31 sends and deliveries in any order, a delivery returns the original packet iff its index was not accepted before and none accepted is 64 or more ahead |
| Srtcp.RtcpWindowRefinesSet | src/transport/srtp.c:740-760 | In every run on arbitrary packets from the all-zero state the window is the set of accepted indices |
| Srtcp.RtcpNextPacket | src/transport/srtp.c:705-777 | After any run a packet is accepted iff it is long enough, its tag is right and its index is fresh |
| Srtcp.RtcpUnseal | src/transport/srtp.c:705-777 | A sealed packet with index below 2^31 comes back iff it is no replay |
| Srtcp.RtcpSealedBytes | src/transport/srtp.c:388-414 | The protected packet byte by byte: eight bytes in clear, the rest xored with AES of its counter block, the index under the E flag, and the first bytes of the HMAC of all that |
| Srtcp.RtcpHandedBytes | src/transport/srtp.c:397-401 | In every run that is how the packets handed on are encrypted, under their position as index |
| Srtcp.RtcpProtectLimit | src/transport/srtp.c:372-391 | A packet is sent iff it has at least 8 bytes and, with index and tag, at most 2048 |
| Srtcp.RtcpClearPasses | src/transport/srtp.c:767-776 | An accepted packet without the E flag is returned as it came |
| Srtcp.IvAgreement | src/transport/srtp.c:397-406 | Sender and receiver use the same initial counter block iff the index is below 2^31 |
| Srtcp.RtcpStepKeepsInvariant | src/transport/srtp.c:367-424 | Every send, delivery and injection keeps the joint invariant |
| Srtcp.RtcpInjectChangesNothing | src/transport/srtp.c:705-760 | A packet from elsewhere that does not carry a valid tag for a fresh index changes nothing |
| Srtcp.RtcpKeystreamNeverReused | src/transport/srtp.c:397-416 | In every run with fewer than 2^31 sends no two packets handed on share a counter block, refused ones included |
| RtpTransport.PacketFields | src/rtp_transport.c:84-131 | The packet made for a stream reads back its marker and payload, and SRTP finds in it the sequence number, the SSRC and the start of the payload |
| RtpTransport.PacketBytes | src/rtp_transport.c:89-116 | The packet byte by byte: version 2 without padding, payload type and marker, sequence number, timestamp and SSRC most significant byte first, and the 0xBEDE extension with its word count if there is one |
| RtpTransport.OpenPackets | src/rtp_transport.c:84-131 | A list of packets with consecutive sequence numbers reads back as the list of markers and payloads |
| RtpTransport.Transport.SendPacket | src/rtp_transport.c:84-131 | On success packet, sequence number and statistics advance with wrap-around; on failure, which may depend on the packet, nothing changes, so a retry repeats the sequence number |
| RtpTransport.Transport.Prepare | src/rtp_transport.c:89-116 | The three buffers handed to the inner transport make up the packet |
| RtpTransport.PacketsNext | src/rtp_transport.c:118-128 | One packet more, and the sequence number after it |
| RtpTransport.Transport.SetExtension | src/rtp_transport.c:164-180 | The stored extension is one element padded with zeros to a multiple of four |
| RtpTransport.ElementBytes | src/rtp_transport.c:170-179 | Identifier and length minus one share the first byte, the value follows, zeros fill up to a multiple of four |
| RtpHeader.RoundTrip | src/types/rtp.c:37-174 | Deserializing a serialized header, whatever follows, consumes exactly its size and gives the fields back, the extension length in network order |
| RtpHeader.FixedAtWire | src/types/rtp.c:60-81 | Where every bit of the first two bytes and every field of the fixed part is |
| RtpHeader.CsrcAtWire | src/types/rtp.c:83-85 | Contributing source i is at byte 12 + 4 i |
| RtpHeader.ExtensionAtWire | src/types/rtp.c:87-96 | Profile, length in network order and payload follow the contributing sources |
| RtpHeader.SrtpAgrees | src/types/rtp.c:101-174 | On every packet the RTP layer accepts, SRTP computes the same header length |
| RtpHeader.SrtpAcceptsMore | src/transport/srtp.c:254-274 | A packet SRTP protects is accepted by the RTP layer iff its version is 2 and an X bit has room for an extension header |
| RtpHeader.ReceivedSize | src/types/rtp.c:14-35 | The size of a received header is what was consumed iff there is no extension or its length reads the same in both byte orders |
| RtpHeader.ReceivedSizeWrong | src/types/rtp.c:14-35 | A header of 20 bytes that reports 1040 once received |
| RtpHeader.NetworkOrderExactly | src/types/rtp.c:79-96 | The multi-byte fields are on the wire in network order iff swapping their bytes changes nothing; the extension length always is |
| RtpHeader.HostOrderOnWire | src/types/rtp.c:79-81 | A header whose sequence number 1 goes out as 256 |
| RtpHeader.SerializeInto | src/types/rtp.c:37-99 | The field by field writer fills exactly the header's size with the serialized header |
| RtpHeader.AppendCsrc | src/types/rtp.c:83-85 | The loop appends every contributing source |
| Buffers.TotalLength | src/io_vec.c:3-10 | The loop computes the length of all buffers together |
| Buffers.Coalesce | src/transport/srtp.c:225-230 | The copy loop leaves the concatenation of all buffers in the packet |
| Parsing.MatchUntil | src/types/parsing.c:7-23 | The loop consumes the longest run that satisfies the matcher, or asks for more if the input ends first |
| Parsing.MatchWhile | src/types/parsing.c:7-23 | Complete means a run followed by a byte outside it, Partial means a run to the end, Failure never happens |
| Parsing.ScanForStr | src/types/parsing.c:55-77 | The loop answers as the search function |
| Parsing.MatchUntilStrFinds | src/types/parsing.c:55-77 | What is consumed ends in the string |
| Parsing.MatchUntilStrFirst | src/types/parsing.c:55-77 | No occurrence is passed over, and Partial means there is none |
| Parsing.MatchStrAgrees | src/types/parsing.c:91-115 | A prefix view completes, fails or asks for more consistently with every longer view |
| Parsing.MatchStrFails | src/types/parsing.c:91-115 | It fails iff a byte differs and reports what was expected and what was there; Partial iff the input is a proper prefix |
| Parsing.MatchTokenFails | src/types/parsing.c:127-152 | It fails iff the first byte is outside the class and reports the kind of token and the text |
| Parsing.MatchTokenAgrees | src/types/parsing.c:127-152 | A token is complete iff the byte after it has arrived |
| RtspIncremental.LineAgrees | src/types/request_line.c:27-39 | A complete request line is final, and every view that ends before it asks for more |
| RtspIncremental.HeaderAgrees | src/types/header.c:23-48 | The same for one header line |
| RtspIncremental.HeadersExtend | src/types/header_map.c:66-92 | A complete header block stays the same whatever follows, except that a last byte CR is answered with Partial |
| RtspIncremental.HeadersCut | src/types/header_map.c:66-92 | What every cut of a complete header block says: Partial, or Failure for the one cut after the 32nd header line |
| RtspIncremental.CompleteIsStable | src/types/request.c:56-120 | If a parse is complete, every extension gives the same request and length, except Partial iff the extension ends in CR |
| RtspIncremental.PrefixIsPartial | src/types/request.c:56-120 | Every proper prefix of a complete request is Partial, except the cut of a 32-header request right after its last header line |
| RtspIncremental.HeadersFail | src/types/header_map.c:66-92 | A failed header block stays failed under every extension, except Partial iff the extension ends in CR, and a block cut after the 32nd header line that ends there |
| RtspIncremental.FailureIsFinal | src/types/request.c:56-120 | A failed parse stays failed under every extension, except Partial iff the request line is complete and the extension ends in CR, and the cut right after the 32nd header line |
| RtspRoundTrip.PrintThenParse | src/types/request.c:21-120 | Parsing a printed request gives back the request with CSeq and Content-Length inserted in front and consumes the whole text; Partial iff the body ends in CR, otherwise overflow iff more than 32 headers result |
| RtspRoundTrip.PrintThenMore | src/types/request.c:21-120 | The same with any text after the request, unless the last byte is CR |
| RtspRoundTrip.PrintedPrefix | src/types/request.c:56-120 | Every proper prefix of a printed request asks for more, with the one 32-header exception |
| RtspRoundTrip.HeaderRoundTrip | src/types/header.c:9-48 | A printed header line parses back to key and value |
| RtspRoundTrip.HeadersRoundTrip | src/types/header_map.c:50-92 | A printed header block parses back in order after the headers already there, or overflows |
| RtspRoundTrip.LineRoundTrip | src/types/request_line.c:10-39 | A printed request line parses back |
| RtspRoundTrip.VersionRoundTrip | src/types/rtsp_version.c:12-55 | A printed version parses back |
| RtspRoundTrip.MethodRoundTrip | src/types/method.c:7-21 | An identifier before a space is read as the method |
| RtspRoundTrip.UriRoundTrip | src/types/request_uri.c:7-21 | A space-free URI between spaces is read as the URI |
| RtspRoundTrip.MethodTakes | src/types/method.c:7-21 | After any number of spaces the method is the longest run of 0-9, A-Z, a-z and underscore |
| RtspRoundTrip.NameTakes | src/types/header.c:31-34 | After any number of spaces the header name is the longest run of A-Z, a-z and hyphen |
| RtspRoundTrip.UriTakes | src/types/request_uri.c:7-21 | After any number of spaces the URI is everything up to the next space |
| RtspRoundTrip.SeparatorTakes | src/types/header.c:36-38 | Between name and value any number of spaces, colons and spaces is passed |
| RtspRoundTrip.VersionTakes | src/types/rtsp_version.c:27-37 | Any number of spaces before "RTSP/" and any positive number of dots between the digits |
| RtspRoundTrip.ErrorKinds | src/types/parsing.c:127-152 | Which kind of token is reported missing where, with the text from there on |
| RtspRoundTrip.VersionErrors | src/types/rtsp_version.c:39-52 | The number that does not fit is reported, the first one first |
| RtspRoundTrip.FrontExactly | src/types/request.c:62-86 | Fewer than four bytes are Partial; a dollar sign starts a frame; anything else starts the message |
| RtspRoundTrip.Texts | src/types/rtsp_version.c:28-28 | The texts the parser looks for, spelled out |
| RtspRoundTrip.CharClasses | src/types/parsing.c:25-53 | The character classes, spelled out |
| RtspRoundTrip.InsertedExactly | src/types/request.c:30-46 | CSeq in front unless present, then Content-Length unless present or without a body |
| RtspRoundTrip.Outcomes | src/types/request.c:88-119 | After the headers: a bad Content-Length, then a missing body, then a missing CSeq, then a bad one |
| RtspRoundTrip.ExamplePrinted | src/types/request.c:21-54 | The text of a GET_PARAMETER request with body, spelled out |
| RtspRoundTrip.ExampleParses | src/types/request.c:56-120 | That text is read for what it says |
| RtspRoundTrip.TokensStartInside | src/types/parsing.c:127-152 | Wherever a token follows spaces or dots its first byte is there, so only the slice behind "RTSP/" can be empty |
| RtspRoundTrip.BehindSlashIsPartial | src/types/rtsp_version.c:28-31 | A view that ends right behind "RTSP/" is answered with Partial |
| RtspRoundTrip.SlashViews | src/types/rtsp_version.c:28-31 | Any method and URI followed by "RTSP/" are such a view |
| RtspParser.ParseToken | src/types/parsing.c:127-152 | The first-byte test and the loop give one token, a mismatch or Partial |
| RtspParser.ParseMethod | src/types/method.c:7-21 | The MATCH steps give the specified result |
| RtspParser.ParseUri | src/types/request_uri.c:7-21 | The MATCH steps give the specified result |
| RtspParser.ParseVersion | src/types/rtsp_version.c:21-55 | The MATCH steps and the two conversions give the specified result |
| RtspParser.ParseLine | src/types/request_line.c:27-39 | The MATCH steps give the specified result |
| RtspParser.ParseHeader | src/types/header.c:23-48 | The MATCH steps give the specified result |
| RtspParser.HeaderMap.Lookup | src/types/header_map.c:19-34 | The value of the first header with the key |
| RtspParser.HeaderMap.Append | src/types/header_map.c:42-48 | The header is added at the end |
| RtspParser.HeaderMap.Parse | src/types/header_map.c:66-92 | Answer and stored headers of the loop, also when it stops with Partial or Failure |
| RtspParser.SkipInterleaved | src/types/request.c:62-83 | The loop terminates and stops where the specification says |
| RtspParser.RequestBox.Parse | src/types/request.c:56-120 | The answer is that of the specification and a complete parse leaves exactly the parsed request in the object |
| RtspParser.RequestBox.ParseRest | src/types/message_body.c:7-25 | Body and CSeq from the headers already stored, with the order of the error cases |
| RtspPrinter.PrintedExactly | src/types/request.c:21-54 | Whatever writes fail, the count returned is that of the whole text iff no write failed, and then the text is whole |
| RtspPrinter.ErrorGoesUnnoticed | src/macros.h:5-13 | If only the first write fails, everything but the request line is written and its length returned |
| RtspPrinter.GroupsText | src/types/request.c:21-54 | The pieces of all printers in order are the printed request |
| RtspPrinter.WritesCount | src/types/request.c:21-54 | Six writes for the line, four for each header, one for the empty line and one for a body |
| RtspPrinter.Writer.WriteSlices | src/writer.c:7-19 | The pieces up to the first failed write, and their length |
| RtspParser.RequestBox.Serialize | src/types/request.c:21-54 | What is written and returned, whatever writes fail; without a failure it is the printed request |
| RtspParser.RequestBox.SerializeInserted | src/types/request.c:30-46 | CSeq is written iff absent, Content-Length iff absent and there is a body, as far as writes succeed |
| RtspParser.RequestBox.SerializeHeaders | src/types/header_map.c:50-64 | All headers in order, then the empty line, as far as writes succeed; a header that fails does not stop the next |
| Interleaved.HeaderRoundTrip | src/util.c:150-172 | Parsing an interleaved header gives back channel and length |
| Interleaved.FrameEnds | src/transport/tcp.c:54-93 | The parser sees a frame end where it ends iff its payload has at most 65535 bytes |
| Interleaved.SkipFramesWritten | src/types/request.c:62-83 | The skip loop passes any list of written frames |
| Interleaved.FramesAreInvisible | src/types/request.c:56-120 | Any list of frames in front of any text changes the answer only by the total length of the frames |
| Interleaved.TcpTransport.Transmit | src/transport/tcp.c:54-93 | One packet is one write of the whole frame, success means all of it was taken, and without memory for a large frame nothing is written |
| Interleaved.StreamExactly | src/transport/tcp.c:86-92 | The stream after a list of packets is their frames iff every write took its whole frame; one short write makes it shorter |
| Interleaved.TransmitAll | src/transport/tcp.c:54-93 | One transmit after the other leaves that stream |
| Nal.HeaderRoundTrip | src/nal/h265.c:8-32 | Parsing a serialized header of either codec gives its fields back |
| Nal.BytesRoundTrip | src/nal/h264.c:5-16 | Every header byte string is the serialization of what it parses to |
| Nal.HeaderNumber | src/nal/h265.c:19-32 | Where every field of the header is, for both codecs |
| Nal.FuBytes | src/nal/h265.c:55-71 | The bytes in front of a fragment: a header of type 28 or 49, start bit, end bit and unit type |
| Nal.SliceTypes | src/nal/h265.c:46-53 | Coded slices are types 5 and 1 for H.264 and 19, 20 and 1 for H.265 |
| Nal.FuIdentifierFields | src/nal/h264.c:39-56 | The masking steps keep both bits of nal_ref_idc and set type 28 |
| Nal.FragmentFields | src/nal.c:60-103 | A receiver reads from a fragment its start and end bits and the header of the unit, but for the H.264 forbidden bit |
| NalTransport.RoundTrip | src/nal_transport.c:65-150 | What a depacketizer makes of the packets of a unit of any length |
| NalTransport.RoundTripExact | src/nal_transport.c:65-150 | The unit comes back unchanged iff it does not look like a fragment and was sent whole or has the H.264 forbidden bit clear |
| NalTransport.FragmentsAreOneUnit | src/nal_transport.c:94-136 | Start bit on the first fragment only, end bit and marker on the last only, the same unit header on all |
| NalTransport.AtLeastTwo | src/nal_transport.c:94-136 | A unit that does not fit takes at least two fragments |
| NalTransport.PayloadsFit | src/nal_transport.c:94-102 | A payload is within the maximum iff the unit is whole or the maximum leaves room for the FU header |
| NalTransport.WholeExactly | src/nal_transport.c:69-86 | One packet, marked on coded slices, iff header and payload are smaller than the maximum |
| NalTransport.FullFragments | src/nal_transport.c:104-121 | Every fragment but the last fills the maximum |
| NalTransport.ReceiverRebuilds | src/nal_transport.c:65-150 | From the bytes of the RTP packets alone a receiver rebuilds header and payload |
| NalStream.UnitOrNothing | src/nal_transport.c:118-132 | The packets of a unit that were taken make up the unit iff all were |
| NalStream.UnitsRoundTrip | src/nal_transport.c:65-150 | From the payloads of any list of units, whole and fragmented mixed, some cut short by a failed send, a receiver rebuilds exactly the complete ones in order |
| NalStream.StreamRebuilds | src/nal_transport.c:65-150 | The same from the bytes of the RTP packets |
| NalStream.UnitsOverSrtp | src/transport/srtp.c:629-703 | The same through an SRTP session, once all packets of the units were accepted in whatever order; the receiver arranges them by sequence number |
| NalTransport.UnitSender.SendPacket | src/nal_transport.c:65-90 | The packets sent are a prefix of the specified ones with consecutive sequence numbers, all of them iff it returns 0, and the next sequence number follows on without a gap in either case |
| NalTransport.UnitSender.SendFragments | src/nal_transport.c:94-136 | The same for the loop over fragments |
| NalTransport.UnitSender.SendFu | src/nal_transport.c:138-150 | One fragment with its header and marker |
| NalTransport.FullPieces | src/nal_transport.c:104-105 | Quotient and remainder count the pieces |
| JpegFrame.ParseBuilt | src/jpeg_transport.c:270-358 | For every frame made of segments, bare markers and fill bytes, the parser returns what the elements mean and where the scan is, or refuses for want of a size, want of tables or more than 512 bytes of them |
| JpegShape.AcceptedIsBuilt | src/jpeg_transport.c:270-358 | Every accepted byte string is such a frame |
| JpegShape.AcceptedExactly | src/jpeg_transport.c:270-358 | The parser accepts a byte string iff it is such a frame with a size and 1 to 512 bytes of tables |
| JpegFrame.ParseFrame | src/jpeg_transport.c:270-358 | An accepted frame has 1 to 512 bytes of tables and a scan that ends two bytes before the end |
| JpegFrame.SizeExactly | src/jpeg_transport.c:234-268 | What a SOF0 segment must hold; dimensions in whole units of eight pixels, 0 above 2040; type 1 iff 4:2:0 |
| JpegFrame.MarkerKinds | src/jpeg_transport.c:294-309 | Which markers stand alone and how the segments of the others are delimited |
| JpegFrame.ExampleRead | src/jpeg_transport.c:270-358 | A frame spelled out in bytes is read for what it says |
| JpegFrame.SegmentOf | src/jpeg_transport.c:204-268 | A segment is parsed for what it says unless the tables overflow |
| JpegFrame.DqtOfTables | src/jpeg_transport.c:204-232 | A DQT segment appends the entries of its tables in order and marks the wide ones |
| JpegTransport.Outs | src/jpeg_transport.c:131-169 | Every payload fits the maximum fragment size |
| JpegTransport.HeaderBytes | src/jpeg_transport.c:172-202 | The bytes of the main, restart and table headers of every packet |
| JpegTransport.FullPackets | src/jpeg_transport.c:135-140 | Every packet but the last fills the maximum |
| JpegTransport.SentExactly | src/jpeg_transport.c:111-129 | A frame is sent iff it parses, its scan has 1 to 16777215 bytes and the first header is smaller than the maximum |
| JpegTables.SplitExactly | src/jpeg_transport.c:204-232 | Cutting table data by position gives the tables back iff precision bit i says whether table i is wide |
| JpegTables.MarkAllBit | src/jpeg_transport.c:224-226 | Bit i of the precision is set iff some wide table has id i |
| JpegTables.TablesRecovered | src/jpeg_transport.c:204-232 | Of at most 512 bytes of tables a receiver recovers every table in order iff a table at position i is wide exactly if some wide table has id i |
| JpegTables.NarrowInPlace | src/jpeg_transport.c:204-232 | Without wide tables the condition holds |
| JpegTables.FrameTables | src/jpeg_transport.c:204-232 | The same for the tables of all DQT segments of a frame |
| JpegTables.WideTableMisread | src/jpeg_transport.c:224-226 | One wide table with id 1 gets precision 2 and cannot be cut out again |
| JpegTransport.ReassembleOuts | src/jpeg_transport.c:131-169 | A depacketizer that insists on contiguous 24-bit offsets and one marker on the last packet recovers table data, precision, dimensions and scan |
| JpegTransport.FrameRoundTrip | src/jpeg_transport.c:104-170 | For every byte string accepted as a frame, the payloads give back what was parsed and exactly the scan bytes up to EOI |
| JpegTransport.BuiltFrameRoundTrip | src/jpeg_transport.c:104-170 | From the RTP packets of a frame a receiver recovers exactly the scan and all table data, and the tables one by one iff the wide ones stand where their ids say |
| JpegTransport.FrameOverSrtp | src/transport/srtp.c:629-703 | A frame through an SRTP session, once all its packets were accepted in whatever order; the receiver arranges them by sequence number |
| JpegTransport.WideTableLost | src/jpeg_transport.c:104-170 | A frame that is sent and whose only table a receiver cannot cut out |
| JpegSender.FrameInfo.ReadDqt | src/jpeg_transport.c:204-232 | The loop stays in bounds and appends the tables as specified |
| JpegSender.FrameInfo.ReadSof0 | src/jpeg_transport.c:234-268 | Dimensions and type as specified |
| JpegSender.FrameInfo.ReadFrame | src/jpeg_transport.c:270-358 | The parser refuses or leaves the specified description, for every byte string |
| JpegSender.FrameInfo.Walk | src/jpeg_transport.c:281-346 | The marker loop terminates and answers as specified |
| JpegSender.ReadMarker | src/jpeg_transport.c:282-309 | Fill bytes, marker and segment length, with every refusal |
| JpegSender.Sender.SendFrame | src/jpeg_transport.c:104-170 | A refused frame sends nothing; otherwise the packets sent are a prefix of the specified ones, all of them iff it returns 0 |
| JpegSender.Sender.SendScan | src/jpeg_transport.c:131-169 | The fragment loop |
| JpegSender.Sender.WriteHeader | src/jpeg_transport.c:142-156 | The rewritten header buffer |
| JpegSender.WriteRestart | src/jpeg_transport.c:147-150 | The restart header is appended iff there is a restart interval |
| JpegSender.WriteTables | src/jpeg_transport.c:152-156 | The table header and the table data are appended |
| Md5.HashPieces | src/md5.c:105-157 | For every way of cutting a message into updates the digest is the fold over the padded whole |
| Md5.PadBytes | src/md5.c:139-149 | The padded message: the message, 0x80, zeros, and 8 bytes that spell its length in bits modulo 2^64, least significant first, a multiple of 64 in all |
| Md5.OutputBytes | src/md5.c:151-156 | Word i of the state comes out at byte 4 i, least significant byte first |
| Md5.DigestOfBlocks | src/md5.c:105-111 | A short message takes one transform from the four starting words, spelled out |
| Md5.Context.Update | src/md5.c:113-137 | The state has absorbed every whole block of all bytes so far and the buffer holds the rest |
| Md5.Context.AbsorbBlocks | src/md5.c:130-132 | The block loop folds whole blocks straight from the data |
| Md5.Context.Final | src/md5.c:139-157 | The digest of everything fed in, with the length modulo 2^64 bits |
| Md5.FoldAppend | src/md5.c:130-132 | Folding over a concatenation of whole blocks is folding twice |
| Base64.RoundTrip | src/base64.c:28-114 | Decoding an encoding is the identity for every byte string |
| Base64.Alphabet | src/base64.c:6-21 | Character i of the alphabet, spelled out, stands for i |
| Base64.ValidChars | src/base64.c:23-26 | The alphabet and the equals sign are let through, nothing else |
| Base64.SameBits | src/base64.c:40-47 | The 24 bits of three bytes are those of four characters, in the same order |
| Base64.DecodeExactly | src/base64.c:66-91 | What decodes, and to how many bytes |
| Base64.DecodedBits | src/base64.c:96-111 | The 24 bits of four characters are those of three decoded bytes, in the same order |
| Base64.Encode | src/base64.c:28-63 | The encoded length is 4 times the length divided by 3, rounded up |
| Base64.EncodeChars | src/base64.c:28-63 | Only alphabet characters and the right number of equals signs at the end |
| Base64.EncodeInto | src/base64.c:28-63 | -1 iff the buffer is too small, otherwise the encoding and a zero byte, and no other write |
| Base64.DecodeInto | src/base64.c:65-114 | -1 without a write iff the text is refused or the buffer too small, otherwise exactly the decoded bytes |
| Base64.TriplesAt | src/base64.c:96-111 | Block b of the text decides bytes 3b to 3b + 2 |
| Base64.ReencodeExactly | src/base64.c:65-114 | A text that decodes comes back from encoding iff equals signs stand only at its end and the bits in front of them are zero |
| Base64.EncodingIsCanonical | src/base64.c:28-63 | Every encoding is such a text |
| Base64.LooseText | src/base64.c:65-114 | A text that decodes and does not come back |

## Left out

- SrtpSession.EndToEnd: assumes a first delivered packet from the sender's first cycle and later ones where the receiver's estimate reaches, because the receiver starts at counter 0 and knows 16 bits; `SrtpReceiver.EstimateExact` says exactly where the estimate is right. Injected packets with a valid tag for a fresh index, which take a key or a collision, are not covered.
- Srtcp.RtcpEndToEnd: assumes fewer than 2^31 sends, because beyond that the two ends disagree about the counter block (`Srtcp.IvAgreement`).
- SrtpContext.Receiver.Unprotect: requires `Srtp.CopyFits`, because a copy past the local buffer has no defined outcome to model.
- SrtpContext.Receiver.CheckTag: requires at most 2048 bytes in front of the tag for the same reason; it is only reached behind the replay check.
- SrtpEndpoints.Session.ReceiveForeign: requires `Srtp.CopyFits` for the same reason.
- NalStream.UnitsOverSrtp: is about the packets a unit sender makes, in a session of the composed RTP and SRTP senders; the unit sender and the JPEG sender as objects sit on `RtpTransport.Transport`, whose inner transport is an oracle.
- RtpOrder.ArrangeRestores: covers at most 65536 packets at a time, because a sequence number has 16 bits.
- SrtpKeys.Kdf: requires an output of at most 2^16 blocks, the range of its counter; the source asks for 14, 16 and 20 bytes.
- RtpHeader.RoundTrip: requires fields within their widths and an extension of at most 16383 words, because a longer one wraps the copy index.
- RtpTransport.Transport.SendPacket: takes the 32-bit timestamp itself; the conversion from microseconds (floating point) and the reading of the monotonic clock are not modelled.
- RtspRoundTrip.PrintThenParse: takes reading back printed numbers as an assumption on the C library (`RtspRoundTrip.DigitsInvert` shows that it can be met), and needs preset CSeq and Content-Length headers to agree with the fields.
- RtspParser.RequestBox.Parse: says nothing about the request line, body and CSeq fields after Partial or Failure, where the source leaves whatever it had stored by then.
- RtspParser.RequestBox.Serialize: a write takes all of its piece or fails; writers that take part of a piece are not modelled.
- RtspParser.ParseToken: answers an empty slice with Partial, where the source reads a byte behind the view; `RtspRoundTrip.EndsBehindSlash` says exactly which views those are.
- NalTransport.RoundTrip: requires a maximum above the FU header size; with a smaller one payloads exceed it (`NalTransport.PayloadsFit`), and a maximum of 0 divides by zero in the source.
- Interleaved.TcpTransport.Transmit: the writer's lock is not modelled.
- The AES, HMAC and SHA-1 backends, key generation, key wiping and the crypto attribute of SDP: foreign code or straight-line text.
- TLS, UDP sockets and the fd, file and string writers: input and output.
- Response parsing: the same skip loop and header code as for requests.
- Transport header parsing: relies on sscanf scan sets.
- Digest authentication, nonces and the hexadecimal form of MD5: C string routines and randomness.
- Controller dispatch, context, SDP printing, RTCP reports and the backchannel: only easy members.
- Equality functions, parameter set predicates and start code tests: only easy members.
