# Verified models of the BitTorrent crates

Dafny models of the stateful parts of this workspace, with proofs of what they keep over whole runs.
`dafny verify dfyconfig.toml` checks everything. Each module follows one source file or one concern of it.

| module | what it models |
|---|---|
| `UtpSocket` | the uTP connection as a class: sending, resending, acknowledging, timeouts, reading, closing |
| `UtpProtocol` | what the class is proved against: replies, states, one receive, closing, as functions of what arrives |
| `UtpAccounts` | its accounts: packets queued, dropped and put on the wire, bytes handed out and thrown away |
| `UtpWindow`, `UtpReorder`, `UtpSack` | the send window under 16-bit numbers, the reorder buffer as a reference machine, selective acks at both ends |
| `UtpDelay`, `UtpCongestion` | the LEDBAT estimator of section 2.4.2 of RFC 6817: delay history, queuing delay, window, timeout |
| `UtpPacket`, `Bits`, `Bytes` | packets with extension chains, bit and byte order |
| `PeerConnection`, `PeerMessages`, `RequestQueue` | the peer protocol of BEP 3: wanted and in-flight blocks, choking, interest, uploads |
| `PieceStore`, `Tiling` | pieces and blocks on disk with their hashes; the two ways of cutting content into blocks |
| `AnnounceStorage`, `TokenStore`, `TransactionIds` | the DHT's expiring index, rotating secrets and id generators |
| `Timer`, `DiskAdmission` | the timer queue with its cached head; the shared admission counter under every interleaving |
| `Tracker` | UDP tracker requests (BEP 15) with options (BEP 41): writers and parsers |
| `Wrappers`, `Sequences` | options, truncating division, flattening |

## How the models work

- A uTP connection gets the datagrams and timeouts of its run in advance, as an arbitrary list; when the
  list is used up, the next receive is an I/O error. `send_packet` receives while it waits for room, so
  sending, receiving, acknowledging and resending are mutually recursive, here as there, and the
  invariants hold across every nesting. What a receive does is stated exactly (`Received`, `Settled`)
  unless an acknowledgement reports loss while two segments or more are in flight, which is when the
  nesting may start; what resending does is stated exactly for calls that find room in the window.
- Clock readings are arbitrary. The invariant remembers whether they ever went back; statements about
  delays assume that they did not.
- `f64` is `real`; conversions to integers truncate and saturate as in Rust. Signed division truncates.
  16- and 32-bit arithmetic wraps explicitly where its results are used.
- Everything sent, dropped, acknowledged, arrived, removed, copied out, handed to the application,
  answered, broadcast or issued is kept in ghost fields; class invariants tie these to the real state, and
  lemmas read off what the invariants amount to (`SendingConserves`, `ReceivingConserves`, `Accounts`,
  `AllDiffer`, `AnnouncedIsVerified`).
- What other threads decide (the random choice of the next block, secrets and shuffles) is arbitrary. The
  answers of the shared download are an arbitrary list, given in advance and logged as they are used, so
  that it can be said what the connection does with them.
- SHA-1 is an arbitrary function. A file that ends within a piece can still match its hash, and a block
  longer than its place can overwrite complete pieces; `RightHashIff` and `Store` say exactly when. A
  `Download` remembers whether either ever happened, and statements about hashes hold as long as
  neither did. A file of full length that gets blocks of their own length causes neither
  (`NoShortMatch`, `WriteKeepsOthers`).

## Where the code does not do what one would expect

Each of these has an exact condition, for all inputs, and a concrete case.

| what happens | exactly when | a case |
|---|---|---|
| bytes that arrive while a send waits for room or a close for the peer are copied into a buffer nobody reads | `CopiesNothingIff` for one read, `SettlesSilentlyIff` for a close | `CloseDiscardsExample` |
| a read that finishes pending data takes the next buffered packet whatever its number | `ReadInLineIff` | `GapExample` |
| an old packet that is admitted once more stops all delivery | `BlockedIff` | `StaleHeadIsReachable` |
| a number is acknowledged whose data never came or was refused | `AcknowledgedIsHeldIff` | `AcknowledgedUnseenExample`, `AcknowledgedRefusedExample` |
| an acknowledgement beyond the last packet in flight removes nothing | `AcknowledgesByDistance` | every such acknowledgement |
| stashed packets whose number wrapped are not reported | `ReportedIffNotWrapped` | `UnreportedExample` |
| packets reported missing before the wrap are not resent | `ResentAllIff` | `WrappedSackExample` |
| a selective ack of 256 bytes or more is written with a wrong length; one of a multiple of 256 is refused | `SetSackFaithfulIffShort`, `SetSackAcceptedIff` | `LongSackExample` |
| the round-trip sample wraps around | `RttSampleExact` | `RttSampleWrapExample` |
| off target falls below the documented -1 | `OffTargetRange` | every delay above twice the target |
| tokens live for almost 30 minutes, not 20 | `AcceptedIffNotGone`, `RefusedAfterThirtyMinutes` | `AcceptedJustBelowThirty` |
| failed disk jobs never give their place back | `AdmissionPossibleIff` | `ExhaustedExample` |
| a block completed elsewhere frees a place in the pipeline that is not refilled, and may leave interest stale | `OnBlockComplete` | `StalledExample`, `StaleInterestExample` |
| a piece announced before splitting is over is never asked about | `OnCatComplete` | `UnaskedExample` |
| a block is announced although a wrong hash has just reset its piece | `Store` | `WrongHashExample` |
| a block that is too long overwrites a complete piece, which goes on counting as complete | `Store`, `SurvivesIff` | `SpoiledExample` |
| a file that is too short passes for a complete piece | `RightHashIff` | `ShortMatchExample` |
| the end of the download is announced before all pieces are there | `DownloadedIff` | `EarlyCompleteExample` |
| options under the keys 0 and 1 do not survive | `OptionsReadBackIff` | `ReservedOptionExample` |

## Model

| member | source | states |
|---|---|---|
| UtpSocket.UtpSocket.SendingConserves | bittorrent-protocol/btp-utp/src/socket.rs:563-610 | In every reachable state: payloads acknowledged, in flight and waiting are, in this order, exactly those of the packets queued and not dropped by an error; what counts as acknowledged or in flight was put on the wire; `curr_window` is the total size in flight and at most one segment each; without errors the payloads are the bytes written, numbered consecutively mod 2^16 and ending just before `seq_nr` |
| UtpSocket.UtpSocket.AcknowledgesByDistance | bittorrent-protocol/btp-utp/src/socket.rs:783-801 | In every reachable state without send errors and with 1 to 2^16 packets in flight: an acknowledgement is for the packets up to its distance from the first one, and for none if that is beyond the window; for at most 2^15 packets, exactly for those up to it in serial order if and only if it does not run ahead of the last one |
| UtpSocket.UtpSocket.ReceivingConserves | bittorrent-protocol/btp-utp/src/socket.rs:490-550 | In every reachable state: the buffer is strictly sorted; bytes copied out followed by pending data are the payloads of the removed packets in removal order; whatever is held or removed arrived as a data packet, and the number acknowledged was borne by a packet that arrived; if only numbers above `last_dropped` were admitted, removed numbers ascend; the application got exactly the copies made for it, and the rest is counted as thrown away |
| UtpSocket.CloseDiscardsExample | bittorrent-protocol/btp-utp/src/socket.rs:295-325 | A run of `close` on a new connection during which one data packet arrives: its byte is removed and acknowledged, copied into the buffer of `close`, and never handed out |
| UtpProtocol.SettlesSilentlyIff | bittorrent-protocol/btp-utp/src/socket.rs:318-323 | For every list of datagrams and timeouts that may arrive while `close` waits: nothing is copied into its buffer if and only if no receive on the way finds pending data or a non-empty packet in line |
| UtpReorder.CopiesNothingIff | bittorrent-protocol/btp-utp/src/socket.rs:507-550 | A read copies nothing out if and only if the slice is empty, or nothing is pending and no packet is in line or only an empty one |
| UtpProtocol.AcknowledgedIsHeldIff | bittorrent-protocol/btp-utp/src/socket.rs:809-812 | For every state, packet and connection: a packet with the next number moves `ack_nr` whatever it is, and data with that number is held afterwards if and only if the packet is data, is admitted and is not refused for the state of the connection, or such data was held before |
| UtpProtocol.AcknowledgedUnseenExample | bittorrent-protocol/btp-utp/src/socket.rs:809-812 | A STATE packet with the next number on an open connection: 6 is acknowledged although nothing was received |
| UtpProtocol.AcknowledgedRefusedExample | bittorrent-protocol/btp-utp/src/socket.rs:407-418 | A FIN or a reset, then a data packet with the next number: 6 is acknowledged and its data refused |
| UtpProtocol.UnknownIsReset | bittorrent-protocol/btp-utp/src/socket.rs:814-819 | Without an id of this connection every packet is answered by a reset and leaves the state alone |
| UtpSocket.UtpSocket.Established | bittorrent-protocol/btp-utp/src/socket.rs:171-202 | A new connection has sent, received and measured nothing |
| UtpSocket.UtpSocket.BlankIsValid | bittorrent-protocol/btp-utp/src/socket.rs:171-202 | A new connection satisfies every invariant of the class |
| UtpSocket.UtpSocket.Accept | bittorrent-protocol/btp-utp/src/socket.rs:831-841 | The accepting side takes its numbers and ids from the SYN; the state it starts in is ordered |
| UtpSocket.UtpSocket.Connect | bittorrent-protocol/btp-utp/src/socket.rs:843-851 | The connecting side waits for exactly the number the STATE packet bears and counts on from its own SYN |
| UtpSocket.UtpSocket.InsertIntoBuffer | bittorrent-protocol/btp-utp/src/socket.rs:1073-1086 | The shortcut for newest packets and the insertion after all smaller numbers both do what set insertion by number does |
| UtpSocket.UtpSocket.AdvanceIncomingBuffer | bittorrent-protocol/btp-utp/src/socket.rs:490-500 | Removes exactly the first packet and acknowledges it |
| UtpSocket.UtpSocket.FlushIncomingBuffer | bittorrent-protocol/btp-utp/src/socket.rs:507-550 | Copies out at most n bytes and does exactly one read of the reference model; the bytes reach the application or are counted as thrown away |
| UtpSocket.UtpSocket.UpdateBaseDelay | bittorrent-protocol/btp-utp/src/socket.rs:658-677 | In-place update equals the function whose invariant is proved in `UtpDelay` |
| UtpSocket.UtpSocket.UpdateCurrentDelay | bittorrent-protocol/btp-utp/src/socket.rs:681-693 | The removal loop drops exactly the samples older than rtt*100 |
| UtpSocket.UtpSocket.TakeSample | bittorrent-protocol/btp-utp/src/socket.rs:998-1003 | Both delay lists keep describing the whole sample history, and with a monotone clock the queuing delay stays in 0..2^32 |
| UtpSocket.UtpSocket.UpdateCongestionWindow | bittorrent-protocol/btp-utp/src/socket.rs:959-973 | Refines the window function of `UtpCongestion`; never below one segment |
| UtpSocket.UtpSocket.UpdateCongestionTimeout | bittorrent-protocol/btp-utp/src/socket.rs:695-708 | Estimates stay in range and the timeout is at least 500 ms and at most 60 s |
| UtpSocket.UtpSocket.AdvanceSendWindow | bittorrent-protocol/btp-utp/src/socket.rs:783-801 | The removal loop takes exactly the packets up to the acknowledged one out of the window and their size off `curr_window` |
| UtpSocket.UtpSocket.AwaitRoom | bittorrent-protocol/btp-utp/src/socket.rs:614-633 | Waiting keeps every invariant whatever arrives meanwhile, and every byte copied out meanwhile is thrown away; with room there is no wait |
| UtpSocket.UtpSocket.SendPacket | bittorrent-protocol/btp-utp/src/socket.rs:614-652 | On success the last thing on the wire is the packet, changed only in its stamps, whatever was received meanwhile; if nothing was, it is the only thing and nothing else changes; with room nothing is received |
| UtpSocket.UtpSocket.ResendLostPacket | bittorrent-protocol/btp-utp/src/socket.rs:764-780 | With room exactly the packet with that number, if in flight, goes out again; the window and `curr_window` do not change |
| UtpSocket.UtpSocket.PrepareReply | bittorrent-protocol/btp-utp/src/socket.rs:474-487 | A reply carries this side's ids and numbers, the time, the time difference, no extension and no payload |
| UtpSocket.UtpSocket.AddSack | bittorrent-protocol/btp-utp/src/socket.rs:913-923 | A selective ack is added if and only if the packet is out of line and something is stashed ahead, and its bits are those of the buffer |
| UtpSocket.UtpSocket.HandleDataPacket | bittorrent-protocol/btp-utp/src/socket.rs:904-926 | Reply type, number and selective ack for a data packet |
| UtpSocket.UtpSocket.MeasureAck | bittorrent-protocol/btp-utp/src/socket.rs:986-1013 | Credits exactly the size of the packets up to the acknowledged one; afterwards the window is at least 2 segments and at most the larger of that and flight size plus one segment, the timeout between 500 and 60000 ms, the queuing delay not negative |
| UtpSocket.UtpSocket.HandleSack | bittorrent-protocol/btp-utp/src/socket.rs:1022-1042 | Loss is reported if and only if the selective ack reports a number; with room exactly the numbers it reports, and that are in flight, go out again, in order; without, other packets may be received, and every invariant is kept |
| UtpSocket.UtpSocket.DetectLoss | bittorrent-protocol/btp-utp/src/socket.rs:1015-1052 | Loss is reported exactly when `LossSeen` says so; with room, or without loss, all selective acks and the three-duplicates rule resend exactly what `LossNumbers` lists, and nothing is received |
| UtpSocket.UtpSocket.RespondToLoss | bittorrent-protocol/btp-utp/src/socket.rs:1015-1059 | With room, or without loss, the congestion window is halved, not below 2 segments, exactly when loss is seen, and exactly the numbers reported go out again |
| UtpSocket.UtpSocket.Acknowledge | bittorrent-protocol/btp-utp/src/socket.rs:978-1013 | The bytes credited are the size of the acknowledged prefix; without one the congestion window stays |
| UtpSocket.UtpSocket.HandleStatePacket | bittorrent-protocol/btp-utp/src/socket.rs:975-1063 | If nothing else is received meanwhile, which is sure with room or without loss, the packets up to the acknowledged one leave the window, their size is `bytes_newly_acked`, `cwnd` is at most flight size plus a segment, and exactly the numbers reported lost go out again |
| UtpSocket.UtpSocket.OnAck | bittorrent-protocol/btp-utp/src/socket.rs:975-1063 | An acknowledgement with little in flight or without loss receives nothing and leaves state and receiving side alone |
| UtpSocket.UtpSocket.HandlePacket | bittorrent-protocol/btp-utp/src/socket.rs:806-902 | For every packet: the reply type or the error is that of `Reply`, the new state that of `NextState`, and the receiving side changes in `ack_nr` only; unknown ids change neither window nor peer data. State and receiving side are stated for all packets but acknowledgements that report loss with two segments or more in flight |
| UtpSocket.UtpSocket.Dispatch | bittorrent-protocol/btp-utp/src/socket.rs:830-901 | The same by state and packet type, once the connection id is known |
| UtpSocket.UtpSocket.HandleFin | bittorrent-protocol/btp-utp/src/socket.rs:859-883 | A FIN is answered and closes an open connection, is answered again when closed, and is an error after a reset |
| UtpSocket.UtpSocket.HandleReceiveTimeout | bittorrent-protocol/btp-utp/src/socket.rs:426-472 | Doubles the timeout, shrinks the window to one segment and resends the first packet in flight, else the FIN, else three acknowledgements |
| UtpSocket.UtpSocket.ResendFirst | bittorrent-protocol/btp-utp/src/socket.rs:462-469 | Only the stamp of the first packet changes, and it goes out |
| UtpSocket.UtpSocket.SendFastResendRequest | bittorrent-protocol/btp-utp/src/socket.rs:750-762 | Three acknowledgements of the current number go out |
| UtpSocket.UtpSocket.AwaitDatagram | bittorrent-protocol/btp-utp/src/socket.rs:365-393 | Timeouts are handled until a datagram comes, cut to the buffer, or the tries are used up, which closes the connection: exactly `NextDatagram` of the events to come |
| UtpSocket.UtpSocket.Recv | bittorrent-protocol/btp-utp/src/socket.rs:359-424 | One receive into n bytes moves receiving side, state and events exactly as `Received` says, error and all, unless an acknowledgement reports loss with two segments or more in flight or comes after timeouts; what it copies out is handed to the application exactly when that is the caller, and otherwise thrown away. In every case all invariants and the account of sent packets are kept |
| UtpSocket.UtpSocket.HandleDatagram | bittorrent-protocol/btp-utp/src/socket.rs:395-423 | The same for a datagram, by `Opened`: one that is no packet changes nothing |
| UtpSocket.UtpSocket.HandleAndAdmit | bittorrent-protocol/btp-utp/src/socket.rs:405-423 | The same for a packet, by `Taken`; it fails exactly when `Reply` says so |
| UtpSocket.UtpSocket.Admit | bittorrent-protocol/btp-utp/src/socket.rs:413-421 | A data packet is inserted unless it bears the last removed number; then one read |
| UtpSocket.UtpSocket.Send | bittorrent-protocol/btp-utp/src/socket.rs:603-610 | Success empties the queue, and every packet queued and not dropped is on the wire; an error drops exactly the packet in hand from the account and keeps the rest |
| UtpSocket.UtpSocket.Store | bittorrent-protocol/btp-utp/src/socket.rs:606-607 | The packet in hand joins the window with its size |
| UtpSocket.UtpSocket.SendTo | bittorrent-protocol/btp-utp/src/socket.rs:563-587 | The bytes are appended to what was written, cut into segments; on success all segments are on the wire, an error drops exactly one of them; nothing is queued on a closed connection |
| UtpSocket.UtpSocket.Flush | bittorrent-protocol/btp-utp/src/socket.rs:591-600 | Success means that nothing is in flight |
| UtpSocket.UtpSocket.RecvFrom | bittorrent-protocol/btp-utp/src/socket.rs:332-357 | At most n bytes, appended to what the application got; an empty result means closed |
| UtpSocket.UtpSocket.Close | bittorrent-protocol/btp-utp/src/socket.rs:295-325 | Success means closed and that a FIN went out; closing writes nothing, hands nothing out and throws away every byte it copies out. With nothing in flight the FIN goes out first and then exactly `Settled` of the events to come happens |
| UtpSocket.UtpSocket.AwaitClose | bittorrent-protocol/btp-utp/src/socket.rs:318-323 | The waiting loop is `Settled` |
| UtpAccounts.DropKeeps | bittorrent-protocol/btp-utp/src/socket.rs:604-605 | An error in `send` loses the packet in hand and no other |
| UtpAccounts.CarriedOnWire | bittorrent-protocol/btp-utp/src/socket.rs:603-610 | What was queued and is acknowledged or in flight was put on the wire |
| UtpAccounts.NothingDropped | bittorrent-protocol/btp-utp/src/socket.rs:603-610 | If as many packets are carried as were queued, they are all of them, in order |
| UtpAccounts.CopiesAdd | bittorrent-protocol/btp-utp/src/socket.rs:507-550 | Bytes handed out and bytes thrown away add up to those copied out |
| UtpProtocol.SampleStep | bittorrent-protocol/btp-utp/src/socket.rs:998-1003 | One more sample in both delay lists: they still describe the history and the queuing delay is sound |
| UtpDelay.QueuingDelayNonNegative | bittorrent-protocol/btp-utp/src/socket.rs:928-938 | For every history in order and every rtt up to the largest possible, the filtered current delay is at least the least base delay, so the queuing delay is never negative and no larger than any sample |
| UtpDelay.BaseDelaysStep | bittorrent-protocol/btp-utp/src/socket.rs:658-677 | For every history of samples: at most ten entries, entry i the minimum of the i-th retained rollover period; kept by every sample |
| UtpDelay.MinBaseDelayIsLeastRetained | bittorrent-protocol/btp-utp/src/socket.rs:721-723 | The least entry is the minimum of all samples of the retained periods |
| UtpDelay.Periods | bittorrent-protocol/btp-utp/src/socket.rs:658-666 | The history cut into non-empty periods; nothing is lost or reordered |
| UtpDelay.NextBaseDelays | bittorrent-protocol/btp-utp/src/socket.rs:658-677 | Never more than ten entries |
| UtpDelay.CurrentDelaysStep | bittorrent-protocol/btp-utp/src/socket.rs:681-693 | The current samples are a suffix of the history, none older than the limit |
| UtpDelay.DropOld | bittorrent-protocol/btp-utp/src/socket.rs:681-690 | What remains is a suffix whose first sample is young enough |
| UtpDelay.EwmaBetween | bittorrent-protocol/btp-utp/src/util.rs:7-14 | The weighted average stays between the least and the greatest input |
| UtpDelay.FilteredBetween | bittorrent-protocol/btp-utp/src/socket.rs:715-718 | So does its truncation |
| UtpDelay.YoungSamplesAreRetained | bittorrent-protocol/btp-utp/src/socket.rs:658-693 | Samples no older than nine periods belong to retained periods |
| UtpDelay.LastEvictedIsOld | bittorrent-protocol/btp-utp/src/socket.rs:658-677 | A sample whose period was evicted is more than nine periods old |
| UtpDelay.SamplesBeforeTenPeriodsAreOld | bittorrent-protocol/btp-utp/src/socket.rs:658-677 | Ten periods span more than nine times their minimal length |
| UtpCongestion.RttStepInRange | bittorrent-protocol/btp-utp/src/socket.rs:695-701 | Estimates stay in 0..4294967, between old value and sample, and no intermediate result leaves the range of i32 |
| UtpCongestion.RttConverges | bittorrent-protocol/btp-utp/src/socket.rs:695-701 | With a constant sample the estimate approaches it monotonically, by at least 1 per step, down to a distance of at most 7 |
| UtpCongestion.RttSample | bittorrent-protocol/btp-utp/src/socket.rs:1011 | A sample in milliseconds is in range whatever the delays |
| UtpCongestion.RttSampleExact | bittorrent-protocol/btp-utp/src/socket.rs:1011 | The 32-bit subtraction gives the true difference if and only if the queuing delay is not above our delay; otherwise the value it wraps to |
| UtpCongestion.RttSampleWrapExample | bittorrent-protocol/btp-utp/src/socket.rs:1011 | Two samples, taken through the updates of the delay lists, for which it wraps to 4292966 ms |
| UtpCongestion.OffTargetRange | bittorrent-protocol/btp-utp/src/socket.rs:946-949 | Off target is at most 1; at least -1 if and only if the queuing delay is at most twice the target; not negative if and only if it is at most the target |
| UtpCongestion.NextCwnd | bittorrent-protocol/btp-utp/src/socket.rs:959-973 | Between two segments and the larger of that and flight size plus one segment |
| UtpCongestion.CwndFollowsTarget | bittorrent-protocol/btp-utp/src/socket.rs:959-973 | Above the target the window does not grow, below it does not shrink except to the flight bound, and one acknowledgement adds at most a segment |
| UtpCongestion.IncreaseSign | bittorrent-protocol/btp-utp/src/socket.rs:959-963 | The increase has the sign of off target and is at most a segment |
| UtpCongestion.TimeoutFor | bittorrent-protocol/btp-utp/src/socket.rs:699-701 | Between 500 ms and 60 s |
| UtpPacket.DecodeEncode | bittorrent-protocol/btp-utp/src/packet.rs:124-199 | Every packet with valid extensions is decoded from its bytes unchanged |
| UtpPacket.EncodeDecode | bittorrent-protocol/btp-utp/src/packet.rs:375-388 | Every accepted byte string is the encoding of the packet it decodes to |
| UtpPacket.ChainIsBody | bittorrent-protocol/btp-utp/src/packet.rs:456-494 | An accepted extension chain is byte for byte the encoding of the extensions read from it |
| UtpPacket.ChainReadsBody | bittorrent-protocol/btp-utp/src/packet.rs:456-494 | The encoding of extensions, anywhere in a datagram, is accepted, read back and ends where it should |
| UtpPacket.CheckExtensions | bittorrent-protocol/btp-utp/src/packet.rs:456-494 | Accepts exactly the datagrams whose chain is well formed, with the same error otherwise |
| UtpPacket.Payload | bittorrent-protocol/btp-utp/src/packet.rs:269-285 | Skipping the extensions stays in bounds and yields the decoded payload |
| UtpPacket.ExtensionIterator.constructor | bittorrent-protocol/btp-utp/src/packet.rs:412-425 | The iterator starts with all extensions ahead and ends where the payload begins |
| UtpPacket.ExtensionIterator.Next | bittorrent-protocol/btp-utp/src/packet.rs:428-453 | Yields the extensions one by one and stops exactly at the payload |
| UtpPacket.SetSack | bittorrent-protocol/btp-utp/src/packet.rs:321-368 | The bytes become the encoding of the same packet with one more extension, of type SelectiveAck, at the end of the chain |
| UtpPacket.MarkLast | bittorrent-protocol/btp-utp/src/packet.rs:332-353 | The search for the last extension stays in bounds and marks exactly its next-type byte |
| UtpPacket.InsertLast | bittorrent-protocol/btp-utp/src/packet.rs:360-367 | Inserts marker, length byte and data before the payload |
| UtpPacket.BodySnoc | bittorrent-protocol/btp-utp/src/packet.rs:321-368 | What appending an extension does to the encoded chain |
| UtpPacket.SetSackFaithfulIffShort | bittorrent-protocol/btp-utp/src/packet.rs:363 | The changed packet reads back with that extension if and only if the data is shorter than 256 bytes: the length is one byte |
| UtpPacket.SetSackAcceptedIff | bittorrent-protocol/btp-utp/src/packet.rs:363 | The changed packet is accepted at all if and only if the length modulo 256 is not zero |
| UtpPacket.ChainPast | bittorrent-protocol/btp-utp/src/packet.rs:456-494 | Past valid extensions a chain is accepted if and only if its last link is |
| UtpPacket.Len | bittorrent-protocol/btp-utp/src/packet.rs:370-372 | The length computed is that of the encoding |
| UtpSack.SackEndToEnd | bittorrent-protocol/btp-utp/src/socket.rs:1028-1039 | A receiver makes the sender resend exactly the numbers, as far as its bitmap goes, that it has not stashed, up to the first of them that is not below the last one sent |
| UtpSack.SackInOrder | bittorrent-protocol/btp-utp/src/socket.rs:1028-1039 | Without wrap-around these are the numbers below the last one sent that are not in the buffer |
| UtpSack.ResentAllIff | bittorrent-protocol/btp-utp/src/socket.rs:1033-1036 | Everything the bitmap reports missing among the numbers sent is resent if and only if the numbers do not wrap before the last one sent, or nothing before the wrap is missing |
| UtpSack.NothingToMiss | bittorrent-protocol/btp-utp/src/socket.rs:1028-1039 | Nothing counts as missing if the last number sent is the acknowledged one, the next one, or not after it in serial order |
| UtpSack.WrappedSackExample | bittorrent-protocol/btp-utp/src/socket.rs:1033-1036 | Acknowledged 65533, last number 3, no bit set: 65535 is missing and nothing is resent |
| UtpSack.BuildSelectiveAck | bittorrent-protocol/btp-utp/src/socket.rs:726-744 | Bit idx is set if and only if the packet acknowledged + 2 + idx is stashed ahead; whole groups of 4 bytes; as many ones as packets; empty if and only if there are none |
| UtpSack.Grow | bittorrent-protocol/btp-utp/src/socket.rs:734-738 | Pads with zero bytes in groups of 4 until the byte exists |
| UtpSack.BitMeaning | bittorrent-protocol/btp-utp/src/socket.rs:727-730 | Which number a bit stands for, and exactly when the comparison of raw numbers sees it as ahead |
| UtpSack.ReportedIffNotWrapped | bittorrent-protocol/btp-utp/src/socket.rs:727-730 | A stashed packet is reported if and only if its number did not wrap past the acknowledged one |
| UtpSack.UnreportedExample | bittorrent-protocol/btp-utp/src/socket.rs:727-730 | Number 0 is held but not reported under acknowledgement 65534 |
| UtpSack.LongSackExample | bittorrent-protocol/btp-utp/src/socket.rs:733-738 | One stashed packet 2042 numbers ahead gives a bitmap of 256 bytes or more, and no reply reads back with it |
| UtpSack.LostPackets | bittorrent-protocol/btp-utp/src/socket.rs:1028-1039 | The loop yields the reference list |
| UtpSack.LostExactly | bittorrent-protocol/btp-utp/src/socket.rs:1028-1039 | For every bitmap and every two numbers, the list holds exactly the numbers of the unset bits before the first one whose number is not below the last one sent |
| UtpSack.SetAtBits | bittorrent-protocol/btp-utp/src/socket.rs:740 | Setting a bit sets that bit and no other |
| UtpSack.SetAtCounts | bittorrent-protocol/btp-utp/src/bit_iterator.rs:24-26 | And counts for one more unless it was set |
| Bits.SetBitSets | bittorrent-protocol/btp-utp/src/bit_iterator.rs:32-41 | Setting a bit of a byte, least significant first, and reading it |
| Bits.SetBitKeepsOthers | bittorrent-protocol/btp-utp/src/bit_iterator.rs:32-41 | Other bits read as before |
| Bits.SetBitCounts | bittorrent-protocol/btp-utp/src/bit_iterator.rs:24-26 | The number of ones grows by one unless the bit was set |
| UtpWindow.CumulativeAckIsSerialPrefix | bittorrent-protocol/btp-utp/src/socket.rs:783-801 | For consecutive numbers, wrapping or not, at most 2^15 of them: an acknowledgement removes exactly the numbers at or before it in serial order if and only if it is not beyond the last one; beyond, nothing is removed |
| UtpWindow.AckedByDistance | bittorrent-protocol/btp-utp/src/socket.rs:783-801 | The same by distance for windows of up to 2^16 packets: as many leave as the acknowledgement is away from the first number, and none if that is beyond the window |
| UtpWindow.PositionIsDistance | bittorrent-protocol/btp-utp/src/socket.rs:793-794 | The position found is the distance mod 2^16 |
| UtpWindow.RemovePrefix | bittorrent-protocol/btp-utp/src/socket.rs:783-801 | Removing a prefix moves packets and their size, and loses neither |
| UtpWindow.StampOne | bittorrent-protocol/btp-utp/src/socket.rs:462-469 | Stamping a packet changes neither sizes nor what was queued |
| UtpWindow.RestampedPayloads | bittorrent-protocol/btp-utp/src/socket.rs:563-610 | Stamps do not touch payloads |
| UtpWindow.RestampedNumbers | bittorrent-protocol/btp-utp/src/socket.rs:563-610 | Nor numbers |
| UtpWindow.SumLenBound | bittorrent-protocol/btp-utp/src/socket.rs:563-610 | Total size is at most one segment per packet |
| UtpReorder.RunConserves | bittorrent-protocol/btp-utp/src/socket.rs:490-550 | For every interleaving of insertions, reads of any size and acknowledgements: sorted buffer without duplicates, delivered plus pending bytes equal the payloads removed |
| UtpReorder.RunInOrder | bittorrent-protocol/btp-utp/src/socket.rs:490-550 | If each inserted number is above the last one removed, removed numbers strictly increase |
| UtpReorder.RunKnown | bittorrent-protocol/btp-utp/src/socket.rs:413-421 | In every run whatever is buffered or removed is a data packet that arrived, and `ack_nr` is the first one or borne by a packet that arrived |
| UtpReorder.InsertedIsSortedUnion | bittorrent-protocol/btp-utp/src/socket.rs:1073-1086 | Insertion into the sorted buffer is set insertion by number; a duplicate is dropped |
| UtpReorder.InsertedAtEnd | bittorrent-protocol/btp-utp/src/socket.rs:1074-1077 | The shortcut agrees with it |
| UtpReorder.ReadInLineIff | bittorrent-protocol/btp-utp/src/socket.rs:521-525 | A read takes out only the next packet in line if and only if it does not finish pending data in front of a gap |
| UtpReorder.GapExample | bittorrent-protocol/btp-utp/src/socket.rs:521-525 | A run that reads over a gap: 6 is read in two parts, and finishing it takes out 8 although 7 is missing |
| UtpReorder.BlockedIff | bittorrent-protocol/btp-utp/src/socket.rs:532-548 | With nothing pending, a run of any insertions, reads and acknowledgement moves takes nothing out of the buffer if and only if none of its reads finds the least number held at the acknowledged one or just after it |
| UtpReorder.StaleHeadBlocks | bittorrent-protocol/btp-utp/src/socket.rs:533-549 | So a buffered packet behind the line stops all delivery, whatever is inserted after it, until the line comes back to it |
| UtpReorder.StaleHeadIsReachable | bittorrent-protocol/btp-utp/src/socket.rs:415-416 | A run from a new connection: 3 and 4 are received and read, 3 arrives once more and is admitted; in no continuation is anything delivered until the line comes round to 3 |
| UtpReorder.FlushConserves | bittorrent-protocol/btp-utp/src/socket.rs:507-550 | One read conserves bytes and hands out at most n |
| AnnounceStorage.AnnounceStorage.Add | bittorrent-protocol/btp-dht/src/storage.rs:30-51 | Accepted if and only if the contact is live or fewer than 500 are; the reference map from contact to last add time changes exactly then |
| AnnounceStorage.AnnounceStorage.Find | bittorrent-protocol/btp-dht/src/storage.rs:61-73 | Exactly the contacts added or renewed under the hash less than 24 hours ago, each once |
| AnnounceStorage.AnnounceStorage.InsertContact | bittorrent-protocol/btp-dht/src/storage.rs:78-105 | Known if and only if listed; refused if and only if new and full; both indexes list the same contacts afterwards |
| AnnounceStorage.AnnounceStorage.RemoveExpiredItems | bittorrent-protocol/btp-dht/src/storage.rs:108-134 | What remains is exactly the live contacts of the reference map |
| AnnounceStorage.Addresses | bittorrent-protocol/btp-dht/src/storage.rs:68-72 | The addresses under one hash, each once |
| AnnounceStorage.PrunedIsLive | bittorrent-protocol/btp-dht/src/storage.rs:108-134 | Cutting at the first item not expired leaves exactly the live contacts, because the list is in order of time |
| AnnounceStorage.RenewedAgrees | bittorrent-protocol/btp-dht/src/storage.rs:36-48 | Moving a renewed contact to the end keeps the list in order and in agreement with the map |
| AnnounceStorage.RemovedLists | bittorrent-protocol/btp-dht/src/storage.rs:116-133 | Removing one contact from the index by hash removes that contact only |
| AnnounceStorage.InsertedLists | bittorrent-protocol/btp-dht/src/storage.rs:90-100 | Inserting adds that contact only |
| AnnounceStorage.WithoutKeeps | bittorrent-protocol/btp-dht/src/storage.rs:39 | Removing a contact keeps order and distinctness |
| TokenStore.AcceptedWithinTenMinutes | bittorrent-protocol/btp-dht/src/token.rs:98-139 | For every run of calls on a clock that does not go back, a token is accepted at every age below 10 minutes |
| TokenStore.RefusedAfterThirtyMinutes | bittorrent-protocol/btp-dht/src/token.rs:98-139 | With a hash that is injective in the secret for that address, and a secret that is not drawn again, it is refused at every age of 30 minutes or more (plus twice the lag between the two clock readings of a refresh) |
| TokenStore.AcceptedJustBelowThirty | bittorrent-protocol/btp-dht/src/token.rs:11-24 | 30 is tight: for every age from 10 up to just below 30 minutes some run still accepts, although the documentation says 20 |
| TokenStore.AcceptedIffNotGone | bittorrent-protocol/btp-dht/src/token.rs:104-108 | A token is accepted if and only if its secret was not rotated out |
| TokenStore.PhaseTells | bittorrent-protocol/btp-dht/src/token.rs:110-124 | Where a secret is after any run: current, last or gone |
| TokenStore.PhaseKeeps | bittorrent-protocol/btp-dht/src/token.rs:110-124 | Without assuming anything about the secrets drawn, a secret not rotated out is there |
| TokenStore.Survives | bittorrent-protocol/btp-dht/src/token.rs:110-139 | How long a secret is sure to stay |
| TokenStore.Dies | bittorrent-protocol/btp-dht/src/token.rs:110-139 | When it is sure to be gone |
| TokenStore.IntervalsAre | bittorrent-protocol/btp-dht/src/token.rs:132-139 | Whole intervals passed |
| TokenStore.TokenStore.RefreshCheck | bittorrent-protocol/btp-dht/src/token.rs:110-124 | Refines the refresh function |
| TokenStore.TokenStore.Checkout | bittorrent-protocol/btp-dht/src/token.rs:98-102 | The token is for the current secret after the refresh |
| TokenStore.TokenStore.Checkin | bittorrent-protocol/btp-dht/src/token.rs:104-108 | Accepted exactly if it is for the current or the last secret after the refresh |
| TransactionIds.Generator.AllDiffer | bittorrent-protocol/btp-dht/src/transaction.rs:67-187 | All ids of a generator, and their bytes, are pairwise distinct over any run of up to 2^40 actions with up to 2^24 messages each |
| TransactionIds.IdBlocks.NoRepeats | bittorrent-protocol/btp-dht/src/transaction.rs:81-120 | Up to the limit no id comes twice |
| TransactionIds.IdBlocks.Generate | bittorrent-protocol/btp-dht/src/transaction.rs:81-102 | Every id is below the limit, and blocks, rounds and wrap-around keep the account of what was issued |
| TransactionIds.IdBlocks.Refill | bittorrent-protocol/btp-dht/src/transaction.rs:89-100 | A new block is loaded, starting over at the limit, without disturbing the account of ids issued |
| TransactionIds.IdBlocks.Block | bittorrent-protocol/btp-dht/src/transaction.rs:106-120 | A block of consecutive ids, shuffled, has each exactly once |
| TransactionIds.NextFits | bittorrent-protocol/btp-dht/src/transaction.rs:106-112 | `next_alloc` stays a multiple of the block length, so testing it for equality with the limit is enough |
| TransactionIds.FisherShuffle | bittorrent-protocol/btp-util/src/lib.rs:40-52 | In place, whatever is drawn, a permutation |
| TransactionIds.ShuffledIsBlock | bittorrent-protocol/btp-dht/src/transaction.rs:106-120 | A permutation of consecutive ids has each exactly once |
| TransactionIds.IdsAreRecovered | bittorrent-protocol/btp-dht/src/transaction.rs:197-275 | Action and message id are recovered from the transaction id, and that from its bytes |
| TransactionIds.IdFromBytes | bittorrent-protocol/btp-dht/src/transaction.rs:208-220 | Exactly 8 bytes are accepted, and writing the id gives them back |
| TransactionIds.Generator.NewAction | bittorrent-protocol/btp-dht/src/transaction.rs:81-102 | A new action id with its own message ids |
| TransactionIds.Generator.NewMessage | bittorrent-protocol/btp-dht/src/transaction.rs:149-169 | One more message id of that action, combined with the action id |
| Timer.Timer.PollNext | bittorrent-protocol/btp-util/src/timer.rs:96-121 | Emits only the least pending (deadline, id), never before its deadline; finished if and only if nothing is pending; not ready only if nothing is due |
| Timer.Timer.Accounts | bittorrent-protocol/btp-util/src/timer.rs:57-121 | Every scheduled entry is emitted, cancelled or pending, exactly one of these, and the numbers add up |
| Timer.Timer.ScheduleAt | bittorrent-protocol/btp-util/src/timer.rs:57-73 | A new key, pending with its value |
| Timer.Timer.PushBack | bittorrent-protocol/btp-util/src/timer.rs:58-66 | A cached head that is later than the new deadline goes back to the queue; nothing is lost |
| Timer.Timer.Enqueue | bittorrent-protocol/btp-util/src/timer.rs:57-73 | The new entry does not come before the cached head |
| Timer.Timer.Cancel | bittorrent-protocol/btp-util/src/timer.rs:75-84 | True if and only if pending; then no longer |
| Timer.Timer.LoadHead | bittorrent-protocol/btp-util/src/timer.rs:108-119 | The least key becomes the head |
| Timer.Timer.IsEmpty | bittorrent-protocol/btp-util/src/timer.rs:49-51 | Nothing pending |
| Timer.FirstKey | bittorrent-protocol/btp-util/src/timer.rs:109-110 | The least key of the map |
| DiskAdmission.NeverOverCapacity | bittorrent-protocol/src/disk/manager.rs:89-99 | For any number of clones and every interleaving of the atomic steps: jobs in flight never exceed the capacity, and the counter is jobs in flight plus attempts about to undo plus failed jobs |
| DiskAdmission.StepKeepsInv | bittorrent-protocol/src/disk/manager.rs:89-99 | Every atomic step keeps the account |
| DiskAdmission.RunKeepsInv | bittorrent-protocol/src/disk/manager.rs:151-173 | So does every run |
| DiskAdmission.AdmissionPossibleIff | bittorrent-protocol/src/disk/manager.rs:159-173 | From any reachable state some run admits a job if and only if fewer jobs than the capacity have failed: failed jobs never give their place back |
| DiskAdmission.ExhaustedExample | bittorrent-protocol/src/disk/manager.rs:159-173 | For every capacity there is a run from the start after which no run ever admits a job |
| DiskAdmission.LoseAll | bittorrent-protocol/src/disk/manager.rs:159-173 | It submits jobs that fail until all places are lost |
| DiskAdmission.ExhaustedForever | bittorrent-protocol/src/disk/manager.rs:159-173 | Once as many have failed as there are places, no run admits anything |
| DiskAdmission.MakeRoom | bittorrent-protocol/src/disk/manager.rs:89-99 | Otherwise a run that does is constructed |
| DiskAdmission.QuiescentAdmission | bittorrent-protocol/src/disk/manager.rs:89-99 | With no attempt about to undo, an attempt succeeds if and only if there is a free place |
| Tiling.GenerateRequests | bittorrent-protocol/examples/ex8_simple_file_download.rs:614-656 | For all lengths above zero the loop terminates with the reference list, which tiles [0, total) |
| Tiling.PieceRequests | bittorrent-protocol/examples/ex8_simple_file_download.rs:624-648 | Whole blocks and the rest of one piece are the reference cuts |
| Tiling.BlocksTile | bittorrent-protocol/examples/ex8_simple_file_download.rs:624-648 | The blocks of a piece tile it, none longer than the block size |
| Tiling.AllBlocksTile | bittorrent-protocol/examples/ex8_simple_file_download.rs:614-656 | The blocks of all pieces tile the content |
| Tiling.EachByteOnce | bittorrent-protocol/examples/ex8_simple_file_download.rs:614-656 | Every byte is in exactly one block |
| Tiling.AllWithin | bittorrent-protocol/examples/ex8_simple_file_download.rs:614-656 | No block sticks out |
| Tiling.TilesConcat | bittorrent-protocol/examples/ex8_simple_file_download.rs:614-656 | Tilings compose |
| PieceStore.Download.Store | bittorrent-client-demo/src/peer/download.rs:154-195 | For data of any length: the data is in its place and read back; other pieces do not change and complete ones stay complete; the piece stored to is complete exactly when no other block was missing and the hash is right, and starts over if it is wrong; the block, which is announced in any case, counts as there afterwards if and only if another block is missing or the hash is right; a block that is there already changes nothing. The contents of any piece survive if and only if the data leaves them out or repeats them, and it is remembered exactly when those of a complete piece did not |
| PieceStore.SpoiledExample | bittorrent-client-demo/src/peer/download.rs:292-309 | Two pieces of which the second is complete: eight bytes stored as the only block of the first complete it, overwrite the second, which goes on counting as complete with a wrong hash, and end the download |
| PieceStore.SurvivesIff | bittorrent-client-demo/src/peer/download.rs:292-298 | For every file and every write: a part of the file reads as before if and only if the write adds no byte of it and repeats every byte it covers |
| PieceStore.WrongHashExample | bittorrent-client-demo/src/peer/download.rs:154-195 | A store of one block with a wrong hash: it is announced but does not count as there |
| PieceStore.Download.DownloadedIff | bittorrent-client-demo/src/peer/download.rs:241-248 | When the end of the download is announced, every piece of the torrent is complete if and only if all pieces have been split |
| PieceStore.EarlyCompleteExample | bittorrent-client-demo/src/peer/download.rs:187-193 | A store after which the end of the download is announced although the second of two pieces is not even split |
| PieceStore.Download.AnnouncedIsVerified | bittorrent-client-demo/src/peer/download.rs:154-195 | What peers were told is complete is complete, no piece is announced twice, and its contents match the hash unless there was a short match or a complete piece was overwritten |
| PieceStore.Download.IncompleteBlocks | bittorrent-client-demo/src/peer/download.rs:227-239 | Exactly the missing blocks; none if and only if the piece is complete, so an incomplete piece always has something to request |
| PieceStore.Download.Write | bittorrent-client-demo/src/peer/download.rs:292-309 | The file changes in that block's place only, whose data is read back; flags, hash check and starting over as in `Store` |
| PieceStore.Download.WriteFile | bittorrent-client-demo/src/peer/download.rs:293-297 | The contents of each piece survive if and only if the data spares them; data that fits its block, in a file of full length, spares all others |
| PieceStore.Download.WriteKeepsOthers | bittorrent-client-demo/src/peer/download.rs:292-298 | The place of a block is disjoint from every other piece, so data that fits it leaves alone every other piece that is whole in the file |
| PieceStore.Download.Flagged | bittorrent-client-demo/src/peer/download.rs:298-306 | One more block is there, and the piece is checked |
| PieceStore.Download.Check | bittorrent-client-demo/src/peer/download.rs:301-306 | With all blocks there the hash decides between complete and starting over |
| PieceStore.Download.Announce | bittorrent-client-demo/src/peer/download.rs:175-193 | The block, then the piece if complete, then the end if every piece split so far is complete |
| PieceStore.Download.IsComplete | bittorrent-client-demo/src/peer/download.rs:241-248 | Looks at the pieces split so far |
| PieceStore.Download.SplitPieces | bittorrent-client-demo/src/peer/download.rs:54-85 | All pieces, each with no block downloaded and complete exactly when the hash of the file's part is right; a file of full length raises no doubt |
| PieceStore.Download.SplitNext | bittorrent-client-demo/src/peer/download.rs:54-71 | One more piece, at its offset with its length and hash; earlier ones unchanged |
| PieceStore.Download.SameBlocksAsGenerator | bittorrent-client-demo/src/peer/download.rs:54-62 | Splitting lists the same (piece, offset, length) triples as the request generator with 16 KiB blocks, and they tile the content |
| PieceStore.Download.RequestsAgree | bittorrent-client-demo/src/peer/download.rs:54-62 | The same from any piece on |
| PieceStore.Download.RetrieveData | bittorrent-client-demo/src/peer/download.rs:197-210 | Only of complete pieces, and then exactly the bytes of the verified contents, as long as there was no short match and no complete piece was overwritten |
| PieceStore.Download.HavePieces | bittorrent-client-demo/src/peer/download.rs:212-224 | Which pieces are complete, and how many are split |
| PieceStore.NewPiece | bittorrent-client-demo/src/peer/download.rs:270-290 | The loop cuts the same blocks as the reference, all missing |
| PieceStore.ResetBlocks | bittorrent-client-demo/src/peer/download.rs:336-340 | All blocks missing, nothing else changed |
| PieceStore.MissingBlocks | bittorrent-client-demo/src/peer/download.rs:227-239 | Exactly the missing blocks with their lengths |
| PieceStore.RightHashIff | bittorrent-client-demo/src/peer/download.rs:312-321 | A right hash means that the whole piece is in the file and verified, or that the file is too short and matches still, never both |
| PieceStore.ShortMatchExample | bittorrent-client-demo/src/peer/download.rs:312-321 | An empty file passes for a piece of four bytes whose hash is that of nothing |
| PieceStore.Download.NoShortMatch | bittorrent-client-demo/src/peer/download.rs:312-321 | In a file of full length no match is short, so nothing has to be assumed about the hash |
| PieceStore.VerifiedStays | bittorrent-client-demo/src/peer/download.rs:292-298 | A write that spares a verified piece keeps it verified |
| PieceStore.WriteElsewhere | bittorrent-client-demo/src/peer/download.rs:292-298 | A write that does not overlap a part of the file spares it |
| PieceStore.WriteThenRead | bittorrent-client-demo/src/peer/download.rs:292-298 | What is written is read back |
| RequestQueue.RequestQueue.Has | bittorrent-client-demo/src/request_queue.rs:13-15 | True if and only if the block is queued |
| RequestQueue.RequestQueue.Add | bittorrent-client-demo/src/request_queue.rs:17-36 | Appends exactly if the block is not queued; never two for one block |
| RequestQueue.RequestQueue.Pop | bittorrent-client-demo/src/request_queue.rs:38-44 | Takes the first |
| RequestQueue.RequestQueue.Remove | bittorrent-client-demo/src/request_queue.rs:46-54 | Takes the one for the block, if any, and no other |
| RequestQueue.RemoveAtKeys | bittorrent-client-demo/src/request_queue.rs:46-54 | Removing one entry removes one key |
| RequestQueue.KeyCountsSnoc | bittorrent-client-demo/src/request_queue.rs:17-36 | Appending adds one key |
| RequestQueue.PositionTells | bittorrent-client-demo/src/request_queue.rs:56-60 | The position search finds a block if and only if it is queued |
| PeerConnection.PeerConnection.Accounts | bittorrent-client-demo/src/peer/peer_connection.rs:213-554 | In every reachable state: at most 10 requests in flight; no block both wanted and in flight; requests sent are in flight, answered or cancelled, block by block; at most one upload unfinished; the last word on interest is the flag, and it is said whenever something is wanted or in flight |
| PeerConnection.PeerConnection.Process | bittorrent-client-demo/src/peer/peer_connection.rs:213-290 | Every event keeps the invariants, and that interest is said whenever something is pursued; requests go out only while unchoked and only for pieces the peer announced |
| PeerConnection.PeerConnection.OnMessage | bittorrent-client-demo/src/peer/peer_connection.rs:292-467 | The same for every message, with the choke and interest flags it sets; nothing pursued is dropped except by an answer |
| PeerConnection.PeerConnection.RequestMoreBlocks | bittorrent-client-demo/src/peer/peer_connection.rs:524-554 | Afterwards nothing more can be requested: choked, not interested, nothing wanted or ten in flight; no block is lost |
| PeerConnection.PeerConnection.RequestBlock | bittorrent-client-demo/src/peer/peer_connection.rs:535-550 | One wanted block moves in flight |
| PeerConnection.PeerConnection.AddInFlight | bittorrent-client-demo/src/peer/peer_connection.rs:542-550 | Adding never fails, because wanted and in-flight blocks are disjoint |
| PeerConnection.PeerConnection.QueueBlocks | bittorrent-client-demo/src/peer/peer_connection.rs:469-491 | Every block the download reports missing is pursued afterwards |
| PeerConnection.PeerConnection.QueueFromList | bittorrent-client-demo/src/peer/peer_connection.rs:341-348 | The download is asked about the last pieces of the list, at most n, last one first |
| PeerConnection.PeerConnection.UpdateMyInterestedStatus | bittorrent-client-demo/src/peer/peer_connection.rs:493-508 | Interested if and only if something is wanted or in flight; a message goes out if and only if that changed |
| PeerConnection.PeerConnection.Refresh | bittorrent-client-demo/src/peer/peer_connection.rs:384-385 | Interest is right and the pipeline full; nothing pursued changes |
| PeerConnection.PeerConnection.OnBlockComplete | bittorrent-client-demo/src/peer/peer_connection.rs:217-225 | The block is neither wanted nor in flight, and cancelled exactly if it was; interest, if it was right, is right afterwards if and only if this was not the last block pursued; the pipeline is full afterwards if and only if it could not be refilled anyway |
| PeerConnection.StalledExample | bittorrent-client-demo/src/peer/peer_connection.rs:217-225 | A connection reached by a bit field and an unchoke: ten of eleven blocks are in flight, another connection completes one, and the free place is not used |
| PeerConnection.StaleInterestExample | bittorrent-client-demo/src/peer/peer_connection.rs:217-225 | The only missing block is completed by another connection: nothing is pursued any more, and the last word to the peer is still interest |
| PeerConnection.PeerConnection.CancelRequest | bittorrent-client-demo/src/peer/peer_connection.rs:219-224 | One cancel exactly if in flight |
| PeerConnection.PeerConnection.OnPieceComplete | bittorrent-client-demo/src/peer/peer_connection.rs:226-231 | Marked and told to the peer |
| PeerConnection.PeerConnection.OnCatComplete | bittorrent-client-demo/src/peer/peer_connection.rs:232-260 | The download is asked about exactly the pieces on the two lists, and all it reports missing is pursued |
| PeerConnection.UnaskedExample | bittorrent-client-demo/src/peer/peer_connection.rs:311-318 | A piece announced by a Have before splitting is over is on neither list: it is announced, and never asked about |
| PeerConnection.PeerConnection.OnHave | bittorrent-client-demo/src/peer/peer_connection.rs:311-318 | One more announced piece, asked about if splitting is over |
| PeerConnection.PeerConnection.OnBitfield | bittorrent-client-demo/src/peer/peer_connection.rs:319-351 | The peer's pieces are exactly the set bits; those split go on the list, the others are put aside, and the last eight of the list are asked about |
| PeerConnection.PeerConnection.ReadBitfield | bittorrent-client-demo/src/peer/peer_connection.rs:320-339 | The loop over the bits |
| PeerConnection.ChosenAre | bittorrent-client-demo/src/peer/peer_connection.rs:332-338 | The pieces listed are exactly those announced on that side of the split |
| PeerConnection.PeerConnection.OnRequest | bittorrent-client-demo/src/peer/peer_connection.rs:352-358 | The peer's request is queued once; the first of the queue, and no other, is served if allowed and no upload runs |
| PeerConnection.PeerConnection.UploadNextBlock | bittorrent-client-demo/src/peer/peer_connection.rs:565-584 | Exactly the first request is served, and only if the peer is interested, unchoked and no upload runs |
| PeerConnection.PeerConnection.UnchokeThem | bittorrent-client-demo/src/peer/peer_connection.rs:556-563 | Unchoke is sent exactly if the peer was choked |
| PeerConnection.PeerConnection.OnPiece | bittorrent-client-demo/src/peer/peer_connection.rs:359-386 | A request for the block counts as answered; afterwards the pipeline is full if the block was stored |
| PeerConnection.PeerConnection.TakeAnswer | bittorrent-client-demo/src/peer/peer_connection.rs:361-362 | The request is no longer in flight |
| PeerConnection.PeerConnection.OnKeepAlive | bittorrent-client-demo/src/peer/peer_connection.rs:391-463 | After splitting, every announced piece is asked about; before, up to eight of the old list, and both lists are made anew |
| PeerConnection.PeerConnection.QueueAnnounced | bittorrent-client-demo/src/peer/peer_connection.rs:411-418 | Every announced piece, in order |
| PeerConnection.PeerConnection.Sorted | bittorrent-client-demo/src/peer/peer_connection.rs:419-430 | The announced pieces by whether they are split |
| PeerConnection.EncodeBitfield | bittorrent-client-demo/src/peer/peer_connection.rs:510-522 | The bit field sent has exactly the bits of the pieces complete |
| Tracker.RequestReadsBackIff | bittorrent-protocol/btp-utracker/src/request.rs:60-136 | A written request is consumed whole and read back up to canonical forms, for every order of walking the option map, if and only if a connect carries the protocol id, no non-empty option has key 0 or 1, and a scrape lists whole hashes |
| Tracker.CanonicalReadsBack | bittorrent-protocol/btp-utracker/src/request.rs:60-136 | What was read back can be written again, in any order, and is read back unchanged: canonical forms are the only thing ever lost |
| Tracker.HeaderReadsBack | bittorrent-protocol/btp-utracker/src/request.rs:121-136 | The header read back selects the parser for the body |
| Tracker.BodyReadsBackIff | bittorrent-protocol/btp-utracker/src/request.rs:121-136 | The same for the body |
| Tracker.AnnounceReadsUpToOptions | bittorrent-protocol/btp-utracker/src/announce.rs:155-175 | Every field of an announce reads back; the rest depends on the options only |
| Tracker.AnnounceReadsBackIff | bittorrent-protocol/btp-utracker/src/announce.rs:155-175 | An announce reads back if and only if no non-empty option has key 0 or 1 |
| Tracker.OptionsReadBackIff | bittorrent-protocol/btp-utracker/src/option.rs:57-79 | Options of any length, in any order, read back if and only if no non-empty one has key 0 or 1 |
| Tracker.OptionsReadBack | bittorrent-protocol/btp-utracker/src/option.rs:127-155 | The same from any point of the walk |
| Tracker.OptionReadsBack | bittorrent-protocol/btp-utracker/src/option.rs:168-189 | The chunks of one option come together again |
| Tracker.NeverReserved | bittorrent-protocol/btp-utracker/src/option.rs:157-165 | No input yields an option with key 0 or 1 |
| Tracker.ReservedOptionExample | bittorrent-protocol/btp-utracker/src/option.rs:157-165 | Key 0 ends the options early; key 1 makes the content another option |
| Tracker.WriteOptions | bittorrent-protocol/btp-utracker/src/option.rs:59-79 | The loops write the reference bytes |
| Tracker.WriteOption | bittorrent-protocol/btp-utracker/src/option.rs:64-70 | One option, in chunks of at most 255 bytes |
| Tracker.ReadOptions | bittorrent-protocol/btp-utracker/src/option.rs:127-155 | The loop reads what the reference parser does, with the same errors |
| Tracker.StateReadsBack | bittorrent-protocol/btp-utracker/src/announce.rs:309-352 | Counters, negative ones too, and events read back |
| Tracker.IpReadsBack | bittorrent-protocol/btp-utracker/src/announce.rs:432-492 | Addresses read back, zeros as implied |
| Tracker.WantReadsBack | bittorrent-protocol/btp-utracker/src/announce.rs:512-532 | Numbers of peers read back, -1 as default |
| Tracker.NumbersReadBack | bittorrent-protocol/btp-utracker/src/request.rs:64-79 | Unsigned numbers read back |
| Tracker.SignedReadBack | bittorrent-protocol/btp-utracker/src/announce.rs:309-320 | Signed numbers read back |
| Tracker.CanonicalIsFixed | bittorrent-protocol/btp-utracker/src/announce.rs:472-532 | Taking canonical forms twice is taking them once, and changes neither well-formedness nor what can be sent |
| Bytes.FromBeOfBe | bittorrent-protocol/btp-util/src/convert.rs:4-27 | Big-endian bytes read back |
| Bytes.BeOfFromBe | bittorrent-protocol/btp-util/src/convert.rs:4-27 | And the other way round |

## Left out

- UDP and TCP sockets, addresses, threads, mutexes, channels and logging: the models say what one connection, store or counter does with what these deliver.
- uTP before the connection is set up: the states New and SynSent, retries of `connect`, `UtpListener` and `try_clone`.
- Send errors of the UDP socket on replies, resends after timeouts and FINs; errors while waiting for room are modelled.
- Overflow of counters that grow without bound: `curr_window` and `duplicate_ack_count` (32 bits), `congestion_timeout` (64 bits).
- Panics of debug builds on 16-bit overflow, as in `ack_nr + 1`: arithmetic wraps, as in release builds.
- Gap-free delivery over uTP: it does not hold, see the exact conditions above.
- Rounding of floating-point operations: arithmetic is over the reals.
- UtpSocket.UtpSocket.ResendLostPacket: says what goes out only if there is room or nothing is received meanwhile, because otherwise an arbitrary run of the connection happens inside the call.
- UtpSocket.UtpSocket.HandleSack: the same for the packets it resends; whether it reports loss is always stated.
- UtpSocket.UtpSocket.DetectLoss: the same.
- UtpSocket.UtpSocket.RespondToLoss: the same for the window that is halved.
- UtpSocket.UtpSocket.HandleStatePacket: the same for all of these.
- UtpSocket.UtpSocket.AwaitRoom: which packets arrive during the wait is not stated, for the same reason; that what they bring is thrown away is.
- UtpSocket.UtpSocket.HandlePacket: the new state and receiving side are stated unless an acknowledgement reports loss with two segments or more in flight, for the same reason.
- UtpSocket.UtpSocket.Dispatch: the same.
- UtpSocket.UtpSocket.Recv: the same, and after timeouts unless an acknowledgement finds something in flight.
- UtpSocket.UtpSocket.HandleDatagram: the same.
- UtpSocket.UtpSocket.HandleAndAdmit: the same.
- UtpSocket.UtpSocket.Close: what arrives while it waits is stated for a connection with nothing in flight, for the same reason.
- UtpSocket.UtpSocket.AwaitClose: the same.
- UtpSack.SackInOrder: bitmaps that end before number 65535; `SackEndToEnd` covers the others.
- UtpWindow.CumulativeAckIsSerialPrefix: at most 2^15 packets in flight, because serial order is not defined beyond; `AckedByDistance` covers 2^16.
- PieceStore.Download.constructor: the number of hashes fits the size of the content; a torrent for which it does not is not modelled.
- PieceStore.Download.SplitPieces: runs without interleaved stores; interleaving is covered by `SplitNext` and `Store`, which both keep the invariant.
- PeerConnection.PeerConnection.Process: requires piece numbers and bit fields within the torrent, where the code panics, and a report of a finished upload only while one is running, because the sending thread reports once for each block it was given.
- TokenStore.RefusedAfterThirtyMinutes: requires that the secret is not drawn again.
- Timer.Timer.ScheduleAt: fewer than 2^64 schedules so far, because ids start over after that.
- The handshake, message reading and writing threads of the peer connection, and the demo client's message codec.
- File system errors of the download, peer statistics and the list of connections.
- The DHT routing table, DHT messages, Bencode, metainfo, magnet links, tracker responses, the HTTP tracker client and the disk tasks themselves.
- IPv4 and IPv6 address types: an address is its bytes in network order.
- `src/dht`, `src/util` and `src/utp` of the main crate: copies of the crates modelled here.
