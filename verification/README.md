# iMule: transfer engine, attribution, identity, indexes and encodings

A verified model of the parts of iMule whose correctness is hardest to see from the code. iMule is a file sharing
client of the eDonkey family that runs over I2P. Each module follows one component of the program.

- **Sending and receiving** (`SendMachine`, `Arithmetic`, `Pacing`, `EMSocketSend`, `Framing`, `EMSocketReceive`). A `CEMSocket`
  sends control packets before standard ones, in fragments, under a byte budget, over a socket that takes fewer bytes than it
  is given; and it cuts a byte stream into packets under a download limit, with a handler that may call back into it.
  `EMSocketSender` is proved to perform runs of a small abstract machine, and the order, content and accounting of the
  wire are proved of every run of that machine. `EMSocketReceiver` keeps delivered and pending bytes equal to the bytes
  read, from which it follows that the packets depend on the stream alone.
- **Who sent the corrupt byte** (`BlackBoxSpec`, `CorruptionBlackBox`, `BlackBoxRuns`). Interval lists that are merged,
  split and trimmed agree, after any history, with a ledger that only looks at the calls; the calls decide lists and blame,
  and bytes are conserved per sender.
- **Secure identification and credits** (`ClientCredits`, `SecureIdent`, `SecureIdentClient`, `IdentSafety`,
  `IdentHandshake`, `Encoding`, `CreditsFile`, `CreditsList`). The identity state machine of a client's credits, the
  challenge and signature protocol that drives it, and the list of credits with the file it is kept in. Signatures are
  ideal: one verifies exactly when the key and the signed bytes are the expected ones, and only the owner of a key makes
  signatures with it.
- **Client indexes** (`Multimap`, `ClientIndex`). Three multimaps follow the attributes of the listed clients.
- **Sources** (`PartStatus`, `Sources`). Request files, source sets and the requests for other files agree on both
  sides, and the part frequencies of every file are the numbers of its clients that have each part.
- **Obfuscated datagrams** (`KeyStream`, `Datagram`, `DatagramSocket`, `ServerDatagram`). The packet formats, the marker bits, the
  three candidate keys, and the code that fills and decrypts buffers in place, over an abstract key stream and digest.
- **Smaller pieces** (`BitVector`, `BarShader`, `LinkText`, `ED2KLink`, `ED2KLinkParser`).

Objects are classes with the fields of the source; loops that change state are methods. A method is tied to a function
or predicate of the state, and what the program promises is proved of those. What the environment decides (how many
bytes a write takes, when a read would block, what a packet handler does, the order of a map) is left open, so that the
theorems hold for every behaviour; clocks and random numbers are parameters or arbitrary.

## What turned out not to hold

- The comment at src/EMSocket.cpp:454-458 says that a control-only `Send` never takes a new standard packet; the test for
  it at line 515 is commented out. It does exactly when a standard packet waits, none is in the buffer, and the control
  bytes outstanding are below the rounded budget and no whole number of fragments (`Send`); `FragmentIsFilledUp` and
  `SendSevenBytes` show such a call. The standard bytes it writes stay within one fragment.
- `CCorruptionBlackBox::TransferredData` does its work exactly when the end of the stretch lies less than 2^32 bytes past
  the start of its first part (`TransferredData`, `TruncationLosesData`, `TruncationHappens`). The program's only caller
  passes pieces of one requested block, which always meet the condition (`RequestedPiecesFit`).
- A received packet tells the number of bytes that were read if and only if its length field is at least 1 and below
  0x7ffffff0; for a length field of 0 nothing is read and it tells 2^32 - 1 (`DeclaredIsRead`, `DeliveredIsRead`,
  `SizeIsOverstated`, `ReceiveSixBytes`).
- The handshake does not always identify: each side ends up knowing the other exactly when it had identified it before
  or their signature versions and the address it sees agree (`HandshakeCompletes`). Two peers of this program always do
  (`ProgramIsIdentified`); a client that announces version 2 only and sees the program under another address does not
  (`HandshakeCanFail`).
- An encrypted datagram with an empty payload is not opened by its receiver; and after 128 unlucky draws, and only
  then, the marker of a Kad packet points to the wrong key first (`DecryptsWhatWasEncrypted`, `MarkerTells`,
  `FallbackHappens`).
- `BitVector::SetAllTrue` leaves a cached "no" in place (`SetAllTrue`). `AllTrue` of an empty vector is false, but true
  after `SetBuffer`.
- A range of a single byte is not drawn, and only then the coverage of some pixel stays below 1 (`PixelsAreCovered`).
- A file link survives printing and reading exactly when its name is clean (`LinkSurvives`); from a name with a bar the
  stand-alone parser may take a size and a hash that are not those of the link (`PrintedLinkIsAccepted`).
- The relation between clients and files is lost by `AddRequestForAnotherFile` for a client without a request file, or for
  the request file itself (`AddRequestForAnotherFile`); its callers do neither.

## Model

| member | source | states |
|---|---|---|
| `SendMachine.ControlInOrder` | src/EMSocket.cpp:340-374 | In every run, the control packets started are exactly the first ones accepted, in order, and the queue holds exactly the rest. |
| `SendMachine.StandardInOrder` | src/EMSocket.cpp:340-374 | The same for standard packets, where a truncation drops exactly those accepted but not started. |
| `SendMachine.ControlFirst` | src/EMSocket.cpp:508-533 | At the moment any standard packet starts, every control packet accepted so far has already started. |
| `SendMachine.WireIsWholePackets` | src/EMSocket.cpp:537-616 | In every run, with any short writes, the wire is the started packets back to back, the one in the buffer cut after exactly `sent` bytes. |
| `SendMachine.CountersAreWrites` | src/EMSocket.cpp:377-416 | Each of the three byte counters is the number of bytes written under its class since its last reset, modulo 2^64. |
| `SendMachine.PayloadIsFinished` | src/EMSocket.cpp:521-620 | In every run, the payload counter is the sum of the payloads of the standard packets finished since its last reset, modulo 2^32; the packet in the buffer is the last one started, of its class and with its payload. |
| `SendMachine.WireIsBooked` | src/EMSocket.cpp:589-607 | The bytes put on the wire are the control bytes plus the standard bytes booked: none unbooked, none booked twice. |
| `SendMachine.ExecConcat` | src/EMSocket.cpp:462-646 | Runs compose, so the history of many calls is one run from the initial state. |
| `EMSocketSend.EMSocketSender.SendPacket` | src/EMSocket.cpp:340-374 | The call is one accepting step of the machine, or nothing on a closed socket; a standard packet that finds no other restarts the pace. |
| `EMSocketSend.EMSocketSender.PickPacket` | src/EMSocket.cpp:507-543 | Takes the first control packet, or a standard one only if no control packet waits; the step taken is recorded. |
| `EMSocketSend.EMSocketSender.WriteSome` | src/EMSocket.cpp:557-608 | One write notes the time, asks for between 1 byte and the bytes left, stays under the budget, and in a control-only call stays inside the fragment it began in; exactly the bytes accepted are booked. |
| `EMSocketSend.EMSocketSender.WriteTurn` | src/EMSocket.cpp:548-609 | One turn of the inner loop adds one write of the packet's class to the history, or stops it. |
| `EMSocketSend.EMSocketSender.SendBuffer` | src/EMSocket.cpp:548-609 | The inner loop terminates and leaves the packet finished, the budget used, the call no longer allowed to write, or the socket unable to. |
| `EMSocketSend.EMSocketSender.FinishPacket` | src/EMSocket.cpp:611-628 | A packet leaves the buffer only when all of it is out; a standard one notes the time and ends the hurry. |
| `EMSocketSend.EMSocketSender.SendRound` | src/EMSocket.cpp:497-629 | One turn of the outer loop writes bytes of one class only and brings the call nearer its end. |
| `EMSocketSend.EMSocketSender.SendRounds` | src/EMSocket.cpp:497-629 | The outer loop terminates; standard and control bytes counted are those of the run; a call that is neither refused nor stopped writes exactly what was waiting allows, by class (the contract of Send), and a control-only loop starts a standard packet exactly as the control bytes outstanding before it decide. |
| `EMSocketSend.EMSocketSender.Send` | src/EMSocket.cpp:454-646 | One call writes at most its budget rounded up to whole fragments, a control-only call at most one fragment of standard bytes; the counts returned are the bytes written, and the call is a run of the machine from the state before. A call that is neither refused nor stopped by the socket writes exactly, by class, what the packets waiting and the budget allow. A control-only call with a standard packet in the buffer writes some of it if and only if the last write is over 1000 ms ago, a control packet waits, no standard packet waits and the budget is positive, and then the rest of the packet or a fragment. It starts a standard packet exactly when one waits, none is in the buffer, and the control bytes outstanding are below the budget and no whole number of fragments. It succeeds unless the connection is closed or a write failed, and leaves the socket busy exactly if it was or a write would have had to wait. A call that writes notes the time of its last write, every call that is not refused the time of the call, and a finished standard packet ends the hurry. |
| `Pacing.EndedIsExact` | src/EMSocket.cpp:497-533 | When the loop ends, because the budget is used up, nothing is left, or its tests say so, the standard and control bytes written are the ones named by what was waiting before. |
| `EMSocketSend.EMSocketSender.SendPicked` | src/EMSocket.cpp:503-533 | What the loop writes of the packet it meets in the buffer and of those that wait is what is outstanding before the call. |
| `Words.TicksAreElapsed` | src/EMSocket.cpp:497-503 | The difference of two clock readings is the time gone by, also across the wrap of the 32-bit clock. |
| `EMSocketSend.FragmentIsFilledUp` | src/EMSocket.cpp:497-533 | Seven control bytes, fragments of ten: the tests of the loop let the call go on, and the run goes on to start the standard packet. |
| `EMSocketSend.SendSevenBytes` | src/EMSocket.cpp:454-533 | The same on an object: a control-only call that the socket does not stop writes the seven bytes and then three of the standard packet, or all of a shorter one. |
| `EMSocketSend.EMSocketSender.TruncateQueues` | src/EMSocket.cpp:727-739 | Empties the standard queue and nothing else; the packet in the buffer and the wire stay. |
| `EMSocketSend.EMSocketSender.GetSentBytesSinceLastCallAndReset` | src/EMSocket.cpp:377-405 | Returns the bytes written under the class since the last reset, and resets, on a closed connection too. |
| `EMSocketSend.EMSocketSender.GetSentPayloadSinceLastCallAndReset` | src/EMSocket.cpp:408-416 | Returns the payloads of the standard packets finished since the last reset, modulo 2^32, and resets, on a closed connection too. |
| `EMSocketSend.EMSocketSender.OnSend` | src/EMSocket.cpp:419-439 | The socket may send again; a closed connection stays closed. |
| `EMSocketSend.EMSocketSender.OnClose` | src/EMSocket.cpp:165-180 | Queues and buffer are dropped, the wire and the history stay. |
| `Pacing.NextFragSizeRounds` | src/EMSocket.cpp:649-656 | Rounding up is exact unless the result leaves 32 bits, and then less than one fragment is left. |
| `Pacing.BudgetIsRounded` | src/EMSocket.cpp:486-490 | What a call may write under the rounded budget never exceeds the maximum rounded up to whole fragments. |
| `Pacing.WriteSizeFits` | src/EMSocket.cpp:557-569 | The assertion on the size of a write holds in every situation the loop can be in, and the write stays under the cap. |
| `Pacing.StaysInFragment` | src/EMSocket.cpp:548-568 | In a control-only call, further writes of a standard packet never cross the border of the fragment they began in. |
| `Pacing.NeededIsExact` | src/EMSocket.cpp:696-715 | The bytes asked for never exceed what is left; a packet behind schedule is back on it after sending them and would not be with two bytes fewer. |
| `EMSocketSend.EMSocketSender.GetNeededBytes` | src/EMSocket.cpp:664-715 | Answers for the packet being sent or the first one waiting, 0 without any, never more than its bytes left; the time allowed is 45 s from the start of the control packet or 90 s, 20 s sooner for acceleration, and a packet overdue asks for all it has left; the last `return 1` of the source is dead. |
| `EMSocketSend.EMSocketSender.BytesDue` | src/EMSocket.cpp:697-715 | The branches after the time check compute the pacing function; the quotient stays below the bytes left. |
| `Framing.DeliveryIsDetermined` | src/EMSocket.cpp:182-293 | Of two readers, one having seen a prefix of the other's stream, one list of delivered packets is a prefix of the other, however their reads were split. |
| `Framing.NothingHeldBack` | src/EMSocket.cpp:264-292 | A reader with no empty-bodied packet pending has delivered every packet that any reader of a prefix of its stream has. |
| `EMSocketReceive.SameStreamSamePackets` | src/EMSocket.cpp:182-293 | The same for two socket objects: splitting, limits and the calls made from PacketReceived do not change what is delivered. |
| `EMSocketReceive.WholePacketsAreDelivered` | src/EMSocket.cpp:182-293 | No whole packet with a body is held back by an object. |
| `EMSocketReceive.EMSocketReceiver.OnReceive` | src/EMSocket.cpp:182-293 | Terminates, and keeps the invariant: the headers of the delivered packets and what was read of their bodies, then the pending header, then the pending body are exactly the bytes read, and reads since a limit was set stay within it. Every byte read counts against the limit in force. An open socket whose limit is not used up asks for bytes, delivers a packet or finds the peer at fault; one whose limit is used up reads nothing and remembers that it must. What the packets tell of their size is DeliveredIsRead. |
| `Framing.DeclaredIsRead` | src/Packet.cpp:88-184 | A received packet tells the size that was read if and only if its length field is at least 1 and below 0x7ffffff0; otherwise it tells more. |
| `Framing.LengthOfHeader` | src/Packet.cpp:177-184 | The length of a header is the number whose four bytes, least significant first, follow the protocol byte, for every 32-bit number. |
| `Framing.FrameTells` | src/Packet.cpp:88-184 | Every packet has a known protocol byte; a proper length field is, byte for byte, the number of body bytes read plus one, least significant first; any other has no body. |
| `EMSocketReceive.DeliveredTell` | src/EMSocket.cpp:209-287 | The same of every packet an object has delivered, in any valid state. |
| `EMSocketReceive.LimitTells` | src/EMSocket.cpp:231-316 | The limit set last and not lifted is in force, and what was read since is what is missing from it. |
| `Framing.ToldIsRead` | src/Packet.cpp:88-184 | The sizes that the packets of a stream tell add up to its bytes if and only if every length field is proper, and then the bytes the packets hand on are those of the stream. |
| `EMSocketReceive.DeliveredIsRead` | src/EMSocket.cpp:264-287 | For a socket object in any valid state: the sizes that the delivered packets tell, with what is pending, add up to the bytes read if and only if every length field was proper, and then the handlers were given exactly the bytes read. |
| `Framing.SizeIsOverstated` | src/Packet.cpp:88-102 | The header 02 00 00 00 00 xx: no body is read, and the packet tells 2^32 - 1 bytes. |
| `EMSocketReceive.ReceiveSixBytes` | src/EMSocket.cpp:182-293 | The same on an object: of those six bytes it delivers no other packet. |
| `EMSocketReceive.EMSocketReceiver.PrepareRead` | src/EMSocket.cpp:209-229 | Asks for the rest of the header or of the body, as the four little-endian bytes behind the protocol byte say; it reports an error and starts over with an empty header exactly when these tell a body over the limit. |
| `EMSocketReceive.EMSocketReceiver.ReadUnderLimit` | src/EMSocket.cpp:231-258 | Reads no more than the limit leaves. |
| `EMSocketReceive.EMSocketReceiver.TakePacket` | src/EMSocket.cpp:266-284 | Makes the packet of the completed header and body, with the size that the header tells, or reports an error exactly when the protocol byte is none of 02, 03, 04, F4 and F5. |
| `EMSocketReceive.EMSocketReceiver.ReceiveOnce` | src/EMSocket.cpp:202-292 | Every turn that goes on consumes at least one byte of the network; a turn that completes no packet goes on exactly if bytes came and the header is whole. |
| `EMSocketReceive.EMSocketReceiver.PacketReceived` | src/EMSocket.cpp:286-287 | A packet counts as delivered when its handler is called; the handler may call back into the socket, even into OnReceive, and whatever it does keeps the invariant and only appends. |
| `EMSocketReceive.EMSocketReceiver.SetDownloadLimit` | src/EMSocket.cpp:296-305 | The limit is in force from then on and bounds what is read until it is changed; receiving is taken up again if it was stopped. |
| `EMSocketReceive.EMSocketReceiver.DisableDownloadLimit` | src/EMSocket.cpp:308-316 | The limit is lifted, and receiving is taken up again if it was stopped. |
| `CorruptionBlackBox.MergeAdds` | src/CorruptionBlackBox.cpp:54-66 | Merging counts every byte of the new stretch once more and no other byte. |
| `CorruptionBlackBox.JoinedTells` | src/CorruptionBlackBox.cpp:54-66 | A stretch is joined to the first record of its sender that ends right before it or begins right behind it; if none does, it becomes a record of its own at the end. |
| `CorruptionBlackBox.TrimTells` | src/CorruptionBlackBox.cpp:134-165 | What is left of a record is the piece before the range and the piece behind it, in this order, and the record itself if it misses the range. |
| `CorruptionBlackBox.CorruptionBlackBox.AddToList` | src/CorruptionBlackBox.cpp:102-111 | The list of the part counts each byte of the stretch once more for its sender, and no other byte; it is the old one with the stretch joined to the first record it touches. |
| `CorruptionBlackBox.CorruptionBlackBox.TransferredData` | src/CorruptionBlackBox.cpp:78-112 | Adds every byte of the stretch once, cut at part borders, and joins each cut to the list of its part, if its end lies less than 2^32 bytes past the start of its first part; otherwise the last part's list is left as it was. |
| `CorruptionBlackBox.TruncationLosesData` | src/CorruptionBlackBox.cpp:86-94 | Outside that condition the call never does its work: with the contract of TransferredData this makes the condition exact. |
| `CorruptionBlackBox.TruncationHappens` | src/CorruptionBlackBox.cpp:86-94 | A concrete stretch inside the largest file that breaks the condition. |
| `CorruptionBlackBox.RequestedPiecesFit` | src/DownloadClient.cpp:886-952 | A piece of one requested block, which is all the program records, always meets the condition. |
| `CorruptionBlackBox.TrimCovers` | src/CorruptionBlackBox.cpp:134-165 | What is kept of a record and what is taken out are exactly its bytes outside and inside the verified range. |
| `CorruptionBlackBox.CorruptionBlackBox.TakeOut` | src/CorruptionBlackBox.cpp:128-176 | The loop that edits the list while walking over it removes every attribution in the range, none outside, and books each sender's removed bytes: as good credit, or as blame the larger of the bytes and 184320 for each record met. |
| `CorruptionBlackBox.CorruptionBlackBox.VerifiedData` | src/CorruptionBlackBox.cpp:116-187 | Removes every attribution inside the range and none outside, leaving the rest of each record in its place; good credit grows by exactly the removed bytes, and blame by exactly the sum, over the sender's records that meet the range, of the larger of the overlap and 184320. |
| `BlackBoxSpec.BlameOfOneMore` | src/CorruptionBlackBox.cpp:170-175 | One more record changes the blame by nothing if it misses the range, by a block if it meets it in fewer bytes than a block, and by the overlap otherwise. |
| `CorruptionBlackBox.ShortPieceIsABlock` | src/CorruptionBlackBox.cpp:170-175 | A thousand corrupt bytes are blamed as a block of 184320, which puts a sender with 100000 good bytes over the share that is banned. |
| `CorruptionBlackBox.CorruptionBlackBox.EvaluateData` | src/CorruptionBlackBox.cpp:191-241 | Bans exactly the blamed senders whose corrupt share is at least 33 per cent. |
| `CorruptionBlackBox.CorruptionBlackBox.Free` | src/CorruptionBlackBox.cpp:69-75 | Lists and accounts are those of a black box that has seen no call. |
| `BlackBoxRuns.ListsAreExact` | src/CorruptionBlackBox.cpp:78-187 | After any sequence of calls, the lists count each (part, offset, sender) exactly as a ledger that looks at the calls only. |
| `BlackBoxRuns.AccountsAreExact` | src/CorruptionBlackBox.cpp:128-176 | After any sequence of calls, good credit is the sum of the bytes found good, and blame the sum, over the corrupt ranges and the records that met them then, of the larger of the overlap and 184320; so it is at least the bytes found corrupt and at most a block for each. |
| `BlackBoxRuns.RunsAreDetermined` | src/CorruptionBlackBox.cpp:54-187 | The calls alone decide the lists, record by record, and the accounts: any two ways of doing what the methods promise agree on them. |
| `BlackBoxRuns.BytesAreConserved` | src/CorruptionBlackBox.cpp:78-187 | After any sequence of calls, the bytes the lists still hold for a sender, its good credit and the bytes found corrupt add up to the bytes transferred; its blame is at least the bytes found corrupt. |
| `ClientCredits.AlwaysConsistent` | src/ClientCredits.cpp:171-217 | After any sequence of events the stored key is empty or the key in use, and never longer than the record has room for. |
| `ClientCredits.StoredKeyIsForever` | src/ClientCredits.cpp:189-217 | From any state with a stored key: the key never changes, stays the key in use, and the identity belongs to the address verified last, before or since. |
| `ClientCredits.OnlyVerifiedBytesCount` | src/ClientCredits.cpp:72-107 | From any state with a stored key the totals grow by exactly the bytes from the address that is the one verified last at that time. |
| `ClientCredits.VerificationSettles` | src/ClientCredits.cpp:72-217 | In every run from a fresh start and from any verification in it on: the stored key is the key that was in use then, it never changes, and the totals grow by exactly the bytes of the address verified last at their time. |
| `ClientCredits.IdentifiedIsLastVerified` | src/ClientCredits.cpp:220-232 | In every run from a fresh start, the current state of an address is identified if and only if it was verified last, and bad guy if and only if another one was. |
| `ClientCredits.FirstVerification` | src/ClientCredits.cpp:189-205 | The first verification stores the key; a client with download credit starts again from 1 on both totals. |
| `ClientCredits.UnknownClientsEarn` | src/ClientCredits.cpp:72-107 | In every run from a fresh start in which no key comes, all bytes count, from every address. |
| `ClientCredits.WaitingClientsEarnNothing` | src/ClientCredits.cpp:72-107 | From a key that is not yet verified, or has failed, until the first verification, the totals do not change. |
| `ClientCredits.FirstKeyStopsCounting` | src/ClientCredits.cpp:72-217 | In every run from a fresh start, bytes count until the first key that fits is taken, and then none until a verification. |
| `ClientCredits.ClientCredits.AddDownloaded` | src/ClientCredits.cpp:72-88 | Adds the bytes, modulo 2^64, if there is no crypto library, or no key has been heard of, or the address is the one verified last; otherwise nothing. |
| `ClientCredits.ClientCredits.AddUploaded` | src/ClientCredits.cpp:91-107 | The same for uploads. |
| `ClientCredits.ClientCredits.Verified` | src/ClientCredits.cpp:189-205 | The object does the verification event: the address is identified, the key in use is stored if none was, and a client with download credit then starts again from 1. |
| `ClientCredits.ClientCredits.SetSecureIdent` | src/ClientCredits.cpp:208-217 | A key is taken exactly when none is stored and it has at most 80 bytes. |
| `IdentSafety.AlwaysSafe` | src/BaseClient.cpp:1948-2185 | With any number of peers, sessions and messages in any order, no reachable world has a record that is identified without cause. |
| `IdentSafety.IdentifiedMeansSigned` | src/BaseClient.cpp:2060-2110 | Whenever a record counts as identified, somebody with its stored key has signed exactly this peer's key, a nonzero challenge this peer issued for that record and, in version 2, the address that goes with the kind of the signature: for kind 20 the very address that is identified. |
| `IdentSafety.IdentifiedMeansAnswered` | src/BaseClient.cpp:1970-2110 | If that key is a peer's, then a peer with this key had this peer's own key and that challenge in one of its records when it signed, and it signed in version 1 or the address identified is the one it goes under; keys may have any lengths that do not differ by 5. |
| `IdentSafety.PeersSignWhatTheyHold` | src/BaseClient.cpp:1970-2020 | A peer signs only with its own key, over the key and challenge that one of its records holds at that time, with its own address in version 2 and none in version 1. |
| `IdentSafety.StepKeepsSafe` | src/BaseClient.cpp:1948-2185 | The step of that induction: no packet, from anyone, makes a safe record unsafe. |
| `IdentSafety.OwnersSign` | src/BaseClient.cpp:1970-2020 | Every signature that bears a peer's key was made by that peer. |
| `IdentHandshake.HandshakeCompletes` | src/ClientTCPSocket.cpp:1321-1373 | For every start choice of either side (no key, key received, stored or identified before) and every interleaving, once both channels are empty both sides have signed, and each has identified the other if and only if it had before or their signature versions and addresses agree. |
| `IdentHandshake.ProgramIsIdentified` | src/BaseClient.cpp:1977-2110 | A peer that announces both versions, as this program does, always ends up knowing the other; the other knows it unless it announces version 2 only and sees it under another address. Two peers of this program always end up knowing each other. |
| `IdentHandshake.HandshakeCanFail` | src/BaseClient.cpp:1977-2110 | This program facing a client that announces version 2 only and sees it under another address: whatever the order, it ends up knowing the other and not the reverse. |
| `IdentHandshake.HandshakeEnds` | src/ClientTCPSocket.cpp:1321-1373 | Every interleaving is over after at most six deliveries. |
| `IdentHandshake.KeyStep` | src/BaseClient.cpp:2024-2057 | A signature put off for lack of the other's key is sent when the key arrives. |
| `IdentHandshake.LastStep` | src/BaseClient.cpp:2060-2110 | What the last packet does to a side: identified exactly when versions and addresses agree or it was before. |
| `SecureIdentClient.IdentClient.SendPublicKeyPacket` | src/BaseClient.cpp:1948-1967 | The object does the protocol step. |
| `SecureIdentClient.IdentClient.SendSignaturePacket` | src/BaseClient.cpp:1970-2020 | Signs the other's key with its challenge exactly when both are known, in the version the other understands. |
| `SecureIdentClient.IdentClient.SendSecIdentStatePacket` | src/BaseClient.cpp:2116-2145 | Issues a challenge for the record, asking for the key only when none is known. |
| `SecureIdentClient.IdentClient.ProcessSecIdentStatePacket` | src/BaseClient.cpp:2148-2185 | Notes what is wanted and the challenge; unknown values change nothing. |
| `SecureIdentClient.IdentClient.OnSecIdentStatePacket` | src/ClientTCPSocket.cpp:1321-1373 | Answers with key and signature, signature, or nothing. |
| `SecureIdentClient.IdentClient.ProcessPublicKeyPacket` | src/BaseClient.cpp:2024-2057 | Takes the key if it may, and sends a signature that waited for it. |
| `SecureIdentClient.IdentClient.ProcessSignaturePacket` | src/BaseClient.cpp:2060-2110 | At most one signature per address is checked, and only against a known key and an issued challenge. |
| `SecureIdentClient.IdentClient.VerifyIdent` | src/ClientCreditsList.cpp:381-446 | Verified exactly when there is a crypto library and the signature is that of the record's key over this peer's key, the challenge and, in version 2, the right address; without a library the identity is not available. |
| `SecureIdent.ChallengeTells` | src/BaseClient.cpp:2116-2145 | A challenge goes out with request 2 while the key is unknown, with request 1 while this address has not been checked, and else not at all. |
| `SecureIdent.RequestTells` | src/ClientTCPSocket.cpp:1321-1345 | What goes out on each request: nothing, the signature, or the key and then the signature. |
| `SecureIdent.OtherRequestTells` | src/BaseClient.cpp:2148-2172 | A request of another value is answered as the last one, with the last challenge. |
| `SecureIdent.KeyTells` | src/BaseClient.cpp:2024-2057 | A key of at most 80 bytes is taken if none is stored, and a signature that waited for it goes out. |
| `SecureIdent.AnswerTells` | src/BaseClient.cpp:1970-2020 | The signed bytes: the other's key and its challenge, least significant byte first, and in version 2 the own address and 20. |
| `SecureIdent.SignatureTells` | src/BaseClient.cpp:2060-2110 | When a signature is looked at, and which signed bytes it must be over for each kind of address: none, 20 or 10. |
| `SecureIdent.OneCheckPerAddress` | src/BaseClient.cpp:2060-2145 | After one check at an address, further signatures from it change nothing, and no new challenge goes out. |
| `CreditsFile.DecodeEncode` | src/ClientCreditsList.cpp:128-134 | A record read back is the record written, field for field. |
| `CreditsFile.Layout` | src/ClientCreditsList.cpp:121-138 | The bytes of the file: version 12 hexadecimal, the count, and records of 119 bytes with each field in its place, numbers with the least significant byte first. |
| `CreditsFile.LoadOfFile` | src/ClientCreditsList.cpp:121-156 | Loading a written file completes and keeps exactly the records that have not expired. |
| `CreditsFile.LoadTells` | src/ClientCreditsList.cpp:82-156 | What a load makes of any bytes: another version is left alone; a whole record with a key over 80 bytes empties the list; else the list holds, under each hash, the last whole record of the last 150 days, whether or not the file breaks off. |
| `CreditsFile.SelectedHaveTraffic` | src/ClientCreditsList.cpp:189-207 | A client is among those written if and only if it has uploaded or downloaded something. |
| `CreditsFile.LoadFits` | src/ClientCreditsList.cpp:121-156 | Whatever bytes a file holds, the records loaded are filed under their hashes and no key exceeds the size at which a load gives up. |
| `CreditsList.AlwaysOk` | src/ClientCreditsList.cpp:68-245 | Over every run of GetCredit, SetSecureIdent, Verified, traffic and starts with arbitrary files, each record agrees with its client's identity state and holds the stored key, which fits. |
| `CreditsList.StartTells` | src/ClientCredits.cpp:39-68 | After a start each client has the totals and the key of its record and waits to be identified. |
| `CreditsList.EventTells` | src/ClientCredits.cpp:72-217 | An event changes the credits and the record of its client and no other. |
| `CreditsList.LoadOfSaved` | src/ClientCreditsList.cpp:170-218 | In every such run, saving the list and loading the file is never refused as corrupt and gives back exactly the clients with traffic that have not expired. |
| `CreditsList.StoredKeySurvives` | src/ClientCreditsList.cpp:121-218 | A stored key outlives the file: after a start with what was saved the client has the key it had. |
| `CreditsList.ClientCreditsList.SaveList` | src/ClientCreditsList.cpp:170-218 | Writes each client with upload or download traffic once and no other, and patches in the number of records written. |
| `CreditsList.ClientCreditsList.LoadList` | src/ClientCreditsList.cpp:68-167 | Reads a file record by record: outdated, cut short or corrupt files end as the format function says. |
| `CreditsList.ClientCreditsList.GetCredit` | src/ClientCreditsList.cpp:221-238 | Finds or makes the one entry of a client and stamps it with the time; no other entry changes. |
| `ClientIndex.ReadAddressTells` | src/libs/i2p/CI2PAddress.h:200-225 | Two destinations that pass the check are the same to the index if and only if their first four bytes agree, and such a destination is valid exactly when these are not all 0. |
| `ClientIndex.Client.TakePeer` | src/BaseClient.cpp:637-643 | At the end of a hello packet the client is filed under its peer's destination, and the index stays right; with a destination that the check refuses nothing changes. |
| `ClientIndex.ClientList.AddClient` | src/ClientList.cpp:104-127 | Only a new client is listed; afterwards each listed client stands once under its ID, and once under its destination and hash if they are valid, and nothing else stands in the three indexes. |
| `ClientIndex.ClientList.UpdateClientID` | src/ClientList.cpp:144-155 | The ID index is that of the client under its new ID. |
| `ClientIndex.ClientList.UpdateClientIP` | src/ClientList.cpp:158-170 | The destination index is that of the client under its new destination, or without it if that is 0. |
| `ClientIndex.ClientList.UpdateClientHash` | src/ClientList.cpp:173-187 | The hash index is that of the client under its new hash, or without it if that is empty. |
| `ClientIndex.ClientList.RemoveIDFromList` | src/ClientList.cpp:190-209 | Removes the client's entry and says whether there was one. |
| `ClientIndex.ClientList.RemoveClient` | src/ClientList.cpp:131-141 | Removes the client from all three indexes and nobody else. |
| `ClientIndex.Client.SetUserIDHybrid` | src/BaseClient.cpp:2315-2320 | Index and attribute change together: the three indexes stay exact. |
| `ClientIndex.Client.SetTCPDest` | src/BaseClient.cpp:2323-2331 | The same for the destination. |
| `ClientIndex.Client.SetUserHash` | src/BaseClient.cpp:2334-2341 | The same for the hash and its validity flag. |
| `ClientIndex.Client.SafeDelete` | src/BaseClient.cpp:370-399 | A client dies once and leaves all indexes; the others stay. |
| `ClientIndex.ClientList.DeleteAll` | src/ClientList.cpp:321-333 | Terminates with all three indexes empty and every listed client dying. |
| `ClientIndex.ClientList.FindClientByIP` | src/ClientList.cpp:396-402 | Agrees with a scan of all clients; no client is ever found at destination 0. |
| `ClientIndex.ClientList.FindClientByIPAndPort` | src/ClientList.cpp:379-393 | The same with the port. |
| `ClientIndex.ClientList.FindMatchingClient` | src/ClientList.cpp:253-312 | Returns the listed client that matches best (destination and port, destination and Kad destination, then by ID, then by hash), and none only if nobody matches. |
| `ClientIndex.Client.RankTells` | src/ClientList.cpp:253-312 | The order of the criteria spelled out: destination with port, with Kad destination, the ID with a port, with a Kad destination, and last the hash. |
| `ClientIndex.ClientList.AttachToAlreadyKnown` | src/ClientList.cpp:336-376 | Attaches if and only if a client matches and it is the same one or no other connected client is in its place; the best match takes the connection over and the new client dies; only an identified client in its place gets the new one banned; in its place means connected, under another address or port. |
| `Sources.CountFollows` | src/PartFile.cpp:3336-3367 | Taking a client's parts away turns counters right for all into counters right for all others, adding them turns them back. |
| `Sources.PartFile.UpdatePartsFrequency` | src/PartFile.cpp:3336-3367 | The same for the loop over the counters, including their first set-up and a status of another size. |
| `Sources.PartFile.UpdatePartsInfo` | src/PartFile.cpp:1544-1572 | Sets the counters up without disturbing them; the available parts are those that some client has (16-bit counters). |
| `PartStatus.CountAvailable` | src/PartFile.cpp:1561-1572 | The loop counts the parts whose counter is not 0. |
| `PartStatus.ReadStatus` | src/DownloadClient.cpp:433-455 | Reads exactly ceil(n/8) bytes and sets part j from bit j mod 8 of byte j div 8; a packet that ends too early leaves the rest false. |
| `PartStatus.BytesForTells` | src/DownloadClient.cpp:433-455 | The bytes read for n parts hold them all with fewer than eight bits to spare. |
| `PartStatus.UpdateCounters` | src/PartFile.cpp:3336-3367 | Moves the counter of every part that is set by one, modulo 2^16, and no other. |
| `PartStatus.UpdatedIsCount` | src/PartFile.cpp:3336-3367 | A counter right for n holders is right for n plus or minus one afterwards. |
| `Sources.Client.ProcessFileStatus` | src/DownloadClient.cpp:390-498 | Keeps every frequency and the source relation right on all paths: wrong file, no count, wrong part count, cut packet, complete packet; the part status is the decoded one, and the new state tells whether any part is needed. After a complete packet the count of available parts is the number of parts some client has (16-bit counters). |
| `Sources.Client.ProcessFileInfo` | src/DownloadClient.cpp:341-388 | The answer to a file name gives a one-part file's source its part, keeps the frequencies and the source relation right and counts the available parts. |
| `Sources.Client.SetDownloadState` | src/DownloadClient.cpp:526-573 | Stopping a download forgets the parts and takes them out of the frequencies; the source relation stays. |
| `Sources.Client.ResetFileStatusInfo` | src/BaseClient.cpp:1892-1913 | Forgets the parts and takes them out of the frequencies; the source relation stays. |
| `Sources.Client.SetRequestFile` | src/DownloadClient.cpp:1521-1542 | Another file: the parts are forgotten and taken out of the old file's frequencies; the same file: nothing. |
| `Sources.Client.AddRequestForAnotherFile` | src/DownloadClient.cpp:501-511 | Enters the file on both sides unless it is there; the relation between clients and files stays right if and only if nothing was entered or the client has a request file, another one, as all callers see to. |
| `Sources.Client.IsValidSwapTarget` | src/DownloadClient.cpp:1486-1518 | The conditions on a target, among them the 900 s that a suspension lasts; the timestamp is cleared exactly when a suspension has elapsed. |
| `Sources.Client.BestIsPreferred` | src/DownloadClient.cpp:1402-1427 | No acceptable file has needed parts unless the best one has; and none alike in needed parts has a higher priority, unless the best one has needed parts and priority 2, where the search stops. |
| `Sources.Client.BestSwapTarget` | src/DownloadClient.cpp:1402-1427 | An acceptable file with needed parts if there is one, and of the highest priority among those alike, except that the search stops at a high-priority file with needed parts; none only if no file is acceptable. |
| `Sources.Client.SwapToAnotherFile` | src/DownloadClient.cpp:1374-1483 | Swaps if and only if there is an acceptable target, to the wanted one or else to one with needed parts if any has them, of the highest priority among those alike except where the search stops early; exactly that file moves from the requests to the request file, and the old one takes its place among the requests or, on request, goes; source sets, requests and frequencies stay in agreement. |
| `Sources.DownloadQueue.RemoveSource` | src/DownloadQueue.cpp:771-806 | Takes the client out of every file's sets, forgets its requests, parts and state, and keeps all relations. |
| `Sources.DownloadQueue.CheckAndAddSource` | src/DownloadQueue.cpp:610-712 | Unless refused, the file goes to a client with the same hash that already has a request file, else to the known client, else to the new one, as its request file if it has none and as one more request otherwise; the new client is then nowhere unless it is the one; all others stay as they were. |
| `Sources.DownloadQueue.CheckAndAddKnownSource` | src/DownloadQueue.cpp:715-768 | A known client gets the file as its request file if it has none, and as one more request otherwise. |
| `Sources.DownloadQueue.RemoveAllSources` | src/PartFile.cpp:2033-2062 | Terminates, and afterwards no client requests the file or is asked for it; each former source was swapped to a file it was asked for, or dropped where that is not wanted or not possible; the others only forget the file. |
| `Datagram.MarkerTells` | src/EncryptedDatagramSocket.cpp:314-350 | The marker is never a protocol byte; unless all draws fail, it makes the right key the first one tried; when all draws fail is characterised, and for every list of draws the receiver starts with the right key if and only if the packet is for ed2k or some draw succeeds. |
| `Datagram.PlainTells` | src/EncryptedDatagramSocket.cpp:138-150 | The six first bytes that mark a plain datagram. |
| `Datagram.MarkedKeeps` | src/EncryptedDatagramSocket.cpp:314-345 | Only the two low bits of a draw are set, and to what the kind of key says. |
| `Datagram.MarkerIsFirst` | src/EncryptedDatagramSocket.cpp:314-350 | The marker is the first draw that becomes no protocol byte, or 01 if none of the draws does. |
| `Datagram.FormatOfEd2k` | src/EncryptedDatagramSocket.cpp:268-376 | The bytes of a datagram to an ed2k client: marker, key part, and magic value, no padding and payload under the key of user hash, own address, 5B and key part. |
| `Datagram.FormatOfKad` | src/EncryptedDatagramSocket.cpp:268-376 | The bytes of a datagram to a Kad node, under the key of its node ID if that is known and not all zero, else of its receiver key; and the payload itself if neither is known. |
| `Datagram.FallbackHappens` | src/EncryptedDatagramSocket.cpp:346-350 | Every kind of key can run out of draws, and then only an ed2k receiver starts with the right key. |
| `Datagram.FindIsFirst` | src/EncryptedDatagramSocket.cpp:166-213 | The key used is the first in the order of trying that shows the magic value. |
| `Datagram.TryingOrder` | src/EncryptedDatagramSocket.cpp:149-213 | The order in which a receiver tries the three kinds of key, for each of the four values of the marker bits, and without Kad. |
| `Datagram.ThreeTriesVisitAll` | src/EncryptedDatagramSocket.cpp:166-213 | Three tries fail only if none of the three keys shows the magic value. |
| `Datagram.PassesThrough` | src/EncryptedDatagramSocket.cpp:138-153 | A plain or short packet, and one that no key opens, is passed through. |
| `Datagram.OpenedIsNotEmpty` | src/EncryptedDatagramSocket.cpp:219-250 | Nothing is opened to an empty payload. |
| `Datagram.DecryptsWhatWasEncrypted` | src/EncryptedDatagramSocket.cpp:125-262 | At the intended receiver, outside the fallback (and for ed2k always), decrypting returns the payload and both verify keys if and only if the payload is not empty. |
| `Datagram.DecryptsWhenFound` | src/EncryptedDatagramSocket.cpp:166-255 | Every datagram of the format, with any padding and any first byte that is no protocol byte, opens to its payload and verify keys if no key tried earlier happens to show the magic value. |
| `Datagram.UnencryptedWhenNoKey` | src/EncryptedDatagramSocket.cpp:283-302 | Data goes out unencrypted exactly when Kad has neither a node ID nor a receiver key. |
| `DatagramSocket.EncryptSendClient` | src/EncryptedDatagramSocket.cpp:268-376 | The buffer filled in place is the packet of the format; without a key the given buffer is returned. |
| `DatagramSocket.DecryptReceivedClient` | src/EncryptedDatagramSocket.cpp:125-262 | The in-place decryption agrees with the format function; a packet passed through is untouched. |
| `DatagramSocket.ChooseMarker` | src/EncryptedDatagramSocket.cpp:314-350 | The loop finds the first usable marker. |
| `DatagramSocket.FindKey` | src/EncryptedDatagramSocket.cpp:166-213 | The retry loop finds the first key that opens and leaves the cipher behind the magic value. |
| `DatagramSocket.OpenPacket` | src/EncryptedDatagramSocket.cpp:219-255 | Padding, verify keys and payload are taken off in place, or nothing is. |
| `KeyStream.CryptBuffer.RC4Crypt` | src/RC4Encrypt.cpp:62-91 | XORs exactly n bytes with the key stream, possibly in place, and moves on by n. |
| `KeyStream.CryptOfSlice` | src/RC4Encrypt.cpp:62-91 | Any piece of a cipher text decrypts by itself at its own position. |
| `ServerDatagram.DecryptsWhatTheServerSent` | src/EncryptedDatagramSocket.cpp:378-431 | A datagram of the server's direction, with any padding, opens to its payload if and only if the payload is not empty and the first byte is no protocol byte. |
| `ServerDatagram.FormatOfServer` | src/EncryptedDatagramSocket.cpp:378-486 | The bytes of both directions of a server datagram: 6B from the client and A5 from the server in the key, and the magic value of servers. |
| `ServerDatagram.ServerMarkerIsFirst` | src/EncryptedDatagramSocket.cpp:449-463 | The marker is the first draw other than 02, or 01 if there is none. |
| `ServerDatagram.ServerMarkerIsNoProtocol` | src/EncryptedDatagramSocket.cpp:449-463 | A client's datagram to a server never starts with the protocol byte. |
| `ServerDatagram.EncryptSendServer` | src/EncryptedDatagramSocket.cpp:433-486 | The buffer filled in place is the packet of the format, in the client's direction. |
| `ServerDatagram.DecryptReceivedServer` | src/EncryptedDatagramSocket.cpp:378-431 | The in-place decryption agrees with the format function; a packet passed through is untouched. |
| `BitVector.BitsAfterWrite` | src/BitVector.h:61-78 | Writing through a mask changes exactly one bit of the list. |
| `BitVector.AllFullIsAllSet` | src/BitVector.h:111-124 | Checking full bytes and the bits of a partial last byte is checking all the bits. |
| `BitVector.BufferIsPartStatus` | src/BitVector.h:137-142 | The buffer and the part status packet have the same layout. |
| `BitVector.BitVector.Get` | src/BitVector.h:51-58 | The bit of the list; false outside. |
| `BitVector.BitVector.Set` | src/BitVector.h:61-78 | Changes one bit of the list, nothing outside; the cached answer stays right. |
| `BitVector.BitVector.SetSize` | src/BitVector.h:91-106 | A list of the new length with every bit the given value; the cached answer is right. |
| `BitVector.BitVector.SetBuffer` | src/BitVector.h:142 | The list the bytes stand for. |
| `BitVector.BitVector.AllTrue` | src/BitVector.h:109-131 | For a vector that is not empty, the conjunction of all bits, cached or not. |
| `BitVector.BitVector.SetAllTrue` | src/BitVector.h:134 | Sets every bit, but the cached answer is right afterwards if and only if it was not a "no" (or the vector is empty). |
| `BarShader.CoverageIsWeight` | src/BarShader.cpp:138-150 | Both pixel indexes lie on the bar, and the coverage worked out for them is the part of the pixel the range covers. |
| `BarShader.WeightIsFraction` | src/BarShader.cpp:138-150 | Every weight lies between 0 and 1. |
| `BarShader.BarShader.FillRange` | src/BarShader.cpp:122-160 | Each pixel is blended, in rounded bytes that stop at 255, with the part of it that the range covers; no write leaves the bar. |
| `BarShader.PixelsAreCovered` | src/BarShader.cpp:122-160 | For a file split into consecutive ranges, the weights of every pixel sum to exactly 1 if and only if no range is a single byte. |
| `BarShader.MeanIsByte` | src/BarShader.cpp:122-160 | The coverage-weighted mean of the colours never exceeds a byte. |
| `BarShader.PaintedIsMean` | src/BarShader.cpp:122-160 | Filling a black bar range by range leaves in each pixel the mean of the colours weighted by coverage, up to half a step for every range that touches the pixel, in spite of rounding, clipping and overwritten inner pixels. |
| `ED2KLink.LinkSurvives` | src/ED2KLink.cpp:148-179 | Reading what GetLink prints returns the same name, size and hash if and only if the name is stripped and contains no vertical bar, slash or escape code. |
| `ED2KLink.ParseOfFields` | src/ED2KLink.cpp:148-181 | A link with name, size and hash is taken, with nothing behind them, for sizes from 1 to 256 GB; with two fields it is refused. |
| `ED2KLink.NameSurvives` | src/ED2KLink.cpp:164-166 | Which name tokens are read as themselves. |
| `ED2KLink.CutName` | src/ED2KLink.cpp:153-164 | A name with a vertical bar is cut there, so that what is read is shorter. |
| `LinkText.DecodeOfEncode` | src/MD4Hash.h:160-217 | A printed hash decodes to itself. |
| `LinkText.NumberIsUnsigned` | src/ED2KLink.cpp:171-176 | A printed size reads back as itself. |
| `LinkText.SignedTells` | src/ED2KLink.cpp:171-176 | A plus before a number is skipped, and a minus takes it away from 2^64. |
| `LinkText.NumberTells` | src/ED2KLink.cpp:171-176 | What does not fit 64 bits or is no number reads as 0. |
| `LinkText.EncodeTells` | src/MD4Hash.h:160-217 | Each byte of a hash is printed as two capital digits, the high one first. |
| `LinkText.CodeIsRead` | src/ED2KLinkParser.cpp:161-184 | An escape code in either case is read as its character, and %00 stays. |
| `LinkText.OtherStays` | src/ED2KLinkParser.cpp:161-184 | A character that begins no code stays. |
| `LinkText.UnescapeKeeps` | src/ED2KLinkParser.cpp:161-184 | Text stays as it is exactly when no position holds an escape code, and gets shorter otherwise. |
| `LinkText.CodeTells` | src/ED2KLinkParser.cpp:134-152 | Two hexadecimal digits, upper or lower case, code their byte. |
| `LinkText.NoCode` | src/ED2KLinkParser.cpp:134-152 | Any other two characters code 0. |
| `ED2KLinkParser.CheckFileLink` | src/ED2KLinkParser.cpp:303-345 | Accepts exactly the links with a name, a number and a hash, and cuts the same fields as the tokenizer, also where a search fails and its offset wraps around. |
| `LinkText.SplitBoth` | src/ED2KLink.cpp:148-164 | Text with a bar in it is cut into the fields of its two parts, whatever bars these hold. |
| `ED2KLinkParser.PrintedLinkIsAccepted` | src/ED2KLinkParser.cpp:303-345 | For every printed link: with a name without a bar it is accepted, with its three fields, exactly when the name is not empty; with a bar the name itself must go on with a number and a hash, and these are then taken instead of the size and hash of the link. |
| `ED2KLinkParser.Unescape` | src/ED2KLinkParser.cpp:161-184 | The character loop computes the unescaped text. |
| `ED2KLinkParser.HexToDec` | src/ED2KLinkParser.cpp:134-152 | The loop computes the code of two digits, 0 if they are not. |
| `ED2KLinkParser.IsNumber` | src/ED2KLinkParser.cpp:215-224 | True exactly for nonempty strings of digits. |
| `ED2KLinkParser.IsMD4Hash` | src/ED2KLinkParser.cpp:230-241 | True exactly for 32 hexadecimal digits. |

## Left out

- The socket, I2P, the user interface, logging, statistics, notifications and the disk: reads, writes and files are byte sequences.
- `CryptPrepareSendData` (src/EMSocket.cpp:542), which runs once per packet in the order of starting, is the identity.
- The two halves of `CEMSocket` are two classes: they share only the connection state.
- Re-queueing with the upload bandwidth throttler, the flag it looks at, and the timeout accessors of `CEMSocket`.
- A read that reports an error together with bytes, which the source loses.
- `OnError` is virtual and empty in `CEMSocket`: an error is noted as `failed`; that `CClientTCPSocket` then disconnects is not modelled.
- A write that takes 0 bytes without an error: the loops of `Send` end only because such writes do not occur.
- `SendBuffer` writes through a socket that is arbitrary within its interface; which errors count as would-block is not modelled.
- TransferredData: works exactly only below 2^32 bytes from the first part, as stated in its contract; a stretch whose
  start lies behind its end inside a part makes the source keep an uninitialised record, which is modelled as an arbitrary one.
- Good and bad byte totals per sender are unbounded numbers, not 64-bit ones.
- `GetScoreRatio`, a floating-point formula, and the wait-time functions of `CClientCredits`.
- RSA itself, key generation and key files.
- HandshakeCompletes: starts from two fresh connections whose sec-ident-state packets are under way; checks for a missing
  socket or credit record and the bans around the packets are not modelled.
- LoadList: the backup copy of the file and errors of the disk are not modelled; a file may end anywhere.
- SaveList: the order of the records is any order, because the map's order does not matter.
- `CClientList`: banned, tracked, dead and Kad lists, `Process`, the Kad connection requests, and deletion asked for by
  another thread. `Disconnected`, which `DeleteAll` calls before each deletion, does not touch the indexes.
- TakePeer: the socket checks its peer's destination when it is made; here the check stands where the destination is used.
- AttachToAlreadyKnown: sockets are identities; deleting the known client's old socket is its replacement.
- Destinations compare by their 32-bit hash code, as in the index; alias destinations are not modelled.
- CheckAndAddSource: the tests for a dead source, the own hash and the encryption settings are one parameter, and what the
  client list finds is a parameter; `ClientIndex` proves what that is. A comment or rating on a client without a request
  file, which `RemoveSource` would follow through a null pointer, is not modelled.
- The lists of downloading sources, source counts per state, file ratings, and the 16-bit width of part counts.
- UpdatePartsInfo: the estimate of complete sources and the time the file was last seen complete.
- ProcessFileStatus: the follow-up packet it sends is only the state it leads to.
- The server's side of the server datagrams: the two directions use different keys, and only the client's side is in the program.
- RC4 and MD5 are an arbitrary key stream and an arbitrary function; `RC4Crypt` with length 0 does nothing, as in a release build.
- FillRange: coverage is worked out in exact numbers instead of doubles; one colour channel; no 64-bit overflow of start
  times width.
- `CBarShader::Draw` and the modifiers of the rounded bar.
- LinkSurvives: names of characters below 128; UTF-8 and its fallback are not modelled.
- Extra fields of file links (sources, part hashes, AICH hash), server and server-list links, Magnet links.
- Preference packets, text tables, chat, captcha, and the code disabled by `#ifdef`.
