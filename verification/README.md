# Verification of the Phoenix server's wire code, interserver protocol, SHA-1 and service index

This project models four parts of the Phoenix Tibia server in Dafny and proves
what they promise. To check it, run `dafny verify dfyconfig.toml`.

**The wire layer** (`Machine`, `Modular`, `Adler32`, `ErrorDetection`, `Tea`, `Xtea`,
`Packet`, `Connection`, `Capability`). `Packet` is a class over a growing byte array
with eight bytes of headroom; `NetworkConnection` is a class that sends and receives
frames. The checksum, with its deferred remainder, is the Adler-32 of section 8.2 of
RFC 1950 on lengths 1 to 0x7fff (the code returns 0 on length 0, where the RFC gives
1, and on longer strings). It has distance exactly 3: the client rejects every frame
with one or two changed bytes of checksum and payload. The block loops of `encrypt`
and `decrypt` are XTEA (Needham and Wheeler, "Tea extensions", 1997, written over
strings of bits in `Tea`) in 32 rounds over words read little-endian, and undo each other
in place.

**The interserver protocol** (`Messages`, `Hub`, `InterserverService`,
`InterserverClient`, `Interserver`, `Exchange`, `RelaySafety`, `RelayPayload`,
`Runs`, `TwoProviders`, `LongName`, `RepeatedId`, `CapabilityAgreement`, `Counting`,
`CountOverflow`). The hub and the client are classes whose
methods work on packets and are proved against functions on values. What the methods
do with the bytes of a message is proved to be the step of one state machine: a hub,
any number of clients and everything in flight between them, each connection a queue,
steps in any order. The index the hub draws may be any unused one. Three invariants are proved over every run: where indices are and whom
they are bound to; that data and answers arrive unchanged and each callback fires at
most once; that the hub's registry and a client's capabilities agree up to what is
in flight. Where an invariant needs a limit, a run shows what happens beyond it. Tags on
messages and the history record are ghost bookkeeping: no step depends on them.

**SHA-1 and HMAC** (`BitStrings`, `Fips180`, `Sha1Words`, `Sha1`, `Hmac`). FIPS PUB
180-1 and section 2 of RFC 2104 are written over strings of bits; the Lua code is
written over plain numbers, `modf` on reals included. `sha1.hex` is proved to print
the standard's digest for every message of fewer than 2^32 bits, and to fail for
every longer one; `sha1.hmacHex` is proved to be HMAC for keys of every length.

**The service index** (`ServiceIndex`). The manager's map and the listeners' maps are
fields of classes that agree after every call, and the search loop that does not
advance is decided exactly.

## Findings

- The search loop of `unregisterService` does not advance: the call does not return
  exactly when the emptied listener is not the first of the list (`SearchEnds`,
  `NetworkManager.UnregisterService`). Registering two services at different endpoints
  and removing the first is enough (`RemovedServiceSpins`), and so is a registration that
  was vetoed, because its listener stays (`VetoedServiceSpins`).
- The listener compares two sums it computed itself, so it never skips a packet, with
  or without keys, whatever the checksum word says (`NetworkConnection.ListenerReceives`).
- Put together, `handleHeader` and `handleBody` decipher a keyed frame from its
  checksum on and four bytes short (`ComposedKeyedReceive`). They recover inner length,
  payload and padding if and only if the frame behind its outer length repeats its first
  four bytes throughout (`ComposedRecoversExactly`). They recover the payload if and only
  if that holds of its whole blocks and the block it shares with the padding happens to
  decipher to its last bytes (`ComposedRecoversPayload`). If two whole blocks differ, the
  payload is lost for every key (`DifferingBlocksAreLost`), as for fourteen zero bytes
  (`ZerosAreLost`). The promised round trip holds when the cursor is behind the
  checksum (`KeyedDelivery`).
- With two live providers the second is sent a message without the request's body
  (`SecondProviderGetsNothing`), and reads on into the body its buffer still holds
  (`StaleBody`). In a run of two requests the callback of the first is then fired twice,
  the second time with an answer to the other request (`SecondProviderFiresTwice`).
- A request for a class name longer than 65535 bytes is served by the handler of the
  cut name, which reads the rest of the name as data (`LongNameReachesAnotherHandler`).
- A capability count raised at its 32-bit maximum leaves a held name at zero, and
  nothing else does (`CountsOverRuns`); 2^32 additions are a run in which that happens
  (`CountsOverflow`).
- Request ids repeat after 2^32 requests: with one request more, an answer can reach
  the callback of another request (`RepeatedIdGoesAstray`); up to 2^32 it cannot
  (`CallbackGetsItsAnswer`).
- A text longer than 65535 bytes, alone or in a capability, does not survive a packet
  (`FieldRoundTrip`, `ListRoundTrip`, both exact).
- The erase behind `break` in the client's answer branch is never reached; callbacks
  fire at most once all the same, because their requests are answered once
  (`CallbackGetsItsAnswer`).

## Model

| member | source | states |
|---|---|---|
| Machine.LE32 | PhoenixLibrary/Packet.h:54-64 | a word goes into the buffer as four bytes, least significant first, and is read back as itself |
| Machine.LE32Inverse | PhoenixLibrary/Packet.h:98-109 | reading four bytes as a word loses none of them |
| Machine.LeastFirst | PhoenixLibrary/Packet.h:54-64 | byte i of a word in the buffer is its digit at 2^(8i): least significant first |
| Adler32.DeferredModulo | PhoenixLibrary/Tools.cpp:71-82 | adding a whole chunk and reducing once gives the sums that RFC 1950, section 8.2, reduces after every byte |
| Adler32.RfcConcat | PhoenixLibrary/Tools.cpp:71-82 | the sums of a string are those of its rest started from those of its front, so chunks compose |
| Adler32.RawBClosed | PhoenixLibrary/Tools.cpp:75-79 | closed form of the second accumulator before reduction |
| Adler32.RawBounds | PhoenixLibrary/Tools.cpp:73-79 | within a chunk of at most 5552 bytes neither 32-bit accumulator wraps |
| Adler32.ChunkLengthIsTight | PhoenixLibrary/Tools.cpp:73 | no chunk of n bytes can wrap the accumulators if and only if n <= 5552 |
| Adler32.AddChunk | PhoenixLibrary/Tools.cpp:75-79 | the inner do-while loop, in wrapping 32-bit arithmetic, computes the two unreduced sums of its chunk |
| Adler32.AdlerChecksum | PhoenixLibrary/Tools.cpp:64-85 | the function returns the RFC 1950 checksum on lengths 1 to 0x7fff and 0 on length 0 and above |
| ErrorDetection.LargestPrime | PhoenixLibrary/Tools.cpp:69 | the base is the largest prime below 65536, as RFC 1950, section 8.2, wants it |
| ErrorDetection.NotMultiple | PhoenixLibrary/Tools.cpp:69 | 65521 divides no product of a byte difference and a distance below 65521 |
| ErrorDetection.OneChange | PhoenixLibrary/Tools.cpp:64-85 | one changed byte changes both halves of the checksum |
| ErrorDetection.TwoChanges | PhoenixLibrary/Tools.cpp:64-85 | two changed bytes, exchanged bytes included, change the checksum |
| ErrorDetection.CloseStringsDiffer | PhoenixLibrary/Tools.cpp:64-85 | two strings of one length in 1 to 0x7fff that differ in one or two places have different checksums |
| ErrorDetection.ServedLengthsAreExact | PhoenixLibrary/Tools.cpp:66-67 | strings of length n > 0 at distance one or two always have different checksums if and only if n <= 0x7fff |
| ErrorDetection.GateAcceptsExactlyCodewords | Plugin_InterserverClient/InterserverClient.cpp:376-378 | the client's comparison accepts exactly what a sender puts on the wire |
| ErrorDetection.CorruptionRejected | Plugin_InterserverClient/InterserverClient.cpp:376-378 | with one or two bytes changed anywhere in checksum word and payload, the empty payload included, the comparison rejects |
| ErrorDetection.ThreeChangesCanPass | PhoenixLibrary/Tools.cpp:64-85 | two accepted strings at distance three exist, so the distance is exactly three |
| Xtea.XorIsBitwise | PhoenixLibrary/NetworkConnection.cpp:126-130 | the exclusive or on numbers acts on the bits one by one |
| Xtea.ShiftLeft | PhoenixLibrary/NetworkConnection.cpp:127 | the left shift of a word moves its bits four places, zeros coming in |
| Xtea.ShiftRight | PhoenixLibrary/NetworkConnection.cpp:127 | the right shift of a word moves its bits five places, zeros coming in |
| Xtea.MixBitByBit | PhoenixLibrary/NetworkConnection.cpp:127-130 | a word is mixed by shifting its bits four to the left and five to the right, exclusive-or of the two, and adding the word |
| Xtea.LowKeyBitByBit | PhoenixLibrary/NetworkConnection.cpp:127 | the first subkey of a round is the sum plus the key word its bits 1 and 0 select |
| Xtea.HighKeyBitByBit | PhoenixLibrary/NetworkConnection.cpp:130 | the second subkey is the sum plus the key word its bits 12 and 11 select |
| Xtea.AddIsHalf | PhoenixLibrary/NetworkConnection.cpp:127-130 | what the code adds to a word is the half-round of the paper, on bits |
| Tea.DeltaIsGolden | PhoenixLibrary/NetworkConnection.cpp:111 | the constant is (sqrt(5) - 1) * 2^31, rounded down |
| Xtea.RoundInverse | PhoenixLibrary/NetworkConnection.cpp:126-130 | one pass of the decrypting loop undoes one of the encrypting loop, running sum included, and the reverse |
| Xtea.SumAfter | PhoenixLibrary/NetworkConnection.cpp:124-130 | after n rounds the running sum is n times 0x9E3779B9 modulo 2^32, whatever the block |
| Xtea.SumsMeet | PhoenixLibrary/NetworkConnection.cpp:151 | after 32 rounds the running sum is 0xC6EF3720, where decryption starts |
| Xtea.RoundsAreFeistel | PhoenixLibrary/NetworkConnection.cpp:126-130 | n rounds are 2n half-rounds of the paper's Feistel network on words of bits, with its key schedule |
| Xtea.EncipherIsXtea | PhoenixLibrary/NetworkConnection.cpp:122-133 | a block is enciphered as the 64 half-rounds of XTEA on words of bits |
| Xtea.CipherInverse | PhoenixLibrary/NetworkConnection.cpp:119-162 | deciphering a pair of words undoes enciphering it, and the reverse, for every key |
| Xtea.RegionInverse | PhoenixLibrary/NetworkConnection.cpp:119-162 | on every string of whole blocks the two block loops undo each other |
| Xtea.EncryptBlock | PhoenixLibrary/NetworkConnection.cpp:122-130 | the 32-round loop computes the enciphered pair |
| Xtea.DecryptBlock | PhoenixLibrary/NetworkConnection.cpp:149-157 | the 32-round loop back computes the deciphered pair |
| Xtea.EncryptRegion | PhoenixLibrary/NetworkConnection.cpp:117-135 | the block loop enciphers its region in place and changes no byte outside it |
| Xtea.DecryptRegion | PhoenixLibrary/NetworkConnection.cpp:142-162 | the block loop deciphers its region in place and changes no byte outside it |
| PacketBuffer.Packet.constructor | PhoenixLibrary/Packet.h:44-52 | a new packet has cursor and start at 8, no message and 512 zero bytes |
| PacketBuffer.Packet.Reserve | PhoenixLibrary/Packet.h:56-58 | the buffer grows by 512 until it holds what is needed; earlier bytes stay, new ones are 0 |
| PacketBuffer.GrownInSteps | PhoenixLibrary/Packet.h:56-58 | the size reached is the old one plus a multiple of 512 |
| PacketBuffer.WriteTwice | PhoenixLibrary/Packet.h:207-220 | writing two values one after the other, growing twice, leaves what writing both at once leaves |
| PacketBuffer.Packet.Append | PhoenixLibrary/Packet.h:86-96 | copying bytes in keeps position = start + length and puts them behind the message |
| PacketBuffer.Packet.Push32 | PhoenixLibrary/Packet.h:54-64 | a pushed word goes into memory as four bytes at the cursor, wherever it stands, and behind the message while it is written |
| PacketBuffer.Packet.PushText | PhoenixLibrary/Packet.h:207-220 | a pushed text goes into memory at the cursor as its length modulo 2^16 and all its bytes |
| PacketBuffer.Packet.PopText | PhoenixLibrary/Packet.h:237-243 | popping a text returns as many bytes as its length says and moves behind them |
| PacketBuffer.Packet.Pad | PhoenixLibrary/Packet.h:140-144 | padding moves cursor and length and leaves the buffer as it is |
| PacketBuffer.Packet.AddHeader | PhoenixLibrary/Packet.h:198-204 | a header goes right before the message, into the headroom, and nothing else changes |
| PacketBuffer.Packet.WriteMessageLength | PhoenixLibrary/Packet.h:183 | the length modulo 2^16 goes before the message |
| PacketBuffer.Packet.AddCryptoHeader | PhoenixLibrary/Packet.h:184-190 | checksum, if wanted, then outer length go before the message |
| PacketBuffer.Packet.ParseLength | PhoenixLibrary/Packet.h:178-181 | the first two bytes are the length of what follows; the size counts them too |
| Capabilities.TextRoundTrip | PhoenixLibrary/Packet.h:207-243 | a pushed text is popped as itself if and only if it has at most 65535 bytes |
| Capabilities.CapRoundTrip | PhoenixLibrary/NetworkDefinitions.h:52-59 | a written capability is read as itself, with nothing left over or missing, if and only if its texts fit |
| Capabilities.FieldRoundTrip | PhoenixLibrary/Packet.h:54-109 | the same for a value of every kind |
| Capabilities.ListRoundTrip | PhoenixLibrary/Packet.h:54-109 | popping a list of values after pushing it returns the list if and only if all its texts fit |
| Capabilities.WriteCap | PhoenixLibrary/NetworkDefinitions.h:57-59 | writing appends name, address text and port to the message |
| Capabilities.ReadCap | PhoenixLibrary/NetworkDefinitions.h:52-56 | reading returns the capability at the cursor and moves behind it |
| Capabilities.WriteThenRead | PhoenixLibrary/Packet.h:54-109 | on the packet itself: push a list, rewind, pop it, and the list comes back |
| Connection.NetworkConnection.Encrypt | PhoenixLibrary/NetworkConnection.cpp:109-136 | cursor and length move over the padding, the message is enciphered in place with the padding memory holds, and the rest of memory stays |
| Connection.NetworkConnection.Seal | PhoenixLibrary/NetworkConnection.cpp:71-74 | the keyed half of `send` leaves inner length, payload and padding, enciphered, as the message |
| Connection.NetworkConnection.Send | PhoenixLibrary/NetworkConnection.cpp:67-78 | what reaches the socket is the framed payload or the framed enciphered payload; the headers take exactly 2, 4, 6 or 8 bytes of headroom |
| Connection.NetworkConnection.HandleHeader | PhoenixLibrary/NetworkConnection.cpp:80-90 | the size is the length read plus 2 and the cursor is at 2 |
| Connection.NetworkConnection.Decrypt | PhoenixLibrary/NetworkConnection.cpp:138-171 | result, memory, cursor and size are those of `Opened`, sizes that are no multiple of 8 and inner lengths that are too large failing |
| Connection.NetworkConnection.HandleBody | PhoenixLibrary/NetworkConnection.cpp:92-107 | a copy of the packet is handed on unless decryption fails, and the sum over what follows the checksum word is kept |
| Connection.NetworkConnection.Receive | PhoenixLibrary/NetworkConnection.cpp:60-107 | the packet handed on, if decryption succeeds, holds the frame in front of what the buffer held, deciphered where there are keys, with its cursor, size and sum; the buffer keeps it, and a failure leaves the last sum |
| Connection.NetworkConnection.ClientReceives | Plugin_InterserverClient/InterserverClient.cpp:374-378 | the client accepts a frame if and only if its word is the sum kept on arrival; without keys, if and only if it is the checksum of the rest; of a frame without room for the word, if and only if memory holds zero there |
| Connection.NetworkConnection.ListenerReceives | PhoenixLibrary/NetworkListener.cpp:199-215 | with or without keys the comparison of the listener never skips a packet, and the service gets what was read, the cursor behind the checksum word |
| Connection.OtherSizesSummable | PhoenixLibrary/NetworkConnection.cpp:99-101 | without keys always, with keys on every frame whose size is not 6, the sum is taken over memory of the packet |
| Connection.FramedIsWellFramed | PhoenixLibrary/NetworkConnection.cpp:67-78 | the first two bytes of what a sender frames, with a checksum or without, are the length of the rest |
| Connection.PlainRoundTrip | PhoenixLibrary/NetworkConnection.cpp:67-107 | without keys every payload, the empty one included, arrives from offset 6 to the end, and the stored word equals the sum kept on arrival |
| Connection.ClientRejectsCorruption | Plugin_InterserverClient/InterserverClient.cpp:376-378 | a frame with one or two bytes of checksum and payload changed, the payload possibly empty, is rejected by the client |
| Connection.KeyedRoundTrip | PhoenixLibrary/NetworkConnection.cpp:67-78 | opening a sent keyed frame with the cursor at 6 succeeds and gives the payload and its exact length |
| Connection.ComposedKeyedReceive | PhoenixLibrary/NetworkConnection.cpp:80-107 | with the cursor where `handleHeader` leaves it, the deciphered region starts at the checksum and the last four bytes stay enciphered |
| Connection.EarlyRegion | PhoenixLibrary/NetworkConnection.cpp:85 | deciphering four bytes too early recovers the first e bytes if and only if the enciphered bytes are the same four bytes earlier |
| Connection.ComposedRecoversExactly | PhoenixLibrary/NetworkConnection.cpp:80-107 | `handleHeader` and `handleBody` together recover inner length, payload and padding if and only if the frame behind its outer length is the same four bytes later |
| Connection.ComposedRecoversPayload | PhoenixLibrary/NetworkConnection.cpp:80-107 | they recover inner length and payload, whatever becomes of the padding, if and only if the whole blocks of these are the same four bytes later and the last, shared block deciphers early to the payload's last bytes |
| Connection.DifferingBlocksAreLost | PhoenixLibrary/NetworkConnection.cpp:80-107 | if two whole blocks of inner length and payload differ, they do not recover the payload, whatever key, padding and buffer |
| Connection.ZerosAreLost | PhoenixLibrary/NetworkConnection.cpp:80-107 | fourteen zero bytes are not recovered, for every key |
| Connection.PlainDelivery | PhoenixLibrary/NetworkConnection.cpp:67-107 | sending without keys and receiving is accepted and delivers the payload |
| Connection.KeyedDelivery | PhoenixLibrary/NetworkConnection.cpp:67-171 | sending with keys, reading the header, moving the cursor to 6 and decrypting delivers the payload and its length |
| Connection.FreshKeyedDelivery | PhoenixLibrary/NetworkConnection.cpp:67-171 | two new connections given the same keys: every payload the receive buffer has room for is sent by one and comes out of the other, its cursor moved to 6 |
| Messages.RequestBodyRoundTrip | Plugin_InterserverClient/InterserverClient.cpp:315-321 | the provider reads out of a request the id, class name and data put there if and only if the name has at most 65535 bytes |
| Messages.ReplyBodyRoundTrip | Plugin_InterserverClient/InterserverClient.cpp:409-414 | the requester reads out of a reply the id and the bytes the handler wrote |
| Hub.ProvidersInOrder | Plugin_Interserver/InterserverService.cpp:148-151 | the providers of a name are the connections of its entries that are live, one for each entry, in the order of the registry |
| Hub.RegisterIdempotent | Plugin_Interserver/InterserverService.cpp:391-414 | registering a name and endpoint again, from any connection, changes nothing |
| Hub.RegisterEffect | Plugin_Interserver/InterserverService.cpp:391-414 | exactly the registered pair is added and no pair gets a twin |
| Hub.UnregisterEffect | Plugin_Interserver/InterserverService.cpp:63-78 | no other pair is touched and no pair gets a twin |
| Hub.UnregisterLeavesNone | Plugin_Interserver/InterserverService.cpp:66-76 | erasing the first match leaves no match if and only if the pair had no twin |
| Hub.RegisterAllEffect | Plugin_Interserver/InterserverService.cpp:84-96 | a list adds exactly its pairs |
| Hub.ReachableRegistry | Plugin_Interserver/InterserverService.cpp:47-96 | after any sequence of handlers 1, 2 and 3 no pair is registered twice, so handler 2 leaves none of its pair |
| Hub.AllocateEffect | Plugin_Interserver/InterserverService.cpp:151-156 | the drawn indices, and only they, are added to the relay table, bound to the requester |
| Hub.UnusedIndexExists | Plugin_Interserver/InterserverService.cpp:151-154 | with fewer than 2^32 indices outstanding the drawing loop can find one |
| InterserverServices.InterserverService.RegisterCapability | Plugin_Interserver/InterserverService.cpp:385-414 | the search and insertion compute `Register` |
| InterserverServices.InterserverService.RemoveCapability | Plugin_Interserver/InterserverService.cpp:63-80 | the search and erasure compute `Unregister` |
| InterserverServices.InterserverService.RegisterList | Plugin_Interserver/InterserverService.cpp:84-96 | reading a list registers all its capabilities in order |
| InterserverServices.InterserverService.RelayRequest | Plugin_Interserver/InterserverService.cpp:147-171 | every live provider of the name gets a message with a fresh index bound to the requester; only the first gets the body |
| InterserverServices.InterserverService.RelayReply | Plugin_Interserver/InterserverService.cpp:174-193 | a known index is answered to the connection it is bound to, if there is a body, and forgotten; an unknown one is ignored |
| InterserverServices.InterserverService.Handle | Plugin_Interserver/InterserverService.cpp:260-275 | the code selects the handler, and registry, relay table and output change as the message says; a heartbeat changes nothing; a code without a handler ends the connection |
| InterserverClients.InterserverClient.AddCapability | Plugin_InterserverClient/InterserverClient.cpp:264-280 | a held name is counted up; a new one is announced if the connection is open |
| InterserverClients.InterserverClient.RemoveCapability | Plugin_InterserverClient/InterserverClient.cpp:282-300 | a name is counted down, and at zero forgotten and withdrawn if the connection is open |
| Counting.CountsAreNet | Plugin_InterserverClient/InterserverClient.cpp:264-300 | after any sequence of additions and removals, of any names, a name is held exactly if it was added more often than removed since it was last absent, and that difference is its count, while the difference fits in 32 bits |
| Counting.ToldAtFirstAndLast | Plugin_InterserverClient/InterserverClient.cpp:264-300 | on an open connection a call sends code 1 exactly at the first addition, code 2 exactly at the last removal, and nothing otherwise |
| Counting.AddThenRemove | Plugin_InterserverClient/InterserverClient.cpp:264-300 | a removal undoes an addition, and withdraws it if it was announced, if and only if the name is not held with count zero |
| Counting.OnlyCounts | Plugin_InterserverClient/InterserverClient.cpp:264-300 | adding and removing touch neither ids, callbacks nor handlers |
| InterserverClients.InterserverClient.SendCapabilityList | Plugin_InterserverClient/InterserverClient.cpp:333-346 | the held capabilities, each once and in the order of their names, are sent in one message; none if there are none |
| ClientStates.LessAtFirstDifference | PhoenixLibrary/NetworkDefinitions.h:45-47 | one name is before another if and only if, at the first place where they differ, it has ended or has the smaller byte |
| ClientStates.ListingUnique | PhoenixLibrary/NetworkDefinitions.h:45-47 | the order by name leaves one list only |
| ClientStates.StaysKeyed | Plugin_InterserverClient/InterserverClient.cpp:264-300 | counting up and down keeps every capability under its own name |
| InterserverClients.InterserverClient.RequestPacketSerializable | Plugin_InterserverClient/InterserverClient.cpp:311-326 | the request carries a new id, class name and data, and the callback is registered under the id |
| InterserverClients.InterserverClient.RegisterPacketSerializableHandler | Plugin_InterserverClient/InterserverClient.cpp:328-331 | the handler of a class name is set |
| InterserverClients.InterserverClient.ReceiveRelayed | Plugin_InterserverClient/InterserverClient.cpp:396-420 | the handler of the class name sees the data at the cursor, its output is sent back under index and id, and the handler is forgotten; another operation does nothing |
| InterserverClients.InterserverClient.ReceiveAnswer | Plugin_InterserverClient/InterserverClient.cpp:423-437 | the callback of the id is run on the rest of the packet and stays registered; another operation does nothing |
| InterserverClients.InterserverClient.Receive | Plugin_InterserverClient/InterserverClient.cpp:380-439 | behind the checksum, the code selects the branch, and state, messages sent and callback run are those of the message; codes other than 6, 7 and 8 are passed over |
| Exchange.HandleIsStep | Plugin_Interserver/InterserverService.cpp:260-275 | what `handle` does with the bytes of a message is the step of the state machine: same registry, same relay table, same messages out |
| Exchange.ReceiveIsStep | Plugin_InterserverClient/InterserverClient.cpp:380-439 | what `receive` does with the bytes of a message is the step of the state machine: same client, same messages out, same callback |
| Exchange.CallIsStep | Plugin_InterserverClient/InterserverClient.cpp:264-346 | what the calls of a client make of its state, and the messages they send, are its steps in the state machine, and nobody else changes |
| Exchange.StaleBody | PhoenixLibrary/NetworkConnection.cpp:60-107 | when a relayed message without a body arrives after one with a body, the body of the earlier one stands in memory where the client reads on |
| Exchange.ToTheHub | PhoenixLibrary/NetworkListener.cpp:199-215 | a client message sent, framed, read and passed by the listener is handled by the hub as that message |
| Exchange.ToTheClient | Plugin_InterserverClient/InterserverClient.cpp:374-439 | a hub message sent, framed, read and accepted by the client is received as that message |
| RelaySafety.TableAfterAllocation | Plugin_Interserver/InterserverService.cpp:151-156 | drawing any number of unused indices keeps the relay table and its history in agreement |
| RelaySafety.StepKeeps | Plugin_Interserver/InterserverService.cpp:143-193 | every step of hub or client keeps the index invariant |
| RelaySafety.IndexSafety | Plugin_Interserver/InterserverService.cpp:143-193 | in every run each index in transit is in one message and bound to the connection that asked, each is answered at most once, and handed out = answered + outstanding |
| RelaySafety.AnswersReachTheirRequester | Plugin_Interserver/InterserverService.cpp:177-187 | every answer in flight is on its way to the client whose request it answers, and every reply carries an outstanding index of that client, reused indices included |
| RelayPayload.AskKeeps | Plugin_InterserverClient/InterserverClient.cpp:311-326 | a request sets out under an id and an origin no other message or record has |
| RelayPayload.ServeKeeps | Plugin_InterserverClient/InterserverClient.cpp:396-420 | the handler is given the bytes the requester serialized, and its output sets out for the same request |
| RelayPayload.AnswerKeepsPayload | Plugin_InterserverClient/InterserverClient.cpp:423-437 | the answer fires the callback of its own request, which had not fired before |
| RelayPayload.PayloadSafety | Plugin_InterserverClient/InterserverClient.cpp:396-438 | the payload invariant holds in every run with at most one live provider at each relay and at most 2^32 requests a client |
| RelayPayload.CallbackGetsItsAnswer | Plugin_InterserverClient/InterserverClient.cpp:423-437 | what reached a callback is the output of the handler that was given that very request's class name and data, and it was reached once |
| RelayPayload.IdsDistinct | Plugin_InterserverClient/InterserverClient.cpp:313-319 | n consecutive request ids are all different if and only if n <= 2^32 |
| RepeatedId.RepeatedIdGoesAstray | Plugin_InterserverClient/InterserverClient.cpp:311-326 | with one request more there is a run, one provider and fitting names throughout, in which the answer to the first request fires the callback of the last, which nobody served |
| LongName.CutRequest | PhoenixLibrary/Packet.h:207-220 | of a request with a name of any length a provider reads the first bytes of the name, length modulo 2^16, and takes the rest of the name for data |
| LongName.LongNameReachesAnotherHandler | Plugin_InterserverClient/InterserverClient.cpp:311-326 | for every name there is a run of one request in which the callback fires with the output of the handler of the cut name; the class served is the class asked for if and only if the name has at most 65535 bytes |
| RelayPayload.SecondProviderGetsNothing | Plugin_Interserver/InterserverService.cpp:148-163 | the messages to the providers all carry the request's body if and only if there is at most one |
| TwoProviders.SecondProviderFiresTwice | Plugin_Interserver/InterserverService.cpp:148-163 | there is a run with two providers and two requests in which the second provider answers from the body its buffer holds: the callback of the first request fires twice, and that of the second never |
| CapabilityAgreement.HubHolds | Plugin_Interserver/InterserverService.cpp:47-96 | what a message to the hub does to one pair of the registry |
| CapabilityAgreement.ReplayTaken | Plugin_Interserver/InterserverService.cpp:47-96 | taking the next message of a channel moves the replay of its sender one message on and no one else's |
| CapabilityAgreement.StepKeepsAgreement | Plugin_InterserverClient/InterserverClient.cpp:264-346 | every step keeps registry, messages in flight and counts in agreement |
| CapabilityAgreement.Agreement | Plugin_InterserverClient/InterserverClient.cpp:264-346 | in every session the replay of a client's messages over the registry gives names it holds, and all of them once its list is queued |
| CapabilityAgreement.DrainedAgreement | Plugin_Interserver/InterserverService.cpp:47-96 | with nothing of a listed client in flight, the hub has a pair of that client if and only if the client holds the name, and, if no count overflows, holds it with a positive count |
| CapabilityAgreement.CountsStayPositive | Plugin_InterserverClient/InterserverClient.cpp:264-289 | counting up keeps all counts positive if and only if the count raised is not at its 32-bit maximum; counting down always does |
| CapabilityAgreement.CountsOverRuns | Plugin_InterserverClient/InterserverClient.cpp:264-289 | all counts of held names are positive throughout a run if and only if no count at its 32-bit maximum is raised in it |
| CountOverflow.CountsOverflow | Plugin_InterserverClient/InterserverClient.cpp:264-280 | adding one capability 2^32 times is a run, and leaves it held with count zero |
| CapabilityAgreement.AgreementOnHeld | Plugin_InterserverClient/InterserverClient.cpp:264-346 | in sessions without such a step the replay gives names held with a positive count, and all of them once the list is queued |
| BitStrings.BitsVal | PhoenixTibiaServer/data/libs/sha1.lua:97-109 | a string of bits is the binary numeral of its value |
| BitStrings.BitsConcat | PhoenixTibiaServer/data/libs/sha1.lua:68 | multiplying by a power of two and adding joins numerals |
| Sha1Words.BytesJoined | PhoenixTibiaServer/data/libs/sha1.lua:68 | the joined word's bits are those of its four bytes in order |
| Sha1Words.BytesSplit | PhoenixTibiaServer/data/libs/sha1.lua:70-72 | splitting a word and joining its bytes gives it back |
| Sha1Words.ModfOfQuotient | PhoenixTibiaServer/data/libs/sha1.lua:75-79 | `modf` of a quotient is the whole quotient and, scaled, the exact remainder |
| Sha1Words.RotationRotates | PhoenixTibiaServer/data/libs/sha1.lua:75-79 | `w32_rot` on reals yields a whole number whose bits are those of the word, the first n moved to the end, for n up to 32 |
| Sha1Words.ByteToBitsIsBits | PhoenixTibiaServer/data/libs/sha1.lua:97-103 | the eight booleans are the bits of the byte, last first |
| Sha1Words.BitsToByteIsVal | PhoenixTibiaServer/data/libs/sha1.lua:106-109 | the weighted sum is the value of the bits |
| Sha1Words.ByteBitsInverse | PhoenixTibiaServer/data/libs/sha1.lua:97-109 | `bits_to_byte` and `byte_to_bits` undo each other |
| Sha1Words.ByteGateIsPointwise | PhoenixTibiaServer/data/libs/sha1.lua:131-155 | `band`, `bor` and `bxor` act on the bits one by one |
| Sha1Words.W32GateIsPointwise | PhoenixTibiaServer/data/libs/sha1.lua:163-174 | `w32_and`, `w32_or` and `w32_xor`, done byte by byte, act on the 32 bits one by one |
| Sha1Words.W32Or3IsOr | PhoenixTibiaServer/data/libs/sha1.lua:187-194 | `w32_or3` is the bitwise or of three words |
| Sha1Words.W32NotIsNot | PhoenixTibiaServer/data/libs/sha1.lua:197-199 | `w32_not` negates every bit |
| Sha1Words.W32AddIsAdd | PhoenixTibiaServer/data/libs/sha1.lua:202 | `w32_add` is the standard's addition of words |
| Sha1Words.W32XorN | PhoenixTibiaServer/data/libs/sha1.lua:177-184 | the loop computes the bitwise exclusive or of all its arguments |
| Sha1Words.W32AddN | PhoenixTibiaServer/data/libs/sha1.lua:205-210 | the loop computes the sum of all its arguments |
| Sha1Words.PrintedIsHex | PhoenixTibiaServer/data/libs/sha1.lua:212 | `%08x` prints the word's bits in eight hex digits |
| Fips180.FBitByBit | PhoenixTibiaServer/data/libs/sha1.lua:264-281 | the round functions choose between c and d, take the parity of three bits, or go with the majority, bit by bit |
| Fips180.KAreRoots | PhoenixTibiaServer/data/libs/sha1.lua:264-281 | the round constants are the square roots of 2, 3, 5 and 10 times 2^30, rounded down |
| Fips180.Filling | PhoenixTibiaServer/data/libs/sha1.lua:219-223 | section 4 of the standard: the least number of zeros that leaves 64 bits free in the last block |
| Sha1.LengthBytesAreTheWord | PhoenixTibiaServer/data/libs/sha1.lua:226-232 | the four `modf` steps give the bytes of the length, and an error exactly from 2^32 bits on |
| Sha1.PaddedLength | PhoenixTibiaServer/data/libs/sha1.lua:221-236 | the padded length is the least multiple of 64 that is at least the length plus 9 |
| Sha1.PaddingInverse | PhoenixTibiaServer/data/libs/sha1.lua:217-234 | the message can be read back from the padded form, so padding is injective |
| Sha1.PaddingIsPadded | PhoenixTibiaServer/data/libs/sha1.lua:217-234 | the padded bytes are the padded bits of section 4 of FIPS PUB 180-1 |
| Sha1.BreakUp | PhoenixTibiaServer/data/libs/sha1.lua:248-251 | W[0] to W[15] are the words of the block |
| Sha1.Expand | PhoenixTibiaServer/data/libs/sha1.lua:256-259 | W[16] to W[79] are the schedule of section 7 |
| Sha1.Choose | PhoenixTibiaServer/data/libs/sha1.lua:264-281 | f and K of each round are those of sections 5 and 6 |
| Sha1.Compress | PhoenixTibiaServer/data/libs/sha1.lua:261-286 | the rolling A to E are the state after the eighty rounds of section 7 |
| Sha1.Chunks | PhoenixTibiaServer/data/libs/sha1.lua:238-289 | the chunk loop computes the state after all blocks |
| Sha1.PrintedDigest | PhoenixTibiaServer/data/libs/sha1.lua:290-292 | the five printed words are the 160 bits in hex |
| Sha1.HexDigest | PhoenixTibiaServer/data/libs/sha1.lua:215-293 | `sha1.hex` prints the FIPS PUB 180-1 digest of every message of fewer than 2^32 bits and fails on every other |
| Sha1Hmac.HexToBinaryUndoesHex | PhoenixTibiaServer/data/libs/sha1.lua:295-299 | `hex_to_binary` reads every printed string of bytes back |
| Sha1Hmac.HexUndoesHexToBinary | PhoenixTibiaServer/data/libs/sha1.lua:295-299 | printing what `hex_to_binary` read gives the digits back |
| Sha1Hmac.Bin | PhoenixTibiaServer/data/libs/sha1.lua:301-303 | `sha1.bin` is the digest as 20 bytes |
| Sha1Hmac.XorKeyIsXorPad | PhoenixTibiaServer/data/libs/sha1.lua:309-326 | the two table lookups and fillings are the zero-padded key exclusive-or'd with ipad and opad |
| Rfc2104.HashedStrings | PhoenixTibiaServer/data/libs/sha1.lua:309-326 | the HMAC of the RFC hashes the key block with every byte exclusive-or'd with 0x36, then the text; and the same block with 0x5C, then that hash |
| Sha1Hmac.HmacHex | PhoenixTibiaServer/data/libs/sha1.lua:316-328 | `sha1.hmacHex` prints the HMAC of section 2 of RFC 2104 for keys of every length, and fails exactly when a string to be hashed is too long |
| ServiceIndex.SearchEnds | PhoenixLibrary/NetworkManager.cpp:102-111 | the search loop ends if and only if the list is empty or its first element is the one sought |
| ServiceIndex.OneListener | PhoenixLibrary/NetworkManager.cpp:26-117 | in a consistent index a name maps to a service if and only if a listener maps it to that service and is that service's own; no name is at two listeners |
| ServiceIndex.InstalledAgrees | PhoenixLibrary/NetworkManager.cpp:59-65 | installing a service keeps the two levels in agreement |
| ServiceIndex.WithdrawnAgrees | PhoenixLibrary/NetworkManager.cpp:95-99 | taking a name out of its listener and the manager keeps them in agreement |
| ServiceIndex.WithoutFirstAgrees | PhoenixLibrary/NetworkManager.cpp:104-109 | so does removing an emptied first listener |
| ServiceIndex.NetworkListener.RegisterService | PhoenixLibrary/NetworkListener.cpp:75-89 | the listener maps the name to the service, replacing any other |
| ServiceIndex.NetworkListener.UnregisterService | PhoenixLibrary/NetworkListener.cpp:91-107 | the listener forgets the name, and says whether it knew it |
| ServiceIndex.NetworkManager.ListenerFor | PhoenixLibrary/NetworkManager.cpp:33-47 | the listener of the endpoint is found, or a new one put in front |
| ServiceIndex.NetworkManager.RegisterService | PhoenixLibrary/NetworkManager.cpp:26-76 | registration, replacement wherever the old service is served, and veto keep the index consistent; the name maps to the service exactly if it was not vetoed; vetoed or not, the endpoint has a listener afterwards, new and in front if there was none |
| ServiceIndex.NetworkManager.UnregisterService | PhoenixLibrary/NetworkManager.cpp:87-117 | the name is gone and the index consistent; the call spins if and only if it emptied the listener and no pass of the search loop ends it, which is when that listener is not the first; the first is removed |
| ServiceIndex.NetworkManager.Find | PhoenixLibrary/NetworkManager.cpp:171-178 | null exactly if the name is unknown; otherwise a service of that name, served under it by its own listener, at its own endpoint, and by no other |
| ServiceIndex.VetoedServiceSpins | PhoenixLibrary/NetworkManager.cpp:42-51 | a service registered, another vetoed at a different endpoint, the first removed: the call spins |
| ServiceIndex.RemovedServiceSpins | PhoenixLibrary/NetworkManager.cpp:87-117 | two services registered at different endpoints and the first removed: the call spins |

## Left out

- Sockets, timers, asio scheduling, reconnection, keepalive and notification of components: input and output. Connections are identities with queues, a handler is one step, an open socket is a flag, and the live providers of a relay are a parameter.
- The handshake in `InterserverClient::connect`, the OpenSSL digest in `encipher`, RSA in `LoginService`, boost address parsing, libxml, settings, logging, plugin loading and the Lua bindings: calls into code that is not part of this model. An address is the text it prints as; bind addresses are canonical.
- `InterserverService::removeConnection` and the end of a session: the agreement of registry and clients is stated within one session.
- The capability-notify path (handlers 4 and 6, code 6 at the client): its codes and formats do not match between hub and client.
- `World` and `Character` serialization: `data` in a request stands for whatever bytes the requester serialized, a handler for any function on bytes.
- `Callback.h`, `Component.cpp`, `ComponentManager.cpp`: a veto is a parameter of `RegisterService`.
- Connection.NetworkConnection.Receive: requires the frame to fit the receive buffer, because nothing grows it before the read, and the same of the sum; so do `ClientReceives` and `ListenerReceives`.
- Connection.NetworkConnection.Send: requires the headroom its headers take, which a new packet has, and with keys the room for padding; the socket write is not modelled.
- Connection.NetworkConnection.Encrypt: requires room for the padding, because `pad` does not grow the buffer.
- Connection.NetworkConnection.HandleBody: requires the sum to be taken over memory of the packet; by `OtherSizesSummable` that leaves out only keyed frames of size 6 with an inner length beyond the buffer, where `size() - 8` wraps.
- Connection.KeyedDelivery: sets the cursor to 6 itself, as `ComposedKeyedReceive` shows that the calls of `handleHeader` and `handleBody` alone do not.
- Connection.NetworkConnection.ListenerReceives: models the check of `handleReceive`, not the dispatch among services of `handleReceiveFirst`.
- InterserverClients.InterserverClient.SendCapabilityList: a list of 65536 capabilities or more is sent with its count cut to 16 bits, as the source does.
- InterserverClients.InterserverClient.ReceiveRelayed: requires a body that holds an operation and, for a request, id and class name, as `ReceiveAnswer` requires operation and id; a shorter one is read on from whatever the buffer holds, so in the state machine the client takes any class name, id and data from it and answers if it has a handler of that name.
- InterserverClients.InterserverClient.Receive: does not model code 6, the capability-notify path; messages of codes 7 and 8 are as whole as `ReceiveRelayed` and `ReceiveAnswer` require.
- InterserverClients.InterserverClient.RequestPacketSerializable: keeps the static id counter in the client, of which a process has one.
- InterserverServices.InterserverService.RelayRequest: requires that outstanding indices and providers together are at most 2^32, without which the drawing loop does not end; how long it draws is not modelled.
- InterserverServices.InterserverService.Handle: requires messages of codes 1, 2, 3, 7 and 8 to be whole; codes 4 and 6 and handlers added by plugins are not modelled.
- RelaySafety.IndexSafety: the state machine passes messages, not their bytes; `HandleIsStep`, `ReceiveIsStep`, `ToTheHub` and `ToTheClient` show that the bytes carry them while texts have at most 65535 bytes and frames fit their buffers.
- RelayPayload.PayloadSafety: requires at most one live provider at each relay, class names of at most 65535 bytes and at most 2^32 requests a client; `SecondProviderFiresTwice`, `LongNameReachesAnotherHandler` and `RepeatedIdGoesAstray` are runs beyond each limit in which the promise fails.
- LongName.LongNameReachesAnotherHandler: is about messages; a request with such a name is longer than the 16-bit length of a frame can say, so no frame carries it whole.
- Capabilities.ReadCap: requires a whole capability at the cursor, as `PopText` requires a whole text; what the original reads past its buffer is undefined. Which texts boost refuses to read as an address is not modelled.
- CapabilityAgreement.Agreement: requires one endpoint per client and name, endpoints of different clients different, and lists of fewer than 65536 capabilities, which is what their count can say.
- Sha1Hmac.HexToBinaryUndoesHex: `hex_to_binary` is modelled on an even number of lower-case hex digits, the only input it is given; the second result of `gsub` is dropped by every caller and not modelled.
- The caching table of `cache2arg`, switched off in the source, the debug functions and `sha1.hmacBin`, which is `hex_to_binary` of `sha1.hmacHex`.
