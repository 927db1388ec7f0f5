# W5500 driver: a verified model

A model, in Dafny 4.11, of the WIZnet W5500 driver and the DHCP, DNS and NTP clients on top of it,
and proofs of what each layer promises the next. `dafny verify dfyconfig.toml` checks everything.

## Layers

1. **Chip and driver** (`Rings`, `Registers`, `Chip`, `Driver`). `Rings` treats the two socket
   buffers as power-of-two rings under 16-bit pointers that wrap, and proves the receive ring a FIFO
   and the transmit ring a "gather, then send" buffer over every run. `Chip.Port` is the environment:
   one socket's registers, rings and network. The network is an arbitrary but fixed list of datagrams;
   before *every* SPI frame any number of further ones may arrive, the transmitter may make any
   progress, and the status and interrupt bits may change. What was read of those bits is kept
   (`Chip.Polls`), as are the random numbers drawn (`Driver.Draws`), so that the clients are held to
   it. `Driver.W5500` builds its operations from such frames.
2. **Sockets and datagrams** (`Framing`, `Sockets`). `Socket` keeps the write offset of a gathered
   packet. `UdpSocket` keeps the unread part of a received one; its invariant ties the counter to the
   position in the stream, so that reads, skips and flushes land on packet boundaries.
3. **DHCP** (`DhcpHeader`, `DhcpOptions`, `DhcpPacket`, `DhcpFsm`, `DhcpRuns`, `DhcpIds`, `DhcpClient`). The
   client is a class whose every `Update` is proved to be one `Step` of the pure transition system in
   `DhcpFsm`, and which keeps the run it has been through; `DhcpRuns` and `DhcpIds` prove the
   properties of all runs of that system. Packets are written and parsed through the socket layer,
   at any ring position.
4. **DNS** (`DnsCache`, `DnsNames`, `DnsMessages`, `DnsClient`), with the query id of `Crc16` and
   `CrcProperties`.
5. **NTP** (`NtpTime`, `NtpClient`).

`Words` and `Bitwise` hold machine words and bitwise OR, XOR and shifts on integers.

## Assumptions about the chip

- A read of the transmit write pointer returns the value at the last SEND, although the driver has
  written newer values to the register. `src/W5500.cpp:268-290` and `src/Socket.cpp:60-61` add the
  socket's own offset to what they read, which is right only then, and the repository's
  `README.md:170-173` describes it so. The field `base` of `Rings.Tx` is this latched value.
- A ring address is the pointer modulo the ring size, which divides 2^16; the received size is write
  minus read pointer modulo 2^16; RECV commits the read pointer and SEND the write pointer.
- A datagram and its header appear in the receive ring together.

The constructors of `Chip.Port`, `Chip.Chip`, the sockets and `DhcpClient.Client` establish these
invariants from the state after a reset, so that what the operations require can be met.

## What does not hold

Where the code falls short of what one would expect, the model keeps the code, and the condition
under which the expectation holds is proved.

- **Timers survive their lease.** T1 and T2 are set once, from the first lease of two seconds or
  more, and never cleared. A later lease can be kept in LEASED past its own expiry exactly when the
  old T1 exceeds its duration (`DhcpRuns.LeaseOutlived`, `LeaseOutlivedRun`).
- **Short leases outlive themselves in RENEW.** A lease whose T1 does not exceed it is sure to be gone
  after two updates past expiry if and only if it lasts ten seconds or more (`HeldOnceMore`,
  `GivenUpIffTen`); for every shorter one there is a run that still holds it then (`RenewingRun`).
- **Long leases are due in the wrong order.** Above 4908534 seconds the rebinding product wraps. A
  lease of 4908535 seconds is given up 0.7 s after it was taken (`LongLeaseOutOfOrder`,
  `LongLeaseDropped`).
- **RENEW has no time of its own.** The request timer is not restarted, so renewal is given up in the
  first update without an ACK if and only if T1 comes to ten seconds or more in 32-bit milliseconds
  (`RenewLastsOneUpdate`, `RenewsOnceIffTen`).
- **DISCOVER may be unicast.** The destination is broadcast only until the first offer is taken
  (`DiscoverDestination`, `RestartAfterNak`).
- **Transaction ids may wrap.** The range test tells the client's own ids from others exactly as long
  as they have not (`DhcpIds.AcceptsOwnIff`). From then on every reply is refused, and the client
  stays in DISCOVER until the ids have come round (`WrappedStaysDeaf`, `WrappingRun`).
- **Pads are taken for options.** They do no harm exactly when they come in runs of even length
  (`DhcpOptions.HarmlessIffEven`); one pad in front of an ACK hides it (`DhcpPacket.PadHidesAck`).
- **A rejected reply costs the queue.** `parse_dhcp_response` flushes the socket, and with it every
  datagram that had arrived behind a rejected reply. A datagram behind the one parsed survives if and
  only if END closed the parse (`DhcpClient.Client.ParseDhcpResponse`).
- **The free size is compared with one write only**; a second write may overwrite bytes not yet sent
  (`Rings.OverrunDestroys`).
- **A failed DNS query leaves its beginning behind**, in front of the next packet of that socket
  (`DnsClient.Client.SendQuery`).
- **Aliases hide addresses.** The DNS scan takes every answer's data for four bytes. An address behind
  an alias with `n` bytes of data is sure to be found, whatever the two hold, if and only if `n` is
  four (`DnsMessages.AliasHarmlessIffFour`); with two bytes it is never found (`AliasHidesAddress`).
- **Long lifetimes wrap**: above 4294967 seconds the expiry of a DNS entry is too early
  (`LifetimeFits`).
- **Labels of 64 to 255 bytes, and empty ones, are sent** although no decoder accepts them
  (`DnsNames.NameRoundTrip`).
- **The `secs` field counts down**, and is right only where that happens to agree
  (`DhcpPacket.SecsRightIff`).
- **NTP reports success without a time** exactly when packets were taken and none had 48 bytes
  (`NtpClient.FreshIffTimed`, `NtpClient.Client.Drain`).

## Model

The results come first, the operations they are built on after them.

| member | source | states |
|---|---|---|
| DhcpRuns.Reachable | src/Protocols/DHCP.cpp:7-198 | hence it holds in every state of every run |
| DhcpRuns.StepKeeps | src/Protocols/DHCP.cpp:7-198 | the invariant over addresses, timers, time stamps, packets sent, ids, retries, deadlines and destination survives every update |
| DhcpRuns.LeaseProvenance | src/Protocols/DHCP.cpp:26-241 | a lease is held only after a session start, an accepted OFFER and an accepted ACK without a return to START, both carrying ids of packets the client sent since that start; in LEASED and RENEW the chip holds that ACK's addresses |
| DhcpClient.Client.Update | src/Protocols/DHCP.cpp:7-200 | what one update does about what it read: if the interrupt register had RECV up and a reply is next in the queue, an OFFER (2) in DISCOVER ends in REQUEST with the request on the wire to the server it names, an ACK (5) in LEASED with its gateway, mask and address in the chip's registers, a NAK (6) in START; in START, if the status register said UDP, one DISCOVER goes out under a number just drawn; with a wrapped id it stays in DISCOVER |
| DhcpClient.Client.ReplyUpcoming | src/Protocols/DHCP.cpp:200-305 | a well-formed BOOTREPLY for this client that is next in the queue is what that update responds to, with the type in option 53 and the fields its other options mean |
| DhcpClient.Client.Advance | src/Protocols/DHCP.cpp:7-24 | update after update, the object goes through a run of the transition system, so that everything proved of runs holds of its past; replies with any effect have passed the range test and come from delivered datagrams |
| DhcpClient.Client.Dispatch | src/Protocols/DHCP.cpp:7-24 | every update is one step of the transition system on what it read: clock readings taken in order during the call, the RECV flag as the interrupt register showed it, the link as the status register did, and the random number drawn; log and wire stay equal |
| DhcpClient.Client.LeaseHasOrigin | src/Protocols/DHCP.cpp:7-305 | whenever the object holds a lease, its past has the session start, the OFFER and the ACK, these two parsed from delivered datagrams with ids sent in that session, and the chip has that ACK's addresses |
| DhcpClient.Client.AcceptsSentIds | src/Protocols/DHCP.cpp:217-241 | of any payload: if the object would accept it, it is a BOOTREPLY for its hardware address with an id sent in this session; and conversely as long as the id has not wrapped |
| DhcpRuns.NoLeaseNoAddresses | src/Protocols/DHCP.cpp:26-39 | in DISCOVER and REQUEST the chip's IP, mask and gateway are zero; in LEASED they are the client's |
| DhcpRuns.StartSends | src/Protocols/DHCP.cpp:41-73 | a session starts with no lease, zero addresses and one DISCOVER, broadcast if the socket was just opened |
| DhcpRuns.DiscoverSends | src/Protocols/DHCP.cpp:75-113 | an OFFER is answered by one REQUEST to the server it names; otherwise DISCOVER goes out again, under the next id, if and only if more than 1000 ms have passed since the last |
| DhcpRuns.RequestSends | src/Protocols/DHCP.cpp:115-186 | ACK and NAK are not answered; without them REQUEST goes out again if and only if more than 1000 ms have passed since the last, and past 10000 ms since the first the client starts anew |
| DhcpIds.AcceptsOwnIff | src/Protocols/DHCP.cpp:217-241 | of the BOOTREPLYs for its hardware address the client accepts exactly those with ids sent in this session if and only if the id has not wrapped in it (or the ids have come to be all there are) |
| DhcpIds.AcceptedIsOwn | src/Protocols/DHCP.cpp:217-241 | wrapped or not, a payload that passes the tests carries an id sent in this session |
| DhcpIds.WrappedStaysDeaf | src/Protocols/DHCP.cpp:106-112 | once the id has wrapped no payload at all passes the tests, and the client stays in DISCOVER for as many updates as it takes the ids to come round |
| DhcpIds.DeafIff | src/Protocols/DHCP.cpp:235-241 | no payload passes the tests if and only if the latest id is below the first |
| DhcpIds.WrappingRun | src/Protocols/DHCP.cpp:106-112 | the failing input: a run whose second DISCOVER goes out under id 0 and whose answer to just that id leaves the client in DISCOVER |
| DhcpRuns.PacketsSpaced | src/Protocols/DHCP.cpp:106-112 | consecutive packets of one kind are more than 1000 ms apart, over the whole run |
| DhcpRuns.TenRetries | src/Protocols/DHCP.cpp:172-185 | at most ten repeats of a request, nine while it is still waiting, if the two clock readings behind the first one agree; in general one more per second between them |
| DhcpRuns.RequestEndsInTime | src/Protocols/DHCP.cpp:179-185 | updates that stay in REQUEST saw a clock of at most the first request + 10000 ms |
| DhcpRuns.RenewLastsOneUpdate | src/Protocols/DHCP.cpp:179-198 | the request timer is not restarted: with a renewal product of ten seconds or more, RENEW lasts one update, ending in LEASED by an ACK and in START otherwise |
| DhcpRuns.RenewsOnceIffTen | src/Protocols/DHCP.cpp:179-198 | and with any smaller product some run stays in RENEW longer |
| DhcpRuns.TimersSetBy | src/Protocols/DHCP.cpp:141-149 | timers in use are half and seven eighths, rounded down, of one lease acknowledged earlier in the run, while they were unset |
| DhcpRuns.RenewBeforeRebind | src/Protocols/DHCP.cpp:136-153 | when the lease that set the timers is of at most 4908534 seconds, T1 <= T2, renewal is due no later than rebinding, and an update that stays LEASED saw a clock no later than both |
| DhcpRuns.ProductFits | src/Protocols/DHCP.cpp:147-153 | the rebinding product stays below 2^32 exactly for leases of at most 4908534 seconds |
| DhcpRuns.LongLeaseOutOfOrder | src/Protocols/DHCP.cpp:141-153 | the bound is exact for leases up to 8589935 seconds: longer ones, counted from one clock reading, are due for rebinding first |
| DhcpRuns.LongLeaseDropped | src/Protocols/DHCP.cpp:141-153 | a lease of 4908535 seconds is given up by the first update 704 ms after it was taken |
| DhcpRuns.TimersNeverChange | src/Protocols/DHCP.cpp:141-149 | timers once set are never changed again, whatever leases follow |
| DhcpRuns.LeaseOutlived | src/Protocols/DHCP.cpp:141-153 | a client in LEASED can stay there past the expiry of its lease if and only if both deadlines lie behind it; while the products fit, if and only if T1, then left over from an earlier lease, exceeds the duration |
| DhcpRuns.HeldOnceMore | src/Protocols/DHCP.cpp:179-198 | if T1 does not exceed a lease of ten seconds or more, of two updates past expiry that take no new lease the second has given it up, and the first has left LEASED |
| DhcpRuns.GivenUpIffTen | src/Protocols/DHCP.cpp:179-198 | for each duration, that holds of all runs if and only if the lease is of ten seconds or more |
| DhcpRuns.RenewingRun | src/Protocols/DHCP.cpp:172-198 | the failing input: after a first lease with T1 below ten seconds a client is in RENEW, and still after updates at any two times from then up to ten seconds after the request |
| DhcpRuns.LeaseOutlivedRun | src/Protocols/DHCP.cpp:26-39 | a run from the initial state in which a lease of a minute is still held, in LEASED, after an update eleven hours later |
| DhcpRuns.DiscoverDestination | src/Protocols/DHCP.cpp:46-59 | the DISCOVER of a new session is broadcast exactly when no offer was taken since the socket was opened, or the last one named the broadcast address |
| DhcpRuns.RestartAfterNak | src/Protocols/DHCP.cpp:165-169 | after a NAK the DISCOVER of the next session goes to the server last chosen, and to no other |
| DhcpClient.Client.ParseDhcpResponse | src/Protocols/DHCP.cpp:200-305 | either ERROR without any change, and then no datagram had arrived as the call began; or the next datagram is parsed, and a datagram queued behind it is still to be read if and only if END closed the parse |
| DhcpPacket.ReplyParses | src/Protocols/DHCP.cpp:200-305 | a reply for this client with well-formed options, even runs of pads and END is safe, and gives the offered address, the type and the fields that its options, as the standard reads them, mean |
| DhcpOptions.WalkMeans | src/Protocols/DHCP.cpp:254-300 | the loop over any well-formed list, with even runs of pads anywhere and closed by END, stops at END with the type and the fields of the last-value-wins meaning of the list |
| DhcpOptions.HarmlessIffEven | src/Protocols/DHCP.cpp:254-300 | runs of pads at given places do no harm, whatever well-formed options stand between them, if and only if every run has an even number of pads |
| DhcpPacket.AreaRoundTrip | src/Protocols/DHCP.cpp:254-300 | by the standard's rules, pads of any number make no difference to the options read |
| DhcpPacket.PadHidesAck | src/Protocols/DHCP.cpp:295-298 | the failing input: one pad in front of an ACK, which the standard reads as an ACK and the loop as no message type at all |
| DhcpPacket.SafeParses | src/Protocols/DHCP.cpp:200-305 | on safe payloads parsing never overruns, whatever ids and fields it starts from |
| DhcpPacket.PacketWellFormed | src/Protocols/DHCP.cpp:312-405 | length 263 + host name (12 more for REQUEST); every field before byte 240, by its bytes; and from there options that the standard reads as type (53), client id (61), the host name (12), in a REQUEST address (50) and server (54), and the parameters 1, 3, 6, 15, 58, 59 (55), in this order |
| DhcpPacket.PacketDecodes | src/Protocols/DHCP.cpp:312-351 | the parser of received headers recovers xid, secs, flags and hardware address from a packet sent |
| DhcpPacket.SecsRightIff | src/Protocols/DHCP.cpp:307-310 | the exact condition under which the `secs` field, which counts down, is the elapsed time in seconds |
| DhcpClient.Client.SendDhcpPacket | src/Protocols/DHCP.cpp:312-405 | exactly one datagram goes out: the packet of this type, id, time and lease, to the socket's destination |
| DhcpPacket.OptionsRoundTrip | src/Protocols/DHCP.cpp:353-401 | options encoded one after another and closed by END are read back by the standard's rules |
| DhcpHeader.ChunksDecode | include/W5500/Protocols/DHCP.hpp:74-198 | any split of the header into chunks, empty ones included, ends with the same decoding, and the counts returned sum to 34 |
| DhcpHeader.AbsorbAllDecodes | include/W5500/Protocols/DHCP.hpp:76-187 | absorbing all 34 bytes gives the big-endian decoding of RFC 2131's fixed header |
| DhcpHeader.ResumeAtLookahead | include/W5500/Protocols/DHCP.hpp:68-71 | resuming at the byte the break test already looked at changes nothing |
| Rings.RingRefinesFifo | src/W5500.cpp:308-379 | over every run of such operations the ring answers as a FIFO, and bytes gone followed by bytes pending are exactly the bytes that arrived |
| Rings.RingStepRefines | src/W5500.cpp:308-379 | each of arrive, peek, read, skip and flush on the ring answers and moves as the queue operation does |
| Rings.GatherSendsConcatenation | src/Socket.cpp:59-77 | such a run ended by SEND transmits exactly the concatenation, across ring wrap, and leaves earlier unsent bytes intact |
| Rings.TxRunGathers | src/Socket.cpp:59-63 | any run of writes whose total fits the free size at the first, interleaved with transmission, gathers their concatenation, and `_write_offset` is its length |
| Rings.OverrunDestroys | src/W5500.cpp:281-284 | when gathered bytes and one more write together exceed the free size (which the code compares with the one write only), the oldest unsent byte is overwritten |
| Framing.UnframeRoundTrip | src/UdpSocket.cpp:47-67 | following the length field of the 8-byte headers recovers any sequence of datagrams from its stream |
| CrcProperties.CrcIsTheRemainder | src/Utility/CRC16.cpp:7-17 | data(x)*x^16 = q(x)*(x^16+x^12+x^5+1) + r(x) over GF(2) with 16-bit r holds for exactly one pair, and r is the CRC |
| CrcProperties.DivisionUnique | src/Utility/CRC16.cpp:7-17 | quotient and remainder of that division are unique |
| Crc16.FoldDivides | src/Utility/CRC16.cpp:11-17 | from any state, the bytes of a string update the state as long division bit by bit does |
| Crc16.UpdateDivides | src/Utility/CRC16.cpp:7-9 | one table-driven update equals eight bitwise division steps, for every state and byte |
| Crc16.TableDivides | include/W5500/Utility/CRC16.hpp:11-42 | each of the 256 entries is what eight steps of bitwise division by x^16+x^12+x^5+1 make of its index |
| Crc16.FoldConcat | src/Utility/CRC16.cpp:11-17 | the CRC of a concatenation is the fold over the second part from the CRC of the first |
| CrcProperties.CrcLinear | src/Utility/CRC16.cpp:7-17 | for strings of equal length the CRC of the XOR is the XOR of the CRCs |
| CrcProperties.UpdateIsBijection | src/Utility/CRC16.cpp:7-9 | for fixed data, update is a bijection on the 16-bit state, with an explicit inverse |
| CrcProperties.AppendedCrcIsZero | src/Utility/CRC16.cpp:7-17 | appending the two CRC bytes, high first, gives CRC 0 |
| CrcProperties.BurstsNeverCollide | src/Protocols/DNS.cpp:182-185 | strings of equal length that differ only inside 16 consecutive bits have equal CRCs only if they are equal |
| CrcProperties.AdjacentCharactersNeverCollide | src/Protocols/DNS.cpp:182-185 | host names that differ in one character or two adjacent ones never share a query id |
| CrcProperties.BurstOfSeventeenCollides | src/Protocols/DNS.cpp:182-185 | the 16-bit bound is sharp: two strings that differ in a burst of 17 bits share their CRC |
| DnsCache.ClearingUnobservable | include/W5500/Protocols/DNS.hpp:17-113 | on a clock that never runs backwards every operation of every sequence is answered as by a store that never clears anything |
| DnsCache.AgreeStep | include/W5500/Protocols/DNS.hpp:71-113 | one operation keeps the two stores equal on live entries |
| DnsCache.GetFindsStored | include/W5500/Protocols/DNS.hpp:71-113 | a hit exactly when one of the eight slots is filled, has not expired and has the id, and the address was stored under it with an expiry not yet passed; `has_entry` says yes in exactly these cases |
| DnsCache.StoreThenGet | include/W5500/Protocols/DNS.hpp:71-103 | a lookup right after a store finds the new slot, unless a live entry with the id is in a lower one |
| DnsCache.KeptUntilEvicted | include/W5500/Protocols/DNS.hpp:83-103 | until it expires an entry stays in its slot, unless a store found all eight live and this one the first to expire |
| DnsCache.StoredIsFound | include/W5500/Protocols/DNS.hpp:71-113 | an address stored under an id that no live entry has, and not stored under again, answers every lookup up to its expiry unless it was evicted, and then nothing does; likewise for `has_entry` |
| DnsNames.NameRoundTrip | src/Protocols/DNS.cpp:222-254 | the bytes decode, by RFC 1035, to the labels between the dots if and only if each has 1 to 63 bytes |
| DnsNames.SplitJoins | src/Protocols/DNS.cpp:222-251 | the labels hold no dots, and joined by dots give the host name |
| DnsNames.NameLength | src/Protocols/DNS.cpp:222-254 | the encoded name is two bytes longer than the host name |
| DnsNames.EmittedAll | src/Protocols/DNS.cpp:228-234 | the encoder fails exactly when some label has more than 255 bytes |
| DnsNames.SkipEmitted | src/Protocols/DNS.cpp:84-124 | both skip loops pass over the labels of an encoded name to the byte behind them |
| DnsMessages.QueryParses | src/Protocols/DNS.cpp:195-269 | the query has n+18 bytes: its id, recursion desired, one question and no records; the question decodes to the labels, type A and class IN, ends its name at n+13, and is skipped to n+18 |
| DnsMessages.FirstAddressFound | src/Protocols/DNS.cpp:58-152 | the scan of a well-formed response finds exactly its first A record of class IN, or none, when that and all earlier answers have four bytes of data |
| DnsMessages.AddressInIsFirst | src/Protocols/DNS.cpp:108-149 | what the previous row calls the first address is the first record of that type and class |
| DnsMessages.ResponseStored | src/Protocols/DNS.cpp:40-152 | such a response of at most 256 bytes puts that one address in the cache under its id, and nothing else |
| DnsMessages.ResponseLayout | src/Protocols/DNS.cpp:58-82 | id, flags and counts of such a response by their bytes |
| DnsMessages.ErrorsIgnored | src/Protocols/DNS.cpp:58-73 | a packet without the QR bit or with an error code leads to no cache operation, whatever follows |
| DnsMessages.LongIgnored | src/Protocols/DNS.cpp:48-52 | nor does one of more than 256 bytes |
| DnsMessages.AliasHarmlessIffFour | src/Protocols/DNS.cpp:108-149 | for each length of an alias's data: the address behind it is found in every response, whatever alias and address hold, if and only if that length is four |
| DnsMessages.AliasHidesAddress | src/Protocols/DNS.cpp:148-148 | in every response made of an alias with a two-byte target and an address, both named by pointers, the address is not found |
| DnsMessages.LifetimeFits | src/Protocols/DNS.cpp:134-140 | the expiry is now + 1000*TTL exactly for a TTL of at most 4294967 seconds, and falls short by a multiple of 2^32 ms beyond |
| DnsMessages.NameStep | src/Protocols/DNS.cpp:88-124 | both name loops stop at a zero; from 64 on a byte is a pointer, passed whole in a question and ending the name in an answer |
| DnsClient.Client.Update | src/Protocols/DNS.cpp:13-38 | nothing is sent; it drains exactly when the status register said UDP and the interrupt register, read in this call, had RECV up; then of every datagram that had arrived, each response with a straight first address has had that address stored under its id; in all cases the cache sees the operations of exactly the datagrams taken |
| DnsClient.Client.Query | src/Protocols/DNS.cpp:180-271 | the id is the CRC of the host name; the packet goes out exactly when no live entry has that id (and no label is too long) |
| DnsClient.AnsweredQueryHits | src/Protocols/DNS.cpp:40-271 | a response with the first two bytes of the query sent makes `get`, under the id that `query` returned, find its address until that expires |
| NtpTime.SecondsRoundTrip | src/Protocols/NTP.cpp:87-93 | every Unix second below 2^32 is recovered from its 32-bit wire value, across the era change of 2036 |
| NtpTime.FractionError | src/Protocols/NTP.cpp:100-102 | dividing by 4294967 exceeds the exact floor by 0 or 1, says for which fractions, and reaches 1000 exactly from 4294967000 on |
| NtpTime.ConversionError | src/Protocols/NTP.cpp:87-103 | the milliseconds computed are the exact ones rounded down, or one more, as the fraction decides |
| NtpTime.ConversionMonotone | src/Protocols/NTP.cpp:87-103 | a later time never gives an earlier result |
| NtpTime.SecondOverlap | src/Protocols/NTP.cpp:100-103 | the end of a second gives the same result as the start of the next exactly for fractions from 4294967000 on |
| NtpTime.ReadingOf | src/Protocols/NTP.cpp:87-103 | a packet carrying a time gives that time, at most one millisecond ahead |
| NtpClient.FreshIffTimed | src/Protocols/NTP.cpp:69-114 | the time after any datagrams is independent of the time before if and only if one of them had 48 bytes |
| NtpClient.LastReadingTimed | src/Protocols/NTP.cpp:69-114 | and then it is the time in the last such datagram |
| NtpClient.Client.Drain | src/Protocols/NTP.cpp:31-34 | the loop ends; its flag tells that some packet was taken; the time is that of the last 48-byte packet, or the old one if there was none, whatever the flag says |
| Rings.RxPending | src/W5500.cpp:419-421 | the received-size register, (write - read) mod 2^16, counts exactly the unread bytes |
| Rings.RxPeeks | src/W5500.cpp:308-331 | reading from the ring at the read pointer gives the next bytes of the stream, across the end of the ring and wrapped pointers |
| Rings.RxReleases | src/W5500.cpp:357-361 | moving the read pointer and RECV releases exactly those bytes and keeps the rest |
| Rings.TxFree | src/W5500.cpp:403-405 | the free-size register counts the ring minus what is queued and not yet sent, so what has been gathered fits in it |
| Rings.TxGathers | src/W5500.cpp:256-294 | a write behind the bytes gathered so far appends to them and disturbs nothing still to be sent |
| Rings.TxSends | src/W5500.cpp:242-254 | SEND transmits exactly the gathered bytes as one unit and starts the next |
| Framing.HeaderAt | src/UdpSocket.cpp:53-66 | at every packet boundary of the stream stand that packet's header and then its payload |
| Framing.HeaderBytes | src/UdpSocket.cpp:55-66 | the header byte by byte: address, port, length |
| Words.NetworkOrder | src/Protocols/DNS.cpp:164-174 | two- and four-byte fields are read and written most significant byte first |
| Registers.RegistersDisjoint | include/W5500/Registers.hpp:49-166 | no two registers of a block overlap, so writing one changes no other |
| Registers.FrameHeaderDecodes | src/W5500.cpp:143-214 | address, block and direction of an SPI frame are recovered from its three header bytes |
| Registers.BlocksDistinct | include/W5500/Registers.hpp:9-19 | register, transmit and receive blocks of all sockets and the common block are pairwise different |
| Driver.W5500.WriteCommon | src/W5500.cpp:143-160 | replaces the bytes of one common register and no others |
| Driver.W5500.ReadCommon | src/W5500.cpp:182-197 | returns the bytes of one common register |
| Driver.W5500.SetGateway | src/W5500.cpp:11-13 | sets the gateway; mask, hardware address and IP address stay |
| Driver.W5500.SetSubnetMask | src/W5500.cpp:15-17 | sets the mask; the other address registers stay |
| Driver.W5500.SetIp | src/W5500.cpp:19-21 | sets the IP address; the other address registers stay |
| Driver.W5500.GetMac | src/W5500.cpp:23-25 | returns the hardware address |
| Driver.W5500.WriteSocket | src/W5500.cpp:162-180 | replaces the bytes of one socket register; apart from interrupt and status flags no other register of the socket changes |
| Driver.W5500.ReadSocket | src/W5500.cpp:199-214 | returns the bytes of one socket register as the chip shows them at that moment |
| Driver.W5500.ReadU16 | src/W5500.cpp:381-385 | returns a two-byte register, most significant byte first |
| Driver.W5500.GetTxFreeSize | src/W5500.cpp:403-405 | returns the free size of the transmit ring |
| Driver.W5500.GetTxWritePointer | src/W5500.cpp:411-413 | returns the latched write pointer, the value at the last SEND |
| Driver.W5500.GetRxByteCount | src/W5500.cpp:419-421 | returns the number of received bytes not yet released |
| Driver.W5500.GetRxReadPointer | src/W5500.cpp:423-425 | returns the read pointer |
| Driver.W5500.GetRxWritePointer | src/W5500.cpp:431-433 | returns the receive write pointer |
| Driver.W5500.SetTxWritePointer | src/W5500.cpp:415-417 | stores the pointer, and leaves queue, gathered bytes and latched value alone |
| Driver.W5500.SetRxReadPointer | src/W5500.cpp:427-429 | stores the pointer; nothing is released before RECV |
| Driver.W5500.SendSocketCommand | src/W5500.cpp:56-60 | the chip gets exactly that command byte, in its command register: SEND (0x20) transmits, RECV (0x40) releases, others are recorded |
| Driver.W5500.Write | src/W5500.cpp:256-294 | appends as much of the data as the free size allows to the gathered bytes, all of it whenever it fits behind them, and returns how much; a first write into a full ring returns 0; nothing is sent |
| Driver.W5500.Send | src/W5500.cpp:242-245 | transmits the gathered bytes as one unit to the destination registers of the moment |
| Driver.W5500.SendBuffer | src/W5500.cpp:247-254 | transmits the gathered bytes followed by the part of the data that fits as one unit |
| Driver.W5500.Peek | src/W5500.cpp:308-331 | returns the next bytes of the receive stream and releases none |
| Driver.W5500.Read | src/W5500.cpp:345-364 | returns the next bytes of the receive stream and releases exactly those |
| Driver.W5500.Skip | src/W5500.cpp:345-364 | a read without a buffer releases exactly that many bytes |
| Driver.W5500.Flush | src/W5500.cpp:366-379 | releases everything up to a packet boundary at or behind all that had arrived when the call began |
| Sockets.Socket.constructor | include/W5500/Socket.hpp:14-56 | a new socket has written nothing, and on a port as after a reset its invariant holds |
| Sockets.UdpSocket.constructor | include/W5500/Socket.hpp:58-78 | a new UDP socket has no packet half read, and on such a port its invariant holds |
| Sockets.Socket.Write | src/Socket.cpp:59-63 | appends to the gathered bytes what the ring takes, everything if it fits; `_write_offset` stays their number |
| Sockets.Socket.SendBuffer | src/Socket.cpp:65-69 | one unit: gathered bytes, then the data as far as the ring takes it; `_write_offset` back to 0 |
| Sockets.Socket.Send | src/Socket.cpp:71-77 | one unit of the gathered bytes, or nothing at all when nothing was written; `_write_offset` back to 0 |
| Sockets.Socket.SetUdpMode | src/W5500.cpp:51-54 | sets the mode register to UDP and no address or port |
| Sockets.Socket.SetDestIp | src/Socket.cpp:17-19 | sets the destination address; ports stay |
| Sockets.Socket.SetDestPort | src/Socket.cpp:21-23 | sets the destination port; address and source port stay |
| Sockets.Socket.SetSourcePort | src/Socket.cpp:25-27 | sets the source port; the destination stays |
| Sockets.Socket.Close | src/Socket.cpp:34-37 | gives the CLOSE command |
| Sockets.Socket.GetInterruptFlags | src/Socket.cpp:39-41 | returns the interrupt register |
| Sockets.Socket.ClearInterruptFlag | src/Socket.cpp:43-45 | writes the flag to the interrupt register |
| Sockets.UdpSocket.Init | src/UdpSocket.cpp:8-12 | UDP mode, one OPEN command, and whether the status is then UDP; addresses and unread data stay |
| Sockets.UdpSocket.Ready | src/UdpSocket.cpp:14-17 | holds exactly when the status register says UDP |
| Sockets.UdpSocket.HasPacket | src/UdpSocket.cpp:19-25 | at a packet boundary, true exactly when a datagram is queued |
| Sockets.UdpSocket.PeekPacket | src/UdpSocket.cpp:27-45 | sender and length of the next datagram, or -1, and then none had arrived when the call began; nothing is taken |
| Sockets.UdpSocket.ReadPacketHeader | src/UdpSocket.cpp:47-67 | takes the next header and returns its sender and length, after which the counter equals the unread payload; -1 only when none had arrived as the call began |
| Sockets.UdpSocket.Read | src/UdpSocket.cpp:75-79 | returns the next bytes of the payload; the counter stays the unread rest |
| Sockets.UdpSocket.ReadByte | src/UdpSocket.cpp:69-73 | returns the next byte of the payload; the counter stays the unread rest |
| Sockets.UdpSocket.Skip | src/UdpSocket.cpp:75-79 | drops that many bytes of the payload |
| Sockets.UdpSocket.SkipToPacketEnd | src/UdpSocket.cpp:88-88 | lands exactly on the next header |
| Sockets.UdpSocket.Flush | src/UdpSocket.cpp:81-84 | lands on a packet boundary behind every datagram that had arrived when the call began |
| Sockets.UdpSocket.CheckFlag | src/Protocols/DHCP.cpp:76-82 | true exactly when the interrupt register, as it was read, had the RECV flag up; then it is acknowledged, and otherwise nothing is written |
| Crc16.Of | src/Utility/CRC16.cpp:11-17 | the loop returns the fold of `update` over the bytes from 0, which `FoldDivides` and `CrcIsTheRemainder` identify with polynomial division |
| DhcpHeader.AbsorbTwice | include/W5500/Protocols/DHCP.hpp:68-71 | absorbing one header byte twice is the same as once, for assignments and for OR-ed fields |
| DhcpHeader.ParseContext.Assign | include/W5500/Protocols/DHCP.hpp:78-187 | the body of one case changes the field the byte belongs to and no other |
| DhcpHeader.ParseContext.Consume | include/W5500/Protocols/DHCP.hpp:74-198 | the fall-through absorbs the chunk and one byte beyond it, advances the offset by the chunk, and returns by how much |
| DhcpOptions.PassTakesOption | src/Protocols/DHCP.cpp:258-299 | one pass takes exactly one well-formed option and sets what it says |
| DhcpOptions.WalkFieldsIrrelevant | src/Protocols/DHCP.cpp:254-300 | whether the loop stays in the packet does not depend on the fields it starts from |
| DhcpPacket.PacketInPieces | src/Protocols/DHCP.cpp:317-401 | the pieces the client writes concatenate to that packet |
| DhcpClient.Client.constructor | include/W5500/Protocols/DHCP.hpp:220-257 | a new client is in the initial state, at the start of a run |
| DhcpClient.Client.ResetCurrentLease | src/Protocols/DHCP.cpp:26-39 | no lease in the fields and no addresses on the chip; the hardware address stays |
| DhcpClient.Client.Configure | src/Protocols/DHCP.cpp:158-161 | the chip's gateway, mask and address become the client's |
| DhcpClient.Client.EmbedU16 | src/Protocols/DHCP.cpp:407-410 | two big-endian bytes replace two bytes of the buffer |
| DhcpClient.Client.EmbedU32 | src/Protocols/DHCP.cpp:412-417 | four big-endian bytes replace four bytes of the buffer |
| DhcpClient.Client.WriteFixed | src/Protocols/DHCP.cpp:317-339 | gathers the first 28 bytes and leaves the buffer zero |
| DhcpClient.Client.WriteAddresses | src/Protocols/DHCP.cpp:341-351 | gathers the padded hardware address and 192 zero bytes |
| DhcpClient.Client.WriteIdentity | src/Protocols/DHCP.cpp:353-374 | gathers cookie, message type, client identifier and as much of the host name as its length byte says |
| DhcpClient.Client.WriteRequested | src/Protocols/DHCP.cpp:376-389 | gathers requested address and server in a REQUEST and nothing otherwise |
| DhcpClient.Client.WriteParams | src/Protocols/DHCP.cpp:391-401 | gathers the parameter list and END |
| DhcpClient.Client.GatherPacket | src/Protocols/DHCP.cpp:312-401 | with one reused buffer, gathers exactly the packet specified by `PacketSent`, and sends nothing yet |
| DhcpClient.Client.ReadFour | src/Protocols/DHCP.cpp:272-287 | the first four bytes of a value, the rest skipped |
| DhcpClient.Client.ParseValue | src/Protocols/DHCP.cpp:258-299 | one option is taken from the packet and one field set, as the specification of a pass says |
| DhcpClient.Client.ParsePass | src/Protocols/DHCP.cpp:257-299 | one pass of the loop, END included, and the packet gets shorter |
| DhcpClient.Client.ParseOptions | src/Protocols/DHCP.cpp:254-304 | the loop terminates and computes the walk; closed by END it ends exactly at the packet's end, otherwise everything that had arrived is dropped |
| DhcpClient.Client.Accepts | src/Protocols/DHCP.cpp:217-241 | exactly BOOTREPLYs for this hardware address with an id in range pass |
| DhcpClient.Client.ParsePayload | src/Protocols/DHCP.cpp:209-304 | type and fields are those of the pure parse, for every ring position; after END exactly this datagram is taken, otherwise everything that had arrived |
| DhcpClient.Client.ParseHeader | src/Protocols/DHCP.cpp:213-215 | the resumable parser in one call gives the big-endian decoding |
| DhcpClient.Client.OpenSocket | src/Protocols/DHCP.cpp:46-59 | up exactly when the status register said UDP, at once or after one OPEN; only a socket just opened gets the broadcast destination and the ports 67 and 68 |
| DhcpClient.Client.FsmStart | src/Protocols/DHCP.cpp:41-73 | is the START step of the transition system on what it saw |
| DhcpClient.Client.Announce | src/Protocols/DHCP.cpp:312-405 | the log of messages sent stays equal, packet for packet, to what went on the wire |
| DhcpClient.Client.Listen | src/Protocols/DHCP.cpp:76-85 | with the flag up the next datagram is parsed, without it nothing changes |
| DhcpClient.Client.TakeOffer | src/Protocols/DHCP.cpp:86-103 | the destination becomes the offering server, the request goes there, and the request timer starts |
| DhcpClient.Client.Rediscover | src/Protocols/DHCP.cpp:106-112 | after more than a second, another DISCOVER under the next id, and not before |
| DhcpClient.Client.FsmDiscover | src/Protocols/DHCP.cpp:75-113 | is the DISCOVER step; a reply it acts on is the parse of the next datagram |
| DhcpClient.Client.Bind | src/Protocols/DHCP.cpp:128-164 | an accepted ACK: default lease time, timers unless set, wrapped deadlines, addresses on the chip |
| DhcpClient.Client.SetTimers | src/Protocols/DHCP.cpp:136-149 | default duration 86400, T1 half and T2 seven eighths of it, each only if still unset |
| DhcpClient.Client.AskAgain | src/Protocols/DHCP.cpp:172-177 | after more than a second, the request again, and not before |
| DhcpClient.Client.CheckTimeout | src/Protocols/DHCP.cpp:179-185 | back to START exactly when the first request is more than 10000 ms old |
| DhcpClient.Client.FsmRequest | src/Protocols/DHCP.cpp:115-186 | is the REQUEST and RENEW step; a reply it acts on is the parse of the next datagram |
| DhcpClient.Client.FsmLeased | src/Protocols/DHCP.cpp:188-198 | is the LEASED step |
| DhcpClient.Client.TakeValue | src/Protocols/DHCP.cpp:268-294 | the field of one option becomes the first four bytes of its value, and the rest is skipped |
| DnsCache.DNSCache.constructor | include/W5500/Protocols/DNS.hpp:115-117 | a new cache has seen no operation and is empty |
| DnsCache.DNSCache.IsFilled | include/W5500/Protocols/DNS.hpp:17-32 | true exactly for a live entry; an expired one loses its flag |
| DnsCache.DNSCache.Find | include/W5500/Protocols/DNS.hpp:73-79 | the scan stops at the first live entry with the id and sweeps the slots up to it |
| DnsCache.DNSCache.Get | include/W5500/Protocols/DNS.hpp:71-81 | answers as the store that never clears |
| DnsCache.DNSCache.HasEntry | include/W5500/Protocols/DNS.hpp:105-113 | answers as the store that never clears |
| DnsCache.DNSCache.Store | include/W5500/Protocols/DNS.hpp:83-103 | overwrites the first slot that is not live, or else the first with the earliest expiry, and no other |
| DnsMessages.QuestionsSkipped | src/Protocols/DNS.cpp:83-106 | any list of uncompressed questions is skipped exactly |
| DnsMessages.AnswerNameSkipped | src/Protocols/DNS.cpp:110-124 | a name of labels, or labels and a pointer, is skipped to its last byte |
| DnsMessages.RecordScanned | src/Protocols/DNS.cpp:126-148 | a record with four bytes of data is either taken, if an A record of class IN, or passed exactly |
| DnsClient.Client.PassQuestions | src/Protocols/DNS.cpp:84-106 | the loops end, at the offset the specification gives |
| DnsClient.Client.PassAnswerName | src/Protocols/DNS.cpp:110-124 | the loop ends on the last byte of the name |
| DnsClient.Client.StoreFirstAddress | src/Protocols/DNS.cpp:108-149 | one store, of the first address found, with the expiry computed from one clock reading, or none |
| DnsClient.Client.ParseMessage | src/Protocols/DNS.cpp:58-151 | the cache sees exactly the operations the scan calls for; queries, errors and empty answers change nothing |
| DnsClient.Client.ParsePacket | src/Protocols/DNS.cpp:40-152 | takes exactly one datagram, of any size, or reports that none had arrived |
| DnsClient.Client.Drain | src/Protocols/DNS.cpp:35-36 | the drain loop ends, and the cache has seen the operations of all datagrams taken, in order |
| DnsClient.Client.OpenSocket | src/Protocols/DNS.cpp:14-24 | up exactly when the status register said UDP, at once or after one OPEN; a socket that had to be opened gets the server's address and port 53 on both sides |
| DnsClient.Client.Get | src/Protocols/DNS.cpp:176-178 | answers from the cache at the present time, as the store that never clears |
| DnsClient.Client.WriteName | src/Protocols/DNS.cpp:222-251 | the loop gathers every label up to the first that is too long, and fails exactly then |
| DnsClient.Client.SendQuery | src/Protocols/DNS.cpp:194-270 | one query behind whatever had been gathered; or, after a label of more than 255 bytes, CLOSE, nothing sent, and the bytes gathered so far left behind |
| NtpClient.Client.ParsePacket | src/Protocols/NTP.cpp:69-114 | one datagram is taken; a 48-byte one sets time, response stamp and poll interval, a longer one nothing |
| NtpClient.Client.SendRequest | src/Protocols/NTP.cpp:116-134 | one request goes out, to the socket's destination, behind what had been gathered |
| NtpClient.RequestFields | src/Protocols/NTP.cpp:117-125 | a request has 48 bytes: version 4, client mode, and otherwise zero |

## Left out

- Bus, GPIO, logging and `reset`: hardware I/O whose end depends on the chip. The bus is the chip's contract.
- `Bus::random`: an arbitrary 64-bit value; nothing is claimed about its period.
- The clock: an unbounded natural number that never decreases. Its wrap after 2^64 ms is not modelled in DHCP and NTP; the DNS cache sees it modulo 2^64.
- Single-register setters and getters, PHY mode, interrupt masks and the TCP sockets: each is settled by one branch.
- What OPEN and CLOSE do to the rings and pointers. Commands are recorded in order (`Chip.Port.control`) and have no other effect.
- Interrupt flags: RECV may be up or down at any time; the model does not relate it to arrivals, and what clearing a flag does is left to the chip.
- Two-byte registers are read in one frame; values torn between two frames do not arise.
- `W5500::flush`'s return value when the pointers have wrapped; only its effect is stated.
- Driver.W5500.Write: a write behind gathered bytes is required to fit, because otherwise unsent bytes are destroyed (`Rings.OverrunDestroys`) and no claim about later packets is left.
- Driver.W5500.SendBuffer: as for `Driver.W5500.Write`.
- Sockets.Socket.Write: as for `Driver.W5500.Write`.
- Sockets.Socket.SendBuffer: as for `Driver.W5500.Write`.
- Driver.W5500.WriteSocket: requires a register below 0x20 other than the command register; commands and ring pointers have methods of their own.
- Driver.W5500.SendSocketCommand: requires of SEND that the write pointer stand behind the gathered bytes, and of RECV that the read pointer not run ahead of what has arrived, as the driver's own operations see to; otherwise the ring holds nothing to speak of.
- Driver.W5500.Peek: requires that as many bytes have arrived; beyond them the ring holds nothing the network sent.
- Driver.W5500.Read: as for `Driver.W5500.Peek`.
- Driver.W5500.Skip: as for `Driver.W5500.Peek`.
- Sockets.UdpSocket.PeekPacket: requires that the packet before has been read to its end; otherwise payload is taken for a header.
- Sockets.UdpSocket.ReadPacketHeader: as for `Sockets.UdpSocket.PeekPacket`.
- Sockets.UdpSocket.Read: requires that the packet has as many bytes left; otherwise the code reads on into the next packet.
- Sockets.UdpSocket.ReadByte: as for `Sockets.UdpSocket.Read`.
- Sockets.UdpSocket.Skip: as for `Sockets.UdpSocket.Read`.
- DhcpClient.Client.SendDhcpPacket: requires room in the transmit ring for the packet; without it the pieces that do not fit are cut or destroy others.
- DhcpClient.Client.Update: requires that room before every update, and datagrams that can be parsed (`DhcpPacket.Safe`).
- DhcpClient.Client.Dispatch: as for `DhcpClient.Client.Update`.
- DhcpClient.Client.WriteFixed: requires room in the transmit ring for the bytes it gathers.
- DhcpClient.Client.WriteAddresses: as for `DhcpClient.Client.WriteFixed`.
- DhcpClient.Client.WriteIdentity: as for `DhcpClient.Client.WriteFixed`.
- DhcpClient.Client.WriteRequested: as for `DhcpClient.Client.WriteFixed`.
- DhcpClient.Client.WriteParams: as for `DhcpClient.Client.WriteFixed`.
- DhcpClient.Client.GatherPacket: as for `DhcpClient.Client.SendDhcpPacket`.
- DhcpClient.Client.FsmStart: as for `DhcpClient.Client.SendDhcpPacket`.
- DhcpClient.Client.Announce: as for `DhcpClient.Client.SendDhcpPacket`.
- DhcpClient.Client.TakeOffer: as for `DhcpClient.Client.SendDhcpPacket`.
- DhcpClient.Client.Rediscover: as for `DhcpClient.Client.SendDhcpPacket`.
- DhcpClient.Client.AskAgain: as for `DhcpClient.Client.SendDhcpPacket`.
- DhcpClient.Client.FsmDiscover: as for `DhcpClient.Client.Update`.
- DhcpClient.Client.FsmRequest: as for `DhcpClient.Client.Update`.
- DhcpClient.Client.ParseDhcpResponse: requires datagrams that can be parsed (`DhcpPacket.Safe`).
- DhcpClient.Client.Listen: as for `DhcpClient.Client.ParseDhcpResponse`.
- DhcpClient.Client.ParsePayload: as for `DhcpClient.Client.ParseDhcpResponse`.
- DhcpClient.Client.ParseOptions: requires options on which the loop does not leave the packet (`DhcpOptions.Fits` at every pass).
- DhcpClient.Client.ParsePass: as for `DhcpClient.Client.ParseOptions`, for its one pass.
- DhcpClient.Client.ParseValue: as for `DhcpClient.Client.ParseOptions`, for its one pass.
- DhcpClient.Client.ReadFour: requires a value of at least four bytes inside the packet, as `DhcpOptions.Fits` grants.
- DhcpClient.Client.TakeValue: as for `DhcpClient.Client.ReadFour`.
- DnsClient.Client.SendQuery: requires room in the transmit ring for the query.
- DnsClient.Client.Query: as for `DnsClient.Client.SendQuery`.
- DnsClient.Client.WriteName: as for `DnsClient.Client.SendQuery`, for the name alone.
- NtpClient.Client.SendRequest: requires room for the request behind what is gathered.
- DhcpPacket.Safe: excludes every datagram of less than 34 bytes, and of the BOOTREPLYs for this hardware address those that are shorter than 240 bytes, those with an option in front of END that runs over the end of the packet, and those with a router or name-server option of a length below four there, even if its bytes lie inside the packet; all this whether or not their id would be accepted. On the short and overrunning ones the parser reads on into the next datagram; on the last it moves the read pointer backwards.
- DnsClient.Client.ParsePacket: requires that the scan of no datagram leaves its packet (`DnsMessages.Safe`), which excludes truncated messages and most with compressed question names. On those the code reads bytes that were never written.
- DnsClient.Client.Drain: as for `DnsClient.Client.ParsePacket`.
- DnsClient.Client.Update: as for `DnsClient.Client.ParsePacket`.
- DnsClient.Client.PassQuestions: requires question names that end inside the packet, as `DnsMessages.Safe` grants.
- DnsClient.Client.PassAnswerName: requires a name that ends inside the packet, as `DnsMessages.Safe` grants.
- DnsClient.Client.StoreFirstAddress: requires answers whose scan stays in the packet, as `DnsMessages.Safe` grants.
- DnsClient.Client.ParseMessage: as for `DnsClient.Client.ParsePacket`.
- NtpClient.Client.ParsePacket: requires datagrams of at least 48 bytes; of a shorter one the code reads on into the next datagram.
- DhcpPacket.ReplyParses: requires option lengths as RFC 2132 fixes them, and even runs of pads, which `DhcpOptions.HarmlessIffEven` shows to be necessary.
- The `secs` field: `seconds_elapsed` subtracts the clock from the start time, so the field counts down from 2^64 ms. The model does the same (`DhcpPacket.SecondsElapsed`); `DhcpPacket.SecsRightIff` says when the result is right all the same. Sessions of 2^64 ms and more are set aside there.
- Two live cache entries under one id: `store` does not replace the older one, so no claim that the newest wins (`DnsCache.StoreThenGet` says which does).
- Names of more than 255 bytes in all, which RFC 1035 forbids, are encoded and decoded like others.
- DNS and NTP `set_server_ip`, NTP `update` and its poll schedule: the shift by the poll interval is meaningful only for small exponents, and the rest is one comparison each.
- NtpClient.Client.Drain: requires datagrams of at least 48 bytes, as `NtpClient.Client.ParsePacket` does; the schedule around it is left out.
- The CRC table is written as rows of eight entries.
