# A verified model of Ghajarvpn's protocol clients, calendar and sales backend

The native helper brings VPN links up by hand-written protocol clients (PPP over
SSTP or L2TP, SoftEther, WebSocket-wrapped SSH); the backend converts dates, sells
prepared configurations and filters repeated Telegram updates. This project models
the parts of both that carry state or arithmetic and proves what they are for.

One module follows one component:

- `Calendar` — the Jalali/Gregorian conversions. Both calendars are also counted day by
  day from their month-length and leap rules; the div/mod algorithms are proved to decode
  and encode that same day number, so they are inverse bijections.
- `PppOptions`, `Ppp` — option lists, control packets and the event loop `pppNegotiate`,
  as steps on a state and a trace of heard and sent items, with methods that run the
  loops of the source against those steps.
- `PppSafety` — properties of every run, read off the trace. `PppKeys` — the key material
  onAuth gets, what a tick repeats, what a timeout names. `PppWire` — the packets byte by
  byte, and exactly what ends the negotiation. `PppExact` — exactly which
  runs keep the order of authentication and IPCP. `PppConvergence` — how refusals are
  obeyed on both sides. `PppSuccess` — with a cooperative server the negotiation cannot fail,
  and exactly when it comes up.
- `Inet`, `SeLink`, `ArpHub`, `Dhcp` — frame and packet building, the Internet checksum,
  one SoftEther port, any number of ports on a hub, and the DHCP parser.
- `PackCodec`, `SeSession` — SoftEther's PACK container and its data-channel framing.
- `WebSocket`, `Handshake` — the SSH transport's framed connection and the stripping of
  HTTP answers from the front of a stream.
- `Sstp` — packet framing and the crypto binding of Call Connected.
- `FlowRecorder` — the budgeted flow log. `ManualStock` — the manual-sale rows under
  requests that run side by side. `Dedupe` — the layered duplicate filter.
- `Bytes` — byte strings, big-endian integers and bits.

Modelling decisions. Sockets are byte sequences, channels and clocks are inputs, and the
outcome of a fallible call (a send, a disk write, a Redis answer, a short read) is a
parameter. Hash, HMAC and MS-CHAPv2 functions are function-valued parameters. Integers
are unbounded; where the source truncates (`byte(...)`, `uint16(...)`, the 32-bit
checksum accumulator, `int64(uint64)`), the model truncates explicitly, and PHP's `%`
and `(int)` on negative numbers are written out. Critical sections under one lock are single
steps. In `ManualStock` each SQL statement is one step and other requests come between them;
in `Dedupe` a whole call is one step.

Hypotheses the results rest on, each a predicate in the module that uses it:

- `PppSafety.Answers`: the peer acks, naks or rejects only IPCP identifiers already sent.
  The code compares an identifier with the current one whether or not a request has gone
  out, so without it the order promised by the comment on `onAuth` can fail;
  `PppExact.OrderKeptExactly` gives the exact condition. `PppSafety.Steady`: the peer does not nak or
  reject an IPCP identifier it has acked.
- `PackCodec.Encodable`: one value type per name, and sizes within the decoder's limits;
  a Unicode string comes back with the NUL the encoder appends.
- `WebSocket.Sendable`: server frames are unmasked and the top bit of a 64-bit length is
  clear.
- `PppSuccess.Benign`: sends succeed and the server cooperates; it refuses nothing, keeps to one
  authentication protocol, and acks or naks the client's IPCP request towards one assignment.
- `ManualStock.Picks`: a purchase or renewal claims a row its query returned; with an
  empty stock a purchase changes no row. `ManualStock.KeepGroups`: other requests neither add
  nor drop rows, nor move them to another group. `ManualStock.RenewalOwnsExactly` is about
  a renewal whose statements follow one another without another request between them.
- `Dedupe.NoRedis`, `TableWorks`, `Forward`: no Redis answer, a working table, a clock
  that does not run back. `RedisAnswers`: one set-if-absent store whose keys live 120 seconds.
  `FileOnly`: Redis and the table down, a file that works and never fills. Calls follow one another; two processes inside the filter at the same
  moment are not covered.

## Model

| member | source | states |
|---|---|---|
| `Calendar.GregorianToJalali` | backend/Faoxima-1.0.0/jdf.php:584-605 | the step-by-step conversion computes `ToJalali`, for every month number 1 to 12 |
| `Calendar.JalaliToGregorian` | backend/Faoxima-1.0.0/jdf.php:608-629 | the step-by-step conversion computes `ToGregorian`, for all integers |
| `Calendar.MonthLoop` | backend/Faoxima-1.0.0/jdf.php:625-627 | the month loop ends in the month and day the recursive walk finds |
| `Calendar.GregorianToDaysCounts` | backend/Faoxima-1.0.0/jdf.php:586-588 | the starting day number equals the days counted year by year and month by month, shifted by one constant |
| `Calendar.JalaliToDaysCounts` | backend/Faoxima-1.0.0/jdf.php:610-611 | the same for the Jalali side, with the leap rule of jcheckdate |
| `Calendar.DaysToJalaliDecodes` | backend/Faoxima-1.0.0/jdf.php:589-603 | every natural day number decodes to a valid Jalali date with exactly that number |
| `Calendar.DaysToGregorianDecodes` | backend/Faoxima-1.0.0/jdf.php:612-627 | every natural day number decodes to a valid Gregorian date with exactly that number |
| `Calendar.ToJalaliDay` | backend/Faoxima-1.0.0/jdf.php:584-605 | a valid Gregorian date becomes a valid Jalali date of the same absolute day |
| `Calendar.ToGregorianDay` | backend/Faoxima-1.0.0/jdf.php:608-629 | a valid Jalali date from 1 January of year 0 on becomes a valid Gregorian date of the same absolute day |
| `Calendar.GregorianRoundTrip` | backend/Faoxima-1.0.0/jdf.php:584-629 | converting any valid Gregorian date of year 0 or later there and back is the identity |
| `Calendar.KnownDates` | backend/Faoxima-1.0.0/jdf.php:584-629 | three known pairs of dates, which fix the distance between the two calendars |
| `Calendar.QuotTruncates` | backend/Faoxima-1.0.0/jdf.php:584-629 | the `(int)` quotients and `%` cut toward zero, also below it |
| `Calendar.JalaliRoundTrip` | backend/Faoxima-1.0.0/jdf.php:584-629 | converting any valid Jalali date of that range there and back is the identity |
| `Calendar.CheckDateIsImage` | backend/Faoxima-1.0.0/jdf.php:492-496 | from Jalali year 1 on, jcheckdate accepts a date if and only if some valid Gregorian date converts to it |
| `Calendar.NextDayCommutes` | backend/Faoxima-1.0.0/jdf.php:584-605 | the next Gregorian day converts to the next Jalali day under jcheckdate's month lengths and leap rule |
| `Calendar.DayOfYearCounts` | backend/Faoxima-1.0.0/jdf.php:12-13 | jdate's day-of-year is the distance from the first day of the Jalali year and stays inside that year |
| `PppOptions.ParseOpts` | native/ghajar-helper/ppp.go:54-64 | the loop returns the option list or the error, as the recursive parser does |
| `PppOptions.PackOpts` | native/ghajar-helper/ppp.go:66-73 | the loop builds the packing of the list |
| `PppOptions.ParsePack` | native/ghajar-helper/ppp.go:54-73 | a list survives packing and parsing if and only if every value is at most 253 bytes |
| `PppOptions.PackParse` | native/ghajar-helper/ppp.go:54-73 | bytes that parse are exactly the packing of what they parse to |
| `PppOptions.DecodeCp` | native/ghajar-helper/ppp.go:75-98 | a framed control packet is decoded into its own fields |
| `PppOptions.SplitExactly` | native/ghajar-helper/ppp.go:83-98 | the protocol and payload read off a frame are exactly those of the four forms: with or without FF 03, one odd byte or two |
| `PppOptions.DecodeExactly` | native/ghajar-helper/ppp.go:242-251 | a frame counts as a packet if and only if its payload is the packet's code, identifier, length and data, with any padding behind |
| `Ppp.ScanLcpOptions` | native/ghajar-helper/ppp.go:260-283 | the scan loop produces the rejected options, the hints and the protocol of `Scan` |
| `Ppp.RewriteLcpOptions` | native/ghajar-helper/ppp.go:305-317 | the nested loops rewrite our LCP options as `RewriteLcp` |
| `Ppp.RewriteIpcpOptions` | native/ghajar-helper/ppp.go:391-406 | the nested loops rewrite our IPCP options as `RewriteIpcp`, or stop when the address is rejected |
| `Ppp.LinkFrom` | native/ghajar-helper/ppp.go:198-208 | the loop fills the link as `ReadLink` |
| `Ppp.HandleLcp` | native/ghajar-helper/ppp.go:253-325 | the LCP branch takes the step `OnLcp`, state and trace |
| `Ppp.HandleIpcp` | native/ghajar-helper/ppp.go:364-409 | the IPCP branch takes the step `OnIpcp`, state and trace |
| `Ppp.LoopHead` | native/ghajar-helper/ppp.go:179-213 | the three tests at the head of the loop, with their failing calls, take the step `Head` |
| `Ppp.Iterate` | native/ghajar-helper/ppp.go:178-417 | one pass of the loop is one `Round` |
| `Ppp.Negotiate` | native/ghajar-helper/ppp.go:118-418 | the whole event loop on any inputs ends in the status and trace of `Run` |
| `PppSafety.RunGood` | native/ghajar-helper/ppp.go:118-418 | the invariant tying the client's variables to its trace holds after every run, whatever the peer does |
| `PppSafety.PapOnlyOverLcp` | native/ghajar-helper/ppp.go:156-230 | in every run, a PAP request is preceded by our LCP acknowledgement and by the peer's acknowledgement of a request we sent, and never occurs under mschapv2 |
| `PppSafety.AuthBeforeNetwork` | native/ghajar-helper/ppp.go:186-230 | with an answering peer, every IPCP request and any link comes after evidence of authentication and after onAuth ran exactly once |
| `PppSafety.IpcpOptionsInForce` | native/ghajar-helper/ppp.go:133-148 | in every reachable state the IPCP options have distinct types, four-byte values and an address, and equal the latest request sent under the current identifier |
| `PppSafety.LinkIsGranted` | native/ghajar-helper/ppp.go:197-213 | a returned link has a non-zero address, and with an answering, steady peer its address and servers are those of the request the peer acked |
| `PppSafety.PapCarriesCredentials` | native/ghajar-helper/ppp.go:150-155 | a server reading a PAP request recovers the user and the password if and only if both are shorter than 256 bytes |
| `PppSafety.ResponseFields` | native/ghajar-helper/ppp.go:346-350 | the CHAP response lays out peer challenge, zeros, NT response, flag and name |
| `PppKeys.KeyIsProved` | native/ghajar-helper/ppp.go:337-363 | in every run each onAuth call gets the key material of the last CHAP Success before it whose proof held for the challenge then in force, and nothing if there was none |
| `PppKeys.TickResends` | native/ghajar-helper/ppp.go:222-230 | in every run a tick repeats, unchanged, the latest request still to be answered: LCP until acked, then PAP until authenticated, then IPCP until acked |
| `PppKeys.TimeoutNames` | native/ghajar-helper/ppp.go:231-240 | the stage a timeout names is IPCP if and only if authentication has been settled, and before that authentication if and only if LCP is acked both ways |
| `PppWire.FirstLcpRequest` | native/ghajar-helper/ppp.go:123-125 | the bytes of the first request, for any MTU |
| `PppWire.FirstIpcpRequest` | native/ghajar-helper/ppp.go:133-148 | the bytes of the first IPCP request |
| `PppWire.EchoAnswered` | native/ghajar-helper/ppp.go:320-321 | an Echo-Request is answered with its identifier and our magic number |
| `PppWire.TerminateAnswered` | native/ghajar-helper/ppp.go:322-324 | a Terminate-Request is acked and ends the negotiation |
| `PppWire.UnknownRejected` | native/ghajar-helper/ppp.go:410-416 | a packet of any other protocol comes back whole in a Protocol-Reject under the next identifier |
| `PppWire.ChallengeAnswered` | native/ghajar-helper/ppp.go:339-352 | a challenge is answered with the peer challenge, eight zeros, the NT response to that challenge, a zero flag and the name |
| `PppWire.IpcpRequestAnswered` | native/ghajar-helper/ppp.go:364-382 | an IPCP request is acked if it carries addresses only, and otherwise exactly its other options are rejected, in order |
| `PppWire.EndsExactly` | native/ghajar-helper/ppp.go:118-418 | in every run a frame ends the negotiation exactly for one of seven reasons, and with that one |
| `PppWire.LcpRefusalAnswered` | native/ghajar-helper/ppp.go:298-319 | a Nak or Reject of the current LCP request draws the amended request under the next identifier, one of an older request nothing |
| `PppWire.IpcpRefusalAnswered` | native/ghajar-helper/ppp.go:387-408 | the same for IPCP, where rejecting the address fails |
| `PppWire.HeadExactly` | native/ghajar-helper/ppp.go:179-213 | what is due at the head of a round, in its order and once, which failing call ends the negotiation, and when there is no address |
| `PppExact.RunExact` | native/ghajar-helper/ppp.go:118-418 | after every run, authOK holds if and only if the trace shows evidence of authentication, and the order is kept if and only if nothing was refused early |
| `PppExact.OrderKeptExactly` | native/ghajar-helper/ppp.go:105-107 | in every run, each IPCP request follows authentication and the one onAuth call if and only if no Nak or Reject of the first IPCP identifier (other than a Reject of the address) arrives before a request is out; and then any link does too |
| `PppExact.OrderCanFail` | native/ghajar-helper/ppp.go:387-408 | for every configuration, the one-event run in which the order fails |
| `PppExact.AnsweringIsNotPremature` | native/ghajar-helper/ppp.go:383-408 | a peer that answers only identifiers already sent meets that condition |
| `PppConvergence.ScanMeans` | native/ghajar-helper/ppp.go:260-283 | the scan rejects exactly the options the client never takes, and hints if and only if an authentication option is unwanted |
| `PppConvergence.AnswerIs` | native/ghajar-helper/ppp.go:260-296 | the answer is a Reject of all options never taken, else a hint for each unwanted authentication, else the Ack of the same bytes |
| `PppConvergence.AckTakesProtocol` | native/ghajar-helper/ppp.go:286-296 | an acked request sets the protocol of its last authentication option |
| `PppConvergence.AnswerIsSent` | native/ghajar-helper/ppp.go:255-296 | in every state, a request whose options parse is answered with that verdict; one that is acked brings the peer's side up and counts as authenticated if and only if it asks for no authentication or it already was; any other changes nothing |
| `PppConvergence.AcknowledgedByThird` | native/ghajar-helper/ppp.go:156-170 | a peer that drops rejected options and adopts the hint is acknowledged, byte for byte, by its third request, whatever it starts from |
| `PppConvergence.LcpRejectObeyed` | native/ghajar-helper/ppp.go:301-319 | a Reject removes exactly the named options from our LCP request |
| `PppConvergence.LcpRejectInOrder` | native/ghajar-helper/ppp.go:301-319 | the options that stay keep their order |
| `PppConvergence.LcpNakObeyed` | native/ghajar-helper/ppp.go:301-319 | a Nak keeps our options in place, each with the last value offered for its type |
| `PppConvergence.IpcpRejectObeyed` | native/ghajar-helper/ppp.go:387-408 | an IPCP Reject fails if and only if it names the address, and otherwise removes exactly the named options |
| `PppConvergence.IpcpRejectInOrder` | native/ghajar-helper/ppp.go:387-408 | the options that stay keep their order |
| `PppConvergence.IpcpNakObeyed` | native/ghajar-helper/ppp.go:387-408 | an IPCP Nak never fails and gives each option the last four-byte value offered for its type |
| `PppSuccess.ComesUpExactly` | native/ghajar-helper/ppp.go:118-418 | with a cooperative server asking for no authentication, PAP or MS-CHAPv2, its packets in any order and number between ticks and other frames: the negotiation never fails, and it is up with exactly the assigned address and servers if and only if a request of the server and a request of the client have been acked before the last round |
| `PppSuccess.CanComplete` | native/ghajar-helper/ppp.go:118-418 | after every such run the server has packets left to send that bring the link up as assigned |
| `Inet.SumWords` | native/ghajar-helper/softether.go:574-580 | the two adding statements compute the word sum modulo 2^32, on buffers of any length |
| `Inet.FoldSum` | native/ghajar-helper/softether.go:581-583 | the folding loop ends, with the one's-complement value of the sum |
| `Inet.IpChecksum` | native/ghajar-helper/softether.go:573-585 | the whole loop computes `Checksum` |
| `Inet.OddIsPadded` | native/ghajar-helper/softether.go:578-580 | an odd buffer sums like the buffer padded with a zero |
| `Inet.SumFits` | native/ghajar-helper/softether.go:574-580 | the 32-bit accumulator cannot wrap on buffers of up to 2^17 bytes |
| `Inet.ChecksumVerifies` | native/ghajar-helper/softether.go:573-585 | storing the checksum in any zeroed aligned word makes the buffer verify |
| `Inet.UdpHeaderVerifies` | native/ghajar-helper/softether.go:588-603 | every built IPv4 header verifies at the receiver |
| `Inet.UdpFields` | native/ghajar-helper/softether.go:588-603 | every byte of a built packet but the checksum is where RFC 791 and RFC 768 put it |
| `Inet.EthFrameParts` | native/ghajar-helper/softether.go:549-556 | a built frame, with any trailer, is sliced back into its parts |
| `Inet.ArpPacketParts` | native/ghajar-helper/softether.go:558-571 | a built ARP packet is sliced back into its fields |
| `SeLink.Link.SendPacket` | native/ghajar-helper/softether.go:701-725 | sendIP changes the port and the wire as `SendIP` |
| `SeLink.Link.ReceiveFrame` | native/ghajar-helper/softether.go:727-776 | handleFrame changes the port and the wire as `HandleFrame`, on any bytes |
| `SeLink.RoutedThrough` | native/ghajar-helper/softether.go:701-725 | a packet goes to its own address if the prefix bits agree or there is no router, else through the router: in a frame to the cached hardware address, or after at most one broadcast request a second; all bytes given |
| `SeLink.PrefixIsOnLink` | native/ghajar-helper/softether.go:703-704 | the quotients compare exactly the first prefix bits, bit by bit |
| `SeLink.OthersReachTun` | native/ghajar-helper/softether.go:753-776 | an IPv4 packet that is no DHCP datagram reaches the tun device cut to its total length, under any trailer, and nothing else changes |
| `SeLink.OthersIgnored` | native/ghajar-helper/softether.go:727-734 | a frame for another port changes nothing |
| `SeLink.DhcpDelivered` | native/ghajar-helper/softether.go:727-769 | a datagram to port 68, wrapped and padded by any trailer, reaches the DHCP channel byte for byte when there is room, and nothing else changes |
| `ArpHub.RunKeeps` | native/ghajar-helper/softether.go:701-752 | after any steps of any ports, with frames lost, repeated and reordered, every ARP frame in the air names its true sender and every cache entry its true holder |
| `ArpHub.CachesNeverLie` | native/ghajar-helper/softether.go:737-752 | in every run a cached address maps to the hardware address of the port holding it |
| `ArpHub.UnicastReachesHolder` | native/ghajar-helper/softether.go:701-725 | in every run a packet to a cached next hop leaves in one frame to the holder, and every other port ignores that frame |
| `ArpHub.ResolutionCompletes` | native/ghajar-helper/softether.go:710-752 | a packet to an uncached next hop, not asked for within the last second, becomes a request; heard by the holder and its answer heard back, both ports know each other, and the packet then goes straight to the holder |
| `Dhcp.ParseDhcp` | native/ghajar-helper/softether.go:635-685 | the index loop stays in bounds, ends on every input, and equals a left fold over the option list |
| `Dhcp.OptionsEncode` | native/ghajar-helper/softether.go:641-653 | options written with any padding are read back in order, whatever follows the end mark |
| `Dhcp.FoldServers` | native/ghajar-helper/softether.go:668-671 | the reply's servers are all option-6 addresses, in message order |
| `Dhcp.FoldLatest` | native/ghajar-helper/softether.go:654-680 | every other field holds the last option of its type with a usable length |
| `Dhcp.ReplyExactly` | native/ghajar-helper/softether.go:635-640 | a message is taken if and only if it has 240 bytes, the reply operation, the transaction and the cookie; its address is at offset 16 and its fields are the last usable options |
| `Dhcp.MaskLengthExactly` | native/ghajar-helper/softether.go:658-662 | a mask option means n if and only if its first n bits are set and no other |
| `Dhcp.AddressesAre` | native/ghajar-helper/softether.go:668-671 | an option value is cut into its four-byte addresses in order |
| `Dhcp.MessageOptions` | native/ghajar-helper/softether.go:612-633 | a sent message carries its type, client identifier, host name, parameter list and the extra options, readable by the same scanner |
| `Dhcp.FixedFields` | native/ghajar-helper/softether.go:612-622 | the fixed part of a sent message, field by field |
| `PackCodec.Pack.AddValue` | native/ghajar-helper/softether.go:126-131 | add changes the pack as `Add` and keeps names distinct and values non-empty |
| `PackCodec.BuildValues` | native/ghajar-helper/softether.go:126-131 | after any adds a name holds exactly the values added under it, in order |
| `PackCodec.BuildOrder` | native/ghajar-helper/softether.go:126-131 | after any adds the names stand in the order of their first add |
| `PackCodec.Pack.MarshalPack` | native/ghajar-helper/softether.go:160-187 | the loops write the wire format of the pack |
| `PackCodec.UnmarshalPack` | native/ghajar-helper/softether.go:189-251 | the loops accept and build what `Unmarshal` does, in bounds on every input |
| `PackCodec.RoundTrip` | native/ghajar-helper/softether.go:160-251 | decoding a marshalled pack followed by any bytes gives its names, in order, and its values, Unicode strings with one extra NUL |
| `PackCodec.UnmarshalExactly` | native/ghajar-helper/softether.go:189-251 | the decoder accepts exactly the streams that start with a count and that many elements within the limits, and builds what adding their values in turn builds |
| `PackCodec.OnePack` | native/ghajar-helper/softether.go:160-187 | the bytes of an element of each of the five types |
| `SeSession.Session.Send` | native/ghajar-helper/softether.go:477-488 | a batch becomes the next record on the wire |
| `SeSession.Session.SendKeepAlive` | native/ghajar-helper/softether.go:490-500 | a keep-alive becomes the next record on the wire |
| `SeSession.Session.Receive` | native/ghajar-helper/softether.go:503-543 | recv returns and leaves on the stream what `Recv` does, with its four errors |
| `SeSession.AllArrive` | native/ghajar-helper/softether.go:477-543 | for any sequence of batches and keep-alives within the limits, successive recv calls return exactly those batches, empty for a keep-alive |
| `SeSession.RecvExactly` | native/ghajar-helper/softether.go:503-543 | recv takes exactly what some record within its limits puts on the wire, and returns its frames |
| `SeSession.RefusedExactly` | native/ghajar-helper/softether.go:503-543 | the counts and keep-alive lengths recv gives up on |
| `SeSession.RecordBytes` | native/ghajar-helper/softether.go:477-500 | the bytes of a batch and of a keep-alive |
| `WebSocket.WsConn.NextFrame` | native/ghajar-helper/sshtransport.go:339-376 | the header loop ends where `Seek` does, on any bytes, with exactly what is unread then, also after a failure |
| `WebSocket.WsConn.ReadInto` | native/ghajar-helper/sshtransport.go:336-383 | Read returns what `Read` does and leaves the connection as `Read` does, also after an error |
| `WebSocket.ReadsArePrefix` | native/ghajar-helper/sshtransport.go:336-383 | for any unmasked frames, buffer sizes, short reads and cut of the stream: no Read crashes, the results up to the first error are a prefix of the data payloads before the first Close, left is what the current frame still owes, and when the Close is reported everything was delivered and the stream stands behind its header |
| `WebSocket.ReadingOnExactly` | native/ghajar-helper/sshtransport.go:336-383 | reading on past errors, all runs stay within those payloads if and only if the bytes behind the Close header do not themselves read as a stream that reaches data |
| `WebSocket.MuteExactly` | native/ghajar-helper/sshtransport.go:336-383 | from any connection, some further Reads hand out a byte if and only if what is unread reaches a byte of data, over any number of Closes |
| `WebSocket.EmptyCloseIsSafe` | native/ghajar-helper/sshtransport.go:364-366 | after a Close without payload and with nothing behind it, reading on hands out nothing more |
| `WebSocket.CloseReasonIsRead` | native/ghajar-helper/sshtransport.go:364-366 | a Close whose reason is read as a frame: the second Read hands out its last byte |
| `WebSocket.CrashExactly` | native/ghajar-helper/sshtransport.go:357-362 | a Read crashes if and only if an earlier one did, or the first non-empty data frame it comes to has a 64-bit length with the top bit set |
| `WebSocket.NegativeLengthCrashes` | native/ghajar-helper/sshtransport.go:376-380 | the shortest such frame, which every Read crashes on |
| `WebSocket.ReadProgresses` | native/ghajar-helper/sshtransport.go:336-383 | on an uncut stream every Read with room yields data while data is owed |
| `WebSocket.WriteFrame` | native/ghajar-helper/sshtransport.go:309-334 | Write's masking loop builds the frame `Written` |
| `WebSocket.WrittenIsRead` | native/ghajar-helper/sshtransport.go:309-334 | a receiver finds one final masked binary frame of the right length with the key in front; flipping the key's bits in its body gives what was written, and no other body does |
| `WebSocket.XorBit` | native/ghajar-helper/sshtransport.go:326-329 | a bit of a masked byte is set if and only if exactly one of byte and key byte has it |
| `WebSocket.WrittenBytes` | native/ghajar-helper/sshtransport.go:309-325 | the header bytes of a written frame in its three length forms |
| `Handshake.Shake` | native/ghajar-helper/sshtransport.go:192-257 | the nested loops, with every timeout and failure, also inside a status line or a header, end in `Connect` |
| `Handshake.ConnectStrips` | native/ghajar-helper/sshtransport.go:192-257 | on success the stream is a run of complete HTTP blocks, only the last of them 101 or 2xx, followed by exactly what the connection delivers; framing is on only after a 101 |
| `Handshake.AnswerTaken` | native/ghajar-helper/sshtransport.go:203-246 | one answer is taken off whole; 101 and 200 to 299 hand the stream over at once, any other code hands it over after a silence, fails when the connection ends, and else is followed by the next round |
| `Handshake.NothingTaken` | native/ghajar-helper/sshtransport.go:195-202 | a stream that does not start with HTTP is handed over untouched |
| `Handshake.BlocksConsumed` | native/ghajar-helper/sshtransport.go:195-246 | on a flowing stream complete blocks are consumed whole and the rest is delivered |
| `Sstp.Stream.WritePacket` | native/ghajar-helper/sstp.go:63-79 | a packet is appended to the wire, or refused for its size |
| `Sstp.Stream.ReadPacket` | native/ghajar-helper/sstp.go:81-98 | readPacket returns and leaves what `Read` does, with its errors |
| `Sstp.AllArrive` | native/ghajar-helper/sstp.go:63-98 | any packets written in a row are read back one by one |
| `Sstp.WriteExactly` | native/ghajar-helper/sstp.go:63-79 | a packet is refused if and only if it does not fit the 12-bit length; else these are its bytes |
| `Sstp.ReadExactly` | native/ghajar-helper/sstp.go:81-98 | readPacket takes exactly the packets of version 1.0, and tells a bad version from a bad length |
| `Sstp.PppArrives` | native/ghajar-helper/sstp.go:122-128 | a PPP frame sent over SSTP arrives and is split into its protocol and payload |
| `Sstp.BuildCallConnected` | native/ghajar-helper/sstp.go:302-333 | the buffer filled, authenticated and overwritten is `CallConnected` |
| `Sstp.ServerAgrees` | native/ghajar-helper/sstp.go:302-333 | the authenticated packet is the sent packet with only its MAC field zeroed, and that field holds the MAC of exactly those bytes under the key derived from HLAK, or from zeros without one, with SHA-256 for protocol 2 and SHA-1 otherwise |
| `Sstp.BindingFields` | native/ghajar-helper/sstp.go:310-316 | the sent message holds the hash protocol, the nonce and the certificate hash in their fields |
| `FlowRecorder.Recorder.AddChunk` | native/ghajar-helper/dpirelay.go:40-60 | add changes the recorder as `Add` |
| `FlowRecorder.Recorder.FlushOnce` | native/ghajar-helper/dpirelay.go:62-73 | a flush writes the buffer at most once |
| `FlowRecorder.KeptMeans` | native/ghajar-helper/dpirelay.go:43-56 | the reference log keeps, in order, prefixes of the first chunks, within both limits, and stops only when one is reached |
| `FlowRecorder.LogIsFaithful` | native/ghajar-helper/dpirelay.go:32-73 | after any calls the buffer decodes to the header and that log, bytes plus remaining budget is the initial budget, records stay within their limit, and a file equals the buffer |
| `FlowRecorder.WrittenExactly` | native/ghajar-helper/dpirelay.go:40-73 | in every run the recorder stops at the first flush or the chunk that meets a limit, whichever comes first, and the file is there, whole, if and only if the disk took it then |
| `FlowRecorder.WrittenIsFinal` | native/ghajar-helper/dpirelay.go:40-73 | once written, no calls change the buffer or the file |
| `ManualStock.Stock.CreateUser` | backend/Faoxima-1.0.0/panels.php:290-313 | a purchase changes the rows as `Buy` of the picked row, with anything other requests do between its statements |
| `ManualStock.Stock.RemoveUser` | backend/Faoxima-1.0.0/panels.php:1310-1315 | a removal marks exactly the user's rows deleted |
| `ManualStock.RemovalDeletes` | backend/Faoxima-1.0.0/panels.php:1310-1315 | each row the user owns becomes deleted with everything else kept, and every other row stays as it was |
| `ManualStock.RemovedIsGone` | backend/Faoxima-1.0.0/panels.php:1310-1315 | right after a removal in any interleaved run every row the user owns is deleted, and no other row or request has changed |
| `ManualStock.Stock.Extend` | backend/Faoxima-1.0.0/panels.php:1950-1991 | a renewal changes the rows as `Renew`, with anything other requests do between its statements, and fails only when the panel has no stock at all |
| `ManualStock.Stock.Release` | backend/Faoxima-1.0.0/panels.php:1971-1985 | the first UPDATE of a renewal takes away all other rows of the user |
| `ManualStock.ReleaseDeletes` | backend/Faoxima-1.0.0/panels.php:1971-1985 | a release deletes and disowns exactly the user's rows outside the picked bundle |
| `ManualStock.BundleIs` | backend/Faoxima-1.0.0/panels.php:301-313 | a bundle is the rows of one group, or the row alone when its group is absent, empty or "0" |
| `ManualStock.Stock.ClaimPicked` | backend/Faoxima-1.0.0/panels.php:301-313 | the claiming UPDATEs sell the active rows of the group, or the one row in two statements, as `Claim` |
| `ManualStock.WholeRequest` | backend/Faoxima-1.0.0/panels.php:290-313 | the statements of a request, run as steps without interruption, do what createUser or extend does |
| `ManualStock.PurchaseClaimsBundle` | backend/Faoxima-1.0.0/panels.php:301-313 | a purchase whose picked row nobody touches before it is claimed sells the whole bundle to the user and leaves every other row as the other requests left it |
| `ManualStock.BundlesStayUniform` | backend/Faoxima-1.0.0/panels.php:290-313 | in every run of any purchases, renewals and removals, interleaved statement by statement, all rows of a group agree in status and owner, stock is unowned, and a sold row has an owner unless its claim is half done |
| `ManualStock.SoldOnceExactly` | backend/Faoxima-1.0.0/panels.php:1950-1991 | in such a run a row only moves from active to selled to deleted and a sold row never gets a second owner if and only if no half of an ungrouped claim meets a row that was deleted or named in the meantime; grouped claims need no condition |
| `ManualStock.SoldTwice` | backend/Faoxima-1.0.0/panels.php:290-313 | the run of two purchases that pick the same ungrouped row: it passes from the first buyer to the second |
| `ManualStock.ExclusiveIsSafe` | backend/Faoxima-1.0.0/panels.php:290-313 | when no two unfinished requests hold the same ungrouped row, in particular one request at a time, nothing is sold twice |
| `ManualStock.ClaimOwnsExactly` | backend/Faoxima-1.0.0/panels.php:1971-1991 | the UPDATE that completes a claim leaves the user with exactly the bundle if and only if the user owned nothing else and a bundle was still in stock or already the user's |
| `ManualStock.RenewalOwnsExactly` | backend/Faoxima-1.0.0/panels.php:1971-1991 | after an uninterrupted renewal in any run from consistent stock the user owns exactly the newly claimed rows, all of them sold |
| `Dedupe.Tracker.IsDuplicate` | backend/Faoxima-1.0.0/botapi.php:2653-2783 | the layers, in order, give the answer and the new state of `Check`, and an eviction keeps the 200 newest entries |
| `Dedupe.Tracker.DropExpired` | backend/Faoxima-1.0.0/botapi.php:2664-2668 | the expiry loop keeps exactly the entries of at most 120 seconds |
| `Dedupe.Tracker.Evict` | backend/Faoxima-1.0.0/botapi.php:2719-2722 | dropping oldest entries leaves exactly 200, none older than one dropped |
| `Dedupe.NeverNewTwice` | backend/Faoxima-1.0.0/botapi.php:2653-2783 | no positive update id is answered new twice within 120 seconds, whatever the file evicts or loses and however often processes restart |
| `Dedupe.RedisExactly` | backend/Faoxima-1.0.0/botapi.php:2674-2683 | while Redis answers every call, an id is answered duplicate if and only if it was accepted at most 120 seconds before; within the last second it may be new if the key is already gone |
| `Dedupe.FileExactly` | backend/Faoxima-1.0.0/botapi.php:2684-2745 | while memory and file have to do, an id is answered duplicate if and only if it was accepted at most 120 seconds before by any process |
| `Dedupe.DuplicatesWereSeen` | backend/Faoxima-1.0.0/botapi.php:2653-2783 | every duplicate answer is for an id submitted at most 180 seconds before |
| `Dedupe.OldDuplicateExactly` | backend/Faoxima-1.0.0/botapi.php:2761-2771 | an id all of whose calls are more than 120 seconds old is answered duplicate if and only if its row is still there, the insert works, and the clean-up of the answering process is not due |
| `Dedupe.LateDuplicatesExactly` | backend/Faoxima-1.0.0/botapi.php:2653-2783 | the same after every run |
| `Dedupe.LateDuplicate` | backend/Faoxima-1.0.0/botapi.php:2761-2771 | a run in which an id 121 seconds old is still answered duplicate, because no clean-up is due |

## Left out

- Where the code and its own constant disagree: the 120-second time-to-live of the duplicate
  filter is not exact; a table row lives up to a minute longer. `Dedupe.LateDuplicatesExactly`
  says exactly when, and `Dedupe.LateDuplicate` is such a run.
- Calendar.GregorianRoundTrip: PHP divides as floating point before `(int)`; the model divides exactly, so years beyond the 53-bit range are not covered, and negative years are not claimed.
- Handshake.ConnectStrips: reading the status code out of a status line (`strings.Fields`, `strconv.Atoi`) is a parameter.
- ManualStock.BundlesStayUniform: an administrator adding, editing or deleting stock rows while requests run is not a step.
- SeLink.Link.SendPacket: without an address of its own the port would crash on building an ARP request, where the model writes zeros; the program sends only with a lease.
- SeLink.Link.ReceiveFrame: packet writes to the tun device always succeed.
- Payload placeholder expansion and `splitPayload`, dialing, certificate pinning, flag parsing, the SOCKS5 server and the tun pumps: plumbing with easy members.
- The DHCP exchange `dhcp` (retries and timeouts), lease renewal and the SoftEther login: sequences of sends already modelled.
- MS-CHAPv2, MD4, DES, SHA and HMAC internals; random numbers, real time and `log` output.
- jdate and jstrftime formatting, digit translation (`tr_num`), the rest of panels.php and botapi.php, and the Android application.
