# A verified model of the AAA proxy, its devices and the web library they use

The program connects web clients to small devices. A proxy takes an HTTP request, picks a device
by the first segment of the target, and carries the request over datagrams with a two-byte "AAA"
header: the text is cut into at most 127 fragments, numbered down to 1, and each fragment is
resent until an acknowledgement arrives. The device puts the fragments together, parses the
request, serves it from a small store of files, and sends the response back the same way. The
messages, and the server and client for web front ends, come from a vendored copy of
Simple-Web-Server.

The model follows the source's own form. Objects that change in place are classes with the same
fields (`Proxy.Proxy`, `Device.Device`, `Reader.Connection`, `ConnectionPool.Client`,
`ScopeRunner.Runner`), loops are loops, and every such method is proved equal to a function of
the old state. The properties are proved about those functions, and about the step systems that
interleave them.

- **Protocol.** `Aaa` (header bits), `Fragments`, `ProxyLink` and `DeviceLink` (one step of each
  loop, and whole loops against any replies), `Sessions`, `Proxy` and `Device` (the objects).
  `StopAndWait` is one request over a network that loses, duplicates, delays and reorders.
  `Exchange` is any number of requests to any number of devices over reliable first-in-first-out
  channels, in every interleaving in which no receive timeout fires while anything else can
  happen (a *timely* run). `DeviceNode` relates the device's object to `Exchange`. `EarlyTimeout` and
  `Timeouts` are the runs with early timeouts. `Program` puts parser, handler and files into
  `Exchange`.
- **Device.** `FileStore` (handler and files), `Routing` (proxy's and device's view of a target).
- **Concurrency.** `ScopeRunner` and `ConnectionPool`, both for any number of calls or requests.
- **Messages.** `HttpText`, `HttpParse`, `HttpMessages`, `Percent`, `QueryString`, `Attributes`,
  `Numbers`, and the incremental readers: `Reader`, `Chunked`, `Wire`, `RoundTrips`, and `Delimiters`
  (where a body ends, for any head).

Where a promised property does not hold of the code, the model keeps the code, and states exactly
when the property holds:

- A normal return of `SendDataDevice` guarantees exact delivery on an unreliable network only for
  data that fits one packet, and this is so even if the network does no worse than lose packets
  (`Program.DeliveryExactIff`). An ERROR resets the device's session and counter but not its
  buffer. With two or more fragments a lost acknowledgement alone makes the proxy throw
  (`StopAndWait.LostAckThrows`); if the ERROR that answers the resent fragment is lost as well, the
  device parses the first fragment twice and the proxy returns normally
  (`StopAndWait.LostAckAndErrorCorrupt`).
- The proxy waits 80 ms for an acknowledgement. If that is too short for a device, on channels that
  lose nothing, one timeout is enough for harm. The device takes the resent packet for a missing
  acknowledgement of its own, and takes any acknowledgement for the one it waits for. A request of
  several fragments ends in an exception (`EarlyTimeout.EarlyTimeoutThrows`). A response of several
  fragments comes back with its first fragment twice, and nothing is thrown
  (`EarlyTimeout.EarlyTimeoutCorrupts`). Otherwise a second copy of the response is left, and makes
  the next request throw (`EarlyTimeout.EarlyTimeoutFails`). The exact condition
  (`Timeouts.RightIff`, `Program.EarlyTimeoutsIff`): with 1 to 13 timeouts every run is right if and
  only if at most one request is for a configured device, and it and its response fit one packet
  each; with more, if and only if there is no such request. The other results about `Exchange` and
  `Program` are for timely runs, in which no timeout fires at all, for something else can always
  happen (`Exchange.TimeoutIsEarly`).
- The 128th to the 255th request to a device can never be delivered: the session number is a
  signed char, and the seven bits on the wire never equal a negative one
  (`Sessions.DeliverableIff`). Its header bits also spill into the count (`Aaa.HeaderExactIff`).
- Acknowledgements with the wrong number keep the send loop resending for as long as they come
  (`ProxyLink.WrongNumbersNeverEnd`). Within 127 requests to a device its left-over
  acknowledgements do no harm (`Sessions.LeftOverNeverAdvances`), but session numbers are fresh per
  device only, and one device's can be taken for another's (`Sessions.StaleAckAdvancesIff`).
- The header loop never ends on a stream in which every line has a colon
  (`HttpParse.DivergesIff`), and stops early at a line without one
  (`HttpParse.BlankLineReachedIff`). One packet with a request that breaks off in a field catches a
  device for good (`Device.CaughtIff`, `Device.CaughtByCutOff`).
- Behind a response after which the server closes the connection no length is sent, and the client
  looks for a field named "Session". Without it the client sees only the part of the content that
  has arrived with the head: all of it if nothing is left on the network (`RoundTrips.RecoveredIn`),
  but not under every slicing (`RoundTrips.ContentRecoveredIff`).
- Bytes behind a message that arrive with its head become part of its content, so what is seen
  depends on the slicing exactly when something follows (`RoundTrips.RequestSlicingIff`,
  `RoundTrips.ResponseSlicingIff`). Behind a chunked body they end up in front of the content
  (`Chunked.ReadPipelined`, `Chunked.ReadBothWays`).
- A device with an empty name is selected for targets that start with two slashes, and answers
  "Wrong device." (`Routing.WrongDeviceIff`, `Program.WrongDeviceInRun`).

Two decisions about text. A `std::string` is a `string`; bytes are characters below 256 where it
matters (`Percent.IsBytes`). A `CaseInsensitiveMultimap` is a sequence of fields in one order in
which a loop may visit them.

## Model

| member | source | states |
|---|---|---|
| Aaa.BuildHeader | src/proxy/proxy.cpp:229-233 | the getters read back what `SendPacket` wrote into a zeroed header: type, low seven bits of the session, and the count, unless the session's bit seven is set, which makes the count odd |
| Aaa.SetCount | src/common/aaa.cpp:47-50 | the low seven bits of a count straddle both bytes, the session bits are unchanged, and so are the type bits unless the count, a signed char, is negative: then they say ERROR |
| Aaa.OnWireMatchesHeader | src/common/aaa.cpp:41-58 | the arithmetic of `OnWire`, used by the protocol, is what the bit operations do |
| Aaa.GettersRead | src/common/aaa.cpp:12-58 | of any two bytes the getters read the type from the upper two bits, the session from the lower seven, and the count from what is between, in arithmetic without bit operations |
| Aaa.HeaderExactIff | src/common/aaa.cpp:56-58 | a header carries every count next to a session exactly when the session is not negative |
| Fragments.ChunkData | src/common/utility.cpp:8-16 | the loop yields the specified chunks, for any text and any size above zero |
| Fragments.ChunksShape | src/common/utility.cpp:8-16 | chunks concatenate to the data, all but the last are full, none is empty or too long |
| Fragments.ChunkCount | src/common/utility.cpp:8-16 | there are length divided by size, rounded up, many |
| Program.FragmentPackets | src/proxy/proxy.cpp:141-150 | packet numbers run from the number of fragments strictly down to 1, survive the header, and every packet fits the configured size |
| ProxyLink.SendBound | src/proxy/proxy.cpp:148-185 | whatever the replies: at most 14 DATA sends per remaining fragment, less retries spent, plus one per wrong-number or wrong-session acknowledgement; one send per reply while the loop goes on |
| ProxyLink.SendTerminates | src/proxy/proxy.cpp:148-185 | hence the loop has ended after 14 replies per fragment and one per stray |
| ProxyLink.WrongNumbersNeverEnd | src/proxy/proxy.cpp:158-164 | acknowledgements with a wrong number leave index and retry counter alone, however many come |
| ProxyLink.SpendsRetries | src/proxy/proxy.cpp:168-185 | every timeout and every acknowledgement of another session costs one retry |
| ProxyLink.SendsTheFragment | src/proxy/proxy.cpp:148-185 | before each reply the DATA packet of the fragment at which the loop stands is sent, and after it what the reply draws |
| ProxyLink.SaysToReply | src/proxy/proxy.cpp:158-173 | an ERROR with code 1 to a packet that is no acknowledgement, with code 3 to an acknowledgement of another session, else nothing |
| ProxyLink.HowSendingEnds | src/proxy/proxy.cpp:148-185 | once the replies have reached a fragment by acknowledgements, each perhaps behind up to 13 others: 14 timeouts, or 13 timeouts and foreign acknowledgements before a timeout, end in the one exception, a packet of another type in the other; acknowledgements for all fragments end in a normal return |
| ProxyLink.CollectedText | src/proxy/proxy.cpp:190-223 | a returned response is the payloads of the DATA packets in order of arrival, duplicates included, up to the first packet with number 1, all of the current session |
| ProxyLink.HowCollectingEnds | src/proxy/proxy.cpp:190-223 | whatever was collected before: a timeout or a packet of another session throws, the packet with number 1 ends the response, and every DATA packet is acknowledged under its number |
| DeviceLink.RespondBound | src/device/device.cpp:298-324 | whatever the replies: at most 13 sends per remaining fragment, all of them DATA |
| DeviceLink.RespondTerminates | src/device/device.cpp:298-324 | hence `SendData` has stopped after 13 replies per fragment |
| DeviceLink.ReceiveMeans | src/device/device.cpp:50-105 | for every packet in every state: the expected DATA packet adds its payload, is acknowledged with its number and session, and completes the text if its number is 1; any other packet resets session and counter but not the text, and draws an ERROR with the code of the first thing that is wrong |
| DeviceLink.RespondsWithTheFragment | src/device/device.cpp:298-324 | before each reply the DATA packet of the fragment at which `SendData` stands is sent |
| DeviceLink.HowRespondingGoesOn | src/device/device.cpp:298-324 | at each fragment up to 12 other replies are borne and the 13th ends the response, as does an ERROR; any acknowledgement brings the next fragment |
| StopAndWait.SafeWithoutError | src/device/device.cpp:50-125 | over the unreliable network, in every reachable state before an ERROR: the buffer is the first a fragments with i <= a <= i+1, the first text handed to the parser is the data, and a normal return means it was handed over |
| StopAndWait.ReturnMeansDelivered | src/proxy/proxy.cpp:138-188 | also after ERRORs a normal return means that a text was handed over which consists of the accepted fragments in order: all fragments, none before its predecessor; it is the data if and only if none was accepted twice |
| StopAndWait.LossyReachable | src/device/device.cpp:50-125 | a network that delivers in order, at most once, is a special case of the unreliable one |
| StopAndWait.LostAckThrows | src/proxy/proxy.cpp:169-173 | for every data of two or more fragments: a run with one lost acknowledgement and nothing else in which the proxy throws |
| StopAndWait.LostAckAndErrorCorrupt | src/device/device.cpp:61-73 | for every such data: a run in which that acknowledgement and the ERROR are lost, two timeouts fire, the device parses the first fragment twice and the proxy returns normally |
| StopAndWait.AlwaysExactIffOneFragment | src/proxy/proxy.cpp:138-188 | every normal return is an exact delivery if and only if there is one fragment: on the unreliable network, and on one that only loses |
| Program.DeliveryExactIff | src/proxy/proxy.cpp:138-188 | the same for data and configured size: if and only if the data fits one packet |
| Exchange.RunRefinesCalls | src/proxy/proxy.cpp:72-110 | in every timely run, in every interleaving over reliable channels, every response handed back is what one plain call of the device's handler gives, and nothing is thrown |
| Exchange.StoresInRun | src/device/device.cpp:106-125 | in every timely run every device's own store is what the calls answered so far have made of it, or also the call under way |
| Exchange.EveryRunCompletes | src/proxy/proxy.cpp:190-223 | every timely run is finite with a stated bound, and one that cannot go on has answered every request with both directions empty and every device idle with an empty buffer |
| Exchange.BetweenExchanges | src/device/device.cpp:106-125 | in every timely run, whenever the proxy waits for a client, nothing is on the way to it, and every device is idle with an empty buffer; at most the acknowledgement of its last response is on the way to it |
| Exchange.StepRank | src/device/device.cpp:288-327 | every step of a timely run lowers the number of steps left by exactly one |
| Exchange.NextMove | src/proxy/proxy.cpp:72-110 | until the last request is answered some step that is not a timeout is possible |
| Exchange.TimeoutIsEarly | src/proxy/proxy.cpp:174-185 | whenever a timeout could fire in a state that timely runs reach, something else could happen too |
| EarlyTimeout.EarlyTimeoutThrows | src/device/device.cpp:61-73 | from any quiet state, for any request of two or more fragments: a run with one timeout, nothing lost or out of order, in which the proxy throws |
| EarlyTimeout.EarlyTimeoutCorrupts | src/device/device.cpp:308-325 | likewise for any one-packet request with a response of two or more fragments: a run in which nothing is thrown, and the response handed back is the first fragment followed by the whole response |
| EarlyTimeout.EarlyTimeoutFails | src/proxy/proxy.cpp:169-173 | likewise for any one-packet request with a one-packet response, and any request to the same device behind it: a run that answers the first and throws at the second |
| Timeouts.OneSmallIsRight | src/proxy/proxy.cpp:153-188 | if at most one request is routed, and it and its response fit one packet, every response is right and nothing is thrown, in every run with up to 13 timeouts of the proxy at any points, and any of the devices |
| Timeouts.OneTimeoutHarms | src/proxy/proxy.cpp:174-185 | for every other configuration there is a run with a single timeout that hands back a wrong response or throws |
| Timeouts.GivesUp | src/proxy/proxy.cpp:177-180 | as soon as a request is routed there is a run with 14 timeouts in which the proxy gives up |
| Timeouts.RightIff | src/proxy/proxy.cpp:138-223 | when every run is right, for every configuration and number of timeouts: without any always; with 1 to 13 if and only if at most one request is routed, and it and its response fit one packet; with more if and only if none is routed, which is also when nothing is thrown |
| Program.ProxyAnswersAsHandler | src/proxy/proxy.cpp:72-110 | with the real parser, handler and files, for any texts of clients that can be parsed if they are for a configured device, in every timely run: every response handed back is the handler's response text on the files left by the earlier requests to the device that was selected, whatever selects it, or 502 for an unknown device |
| Program.StoresAreFiles | src/device/device.cpp:106-125 | the stores of the specification by calls are the files that each device's own requests, and no others, make |
| Program.FilesInRun | src/device/device.cpp:106-125 | in every timely run the files that a device keeps are what its own answered requests make, or also the one under way |
| DeviceNode.TakesAsNode | src/device/device.cpp:50-125 | for every packet in every state, and any replies: unless the parser hangs, the device object sends what the node of the interleaved system sends, and ends with its text, files, session, counter and response |
| Program.DevicesAreNodes | src/device/device.cpp:50-125 | the objects so related are the devices of the systems in which whole runs are studied |
| Program.ReadThroughProxy | src/device/device.cpp:163-286 | in every timely run of the whole program a read returns a 200 response whose body is the value of the first field named X-Data, in any case, of the PUT that created the file, or nothing without such a field, as long as no DELETE of it came between |
| Program.EarlyTimeoutsIff | src/proxy/proxy.cpp:138-223 | the condition of `Timeouts.RightIff` on the clients' texts, the configured sizes and the handler's answers |
| Program.RoutedToTheRightDevice | src/device/device.cpp:172-176 | any text that parses to a request with the path "/d/...", where the name d is not empty and neither it nor the method has a slash, is routed to device d, and d does not answer "Wrong device." |
| Program.WrongDeviceInRun | src/device/device.cpp:172-176 | in every timely run in which the proxy's text search selects the devices, and each knows its configured name, which has no space or question mark: a request in origin form is answered "Wrong device." if and only if it selects a configured device with the empty name and its path has an item |
| Proxy.Proxy.SendDataDevice | src/proxy/proxy.cpp:138-188 | state, packets sent and replies taken are those of the specified loop on the chunks of the text; more than 127 chunks send nothing |
| Proxy.Proxy.ReceiveDataDevice | src/proxy/proxy.cpp:190-223 | response, packets sent and replies taken are those of the specified loop |
| Proxy.Proxy.SetDeviceSocket | src/proxy/proxy.cpp:271-279 | selects size and next session number of the device, wrapping around as a signed char |
| Proxy.Proxy.HandleClient | src/proxy/proxy.cpp:76-110 | one request of a client, for every state, text and replies: an unknown device gives status 502 and sends nothing; 14 timeouts on a fragment reached by acknowledgements give 503; a reply that is no acknowledgement while sending, and a timeout or another session while collecting, give 500; otherwise the client gets the payloads of the DATA packets up to number 1 |
| Proxy.ServeAnswers | src/proxy/proxy.cpp:76-110 | the same of the specification; in both the error texts are written out, and the status stands at the positions 9 to 11 |
| Proxy.ServeSends | src/proxy/proxy.cpp:138-185 | before anything else the fragments of the text go to the selected device, of its configured size and under its next session number |
| Proxy.SessionsOfRun | src/proxy/proxy.cpp:271-279 | whatever the network does in the exchanges of a run, the session numbers count the requests to each device |
| Device.Device.HandlePacket | src/device/device.cpp:50-125 | one round of `Run`: fields, files and packets sent are those of the specified step, for every packet in every state |
| Device.CaughtIff | src/device/device.cpp:106-125 | one packet with number 1 makes an idle device loop forever if and only if the text then at hand is a request line with nothing but lines with a colon behind it |
| Device.CaughtByCutOff | src/device/device.cpp:106-125 | for one, every request that ends in its first field line |
| Device.Device.SendData | src/device/device.cpp:288-327 | state, packets sent and replies taken are those of the specified loop |
| Device.Device.HandleRequest | src/device/device.cpp:163-286 | files and response are those of the specified handler, which `FileStore.AnswersReads`, `FileStore.AnswersFile` and `FileStore.UnhandledIff` describe |
| Device.AnswersUnhandled | src/device/device.cpp:111-119 | a request that is not handled is answered "HTTP/1.1 501 Not Implemented" and leaves the files alone |
| Sessions.SessionsDistinctIff | src/proxy/proxy.cpp:277-278 | two numbers of a device are equal exactly when the requests are a multiple of 256 apart; the first 127 are 1 to 127 |
| Sessions.FreshNumbers | src/proxy/proxy.cpp:271-279 | over any run with at most 127 requests to a device, its numbers increase strictly within 1 to 127, whatever other devices get |
| Sessions.StaleAckAdvancesIff | src/proxy/proxy.cpp:153-169 | exactly when a left-over acknowledgement of an earlier exchange advances the sender of a later one |
| Sessions.LeftOverNeverAdvances | src/proxy/proxy.cpp:153-169 | over any run with at most 127 requests to a device, no acknowledgement left over from one of them has the number of a later one or advances its sender |
| Sessions.LeftOversMayBeThere | src/proxy/proxy.cpp:271-279 | so every state whose acknowledgements are such left-overs is an initial state of `StopAndWait` |
| Sessions.DeliverableIff | src/proxy/proxy.cpp:153-169 | some network lets the k-th request to a device be delivered if and only if k mod 256 is below 128 |
| FileStore.SplitString | src/common/utility.cpp:43-59 | the loop yields the pieces between separators |
| FileStore.ItemsJoin | src/device/device.cpp:163-171 | the items of two texts with a slash between are those of the one and those of the other; without a slash a text is one item, or none if it is empty |
| FileStore.IsValidFilename | src/common/utility.cpp:72-88 | true exactly for names of 1 to 200 letters, digits, dots and underscores that start with a letter or digit |
| FileStore.ValidNameIff | src/common/utility.cpp:72-88 | these letters and digits are those of the alphabets, written out |
| FileStore.AnswersReads | src/device/device.cpp:177-201 | GET and POST of "/d/info" and "/d/file" of device d give 200 with the configuration as JSON and the listing as text |
| FileStore.AnswersFile | src/device/device.cpp:202-283 | what "/d/file/name" is answered, and what is stored, for every method, name and store: a PUT stores the value of the first field named X-Data, in any case, or nothing without one |
| FileStore.AnswersOthers | src/device/device.cpp:172-176 | "/d" and "/d/..." of any other device d give 502 with "Wrong device." and leave the files alone |
| FileStore.UnhandledIff | src/device/device.cpp:163-286 | which requests for the device are left unhandled |
| FileStore.StoreIsIndependentFiles | src/device/device.cpp:163-286 | over any run the store refines independent create-once files: each holds what the requests that address it make of it |
| FileStore.FileAt | src/device/device.cpp:202-283 | and those files alone decide the responses to these requests |
| FileStore.NamesStayValid | src/device/device.cpp:220-257 | from valid names every reachable store has only valid names |
| FileStore.ReadsReturnWhatWasPut | src/device/device.cpp:202-257 | between a creating PUT and a DELETE every read returns a 200 response with the value of the PUT's first field named X-Data, in any case, or nothing without one |
| FileStore.DeleteMakesCreatable | src/device/device.cpp:258-283 | after a DELETE, until the next PUT, reads get 400, and a PUT gets 200 and stores its own data |
| FileStore.ChangesIff | src/device/device.cpp:163-286 | a request changes the store if and only if it creates or deletes a file |
| Routing.SelectsFirstSegment | src/proxy/proxy.cpp:251-261 | the proxy's text search finds the first segment of a target that has a second one, if the method has no slash |
| Routing.SelectsWithoutSlashes | src/proxy/proxy.cpp:251-261 | with fewer than two slashes it finds what stands behind the only one, or the whole text |
| Routing.SelectsParsedSegment | src/proxy/proxy.cpp:251-261 | and so for any text that parses to a path with a first and a second segment |
| Routing.RoutingAgreesIff | src/proxy/proxy.cpp:251-261 | if the device selected from the text has no space or question mark, and the target is in origin form, the parsed path's first item is that device exactly when its name is not empty |
| Routing.WrongDeviceIff | src/device/device.cpp:172-176 | hence "Wrong device." is answered only to the empty name |
| ScopeRunner.Runner.ContinueLock | lib/simple-web-server/utility.hpp:329-338 | for every script of interference and spurious failures, the loop makes exactly the atomic steps of the model |
| ScopeRunner.Runner.Stop | lib/simple-web-server/utility.hpp:341-348 | likewise |
| ScopeRunner.Reachable | lib/simple-web-server/utility.hpp:308-350 | in every reachable state of any number of calls the counter is the number of locks held, or -1 with none held and some stop returned |
| ScopeRunner.StoppedForever | lib/simple-web-server/utility.hpp:326-348 | once the counter is -1, or any stop has returned, it stays -1 and no lock is ever held again |
| ScopeRunner.RefusedOnlyAfterStop | lib/simple-web-server/utility.hpp:329-338 | a lock is refused only if some stop has returned |
| ScopeRunner.LockAlone | lib/simple-web-server/utility.hpp:329-338 | from any reachable state continue_lock on its own returns within two steps, with a lock exactly when the counter is not negative |
| ScopeRunner.StopAloneIff | lib/simple-web-server/utility.hpp:341-348 | from any reachable state stop on its own returns if and only if no lock is held |
| ConnectionPool.Client.GetConnection | lib/simple-web-server/client_http.hpp:397-429 | hands out any idle connection, in whatever order the set is visited, or else a new one |
| ConnectionPool.Client.Finish | lib/simple-web-server/client_http.hpp:243-263 | in whatever order the set is visited: a failed connection is removed, those in use stay, exactly one of the others stays if there is one |
| ConnectionPool.Client.Reconnect | lib/simple-web-server/client_http.hpp:551-570 | unless the read was aborted, a pooled connection that may reconnect is replaced by a new one that may not; otherwise nothing changes |
| ConnectionPool.Client.Stop | lib/simple-web-server/client_http.hpp:360-367 | empties the pool and changes nothing else |
| ConnectionPool.PoolInvariant | lib/simple-web-server/client_http.hpp:243-263 | in every state of every run at most one pooled connection is idle, requests in flight own distinct connections, and each reconnects at most once |
| ConnectionPool.PruningSparesOthers | lib/simple-web-server/client_http.hpp:249-262 | pruning leaves the session and the pooled connection of every other request in flight alone |
| ConnectionPool.SpentForever | lib/simple-web-server/client_http.hpp:249-262 | a connection on which a request has failed is never pooled or owned again |
| ConnectionPool.ExactlyOneRemains | lib/simple-web-server/client_http.hpp:397-429 | when all requests have succeeded, perhaps after reconnecting, and none is in flight, exactly one connection is left |
| Percent.EncodeLoop | lib/simple-web-server/utility.hpp:42-56 | the loop encodes character by character |
| Percent.DecodeLoop | lib/simple-web-server/utility.hpp:59-78 | the index loop refines decoding from the left |
| Percent.DecodeEncode | lib/simple-web-server/utility.hpp:42-78 | decoding undoes encoding for every string of bytes |
| Percent.EncodeIsEncoded | lib/simple-web-server/utility.hpp:42-56 | an encoded text consists of unreserved characters and complete triples |
| Percent.EncodesChar | lib/simple-web-server/utility.hpp:42-56 | letters, digits and four marks are left alone; of any other byte come a percent sign and two upper-case digits |
| Percent.DecodesTriple | lib/simple-web-server/utility.hpp:59-78 | a percent sign and two digits, each of either case, are the byte with these digits, and decoding goes on behind them |
| Percent.DecodesChar | lib/simple-web-server/utility.hpp:59-78 | a plus sign is a space; any other character, and a percent sign without two characters behind it, stands for itself |
| Percent.DecodesBadTriple | lib/simple-web-server/utility.hpp:59-78 | any other two characters behind a percent sign: a digit alone, or behind a space or plus sign, is the byte, behind a minus sign it is counted down from 256, and without a digit that can be read the byte is zero |
| QueryString.QueryParse | lib/simple-web-server/utility.hpp:98-132 | on every string the one-pass parser equals: split at ampersands, cut each piece at its last equals sign, decode values, drop empty names |
| QueryString.ParsesNamed | lib/simple-web-server/utility.hpp:98-132 | a piece is cut at its last equals sign, what is behind it is decoded, and without a name there is no field |
| QueryString.ParsesBare | lib/simple-web-server/utility.hpp:98-132 | without an equals sign the value is empty |
| QueryString.ParsesPieces | lib/simple-web-server/utility.hpp:98-132 | the pieces between ampersands are parsed one by one |
| QueryString.QueryCreate | lib/simple-web-server/utility.hpp:85-95 | the loop prints the fields with ampersands between them |
| QueryString.QueryRoundTripIff | lib/simple-web-server/utility.hpp:85-132 | parsing undoes printing, in order or as a multiset, if and only if every name is non-empty and free of ampersands |
| Attributes.AttributesParse | lib/simple-web-server/utility.hpp:160-208 | on every string the three-index machine equals a recursive grammar of flags and quoted or plain values |
| Attributes.ParsesAttribute | lib/simple-web-server/utility.hpp:160-208 | any text attribute by attribute: separators in front, flags, plain and quoted values, at a semicolon, a quote or the end, and a name with nothing behind its equals sign |
| Attributes.AttributesRoundTripIff | lib/simple-web-server/utility.hpp:160-208 | any list of flags and values rendered with "; " is parsed back if and only if the names are well-formed and unquoted values are not empty |
| HttpText.AlikeIff | lib/simple-web-server/utility.hpp:12-16 | names are the same if and only if they agree letter by letter up to the two alphabets, written out |
| HttpText.LookupFinds | lib/simple-web-server/utility.hpp:31-40 | a lookup finds the first field of the name, in any case, and nothing if and only if there is none |
| HttpText.FieldsPrinted | src/common/http.cpp:14-17 | one line for each field: name, colon, space, value |
| HttpText.PrintRequest | src/common/http.cpp:10-20 | prints the request line, the fields and a blank line, written out |
| HttpText.PrintResponse | src/common/http.cpp:22-36 | prints status line, fields, the length of a body that is not empty, a blank line and the body, written out |
| HttpText.PlainText | src/common/http.cpp:22-36 | the whole text of a response without fields and body, written out |
| HttpParse.HeaderParse | lib/simple-web-server/utility.hpp:138-153 | the loop computes the specified fields and leaves the specified stream, or reports that it would not end |
| HttpParse.DivergesIff | lib/simple-web-server/utility.hpp:138-153 | the header loop never ends if and only if every line of a good stream, the unterminated last one included, has a colon; a blank line makes it end |
| HttpParse.DivergesForever | lib/simple-web-server/utility.hpp:143-151 | in that case the loop's condition holds after every number of rounds |
| HttpParse.ParsedStops | lib/simple-web-server/utility.hpp:143-151 | otherwise it stops after some number of rounds with the specified stream |
| HttpParse.BlankLineReachedIff | lib/simple-web-server/utility.hpp:138-153 | header parsing consumes exactly the bytes up to the blank line if and only if every line before it has a colon |
| HttpParse.HeaderRoundTrip | lib/simple-web-server/utility.hpp:138-153 | printed fields are parsed back, what follows the blank line is left unread |
| HttpParse.FieldReads | lib/simple-web-server/utility.hpp:138-153 | any spaces may stand behind the colon, and the last character of the line is cut off, whatever it is |
| HttpParse.HeaderLineMeans | lib/simple-web-server/utility.hpp:138-153 | a line without a colon ends the header, behind a bare colon there is no field, any other line gives its field |
| HttpParse.LastLineRead | lib/simple-web-server/utility.hpp:140-151 | a text behind the last line break is a line too, and leaves a stream from which nothing more comes |
| HttpMessages.RequestParse | lib/simple-web-server/utility.hpp:216-259 | the index loops equal: cut at two spaces, split the target at its last question mark |
| HttpMessages.RequestLineIff | lib/simple-web-server/utility.hpp:216-259 | a line is a request line if and only if it has a method, a target and "HTTP/" with single spaces between, and then these are its parts |
| HttpMessages.TargetSplit | lib/simple-web-server/utility.hpp:224-240 | a target is split at its last question mark |
| HttpMessages.TargetWhole | lib/simple-web-server/utility.hpp:224-240 | a target without one is all path |
| HttpMessages.StatusLineIff | lib/simple-web-server/utility.hpp:265-284 | which lines are status lines, for every place of the first space, and what their parts are |
| HttpMessages.HangsIff | lib/simple-web-server/utility.hpp:216-259 | the request parser does not return exactly for a request line with nothing but lines with a colon behind it |
| HttpMessages.CutOffHangs | lib/simple-web-server/utility.hpp:216-259 | such is every good request line of any version followed by a field line that nothing ends |
| HttpMessages.RequestHeadRoundTrip | lib/simple-web-server/utility.hpp:216-259 | a request line with any target, with or without a question mark, any good fields and a blank line are read back, and whatever follows is left unread |
| HttpMessages.RequestRoundTripIff | src/common/http.cpp:10-20 | parsing undoes `Request::to_string`, whatever follows, if and only if the parts have no separators in them |
| HttpMessages.ResponseRoundTripIff | src/common/http.cpp:22-36 | parsing `Response::to_string` gives version, status and fields, among them the length of a body that is not empty, and leaves exactly the body unread, if and only if the parts are well-formed |
| Reader.Connection.ReadUntil | lib/simple-web-server/server_http.hpp:459-459 | under every slicing the position found is the first in all bytes to come, and no byte is lost |
| Reader.Connection.ReadExactly | lib/simple-web-server/server_http.hpp:501-503 | succeeds exactly when the stream holds enough bytes, and then adds exactly that many |
| Reader.Connection.ReadChunked | lib/simple-web-server/server_http.hpp:536-627 | under every slicing: error, content and the bytes left behind are those of a recursive decoder on all bytes; the loop ends by the bytes left |
| Chunked.ChunksRoundTrip | lib/simple-web-server/server_http.hpp:536-627 | the decoder undoes the coding of section 4.1 of RFC 7230 for any chunks and leaves what follows; a size is any text of the number of bytes in digits of the two alphabets 0 to f and 0 to F, mixed at will, with leading zeros, and any extension |
| Chunked.BehindChunks | lib/simple-web-server/server_http.hpp:536-627 | behind any chunks that are not the last the decoder goes on with whatever bytes come |
| Chunked.AnyTwoBehind | lib/simple-web-server/server_http.hpp:614-616 | the two bytes behind a chunk's data are dropped, whatever they are |
| Chunked.BreaksOff | lib/simple-web-server/server_http.hpp:569-589 | a body that ends before its line break or before the bytes it announces is reported as such |
| Chunked.BadSizeLine | lib/simple-web-server/server_http.hpp:552-564 | a size line that does not start with a number, or with one too large, is a protocol error |
| Chunked.BareFeed | lib/simple-web-server/server_http.hpp:552-568 | a line feed of its own ends the size line too; the bytes up to the next line break then count as read, and are the start of the data all the same |
| Chunked.ReadBody | lib/simple-web-server/client_http.hpp:574-653 | whatever the slices in which a chunked body arrives, the buffer ends up with the chunks' data |
| Chunked.ReadPipelined | lib/simple-web-server/server_http.hpp:615-626 | bytes that arrive together with the body end up in front of its content |
| Chunked.ReadBytewise | lib/simple-web-server/server_http.hpp:536-627 | byte by byte nothing that follows the body gets into its content |
| Chunked.ReadBothWays | lib/simple-web-server/server_http.hpp:615-626 | hence the content does not depend on the slicing if and only if nothing follows the body |
| Wire.HeadLocal | lib/simple-web-server/server_http.hpp:476-482 | a head with a blank line is parsed without reading behind it, and the parser returns |
| Wire.ServerRead | lib/simple-web-server/server_http.hpp:457-534 | under every slicing: request and error are a function of all bytes; behind a body that is not chunked the handler sees the body and then whatever else had arrived with the head, and the rest is left on the network |
| Wire.ClientRead | lib/simple-web-server/client_http.hpp:481-549 | likewise for responses, the reading to the end of the connection included |
| RoundTrips.ClientWrite | lib/simple-web-server/client_http.hpp:269-279 | the bytes are request line, host, the caller's fields, a length unless the body is empty or already delimited, and the body |
| RoundTrips.CreateRequestHeader | lib/simple-web-server/client_http.hpp:434-451 | writes the request line, host and the caller's fields; an empty path becomes a slash, and through a proxy the target is "http://", the host and the path |
| RoundTrips.ClientHeaderIs | lib/simple-web-server/client_http.hpp:269-279 | the client adds the length of a body that is not empty, unless a field is named Content-Length, in any case, or the first one named Transfer-Encoding says "chunked" |
| RoundTrips.ServerReadsRequest | lib/simple-web-server/server_http.hpp:457-534 | whatever follows, all bytes mean method, path and query split at the last question mark, fields, the body, and behind it what follows |
| RoundTrips.DeliverRequest | lib/simple-web-server/server_http.hpp:457-534 | under every slicing the handler gets method, path, query and fields, and sees the body and behind it the part of what follows that had arrived with the head |
| RoundTrips.RequestSlicingIff | lib/simple-web-server/server_http.hpp:476-534 | the content seen is the same under all slicings if and only if nothing follows the request |
| RoundTrips.WriteHeader | lib/simple-web-server/server_http.hpp:68-84 | the fields, the length unless the connection closes, a field is named Content-Length, or one named Transfer-Encoding says chunked, all in any case, and a blank line |
| RoundTrips.ServerWrite | lib/simple-web-server/server_http.hpp:114-120 | the bytes are the status line, the fields with the length where one is due, a blank line and the content |
| RoundTrips.ClientReadsResponse | lib/simple-web-server/client_http.hpp:481-549 | what all bytes of a response of the server, and any that follow, mean to the client: status, fields, and where the body is thought to end |
| RoundTrips.RecoveredIn | lib/simple-web-server/client_http.hpp:526-549 | under a given slicing the client sees exactly the content if and only if the connection stays open, the field "Session" says close, or everything has arrived with the head |
| RoundTrips.ContentRecoveredIff | lib/simple-web-server/client_http.hpp:526-549 | it does so under every slicing if and only if the connection stays open, the content is empty, or the field "Session" says close |
| RoundTrips.ResponseSlicingIff | lib/simple-web-server/client_http.hpp:481-549 | the content seen is the same under all slicings if and only if nothing follows the response |
| RoundTrips.DeliverResponse | lib/simple-web-server/client_http.hpp:481-549 | under every slicing the client reads status and fields, and sees the content, or, if the server closes and the client does not know, exactly the part of it that had arrived with the head |
| Delimiters.RequestByLength | lib/simple-web-server/server_http.hpp:485-519 | for any request line, any good fields and any bytes behind: the first field named Content-Length, in any case, delimits the body, even next to a Transfer-Encoding |
| Delimiters.RequestBadLength | lib/simple-web-server/server_http.hpp:490-499 | if it holds no number it is a protocol error, and too few bytes are reported as the end of the stream |
| Delimiters.RequestByChunks | lib/simple-web-server/server_http.hpp:524-527 | without a length, "chunked" in the first field named Transfer-Encoding, in any case, makes the body the chunks' data |
| Delimiters.RequestWithoutBody | lib/simple-web-server/server_http.hpp:528-529 | with neither there is no body |
| Delimiters.NoRequestRead | lib/simple-web-server/server_http.hpp:457-485 | without a blank line there is no request, and a first line that is no request line is a protocol error |
| Delimiters.LastsIff | lib/simple-web-server/client_http.hpp:529-529 | the client takes a connection to last unless the version comes before 1.1, character by character, or the first field named Session says close |
| Delimiters.ResponseByLength | lib/simple-web-server/client_http.hpp:501-524 | a length delimits the body of a response in the same way |
| Delimiters.ResponseBadLength | lib/simple-web-server/client_http.hpp:503-503 | a length that is no number is an exception that nothing catches |
| Delimiters.ResponseByChunks | lib/simple-web-server/client_http.hpp:525-528 | without one a chunked body is the chunks' data |
| Delimiters.ResponseWithoutLength | lib/simple-web-server/client_http.hpp:529-549 | with neither the body reaches to the end of the connection, or there is none if the client takes it to last |
| Delimiters.DeliverChunkedRequest | lib/simple-web-server/server_http.hpp:457-534 | under every slicing the handler gets a chunked request's parts and its chunks' data; of what follows only a part that had arrived stands in front |
| Delimiters.DeliverChunkedResponse | lib/simple-web-server/client_http.hpp:481-549 | and so the client's caller |
| Numbers.StoulRoundTrip | src/common/http.cpp:30-30 | a printed length is read back, up to the largest unsigned long |
| Numbers.StoulReads | lib/simple-web-server/server_http.hpp:558-558 | any text of a number, in base 10 or 16, in digits of either alphabet, with leading zeros, space, sign and prefix in front: read as that number up to the largest unsigned long, wrapped around if negative, and an exception if larger |
| Numbers.NatTextWrites | src/common/http.cpp:30-30 | a printed number is such a text, without leading zeros |

## Left out

- Sockets, addresses and real time: a receive timeout is one of the replies, at any point, and a script of replies stands for the network. The device asks for 0.8 seconds, which is cut to zero and means none; the model lets its timeout fire all the same.
- The payload of an ERROR packet: the source builds a string from the address of one character; the model sends the code alone. Nothing reads it.
- `Device::SendPacket` concatenates a header that does not end in a zero byte; the model takes the two-byte framing of the proxy for both ends.
- Datagrams longer than the 512-byte receive buffer, datagrams of one byte, for which the length of the payload is negative, and a configured packet size of two bytes or less.
- Requests with a zero byte or longer than the proxy's 4096-byte buffer, which the proxy takes for a C string.
- StopAndWait.SafeWithoutError: the response direction is not covered on an unreliable network, because `ReceiveDataDevice` takes duplicates for data; `ProxyLink.CollectedText` states what it does collect.
- Exchange.RunRefinesCalls: is for timely runs, because an early timeout breaks it in most configurations (`Timeouts.RightIff`); it requires parseable requests, at most 127 fragments either way and at most 127 requests per device, as the code needs; texts outside these bounds are covered by the objects' contracts only.
- Timeouts.RightIff: does not say when runs are right in which devices time out and the proxy does not, because the source's devices never do.
- RoundTrips.ServerReadsRequest: requires that the caller has not set a length or a transfer coding of its own; `Delimiters` states how messages with such fields are read.
- Which of several fields with the same name a lookup finds is unspecified in the source; the model takes the first. The order in which a multimap is visited is likewise one order.
- The limits `max_request_streambuf_size` and `max_response_streambuf_size`, and the overflow of a chunk size near the largest unsigned long.
- Characters above 127 in `isalnum` and `tolower`, which depend on the locale.
- FileStore.SplitString: is modelled for a separator of one character, the only one in use.
- Failing file operations other than reading an absent file; a missing directory; the text of listings and of the configuration, which are parameters.
- The numeric conversions skip the distinction between kinds of exceptions.
- Resource matching by regular expression, thread pools, timeouts of connections, upgrades, TLS, logging, configuration files, mains, mocks and examples.
- `status_code.hpp` and the text of status lines in the library's server, which is a parameter.
