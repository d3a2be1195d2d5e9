# A verified model of simple_mqtt

simple_mqtt is an MQTT 3.1.1 client library in C. This project models its two connected
cores in Dafny 4.11 and proves properties of them:

* **the packet codec**: the Remaining Length, length-prefixed strings, CONNECT, SUBSCRIBE,
  UNSUBSCRIBE, PUBLISH and SUBACK;
* **the client session**: the in-flight queue of `message_keep.c`, the subscription call, the
  timer tick with its keep-alive ping and its expiry sweep, and the inbound PUBLISH.

They meet in the queue: every stored message is a frame that the codec understands.

`dafny verify dfyconfig.toml` checks the whole project.

## How the model is built

For each C file there is a functional description of what its operations mean, on byte
sequences or on queue entries, and beside it imperative code in the shape of the C code:
methods over byte arrays with moving offsets, linked nodes that are hung and unlinked in
place, classes whose fields the methods update. Each method is proved equal to the function
that describes it, and the theorems are about those functions.

Builders and parsers share their functions, so round trips alone would not notice a wrong
constant. `Formats` and `ConnectFormat` therefore write the packets out a second time, byte by
byte after the standard, and prove that each parser accepts exactly these packets, how it turns
every other one away, and that the builders write them. In the same way `Ledger` is a second,
much smaller client: a list of pending allocations, a counter and the time of the last ping. Every
run of the client follows it.

| file | C source |
|---|---|
| `Bytes.dfy` | integers, status codes of `mqtt.h`, `memcpy` |
| `Message.dfy` | `message.c` |
| `Framing.dfy`, `Streams.dfy` | splitting a byte stream with the fixed header |
| `TopicFilters.dfy` | `common.h` filter list, `msg_subscribe.c`, `msg_unsubscribe.c` |
| `Connect.dfy`, `ConnectCode.dfy` | `msg_connect.c`: meaning and theorems, then the code |
| `Publish.dfy` | `msg_publish.c` |
| `Suback.dfy` | `msg_suback.c` |
| `Formats.dfy`, `ConnectFormat.dfy` | the packets byte by byte, and what the parsers accept and reject |
| `Entries.dfy` | the queue as a sequence; the theorems about removing and sweeping |
| `MessageKeep.dfy` | `message_keep.c` on the heap |
| `Session.dfy`, `Runs.dfy` | the client as a state machine; properties of every run |
| `Ledger.dfy` | the client's bookkeeping, which every run follows |
| `Client.dfy` | `client.c`, `client_deamon.c`, `client_message_process.c` on the heap |

A parser returns `Ok`, `Err` with the C code's status, or `Undefined`, which stands for the
inputs on which the C code reads outside the frame, hands out a place outside it, or follows a
pointer that it never set. The parsing methods require that the outcome is not `Undefined`, and
nothing else about the bytes; `PublishMessageParse` also covers the frames whose topic runs past
the end, where it hands out places and reads nothing.

`byte`, `uint16` and `uint32` are bounded integers, and every place where the C arithmetic can
wrap is written out. A bit of a flag byte is its quotient by the power of two, modulo 2.

## Where the code departs from what it is meant to do

The code is modelled as it is written. Each place below names the lemma that says exactly when
the intended property holds, and an input on which it fails.

* The CONNECT parser tests the out-pointers for the will flags instead of their values
  (`msg_connect.c:394`), so that it rejects every frame without a will. `Reading` has both
  readings: `AsWritten`, and `AsLogged`, the test that the log message describes.
  `Connect.ConnectRoundTripIff` covers both; `Connect.WillLessConnection` is the example.
* PUBLISH adds its Remaining Length up in 16 bits: `Publish.PublishFramedIff` and
  `Publish.PublishWraps`. It leaves the caller's packet id in network byte order:
  `Publish.RebuildWithLeftoverIdIff` and `Publish.LeftoverIdExample`. Its parser takes everything
  up to the end of the buffer as payload (`Publish.PublishRoundTrip`), and accepts an empty topic,
  which the builder refuses: `Publish.PublishRebuildIff` and `Publish.EmptyTopicExample`.
* A SUBSCRIBE QoS is masked to two bits by the builder and not checked by
  `mqtt_client_subscribe`. The parser's way out after an invalid QoS walks from a dummy head
  whose `next` is unset until a filter is linked, so that a QoS of 3 is an error behind a valid
  filter and undefined in the first one: `TopicFilters.SubscribeRoundTripIff`,
  `TopicFilters.FilterMessageRoundTrip` and `TopicFilters.InvalidQosExample`.
* The first bytes of SUBSCRIBE and UNSUBSCRIBE carry the reserved bits 0000 where MQTT 3.1.1 asks
  for 0010, in builder and parser alike: `TopicFilters.ReservedBits`.
* A Remaining Length of four continued bytes is taken as a number and the byte behind it is
  skipped: `Formats.OpenBodyIff` says which length fields are taken, and
  `Formats.FifthLengthByteExample` is accepted.
* The expiry sweep removes by packet id, not by node: `Entries.SweepExactIff` and
  `Entries.OvertakenExample`. Nothing stops ids from repeating after 65535 allocations:
  `Runs.AlwaysDistinctIff` and `Runs.IdsRepeat`.
* `message_send_add` leaves every timestamp at 0, so that an entry's age is the time of day and a
  tick keeps all entries or none: `Runs.TimeoutAsMeantIff`, `Runs.YoungEntrySurvivesIff` and
  `Runs.EarlyTimeoutExample`. With real timestamps and a clock that does not go back the sweep
  would be exact: `Runs.StampedSweepExact`.
* `message_send_remove` follows the head of the list before testing it, so that a PUBLISH of
  QoS 1 that is acknowledged on an empty queue is undefined (`Session.Defined`):
  `Runs.AckDefinedIff` says when in a run that happens, `Runs.AckAfterTimeout` that it does after
  every timeout, and `Runs.AckAfterConnect` is the example.

`Message.LengthVectors`, `Streams.SubscribeOnTheWire` and `Streams.PublishAndSubackOnTheWire`
pin the encodings with literal bytes.

## Model

| member | source | states |
|---|---|---|
| Message.RemainLengthEncode | src/message/message.c:9-29 | writes exactly the base-128 encoding and nothing behind it; fails exactly from 2^28 on |
| Message.EncodedSize | src/message/message.c:9-29 | the byte count is the least k >= 1 with length < 128^k |
| Message.RemainLengthDecode | src/message/message.c:31-51 | the loop computes the decoding of the at most four bytes it may look at |
| Message.LengthRoundTrip | src/message/message.c:9-51 | decoding an encoded length below 2^28, whatever follows, gives the length and the encoder's byte count |
| Message.DecodeTerminated | src/message/message.c:31-51 | any terminated string of at most four bytes decodes, through the window, to its base-128 sum, and only its own bytes count |
| Message.ReencodeIff | src/message/message.c:9-51 | re-encoding reproduces a terminated string exactly when it is one byte long or its last byte is not 0 |
| Message.UnterminatedIff | src/message/message.c:38-48 | the decoder reports one byte more than its window exactly when no byte in it ends the length |
| Message.BuildStringField | src/message/message.c:53-78 | appends the big-endian length and the bytes, and touches nothing behind them |
| Message.ReframeIff | src/message/message.c:31-51 | re-framing the body of a packet with an exact length field gives the packet back exactly when that field is minimal |
| Message.MessageFixedHeaderDecode | src/message/message.c:135-153 | type, total length and remaining length of the received bytes |
| Formats.DecodeMeaning | src/message/message.c:31-51 | on any bytes the decoded length is the base-128 sum of the bytes it counted, also when none of them ends the length |
| Formats.HeaderOfField | src/message/message.c:135-153 | type, total length and remaining length of a packet with any terminated length field, minimal or not, whatever was received behind it |
| Formats.OpenBodyIff | src/message/msg_suback.c:165-187 | behind a fixed first byte exactly the packets with an exact length field are opened; such a field is terminated, or is four continued bytes and a fifth that is skipped |
| Formats.FifthLengthByteExample | src/message/message.c:36-48 | a SUBACK with such a field of five bytes is accepted |
| Framing.HeaderOfPrefix | src/message/message.c:135-153 | the header of a frame depends only on its first min(5, length) bytes and announces the frame's length |
| Framing.SplitStream | src/message/message.c:135-153 | cutting a concatenation of frames at the announced lengths recovers exactly those frames |
| Framing.SplitKeepsBytes | src/message/message.c:135-153 | cutting any byte stream loses and reorders nothing |
| Streams.BuiltPacketsSplit | src/message/message.c:135-153 | any list of packets from the five builders, sent back to back, splits into exactly that list with the right types |
| Streams.BuiltHeader | src/message/message.c:135-153 | the header of a built packet announces the length that its builder returned |
| Streams.ConnectOnTheWire | src/message/msg_connect.c:86-228 | a full CONNECT body: protocol header, flags 0xF6, keep-alive, then the five fields in the order of section 3.1.3 |
| TopicFilters.FilterMessageBuild | src/message/msg_subscribe.c:37-98 | walks the linked list twice and writes exactly the frame of its filters; a buffer that is too small is left alone with its length |
| TopicFilters.FilterMessageParse | src/message/msg_subscribe.c:112-204 | builds a linked list, through a dummy head, that holds the parsed filters and points into the message, or returns the same error; on every frame on which neither way out follows the unset pointer and nothing is read behind the end |
| TopicFilters.FilterMessageRoundTrip | src/message/msg_subscribe.c:112-204 | what parsing makes of every frame the builders write: undefined when the first QoS byte is 3, an error when a later one is, and otherwise the packet id and the ordered filters up to the QoS mask |
| TopicFilters.SubscribeRoundTripIff | src/message/msg_subscribe.c:37-204 | build then parse returns the packet id and the ordered filters exactly when every QoS is at most 2 |
| TopicFilters.FiltersRoundTrip | src/message/msg_subscribe.c:81-187 | the two loops alone: parsing undoes writing for any filter list, up to the QoS mask, or stops at a QoS byte of 3 |
| TopicFilters.InvalidQosExample | src/message/msg_subscribe.c:91-200 | for any topic: a QoS of 3 in the only filter leads to the unset pointer, behind a valid filter it is rejected, and a QoS of 4 comes back as 0 |
| TopicFilters.ReservedBits | src/message/msg_subscribe.c:68 | every built frame has reserved bits 0000; of the frames of the right type the parser turns away exactly those with other bits, so every conforming one |
| TopicFilters.RebuildIff | src/message/msg_subscribe.c:76-194 | parse then build is the identity on bytes exactly for minimal Remaining Lengths |
| TopicFilters.ParseInjective | src/message/msg_subscribe.c:112-194 | two different frames with minimal lengths never parse to the same result |
| TopicFilters.FiltersRebuild | src/message/msg_subscribe.c:156-187 | writing parsed filters gives the same bytes, and each filter took at least three of them (two in UNSUBSCRIBE) |
| TopicFilters.SubscribeCalcEnough | src/message/msg_subscribe.c:20-35 | the calculated size exceeds the frame by exactly what the length field leaves of four bytes |
| TopicFilters.FiltersSizeExact | src/message/msg_unsubscribe.c:33-77 | the size counted in the first loop is the number of bytes that the second loop writes |
| TopicFilters.UnsubscribeRoundTrip | src/message/msg_unsubscribe.c:20-153 | build then parse returns the packet id and the ordered topics |
| Formats.FilterOnTheWire | src/message/msg_subscribe.c:81-95 | a filter is its big-endian length, its topic and, in a SUBSCRIBE, its QoS modulo 4 |
| Formats.FiltersInOrder | src/message/msg_subscribe.c:81-95 | the bytes of a list are those of its parts in order |
| Formats.FiltersBuilt | src/message/msg_subscribe.c:67-95 | the builders write 0x80 or 0xA0, the length, the id and the filters |
| Formats.SubscribeIff | src/message/msg_subscribe.c:112-194 | a SUBSCRIBE parses to these contents if and only if it starts with 0x80, has an exact length, and consists of exactly this id and these filters, at least one and each with a QoS of at most 2 |
| Formats.UnsubscribeIff | src/message/msg_unsubscribe.c:80-153 | the same for UNSUBSCRIBE with 0xA0 and no QoS |
| Formats.SubscribeErrors | src/message/msg_subscribe.c:122-204 | for every message which error it is turned away with: type, length, or a QoS above 2 behind a valid filter; and exactly when it is undefined: no filter, a bad first filter, or a filter that is cut off |
| Formats.UnsubscribeErrors | src/message/msg_unsubscribe.c:89-160 | the same for UNSUBSCRIBE |
| Connect.ConnectSizes | src/message/msg_connect.c:33-40 | the first sizing pass equals the bytes of the second for all flag combinations; the frame is 1 + encoded length + 10 + payload and fits the calculated buffer |
| ConnectCode.WritePayload | src/message/msg_connect.c:161-228 | the second pass stays inside the buffer of the first and fills it to the last byte with the payload |
| ConnectCode.ConnectMessageBuild | src/message/msg_connect.c:67-262 | writes exactly the frame, or rejects an overlong or missing client id and writes nothing |
| ConnectCode.ConnectMessageParse | src/message/msg_connect.c:308-589 | returns the parsed connection or the same error on every frame that the code reads only inside, including short ones that an early byte already rejects |
| Connect.ConnectParsesTo | src/message/msg_connect.c:67-583 | what parsing makes of every frame that the builder can produce, under both readings of the will test |
| Connect.ConnectRoundTripIff | src/message/msg_connect.c:67-583 | build then parse returns every field exactly when all fields are sent, the client id is not empty and, as written, there is a will |
| Connect.WillLessConnection | src/message/msg_connect.c:393-397 | a connection without a will that is rejected as written and round-trips as logged |
| Connect.ConnectRebuildIff | src/message/msg_connect.c:328-581 | parse then build is the identity on bytes exactly when the Remaining Length is minimal, the reserved bit is 0, the will QoS bits are not 11 and a flagged password is not empty |
| ConnectFormat.ConnectBuilt | src/message/msg_connect.c:67-262 | every CONNECT that is built starts with 0x10 and carries protocol header, flags, keep-alive and the fields of section 3.1.3 in order; each flag bit is decided by the caller's fields |
| ConnectFormat.ConnectIff | src/message/msg_connect.c:308-583 | a CONNECT parses to this connection if and only if it starts with 0x10 and has that layout for some flag byte that is consistent with the fields, with a client id of 1 to 23 bytes |
| ConnectFormat.ConnectErrors | src/message/msg_connect.c:320-583 | for every message which error it is turned away with, in the order type, length, protocol, level, flags, client id, fields; and exactly when the code reads behind the frame |
| Publish.PublishMessageBuild | src/message/msg_publish.c:29-122 | writes exactly the packet and byte-swaps the caller's id; on any error message, length and id are unchanged |
| Publish.PublishMessageParse | src/message/msg_publish.c:140-212 | returns flags, id and the places of topic and payload, or the same error; a QoS 0 packet whose topic runs past the frame succeeds with a wrapped payload length |
| Publish.PlacesDenote | src/message/msg_publish.c:190-211 | the places that are handed out lie in the frame and denote the parsed packet, except for a QoS 0 packet whose topic runs past the frame, where the payload length has wrapped |
| Publish.PublishRoundTrip | src/message/msg_publish.c:29-212 | build then parse returns every field for every packet that the builder accepts; bytes behind the frame end up in the payload, so it is right exactly without them |
| Publish.PublishFramedIff | src/message/msg_publish.c:73-90 | the fixed header announces the real size exactly when the body is at most 65535 bytes |
| Publish.PublishWraps | src/message/msg_publish.c:73-78 | a packet of 65538 bytes that announces 2 |
| Publish.RebuildWithLeftoverIdIff | src/message/msg_publish.c:110-115 | building an acceptable packet again with the id left by the first build sends the id with its two bytes exchanged, which is the right one exactly when they are equal |
| Publish.LeftoverIdExample | src/message/msg_publish.c:110-115 | id 1 goes out as 1 and then as 256 |
| Publish.PublishRebuildIff | src/message/msg_publish.c:35-212 | what was parsed is accepted by the builder and written as the same bytes exactly when the topic is not empty, the length field is minimal and is the body's size modulo 2^16 |
| Publish.EmptyTopicExample | src/message/msg_publish.c:35 | a frame with an empty topic, which the parser accepts and the builder refuses |
| Formats.PublishBuilt | src/message/msg_publish.c:56-119 | the first byte bit by bit, then length, topic, id for QoS 1 and 2, and payload |
| Formats.PublishIff | src/message/msg_publish.c:140-212 | a PUBLISH parses to these contents if and only if its bytes are flags, a length field that covers no more than there is, topic, id and payload in this order |
| Formats.PublishErrors | src/message/msg_publish.c:150-188 | exactly when each of the three errors is returned |
| Suback.SubackData.Append | src/message/msg_suback.c:34-59 | appends one code; a free slot means no reallocation, a full array grows by the policy, and an array grown from the default follows the closed form |
| Suback.GrowthClosedForm | src/message/msg_suback.c:11-12 | capacity 10, 20, 40 and then 10 times ceil(n/10); slack below 10 and 2 + ceil((n-40)/10) growths beyond 40 elements |
| Suback.CapacityFitsIff | src/message/msg_suback.c:40-55 | the capacity fits 16 bits exactly up to 65530 elements |
| Suback.SubackMessageBuild | src/message/msg_suback.c:93-144 | succeeds exactly when the buffer is large enough and every code is 0, 1, 2 or 0x80, and then has written the frame; another code stops the loop in front of it; a buffer that is too small is left alone |
| Suback.SubackMessageParse | src/message/msg_suback.c:156-211 | returns the id and the codes in an array whose capacity is still the initial one |
| Suback.SubackRoundTripIff | src/message/msg_suback.c:93-211 | build then parse returns the id and the codes exactly for at most 65535 codes that are all 0, 1, 2 or 0x80 |
| Suback.SubackRebuildIff | src/message/msg_suback.c:156-211 | parse then build is the identity on bytes exactly for minimal Remaining Lengths |
| Formats.SubackBuilt | src/message/msg_suback.c:93-144 | the frame is 0x90, the length, the id and the codes |
| Formats.SubackIff | src/message/msg_suback.c:156-211 | a SUBACK parses to these contents if and only if it starts with 0x90, has an exact length, and consists of this id and at most 65535 codes, each 0, 1, 2 or 0x80 |
| Formats.SubackErrors | src/message/msg_suback.c:162-203 | exactly when the type or the length is wrong, and with at most 65535 codes exactly when one of them is not 0, 1, 2 or 0x80 |
| MessageKeep.SendList.Add | src/client/message_keep.c:8-43 | appends a fresh node that holds its own copy of the message; all other nodes stay |
| MessageKeep.SendList.Find | src/client/message_keep.c:46-58 | succeeds exactly when the id is present |
| MessageKeep.SendList.Remove | src/client/message_keep.c:61-87 | unlinks exactly the first node with the id and keeps the rest in order; the unlinked node keeps its successor |
| Entries.PresentIff | src/client/message_keep.c:46-87 | an id is present exactly when searching from the front finds it |
| Client.SweepList | src/client/client_deamon.c:210-219 | the walk terminates while it deletes under itself, leaves what the fold of removals leaves, and calls back once per expired entry in list order |
| Client.RemoveCurrent | src/client/client_deamon.c:212-218 | after a removal the walk goes on at the next original node, whether the current node or an earlier one was unlinked |
| Entries.SweepExactIff | src/client/client_deamon.c:210-219 | the sweep leaves exactly the unexpired entries in order if and only if no unexpired entry precedes an expired one with its id |
| Entries.SecondSweepIff | src/client/client_deamon.c:210-219 | a second sweep at the same time changes nothing under the same condition, and only then |
| Entries.SweptSize | src/client/client_deamon.c:210-219 | for any queue each expired entry removes exactly one entry, so a removal never misses |
| Entries.DeadInOrder | src/client/client_deamon.c:212-215 | the callback gets the entries with timestamp + timeout < now, and no others, in queue order |
| Entries.RemovesItself | src/client/client_deamon.c:212-217 | where nothing is overtaken, the entry removed is the one the walk stands on |
| Entries.NotOvertaken | src/client/client_deamon.c:210-219 | distinct ids, or timestamps that never go down along the queue, are enough for that condition |
| Entries.OvertakenExample | src/client/client_deamon.c:210-219 | an unreachable queue, with timestamps that go down, on which the sweep drops the recent entry and keeps the expired one |
| Client.Client.Subscribe | src/client/client.c:185-239 | stores the frame it sent under the next id and advances the id; without a topic or a send nothing changes; the build never fails |
| Client.Client.TimerTick | src/client/client_deamon.c:185-226 | a failed read or a ping that is due and fails changes nothing; otherwise a due ping takes its time from a second clock reading, the queue is swept, and the callback's arguments are reported |
| Client.Client.InboundPublish | src/client/client_message_process.c:134-159 | a QoS 1 PUBLISH whose PUBACK is sent removes the first entry with its id; any other frame or outcome leaves the client as it was |
| Session.InboundOfBuilt | src/client/client_message_process.c:134-159 | for every packet that a PUBLISH builder accepts: only QoS 1 with a sent PUBACK removes an entry, the first with its id; the step fails exactly when an acknowledgement could not be sent |
| Session.InboundStep | src/client/client_message_process.c:145-159 | for every frame: without the QoS bits 01 or a sent PUBACK the state stays as it is; otherwise the first entry with its id goes; the return code |
| Client.Client.PubackSent | src/client/client_message_process.c:41-66 | a sent PUBACK removes the first entry with the id and succeeds whether or not there is one |
| Client.SingleFilter | src/client/client.c:202-214 | for one topic of any length the calculated buffer is large enough for the frame |
| Client.Client.constructor | src/client/client.c:126-135 | a connected client has an empty queue, next id 1, the given timeout and time, and the configured keep-alive, or 60 when 0 was configured |
| Client.ClientsAreTraced | src/client/client.c:210-235 | the run invariant and the bookkeeping hold of every client object after any calls |
| Runs.NextIdOf | src/client/client.c:230-233 | advancing the id, with the step over 0, goes from the k-th to the (k+1)-st of 1 + (k mod 65535) |
| Runs.RunTraced | src/client/client.c:210-233 | over every run entries are ordered by allocation number, ids follow it, and every message is the frame of its request |
| Ledger.RunBooks | src/client/client.c:126-233 | after every run, with failed sends, missed pings and failed reads, queue, ids, stored messages, counter and ping time are exactly those of the bookkeeping |
| Runs.StoredMessagesParse | src/client/client.c:197-233 | in every reachable state a stored message parses to its own id, its topic and the QoS modulo 4, or is undefined when that is 3; it is the request exactly when the QoS is at most 2 |
| Runs.ReachableIds | src/client/client.c:230-233 | no id is 0; two entries share an id exactly when their allocation numbers agree modulo 65535; ids are distinct while fewer than 65535 allocations lie between first and last |
| Runs.SubscribeDistinctIff | src/client/client.c:223-233 | a subscription keeps ids distinct exactly when the next id is not in the queue |
| Runs.AlwaysDistinctIff | src/client/client.c:223-233 | ids are distinct throughout a run exactly when every sent subscription found its id free |
| Runs.IdsRepeat | src/client/client.c:230-233 | after 65536 unanswered subscriptions the first and the last entry share id 1 |
| Runs.ReachableSweep | src/client/client_deamon.c:197-219 | in every reachable state a tick that sweeps leaves exactly the entries unexpired by their stored timestamps, in order, which are all or none, and hands the others to the callback in order |
| Runs.ReachableSecondTick | src/client/client_deamon.c:197-219 | in every reachable state a second tick at the same time changes nothing, as long as the second clock reading is not before the first |
| Session.MissedPing | src/client/client_deamon.c:200-207 | a ping that could not be sent changes nothing and stays due at every later reading |
| Runs.TimeoutAsMeantIff | src/client/message_keep.c:19-30 | a tick keeps exactly the entries within their timeout, by the times of their subscriptions, if and only if each is so just when the clock is not past timeout_sec |
| Runs.YoungEntrySurvivesIff | src/client/message_keep.c:19-30 | an entry still within its timeout survives a tick exactly when the clock is not past timeout_sec |
| Runs.StampedSweepExact | src/client/client_deamon.c:210-219 | with the subscription times in place of the zeros and a clock that never goes back, the sweep of any reachable queue is exact, whatever the ids |
| Runs.EarlyTimeoutExample | src/client/client_deamon.c:212-217 | a subscription of time 1000 with a timeout of 5 seconds is gone at time 1001 |
| Runs.EveryAllocationAccountedFor | src/client/client.c:223-233 | every allocation is exactly once still queued, handed to the callback, or removed by an inbound packet |
| Runs.QueueEmptyIff | src/client/message_keep.c:67-74 | a reachable queue is empty exactly when the timed out and the acknowledged entries are as many as the subscriptions |
| Runs.AckDefinedIff | src/client/message_keep.c:67-74 | acknowledging a PUBLISH is defined in a reachable state exactly while some subscription was neither timed out nor acknowledged |
| Runs.AckAfterTimeout | src/client/client_message_process.c:59-63 | after a tick that sweeps past timeout_sec the queue is empty and every acknowledged PUBLISH is undefined until a subscription is sent |
| Runs.AckAfterConnect | src/client/client_message_process.c:59-63 | a PUBLISH of QoS 1 right after the CONNECT |
| Runs.KeepAliveHolds | src/client/client_deamon.c:197-208 | over every run in which every ping succeeds, clock readings are at most d apart, and at most lag apart within a tick: less than the configured interval, or 60, has passed since the last ping, and pings are at least the interval and less than the interval plus d and lag apart |
| Runs.TimestampIsLastPing | src/client/client_deamon.c:200-208 | after every run, however it is paced and whatever failed, the timestamp is that of the last ping that was really sent |

## Left out

- Sockets, epoll, timerfd, threads and the mutex: each queue operation is one atomic step and a send is an oracle that succeeds or fails.
- The receive loop of `process_socket_event`: it depends on what `recv` returns; the header decoding that it calls is modelled.
- `message_send_and_wait_ack`: its loop does not count empty receives, so that its termination depends on the peer.
- PUBACK, PUBREC, PUBREL, PUBCOMP, UNSUBACK, PINGREQ, PINGRESP and DISCONNECT: fixed frames whose properties can be read off one branch.
- CONNACK, `mqtt_client_publish` (a stub) and the acknowledgement handlers that only parse: no state to reason about.
- `malloc` failures, `free` and logging: allocation always succeeds, and an unlinked node keeps its fields instead of becoming invalid, which is what the sweep relies on.
- NULL arguments: references are never null, except the optional fields of CONNECT and the packet id of PUBLISH, where NULL has a meaning.
- The timeout callback: its arguments are recorded, and it does not change the queue.
- A second CONNECT on a queue that is not empty: a run starts just after one CONNECT.
- UTF-8 validity of strings: the code treats them as bytes.
- TopicFilters.FilterMessageBuild: requires a body below 2^28 bytes, because the C code encodes a longer length past the end of its local four-byte buffer.
- Publish.PublishMessageBuild: returns message lengths of 2^32 bytes and more as they are, where the C code's `uint32_t` length wraps.
