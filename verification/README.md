# source-query-proxy, verified

A Dafny 4.11 model of a caching proxy for the Source engine's A2S queries. It covers the message codec, the splitting and
reassembly of packets, the proxy's state machine, the challenge exchange, and the layered configuration; the parts compose
into one theorem about what a client receives. `dafny verify dfyconfig.toml` checks everything.

The wire format is the one of Valve's "Server queries" page: the sections "Multi-packet Response Format", "A2S_INFO",
"A2S_PLAYER", "A2S_RULES" and "A2S_SERVERQUERY_GETCHALLENGE".

| files | what they model |
|---|---|
| `wire.dfy`, `codec*.dfy`, `nested_arrays.dfy` | `struct` integers; schemas as a datatype with one `Encode` and one `Decode`; their laws; which values can be encoded; the loops with their mutable counts; arrays in arrays |
| `messages.dfy`, `reading.dfy`, `fragments.dfy`, `layouts.dfy`, `dispatch.dfy`, `packets.dfy`, `info_response.dfy`, `players.dfy`, `listings.dfy`, `response_encoding.dfy` | the concrete messages as schemas and byte by byte; fragment headers; which class a packet is decoded as; which decoded responses can be encoded again |
| `splitting.dfy` | `send_packet` |
| `lru.dfy`, `reassembly.dfy`, `reassembly_runs.dfy`, `receiver.dfy`, `transport.dfy`, `receiving.dfy` | the 1024-entry table; `handle_fragments` on values and as an object; whole runs; the receive loops |
| `okfail.dfy`, `awaitable.dfy`, `proxy.dfy`, `proxy_runs.dfy`, `proxy_tasks.dfy`, `challenge.dfy` | the fail counter, `AwaitableDict`, the atomic steps, all runs, `QueryProxy` as an object, `send_recv_packet` |
| `listener.dfy`, `end_to_end.dfy`, `end_to_end_in_order.dfy`, `end_to_end_runs.dfy` | the listener in bytes; client, network and proxy together, at one time, with a network that keeps the order, and over whole runs |
| `dict_merge.dfy`, `config.dfy`, `config_laws.dfy`, `config_loading.dfy` | the merge, the loading of all files, where every setting comes from, when files can be loaded |

Code between two awaits is one step. An exchange that ends in an exception other than a timeout changes nothing, so it is
no event of the state machine. Exceptions are values: `Outcome` tells BrokenMessageError (`Broken`), which `default=None`
catches, from every other exception (`Crash`), such as the ValueError of `Platform`; in the configuration `Broken` is
ConfigurationError.

Where the code and its documentation or apparent intention differ, the model follows the code:

- `send_packet` divides by the split size but each fragment carries 12 bytes less, so some sizes lose their tail
  (`ExactLoss`).
- `PlayerEntry` is a packet, so encoding a player list inserts headers that decoding does not expect
  (`PlayersInvertedIffEmpty`, `DecodedPlayersEncode`).
- `PlatformField`, `ServerTypeField`, `MSAddressEntryIPField` and `MessageDictField` cannot encode what they decode
  (`DecodeThenEncode`, `DecodedInfoNeverEncodes`, `DecodedAddressesNeverEncode`, `DecodedRulesEncode`).
- The `minimum` of a `value_of` count is whatever its last call left behind, so an empty list is accepted, rejected or an
  AttributeError depending on earlier uses of the same class (`EmptyArrayEncodes`, `DecodeThenEncode`); of arrays in
  arrays some can never be encoded again (`NeverEncodedAgain`).
- `default_value` is used when a field *is* optional, unlike its docstring says.
- Globals are applied before the defaults of a file and what is there wins, so a global beats local defaults and a later
  global, contrary to the comment in `examples/conf.d/00-globals.yaml` (`FirstDefinitionWins`).
- A later file with an empty `servers` section erases the servers of all earlier files (`MergedServer`).
- Overlapping calls of `wait_ready` lose answers (`OverlapLosesAnswers`, `EveryRunShows`).
- The updaters cache whatever arrives, also what does not decode, so cached bytes without the ordinary header are not
  claimed to decode; the counter is shared, so nothing is claimed about how old the bytes of one key are.

## Model

| member | source | states |
|---|---|---|
| EndToEnd.ClientGetsCachedBytes | source_query_proxy/proxy.py:190-231 | a client running `send_recv_packet` against an online proxy, over a network that reorders and repeats datagrams, also whole responses, and mixes in other traffic, ends with exactly the bytes the proxy has cached when it answers a request that asks for them, and the message they decode to; one request for the info or for a client that knows our challenge, otherwise one more for every time our challenge is brought to it, which is two requests when nothing whole is repeated |
| EndToEnd.WithRepeats | source_query_proxy/proxy.py:205-231 | the same from any point of the call on, with the responses sent so far |
| EndToEndRuns.ClientGetsLastAnswer | source_query_proxy/proxy.py:154-364 | the same over whole runs: those bytes are the ones the matching updater received last, whatever the other updaters and single `wait_ready` calls have done; of the bytes only the ordinary header and a lossless size are asked |
| EndToEndRuns.HeardIsReadable | source_query_proxy/transport.py:183-191 | whatever a `recv_packet` of a client gives with a message that is no challenge, or with none, decodes to such a message again, if it has the ordinary header |
| EndToEndRuns.ReturnedIsHeard | source_query_proxy/proxy.py:217-231 | what an updater caches is such data |
| EndToEndRuns.BrokenHasNoHeader | source_query_proxy/transport.py:44-47 | a datagram reported as broken does not have the ordinary header |
| EndToEndRuns.ReachedServes | source_query_proxy/proxy.py:154-177 | a proxy whose run had a success and fewer than the threshold of timeouts since is online and shows the last answers |
| EndToEnd.DataEnds | source_query_proxy/proxy.py:217-231 | an exchange that brings data ends the call with exactly that data |
| EndToEnd.ChallengeContinues | source_query_proxy/proxy.py:217-229 | an exchange that brings our challenge is followed by a request with it |
| EndToEnd.CutShort | source_query_proxy/proxy.py:205-231 | a call during which nothing arrives times out; one whose `recv_packet` raises ends with that exception |
| EndToEnd.ProxyAsksOnce | source_query_proxy/proxy.py:312-330 | whatever the states of the proxy are when it handles the packets of a call, online or not, with or without data: when challenges come from it alone, at most two packets are sent, the second with our challenge, and never two for the info |
| EndToEnd.CarriesDelivers | source_query_proxy/transport.py:105-118 | whatever response of lossless size the network carries, the client's `recv_packet` returns exactly it and nothing earlier, and its table stays valid |
| EndToEnd.InOrderCarries | source_query_proxy/transport.py:81-103 | such a network exists for every response of lossless size: delivering the datagrams of `send_packet` in order |
| EndToEndInOrder.InOrderFaithful | source_query_proxy/proxy.py:190-231 | everything that `ClientGetsCachedBytes` asks for holds together: for every online proxy with data for the request, delivery in order takes one exchange for the info and for a client that knows our challenge, and two for players and rules otherwise |
| EndToEndInOrder.InOrderGetsCachedBytes | source_query_proxy/proxy.py:190-231 | what such a client ends with: the cached bytes, after that one request or after two, the second with our challenge |
| EndToEndInOrder.HeaderIsDeliverable | source_query_proxy/transport.py:139-148 | there are data that can be delivered: already the ordinary header alone, which no class reads |
| EndToEnd.ReceiveLast | source_query_proxy/transport.py:105-118 | `recv_packet` goes on over datagrams that complete nothing and returns what the first completing one gives |
| EndToEnd.RequestRead | source_query_proxy/transport.py:151-169 | every request an updater or a game client sends, the info request with a challenge or without and the others with one, fits one datagram and is decoded by the listener as the same query with the same challenge |
| EndToEnd.Serves | source_query_proxy/proxy.py:155-177 | what the listener sends back for such a datagram is the response for that query, whatever its table of fragments holds |
| Listeners.QueryRead | source_query_proxy/proxy.py:312-330 | what the listener takes any request body for, told by its bytes: 0x54 and a text for the info, with a challenge behind it or not, 0x55 and 0x56 with four bytes for players and rules with that challenge, and nothing else |
| Listeners.ServesBytes | source_query_proxy/proxy.py:154-177 | the bytes it sends back for any datagram with the ordinary header: nothing while offline or for port 0; the cached info; for our challenge the cached players or rules, for another header, 0x41 and our challenge |
| Listeners.ServesInfo | source_query_proxy/proxy.py:312-318 | every encoded info request, of either class, with a challenge or without, is answered with the cached info |
| EndToEnd.ChallengeCarried | source_query_proxy/proxy.py:325-328 | our challenge response is lossless and is read by a client as exactly our challenge |
| Splitting.SendPacket | source_query_proxy/transport.py:81-103 | which packets are sent and as which datagrams; when it raises, and that nothing has been sent then |
| Splitting.SendFragments | source_query_proxy/transport.py:90-103 | the loop over the iterator sends exactly the specified fragments; ValueError for a negative slice size, BrokenMessageError for a count or slice size that does not fit its header field |
| Splitting.DatagramPart | source_query_proxy/transport.py:93-103 | datagram `i` is read by the receiver as fragment `i` of the right message and count with the `i`-th slice |
| Splitting.JoinSlices | source_query_proxy/transport.py:88-93 | the first `n` slices joined are the prefix of that length, at most the whole packet |
| Splitting.ExactLoss | source_query_proxy/transport.py:87-93 | a packet of length q*s+r (1<=r<=s, q>=1) is cut into q+1 fragments whose contents joined are its first min(L, (q+1)*(s-12)) bytes; nothing is lost iff r+12*(q+1)<=s |
| Splitting.LosslessIff | source_query_proxy/transport.py:87-93 | the arithmetic test for a lossless length agrees with the joined slices being the packet |
| Splitting.CeilIs | source_query_proxy/transport.py:87 | the quotient is rounded up, for either sign of the split size |
| Splitting.LossAt1200 | source_query_proxy/transport.py:37-38 | at split size 1200 every length up to 2376 is lossless and 2377 is not, 117612 is and nothing longer is, and lossless packets are sendable and stay under 100 fragments |
| Layouts.SentLayout | source_query_proxy/transport.py:86-103 | every byte of every datagram of a long packet: split header, message id, count, index, slice size and slice, each in its place |
| Layouts.FragmentHeaderLayout | source_query_proxy/source/messages.py:486-493 | the header of a fragment is twelve bytes with each of its four numbers in its place |
| Fragments.FragmentHeaderEncodes | source_query_proxy/source/messages.py:486-493 | the fragment header can be packed iff id, count, index and slice size fit their fields, and fails in no other way than BrokenMessageError |
| Fragments.HeaderEncodes | source_query_proxy/source/messages.py:44-62 | either header is four bytes that decode to it |
| Fragments.ParseInvertsFragmentHeader | source_query_proxy/transport.py:45-53 | the receiver reads from a fragment exactly the id, count, index and content the sender wrote, as not compressed |
| Fragments.ParseRanges | source_query_proxy/transport.py:45-58 | reading any datagram fails in no way but BrokenMessageError; the numbers of a fragment are in their ranges, and it is compressed iff its message id is negative |
| Fragments.ParseUnsplit | source_query_proxy/transport.py:45-47 | every datagram with the ordinary header is handed on whole |
| Layouts.DatagramLayout | source_query_proxy/transport.py:44-53 | how every datagram is read, byte by byte: unsplit iff it starts with ff ff ff ff; after fe ff ff ff the message id in four bytes, count and index in one each, and the content after two more, or after eight more when the sign bit of the id is set; BrokenMessageError for anything else or shorter |
| Layouts.PlainFragment | source_query_proxy/source/messages.py:486-493 | any fragment of any server in this layout is read as exactly its id, count, index and content |
| Layouts.CompressedFragment | source_query_proxy/source/messages.py:504-520 | the same for a compressed fragment, with its content behind size and checksum |
| Pylru.TouchValid | source_query_proxy/transport.py:56 | a lookup keeps the cache consistent and evicts nothing |
| Pylru.PutValid | source_query_proxy/transport.py:68 | setting a key keeps at most 1024 keys and evicts no key but the oldest |
| Pylru.DropValid | source_query_proxy/transport.py:77 | `pop` removes one key and keeps the rest |
| Pylru.PutKeepsNewer | source_query_proxy/transport.py:42 | putting another key evicts a key only if 1024 other keys, counting the new one, were used since it was |
| Pylru.DistinctBounded | source_query_proxy/transport.py:42 | pigeonhole behind the eviction bound |
| Pylru.LruCache.Get | source_query_proxy/transport.py:56 | looking up makes the key the newest |
| Pylru.LruCache.Set | source_query_proxy/transport.py:68 | setting makes the key the newest and evicts the oldest from a full cache |
| Pylru.LruCache.Pop | source_query_proxy/transport.py:77 | removes the key if it is there |
| Receiver.SourceDatagramStream.Open | source_query_proxy/transport.py:55-68 | finds or makes the entry of a message id in place; a new one takes its count, at most 100, from the fragment |
| Receiver.SourceDatagramStream.Add | source_query_proxy/transport.py:70-79 | appends in place unless the index is there; when complete, removes the entry, sorts its list in place and joins the contents |
| Receiver.SourceDatagramStream.HandleFragment | source_query_proxy/transport.py:53-79 | both halves together are the step of the table on values |
| Receiver.SourceDatagramStream.HandleIncoming | source_query_proxy/transport.py:44-79 | the object refines the table on values, and as long as at most 1024 ids are live also the dictionary that never evicts, kept beside it as ghost state |
| Transport.HandleFragments | source_query_proxy/transport.py:44-79 | the same on bytes |
| Reassembly.HandleValid | source_query_proxy/transport.py:44-77 | after every call on any datagram: at most 1024 entries, each with pairwise distinct fragment ids and 1 <= stored < expected <= 100; a malformed datagram leaves the table unchanged |
| Reassembly.AfterValid | source_query_proxy/transport.py:44-77 | the same over every run |
| Reassembly.FirstFragment | source_query_proxy/transport.py:58-74 | the first fragment of a message opens an entry with exactly it, and with its count trimmed to 100 |
| ReassemblyRuns.DisappearsOnlyByEviction | source_query_proxy/transport.py:55-77 | in a run without fragments of an id its entry is untouched, unless 1024 other ids were touched since its own last fragment |
| ReassemblyRuns.SurvivesUntilEvicted | source_query_proxy/transport.py:55-77 | a partial packet that is not delivered is still there after any run touching fewer than 1024 other ids |
| ReassemblyRuns.SameStep | source_query_proxy/transport.py:55-77 | one step of the bounded table is one step of the unbounded dictionary |
| ReassemblyRuns.RefinesUnbounded | source_query_proxy/transport.py:42-79 | on every run with at most 1024 ids live at once the bounded table delivers exactly what the unbounded dictionary delivers |
| ReassemblyRuns.DeliveryConservation | source_query_proxy/transport.py:53-79 | for fragments that agree on a count n in 1..100 with ids below n: a message is completed at most as often as any one of its fragments arrives, counting one already stored, even with evictions and late duplicates |
| ReassemblyRuns.SortSorts | source_query_proxy/transport.py:78 | sorting keeps the pieces and puts their ids in order |
| ReassemblyRuns.AllThere | source_query_proxy/transport.py:70-74 | pigeonhole: n distinct ids below n are all of them |
| ReassemblyRuns.CompleteDelivers | source_query_proxy/transport.py:77-79 | all pieces of a packet, in whatever order they came, compressed or not, deliver the contents joined in order, each compressed one as the decompressor gives it; the error of the decompressor iff one does not decompress |
| ReassemblyRuns.ContentsJoin | source_query_proxy/transport.py:79 | joining succeeds iff every compressed piece decompresses, and then gives the contents in order |
| ReassemblyRuns.Collects | source_query_proxy/transport.py:53-79 | from any stage of collecting a packet, the datagram that brings the last missing fragment delivers it, or its error, and none of its fragments before does |
| ReassemblyRuns.ShuffledCollects | source_query_proxy/transport.py:53-79 | the same from the first fragment on, for any order with duplicates and other traffic, compressed or not |
| ReassemblyRuns.InOrderIsShuffled | source_query_proxy/transport.py:92-103 | in-order delivery is one such order |
| Transport.DatagramsAreFragments | source_query_proxy/transport.py:88-103 | the datagrams of a long packet are read as the fragments of its slices |
| Transport.ReassemblyInvertsSplitting | source_query_proxy/transport.py:44-103 | for every packet of lossless size, every order of its datagrams, duplicates before completion and traffic of fewer than 1024 other ids: None until the last missing fragment, then exactly the packet, and the entry is gone |
| Receiving.RecvPacket | source_query_proxy/transport.py:105-118 | the receive loop returns at the first datagram that completes something, is broken or raises |
| Receiving.RecvMessage | source_query_proxy/transport.py:162-191 | the server's and the client's `recv_packet`: a broken datagram gives no message and its raw bytes, a broken header inside a whole packet raises |
| Receiving.UnreadableIsReported | source_query_proxy/transport.py:105-118 | a datagram with neither header, or with a fragment header cut off, gives no message and its raw bytes, and leaves the table as it was |
| Receiving.WholeIsDecoded | source_query_proxy/transport.py:139-148 | whole data are decoded behind their header; without a header `recv_packet` raises |
| Receiving.CorruptRaises | source_query_proxy/transport.py:105-118 | a packet whose contents do not decompress raises |
| Wire.Pack | source_query_proxy/source/messages.py:139-143 | packing succeeds iff the value is in the range of the format and gives exactly its width; otherwise BrokenMessageError |
| Wire.UnpackInvertsPack | source_query_proxy/source/messages.py:138-174 | unpacking inverts packing, signed or not, both byte orders |
| Wire.PackInvertsUnpack | source_query_proxy/source/messages.py:138-174 | packing inverts unpacking |
| Wire.ShortIs | source_query_proxy/source/messages.py:199-200 | the value of two bytes: low byte first, two's complement |
| Wire.LongIs | source_query_proxy/source/messages.py:207-208 | the value of four bytes: low byte first, two's complement |
| Wire.PackIs | source_query_proxy/source/messages.py:138-143 | what is packed for a short and a long: those bytes |
| Codec.Terminator | source_query_proxy/source/messages.py:190-195 | the first NUL, or none |
| Codec.Decode | source_query_proxy/source/messages.py:465-472 | what is left is a suffix of the input, shorter whenever the schema has a scalar field; the termination measure of open arrays |
| Codec.DecodeField | source_query_proxy/source/messages.py:145-196 | the same for one field |
| Codec.DecodeMany | source_query_proxy/source/messages.py:299-345 | the array loop ends, leaves a suffix, and gives at least the minimum of entries |
| CodecEncodable.EncodesIff | source_query_proxy/source/messages.py:455-463 | for every schema and all values: what `encode` accepts, by presence, types, ranges, validators and the lengths that counts ask for, and the minimums that it leaves behind |
| CodecEncodable.ScalarErrors | source_query_proxy/source/messages.py:101-143 | which scalar values fail with BrokenMessageError and which raise otherwise, and that a default stands in for a missing value |
| CodecEncodable.ArrayErrors | source_query_proxy/source/messages.py:282-291 | what becomes of array values that are no lists |
| CodecEncodable.ItemsErrors | source_query_proxy/source/messages.py:282-297 | how the element loop fails: no usable count, one element too many, or the first element that fails |
| CodecEncodable.FirstFailure | source_query_proxy/source/messages.py:455-463 | the first field that fails decides how a message fails |
| CodecEncodable.EncodableRoundTrip | source_query_proxy/source/messages.py:455-472 | for every schema of header-less lists with counts fixed or given by an earlier field: exactly the encodable values are encoded, and decoding that, whatever follows it, gives the values with their defaults and leaves exactly what follows |
| CodecEncodable.EncodableRoundTripExact | source_query_proxy/source/messages.py:455-472 | with every field given, exactly the given values |
| CodecLaws.RoundTripScalar | source_query_proxy/source/messages.py:138-196 | the round trip of one scalar field |
| CodecLaws.RoundTripArray | source_query_proxy/source/messages.py:282-345 | the round trip of one array whose count is fixed or refers to an earlier field |
| CodecLaws.EncodedCount | source_query_proxy/source/messages.py:282-297 | every encoded list of fixed count has that many elements, or is empty for a negative count |
| CodecArrays.RoundTripOpenArray | source_query_proxy/source/messages.py:360-396 | an encoded `all` or `at_least` array reads back exactly iff what follows it cannot be read as one more element |
| CodecLaws.SelfDelimiting | source_query_proxy/source/messages.py:465-472 | with bounded counts, decoding b ++ x gives the values of b and its tail ++ x |
| CodecLaws.SelfDelimitingField | source_query_proxy/source/messages.py:145-196 | the same for one field |
| CodecLaws.SelfDelimitingMany | source_query_proxy/source/messages.py:299-345 | the same for the array loop |
| CodecLaws.Canonical | source_query_proxy/source/messages.py:455-472 | for every schema with distinct names, whatever its arrays: if a decoded message can be encoded, the encoding is as long as what was consumed and four bytes more for every element, at any depth, that is a packet; followed by the tail it is the original buffer iff there is no such element |
| CodecLaws.CanonicalField | source_query_proxy/source/messages.py:138-196 | the same for one field |
| CodecLaws.CanonicalMany | source_query_proxy/source/messages.py:282-345 | the same for the array loop |
| CodecLaws.DecodeKeeps | source_query_proxy/source/messages.py:465-472 | later fields do not change earlier values |
| CodecEncodable.DecodeThenEncode | source_query_proxy/source/messages.py:455-472 | for every schema with distinct names: a decoded message can be encoded again iff neither it nor an element that is present has a Platform, a ServerType or an address, no dictionary in it has entries, and the minimums that earlier calls left behind allow its empty counted lists when their turn comes; the encoding is as long as what was consumed and four bytes more for every element that is a packet, and is what was consumed iff there is none |
| CodecEncodable.NeverEncodable | source_query_proxy/source/messages.py:217-230 | in particular a message with a Platform, a ServerType or an address among its own fields is never encodable once it was decoded |
| CodecEncodable.OneWayFails | source_query_proxy/source/messages.py:138-143 | and with only other scalars before it the failure is BrokenMessageError for the object and an AttributeError for the address |
| ResponseEncoding.DecodedInfoNeverEncodes | source_query_proxy/source/messages.py:547-566 | a decoded info response is never encoded again: BrokenMessageError |
| ResponseEncoding.DecodedAddressesNeverEncode | source_query_proxy/source/messages.py:664-676 | nor is a decoded master-server response, whatever it lists: AttributeError |
| ResponseEncoding.DecodedPlayersEncode | source_query_proxy/source/messages.py:585-601 | a decoded players response can be encoded again iff it has players or the stored minimum of its count is at most zero; the encoding has four bytes more for every player, so it is what was consumed iff there are none |
| CodecEncodable.FlatIff | source_query_proxy/source/messages.py:292-296 | in schemas whose elements hold no arrays that is: iff for every empty counted list a number of at most zero is stored before |
| CodecEncodable.EmptyAfterNonEmpty | source_query_proxy/source/messages.py:350-358 | in an array of elements of any schema that hold a counted list with a count of its own, an element with an empty list cannot follow one with a non-empty list, whatever is stored and whatever else the elements hold |
| CodecEncodable.NestedNeverEncodes | source_query_proxy/source/messages.py:282-297 | so a decoded message with such an array is never encoded again |
| NestedArrays.NeverEncodedAgain | source_query_proxy/source/messages.py:282-297 | a concrete case: three bytes decoded as two rows, the first with one cell and the second with none, are never encoded again |
| CodecEncodable.DecodeAndEncode | source_query_proxy/source/messages.py:455-472 | decoding and encoding right after it: for schemas whose elements hold no arrays it succeeds iff nothing in the message is of a kind that `encode` never accepts, for others iff what the decoding has stored also allows the empty lists; it gives back exactly the consumed bytes iff no element is a packet |
| CodecArrays.EmptyArrayEncodes | source_query_proxy/source/messages.py:292-296 | an empty `value_of` array is accepted iff an earlier call left a minimum of at most zero, and AttributeError iff none left a number |
| ResponseEncoding.DecodedRulesEncode | source_query_proxy/source/messages.py:421-426 | a decoded rules response can be encoded again iff its count, and the minimum stored for it, are at most zero, and then to what was consumed |
| ResponseEncoding.RulesListRoundTrip | source_query_proxy/source/messages.py:404-426 | a list of rules is encoded as its strings and read back as the last-wins dictionary |
| ResponseEncoding.NothingIsOptional | source_query_proxy/source/messages.py:101-110 | no response, entry or fragment can be encoded with a field missing |
| ResponseEncoding.KindsEncode | source_query_proxy/source/messages.py:138-143 | server type and platform are encoded from numbers of one byte |
| CodecArrays.EncodeFrame | source_query_proxy/source/messages.py:353-358 | encoding changes the `minimum` of no count but its own |
| CodecLoops.CountClosures.Call | source_query_proxy/source/messages.py:350-396 | one call of a count: the counter that stays ahead, or the stored minimum |
| CodecLoops.DecodeMessage | source_query_proxy/source/messages.py:465-472 | the decoding loop computes the specified result, disturbs no count of other schemas, and leaves in every count of its own the number that was decoded for it |
| CodecLoops.DecodeOne | source_query_proxy/source/messages.py:145-196 | the same for one field |
| CodecLoops.DecodeArray | source_query_proxy/source/messages.py:299-345 | the array loop with its mutable counter computes the specified result; the counter never ends it |
| CodecLoops.EncodeFields | source_query_proxy/source/messages.py:455-463 | the encoding loop computes the specified bytes or failure and the specified minimums |
| CodecLoops.EncodeOne | source_query_proxy/source/messages.py:65-71 | the same for one field, with its default |
| CodecLoops.EncodeArray | source_query_proxy/source/messages.py:282-297 | the array loop, calling its count for every element |
| Messages.FirstByte | source_query_proxy/source/messages.py:525-609 | a message whose schema starts with a type byte is broken on any other byte and otherwise decoded from the rest |
| Dispatch.DecodeClasses | source_query_proxy/transport.py:139-148 | the first-match loop |
| Packets.ResponseOf | source_query_proxy/transport.py:183-191 | what a client decodes, by the first byte: 0x49 info, 0x44 players, 0x45 rules, 0x41 and four bytes a challenge, otherwise nothing |
| Packets.RequestOf | source_query_proxy/transport.py:151-169 | what the listener decodes, by the bytes of the body |
| Packets.TypeIsRequired | source_query_proxy/source/messages.py:101-110 | requests and challenges fill in their type byte; info, players and rules responses raise without it |
| Packets.PayloadText | source_query_proxy/source/messages.py:525-532 | the default payload of an info request is the text `Source Engine Query` |
| Dispatch.TypeByteFirst | source_query_proxy/transport.py:143-146 | every class is decided by its type byte |
| Dispatch.OneFamily | source_query_proxy/transport.py:139-178 | over all byte strings at most one message family does anything but decline |
| Dispatch.OrderIrrelevant | source_query_proxy/transport.py:152-157 | lists of the same classes give the same result in any order, unless both info forms are in them and the longer one is readable |
| Dispatch.FormsOrderMatters | source_query_proxy/transport.py:152-154 | any two lists of the same classes with both info forms agree on a body iff it is not readable as the longer form, or both try the same form first |
| Dispatch.InfoForms | source_query_proxy/source/messages.py:525-544 | a 0x54 body with k bytes after its terminator is the protected form iff k >= 4, with its challenge and tail |
| Dispatch.ShortEncodes | source_query_proxy/source/messages.py:569-609 | players and rules requests and challenge responses are header, type byte and challenge; without a challenge they raise |
| Dispatch.ShortRoundTrip | source_query_proxy/transport.py:139-148 | they come back as their own class with their own challenge from every class list that has them |
| Dispatch.InfoRoundTrip | source_query_proxy/transport.py:139-157 | the protected info request comes back with its challenge; without one it comes back as the plain form |
| Players.HeaderlessPlayers | source_query_proxy/source/messages.py:585-601 | player lists written without headers are read back exactly |
| Players.PlayersInvertedIffEmpty | source_query_proxy/source/messages.py:294 | player lists as `encode` writes them are read back exactly iff they are empty |
| Players.HeaderSpoilsEntry | source_query_proxy/source/messages.py:585-592 | an entry read through its inserted header is never the entry that was written |
| Players.PlayersDecode | source_query_proxy/source/messages.py:595-601 | how every buffer is decoded as a players response |
| Players.EntryRead | source_query_proxy/source/messages.py:585-592 | how an entry is read from any bytes: index, name up to its NUL, score in four bytes, four bytes of duration; broken when one is missing |
| Listings.RulesDecode | source_query_proxy/source/messages.py:612-629 | for every buffer: a rules response is its type byte, its count as a short, and strings; it is broken iff one of these is missing or fewer than 2n strings are left; otherwise the dictionary in which each key has its last value, and the rest |
| Listings.RulesLastWin | source_query_proxy/source/messages.py:421-426 | for every list of rules the decoded dictionary is its last-wins fold and the tail is untouched |
| Listings.RulesUnique | source_query_proxy/source/messages.py:416-426 | a buffer starts with at most one list of rules of a given length |
| Listings.MasterServerDecode | source_query_proxy/source/messages.py:664-676 | the first six bytes are the starting address; n more bytes give n/6 addresses, each the host and the port, high byte first, of its own six bytes, and a tail of n%6 bytes |
| InfoResponses.InfoRead | source_query_proxy/source/messages.py:547-566 | how every buffer is decoded as an info response, byte by byte: type byte, protocol, four texts, app id as a short, three counts, server type, platform, two flags, version, tail; broken when one is missing, and the ValueError of `ServerType` or `Platform` exactly where that byte is none of theirs |
| InfoResponses.InfoDecode | source_query_proxy/source/messages.py:547-566 | an info response put together from any such parts is read as exactly them, with what follows left over |
| InfoResponses.InfoPacketRead | source_query_proxy/transport.py:139-148 | what a client decodes such a packet as |
| OkFail.LastOkFailCounter.constructor | source_query_proxy/proxy.py:69-80 | the counter starts as if the threshold had been reached |
| OkFail.LastOkFailCounter.Ok | source_query_proxy/proxy.py:82-91 | one success, and the callback it runs |
| OkFail.LastOkFailCounter.Fail | source_query_proxy/proxy.py:93-101 | one failure, and the callback it runs |
| OkFail.OnlineRefinesHistory | source_query_proxy/proxy.py:68-101 | with a clock that does not go back and threshold T >= 1: online iff some exchange succeeded and fewer than T timeouts of all updaters followed the last success |
| OkFail.CallbacksAlternate | source_query_proxy/proxy.py:129-135 | the callbacks alternate and the last one is the status |
| OkFail.RunTracks | source_query_proxy/proxy.py:68-101 | the invariant behind both |
| OkFail.LateCountsForNothing | source_query_proxy/proxy.py:82-101 | with any clock: exchanges earlier than the last success count for nothing |
| Awaitable.AwaitableDict.constructor | source_query_proxy/proxy.py:347 | a dictionary of futures shows exactly the dictionary it is made from |
| Awaitable.AwaitableDict.SetItem | source_query_proxy/proxy.py:33-42 | a pending future is resolved in place, any other is replaced |
| Awaitable.AwaitableDict.GetWait | source_query_proxy/proxy.py:58-65 | the future that is waited for, made if there is none |
| Awaitable.AwaitableDict.Cancel | source_query_proxy/proxy.py:358-362 | a cancelled wait cancels its future unless it is done |
| Awaitable.AwaitableDict.ToDict | source_query_proxy/proxy.py:44-56 | exactly the keys that `get` finds, with the values that it gives |
| Awaitable.RefinesPlainDict | source_query_proxy/proxy.py:33-65 | under any interleaving of sets, waits and cancellations the ready entries are those of an ordinary dictionary given the same sets |
| Awaitable.WaitReturns | source_query_proxy/proxy.py:58-65 | how a wait ends, whatever is set, awaited or cancelled after it: the current value, or the first value written to the key, or cancelled when it is abandoned before that or its future was cancelled already; until then it goes on waiting |
| Proxy.StepView | source_query_proxy/proxy.py:233-364 | one step: clients see a change only by an answer, and only of its key, except when a wait ends whose dictionary shows something else |
| Proxy.StepDict | source_query_proxy/proxy.py:345-364 | the dictionary of a wait changes what it shows only by answers while it is the cache |
| ProxyRuns.ViewIsLastAnswers | source_query_proxy/proxy.py:345-364 | over every run with one `wait_ready` at a time, clients see exactly the last answer of every updater, whatever is swapped, awaited or cancelled |
| ProxyRuns.WaitsLeaveNoTrace | source_query_proxy/proxy.py:345-364 | once every wait has ended, cache and status are those of the same run without any wait |
| ProxyRuns.OverlapLosesAnswers | source_query_proxy/proxy.py:364 | whenever the beginning or the end of another wait takes the cache from a wait, and whatever happens then, the end of that wait takes the cache back to what it was; nothing is lost iff no answer in between was news |
| ProxyRuns.EveryRunShows | source_query_proxy/proxy.py:345-364 | over every possible run, with any overlap of waits, what clients see is told by the events alone: the answers, except that the end of a wait shows what clients saw when it lost the cache |
| ProxyRuns.OverlapEmptiesCache | source_query_proxy/proxy.py:347-364 | two overlapping waits can leave the proxy online with nothing to serve |
| ProxyRuns.ServesHistory | source_query_proxy/proxy.py:154-177 | every decision of the listener is a function of the history: silence unless online; the last bytes of the matching updater for the info and for our challenge; our challenge otherwise |
| ProxyRuns.OnlineHasData | source_query_proxy/proxy.py:254-255 | a proxy that is online has something cached |
| ProxyRuns.KeysStay | source_query_proxy/proxy.py:345-364 | a key that clients can be given stays, through every swap |
| ProxyRuns.StatusIsRun | source_query_proxy/proxy.py:251-308 | the status over all events is that of the exchanges alone |
| ProxyRuns.SuccessIsAnswer | source_query_proxy/proxy.py:253-308 | every success has left an answer |
| ProxyTasks.QueryProxy.constructor | source_query_proxy/proxy.py:109-127 | the proxy starts offline with an empty cache |
| ProxyTasks.QueryProxy.TimedOut | source_query_proxy/proxy.py:251-252 | a timed-out exchange counts as a failure and changes nothing else |
| ProxyTasks.QueryProxy.Answered | source_query_proxy/proxy.py:253-255 | an answered exchange counts as a success and is cached, whatever it is |
| ProxyTasks.QueryProxy.Update | source_query_proxy/proxy.py:233-310 | one round of an updater: it sends the info request without a challenge and the others with -1, has the conversation that the replies determine, and then an answer, a timeout, or no change |
| ProxyTasks.QueryProxy.BeginWait | source_query_proxy/proxy.py:347 | `resp_cache` becomes a new dictionary of futures that shows the same |
| ProxyTasks.QueryProxy.WaitFor | source_query_proxy/proxy.py:349-360 | one coroutine of `wait_ready` asks for a key |
| ProxyTasks.QueryProxy.Abandon | source_query_proxy/proxy.py:359-362 | the end of the graceful period cancels its future |
| ProxyTasks.QueryProxy.EndWait | source_query_proxy/proxy.py:363-364 | `resp_cache` becomes a plain dictionary of what is ready |
| ProxyTasks.QueryProxy.GetResponseFor | source_query_proxy/proxy.py:312-330 | the decision on the object is the decision of the state machine |
| ProxyTasks.QueryProxy.Listen | source_query_proxy/proxy.py:154-177 | the same for a round of the listener |
| Challenges.SendRecvPacket | source_query_proxy/proxy.py:203-231 | the loop computes the conversation that the replies determine |
| Challenges.FollowsChallenges | source_query_proxy/proxy.py:205-231 | send k+1 carries the k-th received challenge; what is returned is the first reply that is no challenge, with the challenge sent last |
| Challenges.TwoSends | source_query_proxy/proxy.py:205-231 | a responder with one challenge is sent at most two packets |
| DictMerge.Idempotent | source_query_proxy/dict_merge.py:6-25 | merging a tree into itself changes nothing |
| DictMerge.NothingToAdd | source_query_proxy/dict_merge.py:6-25 | defaults change nothing iff every dictionary of theirs is covered |
| DictMerge.Absorbs | source_query_proxy/dict_merge.py:6-25 | merging the same defaults twice is merging them once |
| DictMerge.AssociativeIff | source_query_proxy/dict_merge.py:6-25 | the merge is associative exactly for trees in which no leaf stands between two dictionaries of which the last does not cover the first |
| DictMerge.Associative | source_query_proxy/dict_merge.py:6-25 | in particular whenever no path is a leaf in the first and a dictionary in the second |
| DictMerge.NotAssociative | source_query_proxy/dict_merge.py:19-21 | and otherwise not: a family of counterexamples |
| DictMerge.LeafOfMerge | source_query_proxy/dict_merge.py:16-25 | for every path and any two trees, which of the two the leaf in the merge comes from |
| DictMerge.LeafOfCompatible | source_query_proxy/dict_merge.py:16-25 | for compatible trees: the second, or else the first |
| Config.ApplyDefaults | source_query_proxy/config.py:190-191 | the target is updated in place to the merge of the defaults with itself |
| Config.Complete | source_query_proxy/config.py:228-232 | one server is given the globals in order and then the defaults of its file |
| Config.CompleteServers | source_query_proxy/config.py:227-232 | so is every server, even when a YAML alias makes two of them one object |
| Config.TwiceIsOnce | source_query_proxy/config.py:227-232 | giving a server the same defaults again changes nothing |
| Config.LoadConfigs | source_query_proxy/config.py:255-284 | the two loops compute the specified configuration or failure |
| ConfigLoading.LoadsIff | source_query_proxy/config.py:190-284 | files of either style can be loaded iff each can be read with the globals before it and at most one has an eBPF section; ConfigurationError comes exactly from the second one, and the globals are those that truthy `__global__` entries declare |
| ConfigLoading.CurrentLoadsIff | source_query_proxy/config.py:212-284 | for the current style: iff every file is a dictionary, its defaults a dictionary or nothing, its servers dictionaries, and at most one has an eBPF section |
| ConfigLoading.FileStep | source_query_proxy/config.py:255-278 | when one more file loads, fails or is the second with eBPF, the globals it adds, and the sections it contributes |
| ConfigLoading.GlobalIfTrue | source_query_proxy/config.py:270-271 | `__global__: true` makes defaults global, `false` or nothing does not |
| ConfigLoading.OldFileConfig | source_query_proxy/config.py:194-220 | servers of a file in the old style are given the `values` of the globals in order and then its own |
| ConfigLoading.SectionKept | source_query_proxy/config.py:280-284 | every section but `servers` is the merge of what the files say, later over earlier; `defaults` is not in the result |
| ConfigLaws.FirstDefinitionWins | source_query_proxy/config.py:221-234 | for compatible trees every leaf of a completed server comes from the first that defines it: the server, the earliest global, later globals, the defaults of its file |
| ConfigLaws.FirstLeafIs | source_query_proxy/config.py:227-232 | so a global beats a later global and the defaults of the file, whatever they say |
| ConfigLaws.FileConfig | source_query_proxy/config.py:212-234 | what one file contributes: its servers completed, and nothing when the section is missing |
| ConfigLaws.MetaAdded | source_query_proxy/config.py:273-278 | every server of a file is given its meta, and nothing else changes |
| ConfigLaws.FileAdds | source_query_proxy/config.py:262-278 | one round of the loading loop |
| ConfigLaws.GlobalsLoaded | source_query_proxy/config.py:270-271 | the globals in force are those of strictly earlier files, oldest first |
| ConfigLaws.MergedServer | source_query_proxy/config.py:280-282 | merging one more configuration: its server over the earlier one, and an empty `servers` section over everything |
| ConfigLaws.WhereSettingsComeFrom | source_query_proxy/config.py:255-284 | for compatible sources, the loaded configuration has at every setting of every server exactly what the files determine: the latest file that settles it, and in it the server, the globals of earlier files, the defaults of the file |
| ConfigLaws.MetaNamesLastFile | source_query_proxy/config.py:273-278 | a server is loaded iff some file has it that no empty section follows, and its meta is the path and the directory of the latest such file |
| ConfigLaws.EbpfOnce | source_query_proxy/config.py:265-268 | what loads configures eBPF at most once, and ConfigurationError means it was configured twice |

## Left out

- Sockets, `bind`, `connect`, asyncio scheduling, `backoff` and timeouts: replies, datagrams, clock readings and events are parameters.
- Random numbers: the message id of `send_packet` and our challenge are parameters; a message id lies in 1..2^31-1.
- `bz2.decompress`: a function parameter that may fail; size and checksum of compressed fragments are never looked at by the code.
- UTF-8 decoding with `ignore`: texts are byte strings. IEEE floats are four opaque bytes.
- Values of a wrong Python type in `encode` are modelled only as far as integers, texts, lists and dictionaries go: an integer given to a float field is rejected here, and the class of list elements is part of the schema.
- `int2ip` validators, which never reject, and the dotted form of addresses, which are four opaque bytes.
- `MasterServerRequest`, and the naming and equality parts of `Platform` and `ServerType`.
- `math.ceil` on quotients too large for a float: the model rounds exactly.
- Logging, and the third value of `recv_packet`, the address, except for the port that the listener looks at.
- Futures are numbered cells that are unset, done or cancelled; the waking of coroutines is the value such a cell ends with.
- The in-place update of servers is modelled on objects in `CompleteServers`; the other steps of `_get_config` and `load_configs` are on values, so sharing of nested dictionaries, which the code never mutates, is not captured.
- YAML scalars are told apart only as far as null, truth and emptiness go; a text that serves as `defaults` and contains the word `global` is treated like any other text, and a number there fails no earlier than a text.
- Directory listing, file reading, pydantic models, port probing and entrypoints.
- WhereSettingsComeFrom: files in the old style (`defaults.global` with `values`) are not covered by this law, because the code looks for the globals of other files under `values` in them; LoadsIff and OldFileConfig say what becomes of them.
- ClientGetsCachedBytes: a network that loses datagrams, and responses of a size that splitting truncates, are excluded; for those the exchange times out or ExactLoss says what arrives.
- ViewIsLastAnswers: calls of `wait_ready` that overlap are excluded; EveryRunShows says what clients see then, and OverlapLosesAnswers when that loses nothing.
- `stats.py`, `cli.py`, eBPF handling, Sentry and other plumbing.
