# Punica: a verified model

Punica is an LwM2M server with a REST interface. This project models the state that Punica keeps itself and
proves what that state satisfies over every run. Sockets, gnutls, the LwM2M, JSON and HTTP libraries appear as
parameters and stated assumptions only.

Code that changes state in place is modelled in place: real list nodes, buffers as arrays, classes with the
source's fields. Each such method is proved against a function of the old state, and the properties of whole runs
are proved about those functions.

| part | files |
|---|---|
| linked list | `LinkedList.dfy`, `Wrappers.dfy` |
| base64 codec | `Base64.dfy` (bit strings), `Base64Codec.dfy` (the streaming encoder and in-place decoder) |
| device database | `Json.dfy`, `Devices.dfy`, `DeviceStore.dfy`, `Credentials.dfy`, `DeviceRequests.dfy` (functions and runs), `DatabaseEntries.dfy`, `DeviceDatabase.dfy` (loops and handlers) |
| event channel and transactions | `EventChannel.dfy`, `EventChannelRuns.dfy` (state machine), `AsyncResponse.dfy`, `RequestTargets.dfy`, `RestContext.dfy`, `RestHandlers.dfy` (lists and handlers) |
| connections and authentication | `UdpConnections.dfy`, `DtlsSessions.dfy` (state machine), `DtlsConnections.dfy`, `Authentication.dfy`, `IdentifierPointers.dfy` |

How the two halves meet. `EventChannel.Step` is one REST handler or library callback, which the source runs under
one lock. `RestContext.Context.Represents(s)` says that the six lists and the callback hold what state `s` says,
and every handler and callback takes a context that represents `s` to one that represents `Step(s, e)` for an event
`e` that is enabled in `s`; `RestContext.ReachedNext` puts these together into runs. The
database class is tied to `DeviceStore` by `View()`, the UDP and DTLS transports to their machines by `Table()`.

Assumptions about the environment, written as predicates:

- `EventChannel.Enabled`: a transaction callback fires at most once, after the request call returned, and not for
  a dropped transaction; a successful observe inserts one observation with the given context; an unobserve
  callback fires at most once for an observation, which is then gone. The library may drop clients and transactions.
- `Credentials.GoodEntropy`: a new uuid is not in use, one of the serial draws is not in use, the random source
  and the certificate library return what was asked for.
- `DtlsSessions.Settled`, `UdpConnections.Enabled`: repeated gnutls calls end with a result other than
  `GNUTLS_E_AGAIN`; an allocated object is none of the live ones (a freed one may come back).
- `IdentifierPointers.Enabled`: no allocation and no other part of the program uses a block that a listed entry uses.

Where the API documentation and the code disagree, the model follows the code: the documentation names 410 for an
unsupported content type where the code answers 415, asks for an octet-stream body on execute where the code takes
text/plain or no content type, and calls the status of an event `code` where the code writes `status`.

A string holds the bytes of a C string, one character each. A C buffer that the code may leave is an array of the
buffer's size, or with the memory behind it; contracts say when the code gets past the buffer, and the model does not
follow what happens to other memory.

## Model

| member | source | states |
|---|---|---|
| LinkedList.LinkedList.Add | src/linked_list.c:66-80 | the node heap represents the new element followed by the old sequence, all old nodes kept |
| LinkedList.LinkedList.Remove | src/linked_list.c:82-113 | exactly the first occurrence by reference is unlinked, its node leaves the footprint, all other nodes stay in order; the assertion at the end is unreachable for a listed element |
| LinkedList.LinkedList.Unlink | src/linked_list.c:92-103 | the predecessor, which is always set when it is needed, or the head is redirected past the node |
| LinkedList.LinkedList.Delete | src/linked_list.c:45-64 | terminates with no node left |
| LinkedList.RemoveFirstAt | src/linked_list.c:88-107 | removing the first occurrence is cutting it out at the position the loop stops at |
| LinkedList.RemoveFirstMultiset | src/linked_list.c:82-113 | exactly one occurrence disappears |
| Base64.SymbolInjective | src/rest/rest_core_types.c:30-31 | no two six-bit values share a character |
| Base64.AlphabetIs | src/rest/rest_core_types.c:30-31 | the alphabet is the letters, the digits, + and / |
| Base64.DecodedLengthMeans | src/rest/rest_core_types.c:112-130 | the length query for every text: three bytes for four characters, less one or two by the first = and the character behind it |
| Base64.EncodedShape | src/rest/rest_core_types.c:194-242 | the text has 4 * ceil(n / 3) characters, padding is exactly the last (3 - n mod 3) mod 3 of them, and the decoder's length query on it gives n |
| Base64.BytesOfGroups | src/rest/rest_core_types.c:147-177 | the bytes spelled by the six-bit groups of the data are the data and then zeros |
| Base64.RoundTrip | src/rest/rest_core_types.c:101-245 | for every non-empty byte string, decoding its encoding gives it back (section 4 of RFC 4648) |
| Base64Codec.Codec.Encode | src/rest/rest_core_types.c:182-245 | the length query, the size check, and otherwise the bit-string encoding and a terminator, whatever earlier calls left in the static byte; the terminator falls outside the array if and only if the text fills it |
| Base64Codec.Codec.EncodeBytes | src/rest/rest_core_types.c:207-227 | the streaming loop writes a prefix of the bit-string encoding and carries the last byte |
| Base64Codec.Codec.EncodeByte | src/rest/rest_core_types.c:209-225 | the characters of one switch are the next groups of the bit string |
| Base64Codec.Codec.EncodeTail | src/rest/rest_core_types.c:229-239 | the last partial group and the padding complete the encoding |
| Base64Codec.Find | src/rest/rest_core_types.c:153-157 | the table search finds the value of an alphabet character and fails exactly on the others |
| Base64Codec.CountPadding | src/rest/rest_core_types.c:112-124 | the loop counts the padding at the first padding character |
| Base64Codec.Decode | src/rest/rest_core_types.c:101-180 | error codes case by case; the buffer becomes its cleared front with the decoded groups ORed in; the length is changed by the query only; how far from its start the loop gets, on arrays of every size |
| Base64Codec.DecodeChars | src/rest/rest_core_types.c:145-179 | the loop merges exactly the groups before the padding or the first foreign character |
| Base64Codec.DecodeChar | src/rest/rest_core_types.c:159-176 | one character is one more group of the bit string |
| Base64Codec.AppendedByte | src/rest/rest_core_types.c:159-176 | how a six-bit group contributes to the bytes it overlaps |
| Base64Codec.SucceedsExactlyWhenDecodable | src/rest/rest_core_types.c:147-179 | decoding succeeds if and only if every character before the padding is in the alphabet |
| Base64Codec.DecodedIntoBuffer | src/rest/rest_core_types.c:143-177 | the first bytes of the buffer are the decoded data |
| Base64Codec.BeyondReach | src/rest/rest_core_types.c:145-177 | reading n characters the loop changes nothing from byte 3 * (n / 4) + n mod 4 on, which is at most 3 * ceil(len / 4) |
| Base64Codec.LeavesExactBuffer | src/rest/rest_utils.c:322-334 | a decodable text makes the loop leave a block of exactly the decoded length if and only if the characters before the padding reach further than that length |
| Base64Codec.LeavesWhenPadded | src/rest/rest_utils.c:322-334 | for texts of whole quanta: if and only if they are padded |
| Base64Codec.EncodedTextReach | src/rest/rest_core_types.c:145-177 | on encoder output it leaves the block by one byte, exactly when the data are no multiple of three |
| Base64Codec.SlashesSpill | src/rest/rest_core_types.c:112-180 | a concrete text of seven characters that decodes to three bytes and sets all bits of the byte behind them |
| Base64Codec.EncodedTextLeavesTheRest | src/rest/rest_core_types.c:143-177 | on encoder output, bytes past the decoded length keep their value, also those that the loop touches |
| DatabaseEntries.AllKeysSet | src/database.c:283-338 | the key mask is complete exactly when all six keys occur, in any case and any number |
| DatabaseEntries.CheckCredential | src/database.c:304-331 | a credential is accepted when it decodes into the scratch buffer or is too short to hold data; the buffer length stays what it was for the next key; when decoding gets past the buffer |
| DatabaseEntries.ValidateEntry | src/database.c:263-341 | the mask loop accepts exactly the entries whose every field is acceptable and that have all keys; for these, whether some text got past the scratch buffer |
| DatabaseEntries.ValidateNewEntry | src/database.c:218-261 | the same for the two keys of a POST |
| DatabaseEntries.SavedEntryStaysInScratch | src/database.c:304-331 | validating an entry that a save wrote never gets past the scratch buffer |
| DatabaseEntries.EncodedLeavesBlock | src/rest/rest_utils.c:322-334 | of the texts that the save writes, those whose data are no multiple of three are read past their block, and change nothing there |
| DatabaseEntries.BinaryFromJson | src/rest/rest_utils.c:310-345 | query, allocation and decoding give the decoded field, or nothing exactly when it is missing, no text or not decodable; and exactly when the decoding gets past the block |
| DatabaseEntries.EncodeField | src/database.c:498-516 | the size error is returned exactly above 768 bytes; otherwise the text starts with the encoded field and is just that unless it fills the buffer |
| Devices.ModeRoundTrip | src/database.c:518-533 | the mode text that is written is read back as the same mode |
| Json.IgnoringCaseMeans | src/database.c:38-56 | texts are equal without regard to case when at each place they have the same character or the same letter in another case |
| Devices.ModeTexts | src/database.c:38-56 | the three texts that are written, and that PSK, Cert and NONE are read as modes |
| Devices.LoadsExactly | src/database.c:263-416 | which elements of the file load, key by key: all six keys in any case, texts only, a known mode, credentials that decode to at most 1024 bytes, and under the exact keys what the mode needs |
| Devices.LoadedFields | src/database.c:343-416 | the fields of a loaded device, by the texts under its keys and its mode |
| Devices.ValidityIgnoresOrder | src/database.c:277-332 | validation does not depend on the order of the keys |
| Devices.ValidityIgnoresExtraText | src/database.c:277-332 | a text under any further key makes an entry neither valid nor invalid |
| Devices.CreatedIsWellFormed | src/database.c:374-406 | what each mode keeps: PSK both keys and no serial, certificate a public key and serial and no secret, none nothing |
| Devices.FitsExactly | src/database.c:479-516 | the encoder: up to 765 bytes fit with their terminator, 766 to 768 pass the size check and fill the buffer, more are refused |
| Devices.SavedEntryFields | src/database.c:518-541 | the text under each key of a saved entry |
| Devices.LoadedAround | src/database.c:128-144 | an array element, good or bad, only adds or omits its own device |
| Devices.SavedEntryLoads | src/database.c:263-416 | a saved entry validates and constructs the device it was saved from |
| Devices.SaveThenLoad | src/database.c:78-150 | loading what was saved gives the same devices in reversed order |
| Devices.SaveAndLoadTwice | src/database.c:474-555 | saving and loading twice is the identity |
| DeviceDatabase.CreateEntry | src/database.c:343-416 | the entry built field by field is the device the element describes; null exactly when something is missing |
| DeviceDatabase.Database.Load | src/database.c:78-150 | unless the file holds something other than an array, the list is the reversed sequence of devices from exactly the elements that validate and construct |
| DeviceDatabase.Database.LoadElements | src/database.c:128-144 | the loop over the array |
| DeviceDatabase.FindByUuid | src/database.c:171-187 | the first entry with the uuid, or null when there is none |
| DeviceDatabase.ToJsonArray | src/database.c:474-555 | one object per device in list order, or an error exactly when the encoder refuses a field; whether a field that was encoded filled its buffer |
| DeviceDatabase.EntryToJson | src/database.c:494-545 | the object of one device, an error exactly when the encoder refuses a field, and whether a field filled its buffer |
| DeviceDatabase.Database.SaveToFile | src/rest/rest_devices.c:29-54 | the file becomes the array, or stays as it was, as long as the save keeps to its buffers |
| DeviceDatabase.Database.Rename | src/rest/rest_devices.c:56-82 | only the name of the first entry with the id changes, in place |
| DeviceDatabase.Database.RemoveDevice | src/rest/rest_devices.c:84-102 | exactly the first entry with the id leaves the list |
| DeviceDatabase.Database.Post | src/rest/rest_devices.c:340-429 | status, answer, list and file for every body and every answer of the environment |
| DeviceDatabase.Database.Put | src/rest/rest_devices.c:431-491 | status, list and file for every request |
| DeviceDatabase.Database.Delete | src/rest/rest_devices.c:493-526 | status, list and file for every request |
| DeviceDatabase.CreateNewEntry | src/database.c:418-472 | the new entry is the requested device with fresh credentials |
| DeviceDatabase.EntryToAnswer | src/rest/rest_devices.c:185-261 | the answer object with both keys, nothing exactly when a part is refused or cannot be read, and whether a key filled its buffer |
| DeviceDatabase.FindExistingSerial | src/rest/rest_utils.c:28-46 | the search fails exactly when an entry has the serial |
| DeviceDatabase.GenerateSerial | src/rest/rest_utils.c:48-60 | the draw with its top bit cleared |
| DeviceDatabase.NewSerial | src/rest/rest_utils.c:149-152 | the loop ends with the first draw that is in no entry |
| DeviceDatabase.NewPskId | src/rest/rest_utils.c:84-93 | the loop writes the hexadecimal digits of the draw |
| DeviceDatabase.NewCredentials | src/rest/rest_utils.c:208-227 | keys and serial by mode |
| Credentials.HexSpells | src/rest/rest_utils.c:84-93 | each byte of the draw is written as two of the digits 0 to 9 and A to F, the more significant one first |
| Credentials.HexInjective | src/rest/rest_utils.c:84-93 | two draws give the same PSK identifier only when they are equal |
| Credentials.FirstFresh | src/rest/rest_utils.c:149-152 | the serial has 20 bytes, its top bit clear (section 4.1.2.2 of RFC 5280), and is in no entry |
| Credentials.FirstFreshIsFirst | src/rest/rest_utils.c:149-152 | it is the first draw, with its top bit cleared, that no device has as its serial number |
| DeviceRequests.PostedDevice | src/rest/rest_devices.c:371-399 | what a POST answered with 201 lists has a new uuid, a serial of its own, the invariant of its mode, and fits the save unless its answer filled a buffer |
| DeviceRequests.PostStatus | src/rest/rest_devices.c:352-413 | the exact condition of each of the statuses 415, 400, 500 and 201, and of an answer that fills a buffer |
| DeviceRequests.PostNames | src/database.c:440-455 | in every mode the device has the drawn uuid and the name in the body |
| DeviceRequests.PostedCertificate | src/rest/rest_utils.c:178-192 | the generated certificate is kept as the public key and answered; its private key is answered and not kept; the server key is added |
| DeviceRequests.PostedPsk | src/rest/rest_utils.c:62-105 | the identifier made from its draw and the secret are kept and answered |
| DeviceRequests.PostedIdentifier | src/rest/rest_utils.c:84-94 | the identifier has twelve places, which are the hexadecimal digits of the draw |
| DeviceRequests.PostedWithoutCredentials | src/rest/rest_utils.c:219-222 | in mode none no keys are kept or answered |
| DeviceRequests.AnswerFields | src/rest/rest_devices.c:214-260 | the text under each key of the answer |
| DeviceRequests.ServerKeyOfAnswer | src/rest/rest_devices.c:224-231 | a certificate is answered with the server key, and the other modes are answered without one |
| DeviceRequests.PostMeans | src/rest/rest_devices.c:399-406 | a POST answered with 201 puts its device in front under its new uuid and changes no other; another changes nothing |
| DeviceRequests.PutMeans | src/rest/rest_devices.c:431-491 | for every request: 201 and the first device with the id has the name in the body, or exactly when 415 or 400 and nothing changes |
| DeviceRequests.DeleteMeans | src/rest/rest_devices.c:493-526 | for every request: 200 and the first device with the id is gone and no other, or exactly when 400 or 404 and nothing changes |
| DeviceRequests.AnswerHandsOutTheKeys | src/rest/rest_devices.c:379-397 | the client can decode exactly the keys that were made; the server forgets the private key of a certificate |
| DeviceRequests.RequestsThenRestart | src/rest/rest_devices.c:340-526 | after any requests a restart gives the devices in memory, possibly reversed, as long as no text filled a buffer; none does when no generated key has such a size; uuids and serials stay distinct when they were |
| DeviceStore.RunKeepsSound | src/rest/rest_devices.c:371-399 | mode invariants, distinct uuids and distinct serials over every run |
| DeviceStore.RunKeepsPersistent | src/rest/rest_devices.c:392-406 | for every list whose devices satisfy the invariant of their mode and fit, whether or not uuids are distinct: at every moment of every run the file reloads to the devices in memory |
| DeviceStore.RestartRestores | src/database.c:78-150 | the same from loading any file whose devices fit |
| DeviceStore.UnconfiguredRun | src/rest/rest_devices.c:401-406 | without a configured file no run of requests writes one |
| DeviceStore.SavedExactly | src/database.c:498-516 | a save is refused if and only if some field has more than 768 bytes |
| DeviceStore.SaveLeavesExactly | src/database.c:498-516 | a save leaves its buffers if and only if, before it meets a field above 768 bytes, it meets one of 766 to 768 |
| DeviceStore.PersistentExactlyWhenAllFit | src/rest/rest_devices.c:401-406 | a save keeps to its buffers if and only if no field that it encodes fills one; then a visible change survives a restart if and only if every device fits |
| DeviceStore.RestartGivesLastFitting | src/rest/rest_devices.c:401-406 | over every run that keeps to its buffers, a restart brings back the list as it was after the last effective change that left only devices that fit |
| DeviceStore.OversizedEntryBlocksTheFile | src/database.c:498-516 | an entry with a secret of 769 to 1024 bytes loads but cannot be saved: the next device posted is lost by a restart |
| DeviceStore.FullFieldLeavesTheBuffer | src/database.c:498-516 | an entry with a secret of 766 to 768 bytes loads, the encoder reports success for it, and the next save leaves its buffer |
| DeviceStore.LookupAfter | src/rest/rest_devices.c:56-102 | a request changes what is known about its own uuid and about no other |
| DeviceStore.DeletedPostLeavesNoTrace | src/rest/rest_devices.c:84-102 | POST and DELETE of a device, with any requests about other devices in between, leave the list as those requests alone do |
| AsyncResponse.StatusTable | src/rest/rest_utils.c:229-243 | 2.04 and 2.05 are reported as 200, 4.04 as 404, and every other code c.dd as -(100 * c + dd) |
| AsyncResponse.StatusTellsCodesApart | src/rest/rest_utils.c:229-243 | reported statuses tell CoAP codes apart, except the two success codes, which are both 200 |
| AsyncResponse.Response.Set | src/rest/rest_core_types.c:247-277 | size query and encoding never fail, and the payload is the encoding of the data |
| AsyncResponse.PayloadDecodes | src/rest/rest_core_types.c:259-274 | the stored text decodes to the CoAP data |
| EventChannel.RunKeepsOwned | src/rest/rest_subscriptions.c:56-68 | over every run each response object is in exactly one list once, or deleted once |
| EventChannel.EveryUnlinkFindsItsResponse | src/rest/rest_resources.c:72 | over every run, a response that a callback unlinks is in its list once, in no other list, and not deleted |
| EventChannel.MultiplicityOne | src/linked_list.c:82-113 | no response is held twice or deleted twice |
| EventChannel.StepKeepsHolders | src/rest/rest_notifications.c:366-395 | every handler and callback conserves the multiset of held and deleted responses |
| EventChannelRuns.RunKeepsInOrder | src/rest/rest_notifications.c:225-266 | for each of the four kinds, the delivered bodies turned round, then the queue turned round, are the arrivals in order: nothing lost, doubled or reordered |
| EventChannelRuns.FailedSendsLeaveNoTrace | src/rest/rest_core.c:121-125 | a run with any failed sends ends as the same run without them |
| EventChannelRuns.KeptUntilDelivered | src/rest/rest_core.c:121-125 | what is queued stays at the end of the queues until a pull or a successful send |
| EventChannelRuns.SendDelivers | src/rest/rest_core.c:67-133 | a successful send with a callback hands over exactly the queues and empties them |
| EventChannelRuns.SetCallbackLasts | src/rest/rest_notifications.c:183-191 | a callback stays set until it is replaced or cleared |
| EventChannelRuns.NoSendWithoutCallback | src/rest/rest_notifications.c:196-223 | after it is cleared, and until the next one is set, no send delivers anything |
| EventChannelRuns.RunKeepsArrivedOnce | src/rest/rest_notifications.c:366-395 | over every run, the delivered and the queued responses together are without duplicates |
| EventChannelRuns.RunKeepsConserved | src/rest/rest_resources.c:62-86 | every transaction answered with 202 stays accounted for over every run |
| EventChannelRuns.ExactlyOnePlace | src/rest/rest_notifications.c:389-394 | it is in exactly one of pending, queued, delivered |
| EventChannelRuns.RunAdvances | src/rest/rest_resources.c:260-271 | it only moves forward |
| EventChannelRuns.RunKeepsSubscribed | src/rest/rest_subscriptions.c:133-176 | at most one observation per client and uri; without dropped clients the listed responses are those of the observations |
| EventChannelRuns.RepeatedPutsGetTheSameId | src/rest/rest_subscriptions.c:133-176 | PUTs with no completed cancellation in between are answered with the same identifier |
| EventChannelRuns.RunKeepsTraceable | src/rest/rest_subscriptions.c:41-53 | every queued or delivered record is that of an accepted transaction, under its own identifier, or carries the identifier of a subscription answered with 202 |
| EventChannelRuns.EveryNotificationIsLive | src/rest/rest_subscriptions.c:41-53 | over every run, a notification carries the identifier of a subscription that is listed when it is queued |
| EventChannelRuns.EveryRun | src/rest/rest_core.c:27-43 | all of these invariants together, from the start of the program |
| RestContext.Context.constructor | src/rest/rest_core.c:27-43 | the empty context represents the initial state |
| RestContext.Context.AsyncCallback | src/rest/rest_resources.c:62-86 | unlinked from pending, filled in, queued: the completion step; the queued response has status 200 for 2.04 and 2.05 and 404 for 4.04, and the encoded data |
| RestContext.Context.ObserveCallback | src/rest/rest_subscriptions.c:31-54 | a new response with the identifier of the subscription is queued, with status 200 when there are data |
| RestContext.CloneWith | src/rest/rest_core_types.c:74-89 | the clone keeps the identifier and gets its own payload, and status 200 with data, or the reported code without |
| RestContext.Context.UnobserveCallback | src/rest/rest_subscriptions.c:56-68 | the response leaves the list: the cancellation step |
| RestContext.Context.NotifyRegistration | src/rest/rest_notifications.c:243-246 | the event is put in front of its queue, the other lists stay |
| RestContext.Context.NotifyUpdate | src/rest/rest_notifications.c:248-251 | the event is put in front of its queue, the other lists stay |
| RestContext.Context.NotifyDeregistration | src/rest/rest_notifications.c:253-256 | the event is put in front of its queue, the other lists stay |
| RestContext.Context.QueueCompleted | src/rest/rest_notifications.c:263-266 | the response with its contents is put in front of the queue |
| RestContext.Context.Body | src/rest/rest_notifications.c:307-364 | the four arrays hold the contents of the four queues in list order |
| RestContext.Context.Clear | src/rest/rest_notifications.c:366-395 | all four queues end empty, everything else stays |
| RestContext.Context.Pull | src/rest/rest_notifications.c:225-241 | the body is exactly what is cleared |
| RestContext.Context.RestStep | src/rest/rest_core.c:67-133 | sends exactly when something is queued and a callback is set, to that callback, and clears exactly when the send succeeded |
| RestContext.ReachedNext | src/rest/rest_core.c:135-143 | what a handler or callback promises for an enabled event continues the run that its context has reached |
| RestContext.ListsAreDisjoint | src/rest/rest_notifications.c:389-394 | in every reachable context the pending, observe and response lists are without duplicates and have no element in common |
| RequestTargets.AllowedTarget | src/rest/rest_subscriptions.c:93-125 | the go-ahead names a registered client of that name and the parsed path that the url spells behind it |
| RequestTargets.FirstClient | src/rest/rest_endpoints.c:87-105 | of several clients with the name the first is taken |
| RequestTargets.TargetMeans | src/rest/rest_subscriptions.c:93-125 | which requests are refused, fail or are allowed: unknown client, text of 100 characters or more, url not spelling word, name and a path that parses |
| RequestTargets.ResourceVerdictMeans | src/rest/rest_resources.c:117-200 | the exact condition of each of the statuses 405, 415, 400, 410 and 404, of the error return and of the go-ahead, by verb and content type |
| RequestTargets.ReadIsAllowed | src/rest/rest_resources.c:110-200 | a concrete read that gets the go-ahead, with its client and path |
| RequestTargets.CallMeans | src/rest/rest_resources.c:37-60 | which call to the library each verb and content type leads to, and with which format |
| RequestTargets.ValidCallbackMeans | src/rest/rest_notifications.c:31-126 | exactly the objects of a text under url and an object of texts under headers are accepted, in either order, when the url answers |
| RestHandlers.LookupClient | src/rest/rest_endpoints.c:87-105 | the first client of the name |
| RestHandlers.CheckTarget | src/rest/rest_resources.c:168-200 | client, path and resource checks in order, with their statuses |
| RestHandlers.CheckCall | src/rest/rest_resources.c:110-256 | the checks, and the function of the library that is called, with client, path, format and body |
| RestHandlers.Resources | src/rest/rest_resources.c:88-293 | status, call and step for every request: accepted with its identifier, or the response freed again |
| RestHandlers.SearchObservation | src/rest/rest_subscriptions.c:133-144 | finds an observation of the client with the same uri exactly when there is one |
| RestHandlers.PutSubscription | src/rest/rest_subscriptions.c:70-195 | the identifier of the existing observation, or a new listed subscription |
| RestHandlers.DeleteSubscription | src/rest/rest_subscriptions.c:209-312 | statuses; a mismatch with the library counts as success |
| RestHandlers.MonitorQueues | src/punica.c:156-247 | the queue that grows for 2.01, 2.04 and 2.02, and none for another status |
| RestHandlers.MonitorCallback | src/punica.c:156-247 | registration, update or deregistration event by status |
| RestHandlers.ValidateCallback | src/rest/rest_notifications.c:31-126 | the loop over the headers accepts exactly two-part objects of a text url and text headers whose url answers |
| RestHandlers.PutCallback | src/rest/rest_notifications.c:149-194 | the callback is replaced exactly when the body is valid and its url answers |
| RestHandlers.DeleteCallback | src/rest/rest_notifications.c:196-223 | the callback is removed, with 404 when there was none |
| UdpConnections.Transport.Find | src/udp_connection_api.c:51-68 | the session with the address, null when there is none |
| UdpConnections.Transport.NewIncoming | src/udp_connection_api.c:70-86 | a fresh connection is put in front of the table |
| UdpConnections.Transport.Receive | src/udp_connection_api.c:229-251 | result, session and table for every answer of select and recvfrom; a session is set in the same call whenever the result is positive |
| UdpConnections.Transport.Close | src/udp_connection_api.c:196-210 | exactly the session leaves the table |
| UdpConnections.Transport.Stop | src/udp_connection_api.c:253-272 | every connection is closed once in list order, each node is still linked when read, the list ends empty |
| UdpConnections.SendTo | src/udp_connection_api.c:221-222 | what is assumed of the socket: an error, or it takes the front of the data, at least one byte |
| UdpConnections.Send | src/udp_connection_api.c:212-227 | the fragments taken concatenate to the buffer on success and to a proper prefix on an error |
| UdpConnections.RunKeepsDistinct | src/udp_connection_api.c:105-113 | in every reachable state the peer addresses are pairwise distinct |
| UdpConnections.SameSessionExactlyWhenSameAddress | src/punica.c:327-330 | two datagrams have equal session pointers if and only if their addresses are equal, as long as that session is not closed in between |
| DtlsConnections.SetIdentifier | src/dtls_connection_api.c:109-120 | only the identifier changes |
| DtlsConnections.HandshakeDone | src/dtls_connection_api.c:122-193 | without public data the connection stays as it is and fails; otherwise it counts as done whether or not the callback finds an identifier, and the result is the callback's |
| DtlsConnections.Records | src/dtls_connection_api.c:668-675 | the loop ends with the last result and the address last reported |
| DtlsConnections.SecureTransport.Find | src/dtls_connection_api.c:553-571 | the first connection with the address |
| DtlsConnections.SecureTransport.NewIncoming | src/dtls_connection_api.c:528-551 | a new unfinished connection in front of the table, or none when it cannot be initialised |
| DtlsConnections.SecureTransport.Close | src/dtls_connection_api.c:696-725 | unlisted in every case; -1 when the goodbye fails |
| DtlsConnections.SecureTransport.Handshake | src/dtls_connection_api.c:640-665 | finished and identified, closed, or continued |
| DtlsConnections.SecureTransport.Record | src/dtls_connection_api.c:666-688 | payload handed up, or closed with result 0 |
| DtlsConnections.SecureTransport.Receive | src/dtls_connection_api.c:573-694 | table, result and session are those of the state machine, for every answer of the environment |
| DtlsConnections.SecureTransport.Stop | src/dtls_connection_api.c:735-752 | every connection is closed once in list order even when a goodbye fails, the list ends empty |
| DtlsSessions.PositiveMeansDelivered | src/dtls_connection_api.c:666-693 | a positive result always comes with a session whose handshake is finished; a negative one only from select |
| DtlsSessions.DeliveredIsTheSender | src/dtls_connection_api.c:666-688 | payload is handed up with the session and the identifier of the first connection that has the source address of the datagram, which is finished, and with the last length read |
| DtlsSessions.SenderIsDelivered | src/dtls_connection_api.c:666-688 | whenever that connection is finished and the record can be read, payload is handed up |
| DtlsSessions.EveryDeliveryIsFromItsSender | src/dtls_connection_api.c:573-694 | over every run: payload carries the identifier that the handshake of the session at its source address had set |
| DtlsSessions.AdmittedExactly | src/dtls_connection_api.c:607-665 | a new session appears exactly for an unlisted address with a verified cookie, a successful initialisation and a handshake that does not fail at once |
| DtlsSessions.HandshakeMakes | src/dtls_connection_api.c:640-665 | what a datagram for an unfinished connection makes of the table |
| DtlsSessions.BoundExactly | src/dtls_connection_api.c:640-650 | an identifier is set exactly by a successful handshake, with an identifier found, of an unfinished or new connection |
| DtlsSessions.PublicDataBySuite | src/dtls_connection_api.c:71-94 | which pairs of key exchange and cipher stand for the certificate and which for the PSK user name |
| DtlsSessions.RemovedExactlyWhenFatal | src/dtls_connection_api.c:645-681 | a listed connection leaves the table if and only if a datagram from its address ends in a fatal handshake or record error; all others stay untouched |
| DtlsSessions.RunKeepsAuthenticated | src/dtls_connection_api.c:122-193 | over every run exactly the finished links have an identifier, set by a successful callback of their own handshake, and payload comes only from such links |
| DtlsSessions.RunKeepsIdentity | src/dtls_connection_api.c:640-688 | once set, the identifier of a session never changes |
| DtlsSessions.HandshakeGivesIdentity | src/dtls_connection_api.c:186-192 | a finished handshake has the identifier that the callback finds for its public data |
| Authentication.PskFind | src/punica.c:278-305 | the secret of the first PSK device with the name, -1 exactly when there is none |
| Authentication.IdentifierFind | src/punica.c:249-276 | the uuid of the first device with the public key is set on the connection, -1 and no change when there is none |
| Authentication.NameIsValid | src/punica.c:332-358 | always true for UDP; otherwise the name of the identified device |
| Authentication.EveryNameWithoutIdentifiers | src/punica.c:340-343 | without identifiers every name is valid for every list and session |
| Authentication.NameOfFirstDevice | src/punica.c:345-357 | with identifiers a name is valid if and only if the first device with the session's identifier exists and has that name |
| Authentication.AgreeExactlyWhenPskKeysComeFirst | src/punica.c:249-305 | the PSK lookup and the identifier lookup name the same entry, for every name a C string can hold, if and only if the first entry with a PSK entry's public key is a PSK entry, for the keys such a name can spell |
| Authentication.DistinctKeysSuffice | src/punica.c:263-301 | distinct non-empty public keys are enough for that |
| Authentication.SharedKeyDisagrees | src/punica.c:263-301 | a concrete list on which the two lookups disagree |
| Authentication.LookupAfterRun | src/rest/rest_devices.c:56-102 | what any run of requests makes of one uuid |
| Authentication.AcceptedExactlyUnderCurrentName | src/punica.c:332-358 | after any requests that do not delete the device, a name is accepted exactly when it is the current one |
| Authentication.AcceptedUnderRequestedName | src/rest/rest_devices.c:56-82 | for every list and every run of requests that does not delete the device: accepted exactly under the name in the last PUT answered with 201, or the original one |
| Authentication.RenamedThenAccepted | src/rest/rest_devices.c:461-473 | a PUT is answered with 201, and from then on the session is accepted under the name in its body and no other |
| Authentication.DeletedThenRefused | src/rest/rest_devices.c:84-102 | after a DELETE no name is accepted |
| IdentifierPointers.RunKeepsValid | src/rest/rest_devices.c:68-75 | over every run each listed entry has blocks of its own for its uuid and its name, and they hold these strings |
| IdentifierPointers.PointerIsAsGoodAsUuid | src/punica.c:345-357 | while its device is not deleted, a session is accepted through the pointer to the uuid exactly as by the uuid itself |
| IdentifierPointers.ReadIsLastWrite | src/punica.c:270 | the pointer reads the text that was last written into its block, and the bound uuid when none was |
| IdentifierPointers.SpeaksForAnotherExactlyWhenPutIn | src/punica.c:345-357 | a session comes to be accepted as another device, at some moment of a run, if and only if some event puts the uuid of another listed device into its block: as the uuid of a POST, as a name, or from elsewhere in the program |
| IdentifierPointers.NothingPutInWhileListed | src/rest/rest_devices.c:93-97 | no event can do that before the device is deleted |
| IdentifierPointers.DeletedDeviceHasNoName | src/punica.c:352-356 | after it is deleted, and while nothing is written into the block, no name is accepted |
| IdentifierPointers.CanBeBound | src/punica.c:249-276 | a session can be bound to the device of the two runs below |
| IdentifierPointers.ReusedBlockSpeaksForAnother | src/database.c:452 | a concrete run: bind to one device, delete it, post another with its uuid in that block, and the session is accepted under the name of the other |
| IdentifierPointers.NameInBlockSpeaksForAnother | src/rest/rest_devices.c:68 | another run: the other device is renamed to its own uuid, with the name in that block |
| Authentication.SessionSpeaksForIdentifiedDevice | src/punica.c:249-358 | the whole chain, for PSK and certificate handshakes: after any traffic and any requests that do not delete the device, the session is accepted exactly under the current name of the first device with its public data |
| Authentication.SessionSpeaksForItsDevice | src/punica.c:249-358 | for a PSK handshake that is the device whose secret was used |

## Left out

- Base64Codec.Codec.Encode: what a terminator written outside the array does to the memory there.
- Base64Codec.Decode: null text and null length pointers, and texts of 2^31 characters or more; a loop that leaves the array is not followed further.
- DatabaseEntries.EncodeField: how the text of a field that fills its buffer goes on when it is read.
- DatabaseEntries.BinaryFromJson: what a text that the save did not write merges into the memory behind its block; only that it does.
- DeviceDatabase.Database.Load: when the file holds no array the source frees the list it has already stored, and nothing is promised; the decoding of loaded texts past their blocks is not followed further.
- DeviceDatabase.Database.Put: once a save has left its buffers (`intact` is false), nothing is promised about the file; the same for Post and Delete.
- DeviceDatabase.Database.SaveToFile: failures of writing the file and of JSON text that is not UTF-8 are not modelled.
- DeviceDatabase.Database.Post: the server key, which the source caches, and the generated certificate are parameters.
- DeviceDatabase.NewSerial: draws are given as a sequence in which one is free; a short read of the random source is not modelled.
- RestHandlers.PutCallback: what the test request to the url answers is a parameter.
- RestHandlers.PutSubscription: the library's observations are a parameter, equal to those of the state; a context object is represented by the response it owns.
- DtlsConnections.SecureTransport.Stop: releasing the gnutls state and the socket.
- UdpConnections.Transport.Close: freeing memory is represented by leaving the table.
- Authentication.SessionSpeaksForItsDevice: the device list is the same for both callbacks of the handshake, and the identifier is a value; `IdentifierPointers.PointerIsAsGoodAsUuid` says when that is right.
- An empty sequence stands for both a null pointer and data of length zero.
- Duplicate keys inside one JSON object: the JSON library keeps the last.
- Allocation failures and failures of the random source.
- Address uniqueness in the DTLS table, since the receive loop overwrites the address of a connection.
- Sending over DTLS, which is one call into gnutls.
- Sockets, select, gnutls, certificates, and the LwM2M, HTTP and JSON libraries beyond the stated assumptions.
- `timeoutList`, to which nothing adds, and tearing the context down at exit.
- GET handlers for devices, endpoints and the callback, which only read.
- JSON web tokens, scope checks, settings, logging, signals, plugins, the version handler.
- Mutexes and interleaving inside a handler; the main loop calls receive without the lock.
