# Verified model of a service-discovery agent

The agent keeps a routing table from services to nodes, learns about nodes from the child lists of a
naming service, sends requests to them over pooled connections in CRC-framed messages, and rests on
in-tree parsing, searching and indexing code. This project models those parts in Dafny and proves what
they are for. Methods follow the source's own loops and in-place updates and are proved against functions
on values; lemmas state what holds of those functions on all inputs, and of the state machines in every run.

| file | models | main results |
|---|---|---|
| `Discovery`, `ResourceMgt`, `RoutingTables`, `Lookups`, `ServiceConf`, `Descriptions`, `StaleRoutes` | published descriptions, child-list notifications, snapshots and their difference, the two routing tables as maps and as the hash tables that hold them, node lookups | `PublishedServicesAreRegistered`, `RoutesAreRegistrations`, `Agent.FindPool`, `LookupsAreFair`, `RouteOutlivesItsProvider`, `DiffApplies`, `KeysDetermine` |
| `ConnPool`, `UtList` | the idle and used lists of a pool, as linked nodes | `RunKeepsInv`, `OneHolder`, `CheckOutcome`, `LongestIdleFirst`, `GoneForGood`, `NeverBelowMin`, `DestroyedWhenNoneIsOut` |
| `Invoke` | concurrent calls that share a pool, with late replies | `SuccessIsOwnReply`, `LateReplyIsRefused`, `AnsweredCallReturns`, `HeldByOneCall`, `RunIsPoolRun`, `AcquiredOnceReleasedOnce`, `CallIsLoop` |
| `JsonString`, `Decimal`, `Json`, `JsonLoops`, `JsonMinify` | cJSON: parser, both printers, string transcoding, in-place minifier | `ParsePrint`, `LiteralDecodes`, `Utf8Unique`, `BitForms`, `MinifyRendering` |
| `JsonGrammar`, `JsonAccepted`, `PrintedJson`, `CommentedJson` | cJSON against the grammar of JSON texts | `JsonTextIsRead`, `AcceptedIsWritten`, `PrintedIsJson`, `CommentedIsRead` |
| `JsonTexts`, `MinifyTexts` | every text that cJSON accepts, not only printed ones: printed anew, and minified | `AcceptedIsReprinted`, `MinifiedIsAccepted` |
| `HashTable`, `Bits` | the chained hash table with bucket doubling and an insertion-order list | `Table.Run`, `EntriesInOrder`, `Table.Expand`, `CountsAddUp` |
| `Dictionary` | the open-slot dictionary with a wrap-around probe | `Run`, `LastSettlingDecides`, `NullIsUnset` |
| `Kmp` | Knuth-Morris-Pratt search with the strong failure table, in both directions | `Find`, `FindLast` |
| `ListSort` | bottom-up merge sort of a linked list | `LLSort`, `SortIsStableSort`, `StableSortIsUnique` |
| `Crc32`, `Protocol` | table-driven CRC-32 and message frames over a stream in pieces | `ChecksumIsLongDivision`, `BurstIsDetected`, `FrameLayout`, `Transfer` |
| `Url`, `StrArray` | URL coding, round-robin selection of nodes and of worker threads | `EncodedByte`, `DecodeEncode`, `AgentRecoversDescription`, `RoundRobinIsFair`, `LoadsAreClose` |
| `CString` | C string truncation, options, distinctness, concatenation | |

How state is modelled. A C structure whose fields change is a class; the lists, arrays and buffers that the
source rewrites are linked nodes or arrays here too, with ghost sequences that say what they hold. Clock
readings, connect outcomes, the pieces in which a socket moves data, and the times at which connections
become stale are inputs. A notification is one atomic step, as it is under `modify_resource_lock`, and a pool
operation is one step under the pool's lock; the steps of concurrent calls interleave freely.

Where a promise holds only under a condition, the lemma states the condition, as an equivalence but for minified texts:

- Round robin (`RoundRobinIsFair`, `LookupsAreFair`): picks equal in number to the entries return each entry once exactly when the
  32-bit counter does not wrap meanwhile, or the number of entries divides 2^32; `PickIndexRepeats` gives the
  position that an uneven wrap picks twice, `UnevenWrapIsUnfair` three entries of which one is never picked.
- Publishing (`AgentRecoversDescription`): the node path is cut to its buffer, and the agent gets the description
  back exactly when the path fits, or when the cut takes only the two digits of a final escaped percent sign
  (or of a percent sign before a final 2) that `url_decode` then copies as it stands; `LongDescriptionIsLost` is a
  description that does not come back.
- Remembered snapshots (`FindAfterPut`, `RouteOutlivesItsProvider`): a snapshot that is put under a new key is found
  again exactly when the key fits its 60-byte field, or there is no snapshot. A group of 49 characters fits its own
  field, but its key is cut, as is that of every longer one; no child list of such a group ever deletes a route
  (`LongGroupNeverDeletes`), so a service that is published and withdrawn leaves its route behind exactly when the
  group has 49 characters or more.
- Frames (`ReceiveFrame`, `LongBodyIsLost`): a message is received from its frame when its body is shorter than
  2^32 bytes, and never otherwise, because the length travels in 32 bits. The source's checksum loop counts in an int,
  which the model does not bound, so for bodies of 2^31 bytes and more the first half speaks of the model only.
- Minified texts (`MinifiedIsAccepted`): the minified form of an accepted text is accepted as the same tree when every
  literal is closed and every `\u` has four characters of its own. The parser also accepts other texts; the minifier
  reads past the end of a literal that is not closed (`OpenLiteralIsNotMinified`), and of one whose `\u` swallows a quote
  (`SwallowedQuoteIsNotMinified`).
- Decoding (`DecodeFits`): `url_decode` writes its NUL inside a buffer as long as the text exactly when the text holds a
  percent escape.
- NULL settings (`NullIsUnset`, `NullIsNotUnset`): the comment above `dictionary_set` says that setting a key to NULL
  is equivalent to deleting it. The code keeps the key, and `dictionary_get` then returns NULL rather than the default.
  Later operations return the same after either exactly when none of them gets the key with a default before it is
  set or unset again.

Where the code and its comments disagree the model follows the code.

`dafny verify dfyconfig.toml` verifies all files.

## Model

| member | source | states |
|---|---|---|
| Discovery.RoutesAreRegistrations | soaagent/invoke_stub.c:61-102 | after every history of declarations and well-formed child lists, a service routes to a node exactly when some group's latest filtered snapshot registers it there; a node has a pool exactly when a service routes to it; no node list is empty or holds a node twice |
| Discovery.RunKeepsInv | soaagent/invoke_stub.c:71-102 | in every such history the tables agree with all remembered registrations, the filters are those declared, and each group's remembered snapshot is its latest one |
| Discovery.FiltersAreDeclared | soaagent/service_conf.c:53-60 | the filters after a history are the services that it declares, with their fields cut |
| Discovery.ProvidersKeepInv | soaagent/invoke_stub.c:71-102 | one notification replaces exactly its group's snapshot and leaves the tables in agreement with the new set of registrations |
| Discovery.FindAfterPut | soaagent/service_conf.c:241-260 | a snapshot that was put is found under its key iff the key was known or fits the key field, or there is none |
| StaleRoutes.LongGroupNeverDeletes | soaagent/invoke_stub.c:71-102 | after every history, a child list of a group of 49 characters or more deletes no route, whatever names it holds, because the snapshot of the group is never found |
| StaleRoutes.RouteOutlivesItsProvider | soaagent/service_conf.c:235-260 | for every group of lower-case letters: a service is declared, published by one child and withdrawn by an empty child list: no snapshot of its group is left, and its route is still there iff the group's provider key does not fit PROVIDER_KEY_LEN |
| Discovery.GoodSnapshot | soaagent/service_conf.c:101-133 | snapshots of well-formed children hold only registrations of the watched group whose keys stay apart, none twice |
| Discovery.Agent.ServiceFilterAdd | soaagent/service_conf.c:53-60 | the filter list gains the service once and nothing else changes |
| Discovery.Agent.ReadChildren | soaagent/invoke_stub.c:71-102 | decoding and filtering the names in a loop gives the snapshot of the whole child list, none if no child is JSON |
| Discovery.Agent.ChildrenChange | soaagent/invoke_stub.c:71-102 | filters, mapping and both hash tables together become what the notification makes of them |
| Discovery.Agent.FindPool | soaagent/invoke_stub.c:353-367 | after every good history the lookups of invoke_service find a pool iff some known provider offers the service, and then the pool of the node that the service's cursor has come to, which is one of theirs; the cursor moves on |
| Discovery.RoutedNodesHavePools | soaagent/invoke_stub.c:353-367 | after every good history each node that a service routes to has a pool, under a key that the 30-byte buffer does not cut |
| ResourceMgt.AddAgrees | soaagent/resource_mgt.c:357-362 | adding a registration to tables that agree with a set gives tables that agree with the set and it |
| ResourceMgt.DeleteAgrees | soaagent/resource_mgt.c:364-372 | deleting one removes exactly it, and its node's pool with the last service that routes there |
| ResourceMgt.NotifyAllAgrees | soaagent/invoke_stub.c:61-69 | applying a list of effective changes keeps the tables in agreement with the changed set |
| ResourceMgt.HasNodeIsRegistered | soaagent/resource_mgt.c:339-355 | a node still occurs in some registration iff some service key is registered at it |
| RoutingTables.ServiceTable.Add | soaagent/resource_mgt.c:256-274 | in the hash table, the string array of the service gains the node at its end unless it holds it, or a new service gains an array with it and a cursor at 0; arrays and cursors of other services stay |
| RoutingTables.ServiceTable.Delete | soaagent/resource_mgt.c:276-290 | the service's array loses the node and its cursor stays, and the service leaves the hash table with its last node |
| RoutingTables.ServiceTable.IsUsed | soaagent/resource_mgt.c:339-355 | the walk over all items finds the node iff some service lists it |
| RoutingTables.ServiceTable.RequireNodeKey | soaagent/resource_mgt.c:306-315 | the node at the service's cursor, if it lists any; that cursor moves by one, and no other |
| RoutingTables.ServiceTable.RequireNodeKeys | soaagent/resource_mgt.c:306-315 | lookups of services in any order return what the cursors of all services come to |
| Lookups.PicksAreSeparate | soaagent/str_array.c:55-63 | the k-th lookup of a service returns its k-th pick from where its cursor stood, however many lookups of other services come between |
| Lookups.LookupsAreFair | soaagent/str_array.c:55-63 | among any lookups, as many of one service as it has nodes return each node once iff its counter does not wrap meanwhile or the number of nodes divides 2^32 |
| RoutingTables.NodeTable.Add | soaagent/resource_mgt.c:129-145 | exactly this node gains an item, if it had none, with a pool of its own as pool_init leaves it; the pools of other nodes are the same objects as before |
| RoutingTables.NodeTable.Delete | soaagent/resource_mgt.c:147-163 | exactly this node leaves the table, and its pool is what the destroying thread is given |
| RoutingTables.Resources.Add | soaagent/resource_mgt.c:357-362 | both hash tables change as the two maps do for one registration added |
| RoutingTables.Resources.Delete | soaagent/resource_mgt.c:364-372 | both hash tables change as the two maps do for one registration deleted; the pool goes only if no service uses it any more |
| RoutingTables.Resources.FindPool | soaagent/invoke_stub.c:353-367 | the lookups of invoke_service find the pool of the node that the service's cursor has come to, its key copied into 30 bytes, and fail iff the service lists none or that key has no pool |
| RoutingTables.Resources.FindPools | soaagent/invoke_stub.c:353-367 | the lookups of several calls find the pools of the nodes that the cursors come to, one after the other |
| RoutingTables.Resources.NotifyChange | soaagent/invoke_stub.c:61-69 | status -1 deletes, 1 adds, anything else changes nothing |
| RoutingTables.Resources.NotifyChanges | soaagent/invoke_stub.c:71-102 | the changes are applied all and in order |
| ServiceConf.DiffApplies | soaagent/service_conf.c:180-218 | applied to any set that holds the left snapshot beside unrelated entries, the difference leaves the right snapshot beside them, and none of its changes is idle |
| ServiceConf.DiffEntries | soaagent/service_conf.c:180-218 | the difference mentions exactly the registrations lost (-1) and gained (1), none twice |
| ServiceConf.DiffRegisterInfo | soaagent/service_conf.c:180-218 | the scanning and copying loops yield that difference in all four NULL cases |
| ServiceConf.FindRegisterInfo | soaagent/service_conf.c:141-153 | the scan succeeds iff the registration is in the array |
| ServiceConf.ServiceFilterFind | soaagent/service_conf.c:67-77 | the scan succeeds iff the service is among the filters |
| ServiceConf.ParseNode | soaagent/service_conf.c:101-133 | the loop over a child's services extends the result by its registrations that pass the filters and are not in it yet |
| ServiceConf.CollectMember | soaagent/service_conf.c:101-133 | a registration is collected iff it was there or a service of the child offers it and a filter passes it |
| ServiceConf.SnapshotElements | soaagent/service_conf.c:101-133 | a snapshot holds exactly what its children register and the filters pass, none of it twice |
| ServiceConf.KeysDetermine | soaagent/service_conf.c:20-28 | service key and node key together determine a registration whose fields fit and hold no separator |
| ServiceConf.ProviderKeyInjective | soaagent/service_conf.c:30-33 | two groups with the same provider key are the same group, unless the key fills its buffer of MAX_NODE_PATH_LEN and may have been cut |
| ServiceConf.PublishedIsRead | soaregister/service_mgt.c:127-131 | a description published under its URL-encoded text is read by the agent as the text itself |
| ServiceConf.PublishedTreeIsRead | soaagent/service_conf.c:101-133 | printing, URL-encoding, decoding and parsing any printable tree gives the fields that the tree describes |
| ServiceConf.ReprintedIsReadAlike | soaagent/service_conf.c:101-133 | a published text that the parser accepts, in any layout, is read like either rendering of its tree |
| ServiceConf.MinifiedIsReadAlike | soaagent/service_conf.c:101-133 | a published text that is accepted up to its end and has whole literals is read like its minified form |
| ServiceConf.PublishedIsWatched | soaagent/service_conf.c:30-33 | a published node is a child of the path that its group's provider key names |
| Descriptions.PublishedServicesAreRegistered | soaagent/service_conf.c:101-133 | a JSON text that describes a provider, with any layout, further members and order and case of names, and whatever follows it, is read as that description, and the agent registers of it exactly the declared services, with fields cut to 49, 29, 19 and 19 characters |
| Descriptions.ProviderIsDescribed | soaagent/service_conf.c:112-123 | all services of a description are read, in order, with its group, host and port |
| Descriptions.MemberIsFound | soaagent/cJSON.c:512 | the first member whose name is spelled so in any case is found, whatever stands around it |
| Descriptions.TowardZero | soaagent/service_conf.c:113 | the port read is the number with its fraction cut off, toward zero |
| Descriptions.FieldsAreCut | soaagent/service_conf.c:46-51 | a registration keeps 49 characters of the group, 29 of the service, 19 of version and host |
| Descriptions.RefusedIsSkipped | soaagent/service_conf.c:101-105 | a child whose text the parser refuses changes no snapshot |
| Descriptions.TextEndsAtNul | soaagent/invoke_stub.c:80-86 | of a decoded child only the text before its first NUL counts |
| ConnPool.RunKeepsInv | soaagent/conn_pool.c:155-358 | in every run no connection is on a list twice or on both, the total never exceeds the larger of the initial and maximal number, and every connection made is idle, used or closed |
| ConnPool.AfterKeepsInv | soaagent/conn_pool.c:207-358 | each operation keeps that invariant |
| ConnPool.OneHolder | soaagent/conn_pool.c:232-289 | in every run a connection was handed out once more than given back while it is on the used list, and equally often otherwise |
| ConnPool.RequireFails | soaagent/conn_pool.c:232-267 | in every run a request fails iff every connection that is open is out and the limit is reached or the new connection fails; otherwise the connection it gets was held by nobody and is held once afterwards |
| ConnPool.CheckClosesOne | soaagent/conn_pool.c:331-358 | in every run, a connection that a check takes off the lists was idle and stale, no connection was out, at least min_conn_num are left, and in every continuation nobody holds it again |
| ConnPool.CheckOutcome | soaagent/conn_pool.c:331-358 | in every run a check leaves one idle connection fewer iff nobody holds one, more than min_conn_num are idle and one of them is stale; the earliest stale one on the list goes; otherwise nothing changes |
| ConnPool.IdleInOrder | soaagent/conn_pool.c:155-289 | in every run the idle connections stand in the order in which they became idle |
| ConnPool.LongestIdleFirst | soaagent/conn_pool.c:232-267 | in every run a request is given the connection that has been idle for longest, if one is idle |
| ConnPool.NeverBelowMin | soaagent/conn_pool.c:331-358 | in every run without a destroy the pool holds at least min_conn_num connections, or at least as many as pool_init made, and closes no more than it makes checks |
| ConnPool.GoneForGood | soaagent/conn_pool.c:207-358 | a connection that was made and is on neither list is on neither list after any continuation of the run |
| ConnPool.DestroyedWhenNoneIsOut | soaagent/conn_pool.c:207-224 | in every run destroying succeeds iff nobody holds a connection; then both lists are empty and all that were made are closed, else nothing changes |
| ConnPool.Pool.constructor | soaagent/conn_pool.c:155-182 | the idle list holds as many fresh connections as connected, the used list none |
| ConnPool.Pool.RequireConnection | soaagent/conn_pool.c:232-267 | both linked lists change as the request demands; a connection is made exactly when nothing is idle, the limit is not reached and it connects |
| ConnPool.Pool.ReleaseConnection | soaagent/conn_pool.c:275-289 | the connection moves to the end of the idle list; its time or its error mark is updated; NULL changes nothing |
| ConnPool.Pool.CheckIdle | soaagent/conn_pool.c:331-358 | the lists change as a check demands, whatever connections are stale; the connection closed, if any, is the only one whose marks change |
| ConnPool.Pool.FindStale | soaagent/conn_pool.c:331-358 | the search loop stops at the first stale connection, or finds none |
| ConnPool.Pool.Destroy | soaagent/conn_pool.c:207-224 | either all idle connections are closed and 0 is returned, or one is out, nothing changes and -1 is returned |
| ConnPool.Conn.Connect | soaagent/conn_pool.c:40-72 | success marks the connection usable now; failure leaves its marks alone |
| ConnPool.Conn.Reconnect | soaagent/conn_pool.c:96-99 | the connection is marked connected iff the new connect succeeds |
| UtList.Append | soaagent/utlist.h:336-348 | the acyclic list gains the node at its end |
| UtList.Delete | soaagent/utlist.h:352-366 | the acyclic list loses the node, or stays as it is if the node is not on it |
| UtList.Count | soaagent/utlist.h:419-426 | the walk counts the nodes |
| UtList.ListDetermined | soaagent/utlist.h:428-429 | a head determines the nodes of its acyclic list |
| Invoke.SuccessIsOwnReply | soaagent/invoke_stub.c:353-422 | in every run with fewer than 2^32 identifiers drawn, a call that returns 0 has a reply to its own request of the type with which a server answers requests of type 0x10, and one that fails has none |
| Invoke.LateReplyIsRefused | soaagent/invoke_stub.c:378-418 | in every run a call accepts the reply it receives iff it answers its own request with the right type; otherwise it retries or fails |
| Invoke.AnswerIsAccepted | soaagent/invoke_stub.c:384-396 | a waiting call whose next reply answers its own request leaves with it iff the reply has the response type of 0x10; otherwise it retries or fails |
| Invoke.AnsweredCallReturns | soaagent/invoke_stub.c:366-422 | from any state whose pool can serve, a call whose request is answered with type 0x90 goes through all its steps, returns 0 with the answer, and leaves its connection last on the idle list and other calls as they were |
| Invoke.ReconnectStartsAfresh | soaagent/conn_pool.c:96-99 | after a reconnect nothing that was sent or answered before is received, and the call sends again iff the connect succeeded |
| Invoke.HeldByOneCall | soaagent/invoke_stub.c:366-418 | in every run, of any length, the used connections are exactly those that calls hold, and no two calls hold one |
| Invoke.RunIsPoolRun | soaagent/invoke_stub.c:366-418 | the pool in every run of the system is that of a proper run of the pool, so what is proved of pools in runs holds while calls interleave |
| Invoke.AcquiredOnceReleasedOnce | soaagent/invoke_stub.c:366-418 | in every run a call acquires one connection, releases it once, when it returns, reconnects only before a retry, at most once, and sends at most twice |
| Invoke.RunKeepsInv | soaagent/invoke_stub.c:353-422 | in every run the pool is in order, serials are unique, and the wires carry only requests that calls made and replies to them |
| Invoke.SameIdentifier | soaagent/util.c:455-459 | among the first 2^32 draws equal identifiers mean the same draw |
| Invoke.LoopedResult | soaagent/invoke_stub.c:375-418 | the loop returns the first of two attempts that succeeds, and fails iff both do |
| Invoke.CallIsLoop | soaagent/invoke_stub.c:375-418 | in every run, whatever other calls do between its steps, a call that has returned did so with exactly what the retry loop makes of the attempts the call observed |
| Invoke.AttemptIsSteps | soaagent/invoke_stub.c:378-418 | conversely each turn of the loop is a run of send, receive and reconnect steps of the system, which takes the call where the loop's turn takes it and leaves pool and other calls alone |
| Invoke.RetryLoop | soaagent/invoke_stub.c:378-418 | code and reply are what the retry loop makes of its attempts; after a final failure the connection is left as the one reconnect left it, and a first success leaves it unchanged |
| Invoke.InvokeService | soaagent/invoke_stub.c:366-422 | a new connection is made iff nothing is idle, the limit is not reached and it connects; without a connection the call fails and the pool is as before; with one, the pool is as after acquiring and releasing it, whatever the loop came to |
| Json.ParsePrint | soaagent/cJSON.c:287-507 | either rendering of a printable tree, at any depth and before anything that ends a number, parses back to the tree and leaves what follows |
| Json.ParseRendering | soaagent/cJSON.c:264-278 | cJSON_Parse of either rendering is the tree, whether or not the text must end there |
| Json.ParsePrintNumberValue | soaagent/cJSON.c:96-138 | a printed int-range number parses back to it and stops where it ends |
| Json.IntNumbers32 | soaagent/cJSON.c:118-138 | the numbers rendered with "%d" are the integers from -2^31 to 2^31 - 1 |
| JsonGrammar.JsonTextIsRead | soaagent/cJSON.c:264-439 | every JSON text (sections 2 to 7 of RFC 8259), with any characters up to the space around every value, name, bracket, brace, comma and colon, is accepted as the tree it denotes; if its end is required only such characters may follow, else anything that does not go on with a number |
| JsonGrammar.NumeralIsRead | soaagent/cJSON.c:96-115 | every numeral, with sign, fraction and exponent, is read as the number it denotes |
| JsonAccepted.AcceptedIsWritten | soaagent/cJSON.c:264-439 | conversely every text accepted up to its end consists of tokens with brackets, braces, commas and colons in their places and of blanks, and the tree is the one it denotes |
| PrintedJson.PrintedIsJson | soaagent/cJSON.c:302-507 | either rendering of a printable tree is a JSON text of it in which every gap is determined: none in one, in the other a line a member indented by the brackets around it, a tab behind colons, a space behind commas in arrays |
| PrintedJson.PrintedLength | soaagent/cJSON.c:215-248 | a printed string has one character more for each quote, backslash or short escape, five for each other control character, and two quotes |
| PrintedJson.PlainIsPrintedPlain | soaagent/cJSON.c:215-248 | a string without quotes, backslashes and control characters is printed as it stands |
| Json.PrintNoNul | soaagent/cJSON.c:302-317 | neither rendering of a printable tree holds a NUL |
| JsonTexts.AcceptedIsReprinted | soaagent/cJSON.c:264-317 | every text without NUL that is accepted, however it is laid out: its tree can be printed iff its numbers are those that "%d" renders, and then either rendering is accepted as the same tree |
| JsonTexts.ParsedIsPrintable | soaagent/cJSON.c:287-299 | the strings and names of a parsed tree hold no NUL, whatever escapes the text has, and neither does what the parser leaves |
| JsonLoops.SkipLoop | soaagent/cJSON.c:261 | the loop stops at the first character above 32 or at the end |
| JsonLoops.MagnitudeLoops | soaagent/cJSON.c:96-115 | the digit loops read whole part, fraction and exponent as the decimal they denote |
| JsonLoops.ParseNumberLoops | soaagent/cJSON.c:96-115 | the number read and the place after it |
| JsonLoops.ParseValueLoops | soaagent/cJSON.c:287-299 | the value, the failure or the place after it, as the grammar function gives them |
| JsonLoops.ParseArrayLoop | soaagent/cJSON.c:320-345 | the loop that links elements yields the array that the grammar function gives, in order |
| JsonLoops.ParseObjectLoop | soaagent/cJSON.c:406-439 | the loop that links members yields the object that the grammar function gives, in order |
| JsonLoops.PrintStringLoops | soaagent/cJSON.c:215-248 | the copying loop writes the quoted text and stays inside the buffer that the measuring loop asked for |
| JsonLoops.PrintValueLoops | soaagent/cJSON.c:302-317 | the text of a value fits the buffer it was given |
| JsonLoops.PrintArrayLoops | soaagent/cJSON.c:348-403 | the composing loop writes the array's rendering and stays inside the buffer sized from its entries |
| JsonLoops.PrintObjectLoops | soaagent/cJSON.c:442-507 | the composing loop writes the object's rendering and stays inside the buffer sized from names, values and depth |
| JsonString.LiteralDecodes | soaagent/cJSON.c:140-212 | a literal of well-formed pieces parses to their meanings, the measuring pass stops at the quote that ends the copy, and the copy is no longer than measured |
| JsonString.HexDenotes | soaagent/cJSON.c:140-152 | four hexadecimal digits of either case are read as the number they denote |
| JsonString.OtherHexIsZero | soaagent/cJSON.c:140-152 | anything else is read as zero |
| MinifyTexts.DroppedEscape | soaagent/cJSON.c:177-186 | a \u escape of zero, of half a pair, or of no hexadecimal digits writes nothing |
| JsonString.Utf8Decodes | soaagent/cJSON.c:154-205 | the bytes written for a Unicode scalar value are decoded to it by the rules of section 3 of RFC 3629 |
| JsonString.Utf8Unique | soaagent/cJSON.c:154-205 | no other bytes decode to it |
| JsonString.BitForms | soaagent/cJSON.c:154-205 | the shifts, masks and marks of the transcoder's byte loop, lead byte included, write exactly the UTF-8 bytes of the code point |
| JsonString.PairBits | soaagent/cJSON.c:184-189 | the masks and the or that join the halves of a surrogate pair give the twenty bits that they carry |
| JsonString.UnescapeEscape | soaagent/cJSON.c:155-248 | a printed string is read back as itself, up to its closing quote |
| JsonString.MeasureEscape | soaagent/cJSON.c:155-165 | the measuring pass of a printed string stops at its closing quote |
| JsonString.ParseStringLoops | soaagent/cJSON.c:155-212 | the two loops read the string that the specification gives, and the buffer is sized by what the first one counted |
| JsonMinify.MinifyRendering | soaagent/cJSON.c:581-596 | minifying either rendering of a printable tree yields exactly the unformatted one |
| CommentedJson.CommentedIsRead | soaagent/cJSON.c:581-596 | a JSON text with white space, line comments and block comments around its tokens is minified to exactly its tokens, and these are accepted as the tree that the text denotes |
| JsonMinify.MinifyPrint | soaagent/cJSON.c:581-596 | the same at any depth and before any text that minifies |
| JsonMinify.MinifyInPlace | soaagent/cJSON.c:581-596 | the buffer ends up holding the minified text and a NUL, the write position never passing the read position |
| JsonMinify.MinifyRenderingInPlace | soaagent/cJSON.c:581-596 | a buffer that holds either rendering of a printable tree ends up holding the unformatted one and its NUL |
| MinifyTexts.MinifiedIsAccepted | soaagent/cJSON.c:581-596 | every text that is accepted up to its end and whose literals are whole has a minified form, and that is accepted as the same tree |
| MinifyTexts.MinifiedValue | soaagent/cJSON.c:287-299 | the same of each value in its context: what follows it is left over, minified |
| MinifyTexts.UnescapeIsLocal | soaagent/cJSON.c:155-212 | a whole literal is read alike whatever follows it, surrogate pairs and bad escapes included |
| MinifyTexts.NumberIsLocal | soaagent/cJSON.c:96-115 | a number is read alike before anything that stops it |
| MinifyTexts.HexIsPlain | soaagent/cJSON.c:140-152 | four hexadecimal digits are four characters of their own |
| MinifyTexts.OpenLiteralIsNotMinified | soaagent/cJSON.c:592 | a literal that is never closed is accepted by the parser and read past by the minifier |
| MinifyTexts.SwallowedQuoteIsNotMinified | soaagent/cJSON.c:592 | so is one whose \u swallows a quote |
| MinifyTexts.MinifyAcceptedInPlace | soaagent/cJSON.c:581-596 | a buffer that holds an accepted text with whole literals ends up holding a text that is accepted as the same tree |
| JsonMinify.MoveLiteral | soaagent/cJSON.c:592 | a string literal is moved unchanged, escapes included |
| JsonMinify.SkipLine | soaagent/cJSON.c:590 | a line comment is skipped up to its newline or the end |
| JsonMinify.SkipBlock | soaagent/cJSON.c:591 | a closed block comment is skipped whole |
| Decimal.TakeDigitsOfDigits | soaagent/cJSON.c:96-138 | reading a printed numeral gives its number back and stops where it ends, before anything that is not a digit |
| Decimal.FormatInjective | soaagent/service_conf.c:20-23 | different ports print differently |
| HashTable.Table.Run | soaagent/uthash.h:103-257 | every sequence of finds, adds of absent keys and deletes returns what a map that remembers insertion order returns, and leaves the same entries in the same order |
| HashTable.AppliedIsMap | soaagent/uthash.h:103-257 | the insertion-ordered map that the table is compared with answers each key by its last effective use, and keeps one entry a key |
| HashTable.EntriesInOrder | soaagent/uthash.h:182-257 | in that map the entries stand in the order in which they were added |
| HashTable.SlotIsRemainder | soaagent/uthash.h:207-210 | an item's bucket is its hash modulo the number of buckets |
| HashTable.Table.Perform | soaagent/uthash.h:103-257 | the same of one use; the table keeps its invariant on list, chains, counts, back links and tail |
| HashTable.Table.Add | soaagent/uthash.h:182-206 | the item is last in order, the first makes 32 buckets, and the buckets double exactly when the chain of its bucket reaches ten times its multiplier plus one, and expansion is not inhibited |
| HashTable.Table.Find | soaagent/uthash.h:103-114 | the chain walk finds the item with the key iff the table holds one |
| HashTable.Table.Delete | soaagent/uthash.h:229-257 | the item leaves list and chain, all others keep their order, and the table goes with its last item |
| HashTable.Table.Expand | soaagent/uthash.h:677-723 | the same items in the same order on twice as many buckets; the ideal chain length is the rounded-up quotient, nonideal_items the summed excess, and expansion is inhibited after two ineffective ones in a row |
| HashTable.Table.ToSeq | soaagent/uthash.h:879-885 | iteration visits the items in insertion order |
| HashTable.DistributePlaces | soaagent/uthash.h:677-723 | moving distinct items one by one puts each on the one chain that its hash selects, and nothing else |
| HashTable.MovedPlaced | soaagent/uthash.h:677-723 | the chains after an expansion hold exactly the items held before, each where its hash selects under the new mask |
| HashTable.Redistribute | soaagent/uthash.h:677-723 | the two loops relink all chains into the new buckets, with heads, back links, counts, multipliers and the count of nonideal items |
| HashTable.ExcessCounts | soaagent/uthash.h:700-703 | nonideal_items counts the places on chains beyond the ideal length |
| HashTable.MultipleBounds | soaagent/uthash.h:700-703 | a bucket's multiplier is how many ideal lengths its chain holds, 0 within one |
| HashTable.CountsAddUp | soaagent/uthash.h:289-337 | the chains together hold as many items as the table counts |
| HashTable.LookupInChain | soaagent/uthash.h:608-619 | searching the selected chain is searching the whole table |
| HashTable.UnlinkItem | soaagent/uthash.h:229-257 | the doubly linked list without the item, and its head and tail |
| HashTable.UnchainItem | soaagent/uthash.h:636-646 | the doubly linked chain without the item, and its head |
| HashTable.PushBucket | soaagent/uthash.h:622-633 | the item is first on its bucket's chain and counted; every other chain is as before |
| Bits.MaskIsRemainder | soaagent/uthash.h:207-210 | masking with a power of two less one takes the remainder |
| Bits.CeilingByShift | soaagent/uthash.h:687-689 | the shifted number, plus one if the mask leaves bits, is the quotient rounded up |
| Dictionary.Run | soaagent/dictionary.c:179-327 | any run of sets, gets and unsets on a new dictionary of any size returns what a plain map returns |
| Dictionary.LastSettlingDecides | soaagent/dictionary.c:179-325 | after any run a get returns what the last set of its key gave, or the default if the key was unset since or never set |
| Dictionary.NullIsUnset | soaagent/dictionary.c:215-325 | after a key is set to NULL every later run of operations returns what it returns after unsetting the key iff none of them gets the key with a default before it is set or unset again |
| Dictionary.NullIsNotUnset | soaagent/dictionary.c:179-325 | a get with a default returns NULL after one and the default after the other |
| Dictionary.DictionaryHash | soaagent/dictionary.c:91-107 | the loop computes the hash under which a key is stored |
| Dictionary.HashOfOne | soaagent/dictionary.c:91-107 | the hash of "a" is the value published with one-at-a-time hashing |
| Dictionary.Dictionary.constructor | soaagent/dictionary.c:120-136 | an empty map in at least 128 slots |
| Dictionary.Dictionary.Get | soaagent/dictionary.c:179-197 | the value of the key if it is stored, else the default |
| Dictionary.Dictionary.Set | soaagent/dictionary.c:225-279 | exactly this key maps to the value, whether overwritten, added, or added after doubling; a NULL key changes nothing |
| Dictionary.Dictionary.Unset | soaagent/dictionary.c:292-327 | exactly this key is gone |
| Dictionary.Dictionary.Grow | soaagent/dictionary.c:38-49 | doubling the arrays loses no entry and adds empty slots |
| Dictionary.Dictionary.EmptySlot | soaagent/dictionary.c:267-272 | the wrap-around probe ends, at an empty slot |
| Dictionary.RepresentsFilled | soaagent/dictionary.c:273-277 | an empty slot filled adds one key to the map |
| Dictionary.RepresentsCleared | soaagent/dictionary.c:318-325 | a slot cleared removes its key from the map |
| Kmp.Find | soaagent/utstring.h:304-346 | the first occurrence at or after the start position, -1 iff there is none |
| Kmp.FindLast | soaagent/utstring.h:350-388 | the last occurrence that ends at or before the start position, -1 iff there is none, also for a start before the text |
| Kmp.BuildTable | soaagent/utstring.h:157-193 | every entry is the longest border whose next character differs |
| Kmp.BuildTableReverse | soaagent/utstring.h:197-233 | the same of the mirrored needle |
| Kmp.FindForward | soaagent/utstring.h:237-266 | with such a table, the first occurrence |
| Kmp.FindReverse | soaagent/utstring.h:270-300 | with such a table, the last occurrence |
| Kmp.StrongFromWeak | soaagent/utstring.h:157-193 | the longest border, or its own entry if the next characters agree, is the strong entry |
| Kmp.ExtendingFallsBack | soaagent/utstring.h:157-193 | following the strong table skips no border that could be extended |
| Kmp.SearchingFallsBack | soaagent/utstring.h:237-266 | after a mismatch the strong table moves past no occurrence |
| Kmp.MirrorFirstIsLast | soaagent/utstring.h:270-300 | the first occurrence in the mirrored text is the last in the text |
| ListSort.LLSort | soaagent/utlist.h:108-165 | the relinking loops end, for every comparison, with an acyclic list of the same nodes in the order of the merge sort on sequences |
| ListSort.SortIsStableSort | soaagent/utlist.h:108-165 | for every total preorder the result is sorted, a permutation, and keeps the order of equals |
| ListSort.StableSortIsUnique | soaagent/utlist.h:108-165 | there is no other sorted sequence with the same order of equals |
| ListSort.PassRuns | soaagent/utlist.h:118-158 | a pass turns sorted runs of one length into sorted runs of twice that length |
| ListSort.MergeClass | soaagent/utlist.h:132-155 | a merge keeps equals in order, those of the first run first |
| ListSort.MergeRuns | soaagent/utlist.h:131-156 | the inner loop appends the merge of two runs to the finished list and leaves the rest of the list intact |
| ListSort.PassOver | soaagent/utlist.h:117-161 | one turn of the outer loop is one pass, and it counts at most one merge iff the list fits two runs |
| Crc32.ChecksumIsLongDivision | soaagent/crc32.c:4-97 | for every byte string the checksum is the CRC of the polynomial in the file header, as polynomial long division over bits (the algorithm of section 8 of RFC 1952) |
| Crc32.CheckValue | soaagent/crc32.c:84-97 | the checksum of the digits 1 to 9 is 0xCBF43926, the published check value |
| Crc32.TableIsByteStep | soaagent/crc32.c:9-74 | each of the 256 table entries is eight bit steps of its index |
| Crc32.LoopStep | soaagent/crc32.c:92-94 | one turn of the loop, sign extension of char included, is one byte of the register |
| Crc32.Crc32 | soaagent/crc32.c:84-97 | the loop computes the checksum |
| Crc32.RegisterIsBitRegister | soaagent/crc32.c:84-97 | the byte-wise register is the bit-wise register of the message's bits, lowest bit first |
| Crc32.BitStepIsShiftIn | soaagent/crc32.c:4-7 | the reflected 32-bit register is the polynomial register written lowest bit first |
| Crc32.PolyWordBits | soaagent/crc32.c:4-7 | the reflected constant is the polynomial of the file header |
| Crc32.BurstIsDetected | soaagent/crc32.c:84-97 | different messages of equal length that differ only inside 32 consecutive bits have different checksums |
| Crc32.FourByteBurstIsDetected | soaagent/crc32.c:84-97 | the same for four consecutive bytes |
| Protocol.Transfer | soaagent/protocol.c:56-117 | any sequence of messages, sent and received in any pieces and with interruptions, arrives in order and unchanged, and what follows on the stream is untouched |
| Protocol.ReceiveFrame | soaagent/protocol.c:84-117 | a frame followed by anything is received as its message and nothing more is consumed, empty bodies included |
| Protocol.FrameLayout | soaagent/protocol.c:56-73 | a frame is the checksum of all that follows it, identifier, length, type, three zero bytes and the body, at bytes 0, 4, 8, 12, 13 and 16 |
| Protocol.HighByteFirst | soaagent/protocol.c:56-73 | checksum, identifier and length travel with their high byte first |
| Protocol.ReceivedWasFrame | soaagent/protocol.c:84-117 | whatever is received was a frame with a matching checksum |
| Protocol.LongBodyIsLost | soaagent/protocol.c:56-73 | a body of 2^32 bytes or more is never received |
| Protocol.BurstIsRejected | soaagent/protocol.c:33-46 | after any error burst of at most 32 bits behind the checksum field the check fails |
| Protocol.Socket.Send | soaagent/util.c:369-392 | the stream gains a prefix of the buffer, all of it if the call succeeds; it succeeds whenever the kernel takes enough pieces |
| Protocol.Socket.Recv | soaagent/util.c:402-448 | a prefix of the stream is taken, of exactly the wanted length if the call succeeds; it succeeds whenever enough data comes in pieces |
| Protocol.Socket.SendMessage | soaagent/protocol.c:56-73 | the stream gains the message's frame |
| Protocol.Socket.ReceiveMessage | soaagent/protocol.c:84-117 | success means that exactly one frame was consumed and its message returned; a wrong checksum never succeeds |
| Protocol.ResponseType | soaagent/protocol.c:21-23 | the answer's type has the top bit set and is otherwise the request's |
| Protocol.LengthRoundTrip | soaagent/protocol.c:56-117 | a length below 2^32 survives network byte order |
| Url.DecodeEncode | soaagent/url_encode.c:34-99 | decoding an encoded byte string gives it back |
| Url.EncodedByte | soaagent/url_encode.c:51-63 | each letter, digit, '-', '.' and '_' is encoded as itself, a space as '+', every other byte as '%' and two upper-case digits |
| Url.EncodeConcat | soaagent/url_encode.c:34-68 | a string is encoded byte by byte |
| Url.EncodedLength | soaagent/url_encode.c:34-68 | an encoding has two characters more for each byte that is escaped |
| Url.DecodedEscape | soaagent/url_encode.c:86-91 | a percent sign and two hexadecimal digits of either case decode to the byte they denote |
| Url.DecodedOther | soaagent/url_encode.c:82-95 | a plus sign decodes to a space, any other character but a percent sign to itself |
| Url.DecodedPercent | soaagent/url_encode.c:86-95 | a percent sign that two hexadecimal digits do not follow stays |
| Url.EncodedIsPlain | soaagent/url_encode.c:34-68 | encodings use only letters, digits and five marks, so they are one path component |
| Url.UrlEncode | soaagent/url_encode.c:34-68 | the loop writes the encoding, in at most three times the length |
| Url.UrlDecode | soaagent/url_encode.c:73-99 | the loop writes the decoding |
| Url.DecodeFits | soaagent/url_encode.c:73-99 | the decoded text and its NUL fit a buffer as long as the text iff the text holds a percent escape |
| Url.AgentRecoversDescription | soaregister/service_mgt.c:127-131 | the agent decodes the child's name to the published description iff the path, whose length is counted in the bytes of the description that are escaped, is shorter than 10852, or the cut was harmless |
| Url.LongDescriptionIsLost | soaregister/service_mgt.c:127-131 | a description as long as the path buffer does not come back |
| Url.DecodeCutEncoding | soaagent/url_encode.c:73-99 | a cut encoding decodes to the whole string iff two characters are missing and the string ends in "%", or in "%2", so that url_decode copies the rest of the escape as it stands |
| StrArray.StringArray.Find | soaagent/str_array.c:26-35 | the position of the first occurrence, or -1 |
| StrArray.StringArray.Add | soaagent/str_array.c:37-44 | the value is added at the end unless present |
| StrArray.StringArray.Delete | soaagent/str_array.c:46-53 | the value's entry is gone, the others keep their order |
| StrArray.StringArray.Next | soaagent/str_array.c:55-63 | the entry that the counter selects; the 32-bit counter moves on |
| StrArray.AddedEntries | soaagent/str_array.c:37-44 | adding keeps entries distinct and adds exactly the value |
| StrArray.DeletedEntries | soaagent/str_array.c:46-53 | deleting keeps entries distinct and removes exactly the value |
| StrArray.RoundRobinIsFair | soaagent/str_array.c:55-63 | as many picks as entries are a permutation of the entries iff the counter does not wrap, or wraps evenly |
| StrArray.UnevenWrapIsUnfair | soaagent/str_array.c:55-63 | three entries picked three times from a counter about to wrap: the first twice, the last never |
| StrArray.PickIndexRepeats | soaagent/str_array.c:55-63 | an uneven wrap picks some position twice |
| StrArray.WorkerCycle.NextWorker | soaagent/server.c:70-79 | a worker index in range; the counter stays within 16 bits |
| StrArray.WorkerCycle.Accept | soaagent/server.c:70-79 | the k-th connection goes to the worker that the reset counter selects |
| StrArray.LoadsAreClose | soaagent/server.c:70-79 | after n connections two workers differ by at most n / 65536 + 1 |
| StrArray.PlainLoadsAreClose | soaagent/server.c:70-79 | without the reset they differ by at most one, the earlier one ahead |
| CString.Truncate | soaagent/service_conf.c:46-51 | snprintf into a field keeps the longest prefix that leaves room for the NUL: the whole string, or its first len - 1 characters |

## Left out

- RoutingTables.NodeTable.Delete: a deleted node's pool is destroyed later by a thread that waits until its connections are back; that thread is not modelled.
- RoutingTables.Resources.FindPool: a pool that is deleted between the lookup and the call, which the source does not exclude.
- Discovery.Agent.ChildrenChange: the mapping from groups to snapshots is a map; the hash table beneath such maps is proved in `HashTable`.
- Descriptions.PublishedServicesAreRegistered: a port is an integer of the int range; a text with a NUL counts up to it (TextEndsAtNul); comments are not accepted by the agent, which does not minify.
- JsonAccepted.AcceptedIsWritten: a token is whatever the parser takes for one, malformed numbers and literals included.
- Discovery.RoutesAreRegistrations: assumes what providers and configuration guarantee (children carry the group of their path and no separator in group or service, the group fits its key field, ports have at most five digits); groups whose key is cut are the subject of `StaleRoutes`.
- ServiceConf.ParseNode: starts from the description that ServiceConf.Describe reads out of the tree; a port outside the int range and a field whose string is NULL are not modelled.
- ServiceConf.PublishedTreeIsRead: covers descriptions in the form that the cJSON printers write; for other layouts see ReprintedIsReadAlike, whose numbers are restricted to those that "%d" renders.
- Invoke.SuccessIsOwnReply: assumes that replies arrive whole and that next_identifier, which is not atomic in the source, draws each number once and does not wrap.
- Invoke.InvokeService: starts from the pool; the lookups before it are `RoutingTables.Resources.FindPool`. In the source a failed call may leave the body of a refused reply in the caller's buffer; here it returns none.
- ConnPool.Pool.ReleaseConnection: requires a connection that is out, as every caller in the source has; giving back another one would corrupt the source's lists.
- ConnPool.Conn.Connect: socket options, addresses and last_check_time, which nothing modelled here reads.
- ConnPool.Pool.CheckIdle: the comparison of clock readings is replaced by an arbitrary set of stale connections.
- Json.ParsePrint: numbers are restricted to those that print_number renders with "%d"; the other formats rest on the C library's doubles, and parse_number's arithmetic is over real numbers without rounding and without overflow of its int counters.
- JsonLoops.MagnitudeLoops: exact reals and unbounded exponents in place of doubles and ints, as under Json.ParsePrint.
- JsonLoops.ParseNumberLoops: likewise; valueint is not produced.
- JsonLoops.ParseValueLoops: likewise; a tree is a value rather than linked nodes.
- JsonLoops.ParseArrayLoop: elements are kept in a sequence; next and prev links are not written.
- JsonLoops.ParseObjectLoop: likewise for members.
- JsonLoops.PrintValueLoops: numbers are those that print_number renders with "%d".
- JsonLoops.PrintArrayLoops: likewise.
- JsonLoops.PrintObjectLoops: likewise.
- Json.ParseValue: node structures, their prev links and valueint are not modelled; a tree is a value.
- JsonString.ParseString: an escape or literal cut off by the end of the text reads past the terminating NUL in the source; the model reports it and says no more.
- MinifyTexts.MinifiedIsAccepted: goes one way. Every text with the grammar of RFC 8259 meets its condition; on malformed \u escapes the parser's scan and the minifier's fall out of step, and may by chance fall into step again.
- JsonMinify.MinifyInPlace: requires a text whose literals and block comments are closed.
- Protocol.Socket.Recv: the wait for data and its timeout; one that times out or fails returns -1 with nothing read, as a receive that breaks at once does here.
- Url.UrlDecode: the result is a sequence; DecodeFits says when it and its NUL fit the source's buffer.
- Kmp.Find: lengths are unbounded; requires a start position inside the string, as the source does.
- Crc32.Crc32: the length is kept in an int in the source, so messages of 2^31 bytes and more are not modelled.
- ListSort.LLSort: the run length, an int in the source, is unbounded.
- HashTable.Table.Expand: item and bucket numbers are unbounded, so a wrap of the 32-bit bucket number is not modelled; the alternative hash functions, the bloom filter, HASH_SELECT and HASH_SRT are left out.
- StrArray.StringArray.Next: two threads may draw the same counter value in the source.
- Allocation failure, freeing of memory, and buffers other than those named above.
- ZooKeeper sessions and watchers, libevent, accept loops, threads, signals, daemonizing, files, logging, status pages.
- The ini parser's line formats and the protobuf messages.
- The PHP extensions, and the copies of cJSON, protocol, util and url_encode in soaregister, which repeat the agent's.
