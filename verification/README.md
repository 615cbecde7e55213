# Verified model of a DNS-over-HTTPS client, server and list updater

This project models, in Dafny, the parts of the repository that hold state, arithmetic or a codec:

- the list updater that publishes numbered whitelist and blacklist files by rename and prunes old
  ones, together with the server reloads that pick the newest file, parse it and swap it in while
  requests are being filtered (`Rotation`, `Lists`, `ListsProtocol`, `ListsTheorems`,
  `ListsProgress`, `Feeds`, `Filtering`);
- the JSON form of DNS messages and everything that has to survive it: record data, the response
  code split over two fields, lifetimes sent as absolute times, the client subnet
  (`Dns`, `JsonDns`, `JsonUnmarshal`, `JsonTheorems`, `Subnets`);
- TTL ageing on the client against the lifetime the server announces (`Freshness`);
- carriage of the packed query, EDNS, dispatch, retries and transaction IDs on both sides, and one
  exchange from end to end (`Http`, `Transport`, `JsonRequest`, `Edns`, `ServerDispatch`, `ClientDispatch`,
  `EndToEnd`);
- two small concurrent machines: the buffered request log and the replacement of the shared HTTP
  client (`RequestTracker`, `HttpClientSwap`);
- the tables of non-global networks (`GlobalIp`).

`dafny verify dfyconfig.toml` checks the whole project.

## How to read it

Each loop of the source is a method with a loop, proved equal to a specification function
(`MarshalSection` and `MarshalAll`, `ParseList` and `Keys`, `RemoveOld` and `Victims`). The lemmas
are about those functions. The list protocol, the tracker and the HTTP client are transition
systems: `Enabled` and `Next` (or `Step`) define one atomic step, `Feasible` and `After` a run, and
the theorems quantify over all feasible event sequences from any initial state. The steps use the
contracts of the imperative methods: a scan step may return what `MaxNumber` or `NewestName` may
return, and a pruning pass removes what `RemoveOld` removes (`ListsProgress.PruningPass`).

The main results:

- `ListsTheorems`: in every interleaving of one updater (which may fail or restart anywhere) with any
  number of reloads (which may fail midway), published files never change or get overwritten, the
  newest file is never pruned, a selected file goes only after `keep` newer publications, published
  lists are whole files, and verdicts that all generations agree on never waver.
- `ListsProgress`: what undisturbed runs of that protocol achieve. A pruning pass removes exactly what
  `RemoveOld` removes, a cycle publishes both texts, and a reload puts exactly those in force.
- `Feeds` with `Lists`: fetch, cycle, reload and lookup in one statement (`Feeds.CycleAndReload`): after
  a cycle without a leftover file a lookup hits exactly the names the feeds report.
- `EndToEnd.Exchange`: one query through both handlers, in either format. In wire format it leaves under
  ID 0, is asked under a fresh ID, and comes back as the filtered first upstream answer under the ID it
  came with. In JSON the question, the checking flag and the subnet arrive, and the answer comes back
  through Marshal and Unmarshal. Every server error ends as SERVFAIL. The wire and JSON codecs are only
  asked to give back the messages of that very exchange.
- `JsonTheorems`, `Subnets`: what Marshal followed by Unmarshal (and the reverse) keeps, and exactly
  when it does not.
- `Freshness.FreshWithinMaxAge`, `Transport.PacketArrivesIff`, `Filtering.FilteringCommutesWithMarshal`,
  `RequestTracker.NothingLostIffNoShortWrite`, `GlobalIp.MatchesIsInterval`.

Findings about the code that the model makes explicit:

- The server writes the same instant into `Date` and `Last-Modified`, so a client that sees these
  headers computes age zero and never ages a TTL (`Freshness.OwnHeadersMeanAgeZero`).
- A JSON record that expired a second or more ago gets its full TTL back
  (`JsonTheorems.ExpiryNeverExtends`).
- A leftover `.new` file longer than the new content leaves a stale tail in the published list; a
  reload loads exactly that tail's entries on top (`Feeds.LeftoverAddsItsTail`).
- A list line of 4096 bytes or more contributes only its last incomplete read buffer
  (`Lists.ParsedPerLine`, `Lists.SurvivorIsLastChunk`).
- Two names of one number (a leading zero) can make pruning remove the file a scan selects as newest:
  exactly when more than `keep` entries carry the greatest number
  (`ListsTheorems.LeadingZeroPrunesNewest`, `ListsTheorems.NewestPrunedIff`).
- A list that holds the root name drops the OPT record, and with it an extended status and the client
  subnet, exactly when the record carries them (`Filtering.StatusKeptIff`, `Filtering.SubnetKeptIff`,
  `Filtering.RootListedLosesBoth`).
- A UDP reply cut to an announced size below two bytes does not carry the ID, and every other reply
  does (`ClientDispatch.SizeZeroLosesId`, `ClientDispatch.DeliveredCarriesIdIff`).
- An upstream URL with a fragment, or with a `dns` field of its own in whatever spelling, keeps packets
  from arriving by GET; the exact condition is `Transport.PacketArrivesIff`, and `d%6es` is one such
  spelling (`Transport.OwnFieldSpoils`, `Transport.EscapedSpelling`).
- A JSON query for a type whose mnemonic is not upper case ("None", "Reserved") is refused with 400, and a
  JSON record of such a type is dropped (`JsonRequest.TypeArrivesIff`, `JsonTheorems.RecordRoundTrip`).
- Data of a JSON record comes back in the parser's own spelling, so it is unchanged exactly if it was in
  that spelling before (`JsonTheorems.VisibleKept`).
- The prepared reply assigns its opcode to itself (json-dns/unmarshal.go:41), so a reply to anything but a
  standard query carries opcode 0 (`JsonTheorems.PreparedReply`).
- Readme.md:126-127 says whitelisted domains are always resolved; the code, like Readme.md:135-136,
  asks the ads list first. The model follows the code.

## Model

| member | source | states |
|---|---|---|
| `Rotation.MaxNumber` | lists-updater/main.go:110-138 | the scan returns the greatest number among the entries, or -1 when no entry is numbered |
| `Rotation.NewestName` | doh-server/filtering.go:169-202 | the scan returns an entry that carries the greatest number, and fails exactly when no entry is numbered |
| `Rotation.NumberOfFileName` | lists-updater/main.go:68-73 | a published name reads back as its own number exactly up to the largest 64-bit integer |
| `Rotation.UnnumberedNames` | lists-updater/main.go:73-83 | neither the file being written nor the target of an overflowed number matches any selector |
| `Rotation.SortSorts` | lists-updater/main.go:166-166 | the numbers are put in ascending order and none is lost or added |
| `Rotation.VictimsExactly` | lists-updater/main.go:140-174 | for every directory and every keep, leading zeros included, a file is pruned iff it is the last enumerated name of its number and more than keep entries have at least that number |
| `Rotation.CanonicalVictims` | lists-updater/main.go:140-174 | with canonical names that is: exactly the files with at least keep newer ones |
| `Rotation.VictimsBelowSpared` | lists-updater/main.go:166-173 | the keep spared numbers are all above every number to be removed |
| `Rotation.Directory.RemoveOld` | lists-updater/main.go:140-174 | for a full or cut-short listing the directory loses exactly the prunable files whose removal is not refused; a negative keep panics, and only that |
| `ListsProtocol.TargetIsFresh` | lists-updater/main.go:69-83 | a scan followed by the rename targets a name and number never used before in the run |
| `ListsProtocol.RenameKeepsKind` | lists-updater/main.go:73-83 | a rename adds one number under its own selector and nothing under the others, and keeps the file invariant |
| `ListsProtocol.RemoveKeepsKind` | lists-updater/main.go:167-173 | removing one victim leaves every absent file with at least keep newer ones present |
| `ListsProtocol.PublishStep` | doh-server/filtering.go:116-146 | swapping in one list keeps the tie between each list and the last file published for it |
| `ListsProtocol.FailureEnds` | doh-server/filtering.go:157-202 | a reload that finds no file, cannot open its selection or fails ends without a trace, and a failed updater starts over with the whitelist |
| `ListsProtocol.StepInv` | lists-updater/main.go:55-174 | every step of updater and reloads, failures and cut-short directory reads included, keeps the invariant and never rewrites history |
| `ListsProtocol.RunInv` | lists-updater/main.go:44-174 | so does every run |
| `ListsTheorems.RenameNeverOverwrites` | lists-updater/main.go:69-86 | in every reachable state a rename replaces no numbered file, and below the top of the integer range it publishes a number above every number ever visible |
| `ListsTheorems.ContentNeverChanges` | lists-updater/main.go:73-83 | a numbered file keeps its content for the rest of the run |
| `ListsTheorems.NewestNeverRemoved` | lists-updater/main.go:88-90 | after any step from a reachable state the newest file of each kind is still there |
| `ListsTheorems.SelectedOutlivesKeepPublications` | doh-server/filtering.go:157-167 | a file a reload selected is gone only when at least keep newer ones of its kind were published since |
| `ListsTheorems.OpenReadsSelection` | doh-server/filtering.go:157-167 | before that, opening the selected name succeeds and reads the content seen at selection |
| `ListsTheorems.PublishedListsAreWholeFiles` | doh-server/filtering.go:116-155 | each published list is the initial empty one or the complete parse of one numbered file of its kind |
| `ListsTheorems.VerdictsStable` | doh-server/filtering.go:101-155 | while serving, a name blacklisted and not whitelisted in all published generations is restricted, and one in no published blacklist or ads list is not |
| `ListsProgress.PruningPass` | lists-updater/main.go:140-174 | as a run of the protocol: whatever names were listed and whichever removals are refused, the directory loses exactly the prunable files that are not refused, and nothing else changes |
| `ListsProgress.CyclePublishes` | lists-updater/main.go:55-86 | as a run of the protocol: both written texts appear one number above the newest of their kind, no file being written is left, no other file changes |
| `ListsProgress.ReloadLoads` | doh-server/filtering.go:116-155 | as a run of the protocol: the parses of the three newest files become the lists in force, each in its place, and the server serves |
| `ListsProgress.CycleThenReload` | doh-server/filtering.go:116-167 | so after a cycle and a reload the lists in force are the parses of what the updater wrote |
| `ListsTheorems.NewestPrunedIff` | lists-updater/main.go:150-173 | in any directory the name kept for the greatest number is pruned iff more than keep entries carry that number |
| `ListsTheorems.CanonicalNewestPrunedIff` | lists-updater/main.go:166-173 | with canonical names the newest file is pruned iff keep is not positive |
| `ListsTheorems.LeadingZeroPrunesNewest` | lists-updater/main.go:150-173 | a concrete directory with a leading zero where the selected newest file is pruned with keep 1 |
| `Lists.ParseList` | doh-server/filtering.go:21-53 | the chunked reading loop yields the specified key set, forgetting every prefix chunk |
| `Lists.ParsedPerLine` | doh-server/filtering.go:30-50 | for every content the keys are those of each line's surviving part |
| `Lists.SurvivorIsLastChunk` | doh-server/filtering.go:32-43 | without carriage returns the surviving part of a line is its last incomplete 4096-byte buffer |
| `Lists.KeysMeet` | doh-server/filtering.go:44-49 | a lookup key equals a loaded key iff the names agree up to case and one trailing dot, although the two sides normalise in opposite order |
| `Lists.SameNameByLetters` | doh-server/filtering.go:44-49 | two names are the same iff without one trailing dot each they agree letter by letter, capital or small |
| `Text.FoldingMeets` | doh-server/filtering.go:102-113 | both case foldings make exactly the texts equal that agree letter by letter |
| `Text.TrimIs` | doh-server/filtering.go:44-44 | trimming cuts white space off both ends, all of it, and nothing else |
| `Lists.FoundIffListed` | doh-server/filtering.go:21-53 | where lines fit one buffer, a name is found iff some nonblank trimmed line is that name |
| `Lists.VerdictFromFiles` | doh-server/filtering.go:101-114 | the verdict in terms of the three files: ads when asked for, then whitelist, then blacklist |
| `Lists.VerdictIgnoresCase` | doh-server/filtering.go:102-113 | letter case and one trailing dot never change a verdict |
| `Feeds.DedupeKeepsFirsts` | lists-updater/main.go:210-233 | deduplication keeps every item once, in the order of first occurrence |
| `Feeds.FetchLoop` | lists-updater/main.go:273-288 | a feed loop yields the deduplicated hosts of the usable entries |
| `Feeds.WriteBlacklist` | lists-updater/main.go:197-235 | the file holds the deduplicated feeds written over the leftover content; only a failed first feed is an error |
| `Feeds.BlacklistCycle` | lists-updater/main.go:61-86 | write, scan and rename publish that content one number above the newest and change no other file; when the first feed fails nothing is published and only the file being written is touched |
| `Feeds.CleanCycleLoadsUnion` | lists-updater/main.go:197-235 | the text of a cycle without a leftover parses to exactly the normalised nonblank union of the feeds |
| `Feeds.LookupHitsFeeds` | doh-server/filtering.go:101-114 | a lookup hits that text iff a feed reports the name, up to case and one dot |
| `Feeds.CycleAndReload` | lists-updater/main.go:55-86 | fetching both feeds, the cycle and a reload together: the reload selects the published file and loads the normalised union plus the entries of a leftover tail; without a leftover a lookup hits exactly the reported names |
| `Feeds.LeftoverAddsItsTail` | lists-updater/main.go:198-235 | for every leftover, a reload loads the normalised items and exactly the entries of the tail past them |
| `Filtering.Request.PostLookup` | doh-server/filtering.go:69-99 | answers and additional records are filtered one by one under the lists of that moment, authority is cleared |
| `Filtering.FilteredUnderReloads` | doh-server/filtering.go:69-155 | with reloads between any two records: names restricted in all generations are gone, names in none keep all records in order |
| `Filtering.PostLookupIsIdempotent` | doh-server/filtering.go:69-99 | filtering twice under fixed lists is filtering once |
| `Filtering.FilteringCommutesWithMarshal` | json-dns/marshal.go:55-104 | marshalling after filtering shows exactly the unrestricted records, the unfiltered status and subnet, and the exact minimum TTL of the survivors |
| `Filtering.StatusKeptIff` | doh-server/filtering.go:84-93 | for one OPT record and a four-bit code, the marshalled status survives filtering iff the root name is unrestricted or the extension byte is zero |
| `Filtering.SubnetKeptIff` | doh-server/filtering.go:84-93 | for one OPT record, the marshalled subnet survives filtering iff the root name is unrestricted or the record has no subnet option |
| `Filtering.RootListedLosesBoth` | json-dns/marshal.go:77-97 | a concrete response and list where both are lost |
| `JsonDns.Marshal` | json-dns/marshal.go:35-107 | the three loops build the specified response, carrying the minimum across sections |
| `JsonDns.LeastIsMinimum` | json-dns/marshal.go:55-102 | the carried TTL is attained by a record and below all of them |
| `JsonUnmarshal.Unmarshal` | json-dns/unmarshal.go:52-147 | the loops and late assignments build the specified reply, with the OPT record replaced in front |
| `JsonUnmarshal.BarredCharacters` | json-dns/unmarshal.go:150-152 | the characters that bar a name, and those that bar data, by their codes |
| `JsonTheorems.StatusSurvives` | json-dns/unmarshal.go:143-145 | decode then encode keeps the low twelve bits of a status, so a status survives iff it fits twelve bits |
| `JsonTheorems.CodesSurviveIff` | json-dns/marshal.go:77-97 | encode then decode of a single-OPT message keeps code and extension byte iff the code fits four bits |
| `JsonTheorems.FreshFlags` | json-dns/unmarshal.go:143-145 | the fresh OPT record holds the upper eight bits of the twelve-bit status in its top byte and nothing else in its flags |
| `JsonTheorems.DataSurvives` | json-dns/marshal.go:109-122 | record data is extracted unchanged, embedded tabs included |
| `JsonTheorems.RecordRoundTrip` | json-dns/unmarshal.go:149-173 | a record comes back as class IN with its name, type and parsed data iff it passes the checks, else it is dropped |
| `JsonTheorems.AnyRecord` | json-dns/unmarshal.go:149-173 | any JSON record, whoever sent it: dropped iff it fails a check or its expiry is garbled; otherwise name, type and parsed data as class IN, with the TTL as sent without an expiry and the whole seconds left with one |
| `JsonTheorems.MessageRoundTrip` | json-dns/unmarshal.go:52-147 | every section comes back as its passing records in order, the additional one behind one fresh OPT record |
| `JsonTheorems.VisibleKept` | json-dns/unmarshal.go:149-173 | exactly the passing records come back, with the same name, type and data position by position iff each data text is the one its parse prints again |
| `JsonTheorems.MessageShown` | json-dns/unmarshal.go:52-147 | the same for every section of a message through Marshal and Unmarshal |
| `JsonTheorems.PreparedReply` | json-dns/unmarshal.go:37-50 | the prepared reply is a SERVFAIL response with ID, question, recursion and checking flags of the query, and its opcode only for a standard query |
| `JsonTheorems.EarliestIsFirstToExpire` | json-dns/marshal.go:58-62 | the announced earliest expiry belongs to a counted record and is not after any other |
| `JsonTheorems.ExpiryNeverExtends` | json-dns/unmarshal.go:153-162 | with a client clock not behind, the decoded TTL is at most the one sent, within two seconds of the true rest, zero in the first second after, and as sent from then on |
| `JsonTheorems.ExpiryExtendsIff` | json-dns/marshal.go:114-116 | the TTL grows iff the client clock is so far behind that the expiry is a whole second beyond the TTL and fits 32 bits |
| `Subnets.ParamRoundTrip` | doh-server/google.go:94-141 | the server recovers address, prefix length and family from the client's parameter, for every IPv4 and IPv6 address and every length |
| `Subnets.OtherForms` | doh-server/google.go:98-154 | a bare address gets /24, the shorthand 0/0 means any address, an absent parameter means the peer's block or nothing |
| `Subnets.SubnetSurvives` | json-dns/unmarshal.go:91-132 | address, scope and family of the subnet option come back through JSON, IPv4 and IPv6; a missing address comes back as 0.0.0.0 |
| `Subnets.GarbledField` | json-dns/unmarshal.go:91-118 | a field without a slash or with a bad address gives no option, a bad scope only spoils the scope |
| `Subnets.ServerLearnsBlockOnly` | doh-client/client.go:265-294 | a global client is announced and understood as its /24 or /56 only |
| `Subnets.AnnouncedOtherwise` | doh-client/client.go:265-294 | with announcing off 0.0.0.0/0, a subnet of the query as it is, nothing of an address that is not global |
| `Subnets.BlockIs` | doh-server/ietf.go:129-147 | an address found by either side is announced as family 1 with /24 or family 2 with /56 and an open scope |
| `Freshness.AgeSection` | doh-client/ietf.go:231-242 | each record header of a section is aged in place, an OPT record too, except in the additional section |
| `Freshness.AgeIsTimeSinceModified` | doh-client/ietf.go:198-219 | the age is the time since Last-Modified by the Date header or else the local clock, exact while it fits a duration, and zero iff that clock is not past it |
| `Freshness.AgeingStaysIn64Bits` | doh-client/ietf.go:263-273 | the nanosecond arithmetic of ageing never overflows and the result fits 32 bits |
| `Freshness.LeastAged` | doh-client/ietf.go:231-242 | the least TTL of an aged section is the aged least TTL, for every age |
| `Freshness.FreshWithinMaxAge` | doh-server/ietf.go:178-185 | while the age is within the announced lifetime nothing is clamped, every TTL is the floor of the rest, and the least TTL ages like the lifetime |
| `Freshness.OwnHeadersMeanAgeZero` | doh-server/ietf.go:171-173 | with the headers the server writes, at any clock of either side, the client passes the message on with every TTL unchanged |
| `Transport.Base64RoundTrip` | doh-client/ietf.go:125-125 | unpadded base64url decodes to the same bytes, for every length |
| `Transport.LineBreaksSkipped` | doh-server/ietf.go:43-43 | line breaks anywhere in the encoded text are passed over |
| `Http.EscapeRoundTrip` | doh-client/google.go:68-68 | an escaped parameter is read back unchanged, whatever bytes it holds |
| `Http.FieldsAppended` | doh-server/server.go:144-158 | fields appended to a URL are found exactly where no earlier readable field has the same name, escapes undone and semicolons separating |
| `Http.SemicolonCuts` | doh-server/server.go:144-158 | a semicolon separates fields like an ampersand |
| `Http.BadEscape` | doh-server/server.go:144-158 | a percent sign without two hexadecimal digits makes a text unreadable, wherever it stands |
| `Http.PostedFirst` | doh-server/server.go:144-158 | the fields of a form-encoded body come before those of the URL, and no other body is consulted |
| `Http.RequestTypeIs` | doh-server/server.go:148-158 | the request type is the `ct` field, else the header, else guessed from `name` and then `dns` |
| `Transport.FormOfGetUrl` | doh-client/ietf.go:125-129 | for every upstream, what each form field of the GET URL is: behind a fragment only the upstream's own, else its own first and then the encoded packet |
| `Transport.ShortGoesByGet` | doh-client/ietf.go:129-151 | a packet goes by GET iff the whole URL is shorter than 2048 characters, else by POST with the packet as its body |
| `Transport.PacketArrivesIff` | doh-server/ietf.go:41-64 | for every upstream, the exact condition under which a nonempty packet arrives unchanged by GET or POST: no fragment and no readable `dns` field of the upstream's own, in any spelling, or one that happens to decode right |
| `Transport.PacketArrives` | doh-server/ietf.go:41-64 | with an upstream that brings no fragment and no field the server reads, every nonempty packet arrives and is dispatched to the wire-format parser |
| `Transport.RefusedIff` | doh-server/ietf.go:41-64 | a wire request is refused, with 400, iff its `dns` field does not decode or there is no packet at all |
| `Transport.PlainIsHarmless` | doh-server/server.go:140-158 | every upstream URL without a query and a fragment is such an upstream |
| `Transport.OwnFieldSpoils` | doh-client/ietf.go:129-129 | an upstream that ends in a field reading as `dns`, in any spelling, spoils every packet sent by GET unless its value is unreadable or encodes that packet |
| `Transport.EscapedSpelling` | doh-server/ietf.go:42-42 | one such spelling |
| `JsonRequest.TypeArrivesIff` | doh-server/google.go:68-80 | the type parameter the client writes is read as that type iff the type has no mnemonic or one found in upper case |
| `JsonRequest.TypeForms` | doh-server/google.go:68-80 | a type is found in any letter case, a number stands for itself, nothing means an address |
| `JsonRequest.FormOfJsonUrl` | doh-client/google.go:68-82 | for every upstream without a fragment, what each form field of the JSON URL is: the upstream's own first and then the one the client wrote |
| `JsonRequest.QueryArrives` | doh-server/google.go:41-181 | the converted name, the type, the checking flag and the announced subnet (or the peer's block) arrive as one query under a fresh ID; refused exactly for an empty or inconvertible name and a type that is not found |
| `JsonRequest.QueryAsks` | doh-server/google.go:156-181 | every accepted JSON query goes upstream as a standard query for one absolute name with recursion desired, the DO bit and the subnet as its only option |
| `JsonRequest.PlainIsJsonHarmless` | doh-server/server.go:140-158 | every upstream URL without a query and a fragment lets them arrive |
| `ServerDispatch.NegotiateResponse` | doh-server/server.go:160-183 | the first known Accept candidate wins; no result only for an unsupported request type |
| `ServerDispatch.CandidatesAre` | doh-server/server.go:162-173 | a candidate selects by its media type alone, both wire types the one wire format |
| `ServerDispatch.DefaultForms` | doh-server/server.go:174-183 | without an Accept header the answer has the form of the request |
| `ServerDispatch.DoDnsQuery` | doh-server/server.go:272-291 | succeeds iff some attempt does, with the first success, after exactly the exchanges up to it and at most two per attempt |
| `ServerDispatch.AttemptAnswers` | doh-server/server.go:276-284 | an attempt is answered by UDP, or by TCP after a truncated UDP answer or where only TCP is configured |
| `ServerDispatch.PatchRootRd` | doh-server/server.go:263-270 | recursion is switched on iff some question asks for the root, and nothing else changes |
| `ServerDispatch.Resolve` | doh-server/server.go:204-230 | a parsed query gets the one right body: 400, 503, or the filtered first answer in the negotiated form |
| `ServerDispatch.OneRightBody` | doh-server/server.go:204-230 | for every parsed request exactly one body satisfies the specification: an error of the parser, 400, 503, or what its kind tells of the filtered first answer (JSON or wire only as negotiated, the wire one under the request's ID, 500 only where that form fails) |
| `ServerDispatch.AnswersUnderItsId` | doh-server/ietf.go:109-162 | a wire request of either type and with any ID: asked under the fresh ID, with recursion forced for the root and EDNS added, iff it is a standard query; a wire answer is the filtered first upstream answer under the very ID received |
| `ServerDispatch.UnparsedIsRefused` | doh-server/ietf.go:44-90 | a request of either kind that cannot be parsed is refused with 400 and never asked |
| `ServerDispatch.ProbeIsAnswered` | doh-server/ietf.go:193-204 | the canned answer goes out exactly for the DNSCrypt-Proxy probe from a client that names itself so |
| `ServerDispatch.JsonRequestsHaveNoId` | doh-server/google.go:175-181 | a JSON request that negotiated the wire format is answered under ID 0 |
| `ServerDispatch.Handle` | doh-server/server.go:140-231 | from the raw request: exactly one body, the right one for its kind in the negotiated form, 415 for an unknown type, no panic; the query goes upstream and its name is logged only when it is resolvable |
| `ClientDispatch.GenerateIetf` | doh-client/ietf.go:43-178 | the packet sent has ID zero, added EDNS and the client's block; FORMERR, SERVFAIL or silence in exactly the cases of the source; the ID is restored unless packing fails |
| `ClientDispatch.HiddenAnnounces` | doh-client/ietf.go:69-111 | what leaves of a global client whose query brings no subnet is its /24 or /56 as last option of the last OPT record, and 0.0.0.0 with announcing off |
| `ClientDispatch.AnnouncedSizeIs` | doh-client/ietf.go:70-82 | the size replies are cut to is that of the last OPT record of the query, and 512 without one |
| `ClientDispatch.GenerateGoogle` | doh-client/google.go:42-119 | the request carries question, checking flag and the announced subnet; FORMERR and SERVFAIL in exactly the cases of the source |
| `Edns.OutgoingEdns` | doh-client/ietf.go:69-111 | every query leaves with an OPT record, a known client subnet is in it unless the query brought its own, and no other record changes |
| `Edns.OutgoingOpt` | doh-client/ietf.go:69-111 | the OPT record that leaves is the query's own or a fresh one for 4096 bytes, with the given subnet appended unless it brought one |
| `ClientDispatch.DeliveredCarriesIdIff` | doh-client/ietf.go:244-260 | at most one reply; it carries the ID iff it is a packed message, goes over TCP, or the announced size is at least two |
| `ClientDispatch.DeliveredReadsBack` | doh-client/ietf.go:244-260 | over TCP or where it fits the receiver reads back the whole message; otherwise it gets exactly the announced number of first bytes of the message with the truncation flag; SERVFAIL where packing fails |
| `ClientDispatch.SizeZeroLosesId` | doh-client/ietf.go:250-260 | a query announcing size 0 gets an empty datagram over UDP |
| `ClientDispatch.ParseIetf` | doh-client/ietf.go:180-261 | a readable packet is delivered aged and under the query's ID, anything else gives SERVFAIL; at most one reply, with the ID under exactly that condition |
| `ClientDispatch.ParseGoogle` | doh-client/google.go:121-171 | a readable response is delivered as unmarshalled into the prepared reply, anything else gives SERVFAIL; at most one reply, with the ID under exactly that condition |
| `ClientDispatch.TypeBeforeSemicolon` | doh-client/google.go:125-129 | the response type is what stands before the first semicolon |
| `ClientDispatch.ParserFallsBack` | doh-client/client.go:225-241 | a response of an unknown type is read in the form that was asked for |
| `ClientDispatch.Handle` | doh-client/client.go:193-250 | on every path at most one reply; it carries the ID the query came with iff it is a packed message, goes over TCP, or the query announced at least two bytes; FORMERR for other than one question, nothing to a response packet |
| `EndToEnd.ZeroIdTravels` | doh-server/ietf.go:109-149 | the hidden ID reaches the server, which sets it aside and queries under a fresh one with its own EDNS and the peer's subnet |
| `EndToEnd.WireUnderstood` | doh-server/ietf.go:160-191 | a wire exchange: the server asks the client's question under the fresh ID iff it is a standard query, the client passes on what its codec reads from the filtered first answer packed under ID 0, and every server error ends as SERVFAIL |
| `EndToEnd.AnswerPassedOn` | doh-client/ietf.go:221-260 | where the codec gives that answer back, the client delivers exactly it, TTLs unchanged, under the ID the query came with |
| `EndToEnd.AnswerReaches` | doh-client/ietf.go:221-260 | so the asker reads the filtered first upstream answer under the ID it asked with |
| `EndToEnd.JsonUnderstood` | doh-server/google.go:183-209 | a JSON exchange: the server asks the converted question with the client's checking flag under the fresh ID or refuses, the client delivers the filtered first answer after Marshal and Unmarshal, and every server error ends as SERVFAIL |
| `EndToEnd.CarriedShows` | json-dns/unmarshal.go:37-147 | what that delivers: ID and question of the query, and in each section the passing records, unchanged iff their data is canonical |
| `EndToEnd.CarriedReaches` | doh-client/google.go:153-171 | and the asker reads exactly that message |
| `EndToEnd.Exchange` | doh-client/client.go:193-250 | the client's handler with the server behind it: the wire or the JSON exchange, as configured, and at most one reply with the ID under the exact condition |
| `RequestTracker.StepInv` | doh-server/tracker.go:41-61 | every step keeps the balance of stored, buffered, queued and lost bytes and the two bounds |
| `RequestTracker.NothingLostIffNoShortWrite` | doh-server/tracker.go:25-62 | in every run file, buffer and channel hold the accepted entries in order, once each, iff no write fell short |
| `RequestTracker.LogReadsBack` | doh-server/tracker.go:49-59 | after a run without short writes, all written out, the file splits at newlines into its old lines and then stamp and domain of every accepted entry in order |
| `RequestTracker.Tracker.OnEntry` | doh-server/tracker.go:49-59 | one received entry is one step of the log, flushing at 2048 bytes |
| `RequestTracker.Tracker.OnTick` | doh-server/tracker.go:43-48 | a tick flushes and forgets the buffer |
| `RequestTracker.Tracker.SaveDomain` | doh-server/tracker.go:28-33 | a send appends to the channel |
| `HttpClientSwap.RunInv` | doh-client/client.go:126-169 | lock exclusion, client currency and spacing hold in every run |
| `HttpClientSwap.NoDoDuringReplacement` | doh-client/google.go:95-97 | no request is in flight when the client is replaced |
| `HttpClientSwap.DoEndsOnCurrentClient` | doh-client/ietf.go:154-156 | a request ends on the client that is current at that moment |
| `HttpClientSwap.AtMostOneReplacementPerWindow` | doh-client/client.go:129-131 | a window shorter than the timeout holds at most one replacement |
| `HttpClientSwap.LateCallReplaces` | doh-client/client.go:126-169 | a call that checks at least the timeout after the last creation replaces the client if the transport is accepted; an earlier one never does |
| `HttpClientSwap.Client.NewHttpClient` | doh-client/client.go:126-169 | a call in any reachable state is a run of the protocol ending in the new field values, so all its theorems hold after it; an error only when the old client is not young and the transport is refused, which changes nothing; a new client is stamped at least the timeout after the old |
| `GlobalIp.MatchesIsInterval` | json-dns/globalip.go:112-126 | containment by byte masks is membership in one integer interval, for every prefix and address length |
| `GlobalIp.Global4IsOutside` | json-dns/globalip.go:31-82 | IPv4 and IPv4-mapped addresses are global iff outside the ten intervals |
| `GlobalIp.Global6IsOutside` | json-dns/globalip.go:85-106 | other 16-byte addresses are global iff outside the four intervals |
| `GlobalIp.Truncated4StaysGlobalIff` | doh-client/client.go:284-287 | a global IPv4 address cut to /24 stays global iff it is outside 192.0.0.0/24 |
| `GlobalIp.Truncated6StaysGlobalIff` | doh-client/client.go:288-291 | a global IPv6 address cut to /56 stays global iff it is outside ::/56 and 100::/56 |

## Left out

- Sockets, QUIC, TLS, HTTP servers, cookies, dialers and bootstrap resolution: library input and output.
- DNS packing and unpacking, name compression and record data grammars: taken as functions (`Wire`, `Env.rdata`) with the stated properties; only the header fields of the zone line are modelled, and zone directives are not.
- IPv6 text, punycode and date syntax: IPv6 text is a pair of functions in `Env` that undo each other, punycode is a function, times are integers, and the expiry text is a whole second, absent or garbled.
- JSON text encoding: a pair of functions; an exchange asks that its own response comes back without the summary fields, which JSON does not carry.
- Multipart forms and malformed parameters of a form's content type; a body in the form encoding is modelled. Fields are cut at semicolons, as Go did before version 1.17.
- Letter case and white space beyond ASCII in list files and names: bytes outside ASCII are left as they are.
- Directory reads are atomic snapshots, and each event of the list protocol is one atomic step.
- Feed downloads and CSV parsing: a feed is an arbitrary sequence of items or a failure. A write error inside a list file appears in the protocol as any content followed by an abort.
- The whitelist writer (the plain case of the blacklist one) and the notification post: they would only add easy members.
- EndToEnd.ZeroIdTravels: for upstream URLs that satisfy `Transport.Harmless` and a query that the codec gives back.
- EndToEnd.Exchange: one exchange without a cache between the two sides, so the response headers are the server's own.
- JsonTheorems.MessageRoundTrip: answer and authority hold ordinary records with absolute names, as unpacking delivers them.
- The server's choice of the client address from forwarding headers, cache header text and the Firefox content type patch: first-match scans and constant headers that would only add easy members.
- TOML decoding, flags and logging: only the defaults (at least one try, at least one upstream, a positive timeout) are used.
