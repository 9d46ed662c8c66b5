# IPsec daemon: PF_KEY messages, policy and association stores

A Dafny model of the part of the daemon that turns YANG configuration into kernel IPsec state.
It covers the PF_KEY v2 message builders, the parser and the loops that walk messages without
checking them (RFC 2367); the two in-memory lists with the change-stream callbacks that fill
them; the kernel policy database those callbacks have to keep in step; key text decoding; the
thread that reacts to expiries; the request/reply exchange; and the JSON form of an association.

Layers, from the bottom:

- `Bytes`, `Text`, `Wire`, `Extensions`: octets, C text, and the structures of a message as
  encoders with readers that undo them. A message is a `seq<byte>`; `WellFormed(m, exts)` says
  that the word offsets `exts` cut its body into typed extensions.
- `MessageBuffer`, `SaMessage`, `PolicyMessage`: the builders, imperative over a zeroed
  `array<byte>` with a cursor, proved against one specified octet sequence each. `SaRoundTrip`
  decodes these sequences with the parser's table.
- `Layout` writes the structures out octet by octet, in plain arithmetic. `MessageMeaning` says what
  each message says about a configured entry, without the names of the encoders.
- `Parser`, `Walks`, `Dump`: the checked parser, the unchecked walks, and the two dump loops.
- `HexKey`, `KeyPipeline`: from the text of a key leaf to the key extension.
- `EntryList`: the singly linked list as a class, refined to a sequence.
- `ChangeStream`: the shared iterator, the reader and the callback loop, generic in the backend.
  `SadReader`, `SpdReader` say what each path and leaf does; `SadStore`, `SpdStore`, `SpdCallback`
  are the two backends. `StreamLog` says which streams are dispatched entry by entry.
- `Demands`: when a database holds exactly what a list asks for. The kernels in `SpdStore` and
  `SadKernel` are maps that react to message octets alone, and this is what is kept of them.
- `Paths`, `SadSchema`, `SpdSchema`: the nodes of the YANG lists with their paths, and what the
  readers make of each under every entry name. `SadOrder`, `SadReadBack`, `SpdReadBack`: whole
  entries over them.
- `PolicyIndex`: an added policy, its index from the dump, and the look-up by that index.
- `Listener`, `ExpiryRuns`: the listening thread and whole runs of it.
- `Reply`: drain, send, receive, parse. `Binary64`, `SadJson`: the JSON round trip.

The main results are `Parser.ParseMessage`, `SaRoundTrip.AddRoundTrip`,
`SpdStore.MirrorThroughoutIff`, `SadKernel.SoundThroughoutIff`, `StreamLog.DispatchedIff`,
`SpdCallback.TransactionMirrorIff`, `SadOrder.OrderFreeIff`, `SadReadBack.ReadsBackIff`,
`SpdReadBack.ReadsBackIff`, `MessageMeaning.AssociationIsSaid`, `MessageMeaning.RequestIsSaid`,
`ExpiryRuns.OrderlyRunsKeepTheLiving`, `KeyPipeline.IntegrityKeyArrivesIff`, `Dump.FoundIff`,
`Reply.ReplyIff` and `SadJson.RoundTripIff`.

## Where the code differs from what it is meant to do

The model follows the code. Each point below names the lemmas or contracts that state it.

- The readers search the whole path of a leaf, the name of its entry included. A name such as
  x/encryption sends a leaf to a field that is not its own, and the order of the leaves then
  decides what is stored (`SadOrder.SlashNameMixesKeys`; exactly when: `SadSchema.MeantIff`,
  `SadOrder.OrderFreeIff`, `SpdSchema.MeantIff`, `SpdReadBack.ReadsBackIff`). Of several port
  ranges on one side only the last one stays (`SadOrder.LastRangeStays`).
- A bad inner protocol ends the reading of an association, which is added all the same; its other
  leaves are lost (`SadOrder.BadProtocolLosesSpi`, `SadStore.BadProtocolIsAdded`; exactly when:
  `SadReader.ReadToEndIff`, `SadStore.LeavesArriveIff`). No value the schema allows is bad
  (`SadOrder.SchemaProtocolsAreRead`); for a bad number the source would follow it as a text.
- Lifetimes and algorithm numbers are read from signed members and widened with their sign
  (`SadSchema.LifetimeReadIff`, `SadSchema.AlgorithmReadIff`).
- The readers look for `/anti-replay-window`; the YANG module calls the leaf
  `anti-replay-window-size`, and it is ignored (`SadSchema.ReplayWindowIsIgnored`). So it is in
  policies, where the leaves of an encryption entry are not read either (`SpdSchema.UnreadLeaves`).
- Two policies for one selector share one rule, the first one's, and removing either removes it
  (`SpdStore.SharedSelectorLosesRule`; exactly when: `SpdStore.StepMirrorIff`,
  `SpdStore.MirrorThroughoutIff`, `SpdStore.FullThroughoutIff`).
- An association in tunnel mode stays in the kernel when it is removed from the list, unless its
  remote subnet has the address of the tunnel end (`SadKernel.TunnelIsNotRemoved`; exactly when:
  `SadKernel.StepMirrorIff`, `SadKernel.SoundThroughoutIff`).
- In one transaction, an entry that follows a created one of its name is read as part of it
  (`ChangeStream.RepeatedNameIsSwallowed`), and a last entry without a leaf fails
  (`ChangeStream.BareLastEntryFails`; exactly when: `StreamLog.DispatchedIff`). The difference
  between two configurations has each entry once, and direction and SPI are mandatory in the
  schema, so such streams are not expected from it.
- AES-CBC declares 256 key bits in an extension for 192 (`SaRoundTrip.KeyBitsCovered`), and a key
  longer than its extension shows up in the next one (`SaRoundTrip.OversizedKeySpills`; exactly
  when: `SaRoundTrip.AuthPayloadExact`).
- SADB_DELETE and SADB_GET use the subnets in tunnel mode, where SADB_ADD uses the tunnel ends
  (`SaRoundTrip.NamingMatchesAdd`).
- A zero octet ends a key (`KeyPipeline.StoredKeyIff`).
- The new node's link is cleared only on an empty list (`EntryList.List.Add`); a new policy node's
  link is never set by `create_spd_node`. The stores take it to be null.
- The listener's result code is sticky (`ExpiryRuns.FailureSticks`), and its SPI is a C int that
  is widened with its sign (`Listener.WireSpiFinds`, `Listener.HardExpiryCrashesIff`).
- Associations are added without a look at their names (`SadStore.RemoveUndoesAdd`).
- Numbers beyond 2^53 change in the JSON form (`SadJson.LargeNumberChanges`, `SadJson.YieldsIff`).
- The parser accepts a reply longer than it announces, the dump loops do not (`Reply.Exchange`,
  `Dump.LifetimeQuery`).

## Model

| member | source | states |
|---|---|---|
| Parser.ParseMessage | src/pfkeyv2_utils/pfkeyv2_entry.c:1139-1184 | returns 0 if and only if the words behind the header tile into extensions of length at least 1 with pairwise distinct types in 1..26; in every case the table maps each type to the offset of its extension in the longest acceptable run, and 0 to the others; no word outside the announced message is read |
| Parser.StuckIsFinal | src/pfkeyv2_utils/pfkeyv2_entry.c:1152-1181 | stopping at the first unacceptable extension is right: no other way of cutting the message would be accepted |
| Parser.NotStuckInside | src/pfkeyv2_utils/pfkeyv2_entry.c:1154-1171 | inside an acceptable message none of the three early exits is ever taken |
| Parser.ParseIsLocal | src/pfkeyv2_utils/pfkeyv2_entry.c:1147-1174 | verdict and cuts depend on the announced octets only, whatever follows them |
| Wire.TilingUnique | src/pfkeyv2_utils/pfkeyv2_entry.c:1152-1175 | a message can be cut into extensions in at most one way |
| Wire.SlotCharacterised | src/pfkeyv2_utils/pfkeyv2_entry.c:1167-1174 | a slot is filled exactly when its type occurs, and then with that extension's offset |
| Parser.Accept | src/pfkeyv2_utils/pfkeyv2_entry.c:1154-1174 | an acceptable extension of a new type extends the run and takes exactly its own slot |
| Walks.WalkStep | src/pfkeyv2_utils/pfkeyv2_entry.c:127-144 | one turn of any unchecked walk on an accepted message stays inside it, meets the next extension of the tiling and no other, and finds the slot of its type still empty |
| Walks.WalkEnds | src/pfkeyv2_utils/pfkeyv2_entry.c:164-180 | when an unchecked walk on an accepted message stops, exactly 0 octets are left and every extension has been seen |
| Walks.WalkEndsIff | src/pfkeyv2_utils/pfkeyv2_entry.c:819-851 | on any octets, a walk comes to exactly zero if and only if the lengths alone tile the message |
| Walks.ZeroLengthHolds | src/pfkeyv2_utils/pfkeyv2_entry.c:142-143 | an extension of length zero holds a walk in place after any number of turns |
| Walks.AcquireWalk | src/pfkeyv2_utils/pfkeyv2_entry.c:122-144 | ends at zero with the identifier of the policy extension the parser's table locates, as a C int, or 0 without one |
| Walks.ExpireWalk | src/pfkeyv2_utils/pfkeyv2_entry.c:156-180 | ends at zero; the SPI is the one the SA extension carries in network order, as a C int, and hard holds exactly when a hard lifetime is present, in whatever order they come |
| Walks.SpiOnTheWire | src/pfkeyv2_utils/pfkeyv2_entry.c:172-172 | an SPI below 2^31 that an encoder puts on the wire is the number the listener takes it for |
| Walks.PrintWalk | src/pfkeyv2_utils/pfkeyv2_utils.c:2-59 | prints all extensions in offset order, or none when a header check fails or the message has no body |
| Walks.AlgorithmWalk | src/pfkeyv2_utils/pfkeyv2_utils.c:75-96 | visits every whole algorithm record of the extension once, in order |
| Walks.RequestWalk | src/pfkeyv2_utils/pfkeyv2_entry.c:431-439 | the nested walk lands exactly on the end of the policy extension and keeps mode and protocol of the last request |
| MessageBuffer.Put | src/pfkeyv2_utils/pfkeyv2_entry.c:285-285 | copies octets to a position and changes nothing else in the buffer |
| MessageBuffer.SetAddress | src/pfkeyv2_utils/pfkeyv2_entry.c:271-289 | appends one whole 24-octet address extension to what the buffer holds, and returns its length |
| MessageBuffer.SetLength | src/pfkeyv2_utils/pfkeyv2_entry.c:652-652 | writes the running length, in words, into the header of what the buffer holds and changes nothing else |
| SaMessage.PutKey | src/pfkeyv2_utils/pfkeyv2_entry.c:610-628 | writes the header of a key extension and the whole key behind it, past the end of the extension if the key is longer |
| SaMessage.BuildAdd | src/pfkeyv2_utils/pfkeyv2_entry.c:523-660 | for every entry the octets written are the specified SADB_ADD; cursor, running length and header agree, and the length is at most 224 |
| SaMessage.BuildNaming | src/pfkeyv2_utils/pfkeyv2_entry.c:663-765 | the octets written are the specified SADB_DELETE or SADB_GET of 80 octets, on the subnets in either mode |
| SaRoundTrip.AddIsAccepted | src/pfkeyv2_utils/pfkeyv2_entry.c:523-660 | the parser accepts every SADB_ADD that is built, and it is exactly as long as its header says |
| SaRoundTrip.AddBodies | src/pfkeyv2_utils/pfkeyv2_entry.c:550-649 | the parser's table for it holds SA, X_SA2, both lifetimes and both addresses, the key extensions exactly when their algorithm is not 0, and nothing else |
| SaRoundTrip.AddRoundTrip | src/pfkeyv2_utils/pfkeyv2_entry.c:523-660 | decoding it gives every field of the entry, cut to its width on the wire, for every entry |
| SaRoundTrip.AddRoundTripExact | src/pfkeyv2_utils/pfkeyv2_entry.c:523-660 | an entry whose fields fit is recovered exactly, each key followed by zeros only |
| SaRoundTrip.EncryptPayloadAlways | src/pfkeyv2_utils/pfkeyv2_entry.c:628-630 | the encryption key extension carries as much of the key as fits, then zeros |
| SaRoundTrip.AuthPayloadExact | src/pfkeyv2_utils/pfkeyv2_entry.c:610-649 | the authentication key extension is the key and zeros if and only if the key fits and no octet of an oversized encryption key reaches behind it |
| SaRoundTrip.OversizedKeySpills | src/pfkeyv2_utils/pfkeyv2_entry.c:621-630 | a concrete entry whose encryption key shows up inside the authentication key extension |
| SaRoundTrip.KeyBitsCovered | src/pfkeyv2_utils/pfkeyv2_entry.c:615-645 | the declared encryption key bits lie inside the extension if and only if the algorithm is not AES-CBC; the authentication key bits always do |
| SaRoundTrip.NamingIsAccepted | src/pfkeyv2_utils/pfkeyv2_entry.c:692-705 | the parser accepts SADB_DELETE and SADB_GET; they carry SPI, source and destination |
| SaRoundTrip.NamingMatchesAdd | src/pfkeyv2_utils/pfkeyv2_entry.c:594-607 | SADB_DELETE and SADB_GET name the addresses that SADB_ADD used if and only if the mode is not tunnel, or the subnets are the tunnel ends as host routes |
| MessageMeaning.AssociationIsSaid | src/pfkeyv2_utils/pfkeyv2_entry.c:523-660 | in the numbers of RFC 2367: header, SA, mode and identifier, all eight lifetime limits in their places, and each key with its declared bits (64, 192 or 256; 160) and its octets followed by zeros |
| MessageMeaning.SubnetsAreAdded | src/pfkeyv2_utils/pfkeyv2_entry.c:598-607 | outside tunnel mode SADB_ADD carries address and prefix length of both configured subnets, the local one as source, with protocol and ports |
| MessageMeaning.TunnelIsAdded | src/pfkeyv2_utils/pfkeyv2_entry.c:594-603 | in tunnel mode it carries both tunnel ends as host addresses, the local one as source |
| MessageMeaning.SubnetsAreNamed | src/pfkeyv2_utils/pfkeyv2_entry.c:663-765 | SADB_DELETE and SADB_GET carry the SPI and address and prefix length of both configured subnets, in either mode |
| PolicyMessage.PutRequest | src/pfkeyv2_utils/pfkeyv2_entry.c:328-358 | appends the request, with both tunnel ends in tunnel mode only, and advances by its length |
| PolicyMessage.BuildAddPolicy | src/pfkeyv2_utils/pfkeyv2_entry.c:293-370 | the octets written are the specified SADB_X_SPDADD, at most 128 of them, with all three lengths filled in afterwards |
| PolicyMessage.BuildDelPolicy | src/pfkeyv2_utils/pfkeyv2_entry.c:475-509 | the octets written are the specified SADB_X_SPDDELETE of 80 octets, without process id and request |
| PolicyMessage.AddPolicyAccepted | src/pfkeyv2_utils/pfkeyv2_entry.c:293-370 | in both modes the parser accepts it, with policy, source and destination where the table locates them |
| PolicyMessage.DelPolicyAccepted | src/pfkeyv2_utils/pfkeyv2_entry.c:475-509 | the parser accepts it, with policy, source and destination where the table locates them |
| PolicyMessage.NestedLengthsAgree | src/pfkeyv2_utils/pfkeyv2_entry.c:315-361 | 8 times the policy length is 16 plus the request length; the nested walk finds exactly one request, lands on the end and reads back mode and protocol |
| PolicyMessage.MessagesNameTheSelector | src/pfkeyv2_utils/pfkeyv2_entry.c:363-370 | adding and deleting a policy name the same selector: both addresses, prefix lengths, ports, protocol, direction |
| MessageMeaning.PolicySelectorIsSaid | src/pfkeyv2_utils/pfkeyv2_entry.c:363-370 | both policy messages carry direction, protocol, ports, and address and prefix length of both configured subnets, the local one as source |
| MessageMeaning.PolicyIsSaid | src/pfkeyv2_utils/pfkeyv2_entry.c:293-325 | header, length, action, direction and identifier of both policy messages, in the numbers of the Linux extensions |
| MessageMeaning.RequestIsSaid | src/pfkeyv2_utils/pfkeyv2_entry.c:328-358 | length, protocol, mode and identifier of the request; its level is 3 exactly with an identifier and else 2; in tunnel mode the local end comes first and the remote end second, each as an IPv4 socket address with port 0 |
| Dump.PolicyWalk | src/pfkeyv2_utils/pfkeyv2_entry.c:418-453 | after one dumped policy, index, direction, mode, protocol and both address texts are those of its three extensions, in whatever order they come |
| Dump.DiscoverIndex | src/pfkeyv2_utils/pfkeyv2_entry.c:407-466 | stores the identifier of the first dumped policy whose address texts and direction match, and leaves the index alone if none does |
| Dump.OnlyMatchIsFirst | src/pfkeyv2_utils/pfkeyv2_entry.c:455-462 | if exactly one dumped policy matches, that is the one taken |
| Dump.MatchIsAddresses | src/utils/utils.c:297-316 | for dotted addresses a dumped policy matches if and only if both addresses and the direction agree and both of its ports are 0 |
| Text.SockTextDetermines | src/utils/utils.c:306-312 | the printed socket address equals a bare address text only for that address and port 0 |
| Text.SockTextReads | src/utils/utils.c:297-316 | the numbers between the dots of a printed socket address are the octets in order, and then the port unless it is 0 |
| Text.SubnetSplits | src/utils/utils.c:23-52 | get_ip and get_mask undo the address/length notation for every address text and length |
| Text.LooseSubnetSplits | src/utils/utils.c:23-52 | slashes in front and several between address and length are skipped, and what follows another slash is ignored |
| Text.IncompleteSubnets | src/utils/utils.c:23-52 | without an address there is none, and without a length the second token is null |
| Text.AtoiReads | src/utils/utils.c:23-52 | atoi skips blanks, takes a sign, and reads the digits up to the first other character |
| Dump.LifetimeWalk | src/pfkeyv2_utils/pfkeyv2_entry.c:819-851 | whether the message carries the SPI; packets, octets, time and idle are its allocations, octets, time of addition and time of use, in whatever order the extensions come |
| Dump.LifetimeQuery | src/pfkeyv2_utils/pfkeyv2_entry.c:769-861 | answers as the deciding message says; packets, octets, time and idle are those of that message, or of the last message read before a failure |
| Dump.CurrentAsWritten | src/pfkeyv2_utils/pfkeyv2_entry.c:835-844 | for a lifetime as the kernel writes it: time is the time of addition, idle the time of use |
| Dump.AnswerUnique | src/pfkeyv2_utils/pfkeyv2_entry.c:795-859 | the dump determines the deciding message and the answer |
| Dump.FoundIff | src/pfkeyv2_utils/pfkeyv2_entry.c:853-859 | over sound messages the answer is OK if and only if a message up to the first one numbered 0 carries the SPI, and it is then the first such |
| HexKey.RemoveAllChars | src/utils/utils.c:318-325 | leaves in place exactly the text without the character; nothing behind the new terminator changes |
| HexKey.Strlen | src/utils/utils.c:331-331 | the length of the C string in the buffer |
| HexKey.HexToOctets | src/utils/utils.c:328-340 | null if and only if the filtered length is odd; otherwise the octets of the digit pairs followed by a zero, and the text filtered in place |
| HexKey.HexValIsDigitValue | src/utils/utils.c:337-337 | (c % 32 + 9) % 25 is the digit's value for every hexadecimal digit of either case |
| HexKey.DecodesGrammar | yang/ietf-yang-types.yang:441-449 | every text of the hex-string grammar, of length n, decodes to the (n + 1) / 3 octets it denotes |
| HexKey.CanonicalRoundTrip | src/utils/utils.c:328-340 | printing octets with colons gives a text of the grammar that decodes to the same octets |
| HexKey.DecodeThenPrint | yang/ietf-yang-types.yang:446-448 | decoding any text of the grammar and printing it again gives its lower-case form |
| KeyPipeline.CopyKey | src/sysrepo_utils/sysrepo_entries.c:723-731 | strcpy keeps the octets before the first zero |
| KeyPipeline.DecodeKeyText | src/sysrepo_utils/sysrepo_entries.c:720-731 | from the text of a key leaf to the stored key, through filter, decoder and copy |
| KeyPipeline.StoredKeyIff | src/sysrepo_utils/sysrepo_entries.c:723-731 | a configured key is stored whole if and only if none of its octets is zero; otherwise a prefix of it is |
| KeyPipeline.CutIsFront | src/sysrepo_utils/sysrepo_entries.c:723-731 | of a key with a zero octet exactly the octets in front of the first one are kept |
| KeyPipeline.EncryptionKeyArrives | src/sysrepo_utils/sysrepo_entries.c:720-731 | from the path of the key leaf, under any entry name, to the message: a key without zero octet that fits its extension is its payload, followed by zeros; the bits are covered unless the algorithm is AES-CBC; the integrity key is untouched if and only if the name does not contain /integrity or the keys are equal |
| KeyPipeline.IntegrityKeyArrivesIff | src/sysrepo_utils/sysrepo_entries.c:720-731 | the same for an integrity key, if and only if it fits and no encryption key octet reaches behind it; the encryption key is untouched if and only if the name does not contain /encryption or the keys are equal |
| KeyPipeline.BothKeysArrive | src/sysrepo_utils/sysrepo_entries.c:562-815 | under a name without searched parts, both key leaves in either order put each key into its own extension, followed by zeros |
| EntryList.List.Add | src/sysrepo_utils/sysrepo_entries.c:8-19 | appends at the end; the list stays well linked if and only if it was empty or the new node's link was null |
| EntryList.List.Get | src/sysrepo_utils/sysrepo_entries.c:33-45 | the first node with the name, or null |
| EntryList.List.Find | src/sysrepo_utils/sysrepo_entries.c:465-478 | the first node with the property, or null |
| EntryList.List.Delete | src/sysrepo_utils/sysrepo_entries.c:490-513 | removes exactly the first node with the name and keeps the order of the rest; fails on an empty list only |
| EntryList.RemoveFirstIsKeep | src/sysrepo_utils/sysrepo_entries.c:70-94 | with unique names, deleting the first match is deleting every match |
| EntryList.AppendKeepsUnique | src/sysrepo_utils/sysrepo_entries.c:313-326 | appending keeps names unique if and only if the name is new |
| SpdStore.AddMessageInstalls | src/pfkeyv2_utils/pfkeyv2_entry.c:293-370 | the octets of pf_addpolicy install the entry's rule under the entry's selector, unless that is taken |
| SpdStore.DelMessageRemoves | src/pfkeyv2_utils/pfkeyv2_entry.c:475-509 | the octets of pf_delpolicy remove the rule under the entry's selector |
| SpdStore.AddInstallsRules | src/sysrepo_utils/sysrepo_entries.c:330-356 | the one or two messages of an addition install exactly those of the entry's rules whose selectors are free |
| SpdStore.RemoveUninstallsRules | src/sysrepo_utils/sysrepo_entries.c:377-398 | the one or two messages of a removal remove exactly the entry's rules |
| SpdStore.StepMirrorIff | src/sysrepo_utils/sysrepo_entries.c:307-417 | from a kernel that holds exactly the rules the entries ask for, an addition leads to such a kernel if and only if every rule it finds under its selectors equals its own, and a removal if and only if no other entry asks for a selector of the one removed |
| SpdStore.RobustMirrorIff | src/sysrepo_utils/sysrepo_entries.c:365-417 | such a kernel survives the removal of any name if and only if no two entries share a selector |
| SpdStore.MirrorSizeIff | src/sysrepo_utils/sysrepo_entries.c:330-356 | such a kernel has one rule an entry and one more for each inbound one if and only if no two entries share a selector |
| SpdStore.ImageIff | src/sysrepo_utils/sysrepo_entries.c:330-356 | such a kernel is the image of the list, in which each entry finds its rules as it asks for them |
| SpdStore.MirrorThroughoutIff | src/sysrepo_utils/sysrepo_entries.c:307-417 | the kernel holds exactly the rules asked for at every point of a run if and only if every addition of the run finds no rule but its own, and every entry removed shares no selector |
| SpdStore.FullThroughoutIff | src/sysrepo_utils/sysrepo_entries.c:307-417 | and it has a rule for each entry, one more for each inbound one, at every point if and only if every new entry asks for free selectors |
| SpdStore.MirrorOverRuns | src/sysrepo_utils/sysrepo_entries.c:307-417 | after a run in which every entry has a direction and every new one asks for free selectors, the kernel is the image of the list, its size is #outbound + 2 * #inbound, no selector is shared and every entry is as configured, direction included |
| SpdStore.NamesStayUnique | src/sysrepo_utils/sysrepo_entries.c:307-417 | after any run whatsoever, colliding selectors included, no two entries have one name |
| SpdStore.ImageKeys | src/sysrepo_utils/sysrepo_entries.c:330-356 | a selector has a rule in the image if and only if some entry asks for it |
| SpdStore.SharedSelectorLosesRule | src/sysrepo_utils/sysrepo_entries.c:375-407 | two entries with one selector, both outbound or both inbound: the second adds no rule, and removing either leaves the other without any |
| SpdStore.TwinsMirror | src/sysrepo_utils/sysrepo_entries.c:330-356 | two entries with the same rules: the kernel still holds exactly what is asked for, although selectors are shared |
| SpdStore.Store.Install | src/sysrepo_utils/sysrepo_entries.c:332-349 | sends the policy and, for an inbound entry, its FORWARD companion; afterwards only the index has changed |
| SpdStore.Store.Uninstall | src/sysrepo_utils/sysrepo_entries.c:378-392 | sends the removals; afterwards the entry is as before |
| SpdStore.Store.AddEntry | src/sysrepo_utils/sysrepo_entries.c:307-363 | a present name is success without change; a reading error is failure without change; otherwise the entry is appended and, in case 2, installed |
| SpdStore.Store.RemoveEntry | src/sysrepo_utils/sysrepo_entries.c:365-417 | case 1 does nothing; otherwise the first entry of the name is uninstalled and removed, and an unknown name fails without change |
| SpdStore.Store.GetByIndex | src/sysrepo_utils/sysrepo_entries.c:47-59 | the first entry with the index, or null |
| PolicyIndex.AddAndFind | src/pfkeyv2_utils/pfkeyv2_entry.c:372-466 | adding an outbound policy and reading the dump that follows: if one message alone matches, the entry gets its identifier, and if no older entry has that, the look-up by index returns the node just added; if none matches, the index stays |
| ChangeStream.ReadEntry | src/sysrepo_utils/sysrepo_entries.c:546-818 | applies the changes below the entry's path in order, stops at the first outside it, and drops that one |
| ChangeStream.EntryPathsDiffer | src/sysrepo_utils/sysrepo_utils.c:26-36 | the quoted key makes entry paths prefix-free, so strncmp separates entries even if one name is a prefix of another |
| ChangeStream.ReaderFolds | src/sysrepo_utils/sysrepo_entries.c:562-815 | on an entry's leaves and what follows, the reader folds all leaves and drops exactly the first change behind them |
| ChangeStream.LeavesAreSkipped | src/sysrepo_utils/sysrepo_utils.c:38-60 | leaves that reach the callback itself are passed over |
| ChangeStream.OthersDoNothing | src/sysrepo_utils/sysrepo_utils.c:38-60 | changes that neither create nor delete do nothing when they reach the callback |
| ChangeStream.DriverRunsBlocks | src/sysrepo_utils/sysrepo_utils.c:96-149 | over any well-sequenced stream of whole entries, created and deleted in any mix, the callback dispatches each exactly once, in order, with its leaves up to the first that ends the reading; the change the reader drops is always the next list node |
| StreamLog.DispatchedIff | src/sysrepo_utils/sysrepo_utils.c:96-149 | a stream of whole entries is dispatched entry by entry, each once and in order, if and only if no created entry is followed by its own name and a last created one has a leaf |
| ChangeStream.BareLastEntryFails | src/sysrepo_utils/sysrepo_entries.c:558-560 | the condition on the last entry is needed: created without a leaf, it is an error |
| ChangeStream.RepeatedNameIsSwallowed | src/sysrepo_utils/sysrepo_entries.c:562-566 | the condition on neighbours is needed: behind a created entry, another one of the same name, created or deleted, is never dispatched; the callback adds one entry read from the changes of both |
| SadReader.ApplyWrites | src/sysrepo_utils/sysrepo_entries.c:571-805 | a leaf gives the fields of its path their meaning and touches no other |
| SadReader.FrontsSelect | src/sysrepo_utils/sysrepo_entries.c:634-732 | ports and keys are selected by the front of the last segment, whatever follows it |
| SadReadBack.ModeIsRead | src/sysrepo_utils/sysrepo_entries.c:647-655 | under every name: tunnel is mode 2 and transport mode 1, in any mixture of upper and lower case; any other text changes nothing |
| SadReadBack.ChoicesAreRead | src/sysrepo_utils/sysrepo_entries.c:757-768 | under every name and for every text: what becomes of df-bit and protocol parameters, whose texts are compared letter by letter |
| SadReadBack.UnlistedNamesAreRead | src/sysrepo_utils/sysrepo_entries.c:588-681 | the counter, the window and the flag that the reader knows under names the schema does not have, behind any path |
| SadReadBack.AssociationReturns | src/sysrepo_utils/sysrepo_entries.c:546-818 | leaves of the schema that describe an association are read back as exactly that association, in any order, with unread nodes between them, if no leaf is misdirected |
| SadReadBack.ReadsBackIff | src/sysrepo_utils/sysrepo_entries.c:546-818 | all associations that leaves describe are read back, in all orders, under a name if and only if it contains none of the five parts |
| SadReader.ReadToEndIff | src/sysrepo_utils/sysrepo_entries.c:619-632 | an entry is read to its end if and only if none of its leaves is an inner protocol that is neither any nor at most 256 |
| SadSchema.SchemaTarget | src/sysrepo_utils/sysrepo_entries.c:568-804 | for every configuration node of the list and every entry name, the field or fields the node sets, name and search of the whole path included |
| SadSchema.MeantIff | src/sysrepo_utils/sysrepo_entries.c:634-803 | a node sets what it is meant to if and only if the name does not contain its trap: the other side for a port, the other section for a key, /sa-lifetime-soft for a hard lifetime |
| SadSchema.SafeIff | src/sysrepo_utils/sysrepo_entries.c:634-803 | all nodes of an entry set what they are meant to if and only if its name contains none of five parts |
| SadOrder.NodesWriteApart | yang/ietf-i2nsf-ikeless.yang:160-447 | distinct nodes are meant to write distinct fields, two port ranges on one side excepted |
| SadOrder.OrderFreeIff | src/sysrepo_utils/sysrepo_entries.c:562-815 | every two orders of the same valid leaves build the same entry, whatever the leaves, if and only if the name contains none of the five parts; valid: no node twice, one port range a side, no bad protocol |
| SadOrder.SafeOrder | src/sysrepo_utils/sysrepo_entries.c:562-815 | under such a name any permutation of valid leaves is read to its end with the same result |
| SadOrder.SlashNameMixesKeys | src/sysrepo_utils/sysrepo_entries.c:723-732 | under the name x/encryption the integrity key lands in both fields, so the encryption key is one or the other by the order of the leaves |
| SadOrder.LastRangeStays | src/sysrepo_utils/sysrepo_entries.c:634-644 | of two port ranges on one side the last one stays, under any name |
| SadOrder.BadProtocolLosesSpi | src/sysrepo_utils/sysrepo_entries.c:622-632 | an SPI behind any inner protocol that is neither any nor at most 256 is not read; no value of the schema is such a one |
| SadOrder.SchemaProtocolsAreRead | yang/ietf-i2nsf-ikec.yang:239-247 | with the inner protocols the schema allows, eight bits or any, every entry is read to its end |
| SadOrder.SettingsAreNotNames | src/sysrepo_utils/sysrepo_utils.c:38-60 | no leaf of an association is taken for the name of an entry |
| SadSchema.LifetimeReadIff | src/sysrepo_utils/sysrepo_entries.c:769-804 | a lifetime is stored as configured if and only if it fits 31 bits or is the widening of a negative number; any other has its low 32 bits widened with their sign |
| SadSchema.AlgorithmReadIff | src/sysrepo_utils/sysrepo_entries.c:715-736 | a 16-bit algorithm number is stored as configured if and only if its sign bit is clear, else widened to 32 bits with its sign |
| SadSchema.ReplayWindowIsIgnored | src/sysrepo_utils/sysrepo_entries.c:599-604 | the leaf anti-replay-window-size of the schema sets nothing |
| SpdReader.PolicyReadIff | src/sysrepo_utils/sysrepo_entries.c:123-199 | a policy is read to the end if and only if no direction, action or protocol is bad; it has a direction if and only if a leaf sets one; its index is never configured |
| SpdSchema.SchemaGoal | src/sysrepo_utils/sysrepo_entries.c:118-288 | for every configuration node of the list and every entry name, what the reader sets |
| SpdSchema.MeantIff | src/sysrepo_utils/sysrepo_entries.c:177-186 | a node sets what it is meant to if and only if it is not a port, or the name does not contain the list of the other side |
| SpdSchema.UnreadLeaves | src/sysrepo_utils/sysrepo_entries.c:144-149 | the leaf anti-replay-window-size and the leaves below an encryption entry set nothing |
| SpdReadBack.PolicyReturns | src/sysrepo_utils/sysrepo_entries.c:108-300 | leaves of the schema that describe a policy, protected or not, are read back as exactly that policy, in any order and with unread nodes between them, if no port is misdirected |
| SpdReadBack.UnprotectedIsDescribed | yang/ietf-i2nsf-ikec.yang:551-565 | a bypass or discard policy, which has no leaf for mode or parameters, is described by its selectors and its action |
| SpdReadBack.ReadsBackIff | src/sysrepo_utils/sysrepo_entries.c:108-300 | all policies that leaves describe are read back, in all orders of their leaves, under a name if and only if it contains neither /local-ports nor /remote-ports |
| SpdReadBack.ChoicesAreRead | src/sysrepo_utils/sysrepo_entries.c:123-199 | under every name and for every text: inbound is 1 and outbound 2, discard 0, protect 2 and bypass 4; any other text ends the reading |
| SpdReadBack.ProcessingIsRead | src/sysrepo_utils/sysrepo_entries.c:221-272 | under every name and for every text: mode, df-bit and protocol parameters, compared with regard to case; any other text changes nothing |
| SpdReadBack.SettingsAreNotNames | src/sysrepo_utils/sysrepo_utils.c:38-60 | no leaf of a policy is taken for the name of an entry |
| SadStore.Store.AddEntry | src/sysrepo_utils/sysrepo_entries.c:820-852 | appends the entry and sends SADB_ADD and then SADB_GET for it, whatever the name |
| SadStore.Store.RemoveEntry | src/sysrepo_utils/sysrepo_entries.c:515-544 | removes the first entry of the name and sends SADB_GET and then SADB_DELETE; an unknown name fails without change |
| SadStore.Store.ChangeCallback | src/sysrepo_utils/sysrepo_utils.c:164-255 | result, list and messages sent are those of the specified loop over the changes; other events change nothing |
| SadStore.CreationsArrive | src/sysrepo_utils/sysrepo_utils.c:190-244 | a transaction of creations appends all of them in order, each as read up to a bad inner protocol, and sends the messages of each |
| SadStore.LeavesArriveIff | src/sysrepo_utils/sysrepo_entries.c:546-818 | the entry appended is built from its leaves up to the first bad inner protocol and this, which is all of them if and only if none but the last is bad |
| SadStore.BadProtocolIsAdded | src/sysrepo_utils/sysrepo_entries.c:622-632 | through the whole callback: an association with both subnets, any bad inner protocol and an SPI is added and sent with SPI 0 |
| SadStore.DeletionArrives | src/sysrepo_utils/sysrepo_entries.c:1110-1121 | a transaction that deletes one association removes its first entry and sends SADB_GET and SADB_DELETE for it |
| SadStore.RemoveUndoesAdd | src/sysrepo_utils/sysrepo_entries.c:515-544 | removing the name just added undoes the addition if the name was new; otherwise the older entry goes and the new one stays |
| SadKernel.AddInstalls | src/pfkeyv2_utils/pfkeyv2_entry.c:523-660 | the octets of pf_addsad install the association as it decodes under its type, SPI and destination, unless that is taken |
| SadKernel.NamingActs | src/pfkeyv2_utils/pfkeyv2_entry.c:663-765 | the octets of pf_delsad remove the association under the key they name, those of pf_getsad change nothing |
| SadKernel.StepMirrorIff | src/sysrepo_utils/sysrepo_entries.c:515-544 | from a kernel that holds exactly the associations of the list, an addition leads to such a kernel if and only if what it finds under its key equals itself; a removal if and only if it names its own key, which no other entry has, or a key no other entry has while its own must stay for another |
| SadKernel.MirrorThroughoutIff | src/sysrepo_utils/sysrepo_entries.c:515-544 | so it is at every point of a run if and only if every operation is of that kind |
| SadKernel.SoundThroughoutIff | src/sysrepo_utils/sysrepo_entries.c:515-544 | and with no key twice, if and only if every addition brings a new key and no association in tunnel mode is removed whose remote subnet has another address than the tunnel end |
| SadKernel.TunnelIsNotRemoved | src/pfkeyv2_utils/pfkeyv2_entry.c:594-607 | any association of that last kind, added and removed: the list is empty and the kernel still holds it |
| SadKernel.TransactionIsRun | src/sysrepo_utils/sysrepo_utils.c:190-244 | what the callback does over a transaction is such a run, of all its operations or of those in front of an unknown name |
| SpdCallback.ChangeCallback | src/sysrepo_utils/sysrepo_utils.c:70-160 | result, list and kernel are those of the specified loop over the changes; other events change nothing |
| SpdCallback.TransactionMirrorIff | src/sysrepo_utils/sysrepo_utils.c:96-149 | over the entries of a transaction, up to its end or its failure, the kernel holds exactly the rules asked for behind every entry if and only if every operation is harmless as above, and no new policy has a subnet without a length; in full, if and only if every new one asks for free selectors |
| SpdCallback.TransactionKeepsMirror | src/sysrepo_utils/sysrepo_utils.c:96-149 | so does the kernel the callback leaves behind after a transaction of such operations, complete or failed |
| Listener.WireSpiFinds | src/pfkeyv2_utils/pfkeyv2_entry.c:156-172 | an SPI from the wire finds the entries that have it if and only if it is below 2^31 |
| Listener.HardExpiryCrashesIff | src/sysrepo_utils/sysrepo_entries.c:1108-1110 | a hard expiry follows a null reference if and only if the result code is OK, a session can be had and no entry has the SPI |
| Listener.Thread.Notify | src/sysrepo_utils/sysrepo_entries.c:1009-1084 | fails if and only if the notification was created and either no entry has the SPI or sending fails |
| Listener.Thread.RequestDelete | src/sysrepo_utils/sysrepo_entries.c:1086-1133 | an applied request removes the first entry of the name of the first entry with the SPI |
| Listener.Thread.Handle | src/pfkeyv2_utils/pfkeyv2_entry.c:111-206 | an SADB_EXPIRE moves list and result code as specified on the extensions the parser locates, on the entry that has the SPI carried in network order; any other message changes nothing |
| Listener.ExpiryMeansEntry | src/pfkeyv2_utils/pfkeyv2_entry.c:156-202 | for an SPI below 2^31 that is carried in network order and that exactly one entry has: an applied hard expiry met with OK removes the name of this entry, a soft one that is sent leaves the result OK |
| ExpiryRuns.OrderlyRunsKeepTheLiving | src/pfkeyv2_utils/pfkeyv2_entry.c:148-202 | after any run in which everything succeeds, the list is exactly what was configured and neither withdrawn nor expired hard later, in order of configuration |
| ExpiryRuns.EventFilters | src/pfkeyv2_utils/pfkeyv2_entry.c:182-202 | each hard expiry removes exactly its entry, each soft one nothing |
| ExpiryRuns.FailureSticks | src/pfkeyv2_utils/pfkeyv2_entry.c:186-202 | after a failed notification hard expiries do nothing at all until a soft one is notified |
| ExpiryRuns.ExpiryDecides | src/pfkeyv2_utils/pfkeyv2_entry.c:182-202 | the result code after an expiry is OK if and only if it was looked at and notified; the list shrinks only by an applied request of a hard expiry met with OK |
| Reply.Drain | src/pfkeyv2_utils/pfkeyv2_entry.c:1007-1019 | consumes everything up to and including the first failure, and returns if and only if there is one |
| Reply.DrainedBehind | src/pfkeyv2_utils/pfkeyv2_entry.c:1007-1019 | what is left is exactly what is queued behind the first failure |
| Reply.Transmit | src/pfkeyv2_utils/pfkeyv2_entry.c:1028-1044 | repeats until the request is out or broken, and sends it at most once |
| Reply.SendIff | src/pfkeyv2_utils/pfkeyv2_entry.c:1028-1044 | a send that is to be tried again is, any number of times; the first other result decides |
| Reply.Receive | src/pfkeyv2_utils/pfkeyv2_entry.c:1046-1113 | decided by the first event that is neither an interruption nor a complete message for another process |
| Reply.SendSocket | src/pfkeyv2_utils/pfkeyv2_entry.c:996-1120 | drains, sends the request with our process id in it, and returns a complete message with our process id, an error, or not at all |
| Reply.ReplyIff | src/pfkeyv2_utils/pfkeyv2_entry.c:1064-1081 | a message is returned if and only if it is complete, carries our process id and everything before it is passed over |
| Reply.OutcomeUnique | src/pfkeyv2_utils/pfkeyv2_entry.c:1046-1113 | the events determine the outcome |
| Reply.StampedIsOurs | src/pfkeyv2_utils/pfkeyv2_entry.c:1024-1026 | writing the process id into a well-formed request changes nothing else and keeps it well-formed |
| Reply.Exchange | src/pfkeyv2_utils/pfkeyv2_entry.c:1130-1184 | parsing a reply meets the parser's demand, and its verdict is about the announced octets of the reply only |
| Reply.AlignIsLeastMultiple | src/pfkeyv2_utils/pfkeyv2_entry.c:31-33 | short of overflow the mask gives the least multiple of 8 not below the length |
| Binary64.RoundExactIff | src/sad_entry/sad_entry.c:60-96 | a number survives rounding if and only if it is a multiple of the gap around it |
| Binary64.RepresentableIff | src/sad_entry/sad_entry.c:60-96 | those are exactly the numbers with a significand of 53 bits times a power of two |
| Binary64.RoundIsNearest | src/sad_entry/sad_entry.c:60-96 | what a number rounds to is as near as any representable number |
| Binary64.TiesAreEven | src/sad_entry/sad_entry.c:60-96 | half way between two numbers the even significand is taken: 2^53 + 3 goes up |
| SadJson.JsonObject.Set | src/sad_entry/sad_entry.c:59-96 | one more member of the entry is in the object, rounded if a number, absent if refused |
| SadJson.Serialize | src/sad_entry/sad_entry.c:53-99 | the object holds exactly the members of the entry |
| SadJson.Deserialize | src/sad_entry/sad_entry.c:101-144 | a new unlinked node with every member as read from the object |
| SadJson.YieldsIff | src/sad_entry/sad_entry.c:53-144 | every member is read back as written if and only if every number is exact as a binary64 and every text is accepted and fits its buffer |
| SadJson.RoundTripIff | src/sad_entry/sad_entry.c:53-144 | the entry that reading gives is the entry that was written if and only if that holds |
| SadJson.ThereAndBack | src/sad_entry/sad_entry.c:53-144 | writing a node and reading the object: the new node equals the entry if and only if that holds |
| SadJson.SmallNumbersReturn | src/sad_entry/sad_entry.c:53-144 | entries with numbers up to 2^53 and texts that fit come back |
| SadJson.LargeNumberChanges | src/sad_entry/sad_entry.c:60-60 | 2^53 + 1 in a 64-bit member comes back as 2^53 |

## Left out

- `Dump.DiscoverIndex`: dumps in which a message lacks the policy or an address, where the source compares values left by an earlier message, and dumps with a 0 before their last message.
- `Dump.LifetimeQuery`: dumps in which a message that passes the checks has no SA or no current lifetime, where the source leaves earlier values standing.
- `Walks.WalkStep`: messages the parser would refuse, on which the source walks outside the buffer; `Walks.WalkEndsIff` says which messages those are.
- `Walks.ExpireWalk`: extensions shorter than the structure read through them.
- `KeyPipeline.DecodeKeyText`: texts of odd filtered length, for which `hexstr_to_char` returns null and the reader copies from null.
- `SadStore.Store.ChangeCallback`: streams on which the source follows a null reference, such as entries whose subnets have no length; the specification calls these outcomes `Crashed`.
- `SpdCallback.ChangeCallback`: the same streams; the case value is 2, as it is set in the source, and the identifiers the dump loops find are an input.
- `ChangeStream.DriverRunsBlocks`: transactions that mix both lists, or in which a created entry is followed at once by its own name; `ChangeStream.RepeatedNameIsSwallowed` says what happens to the latter.
- `SadReader.KeyOf`: texts of odd filtered length, which it gives a key although the source copies from null there; `SadStore.SadBackend` does not report `Crashed` for them.
- `SpdStore.RuleOf`: the tunnel pads are part of the rule and one constant of a `Host`, where the source sends fresh heap octets in each message.
- `SadReadBack.ReadsBackIff`: associations with two port ranges on one side, of which the entry keeps the last.
- `SpdReadBack.ReadsBackIff`: policies with two port ranges on one side, several integrity algorithms or several encryption entries, of each of which the policy has room for one and keeps the last.
- `StreamLog.DispatchedIff`: names that contain both kinds of quotes, for which no path can be written.
- `SadKernel.SoundThroughoutIff`: associations the kernel itself drops when they expire, or that others add.
- `SadJson.Deserialize`: conversions of numbers out of the range of the member and texts that overflow a buffer, which are undefined in C.
- `Listener.Thread.RequestDelete`: the value returned when no session can be had; the source returns none, and only a log line depends on it.
- Uninitialised heap: new texts are empty (`SadEntry.BLANK_SAD`, `SpdEntry.BLANK_SPD`), the padding of a socket address is an input of `MessageBuffer.Host`, and so is `inet_addr`.
- Fields of a structure are written as one block of octets in field order, not assignment by assignment.
- Sockets, sysrepo and libyang: streams of events and success or failure are inputs; failing and short reads in the dump loops are not modelled.
- The listener runs beside the callbacks without a lock in the source; here their steps are serialised.
- Values of YANG unions that the source reads through another member: leaf values are already typed.
- MODIFIED and MOVED changes, which the source logs and drops: the loop skips them.
- The missing octet in the buffer of `get_new_xpath`: paths are values.
- Characters are ASCII; signed `char`, locales and UTF-8 checks of the JSON library are not modelled, except that the library may refuse a text.
- IPv6, the proposals and keys of other extensions, algorithm name tables, notification contents, `get_sad_state` paths, logging and printing.
- src/messages/messages.c: wrappers whose ownership rules depend on a JSON library that is not part of this model.
- malloc failures, free and leaks.
