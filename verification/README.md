# Verification of ntpd-rs

A model in Dafny of the protocol code of ntpd-rs, with proofs that hold for all inputs and all runs. ntpd-rs is an NTP client
and server with Network Time Security (NTS); its protocol crate does no input or output of its own. `dafny verify
dfyconfig.toml` checks the whole project.

What is modelled, and the main result of each part:

- **Address filter** (`PrefixSets`, `Trie`, `Segments`, `BitTree`, `TreeSize`, `IpFilter`). The prefix trie answers what the plain
  list of subnets answers, for every list and address. The node array is canonical: a function of the set of addresses alone; its
  size is linear in the list.
- **Extension fields and packets** (`ExtensionFields`, `EncryptedFields`, `FieldReader`, `FieldWriter`, `PacketReading`). Framing,
  padding, the split between fields and a trailing MAC (section 7.5.1.4 as given by RFC 7822), and encrypted fields (section 5 of
  RFC 8915) built in place in the buffer. What is written is read back, for both versions; and for all bytes it is told what
  they are read as.
- **Client association** (`CookieStash`, `Association`, `AssociationRuns`, `ClientRuns`, `NtsExchange`). Timers and packets as
  steps; over every run, exactly which packets are accepted, what is sent and how often; the size of polls; the stock of cookies.
- **Server keys and key exchange** (`KeySets`, `KeySetFiles`, `NtsRecords`, `NtsMessages`, `NtsMeaning`). The lifetime of a cookie
  over rotations and restarts (section 6 of RFC 8915); records and messages of the key exchange (section 4 of RFC 8915) survive
  being written and read, and mean what their records say.
- **Server** (`Headers`, `Packets`, `Responses`, `ResponseSizes`, `ResponseNeeds`, `Server`, `ServerCounts`). Who is given what,
  down to the bytes of the response; when they fit a buffer as long as the request; the statistics over every run.
- **NTS from end to end** (`NtsService`, `NtsAnswer`, `NtsSession`, `Refusal`). A client's poll under a cookie of any age within
  the history, through the server and back: the client accepts the answer, and goes on under the new cookies for any number of
  rounds while the server rotates its keys. What cannot be opened, or is not served, is refused, and the client reacts to that.
- **Time from end to end** (`Measurements`, `TimeExchange`, `PlainExchange`). Wrapping timestamps and saturating durations
  (section 8 of RFC 5905): delay and offset against the true ones, across era changes, from the bytes that the server sends.
- **CSPTP collector** (`Csptp`) and **shared sockets** (`NetworkManager`). Every trace of messages; every interleaving of the
  blocks under a lock.

Each part takes the form its source has. Objects that change are classes whose methods are proved against a step function;
the results over runs are lemmas about that function. Ciphers are any pair of functions where opening undoes sealing.

Five statements that one might expect are false of the code, and are given with their exact conditions:

- the server-imposed poll interval can fall, when the longest allowed interval is 127 (`AssociationRuns.NeverShorterIff`);
- a field can be unreadable, when its length wraps on rounding up or is not in whole words in version 4, or is declared as zero
  (`ExtensionFields.ReadBackIffFits`, `LongFieldUnreadable`, `EmptyRequest`), and an encrypted field, when its length passes
  sixteen bits (`EncryptedFields.SealedReadBackIff`, `LongSealedUnreadable`);
- not all cookies asked for come back, when a field that asks is not among the first eight or has no room for a new cookie
  (`NtsExchange.CookiesReturned`); the identifier in front makes eight asked for by this client bring seven
  (`NtsExchange.PollCookiesReturned`);
- a buffer as long as the request can be too short for the response, when what the request leads to takes more than it has:
  identifiers are padded up to a minimum size, version 5 adds a draft identification of 28 bytes, and an encrypted field a frame
  of 40 (`ResponseNeeds.FitsIff`, with `ShortRequestOverflows` and `NakOverflows`);
- a packet can make the server panic, when its key set was loaded without a primary key and a new cookie is to be made
  (`Servers.PanicsIff`, `NtsService.PollPanics`).

Where code and documentation disagree the model follows the code. Loading a key set checks `primary > len`, which lets equality
through (`KeySetFiles.LoadedUsableIff`). The failure message of a timestamp correction speaks of nanoseconds only, but a result
outside the 48-bit seconds fails too (`Csptp.CorrectionExact`). The server says that a buffer as long as the message always
suffices, which is proved for the usual sizes (`ResponseSizes.ResponseFits`) and false in general. A counter for rate-limited NTS
packets exists and stays at zero (`Servers.RunBalances`).

## Model

| member | source | states |
|---|---|---|
| PrefixSets.TopNibble | ntp-proto/src/ipfilter.rs:29-31 | The top four bits are the number of the sixteenth of the address space that the value lies in. |
| BitTrees.MaskedRange | ntp-proto/src/ipfilter.rs:34-39 | A masked prefix is aligned, and a value agrees with the prefix on the masked bits exactly when it lies in the range that starts there. |
| BitTrees.MaskAllDenotes | ntp-proto/src/ipfilter.rs:72-76 | Masking all prefixes turns containment by masked comparison into membership in a range, for the same values. |
| BitTrees.SortPermutes | ntp-proto/src/ipfilter.rs:78-78 | Sorting rearranges the prefixes. |
| BitTrees.SortOrders | ntp-proto/src/ipfilter.rs:78-78 | After sorting, prefixes are ordered by value and then by length, shorter first. |
| BitTrees.SortDenotes | ntp-proto/src/ipfilter.rs:72-85 | Masking and sorting keep the set of values. |
| BitTrees.SortInPlace | ntp-proto/src/ipfilter.rs:78-78 | The array is left sorted, in place. |
| BitTrees.SplitSegments | ntp-proto/src/ipfilter.rs:91-101 | The bounds split the sorted slice into the sixteen runs of prefixes with equal top nibble, for every sorted slice. |
| BitTrees.CoveredByParts | ntp-proto/src/ipfilter.rs:123-135 | The sweep over a run answers yes exactly when every value of the block is covered by some prefix of the run. |
| BitTrees.DecideSegment | ntp-proto/src/ipfilter.rs:108-136 | With the symbols added for a run, the in-set is exactly the blocks that all prefixes up to this run cover whole. |
| BitTrees.DecidedSymbols | ntp-proto/src/ipfilter.rs:103-141 | A symbol is in the in-set exactly when its whole block is covered, and in the out-set exactly when nothing of it is. |
| Segments.WideStep | ntp-proto/src/ipfilter.rs:115-120 | A run that starts with a prefix of at most four bits decides exactly the blocks of that prefix. |
| Segments.NarrowStep | ntp-proto/src/ipfilter.rs:123-135 | A run of longer prefixes decides at most its own block, and that exactly when the run covers it. |
| Segments.OutIffNoSegment | ntp-proto/src/ipfilter.rs:139-141 | Nothing of a block is covered exactly when its run is empty and it is not covered whole by an earlier one. |
| Segments.SweptStep | ntp-proto/src/ipfilter.rs:126-130 | One step of the sweep keeps: everything below the mark is covered, and the mark itself by no prefix seen. |
| Segments.SweptDecides | ntp-proto/src/ipfilter.rs:131-134 | At the end of the sweep the mark tells whether the block is covered whole. |
| Segments.ShiftedSegment | ntp-proto/src/ipfilter.rs:158-163 | The run of an undecided block, without its top nibble, stands for exactly the values of the child, whatever earlier runs cover. |
| BitTrees.ShiftInPlace | ntp-proto/src/ipfilter.rs:158-163 | The run is shifted in place and the rest of the array is untouched. |
| Trie.FillCanonical | ntp-proto/src/ipfilter.rs:90-167 | The node array that is filled for a set is canonical: at every node a symbol is in-set iff its block is covered, out-set iff nothing of it is, and otherwise has its child at the index that lookup computes; earlier nodes stay as they are. |
| Trie.FillChildCanonical | ntp-proto/src/ipfilter.rs:152-166 | Filling one child keeps the children filled before and makes this one canonical. |
| Trie.CanonicalFrame | ntp-proto/src/ipfilter.rs:90-167 | What is appended or changed outside a subtree's own range of nodes leaves the subtree canonical. |
| Trie.ChildMember | ntp-proto/src/ipfilter.rs:55-64 | A value is in the set exactly when the value without its top nibble is in the set of the child. |
| Trie.CanonicalInjective | ntp-proto/src/ipfilter.rs:45-67 | One canonical subtree cannot stand for two different sets. |
| BitTrees.BitTree.constructor | ntp-proto/src/ipfilter.rs:72-85 | For every list of prefixes the tree built is the canonical one of the values in the list, and decides membership for all 128-bit values. |
| BitTrees.BitTree.FillNode | ntp-proto/src/ipfilter.rs:90-167 | Filling a node from a sorted slice appends exactly the canonical layout of the slice's values; the recursion ends. |
| BitTrees.BitTree.FillChildrenInOrder | ntp-proto/src/ipfilter.rs:152-166 | Children are filled in the order of their symbols, which is the order in which lookup counts them. |
| BitTrees.BitTree.FillChild | ntp-proto/src/ipfilter.rs:152-166 | One child is filled from its shifted run. |
| BitTrees.BitTree.Lookup | ntp-proto/src/ipfilter.rs:45-67 | For every 128-bit value lookup ends, stays in bounds, and answers whether the value is in the set that the tree stands for. |
| BitTrees.EqualTrees | ntp-proto/src/ipfilter.rs:72-167 | Two lists give equal trees if and only if they stand for the same values. |
| TreeSizes.FillSize | ntp-proto/src/ipfilter.rs:103-149 | Filling a node from a sorted list adds no more nodes than its prefixes call for by their lengths. |
| TreeSizes.TreeSize | ntp-proto/src/ipfilter.rs:72-167 | The trie of any list has at most 1 + 31 n nodes for n prefixes. |
| TreeSizes.FillOffsets | ntp-proto/src/ipfilter.rs:103-106 | No child offset points beyond the end of the array. |
| TreeSizes.OffsetsFit | ntp-proto/src/ipfilter.rs:103-106 | Up to 138,547,332 prefixes the cast of a child offset to 32 bits changes nothing. |
| IpFilters.FamilyContains | ntp-proto/src/ipfilter.rs:231-260 | The prefixes of one address family contain a value exactly when some subnet contains the address. |
| IpFilters.IpFilter.constructor | ntp-proto/src/ipfilter.rs:179-199 | The two tries are the canonical ones of the IPv4 and IPv6 subnets. |
| IpFilters.IpFilter.IsIn | ntp-proto/src/ipfilter.rs:203-217 | For all subnets and addresses the filter answers what the plain list of subnets answers. |
| IpFilters.EqualFilters | ntp-proto/src/ipfilter.rs:179-217 | Two filters are equal if and only if their lists admit the same addresses. |
| ExtensionFields.Encode | ntp-proto/src/packet/extension_fields.rs:134-310 | A field takes a whole number of words: its body and header, or the minimum size, rounded up. |
| ExtensionFields.ReadRaw | ntp-proto/src/packet/extension_fields.rs:788-825 | Reading a field takes no more than the data and at least the four bytes of a header. |
| ExtensionFields.ReadBack | ntp-proto/src/packet/extension_fields.rs:788-825 | A written field is read back with its type, its body and the zeros its length counts, whatever follows. |
| ExtensionFields.ReadBackIffFits | ntp-proto/src/packet/extension_fields.rs:876-881 | A field is read as one field, all of it, if and only if the length it declares is that of its body, does not wrap when version 4 rounds it up, and, where it is not rounded, fills whole words. |
| ExtensionFields.LongFieldUnreadable | ntp-proto/src/packet/extension_fields.rs:876-881 | A version 4 identifier of 65529 bytes is not. |
| ExtensionFields.EmptyRequest | ntp-proto/src/packet/v5/extension_fields.rs:39-60 | Nor is a reference id request without payload: it takes eight bytes and declares four, so its offset is read as the next field. |
| ExtensionFields.RereadIsSelf | ntp-proto/src/packet/extension_fields.rs:440-514 | A field is decoded as itself, but for zeros at its end, if and only if it is of a kind that the version reads and carries no number of another kind; exactly itself where nothing is padded. |
| EncryptedFields.EncodeAllAligned | ntp-proto/src/packet/extension_fields.rs:549-587 | Fields are written in whole words, so the place of the encrypted field is aligned. |
| EncryptedFields.DecodeAllEncodeAll | ntp-proto/src/packet/extension_fields.rs:712-742 | The decrypted text decodes to the fields that were encrypted. |
| EncryptedFields.SealedBodyReadBack | ntp-proto/src/packet/extension_fields.rs:688-711 | Nonce and ciphertext are found again behind their padding. |
| EncryptedFields.SealedReadBack | ntp-proto/src/packet/extension_fields.rs:312-397 | The encrypted field is framed so that it is read back whole. |
| EncryptedFields.SealedReadBackIff | ntp-proto/src/packet/extension_fields.rs:383-391 | It is read back if and only if its length is within sixteen bits: a longer one is cut off silently. |
| EncryptedFields.LongSealedUnreadable | ntp-proto/src/packet/extension_fields.rs:383-391 | One of 65544 bytes is not. |
| EncryptedFields.ReadPlain | ntp-proto/src/packet/extension_fields.rs:599-660 | Reading past ordinary fields only adds them to the untrusted ones. |
| EncryptedFields.ReadEncrypted | ntp-proto/src/packet/extension_fields.rs:612-655 | The reader opens the encrypted field with the associated data that the writer sealed it with, and all fields in front of it become authenticated. |
| EncryptedFields.RoomForMac | ntp-proto/src/packet/extension_fields.rs:574-584 | The last version 4 field alone is longer than the longest MAC, so reading never stops in front of a field. |
| EncryptedFields.PlainRoundTrip | ntp-proto/src/packet/extension_fields.rs:574-611 | Any untrusted fields, followed by a MAC of up to 24 bytes or none in version 4, are read back with exactly the MAC left over. |
| EncryptedFields.RoundTrip | ntp-proto/src/packet/extension_fields.rs:549-679 | Authenticated, encrypted and untrusted fields are read back as what each decodes to, in the same three lists, with the MAC left over, for both versions and any cipher that opens what it sealed. |
| EncryptedFields.RoundTripSame | ntp-proto/src/packet/extension_fields.rs:549-679 | For fields of the kinds that the version reads, these are the same three lists, each field up to zeros at its end. |
| FieldReader.StreamFields | ntp-proto/src/packet/extension_fields.rs:844-874 | On any bytes every item spells out the bytes it covers, and an error comes last. |
| FieldReader.StreamTiles | ntp-proto/src/packet/extension_fields.rs:844-874 | On any bytes the fields follow each other without gap or overlap, and without an error they leave no more than the room for a MAC. |
| FieldReader.ExtensionFieldStreamer.constructor | ntp-proto/src/packet/extension_fields.rs:827-842 | The streamer starts with the whole stream ahead of it. |
| FieldReader.ExtensionFieldStreamer.Next | ntp-proto/src/packet/extension_fields.rs:852-874 | Each call takes the first item off the stream; after an error or the end nothing more comes. |
| FieldReader.StreamFrom | ntp-proto/src/packet/extension_fields.rs:844-874 | On any bytes the item after any number of fields is what is read at the end of the last of them. |
| FieldReader.DeserializeFields | ntp-proto/src/packet/extension_fields.rs:589-679 | The loop over the streamer computes the reading of fields that `PacketReadings.PacketIs` describes. |
| PacketReadings.DecodableIff | ntp-proto/src/packet/extension_fields.rs:440-514 | Exactly which bodies are well-formed for their type and version. |
| PacketReadings.TextOkIff | ntp-proto/src/packet/extension_fields.rs:712-742 | Exactly which decrypted texts are: framed fields to the end, each well-formed and none of them an encrypted one. |
| PacketReadings.StepIs | ntp-proto/src/packet/extension_fields.rs:612-655 | After any number of fields: those up to the last encrypted field that opened are authenticated, what was in those is encrypted, the rest is untrusted, and the packet is still valid exactly if all encrypted ones opened. |
| PacketReadings.PacketIs | ntp-proto/src/packet/mod.rs:302-430 | For all bytes and key sets, exactly what the packet is read as, told from the placement of its fields: malformed, undecryptable or with which fields, cookie and MAC. |
| PacketReadings.UndecryptableIff | ntp-proto/src/packet/extension_fields.rs:617-641 | A whole packet is undecryptable if and only if some encrypted field in it has no key selected by the cookies in front of it, or does not open under that key with the packet in front of it as associated data. |
| FieldReader.MacRoundTrip | ntp-proto/src/packet/mod.rs:334-372 | A version 4 packet tail with any MAC of 4 to 24 bytes, or none, is read back with its fields and that MAC. |
| FieldWriter.Cursor.constructor | ntp-proto/src/packet/extension_fields.rs:549-553 | Nothing is written yet. |
| FieldWriter.Cursor.WriteAll | ntp-proto/src/packet/extension_fields.rs:231-246 | The bytes are appended, or nothing fits and the cursor says so. |
| FieldWriter.Cursor.WriteZeros | ntp-proto/src/packet/extension_fields.rs:218-229 | Zeros are appended in chunks. |
| FieldWriter.Cursor.EncodeFraming | ntp-proto/src/packet/extension_fields.rs:175-196 | Type and length are appended; version 4 counts the padding. |
| FieldWriter.Cursor.EncodePadding | ntp-proto/src/packet/extension_fields.rs:198-216 | The padding up to the minimum size and the next word is appended. |
| FieldWriter.Cursor.EncodeField | ntp-proto/src/packet/extension_fields.rs:134-164 | What is written for a field is its encoding. |
| FieldWriter.Cursor.EncodeFields | ntp-proto/src/packet/extension_fields.rs:554-584 | Fields are written one behind the other. |
| FieldWriter.Cursor.EncodeEncryptedField | ntp-proto/src/packet/extension_fields.rs:312-397 | The encrypted field that is built in place in the buffer is the encoding of nonce and ciphertext, with all bytes in front of it as associated data. |
| FieldWriter.Cursor.SealInPlace | ntp-proto/src/packet/extension_fields.rs:342-397 | The plain text in the buffer is replaced by the sealed text, moved behind the nonce, padded and given its header, without disturbing what stands in front. |
| FieldWriter.Cursor.Serialize | ntp-proto/src/packet/extension_fields.rs:549-587 | The buffer holds exactly the serialized packet, or the failure is reported. |
| CookieStashes.CookieStash.constructor | ntp-proto/src/cookiestash.rs:10-15 | A new stash is empty. |
| CookieStashes.CookieStash.Store | ntp-proto/src/cookiestash.rs:29-40 | The ring buffer appends to a queue of eight; when it is full the oldest cookie goes. |
| CookieStashes.CookieStash.Get | ntp-proto/src/cookiestash.rs:43-53 | The oldest cookie comes out. |
| CookieStashes.CookieStash.Gap | ntp-proto/src/cookiestash.rs:56-60 | The number of free places. |
| CookieStashes.OldestFirst | ntp-proto/src/cookiestash.rs:29-60 | Over every sequence of operations each stored cookie is given out once, dropped once, or still held; they come out in the order of storing; and the ones dropped were the oldest then held in a full stash. |
| Associations.CheckUid | ntp-proto/src/packet/mod.rs:1237-1252 | The answer is whether the identifiers present all match, or that there is none. |
| Associations.NtpSource.constructor | ntp-proto/src/source.rs:389-434 | A new association is unreachable, has no request outstanding and stands at the shortest interval and stratum 16. |
| Associations.NtpSource.HandleTimer | ntp-proto/src/source.rs:454-566 | A timer changes the state as the timer step says: give up, reset for want of cookies, or poll with a new request that is then the only one awaited; the interval, version and header of the poll are those of `ClientRuns`. |
| Associations.NtpSource.PollWithCookie | ntp-proto/src/source.rs:478-537 | With NTS the oldest cookie goes into the poll, with placeholders for as many as can be asked for; without one, or without room, the association is reset. |
| Associations.NtpSource.CookiesToAskFor | ntp-proto/src/source.rs:478-494 | As many cookies as are missing, within what the buffer has room for. |
| Associations.NtpSource.HandleIncoming | ntp-proto/src/source.rs:568-674 | A packet changes the state as the incoming step says, through all its checks and kiss codes; which packets are accepted is `AssociationRuns.AcceptedIff`. |
| Associations.NtpSource.ProcessMessage | ntp-proto/src/source.rs:676-765 | An accepted packet ends the request, sets reach, stratum, version and server-imposed interval, and its cookies are stored. |
| AssociationRuns.NeverShorterIff | ntp-proto/src/time_types.rs:534-536 | The server-imposed minimum interval never decreases on any run of timers and packets if and only if the longest allowed interval is below 127 or the limits leave no choice. |
| AssociationRuns.ShorterRun | ntp-proto/src/source.rs:632-640 | For other limits, a poll and enough rate kisses make the interval fall. |
| AssociationRuns.IntervalRun | ntp-proto/src/source.rs:690-706 | Kept by every run within such limits: while a request is outstanding the imposed interval is at most the longer of the limit and the last interval used. |
| AssociationRuns.RequestTracked | ntp-proto/src/source.rs:516-527 | On every run the request awaited is the last poll if nothing answered it yet, and the answers accepted, with the one awaited, number at most the polls. |
| AssociationRuns.AnswersIff | ntp-proto/src/packet/mod.rs:1189-1252 | On every run, exactly which packets are taken for an answer: of the version spoken, in time for the last poll and the first to answer it, with its random bytes, and with NTS carrying its identifier and no other where the keys vouch for it, or anywhere for a NAK. |
| AssociationRuns.AcceptedIff | ntp-proto/src/source.rs:568-674 | On every run, exactly which packets are accepted: those, from a server of stratum 1 to 16; all others leave the request awaited and the cookies held. |
| AssociationRuns.AcceptedAnswersLastPoll | ntp-proto/src/source.rs:595-605 | On every run a packet that reaches the clock algorithm answers the last poll, in time and once, with its random bytes and, with NTS, its identifier in a field that the keys vouch for; so there are no more of them than polls. |
| AssociationRuns.StratumInRange | ntp-proto/src/source.rs:676-693 | On every run the stratum stays within 1 and 16. |
| AssociationRuns.ReachCounts | ntp-proto/src/source.rs:161-185 | The shift register counts unanswered polls up to eight, and is zero exactly when eight were missed. |
| AssociationRuns.ReachTracked | ntp-proto/src/source.rs:161-185 | On every run without NTS the unanswered polls number min(8, polls since the last accepted packet), and refusals are remembered until then. |
| AssociationRuns.GivesUpExactly | ntp-proto/src/source.rs:454-473 | A timer gives up exactly when at least three polls went out and none of the last eight was answered, and for good exactly when service was refused since the last accepted packet. |
| AssociationRuns.UpgradeEnds | ntp-proto/src/source.rs:595-619 | On every run an association that is still upgrading has had one valid answer for each try used up, so it has settled after at most as many valid answers as it had tries, or one. |
| AssociationRuns.NeverBackToV4 | ntp-proto/src/source.rs:595-619 | On every run, from the first accepted version 5 packet on, only version 5 is spoken. |
| AssociationRuns.NeverOverflows | ntp-proto/src/time_types.rs:534-536 | With limits and wishes below 127, no run comes to a rate kiss that increments an interval of 127. |
| AssociationRuns.ProtocolSettles | ntp-proto/src/source.rs:301-329 | An association that speaks one version only does so on every run. |
| ClientRuns.SentInterval | ntp-proto/src/source.rs:448-452 | On every run the interval of a poll is the longer of the controller's wish and the one imposed by the server, is the one kept, and stands in the third byte of the poll. |
| ClientRuns.HonoursServer | ntp-proto/src/source.rs:696-706 | On every run within the limits, from an accepted version 5 packet on no poll has a shorter interval than that packet asks for. |
| ClientRuns.BacksOff | ntp-proto/src/source.rs:632-640 | On every run within the limits, after a rate kiss that answers a poll no poll has a shorter interval than that poll, nor than one step beyond what was imposed before, up to the limit. |
| ClientRuns.SentHeaderBytes | ntp-proto/src/source.rs:494-527 | On every run a poll starts with its version and the client's mode, has the random bytes that the answer must carry back where its version has them, and asks for version 5 exactly in a version 4 poll during an upgrade. |
| ClientRuns.SentVersion | ntp-proto/src/source.rs:454-515 | On every run without NTS a poll is of version 5 exactly once that is settled, or was agreed to and fewer than two polls in a row have gone unanswered since. |
| ClientRuns.UpgradeRunsOut | ntp-proto/src/source.rs:606-619 | An upgrade whose answers never carry the mark ends in version 4 after as many answers as it has tries. |
| ClientRuns.UpgradeTaken | ntp-proto/src/source.rs:606-619 | One with the mark ends it in version 5. |
| NtsExchange.NtsPollSize | ntp-proto/src/packet/mod.rs:496-571 | An NTS poll takes at most 904 bytes in version 4 and 952 in version 5, for every cookie length and stock that lets one be sent. |
| NtsExchange.SentPollFits | ntp-proto/src/source.rs:478-537 | On the way from the timer: every NTS poll that an association sends can be encoded and fits the 1024-byte buffer. |
| NtsExchange.CookiesReturned | ntp-proto/src/packet/mod.rs:731-757 | For every request: a cookie comes back for each of the first eight authenticated and encrypted fields that asks for one and has room for it; so all asked for come back if and only if every asking field is among the first eight and has the room. |
| NtsExchange.PollCookiesReturned | ntp-proto/src/packet/mod.rs:496-571 | For the polls of this client: min(n, 7) for n asked for, hence all exactly when n is below eight. |
| NtsExchange.SixOfSeven | ntp-proto/src/packet/mod.rs:731-757 | One more field in front of them and seven asked for bring six. |
| NtsExchange.PollReadExactly | ntp-proto/src/packet/mod.rs:496-571 | The fields of a poll with this server's cookies are read exactly as they were written. |
| KeySets.EncodeCookieInPlace | ntp-proto/src/keyset.rs:159-183 | Editing the buffer in place gives the cookie: identifier, length, nonce and sealed keys. |
| KeySets.DecodeWith | ntp-proto/src/keyset.rs:190-245 | A key set that has the sealing key under the cookie's identifier gives back what was sealed, and one without that identifier nothing. |
| KeySets.DecodeOwn | ntp-proto/src/keyset.rs:159-245 | A key set decodes every cookie that it makes, to the algorithm and the keys that it was made from. |
| KeySets.KeySetProvider.constructor | ntp-proto/src/keyset.rs:51-60 | A new provider has one key, which is the primary one. |
| KeySets.KeySetProvider.Rotate | ntp-proto/src/keyset.rs:75-93 | A new primary key comes in, the oldest beyond the history goes, and the identifier offset moves along. |
| KeySets.RotationHolds | ntp-proto/src/keyset.rs:75-93 | A rotation keeps every surviving key under its own identifier, across wrapping. |
| KeySets.Holds | ntp-proto/src/keyset.rs:51-93 | After any rotations the provider holds exactly the last keys, each under its running number modulo 2^32. |
| KeySets.CookieLifetime | ntp-proto/src/keyset.rs:159-245 | A cookie decodes to its own keys after any number of rotations if that number is within the history, and to nothing if it is not (below 2^32 rotations). |
| KeySets.CookieLength | ntp-proto/src/keyset.rs:159-183 | A cookie takes 104 or 168 bytes, by the algorithm of its keys. |
| KeySetFiles.Store | ntp-proto/src/keyset.rs:127-139 | The loop writes the time, the numbers and all keys. |
| KeySetFiles.Load | ntp-proto/src/keyset.rs:95-125 | The loop reads them, or fails on a short file or a primary number above the count. |
| KeySetFiles.StoreLoad | ntp-proto/src/keyset.rs:95-139 | What is stored is loaded, whatever follows it. |
| KeySetFiles.LoadedUsableIff | ntp-proto/src/keyset.rs:106-108 | A loaded key set has a primary key if and only if the two numbers in the file differ: the guard lets equality through. |
| KeySetFiles.LoadedUnusable | ntp-proto/src/keyset.rs:106-108 | Twenty zero bytes are loaded as a key set without keys. |
| KeySetFiles.CookieSurvivesRestart | ntp-proto/src/keyset.rs:95-245 | A cookie made after any rotations, with the key set stored and loaded after any more, is decoded after any that follow if the rotations since it was made are within the history, and to nothing if not. |
| NtsRecords.RecordReadBack | ntp-proto/src/nts/record.rs:64-98 | A record that reading can produce is read back from its writing, whatever follows. |
| NtsRecords.ReadIsCanonical | ntp-proto/src/nts/record.rs:99-257 | Every record read from any bytes can be written, and is no longer than what was read. |
| NtsRecords.ReadWriteRead | ntp-proto/src/nts/record.rs:64-356 | Every record read from any bytes is read again, the same, from its own writing. |
| NtsRecords.RecordLayout | ntp-proto/src/nts/record.rs:259-356 | On the wire every kind of record has its own number, its critical bit and its length. |
| NtsMessages.ParseRecords | ntp-proto/src/nts/messages.rs:42-60 | The reading loop over a limited input computes the fold over its records, with the first error. |
| NtsMessages.SerializeRecords | ntp-proto/src/nts/messages.rs:185-284 | The writing loop appends the records, or fails on one too long. |
| NtsMessages.ReadWritten | ntp-proto/src/nts/messages.rs:42-183 | Written records are read back as the fold over them. |
| NtsMessages.ReadPays | ntp-proto/src/nts/messages.rs:42-183 | Every piece of a message that is kept was paid for by the bytes it was read from. |
| NtsMessages.RequestStepPays | ntp-proto/src/nts/messages.rs:56-130 | One record adds no more to a request than the bytes it takes. |
| NtsMessages.RequestRefolds | ntp-proto/src/nts/messages.rs:130-284 | The records written for a request lead back to it and weigh no more than what was kept. |
| NtsMessages.RequestRoundTrip | ntp-proto/src/nts/messages.rs:42-284 | A request read from any bytes can be written, in no more bytes than were read and within the 4096 limit, and is then read the same. |
| NtsMessages.ResponseStepPays | ntp-proto/src/nts/messages.rs:308-373 | One record adds no more to a response than the bytes it takes. |
| NtsMessages.ResponseFold | ntp-proto/src/nts/messages.rs:388-421 | The records written for a response lead back to it. |
| NtsMessages.ResponseRoundTrip | ntp-proto/src/nts/messages.rs:297-421 | The same as for requests, for key exchange responses. |
| NtsMessages.MessageRoundTrip | ntp-proto/src/nts/messages.rs:42-421 | Records within the limit are read back as the message they were written for. |
| NtsMessages.ParseRequestBytes | ntp-proto/src/nts/messages.rs:42-183 | The request parser as it runs computes the specified result. |
| NtsMessages.ParseResponseBytes | ntp-proto/src/nts/messages.rs:297-386 | The response parser as it runs computes the specified result. |
| NtsMeanings.ReadByRecords | ntp-proto/src/nts/messages.rs:42-60 | A message is read exactly when it is whole up to its end marker and every step on its records can be taken, and then to the state they lead to. |
| NtsMeanings.HoldsMore | ntp-proto/src/nts/messages.rs:56-128 | A record is refused exactly when a request may not have it or has one of its kind already, with which error; else the state says what the records say. |
| NtsMeanings.RequestMeaning | ntp-proto/src/nts/messages.rs:42-183 | Bytes are read as a request if and only if the first 4096 hold a whole message in which no record is barred, critical and unknown, or repeated where it may not be, and whose records say that request: for all three kinds. |
| NtsMeanings.AnswerHoldsMore | ntp-proto/src/nts/messages.rs:308-373 | The same for a response: which record is refused, with which error, and what the state says. |
| NtsMeanings.ResponseMeaning | ntp-proto/src/nts/messages.rs:297-386 | Bytes are read as a response if and only if the first 4096 hold a whole message in which no record is barred or repeated where it may not be, with one protocol, one algorithm, the server and port given, and the first eight cookies. |
| NetworkManagers.NetworkManager.constructor | statime-netptp/src/lib.rs:112-136 | The general interface is open with a reference of its own. |
| NetworkManagers.NetworkManager.Take | statime-netptp/src/interface.rs:22-36 | A reference is added under the lock, or the panic is named. |
| NetworkManagers.NetworkManager.Drop | statime-netptp/src/interface.rs:40-53 | A reference is given back, and the entry goes with the last one. |
| NetworkManagers.NetworkManager.OpenInterface | statime-netptp/src/lib.rs:186-242 | An open interface gains a reference unless another hardware clock is asked for; a new one is entered with the clock asked for. |
| NetworkManagers.NetworkManager.AddSocket | statime-netptp/src/interface.rs:88-103 | The search takes the first vacant identifier, wrapping around, or has come round all of them, where the source searches on for ever. |
| NetworkManagers.NetworkManager.RemoveSocket | statime-netptp/src/socket.rs:20-30 | The socket's entry is taken out of the table. |
| NetworkManagers.SpinsIffFull | statime-netptp/src/interface.rs:92-102 | The search for an identifier goes on for ever if and only if all are taken. |
| NetworkManagers.TakingSound | statime-netptp/src/interface.rs:22-86 | Adding a reference to an open interface keeps the invariant, and panics exactly on overflow. |
| NetworkManagers.GivingSound | statime-netptp/src/interface.rs:40-53 | Giving a reference back never fails and keeps the invariant. |
| NetworkManagers.OpeningSound | statime-netptp/src/lib.rs:186-242 | Opening keeps the invariant, and panics exactly when an open interface's count would overflow. |
| NetworkManagers.FinishingSound | statime-netptp/src/interface.rs:88-110 | Entering a socket keeps the invariant. |
| NetworkManagers.RemovingSound | statime-netptp/src/socket.rs:20-30 | A live socket always finds its entry, and taking it out keeps the invariant. |
| NetworkManagers.StepSound | statime-netptp/src/interface.rs:21-166 | From a sound state every block under a lock leads to a sound state; it panics if and only if the count it raises is at its maximum, and spins if and only if all identifiers are taken. |
| NetworkManagers.RunSound | statime-netptp/src/lib.rs:112-242 | On every interleaving each count equals the handles, sockets and half-done socket operations on that interface, plus one for the general one; no lookup fails; the general interface stays open; and whoever asked for a hardware clock still has it. |
| NetworkManagers.NamedGiven | statime-netptp/src/lib.rs:186-242 | Exactly who is given a handle on an interface by name: a hardware clock must be given or found, an open interface must have that one if any is asked for, and a closed one must be granted; the handle has the clock asked for, and nobody else notices. |
| NetworkManagers.SocketFindsInterface | statime-netptp/src/socket/send.rs:24-36 | On every interleaving a live socket finds itself in the table and its interface open, with its hardware clock. |
| NetworkManagers.AllReturned | statime-netptp/src/socket.rs:19-79 | When all handles and sockets are gone only the general interface is left, with one reference, and no socket. |
| TimeTypes.SinceShown | ntp-proto/src/time_types.rs:113-126 | The difference of two clock readings is the true one less the eras it is misread by. |
| TimeTypes.SinceExact | ntp-proto/src/time_types.rs:113-126 | It is the true difference if and only if that is less than half an era either way. |
| Measurements.TwoWayController.HandleMeasurement | ntp-proto/src/algorithm/mod.rs:449-480 | An outgoing measurement is kept; an incoming one takes it and gives delay and offset, or nothing without one. |
| Measurements.RunPairs | ntp-proto/src/algorithm/mod.rs:449-480 | On every sequence of measurements an incoming one counts exactly when the one just before it was outgoing, and the two are combined. |
| Measurements.OneResultEach | ntp-proto/src/source.rs:752-755 | Every accepted packet gives one result, from its own four timestamps. |
| Measurements.DelayExactIff | ntp-proto/src/algorithm/mod.rs:463-464 | For all clock readings, offsets, delays and waiting times the computed delay is the true one if and only if it is below half an era and the eras misread cancel. |
| Measurements.DelayOfExchange | ntp-proto/src/algorithm/mod.rs:463-464 | It is the true delay whenever the exchange took less than half an era, whatever eras the clocks are in. |
| Measurements.OffsetExactIff | ntp-proto/src/algorithm/mod.rs:465-467 | The computed offset is the mean of the two apparent ones if and only if the eras misread cancel and the sum does not saturate. |
| Measurements.OffsetBound | ntp-proto/src/algorithm/mod.rs:465-467 | Then twice its error is within the delay plus one. |
| Measurements.OffsetBoundAttained | ntp-proto/src/algorithm/mod.rs:465-467 | That bound is attained. |
| Measurements.RunAccurate | ntp-proto/src/source.rs:807-835 | Over any sequence of exchanges within the limits, every result has the true delay and an offset within that bound. |
| Csptp.Collect | statime-csptp/src/source.rs:250-421 | The receive loop computes the collector over the trace of receipts. |
| Csptp.CollectsAnswer | statime-csptp/src/source.rs:250-421 | On every trace the result is the first one-step response, unless a two-step response and a follow-up came before it, and then the first of each joined. |
| Csptp.EndsWhenComplete | statime-csptp/src/source.rs:250-421 | It ends if and only if a one-step response, or both others, have come, and what comes later changes nothing. |
| Csptp.OrderIndependent | statime-csptp/src/source.rs:299-405 | A two-step response and a follow-up next to each other can come in either order, anywhere in a trace. |
| Csptp.ExtraIgnored | statime-csptp/src/source.rs:258-310 | Foreign messages and repeated two-step responses or follow-ups change nothing, anywhere in a trace. |
| Csptp.SaturatingAdd | statime-csptp/src/source.rs:330-334 | The sum of two corrections, or the nearest one that can be written. |
| Csptp.CollectedMeasures | statime-csptp/src/source.rs:76-216 | If what comes for a request is true, then however the answer came together the corrected times differ by the two ways alone and the offset of the clocks, without the time that the messages were held up on the way; and the leap second and status are those announced. |
| Csptp.CorrectionExact | statime-csptp/src/source.rs:76-95 | The corrected time is exact to the nanosecond, and there is one if and only if it lies within the 48-bit seconds of a timestamp. |
| RateLimits.TimestampedCache.constructor | ntp-proto/src/server.rs:373-380 | A new cache remembers nobody. |
| RateLimits.TimestampedCache.IsAllowed | ntp-proto/src/server.rs:388-411 | The visit is remembered in its slot, and admitted unless that held the same visitor too recently; a cache of size zero admits all. |
| RateLimits.RefusedIff | ntp-proto/src/server.rs:388-411 | After any visits a visitor is turned away if and only if the last visit to its slot was its own and too recent. |
| Headers.HeaderReadBack | ntp-proto/src/packet/mod.rs:178-213 | A header of any version is read back from its writing, whatever follows, field by field; in version 5 with the leap indicator of a server that is not synchronized dropped. |
| Headers.HeaderWriteBack | ntp-proto/src/packet/v5/mod.rs:259-315 | Any header that is read is written again as the same 48 bytes, if and only if version 5 did not drop a leap indicator. |
| Packets.GetCookie | ntp-proto/src/keyset.rs:257-273 | The loop finds the cookie that selects the key. |
| Packets.FoundIff | ntp-proto/src/keyset.rs:257-273 | A key is selected exactly by the only cookie among the fields, if this server can decode it. |
| Packets.PacketVouches | ntp-proto/src/packet/mod.rs:302-430 | Version 3 packets never have a cookie and are never undecryptable; a packet read with a cookie carries it, decodable by this server, and behind it a field that opens, with the packet in front of that field as associated data, under the key in it. |
| Responses.WriteResponse | ntp-proto/src/packet/mod.rs:450-493 | The buffer ends up with exactly the response, header, fields and padding, or the failure is reported. |
| Responses.ResponseHeaderAnswers | ntp-proto/src/packet/mod.rs:236-287 | Every response is a server's, of the layout of the request, and carries back what the request is told by; its stratum is the server's, or zero for a refusal. All its bytes are those of `TimeExchanges.SentOnWire`. |
| Responses.IssueMints | ntp-proto/src/packet/mod.rs:731-757 | Every new cookie in a response is one that was minted for it. |
| ResponseSizes.ReadPays | ntp-proto/src/packet/extension_fields.rs:589-679 | Over the whole reading of a packet, every field kept was paid for by the bytes it was read from, and an opened field left 40 bytes for the frame of the answer. |
| ResponseSizes.EchoPays | ntp-proto/src/packet/mod.rs:803-818 | What is sent back is paid for by fields that ask for no cookie, and the draft identification by that of the request. |
| ResponseSizes.IssuePays | ntp-proto/src/packet/mod.rs:731-757 | Every new cookie is paid for by the field that asked for it. |
| ResponseSizes.PackedSize | ntp-proto/src/packet/mod.rs:450-478 | The length of a response before padding, from its fields and what short ones lack. |
| ResponseSizes.PaddingHasRoom | ntp-proto/src/packet/mod.rs:482-490 | For every version 5 request the padding of its response is a multiple of four, hence none or at least four bytes. |
| ResponseNeeds.NeedIsCost | ntp-proto/src/packet/mod.rs:623-1028 | For every request the bytes told from it are those that the fields of the response take with their padding, whatever is drawn for it. |
| ResponseNeeds.FitsIff | ntp-proto/src/server.rs:161-163 | For every request and every kind of response, told from the request alone: the response fits a buffer as long as the request if and only if the identifiers, with their minimum sizes, the chunks of the Bloom filter, the draft identification, the frame of an encrypted field and the new cookies that the request leads to take no more bytes than it has behind its header, and version 5 padding is within one field. |
| ResponseNeeds.ShortRequestOverflows | ntp-proto/src/server.rs:161-163 | A request of 73 bytes with an empty identifier, whose response takes 76. |
| ResponseNeeds.NakOverflows | ntp-proto/src/server.rs:161-163 | A version 5 request of 56 bytes that cannot be opened, whose NTS NAK takes 76, all of it header and draft identification. |
| ResponseSizes.ResponseFits | ntp-proto/src/server.rs:161-163 | With identifiers of at least 24 bytes, and nonce and tag of 16, it always fits, and version 5 responses with the time are as long as the request. |
| Servers.ServerStats.constructor | ntpd/src/daemon/server.rs:20-33 | All counters are zero. |
| Servers.ServerStats.Count | ntpd/src/daemon/server.rs:35-65 | One registration raises the received counter, one heading, and the NTS counters that apply. |
| Servers.Server.constructor | ntp-proto/src/server.rs:100-119 | The filters decide the configured lists and the cache is empty. |
| Servers.Server.Intend | ntp-proto/src/server.rs:127-145 | Deny list, allow list and rate limit decide in that order, with the tries standing for the lists. |
| Servers.Server.Respond | ntp-proto/src/server.rs:257-338 | Behind parsing: what is dropped is registered there, and what is answered, with builder, request, key and size, is not registered yet. |
| Servers.Server.HandleInner | ntp-proto/src/server.rs:209-338 | The same from the intended action on, over all outcomes of parsing. |
| Servers.Server.HandlePacket | ntp-proto/src/server.rs:164-205 | Every packet is registered exactly once, for what is done with it; the buffer then holds exactly the response decided on, and one that does not fit is registered as an error. |
| Servers.NeverUnreachable | ntp-proto/src/server.rs:326-326 | No packet reaches the code marked unreachable, in the server or in the response builders. |
| Servers.PanicsIff | ntp-proto/src/keyset.rs:159-183 | Exactly with which key sets and on which packets the server panics: one without a primary key, and a welcome client that asks under a cookie that still decodes for another one, in one of the first eight fields. |
| Servers.DecidedIff | ntp-proto/src/server.rs:127-338 | Exactly which packets are given the time, an NTS NAK, or a denial, with the room in the buffer as part of the condition. |
| Servers.SentIff | ntp-proto/src/server.rs:164-205 | Bytes are sent if and only if something else than ignoring is registered, and they are the response registered, built for the request and sealed under the cookie's key if there is a cookie. |
| Servers.TimeIsVouchedFor | ntp-proto/src/server.rs:273-286 | Where NTS is required the time goes only to packets that carry a cookie of this server and, behind it, a field that opens under the key in that cookie. |
| Servers.ReplyReady | ntp-proto/src/packet/mod.rs:482-490 | Whatever the packet, the response decided on is written without a panic: its padding has room for its own header. |
| Servers.CanSendIff | ntp-proto/src/server.rs:161-163 | The same for the response that the server decides on, with new cookies of 104 or 168 bytes by the cookie in the request. |
| Servers.UsualCanSend | ntp-proto/src/server.rs:161-163 | For requests of the usual sizes that is always so. |
| Servers.RunBalances | ntpd/src/daemon/server.rs:35-65 | Over every run without such a panic, received equals the packets and equals accepted + denied + ignored + rate limited + NAK; responses sent equal accepted + denied + NAK; and no rate-limited packet counts as NTS. |
| ServerCounts.ReasonIs | ntp-proto/src/server.rs:127-338 | For every packet, exactly when each reason is registered, and exactly when it is registered as NTS. |
| ServerCounts.VersionRegistered | ntp-proto/src/server.rs:164-338 | The version registered is the one in the packet, whatever is made of it. |
| ServerCounts.RunCounts | ntpd/src/daemon/server.rs:35-65 | Over every run without a panic each counter is the number of packets that were registered as what it counts. |
| TimeExchanges.SentOnWire | ntp-proto/src/packet/mod.rs:236-287 | Whatever the server sends, byte by byte of its header: with the time, what the server says of itself, the readings of its clock at the arrival of the request and at the departure of the response, and from the request the interval and what it is told by; and for a refusal the reason. |
| TimeExchanges.TruncatedTime | ntp-proto/src/time_types.rs:62-70 | The reference time is the arrival without what is below 128 seconds. |
| TimeExchanges.DurationReadBack | ntp-proto/src/time_types.rs:177-219 | A duration is read back rounded down to its unit, and the longest one for those that are longer. |
| TimeExchanges.AnswerMeasures | ntp-proto/src/source.rs:807-835 | From an answer of the server with the time, in any version, with or without NTS and however read, the client measures the true delay, and an offset wrong by at most half of it and one unit. |
| PlainExchanges.PlainRead | ntp-proto/src/packet/mod.rs:302-430 | A packet of untrusted fields is read, by anyone, as it was written. |
| PlainExchanges.PlainExchangeCompletes | ntp-proto/src/source.rs:454-765 | The whole way without NTS: the timer's poll, handled by a server that lets the client in, gives bytes from which the client reads an answer that it accepts; a version 4 poll that asks for version 5 leads to version 5. |
| PlainExchanges.PlainExchangeMeasures | ntp-proto/src/source.rs:807-835 | And from them it measures the true delay and an offset within that bound. |
| NtsService.RejectedPacket | ntp-proto/src/packet/extension_fields.rs:617-641 | Without a cipher for its encrypted field, or with one under which that does not open, a packet is marked undecryptable and keeps all its fields untrusted. |
| NtsService.NakIff | ntp-proto/src/server.rs:209-256 | Exactly which packets are given an NTS NAK: those of welcome clients, of an accepted version, with an encrypted field that has no key or does not open, if there is room for it. |
| NtsService.TamperedNak | ntp-proto/src/packet/extension_fields.rs:625-641 | A welcome client whose poll has a cookie that decodes and an encrypted field that does not open is given an NTS NAK, with a buffer as long as the poll, and not the time. |
| NtsService.PollRead | ntp-proto/src/packet/mod.rs:302-430 | The server reads a client's poll with the keys in its cookie, or as undecryptable if it cannot decode the cookie. |
| NtsService.PollUsual | ntp-proto/src/packet/mod.rs:496-571 | The polls of this client keep to the sizes for which a buffer as long as the request is enough. |
| NtsService.PollPanics | ntp-proto/src/keyset.rs:159-183 | With a key set whose primary number is the number of its keys, the poll of a welcome client under a cookie of this server makes it panic. |
| NtsService.ServedWithinHistory | ntp-proto/src/server.rs:164-338 | A welcome client that polls with a cookie made some rotations ago is given the time, with a buffer as long as its poll, in bytes sealed under the keys in the cookie, exactly while that number is within the server's history, and an NTS NAK after that. |
| NtsAnswers.AnswerRead | ntp-proto/src/packet/extension_fields.rs:589-679 | The client reads from the answer the fields that the server wrote. |
| NtsAnswers.AnswerReceived | ntp-proto/src/packet/mod.rs:302-430 | And with them a header that answers its poll. |
| NtsAnswers.TimeBytes | ntp-proto/src/packet/mod.rs:714-824 | The bytes sent to a client with the time are its identifier, the answer to its other fields and the new cookies, sealed under the key for the way back, with padding outside. |
| NtsAnswers.RefusalTold | ntp-proto/src/packet/v5/mod.rs:216-253 | The client reads a denial as a denial and a NAK as a NAK; and it takes a NAK for a rate limit if and only if that is of version 5 and the client polls more often than once a second. |
| NtsAnswers.NewCookiesMade | ntp-proto/src/packet/mod.rs:738-755 | Every new cookie in an answer is made by the server's key set from the keys of the session it answers, and decodes to them. |
| NtsAnswers.NewCookiesDistinct | ntp-proto/src/packet/mod.rs:738-755 | With a new nonce for each, no two cookies of an answer are the same. |
| NtsAnswers.ClientAccepts | ntp-proto/src/source.rs:568-765 | The client accepts that answer, and its stock of cookies goes from v to v - 1 + min(9 - v, 724 / length), at most eight, without losing one it held. |
| NtsAnswers.PollExpected | ntp-proto/src/source.rs:494-515 | The version that an NTS poll is sent in is the one that the association expects back, if and only if it has not just begun to upgrade. |
| NtsAnswers.ExchangeCompletes | ntp-proto/src/source.rs:454-765 | The whole way, from the timer to the stored cookies and over the bytes of both packets: a poll under a cookie within the server's history, handled by a server of stratum 1 to 16 with a buffer as long as the poll, gives bytes, header included, from which the client reads an answer that it accepts; its stock is refilled, with cookies that the server decodes to the keys of the session. |
| NtsSessions.LastingNext | ntp-proto/src/cookiestash.rs:29-53 | If no eight successive rounds see more rotations than the server keeps old keys, each cookie in the stock is good until it is used: the ones left move up, and the new ones have eight rounds. |
| NtsSessions.RoundCompletes | ntp-proto/src/source.rs:454-765 | One round of a session: the client always sends a poll, and if it is let in and answered in time the exchange completes. |
| NtsSessions.SessionLasts | ntp-proto/src/keyset.rs:75-93 | So a session goes on for any number of rounds and rotations, each exchange under the cookies of those before, with no key exchange in between. |
| NtsSessions.RoundMeasures | ntp-proto/src/source.rs:807-835 | In each round that completes the client measures the true delay and an offset within the bound. |
| Refusals.DenialBytes | ntp-proto/src/packet/mod.rs:954-989 | A denial to a client with a cookie carries its identifier, sealed under the key for the way back. |
| Refusals.DenialEnds | ntp-proto/src/source.rs:641-651 | The whole way: a client with a cookie that the server is set to deny is denied under the keys of its session, reads it, and stops using the server. |
| Refusals.OldCookieUnopened | ntp-proto/src/keyset.rs:190-245 | The server cannot open the poll of a client whose cookie it does not decode any more. |
| Refusals.ChangedUnopened | ntp-proto/src/packet/extension_fields.rs:625-641 | Nor one with a ciphertext that does not open under the keys in its cookie. |
| Refusals.NakPassedOver | ntp-proto/src/source.rs:652-656 | The whole way: a welcome client whose poll cannot be opened, for either reason, is told so; it takes that for an answer to its poll, keeps the request open and has the cookies left that it did not use. |
| Refusals.PlainDenialRemembered | ntp-proto/src/source.rs:641-651 | The whole way: a client without NTS that is denied only keeps that in mind. |

## Left out

- Sockets, tasks, TLS, DNS, files, logging and the observer. Asynchronous readers are byte sequences with a limit; clocks, random
  values, the answers of the operating system and the choice of the next thread are inputs.
- Cipher internals, and the key an algorithm derives from key bytes: a cipher is a pair of functions.
- What the server says of itself in a response (stratum, delay, dispersion, reference id), its clock, its nonces and the Bloom filter contents are inputs; times and durations in headers stay as bytes, and `TimeExchange` says what they mean. The text of log messages.
- Floating-point code, the Kalman filter and clock steering.
- Snapshots and bookkeeping for the user interface, and `accept_synchronization`.
- The CSPTP manager and server, the wire format of PTP messages, and the conversion of corrected PTP times to NTP timestamps.
- NTS-KE responses other than the key exchange response; the TLS session around them.
- BitTrees.SortInPlace: models the library's sort by an insertion sort with the same order; equal pairs cannot be told apart.
- BitTrees.BitTree.constructor: bitmaps are sets of symbols instead of sixteen-bit words, and a child offset is not cast to 32 bits; `TreeSizes.OffsetsFit` gives the list length up to which the cast changes nothing.
- BitTrees.BitTree.FillNode: leaves out the same cast of a child offset.
- KeySets.KeySetProvider.Rotate: asks for fewer than 2^32 keys, since the source casts their number to 32 bits.
- KeySets.CookieLifetime: asks for fewer than 2^32 rotations since the cookie was made, after which identifiers come round again.
- AssociationRuns.NeverShorterIff: takes the increment of an interval of 127 to wrap, as it does where overflow is not trapped; where it is trapped the program stops there instead. `AssociationRuns.NeverOverflows` gives limits for which it does not come to that.
- AssociationRuns.NeverOverflows: asks that the controller wishes for intervals below 127 too.
- NetworkManagers.RunSound: ends a run at the first panic, which poisons the lock; address filters and message channels of a socket are not modelled.
- Servers.ServerStats.Count: counts without the 2^64 wrap of the counters, and response send errors are not counted.
- Servers.Server.HandlePacket: asks for a packet that does not make the source panic, where the ones that do are exactly those of `Servers.PanicsIff`, and for nonces and a filter of their proper sizes.
- ResponseSizes.ResponseFits: for packets up to 65535 bytes, as datagrams are, and the usual sizes; `ResponseNeeds.FitsIff` has neither.
- Associations.NtpSource.ProcessMessage: leaves out the reference id, the Bloom filter response and the two measurements handed on; `TimeExchanges.AnswerMeasures` takes up the latter.
- Measurements.RunAccurate: asks for exchanges shorter than half an era and offsets below a quarter; `Measurements.DelayExactIff` and `Measurements.OffsetExactIff` give the exact limits.
- EncryptedFields.RoundTrip: for fields that read back at all, which leaves out lengths that wrap or are cut off (`ExtensionFields.ReadBackIffFits`, `EncryptedFields.SealedReadBackIff`); a version 4 draft identification and an unknown field with a known number come back as another kind (`ExtensionFields.RereadIsSelf`).
- NtsService.ServedWithinHistory: for clients with a cookie of this server, in datagrams; other packets are covered by `Servers.DecidedIff`.
- NtsAnswers.ExchangeCompletes: not for an NTS association that has just begun to upgrade, which polls in version 5 and does not expect it back.
- NtsSessions.SessionLasts: for rounds that are all answered; after a lost one the client has a cookie less, which `Associations.NtpSource.PollWithCookie` covers.
- Refusals.DenialEnds: like `NtsAnswers.ExchangeCompletes`, not for an association that has just begun to upgrade.
- Refusals.NakPassedOver: the same.
- PlainExchanges.PlainExchangeCompletes: for a server that does not require NTS and lets the client in; `Servers.DecidedIff` has all cases.
- Text in key exchange records: whether bytes are valid UTF-8 is a parameter.
