# znode in Dafny

A model of the parts of znode that hold its state together, and proofs about them:

- **The address book**: one class over five redundant structures (entries with two unique indexes, the random order
  with its back-pointers, the new slots, the tried slots, two counters). Inserting, updating, promoting, selecting and
  listing, for every placement hash and every random draw, keep them in agreement, so that none of their ASSERTs can
  fire. Loading is the exception: an ASSERT of it fires on some saved books, others come back out of agreement, and
  exactly which is proved. Placement itself, the capacity of the book and the share of one address group are proved on
  top.
- **The wire stack**, bottom up: stream, field codecs, payload codecs, message framing, handshake, and the node with
  its receive loop and its send pump. The result is end to end: what one node dequeues is what another lets through, in
  order and byte for byte, however the sockets cut the stream and whatever else happens to either node; a payload
  arrives as it was pushed exactly when the wire format can carry it. Which bytes are a
  message, which pong a node accepts and what its hub gets are proved over whole sessions.
- **Algorithms**: base58, hexadecimal text, subnet masks and page-lock counts.

`dafny verify dfyconfig.toml` checks everything.

## How it is laid out

| files | what they model |
|---|---|
| Common, Bits, Radix | shared types, bitwise operators on integers, numbers in a base |
| Addresses, Subnet, Placement | addresses, subnets, groups and slots |
| BookTables, Capacity, Selection, AddressBook, BookRuns | the tables as values, counting, random selection, the class, whole runs |
| StoredEntry, Storage, Restore, Recovery | the stored form of an entry, saving, loading, and when loading fails |
| Codec, Payloads, Stream, Serialization, PayloadTypes, WireFormat | the wire format as functions, the stream class, its reads and writes, the format byte by byte |
| Protocol, Chunks, Framing, FrameFormat, Message | definition table, duplicate chunks, framing as a function, whole messages byte by byte, the `Message` class |
| Handshake, Processing, Receive, Outbox, Hub, Node, Sessions, Pings | the handshake machine, one message, the receive loop, sending, what the hub gets, the `Node` class, whole sessions, pings and pongs |
| Base58, Hex, LockedPages, PageHistory | the algorithms |

Modules are named after their files, except `Messages` (Message), `Nodes` (Node), `Placing` (Placement) and `Restoring` (Restore).

Code that changes state step by step is a class or a method with loops, proved against functions on values; what the
source promises is proved about those functions. Integers are unbounded: machine widths are written out where the
source depends on them.

What cannot be seen from the source is a parameter, and the theorems hold for every value of it: SipHash, SHA-256 and
double SHA-256, the draws of the random generator, clock readings, the operating system's answers to page locks, the
number of bytes a socket takes or delivers, and the choice among queued messages of equal priority. The digest of the
empty string is the constant of the source.

## Where the code differs from its description or from a standard it names

- node.cpp:640 compares status words as numbers, so six states with a single version also let other messages pass
  (`Handshake.ExchangeGap` says exactly which).
- payloads.cpp:131 writes up to 2000 block locators and payloads.cpp:141 reads at most 160
  (`Payloads.GetHeadersRoundTrip`).
- payloads.cpp:262-269 checks a rejection code and forgets it (`PayloadTypes.RejectRoundTrip`).
- stream.hpp:327-329 reads an IPv6 address with a zero first half as IPv4 (`Payloads.AddressRoundTrip`).
- stream.cpp:44-48 does not pull the cursor back when shrinking (`Stream.DataStream.Resize`).
- addresses.cpp:108 takes 192.18.0.0/15 for the range of RFC 2544, which is 198.18.0.0/15, and addresses.cpp:166 takes
  fe80::/16 for the link-local addresses, which are fe80::/10 (`Addresses.RoutableV4`, `Addresses.RoutableV6`).
- addresses.cpp:372-378 keeps the address of a subnet as given, and addresses.cpp:322 compares the masked candidate
  with it unmasked, so a subnet not given by its base address has no members (`Subnet.Membership`, `Subnet.NoMembers`).
- addresses.cpp:401-416 accepts masks that are not contiguous (`Subnet.MaskIsPrefix`, `Subnet.BrokenMask`).
- addressbook.cpp:383 does not save an empty book, so an older saved book stays in the database (`Storage.Save`).
- addressbook.cpp:349 has an ASSERT that fires when a saved book holds two endpoints with the same wire form, or an
  agent too long to be read back (`Recovery.LoadOutcome`, `Recovery.UnloadableBook`).
- addressbook.cpp:318 reads ::10.0.0.1, which is routable, back as 10.0.0.1, which is not, so a saved book can come back
  out of agreement and the ASSERT at addressbook.cpp:665 can fire (`Recovery.SaveThenLoad`, `Recovery.UnsettledBook`).
- addressbook.cpp:418-421 stops saving entries at the first record that cannot be written, but still saves the order and
  the slots of all of them (`Storage.Save`).
- addressbook.cpp:743-746 tests the opposite time direction from its comment (`BookTables.AddsReference`,
  `BookTables.TimeDirection`, `BookTables.TimeDirectionWitness`).
- node.cpp:488 swaps the received version with the remembered one before node.cpp:565 hands it to the hub, which so
  gets a blank version instead of the received one (`Receive.HubIsToldThePrevious`, `Sessions.RunNode`).
- node.cpp:523 says that a repeated address request is ignored; the third one is the first to be
  (`Receive.RequestsHanded`, `Outbox.ThirdRequestIgnored`).
- node.cpp:140 waits for the answer to a ping, but not for a ping that is still queued: a second timer overwrites the
  nonce, and the honest answer to the first ping is refused (`Sessions.OverlappingTimers`, `Pings.RunInStep`).
- node.hpp:229-235 orders the queue so that messages of low priority are sent first (`Nodes.LowFirst`).
- secure_bytes.hpp:45 and secure_bytes.hpp:54 ignore the answers to their locks, so unlocking what was refused can take
  away another caller's lock (`PageHistory.RefusedThenUnlocked`, `PageHistory.AlwaysBalanced`).
- memory.hpp:63 has a loop that does not end on a range that ends in the last page of the address space, unless a lock
  is refused (`LockedPages.RangeEnds`, `LockedPages.EndlessRange`).

## Model

| member | source | states |
|---|---|---|
| AddressBook.Book.SwapOrder | src/infra/network/addressbook.cpp:582-602 | Exchanging two places of the random order keeps it a permutation with the back-pointers as its inverse. |
| AddressBook.Book.EraseNewEntry | src/infra/network/addressbook.cpp:481-496 | An entry without references leaves the entries, both indexes and the random order, and nothing else changes; the three ASSERTs hold. |
| AddressBook.Book.ClearNewSlot | src/infra/network/addressbook.cpp:543-560 | A slot is emptied; its owner loses the reference, and disappears exactly when that was its last one; all tables stay in agreement. |
| AddressBook.Book.TakeNewSlot | src/infra/network/addressbook.cpp:771-773 | An entry takes a free new slot; the counter moves exactly when it is the first. |
| AddressBook.Book.InsertEntry | src/infra/network/addressbook.cpp:706-726 | A new entry takes the next id and its new slot, from which at most one other entry is displaced. |
| AddressBook.Book.ReleaseReferences | src/infra/network/addressbook.cpp:507-512 | The loop drops every new reference of the entry from the slot table and from the entry, and counts it once. |
| AddressBook.Book.LeaveTriedSlot | src/infra/network/addressbook.cpp:517-527 | The occupant of a tried slot is the entry whose own slot it is, has no new references, and leaves the slot. |
| AddressBook.Book.EvictToNew | src/infra/network/addressbook.cpp:517-536 | The evicted entry goes back to its new slot, whose owner loses it. |
| AddressBook.Book.TakeTriedSlot | src/infra/network/addressbook.cpp:538-540 | An entry in no bucket takes its own tried slot. |
| AddressBook.Book.MakeEntryTried | src/infra/network/addressbook.cpp:498-541 | Promotion does exactly what `Promoted` prescribes on all tables, keeps them in agreement and fires no ASSERT; an entry that is tried already is left alone. |
| AddressBook.Book.UpdateEntry | src/infra/network/addressbook.cpp:728-774 | The services become the union, bit by bit; the time is renewed exactly when it is more than an hour or a day and the penalty behind; one more new slot is taken exactly when the entry is untried, below 8 slots, not behind the advertisement and lucky; nothing else of it changes, and all tables stay in agreement. |
| AddressBook.Book.InsertOrUpdate | src/infra/network/addressbook.cpp:686-704 | One advertisement inserts exactly when the endpoint is unknown: a new entry with these fields, the penalty waived for self-advertisement and the time at least the initial one; otherwise the known entry absorbs it as in an update. |
| AddressBook.Book.InsertMany | src/infra/network/addressbook.cpp:55-109 | The whole book after a vector is that of offering, in turn, every redated service with the network bit and a new endpoint; what stays in the vector is those that were unknown at their turn, one new id each. |
| AddressBook.PicksDiffer | src/infra/network/addressbook.cpp:64-93 | Services that stay in the vector have the network bit and pairwise different endpoints. |
| AddressBook.Book.SetGood | src/infra/network/addressbook.cpp:111-127 | A known endpoint gets the new agent, services and times, no attempts, keeps its origin and ends in its tried slot; an unknown one changes nothing. |
| AddressBook.Book.SetFailed | src/infra/network/addressbook.cpp:129-140 | A known endpoint gets the attempt time and one more attempt modulo 2^32, keeps the rest and ends in its tried slot; an unknown one changes nothing. |
| AddressBook.Book.SetTried | src/infra/network/addressbook.cpp:142-153 | A known endpoint gets a new attempt time, keeps the rest and ends in its tried slot; an unknown one changes nothing. |
| AddressBook.Book.GetRandomServices | src/infra/network/addressbook.cpp:232-263 | For every draw the result is distinct presentable entries within both caps, and all presentable entries if one more would still be within them. |
| AddressBook.Book.DrawServices | src/infra/network/addressbook.cpp:246-262 | The loop yields exactly the eligible entries of the shuffled part of the order. |
| AddressBook.Book.SelectRandom | src/infra/network/addressbook.cpp:169-230 | For every draw and every outcome of the chance test the result is that of the first of 50,000 attempts that wins: of the type asked for, accepted, and not remembered or in a set no larger than what is; it is none exactly if no attempt wins. What is remembered is the latest 64 different endpoints that suited. |
| AddressBook.Book.DrawFrom | src/infra/network/addressbook.cpp:195-230 | The loop finds the first attempt that wins, and touches what suits. |
| AddressBook.FirstWins | src/infra/network/addressbook.cpp:195-230 | With nothing remembered and no type asked for, the first attempt wins if it passes the chance test. |
| AddressBook.WinnerKnown | src/infra/network/addressbook.cpp:203-217 | The winner is an entry of the book, of the type asked for, and in new if only new was asked for. |
| Selection.TouchedLatest | src/core/common/lru_set.hpp:37-51 | Inserting into the set of recent items gives the latest 64 different items of the longer history. |
| Selection.TouchedAgain | src/core/common/lru_set.hpp:40-44 | Inserting what is there changes the order only. |
| Selection.OwnersCounted | src/infra/network/addressbook.cpp:174-193 | The counters of new and tried entries are the numbers of different owners of their slots. |
| BookTables.DropReference | src/infra/network/addressbook.cpp:543-560 | Dropping one of several references keeps slot table, references and counters in agreement. |
| BookTables.DropEntry | src/infra/network/addressbook.cpp:543-560 | Dropping an only reference together with its entry keeps the tables in agreement with one less counted. |
| BookTables.AddReference | src/infra/network/addressbook.cpp:771-773 | Adding a reference keeps the tables in agreement, with one more counted exactly if it is the first. |
| BookTables.EnterTried | src/infra/network/addressbook.cpp:538-540 | Entering the own tried slot keeps the tables in agreement and takes the entry out of limbo. |
| BookTables.LeaveTried | src/infra/network/addressbook.cpp:517-527 | Leaving a tried slot puts the entry in limbo and keeps the rest in agreement. |
| BookTables.LeaveNew | src/infra/network/addressbook.cpp:507-512 | Leaving all new slots puts the entry in limbo and keeps the rest in agreement. |
| BookTables.AddEntry | src/infra/network/addressbook.cpp:706-726 | A fresh entry at a free slot keeps the tables in agreement. |
| BookTables.AddsReference | src/infra/network/addressbook.cpp:734-769 | Exactly when an advertisement adds a slot: an older one passes the time test, a newer one only if it renews the time of the entry unpenalised. |
| BookTables.TimeDirection | src/infra/network/addressbook.cpp:728-754 | The code follows the described rule, skipping older advertisements, if and only if the times are equal, or the advertisement is newer and renews the time of the entry unpenalised, or no advertisement could add a slot anyway. |
| BookTables.TimeDirectionWitness | src/infra/network/addressbook.cpp:742-750 | An advertisement a day older adds a slot, one ten seconds newer does not. |
| BookTables.RefreshedMerges | src/infra/network/addressbook.cpp:728-737 | What an advertisement makes of a service: the union of the services bit by bit, and the time by the interval and the penalty in seconds. |
| BookTables.EligibleIs | src/infra/network/addresses.cpp:543-564 | When an entry may be listed, in seconds and counts. |
| BookTables.PromotedSelf | src/infra/network/addressbook.cpp:498-541 | The promoted entry ends in its tried slot and in no new one, and is otherwise as it was. |
| Capacity.SlotsBound | src/infra/network/addressbook.hpp:45-50 | Slots on a grid of n buckets are at most 64 n. |
| Capacity.CapacityBound | src/infra/network/addressbook.hpp:45-50 | At most 65,536 new and 16,384 tried entries, 81,920 in all, and at most 8 references per entry, by counting owned slots. |
| BookRuns.Run | src/infra/network/addressbook.cpp:43-153 | Every run of public operations, for every placement and every draw, keeps all five structures in agreement, fires no ASSERT and stays within capacity. |
| BookRuns.PromotionLosesAtMostOne | src/infra/network/addressbook.cpp:498-541 | Promotion loses at most one entry, a third party whose only slot was the one the evicted entry falls back to; the promoted ends in tried, the evicted in new. |
| BookRuns.BystanderOfPromotion | src/infra/network/addressbook.cpp:498-541 | Any other entry is touched exactly when it owns that slot. |
| BookRuns.TriedShareOfGroup | src/infra/network/addressbook.cpp:635-662 | In every consistent book one address group holds at most 512 tried entries, for every hash and key. |
| Placing.SameGroup | src/infra/network/addressbook.cpp:664-684 | Two addresses are in one group exactly when family and /16 or /64 prefix agree. |
| Placing.BucketByGroups | src/infra/network/addressbook.cpp:604-633 | The new bucket depends on nothing but the groups of the address and of the source. |
| Placing.EndpointBytesInjective | src/infra/network/addresses.cpp:278-287 | Different endpoints are hashed as different bytes. |
| Addresses.RoutableV4 | src/infra/network/addresses.cpp:60-128 | An IPv4 address is routable exactly if it is in none of eleven ranges. |
| Addresses.RoutableV6 | src/infra/network/addresses.cpp:60-184 | An IPv6 address is routable exactly if it is not ::, ::1 or in one of four ranges. |
| Placing.SourceGroupSpread | src/infra/network/addressbook.cpp:604-633 | All that sources of one group advertise goes to at most 64 of the 1024 new buckets, for every hash and key. |
| Placing.TriedSlotReached | src/infra/network/addressbook.cpp:635-662 | A tried slot is one of the 8 buckets that its address group can reach. |
| Placing.TriedPerGroup | src/infra/network/addressbook.cpp:635-662 | Entries of one group occupy at most 8 tried buckets, so at most 512 slots. |
| StoredEntry.EntryRoundTrip | src/infra/network/addresses.cpp:518-538 | A stored entry is read back as it was if and only if its addresses are representable, its times, attempts and position fit 32 bits and its agent is not too long. |
| StoredEntry.EntryRange | src/infra/network/addresses.cpp:518-538 | Whatever is read is something that can be stored. |
| StoredEntry.EntryReads | src/infra/network/addresses.cpp:518-538 | What any stored entry is read as: refused for too long an agent, otherwise with truncated times and IPv4 for an IPv6 address with a zero first half. |
| StoredEntry.EntryLayout | src/infra/network/addresses.cpp:518-538 | Where each field of a stored entry is, byte by byte. |
| Storage.KeyLayout | src/infra/network/addressbook.cpp:412-458 | Keys are big-endian, those of slots with an N or a T in front. |
| StoredEntry.KeyOrder | src/infra/network/addressbook.cpp:423-426 | Big-endian keys are in lexicographic order exactly when their numbers are in order. |
| Storage.Save | src/infra/network/addressbook.cpp:382-473 | An empty book leaves the database alone; of any other each table holds exactly its part, the services up to the first record that cannot be written. |
| Storage.SaveServices | src/infra/network/addressbook.cpp:414-427 | The loop writes one record per entry under its big-endian id, and nothing else, up to the first record over the limit of a stream, where it ends. |
| Storage.SaveOrder | src/infra/network/addressbook.cpp:429-439 | The loop writes the random order under big-endian ordinals, and nothing else. |
| Storage.SaveBuckets | src/infra/network/addressbook.cpp:441-458 | The loops write the slots of both kinds under tagged big-endian keys, and nothing else. |
| Storage.AllServicesLoaded | src/infra/network/addressbook.cpp:307-325 | Reading the services table in cursor order gives back entries, positions and the endpoint index. |
| Storage.OrderLoaded | src/infra/network/addressbook.cpp:327-335 | Reading the order table in cursor order gives back the random order. |
| Storage.ServicesOrigin | src/infra/network/addressbook.cpp:313-324 | Whatever was saved, a loaded entry is the one its record is read as, and endpoints stay unique. |
| Storage.LastIsLargest | src/infra/network/addressbook.cpp:325-325 | The last id read is the largest. |
| Storage.LastSeen | src/infra/network/addressbook.cpp:307-325 | Whatever the table holds, the last id is that of the last record. |
| Restoring.BucketsLoaded | src/infra/network/addressbook.cpp:337-369 | Reading the buckets gives back both slot maps, all references and both counters, and no ASSERT fires. |
| Restoring.BucketRefused | src/infra/network/addressbook.cpp:337-368 | Exactly when a record of the buckets table, whatever it holds, runs into an ASSERT. |
| Restoring.Load | src/infra/network/addressbook.cpp:282-380 | The three loops compute what `Loaded` prescribes; a stored key of 16 bytes decides placement. |
| Restoring.LoadReads | src/infra/network/addressbook.cpp:282-473 | Loading a saved book gives the book that its records are read as, with the next id above all in use. |
| Restoring.LoadSaved | src/infra/network/addressbook.cpp:282-473 | Loading a saved book gives back every table; the next id is one above the largest id in use. |
| Restoring.LoadSavedExactly | src/infra/network/addressbook.cpp:282-473 | A saved book comes back if and only if each of its entries has a stored form that holds it. |
| Restoring.Reload | src/infra/network/addressbook.cpp:282-473 | A consistent storable book that the database holds is loaded as a consistent book with the same tables and key. |
| Recovery.LoadOutcome | src/infra/network/addressbook.cpp:282-473 | Loading a saved book runs into an ASSERT if and only if an agent is too long or two endpoints have the same wire form; otherwise it gives the stored form of the book, with the next id above all in use. |
| Recovery.ShortIsWritten | src/infra/network/addressbook.cpp:418-421 | If every agent can be read back, no record is too long and the whole book is written. |
| Recovery.RereadAgrees | src/infra/network/addressbook.cpp:282-373 | The stored form of a consistent book is in agreement if and only if every address is routable and every tried entry in its slot as they are read back. |
| Recovery.UnsettledAddress | src/core/serialization/stream.hpp:327-331 | ::10.0.0.1 is routable and is read back as 10.0.0.1, which is not. |
| Recovery.UnsettledBook | src/infra/network/addressbook.cpp:282-373 | One advertisement makes a consistent book that is read back but not in agreement. |
| Recovery.SameOnTheWire | src/core/serialization/stream.hpp:327-331 | 8.8.8.8 and ::8.8.8.8 are different routable addresses with one wire form. |
| Recovery.UnloadableBook | src/infra/network/addressbook.cpp:349-349 | Two advertisements make a consistent book whose saved form cannot be loaded. |
| Recovery.CursorOver | src/infra/network/addressbook.cpp:308-323 | The keys of a table in the order of a cursor. |
| Recovery.SaveBook | src/infra/network/addressbook.cpp:382-473 | Saving any consistent book, unless it is empty, leaves what can be written of it, and all of it if every record can be. |
| Recovery.SaveThenLoad | src/infra/network/addressbook.cpp:282-473 | Saving and then loading: it succeeds exactly for a loadable book and gives its stored form, in agreement exactly for a settled one; it gives back every table and the key, in agreement, if the entries are storable. |
| Subnet.BuildMask | src/infra/network/addresses.cpp:325-332 | The byte loops build the mask whose first p bits are set. |
| Subnet.CalculateBase | src/infra/network/addresses.cpp:437-474 | The base address is the address masked to p bits; too long a prefix or an invalid address is refused. |
| Subnet.Contains | src/infra/network/addresses.cpp:310-350 | The loops decide membership: a valid subnet, a proper address, same family, masked address equal to the base. |
| Subnet.BaseBits | src/infra/network/addresses.cpp:437-466 | The base has the first p bits of the address and zeros after them. |
| Subnet.SameBase | src/infra/network/addresses.cpp:437-466 | Two addresses have the same base exactly when their first p bits agree. |
| Subnet.BaseOfBase | src/infra/network/addresses.cpp:437-466 | The base of a base is the base of the shorter prefix. |
| Subnet.Membership | src/infra/network/addresses.cpp:315-345 | An address is a member exactly when it agrees on the prefix and the subnet was given by its base address. |
| Subnet.NoMembers | src/infra/network/addresses.cpp:352-378 | 10.1.2.3/8 is valid and has no members, itself included. |
| Subnet.ParseMask | src/infra/network/addresses.cpp:391-418 | The loop accepts exactly the octets that look like a mask and answers the number of bits set. |
| Subnet.MaskIsPrefix | src/infra/network/addresses.cpp:391-418 | That number is the prefix length of the mask if and only if the mask is contiguous. |
| Subnet.BrokenMask | src/infra/network/addresses.cpp:401-416 | 255.128.255.0 is accepted as 17 bits. |
| Stream.DataStream.Write | src/core/serialization/stream.cpp:50-54 | Appending fails without effect beyond the size limit, and otherwise extends the unread part. |
| Stream.DataStream.Read | src/core/serialization/stream.cpp:99-105 | Reading takes exactly the requested bytes off the front, or fails leaving the cursor. |
| Stream.DataStream.Ignore | src/core/serialization/stream.cpp:107-107 | Skipping stops at the end of the buffer. |
| Stream.DataStream.Seek | src/core/serialization/stream.cpp:113-116 | Seeking stops at the end of the buffer. |
| Stream.DataStream.Rewind | src/core/serialization/stream.cpp:62-68 | Rewinding further than the cursor has come does nothing. |
| Stream.DataStream.Erase | src/core/serialization/stream.cpp:85-95 | Erasing a range takes its parts out of the consumed and of the unread bytes, moving the cursor accordingly. |
| Stream.DataStream.Consume | src/core/serialization/stream.cpp:120-124 | Consuming drops read bytes only. |
| Stream.DataStream.Resize | src/core/serialization/stream.cpp:44-48 | Resizing keeps the cursor within the buffer exactly when it does not shrink below the cursor. |
| Stream.DataStream.GetClear | src/core/serialization/stream.cpp:137-143 | Moving the unread bytes out appends them to the target and empties the source, or fails. |
| Codec.CompactRoundTrip | src/core/serialization/serialize.hpp:50-112 | Reading a written compact size gives the value and leaves what follows. |
| Codec.CompactCanonical | src/core/serialization/serialize.hpp:165-196 | Every accepted encoding is the one written for its value, of the computed size. |
| Codec.StringRoundTrip | src/core/serialization/stream.hpp:276-303 | A string is read back exactly if it is not longer than the largest compact size. |
| Codec.FromLEOfLE | src/core/serialization/serialize.hpp:58-63 | Little-endian integers of any width are read back. |
| Codec.ItemsRoundTrip | src/infra/network/payloads.cpp:167-186 | Items that survive one by one survive in sequence. |
| Serialization.PutCompact | src/core/serialization/serialize.hpp:88-112 | The write branches append the compact form. |
| Serialization.GetCompact | src/core/serialization/serialize.hpp:165-196 | The read branches follow the reading function, errors included. |
| Payloads.AddressRoundTrip | src/core/serialization/stream.hpp:305-337 | An address survives the wire if and only if it is IPv4, or IPv6 with a nonzero first half. |
| Payloads.EndpointRoundTrip | src/infra/network/addresses.cpp:289-297 | An endpoint survives exactly when its address does. |
| Payloads.NodeServiceRoundTrip | src/infra/network/addresses.cpp:498-507 | A service survives exactly when its time fits 32 bits and its address is representable. |
| Payloads.VersionRoundTrip | src/infra/network/payloads.cpp:64-79 | A version with nonnegative time and height and representable addresses is read back, with what follows left over. |
| Payloads.AddrRoundTrip | src/infra/network/payloads.cpp:167-186 | 1 to 1000 advertised services are read back, with what follows left over. |
| Payloads.InventoryRoundTrip | src/infra/network/payloads.cpp:208-228 | 1 to 50,000 inventory items are read back, with what follows left over. |
| Payloads.GetHeadersRoundTrip | src/infra/network/payloads.cpp:123-149 | What is written is read back exactly up to 160 hashes; beyond that it is refused. |
| WireFormat.AddressLayout | src/core/serialization/stream.hpp:305-322 | An IPv4 address is ten zeros, two bytes 0xFF and its four bytes, most significant first; an IPv6 address is its 16 bytes. |
| WireFormat.EndpointLayout | src/infra/network/addresses.cpp:289-297 | An endpoint is its address and its port, most significant byte first. |
| WireFormat.ServiceLayout | src/infra/network/addresses.cpp:498-507 | A service is 30 bytes: time and services little-endian, address, port. |
| WireFormat.CountLayout | src/core/serialization/serialize.hpp:50-112 | A compact size is one byte up to 252, or a marker 253, 254 or 255 and two, four or eight bytes. |
| WireFormat.StringLayout | src/core/serialization/stream.hpp:276-287 | A string is its length as a compact size and its bytes. |
| WireFormat.VersionLayout | src/infra/network/payloads.cpp:64-79 | The fields of a version and where they are, signed numbers in two's complement. |
| WireFormat.AddrLayout | src/infra/network/payloads.cpp:167-186 | An addr payload is written for 1 to 1000 services, the count and then each in its 30 bytes. |
| WireFormat.InventoryLayout | src/infra/network/payloads.cpp:208-228 | An inventory is written for 1 to 50,000 items, the count and then each in 36 bytes, type first. |
| WireFormat.GetHeadersLayout | src/infra/network/payloads.cpp:123-149 | A locator is written for 1 to 2000 hashes: version, count, hashes, stop hash. |
| WireFormat.PingLayout | src/infra/network/payloads.cpp:119-121 | A ping or pong is its nonce, little-endian. |
| WireFormat.RejectLayout | src/infra/network/payloads.cpp:243-287 | A rejection is command, code, reason and data, within the lengths allowed. |
| WireFormat.RejectWritten | src/infra/network/payloads.cpp:243-287 | A rejection can be written exactly if its command is known and its reason at most 256 bytes. |
| WireFormat.InventoryItemReads | src/core/types/inventory.cpp:37-54 | What is read as an inventory item is 36 bytes whose type is at most 3, laid out as written; another type is refused. |
| Serialization.PutVersion | src/infra/network/payloads.cpp:64-79 | The sequence of writes appends the encoded version. |
| Serialization.GetVersion | src/infra/network/payloads.cpp:64-79 | The sequence of reads follows the reading function, with its precedence of errors. |
| Serialization.PutAddr | src/infra/network/payloads.cpp:167-186 | The loop appends the encoded vector, or fails. |
| Serialization.GetAddr | src/infra/network/payloads.cpp:167-186 | The loop reads the vector, or fails as the reading function does. |
| Serialization.PutInventory | src/infra/network/payloads.cpp:208-228 | The loop appends the encoded vector, or fails. |
| Serialization.GetInventory | src/infra/network/payloads.cpp:208-228 | The loop reads the vector, or fails as the reading function does. |
| Serialization.PutGetHeaders | src/infra/network/payloads.cpp:123-149 | The loop appends the encoded locator, or fails. |
| Serialization.GetGetHeaders | src/infra/network/payloads.cpp:123-149 | The loop reads the locator, or fails as the reading function does. |
| PayloadTypes.Serialize | src/infra/network/payloads.cpp:29-62 | Every payload type appends its encoding, or fails with its error. |
| PayloadTypes.Deserialize | src/infra/network/payloads.cpp:29-62 | Every message type is read as its decoding prescribes. |
| PayloadTypes.PayloadRoundTrip | src/infra/network/payloads.cpp:64-287 | A payload that could be written is read back as it was if and only if it is faithful. |
| PayloadTypes.RejectRoundTrip | src/infra/network/payloads.cpp:243-287 | A rejection is read back except for its code, which becomes zero. |
| PayloadTypes.HeadersUnread | src/infra/network/payloads.cpp:29-62 | No headers payload is read, whatever its bytes. |
| PayloadTypes.RejectionCodes | src/infra/network/protocol.hpp:68-88 | The rejection codes, one by one. |
| Protocol.LookUpType | src/infra/network/protocol.cpp:55-62 | The loop finds the first type with that label. |
| Protocol.CommandsAgree | src/infra/network/protocol.cpp:32-53 | The commands of the definition table are the labels derived from the enumerators, for all 13 types. |
| Protocol.CommandRoundTrip | src/infra/network/message.cpp:45-51 | The command field written for a type is recognised as that type. |
| Protocol.VectorMinimum | src/infra/network/messages.hpp:43-149 | A vectorized payload of minimum length always holds its count. |
| Chunks.RepeatsAreTheSurplus | src/core/common/misc.cpp:121-138 | Without a cap, the duplicates are the chunks minus the distinct chunks. |
| Chunks.CountDuplicates | src/core/common/misc.cpp:121-138 | The loop counts repeated chunks, up to the cap. |
| Framing.FullIsDecided | src/infra/network/message.cpp:204-275 | A payload that is all there is never found incomplete. |
| Framing.FatalPersists | src/infra/network/message.cpp:116-124 | A verdict that is fatal on part of a message is fatal on every extension. |
| Framing.BadExtends | src/infra/network/message.cpp:158-189 | A broken stream front stays broken whatever follows. |
| Framing.WholeExtends | src/infra/network/message.cpp:158-189 | A whole message at the front stays the same whatever follows. |
| Framing.MoreBeforeWhole | src/infra/network/message.cpp:158-189 | No proper part of a message that becomes whole is broken or whole. |
| Framing.VerdictIsFront | src/infra/network/message.cpp:116-124 | The verdict on the buffer is what the framing of the stream says. |
| Framing.AcceptedVector | src/infra/network/message.cpp:204-275 | An accepted fixed-size vector has 1 to max items, exactly its length, and pairwise distinct items. |
| Framing.BuiltHeader | src/infra/network/message.cpp:126-156 | What the receiver parses from a built header is what the sender put there. |
| Framing.BuiltIsFramed | src/infra/network/message.cpp:126-156 | A message that passes its own validation is framed whole by the peer, with what follows left over. |
| FrameFormat.WholeExactly | src/infra/network/message.cpp:61-124 | The front of a stream is a whole message of n bytes if and only if these bytes have the magic, a known command, the length, the first four bytes of the hash of the payload, and a payload that the type allows. |
| FrameFormat.HeaderExactly | src/infra/network/message.cpp:61-94 | A header is accepted if and only if magic, command, length and, without payload, checksum are right. |
| FrameFormat.VectorExactly | src/infra/network/message.cpp:241-275 | A vector is accepted if and only if there is a count within bounds, the length is that of so many items, and all items differ. |
| FrameFormat.HeaderRefused | src/infra/network/message.cpp:61-94 | Exactly when a complete message is refused for its magic, its command or its length. |
| FrameFormat.ChecksumRefused | src/infra/network/message.cpp:229-239 | A complete message is refused for its checksum if and only if it would be whole with the right one. |
| FrameFormat.ItemsRefused | src/infra/network/message.cpp:204-275 | Exactly when a complete payload is refused for an empty vector, too many items, a length that does not match, or repeated items. |
| FrameFormat.TypeIs | src/infra/network/protocol.cpp:55-62 | A command is of a type if and only if it is the name of the type in ASCII filled up with zeros. |
| Messages.Message.ValidateHeader | src/infra/network/message.cpp:191-202 | Header validation parses the 24 bytes and agrees with the header check. |
| Messages.Message.ValidateVector | src/infra/network/message.cpp:241-275 | Vector validation agrees with the check on the part that has arrived. |
| Messages.Message.ValidatePayload | src/infra/network/message.cpp:204-239 | Payload validation agrees with the check on the part that has arrived, and puts the cursor back. |
| Messages.Message.Validate | src/infra/network/message.cpp:116-124 | The verdict depends on the buffered bytes only. |
| Messages.Message.TakeChunk | src/infra/network/message.cpp:165-187 | One pass of the loop takes at least one byte and never runs past the message. |
| Messages.Message.Write | src/infra/network/message.cpp:158-189 | However a stream is cut, what a call answers, takes and leaves is what the framing of all bytes so far prescribes; it terminates. |
| Messages.Message.Push | src/infra/network/message.cpp:126-156 | A pushed payload becomes a complete message that passes the receiver's own validation, or the error is that of encoding or of validation. |
| Messages.Assemble | src/infra/network/message.cpp:158-189 | A message arriving in any parts ends up complete with the same header, type and payload. |
| Handshake.EveryRunOrderly | src/node/network/node.cpp:571-650 | Over every interleaving the status word is the set of accepted handshake messages, each accepted once, a version first, completion announced once. |
| Handshake.OthersNeedTwo | src/node/network/node.cpp:639-642 | Other messages pass exactly when at least two handshake messages have. |
| Handshake.ExchangeGap | src/node/network/node.cpp:639-642 | The intended rule, both versions first, is missed exactly in states 5, 6, 9, 10, 13 and 14. |
| Handshake.ExchangeGapWitness | src/node/network/node.cpp:639-642 | A ping passes after our version and our verack alone. |
| Handshake.FlagBits | src/node/network/node.hpp:87-96 | The bit tests of the original read and set one flag. |
| Handshake.Refused | src/node/network/node.cpp:571-650 | Exactly which messages are refused and with which error: a handshake message the second time as duplicate, any other before its time as invalid. |
| Processing.RefusalIsFinal | src/node/network/node.cpp:443-456 | A refused message is never taken for an unfinished one. |
| Processing.DecodedType | src/infra/network/payloads.cpp:29-62 | A decoded payload is of the announced type. |
| Processing.Precedence | src/node/network/node.cpp:409-456 | Being out of order comes before a broken payload, that before flooding. |
| Receive.FloodLimit | src/node/network/node.cpp:431-431 | The limit of 32 messages per read changes nothing while it is kept, and otherwise cuts off exactly what exceeds it, as flooding. |
| Receive.DrainSplits | src/node/network/node.cpp:393-460 | A stream read in two parts yields what it yields read at once. |
| Receive.ReadsAreContinue | src/node/network/node.cpp:204-234 | Reads that do not flood are one read of their concatenation. |
| Receive.SegmentationIndependence | src/node/network/node.cpp:393-460 | Two ways of cutting a stream, neither flooding, give the same messages, actions and outcome, with the same error for a refused message. |
| Receive.StreamAnswers | src/node/network/node.cpp:462-569 | Over any stream each ping is answered by one pong with its nonce, in order; a version is taken at most once and is what a verack answers. |
| Receive.PongAccepted | src/node/network/node.cpp:530-544 | A pong is accepted if and only if a sample is pending and its nonce is the one remembered. |
| Receive.PongsAreAwaited | src/node/network/node.cpp:530-544 | Over any stream during which no ping goes out at most one pong is let through, and only the answer to our own ping; while the session is open it is let through or still awaited. |
| Receive.Refusals | src/node/network/node.cpp:462-545 | Exactly which payloads are refused and with which error. |
| Hub.ProcessHands | src/node/network/node.cpp:462-570 | What one payload hands to the hub: nothing of a verack, ping, pong or surplus request, the previous version of a version, anything else as it is. |
| Hub.StreamHands | src/node/network/node.cpp:393-570 | Over every stream the hub gets exactly that of the messages let through, in order. |
| Hub.StreamPushes | src/node/network/node.cpp:462-530 | Over every stream the answers pushed are exactly our version unless it was sent, and a verack, for a version, and a pong for a ping, in order. |
| Receive.RequestsHanded | src/node/network/node.cpp:522-529 | Over any stream on an inbound connection the address requests that reach the hub are the first two of the session, and all of them on an outbound one. |
| Receive.HubIsToldThePrevious | src/node/network/node.cpp:488-511 | Over any stream the hub is told of a version exactly when one is taken, and it is told the one remembered before, never the one received. |
| Outbox.ThirdRequestIgnored | src/node/network/node.cpp:522-529 | Of three requests in a row the second still reaches the hub and the third is the first that does not. |
| Outbox.PongPacks | src/node/network/node.cpp:517-521 | The answer to a ping is never refused. |
| Outbox.PackedUnpacks | src/node/network/node.cpp:366-386 | The peer reads a packed payload back as it was if and only if it is faithful. |
| Outbox.WireIsDelivered | src/node/network/node.cpp:393-460 | Of any part of a sequence of messages the peer takes exactly the complete ones, in order; it stops only at one its session does not let through. |
| Outbox.FramesAgree | src/node/network/node.cpp:393-460 | Whole frames that make up the start of a sequence of messages are those messages. |
| Nodes.Pack | src/node/network/node.cpp:366-386 | A payload is packed exactly when it can be encoded and validates. |
| Nodes.Node.CheckHandshake | src/node/network/node.cpp:571-650 | The check answers and changes the status as the handshake prescribes, and announces completion on the last flag. |
| Nodes.Node.PushMessage | src/node/network/node.cpp:366-386 | A packed payload is queued, a refused one is not; everything else stays. |
| Nodes.Node.ProcessInbound | src/node/network/node.cpp:462-569 | Session, queue and hub see exactly the actions prescribed for the payload, or nothing on an error; for a version the hub is given the previous one. |
| Nodes.Node.HandleComplete | src/node/network/node.cpp:408-442 | A complete message is checked, decoded, counted and processed as prescribed. |
| Nodes.Node.ParseMessages | src/node/network/node.cpp:393-460 | Messages delivered, queued, forwarded and left pending, and the error of a refused one, are those of draining the pending and the new bytes together. |
| Nodes.Node.Turn | src/node/network/node.cpp:398-457 | One turn of the loop is one step of draining, and keeps the records of what arrived and what was let through. |
| Nodes.CountedDelivery | src/node/network/node.cpp:462-569 | A message let through keeps the books: no more pongs than pings sent, requests counted and at most two handed on, no version but the blank one told. |
| Nodes.Node.OnPingTimer | src/node/network/node.cpp:138-154 | A ping is pushed and its nonce remembered, unless one has been sent and not answered or the node is not running. |
| Nodes.Node.LoadBarrel | src/node/network/node.cpp:242-262 | A message copied out completely is replaced by a top of the queue; any other stays. |
| Nodes.LowFirst | src/node/network/node.hpp:228-235 | What is at the top of the queue: a low-priority message if there is one, a high-priority one only if there is no other. |
| Nodes.Node.CheckLoaded | src/node/network/node.cpp:264-304 | A message is checked once, before its first byte; a refused one is dropped and the session is to end. |
| Nodes.Node.CopyOut | src/node/network/node.cpp:306-311 | The next piece of at most 16 KiB is copied, nothing skipped or repeated. |
| Nodes.Node.StartWrite | src/node/network/node.cpp:236-324 | Queue, wire, send buffer and barrel stay conserved; a message is taken and checked exactly when the barrel is empty; at most 16 KiB are copied. |
| Nodes.Node.HandleWrite | src/node/network/node.cpp:326-364 | Bytes taken by the socket move from the buffer to the wire, for every partial write; conservation is kept. |
| Nodes.Node.WireIsPrefix | src/node/network/node.cpp:236-364 | The wire is always a prefix of the messages let out, and all of them when nothing is buffered; they are the ones the handshake let out. |
| Sessions.RunNode | src/node/network/node.cpp:191-570 | Whatever happens to a node in whatever order: conservation, handshake order, single announcement, arrived bytes are the messages let through, pongs at most pings sent; every message let through or sent is whole by its bytes and read as its type says; the hub has exactly what the messages let through hand to it. |
| Sessions.StreamAuthentic | src/node/network/node.cpp:393-460 | Every message that a stream yields is whole by its bytes, checksum included, and its payload is what its type is read as. |
| Sessions.OverlappingTimers | src/node/network/node.cpp:138-151 | Two timers before the first ping is written: the honest answer to that ping is accepted only if both nonces are the same. |
| Pings.HonestPong | src/node/network/node.cpp:530-544 | In a session whose pings are in step, a pong is accepted if and only if it answers the last ping sent and that has not been answered. |
| Pings.TimerInStep | src/node/network/node.cpp:138-151 | The timer keeps the pings in step if no ping is queued. |
| Pings.TakenInStep | src/node/network/node.cpp:236-312 | Taking any message from the queue, sent or refused, keeps the pings in step. |
| Pings.ReadInStep | src/node/network/node.cpp:393-460 | Any bytes that leave the session open keep the pings in step. |
| Pings.RunInStep | src/node/network/node.cpp:138-460 | Over every run of a node whose timer does not expire while a ping is queued, until a read fails, the pong accepted is the answer to the last ping sent, exactly as long as it has not come. |
| Sessions.ReadAll | src/node/network/node.cpp:204-234 | The reads of a connection amount to the sequence of drains. |
| Sessions.EndToEnd | src/node/network/node.cpp:236-460 | What one node dequeues is what another frames, in order, for any segmentation that does not flood; it stops only at a message it refuses, with that error. |
| Sessions.PayloadsArrive | src/node/network/node.cpp:236-460 | For every node and any segmentation that does not flood, the i-th payload that arrives is the i-th payload let out if and only if the wire format can carry it. |
| Sessions.Conversation | src/node/network/node.cpp:204-460 | Two nodes living freely: if what arrived at one is a prefix of what the other has put on the wire, the messages let through are those sent, in order, with their payloads exactly where the wire format can carry them, and none complete is held back. |
| Radix.ConvertBack | src/core/encoding/base58.cpp:36-105 | Converting digits between two bases and back is the identity, leading zeros included. |
| Base58.Encode | src/core/encoding/base58.cpp:36-64 | The loops compute the base conversion of the bytes; more than 1 KiB is refused. |
| Base58.Decode | src/core/encoding/base58.cpp:76-105 | The loops compute the base conversion of the text; a foreign character is refused. |
| Base58.DecodeEncode | src/core/encoding/base58.cpp:36-105 | Decoding undoes encoding for all inputs up to 1 KiB. |
| Base58.EncodeDecode | src/core/encoding/base58.cpp:36-105 | Encoding undoes decoding for all texts that decode within 1 KiB. |
| Base58.EncodedLength | src/core/encoding/base58.cpp:50-50 | The encoded length is at most n * 138 / 100 + 1. |
| Base58.EncodeCheck | src/core/encoding/base58.cpp:66-74 | The checked form encodes the input followed by four bytes of its digest. |
| Base58.DecodeCheck | src/core/encoding/base58.cpp:107-122 | The checked form is split, and refused when too short or when the digest differs. |
| Base58.DecodeEncodeCheck | src/core/encoding/base58.cpp:66-122 | For every digest the checked forms undo each other. |
| Base58.AcceptedIsEncoded | src/core/encoding/base58.cpp:66-122 | A text is accepted with a result exactly when it is the checked encoding of that result. |
| Hex.Encode | src/core/encoding/hex.cpp:108-121 | The loop fills the buffer with two digits per byte after the prefix. |
| Hex.Decode | src/core/encoding/hex.cpp:123-174 | The unrolled decoder agrees with digit-by-digit decoding on every input. |
| Hex.DecodeFour | src/core/encoding/hex.cpp:148-164 | The or-combined tests find a bad digit exactly when there is one. |
| Hex.DecodeEncode | src/core/encoding/hex.cpp:108-174 | Decoding undoes encoding, with and without prefix. |
| Hex.EncodeDecode | src/core/encoding/hex.cpp:108-174 | Encoding undoes decoding up to prefix, case and a missing leading zero. |
| Hex.ReverseHex | src/core/encoding/hex.cpp:78-98 | The loop reverses the digit pairs and keeps the prefix. |
| Hex.ReverseDecodes | src/core/encoding/hex.cpp:78-98 | Reversing a decodable text reverses its bytes. |
| Hex.StrippedIs | src/core/encoding/hex.hpp:32-37 | A prefix 0x or 0X is dropped, and nothing else. |
| LockedPages.Manager.LockRange | src/core/common/memory.hpp:58-78 | The pages before the first refusal, each of them counted already or granted, get one more lock each; all of them exactly if the answer is true, and otherwise the next page was refused. For every range on which the loop ends. |
| LockedPages.Manager.UnlockRange | src/core/common/memory.hpp:81-100 | The pages before the first refusal, each of them not at its last lock or granted, lose one lock each; all of them exactly if the answer is true, and otherwise the next page was refused. For every range on which the loop ends. |
| LockedPages.Manager.LockPage | src/core/common/memory.hpp:64-75 | The system is asked only for a page without locks; a count is never below one. |
| LockedPages.Manager.UnlockPage | src/core/common/memory.hpp:87-98 | The system is asked only when the last lock goes; a refused unlock keeps the count. |
| LockedPages.Manager.Contains | src/core/common/memory.hpp:115-118 | Containment is of the page that holds the address. |
| LockedPages.Manager.Clear | src/core/common/memory.hpp:121-130 | Only pages whose unlock is refused stay. |
| LockedPages.PageOf | src/core/common/memory.hpp:139-144 | Masking an address gives the start of its page. |
| LockedPages.LoopEnds | src/core/common/memory.hpp:62-63 | The wrapping page counter ever passes the end if and only if the end is not in the last page of the address space. |
| LockedPages.RangeEnds | src/core/common/memory.hpp:58-63 | The page counter of a call passes its last page if and only if the range does not end in the last page of the address space. |
| LockedPages.EndlessRange | src/core/common/memory.hpp:63-63 | A call for one byte at the start of the last page of 4096 bytes: its page counter never passes the end. |
| PageHistory.LockStopIs | src/core/common/memory.hpp:63-75 | The number of pages a lock obtains is that of the pages that pass before the first that does not. |
| PageHistory.UnlockStopIs | src/core/common/memory.hpp:86-98 | The same for an unlock. |
| PageHistory.LockBalanced | src/core/common/memory.hpp:58-78 | Whatever part of a range is locked, counts that were right stay right. |
| PageHistory.UnlockBalancedExactly | src/core/common/memory.hpp:81-100 | Counts that were right stay right over an unlock if and only if none of the pages it goes through beyond those its lock obtained is counted for anyone. |
| PageHistory.FullIsClean | src/core/common/memory.hpp:58-100 | That is so for every lock that was obtained in full. |
| PageHistory.AlwaysBalanced | src/core/common/memory.hpp:58-100 | Over any calls and any answers of the system a page is counted, all the time, as often as what is outstanding covers it, if and only if every unlock is of that kind. |
| PageHistory.RefusedThenUnlocked | src/core/common/secure_bytes.hpp:42-57 | It is not so of every history: a lock refused on its second page and then unlocked in full takes away the lock another caller holds there. |
| PageHistory.Make | src/core/common/memory.hpp:58-100 | A call of the manager leads to the counts, and to the locks to be undone, that the history prescribes. |
| PageHistory.RunLocks | src/core/common/memory.hpp:58-100 | A manager run over any calls and answers has exactly the counts of their history; if its unlocks take no lock but their own, pages are counted as often as what is outstanding covers them, and nothing is once nothing is outstanding. |

## Left out

- AddressBook.Book.SelectRandom: takes the outcome of the chance test of each attempt as given, because the chance is computed in floating point.
- Nodes.Node.ParseMessages: states the error of a refused message but not that of a broken frame, because with messages over 4 MiB the latter depends on how the stream was cut.
- LockedPages.Manager.LockRange: excludes ranges that end in the last page of the address space, because the loop of the original does not end there (`LockedPages.RangeEnds`).
- LockedPages.Manager.UnlockRange: excludes the same ranges for the same reason.
- Subnet.CalculateBase: excludes an IPv4 prefix of zero, because the original then shifts a 32-bit word by 32 places, which has no defined result.
- Subnet.ParseMask: models the octets of a dotted mask, not the regular expressions that find them.
- Hex.Decode: builds its result by appending instead of filling a buffer of known size; the two lookup tables are functions.
- Restoring.Reload: starts from a database that holds the book; `Recovery.SaveThenLoad` also writes it.
- Recovery.SaveThenLoad: assumes ids below 2^32, because the ids of the model do not wrap around.
- Receive.PongsAreAwaited: is about a stream without outgoing pings; `Pings.RunInStep` is about whole sessions.
- PageHistory.RunLocks: skips unlocks that no lock calls for, and ranges on which the loop does not end.
- Storage.Save: takes a record as unwritable when it exceeds the limit of a stream; failures of the database itself are not modelled.
- The `erase_unreferenced_entry = false` form of `clear_new_slot`, which no caller uses.
- Aliasing between entry pointers and the entry list: entries are values under their ids, and `random_pos_` is kept in a map of its own.
- What `on_handshake_completed` does beyond being announced once: timers and the first address request.
- Ping averages, traffic meters, idle and handshake timeouts, logging.
- NodeHub: connection counts and limits depend on coroutines that the code does not serialise.
- Sockets, TLS, DNS, NTP, command line and file system.
- The database wrappers: a table is a map, and a cursor visits its keys in lexicographic order.
- Hash functions, MACs, base64 and big-integer import and export.
- Selection probabilities (`get_chance`) and human-readable sizes: floating point.
- Small containers (`CappedSet`, `UniqueQueue`, `ObjectPool`), which would only add easy members.
- Text forms of addresses and endpoints.
- `headers` payloads, which no handler of the source decodes, and the size computation of streams.
