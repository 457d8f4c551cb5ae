# tapi2p: a verified model

tapi2p is a friend-to-friend chat and file-sharing core written in C. Peers hold
outgoing, incoming or two-way connections to each other, talk in events that travel in
sealed envelopes, and exchange files in parts of 512 kB. This project models that core in
Dafny and proves what it keeps in every run.

The model follows the code as it is written. Where a property one would expect does not
hold of the code, there is a concrete counterexample and the exact condition under which
the property does hold; where it holds, it is proved for all inputs.

Layers, each a module in the file of its name:

- `PeerTable`, `PeerManager`, `SweepRuns`: the doubling peer array, its sweep cursor and
  lock, and the descriptor sets. The class works on the array in place; the table is its
  specification.
- `Connections`, `ConnectionRuns`, `ConnectionStatus`, `ConnectionEffects`,
  `DescriptorSets`, `PtrList`: the accept, connect and read steps as a state machine, what
  each step leaves behind, and what holds over its runs.
- `Bytes`, `Cipher`, `Aes`, `Events`, `Framing`, `Reader`, `MessageCodec`: from bytes over
  CBC, padding and envelopes to a stream that is read in arbitrary chunks.
- `FileParts`, `Metadata`, `Reassembly`, `TransferSlots`, `TransferStatus`, `Node`,
  `TwoNodes`, `WireTransfer`: cutting files, metadata, slots with locks, whole transfers,
  and whole transfers over sealed byte streams.
- `Listeners`, `PipeManager`: callback tables and user-interface connections.
- `LineEditor`: the input line of the curses interface.

## Where the code falls short of its promise

Each of these has a counterexample or an if-and-only-if result below.

- Removing a peer that a running sweep has already returned makes the sweep skip another
  one (`PeerTable.RemovalDuringSweep`).
- The pointer list keeps only its last item, so of several connections that end in one
  pass only one is removed (`PtrList.ShowsAllIff`, `ConnectionRuns.DeferredRemovalIff`).
- The descriptor sets keep stale descriptors after an outgoing-only connection ends and
  after a repeated incoming connection (`DescriptorSets.StepExact`).
- A peer whose first key check fails and whose second passes is reported "ok" without an
  outgoing descriptor (`ConnectionStatus.StepTruthful`).
- The body loop asks for the whole body each time and loses bytes of the next envelope
  unless a chunk ends where the body ends (`Framing.WholeIsExactIff`).
- Of a file's later parts only those can be requested successfully that are equal to part
  0 and whose 32-bit offset wraps to 0, and a metadata file must fit one part
  (`FileParts.RequestedPartIff`, `Metadata.StoredIff`).
- A receiving transfer leaves its slot unlocked, so the next request can take it; a
  metadata transfer unlocks twice (`TransferSlots.StepIff`, `ReleasedOnceIff`).
- A part sender's file is open for writing and unlocked before it is cleared: a part that
  comes then overwrites the shared file and may compare with a NULL hash
  (`Node.SharedKeptIff`, `Node.MeetsNullIff`).
- A file of more than 2^32 bytes does not arrive (`Reassembly.CompleteIff`).
- A receiving transfer whose file cannot be opened leaves its record in a slot without a
  stream (`TransferSlots.StepTidyIff`).
- An empty last part is never counted, so a transfer whose size is a whole number of parts
  never shows all parts ready (`TwoNodes.ReadyReachesCountIff`).
- Once 255 connections of user interfaces have been added in all, a further one is written
  behind the pipe table as soon as any of them has ended (`PipeManager.InsideIff`,
  `PipeManager.AddBehindIff`).
- After the pipe with the largest descriptor is removed, the maximum is a slot number
  (`PipeManager.RunBoundedIff`, `PipeManager.HighRunBoundedIff`).
- Data of 2^31 bytes and more on a pipe reads as a failure (`Events.PipeRoundTrip`).

`Framing.Missing` is the one variant the code does not have: a receive loop that asks for
what is missing. `Framing.Whole` is the code's.

## Model

| member | source | states |
|---|---|---|
| `PeerTable.FirstOtherIsFirst` | core/peermanager.c:145-162 | The scan returns the lowest entry, other than the given one, with the same address and port, and NULL exactly when there is none |
| `PeerTable.LookupIsTransparent` | core/peermanager.c:164-174 | Looking a peer up by inserting and removing a scratch entry returns the first peer with that address and port, or none exactly when there is none (always none for port 0), and leaves peers, order, sweep cursor, lock depth and descriptor sets as they were, wherever a sweep stands |
| `PeerTable.LookupByAddress` | core/peermanager.c:145-174 | With the address itself: an address of at most 16 characters is looked up in full, of a longer one the first 16 characters count |
| `PeerTable.ScratchIsRemoved` | core/peermanager.c:192-212 | The byte comparison of the removal selects the scratch entry itself, because its key handle is fresh (crypto/key.c:6) |
| `PeerTable.RemovalKeepsOrder` | core/peermanager.c:192-212 | Removing a peer takes out the first entry equal to it, keeps all others in order and the table well formed; no equal entry is left when its key handle is a real one |
| `PeerTable.RemovalDuringSweep` | core/peermanager.c:199-206 | A removal leaves a running sweep with exactly the peers it still owes if and only if the removed entry is not behind the cursor or the cursor stands at the end |
| `PeerTable.RemovalSkipsAPeer` | core/peermanager.c:204-205 | A concrete sweep that never returns the third of three peers, because the first was removed behind the cursor |
| `PeerTable.NewPeerEntry` | core/peermanager.c:44-47 | A new entry comes last, with a key handle of its own and nothing else set |
| `PeerTable.Registers` | core/peermanager.c:105-143 | Each set gets the descriptor of its own direction, or else the only one there is, and a peer without descriptors changes nothing |
| `PeerTable.NextLocks` | core/peermanager.c:176-190 | The sweep releases and takes the lock once: after a returned peer it is held as before but at least once, after the end once less |
| `PeerManager.PeerManager.Grow` | core/peermanager.c:32-43 | Doubling gives a new allocation of twice the size with the same peers in it |
| `PeerManager.PeerManager.PeerNew` | core/peermanager.c:28-48 | Appends one initialised entry, keeping all others; the capacity doubles exactly when the table was full |
| `PeerManager.PeerManager.PeerExists` | core/peermanager.c:145-162 | The loop over the array computes the first matching entry of the ordered table |
| `PeerManager.PeerManager.ShiftTail` | core/peermanager.c:200-203 | After the move the live entries are the old ones without the deleted one, in order |
| `PeerManager.PeerManager.DeleteEntry` | core/peermanager.c:199-206 | Deletion in place is deletion from the ordered table, cursor adjustment included |
| `PeerManager.PeerManager.PeerRemove` | core/peermanager.c:192-212 | Removes the first entry equal to the given struct and reports whether there was one |
| `PeerManager.PeerManager.PeerExistsSimple` | core/peermanager.c:164-174 | The insert-search-remove sequence over the array is the lookup whose transparency is proved for the table |
| `PeerManager.PeerManager.PeerNext` | core/peermanager.c:176-190 | One step of the sweep: next entry, cursor and lock depth, and the reset at the end |
| `PeerManager.PeerManager.PeerAddToSet` | core/peermanager.c:105-143 | Registers the descriptors a peer is written to and read from, updates both maxima, and fails exactly for a peer without descriptors |
| `PeerManager.PeerManager.PeerUpdateSet` | core/peermanager.c:93-103 | Clears the outgoing descriptor from both sets and registers the peer again |
| `PeerManager.PeerManager.PeerRemoveFromSet` | core/peermanager.c:66-75 | Clears both descriptors from the write set and only the incoming one from the read set |
| `PeerManager.PeerManager.CheckPeerKey` | core/core.c:239-283 | A good key is recorded with the new incoming descriptor; any other frees the key and marks the peer invalid |
| `PeerManager.PeerManager.Accept` | core/core.c:331-426 | An accepted connection upgrades the entry of its endpoint or appends one, checks the key, connects back and registers, as the table-level step says |
| `PeerManager.PeerManager.Connect` | core/core.c:572-603 | The connect loop adds an outgoing-only entry for an endpoint that is not in the table, and registers it before the key is checked |
| `PeerManager.PeerManager.CollectDead` | core/core.c:455-470 | A full sweep clears each ended peer from the sets and lists it, and ends with the lock free and the cursor reset |
| `PeerManager.PeerManager.ReaderPass` | core/core.c:453-554 | A read pass is that sweep followed by removing what the pointer list shows |
| `SweepRuns.SweepVisitsEachOnce` | core/peermanager.c:176-190 | In every interleaving of one sweep with lookups and appended peers the peers returned are exactly those below the cursor, in order, with the lock held once in between; when NULL is returned every peer of the table has been returned once, the cursor is reset and the lock is free |
| `SweepRuns.SweepEnds` | core/peermanager.c:180-189 | Once nothing is appended, the sweep ends after exactly count - cursor + 1 further calls |
| `ConnectionRuns.AcceptCases` | core/core.c:346-377 | The scratch entry of an accepted connection leaves no trace: the step upgrades the first entry with that endpoint or appends a new one |
| `ConnectionRuns.StepKeepsInv` | core/core.c:330-426 | Accept, connect, lookup and read steps keep: one entry per endpoint, five kinds of entries, no shared descriptors, unique key handles, free lock and reset cursor between steps, sets within the open descriptors, maxima bounding the sets |
| `ConnectionRuns.EveryRun` | core/core.c:572-603 | In every run there is at most one entry per address and port, peers share no descriptor, and the cached maxima bound the descriptor sets |
| `ConnectionRuns.ReaderRemoves` | core/core.c:549-554 | A read pass removes at most one entry: the last one it found ended |
| `ConnectionRuns.DeferredRemovalIff` | core/core.c:455-554 | A read pass leaves exactly the peers whose connection did not end, in order, if and only if at most one connection ended in it |
| `ConnectionRuns.OthersUndisturbed` | core/peermanager.c:66-143 | A step leaves every peer it is not about in the table unchanged, and its descriptors in the sets as they were |
| `ConnectionStatus.StepTruthful` | core/handlers.c:152-163 | The reported status stays truthful ("ok" iff both descriptors are real, "oneway" iff exactly one is) if and only if the step does not bring a good key to an entry that a failed key check left without descriptors |
| `ConnectionStatus.RunTruthful` | core/handlers.c:152-163 | The same over every run: truthful in each state iff no step revives a left-behind entry |
| `ConnectionStatus.OkWithoutOutgoing` | core/core.c:386-391 | A concrete two-connection run in which a peer is reported "ok" without an outgoing descriptor |
| `ConnectionStatus.KeyCheckDecides` | core/core.c:361-392 | After an accepted connection the endpoint is reported invalid exactly when its key failed, and its descriptors are the new connection and the one for connecting back, or the mark for none |
| `ConnectionEffects.BadKeyEffect` | core/core.c:361-384 | A connection with a bad key touches no descriptor, set or maximum; a known entry loses its key and validity alone, a new endpoint leaves an entry without descriptors |
| `ConnectionEffects.GoodKeyKnownEffect` | core/core.c:361-367 | With a good key, the connection becomes the incoming one of the entry of its endpoint and nothing else in the table changes; sets and maxima are given outright |
| `ConnectionEffects.GoodKeyNewEffect` | core/core.c:379-424 | A new endpoint with a good key is appended with the new connection and the one for connecting back, or the mark for none, and registered in both sets |
| `ConnectionEffects.ConnectEffect` | core/core.c:572-603 | Where a connection was made to an unknown endpoint, one entry is appended: its address and port, the socket as outgoing descriptor, no incoming one, reported invalid exactly when its key does not load; otherwise nothing changes |
| `ConnectionEffects.UnknownHostIgnored` | core/core.c:332-377 | A connection from a host without a section or a port changes nothing |
| `ConnectionEffects.ReadSetsEffect` | core/core.c:455-470 | A read pass clears the incoming descriptors of all ended connections from the read set and both descriptors from the write set, and leaves the maxima |
| `ConnectionEffects.ReadPeersEffect` | core/core.c:455-554 | Of the entries a read pass removes the last ended one only |
| `DescriptorSets.StepExact` | core/peermanager.c:66-143 | From a state where the read set is exactly what the reader polls and the write set exactly what the sender uses, a step leads to such a state if and only if it is clean: no good key for an entry that already has an incoming descriptor or has none at all, no ended outgoing-only connection, not two ended connections at once |
| `DescriptorSets.RunExact` | core/core.c:459-460 | Over every run the sets are exact in each state iff every step is clean |
| `DescriptorSets.StaleAfterOutgoingLoss` | core/peermanager.c:72-74 | A concrete run that leaves a descriptor in the read set with no peer behind it |
| `PtrList.PtrList.AddNode` | core/ptrlist.c:17-27 | Adding an item makes it the only one the list shows; one node is made each time |
| `PtrList.PtrList.Items` | core/core.c:549-553 | The loop over the nodes sees exactly the last item added |
| `PtrList.PtrList.Free` | core/ptrlist.c:29-41 | Freeing gives back all nodes made if and only if at most one item was added |
| `PtrList.ShowsAllIff` | core/ptrlist.c:17-27 | The list shows every added item in order if and only if at most one was added |
| `Cipher.XorTwice` | crypto/aes.c:39 | Exclusive or undoes itself, the fact CBC rests on |
| `Cipher.XorBits` | crypto/aes.c:39 | Each bit of an exclusive or is set exactly when the two bits differ |
| `Cipher.CbcBlocks` | crypto/aes.c:39 | Each ciphertext block is the encryption of its text block combined with the ciphertext block before it, the first with the initial vector |
| `Cipher.PadBytes` | crypto/aes.c:74 | Padding goes up to the next multiple of 16 with bytes that hold their own number |
| `Cipher.CbcRoundTrip` | crypto/aes.c:39 | CBC decryption (section 6.2 of NIST SP 800-38A) undoes CBC encryption over any block permutation |
| `Cipher.CbcRoundTripBack` | crypto/aes.c:126 | CBC encryption undoes CBC decryption |
| `Cipher.CbcSplit` | crypto/aes.c:73-74 | Encrypting in pieces with the chaining block carried over is encrypting in one piece |
| `Cipher.CbcDecryptSplit` | crypto/aes.c:152-153 | The same for decryption |
| `Cipher.EncryptIsCbcOfPadded` | crypto/aes.c:68-74 | Update and final call together are CBC of the padded message (section 6.3 of RFC 5652), (len / 16 + 1) * 16 bytes long, which fits the buffer of len + 16 |
| `Cipher.RoundTrip` | crypto/aes.c:68-74 | For every message, update-then-final decryption of its encryption is the message |
| `Cipher.AcceptedIffEncryption` | crypto/aes.c:145-154 | A ciphertext decrypts with good padding if and only if it is the encryption of what it decrypts to |
| `Cipher.DecryptOfRejected` | crypto/aes.c:152-154 | Without good padding, the whole blocks come out but for the last one, and no error is noticed |
| `Aes.SealedParts` | crypto/aes.c:77-90 | An envelope is sealed password and ciphertext, with lengths that fit their 16 and 32 bit fields |
| `Aes.OpenSeal` | crypto/aes.c:64-96 | What is sealed for a public key is what the paired private key opens |
| `Aes.SealIsCbc` | crypto/aes.c:18-40 | The body is the sealed password and CBC over the padded text under the first 32 derived bytes, with the last 16 as initial vector; magic number, salt and lengths outright |
| `Aes.OpenIsCbc` | crypto/aes.c:98-132 | Opening derives the same key and vector from the password in the body and takes the padding off |
| `Aes.EncryptWithPass` | crypto/aes.c:64-96 | The code, ciphertext buffer included, produces that envelope |
| `Aes.DecryptBody` | crypto/aes.c:145-154 | Decryption through the stack buffer of length + 16 opens the envelope and stays inside the buffer |
| `Aes.Decryptor.Store` | crypto/aes.c:156-175 | The static buffer then holds exactly the new plain text, the recorded length is within the allocation, and no byte of an earlier plain text remains behind it |
| `Aes.Decryptor.DecryptWithKey` | crypto/aes.c:143-179 | Over any history of decryptions the buffer holds exactly the current plain text |
| `Events.HeaderFields` | core/event.h:44-55 | The packed fields are read back as written, whatever the data pointer held |
| `Events.HeaderLayout` | core/event.h:44-55 | Each field of the packed struct lies at its offset, little-endian |
| `Events.ReceiveSent` | core/event.c:32-37 | One received event is the one sent, marked with the pipe it came from, or a failure when its data length is negative as an int (line 108) |
| `Events.PipeRoundTrip` | core/event.c:83-119 | Any list of events sent over a pipe is received in order with nothing left over, if and only if no data length reaches 2^31, where it is negative as an int |
| `Events.CutIsNoticed` | core/event.c:88-115 | Every cut inside an event ends in the truncated or failed status or in the assertion, and a cut at its start in the closed status |
| `Listeners.AddIsExact` | core/event.c:126-141 | A listener is accepted exactly when fewer than 32 are registered; then dispatches gain exactly that call, otherwise nothing changes |
| `Listeners.RemoveIsExact` | core/event.c:143-156 | Removing takes exactly the first registration of the callback out of dispatches, or nothing when there is none; free slots keep no data |
| `Listeners.CountIsCalls` | core/event.c:67-76 | Counting registrations counts the calls of a dispatch |
| `Listeners.TypesAreIsolated` | core/event.c:126-156 | Over every run what a type dispatches depends only on the operations on that type |
| `Listeners.EveryRunIsExact` | core/event.c:126-156 | Over every run from empty tables a type dispatches each call exactly as often as its adds were accepted less the times it was taken out, and free slots keep no data |
| `Listeners.ListenerTable.AddListener` | core/event.c:126-141 | The two arrays of the one type change in step as the row operation says, all other types stay |
| `Listeners.ListenerTable.RemoveListener` | core/event.c:143-156 | The same for removal |
| `Listeners.ListenerTable.RunCallbacks` | core/event.c:67-76 | The calls made are the registered pairs of the type in slot order |
| `PipeManager.AddKeeps` | core/pipemanager.c:20-39 | Adding keeps the polled set exact and the maximum a bound |
| `PipeManager.RemoveKeeps` | core/pipemanager.c:41-55 | Removing keeps the polled set exact |
| `PipeManager.BoundKeptIff` | core/pipemanager.c:43-51 | From any reachable shape, the maximum still bounds the set after a removal unless the maximum was removed and the slot number kept instead is below a descriptor that is left |
| `PipeManager.LowersTooFarIff` | core/pipemanager.c:43-51 | While descriptors are larger than the numbers of their slots, that happens exactly when the maximum is removed while any other connection is left |
| `PipeManager.HarmlessRemoval` | core/pipemanager.c:43-51 | Where descriptors come back to later slots: removing the maximum is harmless when the second largest descriptor sits in an earlier slot numbered at least as high as itself |
| `PipeManager.SecondMaxIsIndex` | core/pipemanager.c:44-47 | The search keeps 0 or the number of a slot in use whose descriptor is below the maximum |
| `PipeManager.RunBoundedIff` | core/pipemanager.c:13-55 | Over every run of adds and removes inside the table the maximum bounds the set in each state if and only if no removal lowers it too far |
| `PipeManager.HighRunBoundedIff` | core/pipemanager.c:13-55 | Over every such run in which new descriptors are larger than their slot numbers, if and only if the maximum is never removed while another connection is left |
| `PipeManager.MaximumTooSmall` | core/pipemanager.c:46-51 | A concrete removal after which the remaining connection lies above the maximum |
| `PipeManager.EveryRun` | core/pipemanager.c:13-55 | Over every run inside the table the polled set equals the entries in use, and the next slot counts all adds there have ever been |
| `PipeManager.InsideIff` | core/pipemanager.c:20-44 | Every operation of a run finds the next slot inside the table if and only if fewer than 255 connections were added before the last operation |
| `PipeManager.AddBehindIff` | core/pipemanager.c:22-30 | Once every slot has been used, the polled set survives a further connection if and only if that is turned away: otherwise it is written behind the table and polled although no entry holds it |
| `PipeManager.OneTooMany` | core/pipemanager.c:22-28 | A concrete run inside the table, and the next connection after it, which is written behind the table |
| `PipeManager.PipeTable.Add` | core/pipemanager.c:20-39 | The loop puts the descriptor at the next slot; once all slots have been used it reads the word behind the table, and reports when it writes there |
| `PipeManager.PipeTable.Remove` | core/pipemanager.c:41-55 | The loop frees the entry and computes the new maximum as the index-keeping search does, also when its last turn reads behind the table |
| `Framing.EnvFields` | crypto/aes.h:17-25 | The fields of the envelope header are read back as written, whatever gaps and pointer held |
| `Framing.EnvLayout` | crypto/aes.h:17-25 | Each field of the envelope header lies at its offset, little-endian |
| `Framing.RecvLoopEnds` | core/core.c:484-496 | The body loop gets its block if and only if enough bytes will come; otherwise it spins |
| `Framing.MissingIsExact` | core/core.c:484-496 | A loop that asks for the missing part takes exactly the block over every chunking |
| `Framing.WholeIsExactIff` | core/core.c:485-495 | The loop as written, which asks for the whole block each time, takes exactly the block if and only if nothing follows it or some chunk ends where it ends |
| `Framing.WireParts` | crypto/aes.c:64-96 | A message on the wire is a header and a body from which the receiver gets the event back, with the address and port of the connection it came over (core/core.c:500-505) |
| `Framing.EveryChunking` | core/core.c:448-505 | For every list of events and every chunking of the stream, reading with missing-part receives hands on the same kinds, tags and data in the same order, each with the address and port of the connection it came over, and uses up the stream |
| `Framing.TakesExactlyIff` | core/core.c:462-496 | The reader as written takes exactly one envelope if and only if its header is there in one piece and its body ends the stream or ends with a chunk |
| `Framing.AlignedChunking` | core/core.c:448-505 | Over every chunking aligned in this sense the reader as written hands on the same kinds, tags and data in the same order, each with the address and port of the connection |
| `Framing.HeaderOverlay` | core/core.c:462-476 | A short header receive lies over the start of the previous header; with a wrong magic number those bytes are dropped and nothing else happens |
| `Framing.RoundTakesOneIff` | core/core.c:462-496 | One actual round of the reader as written receives its header whole and leaves exactly the bytes behind the envelope if and only if the envelope is aligned |
| `Framing.RoundByRoundIff` | core/core.c:448-505 | Over a whole stream, every round takes exactly one envelope if and only if the chunking is aligned |
| `Framing.WholeEnvelopesAligned` | core/core.c:484-496 | Where every envelope is there at once, the stream is aligned whatever else it holds |
| `Reader.Reader.Receive` | core/core.c:462 | One receive yields the next bytes of the stream, at most as many as asked for and as are there |
| `Reader.Reader.ReceiveHeader` | core/core.c:462 | The header is a single receive over the reused struct; a short one leaves the rest of the previous header in place |
| `Reader.Reader.ReadBody` | core/core.c:484-505 | Body and hand-over behind a header with the right magic number are the rest of a round |
| `Reader.Reader.ReceiveBody` | core/core.c:484-496 | The loop over the socket is the receive loop of the model and stores what it received |
| `Reader.Reader.Deliver` | core/core.c:500-505 | Decrypting into the reused buffer and reading the event out of it |
| `Reader.Reader.ReadOne` | core/core.c:462-505 | One turn of the reader is one round of the model; the capacity never shrinks, covers the current body and grows to exactly it |
| `Reader.Reader.ReadToEnd` | core/core.c:448-505 | The read loop on one connection computes all rounds |
| `Reader.ChunkAcrossTheEnd` | core/core.c:487 | A concrete chunking for which the loop as written takes one byte of the next envelope |
| `Reader.StolenByteHidesMagic` | core/core.c:472-476 | The envelope after the stolen byte is refused for its magic number |
| `MessageCodec.MessageBack` | core/file.h:14-41 | Metadata, part request, part and transfer request are read back as written, whatever pointers and gaps hold |
| `MessageCodec.PayloadLayout` | core/file.h:14-41 | Each field of the message structs lies at its offset, numbers little-endian, hashes filled up with zeros |
| `MessageCodec.KindsByName` | core/event.h:7-29 | Each message travels under the event type of its name |
| `MessageCodec.MessagesArrive` | core/core.c:613-660 | The file-transfer messages one node sends are the ones the other node handles, in order, through structs, events, sealing and every chunking (missing-part receives) |
| `MessageCodec.MessagesArriveAligned` | core/core.c:613-660 | The same for the reader as written over every aligned chunking |
| `FileParts.RangesExactIff` | core/file.c:13-26 | The 32-bit ranges of all parts of a file are the true ones if and only if the file is shorter than 8191 * 524288 bytes |
| `FileParts.PartsTile` | core/file.c:17-23 | The parts joined are the file and their lengths add up to its size |
| `FileParts.ByteInPart` | core/file.c:17-23 | Each byte lies in the one part of its number |
| `FileParts.RequestedPartIff` | core/handlers.c:34-41 | A part request is answered with the requested part if and only if its number is a multiple of 8192, where the 32-bit offset wraps to 0, and that part equals the first one |
| `FileParts.WrappedRequest` | core/handlers.c:34-41 | Every request for a multiple of 8192 is answered with the first part |
| `FileParts.WrapsToEqualPart` | core/handlers.c:38 | A concrete later part that is answered rightly: part 8192 of 8193 parts of zeros |
| `FileParts.WrapsToOtherPart` | core/handlers.c:38 | A concrete file whose part 8192 is answered with its first part instead |
| `FileParts.SendMetadata` | core/handlers.c:110-127 | For every file size the loop ends after exactly max(1, ceil(size / 524288)) successful sends, 32-bit arithmetic included, and sends these contents |
| `FileParts.SendReturns` | core/handlers.c:80-88 | A full part returns its length; a short one the whole size while the part count, modulo 8192, stands for more bytes, and otherwise the difference |
| `FileParts.MetadataSendsExactIff` | core/handlers.c:37-52 | Every metadata message carries its part if and only if the metadata file is shorter than one part or a whole number of parts |
| `FileParts.SeekExactIff` | core/handlers.c:370 | The 32-bit offset of a part is the true one if and only if the part number is below 8192 |
| `Metadata.HexInjective` | core/file.c:28-37 | Different digests have different names |
| `Metadata.HexDigits` | core/file.c:28-37 | Digits 2i and 2i + 1 are the high and the low half of byte i, in lower case |
| `Metadata.ShaToStr` | core/file.c:28-37 | The loop writes the digest in hexadecimal |
| `Metadata.CreateMetadataFile` | core/file.c:39-90 | The file written is name, NUL, digest of the file and digest of each part: |name| + 1 + 20 * (part count + 1) bytes |
| `Metadata.MetadataLayout` | core/file.c:72-82 | A metadata file is the name, a NUL, the digest of the file, and the digest of each 524288 bytes of it in order |
| `Metadata.MetadataRoundTrip` | core/handlers.c:334-341 | The receiver parses back name and digest and stores a byte-identical metadata file under the digest |
| `Metadata.StoredIff` | core/file.c:92-118 | Whatever later messages hold, the receiver ends up with the metadata file of the sender if and only if it is no longer than one part |
| `Reassembly.AnyOrder` | core/handlers.c:361-381 | After any deliveries of the parts of any file, in any order with repeats, each byte is that of the last part written over it at its 32-bit offset and all others are untouched, the length included; the transfer is over iff the single non-empty part has come |
| `Reassembly.AnyOrderRight` | core/handlers.c:361-381 | For every file up to 2^32 bytes, the bytes of every delivered part are right and all other bytes untouched |
| `Reassembly.CompleteIff` | core/handlers.c:361-381 | For every file, once every part number has come in any order with repeats: the received file is the sent one if and only if it was not longer before and the file has at most 2^32 bytes; beyond that size only if the receiver had a file of that length, right from 2^32 on, and the parts last written at each wrapped offset agree with it |
| `Reassembly.OneByteBeyond` | core/handlers.c:370 | A concrete size, one byte beyond 2^32, that ends one byte short in every order |
| `TransferSlots.StepIff` | core/peer.c:119-138 | From a state with exclusive slots (a stream open in exactly the owned ones, locks held only by part senders) a step leads to such a state if and only if the slot it takes is idle, or the last part finds the slot of its own transfer |
| `TransferSlots.StepRecords` | core/peer.c:68-100 | A part sender and a receiving transfer record their hash and sizes in the first slot with a free lock and in no other |
| `TransferSlots.StepExclusiveIff` | core/peer.c:119-138 | Exclusive ownership alone survives a step from such a state if and only if the step does not put a second transfer into a slot in use |
| `TransferSlots.RunExclusive` | core/handlers.c:285-321 | Over every interleaving of requests and sender threads slots are owned exclusively, with streams open in exactly the owned ones and locks held only by part senders, in each state iff every step meets that guard |
| `TransferSlots.ReceiverLosesSlot` | core/peer.c:68-100 | A concrete run in which a part request takes the slot of a receiving transfer, which was left unlocked |
| `TransferSlots.SlotsAreConserved` | core/peer.c:119-129 | Idle slots and owned slots are always 64 together |
| `TransferSlots.RunBalances` | core/handlers.c:92-127 | In every run locks plus unlocks by metadata threads equal unlocks plus locks held by part senders, and metadata threads ended and still running are the transfer requests that got a slot |
| `TransferSlots.ReleasedOnceIff` | core/handlers.c:270-272 | In every run that ends with no transfer in flight, locks and unlocks pair up if and only if no step is the unlock of a metadata thread, if and only if no transfer request got a slot |
| `TransferSlots.StepTidyIff` | core/peer.c:43-51 | Where every slot without a stream is cleared, any step, shared slots or not, keeps it so if and only if it is not a receiving transfer that records something and then cannot open its file (lines 80-90) |
| `TransferSlots.RunTidyIff` | core/peer.c:68-100 | Over every run, freed slots are cleared in each state if and only if no step leaves such a record |
| `TransferSlots.TidyLookupOpen` | core/peer.c:102-112 | Then a part with a non-empty hash finds no slot or one with an open stream |
| `TransferSlots.RecordWithoutStream` | core/peer.c:83-90 | A concrete step after which a part for that hash finds a slot without a stream |
| `TransferStatus.LookupStopsInTime` | core/filetransfermanager.c:57-67 | A hash is found before any empty slot if and only if it was added; any other hash meets an empty slot, whose hash is NULL, unless the table is full |
| `TransferStatus.AddListsLast` | core/filetransfermanager.c:36-55 | Occupied slots stay a prefix, and the listing gains the new transfer at its end as long as there is room |
| `TransferStatus.ReadyListsInPlace` | core/filetransfermanager.c:69-75 | A delivered part changes only the counter of its own transfer in the listing |
| `TransferStatus.ReadyCountIff` | core/filetransfermanager.c:69-75 | Exactly the delivered parts are marked, never more than the ready counter says, and as many as it says if and only if no part arrived twice |
| `TransferStatus.FileTransfers.Add` | core/filetransfermanager.c:36-55 | The first empty slot gets the transfer; fails exactly when the table is full |
| `TransferStatus.FileTransfers.PartReady` | core/filetransfermanager.c:69-75 | Marks the part in the first slot with that hash, and reports a match, an absent hash, or an empty slot whose NULL hash is compared |
| `TransferStatus.FileTransfers.GetStatuses` | core/filetransfermanager.c:84-101 | The array filled at slot indices is exactly the listing of all transfers in order of addition |
| `Node.RequestsFollowProtocol` | core/handlers.c:243-321 | The request handlers take slots as the steps of the slot protocol do |
| `Node.ThreadsFollowProtocol` | core/handlers.c:92-127 | Each of the two steps of a sender thread changes the slots as the protocol step does |
| `Node.ReceivingFollowsProtocol` | core/peer.c:68-100 | Receiving transfers take slots as its steps do, also without a configured name or when the file cannot be opened, and their last part gives them back |
| `Node.SenderConsistent` | core/handlers.c:92-315 | Request handlers and each step of the sender threads keep streams, open modes and slots in agreement, and hashes of files being received findable in the table of transfers |
| `Node.MetadataConsistent` | core/handlers.c:323-353 | So does the metadata handler |
| `Node.PartConsistent` | core/handlers.c:361-387 | So does the part handler |
| `Node.SharedKeptIff` | core/handlers.c:196-201 | Parts for a hash leave every file alone that nobody is receiving if and only if the slot they find is not that of a part sender, whose stream is open "r+" as well, or its file is being received, too |
| `Node.MeetsNullIff` | core/filetransfermanager.c:57-75 | Counting a part compares with a NULL hash if and only if it has data, finds the slot of a part sender, and its hash was never added while the table has an empty row |
| `Node.PartOverwritesShared` | core/handlers.c:92-98 | A concrete run: a part for the hash it asked for, between the unlock and the clear of the sender thread, overwrites the shared file and meets the NULL hash |
| `Node.LockIsTransparent` | core/handlers.c:366-387 | Locking the slot for the write and unlocking it afterwards changes nothing but what the write does |
| `Node.MetadataEffect` | core/handlers.c:323-353 | A metadata message leaves an empty file where there was none, the name under the hash, a row in the table of transfers and its sizes in the slot, and is answered by a request for part 0 if the file opens |
| `Node.Dropped` | core/handlers.c:212-241 | Requests and metadata from an unknown peer, requests for a hash without an entry, and parts that find no slot change nothing |
| `Node.Node.LockNewSlot` | core/peer.c:119-129 | The search loop locks the first slot whose lock is free |
| `Node.Node.FindSlot` | core/peer.c:102-112 | The search loop finds the first slot with the hash, or none when there is none |
| `Node.Node.ClearSlot` | core/peer.c:43-51 | The slot is back in its cleared state, its stream closed, its lock untouched |
| `Node.Node.CreateFile` | core/peer.c:53-66 | An absent file becomes empty, an existing one is left alone |
| `Node.Node.HandleFileTransfer` | core/handlers.c:243-283 | The handler opens the metadata in a slot and starts a thread with the sizes of the file itself |
| `Node.Node.SendMetadataThread` | core/handlers.c:110-123 | The thread sends the metadata messages and clears the slot |
| `Node.Node.EndMetadataThread` | core/handlers.c:124 | Unlocking it is a step of its own |
| `Node.Node.HandleFilePartRequest` | core/handlers.c:285-321 | The handler opens the file in a locked slot and starts a thread |
| `Node.Node.SendFilePartThread` | core/handlers.c:92-96 | The thread sends the part and unlocks the slot, whose stream is still open |
| `Node.Node.EndPartThread` | core/handlers.c:97 | Clearing it is a step of its own |
| `Node.Node.CreateFileTransfer` | core/peer.c:68-100 | The receiving slot is filled, an absent file is made empty, and the slot is unlocked; without a configured name nothing changes, and a file that cannot be opened leaves the record without a stream |
| `Node.Node.HandleMetadata` | core/handlers.c:323-359 | The transfer is listed, the metadata and the name stored, and part 0 requested when a slot was free and the file could be opened |
| `Node.Node.HandleFilePart` | core/handlers.c:361-393 | With the slot found by its loop and locked, the part is written to a stream open "r+", counted in the table of transfers, and a short part 0 ends the transfer; the result says whether counting met a NULL hash |
| `TwoNodes.SenderOffers` | core/handlers.c:243-278 | A transfer request produces one message with the whole metadata file and leaves the sender as before |
| `TwoNodes.SenderAnswers` | core/handlers.c:285-315 | The request for part 0 produces part 0 and leaves the sender as before |
| `TwoNodes.AnyPartAnswer` | core/handlers.c:285-315 | A request for any part is answered under its own number with the bytes of part 0 if the number is a multiple of 8192, and otherwise misses the message buffer |
| `TwoNodes.ReceiverPrepares` | core/handlers.c:323-353 | The metadata message opens the receiving transfer and is answered with a request for part 0 |
| `TwoNodes.TransferCompletesIff` | core/handlers.c:243-382 | A complete two-node run gives the receiver the file, one part ready out of one and clean slots at both nodes if and only if the file is not empty, shorter than one part, and not shorter than a file already there under its name; metadata and name arrive in any case |
| `TwoNodes.NodeReassembles` | core/handlers.c:361-387 | At a node, parts in any order with repeats do to the file what the reassembly results say, and the slot stays in use exactly as long as that transfer is active |
| `TwoNodes.NodeCompleteIff` | core/handlers.c:361-387 | At a node, once every part number has come, the received file is the sent one under the condition of the reassembly result |
| `TwoNodes.NodeCounts` | core/handlers.c:371-376 | At the node, those deliveries change one row of the table of transfers: it counts and marks exactly the deliveries with data while the transfer lasts |
| `TwoNodes.ReadyReachesCountIff` | core/handlers.c:371-376 | When each part of a new transfer has arrived at the node once, in any order, the ready counter of its row stands at the part count if and only if the size is not a whole number of parts |
| `WireTransfer.TransferOverWireIff` | core/handlers.c:243-382 | A whole transfer whose four messages travel as structs, events and sealed envelopes over byte streams in any chunks (aligned ones for the reader as written) gives the receiver the file under the same condition |
| `WireTransfer.WireIsTransfer` | core/core.c:448-505 | Over the wire the two nodes end as they do in the bare exchange of messages |
| `WireTransfer.LegDelivers` | core/core.c:448-505 | On each leg the handlers see exactly the messages that were sent |
| `LineEditor.KeyRefines` | ui/curses_ui/curses_ui.cpp:197-266 | From a good state every non-zero key does to cells, length and cursor what it does to a text with a cursor, in the middle, at the ends and on a full line, and the state stays good: cursor <= length <= 255, cells below the length non-zero, all others zero |
| `LineEditor.TypedInOrder` | ui/curses_ui/curses_ui.cpp:253-266 | Ordinary characters typed anywhere in the line stand there in the order typed |
| `LineEditor.KeysUndo` | ui/curses_ui/curses_ui.cpp:200-232 | Left and right undo each other, and both keys for deleting backwards undo a typed character |
| `LineEditor.MovesKeepText` | ui/curses_ui/curses_ui.cpp:200-221 | Left, right, home and end keep the text and move by one or all the way |
| `LineEditor.DeletesOne` | ui/curses_ui/curses_ui.cpp:225-240 | Each deleting key takes out exactly the one character before or behind the cursor |
| `LineEditor.KeysIgnored` | ui/curses_ui/curses_ui.cpp:222-255 | A full line takes no further character, and keys without effect change nothing |
| `LineEditor.NewlineEnds` | ui/curses_ui/curses_ui.cpp:199 | The first newline ends the line, and the keys before it act one after the other |
| `LineEditor.ZeroKeyIff` | ui/curses_ui/curses_ui.cpp:253-266 | A zero key keeps the state good if and only if the line is full |
| `LineEditor.Editor.Delete` | ui/curses_ui/curses_ui.cpp:232-237 | The overlapping move and the zeroed last cell delete exactly one cell |
| `LineEditor.Editor.Type` | ui/curses_ui/curses_ui.cpp:253-266 | Writing at the end or moving the tail up first inserts exactly one cell when there is room |
| `LineEditor.Editor.MoveCells` | ui/curses_ui/curses_ui.cpp:234 | The overlapping move puts every cell where it belongs and touches no other |
| `LineEditor.Editor.Reset` | ui/curses_ui/curses_ui.cpp:178-181 | Clearing all cells but the last leaves an empty line in a good state |
| `LineEditor.Editor.CString` | ui/curses_ui/curses_ui.cpp:281 | The string read up to the first zero is exactly the cells below the length |
| `LineEditor.Editor.Key` | ui/curses_ui/curses_ui.cpp:197-266 | The branches of the key loop update the cells as the cell functions say |
| `LineEditor.Editor.HandleInput` | ui/curses_ui/curses_ui.cpp:175-282 | For every sequence of non-zero keys the returned text is the one the abstract editor gives |

## Left out

- Sockets, `select`, name lookup, threads as system objects and signals: steps with arbitrary interleaving, arbitrary chunk sizes and fresh descriptors stand for them; receive and send errors other than the end of a connection are not modelled.
- The host is little-endian with 64-bit pointers; struct layouts and the unpacked gaps follow from that.
- Cryptography below CBC and padding: the block cipher, the key derivation (section 5.2 of RFC 8018), RSA and SHA-1 are arbitrary functions, with the block cipher a permutation and the private key undoing the public key; nothing is assumed about SHA-1.
- Key files and key generation, the configuration library (dtgconf is not part of this model; configured names are a map), JSON, logging, command lines, drawing, tabs and the web interface.
- Failed allocations: `peer_new` doubles its recorded size before it calls realloc, and other results are used unchecked.
- PeerManager.PeerManager.ShiftTail: the source asks memmove for two structs more than follow the deleted one; the model moves those inside the allocation. The whole request lies inside exactly when two slots are free behind the last peer.
- Stale key data in reused table slots: an entry is taken to be initialised in full, and its identity to be its key stream handle.
- Two sweeps sharing the one cursor, and removals by other threads between the collection of a pointer and its use.
- ConnectionRuns.StepKeepsInv: an accepted connection, with its search for a known endpoint, is one step, as is one turn of the connect loop and one pass of the reader; descriptor 0 is taken to be the standard input.
- Reader.Reader.ReceiveBody: where the peer has closed in the middle of a body the source loops for ever on empty receives; the model stops and marks the connection stalled. Bytes that the source's loop takes beyond the body are dropped, not written behind the buffer.
- Events whose own data length exceeds their plain text: the source reads on behind the plain text, the model hands on nothing.
- Metadata.CreateMetadataFile: files of 8191 parts and more are left to FileParts.RangesExactIff, because a 32-bit range then reaches outside the file.
- FileParts.SendMetadata: a failed send, which ends the loop early, is not modelled; contents read from outside the buffer are marked as such and not described further.
- TransferStatus.FileTransfers.PartReady: a part number outside the marks is counted but not marked; the source writes outside the array. Where a NULL hash is compared, the model reports it and changes nothing; Node.MeetsNullIff says when a part does that.
- Node.Node.HandleFilePart: a part that finds a slot without a stream, where the source seeks on a NULL stream, and one that finds its slot locked, where it waits; TransferSlots.TidyLookupOpen and RecordWithoutStream say when the former happens.
- Node.Node.CreateFileTransfer: creating a missing file succeeds; only opening it for writing may fail.
- TwoNodes.TransferCompletesIff: the metadata file is at most one part long; Metadata.StoredIff says what happens to a longer one.
- Node.Node.HandleFileTransfer: a metadata entry whose file does not exist is refused; the source closes a NULL stream.
- PipeManager.PipeTable.Remove: a word behind the table that happens to equal the descriptor, and anything after a write behind the table; the loops that poll and send read that word as well once every slot has been used.
- LineEditor.Editor.HandleInput: keys without a zero; LineEditor.ZeroKeyIff says when a zero key does harm.
- TransferSlots: the order in which the handler unlocks and the metadata thread runs within one request, and the sizes the thread writes before it clears them again.
