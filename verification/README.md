# Verification of libdatachannel-java

Dafny 4.11 models of the parts of this repository whose correctness needs loops, inverse functions or
whole runs, with proofs of what they are for. `dafny verify dfyconfig.toml` checks everything.

- **The macOS packaging check.** `MachO` reads a thin dylib image in one pass and is proved equal to a
  declarative description of the format: a header, a region that splits into self-sized load commands,
  the names those commands carry in order, and the public symbols. `MachOImage` prints the images of the
  test fixtures. The reader inverts the printer for exactly the printable inputs. `MachOVerify` draws the
  packaging conclusion from the parse. `MachOMeaning` and `MachOVerifyMeaning` say all of it once more in
  bytes and the loader's numbers, sharing nothing with the code, and prove the two equivalent.
- **The one-line answer of the example.** `ShortSdp` has the browser's printer and the Java reader,
  `Base64` and `Strings` what both rest on, and `ShortSdpRoundTrip` the proof that the reader recovers
  what the printer was given, and exactly which IPv6 addresses survive: the printer does not expand "::".
- **What native calls borrow.** `PeerResources` keeps a ledger of JNI references, borrowed characters and
  heap blocks while any acquisition may fail. Every exit leaves the ledger as on entry, a call gets
  through exactly if nothing failed, and no array slot is read before it is written.
- **Listener containers.** `Listeners` has the container as one thread uses it and as a machine whose
  lock sections and later callbacks interleave in every order. The edges issued are conserved in all
  interleavings; agreement of the native flag is not, and its exact condition is proved.
- **Life cycle.** `Lifecycle` is the machine of peers, channels, Java objects and callback records under
  any interleaving of creating, arriving, announcing, closing and deleting. `Closing` runs the closing
  code on objects, with other threads still bringing and closing channels.
- **Thread attachment.** `Attachment` is one machine with two ways of tracking, thread-local objects and
  Windows fiber-local slots, over every order of callbacks, foreign attachments, exits, loading and
  unloading. `ThreadTracking` is the Windows code changing its globals and slots in place, proved to take
  the machine's steps.
- **The import audit.** `PeImports` reads objdump reports in three column layouts, and `PeMeaning` spells out
  the headings, characters and functions it looks for.

Some promises of the code hold only under a condition, and the project proves which:

- an IPv6 address survives the short answer if and only if it is written with eight segments
  (`ShortSdpRoundTrip.Ipv6Exact`; "::1" does not, `ShortSdpRoundTrip.LoopbackIsLost`);
- in every state of a run live channels point to an unfreed record if and only if, before each deletion of
  a peer, Java has closed every channel that peer ever had (`Lifecycle.SafeIff`). The code relies on
  `closeChannels` seeing an empty map. That is enough exactly when no channel is being made or waits to be
  announced at that moment (`Lifecycle.EmptyMapMeans`) and it stays enough until a channel is created or
  arrives (`Lifecycle.QuietRunIsSafe`); one that arrives in between is left with a freed record
  (`Lifecycle.ArrivalDuringClose`);
- on Windows records match the library's attachments if and only if no unloading frees a record of a
  thread other than the unloading one (`Attachment.ExactIff`). Should a worker outlive the clean-up of the
  native library, it is never detached (`Attachment.UnloadOrphansWorkers`);
- an import report is read back exactly if and only if no import descriptor has a time stamp or forwarder
  chain that starts with a letter (`PeImports.ReportRead`), such as ffffffff
  (`PeImports.BoundImportMisread`). A misread descriptor never changes the verdict of the audit, because
  no heap function is written in hexadecimal digits (`PeImports.Audit`).

Assumptions about code that is not part of this model: native handles are never reused, `rtcClose` and
`rtcClosePeerConnection` report an invalid handle exactly for dead handles, `Cleaner` runs an action at
most once, foreign code never detaches an attachment this library made, and there is one fiber per thread.
Answers of the JVM, the allocator, the operating system and the native library are parameters or
arbitrary choices.

## Model

| member | source | states |
|---|---|---|
| MachO.SplitFlatten | tools/verify_macos_native.py:29-38 | commands that state their own length can be cut apart in one way only |
| MachO.PublicKinds | tools/verify_macos_native.py:69-70 | the four mask tests leave exactly the type bytes 3, 5, 7, 9, 11, 13 and 15 |
| MachO.ExportsComplete | tools/verify_macos_native.py:67-76 | no public symbol is skipped or added: each stands in the export list at the number of public symbols before it |
| MachO.InspectedLayout | tools/verify_macos_native.py:18-61 | an image is accepted exactly if the bytes after a correct header are as many well-formed commands as it says, of the total length it says, declaring the result |
| MachO.ReadName | tools/verify_macos_native.py:40-52 | a path command yields its NUL-terminated UTF-8 name exactly if its string field is well formed |
| MachO.ReadSymbol | tools/verify_macos_native.py:71-76 | a symbol yields its name exactly if it is terminated UTF-8 inside the string pool |
| MachO.ReadExports | tools/verify_macos_native.py:62-76 | the loop over the table yields the names of the public symbols in order, or refuses |
| MachO.Inspect | tools/verify_macos_native.py:17-77 | the single pass accepts exactly what the description accepts, with the same id, dependencies, run paths and exports |
| MachOMeaning.LegalIff | tools/verify_macos_native.py:32-52 | the reader takes a command exactly if its own bytes are legal, for each of the seven kinds by number |
| MachOMeaning.NamesHeld | tools/verify_macos_native.py:39-58 | the list of a role is the texts of the commands of that role's kinds, in file order |
| MachOMeaning.ExportsHeld | tools/verify_macos_native.py:62-76 | a list is the exports exactly if it is the texts named by the public table entries, in order |
| MachOMeaning.InspectedMeans | tools/verify_macos_native.py:17-77 | a result is accepted exactly if the header says so and a cut into legal commands has exactly its texts, stated in bytes and the loader's numbers with nothing of the reader's |
| MachOMeaning.EveryDependencyReported | tools/verify_macos_native.py:39-58 | the text of every dependency command, of whichever of the four kinds, is among the dependencies |
| Bytes.ValidUtf8Iff | tools/verify_macos_native.py:50 | a text is accepted exactly if it is the UTF-8 encoding of some characters |
| MachOImage.Image | tools/test_macos_native.py:20-34 | the loop that grows symbols and strings prints the described layout |
| MachOImage.Command | tools/test_macos_native.py:12-17 | a command is printed as described, with its own length and header |
| MachOImage.PathCommandReads | tools/test_macos_native.py:12-17 | a printed path command is well formed and reads back as its text |
| MachOImage.EntryAt | tools/test_macos_native.py:26-30 | each printed table entry names the pool position where its symbol was written, NUL-terminated |
| MachOImage.ReportedTexts | tools/verify_macos_native.py:48-58 | whatever is reported is legal text without NUL |
| MachOImage.ImageRoundTrip | tools/test_macos_native.py:12-34 | the reader returns exactly the printed id, dependencies, run paths and exports if and only if the input was printable, within the limits, and read for its own architecture |
| MachOImage.ExtensionStable | tools/verify_macos_native.py:18-77 | bytes after an accepted image change nothing while the size limit holds |
| MachOVerify.CheckDependency | tools/verify_macos_native.py:143-156 | a dependency passes exactly if it names no embedded library and is a system path or the main library itself, reached through a run path that exists |
| MachOVerify.Siblings | tools/verify_macos_native.py:150-154 | what follows the only slash after the prefix is the main library's name exactly if the dependency is prefix and name |
| MachOVerify.Verify | tools/verify_macos_native.py:126-158 | verification passes exactly if the one library is readable and its metadata compliant |
| MachOVerify.CompliantIsPrivate | tools/verify_macos_native.py:62-76 | in a compliant image every external, defined, non-private, non-debug table entry is a JNI entry point |
| MachOVerifyMeaning.BaseWord | tools/verify_macos_native.py:144-147 | the search in the base name finds a word exactly if it stands after the last slash, in the right case or any |
| MachOVerifyMeaning.CompliantMeans | tools/verify_macos_native.py:134-156 | the rule's names, prefixes and searches mean what is spelled out in bytes |
| MachOVerifyMeaning.VerifyPackage | tools/verify_macos_native.py:126-158 | verification passes exactly if the bytes of the one file declare, over every dependency of any kind and every public symbol, what packaging promises |
| Base64.EncodeIsLetters | example/web/index.js:9 | stripping trailing padding leaves exactly the letters of section 4 of RFC 4648 |
| Base64.NoDelimiters | example/web/index.js:52-66 | encoded bytes contain none of the separators of the short form |
| Base64.RoundTrip | example/java/src/main/java/tel/schich/libdatachannel/example/Main.java:333-341 | unpadded base64 decodes to the bytes that were encoded, at every length |
| Base64.KnownAnswers | example/web/index.js:9 | the encoder gives the test vectors of section 10 of RFC 4648 without their padding |
| Base64.Alphabet | example/web/index.js:9 | the letters are those of table 1 of RFC 4648, in order |
| Base64.PaddedRoundTrip | example/java/src/main/java/tel/schich/libdatachannel/example/Main.java:333-341 | the decoder also takes the padding the browser strips |
| Base64.DecodesIff | example/java/src/main/java/tel/schich/libdatachannel/example/Main.java:333-341 | a text decodes exactly if it is letters, at most completed to a group of four by padding |
| Strings.SplitJoin | example/web/index.js:14 | splitting undoes joining when no part holds the separator |
| Strings.JoinSplit | example/web/index.js:14 | joining undoes splitting, and no part holds the separator |
| Strings.JavaSplitJoin | example/java/src/main/java/tel/schich/libdatachannel/example/Main.java:252 | Java's split, which drops trailing empty parts, does too when the last part is not empty |
| ShortSdp.BytesToHexChars | example/java/src/main/java/tel/schich/libdatachannel/example/Main.java:392-401 | the filled array holds two upper-case digits for each byte, in order |
| ShortSdp.HexRoundTrip | example/java/src/main/java/tel/schich/libdatachannel/example/Main.java:393-401 | printing the bytes of an even run of digits gives the digits in upper case |
| ShortSdp.ChunksJoin | example/java/src/main/java/tel/schich/libdatachannel/example/Main.java:283-284 | cutting a text made of equally long parts recovers the parts |
| ShortSdp.HexToBase64 | example/web/index.js:3-10 | for every text the loop encodes what `parseInt` makes of its pairs, or throws as `btoa` does; on hexadecimal digits, the bytes they stand for |
| ShortSdp.PushCodes | example/web/index.js:16-18 | the loop appends one number for every two characters, and one for a last odd character |
| ShortSdp.Ipv6ToBase64 | example/web/index.js:12-22 | for every text the nested loops encode the numbers of all padded segments modulo 256; on hexadecimal segments, their bytes |
| ShortSdp.AcceptOffer | example/web/index.js:49-67 | for every candidate list the loop prints the dot-separated fields of fingerprint, password, fragment and candidates in order, or throws |
| ShortSdp.PrintField | example/web/index.js:61-66 | one candidate's field, by address family, or the exception; for printable candidates the described field |
| ShortSdp.HexCodes | example/web/index.js:6 | `parseInt` of pairs of hexadecimal digits gives the bytes they stand for |
| ShortSdp.PairCodeParses | example/web/index.js:6 | a pair's number is what `parseInt` (section 19.2.5 of ECMA-262) gives it, with its white space, sign and prefix rules |
| ShortSdp.JsSpaces | example/web/index.js:6 | the white space `parseInt` skips, character by character |
| ShortSdp.BrowserThrowsIff | example/web/index.js:49-66 | accepting an offer throws exactly if a pair of the fingerprint is negative or an address that is not IPv6 holds a character above 255 |
| ShortSdp.BrowserPrints | example/web/index.js:49-67 | for hexadecimal fingerprints and printable candidates the browser never throws and prints the line the reader is proved to read |
| ShortSdp.ReadCompressedSdp | example/java/src/main/java/tel/schich/libdatachannel/example/Main.java:239-331 | the loop with its nullable locals computes the outcome of the pieces: passed through, an exception, no candidates, or an answer |
| ShortSdp.Base64ToHex | example/java/src/main/java/tel/schich/libdatachannel/example/Main.java:333-336 | the digits of the decoded bytes, or the exception |
| ShortSdp.Pieces | example/java/src/main/java/tel/schich/libdatachannel/example/Main.java:283-284 | the whole pieces of the digits, joined with colons |
| ShortSdp.ReadLine | example/java/src/main/java/tel/schich/libdatachannel/example/Main.java:264-298 | one field gives a candidate, an exception, or nothing if its family is unknown |
| ShortSdpRoundTrip.FingerprintRoundTrip | example/java/src/main/java/tel/schich/libdatachannel/example/Main.java:253-256 | a colon-separated fingerprint comes back in upper case |
| ShortSdpRoundTrip.Ipv4RoundTrip | example/java/src/main/java/tel/schich/libdatachannel/example/Main.java:272-278 | an IPv4 candidate comes back with id, address, port and type |
| ShortSdpRoundTrip.Ipv6RoundTrip | example/java/src/main/java/tel/schich/libdatachannel/example/Main.java:279-287 | an IPv6 candidate comes back with id, port, type and its groups padded |
| ShortSdpRoundTrip.FieldsRoundTrip | example/java/src/main/java/tel/schich/libdatachannel/example/Main.java:263-298 | every candidate comes back, in order |
| ShortSdpRoundTrip.AnswerRoundTrip | example/java/src/main/java/tel/schich/libdatachannel/example/Main.java:239-331 | for every fingerprint, ICE credentials and candidate list the reader recovers all of them from what the browser prints, even from a line broken when copied, and the connection is "IP4" or "IP6" with the first address; without candidates there is no answer |
| ShortSdpRoundTrip.ListedGroups | example/web/index.js:12-22 | the groups that come back have the values of the written segments, an empty segment being zero |
| ShortSdpRoundTrip.Ipv6Exact | example/web/index.js:14 | the reader gets an IPv6 address back from the browser's field with its meaning if and only if it was written with eight segments |
| ShortSdpRoundTrip.LoopbackIsLost | example/web/index.js:14 | "::1" is read back as another address |
| PeerResources.OwesHead | jni/src/native_peer.c:167-170 | giving back one loan leaves exactly the others owed, so nothing is released twice |
| PeerResources.ReleaseServers | jni/src/native_peer.c:92-97 | the release loop reads only written slots and ends with the ledger as before the loans |
| PeerResources.BorrowServers | jni/src/native_peer.c:89-119 | the acquisition loop either holds one matched loan for each element or has undone all of them |
| PeerResources.OpenServers | jni/src/native_peer.c:77-121 | both blocks and all loans, or nothing at all |
| PeerResources.OpenStrings | jni/src/native_peer.c:123-155 | both optional strings are lent, or nothing is left lent |
| PeerResources.CallLibrary | jni/src/native_peer.c:157-164 | the library sees the lent texts, which are given back |
| PeerResources.ReleaseAll | jni/src/native_peer.c:166-173 | loans and blocks are given back, each once |
| PeerResources.CreatePeerConnection | jni/src/native_peer.c:52-176 | every exit leaves the ledger as on entry; the call reaches the library exactly if nothing failed, with the array's strings in order, the proxy and the bind address, and its answer is returned; no servers, no allocation |
| PeerResources.PassStrings | jni/src/native_channel.c:60-112 | two optional strings reach the library in order and its answer is returned, or the call is undone |
| PeerResources.SetRemoteDescription | jni/src/native_peer.c:217-242 | the same for a remote description, which must be present |
| PeerResources.SelectedCandidatePair | jni/src/native_peer.c:292-320 | neither buffer outlives the call; a pair is returned exactly if nothing failed, parsed from the local and then the remote candidate |
| PeerResources.AllocateCallback | jni/src/callback.c:6-20 | a record with its global reference, or nothing kept |
| PeerResources.FreeCallback | jni/src/callback.c:22-25 | freeing undoes allocating |
| PeerResources.GetDynamicString | jni/src/util.c:12-33 | the string of the two-call protocol is returned exactly if both calls and all acquisitions succeed, and the buffer is gone |
| PeerResources.ReceiveMessage | jni/src/native_channel.c:160-190 | a buffer is handed on exactly if a message is in it, otherwise its reference is dropped; and exactly when an exception is pending |
| PeerResources.IceUrisToStrings | src/main/java/tel/schich/libdatachannel/PeerConnection.java:90-100 | the URI strings by position; nothing for no list and for an empty one |
| PeerResources.CreatePeer | src/main/java/tel/schich/libdatachannel/PeerConnection.java:110-138 | the library is shown the configured servers in iteration order, the proxy and the bind address; a peer with its callback record comes out exactly if nothing failed and the answer is a handle, under that handle, and the record is all that is kept |
| Listeners.EdgeIsTransition | src/main/java/tel/schich/libdatachannel/EventListenerContainer.java:47-117 | a lock section issues a callback exactly if it makes the list empty or non-empty |
| Listeners.EdgeConservation | src/main/java/tel/schich/libdatachannel/EventListenerContainer.java:47-117 | in every interleaving issued callbacks alternate from true, their balance is 1 exactly while there are listeners, each is pending or delivered once, and closed means empty for ever |
| Listeners.FlagAgreesIff | src/main/java/tel/schich/libdatachannel/EventListenerContainer.java:59-61 | with nothing pending, all callbacks issued after the one that ran last have overtaken it, and the native flag agrees with the list if and only if their number is even, or none was issued |
| Listeners.FlagAgreesInOrder | src/main/java/tel/schich/libdatachannel/EventListenerContainer.java:75-77 | callbacks delivered in issue order leave the native flag in agreement |
| Listeners.OvertakingDisagrees | src/main/java/tel/schich/libdatachannel/EventListenerContainer.java:56-61 | two threads can leave the native side switched on without a listener |
| Listeners.EventListenerContainer.Register | src/main/java/tel/schich/libdatachannel/EventListenerContainer.java:47-62 | the listener is added at the end with the right callback, or a closed container refuses |
| Listeners.EventListenerContainer.Deregister | src/main/java/tel/schich/libdatachannel/EventListenerContainer.java:64-79 | removes the first occurrence and nothing else, and tells whether there was one |
| Listeners.EventListenerContainer.DeregisterAll | src/main/java/tel/schich/libdatachannel/EventListenerContainer.java:95-99 | the whole new state with its callback |
| Listeners.EventListenerContainer.Close | src/main/java/tel/schich/libdatachannel/EventListenerContainer.java:101-117 | closed and empty, with a callback exactly if there were listeners |
| Listeners.EventListenerContainer.Invoke | src/main/java/tel/schich/libdatachannel/EventListenerContainer.java:33-45 | every listener present at the start is called once, in order, whatever listeners do to the container or throw |
| Lifecycle.InvariantStep | src/main/java/tel/schich/libdatachannel/DataChannel.java:115-123 | every step of any thread keeps the relation of objects, maps, handles, peers and records |
| Lifecycle.AtMostOnce | src/main/java/tel/schich/libdatachannel/PeerConnection.java:82-87 | in every run channels and peers are deleted at most once and only while alive, and a record is freed once when its peer is gone, never before |
| Lifecycle.CloseIsFinal | src/main/java/tel/schich/libdatachannel/PeerConnection.java:176-191 | after the cleaning action nothing closes or deletes the peer again |
| Lifecycle.CloseCompletes | src/main/java/tel/schich/libdatachannel/DataChannel.java:115-123 | a channel's close that runs to its end leaves its handle dead, deleted once and out of the map, and no other handle changed |
| Lifecycle.CleanCompletes | src/main/java/tel/schich/libdatachannel/PeerConnection.java:82-87 | cleaning an uncleaned peer closes and deletes it once and frees its record |
| Lifecycle.RoutedToItsObject | src/main/java/tel/schich/libdatachannel/PeerConnectionListener.java:87-94 | a channel's event reaches exactly its published, not yet dropped object |
| Lifecycle.PeerCreated | jni/src/native_peer.c:322-331 | a registered peer owns a fresh record and can be used; one whose listener was not set up cannot |
| Lifecycle.ChannelArrived | jni/src/native_peer.c:39-43 | an arriving channel is alive and points to its peer's unfreed record |
| Lifecycle.Announces | src/main/java/tel/schich/libdatachannel/PeerConnectionListener.java:76-79 | announcing a channel lists a new object to which its events are then routed; announcing it again changes nothing |
| Lifecycle.LocallyCreated | src/main/java/tel/schich/libdatachannel/PeerConnection.java:377-385 | a channel created locally is alive, points to its peer's unfreed record and is routed to its new object |
| Lifecycle.ClaimedOnce | src/main/java/tel/schich/libdatachannel/DataChannel.java:116-118 | the compare-and-set of close succeeds once |
| Lifecycle.DeletionFails | jni/src/native_peer.c:187-190 | a failed native deletion keeps the peer and its record |
| Lifecycle.OneObjectWhileAlive | src/main/java/tel/schich/libdatachannel/PeerConnection.java:154-160 | a live handle has at most one object |
| Lifecycle.SafeIff | jni/src/native_peer.c:183-192 | all states of a run have live channels pointing to their own peer's unfreed record if and only if each peer is deleted only after Java closed every channel it ever had |
| Lifecycle.NoneAliveIff | src/main/java/tel/schich/libdatachannel/DataChannel.java:119-121 | a peer has no live channel exactly if Java closed every channel it ever had, so the native side need not be asked |
| Lifecycle.EmptyMapMeans | src/main/java/tel/schich/libdatachannel/PeerConnection.java:200-202 | once the map is empty, no channel of the peer is alive if and only if none is being made or unannounced |
| Lifecycle.IdleNoneAlive | jni/src/native_channel.c:107-109 | with the map empty and nothing being made or unannounced, no channel of the peer is alive |
| Lifecycle.QuietCloseIsCareful | src/main/java/tel/schich/libdatachannel/PeerConnection.java:196-203 | once the peer was seen idle, deleting it stays safe until a channel is created or arrives |
| Lifecycle.QuietRunIsSafe | src/main/java/tel/schich/libdatachannel/PeerConnection.java:176-203 | if before every deletion of a peer it was seen idle and nothing came in between, every live channel points to its own peer's unfreed record in every state of the run |
| Lifecycle.ArrivalDuringClose | jni/src/native_peer.c:39-43 | a channel arriving in between is left with a pointer to a freed record |
| Closing.DataChannel.Close | src/main/java/tel/schich/libdatachannel/DataChannel.java:115-130 | the first call closes, deletes if alive, leaves the map, and leaves all six containers closed and empty; later calls do nothing |
| Closing.PeerConnection.NewChannel | src/main/java/tel/schich/libdatachannel/PeerConnection.java:154-156 | an existing object is kept, otherwise a new one is listed |
| Closing.PeerConnection.ClosePass | src/main/java/tel/schich/libdatachannel/PeerConnection.java:197-199 | one pass closes every channel that was listed; what is still listed arrived meanwhile or is being closed by another thread |
| Closing.PeerConnection.CloseChannels | src/main/java/tel/schich/libdatachannel/PeerConnection.java:196-203 | with finitely many arrivals, and other threads ending the closes they began, it ends with an empty map, all listed channels closed and none of them alive natively |
| Closing.PeerConnection.Clean | src/main/java/tel/schich/libdatachannel/PeerConnection.java:82-87 | the exact native calls of the first cleaning, and none later |
| Closing.PeerConnection.Close | src/main/java/tel/schich/libdatachannel/PeerConnection.java:176-191 | closes channels and peer and leaves all eight containers closed and empty; closing again with nothing new makes no native call |
| Attachment.GetEnvOk | jni/src/init.c:15-31 | an environment is found exactly if the thread is attached afterwards, so a failed registration leaves it detached |
| Attachment.EnvFoundIff | jni/src/init.c:15-31 | an unattached thread gets an environment if and only if the JVM attaches it and, on Windows, a key is there and a record can be made and stored |
| Attachment.ExitOk | jni/src/thread_attachment.cpp:17-39 | an exiting thread is detached exactly if it carries a record, which is then gone |
| Attachment.ReleaseOk | jni/src/thread_attachment.cpp:83-93 | freeing the key removes every record but detaches only the caller |
| Attachment.OnlyOwnAttachments | jni/src/init.c:15-49 | in every run of both back ends the library detaches only threads it attached, and an event changes only its own thread, in the permitted ways |
| Attachment.RecordsConserved | jni/src/thread_attachment.cpp:43-93 | at most one key is allocated, and each record made is in a slot or was deleted, once |
| Attachment.ExactIff | jni/src/thread_attachment.cpp:53-93 | exactly the threads the library attached carry a record in all states, if and only if no unloading frees another thread's record; always so without fiber-local slots |
| Attachment.ExitDetaches | jni/src/thread_attachment.cpp:33-37 | while records are exact, thread exit detaches exactly the library's threads |
| Attachment.UnloadOrphansWorkers | jni/src/init.c:97-106 | a worker that outlives the native clean-up and is still attached when unloading ends on Windows is never detached |
| Attachment.BackEndsAgree | jni/src/thread_attachment.cpp:43-81 | until unloading, when nothing fails, both back ends attach, record and detach the same threads |
| Attachment.LoadServes | jni/src/init.c:51-77 | loading serves callbacks if and only if a key is there or can be had, and loading again changes nothing |
| Attachment.CallbackServed | jni/src/init.c:33-39 | a served callback leaves its thread attached, unless the JVM or the record refuses |
| Attachment.UnloadingThread | jni/src/init.c:97-106 | the thread that ends the unloading is attached first if need be, and on Windows whatever the library attached is given back |
| Attachment.UnloadSilences | jni/src/init.c:33-39 | in every run, from the start of unloading until the next load no callback changes anything, whatever else happens |
| ThreadTracking.OneByOne | jni/src/thread_attachment.cpp:17-28 | the order in which record callbacks run does not matter |
| ThreadTracking.Tracker.DetachThread | jni/src/thread_attachment.cpp:17-28 | one callback deletes its record and detaches its thread only from that thread |
| ThreadTracking.Tracker.InitializeJniThreadTracking | jni/src/thread_attachment.cpp:43-51 | a key is allocated once and kept |
| ThreadTracking.Tracker.RegisterJniThread | jni/src/thread_attachment.cpp:53-81 | takes the machine's registration step, deleting a record it cannot store |
| ThreadTracking.Tracker.GetJniEnvFromJvm | jni/src/init.c:15-31 | takes the machine's step and keeps the invariant |
| ThreadTracking.Tracker.ReleaseJniThreadTracking | jni/src/thread_attachment.cpp:83-93 | clears and frees the key, running every callback once |
| ThreadTracking.Tracker.OnLoad | jni/src/init.c:51-77 | takes the machine's loading step, which does nothing when already loaded |
| ThreadTracking.Tracker.BeginOnUnload | jni/src/init.c:97-99 | sets the flag that turns callbacks away |
| ThreadTracking.Tracker.FinishOnUnload | jni/src/init.c:101-105 | takes the machine's unloading step |
| PeImports.WordsRow | tools/audit_allocator_imports.py:50-55 | columns printed with any white space are read back as they were |
| PeImports.LineRead | tools/audit_allocator_imports.py:51-57 | an import line in any of the three layouts gives its name; a descriptor gives a field exactly if it can be misread, and which one |
| PeImports.BoundImportMisread | tools/audit_allocator_imports.py:51-57 | a descriptor with the chain ffffffff is read as an import of that name |
| PeImports.UnmarkedIsPlain | tools/audit_allocator_imports.py:41-45 | a line with no marking character before a blank is no heading |
| PeImports.SymbolsFromPe | tools/audit_allocator_imports.py:37-58 | the loop with its flag and early end computes the specification |
| PeImports.ReportRead | tools/audit_allocator_imports.py:37-58 | reading a printed report gives what its lines seem to give; these are exactly the imported names in order if and only if no descriptor is ambiguous |
| PeImports.Forbidden | tools/audit_allocator_imports.py:61-63 | exactly the distinct heap functions among the symbols, sorted |
| PeImports.HexIsNotHeap | tools/audit_allocator_imports.py:11-21 | no heap function is written in hexadecimal digits |
| PeImports.SeenHeap | tools/audit_allocator_imports.py:61-63 | a heap function is seen in a report exactly if it is imported, misread descriptors or not |
| PeImports.Audit | tools/audit_allocator_imports.py:66-81 | the audit of every report names the heap functions among the imports and nothing else |
| PeMeaning.HeadingsMean | tools/audit_allocator_imports.py:41-43 | sections start and imports end at the literal headings, wherever they stand in a line |
| PeMeaning.GnuLayout | tools/audit_allocator_imports.py:50-51 | the layout of recent GNU tools, with the literal "<none>" |
| PeMeaning.OldGnuLayout | tools/audit_allocator_imports.py:53 | the layout of older GNU tools |
| PeMeaning.LlvmLayout | tools/audit_allocator_imports.py:55 | the layout of LLVM tools, with a hint in decimal digits |
| PeMeaning.NameCharacters | tools/audit_allocator_imports.py:50 | which characters start a name |
| PeMeaning.CoreFunctions | tools/audit_allocator_imports.py:11-21 | malloc, calloc, realloc and free and the forms runtimes export |
| PeMeaning.AlignedFunctions | tools/audit_allocator_imports.py:14-19 | the aligned forms of a heap function |
| PeMeaning.StringFunctions | tools/audit_allocator_imports.py:12-15 | functions that allocate the string they return |
| PeMeaning.ExceptionFunctions | tools/audit_allocator_imports.py:16-17 | the storage of C++ exceptions |
| PeMeaning.OtherFunctions | tools/audit_allocator_imports.py:11-21 | the remaining names, and that there are 45 in all |
| PeMeaning.Prefixed | tools/audit_allocator_imports.py:62-63 | besides the list, exactly operators new and delete and the zone functions |

## Left out

- MachO.Inspect: which of several errors is raised is not stated, only that the image is refused.
- MachOImage.Image: fields that do not fit 32 bits are reduced where `struct.pack` would raise; such images are over the size limit.
- MachOVerify.Verify: which of several reasons for refusing is given; collecting the binaries from a directory, an archive or prebuilt files, and the JSON report.
- ShortSdp.AcceptOffer: starts from the fingerprint, credentials and candidates already matched in the browser's description; characters beyond the basic plane count as one.
- ShortSdp.ReadCompressedSdp: yields the fields of the final text instead of the formatted text, does not model console input, and takes decoded bytes above 127 as single characters where Java decodes UTF-8, which matters only for lines no browser prints from ASCII addresses.
- PeerResources.CreatePeerConnection: the scalar settings copied into the native configuration, and which exception with which text is thrown.
- PeerResources.PassStrings: the reliability settings of a new channel, and the user pointer set after it, which is part of `Lifecycle`.
- PeerResources.ReceiveMessage: the bytes of the message.
- PeerResources.GetDynamicString: modified UTF-8; the text is what the library filled in.
- Listeners.EventListenerContainer.Invoke: one thread's view; listeners act on the container through its methods.
- Lifecycle.SafeIff: each lock section, compare-and-set and JNI function is one step. Creating a channel so merges the native create with reading the peer's pointer and setting the channel's, an arrival merges the pointer with the handle, and deleting a peer merges reading its pointer, the native delete and freeing. An environment is always available, and tracks are not included.
- Closing.PeerConnection.CloseChannels: the depth of the recursion is not bounded, and that other threads make progress is a parameter.
- Closing.DataChannel.Close: the containers are values with the effect of closing them; their callbacks on a dead handle are ignored.
- Attachment.OnlyOwnAttachments: a single JVM, no environment errors other than a detached thread, and no failure of the private allocator's start.
- ThreadTracking.Tracker.FinishOnUnload: the clean-up of the native library between the two halves of unloading is not part of this model; any events may happen there.
- ThreadTracking: the thread-local back end has no code beyond one assignment and one destructor, so only `Attachment` has it.
- PeImports.SymbolsFromPe: starts from lines, takes ASCII white space only, and models the three patterns by their columns.
- Tracks, whose life cycle never enters the peer's map for added tracks.
- Configuration objects, enumerations and other one-branch mappings.
- Allocator redirection, diagnostics counters, source packaging and build scripts.
- The symbol listing of `nm`, which splits lines without further structure.
