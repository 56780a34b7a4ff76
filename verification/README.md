# NodeBus in Dafny

A model of NodeBus, with proofs, in five parts.

**Interface linking.** The linker (`Linker`) runs a depth-first search with white, grey and black marks over mutable
interface objects. It gathers ancestors and reports duplicates, undefined parents, cycles and member conflicts.
`LinkSearch` holds the search on values and its invariant, `LinkReport` what the messages mean and how many there are,
`MemberCounting` the counting argument, `InheritanceGraph` the graph that everything is stated about. The IDL parser
(`IdlParser`) gathers the same ancestors eagerly, one declaration at a time, with nested modules and includes, and accepts a
file exactly when every declaration is welcome at its turn; `EagerClosure` relates that to the graph, and `IdlAcceptance`
says which files these are without a word about turns. `IdlFiles` is about several files, each compiled by itself, and
`IdlCompiler` about the command that compiles and links them: the two computations agree where the files are coherent.

**Codecs.** One recursive value type (`Values`) and three formats. `Bcon`, `Bson` and `JsonPrinter` / `JsonScanner` /
`JsonParser` are the formats as functions; `BconRoundTrip`, `BconExact`, `BsonRoundTrip` and `JsonRoundTrip` prove what a
round trip does to every value and which values survive. `BconGrammar`, `BsonGrammar` and `JsonGrammar` are independent
grammars of what the readers take, whoever wrote it, and prove that each reader takes exactly that and with that meaning;
the first two also say which derivation the writers send, and `JsonLayout` how the JSON writer sets out a text. `BconCodec`,
`BsonCodec`, `JsonCodec` and `JsonDriver` are the imperative writers and readers over `DataStream`, proved against these
functions. `Transcode` joins JSON and BCON. `Text` is about strings that are read byte by byte.

**Read buffer.** `ReadBuffer` is the 64-byte window of a stream channel, `HttpFraming` the header scan and payload loop on
top of it.

**Reference counting.** `SharedPtr` is a machine of atomic steps: threads that build objects and construct, assign and
destroy pointers in any interleaving. `SharedPtrInvariant` proves what every run keeps, `SharedPtrEffect` what a finished
operation has achieved and that it finishes, `SharedPtrWrap` that the bound on the number of pointers is exact.

**Selectors.** `Registration` is the mutual indexing of channels, selectors and keys, with the epoll set of each selector.

`Options` is the option type, `Sequences` and `Words` hold facts about sequences and little-endian words. `dafny verify
dfyconfig.toml` checks everything.

## Conventions

- Bytes are numbers below 256. Machine integers are bounded types, and two's complement is written out in `Words`.
- A string is kept as the UTF-8 bytes of its characters; the local 8-bit encoding is taken to be UTF-8. Where the original
  appends one byte at a time to a QString (the JSON scanner, the keys of BCON and BSON), each byte becomes a character of
  its own; `Text.Widened` says what that does. A QByteArray that is converted to a QString ends at its first NUL, and its
  bytes are taken one by one in the same way; `Text.TextOf` is this conversion.
- A map is a sequence of entries in the order of its keys. The model orders keys by their bytes, QMap by their UTF-16 units;
  where the two differ, the entries of a map are written in another order. A surrogate given by an escape is kept by itself.
- The linker walks QMaps in key order. The model walks them in an arbitrary order, so its results hold for that order too.
- A compilation of a file returns the interfaces that stand in it, not those of its includes, and that is what the command
  links (`IdlCompiler.Execute`). `IdlCompiler.CompileAndLink` links everything that one parse has emitted, in all its files.
- File names are canonical paths. Two compilations share nothing.
- A double is an opaque 8-byte word. How Qt prints and parses doubles is a parameter.
- Reading past the end of a stream, and every exception, is an error result.
- The operands of `|` in the assembly of a length are read from left to right.
- An object has an identity of its own; the model does not reuse addresses. The reference counter has any width of at
  least two values.
- The device behind a stream channel is a byte sequence that arrives in chunks of arbitrary size, and any wait for it may end
  in an exception. A steady device is one on which that happens only when nothing is to come.
- epoll is a set of descriptors and may report any of them, with any events. An event on a readable descriptor carries the
  number of bytes that the system then finds there, if it finds out; a stream without any closes itself in the middle of a
  select.

## Where the code and its documentation disagree

The code is followed in each case, and where it matters the documented form is modelled beside it.

- BCON continuations (`nodebus/BCON.md:78-83`): the writer sends each continuation of a length as a 32-bit word
  (`nodebus/core/serializer.cpp:249-263`), the format and the reader use one byte. `Bcon.Layout` has both. As written,
  strings come back exactly when they are shorter than 64 bytes.
- Short byte arrays (`nodebus/BCON.md:76`): the token constant is 0xA0 instead of 0x80 (`nodebus/core/serializer.cpp:40`), so
  as written the reader takes the length of a byte array for what it is exactly when it has 32 to 63 bytes.
- A BCON byte array never comes back as one: the reader chooses between a QString and a QByteArray in a conditional
  expression (`nodebus/core/parser.cpp:148, 172`), whose type is QString. The bytes up to the first NUL come back, one by
  one, as a string (`BconExact.DataExact`). The normal form of a value has strings in place of its byte arrays.
- The longest BCON form has four continuation bytes in the description and three in the reader
  (`nodebus/core/parser.cpp:160-163`), so lengths end at 2^28.
- The masks that narrow a BCON Int leave out the sign bit (`nodebus/core/serializer.cpp:167-171`): the numbers from -2^31 to
  -2^31 + 2^15 - 1 come back 2^31 higher.
- BSON booleans use 0 for true in both directions, 64-bit integers are sent in four bytes, and the subtype of a binary
  element is written after its length but read before it (`nodebus/core/serializer.cpp:464-468, 508`,
  `nodebus/core/parser.cpp:311-314`). Version 1.1 of the BSON specification has none of these.
- The JSON parser accepts at the end of the first value and never looks at the text after it
  (`nodebus/core/jsonparser/parser.y:78`); section 2 of RFC 8259 allows white space only.
- A number with an exponent and no fraction scans to Int 0, and so does an integer beyond 64 bits.
- Two files of one command line may read an interface in two ways, because a parent is looked up in the module first and
  then globally, among what the compilation has seen so far (`nodebus/core/idlparser/nodemodule.h:64-72`). Each of them
  compiles, and linking them can fail (`IdlFiles.ReadDifferently`).
- A closed channel can still be registered: the selector's map keeps an entry that nothing else knows
  (`nodebus/nio/selector.cpp:107-112`).

## Model

| member | source | states |
|---|---|---|
| InheritanceGraph.AncestorsAreParentClosure | nodebus/idlc/idlc.cpp:84-95 | The interfaces reached by one or more parent steps are the parents together with everything the parents reach: the recursive step that the linker and the parser both implement computes the transitive closure. |
| InheritanceGraph.VerdictIsOrderFree | nodebus/idlc/idlc.cpp:122-137 | Whether a list of declarations can be linked depends on its contents only: any permutation of it has the same verdict, repeated declarations included. |
| MemberCounting.NoRepetition | nodebus/idlc/idlc.cpp:97-118 | Over any set of interfaces the distinct member names are at most as many as the members, and exactly as many if and only if no two distinct interfaces share a member name. |
| LinkReport.RepeatedOverFamily | nodebus/idlc/idlc.cpp:97-118 | The number of messages that the walk over an interface and its ancestors must add is the members of the family minus its distinct member names, and it is zero if and only if the family has no conflict. |
| LinkReport.ClashesJustified | nodebus/idlc/idlc.cpp:109-117 | Each conflict message names two interfaces of the family that both declare the member. |
| LinkSearch.CycleStep | nodebus/idlc/idlc.cpp:78-81 | The marked interfaces are exactly a path of the graph, so reaching a marked interface closes a real cycle, and the message about it is true. |
| LinkSearch.EnterStep | nodebus/idlc/idlc.cpp:83 | Marking an interface that was not visited extends the path and keeps the invariant of the search. |
| LinkSearch.GatherStep | nodebus/idlc/idlc.cpp:91-94 | Copying a parent and its ancestors adds only interfaces that are really reached, and keeps the invariant of the search. |
| LinkSearch.GatheredParent | nodebus/idlc/idlc.cpp:84-95 | As long as no cycle was reported, the ancestors gathered from the parents visited so far are the closure over exactly these parents. |
| LinkSearch.ParentsCompletedNoCycle | nodebus/idlc/idlc.cpp:96-119 | If all parents of an interface are completed and completed interfaces lead to completed ones only, the interface is on no cycle. |
| LinkSearch.FinishStep | nodebus/idlc/idlc.cpp:96-119 | Unmarking and completing the interface on top of the stack, after reporting its conflicts, keeps the invariant of the search: its undefined parents are reported, its conflict messages are counted, its ancestors are exact unless a cycle was reported. |
| LinkSearch.VerdictOnParents | nodebus/idlc/idlc.cpp:78-88 | When every interface is completed: a cycle was reported if and only if there is one, and a symbol was reported as undefined if and only if it is an undefined parent of some interface. |
| LinkSearch.VerdictOnFamily | nodebus/idlc/idlc.cpp:97-118 | Without cycles, the ancestors of each interface are exactly those it reaches, and its conflict messages are as many as the members of its family minus the distinct names. |
| LinkSearch.VerdictOnConflicts | nodebus/idlc/idlc.cpp:97-118 | Without cycles, some conflict is reported if and only if two distinct interfaces of some family share a member name. |
| LinkSearch.LinkVerdict | nodebus/idlc/idlc.cpp:122-137 | The list of messages is empty if and only if names are distinct, parents defined, inheritance acyclic and families free of conflicts; every message is true and every kind of fault present is reported. |
| Linker.Intf.constructor | nodebus/idlc/idlc.cpp:67-75 | A new node is neither marked nor completed, has the declared name and parents in order, and its member table holds exactly the declared member names. |
| Linker.IDLc.AddMembers | nodebus/idlc/idlc.cpp:109-117 | One message for each member of an ancestor whose name was taken, naming the earlier owner; a name keeps its first owner; messages plus new names are the members walked. |
| Linker.IDLc.ReportConflicts | nodebus/idlc/idlc.cpp:97-118 | Exactly as many messages are appended as members of the family repeat a name, and each is about a real clash in the family of this interface. |
| Linker.IDLc.CopyAncestors | nodebus/idlc/idlc.cpp:91-93 | The interface's ancestors become the union of its own and the parent's, each entry once and pointing to the object of that name in the table. |
| Linker.IDLc.ProcessIntf | nodebus/idlc/idlc.cpp:77-120 | The recursive visit on mutable nodes keeps the invariant of the search, never touches a node that is marked or completed, completes the node unless it was marked, reports a cycle if it was, and terminates on every graph because the set of unvisited interfaces shrinks. |
| Linker.IDLc.VisitParent | nodebus/idlc/idlc.cpp:84-95 | One turn of the loop over the parents: an undefined parent is reported and skipped, a defined one is visited and gathered. |
| Linker.IDLc.Complete | nodebus/idlc/idlc.cpp:96-119 | Leaving an interface completes it with the right number of conflict messages and keeps the invariant of the search. |
| Linker.IDLc.Declare | nodebus/idlc/idlc.cpp:123-130 | The table holds the first declaration of each name, later ones are reported, and nothing is reported if and only if the names are distinct. |
| Linker.IDLc.ProcessAll | nodebus/idlc/idlc.cpp:131-133 | In whatever order the table is walked, every interface ends up completed. |
| Linker.IDLc.Link | nodebus/idlc/idlc.cpp:122-137 | Soundness and completeness: linking succeeds if and only if the declarations are linkable; every message is true; duplicates, cycles and undefined parents are each reported if and only if there are some; without cycles every interface's ancestors are exactly those it reaches and its conflict messages are counted exactly. |
| EagerClosure.InheritedIsParentClosure | nodebus/core/idlparser/nodeintf.h:48-58 | Copying the parents and their already gathered ancestors yields the closure over the inheritance graph of the declarations accepted so far. |
| EagerClosure.GrownAncestors | nodebus/core/idlparser/nodeintf.h:48-58 | An interface added at the end, with all parents declared before it, changes no earlier closure, and its own closure is that of its parents. |
| EagerClosure.AcceptOne | nodebus/core/idlparser/parser.y:183-188 | Accepting one more interface (new name, resolved parents, no member conflict with the gathered ancestors) keeps the declarations linkable and all gathered closures exact. |
| IdlParser.NodeRoot.Resolve | nodebus/core/idlparser/nodemodule.h:60-78 | A symbol is looked up in the innermost module first and then globally; the result is the interface of the resolved name, or nothing together with an error if it is unknown or names a member. |
| IdlParser.NodeRoot.GatherParents | nodebus/core/idlparser/nodeintf.h:46-58 | Nothing new is reported if and only if every parent resolves to an interface; while nothing was reported, the result is the parents under their full names, in order, and as ancestors exactly the parents and what they inherit. |
| IdlParser.NodeIntf.constructor | nodebus/core/idlparser/nodeintf.h:40-61 | The header of an interface reports nothing if and only if its full name is new and every parent resolves to an interface; then it has gathered the closure over its parents. |
| IdlParser.NodeIntf.Append | nodebus/core/idlparser/nodeintf.h:63-73 | A member enters the table under its qualified name and the member list; a name already taken is reported and changes nothing else. |
| IdlParser.NodeIntf.CheckConflicts | nodebus/core/idlparser/driver.cpp:235-261 | Finalisation reports nothing if and only if the members of the interface and of all its gathered ancestors have pairwise distinct names. |
| IdlParser.Driver.constructor | nodebus/core/idlparser/driver.cpp:31-35 | A driver starts in the root context and enters its file in the shared list before anything of it is parsed. |
| IdlParser.Driver.Push | nodebus/core/idlparser/driver.cpp:66-69 | The current context goes on the stack and the new one becomes current. |
| IdlParser.Driver.Pop | nodebus/core/idlparser/driver.cpp:62-64 | The context that was left last becomes current again. |
| IdlParser.Driver.AppendInterface | nodebus/core/idlparser/noderoot.h:44-53 | A finished interface enters the table under its full name; a taken name is reported. |
| IdlParser.Driver.ParseInterface | nodebus/core/idlparser/parser.y:183-203 | An interface is reported if and only if it is not welcome: its name and those of its members are new, its parents resolve to interfaces declared before, however many they are, and its family has no member conflict (that this is the right condition is `IdlAcceptance.OneTurn`). Otherwise it enters the table with its resolved parents and its closure, is emitted with full name and members, and the context is restored. |
| IdlParser.Driver.Finish | nodebus/core/idlparser/parser.y:183-184 | At the closing brace the interface is finalised, emitted, the context popped and the interface entered; nothing is reported if and only if its members conflict with none of its ancestors, nor these among each other, and then the gathered closures stay those of the emitted declarations. |
| IdlParser.Driver.OpenInterface | nodebus/core/idlparser/parser.y:187-188 | The header becomes the current context; it is accepted if and only if the name is new and all parents, any number of them, are known interfaces, and then the closure over them is gathered. |
| IdlParser.Driver.ParseMembers | nodebus/core/idlparser/parser.y:195-203 | Members are entered under their qualified names; nothing is reported if and only if they are new and distinct, and the interfaces known so far stay as they are. |
| IdlParser.Driver.ParseModule | nodebus/core/idlparser/parser.y:126-135 | The elements of a module are processed in its prefix and the context is restored at the end; exactly its interfaces are emitted in order, and nothing is reported if and only if each of them is welcome at its turn. |
| IdlParser.Driver.IncludeFile | nodebus/core/idlparser/driver.cpp:71-86 | An include of a listed file does nothing; any other include shrinks the set of files not yet listed, parses the file, and lists only files reached by includes; it succeeds if and only if the file can be opened and everything in it and its includes is welcome at its turn. |
| IdlParser.ParseFile | nodebus/core/idlparser/parser.y:115-124 | A file is parsed with every file it includes, each once, whatever cycles the includes form; it is accepted if and only if every include can be opened and every interface is welcome at its turn, and then it emits exactly its own interfaces in order. |
| IdlAcceptance.OneTurn | nodebus/core/idlparser/parser.y:183-203 | The parser takes an interface if and only if the list of those before it stays acceptable with it at the end: linkable, every interface behind its parents, no name entered twice; and then it knows exactly the longer list, with the closures of its inheritance graph. |
| IdlAcceptance.CompilesExactly | nodebus/core/idlparser/parser.y:115-203 | Acceptance without the parser: a file compiles if and only if all includes can be opened and the flat list of its interfaces, those of an include in its place and each parent looked up in the module and then globally among the names before it, is linkable, has every parent before its children, and enters no name twice. Then what was gathered is the closure over exactly this list. |
| IdlAcceptance.NamesOncePlainly | nodebus/core/idlparser/nodeintf.h:63-73 | Unless a member has a colon in its name, no name is entered twice if and only if the interfaces have different names, the members of each have different names, and no qualified member is called like an interface. |
| IdlAcceptance.DocumentEmits | nodebus/core/idlparser/driver.cpp:235-261 | What a file emits are the interfaces that stand in the file itself, in order, with full names and members. |
| IdlCompiler.Parse | nodebus/core/idlparser/driver.cpp:46-60 | For every include graph the call returns, and the parsed files are exactly the root file and the readable files reachable from it by includes, none twice; nothing is reported if and only if all includes can be opened and the interfaces, as they stand one after the other, are linkable, each after its parents, with no name entered twice; then the declarations of the file itself are returned, with the parents as its compilation has resolved them. |
| IdlCompiler.CompileAndLink | nodebus/idlc/idlc.cpp:84-118 | The two closure computations agree: linking everything that one parse has emitted, in all its files, succeeds if and only if the file compiles, and for every interface both have gathered the same ancestors, which are those it reaches. |
| IdlCompiler.CompileFiles | nodebus/idlc/idlc.cpp:153-157 | The files of the command line are compiled one by one, each with a parse of its own; this succeeds if and only if each of them compiles, and yields their declarations one after the other. |
| IdlCompiler.Execute | nodebus/idlc/idlc.cpp:139-193 | The command succeeds if and only if every file is accepted, in the sense of `IdlAcceptance.CompilesExactly`, and the declarations together are linkable; coherent files always succeed, and then the linker has gathered for every interface the ancestors that each compilation had gathered. |
| IdlFiles.DocumentGrows | nodebus/core/idlparser/driver.cpp:71-86 | Whatever a compilation comes to know stands in its file or in a file listed because of it, under the members given there, and could have been declared parents first; nothing known before changes. |
| IdlFiles.WithinVerdict | nodebus/idlc/idlc.cpp:77-120 | An interface keeps its ancestors, its freedom from cycles and from conflicts in every larger set of declarations, once all its ancestors have their parents in the smaller one. |
| IdlFiles.LinkedTogether | nodebus/idlc/idlc.cpp:153-180 | Files that include only each other, declare no name twice and read no interface in two ways are linkable when each is compiled by itself, in any order and with any include cycles, and every compilation has found the final ancestors. |
| IdlFiles.ReadDifferently | nodebus/core/idlparser/nodemodule.h:60-78 | The witness that more than distinct names is needed: two files that compile and include no other declare four interfaces of different names and cannot be linked, because a parent is resolved to the name in the module in one compilation and to the global name in the other. |
| Values.InsertSorted | nodebus/core/parser.cpp:226-233 | Setting a key keeps a map in key order. |
| Values.InsertSets | nodebus/core/parser.cpp:231 | Setting a key changes the value of that key and of no other. |
| Values.InsertAllSets | nodebus/core/parser.cpp:226-233 | Entries in any order, keys repeated or not, set one after the other make a map in key order with exactly the contents of the unordered map in which they are set one after the other. |
| Values.LastOneStays | nodebus/core/parser.cpp:231 | A key ends up with the value of the last entry that has it. |
| Text.UnchangedIffAscii | nodebus/core/parser.cpp:240-244 | Text appended byte by byte stays what it was if and only if it is ASCII. |
| Text.BytesAreCharacters | nodebus/core/parser.cpp:240-244 | Decoded as UTF-8, text appended byte by byte has exactly the bytes as its characters, one for one. |
| Text.Utf8IsRead | nodebus/core/jsonparser/scanner.l:150 | A 16-bit code unit is kept in one, two or three bytes, from which section 3 of RFC 3629 decodes it again. |
| Text.TextOfExact | nodebus/core/parser.cpp:148 | The string that a byte array turns into, its bytes up to the first NUL taken one by one, has the same bytes if and only if the array is ASCII without NUL. |
| Text.WidenedLess | nodebus/core/parser.cpp:240-244 | Widening keys in this way keeps their order, so no two keys of a map collide. |
| Words.Decode64Encode | nodebus/core/datastream.cpp:71-89 | A 64-bit word read back from its little-endian bytes is the word written, whatever follows. |
| Words.Word64 | nodebus/core/datastream.cpp:71-89 | A 64-bit word is sent as its digits in base 256, the lowest first. |
| DataStream.Stream.WriteMemory | nodebus/core/datastream.cpp:162-188 | A word given in the host's memory order reaches the device in little-endian order, swapped through a local buffer where needed. |
| DataStream.Stream.WriteWord | nodebus/core/datastream.cpp:162-207 | The bytes on the device do not depend on the host's byte order. |
| DataStream.Stream.Read | nodebus/core/datastream.cpp:33-39 | Reading takes exactly the requested bytes, or fails without taking any when too few are left. |
| DataStream.Stream.ReadWord | nodebus/core/datastream.cpp:41-89 | A word is received as the next bytes of the stream on either host; too few bytes are an error. |
| Bcon.MasksLeaveOutTheSign | nodebus/core/serializer.cpp:164-178 | The two masks of the narrowing compare the number without its sign bit: they select numbers that are small modulo 2^31. |
| Bcon.ShortDataHeaderBits | nodebus/core/serializer.cpp:274-277 | The short header of a byte array as written is 0x80 plus the length, with 32 added when the length is below 32. |
| Bcon.ReadKey | nodebus/core/parser.cpp:240-244 | A key ends at the first NUL and holds none; reading fails exactly when there is no NUL. |
| BconRoundTrip.LongHeader | nodebus/core/parser.cpp:149-172 | The length assembled from the continuation bytes of a documented header is the length written, for every length from 64 up to 2^28. |
| BconRoundTrip.BlobRoundTrip | nodebus/core/parser.cpp:146-172 | A string with a length that the layout carries comes back unchanged, and a byte array comes back as the string of its bytes up to the first NUL, widened one by one; both leave what follows. |
| BconRoundTrip.IntRoundTrip | nodebus/core/serializer.cpp:164-179 | Every 32-bit Int outside [-2^31, -2^31 + 2^15) comes back; inside that window the number comes back 2^31 higher; in both cases what follows is left. |
| BconRoundTrip.LeafRoundTrip | nodebus/core/parser.cpp:140-212 | Every value without elements whose length the layout carries arrives, whatever its number, and leaves what follows. |
| BconRoundTrip.Arrives | nodebus/core/parser.cpp:139-246 | Self-delimiting arrival: every nested value whose lengths the layout carries and whose keys hold no NUL is received part by part, with each number as the narrowing left it, and exactly what follows is left. |
| BconRoundTrip.ReceivedExact | nodebus/core/serializer.cpp:164-179 | What is received is the normal form if and only if no Int anywhere in the value is in the window of lost signs. |
| BconRoundTrip.ReadKeyBack | nodebus/core/parser.cpp:240-244 | A key without NUL is read up to its terminator, widened byte by byte, and what follows is left. |
| BconRoundTrip.RoundTrip | nodebus/core/serializer.cpp:149-307 | Self-delimiting round trip: for every nested value that a check before writing admits, and whatever bytes follow, the reader returns the normal form, in which every byte array is a string, and leaves exactly what follows. |
| BconRoundTrip.ListRoundTrip | nodebus/core/parser.cpp:213-223 | The reader's loop appends the elements in order, each as it is received, and stops at the end token of this list. |
| BconRoundTrip.MapRoundTrip | nodebus/core/parser.cpp:224-235 | The reader's loop restores every entry under its own key, each value as it is received, and stops at the end token of this map. |
| BconRoundTrip.KeyedRoundTrip | nodebus/core/serializer.cpp:306 | The same for a value followed by its key. |
| BconExact.LeafSpoils | nodebus/core/serializer.cpp:239-300 | A string or Int that fails the check is never restored: reading fails, or another value is returned, or zeros are left over in front of what follows. |
| BconExact.LeafExact | nodebus/core/parser.cpp:140-212 | A value without elements comes back in normal form, leaving what follows, if and only if the check holds, byte arrays included. |
| BconExact.DataExact | nodebus/core/parser.cpp:148-172 | A byte array never comes back as a byte array, because the reader's conditional expression has type QString; the string of its very bytes comes back if and only if the layout carries the length and the bytes are ASCII without NUL. |
| BconExact.RoundTripExact | nodebus/core/serializer.cpp:149-307 | For values without maps, and without byte arrays of a length that is misread, the check is exact in the layout as written and in the documented one, whatever follows: the value comes back in normal form if and only if the check holds. |
| BconExact.MisreadDataMayComeBack | nodebus/core/parser.cpp:148-172 | The witness for that restriction: a list of two byte arrays whose lengths are both misread comes back in normal form all the same, whatever follows. |
| BconExact.ParsedReadable | nodebus/core/parser.cpp:139-246 | No value read from any bytes holds a byte array, or a key with a NUL, at any level. |
| BconExact.SafeLengthsExact | nodebus/core/serializer.cpp:228-238 | With lengths that the layout carries, any nested value, maps included, comes back in normal form if and only if every Int is outside the window of lost signs and no key holds a NUL. |
| BconExact.NulNeverReturns | nodebus/core/parser.cpp:240-244 | Whatever its lengths and numbers, a value with a NUL in some key, at whatever level, never comes back. |
| BconExact.KeyExact | nodebus/core/parser.cpp:240-244 | A key comes back unchanged if and only if it is ASCII without NUL. |
| BconCodec.Serializer.WriteBlob | nodebus/core/serializer.cpp:239-300 | The header and the bytes of the layout are sent; a length of 2^36 or more is refused with nothing sent. |
| BconCodec.Serializer.WriteScalar | nodebus/core/serializer.cpp:151-216 | Each scalar is sent as its token and its word. |
| BconCodec.Serializer.SerializeBCON | nodebus/core/serializer.cpp:149-307 | The recursive writer sends exactly the bytes of the value and then of the key, on either host; it fails exactly for values with an oversized string or byte array. |
| BconCodec.Parser.ReadLength | nodebus/core/parser.cpp:149-167 | The continuation bytes are taken and the length assembled as the format says; the two unused forms and a stream that ends are errors. |
| BconCodec.Parser.ReadKeyBytes | nodebus/core/parser.cpp:240-244 | The loop over the key reads up to the first NUL, or fails if there is none. |
| BconCodec.Parser.ParseBCON | nodebus/core/parser.cpp:139-246 | The recursive reader consumes from its stream exactly what the pure reader consumes, and returns the same value, end mark or error; `BconGrammar.ReaderIsGrammar` says what that is on every input. |
| BconCodec.Parser.ParseElements | nodebus/core/parser.cpp:213-223 | The loop that fills a list computes the pure list reader. |
| BconCodec.Parser.ParseMembers | nodebus/core/parser.cpp:224-235 | The loop that fills a map computes the pure map reader. |
| BconCodec.WriteThenRead | nodebus/core/serializer.cpp:149-307 | Writer and reader run one after the other, on hosts of any two byte orders: every part of the value is received, in normal form if and only if its numbers are safe, and exactly the trailer is left. |
| BconGrammar.DerivedIsRead | nodebus/core/parser.cpp:139-246 | On bytes, not on what this writer emits: every derivation of the format is read with its meaning and leaves what follows: every integer token over its whole range, negative numbers included, every form of a text for every length it carries, lists, and maps with entries in any order and keys repeated. |
| BconGrammar.ReadIsDerived | nodebus/core/parser.cpp:139-246 | Whatever bytes are read as a value, the format derives exactly the bytes consumed, with that value as the meaning. |
| BconGrammar.ReaderIsGrammar | nodebus/core/parser.cpp:139-246 | The reader returns a value and a rest if and only if the format derives the bytes in front of the rest with that meaning. |
| BconGrammar.MapsHoldTheLast | nodebus/core/parser.cpp:224-235 | Entries in any order: the map that is read is in key order and holds the last value sent for each key. |
| BconGrammar.IsSent | nodebus/core/serializer.cpp:149-307 | The bytes sent, token by token: a value of carried lengths is sent as one particular derivation of the format, in which every number has the narrowest token that holds it (for an Int with the sign bit left out), and every text the smallest form. |
| BconGrammar.ScalarIsSent | nodebus/core/serializer.cpp:151-216 | The same for every scalar, in both layouts. |
| BconGrammar.DocumentedHeader | nodebus/BCON.md:66-83 | The header of the documented layout is that of the smallest form that carries the length, with the length in little-endian digits behind its lowest four bits. |
| BconGrammar.WrittenHeader | nodebus/core/serializer.cpp:249-263 | The header as written, for every length from 64 up to 2^28, is the documented one with three zeros behind each continuation byte. |
| JsonPrinter.PassesAreOne | nodebus/core/serializer.cpp:138-147 | The seven successive replacements over the whole string equal one pass that escapes each character by itself. |
| JsonPrinter.NothingRawIsLeft | nodebus/core/serializer.cpp:138-147 | Whatever the string, none of the five control characters is left in it as such, and it is printed unchanged if and only if it has no control character, quote or backslash. |
| JsonPrinter.FlagsWord | nodebus/core/serializer.cpp:323-326 | The masks and shifts of the writer take and set the step, the compact bit and the offset as fields of the 32-bit word. |
| JsonPrinter.OffsetAtDepth | nodebus/core/serializer.cpp:323-333 | Step and compact bit reach every nested value unchanged, and the offset there is the depth times the step, modulo 2^16. |
| JsonLayout.PrintedByColumns | nodebus/core/serializer.cpp:309-377 | At every depth, the text of a value is the one set out by columns: the brackets of a container d levels deep stand at the margin plus d steps, modulo 2^16, and its elements one step further in, whatever word was handed down. |
| JsonLayout.DocumentByColumns | nodebus/core/serializer.cpp:309-377 | The same for a whole text, from the fields of the flags word. |
| JsonLayout.ClosesWhereItsLineStarts | nodebus/core/serializer.cpp:345 | Within 16 bits, the line break and spaces before a closing bracket are as many characters as those that opened the line of the container. |
| JsonScanner.DigitCount | nodebus/core/jsonparser/scanner.l:97 | The run of digits is the longest one. |
| JsonScanner.NextToken | nodebus/core/jsonparser/scanner.l:133-171 | Scanning a token always shortens the text unless its end is reached, so scanning terminates on every input. |
| JsonRoundTrip.ScanEscapedString | nodebus/core/jsonparser/scanner.l:135-148 | The string conditions undo the escapes of every string and stop exactly at the closing quote. |
| JsonRoundTrip.StringExact | nodebus/core/jsonparser/scanner.l:135-148 | A printed string scans back to itself, leaving what follows, if and only if it is ASCII. |
| JsonRoundTrip.NumberRoundTrip | nodebus/core/jsonparser/scanner.l:44-48 | A printed integer scans back to an Int when it is in [0, 2^31), to a LongLong when it is another 64-bit number, and to Int 0 beyond; the number ends where the text of the number ends. |
| JsonRoundTrip.NumberExact | nodebus/core/serializer.cpp:378-397 | A printed integer keeps its number if and only if it is below 2^63. |
| JsonRoundTrip.RoundTrip | nodebus/core/serializer.cpp:309-410 | For every nested value without doubles and date-times, its maps in key order or not, every flags word and every text that follows, parsing the printed text gives the normal form, in which a byte array is the string it converts to, and stops exactly where the text ends. |
| JsonRoundTrip.ListRoundTrip | nodebus/core/jsonparser/parser.y:93-95 | The same for arrays, elements in order. |
| JsonRoundTrip.MapRoundTrip | nodebus/core/jsonparser/parser.y:88-91 | The same for objects with members in any order, keys repeated or not: each member is set under its own key, one after the other. |
| JsonRoundTrip.MembersInAnyOrder | nodebus/core/jsonparser/routines.h:47-55 | Printed entries in any order, keys repeated or not, under every flags word: the map read back is in key order and holds for each key the value of its last member. |
| JsonRoundTrip.NormOfSorted | nodebus/core/jsonparser/routines.h:47-55 | A map in key order, as any QMap is, comes back entry by entry, in the same order. |
| JsonRoundTrip.DocumentRoundTrip | nodebus/core/jsonparser/parser.y:78-80 | The whole document, under every flags word: the indentation, the compact bit and a wrapped offset never change the value read back. |
| JsonCodec.Writer.WriteString | nodebus/core/serializer.cpp:138-147 | The seven passes and the quotes reach the stream. |
| JsonCodec.Writer.SerializeJSON | nodebus/core/serializer.cpp:309-410 | The recursive writer sends exactly the specified text for every flags word and fails exactly for values with a date-time. |
| JsonCodec.Writer.SerializeArray | nodebus/core/serializer.cpp:350-376 | The loop of an array sends leads, elements and tail in order. |
| JsonCodec.Writer.SerializeObject | nodebus/core/serializer.cpp:321-348 | The loop of an object sends leads, keys, separators, values and tail in order. |
| JsonCodec.Scanner.Yylex | nodebus/core/jsonparser/scanner.l:133-171 | Running the rules with the start condition and the string under construction as state returns the next token, consumes exactly its text and ends in the initial condition. |
| JsonCodec.Scanner.MatchInString | nodebus/core/jsonparser/scanner.l:135-151 | Each rule of the three string conditions makes progress and preserves what remains to be matched. |
| JsonDriver.Driver.Parse | nodebus/core/jsonparser/parser.y:78-80 | The parser over the scanner computes the grammar function; it accepts at the end of the first value and tells empty input from malformed input. `JsonGrammar.DocumentIsGrammar` says what that is on every text. |
| JsonDriver.Driver.ParseMembers | nodebus/core/jsonparser/routines.h:47-55 | Members are inserted one by one into the map under construction, in whatever order they come; the result is that of the grammar function. |
| JsonDriver.Driver.ParseElements | nodebus/core/jsonparser/routines.h:57-64 | Elements are appended one by one to the list under construction; the result is that of the grammar. |
| JsonDriver.WriteThenRead | nodebus/core/serializer.cpp:309-410 | Writer, scanner and parser run one after the other return the normal form, under every flags word. |
| JsonGrammar.ReadQuoted | nodebus/core/jsonparser/scanner.l:133-151 | A string in quotes is read with the meaning of its characters: plain bytes, the escapes by letter, line breaks that are passed over, and code units by four hexadecimal digits, the first one the highest. |
| JsonGrammar.ReadNumber | nodebus/core/jsonparser/scanner.l:44-131 | A number of any sign, digits, fraction and exponent, in front of a text that does not continue it, is read as a whole and with its meaning. |
| JsonGrammar.DerivedIsRead | nodebus/core/jsonparser/parser.y:78-95 | On texts, not on what this writer prints: every text that the grammar derives, with white space anywhere between tokens, members in any order and keys repeated, is parsed with its meaning and leaves what follows. |
| JsonGrammar.ReadIsDerived | nodebus/core/jsonparser/parser.y:78-95 | Whatever text is parsed as a value, the grammar derives exactly what was consumed. |
| JsonGrammar.ParserIsGrammar | nodebus/core/jsonparser/parser.y:78-95 | The parser returns a value and a rest if and only if the grammar derives the text in front of the rest, behind white space, with that meaning. |
| JsonGrammar.DocumentIsGrammar | nodebus/core/jsonparser/parser.y:78-80 | A text is accepted with a value if and only if the grammar derives some text that it starts with, with that meaning. |
| JsonGrammar.ObjectsHoldTheLast | nodebus/core/jsonparser/parser.y:88-91 | Members in any order, keys repeated or not: the object that is read is in key order and holds the last value of each key. |
| Transcode.ParsedVariant | nodebus/core/jsonparser/scanner.l:44-48 | Whatever the text, a value that the JSON parser produces has no negative Int, no LongLong that would fit an Int, and its maps are in key order. |
| Transcode.JsonValueIsNormal | nodebus/core/serializer.cpp:164-202 | Such a value has no integer in the window of lost signs, and it is its own BCON normal form if and only if its keys are ASCII. |
| Transcode.Lossless | nodebus/test/main.cpp:106-113 | JSON to BCON and back, for any JSON text and either layout: a value with a NUL in a key never returns; where the layout carries the lengths of the strings, the value returns exactly, types included, if and only if every key is ASCII without NUL; and a value without objects returns if and only if the layout carries these lengths. |
| Transcode.NulFromText | nodebus/core/jsonparser/scanner.l:150 | An escaped NUL in a JSON text does reach the string value. |
| Transcode.NulKeyIsLost | nodebus/core/parser.cpp:240-244 | The witness: a map with the key NUL comes back with an empty key and one byte left over. |
| Transcode.AccentIsWidened | nodebus/core/parser.cpp:240-244 | The other witness: a key of one accented letter, two bytes, comes back as four bytes. |
| Bson.ParseElt | nodebus/core/parser.cpp:260-360 | Every element that is read consumes at least one byte, so reading terminates on every input. |
| BsonRoundTrip.PrefixIsLength | nodebus/core/serializer.cpp:438-443 | At every nesting level the length prefix of a document equals the number of its bytes, and the document ends with the end token. |
| BsonRoundTrip.LeafExact | nodebus/core/serializer.cpp:446-514 | A scalar element comes back, leaving what follows, if and only if it is neither a 64-bit integer nor a byte array that is not empty. |
| BsonRoundTrip.Int64Body | nodebus/core/serializer.cpp:464-470 | A 64-bit integer never comes back: it is sent in four bytes and read from eight. |
| BsonRoundTrip.DataBody | nodebus/core/serializer.cpp:504-510 | A byte array that is not empty never comes back: its length is read one byte late. |
| BsonRoundTrip.IndexRoundTrip | nodebus/core/serializer.cpp:429-432 | The decimal keys of a list read back as the indices they were printed from. |
| BsonRoundTrip.ElementRoundTrip | nodebus/core/parser.cpp:260-360 | Every nested element that the check admits comes back under its key and leaves what follows. |
| BsonRoundTrip.ItemsRoundTrip | nodebus/core/parser.cpp:343-354 | Inserting at the decimal index restores the order of the list. |
| BsonRoundTrip.MembersRoundTrip | nodebus/core/parser.cpp:330-341 | The entries of a nested map are restored under their own keys. |
| BsonRoundTrip.DocumentRoundTrip | nodebus/core/parser.cpp:248-258 | A root map that the check admits comes back in normal form, and exactly the bytes after the document are left. |
| BsonCodec.Serializer.SerializeBSONDocument | nodebus/core/serializer.cpp:412-444 | The nested streams produce exactly the document of the value, on either host. |
| BsonCodec.Serializer.SerializeBSONElt | nodebus/core/serializer.cpp:446-514 | One element is sent: token, key, NUL and body. |
| BsonCodec.Parser.ParseBSONDocument | nodebus/core/parser.cpp:248-258 | The reader computes the pure document reader and consumes the same bytes. |
| BsonCodec.Parser.ParseBSONElt | nodebus/core/parser.cpp:260-360 | The reader of one element computes the pure one, with the same end mark and the same errors. |
| BsonCodec.WriteThenRead | nodebus/core/serializer.cpp:412-444 | Writer and reader run one after the other, on hosts of any two byte orders, return the normal form. |
| BsonGrammar.DerivedIsRead | nodebus/core/parser.cpp:260-360 | On bytes, not on what this writer emits: every element body that the format derives is read with its meaning and leaves what follows: 64-bit integers of eight bytes, object ids, binary data of any but the UUID subtypes, texts with any last byte, containers with any length prefix, elements in any order. |
| BsonGrammar.ReaderIsGrammar | nodebus/core/parser.cpp:260-360 | The reader returns a value and a rest if and only if the format derives the bytes in front of the rest, behind that token, with that meaning. |
| BsonGrammar.DocumentIsGrammar | nodebus/core/parser.cpp:248-258 | The same for a whole document: it is a map, whatever its length prefix says. |
| BsonGrammar.InsertAtMeans | nodebus/core/parser.cpp:353 | An element of a list is put at the index that its key is, or at the nearer end, and the others keep their order. |
| BsonGrammar.MapsHoldTheLast | nodebus/core/parser.cpp:330-341 | Elements in any order, keys repeated or not: the map that is read is in key order and holds the last value of each key. |
| BsonGrammar.IsSent | nodebus/core/serializer.cpp:446-514 | The bytes sent, token by token, for values without 64-bit integers and filled byte arrays: numbers in their own width, a NUL behind each text, decimal keys, and the length of the whole document in front of it. |
| ReadBuffer.StreamChannel.Available | nodebus/nio/streamchannel.cpp:73-98 | The number returned is at least the window and at most what is to come; with `noEmpty` it is positive unless an exception ends the wait, and none does on a steady device while bytes are to come. |
| ReadBuffer.StreamChannel.CheckBuf | nodebus/nio/streamchannel.cpp:32-39 | Refilling changes nothing of what is still to be delivered, and leaves the window not empty. |
| ReadBuffer.StreamChannel.Get | nodebus/nio/streamchannel.cpp:41-44 | The next byte of the stream is delivered and only it is gone; on a steady device this fails only at the end of the stream. |
| ReadBuffer.StreamChannel.Peek | nodebus/nio/streamchannel.cpp:46-49 | The next byte of the stream is shown and nothing is gone. |
| ReadBuffer.StreamChannel.Ignore | nodebus/nio/streamchannel.cpp:51-55 | Exactly the requested bytes are skipped, or fewer when an exception ends it. |
| ReadBuffer.StreamChannel.Read | nodebus/nio/streamchannel.cpp:57-67 | The next bytes of the stream, at least one and at most the requested number, are put at the offset and nothing else is gone; on a steady device this fails only at the end of the stream. |
| ReadBuffer.Perform | nodebus/nio/streamchannel.cpp:41-67 | One operation, and the bytes that it hands to its caller: they are the first bytes of what was to be delivered, and what goes is exactly these, nothing for a peek, or the bytes skipped. |
| ReadBuffer.Run | nodebus/nio/streamchannel.cpp:32-67 | For any operations and any chunks of the device: the answer of each operation consists of the next bytes of the original stream after all that went before, a read or a get hands out exactly what then goes, a peek shows the next byte, a skip goes over the bytes asked for, and what is left at the end is the rest of the stream. An operation fails if the stream no longer holds what it asks for, and on a steady device that has bytes left only then. |
| HttpFraming.HeaderIsUnique | nodebus/proxy/httppeer.cpp:91-100 | A stream has at most one shortest prefix that ends in an empty line, and every longer prefix contains it. |
| HttpFraming.ReadHeader | nodebus/proxy/httppeer.cpp:89-104 | The sliding loop consumes exactly the shortest prefix of at least four bytes that ends in CR LF CR LF; the data is that prefix without its last line break; after an exception no header is complete in what was read, and a steady device has been read to its end. |
| HttpFraming.ReadPayload | nodebus/proxy/httppeer.cpp:121-133 | The payload loop gathers exactly the announced number of following bytes, whatever the chunks; on a steady device it fails only if the stream holds fewer. |
| HttpFraming.ReadRequest | nodebus/proxy/httppeer.cpp:88-136 | An accepted request accounts for every byte: header data, line break, payload of the announced length, bytes dropped afterwards and bytes still to come are the original stream. A request is accepted only if the stream starts with a header and holds the whole payload, not empty, that it announces; and on a steady device always if it does, whatever the chunks. |
| SharedPtrInvariant.StepKeeps | nodebus/core/sharedptr.h:202-295 | Every atomic step of every thread keeps the invariant, as long as no more pointers exist than the counter has values. |
| SharedPtrInvariant.RunIsSafe | nodebus/core/sharedptr.h:202-295 | In every run, whatever the interleaving, no step touches a deleted object or a pointer that is not there; pointers are made from other pointers, from the address of an object just built, and from the address of an object that some untouched pointer owns. What the operations achieve is `SharedPtrEffect.FinishedIsAchieved`. |
| SharedPtrEffect.FinishedIsAchieved | nodebus/core/sharedptr.h:202-295 | In every run and whatever the other threads do in between: a finished construction or assignment has left its pointer with the object that the source held when it began, counted in if there is one; a finished destruction has removed its pointer; the pointers that the source refers to are as they were; and no step of the thread has touched another pointer. |
| SharedPtrEffect.TouchesOnlyItsPointer | nodebus/core/sharedptr.h:202-295 | A step changes no pointer but that of the operation it belongs to, and no thread but its own. |
| SharedPtrEffect.StepIsProgress | nodebus/core/sharedptr.h:202-295 | A busy thread can always take a step, and every step of its own brings it nearer to the end of its operation. |
| SharedPtrEffect.SevenSteps | nodebus/core/sharedptr.h:202-295 | An operation takes at most seven atomic steps of its own thread, however the others interleave. |
| SharedPtrInvariant.CountIsOwners | nodebus/core/sharedptr.h:213-221 | The count of an object is the number of pointers that have counted themselves in, and each of these has an object to refer to. |
| SharedPtrInvariant.LastOwnerDeletes | nodebus/core/sharedptr.h:204-211 | A thread sets out to delete an object if and only if its step lets the last owner go, and then it saw 1. |
| SharedPtrInvariant.FreedOnce | nodebus/core/sharedptr.h:204-211 | No object is freed twice, and only the thread that set out to delete it frees it. |
| SharedPtrInvariant.NothingLeaks | nodebus/core/shareddata.cpp:25-32 | When all threads are idle, exactly the objects without owner are freed, and the global counter is the number of the others. |
| SharedPtrWrap.WrappedCountFaults | nodebus/core/shareddata.h:29 | The bound is exact for every counter width: with one pointer more, some run deletes an object that has owners and touches it afterwards. |
| SharedPtrInvariant.SawOne | nodebus/core/sharedptr.h:206 | As long as there are no more pointers than counter values, a count that reads 1 means one owner. |
| SharedPtrInvariant.ReleaseKeeps | nodebus/core/sharedptr.h:277-286 | Letting an object go keeps the invariant: if it was the last owner the thread alone keeps the object from then on. |
| SharedPtrInvariant.AcquireKeeps | nodebus/core/sharedptr.h:290-294 | Counting in keeps the invariant: the object was alive because its source was pinned or freshly built by this thread. |
| SharedPtrInvariant.FreeKeeps | nodebus/core/sharedptr.h:206-209 | Freeing keeps the invariant: nobody owns the object and no other thread keeps it. |
| SharedPtrInvariant.MakeKeeps | nodebus/core/shareddata.cpp:27-29 | A new object starts with count 0, kept by the thread that builds it. |
| Registration.Channel.KeyFor | nodebus/nio/channel.cpp:63-68 | The present key for the selector, or none. |
| Registration.Channel.CancelFor | nodebus/nio/channel.cpp:57-59 | The present registration with a selector goes from all three views, and its key is cancelled. |
| Registration.Channel.RegisterTo | nodebus/nio/channel.cpp:56-61 | The new key replaces the present one in the channel's map, the selector's map and the epoll set; the three views agree afterwards if and only if the channel is open. |
| Registration.Channel.CloseChannel | nodebus/nio/channel.cpp:44-54 | A closed channel is registered nowhere, its keys are cancelled, and other registrations stay. |
| Registration.Channel.UpdateStatus | nodebus/nio/iochannel.cpp:108-117 | A stream closes itself if and only if its event has ended it: reported as readable, with no byte to read or the number of bytes not to be found out. That cancels all its registrations; any other channel stays as it is. |
| Registration.SelectionKey.Enrol | nodebus/nio/selectionkey.cpp:29-34 | The new key enters both maps and the epoll set; for a closed channel it enters the selector's map only, and the views no longer agree. |
| Registration.SelectionKey.Cancel | nodebus/nio/selectionkey.cpp:39-47 | Cancelling a registered key takes exactly its registration out of all three views; cancelling it again does nothing; epoll never refuses. |
| Registration.Selector.Put | nodebus/nio/selector.cpp:103-114 | The key is entered before epoll is asked; epoll refuses a closed descriptor and one it has already. |
| Registration.Selector.Remove | nodebus/nio/selector.cpp:116-124 | The entry goes before epoll is asked; epoll refuses a closed descriptor and one it does not have. |
| Registration.Selector.Unlist | nodebus/nio/selector.cpp:76-83 | The descriptor and its key leave the epoll set and both maps, and the key counts as selected. |
| Registration.Selector.WaitForEvents | nodebus/nio/selector.cpp:64-92 | The loop waits until events are reported, the waits that were not interrupted have used up the timeout, or the selector is cancelled. |
| Registration.Selector.TakeEvent | nodebus/nio/selector.cpp:76-87 | A reported descriptor leaves the epoll set, its key leaves both maps and becomes pending, with the event in its event field and its own selection counted; the channel closes itself exactly if its stream has ended, which takes it out of every other selector as well. Nothing else changes, the events of other keys included, and the three views agree. |
| Registration.Selector.TakeEvents | nodebus/nio/selector.cpp:75-88 | For any list of reported descriptors: exactly their keys become pending, in order, each with its event; exactly their registrations go, together with all registrations of those streams among them that have ended; no other key has its events changed. |
| Registration.TookMore | nodebus/nio/selector.cpp:75-88 | Taking some events and then one more has the effect of taking them all, closed streams included. |
| Registration.Selector.Select | nodebus/nio/selector.cpp:58-96 | For any timeout and any behaviour of epoll and of the streams: the events of the last wait are taken or none, and all waits before were empty; it gives up exactly when the waits that were not interrupted have used up the timeout, or the selector is cancelled; the pending keys are those of the events, in order, each holds the events reported for it and every other key the events it had; exactly the streams that have ended close; and the views agree. |
| Registration.ReportsReachTheirKeys | nodebus/nio/selector.cpp:76-92 | Of events with distinct descriptors, each one ends up in the event field of the key of its descriptor, and no other key is changed. |
| Registration.Perform | nodebus/nio/selector.cpp:58-124 | Register, cancel, select and close each keep the agreement and have their effect: a registered channel has a new key for the selector, a cancelled registration is gone and the channel's others stay, a closed channel has no key; only the registration of a closed channel fails; a key that was cancelled or selected never becomes live again; besides a close only a select makes channels inactive, namely streams registered with its selector. |
| Registration.Run | nodebus/nio/channel.cpp:44-61 | Every run of these operations, on any channels and selectors with distinct descriptors and with streams that close in the middle of a select, keeps the agreement of the three views, keeps closed channels out of them and revives no key and no channel. |
| Registration.NothingRegistered | nodebus/nio/selector.cpp:35-42 | Open channels of distinct descriptors and selectors that know none of them agree, so runs have a state to start from. |
| Registration.OneLiveKey | nodebus/nio/channel.cpp:56-68 | A channel and a selector have at most one live key, and both maps hold it. |
| Registration.ClosedIsUnknown | nodebus/nio/channel.cpp:44-54 | No selector, no epoll set and no live key knows a closed channel. |
| Registration.HalfEntered | nodebus/nio/selector.cpp:107-112 | An entry in the selector's map without its counterpart in the channel's map breaks the agreement. |

## Left out

- BconRoundTrip.RoundTrip: the part of the check that is about lengths is proved sufficient only for values with maps and for
  lists with byte arrays of misread lengths; a string that is misread may hold the very bytes of the entries that the reader
  should have found, and `BconExact.MisreadDataMayComeBack` is such a list. In all other values, and for numbers and keys in
  every value, the condition is exact.
- BsonRoundTrip.DocumentRoundTrip: the check is proved sufficient only, for the same reason; for scalar elements it is exact.
- BsonGrammar.IsSent: for 64-bit integers and filled byte arrays, where what is sent is no derivation of the value,
  `BsonRoundTrip.Int64Body` and `BsonRoundTrip.DataBody` say what becomes of it.
- Transcode.Lossless: for JSON objects with strings of a length that the layout misreads, nothing is said beyond NUL keys.
- JsonRoundTrip.RoundTrip: doubles are printed with Qt's default precision and date-times are refused by the writer.
- HttpFraming.ReadRequest: the validity, method and content type of the header are not modelled, and the announced length is
  a parameter.
- IdlCompiler.CompileFiles: fragments compiled earlier and given in BCON or JSON form, and the output file, are not modelled.
- IdlFiles.LinkedTogether: coherence is sufficient for linking; the exact condition is that the declarations together are
  linkable, as `IdlCompiler.Execute` states it.
- Registration.Channel.UpdateStatus: the byte count that the system reports is part of the event; channels other than streams
  do nothing when their status is updated.
- Registration.Run: the operations run one after the other, so the locks of the selectors and their release between two waits
  are not modelled. Cancelling a key that was already selected is not modelled either; no caller in the repository does it.
- Registration.Selector.Put: the event mask and the edge-triggered flag are not kept in the epoll set.
- SharedPtrInvariant.RunIsSafe: payloads that own pointers, casts between incompatible classes, two threads using one pointer
  without synchronisation, and the address of an object whose owners may go in the meantime are outside the model.
- IdlParser.ParseFile: starts from the declarations and includes that the grammar recognises, not from text. The limit of 20
  errors, the declarations that are always refused (enum, struct, union, typedef, exception, sequence) and the types and
  constant expressions of members are not part of this model.
- Linker.IDLc.OwnMembers: the branch for a repeated own member is not modelled, because the member table has distinct keys.
- Bcon.Encode: the types Date and Time, which are sent as date-times, are not distinguished from DateTime; lengths are
  unbounded, where the original's are 32-bit.
- Bson.ReadScalar: a binary element with a UUID subtype is an error here, and no derivation in `BsonGrammar` has one; the
  type of its value is not modelled.
- Bson.ToInt: list keys with a plus sign or with spaces around the number, which QString::toInt takes, count as 0 here.
- ReadBuffer.StreamChannel.Available: counts are unbounded, where the original computes in `int`; clocks and deadlines are
  an arbitrary choice between success and the two exceptions, except on a steady device.
- Floating-point stream words of single precision, and hosts with a third floating-point byte order.
- Sockets, SSL, files, threads, signals, logging, settings and the command line: foreign calls and plumbing.
- The bundle life cycle: every path of start and stop ends in an exception, so there is no invariant to keep.
- Message routing and registration in the proxy: only easy facts are left there.
