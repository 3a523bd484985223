# PingOS and OAF, modelled in Dafny

Models of the stateful and format-handling code of two programs kept in one repository: the streaming modules of
PingOS (an nginx with RTMP, HTTP-FLV and relaying) and the OAF kernel filter's JSON and regular expression code. Each
file below is one module; the code's own loops, fields and buffers are methods over fields and arrays, and each such
method is proved against a function that says what it computes.

- **Stream zone** (`StreamZone`, `ZoneSpec`, `ZoneCalls`, `ZoneNames`): worker processes insert, delete and clear names
  in a hash table in shared memory, under bucket locks and one mutex. Every interleaving of their steps keeps every node
  on exactly one list, cannot deadlock, and is a run of a simple table on which each call has the effect of the
  operation called at one instant and an entry leaves only by its owner's hand (`ZoneSpec.OnlyTheOwnerRemoves`).
- **FLV pull parser** (`FlvParser`, `FlvStream`, `FlvSession`, `Machines`): a byte machine, and the session that copies
  payload block by block into a chain of buffers. How the network divides the bytes makes no difference, a written file
  is delivered exactly, and which streams are taken, and what they deliver, is said by the place of their bytes.
- **Bit reader** (`BitReader`): bits taken with shifts and masks, and the Exp-Golomb decoder.
- **AMF 0** (`Amf`, `AmfWire`, `AmfRoundTrip`, `AmfReader`, `AmfWriter`): typed elements written to and read from
  chains of buffers, into places described by a template.
- **cJSON** (`Json`, `JsonGrammar`, `JsonLayout`, `JsonRoundTrip`, `JsonTree`, `JsonParser`, `JsonPrinter`,
  `JsonMinify`, `MinifyGrammar`, `JsonCompact`, `JsonSurvival`, `JsonTrip`, `Buffers`): parsing into linked items,
  printing into blocks sized beforehand, minifying in place, each against a grammar in the characters themselves, and
  what survives the round trip.
- **Regular expressions** (`Regexp`, `RegexpPatterns`): the compiler and the backtracking matcher, against the words a
  pattern stands for.
- **Live registry** (`HashLists`, `LiveRegistry`, `LiveServers`): servers and streams on hash lists of recycled nodes,
  against a table of names.
- **Configured pulls** (`StaticEntries`, `StaleLinks`, `StaticPulls`): reloading a configuration hands
  sessions on, along links that are not always cleared.
- **Smaller parts**: relay reconnection (`RelayBackoff`), recording files and their index (`Recorder`), the client's
  output queue (`ClientOutput`) and its pools of idle connections (`ClientPools`).
- `Bytes` and `Chains` hold what these share.

Times, sockets, allocation and the operating system's answers are parameters where a result depends on them. `junk` is
the content of memory that C leaves unset.

## Model

| member | source | states |
|---|---|---|
| StreamZone.AlwaysPartitioned | luci-app-nginx-pingos/modules/nginx-multiport-module/ngx_stream_zone_module.c:98-146 | in every run, any interleaving of any number of workers' steps, the free list, the bucket lists and the nodes in workers' hands share out the nodes of the zone, each once; no list has a cycle; the counter of used nodes is right whenever the mutex is free |
| StreamZone.LayoutIsTheMemory | luci-app-nginx-pingos/modules/nginx-multiport-module/ngx_stream_zone_module.c:98-146 | those lists are no choice of the proof: the links in memory determine them |
| StreamZone.NoDeadlock | luci-app-nginx-pingos/modules/nginx-multiport-module/ngx_stream_zone_module.c:193-236 | in every state kept by the invariant, if a worker is inside a call, some worker can take a step |
| StreamZone.WorkGetsDone | luci-app-nginx-pingos/modules/nginx-multiport-module/ngx_stream_zone_module.c:193-236 | inside its bucket each step of a worker shortens what is ahead of it, although clearing unlinks the very nodes it walks over |
| StreamZone.OthersDoNotDelay | luci-app-nginx-pingos/modules/nginx-multiport-module/ngx_stream_zone_module.c:385-483 | no step of another worker lengthens it |
| ZoneSpec.StepRefines | luci-app-nginx-pingos/modules/nginx-multiport-module/ngx_stream_zone_module.c:385-483 | each step of the machine is one step of the table seen from that worker, or invisible: an insert returns the owner there is, or becomes the owner, or is refused with the free list empty; a delete removes the caller's own entry only; after a clear the caller owns nothing |
| ZoneSpec.ZoneLinearises | luci-app-nginx-pingos/modules/nginx-multiport-module/ngx_stream_zone_module.c:193-483 | every run from the fresh zone with names free of NUL is a run of the table: a call begins as the operation called and keeps to it, at each event a name has at most one owner, free nodes, entries and nodes in hand add up to the zone, and a new name is refused only when no node is free then |
| ZoneCalls.CallTakesEffect | luci-app-nginx-pingos/modules/nginx-multiport-module/ngx_stream_zone_module.c:385-483 | in each such run there is, for each call that returns, one event between call and return at which the table changes as the operation that was called says, with the result that is returned; before it a clear may take out entries of its own worker, and no other event of the worker in that time changes the table |
| ZoneCalls.TakenOut | luci-app-nginx-pingos/modules/nginx-multiport-module/ngx_stream_zone_module.c:443-483 | when a delete returns its worker does not own that name, and when a clear returns its worker owns nothing; all that the call took out was its worker's, and a delete took out nothing but that name |
| ZoneSpec.NodesConserved | luci-app-nginx-pingos/modules/nginx-multiport-module/ngx_stream_zone_module.c:98-146 | free nodes, table entries and nodes in hand always add up to the number of nodes |
| ZoneNames.TableExactlyWithoutNul | luci-app-nginx-pingos/modules/nginx-multiport-module/ngx_stream_zone_module.c:385-440 | with two workers and two nodes or more: all runs that insert one name are runs of the table if and only if the name has no NUL byte; with one, a legal run gives it two owners |
| FlvParser.SplitInvariant | luci-app-nginx-pingos/modules/nginx-rtmp-module/ngx_live_relay_httpflv.c:31-351 | however a stream is divided into buffers, the parser ends in the same state and delivers the same messages |
| FlvParser.RoundTrip | luci-app-nginx-pingos/modules/nginx-rtmp-module/ngx_live_relay_httpflv.c:31-351 | any list of sendable messages, written as a whole FLV file, is delivered exactly and in order, and the parser is ready for the next tag |
| FlvParser.FeedTag | luci-app-nginx-pingos/modules/nginx-rtmp-module/ngx_live_relay_httpflv.c:31-351 | after one tag and any four bytes the message is out; the parser goes on if they are the tag's size and gives up if they are not |
| FlvStream.AcceptedExactly | luci-app-nginx-pingos/modules/nginx-rtmp-module/ngx_live_relay_httpflv.c:31-351 | of any bytes: the parser goes on if and only if they begin with "FLV" and version 1, the first size field is 0, and each tag is of one of the three types and is followed by its own size, as far as the stream has come |
| FlvStream.DeliveredExactly | luci-app-nginx-pingos/modules/nginx-rtmp-module/ngx_live_relay_httpflv.c:31-351 | of any bytes: what has been delivered by then are the messages of the tags that are there, up to the first that is refused, each read off at its place in the stream |
| FlvSession.Session.RecvBody | luci-app-nginx-pingos/modules/nginx-rtmp-module/ngx_live_relay_httpflv.c:355-414 | driving the parser over a chain of received buffers, copying payload in blocks into chunk buffers, leaves the state and delivers the messages that the byte machine has for the buffers' bytes |
| BitReader.Reader.Read | luci-app-nginx-pingos/modules/nginx-rtmp-module/ngx_rtmp_bitop.c:23-52 | reads the value of the next n bits modulo 2^64 and moves on by n; whole bytes from a byte boundary are read as their big-endian number; past the end it returns 0, sets the error and goes to the end |
| BitReader.BytesValue | luci-app-nginx-pingos/modules/nginx-rtmp-module/ngx_rtmp_bitop.c:23-52 | the bits of any k bytes, from the most significant bit of the first, spell their big-endian number; those of one byte spell the byte |
| BitReader.ReadsCompose | luci-app-nginx-pingos/modules/nginx-rtmp-module/ngx_rtmp_bitop.c:23-52 | the value of n + k bits is that of n bits shifted by k plus that of the next k: two reads are one longer read |
| BitReader.GolombRoundTrip | luci-app-nginx-pingos/modules/nginx-rtmp-module/ngx_rtmp_bitop.c:56-63 | the decoder gives back every value whose code fits 64 bits, and takes exactly the bits of its code |
| AmfRoundTrip.ReadsExactlyNamed | luci-app-nginx-pingos/modules/nginx-rtmp-module/ngx_rtmp_amf.c:173-472 | reading a written value into a ready place, or skipping it, succeeds if and only if every property in it has a name of counted length other than 0; then it ends right behind the value's bytes |
| AmfRoundTrip.ReadsElt | luci-app-nginx-pingos/modules/nginx-rtmp-module/ngx_rtmp_amf.c:310-472 | a written value is read into its element, at any place in any bytes, or skipped, and nothing after it is touched |
| AmfRoundTrip.FillHolds | luci-app-nginx-pingos/modules/nginx-rtmp-module/ngx_rtmp_amf.c:173-269 | what reading puts into an element of the same shape, with room for its strings and distinct property names, is the written value |
| AmfRoundTrip.OtherTypeSkipped | luci-app-nginx-pingos/modules/nginx-rtmp-module/ngx_rtmp_amf.c:299-352 | a written value of any type but the place's own, objects and mixed arrays passing for each other, is skipped whole and leaves the place as it was |
| AmfRoundTrip.VariantHolds | luci-app-nginx-pingos/modules/nginx-rtmp-module/ngx_rtmp_amf.c:272-297 | a variant place takes a written value into the last alternative of just its type, and leaves the others as they were |
| AmfRoundTrip.VariantSkips | luci-app-nginx-pingos/modules/nginx-rtmp-module/ngx_rtmp_amf.c:272-297 | with no alternative of its type, the value is skipped and the place as it was |
| AmfRoundTrip.ContextSaved | luci-app-nginx-pingos/modules/nginx-rtmp-module/ngx_rtmp_amf.c:345-352 | an element that asks for the context keeps the position where the value's bytes begin, if the type is its own, and the value is skipped |
| AmfRoundTrip.UnknownPropertyIgnored | luci-app-nginx-pingos/modules/nginx-rtmp-module/ngx_rtmp_amf.c:173-246 | a property that no element asks for, put anywhere in an object, changes nothing of what is read |
| AmfRoundTrip.ReadsList | luci-app-nginx-pingos/modules/nginx-rtmp-module/ngx_rtmp_amf.c:310-472 | a list of written values is read element by element; one more optional element is left alone when the input ends there |
| AmfRoundTrip.ComesBackExactly | luci-app-nginx-pingos/modules/nginx-rtmp-module/ngx_rtmp_amf.c:173-663 | a value that can be written, with a type on every part and distinct property names, comes back into every ready place of its shape, wherever it stands in any bytes, if and only if all its types fit one byte and all its properties have names |
| AmfRoundTrip.StaysHopeless | luci-app-nginx-pingos/modules/nginx-rtmp-module/ngx_rtmp_amf.c:173-472 | a place that asks for an extended type and does not hold the value yet does not come to hold it, whatever bytes are read into it |
| AmfRoundTrip.ExtendedTypeCut | luci-app-nginx-pingos/modules/nginx-rtmp-module/ngx_rtmp_amf.c:538-663 | an input: an object with a one-byte integer is written, but cannot even be skipped |
| AmfWire.PlainBytes | luci-app-nginx-pingos/modules/nginx-rtmp-module/ngx_rtmp_amf.c:538-663 | the bytes of a number (eight, the other way round than in memory), a boolean and both nulls, behind their type codes 0, 1, 5 and 6 |
| AmfWire.TextBytes | luci-app-nginx-pingos/modules/nginx-rtmp-module/ngx_rtmp_amf.c:538-663 | a string is type 2, a big-endian 16-bit count and as many characters as its length modulo 2^16 says, or those up to its NUL if that is 0 |
| AmfWire.NoTextBytes | luci-app-nginx-pingos/modules/nginx-rtmp-module/ngx_rtmp_amf.c:538-663 | a string element without a text is written as the empty string |
| AmfWire.GroupBytes | luci-app-nginx-pingos/modules/nginx-rtmp-module/ngx_rtmp_amf.c:476-663 | an object is type 3, its properties and the bytes 0, 0, 9; a mixed array the same behind type 8 and four zeros; an array type 10, a big-endian 32-bit count and its items |
| AmfWire.FieldBytes | luci-app-nginx-pingos/modules/nginx-rtmp-module/ngx_rtmp_amf.c:476-508 | a property is its name's length modulo 2^16, as many bytes of the name, and the value |
| AmfWire.TextRead | luci-app-nginx-pingos/modules/nginx-rtmp-module/ngx_rtmp_amf.c:368-392 | a string is read into its buffer up to one character less than the buffer's size, and passed over to its end |
| AmfWire.ItemsInOrder | luci-app-nginx-pingos/modules/nginx-rtmp-module/ngx_rtmp_amf.c:249-270 | the items of an array go to its elements in order; items behind the last element are passed over, and elements behind the last item are as they were |
| AmfWire.RawIntegers | luci-app-nginx-pingos/modules/nginx-rtmp-module/ngx_rtmp_amf.c:310-663 | integers without a type are written in network order and read back the same |
| AmfWire.CutShort | luci-app-nginx-pingos/modules/nginx-rtmp-module/ngx_rtmp_amf.c:310-472 | a plain value of which any bytes are missing at the end is refused |
| AmfWire.OtherEnds | luci-app-nginx-pingos/modules/nginx-rtmp-module/ngx_rtmp_amf.c:173-246 | written properties are taken if the input ends behind them, and refused if an empty name and anything but the end type follow |
| AmfWire.BrokenOff | luci-app-nginx-pingos/modules/nginx-rtmp-module/ngx_rtmp_amf.c:173-472 | an object or mixed array without its last three bytes, or two, is read into any place as if it were whole |
| AmfWire.OtherTypes | luci-app-nginx-pingos/modules/nginx-rtmp-module/ngx_rtmp_amf.c:354-472 | a value is refused if its type byte is none of 0 to 3, 5, 6 and 8 to 10 |
| AmfWire.EndTypeEnds | luci-app-nginx-pingos/modules/nginx-rtmp-module/ngx_rtmp_amf.c:310-472 | the end type ends a list, and what was still asked for is as it was |
| AmfReader.Reader.Get | luci-app-nginx-pingos/modules/nginx-rtmp-module/ngx_rtmp_amf.c:67-113 | the next n bytes of a chain of buffers, wherever the buffers end, or failure with nothing moved if there are fewer |
| AmfReader.Reader.Read | luci-app-nginx-pingos/modules/nginx-rtmp-module/ngx_rtmp_amf.c:310-472 | the reader over a chain of buffers does what the codec functions do over its bytes in one piece |
| AmfWriter.Writer.Write | luci-app-nginx-pingos/modules/nginx-rtmp-module/ngx_rtmp_amf.c:476-663 | the writer appends exactly the encoding over however many buffers it needs, and fails exactly when there is none or the buffers run out |
| AmfWriter.WriteAndRead | luci-app-nginx-pingos/modules/nginx-rtmp-module/ngx_rtmp_amf.c:310-663 | any element in AMF 0 proper, written into buffers of any sizes and read from the same bytes divided in any way, comes back as the same value |
| JsonGrammar.ParsesExactly | oaf/src/cJSON.c:119-367 | of any text: parsing at a position gives a value and the position behind it if and only if the text of that value stands there, spelled in any way the parser takes, with any blanks around every token, `\u` escapes standing for the UTF-8 bytes of RFC 3629, section 3, numbers for their decimal value in 32 bits |
| JsonGrammar.ParseExactly | oaf/src/cJSON.c:238-246 | the same of a whole text, behind leading blanks |
| JsonGrammar.NulCuts | oaf/src/cJSON.c:144-190 | what a parsed string holds is what its spelling means, up to the first NUL |
| JsonLayout.NumberPrinted | oaf/src/cJSON.c:132-141 | a number is printed as its decimal digits without leading zeros, behind a minus sign if it is negative |
| JsonLayout.ArrayPrinted | oaf/src/cJSON.c:311-333 | an array is printed on one line, with a comma and a blank between its items |
| JsonLayout.ObjectPrinted | oaf/src/cJSON.c:370-398 | an object is printed with a line for each member, one tab deeper than itself, a colon and a tab behind each name, and a comma before the end of each line but the last |
| JsonTrip.PrintAndParse | oaf/src/cJSON.c:238-494 | a tree can be printed if and only if no string inside it and no name has a percent sign; printed, minified if wanted and parsed, it gives a tree of the same value (without sign and dropped characters) if and only if it is not minified or the value survives; of exactly the same value if it is faithful as well |
| JsonRoundTrip.TextBack | oaf/src/cJSON.c:251-398 | printed or compact text is parsed to its last character, to the clean value, which is the value itself if and only if no number has a sign and no character is dropped |
| JsonRoundTrip.CleanExactly | oaf/src/cJSON.c:119-222 | what comes back is what was printed if and only if the value is faithful: characters that printing keeps, no negative number but the least one |
| JsonParser.Parser.Parse | oaf/src/cJSON.c:238-367 | the parser's linked items, written while it reads, are the tree of the value that the text spells (`JsonGrammar.ParsesExactly`), and fill the heap without gaps; it fails where they fail |
| JsonPrinter.PrintValue | oaf/src/cJSON.c:266-398 | walking the linked items prints the text of their value into blocks whose sizes are counted beforehand, which no write leaves; it fails exactly on a percent sign in a string inside or in a name |
| JsonMinify.Minify | oaf/src/cJSON.c:448-494 | minifying in place leaves the function's text and a NUL, and never writes past the place it reads |
| MinifyGrammar.MinifiesExactly | oaf/src/cJSON.c:401-494 | of any text: it is a row of blanks, comments to the end of the line, comments to their end mark, stray slashes, string literals and other characters, each kind given by its characters, and the minified text is exactly the literals and other characters in that row |
| JsonMinify.Idempotent | oaf/src/cJSON.c:401-494 | for any text, minifying twice is minifying once |
| JsonCompact.CompactExactly | oaf/src/cJSON.c:401-494 | printed text is minified to the compact text if and only if no name ends in a backslash and every string that does has nothing but closing brackets behind it |
| JsonSurvival.SurvivesExactly | oaf/src/cJSON.c:401-494 | printed and minified text is parsed to the value printed, up to the last character, if and only if the value survives: no string or name that minifying takes for the outside of one has a blank or a slash before its first quote |
| JsonSurvival.CharsOut | oaf/src/cJSON.c:426-446 | the same for one literal, with where minifying takes itself to be behind it |
| JsonTrip.BackslashMisleads | oaf/src/cJSON.c:426-446 | the array of a backslash and a blank is printed and parsed back, but minified it is parsed to another value |
| Regexp.RegexpMatch | oaf/src/regexp.c:250-273 | compiling and matching any pattern text answers whether the nodes compiled from it find anything, lazily and greedily alike |
| RegexpPatterns.PatternCompiles | oaf/src/regexp.c:61-157 | a well-formed pattern, as it is written, is compiled to the nodes of the pattern in which each escape stands for the character behind the one escaped |
| RegexpPatterns.EscapesExactly | oaf/src/regexp.c:61-157 | these are the pattern's own nodes if and only if behind each escaped character the same one is written once more |
| RegexpPatterns.PiecesRefused | oaf/src/regexp.c:113-154 | well-formed pieces are refused with a bracket behind them that is not closed, or has a dash in front of the rest or right before its end |
| RegexpPatterns.MatchBroken | oaf/src/regexp.c:250-256 | matching such a pattern answers with an error, whatever the text |
| RegexpPatterns.BackwardRange | oaf/src/regexp.c:31-37 | a range written backwards takes as many characters out of the list as its ends are apart |
| RegexpPatterns.MatchPattern | oaf/src/regexp.c:166-273 | matching a well-formed pattern answers whether the text has a word of the pattern it is compiled as, with one stray character added to each bracket; where each escape is followed by its own character and no bracket's stray character is in the text unmeant, that is whether the text has a word as meant; with such escapes no match is a true no in any case |
| RegexpPatterns.OneBracketExactly | oaf/src/regexp.c:22-49 | for one bracket and one character the answer is right if and only if the bracket's memory is harmless |
| RegexpPatterns.StrayCharacterFound | oaf/src/regexp.c:22-49 | the pattern `[a]` finds the text "b" when its node's memory holds a b |
| RegexpPatterns.EscapedMissed | oaf/src/regexp.c:61-157 | an escaped character and a literal behind it find their own text if and only if the two are the same: an escaped dot before an a does not find ".a" |
| HashLists.InsertShape | luci-app-nginx-pingos/modules/nginx-rtmp-module/ngx_live.c:118-224 | a node hung on the end of a list, with its link cleared or from a spare list of at most one, leaves every other list as it was |
| HashLists.InsertEntangles | luci-app-nginx-pingos/modules/nginx-rtmp-module/ngx_live.c:118-156 | from a spare list of two or more, with its link not cleared, it leaves lists that no arrangement of nodes fits |
| HashLists.Conserved | luci-app-nginx-pingos/modules/nginx-rtmp-module/ngx_live.c:118-237 | the nodes ever allocated are the spare ones, as counted, and those on lists |
| LiveServers.Registry.CreateServer | luci-app-nginx-pingos/modules/nginx-rtmp-module/ngx_live.c:118-253 | a server of that name is there or is made; the lists stay lists if and only if at most one spare node was there, the new server is the one asked for if and only if its name has no NUL; too long a name is refused with nothing changed |
| LiveServers.TwoDeletedThenOne | luci-app-nginx-pingos/modules/nginx-rtmp-module/ngx_live.c:118-284 | a run that goes wrong: any two servers made and deleted, then any third made |
| LiveServers.Registry.CreateStream | luci-app-nginx-pingos/modules/nginx-rtmp-module/ngx_live.c:194-309 | a stream of that name is there or is added to its server, if and only if a new name that fits has no NUL; cut at its NUL it is stored under another name; one too long is refused, but counted all the same |
| LiveServers.Registry.DeleteServer | luci-app-nginx-pingos/modules/nginx-rtmp-module/ngx_live.c:266-284 | a server that counts no streams goes at once, one that does is flagged, and no other changes |
| LiveServers.Registry.DeleteStream | luci-app-nginx-pingos/modules/nginx-rtmp-module/ngx_live.c:330-357 | exactly that stream goes, and a flagged server goes with its last one, if it has not counted too many |
| LiveServers.Registry.PerformAll | luci-app-nginx-pingos/modules/nginx-rtmp-module/ngx_live.c:240-357 | any run of operations, from a new registry or any other, comes to what the table says, if new names that fit have no NUL and each new server comes to at most one spare node |
| LiveServers.Registry.DeleteAndGoOn | luci-app-nginx-pingos/modules/nginx-rtmp-module/ngx_live.c:266-357 | in any such run behind the deletion of a server, without making it again, the server is gone if and only if at some point since it counted no streams |
| LiveServers.Registry.MakeAndGoOn | luci-app-nginx-pingos/modules/nginx-rtmp-module/ngx_live.c:240-357 | in any such run behind a server's being made, or made again, without deleting it after that, it is there |
| LiveServers.Registry.CountAndGoOn | luci-app-nginx-pingos/modules/nginx-rtmp-module/ngx_live.c:266-357 | in any such run behind a stream whose name was too long, its server is still there |
| LiveRegistry.GoesWithItsLast | luci-app-nginx-pingos/modules/nginx-rtmp-module/ngx_live.c:266-357 | the same of the table: a server deleted while it counts streams is there for exactly as long as it does, unless it is made again |
| LiveRegistry.ServerThere | luci-app-nginx-pingos/modules/nginx-rtmp-module/ngx_live.c:240-357 | in every run of the table the last word on a server decides: made, or made again while flagged, it is there if it was there or its name has at most 511 characters; deleted, it is there if and only if it was and has counted streams ever since |
| LiveRegistry.StreamThere | luci-app-nginx-pingos/modules/nginx-rtmp-module/ngx_live.c:287-357 | the last word on a stream decides as well: it is there if it was made, and was there already or its server was there and its name has at most 511 characters |
| LiveRegistry.StuckStays | luci-app-nginx-pingos/modules/nginx-rtmp-module/ngx_live.c:287-309 | a server that counts a stream too many is there after every run of the table |
| StaticPulls.StaticPulls.Reload | luci-app-nginx-pingos/modules/nginx-rtmp-module/ngx_live_relay_static.c:374-492 | a stream named twice is refused with sessions and maps as they were; otherwise streams that stay keep their sessions and new ones get new ones, and the rest holds (every entry given back once, exactly the other sessions ended) if and only if the last entry that stays had no link |
| StaticPulls.StaleExactly | luci-app-nginx-pingos/modules/nginx-rtmp-module/ngx_live_relay_static.c:405-444 | after a refused configuration the next one goes wrong if and only if the last stream it keeps was followed by another kept stream in the refused one |
| StaticPulls.StaleAfterDuplicate | luci-app-nginx-pingos/modules/nginx-rtmp-module/ngx_live_relay_static.c:405-444 | a refused configuration leaves links behind if and only if it named two kept streams or more before its duplicate |
| StaticPulls.RefusedThenReloaded | luci-app-nginx-pingos/modules/nginx-rtmp-module/ngx_live_relay_static.c:374-492 | three streams, a refused configuration and a reload that keeps two of them: a run that goes wrong |
| StaleLinks.LostIsUnsound | luci-app-nginx-pingos/modules/nginx-rtmp-module/ngx_live_relay_static.c:436-464 | the entry at the end of a link not cleared is lost: given back twice, so that the free entries form a circle, or dropped with its session neither handed on nor ended |
| StaticPulls.OneWorker | luci-app-nginx-pingos/modules/nginx-rtmp-module/ngx_live_relay_static.c:405-412 | each configured stream is pulled by exactly one worker |
| RelayBackoff.RoundOfFailures | luci-app-nginx-pingos/modules/nginx-rtmp-module/ngx_live_relay_simple.c:116-235 | a round of failures tries each address once and in order, without waiting, and ends in one delay |
| RelayBackoff.DelaysDouble | luci-app-nginx-pingos/modules/nginx-rtmp-module/ngx_live_relay_simple.c:155-235 | the first delay is the configured one, the i-th after it is it doubled i times, up to the greatest |
| RelayBackoff.DelaysDoubleExactly | luci-app-nginx-pingos/modules/nginx-rtmp-module/ngx_live_relay_simple.c:155-235 | that holds of every number of rounds if and only if the first delay is 0 or the greatest is not |
| RelayBackoff.TriesGoRound | luci-app-nginx-pingos/modules/nginx-rtmp-module/ngx_live_relay_simple.c:116-235 | whichever tries break and whichever time out: the k-th try is of address k modulo their number, only one of the last address that breaks is followed by a delay, and the delay is doubled, up to the greatest, by each round |
| RelayBackoff.AnewAfterSuccess | luci-app-nginx-pingos/modules/nginx-rtmp-module/ngx_live_relay_simple.c:199-206 | after a relay that worked, tries go on at once and exactly as from a new context |
| Recorder.Recording.Open | luci-app-nginx-pingos/modules/nginx-rtmp-module/ngx_live_record.c:234-336 | the file is opened at its end; the lines go on where the last one ended if all was listed, and begin at the end of the file if not; an empty file gets its header first |
| Recorder.Recording.Write | luci-app-nginx-pingos/modules/nginx-rtmp-module/ngx_live_record.c:205-231 | bytes go to the file in order through the buffer; what the file and the buffer hold is what was given, but for what short writes drop |
| Recorder.Recording.Flush | luci-app-nginx-pingos/modules/nginx-rtmp-module/ngx_live_record.c:185-201 | what the system takes is in the file, the rest of the buffer is dropped, and after an error all of it is still there |
| Recorder.Recording.Close | luci-app-nginx-pingos/modules/nginx-rtmp-module/ngx_live_record.c:339-446 | the last index line is written; with those before it, it lists every byte of the file from the header on, each once |
| Recorder.TileCovers | luci-app-nginx-pingos/modules/nginx-rtmp-module/ngx_live_record.c:339-361 | index lines laid end to end hold each byte of the range in exactly one of them, and no other byte |
| ClientOutput.Client.Write | luci-app-nginx-pingos/modules/nginx-client-module/ngx_client.c:1017-1215 | what was sent and what is queued are what was given, in order; output too short and without a mark waits; otherwise exactly as much leaves the queue as the connection takes, and the marks of the buffers not used up stay; the result says whether something is left |
| ClientOutput.TakenIsLeft | luci-app-nginx-pingos/modules/nginx-client-module/ngx_client.c:1143-1215 | what taking n bytes leaves of a chain: some first buffers are used up, the next keeps its marks and the bytes behind those taken, and the others are as they were |
| ClientPools.Pools.GetConnection | luci-app-nginx-pingos/modules/nginx-client-module/ngx_client.c:233-287 | the connection of that very address that was put in last, if there is one; all other addresses keep theirs |
| ClientPools.Pools.Keep | luci-app-nginx-pingos/modules/nginx-client-module/ngx_client.c:359-443 | a connection is kept, first of its address, unless more than the limit are idle already |
| ClientPools.Pools.Close | luci-app-nginx-pingos/modules/nginx-client-module/ngx_client.c:291-355 | exactly that connection leaves the pool it is in, which is recycled when it was the last |
| ClientPools.SizesCount | luci-app-nginx-pingos/modules/nginx-client-module/ngx_client.c:233-443 | the sizes of the pools in use add up to the idle connections, each counted once |
| ClientPools.Pools.IdleIsTheSum | luci-app-nginx-pingos/modules/nginx-client-module/ngx_client.c:233-443 | the counter of idle connections is that sum |

## Findings

Where the code does not do what it is for, with the condition and an input.

- Zone names with a NUL byte: compared by `strlen` and `memcmp` (ngx_stream_zone_module.c:385-440), they are never found
  again, so one name gets two owners. `ZoneSpec.StoredNameFound`, `ZoneNames.TableExactlyWithoutNul`,
  `ZoneNames.NulNamesHaveTwoOwners`.
- Static pulls: the link of the last kept entry is never cleared (ngx_live_relay_static.c:426-433). After a
  configuration refused for a duplicate, the loop at lines 438-444 can give back entries that were not meant, or twice.
  `StaticPulls.StaticPulls.Reload`, `StaticPulls.StaleExactly`, `StaticPulls.StaleAfterDuplicate`; a run:
  `StaticPulls.RefusedThenReloaded`.
- Live servers: a recycled server keeps its link into the spare list (ngx_live.c:118-156), harmless only while at most
  one is spare. `LiveServers.Registry.CreateServer`, `HashLists.InsertEntangles`; a run:
  `LiveServers.TwoDeletedThenOne`.
- Live streams: the server's counter goes up before the name is found too long (ngx_live.c:287-309), and then the server
  is never deleted. `LiveServers.Registry.CreateStream`, `LiveServers.Registry.CountAndGoOn`.
- Live names with a NUL byte: stored cut at it and compared by `strlen` (ngx_live.c:95-153, 170-222), so what was made
  is not found again. `LiveServers.Registry.CreateServer`, `LiveServers.Registry.CreateStream`.
- Minifying: a quote behind an escaped backslash passes for an escaped one (cJSON.c:426-446). Exactly which values
  survive: `JsonSurvival.SurvivesExactly`; an input: `JsonTrip.BackslashMisleads`; harmless though the text is not
  compact: `JsonTrip.BackslashBeforeNull`.
- Printing: texts of items and names are used as formats (cJSON.c:311-398), so a percent sign asks for arguments that are
  not there. `JsonPrinter.PrintValue`, `JsonTrip.PrintAndParse`.
- Numbers: the sign is passed over when parsing (cJSON.c:119-129), and bytes from 0x80 on and most control characters are
  dropped when printing (cJSON.c:192-222). `JsonRoundTrip.CleanExactly`.
- Regular expressions: an escape takes the character behind the escaped one (regexp.c:61-157), and a bracket also takes
  what its node's unset `ch` holds (regexp.c:22-49). `RegexpPatterns.EscapesExactly`, `RegexpPatterns.EscapedMissed`,
  `RegexpPatterns.MatchPattern`.
- AMF: integer types above one byte are cut when written (ngx_rtmp_amf.c:538-663), which no caller in the repository
  asks for, and a property whose name has length 0 modulo 2^16 ends the object for the reader.
  `AmfRoundTrip.ComesBackExactly`, `AmfRoundTrip.ReadsExactlyNamed`; an input: `AmfRoundTrip.ExtendedTypeCut`.
- Relays: with a greatest delay of 0 the delays start over every second round. `RelayBackoff.DelaysDoubleExactly`.
- Recordings: a short write drops the rest of the buffer (ngx_live_record.c:185-201). `Recorder.Recording.Flush`.

## Left out

- AmfReader.Reader.Read: destinations are values; what an aborted read has written to them is not stated, nor what happens
  when two elements share one destination.
- AmfRoundTrip.ReadsElt: nested elements without a type are not part of the round trip.
- BitReader.Reader.ReadGolomb: says nothing of codes with 64 zeros or more.
- BitReader.Reader.Read: for at most 2^64 - 8 bits at once.
- ClientOutput.Client.Write: buffers are values, not shared with the caller; when an empty buffer is refused, what C has
  linked of the chain so far is not modelled.
- ClientPools.Pools.Keep: timers, and a failure to delete the write event, are not part of this model.
- JsonParser.Parser.Parse: a `\u` without four hexadecimal digits ends the model, as does reading past the block;
  failing allocations, recursion depth and `cJSON_Delete` are not part of this model.
- JsonPrinter.PrintValue: stops at any percent sign, also at a doubled one, which C prints as one.
- LiveServers.Registry.CreateServer: what the registry does after its lists are entangled is not followed further.
- Recorder.Recording.Write: the MPEG-TS muxer above it, Annex B conversion and copying a recording are not modelled.
- RegexpPatterns.MatchPattern: classes `\d` and `\D`, which write past their list, and operators with nothing before
  them are covered by Regexp.RegexpMatch only.
- StaleLinks.WalkOn: the walk past a link not cleared reads the stream of free entries, which C may have freed with the
  configuration it came from.
- StaticPulls.StaticPulls.StartAll: starting a session always succeeds; in C an entry can be left without one.
- StreamZone.Step: failing to create the zone and the state page that prints it are left out; memory is sequentially
  consistent.
- The RTMP session and handshake, HLS, DASH, multiport and toolkit modules, the OAF packet filter and the shell and Lua
  parts of the packages: parsing by table, configuration and glue.
- Integer widths other than those named above (C `int` in JSON, 64 bits in the bit reader, 16 and 32 bit counts in AMF).
