# Verification of the HTTP/JSON to gRPC transcoding library

A Dafny model of the three cores of the library, and proofs about them. `dafny verify dfyconfig.toml` checks all of
it.

Each core is written twice. Modules of functions and lemmas say what it means and what holds of it; modules of classes
follow the source, field by field and branch by branch, and every method is proved against the functions.

**Routing.** `TemplateGrammar`, `HttpTemplates` and `TemplateParser` turn a path template into segments and variable
ranges. `RouteTrie` and `PathMatcherNode` are the trie; `RoutePrecedence` says which registered path a search decides
for; `PathMatching` says when a path matches at all, and `TreeMatching` says it of syntax trees, without the strings
that segments become. `RequestParts`, `PathBindings` and `PercentEncoding` take a request apart and bind variables.
`RegisteredMethods` and `PathMatcher` put this together over all calls of `Register`; `RegisteredTemplates` says what
is found in terms of the trees that were registered, `TemplatePrecedence` which of several. `TemplateExamples` has
templates written out.

**Request translation.** `Events` has the events of an ObjectWriter and the values they spell. `Weaving` is the weave
of a tree of bindings into a body, `WeavingConservation` and `WeavingDrops` show where each binding goes and
`WeavingOrder` in what order, `WeavingObjects` in which objects, and `WeaverMachine` shows that the event-driven
weaver computes it, `WeaverPosition` where it stands at every point, `WeaverInjection` that it only adds to its input;
its stack is seen as the node on top and one frame for each node below. `WeaveInfo` and `RequestWeaver` are the
mutable tree and the stack of references into it. `PrefixWriting` and `PrefixWriter` put values under a prefix.
`RequestPipeline` and `RequestMessageTranslator` wire the writers together for one message, `BodyPlacement` says where
its body ends up, `RequestStreaming` and `RequestStreamTranslator` split an array into messages.

**Framing.** `Framing` has the delimiters and the pure parser of the Length-Prefixed-Message of the gRPC over HTTP/2
protocol description. `MessageReading` runs the reader over all schedules of arriving bytes and calls; `ChunkedInput`
and `MessageReader` are the input in chunks and the reader. `MessageStreaming` and `MessageStream` are the byte stream
over messages, `JsonFraming` and `ResponseToJsonTranslator` the JSON output, which `JsonOutput` writes out.

Where code and intention part, the model follows the code, and a lemma says exactly where: a variable after a `**`
(`PathBindings.VariableRangeAligned`), a part of a request that is spelled `**`
(`TemplatePrecedence.OrderDecidesIff`), keys in which method and verb run together (`RegisteredMethods.SameKeyIff`,
`RegisteredMethods.FallbackIff`), a body that is not an object (`WeaverPosition.WeavesIffObject`), options lost in
streams (`RequestStreaming.CollisionsAreIgnored`, `RequestStreaming.EnumCaseIsIgnored`), a size query between `Next`
and `BackUp` (`MessageStreaming.BackUpWorksIff`), full decoding of encoded slashes
(`PercentEncoding.SplitRecoversParts`). The documentation of the reader says two things that the code does not do. One
is that the underlying stream is not advanced before a full message is there
(src/include/grpc_transcoding/message_reader.h:43-48): the code takes the delimiter first, exactly when
`MessageReading.AdvancesIff` says, and never more than that (`MessageReading.TakenIsFrames`). The other is that an
incomplete message at the end goes unnoticed (64-70): the code sets an error status, exactly when
`MessageReading.ReaderIsParser` says.

What the model takes as given:

- A character of a `string` stands for a byte. A byte of a message is a number below 256.
- A method is registered with the address of its data, which the allocator picks; it is not one in use, and may be one
  that was freed. Addresses are never null, and a lookup starts without a result.
- The proto writer is a function from all events it was given to a status, whether it is done, and bytes; it has made
  nothing of no events. The translation of one message to JSON is a function of its bytes that reads all of them.
  Which pairs of body value and bound value conflict is a predicate.
- A writer of the pipeline hands on what it wrote when a call returns, not while it runs. The output is the same.
- The input of the reader counts all unread bytes that have arrived, and whoever gets a message reads all of it before
  the next call.
- A stream that gives no buffer gives one of size zero. Where a result needs that this does not happen, it says so.
- Events may be written to a message if its weaver, when it has one, is never asked to pop an empty stack.
- A delimiter is read only when its five bytes are there, so the branch of the reader for an input that ends within it
  (src/message_reader.cc:102-105) cannot be taken, and `MessageReader` does not have it.

## Model

| member | source | states |
|---|---|---|
| RouteTrie.InsertChangesOneRoute | src/path_matcher_node.cc:197-225 | Inserting a template changes the entry of its own route (segment path and key) and of no other; the entry becomes marked iff it already was, or it existed and duplicates are to be marked. |
| RouteTrie.InsertRefinesRegistry | src/path_matcher_node.cc:197-225 | Inserting into the trie is updating one key of a flat map from routes to entries, and keeps the "**" flags right. |
| RouteTrie.TrieHoldsRegistry | src/path_matcher_node.cc:181-225 | After any sequence of insertions the trie holds exactly that flat map. |
| RouteTrie.RegistryMeaning | src/path_matcher_node.cc:197-225 | The flat map read off the history: a route is in it iff it was inserted, with the data of its last insertion, marked iff a later insertion of it was to mark duplicates. |
| RoutePrecedence.LookupIsFirstHit | src/path_matcher_node.cc:140-179 | For every trie and request, the backtracking search returns what the lexicographically first alignment of a registered path gives (own text, "/.", "*", "**"; inside "**" the earliest suffix; at the end the own entry before the empty "**"; exact key before "*"), and nothing iff there is no alignment. |
| RoutePrecedence.AlignmentsAreOrdered | src/path_matcher_node.cc:140-179 | The order of alignments is antisymmetric, so the first one is unique. |
| RoutePrecedence.FirstHitIsUnique | src/path_matcher_node.cc:140-179 | The priority specification determines the result of a lookup. |
| PathMatching.AlignmentIffMatches | src/path_matcher_node.cc:140-179 | A path has an alignment with the parts iff the parts match it: literals equal, "*" one part, "**" one or more, none only if it is last. |
| PathMatching.MatchesIffByIndex | src/http_template.cc:59-76 | For paths with only literals after "**", matching is the same as comparing by index from the front up to the "**" and from the back after it. |
| PathMatching.LookupFindsIffMatches | src/path_matcher_node.cc:140-179 | The search finds an entry iff some registered template under the key or under "*" matches the parts: no match is lost to early returns, and none is made up. |
| TreeMatching.TreeMatchesIff | src/path_matcher_node.cc:140-179 | For every well-formed tree and all parts: the segments match the parts iff the tree does, where a star and a variable without a pattern take any one part, a literal its own text, "**" one part or more, or none when last, and a variable what its pattern takes. |
| TreeMatching.MatchesIffTakes | src/path_matcher_node.cc:140-179 | Matching by places to cut the parts at is matching segment by segment. |
| PathMatcherNodes.PathMatcherNode.InsertPath | src/path_matcher_node.cc:181-195 | The mutable tree of nodes stays a tree and its value is that of the specified insertion; true iff the route was new. |
| PathMatcherNodes.PathMatcherNode.InsertTemplate | src/path_matcher_node.cc:197-225 | The recursive insertion in place, below one child only, keeps everything else of the tree as it was. |
| PathMatcherNodes.PathMatcherNode.LookupPath | src/path_matcher_node.cc:140-179 | The loop over suffixes with its recursion and early returns computes the specified search; it terminates on the number of remaining parts. |
| PathMatcherNodes.PathMatcherNode.LookupPathFromChild | src/path_matcher_node.cc:227-239 | One child, if it is there, is searched with the remaining parts; found iff there is a result. |
| PathMatcherNodes.PathMatcherNode.GetResultForHttpMethod | src/path_matcher_node.cc:241-250 | The entry of the exact key, else that of "*", else nothing. |
| TemplateGrammar.ParseIffPrinted | src/http_template.cc:30-40 | The parser accepts exactly the printed forms of well-formed template trees, and gives that tree back. |
| TemplateGrammar.ParseIsSound | src/http_template.cc:77-246 | What was parsed prints as the input and is well-formed. |
| TemplateGrammar.ParseIsComplete | src/http_template.cc:77-246 | Every well-formed tree parses back from its printed form. |
| HttpTemplates.AcceptedTemplates | src/http_template.cc:363-375 | Accepted are "/" and the printed trees with only literals after "**"; each gives the flattened segments, the verb and the variable ranges of its tree. |
| TreeMatching.TameIff | src/http_template.cc:59-76 | The segments of a tree pass the check of the parser iff in the tree only literals follow a "**". |
| TreeMatching.AcceptedTree | src/http_template.cc:363-375 | A well-formed tree is accepted iff only literals follow a "**" in it; its segments are then spelled "*", "**" and the literal texts from left to right, and its verb is the one it has, or empty. |
| TreeMatching.AcceptedVariables | src/http_template.cc:279-339 | An accepted template has one variable for each binding of its tree, in order, with its field path and the range of segments spelled from its own pattern; the end counts from the end of the path iff the pattern has a "**". |
| TemplateExamples.LiteralTextIff | src/http_template.cc:218-246 | A text can be a literal iff it is not empty and holds no "/", ":" or "}". |
| TemplateExamples.IdentifierIff | src/http_template.cc:195-216 | A text can be an identifier iff it is not empty and holds no ".", "}" or "=". |
| TemplateExamples.LiteralIsAccepted | src/http_template.cc:218-246 | "/" and any such text that does not start a wildcard or a variable is a template of that one segment, with or without a verb behind a colon. |
| TemplateExamples.VariableIsAccepted | src/http_template.cc:139-165 | Any such identifier in braces is a variable that takes one part. |
| TemplateExamples.NestedTemplate | src/http_template.cc:30-40 | What "/a/{b.c=d/*}/**:v" compiles to: segments, verb and variable, written out. |
| TemplateExamples.WildTemplate | src/http_template.cc:328-339 | What "/{a=b/**}/c" compiles to, with an end counted from the end of the path. |
| HttpTemplates.AppendAllCompiles | src/http_template.cc:95-165 | Appending segments and opening and closing variables step by step gives the flattened segments and the ranges of the whole tree. |
| HttpTemplates.VariableRanges | src/http_template.cc:279-318 | Every variable covers exactly the segments of its own pattern, and is marked iff they hold a "**". |
| TemplateParser.ParseHttpTemplate | src/http_template.cc:363-375 | The two-cursor parser with its validation returns what the specification says for every string. |
| TemplateParser.Parser.Parse | src/http_template.cc:46-52 | Parsing the whole input, then turning the ranges of variables with "**" around, compiles the parsed tree. |
| TemplateParser.Parser.ParseVariable | src/http_template.cc:139-165 | A variable adds its segments and one closed range; it is refused inside a variable. |
| TemplateParser.Parser.ParseSegments | src/http_template.cc:95-110 | Segments are read as the grammar says and appended in order, with the cursors within one character of each other. |
| TemplateParser.Parser.ValidateParts | src/http_template.cc:59-75 | True iff only literals stand after a "**". |
| TemplateParser.Parser.PostProcessVariables | src/http_template.cc:328-339 | The ends of variables with a "**", and of no others, become relative to the end, in place. |
| PathBindings.ExtractBindingsFromPath | src/include/grpc_transcoding/path_matcher.h:174-208 | One binding per variable, in order: the decoded parts of its range joined by "/". |
| PathBindings.VariableRangeAligned | src/http_template.cc:328-339 | For every accepted template and match, a variable range lies within the parts, and is the run of parts its own segments matched iff no "**" stands before the variable or there are as many parts as segments. |
| PathBindings.VariableValue | src/include/grpc_transcoding/path_matcher.h:174-208 | For aligned variables the value is the "/"-join of the decoded parts its own segments matched, decoded in full iff the variable takes a single segment. |
| PathBindings.VariableAfterWildIsNotAligned | src/http_template.cc:328-339 | A concrete request where a variable after "**" is bound to a part that its segment did not match. |
| PercentEncoding.WhatIsRead | src/include/grpc_transcoding/percent_encoding.h:97-127 | What is read at one place: a plus that stands for a space, a percent-encoded octet with digits of either case that the spec decodes, or nothing; each exactly when it is there. |
| PercentEncoding.EveryOctetIsRead | src/include/grpc_transcoding/percent_encoding.h:38-81 | An escape with digits of either case is read as its octet, for all octets; the first spec leaves the reserved characters of RFC 6570, listed here, and the second the "/" encoded. |
| PercentEncoding.IsUrlEscapedString | src/include/grpc_transcoding/percent_encoding.h:129-139 | True iff something would be decoded somewhere. |
| PercentEncoding.UrlUnescapeString | src/include/grpc_transcoding/percent_encoding.h:148-176 | The loop over a buffer decodes the string from the front. |
| PercentEncoding.UnescapeInvertsEncoding | src/include/grpc_transcoding/percent_encoding.h:148-176 | Decoding inverts every encoder that escapes "%", and "+" if plus is decoded, whatever else it escapes, in either case of hex digits. |
| PercentEncoding.EscapeAllRoundTrip | src/include/grpc_transcoding/percent_encoding.h:148-176 | Every byte string has an encoding that is read back. |
| PercentEncoding.UnescapeOfJoin | src/include/grpc_transcoding/path_matcher.h:195-205 | Decoding a joined path is joining the decoded parts, under every spec. |
| PercentEncoding.SplitRecoversParts | src/include/grpc_transcoding/path_matcher.h:195-205 | Splitting a bound value of several parts gives back the decoded parts iff the spec keeps an encoded slash encoded, or no part has one ("%2F" or "%2f"). |
| PercentEncoding.FullDecodingHidesParts | src/include/grpc_transcoding/path_matcher.h:195-205 | A value with an encoded slash that the full spec splits into one part more. |
| RequestParts.ExtractRequestParts | src/include/grpc_transcoding/path_matcher.h:252-282 | The split of a path computes the specified parts and verb. |
| RequestParts.SplittingUndoesBuilding | src/include/grpc_transcoding/path_matcher.h:252-282 | Splitting a path built of parts and a verb that counts gives them back. |
| RequestParts.SplittingWithoutVerb | src/include/grpc_transcoding/path_matcher.h:252-282 | Without a verb the parts come back iff the last one does not itself end in a colon and a verb that counts. |
| RequestParts.SplittingWithSlashes | src/include/grpc_transcoding/path_matcher.h:277-281 | With any number of slashes behind it, at least one, a built path gives its parts and no verb. |
| RequestParts.SplittingVerbBehindSlashes | src/include/grpc_transcoding/path_matcher.h:252-282 | With slashes and then a verb that counts it gives the parts and the verb. |
| RequestParts.QueryIsIgnored | src/include/grpc_transcoding/path_matcher.h:255-256 | Everything from the first "?" on is ignored. |
| RequestParts.LastPartIsNotEmpty | src/include/grpc_transcoding/path_matcher.h:277-281 | A result is empty or ends in a part that is not empty, and no part holds a "/". |
| RegisteredMethods.RegisterKeepsConsistent | src/include/grpc_transcoding/path_matcher.h:394-438 | Over every sequence of calls, with the fail-on-duplicate option set at will, the trie is that of the calls and the data of the first call for each route is alive. |
| RegisteredMethods.EntryMeaning | src/include/grpc_transcoding/path_matcher.h:394-438 | A route is there iff some call was for it, and unmarked iff exactly one was. |
| RegisteredMethods.UnmarkedEntryIsOwned | src/include/grpc_transcoding/path_matcher.h:427-433 | An unmarked entry points to live data of the one call for exactly that path and key. |
| RegisteredMethods.FoundMethodMatches | src/include/grpc_transcoding/path_matcher.h:323-358 | A method is found only if its template matches the request under its key or "*", and no other call was for its route. |
| RegisteredMethods.NoMethodFound | src/include/grpc_transcoding/path_matcher.h:341-344 | If nothing is found although some template matches, the route that the search decides for was registered twice. |
| RegisteredMethods.SameKeyIff | src/include/grpc_transcoding/path_matcher.h:428-430 | A template under the key of a request is for its method and its verb iff neither of the two methods is the beginning of the other. |
| RegisteredMethods.FallbackIff | src/path_matcher_node.cc:241-250 | A template is a fallback for all keys iff it is for "*" without a verb, or for no method with the verb "*". |
| RegisteredMethods.FoundMethodIsAskedFor | src/include/grpc_transcoding/path_matcher.h:335-345 | With methods none of which is the beginning of that of the request or the other way round, the method found was registered for the method and verb of the request or is a fallback for all. |
| RegisteredMethods.KeysRunTogether | src/include/grpc_transcoding/path_matcher.h:339-340 | A template for "GETX" that serves a request "GET" whose path ends in the verb "X". |
| RegisteredMethods.StarWithVerb | src/path_matcher_node.cc:241-250 | A template for "*" with a verb serves that verb for the method "*" only. |
| RegisteredMethods.BoundValue | src/include/grpc_transcoding/path_matcher.h:345-358 | End to end: the binding of an aligned variable of the method found is the decoded parts that its own segments matched. |
| RegisteredTemplates.TreeIsRegistered | src/include/grpc_transcoding/path_matcher.h:408-438 | A call for a template that a tree prints as is for the segments spelled from that tree, under the method followed by its verb. |
| RegisteredTemplates.TreeServesIff | src/include/grpc_transcoding/path_matcher.h:323-358 | A registered template serves its own method and verb iff its tree matches the parts. |
| RegisteredTemplates.RegisteredIsFound | src/include/grpc_transcoding/path_matcher.h:323-358 | A request for the method of a registered template, with parts that its tree matches and its verb behind a colon, finds a method whose tree matches the parts, if no route was registered twice. |
| RegisteredTemplates.RootServesIff | src/http_template.cc:364-366 | The template "/" serves its method for no parts, and binds nothing. |
| TemplatePrecedence.MostSpecificIsFound | src/path_matcher_node.cc:140-179 | For parts none of which is spelled "**", the method found is that of the most specific template that can serve: at the first difference a literal comes before a star and both before "**", the end of the path before an empty "**", behind a "**" the longer path first; for the same segments the key before "*". |
| TemplatePrecedence.PiecesOfTree | src/http_template.cc:363-375 | What is compared are the stars, double stars and literals of the registered tree, from left to right and out of all variables. |
| TemplatePrecedence.FirstBeats | src/path_matcher_node.cc:140-179 | The order in which paths are searched is that order of templates. |
| TemplatePrecedence.OrderDecidesIff | src/path_matcher_node.cc:150-176 | For all parts: that order decides between any two templates iff no part is spelled "**"; such a part goes to a "**" before it goes to a star. |
| PathMatchers.PathMatcherBuilder.Register | src/include/grpc_transcoding/path_matcher.h:408-438 | What a call returns and changes, for each of: malformed template, duplicate with and without the option, success. |
| PathMatchers.PathMatcher.Lookup | src/include/grpc_transcoding/path_matcher.h:323-358 | A lookup over the mutable trie gives the priority match over the calls that were made, and null for a marked route. |
| PathMatchers.PathMatcher.RegisteredIsFound | src/include/grpc_transcoding/path_matcher.h:323-358 | The same for every matcher that was built and the result of its lookup: the verbs that were registered are known without being passed in. |
| WeaverMachine.BodyRuns | src/request_weaver.cc:181-376 | For every tree of bindings and every body object, the weaver emits the serialization of the recursive weave of the two, reports iff a dropped binding conflicts, and ends with nothing left to weave. |
| Weaving.BodyIsKept | src/request_weaver.cc:181-376 | Taking the added values away from the woven body gives the body back, in order, with its duplicates. |
| WeavingConservation.BindAllHoldsGiven | src/request_weaver.cc:319-332 | The tree built by binding values one by one holds each of them at its path, as often as it was given. |
| WeavingConservation.BindingsAreConserved | src/request_weaver.cc:334-376 | Over a complete body object every bound value is added exactly once at its path or dropped exactly once. |
| WeavingConservation.DropsAreJustified | src/request_weaver.cc:352-376 | A binding is dropped only if its field is not repeated and a scalar other than null of the same name is in the body object at its path. |
| WeavingDrops.DroppedIffSet | src/request_weaver.cc:352-376 | A value bound to a field that is not repeated is dropped, each time it was bound, iff the body sets the field: the first objects of the names on its path lead to an object with a scalar of that name that is not null. Nothing else is dropped. |
| WeavingOrder.BindAllKeepsOrder | src/request_weaver.cc:319-332 | The tree built by binding holds at each path the values given there, in the order in which they were given. |
| WeavingOrder.AddedInOrder | src/request_weaver.cc:334-376 | Over a complete body object the values added at a path, in the order of the document, are those given there in the order in which they were given: all of them if the body does not set the field, otherwise those to repeated fields. |
| WeavingObjects.AddedIsTidy | src/request_weaver.cc:334-350 | What is added to an object are scalars, then objects of different names, and no added object is empty. |
| WeavingOrder.RepeatedValuesComeFirst | src/request_weaver.cc:352-376 | A woven body written out: two values of a repeated field in order, then the value of the body. |
| WeavingOrder.FieldsComeBeforeMessages | src/request_weaver.cc:334-350 | A woven body written out: a field of the object before a field of a message that was bound earlier. |
| WeaverPosition.StepKeepsPosition | src/request_weaver.cc:181-224 | Each event that nests, with objects outermost, can be taken, keeps stack and counter together at the open depth, and leaves the output with the same containers open as the input. |
| WeaverPosition.RunKeepsPosition | src/request_weaver.cc:181-224 | So at every point of every run with objects outermost, complete or not. |
| WeaverInjection.RunInjects | src/request_weaver.cc:181-376 | At every point of every run, balanced or not, the output is each event of the input, in order, with the events of whole added nodes before it, and nothing else. |
| WeaverInjection.WhereNodesAreAdded | src/request_weaver.cc:352-376 | Nodes are added only at the end of an object and before a scalar that is not null; before a scalar only strings bound to repeated fields of its name. |
| WeaverInjection.InputIsKept | src/request_weaver.cc:181-376 | So deleting the events of what was added gives back the input so far. |
| WeaverInjection.BodyInjects | src/request_weaver.cc:181-376 | Over a complete body object the nodes added to the events are those the recursive weave adds, in order, and deleting them leaves the events of the body. |
| WeaverPosition.WeavesIffObject | src/request_weaver.cc:183-186 | A complete body leaves nothing to weave iff it is an object or there was nothing to weave: with a list or a scalar outermost the body is copied and the bindings are lost. |
| WeaveInfos.WeaveInfo.FindWeaveMsg | src/request_weaver.cc:378-386 | The first entry of that name, or none. |
| WeaveInfos.WeaveInfo.FindOrCreateWeaveMsg | src/request_weaver.cc:394-399 | An entry of that name, appended if there was none; the rest of the node is kept. |
| RequestWeavers.RequestWeaver.constructor | src/request_weaver.cc:167-179 | Binding one by one builds the specified tree, and the weaver starts at its root with an empty stack. |
| RequestWeavers.RequestWeaver.Bind | src/request_weaver.cc:319-332 | Walking down from the root by reference, creating what is missing, adds the value to the tree and leaves the rest of it intact. |
| RequestWeavers.RequestWeaver.StartObject | src/request_weaver.cc:181-199 | The step of the machine, on a stack of references into the tree; the stack stays a path from the root to a live node. |
| RequestWeavers.RequestWeaver.EndObject | src/request_weaver.cc:201-210 | The step of the machine: empties the node on top in place and pops it, or counts down. |
| RequestWeavers.RequestWeaver.StartList | src/request_weaver.cc:212-218 | The step of the machine. |
| RequestWeavers.RequestWeaver.EndList | src/request_weaver.cc:220-224 | The step of the machine. |
| RequestWeavers.RequestWeaver.RenderData | src/request_weaver.cc:226-302 | The step of the machine for the nine Render methods of values: erases what the value hits from the node on top, in place. |
| RequestWeavers.RequestWeaver.RenderNull | src/request_weaver.cc:304-307 | The step of the machine: null hits nothing. |
| RequestWeavers.RequestWeaver.CollisionCheck | src/request_weaver.cc:352-376 | The erasing loop: repeated ones are rendered, others are dropped and may be reported, all of that name are gone, the others stay in order. |
| RequestWeavers.RequestWeaver.WeaveTree | src/request_weaver.cc:334-350 | Renders all that is left below a node, skipping messages with nothing left, and clears it. |
| PrefixWriting.PartsAroundDot | src/prefix_writer.cc:30-34 | A field path is cut at every dot, for all strings. |
| PrefixWriting.PartsWithoutDot | src/prefix_writer.cc:30-34 | A text without dots is one part, or none if it is empty. |
| PrefixWriting.PartsOfJoin | src/prefix_writer.cc:30-34 | So cutting undoes joining identifiers with dots. |
| PrefixWriting.RootsAreWrapped | src/prefix_writer.cc:36-66 | Any sequence of root values, objects, lists or scalars, comes out wrapped in the objects of the prefix, value by value. |
| PrefixWriting.WritersCompose | src/prefix_writer.cc:36-66 | For every sequence of events, balanced or not, a writer with one prefix feeding a writer with another is a writer with the second prefix followed by the first. |
| PrefixWriters.PrefixWriter.StartObject | src/prefix_writer.cc:36-42 | The specified events and depth. |
| PrefixWriters.PrefixWriter.EndObject | src/prefix_writer.cc:44-50 | The specified events and depth. |
| PrefixWriters.PrefixWriter.RenderValue | src/prefix_writer.cc:68-191 | The specified events for all Render methods; the depth is kept. |
| PrefixWriters.PrefixWriter.StartPrefix | src/prefix_writer.cc:193-199 | The loop opens one object per part and leaves the last part as the name of the value. |
| RequestPipeline.WeaverCanRun | src/request_weaver.cc:201-210 | Ends that do not outnumber the starts never find the stack of the weaver empty, even when they are of the wrong kind. |
| RequestPipeline.WeaverTakesAll | src/request_message_translator.cc:66-79 | The same through the prefix writer: no input of a message, balanced by number, makes the weaver pop an empty stack. |
| RequestPipeline.WeaverIsOptional | src/request_message_translator.cc:65-71 | Leaving the weaver out when there are no bindings makes no difference, for all events. |
| RequestPipeline.OnlyStatusDepends | src/request_weaver.cc:352-376 | Whether and which collisions are reported makes no difference to any event that is written. |
| RequestPipeline.NothingIsLostIff | src/request_message_translator.cc:65-79 | For a body of any kind: every binding is woven in or given up for a body scalar iff the body is an object, or the body field path has a part and is not "*", or there is no binding; otherwise the body is copied and all of them are lost. |
| RequestPipeline.ReceivedIsWoven | src/request_message_translator.cc:48-85 | What the proto writer gets for a body: its events under the prefix with the bindings woven in, and no binding left over. The weaver fails iff collisions are rejected and a value given up for a scalar of the body conflicts with it under the name of its field. |
| BodyPlacement.PassedOnIff | src/request_message_translator.cc:72-79 | Without bindings, all events for the body field paths "" and "*" reach the proto writer as they are; for any other they are written under its parts. |
| BodyPlacement.BodyIsPlaced | src/request_message_translator.cc:72-79 | Without bindings the proto writer gets the body itself for "" and "*", and otherwise the body with one object around it for each part of the path. |
| BodyPlacement.BodyIsNested | src/prefix_writer.cc:30-66 | For a path of identifiers joined by dots each of them is the name of what is in the object before it, the last that of the body. |
| BodyPlacement.BodyIsWoven | src/request_message_translator.cc:65-79 | For "", "*" and a path without parts the bindings are woven into the body itself, |
| BodyPlacement.PlacedBodyIsWoven | src/request_message_translator.cc:65-79 | and for any other path into the object around it, whatever the body is. |
| RequestMessageTranslators.RequestMessageTranslator.constructor | src/request_message_translator.cc:48-85 | The writers are wired together as the info asks for. |
| RequestMessageTranslators.RequestMessageTranslator.Write | src/request_message_translator.cc:61-79 | An event goes through the prefix writer and the weaver to the proto writer; what that one got is the specified function of all input. |
| RequestMessageTranslators.RequestMessageTranslator.NextMessage | src/request_message_translator.cc:91-106 | Once, and only when the proto writer is done: its bytes, framed if asked for. |
| RequestMessageTranslators.RequestMessageTranslator.SizeToDelimiter | src/request_message_translator.cc:115-126 | Writing bytes in place by shifting the size gives the delimiter, and keeps the rest of the message. |
| RequestStreaming.Step | src/request_stream_translator.cc:61-148 | For every sequence of events, balanced or not, while there is no error: the depth is not negative, a message is being translated iff the depth is at least 2, and its events have one level less open. |
| RequestStreaming.ArrayRuns | src/request_stream_translator.cc:61-148 | An array gives one message for each of its values, in order, up to the first that cannot be translated, and that decides the error. |
| RequestStreaming.NoArrayNoMessage | src/request_stream_translator.cc:67-72 | Any other root value is an error and gives no message. |
| RequestStreaming.ErrorStays | src/request_stream_translator.cc:61-66 | After an error no event changes anything. |
| RequestStreaming.MismatchIsFound | src/request_stream_translator.cc:81-148 | For all events: without an error every end had something to end, what was outermost ended as a list, and the depth is what is open; with an error of mismatched ends one had not. |
| RequestStreaming.EachAt | src/request_stream_translator.cc:228-239 | The i-th message is the translation of the i-th value; only the first takes the bindings. |
| RequestStreaming.EachIsReadBack | src/request_stream_translator.cc:241-258 | With delimiters on, the messages of an array one after the other parse as the frames of what the proto writer made, value by value. |
| RequestStreaming.SameReceived | src/request_stream_translator.cc:228-239 | For all events that a message takes: the options that a stream loses make no difference to what the proto writer gets. |
| RequestStreaming.BothOutcomes | src/request_stream_translator.cc:228-258 | The outcome of a body as a message of its own, with the options of the info, and as the next message of a stream, with none, in terms of the same woven events. |
| RequestStreaming.CollisionsAreIgnored | src/request_stream_translator.cc:228-239 | A stream treats a body as an info asks that leaves the case of enums alone, iff the info does not ask for collisions to be rejected, or there is none, or the body fails anyway. |
| RequestStreaming.EnumCaseIsIgnored | src/request_stream_translator.cc:228-239 | A stream treats a body without a rejected collision as the info asks iff the info leaves the case of enums alone or that makes no difference to the proto writer. |
| RequestStreaming.CollisionThatIsIgnored | src/request_stream_translator.cc:228-239 | A body and binding for which a single message fails as asked and a stream does not. |
| RequestStreaming.EnumCaseThatIsLost | src/request_stream_translator.cc:228-239 | A body for which a single message succeeds as asked and a stream fails. |
| RequestStreamTranslators.RequestStreamTranslator.StartObject | src/request_stream_translator.cc:61-81 | The specified step, with no use of a missing translator. |
| RequestStreamTranslators.RequestStreamTranslator.EndObject | src/request_stream_translator.cc:83-101 | The specified step, with no use of a missing translator. |
| RequestStreamTranslators.RequestStreamTranslator.StartList | src/request_stream_translator.cc:103-123 | The specified step, with no use of a missing translator. |
| RequestStreamTranslators.RequestStreamTranslator.EndList | src/request_stream_translator.cc:125-148 | The specified step, with no use of a missing translator. |
| RequestStreamTranslators.RequestStreamTranslator.RenderData | src/request_stream_translator.cc:260-282 | The specified step for all Render methods. |
| RequestStreamTranslators.RequestStreamTranslator.NextMessage | src/request_stream_translator.cc:47-55 | The messages are taken in the order they were made, each once. |
| RequestStreamTranslators.RequestStreamTranslator.Finished | src/request_stream_translator.cc:57-59 | True iff all messages were taken after the end of the array, or there is an error. |
| Framing.SizeIsReadBack | src/request_message_translator.cc:115-126 | What is written of a length is read back modulo 2^32, so it is the length iff it fits 32 bits. |
| Framing.BigEndian | src/request_message_translator.cc:108-126 | A delimiter written out: a zero flag, then the highest byte of the length first. |
| Framing.DelimiterIsWrittenBack | src/message_reader.cc:65-76 | What is read of a delimiter is written back as that delimiter iff its flag is zero. |
| Framing.ParseFrames | src/request_message_translator.cc:108-134 | Reading what was written gives the messages back, whatever follows. |
| Framing.CleanIffFrames | src/message_reader.cc:80-137 | Bytes end at a boundary iff they are the frames of some messages, and then those are the messages read. |
| Framing.EndIs | src/message_reader.cc:80-137 | All bytes are the frames of the messages read and a rest, which is empty, shorter than a delimiter, starts with a flag, or is shorter than its delimiter says, as the end tells. |
| MessageReading.ReaderIsParser | src/message_reader.cc:80-137 | For every byte sequence, chunking, arrival schedule and times of calls: the messages are the first of the pure parse; once the reader is finished they are all of it and the status says how the bytes end. |
| MessageReading.ChunkingDoesNotMatter | src/message_reader.cc:80-137 | Finished runs over the same bytes agree on messages and status, and there is no error iff the bytes are whole frames. |
| MessageReading.FramesAreReadBack | src/message_reader.cc:80-137 | Frames that were written are read back, however they arrive. |
| MessageReading.AdvancesIff | src/message_reader.cc:80-126 | For every reader and input: a call without a message advances the input iff the reader is not finished, has no length yet and a whole delimiter is there; a call gives no message and advances iff besides the delimiter has a flag or not all of the message is there. |
| MessageReading.DelimiterAlone | src/message_reader.cc:88-126 | A delimiter without its message that is taken from the input. |
| MessageReading.PollAdvancesIff | src/message_reader.cc:80-126 | The same for a call within a run. |
| MessageReading.TakenIsFrames | src/message_reader.cc:80-137 | At every point of every run: what was taken from the input is the frames of the messages found, and one delimiter more iff the length of a message to come was read or a flag was met. |
| MessageReading.PollFinds | src/message_reader.cc:80-137 | A call gives the next message of the pure parse iff all of it has arrived. |
| MessageReading.PollsFinish | src/message_reader.cc:88-98 | After the end of the input the reader is finished within one call more than there are messages left. |
| MessageReading.EverythingIsRead | src/message_reader.cc:80-137 | Once the input has ended, and there were more calls than messages in it, the reader is finished, has found all of them, and its status says how the input ends. |
| MessageReading.AllFramesAreReadBack | src/message_reader.cc:80-137 | In that case frames that were written are all read back, without an error. |
| MessageReading.FinishedStays | src/message_reader.cc:81-84 | That the reader is finished, its status and its messages are final. |
| ChunkedInputs.ChunkedInput.Next | test/test_common.cc:55-73 | The next bytes of the input, in chunks; false only at the end. |
| ChunkedInputs.ReadStream | src/message_reader.cc:41-61 | The copying loop over chunks fills the buffer with the next bytes and gives back what it did not copy; it fails iff the input ends first. |
| MessageReaders.MessageReader.NextMessage | src/message_reader.cc:80-137 | The specified call on the real fields: the delimiter is consumed as soon as it is there, errors set the status. |
| MessageReaders.MessageReader.DelimiterToSize | src/message_reader.cc:65-76 | Shifting in four bytes gives the big-endian length. |
| MessageReaders.MessageReader.NextMessageAndGrpcFrame | src/message_reader.cc:139-145 | The same call, with the delimiter that came before the message. |
| MessageStreaming.GivenIsPrefix | src/message_stream.cc:43-106 | For every interleaving of messages arriving and calls: what the user has got and what is still to be given are together the bytes of all messages. |
| MessageStreaming.NextIsFalseAtTheEnd | src/message_stream.cc:43-63 | Next gives bytes iff there are some, skipping empty messages, and is false iff everything was given and the source is finished. |
| MessageStreaming.BackUpUndoesNext | src/message_stream.cc:65-70 | Right after Next, BackUp takes back exactly the asked number of bytes and Next gives them again. |
| MessageStreaming.BackUpWorksIff | src/message_stream.cc:65-83 | With any messages arriving, the source closing and any number of size queries between them, BackUp takes back the asked bytes of Next iff there was no size query; if there was, it does nothing. |
| MessageStreaming.BytesAvailablePreventsBackUp | src/message_stream.cc:76-83 | In every state, and for every count, legal or not: BackUp does nothing when BytesAvailable was asked right after Next. |
| MessageStreaming.AvailableIsCurrent | src/message_stream.cc:76-83 | The number is zero iff nothing is left, and counts all that is left iff only empty messages wait behind the current one. |
| MessageStreams.InputStreamOverMessageStream.Next | src/message_stream.cc:43-63 | The specified call on the real fields. |
| MessageStreams.InputStreamOverMessageStream.BackUp | src/message_stream.cc:65-70 | The specified call on the real fields; illegal counts are ignored. |
| MessageStreams.InputStreamOverMessageStream.BytesAvailable | src/message_stream.cc:76-83 | The specified call on the real fields, which may fetch a message. |
| MessageStreams.InputStreamOverMessageStream.ReadNextMessage | src/message_stream.cc:89-96 | The loop takes messages up to the first that is not empty. |
| JsonFraming.StreamIsFramed | src/response_to_json_translator.cc:42-83 | For every schedule of a streaming call: the output frames the JSON texts of the first messages in the bytes; when it has finished, of all, and the bytes were whole frames; a read error is the one of the pure parse. |
| JsonFraming.FinishedIff | src/response_to_json_translator.cc:42-83 | A streaming call that is over, with buffers never empty, has finished iff the bytes are whole frames and every message has a JSON text. |
| JsonFraming.StreamIsComplete | src/response_to_json_translator.cc:42-83 | Once the input has ended as whole frames of messages with JSON texts, and there was one call more than messages, the call has finished and put out all texts in their framing. |
| JsonFraming.ArrayIsComplete | src/response_to_json_translator.cc:63-75 | In that case the output of an array is "[", the comma-joined JSON texts of all messages, "]"; "[]" for none. |
| JsonFraming.FinishedArray | src/response_to_json_translator.cc:63-75 | Whenever an array has finished, its output is that of all messages in the bytes. |
| JsonFraming.UnaryIsFirst | src/response_to_json_translator.cc:58-62 | A call that is not streaming puts out the text of the first message and nothing else. |
| JsonFraming.UnaryFinishes | src/response_to_json_translator.cc:55-62 | The next call of one that is not streaming and not over finishes it iff a complete message has arrived and has a JSON text, and fails to translate iff one has arrived and has none. |
| JsonFraming.SseComesFirst | src/response_to_json_translator.cc:130-135 | With framing for server-sent events the newline option makes no difference to any run: neither to the output nor to the state. |
| JsonFraming.CallsFinish | src/response_to_json_translator.cc:63-75 | After the end of the input a streaming call finishes or fails within one call more than there are messages left. |
| JsonFraming.FinishedStays | src/response_to_json_translator.cc:43-46 | That the translator is finished and what it put out are final. |
| JsonOutput.OneMessage | src/response_to_json_translator.cc:125-183 | The text of a message: between "data: " and two newlines, before a newline, behind "[" or ",", or alone, as the options say. |
| JsonOutput.StreamOutput | src/response_to_json_translator.cc:42-83 | At every point of every schedule of a streaming call the output is one server-sent event, one line or one array element for each of the first messages; once it has finished it is that of all, and an array has ended. |
| JsonOutput.CompleteOutput | src/response_to_json_translator.cc:42-83 | Once whole frames have arrived, the input has ended and there were more calls than messages, the output is that of all messages. |
| ResponseToJsonTranslators.ResponseToJsonTranslator.NextMessage | src/response_to_json_translator.cc:42-83 | The specified call on the real fields and the reader. |
| ResponseToJsonTranslators.ResponseToJsonTranslator.TranslateMessage | src/response_to_json_translator.cc:125-183 | The text in its framing, or the error of the step that failed. |
| ResponseToJsonTranslators.WriteString | src/response_to_json_translator.cc:102-121 | The loop over buffers of any sizes appends exactly the string; it fails iff it meets an empty buffer. |
| ResponseToJsonTranslators.WriteChar | src/response_to_json_translator.cc:88-99 | Appends one character and gives the rest of the buffer back. |

## Left out

- Query parameters, system parameter names and their binding: independent of routing.
- `Clone` of the trie, `PathMatcherUtility`: they would only add easy members.
- The comparison of values in `isEqual`: it depends on conversions and rounding of an unseen library. It is a
  predicate here, and affects the status only.
- The JSON parser, the proto writer, type resolvers and the text of error messages.
- `LimitingInputStream`: the reader gives the size of a message, and its user reads that many bytes.
- The nine Render methods that differ only in the type of their value are one method in each class.
- RequestWeavers.RequestWeaver.Bind: asks for a path that is not empty, because for an empty one the source computes
  the bound of its loop from an unsigned zero.
- A `MessageReader` over an `InputStreamOverMessageStream`: that stream counts the bytes of its current message only,
  and the reader relies on a count of all that has arrived.
- PathMatchers.PathMatcher.Lookup: gives the bindings from the path only, because those from query parameters, which
  the source appends, depend on neither the search nor the variables.
- PathMatchers.PathMatcherBuilder.Build: hands the trie over; the builder is not to be used afterwards.
- Widths of sizes and counters other than the 32 bits of a delimiter, memory and threads.
