# Verification of the test platform's core algorithms

A Dafny 4.11 model of the self-contained algorithms and state machines of the platform, with proofs of what
their code keeps. `dafny verify dfyconfig.toml` checks everything.

Each component has its own modules.

- **Route templates** (`RouteTemplate`): the compilation of a template to a regular expression, the greedy
  matcher with several placeholders in a segment, and the extraction of path parameters.
- **TCP framing** (`TcpFraming`, `TcpWire`, `TcpClient`): length-prefixed and terminated frames over byte streams, the
  reader, the short exchange and the long connection with its reconnection budget.
- **Interface documents** (`ApiDocMachine`, `ApiDocListing`, `ApiDocSheet`, `ApiDocParser`, `ApiDocBuilders`): the row parser as
  a stack machine and as code on node objects, and the JSON and XML skeletons.
- **XML editing** (`ElementTree`, `XPathCreate`, `XPathInherit`, `XPathEdit`): deletion of nested matches, creation of paths and
  addition of nodes, on element objects whose shape is a tree value.
- **XML queries** (`XPathTokens`, `XPathRewrite`, `XPathWidening`, `XPathSteps`, `XPathQuery`, `XPathGrove`,
  `XPathFallback`, `XPathReading`): ElementTree's tokenizer and evaluation of paths, the namespace-tolerant rewriting of a path with
  its own idea of pieces, and exactly when the two agree.
- **Namespace prefixes** (`XmlNamespaces`): the registration loop of the serializer, and the save and restore of
  the process-wide map by several threads.
- **Data permissions** (`DataScope`, `ScopeMeaning`, `ScopeResolver`): the lattice of scopes, its resolution to departments, the
  list filter against the point check, and the caches of a request.
- **Migration ledger** (`MigrationLedger`, `RepairLimits`, `LedgerRepair`): the plan and the effect of a repair, the upgrade after
  it, and the final checks.
- **Task execution** (`TaskExecution`, `TaskEnds`, `TaskSummary`, `RecordMeaning`): deliveries, claims, the soft and the hard time limit and
  terminal writes as a state machine over the steps that touch the task row or the record; the status and the
  summary of the execution record.
- **Test cases** (`CaseTable`, `CaseOutcomes`, `CaseService`): the case table under creation, restoring, updating, deletion and
  batch saving.
- **Script steps** (`StepNumbering`): the numbering of a step tree and the hand-over of its nodes.

`Options`, `Sequences` and `PyText` hold the shared types and the Python string operations, `PyBlanks` and
`PyNumerals` what `strip`, `upper`, `split` and `int` make of any text.

Imperative code is modelled on objects and proved equal to a function or relation on values; the theorems are
about those. Exceptions are `Result` or `Option` values. Queries of the databases, the file system, the network,
the clock and Python's `str()` are parameters or small contracts. How ElementTree reads a path is modelled after
`xml.etree.ElementPath` of Python's standard library, with the shortcut of its compiled version for plain tags.

## Where the code and its documentation differ

- `build_json` puts an array into a list twice (common/api_doc_convert.py:94 and 99); the sample at the end of the
  file shows one list. The model follows the code (`ApiDocBuilders.ArrayIsWrappedTwice`).
- The comment at configure/celery_config.py:140-143 asks for a visibility timeout above the hard limit, but 7200
  seconds is below the 28800 of the batch task. The model therefore lets a message be delivered again at any time;
  safety rests on the claim (`TaskExecution.ExclusiveIff`).
- The comment at celery_scheduler/tasks/task_autotest_case.py:250-251 says that the soft limit is caught inside the
  batch. The batch is a coroutine on the event loop of another thread (common/async_or_sync_convert.py:145-156), and
  the soft limit raises in the waiting main thread: the delivery ends with the record FAILURE, is acknowledged, and
  loses its hard limit, while the coroutine goes on with its claim. After 28860 seconds the claim can be taken over:
  `TaskExecution.ConfiguredOverlaps`, `TaskExecution.InterruptedDisagrees`.
- "Every claim is followed by one terminal state" fails when closing the schedule raises after the terminal write
  (celery_scheduler/tasks/task_autotest_case.py:152-154 lies inside the try block), or when the last write fails:
  `TaskExecution.OneTerminalWriteIff`, `TaskExecution.CloseRaisingBreaksSafety`.
- The rewriting of a path to any namespace takes every slash for a step, also one in a quoted value
  (common/xpath_utils.py:117-125): `./a[@k='v/w']` becomes `./{*}a[@k='v/{*}w']`, and findall misses the element in
  a document with namespaces. `.a`, which ElementTree reads as the children `a`, becomes `{*}.a` and finds nothing
  either. When nothing is lost: `XPathFallback.RewriteLosesNothingIff`, `XPathFallback.QuotedSlashLosesAnswer`.
- The request schema shows PRIVATE_SCRIPT as the default case type, but a request without a type stores none
  (applications/autotest/services/autotest_case_crud.py:239): `CaseTable.CreateKeepsUniqueIff`.
- Menu entry [2] of the ledger tool promises to execute the files beyond the limit; only the full fix does, the
  plain repair drops the returned list (scripts/repair_aerich_alignment.py:414-417).
- The comment above the snapshot in the serializer speaks of restoring the scene; the snapshot is taken before the
  lock (common/xml_utils.py:131-133): `XmlNamespaces.SaveUnderLockLeaks`.

## Model

| member | source | states |
|---|---|---|
| `RouteTemplate.CompileRouterPath` | services/dependency.py:67-84 | the loop over the parts returns a pattern that reads, with every metacharacter escaped, as the literals and groups of the template, and the parameter names in the order of the groups |
| `RouteTemplate.PartRegex` | services/dependency.py:78-82 | escaping a part and then substituting its placeholders gives a regular expression that reads back as the tokens of the part: escaping never hides, splits or invents a placeholder |
| `RouteTemplate.JoinedRegex` | services/dependency.py:74-83 | the same for the joined parts of a whole template |
| `RouteTemplate.FindNamesAreTokens` | services/dependency.py:76-77 | the names found in the unescaped part are those of the placeholders that become groups |
| `RouteTemplate.MatchIff` | services/dependency.py:100-101 | the matcher succeeds on a path exactly when some non-empty slash-free values fill the items to that path, and its groups are then such values, the greediest choice |
| `RouteTemplate.MatchesIffInstance` | services/dependency.py:87-101 | a path matches a template exactly when it equals it or is an instance of it, whatever the shortcuts on equal text and on templates without braces |
| `RouteTemplate.TemplateMatchesItself` | services/dependency.py:96-97 | a template is an instance of itself, so the equality shortcut never accepts what the pattern would not |
| `RouteTemplate.ExtractIsZip` | services/dependency.py:103-117 | on a match the extracted dictionary is the names zipped with values that fill the template to the path; otherwise it is empty |
| `RouteTemplate.ExtractRoundTripIff` | services/dependency.py:103-117 | putting the extracted values back into the template gives the path, for every matching path, exactly when the parameter names are distinct |
| `RouteTemplate.RepeatedNameLosesPath` | services/dependency.py:117 | with a repeated name there is a matching path that the extracted values do not give back |
| `TcpFraming.PrefixAcceptedIff` | common/request/tcp_async_utils.py:352-375 | for radix 10 and 16 a prefix is refused exactly when the value is at least radix to the power of the width; a field of no digits refuses every value |
| `TcpFraming.FrameAcceptedIff` | common/request/tcp_async_utils.py:377-412 | the builder refuses a length-prefixed frame exactly when its length value, with or without the width, does not fit the field |
| `TcpFraming.PrefixReadsBack` | common/request/tcp_async_utils.py:372-525 | the prefix of an accepted frame reads back as the length of the body: never negative, under either convention |
| `TcpFraming.FrameRoundTrip` | common/request/tcp_async_utils.py:404-525 | an accepted frame within the size limit is received as its body, and the rest of the stream is untouched |
| `TcpFraming.FramesRoundTrip` | common/request/tcp_async_utils.py:404-525 | any list of frames, one after the other, is received as exactly that list with what follows left over |
| `TcpFraming.TerminatorRoundTripIff` | common/request/tcp_async_utils.py:408-542 | a terminated body is received as itself exactly when the terminator does not occur earlier in body and terminator, within the read limit |
| `TcpFraming.BorderlessIff` | common/request/tcp_async_utils.py:408-542 | not occurring earlier is the same as not occurring in the body, for all bodies, exactly when the terminator has no proper border |
| `TcpFraming.BorderBreaksBody` | common/request/tcp_async_utils.py:408-542 | a bordered terminator has a body that does not contain it and still is cut short |
| `TcpFraming.CrlfBorderless` | common/request/tcp_async_utils.py:408-409 | CRLF has no proper border |
| `TcpFraming.FromHexToHex` | common/request/tcp_async_utils.py:342-348 | every byte string is the decoding of its hexadecimal text |
| `TcpFraming.HexBodyIff` | common/request/tcp_async_utils.py:325-349 | a hexadecimal text body is accepted exactly when, without blanks and up to the case of its letters, it is the hexadecimal text of some bytes, and it is then those bytes |
| `TcpClient.ReadUntilEof` | common/request/tcp_async_utils.py:414-434 | the chunk loop returns the whole rest of the stream when it is within the limit and refuses it otherwise, however the stream is cut into chunks |
| `TcpClient.ReceiveFrame` | common/request/tcp_async_utils.py:507-525 | the receive steps on the reader give the outcome of the frame on its stream and leave the reader where the frame ends |
| `TcpClient.Exchange` | common/request/tcp_async_utils.py:436-562 | what is sent on a connection carries the body of the request data, so that a reader of the same mode gets it back, and nothing is sent when there is no body or its length does not fit; the answer is what the receiving half makes of the bytes of the peer, and a peer that stays silent times out |
| `TcpWire.BodyIff` | common/request/tcp_async_utils.py:325-349 | the body is the given bytes, the serialised object, the encoded text, or the bytes that a hexadecimal text spells; only such a text can be refused |
| `TcpWire.PayloadCarries` | common/request/tcp_async_utils.py:352-412 | in length mode the payload is a field of small-letter digits and the body, and any reader of the mode gets the body back; in terminator mode it is the body and the end symbol, if there is one, and comes back exactly when the end stands nowhere earlier; in raw mode it is the body |
| `TcpWire.PayloadIff` | common/request/tcp_async_utils.py:372-412 | a payload is refused exactly when its length is not in radix 10 or 16 or does not fit the field |
| `TcpWire.AnswerReceivedIff` | common/request/tcp_async_utils.py:505-545 | an answer that carries a body is received as that body exactly when it keeps the size limit, which for a terminated answer is never below 65536, and its end stands nowhere earlier |
| `TcpWire.FrameReceivedIff` | common/request/tcp_async_utils.py:507-525 | a body is received in length mode exactly when the stream begins with a prefix that announces its length, and the body, within the limit |
| `TcpWire.PrefixLengthIff` | common/request/tcp_async_utils.py:507-520 | a prefix announces a length exactly when a number stands in it that is the length, with the width where the prefix counts itself |
| `TcpWire.TerminatedIff` | common/request/tcp_async_utils.py:527-542 | a body is received up to an end symbol exactly when the stream begins with it and the end, which stands nowhere earlier, within the limit |
| `TcpClient.PacketRoundTripIff` | common/request/tcp_async_utils.py:655-737 | the long connection delivers a body exactly when its length has at most the field width in digits and is within the size limit: the overflow check of the short connection is missing here |
| `TcpClient.ConversationIff` | common/request/tcp_async_utils.py:655-737 | a sequence of sends is received frame by frame with nothing else consumed exactly when every body fits |
| `TcpClient.ConnectingIff` | common/request/tcp_async_utils.py:623-653 | dialling succeeds exactly when some attempt within the retry budget connects after time-outs only; each time-out survived costs one retry and every attempt is counted |
| `TcpClient.AsyncTcpConnection.Connection` | common/request/tcp_async_utils.py:623-641 | the method dials as that, and changes the retry counter and the connection state accordingly |
| `TcpClient.AsyncTcpConnection.Reconnection` | common/request/tcp_async_utils.py:643-653 | one retry is spent before dialling again; none left is an error |
| `TcpClient.AsyncTcpConnection.Send` | common/request/tcp_async_utils.py:655-675 | on a connection the packet is appended whole; without one it is dialled through the reconnection or refused, and an error writes nothing |
| `TcpClient.AsyncTcpConnection.Receive` | common/request/tcp_async_utils.py:701-737 | a call returns what the next frame of the incoming stream holds and leaves the rest of the stream |
| `ApiDocMachine.FieldRoundTrip` | common/api_doc_convert.py:36-77 | in any stack context the rows of a field that fits its place append that field to the current node, restore the stack, and leave the array flag as the field says |
| `ApiDocMachine.ChildrenRoundTrip` | common/api_doc_convert.py:36-77 | the same for the rows of a list of fields, in a node that has just opened |
| `ApiDocMachine.ListThenParse` | common/api_doc_convert.py:22-78 | parsing the rows of a tree gives back that tree, with the stack empty, when no structure is named like the structure it is directly in and no array like the array, and the leaves that come while the array flag is set, and no others, are together in an unnamed first child |
| `ApiDocListing.ListThenParseIff` | common/api_doc_convert.py:22-78 | and exactly then, over all trees, also with structures and arrays in arrays: the flag is set by an opening array, passed on through structures, and cleared by a closing array |
| `ApiDocListing.ShapedReadsBackIff` | common/api_doc_convert.py:45-54 | when arrays hold leaf rows only, exactly when no structure is named like the structure it is directly in |
| `ApiDocListing.ParseThenListIff` | common/api_doc_convert.py:22-78 | over all rows: a parsed tree lists the rows it was parsed from exactly when the last row closes the root, no row before does, and no leaf row in array mode goes into a closed node; then the tree reads back |
| `ApiDocListing.ListingIff` | common/api_doc_convert.py:22-78 | rows are the listing of some tree that reads back exactly when they are read in that way |
| `ApiDocListing.BalancedCloses` | common/api_doc_convert.py:22-78 | reading a listing without a failure ends with an empty stack, whatever the names: a row repeated closes what it opened |
| `ApiDocListing.SameNameIsLost` | common/api_doc_convert.py:47-50 | a structure inside one of the same name is taken for the end of the outer one |
| `ApiDocListing.ArrayModeLeaks` | common/api_doc_convert.py:65-71 | the array flag stays set inside a structure nested in an array: the leaf lands in an unnamed structure |
| `ApiDocParser.ParseExcelData` | common/api_doc_convert.py:22-78 | a sheet that spells the rows of a tree that reads back, with STRUCT and ARRAY in letters of any case, gives node objects for that tree; and the objects, or the failure, of every sheet are those of the stack machine on the rows it spells |
| `ApiDocSheet.ClassifyIff` | common/api_doc_convert.py:36-71 | a sheet row is read as the row it spells and as no other |
| `ApiDocSheet.SheetIff` | common/api_doc_convert.py:22-78 | a sheet that spells the listing of a tree parses to the tree exactly when the tree reads back |
| `ApiDocParser.ReadStruct` | common/api_doc_convert.py:38-54 | one structure row on the objects follows the machine: opens a node, closes the current one, or starts a root |
| `ApiDocParser.ReadArray` | common/api_doc_convert.py:55-67 | one array row likewise, with the array flag |
| `ApiDocParser.ReadLeaf` | common/api_doc_convert.py:68-77 | one leaf row likewise: into the current node, or into its last child in array mode |
| `ApiDocBuilders.BuildJson` | common/api_doc_convert.py:80-101 | the recursive builder gives the document structure with an array as a list in a list, and fails exactly on an array without children |
| `ApiDocBuilders.LastChildWins` | common/api_doc_convert.py:88-97 | a structure has one entry for each name among its children, with the value of the last child of that name |
| `ApiDocBuilders.PutIs` | common/api_doc_convert.py:88-97 | setting a name keeps the place of one that is there and appends one that is not; every other name keeps its value |
| `ApiDocBuilders.JsonFailsIff` | common/api_doc_convert.py:99 | the JSON skeleton fails exactly when some array has no leaf |
| `ApiDocBuilders.XmlKeepsSlots` | common/api_doc_convert.py:103-126 | the XML skeleton has the leaves of the tree, with their paths and lengths, in order |
| `ApiDocBuilders.SkeletonsAgree` | common/api_doc_convert.py:80-126 | where names do not repeat among siblings and no array is empty, the JSON and the XML skeleton have the same leaves in the same order |
| `StepNumbering.AssignStepNos` | celery_scheduler/tasks/task_public_api_to_script.py:34-56 | the visited nodes of any forest get start, start+1, ... in preorder, branch children of an IF step before its plain children, and the next free number is returned |
| `StepNumbering.CountOrdersAll` | celery_scheduler/tasks/task_public_api_to_script.py:34-56 | so a step has a smaller number than everything below it, everything below the branches of an IF step smaller ones than everything below its plain children, and a step with what is below it smaller ones than the next |
| `StepNumbering.AssignStep` | celery_scheduler/tasks/task_public_api_to_script.py:47-55 | the same for one step and what hangs below it |
| `StepNumbering.RecursiveUpdateCaseId` | celery_scheduler/tasks/task_public_api_to_script.py:59-74 | exactly the nodes of the forest, branches included, get the new case id |
| `StepNumbering.NumberedWithin` | celery_scheduler/tasks/task_public_api_to_script.py:34-74 | every numbered node also gets the case id, and the two traversals visit the same nodes exactly when only IF steps carry branches |
| `StepNumbering.NumberedAllWithin` | celery_scheduler/tasks/task_public_api_to_script.py:34-74 | the same for a forest |
| `ElementTree.PruneTwice` | common/xpath_utils.py:404-407 | pruning by one set and then by another is one pruning by both |
| `ElementTree.PruneKeepsOrder` | common/xpath_utils.py:404-407 | pruning keeps the root, and the survivors keep their document order |
| `ElementTree.SurvivesIff` | common/xpath_utils.py:404-407 | a node survives a pruning exactly when neither it nor a node above it, other than the root, is in the set |
| `ElementTree.CutReflects` | common/xpath_utils.py:405-407 | taking one entry out of one child list of the store is pruning the tree by that node |
| `ElementTree.GrowThenPrune` | common/xpath_utils.py:318-324 | a new last child can be cut off again to give the old tree |
| `XPathRewrite.NamespaceAgnosticXpath` | common/xpath_utils.py:100-126 | the index loop over the path joins the rewritten pieces in order and nothing else |
| `XPathRewrite.TokensOfRewrite` | common/xpath_utils.py:110-126 | the rewritten path is cut into the rewritten pieces of the path |
| `XPathRewrite.RewriteIdempotent` | common/xpath_utils.py:108-126 | rewriting a rewritten path changes nothing |
| `XPathReading.SegmentIff` | common/xpath_utils.py:75-105 | a piece is changed exactly when it does not begin with @ and what stands before its bracket is a name; the wildcard then replaces everything up to the first colon of the name |
| `XPathWidening.Simulate` | common/xpath_utils.py:74-126 | token by token as ElementTree reads them, the rewritten path is the path with its names widened to any namespace, or from some token on has a changed quoted text or a name that no element has; which of the two, the text of the path shows |
| `XPathSteps.ParseWidened` | common/xpath_utils.py:128-151 | widened tokens are the same steps, with names in any namespace instead of none |
| `XPathSteps.ParseSpoiled` | common/xpath_utils.py:128-151 | spoiled tokens, where they can be evaluated at all, have a step that finds nothing |
| `XPathFallback.RewriteLosesNothing` | common/xpath_utils.py:74-151 | whatever a path finds whose text is unbroken, the rewritten path finds, and without a parent step in the same relative order |
| `XPathFallback.RewriteLosesNothingIff` | common/xpath_utils.py:74-151 | over all texts: the rewritten path finds everything the path finds, on every document under every reading of the bracketed conditions, exactly when the path finds nothing in any document or its text is unbroken: each changed piece begins outside quotes with a name, and none that begins in a quoted value is changed |
| `XPathGrove.BarrenFindsNothing` | common/xpath_utils.py:128-151 | a path with a blank for a name or a parent step above the root finds nothing in any document |
| `XPathGrove.WitnessIs` | common/xpath_utils.py:128-151 | every other path finds something in some document with distinct elements and without namespaces |
| `XPathFallback.KeepsAnswerIff` | common/xpath_utils.py:74-151 | for one document and one reading of the conditions by which none with a brace in its value holds: the rewritten path finds everything the path finds exactly when the text is unbroken or the path finds nothing there |
| `XPathFallback.RewriteExactIff` | common/xpath_utils.py:74-151 | on documents without namespaces the rewriting changes no answer of a path that can find something, exactly when its text is unbroken |
| `XPathFallback.FindAllIff` | common/xpath_utils.py:128-151 | findall finds something exactly when the any-namespace query does, and nothing that query does not, on all documents, exactly under the same condition |
| `XPathReading.ParentsOnce` | common/xpath_utils.py:128-151 | a parent step gives each parent once |
| `XPathReading.ClarkAccepts` | common/xpath_utils.py:128-151 | a name with a URI in braces asks for that name in that namespace, and a star behind the braces for any name in it |
| `XPathReading.StarFindsChildren` | common/xpath_utils.py:128-151 | a star alone finds all children of the root, in any namespace |
| `XPathReading.ClarkIsDirect` | common/xpath_utils.py:128-151 | such a name is no path whatever the URI holds, but is compared with the tags |
| `XPathReading.TrailingSlash` | common/xpath_utils.py:128-151 | a slash at the end of a path asks for all children |
| `XPathFallback.QuotedSlashLosesAnswer` | common/xpath_utils.py:117-151 | findall misses a namespaced element asked for by an attribute value with a slash, since the fallback looks for another value |
| `XPathFallback.PlainValueFound` | common/xpath_utils.py:128-151 | and finds it, in any namespace, when the value has no slash |
| `XPathCreate.PartsOfPath` | common/xpath_utils.py:347-357 | a simple relative path is walked along exactly its names, with or without "./" |
| `XPathReading.PathPartsIs` | common/xpath_utils.py:347-357 | every path: nothing is walked along exactly when what is left without blanks, dot and leading slash has adjacent slashes or a bracket, or is no more than a slash; otherwise the walk is along the pieces between its slashes |
| `XPathReading.LocalPartIs` | common/xpath_utils.py:361-366 | a prefixed piece stands for what follows its first colon, any other for its local name |
| `XPathReading.LocalNameIff` | common/xpath_utils.py:48-58 | the local name of a tag is what follows its last closing brace |
| `XPathCreate.WideQuery` | common/xpath_utils.py:128-151 | on a simple path the any-namespace query is the descent by local names |
| `XPathCreate.CreatedReaches` | common/xpath_utils.py:359-376 | when the descent reaches nothing, after the creation it reaches exactly one node, the last one made, with the value |
| `XPathCreate.CreatedIsFound` | common/xpath_utils.py:296-376 | when findall finds nothing on a simple path, afterwards it finds exactly the one new leaf with the value, whatever namespaces the existing nodes have |
| `XPathCreate.CreateOnlyAdds` | common/xpath_utils.py:359-376 | taking the new nodes away again gives back the old tree, text and all |
| `XPathInherit.AllInherit` | common/xpath_utils.py:60-376 | in the tree after the creation every node with a new identity has the local name of its piece, or of the given tag below the last one, and the namespace of the node one step above |
| `XPathInherit.RootNamespace` | common/xpath_utils.py:60-376 | where nothing of the path is there, every new node is in the namespace of the root |
| `XPathInherit.GrownInherits` | common/xpath_utils.py:60-325 | the node added at a place is the only new one, and has the namespace of the node one step above when it was given that of the place |
| `XPathEdit.Iter` | common/xpath_utils.py:262 | the elements in document order |
| `XPathEdit.FindParent` | common/xpath_utils.py:249-266 | the returned element has the target among its children; none is returned exactly for the root and for elements not in the tree |
| `XPathEdit.FindChild` | common/xpath_utils.py:224-247 | the first child without namespace of that name, else the first in any namespace |
| `XPathEdit.Delete` | common/xpath_utils.py:397-409 | removing the matches one at a time, skipping those already detached, gives the one-pass pruning of the document by the set of matches |
| `XPathEdit.RemoveChild` | common/xpath_utils.py:406-407 | the document loses exactly that subtree |
| `XPathEdit.CreatePath` | common/xpath_utils.py:328-376 | on the element objects the descent makes as many new elements as steps are missing, all fresh, each with its local name in the namespace of the element above it, and leaves the created tree; a path with // or a predicate changes nothing |
| `XPathEdit.Descend` | common/xpath_utils.py:360-369 | one round of the descent keeps the objects a document and stands at the created tree |
| `XPathEdit.AddAtMatch` | common/xpath_utils.py:301-325 | a leaf without a given tag gets a sibling at the end of its parent, anything else a last child; its local name is that of the tag, of the last child or of the match, its namespace that of the element it is put into; nothing else changes |
| `XPathEdit.LeadsCreate` | common/xpath_utils.py:359-376 | the descent step by step, finished where it stands, is the creation on values |
| `XPathEdit.ParentIs` | common/xpath_utils.py:318-320 | the element found as parent stands one step above the match |
| `XmlNamespaces.NamespaceMap.PreferredPrefix` | common/xml_utils.py:122-128 | the loop finds the first declaration of the root URI and replaces a reserved prefix by the default one |
| `XmlNamespaces.NamespaceMap.Serialize` | common/xml_utils.py:130-172 | the registration loop and its fallback put the specified bindings in force for the writing, and on every exit the shared map is what it was |
| `XmlNamespaces.InForceIsSound` | common/xml_utils.py:134-166 | no two URIs share a prefix, and only the root URI can be written without one |
| `XmlNamespaces.RootIsBound` | common/xml_utils.py:122-166 | the root URI is always bound, to its first declared prefix unless that is reserved or empty |
| `XmlNamespaces.RootHasFirstPrefix` | common/xml_utils.py:122-166 | the first prefix that the root is declared with is the one in force for it, unless it is ns with digits; then none is |
| `XmlNamespaces.UndeclaredRoot` | common/xml_utils.py:122-166 | a root that is not declared has no prefix |
| `XmlNamespaces.NothingInvented` | common/xml_utils.py:137-158 | any other URI has a declared prefix or the one it had before |
| `XmlNamespaces.DeclaredIsBound` | common/xml_utils.py:137-158 | a declared URI is written with a declared prefix when its prefix is declared for no other URI and none of its declarations uses the prefix chosen for the root |
| `XmlNamespaces.RoundsHeld` | common/xml_utils.py:135-158 | what the loop has registered stays registered, one prefix per URI, and only bindings whose prefix was taken are evicted |
| `XmlNamespaces.CleanWhenFree` | common/xml_utils.py:130-172 | over all runs of any threads, if no snapshot is taken while a thread holds the lock, the map is the initial one whenever the lock is free |
| `XmlNamespaces.SnapshotComesBack` | common/xml_utils.py:131-172 | whatever snapshot a thread has taken is the map when it leaves |
| `XmlNamespaces.CleanIff` | common/xml_utils.py:131-172 | over every run from a clean start: from every point of it, whatever the threads under way do, the initial map is back once the lock is free, exactly when every snapshot was taken of the initial map |
| `XmlNamespaces.SaveUnderLockLeaks` | common/xml_utils.py:131-133 | a snapshot taken before waiting for the lock can keep another thread's prefixes for good |
| `DataScope.WidestIsMaximum` | services/resource_policy.py:10-26 | the widest scope is one of the scopes and none is wider; of none it is the user alone |
| `DataScope.WiderCoversIff` | services/data_scope.py:205-226 | a wider scope resolves to no fewer departments exactly when the closure table holds the user's own department or nothing below it |
| `DataScope.LevelsMonotone` | services/data_scope.py:271-289 | more roles never narrow a level, whatever overrides, defaults and admin roles |
| `DataScope.MoreRolesMoreRights` | services/data_scope.py:133-289 | adding roles never takes a read, write or delete right away on any owner |
| `DataScope.MoreRolesMoreRightsIff` | services/data_scope.py:133-289 | for all roles, overrides and owners that holds exactly when the closure table lists the user's own department or nothing below it |
| `DataScope.WritableIsReadable` | services/data_scope.py:192-203 | what may be changed or deleted may be read |
| `DataScope.FilterAgreesWithCheck` | services/data_scope.py:96-146 | for a normalised loaded owner whose active rows name one department, the list filter selects its rows exactly when the point check allows reading |
| `ScopeMeaning.ResolvedMeans` | services/data_scope.py:170-289 | the resolved scope, said of roles, override rows and the closure table: in each of reading, changing and deleting the widest over the roles of the level in the last override row of the role for the tag, where that row gives one, and of the own level of the role otherwise; then the departments of that level, cut down to those that may be read |
| `ScopeMeaning.EffectiveMeans` | services/data_scope.py:271-289 | the three levels are those, field by field |
| `ScopeMeaning.Extremes` | services/data_scope.py:271-280 | without roles the user is alone in all three; with the code of the administrators, blanks aside, nothing is limited, whatever the overrides |
| `ScopeMeaning.RightsIff` | services/data_scope.py:113-161 | reading, changing and deleting go by their own departments: nothing is limited, the record is the own one, or its owner was loaded with one of the departments |
| `ScopeMeaning.KeyIff` | services/ctx.py:9-11 | the key of an account is its name without blanks around it, in capitals, and no more than 16 characters of it |
| `DataScope.FilterAgreesIff` | services/data_scope.py:96-146 | and for all scopes exactly then |
| `DataScope.NormalizeStableIff` | services/ctx.py:9-11 | a normalised name is its own normal form exactly when the cut to 16 characters does not fall after a blank |
| `ScopeResolver.LoadingOrder` | services/data_scope.py:111-131 | the batches and the order in which owners are loaded do not matter |
| `ScopeResolver.FilterAgreesAfterLoading` | services/data_scope.py:88-146 | list filter and point check agree after any loads that include the owner |
| `ScopeResolver.RequestScope.LoadOwners` | services/data_scope.py:111-131 | known owners keep their entry, new keys get the department of their last active row or none |
| `ScopeResolver.RequestScope.ForTag` | services/data_scope.py:77-86 | the scope of another tag is that of an uncached resolution; the same tag, a system scope and a scope without resolver return themselves |
| `ScopeResolver.Resolver.Resolve` | services/data_scope.py:245-269 | the scope of a tag is what the roles, their override rows and the closure table say, as in an uncached resolution, the same object for the same tag, and earlier scopes stay cached |
| `ScopeResolver.Resolver.TagOverrides` | services/data_scope.py:291-305 | the cached overrides answer like the table for every role of the user |
| `ScopeResolver.Resolver.Effective` | services/data_scope.py:271-289 | the three levels are the widest that the roles give, an override replacing the level of the role field by field |
| `LedgerRepair.FindDuplicateRecords` | scripts/repair_aerich_alignment.py:60-65 | the rows whose version is recorded again later, in order |
| `MigrationLedger.RepairThenUpgradeAligns` | scripts/repair_aerich_alignment.py:162-224 | from any ledger and files, repair and upgrade leave each file recorded exactly once and nothing else |
| `MigrationLedger.NothingToDoIff` | scripts/repair_aerich_alignment.py:166-173 | a plan is empty exactly when each file is recorded once and nothing else is |
| `MigrationLedger.SecondPassIsIdle` | scripts/repair_aerich_alignment.py:162-209 | a second pass plans no change |
| `MigrationLedger.RepairTwice` | scripts/repair_aerich_alignment.py:162-209 | repairing a repaired ledger again changes nothing, with files still to be executed or not |
| `MigrationLedger.RepairedHolds` | scripts/repair_aerich_alignment.py:192-206 | after a repair there are no duplicates and no stale rows, and exactly the files beyond the limit are missing |
| `MigrationLedger.NewestRecordStays` | scripts/repair_aerich_alignment.py:60-197 | every recorded file keeps its newest row |
| `MigrationLedger.CountsMeanAlignedIff` | scripts/repair_aerich_alignment.py:332-344 | equal counts without duplicates mean a one-to-one correspondence exactly when no row is stale |
| `MigrationLedger.StaleHidesMissing` | scripts/repair_aerich_alignment.py:332-344 | one stale row and one missing file pass that check |
| `MigrationLedger.NewestAfterFixIff` | scripts/repair_aerich_alignment.py:345-451 | when the newest-record check passes after the fix, read off the plan |
| `MigrationLedger.NewestWithAutoIff` | scripts/repair_aerich_alignment.py:68-350 | with `auto`: exactly when a file was executed, or else the last filled gap or last kept row carries the highest recorded number |
| `MigrationLedger.FinalRows` | scripts/repair_aerich_alignment.py:192-224 | the final rows are the kept ones, the filled gaps and the executed files, in that order |
| `RepairLimits.PlanIff` | scripts/repair_aerich_alignment.py:67-80 | a plan is made exactly for the limits all and auto and for a text with a decimal number in it |
| `RepairLimits.HandedOver` | scripts/repair_aerich_alignment.py:67-179 | handed over for execution are exactly the files without a record that lie beyond the limit: numbered above 10^9 with all, above every recorded file with auto, above the number otherwise |
| `RepairLimits.AllOnlyRecords` | scripts/repair_aerich_alignment.py:67-209 | with all and files numbered up to 10^9 nothing is handed over, and a repair records every file, the new records without snapshot |
| `RepairLimits.ExecutedAre` | scripts/repair_aerich_alignment.py:439-451 | after the upgrade the new records with a snapshot, below the newest, are those of the files beyond the limit |
| `RepairLimits.NumberOfName` | scripts/repair_aerich_alignment.py:48-57 | the number of a file is the numeral in front of the first underscore of its name |
| `LedgerRepair.Ledger.RepairRecords` | scripts/repair_aerich_alignment.py:144-209 | it fails exactly without the lock or with a text that is no limit; handed over are exactly the files beyond the limit; only a confirmed, non-idle repair changes the table, to the specified rows, and with all it then has a record of every file |
| `LedgerRepair.Ledger.Upgrade` | scripts/repair_aerich_alignment.py:212-224 | every unrecorded file is recorded in order |
| `LedgerRepair.Ledger.VerifyRepair` | scripts/repair_aerich_alignment.py:319-356 | the verdict of the three checks; an empty table makes it raise |
| `LedgerRepair.FixVerdict` | scripts/repair_aerich_alignment.py:319-356 | on an aligned ledger with a full snapshot the verdict is the newest-record check alone |
| `LedgerRepair.Ledger.FullFix` | scripts/repair_aerich_alignment.py:439-451 | the whole fix executes the files beyond the limit and no others, aligns the ledger, and succeeds exactly when the newest-record check passes; without files it raises, and with a text that is no limit nothing changes |
| `TaskExecution.NoTwoHolders` | celery_scheduler/tasks/task_autotest_case.py:85-253 | with the configured limits no two live executions hold the claim at once, over every run of deliveries, redeliveries, kills and failures in which the soft limit interrupts no delivery and closing the schedule does not raise after the terminal write |
| `TaskExecution.ExclusiveIff` | applications/autotest/services/autotest_task_crud.py:145-195 | the claim is exclusive over every run exactly when a running state is taken over no sooner than the hard limit, the soft limit does not come before the hard one, and closing the schedule cannot raise |
| `TaskExecution.ConfiguredOverlaps` | configure/celery_config.py:13-16 | with the configured limits it is not: an execution interrupted at 25200 seconds and still running at 28861 shares the claim with the next one |
| `TaskExecution.DetachedOverlaps` | common/async_or_sync_convert.py:145-156 | whenever the soft limit comes first: it raises in the waiting thread alone, and the coroutine keeps its claim without a limit |
| `TaskExecution.StepKeepsInvariant` | celery_scheduler/tasks/task_autotest_case.py:85-185 | every step but those two keeps the row showing the holder's claim, and live executions within the hard limit |
| `TaskExecution.ShortWindowOverlaps` | configure/celery_config.py:13-16 | with a shorter window a run has two holders |
| `TaskExecution.OneTerminalWriteIff` | celery_scheduler/tasks/task_autotest_case.py:104-185 | over every run, a claimed execution that has ended wrote exactly one terminal state if and only if closing its schedule and its last write both raised or neither did; a refused one wrote none, a killed one at most one, or two when closing raised |
| `TaskEnds.RefusedForGood` | celery_scheduler/tasks/task_autotest_case.py:85-101 | a claim that finds the row running within the window leaves it as it is, and the execution has written nothing and is recorded as a failure in every run that goes on |
| `TaskEnds.ClaimTakesRow` | applications/autotest/services/autotest_task_crud.py:145-195 | any other claim makes the row running since the execution was stamped |
| `TaskEnds.ClaimShowsStamp` | celery_scheduler/tasks/task_autotest_case.py:85-94 | a claim that succeeds shows the time at which its execution was stamped, over every run between |
| `TaskEnds.KilledForGood` | celery_scheduler/tasks/task_autotest_case.py:104-185 | a killed execution stays as it was in every run that goes on |
| `TaskExecution.RecordAgreesIff` | celery_scheduler/tasks/task_autotest_case.py:104-185 | over every run, the record and the row of a claimed execution that has ended got the same status: if the soft limit interrupted it, or its last write or closing its schedule raised, exactly when the last state written is FAILURE; else exactly unless its batch ended without a case count and without a word of failure |
| `TaskExecution.InterruptedDisagrees` | celery_scheduler/celery_worker.py:561-589 | an interrupted execution has the record FAILURE and can still write SUCCESS to the row |
| `TaskExecution.WriterIsHolderIff` | celery_scheduler/tasks/task_autotest_case.py:149-180 | every terminal write of every run is made by the execution whose claim the row shows, and by no other, exactly when the claim is exclusive |
| `TaskExecution.CloseRaisingBreaksSafety` | celery_scheduler/tasks/task_autotest_case.py:152-185 | if closing the schedule raises after the terminal write, the handler writes a second one over the next claim, and a third execution gets in |
| `TaskSummary.StatusesAgreeIff` | celery_scheduler/tasks/task_autotest_case.py:143-170 | the task row and the execution record get the same terminal status exactly when the batch result carries a case count or says itself that it failed; after an interruption exactly when the batch failed |
| `TaskSummary.StepsRecord` | celery_scheduler/celery_worker.py:531-589 | the statuses that the steps of the state machine record are those that the callbacks compute: of a batch from its result, of a refused or empty task and of every error FAILURE |
| `TaskSummary.BatchStatusIff` | celery_scheduler/tasks/task_autotest_case.py:143-149 | the task row, and the record where the result has a count, are SUCCESS exactly when all cases, at least one, succeeded, PARTIAL_SUCCESS when some did but not as many as there were, FAILURE when none did |
| `TaskSummary.BatchEndIff` | celery_scheduler/tasks/task_autotest_case.py:143-151 | the batch ends that the state machine takes are those of some batch result, and every batch result has one |
| `TaskSummary.NormalizeIdempotent` | celery_scheduler/celery_task_contract.py:185-228 | normalising an envelope again changes nothing, whatever the second pipeline flag |
| `TaskSummary.FailureDetailSummary` | celery_scheduler/celery_task_contract.py:231-269 | the nested loops give the first three reasons among the first three entries of each group, joined, with the total when there are more |
| `TaskSummary.DetailSummaryIff` | celery_scheduler/celery_task_contract.py:231-269 | there is a summary exactly when one of those entries has a reason |
| `TaskSummary.Summary.Finalize` | celery_scheduler/celery_task_contract.py:272-311 | the envelope is edited in place to the final one, and the error text returned |
| `TaskSummary.UpdateOnEnd` | celery_scheduler/celery_worker.py:209-262 | the record written at the end is the specified one, with the status of the counts where the result has some; a count that is no number writes nothing |
| `RecordMeaning.RecordIs` | celery_scheduler/celery_task_contract.py:185-311 | what the record holds, said of the returned value: its raw part, attachments and batch code, and as the error of a record that is no success the first that is not empty of its own error, the traceback, the failure details and a last word; a message that is not blank stays |
| `RecordMeaning.MessageDefault` | celery_scheduler/celery_task_contract.py:210-215 | without a message a failed pipeline shows the error, or a fixed text |
| `RecordMeaning.NotWrittenIff` | celery_scheduler/celery_worker.py:232-241 | no record is written exactly when the result has a count and not both are numbers or empty |
| `RecordMeaning.DetailsIff` | celery_scheduler/celery_task_contract.py:231-269 | there is a detail summary exactly when one of the first three entries of a group has a reason, that of an object or the entry itself |
| `TaskSummary.RecordIsConsistent` | celery_scheduler/celery_task_contract.py:289-311 | the record is SUCCESS exactly when the envelope says success and exactly when the error is null; any other has a non-empty error in both places and a message; raw result and attachments are kept |
| `CaseTable.EveryRunKeeps` | applications/autotest/services/autotest_case_crud.py:123-769 | over every run of creations, updates, deletions and batches no interface has tags, codes stay unique and no step lowers a version |
| `CaseTable.EveryRunKeepsUnique` | applications/autotest/services/autotest_case_crud.py:123-769 | over every run whose creations name their types at most one row, enabled or soft-deleted, has a given project, name, type and owner |
| `CaseTable.CreateKeepsUniqueIff` | applications/autotest/services/autotest_case_crud.py:238-253 | a creation keeps keys unique exactly when it names a type or null, or wakes a deleted row, or no row without type has the rest of the key |
| `CaseTable.UnsetTypeDuplicates` | applications/autotest/services/autotest_case_crud.py:238-253 | the same request twice without a type leaves two rows with one key |
| `CaseTable.UpdatedKeeps` | applications/autotest/services/autotest_case_crud.py:309-364 | an accepted update keeps the tag rule and raises the version by one |
| `CaseTable.UpdatedKeepsUnique` | applications/autotest/services/autotest_case_crud.py:333-352 | an accepted update keeps keys unique |
| `CaseTable.BatchKeeps` | applications/autotest/services/autotest_case_crud.py:562-769 | a batch, even one that stops, deletes nothing, adds as many rows as it counts creations, and counts every entry once |
| `CaseTable.CallKeeps` | applications/autotest/services/autotest_case_crud.py:198-769 | every call keeps the table sound, refused or not |
| `CaseOutcomes.CreatedIff` | applications/autotest/services/autotest_case_crud.py:198-256 | a creation is accepted exactly when the tags fit the type and the rows of its key are all disabled, at least one, or there is none and the code is free |
| `CaseOutcomes.CreatedMakes` | applications/autotest/services/autotest_case_crud.py:159-256 | it leaves one row enabled with the tags of the request: the disabled row that its key stands for, woken with a higher version, or a new one; all other rows stay |
| `CaseOutcomes.UpdatedChanges` | applications/autotest/services/autotest_case_crud.py:309-364 | after an accepted update each given field has the given value and each other one its old value, with the tags by the rule for the type; all other rows stay |
| `CaseOutcomes.DeletedDisables` | applications/autotest/services/autotest_case_crud.py:446-517 | after an accepted soft deletion exactly the listed rows are disabled, and nothing else has changed |
| `CaseOutcomes.BatchEntryDoes` | applications/autotest/services/autotest_case_crud.py:562-769 | each entry of a batch is skipped when its id and code were seen together or it sends nothing, and otherwise changes the row it names, or wakes or makes one, counted as such; after a refusal nothing more happens |
| `CaseOutcomes.HolderStands` | applications/autotest/services/autotest_case_crud.py:123-157 | the row that a key stands for is an enabled one if there is one, and among those alike the one updated last |
| `CaseService.CaseCrud.CreateCase` | applications/autotest/services/autotest_case_crud.py:198-256 | an accepted creation wakes the disabled row of the key or makes one, enabled and with the tags of the request; it is refused exactly by the tag rule, the checks, an enabled row of the key or a code in use |
| `CaseService.CaseCrud.UpdateCase` | applications/autotest/services/autotest_case_crud.py:277-376 | an accepted update changes the row named by id or else by code, in the given fields only; a refused one changes nothing |
| `CaseService.CaseCrud.Change` | applications/autotest/services/autotest_case_crud.py:309-363 | the tag rule, the key check and the write of an update |
| `CaseService.CaseCrud.DeleteCase` | applications/autotest/services/autotest_case_crud.py:396-444 | exactly the located enabled row goes |
| `CaseService.CaseCrud.DeleteCases` | applications/autotest/services/autotest_case_crud.py:446-517 | exactly the listed rows are disabled, or none when the list is empty or one of them is missing or refused |
| `CaseService.CaseCrud.GetByOwnerKey` | applications/autotest/services/autotest_case_crud.py:123-157 | a lookup by business key finds the row that is enabled, or else was updated last |
| `CaseService.CaseCrud.SaveBatch` | applications/autotest/services/autotest_case_crud.py:562-769 | the loop with its processed set gives the specified table, counts and stop |
| `CaseService.CaseCrud.Restore` | applications/autotest/services/autotest_case_crud.py:159-172 | the soft-deleted row is enabled with the new fields and a higher version; owner and code stay |

## Left out

- Sockets, the semaphore, orjson and the response decoders of the TCP client: a stream is a byte sequence, a dialling
  attempt an outcome of the network. Encodings are ASCII-compatible.
- TcpClient.PacketRoundTripIff: speaks of the bytes of a frame; the decoding, stripping and JSON parsing after it are
  not modelled.
- TcpClient.ConversationIff: the same.
- TcpClient.AsyncTcpConnection.Receive: returns the bytes of the frame, for the same reason.
- Digits and letters outside ASCII: `str.isdigit`, `int`, `str.upper` and the `\d` of patterns are modelled on ASCII.
- `receive_headers` of the long connection, and the builder's other settings: nothing beyond the frame codec.
- XPathFallback.RewriteLosesNothingIff: what a bracketed condition means is given by the caller, as a condition on the
  element at its place; its form is modelled, with numbers in ASCII digits. Elements have proper names, so that a
  blank, or a text that is no name, matches none. Comments and processing instructions are not part of a document.
- XPathCreate.CreatedIsFound: covers relative paths of plain or prefixed names; for a Clark name the created node
  takes its parent's namespace instead, so it need not be found again, and `.`, `*` and `..` as pieces go through
  other branches of `find`.
- XPathEdit.FindChild: plain names; `.`, `*`, `..` and paths as names are other branches of `find`.
- XPathEdit.CreatePath: requires that the local part of each piece is a plain name, for the same reason.
- XPathEdit.Descend: the same.
- `update_in_place`, `query` and the attribute paths: one assignment to the last match.
- Text layout, escaping, comments and processing instructions of XML documents; parsing.
- ApiDocBuilders.XmlKeepsSlots: the XML skeleton is built on values rather than on parent elements; order and content
  are modelled, sharing of elements is not. Both it and SkeletonsAgree speak of trees whose arrays hold leaf rows only;
  deeper arrays are covered by the parser and the listings, not by the two skeletons.
- StepNumbering.AssignStepNos: a forest of distinct step objects; one object at two places would be numbered twice.
- StepNumbering.AssignStep: the same.
- The Excel reader and the random message generator of the interface-document converter.
- Authentication, roles of routers and request contexts around the permission code; the request-level role cache.
- DataScope.FilterAgreesWithCheck: the key of a user row is taken as the database computes it; SQL collations and
  the difference between SQL TRIM and Python strip are not modelled.
- The rows of other applications, the transaction and the printed reports of the ledger tool; the preview of the
  next migration; aerich's own bookkeeping beyond one record per executed file.
- TaskExecution.ExclusiveIff: one task row; the schedule scan, the case results, the close-schedule decision, and how
  long a detached coroutine goes on, are free choices of the run. Time limits act at their time or later, the hard one
  before anything else.
- TaskExecution.RecordAgreesIff: the update of the record is taken to succeed. A count that is no number raises, as any
  error of the batch.
- TaskSummary: floats, and objects that are not JSON; `str()` and the attachments found on disk are parameters.
- CaseTable: permission, project, tag-existence, reference and data-source checks can only reject and are one
  parameter per call; deletion by codes, steps, data sources and the transfer of an owner are left out. The calls of
  a run are atomic.
- CaseService.CaseCrud.DeleteCases: by ids; deletion by codes is the same after a lookup.
- CaseService.CaseCrud.GetByOwnerKey: each write is later than those before, and equal times are settled by the id.
- "A private script always has tags" is not claimed: a type change without a tags field skips the rule.
- `ScopeResolver` loads owners from one state of the user table.
- Schedule evaluation, the data-generation leases, step execution and message comparison.
