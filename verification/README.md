# Model of the insert-cheesy-bread server

A Dafny 4.11 model of the parts of this C++ HTTP server that carry state, arithmetic or concurrency, with
proofs about all inputs, all runs and all interleavings. `dafny verify dfyconfig.toml` checks everything.

| files | what they model |
|---|---|
| `ConfigLexer`, `ConfigGrammar`, `ConfigText`, `ConfigLayout`, `ConfigParser` | the nginx-style config: the character machine with push-back, the pushdown parser that builds a tree of objects through a stack of pointers into it, and the printer |
| `RequestParser`, `RequestRoundTrip`, `RequestGrammar`, `RequestStability` | the HTTP request parser, rerun on a growing buffer |
| `EntityStoreValidation`, `EntityStore`, `EntityStoreInMemory`, `EntityStoreConcurrency`, `EntityStorePersistent`, `EntityStores`, `Sorting` | ids and names, the contract of `include/entity_store.h` as one finite map, the two stores that refine it, and the in-memory store under any number of threads |
| `UrlSegments`, `ApiJson`, `ResponseBuilder`, `RequestHandlerApi`, `ApiHistory` | the REST handler, and whole runs of it as a client sees them |
| `Session`, `SessionProtocol` | the callbacks of a connection, and the server, its sessions and its thread pool as a transition system |
| `Routing`, `RoutingMeaning` | extraction of locations, the factory registry and longest-prefix dispatch |
| `Wrappers`, `Sequences` | an option type and a few facts about sequences |

How the parts are laid out:

- Code that works step by step is a method or a class, proved against functions on values; the properties
  are then lemmas about those functions. The parser of configs works on heap objects: its invariant `Chain`
  says that the stack of references is the path from the root through the last statements.
- What a function computes is told a second time from outside it: in literal characters (`ConfigLayout`,
  `RequestGrammar`), in the statements of the config's tree (`RoutingMeaning`), or in the answers that a
  client sees (`ApiHistory`).
- Both stores are proved against one predicate, `EntityStore.Promised`; the REST handler is proved over that
  predicate alone, so that its run properties hold over either store.
- The two concurrent parts are transition systems whose steps are single accesses to shared members. In the
  store the history of calls, effects and returns is recorded, and linearizability is a property of it. In
  the server a step that touches a deleted session sets a flag; that it is never set is a theorem.
- Every lemma turns Dafny's automatic induction off; proofs by induction are written out.
- `int` is a newtype with the range of a 32-bit `int` where ids are computed, so that overflow is a proof
  obligation. Preconditions bound ids: a segment that is parsed spells a value of at most INT_MAX (as far
  as its digits go), and one id is left to create. The second cannot fail within INT_MAX requests
  (`ApiHistory.HandleAll`).

Where code and documentation differ, the model follows the code:

- `include/config_parser.h:32-33` says that `Parse` returns true iff the file is valid. A bare word that
  runs into the end of the file is dropped (`src/config_parser.cc:189-195`), so that `foo; bar` is accepted
  as `foo;`. `ConfigText.AcceptedIffValidExactly` compares acceptance and validity for all texts.
- Quoted strings come back as ordinary words, with their quotes; TOKEN_TYPE_QUOTED_STRING is not produced.
- `'\r'` is skipped as whitespace but does not end a word: `ConfigLayout.ReturnBelongsToWord`.
- The request buffer is never cleared (`src/session.cc:105`), so that later bytes on a connection are
  answered as the first request again: `SessionProtocol.AnswersOneRequest`.
- A quoted port keeps its quotes, so that `listen "8080";` is port 0 and the server does not start:
  `Routing.QuotedPortIsZero`.
- The body of a request is everything behind the blank line; Content-Length in a request is not looked at,
  and nothing is claimed about section 6 of RFC 9112.

## Model

| member | source | states |
|---|---|---|
| `ConfigLexer.InputStream.Get` | src/config_parser.cc:100-103 | `get` takes the first character that is left, or fails and leaves nothing once the stream is at its end |
| `ConfigLexer.InputStream.Unget` | src/config_parser.cc:145-148 | push-back puts the last character in front of what is left |
| `ConfigLexer.ParseToken` | src/config_parser.cc:96-196 | the five-state loop over the stream returns the type, the text and the rest that the functional lexer gives, and leaves the stream at exactly that rest |
| `ConfigLexer.ReadQuoted` | src/config_parser.cc:136-172 | a step inside quotes: an escaped character is taken with its backslash, the closing quote ends the word if a delimiter follows, which is pushed back, and fails otherwise |
| `ConfigLexer.LexIsSlice` | src/config_parser.cc:96-196 | nothing but layout is lost: behind the skipped whitespace the returned text and the rest are the input, cut in two; a comment loses its line end as well, and an error the one character that should have been a delimiter |
| `ConfigLexer.LexProgress` | src/config_parser.cc:96-196 | every call but one that reports the end of input shortens what is left, so that `Parse` terminates on every input |
| `ConfigLexer.LexNormalExactly` | src/config_parser.cc:136-185 | a word is returned if and only if the input is layout, a legal token (bare word, or quoted string closed by its one unescaped quote) and a delimiter; the cut is unique and the delimiter is pushed back |
| `ConfigLexer.LexOtherwiseExactly` | src/config_parser.cc:136-196 | end of input is reported exactly for layout alone, an unfinished comment, or a bare word that no delimiter follows; an error exactly for a quoted string not closed in front of a delimiter |
| `ConfigLexer.LexLegalToken` | src/config_parser.cc:104-186 | any legal token behind any layout and in front of any delimiter comes back unchanged |
| `ConfigLexer.ScanQuotedSound` | src/config_parser.cc:136-172 | what a quoted scan accepts is closed by the first unescaped quote, escapes of quotes and backslashes included |
| `ConfigGrammar.StepKeepsValid` | src/config_parser.cc:203-272 | each accepted token keeps the stack invariant: a block is open only inside an open statement, and the innermost block has an open statement exactly after a word |
| `ConfigGrammar.StepConsumes` | src/config_parser.cc:215-271 | a token that is taken is appended to the flattening of the partial tree, and nothing else changes in it |
| `ConfigGrammar.RunConsumes` | src/config_parser.cc:203-272 | wherever the loop stops, flattening the partial tree gives exactly the tokens in front of the one rejected, or all of them |
| `ConfigGrammar.RunBlock` | src/config_parser.cc:203-272 | from any valid state outside a statement the machine takes every well-formed list of statements, nested to any depth, and appends exactly it to the open block |
| `ConfigGrammar.MachineDecidesGrammar` | src/config_parser.cc:198-279 | the pushdown loop accepts a token list if and only if config ::= stmt+, stmt ::= word+ followed by ";" or by "{" stmt+ "}", derives it, and builds the only tree that it spells |
| `ConfigGrammar.ConfigsLocally` | src/config_parser.cc:203-272 | the same without a grammar: a token list is accepted if and only if it starts with a word, ends a statement, each token may follow the one before it, no brace closes what is not open, and all blocks are closed |
| `ConfigText.ParseTextExactly` | src/config_parser.cc:198-279 | a text yields a tree exactly when it has no lexical error and its comment-free tokens are the flattening of that nonempty well-formed tree |
| `ConfigText.TokenizePrint` | src/config_parser.cc:22-53 | printed at any depth and put in front of any text, a tree with legal tokens tokenizes to its flattening followed by that text's tokens |
| `ConfigText.PrintThenParse` | src/config_parser.cc:22-53 | printing any tree at any depth and parsing the text gives the same tree if and only if the tree is printable: nonempty top level and blocks, no statement without tokens, only legal tokens |
| `ConfigText.ParsedIsPrintable` | src/config_parser.cc:198-279 | whatever `Parse` yields is printable |
| `ConfigText.ParsingNormalises` | src/config_parser.cc:198-279 | for every accepted text, parsing the printed tree gives the same tree, and a second print is the first one character for character |
| `ConfigText.LostWordExactly` | src/config_parser.cc:189-195 | an accepted text means the same with a newline behind it if and only if it does not stop inside a bare word; one that does is rejected with the newline |
| `ConfigText.AcceptedIffValidExactly` | src/config_parser.cc:189-195 | for every text: `Parse` accepts it if and only if it is a valid file (no lexical error, and all its tokens, a last bare word among them, spell a config), except exactly when it stops inside a bare word behind what is a config already; such a text is accepted and not valid |
| `ConfigText.ValidIffAcceptedWithNewline` | src/config_parser.cc:189-195 | a text without a lexical error is valid if and only if it is accepted with a newline behind it |
| `ConfigText.TrailingWordIsLost` | src/config_parser.cc:189-195 | a bare word right behind any printed config is dropped: the counterexample to "true iff the file is valid", for every config and every word |
| `ConfigLayout.LegalTokensSpelled` | src/config_parser.cc:70-172 | told in literal characters, the words that can be returned are exactly those without space, tab, line feed, semicolon or brace that do not start like another token, and the strings in either quote made of plain characters and of backslashes with any character behind |
| `ConfigLayout.AnyLayoutIsRead` | src/config_parser.cc:96-279 | whatever layout is used (spaces, tabs, line feeds, carriage returns, comments, or nothing in front of a semicolon or brace), a text yields a tree if and only if its tokens spell that tree |
| `ConfigLayout.CompactThenParse` | src/config_parser.cc:71-74 | printed with one space between two words and nothing else between tokens, a tree is read back if and only if it is printable |
| `ConfigLayout.ReturnBelongsToWord` | src/config_parser.cc:76-79 | a carriage return is layout in front of a word and belongs to the word behind it |
| `ConfigLayout.StatementTokens` | src/config_parser.cc:219-255 | the words of a statement are its tokens in order, and its block stands in braces behind them |
| `ConfigLayout.PrintIsOutline` | src/config_parser.cc:22-53 | the text is one line for a statement and two around a block, indented by two spaces a level, with one space between words and a line feed behind each line |
| `ConfigParser.NginxConfig.ToString` | src/config_parser.cc:22-28 | the loop over the statement objects returns the print of the tree that the objects hold |
| `ConfigParser.NginxConfigStatement.ToString` | src/config_parser.cc:30-53 | the same for a statement and, through the recursion, for the block below it |
| `ConfigParser.LastStatementIsOpen` | src/config_parser.cc:224-242 | after a word the block on top of the pointer stack has a last statement, with the words read since, and that statement has no child: `back` is defined and `reset` discards nothing |
| `ConfigParser.TakeFirstWord` | src/config_parser.cc:219-225 | a first word adds one statement object to the innermost block; the pointer stack stays the chain through last statements |
| `ConfigParser.TakeNextWord` | src/config_parser.cc:224-225 | a further word goes to the last statement of the innermost block and to no other object |
| `ConfigParser.TakeOpen` | src/config_parser.cc:235-243 | an opening brace hangs a new block from the last statement and pushes it; the chain grows by one |
| `ConfigParser.TakeSemicolon` | src/config_parser.cc:230-234 | a semicolon finishes the open statement without changing any object |
| `ConfigParser.TakeClose` | src/config_parser.cc:244-255 | popping the stack leaves the finished block where the statement below has it |
| `ConfigParser.ReadToken` | src/config_parser.cc:203-272 | one iteration shortens the input or ends the loop, keeps the chain of pointers, and agrees with the machine on the rest of the text |
| `ConfigParser.Parse` | src/config_parser.cc:198-279 | `Parse` on mutable objects: the verdict is that of the grammar on the text, the statements already in the config stay, and behind them the objects hold exactly the tree; on rejection the objects hold the partial tree |
| `RequestParser.ParseRequestLine` | src/request_parser.cc:66-98 | accepts a line exactly if it has three words that are an allowed method, a URL starting with a slash and the version; on refusal only the validity changes |
| `RequestParser.ParseHeaderLine` | src/request_parser.cc:100-120 | a line with a colon appends one header with its value trimmed, a line without one appends none |
| `RequestParser.ReadHeaderLines` | src/request_parser.cc:39-49 | the getline loop appends the headers of all lines in front of the first empty one |
| `RequestParser.Parse` | src/request_parser.cc:10-59 | the method on the mutable request leaves exactly what the functional parser gives, for every buffer and every request passed in |
| `RequestRoundTrip.PrintThenParse` | src/request_parser.cc:10-59 | a printed request (sections 2.1 and 3 of RFC 9112) is parsed back with the same method, URL, headers and body, for every body, blank lines in it included |
| `RequestRoundTrip.PrintFieldsThenParse` | src/request_parser.cc:10-59 | a request printed from fields (name, value, and any blanks around the value) is parsed back with exactly those names and values, in order, and the same method, URL and body |
| `RequestRoundTrip.HeaderOfFieldLine` | src/request_parser.cc:100-120 | a field value comes back without the optional whitespace around it, as in section 5.1 of RFC 9112 |
| `RequestRoundTrip.FindPrinted` | src/request_parser.cc:12-12 | the first blank line found in printed lines is the one that ends them, so that the rest is the body |
| `RequestRoundTrip.ParsingNormalises` | src/request_parser.cc:10-59 | whatever buffer gave a valid request, printing that request and parsing the text gives the same request again |
| `RequestGrammar.FindTerminatorExactly` | src/request_parser.cc:12-16 | the position found is that of the first blank line, and there is one if and only if a position is found |
| `RequestGrammar.RequestLineExactly` | src/request_parser.cc:66-98 | a request line is accepted if and only if it is GET, POST, PUT or DELETE, a word that starts with a slash and HTTP/1.1, each behind whitespace, with nothing or whitespace and anything behind; the method and URL are those |
| `RequestGrammar.ValidExactly` | src/request_parser.cc:18-49 | a complete buffer is a valid request if and only if its first line is such a line, whichever line end it has; of any other nothing is kept but the raw text |
| `RequestGrammar.FieldOfLine` | src/request_parser.cc:100-120 | every line with a colon is a field and gives its name and value, blanks around the value apart; every other line gives nothing |
| `RequestGrammar.HeadersOfLines` | src/request_parser.cc:39-49 | the headers are those of the lines up to the first empty one, whether lines end with a line feed or with a carriage return and a line feed |
| `RequestStability.FindAppend` | src/request_parser.cc:12-16 | bytes that arrive later do not move the blank line |
| `RequestStability.CompletePrefix` | src/request_parser.cc:12-16 | a prefix of the bytes is complete exactly from the end of the first blank line on |
| `RequestStability.ReadHeadersAppend` | src/request_parser.cc:39-49 | headers up to an empty line do not depend on what follows |
| `RequestStability.ParseStable` | src/request_parser.cc:10-59 | once a buffer is complete so is every extension, with the same validity, method, URL and headers; a valid request's body grows by exactly the added bytes |
| `RequestStability.AnsweredExactly` | src/session.cc:101-134 | for every chunking, the read that is answered first is exactly the one that brings the last byte of the first blank line |
| `RequestStability.AnsweredIffComplete` | src/session.cc:101-134 | some read is answered if and only if the bytes together contain a blank line |
| `RequestStability.ChunkingDoesNotMatter` | src/session.cc:101-134 | the first answered request has the validity, method, URL and headers that the bytes alone determine, and as its body what had come behind the blank line |
| `EntityStoreValidation.ParseId` | src/entity_store_validation.cc:25-38 | accepts exactly the nonempty digit strings and returns their decimal value; with the value in range of `int` no intermediate result leaves that range |
| `EntityStoreValidation.ParseSpelled` | src/entity_store_validation.cc:25-38 | parsing the spelling of n gives n, for every n in 0..INT_MAX |
| `EntityStoreValidation.ParsedIdExactly` | src/entity_store_validation.cc:25-38 | a segment is the id n if and only if it is the decimal notation of n behind any number of zeros |
| `EntityStoreValidation.DecimalNotation` | src/entity_store_persistent.cc:156-160 | ids are spelled with the ten digits, the most significant first |
| `EntityStoreValidation.ValidNamesAre` | src/entity_store_validation.cc:12-23 | told in character codes, a name is valid if and only if it is nonempty and has letters, digits, underscores and hyphens only; so it has no dot and no slash |
| `EntityStoreValidation.DecimalInjective` | src/entity_store_persistent.cc:156-160 | distinct ids have distinct spellings |
| `EntityStoreValidation.StripZerosIsCanonical` | src/entity_store_validation.cc:29-37 | a digit string without its leading zeros is the spelling of its value |
| `EntityStoreValidation.SameIdExactly` | src/entity_store_validation.cc:25-38 | two accepted spellings are the same id if and only if they differ in leading zeros only |
| `EntityStore.NextUnused` | src/entity_store_in_memory.cc:13-15 | the skip loop stops at the first free id from the counter on, having stepped over ids in use only, at most as many as there are from there on |
| `EntityStoreInMemory.Store.constructor` | src/entity_store_in_memory.cc:4-4 | a new store holds nothing and counts from 0 |
| `EntityStoreInMemory.Store.Create` | src/entity_store_in_memory.cc:6-20 | returns the first id from the counter on that the entity does not use, stores under it and counts on |
| `EntityStoreInMemory.Store.Read` | src/entity_store_in_memory.cc:22-33 | finds what is stored, if anything; inserts an empty inner map at most |
| `EntityStoreInMemory.Store.Update` | src/entity_store_in_memory.cc:35-40 | overwrites or creates exactly one object |
| `EntityStoreInMemory.Store.Delete` | src/entity_store_in_memory.cc:42-46 | removes exactly one object, and says whether there was one |
| `EntityStoreInMemory.Store.List` | src/entity_store_in_memory.cc:48-57 | returns each id of the entity once, in whatever order the hash map has |
| `EntityStoreInMemory.FlattenedAfter` | src/entity_store_in_memory.cc:6-57 | with missing and empty inner maps identified, every operation changes the one finite map as the interface says; touching an inner map changes nothing |
| `EntityStoreInMemory.KeepsPromise` | include/entity_store.h:10-26 | each operation refines the shared contract: a created id is not negative and not in use, whatever ids `Update` has planted, and no other object changes |
| `EntityStoreInMemory.CreatedIdsIncrease` | src/entity_store_in_memory.cc:13-19 | over every sequential run the ids returned by `Create` strictly increase, over all entities together and after deletes |
| `EntityStoreInMemory.CreatedIdIsBounded` | src/entity_store_in_memory.cc:13-19 | no id is greater than the number of operations before it, whatever ids `Update` has planted: every id that the counter skips costs an operation |
| `EntityStoreInMemory.RunsKeepPromises` | include/entity_store.h:7-27 | every run of the nested maps is a run of the finite map |
| `EntityStoreConcurrency.InsideProgresses` | src/entity_store_in_memory.cc:6-57 | each read, write and loop step of the thread inside the lock keeps the state that its operation has reached |
| `EntityStoreConcurrency.LeaveKeepsInv` | src/entity_store_in_memory.cc:8-19 | when the lock is given back the operation has done what the contract says, once, since it took it |
| `EntityStoreConcurrency.EveryRunIsLinearizable` | src/entity_store_in_memory.cc:6-57 | with every operation split into taking the lock, single reads, writes and loop tests, and giving it back, every interleaving of any number of threads is linearizable to the finite map, which is what the store holds whenever the lock is free |
| `EntityStoreConcurrency.MutexExcludes` | src/entity_store_in_memory.cc:8-8 | no two threads are ever inside |
| `EntityStoreConcurrency.TookEffectInTime` | src/entity_store_in_memory.cc:6-57 | an operation that has returned took effect once, between its call and its return and with the result returned, so that the order of effects respects real time |
| `EntityStoreConcurrency.CreatedIdsIncrease` | src/entity_store_in_memory.cc:13-19 | in every interleaving of any number of threads the ids given strictly increase in the order in which the creations take effect |
| `EntityStorePersistent.PathsDiffer` | src/entity_store_persistent.cc:150-160 | two objects have the same file path if and only if they are the same object |
| `EntityStorePersistent.FilePaths` | src/entity_store_persistent.cc:150-160 | the file of an object is two components below the root: the entity, and the id in decimal |
| `EntityStorePersistent.StandsForOne` | src/entity_store_persistent.cc:9-160 | a directory tree stands for one finite map at most |
| `EntityStorePersistent.EntriesAreIds` | src/entity_store_persistent.cc:23-36 | the names in an entity's directory are exactly the canonical spellings of its live ids, and `ParseId` takes all of them |
| `EntityStorePersistent.GatherIds` | src/entity_store_persistent.cc:23-36 | going through the directory in any order gathers exactly the live ids |
| `EntityStorePersistent.ListIds` | src/entity_store_persistent.cc:127-137 | the same into a list without duplicates |
| `EntityStorePersistent.LeastUnused` | src/entity_store_persistent.cc:41-45 | the search loop finds the least id not in use, within the range of `int` |
| `EntityStorePersistent.Store.constructor` | src/entity_store_persistent.cc:9-14 | a store on an empty root, or on what an earlier store left, has exactly the objects that the files stand for |
| `EntityStorePersistent.Store.WriteFile` | src/entity_store_persistent.cc:46-61 | writing one file changes one object; all files keep canonical names |
| `EntityStorePersistent.Store.RemoveFile` | src/entity_store_persistent.cc:110-113 | removing one file removes one object, and says whether there was one |
| `EntityStorePersistent.Store.Create` | src/entity_store_persistent.cc:16-64 | an invalid name gives -1 and changes nothing; otherwise the least unused id is returned and only its object changes |
| `EntityStorePersistent.Store.Read` | src/entity_store_persistent.cc:66-80 | finds the object if and only if it is live; negative ids and invalid names find none |
| `EntityStorePersistent.Store.Update` | src/entity_store_persistent.cc:82-104 | creates or overwrites one object, or refuses a negative id or invalid name and changes nothing |
| `EntityStorePersistent.Store.Delete` | src/entity_store_persistent.cc:106-114 | removes one object, and says whether it was there |
| `EntityStorePersistent.Store.List` | src/entity_store_persistent.cc:117-140 | returns exactly the live ids, strictly ascending |
| `EntityStorePersistent.KeepsPromise` | include/entity_store.h:10-26 | every operation refines the shared contract or is turned down and changes nothing; a new id has every smaller id in use and is at most the number of live objects of the entity |
| `EntityStorePersistent.CreatesCountUp` | src/entity_store_persistent.cc:38-63 | on a fresh entity without updates and deletes of it, whatever happens to other entities, the n-th object created has id n |
| `Sorting.SortAscends` | src/entity_store_persistent.cc:138-138 | sorting a list without duplicates puts it in strictly ascending order |
| `Sorting.AscendingUnique` | src/entity_store_persistent.cc:138-139 | a strictly ascending list is determined by its elements, so that the listing is |
| `EntityStores.Create` | src/request_handler_api.cc:81-84 | through either store, `Create` keeps the contract |
| `EntityStores.List` | src/request_handler_api.cc:96-96 | through either store, `List` keeps the contract |
| `EntityStores.RoomWhileUnused` | src/request_handler_api.cc:81-81 | over either store there is an `int` for a new id as long as fewer than INT_MAX ids are used up |
| `RequestHandlerApi.ApiRequestHandler.HandleRequest` | src/request_handler_api.cc:24-74 | every request is refused with its message and changes nothing, or is answered as the contract of the store says and changes the objects accordingly; over either store |
| `RequestHandlerApi.ApiRequestHandler.PutBranch` | src/request_handler_api.cc:51-60 | two segments and a digit string name an object; anything else is refused, in this order |
| `RequestHandlerApi.ApiRequestHandler.DeleteBranch` | src/request_handler_api.cc:62-71 | the same for DELETE |
| `RequestHandlerApi.ApiRequestHandler.HandlePost` | src/request_handler_api.cc:76-88 | a body that is not JSON is refused, any other is stored under a new id that the answer names |
| `RequestHandlerApi.ApiRequestHandler.HandleGet` | src/request_handler_api.cc:90-121 | one segment lists the entity, two or more read the object that the second names |
| `RequestHandlerApi.ApiRequestHandler.HandlePut` | src/request_handler_api.cc:123-134 | a JSON body is stored under the id |
| `RequestHandlerApi.ApiRequestHandler.HandleDelete` | src/request_handler_api.cc:136-141 | the object is removed, or 404 when there is none |
| `RequestHandlerApi.ApiRequestHandler.TrimSlashes` | src/request_handler_api.cc:157-162 | the two trimming loops leave no slash at either end and do not change the segments |
| `RequestHandlerApi.ApiRequestHandler.SplitAtSlashes` | src/request_handler_api.cc:167-173 | the getline loop returns the maximal runs without a slash |
| `RequestHandlerApi.ApiRequestHandler.ExtractSegments` | src/request_handler_api.cc:143-175 | the method returns the segments of the path behind the prefix |
| `UrlSegments.SegmentsOfBuilt` | src/request_handler_api.cc:143-175 | extraction inverts building: for any prefix without '?', any segments that are nonempty and free of '/' and '?', any repetition of slashes and any query, exactly those segments come back |
| `UrlSegments.PrefixInsideSegment` | src/request_handler_api.cc:149-156 | a URL that goes on inside the last segment of the prefix keeps the prefix, and that segment whole |
| `UrlSegments.BuiltFromPieces` | src/request_handler_api.cc:163-173 | every path that is empty or starts with a slash is built from its pieces: no segment is lost or made up |
| `UrlSegments.TrimEnd` | src/request_handler_api.cc:160-162 | a slash at the end does not change the pieces |
| `ApiJson.DecodeListing` | src/request_handler_api.cc:98-107 | a client that splits the listing at its commas reads back the ids that were written, for every list |
| `ApiJson.IdJsonInjective` | src/request_handler_api.cc:85-87 | the answer to a POST names one id |
| `ApiHistory.StepShows` | src/request_handler_api.cc:24-141 | what a client sees of a request says exactly how it changes each object |
| `ApiHistory.EverythingChecked` | src/request_handler_api.cc:76-80 | in every run no id is negative, and every body stored since the start has passed the JSON check |
| `ApiHistory.LookupIsLatest` | src/request_handler_api.cc:24-141 | in every run an object is the body of the latest successful POST or PUT to its id that no successful DELETE has followed, or what the store started with |
| `ApiHistory.GetAnswersLatest` | src/request_handler_api.cc:110-120 | in every run a GET of an id is answered 200 if and only if there is such an object, with its body, which is valid JSON if all that the store started with was |
| `ApiHistory.GetAnswer` | src/request_handler_api.cc:110-120 | in every run a GET of an id changes nothing and is answered with exactly the object, 404 if there is none, 400 if the id is not one |
| `ApiHistory.PostAnswer` | src/request_handler_api.cc:40-45 | in every run a POST to an entity is answered 200 if and only if there is one segment and the body is JSON; the answer names an id under which there was no object; otherwise it is refused and changes nothing |
| `ApiHistory.PutAnswer` | src/request_handler_api.cc:51-60 | in every run a PUT to an entity is answered 200, with the id, if and only if there are two segments, an id and a JSON body; otherwise it is refused, the reasons in this order, and changes nothing |
| `ApiHistory.DeleteAnswer` | src/request_handler_api.cc:136-141 | in every run a DELETE of an id is answered 200 if and only if a GET would have found the object, and 404 and nothing changes if not |
| `ApiHistory.NoEntityAnswer` | src/request_handler_api.cc:30-38 | in every run a request without a segment, or whose first one is no name, is refused with 400 and changes nothing |
| `ApiHistory.OtherAnswer` | src/request_handler_api.cc:73-73 | in every run any other method is answered 405 and changes nothing |
| `ApiHistory.ListAnswersLatest` | src/request_handler_api.cc:94-108 | in every run the listing of an entity decodes to exactly the ids that a GET would find, strictly ascending |
| `ApiHistory.HandleAll` | src/request_handler_api.cc:24-74 | calls of the handler, one after the other over a store of either class, new or opened on existing files, make such a run; nothing leaves the range of `int` within INT_MAX requests |
| `Session.SerializeResponse` | src/session.cc:76-89 | the appending loop writes the status line, the headers, a blank line and the body; a missing response is written as a 500 |
| `Session.ResponseReadBack` | src/response_builder.cc:4-19 | a client that looks for the blank line reads every built response back: the status line, the headers as they were built (for a content type without blanks at its ends), and a body of exactly the length that Content-Length tells |
| `Session.Connection.HandleRead` | src/session.cc:101-145 | the callback appends the bytes and parses the whole buffer with a new request; an incomplete one is read on, a valid one written the bytes of what the handler answers it, an invalid one those of a 400; on an error the session is deleted |
| `Session.Connection.HandleWrite` | src/session.cc:147-158 | a finished write is followed by a read, a failed one by deletion |
| `SessionProtocol.CallbackAlone` | src/session.cc:101-134 | run without interruption, the small steps of a callback do what the callback does as a whole and leave the operation outstanding that it names |
| `SessionProtocol.WriteCallbackAlone` | src/session.cc:147-158 | the same for the end of a write: a read is issued, or the session is deleted |
| `SessionProtocol.ReadCallbackAlone` | src/session.cc:101-144 | the end of a read: on an error the session is deleted, otherwise its array holds the bytes |
| `SessionProtocol.AcceptCallbackAlone` | src/server.cc:27-41 | the end of an accept: a read is issued on the session, or it is deleted, and in both cases a new session is made and accepted into |
| `SessionProtocol.CompletionKeeps` | src/server_main.cc:58-72 | any outstanding operation may complete on any idle thread, with any bytes or an error, and every session keeps one owner |
| `SessionProtocol.IssueKeeps` | src/session.cc:27-37 | issuing an operation passes the session from the thread to the operation: the thread uses it no more, and every session keeps one owner |
| `SessionProtocol.DeleteKeeps` | src/session.cc:40-43 | deleting a session ends its one use, and every other session keeps its owner |
| `SessionProtocol.RearmKeeps` | src/server.cc:19-25 | start_accept makes a session that has not been used before and that the new accept owns; the accept chain has one link again |
| `SessionProtocol.ApplyKeepsInv` | src/session.cc:91-158 | every step of every thread keeps the invariant |
| `SessionProtocol.NothingUsedAfterDeletion` | src/session.cc:40-43 | in every run of any number of threads no step uses a session after its deletion or deletes it twice |
| `SessionProtocol.OneUserAtATime` | src/session.cc:27-158 | in every run a session has at most one user: one outstanding operation, or one thread in a callback, never both |
| `SessionProtocol.NoSessionLeaks` | src/session.cc:91-158 | in every run each live session has an outstanding operation or a thread that will go on with it or delete it |
| `SessionProtocol.ExactlyOneAccept` | src/server.cc:11-41 | in every run exactly one accept is outstanding or being handled |
| `SessionProtocol.ResponseStaysWhileWritten` | src/session.cc:68-74 | no step of any thread changes a response while its write is outstanding |
| `SessionProtocol.WaitingSessions` | src/session.cc:101-134 | in every run a session that waits has all the bytes that came, once and in order, has answered exactly the reads that found a complete request, each once and in order, and writes exactly the bytes of its last answer |
| `SessionProtocol.CompleteReadsAre` | src/session.cc:105-134 | those reads are the ones behind which the bytes hold a complete request, in ascending order |
| `SessionProtocol.AnswersOneRequest` | src/session.cc:101-157 | in every run all answers on a connection are to the one request that its bytes determine (the buffer is never cleared), with the body that had come by the read that was answered; an invalid one is answered 400 |
| `SessionProtocol.AnswersAreTheHandlers` | src/session.cc:111-132 | in every run of any number of threads, each answer to a valid request is what the handler answered in the step in which a thread handled that request of that session, and each other answer is a 400 |
| `Routing.RegisterHandlerForLocation` | src/server_main_utils.cc:35-67 | a known handler name registers its factory under the path, replacing what was there; an unknown or empty one registers nothing |
| `Routing.ReadLocation` | src/server_main_utils.cc:93-118 | the directive loop yields the last handler named and the last value of every other directive |
| `Routing.KeepLocation` | src/server_main_utils.cc:119-128 | a location without a handler name, or with an unknown one, is neither kept nor registered; any other is both |
| `Routing.ReadServer` | src/server_main_utils.cc:80-130 | the loop over the server block keeps exactly the locations with a known handler, in order, converts the last listen directive to the port, and registers the kept locations one after the other |
| `Routing.ExtractServerConfig` | src/server_main_utils.cc:70-136 | only the first server block counts; its kept locations are the config's, all of them are registered, and the port is that of its last listen directive or the default |
| `Routing.SpelledPort` | src/server_main_utils.cc:85-85 | a port spelled in decimal is kept modulo 2^16; it becomes 0, on which the server does not start, exactly for the multiples of 2^16 |
| `Routing.QuotedPortIsZero` | src/server_main_utils.cc:85-85 | a quoted port keeps its quotes and becomes 0 |
| `Routing.RequestDispatcher.FindBestMatch` | src/request_dispatcher.cc:29-42 | the loop finds the first location with the longest nonempty path that is a prefix of the URL, or none if no path is |
| `Routing.RequestDispatcher.CreateHandler` | src/request_dispatcher.cc:44-71 | the handler comes from the factory registered under the chosen path, or is the not-found handler |
| `Routing.RegisteredIsLast` | src/handler_registry.cc:8-20 | the factory found under a path is that of the last kept location with it |
| `Routing.DispatchAfterExtraction` | src/request_dispatcher.cc:56-70 | behind extraction every chosen path has a factory, so that the fallback is not reached, and the handler is that of the last kept location with the path, whatever was registered before |
| `Routing.ChosenPathIgnoresOrder` | src/request_dispatcher.cc:29-42 | reordering or repeating locations does not change the path chosen for any URL |
| `Routing.OrderDoesNotMatter` | src/request_dispatcher.cc:29-71 | reordering locations with distinct paths changes the handler of no URL |
| `Routing.InitializeFromText` | src/server_main_utils.cc:150-173 | a dispatcher is made if and only if the text is accepted and a location is kept; the port is then that of the config |
| `Routing.InitializeFromConfig` | src/server_main_utils.cc:158-186 | the part behind the parser |
| `RoutingMeaning.Serve` | src/request_dispatcher.cc:44-71 | from the text of a config and a URL to the handler: the server starts if and only if the text is accepted, its first server block has a route and the port is not 0; then every URL gets the handler that the tokens of that block ask for |
| `RoutingMeaning.DispatchMeans` | src/server_main_utils.cc:35-130 | told in statements and tokens: of the location blocks whose last handler directive names one of the five handlers, a URL takes the one with the longest nonempty path that is a prefix of it, the last one with that path, and gets a handler of the class that the name stands for, with its path and the last value of every other directive; without one it gets the not-found handler |
| `RoutingMeaning.MadeForRoute` | src/server_main_utils.cc:40-62 | each of the five names makes its own class; the REST handler gets the last data_path, or the current directory |
| `RoutingMeaning.KeptIsRoute` | src/server_main_utils.cc:89-128 | a location block is kept if and only if its last handler directive names one of the five handlers |
| `RoutingMeaning.ServerBlockIs` | src/server_main_utils.cc:75-79 | the first statement that starts with the word server and has a block is the one that counts |
| `RoutingMeaning.PortMeans` | src/server_main_utils.cc:83-87 | a last listen directive that spells n gives the port n below 2^15, and n modulo 2^16 for the socket |
| `RoutingMeaning.AtoiReads` | src/server_main_utils.cc:85-85 | behind whitespace and a sign the leading digits are the number, whatever follows them |

## Left out

- Boost.Asio, sockets, signals, logging and the command line: completions are steps that carry bytes or an error, and the handler's response in a step of the protocol is arbitrary.
- The byte that `get` yields at the end of input: one fixed character that is not a delimiter stands for it.
- `TokenTypeAsString` and the message printed on a bad transition.
- File-system failures and files that others put below the data root: the store's directory is a map from paths to bytes, and every open, write, removal and directory creation succeeds; partial writes, links and case-insensitive file names are not modelled.
- EntityStorePersistent.Store.Create: the branches for failed directory creation, iteration, open and write are left out with the failures themselves; the same holds for Update, Read and List.
- Concurrent use of the persistent store: it has no lock, so that only its sequential refinement is proved.
- EntityStoreInMemory.Store.Create: requires that the counter, the first free id and the one after it fit in an `int`, since the source's overflow is undefined.
- EntityStoreValidation.ParseId: requires that the leading digits spell at most INT_MAX, for the same reason.
- Session.ResponseReadBack: asks for a status and content type without a line feed, which is what all handlers pass.
- `IsValidJson` is an arbitrary predicate on bodies; the Boost.JSON parser is not part of this model.
- ApiRequestHandler.HandleRequest: the check for a null store is left out, since the constructor throws on one.
- `GET` with segments behind the id is answered as without them, as in the code; no 400 is claimed.
- Dynamic dispatch between the stores: a datatype of the two classes stands for the pointer to the interface.
- EntityStoreConcurrency: ids are unbounded there; the bound is a precondition of the methods of the store.
- Exceptions that leave a callback: `remote_endpoint` throws when the peer is gone before `handle_accept` or `start` asks for it, and an exception that leaves a thread of the pool ends the program; in SessionProtocol these two steps succeed.
- SessionProtocol: memory addresses are not reused (each session has a new number), and the fields `ip` and `port` are left out of a session's state, their accesses being steps.
- Routing.ExtractServerConfig: requires that the text of each listen directive is, as `atoi` reads it, within the range of `int`, since the language leaves other results open; ReadServer, InitializeFromConfig, InitializeFromText and RoutingMeaning.Serve require the same.
- Routing.InitializeFromText: the check of the arguments and opening the config file are left out; the registry starts empty.
- The registry is a static map in the source and an object here; factories are values that name their class and location, and the handlers they make, other than the REST handler, are not modelled: echo, static files, health, sleep and not-found have no property across calls.
- The single functions of `ResponseBuilder` have no contracts of their own; what a built response means is `Session.ResponseReadBack`.
- The web page under `assets`, the Docker files and the build are left out.
