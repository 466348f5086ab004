# Verified model of the SQL compiler process (arkcmp)

The compiler process answers messages of an executor. This project models the parts of it that keep state
over many steps, and proves what they guarantee over every input and every run. All of it is in Dafny; there
is one module per file.

**Paged replies.** A request runs an internal stored procedure: for every input row the procedure is called
with OPEN, with FETCH as long as it says there is more, and with CLOSE. Rows, diagnostics and end marks go
into a reply buffer of limited size. When the buffer is full the statement stops wherever it is, and goes on
with the next GetNext message. `StoredProcedure` says what a procedure is: an arbitrary function from an action,
an input and its environment to a reply, which may be an exception. `UnbufferedRun` is the reference: a machine that
makes one call per step and has no buffer, and a closed form of its whole output. `PagedReply` and
`PagedStatement` are the classes of the source with their pending flags; a buffer is any number of slots and any
further condition on what fits. `CallShape` says which call sequences keep the protocol. `Paging` proves that paging is invisible: whatever the buffers are, what was sent is
always a prefix of what the run has emitted, and all of it once the statement says so. The procedure need not ever
stop for that, and exceptions may strike at any call.

**Statements in progress.** The compiler context keeps a list of statements with predecessor links, a current
position and a cached pointer, and one diagnostics area that all statements share. Statements of requests outlive
the message that created them, so they do not end in the opposite order in which they began. `StatementLedger` is the
bookkeeping as a value with its laws, `CompilerContext` the classes that update it in place, `Connection` the dispatch
of messages on top: requests, GetNext messages and ordinary messages in any order, each with what it finds and leaves
in the diagnostics area. A request whose first message finds the area empty, and whose further messages find it empty as
it left it, is sent what it would be sent if it were alone, whatever others do (`EachRequestRunsAlone`); that is so for all
requests as long as every message leaves the area empty (`TidyLeavesAllAlone`). `Conversation` shows what happens otherwise: an
interleaving in which one request is sent the code of another and an ordinary message ends a request in progress
(`LeakingInterleaving`), that a request starts as if alone exactly when it finds the area empty (`AloneIffAreaEmpty`), and that a
procedure is never given up in a conversation exactly when it leaves nothing in the area after an input (`Converse`,
`GivenUpSomewhere`).

**Environment.** With every request the executor sends its environment variables; the compiler writes only the
differences. `SparseArray` is the collection with holes that remembers what was received last, `EnvEntries` are the
entries and what a list of them means, `EnvSync` is the effect of a synchronisation with its laws, `ProcessEnv` are the
loops. The reference is deleting all and adding all.

**Module names.** The module compiler takes a list of externally qualified module names from its command line.
`ModuleTokens` is the scanner as a function, `ModuleScanning` what it does with each kind of character, `ModuleGrammar` the grammar and a parser over tokens, `ModuleNames` what
items denote, `ModuleRecovery` what the parser does after errors, `ExtQualModuleNames` the scanner and parser that work
through the buffer, `ReturnCodes` where they report to, `ModulePrinting` the way back from names to text.

**Two loops around stored procedures.** `VarcharTrim` strips blanks in place in a length-prefixed field.
`CacheEntries` is the cursor over the two lists of the query cache, plugged into the unbuffered run as a procedure,
and `CacheConversation` lists the cache over a whole conversation.

Some properties one might expect do not hold in general; each has an input that shows it and an exact condition.

- Requests are not independent of each other: they share the diagnostics area (`Conversation.LeakingInterleaving`). A
  request is sent what it would be sent alone if its messages find the area empty, as it left it
  (`Connection.EachRequestRunsAlone`). Finding something shows in the output of a first message
  (`Conversation.AloneIffAreaEmpty`) and gives the request up at any later one (`Connection.ExCmpMessage.OnGetNext`).
- A conversation may be cut short (`Conversation.RefusedRequestIsGivenUp`). For a procedure that never happens, whatever the
  buffers are, exactly when its run leaves nothing in the diagnostics area after an input (`Conversation.Converse`,
  `Conversation.GivenUpSomewhere`).
- A synchronisation does not delete dropped variables but sets them to nothing, since `putenv` of a name with an
  equal sign and no value does that (`EnvSync.DroppedVariableStays`). It deletes exactly when nothing is dropped
  (`EnvSync.DeletesIffNothingDropped`), and always when an empty variable counts as cleared (`EnvSync.DeletesUpToEmpty`).
- A request repeated at once may write again (`EnvSync.ContradictionIsWrittenAgain`). It is quiet exactly when it does
  not give one name two values (`EnvSync.RepeatedRequestIsQuiet`).
- The cursor over the cache may take the anchor of the second list for an entry (`CacheEntries.AnchorIsListed`). A
  request is sent the entries and nothing else exactly when the second list is not empty or both are
  (`CacheEntries.ListsEntriesOnly`).
- Stripping a field may run beyond its text (`VarcharTrim.EmptyBeforeBlank`). It does not, exactly when the text is not
  empty or is not followed by a blank (`VarcharTrim.Strip`).
- A quoted identifier may not be read as one (`ModulePrinting.DoubledQuoteIsNotReadAsOne`): it ends with the first run of quotes, all but the last of which are taken
  twice (`ModulePrinting.FirstRunEnds`). It is read as one exactly when there is no quote inside it
  (`ModulePrinting.ReadAsOneIffNoQuoteInside`).

The code comment on environments says that an entry not received again is removed; the code empties it, and the model
follows the code. The grammar comment on module name lists shows parentheses; the code expects braces, and so does the
model.

## Model

| member | source | states |
|---|---|---|
| StoredProcedure.ErrorDiags | sql/arkcmp/CmpStoredProc.cpp:85-166 | a failed call always leaves at least one diagnostic: the codes of its slots in order up to the first unused one, -19003 if there are none, or -4222 if the first asks for another area |
| StoredProcedure.UsedSlots | sql/arkcmp/CmpStoredProc.cpp:101-165 | the codes are those of the slots in order, up to the first unused slot or the last one |
| StoredProcedure.AppendErrors | sql/arkcmp/CmpStoredProc.cpp:85-166 | the loop over the slots appends exactly these diagnostics and keeps the earlier ones |
| StoredProcedure.EndItems | sql/cli/StoredProcInterface.cpp:163-218 | an input ends with one end mark that carries no error; errors travel in one item before it, all with the control of the input, and the first item has all diagnostics |
| StoredProcedure.EndItemsAre | sql/cli/StoredProcInterface.cpp:183-195 | with any negative code among the diagnostics they go into an item of their own before a bare end mark, and otherwise onto the end mark |
| UnbufferedRun.RunGrows | sql/arkcmp/CmpStatement.cpp:1442-1539 | a longer unbuffered run extends the output and the calls of a shorter one |
| UnbufferedRun.FinalRunIsLongest | sql/arkcmp/CmpStatement.cpp:1481-1539 | no run goes beyond one that cannot step |
| UnbufferedRun.RunsCompose | sql/arkcmp/CmpStatement.cpp:1481-1539 | stopping after any call and going on from there gives the same output, calls and configuration as not stopping |
| UnbufferedRun.ClosesMatchOpens | sql/arkcmp/CmpStoredProc.cpp:1058-1192 | in every call sequence that keeps the protocol, successful OPENs and CLOSEs match, except for the one in progress |
| UnbufferedRun.RunIsOrderly | sql/arkcmp/CmpStatement.cpp:1481-1539 | every run opens the inputs once each, in order, keeps OPEN FETCH* CLOSE, and carries no diagnostics from one input to the next |
| UnbufferedRun.FetchPhaseRuns | sql/arkcmp/CmpStatement.cpp:1442-1466 | the fetch phase emits one row per FETCH that says there is more, and collects the context diagnostics in order |
| UnbufferedRun.CloseRuns | sql/arkcmp/CmpStatement.cpp:1457-1464 | the last FETCH and the CLOSE emit the diagnostics they leave and one end mark, and a failed CLOSE replaces all earlier diagnostics |
| UnbufferedRun.InputRuns | sql/arkcmp/CmpStatement.cpp:1519-1533 | for every input that is answered, the machine emits exactly its closed-form answer and is ready for the next input |
| UnbufferedRun.FinalDiagsStepwise | sql/arkcmp/CmpStoredProc.cpp:588-608 | the diagnostics of an input in closed form are those that replacing and appending leave step by step |
| UnbufferedRun.WholeOutputRuns | sql/arkcmp/CmpStatement.cpp:1481-1539 | for every list of inputs, the machine emits the answers one after the other and is then finished |
| PagedReply.InputData.constructor | sql/arkcmp/CmpStoredProc.cpp:539-545 | the input list starts before its first row |
| PagedReply.InputData.Next | sql/arkcmp/CmpStoredProc.cpp:539-545 | the next row becomes the current one, if there is one; no row is skipped or repeated |
| PagedReply.ReplyData.constructor | sql/arkcmp/CmpStoredProc.cpp:551-574 | a reply starts empty, with a cleared row and nothing pending |
| PagedReply.ReplyData.AllocateData | sql/arkcmp/CmpStoredProc.cpp:657-662 | a new buffer is empty, and what was pending stays pending |
| PagedReply.ReplyData.Put | sql/cli/StoredProcInterface.cpp:163-238 | an item is stored exactly if a slot is free and there is room for it behind those before it, and otherwise the buffer is unchanged |
| PagedReply.ReplyData.PutEnd | sql/cli/StoredProcInterface.cpp:183-216 | without a negative code the end mark with its warnings is put, with one an item with all diagnostics and no end mark, as the result code says |
| PagedReply.ReplyData.MoveDiags | sql/arkcmp/CmpStoredProc.cpp:588-596 | the errors of a call replace the diagnostics collected so far |
| PagedReply.ReplyData.MergeDiags | sql/arkcmp/CmpStoredProc.cpp:598-608 | context diagnostics are appended to them |
| PagedReply.ReplyData.AddARow | sql/arkcmp/CmpStoredProc.cpp:610-630 | stored and pending items together grow by exactly the row; the row stays pending exactly when it did not fit |
| PagedReply.ReplyData.AddEOR | sql/arkcmp/CmpStoredProc.cpp:633-655 | stored and pending items together grow by exactly the end items of the input, an item with the diagnostics and a bare end mark if any code is negative and one end mark otherwise, also when the buffer fills between the two |
| PagedReply.PackedIsBounded | sql/cli/StoredProcInterface.cpp:163-238 | a reply put together that way never has more items than its buffer has slots, and there was room for each item behind those before it |
| PagedStatement.InternalSP.Open | sql/arkcmp/CmpStoredProc.cpp:1058-1091 | an OPEN keeps the protocol; the interface is in process exactly when it succeeded |
| PagedStatement.InternalSP.Fetch | sql/arkcmp/CmpStoredProc.cpp:1093-1167 | a FETCH keeps the protocol; its errors replace, and what is in the shared diagnostics area is appended and taken out of it |
| PagedStatement.InternalSP.Close | sql/arkcmp/CmpStoredProc.cpp:1169-1192 | a CLOSE ends the input also when it fails or raises an exception |
| PagedStatement.InternalSP.Delete | sql/arkcmp/CmpStoredProc.cpp:805-834 | deletion closes an open input, once, so that all successful OPENs are closed; the diagnostics area then holds what the CLOSE left in it, followed by its errors if it failed and by the diagnostics of the input if it succeeded or raised an exception; without an open input it stays as it is |
| PagedStatement.InternalSP.ClosedIs | sql/arkcmp/CmpStoredProc.cpp:816-825 | the same as a function of what the area held before |
| PagedStatement.Caught | sql/arkcmp/CmpStatement.cpp:117-126 | after an exception the diagnostics area keeps what was in it, or holds -2006 if it was empty |
| PagedStatement.StatementISP.constructor | sql/arkcmp/CmpStatement.cpp:1492-1517 | a new statement is rooted at the start of the unbuffered run of its request, with what it finds in the diagnostics area and nothing sent |
| PagedStatement.StatementISP.FetchPut | sql/arkcmp/CmpStatement.cpp:1442-1466 | rows are put until the reply is full or the input is closed; sent, stored and pending items together are what the unbuffered run has emitted |
| PagedStatement.StatementISP.OpenInputs | sql/arkcmp/CmpStatement.cpp:1519-1533 | inputs are run until the reply is full or all are done, in step with the unbuffered run |
| PagedStatement.StatementISP.PrepareReply | sql/arkcmp/CmpStatement.cpp:1469-1479 | the reply is what was stored, or nothing after an exception; sent items grow by exactly the reply |
| PagedStatement.StatementISP.ExceptionRaised | sql/arkcmp/CmpStatement.cpp:1406-1413 | after an exception at any point the procedure is closed and all successful OPENs are matched by a CLOSE; what the area holds is stated by the CLOSE reply to what was caught, its errors and the diagnostics of the input |
| PagedStatement.StatementISP.Abort | sql/arkcmp/CmpStatement.cpp:1406-1413 | a statement given up between two messages has made the calls of its run and closed its procedure; what it leaves in the diagnostics area is stated the same way |
| PagedStatement.StatementISP.ProcessRequest | sql/arkcmp/CmpStatement.cpp:1481-1539 | the first message keeps the invariant that sent and pending items are the output of the run so far; the reply is within its buffer, and "more" is said exactly when something is pending, and only when that does not fit |
| PagedStatement.StatementISP.ProcessGetNext | sql/arkcmp/CmpStatement.cpp:1542-1591 | so does every further message, which goes on exactly where the last one stopped, is never empty when the next pending item fits an empty buffer or when it is the last; its history stays that of the unbuffered run exactly if it finds the diagnostics area as it left it |
| PagedStatement.StatementISP.Resume | sql/arkcmp/CmpStatement.cpp:1556-1572 | a pending row or end mark is put first, and then the input in progress goes on |
| Paging.SentIsPrefix | sql/arkcmp/CmpStatement.cpp:1430-1599 | after every message, also after an exception: sent is a prefix of what the run has emitted; without an exception it is a proper one exactly when more data is reported, exactly when the statement is not ready to die, and otherwise the run is finished; an exception is one the run raises; no longer run emits anything else |
| Paging.RepliesAreWholeOutput | sql/arkcmp/CmpStatement.cpp:1442-1591 | for procedures that stop and statements nobody disturbed: no exception is seen, and the replies add up to the answers of the inputs exactly when there is no more |
| Paging.CallsAreOrderly | sql/arkcmp/CmpStoredProc.cpp:805-834 | in every run, with exceptions at any point, the calls keep OPEN FETCH* CLOSE, inputs are opened once each in order, and every successful OPEN is closed exactly once, except for the input of a pending row |
| CallShape.KeptIffShape | sql/arkcmp/CmpStoredProc.cpp:1058-1192 | a call sequence keeps the protocol exactly when it is made of blocks OPEN FETCH* CLOSE and failed OPENs, with at most one block in progress at its end, and that decides the state it is in |
| Paging.AnswerShape | sql/arkcmp/CmpStoredProc.cpp:588-655 | the answer of an input is its rows, at most one item with errors and one end mark, all with its control; diagnostics with a negative code never travel on the end mark, all others do |
| Paging.RowsShape | sql/arkcmp/CmpStatement.cpp:1442-1466 | row number i is the row the procedure formatted in its FETCH number i |
| StatementLedger.SetKeepsInv | sql/arkcmp/CmpContext.cpp:423-434 | appending keeps entries distinct, every predecessor before its statement and the sentinel first; the new statement is current |
| StatementLedger.UnsetKeepsInv | sql/arkcmp/CmpContext.cpp:436-451 | so does removing any statement, in or out of order; the sentinel stays and the predecessor becomes current |
| StatementLedger.SetCurrentKeepsInv | sql/arkcmp/CmpContext.cpp:453-462 | so does switching; a listed statement becomes current, and an unlisted one selects the sentinel |
| StatementLedger.Chain | sql/arkcmp/CmpContext.cpp:423-451 | the predecessor chain of every statement ends, at the sentinel |
| StatementLedger.UnsetChain | sql/arkcmp/CmpContext.cpp:436-451 | removing a statement takes it out of the chain of every remaining one and changes nothing else in it |
| StatementLedger.UnsetAfterSet | sql/arkcmp/CmpContext.cpp:423-451 | removing the statement just appended restores list, links and current position |
| StatementLedger.Play | sql/arkcmp/CmpContext.cpp:423-451 | every well-nested sequence of appending and removing, to any depth, restores list, links and current position |
| StatementLedger.PlayAll | sql/arkcmp/CmpContext.cpp:423-451 | so does any number of them one after the other |
| CompilerContext.Context.constructor | sql/arkcmp/CmpContext.cpp:160-164 | the context starts with the null sentinel as its only and current entry and an empty diagnostics area |
| CompilerContext.Context.SetStatement | sql/arkcmp/CmpContext.cpp:423-434 | the fields and links updated in place are the ledger with the statement appended, and the cached pointer is the current entry |
| CompilerContext.Context.UnsetStatement | sql/arkcmp/CmpContext.cpp:436-451 | the same for removal, including the links that pointed to the removed statement; the diagnostics area is cleared exactly when only the sentinel is left |
| CompilerContext.Context.Relink | sql/arkcmp/CmpContext.cpp:445-447 | the loop redirects exactly the links that pointed to the removed statement |
| CompilerContext.Context.SetCurrentStatement | sql/arkcmp/CmpContext.cpp:453-462 | the same for switching; an unlisted statement selects the sentinel, and an exception is raised exactly when the diagnostics area is not empty |
| CompilerContext.Context.PassingStatement | sql/arkcmp/CmpStatement.cpp:180-248 | a statement that is created and deleted leaves the list as it was, and what it left in the diagnostics area unless the list is empty |
| Connection.ExCmpMessage.constructor | sql/arkcmp/CmpContext.cpp:160-164 | a connection starts with no request |
| Connection.ExCmpMessage.GetISPStatement | sql/arkcmp/CmpConnection.cpp:608-617 | the lookup finds the oldest request in progress with the id, and nothing exactly when there is none |
| Connection.ExCmpMessage.OnCompile | sql/arkcmp/CmpConnection.cpp:587-588 | an ordinary message leaves the list as it was; what it leaves in the diagnostics area stays there while a request is in progress |
| Connection.ExCmpMessage.Settle | sql/arkcmp/CmpConnection.cpp:587-588 | after a message the statement stays in the list exactly if it has more to send |
| Connection.ExCmpMessage.OnRequest | sql/arkcmp/CmpConnection.cpp:463-478 | a request gets a statement of its own, which starts with what is in the diagnostics area and stays exactly if the reply says more; no other request is touched |
| Connection.ExCmpMessage.OnGetNext | sql/arkcmp/CmpConnection.cpp:480-498 | the request with the id is given up exactly if something is in the diagnostics area, and otherwise goes on where it stopped and sends something if its next item fits; what is in the area afterwards is stated for both; no other request is touched; without one with the id only the diagnostics area changes |
| Connection.EachRequestRunsAlone | sql/arkcmp/CmpConnection.cpp:463-617 | in every state and for any procedure: what a request whose messages found the diagnostics area empty, as it left it, was sent is a prefix of the output of its own unbuffered run; it is in the list exactly while that is a proper one without an exception, and it ends early only by an exception of its own run or by being given up |
| Connection.TidyLeavesAllAlone | sql/arkcmp/CmpConnection.cpp:463-617 | as long as every message left the diagnostics area empty, all requests are of that kind and none was given up |
| Connection.RequestHasItsRun | sql/arkcmp/CmpConnection.cpp:463-617 | in every state: what a request was sent is a prefix of its own history, its inputs were opened in order, and while its messages found the diagnostics area as it left it that history is the unbuffered run from what it found first |
| Connection.EachRequestIsAnswered | sql/arkcmp/CmpConnection.cpp:463-617 | if the procedure of such a request stops, it was sent its whole output exactly if it has left the list |
| Conversation.AloneIffAreaEmpty | sql/arkcmp/CmpStoredProc.cpp:1148-1160 | a new request gets the output it would get alone, whatever its procedure is, exactly when it finds the diagnostics area empty |
| Conversation.LeakingInterleaving | sql/arkcmp/CmpContext.cpp:436-462 | two requests and an ordinary message after which the second request was sent the code of the first, and the first was given up |
| Conversation.FindLeftover | sql/arkcmp/CmpStoredProc.cpp:1156-1160 | an idle request is sent exactly what it finds in the diagnostics area |
| Conversation.LoseRequest | sql/arkcmp/CmpContext.cpp:453-462 | a request in progress is given up when an ordinary message left something |
| Conversation.Converse | sql/arkcmp/CmpStatement.cpp:1481-1591 | any conversation: the replies concatenated are what was sent; if the buffer of every message holds any single item still to come, every message sends something; and the request is given up only if its run leaves something after an input |
| Conversation.ConverseToEnd | sql/arkcmp/CmpStatement.cpp:1542-1591 | a procedure that stops and leaves nothing is answered completely within as many messages as it has output items, or one, if the buffer of every message holds any single item still to come |
| Conversation.StopsWhereLeft | sql/arkcmp/CmpStatement.cpp:1481-1539 | with room for all but the last item emitted up to the end of an input, the first message stops exactly there, whatever the procedure would do later |
| Conversation.GivenUpSomewhere | sql/arkcmp/CmpContext.cpp:453-462 | any procedure that leaves something after an input is given up in some conversation |
| Conversation.RefusedRequestIsGivenUp | sql/arkcmp/CmpContext.cpp:453-462 | a request that cannot be opened and leaves a code is given up, even alone, when its end does not fit |
| SparseArray.Resized | sql/common/Collections.cpp:105-159 | resizing never drops a used position and always makes room for what was asked: by half as much again when growing, or to exactly the size asked for |
| SparseArray.UsedUpdate | sql/common/Collections.cpp:87-103 | changing one position changes the count of used ones as the entry count is changed |
| SparseArray.UsedPrefix | sql/arkcmp/ProcessEnv.cpp:223-241 | once as many used positions were passed as there are, all later ones are unused |
| SparseArray.NAArray.UnusedIndex | sql/common/Collections.h:483-498 | the position found is unused: the next one while there is room, and otherwise the first unused one |
| SparseArray.NAArray.InsertAt | sql/common/Collections.cpp:67-103 | the position holds the element afterwards and no other position changes; the counts stay right |
| SparseArray.NAArray.Remove | sql/common/Collections.h:500-523 | exactly that position becomes unused, also when the array shrinks |
| EnvEntries.EqualSign | sql/arkcmp/ProcessEnv.cpp:214-218 | the first equal sign of an entry, with none before it |
| EnvEntries.NameIsUnique | sql/arkcmp/ProcessEnv.cpp:214-221 | a text is an entry for one name and one value only |
| EnvEntries.SamePrefixIsSameName | sql/arkcmp/ProcessEnv.cpp:229-238 | comparing up to and including the equal sign finds exactly the entries of the same name |
| EnvEntries.PutAllOverrides | sql/arkcmp/ProcessEnv.cpp:73-77 | putting a list one by one is overriding with what the list means |
| EnvEntries.MeaningIsListed | sql/arkcmp/ProcessEnv.cpp:73-77 | every variable of a list has a value some entry gives it, and every entry with a value defines its name |
| EnvEntries.LastEntryWins | sql/arkcmp/ProcessEnv.cpp:208-264 | an entry with no later one for its name gives the variable its value |
| EnvSync.KeptAfterAdding | sql/arkcmp/ProcessEnv.cpp:270-308 | comparing whole entries after adding keeps exactly the variables of the received list |
| EnvSync.AddedIs | sql/arkcmp/ProcessEnv.cpp:73-112 | also when other components changed the environment: a variable all of whose entries repeat the remembered value is left as found, every other received one has the last value, the rest is untouched |
| EnvSync.SyncedIs | sql/arkcmp/ProcessEnv.cpp:73-125 | if the environment is in step before, the result is emptying all managed variables and putting the whole list, and it is in step again, with repeated names and entries without equal sign |
| EnvSync.DeletesIffNothingDropped | sql/arkcmp/ProcessEnv.cpp:75-77 | the result is deleting all and adding all exactly when no managed variable is dropped |
| EnvSync.DroppedVariableStays | sql/arkcmp/ProcessEnv.cpp:290-296 | a dropped variable is still defined |
| EnvSync.DeletesUpToEmpty | sql/arkcmp/ProcessEnv.cpp:75-77 | taking empty for cleared, the result is always deleting all and adding all: both have the same variables with the same values that are not empty |
| EnvSync.StaysCoherent | sql/arkcmp/ProcessEnv.cpp:114-308 | any sequence of synchronising, adding and resetting keeps the remembered variables in step with the environment |
| EnvSync.OnlyLastRequestShows | sql/arkcmp/ProcessEnv.cpp:73-125 | after every run of requests the last one decides its variables, those of earlier ones are empty and all others are as at the start |
| EnvSync.AddedNamesAre | sql/arkcmp/ProcessEnv.cpp:98-108 | for a list without contradictions exactly the new and the changed variables are written, once each |
| EnvSync.RepeatedRequestIsQuiet | sql/arkcmp/ProcessEnv.cpp:104-108 | a request repeated at once writes nothing exactly when no name has two values in it |
| EnvSync.ContradictionIsWrittenAgain | sql/arkcmp/ProcessEnv.cpp:223-258 | a request that gives one variable two values writes it again when it is repeated |
| ProcessEnvironment.ProcessEnv.constructor | sql/arkcmp/ProcessEnv.cpp:56-59 | nothing is managed at the start |
| ProcessEnvironment.ProcessEnv.Search | sql/arkcmp/ProcessEnv.cpp:223-241 | the search that counts used positions ends and finds the entry exactly when the name is managed, whatever holes there are |
| ProcessEnvironment.ProcessEnv.AddOrChangeEnv | sql/arkcmp/ProcessEnv.cpp:208-264 | remembered variables, environment and written names after adding a list, with one entry per name |
| ProcessEnvironment.ProcessEnv.RemoveEnv | sql/arkcmp/ProcessEnv.cpp:270-308 | exactly the variables without a received entry are emptied, once each, and forgotten |
| ProcessEnvironment.ProcessEnv.SetEnv | sql/arkcmp/ProcessEnv.cpp:114-125 | what is managed is what the list means, the environment is the synchronised one, and each added, changed or dropped name is written; without a list nothing happens |
| ProcessEnvironment.ProcessEnv.ResetEnv | sql/arkcmp/ProcessEnv.cpp:137-171 | a managed variable is forgotten and taken out of the environment; any other name changes nothing |
| ProcessEnvironment.Follow | sql/arkcmp/CmpStatement.cpp:250-258 | a whole session of requests ends with the environment of the last one over the start |
| ProcessEnvironment.Perform | sql/arkcmp/ProcessEnv.cpp:73-171 | any sequence of synchronising, adding and resetting has the effect of the operations one by one, and keeps what is managed in step with the environment |
| ModuleTokens.WordEnd | sql/arkcmp/ExtQualModuleNames.cpp:112-116 | an identifier ends before the last character of the buffer and takes all word characters before |
| ModuleTokens.ScanFrom | sql/arkcmp/ExtQualModuleNames.cpp:100-165 | scanning never leaves the buffer, always advances except at the end, and sees the end only there |
| ModuleTokens.Tokens | sql/arkcmp/ExtQualModuleNames.cpp:100-165 | every text has finitely many tokens, the last one and only that being the end |
| ModuleTokens.Joined | sql/arkcmp/ExtQualModuleNames.cpp:47-60 | whatever the arguments are, the buffer is empty or ends with a blank |
| ModuleTokens.JoinedOne | sql/arkcmp/ExtQualModuleNames.cpp:53-56 | one argument is followed by one blank |
| ModuleTokens.JoinedBoth | sql/arkcmp/ExtQualModuleNames.cpp:53-56 | the arguments are joined in order |
| ModuleScanning.BlankIsSkipped | sql/arkcmp/ExtQualModuleNames.cpp:107-110 | white space before a token does not count |
| ModuleScanning.WordIsConverted | sql/arkcmp/ExtQualModuleNames.cpp:111-125 | a letter and the letters, digits and underscores after it are one token; its text is what the conversion gives for them, it is a keyword exactly when that is one of the three, and a failed conversion is reported |
| ModuleScanning.MarkIsRead | sql/arkcmp/ExtQualModuleNames.cpp:126-133 | each of the five marks is a token of its own |
| ModuleScanning.QuotedIsConverted | sql/arkcmp/ExtQualModuleNames.cpp:134-153 | a text in quotes is an identifier, converted with its quotes; a failed conversion is reported |
| ModuleScanning.UnterminatedIsReported | sql/arkcmp/ExtQualModuleNames.cpp:155-156 | without a closing quote the rest of the buffer is taken as it is, and reported |
| ModuleScanning.OtherIsReported | sql/arkcmp/ExtQualModuleNames.cpp:157-161 | any other character is reported, and the one after it is skipped |
| ModuleGrammar.PathSpelledOut | sql/arkcmp/ExtQualModuleNames.cpp:232-275 | the tokens of a path, one by one |
| ModuleGrammar.QualifierSpelledOut | sql/arkcmp/ExtQualModuleNames.cpp:277-309 | the tokens of a qualifier: its keyword, an equal sign and perhaps a name |
| ModuleGrammar.ItemSpelledOut | sql/arkcmp/ExtQualModuleNames.cpp:215-309 | the tokens of an item: path, group, table set and version in this order |
| ModuleGrammar.ListSpelledOut | sql/arkcmp/ExtQualModuleNames.cpp:191-213 | the tokens of a list: braces around it, commas between items |
| ModuleGrammar.ListParses | sql/arkcmp/ExtQualModuleNames.cpp:191-309 | every list the grammar allows is accepted and has itself as its only reading |
| ModuleGrammar.AcceptsIffGrammatical | sql/arkcmp/ExtQualModuleNames.cpp:180-309 | a token stream is accepted exactly when it is a list in braces with at least one, possibly empty, item, and nothing after it |
| ModuleGrammar.OnlyReading | sql/arkcmp/ExtQualModuleNames.cpp:180-309 | the same for any stream, including one whose first token is faulty |
| ModuleGrammar.TokensAreStream | sql/arkcmp/ExtQualModuleNames.cpp:100-165 | what is scanned is always such a stream |
| ModuleNames.QualifiedSplits | sql/arkcmp/ExtQualModuleNames.cpp:312-343 | a composed name splits back into the parts it was made of |
| ModuleNames.QualifiedIsUnique | sql/arkcmp/ExtQualModuleNames.cpp:312-343 | different parts without carets give different names |
| ModuleNames.QualifiedOnce | sql/arkcmp/ExtQualModuleNames.cpp:323-331 | a name is left alone exactly when there is nothing to add or it is qualified already, so composing again changes nothing |
| ModuleNames.ItemDenotes | sql/arkcmp/ExtQualModuleNames.cpp:232-343 | the one name an item denotes, part by part, with the defaults for what is missing or unnamed |
| ModuleRecovery.TakeItem | sql/arkcmp/ExtQualModuleNames.cpp:215-309 | on every stream: an item never takes back tokens or reports, and gives a name exactly if it starts with an identifier |
| ModuleRecovery.UnexpectedIsReported | sql/arkcmp/ExtQualModuleNames.cpp:180-189 | a token that is not the expected one is reported by -2212 and stays |
| ModuleRecovery.MissingNameIsReported | sql/arkcmp/ExtQualModuleNames.cpp:232-275 | where an identifier is missing after the first dot, -2213 is reported and no part of the name is left |
| ModuleRecovery.MissingLastNameIsReported | sql/arkcmp/ExtQualModuleNames.cpp:232-275 | the same after the second dot |
| ModuleRecovery.MissingEqualIsReported | sql/arkcmp/ExtQualModuleNames.cpp:277-309 | a qualifier without its equal sign is reported and still taken |
| ModuleRecovery.MissingBraceIsReported | sql/arkcmp/ExtQualModuleNames.cpp:191-198 | a list without its opening brace is reported and read all the same |
| ModuleRecovery.ListAgrees | sql/arkcmp/ExtQualModuleNames.cpp:180-309 | on every stream, going on after errors: nothing is reported exactly when the grammar parser accepts, and then the names are those of the items |
| ReturnCodes.ExitCodeIs | sql/arkcmp/mxCompileUserModule.cpp:91-108 | whatever order reports come in, the exit code is the most severe of failure, error and warning; without those it is the last one set |
| ReturnCodes.CompileUserModule.SetReturnCode | sql/arkcmp/mxCompileUserModule.cpp:91-108 | one report moves the exit code as that law needs; a failure stays |
| ReturnCodes.CompileUserModule.ReportFailure | sql/arkcmp/mxCompileUserModule.h:50-52 | a reported failure makes the exit code a failure and adds its number |
| ExtQualModuleNaming.ExtQualModuleNames.constructor | sql/arkcmp/ExtQualModuleNames.cpp:40-60 | the buffer is the arguments, each followed by a blank, and is read from its start |
| ExtQualModuleNaming.ExtQualModuleNames.CheckReserved | sql/arkcmp/ExtQualModuleNames.cpp:70-79 | the three keywords are told from identifiers |
| ExtQualModuleNaming.ExtQualModuleNames.Scanner | sql/arkcmp/ExtQualModuleNames.cpp:100-165 | the loop delivers the token, position and reports of the scanning function, reading no character outside the buffer |
| ExtQualModuleNaming.ExtQualModuleNames.ScanWord | sql/arkcmp/ExtQualModuleNames.cpp:111-125 | the same for the rest of an identifier |
| ExtQualModuleNaming.ExtQualModuleNames.ScanDelimited | sql/arkcmp/ExtQualModuleNames.cpp:134-156 | the same for a quoted identifier, closed or not |
| ExtQualModuleNaming.ExtQualModuleNames.Match | sql/arkcmp/ExtQualModuleNames.cpp:180-189 | the tokens to come and the reports afterwards, on every stream: a token that is not the expected one is reported and stays |
| ExtQualModuleNaming.ExtQualModuleNames.ParseModule | sql/arkcmp/ExtQualModuleNames.cpp:232-275 | parts, tokens to come and reports on every stream, also where an identifier is missing |
| ExtQualModuleNaming.ExtQualModuleNames.ParseQualifiers | sql/arkcmp/ExtQualModuleNames.cpp:277-309 | qualifiers in their order with the defaults for those not named, tokens to come and reports on every stream |
| ExtQualModuleNaming.ExtQualModuleNames.ParseModuleName | sql/arkcmp/ExtQualModuleNames.cpp:215-230 | the name appended, tokens to come and reports on every stream, also after errors |
| ExtQualModuleNaming.ExtQualModuleNames.ParseModuleNameList | sql/arkcmp/ExtQualModuleNames.cpp:200-213 | the loop ends; names appended in order, tokens to come and reports on every stream |
| ExtQualModuleNaming.ExtQualModuleNames.ParseExternallyQualifiedModuleNames | sql/arkcmp/ExtQualModuleNames.cpp:191-198 | the same for the list in braces up to the end |
| ExtQualModuleNaming.ExtQualModuleNames.ProcessExtQualModuleNames | sql/arkcmp/ExtQualModuleNames.cpp:371-377 | for every command line: reports and names are those of the parser over its tokens; nothing is reported exactly when these are a list of the grammar, and then the names are those of its items; otherwise the exit code is a failure |
| ExtQualModuleNaming.ExtQualModuleNames.Contains | sql/arkcmp/ExtQualModuleNames.cpp:357-368 | found exactly when some module has the catalog, schema and name asked for, joined by dots; the first such is marked and nothing else changes |
| ModulePrinting.PiecesAreScanned | sql/arkcmp/ExtQualModuleNames.cpp:100-165 | any layout of lexemes that do not run together is scanned to exactly these lexemes |
| ModulePrinting.FirstRunEnds | sql/arkcmp/ExtQualModuleNames.cpp:134-154 | a quoted identifier ends with its first run of quotes, in which all but the last are taken twice |
| ModulePrinting.ReadAsOneIffNoQuoteInside | sql/arkcmp/ExtQualModuleNames.cpp:134-154 | a text in quotes is read as one identifier, letter by letter, exactly when there is no quote inside it |
| ModulePrinting.DoubledQuoteIsNotReadAsOne | sql/arkcmp/ExtQualModuleNames.cpp:139-142 | an identifier with a doubled quote inside that is not read as one |
| ModulePrinting.SplitIsJoined | sql/arkcmp/ExtQualModuleNames.cpp:53-56 | a text split at blanks into any number of arguments is joined back, with a blank at its end |
| ModulePrinting.PrintedIsScanned | sql/arkcmp/ExtQualModuleNames.cpp:40-165 | a written list of items, split at blanks into any number of arguments, is scanned to its own tokens |
| ModulePrinting.WriteAndRead | sql/arkcmp/ExtQualModuleNames.cpp:100-343 | writing any list of fully specified names, also an empty one, with quotes where needed, and parsing the text from any number of arguments reports nothing and gives back, in order, catalog, schema and group^module^tableset^version of each, whatever the defaults |
| ModulePrinting.WriteAndFind | sql/arkcmp/ExtQualModuleNames.cpp:357-368 | after that a name is found exactly if it is catalog, schema and composed name of one of those written |
| ModulePrinting.ReadBackIsUnique | sql/arkcmp/ExtQualModuleNames.cpp:312-343 | no two names without carets in their parts are read back as the same |
| VarcharTrim.StrippedIs | sql/arkcmp/VersioningStoredProc.cpp:1251-1276 | whatever is between blanks and has none at its ends is the stripped text |
| VarcharTrim.DropTrailing | sql/arkcmp/VersioningStoredProc.cpp:1254-1260 | the walk back ends, at the latest at the length that has become zero, and leaves the text without the blanks at its end and zeros after it |
| VarcharTrim.CountLeading | sql/arkcmp/VersioningStoredProc.cpp:1262-1265 | the count is the number of leading blanks exactly when the text is not empty or not followed by a blank; otherwise it runs on behind the text |
| VarcharTrim.DropLeading | sql/arkcmp/VersioningStoredProc.cpp:1267-1274 | the text is moved over its leading blanks, with the new length and zeros up to the old one |
| VarcharTrim.Strip | sql/arkcmp/VersioningStoredProc.cpp:1251-1276 | defined exactly when the text is not empty or not followed by a blank; then the field holds the stripped text and its length, zeros up to the old length, and is unchanged beyond |
| VarcharTrim.MoveBoundIs | sql/arkcmp/VersioningStoredProc.cpp:1270-1271 | the bound of the moving loop is the length of the stripped text, or beyond any field when more blanks were counted than the text has |
| VarcharTrim.EmptyBeforeBlank | sql/arkcmp/VersioningStoredProc.cpp:1262-1271 | an empty text followed by a blank is such a field |
| CacheEntries.InfoStruct.Fetch | sql/arkcmp/QueryCacheSt.cpp:269-376 | fetch number n delivers row n of the listing with its number, and every fetch after the last reports the end |
| CacheEntries.FetchAll | sql/arkcmp/QueryCacheSt.cpp:252-376 | fetching until the end gives the listing, numbered from zero |
| CacheEntries.FetchesGive | sql/arkcmp/QueryCacheSt.cpp:269-376 | after any number of fetches, the rows so far are the first ones of the listing, numbered from zero |
| CacheEntries.ListingIsAnswered | sql/arkcmp/QueryCacheSt.cpp:252-387 | OPEN, FETCH* and CLOSE give every input the whole listing and an end mark without diagnostics |
| CacheEntries.ListsEntriesOnly | sql/arkcmp/QueryCacheSt.cpp:285-288 | a request is sent all entries of both lists, once each and numbered, and nothing else, exactly when the second list is not empty or both are |
| CacheEntries.AnchorIsListed | sql/arkcmp/QueryCacheSt.cpp:285-291 | with one entry in the first list and none in the second, a second row is sent for the anchor |
| CacheEntries.EndIsKept | sql/arkcmp/QueryCacheSt.cpp:280-283 | every fetch after the last row reports the end and leaves the cursor |
| CacheEntries.NoCursorFails | sql/arkcmp/QueryCacheSt.cpp:271-279 | a fetch without a cursor fails, unless there is nothing to list, and changes nothing |
| CacheEntries.ListedForEveryInput | sql/arkcmp/QueryCacheSt.cpp:252-387 | a request with any inputs is answered with the listing once per input |
| CacheConversation.QuietRun | sql/arkcmp/CmpStatement.cpp:1481-1539 | a procedure that never writes to the diagnostics area leaves it empty in every run |
| CacheConversation.List | sql/arkcmp/QueryCacheSt.cpp:252-387 | over a whole conversation, with buffers that hold any single item still to come, the replies add up to exactly those listings |

## Left out

- CacheEntries.InfoStruct.Fetch: the row number is not bounded by 64 bits, and the cache does not change between fetches.
- Connection.ExCmpMessage.OnRequest: beside the reply the source sends the diagnostics area with every message, which the model keeps as what the message left; and with an exception it also sends the reply object as it is, which after a GetNext still points at data that was freed. The model says only that nothing of the output is sent then.
- PagedStatement.Caught: the error left is that of a failed assertion; an unknown exception leaves another code, and an exception that comes as a long jump appends its code after closing the procedure.
- VarcharTrim.Strip: where it is not defined, what happens in the source depends on memory behind the field; the model stops there.
- ModulePrinting.WriteAndRead: names that contain quotes cannot be written at all, because of `ReadAsOneIffNoQuoteInside`.
- How identifiers are converted to internal format is a parameter of the scanner: any function may be used, and the printing results name what they need of it.
- Registration and lookup of procedures: a request comes with the procedure that was found.
- The -1 results of putting a reply row and of reading an input row, on which the source asserts.
- Message texts and parameters of diagnostics, which are sequences of codes here.
- COMPILE and KEY-RANGE actions, describing the fields of a procedure, and the formatting of rows.
- Ordinary compilation itself: the model keeps that its statement comes and goes, also nested (`StatementLedger.Play`), and that it leaves anything in the diagnostics area.
- Jump buffers, heaps, reference counts and the lifetime of strings given to `putenv`.
- `unsetEnv`, `cleanup`, `dumpEnvs` and `chdir`: direct edits of the environment, clearing, tracing and a system call.
- Byte lengths above 32767 in the trimmed field, and the call that extracts it.
- Interprocess messages, process startup and the tools around the compiler.
