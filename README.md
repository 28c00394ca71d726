# PhpFramework core, modelled in Dafny

This project models the core of FabianHahn's PhpFramework, a small PHP
framework. It has three parts:

* **The single-threaded socket layer.** This covers:
  * the `LineStringBuffer` framing buffer;
  * the process-wide `Socket` registry with its three-phase `poll`;
  * `TransportSocket`, with line and raw reading and a throttled, line-based write queue;
  * `ServerSocket` and `ChildSocket`, which track accepted children;
  * `Event`, which fans out to listeners in order.
* **The SQL text builders.** These are `DatabaseConnective` (AND/OR trees) and the `DELETE`, `SELECT`, `UPDATE` and `INSERT` query objects, which render their components into statement text.
* **The small keyed stores and routers.** These are `Template`, `ClassLoader`, the route parsing of `Mvc`, `Config`, `Memory` and `DatabaseRow`.

The project has one Dafny module per PHP component. Shared modules hold the PHP language rules the code relies on:
* `Php` (php.dfy): `empty()`, `trim`, `rtrim`, `explode`/`implode`, null and exceptions;
* `PhpArrays` (php_array.dfy): ordered PHP arrays with string keys;
* `SqlText` (sql_text.dfy): the accumulate-with-separator loop, condition lists and decimal text shared by the query builders.

How the code is modelled:
* PHP objects whose fields change become Dafny classes with `modifies` clauses.
* Each mutating loop of the source is a `method` with a `while` loop. It is proved equal to a specification function, and the properties the source promises are proved about that function as lemmas.
* A thrown exception becomes the `Err` case of a `Result`.
* `null` and `false` results become `None`.
* The operating system is an input. The answers of `socket_select`, `socket_read`, `socket_accept` and `socket_write`, and the clock, are parameters (`Sockets.Io`).
* The socket registry is an explicit `Reactor` object. It holds:
  * every socket object ever created, keyed by id (`sockets`);
  * the static `$sockets` array, as the list of registered ids in insertion order (`registry`);
  * the id counter (`nextId`);
  * a trace of the events fired (`trace`);
  * the log of handler calls made by `poll` (`calls`).

## Model

| member | source | states |
|---|---|---|
| `LineStringBuffers.Strcspn` | LineStringBuffer/LineStringBuffer.php:77 | The result is the length of the longest prefix with no ending character; the character at that index, if any, is an ending character |
| `LineStringBuffers.Strspn` | LineStringBuffer/LineStringBuffer.php:102 | The result is the length of the longest prefix made only of ending characters |
| `LineStringBuffers.LineLength` | LineStringBuffer/LineStringBuffer.php:75-85 | `hasLine` is false exactly when no character of the line-ending set occurs; otherwise it is the index of the first such character, and the text before it is ending-free |
| `LineStringBuffers.Pop` | LineStringBuffer/LineStringBuffer.php:91-110 | Without a complete line the buffer is unchanged; with one the buffer gets strictly shorter |
| `LineStringBuffers.PopHasLine` | LineStringBuffer/LineStringBuffer.php:91-96 | `popLine` returns a line exactly when `hasLine` is not false |
| `LineStringBuffers.PopLineFacts` | LineStringBuffer/LineStringBuffer.php:93-96 | The popped line has `hasLine`'s length, holds no ending character and is a prefix of the old buffer |
| `LineStringBuffers.PopParts` | LineStringBuffer/LineStringBuffer.php:96-102 | Old buffer = line + k ending characters + new buffer, with 1 <= k <= strlen(ending); when fewer than strlen(ending) are stripped, the new buffer does not start with an ending character |
| `LineStringBuffers.BlankLineSurvives` | LineStringBuffer/LineStringBuffer.php:99-102 | With "\n", "a\n\nb" pops "a" leaving "\nb", which then pops the blank line "" leaving "b" |
| `LineStringBuffers.PopTerminatedLine` | LineStringBuffer/LineStringBuffer.php:93-104 | A buffer holding an ending-free line, then the whole ending, then anything, pops exactly that line and leaves exactly the rest |
| `LineStringBuffers.DrainFacts` | Socket/TransportSocket.php:213-216 | After draining, no complete line remains in the buffer and every drained line is ending-free |
| `LineStringBuffers.DrainAdvance` | Socket/TransportSocket.php:213-216 | One pop is one step of the drain: the lines so far plus the drain of the old buffer equal the lines so far plus the popped line plus the drain of the rest |
| `LineStringBuffers.DrainTerminated` | LineStringBuffer/LineStringBuffer.php:57-110 | Round trip: extending with l1+ending+...+ln+ending+tail (all ending-free) and popping until no line is left gives l1..ln in order and leaves tail |
| `LineStringBuffers.LineStringBuffer.constructor` | LineStringBuffer/LineStringBuffer.php:39-43 | A new buffer is empty and keeps the given ending (default "\n") |
| `LineStringBuffers.LineStringBuffer.Clear` | LineStringBuffer/LineStringBuffer.php:48-51 | The buffer becomes empty |
| `LineStringBuffers.LineStringBuffer.Extend` | LineStringBuffer/LineStringBuffer.php:57-60 | The text is appended at the tail |
| `LineStringBuffers.LineStringBuffer.Prepend` | LineStringBuffer/LineStringBuffer.php:66-69 | The text is added at the head |
| `LineStringBuffers.LineStringBuffer.HasLine` | LineStringBuffer/LineStringBuffer.php:75-85 | Answers `LineLength` of the current buffer |
| `LineStringBuffers.LineStringBuffer.PopLine` | LineStringBuffer/LineStringBuffer.php:91-110 | Returns the line `Pop` gives and leaves its rest as the new buffer |
| `LineStringBuffers.LineStringBuffer.GetBuffer` | LineStringBuffer/LineStringBuffer.php:116-119 | Returns the exact contents |
| `TransportSockets.InitialTransport` | Socket/TransportSocket.php:95-106 | A new transport is in line mode with an empty reading buffer, "\n" for reading and writing, and throttling off |
| `TransportSockets.ThrottlingEnabledAsWritten` | Socket/TransportSocket.php:355-358 | As written, `isWriteThrottlingEnabled` compares an undefined local with null, so it is false for every socket |
| `TransportSockets.ThrottlingLostAsWritten` | Socket/TransportSocket.php:297-358 | After `enableWriteThrottling(10, 2)` the intended test says throttled, while the code as written says not throttled |
| `TransportSockets.EnableThrottling` | Socket/TransportSocket.php:297-303 | Installs a fresh empty writing buffer and sets the last write time to 0; throttling is then on exactly when bps is loosely non-null (not 0) |
| `TransportSockets.DisableThrottling` | Socket/TransportSocket.php:308-314 | Drops the writing buffer and turns throttling off; the reading side and the writing ending are kept |
| `TransportSockets.SetReadingEnding` | Socket/TransportSocket.php:374-377 | A fresh reading buffer: empty, with the new ending; the writing side is untouched |
| `TransportSockets.SetWritingEnding` | Socket/TransportSocket.php:384-392 | Sets the writing ending; empties the writing buffer only while throttling is on, and otherwise leaves it alone |
| `TransportSockets.SetLineEnding` | Socket/TransportSocket.php:400-404 | Both endings become the new one and the reading buffer is emptied |
| `TransportSockets.Queued` | Socket/TransportSocket.php:150-170 | The text `writeLine` queues is line + ending; when that exceeds bps * peak, the line is cut to "" (the undefined `output_throttle_*` fields) and only the ending is queued |
| `TransportSockets.OnReadable` | Socket/TransportSocket.php:203-242 | Throws exactly for a non-empty read in an unknown mode. It closes exactly on false or an `empty()` chunk; in line mode a non-empty leftover is read out first and the state is otherwise unchanged. Raw mode raises one event with the chunk. Line mode leaves no complete line buffered and raises only ending-free lines |
| `TransportSockets.OnReadableLines` | Socket/TransportSocket.php:210-217 | A line-mode chunk raises exactly the lines drained from buffer + chunk, in order, and keeps the drained rest |
| `TransportSockets.ReadsCompleteLines` | Socket/TransportSocket.php:210-217 | A chunk of terminated lines plus a partial tail: the first event is the old partial line joined to the first new line, the rest follow in order, and the tail stays buffered |
| `TransportSockets.ZeroChunkCloses` | Socket/TransportSocket.php:205 | The one-character chunk "0" is treated exactly like a closed read |
| `TransportSockets.Quota` | Socket/TransportSocket.php:259-262 | The quota is the smaller of elapsed * bps and bps * peak |
| `TransportSockets.FlushWithinQuota` | Socket/TransportSocket.php:264-288 | The bytes the flush sends never exceed the quota; the last write time moves exactly when something was sent |
| `TransportSockets.FlushStopsOverQuota` | Socket/TransportSocket.php:264-288 | The flush stops only when no complete line remains or the next line (with its ending) exceeds the remaining quota |
| `TransportSockets.FlushWithinPeak` | Socket/TransportSocket.php:262-288 | One tick sends at most bps * peak bytes |
| `TransportSockets.FlushSendsInOrder` | Socket/TransportSocket.php:264-288 | Queued lines whose total cost fits the quota are all sent, in order, each followed by the ending, and the partial tail is kept |
| `TransportSockets.FlushStopsAtFirstOverQuota` | Socket/TransportSocket.php:268-287 | When the first queued line does not fit, nothing is sent and the buffer is unchanged |
| `TransportSockets.FailedWriteDropsLine` | Socket/TransportSocket.php:270-282 | A failed write drops the popped line without charging quota and goes on with the rest |
| `Sockets.Without` | Socket/Socket.php:137 | `unset` removes exactly that id from the registry and keeps the rest in ascending order |
| `Sockets.Prune` | Socket/ServerSocket.php:91-101 | The children kept are exactly those that are connected |
| `Sockets.PruneIdempotent` | Socket/ServerSocket.php:93-100 | Pruning twice is the same as pruning once |
| `Sockets.Readers` | Socket/Socket.php:69-77 | The sockets offered to select are exactly the registered, connected ones, each with its resource |
| `Sockets.Selected` | Socket/Socket.php:79-81 | The readers reported ready are exactly those whose id select returns |
| `Sockets.NothingReady` | Socket/Socket.php:79 | When select reports nothing, nothing is dispatched |
| `Sockets.Owner` | Socket/Socket.php:83-92 | The owner found is registered and holds the resource; when none is found, no registered socket holds it |
| `Sockets.OwnerIsFirst` | Socket/Socket.php:85-92 | The owner found comes no later in the registry than any other socket holding the resource |
| `Sockets.Closed` | Socket/TransportSocket.php:188-198 | Disconnecting clears the resource; a connected transport also loses its reading buffer; a server keeps its children |
| `Sockets.DrainLines` | Socket/TransportSocket.php:211-216 | The line-mode read loop returns exactly `Drain` of the buffered text |
| `Sockets.FlushQueue` | Socket/TransportSocket.php:264-288 | The post-poll write loop sends and keeps exactly what `Flush` describes |
| `Sockets.Reactor.constructor` | Socket/Socket.php:32-39 | The registry starts empty with counter 0 |
| `Sockets.Reactor.Register` | Socket/Socket.php:110-117 | A new socket gets id = counter, the counter goes up by one, and exactly one registry entry is added; the new id is larger than every earlier one |
| `Sockets.Reactor.CreateTransport` | Socket/TransportSocket.php:95-106 | Registers a new unconnected transport with the initial settings |
| `Sockets.Reactor.CreateServer` | Socket/ServerSocket.php:46-53 | Registers a new unconnected server with no children |
| `Sockets.Reactor.CreateChild` | Socket/ChildSocket.php:28-33 | A child built from a resource is registered with a fresh id, is connected at once and has the transport defaults |
| `Sockets.Reactor.Attach` | Socket/Socket.php:46 | Stands for a successful `connect` of the TCP and Unix subclasses, which are not part of this model; that `connect` stores a new resource in the `$resource` field declared here. Only that socket's resource changes |
| `Sockets.Reactor.Connect` | Socket/ChildSocket.php:40-50 | `connect` of a child answers whether it is connected and changes nothing |
| `Sockets.Reactor.Disconnect` | Socket/TransportSocket.php:188-198 | The socket ends unconnected; the disconnected event fires once exactly when it was connected; the registry is untouched |
| `Sockets.Reactor.Destroy` | Socket/Socket.php:130-142 | Only a registered, connected socket is disconnected and removed, alone, from the registry; any other call changes nothing. Afterwards the socket is unregistered or unconnected, so a second call is a no-op |
| `Sockets.Reactor.Write` | Socket/TransportSocket.php:112-136 | Throws exactly while throttling is on; otherwise a connected socket whose write succeeds fires one send event with the data |
| `Sockets.Reactor.WriteLine` | Socket/TransportSocket.php:144-182 | Throttled and not forced: a connected socket queues `Queued` at the head (high priority) or the tail, and an unconnected one queues nothing. Otherwise it falls through to `write` with line + ending, which throws when throttled |
| `Sockets.Reactor.EnableWriteThrottling` | Socket/TransportSocket.php:297-303 | Applies `EnableThrottling` to that socket only |
| `Sockets.Reactor.DisableWriteThrottling` | Socket/TransportSocket.php:308-314 | Applies `DisableThrottling` to that socket only |
| `Sockets.Reactor.SetReadingMode` | Socket/TransportSocket.php:364-367 | Only the reading mode of that socket changes |
| `Sockets.Reactor.SetReadingLineEnding` | Socket/TransportSocket.php:374-377 | Applies `SetReadingEnding` to that socket only |
| `Sockets.Reactor.SetWritingLineEnding` | Socket/TransportSocket.php:384-392 | Applies `SetWritingEnding` to that socket only |
| `Sockets.Reactor.SetLineEnding` | Socket/TransportSocket.php:400-404 | Applies `SetLineEnding` to that socket only |
| `Sockets.Reactor.ReadSelect` | Socket/TransportSocket.php:203-242 | A transport's select handler follows `OnReadable`. An error changes nothing. Lines or a chunk become read events and the new buffer. A close emits the leftover, then destroys the socket as `destroy` does |
| `Sockets.Reactor.Accept` | Socket/ServerSocket.php:73-86 | A successful accept registers one connected child under a fresh id, adds it to the children and fires the accept event once with (server, child); a failed accept changes nothing |
| `Sockets.Reactor.HandleSelectEvent` | Socket/Socket.php:96 | Dispatches to the transport or server handler. It throws exactly when the socket is a transport whose read, in an unknown reading mode, fails in `OnReadable`, and a throw changes nothing |
| `Sockets.Reactor.PrePoll` | Socket/ServerSocket.php:91-101 | A server drops exactly its disconnected children, keeping the others in order; a transport changes nothing |
| `Sockets.Reactor.PostPoll` | Socket/TransportSocket.php:255-290 | A connected, throttled transport flushes its writing buffer under `Quota` as `Flush` describes, fires one send event per line and sets the last time only when it wrote; any other socket is untouched |
| `Sockets.Reactor.FindOwner` | Socket/Socket.php:83-92 | Returns the first registered socket holding the resource |
| `Sockets.Reactor.PrePollAll` | Socket/Socket.php:61-65 | Pre-poll runs on every registered socket in registry order; no socket is created or removed and no resource changes |
| `Sockets.Reactor.OfferReaders` | Socket/Socket.php:69-77 | Builds exactly `Readers` of the registry |
| `Sockets.Reactor.DispatchAll` | Socket/Socket.php:79-98 | One select-phase handler call per selected resource, logged in dispatch order. With nothing selected it dispatches nothing and raises no error. It stops early only at a resource no registered socket owns, or right after a handler that throws (`Stopped`) |
| `Sockets.Reactor.PostPollAll` | Socket/Socket.php:100-104 | Post-poll runs on every registered socket in registry order |
| `Sockets.Reactor.Poll` | Socket/Socket.php:59-105 | The handler calls are all pre-polls in registry order, then one dispatch per ready connected socket, then all post-polls in the registry order of that moment; the readers offered are the connected registered sockets. When select reports nothing, nothing is dispatched, no error arises and post-poll still runs. An error means the dispatch phase `Stopped` at an unowned resource or a throwing handler, and post-poll is skipped |
| `Events.RemoveFirst` | Event/Event.php:58-70 | Without the listener the list is unchanged; with it exactly one element goes |
| `Events.RemoveFirstAt` | Event/Event.php:60-66 | It is the first occurrence that is removed, and the order of the others is kept |
| `Events.RemoveFirstCount` | Event/Event.php:60-66 | A listener added twice loses one occurrence per call; other listeners keep their counts |
| `Events.RemoveFirstMultiset` | Event/Event.php:58-70 | The removal takes out exactly one copy of the listener |
| `Events.FanOut` | Event/Event.php:76-84 | One call per listener, in list order, each with the same arguments |
| `Events.Event.constructor` | Event/Event.php:32-35 | No listeners and no calls yet |
| `Events.Event.AddListener` | Event/Event.php:41-51 | A callable listener is appended at the end; a non-callable one is refused and the list is unchanged |
| `Events.Event.DelListener` | Event/Event.php:58-70 | Returns true exactly when the listener is present, and removes its first occurrence |
| `Events.Event.TriggerEvent` | Event/Event.php:76-84 | Records `FanOut` of the current listeners; the list itself is not modified |
| `Events.AddedTwiceRemovedOnce` | Event/Event.php:58-70 | After adding a listener twice and deleting it once, one occurrence remains |
| `DatabaseConnectives.RenderedGlue` | Database/DatabaseConnective.php:55-77 | The rendering is the expressions' pieces accumulated with " WORD " between them whenever the text so far is not `empty()` |
| `DatabaseConnectives.TextInOrder` | Database/DatabaseConnective.php:57-76 | An empty list renders "". When the first piece is not `empty()`, the text is all pieces in order joined by " WORD " |
| `DatabaseConnectives.LeadingZeroGlued` | Database/DatabaseConnective.php:61-64 | A leading "0" is glued to the next expression without a separator, and a leading "" vanishes |
| `DatabaseConnectives.NestedParenthesised` | Database/DatabaseConnective.php:66-73 | A nested connective appended to a list is rendered recursively inside parentheses after the separator |
| `DatabaseConnectives.Connective.constructor` | Database/DatabaseConnective.php:35-38 | Stores the given kind and expression list |
| `DatabaseConnectives.Connective.AddExpression` | Database/DatabaseConnective.php:45-48 | Appends the expression at the end |
| `DatabaseConnectives.Connective.ToString` | Database/DatabaseConnective.php:55-77 | The `__toString` loop computes exactly `Rendered` |
| `DeleteQueries.FirstConditionBare` | Database/DatabaseDeleteQuery.php:83-86 | The first condition on an empty WHERE is stored as the bare string, whatever the kind |
| `DeleteQueries.SameKindFlattens` | Database/DatabaseDeleteQuery.php:72-77 | Repeated conditions of one kind build one flat connective with all of them in order, never a nest |
| `DeleteQueries.SwitchNests` | Database/DatabaseDeleteQuery.php:78-81 | Switching kind wraps the current connective as the first operand of a new one, which renders it in parentheses |
| `DeleteQueries.DeleteText` | Database/DatabaseDeleteQuery.php:137-157 | Throws exactly when the table name is `empty()`, with the incomplete-query message; otherwise the text ends in ";" |
| `DeleteQueries.DeleteWithoutWhere` | Database/DatabaseDeleteQuery.php:139-156 | With table T and no condition, the output is exactly "DELETE FROM\n\t`T`;" |
| `DeleteQueries.DeleteWithWhere` | Database/DatabaseDeleteQuery.php:151-156 | With a truthy WHERE, the output is the header, "WHERE\n\t" and the WHERE text, right-trimmed, then ";" |
| `DeleteQueries.ZeroConditionDropped` | Database/DatabaseDeleteQuery.php:72-86 | A lone condition "0" is falsy: no WHERE is rendered, and the next condition replaces it |
| `DeleteQueries.DeleteQuery.constructor` | Database/DatabaseDeleteQuery.php:30-40 | No table and an empty WHERE |
| `DeleteQueries.DeleteQuery.Table` | Database/DatabaseDeleteQuery.php:55-60 | Overwrites the table name and returns the same query |
| `DeleteQueries.DeleteQuery.AddWhere` | Database/DatabaseDeleteQuery.php:68-118 | The WHERE becomes `AddCondition` of the old one; the table is kept and the same query is returned |
| `DeleteQueries.DeleteQuery.WhereAnd` | Database/DatabaseDeleteQuery.php:68-89 | Adds the condition as a conjunct |
| `DeleteQueries.DeleteQuery.WhereOr` | Database/DatabaseDeleteQuery.php:97-118 | Adds the condition as a disjunct |
| `DeleteQueries.DeleteQuery.WhereClause` | Database/DatabaseDeleteQuery.php:126-129 | `where` behaves exactly as `whereAnd` |
| `DeleteQueries.DeleteQuery.ToString` | Database/DatabaseDeleteQuery.php:137-157 | Computes exactly `DeleteText` |
| `SqlText.GlueJoin` | Database/DatabaseConnective.php:59-64 | When the first piece is not `empty()`, accumulating with a separator equals joining with it, and the result is not `empty()` |
| `SqlText.GlueLeadingEmpty` | Database/DatabaseConnective.php:61-64 | The `empty()` test glues a leading "0" to the next piece and drops a leading "" |
| `SqlText.GlueLoop` | Database/DatabaseSelectQuery.php:375-384 | The accumulate-with-separator loop computes `Glue` |
| `SqlText.TabbedGlue` | Database/DatabaseSelectQuery.php:375-388 | Tab-prefixed items accumulate to their plain join, which is non-empty exactly when there are items |
| `SqlText.TrimStatement` | Database/DatabaseSelectQuery.php:434 | trim of a statement that starts with a kept character and ends in "\n" is its right-trim |
| `SqlText.Digits` | Database/DatabaseSelectQuery.php:220-224 | A natural number's decimal text is all digits, with no leading zero |
| `SqlText.DigitsRoundTrip` | Database/DatabaseSelectQuery.php:220-224 | Reading the decimal text back gives the number |
| `SqlText.DigitValueRoundTrip` | Config/Config.php:82 | The other direction: plain decimal text (no leading zero) read as a number and written back is the same text, so decimal keys and indexes correspond one to one |
| `SqlText.DecimalEmpty` | Database/DatabaseSelectQuery.php:429 | An integer's text is `empty()` exactly for 0 |
| `SqlText.Qualified` | Database/DatabaseSelectQuery.php:79 | The column is backquoted and prefixed by the backquoted table unless the table is `empty()` |
| `SqlText.Separator` | Database/DatabaseSelectQuery.php:351-365 | Only AND (" AND\n") and OR (" OR\n") have a separator |
| `SqlText.ConditionsMeaning` | Database/DatabaseSelectQuery.php:346-373 | The condition list renders exactly when every non-first connective is known. It is then the tabbed conditions linked by each later condition's separator, non-empty exactly when there are conditions, and starts with a tab |
| `SqlText.ConditionsFirstUnknown` | Database/DatabaseSelectQuery.php:359-363 | On failure, the error names the connective of the first non-first condition whose connective is unknown |
| `SqlText.FirstConnectiveIgnored` | Database/DatabaseSelectQuery.php:349 | The first condition's connective never matters |
| `SqlText.ConditionsUniform` | Database/DatabaseSelectQuery.php:346-369 | With one known connective throughout, the list is the tabbed conditions joined by its separator |
| `SqlText.ConditionsLoop` | Database/DatabaseSelectQuery.php:346-369 | The WHERE loop computes exactly `Conditions`, stopping at the first unknown connective |
| `SqlText.ConditionsPrefixErr` | Database/DatabaseSelectQuery.php:359-363 | Once a prefix throws, the whole list throws the same error |
| `PhpArrays.IndexOf` | Database/DatabaseRow.php:34 | Finds the first entry with the key, or none exactly when the key is absent |
| `PhpArrays.PutShape` | Database/DatabaseSelectQuery.php:78-84 | Assigning to a present key overwrites it in place; a new key is appended; keys stay unique |
| `PhpArrays.PutGet` | Database/DatabaseSelectQuery.php:78-84 | After an assignment the key reads the new value and every other key is unchanged |
| `SelectQueries.ColumnKeyed` | Database/DatabaseSelectQuery.php:74-88 | A column is keyed by its alias, or by its rendered name without one; re-adding a key overwrites in place, and a new key goes last |
| `SelectQueries.FromMeaning` | Database/DatabaseSelectQuery.php:97-109 | `from` is refused exactly for an `empty()` table. Otherwise it sets the table, sets the alias only when given, and changes nothing else |
| `SelectQueries.LimitEmpty` | Database/DatabaseSelectQuery.php:218-230 | The stored limit is "start,count" for a truthy count; it is `empty()` (no LIMIT clause) exactly when start is 0 and count is falsy |
| `SelectQueries.ColumnItemAlias` | Database/DatabaseSelectQuery.php:257-262 | " AS `alias`" is left out exactly when the key equals the rendered column |
| `SelectQueries.JoinWord` | Database/DatabaseSelectQuery.php:287-301 | Only INNER, LEFT OUTER and RIGHT OUTER have a JOIN keyword |
| `SelectQueries.JoinAccepted` | Database/DatabaseSelectQuery.php:285-343 | A join renders exactly when its type is supported and its ON conditions render; CROSS throws; the text is keyword, target, optional alias, newline, then "ON\n" + conditions + " " |
| `SelectQueries.JoinsInOrder` | Database/DatabaseSelectQuery.php:285-344 | All joins render exactly when each one does, and the text is their texts in insertion order |
| `SelectQueries.GroupMeaning` | Database/DatabaseSelectQuery.php:375-388 | GROUP BY is omitted exactly when there are no groups; otherwise it holds the tabbed items joined by ",\n" in insertion order |
| `SelectQueries.SelectAccepted` | Database/DatabaseSelectQuery.php:238-435 | Rendering succeeds exactly when FROM is set, every join is supported and every later condition has a known connective; without FROM it throws the no-FROM error |
| `SelectQueries.SelectShape` | Database/DatabaseSelectQuery.php:241-434 | The output starts with "SELECT" and is the right-trimmed query text followed by ";" |
| `SelectQueries.SelectStar` | Database/DatabaseSelectQuery.php:243-283 | With only a FROM table T the output is exactly "SELECT\n\t*\nFROM\n\t`T`;" |
| `SelectQueries.SelectQuery.constructor` | Database/DatabaseSelectQuery.php:50-64 | Every component starts empty |
| `SelectQueries.SelectQuery.Column` | Database/DatabaseSelectQuery.php:74-88 | Applies `AddColumn` and returns the same query |
| `SelectQueries.SelectQuery.From` | Database/DatabaseSelectQuery.php:97-109 | Throws and changes nothing for an `empty()` table; otherwise applies `SetFrom` |
| `SelectQueries.SelectQuery.Join` | Database/DatabaseSelectQuery.php:120-139 | Appends the join and returns the same query |
| `SelectQueries.SelectQuery.Where` | Database/DatabaseSelectQuery.php:148-157 | Appends the condition with its connective |
| `SelectQueries.SelectQuery.Group` | Database/DatabaseSelectQuery.php:166-172 | Appends the qualified column to the groups |
| `SelectQueries.SelectQuery.Limit` | Database/DatabaseSelectQuery.php:218-230 | Stores `LimitText` and changes nothing else |
| `SelectQueries.SelectQuery.ToString` | Database/DatabaseSelectQuery.php:238-435 | The `__toString` loops compute exactly `SelectText` |
| `SelectQueries.ColumnsLoop` | Database/DatabaseSelectQuery.php:243-266 | The column loop computes exactly `ColumnsPart`: "\t*" without columns, otherwise each column item accumulated with ",\n" |
| `SelectQueries.JoinsLoop` | Database/DatabaseSelectQuery.php:285-344 | The join loop computes `JoinsText`, stopping at the first join that throws |
| `UpdateQueries.SetItems` | Database/DatabaseUpdateQuery.php:111-119 | One "\t`k` = 'v'" item per SET entry, in map order |
| `UpdateQueries.AsWrittenNeverRenders` | Database/DatabaseUpdateQuery.php:90-101 | As written, no UPDATE ever renders: a named table reaches the undefined `UPDATE_FROM` |
| `UpdateQueries.AsWrittenRejectsComplete` | Database/DatabaseUpdateQuery.php:100 | Every query the intended code renders fails as written |
| `UpdateQueries.UpdateAccepted` | Database/DatabaseUpdateQuery.php:90-154 | Renders exactly with a table, a non-empty SET and known later connectives. It throws the no-table error first, then the no-SET error |
| `UpdateQueries.UpdateShape` | Database/DatabaseUpdateQuery.php:92-153 | The output is the right-trimmed "UPDATE\n", table line, SET items joined by ",\n" and optional WHERE, then ";" |
| `UpdateQueries.IntendedSingleSet` | Database/DatabaseUpdateQuery.php:92-153 | One SET entry and no WHERE give exactly "UPDATE\n\t`T`\nSET\n\t`k` = 'v';" |
| `UpdateQueries.UpdateQuery.constructor` | Database/DatabaseUpdateQuery.php:31-38 | Empty table, SET and WHERE |
| `UpdateQueries.UpdateQuery.Table` | Database/DatabaseUpdateQuery.php:46-51 | Overwrites the table only |
| `UpdateQueries.UpdateQuery.Set` | Database/DatabaseUpdateQuery.php:59-64 | Replaces the whole SET map instead of merging |
| `UpdateQueries.UpdateQuery.Where` | Database/DatabaseUpdateQuery.php:73-82 | Appends the condition with its connective |
| `UpdateQueries.UpdateQuery.ToString` | Database/DatabaseUpdateQuery.php:90-154 | The `__toString` loops compute exactly `UpdateText` |
| `InsertQueries.KeyItems` | Database/DatabaseInsertQuery.php:86-101 | The i-th key item is the i-th map key backquoted |
| `InsertQueries.ValueItems` | Database/DatabaseInsertQuery.php:86-101 | The i-th value item is the i-th map value single-quoted, so keys and values pair up |
| `InsertQueries.AsWrittenRejectsComplete` | Database/DatabaseInsertQuery.php:74 | Every query the intended code renders fails as written on the undefined `UPDATE_FROM` |
| `InsertQueries.InsertAccepted` | Database/DatabaseInsertQuery.php:64-107 | Renders exactly with a table and a non-empty values map, throwing the no-table error first, then the no-values error |
| `InsertQueries.InsertShape` | Database/DatabaseInsertQuery.php:66-106 | The output is "INSERT INTO\n", the table line, "(\n" keys "\n)\nVALUES\n(\n" values "\n)" with ",\n" between items, then ";" |
| `InsertQueries.InsertQuery.constructor` | Database/DatabaseInsertQuery.php:24-30 | Empty table and values |
| `InsertQueries.InsertQuery.Table` | Database/DatabaseInsertQuery.php:38-43 | Overwrites the table only |
| `InsertQueries.InsertQuery.Values` | Database/DatabaseInsertQuery.php:51-56 | Replaces the whole values map |
| `InsertQueries.InsertQuery.ToString` | Database/DatabaseInsertQuery.php:64-107 | The `__toString` loop computes exactly `InsertText` |
| `DatabaseRows.Get` | Database/DatabaseRow.php:32-42 | Returns a value exactly when the key is present, a null value included; an absent key throws naming the key |
| `DatabaseRows.GetStored` | Database/DatabaseRow.php:32-37 | A present key returns its stored value, and a key mapped to null returns null |
| `DatabaseRows.GetData` | Database/DatabaseRow.php:49-52 | Returns the constructor array unchanged |
| `MemoryStore.LookupAsWritten` | Memory/Memory.php:31-39 | As written, `get` answers exactly the set, non-null keys, and its error message does not name the key |
| `MemoryStore.AsWrittenHidesKey` | Memory/Memory.php:35 | As written, two different missing keys give the same error; the intended message tells them apart |
| `MemoryStore.Lookup` | Memory/Memory.php:31-39 | `get` returns the value exactly for a set, non-null key; otherwise it throws naming the key |
| `MemoryStore.MissingNamesKey` | Memory/Memory.php:35 | The intended message determines the key |
| `MemoryStore.AsWrittenDiffersOnlyInMessage` | Memory/Memory.php:31-39 | Both versions succeed on the same keys with the same values |
| `MemoryStore.SetThenGet` | Memory/Memory.php:47-50 | After `set(k, v)` with v non-null, `get(k)` returns v, and every other key reads as before |
| `MemoryStore.NullIsMissing` | Memory/Memory.php:33 | A key never set, or set to null, is missing for `get` |
| `MemoryStore.LastSetWins` | Memory/Memory.php:49 | A later `set` of the same key overwrites the earlier one |
| `MemoryStore.Memory.constructor` | Memory/Memory.php:22 | The store starts empty |
| `MemoryStore.Memory.Get` | Memory/Memory.php:31-39 | Answers `Lookup` of the current store |
| `MemoryStore.Memory.Set` | Memory/Memory.php:47-50 | Updates only that key |
| `Configs.LoadConfig` | Config/Config.php:36-44 | Throws naming the file exactly when it does not exist; otherwise stores the parsed array, or the failed-parse marker |
| `Configs.Offset` | Config/Config.php:82-87 | A key read as a string offset is the decimal text of that index |
| `Configs.Lookup` | Config/Config.php:71-88 | Succeeds only for a loaded config holding the section; otherwise throws naming the section |
| `Configs.LookupMeaning` | Config/Config.php:71-88 | Unknown section throws; an `empty()` key returns the whole entry; a key of a section returns its value; a decimal index into a string entry returns that character (`isset` on a string offset); any other key throws naming section and key |
| `Configs.ScalarOffset` | Config/Config.php:82-87 | For every string entry and index n >= 1, the key written as n gives the character at n when n is in range, and otherwise throws naming section and key (with `a = hello`, `get("a", "1")` is "e") |
| `Configs.ZeroKeyUnreachable` | Config/Config.php:76-79 | The key "0" is `empty()`, so it returns the whole section |
| `Configs.LoadedOnce` | Config/Config.php:64-69 | A loaded config is never reloaded: file name and files no longer matter and the store stays |
| `Configs.LoadRetried` | Config/Config.php:64-74 | Without a loaded config, `get` loads first: a missing file throws and changes nothing, a failed parse leaves the section unknown, a good file is stored |
| `Configs.Config.constructor` | Config/Config.php:22-29 | File name "config.ini", nothing loaded |
| `Configs.Config.SetFileName` | Config/Config.php:51-54 | Changes only the file name, not the loaded config |
| `Configs.Config.Load` | Config/Config.php:36-44 | Applies `LoadConfig` to the store, keeping it on error |
| `Configs.Config.Get` | Config/Config.php:64-89 | Loads when needed and answers as `Retrieve`, string offsets included |
| `Templates.ReplaceAbsent` | Template/Template.php:47-50 | Data without the token is unchanged by `fill` |
| `Templates.ReplaceSelf` | Template/Template.php:47-50 | Filling a token with itself changes nothing |
| `Templates.ReplacePassesFree` | Template/Template.php:49 | Text before the first token character is kept as it is |
| `Templates.ReplaceFirstToken` | Template/Template.php:49 | The first occurrence is replaced by the content and the scan goes on after it, so occurrences do not overlap |
| `Templates.JoinedAppend` | Template/Template.php:86-91 | The content of a list of subtemplates is the content of its parts, in order |
| `Templates.Find` | Template/Template.php:60 | Finds the first slot with the placeholder, or none exactly when there is none |
| `Templates.StoreSubs` | Template/Template.php:60-75 | Storing a list makes it the placeholder's list; an existing placeholder keeps its place and a new one goes last |
| `Templates.StoreKeepsOthers` | Template/Template.php:73-76 | Storing under one placeholder leaves the others and the order of names untouched |
| `Templates.AddAppendsRendering` | Template/Template.php:58-67 | After `add`, the placeholder's content gains the new template's rendering and "\n" at the end |
| `Templates.EmptySlotErases` | Template/Template.php:82-97 | A placeholder with no subtemplates is filled with "", erasing its tokens |
| `Templates.Delimiter.constructor` | Template/Template.php:28 | The default placeholder character is "%" |
| `Templates.Delimiter.SetPlaceholderChar` | Template/Template.php:118-121 | Changes the character shared by all templates |
| `Templates.Template.constructor` | Template/TemplateString.php:11-15 | The data is the given text and there are no subtemplates |
| `Templates.Template.Fill` | Template/Template.php:47-50 | The data becomes every occurrence of char+name+char replaced by the content |
| `Templates.Template.Add` | Template/Template.php:58-67 | Creates the list if needed, appends the template in order and returns it |
| `Templates.Template.Purge` | Template/Template.php:73-76 | Resets that placeholder's list to empty |
| `Templates.Template.GetSubs` | Template/Template.php:104-112 | Returns the placeholder's list, creating an empty entry when absent |
| `Templates.Template.ToString` | Template/Template.php:82-97 | Fills each placeholder in insertion order with its subtemplates' renderings, each followed by "\n"; the data is rewritten in place and returned |
| `Php.TrimRight` | Database/DatabaseSelectQuery.php:434 | rtrim removes exactly the trailing run of whitespace characters |
| `Php.TrimLeft` | Database/DatabaseSelectQuery.php:434 | ltrim removes exactly the leading run of whitespace characters |
| `Php.WithTrailingSlash` | ClassLoader/ClassLoader.php:49-52 | Appends "/" exactly when the path does not already end in "/" |
| `Php.Split` | ClassLoader/ClassLoader.php:54 | `explode` always gives at least one part, even for "" |
| `Php.SplitPartsFree` | ClassLoader/ClassLoader.php:54 | No part that `explode` gives contains the separator |
| `Php.JoinSplit` | ClassLoader/ClassLoader.php:117-120 | `implode(explode(s))` is s |
| `Php.SplitJoin` | ClassLoader/ClassLoader.php:91 | `explode(implode(parts))` gives the parts back when none contains the separator |
| `ClassLoaders.RootNamespaceRoundTrip` | ClassLoader/ClassLoader.php:117-120 | `getRootNamespace` returns the constructor's namespace string |
| `ClassLoaders.CandidateUnderRoot` | ClassLoader/ClassLoader.php:91-103 | A class under the root namespace maps to root path + remaining parts joined by "/" + ".php" |
| `ClassLoaders.CandidateOutside` | ClassLoader/ClassLoader.php:93-98 | A name that differs from the root namespace in any leading part is not loaded |
| `ClassLoaders.TrailingBackslashRoot` | ClassLoader/ClassLoader.php:93-103 | A root namespace ending in "\\" loads its bare name from root path + ".php" |
| `ClassLoaders.CandidateShort` | ClassLoader/ClassLoader.php:95 | A missing name part (`array_shift` on an empty array) compares loosely equal to "" |
| `ClassLoaders.Without` | ClassLoader/ClassLoader.php:80 | Unregistering removes the loader and keeps every other one |
| `ClassLoaders.Idempotent` | ClassLoader/ClassLoader.php:60-83 | `register` and `unregister` are idempotent, and set the flag accordingly |
| `ClassLoaders.RegisterUnregister` | ClassLoader/ClassLoader.php:60-83 | The flag says whether the loader is on the autoload stack; registering pushes it once; unregistering undoes a fresh registration |
| `ClassLoaders.ClassLoader.constructor` | ClassLoader/ClassLoader.php:44-55 | The root path gets a trailing "/" when missing, the namespace is split on "\\", and the loader starts unregistered |
| `ClassLoaders.ClassLoader.GetRootNamespace` | ClassLoader/ClassLoader.php:117-120 | Returns the namespace the constructor was given |
| `ClassLoaders.ClassLoader.Register` | ClassLoader/ClassLoader.php:60-69 | Applies `AfterRegister` to the flag and the autoload stack |
| `ClassLoaders.ClassLoader.Unregister` | ClassLoader/ClassLoader.php:74-83 | Applies `AfterUnregister` to the flag and the autoload stack |
| `ClassLoaders.ClassLoader.LoadClass` | ClassLoader/ClassLoader.php:89-111 | The `array_shift` loop answers exactly `Candidate`: no path unless the leading parts equal the root namespace |
| `Routing.WordSpanMeaning` | Mvc/Mvc.php:73 | `\w*` matches the longest run of word characters |
| `Routing.ParseComplete` | Mvc/Mvc.php:73 | Every path the pattern describes, with an optional extension and final newline, parses to its controller and action |
| `Routing.ParseSound` | Mvc/Mvc.php:73 | Every path that parses has exactly that shape, so the parser accepts nothing else |
| `Routing.ExtraSegmentRejected` | Mvc/Mvc.php:73 | A third segment makes the pattern fail |
| `Routing.RouteSegments` | Mvc/Mvc.php:73-76 | A matching path gives (C or the index controller, a or "index"), with "" and "0" counting as absent and the extension dropped |
| `Routing.RouteDefaults` | Mvc/Mvc.php:71-82 | A missing PATH_INFO, "/" or a non-matching path gives (index controller, "index") |
| `Routing.LoadController` | Mvc/Mvc.php:86-100 | Loads the named controller's file when it exists, else the index controller's, else throws naming the index controller |
| `Routing.ControllerFileInjective` | Mvc/Mvc.php:86 | Different controller names give different files |
| `Routing.AsWrittenFallbackWrong` | Mvc/Mvc.php:91-95 | As written, the fallback requires IndexController.php even when the index controller has another name |
| `Routing.DefaultIndexAgrees` | Mvc/Mvc.php:91-95 | With the default index controller "Index" the code as written and the intended code agree |
| `Routing.Mvc.constructor` | Mvc/Mvc.php:31-49 | Document root "../../", index controller "Index", empty namespace |
| `Routing.Mvc.SetDocumentRoot` | Mvc/Mvc.php:166-174 | Stores the root with one "/" appended only when missing |
| `Routing.Mvc.SetIndexController` | Mvc/Mvc.php:139-142 | Stores the index controller name |
| `Routing.Mvc.SetProjectNamespace` | Mvc/Mvc.php:148-151 | Stores the project namespace |
| `Routing.Mvc.HandleRequest` | Mvc/Mvc.php:69-105 | Routes PATH_INFO and loads the controller as `LoadController` says; the action method called is action + "Action" |

## Left out

- The operating system is not modelled. This covers `socket_create`, `connect`, `bind`, `listen`, `accept`, `read`, `write`, `select`, `close` and `getpeername`. Their answers are inputs (`Sockets.Io`, `writeOk`, `fails`). The TCP and Unix socket subclasses are only this glue, so they are not part of this model.
- `TransportSocket::getPeerName` and `getLastSocketError` only format OS answers, so they are not modelled.
- Wall-clock time in throttling: `microtime(true)` is a float, and `writing_throttle_peak` is documented as a double (Socket/TransportSocket.php:69). The model uses an integer clock `now` and an integer peak, and bps counts bytes per clock unit.
- The PHP destructor calling `destroy` (Socket/Socket.php:122-125) is left out: object lifetime has no Dafny counterpart.
- Listeners are opaque ids, and `triggerEvent` records its calls in a trace. A listener re-entering the sockets during a trigger is not modelled.
- Logging (`PF::log`) is a no-op. This includes the warning `writeLine` logs when a line contains ending characters.
- Reading and parsing files is not modelled. `parse_ini_file`'s result and `file_exists` are inputs (`Configs.Disk`, the `files` sets). `require`, `call_user_func` and `spl_autoload_*` are not modelled. `ClassLoader.LoadClass` returns the candidate path instead of including it, and `Mvc.HandleRequest` returns the controller and action to call.
- Executing queries through PDO is not part of this model.
- `DatabaseConjunction` and `DatabaseDisjunction` are not part of the model's source. Their `getConnective` words are a parameter (`DatabaseConnectives.Words`).
- HAVING and ORDER BY in `DatabaseSelectQuery` are not modelled. `having` appends with `[]` to a string component (Database/DatabaseSelectQuery.php:187), and `order` pushes an undefined `$having` (Database/DatabaseSelectQuery.php:206), so no ORDER BY is ever produced.
- Template files (`TemplateFile`) are left out because they read the filesystem. A template's data is given as text.
- Template subtemplates are values (`Templates.Tree`), not shared objects. The model therefore does not capture a subtemplate changed after it was added, or a template added under itself.
- Socket objects live as values inside `Sockets.Reactor.sockets`, not as shared PHP objects. The reading and writing `LineStringBuffer`s of a transport are strings handled by the `LineStringBuffers` functions. The drain and flush loops run on a fresh `LineStringBuffer` object.
- PHP loose comparison is modelled only where the code relies on it. This covers `empty()`, truthiness, `!= null` treating 0 as null, and a missing `array_shift` part equal to "".
- PHP integer overflow in `limit`, quotas and ids is not modelled. Dafny integers are unbounded.
- `Sockets.Reactor.DispatchAll`: states the number of dispatches, their order in the call log, that nothing is dispatched when nothing is selected, and why it stops early. It does not say, for the whole tick, which socket each dispatch reached. `FindOwner` and `OwnerIsFirst` state that per dispatch.
- `Sockets.Reactor.Poll`: states the phase order, the readers offered and the number of dispatches. The state changes of each handler are stated by `ReadSelect`, `Accept`, `PrePoll` and `PostPoll`, not composed over a whole poll.
- `Sockets.Reactor.HandleSelectEvent`: states exactly when it throws, that a throw changes nothing, and that the registry stays consistent. What it does otherwise is stated by `ReadSelect` and `Accept`.
- A poll stops at a readable resource that no registered socket owns. PHP would call `handleSelectEvent` on null there and die.
- `Configs.Lookup`: only plain decimal keys ("1", "12") are read as string offsets. Other keys PHP may also read as offsets are treated as missing keys: leading zeros or blanks ("01", " 1"), and negative keys, which newer PHP versions count from the end. PHP before 5.4 read any key on a string as offset 0; that is not modelled either.

## Findings

| source | as written | input that shows it | evidently intended | confidence | as-written member | corrected member |
|---|---|---|---|---|---|---|
| Socket/TransportSocket.php:357 | `isWriteThrottlingEnabled` reads the undefined local `$writing_throttle_bps`, so it is always false | `enableWriteThrottling(10, 2)`, then `isWriteThrottlingEnabled()` | compare `$this->writing_throttle_bps` with null | high, not executed | `TransportSockets.ThrottlingLostAsWritten` | `TransportSockets.EnableThrottling` |
| Database/DatabaseUpdateQuery.php:100 | the table line reads the undefined constant `UPDATE_FROM`, a fatal error | `table("t")->set(["a" => "1"])` then `__toString()` | read `UPDATE_TABLE` | high, not executed | `UpdateQueries.AsWrittenNeverRenders` | `UpdateQueries.UpdateAccepted` |
| Database/DatabaseInsertQuery.php:74 | the table line reads `UPDATE_FROM`, which this class does not define | `table("t")->values(["a" => "1"])` then `__toString()` | read `INSERT_TABLE` | high, not executed | `InsertQueries.AsWrittenRejectsComplete` | `InsertQueries.InsertAccepted` |
| Memory/Memory.php:35 | the error message uses the undefined `$section`, so it never names the missing key | `get("a")` and `get("b")` on an empty store give the same message | name `$key` in the message | high, not executed | `MemoryStore.AsWrittenHidesKey` | `MemoryStore.MissingNamesKey` |
| Mvc/Mvc.php:94-95 | the fallback requires `IndexController.php` and calls `IndexController`, whatever the index controller's name | `setIndexController("Home")`, only HomeController.php present, request "/Missing" | load the configured index controller | medium, not executed | `Routing.AsWrittenFallbackWrong` | `Routing.LoadController` |
