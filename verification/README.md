# Ymir core: models and proofs

Ymir is a container management daemon. It carries its own small C++ library (maps, vectors,
strings, shared pointers, a task queue, a JSON reader and writer) and keeps an index of the
deployment units it has installed. This project models that library and that index in Dafny and
proves what the rest of the daemon relies on. `dafny verify dfyconfig.toml` checks all of it.

Code that updates objects in place is modelled by classes and methods on the heap, with the same
branches and loops. Each such method is proved against a function of its inputs or of the old
state, and the lemmas are about those functions.

## Contents

| module (file) | what it is |
|---|---|
| `Options`, `Sequences` | an optional value; insertion into a sequence |
| `SortedEntries` | what an ordered map holds, as a sorted sequence of entries; its operations are those of a finite map |
| `SkipLevels` | the levels of a skip list, as arithmetic on tower heights |
| `SkipNodes`, `SkipMaps` (SkipMap.dfy) | the skip list on the heap: nodes, pointer surgery, and the map class |
| `Text`, `Decimal` | `strcmp` order; integers to text and back |
| `Json`, `JsonParsing` (JsonParser.dfy), `JsonRoundTrip` | values, serializer, parser, and what a round trip does to a value |
| `JsonGrammar`, `JsonStandard` | a strict reader of RFC 8259, and which serialized texts it accepts |
| `TaskQueues` (TaskQueue.dfy), `QueueProtocol`, `QueueHistory`, `QueueLiveness` | the linked queue, the worker protocol as a step relation, what its runs have done, and its fair runs |
| `SharedPtrs` (SharedPtr.dfy), `Vectors` (Vector.dfy) | reference counting; the growing array |
| `CStrings` (CString.dfy), `Splitting`, `Paths` | string buffers, searching and splitting, path normalisation |
| `UnitIndex` | the deployment-unit map and its saved index |

## How to read the model

**Skip-list map.** `SkipMap.Valid` is the whole shape in one place. With the head at position 0
and the data nodes behind it in key order, a link of the node at position `p` on level `l` leads
to the first later node that is on level `l`; where there is none it leads to the tail on level 0
and to null above. Back links mirror level 0, `max` is the highest level in use, `size` the number
of entries, and no node of the list has been deleted. Keys are compared by a function `less` that
must be a strict total order agreeing with `==`. `rand()` is a parameter `coins` on which nothing
is assumed, so every result holds for every sequence of level draws. `delete` sets a ghost flag
and is refused a second time, which is how "freed exactly once" is stated. The scratch array
`_updated` is a local sequence, and `_max` and `_size` are set together once the pointers are
rewired. `SkipMap.Erase` asks that some key is not below the erased one, since the source
otherwise looks at the key of the tail, which has none (`include_priv/utils/map.h:415`).

**JSON.** The parser's buffer is the text in front of the first NUL; erasing from it is what
`CString.Erase` is shown to do, also with a length field that is too large. `ParsedValue` says, as
a function of the unread text, what the parser makes of it; `Stuck` marks the texts on which the
source runs past the end of the buffer or loops without advancing. `JsonParser` is the cursor
itself, proved to compute `ParsedValue` and to terminate wherever that is not `Stuck`. A number
that `stod` reads without rounding, which is any whole number up to 2^53, is computed; what
becomes of a number with a point or of a larger one is a parameter `inexact` on which nothing is
assumed, so every result holds however those are rounded. An exponent is read over: `stod` stops
in front of it. `%.17g` of a 32-bit integer is its `%d` text. Strings and keys with a backslash do
not survive a round trip: the serializer escapes backslashes, the parser takes only those in front
of quotes away, so each comes back doubled, and a string that ends in one swallows the closing
quote. `RoundTrip` is therefore an equivalence.

`JsonGrammar.Text` reads a text by the grammar of RFC 8259, sections 2 to 7, every character of
it, and says what it stands for; it knows nothing of the serializer. What the serializer writes is
such a text for every value in which no string and no key has a control character, and for no
other: `serializeString` writes control characters as they are, where section 7 wants them escaped
(`SerializedIsStandard`). Strings are compared by code units, without a look at their encoding.

**Task queue.** A step of `QueueProtocol` is one statement between two points where another thread
may run. Any number of clients, one worker. Waiting releases the mutex and falls asleep in one
step, a signal to nobody is lost, and the worker may wake up without one. The queue inside a step
is a sequence; `TaskQueues.Queue` is the linked structure that refines it. `isFinished` can answer
true while an added task has not begun to run: it says that the queue is empty, no more
(`FinishedBeforeRun`, `IsFinishedMeansTaken`). `QueueHistory` reads off a run which calls were
made and which have taken effect, and shows the state to be exactly what they make of it.

**Shared pointers.** `Consistent` relates the live handles to all count cells ever made. `ModelOf`
is a run without a heap, on a list that says for each handle which cell it is on, cells being
numbered in the order they are made. `Run` carries out any sequence of operations on real handles
and ends as `ModelOf` says, with exactly those cells alive that the model's list still names.

**Strings.** `operator+=` on a C string counts the appended characters twice in the length field,
while the bytes stay right (`CString.Append`). Since `==` compares length fields and `<` does not,
two strings with one text and different fields are neither ordered nor equal, and a map keyed by
one does not find the other (`UnequalTwins`); `OrderFitsEquality` says when the two fit. `rfind`
bounds the end of a match by `pos`; `std::string` bounds its start.

**Deployment-unit index.** json-c is taken to print and parse its values faithfully. The container
steps and the write of the index file are parameters with any outcome: a write can fail to open
the file, fail after truncating it, be cut short, which the source does not notice, or succeed. A
cut index has no closing bracket and cannot be parsed. A fresh process ignores that and starts
with no units, so `InSync` asks that the units in memory are those a fresh process would have. A
rolled-back addition removes the unit that has the uuid, which is an older one if the uuid was not
new (`RollbackRestores`). A write that fails can leave file and map apart for good
(`FailedWriteBreaksSync`); `AddKeeps` and `RemoveKeeps` name exactly the outcomes in which it does
not, and `RunSync` carries that over whole runs.

## Model

| member | source | states |
|---|---|---|
| SortedEntries.InsertAbsentIsMapInsert | include_priv/utils/map.h:339-383 | the contents left by insertion are sorted and are the old finite map with the item added, or unchanged if the key was there |
| SortedEntries.PutIsMapUpdate | include_priv/utils/map.h:279-286 | assignment through `operator[]` is the map update, whether the key was there or not |
| SortedEntries.RemoveAfterInsert | include_priv/utils/map.h:339-440 | erasing a key after inserting it leaves what erasing it before would have |
| SortedEntries.PutAfterInsert | include_priv/utils/map.h:279-286 | inserting a default and then assigning to it is the same as one update |
| SortedEntries.RemoveIsMapRemove | include_priv/utils/map.h:396-440 | erasure removes exactly that key from the finite map and keeps the order |
| SortedEntries.CanonicalForm | include_priv/utils/map.h:680-698 | two sorted sequences are the same map if and only if they are the same sequence, so iteration shows all there is to a map |
| SortedEntries.RankFinds | include_priv/utils/map.h:505-525 | the only place where a key can be is the one behind the keys below it, and it is there if and only if it occurs at all |
| SortedEntries.InsertSorted | include_priv/utils/map.h:580-588 | inserting the entries of a map one by one into an empty one rebuilds it |
| SkipLevels.StepCrosses | include_priv/utils/map.h:345-356 | on every level only the last node in front of a position steps across it, and it steps to the first node behind it |
| SkipLevels.FirstBefore | include_priv/utils/map.h:366-372 | where each step from in front of a splice leads once a tower is spliced in: a crossing step stops at the tower if it is tall enough, all others keep their target |
| SkipLevels.FirstAfter | include_priv/utils/map.h:366-372 | steps from behind a splice keep their target, moved by one place |
| SkipNodes.Node.constructor | include_priv/utils/map.h:991-1008 | a node has null links on levels 0 to its level, no back link, and its item if it has one |
| SkipNodes.RandomLevel | include_priv/utils/map.h:298-312 | the level is the number of coins won up to the first loss or the top level; `max` rises to it and the head becomes the splice point of the new levels, which is the last node on them |
| SkipNodes.Rewire | include_priv/utils/map.h:366-372 | for arbitrary splice points, the pointer loop moves each splice point's link into the new node and changes nothing else |
| SkipNodes.NextAfterInsertion | include_priv/utils/map.h:366-372 | every link of the new order is a link of the old one, except that the last node in front leads to the new node on each of its levels |
| SkipNodes.LinkedAfterInsertion | include_priv/utils/map.h:366-372 | the rewired nodes are linked on every level as the new order demands |
| SkipNodes.LinkBack | include_priv/utils/map.h:373-379 | after it the back links mirror the new order |
| SkipNodes.InsertNode | include_priv/utils/map.h:366-379 | forward and back links fit the new order, items are untouched |
| SkipNodes.Unwire | include_priv/utils/map.h:415-420 | the loop that stops at the first level not leading to the node hands over exactly that node's links, on its levels and no other |
| SkipNodes.NextAfterRemoval | include_priv/utils/map.h:415-420 | every link of the shorter order is a link of the longer one, except that splice points take over the removed node's links |
| SkipNodes.LinkedAfterRemoval | include_priv/utils/map.h:415-420 | the unspliced nodes are linked on every level as the shorter order demands |
| SkipNodes.UnlinkBack | include_priv/utils/map.h:422-428 | the back link behind the node is repaired, and the extra write to the predecessor changes nothing |
| SkipNodes.RemoveNode | include_priv/utils/map.h:415-428 | the node is out of every level and of the back links; all nodes keep their items |
| SkipNodes.TakeOut | include_priv/utils/map.h:415-433 | the node is deleted; the others form a well-shaped list, none of them deleted, with the contents less one entry and a right top level, and all keep their items |
| SkipNodes.PutIn | include_priv/utils/map.h:366-380 | the new node and the others form a well-shaped list with the contents and one entry more, and all keep their items |
| SkipNodes.LowerMax | include_priv/utils/map.h:431-433 | `max` is again the highest level in use, 0 if none is |
| SkipNodes.Sentinels | include_priv/utils/map.h:624-648 | a fresh head and tail form a well-shaped empty list |
| SkipNodes.DeleteAll | include_priv/utils/map.h:603-611 | the loop deletes head, every node and tail, none twice |
| SkipNodes.LevelsNest | include_priv/utils/map.h:366-372 | each level is a subsequence of every level below it |
| SkipNodes.LevelIsThreaded | include_priv/utils/map.h:344-356 | following the links of a level visits exactly the nodes on it, in order, and ends at the tail or at null |
| SkipMaps.SkipMap.constructor | include_priv/utils/map.h:575-577 | an empty, well-shaped map on nodes of its own |
| SkipMaps.SkipMap.Advance | include_priv/utils/map.h:346-348 | the inner loop ends at the last node of the level below the key and never uses a link the node does not have |
| SkipMaps.SkipMap.Predecessors | include_priv/utils/map.h:344-356 | the splice point found on each level is the last node below the key on it |
| SkipMaps.SkipMap.FindAtBottom | include_priv/utils/map.h:505-525 | the multi-level descent returns the node of the key if and only if the key is in the map, else null |
| SkipMaps.SkipMap.Insert | include_priv/utils/map.h:339-383 | shape kept; contents are insert-if-absent and the flag says whether it was absent, for every outcome of the coins; the node returned holds the key; no other node changes its item or place |
| SkipMaps.SkipMap.Index | include_priv/utils/map.h:279-286 | finds or inserts the default, and returns the node of the key |
| SkipMaps.SkipMap.Set | liblxcd/json.cpp:133-137 | `obj[key] = value` updates the contents at that key |
| SkipMaps.SkipMap.Erase | include_priv/utils/map.h:396-440 | shape kept; contents lose exactly the key; the node of the key is out of the order and deleted, all others stay where they were with their items |
| SkipMaps.SkipMap.EraseAt | include_priv/utils/map.h:443-488 | the same for the node an iterator stands on: that very node goes |
| SkipMaps.SkipMap.Walk | include_priv/utils/map.h:680-688 | from `begin` to `end`: the entries in key order |
| SkipMaps.SkipMap.WalkBack | include_priv/utils/map.h:701-708 | from `rbegin` to `rend`: the exact reverse, place by place |
| SkipMaps.SkipMap.LevelsAreThreaded | include_priv/utils/map.h:298-383 | in every valid map each level is threaded from the head to its end, is a subsequence of the level below, and level 0 has every node |
| SkipMaps.SkipMap.LessThan | include_priv/utils/map.h:554-572 | the loop computes the order by size and then by keys |
| SkipMaps.MapLessDecides | include_priv/utils/map.h:554-572 | that order is asymmetric, and leaves two maps unordered if and only if they have the same keys |
| SkipMaps.MapLessIsTransitive | include_priv/utils/map.h:554-572 | that order is transitive |
| SkipMaps.SkipMap.InsertRange | include_priv/utils/map.h:385-393 | range insertion inserts each item that is absent at its turn |
| SkipMaps.SkipMap.Clone | include_priv/utils/map.h:580-588 | a copy has the same contents on fresh nodes |
| SkipMaps.SkipMap.MapCtor | include_priv/utils/map.h:624-648 | an object gets a fresh empty list |
| SkipMaps.SkipMap.Destroy | include_priv/utils/map.h:603-611 | head, tail and all nodes are deleted, each once |
| SkipMaps.SkipMap.Assign | include_priv/utils/map.h:315-336 | the contents become the other map's, on fresh nodes; the old nodes are all deleted; assignment to itself does nothing; the other map stays valid |
| SkipMaps.SkipMap.Run | include_priv/utils/map.h:279-440 | any run of insertions, assignments and erasures, with any coins, keeps the shape and leaves the contents that the run has on sorted sequences |
| SkipMaps.RunIsMapRun | include_priv/utils/map.h:279-440 | the contents after a run are those of the same run on a finite map, in which the coins play no part |
| SkipMaps.MapLessSubset | include_priv/utils/map.h:554-572 | a map whose keys are some but not all of another's is less than it |
| SkipMaps.MapLessAt | include_priv/utils/map.h:554-572 | of two maps of one size the one with the smaller key where they first differ is less |
| Text.StrLessIsTotalOrder | liblxcd/string.cpp:93-95 | `strcmp` order is a total order, so a map can be keyed by texts; for strings see `CStrings.OrderFitsEquality` |
| Decimal.Stoi | liblxcd/string.cpp:306-328 | in 32-bit arithmetic it reads the leading digits with their sign, and overflows nowhere if the magnitude fits |
| Decimal.ValueOrder | liblxcd/string.cpp:306-334 | strings of digits of one length are ordered as the numbers they are, equal only if the same, and below ten to their length: so each digit and each place counts what it should |
| Decimal.StoiReads | liblxcd/string.cpp:306-328 | digits behind a minus sign, a plus sign or no sign are that number, whatever stands behind them |
| Decimal.StoiOfToString | liblxcd/string.cpp:306-334 | `stoi` undoes `to_string`; of all 32-bit integers only the smallest overflows |
| Decimal.Stod | liblxcd/string.cpp:275-304 | on any text, in exact arithmetic: all digits up to the first character that is none, shifted by the number of them behind the first point, negative if there is a minus sign anywhere |
| Decimal.StodReads | liblxcd/string.cpp:275-304 | digits in front of a point count as they are, digits behind it as fractions; the minus sign decides the sign, an exponent does not matter |
| Decimal.ShiftIsPower | liblxcd/string.cpp:284-288 | dividing the factor by ten once a digit is the power of ten it should be |
| Decimal.StodOfToString | liblxcd/string.cpp:275-334 | `stod` undoes `to_string` on integers |
| Decimal.EightDigitsSurvive | liblxcd/string.cpp:336-340 | the `%.8g` text of an integer is read back as that integer, and is its `%d` text, if and only if it has at most eight digits |
| Decimal.PrintedReadsBack | liblxcd/string.cpp:336-340 | a whole number of at most eight digits, minus zero included, is printed so that `stod` reads the same sign and magnitude |
| Decimal.ScientificIsNearest | liblxcd/string.cpp:336-340 | the text of a longer one, read from its characters, has the sign, a mantissa of at most eight digits without zeros at either end, and an exponent of at least two digits, and is the nearest such number, the even one when halfway |
| Json.ChangesOfValues | liblxcd/json.cpp:121-137 | `set` updates the map of an object, also at a key it has, `append` adds at the end of an array; on other values they do nothing |
| Json.SerializeString | liblxcd/json.cpp:255-266 | the loop writes the quoted string with a backslash in front of each quote and backslash |
| Json.SerializeValue | liblxcd/json.cpp:237-253 | the text of a value is that of the recursive specification, which `JsonStandard` and `JsonRoundTrip` are about |
| Json.SerializeArray | liblxcd/json.cpp:291-304 | elements in order with a comma between any two |
| Json.SerializeObject | liblxcd/json.cpp:274-289 | members in key order with a comma between any two |
| JsonStandard.SerializedIsStandard | liblxcd/json.cpp:230-312 | the text of every value is a text of RFC 8259 that stands for that value, with words, digits, strings, elements and members in place, if and only if no string or key in it has a control character |
| JsonStandard.SerializeStandard | liblxcd/json.cpp:233-253 | the same of the serializer itself |
| JsonStandard.CharactersOf | liblxcd/json.cpp:255-266 | an escaped string is read back by section 7 if and only if it has no control character |
| JsonParsing.NumberCharacters | liblxcd/json.cpp:48 | which characters a number is made of |
| JsonParsing.JsonParser.PassCharacter | liblxcd/json.cpp:35-40 | one turn of the string loop leaves what was read as it was and moves the unread text without changing it |
| JsonParsing.JsonParser.ParseString | liblxcd/json.cpp:33-44 | unescaping in the buffer computes the pure unescape, leaves the text behind the string unchanged, and terminates |
| JsonParsing.JsonParser.ParseNumber | liblxcd/json.cpp:46-53 | the number is the longest run of number characters, kept as the `%.8g` text of what `stod` reads |
| JsonParsing.JsonParser.ParseObject | liblxcd/json.cpp:55-69 | members are set in order of appearance, the cursor ends behind the brace |
| JsonParsing.JsonParser.ParseArray | liblxcd/json.cpp:71-83 | elements are appended in order, the cursor ends behind the bracket |
| JsonParsing.JsonParser.ParseValue | liblxcd/json.cpp:15-31 | the mutually recursive parser computes `ParsedValue` of the unread text and terminates |
| JsonRoundTrip.StringSurvives | liblxcd/json.cpp:33-44 | scanning an escaped string gives it back, stopping at its quote, if and only if it holds no backslash |
| JsonRoundTrip.ScanEscaped | liblxcd/json.cpp:33-44 | any string that does not end in a backslash comes back with its backslashes doubled |
| JsonRoundTrip.ParsedIsClosed | liblxcd/json.cpp:15-83 | no value that is ever parsed holds a string or key ending in a backslash, so a value that does cannot come back |
| JsonRoundTrip.NumberReturns | liblxcd/json.cpp:46-53 | a serialized number is parsed up to its end and comes back rounded to eight digits |
| JsonRoundTrip.ValueReturns | liblxcd/json.cpp:15-98 | for every nested value without strings ending in a backslash: what comes back, and that parsing stops at the end of its text before anything that does not prolong a number |
| JsonRoundTrip.ReturnedIsSame | liblxcd/json.cpp:11-98 | what comes back is the value itself if and only if it has no backslash and only integers of at most eight digits in their own notation |
| JsonRoundTrip.RoundTrip | liblxcd/json.cpp:11-312 | for every representable value and every such remainder: parsing its text gives the value back and stops at its end if and only if that condition holds |
| JsonRoundTrip.SerializeAndParse | liblxcd/json.cpp:11-312 | the same of the serializer and the parser run one after the other |
| TaskQueues.Queue.Enqueue | liblxcd/lxcqueue.cpp:84-93 | the linked queue grows by the value at its end |
| TaskQueues.Queue.Dequeue | liblxcd/lxcqueue.cpp:96-108 | takes the oldest value and frees its node; the default if empty |
| TaskQueues.Queue.IsEmpty | liblxcd/lxcqueue.cpp:111-113 | true if and only if nothing is queued |
| TaskQueues.Queue.Destroy | liblxcd/lxcqueue.cpp:77-81 | every node is freed, none twice |
| QueueProtocol.StepKeepsInv | liblxcd/lxcqueue.cpp:15-71 | every step of every thread keeps the invariant of mutex, order, wake-ups and exit |
| QueueProtocol.ReachableInv | liblxcd/lxcqueue.cpp:15-71 | the invariant holds in every reachable state, for any number of clients |
| QueueProtocol.TasksInOrder | liblxcd/lxcqueue.cpp:53-71 | added tasks are the deleted ones, the one in flight and the queued ones, in order; runs, callbacks with the code of their run, and deletions follow that order |
| QueueProtocol.AtMostOnce | liblxcd/lxcqueue.cpp:53-71 | no task that is added once is run, called back or deleted twice |
| QueueProtocol.NoWakeUpIsLost | liblxcd/lxcqueue.cpp:15-38 | the worker never sleeps with something queued or a stop set, unless a client inside the mutex is about to signal |
| QueueProtocol.MutualExclusion | liblxcd/lxcqueue.cpp:15-71 | no two threads are inside the mutex, and the worker is not while a task is run, called back or deleted |
| QueueProtocol.LeavesOnlyWhenDone | liblxcd/lxcqueue.cpp:56-63 | the worker dequeues only from a non-empty queue and leaves only stopped, with every added task deleted |
| QueueProtocol.IsFinishedMeansTaken | liblxcd/lxcqueue.cpp:40-45 | the answer is true if and only if every added task is deleted or in flight; nothing is changed and nobody woken by asking |
| QueueProtocol.FinishedBeforeRun | liblxcd/lxcqueue.cpp:40-45 | a reachable state in which the answer was true and the only task has not begun to run |
| QueueProtocol.StoppedRun | liblxcd/lxcqueue.cpp:32-38 | once stopped, the steps the worker takes in any run without additions are bounded by a measure of where it starts |
| QueueProtocol.StoppedWorkerIsNotStuck | liblxcd/lxcqueue.cpp:53-71 | a stopped worker that has not left can step, or the client inside the mutex can |
| QueueProtocol.StopDrains | liblxcd/lxcqueue.cpp:32-71 | once a client's `stop` has taken effect, and without later additions, the worker takes boundedly many steps; where none is left it is gone with every added task deleted; and every such run can be taken on to there |
| QueueProtocol.UrgentRunsEnd | liblxcd/lxcqueue.cpp:32-71 | if only the worker and the client inside the mutex are scheduled after a stop, every run ends within a bound known at its start |
| QueueLiveness.StopLeadsToExit | liblxcd/lxcqueue.cpp:32-71 | in every infinite run that does not withhold the mutex from the worker for ever and lets the client inside it go on, the moment at which a client's `stop` takes effect, without later additions, is followed by the exit, with every added task run, called back and deleted |
| QueueProtocol.StopReachesExit | liblxcd/lxcqueue.cpp:32-71 | once a client's `stop` has taken effect, these two alone get the worker to its exit with every added task deleted |
| QueueLiveness.AddedIsFinished | liblxcd/lxcqueue.cpp:15-71 | in every such run each task that is added while the worker is there is run, called back and deleted in the end, in its turn, stop or no stop |
| QueueHistory.StoppedByStop | liblxcd/lxcqueue.cpp:5-71 | for every run from the start: it ends stopped if and only if a client's `stop` took effect in it; the tasks added, the answers given and the codes that callbacks get are those of its additions, questions and runs |
| QueueHistory.CallsTakeEffect | liblxcd/lxcqueue.cpp:15-45 | what each client calls takes effect as called, in the order of its calls, up to the one that still waits |
| QueueHistory.CallCanTakeEffect | liblxcd/lxcqueue.cpp:15-45 | in every reachable state an idle client can call any operation and bring it to its effect |
| SharedPtrs.SharedPtr.Own | include_priv/utils/sharedptr.h:14-15 | a handle on a fresh cell that counts it |
| SharedPtrs.SharedPtr.Copy | include_priv/utils/sharedptr.h:16-20 | one more handle on the cell, counted |
| SharedPtrs.SharedPtr.Move | include_priv/utils/sharedptr.h:52-57 | the share changes hands, the count stays |
| SharedPtrs.SharedPtr.Reset | include_priv/utils/sharedptr.h:71-81 | the share is given up; cell and object are freed if and only if this was the last handle |
| SharedPtrs.SharedPtr.Assign | include_priv/utils/sharedptr.h:28-38 | counts stay right, also between two handles that already share and from a handle to itself |
| SharedPtrs.SharedPtr.MoveAssign | include_priv/utils/sharedptr.h:59-68 | the same for move assignment |
| SharedPtrs.SharedPtr.UseCount | include_priv/utils/sharedptr.h:94-96 | the number of live handles on the cell |
| SharedPtrs.OwnedIsLive | include_priv/utils/sharedptr.h:12-81 | what a live handle is on has not been freed |
| SharedPtrs.FreedWithoutHandles | include_priv/utils/sharedptr.h:71-81 | cell and object have been freed if and only if no live handle is on the cell |
| SharedPtrs.Apply | include_priv/utils/sharedptr.h:12-81 | which cell each handle is on after each operation, which operations make a cell, and all counts right |
| SharedPtrs.FollowOn | include_priv/utils/sharedptr.h:12-81 | an operation does the same to the cells on the heap and to their numbers in the model |
| SharedPtrs.Run | include_priv/utils/sharedptr.h:12-81 | after any sequence of operations the handles are on the cells that the model of that sequence says, every count is right, and a cell and its object have been freed, once, if and only if no handle of the model is on the cell |
| Vectors.Vector.Reserve | include_priv/utils/impl_vector.hpp:116-126 | contents kept, and how many elements were copied |
| Vectors.Vector.PushBack | include_priv/utils/impl_vector.hpp:86-91 | appends; capacity doubles when full, at the price of copying the elements |
| Vectors.Vector.PushAll | include_priv/utils/impl_vector.hpp:86-126 | n pushes from empty copy capacity - 1, fewer than 2n, elements, and leave the pushed sequence |
| Vectors.Vector.Insert | include_priv/utils/impl_vector.hpp:139-148 | is insertion into the sequence |
| Vectors.Vector.Erase | include_priv/utils/impl_vector.hpp:2-15 | is removal of one element, nothing at the end; the iterator it returns is one place too far, past the end if and only if the last element went |
| Vectors.Vector.EraseRange | include_priv/utils/impl_vector.hpp:18-34 | is removal of the slice; the iterator it returns stands on what followed it |
| Vectors.Vector.Resize | include_priv/utils/impl_vector.hpp:129-137 | keeps the elements there is room for and fills up with the default |
| CStrings.ReplaceIsEraseThenInsert | liblxcd/string.cpp:342-359 | replacing is erasing and then inserting, from every start up to the length |
| CStrings.EraseUndoesInsert | liblxcd/string.cpp:142-154 | erasing what was inserted restores the text |
| CStrings.CString.Copy | liblxcd/string.cpp:11-13 | the copy has the text and the length field, and a buffer that fits the field |
| CStrings.CString.Erase | liblxcd/string.cpp:142-154 | shifting in the buffer erases from the text; the length field stays right if it was, and the text is right even if it was not |
| CStrings.CString.Insert | liblxcd/string.cpp:239-249 | is insertion into the text if the length fields are right; if not, what stands behind a NUL is not seen |
| CStrings.CString.Replace | liblxcd/string.cpp:342-359 | is replacement in the text, nothing beyond the length; the text is right even if the length field was not |
| CStrings.CString.Reserve | liblxcd/string.cpp:255-268 | growing keeps the text but moves the length field, shrinking cuts the text but keeps the field |
| CStrings.CString.Equals | liblxcd/string.cpp:86-88 | decides whether both text and length field agree |
| CStrings.CString.Less | liblxcd/string.cpp:93-95 | decides the order of the texts |
| CStrings.OrderFitsEquality | liblxcd/string.cpp:86-95 | not being ordered and being equal are the same for two strings if and only if their length fields agree whenever their texts do, and so if both fields are right |
| CStrings.AppendedEqual | liblxcd/string.cpp:86-123 | two strings built from nothing with `+=` are equal if and only if their texts are, since the fields are wrong alike |
| CStrings.UnequalTwins | liblxcd/string.cpp:86-123 | two strings with one text, neither less than the other, that are not equal |
| CStrings.CString.Append | liblxcd/string.cpp:117-123 | appends to the text, in the old or a fresh buffer, and counts what it appends twice, so the length field is right after it if and only if nothing was appended |
| Splitting.Find | liblxcd/string.cpp:156-162 | the first match from `pos` on, `npos` if there is none |
| Splitting.RFind | liblxcd/string.cpp:187-201 | the last match that ends at or before `pos` |
| Splitting.SplitPieces | liblxcd/string.cpp:130-140 | joining undoes splitting; the pieces are free of the delimiter and one more than there are delimiters |
| Splitting.SplitOfJoin | liblxcd/string.cpp:130-140 | splitting undoes joining of delimiter-free pieces |
| Splitting.SplitText | liblxcd/string.cpp:130-140 | the loop up to the terminator splits |
| Splitting.TokenizeLine | include_priv/utils/linux.h:103-115 | the `find`/`substr` loop splits at spaces |
| Splitting.BothTokenizers | include_priv/utils/linux.h:103-115 | it agrees with `split(' ')` on every line |
| Paths.ReplaceDoubleSlashes | src/backend/uhttpd/httphandler.cpp:197-212 | the flag-driven loop makes every run of slashes one slash, in a string whose length field is twice its length |
| Paths.CollapsedIsNormal | src/backend/uhttpd/httphandler.cpp:197-212 | no two slashes are left side by side, it is idempotent, and it changes exactly the paths that have some |
| Paths.CollapsedKeepsSegments | src/backend/uhttpd/httphandler.cpp:197-212 | the non-empty segments stay, in order, and so does the leading slash |
| Paths.CollapsedKeepsTrail | src/backend/uhttpd/httphandler.cpp:197-212 | the trailing slash stays |
| Paths.CollapsedIsSpelt | src/backend/uhttpd/httphandler.cpp:197-212 | a normalised path is its segments joined by single slashes, with its outer slashes |
| Paths.PathEquality | src/backend/uhttpd/httphandler.cpp:263-268 | two normal forms are equal if and only if segments, leading and trailing slash agree |
| Paths.ArePathsEqual | src/backend/uhttpd/httphandler.cpp:263-268 | the comparison, of texts and of length fields, decides exactly that, so it is an equivalence |
| UnitIndex.SaveUnit | liblxcd/deployment_unit_helper.cpp:354-387 | the tree built by the loops is the saved form of the unit |
| UnitIndex.SavedUnit | liblxcd/deployment_unit_helper.cpp:354-387 | the fields of a saved unit and of its execution units, by name, and no others |
| UnitIndex.MissingFields | liblxcd/deployment_unit_helper.cpp:305-340 | missing numbers are read as zero, a missing flag as false, a missing list of execution units as empty |
| UnitIndex.FirstIsKept | liblxcd/deployment_unit_helper.cpp:340 | of two units with one uuid in a file the first one is kept |
| UnitIndex.LoadUnit | liblxcd/deployment_unit_helper.cpp:305-340 | the loops read the unit that the saved form stands for |
| UnitIndex.LoadUndoesSave | liblxcd/deployment_unit_helper.cpp:279-410 | loading what was saved gives every unit back, with all saved fields and its lists in order, when each key is its unit's uuid |
| UnitIndex.DeploymentUnitHelper.constructor | liblxcd/deployment_unit_helper.cpp:6-8 | a fresh process has the units that the file loads as, none if it is missing or damaged |
| UnitIndex.DeploymentUnitHelper.SaveCache | liblxcd/deployment_unit_helper.cpp:350-410 | what the file holds after a write that cannot open it, fails, is cut short or succeeds; the last two are both reported as success |
| UnitIndex.DeploymentUnitHelper.LoadCache | liblxcd/deployment_unit_helper.cpp:279-347 | the units of the file are inserted in order; a missing file is no error, a damaged one is |
| UnitIndex.DeploymentUnitHelper.RemoveDeploymentUnit | liblxcd/deployment_unit_helper.cpp:236-277 | map, file and answer after every outcome of the outside steps |
| UnitIndex.DeploymentUnitHelper.AddDeploymentUnit | liblxcd/deployment_unit_helper.cpp:44-122 | map and file after every outcome, both rollbacks included, and the unit returned |
| UnitIndex.RemovalNeedsAll | liblxcd/deployment_unit_helper.cpp:236-277 | without a container, of one not defined, with a failed `duRemove`, or without such a unit, a removal changes nothing; otherwise exactly that unit goes, and what becomes of the file |
| UnitIndex.AdditionNeedsAll | liblxcd/deployment_unit_helper.cpp:51-98 | an addition fails without a trace for each of its six reasons, a name that is empty or has a space among them |
| UnitIndex.AdditionAdds | liblxcd/deployment_unit_helper.cpp:84-119 | otherwise the unit is in the map, unless its uuid was in use, or what a removal leaves is left |
| UnitIndex.SaveSync | liblxcd/deployment_unit_helper.cpp:392-410 | a write leaves a file that loads as the map if and only if it succeeds, or never opens a file that already held the map, or damages it while the map is empty |
| UnitIndex.RemoveSync | liblxcd/deployment_unit_helper.cpp:236-270 | a removal keeps map and file together if and only if it does not go through, or its write succeeds, or its write damages the file of a map it has emptied |
| UnitIndex.AddSync | liblxcd/deployment_unit_helper.cpp:98-121 | the exact combinations of outcomes, on the plain and on both rollback paths, in which an addition keeps map and file together |
| UnitIndex.FreshIsInSync | liblxcd/deployment_unit_helper.cpp:279-284 | without an index file the empty map is what loads, so runs can start in agreement |
| UnitIndex.RunSync | liblxcd/deployment_unit_helper.cpp:44-277 | over every run reloading gives the map at each return if and only if each operation meets that condition, and so always if the writes succeed |
| UnitIndex.RollbackRestores | liblxcd/deployment_unit_helper.cpp:113-117 | a rollback that is carried out restores the units if and only if the uuid was new, whatever its writes did |
| UnitIndex.FailedWriteBreaksSync | liblxcd/deployment_unit_helper.cpp:104-108 | a failed write and a rollback that cannot reach the container leave file and map apart, and so does a write that is cut short |

## Left out

- Text of JSON on which the parser runs past its buffer or does not advance (`Stuck`). White space is among it; the parser does not skip it.
- JsonRoundTrip.SerializeAndParse: asks that no string ends in a backslash, since the parser would read past its buffer on the others; `RoundTrip` covers all values.
- Decimal.Stod: exact arithmetic; a double agrees with it on whole numbers up to 2^53, and the rounding of all others is the parser's parameter `inexact`.
- Decimal.Stoi: asks that the magnitude fits 31 bits; signed overflow has no meaning in the source language.
- SkipMaps.SkipMap.Erase: a key above all others is excluded, where the source reads the item of the tail, which has none.
- SkipMaps.SkipMap.Clone: the copy constructor is a method that returns the copy, and copying collects the entries before inserting them.
- SkipMaps.SkipMap.WalkBack: only the forward step of reverse iterators; the postfix decrement moves the wrong way in the source.
- `map::clear` (starts from an uninitialised pointer), `at` on a missing key, `operator==` on maps (needs a comparison of pairs that is not there), and the `const` overload of `operator[]`.
- Control characters in strings and keys, which the serializer does not escape: what it writes then is no JSON text, and is only shown to be that.
- QueueProtocol.StopDrains: a task added after the worker has gone stays queued, so a run that starts there must have nothing queued.
- QueueLiveness.StopLeadsToExit: that the mutex comes to the worker in the end is assumed of the mutex, which the source does not implement.
- A second worker on one queue, thread creation, and the tasks themselves, whose return codes are parameters.
- SharedPtrs.SharedPtr.Own: an object must not be owned already, which the source leaves to its callers; assignment between handles of different types and memory-mapped pointers are not modelled.
- Vectors.Vector.Insert: asks for some capacity; with none the source writes outside its memory. The overlapping `memmove` is one simultaneous assignment.
- `vector::remove_empty`, copying of vectors, and `JsonValue::remove(size_t)`.
- CStrings.CString.Erase: an erasure that reaches past the text of a string whose length field is too large is left out, since it moves bytes that nothing has written; likewise `pos + count` that wraps in 64 bits.
- CStrings.CString.Replace: the same two cases.
- CStrings.CString.Insert: asks that the length fields lie within the buffers; beyond them the source reads memory it does not own.
- Json.SerializeString: takes a string whose length field is right, since the loop runs up to it and would go on behind the terminator; likewise `SplitText`, `ReplaceDoubleSlashes` and every string in a `Representable` value.
- Splitting.SplitText: the same.
- Paths.ReplaceDoubleSlashes: the same, and twice the length must fit 64 bits.
- The assignment `operator=(const char*)` of strings, which leaves the length field wrong in another way.
- Placeholder matching of HTTP routes, the rest of the HTTP handler, and the rest of the mount-table reader.
- UnitIndex.DeploymentUnitHelper.AddDeploymentUnit: installing, mounting and container configuration are outcomes only, versions and dates are unbounded integers, and releasing the container is not modelled.
- UnitIndex.DeploymentUnitHelper.LoadCache: asks that a file that parses is an array of units in the form `saveCache` writes, or with numbers or flags missing; on a missing string or list the source stops the process, and values of another type than written are left to json-c. The map field is its entry sequence, which `SkipMap` is shown to hold.
- UnitIndex.LoadUnit: the same of a single unit.
- Container control, the AMX and HTTP back ends, and the build tool for deployment units.
