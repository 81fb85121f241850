# CSharp-Utils core, modelled in Dafny

A model of the core of the CSharp-Utils / WFCUtils libraries, with the properties its code promises proved about the model.

- **Status store.** `LocalStatusLogger` and the older singleton `StatusLogger` keep a nested dictionary. A dotted key such as `a.b.c` names groups `a` and `a.b` and the value `c`. Assigning a key raises `Changed` when the key is new or its printed text changes. `Dump` prints one line per stored value.
- **Fan-out.** `StatusLoggerServer` (named pipes) and `StatusLoggerService` (WCF callbacks) forward every change to their clients. They replay their history to each new client.
- **SizeLimitedCollection.** A `Collection<T>` that drops its oldest items to stay within `Limit`.
- **List views.**
  - `ListViewReorderer` and `ListViewEx` move the selected items of a list view to a drop position.
  - `ListViewObjectBinding` keeps a list view's items and sub-items in step with a collection of objects.
- **StructUtils.** Single bits of a byte, and the length check of `RawDeserialize`.
- **Logger.Log.** Lays out a multi-line log message under a timestamp prefix.
- **ServicesManager.** Turns command-line arguments into service actions and prints usage.
- **MXIOConnection.** The retry loop around calls into a MOXA I/O module, and the digital I/O calls built on it.

Pure code is modelled as datatypes, functions and lemmas. State kept in objects becomes classes whose methods are proved equal to step functions, and the properties are proved about those functions. The loops in the source (`GetGroupAndKey`, `MoveSelectedTo`, `Update`/`UpdateItem`, `Fit`, `Log`, `Run`, `InvokeWithRetry`, the fan-outs) are `while`/`for` loops with invariants.

Inputs the model receives as parameters instead of computing them:
- the clock (`timestamp` / `now` strings);
- whether a pipe connection `IsConnected`;
- `GetHashCode` of data objects;
- reflective property text;
- the vendor library's return codes, stored bytes and error-code names;
- `Environment.UserInteractive`;
- the entry assembly's file name.

Files in the model:

| file | module |
|---|---|
| `wrappers.dfy` | `Wrappers`: `Option` and `Result` |
| `seqs.dfy` | `Seqs`: `RemoveAt` and `InsertAt` |
| `text.dfy` | `Text`: `int.ToString`, `string.Split`, `string.Join`, `string.Trim`, white space |
| `status_values.dfy` | `StatusValues`: boxed values and `FormatValue` |
| `status_tree.dfy` | `StatusTree`: the nested dictionary, `GetGroupAndKey`, the store and `Dump` |
| `status_events.dfy` | `StatusEvents`: `StatusChangeEventArgs` and when an event is raised |
| `local_status_logger.dfy` | `LocalStatusLogging` |
| `legacy_status_logger.dfy` | `LegacyStatusLogging` |
| `delivery.dfy` | `Delivery`: pushes to subscribers |
| `status_logger_server.dfy` | `StatusLoggerServing` |
| `status_logger_service.dfy` | `StatusLoggerServices` |
| `size_limited.dfy` | `SizeLimited` |
| `list_reorder.dfy` | `ListReorder` |
| `list_view.dfy` | `ListViews` |
| `list_binding.dfy` | `ListBinding` |
| `struct_utils.dfy` | `StructUtils` |
| `logger.dfy` | `Logging` |
| `services_manager.dfy` | `ServicesManagement` |
| `mxio.dfy` | `Mxio` |

## Model

| member | source | states |
|---|---|---|
| StatusValues.NullFormatsLikeNullString | CSharp-Utils/Utils/StatusLogger/LocalStatusLogger.cs:95-98 | A stored null prints as "null", exactly like the string "null", so the store treats the two as the same value |
| StatusValues.FormatIntegral | CSharp-Utils/Utils/StatusLogger/LocalStatusLogger.cs:95-98 | Integral values of any two widths print alike exactly when they are numerically equal |
| StatusValues.FormatArrays | CSharp-Utils/Utils/StatusLogger/LocalStatusLogger.cs:95-98 | Byte arrays (and char arrays) all print as their type name, whatever they hold, so changing an array's contents is never reported |
| StatusTree.EnsurePathFails | CSharp-Utils/Utils/StatusLogger/LocalStatusLogger.cs:73-89 | The group walk fails exactly when some segment on the key's group path already holds a value, and the failure names that segment |
| StatusTree.EnsurePathSucceeds | CSharp-Utils/Utils/StatusLogger/LocalStatusLogger.cs:73-89 | After a successful walk every prefix of the path is a group, a missing path ends in a new empty group, entries off the path are unchanged, and well-formedness is kept |
| StatusTree.EnsurePathSnoc | CSharp-Utils/Utils/StatusLogger/LocalStatusLogger.cs:73-89 | The walk over one more segment is the shorter walk followed by one pass of the loop |
| StatusTree.GetGroupAndKey | CSharp-Utils/Utils/StatusLogger/LocalStatusLogger.cs:66-93 | The loop over the split key returns the walked tree, the group path and the last segment, or the "X is used as both a group and a key" message naming the offending prefix. It also returns the tree as the in-place walk leaves it, which on a throw is the original tree: a group the walk creates is empty, so no conflict can follow it |
| StatusTree.AtPutAt | CSharp-Utils/Utils/StatusLogger/LocalStatusLogger.cs:63 | `group[key] = value` changes the entry at that key, keeps the groups above it and leaves every other path alone |
| StatusTree.StoreFails | CSharp-Utils/Utils/StatusLogger/LocalStatusLogger.cs:42-64 | Assigning a key fails exactly when a proper prefix of it holds a value, naming the first such segment |
| StatusTree.StoreSucceeds | CSharp-Utils/Utils/StatusLogger/LocalStatusLogger.cs:42-64 | A successful assignment puts the value at the key, keeps a group at every proper prefix, drops what lay below the key, changes nothing off the path and keeps the tree well formed |
| StatusTree.StoreIdempotent | CSharp-Utils/Utils/StatusLogger/LocalStatusLogger.cs:42-64 | Assigning the same value to the same key twice leaves the tree as the first assignment did |
| StatusTree.PathTextJoin | CSharp-Utils/Utils/StatusLogger/LocalStatusLogger.cs:112-116 | The prefix Dump builds for a path is a leading "." followed by the dot-joined path |
| StatusTree.DumpIsLeafLines | CSharp-Utils/Utils/StatusLogger/LocalStatusLogger.cs:100-119 | The recursive Dump prints, in enumeration order, the line "." + dotted path + ": " + FormatValue for each stored leaf |
| StatusTree.LeavesSound | CSharp-Utils/Utils/StatusLogger/LocalStatusLogger.cs:105-119 | Every leaf the dump walk lists lies below one of the group's keys and really holds the listed value |
| StatusTree.LeavesComplete | CSharp-Utils/Utils/StatusLogger/LocalStatusLogger.cs:105-119 | Every value stored below the group's keys is listed, with its full path |
| StatusTree.LeavesDistinct | CSharp-Utils/Utils/StatusLogger/LocalStatusLogger.cs:105-119 | No path is listed twice |
| StatusTree.LeavesExactly | CSharp-Utils/Utils/StatusLogger/LocalStatusLogger.cs:100-119 | Dump lists exactly the stored values, each path once |
| StatusTree.StoreShowsInDump | CSharp-Utils/Utils/StatusLogger/LocalStatusLogger.cs:42-119 | After a successful SetStatus(key, v), Dump prints the line "." + key + ": " + FormatValue(v) |
| StatusEvents.NewKeyEvent | CSharp-Utils/Utils/StatusLogger/BaseStatusLogger.cs:19-27 | The event for a new key carries the default timestamp, old text "null" and the new value's text |
| StatusEvents.Events | CSharp-Utils/Utils/StatusLogger/LocalStatusLogger.cs:50-60 | At most one Changed event per assignment, raised exactly when there is a report, carrying the key, the replaced entry and the new value |
| StatusEvents.ReportExactly | CSharp-Utils/Utils/StatusLogger/LocalStatusLogger.cs:50-60 | An event is raised exactly when the key is new, or when its old text differs from the new value's; it reports the replaced entry, or null for a new key |
| StatusEvents.WalkedStore | CSharp-Utils/Utils/StatusLogger/LocalStatusLogger.cs:42-64 | The report read from the walked group is the report on the original tree, and the store writes into that group and keeps well-formedness |
| StatusEvents.SetOutcome | CSharp-Utils/Utils/StatusLogger/LocalStatusLogger.cs:42-93 | SetStatus ends in a conflict exactly when a group segment of the key holds a value; otherwise the key holds the new value |
| StatusEvents.OutcomeOfConflict | CSharp-Utils/Utils/StatusLogger/LocalStatusLogger.cs:84-87 | A walk that stops at a segment holding a value yields the ArgumentException naming the prefix up to that segment |
| StatusEvents.OutcomeOfWalk | CSharp-Utils/Utils/StatusLogger/LocalStatusLogger.cs:42-64 | A successful walk yields `group[key] = value` in the walked group, with the report read from that group |
| StatusEvents.ReportIffDumpLineChanges | CSharp-Utils/Utils/StatusLogger/LocalStatusLogger.cs:52 | For an existing key, an event is raised exactly when the key's Dump line would change |
| StatusEvents.RepeatIsSilent | CSharp-Utils/Utils/StatusLogger/LocalStatusLogger.cs:42-64 | Repeating a successful assignment raises no event and leaves the tree unchanged |
| LocalStatusLogging.LocalStatusLogger.constructor | CSharp-Utils/Utils/StatusLogger/LocalStatusLogger.cs:7-11 | A new logger holds an empty root group and has raised nothing |
| LocalStatusLogging.LocalStatusLogger.SetStatus | CSharp-Utils/Utils/StatusLogger/LocalStatusLogger.cs:18-64 | On a conflict, returns the ArgumentException message and changes nothing. Otherwise stores the value under the key and appends the event (if any) before the assignment |
| LocalStatusLogging.LocalStatusLogger.Assign | CSharp-Utils/Utils/StatusLogger/LocalStatusLogger.cs:49-63 | Raises the event the walked group's report calls for, then assigns the key in that group |
| LocalStatusLogging.LocalStatusLogger.Dump | CSharp-Utils/Utils/StatusLogger/LocalStatusLogger.cs:100-119 | The lines printed are the Dump lines of the store's leaves, in order |
| LegacyStatusLogging.LogLineShape | CSharp-Utils/Utils/StatusLogger.cs:111-125 | Each log line starts with "[time] key: " and ends with the new value's text; "old -> new" appears exactly when the new value is null |
| LegacyStatusLogging.LegacyEvents | CSharp-Utils/Utils/StatusLogger.cs:55-77 | At most one event per assignment, raised exactly when there is a report, carrying the key, the replaced entry and the new value |
| LegacyStatusLogging.LogLines | CSharp-Utils/Utils/StatusLogger.cs:111-125 | The handler writes one line per event, in event order |
| LegacyStatusLogging.StatusLogger.constructor | CSharp-Utils/Utils/StatusLogger.cs:14-26 | A new logger has an empty store, no events and an empty log file |
| LegacyStatusLogging.StatusLogger.SetStatus | CSharp-Utils/Utils/StatusLogger.cs:41-101 | On a conflict nothing changes (store, events, file). Otherwise the value is stored, and each event is raised and written to the log file |
| LegacyStatusLogging.StatusLogger.Assign | CSharp-Utils/Utils/StatusLogger.cs:55-77 | Raises and logs the event the walked group's report calls for, then assigns the key |
| LegacyStatusLogging.StatusLogger.Dump | CSharp-Utils/Utils/StatusLogger.cs:127-145 | The lines printed are the Dump lines of the store's leaves, in order |
| Delivery.Fanout | CSharp-Utils/Utils/StatusLogger/StatusLoggerServer.cs:45-55 | One push of the event to each subscriber, in collection order |
| Delivery.Replay | CSharp-Utils/Utils/StatusLogger/StatusLoggerServer.cs:57-73 | One push of each logged event to the subscriber, in log order |
| Delivery.ReceivedAppend | CSharp-Utils/Utils/StatusLogger/StatusLoggerServer.cs:45-73 | What a subscriber receives from two runs of pushes is what it receives from each, in order |
| Delivery.ReceivedReplay | CSharp-Utils/Utils/StatusLogger/StatusLoggerServer.cs:57-73 | A replay reaches only its subscriber, which receives the whole log in order |
| Delivery.ReceivedFanout | CSharp-Utils/Utils/StatusLogger/StatusLoggerServer.cs:45-55 | A fan-out reaches a subscriber once for each time it is listed, and only with that event |
| Delivery.ReceivedFanoutOnce | CSharp-Utils/Utils/StatusLogger/StatusLoggerServer.cs:45-55 | A subscriber listed once receives a fanned-out event exactly once |
| StatusLoggerServing.LiveCount | CSharp-Utils/Utils/StatusLogger/StatusLoggerServer.cs:49-53 | The push loop skips connections that are not connected and keeps every connected one, however often it is listed |
| StatusLoggerServing.RemoveFirstCount | CSharp-Utils/Utils/StatusLogger/StatusLoggerServer.cs:75-81 | Remove drops one occurrence of the connection when there is one, and nothing else |
| StatusLoggerServing.LogIsHistory | CSharp-Utils/Utils/StatusLogger/StatusLoggerServer.cs:45-55 | The server log gains every event in order and nothing else; it is never trimmed |
| StatusLoggerServing.StepKeepsConnection | CSharp-Utils/Utils/StatusLogger/StatusLoggerServer.cs:36-81 | A step that keeps a connection up keeps it listed once and gives it exactly that step's event |
| StatusLoggerServing.ReceivesLaterEvents | CSharp-Utils/Utils/StatusLogger/StatusLoggerServer.cs:45-81 | While a connection stays connected it receives every later event, in order, and nothing else |
| StatusLoggerServing.ConnectedClientSeesWholeLog | CSharp-Utils/Utils/StatusLogger/StatusLoggerServer.cs:45-73 | A client that connects and stays connected receives exactly the final log, in order: the replay and then the live events |
| StatusLoggerServing.DisconnectAndStopFrame | CSharp-Utils/Utils/StatusLogger/StatusLoggerServer.cs:36-43 | A disconnect removes only that connection, and Stop removes all of them; neither touches the log or the pushes |
| StatusLoggerServing.DisconnectedOnesSkipped | CSharp-Utils/Utils/StatusLogger/StatusLoggerServer.cs:49-53 | A listed connection that is not connected gets nothing and stays listed |
| StatusLoggerServing.StatusLoggerServer.constructor | CSharp-Utils/Utils/StatusLogger/StatusLoggerServer.cs:17-23 | A new server has no connections, an empty log and no pushes |
| StatusLoggerServing.StatusLoggerServer.OnChanged | CSharp-Utils/Utils/StatusLogger/StatusLoggerServer.cs:45-55 | The loop pushes the event to each connected connection, then logs it |
| StatusLoggerServing.StatusLoggerServer.ClientConnected | CSharp-Utils/Utils/StatusLogger/StatusLoggerServer.cs:57-73 | Adds the connection, then its loop replays the whole log to it |
| StatusLoggerServing.StatusLoggerServer.ClientDisconnected | CSharp-Utils/Utils/StatusLogger/StatusLoggerServer.cs:75-81 | Removes the first occurrence of the connection |
| StatusLoggerServing.StatusLoggerServer.Stop | CSharp-Utils/Utils/StatusLogger/StatusLoggerServer.cs:36-43 | Clears the connections and keeps the log |
| StatusLoggerServices.RunHistory | CSharp-Utils/Utils/StatusLogger/StatusLoggerService.cs:17-47 | Callbacks are only appended and, as written, the log keeps every event: nothing is ever removed |
| StatusLoggerServices.OpenSessionReplays | CSharp-Utils/Utils/StatusLogger/StatusLoggerService.cs:17-32 | OpenSession registers the callback and replays the current log to it, in order, and to nobody else |
| StatusLoggerServices.ChangeReachesCallbacks | CSharp-Utils/Utils/StatusLogger/StatusLoggerService.cs:34-47 | A change reaches each registered callback once per registration, and then is logged |
| StatusLoggerServices.StepKeepsCallback | CSharp-Utils/Utils/StatusLogger/StatusLoggerService.cs:17-47 | A step that does not reregister a callback keeps it listed once and gives it exactly that step's event |
| StatusLoggerServices.ReceivesLaterEvents | CSharp-Utils/Utils/StatusLogger/StatusLoggerService.cs:34-47 | A registered callback receives every later event, in order |
| StatusLoggerServices.SessionSeesWholeLog | CSharp-Utils/Utils/StatusLogger/StatusLoggerService.cs:17-47 | A session's callback receives the whole final log, in order, including events from before it opened |
| StatusLoggerServices.LogOutgrowsLimit | CSharp-Utils/Utils/StatusLogger/StatusLoggerService.cs:9 | As written, 1001 events leave more than 1000 entries in a log created with limit 1000 |
| StatusLoggerServices.BoundedLogKeepsLast | CSharp-Utils/Utils/StatusLogger/StatusLoggerService.cs:9 | With SizeLimitedCollection's own Add, the log holds exactly the last 1000 events of the run |
| StatusLoggerServices.StatusLoggerService.constructor | CSharp-Utils/Utils/StatusLogger/StatusLoggerService.cs:12-15 | A new service has no callbacks, an empty log and no deliveries |
| StatusLoggerServices.StatusLoggerService.OpenSession | CSharp-Utils/Utils/StatusLogger/StatusLoggerService.cs:17-32 | Registers the callback, then its loop sends every logged event to it |
| StatusLoggerServices.StatusLoggerService.OnChanged | CSharp-Utils/Utils/StatusLogger/StatusLoggerService.cs:34-47 | Its loop sends the event to every callback, then the base Add appends it to the log |
| SizeLimited.LastNShape | CSharp-Utils/Utils/SizeLimitedCollection.cs:30-36 | Trimming keeps min(Count, Limit) items, and they are the newest ones |
| SizeLimited.LastNBelowLimit | CSharp-Utils/Utils/SizeLimitedCollection.cs:21-25 | Below the limit, Add simply appends |
| SizeLimited.LastNConcat | CSharp-Utils/Utils/SizeLimitedCollection.cs:21-36 | Trimming early loses nothing that a later trim would keep |
| SizeLimited.AddAllKeepsLast | CSharp-Utils/Utils/SizeLimitedCollection.cs:21-36 | After any run of Adds, the collection holds the last Limit items of everything added, and never more than Limit |
| SizeLimited.SizeLimitedCollection.constructor | CSharp-Utils/Utils/SizeLimitedCollection.cs:10-14 | A new collection is empty, with the given limit |
| SizeLimited.SizeLimitedCollection.FromList | CSharp-Utils/Utils/SizeLimitedCollection.cs:15-19 | A collection built from a list keeps the last `limit` items of the list |
| SizeLimited.SizeLimitedCollection.Fit | CSharp-Utils/Utils/SizeLimitedCollection.cs:30-36 | The loop drops the oldest items until Count is at most Limit. With a negative Limit the collection empties and the next RemoveAt(0) throws |
| SizeLimited.SizeLimitedCollection.Add | CSharp-Utils/Utils/SizeLimitedCollection.cs:21-25 | Append, then fit: the last Limit items of the old contents plus the new item |
| SizeLimited.SizeLimitedCollection.BaseAdd | CSharp-Utils/Utils/SizeLimitedCollection.cs:6 | Collection<T>.Add reached through a base reference appends without trimming |
| SizeLimited.SizeLimitedCollection.SetLimit | CSharp-Utils/Utils/SizeLimitedCollection.cs:8 | Setting Limit leaves the items as they are |
| ListReorder.Members | CSharp-Utils/Extensions/ListView/ListViewReorderer.cs:134-143 | The unselected part holds the items not selected, and the selected part holds the selected ones |
| ListReorder.WithoutOnlyMultiset | CSharp-Utils/Extensions/ListView/ListViewReorderer.cs:134-143 | Splitting the list into unselected and selected items loses and adds nothing |
| ListReorder.MovedIsPermutation | CSharp-Utils/Extensions/ListView/ListViewReorderer.cs:134-143 | A move to a target in [0, Count] permutes the list |
| ListReorder.MovedBlock | CSharp-Utils/Extensions/ListView/ListViewReorderer.cs:134-143 | After the move, the selected items stand as one block in their list order, right after the unselected items that stood before the target, and the rest follow |
| ListReorder.MovedKeepsOrder | CSharp-Utils/Extensions/ListView/ListViewReorderer.cs:134-143 | The unselected items keep their relative order |
| ListReorder.MovedNothing | CSharp-Utils/Extensions/ListView/ListViewReorderer.cs:134-143 | With nothing selected, the list is unchanged |
| ListReorder.MovedDistinct | CSharp-Utils/Extensions/ListView/ListViewReorderer.cs:134-143 | A move keeps the items free of duplicates |
| ListReorder.RemoveAtMultiset | CSharp-Utils/Extensions/ListView/ListViewReorderer.cs:140 | Remove takes exactly that one item out |
| ListReorder.LoopStep | CSharp-Utils/Extensions/ListView/ListViewReorderer.cs:136-142 | Each pass (decrement when the item stood before the index, Remove, Insert(index++)) extends the moved block by the next selected item, and its Insert stays in range |
| ListReorder.PartialStart | CSharp-Utils/Extensions/ListView/ListViewReorderer.cs:129-133 | Before the loop nothing has moved and the insertion point is the target |
| ListReorder.PartialDone | CSharp-Utils/Extensions/ListView/ListViewReorderer.cs:134-143 | After the last pass every selected item has moved |
| ListReorder.MoveOne | CSharp-Utils/Extensions/ListView/ListViewReorderer.cs:136-142 | One pass of the loop: it succeeds exactly when Insert accepts the adjusted index; it fails right after Remove otherwise |
| ListReorder.MoveSelected | CSharp-Utils/Extensions/ListView/ListViewReorderer.cs:121-143 | With an empty selection nothing changes. With a target in [0, Count], the result is the block move and the event lists the selected items in list order. Otherwise the first Insert throws after removing the first selected item |
| ListReorder.FirstSelected | CSharp-Utils/Extensions/ListView/ListViewReorderer.cs:134 | The position of the first selected item in list order |
| ListReorder.DropIndexChoice | CSharp-Utils/Extensions/ListView/ListViewReorderer.cs:79-115 | A drop on an item goes to its top edge exactly when the top half is hit, and to its bottom edge otherwise. A drop off the items goes to the front when above the first item and to the end otherwise. Only an empty list with no item hit fails. Every chosen target is in [0, Count] |
| ListViews.MovedToDistinct | CSharp-Utils/Extensions/ListView/ListViewReorderer.cs:121-149 | Whatever MoveSelectedTo does, the list stays free of duplicates |
| ListViews.MovedToItems | CSharp-Utils/Extensions/ListView/ListViewReorderer.cs:121-149 | A move that succeeds permutes the list; one that throws has lost exactly the first selected item |
| ListViews.ListViewReorderer.constructor | CSharp-Utils/Extensions/ListView/ListViewReorderer.cs:16-47 | A reorderer over the given items, selection and handler, with no events raised |
| ListViews.ListViewReorderer.MoveSelectedTo | CSharp-Utils/Extensions/ListView/ListViewReorderer.cs:121-149 | Performs the move and keeps the selection. Raises Reorder (with the moved items and the normalised index) only when every Insert succeeded and a handler is attached |
| ListViews.ListViewReorderer.OnDragDrop | CSharp-Utils/Extensions/ListView/ListViewReorderer.cs:79-115 | Moves the selection to the chosen drop index; with an empty list and no item hit, Items[0] throws and nothing changes |
| ListViews.ListViewEx.constructor | WFCUtils/ListViewEx.cs:21-27 | A list over the given items and selection |
| ListViews.ListViewEx.MoveSelectedTo | WFCUtils/ListViewEx.cs:94-112 | The same move as the reorderer's, with no event |
| ListViews.ListViewEx.OnDragDrop | WFCUtils/ListViewEx.cs:52-88 | The same choice of drop index as the reorderer's |
| ListBinding.IndexOfKey | WFCUtils/ListViewObjectBinding.cs:85 | The search part of the collections' IndexOfKey: the first element with the name. The empty key never matches |
| ListBinding.Lookup | WFCUtils/ListViewObjectBinding.cs:85 | The items collection's IndexOfKey finds an item exactly when the key is non-empty and some item carries it. The hit is the item at the remembered last hit if it still carries the key, and the first match otherwise |
| ListBinding.AnyNamed | WFCUtils/ListViewObjectBinding.cs:122 | `item.SubItems[name]` finds a sub-item exactly when the name is non-empty and some sub-item carries it. The one found carries the name |
| ListBinding.LookupUnique | WFCUtils/ListViewObjectBinding.cs:85 | When no two items carry the key, the cached lookup finds the first match, whatever the cache holds |
| ListBinding.CacheHitsLaterDuplicate | WFCUtils/ListViewObjectBinding.cs:85-96 | With two items carrying "7" and the last hit at the second, the lookup returns the second, where a first-match search would return the first |
| ListBinding.SetName | WFCUtils/ListViewObjectBinding.cs:92-94 | The Name setter writes the name of sub-item 0, created by the SubItems getter when missing, and the Name getter reads it back. The Tag is unchanged |
| ListBinding.KeyIsNoIdentifier | WFCUtils/ListViewObjectBinding.cs:85-135 | An item key never starts like a C# identifier, so it never equals the name of a column whose property GetProperty finds |
| ListBinding.UpdateItem | WFCUtils/ListViewObjectBinding.cs:113-143 | The Tag is kept. With distinct column names, at least one column and every property text present, the sub-items are exactly one per column, in column order, showing the tag's property, so the item's Name becomes the first column's name. With no columns the closing loop never ends. A null property ends the update with NullProperty, and with distinct column names a missing property text always ends it so, since no Insert can then be out of range |
| ListBinding.PlaceColumn | WFCUtils/ListViewObjectBinding.cs:122-135 | One pass of UpdateItem's column loop. A normal end leaves the column's sub-item, named after the column and showing the tag's property, at the index. A null property ends it with NullProperty. When the column's name is not among the sub-items placed so far, the Insert cannot throw and those sub-items stay untouched |
| ListBinding.ClosingLoopNeverEnds | WFCUtils/ListViewObjectBinding.cs:139-142 | With no columns, every pass of the closing loop removes one sub-item until none is left. The SubItems getter then brings sub-item 0 back, so the guard `Count > 0` always holds |
| ListBinding.PlaceItem | WFCUtils/ListViewObjectBinding.cs:85-99 | One pass of Update's loop, with the cached lookup, which it remembers. When the key is not among the items placed so far and is carried at most once, with distinct columns and every property text present, the pass ends normally with PassResult: the items before the index are untouched, the first item carrying the key (or a new one) sits at the index refreshed, and the rest of the list only loses that item. With no columns at index 0 the pass never ends |
| ListBinding.BindStep | WFCUtils/ListViewObjectBinding.cs:80-100 | Each pass of Update's loop keeps the placed prefix final and every other key's lookup unchanged |
| ListBinding.PlacedSkipped | WFCUtils/ListViewObjectBinding.cs:85 | The items already placed carry the first column's name, so the next object's key is never found among them |
| ListBinding.PlacedUnique | WFCUtils/ListViewObjectBinding.cs:85 | When no two view items carried a key before Update, the next object's key is carried at most once in the current list |
| ListBinding.RestShrinks | WFCUtils/ListViewObjectBinding.cs:88 | The items not yet placed only lose the item taken out, so no name is carried more often than before |
| ListBinding.FirstNamedRemoveOther | WFCUtils/ListViewObjectBinding.cs:88 | Removing an item with another name does not change what a key finds |
| ListBinding.PassesKeepInvariant | WFCUtils/ListViewObjectBinding.cs:80-100 | When Bindable and no two view items carry a key, the list after each pass has its placed items final and every key not placed yet finds what it found in the original view. No name is carried more often than before |
| ListBinding.PassesReconcile | WFCUtils/ListViewObjectBinding.cs:80-100 | When Bindable and no two view items carry a key, the first items after all passes are exactly the reconciled items |
| ListBinding.BindAll | WFCUtils/ListViewObjectBinding.cs:79-100 | When Bindable and no two view items carry the same key, the first items after the loop are the reconciled items. The lookup cache is then LastHit: where the last object's key was found before its item moved, or -1. With no data the list and the cache are untouched, and with data but no columns the first pass never ends |
| ListBinding.LastHitMeaning | WFCUtils/ListViewObjectBinding.cs:85-96 | After a Bindable Update the cache is -1 exactly when the view had no item carrying the last object's key. Otherwise it points at or after that object's own position, where the item stood before it was moved |
| ListBinding.RemoveBeyond | WFCUtils/ListViewObjectBinding.cs:103-106 | The closing loop cuts the list to the number of data objects |
| ListBinding.ReconciledNames | WFCUtils/ListViewObjectBinding.cs:92-132 | After Update every item carries the first column's name, because Name is the name of sub-item 0. It does not carry the object's key |
| ListBinding.ReconciledItem | WFCUtils/ListViewObjectBinding.cs:85-135 | Each object's item has one sub-item per column showing its tag's property. An item that carried the object's key keeps its old Tag; otherwise a new item is tagged with the object |
| ListBinding.KeysDistinct | WFCUtils/ListViewObjectBinding.cs:85 | Item keys are distinct exactly when the objects' hash codes are |
| ListBinding.UnkeyedRebuilt | WFCUtils/ListViewObjectBinding.cs:85-95 | When no item carries an object's key, Update gives every object a new item tagged with it |
| ListBinding.SecondUpdateRebuilds | WFCUtils/ListViewObjectBinding.cs:71-107 | After the first Update no item carries a key, so the second Update finds none and rebuilds every item tagged with its object. From then on Update changes nothing |
| ListBinding.ListViewObjectBinding.constructor | WFCUtils/ListViewObjectBinding.cs:15-61 | A binding with no view and no data |
| ListBinding.ListViewObjectBinding.SetView | WFCUtils/ListViewObjectBinding.cs:19-38 | Binds the view, then runs Update, with Update's stated result |
| ListBinding.ListViewObjectBinding.SetData | WFCUtils/ListViewObjectBinding.cs:44-55 | Binds the data, then runs Update, with Update's stated result |
| ListBinding.ListViewObjectBinding.Update | WFCUtils/ListViewObjectBinding.cs:71-107 | Without a view and data nothing happens. Otherwise the view keeps its columns. A normal end leaves one item per object. No data empties the list, and data without columns never finishes. When Bindable and no two view items carry the same key, the items are exactly the reconciled ones and the lookup cache is LastHit. With no data the cache is untouched |
| StructUtils.MaskIsShift | CSharp-Utils/Structs/StructUtils.cs:11-14 | The mask is the low byte of 1 shifted by the count's low five bits, as `(byte)(1 << bit)` computes it |
| StructUtils.OneBitIsPow2 | CSharp-Utils/Structs/StructUtils.cs:11-14 | The mask for bits 0 to 7 is 2^bit |
| StructUtils.GetIsBit | CSharp-Utils/Structs/StructUtils.cs:16-19 | GetBitAsBool reads bit `bit` of the byte |
| StructUtils.SetThenGet | CSharp-Utils/Structs/StructUtils.cs:16-32 | Setting a bit and reading it back gives the value set |
| StructUtils.SetKeepsOthers | CSharp-Utils/Structs/StructUtils.cs:21-32 | Setting one bit leaves the other seven as they were |
| StructUtils.SetIdempotent | CSharp-Utils/Structs/StructUtils.cs:21-32 | Setting the same bit to the same value twice is setting it once |
| StructUtils.SetToCurrent | CSharp-Utils/Structs/StructUtils.cs:16-32 | Setting a bit to the value it already has changes nothing |
| StructUtils.HighBitIgnored | CSharp-Utils/Structs/StructUtils.cs:11-32 | A shift count whose low five bits are 8 or more gives mask 0: the bit reads false and setting it changes nothing |
| StructUtils.BitModulo | CSharp-Utils/Structs/StructUtils.cs:11-19 | The shift count only matters modulo 32 |
| StructUtils.RawDeserializeRoundTrip | CSharp-Utils/Structs/StructUtils.cs:37-51 | A struct's bytes laid out at a position are read back exactly, whatever lies around them. With fewer bytes left from the position on, the ArgumentException names how many are left and the struct's size. Null input gives the default value |
| Logging.Indent | CSharp-Utils/Logging/Logger.cs:51 | The indent is as long as the prefix |
| Logging.IndentIsBlank | CSharp-Utils/Logging/Logger.cs:51 | The indent is white space only, and keeps the prefix's own white space in place |
| Logging.BuildMessage | CSharp-Utils/Logging/Logger.cs:46-70 | The message built is the laid-out message |
| Logging.MergeLines | CSharp-Utils/Logging/Logger.cs:57-65 | The loop gives the prefix and first line followed by each later line's piece, in order |
| Logging.LaterPiece | CSharp-Utils/Logging/Logger.cs:60-64 | A later line adds nothing when it trims to blank; otherwise it adds a line break, the indent and the trimmed line |
| Logging.BlankMessage | CSharp-Utils/Logging/Logger.cs:67-70 | A missing or white-space-only message is logged as the empty string, with no prefix |
| Logging.MessageStart | CSharp-Utils/Logging/Logger.cs:47-57 | Otherwise the message starts with "[timestamp-L] " and the untrimmed first line, and whatever follows starts with a line break |
| Logging.LaterLinesStart | CSharp-Utils/Logging/Logger.cs:58-65 | The later part is empty or begins with a line break |
| Logging.LaterLinesAppend | CSharp-Utils/Logging/Logger.cs:58-65 | The later lines lay out piece by piece |
| Logging.BlankLinesDropped | CSharp-Utils/Logging/Logger.cs:60-64 | Later lines that are all blank add nothing |
| Logging.CrLfIsOneBreak | CSharp-Utils/Logging/Logger.cs:54-65 | A "\r\n" between two lines gives one line break and no blank line, because the empty piece between '\r' and '\n' is dropped |
| Logging.SplitCrLf | CSharp-Utils/Logging/Logger.cs:54 | Splitting on '\r' and '\n' separately turns "a\r\nb" into a, an empty piece, and b |
| Logging.Logger.constructor | CSharp-Utils/Logging/Logger.cs:28-38 | A new logger has made no calls |
| Logging.Logger.Log | CSharp-Utils/Logging/Logger.cs:44-76 | The same event, holding the laid-out message, goes to the Message handlers and then to WriteMessage |
| ServicesManagement.StopBeforeUninstall | CSharp-Utils/Utils/ServicesManager.cs:117-129 | Whenever an action uninstalls or reinstalls, a stop of the services comes before it in that action's effect, and only uninstall and reinstall do either |
| ServicesManagement.UsageLines | CSharp-Utils/Utils/ServicesManager.cs:181-187 | One "  name:           description" line per listed action, in order |
| ServicesManagement.ListedExactly | CSharp-Utils/Utils/ServicesManager.cs:181-187 | Usage lists an action exactly when it is registered with a description, and lists it with that description |
| ServicesManagement.ListedFirstThree | CSharp-Utils/Utils/ServicesManager.cs:43-45 | The first three built-in actions are listed with their descriptions, in order |
| ServicesManagement.ListedFirstSix | CSharp-Utils/Utils/ServicesManager.cs:43-48 | The six described built-in actions are listed with their descriptions, in registration order |
| ServicesManagement.BuiltInUsage | CSharp-Utils/Utils/ServicesManager.cs:39-50 | A fresh manager's usage lists the six described actions in registration order and hides simulate |
| ServicesManagement.ArgsTraceAppend | CSharp-Utils/Utils/ServicesManager.cs:89-107 | Known actions run in argument order |
| ServicesManagement.StopsAtUnknown | CSharp-Utils/Utils/ServicesManager.cs:99-105 | After the first unknown argument nothing else runs |
| ServicesManagement.KnownAction | CSharp-Utils/Utils/ServicesManager.cs:92-98 | A known argument runs its action between BeforeAction and AfterAction |
| ServicesManagement.RunKnown | CSharp-Utils/Utils/ServicesManager.cs:89-98 | Each known argument in Run's loop extends the trace of the prefix by its own trace |
| ServicesManagement.RunUnknown | CSharp-Utils/Utils/ServicesManager.cs:99-105 | An unknown argument ends the run with the usage text |
| ServicesManagement.ServicesManager.constructor | CSharp-Utils/Utils/ServicesManager.cs:39-50 | The seven built-in actions, registered in order, with simulate undescribed |
| ServicesManagement.ServicesManager.RegisterAction | CSharp-Utils/Utils/ServicesManager.cs:58-66 | A taken name gives the ArgumentException and leaves the table unchanged; a new name is added last |
| ServicesManagement.ServicesManager.ActionNotFound | CSharp-Utils/Utils/ServicesManager.cs:165-169 | Prints usage and says not to continue |
| ServicesManagement.ServicesManager.Usage | CSharp-Utils/Utils/ServicesManager.cs:174-188 | Writes the usage header and the listed actions to the error stream |
| ServicesManagement.ServicesManager.RunOne | CSharp-Utils/Utils/ServicesManager.cs:91-106 | A known argument runs between its two events; an unknown one goes to ActionNotFound and stops the run |
| ServicesManagement.ServicesManager.Run | CSharp-Utils/Utils/ServicesManager.cs:72-109 | No arguments show usage when interactive and run the services otherwise; arguments run as the argument trace says |
| ServicesManagement.ServicesManager.RunArgs | CSharp-Utils/Utils/ServicesManager.cs:89-107 | The argument loop appends exactly the argument trace |
| Mxio.EmptyItemRejected | CSharp-Utils/MXIO/MXIOConnection.cs:98 | "{}" has no argument index, so string.Format rejects it |
| Mxio.PlainText | CSharp-Utils/MXIO/MXIOConnection.cs:98 | Text without braces does not change whether a format is accepted |
| Mxio.SimpleItem | CSharp-Utils/MXIO/MXIOConnection.cs:98 | An item "{d}" with an index below the argument count is accepted |
| Mxio.PiecesAccepted | CSharp-Utils/MXIO/MXIOConnection.cs:98-104 | A format made of accepted pieces is accepted |
| Mxio.AsWrittenFormatsRejected | CSharp-Utils/MXIO/MXIOConnection.cs:98-104 | string.Format rejects both retry-loop formats as written |
| Mxio.CorrectedFormatsAccepted | CSharp-Utils/MXIO/MXIOConnection.cs:98-104 | string.Format accepts the indexed formats with five and three arguments |
| Mxio.Limit | CSharp-Utils/MXIO/MXIOConnection.cs:86-96 | At least one attempt is made, and no fewer than Retries |
| Mxio.CountAppend | CSharp-Utils/MXIO/MXIOConnection.cs:84-107 | Calls and Opens add up over joined traces |
| Mxio.OpensBetweenAttempts | CSharp-Utils/MXIO/MXIOConnection.cs:95-101 | Open is called exactly once between consecutive attempts, and never after the last |
| Mxio.SucceedsAfterFailures | CSharp-Utils/MXIO/MXIOConnection.cs:84-107 | When attempt k is the first to return OK, the loop ends normally after k + 1 calls and k Opens |
| Mxio.PersistentFailure | CSharp-Utils/MXIO/MXIOConnection.cs:84-107 | When every attempt fails, the method is called Limit times and the MXIOException names the last code |
| Mxio.FirstCallOk | CSharp-Utils/MXIO/MXIOConnection.cs:89-93 | A first call that returns OK is the only call, with no Open |
| Mxio.AsWrittenNeverRetries | CSharp-Utils/MXIO/MXIOConnection.cs:95-105 | As written, the first failure ends the loop with a FormatException after one call, whatever Retries is |
| Mxio.RetriesRecover | CSharp-Utils/MXIO/MXIOConnection.cs:84-107 | With accepted formats and Retries >= 2, an OK at the second attempt ends normally after two calls |
| Mxio.MxioConnection.constructor | CSharp-Utils/MXIO/MXIOConnection.cs:32-36 | A connection with the manager's settings and the indexed formats, with no events |
| Mxio.MxioConnection.InvokeWithRetry | CSharp-Utils/MXIO/MXIOConnection.cs:84-107 | The loop's events and ending are exactly those of the attempt sequence |
| Mxio.MxioConnection.Reset | CSharp-Utils/MXIO/MXIOConnection.cs:111-114 | The retry loop around MXIO_Reset |
| Mxio.MxioConnection.SetDigitalOutput | CSharp-Utils/MXIO/MXIOConnection.cs:121-124 | The retry loop around DO_Write on slot 1, with the output number and 1/0 cast to byte |
| Mxio.MxioConnection.GetDigitalInput | CSharp-Utils/MXIO/MXIOConnection.cs:130-135 | The retry loop around DI_Read. A value comes back exactly when the loop ends normally, and it is true exactly when the last read stored 1 |
| Text.NatToStringRoundTrip | CSharp-Utils/Utils/StatusLogger/LocalStatusLogger.cs:97 | Decimal text reads back as the number it prints |
| Text.IntToStringInjective | CSharp-Utils/Utils/StatusLogger/LocalStatusLogger.cs:97 | Different integers print differently |
| Text.SplitJoin | CSharp-Utils/Utils/StatusLogger/LocalStatusLogger.cs:69 | Splitting the join of separator-free pieces gives back the pieces, so a dotted key splits into its segments |
| Text.TrimBlank | CSharp-Utils/Logging/Logger.cs:60-61 | Trim gives the empty string exactly when the string is white space only, and a trimmed string is blank only when empty |

## Left out

- Singletons (`GetInstance`), the file handle of `statuslogger.log`, the console, `DateTime.Now` and locks are left out. Timestamps are parameters, console output is an event or a returned line, and each method runs as one sequential step.
- The named-pipe and WCF transports are not modelled. Each connection or callback is an abstract subscriber id, and whether a pipe `IsConnected` at a push is a parameter.
- `RemoteStatusLogger`, `StatusLoggerWriter`, the service interfaces and the generated service reference are not part of this model.
- `StatusChangeEventArgs` takes its timestamp from `new DateTime()`, so it is the constant 0.
- `float`/`double` `ToString` is not modelled: a `Floating` value carries the text it prints as.
- `SizeLimited.SizeLimitedCollection.constructor`: requires a non-negative limit, because with a negative limit the constructor's Fit throws. `Fit` and `Add` model that throw (as `ok == false`).
- `SizeLimited.SizeLimitedCollection.FromList`: requires a non-negative limit, for the same reason. It also copies the list, while `Collection<T>(IList<T>)` wraps the caller's list without copying it. So the model does not capture two effects of the constructor's Fit. First, it trims the caller's own list as well, and the two stay aliased afterwards. Second, on a read-only list such as an array, `RemoveAt` throws `NotSupportedException` whenever the list is longer than the limit.
- The live `SelectedItems` enumeration is not modelled. The model iterates a snapshot of the selected items in list order, taken before the loop starts.
- `ListBinding.IndexOfKey`: the WinForms collections look names up case-insensitively; the model uses exact matches.
- `ListBinding.AnyNamed`: the sub-item collection's own last-hit cache is not tracked. The lookup may return any sub-item carrying the name, which covers whatever the cache holds. With distinct column names UpdateItem's result does not depend on the choice. The items collection's cache is modelled, by `ListBinding.Lookup` and the view's `lastAccessed`.
- `ListBinding.ListViewObjectBinding.Update`: the exact items are stated only when the update is Bindable. Bindable means distinct hash codes, at least one column, distinct column names, a first column name that is no key, and every property text present. The exact items also need that no two view items carry the same key, because the lookup cache may then hit the later one. Otherwise only the outcome and the item count are stated, and the lookup cache's new value is not stated either.
- `ListBinding.ListViewObjectBinding.Update`: data objects are never null in the model (`Obj` has no null). A null element of `Data` would make `data.GetHashCode()` throw a NullReferenceException and end Update at that element.
- `ListBinding.UpdateItem`: with duplicate column names, only the outcome and the sub-item count are stated.
- `ListBinding.UpdateItem`: with no columns the source's closing loop runs forever. The model stops there with the outcome `NeverEnds`, and `ListBinding.ClosingLoopNeverEnds` shows that the loop's guard always holds.
- `ListBinding.Name`: for an item with no sub-items, Name reads as "". Whether that read also creates sub-item 0 is not modelled. It would change only such an item, and only when an Update stops early.
- Reflection is not modelled. The property's text is a parameter, and None stands for a null from `GetProperty` or from `GetValue`.
- The View setter's `ColumnClick` wiring, `OnColumnClick`, `OnItemDrag`, `OnDragEnter` and `PointToClient` are not modelled. The drop point's Y, the item under it and the first item's Y are parameters.
- `Marshal.PtrToStructure`, `Marshal.SizeOf` and `RawSerialize` are not modelled. The struct size is a parameter, and the result is the bytes that would be read.
- `StructUtils.RawDeserializeRoundTrip`: does not model overflow of the 32-bit `Length - position`.
- `string.Format` is modelled only for the retry-loop formats: `Mxio.FormatOk` checks braces and argument indexes, but not alignment or format contents. Elsewhere, formatted messages are parameters.
- `Logging.Logger.Log`: `string.Format(message, args)` and `DateTime.Now.ToString(TimestampFormat)` come in already formatted.
- `StatusLoggerServices.StatusLoggerService.OnChanged`: a push never fails in the model. The same holds for the `Changed`, `Message` and `Reorder` handlers. In the source, `IStatusLoggerCallback.OnChanged` is a request-reply operation. A callback whose client has gone throws at StatusLoggerService.cs:41, because `_callbacks` is never pruned. That throw skips the remaining callbacks and the `_log.Add` at line 45. The exception then reaches `LocalStatusLogger.SetStatus` before its assignment, so the value is not stored. `StatusLoggerServices.ReceivesLaterEvents` and `StatusLoggerServices.SessionSeesWholeLog` hold only because delivery cannot fail.
- `ServicesCollection` internals, the simulate action's window, and exceptions thrown by actions or user handlers are not modelled. Each action is its recorded effect.
- Console progress lines are `Progress(kind)` events, and `ServicesManagement.ProgressLine` gives their text.
- Usage computes `serviceText` ("service" or "services") but never prints it, so it is not modelled and does not appear in the usage output.
- `MXIOManager`, `Init`, `Open`/`Close` and the COM/Ethernet/E1K subclasses are not modelled. `Open` is an event.
- The vendor DLL is not modelled: its return codes and the byte DI_Read stores are parameters, and `MXIO_OK` is taken to be 0.
- `MXIOException.GetErrorMessage`'s enum-name table is not modelled; it is the parameter `errorName`.
- `Thread.Sleep` is an event, not modelled as time.
- `Mxio.MxioConnection.constructor`: `Manager.Retries` is a `short`, which the model holds as an unbounded integer.
- `Mxio.MxioConnection.InvokeWithRetry`: the class uses the corrected (indexed) formats. The as-written formats are modelled by `Mxio.Attempts` with `Mxio.AsWrittenFormats`, as described under Findings.

## Findings

| source | as written | input that shows it | evidently intended | confidence | as-written member | corrected member |
|---|---|---|---|---|---|---|
| CSharp-Utils/Utils/StatusLogger/StatusLoggerService.cs:9-45 | `_log` is declared as `Collection<T>`, so `_log.Add(e)` calls the base `Add`, which the collection's `new Add` does not override; the 1000-item limit is never applied | 1001 change events with no sessions | the log keeps only the last 1000 events | not executed | StatusLoggerServices.LogOutgrowsLimit | StatusLoggerServices.BoundedLogKeepsLast |
| CSharp-Utils/MXIO/MXIOConnection.cs:98-104 | the DEBUG message and the MXIOException message use `{}` items, which `string.Format` rejects with a FormatException; the first failed call therefore escapes as a FormatException, with no retry and no MXIOException | Retries = 10, first vendor return code not MXIO_OK | indexed items `{0}` to `{4}`, so a failure is logged and retried, and the last one raises MXIOException | not executed | Mxio.AsWrittenNeverRetries | Mxio.RetriesRecover |
