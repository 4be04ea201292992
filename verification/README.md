# Mind map: a Dafny model of the learning-map client

The mind-map application lets a user build "learning maps". A map is a topic
that holds draggable nodes joined by connections. Persistence, authentication
and caching belong to a hosted backend and a query-cache library. What the
client itself decides is small but exact:

- how database rows become the view records (connection counts, defaults);
- which cached records an optimistic mutation touches, and how it rolls back;
- how a drag gesture turns pointer events into positions and a single
  persist call;
- what the modals accept and reset;
- which fields the services send, and under which names;
- how the topic list is filtered and sorted;
- how explore pages are cut and chained;
- how key combinations are spelled;
- which environment variables are demanded.

This project states each of those as pure Dafny functions over immutable
sequences and maps, and proves the properties the code promises. There is
one module per area of the code:

| module | covers |
|---|---|
| `Wrappers`, `Strings`, `Seqs`, `Records` | Option/Result, JavaScript string truthiness, trimming and UTF-16 length, filtering and subsequences, backend responses and rows |
| `Graph` | node/connection client state shared by both versions of the nodes hook |
| `NodeHooks` | the legacy nodes hook, and the optimistic cache maps of the query-based one |
| `Drag` | the two `MapNode` drag state machines and `useDraggable` |
| `Canvas` | both `TopicMapPage` controllers: zoom, edges, drag protocol, save/delete, shortcuts |
| `Forms`, `FormValidation` | node, topic, auth and profile modals; `useFormValidation` |
| `NodeServices`, `TopicServices` | node, connection, topic and user services |
| `Topics`, `Home` | topic hooks, visibility toggle, home-page filter, sort and shortcuts |
| `Explore` | explore service pagination, fallback, and the infinite-query hooks |
| `Keyboard`, `Env` | key-combination strings, environment validation |

Backend answers, hook outcomes, the platform flag, lower-casing and collation
are parameters. Every call whose outcome matters is an `Outcome`
(succeeded, or failed with a message) or a `Response` (data and/or error)
that the caller passes in.

## Model

| member | source | states |
|---|---|---|
| Graph.TransformNodesAndConnections | src/features/nodes/hooks/useNodes.js:8-38 | the result is the view of the rows (`IsView`): one node per row, in order, with id/title/description/position copied and `connectionCount` the number of connection endpoints equal to that id; one connection per row, in order, `from`/`to` renamed |
| Graph.ViewUnique | src/features/nodes/hooks/useNodes.js:8-38 | the view of given rows is unique, so any two results of the transform agree |
| Graph.CountEndpoints | src/features/nodes/hooks/useNodes.js:19-23 | the count map agrees with the reference count for every id, absent ids reading 0 |
| Graph.UnconnectedNodeCountsZero | src/features/nodes/hooks/useNodes.js:26-28 | a node named by no connection gets count 0 |
| Graph.SelfLoopCountsTwice | src/features/nodes/hooks/useNodes.js:19-23 | a self-connection adds 2 to its node's count |
| Graph.CountFixture | src/hooks/__tests__/useNodes.test.js:74-116 | the fixture's counts: node-1 has 2, node-2 and node-3 have 1 |
| Graph.GetNodeById | src/features/nodes/hooks/useNodes.js:206-208 | finds a node iff one has the id, and then the first such node |
| Graph.NeighbourIds | src/features/nodes/hooks/useNodes.js:162-168 | the ids joined to the node by a connection in either direction, exactly, one entry per touching connection |
| Graph.NeighbourMultiplicity | src/features/nodes/hooks/useNodes.js:162-168 | each id is listed once per connection linking it to the node, so a doubled connection lists it twice |
| Graph.LinkCount | src/features/nodes/hooks/useNodes.js:162-168 | mapping the touching connections to their far ends keeps one entry per connection reaching a given id |
| Graph.GetConnectedNodes | src/features/nodes/hooks/useNodes.js:195-201 | exactly the nodes adjacent in either direction, in node-list order |
| Graph.MergeInto | src/hooks/useNodes.js:116-120 | only nodes with the id change, and only in the defined patch fields; ids and counts everywhere stay |
| Graph.UpdateNodePositionLocal | src/features/nodes/hooks/useNodes.js:213-217 | only the matching node's position changes; every other node and the connection list are unchanged |
| Graph.FindAfterPositionUpdate | src/hooks/useNodes.js:133-140 | after a local move, looking the node up gives the same node with the new position |
| Graph.PositionUpdateLastWins | src/hooks/useNodes.js:133-140 | two local moves of one node equal the second move alone |
| Graph.DeleteNodeLocal | src/hooks/useNodes.js:173-176 | removes exactly the node and every connection with that endpoint; the rest keep their order |
| Graph.DeleteLeavesNoDanglingReference | src/hooks/useNodes.js:173-176 | after the delete the id resolves to nothing and no node is adjacent to it |
| Graph.FindJoining | src/features/nodes/hooks/useNodes.js:176-178 | finds a stored connection in either orientation iff the two nodes are adjacent |
| Graph.FindJoiningIsFirst | src/features/nodes/hooks/useNodes.js:176-178 | `find` returns the first connection joining the two nodes, in either orientation |
| Graph.FindJoiningInTouching | src/features/nodes/hooks/useNodes.js:162-178 | searching only the connections that touch the node finds the same connection as searching all of them |
| Graph.RemovalCalls | src/features/nodes/hooks/useNodes.js:174-183 | each removal deletes the stored orientation `(from, to)` of a connection joining the two nodes |
| Graph.RemovalCallFound | src/features/nodes/hooks/useNodes.js:174-183 | when every removed id is adjacent, the k-th delete is the `(from, to)` of the connection `find` yields for the k-th id |
| Graph.AdditionIds | src/features/nodes/hooks/useNodes.js:170 | `toAdd` is exactly the new ids not currently adjacent, in their order |
| Graph.RemovalIds | src/features/nodes/hooks/useNodes.js:171 | `toRemove` is exactly the current neighbours not in the new list, in connection order |
| Graph.RemovalMultiplicity | src/features/nodes/hooks/useNodes.js:171 | a requested id is never in `toRemove`; any other occurs there once per connection linking it to the node |
| Graph.CreateCalls | src/features/nodes/hooks/useNodes.js:173 | one `create(nodeId, id)` per added id, in order |
| Graph.DeleteCalls | src/features/nodes/hooks/useNodes.js:174-183 | for ids that are all neighbours, one delete per id, each the stored orientation of the first connection joining the two |
| Graph.PlanConnectionUpdate | src/features/nodes/hooks/useNodes.js:162-185 | both set differences, one create `(nodeId, id)` per addition, and per removal one delete of the stored orientation of the first connection joining the two |
| Graph.PlanDisjoint | src/features/nodes/hooks/useNodes.js:170-171 | nothing is both added and removed |
| Graph.PlanReachesTarget | src/features/nodes/hooks/useNodes.js:170-171 | current neighbours plus additions minus removals equal the requested set |
| Graph.ReconcileSets | src/features/nodes/hooks/useNodes.js:170-171 | adding the targets not present and removing the present ids not targeted yields exactly the target set |
| Graph.ReconcileExample | src/hooks/useNodes.js:246-268 | a worked plan: neighbours A (stored N→A) and B (stored B→N), target [B, C]: add C, remove A, delete (N, A) |
| NodeHooks.CreateNodeInsert | src/features/nodes/hooks/useNodes.js:74-79 | the insert keeps topic and title, takes `description` or else `notes`, and defaults the position to (300, 300) |
| NodeHooks.ConnectionCreates | src/hooks/useNodes.js:89-94 | one `create(newNode.id, id)` per requested id, in order |
| NodeHooks.CreateNodeFixture | src/hooks/__tests__/useNodes.test.js:173-211 | the test's create issues exactly `create("node-new", "node-1")` |
| NodeHooks.Load | src/hooks/useNodes.js:17-66 | a falsy topic id loads nothing; otherwise loading ends with the view of the fetched rows (every field) and no error, or with the error and the old data |
| NodeHooks.LegacyUpdateNode | src/hooks/useNodes.js:112-126 | on success the merge is applied to the matching node; on failure the error is set, data kept, failure rethrown |
| NodeHooks.LegacyUpdateNodePositionLocal | src/hooks/useNodes.js:133-140 | only the matching node's position is replaced; error and connections untouched |
| NodeHooks.LegacyUpdateNodePosition | src/hooks/useNodes.js:147-162 | the local update happens and a failed persist is swallowed: error never set |
| NodeHooks.LegacyDeleteNode | src/hooks/useNodes.js:168-182 | on success the cascade delete; on failure error set, data kept, failure rethrown |
| NodeHooks.QueryNodes | src/features/nodes/hooks/useNodes.js:56-66 | a falsy topic gives empty data; otherwise the backend's failure, or the view of the fetched rows (every field) |
| NodeHooks.OnMutateUpdate | src/features/nodes/hooks/useNodes.js:99-110 | snapshots the cache; the optimistic cache is the patch merged into the nodes with that id: those get the patched fields, every other node is unchanged |
| NodeHooks.OnMutatePosition | src/features/nodes/hooks/useNodes.js:119-130 | snapshots the cache; the optimistic cache changes only positions |
| NodeHooks.OnError | src/features/nodes/hooks/useNodes.js:111-113 | the rollback writes back the snapshot |
| NodeHooks.UpdateRollbackRestores | src/features/nodes/hooks/useNodes.js:102-113 | an update followed by its rollback restores the cache exactly |
| NodeHooks.PositionRollbackRestores | src/features/nodes/hooks/useNodes.js:122-134 | a position update followed by its rollback restores the cache exactly |
| NodeHooks.OptimisticUpdateOnlyTouchesTarget | src/features/nodes/hooks/useNodes.js:104-107 | looking up any other id after the optimistic update finds what it found before |
| NodeHooks.OptimisticUpdateReachesTarget | src/features/nodes/hooks/useNodes.js:104-107 | looking up the updated id after the optimistic update finds the node found before, with the patch applied |
| NodeHooks.ErrorMessage | src/features/nodes/hooks/useNodes.js:224 | the error message when it is non-empty, null otherwise |
| Drag.PointerOf | src/features/nodes/components/MapNode.jsx:26-27 | coordinates come from `clientX`/`clientY`, then the first touch, then 0 |
| Drag.PointerDown | src/features/nodes/components/MapNode.jsx:21-34 | disabled or off-handle presses change nothing; a handle press starts dragging with offset = pointer − position |
| Drag.PointerMove | src/features/nodes/components/MapNode.jsx:46-52 | reports iff dragging, and reports pointer − offset |
| Drag.PointerUp | src/features/nodes/components/MapNode.jsx:54-57 | always ends in idle; emits drag-end iff a drag was under way |
| Drag.Click | src/features/nodes/components/MapNode.jsx:36-41 | fires iff idle, on the body, with a handler |
| Drag.MoveToPressPointRestores | src/features/nodes/components/MapNode.jsx:24-51 | moving to the press point reports the original position |
| Drag.ClickExclusiveWithDrag | src/features/nodes/components/MapNode.jsx:36-41 | no click while dragging or on the handle |
| Drag.DisabledNeverDrags | src/features/nodes/components/MapNode.jsx:21-22 | with dragging disabled no press starts a drag |
| Drag.MovesWhileDragging | src/features/nodes/components/MapNode.jsx:46-51 | any run of moves keeps the state and reports pointer − offset for each move |
| Drag.GestureEndsOnce | src/features/nodes/components/MapNode.jsx:21-71 | press, moves, release: one report per move, then exactly one drag-end, ending idle |
| Drag.ConnectionLabel | src/features/nodes/components/MapNode.jsx:116-122 | a label iff a count is given; it starts with the count and is plural iff the count is not 1 |
| Drag.ConnectionLabelExamples | src/features/nodes/components/MapNode.jsx:119 | "1 connection", "0 connections", "3 connections" |
| Drag.MouseDown | src/components/MapNode.jsx:9-20 | the mouse variant's press: ignored when disabled or off-handle, else offset = client − position |
| Drag.MouseMove | src/components/MapNode.jsx:32-36 | the mouse variant reports client − offset while dragging |
| Drag.MouseVariantAgrees | src/components/MapNode.jsx:9-41 | the mouse variant is the pointer machine fed mouse coordinates |
| Drag.InitDraggable | src/shared/hooks/useDraggable.js:11-13 | starts idle at the initial position |
| Drag.ResetPosition | src/shared/hooks/useDraggable.js:16-18 | a new initial position replaces the position and nothing else |
| Drag.DraggableDown | src/shared/hooks/useDraggable.js:20-31 | ignored when disabled; otherwise any press starts a drag with offset = pointer − position |
| Drag.DraggableMove | src/shared/hooks/useDraggable.js:36-44 | while dragging the position becomes pointer − offset; idle moves change nothing |
| Drag.DraggableUp | src/shared/hooks/useDraggable.js:46-51 | ends the drag and reports the current position iff dragging and a callback exists |
| Drag.DraggableGesture | src/shared/hooks/useDraggable.js:20-51 | a press-move-release reports the start position shifted by the pointer's displacement |
| Canvas.ZoomIn | src/features/nodes/pages/TopicMapPage.jsx:69-71 | min(z + 10, 200) |
| Canvas.ZoomOut | src/features/nodes/pages/TopicMapPage.jsx:73-75 | max(z − 10, 50) |
| Canvas.ZoomStepsPreserveValid | src/features/nodes/pages/TopicMapPage.jsx:69-75 | both buttons keep a valid zoom (in [50, 200], a multiple of 10) valid |
| Canvas.InitialZoomValid | src/features/nodes/pages/TopicMapPage.jsx:21 | the initial zoom of 100 is valid |
| Canvas.ZoomAlwaysValid | src/pages/TopicMapPage.jsx:20-72 | any sequence of presses from a valid zoom stays valid |
| Canvas.ConnectionLines | src/features/nodes/pages/TopicMapPage.jsx:146-161 | every line belongs to a connection whose endpoints both resolve, keys increase, and every resolving connection is drawn |
| Canvas.AllResolveAllDrawn | src/pages/TopicMapPage.jsx:221-234 | when every endpoint resolves, there is one line per connection, in order |
| Canvas.HandleNodeDrag | src/features/nodes/pages/TopicMapPage.jsx:77-80 | a drag report is a local update and makes no call |
| Canvas.HandleNodeDragEnd | src/features/nodes/pages/TopicMapPage.jsx:82-88 | one persist call with the stored position, or nothing for a missing node |
| Canvas.DragSessionKeepsNode | src/pages/TopicMapPage.jsx:74-77 | after any run of drag reports the node resolves, carrying the last reported position |
| Canvas.DragEndPersistsLastPosition | src/features/nodes/pages/TopicMapPage.jsx:77-88 | after a drag session, drag-end persists exactly the last reported position, once |
| Canvas.HandleNodeClick | src/features/nodes/pages/TopicMapPage.jsx:100-106 | selects and opens details only for an id that resolves |
| Canvas.HandleAddNode | src/features/nodes/pages/TopicMapPage.jsx:90-98 | creates with the given connections or `[]`; closes on success, alerts on failure |
| Canvas.HandleSaveNode | src/features/nodes/pages/TopicMapPage.jsx:108-130 | updates iff title or description is truthy; a failed `updateNode` is rethrown before any `updateConnections` and leaves the page; a failed `updateConnections` is rethrown and leaves the page; otherwise success, with the selection absorbing the updates |
| Canvas.HandleDeleteNode | src/features/nodes/pages/TopicMapPage.jsx:132-143 | no-op without a selection; success closes details and clears the selection; failure alerts |
| Canvas.OnShortcut | src/features/nodes/pages/TopicMapPage.jsx:164-190 | nothing before topic and nodes load; Ctrl+n and Delete only outside visitor mode, Delete only with a selection; Escape closes both modals, clears the selection only if details were open, and changes nothing else |
| Canvas.VisitorShortcutsMakeNoCalls | src/features/nodes/pages/TopicMapPage.jsx:166-187 | in visitor mode no shortcut calls the hooks or opens the add-node modal |
| Forms.Toggle | src/components/NodeDetailsModal.jsx:64-72 | flips membership of the id, keeps every other id, appends when absent |
| Forms.ToggleKeepsNoDuplicates | src/components/NodeDetailsModal.jsx:64-72 | a duplicate-free selection stays duplicate-free |
| Forms.ToggleTwice | src/components/NodeDetailsModal.jsx:64-72 | two toggles restore the set, and the list itself when the id was absent |
| Forms.DetailsCancel | src/components/NodeDetailsModal.jsx:38-43 | back to the node's title, description (or empty) and connected ids, out of edit mode |
| Forms.DetailsSaveHandler | src/components/NodeDetailsModal.jsx:45-62 | saves iff the trimmed title is non-empty, with trimmed fields; alerts on blank title and on failure |
| Forms.SavedTitleNonEmpty | src/components/NodeDetailsModal.jsx:46-56 | a saved title is non-empty and already trimmed |
| Forms.SelectableNodes | src/components/NodeDetailsModal.jsx:75 | every available node except the node itself, in order |
| Forms.DetailsButtonMatchesHandler | src/components/NodeDetailsModal.jsx:208 | the save button is disabled exactly when the handler would refuse |
| Forms.AddNodeSubmit | src/features/nodes/components/AddNodeModal.jsx:19-35 | submits iff the trimmed title is non-empty, with trimmed fields, then resets and closes |
| Forms.AddNodeCancel | src/features/nodes/components/AddNodeModal.jsx:37-42 | empties title, notes and selection, and closes |
| Forms.AddNodeToggle | src/features/nodes/components/AddNodeModal.jsx:44-48 | flips membership of one id and keeps the text fields |
| Forms.AddNodeButtonMatchesHandler | src/features/nodes/components/AddNodeModal.jsx:142 | the submit button is disabled exactly when submit would do nothing |
| Forms.TopicSubmit | src/features/topics/components/NewTopicModal.jsx:23-41 | submits iff the trimmed name is non-empty (iff the form is valid), with the theme's colours and node count 0, then resets |
| Forms.TopicClose | src/features/topics/components/NewTopicModal.jsx:43-49 | back to empty text, the first theme, private |
| Forms.InitialTopicFormIsBlueAndPrivate | src/features/topics/components/NewTopicModal.jsx:6-21 | the initial form uses the first (blue) theme, is private and is not yet valid |
| Forms.AuthSubmitHandler | src/features/auth/components/AuthModal.jsx:15-39 | the required check precedes the length check on the password's UTF-16 length; both validation failures leave `loading` alone; sign-in happens iff both pass; the modal closes iff sign-in succeeds |
| Forms.AuthCountsCodeUnits | src/features/auth/components/AuthModal.jsx:25 | a four-character password with two astral characters is six code units long and passes; three BMP characters do not |
| Strings.Utf16Length | src/features/auth/components/AuthModal.jsx:25 | `password.length`: between one and two code units per character, zero only for the empty string |
| Strings.Utf16LengthAppend | src/features/auth/components/AuthModal.jsx:25 | the length of a concatenation is the sum of the lengths |
| Strings.Utf16LengthBmp | src/features/auth/components/AuthModal.jsx:25 | a string of BMP characters has one code unit per character |
| Forms.AuthClose | src/features/auth/components/AuthModal.jsx:41-46 | clears email, password and error |
| Forms.ShownName | src/features/users/components/UserProfileModal.jsx:16 | the local edit, else the stored name, else empty |
| Forms.ProfileSubmit | src/features/users/components/UserProfileModal.jsx:18-35 | updates iff the shown name is non-blank, with the trimmed name; errors on blank and on failure |
| Forms.ProfileClose | src/features/users/components/UserProfileModal.jsx:37-42 | drops the local edit and both messages |
| Forms.ProviderLabel | src/features/users/components/UserProfileModal.jsx:49-58 | google→Google, github→GitHub, anything else→Email |
| Forms.ProfileSaveDisabledCases | src/features/users/components/UserProfileModal.jsx:116 | save is disabled while updating or when the name equals the stored one |
| FormValidation.Init | src/shared/hooks/useFormValidation.js:10-12 | initial values, no errors, nothing touched |
| FormValidation.Change | src/shared/hooks/useFormValidation.js:14-28 | sets only that value and clears only that field's error |
| FormValidation.Blur | src/shared/hooks/useFormValidation.js:30-43 | marks the field touched and sets only that field's error, if the validator reports one |
| FormValidation.Submit | src/shared/hooks/useFormValidation.js:45-72 | errors become the full validation, all value keys touched; submits iff no errors or no validator |
| FormValidation.Reset | src/shared/hooks/useFormValidation.js:74-78 | back to the initial state |
| FormValidation.ChangeClearsBlurError | src/shared/hooks/useFormValidation.js:14-43 | an error set by blur is cleared by the next change to that field |
| FormValidation.SubmitOutcomeMatchesErrors | src/shared/hooks/useFormValidation.js:50-65 | the submit goes through iff the stored errors are empty afterwards |
| FormValidation.ResetAfterEdits | src/shared/hooks/useFormValidation.js:74-78 | reset after any change and blur is the initial state |
| NodeServices.NodesByTopic | src/features/nodes/services/nodesService.js:9-18 | throws the error; null data is `[]` |
| NodeServices.ConnectionCount | src/features/nodes/services/nodesService.js:107-112 | throws the error; null count is 0 |
| NodeServices.CreateRow | src/features/nodes/services/nodesService.js:41-57 | exactly `topic_id`, title, description and position, the position defaulting to (300, 300) |
| NodeServices.HookCreateLandsAtDefault | src/features/nodes/hooks/useNodes.js:74-79 | a node created through the hook lands at the caller's position or at (300, 300) |
| NodeServices.UpdateBody | src/features/nodes/services/nodesService.js:65-80 | sends exactly the defined ones of title, description and position |
| NodeServices.UpdatePositionBody | src/features/nodes/services/nodesService.js:88-90 | the body is the position alone |
| NodeServices.NodeWrite | src/features/nodes/services/nodesService.js:96-100 | fails iff the backend reports an error |
| NodeServices.TopicFilterNamesEveryNode | src/services/connectionsService.js:26 | the topic filter names every node id of the topic |
| NodeServices.ConnectionsByTopic | src/services/connectionsService.js:9-30 | a failed node query throws its error; null node data throws the `map` TypeError; no nodes gives `[]` with no connection query; else the connection query's error, or its rows with null as `[]` |
| NodeServices.NodeFilterSplits | src/services/connectionsService.js:41 | the node filter is the `from` clause and the `to` clause joined by one comma |
| NodeServices.Either | src/services/connectionsService.js:76-77 | `a \|\| b` on optional ids |
| NodeServices.CreateManyRows | src/services/connectionsService.js:74-87 | one row per item, in order, each end taking the first truthy of its two spellings |
| NodeServices.DeleteExact | src/services/connectionsService.js:94-102 | removes exactly the rows matching the ordered pair |
| NodeServices.DeleteKeepsReverse | src/services/connectionsService.js:98-99 | the reverse orientation survives an exact-pair delete |
| NodeServices.PlannedDeleteRemovesFound | src/features/nodes/hooks/useNodes.js:174-183 | each planned delete removes the connection the reconciliation found |
| Records.DataOr | src/features/topics/services/topicsService.js:8-16 | the backend error becomes the failure; otherwise the data, or the fallback (`[]` for `getAll`) when the data is null |
| TopicServices.CreateTopicRow | src/features/topics/services/topicsService.js:40-64 | refuses without a user; otherwise the snake-case row with the user's id and `is_public` false unless given true |
| TopicServices.TopicUpdateBody | src/features/topics/services/topicsService.js:72-89 | sends exactly the defined fields, renamed to snake case |
| TopicServices.VisibilityUpdateBody | src/features/topics/services/topicsService.js:78 | a visibility update sends `is_public` alone |
| TopicServices.DeleteTopic | src/features/topics/services/topicsService.js:95-99 | fails iff the backend reports an error |
| TopicServices.GetProfile | src/features/users/services/userService.js:9-18 | throws every error except PGRST116, which reads as no profile |
| TopicServices.ProfileUpdateBody | src/features/users/services/userService.js:53-67 | sends exactly the defined `display_name` and `avatar_url` |
| TopicServices.EmailLocalPart | src/features/users/services/userService.js:88 | present iff the email is; a prefix of the email with no `@` that ends at the email's end or at an `@` |
| TopicServices.EmailLocalPartOfAddress | src/features/users/services/userService.js:88 | for `local@domain` with no `@` in `local` the result is `local`; an address without `@` is kept whole |
| TopicServices.DisplayName | src/features/users/services/userService.js:84-89 | the chosen name is never empty |
| TopicServices.FirstTruthyPicks | src/features/users/services/userService.js:84-89 | the first truthy candidate wins |
| TopicServices.FirstTruthyFallsBack | src/features/users/services/userService.js:84-89 | with no truthy candidate the fallback is used |
| TopicServices.DisplayNameIsFirstTruthy | src/features/users/services/userService.js:84-89 | the name is the first truthy of full_name, name, preferred_username, email local part, then "User" |
| TopicServices.DisplayNameFromEmail | src/features/users/services/userService.js:88 | with no metadata the name is the email's local part |
| TopicServices.AvatarUrl | src/features/users/services/userService.js:91 | `avatar_url \|\| picture \|\| null` |
| TopicServices.Provider | src/features/users/services/userService.js:81 | the auth provider, defaulting to "email" |
| TopicServices.SyncFromAuth | src/features/users/services/userService.js:74-100 | an existing profile is returned as is; none creates one from the fallback chains; other errors throw |
| TopicServices.ProfileRow | src/features/users/services/userService.js:29-45 | the created row: id, display name, avatar or null, provider |
| Topics.TransformTopic | src/features/topics/hooks/useTopics.js:7-18 | node count 0 when absent, private unless `is_public` is true, no creation date |
| Topics.TransformTopicDated | src/features/topics/hooks/useTopics.js:7-18 | the corrected transform: the same topic carrying its creation date |
| Topics.QueryTopics | src/features/topics/hooks/useTopics.js:35-38 | one transformed topic per row, in order |
| Topics.CreateSuccess | src/features/topics/hooks/useTopics.js:44-54 | prepends the transform of the created row with node count 0 (so title, description, colours, owner and `is_public ?? false` all come from the row) |
| Topics.DeleteSuccess | src/features/topics/hooks/useTopics.js:60-63 | removes exactly the topics with that id, keeping the order of the rest |
| Topics.UpdateSuccess | src/features/topics/hooks/useTopics.js:69-86 | rewrites title, description and colours of the matching topic only, keeping its count and visibility |
| Topics.CreateThenDeleteRestores | src/features/topics/hooks/useTopics.js:44-63 | creating a fresh id then deleting it restores the cache |
| Topics.UpdateKeepsIds | src/features/topics/hooks/useTopics.js:69-86 | an update keeps the list of ids |
| Topics.QueryError | src/features/topics/hooks/useTopics.js:92 | null without an error or with an empty message; otherwise exactly the message |
| Topics.LegacyTransform | src/hooks/useTopics.js:28-35 | the legacy fields agree with the current transform |
| Topics.LoadTopics | src/hooks/useTopics.js:21-44 | loading ends with each row's legacy transform, in order, and no error, or with the error and the old list |
| Topics.LegacyCreate | src/hooks/useTopics.js:51-72 | prepends and returns the legacy transform of the created row with count 0; on failure sets the error and rethrows |
| Topics.LegacyDelete | src/hooks/useTopics.js:78-87 | removes the id only after success; on failure sets the error and keeps the list |
| Topics.LegacyUpdate | src/hooks/useTopics.js:94-117 | rewrites only the matching topic; on failure sets the error and keeps the list |
| Topics.OnMutateVisibility | src/features/users/hooks/useTopicVisibility.js:24-37 | snapshots the list and sets `isPublic` on the target topic only |
| Topics.OnErrorVisibility | src/features/users/hooks/useTopicVisibility.js:38-43 | restores the snapshot when there is one |
| Topics.ToggleVisibilityOutcome | src/features/users/hooks/useTopicVisibility.js:12-47 | always invalidates; failure leaves the list as before, success leaves the toggled list |
| Home.InsertByRank | src/features/topics/pages/HomePage.jsx:71-88 | insertion adds exactly the one element to the multiset |
| Home.InsertKeepsSorted | src/features/topics/pages/HomePage.jsx:71-88 | insertion into a sorted list keeps it sorted |
| Home.SortByRank | src/features/topics/pages/HomePage.jsx:71-88 | a sorted permutation |
| Home.TiedRanksKeepOrder | src/features/topics/pages/HomePage.jsx:85-86 | when every rank ties the order is kept |
| Home.InsertKeepsTies | src/features/topics/pages/HomePage.jsx:71-88 | inserting an element puts it after every element of its own rank |
| Home.SortKeepsTies | src/features/topics/pages/HomePage.jsx:71-88 | the sort is stable: for every rank, the elements of that rank come out in their input order |
| Home.FilterTopics | src/features/topics/pages/HomePage.jsx:61-68 | empty query keeps all; otherwise exactly the matches, in order |
| Home.ShownTopics | src/features/topics/pages/HomePage.jsx:57-91 | a permutation of the filtered topics, sorted by the chosen key |
| Home.ShownKeepsTies | src/features/topics/pages/HomePage.jsx:57-91 | topics the chosen order ranks equal are shown in the order the filter left them |
| Home.EmptyQueryShowsAll | src/features/topics/pages/HomePage.jsx:58-61 | with no query every topic is shown |
| Home.QueryShowsMatches | src/features/topics/pages/HomePage.jsx:62-67 | a topic is shown iff its lower-cased title or description contains the lower-cased query |
| Home.NodeOrders | src/features/topics/pages/HomePage.jsx:81-84 | nodes-desc is non-increasing and nodes-asc non-decreasing in node count |
| Home.OtherKeyKeepsOrder | src/features/topics/pages/HomePage.jsx:85-86 | an unknown key keeps the filtered order |
| Home.DateOrdersAsWritten | src/features/topics/pages/HomePage.jsx:73-76 | as written, both date orders leave the list unchanged |
| Home.DateAscCounterexample | src/features/topics/pages/HomePage.jsx:75-76 | two rows where "Oldest First" shows the newer first |
| Home.ShownAreDated | src/features/topics/pages/HomePage.jsx:73-76 | with the corrected transform every shown topic has a date |
| Home.DateAscCorrected | src/features/topics/pages/HomePage.jsx:75-76 | corrected: "date-asc" is oldest first |
| Home.DateDescCorrected | src/features/topics/pages/HomePage.jsx:73-74 | corrected: "date-desc" is newest first |
| Home.HomeCtrlN | src/features/topics/pages/HomePage.jsx:96-100 | opens the new-topic modal only outside visitor mode and changes nothing else |
| Home.HomeEscape | src/features/topics/pages/HomePage.jsx:105-115 | closes the modals, clears the query, and drops the pending delete only if that modal was open |
| Explore.PageRange | src/features/explore/services/exploreService.js:60-62 | page p asks for the inclusive range [12p, 12p + 12], 13 rows |
| Explore.RangeRows | src/features/explore/services/exploreService.js:62 | the rows the range returns, in order |
| Explore.PublicOrder | src/features/explore/services/exploreService.js:45-57 | oldest→created_at asc, title→title asc, nodes→node_count desc, else created_at desc |
| Explore.UserOrder | src/features/explore/services/exploreService.js:158-167 | the same without the nodes key |
| Explore.OrdersDifferOnlyOnNodes | src/features/explore/services/exploreService.js:158-167 | the two orders agree on every key but "nodes" |
| Explore.SearchFilter | src/features/explore/services/exploreService.js:40-42 | a filter iff the search is non-empty |
| Explore.SearchFilterSplits | src/features/explore/services/exploreService.js:40-42 | for a term without a comma the filter is the title clause, a comma, and the description clause, each holding the term between `%` wildcards |
| Explore.TransformPublicTopic | src/features/explore/services/exploreService.js:8-21 | node count 0, owner name "Anonymous" and avatar null by default |
| Explore.PageOf | src/features/explore/services/exploreService.js:74-75 | the first min(n, 12) rows transformed; `hasMore` iff n > 12 |
| Explore.ViewAnswer | src/features/explore/services/exploreService.js:64-77 | only 42P01 falls back; other errors throw; data gives the page |
| Explore.OwnerIds | src/features/explore/services/exploreService.js:113 | exactly the truthy owner ids, without duplicates |
| Explore.ProfilesById | src/features/explore/services/exploreService.js:122-125 | a profile for exactly the ids present, keyed by its own id |
| Explore.ProfilesByIdLastWins | src/features/explore/services/exploreService.js:122-125 | when several profiles share an id, the last one in the answer is kept |
| Explore.FallbackTopic | src/features/explore/services/exploreService.js:128-142 | the owner's profile name (or 'Anonymous' when empty) and avatar (or null) when found, else 'Anonymous' and no avatar |
| Explore.FallbackMatchesView | src/features/explore/services/exploreService.js:128-142 | the fallback gives what the view gives with the profile's columns joined in |
| Explore.FallbackAnswer | src/features/explore/services/exploreService.js:109-144 | throws the topic error; queries profiles iff some owner id is truthy; one topic per row of the page, built from that row and the profile map of the answer (empty when no profile query is made) |
| Explore.FallbackOwnerFromProfile | src/features/explore/services/exploreService.js:112-142 | a row whose owner has a profile in the answer shows the last such profile's name (or 'Anonymous') and avatar; an owner with no profile shows 'Anonymous' and no avatar |
| Explore.UserFallbackTopic | src/features/explore/services/exploreService.js:216-224 | no owner, node count 0 by default |
| Explore.PublicUserProfile | src/features/explore/services/exploreService.js:234-254 | PGRST116 is no profile; other errors throw; display name "Anonymous" by default |
| Explore.NextPageParam | src/features/explore/hooks/useExploreTopics.js:17 | the count of pages so far iff the last page has more |
| Explore.HookTopics | src/features/explore/hooks/useExploreTopics.js:22 | the pages' topics concatenated, `[]` before any page |
| Explore.HasNextPage | src/features/explore/hooks/useExploreTopics.js:28 | false unless the query says true |
| Explore.HookError | src/features/explore/hooks/useExploreTopics.js:30 | null without an error or with an empty message; otherwise exactly the message, which is then non-empty |
| Explore.UserQueryEnabled | src/features/explore/hooks/useUserPublicTopics.js:18 | enabled iff the user id is truthy |
| Explore.PageOfRange | src/features/explore/services/exploreService.js:60-75 | the page cut from a range is the slice of the whole list starting at 12p |
| Explore.ScrollToEnd | src/features/explore/hooks/useExploreTopics.js:15-22 | fetching until no page has more yields every row exactly once, in order |
| Keyboard.KeyName | src/hooks/useKeyboardShortcuts.js:31 | " " becomes "Space"; any other key is kept |
| Keyboard.ParseComboRoundTrip | src/hooks/useKeyboardShortcuts.js:24-32 | the combo string determines its modifiers and key name |
| Keyboard.ComboInjective | src/hooks/useKeyboardShortcuts.js:24-32 | different modifier sets or key names give different combo strings |
| Keyboard.OnKeyDown | src/hooks/useKeyboardShortcuts.js:15-45 | when disabled nothing is handled; otherwise the handler runs iff one exists for the exact combo |
| Keyboard.CtrlNExamples | src/hooks/useKeyboardShortcuts.js:21-32 | Ctrl is the meta key on Mac and the ctrl key elsewhere; fixed modifier order |
| Env.Missing | src/lib/env.js:6-16 | exactly the unset required variables, in declaration order |
| Env.ValidateEnv | src/lib/env.js:15-37 | fails on missing variables first; otherwise fails iff the URL does not start with "http" |
| Env.MissingMessageNamesEach | src/lib/env.js:18-24 | the failure message names every missing variable |
| Env.EmptyEnvironment | src/lib/env.js:15-24 | an empty environment misses every required variable |
| Env.UrlExamples | src/lib/env.js:27-34 | a URL without "http" fails and an https URL passes |

## Left out

- Edge geometry (`ConnectionLine`): square roots, arctangents and fractional offsets are floating point. Lines are modelled as connection keys only.
- Query building and execution against the hosted backend, RPCs and row-level security. Every call is its answer, passed in. The `created_at` descending order `getAll` requests is part of the query, so it is not modelled.
- `getById` in the node, connection and topic services, `getByNodeId`/`deleteByNodeId` beyond their filter string, and console logging: plain backend calls.
- Query-cache internals: invalidation, cancellation, refetch timing, `staleTime`. Only the cache-transforming functions are modelled.
- The order and partial failure of `Promise.all` in `createNode` and `updateConnections`. The calls are modelled as one independent list.
- Authentication hooks and services, the visitor-mode context, and `useUserProfile`: wrappers over the auth provider. Visitor mode is a flag.
- Theming and browser storage, `useInfiniteScroll` (IntersectionObserver), routing, the error boundary, the entry modules and the presentational components.
- Lower-casing and `localeCompare`. They are locale machinery, so lower-casing is a parameter and the title sort is a rank given by a `collate` parameter.
- The DOM side of shortcuts: focusing the search box on Ctrl+k and `preventDefault`. The platform check is an `isMac` flag.
- The shortcut hook under `src/shared/hooks` that the newer map page imports is not part of this model. The one under `src/hooks` is, and the page's handlers are modelled as the combos they register.
- Coordinates are unbounded integers: the code uses JavaScript numbers, and the model never divides or rounds them.
- A patch key set to `undefined` is an absent field; `null` and absent keys are not told apart.
- A missing node cache in the optimistic updates (`old` undefined) is not modelled: the cache is always present there.
- `err.message` being undefined is the empty message.
- A mix of dated and undated topics in the home sort is not modelled: the as-written model has none dated, the corrected one all dated.
- The legacy page's edit alert, the effect that loads the topic, and the loading and error render branches.
- The drag handle's rendering rule (hidden when disabled) is a predicate, with no contract of its own.
- Explore.TransformPublicTopic: title, description and colours are copied unchanged; the contract states the defaulted fields only.
- Explore.UserFallbackTopic: likewise, only the id, owner and node count are stated.
- TopicServices.DisplayName: its own contract states only non-emptiness. The full choice is in DisplayNameIsFirstTruthy.
- When a node has connections stored in both orientations to the same neighbour, `updateConnections` deletes only the orientation it finds first for each removal, and the other stays. The model states this behaviour (Graph.FoundDelete) and does not judge it.

## Findings

| source | as written | input that shows it | evidently intended | confidence | as-written member | corrected member |
|---|---|---|---|---|---|---|
| src/features/topics/pages/HomePage.jsx:73-76 | the date comparators read `createdAt`, which `transformTopic` (src/features/topics/hooks/useTopics.js:7-18) never sets, so every date is NaN, every comparison ties, and "Oldest First"/"Newest First" never reorder | rows b (created 2) then a (created 1), as the service returns them newest first; "date-asc" shows b, a | "date-asc" shows oldest first and "date-desc" newest first | not executed | Home.DateAscCounterexample | Home.DateAscCorrected |
