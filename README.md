# mqttui topic tree, topic pane and focus machine in Dafny

This project models the interactive core of `mqttui`, a terminal MQTT client. It covers three parts:

- **The message history** (`MqttHistory`). It keeps every received message in a tree of topic segments. The path of a node spelled with `/` is the node's topic. Beside the tree is an index from full topic to node. The tree answers the queries the user interface makes:
  - lookups through the index;
  - the child-index path of a topic;
  - the topics below a topic;
  - the list of visible topics for a set of expanded topics and an optional filter;
  - the tree items with their message and topic counts;
  - a substring search over the leaf names.
- **The topic pane** (`TopicOverview`). It holds the selected topic, the set of expanded (opened) topics and the topics of the last search. It moves the selection with saturating index arithmetic, and it opens, closes and toggles topics.
- **The focus state machine** of the application. It covers which pane has the keyboard (topic pane, JSON pane, clean-retained popup, search mode), what each key, scroll and click does to the focus and to the topic pane, and the receive-and-dispatch loop that redraws or quits.

## Modules

- `Strings` (`strings.dfy`):
  - the byte-wise order on leaves;
  - `contains` and `starts_with`;
  - `split('/')` and `join("/")`, with their round trips;
  - sorted insertion;
  - `position`.
- `TopicTree` (`topic_tree.dfy`):
  - the tree as an arena `seq<Node>`, where node 0 is the root with the empty leaf. Every node records its parent and its children in order;
  - `WellFormed`: children strictly sorted by leaf, and parents before their children;
  - walking segments down the tree, and the topic of a node;
  - inserting a child at its sorted place, and the lemmas that the insertion keeps the tree well formed and every earlier lookup unchanged;
  - `Step` and `Ingested`: the pure meaning of one iteration and of the whole segment loop in `entry`. A step reuses the child with that leaf or inserts exactly one new node at the sorted slot. Ingesting folds the steps over the segments.
- `Subtree` (`subtree.dfy`): the pre-order listing of a subtree, which is the order of ego_tree's `traverse`. Its elements are exactly the descendants of the subtree's root, each listed once.
- `Queries` (`queries.dfy`): `get_tree_identifier`, `get_topics_below` and `get_visible_topics`, as recursive functions that follow the code. Each has a lemma giving its meaning in terms of the tree.
- `TreeItems` (`tree_items.dfy`): `to_tree_items`. It covers the per-node counts, the `visible` flag, the child structure and the meta text, plus the count lemmas.
- `Search` (`search.dfy`): `search`, as written, with its results characterised.
- `History` (`mqtt_history.dfy`): the class `MqttHistory`. `add`/`entry` are imperative methods over the arena and the index. The queries are methods or functions tied to the `Queries`, `TreeItems` and `Search` functions. The invariant `Consistent` says three things:
  - the tree is well formed and the index follows the tree;
  - an indexed node has messages;
  - every non-root node with messages is indexed under its own topic.
- `Overview` (`topic_overview.dfy`): the class `TopicOverview`, with the selection arithmetic and the open/close/toggle effects as functions.
- `Interactive` (`interactive.dfy`):
  - focus, events, refresh;
  - the per-key actions and transitions as functions;
  - `Screen`, `EventStep` and `Run`: the whole visible state (focus, topic pane, JSON, clean and search-box requests) after one event, and the refreshes and final state of a sequence of events up to the first `Quit`;
  - the class `App`, whose methods `OnKey`, `OnUp`, `OnDown`, `OnClick`, `Dispatch` and `MainLoop` are proved against those functions.
- `Example` (`example.dfy`): the history of the repository's unit tests. It is four messages: on `test`, `foo/test`, `test` and `foo/bar`. `ExampleHistory` builds it with four calls of `Add`, and the unit-test expectations are proved about the resulting tree.

### Behaviour kept as the code has it

- **Search uses the last match's leaf.** Every result of `search` is built from the leaf of the *last* matching node, not from each match's own leaf (mqtt_history.rs:89, :98). The walk to the root also stops at the first ancestor whose leaf is empty. `Search.SearchUsesLastLeaf` states this. `Search.SearchSingleMatch` shows that with a single match the result is that match's topic.
- **An empty query hides everything.** With the query `Some(q)`, an entry survives only if some element of `q` contains it or is a prefix of it. So `Some({})` keeps nothing (`Queries.VisibleFiltered`, `Queries.EmptyQueryKeepsNothing`). The unit tests at mqtt_history.rs:353-366 pass `Some(HashSet::new())` and expect `["foo", "test"]`. As written, the code returns `[]` for them (`Example.ExampleEmptyQuery`). The listing properties are therefore stated with the query `None`, for which the tests' expectations hold (`Example.ExampleVisibleClosed`, `Example.ExampleVisibleOpened`). `to_tree_items` with an empty query still counts 3 topics and builds 2 items. Only the `visible` flags are all false.
- **`open` is restricted.** It opens the selected topic only when that topic is a substring of the fixed string `"gps/v1/l/867378033978818"` (topic_overview.rs:103).
- **Enter in search mode keeps the focus.** Enter merges the search results into the opened topics, records them as the query and stays in search mode (mod.rs:365-369). Only Esc returns to the topic pane.
- **The files do not type-check against one another.** The model resolves the mismatches as follows:
  - `search` returns `Option<HashSet>`, while `search_for_word` returns a `HashSet`. `Interactive.Found` maps "no result" to the empty set.
  - `set_opened` takes a `Vec` but is passed a set. `SetOpened` takes a set.
  - `get_query_items` is not defined in topic_overview.rs. It is modelled as returning the topics of the last search.

## Model

| member | source | states |
|---|---|---|
| Strings.BelowTotal | src/interactive/mqtt_history.rs:63 | the leaf order is total: of two different leaves one sorts below the other (with `BelowIrreflexive`, `BelowTransitive`: a strict total order) |
| Strings.ContainsIffOccurs | src/interactive/mqtt_history.rs:88 | `contains` holds exactly when the word occurs at some position |
| Strings.SplitJoin | src/interactive/mqtt_history.rs:111 | splitting a `/`-joined list of slash-free segments gives the list back |
| Strings.JoinSplit | src/interactive/mqtt_history.rs:61 | joining the segments of `split('/')` gives the topic back |
| Strings.JoinInjective | src/interactive/mqtt_history.rs:111 | different slash-free segment lists join to different topics |
| Strings.SortedInsert | src/interactive/mqtt_history.rs:63-75 | inserting a leaf before the first leaf not below it keeps the children strictly sorted, and the leaf was not there |
| Strings.FirstNotBelow | src/interactive/mqtt_history.rs:63 | the found slot: every earlier leaf sorts below the segment, the one at the slot does not |
| Strings.IndexOf | src/interactive/mqtt_history.rs:145-148 | the position is of an equal element with none equal before it, and there is none exactly when the element is absent |
| TopicTree.WalkPath | src/interactive/mqtt_history.rs:61-76 | walking segments from the root reaches a node whose path is those segments |
| TopicTree.PathWalk | src/interactive/mqtt_history.rs:61-76 | walking a node's own path from the root reaches that node |
| TopicTree.TopicInjective | src/interactive/mqtt_history.rs:77 | different non-root nodes have different topics |
| TopicTree.InsertedWellFormed | src/interactive/mqtt_history.rs:60-76 | inserting a new child at its sorted slot keeps every node's children strictly sorted and unique |
| TopicTree.InsertedLookupNew | src/interactive/mqtt_history.rs:69-74 | after the insertion the parent's child with that leaf is the new node |
| TopicTree.WalkKept | src/interactive/mqtt_history.rs:69-74 | every walk that succeeded before an insertion reaches the same node after it |
| TopicTree.StepFound | src/interactive/mqtt_history.rs:62-67 | when the parent already has a child with the segment as leaf, the step returns that child and leaves the tree unchanged |
| TopicTree.StepNew | src/interactive/mqtt_history.rs:68-74 | otherwise the step inserts exactly one node, with the next id, at the first child not sorting below the segment |
| TopicTree.StepChild | src/interactive/mqtt_history.rs:62-75 | after a step the tree is well formed and only grew, the parent's child with the segment is the returned node, and every earlier walk still succeeds |
| TopicTree.StepLeaves | src/interactive/mqtt_history.rs:63-74 | after a step the parent's children are strictly sorted and their leaves are the old ones plus the segment |
| TopicTree.StepsCommute | src/interactive/mqtt_history.rs:63-74 | two steps under one parent in either order leave the same children leaves in the same order: the layout does not depend on arrival order |
| TopicTree.IngestedGrows | src/interactive/mqtt_history.rs:60-76 | ingesting segments keeps the tree well formed, only adds nodes and keeps every earlier walk |
| TopicTree.IngestedWalks | src/interactive/mqtt_history.rs:60-76 | after ingesting segments, walking them reaches the node the ingestion returned |
| TopicTree.IngestedFound | src/interactive/mqtt_history.rs:60-76 | when the walk already succeeds, ingesting adds nothing and returns the walk's node |
| Strings.SortedSameElements | src/interactive/mqtt_history.rs:63-74 | two strictly sorted leaf lists with the same elements are equal |
| Subtree.PreOrderSound | src/interactive/mqtt_history.rs:85 | every listed node descends from the subtree's root |
| Subtree.PreOrderComplete | src/interactive/mqtt_history.rs:85 | every descendant of the subtree's root is listed |
| Subtree.PreOrderDistinct | src/interactive/mqtt_history.rs:85 | no node is listed twice |
| Queries.TreeIdentifierWalk | src/interactive/mqtt_history.rs:141-153 | the identifier exists exactly when every segment is found; it has one index per segment, and following the indices reaches the node the segments name |
| Queries.TopicsBelowMeaning | src/interactive/mqtt_history.rs:155-185 | a missing path gives `[]`; otherwise the result is the topics, in pre-order, of the subtree nodes that have messages |
| Queries.TopicsBelowMember | src/interactive/mqtt_history.rs:164-166 | a node is among those listed exactly when it descends from the topic's node and has messages |
| Queries.WithHistory | src/interactive/mqtt_history.rs:164-166 | keeps exactly the nodes with messages |
| Queries.VisibleFromIs | src/interactive/mqtt_history.rs:192-213 | the listing below a shown node is the pre-order of its subtree restricted to the nodes whose ancestors are all opened |
| Queries.ClosedHidesBelow | src/interactive/mqtt_history.rs:203-212 | nothing below a closed topic is listed |
| Queries.VisibleUnfiltered | src/interactive/mqtt_history.rs:215-230 | without a query the visible list is the tree's pre-order restricted to the shown nodes |
| Queries.VisibleMember | src/interactive/mqtt_history.rs:187-231 | without a query a topic is visible exactly when every proper ancestor topic is opened |
| Queries.VisibleFiltered | src/interactive/mqtt_history.rs:220-229 | with `Some(q)` a topic is kept exactly when it is visible and some element of `q` contains it or is its prefix; `Some({})` keeps nothing |
| Queries.KeepMatching | src/interactive/mqtt_history.rs:222-227 | the filter keeps exactly the entries the query matches |
| Queries.EmptyQueryKeepsNothing | src/interactive/mqtt_history.rs:222-227 | the empty query filters every entry out |
| TreeItems.GenerateCounts | src/interactive/mqtt_history.rs:251-265 | a node's generator counts its own messages, the messages in its strict subtree and the topics with messages in its strict subtree |
| TreeItems.GenerateListCounts | src/interactive/mqtt_history.rs:255-265 | the sums over the children equal the message total and the count of topics with messages below them |
| TreeItems.WithHistoryCard | src/interactive/mqtt_history.rs:259-265 | over a list without repeats, the number of nodes with messages is the size of that set |
| TreeItems.RootListing | src/interactive/mqtt_history.rs:291-296 | the root's children list every non-root node exactly once |
| TreeItems.ToTreeItemsTotal | src/interactive/mqtt_history.rs:298-301 | the topic total is the number of non-root nodes with messages |
| TreeItems.GenerateItem | src/interactive/mqtt_history.rs:240-288 | an item has the node's leaf, one child per child node in order, `visible` = the query match, the last payload as meta or else the counts summary |
| TreeItems.ToTreeItemsShape | src/interactive/mqtt_history.rs:302-306 | there is one item per child of the root, in order, with that child's leaf and match flag |
| Search.MatchingMember | src/interactive/mqtt_history.rs:85-95 | the matches are exactly the listed nodes whose leaf contains the word |
| Search.SearchNone | src/interactive/mqtt_history.rs:113-115 | the result is `None` exactly when no leaf contains the word |
| Search.SearchHasEveryMatch | src/interactive/mqtt_history.rs:96-112 | every matching node contributes its ancestors' leaves joined with the last match's leaf |
| Search.SearchUsesLastLeaf | src/interactive/mqtt_history.rs:89-98 | every result ends with the leaf of the last match in traversal order |
| Search.UpLeavesPath | src/interactive/mqtt_history.rs:100-110 | when no ancestor has an empty leaf, the upward walk collects the node's path without its own leaf |
| Search.SearchSingleMatch | src/interactive/mqtt_history.rs:82-117 | with exactly one match, the result is that node's own topic |
| Search.ResultTopicsEmpty | src/interactive/mqtt_history.rs:113-116 | the result set is empty exactly when there are no matches |
| History.AddEffect | src/interactive/mqtt_history.rs:119-127 | appending to the entry's node keeps the index and histories consistent, adds one entry to the topic, and leaves every other topic's lookup and every other node's history unchanged |
| History.AddedLookups | src/interactive/mqtt_history.rs:119-127 | the arena `Added` (the ingested tree with the entry appended at the topic's node) with the index extended by the topic is consistent, the topic's history is the old one plus the entry, and every other topic's lookup is unchanged |
| History.IndexedAdd | src/interactive/mqtt_history.rs:77 | indexing the topic at the node its segments reach keeps the index following the tree |
| History.MqttHistory.constructor | src/interactive/mqtt_history.rs:49-54 | a new history is a root with the empty leaf and an empty index |
| History.MqttHistory.Get | src/interactive/mqtt_history.rs:129-132 | `Some` exactly for indexed topics, and then with at least one message |
| History.MqttHistory.GetLast | src/interactive/mqtt_history.rs:134-139 | the last element of the topic's history; `Some` exactly for indexed topics |
| History.MqttHistory.Add | src/interactive/mqtt_history.rs:119-127 | keeps the invariant; the new arena is `Added` of the old one, so exactly the nodes `Ingested` creates are new, and the entry is appended to the topic's node; the index maps the topic to that node; its history grows by exactly the new entry, which `GetLast` returns; no other topic's lookup and no other node's history changes |
| History.MqttHistory.Entry | src/interactive/mqtt_history.rs:56-79 | the new arena and node are `Ingested` of the old arena along the topic's segments; the node is the one the segments reach and has the topic; an indexed topic gets its stored node with the tree unchanged; the index maps the topic to the node |
| History.MqttHistory.EntryNew | src/interactive/mqtt_history.rs:59-78 | for an unindexed topic: the new arena and node are `Ingested` of the old arena along the segments; walks that succeeded still do, and the topic is indexed at its node |
| History.MqttHistory.WalkCreating | src/interactive/mqtt_history.rs:60-76 | the loop over segments computes `Ingested` of the old arena: it ends at the node the segments reach, and the nodes it creates are exactly the ingestion's |
| History.MqttHistory.Descend | src/interactive/mqtt_history.rs:62-75 | one iteration is `Step` of the old arena: an existing child with the leaf is reused with the tree unchanged, otherwise exactly one child is inserted at the sorted slot; the walk reaches it |
| History.MqttHistory.InsertChild | src/interactive/mqtt_history.rs:69-74 | the new node gets the next id and is placed at the sorted slot among the parent's children |
| History.MqttHistory.GetTreeIdentifier | src/interactive/mqtt_history.rs:141-153 | the identifier exists exactly when the topic's node does, has one index per segment and leads to that node |
| History.MqttHistory.GetTopicsBelow | src/interactive/mqtt_history.rs:155-185 | the result of the recursive listing of the current tree |
| History.MqttHistory.GetVisibleTopics | src/interactive/mqtt_history.rs:187-231 | the visible listing of the current tree, whose meaning `Queries.VisibleMember` and `Queries.VisibleFiltered` state |
| History.MqttHistory.GetTreeItems | src/interactive/mqtt_history.rs:234-307 | the topic count and items of the current tree, whose meaning `TreeItems.ToTreeItemsTotal` and `TreeItems.ToTreeItemsShape` state |
| History.MqttHistory.Search | src/interactive/mqtt_history.rs:82-117 | the two loops compute the search result of the current tree |
| History.MqttHistory.CollectMatches | src/interactive/mqtt_history.rs:85-95 | the first loop collects the matching nodes in traversal order and the last match's leaf |
| History.MqttHistory.BuildResults | src/interactive/mqtt_history.rs:96-112 | the second loop collects one result topic per match |
| History.MqttHistory.FullTopic | src/interactive/mqtt_history.rs:98-111 | the inner loop prepends ancestor leaves up to the root or an empty leaf |
| Overview.SaturatingSub | src/interactive/topic_overview.rs:88 | subtraction clamped at 0 |
| Overview.SaturatingAdd | src/interactive/topic_overview.rs:89 | addition clamped at `usize::MAX` |
| Overview.NextSelected | src/interactive/topic_overview.rs:80-99 | the new selection is `None` exactly when the list is empty, and otherwise an element of the list |
| Overview.AbsoluteSelects | src/interactive/topic_overview.rs:87-93 | an absolute move selects that index, and any index past the end (`usize::MAX` included) selects the last element |
| Overview.NoSelectionDefaults | src/interactive/topic_overview.rs:85-93 | with no current selection, down and page-down select the first element, up and page-up the last |
| Overview.StepsFromCurrent | src/interactive/topic_overview.rs:85-93 | from index `i`, the moves go one step or half the area height, clamped to the list |
| Overview.EdgesKeepSelection | src/interactive/topic_overview.rs:88-89 | up at the first element and down at the last keep the selection |
| Overview.ToggledFlips | src/interactive/topic_overview.rs:118-126 | toggling flips the selected topic's membership and no other |
| Overview.ToggledTwice | src/interactive/topic_overview.rs:118-126 | toggling twice restores the opened set |
| Overview.OpenedOnlyOpenable | src/interactive/topic_overview.rs:101-108 | opening adds the selected topic exactly when it is a substring of the fixed string |
| Overview.GetParentOfJoin | src/interactive/topic_overview.rs:113 | the parent of a topic drops its last segment; a one-segment topic has none |
| Overview.ClosedEffect | src/interactive/topic_overview.rs:110-116 | closing an opened topic removes it and keeps the selection; otherwise the selection moves to the parent and the opened set stays |
| Overview.OpenThenClose | src/interactive/topic_overview.rs:101-116 | closing right after opening an openable topic restores the state |
| Overview.TopicOverview.constructor | src/interactive/topic_overview.rs:14-21 | the default pane: nothing opened, selected or searched |
| Overview.TopicOverview.SetOpened | src/interactive/topic_overview.rs:28-34 | the opened set becomes its union with the new topics, which become the query; nothing is removed |
| Overview.TopicOverview.Position | src/interactive/topic_overview.rs:84 | the first position of the topic in the list |
| Overview.TopicOverview.ChangeSelected | src/interactive/topic_overview.rs:80-99 | the selection becomes `NextSelected`, and the result is true exactly when it changed |
| Overview.TopicOverview.Open | src/interactive/topic_overview.rs:101-108 | the opened set becomes `Opened` of the old state; nothing else changes |
| Overview.TopicOverview.Close | src/interactive/topic_overview.rs:110-116 | opened set and selection become `Closed` of the old state |
| Overview.TopicOverview.Toggle | src/interactive/topic_overview.rs:118-126 | the opened set becomes `Toggled` of the old state |
| Overview.TopicOverview.RecordArea | src/interactive/topic_overview.rs:77 | the drawn area's height is recorded for page jumps |
| Interactive.QuitKeys | src/interactive/mod.rs:222-322 | `Quit` happens exactly for `q` or Ctrl-c in the topic or JSON pane, with focus unchanged and no action |
| Interactive.TabSwitches | src/interactive/mod.rs:228-326 | Tab goes to the JSON pane only when the selected topic's last payload is JSON; from the JSON pane it returns; both redraw |
| Interactive.PopupNeedsSelection | src/interactive/mod.rs:303-310 | the clean popup opens, on the selected topic, exactly for Backspace/Delete in the topic pane with a selection |
| Interactive.DeleteWithoutSelection | src/interactive/mod.rs:303-310 | Backspace/Delete without a selection skips and keeps the focus |
| Interactive.PopupCloses | src/interactive/mod.rs:353-359 | every key closes the popup with a redraw; cleaning is requested only for Enter or space |
| Interactive.SearchModeKeys | src/interactive/mod.rs:360-374 | Esc leaves search mode, Enter runs the search and stays, any other key goes to the search box; all redraw |
| Interactive.SearchEnterOpens | src/interactive/mod.rs:365-368 | Enter opens the search result of every matching node, closes nothing and keeps the selection |
| Interactive.SearchMissHidesAll | src/interactive/mod.rs:365-368 | a search without matches installs an empty query, under which no topic is visible |
| Interactive.SkipChangesNothing | src/interactive/mod.rs:316-351 | a skipped key leaves the focus as it was and acts on nothing |
| Interactive.ActionRedraws | src/interactive/mod.rs:221-377 | every key that acts redraws |
| Interactive.ScrollRedraws | src/interactive/mod.rs:379-419 | scrolling always redraws, closes the popup, and acts on nothing in the popup or search mode |
| Interactive.OnlyKeysQuit | src/interactive/mod.rs:162-169 | a tick redraws and keeps the focus; only a quit key quits |
| Interactive.MoveStaysVisible | src/interactive/mod.rs:250-302 | a cursor move keeps the opened set and selects an element of the visible list, or nothing exactly when it is empty |
| Interactive.App.constructor | src/interactive/mod.rs:189-198 | the application starts in the topic pane with a default topic pane and no requests |
| Interactive.App.MoveCursor | src/interactive/mod.rs:250-256 | computes the visible list and moves the selection in it |
| Interactive.App.OnKey | src/interactive/mod.rs:221-377 | the focus and refresh are `KeyTransition`; the topic pane changes by `KeyAction`; the JSON, clean and search-box requests are those of the action |
| Interactive.App.OnKeyOverview | src/interactive/mod.rs:223-317 | the topic-pane keys as `KeyTransition` and `OverviewAction` |
| Interactive.App.OnKeyJson | src/interactive/mod.rs:318-352 | the JSON-pane keys as `KeyTransition` and `JsonAction` |
| Interactive.App.OnKeyPopup | src/interactive/mod.rs:353-359 | any key closes the popup; Enter or space requests cleaning below its topic |
| Interactive.App.OnKeySearch | src/interactive/mod.rs:360-374 | Esc, Enter (search merged into the pane) and forwarded keys |
| Interactive.App.OnUp | src/interactive/mod.rs:379-398 | `ScrollTransition` and the scroll-up action of the focused pane; the new screen is `EventStep` of the old one |
| Interactive.App.OnDown | src/interactive/mod.rs:400-419 | `ScrollTransition` and the scroll-down action of the focused pane; the new screen is `EventStep` of the old one |
| Interactive.App.OnClick | src/interactive/mod.rs:421-452 | a row click selects the row and toggles it when the selection did not change, focusing the topic pane; a JSON hit focuses the JSON pane; otherwise skip with nothing changed; the new screen is `EventStep` of the old one |
| Interactive.App.Dispatch | src/interactive/mod.rs:163-169 | each event is routed so that focus and refresh follow `EventTransition`, and the whole new screen (focus, topic pane, JSON, clean and search-box requests) and the refresh are `EventStep` of the old screen |
| Interactive.App.MainLoop | src/interactive/mod.rs:153-177 | the refreshes and the final screen are `Run` of the events: events are handled until the first `Quit`, which ends the loop; ticks redraw; the screen is drawn once plus once per `Update` |
| Interactive.TickIdle | src/interactive/mod.rs:168 | a tick changes nothing on the screen and redraws |
| Interactive.SkipIdle | src/interactive/mod.rs:170-174 | an event that skips leaves the whole screen unchanged |
| Interactive.RunStops | src/interactive/mod.rs:162-175 | a run yields at most one refresh per event, no `Quit` before the last, and stops early only on a `Quit` |
| Interactive.RunTicks | src/interactive/mod.rs:168-171 | every tick handled in a run redraws |
| Interactive.RunRequestsGrow | src/interactive/mod.rs:162-175 | a run only appends JSON, clean and search-box requests |
| Interactive.QuitEndsRun | src/interactive/mod.rs:162-174 | a quit key in the topic or JSON pane ends the run at once with `Quit` and the focus kept, whatever events follow |
| Example.ExampleHistory | src/interactive/mqtt_history.rs:310-329 | four calls of `Add` on a new history produce exactly the example tree and index |
| Example.ExampleConsistent | src/interactive/mqtt_history.rs:310-329 | the example tree and index satisfy the history invariant |
| Example.IdentifierMissing | src/interactive/mqtt_history.rs:335 | `whatever` has no identifier |
| Example.IdentifierTest | src/interactive/mqtt_history.rs:336 | `test` has identifier `[1]` |
| Example.IdentifierFooBar | src/interactive/mqtt_history.rs:337 | `foo/bar` has identifier `[0, 0]` |
| Example.IdentifierFooTest | src/interactive/mqtt_history.rs:338 | `foo/test` has identifier `[0, 1]` |
| Example.ExampleTopicsBelowFoo | src/interactive/mqtt_history.rs:342-344 | below `foo` are `foo/bar`, `foo/test` |
| Example.ExampleTopicsBelowTest | src/interactive/mqtt_history.rs:348-350 | below `test` is `test` itself |
| Example.ExampleVisibleClosed | src/interactive/mqtt_history.rs:354-357 | with `foo` closed and no query, `foo`, `test` are visible |
| Example.ExampleVisibleOpened | src/interactive/mqtt_history.rs:361-365 | with `foo` opened and no query, `foo`, `foo/bar`, `foo/test`, `test` are visible |
| Example.ExampleEmptyQuery | src/interactive/mqtt_history.rs:353-366 | with the tests' empty query the code as written shows nothing |
| Example.ExampleTopicCount | src/interactive/mqtt_history.rs:369-372 | the example counts 3 topics, whatever the query |
| Example.ExampleItems | src/interactive/mqtt_history.rs:373-378 | 2 items; the first has 2 children, the second none |

## Left out

- Terminal setup, the input thread, drawing and key hints are I/O and rendering. This covers `show`, `terminal_draw`, `App::draw`, `TopicOverview::draw` and `ensure_state`.
- Locking and the MQTT connection are left out. The model uses the history directly, without `get_history`'s lock and its errors. A request to clean retained topics is recorded in `cleanRequests` instead of being sent.
- Messages are opaque entries. Only the last payload's kind (string, JSON, not UTF-8) is kept. Timestamps, payload parsing and JSON rendering are left out, because they live in the MQTT module.
- `to_tree_items` keeps the leaf, the children, the counts, the `visible` flag and the meta text as a datatype. Text spans and styles are left out.
- `TopicOverview::index_of_click` and the JSON pane's hit test depend on the tree widget's scroll offset and the layout. A click event therefore carries the row and the hit it resolves to.
- The JSON detail pane (`json_view`, `root_tree_items_from_json`, `flatten`) is a foreign widget. Its key handling is recorded as requests in `jsonRequests`.
- The search text box is a foreign widget. Keys forwarded to it are recorded in `searchKeys`, and a key event carries the box's first line.
- `get_json_of_current_topic` is reduced to whether the selected topic's last payload is JSON, as `App.JsonOnTopic` computes it.
- `get_parent` belongs to the MQTT topic module, which is not part of this model. It is modelled as dropping the last `/` segment, with no parent for a single segment.
- src/read_one.rs is a network notification loop and is not part of this model.
- The loop bodies' `?` error exits come from the lock or the JSON pane, and are not modelled.
- Counts and sums in `to_tree_items` are unbounded naturals, so their `usize` overflow is not modelled. Only the cursor arithmetic models `usize` saturation.
- The getters `GetOpened`, `GetSelected` and `GetQueryItems` return a field of the topic pane. They carry no contract of their own.
