/** The interactive front end: which pane has the keyboard focus, how keys,
    clicks and scrolling move the focus and drive the topic pane, and the
    receive-and-dispatch loop. Collaborators that are not modelled (the
    JSON detail pane, the search text box, the connection that cleans
    retained topics) are represented by the requests sent to them and by the
    answers they give, which arrive with the events. */
module Interactive {

  import opened Wrappers
  import opened TopicTree
  import opened Search
  import opened History
  import Overview
  import Strings
  import Queries

  /** The pane that receives key presses. */
  datatype Focus = TopicOverview | JsonPayload | CleanRetainedPopup(topic: string) | SearchMode

  /** What the loop does after an event. */
  datatype Refresh = Update | Skip | Quit

  datatype KeyCode =
    | Char(c: char) | Tab | BackTab | Enter | Esc | Up | Down | Left | Right
    | Home | End | PageUp | PageDown | Backspace | Delete | OtherKey

  /** A key press; `control` tells whether the control modifier was held. */
  datatype KeyEvent = KeyEvent(code: KeyCode, control: bool)

  /** Requests to the JSON detail pane. */
  datatype JsonRequest =
    | ToggleSelected | KeyLeft | KeyRight | KeyUp | KeyDown | SelectFirst | SelectLast | SelectClicked

  /** An input event. A key carries the first line of the search box as it
      stands; a click carries what the panes make of its position: the row
      of the topic list it hits, and whether it hits a JSON node (and if so
      whether that node is the selected one). */
  datatype Event =
    | Key(key: KeyEvent, searchLine: string)
    | MouseClick(treeRow: Option<Overview.Usize>, jsonHit: Option<bool>)
    | MouseScrollUp
    | MouseScrollDown
    | Tick

  /** What a key asks of the panes and collaborators. */
  datatype Action =
    | NoAction
    | ToggleTopic
    | CloseTopic
    | OpenTopic
    | MoveCursor(move: Overview.CursorMove)
    | JsonView(request: JsonRequest)
    | CleanBelow(topic: string)
    | RunSearch
    | ForwardKey

  predicate IsQuitKey(key: KeyEvent)
  {
    key.code == Char('q') || (key.code == Char('c') && key.control)
  }

  predicate IsTab(key: KeyEvent)
  {
    key.code == Tab || key.code == BackTab
  }

  predicate IsConfirm(key: KeyEvent)
  {
    key.code == Enter || key.code == Char(' ')
  }

  /** The action of a key in the topic pane. */
  function OverviewAction(key: KeyEvent): Action
  {
    var code := key.code;
    if IsQuitKey(key) || IsTab(key) then NoAction
    else if IsConfirm(key) then ToggleTopic
    else if code == Down || code == Char('j') then MoveCursor(Overview.OneDown)
    else if code == Up || code == Char('k') then MoveCursor(Overview.OneUp)
    else if code == Left || code == Char('h') then CloseTopic
    else if code == Right || code == Char('l') then OpenTopic
    else if code == Home then MoveCursor(Overview.Absolute(0))
    else if code == End then MoveCursor(Overview.Absolute(Overview.USIZE_MAX))
    else if code == PageUp || (code == Char('u') && key.control) then MoveCursor(Overview.PageUp)
    else if code == PageDown || (code == Char('d') && key.control) then MoveCursor(Overview.PageDown)
    else NoAction
  }

  /** The action of a key in the JSON pane. */
  function JsonAction(key: KeyEvent): Action
  {
    var code := key.code;
    if IsQuitKey(key) || IsTab(key) then NoAction
    else if IsConfirm(key) then JsonView(ToggleSelected)
    else if code == Down || code == Char('j') then JsonView(KeyDown)
    else if code == Up || code == Char('k') then JsonView(KeyUp)
    else if code == Left || code == Char('h') then JsonView(KeyLeft)
    else if code == Right || code == Char('l') then JsonView(KeyRight)
    else if code == Home then JsonView(SelectFirst)
    else if code == End then JsonView(SelectLast)
    else NoAction
  }

  /** The action of `key` pressed while `focus` has the keyboard. */
  function KeyAction(focus: Focus, key: KeyEvent): Action
  {
    match focus
    case TopicOverview => OverviewAction(key)
    case JsonPayload => JsonAction(key)
    case CleanRetainedPopup(t) => if IsConfirm(key) then CleanBelow(t) else NoAction
    case SearchMode =>
      if key.code == Esc then NoAction
      else if key.code == Enter then RunSearch
      else ForwardKey
  }

  /** The focus after `key` and what the loop does next, given the selected
      topic and whether its last payload is JSON. */
  function KeyTransition(focus: Focus, key: KeyEvent, selected: Option<string>, jsonOnTopic: bool): (Focus, Refresh)
  {
    match focus
    case TopicOverview =>
      if IsQuitKey(key) then (focus, Quit)
      else if IsTab(key) then (if jsonOnTopic then JsonPayload else focus, Update)
      else if key.code == Backspace || key.code == Delete then
        (if selected.Some? then (CleanRetainedPopup(selected.value), Update) else (focus, Skip))
      else if key.code == Char('/') then (SearchMode, Update)
      else if OverviewAction(key) != NoAction then (focus, Update)
      else (focus, Skip)
    case JsonPayload =>
      if IsQuitKey(key) then (focus, Quit)
      else if IsTab(key) then (TopicOverview, Update)
      else if JsonAction(key) != NoAction then (focus, Update)
      else (focus, Skip)
    case CleanRetainedPopup(_) => (TopicOverview, Update)
    case SearchMode => (if key.code == Esc then TopicOverview else SearchMode, Update)
  }

  /** Scrolling with the mouse wheel: the popup closes, every other focus
      stays; the screen is always redrawn. */
  function ScrollTransition(focus: Focus): (Focus, Refresh)
  {
    (if focus.CleanRetainedPopup? then TopicOverview else focus, Update)
  }

  /** The action of scrolling one step while `focus` has the keyboard. */
  function ScrollAction(focus: Focus, up: bool): Action
  {
    match focus
    case TopicOverview => MoveCursor(if up then Overview.OneUp else Overview.OneDown)
    case JsonPayload => JsonView(if up then KeyUp else KeyDown)
    case _ => NoAction
  }

  /** A click on a topic row focuses the topic pane, a click on a JSON node
      the JSON pane; a click on neither is skipped. */
  function ClickTransition(focus: Focus, treeRow: Option<Overview.Usize>, jsonHit: Option<bool>): (Focus, Refresh)
  {
    if treeRow.Some? then (TopicOverview, Update)
    else if jsonHit.Some? then (JsonPayload, Update)
    else (focus, Skip)
  }

  /** The focus and refresh after any event. */
  function EventTransition(focus: Focus, e: Event, selected: Option<string>, jsonOnTopic: bool): (Focus, Refresh)
  {
    match e
    case Key(key, _) => KeyTransition(focus, key, selected, jsonOnTopic)
    case MouseClick(row, hit) => ClickTransition(focus, row, hit)
    case MouseScrollUp => ScrollTransition(focus)
    case MouseScrollDown => ScrollTransition(focus)
    case Tick => (focus, Update)
  }

  /** The topic pane after an action: `visible` is the topic list the
      cursor moves in and `found` the topics a search returned. */
  function ApplyAction(a: Action, s: Overview.OverviewState, visible: seq<string>, found: set<string>): Overview.OverviewState
  {
    match a
    case ToggleTopic => s.(openedTopics := Overview.Toggled(s.openedTopics, s.selectedTopic))
    case CloseTopic =>
      var closed := Overview.Closed(s.openedTopics, s.selectedTopic);
      s.(openedTopics := closed.0, selectedTopic := closed.1)
    case OpenTopic => s.(openedTopics := Overview.Opened(s.openedTopics, s.selectedTopic))
    case MoveCursor(move) => s.(selectedTopic := Overview.NextSelected(visible, s.selectedTopic, move, s.lastAreaHeight))
    case RunSearch => s.(openedTopics := s.openedTopics + found, searchedTopic := Some(found))
    case _ => s
  }

  /** The JSON request an action sends, if any. */
  function JsonRequests(a: Action): seq<JsonRequest>
  {
    if a.JsonView? then [a.request] else []
  }

  /** The topic an action asks to clean, if any. */
  function CleanRequests(a: Action): seq<string>
  {
    if a.CleanBelow? then [a.topic] else []
  }

  /** The topics a search for `word` finds; none when nothing matches. */
  function Found(nodes: seq<Node>, word: string): set<string>
  {
    match SearchResult(nodes, word)
    case None => {}
    case Some(topics) => topics
  }

  /** Quitting: `q` and control-c quit from the two panes, keeping the focus,
      and nothing else ever quits. */
  lemma QuitKeys(focus: Focus, key: KeyEvent, selected: Option<string>, jsonOnTopic: bool)
    ensures KeyTransition(focus, key, selected, jsonOnTopic).1 == Quit <==>
              (focus == TopicOverview || focus == JsonPayload) && IsQuitKey(key)
    ensures KeyTransition(focus, key, selected, jsonOnTopic).1 == Quit ==>
              KeyTransition(focus, key, selected, jsonOnTopic).0 == focus &&
              KeyAction(focus, key) == NoAction
  {
  }

  /** Tab leaves the topic pane for the JSON pane only when the selected
      topic's last payload is JSON, and always leaves the JSON pane. */
  lemma TabSwitches(key: KeyEvent, selected: Option<string>, jsonOnTopic: bool)
    requires IsTab(key)
    ensures KeyTransition(TopicOverview, key, selected, jsonOnTopic) ==
              (if jsonOnTopic then JsonPayload else TopicOverview, Update)
    ensures KeyTransition(JsonPayload, key, selected, jsonOnTopic) == (TopicOverview, Update)
  {
  }

  /** The clean popup opens only from the topic pane, by Backspace or
      Delete, and only for the selected topic. */
  lemma PopupNeedsSelection(focus: Focus, key: KeyEvent, selected: Option<string>, jsonOnTopic: bool, t: string)
    ensures KeyTransition(focus, key, selected, jsonOnTopic).0 == CleanRetainedPopup(t) <==>
              focus == TopicOverview && (key.code == Backspace || key.code == Delete) && selected == Some(t)
  {
  }

  /** Backspace or Delete without a selection is skipped. */
  lemma DeleteWithoutSelection(key: KeyEvent, jsonOnTopic: bool)
    requires key.code == Backspace || key.code == Delete
    ensures KeyTransition(TopicOverview, key, None, jsonOnTopic) == (TopicOverview, Skip)
  {
  }

  /** Every key closes the popup; only Enter and space ask to clean the
      topic. */
  lemma PopupCloses(t: string, key: KeyEvent, selected: Option<string>, jsonOnTopic: bool)
    ensures KeyTransition(CleanRetainedPopup(t), key, selected, jsonOnTopic) == (TopicOverview, Update)
    ensures CleanRequests(KeyAction(CleanRetainedPopup(t), key)) == if IsConfirm(key) then [t] else []
  {
  }

  /** In search mode Escape leaves, Enter runs the search and stays, and
      every other key goes to the search box; all of them redraw. */
  lemma SearchModeKeys(key: KeyEvent, selected: Option<string>, jsonOnTopic: bool)
    ensures KeyTransition(SearchMode, key, selected, jsonOnTopic) ==
              (if key.code == Esc then TopicOverview else SearchMode, Update)
    ensures KeyAction(SearchMode, key) ==
              if key.code == Esc then NoAction else if key.code == Enter then RunSearch else ForwardKey
  {
  }

  /** A skipped key changes nothing: neither the focus nor any pane. */
  lemma SkipChangesNothing(focus: Focus, key: KeyEvent, selected: Option<string>, jsonOnTopic: bool)
    requires KeyTransition(focus, key, selected, jsonOnTopic).1 == Skip
    ensures KeyTransition(focus, key, selected, jsonOnTopic).0 == focus
    ensures KeyAction(focus, key) == NoAction
    ensures focus == TopicOverview || focus == JsonPayload
  {
  }

  /** A key that acts on a pane always redraws. */
  lemma ActionRedraws(focus: Focus, key: KeyEvent, selected: Option<string>, jsonOnTopic: bool)
    requires KeyAction(focus, key) != NoAction
    ensures KeyTransition(focus, key, selected, jsonOnTopic).1 == Update
  {
  }

  /** Scrolling always redraws, closes the popup and otherwise keeps the
      focus; in search mode and in the popup it acts on no pane. */
  lemma ScrollRedraws(focus: Focus, up: bool)
    ensures ScrollTransition(focus).1 == Update
    ensures ScrollTransition(focus).0 == if focus.CleanRetainedPopup? then TopicOverview else focus
    ensures focus.SearchMode? || focus.CleanRetainedPopup? ==> ScrollAction(focus, up) == NoAction
  {
  }

  /** The tick only redraws; only a key can quit the loop. */
  lemma OnlyKeysQuit(focus: Focus, e: Event, selected: Option<string>, jsonOnTopic: bool)
    ensures e.Tick? ==> EventTransition(focus, e, selected, jsonOnTopic) == (focus, Update)
    ensures EventTransition(focus, e, selected, jsonOnTopic).1 == Quit ==> e.Key? && IsQuitKey(e.key)
  {
    if e.Key? {
      QuitKeys(focus, e.key, selected, jsonOnTopic);
    }
  }

  /** Moving the cursor keeps the selection inside the visible topics. */
  lemma MoveStaysVisible(move: Overview.CursorMove, s: Overview.OverviewState, visible: seq<string>, found: set<string>)
    ensures var s' := ApplyAction(MoveCursor(move), s, visible, found);
      s'.openedTopics == s.openedTopics &&
      (s'.selectedTopic.None? <==> |visible| == 0) &&
      (s'.selectedTopic.Some? ==> s'.selectedTopic.value in visible)
  {
  }

  /** Enter in the search box opens, as the search spells them, the topics of
      every node whose leaf contains the word; nothing that was open closes
      and the selection stays. */
  lemma SearchEnterOpens(nodes: seq<Node>, word: string, s: Overview.OverviewState, visible: seq<string>, m: nat)
    requires WellFormed(nodes) && m < |nodes| && Strings.Contains(nodes[m].leaf, word)
    ensures var s' := ApplyAction(RunSearch, s, visible, Found(nodes, word));
      && s.openedTopics <= s'.openedTopics
      && ResultTopic(nodes, m, LastMatchLeaf(nodes, word)) in s'.openedTopics
      && s'.selectedTopic == s.selectedTopic
      && s'.searchedTopic.Some? && s'.searchedTopic.value <= s'.openedTopics
  {
    SearchHasEveryMatch(nodes, word, m);
  }

  /** A search that matches no leaf installs an empty query, and an empty
      query filters every topic out of the list. */
  lemma SearchMissHidesAll(nodes: seq<Node>, word: string, s: Overview.OverviewState, visible: seq<string>)
    requires WellFormed(nodes)
    requires forall x :: 0 <= x < |nodes| ==> !Strings.Contains(nodes[x].leaf, word)
    ensures var s' := ApplyAction(RunSearch, s, visible, Found(nodes, word));
      && s'.openedTopics == s.openedTopics
      && s'.searchedTopic == Some({})
      && Queries.VisibleTopics(nodes, s'.openedTopics, s'.searchedTopic) == []
  {
    SearchNone(nodes, word);
    Queries.VisibleFiltered(nodes, s.openedTopics, {}, "");
  }

  /** Whether the last message recorded for the selected topic has a JSON
      payload. */
  function PayloadIsJson(ns: seq<Node>, ids: map<string, nat>, selected: Option<string>): bool
  {
    match selected
    case None => false
    case Some(t) => var h := Recorded(ns, ids, t); |h| > 0 && h[|h| - 1].payload.Json?
  }

  /** Everything the application holds besides the history: the focus, the
      topic pane, and the requests sent so far to the JSON pane, to the
      connection (cleaning retained topics) and to the search line. */
  datatype Screen = Screen(
    focus: Focus,
    pane: Overview.OverviewState,
    jsonRequests: seq<JsonRequest>,
    cleanRequests: seq<string>,
    searchKeys: seq<KeyEvent>)

  /** The topic pane after event `e`, on the tree `ns`. A click on a topic
      row moves the cursor there, or toggles the row when it was selected
      already. */
  function EventPane(ns: seq<Node>, s: Screen, e: Event): Overview.OverviewState
  {
    var visible := Queries.VisibleTopics(ns, s.pane.openedTopics, s.pane.searchedTopic);
    match e
    case Key(key, line) => ApplyAction(KeyAction(s.focus, key), s.pane, visible, Found(ns, line))
    case MouseClick(row, _) =>
      if row.None? then s.pane
      else
        var moved := ApplyAction(MoveCursor(Overview.Absolute(row.value)), s.pane, visible, {});
        if moved.selectedTopic != s.pane.selectedTopic then moved else ApplyAction(ToggleTopic, moved, [], {})
    case MouseScrollUp => ApplyAction(ScrollAction(s.focus, true), s.pane, visible, {})
    case MouseScrollDown => ApplyAction(ScrollAction(s.focus, false), s.pane, visible, {})
    case Tick => s.pane
  }

  /** The requests event `e` sends to the JSON pane. */
  function EventJson(s: Screen, e: Event): seq<JsonRequest>
  {
    match e
    case Key(key, _) => JsonRequests(KeyAction(s.focus, key))
    case MouseClick(row, hit) =>
      if row.None? && hit.Some? then [if hit.value then ToggleSelected else SelectClicked] else []
    case MouseScrollUp => JsonRequests(ScrollAction(s.focus, true))
    case MouseScrollDown => JsonRequests(ScrollAction(s.focus, false))
    case Tick => []
  }

  /** The topics event `e` asks to clean. */
  function EventClean(s: Screen, e: Event): seq<string>
  {
    if e.Key? then CleanRequests(KeyAction(s.focus, e.key)) else []
  }

  /** The keys event `e` hands to the search line. */
  function EventSearchKeys(s: Screen, e: Event): seq<KeyEvent>
  {
    if e.Key? && KeyAction(s.focus, e.key) == ForwardKey then [e.key] else []
  }

  /** One event handled on the history `ns`, `ids`: the screen after it and
      what the loop does next. */
  function EventStep(ns: seq<Node>, ids: map<string, nat>, s: Screen, e: Event): (Screen, Refresh)
  {
    var t := EventTransition(s.focus, e, s.pane.selectedTopic, PayloadIsJson(ns, ids, s.pane.selectedTopic));
    (Screen(t.0, EventPane(ns, s, e), s.jsonRequests + EventJson(s, e),
            s.cleanRequests + EventClean(s, e), s.searchKeys + EventSearchKeys(s, e)),
     t.1)
  }

  /** The loop over `events` from screen `s`: the refresh of every event
      handled, up to and including the first `Quit`, and the screen left. */
  function Run(ns: seq<Node>, ids: map<string, nat>, s: Screen, events: seq<Event>): (seq<Refresh>, Screen)
    decreases |events|
  {
    if |events| == 0 then ([], s)
    else
      var step := EventStep(ns, ids, s, events[0]);
      if step.1 == Quit then ([Quit], step.0)
      else
        var rest := Run(ns, ids, step.0, events[1..]);
        ([step.1] + rest.0, rest.1)
  }

  /** A key press, spelled out: the focus and refresh of the key
      transition, the pane after the key's action, and its requests. */
  lemma KeyStep(ns: seq<Node>, ids: map<string, nat>, s: Screen, key: KeyEvent, line: string, s': Screen, r: Refresh)
    requires (s'.focus, r) == KeyTransition(s.focus, key, s.pane.selectedTopic, PayloadIsJson(ns, ids, s.pane.selectedTopic))
    requires s'.pane == ApplyAction(KeyAction(s.focus, key), s.pane,
                                    Queries.VisibleTopics(ns, s.pane.openedTopics, s.pane.searchedTopic), Found(ns, line))
    requires s'.jsonRequests == s.jsonRequests + JsonRequests(KeyAction(s.focus, key))
    requires s'.cleanRequests == s.cleanRequests + CleanRequests(KeyAction(s.focus, key))
    requires s'.searchKeys == s.searchKeys + (if KeyAction(s.focus, key) == ForwardKey then [key] else [])
    ensures EventStep(ns, ids, s, Key(key, line)).0 == s' && EventStep(ns, ids, s, Key(key, line)).1 == r
  {
  }

  /** A tick redraws and changes nothing. */
  lemma TickIdle(ns: seq<Node>, ids: map<string, nat>, s: Screen)
    ensures EventStep(ns, ids, s, Tick).0 == s && EventStep(ns, ids, s, Tick).1 == Update
  {
    assert s.jsonRequests + [] == s.jsonRequests;
    assert s.cleanRequests + [] == s.cleanRequests;
    assert s.searchKeys + [] == s.searchKeys;
  }

  /** An event that is skipped changes nothing at all: not the focus, not
      the topic pane, and it sends no request. */
  lemma SkipIdle(ns: seq<Node>, ids: map<string, nat>, s: Screen, e: Event)
    requires EventStep(ns, ids, s, e).1 == Skip
    ensures EventStep(ns, ids, s, e).0 == s
  {
    if e.Key? {
      SkipChangesNothing(s.focus, e.key, s.pane.selectedTopic, PayloadIsJson(ns, ids, s.pane.selectedTopic));
    }
    assert EventJson(s, e) == [] && EventClean(s, e) == [] && EventSearchKeys(s, e) == [];
    assert s.jsonRequests + [] == s.jsonRequests;
    assert s.cleanRequests + [] == s.cleanRequests;
    assert s.searchKeys + [] == s.searchKeys;
  }

  /** The loop handles at most one event per event received, stops right
      after the first `Quit`, and stops early only on a `Quit`. */
  lemma {:induction false} RunStops(ns: seq<Node>, ids: map<string, nat>, s: Screen, events: seq<Event>)
    ensures var rs := Run(ns, ids, s, events).0;
      && |rs| <= |events|
      && (forall k :: 0 <= k < |rs| - 1 ==> rs[k] != Quit)
      && (|rs| < |events| ==> |rs| > 0 && rs[|rs| - 1] == Quit)
    decreases |events|
  {
    if |events| > 0 {
      var step := EventStep(ns, ids, s, events[0]);
      if step.1 != Quit {
        RunStops(ns, ids, step.0, events[1..]);
      }
    }
  }

  /** Every tick the loop handles redraws. */
  lemma {:induction false} RunTicks(ns: seq<Node>, ids: map<string, nat>, s: Screen, events: seq<Event>)
    ensures var rs := Run(ns, ids, s, events).0;
      forall k :: 0 <= k < |rs| && k < |events| && events[k].Tick? ==> rs[k] == Update
    decreases |events|
  {
    if |events| > 0 {
      var step := EventStep(ns, ids, s, events[0]);
      if step.1 != Quit {
        RunTicks(ns, ids, step.0, events[1..]);
        var rs := Run(ns, ids, s, events).0;
        forall k | 0 <= k < |rs| && k < |events| && events[k].Tick?
          ensures rs[k] == Update
        {
          if k > 0 {
            assert events[k] == events[1..][k - 1];
          }
        }
      }
    }
  }

  /** Requests are only ever appended: what was sent before the loop is a
      prefix of what has been sent after it. */
  lemma {:induction false} RunRequestsGrow(ns: seq<Node>, ids: map<string, nat>, s: Screen, events: seq<Event>)
    ensures var s' := Run(ns, ids, s, events).1;
      && s.jsonRequests <= s'.jsonRequests
      && s.cleanRequests <= s'.cleanRequests
      && s.searchKeys <= s'.searchKeys
    decreases |events|
  {
    if |events| > 0 {
      var step := EventStep(ns, ids, s, events[0]);
      if step.1 != Quit {
        RunRequestsGrow(ns, ids, step.0, events[1..]);
      }
    }
  }

  /** A quit key pressed in a pane ends the loop: whatever follows it is
      never handled. */
  lemma QuitEndsRun(ns: seq<Node>, ids: map<string, nat>, s: Screen, key: KeyEvent, line: string, rest: seq<Event>)
    requires s.focus == TopicOverview || s.focus == JsonPayload
    requires IsQuitKey(key)
    ensures Run(ns, ids, s, [Key(key, line)] + rest).0 == [Quit]
    ensures Run(ns, ids, s, [Key(key, line)] + rest).1.focus == s.focus
  {
    QuitKeys(s.focus, key, s.pane.selectedTopic, PayloadIsJson(ns, ids, s.pane.selectedTopic));
  }

  /** The number of redraws among `rs`. */
  function Updates(rs: seq<Refresh>): nat
  {
    if |rs| == 0 then 0 else Updates(rs[..|rs| - 1]) + (if rs[|rs| - 1] == Update then 1 else 0)
  }

  /** The application: the focus, the topic pane, the message history, and
      the requests sent to the collaborators that are not modelled. */
  class App {
    var focus: Focus
    const overview: Overview.TopicOverview
    const history: MqttHistory
    var jsonRequests: seq<JsonRequest>
    var cleanRequests: seq<string>
    var searchKeys: seq<KeyEvent>

    ghost predicate Valid()
      reads this, history
    {
      history.Valid()
    }

    /** A fresh application on `history`, focused on the topic pane. */
    constructor (history: MqttHistory)
      requires history.Valid()
      ensures Valid() && fresh(overview) && this.history == history
      ensures focus == TopicOverview && jsonRequests == [] && cleanRequests == [] && searchKeys == []
      ensures overview.State() == Overview.OverviewState(0, {}, None, None)
    {
      focus := TopicOverview;
      overview := new Overview.TopicOverview();
      this.history := history;
      jsonRequests := [];
      cleanRequests := [];
      searchKeys := [];
    }

    /** The whole state besides the history. */
    function Snapshot(): Screen
      reads this, overview
    {
      Screen(focus, overview.State(), jsonRequests, cleanRequests, searchKeys)
    }

    /** The selected topic's last payload is JSON. */
    function JsonOnTopic(): bool
      reads this, overview, history
    {
      match overview.selectedTopic
      case None => false
      case Some(t) => history.GetLast(t).Some? && history.GetLast(t).value.payload.Json?
    }

    /** The topic list the cursor moves in. */
    function Visible(): seq<string>
      reads this, overview, history
    {
      history.GetVisibleTopics(overview.GetOpened(), overview.GetQueryItems())
    }

    /** Move the cursor of the topic pane within the visible topics. */
    method MoveCursor(move: Overview.CursorMove) returns (changed: bool)
      modifies overview
      ensures overview.State() == ApplyAction(Action.MoveCursor(move), old(overview.State()), old(Visible()), {})
      ensures changed <==> overview.selectedTopic != old(overview.selectedTopic)
    {
      var visible := history.GetVisibleTopics(overview.GetOpened(), overview.GetQueryItems());
      changed := overview.ChangeSelected(visible, move);
    }

    /** Handle a key press. */
    method OnKey(key: KeyEvent, searchLine: string) returns (refresh: Refresh)
      requires Valid()
      modifies this, overview
      ensures Valid()
      ensures (focus, refresh) == KeyTransition(old(focus), key, old(overview.selectedTopic), old(JsonOnTopic()))
      ensures overview.State() ==
                ApplyAction(KeyAction(old(focus), key), old(overview.State()), old(Visible()), Found(history.nodes, searchLine))
      ensures jsonRequests == old(jsonRequests) + JsonRequests(KeyAction(old(focus), key))
      ensures cleanRequests == old(cleanRequests) + CleanRequests(KeyAction(old(focus), key))
      ensures searchKeys == old(searchKeys) + (if KeyAction(old(focus), key) == ForwardKey then [key] else [])
    {
      match focus {
        case TopicOverview =>
          refresh := OnKeyOverview(key);
        case JsonPayload =>
          refresh := OnKeyJson(key);
        case CleanRetainedPopup(topic) =>
          refresh := OnKeyPopup(topic, key);
        case SearchMode =>
          refresh := OnKeySearch(key, searchLine);
      }
    }

    /** A key press while the clean-retained popup asks about `topic`:
        confirming asks to clean below it, and any key closes the popup. */
    method OnKeyPopup(topic: string, key: KeyEvent) returns (refresh: Refresh)
      requires focus == CleanRetainedPopup(topic)
      modifies this
      ensures (focus, refresh) == KeyTransition(CleanRetainedPopup(topic), key, overview.selectedTopic, JsonOnTopic())
      ensures cleanRequests == old(cleanRequests) + CleanRequests(KeyAction(CleanRetainedPopup(topic), key))
      ensures jsonRequests == old(jsonRequests) && searchKeys == old(searchKeys)
    {
      if IsConfirm(key) {
        cleanRequests := cleanRequests + [topic];
      }
      focus := TopicOverview;
      refresh := Update;
    }

    /** A key press while the search line has the focus: escape leaves it,
        enter opens what a search for the line finds and records it as the
        query, and every other key goes to the line. */
    method OnKeySearch(key: KeyEvent, searchLine: string) returns (refresh: Refresh)
      requires Valid() && focus == SearchMode
      modifies this, overview
      ensures (focus, refresh) == KeyTransition(SearchMode, key, old(overview.selectedTopic), old(JsonOnTopic()))
      ensures overview.State() ==
                ApplyAction(KeyAction(SearchMode, key), old(overview.State()), old(Visible()), Found(history.nodes, searchLine))
      ensures jsonRequests == old(jsonRequests) && cleanRequests == old(cleanRequests)
      ensures searchKeys == old(searchKeys) + (if KeyAction(SearchMode, key) == ForwardKey then [key] else [])
    {
      if key.code == Esc {
        focus := TopicOverview;
      } else if key.code == Enter {
        var result := history.Search(searchLine);
        var found := if result.None? then {} else result.value;
        overview.SetOpened(found);
      } else {
        searchKeys := searchKeys + [key];
      }
      refresh := Update;
    }

    /** A key press while the topic pane has the focus. */
    method OnKeyOverview(key: KeyEvent) returns (refresh: Refresh)
      requires focus == TopicOverview
      modifies this, overview
      ensures (focus, refresh) == KeyTransition(TopicOverview, key, old(overview.selectedTopic), old(JsonOnTopic()))
      ensures overview.State() == ApplyAction(OverviewAction(key), old(overview.State()), old(Visible()), {})
      ensures jsonRequests == old(jsonRequests) && cleanRequests == old(cleanRequests) && searchKeys == old(searchKeys)
    {
      var code := key.code;
      if IsQuitKey(key) {
        refresh := Quit;
      } else if IsTab(key) {
        if JsonOnTopic() {
          focus := JsonPayload;
        }
        refresh := Update;
      } else if IsConfirm(key) {
        overview.Toggle();
        refresh := Update;
      } else if code == Down || code == Char('j') {
        var _ := MoveCursor(Overview.OneDown);
        refresh := Update;
      } else if code == Up || code == Char('k') {
        var _ := MoveCursor(Overview.OneUp);
        refresh := Update;
      } else if code == Left || code == Char('h') {
        overview.Close();
        refresh := Update;
      } else if code == Right || code == Char('l') {
        overview.Open();
        refresh := Update;
      } else if code == Home {
        var _ := MoveCursor(Overview.Absolute(0));
        refresh := Update;
      } else if code == End {
        var _ := MoveCursor(Overview.Absolute(Overview.USIZE_MAX));
        refresh := Update;
      } else if code == PageUp || (code == Char('u') && key.control) {
        var _ := MoveCursor(Overview.PageUp);
        refresh := Update;
      } else if code == PageDown || (code == Char('d') && key.control) {
        var _ := MoveCursor(Overview.PageDown);
        refresh := Update;
      } else if code == Backspace || code == Delete {
        if overview.selectedTopic.Some? {
          focus := CleanRetainedPopup(overview.selectedTopic.value);
          refresh := Update;
        } else {
          refresh := Skip;
        }
      } else if code == Char('/') {
        focus := SearchMode;
        refresh := Update;
      } else {
        refresh := Skip;
      }
    }

    /** A key press while the JSON pane has the focus. */
    method OnKeyJson(key: KeyEvent) returns (refresh: Refresh)
      requires focus == JsonPayload
      modifies this
      ensures (focus, refresh) == KeyTransition(JsonPayload, key, overview.selectedTopic, JsonOnTopic())
      ensures jsonRequests == old(jsonRequests) + JsonRequests(JsonAction(key))
      ensures cleanRequests == old(cleanRequests) && searchKeys == old(searchKeys)
    {
      var code := key.code;
      if IsQuitKey(key) {
        refresh := Quit;
      } else if IsTab(key) {
        focus := TopicOverview;
        refresh := Update;
      } else {
        var action := JsonAction(key);
        if action.JsonView? {
          jsonRequests := jsonRequests + [action.request];
          refresh := Update;
        } else {
          refresh := Skip;
        }
      }
    }

    /** Scroll up one step. */
    method OnUp() returns (refresh: Refresh)
      modifies this, overview
      ensures (focus, refresh) == ScrollTransition(old(focus))
      ensures overview.State() == ApplyAction(ScrollAction(old(focus), true), old(overview.State()), old(Visible()), {})
      ensures jsonRequests == old(jsonRequests) + JsonRequests(ScrollAction(old(focus), true))
      ensures cleanRequests == old(cleanRequests) && searchKeys == old(searchKeys)
      ensures Snapshot() == EventStep(history.nodes, history.ids, old(Snapshot()), MouseScrollUp).0
    {
      match focus {
        case TopicOverview =>
          var _ := MoveCursor(Overview.OneUp);
        case JsonPayload =>
          jsonRequests := jsonRequests + [KeyUp];
        case CleanRetainedPopup(_) =>
          focus := TopicOverview;
        case SearchMode =>
      }
      refresh := Update;
    }

    /** Scroll down one step. */
    method OnDown() returns (refresh: Refresh)
      modifies this, overview
      ensures (focus, refresh) == ScrollTransition(old(focus))
      ensures overview.State() == ApplyAction(ScrollAction(old(focus), false), old(overview.State()), old(Visible()), {})
      ensures jsonRequests == old(jsonRequests) + JsonRequests(ScrollAction(old(focus), false))
      ensures cleanRequests == old(cleanRequests) && searchKeys == old(searchKeys)
      ensures Snapshot() == EventStep(history.nodes, history.ids, old(Snapshot()), MouseScrollDown).0
    {
      match focus {
        case TopicOverview =>
          var _ := MoveCursor(Overview.OneDown);
        case JsonPayload =>
          jsonRequests := jsonRequests + [KeyDown];
        case CleanRetainedPopup(_) =>
          focus := TopicOverview;
        case SearchMode =>
      }
      refresh := Update;
    }

    /** A left click: on a topic row the cursor jumps there, and a click on
        the row already selected toggles it instead; on a JSON node that
        node is toggled when already selected and selected otherwise. */
    method OnClick(treeRow: Option<Overview.Usize>, jsonHit: Option<bool>) returns (refresh: Refresh)
      modifies this, overview
      ensures (focus, refresh) == ClickTransition(old(focus), treeRow, jsonHit)
      ensures treeRow.Some? ==>
                var moved := ApplyAction(Action.MoveCursor(Overview.Absolute(treeRow.value)), old(overview.State()), old(Visible()), {});
                overview.State() ==
                  if moved.selectedTopic != old(overview.selectedTopic) then moved
                  else ApplyAction(ToggleTopic, moved, [], {})
      ensures treeRow.None? ==> overview.State() == old(overview.State())
      ensures jsonRequests == old(jsonRequests) +
                (if treeRow.None? && jsonHit.Some? then [if jsonHit.value then ToggleSelected else SelectClicked] else [])
      ensures cleanRequests == old(cleanRequests) && searchKeys == old(searchKeys)
      ensures Snapshot() == EventStep(history.nodes, history.ids, old(Snapshot()), MouseClick(treeRow, jsonHit)).0
    {
      if treeRow.Some? {
        var changed := MoveCursor(Overview.Absolute(treeRow.value));
        if !changed {
          overview.Toggle();
        }
        focus := TopicOverview;
        return Update;
      }
      if jsonHit.Some? {
        if jsonHit.value {
          jsonRequests := jsonRequests + [ToggleSelected];
        } else {
          jsonRequests := jsonRequests + [SelectClicked];
        }
        focus := JsonPayload;
        return Update;
      }
      return Skip;
    }

    /** Dispatch one event. */
    method Dispatch(e: Event) returns (refresh: Refresh)
      requires Valid()
      modifies this, overview
      ensures Valid()
      ensures (focus, refresh) == EventTransition(old(focus), e, old(overview.selectedTopic), old(JsonOnTopic()))
      ensures Snapshot() == EventStep(history.nodes, history.ids, old(Snapshot()), e).0
      ensures refresh == EventStep(history.nodes, history.ids, old(Snapshot()), e).1
    {
      match e {
        case Key(key, line) =>
          ghost var s := Snapshot();
          assert JsonOnTopic() == PayloadIsJson(history.nodes, history.ids, overview.selectedTopic);
          refresh := OnKey(key, line);
          KeyStep(history.nodes, history.ids, s, key, line, Snapshot(), refresh);
        case MouseClick(row, hit) =>
          refresh := OnClick(row, hit);
        case MouseScrollDown =>
          refresh := OnDown();
        case MouseScrollUp =>
          refresh := OnUp();
        case Tick =>
          TickIdle(history.nodes, history.ids, Snapshot());
          refresh := Update;
      }
    }

    /** The main loop over the events received: draw once, then dispatch
        each event, redrawing on `Update` and stopping at `Quit`. Returns the
        refresh of each event handled and the number of draws. */
    method MainLoop(events: seq<Event>) returns (refreshes: seq<Refresh>, draws: nat)
      requires Valid()
      modifies this, overview
      ensures Valid()
      ensures |refreshes| <= |events|
      ensures forall k :: 0 <= k < |refreshes| - 1 ==> refreshes[k] != Quit
      ensures |refreshes| < |events| ==> |refreshes| > 0 && refreshes[|refreshes| - 1] == Quit
      ensures forall k :: 0 <= k < |refreshes| && events[k].Tick? ==> refreshes[k] == Update
      ensures draws == 1 + Updates(refreshes)
      ensures refreshes == Run(history.nodes, history.ids, old(Snapshot()), events).0
      ensures Snapshot() == Run(history.nodes, history.ids, old(Snapshot()), events).1
    {
      draws := 1;
      refreshes := [];
      var i := 0;
      ghost var ns, ids, s0 := history.nodes, history.ids, Snapshot();
      ghost var total := Run(ns, ids, s0, events);
      RunStops(ns, ids, s0, events);
      RunTicks(ns, ids, s0, events);
      while i < |events|
        invariant Valid() && history.nodes == ns && history.ids == ids
        invariant 0 <= i <= |events| && |refreshes| == i
        invariant draws == 1 + Updates(refreshes)
        invariant total.0 == refreshes + Run(ns, ids, Snapshot(), events[i..]).0
        invariant total.1 == Run(ns, ids, Snapshot(), events[i..]).1
      {
        ghost var before := Snapshot();
        var refresh := Dispatch(events[i]);
        Strings.DropOneMore(events, i);
        ghost var rest := Run(ns, ids, Snapshot(), events[i + 1..]);
        assert Run(ns, ids, before, events[i..]) ==
          if refresh == Quit then ([Quit], Snapshot()) else ([refresh] + rest.0, rest.1);
        Strings.AppendAssoc(refreshes, [refresh], rest.0);
        refreshes := refreshes + [refresh];
        assert refreshes[..|refreshes| - 1] == refreshes[..i];
        match refresh {
          case Update =>
            draws := draws + 1;
          case Skip =>
          case Quit =>
            assert refreshes == total.0;
            return;
        }
        i := i + 1;
      }
      assert events[i..] == [];
      assert refreshes == total.0;
    }
  }
}
