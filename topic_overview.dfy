/** The selection and navigation state of the topic pane: which topics are
    opened, which topic is selected, the topics last found by a search, and
    the height of the area the pane was last drawn in. */
module Overview {

  import opened Wrappers
  import opened Strings

  const USIZE_MAX: nat := 0xFFFF_FFFF_FFFF_FFFF

  /** Rust's `usize` on a 64-bit target. */
  type Usize = x: int | 0 <= x <= USIZE_MAX

  /** Rust's `u16`, the unit of terminal coordinates. */
  type U16 = x: int | 0 <= x < 0x1_0000

  /** The only topic `open` will ever open: the topics it accepts are the
      substrings of this one. */
  const OPENABLE: string := "gps/v1/l/867378033978818"

  /** How the selection should move. */
  datatype CursorMove = Absolute(index: Usize) | OneUp | OneDown | PageUp | PageDown

  function Min(a: nat, b: nat): nat
  {
    if a <= b then a else b
  }

  /** `usize::saturating_sub`: never below zero. */
  function SaturatingSub(a: nat, b: nat): (r: nat)
    ensures r <= a
    ensures a >= b ==> r + b == a
    ensures a < b ==> r == 0
  {
    if a >= b then a - b else 0
  }

  /** `usize::saturating_add`: never past `usize::MAX`. */
  function SaturatingAdd(a: nat, b: nat): (r: Usize)
    ensures a + b <= USIZE_MAX ==> r == a + b
    ensures a + b > USIZE_MAX ==> r == USIZE_MAX
  {
    if a + b > USIZE_MAX then USIZE_MAX else a + b
  }

  /** The position of the selected topic in `visible`, if it is there. */
  function CurrentIndex(visible: seq<string>, selected: Option<string>): Option<nat>
  {
    match selected
    case None => None
    case Some(t) => IndexOf(visible, t)
  }

  /** The index a move aims at before it is clamped to the list: the
      absolute index, or a step of one or of `pageJump` from the current
      position; with no current position, moving up aims at `usize::MAX` and
      moving down at 0. */
  function TargetIndex(current: Option<nat>, move: CursorMove, pageJump: nat): nat
  {
    match move
    case Absolute(index) => index
    case OneUp => if current.None? then USIZE_MAX else SaturatingSub(current.value, 1)
    case OneDown => if current.None? then 0 else SaturatingAdd(current.value, 1)
    case PageUp => if current.None? then USIZE_MAX else SaturatingSub(current.value, pageJump)
    case PageDown => if current.None? then 0 else SaturatingAdd(current.value, pageJump)
  }

  /** The index `change_selected` picks: the target clamped to the last
      index of `visible` (0 when `visible` is empty); a page is half the
      height of the last drawn area. */
  function NewIndex(visible: seq<string>, selected: Option<string>, move: CursorMove, height: U16): nat
  {
    Min(TargetIndex(CurrentIndex(visible, selected), move, height / 2), SaturatingSub(|visible|, 1))
  }

  /** The selection after `change_selected`. */
  function NextSelected(visible: seq<string>, selected: Option<string>, move: CursorMove, height: U16): (r: Option<string>)
    ensures r.None? <==> |visible| == 0
    ensures r.Some? ==> r.value in visible
  {
    var k := NewIndex(visible, selected, move, height);
    if k < |visible| then Some(visible[k]) else None
  }

  /** An absolute index inside the list selects that element; one past the
      end, `usize::MAX` included, selects the last element. */
  lemma AbsoluteSelects(visible: seq<string>, selected: Option<string>, index: Usize, height: U16)
    requires |visible| > 0
    ensures index < |visible| ==> NextSelected(visible, selected, Absolute(index), height) == Some(visible[index])
    ensures index >= |visible| - 1 ==> NextSelected(visible, selected, Absolute(index), height) == Some(visible[|visible| - 1])
  {
  }

  /** With no selection in `visible`, moving down selects the first element
      and moving up the last one. */
  lemma NoSelectionDefaults(visible: seq<string>, selected: Option<string>, height: U16)
    requires 0 < |visible| <= USIZE_MAX + 1
    requires CurrentIndex(visible, selected).None?
    ensures NextSelected(visible, selected, OneDown, height) == Some(visible[0])
    ensures NextSelected(visible, selected, PageDown, height) == Some(visible[0])
    ensures NextSelected(visible, selected, OneUp, height) == Some(visible[|visible| - 1])
    ensures NextSelected(visible, selected, PageUp, height) == Some(visible[|visible| - 1])
  {
  }

  /** From the element at position `i`, a step moves one position, and a page
      moves half the area height, stopping at either end. */
  lemma StepsFromCurrent(visible: seq<string>, selected: Option<string>, i: nat, height: U16)
    requires |visible| <= USIZE_MAX
    requires CurrentIndex(visible, selected) == Some(i)
    ensures i < |visible|
    ensures NextSelected(visible, selected, OneUp, height) == Some(visible[if i == 0 then 0 else i - 1])
    ensures NextSelected(visible, selected, OneDown, height) == Some(visible[Min(i + 1, |visible| - 1)])
    ensures NextSelected(visible, selected, PageUp, height) == Some(visible[SaturatingSub(i, height / 2)])
    ensures NextSelected(visible, selected, PageDown, height) == Some(visible[Min(i + height / 2, |visible| - 1)])
  {
    assert selected.Some? && IndexOf(visible, selected.value) == Some(i);
  }

  /** Moving up from the first element, or down from the last, keeps the
      selection. */
  lemma EdgesKeepSelection(visible: seq<string>, t: string, height: U16)
    requires |visible| <= USIZE_MAX
    ensures |visible| > 0 && visible[0] == t ==>
              NextSelected(visible, Some(t), OneUp, height) == Some(t)
    ensures CurrentIndex(visible, Some(t)) == Some(|visible| - 1) ==>
              NextSelected(visible, Some(t), OneDown, height) == Some(t)
  {
    if |visible| > 0 && visible[0] == t {
      IndexOfIs(visible, t, 0);
    }
    if CurrentIndex(visible, Some(t)) == Some(|visible| - 1) {
      StepsFromCurrent(visible, Some(t), |visible| - 1, height);
    }
  }

  /** The opened topics after `toggle`: the selected topic, if any, changes
      membership. */
  function Toggled(openedTopics: set<string>, selected: Option<string>): set<string>
  {
    match selected
    case None => openedTopics
    case Some(t) => if t in openedTopics then openedTopics - {t} else openedTopics + {t}
  }

  /** `toggle` flips the selected topic and no other. */
  lemma ToggledFlips(openedTopics: set<string>, selected: Option<string>, u: string)
    ensures selected == Some(u) ==> (u in Toggled(openedTopics, selected) <==> u !in openedTopics)
    ensures selected != Some(u) ==> (u in Toggled(openedTopics, selected) <==> u in openedTopics)
  {
  }

  /** Toggling twice gives back the opened topics. */
  lemma ToggledTwice(openedTopics: set<string>, selected: Option<string>)
    ensures Toggled(Toggled(openedTopics, selected), selected) == openedTopics
  {
    if selected.Some? {
      var t := selected.value;
      var once := Toggled(openedTopics, selected);
      assert t in once <==> t !in openedTopics;
    }
  }

  /** The opened topics after `open`: the selected topic joins them only when
      it is a substring of the one openable topic. */
  function Opened(openedTopics: set<string>, selected: Option<string>): set<string>
  {
    match selected
    case None => openedTopics
    case Some(t) => if Contains(OPENABLE, t) then openedTopics + {t} else openedTopics
  }

  /** `open` adds at most the selected topic, and only an openable one. */
  lemma OpenedOnlyOpenable(openedTopics: set<string>, selected: Option<string>, u: string)
    ensures u in Opened(openedTopics, selected) <==>
              u in openedTopics || (selected == Some(u) && Contains(OPENABLE, u))
  {
  }

  /** `rsplit_once('/')`: the topic without its last segment; `None` for a
      topic of one segment. */
  function GetParent(topic: string): Option<string>
  {
    var parts := Split(topic);
    if |parts| == 1 then None else Some(Join(parts[..|parts| - 1]))
  }

  /** The parent of a topic joined from segments is the join of all but the
      last segment; a topic without `/` has none. */
  lemma GetParentOfJoin(parts: seq<string>)
    requires |parts| >= 1 && NoSlash(parts)
    ensures GetParent(Join(parts)) == if |parts| == 1 then None else Some(Join(parts[..|parts| - 1]))
  {
    SplitJoin(parts);
  }

  /** The opened topics and the selection after `close`: an opened selected
      topic is closed; otherwise the selection moves to its parent. */
  function Closed(openedTopics: set<string>, selected: Option<string>): (set<string>, Option<string>)
  {
    match selected
    case None => (openedTopics, None)
    case Some(t) =>
      if t in openedTopics then (openedTopics - {t}, selected) else (openedTopics, GetParent(t))
  }

  /** `close` never opens anything; it either closes the selected topic and
      keeps the selection, or keeps the opened topics and moves up. */
  lemma ClosedEffect(openedTopics: set<string>, t: string)
    ensures var (o, s) := Closed(openedTopics, Some(t));
      o <= openedTopics && t !in o &&
      (if t in openedTopics then o == Toggled(openedTopics, Some(t)) && s == Some(t)
       else o == openedTopics && s == GetParent(t))
  {
  }

  /** Opening an openable, closed topic and then closing it restores the
      state. */
  lemma OpenThenClose(openedTopics: set<string>, t: string)
    requires t !in openedTopics && Contains(OPENABLE, t)
    ensures Closed(Opened(openedTopics, Some(t)), Some(t)) == (openedTopics, Some(t))
  {
    assert openedTopics + {t} - {t} == openedTopics;
  }

  /** The fields of the topic pane, as a value. */
  datatype OverviewState = OverviewState(
    lastAreaHeight: U16,
    openedTopics: set<string>,
    selectedTopic: Option<string>,
    searchedTopic: Option<set<string>>)

  /** The navigation state of the topic pane. */
  class TopicOverview {
    var lastAreaHeight: U16
    var openedTopics: set<string>
    var selectedTopic: Option<string>
    var searchedTopic: Option<set<string>>

    /** The default state: nothing opened, selected or searched. */
    constructor ()
      ensures lastAreaHeight == 0 && openedTopics == {} && selectedTopic == None && searchedTopic == None
    {
      lastAreaHeight := 0;
      openedTopics := {};
      selectedTopic := None;
      searchedTopic := None;
    }

    function State(): OverviewState
      reads this
    {
      OverviewState(lastAreaHeight, openedTopics, selectedTopic, searchedTopic)
    }

    function GetOpened(): set<string>
      reads this
    {
      openedTopics
    }

    function GetSelected(): Option<string>
      reads this
    {
      selectedTopic
    }

    /** The filter the topic list is drawn with: the topics of the last
        search, if any. */
    function GetQueryItems(): Option<set<string>>
      reads this
    {
      searchedTopic
    }

    /** `draw` remembers the area it drew in; only its height matters here. */
    method RecordArea(height: U16)
      modifies this
      ensures lastAreaHeight == height
      ensures openedTopics == old(openedTopics) && selectedTopic == old(selectedTopic)
      ensures searchedTopic == old(searchedTopic)
    {
      lastAreaHeight := height;
    }

    /** Merge the topics of a search into the opened ones, one at a time,
        and remember them as the filter. */
    method SetOpened(newData: set<string>)
      modifies this
      ensures openedTopics == old(openedTopics) + newData
      ensures searchedTopic == Some(newData)
      ensures selectedTopic == old(selectedTopic) && lastAreaHeight == old(lastAreaHeight)
    {
      searchedTopic := Some(newData);
      var remaining := newData;
      while remaining != {}
        invariant remaining <= newData
        invariant openedTopics + remaining == old(openedTopics) + newData
        invariant searchedTopic == Some(newData)
        invariant selectedTopic == old(selectedTopic) && lastAreaHeight == old(lastAreaHeight)
        decreases remaining
      {
        var topic :| topic in remaining;
        openedTopics := openedTopics + {topic};
        remaining := remaining - {topic};
      }
    }

    /** The first position of `t` in `visible`, as `iter().position` finds
        it. */
    static method Position(visible: seq<string>, t: string) returns (r: Option<nat>)
      ensures r == IndexOf(visible, t)
    {
      var i := 0;
      while i < |visible|
        invariant 0 <= i <= |visible|
        invariant forall j :: 0 <= j < i ==> visible[j] != t
      {
        if visible[i] == t {
          IndexOfIs(visible, t, i);
          return Some(i);
        }
        i := i + 1;
      }
      return None;
    }

    /** Move the selection within `visible`; the result tells whether the
        selection changed. */
    method ChangeSelected(visible: seq<string>, move: CursorMove) returns (different: bool)
      modifies this
      ensures selectedTopic == NextSelected(visible, old(selectedTopic), move, lastAreaHeight)
      ensures different <==> selectedTopic != old(selectedTopic)
      ensures openedTopics == old(openedTopics) && searchedTopic == old(searchedTopic)
      ensures lastAreaHeight == old(lastAreaHeight)
    {
      var currentIndex: Option<nat> := None;
      if selectedTopic.Some? {
        currentIndex := Position(visible, selectedTopic.value);
      }
      var pageJump := lastAreaHeight / 2;
      var target: nat;
      match move {
        case Absolute(index) =>
          target := index;
        case OneUp =>
          target := if currentIndex.None? then USIZE_MAX else SaturatingSub(currentIndex.value, 1);
        case OneDown =>
          target := if currentIndex.None? then 0 else SaturatingAdd(currentIndex.value, 1);
        case PageUp =>
          target := if currentIndex.None? then USIZE_MAX else SaturatingSub(currentIndex.value, pageJump);
        case PageDown =>
          target := if currentIndex.None? then 0 else SaturatingAdd(currentIndex.value, pageJump);
      }
      var newIndex := Min(target, SaturatingSub(|visible|, 1));
      var next: Option<string> := if newIndex < |visible| then Some(visible[newIndex]) else None;
      different := selectedTopic != next;
      selectedTopic := next;
    }

    /** Open the selected topic, when it is openable. */
    method Open()
      modifies this
      ensures openedTopics == Opened(old(openedTopics), old(selectedTopic))
      ensures selectedTopic == old(selectedTopic) && searchedTopic == old(searchedTopic)
      ensures lastAreaHeight == old(lastAreaHeight)
    {
      if selectedTopic.Some? {
        var topic := selectedTopic.value;
        if Contains(OPENABLE, topic) {
          openedTopics := openedTopics + {topic};
        }
      }
    }

    /** Close the selected topic, or move the selection to its parent when
        it was not open. */
    method Close()
      modifies this
      ensures (openedTopics, selectedTopic) == Closed(old(openedTopics), old(selectedTopic))
      ensures searchedTopic == old(searchedTopic) && lastAreaHeight == old(lastAreaHeight)
    {
      if selectedTopic.Some? {
        var topic := selectedTopic.value;
        if topic in openedTopics {
          openedTopics := openedTopics - {topic};
        } else {
          selectedTopic := GetParent(topic);
        }
      }
    }

    /** Flip whether the selected topic is open. */
    method Toggle()
      modifies this
      ensures openedTopics == Toggled(old(openedTopics), old(selectedTopic))
      ensures selectedTopic == old(selectedTopic) && searchedTopic == old(searchedTopic)
      ensures lastAreaHeight == old(lastAreaHeight)
    {
      if selectedTopic.Some? {
        var topic := selectedTopic.value;
        if topic in openedTopics {
          openedTopics := openedTopics - {topic};
        } else {
          openedTopics := openedTopics + {topic};
        }
      }
    }
  }
}
