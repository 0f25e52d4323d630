/** The catalog filter controller: the selection state, the page elements it writes to,
    and the handlers that run on a button click, at start-up and on `hashchange`. */
module Controller {
  import opened Text
  import opened Filter

  /** Writing to an optional page node: an absent node is skipped. */
  function WriteIfPresent<T>(node: Option<T>, v: T): (r: Option<T>)
    ensures r.Some? == node.Some?
    ensures r.Some? ==> r.value == v
  {
    if node.Some? then Some(v) else None
  }

  /** What `setActiveButton` writes on a button: the `is-active` class and `aria-pressed`. */
  datatype Mark = Mark(isActive: bool, ariaPressed: string)

  /** The mark a button should carry when its group's selection is `v`. */
  function MarkFor(b: Button, v: string): Mark {
    var on := Pressed(b, v);
    Mark(on, if on then "true" else "false")
  }

  /** Marks a button active, with `aria-pressed` "true", exactly when its raw value is
      `activeValue`; every other button of the group becomes inactive, "false". */
  method SetActiveButton(buttons: seq<Button>, marks: array<Mark>, activeValue: string)
    requires marks.Length == |buttons|
    modifies marks
    ensures forall i :: 0 <= i < |buttons| ==> marks[i] == MarkFor(buttons[i], activeValue)
    ensures forall i :: 0 <= i < |buttons| ==>
      (marks[i].isActive <==> buttons[i].filterValue == Some(activeValue))
      && marks[i].ariaPressed == (if marks[i].isActive then "true" else "false")
  {
    for i := 0 to |buttons|
      invariant forall k :: 0 <= k < i ==> marks[k] == MarkFor(buttons[k], activeValue)
    {
      var isActive := buttons[i].filterValue == Some(activeValue);
      marks[i] := Mark(isActive, if isActive then "true" else "false");
    }
  }

  class Catalog {
    const items: seq<Item>
    const departmentButtons: seq<Button>
    const roomButtons: seq<Button>
    /** The values a click in each group can select, computed once at start-up. */
    const departmentValues: set<string>
    const roomValues: set<string>

    /** The `hidden` flag of each item. */
    const hidden: array<bool>
    /** The marks of the department buttons and of the room buttons. */
    const departmentMarks: array<Mark>
    const roomMarks: array<Mark>

    /** Text of the status node, hidden flag of the empty-state node, and text of the two
        label nodes; `None` when the page has no such node. */
    var statusNode: Option<string>
    var emptyNode: Option<bool>
    var departmentLabelNode: Option<string>
    var roomLabelNode: Option<string>

    /** The page URL's fragment, `#` included (empty when there is none). */
    var hash: string

    var activeDepartment: string
    var activeRoom: string

    function State(): FilterState
      reads this`activeDepartment, this`activeRoom
    {
      FilterState(activeDepartment, activeRoom)
    }

    /** The page elements match the collections, and the value sets are the groups'. */
    ghost predicate Wellformed() {
      && hidden.Length == |items|
      && departmentMarks.Length == |departmentButtons|
      && roomMarks.Length == |roomButtons|
      && departmentMarks != roomMarks
      && departmentValues == ValueSet(departmentButtons)
      && roomValues == ValueSet(roomButtons)
    }

    /** Every item is hidden exactly when the state does not show it. */
    ghost predicate ItemsRendered()
      reads this`activeDepartment, this`activeRoom, hidden
    {
      hidden.Length == |items|
      && forall i :: 0 <= i < |items| ==> hidden[i] == !Visible(items[i], State())
    }

    /** Each optional node present on the page says what the state implies: the status
        node the count, the empty-state node whether there is nothing to show, the label
        nodes the selected buttons' captions. */
    ghost predicate StatusRendered()
      reads this`statusNode, this`activeDepartment, this`activeRoom
    {
      statusNode.Some? ==> statusNode.value == StatusText(CountVisible(items, State()))
    }

    ghost predicate EmptyRendered()
      reads this`emptyNode, this`activeDepartment, this`activeRoom
    {
      emptyNode.Some? ==> emptyNode.value == (CountVisible(items, State()) != 0)
    }

    ghost predicate LabelsRendered()
      reads this`departmentLabelNode, this`roomLabelNode, this`activeDepartment, this`activeRoom
    {
      && (departmentLabelNode.Some? ==>
            departmentLabelNode.value == ActiveLabel(departmentButtons, activeDepartment, DepartmentFallback))
      && (roomLabelNode.Some? ==>
            roomLabelNode.value == ActiveLabel(roomButtons, activeRoom, RoomFallback))
    }

    ghost predicate OutputsRendered()
      reads this`statusNode, this`emptyNode, this`departmentLabelNode, this`roomLabelNode
      reads this`activeDepartment, this`activeRoom
    {
      StatusRendered() && EmptyRendered() && LabelsRendered()
    }

    /** A group's marks follow the group's selection. */
    ghost predicate Marked(buttons: seq<Button>, marks: array<Mark>, v: string)
      reads marks
    {
      marks.Length == |buttons| && forall i :: 0 <= i < |buttons| ==> marks[i] == MarkFor(buttons[i], v)
    }

    /** The controller's invariant between events: each axis is "all" or a declared
        value, and the page shows the state. */
    ghost predicate Valid()
      reads this, hidden, departmentMarks, roomMarks
    {
      && Wellformed()
      && InRange(State(), departmentValues, roomValues)
      && ItemsRendered()
      && Marked(departmentButtons, departmentMarks, activeDepartment)
      && Marked(roomButtons, roomMarks, activeRoom)
      && OutputsRendered()
    }

    /** The optional nodes the page has are the same ones as before. */
    twostate predicate SameNodes()
      reads this
    {
      && statusNode.Some? == old(statusNode.Some?)
      && emptyNode.Some? == old(emptyNode.Some?)
      && departmentLabelNode.Some? == old(departmentLabelNode.Some?)
      && roomLabelNode.Some? == old(roomLabelNode.Some?)
    }

    /** Collects the page's items, buttons and optional nodes, and starts with both axes
        at "all". */
    constructor (items: seq<Item>, departmentButtons: seq<Button>, roomButtons: seq<Button>,
                 hash: string, statusNode: Option<string>, emptyNode: Option<bool>,
                 departmentLabelNode: Option<string>, roomLabelNode: Option<string>)
      ensures Wellformed() && State() == Reset
      ensures fresh(hidden) && fresh(departmentMarks) && fresh(roomMarks)
      ensures this.items == items && this.departmentButtons == departmentButtons
      ensures this.roomButtons == roomButtons && this.hash == hash
      ensures this.statusNode == statusNode && this.emptyNode == emptyNode
      ensures this.departmentLabelNode == departmentLabelNode && this.roomLabelNode == roomLabelNode
    {
      this.items := items;
      this.departmentButtons := departmentButtons;
      this.roomButtons := roomButtons;
      departmentValues := ValueSet(departmentButtons);
      roomValues := ValueSet(roomButtons);
      hidden := new bool[|items|];
      departmentMarks := new Mark[|departmentButtons|];
      roomMarks := new Mark[|roomButtons|];
      this.statusNode := statusNode;
      this.emptyNode := emptyNode;
      this.departmentLabelNode := departmentLabelNode;
      this.roomLabelNode := roomLabelNode;
      this.hash := hash;
      activeDepartment := All;
      activeRoom := All;
    }

    /** Start-up: read the fragment once, mark both groups, render. */
    method Start()
      requires Wellformed() && State() == Reset
      modifies this, hidden, departmentMarks, roomMarks
      ensures Valid() && SameNodes() && hash == old(hash)
      ensures State() == ApplyHash(Reset, hash, departmentValues, roomValues)
    {
      ApplyHashFilter();
      ApplyHashInRange(Reset, hash, departmentValues, roomValues);
      Render();
    }

    /** Marks both groups and re-renders: the steps that follow reading the fragment,
        at start-up and on `hashchange`. */
    method Render()
      requires Wellformed()
      modifies hidden, departmentMarks, roomMarks
      modifies this`statusNode, this`emptyNode, this`departmentLabelNode, this`roomLabelNode
      ensures Marked(departmentButtons, departmentMarks, activeDepartment)
      ensures Marked(roomButtons, roomMarks, activeRoom)
      ensures ItemsRendered() && OutputsRendered() && SameNodes()
    {
      SetActiveButton(departmentButtons, departmentMarks, activeDepartment);
      SetActiveButton(roomButtons, roomMarks, activeRoom);
      ApplyFilters();
    }

    /** The pass over the items inside `applyFilters`: hides every item the state does
        not show and counts the ones it does. */
    method HideItems() returns (visibleCount: nat)
      requires hidden.Length == |items|
      modifies hidden
      ensures ItemsRendered()
      ensures visibleCount == CountVisible(items, State())
    {
      visibleCount := 0;
      for i := 0 to |items|
        invariant visibleCount == CountVisible(items[..i], State())
        invariant forall k :: 0 <= k < i ==> hidden[k] == !Visible(items[k], State())
      {
        var visible := Visible(items[i], State());
        hidden[i] := !visible;
        if visible {
          visibleCount := visibleCount + 1;
        }
        assert items[..i + 1][..i] == items[..i];
      }
      assert items[..|items|] == items;
    }

    /** Re-renders the items and the optional nodes from the current state. */
    method ApplyFilters()
      requires hidden.Length == |items|
      modifies hidden, this`statusNode, this`emptyNode, this`departmentLabelNode, this`roomLabelNode
      ensures ItemsRendered() && OutputsRendered() && SameNodes()
    {
      var visibleCount := HideItems();
      var departmentLabel := ActiveLabel(departmentButtons, activeDepartment, DepartmentFallback);
      var roomLabel := ActiveLabel(roomButtons, activeRoom, RoomFallback);
      departmentLabelNode, roomLabelNode, statusNode, emptyNode :=
        WriteIfPresent(departmentLabelNode, departmentLabel),
        WriteIfPresent(roomLabelNode, roomLabel),
        WriteIfPresent(statusNode, StatusText(visibleCount)),
        WriteIfPresent(emptyNode, visibleCount != 0);
    }

    /** Writes the state into the URL fragment (without a new history entry). */
    method SyncHashWithState()
      modifies this`hash
      ensures hash == Fragment(State())
    {
      var nextHash :=
        if activeRoom != All then activeRoom
        else if activeDepartment != All then activeDepartment
        else "";
      hash := if nextHash != "" then "#" + nextHash else "";
    }

    /** Reads the URL fragment into the state; see `ApplyHash` for what it may change. */
    method ApplyHashFilter()
      modifies this`activeDepartment, this`activeRoom
      ensures State() == ApplyHash(old(State()), hash, departmentValues, roomValues)
    {
      var rawHash := NormaliseHash(hash);
      if rawHash == "" {
        return;
      }
      var mappedRoom := MappedRoom(rawHash);
      if mappedRoom in roomValues {
        activeRoom := mappedRoom;
      } else if rawHash in departmentValues {
        activeDepartment := rawHash;
      }
    }

    /** A click on department button `i`: select its value, mark, render, write the fragment. */
    method ClickDepartment(i: nat)
      requires Valid() && i < |departmentButtons|
      modifies this, hidden, departmentMarks
      ensures Valid() && SameNodes()
      ensures activeDepartment == ValueOf(departmentButtons[i]) && activeRoom == old(activeRoom)
      ensures hash == Fragment(State())
    {
      activeDepartment := ValueOf(departmentButtons[i]);
      ClickDepartmentInRange(old(State()), departmentButtons, roomButtons, i);
      SetActiveButton(departmentButtons, departmentMarks, activeDepartment);
      ApplyFilters();
      SyncHashWithState();
    }

    /** A click on room button `i`: select its value, mark, render, write the fragment. */
    method ClickRoom(i: nat)
      requires Valid() && i < |roomButtons|
      modifies this, hidden, roomMarks
      ensures Valid() && SameNodes()
      ensures activeRoom == ValueOf(roomButtons[i]) && activeDepartment == old(activeDepartment)
      ensures hash == Fragment(State())
    {
      activeRoom := ValueOf(roomButtons[i]);
      ClickRoomInRange(old(State()), departmentButtons, roomButtons, i);
      SetActiveButton(roomButtons, roomMarks, activeRoom);
      ApplyFilters();
      SyncHashWithState();
    }

    /** `hashchange` to `newHash`: reset both axes, read the fragment, mark, render. */
    method HashChanged(newHash: string)
      requires Wellformed()
      modifies this, hidden, departmentMarks, roomMarks
      ensures Valid() && SameNodes()
      ensures hash == newHash
      ensures State() == ApplyHash(Reset, newHash, departmentValues, roomValues)
    {
      hash := newHash;
      activeDepartment := All;
      activeRoom := All;
      Start();
    }
  }

  /** A room-only selection made by a click survives a navigation to the fragment the
      click wrote: the `hashchange` handler restores the same state and shows the same
      items. */
  method ClickRoomThenNavigate(c: Catalog, i: nat)
    requires c.Valid() && i < |c.roomButtons|
    requires c.activeDepartment == All && ValueOf(c.roomButtons[i]) != All
    requires Clean(ValueOf(c.roomButtons[i]))
    modifies c, c.hidden, c.departmentMarks, c.roomMarks
    ensures c.Valid()
    ensures c.State() == FilterState(All, ValueOf(c.roomButtons[i]))
  {
    c.ClickRoom(i);
    var selected := c.State();
    assert c.roomButtons[i] in c.roomButtons;
    RoomRoundTrip(selected, c.departmentValues, c.roomValues);
    c.HashChanged(c.hash);
  }

  /** Navigating to a page URL with no fragment clears both filters and shows every item. */
  method NavigateToEmptyFragment(c: Catalog)
    requires c.Wellformed()
    modifies c, c.hidden, c.departmentMarks, c.roomMarks
    ensures c.Valid() && c.State() == Reset
    ensures forall i :: 0 <= i < |c.items| ==> !c.hidden[i]
    ensures c.statusNode.Some? ==> c.statusNode.value == StatusText(|c.items|)
  {
    c.HashChanged("");
    ApplyHashChanges(Reset, "", c.departmentValues, c.roomValues);
    ResetShowsEverything(c.items);
  }
}
