/** The pure rules of the catalog filter: which items a filter state shows, how many,
    what the status and label nodes say, how a state is written into the URL fragment
    and how a fragment is read back into a state. */
module Filter {
  import opened Text

  datatype Option<T> = None | Some(value: T)

  /** A catalog item, by its `data-department` and `data-rooms` attributes (each a
      whitespace-separated list of labels, possibly missing). */
  datatype Item = Item(department: Option<string>, rooms: Option<string>)

  /** A filter button, by its `data-filter-value` attribute and its text content. */
  datatype Button = Button(filterValue: Option<string>, text: Option<string>)

  /** The controller's only state: the selected department and the selected room. */
  datatype FilterState = FilterState(department: string, room: string)

  /** The no-filter value of either axis. */
  const All: string := "all"

  /** Both axes unfiltered: the initial state, and what a `hashchange` resets to. */
  const Reset: FilterState := FilterState(All, All)

  const DepartmentFallback: string := "All Departments"
  const RoomFallback: string := "All Rooms"

  /** Legacy fragment values and the room they stand for. */
  const RoomAliases: map<string, string> := map["kitchen-room" := "kitchen"]

  /** `attribute || ""`: a missing attribute reads as the empty string. */
  function OrEmpty(a: Option<string>): string {
    match a
    case None => ""
    case Some(v) => v
  }

  // ---------------------------------------------------------------------------
  // Visibility

  function DepartmentTokens(item: Item): seq<string> {
    Tokens(OrEmpty(item.department))
  }

  function RoomTokens(item: Item): seq<string> {
    Tokens(OrEmpty(item.rooms))
  }

  /** `labels.includes(v)`: a linear search for `v`. */
  predicate Includes(labels: seq<string>, v: string) {
    labels != [] && (labels[0] == v || Includes(labels[1..], v))
  }

  lemma {:induction false} IncludesIsMembership(labels: seq<string>, v: string)
    ensures Includes(labels, v) <==> v in labels
  {
    if labels != [] {
      IncludesIsMembership(labels[1..], v);
      assert labels == [labels[0]] + labels[1..];
    }
  }

  /** One axis of the visibility rule: "all" lets everything through. */
  predicate AxisMatches(selected: string, labels: seq<string>) {
    selected == All || Includes(labels, selected)
  }

  /** The two-axis rule an item is shown by. */
  predicate Visible(item: Item, s: FilterState) {
    AxisMatches(s.department, DepartmentTokens(item)) && AxisMatches(s.room, RoomTokens(item))
  }

  /** For an item whose attributes list well-formed labels separated by any whitespace,
      the rule is the set formula: the department is "all" or among its departments, and
      the room is "all" or among its rooms. */
  lemma VisibleByLabels(ds: seq<string>, dseps: seq<string>, rs: seq<string>, rseps: seq<string>,
                        s: FilterState)
    requires WellFormedTokens(ds) && Separators(ds, dseps)
    requires WellFormedTokens(rs) && Separators(rs, rseps)
    ensures Visible(Item(Some(JoinWith(ds, dseps)), Some(JoinWith(rs, rseps))), s)
        <==> (s.department == All || s.department in ds) && (s.room == All || s.room in rs)
  {
    TokensOfJoinWith(ds, dseps);
    TokensOfJoinWith(rs, rseps);
    IncludesIsMembership(ds, s.department);
    IncludesIsMembership(rs, s.room);
  }

  /** A selection other than "all" that is empty or contains whitespace matches no
      item, since no label token is empty or contains whitespace. */
  lemma BlankSelectionMatchesNothing(item: Item, s: FilterState)
    requires s.department != All
    requires s.department == "" || !SpaceFree(s.department)
    ensures !Visible(item, s)
  {
    TokensWellFormed(OrEmpty(item.department));
    IncludesIsMembership(DepartmentTokens(item), s.department);
  }

  /** Number of items of `items` that the state shows. */
  function CountVisible(items: seq<Item>, s: FilterState): (n: nat)
    ensures n <= |items|
  {
    if items == [] then 0
    else CountVisible(items[..|items| - 1], s) + (if Visible(items[|items| - 1], s) then 1 else 0)
  }

  /** The count is zero exactly when no item is shown. */
  lemma {:induction false} CountVisibleZero(items: seq<Item>, s: FilterState)
    ensures CountVisible(items, s) == 0 <==> forall i :: 0 <= i < |items| ==> !Visible(items[i], s)
  {
    if items != [] {
      var front := items[..|items| - 1];
      CountVisibleZero(front, s);
      assert forall i :: 0 <= i < |front| ==> front[i] == items[i];
    }
  }

  /** The count is the number of items exactly when every item is shown. */
  lemma {:induction false} CountVisibleAll(items: seq<Item>, s: FilterState)
    ensures CountVisible(items, s) == |items| <==> forall i :: 0 <= i < |items| ==> Visible(items[i], s)
  {
    if items != [] {
      var front := items[..|items| - 1];
      CountVisibleAll(front, s);
      assert forall i :: 0 <= i < |front| ==> front[i] == items[i];
    }
  }

  /** With both axes reset, every item is shown. */
  lemma ResetShowsEverything(items: seq<Item>)
    ensures CountVisible(items, Reset) == |items|
    ensures forall i :: 0 <= i < |items| ==> Visible(items[i], Reset)
  {
    CountVisibleAll(items, Reset);
  }

  // ---------------------------------------------------------------------------
  // Buttons

  /** `button.dataset.filterValue || "all"`: the value a click on the button selects. */
  function ValueOf(b: Button): (v: string)
    ensures v != ""
    ensures b.filterValue.None? || b.filterValue == Some("") ==> v == All
    ensures b.filterValue.Some? && b.filterValue.value != "" ==> v == b.filterValue.value
  {
    match b.filterValue
    case Some(v) => if v != "" then v else All
    case None => All
  }

  /** The values a group of buttons can select. */
  function ValueSet(buttons: seq<Button>): set<string> {
    set b | b in buttons :: ValueOf(b)
  }

  /** `button.dataset.filterValue === value`: the raw attribute, with no default. */
  predicate Pressed(b: Button, v: string) {
    b.filterValue == Some(v)
  }

  /** A clicked button is itself marked active exactly when it carries a non-empty
      value: a button without one selects "all" but never matches it. */
  lemma ClickedButtonPressed(b: Button)
    ensures Pressed(b, ValueOf(b)) <==> b.filterValue.Some? && b.filterValue.value != ""
  {
  }

  /** `buttons.find(...)`: the index of the first button whose raw value is `v`. */
  function FindButton(buttons: seq<Button>, v: string): (r: Option<nat>)
    ensures r.Some? ==> r.value < |buttons| && Pressed(buttons[r.value], v)
    ensures r.Some? ==> forall j :: 0 <= j < r.value ==> !Pressed(buttons[j], v)
    ensures r.None? <==> forall j :: 0 <= j < |buttons| ==> !Pressed(buttons[j], v)
  {
    if buttons == [] then None
    else if Pressed(buttons[0], v) then Some(0)
    else
      match FindButton(buttons[1..], v)
      case None => None
      case Some(k) => Some(k + 1)
  }

  /** `(button.textContent || "").trim()` */
  function LabelOf(b: Button): string {
    Trim(OrEmpty(b.text))
  }

  /** The label shown for the selected value (see `ActiveLabelIsFirstMatch`). */
  function ActiveLabel(buttons: seq<Button>, v: string, fallback: string): string {
    match FindButton(buttons, v)
    case None => fallback
    case Some(i) => LabelOf(buttons[i])
  }

  /** The label is the trimmed text of the first button whose raw value is `v`, and
      `fallback` when there is no such button. */
  lemma ActiveLabelIsFirstMatch(buttons: seq<Button>, v: string, fallback: string)
    ensures (forall j :: 0 <= j < |buttons| ==> !Pressed(buttons[j], v)) ==>
      ActiveLabel(buttons, v, fallback) == fallback
    ensures forall i :: (0 <= i < |buttons| && Pressed(buttons[i], v)
      && forall j :: 0 <= j < i ==> !Pressed(buttons[j], v)) ==>
      ActiveLabel(buttons, v, fallback) == LabelOf(buttons[i])
    ensures ActiveLabel(buttons, v, fallback) == fallback || Trimmed(ActiveLabel(buttons, v, fallback))
  {
  }

  // ---------------------------------------------------------------------------
  // Status text

  const StatusPrefix: string := "Showing "

  /** `Showing ${n} product${n === 1 ? "" : "s"}` */
  function StatusText(n: nat): string {
    StatusPrefix + NatToString(n) + " product" + (if n == 1 then "" else "s")
  }

  /** The examples the pluralisation rule is judged by. */
  lemma StatusTextExamples()
    ensures StatusText(0) == "Showing 0 products"
    ensures StatusText(1) == "Showing 1 product"
    ensures StatusText(5) == "Showing 5 products"
  {
  }

  /** The plural "s" is there exactly when the count is not one. */
  lemma StatusTextPlural(n: nat)
    ensures var t := StatusText(n); t[|t| - 1] == 's' <==> n != 1
  {
  }

  /** The status text determines the count: two counts never read the same. */
  lemma {:induction false} StatusTextInjective(n: nat, m: nat)
    requires StatusText(n) == StatusText(m)
    ensures n == m
  {
    var a, b := NatToString(n), NatToString(m);
    var t := StatusText(n);
    var p := |StatusPrefix|;
    assert t == StatusPrefix + a + " product" + (if n == 1 then "" else "s");
    assert t == StatusPrefix + b + " product" + (if m == 1 then "" else "s");
    // Each numeral is followed by the space of " product", which is not a digit.
    assert t[p + |a|] == ' ' && t[p + |b|] == ' ';
    assert forall i :: 0 <= i < |a| ==> t[p + i] == a[i];
    assert forall i :: 0 <= i < |b| ==> t[p + i] == b[i];
    assert a == t[p..p + |a|] == b;
    NatToStringRoundTrip(n);
    NatToStringRoundTrip(m);
  }

  // ---------------------------------------------------------------------------
  // State to fragment

  /** The fragment written into the URL: the room if one is selected, otherwise the
      department if one is selected, otherwise nothing. */
  function Fragment(s: FilterState): (h: string)
    ensures h == "" || h[0] == '#'
  {
    var next := if s.room != All then s.room else if s.department != All then s.department else "";
    if next == "" then "" else "#" + next
  }

  /** For non-empty selections the fragment is empty exactly in the reset state, names the
      room whenever one is selected, and names the department only when the room is "all". */
  lemma FragmentCases(s: FilterState)
    requires s.department != "" && s.room != ""
    ensures Fragment(s) == "" <==> s == Reset
    ensures s.room != All ==> Fragment(s) == "#" + s.room
    ensures s.room == All && s.department != All ==> Fragment(s) == "#" + s.department
  {
  }

  // ---------------------------------------------------------------------------
  // Fragment to state

  /** `hash.replace(/^#/, "")`: at most one leading '#' is removed. */
  function StripHash(h: string): (r: string)
    ensures h != [] && h[0] == '#' ==> h == "#" + r
    ensures (h == [] || h[0] != '#') ==> r == h
  {
    if h != [] && h[0] == '#' then h[1..] else h
  }

  /** The fragment as the controller reads it: one leading '#' removed, trimmed,
      lower-cased. */
  function NormaliseHash(h: string): (raw: string)
    ensures Trimmed(raw) && NoUpper(raw)
  {
    var t := Trim(StripHash(h));
    LowerKeepsTrimmed(t);
    LowerFixedPoint(t);
    Lower(t)
  }

  /** `roomAliases[raw] || raw` */
  function MappedRoom(raw: string): (room: string)
    ensures raw !in RoomAliases ==> room == raw
  {
    if raw in RoomAliases && RoomAliases[raw] != "" then RoomAliases[raw] else raw
  }

  /** What reading fragment `hash` does to state `s`, given the values the department
      and room buttons can select (see `ApplyHashChanges`). */
  function ApplyHash(s: FilterState, hash: string, departments: set<string>, rooms: set<string>)
    : FilterState
  {
    var raw := NormaliseHash(hash);
    if raw == "" then s
    else
      var mapped := MappedRoom(raw);
      if mapped in rooms then s.(room := mapped)
      else if raw in departments then s.(department := raw)
      else s
  }

  /** An empty fragment changes nothing; a room match wins over a department match and
      changes only the room; a department match changes only the department; at most
      one axis ever changes. */
  lemma ApplyHashChanges(s: FilterState, hash: string, departments: set<string>, rooms: set<string>)
    ensures var r, raw := ApplyHash(s, hash, departments, rooms), NormaliseHash(hash);
      && (raw == "" ==> r == s)
      && (r.department == s.department || r.room == s.room)
      && (r.room != s.room ==> r.room == MappedRoom(raw) && r.room in rooms)
      && (r.department != s.department ==>
            r.department == raw && raw in departments && MappedRoom(raw) !in rooms)
      && (raw != "" && MappedRoom(raw) in rooms ==> r == s.(room := MappedRoom(raw)))
      && (raw != "" && MappedRoom(raw) !in rooms && raw in departments ==> r == s.(department := raw))
      && (raw != "" && MappedRoom(raw) !in rooms && raw !in departments ==> r == s)
  {
  }

  /** Each axis is "all" or a value its buttons can select. */
  predicate InRange(s: FilterState, departments: set<string>, rooms: set<string>) {
    (s.department == All || s.department in departments) && (s.room == All || s.room in rooms)
  }

  /** Reading a fragment keeps each axis "all" or a declared value. */
  lemma ApplyHashInRange(s: FilterState, hash: string, departments: set<string>, rooms: set<string>)
    requires InRange(s, departments, rooms)
    ensures InRange(ApplyHash(s, hash, departments, rooms), departments, rooms)
  {
  }

  /** A department click selects a value its group declares, so it keeps the state in range. */
  lemma ClickDepartmentInRange(s: FilterState, departmentButtons: seq<Button>, roomButtons: seq<Button>,
                               i: nat)
    requires InRange(s, ValueSet(departmentButtons), ValueSet(roomButtons))
    requires i < |departmentButtons|
    ensures InRange(s.(department := ValueOf(departmentButtons[i])),
                    ValueSet(departmentButtons), ValueSet(roomButtons))
  {
    assert departmentButtons[i] in departmentButtons;
  }

  /** A room click likewise keeps the state in range. */
  lemma ClickRoomInRange(s: FilterState, departmentButtons: seq<Button>, roomButtons: seq<Button>, i: nat)
    requires InRange(s, ValueSet(departmentButtons), ValueSet(roomButtons))
    requires i < |roomButtons|
    ensures InRange(s.(room := ValueOf(roomButtons[i])), ValueSet(departmentButtons), ValueSet(roomButtons))
  {
    assert roomButtons[i] in roomButtons;
  }

  // ---------------------------------------------------------------------------
  // Round trip

  /** A character the URL fragment keeps as it is: printable ASCII other than the ones
      the fragment percent-encodes (space, '"', '<', '>' and '`'). */
  predicate FragmentSafe(c: char) {
    '!' <= c <= '~' && c != '"' && c != '<' && c != '>' && c != '`'
  }

  /** A value that survives being written into the fragment and read back: non-empty,
      no surrounding whitespace, no upper-case letter, not a legacy alias, and made only
      of characters the fragment does not percent-encode. */
  predicate Clean(v: string) {
    && v != "" && Trimmed(v) && NoUpper(v) && v !in RoomAliases
    && forall i :: 0 <= i < |v| ==> FragmentSafe(v[i])
  }

  lemma NormaliseFragment(v: string)
    requires v != "" && Trimmed(v) && NoUpper(v)
    ensures NormaliseHash("#" + v) == v
  {
    assert StripHash("#" + v) == v;
    TrimOfTrimmed(v);
    LowerFixedPoint(v);
  }

  /** A room-only selection is restored by writing it into the fragment and reading it
      back from the reset state. */
  lemma RoomRoundTrip(s: FilterState, departments: set<string>, rooms: set<string>)
    requires s.department == All && s.room != All
    requires s.room in rooms && Clean(s.room)
    ensures ApplyHash(Reset, Fragment(s), departments, rooms) == s
  {
    assert Fragment(s) == "#" + s.room;
    NormaliseFragment(s.room);
  }

  /** A department-only selection is restored likewise, provided no room button has the
      same value. */
  lemma DepartmentRoundTrip(s: FilterState, departments: set<string>, rooms: set<string>)
    requires s.room == All && s.department != All
    requires s.department in departments && s.department !in rooms && Clean(s.department)
    ensures ApplyHash(Reset, Fragment(s), departments, rooms) == s
  {
    assert Fragment(s) == "#" + s.department;
    NormaliseFragment(s.department);
  }

  /** With both axes selected only the room is written, so the department is lost. */
  lemma BothAxesLoseDepartment(s: FilterState, departments: set<string>, rooms: set<string>)
    requires s.department != All && s.room != All
    requires s.room in rooms && Clean(s.room)
    ensures ApplyHash(Reset, Fragment(s), departments, rooms) == FilterState(All, s.room)
    ensures ApplyHash(Reset, Fragment(s), departments, rooms) != s
  {
    assert Fragment(s) == "#" + s.room;
    NormaliseFragment(s.room);
  }

  /** A legacy alias written as a fragment selects the room it stands for, and no
      department. */
  lemma AliasFragment(alias: string, departments: set<string>, rooms: set<string>)
    requires alias in RoomAliases && RoomAliases[alias] != "" && RoomAliases[alias] in rooms
    requires alias != "" && Trimmed(alias) && NoUpper(alias)
    ensures ApplyHash(Reset, "#" + alias, departments, rooms) == FilterState(All, RoomAliases[alias])
  {
    NormaliseFragment(alias);
  }

  /** The legacy fragment `#kitchen-room` selects the kitchen room, not "kitchen-room". */
  lemma KitchenRoomAlias(departments: set<string>, rooms: set<string>)
    requires "kitchen" in rooms
    ensures ApplyHash(Reset, "#" + "kitchen-room", departments, rooms) == FilterState(All, "kitchen")
  {
    AliasFragment("kitchen-room", departments, rooms);
  }
}
