# Catalog filter controller

A model of the product-catalog filter in `script.js`. The page lists catalog items, each
tagged with whitespace-separated department labels and room labels. Two groups of filter
buttons select one department and one room, and `"all"` on an axis means no filter on it.
The controller keeps the two selections as its only state. On every change it:

- hides the items the selection excludes;
- writes a status line ("Showing 3 products") and the empty-state flag;
- writes the captions of the selected buttons;
- marks the pressed buttons.

A click also writes the selection into the URL fragment: the room if one is selected,
otherwise the department. At start-up and on every `hashchange`, the fragment is read back
into the state. A legacy alias (`kitchen-room`) stands for the `kitchen` room.

The project has three modules:

- `Text` (`text.dfy`) holds the string primitives:
  - JavaScript's whitespace class, shared by `\s` and `trim`;
  - splitting an attribute into tokens (`split(/\s+/).filter(Boolean)`);
  - `trim`, lower-casing, and the decimal numeral of a count.
- `Filter` (`filter.dfy`) holds the pure rules as functions on values, with lemmas about them:
  - visibility and the count;
  - the button value and the active label;
  - the status text;
  - state to fragment, and fragment back to state.
- `Controller` (`controller.dfy`) holds the imperative part:
  - the class `Catalog`, with the selection, the item `hidden` flags, the button marks, the
    optional text nodes and the fragment as mutable state;
  - one method per handler.

  Each method states its new state in terms of the `Filter` functions. The invariant
  `Valid` says two things: each axis is `"all"` or a value its buttons declare, and the page
  shows the state. Every handler keeps `Valid`.

## Model

| member | source | states |
|---|---|---|
| Text.Tokens | script.js:106-107 | the maximal whitespace-free runs of an attribute, in order; its meaning is stated by `TokensWellFormed`, `TokensKeepText` and `TokensOfJoinWith` |
| Text.Trim | script.js:91 | `trim`: the result has no whitespace at either end; `TrimCutsOnlySpace` states that only whitespace is cut |
| Text.Lower | script.js:153 | lower-casing keeps the length and lower-cases each character on its own |
| Text.NatToString | script.js:133 | the numeral of a count is non-empty, all digits, and has no leading zero except for 0; `NatToStringRoundTrip` reads it back |
| Text.TokensWellFormed | script.js:106-107 | no token from splitting an attribute is empty or contains whitespace |
| Text.TokensKeepText | script.js:106-107 | the tokens, concatenated, are exactly the attribute's non-whitespace characters in order |
| Text.TokensOfJoin | script.js:106-107 | splitting well-formed labels joined by single spaces gives back those labels |
| Text.TokensSkipSpace | script.js:106-107 | whitespace in front of the text never produces a token |
| Text.TokensOfJoinWith | script.js:106-107 | splitting well-formed labels separated by any whitespace runs, with any whitespace at either end, gives back exactly those labels |
| Text.TrimCutsOnlySpace | script.js:91 | `trim` keeps a contiguous slice and removes only whitespace on either side; it yields "" exactly for all-whitespace text |
| Text.TrimOfTrimmed | script.js:153 | trimming text with no surrounding whitespace changes nothing |
| Text.LowerFixedPoint | script.js:153 | lower-casing leaves text unchanged exactly when it has no upper-case letter, and its result has none |
| Text.NatToStringRoundTrip | script.js:133 | the numeral written for the count reads back as the count |
| Filter.Includes | script.js:109-110 | `includes` as a linear search; `IncludesIsMembership` states it is membership |
| Filter.Visible | script.js:108-111 | an item is shown when both axes match; `VisibleByLabels` states the rule against the label lists |
| Filter.CountVisible | script.js:103-117 | the number of shown items, never more than the number of items; `CountVisibleZero` and `CountVisibleAll` state when it is 0 and when it is the number of items |
| Filter.IncludesIsMembership | script.js:108-110 | `includes` is true exactly when the value is one of the labels |
| Filter.VisibleByLabels | script.js:105-111 | for attributes listing labels separated by any whitespace, an item is shown exactly when each axis is "all" or is among that axis's labels |
| Filter.BlankSelectionMatchesNothing | script.js:106-109 | a department selection other than "all" that is empty or holds whitespace shows no item |
| Filter.CountVisibleZero | script.js:103-117 | the count is 0 exactly when no item is shown |
| Filter.CountVisibleAll | script.js:103-117 | the count equals the number of items exactly when every item is shown |
| Filter.ResetShowsEverything | script.js:76-77 | in the initial (reset) state every item is shown and counted |
| Filter.ValueOf | script.js:79 | the value a button selects is never empty: a missing or empty attribute selects "all", and a non-empty one selects itself |
| Filter.ValueSet | script.js:78-81 | the set of values the buttons of a group select; `ClickDepartmentInRange` and `ClickRoomInRange` use it |
| Filter.Pressed | script.js:96 | the raw `===` comparison, with no default, also used by `find` at line 87; `ClickedButtonPressed` contrasts it with `ValueOf` |
| Filter.ClickedButtonPressed | script.js:96 | a clicked button is marked active exactly when its raw value is present and non-empty |
| Filter.FindButton | script.js:87 | `find` returns the first button whose raw value equals the selection, and nothing only when no button does |
| Filter.LabelOf | script.js:91 | the trimmed text of a button, "" when it has none |
| Filter.ActiveLabel | script.js:86-92 | the caption of the selected value; `ActiveLabelIsFirstMatch` states it |
| Filter.ActiveLabelIsFirstMatch | script.js:86-92 | the caption is the trimmed text of the first matching button, or the fallback when none matches |
| Filter.StatusText | script.js:133 | "Showing N product(s)"; `StatusTextExamples`, `StatusTextPlural` and `StatusTextInjective` state it |
| Filter.StatusTextExamples | script.js:133 | 0, 1 and 5 items read "Showing 0 products", "Showing 1 product" and "Showing 5 products" |
| Filter.StatusTextPlural | script.js:133 | the status text ends in "s" exactly when the count is not 1 |
| Filter.StatusTextInjective | script.js:133 | different counts never give the same status text |
| Filter.Fragment | script.js:141-148 | the written fragment is empty or starts with '#' |
| Filter.FragmentCases | script.js:141-148 | the fragment is empty exactly in the reset state; it names the room when one is selected, and the department only when the room is "all" |
| Filter.StripHash | script.js:153 | only one leading '#' is removed, and text without one is unchanged |
| Filter.NormaliseHash | script.js:153 | the fragment as read has no surrounding whitespace and no upper-case letter |
| Filter.MappedRoom | script.js:158 | a value that is not an alias is used as the room unchanged |
| Filter.ApplyHash | script.js:152-164 | the state after reading a fragment; `ApplyHashChanges` states every case |
| Filter.ApplyHashChanges | script.js:152-164 | an empty fragment changes nothing; a room match sets the room and nothing else; otherwise a department match sets the department and nothing else; with no match nothing changes; at most one axis changes |
| Filter.ApplyHashInRange | script.js:152-164 | reading a fragment keeps each axis "all" or a declared value |
| Filter.ClickDepartmentInRange | script.js:166-173 | a department click keeps the state within the declared values |
| Filter.ClickRoomInRange | script.js:175-182 | a room click keeps the state within the declared values |
| Filter.NormaliseFragment | script.js:148 | reading back the fragment written for a non-empty, trimmed, lower-case value gives that value |
| Filter.RoomRoundTrip | script.js:140-164 | a room-only selection survives being written to the fragment and read back from the reset state |
| Filter.DepartmentRoundTrip | script.js:140-164 | a department-only selection survives the same round trip when no room button has the same value |
| Filter.BothAxesLoseDepartment | script.js:140-164 | with both axes selected, the round trip keeps the room and loses the department |
| Filter.AliasFragment | script.js:158-160 | a legacy alias in the fragment selects the room it stands for and no department |
| Filter.KitchenRoomAlias | script.js:82-84 | `#kitchen-room` selects the `kitchen` room |
| Controller.WriteIfPresent | script.js:126-137 | a present node receives the value; an absent node stays absent |
| Controller.MarkFor | script.js:96-98 | a button is active exactly when `Pressed`, and `aria-pressed` spells that as "true" or "false" |
| Controller.SetActiveButton | script.js:94-100 | each button is active, with `aria-pressed` "true", exactly when its raw value equals the selection; otherwise it is inactive with "false" |
| Controller.Catalog.constructor | script.js:66-84 | collects the items, the buttons and the optional nodes; both axes start at "all"; the value sets are the buttons' values |
| Controller.Catalog.Start | script.js:184-187 | start-up reads the fragment into the reset state and leaves the page valid and showing that state |
| Controller.Catalog.Render | script.js:185-187 | both groups are marked from the state; the items and the optional nodes show it |
| Controller.Catalog.HideItems | script.js:103-117 | each item is hidden exactly when the state does not show it; the returned count is the number shown |
| Controller.Catalog.ApplyFilters | script.js:102-138 | the items, the status node, the empty-state node and both caption nodes show the current state, and no node appears or disappears |
| Controller.Catalog.SyncHashWithState | script.js:140-150 | the fragment becomes the one the state is written as |
| Controller.Catalog.ApplyHashFilter | script.js:152-164 | the new state is the old state with the fragment applied |
| Controller.Catalog.ClickDepartment | script.js:166-173 | the department becomes the button's value and the room is kept; the page stays valid; the fragment is the state's |
| Controller.Catalog.ClickRoom | script.js:175-182 | the room becomes the button's value and the department is kept; the page stays valid; the fragment is the state's |
| Controller.Catalog.HashChanged | script.js:189-196 | a `hashchange` resets both axes and applies the new fragment; the page stays valid |
| Controller.ClickRoomThenNavigate | script.js:175-196 | after a room click, navigating to the written fragment restores the same room-only state |
| Controller.NavigateToEmptyFragment | script.js:189-196 | a `hashchange` to an empty fragment resets both axes, hides no item, and the status node counts every item |

## Left out

- The navigation menu, the reveal-on-scroll effect and the footer year in `script.js` are outside this model.
- DOM querying and listener registration are not modelled. The page's collections become
  constructor parameters, and each listener becomes a method to call.
- `hash` is a field. The URL layer is not modelled: `new URL`, the `hash` setter's
  percent-encoding, `history.replaceState`, and the browser's decoding of `location.hash`.
- `hashchange` is modelled as a call with the new fragment. The browser's event dispatch is
  not modelled. Note that `replaceState` fires no `hashchange`, so a click never triggers the
  handler.
- Lower-casing covers ASCII letters only. `toLowerCase` on other scripts is not modelled.
- The alias table is the constant map `RoomAliases`. A lookup through the JavaScript object
  prototype chain is not modelled. For example, a fragment reading `constructor` finds an
  inherited function, not an alias.
- The buttons' marks before start-up, and the items' `hidden` flags before start-up, are
  left unconstrained. The model only states what the handlers write.
- Controller.SetActiveButton: follows the code, not the stronger "exactly one button per
  kind is active" reading. The code marks every button whose raw value equals the selection.
  That is none when the selected value comes only from a button without a value, and more
  than one when buttons share a value.
- Filter.RoomRoundTrip, Filter.DepartmentRoundTrip, Filter.BothAxesLoseDepartment and
  Controller.ClickRoomThenNavigate: hold only for values made of printable ASCII characters
  that the fragment does not percent-encode (`FragmentSafe`), since the URL layer is not
  modelled. A value with a space, a quote or a non-ASCII character comes back encoded.
- Filter.DepartmentRoundTrip: requires that no room button shares the department's value,
  because otherwise the room match wins when the fragment is read back.
