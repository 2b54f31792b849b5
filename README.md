# Live location roster of a group-location sharing web client

This project models the logic at the centre of a web client that shows the
live positions of a group's members on a map:

- **the roster merge** of the group view (`GroupDetails`): a location snapshot
  seeds the member list, and each message from the group's live-update channel
  is merged into it, keyed by e-mail, with the last arrival winning;
- **the viewport-fit decision** of the map (`MapView`): which members get a
  marker, and when the map flies to the bounds of the valid positions;
- **the application shell's session and view state** (`App`): the username
  fallback at sign-in, the formatting of a selected group's details, logout,
  back navigation and the choice among the three screens.

JavaScript values are modelled by `JsValues.JsValue`: missing fields are
`Undefined`, numbers are finite reals or `NaN`/±Infinity, and objects compare by
reference. `===`, truthiness, `||`, `typeof … === "number"` and comparisons
with numeric constants are written out with JavaScript's rules. For example,
`NaN` equals nothing and fails every comparison.

Each React component whose state changes step by step is a class. `RosterStore`
holds `members`. `FitBoundsOnce` holds `lastMembers`, the `lastMembersRef`.
`AppState` holds the `App` component's state fields. Every method is tied to a
pure function of the old state, and the properties are proved about those
functions.

Inputs the program receives from outside become parameters:

- the snapshot response (`Records.Snapshot`: a failed request or the array of rows);
- each channel message after `JSON.parse` (`GroupDetails.Payload`);
- what the sign-in page hands over (`App.AuthData`);
- `new Date(t).getTime()`, a parameter function `dateGetTime` (browser date parsing is not modelled).

Behaviours of the code a reader might not expect:

- A live update replaces the matched record **wholesale**. It does not overwrite only the position fields. The role becomes `"member"` again and the timestamp is the raw message field (`GroupDetails.MessageReplacesWholeRecord`).
- The group view uses the role `"member"` and converts the snapshot timestamp. The shell's `handleSelect` uses `"MEMBER"` and keeps the raw timestamp. Both decode through `Records.DecodeRows`, with the role and the timestamp treatment as parameters.
- A failed snapshot leaves the group view's roster **as it was**. It is not reset to empty. Only the shell's details fall back to an empty member list.
- The fit effect records the current list on **every** change, also when nothing was valid and no fit was issued. It records more than the lists it actually fitted.
- Change detection is **positional**. A reordering counts as a change (`MapView.ReorderingIsAChange`). Role and timestamp are never compared (`MapView.SamePositionUpdateIsNoChange`).
- A `NaN` coordinate makes a list differ even from itself (`MapView.NaNIsAlwaysAChange`). So idempotence of the fit needs lists without `NaN` (`MapView.FitIsIdempotent`). JSON cannot carry `NaN`, so this cannot come from the backend.
- The group screen is chosen by the truthiness of the selected group's **name**. A group named `""` therefore leaves the dashboard showing (`App.EmptyGroupNameShowsDashboard`).

## Model

| member | source | states |
|---|---|---|
| `JsValues.StrictEq` | src/components/GroupDetails.jsx:69 | `a === b` holds exactly when the values are identical and not NaN |
| `JsValues.Truthy` | src/App.jsx:232-237 | the falsy values are exactly undefined, null, false, 0, NaN and "" |
| `JsValues.Or` | src/App.jsx:75 | the logical-or operator yields `a` when `a` is truthy and `b` otherwise |
| `JsValues.IsNumber` | src/components/MapView.jsx:10-11 | `typeof v === "number"` holds exactly for the numbers, NaN and the infinities included, and for no undefined, null, boolean, string or object value |
| `JsValues.AtLeast` | src/components/MapView.jsx:12-14 | `v >= c` for a number: true for +Infinity, false for NaN and -Infinity, the real comparison otherwise |
| `JsValues.AtMost` | src/components/MapView.jsx:13-15 | `v <= c` for a number: true for -Infinity, false for NaN and +Infinity, the real comparison otherwise |
| `Records.DecodeRows` | src/components/GroupDetails.jsx:30-36 | fails exactly when some row is null; otherwise keeps length and order, with name = email, the given role, lat/lng copied and the timestamp passed through the given conversion |
| `GroupDetails.DecodeSnapshot` | src/components/GroupDetails.jsx:30-36 | succeeds exactly for a fetched array without null rows; entry i has name = email of row i, role "member", its lat/lng and the converted timestamp |
| `GroupDetails.DecodeUpdate` | src/components/GroupDetails.jsx:57-66 | no member exactly when parsing fails or yields null; otherwise the member built from the message's email, latitude, longitude and raw timestamp with role "member" |
| `GroupDetails.FindIndex` | src/components/GroupDetails.jsx:69 | -1 exactly when no name matches under `===`; otherwise a matching index with no match before it |
| `GroupDetails.Upsert` | src/components/GroupDetails.jsx:68-76 | with no matching name the member is appended and the prefix kept; otherwise only the first matching index is replaced, by the whole member |
| `GroupDetails.ApplyMessage` | src/components/GroupDetails.jsx:56-80 | a message that fails to decode leaves the roster exactly as it was; a decoded one is upserted |
| `GroupDetails.AfterSnapshot` | src/components/GroupDetails.jsx:38-41 | a decoded snapshot replaces the roster entirely; a failed one leaves it unchanged |
| `GroupDetails.LatestFor` | src/components/GroupDetails.jsx:68-76 | there is a latest update for a name exactly when some update has that name; it carries the name and no later update has that name, so it is the last to arrive |
| `GroupDetails.ApplyAll` | src/components/GroupDetails.jsx:68-76 | applying updates in arrival order never shortens the roster, adds at most one entry per update, and keeps the name at every original index |
| `GroupDetails.UpsertKeepsDistinct` | src/components/GroupDetails.jsx:68-76 | pairwise distinct names stay pairwise distinct after an upsert |
| `GroupDetails.UpsertNames` | src/components/GroupDetails.jsx:68-76 | an upsert adds exactly the update's name to the names present and removes none |
| `GroupDetails.ApplyAllMerges` | src/components/GroupDetails.jsx:68-76 | folding updates over a roster with distinct names gives distinct names, covering exactly the roster's and the updates' names; each original entry keeps its index and equals the last-arriving update for its name (or itself), each appended entry is the last-arriving update for a new name; timestamps play no part |
| `GroupDetails.LateSnapshotDiscardsUpdates` | src/components/GroupDetails.jsx:38 | a snapshot that decodes after live updates yields the same roster as without them: the updates are lost |
| `GroupDetails.MessageReplacesWholeRecord` | src/components/GroupDetails.jsx:60-72 | a message for a present name keeps the length, sets that entry to email/"member"/lat/lng/raw timestamp and changes no other entry |
| `GroupDetails.OlderUpdateArrivingLaterWins` | src/components/GroupDetails.jsx:56-76 | snapshot a@x.com (1,2) at 1000, then an update (5,6) at 900: the roster shows (5,6) |
| `GroupDetails.RosterStore.constructor` | src/components/GroupDetails.jsx:13 | the roster starts empty |
| `GroupDetails.RosterStore.ReceiveSnapshot` | src/components/GroupDetails.jsx:24-41 | the new roster is the decoded snapshot, or the old roster when decoding fails |
| `GroupDetails.RosterStore.ReceiveMessage` | src/components/GroupDetails.jsx:56-80 | the new roster is the old one with the message applied; undecodable messages change nothing |
| `MapView.IsValidLatLng` | src/components/MapView.jsx:9-15 | holds exactly when both are finite numbers with -90 <= lat <= 90 and -180 <= lng <= 180 (NaN and infinities are invalid) |
| `MapView.ValidPoints` | src/components/MapView.jsx:38-43 | at most one point per member, all in range, and empty exactly when no member is valid |
| `MapView.ValidPointsAppend` | src/components/MapView.jsx:38-43 | the bounds of a concatenation are the concatenated bounds, so list order is kept |
| `MapView.CollectBounds` | src/components/MapView.jsx:38-43 | the `forEach` loop yields exactly the valid members' coordinates, in order |
| `MapView.Markers` | src/components/MapView.jsx:82-90 | every marker belongs to a valid member, at its position and with its name as title, and keys strictly increase (list order) |
| `MapView.MarkersCoverValid` | src/components/MapView.jsx:82-84 | every valid member has a marker |
| `MapView.MarkersAtBounds` | src/components/MapView.jsx:38-43 | the markers' positions are exactly the fit bounds, one for one |
| `MapView.Changed` | src/components/MapView.jsx:27-35 | no change implies equal lengths and, index by index, equal lat, lng and name; equal lengths with equal, NaN-free lat, lng and name at every index imply no change |
| `MapView.UnchangedAgainstItself` | src/components/MapView.jsx:27-35 | a list without NaN is not changed against itself |
| `MapView.NaNIsAlwaysAChange` | src/components/MapView.jsx:32 | a NaN latitude makes a list changed even against itself |
| `MapView.ReorderingIsAChange` | src/components/MapView.jsx:27-35 | swapping two differently named entries is a change: the test is positional, not keyed |
| `MapView.SamePositionUpdateIsNoChange` | src/components/MapView.jsx:27-35 | an upsert that keeps an entry's name and coordinates (new timestamp only) is not a change |
| `MapView.Fit` | src/components/MapView.jsx:22-56 | an empty list does nothing; a fit happens exactly when the list is non-empty, changed and has a valid entry, and its bounds are the valid points in order; the list is recorded exactly on a non-empty change |
| `MapView.FitIsIdempotent` | src/components/MapView.jsx:37-54 | running the decision again on the same list (without NaN) issues no fit and records nothing new |
| `MapView.SecondMemberTriggersOneFit` | src/components/MapView.jsx:22-56 | from {A:(10,10)} to {A:(10,10),B:(20,20)}: one fit to both points, then none for the same list |
| `MapView.OutOfRangeOnlyIsRecordedNotFitted` | src/components/MapView.jsx:37-54 | a changed list whose latitudes are all 200 issues no fit but is recorded |
| `MapView.FitBoundsOnce.constructor` | src/components/MapView.jsx:20 | the recorded list starts empty |
| `MapView.FitBoundsOnce.Run` | src/components/MapView.jsx:22-56 | the fit issued and the new recorded list are those of the fit decision on the old record |
| `App.UsernameOf` | src/App.jsx:75 | the username is always truthy: `username` if truthy, else `email` if truthy, else "guest" |
| `App.FormatGroup` | src/App.jsx:92-108 | on success the group's id and name with one "MEMBER" per row in order, name = email and lat/lng/timestamp copied; on any failure the fallback |
| `App.Fallback` | src/App.jsx:108 | the group's id, name and other properties with `members` empty, and no property the group did not have |
| `App.ScreenFor` | src/App.jsx:232-262 | sign-in exactly with no user; otherwise the group screen exactly when the selected group is truthy, else the dashboard, each with its loading flag |
| `App.EmptyGroupNameShowsDashboard` | src/App.jsx:237 | a selected group named "" shows the dashboard |
| `App.AppState.constructor` | src/App.jsx:12-22 | no user, no token, no groups, no selection or details, not loading; the sign-in screen |
| `App.AppState.HandleAuth` | src/App.jsx:74-78 | the user becomes the fallback username; the token becomes `data.token` (unchanged when there is no data, where reading it throws); nothing else changes |
| `App.AppState.BeginSelect` | src/App.jsx:80-90 | the selection becomes the group's name and loading starts; with no user the fallback details are stored at once and loading stops |
| `App.AppState.EndSelect` | src/App.jsx:92-111 | the details become the formatted group (or the fallback) and loading is false; nothing else changes |
| `App.AppState.HandleLogout` | src/App.jsx:223-229 | user, token, selection and details are cleared, groups emptied; the sign-in screen |
| `App.AppState.Back` | src/App.jsx:251-254 | only the selection and the details are cleared; a signed-in user sees the dashboard |

## Left out

- HTTP requests (snapshot, groups, group and member management, sign-in, location reports) are not modelled: their results are inputs to the model.
- The live-update channel's open/close lifecycle and effect cleanup are not modelled. Whether a message arrives after `close()` is up to the browser and React.
- Geolocation watching and fire-and-forget reporting are not modelled: they are browser sensor APIs and asynchronous side effects.
- React scheduling and effect dependencies are not modelled. `FitBoundsOnce.Run` models one run of the effect, but the decision of when React re-runs it (a new `members` array) is not captured.
- Leaflet rendering, the `flyToBounds` animation options, tiles and icons are left out. Only the argument of the fit call is modelled.
- Interleavings during the `await` of `handleSelect` are left to the caller. `BeginSelect` and `EndSelect` model the two halves, but the model does not check that they pair up.
- `handleFetch`, group creation and group deletion, the sign-in form, the modals, the dashboard and the navigation bar are UI wiring outside the core.
- Clipboard access, timers, confirmation dialogs, alerts, console logging, date display formatting and styling are left out: they are I/O and presentation.
- Floating-point detail of coordinates is not modelled beyond NaN, the infinities and ordering comparisons. Finite numbers are reals, and negative zero is not distinguished.
- `new Date(t).getTime()` is a parameter function: browser date parsing is not modelled.
