# NoiseGuard dashboard: the `App` component's state machine in Dafny

NoiseGuard's web client shows a sidebar of named measurement samples and a pane with
the values of the selected one. This project models the client-side state of its `App`
component (`src/App.tsx`) and the handlers that change that state:

- the cached list of sample names (`measurementNames`);
- the selection (`selectedFile`) and the displayed values (`currentMeasurement`);
- the create input (`newFilename`);
- the per-row edit mode (`editingIndex`, `editingValue`) and delete-confirmation mode (`confirmDeleteIndex`);
- the snackbar (`snackOpen`, `snackMessage`).

Every request to the remote sample store is replaced by an input that says how the request
ended (`AppState.Outcome`: `Ok`, `Err(error)` or `Exception`; `AppState.Fetched` for the two
reads). Each handler is then a deterministic transition.

Files:

- `wrappers.dfy`: `Option`, standing for the source's `T | null`.
- `js_text.dfy`: ECMAScript `String.prototype.trim`. The create handler uses it to reject blank names.
- `lists.dfy`: the `filter` by index that removes a deleted name.
- `app_state.dfy`: the component state as one value (`AppView`) and pure transitions for the handlers that talk to the store. Each transition states its effect in semantic terms, together with the invariants it keeps.
- `app.dfy`: the component as a class `App`. Its fields are the state hooks. It has one method per handler, with setter calls in the source's order. Every method keeps `Valid()` (the two row modes are never both active). Each method's new state is the `AppState` transition of the old snapshot, or the field update the inline handler makes.

JavaScript truthiness is modelled where the source relies on it:

- `result.error || fallback` uses the fallback when the server's `error` is absent or empty.
- `!selectedFile` skips the data fetch both for no selection and for a sample named `""`. A rename does not check the new name, so such a name can occur.
- `!newFilename.trim()` is true exactly when the input is ECMAScript white space only.

What the component does not do:

- The create request always asks for `times=5`. No count is taken from the user and nothing is clamped.
- No summary statistics (max, min, mean, standard deviation) and no timestamp are computed in the component.
- The data fetch has no staleness guard. `fetchData` tests the selection only when it sends the request (`src/App.tsx:46`); the response is then stored whatever the selection has become (`src/App.tsx:51`). The model applies each fetch as one step, so it cannot represent such a late response (see "## Left out").
- A successful create appends the untrimmed input. Only the blank check uses `trim`.

## Model

| member | source | states |
|---|---|---|
| JsText.TrimStart | src/App.tsx:61 | the result is a suffix of the input that does not start with white space, and everything dropped is white space |
| JsText.TrimEnd | src/App.tsx:61 | the result is a prefix of the input that does not end with white space, and everything dropped is white space |
| JsText.Trim | src/App.tsx:61 | the trimmed name neither starts nor ends with white space; it is empty exactly when every character of the input is white space |
| Lists.FilterOutIndex | src/App.tsx:131 | filtering out position `k` gives `s[..k] + s[k+1..]` when `k` is in range (one element shorter, order kept), and `s` itself otherwise |
| AppState.IsBlank | src/App.tsx:61 | the create guard `!newFilename.trim()` holds exactly when every character of the input is ECMAScript white space (the empty input included) |
| AppState.ErrorMessage | src/App.tsx:69 | the surfaced message is the server's error when that is present and non-empty, otherwise the operation's fallback; it is never empty |
| AppState.FetchNames | src/App.tsx:28-42 | a loaded list replaces the cached names wholesale and nothing else; a failed load changes nothing and raises no notification |
| AppState.FetchData | src/App.tsx:44-58 | with no selection or an empty selected name nothing happens; otherwise received values replace the displayed values and nothing else, and a failure changes nothing |
| AppState.CreateSample | src/App.tsx:60-83 | a blank name changes nothing (no request, no notification); on success the input is appended after every earlier name, the input is cleared and "Sample created successfully" is shown, nothing else changes; on a server error or an exception only the snackbar changes (server message or "Error creating sample"; "Unexpected error"); row modes stay exclusive and the selection stays listed |
| AppState.UpdateSample | src/App.tsx:85-115 | on success the list keeps its length, position `index` becomes the edit buffer and every other position is unchanged, edit mode ends, "Sample updated" is shown, and the selection becomes the new name if it was the old name and is untouched otherwise; the selection (and so the data fetch) changes exactly when the selected old name is renamed to a different name; on a server error or an exception only the snackbar changes, so edit mode stays active; a listed selection stays listed |
| AppState.DeleteSample | src/App.tsx:117-145 | on success exactly the entry at `index` is removed (`names[..index] + names[index+1..]`), confirmation ends and "Sample deleted" is shown; the selection and the displayed values are both cleared if the deleted name was selected and both untouched otherwise; on a server error or an exception only the snackbar changes; a listed selection stays listed |
| AppComponent.App.constructor | src/App.tsx:18-26 | the mounted component starts with every hook's initial value: no names, no selection, no values, empty inputs, no row mode, a closed snackbar |
| AppComponent.App.FetchNames | src/App.tsx:28-42 | the fields after the name load are the `FetchNames` transition of the fields before |
| AppComponent.App.FetchData | src/App.tsx:44-58 | the fields after the data fetch are the `FetchData` transition of the fields before |
| AppComponent.App.SelectRow | src/App.tsx:175 | clicking a row selects that row's name and changes nothing else |
| AppComponent.App.ChangeNewFilename | src/App.tsx:165 | typing sets the create input and nothing else |
| AppComponent.App.HandleCreateSample | src/App.tsx:60-83 | the fields after the create handler are the `CreateSample` transition of the fields before; row modes stay exclusive and the selection stays listed |
| AppComponent.App.StartEdit | src/App.tsx:212 | row `index` enters edit mode with its current name in the buffer, delete confirmation is cleared, the names are untouched |
| AppComponent.App.ChangeEditingValue | src/App.tsx:181 | typing sets the edit buffer and nothing else |
| AppComponent.App.CancelEdit | src/App.tsx:193 | both row modes are cleared and nothing else changes |
| AppComponent.App.HandleUpdateSample | src/App.tsx:85-115 | the fields after the rename handler are the `UpdateSample` transition of the fields before; row modes stay exclusive and the selection stays listed |
| AppComponent.App.StartDeleteConfirm | src/App.tsx:215 | row `index` awaits delete confirmation, edit mode is cleared, the names are untouched |
| AppComponent.App.CancelDeleteConfirm | src/App.tsx:206 | delete confirmation is cleared and nothing else changes |
| AppComponent.App.HandleDeleteSample | src/App.tsx:117-145 | the fields after the delete handler are the `DeleteSample` transition of the fields before; row modes stay exclusive and the selection stays listed |
| AppComponent.App.CloseSnack | src/App.tsx:256 | closing the snackbar hides it and changes nothing else |

## Left out

- HTTP requests, JSON parsing, `encodeURIComponent` and the `API_BASE` URL. They are I/O. Each request's result is an input of the step that applies it.
- Interleaving of asynchronous responses. Each handler and each effect is one atomic step: it reads the state and applies its response with nothing in between. Three overlaps of the component are therefore not captured. First, a data response that arrives after the selection changed or was cleared: the component stores it anyway (for example, the values of a sample deleted while its fetch was in flight), while `AppState.FetchData` tests the selection at the moment it applies the response. Second, a rename that waits on the server while a create completes: `handleUpdateSample` copies the list it saw when it was called (`src/App.tsx:100`), so storing that copy undoes the append, which create makes with the functional updater (`src/App.tsx:76`). Third, a delete that waits on the server while a create or rename completes: `handleDeleteSample` filters the list it saw when it was called (`src/App.tsx:131`) and compares the selection it saw (`src/App.tsx:136`), and `handleUpdateSample` likewise compares a captured selection (`src/App.tsx:107`). So with `[a, b]` and `a` selected, a delete of row 1 overlapping a successful rename of `a` to `c` ends with the list `[a]` and the selection `c`, which is not listed; the delete also undoes the rename (or a create) that finished while it waited. `SelectionListed` is therefore kept by every atomic step of the model, not by the component when its rename, create and delete requests overlap.
- The automatic run of the `fetchData` effect after a selection change. The model only states when the selection changes (`App.SelectRow`, `AppState.UpdateSample`, `AppState.DeleteSample`); a caller runs `App.FetchData` after that.
- AppComponent.App.FetchNames: does not promise that the selection stays listed. A name list loaded after something was selected replaces the list wholesale, and nothing checks the selection against it. At mount nothing is selected.
- Out-of-range row indices. The rename, delete, edit and select handlers are only reachable from a rendered row, so they require `index < |measurementNames|`. JavaScript would read `undefined` instead.
- A name-list or data response whose body lacks `samples` or `data`, and a non-string `error` field. These would store `undefined` or another JavaScript value; the model takes the response as well formed.
- Event propagation (`stopPropagation`), rendering, styling, and the 3000 ms auto-hide timer. These are presentation and timing; closing the snackbar is modelled as one step.
- `console.log` and `console.error` diagnostics.
- `src/components/BarChart.tsx`. It is chart-library configuration: number-to-string labels and a floating-point axis maximum.
