/**
 * The state of the NoiseGuard dashboard's `App` component as one value, and the
 * transitions its network-facing handlers make. The remote sample store is not
 * modelled: each request's response is an input (`Outcome`, `Fetched`), so every
 * handler becomes a deterministic step from one snapshot to the next.
 */
module AppState {
  import opened Wrappers
  import opened JsText
  import opened Lists

  /** How a create, rename or delete request ended. */
  datatype Outcome =
    | Ok                            // `response.ok` and the body parsed
    | Err(error: Option<string>)    // a non-success status; `error` is the body's `error` field, if any
    | Exception                     // the request or `response.json()` threw

  /** How a read request (the name list, one sample's values) ended. */
  datatype Fetched<T> = Received(value: T) | FetchFailed

  /** One snapshot of the component's nine pieces of state. Numbers are only stored, so `real` stands for them. */
  datatype AppView = AppView(
    measurementNames: seq<string>,
    selectedFile: Option<string>,
    currentMeasurement: seq<real>,
    newFilename: string,
    editingIndex: Option<nat>,
    editingValue: string,
    confirmDeleteIndex: Option<nat>,
    snackOpen: bool,
    snackMessage: string)

  /** The state at mount: every `useState` initial value. */
  const Initial := AppView([], None, [], "", None, "", None, false, "")

  const CreatedMessage := "Sample created successfully"
  const CreateFailedMessage := "Error creating sample"
  const UpdatedMessage := "Sample updated"
  const UpdateFailedMessage := "Error updating sample"
  const DeletedMessage := "Sample deleted"
  const DeleteFailedMessage := "Error deleting sample"
  const UnexpectedMessage := "Unexpected error"

  /** At most one kind of row mode is active: no row is edited while one awaits delete confirmation. */
  predicate RowModesExclusive(m: AppView) {
    !(m.editingIndex.Some? && m.confirmDeleteIndex.Some?)
  }

  /** The selection, if any, names a sample that is in the cached list. */
  predicate SelectionListed(m: AppView) {
    m.selectedFile.Some? ==> m.selectedFile.value in m.measurementNames
  }

  /** `r` is `m` with the snackbar opened on `msg` and nothing else changed. */
  predicate Notified(m: AppView, r: AppView, msg: string) {
    r == m.(snackOpen := true, snackMessage := msg)
  }

  /** `!s.trim()`: the create input holds white space only. */
  predicate IsBlank(s: string)
    ensures IsBlank(s) <==> AllWhiteSpace(s)
  {
    Trim(s) == []
  }

  /**
   * `result.error || fallback`: the server's message unless it is absent or empty
   * (both falsy in JavaScript), in which case the operation's fallback.
   */
  function ErrorMessage(error: Option<string>, fallback: string): (msg: string)
    requires fallback != ""
    ensures msg != ""
    ensures msg == fallback || (error.Some? && msg == error.value)
    ensures error.Some? && error.value != "" ==> msg == error.value
  {
    match error
    case Some(e) => if e != "" then e else fallback
    case None => fallback
  }

  /** The effect of `fetchNames` once its response arrives. */
  function FetchNames(m: AppView, res: Fetched<seq<string>>): (r: AppView)
    ensures res.Received? ==> r == m.(measurementNames := res.value)
    ensures res.FetchFailed? ==> r == m
    ensures RowModesExclusive(m) ==> RowModesExclusive(r)
  {
    match res
    case Received(names) => m.(measurementNames := names)
    case FetchFailed => m
  }

  /**
   * The `fetchData` effect that runs whenever `selectedFile` changes. Nothing happens
   * when the selection is falsy (`null` or the empty name); otherwise the response,
   * when it arrives, replaces the displayed values. No check is made that the
   * selection is still the one the request was made for.
   */
  function FetchData(m: AppView, res: Fetched<seq<real>>): (r: AppView)
    ensures (m.selectedFile.None? || m.selectedFile.value == "" || res.FetchFailed?) ==> r == m
    ensures m.selectedFile.Some? && m.selectedFile.value != "" && res.Received? ==>
              r.currentMeasurement == res.value && r == m.(currentMeasurement := r.currentMeasurement)
  {
    if m.selectedFile.None? || m.selectedFile.value == "" then m
    else
      match res
      case Received(data) => m.(currentMeasurement := data)
      case FetchFailed => m
  }

  /** `handleCreateSample`: a request is made only for a non-blank name; on success the raw name is appended. */
  function CreateSample(m: AppView, o: Outcome): (r: AppView)
    ensures IsBlank(m.newFilename) ==> r == m
    ensures !IsBlank(m.newFilename) && o.Ok? ==>
              |r.measurementNames| == |m.measurementNames| + 1 &&
              r.measurementNames[..|m.measurementNames|] == m.measurementNames &&
              r.measurementNames[|m.measurementNames|] == m.newFilename &&
              r.newFilename == "" && r.snackOpen && r.snackMessage == CreatedMessage &&
              r.(measurementNames := m.measurementNames, newFilename := m.newFilename,
                 snackOpen := m.snackOpen, snackMessage := m.snackMessage) == m
    ensures !IsBlank(m.newFilename) && o.Err? ==> Notified(m, r, ErrorMessage(o.error, CreateFailedMessage))
    ensures !IsBlank(m.newFilename) && o.Exception? ==> Notified(m, r, UnexpectedMessage)
    ensures RowModesExclusive(m) ==> RowModesExclusive(r)
    ensures SelectionListed(m) ==> SelectionListed(r)
  {
    if IsBlank(m.newFilename) then m
    else
      match o
      case Ok =>
        m.(snackMessage := CreatedMessage, snackOpen := true,
           measurementNames := m.measurementNames + [m.newFilename], newFilename := "")
      case Err(e) => m.(snackMessage := ErrorMessage(e, CreateFailedMessage), snackOpen := true)
      case Exception => m.(snackMessage := UnexpectedMessage, snackOpen := true)
  }

  /**
   * `handleUpdateSample(index)`: renames the sample at `index` to the edit buffer.
   * On success the name is replaced in place, edit mode ends, and a selection of the
   * old name follows it to the new one; on failure only the snackbar changes, so
   * edit mode stays active.
   */
  function UpdateSample(m: AppView, index: nat, o: Outcome): (r: AppView)
    requires index < |m.measurementNames|
    ensures o.Ok? ==>
              |r.measurementNames| == |m.measurementNames| &&
              r.measurementNames[index] == m.editingValue &&
              (forall j :: 0 <= j < |m.measurementNames| && j != index ==>
                 r.measurementNames[j] == m.measurementNames[j]) &&
              r.editingIndex.None? && r.editingValue == "" &&
              r.snackOpen && r.snackMessage == UpdatedMessage &&
              r.currentMeasurement == m.currentMeasurement && r.newFilename == m.newFilename &&
              r.confirmDeleteIndex == m.confirmDeleteIndex
    ensures o.Ok? && m.selectedFile == Some(m.measurementNames[index]) ==> r.selectedFile == Some(m.editingValue)
    ensures !(o.Ok? && m.selectedFile == Some(m.measurementNames[index])) ==> r.selectedFile == m.selectedFile
    // the `fetchData` effect re-runs exactly when the selection changes
    ensures r.selectedFile != m.selectedFile <==>
              o.Ok? && m.selectedFile == Some(m.measurementNames[index]) &&
              m.editingValue != m.measurementNames[index]
    ensures o.Err? ==> Notified(m, r, ErrorMessage(o.error, UpdateFailedMessage))
    ensures o.Exception? ==> Notified(m, r, UnexpectedMessage)
    ensures RowModesExclusive(m) ==> RowModesExclusive(r)
    ensures SelectionListed(m) ==> SelectionListed(r)
  {
    var oldName := m.measurementNames[index];
    var newName := m.editingValue;
    match o
    case Ok =>
      m.(measurementNames := m.measurementNames[index := newName],
         snackMessage := UpdatedMessage, snackOpen := true,
         editingIndex := None, editingValue := "",
         selectedFile := if m.selectedFile == Some(oldName) then Some(newName) else m.selectedFile)
    case Err(e) => m.(snackMessage := ErrorMessage(e, UpdateFailedMessage), snackOpen := true)
    case Exception => m.(snackMessage := UnexpectedMessage, snackOpen := true)
  }

  /**
   * `handleDeleteSample(index)`: on success exactly the entry at `index` leaves the
   * list, delete confirmation ends, and a selection of the deleted name is cleared
   * together with the displayed values; on failure only the snackbar changes.
   */
  function DeleteSample(m: AppView, index: nat, o: Outcome): (r: AppView)
    requires index < |m.measurementNames|
    ensures o.Ok? ==>
              r.measurementNames == m.measurementNames[..index] + m.measurementNames[index + 1..] &&
              |r.measurementNames| == |m.measurementNames| - 1 &&
              r.confirmDeleteIndex.None? && r.snackOpen && r.snackMessage == DeletedMessage &&
              r.editingIndex == m.editingIndex && r.editingValue == m.editingValue &&
              r.newFilename == m.newFilename
    ensures o.Ok? && m.selectedFile == Some(m.measurementNames[index]) ==>
              r.selectedFile.None? && r.currentMeasurement == []
    ensures !(o.Ok? && m.selectedFile == Some(m.measurementNames[index])) ==>
              r.selectedFile == m.selectedFile && r.currentMeasurement == m.currentMeasurement
    ensures o.Err? ==> Notified(m, r, ErrorMessage(o.error, DeleteFailedMessage))
    ensures o.Exception? ==> Notified(m, r, UnexpectedMessage)
    ensures RowModesExclusive(m) ==> RowModesExclusive(r)
    ensures SelectionListed(m) ==> SelectionListed(r)
  {
    var filename := m.measurementNames[index];
    match o
    case Ok =>
      var updated := FilterOutIndex(m.measurementNames, index);
      var cleared := m.(measurementNames := updated, snackMessage := DeletedMessage,
                        snackOpen := true, confirmDeleteIndex := None);
      if m.selectedFile == Some(filename) then cleared.(selectedFile := None, currentMeasurement := [])
      else cleared
    case Err(e) => m.(snackMessage := ErrorMessage(e, DeleteFailedMessage), snackOpen := true)
    case Exception => m.(snackMessage := UnexpectedMessage, snackOpen := true)
  }
}
