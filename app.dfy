/**
 * The `App` component of the NoiseGuard dashboard: its state hooks become fields and
 * each handler becomes a method that updates them in the order the handler calls its
 * setters. Every method's new state is the matching transition of `AppState` applied
 * to the old snapshot, and every method keeps the row modes exclusive.
 */
module AppComponent {
  import opened Wrappers
  import opened Lists
  import opened AppState

  class App {
    var currentMeasurement: seq<real>
    var measurementNames: seq<string>
    var selectedFile: Option<string>
    var newFilename: string
    var editingIndex: Option<nat>
    var editingValue: string
    var confirmDeleteIndex: Option<nat>
    var snackOpen: bool
    var snackMessage: string

    /** The component's state as one value. */
    function Snapshot(): AppView
      reads this
    {
      AppView(measurementNames, selectedFile, currentMeasurement, newFilename,
              editingIndex, editingValue, confirmDeleteIndex, snackOpen, snackMessage)
    }

    ghost predicate Valid()
      reads this
    {
      RowModesExclusive(Snapshot())
    }

    /** The state of a freshly mounted component. */
    constructor ()
      ensures Valid() && Snapshot() == Initial
    {
      currentMeasurement := [];
      measurementNames := [];
      selectedFile := None;
      newFilename := "";
      editingIndex := None;
      editingValue := "";
      confirmDeleteIndex := None;
      snackOpen := false;
      snackMessage := "";
    }

    /** The mount effect `fetchNames`, given how its request ended; a failure is only logged. */
    method FetchNames(res: Fetched<seq<string>>)
      requires Valid()
      modifies this
      ensures Valid() && Snapshot() == AppState.FetchNames(old(Snapshot()), res)
    {
      match res {
        case Received(namesData) => measurementNames := namesData;
        case FetchFailed =>
      }
    }

    /** The `fetchData` effect, given how its request ended; a failure is only logged. */
    method FetchData(res: Fetched<seq<real>>)
      requires Valid()
      modifies this
      ensures Valid() && Snapshot() == AppState.FetchData(old(Snapshot()), res)
    {
      if selectedFile.None? || selectedFile.value == "" {
        return;
      }
      match res {
        case Received(data) => currentMeasurement := data;
        case FetchFailed =>
      }
    }

    /** Clicking a row's name selects it; the `fetchData` effect then runs if the selection changed. */
    method SelectRow(index: nat)
      requires Valid() && index < |measurementNames|
      modifies this
      ensures Valid() && Snapshot() == old(Snapshot()).(selectedFile := Some(old(measurementNames)[index]))
      ensures old(SelectionListed(Snapshot())) ==> SelectionListed(Snapshot())
    {
      selectedFile := Some(measurementNames[index]);
    }

    /** Typing into the create field. */
    method ChangeNewFilename(text: string)
      requires Valid()
      modifies this
      ensures Valid() && Snapshot() == old(Snapshot()).(newFilename := text)
    {
      newFilename := text;
    }

    /** `handleCreateSample`, given how its request ended. */
    method HandleCreateSample(o: Outcome)
      requires Valid()
      modifies this
      ensures Valid() && Snapshot() == CreateSample(old(Snapshot()), o)
      ensures old(SelectionListed(Snapshot())) ==> SelectionListed(Snapshot())
    {
      if IsBlank(newFilename) {
        return;
      }
      match o {
        case Err(e) =>
          snackMessage := ErrorMessage(e, CreateFailedMessage);
          snackOpen := true;
        case Exception =>
          snackMessage := UnexpectedMessage;
          snackOpen := true;
        case Ok =>
          snackMessage := CreatedMessage;
          snackOpen := true;
          measurementNames := measurementNames + [newFilename];
          newFilename := "";
      }
    }

    /** The edit button of row `index`: edit mode on that row, seeded with its name; delete confirmation off. */
    method StartEdit(index: nat)
      requires Valid() && index < |measurementNames|
      modifies this
      ensures Valid()
      ensures Snapshot() == old(Snapshot()).(editingIndex := Some(index),
                                             editingValue := old(measurementNames)[index],
                                             confirmDeleteIndex := None)
    {
      editingIndex := Some(index);
      editingValue := measurementNames[index];
      confirmDeleteIndex := None;
    }

    /** Typing into the edit field of the row being edited. */
    method ChangeEditingValue(text: string)
      requires Valid()
      modifies this
      ensures Valid() && Snapshot() == old(Snapshot()).(editingValue := text)
    {
      editingValue := text;
    }

    /** The cancel button of the row being edited: both row modes off; the edit buffer is kept. */
    method CancelEdit()
      requires Valid()
      modifies this
      ensures Valid() && Snapshot() == old(Snapshot()).(editingIndex := None, confirmDeleteIndex := None)
    {
      editingIndex := None;
      confirmDeleteIndex := None;
    }

    /** `handleUpdateSample(index)`, given how its request ended. */
    method HandleUpdateSample(index: nat, o: Outcome)
      requires Valid() && index < |measurementNames|
      modifies this
      ensures Valid() && Snapshot() == UpdateSample(old(Snapshot()), index, o)
      ensures old(SelectionListed(Snapshot())) ==> SelectionListed(Snapshot())
    {
      var oldfilename := measurementNames[index];
      var newfilename := editingValue;
      match o {
        case Err(e) =>
          snackMessage := ErrorMessage(e, UpdateFailedMessage);
          snackOpen := true;
        case Exception =>
          snackMessage := UnexpectedMessage;
          snackOpen := true;
        case Ok =>
          // `[...measurementNames]` followed by `updated[index] = newfilename`: a sequence is already a copy
          var updated := measurementNames;
          updated := updated[index := newfilename];
          measurementNames := updated;
          snackMessage := UpdatedMessage;
          snackOpen := true;
          editingIndex := None;
          editingValue := "";
          if selectedFile == Some(oldfilename) {
            selectedFile := Some(newfilename);
          }
      }
    }

    /** The delete button of row `index`: delete confirmation on that row; edit mode off. */
    method StartDeleteConfirm(index: nat)
      requires Valid()
      modifies this
      ensures Valid()
      ensures Snapshot() == old(Snapshot()).(confirmDeleteIndex := Some(index), editingIndex := None)
    {
      confirmDeleteIndex := Some(index);
      editingIndex := None;
    }

    /** The cancel button of the row awaiting delete confirmation. */
    method CancelDeleteConfirm()
      requires Valid()
      modifies this
      ensures Valid() && Snapshot() == old(Snapshot()).(confirmDeleteIndex := None)
    {
      confirmDeleteIndex := None;
    }

    /** `handleDeleteSample(index)`, given how its request ended. */
    method HandleDeleteSample(index: nat, o: Outcome)
      requires Valid() && index < |measurementNames|
      modifies this
      ensures Valid() && Snapshot() == DeleteSample(old(Snapshot()), index, o)
      ensures old(SelectionListed(Snapshot())) ==> SelectionListed(Snapshot())
    {
      var filename := measurementNames[index];
      match o {
        case Err(e) =>
          snackMessage := ErrorMessage(e, DeleteFailedMessage);
          snackOpen := true;
        case Exception =>
          snackMessage := UnexpectedMessage;
          snackOpen := true;
        case Ok =>
          var updated := FilterOutIndex(measurementNames, index);
          measurementNames := updated;
          snackMessage := DeletedMessage;
          snackOpen := true;
          confirmDeleteIndex := None;
          if selectedFile == Some(filename) {
            selectedFile := None;
            currentMeasurement := [];
          }
      }
    }

    /** Any close request of the snackbar: its close button, its auto-hide timeout, a click away or Escape. */
    method CloseSnack()
      requires Valid()
      modifies this
      ensures Valid() && Snapshot() == old(Snapshot()).(snackOpen := false)
    {
      snackOpen := false;
    }
  }
}
