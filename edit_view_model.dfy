/** EditRotationViewModel: the rotation editor.  It edits the rotations of a
    file and the key commands of the selected rotation in place.  Both
    generations of the editor run the same four actions; the mouse-colour
    timer of the newer one only refreshes a display string. */
module EditRotations {
  import opened Wrappers
  import opened KeyCommands
  import opened Rotations

  class EditRotationViewModel {
    const file: RotationHelperFile
    var selectedRotation: Rotation?
    var selectedKeyCommand: KeyCommand?

    /** The constructor adds a first rotation to an empty file and selects
        the file's first rotation. */
    constructor (file: RotationHelperFile)
      modifies file
      ensures this.file == file && selectedKeyCommand == null
      ensures |file.rotations| >= 1 && selectedRotation == file.rotations[0]
      ensures old(file.rotations) != [] ==> file.rotations == old(file.rotations)
      ensures old(file.rotations) == [] ==>
        |file.rotations| == 1 && fresh(file.rotations[0])
        && file.rotations[0].title == RotationTitle(0) && file.rotations[0].keyCommands == []
      ensures file.title == old(file.title)
    {
      this.file := file;
      selectedRotation := null;
      selectedKeyCommand := null;
      new;
      if |file.rotations| == 0 {
        AddRotationAction();
      }
      selectedRotation := file.rotations[0];
    }

    /** AddRotationAction: appends a new, empty rotation titled after the
        count before the append, and selects the first rotation only when
        nothing was selected. */
    method AddRotationAction()
      modifies file`rotations, this`selectedRotation
      ensures |file.rotations| == |old(file.rotations)| + 1
      ensures file.rotations[..|old(file.rotations)|] == old(file.rotations)
      ensures var r := file.rotations[|old(file.rotations)|];
        fresh(r) && r.title == RotationTitle(|old(file.rotations)|) && r.keyCommands == []
      ensures selectedRotation == if old(selectedRotation) == null then file.rotations[0] else old(selectedRotation)
    {
      var r := new Rotation(RotationTitle(|file.rotations|));
      file.rotations := file.rotations + [r];
      if selectedRotation == null {
        selectedRotation := file.rotations[0];
      }
    }

    /** AddKeyAction: without a selected rotation nothing happens; otherwise
        one new command is appended to it and its Key set to the first of
        the possible keys, VK_A. */
    method AddKeyAction()
      modifies selectedRotation
      ensures selectedRotation != null ==>
        && selectedRotation.title == old(selectedRotation.title)
        && |selectedRotation.keyCommands| == |old(selectedRotation.keyCommands)| + 1
        && selectedRotation.keyCommands[..|old(selectedRotation.keyCommands)|] == old(selectedRotation.keyCommands)
        && var k := selectedRotation.keyCommands[|old(selectedRotation.keyCommands)|];
           fresh(k) && k.Record() == KeyCommandRecord(0, 0, VK_A, None, "", false, 0, 0, 0)
    {
      if selectedRotation == null {
        return;
      }
      var k := new KeyCommand();
      selectedRotation.keyCommands := selectedRotation.keyCommands + [k];
      k.key := PossibleKeys[0];
    }

    /** RemoveKeyAction: without a selected command, or without a selected
        rotation, nothing happens; otherwise the first occurrence of the
        selected command (by reference) is removed from the selected
        rotation, if it is there at all.  The selections stay as they were. */
    method RemoveKeyAction()
      modifies selectedRotation
      ensures selectedRotation != null ==> selectedRotation.title == old(selectedRotation.title)
      ensures selectedKeyCommand != null && selectedRotation != null ==>
        selectedRotation.keyCommands == Remove(old(selectedRotation.keyCommands), selectedKeyCommand)
      ensures selectedKeyCommand == null && selectedRotation != null ==>
        selectedRotation.keyCommands == old(selectedRotation.keyCommands)
    {
      if selectedKeyCommand == null {
        return;
      }
      if selectedRotation != null {
        selectedRotation.keyCommands := Remove(selectedRotation.keyCommands, selectedKeyCommand);
      }
    }

    /** RemoveRotationAction: without a selection nothing happens; otherwise
        the selected rotation is removed from the file.  The selection is
        not reset, so it may name a rotation that is no longer in the file,
        and the file may be left with no rotation at all. */
    method RemoveRotationAction()
      modifies file`rotations
      ensures selectedRotation == null ==> file.rotations == old(file.rotations)
      ensures selectedRotation != null ==> file.rotations == Remove(old(file.rotations), selectedRotation)
    {
      if selectedRotation == null {
        return;
      }
      file.rotations := Remove(file.rotations, selectedRotation);
    }
  }

  /** Opening the editor on an empty file, removing the rotation it created
      and adding one again: the file ends with one rotation, titled like the
      first ("Rotation 1"), and the editor still selects the removed one. */
  method RemoveThenAddScenario() returns (titles: seq<string>, selectionInFile: bool)
    ensures titles == ["Rotation 1"]
    ensures !selectionInFile
  {
    var file := new RotationHelperFile();
    var vm := new EditRotationViewModel(file);
    var first := vm.selectedRotation;
    RemoveOne(file.rotations, first);
    vm.RemoveRotationAction();
    assert file.rotations == [];
    assert RotationTitle(0) == "Rotation 1";
    vm.AddRotationAction();
    titles := [file.rotations[0].title];
    selectionInFile := vm.selectedRotation in file.rotations;
  }
}
