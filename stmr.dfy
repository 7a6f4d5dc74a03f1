/**
 * The editing session of the free-form `.stmr` creator: a list of names the
 * user adds and deletes, one text per name, the name being edited and the
 * text widget standing in as `editor`.  The list box mirrors `files`, so a
 * selection is an index into `files` (or none).
 */
module Stmr {
  import opened Wrappers
  import opened Text
  import opened Collections
  import opened FileSystem

  const Untitled: string := "untitled.stmr"
  const Extension: string := ".stmr"

  /** The name `new_file` keeps: `.stmr` appended unless the name already ends with it, in any letter case. */
  function WithExtension(name: string): (r: string)
    ensures EndsWith(Lower(r), Extension)
    ensures r == name <==> EndsWith(Lower(name), Extension)
    ensures r != name ==> r == name + Extension
  {
    if EndsWith(Lower(name), Extension) then name else name + Extension
  }

  /** Applying the extension rule to a name it produced changes nothing. */
  lemma WithExtensionIdempotent(name: string)
    ensures WithExtension(WithExtension(name)) == WithExtension(name)
  {
  }

  /** What `new_file` ends with. */
  datatype NewFileResult = NewFileCancelled | AlreadyExists(name: string) | Created(name: string)

  /** What `delete_file` ends with. */
  datatype DeleteResult = NoSelection | LastFile | Declined | Deleted(name: string)

  class StmrFileCreator {
    var currentFolder: string
    var currentFile: string
    var files: seq<string>
    var fileContents: Dict
    var editor: string

    /**
     * What holds of the list at all times: unique names, never empty, and
     * every listed name has an entry in the dict.
     */
    ghost predicate ListValid()
      reads this
    {
      && NoDup(files) && |files| >= 1
      && Wf(fileContents)
      && (forall f :: f in files ==> f in fileContents.entries)
    }

    /** The session invariant: the list invariant, and the current name is listed. */
    ghost predicate Valid()
      reads this
    {
      ListValid() && currentFile in files
    }

    /** The dict has no entry for a name that is not listed. */
    ghost predicate KeysMatchFiles()
      reads this
    {
      forall k :: k in fileContents.entries ==> k in files
    }

    /**
     * The start-up state: one empty `untitled.stmr`, current.  `firstChoice`
     * is the first folder-picker answer: when it is cancelled, whatever a
     * retry picks is overwritten by that first empty answer.
     */
    constructor (firstChoice: string)
      ensures Valid() && KeysMatchFiles()
      ensures currentFolder == firstChoice
      ensures files == [Untitled] && currentFile == Untitled && editor == ""
      ensures fileContents == Dict([Untitled], map[Untitled := ""])
    {
      currentFolder := firstChoice;
      currentFile := Untitled;
      files := [Untitled];
      fileContents := Dict([Untitled], map[Untitled := ""]);
      editor := "";
    }

    /** `change_folder`: a chosen folder replaces the old one; a cancelled picker (`""`) changes nothing. */
    method ChangeFolder(chosen: string)
      requires Valid()
      modifies this`currentFolder
      ensures Valid()
      ensures currentFolder == if chosen != "" then chosen else old(currentFolder)
    {
      if chosen != "" {
        currentFolder := chosen;
      }
    }

    /** `save_current_content`: the editor text goes under the current name, always. */
    method SaveCurrentContent()
      requires ListValid()
      modifies this`fileContents
      ensures ListValid()
      ensures fileContents == Store(old(fileContents), currentFile, editor)
      ensures old(KeysMatchFiles()) && currentFile in files ==> KeysMatchFiles()
    {
      fileContents := Store(fileContents, currentFile, editor);
    }

    /** A key released in the text widget: the widget holds `text`, and the binding saves it. */
    method EditText(text: string)
      requires Valid()
      modifies this`editor, this`fileContents
      ensures Valid()
      ensures editor == text
      ensures fileContents == Store(old(fileContents), currentFile, text)
      ensures old(KeysMatchFiles()) ==> KeysMatchFiles()
    {
      editor := text;
      SaveCurrentContent();
    }

    /**
     * `on_file_select`: flush the editor under the current name, then, if a
     * row is selected, make its name current and show its stored text.
     */
    method OnFileSelect(selection: Option<nat>)
      requires ListValid()
      requires selection.Some? ==> selection.value < |files|
      requires selection.None? ==> currentFile in files
      modifies this`fileContents, this`currentFile, this`editor
      ensures Valid()
      ensures fileContents == Store(old(fileContents), old(currentFile), old(editor))
      ensures selection.None? ==> currentFile == old(currentFile) && editor == old(editor)
      ensures selection.Some? ==> currentFile == files[selection.value] && editor == Get(fileContents, currentFile, "")
      ensures old(KeysMatchFiles()) && old(currentFile) in files ==> KeysMatchFiles()
    {
      SaveCurrentContent();
      if selection.Some? {
        var selected := files[selection.value];
        currentFile := selected;
        editor := Get(fileContents, selected, "");
      }
    }

    /**
     * `new_file` with the dialog's answer (`None` when cancelled): an empty
     * answer does nothing, a name already listed (after the extension rule,
     * compared exactly) only warns, otherwise the name is appended with empty
     * text and selected.
     */
    method NewFile(answer: Option<string>) returns (result: NewFileResult)
      requires Valid()
      modifies this`files, this`fileContents, this`currentFile, this`editor
      ensures Valid()
      ensures answer.None? || answer.value == "" ==> result == NewFileCancelled && unchanged(this)
      ensures answer.Some? && answer.value != "" && WithExtension(answer.value) in old(files) ==>
                result == AlreadyExists(WithExtension(answer.value)) && unchanged(this)
      ensures answer.Some? && answer.value != "" && WithExtension(answer.value) !in old(files) ==>
                var name := WithExtension(answer.value);
                && result == Created(name)
                && files == old(files) + [name]
                && fileContents == Store(Store(old(fileContents), name, ""), old(currentFile), old(editor))
                && currentFile == name && editor == ""
      ensures old(KeysMatchFiles()) ==> KeysMatchFiles()
    {
      if answer.None? || answer.value == "" {
        return NewFileCancelled;
      }
      var name := WithExtension(answer.value);
      if name in files {
        return AlreadyExists(name);
      }
      files := files + [name];
      fileContents := Store(fileContents, name, "");
      // the list box selects `files.index(name)`, the last row
      OnFileSelect(Some(|files| - 1));
      result := Created(name);
    }

    /**
     * `delete_file` with the list box selection and the answer to the
     * confirmation: no selection or a single file only warn, a declined
     * confirmation does nothing; otherwise the name leaves the list and the
     * dict and row 0 is selected, whose flush stores the editor text under
     * the name that was current, even when that is the deleted one.
     */
    method DeleteFile(selection: Option<nat>, confirmed: bool) returns (result: DeleteResult)
      requires Valid()
      requires selection.Some? ==> selection.value < |files|
      modifies this`files, this`fileContents, this`currentFile, this`editor
      ensures Valid()
      ensures selection.None? ==> result == NoSelection && unchanged(this)
      ensures selection.Some? && |old(files)| <= 1 ==> result == LastFile && unchanged(this)
      ensures selection.Some? && |old(files)| > 1 && !confirmed ==> result == Declined && unchanged(this)
      ensures selection.Some? && |old(files)| > 1 && confirmed ==>
                var name := old(files)[selection.value];
                && result == Deleted(name)
                && name in old(fileContents.entries)
                && files == RemoveFirst(old(files), name) == old(files)[..selection.value] + old(files)[selection.value + 1..]
                && fileContents == Store(Remove(old(fileContents), name), old(currentFile), old(editor))
                && currentFile == files[0] && editor == Get(fileContents, files[0], "")
      ensures result.Deleted? && result.name == old(currentFile) ==>
                result.name !in files && result.name in fileContents.entries && !KeysMatchFiles()
      ensures result.Deleted? && result.name != old(currentFile) && old(KeysMatchFiles()) ==> KeysMatchFiles()
    {
      if selection.None? {
        return NoSelection;
      }
      var name := files[selection.value];
      if |files| <= 1 {
        return LastFile;
      }
      if !confirmed {
        return Declined;
      }
      ghost var rest := files[..selection.value] + files[selection.value + 1..];
      RemoveFirstFromUnique(files, name);
      RemoveFirstOrder(files, selection.value);
      files := RemoveFirst(files, name);
      assert files == rest;
      fileContents := Remove(fileContents, name);
      OnFileSelect(Some(0));
      result := Deleted(name);
    }

    /**
     * `delete_file` with the text of a deleted current file discarded
     * instead of flushed back, so the dict keeps naming exactly the listed
     * files.
     */
    method DeleteFileDiscardingBuffer(selection: Option<nat>, confirmed: bool) returns (result: DeleteResult)
      requires Valid()
      requires selection.Some? ==> selection.value < |files|
      modifies this`files, this`fileContents, this`currentFile, this`editor
      ensures Valid()
      ensures selection.None? ==> result == NoSelection && unchanged(this)
      ensures selection.Some? && |old(files)| <= 1 ==> result == LastFile && unchanged(this)
      ensures selection.Some? && |old(files)| > 1 && !confirmed ==> result == Declined && unchanged(this)
      ensures selection.Some? && |old(files)| > 1 && confirmed ==>
                var name := old(files)[selection.value];
                && result == Deleted(name)
                && files == RemoveFirst(old(files), name) == old(files)[..selection.value] + old(files)[selection.value + 1..]
                && name !in fileContents.entries
                && fileContents ==
                     (if name == old(currentFile) then Remove(old(fileContents), name)
                      else Store(Remove(old(fileContents), name), old(currentFile), old(editor)))
                && currentFile == files[0] && editor == Get(fileContents, files[0], "")
      ensures old(KeysMatchFiles()) ==> KeysMatchFiles()
    {
      if selection.None? {
        return NoSelection;
      }
      var name := files[selection.value];
      if |files| <= 1 {
        return LastFile;
      }
      if !confirmed {
        return Declined;
      }
      ghost var rest := files[..selection.value] + files[selection.value + 1..];
      RemoveFirstFromUnique(files, name);
      RemoveFirstOrder(files, selection.value);
      files := RemoveFirst(files, name);
      assert files == rest;
      fileContents := Remove(fileContents, name);
      if currentFile == name {
        currentFile := files[0];
        editor := Get(fileContents, files[0], "");
      } else {
        OnFileSelect(Some(0));
      }
      result := Deleted(name);
    }

    /**
     * `generate_stmr_files`: flush, create the folder, write every dict
     * entry in insertion order with no blank check, and report `len(files)`.
     */
    method GenerateStmrFiles(disk: Disk, faults: Faults) returns (outcome: BatchOutcome, disk': Disk)
      requires Valid()
      modifies this`fileContents
      ensures Valid()
      ensures fileContents == Store(old(fileContents), currentFile, editor)
      ensures (outcome, disk') == Batch(disk, currentFolder, Items(fileContents), false, true, false, |files|, faults)
      ensures old(KeysMatchFiles()) ==> KeysMatchFiles()
    {
      SaveCurrentContent();
      var ready := EnsureFolder(disk, currentFolder, faults.mkdirFails);
      if ready.None? {
        return FolderError, disk;
      }
      var items := Items(fileContents);
      var written;
      disk', written := WriteEntries(ready.value, currentFolder, items, faults.failAt);
      assert items[..|items|] == items;
      outcome := if written < |items| then WriteError(written) else Generated(|files|);
    }
  }

  /**
   * The count a successful batch reports, `len(files)`, is the number of
   * files it writes, `len(file_contents)`, exactly when the dict names no
   * unlisted file.
   */
  lemma ReportedCountIsWrittenCount(s: StmrFileCreator)
    requires s.ListValid()
    ensures |s.files| == |s.fileContents.entries| <==> s.KeysMatchFiles()
  {
    var listed := set f | f in s.files;
    var keys := s.fileContents.entries.Keys;
    assert listed <= keys;
    assert |s.fileContents.entries| == |keys|;
    DistinctCardinality(s.files);
    if !s.KeysMatchFiles() {
      var k :| k in s.fileContents.entries && k !in s.files;
      assert keys == listed + (keys - listed);
      assert k in keys - listed;
      assert |keys| == |listed| + |keys - listed|;
    } else {
      assert listed == keys;
    }
  }

  /**
   * Every listed file is written by a successful batch with its text; a dict
   * entry for an unlisted name is written too.
   */
  lemma GeneratedWritesEveryEntry(s: StmrFileCreator, disk: Disk, faults: Faults)
    requires s.ListValid()
    ensures var r := Batch(disk, s.currentFolder, Items(s.fileContents), false, true, false, |s.files|, faults);
      r.0.Generated? ==>
        && r.0.reported == |s.files|
        && forall k :: k in s.fileContents.entries ==>
             (s.currentFolder, k) in r.1.files && r.1.files[(s.currentFolder, k)] == s.fileContents.entries[k]
  {
    var items := Items(s.fileContents);
    NamesOfItems(s.fileContents);
    BatchGenerated(disk, s.currentFolder, items, false, true, false, |s.files|, faults);
    forall k | k in s.fileContents.entries
      ensures exists i :: 0 <= i < |items| && items[i].0 == k
    {
      var i :| 0 <= i < |s.fileContents.order| && s.fileContents.order[i] == k;
      assert items[i].0 == k;
    }
  }
}
