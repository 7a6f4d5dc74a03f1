/**
 * The editing session of the Jellyfin `.strm` generator: a content type
 * chosen through a chain of dialogs, the list of file names the naming
 * scheme gives it, one text per name, the name being edited and the text
 * widget standing in as `editor`.  Each dialog callback is a method taking
 * what the user entered; `Next` says which dialog the interface shows after it.
 */
module Jellyfin {
  import opened Wrappers
  import opened Text
  import opened Collections
  import opened Naming
  import opened FileSystem

  /** `content_type`: `""` until the first dialog is confirmed. */
  datatype ContentType = Unset | Movie | Series

  /** What the interface does once a callback returns. */
  datatype Next =
    | Done                      // back to editing
    | ShowContentTypeDialog
    | ShowSeasonDialog
    | ShowEpisodeCountDialog
    | InvalidNumber             // "Enter a valid number"; the same dialog stays open

  /**
   * The number typed into the season or episode-count dialog: the entry is
   * stripped, an empty entry means 1, a value below 1 becomes 1, and text
   * `int()` rejects raises `ValueError` (`None`).
   */
  function ParseDialogNumber(entry: string): (r: Option<int>)
    ensures r.Some? ==> r.value >= 1
    ensures r.None? <==> !IsBlank(entry) && ParseInt(Strip(entry)).None?
    ensures IsBlank(entry) ==> r == Some(1)
  {
    var text := Strip(entry);
    if text == "" then Some(1)
    else match ParseInt(text)
      case None => None
      case Some(v) => Some(if v < 1 then 1 else v)
  }

  lemma StripDigits(s: string)
    requires |s| > 0 && AllDigits(s)
    ensures Strip(s) == s
  {
  }

  /**
   * Every entry `int()` accepts after stripping: whitespace, an optional sign,
   * digits, whitespace.  Its value is kept when it is at least 1 and
   * becomes 1 otherwise.
   */
  lemma ParseDialogNumberOfSpelling(w1: string, sign: string, d: string, w2: string)
    requires AllSpace(w1) && AllSpace(w2)
    requires sign == "" || sign == "+" || sign == "-"
    requires d != [] && AllDigits(d)
    ensures var v := if sign == "-" then 0 - DigitsValue(d) else DigitsValue(d);
      ParseDialogNumber(w1 + sign + d + w2) == Some(if v < 1 then 1 else v)
  {
    var t := sign + d;
    assert w1 + sign + d + w2 == w1 + t + w2;
    assert t[0] == if sign == "" then d[0] else sign[0];
    assert t[|t| - 1] == d[|d| - 1];
    StripPadded(w1, t, w2);
    ParseIntSigned(sign, d);
  }

  /** A positive number typed as plain digits is taken as it is. */
  lemma ParseDialogNumberOfDigits(n: nat)
    requires n >= 1
    ensures ParseDialogNumber(Digits(n)) == Some(n)
  {
    StripDigits(Digits(n));
    ParseDigits(n);
  }

  /** A positive number typed zero-padded is taken as it is. */
  lemma ParseDialogNumberOfPadded(n: nat)
    requires n >= 1
    ensures ParseDialogNumber(Pad2(n)) == Some(n)
  {
    StripDigits(Pad2(n));
    ParsePad2(n);
  }

  /** A minus sign before a run of digits reads as a number below 1, which is clamped to 1. */
  lemma ParseDialogNumberOfSignedDigits(d: string)
    requires d != [] && AllDigits(d)
    ensures ParseDialogNumber("-" + d) == Some(1)
  {
    var neg := "-" + d;
    assert neg[1..] == d && neg[0] == '-';
    assert IsDigit(neg[|neg| - 1]) by {
      assert neg[|neg| - 1] == d[|d| - 1];
    }
    StripUnpadded(neg);
    assert ParseInt(neg) == Some(0 - DigitsValue(d));
  }

  /** A negative number is clamped to 1. */
  lemma ParseDialogNumberClampsNegative(n: nat)
    ensures ParseDialogNumber("-" + Digits(n)) == Some(1)
  {
    ParseDialogNumberOfSignedDigits(Digits(n));
  }

  /** Zero is clamped to 1. */
  lemma ParseDialogNumberClampsZero()
    ensures ParseDialogNumber(Digits(0)) == Some(1)
  {
    StripDigits(Digits(0));
    ParseDigits(0);
  }

  /** `save_current_content` when something is being edited, otherwise nothing. */
  function Flushed(d: Dict, current: string, editor: string): (r: Dict)
    requires Wf(d)
    ensures Wf(r)
  {
    if current != "" then Store(d, current, editor) else d
  }

  /**
   * Flushing writes the editor text under the current name only: every other
   * entry and the key order are unchanged when the current name is a key.
   */
  lemma FlushedKeepsOthers(d: Dict, current: string, editor: string)
    requires Wf(d) && (current != "" ==> current in d.entries)
    ensures Flushed(d, current, editor).order == d.order
    ensures Flushed(d, current, editor).entries.Keys == d.entries.Keys
    ensures current != "" ==> Flushed(d, current, editor).entries[current] == editor
    ensures forall k :: k in d.entries && k != current ==> Flushed(d, current, editor).entries[k] == d.entries[k]
  {
  }

  /**
   * No edit is lost on a switch: with `a` current and holding the editor text
   * `t`, selecting `b` (flush, show `b`'s text) and then `a` again (flush,
   * show `a`'s text) shows `t`, and `b` keeps the text it had.
   */
  lemma SwitchAndBackShowsEdit(d: Dict, a: string, b: string, t: string)
    requires Wf(d) && a != "" && b != "" && a in d.entries && b in d.entries
    ensures var onB := Flushed(d, a, t);
            var shownB := Get(onB, b, "");
            var backOnA := Flushed(onB, b, shownB);
            && Get(backOnA, a, "") == t
            && backOnA.entries == d.entries[a := t]
  {
    var onB := Flushed(d, a, t);
    var shownB := Get(onB, b, "");
    if a != b {
      assert shownB == d.entries[b];
      assert d.entries[a := t][b := d.entries[b]] == d.entries[a := t];
    }
  }

  /** Flushing text that is already stored under the current name changes nothing. */
  lemma FlushedAfterSave(d: Dict, current: string, editor: string)
    requires Wf(d) && current in d.entries && d.entries[current] == editor
    ensures Flushed(d, current, editor) == d
  {
    if current != "" {
      StoreExisting(d, current, editor);
    }
  }

  /** Series names are distinct and none of them is empty. */
  lemma SeriesNamesNonEmpty(season: nat, count: nat)
    ensures NoDup(SeriesNames(season, count)) && "" !in SeriesNames(season, count)
  {
    SeriesNamesWellFormed(season, count);
  }

  /**
   * The dict `setup_movie` and `setup_series` leave once the first name is
   * selected: every name is a key in list order, the first holds the editor
   * text `e` and every other one is empty.
   */
  lemma FirstNameSelected(names: seq<string>, e: string)
    requires NoDup(names) && names != []
    ensures var d := Store(FromKeys(names, ""), names[0], e);
      && d.order == names
      && (forall f :: f in d.entries <==> f in names)
      && d.entries[names[0]] == e
      && (forall f :: f in names && f != names[0] ==> d.entries[f] == "")
  {
    var blank := FromKeys(names, "");
    assert names[0] in blank.entries;
  }

  class JellyfinSession {
    var currentFolder: string
    var contentType: ContentType
    var seasonNumber: int
    var files: seq<string>
    var fileContents: Dict
    var currentFile: string
    var editor: string
    /** The names of the buttons in the file list (`file_buttons`); a click selects that name. */
    var shown: seq<string>

    /**
     * What every callback keeps: names are unique and non-empty; the list is
     * the one the buttons show, or empty after a change of content type that
     * left the buttons in place; every key of the dict and the current name
     * (when there is one) are names some button shows.
     */
    ghost predicate Valid()
      reads this
    {
      && NoDup(files) && "" !in files
      && NoDup(shown) && "" !in shown
      && (files == shown || files == [])
      && Wf(fileContents)
      && (forall k :: k in fileContents.entries ==> k in shown)
      && (currentFile == "" || currentFile in shown)
      && seasonNumber >= 1
    }

    /**
     * The dict and the current name agree with the list: one entry per listed
     * name in list order, and the current name is listed, or empty exactly
     * when the list is.
     */
    ghost predicate Listed()
      reads this
    {
      && fileContents.order == files
      && (currentFile == "" <==> files == [])
      && (currentFile != "" ==> currentFile in files)
    }

    /**
     * The state `setup_movie` and `setup_series` leave: `names` listed and
     * shown, one entry each, the first one current and holding the editor
     * text `text` (the flush of the selection that follows), every other one
     * empty.
     */
    ghost predicate HoldsNewNames(names: seq<string>, text: string)
      reads this
    {
      && files == names
      && shown == names
      && fileContents.order == names
      && (forall f :: f in fileContents.entries <==> f in names)
      && editor == text
      && (names == [] ==> currentFile == "")
      && (names != [] ==> currentFile == names[0] && fileContents.entries[names[0]] == text)
      && (forall f :: f in names && f != names[0] ==> fileContents.entries[f] == "")
    }

    /**
     * The state after a folder was chosen at start-up, before any content type
     * (cancelling the folder choice ends the program instead).
     */
    constructor (folder: string)
      requires folder != ""
      ensures Valid() && Listed()
      ensures currentFolder == folder && contentType == Unset && seasonNumber == 1
      ensures files == [] && shown == [] && fileContents == Empty && currentFile == "" && editor == ""
    {
      currentFolder := folder;
      contentType := Unset;
      seasonNumber := 1;
      files := [];
      fileContents := Empty;
      currentFile := "";
      editor := "";
      shown := [];
    }

    /** `save_current_content`: the editor text goes under the current name, if there is one. */
    method SaveCurrentContent()
      requires Valid()
      modifies this`fileContents
      ensures Valid()
      ensures fileContents == Flushed(old(fileContents), currentFile, editor)
      ensures old(Listed()) ==> Listed()
    {
      if currentFile != "" {
        fileContents := Store(fileContents, currentFile, editor);
      }
    }

    /** A key released in the text widget: the widget holds `text`, and the binding saves it. */
    method EditText(text: string)
      requires Valid()
      modifies this`editor, this`fileContents
      ensures Valid()
      ensures editor == text
      ensures fileContents == Flushed(old(fileContents), currentFile, text)
      ensures old(Listed()) ==> Listed()
    {
      editor := text;
      SaveCurrentContent();
    }

    /**
     * `on_file_select(f)` from a button of the file list: flush the editor
     * into the current entry, then make `f` current and show its stored text
     * (`""` when it has none).  A button left over from an earlier list
     * selects a name the list no longer has.
     */
    method OnFileSelect(f: string)
      requires Valid() && f in shown
      modifies this`fileContents, this`currentFile, this`editor
      ensures Valid()
      ensures fileContents == Flushed(old(fileContents), old(currentFile), old(editor))
      ensures currentFile == f && editor == Get(fileContents, f, "")
      ensures old(Listed()) && f in files ==> Listed()
      ensures f !in files ==> !Listed()
    {
      SaveCurrentContent();
      currentFile := f;
      editor := Get(fileContents, f, "");
    }

    /**
     * `setup_movie`: the single name `movie.strm` with empty text, made current
     * and then selected, whose flush stores the editor text under it.
     */
    method SetupMovie()
      requires Valid()
      modifies this`files, this`fileContents, this`currentFile, this`editor, this`shown
      ensures Valid() && Listed()
      ensures HoldsNewNames([MovieName], old(editor))
    {
      InstallNames([MovieName]);
    }

    /**
     * What `setup_movie` and `setup_series` share: the list becomes `names`,
     * the dict maps each to `""`, the first name becomes current, the buttons
     * are rebuilt (`update_file_list`), and the first name is selected (so its
     * entry receives the editor text).
     */
    method InstallNames(names: seq<string>)
      requires Valid() && NoDup(names) && "" !in names
      modifies this`files, this`fileContents, this`currentFile, this`editor, this`shown
      ensures Valid() && Listed()
      ensures HoldsNewNames(names, old(editor))
    {
      var blank := FromKeys(names, "");
      assert blank.order == names;
      files := names;
      fileContents := blank;
      currentFile := if names != [] then names[0] else "";
      shown := names;
      if names != [] {
        ghost var e := editor;
        assert Valid() && Listed();
        OnFileSelect(names[0]);
        assert fileContents == Store(blank, names[0], e) && files == names && shown == names;
        FirstNameSelected(names, e);
      }
    }

    /**
     * `setup_series(count)`: the season's `count` episode names, set up as
     * above; no current name when `count` is 0.
     */
    method SetupSeries(count: nat)
      requires Valid()
      modifies this`files, this`fileContents, this`currentFile, this`editor, this`shown
      ensures Valid() && Listed()
      ensures HoldsNewNames(SeriesNames(seasonNumber as nat, count), old(editor))
    {
      var names := SeriesNames(seasonNumber as nat, count);
      SeriesNamesNonEmpty(seasonNumber as nat, count);
      InstallNames(names);
    }

    /** The content-type dialog confirmed: a movie is set up at once, a series asks for its season. */
    method ContentTypeOk(choice: ContentType) returns (next: Next)
      requires Valid()
      modifies this`contentType, this`files, this`fileContents, this`currentFile, this`editor, this`shown
      ensures Valid()
      ensures contentType == choice
      ensures choice == Movie ==> next == Done && Listed() && HoldsNewNames([MovieName], old(editor))
      ensures choice != Movie ==> next == ShowSeasonDialog && files == old(files) && fileContents == old(fileContents)
                                  && currentFile == old(currentFile) && editor == old(editor) && shown == old(shown)
    {
      contentType := choice;
      if choice == Movie {
        SetupMovie();
        next := Done;
      } else {
        next := ShowSeasonDialog;
      }
    }

    /** The season dialog confirmed with `entry`: a number moves on to the episode count, other text is refused. */
    method SeasonOk(entry: string) returns (next: Next)
      requires Valid()
      modifies this`seasonNumber
      ensures Valid()
      ensures ParseDialogNumber(entry).None? ==> next == InvalidNumber && seasonNumber == old(seasonNumber)
      ensures ParseDialogNumber(entry).Some? ==> next == ShowEpisodeCountDialog && seasonNumber == ParseDialogNumber(entry).value
    {
      match ParseDialogNumber(entry)
      case None =>
        next := InvalidNumber;
      case Some(season) =>
        seasonNumber := season;
        next := ShowEpisodeCountDialog;
    }

    /** The season dialog closed with its window button: season 1, and on to the episode count. */
    method SeasonDialogClosed() returns (next: Next)
      requires Valid()
      modifies this`seasonNumber
      ensures Valid()
      ensures seasonNumber == 1 && next == ShowEpisodeCountDialog
    {
      seasonNumber := 1;
      next := ShowEpisodeCountDialog;
    }

    /** The episode-count dialog confirmed with `entry`: a number sets the series up, other text is refused. */
    method EpisodeCountOk(entry: string) returns (next: Next)
      requires Valid()
      modifies this`files, this`fileContents, this`currentFile, this`editor, this`shown
      ensures Valid()
      ensures ParseDialogNumber(entry).None? ==>
                next == InvalidNumber && files == old(files) && fileContents == old(fileContents)
                && currentFile == old(currentFile) && editor == old(editor) && shown == old(shown)
      ensures ParseDialogNumber(entry).Some? ==>
                next == Done && Listed()
                && HoldsNewNames(SeriesNames(seasonNumber as nat, ParseDialogNumber(entry).value as nat), old(editor))
    {
      match ParseDialogNumber(entry)
      case None =>
        next := InvalidNumber;
      case Some(count) =>
        SetupSeries(count as nat);
        next := Done;
    }

    /** The episode-count dialog closed with its window button: a series of one episode. */
    method EpisodeCountDialogClosed() returns (next: Next)
      requires Valid()
      modifies this`files, this`fileContents, this`currentFile, this`editor, this`shown
      ensures Valid() && Listed()
      ensures next == Done && HoldsNewNames(SeriesNames(seasonNumber as nat, 1), old(editor))
    {
      SetupSeries(1);
      next := Done;
    }

    /** Empties the list, the dict, the current name and the text widget; the buttons stay. */
    method ClearSession()
      requires Valid()
      modifies this`files, this`fileContents, this`currentFile, this`editor
      ensures Valid() && Listed()
      ensures files == [] && fileContents == Empty && currentFile == "" && editor == ""
    {
      files := [];
      fileContents := Empty;
      currentFile := "";
      editor := "";
    }

    /**
     * `change_content_type`: once confirmed, the list, the dict, the current
     * name and the text are discarded and the content-type dialog opens;
     * declined, nothing changes.  The buttons of the old list are neither
     * destroyed nor rebuilt, so they still select their names.
     */
    method ChangeContentType(confirmed: bool) returns (next: Next)
      requires Valid()
      modifies this`files, this`fileContents, this`currentFile, this`editor
      ensures Valid()
      ensures confirmed ==> next == ShowContentTypeDialog && Listed()
                            && files == [] && fileContents == Empty && currentFile == "" && editor == ""
                            && shown == old(shown)
      ensures !confirmed ==> next == Done && files == old(files) && fileContents == old(fileContents)
                             && currentFile == old(currentFile) && editor == old(editor)
    {
      if confirmed {
        ClearSession();
        next := ShowContentTypeDialog;
      } else {
        next := Done;
      }
    }

    /**
     * The change of content type with the old buttons removed as `reset_app`
     * removes them: no button is left, so the list, the buttons, the dict and
     * the current name agree again.
     */
    method ChangeContentTypeClearingList(confirmed: bool) returns (next: Next)
      requires Valid()
      modifies this`files, this`fileContents, this`currentFile, this`editor, this`shown
      ensures Valid()
      ensures confirmed ==> next == ShowContentTypeDialog && Listed() && shown == files
                            && files == [] && fileContents == Empty && currentFile == "" && editor == ""
      ensures !confirmed ==> next == Done && files == old(files) && fileContents == old(fileContents)
                             && currentFile == old(currentFile) && editor == old(editor) && shown == old(shown)
    {
      if confirmed {
        ClearSession();
        shown := [];
        next := ShowContentTypeDialog;
      } else {
        next := Done;
      }
    }

    /** `reset_app`: the same confirmation gate and cleared session, and the buttons are destroyed. */
    method ResetApp(confirmed: bool) returns (next: Next)
      requires Valid()
      modifies this`files, this`fileContents, this`currentFile, this`editor, this`shown
      ensures Valid()
      ensures confirmed ==> next == ShowContentTypeDialog && Listed() && shown == []
                            && files == [] && fileContents == Empty && currentFile == "" && editor == ""
      ensures !confirmed ==> next == Done && files == old(files) && fileContents == old(fileContents)
                             && currentFile == old(currentFile) && editor == old(editor) && shown == old(shown)
    {
      if confirmed {
        ClearSession();
        shown := [];
        next := ShowContentTypeDialog;
      } else {
        next := Done;
      }
    }

    /** `change_folder`: a chosen folder replaces the old one; a cancelled picker (`""`) changes nothing. */
    method ChangeFolder(chosen: string)
      requires Valid()
      modifies this`currentFolder
      ensures Valid()
      ensures currentFolder == if chosen != "" then chosen else old(currentFolder)
    {
      if chosen != "" {
        currentFolder := chosen;
      }
    }

    /**
     * `generate_strm_files`: flush, create the folder, warn about blank
     * entries (`proceed` is the answer), then for every entry in dict order
     * compute the progress ratio over `len(files)` and write it; success
     * reports `len(files)`.
     */
    method GenerateStrmFiles(disk: Disk, proceed: bool, faults: Faults) returns (outcome: BatchOutcome, disk': Disk)
      requires Valid()
      modifies this`fileContents
      ensures Valid()
      ensures fileContents == Flushed(old(fileContents), currentFile, editor)
      ensures (outcome, disk') == Batch(disk, currentFolder, Items(fileContents), true, proceed, true, |files|, faults)
      ensures old(Listed()) ==> Listed()
    {
      SaveCurrentContent();
      var ready := EnsureFolder(disk, currentFolder, faults.mkdirFails);
      if ready.None? {
        return FolderError, disk;
      }
      var items := Items(fileContents);
      var blank := BlankNames(items);
      if blank != [] && !proceed {
        return Cancelled(blank), ready.value;
      }
      if |files| == 0 && items != [] {
        return ProgressError, ready.value;
      }
      var written;
      disk', written := WriteEntries(ready.value, currentFolder, items, faults.failAt);
      assert items[..|items|] == items;
      outcome := if written < |items| then WriteError(written) else Generated(|files|);
    }
  }

  /**
   * When the dict and the list agree, a successful batch writes one file per
   * listed name, holding that name's text, and touches no other path.
   */
  lemma GeneratedWritesSession(s: JellyfinSession, disk: Disk, proceed: bool, faults: Faults)
    requires s.Valid() && s.Listed()
    ensures var r := Batch(disk, s.currentFolder, Items(s.fileContents), true, proceed, true, |s.files|, faults);
      r.0.Generated? ==>
        && r.0.reported == |s.files| == |s.fileContents.entries|
        && (forall f :: f in s.files ==> (s.currentFolder, f) in r.1.files && r.1.files[(s.currentFolder, f)] == s.fileContents.entries[f])
        && (forall p: (string, string) :: p.0 != s.currentFolder || p.1 !in s.files ==> Untouched(disk.files, r.1.files, p))
  {
    var items := Items(s.fileContents);
    var r := Batch(disk, s.currentFolder, items, true, proceed, true, |s.files|, faults);
    if r.0.Generated? {
      NamesOfItems(s.fileContents);
      BatchGenerated(disk, s.currentFolder, items, true, proceed, true, |s.files|, faults);
      EntryCountIsFileCount(s);
      forall f | f in s.files
        ensures (s.currentFolder, f) in r.1.files && r.1.files[(s.currentFolder, f)] == s.fileContents.entries[f]
      {
        var i :| 0 <= i < |s.files| && s.files[i] == f;
        assert items[i] == (f, s.fileContents.entries[f]);
      }
    }
  }

  /** When the dict and the list agree, the dict has exactly one entry per listed name. */
  lemma EntryCountIsFileCount(s: JellyfinSession)
    requires s.Valid() && s.Listed()
    ensures |s.fileContents.entries| == |s.files|
  {
    assert s.fileContents.entries.Keys == set f | f in s.files;
    DistinctCardinality(s.files);
  }

  /**
   * With an empty list but a dict that is not (a left-over button was
   * clicked), generating never writes a file: it stops at the folder, at the
   * declined warning, or at the division by zero in the progress ratio.
   */
  lemma EmptyListWritesNothing(s: JellyfinSession, disk: Disk, proceed: bool, faults: Faults)
    requires s.Valid() && s.files == [] && s.fileContents.order != []
    ensures var r := Batch(disk, s.currentFolder, Items(s.fileContents), true, proceed, true, |s.files|, faults);
      && (r.0.FolderError? || r.0.Cancelled? || r.0.ProgressError?)
      && r.1.files == disk.files
  {
    var items := Items(s.fileContents);
    assert items != [];
  }
}
