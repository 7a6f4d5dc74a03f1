/**
 * Whole sessions driven through the two apps' callbacks, in the order a user
 * would click, each ending in what the user sees or what lands on disk.
 */
module Scenarios {
  import opened Wrappers
  import opened Text
  import opened Collections
  import opened Naming
  import opened FileSystem
  import Jellyfin
  import Stmr

  /** The three names of a three-episode second season, padded to two digits. */
  lemma SeasonTwoNames()
    ensures SeriesNames(2, 3) == ["S02E01.strm", "S02E02.strm", "S02E03.strm"]
  {
    SmallEpisodeName(2, 1);
    SmallEpisodeName(2, 2);
    SmallEpisodeName(2, 3);
    assert DigitChar(1) == '1' && DigitChar(2) == '2' && DigitChar(3) == '3';
    assert EpisodeName(2, 1) == "S02E01.strm";
    assert EpisodeName(2, 2) == "S02E02.strm";
    assert EpisodeName(2, 3) == "S02E03.strm";
    assert SeriesNames(2, 3) == [EpisodeName(2, 1), EpisodeName(2, 2), EpisodeName(2, 3)];
  }

  /** A one-digit season and episode are each padded with one zero. */
  lemma SmallEpisodeName(season: nat, episode: nat)
    requires season < 10 && episode < 10
    ensures EpisodeName(season, episode) == ['S', '0', DigitChar(season), 'E', '0', DigitChar(episode)] + Extension
  {
  }

  const SeasonTwo: seq<string> := ["S02E01.strm", "S02E02.strm", "S02E03.strm"]

  /**
   * Series, season "2", "3" episodes, one non-blank text per episode typed
   * while it is selected: the batch asks nothing, reports 3 and writes each
   * text under its episode name.
   */
  method SeriesSession(t1: string, t2: string, t3: string) returns (outcome: BatchOutcome, disk: Disk)
    requires !IsBlank(t1) && !IsBlank(t2) && !IsBlank(t3)
    ensures outcome == Generated(3)
    ensures ("shows", "S02E01.strm") in disk.files && disk.files[("shows", "S02E01.strm")] == t1
    ensures ("shows", "S02E02.strm") in disk.files && disk.files[("shows", "S02E02.strm")] == t2
    ensures ("shows", "S02E03.strm") in disk.files && disk.files[("shows", "S02E03.strm")] == t3
  {
    var s := StartSeasonTwo();
    TypeThree(s, t1, t2, t3);
    assert s.currentFolder == "shows";
    var names := s.files;
    var items := [(names[0], t1), (names[1], t2), (names[2], t3)];
    ghost var typed := s.fileContents;
    assert Items(typed) == items;
    Jellyfin.FlushedAfterSave(typed, s.currentFile, s.editor);
    outcome, disk := s.GenerateStrmFiles(Disk({}, map[]), false, Faults(false, 3));
    assert s.currentFolder == "shows";
    assert s.fileContents == typed;
    assert Items(s.fileContents) == items && |s.files| == 3 && s.currentFolder == "shows";
    ghost var r := Batch(Disk({}, map[]), "shows", items, true, false, true, 3, Faults(false, 3));
    assert outcome == r.0 && disk == r.1;
    ThreeFileBatch("shows", names[0], names[1], names[2], t1, t2, t3);
    assert names == SeasonTwo;
  }

  /**
   * The batch over three distinct names with non-blank texts on an empty
   * disk, blank checking on, `proceed` false: it reports 3 and writes each text.
   */
  lemma ThreeFileBatch(folder: string, a: string, b: string, c: string, t1: string, t2: string, t3: string)
    requires folder != "" && a != b && b != c && a != c
    requires !IsBlank(t1) && !IsBlank(t2) && !IsBlank(t3)
    ensures var r := Batch(Disk({}, map[]), folder, [(a, t1), (b, t2), (c, t3)], true, false, true, 3, Faults(false, 3));
      && r.0 == Generated(3)
      && (folder, a) in r.1.files && r.1.files[(folder, a)] == t1
      && (folder, b) in r.1.files && r.1.files[(folder, b)] == t2
      && (folder, c) in r.1.files && r.1.files[(folder, c)] == t3
  {
    var items := [(a, t1), (b, t2), (c, t3)];
    var d := Disk({}, map[]);
    var faults := Faults(false, 3);
    var r := Batch(d, folder, items, true, false, true, 3, faults);
    assert !r.0.FolderError? by {
      BatchFolderError(d, folder, items, true, false, true, 3, faults);
    }
    assert !r.0.Cancelled? by {
      BatchCancelled(d, folder, items, true, false, true, 3, faults);
      forall i | 0 <= i < |items| ensures !IsBlank(items[i].1) {
        assert i == 0 || i == 1 || i == 2;
      }
    }
    assert NoDup(Names(items)) by {
      var ns := Names(items);
      assert |ns| == 3 && ns[0] == a && ns[1] == b && ns[2] == c;
      forall i, j | 0 <= i < j < 3 ensures ns[i] != ns[j] {
      }
    }
    BatchGenerated(d, folder, items, true, false, true, 3, faults);
    assert items[0].0 == a && items[1].0 == b && items[2].0 == c;
  }

  /** A new session in folder "shows": Series, season "2", "3" episodes. */
  method StartSeasonTwo() returns (s: Jellyfin.JellyfinSession)
    ensures fresh(s) && s.Valid() && s.currentFolder == "shows"
    ensures s.HoldsNewNames(SeasonTwo, "")
  {
    s := new Jellyfin.JellyfinSession("shows");
    var next := s.ContentTypeOk(Jellyfin.Series);
    assert s.currentFolder == "shows";
    ParseDialogNumberOfDigits2();
    next := s.SeasonOk("2");
    assert s.currentFolder == "shows";
    ParseDialogNumberOfDigits3();
    next := s.EpisodeCountOk("3");
    assert s.currentFolder == "shows";
    SeasonTwoNames();
  }

  /** Types `t1`, `t2`, `t3` into a three-name session, selecting each name in turn. */
  method TypeThree(s: Jellyfin.JellyfinSession, t1: string, t2: string, t3: string)
    requires s.Valid() && |s.files| == 3 && s.HoldsNewNames(s.files, "")
    modifies s`fileContents, s`currentFile, s`editor
    ensures s.Valid() && s.files == old(s.files)
    ensures s.fileContents == Dict(s.files, map[s.files[0] := t1, s.files[1] := t2, s.files[2] := t3])
    ensures s.currentFile == s.files[2] && s.editor == t3
  {
    var a, b, c := s.files[0], s.files[1], s.files[2];
    assert s.fileContents.entries == map[a := "", b := "", c := ""];
    SelectAndType(s, a, t1);
    SelectAndType(s, b, t2);
    SelectAndType(s, c, t3);
    assert s.fileContents.entries == map[a := t1, b := t2, c := t3];
  }

  /** Clicks the button of listed name `f` and types `t`: the text that was current is flushed first. */
  method SelectAndType(s: Jellyfin.JellyfinSession, f: string, t: string)
    requires s.Valid() && s.Listed() && f in s.files && s.shown == s.files
    modifies s`fileContents, s`currentFile, s`editor
    ensures s.Valid() && s.Listed() && s.currentFile == f && s.editor == t
    ensures s.fileContents.order == old(s.fileContents.order)
    ensures s.fileContents.entries == old(s.fileContents.entries)[old(s.currentFile) := old(s.editor)][f := t]
  {
    assert s.currentFile in s.fileContents.entries;
    s.OnFileSelect(f);
    s.EditText(t);
  }

  lemma ParseDialogNumberOfDigits2()
    ensures Jellyfin.ParseDialogNumber("2") == Some(2)
  {
    Jellyfin.ParseDialogNumberOfDigits(2);
    assert Digits(2) == "2";
  }

  lemma ParseDialogNumberOfDigits3()
    ensures Jellyfin.ParseDialogNumber("3") == Some(3)
  {
    Jellyfin.ParseDialogNumberOfDigits(3);
    assert Digits(3) == "3";
  }

  /**
   * Movie in folder "films" with nothing typed: the first batch warns that
   * `movie.strm` is empty and, declined, writes nothing; the second,
   * confirmed, writes the empty `movie.strm`.
   */
  method MovieSession() returns (declined: BatchOutcome, afterDecline: Disk, outcome: BatchOutcome, disk: Disk)
    ensures declined == Cancelled([MovieName]) && afterDecline.files == map[]
    ensures outcome == Generated(1) && disk.files == map[("films", MovieName) := ""]
  {
    var s := new Jellyfin.JellyfinSession("films");
    var next := s.ContentTypeOk(Jellyfin.Movie);
    assert s.currentFolder == "films";
    var items := [(MovieName, "")];
    assert Items(s.fileContents) == items;
    Jellyfin.FlushedAfterSave(s.fileContents, s.currentFile, s.editor);
    declined, afterDecline := s.GenerateStrmFiles(Disk({}, map[]), false, Faults(false, 1));
    assert s.currentFolder == "films" && Items(s.fileContents) == items;
    OneBlankFileBatch(Disk({}, map[]), "films", MovieName, false);
    OneBlankFileBatch(afterDecline, "films", MovieName, true);
    Jellyfin.FlushedAfterSave(s.fileContents, s.currentFile, s.editor);
    outcome, disk := s.GenerateStrmFiles(afterDecline, true, Faults(false, 1));
    assert s.currentFolder == "films" && Items(s.fileContents) == items;
  }

  /** The batch over one empty file on a disk without files, declined and confirmed. */
  lemma OneBlankFileBatch(d: Disk, folder: string, name: string, proceed: bool)
    requires d.files == map[] && folder != ""
    ensures var r := Batch(d, folder, [(name, "")], true, proceed, true, 1, Faults(false, 1));
      && (!proceed ==> r.0 == Cancelled([name]) && r.1.files == map[])
      && (proceed ==> r.0 == Generated(1) && r.1.files == map[(folder, name) := ""])
  {
    var ready := EnsureFolder(d, folder, false).value;
    assert BlankNames([(name, "")]) == [name] by {
      assert IsBlank("") && [(name, "")][1..] == [];
    }
    if proceed {
      OneFileWritten(ready, folder, name, "");
    }
  }

  /** Writing one file onto a disk without files leaves exactly that file. */
  lemma OneFileWritten(d: Disk, folder: string, name: string, text: string)
    requires d.files == map[]
    ensures Written(d, folder, [(name, text)]).files == map[(folder, name) := text]
  {
    assert [(name, text)][..0] == [];
  }

  /**
   * The `.stmr` creator: add `b`, which becomes current, delete it while
   * current, generate.  The flush during the delete puts `b.stmr` back into
   * the dict, so it is written although it is no longer listed, and the
   * batch reports one file.
   */
  method StmrDeleteCurrentAsWritten() returns (outcome: BatchOutcome, orphanWritten: bool, listed: bool)
    ensures outcome == Generated(1) && orphanWritten && !listed
  {
    var s := DeleteCurrentB();
    var items := [(Stmr.Untitled, ""), ("b.stmr", "")];
    assert Items(s.fileContents) == items;
    StoreExisting(s.fileContents, s.currentFile, s.editor);
    var disk;
    outcome, disk := s.GenerateStmrFiles(Disk({}, map[]), Faults(false, 2));
    assert s.currentFolder == "out" && Items(s.fileContents) == items && |s.files| == 1;
    assert NoDup(Names(items)) by {
      assert Names(items) == [Stmr.Untitled, "b.stmr"];
    }
    BatchGenerated(Disk({}, map[]), "out", items, false, true, false, 1, Faults(false, 2));
    assert items[1].0 == "b.stmr";
    orphanWritten := ("out", "b.stmr") in disk.files;
    listed := "b.stmr" in s.files;
  }

  /** The same steps with the deletion that discards the deleted file's text: nothing unlisted is written. */
  method StmrDeleteCurrentCorrected() returns (outcome: BatchOutcome, orphanWritten: bool, listed: bool)
    ensures outcome == Generated(1) && !orphanWritten && !listed
  {
    var s := AddB();
    var deleted := s.DeleteFileDiscardingBuffer(Some(1), true);
    assert RemoveFirst([Stmr.Untitled, "b.stmr"], "b.stmr") == [Stmr.Untitled];
    assert s.files == [Stmr.Untitled] && s.currentFile == Stmr.Untitled;
    ghost var kept := Dict([Stmr.Untitled], map[Stmr.Untitled := ""]);
    assert s.fileContents == kept;
    var items := [(Stmr.Untitled, "")];
    assert Items(s.fileContents) == items;
    StoreExisting(s.fileContents, s.currentFile, s.editor);
    var disk;
    outcome, disk := s.GenerateStmrFiles(Disk({}, map[]), Faults(false, 2));
    assert s.currentFolder == "out" && s.fileContents == kept && |s.files| == 1;
    assert Names(items) == [Stmr.Untitled];
    BatchGenerated(Disk({}, map[]), "out", items, false, true, false, 1, Faults(false, 2));
    assert Untouched(map[], disk.files, ("out", "b.stmr"));
    orphanWritten := ("out", "b.stmr") in disk.files;
    listed := "b.stmr" in s.files;
  }

  /**
   * The Jellyfin generator: a one-episode series in folder "shows", then
   * "Change type" confirmed and the content-type dialog closed with its
   * window button, which changes nothing.  The button of the old episode is
   * still in the file list: clicking it and typing `x` puts an entry the
   * empty list does not have into the dict, and generating divides by the
   * list's length of 0 before the first write, so nothing is written.
   */
  method JellyfinStaleButtonAsWritten() returns (outcome: BatchOutcome, disk: Disk, kept: bool, listed: bool)
    ensures outcome == ProgressError && disk.files == map[]
    ensures kept && !listed
  {
    var s, name := StaleButtonTyped();
    kept := name in s.fileContents.entries;
    listed := name in s.files;
    assert !IsBlank("x") by {
      StripUnpadded("x");
    }
    UnlistedEntryBatch(Disk({}, map[]), "shows", name, "x");
    ghost var items := Items(s.fileContents);
    assert items == [(name, "x")];
    Jellyfin.FlushedAfterSave(s.fileContents, s.currentFile, s.editor);
    outcome, disk := s.GenerateStrmFiles(Disk({}, map[]), false, Faults(false, 1));
    assert s.currentFolder == "shows" && Items(s.fileContents) == items && |s.files| == 0;
  }

  /** The stale-button steps up to the typed `x`: the dict holds an entry for a name the empty list lacks. */
  method StaleButtonTyped() returns (s: Jellyfin.JellyfinSession, name: string)
    ensures fresh(s) && s.Valid() && s.currentFolder == "shows" && s.files == []
    ensures s.fileContents == Dict([name], map[name := "x"]) && s.currentFile == name && s.editor == "x"
  {
    s := StartOneEpisode();
    name := s.files[0];
    var next := s.ChangeContentType(true);
    assert s.currentFolder == "shows" && s.files == [] && name in s.shown;
    s.OnFileSelect(name);
    assert s.fileContents == Empty;
    s.EditText("x");
  }

  /** One non-blank entry, a reported count of 0 and the progress ratio on: the batch stops before writing. */
  lemma UnlistedEntryBatch(d: Disk, folder: string, name: string, text: string)
    requires d.files == map[] && folder != "" && !IsBlank(text)
    ensures var r := Batch(d, folder, [(name, text)], true, false, true, 0, Faults(false, 1));
      r.0 == ProgressError && r.1.files == map[]
  {
    var items := [(name, text)];
    assert BlankNames(items) == [] by {
      assert items[1..] == [];
    }
  }

  /**
   * The same steps with the change of content type that removes the old
   * buttons: no button is left to click, the typed `x` has no entry to go
   * to, and generating reports 0 files and writes none.
   */
  method JellyfinChangeTypeCorrected() returns (outcome: BatchOutcome, disk: Disk, buttonLeft: bool)
    ensures outcome == Generated(0) && disk.files == map[] && !buttonLeft
  {
    var s := StartOneEpisode();
    var name := s.files[0];
    var next := s.ChangeContentTypeClearingList(true);
    assert s.currentFolder == "shows";
    buttonLeft := name in s.shown;
    s.EditText("x");
    assert s.fileContents == Empty && s.currentFile == "";
    outcome, disk := s.GenerateStrmFiles(Disk({}, map[]), false, Faults(false, 1));
    assert s.currentFolder == "shows" && s.fileContents == Empty && s.files == [];
    assert Items(s.fileContents) == [];
  }

  /** A new session in folder "shows": Series, the season dialog closed, the episode dialog closed. */
  method StartOneEpisode() returns (s: Jellyfin.JellyfinSession)
    ensures fresh(s) && s.Valid() && s.Listed() && s.currentFolder == "shows"
    ensures |s.files| == 1 && s.shown == s.files
  {
    s := new Jellyfin.JellyfinSession("shows");
    var next := s.ContentTypeOk(Jellyfin.Series);
    next := s.SeasonDialogClosed();
    next := s.EpisodeCountDialogClosed();
    assert s.currentFolder == "shows";
  }

  /** `AddB`, then delete `b.stmr` while it is current: the flush stores its text back. */
  method DeleteCurrentB() returns (s: Stmr.StmrFileCreator)
    ensures fresh(s) && s.Valid() && s.currentFolder == "out"
    ensures s.files == [Stmr.Untitled] && s.currentFile == Stmr.Untitled && s.editor == ""
    ensures s.fileContents == Dict([Stmr.Untitled, "b.stmr"], map[Stmr.Untitled := "", "b.stmr" := ""])
  {
    s := AddB();
    ghost var added := s.fileContents;
    var deleted := s.DeleteFile(Some(1), true);
    assert RemoveFirst([Stmr.Untitled, "b.stmr"], "b.stmr") == [Stmr.Untitled];
    assert s.files == [Stmr.Untitled] && s.currentFile == Stmr.Untitled;
    assert s.fileContents == added;
  }

  /** A new `.stmr` session in folder "out" where the user added `b`, now current and empty. */
  method AddB() returns (s: Stmr.StmrFileCreator)
    ensures fresh(s) && s.Valid() && s.KeysMatchFiles() && s.currentFolder == "out"
    ensures s.files == [Stmr.Untitled, "b.stmr"] && s.currentFile == "b.stmr" && s.editor == ""
    ensures s.fileContents == Dict([Stmr.Untitled, "b.stmr"], map[Stmr.Untitled := "", "b.stmr" := ""])
  {
    s := new Stmr.StmrFileCreator("out");
    assert Stmr.WithExtension("b") == "b.stmr" by {
      assert |Lower("b")| < |Stmr.Extension|;
    }
    var created := s.NewFile(Some("b"));
    assert s.currentFolder == "out";
  }
}
