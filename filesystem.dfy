/**
 * The output folder on disk, abstracted: a set of existing folders and a map
 * from (folder, file name) to the text last written there.  This is the
 * shared part of `generate_strm_files` and `generate_stmr_files`: create the
 * folder if missing, optionally look for blank entries, then write the
 * dict's items one by one, stopping at the first failure without undoing
 * the earlier writes.
 */
module FileSystem {
  import opened Wrappers
  import opened Text
  import opened Collections

  /** A file path is `os.path.join(folder, name)`, kept as the pair. */
  datatype Disk = Disk(dirs: set<string>, files: map<(string, string), string>)

  /**
   * Environment failures injected into a batch: `os.makedirs` raising, and
   * the index of the first `open(...)` that raises (none when it is at least
   * the number of entries).
   */
  datatype Faults = Faults(mkdirFails: bool, failAt: nat)

  /**
   * What a batch ends with: the error box for the folder, the declined
   * warning, the error box for a division by zero in the progress ratio, a
   * write error after some files, or success.
   */
  datatype BatchOutcome =
    | FolderError
    | Cancelled(blank: seq<string>)
    | ProgressError             // `files_processed / total_files` with no listed file: nothing is written
    | WriteError(written: nat)
    | Generated(reported: nat)

  /**
   * `if not os.path.exists(folder): os.makedirs(folder)`; `os.path.exists("")`
   * is false and `os.makedirs("")` raises, so the empty folder always fails.
   */
  function EnsureFolder(d: Disk, folder: string, fails: bool): (r: Option<Disk>)
    ensures r.Some? ==> folder in r.value.dirs && r.value.files == d.files && d.dirs <= r.value.dirs
    ensures r.None? <==> folder == "" || (folder !in d.dirs && fails)
  {
    if folder != "" && folder in d.dirs then Some(d)
    else if folder == "" || fails then None
    else Some(d.(dirs := d.dirs + {folder}))
  }

  /** `with open(os.path.join(folder, name), "w") as f: f.write(content)`: that one file now holds the text. */
  function Write(d: Disk, folder: string, entry: (string, string)): (r: Disk)
    ensures (folder, entry.0) in r.files && r.files[(folder, entry.0)] == entry.1
    ensures r.dirs == d.dirs && forall p :: p != (folder, entry.0) ==> Untouched(d.files, r.files, p)
  {
    d.(files := d.files[(folder, entry.0) := entry.1])
  }

  /** The disk after writing `entries` in order: writing creates no folder and removes no file. */
  function Written(d: Disk, folder: string, entries: seq<(string, string)>): (r: Disk)
    ensures r.dirs == d.dirs && d.files.Keys <= r.files.Keys
    decreases |entries|
  {
    if entries == [] then d
    else Write(Written(d, folder, entries[..|entries| - 1]), folder, entries[|entries| - 1])
  }

  function Names(entries: seq<(string, string)>): (r: seq<string>)
    ensures |r| == |entries| && forall i :: 0 <= i < |entries| ==> r[i] == entries[i].0
  {
    seq(|entries|, i requires 0 <= i < |entries| => entries[i].0)
  }

  /** The names of a dict's items are its keys in insertion order, so they never repeat. */
  lemma NamesOfItems(d: Dict)
    requires Wf(d)
    ensures Names(Items(d)) == d.order
    ensures NoDup(Names(Items(d)))
  {
  }

  /** The files a run of writes leaves behind, with a later write of a name winning. */
  function Updates(folder: string, entries: seq<(string, string)>): map<(string, string), string>
    decreases |entries|
  {
    if entries == [] then map[]
    else Updates(folder, entries[..|entries| - 1])[(folder, entries[|entries| - 1].0) := entries[|entries| - 1].1]
  }

  /** A run of writes touches exactly the paths of its names in the folder. */
  lemma {:induction false} UpdatesDomain(folder: string, entries: seq<(string, string)>, p: (string, string))
    ensures p in Updates(folder, entries) <==> p.0 == folder && p.1 in Names(entries)
    decreases |entries|
  {
    if entries != [] {
      var init := entries[..|entries| - 1];
      UpdatesDomain(folder, init, p);
      assert Names(entries) == Names(init) + [entries[|entries| - 1].0];
    }
  }

  /** Writing the entries overlays their updates on the old files; folders are untouched. */
  lemma {:induction false} WrittenIsOverlay(d: Disk, folder: string, entries: seq<(string, string)>)
    ensures Written(d, folder, entries) == Disk(d.dirs, d.files + Updates(folder, entries))
    decreases |entries|
  {
    if entries != [] {
      var init := entries[..|entries| - 1];
      var last := entries[|entries| - 1];
      WrittenIsOverlay(d, folder, init);
      var u := Updates(folder, init);
      assert d.files + u[(folder, last.0) := last.1] == (d.files + u)[(folder, last.0) := last.1];
    }
  }

  /** When the names are distinct, each entry's file holds exactly that entry's text. */
  lemma {:induction false} UpdatesAt(folder: string, entries: seq<(string, string)>, i: nat)
    requires NoDup(Names(entries)) && i < |entries|
    ensures (folder, entries[i].0) in Updates(folder, entries)
    ensures Updates(folder, entries)[(folder, entries[i].0)] == entries[i].1
    decreases |entries|
  {
    var last := |entries| - 1;
    if i < last {
      var init := entries[..last];
      assert Names(init) == Names(entries)[..last];
      assert entries[i].0 != entries[last].0 by {
        assert Names(entries)[i] == entries[i].0 && Names(entries)[last] == entries[last].0;
      }
      UpdatesAt(folder, init, i);
    }
  }

  /** Writing the same entries a second time leaves the disk as the first time did. */
  lemma WrittenIdempotent(d: Disk, folder: string, entries: seq<(string, string)>)
    ensures Written(Written(d, folder, entries), folder, entries) == Written(d, folder, entries)
  {
    var once := Written(d, folder, entries);
    WrittenIsOverlay(d, folder, entries);
    WrittenIsOverlay(once, folder, entries);
    var u := Updates(folder, entries);
    assert (d.files + u) + u == d.files + u;
  }

  /** The write loop of both generators; an exception at write `failAt` ends it with the earlier files kept. */
  method WriteEntries(d: Disk, folder: string, entries: seq<(string, string)>, failAt: nat)
    returns (d': Disk, written: nat)
    ensures written == if failAt < |entries| then failAt else |entries|
    ensures d' == Written(d, folder, entries[..written])
  {
    d', written := d, 0;
    while written < |entries| && written != failAt
      invariant written <= |entries| && written <= failAt
      invariant d' == Written(d, folder, entries[..written])
    {
      d' := Write(d', folder, entries[written]);
      written := written + 1;
      assert entries[..written][..written - 1] == entries[..written - 1];
    }
  }

  /** `[name for name, content in items if not content.strip()]`. */
  function BlankNames(items: seq<(string, string)>): (r: seq<string>)
    ensures |r| <= |items|
    decreases |items|
  {
    if items == [] then []
    else (if IsBlank(items[0].1) then [items[0].0] else []) + BlankNames(items[1..])
  }

  /** The name of a blank item of `items`. */
  ghost predicate BlankItemName(items: seq<(string, string)>, n: string) {
    exists i :: 0 <= i < |items| && items[i].0 == n && IsBlank(items[i].1)
  }

  /** The warning lists exactly the names of the blank items. */
  lemma {:induction false} BlankNamesExact(items: seq<(string, string)>)
    ensures forall n :: n in BlankNames(items) <==> BlankItemName(items, n)
    decreases |items|
  {
    if items != [] {
      var rest := items[1..];
      var head := if IsBlank(items[0].1) then [items[0].0] else [];
      assert BlankNames(items) == head + BlankNames(rest);
      BlankNamesExact(rest);
      forall n ensures n in BlankNames(items) <==> BlankItemName(items, n) {
        if BlankItemName(rest, n) {
          var i :| 0 <= i < |rest| && rest[i].0 == n && IsBlank(rest[i].1);
          assert items[i + 1] == rest[i];
        }
        if BlankItemName(items, n) {
          var i :| 0 <= i < |items| && items[i].0 == n && IsBlank(items[i].1);
          if i > 0 {
            assert rest[i - 1] == items[i];
          }
        }
      }
    }
  }

  /**
   * One batch: create the folder, then (when `warnBlank`) stop if some entry
   * is blank and the user declined, then write every item in order; the
   * outcome on success reports `reported` files.  With `ratio`, each item
   * first computes `processed / reported`, which raises before the first
   * write when there is an item but `reported` is 0.  A batch never removes
   * a folder or a file.
   */
  function Batch(d: Disk, folder: string, items: seq<(string, string)>, warnBlank: bool, proceed: bool, ratio: bool,
                 reported: nat, faults: Faults): (r: (BatchOutcome, Disk))
    ensures d.dirs <= r.1.dirs && d.files.Keys <= r.1.files.Keys
  {
    match EnsureFolder(d, folder, faults.mkdirFails)
    case None => (FolderError, d)
    case Some(ready) =>
      var blank := BlankNames(items);
      if warnBlank && blank != [] && !proceed then (Cancelled(blank), ready)
      else if ratio && reported == 0 && items != [] then (ProgressError, ready)
      else if faults.failAt < |items| then (WriteError(faults.failAt), Written(ready, folder, items[..faults.failAt]))
      else (Generated(reported), Written(ready, folder, items))
  }

  /** The warning appears exactly when some item is blank. */
  lemma BlankNamesNonEmpty(items: seq<(string, string)>)
    ensures BlankNames(items) != [] <==> exists i :: 0 <= i < |items| && IsBlank(items[i].1)
  {
    BlankNamesExact(items);
    if BlankNames(items) != [] {
      assert BlankItemName(items, BlankNames(items)[0]);
    }
    if exists i :: 0 <= i < |items| && IsBlank(items[i].1) {
      var i :| 0 <= i < |items| && IsBlank(items[i].1);
      assert BlankItemName(items, items[i].0);
    }
  }

  /** The file at `p` is the same before and after. */
  ghost predicate Untouched(before: map<(string, string), string>, after: map<(string, string), string>, p: (string, string)) {
    (p in before <==> p in after) && (p in before ==> before[p] == after[p])
  }

  /**
   * Writing entries with distinct names leaves each entry's text at its path,
   * every other path as it was, and the folders as they were.
   */
  lemma WrittenEffect(d: Disk, folder: string, entries: seq<(string, string)>)
    requires NoDup(Names(entries))
    ensures var w := Written(d, folder, entries);
      && w.dirs == d.dirs
      && (forall i :: 0 <= i < |entries| ==> (folder, entries[i].0) in w.files && w.files[(folder, entries[i].0)] == entries[i].1)
      && (forall p: (string, string) :: p.0 != folder || p.1 !in Names(entries) ==> Untouched(d.files, w.files, p))
  {
    var w := Written(d, folder, entries);
    WrittenIsOverlay(d, folder, entries);
    forall i | 0 <= i < |entries|
      ensures (folder, entries[i].0) in w.files && w.files[(folder, entries[i].0)] == entries[i].1
    {
      UpdatesAt(folder, entries, i);
    }
    forall p: (string, string) | p.0 != folder || p.1 !in Names(entries)
      ensures Untouched(d.files, w.files, p)
    {
      UpdatesDomain(folder, entries, p);
    }
  }

  /** A folder that cannot be created stops the batch before anything is written. */
  lemma BatchFolderError(d: Disk, folder: string, items: seq<(string, string)>, warnBlank: bool, proceed: bool, ratio: bool,
                         reported: nat, faults: Faults)
    ensures var r := Batch(d, folder, items, warnBlank, proceed, ratio, reported, faults);
      r.0.FolderError? <==> folder == "" || (folder !in d.dirs && faults.mkdirFails)
    ensures var r := Batch(d, folder, items, warnBlank, proceed, ratio, reported, faults);
      r.0.FolderError? ==> r.1 == d
  {
  }

  /**
   * With the progress ratio on, a batch with items but a reported count of
   * 0 fails once the folder exists and any warning was accepted, before any
   * file is written.
   */
  lemma BatchProgressError(d: Disk, folder: string, items: seq<(string, string)>, warnBlank: bool, proceed: bool, ratio: bool,
                           reported: nat, faults: Faults)
    ensures var r := Batch(d, folder, items, warnBlank, proceed, ratio, reported, faults);
      r.0.ProgressError? <==> EnsureFolder(d, folder, faults.mkdirFails).Some?
                              && !(warnBlank && !proceed && exists i :: 0 <= i < |items| && IsBlank(items[i].1))
                              && ratio && reported == 0 && items != []
    ensures var r := Batch(d, folder, items, warnBlank, proceed, ratio, reported, faults);
      r.0.ProgressError? ==> r.1.files == d.files && folder in r.1.dirs
  {
    BlankNamesNonEmpty(items);
  }

  /**
   * The warning is raised exactly when blank checking is on, the folder is
   * there and some item is blank; declining it writes no file (the folder
   * has already been created) and the warning lists exactly the blank names.
   */
  lemma BatchCancelled(d: Disk, folder: string, items: seq<(string, string)>, warnBlank: bool, proceed: bool, ratio: bool,
                       reported: nat, faults: Faults)
    ensures var r := Batch(d, folder, items, warnBlank, proceed, ratio, reported, faults);
      r.0.Cancelled? <==> EnsureFolder(d, folder, faults.mkdirFails).Some? && warnBlank && !proceed
                          && exists i :: 0 <= i < |items| && IsBlank(items[i].1)
    ensures var r := Batch(d, folder, items, warnBlank, proceed, ratio, reported, faults);
      r.0.Cancelled? ==> r.1.files == d.files && folder in r.1.dirs
                         && forall n :: n in r.0.blank <==> BlankItemName(items, n)
  {
    BlankNamesExact(items);
    BlankNamesNonEmpty(items);
  }

  /** A successful batch leaves every item in the folder with its own text and touches no other file. */
  lemma BatchGenerated(d: Disk, folder: string, items: seq<(string, string)>, warnBlank: bool, proceed: bool, ratio: bool,
                       reported: nat, faults: Faults)
    requires NoDup(Names(items))
    ensures var r := Batch(d, folder, items, warnBlank, proceed, ratio, reported, faults);
      r.0.Generated? ==>
        && r.0.reported == reported
        && folder in r.1.dirs
        && (forall i :: 0 <= i < |items| ==> (folder, items[i].0) in r.1.files && r.1.files[(folder, items[i].0)] == items[i].1)
        && (forall p: (string, string) :: p.0 != folder || p.1 !in Names(items) ==> Untouched(d.files, r.1.files, p))
  {
    var r := Batch(d, folder, items, warnBlank, proceed, ratio, reported, faults);
    if r.0.Generated? {
      WrittenEffect(EnsureFolder(d, folder, faults.mkdirFails).value, folder, items);
    }
  }

  /**
   * A write error at item k keeps the k files written before it (no rollback)
   * and leaves every other path, including those of items k onwards, as it was.
   */
  lemma BatchWriteError(d: Disk, folder: string, items: seq<(string, string)>, warnBlank: bool, proceed: bool, ratio: bool,
                        reported: nat, faults: Faults)
    requires NoDup(Names(items))
    ensures var r := Batch(d, folder, items, warnBlank, proceed, ratio, reported, faults);
      r.0.WriteError? ==>
        && r.0.written == faults.failAt < |items|
        && (forall i :: 0 <= i < r.0.written ==> (folder, items[i].0) in r.1.files && r.1.files[(folder, items[i].0)] == items[i].1)
        && (forall p: (string, string) :: p.0 != folder || p.1 !in Names(items)[..r.0.written] ==> Untouched(d.files, r.1.files, p))
  {
    var r := Batch(d, folder, items, warnBlank, proceed, ratio, reported, faults);
    if r.0.WriteError? {
      var k := faults.failAt;
      var done := items[..k];
      var ready := EnsureFolder(d, folder, faults.mkdirFails).value;
      assert r.1 == Written(ready, folder, done) && ready.files == d.files;
      assert Names(done) == Names(items)[..k];
      NoDupPrefix(Names(items), k);
      WrittenEffect(ready, folder, done);
      assert forall i :: 0 <= i < k ==> done[i] == items[i];
    }
  }

  /** Running a successful batch again with no edits in between rewrites the same files with the same text. */
  lemma BatchIdempotent(d: Disk, folder: string, items: seq<(string, string)>, warnBlank: bool, proceed: bool, ratio: bool,
                        reported: nat, faults: Faults)
    ensures var r := Batch(d, folder, items, warnBlank, proceed, ratio, reported, faults);
      r.0.Generated? ==> Batch(r.1, folder, items, warnBlank, proceed, ratio, reported, faults) == r
  {
    var r := Batch(d, folder, items, warnBlank, proceed, ratio, reported, faults);
    if r.0.Generated? {
      var ready := EnsureFolder(d, folder, faults.mkdirFails).value;
      WrittenIsOverlay(ready, folder, items);
      assert r.1.dirs == ready.dirs;
      WrittenIdempotent(ready, folder, items);
    }
  }
}
