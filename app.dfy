/** The `GitHubLinkApp` window object: the in-memory link store, the table
    that shows it, and the data file the store is saved to. Text typed into the
    two input fields and the rows selected in the table are passed in as
    parameters; dialogs and status-bar messages come back as an `Outcome`. */
module App {
  import opened Text
  import opened Links

  /** The data file `repos.json` as the application finds or leaves it. A file
      that exists but cannot be read or parsed is `Corrupt`. */
  datatype DataFile = Missing | Corrupt | Stored(repos: seq<Entry>)

  /** A table showing one row per entry with its URL and guide is the view. */
  lemma ValidPointwise(rows: seq<Row>, repos: seq<Entry>)
    ensures rows == View(repos) <==>
              && |rows| == |repos|
              && forall k :: 0 <= k < |repos| ==>
                   rows[k].repository == repos[k].url && rows[k].guide == repos[k].guide
  {
    var v := View(repos);
    if |rows| == |repos| && forall k :: 0 <= k < |repos| ==>
         rows[k].repository == repos[k].url && rows[k].guide == repos[k].guide {
      forall k | 0 <= k < |rows| ensures rows[k] == v[k] {
      }
    }
  }

  class GitHubLinkApp {
    /** `self.data["repos"]`: the stored entries, in insertion order. */
    var repos: seq<Entry>
    /** The table's rows, top to bottom. */
    var rows: seq<Row>
    /** What the data file holds. */
    var disk: DataFile
    /** Whether loading showed the "Failed to load data" error dialog. */
    var loadFailed: bool

    /** Between user actions the table shows exactly the stored entries:
        one row per entry, and row k shows entry k's URL and guide. */
    ghost predicate Valid()
      reads this
      ensures Valid() <==>
                && |rows| == |repos|
                && forall k :: 0 <= k < |repos| ==>
                     rows[k].repository == repos[k].url && rows[k].guide == repos[k].guide
    {
      ValidPointwise(rows, repos);
      rows == View(repos)
    }

    /** What `tree.selection()` can return: positions of rows of the table,
        listed in table order, so the first is the topmost selected row. */
    ghost predicate IsSelection(selection: seq<nat>)
      reads this
    {
      && (forall k :: 0 <= k < |selection| ==> selection[k] < |rows|)
      && (forall i, j :: 0 <= i < j < |selection| ==> selection[i] < selection[j])
    }

    /** Start-up: the store begins empty, is replaced by the file's list when
        the file holds one, and the table is then filled from the store. A
        missing file gives an empty store silently; a corrupt one gives an
        empty store and the error dialog. */
    constructor (file: DataFile)
      ensures Valid()
      ensures repos == (if file.Stored? then file.repos else [])
      ensures file.Missing? ==> |rows| == 0
      ensures loadFailed <==> file.Corrupt?
      ensures disk == file
    {
      repos := [];
      rows := [];
      disk := file;
      loadFailed := false;
      new;
      LoadData();
      RefreshTreeview();
    }

    /** `load_data`: take the file's list if it has one; a corrupt file only
        raises the error dialog and leaves the store as it was. */
    method LoadData()
      modifies this`repos, this`loadFailed
      ensures disk.Stored? ==> repos == disk.repos && loadFailed == old(loadFailed)
      ensures disk.Missing? ==> repos == old(repos) && loadFailed == old(loadFailed)
      ensures disk.Corrupt? ==> repos == old(repos) && loadFailed
    {
      match disk
      case Missing =>
      case Corrupt =>
        loadFailed := true;
      case Stored(saved) =>
        repos := saved;
    }

    /** `save_data`: overwrite the file with the whole store. */
    method SaveData()
      modifies this`disk
      ensures disk == Stored(repos)
    {
      disk := Stored(repos);
    }

    /** `refresh_treeview`: delete every current row, then insert one row per
        stored entry at the end. */
    method RefreshTreeview()
      modifies this`rows
      ensures rows == View(repos)
    {
      var children := rows;
      var i := 0;
      while i < |children|
        invariant 0 <= i <= |children|
        invariant rows == children[i..]
      {
        // The children are deleted in table order, so each one deleted is
        // the first row still present.
        rows := rows[1..];
        i := i + 1;
      }
      var k := 0;
      while k < |repos|
        invariant 0 <= k <= |repos|
        invariant rows == View(repos[..k])
      {
        ViewAppend(repos[..k], repos[k]);
        assert repos[..k + 1] == repos[..k] + [repos[k]];
        rows := rows + [RowOf(repos[k])];
        k := k + 1;
      }
      assert repos[..k] == repos;
    }

    /** `add_repo`: strip both inputs, warn if either is empty, warn if the URL
        lacks the GitHub prefix, and otherwise append one entry, save and
        refresh the table. A rejected add changes nothing. */
    method AddRepo(repoText: string, guideText: string) returns (outcome: Outcome)
      requires Valid()
      modifies this`repos, this`rows, this`disk
      ensures Valid()
      ensures outcome == CheckAdd(repoText, guideText)
      ensures outcome == Added ==>
                && repos == old(repos) + [NewEntry(repoText, guideText)]
                && disk == Stored(repos)
      ensures outcome != Added ==>
                repos == old(repos) && rows == old(rows) && disk == old(disk)
      ensures old(AllWellFormed(repos)) ==> AllWellFormed(repos)
    {
      var url := Strip(repoText);
      var guide := Strip(guideText);
      if url == [] || guide == [] {
        return WarnEmpty;
      }
      if !StartsWith(url, GitHubPrefix) {
        return WarnBadUrl;
      }
      repos := repos + [Entry(url, guide)];
      SaveData();
      RefreshTreeview();
      outcome := Added;
    }

    /** `delete_repo`: with nothing selected, warn and change nothing;
        otherwise drop every entry whose URL equals the URL shown in the
        topmost selected row, save and refresh the table. The selected entry is
        always among those dropped, so the store gets strictly shorter. */
    method DeleteRepo(selection: seq<nat>) returns (outcome: Outcome)
      requires Valid()
      requires IsSelection(selection)
      modifies this`repos, this`rows, this`disk
      ensures Valid()
      ensures selection == [] ==>
                && outcome == WarnNoSelection
                && repos == old(repos) && rows == old(rows) && disk == old(disk)
      ensures selection != [] ==>
                && outcome == Deleted
                && repos == WithoutUrl(old(repos), old(repos)[selection[0]].url)
                && old(repos)[selection[0]] !in repos
                && |repos| < |old(repos)|
                && disk == Stored(repos)
      ensures old(AllWellFormed(repos)) ==> AllWellFormed(repos)
    {
      if selection == [] {
        return WarnNoSelection;
      }
      var selected := rows[selection[0]];
      ghost var before := repos;
      repos := WithoutUrl(repos, selected.repository);
      WithoutUrlShrinks(before, selected.repository, selection[0]);
      if AllWellFormed(before) {
        forall k | 0 <= k < |repos| ensures WellFormed(repos[k]) {
          assert repos[k] in before;
        }
      }
      SaveData();
      RefreshTreeview();
      outcome := Deleted;
    }

    /** `open_repo`: with nothing selected, warn; otherwise hand the URL of
        the entry under the topmost selected row to the browser. */
    method OpenRepo(selection: seq<nat>) returns (outcome: Outcome)
      requires Valid()
      requires IsSelection(selection)
      ensures selection == [] ==> outcome == WarnNoSelection
      ensures selection != [] ==> outcome == Opened(OpenUrl, repos[selection[0]].url)
    {
      if selection == [] {
        return WarnNoSelection;
      }
      var repoUrl := rows[selection[0]].repository;
      outcome := Opened(OpenUrl, repoUrl);
    }

    /** `open_guide`: with nothing selected, warn; otherwise hand the guide of
        the entry under the topmost selected row to the opener its prefix
        selects. */
    method OpenGuide(selection: seq<nat>) returns (outcome: Outcome)
      requires Valid()
      requires IsSelection(selection)
      ensures selection == [] ==> outcome == WarnNoSelection
      ensures selection != [] ==>
                var guide := repos[selection[0]].guide;
                outcome == Opened(OpenerFor(guide), guide)
    {
      if selection == [] {
        return WarnNoSelection;
      }
      var guide := rows[selection[0]].guide;
      if StartsWith(guide, HttpPrefix) {
        outcome := Opened(OpenUrl, guide);
      } else {
        outcome := Opened(OpenLocalFile, guide);
      }
    }
  }
}
