# GitHub Repo & Guide Manager — link store model

A Dafny model of the link store inside the `GitHubLinkApp` window of
gitlink: a list of `{url, guide}` bookmarks that the user extends with a
validating *Add Repo*, shrinks with *Delete Selected*, and whose table view is
rebuilt from the list after every change. *Open Repo* and *Open Guide* hand a
stored target to the browser or to the local-file opener.

- `text.dfy`, module `Text`: the two Python string operations the store
  depends on: `str.strip()`, with Python's exact whitespace set, and
  `str.startswith`.
- `links.dfy`, module `Links`: the values involved. These are `Entry` (a stored
  dict), `Row` (a table row's values), `Outcome` (the warning, status message
  or opener call an action ends in) and `Opener`. It also holds the pure
  decisions: `View` (the rows for a list), `CheckAdd` (add validation),
  `WithoutUrl` (the delete filter) and `OpenerFor` (guide dispatch), with
  their lemmas.
- `app.dfy`, module `App`: the class `GitHubLinkApp`. Its fields are `repos`
  (`self.data["repos"]`), `rows` (the table), `disk` (what `repos.json` holds)
  and `loadFailed`. Each Python method is a Dafny method. `Valid()`, the
  invariant every action keeps, says the table shows exactly the stored
  entries, one row per entry, in order.

User input is passed in as parameters: the raw text of the two entry fields,
and the table selection as the sequence of selected row positions in table
order, as Tk's `selection` lists them, so its first element, the only one the
source uses, is the topmost selected row. The data file is the `DataFile`
value given to the constructor and kept in `disk`.

## Model

| member | source | states |
|---|---|---|
| Text.IsSpaceIsPythonWhitespace | gitlink.py:93-94 | the whitespace test `IsSpace` used by strip accepts exactly the 29 code points of Python's `str.isspace`, listed one by one in `PythonWhitespace` |
| Text.Strip | gitlink.py:93-94 | stripping yields the empty string exactly when the input is all whitespace; otherwise the result neither begins nor ends with whitespace |
| Text.StripInfix | gitlink.py:93-94 | the stripped text is a contiguous part of the input with only whitespace before and after it |
| Text.StripUnique | gitlink.py:93-94 | any split into whitespace, a core without surrounding whitespace, and whitespace has that core as the strip result |
| Text.StripUnpadded | gitlink.py:93-94 | a string that neither begins nor ends with whitespace is unchanged by stripping |
| Text.StripIdempotent | gitlink.py:93-94 | stripping an already stripped value changes nothing |
| Text.StripIgnoresPadding | gitlink.py:93-94 | whitespace added on either side does not change the stripped value |
| Text.StartsWith | gitlink.py:101 | the prefix test holds exactly when the string is the prefix followed by some rest |
| Links.View | gitlink.py:83-90 | the view has one row per entry, and row k shows entry k's URL and guide |
| Links.ViewAppend | gitlink.py:89-90 | inserting the row of each entry at the end, one after another, builds the view of the whole list |
| Links.ViewInjective | gitlink.py:85-90 | two stores with the same rows are the same store, so the table loses no information |
| Links.NewEntry | gitlink.py:93-106 | the entry built from the two input texts has both fields already stripped, each empty exactly when its text is all whitespace |
| Links.WellFormed | gitlink.py:96-106 | an entry `add_repo` can store begins with the https://github.com prefix and has no whitespace at either end of either field, and its guide is non-empty |
| Links.WellFormedIsStoredAsTyped | gitlink.py:92-106 | the well-formed entries are exactly those that are accepted and stored unchanged when typed in as they are |
| Links.CheckAdd | gitlink.py:92-103 | warns "fill in both fields" exactly when either input is all whitespace; that check comes first; then warns about the URL exactly when the stripped URL lacks the https://github.com prefix; an accepted input yields a stripped, non-empty, prefixed entry |
| Links.CheckAddIgnoresPadding | gitlink.py:93-94 | surrounding whitespace in either field changes neither the decision nor the stored entry |
| Links.PrefixCheckAcceptsAnySuffix | gitlink.py:101 | any URL text that starts with the prefix passes, whatever follows it, trailing whitespace included, such as "https://github.comx" |
| Links.PrefixCheckStoresUrlAsTyped | gitlink.py:93-106 | a URL typed without trailing whitespace is stored exactly as typed |
| Links.PrefixCheckRefusesPlainHttp | gitlink.py:101-103 | an http:// URL is refused with the URL warning |
| Links.WithoutUrl | gitlink.py:123 | the result keeps exactly the entries whose URL differs from the selected one and never grows |
| Links.WithoutUrlConcat | gitlink.py:123 | the filter distributes over concatenation, so survivors keep their relative order |
| Links.WithoutUrlCounts | gitlink.py:123 | each surviving entry keeps its multiplicity; every duplicate of the deleted URL is gone |
| Links.WithoutUrlNoMatch | gitlink.py:123 | a list with no entry for the URL is unchanged |
| Links.WithoutUrlIdempotent | gitlink.py:123 | deleting a URL twice gives the same list as deleting it once |
| Links.WithoutUrlShrinks | gitlink.py:122-123 | deleting a URL that some entry has makes the list strictly shorter |
| Links.WithoutUrlCommutes | gitlink.py:123 | deleting two URLs gives the same list in either order |
| Links.OpenerFor | gitlink.py:149-153 | the browser is chosen exactly when the guide is "http" followed by something; otherwise the local-file opener |
| Links.OpenerExamples | gitlink.py:149-153 | "https://example.com/doc" and "http_notes.txt" go to the browser; "/local/readme.md" and "" go to the local-file opener |
| App.ValidPointwise | gitlink.py:83-90 | a table equals the view of a store exactly when it has one row per entry and row k shows entry k's URL and guide |
| App.GitHubLinkApp.Valid | gitlink.py:83-90 | the invariant every action keeps, as each successful add and delete ends with a refresh (gitlink.py:108 and 125): the table has one row per stored entry, and row k shows entry k's URL and guide |
| App.GitHubLinkApp.constructor | gitlink.py:8-19 | the store starts empty and takes the file's list if there is one; a missing file gives zero rows and no dialog; a corrupt file gives the error dialog and an empty store; the table mirrors the store |
| App.GitHubLinkApp.LoadData | gitlink.py:66-73 | a readable file replaces the store; a missing file changes nothing; a corrupt file raises the error dialog and leaves the store unchanged |
| App.GitHubLinkApp.SaveData | gitlink.py:75-79 | the file afterwards holds exactly the store |
| App.GitHubLinkApp.RefreshTreeview | gitlink.py:83-90 | after deleting all old rows and inserting one per entry, the table is the view of the store |
| App.GitHubLinkApp.AddRepo | gitlink.py:92-113 | the outcome is the validation decision; on success the store is the old store plus the one stripped entry at the end, duplicates allowed, and it is saved; on a warning nothing changes; the table mirrors the store; a store of well-formed entries stays well-formed |
| App.GitHubLinkApp.DeleteRepo | gitlink.py:115-126 | with no selection it warns and changes nothing; otherwise the store is the old one filtered by the selected entry's URL, that entry is gone, the store is strictly shorter and it is saved; the table mirrors the store |
| App.GitHubLinkApp.OpenRepo | gitlink.py:128-137 | with no selection it warns; otherwise the browser gets the stored URL of the topmost selected row |
| App.GitHubLinkApp.OpenGuide | gitlink.py:141-154 | with no selection it warns; otherwise the stored guide of the topmost selected row goes to the opener its "http" prefix selects |

## Left out

- Widget layout, window title and geometry, scrollbar and buttons (gitlink.py:8-64, 158-161). These are UI only. Entry-field text and the table selection are parameters.
- Clearing the two entry fields after a successful add (gitlink.py:111-112). This only changes widgets; `Added` is the outcome on which the fields are cleared.
- Dialog and status-bar texts (gitlink.py:73, 81, 97, 102, 113, 118, 126, 131, 137, 144, 154). Each is represented by its `Outcome` value or by `loadFailed`, not by its string.
- JSON encoding and file I/O (gitlink.py:66-81). The file is the abstract `DataFile`: `Stored` holds the list that `json.dump` wrote, and `Corrupt` stands for any read or parse error. Because `Stored` carries the list itself, saving and then loading gives back the same list in the same order. A file that parses but has no `repos` list, or has malformed entries, is not modelled.
- App.GitHubLinkApp.SaveData: does not model a failed write (the "Failed to save data" dialog, or a file truncated part-way). The model always succeeds, because the failure comes from the operating system.
- Tk's conversion of row values (a numeric-looking string can come back from `tree.item` as a number, so the comparison at gitlink.py:123 would not match). The model takes the displayed value to be the stored string.
- Tree item identifiers. Rows are identified by position; the selection is an increasing list of row positions, all of them rows of the table, and only the first is used.
- Lone surrogate code points. Python's `str` can hold them but Dafny's `char` cannot. None of them is whitespace, so strip would keep them unchanged.
- Whether `webbrowser.open`, `os.startfile` or `os.system` succeed, and the error dialogs for their failures (gitlink.py:135-139, 148-156). These are foreign calls. Only the choice of opener and its target is modelled.
- The `os.name` platform branch and the unquoted shell command `open {guide}` (gitlink.py:153). Both are `OpenLocalFile`.
- Apart from Tk's value conversion above, nothing is left out of the delete semantics. When several entries share a URL, deleting one row removes all of them. The model keeps this: `WithoutUrl` drops every entry with the selected URL.
