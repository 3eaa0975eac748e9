/** The values the link store works with: stored entries, the rows of the
    table view, the outcome of each user action, and the pure decisions the
    actions make (input validation, the delete filter, the opener choice). */
module Links {
  import opened Text

  /** One bookmarked repository: a `{"url": …, "guide": …}` dict. */
  datatype Entry = Entry(url: string, guide: string)

  /** The `values` tuple of one table row: (Repository URL, Guide URL/File). */
  datatype Row = Row(repository: string, guide: string)

  /** Which external program a target is handed to. */
  datatype Opener = OpenUrl | OpenLocalFile

  /** What an action reports to the user: a warning dialog, a status-bar
      message, or the target handed to an opener. */
  datatype Outcome =
    | Added
    | WarnEmpty
    | WarnBadUrl
    | WarnNoSelection
    | Deleted
    | Opened(opener: Opener, target: string)

  /** The only URL validation: a plain prefix test. */
  const GitHubPrefix: string := "https://github.com"

  /** Guides with this prefix are treated as web addresses. */
  const HttpPrefix: string := "http"

  /** An entry as `add_repo` can store it: both fields already stripped and
      non-empty, and the URL carrying the GitHub prefix. Such an entry has no
      whitespace at either end of either field, and its URL is at least as
      long as the prefix. */
  predicate WellFormed(e: Entry)
    ensures WellFormed(e) ==>
              && |e.url| >= |GitHubPrefix| && e.url[..|GitHubPrefix|] == GitHubPrefix
              && !IsSpace(e.url[0]) && !IsSpace(e.url[|e.url| - 1])
              && e.guide != [] && !IsSpace(e.guide[0]) && !IsSpace(e.guide[|e.guide| - 1])
  {
    && e.url != [] && Strip(e.url) == e.url
    && e.guide != [] && Strip(e.guide) == e.guide
    && StartsWith(e.url, GitHubPrefix)
  }

  predicate AllWellFormed(repos: seq<Entry>) {
    forall k :: 0 <= k < |repos| ==> WellFormed(repos[k])
  }

  // ---------------------------------------------------------------------------
  // The table view

  function RowOf(e: Entry): Row {
    Row(e.url, e.guide)
  }

  /** The rows `refresh_treeview` shows for a list of entries: one row per
      entry, in list order, showing that entry's URL and guide. */
  function View(repos: seq<Entry>): (rows: seq<Row>)
    ensures |rows| == |repos|
    ensures forall k :: 0 <= k < |repos| ==>
              rows[k].repository == repos[k].url && rows[k].guide == repos[k].guide
  {
    if repos == [] then [] else [RowOf(repos[0])] + View(repos[1..])
  }

  /** Inserting rows one entry at a time at the end builds the view. */
  lemma {:induction false} ViewAppend(repos: seq<Entry>, e: Entry)
    ensures View(repos + [e]) == View(repos) + [RowOf(e)]
  {
    if repos != [] {
      assert (repos + [e])[1..] == repos[1..] + [e];
      ViewAppend(repos[1..], e);
    }
  }

  /** Different stores never show the same rows: the view loses nothing. */
  lemma ViewInjective(a: seq<Entry>, b: seq<Entry>)
    requires View(a) == View(b)
    ensures a == b
  {
    assert |a| == |b|;
    forall k | 0 <= k < |a| ensures a[k] == b[k] {
      assert View(a)[k] == View(b)[k];
    }
  }

  // ---------------------------------------------------------------------------
  // Adding

  /** The entry `add_repo` would store for the two raw input texts: each
      field is already stripped, and is empty exactly when its text is all
      whitespace. */
  function NewEntry(repoText: string, guideText: string): (e: Entry)
    ensures Strip(e.url) == e.url && Strip(e.guide) == e.guide
    ensures e.url == [] <==> AllSpace(repoText)
    ensures e.guide == [] <==> AllSpace(guideText)
  {
    StripIdempotent(repoText);
    StripIdempotent(guideText);
    Entry(Strip(repoText), Strip(guideText))
  }

  /** The validation `add_repo` performs on the raw input texts. The
      "fill in both fields" warning wins over the URL warning; a URL passes
      when its stripped text begins with the GitHub prefix, so an accepted
      input always yields a well-formed entry. */
  function CheckAdd(repoText: string, guideText: string): (o: Outcome)
    ensures o == Added || o == WarnEmpty || o == WarnBadUrl
    ensures o == WarnEmpty <==> AllSpace(repoText) || AllSpace(guideText)
    ensures o == WarnBadUrl <==>
              && !AllSpace(repoText) && !AllSpace(guideText)
              && !exists rest :: Strip(repoText) == GitHubPrefix + rest
    ensures o == Added ==> WellFormed(NewEntry(repoText, guideText))
  {
    var url := Strip(repoText);
    var guide := Strip(guideText);
    if url == [] || guide == [] then WarnEmpty
    else if !StartsWith(url, GitHubPrefix) then WarnBadUrl
    else Added
  }

  /** The well-formed entries are exactly those that `add_repo` accepts and
      stores unchanged when their two fields are typed in as they are. */
  lemma WellFormedIsStoredAsTyped(e: Entry)
    ensures WellFormed(e) <==> CheckAdd(e.url, e.guide) == Added && NewEntry(e.url, e.guide) == e
  {
    if WellFormed(e) {
      assert !AllSpace(e.url) by { assert !IsSpace(e.url[0]); }
      assert !AllSpace(e.guide) by { assert !IsSpace(e.guide[0]); }
    }
  }

  /** Surrounding whitespace in either field never changes the decision. */
  lemma CheckAddIgnoresPadding(repoText: string, guideText: string, pad1: string, pad2: string,
                               pad3: string, pad4: string)
    requires AllSpace(pad1) && AllSpace(pad2) && AllSpace(pad3) && AllSpace(pad4)
    ensures CheckAdd(pad1 + repoText + pad2, pad3 + guideText + pad4) == CheckAdd(repoText, guideText)
    ensures NewEntry(pad1 + repoText + pad2, pad3 + guideText + pad4) == NewEntry(repoText, guideText)
  {
    StripIgnoresPadding(pad1, repoText, pad2);
    StripIgnoresPadding(pad3, guideText, pad4);
  }

  /** The prefix test accepts any URL text that merely begins with the
      prefix, whatever follows it, trailing whitespace included:
      "https://github.comx" and "https://github.com.example.net/x" pass,
      although their host is not github.com. */
  lemma PrefixCheckAcceptsAnySuffix(rest: string, guideText: string)
    requires !AllSpace(guideText)
    ensures CheckAdd(GitHubPrefix + rest, guideText) == Added
  {
    var url := GitHubPrefix + rest;
    var n := |GitHubPrefix|;
    var r := Strip(url);
    var i := StripInfix(url);
    assert url[0] == 'h' && url[n - 1] == 'm';
    assert i == 0 && |r| >= n;
    assert r[..n] == url[..n] == GitHubPrefix;
    assert r == GitHubPrefix + r[n..];
  }

  /** A URL typed without surrounding whitespace is stored exactly as typed. */
  lemma PrefixCheckStoresUrlAsTyped(rest: string, guideText: string)
    requires rest != [] ==> !IsSpace(rest[|rest| - 1])
    ensures NewEntry(GitHubPrefix + rest, guideText).url == GitHubPrefix + rest
  {
    var url := GitHubPrefix + rest;
    assert url[0] == 'h' && url[|url| - 1] == (if rest == [] then 'm' else rest[|rest| - 1]);
    StripUnpadded(url);
  }

  /** A plain-http URL is refused, even one naming github.com. */
  lemma PrefixCheckRefusesPlainHttp(rest: string, guideText: string)
    requires rest != [] ==> !IsSpace(rest[|rest| - 1])
    requires !AllSpace(guideText)
    ensures CheckAdd("http://" + rest, guideText) == WarnBadUrl
  {
    var url := "http://" + rest;
    assert url[0] == 'h' && url[|url| - 1] == (if rest == [] then '/' else rest[|rest| - 1]);
    StripUnpadded(url);
    assert !StartsWith(url, GitHubPrefix) by {
      if |GitHubPrefix| <= |url| { assert url[..|GitHubPrefix|][4] != GitHubPrefix[4]; }
    }
  }

  // ---------------------------------------------------------------------------
  // Deleting

  /** The list comprehension of `delete_repo`: the entries whose URL differs
      from `u`. Every entry with URL `u` is dropped, duplicates included,
      and every other entry is kept. */
  function WithoutUrl(repos: seq<Entry>, u: string): (r: seq<Entry>)
    ensures |r| <= |repos|
    ensures forall e :: e in r <==> e in repos && e.url != u
  {
    if repos == [] then []
    else (if repos[0].url != u then [repos[0]] else []) + WithoutUrl(repos[1..], u)
  }

  /** The filter works element by element, so the survivors keep their
      relative order: filtering a concatenation filters each part. */
  lemma {:induction false} WithoutUrlConcat(a: seq<Entry>, b: seq<Entry>, u: string)
    ensures WithoutUrl(a + b, u) == WithoutUrl(a, u) + WithoutUrl(b, u)
  {
    if a != [] {
      assert (a + b)[1..] == a[1..] + b;
      WithoutUrlConcat(a[1..], b, u);
    } else {
      assert a + b == b;
    }
  }

  /** Each surviving entry keeps its multiplicity; each entry with URL `u`
      has none left. */
  lemma {:induction false} WithoutUrlCounts(repos: seq<Entry>, u: string, e: Entry)
    ensures multiset(WithoutUrl(repos, u))[e] == if e.url == u then 0 else multiset(repos)[e]
  {
    if repos != [] {
      WithoutUrlCounts(repos[1..], u, e);
      assert repos == [repos[0]] + repos[1..];
    }
  }

  /** A list with no entry for `u` is left as it is. */
  lemma {:induction false} WithoutUrlNoMatch(repos: seq<Entry>, u: string)
    requires forall k :: 0 <= k < |repos| ==> repos[k].url != u
    ensures WithoutUrl(repos, u) == repos
  {
    if repos != [] {
      WithoutUrlNoMatch(repos[1..], u);
    }
  }

  /** Deleting the same URL twice is deleting it once. */
  lemma WithoutUrlIdempotent(repos: seq<Entry>, u: string)
    ensures WithoutUrl(WithoutUrl(repos, u), u) == WithoutUrl(repos, u)
  {
    var r := WithoutUrl(repos, u);
    forall k | 0 <= k < |r| ensures r[k].url != u {
      assert r[k] in r;
    }
    WithoutUrlNoMatch(r, u);
  }

  /** When some entry has URL `u` the list gets strictly shorter. */
  lemma {:induction false} WithoutUrlShrinks(repos: seq<Entry>, u: string, k: nat)
    requires k < |repos| && repos[k].url == u
    ensures |WithoutUrl(repos, u)| < |repos|
  {
    if k > 0 {
      WithoutUrlShrinks(repos[1..], u, k - 1);
    }
  }

  /** The order in which two URLs are deleted does not matter. */
  lemma {:induction false} WithoutUrlCommutes(repos: seq<Entry>, u: string, v: string)
    ensures WithoutUrl(WithoutUrl(repos, u), v) == WithoutUrl(WithoutUrl(repos, v), u)
  {
    if repos != [] {
      var h := [repos[0]];
      assert repos == h + repos[1..];
      WithoutUrlConcat(h, repos[1..], u);
      WithoutUrlConcat(h, repos[1..], v);
      WithoutUrlConcat(WithoutUrl(h, u), WithoutUrl(repos[1..], u), v);
      WithoutUrlConcat(WithoutUrl(h, v), WithoutUrl(repos[1..], v), u);
      WithoutUrlCommutes(repos[1..], u, v);
    }
  }

  // ---------------------------------------------------------------------------
  // Opening a guide

  /** `open_guide` hands a guide that begins with "http" to the browser and
      any other guide to the platform's local-file opener. */
  function OpenerFor(guide: string): (o: Opener)
    ensures o == OpenUrl <==> exists rest :: guide == HttpPrefix + rest
  {
    if StartsWith(guide, HttpPrefix) then OpenUrl else OpenLocalFile
  }

  /** The two sample guides: a web page and a local path. A local file whose
      name merely begins with "http" is sent to the browser too. */
  lemma OpenerExamples()
    ensures OpenerFor("https://example.com/doc") == OpenUrl
    ensures OpenerFor("/local/readme.md") == OpenLocalFile
    ensures OpenerFor("http_notes.txt") == OpenUrl
    ensures OpenerFor("") == OpenLocalFile
  {
    assert "https://example.com/doc" == HttpPrefix + "s://example.com/doc";
    assert "http_notes.txt" == HttpPrefix + "_notes.txt";
    assert !StartsWith("/local/readme.md", HttpPrefix) by {
      assert "/local/readme.md"[0] != HttpPrefix[0];
    }
  }
}
