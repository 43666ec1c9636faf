/** The pure part of the restore page (ui/pages/restore_page.py): the status
    text and row tag of a version, the restorability test on a selected row,
    the filter and search over the loaded versions, and the rows shown. The
    backup-existence check and the UTC-to-local conversion are parameters. */
module RestoreView {
  import opened Wrappers
  import opened Text
  import opened Timestamps
  import opened StableSort
  import opened VersionIndex

  // ---------------------------------------------------------------------
  // Status, tags, restorability
  // ---------------------------------------------------------------------

  /** The Status column (restore_page.py:915-920). */
  function StatusText(deleted: bool, backup: bool): string {
    if deleted then (if backup then "Deleted (Available)" else "Deleted (Unavailable)")
    else if backup then "Available"
    else "Missing Backup!"
  }

  /** The one tag a row carries (restore_page.py:935-947). */
  function RowTag(deleted: bool, backup: bool): string {
    if deleted then (if backup then "deleted" else "deleted_unavailable")
    else if backup then "available"
    else "missing"
  }

  /** `'available' in tags or ('deleted' in tags and "Available" in status)`. */
  predicate IsRestorable(tags: seq<string>, status: string) {
    "available" in tags || ("deleted" in tags && Contains(status, "Available"))
  }

  /** No capital A, so "Available" does not occur. */
  lemma NoAvailableIn(text: string)
    requires forall i :: 0 <= i < |text| ==> text[i] != 'A'
    ensures !Contains(text, "Available")
  {
    forall i | 0 <= i <= |text| - 9 ensures !OccursAt(text, "Available", i) {
      assert text[i..i + 9][0] == text[i];
    }
  }

  /** A row is restorable exactly when its backup file exists, whether the
      version is active or deleted. */
  lemma RestorableIffBackupExists(deleted: bool, backup: bool)
    ensures IsRestorable([RowTag(deleted, backup)], StatusText(deleted, backup)) <==> backup
  {
    if deleted && backup {
      assert OccursAt("Deleted (Available)", "Available", 9);
    }
    if deleted && !backup {
      NoAvailableIn("Deleted (Unavailable)");
    }
  }

  /** The status and the tag tell the same story: active rows never say
      "Deleted", deleted rows always do. */
  lemma StatusAgreesWithTag(deleted: bool, backup: bool)
    ensures StatusText(deleted, backup)[..7] == "Deleted" <==> deleted
    ensures RowTag(deleted, backup) == "available" <==> !deleted && backup
  {
    var st := StatusText(deleted, backup);
    if !deleted {
      assert st[..7][0] == st[0] != 'D';
    }
  }

  // ---------------------------------------------------------------------
  // Filter and search
  // ---------------------------------------------------------------------

  /** The filter choices other than "Last 7 Days" (restore_page.py:289). */
  datatype FilterOption = AllVersions | AvailableOnly | DeletedOnly | MyVersions

  const Placeholder: string := "search versions..."

  /** `search_entry.get().lower()`, with the placeholder counting as empty. */
  function SearchText(entry: string): string {
    var s := Lower(entry);
    if s == Placeholder then "" else s
  }

  /** The search part of the filter (restore_page.py:841-852): an empty search
      matches; otherwise the text must occur in the message, the user name,
      the local time string or the hash, each lower-cased. */
  predicate Matches(search: string, h: Hash, e: VersionEntry, local: string -> string) {
    search == [] ||
    Contains(Lower(e.commitMessage), search) || Contains(Lower(e.username), search) ||
    Contains(Lower(local(e.timestamp.GetOr(""))), search) || Contains(Lower(h), search)
  }

  /** Whether a version passes the filter and the search. */
  predicate Keep(opt: FilterOption, search: string, user: string, backup: Hash -> bool,
                 local: string -> string, x: (Hash, VersionEntry))
  {
    var (h, e) := x;
    !(opt == AvailableOnly && (e.deleted || !backup(h))) &&
    !(opt == DeletedOnly && !e.deleted) &&
    !(opt == MyVersions && e.username != user) &&
    Matches(search, h, e, local)
  }

  /** The versions the filter keeps, in their loaded order. */
  function Filtered(vs: seq<(Hash, VersionEntry)>, opt: FilterOption, search: string, user: string,
                    backup: Hash -> bool, local: string -> string): (r: seq<(Hash, VersionEntry)>)
    ensures |r| <= |vs|
  {
    if vs == [] then []
    else
      var init := Filtered(vs[..|vs| - 1], opt, search, user, backup, local);
      if Keep(opt, search, user, backup, local, vs[|vs| - 1]) then init + [vs[|vs| - 1]] else init
  }

  /** The loop of _filter_versions (restore_page.py:808-855). */
  method FilterVersions(vs: seq<(Hash, VersionEntry)>, opt: FilterOption, entry: string, user: string,
                        backup: Hash -> bool, local: string -> string) returns (kept: seq<(Hash, VersionEntry)>)
    ensures kept == Filtered(vs, opt, SearchText(entry), user, backup, local)
  {
    var search := Lower(entry);
    if search == Placeholder {
      search := "";
    }
    kept := [];
    var i := 0;
    while i < |vs|
      invariant 0 <= i <= |vs|
      invariant kept == Filtered(vs[..i], opt, search, user, backup, local)
    {
      var (h, e) := vs[i];
      assert vs[..i + 1][..i] == vs[..i];
      var skip := false;
      if opt == AvailableOnly && (e.deleted || !backup(h)) {
        skip := true;
      }
      if opt == DeletedOnly && !e.deleted {
        skip := true;
      }
      if opt == MyVersions && e.username != user {
        skip := true;
      }
      if !skip && search != [] {
        var message := Lower(e.commitMessage);
        var name := Lower(e.username);
        var time := Lower(local(e.timestamp.GetOr("")));
        if !Contains(message, search) && !Contains(name, search) && !Contains(time, search) &&
           !Contains(Lower(h), search) {
          skip := true;
        }
      }
      if !skip {
        kept := kept + [(h, e)];
      }
      i := i + 1;
    }
    assert vs[..|vs|] == vs;
  }

  /** The filter keeps exactly the versions that pass. */
  lemma {:induction false} FilteredMembers(vs: seq<(Hash, VersionEntry)>, opt: FilterOption, search: string,
                                           user: string, backup: Hash -> bool, local: string -> string,
                                           x: (Hash, VersionEntry))
    ensures x in Filtered(vs, opt, search, user, backup, local) <==> x in vs && Keep(opt, search, user, backup, local, x)
  {
    if vs != [] {
      var init := vs[..|vs| - 1];
      FilteredMembers(init, opt, search, user, backup, local, x);
      assert vs == init + [vs[|vs| - 1]];
    }
  }

  /** The filter distributes over concatenation, so it keeps the loaded order. */
  lemma {:induction false} FilteredAppend(a: seq<(Hash, VersionEntry)>, b: seq<(Hash, VersionEntry)>,
                                          opt: FilterOption, search: string, user: string,
                                          backup: Hash -> bool, local: string -> string)
    ensures Filtered(a + b, opt, search, user, backup, local) ==
            Filtered(a, opt, search, user, backup, local) + Filtered(b, opt, search, user, backup, local)
    decreases |b|
  {
    if b == [] {
      assert a + b == a;
    } else {
      var ib := b[..|b| - 1];
      assert (a + b)[..|a + b| - 1] == a + ib;
      FilteredAppend(a, ib, opt, search, user, backup, local);
    }
  }

  /** "All Versions" with an empty search shows every loaded version. */
  lemma {:induction false} AllWithoutSearchKeepsAll(vs: seq<(Hash, VersionEntry)>, user: string,
                                                    backup: Hash -> bool, local: string -> string)
    ensures Filtered(vs, AllVersions, "", user, backup, local) == vs
  {
    if vs != [] {
      AllWithoutSearchKeepsAll(vs[..|vs| - 1], user, backup, local);
    }
  }

  /** The placeholder text, in any case, is no search at all. */
  lemma PlaceholderIsNoSearch()
    ensures SearchText("Search versions...") == ""
  {
    assert Lower("Search versions...") == Placeholder;
  }

  /** "Available Only" shows only restorable rows; "Deleted Only" only deleted
      ones; "My Versions" only the user's own. */
  lemma FilterOptionsMean(vs: seq<(Hash, VersionEntry)>, search: string, user: string,
                          backup: Hash -> bool, local: string -> string, x: (Hash, VersionEntry))
    ensures x in Filtered(vs, AvailableOnly, search, user, backup, local) ==>
      !x.1.deleted && backup(x.0) && IsRestorable([RowTag(x.1.deleted, backup(x.0))], StatusText(x.1.deleted, backup(x.0)))
    ensures x in Filtered(vs, DeletedOnly, search, user, backup, local) ==> x.1.deleted
    ensures x in Filtered(vs, MyVersions, search, user, backup, local) ==> x.1.username == user
  {
    FilteredMembers(vs, AvailableOnly, search, user, backup, local, x);
    FilteredMembers(vs, DeletedOnly, search, user, backup, local, x);
    FilteredMembers(vs, MyVersions, search, user, backup, local, x);
  }

  // ---------------------------------------------------------------------
  // The rows shown
  // ---------------------------------------------------------------------

  /** The sort key of _populate_version_tree: the parsed timestamp when the
      key is present (None when it does not parse and strptime raises),
      `datetime.min` when it is absent. */
  function DisplayKey(e: VersionEntry): Option<int> {
    match e.timestamp
    case None => Some(MinKey)
    case Some(s) => ParseTimestamp(s)
  }

  function PairKey(x: (Hash, VersionEntry)): int {
    DisplayKey(x.1).GetOr(MinKey)
  }

  /** The display order: newest first, stable on ties; None when some present
      timestamp does not parse, which aborts the refresh in the source. */
  function DisplayOrder(vs: seq<(Hash, VersionEntry)>): (r: Option<seq<(Hash, VersionEntry)>>)
    ensures r.Some? <==> forall i :: 0 <= i < |vs| ==> DisplayKey(vs[i].1).Some?
  {
    if forall i :: 0 <= i < |vs| ==> DisplayKey(vs[i].1).Some? then Some(SortNewestFirst(vs, PairKey)) else None
  }

  /** The shown order is a newest-first permutation of the filtered versions
      that keeps the filtered order among equally old ones; versions without
      a timestamp sort last. */
  lemma DisplayOrderSpec(vs: seq<(Hash, VersionEntry)>)
    requires DisplayOrder(vs).Some?
    ensures var r := DisplayOrder(vs).value;
      multiset(r) == multiset(vs) && SortedDesc(r, PairKey) &&
      forall k :: WithKey(r, PairKey, k) == WithKey(vs, PairKey, k)
  {
    SortIsStable(vs, PairKey);
  }

  /** A parsed timestamp is never older than a missing one. */
  lemma MissingTimestampSortsLast(e: VersionEntry)
    requires DisplayKey(e).Some?
    ensures PairKey((" ", e)) >= PairKey((" ", e.(timestamp := None)))
  {
  }

  /** `version_hash[:12] + "..."`. */
  function ShortHash(h: Hash): (r: string)
    ensures |r| == (if |h| < 12 then |h| else 12) + 3
    ensures r[..|r| - 3] == h[..|r| - 3] && r[|r| - 3..] == "..."
  {
    (if |h| < 12 then h else h[..12]) + "..."
  }

  /** One row of the version tree, without the size column. */
  datatype Row = Row(hash: Hash, localTime: string, message: string, user: string,
                     shortHash: string, status: string, tags: seq<string>)

  function RowOf(x: (Hash, VersionEntry), backup: Hash -> bool, local: string -> string): Row {
    var (h, e) := x;
    Row(h, local(e.timestamp.GetOr("N/A")), e.commitMessage, e.username, ShortHash(h),
        StatusText(e.deleted, backup(h)), [RowTag(e.deleted, backup(h))])
  }

  /** The insertion loop of _populate_version_tree (restore_page.py:888-899). */
  method BuildRows(sorted: seq<(Hash, VersionEntry)>, backup: Hash -> bool, local: string -> string)
    returns (rows: seq<Row>)
    ensures |rows| == |sorted|
    ensures forall i :: 0 <= i < |rows| ==> rows[i] == RowOf(sorted[i], backup, local)
  {
    rows := [];
    for i := 0 to |sorted|
      invariant |rows| == i
      invariant forall j :: 0 <= j < i ==> rows[j] == RowOf(sorted[j], backup, local)
    {
      rows := rows + [RowOf(sorted[i], backup, local)];
    }
  }

  /** Every row's restorability is the existence of its backup. */
  lemma RowRestorable(x: (Hash, VersionEntry), backup: Hash -> bool, local: string -> string)
    ensures var r := RowOf(x, backup, local); IsRestorable(r.tags, r.status) <==> backup(x.0)
  {
    RestorableIffBackupExists(x.1.deleted, backup(x.0));
  }

  /** Decimal text of a count, as an f-string writes it. */
  function CountText(n: nat): (r: string)
    ensures r != [] && AllDigits(r) && DigitsValue(r) == n
    ensures |r| > 1 ==> r[0] != '0'
  {
    if n < 10 then [DigitChar(n)]
    else
      var r := CountText(n / 10) + [DigitChar(n % 10)];
      assert r[..|r| - 1] == CountText(n / 10);
      r
  }

  /** The count label: "<number of rows> versions shown". */
  function CountLabel(rows: seq<Row>): string {
    CountText(|rows|) + " versions shown"
  }

  /** The label states the number of rows shown, and an empty filter result
      reads "0 versions shown". */
  lemma CountLabelCounts(rows: seq<Row>)
    ensures var l := CountLabel(rows); var n := |l| - |" versions shown"|;
      0 < n && l[n..] == " versions shown" && AllDigits(l[..n]) && DigitsValue(l[..n]) == |rows|
    ensures rows == [] ==> CountLabel(rows) == "0 versions shown"
  {
    var l := CountLabel(rows);
    assert l[..|CountText(|rows|)|] == CountText(|rows|);
  }
}
