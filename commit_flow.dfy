/** The commit page (ui/pages/commit_page.py): message suggestions, the
    backup count, the guard in front of a commit, and the order of the
    commit steps. The file system is a parameter (whether the selected file
    exists) and the backup manager is a store of backup files by hash. */
module CommitFlow {
  import opened Wrappers
  import opened Text
  import opened VersionIndex
  import opened Retention
  import opened Manager

  // ---------------------------------------------------------------------
  // Paths
  // ---------------------------------------------------------------------

  /** The position of the last `c` in `s`. */
  function LastIndexOf(s: string, c: char): (r: Option<nat>)
    ensures r.Some? ==> r.value < |s| && s[r.value] == c && c !in s[r.value + 1..]
    ensures r.None? ==> c !in s
  {
    if s == [] then None
    else if s[|s| - 1] == c then Some(|s| - 1)
    else
      var r := LastIndexOf(s[..|s| - 1], c);
      assert r.Some? ==> s[r.value + 1..] == s[..|s| - 1][r.value + 1..] + [s[|s| - 1]];
      assert s == s[..|s| - 1] + [s[|s| - 1]];
      r
  }

  /** `r` is a suffix of `s`. */
  predicate EndsWith(s: string, r: string) {
    |r| <= |s| && r == s[|s| - |r|..]
  }

  /** `os.path.basename` with '/' as the separator. */
  function Basename(path: string): (r: string)
    ensures EndsWith(path, r) && '/' !in r
    ensures |r| == |path| || path[|path| - |r| - 1] == '/'
  {
    match LastIndexOf(path, '/')
    case None => path
    case Some(i) => path[i + 1..]
  }

  /** Some character before position d of the base name is not a dot. */
  predicate HasStem(b: string, d: nat)
    requires d <= |b|
  {
    exists k :: 0 <= k < d && b[k] != '.'
  }

  /** `os.path.splitext(path)[1]`: from the last dot of the base name, unless
      only dots precede it there (".bashrc" has no extension). */
  function Extension(path: string): string {
    BaseExtension(Basename(path))
  }

  /** Some dot of the base name has a character other than a dot before it. */
  predicate HasStemmedDot(b: string) {
    exists k, i :: 0 <= k < i < |b| && b[k] != '.' && b[i] == '.'
  }

  /** splitext gives an extension exactly when the base name has a dot with
      some other character before it, and the extension is then the base
      name from its last dot: a '/'-free suffix of the path. */
  lemma ExtensionSpec(path: string)
    ensures var b := Basename(path); var r := Extension(path);
      (r != [] <==> HasStemmedDot(b)) &&
      (r != [] ==> r[0] == '.' && '.' !in r[1..] && EndsWith(b, r) && EndsWith(path, r) && '/' !in r)
  {
    var b := Basename(path);
    SuffixOfSuffix(path, b, BaseExtension(b));
  }

  /** The extension part of a base name: from its last dot, when something
      other than a dot precedes that dot. */
  function BaseExtension(b: string): (r: string)
    ensures r != [] <==> HasStemmedDot(b)
    ensures r != [] ==> r[0] == '.' && EndsWith(b, r) && '.' !in r[1..]
  {
    var d := LastIndexOf(b, '.');
    if d.Some? && HasStem(b, d.value) then
      assert b[d.value..][1..] == b[d.value + 1..];
      b[d.value..]
    else
      assert forall i :: 0 <= i < |b| && b[i] == '.' ==> d.Some? && i <= d.value by {
        forall i | 0 <= i < |b| && b[i] == '.' ensures d.Some? && i <= d.value {
          DotBeforeLast(b, i);
        }
      }
      ""
  }

  /** No dot comes after the last one. */
  lemma DotBeforeLast(b: string, i: nat)
    requires i < |b| && b[i] == '.'
    ensures LastIndexOf(b, '.').Some? && i <= LastIndexOf(b, '.').value
  {
  }

  /** A suffix of a '/'-free suffix of `path` is a '/'-free suffix of `path`. */
  lemma SuffixOfSuffix(path: string, b: string, r: string)
    requires EndsWith(path, b) && '/' !in b
    requires EndsWith(b, r)
    ensures EndsWith(path, r) && '/' !in r
  {
    forall i | 0 <= i < |r| ensures r[i] != '/' {
      assert r[i] == b[|b| - |r| + i];
    }
  }

  // ---------------------------------------------------------------------
  // Suggestions
  // ---------------------------------------------------------------------

  /** Keeps the first occurrence of every non-empty item, in order (the
      `seen` loops of commit_page.py:725-731 and 778-783). */
  function Dedup(items: seq<string>): (r: seq<string>)
  {
    if items == [] then []
    else
      var d := Dedup(items[..|items| - 1]);
      var last := items[|items| - 1];
      if last != [] && last !in d then d + [last] else d
  }

  method UniqueNonEmpty(items: seq<string>) returns (unique: seq<string>)
    ensures unique == Dedup(items)
  {
    unique := [];
    var seen: set<string> := {};
    var i := 0;
    while i < |items|
      invariant 0 <= i <= |items|
      invariant unique == Dedup(items[..i])
      invariant seen == set x | x in unique
    {
      var item := items[i];
      assert items[..i + 1][..i] == items[..i];
      if item != [] && item !in seen {
        unique := unique + [item];
        seen := seen + {item};
      }
      i := i + 1;
    }
    assert items[..|items|] == items;
  }

  /** The de-duplicated list: no empty item, no repeat, and exactly the
      non-empty items of the input. */
  lemma DedupSpec(items: seq<string>)
    ensures var r := Dedup(items);
      (forall x :: x in r <==> x in items && x != []) &&
      (forall i, j :: 0 <= i < j < |r| ==> r[i] != r[j])
  {
    DedupMembers(items);
    DedupDistinct(items);
  }

  lemma {:induction false} DedupMembers(items: seq<string>)
    ensures forall x :: x in Dedup(items) <==> x in items && x != []
  {
    if items != [] {
      var init := items[..|items| - 1];
      DedupMembers(init);
      assert items == init + [items[|items| - 1]];
    }
  }

  lemma {:induction false} DedupDistinct(items: seq<string>)
    ensures forall i, j :: 0 <= i < j < |Dedup(items)| ==> Dedup(items)[i] != Dedup(items)[j]
  {
    if items != [] {
      var init := items[..|items| - 1];
      var last := items[|items| - 1];
      var d := Dedup(init);
      DedupDistinct(init);
      if last != [] && last !in d {
        var r := d + [last];
        assert Dedup(items) == r;
        forall i, j | 0 <= i < j < |r| ensures r[i] != r[j] {
          assert r[i] == d[i];
          if j < |d| {
            assert r[j] == d[j];
          } else {
            assert d[i] in d;
            assert r[j] == last;
          }
        }
      } else {
        assert Dedup(items) == d;
      }
    }
  }

  /** Order: what is kept of a prefix is a prefix of what is kept of the
      whole, so earlier items come first. */
  lemma {:induction false} DedupPrefix(a: seq<string>, b: seq<string>)
    ensures |Dedup(a)| <= |Dedup(a + b)| && Dedup(a + b)[..|Dedup(a)|] == Dedup(a)
    decreases |b|
  {
    if b == [] {
      assert a + b == a;
    } else {
      var ib := b[..|b| - 1];
      assert (a + b)[..|a + b| - 1] == a + ib;
      DedupPrefix(a, ib);
    }
  }

  /** A list without empty items or repeats is left as it is. */
  lemma {:induction false} DedupOfUnique(items: seq<string>)
    requires forall i :: 0 <= i < |items| ==> items[i] != []
    requires forall i, j :: 0 <= i < j < |items| ==> items[i] != items[j]
    ensures Dedup(items) == items
  {
    if items != [] {
      var init := items[..|items| - 1];
      DedupOfUnique(init);
      assert items[|items| - 1] !in init by {
        forall k | 0 <= k < |init| ensures init[k] != items[|items| - 1] {
          assert init[k] == items[k];
        }
      }
    }
  }

  /** The commit messages of a version list, in its order. */
  function Messages(active: seq<(Hash, VersionEntry)>): (m: seq<string>)
    ensures |m| == |active| && forall i :: 0 <= i < |active| ==> m[i] == active[i].1.commitMessage
  {
    seq(|active|, i requires 0 <= i < |active| => active[i].1.commitMessage)
  }

  /** _get_past_commit_messages over the list get_active_file_versions
      returns: the non-empty messages, each once, in list order. */
  function PastMessages(active: seq<(Hash, VersionEntry)>): seq<string> {
    Dedup(Messages(active))
  }

  /** _get_past_commit_messages for a path of the index; [] for an untracked
      path, for which get_active_file_versions returns []. */
  function PastMessagesOf(files: Index, path: Path): seq<string> {
    PastMessages(if path in files then NewestFirstActive(files[path].versions) else [])
  }

  /** The position of the first `x` in `s`. */
  function FirstIndex(s: seq<string>, x: string): (k: nat)
    requires x in s
    ensures k < |s| && s[k] == x && x !in s[..k]
  {
    if s[0] == x then 0
    else
      var k := FirstIndex(s[1..], x);
      assert s[..k + 1] == [s[0]] + s[1..][..k];
      k + 1
  }

  lemma FirstIndexUnique(s: seq<string>, x: string, k: nat)
    requires k < |s| && s[k] == x && x !in s[..k]
    ensures FirstIndex(s, x) == k
  {
    var f := FirstIndex(s, x);
    assert forall t :: 0 <= t < k ==> s[..k][t] == s[t];
    assert forall t :: 0 <= t < f ==> s[..f][t] == s[t];
  }

  lemma FirstIndexSnoc(init: seq<string>, y: string, x: string)
    requires x in init
    ensures x in init + [y] && FirstIndex(init + [y], x) == FirstIndex(init, x)
  {
    var k := FirstIndex(init, x);
    assert (init + [y])[..k] == init[..k];
    FirstIndexUnique(init + [y], x, k);
  }

  /** The items of `r` occur in `items`, and in the order of their first
      occurrences there. */
  predicate InFirstOccurrenceOrder(items: seq<string>, r: seq<string>) {
    forall i, j :: 0 <= i < j < |r| ==>
      r[i] in items && r[j] in items && FirstIndex(items, r[i]) < FirstIndex(items, r[j])
  }

  /** Order: the kept items appear in the order of their first occurrences. */
  lemma {:induction false} DedupFirstOrder(items: seq<string>)
    ensures InFirstOccurrenceOrder(items, Dedup(items))
  {
    if items != [] {
      var init := items[..|items| - 1];
      var last := items[|items| - 1];
      var d := Dedup(init);
      assert items == init + [last];
      DedupFirstOrder(init);
      DedupMembers(init);
      forall x | x in d ensures x in items && FirstIndex(items, x) == FirstIndex(init, x) < |init| {
        FirstIndexSnoc(init, last, x);
      }
      if last != [] && last !in d {
        assert last !in init;
        assert items[..|init|] == init;
        FirstIndexUnique(items, last, |init|);
        var r := d + [last];
        assert Dedup(items) == r;
        forall i, j | 0 <= i < j < |r|
          ensures r[i] in items && r[j] in items && FirstIndex(items, r[i]) < FirstIndex(items, r[j])
        {
          assert r[i] == d[i] && d[i] in d;
          FirstIndexSnoc(init, last, d[i]);
          if j < |d| {
            assert r[j] == d[j] && d[j] in d;
            FirstIndexSnoc(init, last, d[j]);
            assert FirstIndex(init, d[i]) < FirstIndex(init, d[j]);
          } else {
            assert r[j] == last;
          }
        }
      } else {
        assert Dedup(items) == d;
        forall i, j | 0 <= i < j < |d|
          ensures d[i] in items && d[j] in items && FirstIndex(items, d[i]) < FirstIndex(items, d[j])
        {
          assert d[i] in d && d[j] in d;
          FirstIndexSnoc(init, last, d[i]);
          FirstIndexSnoc(init, last, d[j]);
          assert FirstIndex(init, d[i]) < FirstIndex(init, d[j]);
        }
      }
    }
  }

  /** The past messages of a tracked file are exactly the non-empty messages
      of its active versions with a valid timestamp, each once, ordered by
      their first occurrence in the newest-first list, so a message of a
      newer version comes before one that only older versions carry. */
  lemma PastMessagesSpec(files: Index, path: Path)
    requires WellFormed(files)
    ensures var r := PastMessagesOf(files, path);
      var a := if path in files then NewestFirstActive(files[path].versions) else [];
      var m := Messages(a);
      (forall x :: x in r <==>
         (x != [] && path in files &&
          exists i :: 0 <= i < |files[path].versions| && IsCandidate(files[path].versions[i].1) &&
                      files[path].versions[i].1.commitMessage == x)) &&
      (forall i, j :: 0 <= i < j < |r| ==> r[i] != r[j]) &&
      InFirstOccurrenceOrder(m, r) &&
      (forall i, j :: 0 <= i < j < |r| && r[i] in m && r[j] in m ==>
         var p, q := FirstIndex(m, r[i]), FirstIndex(m, r[j]);
         IsCandidate(a[p].1) && IsCandidate(a[q].1) && ValidTime(a[p].1).value >= ValidTime(a[q].1).value)
  {
    var a := if path in files then NewestFirstActive(files[path].versions) else [];
    var m := Messages(a);
    var r := Dedup(m);
    DedupMembers(m);
    DedupDistinct(m);
    DedupFirstOrder(m);
    if path in files {
      var vs := files[path].versions;
      forall x ensures x in m <==>
        exists i :: 0 <= i < |vs| && IsCandidate(vs[i].1) && vs[i].1.commitMessage == x
      {
        ActiveMessages(vs, x);
      }
      NewestFirstActiveOrder(vs);
    }
    forall i, j | 0 <= i < j < |r| && r[i] in m && r[j] in m
      ensures var p, q := FirstIndex(m, r[i]), FirstIndex(m, r[j]);
        IsCandidate(a[p].1) && IsCandidate(a[q].1) && ValidTime(a[p].1).value >= ValidTime(a[q].1).value
    {
      assert FirstIndex(m, r[i]) < FirstIndex(m, r[j]);
    }
  }

  /** A message occurs in the newest-first list exactly when an active
      version with a valid timestamp carries it. */
  lemma ActiveMessages(vs: Versions, x: string)
    requires UniqueHashes(vs)
    ensures x in Messages(NewestFirstActive(vs)) <==>
      exists i :: 0 <= i < |vs| && IsCandidate(vs[i].1) && vs[i].1.commitMessage == x
  {
    var a := NewestFirstActive(vs);
    var m := Messages(a);
    if x in m {
      var p :| 0 <= p < |m| && m[p] == x;
      NewestFirstActiveMembers(vs, a[p].0, a[p].1);
      var i :| 0 <= i < |vs| && vs[i] == a[p];
      assert IsCandidate(vs[i].1) && vs[i].1.commitMessage == x;
    }
    if exists i :: 0 <= i < |vs| && IsCandidate(vs[i].1) && vs[i].1.commitMessage == x {
      var i :| 0 <= i < |vs| && IsCandidate(vs[i].1) && vs[i].1.commitMessage == x;
      NewestFirstActiveMembers(vs, vs[i].0, vs[i].1);
      var p :| 0 <= p < |a| && a[p] == vs[i];
      assert m[p] == x;
    }
  }

  datatype Category = Image | Document | Code | Other

  const ImageExtensions: seq<string> := [".jpg", ".jpeg", ".png", ".gif", ".bmp", ".svg", ".webp"]
  const DocumentExtensions: seq<string> := [".txt", ".md", ".doc", ".docx", ".pdf", ".rtf"]
  const CodeExtensions: seq<string> :=
    [".py", ".js", ".java", ".cpp", ".cs", ".html", ".css", ".php", ".rb", ".go"]

  /** The category chosen by the lower-cased extension. */
  function CategoryOf(ext: string): (c: Category)
    ensures c == Image <==> Lower(ext) in ImageExtensions
    ensures c == Document <==> Lower(ext) in DocumentExtensions && Lower(ext) !in ImageExtensions
    ensures c == Code <==> Lower(ext) in CodeExtensions && Lower(ext) !in ImageExtensions + DocumentExtensions
  {
    var e := Lower(ext);
    if e in ImageExtensions then Image
    else if e in DocumentExtensions then Document
    else if e in CodeExtensions then Code
    else Other
  }

  /** The fixed suggestions of each category (commit_page.py:690-721). */
  function CategorySuggestions(c: Category, filename: string): seq<string> {
    match c
    case Image => ["Update " + filename, "Image adjustments", "Optimize image quality", "Resize image"]
    case Document => ["Update document content", "Fix typos and formatting", "Revise " + filename,
                      "Update documentation"]
    case Code => ["Implement new feature", "Fix bug in code", "Code optimization",
                  "Add documentation/comments", "Refactor for readability"]
    case Other => ["Update " + filename, "Minor changes", "Fix issues", "Routine update"]
  }

  /** The at most two most recent past messages, empty ones dropped. */
  function Recent(past: seq<string>): seq<string> {
    var p := if |past| <= 2 then past else past[..2];
    Dedup(p)
  }

  /** _get_contextual_suggestions for the selected file, whose past messages
      come from the index. */
  function ContextualSuggestions(files: Index, selected: string): seq<string> {
    if selected == [] then []
    else
      var past := PastMessagesOf(files, selected);
      Dedup(Recent(past) + CategorySuggestions(CategoryOf(Extension(selected)), Basename(selected)))
  }

  /** The suggestions start with the file's two most recent past messages (or
      all of them when it has fewer), are free of repeats and empty items,
      and consist of exactly those messages and the suggestions of the file's
      category. */
  lemma ContextualSuggestionsSpec(files: Index, selected: string)
    requires selected != []
    ensures var past := PastMessagesOf(files, selected);
      var r := ContextualSuggestions(files, selected); var rec := Recent(past);
      rec == (if |past| <= 2 then past else past[..2]) &&
      |rec| <= |r| && r[..|rec|] == rec &&
      (forall i, j :: 0 <= i < j < |r| ==> r[i] != r[j]) &&
      (forall x :: x in r <==> x in rec || x in CategorySuggestions(CategoryOf(Extension(selected)), Basename(selected)))
  {
    var past := PastMessagesOf(files, selected);
    var rec := Recent(past);
    var cat := CategorySuggestions(CategoryOf(Extension(selected)), Basename(selected));
    RecentOfPast(files, selected);
    RecentSpec(past);
    DedupAfterUnique(rec, cat);
    CategoryNonEmpty(CategoryOf(Extension(selected)), Basename(selected));
  }

  /** Past messages are already distinct and non-empty, so the recent ones
      are just the first two. */
  lemma RecentOfPast(files: Index, path: Path)
    ensures var past := PastMessagesOf(files, path);
      Recent(past) == (if |past| <= 2 then past else past[..2])
  {
    var past := PastMessagesOf(files, path);
    var p := if |past| <= 2 then past else past[..2];
    PastMessagesUnique(files, path);
    assert forall i :: 0 <= i < |p| ==> p[i] == past[i];
    DedupOfUnique(p);
  }

  /** Past messages are non-empty and distinct. */
  lemma PastMessagesUnique(files: Index, path: Path)
    ensures var past := PastMessagesOf(files, path);
      (forall i :: 0 <= i < |past| ==> past[i] != []) &&
      (forall i, j :: 0 <= i < j < |past| ==> past[i] != past[j])
  {
    var past := PastMessagesOf(files, path);
    var m := Messages(if path in files then NewestFirstActive(files[path].versions) else []);
    assert past == Dedup(m);
    DedupSpec(m);
    assert forall i :: 0 <= i < |past| ==> past[i] in past;
  }

  /** `[msg for msg in past_messages[:2] if msg]`, in order and free of
      repeats: exactly the non-empty messages among the first two. */
  lemma RecentSpec(past: seq<string>)
    ensures var p := if |past| <= 2 then past else past[..2]; var rec := Recent(past);
      |rec| <= 2 &&
      (forall x :: x in rec <==> x in p && x != []) &&
      InFirstOccurrenceOrder(p, rec) &&
      (forall i :: 0 <= i < |rec| ==> rec[i] != []) &&
      (forall i, j :: 0 <= i < j < |rec| ==> rec[i] != rec[j])
  {
    var p := if |past| <= 2 then past else past[..2];
    var rec := Recent(past);
    DedupSpec(p);
    DedupSize(p);
    DedupFirstOrder(p);
    forall i | 0 <= i < |rec| ensures rec[i] != [] {
      assert rec[i] in Dedup(p);
    }
  }

  /** De-duplicating a list free of repeats followed by more items keeps the
      list as its prefix. */
  lemma DedupAfterUnique(rec: seq<string>, more: seq<string>)
    requires forall i :: 0 <= i < |rec| ==> rec[i] != []
    requires forall i, j :: 0 <= i < j < |rec| ==> rec[i] != rec[j]
    ensures var r := Dedup(rec + more);
      |rec| <= |r| && r[..|rec|] == rec &&
      (forall i, j :: 0 <= i < j < |r| ==> r[i] != r[j]) &&
      (forall x :: x in r <==> x in rec || (x in more && x != []))
  {
    DedupSpec(rec + more);
    DedupPrefix(rec, more);
    DedupOfUnique(rec);
  }

  lemma CategoryNonEmpty(c: Category, filename: string)
    ensures forall x :: x in CategorySuggestions(c, filename) ==> x != []
  {
  }

  lemma {:induction false} DedupSize(items: seq<string>)
    ensures |Dedup(items)| <= |items|
  {
    if items != [] {
      DedupSize(items[..|items| - 1]);
    }
  }

  /** What typing into the message box shows: the default suggestions for
      input shorter than two characters, else the filtered ones. */
  datatype SuggestionView = Defaults | Matching(items: seq<string>)

  /** `entry.lower().strip()`. */
  function TypedText(entry: string): string {
    Strip(Lower(entry))
  }

  /** Suggestions containing the typed text, ignoring case, but not equal to it. */
  function MatchingSuggestions(all: seq<string>, current: string): (r: seq<string>) {
    if all == [] then []
    else
      var init := MatchingSuggestions(all[..|all| - 1], current);
      var s := all[|all| - 1];
      if Contains(Lower(s), current) && Lower(s) != current then init + [s] else init
  }

  /** _suggest_messages (commit_page.py:795-830): the contextual suggestions
      filtered by the typed text. */
  function SuggestMessages(files: Index, selected: string, entry: string): SuggestionView {
    var current := TypedText(entry);
    if |current| < 2 then Defaults
    else Matching(MatchingSuggestions(ContextualSuggestions(files, selected), current))
  }

  /** Typed text shorter than two characters keeps the default suggestions;
      longer text offers exactly the contextual suggestions that contain it,
      ignoring case, without the one equal to it. */
  lemma SuggestMessagesSpec(files: Index, selected: string, entry: string)
    ensures var v := SuggestMessages(files, selected, entry); var current := TypedText(entry);
      (v.Defaults? <==> |current| < 2) &&
      (v.Matching? ==> forall x :: x in v.items <==>
         x in ContextualSuggestions(files, selected) && Contains(Lower(x), current) && Lower(x) != current)
  {
    var current := TypedText(entry);
    forall x ensures x in MatchingSuggestions(ContextualSuggestions(files, selected), current) <==>
      x in ContextualSuggestions(files, selected) && Contains(Lower(x), current) && Lower(x) != current
    {
      MatchingSpec(ContextualSuggestions(files, selected), current, x);
    }
  }

  /** A suggestion is offered exactly when it contains the typed text and is
      not the typed text itself, ignoring case. */
  lemma {:induction false} MatchingSpec(all: seq<string>, current: string, x: string)
    ensures x in MatchingSuggestions(all, current) <==>
      x in all && Contains(Lower(x), current) && Lower(x) != current
  {
    if all != [] {
      var init := all[..|all| - 1];
      MatchingSpec(init, current, x);
      assert all == init + [all[|all| - 1]];
    }
  }

  /** Only the first four suggestions get a button. */
  function Shown(items: seq<string>): (r: seq<string>)
    ensures |r| <= 4 && |r| <= |items| && r == items[..|r|] && (|items| >= 4 ==> |r| == 4)
    ensures |items| < 4 ==> r == items
  {
    if |items| <= 4 then items else items[..4]
  }

  // ---------------------------------------------------------------------
  // Backup count
  // ---------------------------------------------------------------------

  /** The fallback of _get_backup_count: the versions not marked deleted. */
  function CountNotDeleted(vs: Versions): (n: nat)
    ensures n <= |vs|
  {
    if vs == [] then 0
    else CountNotDeleted(vs[..|vs| - 1]) + (if vs[|vs| - 1].1.deleted then 0 else 1)
  }

  /** _get_backup_count: the number of active versions get_active_file_versions
      returns, 0 for an untracked file. */
  function BackupCount(files: Index, path: Path): nat {
    if path in files then |NewestFirstActive(files[path].versions)| else 0
  }

  function FallbackBackupCount(files: Index, path: Path): nat {
    if path in files then CountNotDeleted(files[path].versions) else 0
  }

  /** The two counts agree unless some active version has an invalid
      timestamp, which get_active_file_versions skips and the fallback counts. */
  lemma {:induction false} CountsAgree(vs: Versions)
    ensures |ActiveValid(vs)| <= CountNotDeleted(vs)
    ensures |ActiveValid(vs)| == CountNotDeleted(vs) <==>
      forall i :: 0 <= i < |vs| && !vs[i].1.deleted ==> ValidTime(vs[i].1).Some?
  {
    if vs != [] {
      var init := vs[..|vs| - 1];
      CountsAgree(init);
      assert forall i :: 0 <= i < |init| ==> init[i] == vs[i];
    }
  }

  lemma BackupCountVsFallback(files: Index, path: Path)
    ensures BackupCount(files, path) <= FallbackBackupCount(files, path)
    ensures path in files ==>
      (BackupCount(files, path) == FallbackBackupCount(files, path) <==>
       forall i :: 0 <= i < |files[path].versions| && !files[path].versions[i].1.deleted ==>
         ValidTime(files[path].versions[i].1).Some?)
  {
    if path in files {
      CountsAgree(files[path].versions);
    }
  }

  // ---------------------------------------------------------------------
  // Starting a commit, and its steps
  // ---------------------------------------------------------------------

  /** What pressing "Commit" leads to (commit_page.py:1155-1176). */
  datatype CommitStart = NoFileSelected | NoMessage | Start(message: string)

  function CommitGuard(selected: string, fileExists: bool, entry: string): CommitStart {
    if selected == [] || !fileExists then NoFileSelected
    else if Strip(entry) == [] then NoMessage
    else Start(Strip(entry))
  }

  /** The feedback shown when the commit does not start. */
  function Feedback(s: CommitStart): string {
    match s
    case NoFileSelected => "No valid file selected!"
    case NoMessage => "Please enter a commit message!"
    case Start(_) => ""
  }

  /** A commit starts exactly for an existing file and a message with some
      non-whitespace character, and its message is the stripped entry. */
  lemma CommitGuardSpec(selected: string, fileExists: bool, entry: string)
    ensures var g := CommitGuard(selected, fileExists, entry);
      (g.NoFileSelected? <==> selected == [] || !fileExists) &&
      (g.NoMessage? <==> selected != [] && fileExists && forall i :: 0 <= i < |entry| ==> IsSpace(entry[i])) &&
      (Feedback(g) == [] <==> g.Start?) &&
      (g.Start? <==> selected != [] && fileExists && exists i :: 0 <= i < |entry| && !IsSpace(entry[i])) &&
      (g.Start? ==> g.message != [] && !IsSpace(g.message[0]) && !IsSpace(g.message[|g.message| - 1]) &&
                    Strip(g.message) == g.message)
  {
    var g := CommitGuard(selected, fileExists, entry);
    StripBlank(entry);
    if selected != [] && fileExists && Strip(entry) != [] {
      assert g == Start(Strip(entry));
      StripUntrimmed(Strip(entry));
    }
  }

  /** strip() leaves nothing exactly when every character is whitespace. */
  lemma StripBlank(entry: string)
    ensures Strip(entry) == [] <==> forall i :: 0 <= i < |entry| ==> IsSpace(entry[i])
    ensures Strip(entry) != [] <==> exists i :: 0 <= i < |entry| && !IsSpace(entry[i])
  {
  }

  /** What the backup manager did, in order. */
  datatype BackupEvent = Created(hash: Hash) | DeletedBackups(hashes: seq<Hash>)

  /** The backup files of the selected file, by version hash. */
  class BackupStore {
    var backups: set<Hash>
    var log: seq<BackupEvent>
    /** Whether create_backup succeeds. */
    const canCreate: bool

    constructor (initial: set<Hash>, creates: bool)
      ensures backups == initial && log == [] && canCreate == creates
    {
      backups, log, canCreate := initial, [], creates;
    }

    /** create_backup: true when the backup file was written. */
    method CreateBackup(h: Hash) returns (ok: bool)
      modifies this
      ensures ok == canCreate
      ensures backups == (if ok then old(backups) + {h} else old(backups))
      ensures log == (if ok then old(log) + [Created(h)] else old(log))
    {
      ok := canCreate;
      if ok {
        backups := backups + {h};
        log := log + [Created(h)];
      }
    }

    /** delete_backup_files. */
    method DeleteBackupFiles(hs: seq<Hash>)
      modifies this
      ensures backups == old(backups) - (set h | h in hs)
      ensures log == old(log) + [DeletedBackups(hs)]
    {
      backups := backups - (set h | h in hs);
      log := log + [DeletedBackups(hs)];
    }
  }

  datatype CommitResult = Succeeded | Failed(reason: string) | Cancelled

  /** The backups after add_version returned `marked`: those hashes lose
      their file. */
  function BackupsAfter(before: set<Hash>, marked: seq<Hash>): set<Hash> {
    before - (set x | x in marked)
  }

  /** _execute_commit_steps: create the backup, read the metadata, record the
      version, then delete exactly the backups add_version returned. `meta`
      is what get_file_metadata gives (None when it fails); `loadNow`,
      `commitSaves`, `enforceNow` and `retentionSaves` are add_version's
      clock readings and save outcomes. */
  method ExecuteCommitSteps(store: BackupStore, vm: VersionManager, path: Path, h: Hash, msg: string,
                            meta: Option<Metadata>, now: string, user: string, loadNow: string,
                            commitSaves: bool, enforceNow: string, retentionSaves: bool)
    returns (result: CommitResult)
    requires vm.Valid()
    modifies store, vm
    ensures vm.Valid()
    ensures !store.canCreate ==>
      result == Failed("Backup file creation failed.") &&
      store.backups == old(store.backups) && store.log == old(store.log) &&
      vm.disk == old(vm.disk) && vm.quarantined == old(vm.quarantined)
    ensures store.canCreate && meta.None? ==>
      result == Failed("Failed to retrieve file metadata for commit.") &&
      store.backups == old(store.backups) + {h} && store.log == old(store.log) + [Created(h)] &&
      vm.disk == old(vm.disk) && vm.quarantined == old(vm.quarantined)
    ensures store.canCreate && meta.Some? ==>
      var marked := AddVersionMarks(old(vm.disk), vm.capSetting, path, h, meta.value, msg, now, user,
                                    commitSaves, retentionSaves);
      result == Succeeded &&
      vm.disk == AddVersionDisk(old(vm.disk), vm.capSetting, path, h, meta.value, msg, now, user,
                                commitSaves, enforceNow, retentionSaves) &&
      vm.quarantined == old(vm.quarantined) + QuarantinedBy(old(vm.disk), vm.trackedFilesPath, loadNow) &&
      store.backups == BackupsAfter(old(store.backups) + {h}, marked) &&
      store.log == old(store.log) + [Created(h)] + (if marked == [] then [] else [DeletedBackups(marked)])
  {
    var ok := store.CreateBackup(h);
    if !ok {
      return Failed("Backup file creation failed.");
    }
    if meta.None? {
      return Failed("Failed to retrieve file metadata for commit.");
    }
    var toDelete := vm.AddVersion(path, h, meta.value, msg, now, user, loadNow, commitSaves, enforceNow, retentionSaves);
    if |toDelete| > 0 {
      store.DeleteBackupFiles(toDelete);
    }
    result := Succeeded;
  }

  /** _perform_commit with the answer to the "No Changes Detected" dialog:
      load the index (renaming a corrupt one under the time `loadNow`), ask
      has_file_changed, and commit an unchanged file only when the user
      confirms. The commit records the current hash has_file_changed gave. */
  method PerformCommit(store: BackupStore, vm: VersionManager, path: Path, current: Option<Hash>,
                       confirmed: bool, msg: string, meta: Option<Metadata>, now: string, user: string,
                       loadNow: string, commitSaves: bool, enforceNow: string, retentionSaves: bool)
    returns (result: CommitResult)
    requires vm.Valid()
    modifies store, vm
    ensures vm.Valid()
    ensures vm.quarantined == old(vm.quarantined) + QuarantinedBy(old(vm.disk), vm.trackedFilesPath, loadNow)
    ensures var report := HasFileChanged(Loaded(old(vm.disk)), path, current);
      (result == Cancelled <==> !report.changed && !confirmed) &&
      (result == Cancelled ==>
         store.backups == old(store.backups) && store.log == old(store.log) && vm.disk == AfterLoad(old(vm.disk)))
    ensures var h := HasFileChanged(Loaded(old(vm.disk)), path, current).currentHash;
      result != Cancelled ==>
        (!store.canCreate ==>
           result == Failed("Backup file creation failed.") &&
           store.backups == old(store.backups) && store.log == old(store.log) &&
           vm.disk == AfterLoad(old(vm.disk))) &&
        (store.canCreate && meta.None? ==>
           result == Failed("Failed to retrieve file metadata for commit.") &&
           store.backups == old(store.backups) + {h} && store.log == old(store.log) + [Created(h)] &&
           vm.disk == AfterLoad(old(vm.disk))) &&
        (store.canCreate && meta.Some? ==>
           var marked := AddVersionMarks(old(vm.disk), vm.capSetting, path, h, meta.value, msg, now, user,
                                         commitSaves, retentionSaves);
           result == Succeeded &&
           vm.disk == AddVersionDisk(old(vm.disk), vm.capSetting, path, h, meta.value, msg, now, user,
                                     commitSaves, enforceNow, retentionSaves) &&
           store.backups == BackupsAfter(old(store.backups) + {h}, marked) &&
           store.log == old(store.log) + [Created(h)] + (if marked == [] then [] else [DeletedBackups(marked)]))
  {
    var files := vm.LoadTrackedFiles(loadNow);
    var report := HasFileChanged(files, path, current);
    if !report.changed && !confirmed {
      return Cancelled;
    }
    result := ExecuteCommitSteps(store, vm, path, report.currentHash, msg, meta, now, user, loadNow,
                                 commitSaves, enforceNow, retentionSaves);
  }
}
