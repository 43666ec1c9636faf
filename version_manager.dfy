/** The VersionManager of core/version_manager.py: change detection, the
    store behind `tracked_files.json`, add_version, the retention run and
    get_active_file_versions. The index is reloaded from the store by every
    operation, as in the source. */
module Manager {
  import opened Wrappers
  import opened Text
  import opened StableSort
  import opened VersionIndex
  import opened Retention
  import opened Timestamps

  // ---------------------------------------------------------------------
  // has_file_changed
  // ---------------------------------------------------------------------

  /** `(has_changed, current_hash, last_active_hash)`. */
  datatype ChangeReport = ChangeReport(changed: bool, currentHash: Hash, lastActiveHash: Hash)

  /** The `(hash_id, info)` pairs whose entry is not deleted, in insertion
      order (core/version_manager.py:56-59). */
  function ActiveEntries(vs: Versions): (r: Versions)
    ensures |r| <= |vs|
  {
    if vs == [] then []
    else (if !vs[0].1.deleted then [vs[0]] else []) + ActiveEntries(vs[1..])
  }

  function EntryTime(x: (Hash, VersionEntry)): int {
    ValidTime(x.1).GetOr(0)
  }

  /** Every active entry's timestamp parses, so the sort key never raises. */
  predicate ActiveTimesParse(vs: Versions) {
    forall x :: x in ActiveEntries(vs) ==> ValidTime(x.1).Some?
  }

  /** has_file_changed (core/version_manager.py:39-77). `current` is the hash
      of the file as read now, None when the file does not exist. A key error
      or parse error in the sort lands in the except branch, which reports a
      change with no last hash. */
  function HasFileChanged(files: Index, path: Path, current: Option<Hash>): ChangeReport {
    match current
    case None => ChangeReport(true, "", "")
    case Some(h) =>
      if path !in files || files[path].versions == [] then ChangeReport(true, h, "")
      else
        var active := ActiveEntries(files[path].versions);
        if active == [] then ChangeReport(true, h, "")
        else if !ActiveTimesParse(files[path].versions) then ChangeReport(true, h, "")
        else
          var last := SortNewestFirst(active, EntryTime)[0].0;
          ChangeReport(h != last, h, last)
  }

  lemma {:induction false} ActiveEntriesMembers(vs: Versions, x: (Hash, VersionEntry))
    ensures x in ActiveEntries(vs) <==> x in vs && !x.1.deleted
  {
    if vs != [] {
      ActiveEntriesMembers(vs[1..], x);
      assert vs == [vs[0]] + vs[1..];
    }
  }

  /** Untracked, no versions, or no active version: always "changed", with
      an empty last hash. */
  lemma NoActiveVersionMeansChanged(files: Index, path: Path, h: Hash)
    requires path !in files || forall i :: 0 <= i < |files[path].versions| ==> files[path].versions[i].1.deleted
    ensures HasFileChanged(files, path, Some(h)) == ChangeReport(true, h, "")
  {
    if path in files {
      var vs := files[path].versions;
      if ActiveEntries(vs) != [] {
        var x := ActiveEntries(vs)[0];
        ActiveEntriesMembers(vs, x);
      }
    }
  }

  /** Where the head of the sorted active entries sits in `vs`, and how many
      active entries precede it. */
  lemma NewestActivePosition(vs: Versions) returns (i: nat, a: nat)
    requires ActiveEntries(vs) != []
    ensures var active := ActiveEntries(vs);
      i < |vs| && a < |active| && vs[i] == SortNewestFirst(active, EntryTime)[0] && vs[i] == active[a] &&
      |ActiveEntries(vs[..i])| == a &&
      forall j :: 0 <= j < a ==> EntryTime(active[j]) < EntryTime(active[a])
  {
    var active := ActiveEntries(vs);
    FirstIsNewest(active, EntryTime);
    a :| 0 <= a < |active| && active[a] == SortNewestFirst(active, EntryTime)[0] &&
      forall j :: 0 <= j < a ==> EntryTime(active[j]) < EntryTime(active[a]);
    i := ActiveEntriesPosition(vs, a);
  }

  /** The position of the newest active version, the first in insertion
      order among equally new ones, is where the sort puts its head. */
  lemma NewestActive(vs: Versions) returns (i: nat)
    requires ActiveEntries(vs) != []
    ensures i < |vs| && vs[i] == SortNewestFirst(ActiveEntries(vs), EntryTime)[0] && !vs[i].1.deleted
    ensures forall j :: 0 <= j < |vs| && !vs[j].1.deleted ==> EntryTime(vs[j]) <= EntryTime(vs[i])
    ensures forall j :: 0 <= j < i && !vs[j].1.deleted ==> EntryTime(vs[j]) < EntryTime(vs[i])
  {
    var active := ActiveEntries(vs);
    var a;
    i, a := NewestActivePosition(vs);
    ActiveEntriesMembers(vs, vs[i]);
    forall j | 0 <= j < |vs| && !vs[j].1.deleted ensures EntryTime(vs[j]) <= EntryTime(vs[i]) {
      ActiveEntriesMembers(vs, vs[j]);
      FirstIsNewest(active, EntryTime);
    }
    forall j | 0 <= j < i && !vs[j].1.deleted ensures EntryTime(vs[j]) < EntryTime(vs[i]) {
      ActiveEntriesPrefix(vs, i, j);
    }
  }

  /** Otherwise the last hash is that of the newest active version (the first
      in insertion order among equally new ones), and the report says
      "changed" exactly when the current hash differs from it. */
  lemma ComparesWithNewestActive(files: Index, path: Path, h: Hash) returns (i: nat)
    requires path in files && ActiveEntries(files[path].versions) != []
    requires ActiveTimesParse(files[path].versions)
    ensures var vs := files[path].versions; var r := HasFileChanged(files, path, Some(h));
      r.currentHash == h && (r.changed <==> h != r.lastActiveHash) &&
      i < |vs| && vs[i].0 == r.lastActiveHash && !vs[i].1.deleted &&
      (forall j :: 0 <= j < |vs| && !vs[j].1.deleted ==> EntryTime(vs[j]) <= EntryTime(vs[i])) &&
      (forall j :: 0 <= j < i && !vs[j].1.deleted ==> EntryTime(vs[j]) < EntryTime(vs[i]))
  {
    i := NewestActive(files[path].versions);
    ReportOfNewest(files, path, h);
  }

  lemma ReportOfNewest(files: Index, path: Path, h: Hash)
    requires path in files && ActiveEntries(files[path].versions) != []
    requires ActiveTimesParse(files[path].versions)
    ensures var last := SortNewestFirst(ActiveEntries(files[path].versions), EntryTime)[0].0;
      HasFileChanged(files, path, Some(h)) == ChangeReport(h != last, h, last)
  {
    assert files[path].versions != [];
  }

  /** An active version strictly newer than every other active one, all of
      whose timestamps parse, is what the check compares against. */
  lemma StrictlyNewestIsLast(files: Index, path: Path, ws: Versions, lastUpdated: string, i: nat, t: int)
    requires i < |ws| && !ws[i].1.deleted && ValidTime(ws[i].1) == Some(t)
    requires forall j :: 0 <= j < |ws| && j != i && !ws[j].1.deleted ==>
      ValidTime(ws[j].1).Some? && ValidTime(ws[j].1).value < t
    ensures HasFileChanged(files[path := FileEntry(ws, lastUpdated)], path, Some(ws[i].0)) ==
      ChangeReport(false, ws[i].0, ws[i].0)
  {
    ActiveEntriesMembers(ws, ws[i]);
    forall x | x in ActiveEntries(ws) ensures ValidTime(x.1).Some? {
      ActiveEntriesMembers(ws, x);
    }
    var k := NewestActive(ws);
    assert k == i;
  }

  /** Committing a hash at a time strictly later than every other active
      version's, then checking the same content again, reports "unchanged"
      against that hash, whether or not the retention run afterwards marked
      anything (the two states add_version can store). */
  lemma UnchangedAfterCommit(files: Index, path: Path, vs: Versions, h: Hash, meta: Metadata, msg: string,
                             now: string, user: string, cap: nat, t: int, lastUpdated: string)
    requires UniqueHashes(vs) && cap >= 1 && ParseTimestamp(now) == Some(t)
    requires forall j :: 0 <= j < |vs| && vs[j].0 != h && !vs[j].1.deleted ==>
      ValidTime(vs[j].1).Some? && ValidTime(vs[j].1).value < t
    ensures var u := Upsert(vs, h, meta, msg, now, user); var r := Retain(u, cap);
      HasFileChanged(files[path := FileEntry(u, lastUpdated)], path, Some(h)) == ChangeReport(false, h, h) &&
      HasFileChanged(files[path := FileEntry(r.versions, lastUpdated)], path, Some(h)) == ChangeReport(false, h, h)
  {
    var u := Upsert(vs, h, meta, msg, now, user);
    UpsertKeepsUnique(vs, h, meta, msg, now, user);
    var ih := CommitPosition(vs, h, meta, msg, now, user, t);
    forall j | 0 <= j < |u| && j != ih && !u[j].1.deleted
      ensures ValidTime(u[j].1).Some? && ValidTime(u[j].1).value < t
    {
      assert u[j] == vs[j] && vs[j].0 != h;
    }
    StrictlyNewestIsLast(files, path, u, lastUpdated, ih, t);
    RetainedStillNewest(files, path, u, ih, cap, t, lastUpdated);
  }

  /** The retention run keeps a strictly newest version and deletes only
      others, so afterwards it is still the one the check compares with. */
  lemma RetainedStillNewest(files: Index, path: Path, u: Versions, ih: nat, cap: nat, t: int, lastUpdated: string)
    requires UniqueHashes(u) && cap >= 1 && ih < |u| && !u[ih].1.deleted && ValidTime(u[ih].1) == Some(t)
    requires forall j :: 0 <= j < |u| && j != ih && !u[j].1.deleted ==>
      ValidTime(u[j].1).Some? && ValidTime(u[j].1).value < t
    ensures var r := Retain(u, cap);
      HasFileChanged(files[path := FileEntry(r.versions, lastUpdated)], path, Some(u[ih].0)) ==
        ChangeReport(false, u[ih].0, u[ih].0)
  {
    var r := Retain(u, cap);
    LeaderSurvives(u, ih, cap, t);
    RetainOnlyMarks(u, cap);
    assert r.versions[ih] == u[ih];
    forall j | 0 <= j < |r.versions| && j != ih && !r.versions[j].1.deleted
      ensures ValidTime(r.versions[j].1).Some? && ValidTime(r.versions[j].1).value < t
    {
      assert r.versions[j] == u[j];
    }
    StrictlyNewestIsLast(files, path, r.versions, lastUpdated, ih, t);
  }

  lemma {:induction false} ActiveEntriesSplit(a: Versions, b: Versions)
    ensures ActiveEntries(a + b) == ActiveEntries(a) + ActiveEntries(b)
  {
    if a == [] {
      assert a + b == b;
    } else {
      assert (a + b)[0] == a[0] && (a + b)[1..] == a[1..] + b;
      ActiveEntriesSplit(a[1..], b);
    }
  }

  /** The a-th active entry sits at a position i with a active entries before it. */
  lemma {:induction false} ActiveEntriesPosition(vs: Versions, a: nat) returns (i: nat)
    requires a < |ActiveEntries(vs)|
    ensures i < |vs| && vs[i] == ActiveEntries(vs)[a] && |ActiveEntries(vs[..i])| == a
    decreases |vs|
  {
    var rest := vs[1..];
    var head := if !vs[0].1.deleted then [vs[0]] else [];
    assert ActiveEntries(vs) == head + ActiveEntries(rest);
    if head != [] && a == 0 {
      i := 0;
      assert vs[..0] == [];
    } else {
      var a' := a - |head|;
      var j := ActiveEntriesPosition(rest, a');
      i := j + 1;
      assert ActiveEntries(vs)[a] == ActiveEntries(rest)[a'];
      assert vs[..i] == [vs[0]] + rest[..j];
      ActiveEntriesSplit([vs[0]], rest[..j]);
      assert [vs[0]][1..] == [];
      assert ActiveEntries([vs[0]]) == head;
    }
  }

  /** An active entry before position i is one of the first
      |ActiveEntries(vs[..i])| active entries. */
  lemma ActiveEntriesPrefix(vs: Versions, i: nat, j: nat)
    requires j < i < |vs| && !vs[j].1.deleted
    ensures |ActiveEntries(vs[..i])| <= |ActiveEntries(vs)|
    ensures exists k :: 0 <= k < |ActiveEntries(vs[..i])| && ActiveEntries(vs)[k] == vs[j]
  {
    assert vs == vs[..i] + vs[i..];
    ActiveEntriesSplit(vs[..i], vs[i..]);
    ActiveEntriesMembers(vs[..i], vs[j]);
    var k :| 0 <= k < |ActiveEntries(vs[..i])| && ActiveEntries(vs[..i])[k] == vs[j];
    assert ActiveEntries(vs)[k] == vs[j];
  }

  // ---------------------------------------------------------------------
  // The loops of _enforce_backup_limit and get_active_file_versions
  // ---------------------------------------------------------------------

  /** Builds the `(hash_id, info, ts_dt)` list: active versions whose timestamp
      is present and parses, in insertion order; the others are skipped. */
  method CollectActive(vs: Versions) returns (active: seq<Candidate>)
    ensures active == ActiveValid(vs)
  {
    active := [];
    var i := 0;
    while i < |vs|
      invariant 0 <= i <= |vs|
      invariant active == ActiveValid(vs[..i])
    {
      var (h, e) := vs[i];
      assert vs[..i + 1][..i] == vs[..i];
      if !e.deleted {
        var ts := e.timestamp;
        if ts.Some? && ts.value != "" {
          var parsed := ParseTimestamp(ts.value);
          if parsed.Some? {
            active := active + [Candidate(h, e, parsed.value)];
          }
        }
      }
      i := i + 1;
    }
    assert vs[..|vs|] == vs;
  }

  /** Marking one more not-yet-marked version at position p. */
  lemma MarkOneMore(vs: Versions, done: set<Hash>, p: nat)
    requires UniqueHashes(vs) && p < |vs| && vs[p].0 !in done
    ensures var m := MarkDeleted(vs, done);
      m[p] == vs[p] && FindHash(m, vs[p].0) == Some(p) &&
      m[p := (vs[p].0, vs[p].1.(deleted := true))] == MarkDeleted(vs, done + {vs[p].0})
  {
    var m := MarkDeleted(vs, done);
    var f := FindHash(m, vs[p].0);
    assert HasHash(m, vs[p].0) by {
      assert m[p].0 == vs[p].0;
    }
    assert m[f.value].0 == vs[f.value].0;
  }

  /** Marking the (i+1)-th excess candidate: it is found, is not yet deleted,
      and marking it extends the set of marked hashes by its own hash. */
  lemma RetentionStep(vs: Versions, cap: nat, i: nat, marked: seq<Hash>) returns (p: nat)
    requires UniqueHashes(vs) && cap + i < |RetentionOrder(vs)|
    requires marked == CandidateHashes(RetentionOrder(vs)[cap..cap + i])
    ensures var c := RetentionOrder(vs)[cap + i];
      var done := set h | h in marked;
      var m := MarkDeleted(vs, done);
      p < |vs| && FindHash(m, c.hash) == Some(p) && !m[p].1.deleted &&
      m[p := (c.hash, m[p].1.(deleted := true))] == MarkDeleted(vs, done + {c.hash})
  {
    var order := RetentionOrder(vs);
    var c := order[cap + i];
    var done := set h | h in marked;
    RetentionOrderMembers(vs);
    assert c in order;
    ActiveValidMembers(vs, c);
    p :| 0 <= p < |vs| && vs[p].0 == c.hash && vs[p].1 == c.entry && IsCandidate(c.entry);
    assert c.hash !in done by {
      forall k | 0 <= k < i ensures marked[k] != c.hash {
        assert marked[k] == order[cap + k].hash;
      }
    }
    MarkOneMore(vs, done, p);
  }

  /** The hashes marked so far grow by the next candidate's hash. */
  lemma MarkedGrows(order: seq<Candidate>, cap: nat, i: nat, marked: seq<Hash>)
    requires cap + i < |order| && marked == CandidateHashes(order[cap..cap + i])
    ensures marked + [order[cap + i].hash] == CandidateHashes(order[cap..cap + i + 1])
  {
    assert order[cap..cap + i + 1] == order[cap..cap + i] + [order[cap + i]];
    CandidateHashesAppend(order[cap..cap + i], order[cap + i]);
  }

  lemma HashSetAppend(hs: seq<Hash>, h: Hash)
    ensures (set x | x in hs + [h]) == (set x | x in hs) + {h}
  {
  }

  lemma CandidateHashesAppend(cs: seq<Candidate>, c: Candidate)
    ensures CandidateHashes(cs + [c]) == CandidateHashes(cs) + [c.hash]
  {
  }

  /** The marking loop (core/version_manager.py:276-285): every candidate
      past the cap, newest first, whose entry is not yet deleted is marked. */
  method MarkExcess(vs: Versions, cap: nat) returns (versions: Versions, marked: seq<Hash>)
    requires UniqueHashes(vs) && cap < |RetentionOrder(vs)|
    ensures marked == CandidateHashes(RetentionOrder(vs)[cap..])
    ensures versions == MarkDeleted(vs, set h | h in marked)
  {
    ghost var order := RetentionOrder(vs);
    var excess := SortNewestFirst(ActiveValid(vs), CandidateTime)[cap..];
    versions, marked := vs, [];
    var i := 0;
    while i < |excess|
      invariant i <= |excess| && excess == order[cap..]
      invariant marked == CandidateHashes(order[cap..cap + i])
      invariant versions == MarkDeleted(vs, set h | h in marked)
    {
      var c := excess[i];
      ghost var p := RetentionStep(vs, cap, i, marked);
      MarkedGrows(order, cap, i, marked);
      HashSetAppend(marked, c.hash);
      var found := FindHash(versions, c.hash);
      if found.Some? && !versions[found.value].1.deleted {
        var k := found.value;
        versions := versions[k := (c.hash, versions[k].1.(deleted := true))];
        marked := marked + [c.hash];
      }
      i := i + 1;
    }
    assert order[cap..cap + i] == order[cap..];
  }

  /** One retention run on a file's versions (core/version_manager.py:245-285):
      collect, sort newest first, and mark every version past the cap that is
      not yet deleted. */
  method ApplyRetention(vs: Versions, cap: nat) returns (r: Outcome)
    requires UniqueHashes(vs)
    ensures r == Retain(vs, cap)
  {
    var active := CollectActive(vs);
    if active == [] {
      return Outcome(vs, []);
    }
    active := SortNewestFirst(active, CandidateTime);
    if |active| <= cap {
      return Outcome(vs, []);
    }
    var versions, marked := MarkExcess(vs, cap);
    r := Outcome(versions, marked);
  }

  // ---------------------------------------------------------------------
  // The store and the manager
  // ---------------------------------------------------------------------

  /** The state of `tracked_files.json`: absent, holding a parseable index,
      holding text that is not valid JSON, or unreadable for another reason. */
  datatype Disk = Missing | Stored(index: Index) | Corrupt | Unreadable

  /** What load_tracked_files returns (core/version_manager.py:80-100): the
      stored index, or an empty one in every other case. */
  function Loaded(d: Disk): Index {
    if d.Stored? then d.index else map[]
  }

  /** The disk after a load: a corrupt file has been renamed aside. */
  function AfterLoad(d: Disk): Disk {
    if d.Corrupt? then Missing else d
  }

  /** `tracked_files_path + ".corrupted_" + time.replace(":", "-")`. */
  function QuarantineName(indexPath: string, now: string): string {
    indexPath + ".corrupted_" + ReplaceChar(now, ':', '-')
  }

  function QuarantinedBy(d: Disk, indexPath: string, now: string): seq<string> {
    if d.Corrupt? then [QuarantineName(indexPath, now)] else []
  }

  /** The hashes add_version returns when the index was in state `d`, the
      save of the new version succeeds exactly when `commitSaves` and the
      save after retention exactly when `retentionSaves`. */
  function AddVersionMarks(d: Disk, cap: CapSetting, path: Path, h: Hash, meta: Metadata, msg: string,
                           now: string, user: string, commitSaves: bool, retentionSaves: bool): seq<Hash>
  {
    var files := CommitVersion(Loaded(d), path, h, meta, msg, now, user);
    if commitSaves && retentionSaves then Retain(files[path].versions, EffectiveCap(cap)).marked else []
  }

  /** The index add_version leaves behind, in the same circumstances: as
      loaded when the first save fails, with the new version when only the
      second fails or retention marks nothing, and with the marks otherwise. */
  function AddVersionDisk(d: Disk, cap: CapSetting, path: Path, h: Hash, meta: Metadata, msg: string,
                          now: string, user: string, commitSaves: bool, enforceNow: string,
                          retentionSaves: bool): Disk
  {
    var files := CommitVersion(Loaded(d), path, h, meta, msg, now, user);
    var r := Retain(files[path].versions, EffectiveCap(cap));
    if !commitSaves then AfterLoad(d)
    else if r.marked == [] || !retentionSaves then Stored(files)
    else Stored(files[path := FileEntry(r.versions, enforceNow)])
  }

  /** add_version's three outcomes. A failed first save returns [] and leaves
      the index as loaded. When retention marks nothing or its save fails,
      [] is returned and the index holds the new version, unmarked. Otherwise
      the marked hashes are returned and the index holds retention's result
      with `last_updated` set to retention's time. */
  lemma AddVersionCases(d: Disk, cap: CapSetting, path: Path, h: Hash, meta: Metadata, msg: string,
                        now: string, user: string, commitSaves: bool, enforceNow: string, retentionSaves: bool)
    ensures var files := CommitVersion(Loaded(d), path, h, meta, msg, now, user);
      var r := Retain(files[path].versions, EffectiveCap(cap));
      var marks := AddVersionMarks(d, cap, path, h, meta, msg, now, user, commitSaves, retentionSaves);
      var after := AddVersionDisk(d, cap, path, h, meta, msg, now, user, commitSaves, enforceNow, retentionSaves);
      (!commitSaves ==> marks == [] && after == AfterLoad(d)) &&
      (commitSaves && (r.marked == [] || !retentionSaves) ==> marks == [] && after == Stored(files)) &&
      (commitSaves && r.marked != [] && retentionSaves ==>
         marks == r.marked && after == Stored(files[path := FileEntry(r.versions, enforceNow)]))
  {
  }

  class VersionManager {
    const trackedFilesPath: string
    const capSetting: CapSetting
    var disk: Disk
    /** The names corrupt index files were renamed to, oldest first. */
    var quarantined: seq<string>

    ghost predicate Valid()
      reads this
    {
      disk.Stored? ==> WellFormed(disk.index)
    }

    constructor (indexPath: string, cap: CapSetting, initial: Disk)
      requires initial.Stored? ==> WellFormed(initial.index)
      ensures Valid()
      ensures trackedFilesPath == indexPath && capSetting == cap
      ensures disk == initial && quarantined == []
    {
      trackedFilesPath, capSetting := indexPath, cap;
      disk, quarantined := initial, [];
    }

    /** load_tracked_files: a missing, corrupt or unreadable file gives an
        empty index; a corrupt one is renamed aside first, under a name
        holding the time `now` the clock gives at that moment. */
    method LoadTrackedFiles(now: string) returns (files: Index)
      requires Valid()
      modifies this
      ensures Valid() && WellFormed(files)
      ensures files == Loaded(old(disk)) && disk == AfterLoad(old(disk))
      ensures quarantined == old(quarantined) + QuarantinedBy(old(disk), trackedFilesPath, now)
    {
      match disk
      case Stored(idx) =>
        files := idx;
      case Corrupt =>
        quarantined := quarantined + [QuarantineName(trackedFilesPath, now)];
        disk := Missing;
        files := map[];
      case _ =>
        files := map[];
    }

    /** save_tracked_files: the index is replaced as a whole or, when writing
        the temporary file or replacing the index fails (`writes` false), left
        as it was (the exception becomes `ok == false`). */
    method SaveTrackedFiles(files: Index, writes: bool) returns (ok: bool)
      requires Valid() && WellFormed(files)
      modifies this
      ensures Valid() && ok == writes
      ensures disk == (if writes then Stored(files) else old(disk))
      ensures quarantined == old(quarantined)
    {
      ok := writes;
      if ok {
        disk := Stored(files);
      }
    }

    /** _enforce_backup_limit: reload, run retention on the file's versions,
        and save with a new `last_updated` (the time `now`) only if something
        was marked. A failed save returns [] (the exception is caught).
        `loadNow` is the clock reading of the reload's rename. */
    method EnforceBackupLimit(path: Path, now: string, loadNow: string, saves: bool) returns (marked: seq<Hash>)
      requires Valid()
      modifies this
      ensures Valid()
      ensures quarantined == old(quarantined) + QuarantinedBy(old(disk), trackedFilesPath, loadNow)
      ensures var files := Loaded(old(disk));
        if path !in files then marked == [] && disk == AfterLoad(old(disk))
        else
          var r := Retain(files[path].versions, EffectiveCap(capSetting));
          if r.marked != [] && saves then
            marked == r.marked && disk == Stored(files[path := FileEntry(r.versions, now)])
          else marked == [] && disk == AfterLoad(old(disk))
    {
      var cap := EffectiveCap(capSetting);
      var files := LoadTrackedFiles(loadNow);
      if path !in files {
        return [];
      }
      var r := ApplyRetention(files[path].versions, cap);
      marked := r.marked;
      if |marked| > 0 {
        RetainOnlyMarks(files[path].versions, cap);
        var ok := SaveTrackedFiles(files[path := FileEntry(r.versions, now)], saves);
        if !ok {
          marked := [];
        }
      }
    }

    /** add_version: reload, insert or refresh the version, save, then run
        retention and return the hashes it marked. `now` is the commit time,
        `loadNow` the clock reading of the reload's rename, and `enforceNow`
        the time retention reads; the two saves succeed or fail on their own
        (`commitSaves`, `retentionSaves`). A failed first save returns [] and
        leaves the index as loaded; a failed second save returns [] and
        leaves the new version unmarked. The reload inside retention finds
        the index just saved, so it renames nothing. */
    method AddVersion(path: Path, h: Hash, meta: Metadata, msg: string, now: string, user: string,
                      loadNow: string, commitSaves: bool, enforceNow: string, retentionSaves: bool)
      returns (toDelete: seq<Hash>)
      requires Valid()
      modifies this
      ensures Valid()
      ensures quarantined == old(quarantined) + QuarantinedBy(old(disk), trackedFilesPath, loadNow)
      ensures toDelete == AddVersionMarks(old(disk), capSetting, path, h, meta, msg, now, user, commitSaves, retentionSaves)
      ensures disk == AddVersionDisk(old(disk), capSetting, path, h, meta, msg, now, user, commitSaves, enforceNow, retentionSaves)
    {
      var files := LoadTrackedFiles(loadNow);
      CommitVersionFrame(files, path, h, meta, msg, now, user);
      files := CommitVersion(files, path, h, meta, msg, now, user);
      var ok := SaveTrackedFiles(files, commitSaves);
      if !ok {
        return [];
      }
      ghost var r := Retain(files[path].versions, EffectiveCap(capSetting));
      toDelete := EnforceBackupLimit(path, enforceNow, enforceNow, retentionSaves);
      assert toDelete == (if r.marked != [] && retentionSaves then r.marked else []);
      assert disk == (if r.marked != [] && retentionSaves then Stored(files[path := FileEntry(r.versions, enforceNow)])
                      else Stored(files));
    }

    /** get_active_file_versions: the active versions with a valid timestamp,
        newest first; [] for an untracked file. */
    method GetActiveFileVersions(path: Path, now: string) returns (result: seq<(Hash, VersionEntry)>)
      requires Valid()
      modifies this
      ensures Valid()
      ensures disk == AfterLoad(old(disk))
      ensures quarantined == old(quarantined) + QuarantinedBy(old(disk), trackedFilesPath, now)
      ensures var files := Loaded(old(disk));
        result == if path in files then NewestFirstActive(files[path].versions) else []
    {
      var files := LoadTrackedFiles(now);
      if path !in files {
        return [];
      }
      var active := CollectActive(files[path].versions);
      active := SortNewestFirst(active, CandidateTime);
      result := seq(|active|, i requires 0 <= i < |active| => (active[i].hash, active[i].entry));
    }
  }
}
