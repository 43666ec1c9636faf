/** The version index kept in `tracked_files.json` (core/version_manager.py):
    a map from normalised file path to a file entry, each holding its
    versions keyed by content hash in insertion order, and the pure rules
    the version manager applies to it: inserting or reactivating a version,
    choosing the active versions and their newest-first order, and the
    retention rule that marks the oldest excess versions deleted. */
module VersionIndex {
  import opened Wrappers
  import opened Timestamps
  import opened StableSort

  /** A content hash (hex SHA-256 digest); opaque here. */
  type Hash = string
  /** A normalised file path. */
  type Path = string

  /** The `metadata` dict of a version: size in bytes, modification time in
      local and UTC form, lower-cased extension. */
  datatype Metadata = Metadata(size: int, modifiedLocal: string, modifiedUtc: string, fileType: string)

  /** One version. `timestamp` is None when the key is missing from the stored
      dict; a missing `deleted` key reads as false. */
  datatype VersionEntry = VersionEntry(
    timestamp: Option<string>,
    username: string,
    commitMessage: string,
    metadata: Metadata,
    deleted: bool)

  /** The `versions` dict of a file: (hash, entry) pairs in insertion order. */
  type Versions = seq<(Hash, VersionEntry)>

  datatype FileEntry = FileEntry(versions: Versions, lastUpdated: string)

  /** The whole index: normalised path to file entry. */
  type Index = map<Path, FileEntry>

  /** The keys of a `versions` dict are unique. */
  predicate UniqueHashes(vs: Versions) {
    forall i, j :: 0 <= i < j < |vs| ==> vs[i].0 != vs[j].0
  }

  predicate WellFormed(idx: Index) {
    forall p :: p in idx ==> UniqueHashes(idx[p].versions)
  }

  predicate HasHash(vs: Versions, h: Hash) {
    exists i :: 0 <= i < |vs| && vs[i].0 == h
  }

  /** The position of hash `h` in `vs`, if it is there (`versions.get(h)`). */
  function FindHash(vs: Versions, h: Hash): (r: Option<nat>)
    ensures r.Some? ==> r.value < |vs| && vs[r.value].0 == h
    ensures r.None? <==> !HasHash(vs, h)
  {
    if vs == [] then None
    else if vs[0].0 == h then Some(0)
    else
      match FindHash(vs[1..], h)
      case None =>
        assert forall i :: 1 <= i < |vs| ==> vs[i] == vs[1..][i - 1];
        None
      case Some(i) => Some(i + 1)
  }

  // ---------------------------------------------------------------------
  // add_version: insert a new hash, or refresh and reactivate an existing one
  // ---------------------------------------------------------------------

  /** The entry a first commit of a hash records (core/version_manager.py:170-176). */
  function NewEntry(meta: Metadata, msg: string, now: string, user: string): VersionEntry {
    VersionEntry(Some(now), user, msg, meta, false)
  }

  /** An existing entry after a repeat commit of its hash: new time, user and
      metadata, the message only if a new one is given, and active again
      (core/version_manager.py:158-166). */
  function Refreshed(e: VersionEntry, meta: Metadata, msg: string, now: string, user: string): VersionEntry {
    e.(timestamp := Some(now), username := user,
       commitMessage := if msg != "" then msg else e.commitMessage,
       metadata := meta, deleted := false)
  }

  /** The `versions` dict after committing hash `h`. */
  function Upsert(vs: Versions, h: Hash, meta: Metadata, msg: string, now: string, user: string): Versions {
    match FindHash(vs, h)
    case Some(i) => vs[i := (h, Refreshed(vs[i].1, meta, msg, now, user))]
    case None => vs + [(h, NewEntry(meta, msg, now, user))]
  }

  /** The index after the in-memory part of add_version: the file entry is
      created if missing, the version inserted or refreshed, and `last_updated`
      set to the commit time (core/version_manager.py:145-180). */
  function CommitVersion(idx: Index, path: Path, h: Hash, meta: Metadata, msg: string,
                         now: string, user: string): Index
  {
    var entry := if path in idx then idx[path] else FileEntry([], now);
    idx[path := FileEntry(Upsert(entry.versions, h, meta, msg, now, user), now)]
  }

  /** Re-adding a hash keeps the number of entries and every position; the
      entry is refreshed, reactivated, and keeps its message when the new one
      is empty. Every other entry is unchanged. */
  lemma UpsertExisting(vs: Versions, h: Hash, meta: Metadata, msg: string, now: string, user: string, i: nat)
    requires UniqueHashes(vs) && i < |vs| && vs[i].0 == h
    ensures var r := Upsert(vs, h, meta, msg, now, user);
      |r| == |vs| && r[i].0 == h &&
      r[i].1.timestamp == Some(now) && r[i].1.username == user && r[i].1.metadata == meta &&
      !r[i].1.deleted &&
      r[i].1.commitMessage == (if msg == "" then vs[i].1.commitMessage else msg) &&
      forall j :: 0 <= j < |vs| && j != i ==> r[j] == vs[j]
  {
    var k := FindHash(vs, h);
    assert k.Some? && k.value == i;
  }

  /** Adding a new hash appends exactly one active entry with the given
      message and the commit time; the earlier entries are unchanged. */
  lemma UpsertNew(vs: Versions, h: Hash, meta: Metadata, msg: string, now: string, user: string)
    requires !HasHash(vs, h)
    ensures var r := Upsert(vs, h, meta, msg, now, user);
      |r| == |vs| + 1 && r[..|vs|] == vs && r[|vs|].0 == h &&
      r[|vs|].1 == VersionEntry(Some(now), user, msg, meta, false)
  {
  }

  lemma UpsertKeepsUnique(vs: Versions, h: Hash, meta: Metadata, msg: string, now: string, user: string)
    requires UniqueHashes(vs)
    ensures UniqueHashes(Upsert(vs, h, meta, msg, now, user))
    ensures HasHash(Upsert(vs, h, meta, msg, now, user), h)
  {
    var r := Upsert(vs, h, meta, msg, now, user);
    if FindHash(vs, h).None? {
      assert r[|vs|].0 == h;
    } else {
      assert r[FindHash(vs, h).value].0 == h;
    }
  }

  /** After a commit the file has an entry whose `last_updated` is the commit
      time and whose versions hold the hash; every other path is untouched. */
  lemma CommitVersionFrame(idx: Index, path: Path, h: Hash, meta: Metadata, msg: string,
                           now: string, user: string)
    requires WellFormed(idx)
    ensures var r := CommitVersion(idx, path, h, meta, msg, now, user);
      WellFormed(r) && r.Keys == idx.Keys + {path} && r[path].lastUpdated == now &&
      HasHash(r[path].versions, h) &&
      forall p :: p in idx && p != path ==> r[p] == idx[p]
  {
    var entry := if path in idx then idx[path] else FileEntry([], now);
    UpsertKeepsUnique(entry.versions, h, meta, msg, now, user);
  }

  // ---------------------------------------------------------------------
  // Active versions and their order
  // ---------------------------------------------------------------------

  /** The time key of an entry's timestamp, when it is present, non-empty and
      parses (the `if ts_str:` / `strptime` test). */
  function ValidTime(e: VersionEntry): Option<int> {
    if e.timestamp.Some? && e.timestamp.value != "" then ParseTimestamp(e.timestamp.value) else None
  }

  /** An entry that retention and get_active_file_versions consider: not
      deleted, with a valid timestamp. */
  predicate IsCandidate(e: VersionEntry) {
    !e.deleted && ValidTime(e).Some?
  }

  /** An element of the `(hash_id, info, ts_dt)` list the source builds. */
  datatype Candidate = Candidate(hash: Hash, entry: VersionEntry, time: int)

  function CandidateTime(c: Candidate): int {
    c.time
  }

  function CandidateHash(c: Candidate): Hash {
    c.hash
  }

  function ToCandidate(h: Hash, e: VersionEntry): Candidate
    requires ValidTime(e).Some?
  {
    Candidate(h, e, ValidTime(e).value)
  }

  /** The active, valid-timestamp versions in insertion order
      (core/version_manager.py:246-259 and 351-362). */
  function ActiveValid(vs: Versions): (r: seq<Candidate>)
    ensures |r| <= |vs|
  {
    if vs == [] then []
    else
      var last := vs[|vs| - 1];
      ActiveValid(vs[..|vs| - 1]) +
        (if IsCandidate(last.1) then [ToCandidate(last.0, last.1)] else [])
  }

  /** `active_versions.sort(key=lambda x: x[2], reverse=True)`. */
  function RetentionOrder(vs: Versions): seq<Candidate> {
    SortNewestFirst(ActiveValid(vs), CandidateTime)
  }

  function CandidateHashes(cs: seq<Candidate>): (r: seq<Hash>)
    ensures |r| == |cs| && forall i :: 0 <= i < |cs| ==> r[i] == cs[i].hash
  {
    seq(|cs|, i requires 0 <= i < |cs| => cs[i].hash)
  }

  /** What get_active_file_versions returns for a file's versions:
      `(hash, info)` pairs of the active valid versions, newest first. */
  function NewestFirstActive(vs: Versions): (r: seq<(Hash, VersionEntry)>)
    ensures |r| == |RetentionOrder(vs)|
  {
    var order := RetentionOrder(vs);
    seq(|order|, i requires 0 <= i < |order| => (order[i].hash, order[i].entry))
  }

  /** A candidate is exactly an active, valid-timestamp entry of `vs`. */
  lemma {:induction false} ActiveValidMembers(vs: Versions, c: Candidate)
    ensures c in ActiveValid(vs) <==>
      exists i :: 0 <= i < |vs| && vs[i].0 == c.hash && vs[i].1 == c.entry &&
        IsCandidate(c.entry) && ValidTime(c.entry) == Some(c.time)
  {
    if vs != [] {
      var init := vs[..|vs| - 1];
      ActiveValidMembers(init, c);
      assert forall i :: 0 <= i < |init| ==> init[i] == vs[i];
    }
  }

  lemma {:induction false} ActiveValidDistinct(vs: Versions)
    requires UniqueHashes(vs)
    ensures DistinctBy(ActiveValid(vs), CandidateHash)
  {
    if vs != [] {
      var init := vs[..|vs| - 1];
      ActiveValidDistinct(init);
      var a := ActiveValid(init);
      forall i | 0 <= i < |a| ensures a[i].hash != vs[|vs| - 1].0 {
        assert a[i] in a;
        ActiveValidMembers(init, a[i]);
      }
    }
  }

  /** The retention order holds exactly the candidates, each once. */
  lemma RetentionOrderMembers(vs: Versions)
    requires UniqueHashes(vs)
    ensures DistinctBy(RetentionOrder(vs), CandidateHash)
    ensures SortedDesc(RetentionOrder(vs), CandidateTime)
    ensures forall c :: c in RetentionOrder(vs) <==> c in ActiveValid(vs)
  {
    var a := ActiveValid(vs);
    SortIsStable(a, CandidateTime);
    ActiveValidDistinct(vs);
    SortDistinct(a, CandidateTime, CandidateHash);
    RetentionOrderSameMembers(vs);
  }

  lemma RetentionOrderSameMembers(vs: Versions)
    ensures forall c :: c in RetentionOrder(vs) <==> c in ActiveValid(vs)
  {
    var a := ActiveValid(vs);
    forall c ensures c in RetentionOrder(vs) <==> c in a {
      assert c in RetentionOrder(vs) <==> c in multiset(RetentionOrder(vs));
    }
  }

  /** get_active_file_versions returns exactly the active versions with a
      valid timestamp. */
  lemma NewestFirstActiveMembers(vs: Versions, h: Hash, e: VersionEntry)
    requires UniqueHashes(vs)
    ensures (h, e) in NewestFirstActive(vs) <==>
      (exists i :: 0 <= i < |vs| && vs[i] == (h, e)) && IsCandidate(e)
  {
    var order := RetentionOrder(vs);
    var r := NewestFirstActive(vs);
    RetentionOrderSameMembers(vs);
    if (h, e) in r {
      var k :| 0 <= k < |r| && r[k] == (h, e);
      assert order[k] in order;
      ActiveValidMembers(vs, order[k]);
    }
    if (exists i :: 0 <= i < |vs| && vs[i] == (h, e)) && IsCandidate(e) {
      var c := ToCandidate(h, e);
      ActiveValidMembers(vs, c);
      var k :| 0 <= k < |order| && order[k] == c;
      assert r[k] == (h, e);
    }
  }

  /** ... each once, newest first. */
  lemma NewestFirstActiveOrder(vs: Versions)
    requires UniqueHashes(vs)
    ensures var r := NewestFirstActive(vs);
      (forall i, j :: 0 <= i < j < |r| ==> r[i].0 != r[j].0) &&
      (forall i :: 0 <= i < |r| ==> IsCandidate(r[i].1)) &&
      (forall i, j :: 0 <= i < j < |r| ==> ValidTime(r[i].1).value >= ValidTime(r[j].1).value)
  {
    var order := RetentionOrder(vs);
    RetentionOrderMembers(vs);
    forall c | c in order ensures IsCandidate(c.entry) && ValidTime(c.entry) == Some(c.time) {
      ActiveValidMembers(vs, c);
    }
    forall i, j | 0 <= i < j < |order|
      ensures ValidTime(order[i].entry).value >= ValidTime(order[j].entry).value
    {
      assert order[i] in order && order[j] in order;
    }
  }
}
