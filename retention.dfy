/** The retention rule of `_enforce_backup_limit` (core/version_manager.py:197-303)
    as a function of a file's versions and the cap: every active version with a
    valid timestamp beyond the newest `cap` is marked deleted, oldest last. */
module Retention {
  import opened Wrappers
  import opened Timestamps
  import opened StableSort
  import opened VersionIndex

  /** Where the cap comes from: no settings manager (the shipped application,
      app.py:95-97), or the result of `int(settings.get("max_backups", 3))`,
      None when that conversion raises. */
  datatype CapSetting = NoSettingsManager | Configured(value: Option<int>)

  const DefaultCap: nat := 3

  /** The cap in force (core/version_manager.py:212-225): always positive, and
      different from the default only when that positive value was configured. */
  function EffectiveCap(c: CapSetting): (n: nat)
    ensures n >= 1
    ensures n != DefaultCap ==> c == Configured(Some(n))
    ensures c.Configured? && c.value.Some? && c.value.value > 0 ==> n == c.value.value
  {
    match c
    case NoSettingsManager => DefaultCap
    case Configured(None) => DefaultCap
    case Configured(Some(v)) => if v <= 0 then DefaultCap else v
  }

  /** `versions[h]["deleted"] = True` for every hash in `doomed`. */
  function MarkDeleted(vs: Versions, doomed: set<Hash>): (r: Versions)
    ensures |r| == |vs|
  {
    seq(|vs|, i requires 0 <= i < |vs| =>
      if vs[i].0 in doomed then (vs[i].0, vs[i].1.(deleted := true)) else vs[i])
  }

  /** The new versions and the hashes newly marked, in the order marked. */
  datatype Outcome = Outcome(versions: Versions, marked: seq<Hash>)

  /** One run of retention on a file's versions. */
  function Retain(vs: Versions, cap: nat): Outcome {
    var order := RetentionOrder(vs);
    if |order| <= cap then Outcome(vs, [])
    else
      var marked := CandidateHashes(order[cap..]);
      Outcome(MarkDeleted(vs, set h | h in marked), marked)
  }

  /** At most `cap` candidates: retention changes nothing and returns []. */
  lemma WithinCapIsNoOp(vs: Versions, cap: nat)
    requires |ActiveValid(vs)| <= cap
    ensures Retain(vs, cap) == Outcome(vs, [])
  {
  }

  /** More than `cap` candidates: exactly the oldest |order| - cap of the
      stable newest-first order are returned, in that order, each once; each
      was an active version with a valid timestamp; the newest `cap` are not
      among them. */
  lemma RetainMarksOldest(vs: Versions, cap: nat)
    requires UniqueHashes(vs) && |ActiveValid(vs)| > cap
    ensures var order := RetentionOrder(vs); var r := Retain(vs, cap);
      |r.marked| == |order| - cap &&
      (forall k :: 0 <= k < |r.marked| ==> r.marked[k] == order[cap + k].hash) &&
      (forall i, j :: 0 <= i < j < |r.marked| ==> r.marked[i] != r.marked[j]) &&
      (forall k :: 0 <= k < cap ==> order[k].hash !in r.marked) &&
      (forall h :: h in r.marked ==> exists i :: 0 <= i < |vs| && vs[i].0 == h && IsCandidate(vs[i].1))
  {
    var order := RetentionOrder(vs);
    var r := Retain(vs, cap);
    RetentionOrderMembers(vs);
    forall h | h in r.marked ensures exists i :: 0 <= i < |vs| && vs[i].0 == h && IsCandidate(vs[i].1) {
      var k :| 0 <= k < |r.marked| && r.marked[k] == h;
      assert order[cap + k] in order;
      ActiveValidMembers(vs, order[cap + k]);
    }
  }

  /** Retention only flips `deleted` from false to true, on exactly the
      returned hashes; positions, hashes and every other entry are unchanged,
      so it never un-deletes, removes, or touches an invalid-timestamp entry. */
  lemma RetainOnlyMarks(vs: Versions, cap: nat)
    requires UniqueHashes(vs)
    ensures var r := Retain(vs, cap);
      |r.versions| == |vs| && UniqueHashes(r.versions) &&
      forall i :: 0 <= i < |vs| ==>
        r.versions[i].0 == vs[i].0 &&
        (vs[i].0 in r.marked ==> IsCandidate(vs[i].1) && r.versions[i].1 == vs[i].1.(deleted := true)) &&
        (vs[i].0 !in r.marked ==> r.versions[i] == vs[i])
  {
    var r := Retain(vs, cap);
    if |ActiveValid(vs)| > cap {
      RetainMarksOldest(vs, cap);
      forall i | 0 <= i < |vs| && vs[i].0 in r.marked ensures IsCandidate(vs[i].1) {
        var j :| 0 <= j < |vs| && vs[j].0 == vs[i].0 && IsCandidate(vs[j].1);
      }
    }
  }

  /** A candidate left after a run is one of the newest `cap`. */
  lemma SurvivorIsKept(vs: Versions, cap: nat, c: Candidate)
    requires UniqueHashes(vs) && |RetentionOrder(vs)| > cap
    requires c in ActiveValid(Retain(vs, cap).versions)
    ensures c in RetentionOrder(vs)[..cap]
  {
    var r := Retain(vs, cap);
    var order := RetentionOrder(vs);
    RetainOnlyMarks(vs, cap);
    RetainMarksOldest(vs, cap);
    RetentionOrderMembers(vs);
    ActiveValidMembers(r.versions, c);
    var i :| 0 <= i < |r.versions| && r.versions[i].0 == c.hash && r.versions[i].1 == c.entry &&
      IsCandidate(c.entry) && ValidTime(c.entry) == Some(c.time);
    assert vs[i].0 !in r.marked;
    ActiveValidMembers(vs, c);
    var p :| 0 <= p < |order| && order[p] == c;
    assert order[..cap][p] == c;
  }

  /** After one run at most `cap` candidates remain. */
  lemma RetainLeavesAtMostCap(vs: Versions, cap: nat)
    requires UniqueHashes(vs)
    ensures |ActiveValid(Retain(vs, cap).versions)| <= cap
  {
    var r := Retain(vs, cap);
    var order := RetentionOrder(vs);
    if |order| > cap {
      RetainOnlyMarks(vs, cap);
      var after := ActiveValid(r.versions);
      ActiveValidDistinct(r.versions);
      var kept := order[..cap];
      assert Image(after, CandidateHash) <= Image(kept, CandidateHash) by {
        forall x | x in Image(after, CandidateHash) ensures x in Image(kept, CandidateHash) {
          var i :| 0 <= i < |after| && CandidateHash(after[i]) == x;
          SurvivorIsKept(vs, cap, after[i]);
          var p :| 0 <= p < |kept| && kept[p] == after[i];
        }
      }
      ImageCard(after, CandidateHash);
      ImageCard(kept, CandidateHash);
      SubsetCard(Image(after, CandidateHash), Image(kept, CandidateHash));
    }
  }

  /** Idempotence: a second run straight after a run changes nothing and
      returns []. */
  lemma RetainIdempotent(vs: Versions, cap: nat)
    requires UniqueHashes(vs)
    ensures var r := Retain(vs, cap); Retain(r.versions, cap) == Outcome(r.versions, [])
  {
    RetainLeavesAtMostCap(vs, cap);
  }

  /** A version whose time is later than every other candidate's heads the
      retention order. */
  lemma {:induction false} StrictlyNewestLeads(vs: Versions, i: nat, t: int)
    requires UniqueHashes(vs) && i < |vs| && IsCandidate(vs[i].1) && ValidTime(vs[i].1) == Some(t)
    requires forall j :: 0 <= j < |vs| && j != i && IsCandidate(vs[j].1) ==> ValidTime(vs[j].1).value < t
    ensures RetentionOrder(vs) != [] && RetentionOrder(vs)[0].hash == vs[i].0
  {
    var a := ActiveValid(vs);
    var c := ToCandidate(vs[i].0, vs[i].1);
    ActiveValidMembers(vs, c);
    FirstIsNewest(a, CandidateTime);
    var order := RetentionOrder(vs);
    RetentionOrderMembers(vs);
    assert order[0] in order;
    ActiveValidMembers(vs, order[0]);
    var j :| 0 <= j < |vs| && vs[j].0 == order[0].hash && vs[j].1 == order[0].entry &&
      IsCandidate(order[0].entry) && ValidTime(order[0].entry) == Some(order[0].time);
    assert j == i;
  }

  /** What a commit at a strictly later time than every other active version
      promises: with any cap of at least one, retention keeps it, and it is
      the newest active version afterwards. */
  lemma CommitIsNewest(vs: Versions, h: Hash, meta: Metadata, msg: string, now: string, user: string,
                       cap: nat, t: int)
    requires UniqueHashes(vs) && cap >= 1 && ParseTimestamp(now) == Some(t)
    requires forall i :: 0 <= i < |vs| && vs[i].0 != h && IsCandidate(vs[i].1) ==> ValidTime(vs[i].1).value < t
    ensures var r := Retain(Upsert(vs, h, meta, msg, now, user), cap);
      h !in r.marked && NewestFirstActive(r.versions) != [] && NewestFirstActive(r.versions)[0].0 == h
  {
    var u := Upsert(vs, h, meta, msg, now, user);
    UpsertKeepsUnique(vs, h, meta, msg, now, user);
    var ih := CommitPosition(vs, h, meta, msg, now, user, t);
    forall j | 0 <= j < |u| && j != ih && IsCandidate(u[j].1) ensures ValidTime(u[j].1).value < t {
      assert u[j] == vs[j] && vs[j].0 != h;
    }
    LeaderSurvives(u, ih, cap, t);
  }

  /** Where a commit lands: at one position, active and stamped with the
      commit time; every other position holds an old entry of another hash. */
  lemma CommitPosition(vs: Versions, h: Hash, meta: Metadata, msg: string, now: string, user: string, t: int)
    returns (ih: nat)
    requires UniqueHashes(vs) && ParseTimestamp(now) == Some(t)
    ensures var u := Upsert(vs, h, meta, msg, now, user);
      ih < |u| && u[ih].0 == h && IsCandidate(u[ih].1) && ValidTime(u[ih].1) == Some(t) &&
      forall j :: 0 <= j < |u| && j != ih ==> j < |vs| && u[j] == vs[j] && vs[j].0 != h
  {
    var u := Upsert(vs, h, meta, msg, now, user);
    if FindHash(vs, h).Some? {
      ih := FindHash(vs, h).value;
      UpsertExisting(vs, h, meta, msg, now, user, ih);
    } else {
      ih := |vs|;
      UpsertNew(vs, h, meta, msg, now, user);
      assert forall j :: 0 <= j < |vs| ==> u[j] == u[..|vs|][j];
    }
    assert u[ih].1.timestamp == Some(now) && !u[ih].1.deleted;
  }

  /** A version strictly newer than every other candidate survives any run
      with a cap of at least one and then heads the active list. */
  lemma LeaderSurvives(u: Versions, ih: nat, cap: nat, t: int)
    requires UniqueHashes(u) && cap >= 1 && ih < |u| && IsCandidate(u[ih].1) && ValidTime(u[ih].1) == Some(t)
    requires forall j :: 0 <= j < |u| && j != ih && IsCandidate(u[j].1) ==> ValidTime(u[j].1).value < t
    ensures var r := Retain(u, cap);
      u[ih].0 !in r.marked && NewestFirstActive(r.versions) != [] && NewestFirstActive(r.versions)[0].0 == u[ih].0
  {
    StrictlyNewestLeads(u, ih, t);
    var r := Retain(u, cap);
    RetainOnlyMarks(u, cap);
    if |ActiveValid(u)| > cap {
      RetainMarksOldest(u, cap);
    }
    assert r.versions[ih] == u[ih];
    forall j | 0 <= j < |r.versions| && j != ih && IsCandidate(r.versions[j].1)
      ensures ValidTime(r.versions[j].1).value < t
    {
      assert r.versions[j] == u[j];
    }
    StrictlyNewestLeads(r.versions, ih, t);
  }

  /** Two commits within the same second: with a cap of one, the version just
      added is the one retention marks deleted, because the stable sort keeps
      the older entry of equal time first. */
  lemma SameSecondCommitIsRetired(now: string, t: int, meta: Metadata)
    requires ParseTimestamp(now) == Some(t)
    ensures var vs := [("old", VersionEntry(Some(now), "u", "first", meta, false))];
      Retain(Upsert(vs, "new", meta, "second", now, "u"), 1).marked == ["new"]
  {
    var e1 := VersionEntry(Some(now), "u", "first", meta, false);
    var e2 := VersionEntry(Some(now), "u", "second", meta, false);
    var vs := [("old", e1)];
    var u := Upsert(vs, "new", meta, "second", now, "u");
    UpsertNew(vs, "new", meta, "second", now, "u");
    assert u == [("old", e1), ("new", e2)] by {
      assert u[0] == u[..1][0];
    }
    assert now != "";
    EqualTimesRetireLater(("old", e1), ("new", e2), t);
  }

  /** With a cap of one, of two versions with the same time the later one
      is marked. */
  lemma EqualTimesRetireLater(x: (Hash, VersionEntry), y: (Hash, VersionEntry), t: int)
    requires !x.1.deleted && ValidTime(x.1) == Some(t)
    requires !y.1.deleted && ValidTime(y.1) == Some(t)
    ensures Retain([x, y], 1).marked == [y.0]
  {
    EqualPairOrder(x, y, t);
    SecondOfTwoMarked([x, y], Candidate(x.0, x.1, t), Candidate(y.0, y.1, t));
  }

  lemma SecondOfTwoMarked(vs: Versions, c1: Candidate, c2: Candidate)
    requires RetentionOrder(vs) == [c1, c2]
    ensures Retain(vs, 1).marked == [c2.hash]
  {
    var order := RetentionOrder(vs);
    assert order[1..] == [c2];
    RetainMarked(vs, 1, order);
    CandidateHashesOne(c2);
  }

  lemma EqualPairOrder(x: (Hash, VersionEntry), y: (Hash, VersionEntry), t: int)
    requires !x.1.deleted && ValidTime(x.1) == Some(t)
    requires !y.1.deleted && ValidTime(y.1) == Some(t)
    ensures RetentionOrder([x, y]) == [Candidate(x.0, x.1, t), Candidate(y.0, y.1, t)]
  {
    ActiveValidPair(x, y, t);
    SortEqualPair(Candidate(x.0, x.1, t), Candidate(y.0, y.1, t), CandidateTime);
  }

  lemma RetainMarked(vs: Versions, cap: nat, order: seq<Candidate>)
    requires order == RetentionOrder(vs) && |order| > cap
    ensures Retain(vs, cap).marked == CandidateHashes(order[cap..])
  {
  }

  lemma CandidateHashesOne(c: Candidate)
    ensures CandidateHashes([c]) == [c.hash]
  {
  }

  /** Two active entries of the same valid time become two candidates of
      that time, in insertion order. */
  lemma ActiveValidPair(x: (Hash, VersionEntry), y: (Hash, VersionEntry), t: int)
    requires !x.1.deleted && ValidTime(x.1) == Some(t)
    requires !y.1.deleted && ValidTime(y.1) == Some(t)
    ensures ActiveValid([x, y]) == [Candidate(x.0, x.1, t), Candidate(y.0, y.1, t)]
  {
    assert [x, y][..1] == [x];
    assert [x][..0] == [];
  }
}
