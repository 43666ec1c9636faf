/** VersionTag of models/metadata.py: a version hash with a list of
    normalised tags and two timestamps, serialisable to a record. The clock
    is a parameter: every method that reads it takes the time as `now`. */
module Tagging {
  import opened Wrappers
  import opened Text

  /** `tag.strip().lower()`. */
  function Normalize(raw: string): string {
    Lower(Strip(raw))
  }

  /** A tag as add_tag stores it: non-empty and already normalised. */
  predicate IsTag(t: string) {
    t != [] && Normalize(t) == t
  }

  /** The tag list add_tag and remove_tag maintain: normalised tags, each once. */
  predicate TagListOk(tags: seq<string>) {
    (forall t :: t in tags ==> IsTag(t)) && Distinct(tags)
  }

  predicate Distinct(tags: seq<string>) {
    forall i, j :: 0 <= i < j < |tags| ==> tags[i] != tags[j]
  }

  /** The tags after add_tag(raw): the normalised tag is appended when it is
      non-empty and not yet present. */
  function WithTag(tags: seq<string>, raw: string): seq<string> {
    var t := Normalize(raw);
    if t != [] && t !in tags then tags + [t] else tags
  }

  /** `list.remove(t)`: the first occurrence of `t` is taken out. */
  function RemoveFirst(tags: seq<string>, t: string): (r: seq<string>)
    requires t in tags
    ensures |r| == |tags| - 1
  {
    if tags[0] == t then tags[1..] else [tags[0]] + RemoveFirst(tags[1..], t)
  }

  /** RemoveFirst cuts out the position of the first occurrence, keeping the
      order of the others. */
  lemma {:induction false} RemoveFirstAt(tags: seq<string>, t: string, k: nat)
    requires k < |tags| && tags[k] == t && t !in tags[..k]
    ensures RemoveFirst(tags, t) == tags[..k] + tags[k + 1..]
  {
    if k > 0 {
      var rest := tags[1..];
      assert tags[0] != t by {
        assert tags[..k][0] == tags[0];
      }
      var before := rest[..k - 1];
      assert before == tags[1..k];
      assert t !in before by {
        forall i | 0 <= i < |before| ensures before[i] != t {
          assert before[i] == tags[..k][i + 1];
        }
      }
      assert rest[k - 1] == t;
      RemoveFirstAt(rest, t, k - 1);
      calc {
        RemoveFirst(tags, t);
        [tags[0]] + RemoveFirst(rest, t);
        [tags[0]] + (rest[..k - 1] + rest[k..]);
        { assert rest[k..] == tags[k + 1..]; }
        [tags[0]] + (tags[1..k] + tags[k + 1..]);
        ([tags[0]] + tags[1..k]) + tags[k + 1..];
        { assert [tags[0]] + tags[1..k] == tags[..k]; }
        tags[..k] + tags[k + 1..];
      }
    }
  }

  /** The first occurrence of a present tag. */
  lemma FirstOccurrence(tags: seq<string>, t: string) returns (k: nat)
    requires t in tags
    ensures k < |tags| && tags[k] == t && t !in tags[..k]
  {
    if tags[0] == t {
      k := 0;
    } else {
      var j := FirstOccurrence(tags[1..], t);
      k := j + 1;
      assert tags[..k] == [tags[0]] + tags[1..][..j];
    }
  }

  /** The tags after remove_tag(raw). */
  function WithoutTag(tags: seq<string>, raw: string): seq<string> {
    var t := Normalize(raw);
    if t in tags then RemoveFirst(tags, t) else tags
  }

  /** Normalising twice is normalising once, so every stored tag is a fixed
      point of the normalisation. */
  lemma NormalizeIdempotent(raw: string)
    ensures Normalize(Normalize(raw)) == Normalize(raw)
  {
    var k := Strip(raw);
    LowerUntrimmed(k);
    LowerIdempotent(k);
  }

  lemma LowerUntrimmed(k: string)
    requires k != [] ==> !IsSpace(k[0]) && !IsSpace(k[|k| - 1])
    ensures Strip(Lower(k)) == Lower(k)
  {
    if k != [] {
      LowerCharKeepsSpace(k[0]);
      LowerCharKeepsSpace(k[|k| - 1]);
    }
    StripUntrimmed(Lower(k));
  }

  lemma LowerIdempotent(k: string)
    ensures Lower(Lower(k)) == Lower(k)
  {
  }

  /** add_tag: the tags afterwards are the old ones plus the normalised tag,
      unless it is empty; nothing else is added, and the old order stays. */
  lemma WithTagMembers(tags: seq<string>, raw: string, x: string)
    ensures x in WithTag(tags, raw) <==> x in tags || (x == Normalize(raw) && x != [])
    ensures WithTag(tags, raw)[..|tags|] == tags
  {
  }

  /** Adding the same tag twice is adding it once. */
  lemma WithTagIdempotent(tags: seq<string>, raw: string)
    ensures WithTag(WithTag(tags, raw), raw) == WithTag(tags, raw)
  {
  }

  /** Cutting position k out of a list without repeats removes exactly the
      element there and keeps the list free of repeats. */
  lemma CutDistinct(s: seq<string>, k: nat)
    requires k < |s| && Distinct(s)
    ensures var r := s[..k] + s[k + 1..];
      Distinct(r) && forall x :: x in r <==> x in s && x != s[k]
  {
    var r := s[..k] + s[k + 1..];
    assert forall i :: 0 <= i < |r| ==> r[i] == s[if i < k then i else i + 1];
    forall x | x in s && x != s[k] ensures x in r {
      var i :| 0 <= i < |s| && s[i] == x;
      if i < k {
        assert r[i] == x;
      } else {
        assert r[i - 1] == x;
      }
    }
  }

  /** On a well-formed list remove_tag takes the tag out completely and keeps
      every other tag, with no repeats. */
  lemma WithoutTagRemoves(tags: seq<string>, raw: string)
    requires Distinct(tags)
    ensures Distinct(WithoutTag(tags, raw)) && Normalize(raw) !in WithoutTag(tags, raw)
    ensures forall x :: x != Normalize(raw) ==> (x in WithoutTag(tags, raw) <==> x in tags)
  {
    var t := Normalize(raw);
    if t in tags {
      var k := FirstOccurrence(tags, t);
      RemoveFirstAt(tags, t, k);
      CutDistinct(tags, k);
    }
  }

  /** add_tag and remove_tag keep the tag list well formed. */
  lemma EditsKeepTagListOk(tags: seq<string>, raw: string)
    requires TagListOk(tags)
    ensures TagListOk(WithTag(tags, raw)) && TagListOk(WithoutTag(tags, raw))
  {
    WithTagKeepsOk(tags, raw);
    WithoutTagKeepsOk(tags, raw);
  }

  lemma WithTagKeepsOk(tags: seq<string>, raw: string)
    requires TagListOk(tags)
    ensures TagListOk(WithTag(tags, raw))
  {
    var t := Normalize(raw);
    if t != [] && t !in tags {
      NormalizeIdempotent(raw);
      assert IsTag(t);
      var r := tags + [t];
      forall i, j | 0 <= i < j < |r| ensures r[i] != r[j] {
        assert r[i] == tags[i];
        if j == |tags| {
          assert tags[i] in tags;
        } else {
          assert r[j] == tags[j];
        }
      }
      forall x | x in r ensures IsTag(x) {
        assert x in tags || x == t;
      }
    }
  }

  lemma WithoutTagKeepsOk(tags: seq<string>, raw: string)
    requires TagListOk(tags)
    ensures TagListOk(WithoutTag(tags, raw))
  {
    WithoutTagRemoves(tags, raw);
    var r := WithoutTag(tags, raw);
    forall x | x in r ensures IsTag(x) {
      assert x in tags;
    }
  }

  /** Removing a tag just added restores the old list. */
  lemma RemoveAfterAdd(tags: seq<string>, raw: string)
    requires Normalize(raw) != [] && Normalize(raw) !in tags
    ensures WithoutTag(WithTag(tags, raw), raw) == tags
  {
    var t := Normalize(raw);
    var a := tags + [t];
    assert a[..|tags|] == tags;
    RemoveFirstAt(a, t, |tags|);
  }

  // ---------------------------------------------------------------------
  // to_dict / from_dict
  // ---------------------------------------------------------------------

  /** The dictionary `to_dict` produces and `from_dict` reads; a key that is
      absent is None. */
  datatype TagDict = TagDict(versionHash: Option<string>, tags: Option<seq<string>>,
                             creationTime: Option<string>, lastModified: Option<string>)

  /** The state of a VersionTag as a value. */
  datatype TagRecord = TagRecord(versionHash: string, tags: seq<string>, creationTime: string, lastModified: string)

  function Encode(r: TagRecord): TagDict {
    TagDict(Some(r.versionHash), Some(r.tags), Some(r.creationTime), Some(r.lastModified))
  }

  /** from_dict on a dictionary, with `now` what the constructor's clock read
      gives: a missing `version_hash` is an error (a KeyError in the source);
      missing tags are []; a missing time is `now`. */
  function Decode(d: TagDict, now: string): (r: Option<TagRecord>)
    ensures r.None? <==> d.versionHash.None?
    ensures r.Some? ==> r.value.versionHash == d.versionHash.value && r.value.tags == d.tags.GetOr([])
    ensures r.Some? ==> r.value.creationTime == d.creationTime.GetOr(now) &&
                        r.value.lastModified == d.lastModified.GetOr(now)
  {
    match d.versionHash
    case None => None
    case Some(h) => Some(TagRecord(h, d.tags.GetOr([]), d.creationTime.GetOr(now), d.lastModified.GetOr(now)))
  }

  /** from_dict(to_dict()) restores the state exactly, whatever the clock says. */
  lemma DecodeEncode(r: TagRecord, now: string)
    ensures Decode(Encode(r), now) == Some(r)
  {
  }

  /** to_dict(from_dict(d)) fills in every key and keeps the present ones. */
  lemma EncodeDecode(d: TagDict, now: string)
    requires d.versionHash.Some?
    ensures var e := Encode(Decode(d, now).value);
      e.versionHash == d.versionHash && e.tags.Some? && e.creationTime.Some? && e.lastModified.Some? &&
      (d.tags.Some? ==> e.tags == d.tags) && (d.creationTime.Some? ==> e.creationTime == d.creationTime) &&
      (d.lastModified.Some? ==> e.lastModified == d.lastModified)
  {
  }

  class VersionTag {
    var versionHash: string
    var tags: seq<string>
    var creationTime: string
    var lastModified: string

    /** A new tag set: no tags, both times the current time. */
    constructor (hash: string, now: string)
      ensures versionHash == hash && tags == [] && creationTime == now && lastModified == now
    {
      versionHash, tags := hash, [];
      creationTime, lastModified := now, now;
    }

    function Record(): TagRecord
      reads this
    {
      TagRecord(versionHash, tags, creationTime, lastModified)
    }

    /** add_tag: appends the normalised tag if new and non-empty, and then
        only then moves `last_modified` to `now`. */
    method AddTag(raw: string, now: string)
      modifies this
      ensures tags == WithTag(old(tags), raw)
      ensures lastModified == (if tags != old(tags) then now else old(lastModified))
      ensures versionHash == old(versionHash) && creationTime == old(creationTime)
    {
      var t := Normalize(raw);
      if t != [] && t !in tags {
        tags := tags + [t];
        lastModified := now;
      }
    }

    /** remove_tag: removes the first occurrence of the normalised tag if it
        is present, and only then moves `last_modified` to `now`. */
    method RemoveTag(raw: string, now: string)
      modifies this
      ensures tags == WithoutTag(old(tags), raw)
      ensures lastModified == (if Normalize(raw) in old(tags) then now else old(lastModified))
      ensures versionHash == old(versionHash) && creationTime == old(creationTime)
    {
      var t := Normalize(raw);
      if t in tags {
        tags := RemoveFirst(tags, t);
        lastModified := now;
      }
    }

    /** to_dict. */
    function ToDict(): (d: TagDict)
      reads this
      ensures Decode(d, lastModified) == Some(Record())
    {
      Encode(Record())
    }

    /** from_dict: None where the source raises for a missing `version_hash`. */
    static method FromDict(d: TagDict, now: string) returns (t: VersionTag?)
      ensures d.versionHash.None? <==> t == null
      ensures t != null ==> fresh(t) && Some(t.Record()) == Decode(d, now)
    {
      if d.versionHash.None? {
        return null;
      }
      t := new VersionTag(d.versionHash.value, now);
      t.tags := d.tags.GetOr(t.tags);
      t.creationTime := d.creationTime.GetOr(t.creationTime);
      t.lastModified := d.lastModified.GetOr(t.lastModified);
    }
  }
}
