/**
 read_cached_file: a cache of file contents with their modification times. The file may be written between
 the moment its time is sampled and the moment it is read.
 */
module FileCache {

  // The file at an instant
  datatype Version = Gone | File(mtime: int, contents: string)

  // _FILE_CACHE[filename]: no key, the empty dictionary, or data with its time
  datatype Entry = Absent | Empty | Cached(mtime: int, data: string)

  // Failed: getmtime or open raised.
  datatype Result = Failed | Got(reloaded: bool, data: string)

  // One call, for the file as it is when its time is sampled and when it is loaded
  function ReadOnce(e: Entry, forceReload: bool, sampled: Version, loaded: Version): (Result, Entry) {
    var e1 := if forceReload then Absent else e;
    if sampled.Gone? then (Failed, e1)
    else
      var e2 := if e1.Absent? then Empty else e1;
      if e2.Cached? && sampled.mtime <= e2.mtime then (Got(false, e2.data), e2)
      else if loaded.Gone? then (Failed, e2)
      else (Got(true, loaded.contents), Cached(sampled.mtime, loaded.contents))
  }

  class Cache {
    var entries: map<string, Entry>

    function EntryOf(filename: string): Entry
      reads this
    {
      if filename in entries then entries[filename] else Absent
    }

    // A reload is forced, or there is no data, or the file has a later time.
    predicate IsDue(filename: string, forceReload: bool, sampled: Version)
      requires sampled.File?
      reads this
    {
      var e := EntryOf(filename);
      forceReload || !e.Cached? || e.mtime < sampled.mtime
    }

    twostate predicate OthersKept(filename: string)
      reads this
    {
      forall f :: f != filename ==> EntryOf(f) == old(EntryOf(f))
    }

    method DeleteCachedFile(filename: string)
      modifies this
      ensures EntryOf(filename) == Absent && OthersKept(filename)
    {
      if filename in entries {
        entries := entries - {filename};
      }
    }

    method ReadCachedFile(filename: string, forceReload: bool, sampled: Version, loaded: Version) returns (r: Result)
      modifies this
      ensures (r, EntryOf(filename)) == ReadOnce(old(EntryOf(filename)), forceReload, sampled, loaded)
      ensures r.Failed? <==> sampled.Gone? || (old(IsDue(filename, forceReload, sampled)) && loaded.Gone?)
      ensures r.Got? ==> (r.reloaded <==> old(IsDue(filename, forceReload, sampled)))
      ensures r.Got? ==> r.data == if r.reloaded then loaded.contents else old(EntryOf(filename)).data
      ensures OthersKept(filename)
    {
      if forceReload {
        DeleteCachedFile(filename);
      }
      var reloaded := false;
      if sampled.Gone? {
        return Failed;
      }
      var mtime := sampled.mtime;
      if EntryOf(filename).Absent? {   // setdefault
        entries := entries[filename := Empty];
      }
      var cacheInfo := EntryOf(filename);
      if cacheInfo.Empty? || mtime > cacheInfo.mtime {
        if loaded.Gone? {
          return Failed;
        }
        cacheInfo := Cached(mtime, loaded.contents);
        entries := entries[filename := cacheInfo];
        reloaded := true;
      }
      return Got(reloaded, cacheInfo.data);
    }
  }

  // --- runs over the history of a file ---

  // A call that samples the time at one instant and opens the file at another, or a delete_cached_file
  datatype Op = Read(forceReload: bool, sampled: nat, loaded: nat) | Delete

  predicate Fits(ops: seq<Op>, from: nat, instants: nat) {
    ops == [] ||
    match ops[0]
    case Read(_, i, j) => from <= i <= j < instants && Fits(ops[1..], j, instants)
    case Delete => Fits(ops[1..], from, instants)
  }

  function Step(h: seq<Version>, e: Entry, op: Op): (Result, Entry)
    requires op.Read? ==> op.sampled < |h| && op.loaded < |h|
  {
    if op.Delete? then (Failed, Absent) else ReadOnce(e, op.forceReload, h[op.sampled], h[op.loaded])
  }

  // The file had these contents at an instant of the call.
  predicate Current(h: seq<Version>, i: nat, j: nat, data: string) {
    exists n :: i <= n <= j && n < |h| && h[n].File? && h[n].contents == data
  }

  // Every call of the run returns contents the file had while the call went on.
  predicate AllCurrent(h: seq<Version>, e: Entry, ops: seq<Op>, from: nat)
    requires Fits(ops, from, |h|)
    decreases |ops|
  {
    ops == [] ||
    (var (r, after) := Step(h, e, ops[0]);
     (ops[0].Read? && r.Got? ==> Current(h, ops[0].sampled, ops[0].loaded, r.data)) &&
     AllCurrent(h, after, ops[1..], if ops[0].Read? then ops[0].loaded else from))
  }

  // A time that has not grown means contents that have not changed, also since a read behind the time.
  predicate TimesTell(h: seq<Version>) {
    forall p, q, i :: 0 <= p <= q <= i < |h| && h[p].File? && h[q].File? && h[i].File? && h[i].mtime <= h[p].mtime ==>
      h[q].contents == h[i].contents
  }

  // Every write, also one that makes the file anew, has a later time.
  predicate WritesIncrease(h: seq<Version>) {
    forall p, q :: 0 <= p <= q < |h| && h[p].File? && h[q].File? ==> h[p].mtime < h[q].mtime || h[p] == h[q]
  }

  lemma {:induction false} IncreasingTimesTell(h: seq<Version>)
    requires WritesIncrease(h)
    ensures TimesTell(h)
  {
    forall p, q, i | 0 <= p <= q <= i < |h| && h[p].File? && h[q].File? && h[i].File? && h[i].mtime <= h[p].mtime
      ensures h[q].contents == h[i].contents
    {
      assert h[p].mtime < h[q].mtime || h[p] == h[q];
      assert h[q].mtime < h[i].mtime || h[q] == h[i];
    }
  }

  // The cached data is not older than the cached time.
  predicate EntryOk(h: seq<Version>, e: Entry, now: nat) {
    e.Cached? ==> exists p, q ::
      0 <= p <= q <= now && q < |h| && h[p].File? && h[q].File? && h[p].mtime == e.mtime && h[q].contents == e.data
  }

  lemma {:induction false} ReadKeepsOk(h: seq<Version>, e: Entry, forceReload: bool, i: nat, j: nat, now: nat)
    requires EntryOk(h, e, now) && now <= i <= j < |h|
    ensures EntryOk(h, ReadOnce(e, forceReload, h[i], h[j]).1, j)
  {
    var after := ReadOnce(e, forceReload, h[i], h[j]).1;
    if after.Cached? && after != e {
      assert h[i].mtime == after.mtime && h[j].contents == after.data;
    }
  }

  lemma {:induction false} ReadIsCurrent(h: seq<Version>, e: Entry, forceReload: bool, i: nat, j: nat, now: nat)
    requires TimesTell(h) && EntryOk(h, e, now) && now <= i <= j < |h|
    ensures var r := ReadOnce(e, forceReload, h[i], h[j]).0; r.Got? ==> Current(h, i, j, r.data)
  {
    var r := ReadOnce(e, forceReload, h[i], h[j]).0;
    if r.Got? {
      if r.reloaded {
        assert h[j].contents == r.data;
      } else {
        var p, q :| 0 <= p <= q <= now && q < |h| && h[p].File? && h[q].File? && h[p].mtime == e.mtime &&
          h[q].contents == e.data;
        assert h[i].contents == r.data;
      }
    }
  }

  lemma {:induction false} RunIsCurrent(h: seq<Version>, e: Entry, ops: seq<Op>, now: nat)
    requires TimesTell(h) && EntryOk(h, e, now) && Fits(ops, now, |h|)
    ensures AllCurrent(h, e, ops, now)
    decreases |ops|
  {
    if ops != [] {
      if ops[0].Read? {
        ReadIsCurrent(h, e, ops[0].forceReload, ops[0].sampled, ops[0].loaded, now);
        ReadKeepsOk(h, e, ops[0].forceReload, ops[0].sampled, ops[0].loaded, now);
        RunIsCurrent(h, Step(h, e, ops[0]).1, ops[1..], ops[0].loaded);
      } else {
        RunIsCurrent(h, Absent, ops[1..], now);
      }
    }
  }

  // Otherwise a read behind the old time and one at the new tell it apart.
  lemma {:induction false} StaleRun(h: seq<Version>, p: nat, q: nat, i: nat)
    requires p <= q <= i < |h| && h[p].File? && h[q].File? && h[i].File?
    requires h[i].mtime <= h[p].mtime && h[q].contents != h[i].contents
    ensures var ops := [Read(false, p, q), Read(false, i, i)]; Fits(ops, 0, |h|) && !AllCurrent(h, Absent, ops, 0)
  {
    var first, second := Read(false, p, q), Read(false, i, i);
    var ops := [first, second];
    assert ops[1..] == [second] && ops[1..][1..] == [];
    assert Fits([], i, |h|) && Fits([second], q, |h|);
    var after := Step(h, Absent, first).1;
    assert after == Cached(h[p].mtime, h[q].contents);
    assert Step(h, after, second).0 == Got(false, h[q].contents);
    assert !AllCurrent(h, after, [second], q);
  }

  /**
   Every call returns contents the file had at some instant of the call, over every run, just if a time that has
   not grown means unchanged contents. Writers that strictly increase the time see to that.
   */
  lemma {:induction false} ReadsAreCurrent(h: seq<Version>)
    ensures (forall ops | Fits(ops, 0, |h|) :: AllCurrent(h, Absent, ops, 0)) <==> TimesTell(h)
    ensures WritesIncrease(h) ==> TimesTell(h)
  {
    if TimesTell(h) {
      forall ops | Fits(ops, 0, |h|) ensures AllCurrent(h, Absent, ops, 0) {
        RunIsCurrent(h, Absent, ops, 0);
      }
    } else {
      var p, q, i :| 0 <= p <= q <= i < |h| && h[p].File? && h[q].File? && h[i].File? && h[i].mtime <= h[p].mtime &&
        h[q].contents != h[i].contents;
      StaleRun(h, p, q, i);
    }
    if WritesIncrease(h) {
      IncreasingTimesTell(h);
    }
  }
}
