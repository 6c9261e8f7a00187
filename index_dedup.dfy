/** The duplicate-removal pass of index_dedup.py: the ids of the indexed
    documents, in the order the scan returns them, are checked against the
    ids seen so far, and every repeat is counted and deleted. The scan is
    the input sequence; each delete request is appended to a log. */
module IndexDedup {
  import opened Sequences

  /** The ids of a scan that occurred earlier in it, one entry per such
      occurrence, in scan order. */
  function Repeats(ids: seq<string>): seq<string> {
    if ids == [] then []
    else
      var init, id := ids[..|ids| - 1], ids[|ids| - 1];
      Repeats(init) + (if id in init then [id] else [])
  }

  /** The loop of index_dedup.py: `seen` maps every id met so far to true,
      and each id met again is counted and deleted. */
  method RemoveDuplicates(ids: seq<string>) returns (seen: map<string, bool>, duplicateCount: nat, deleted: seq<string>)
    ensures seen.Keys == Elements(ids)
    ensures forall id :: id in seen ==> seen[id]
    ensures deleted == Repeats(ids)
    ensures duplicateCount == |deleted|
  {
    seen := map[];
    duplicateCount := 0;
    deleted := [];
    for i := 0 to |ids|
      invariant seen.Keys == Elements(ids[..i])
      invariant forall id :: id in seen ==> seen[id]
      invariant deleted == Repeats(ids[..i])
      invariant duplicateCount == |deleted|
    {
      var documentId := ids[i];
      DistinctStep(ids, i);
      if documentId in seen {
        duplicateCount := duplicateCount + 1;
        deleted := deleted + [documentId];
      } else {
        seen := seen[documentId := true];
      }
    }
    assert ids[..|ids|] == ids;
  }

  /** One more id of the scan: it joins the distinct ids, and it is a repeat
      exactly when it is among the distinct ids before it. */
  lemma DistinctStep(ids: seq<string>, i: nat)
    requires i < |ids|
    ensures Elements(ids[..i + 1]) == Elements(ids[..i]) + {ids[i]}
    ensures Repeats(ids[..i + 1]) == Repeats(ids[..i]) + (if ids[i] in Elements(ids[..i]) then [ids[i]] else [])
  {
    var prefix := ids[..i + 1];
    assert prefix[..i] == ids[..i];
    forall id | id in Elements(ids[..i]) ensures id in ids[..i] {
      var k :| 0 <= k < i && ids[..i][k] == id;
    }
  }

  /** Each id is deleted once for every occurrence after its first: never
      at its first occurrence, and never when it occurs only once. */
  lemma {:induction false} RepeatsPerId(ids: seq<string>, id: string)
    ensures multiset(Repeats(ids))[id] == multiset(ids)[id] - (if id in ids then 1 else 0)
  {
    if ids != [] {
      var init, last := ids[..|ids| - 1], ids[|ids| - 1];
      RepeatsPerId(init, id);
      assert ids == init + [last];
    }
  }

  /** So the number of deletes is the number of ids scanned minus the number
      of distinct ids. */
  lemma {:induction false} RepeatsCount(ids: seq<string>)
    ensures |Repeats(ids)| == |ids| - |Elements(ids)|
  {
    if ids != [] {
      var n := |ids|;
      var init, last := ids[..n - 1], ids[n - 1];
      RepeatsCount(init);
      DistinctStep(ids, n - 1);
      assert ids[..n] == ids;
      if last in init {
        var k :| 0 <= k < n - 1 && init[k] == last;
        assert last in Elements(init);
      } else {
        assert last !in Elements(init);
      }
    }
  }

  /** Every delete is for an id that occurred earlier in the scan than the
      occurrence being deleted. */
  lemma {:induction false} DeletedIdsOccurredEarlier(ids: seq<string>, k: nat)
    requires k < |Repeats(ids)|
    ensures exists i, j :: 0 <= i < j < |ids| && ids[i] == ids[j] == Repeats(ids)[k]
  {
    var n := |ids|;
    var init, last := ids[..n - 1], ids[n - 1];
    if k < |Repeats(init)| {
      DeletedIdsOccurredEarlier(init, k);
      var i, j :| 0 <= i < j < n - 1 && init[i] == init[j] == Repeats(init)[k];
      assert ids[i] == ids[j] == Repeats(ids)[k];
    } else {
      var i :| 0 <= i < n - 1 && init[i] == last;
      assert ids[i] == ids[n - 1] == Repeats(ids)[k];
    }
  }

  /** As the scan goes on the deletes already issued stay as they are, so
      the duplicate count never decreases, and the seen ids only grow. */
  lemma {:induction false} ScanPrefixGrows(ids: seq<string>, i: nat, j: nat)
    requires i <= j <= |ids|
    ensures Repeats(ids[..i]) <= Repeats(ids[..j])
    ensures Elements(ids[..i]) <= Elements(ids[..j])
    decreases j - i
  {
    if i < j {
      ScanPrefixGrows(ids, i, j - 1);
      DistinctStep(ids, j - 1);
    }
  }
}
