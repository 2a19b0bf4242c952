/** The current entry of a status history (`getLatestStatus`,
    src/components/dashboard.tsx): a copy of the history sorted newest first
    by date, of which the first element is taken. The sort is stable, so among
    entries sharing the greatest date the one recorded first wins. The history
    passed in is never changed: the function works on a copy. */
module History {
  import opened Types

  /** Position of the entry that getLatestStatus returns. */
  function LatestIndex(h: seq<StatusEntry>): (k: nat)
    requires |h| > 0
    ensures k < |h|
    ensures forall j :: 0 <= j < |h| ==> h[j].date <= h[k].date
    ensures forall j :: 0 <= j < k ==> h[j].date < h[k].date
  {
    if |h| == 1 then 0
    else
      var k := LatestIndex(h[..|h| - 1]);
      if h[|h| - 1].date > h[k].date then |h| - 1 else k
  }

  function Latest(h: seq<StatusEntry>): StatusEntry
    requires |h| > 0
  {
    h[LatestIndex(h)]
  }

  function CurrentStatus(h: seq<StatusEntry>): Status
    requires |h| > 0
  {
    Latest(h).status
  }

  /** The two properties in LatestIndex's contract pin the index down: it is the
      first position holding the greatest date. */
  lemma LatestIndexUnique(h: seq<StatusEntry>, k: nat)
    requires k < |h|
    requires forall j :: 0 <= j < |h| ==> h[j].date <= h[k].date
    requires forall j :: 0 <= j < k ==> h[j].date < h[k].date
    ensures LatestIndex(h) == k
  {
  }

  /** An entry dated after every recorded entry becomes the current one. */
  lemma LatestAfterNewerAppend(h: seq<StatusEntry>, e: StatusEntry)
    requires |h| > 0
    requires forall j :: 0 <= j < |h| ==> h[j].date < e.date
    ensures Latest(h + [e]) == e
  {
    assert (h + [e])[..|h|] == h;
  }

  /** An entry dated no later than the current one leaves the current entry in
      place: with equal dates the earlier entry keeps winning. */
  lemma LatestAfterOlderAppend(h: seq<StatusEntry>, e: StatusEntry)
    requires |h| > 0
    requires e.date <= Latest(h).date
    ensures Latest(h + [e]) == Latest(h)
  {
    assert (h + [e])[..|h|] == h;
  }
}
