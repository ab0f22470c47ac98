// NewFeedReader of rss.go: every five minutes it fetches an RSS document and
// sends on each item whose <guid> it has not seen before. The feed's `seen` map
// lives as long as the reader; a failure to read the body or to unmarshal the
// XML returns before the loop. Unmarshalling itself is not modelled: the tick
// takes the document's items, or None for either failure.

module Feed {
  import opened Jobs
  import opened Dedup

  /** One <item> of the channel; a missing <guid> unmarshals as "". */
  datatype RssItem = RssItem(id: string, title: string, description: string, link: string, pubDate: string, updated: string)

  /** One iteration of the reader's loop: an unseen guid sends its item, a seen one is skipped; nothing fails. */
  function FeedVisit(seen: set<string>, item: RssItem): (r: Visit<RssItem>)
    ensures !r.Abort?
    ensures r.Skip? <==> item.id in seen
    ensures r.Emit? ==> r.key == item.id && r.out == item
  {
    if item.id in seen then Skip else Emit(item.id, item)
  }

  function FeedDecide(): (set<string>, RssItem) -> Visit<RssItem> {
    (seen: set<string>, item: RssItem) => FeedVisit(seen, item)
  }

  /** The guids of a list of items. */
  function Ids(items: seq<RssItem>): set<string> {
    set i | 0 <= i < |items| :: items[i].id
  }

  /**
   * The items of a document the reader should send, stated without any
   * seen-set threading: those whose guid was not seen before the tick and is not
   * the guid of an earlier item of the same document, in document order.
   */
  function FirstUnseen(items: seq<RssItem>, seen: set<string>): seq<RssItem>
    decreases |items|
  {
    if items == [] then []
    else
      var init, last := items[..|items| - 1], items[|items| - 1];
      FirstUnseen(init, seen) + (if last.id in seen || last.id in Ids(init) then [] else [last])
  }

  /**
   * A tick of the reader sends exactly FirstUnseen of the document, never fails
   * inside the loop, and leaves every guid of the document in seen.
   */
  lemma {:induction false} FeedScanIsFirstUnseen(seen: set<string>, items: seq<RssItem>)
    ensures var r := ScanSpec(seen, items, FeedDecide());
      r.sent == FirstUnseen(items, seen) && r.seen == seen + Ids(items) && r.status == Done
    decreases |items|
  {
    if items != [] {
      var init := items[..|items| - 1];
      FeedScanIsFirstUnseen(seen, init);
      IdsSnoc(items);
    }
  }

  lemma IdsSnoc(items: seq<RssItem>)
    requires items != []
    ensures Ids(items) == Ids(items[..|items| - 1]) + {items[|items| - 1].id}
  {
    var init := items[..|items| - 1];
    forall x | x in Ids(items) ensures x in Ids(init) + {items[|items| - 1].id} {
      var i :| 0 <= i < |items| && items[i].id == x;
      if i < |items| - 1 {
        assert init[i] == items[i];
      }
    }
    forall x | x in Ids(init) ensures x in Ids(items) {
      var i :| 0 <= i < |init| && init[i].id == x;
      assert items[i] == init[i];
    }
  }

  /** No two items of `out` share a guid. */
  predicate DistinctIds(out: seq<RssItem>) {
    forall i, j :: 0 <= i < j < |out| ==> out[i].id != out[j].id
  }

  /**
   * Within one document a repeated guid is sent at most for its first
   * occurrence, and nothing is sent whose guid was seen before the tick.
   */
  lemma {:induction false} FirstUnseenDistinct(items: seq<RssItem>, seen: set<string>)
    ensures DistinctIds(FirstUnseen(items, seen))
    ensures forall x :: x in FirstUnseen(items, seen) ==> x.id !in seen && x.id in Ids(items)
    decreases |items|
  {
    if items != [] {
      var init, last := items[..|items| - 1], items[|items| - 1];
      FirstUnseenDistinct(init, seen);
      IdsSnoc(items);
      var prev := FirstUnseen(init, seen);
      if !(last.id in seen || last.id in Ids(init)) {
        var out := prev + [last];
        assert FirstUnseen(items, seen) == out;
        forall i, j | 0 <= i < j < |out| ensures out[i].id != out[j].id {
          assert out[i] == prev[i] || i == |prev|;
          if j == |out| - 1 {
            assert out[i] in prev;
          } else {
            assert out[j] == prev[j];
          }
        }
      } else {
        assert FirstUnseen(items, seen) == prev;
      }
    }
  }

  /** The reader's state: its seen map, and (ghost) every guid it has sent. */
  class FeedReader {
    var seen: set<string>
    ghost var history: seq<string>

    ghost predicate Valid()
      reads this
    {
      NoDup(history) && Elems(history) <= seen
    }

    constructor ()
      ensures Valid() && seen == {} && history == []
    {
      seen, history := {}, [];
    }

    /**
     * One tick: `doc` is None when reading the body or unmarshalling fails, and
     * then nothing is sent and seen is unchanged. Over the reader's lifetime no
     * guid is sent twice, so at most one guid-less item is ever sent.
     */
    method Tick(doc: Option<seq<RssItem>>) returns (sent: seq<RssItem>)
      requires Valid()
      modifies this
      ensures Valid()
      ensures doc.None? ==> sent == [] && seen == old(seen) && history == old(history)
      ensures doc.Some? ==> sent == FirstUnseen(doc.value, old(seen)) && seen == old(seen) + Ids(doc.value)
      ensures old(seen) <= seen
      ensures |history| == |old(history)| + |sent| && history[..|old(history)|] == old(history)
      ensures forall i :: 0 <= i < |sent| ==> history[|old(history)| + i] == sent[i].id
      ensures multiset(history)[""] <= 1
    {
      if doc.None? {
        NoDupAtMostOnce(history, "");
        return [];
      }
      var r := RunScan(seen, doc.value, FeedDecide());
      FeedScanIsFirstUnseen(seen, doc.value);
      ScanFresh(seen, doc.value, FeedDecide());
      assert forall i :: 0 <= i < |r.sent| ==> r.keys[i] == r.sent[i].id by {
        KeysAreIds(seen, doc.value);
      }
      HistoryStaysDistinct(history, seen, r.keys, r.seen);
      seen := r.seen;
      history := history + r.keys;
      sent := r.sent;
      NoDupAtMostOnce(history, "");
    }
  }

  /** Each item the reader sends is sent under its own guid. */
  lemma {:induction false} KeysAreIds(seen: set<string>, items: seq<RssItem>)
    ensures var r := ScanSpec(seen, items, FeedDecide());
      |r.keys| == |r.sent| && forall i :: 0 <= i < |r.sent| ==> r.keys[i] == r.sent[i].id
    decreases |items|
  {
    if items != [] {
      KeysAreIds(seen, items[..|items| - 1]);
    }
  }
}
