/**
 * The time-window collector `fetch_week_videos_top_by_click`
 * (main.py:110-175): it walks the pages of the search sorted by publication
 * date, keeps every video published in the last seven days once per bvid,
 * stops at the first failed, empty or entirely older page, and returns the
 * most played records.
 */
module WeekCollector {
  import opened Prelude
  import opened CountNormalizer
  import opened Items
  import opened StableSort

  /** Length of the window in seconds: seven days. */
  const Week: int := 7 * 24 * 60 * 60

  /** The sort key of the collector: the play count. */
  function PlayKey(v: Video): real { v.play as real }

  /** A video item published at or after `start`. */
  predicate InWindow(item: Item, start: int)
  {
    IsVideo(item) && item.pubdate >= start
  }

  /** The `all_older` flag after looking at `items`: none of them is an in-window video. */
  predicate AllOlder(items: seq<Item>, start: int)
  {
    forall k :: 0 <= k < |items| ==> !InWindow(items[k], start)
  }

  /** One turn of the inner loop (main.py:142-165). */
  function ScanItem(item: Item, start: int, sc: Scan): Scan
  {
    if !InWindow(item, start) || item.bvid == "" || item.bvid in sc.seen then sc
    else Scan(sc.seen + {item.bvid}, sc.collected + [WeekRecord(item)])
  }

  /** The inner loop over the items of one page. */
  function ScanItems(items: seq<Item>, start: int, sc: Scan): Scan
    decreases |items|
  {
    if items == [] then sc
    else ScanItem(items[|items| - 1], start, ScanItems(items[..|items| - 1], start, sc))
  }

  /** A page on which the loop over pages breaks. */
  predicate Stops(resp: PageResponse, start: int)
  {
    resp.Failed? || resp.items == [] || AllOlder(resp.items, start)
  }

  /** The loop over pages from `page` on (main.py:120-171). */
  function WeekFrom(pages: seq<PageResponse>, start: int, maxPages: int, page: int, sc: Scan): Pass
    decreases maxPages - page
  {
    if page > maxPages then Pass(sc, page - 1)
    else
      match ResponseAt(pages, page)
      case Failed => Pass(sc, page)
      case Page(items) =>
        if items == [] then Pass(sc, page)
        else
          var next := ScanItems(items, start, sc);
          if AllOlder(items, start) then Pass(next, page)
          else WeekFrom(pages, start, maxPages, page + 1, next)
  }

  /** The records the collector holds when its loop over pages ends. */
  function WeekPass(pages: seq<PageResponse>, now: int, maxPages: int): Pass
  {
    WeekFrom(pages, now - Week, maxPages, 1, Scan({}, []))
  }

  /** What the collector keeps true of its state. */
  predicate Good(sc: Scan, start: int)
  {
    (forall v :: v in sc.collected ==> v.pubdate >= start && v.bvid != "" && v.bvid in sc.seen)
    && DistinctBy(sc.collected, BvidOf)
  }

  /**
   * `fetch_week_videos_top_by_click(limit, max_pages)` with the pages the
   * API answers given as `pages` and the clock reading as `now`.
   * `requested` is how many pages were asked for.
   */
  method FetchWeekTopByPlay(pages: seq<PageResponse>, now: int, limit: int, maxPages: int)
    returns (top: seq<Video>, requested: int)
    ensures var pass := WeekPass(pages, now, maxPages);
      top == Take(SortDesc(pass.scan.collected, PlayKey), limit) && requested == pass.requested
    ensures forall v :: v in top ==> v.pubdate >= now - Week && v.bvid != ""
    ensures DistinctBy(top, BvidOf)
    ensures SortedDesc(top, PlayKey)
    ensures limit >= 0 ==> |top| <= limit
    ensures 0 <= requested <= Max(maxPages, 0)
  {
    var start := now - Week;
    var collected: seq<Video> := [];
    var seen: set<string> := {};
    var page := 1;
    requested := 0;
    while page <= maxPages
      invariant 1 <= page && requested == page - 1 <= Max(maxPages, 0)
      invariant Good(Scan(seen, collected), start)
      invariant WeekFrom(pages, start, maxPages, page, Scan(seen, collected)) == WeekPass(pages, now, maxPages)
      decreases maxPages - page
    {
      requested := page;
      var resp := ResponseAt(pages, page);
      if resp.Failed? || resp.items == [] {
        break;
      }
      var items := resp.items;
      ScanItemsGood(items, start, Scan(seen, collected));
      var allOlder;
      seen, collected, allOlder := ScanPage(items, start, seen, collected);
      if allOlder {
        break;
      }
      page := page + 1;
    }
    assert WeekPass(pages, now, maxPages) == Pass(Scan(seen, collected), requested);
    SortedOutput(Scan(seen, collected), start, limit);
    collected := SortDesc(collected, PlayKey);
    top := Take(collected, limit);
  }

  /**
   * The loop over the items of one page (main.py:141-165): `allOlder` tells
   * whether none of them was an in-window video.
   */
  method ScanPage(items: seq<Item>, start: int, seen0: set<string>, collected0: seq<Video>)
    returns (seen: set<string>, collected: seq<Video>, allOlder: bool)
    ensures Scan(seen, collected) == ScanItems(items, start, Scan(seen0, collected0))
    ensures allOlder <==> AllOlder(items, start)
  {
    seen, collected := seen0, collected0;
    allOlder := true;
    for i := 0 to |items|
      invariant Scan(seen, collected) == ScanItems(items[..i], start, Scan(seen0, collected0))
      invariant allOlder <==> AllOlder(items[..i], start)
    {
      assert items[..i + 1][..i] == items[..i];
      var item := items[i];
      if item.kind != "video" {
        continue;
      }
      if item.pubdate >= start {
        allOlder := false;
        var bvid := item.bvid;
        if bvid == "" || bvid in seen {
          continue;
        }
        seen := seen + {bvid};
        collected := collected + [WeekRecord(item)];
      }
    }
    assert items[..|items|] == items;
  }

  lemma ScanItemGood(item: Item, start: int, sc: Scan)
    requires Good(sc, start)
    ensures Good(ScanItem(item, start, sc), start)
  {
    var next := ScanItem(item, start, sc);
    if next != sc {
      var c := next.collected;
      forall i, j | 0 <= i < j < |c|
        ensures BvidOf(c[i]) != BvidOf(c[j])
      {
        if j == |c| - 1 {
          assert c[i] in sc.collected;
        } else {
          assert c[i] == sc.collected[i] && c[j] == sc.collected[j];
        }
      }
    }
  }

  lemma {:induction false} ScanItemsGood(items: seq<Item>, start: int, sc: Scan)
    requires Good(sc, start)
    ensures Good(ScanItems(items, start, sc), start)
    decreases |items|
  {
    if items != [] {
      ScanItemsGood(items[..|items| - 1], start, sc);
      ScanItemGood(items[|items| - 1], start, ScanItems(items[..|items| - 1], start, sc));
    }
  }

  /** The collector's answer: sorted by play, in the window, bvids distinct, at most `limit` long. */
  lemma SortedOutput(sc: Scan, start: int, limit: int)
    requires Good(sc, start)
    ensures var top := Take(SortDesc(sc.collected, PlayKey), limit);
      && (forall v :: v in top ==> v.pubdate >= start && v.bvid != "")
      && DistinctBy(top, BvidOf)
      && SortedDesc(top, PlayKey)
      && (limit >= 0 ==> |top| <= limit)
  {
    var sorted := SortDesc(sc.collected, PlayKey);
    var top := Take(sorted, limit);
    SortDescSorted(sc.collected, PlayKey);
    SortDescDistinct(sc.collected, PlayKey, BvidOf);
    forall v | v in top
      ensures v.pubdate >= start && v.bvid != ""
    {
      assert v in sorted;
      SortDescMembers(sc.collected, PlayKey, v);
    }
  }

  lemma {:induction false} ScanItemsExtends(items: seq<Item>, start: int, sc: Scan)
    ensures sc.collected <= ScanItems(items, start, sc).collected
    decreases |items|
  {
    if items != [] {
      ScanItemsExtends(items[..|items| - 1], start, sc);
    }
  }

  /** Records gathered before a break are kept: the walk only ever appends. */
  lemma {:induction false} WeekFromKeeps(pages: seq<PageResponse>, start: int, maxPages: int, page: int, sc: Scan)
    ensures sc.collected <= WeekFrom(pages, start, maxPages, page, sc).scan.collected
    decreases maxPages - page
  {
    if page <= maxPages && ResponseAt(pages, page).Page? && ResponseAt(pages, page).items != [] {
      var items := ResponseAt(pages, page).items;
      ScanItemsExtends(items, start, sc);
      if !AllOlder(items, start) {
        WeekFromKeeps(pages, start, maxPages, page + 1, ScanItems(items, start, sc));
      }
    }
  }

  /**
   * The walk requests pages `page`, `page + 1`, ... until the first one that
   * fails, is empty or holds no in-window video, or until `maxPages`.
   */
  lemma {:induction false} WeekFromStops(pages: seq<PageResponse>, start: int, maxPages: int, page: int, sc: Scan)
    requires page >= 1
    ensures var r := WeekFrom(pages, start, maxPages, page, sc).requested;
      && page - 1 <= r <= Max(maxPages, page - 1)
      && (forall q :: page <= q < r ==> !Stops(ResponseAt(pages, q), start))
      && (r < maxPages ==> page <= r && Stops(ResponseAt(pages, r), start))
    decreases maxPages - page
  {
    if page <= maxPages && !Stops(ResponseAt(pages, page), start) {
      var items := ResponseAt(pages, page).items;
      WeekFromStops(pages, start, maxPages, page + 1, ScanItems(items, start, sc));
    }
  }

  /** The walk reads no page after the one it stopped at. */
  lemma {:induction false} WeekFromIgnoresLater(pages: seq<PageResponse>, other: seq<PageResponse>, start: int, maxPages: int, page: int, sc: Scan)
    requires forall q :: page <= q <= WeekFrom(pages, start, maxPages, page, sc).requested ==> ResponseAt(other, q) == ResponseAt(pages, q)
    ensures WeekFrom(other, start, maxPages, page, sc) == WeekFrom(pages, start, maxPages, page, sc)
    decreases maxPages - page
  {
    if page <= maxPages {
      WeekFromRequestsPage(pages, start, maxPages, page, sc);
      assert ResponseAt(other, page) == ResponseAt(pages, page);
      if !Stops(ResponseAt(pages, page), start) {
        var items := ResponseAt(pages, page).items;
        WeekFromIgnoresLater(pages, other, start, maxPages, page + 1, ScanItems(items, start, sc));
      }
    }
  }

  /** `WeekFromStops` for the collector's whole walk, which starts at page 1. */
  lemma WeekPassStops(pages: seq<PageResponse>, now: int, maxPages: int)
    ensures var r := WeekPass(pages, now, maxPages).requested;
      && 0 <= r <= Max(maxPages, 0)
      && (forall q :: 1 <= q < r ==> !Stops(ResponseAt(pages, q), now - Week))
      && (r < maxPages ==> 1 <= r && Stops(ResponseAt(pages, r), now - Week))
  {
    WeekFromStops(pages, now - Week, maxPages, 1, Scan({}, []));
  }

  /** A first page with no video of the last seven days ends the walk with nothing collected. */
  lemma FirstPageOlder(pages: seq<PageResponse>, now: int, limit: int, maxPages: int)
    requires maxPages >= 1 && |pages| >= 1 && pages[0].Page? && AllOlder(pages[0].items, now - Week)
    ensures WeekPass(pages, now, maxPages) == Pass(Scan({}, []), 1)
  {
    var items := pages[0].items;
    var start := now - Week;
    NoneInWindowChangesNothing(items, start, Scan({}, []));
  }

  lemma {:induction false} NoneInWindowChangesNothing(items: seq<Item>, start: int, sc: Scan)
    requires AllOlder(items, start)
    ensures ScanItems(items, start, sc) == sc
    decreases |items|
  {
    if items != [] {
      NoneInWindowChangesNothing(items[..|items| - 1], start, sc);
      assert !InWindow(items[|items| - 1], start);
    }
  }

  lemma {:induction false} WeekFromRequestsPage(pages: seq<PageResponse>, start: int, maxPages: int, page: int, sc: Scan)
    requires page <= maxPages
    ensures WeekFrom(pages, start, maxPages, page, sc).requested >= page
    decreases maxPages - page
  {
    if page + 1 <= maxPages && !Stops(ResponseAt(pages, page), start) {
      var items := ResponseAt(pages, page).items;
      WeekFromRequestsPage(pages, start, maxPages, page + 1, ScanItems(items, start, sc));
    }
  }

  /** Every record was built from an in-window video item of some answered page. */
  predicate FromItems(sc: Scan, source: seq<Item>, start: int)
  {
    forall v :: v in sc.collected ==> exists it :: it in source && InWindow(it, start) && WeekRecord(it) == v
  }

  lemma {:induction false} ScanItemsFrom(items: seq<Item>, source: seq<Item>, start: int, sc: Scan)
    requires FromItems(sc, source, start)
    requires forall k :: 0 <= k < |items| ==> items[k] in source
    ensures FromItems(ScanItems(items, start, sc), source, start)
    decreases |items|
  {
    if items != [] {
      var init, last := items[..|items| - 1], items[|items| - 1];
      ScanItemsFrom(init, source, start, sc);
      var mid := ScanItems(init, start, sc);
      forall v | v in ScanItem(last, start, mid).collected
        ensures exists it :: it in source && InWindow(it, start) && WeekRecord(it) == v
      {
        if v !in mid.collected {
          assert v == WeekRecord(last) && last in source;
        }
      }
    }
  }

  lemma {:induction false} WeekFromFrom(pages: seq<PageResponse>, start: int, maxPages: int, page: int, sc: Scan)
    requires FromItems(sc, AllItems(pages), start)
    ensures FromItems(WeekFrom(pages, start, maxPages, page, sc).scan, AllItems(pages), start)
    decreases maxPages - page
  {
    if page <= maxPages && !Stops(ResponseAt(pages, page), start) {
      var items := ResponseAt(pages, page).items;
      forall k | 0 <= k < |items|
        ensures items[k] in AllItems(pages)
      {
        InAllItems(pages, page, k);
      }
      ScanItemsFrom(items, AllItems(pages), start, sc);
      WeekFromFrom(pages, start, maxPages, page + 1, ScanItems(items, start, sc));
    } else if page <= maxPages && ResponseAt(pages, page).Page? && ResponseAt(pages, page).items != [] {
      NoneInWindowChangesNothing(ResponseAt(pages, page).items, start, sc);
    }
  }

  /** Every record the collector returns comes from a video of the last seven days on an answered page. */
  lemma WeekPassFrom(pages: seq<PageResponse>, now: int, maxPages: int)
    ensures FromItems(WeekPass(pages, now, maxPages).scan, AllItems(pages), now - Week)
  {
    WeekFromFrom(pages, now - Week, maxPages, 1, Scan({}, []));
  }

  /** One turn keeps `seen` equal to the bvids collected, and covers its item. */
  lemma ScanItemTracks(item: Item, start: int, sc: Scan)
    requires Tracks(sc)
    ensures var r := ScanItem(item, start, sc);
      && Tracks(r) && sc.seen <= r.seen
      && (InWindow(item, start) && item.bvid != "" ==> item.bvid in r.seen)
  {
    if InWindow(item, start) && item.bvid != "" && item.bvid !in sc.seen {
      IdsAppend(sc.collected, WeekRecord(item));
    }
  }

  /**
   * The converse of ScanItemsGood: after the item loop, every in-window
   * video item with a bvid has that bvid among the collected records.
   */
  lemma {:induction false} ScanItemsCovers(items: seq<Item>, start: int, sc: Scan)
    requires Tracks(sc)
    ensures var r := ScanItems(items, start, sc);
      && Tracks(r) && sc.seen <= r.seen
      && (forall k :: 0 <= k < |items| && InWindow(items[k], start) && items[k].bvid != "" ==> items[k].bvid in r.seen)
    decreases |items|
  {
    if items != [] {
      var init := items[..|items| - 1];
      ScanItemsCovers(init, start, sc);
      ScanItemTracks(items[|items| - 1], start, ScanItems(init, start, sc));
      forall k | 0 <= k < |items| - 1
        ensures items[k] == init[k]
      {
      }
    }
  }

  /** Every in-window video item with a bvid on a page the loop scanned ends up collected. */
  lemma {:induction false} WeekFromCovers(pages: seq<PageResponse>, start: int, maxPages: int, page: int, sc: Scan)
    requires Tracks(sc)
    ensures var r := WeekFrom(pages, start, maxPages, page, sc);
      && Tracks(r.scan) && sc.seen <= r.scan.seen
      && (forall q, k :: page <= q <= r.requested && ResponseAt(pages, q).Page? && 0 <= k < |ResponseAt(pages, q).items|
            && InWindow(ResponseAt(pages, q).items[k], start) && ResponseAt(pages, q).items[k].bvid != ""
            ==> ResponseAt(pages, q).items[k].bvid in r.scan.seen)
    decreases maxPages - page
  {
    if page <= maxPages && ResponseAt(pages, page).Page? && ResponseAt(pages, page).items != [] {
      var items := ResponseAt(pages, page).items;
      var next := ScanItems(items, start, sc);
      ScanItemsCovers(items, start, sc);
      if !AllOlder(items, start) {
        WeekFromCovers(pages, start, maxPages, page + 1, next);
      }
    }
  }

  /**
   * The collector misses nothing it looked at: `seen` is exactly the set of
   * collected bvids, and every in-window video item with a bvid on a page
   * it requested is among them.
   */
  lemma WeekPassCovers(pages: seq<PageResponse>, now: int, maxPages: int)
    ensures var r := WeekPass(pages, now, maxPages);
      && r.scan.seen == Ids(r.scan.collected)
      && (forall q, k :: 1 <= q <= r.requested && ResponseAt(pages, q).Page? && 0 <= k < |ResponseAt(pages, q).items|
            && InWindow(ResponseAt(pages, q).items[k], now - Week) && ResponseAt(pages, q).items[k].bvid != ""
            ==> ResponseAt(pages, q).items[k].bvid in Ids(r.scan.collected))
  {
    assert Ids([]) == {};
    WeekFromCovers(pages, now - Week, maxPages, 1, Scan({}, []));
  }
}
