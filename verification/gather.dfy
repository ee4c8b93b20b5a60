/**
 * The candidate gatherer `fetch_top_click_candidates` (main.py:177-230): it
 * walks the pages of the search sorted by clicks, takes each video once per
 * bvid until it holds `count` records or has asked for `maxPages` pages, and
 * returns them sorted by click.
 */
module CandidateGatherer {
  import opened Prelude
  import opened Items
  import opened StableSort

  /** The sort key of the gatherer: the click count. */
  function ClickKey(v: Video): real { v.click as real }

  /** One turn of the inner loop before the count check (main.py:202-221). */
  function GatherItem(item: Item, sc: Scan): Scan
  {
    if !IsVideo(item) || item.bvid == "" || item.bvid in sc.seen then sc
    else Scan(sc.seen + {item.bvid}, sc.collected + [CandidateRecord(item)])
  }

  /** The inner loop over one page, which breaks as soon as an append reaches `count` (main.py:222-223). */
  function GatherItems(items: seq<Item>, count: int, sc: Scan): Scan
    decreases |items|
  {
    if items == [] then sc
    else
      var next := GatherItem(items[0], sc);
      if next != sc && |next.collected| >= count then next
      else GatherItems(items[1..], count, next)
  }

  /** A page on which the loop over pages breaks. */
  predicate Fails(resp: PageResponse)
  {
    resp.Failed? || resp.items == []
  }

  /** The `while` loop from `page` on (main.py:184-226). */
  function GatherFrom(pages: seq<PageResponse>, count: int, maxPages: int, page: int, sc: Scan): Pass
    decreases maxPages - page
  {
    if |sc.collected| >= count || page > maxPages then Pass(sc, page - 1)
    else if Fails(ResponseAt(pages, page)) then Pass(sc, page)
    else GatherFrom(pages, count, maxPages, page + 1, GatherItems(ResponseAt(pages, page).items, count, sc))
  }

  /** The records the gatherer holds when its loop ends. */
  function GatherPass(pages: seq<PageResponse>, count: int, maxPages: int): Pass
  {
    GatherFrom(pages, count, maxPages, 1, Scan({}, []))
  }

  /** What the gatherer keeps true of its state. */
  predicate Good(sc: Scan, count: int)
  {
    (forall v :: v in sc.collected ==> v.bvid != "" && v.bvid in sc.seen)
    && DistinctBy(sc.collected, BvidOf)
    && |sc.collected| <= Max(count, 0)
  }

  /**
   * `fetch_top_click_candidates(candidate_count, max_pages)` with the pages
   * the API answers given as `pages`; `requested` is how many pages were
   * asked for.
   */
  method FetchTopClickCandidates(pages: seq<PageResponse>, count: int, maxPages: int)
    returns (top: seq<Video>, requested: int)
    ensures var pass := GatherPass(pages, count, maxPages);
      top == Take(SortDesc(pass.scan.collected, ClickKey), count) && requested == pass.requested
    ensures forall v :: v in top ==> v.bvid != ""
    ensures DistinctBy(top, BvidOf)
    ensures SortedDesc(top, ClickKey)
    ensures |top| <= Max(count, 0)
    ensures 0 <= requested <= Max(maxPages, 0)
  {
    var collected: seq<Video> := [];
    var seen: set<string> := {};
    var page := 1;
    requested := 0;
    while |collected| < count && page <= maxPages
      invariant 1 <= page && requested == page - 1 <= Max(maxPages, 0)
      invariant Good(Scan(seen, collected), count)
      invariant GatherFrom(pages, count, maxPages, page, Scan(seen, collected)) == GatherPass(pages, count, maxPages)
      decreases maxPages - page
    {
      requested := page;
      var resp := ResponseAt(pages, page);
      if resp.Failed? || resp.items == [] {
        break;
      }
      var items := resp.items;
      GatherItemsGood(items, count, Scan(seen, collected));
      seen, collected := GatherPage(items, count, seen, collected);
      page := page + 1;
    }
    assert GatherPass(pages, count, maxPages) == Pass(Scan(seen, collected), requested);
    SortedOutput(Scan(seen, collected), count);
    collected := SortDesc(collected, ClickKey);
    top := Take(collected, count);
  }

  /**
   * The loop over the items of one page (main.py:202-223), which breaks once
   * an append brings the records to `count`.
   */
  method GatherPage(items: seq<Item>, count: int, seen0: set<string>, collected0: seq<Video>)
    returns (seen: set<string>, collected: seq<Video>)
    ensures Scan(seen, collected) == GatherItems(items, count, Scan(seen0, collected0))
  {
    seen, collected := seen0, collected0;
    for i := 0 to |items|
      invariant GatherItems(items[i..], count, Scan(seen, collected)) == GatherItems(items, count, Scan(seen0, collected0))
    {
      var item := items[i];
      assert items[i..][0] == item && items[i..][1..] == items[i + 1..];
      if item.kind != "video" {
        continue;
      }
      var bvid := item.bvid;
      if bvid == "" || bvid in seen {
        continue;
      }
      seen := seen + {bvid};
      collected := collected + [CandidateRecord(item)];
      if |collected| >= count {
        break;
      }
    }
  }

  lemma GatherItemGood(item: Item, sc: Scan, count: int)
    requires Good(sc, count) && |sc.collected| < count
    ensures Good(GatherItem(item, sc), count)
  {
    var next := GatherItem(item, sc);
    if next != sc {
      var c := next.collected;
      forall i, j | 0 <= i < j < |c|
        ensures BvidOf(c[i]) != BvidOf(c[j])
      {
        if j == |c| - 1 {
          assert c[i] in sc.collected;
        } else {
          assert c[i] == sc.collected[i] && c[j] == sc.collected[j];
        }
      }
    }
  }

  /** The answer: sorted by click, bvids distinct, at most `count` long. */
  lemma SortedOutput(sc: Scan, count: int)
    requires Good(sc, count)
    ensures var top := Take(SortDesc(sc.collected, ClickKey), count);
      && (forall v :: v in top ==> v.bvid != "")
      && DistinctBy(top, BvidOf)
      && SortedDesc(top, ClickKey)
      && |top| <= Max(count, 0)
  {
    var sorted := SortDesc(sc.collected, ClickKey);
    var top := Take(sorted, count);
    SortDescSorted(sc.collected, ClickKey);
    SortDescDistinct(sc.collected, ClickKey, BvidOf);
    SortDescPermutes(sc.collected, ClickKey);
    assert |sorted| == |multiset(sorted)| == |multiset(sc.collected)| == |sc.collected|;
    forall v | v in top
      ensures v.bvid != ""
    {
      assert v in sorted;
      SortDescMembers(sc.collected, ClickKey, v);
    }
  }

  lemma {:induction false} GatherItemsGood(items: seq<Item>, count: int, sc: Scan)
    requires Good(sc, count) && |sc.collected| < count
    ensures Good(GatherItems(items, count, sc), count)
    decreases |items|
  {
    if items != [] {
      GatherItemGood(items[0], sc, count);
      var next := GatherItem(items[0], sc);
      if !(next != sc && |next.collected| >= count) {
        GatherItemsGood(items[1..], count, next);
      }
    }
  }

  lemma {:induction false} GatherFromGood(pages: seq<PageResponse>, count: int, maxPages: int, page: int, sc: Scan)
    requires Good(sc, count)
    ensures Good(GatherFrom(pages, count, maxPages, page, sc).scan, count)
    decreases maxPages - page
  {
    if |sc.collected| < count && page <= maxPages && !Fails(ResponseAt(pages, page)) {
      var items := ResponseAt(pages, page).items;
      GatherItemsGood(items, count, sc);
      GatherFromGood(pages, count, maxPages, page + 1, GatherItems(items, count, sc));
    }
  }

  /**
   * Before sorting, the gatherer holds at most `count` records (the mid-page
   * break), none without a bvid and no two with the same bvid.
   */
  lemma GatherPassGood(pages: seq<PageResponse>, count: int, maxPages: int)
    ensures var c := GatherPass(pages, count, maxPages).scan.collected;
      |c| <= Max(count, 0) && DistinctBy(c, BvidOf) && forall v :: v in c ==> v.bvid != ""
  {
    GatherFromGood(pages, count, maxPages, 1, Scan({}, []));
  }

  /** The loop asks for pages `page` up to at most `maxPages`. */
  lemma {:induction false} GatherFromBounds(pages: seq<PageResponse>, count: int, maxPages: int, page: int, sc: Scan)
    ensures page - 1 <= GatherFrom(pages, count, maxPages, page, sc).requested <= Max(maxPages, page - 1)
    decreases maxPages - page
  {
    if |sc.collected| < count && page <= maxPages && !Fails(ResponseAt(pages, page)) {
      GatherFromBounds(pages, count, maxPages, page + 1, GatherItems(ResponseAt(pages, page).items, count, sc));
    }
  }

  /** Every page but the last one requested was answered with items. */
  lemma {:induction false} GatherFromAnswered(pages: seq<PageResponse>, count: int, maxPages: int, page: int, sc: Scan, q: int)
    requires page <= q < GatherFrom(pages, count, maxPages, page, sc).requested
    ensures !Fails(ResponseAt(pages, q))
    decreases maxPages - page
  {
    if q != page {
      GatherFromAnswered(pages, count, maxPages, page + 1, GatherItems(ResponseAt(pages, page).items, count, sc), q);
    }
  }

  /**
   * The loop ends before `maxPages` only on a page that fails or is empty,
   * or once `count` records are held.
   */
  lemma {:induction false} GatherFromEndsEarly(pages: seq<PageResponse>, count: int, maxPages: int, page: int, sc: Scan)
    requires page >= 1
    ensures var pass := GatherFrom(pages, count, maxPages, page, sc);
      pass.requested < maxPages ==>
        (page <= pass.requested && Fails(ResponseAt(pages, pass.requested))) || |pass.scan.collected| >= count
    decreases maxPages - page
  {
    if |sc.collected| < count && page <= maxPages && !Fails(ResponseAt(pages, page)) {
      GatherFromEndsEarly(pages, count, maxPages, page + 1, GatherItems(ResponseAt(pages, page).items, count, sc));
    }
  }

  /**
   * The whole loop, which starts at page 1, requests at most `maxPages`
   * pages, every page before the last one requested was answered with items,
   * and it ends early only on a failed or empty page or once `count` records
   * are held.
   */
  lemma GatherPassStops(pages: seq<PageResponse>, count: int, maxPages: int)
    ensures var pass := GatherPass(pages, count, maxPages);
      && 0 <= pass.requested <= Max(maxPages, 0)
      && (forall q :: 1 <= q < pass.requested ==> !Fails(ResponseAt(pages, q)))
      && (pass.requested < maxPages ==>
            (1 <= pass.requested && Fails(ResponseAt(pages, pass.requested))) || |pass.scan.collected| >= count)
  {
    var sc := Scan({}, []);
    GatherFromBounds(pages, count, maxPages, 1, sc);
    forall q | 1 <= q < GatherPass(pages, count, maxPages).requested
      ensures !Fails(ResponseAt(pages, q))
    {
      GatherFromAnswered(pages, count, maxPages, 1, sc, q);
    }
    GatherFromEndsEarly(pages, count, maxPages, 1, sc);
  }

  /** Every record was built from a video item of `source`. */
  predicate FromItems(sc: Scan, source: seq<Item>)
  {
    forall v :: v in sc.collected ==> exists it :: it in source && IsVideo(it) && CandidateRecord(it) == v
  }

  lemma {:induction false} GatherItemsFrom(items: seq<Item>, source: seq<Item>, count: int, sc: Scan)
    requires FromItems(sc, source)
    requires forall k :: 0 <= k < |items| ==> items[k] in source
    ensures FromItems(GatherItems(items, count, sc), source)
    decreases |items|
  {
    if items != [] {
      var next := GatherItem(items[0], sc);
      forall v | v in next.collected
        ensures exists it :: it in source && IsVideo(it) && CandidateRecord(it) == v
      {
        if v !in sc.collected {
          assert v == CandidateRecord(items[0]) && items[0] in source;
        }
      }
      if !(next != sc && |next.collected| >= count) {
        forall k | 0 <= k < |items[1..]|
          ensures items[1..][k] in source
        {
          assert items[1..][k] == items[k + 1];
        }
        GatherItemsFrom(items[1..], source, count, next);
      }
    }
  }

  lemma {:induction false} GatherFromFrom(pages: seq<PageResponse>, count: int, maxPages: int, page: int, sc: Scan)
    requires FromItems(sc, AllItems(pages))
    ensures FromItems(GatherFrom(pages, count, maxPages, page, sc).scan, AllItems(pages))
    decreases maxPages - page
  {
    if |sc.collected| < count && page <= maxPages && !Fails(ResponseAt(pages, page)) {
      var items := ResponseAt(pages, page).items;
      forall k | 0 <= k < |items|
        ensures items[k] in AllItems(pages)
      {
        InAllItems(pages, page, k);
      }
      GatherItemsFrom(items, AllItems(pages), count, sc);
      GatherFromFrom(pages, count, maxPages, page + 1, GatherItems(items, count, sc));
    }
  }

  /** Every candidate comes from a video item (not a non-video result) of an answered page. */
  lemma GatherPassFrom(pages: seq<PageResponse>, count: int, maxPages: int)
    ensures FromItems(GatherPass(pages, count, maxPages).scan, AllItems(pages))
  {
    GatherFromFrom(pages, count, maxPages, 1, Scan({}, []));
  }

  /** One turn keeps `seen` equal to the bvids collected, and covers its item. */
  lemma GatherItemTracks(item: Item, sc: Scan)
    requires Tracks(sc)
    ensures var r := GatherItem(item, sc);
      && Tracks(r) && sc.seen <= r.seen && |sc.collected| <= |r.collected|
      && (IsVideo(item) && item.bvid != "" ==> item.bvid in r.seen)
  {
    if IsVideo(item) && item.bvid != "" && item.bvid !in sc.seen {
      IdsAppend(sc.collected, CandidateRecord(item));
    }
  }

  /**
   * The converse of GatherItemsGood: unless the loop broke on reaching
   * `count`, every video item with a bvid on the page is collected.
   */
  lemma {:induction false} GatherItemsCovers(items: seq<Item>, count: int, sc: Scan)
    requires Tracks(sc)
    ensures var r := GatherItems(items, count, sc);
      && Tracks(r) && sc.seen <= r.seen && |sc.collected| <= |r.collected|
      && (|r.collected| < count ==>
            forall k :: 0 <= k < |items| && IsVideo(items[k]) && items[k].bvid != "" ==> items[k].bvid in r.seen)
    decreases |items|
  {
    if items != [] {
      var next := GatherItem(items[0], sc);
      GatherItemTracks(items[0], sc);
      if !(next != sc && |next.collected| >= count) {
        GatherItemsCovers(items[1..], count, next);
        forall k | 1 <= k < |items|
          ensures items[k] == items[1..][k - 1]
        {
        }
      }
    }
  }

  /** Unless `count` was reached, every video item with a bvid on a page the loop scanned is collected. */
  lemma {:induction false} GatherFromCovers(pages: seq<PageResponse>, count: int, maxPages: int, page: int, sc: Scan)
    requires Tracks(sc)
    ensures var r := GatherFrom(pages, count, maxPages, page, sc);
      && Tracks(r.scan) && sc.seen <= r.scan.seen && |sc.collected| <= |r.scan.collected|
      && (|r.scan.collected| < count ==>
            forall q, k :: page <= q <= r.requested && ResponseAt(pages, q).Page? && 0 <= k < |ResponseAt(pages, q).items|
              && IsVideo(ResponseAt(pages, q).items[k]) && ResponseAt(pages, q).items[k].bvid != ""
              ==> ResponseAt(pages, q).items[k].bvid in r.scan.seen)
    decreases maxPages - page
  {
    if !(|sc.collected| >= count || page > maxPages) && !Fails(ResponseAt(pages, page)) {
      var items := ResponseAt(pages, page).items;
      GatherItemsCovers(items, count, sc);
      GatherFromCovers(pages, count, maxPages, page + 1, GatherItems(items, count, sc));
    }
  }

  /**
   * The gatherer misses nothing it looked at before holding `count` records:
   * `seen` is exactly the set of collected bvids, and if fewer than `count`
   * were collected, every video item with a bvid on a requested page is among them.
   */
  lemma GatherPassCovers(pages: seq<PageResponse>, count: int, maxPages: int)
    ensures var r := GatherPass(pages, count, maxPages);
      && r.scan.seen == Ids(r.scan.collected)
      && (|r.scan.collected| < count ==>
            forall q, k :: 1 <= q <= r.requested && ResponseAt(pages, q).Page? && 0 <= k < |ResponseAt(pages, q).items|
              && IsVideo(ResponseAt(pages, q).items[k]) && ResponseAt(pages, q).items[k].bvid != ""
              ==> ResponseAt(pages, q).items[k].bvid in Ids(r.scan.collected))
  {
    assert Ids([]) == {};
    GatherFromCovers(pages, count, maxPages, 1, Scan({}, []));
  }
}
