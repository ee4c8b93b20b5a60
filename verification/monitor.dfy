/**
 * `run` (main.py:264-290): the week list, the scored candidates, the classic
 * list drawn from them and the report, wired together with the constants
 * the monitor uses.
 */
module Monitor {
  import opened Prelude
  import opened Strings
  import opened Items
  import opened StableSort
  import opened WeekCollector
  import opened CandidateGatherer
  import opened WeightedScorer
  import opened Report

  /** `fetch_week_videos_top_by_click(limit=10)` with its default `max_pages=10`. */
  const WeekLimit: int := 10
  const WeekMaxPages: int := 10
  /** `fetch_top_click_candidates(candidate_count=20)` with its default `max_pages=5`. */
  const CandidateCount: int := 20
  const CandidateMaxPages: int := 5
  /** `compute_weighted_hot(candidates, weights=(0.2, 0.5, 0.3), top_n=10)` */
  const HotWeights: Weights := Weights(0.2, 0.5, 0.3)
  const HotTopN: int := 10

  /** The week list `run` reports. */
  function WeekList(weekPages: seq<PageResponse>, now: int): seq<Video>
  {
    Take(SortDesc(WeekPass(weekPages, now, WeekMaxPages).scan.collected, PlayKey), WeekLimit)
  }

  /** The scored candidates `run` draws the classic list from. */
  function HotList(candidatePages: seq<PageResponse>): seq<Video>
  {
    var candidates := Take(SortDesc(GatherPass(candidatePages, CandidateCount, CandidateMaxPages).scan.collected, ClickKey), CandidateCount);
    WeightedHot(candidates, HotWeights, HotTopN)
  }

  /**
   * One run of the monitor. `weekPages` and `candidatePages` are the answers
   * to the newest-first and most-clicked-first searches, `now` is the clock
   * reading, `today` the date in the title; `date` and `fmt` render a
   * timestamp and a score. The report text is returned instead of written.
   */
  method Run(weekPages: seq<PageResponse>, candidatePages: seq<PageResponse>, now: int,
             today: string, date: int -> string, fmt: real -> string)
    returns (report: string, newVideos: seq<Video>, oldVideos: seq<Video>)
    ensures newVideos == WeekList(weekPages, now)
    ensures oldVideos == SelectOld(HotList(candidatePages), newVideos)
    ensures report == Join(ReportLines(newVideos, oldVideos, today, date, fmt), "\n")
    ensures |newVideos| <= WeekLimit && |oldVideos| <= OldLimit
    ensures forall v :: v in newVideos ==> now - Week <= v.pubdate
    ensures forall v, u :: v in oldVideos && u in newVideos ==> v.bvid != u.bvid
    ensures DistinctBy(newVideos, BvidOf) && DistinctBy(oldVideos, BvidOf)
    ensures SortedDesc(newVideos, PlayKey) && SortedDesc(oldVideos, ScoreKey)
  {
    var requested;
    newVideos, requested := FetchWeekTopByPlay(weekPages, now, WeekLimit, WeekMaxPages);
    var candidates;
    candidates, requested := FetchTopClickCandidates(candidatePages, CandidateCount, CandidateMaxPages);
    var scored := new Video[|candidates|](i requires 0 <= i < |candidates| => candidates[i]);
    assert scored[..] == candidates;
    var hot := ComputeWeightedHot(scored, HotWeights, HotTopN);
    WeightedHotShape(candidates, HotWeights, HotTopN);
    WeightedHotDistinct(candidates, HotWeights, HotTopN);
    oldVideos := SelectOld(hot, newVideos);
    SelectOldShape(hot, newVideos);
    SelectOldRanked(hot, newVideos, ScoreKey);
    report := GenerateReport(newVideos, oldVideos, today, date, fmt);
  }
}
