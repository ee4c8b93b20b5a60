/**
 * The data the monitor works on: raw search results as the API returns them
 * and the video records the collectors build from them (main.py:143-164,
 * main.py:202-220).
 */
module Items {
  import opened Prelude
  import opened Strings
  import opened CountNormalizer

  /**
   * One entry of a result page. A field the API leaves out is represented by
   * the value Python's lookup default gives it: "" for `type`, `bvid`,
   * `title` and `author`, 0 for `pubdate`, Null for the counts.
   */
  datatype Item = Item(
    kind: string,
    bvid: string,
    pubdate: int,
    title: string,
    author: string,
    play: Raw,
    click: Raw,
    reviews: Raw,
    favorites: Raw,
    scores: Raw,
    stow: Raw)

  /**
   * The outcome of requesting one page: `Failed` stands for a transport
   * error, a status other than 200, a body that is not JSON, a non-zero
   * business code, or any exception while reading the envelope.
   */
  datatype PageResponse = Failed | Page(items: seq<Item>)

  /** A collected video; `weightedScore` is absent until the scorer attaches it. */
  datatype Video = Video(
    title: string,
    author: string,
    pubdate: int,
    bvid: string,
    play: int,
    click: int,
    scores: int,
    stow: int,
    weightedScore: Option<real>)

  /** A collector's running state: the `seen` bvids and the `collected` records. */
  datatype Scan = Scan(seen: set<string>, collected: seq<Video>)

  /** The bvids of a list of records, as in `{v['bvid'] for v in new_videos}`. */
  function Ids(vs: seq<Video>): (ids: set<string>)
    ensures forall v :: v in vs ==> v.bvid in ids
    ensures forall b :: b in ids ==> exists v :: v in vs && v.bvid == b
  {
    set v | v in vs :: v.bvid
  }

  /** Appending a record adds exactly its bvid. */
  lemma IdsAppend(vs: seq<Video>, v: Video)
    ensures Ids(vs + [v]) == Ids(vs) + {v.bvid}
  {
    forall b | b in Ids(vs + [v])
      ensures b in Ids(vs) + {v.bvid}
    {
      var u :| u in vs + [v] && u.bvid == b;
      assert u in vs || u == v;
    }
  }

  /** A collector's `seen` holds exactly the bvids of its records. */
  predicate Tracks(sc: Scan)
  {
    sc.seen == Ids(sc.collected)
  }

  /** The outcome of a collector's loop over pages: its final state and how many pages it requested. */
  datatype Pass = Pass(scan: Scan, requested: int)

  /** The answer to the request for page `page` (1-based); pages past the end fail. */
  function ResponseAt(pages: seq<PageResponse>, page: int): PageResponse
  {
    if 1 <= page <= |pages| then pages[page - 1] else Failed
  }

  predicate IsVideo(item: Item) { item.kind == "video" }

  function BvidOf(v: Video): string { v.bvid }

  /** The highlight markup the search API wraps around the matched keyword. */
  const KeywordOpen: string := "<em class=\"keyword\">"
  const KeywordClose: string := "</em>"

  /** The title with the keyword highlight markup removed. */
  function StripKeyword(title: string): string
  {
    ReplaceAll(ReplaceAll(title, KeywordOpen, ""), KeywordClose, "")
  }

  /** The link of a video page. */
  function Url(bvid: string): string
  {
    "https://www.bilibili.com/video/" + bvid
  }

  /** The record the week collector builds from an item (main.py:152-164). */
  function WeekRecord(item: Item): Video
  {
    Video(StripKeyword(item.title), item.author, item.pubdate, item.bvid,
          ParseCount(Or(item.play, item.click)),
          ParseCount(Or(item.click, item.play)),
          ParseCount(item.reviews),
          ParseCount(item.favorites),
          None)
  }

  /** The record the candidate gatherer builds from an item (main.py:209-220). */
  function CandidateRecord(item: Item): Video
  {
    Video(StripKeyword(item.title), item.author, item.pubdate, item.bvid,
          ParseCount(Or(item.play, item.click)),
          ParseCount(Or(item.click, item.play)),
          ParseCount(item.scores),
          ParseCount(item.stow),
          None)
  }

  /** Every item of every page that was answered, in order. */
  function AllItems(pages: seq<PageResponse>): seq<Item>
  {
    if pages == [] then []
    else (match pages[0] case Failed => [] case Page(items) => items) + AllItems(pages[1..])
  }

  lemma {:induction false} InAllItems(pages: seq<PageResponse>, page: int, k: nat)
    requires ResponseAt(pages, page).Page? && k < |ResponseAt(pages, page).items|
    ensures ResponseAt(pages, page).items[k] in AllItems(pages)
  {
    if page > 1 {
      assert ResponseAt(pages[1..], page - 1) == ResponseAt(pages, page);
      InAllItems(pages[1..], page - 1, k);
    }
  }

  /** Stripping the highlight markup around a keyword leaves the plain title. */
  lemma StripHighlight(a: string, k: string, b: string)
    requires '<' !in a && '<' !in k && '<' !in b
    ensures StripKeyword(a + KeywordOpen + k + KeywordClose + b) == a + k + b
  {
    RemoveOpenTag(a, k, b);
    RemoveCloseTag(a + k, b);
  }

  lemma RemoveOpenTag(a: string, k: string, b: string)
    requires '<' !in a && '<' !in k && '<' !in b
    ensures ReplaceAll(a + KeywordOpen + k + KeywordClose + b, KeywordOpen, "") == a + k + KeywordClose + b
  {
    assert KeywordOpen[0] == '<';
    CloseSurvivesOpen(b);
    RemoveAround(a, k, b, KeywordOpen, KeywordClose);
  }

  /** Removing `open` from text in which only one occurrence of it can start. */
  lemma RemoveAround(a: string, k: string, b: string, open: string, close: string)
    requires |open| > 0 && open[0] !in a && open[0] !in k
    requires ReplaceAll(close + b, open, "") == close + b
    ensures ReplaceAll(a + open + k + close + b, open, "") == a + k + close + b
  {
    var x := k + (close + b);
    assert a + open + k + close + b == a + (open + x);
    RemoveLeadingMatch(a, x, open);
    ReplaceAllSkips(k, close + b, open, "");
    assert a + x == a + k + close + b;
  }

  lemma RemoveLeadingMatch(a: string, x: string, pat: string)
    requires |pat| > 0 && pat[0] !in a
    ensures ReplaceAll(a + (pat + x), pat, "") == a + ReplaceAll(x, pat, "")
  {
    ReplaceAllSkips(a, pat + x, pat, "");
    ReplaceAllMatch(x, pat, "");
    assert "" + ReplaceAll(x, pat, "") == ReplaceAll(x, pat, "");
  }

  lemma RemoveCloseTag(a: string, b: string)
    requires '<' !in a && '<' !in b
    ensures ReplaceAll(a + KeywordClose + b, KeywordClose, "") == a + b
  {
    var close := KeywordClose;
    assert a + close + b == a + (close + b);
    ReplaceAllSkips(a, close + b, close, "");
    ReplaceAllMatch(b, close, "");
    ReplaceAllSkips(b, [], close, "");
    assert b + [] == b;
    assert ReplaceAll([], close, "") == [];
  }

  /** Removing the opening tag leaves a closing tag (and plain text after it) alone. */
  lemma CloseSurvivesOpen(b: string)
    requires '<' !in b
    ensures ReplaceAll(KeywordClose + b, KeywordOpen, "") == KeywordClose + b
  {
    var open, close := KeywordOpen, KeywordClose;
    var s := close + b;
    if |s| >= |open| {
      assert s[..|open|][1] == '/' != open[1];
    }
    assert s[1..] == close[1..] + b;
    ReplaceAllSkips(close[1..], b, open, "");
    ReplaceAllSkips(b, [], open, "");
    assert b + [] == b;
    assert ReplaceAll([], open, "") == [];
  }

  /** A title without markup is left as it is. */
  lemma PlainTitle(t: string)
    requires '<' !in t
    ensures StripKeyword(t) == t
  {
    assert KeywordOpen[0] == '<' && KeywordClose[0] == '<';
    ReplaceAllAbsent(t, KeywordOpen, "");
    ReplaceAllAbsent(t, KeywordClose, "");
  }

  /**
   * A title as the search returns it when it highlights several keywords:
   * plain text `a`, then for each pair `(k, b)` the keyword `k` wrapped in
   * the markup followed by plain text `b`.
   */
  function Highlighted(a: string, spans: seq<(string, string)>): string
    decreases |spans|
  {
    if spans == [] then a
    else a + KeywordOpen + spans[0].0 + KeywordClose + Highlighted(spans[0].1, spans[1..])
  }

  /** The same title with only the opening tags removed. */
  function OpenTagsRemoved(a: string, spans: seq<(string, string)>): string
    decreases |spans|
  {
    if spans == [] then a
    else a + spans[0].0 + KeywordClose + OpenTagsRemoved(spans[0].1, spans[1..])
  }

  /** The same title without any markup. */
  function Unhighlighted(a: string, spans: seq<(string, string)>): string
    decreases |spans|
  {
    if spans == [] then a
    else a + spans[0].0 + Unhighlighted(spans[0].1, spans[1..])
  }

  /** No piece of plain text or keyword contains `<`. */
  predicate TagFree(a: string, spans: seq<(string, string)>)
  {
    '<' !in a && forall i :: 0 <= i < |spans| ==> '<' !in spans[i].0 && '<' !in spans[i].1
  }

  /** Stripping a title with any number of highlighted keywords leaves exactly the plain text and the keywords, in order. */
  lemma StripHighlights(a: string, spans: seq<(string, string)>)
    requires TagFree(a, spans)
    ensures StripKeyword(Highlighted(a, spans)) == Unhighlighted(a, spans)
  {
    RemoveOpenTags(a, spans);
    RemoveCloseTags(a, spans);
  }

  lemma {:induction false} RemoveOpenTags(a: string, spans: seq<(string, string)>)
    requires TagFree(a, spans)
    ensures ReplaceAll(Highlighted(a, spans), KeywordOpen, "") == OpenTagsRemoved(a, spans)
    decreases |spans|
  {
    var open, close := KeywordOpen, KeywordClose;
    assert open[0] == '<';
    if spans == [] {
      ReplaceAllAbsent(a, open, "");
    } else {
      var k, b := spans[0].0, spans[0].1;
      assert '<' !in k && '<' !in b;
      assert TagFree(b, spans[1..]) by {
        forall i | 0 <= i < |spans[1..]|
          ensures '<' !in spans[1..][i].0 && '<' !in spans[1..][i].1
        {
          assert spans[1..][i] == spans[i + 1];
        }
      }
      var rest := Highlighted(b, spans[1..]);
      assert Highlighted(a, spans) == a + (open + (k + (close + rest)));
      assert ReplaceAll(a + (open + (k + (close + rest))), open, "") == a + (k + (close + ReplaceAll(rest, open, ""))) by {
        RemoveLeadingMatch(a, k + (close + rest), open);
        ReplaceAllSkips(k, close + rest, open, "");
        CloseSkipsOpen(rest);
      }
      RemoveOpenTags(b, spans[1..]);
      assert OpenTagsRemoved(a, spans) == a + (k + (close + OpenTagsRemoved(b, spans[1..])));
    }
  }

  lemma {:induction false} RemoveCloseTags(a: string, spans: seq<(string, string)>)
    requires TagFree(a, spans)
    ensures ReplaceAll(OpenTagsRemoved(a, spans), KeywordClose, "") == Unhighlighted(a, spans)
    decreases |spans|
  {
    var close := KeywordClose;
    assert close[0] == '<';
    if spans == [] {
      ReplaceAllAbsent(a, close, "");
    } else {
      var k, b := spans[0].0, spans[0].1;
      assert '<' !in k && '<' !in b;
      assert TagFree(b, spans[1..]) by {
        forall i | 0 <= i < |spans[1..]|
          ensures '<' !in spans[1..][i].0 && '<' !in spans[1..][i].1
        {
          assert spans[1..][i] == spans[i + 1];
        }
      }
      var rest := OpenTagsRemoved(b, spans[1..]);
      RemoveCloseTags(b, spans[1..]);
      assert OpenTagsRemoved(a, spans) == (a + k) + (close + rest);
      assert '<' !in a + k;
      RemoveLeadingMatch(a + k, rest, close);
      assert Unhighlighted(a, spans) == (a + k) + Unhighlighted(b, spans[1..]);
    }
  }

  /** A closing tag never starts an opening tag, so removing opening tags passes over it. */
  lemma CloseSkipsOpen(y: string)
    ensures ReplaceAll(KeywordClose + y, KeywordOpen, "") == KeywordClose + ReplaceAll(y, KeywordOpen, "")
  {
    var open, close := KeywordOpen, KeywordClose;
    var s := close + y;
    if |s| >= |open| {
      assert s[..|open|][1] == '/' != open[1];
    }
    ReplaceAllFront(s, open, "");
    assert s[1..] == close[1..] + y;
    assert close[1..] == "/em>";
    ReplaceAllSkips(close[1..], y, open, "");
    assert [s[0]] + (close[1..] + ReplaceAll(y, open, "")) == close + ReplaceAll(y, open, "");
  }
}
