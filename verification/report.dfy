/**
 * The report: which scored videos make the "classic" list (main.py:285-287)
 * and the Markdown lines `generate_report` builds from the two lists
 * (main.py:292-318). Dates and the `:.3f` rendering of a score come from
 * the caller as functions; the report is returned rather than written.
 */
module Report {
  import opened Prelude
  import opened Strings
  import opened Items
  import opened StableSort

  /** How many classic videos the report keeps. */
  const OldLimit: int := 5

  /** `[v for v in hot if v['bvid'] not in ids]` */
  function Exclude(hot: seq<Video>, ids: set<string>): seq<Video>
  {
    if hot == [] then []
    else (if hot[0].bvid in ids then [] else [hot[0]]) + Exclude(hot[1..], ids)
  }

  /** The classic list: the scored videos not in the week list, at most five. */
  function SelectOld(hot: seq<Video>, newList: seq<Video>): seq<Video>
  {
    Take(Exclude(hot, Ids(newList)), OldLimit)
  }

  /** A video survives the filter exactly when it is scored and its bvid is not excluded. */
  lemma {:induction false} ExcludeMembers(hot: seq<Video>, ids: set<string>, x: Video)
    ensures x in Exclude(hot, ids) <==> x in hot && x.bvid !in ids
  {
    if hot != [] {
      ExcludeMembers(hot[1..], ids, x);
      assert x in hot <==> x == hot[0] || x in hot[1..];
    }
  }

  /** The filter keeps the scored order. */
  lemma {:induction false} ExcludeSubseq(hot: seq<Video>, ids: set<string>)
    ensures IsSubseq(Exclude(hot, ids), hot)
  {
    if hot != [] {
      ExcludeSubseq(hot[1..], ids);
      if hot[0].bvid !in ids {
        assert Exclude(hot, ids) == [hot[0]] + Exclude(hot[1..], ids);
      } else {
        assert Exclude(hot, ids) == Exclude(hot[1..], ids);
        SubseqSkip(Exclude(hot[1..], ids), hot);
      }
    }
  }

  /** A subsequence of the tail of `b` is a subsequence of `b`. */
  lemma {:induction false} SubseqSkip<T>(a: seq<T>, b: seq<T>)
    requires b != [] && IsSubseq(a, b[1..])
    ensures IsSubseq(a, b)
    decreases |b|, |a|
  {
    if a != [] && a[0] == b[0] {
      SubseqTail(a, b[1..]);
    }
  }

  /** Dropping the head of a subsequence leaves a subsequence. */
  lemma {:induction false} SubseqTail<T>(a: seq<T>, b: seq<T>)
    requires a != [] && IsSubseq(a, b)
    ensures IsSubseq(a[1..], b)
    decreases |b|, |a|
  {
    if a[1..] != [] {
      if a[0] == b[0] {
        SubseqSkip(a[1..], b);
      } else {
        SubseqTail(a, b[1..]);
        SubseqSkip(a[1..], b);
      }
    }
  }

  /**
   * The classic list has no video of the week list, keeps the scored order,
   * has at most five videos, and is every surviving video when fewer than
   * five survive.
   */
  lemma SelectOldShape(hot: seq<Video>, newList: seq<Video>)
    ensures var r := SelectOld(hot, newList);
      && (forall v, u :: v in r && u in newList ==> v.bvid != u.bvid)
      && IsSubseq(r, hot)
      && |r| == Min(OldLimit, |Exclude(hot, Ids(newList))|)
      && r == Exclude(hot, Ids(newList))[..|r|]
  {
    var ids := Ids(newList);
    var kept := Exclude(hot, ids);
    var r := SelectOld(hot, newList);
    forall v | v in r
      ensures v.bvid !in ids && v in hot
    {
      ExcludeMembers(hot, ids, v);
    }
    ExcludeSubseq(hot, ids);
    SubseqPrefix(kept, hot, |r|);
  }

  /** The filter keeps a ranking's order of keys. */
  lemma {:induction false} ExcludeSorted(hot: seq<Video>, ids: set<string>, key: Video -> real)
    requires SortedDesc(hot, key)
    ensures SortedDesc(Exclude(hot, ids), key)
  {
    if hot != [] {
      var rest := Exclude(hot[1..], ids);
      ExcludeSorted(hot[1..], ids, key);
      if hot[0].bvid !in ids {
        forall k | 0 <= k < |rest|
          ensures key(hot[0]) >= key(rest[k])
        {
          ExcludeMembers(hot[1..], ids, rest[k]);
          var j :| 0 <= j < |hot[1..]| && hot[1..][j] == rest[k];
          assert hot[1 + j] == rest[k];
        }
        assert Exclude(hot, ids) == [hot[0]] + rest;
      } else {
        assert Exclude(hot, ids) == rest;
      }
    }
  }

  /** The filter never lets a bvid appear twice. */
  lemma {:induction false} ExcludeDistinct(hot: seq<Video>, ids: set<string>)
    requires DistinctBy(hot, BvidOf)
    ensures DistinctBy(Exclude(hot, ids), BvidOf)
  {
    if hot != [] {
      var rest := Exclude(hot[1..], ids);
      ExcludeDistinct(hot[1..], ids);
      if hot[0].bvid !in ids {
        forall k | 0 <= k < |rest|
          ensures hot[0].bvid != rest[k].bvid
        {
          ExcludeMembers(hot[1..], ids, rest[k]);
          var j :| 0 <= j < |hot[1..]| && hot[1..][j] == rest[k];
          assert hot[1 + j] == rest[k];
        }
        assert Exclude(hot, ids) == [hot[0]] + rest;
      } else {
        assert Exclude(hot, ids) == rest;
      }
    }
  }

  /** A ranked list without repeated bvids gives a classic list ranked the same way and without repeats. */
  lemma SelectOldRanked(hot: seq<Video>, newList: seq<Video>, key: Video -> real)
    requires SortedDesc(hot, key) && DistinctBy(hot, BvidOf)
    ensures SortedDesc(SelectOld(hot, newList), key) && DistinctBy(SelectOld(hot, newList), BvidOf)
  {
    ExcludeSorted(hot, Ids(newList), key);
    ExcludeDistinct(hot, Ids(newList));
  }

  /** Every scored video outside the week list is kept, unless five were kept before it. */
  lemma SelectOldComplete(hot: seq<Video>, newList: seq<Video>, x: Video)
    requires x in hot && x.bvid !in Ids(newList) && |Exclude(hot, Ids(newList))| <= OldLimit
    ensures x in SelectOld(hot, newList)
  {
    ExcludeMembers(hot, Ids(newList), x);
  }

  /** `t.replace('|', '&#124;').replace('\n', ' ').replace('\r', ' ')` */
  function EscapeCell(t: string): string
  {
    ReplaceAll(ReplaceAll(ReplaceAll(t, "|", "&#124;"), "\n", " "), "\r", " ")
  }

  /** Escaping works character by character: it distributes over concatenation. */
  lemma EscapeCellConcat(x: string, y: string)
    ensures EscapeCell(x + y) == EscapeCell(x) + EscapeCell(y)
  {
    ReplaceCharConcat(x, y, '|', "&#124;");
    var x1, y1 := ReplaceAll(x, "|", "&#124;"), ReplaceAll(y, "|", "&#124;");
    ReplaceCharConcat(x1, y1, '\n', " ");
    ReplaceCharConcat(ReplaceAll(x1, "\n", " "), ReplaceAll(y1, "\n", " "), '\r', " ");
  }

  /** A bar becomes the entity `&#124;`. */
  lemma EscapeBar(a: string, b: string)
    ensures EscapeCell(a + "|" + b) == EscapeCell(a) + "&#124;" + EscapeCell(b)
  {
    EscapeCellConcat(a + "|", b);
    EscapeCellConcat(a, "|");
    EscapeBarAlone();
  }

  lemma EscapeBarAlone()
    ensures EscapeCell("|") == "&#124;"
  {
    ReplaceAllMatch("", "|", "&#124;");
    assert "|" + "" == "|";
    assert "&#124;" + "" == "&#124;";
    var e := "&#124;";
    assert forall k :: 0 <= k < |e| ==> e[k] != '\n' && e[k] != '\r';
    ReplaceCharAbsentSame(e, '\n', " ");
    ReplaceCharAbsentSame(e, '\r', " ");
  }

  /** A line feed becomes a space. */
  lemma EscapeLineFeed(a: string, b: string)
    ensures EscapeCell(a + "\n" + b) == EscapeCell(a) + " " + EscapeCell(b)
  {
    EscapeCellConcat(a + "\n", b);
    EscapeCellConcat(a, "\n");
    ReplaceCharAbsentSame("\n", '|', "&#124;");
    ReplaceAllMatch("", "\n", " ");
    assert "\n" + "" == "\n";
    ReplaceCharAbsentSame(" ", '\r', " ");
  }

  /** A carriage return becomes a space. */
  lemma EscapeReturn(a: string, b: string)
    ensures EscapeCell(a + "\r" + b) == EscapeCell(a) + " " + EscapeCell(b)
  {
    EscapeCellConcat(a + "\r", b);
    EscapeCellConcat(a, "\r");
    ReplaceCharAbsentSame("\r", '|', "&#124;");
    ReplaceCharAbsentSame("\r", '\n', " ");
    ReplaceAllMatch("", "\r", " ");
    assert "\r" + "" == "\r";
  }

  /** Text that can stand in one table cell of one line. */
  predicate Plain(s: string)
  {
    '|' !in s && '\n' !in s && '\r' !in s
  }

  /** An escaped title can neither end its cell nor its line. */
  lemma EscapeCellPlain(t: string)
    ensures Plain(EscapeCell(t))
  {
    var t1 := ReplaceAll(t, "|", "&#124;");
    var t2 := ReplaceAll(t1, "\n", " ");
    ReplaceCharRemoves(t, '|', "&#124;");
    ReplaceCharAbsent(t1, '\n', " ", '|');
    ReplaceCharRemoves(t1, '\n', " ");
    ReplaceCharAbsent(t2, '\r', " ", '|');
    ReplaceCharAbsent(t2, '\r', " ", '\n');
    ReplaceCharRemoves(t2, '\r', " ");
  }

  /** Escaping keeps every character other than the three it replaces. */
  lemma EscapeCellKeeps(t: string, d: char)
    requires d in t && d != '|' && d != '\n' && d != '\r'
    ensures d in EscapeCell(t)
  {
    var t1 := ReplaceAll(t, "|", "&#124;");
    var t2 := ReplaceAll(t1, "\n", " ");
    ReplaceCharKeeps(t, '|', "&#124;", d);
    ReplaceCharKeeps(t1, '\n', " ", d);
    ReplaceCharKeeps(t2, '\r', " ", d);
  }

  /** A title that is already plain is left as it is. */
  lemma EscapeCellIdentity(t: string)
    requires Plain(t)
    ensures EscapeCell(t) == t
  {
    ReplaceCharAbsentSame(t, '|', "&#124;");
    ReplaceCharAbsentSame(t, '\n', " ");
    ReplaceCharAbsentSame(t, '\r', " ");
  }

  /** Replacing one character by text without `d` brings no `d` in. */
  lemma {:induction false} ReplaceCharAbsent(s: string, c: char, rep: string, d: char)
    requires d !in s && d !in rep
    ensures d !in ReplaceAll(s, [c], rep)
    decreases |s|
  {
    if |s| >= 1 {
      ReplaceCharAbsent(s[1..], c, rep, d);
    }
  }

  /** Replacing a character that does not occur changes nothing. */
  lemma {:induction false} ReplaceCharAbsentSame(s: string, c: char, rep: string)
    requires c !in s
    ensures ReplaceAll(s, [c], rep) == s
    decreases |s|
  {
    if |s| >= 1 {
      ReplaceCharAbsentSame(s[1..], c, rep);
      assert s == [s[0]] + s[1..];
    }
  }

  /** A Markdown table row: `| c1 | c2 | ... |`. */
  function Row(cells: seq<string>): string
  {
    "| " + Join(cells, " | ") + " |"
  }

  /** A row of plain cells has exactly one bar more than it has cells, and no line break. */
  lemma RowCells(cells: seq<string>)
    requires cells != [] && forall k :: 0 <= k < |cells| ==> Plain(cells[k])
    ensures Count('|', Row(cells)) == |cells| + 1
    ensures '\n' !in Row(cells) && '\r' !in Row(cells)
  {
    var body := Join(cells, " | ");
    JoinCount(cells, " | ", '|');
    assert Count('|', " | ") == 1 by {
      assert " | "[1..] == "| " && " | "[2..] == " ";
    }
    JoinAbsent(cells, " | ", '\n');
    JoinAbsent(cells, " | ", '\r');
    CountConcat('|', "| ", body);
    CountConcat('|', "| " + body, " |");
    assert Count('|', "| ") == 1 by {
      assert "| "[1..] == " ";
    }
    assert Count('|', " |") == 1 by {
      assert " |"[1..] == "|";
    }
  }

  /** `score_str`: the caller's `:.3f` rendering, or "-" when no score was attached. */
  function ScoreText(score: Option<real>, fmt: real -> string): string
  {
    match score
    case None => "-"
    case Some(s) => fmt(s)
  }

  /** The title cell: the escaped title linked to the video page. */
  function TitleCell(v: Video): string
  {
    "[" + EscapeCell(v.title) + "](" + Url(v.bvid) + ")"
  }

  /** A row of the week table (main.py:303). */
  function NewRow(v: Video, date: int -> string): string
  {
    Row([date(v.pubdate), TitleCell(v), v.author, IntToString(v.play)])
  }

  /** A row of the classic table (main.py:313-315). */
  function OldRow(v: Video, date: int -> string, fmt: real -> string): string
  {
    Row([date(v.pubdate), TitleCell(v), v.author, IntToString(v.play), ScoreText(v.weightedScore, fmt)])
  }

  /** The row the classic table shows when it is empty (main.py:308-309). */
  const Placeholder: string := "| - | 获取失败或无数据 | - | - | - |"

  lemma IntToStringPlain(i: int)
    ensures Plain(IntToString(i))
  {
    var s := IntToString(i);
    assert forall k :: 0 <= k < |s| ==> s[k] != '|' && s[k] != '\n' && s[k] != '\r';
  }

  lemma TitleCellPlain(v: Video)
    requires Plain(v.bvid)
    ensures Plain(TitleCell(v))
  {
    EscapeCellPlain(v.title);
    UrlPlain(v.bvid);
  }

  lemma UrlPlain(bvid: string)
    requires Plain(bvid)
    ensures Plain(Url(bvid))
  {
    var p := "https://www.bilibili.com/video/";
    assert forall k :: 0 <= k < |p| ==> 'a' <= p[k] <= 'z' || p[k] == ':' || p[k] == '/' || p[k] == '.';
    assert Url(bvid) == p + bvid;
  }

  /**
   * Whatever the title, a week row has exactly four cells on one line, as
   * long as the date, the author and the bvid are plain.
   */
  lemma NewRowWellFormed(v: Video, date: int -> string)
    requires Plain(date(v.pubdate)) && Plain(v.author) && Plain(v.bvid)
    ensures Count('|', NewRow(v, date)) == 5
    ensures '\n' !in NewRow(v, date) && '\r' !in NewRow(v, date)
  {
    var cells := [date(v.pubdate), TitleCell(v), v.author, IntToString(v.play)];
    TitleCellPlain(v);
    IntToStringPlain(v.play);
    RowCells(cells);
  }

  /** The same for a classic row, which has five cells. */
  lemma OldRowWellFormed(v: Video, date: int -> string, fmt: real -> string)
    requires Plain(date(v.pubdate)) && Plain(v.author) && Plain(v.bvid)
    requires Plain(ScoreText(v.weightedScore, fmt))
    ensures Count('|', OldRow(v, date, fmt)) == 6
    ensures '\n' !in OldRow(v, date, fmt) && '\r' !in OldRow(v, date, fmt)
  {
    var cells := [date(v.pubdate), TitleCell(v), v.author, IntToString(v.play), ScoreText(v.weightedScore, fmt)];
    TitleCellPlain(v);
    IntToStringPlain(v.play);
    RowCells(cells);
  }

  /** The title, the summary line and the head of the week table (main.py:294-299). */
  function Header(today: string, newCount: int, oldCount: int): seq<string>
  {
    [ "# 🎽 箱根驿传周报 (" + today + ")",
      "本周为您汇总了 **" + IntToString(newCount) + "** 个新视频和 **" + IntToString(oldCount) + "** 个经典回顾。\n",
      "## 🆕 本周热门发布 (Top 10 by 播放量)",
      "| 发布日期 | 标题 | UP主 | 播放量 |",
      "|---|---|---|---|" ]
  }

  /** The head of the classic table (main.py:305-307). */
  const OldHeader: seq<string> :=
    [ "\n## 🔥 经典/热门 (Hot 5, 基于 click/scores/stow 加权排序)",
      "| 发布日期 | 标题 | UP主 | 播放量 | 得分 |",
      "|---|---|---|---|---|" ]

  function NewRows(vs: seq<Video>, date: int -> string): seq<string>
  {
    if vs == [] then [] else NewRows(vs[..|vs| - 1], date) + [NewRow(vs[|vs| - 1], date)]
  }

  function OldRows(vs: seq<Video>, date: int -> string, fmt: real -> string): seq<string>
  {
    if vs == [] then [] else OldRows(vs[..|vs| - 1], date, fmt) + [OldRow(vs[|vs| - 1], date, fmt)]
  }

  /** The lines `generate_report` collects in `report_lines`. */
  function ReportLines(newList: seq<Video>, oldList: seq<Video>, today: string,
                       date: int -> string, fmt: real -> string): seq<string>
  {
    Header(today, |newList|, |oldList|) + NewRows(newList, date) + OldHeader
    + (if oldList == [] then [Placeholder] else []) + OldRows(oldList, date, fmt)
  }

  /**
   * `generate_report(new_list, old_list)`: the report text, `"\n".join` of
   * its lines. `today` is `datetime.date.today()`, `date` renders a
   * timestamp as `%Y-%m-%d` and `fmt` a score as `:.3f`.
   */
  method GenerateReport(newList: seq<Video>, oldList: seq<Video>, today: string,
                        date: int -> string, fmt: real -> string) returns (content: string)
    ensures content == Join(ReportLines(newList, oldList, today, date, fmt), "\n")
  {
    var lines := Header(today, |newList|, |oldList|);
    lines := AppendNewRows(lines, newList, date);
    lines := lines + OldHeader;
    if oldList == [] {
      lines := lines + [Placeholder];
    }
    assert lines + [] == lines;
    lines := AppendOldRows(lines, oldList, date, fmt);
    content := Join(lines, "\n");
  }

  /** `for v in new_list: report_lines.append(...)` (main.py:300-303) */
  method AppendNewRows(lines0: seq<string>, vs: seq<Video>, date: int -> string) returns (lines: seq<string>)
    ensures lines == lines0 + NewRows(vs, date)
  {
    lines := lines0;
    for i := 0 to |vs|
      invariant lines == lines0 + NewRows(vs[..i], date)
    {
      assert vs[..i + 1][..i] == vs[..i];
      lines := lines + [NewRow(vs[i], date)];
    }
    assert vs[..|vs|] == vs;
  }

  /** `for v in old_list: report_lines.append(...)` (main.py:310-315) */
  method AppendOldRows(lines0: seq<string>, vs: seq<Video>, date: int -> string, fmt: real -> string)
    returns (lines: seq<string>)
    ensures lines == lines0 + OldRows(vs, date, fmt)
  {
    lines := lines0;
    for i := 0 to |vs|
      invariant lines == lines0 + OldRows(vs[..i], date, fmt)
    {
      assert vs[..i + 1][..i] == vs[..i];
      lines := lines + [OldRow(vs[i], date, fmt)];
    }
    assert vs[..|vs|] == vs;
  }

  /** The week rows, one per video and in its order. */
  lemma {:induction false} NewRowsAt(vs: seq<Video>, date: int -> string)
    ensures |NewRows(vs, date)| == |vs|
    ensures forall k :: 0 <= k < |vs| ==> NewRows(vs, date)[k] == NewRow(vs[k], date)
    decreases |vs|
  {
    if vs != [] {
      var init := vs[..|vs| - 1];
      NewRowsAt(init, date);
      assert NewRows(vs, date) == NewRows(init, date) + [NewRow(vs[|vs| - 1], date)];
      forall k | 0 <= k < |vs| - 1
        ensures NewRows(vs, date)[k] == NewRow(vs[k], date)
      {
        assert vs[k] == init[k];
      }
    }
  }

  /** The classic rows, one per video and in its order. */
  lemma {:induction false} OldRowsAt(vs: seq<Video>, date: int -> string, fmt: real -> string)
    ensures |OldRows(vs, date, fmt)| == |vs|
    ensures forall k :: 0 <= k < |vs| ==> OldRows(vs, date, fmt)[k] == OldRow(vs[k], date, fmt)
    decreases |vs|
  {
    if vs != [] {
      var init := vs[..|vs| - 1];
      OldRowsAt(init, date, fmt);
      assert OldRows(vs, date, fmt) == OldRows(init, date, fmt) + [OldRow(vs[|vs| - 1], date, fmt)];
      forall k | 0 <= k < |vs| - 1
        ensures OldRows(vs, date, fmt)[k] == OldRow(vs[k], date, fmt)
      {
        assert vs[k] == init[k];
      }
    }
  }

  /**
   * The report has five header lines, a row per week video, three lines
   * heading the classic table, then either the placeholder (no classic
   * video) or a row per classic video.
   */
  lemma ReportLayout(newList: seq<Video>, oldList: seq<Video>, today: string,
                     date: int -> string, fmt: real -> string)
    ensures var lines := ReportLines(newList, oldList, today, date, fmt);
      var n := |newList|;
      && |lines| == 8 + n + (if oldList == [] then 1 else |oldList|)
      && (forall k :: 0 <= k < n ==> lines[5 + k] == NewRow(newList[k], date))
      && lines[5 + n] == OldHeader[0]
      && (oldList == [] ==> lines[8 + n] == Placeholder)
      && (forall k :: 0 <= k < |oldList| ==> lines[8 + n + k] == OldRow(oldList[k], date, fmt))
  {
    var header := Header(today, |newList|, |oldList|);
    var placeholder := if oldList == [] then [Placeholder] else [];
    NewRowsAt(newList, date);
    OldRowsAt(oldList, date, fmt);
    assert |header| == 5 && |OldHeader| == 3;
    Layout(header, NewRows(newList, date), OldHeader, placeholder, OldRows(oldList, date, fmt));
  }

  /** Where the parts of `h + a + m + p + b` sit. */
  lemma Layout<T>(h: seq<T>, a: seq<T>, m: seq<T>, p: seq<T>, b: seq<T>)
    ensures var s := h + a + m + p + b;
      && |s| == |h| + |a| + |m| + |p| + |b|
      && (forall k :: 0 <= k < |a| ==> s[|h| + k] == a[k])
      && (m != [] ==> s[|h| + |a|] == m[0])
      && (p != [] ==> s[|h| + |a| + |m|] == p[0])
      && (forall k :: 0 <= k < |b| ==> s[|h| + |a| + |m| + |p| + k] == b[k])
  {
  }
}
