/**
 * The `/submissions` handler of server.js (lines 56-89): the query that
 * selects at most 100 rows, most recent first, and the loop that renders one
 * table row per selected submission, with the user fields passed through
 * `escapeHtml`, between a fixed page head and foot.
 */
module Listing {
  import opened Wrappers
  import opened Escaping
  import opened Store

  /** The `LIMIT` of the listing query. */
  const ListLimit: nat := 100

  function Min(a: nat, b: nat): nat {
    if a <= b then a else b
  }

  /** `ORDER BY created_at DESC`: no row is more recent than one before it. */
  ghost predicate NonIncreasing(rows: seq<Submission>) {
    forall i, j :: 0 <= i < j < |rows| ==> rows[i].createdAt >= rows[j].createdAt
  }

  /**
   * What the query promises of its answer `sel` over the table `rows`: as many
   * rows as the limit allows, most recent first, each taken from the table,
   * and no row left out that is more recent than a row selected.  Rows with
   * equal timestamps may come in any order.
   */
  ghost predicate IsRecentSelection(rows: seq<Submission>, sel: seq<Submission>) {
    && |sel| == Min(|rows|, ListLimit)
    && NonIncreasing(sel)
    && multiset(sel) <= multiset(rows)
    && forall x, y :: x in multiset(rows) - multiset(sel) && y in sel ==> x.createdAt <= y.createdAt
  }

  /** Places `r` in front of the first row of `sorted` that is not more recent than it. */
  function InsertByRecency(r: Submission, sorted: seq<Submission>): (res: seq<Submission>)
    ensures multiset(res) == multiset(sorted) + multiset{r}
  {
    if sorted == [] || r.createdAt >= sorted[0].createdAt then [r] + sorted
    else
      assert sorted == [sorted[0]] + sorted[1..];
      [sorted[0]] + InsertByRecency(r, sorted[1..])
  }

  /** Inserting into a list sorted most recent first keeps it sorted. */
  lemma {:induction false} InsertByRecencySorted(r: Submission, sorted: seq<Submission>)
    requires NonIncreasing(sorted)
    ensures NonIncreasing(InsertByRecency(r, sorted))
  {
    if sorted != [] && r.createdAt < sorted[0].createdAt {
      var head, tail := sorted[0], sorted[1..];
      var rest := InsertByRecency(r, tail);
      assert NonIncreasing(tail) by {
        forall i, j | 0 <= i < j < |tail| ensures tail[i].createdAt >= tail[j].createdAt {
          assert tail[i] == sorted[i + 1] && tail[j] == sorted[j + 1];
        }
      }
      InsertByRecencySorted(r, tail);
      InsertedBelow(r, head, tail);
      PrependSorted(head, rest);
    }
  }

  /** Every row of `InsertByRecency(r, tail)` is `r` or a row of `tail`, so no newer than `head`. */
  lemma InsertedBelow(r: Submission, head: Submission, tail: seq<Submission>)
    requires r.createdAt <= head.createdAt
    requires forall i :: 0 <= i < |tail| ==> tail[i].createdAt <= head.createdAt
    ensures forall x :: x in InsertByRecency(r, tail) ==> x.createdAt <= head.createdAt
  {
    var rest := InsertByRecency(r, tail);
    forall x | x in rest ensures x.createdAt <= head.createdAt {
      assert x in multiset(rest);
      assert x == r || x in multiset(tail);
    }
  }

  /** A row no older than every row of a sorted list can go in front of it. */
  lemma PrependSorted(head: Submission, rest: seq<Submission>)
    requires NonIncreasing(rest)
    requires forall x :: x in rest ==> x.createdAt <= head.createdAt
    ensures NonIncreasing([head] + rest)
  {
    var res := [head] + rest;
    forall i, j | 0 <= i < j < |res| ensures res[i].createdAt >= res[j].createdAt {
      assert res[j] == rest[j - 1];
      if i > 0 {
        assert res[i] == rest[i - 1];
      } else {
        assert res[j] in rest;
      }
    }
  }

  /** One answer the SQL engine may give to `ORDER BY created_at DESC`. */
  function SortByRecency(rows: seq<Submission>): (res: seq<Submission>)
    ensures multiset(res) == multiset(rows)
    ensures NonIncreasing(res)
  {
    if rows == [] then []
    else
      assert rows == [rows[0]] + rows[1..];
      var sorted := SortByRecency(rows[1..]);
      InsertByRecencySorted(rows[0], sorted);
      InsertByRecency(rows[0], sorted)
  }

  /**
   * One answer the listing query allows: the sorted table cut at the limit,
   * so at most 100 of the table's rows, most recent first.
   * `SelectRecentIsRecentSelection` shows that `IsRecentSelection` can be met.
   */
  function SelectRecent(rows: seq<Submission>): (sel: seq<Submission>)
    ensures |sel| == Min(|rows|, ListLimit)
    ensures multiset(sel) <= multiset(rows)
    ensures NonIncreasing(sel)
  {
    var sorted := SortByRecency(rows);
    assert |sorted| == |multiset(sorted)| == |rows|;
    var k := Min(|sorted|, ListLimit);
    SortedPrefixOrdered(sorted, k);
    sorted[..k]
  }

  /** `SelectRecent` meets the query's promise, so the promise can be kept. */
  lemma SelectRecentIsRecentSelection(rows: seq<Submission>)
    ensures IsRecentSelection(rows, SelectRecent(rows))
  {
    var sorted := SortByRecency(rows);
    SortedPrefixIsRecent(sorted, Min(|sorted|, ListLimit));
  }

  /** A prefix of a list sorted most recent first is sorted and drawn from it. */
  lemma SortedPrefixOrdered(sorted: seq<Submission>, k: nat)
    requires NonIncreasing(sorted) && k <= |sorted|
    ensures NonIncreasing(sorted[..k])
    ensures multiset(sorted[..k]) <= multiset(sorted)
  {
    var sel := sorted[..k];
    assert sorted == sel + sorted[k..];
    forall i, j | 0 <= i < j < |sel| ensures sel[i].createdAt >= sel[j].createdAt {
      assert sel[i] == sorted[i] && sel[j] == sorted[j];
    }
  }

  /** A prefix of a list sorted most recent first is sorted, and no later row is more recent. */
  lemma SortedPrefixIsRecent(sorted: seq<Submission>, k: nat)
    requires NonIncreasing(sorted) && k <= |sorted|
    ensures NonIncreasing(sorted[..k])
    ensures multiset(sorted[..k]) <= multiset(sorted)
    ensures forall x, y :: x in multiset(sorted) - multiset(sorted[..k]) && y in sorted[..k] ==>
      x.createdAt <= y.createdAt
  {
    SortedPrefixOrdered(sorted, k);
    var sel, rest := sorted[..k], sorted[k..];
    assert sorted == sel + rest;
    assert multiset(sorted) - multiset(sel) == multiset(rest) by {
      assert multiset(sorted) == multiset(sel) + multiset(rest);
    }
    forall x: Submission, y: Submission | x in multiset(rest) && y in sel
      ensures x.createdAt <= y.createdAt
    {
      assert x in rest;
      var j :| 0 <= j < |rest| && rest[j] == x;
      var i :| 0 <= i < |sel| && sel[i] == y;
      assert sorted[i] == y && sorted[k + j] == x;
    }
  }

  /**
   * A row strictly newer than every other row of the table heads every answer
   * the query may give: a submission made after all others is listed first.
   */
  lemma NewestRowListedFirst(rows: seq<Submission>, sel: seq<Submission>, r: Submission)
    requires IsRecentSelection(rows, sel)
    requires r in rows
    requires forall x :: x in rows && x != r ==> x.createdAt < r.createdAt
    ensures |sel| > 0 && sel[0] == r
  {
    SelectionFacts(rows, sel);
    assert sel[0] in sel;
  }

  /** Consequences of the query's promise, stated on sequence membership. */
  lemma SelectionFacts(rows: seq<Submission>, sel: seq<Submission>)
    requires IsRecentSelection(rows, sel)
    ensures |rows| > 0 ==> |sel| > 0
    ensures forall y :: y in sel ==> y in rows
    ensures forall y :: y in sel ==> y.createdAt <= sel[0].createdAt
    ensures forall x, y :: x in rows && x !in sel && y in sel ==> x.createdAt <= y.createdAt
  {
    forall y | y in sel ensures y in rows {
      assert y in multiset(sel);
    }
    forall y | y in sel ensures y.createdAt <= sel[0].createdAt {
      var k :| 0 <= k < |sel| && sel[k] == y;
      assert k == 0 || sel[0].createdAt >= sel[k].createdAt;
    }
    forall x, y | x in rows && x !in sel && y in sel ensures x.createdAt <= y.createdAt {
      assert x in multiset(rows) - multiset(sel);
    }
  }

  /** `rows` in the opposite order. */
  function Reverse(rows: seq<Submission>): (res: seq<Submission>)
    ensures |res| == |rows|
    ensures forall i :: 0 <= i < |rows| ==> res[i] == rows[|rows| - 1 - i]
  {
    if rows == [] then [] else Reverse(rows[1..]) + [rows[0]]
  }

  /** Timestamps strictly increase in insertion order. */
  ghost predicate StrictlyIncreasingTimes(rows: seq<Submission>) {
    forall i, j :: 0 <= i < j < |rows| ==> rows[i].createdAt < rows[j].createdAt
  }

  /** A row older than every row of a list goes to its end. */
  lemma {:induction false} InsertOldest(r: Submission, sorted: seq<Submission>)
    requires forall i :: 0 <= i < |sorted| ==> r.createdAt < sorted[i].createdAt
    ensures InsertByRecency(r, sorted) == sorted + [r]
  {
    if sorted != [] {
      InsertOldest(r, sorted[1..]);
      assert sorted == [sorted[0]] + sorted[1..];
    }
  }

  /** Submissions made at strictly increasing times are sorted in reverse insertion order. */
  lemma {:induction false} SortOfIncreasing(rows: seq<Submission>)
    requires StrictlyIncreasingTimes(rows)
    ensures SortByRecency(rows) == Reverse(rows)
  {
    if rows != [] {
      SortOfIncreasing(rows[1..]);
      InsertOldest(rows[0], Reverse(rows[1..]));
    }
  }

  /**
   * After submissions A, B, C made at increasing times, the listing shows
   * C, B, A: the last `ListLimit` submissions, newest first.
   */
  lemma SelectRecentOfIncreasing(rows: seq<Submission>)
    requires StrictlyIncreasingTimes(rows)
    ensures SelectRecent(rows) == Reverse(rows)[..Min(|rows|, ListLimit)]
  {
    SortOfIncreasing(rows);
    var rev := Reverse(rows);
    assert rev[..|rev|] == rev;
  }

  /** Rows stamped at strictly increasing times are pairwise distinct. */
  lemma {:induction false} UniqueRows(rows: seq<Submission>)
    requires StrictlyIncreasingTimes(rows)
    ensures forall y :: multiset(rows)[y] <= 1
  {
    if rows != [] {
      UniqueRows(rows[1..]);
      assert rows == [rows[0]] + rows[1..];
      forall k | 0 <= k < |rows[1..]| ensures rows[1..][k] != rows[0] {
        assert rows[1..][k].createdAt > rows[0].createdAt;
      }
    }
  }

  /** A value found at two positions is counted at least twice. */
  lemma CountTwice(s: seq<Submission>, a: nat, b: nat)
    requires a < b < |s|
    ensures s[a] == s[b] ==> multiset(s)[s[a]] >= 2
  {
    assert s == s[..b] + [s[b]] + s[b + 1..];
    assert s[..b][a] == s[a];
  }

  /** An answer over rows stamped at increasing times repeats no row. */
  lemma SelectionNoRepeats(rows: seq<Submission>, sel: seq<Submission>)
    requires StrictlyIncreasingTimes(rows) && multiset(sel) <= multiset(rows)
    ensures forall a, b :: 0 <= a < b < |sel| ==> sel[a] != sel[b]
  {
    UniqueRows(rows);
    forall a, b | 0 <= a < b < |sel| ensures sel[a] != sel[b] {
      CountTwice(sel, a, b);
      assert multiset(sel)[sel[a]] <= multiset(rows)[sel[a]];
    }
  }

  /** The next row of such an answer is no newer row: those are listed already. */
  lemma StepNotNewer(rows: seq<Submission>, sel: seq<Submission>, i: nat)
    requires StrictlyIncreasingTimes(rows) && multiset(sel) <= multiset(rows)
    requires i < |sel| <= |rows|
    requires forall j :: 0 <= j < i ==> sel[j] == rows[|rows| - 1 - j]
    ensures forall m :: |rows| - 1 - i < m < |rows| ==> rows[m] != sel[i]
  {
    SelectionNoRepeats(rows, sel);
    forall m | |rows| - 1 - i < m < |rows| ensures rows[m] != sel[i] {
      assert sel[|rows| - 1 - m] == rows[m];
    }
  }

  /** Nor is it an older row: that would leave the newer `rows[|rows| - 1 - i]` out. */
  lemma StepNotOlder(rows: seq<Submission>, sel: seq<Submission>, i: nat)
    requires StrictlyIncreasingTimes(rows) && IsRecentSelection(rows, sel)
    requires i < |sel|
    requires forall j :: 0 <= j < i ==> sel[j] == rows[|rows| - 1 - j]
    ensures forall m :: 0 <= m < |rows| - 1 - i ==> rows[m] != sel[i]
  {
    var n := |rows|;
    var y, x := sel[i], rows[n - 1 - i];
    forall j | 0 <= j < i ensures sel[j] != x {
      assert sel[j].createdAt > x.createdAt;
    }
    assert x in sel ==> x.createdAt <= y.createdAt;
    SelectionFacts(rows, sel);
    assert x.createdAt <= y.createdAt;
    forall m | 0 <= m < n - 1 - i ensures rows[m] != y {
      assert rows[m].createdAt < x.createdAt;
    }
  }

  /** Equal prefixes, read position by position. */
  lemma PrefixIndices(rows: seq<Submission>, sel: seq<Submission>, i: nat)
    requires i <= |sel| && i <= |rows| && sel[..i] == Reverse(rows)[..i]
    ensures forall j :: 0 <= j < i ==> sel[j] == rows[|rows| - 1 - j]
  {
    forall j | 0 <= j < i ensures sel[j] == rows[|rows| - 1 - j] {
      assert sel[..i][j] == Reverse(rows)[..i][j];
    }
  }

  /** Equal prefixes followed by equal elements give a longer equal prefix. */
  lemma PrefixExtend(a: seq<Submission>, b: seq<Submission>, i: nat)
    requires i < |a| && i < |b| && a[..i] == b[..i] && a[i] == b[i]
    ensures a[..i + 1] == b[..i + 1]
  {
    assert a[..i + 1] == a[..i] + [a[i]];
    assert b[..i + 1] == b[..i] + [b[i]];
  }

  /** A row of the answer that is neither newer nor older than `rows[n - 1 - i]` is that row. */
  lemma StepIndex(rows: seq<Submission>, sel: seq<Submission>, i: nat)
    requires multiset(sel) <= multiset(rows) && i < |sel| <= |rows|
    requires forall m :: |rows| - 1 - i < m < |rows| ==> rows[m] != sel[i]
    requires forall m :: 0 <= m < |rows| - 1 - i ==> rows[m] != sel[i]
    ensures sel[i] == rows[|rows| - 1 - i]
  {
    assert sel[i] in multiset(sel);
    assert sel[i] in rows;
    var m :| 0 <= m < |rows| && rows[m] == sel[i];
    assert m == |rows| - 1 - i;
  }

  /**
   * The step of `RecentSelectionOfIncreasing`: once the first `i` rows of an
   * answer are the `i` newest rows, its next row is the next newest.
   */
  lemma SelectionStep(rows: seq<Submission>, sel: seq<Submission>, i: nat)
    requires StrictlyIncreasingTimes(rows) && IsRecentSelection(rows, sel)
    requires i < |sel| && sel[..i] == Reverse(rows)[..i]
    ensures sel[..i + 1] == Reverse(rows)[..i + 1]
  {
    PrefixIndices(rows, sel, i);
    StepNotNewer(rows, sel, i);
    StepNotOlder(rows, sel, i);
    StepIndex(rows, sel, i);
    PrefixExtend(sel, Reverse(rows), i);
  }

  /** The first `i` rows of an answer over increasing times are the `i` newest rows. */
  lemma {:induction false} SelectionPrefixNewest(rows: seq<Submission>, sel: seq<Submission>, i: nat)
    requires StrictlyIncreasingTimes(rows) && IsRecentSelection(rows, sel)
    requires i <= |sel|
    ensures sel[..i] == Reverse(rows)[..i]
  {
    if i > 0 {
      SelectionPrefixNewest(rows, sel, i - 1);
      SelectionStep(rows, sel, i - 1);
    }
  }

  /**
   * After submissions A, B, C made at increasing times, every answer the
   * query may give is C, B, A: the last `ListLimit` submissions, newest first.
   */
  lemma RecentSelectionOfIncreasing(rows: seq<Submission>, sel: seq<Submission>)
    requires StrictlyIncreasingTimes(rows) && IsRecentSelection(rows, sel)
    ensures sel == Reverse(rows)[..Min(|rows|, ListLimit)]
  {
    SelectionPrefixNewest(rows, sel, |sel|);
    assert sel[..|sel|] == sel;
  }

  // ---------------------------------------------------------------- rendering

  /** The decimal digit for `d`. */
  function Digit(d: nat): char
    requires d < 10
  {
    "0123456789"[d]
  }

  /** A non-negative integer as JavaScript prints it in a template literal. */
  function DecimalText(n: nat): (r: string)
    ensures |r| >= 1
    ensures NoRawMarkup(r)
  {
    if n < 10 then [Digit(n)] else DecimalText(n / 10) + [Digit(n % 10)]
  }

  /** The text of a `created_at` value; like the id, it cannot carry markup. */
  function TimeText(t: Timestamp): (r: string)
    ensures |r| >= 1 && NoRawMarkup(r)
  {
    DecimalText(t)
  }

  /** The page head up to and including the table's header row. */
  const PageHead: string :=
    "\n      <html><head><meta charset=\"utf-8\"><title>Submissions</title>\n      <style>"
    + "\n        body{font-family:Arial,Helvetica,sans-serif;padding:20px}"
    + "\n        table{border-collapse:collapse;width:100%}"
    + "\n        td,th{border:1px solid #ddd;padding:8px}"
    + "\n        th{background:#f7f7f7}"
    + "\n      </style>\n      </head>\n      <body>\n      <h2>Submissions (latest 100)</h2>\n      <table>"
    + "\n        <tr><th>ID</th><th>Name</th><th>Email</th><th>Message</th><th>When</th></tr>\n    "

  /** The page foot appended after the loop. */
  const PageFoot: string := "</table></body></html>"

  /** The indentation between the cells of a row, and before its closing tag. */
  const CellGap: string := "\n        "
  const RowGap: string := "\n      "

  /** One table cell around already-rendered text. */
  function Cell(text: string): string {
    "<td>" + (text + "</td>")
  }

  /**
   * The `<tr>` the loop appends for one row: id, escaped user fields,
   * timestamp.  It opens with `<tr>` and ends with `</tr>`, so it closes every
   * tag it starts.
   */
  function RowHtml(r: Submission): (row: string)
    ensures |row| > 0 && row[|row| - 1] == '>'
  {
    "<tr>" + (CellGap + (Cell(DecimalText(r.id))
    + (CellGap + (Cell(EscapeHtml(Some(r.name)))
    + (CellGap + (Cell(EscapeHtml(Some(r.email)))
    + (CellGap + (Cell(EscapeHtml(Some(r.message)))
    + (CellGap + (Cell(TimeText(r.createdAt))
    + (RowGap + "</tr>")))))))))))
  }

  /**
   * What the loop has appended after processing `rows`, in their order: empty
   * for no rows, otherwise text ending with the last row's `</tr>`.
   */
  function RowsHtml(rows: seq<Submission>): (html: string)
  {
    if rows == [] then [] else RowsHtml(rows[..|rows| - 1]) + RowHtml(rows[|rows| - 1])
  }

  /** The whole document sent for a selection of rows: the head, the rows, the foot. */
  function Page(rows: seq<Submission>): string {
    PageHead + RowsHtml(rows) + PageFoot
  }

  /**
   * Extending the processed prefix by one row appends that row's markup, to
   * the rows alone and to the page built so far.
   */
  lemma RowsHtmlSnoc(rows: seq<Submission>, i: nat)
    requires i < |rows|
    ensures RowsHtml(rows[..i + 1]) == RowsHtml(rows[..i]) + RowHtml(rows[i])
  {
    assert rows[..i + 1][..i] == rows[..i];
  }

  /** The page built so far grows by the next row's markup. */
  lemma PageSoFarSnoc(rows: seq<Submission>, i: nat)
    requires i < |rows|
    ensures PageHead + RowsHtml(rows[..i + 1]) == PageHead + RowsHtml(rows[..i]) + RowHtml(rows[i])
  {
    RowsHtmlSnoc(rows, i);
  }

  /** The rendering loop: one `html +=` per row, then the foot. */
  method RenderPage(rows: seq<Submission>) returns (html: string)
    ensures html == Page(rows)
  {
    html := PageHead;
    for i := 0 to |rows|
      invariant html == PageHead + RowsHtml(rows[..i])
    {
      PageSoFarSnoc(rows, i);
      html := html + RowHtml(rows[i]);
    }
    assert rows[..|rows|] == rows;
    html := html + PageFoot;
  }

  // ------------------------------------------------- markup structure of rows

  /** The number of places at which `p` occurs in `s`. */
  function Occurrences(s: string, p: string): nat
    requires |p| > 0
    decreases |s|
  {
    if |s| < |p| then 0 else (if s[..|p|] == p then 1 else 0) + Occurrences(s[1..], p)
  }

  /** A tag: starts with `<`, ends with `>` and has no other `>`. */
  predicate IsTag(p: string) {
    && |p| >= 2 && p[0] == '<' && p[|p| - 1] == '>'
    && forall k :: 0 <= k < |p| - 1 ==> p[k] != '>'
  }

  /** No tag can start in `a` and finish beyond it. */
  predicate ClosedTail(a: string) {
    '<' !in a || (|a| > 0 && a[|a| - 1] == '>')
  }

  /** Text without `<` holds no tag. */
  lemma {:induction false} OccurrencesNoOpen(s: string, p: string)
    requires IsTag(p) && '<' !in s
    ensures Occurrences(s, p) == 0
  {
    if |s| >= |p| {
      assert s[..|p|][0] != p[0];
      OccurrencesNoOpen(s[1..], p);
    }
  }

  /** Tags of `a + b` are those of `a` and those of `b` when no tag straddles the seam. */
  lemma {:induction false} OccurrencesAppend(a: string, b: string, p: string)
    requires IsTag(p) && ClosedTail(a)
    ensures Occurrences(a + b, p) == Occurrences(a, p) + Occurrences(b, p)
  {
    var s := a + b;
    if a == [] {
      assert s == b;
    } else if |s| >= |p| {
      assert s[1..] == a[1..] + b;
      OccurrencesAppend(a[1..], b, p);
      if |a| >= |p| {
        assert s[..|p|] == a[..|p|];
      } else {
        if '<' !in a {
          assert s[..|p|][0] != p[0];
        } else {
          assert s[..|p|][|a| - 1] == '>';
        }
        OccurrencesShort(a, p);
        OccurrencesShort(a[1..], p);
      }
    } else {
      OccurrencesShort(a, p);
      OccurrencesShort(b, p);
    }
  }

  /** Text shorter than the pattern holds none of it. */
  lemma OccurrencesShort(s: string, p: string)
    requires |p| > 0 && |s| < |p|
    ensures Occurrences(s, p) == 0
  {
  }

  /** Occurrences of `p` in a cell around text without `<`. */
  lemma CellOccurrences(text: string, p: string)
    requires IsTag(p) && '<' !in text
    ensures Occurrences(Cell(text), p) == Occurrences("<td>", p) + Occurrences("</td>", p)
  {
    OccurrencesAppend("<td>", text + "</td>", p);
    OccurrencesAppend(text, "</td>", p);
    OccurrencesNoOpen(text, p);
  }

  /** How often the tag `p` occurs in the template of one row. */
  function RowTagCount(p: string): nat
    requires |p| > 0
  {
    Occurrences("<tr>", p) + 5 * (Occurrences("<td>", p) + Occurrences("</td>", p))
    + Occurrences("</tr>", p)
  }

  /**
   * Whatever the stored values, a rendered row holds exactly the tags of the
   * template: user text cannot open or close a row, a cell or anything else.
   */
  lemma RowHtmlOccurrences(r: Submission, p: string)
    requires IsTag(p)
    ensures Occurrences(RowHtml(r), p) == RowTagCount(p)
  {
    var id, name, email := DecimalText(r.id), EscapeHtml(Some(r.name)), EscapeHtml(Some(r.email));
    var message, time := EscapeHtml(Some(r.message)), TimeText(r.createdAt);
    EscapeHtmlNoRawMarkup(Some(r.name));
    EscapeHtmlNoRawMarkup(Some(r.email));
    EscapeHtmlNoRawMarkup(Some(r.message));
    assert '<' !in id && '<' !in time;
    CellOccurrences(id, p);
    CellOccurrences(name, p);
    CellOccurrences(email, p);
    CellOccurrences(message, p);
    CellOccurrences(time, p);
    OccurrencesNoOpen(CellGap, p);
    OccurrencesNoOpen(RowGap, p);
    var t6 := RowGap + "</tr>";
    OccurrencesAppend(RowGap, "</tr>", p);
    var t5 := Cell(time) + t6;
    OccurrencesAppend(Cell(time), t6, p);
    var t5g := CellGap + t5;
    OccurrencesAppend(CellGap, t5, p);
    var t4 := Cell(message) + t5g;
    OccurrencesAppend(Cell(message), t5g, p);
    var t4g := CellGap + t4;
    OccurrencesAppend(CellGap, t4, p);
    var t3 := Cell(email) + t4g;
    OccurrencesAppend(Cell(email), t4g, p);
    var t3g := CellGap + t3;
    OccurrencesAppend(CellGap, t3, p);
    var t2 := Cell(name) + t3g;
    OccurrencesAppend(Cell(name), t3g, p);
    var t2g := CellGap + t2;
    OccurrencesAppend(CellGap, t2, p);
    var t1 := Cell(id) + t2g;
    OccurrencesAppend(Cell(id), t2g, p);
    var t1g := CellGap + t1;
    OccurrencesAppend(CellGap, t1, p);
    OccurrencesAppend("<tr>", t1g, p);
  }

  /** The concatenation of `parts`, in order. */
  function Join(parts: seq<string>): string {
    if parts == [] then [] else Join(parts[..|parts| - 1]) + parts[|parts| - 1]
  }

  /** Parts that each end with `>` join to text that is empty or ends with `>`. */
  lemma JoinClosed(parts: seq<string>)
    requires forall i :: 0 <= i < |parts| ==> |parts[i]| > 0 && parts[i][|parts[i]| - 1] == '>'
    ensures ClosedTail(Join(parts))
  {
    if parts != [] {
      var last := parts[|parts| - 1];
      var joined := Join(parts[..|parts| - 1]) + last;
      assert joined[|joined| - 1] == last[|last| - 1];
    }
  }

  /** Joining parts that each end with `>` and hold `c` tags gives `c` tags per part. */
  lemma {:induction false} JoinOccurrences(parts: seq<string>, p: string, c: nat)
    requires IsTag(p)
    requires forall i :: 0 <= i < |parts| ==> |parts[i]| > 0 && parts[i][|parts[i]| - 1] == '>'
    requires forall i :: 0 <= i < |parts| ==> Occurrences(parts[i], p) == c
    ensures Occurrences(Join(parts), p) == |parts| * c
  {
    if parts != [] {
      var init, last := parts[..|parts| - 1], parts[|parts| - 1];
      var before := Join(init);
      assert Join(parts) == before + last;
      JoinOccurrences(init, p, c);
      JoinClosed(init);
      OccurrencesAppend(before, last, p);
      MulStep(|parts|, c);
    }
  }

  /**
   * One more part adds `c` more tags.  Kept apart from `JoinOccurrences` so
   * that the multiplication stays out of that proof's context.
   */
  lemma MulStep(n: nat, c: nat)
    requires n > 0
    ensures n * c == (n - 1) * c + c
  {
  }

  /** The markup of each row, in order. */
  function RowTexts(rows: seq<Submission>): (texts: seq<string>)
    ensures |texts| == |rows|
    ensures forall i :: 0 <= i < |rows| ==> texts[i] == RowHtml(rows[i])
  {
    seq(|rows|, i requires 0 <= i < |rows| => RowHtml(rows[i]))
  }

  /** What the loop appends is the join of the rows' markup. */
  lemma {:induction false} RowsHtmlIsJoin(rows: seq<Submission>)
    ensures RowsHtml(rows) == Join(RowTexts(rows))
  {
    if rows != [] {
      var init := rows[..|rows| - 1];
      RowsHtmlIsJoin(init);
      assert RowTexts(rows)[..|rows| - 1] == RowTexts(init);
    }
  }

  /**
   * The rendered rows hold each tag exactly as often as the template repeated
   * once per row: the stored text contributes none.
   */
  lemma RowsHtmlOccurrences(rows: seq<Submission>, p: string)
    requires IsTag(p)
    ensures Occurrences(RowsHtml(rows), p) == |rows| * RowTagCount(p)
  {
    var texts := RowTexts(rows);
    forall i | 0 <= i < |texts|
      ensures |texts[i]| > 0 && texts[i][|texts[i]| - 1] == '>'
      ensures Occurrences(texts[i], p) == RowTagCount(p)
    {
      RowHtmlOccurrences(rows[i], p);
    }
    JoinOccurrences(texts, p, RowTagCount(p));
    RowsHtmlIsJoin(rows);
  }

  /**
   * A tag whose only `<` is its first character holds another tag `p` once if
   * it is `p` and not at all otherwise: `p` would have to start at that `<`
   * and end at the tag's only `>`.
   */
  lemma TagOccurrences(t: string, p: string)
    requires IsTag(t) && IsTag(p) && '<' !in t[1..]
    ensures Occurrences(t, p) == if t == p then 1 else 0
  {
    OccurrencesNoOpen(t[1..], p);
    if |p| < |t| {
      assert t[..|p|][|p| - 1] != p[|p| - 1];
    } else if |p| == |t| {
      assert t[..|p|] == t;
    }
  }

  /** The four tags of the row template. */
  predicate InRowTemplate(p: string) {
    p == "<tr>" || p == "<td>" || p == "</td>" || p == "</tr>"
  }

  /** Each tag of the row template occurs in it only as itself. */
  lemma TemplateTagOccurrences(p: string)
    requires IsTag(p)
    ensures Occurrences("<tr>", p) == if p == "<tr>" then 1 else 0
    ensures Occurrences("<td>", p) == if p == "<td>" then 1 else 0
    ensures Occurrences("</td>", p) == if p == "</td>" then 1 else 0
    ensures Occurrences("</tr>", p) == if p == "</tr>" then 1 else 0
  {
    assert '<' !in "<tr>"[1..] && '<' !in "<td>"[1..];
    assert '<' !in "</td>"[1..] && '<' !in "</tr>"[1..];
    TagOccurrences("<tr>", p);
    TagOccurrences("<td>", p);
    TagOccurrences("</td>", p);
    TagOccurrences("</tr>", p);
  }

  /** One `<tr>` in one row's template. */
  lemma RowTagCountOpenRow()
    ensures IsTag("<tr>") && RowTagCount("<tr>") == 1
  {
    TemplateTagOccurrences("<tr>");
    assert "<td>"[2] != "<tr>"[2];
  }

  /** One `</tr>` in one row's template. */
  lemma RowTagCountCloseRow()
    ensures IsTag("</tr>") && RowTagCount("</tr>") == 1
  {
    TemplateTagOccurrences("</tr>");
    assert "</td>"[3] != "</tr>"[3];
  }

  /** Five `<td>` in one row's template. */
  lemma RowTagCountOpenCell()
    ensures IsTag("<td>") && RowTagCount("<td>") == 5
  {
    TemplateTagOccurrences("<td>");
    assert "<tr>"[2] != "<td>"[2];
  }

  /** A tag the row template lacks does not occur in it. */
  lemma RowTagCountForeign(p: string)
    requires IsTag(p) && !InRowTemplate(p)
    ensures RowTagCount(p) == 0
  {
    TemplateTagOccurrences(p);
  }

  /** The listing renders exactly one `<tr>` per selected row. */
  lemma RowsHtmlOpenRows(rows: seq<Submission>)
    ensures Occurrences(RowsHtml(rows), "<tr>") == |rows|
  {
    RowTagCountOpenRow();
    RowsHtmlOccurrences(rows, "<tr>");
  }

  /** The listing renders exactly one `</tr>` per selected row. */
  lemma RowsHtmlCloseRows(rows: seq<Submission>)
    ensures Occurrences(RowsHtml(rows), "</tr>") == |rows|
  {
    RowTagCountCloseRow();
    RowsHtmlOccurrences(rows, "</tr>");
  }

  /** The listing renders exactly five `<td>` per selected row. */
  lemma RowsHtmlOpenCells(rows: seq<Submission>)
    ensures Occurrences(RowsHtml(rows), "<td>") == 5 * |rows|
  {
    RowTagCountOpenCell();
    RowsHtmlOccurrences(rows, "<td>");
    var n, c := |rows|, RowTagCount("<td>");
    assert n * c == 5 * n;
  }

  /**
   * No stored value can inject a tag the row template lacks: any tag other
   * than `<tr>`, `<td>`, `</td>` and `</tr>`, `<b>` or `</table>` or
   * `<script>` say, does not occur in the rendered rows.
   */
  lemma RowsHtmlNoForeignTags(rows: seq<Submission>, p: string)
    requires IsTag(p) && !InRowTemplate(p)
    ensures Occurrences(RowsHtml(rows), p) == 0
  {
    RowTagCountForeign(p);
    RowsHtmlOccurrences(rows, p);
  }
}
