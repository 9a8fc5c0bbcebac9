/**
 * `warning_cases` (backend/app.py:412-426): the status filter, the clamped
 * page and size, and the newest-first page of the case table.
 */
module CaseListing {
  import opened Wrappers
  import opened Text
  import opened WarningModel

  /** The response body: the number of matching cases and the cases of the page. */
  datatype CasePage = CasePage(total: nat, items: seq<Case>)

  /** `max(1, int(page))` with `page` defaulting to 1. */
  function ClampPage(page: Option<int>): (p: nat)
    ensures p >= 1
    ensures page.Some? && page.value >= 1 ==> p == page.value
    ensures page.None? || page.value < 1 ==> p == 1
  {
    var v := page.GetOr(1);
    if v < 1 then 1 else v
  }

  /** `max(1, min(100, int(size)))` with `size` defaulting to 20. */
  function ClampSize(size: Option<int>): (n: nat)
    ensures 1 <= n <= 100
    ensures size.Some? && 1 <= size.value <= 100 ==> n == size.value
    ensures size.Some? && size.value > 100 ==> n == 100
    ensures size.Some? && size.value < 1 ==> n == 1
    ensures size.None? ==> n == 20
  {
    var v := size.GetOr(20);
    if v > 100 then 100 else if v < 1 then 1 else v
  }

  /**
   * `(status or "open").strip()`, then filter only when non-empty: a missing
   * or empty value means "open", a whitespace-only value means no filter.
   */
  function StatusFilter(status: Option<string>): (r: Option<string>)
    ensures r.Some? ==> r.value != "" && Trimmed(r.value)
  {
    var raw := if status.None? || status.value == "" then OpenStatus else status.value;
    var t := Strip(raw);
    StripIsTrimmed(raw);
    if t == "" then None else Some(t)
  }

  /** Missing and empty status both list the open cases only. */
  lemma DefaultFilterIsOpen(status: Option<string>)
    requires status.None? || status.value == ""
    ensures StatusFilter(status) == Some(OpenStatus)
  {
    StripOpen();
  }

  lemma StripOpen()
    ensures Strip(OpenStatus) == OpenStatus
  {
    assert Trimmed(OpenStatus);
    StripTrimmed(OpenStatus);
  }

  /** A whitespace-only status lists every case; other values are trimmed first. */
  lemma StatusFilterOfValue(lead: string, s: string, trail: string)
    requires AllSpace(lead) && AllSpace(trail) && Trimmed(s) && lead + s + trail != ""
    ensures StatusFilter(Some(lead + s + trail)) == if s == "" then None else Some(s)
  {
    StripOfPadded(lead, s, trail);
  }

  predicate Matches(c: Case, filter: Option<string>) {
    filter.None? || c.status == filter.value
  }

  /** The cases that pass the filter, in table order. */
  function Filtered(cases: seq<Case>, filter: Option<string>): (r: seq<Case>)
    ensures |r| <= |cases|
    ensures forall c :: c in r <==> c in cases && Matches(c, filter)
  {
    if cases == [] then []
    else (if Matches(cases[0], filter) then [cases[0]] else []) + Filtered(cases[1..], filter)
  }

  lemma {:induction false} FilteredAscending(cases: seq<Case>, filter: Option<string>)
    requires IdsAscending(cases)
    ensures IdsAscending(Filtered(cases, filter))
  {
    if cases != [] {
      assert IdsAscending(cases[1..]);
      FilteredAscending(cases[1..], filter);
      var rest := Filtered(cases[1..], filter);
      forall c | c in rest ensures cases[0].id < c.id {
        var k :| 0 <= k < |cases[1..]| && cases[1..][k] == c;
        assert c == cases[k + 1];
      }
    }
  }

  function Reverse(s: seq<Case>): (r: seq<Case>)
    ensures |r| == |s| && forall k :: 0 <= k < |s| ==> r[k] == s[|s| - 1 - k]
  {
    if s == [] then [] else Reverse(s[1..]) + [s[0]]
  }

  function Min(a: int, b: int): int {
    if a < b then a else b
  }

  /** The offset of the page: `(page - 1) * size`. */
  function Offset(page: Option<int>, size: Option<int>): nat {
    (ClampPage(page) - 1) * ClampSize(size)
  }

  /** Positions [off, off + n) of `sel` counted from its end: the newest-first page. */
  function NewestPage(sel: seq<Case>, off: nat, n: nat): (items: seq<Case>)
    ensures |items| == if off >= |sel| then 0 else Min(n, |sel| - off)
    ensures forall k :: 0 <= k < |items| ==> items[k] == sel[|sel| - 1 - (off + k)]
  {
    if off >= |sel| then [] else Reverse(sel)[off..Min(off + n, |sel|)]
  }

  /**
   * The listing: `total` counts the matching cases, and `items` are the
   * matching cases from the offset on, newest (largest Id) first, at most
   * `size` of them.
   */
  function ListCases(cases: seq<Case>, status: Option<string>, page: Option<int>, size: Option<int>): (r: CasePage)
    requires IdsAscending(cases)
    ensures var sel := Filtered(cases, StatusFilter(status));
            var off := Offset(page, size);
            && r.total == |sel|
            && |r.items| == (if off >= |sel| then 0 else Min(ClampSize(size), |sel| - off))
            && (forall k :: 0 <= k < |r.items| ==> r.items[k] in cases && Matches(r.items[k], StatusFilter(status)))
            && (forall i, j :: 0 <= i < j < |r.items| ==> r.items[i].id > r.items[j].id)
  {
    var filter := StatusFilter(status);
    var sel := Filtered(cases, filter);
    FilteredPage(cases, filter, Offset(page, size), ClampSize(size));
    CasePage(|sel|, NewestPage(sel, Offset(page, size), ClampSize(size)))
  }

  /** The newest-first page of the filtered cases holds matching cases of the table, in descending Id. */
  lemma FilteredPage(cases: seq<Case>, filter: Option<string>, off: nat, n: nat)
    requires IdsAscending(cases)
    ensures var items := NewestPage(Filtered(cases, filter), off, n);
            && (forall k :: 0 <= k < |items| ==> items[k] in cases && Matches(items[k], filter))
            && (forall i, j :: 0 <= i < j < |items| ==> items[i].id > items[j].id)
  {
    var sel := Filtered(cases, filter);
    FilteredAscending(cases, filter);
    PageElements(sel, off, n);
  }

  lemma PageElements(sel: seq<Case>, off: nat, n: nat)
    requires IdsAscending(sel)
    ensures var items := NewestPage(sel, off, n);
            && (forall k :: 0 <= k < |items| ==> items[k] in sel)
            && (forall i, j :: 0 <= i < j < |items| ==> items[i].id > items[j].id)
  {
    var items := NewestPage(sel, off, n);
    forall k | 0 <= k < |items| ensures items[k] in sel {
      assert items[k] == sel[|sel| - 1 - (off + k)];
    }
    forall i, j | 0 <= i < j < |items| ensures items[i].id > items[j].id {
      assert items[i] == sel[|sel| - 1 - (off + i)];
      assert items[j] == sel[|sel| - 1 - (off + j)];
    }
  }

  /** How many cases of `s` are newer (have a larger Id) than `id`. */
  function CountNewer(s: seq<Case>, id: nat): nat {
    if s == [] then 0 else (if s[0].id > id then 1 else 0) + CountNewer(s[1..], id)
  }

  lemma {:induction false} AllNewer(s: seq<Case>, id: nat)
    requires forall k :: 0 <= k < |s| ==> s[k].id > id
    ensures CountNewer(s, id) == |s|
  {
    if s != [] {
      AllNewer(s[1..], id);
    }
  }

  /** In an ascending table the case at position i has exactly |s| - 1 - i newer cases. */
  lemma {:induction false} RankInAscending(s: seq<Case>, i: nat)
    requires IdsAscending(s) && i < |s|
    ensures CountNewer(s, s[i].id) == |s| - 1 - i
  {
    assert IdsAscending(s[1..]);
    if i == 0 {
      AllNewer(s[1..], s[0].id);
    } else {
      RankInAscending(s[1..], i - 1);
    }
  }

  lemma NewestPageRanks(sel: seq<Case>, off: nat, n: nat)
    requires IdsAscending(sel)
    ensures var items := NewestPage(sel, off, n);
            forall k :: 0 <= k < |items| ==> CountNewer(sel, items[k].id) == off + k
  {
    var items := NewestPage(sel, off, n);
    forall k | 0 <= k < |items| ensures CountNewer(sel, items[k].id) == off + k {
      RankInAscending(sel, |sel| - 1 - (off + k));
    }
  }

  lemma NewestPageWindow(sel: seq<Case>, off: nat, n: nat, c: Case)
    requires IdsAscending(sel) && c in sel
    ensures c in NewestPage(sel, off, n) <==> off <= CountNewer(sel, c.id) < off + n
  {
    var items := NewestPage(sel, off, n);
    var i :| 0 <= i < |sel| && sel[i] == c;
    RankInAscending(sel, i);
    var rank := |sel| - 1 - i;
    if off <= rank < off + n {
      assert items[rank - off] == sel[i];
    }
    if c in items {
      var k :| 0 <= k < |items| && items[k] == c;
      assert sel[|sel| - 1 - (off + k)].id == c.id;
    }
  }

  /**
   * The page is a rank window: a matching case is listed exactly when the
   * number of matching cases newer than it lies in [offset, offset + size),
   * and the k-th listed case has exactly offset + k newer matching cases.
   */
  lemma PageIsRankWindow(cases: seq<Case>, status: Option<string>, page: Option<int>, size: Option<int>)
    requires IdsAscending(cases)
    ensures var sel := Filtered(cases, StatusFilter(status));
            var off := Offset(page, size);
            var r := ListCases(cases, status, page, size);
            && (forall k :: 0 <= k < |r.items| ==> CountNewer(sel, r.items[k].id) == off + k)
            && (forall c :: c in sel ==>
                  (c in r.items <==> off <= CountNewer(sel, c.id) < off + ClampSize(size)))
  {
    var sel := Filtered(cases, StatusFilter(status));
    var off := Offset(page, size);
    var n := ClampSize(size);
    FilteredAscending(cases, StatusFilter(status));
    assert ListCases(cases, status, page, size).items == NewestPage(sel, off, n);
    NewestPageRanks(sel, off, n);
    forall c | c in sel ensures c in NewestPage(sel, off, n) <==> off <= CountNewer(sel, c.id) < off + n {
      NewestPageWindow(sel, off, n, c);
    }
  }

  /** Once no case with Id `cid` is open, the default listing never shows it. */
  lemma ClosedCaseNotListedByDefault(cases: seq<Case>, cid: nat, page: Option<int>, size: Option<int>)
    requires IdsAscending(cases)
    requires forall k :: 0 <= k < |cases| && cases[k].id == cid ==> cases[k].status == ClosedStatus
    ensures forall c :: c in ListCases(cases, None, page, size).items ==> c.id != cid
  {
    DefaultFilterIsOpen(None);
  }
}
