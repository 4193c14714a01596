/**
 * The downloader's handling of Microsoft Update Catalog pages: the row
 * filter of `parse_search_candidates` over rows already taken out of the
 * HTML, the download-dialog parameters, the URL extraction of
 * `extract_download_urls` and the file name `download_file` saves to.
 */
module Catalog {
  import opened Wrappers
  import opened Text

  datatype CatalogCandidate = CatalogCandidate(updateId: string, title: string, products: string,
                                               classification: string, lastUpdated: string,
                                               version: string, size: string)

  /** A `<tr>` of the results table: its `id` attribute ("" when absent) and the text of its cells. */
  datatype Row = Row(id: string, cells: seq<string>)

  /** A character of the class `[0-9a-fA-F-]`. */
  predicate IsHexOrDash(c: char) {
    IsDigit(c) || ('a' <= c <= 'f') || ('A' <= c <= 'F') || c == '-'
  }

  /** `re.fullmatch(r"[0-9a-fA-F-]{36}", s)`. */
  predicate IsUpdateId(s: string) {
    |s| == 36 && forall i :: 0 <= i < |s| ==> IsHexOrDash(s[i])
  }

  /**
   * The body of the `for tr in ...` loop: the candidate a row yields, or
   * `None` when it is skipped.  A kept row has at least eight cells and
   * yields a well-formed update id and the title of cell 1.
   */
  function Accept(row: Row): (r: Option<CatalogCandidate>)
    ensures r.Some? ==> |row.cells| >= 8 && IsUpdateId(r.value.updateId) && r.value.title == row.cells[1]
  {
    var id := Strip(row.id);
    if !Contains(id, "_R") then None
    else
      var updateId := BeforeFirst(id, "_R");
      if !IsUpdateId(updateId) then None
      else if |row.cells| < 8 then None
      else Some(CatalogCandidate(updateId, row.cells[1], row.cells[2], row.cells[3],
                                 row.cells[4], row.cells[5], row.cells[6]))
  }

  /**
   * A row is kept exactly when its stripped id has an "_R", the part before
   * the first "_R" is an update id, and it has at least eight cells; the
   * candidate's fields are cells 1 to 6.
   */
  lemma AcceptSpec(row: Row)
    ensures var r := Accept(row); var id := Strip(row.id);
      && (r.Some? <==> Contains(id, "_R") && IsUpdateId(BeforeFirst(id, "_R")) && |row.cells| >= 8)
      && (r.Some? ==> r.value == CatalogCandidate(BeforeFirst(id, "_R"), row.cells[1], row.cells[2], row.cells[3],
                                                  row.cells[4], row.cells[5], row.cells[6]))
  {
  }

  /** The decision the loop takes for each row. */
  function Decisions(rows: seq<Row>): (r: seq<Option<CatalogCandidate>>)
    ensures |r| == |rows| && forall i :: 0 <= i < |rows| ==> r[i] == Accept(rows[i])
  {
    seq(|rows|, i requires 0 <= i < |rows| => Accept(rows[i]))
  }

  /** The candidates of the accepted rows, in row order. */
  function Candidates(rows: seq<Row>): seq<CatalogCandidate>
  {
    Somes(Decisions(rows))
  }

  /**
   * A candidate is in the list exactly when some row is accepted with it,
   * and there are never more candidates than rows.
   */
  lemma CandidatesMember(rows: seq<Row>, c: CatalogCandidate)
    ensures c in Candidates(rows) <==> exists i :: 0 <= i < |rows| && Accept(rows[i]) == Some(c)
    ensures |Candidates(rows)| <= |rows|
  {
    var d := Decisions(rows);
    SomesMember(d, c);
    SomesBound(d);
    assert Some(c) in d <==> exists i :: 0 <= i < |rows| && Accept(rows[i]) == Some(c) by {
      if Some(c) in d {
        var i :| 0 <= i < |d| && d[i] == Some(c);
        assert Accept(rows[i]) == Some(c);
      }
      if exists i :: 0 <= i < |rows| && Accept(rows[i]) == Some(c) {
        var i :| 0 <= i < |rows| && Accept(rows[i]) == Some(c);
        assert d[i] == Some(c);
      }
    }
  }

  /** Every candidate's update id is 36 characters of hex digits and dashes. */
  lemma CandidatesIds(rows: seq<Row>, c: CatalogCandidate)
    requires c in Candidates(rows)
    ensures IsUpdateId(c.updateId)
  {
    CandidatesMember(rows, c);
    var i :| 0 <= i < |rows| && Accept(rows[i]) == Some(c);
    AcceptSpec(rows[i]);
  }

  /** `parse_search_candidates`: no results table gives no candidates; otherwise the loop over its rows. */
  method ParseSearchCandidates(table: Option<seq<Row>>) returns (candidates: seq<CatalogCandidate>)
    ensures table.None? ==> candidates == []
    ensures table.Some? ==> candidates == Candidates(table.value)
  {
    if table.None? {
      return [];
    }
    var rows := table.value;
    candidates := [];
    ghost var d := Decisions(rows);
    for i := 0 to |rows|
      invariant candidates == Somes(d[..i])
    {
      assert d[..i + 1][..i] == d[..i];
      var c := Accept(rows[i]);
      assert c == d[i];
      if c.Some? {
        candidates := candidates + [c.value];
      }
    }
    assert d[..|rows|] == d;
  }

  const PayloadHead: string := "[{\"size\":0,\"languages\":\"all\",\"uidInfo\":\""
  const PayloadMiddle: string := "\",\"updateID\":\""
  const PayloadTail: string := "\"}]"

  /** The `updateIDs` value of `build_dialog_params`: a one-element JSON list naming the update twice. */
  function DialogPayload(updateId: string): (r: string)
    ensures |r| == 57 + 2 * |updateId|
    ensures OccursAt(r, updateId, 40) && OccursAt(r, updateId, 54 + |updateId|)
  {
    assert |PayloadHead| == 40 && |PayloadMiddle| == 14 && |PayloadTail| == 3;
    var r := PayloadHead + updateId + PayloadMiddle + updateId + PayloadTail;
    assert r[40..40 + |updateId|] == updateId;
    assert r[54 + |updateId|..54 + 2 * |updateId|] == updateId;
    r
  }

  /** Different update ids give different dialog parameters. */
  lemma DialogPayloadInjective(a: string, b: string)
    requires DialogPayload(a) == DialogPayload(b)
    ensures a == b
  {
    assert |a| == |b|;
    assert a == DialogPayload(a)[40..40 + |a|];
  }

  /** `re.IGNORECASE` equality of `t` with the text of `s` at `i`. */
  predicate SameTextAt(s: string, t: string, i: nat) {
    i + |t| <= |s| && forall k :: 0 <= k < |t| ==> SameLetter(s[i + k], t[k])
  }

  /** The end of the quote-free stretch of `s` from `j`: its first `"` at or after `j`, or the end. */
  function QuoteEnd(s: string, j: nat): (q: nat)
    requires j <= |s|
    ensures j <= q <= |s| && (q < |s| ==> s[q] == '"')
    ensures forall k :: j <= k < q ==> s[k] != '"'
    decreases |s| - j
  {
    if j == |s| || s[j] == '"' then j else QuoteEnd(s, j + 1)
  }

  /** `\.(?:msu|cab)` (ignoring case) ends at `p`. */
  predicate ExtEndsAt(s: string, p: nat) {
    4 <= p <= |s| && s[p - 4] == '.' && (SameTextAt(s, "msu", p - 3) || SameTextAt(s, "cab", p - 3))
  }

  /** The largest `p` with `lo <= p <= hi` where an extension ends, if any. */
  function LastExt(s: string, lo: nat, hi: nat): (r: Option<nat>)
    requires hi <= |s|
    ensures r.Some? ==> lo <= r.value <= hi && ExtEndsAt(s, r.value)
    ensures forall p :: lo <= p <= hi && (r.None? || r.value < p) ==> !ExtEndsAt(s, p)
    decreases hi
  {
    if hi < lo then None
    else if ExtEndsAt(s, hi) then Some(hi)
    else if hi == 0 then None
    else LastExt(s, lo, hi - 1)
  }

  /** Where `https?://` (ignoring case) ends when it starts at `i`. */
  function SchemeEnd(s: string, i: nat): (r: Option<nat>)
    ensures r.Some? ==> r.value <= |s| && (r.value == i + 8 || r.value == i + 7)
  {
    if SameTextAt(s, "https://", i) then Some(i + 8)
    else if SameTextAt(s, "http://", i) then Some(i + 7)
    else None
  }

  /**
   * The end of the match of `https?://[^"]+\.(?:msu|cab)(?:\?[^"]*)?` that
   * starts at `i`: the greedy `[^"]+` backs off to the last extension of the
   * quote-free stretch, and a `?` right after the extension takes the rest of
   * the stretch.
   */
  function MatchEnd(s: string, i: nat): (r: Option<nat>)
    ensures r.Some? ==> i + 12 <= r.value <= |s|
  {
    match SchemeEnd(s, i)
    case None => None
    case Some(j) =>
      var q := QuoteEnd(s, j);
      match LastExt(s, j + 5, q)
      case None => None
      case Some(p) => if p < |s| && s[p] == '?' then Some(q) else Some(p)
  }

  /**
   * `re.findall` of the URL pattern from position `from`: the leftmost match,
   * then on from its end.  Every match is at least as long as a scheme, one
   * character and an extension.
   */
  function FindAll(s: string, from: nat): (r: seq<string>)
    ensures forall k :: 0 <= k < |r| ==> 12 <= |r[k]|
    decreases |s| - from
  {
    if from >= |s| then []
    else match MatchEnd(s, from)
      case Some(e) => [s[from..e]] + FindAll(s, e)
      case None => FindAll(s, from + 1)
  }

  /** A URL the pattern matched: a scheme, then no `"` at all, and an extension in it. */
  predicate UrlShape(u: string) {
    (SameTextAt(u, "https://", 0) || SameTextAt(u, "http://", 0))
    && '"' !in u
    && exists p :: 12 <= p <= |u| && ExtEndsAt(u, p)
  }

  lemma {:induction false} FindAllShape(s: string, from: nat)
    ensures forall u :: u in FindAll(s, from) ==> UrlShape(u)
    decreases |s| - from
  {
    if from < |s| {
      match MatchEnd(s, from)
      case Some(e) =>
        FindAllShape(s, e);
        MatchShape(s, from);
      case None =>
        FindAllShape(s, from + 1);
    }
  }

  lemma MatchShape(s: string, i: nat)
    requires MatchEnd(s, i).Some?
    ensures UrlShape(s[i..MatchEnd(s, i).value])
  {
    var e := MatchEnd(s, i).value;
    var j := SchemeEnd(s, i).value;
    var q := QuoteEnd(s, j);
    var p := LastExt(s, j + 5, q).value;
    var scheme := if j == i + 8 then "https://" else "http://";
    assert SameTextAt(s, scheme, i);
    SameTextShift(s, scheme, i, e, i);
    NoQuoteIn(s, scheme, i, j, q, e);
    ExtShift(s, i, e, p);
  }

  /** The scheme and the quote-free stretch after it hold no `"`. */
  lemma NoQuoteIn(s: string, scheme: string, i: nat, j: nat, q: nat, e: nat)
    requires scheme in {"https://", "http://"} && SameTextAt(s, scheme, i) && j == i + |scheme|
    requires j <= e <= q <= |s| && forall k :: j <= k < q ==> s[k] != '"'
    ensures '"' !in s[i..e]
  {
    var u := s[i..e];
    forall k | 0 <= k < |u|
      ensures u[k] != '"'
    {
      assert u[k] == s[i + k];
      if k < |scheme| {
        assert SameLetter(s[i + k], scheme[k]);
      }
    }
  }

  /** An extension ending at `p` inside `s[a..b]` ends at `p - a` in the slice. */
  lemma ExtShift(s: string, a: nat, b: nat, p: nat)
    requires a + 4 <= p <= b <= |s| && ExtEndsAt(s, p)
    ensures ExtEndsAt(s[a..b], p - a)
  {
    assert s[a..b][p - a - 4] == s[p - 4];
    if SameTextAt(s, "msu", p - 3) {
      SameTextShift(s, "msu", a, b, p - 3);
    } else {
      SameTextShift(s, "cab", a, b, p - 3);
    }
  }

  /** A case-insensitive match inside `s[a..b]` is one of the slice, shifted by `a`. */
  lemma SameTextShift(s: string, t: string, a: nat, b: nat, i: nat)
    requires a <= i && i + |t| <= b <= |s| && SameTextAt(s, t, i)
    ensures SameTextAt(s[a..b], t, i - a)
  {
    var u := s[a..b];
    forall k | 0 <= k < |t|
      ensures SameLetter(u[i - a + k], t[k])
    {
      assert u[i - a + k] == s[i + k];
    }
  }

  /** The distinct values of `s` in order of first occurrence: never more of them than `s` has, none for none. */
  function Dedup(s: seq<string>): (r: seq<string>)
    ensures |r| <= |s|
    ensures r == [] <==> s == []
  {
    if s == [] then []
    else
      var init := Dedup(s[..|s| - 1]);
      if s[|s| - 1] in init then init else init + [s[|s| - 1]]
  }

  predicate NoDuplicates(s: seq<string>) {
    forall i, j :: 0 <= i < j < |s| ==> s[i] != s[j]
  }

  /** The first index of `x` in `s`. */
  function FirstIndex(s: seq<string>, x: string): (r: nat)
    requires x in s
    ensures r < |s| && s[r] == x && forall k :: 0 <= k < r ==> s[k] != x
  {
    if s[0] == x then 0 else 1 + FirstIndex(s[1..], x)
  }

  /** `Dedup` keeps exactly the values of `s`. */
  lemma {:induction false} DedupMember(s: seq<string>, x: string)
    ensures x in Dedup(s) <==> x in s
    decreases |s|
  {
    if s != [] {
      var init := s[..|s| - 1];
      DedupMember(init, x);
      assert s == init + [s[|s| - 1]];
    }
  }

  /** `Dedup` keeps each value once. */
  lemma {:induction false} DedupDistinct(s: seq<string>)
    ensures NoDuplicates(Dedup(s))
    decreases |s|
  {
    if s != [] {
      var init := s[..|s| - 1];
      DedupDistinct(init);
    }
  }

  /** `Dedup` orders the values by where they first occur in `s`. */
  lemma {:induction false} DedupOrder(s: seq<string>)
    ensures forall x :: x in Dedup(s) ==> x in s
    ensures forall i, j :: 0 <= i < j < |Dedup(s)| ==> FirstIndex(s, Dedup(s)[i]) < FirstIndex(s, Dedup(s)[j])
    decreases |s|
  {
    forall x | x in Dedup(s)
      ensures x in s
    {
      DedupMember(s, x);
    }
    if s != [] {
      var init := s[..|s| - 1];
      var x := s[|s| - 1];
      var d := Dedup(init);
      DedupOrder(init);
      assert s == init + [x];
      forall y | y in init
        ensures FirstIndex(s, y) == FirstIndex(init, y)
      {
        FirstIndexPrefix(init, x, y);
      }
      if x !in d {
        DedupMember(init, x);
        FirstIndexLast(init, x);
        forall i | 0 <= i < |d|
          ensures FirstIndex(init, d[i]) < FirstIndex(s, x)
        {
        }
      }
    }
  }

  lemma FirstIndexPrefix(init: seq<string>, x: string, y: string)
    requires y in init
    ensures FirstIndex(init + [x], y) == FirstIndex(init, y)
  {
    var s := init + [x];
    var b := FirstIndex(init, y);
    assert s[b] == y;
    var a := FirstIndex(s, y);
    assert init[a] == y;
  }

  lemma FirstIndexLast(init: seq<string>, x: string)
    requires x !in init
    ensures FirstIndex(init + [x], x) == |init|
  {
    var s := init + [x];
    assert s[|init|] == x;
    forall k | 0 <= k < |init|
      ensures s[k] != x
    {
      assert s[k] == init[k];
    }
  }

  /** `extract_download_urls`: the loop that keeps each URL the first time it is seen. */
  method ExtractDownloadUrls(html: string) returns (out: seq<string>)
    ensures out == Dedup(FindAll(html, 0))
  {
    var urls := FindAll(html, 0);
    var seen: set<string> := {};
    out := [];
    for i := 0 to |urls|
      invariant out == Dedup(urls[..i])
      invariant forall x :: x in seen <==> x in out
    {
      assert urls[..i + 1][..i] == urls[..i];
      var u := urls[i];
      if u !in seen {
        seen := seen + {u};
        out := out + [u];
      }
    }
    assert urls[..|urls|] == urls;
  }

  /** `url.split("/")[-1].split("?", 1)[0]`: the last path piece without its query. */
  function Filename(url: string): (r: string)
    ensures '/' !in r && '?' !in r
    ensures r <= AfterLast(url, '/')
  {
    var piece := AfterLast(url, '/');
    var r := BeforeFirst(piece, "?");
    NoCharIn(r, '?');
    PrefixKeepsOut(r, piece, '/');
    r
  }

  lemma PrefixKeepsOut(r: string, s: string, c: char)
    requires r <= s && c !in s
    ensures c !in r
  {
    forall k | 0 <= k < |r|
      ensures r[k] != c
    {
      assert r[k] == s[k];
    }
  }
}
