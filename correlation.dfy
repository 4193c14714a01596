/**
 * The scanner's correlation of the finalised KB records with the installed
 * KBs: the missing list of `main` and the per-KB type and status of
 * `print_kb_table` (the printed layout itself is not modelled).
 */
module Correlation {
  import opened Ordering
  import opened KbMerge
  import opened SupersedenceGraph

  /** `expected = {e["KB"] for e in kb_entries}`. */
  function Expected(entries: seq<KbRecord>): (r: set<string>)
    ensures forall k :: k in r <==> exists i :: 0 <= i < |entries| && entries[i].kb == k
  {
    set e | e in entries :: e.kb
  }

  /**
   * The KBs of the finalised index's entries are exactly its keys: every
   * record is listed, and each is keyed by its own KB.
   */
  lemma ExpectedKeys(index: KbIndex)
    requires index.Valid()
    ensures Expected(index.Values()) == index.records.Keys
  {
    var m := index.records;
    assert forall k :: k in m ==> m[k].kb == k;
    ExpectedOfKeyed(m, index.Values());
  }

  /** Entries that are exactly the values of a map keyed by its records' KBs name exactly its keys. */
  lemma ExpectedOfKeyed(m: map<string, KbRecord>, entries: seq<KbRecord>)
    requires forall k :: k in m ==> m[k].kb == k
    requires forall r :: r in entries <==> r in m.Values
    ensures Expected(entries) == m.Keys
  {
    forall k | k in m
      ensures k in Expected(entries)
    {
      assert m[k] in m.Values;
      var i :| 0 <= i < |entries| && entries[i] == m[k];
    }
    forall k | k in Expected(entries)
      ensures k in m
    {
      var i :| 0 <= i < |entries| && entries[i].kb == k;
      assert entries[i] in m.Values;
      var j :| j in m && m[j] == entries[i];
    }
  }

  /** `missing = sorted(expected - logical_present)`. */
  function MissingKbs(expected: set<string>, present: set<string>): (r: seq<string>)
    ensures StrictlySorted(r)
    ensures forall x :: x in r <==> x in expected && x !in present
    ensures |r| == |expected - present|
  {
    SortedSet(expected - present)
  }

  /**
   * With the closure of the installed KBs as `logical_present`, a missing KB
   * is expected, not installed and superseded by no installed KB; every
   * expected KB is missing or logically present.
   */
  lemma MissingSpec(g: Graph, installed: set<string>, expected: set<string>)
    ensures var missing := MissingKbs(expected, LogicalPresent(g, installed));
      && (forall x :: x in missing ==> x in expected && x !in installed)
      && (forall x :: x in missing ==> forall r :: r in installed ==> !Reaches(g, r, x))
      && (forall x :: x in expected ==> x in missing || x in LogicalPresent(g, installed))
  {
    SupersedenceSpec(g, installed);
  }

  /** The `status` column: installed first, then superseded (with the superseding KBs), then missing. */
  datatype Status = Installed | Superseded(roots: seq<string>) | Missing

  function StatusOf(kb: string, installed: set<string>, present: set<string>,
                    supersededBy: map<string, seq<string>>): (s: Status)
    ensures s == Installed <==> kb in installed
    ensures s.Superseded? <==> kb !in installed && kb in present
    ensures s == Missing <==> kb !in installed && kb !in present
    ensures s.Superseded? ==> s.roots == (if kb in supersededBy then supersededBy[kb] else [])
  {
    if kb in installed then Installed
    else if kb in present then Superseded(if kb in supersededBy then supersededBy[kb] else [])
    else Missing
  }

  /** The total length of `parts`. */
  function TotalLength(parts: seq<string>): nat {
    if parts == [] then 0 else TotalLength(parts[..|parts| - 1]) + |parts[|parts| - 1]|
  }

  /**
   * `", ".join(by)`: the parts in order with one separator between each two,
   * so it starts with the first part, ends with the last, and is as long as
   * the parts together plus one separator fewer than there are parts.
   */
  function Join(parts: seq<string>, sep: string): (r: string)
    ensures parts == [] ==> r == ""
    ensures parts != [] ==> |r| == TotalLength(parts) + (|parts| - 1) * |sep|
    ensures parts != [] ==> parts[0] <= r && r[|r| - |parts[|parts| - 1]|..] == parts[|parts| - 1]
  {
    if parts == [] then ""
    else if |parts| == 1 then parts[0]
    else Join(parts[..|parts| - 1], sep) + sep + parts[|parts| - 1]
  }

  /** The text of the status cell; "Superseded" alone when the list of superseding KBs is empty. */
  function StatusText(s: Status): (r: string)
    ensures s.Superseded? <==> |r| >= 10 && r[..10] == "Superseded"
    ensures s.Superseded? && s.roots != [] ==> r == "Superseded (" + Join(s.roots, ", ") + ")"
  {
    match s
    case Installed => "Installed"
    case Superseded(roots) => if roots != [] then "Superseded (" + Join(roots, ", ") + ")" else "Superseded"
    case Missing => "Missing"
  }

  /**
   * The status of a KB against the closure: installed, or superseded by
   * exactly the installed KBs that reach it (a non-empty sorted list), or
   * missing when no installed KB reaches it.
   */
  lemma StatusSpec(g: Graph, installed: set<string>, kb: string)
    ensures var s := StatusOf(kb, installed, LogicalPresent(g, installed), SupersededBy(g, installed));
      && (s == Installed <==> kb in installed)
      && (s == Missing <==> kb !in installed && forall r :: r in installed ==> !Reaches(g, r, kb))
      && (s.Superseded? ==> s.roots != [] && StrictlySorted(s.roots)
                            && forall r :: r in s.roots <==> r in installed && Reaches(g, r, kb))
  {
    SupersedenceSpec(g, installed);
  }

  /** `kb_index`: each KB with a record, to its last record in `entries`. */
  function IndexOf(entries: seq<KbRecord>): map<string, KbRecord>
  {
    if entries == [] then map[]
    else
      var e := entries[|entries| - 1];
      var index := IndexOf(entries[..|entries| - 1]);
      if e.kb != "" then index[e.kb := e] else index
  }

  /** Index `i` holds the last record of `entries` for `kb`. */
  predicate LastFor(entries: seq<KbRecord>, kb: string, i: int) {
    0 <= i < |entries| && entries[i].kb == kb && forall j :: i < j < |entries| ==> entries[j].kb != kb
  }

  /** Some record of `entries` is for `kb`. */
  predicate Names(entries: seq<KbRecord>, kb: string) {
    exists i :: 0 <= i < |entries| && entries[i].kb == kb
  }

  /** A KB is in the index exactly when it is non-empty and some record names it. */
  lemma {:induction false} IndexOfKeys(entries: seq<KbRecord>, kb: string)
    ensures kb in IndexOf(entries) <==> kb != "" && Names(entries, kb)
    decreases |entries|
  {
    if entries != [] {
      var init := entries[..|entries| - 1];
      IndexOfKeys(init, kb);
      if Names(entries, kb) {
        var i :| 0 <= i < |entries| && entries[i].kb == kb;
        if i < |init| {
          assert init[i] == entries[i];
        }
      }
      if Names(init, kb) {
        var i :| 0 <= i < |init| && init[i].kb == kb;
        assert entries[i] == init[i];
      }
    }
  }

  /** A KB of the index maps to the last record for it. */
  lemma {:induction false} IndexOfLast(entries: seq<KbRecord>, kb: string)
    requires kb in IndexOf(entries)
    ensures exists i :: LastFor(entries, kb, i) && IndexOf(entries)[kb] == entries[i]
    decreases |entries|
  {
    var init := entries[..|entries| - 1];
    var e := entries[|entries| - 1];
    IndexOfKeys(entries, kb);
    if e.kb == kb {
      assert IndexOf(entries)[kb] == e;
      assert LastFor(entries, kb, |entries| - 1);
    } else {
      IndexOfLast(init, kb);
      var i :| LastFor(init, kb, i) && IndexOf(init)[kb] == init[i];
      assert entries[i] == init[i];
      assert LastFor(entries, kb, i);
    }
  }

  /** The `kb_index` loop at the head of `print_kb_table`. */
  method BuildKbIndex(entries: seq<KbRecord>) returns (index: map<string, KbRecord>)
    ensures index == IndexOf(entries)
  {
    index := map[];
    for i := 0 to |entries|
      invariant index == IndexOf(entries[..i])
    {
      assert entries[..i + 1][..i] == entries[..i];
      var e := entries[i];
      if e.kb != "" {
        index := index[e.kb := e];
      }
    }
    assert entries[..|entries|] == entries;
  }

  /** One KB's row of the correlation table: its type cell, status, months and CVEs. */
  datatype Row = Row(kb: string, updateType: string, status: Status, months: seq<string>, cves: seq<string>)

  /** The row of `kb`: its record's fields, or the empty `Unmapped` stand-in when it has none. */
  function RowOf(index: map<string, KbRecord>, kb: string, installed: set<string>, present: set<string>,
                 supersededBy: map<string, seq<string>>): (r: Row)
    ensures r.kb == kb && r.status == StatusOf(kb, installed, present, supersededBy)
    ensures kb in index ==> r.updateType == index[kb].updateType.Label()
                            && r.months == index[kb].months && r.cves == index[kb].cves
  {
    var entry := if kb in index then index[kb] else KbRecord(kb, [], [], [], Unmapped);
    Row(kb, entry.updateType.Label(), StatusOf(kb, installed, present, supersededBy), entry.months, entry.cves)
  }

  /** The stand-in row of a KB without a record. */
  lemma RowOfUnmapped(index: map<string, KbRecord>, kb: string, installed: set<string>, present: set<string>,
                      supersededBy: map<string, seq<string>>)
    requires kb !in index
    ensures var row := RowOf(index, kb, installed, present, supersededBy);
      row.kb == kb && row.updateType == "Unmapped" && row.months == [] && row.cves == []
  {
  }

  /** `all_kbs`: every KB with a record, installed or logically present, sorted. */
  function AllKbs(index: map<string, KbRecord>, installed: set<string>, present: set<string>): (r: seq<string>)
    ensures StrictlySorted(r)
    ensures forall k :: k in r <==> k in index || k in installed || k in present
  {
    SortedSet(index.Keys + installed + present)
  }

  /** The rows `print_kb_table` prints, in order: one per KB, in increasing KB order. */
  function Table(entries: seq<KbRecord>, installed: set<string>, present: set<string>,
                 supersededBy: map<string, seq<string>>): (rows: seq<Row>)
    ensures forall i, j :: 0 <= i < j < |rows| ==> StrLt(rows[i].kb, rows[j].kb)
    ensures forall i :: 0 <= i < |rows| ==> rows[i].status == StatusOf(rows[i].kb, installed, present, supersededBy)
  {
    var index := IndexOf(entries);
    var kbs := AllKbs(index, installed, present);
    seq(|kbs|, i requires 0 <= i < |kbs| => RowOf(index, kbs[i], installed, present, supersededBy))
  }

  /** Every record after finalisation has the type Standalone or Superseding. */
  predicate Typed(entries: seq<KbRecord>) {
    forall i :: 0 <= i < |entries| ==> entries[i].updateType in {Standalone, Superseding}
  }

  /** The rows come in increasing KB order, each with the status `StatusOf` gives its KB. */
  lemma TableOrder(entries: seq<KbRecord>, installed: set<string>, present: set<string>,
                   supersededBy: map<string, seq<string>>)
    ensures var rows := Table(entries, installed, present, supersededBy);
      && (forall i, j :: 0 <= i < j < |rows| ==> StrLt(rows[i].kb, rows[j].kb))
      && (forall i :: 0 <= i < |rows| ==> rows[i].status == StatusOf(rows[i].kb, installed, present, supersededBy))
  {
  }

  /** The table has one row per KB that has a record, is installed or is logically present. */
  lemma TableKbs(entries: seq<KbRecord>, installed: set<string>, present: set<string>,
                 supersededBy: map<string, seq<string>>, k: string)
    ensures var rows := Table(entries, installed, present, supersededBy);
      (exists i :: 0 <= i < |rows| && rows[i].kb == k) <==>
      (k != "" && Names(entries, k)) || k in installed || k in present
  {
    var index := IndexOf(entries);
    var kbs := AllKbs(index, installed, present);
    var rows := Table(entries, installed, present, supersededBy);
    IndexOfKeys(entries, k);
    if k in kbs {
      var i :| 0 <= i < |kbs| && kbs[i] == k;
      assert rows[i].kb == k;
    }
  }

  /**
   * A row without a record is typed "Unmapped" with no months and no CVEs;
   * with finalised records this is the only way a row is "Unmapped".
   */
  lemma TableUnmapped(entries: seq<KbRecord>, installed: set<string>, present: set<string>,
                      supersededBy: map<string, seq<string>>, i: int)
    requires 0 <= i < |Table(entries, installed, present, supersededBy)|
    ensures var row := Table(entries, installed, present, supersededBy)[i];
      && (row.kb !in IndexOf(entries) ==> row.updateType == "Unmapped" && row.months == [] && row.cves == [])
      && (Typed(entries) ==> (row.updateType == "Unmapped" <==> row.kb !in IndexOf(entries)))
  {
    var index := IndexOf(entries);
    var kbs := AllKbs(index, installed, present);
    var row := Table(entries, installed, present, supersededBy)[i];
    assert row == RowOf(index, kbs[i], installed, present, supersededBy);
    if kbs[i] !in index {
      RowOfUnmapped(index, kbs[i], installed, present, supersededBy);
    }
    if Typed(entries) && row.kb in IndexOf(entries) {
      IndexOfLast(entries, row.kb);
      var j :| LastFor(entries, row.kb, j) && IndexOf(entries)[row.kb] == entries[j];
    }
  }
}
