/**
 * The scanner's per-KB accumulator: `merge_kb_entries` folds the adapter's KB
 * entries of one batch of months into the index, and the finalisation step of
 * `main` turns every accumulated record into its sorted, typed form.
 */
module KbMerge {
  import opened Ordering

  /** The three list fields a KB entry carries. */
  datatype Field = Months | Cves | Supersedes

  /** One entry of the adapter's `KbEntries`; an absent or empty KB is "", an absent list is []. */
  datatype AdapterEntry = AdapterEntry(kb: string, months: seq<string>, cves: seq<string>, supersedes: seq<string>)
  {
    function Get(f: Field): seq<string> {
      match f
      case Months => months
      case Cves => cves
      case Supersedes => supersedes
    }
  }

  /** The `UpdateType` key of a record; `Untyped` while the key is not yet set. */
  datatype UpdateType = Untyped | Standalone | Superseding | Unmapped
  {
    function Label(): string {
      match this
      case Untyped => ""
      case Standalone => "Standalone"
      case Superseding => "Superseding"
      case Unmapped => "Unmapped"
    }
  }

  /** A canonical KB record of the index. */
  datatype KbRecord = KbRecord(kb: string, months: seq<string>, cves: seq<string>, supersedes: seq<string>, updateType: UpdateType)
  {
    function Get(f: Field): seq<string> {
      match f
      case Months => months
      case Cves => cves
      case Supersedes => supersedes
    }

    function With(f: Field, values: seq<string>): (r: KbRecord)
      ensures r.Get(f) == values && r.kb == kb && r.updateType == updateType
      ensures forall g :: g != f ==> r.Get(g) == Get(g)
    {
      match f
      case Months => this.(months := values)
      case Cves => this.(cves := values)
      case Supersedes => this.(supersedes := values)
    }
  }

  /** The record `setdefault` creates on first sight of a KB. */
  function NewRecord(kb: string): KbRecord {
    KbRecord(kb, [], [], [], Untyped)
  }

  predicate Distinct(s: seq<string>) {
    forall i, j :: 0 <= i < j < |s| ==> s[i] != s[j]
  }

  /**
   * The inner loop of `merge_kb_entries`: each value of `values`, in order, is
   * appended when it is truthy and not yet in the list.
   */
  function AppendNew(acc: seq<string>, values: seq<string>): (r: seq<string>)
    ensures acc <= r
    ensures forall x :: x in r <==> x in acc || (x in values && x != "")
    ensures Distinct(acc) ==> Distinct(r)
    ensures "" !in acc ==> "" !in r
    decreases |values|
  {
    if values == [] then acc
    else
      var v := values[0];
      var next := if v != "" && v !in acc then acc + [v] else acc;
      assert forall x :: x in values <==> x == v || x in values[1..];
      AppendNew(next, values[1..])
  }

  /**
   * The record `setdefault` returns: the existing one, else a fresh one.  In
   * a well-formed index it is the record of `kb` itself, and its fields are
   * duplicate-free and hold no empty value.
   */
  function Target(records: map<string, KbRecord>, kb: string): (r: KbRecord)
    ensures kb in records ==> r == records[kb]
    ensures kb !in records ==> r.updateType == Untyped && forall f :: r.Get(f) == []
    ensures WellFormed(records) ==> r.kb == kb && forall f :: Distinct(r.Get(f)) && "" !in r.Get(f)
  {
    if kb in records then records[kb] else NewRecord(kb)
  }

  /** The record after the field loop for entry `e`: every field grown by `AppendNew`. */
  function Grow(target: KbRecord, e: AdapterEntry): (r: KbRecord)
    ensures r.kb == target.kb && r.updateType == target.updateType
    ensures forall f :: r.Get(f) == AppendNew(target.Get(f), e.Get(f))
  {
    var months := AppendNew(target.months, e.months);
    var cves := AppendNew(target.cves, e.cves);
    var supersedes := AppendNew(target.supersedes, e.supersedes);
    KbRecord(target.kb, months, cves, supersedes, target.updateType)
  }

  /** The invariant of the index: keyed by its own non-empty KB, with duplicate-free, truthy field values. */
  ghost predicate WellFormed(records: map<string, KbRecord>) {
    forall k :: k in records ==>
      && records[k].kb == k && k != ""
      && (forall f :: Distinct(records[k].Get(f)) && "" !in records[k].Get(f))
  }

  /**
   * Growing a record by entry `e` keeps its KB and type; each field keeps its
   * old values in front and gains exactly the entry's truthy values, and a
   * field that was duplicate-free and without empty values stays so.
   */
  lemma GrowSpec(target: KbRecord, e: AdapterEntry, f: Field)
    ensures Grow(target, e).kb == target.kb && Grow(target, e).updateType == target.updateType
    ensures target.Get(f) <= Grow(target, e).Get(f)
    ensures forall x :: x in Grow(target, e).Get(f) <==> x in target.Get(f) || (x in e.Get(f) && x != "")
    ensures Distinct(target.Get(f)) && "" !in target.Get(f) ==>
              Distinct(Grow(target, e).Get(f)) && "" !in Grow(target, e).Get(f)
  {
    assert Grow(target, e).Get(f) == AppendNew(target.Get(f), e.Get(f));
  }

  /** One iteration of the outer loop of `merge_kb_entries`. */
  function MergeEntry(records: map<string, KbRecord>, e: AdapterEntry): map<string, KbRecord> {
    if e.kb == "" then records else records[e.kb := Grow(Target(records, e.kb), e)]
  }

  /**
   * `merge_kb_entries(records, incoming)` as a value: the entries folded in
   * from first to last.  No record is dropped, and an entry without a KB
   * adds none.
   */
  function MergeAll(records: map<string, KbRecord>, incoming: seq<AdapterEntry>): (r: map<string, KbRecord>)
    ensures records.Keys <= r.Keys
    ensures "" in r ==> "" in records
    decreases |incoming|
  {
    if incoming == [] then records else MergeAll(MergeEntry(records, incoming[0]), incoming[1..])
  }

  lemma {:induction false} MergeAllSnoc(records: map<string, KbRecord>, incoming: seq<AdapterEntry>, e: AdapterEntry)
    ensures MergeAll(records, incoming + [e]) == MergeEntry(MergeAll(records, incoming), e)
    decreases |incoming|
  {
    if incoming == [] {
      assert [] + [e] == [e];
    } else {
      assert (incoming + [e])[1..] == incoming[1..] + [e];
      MergeAllSnoc(MergeEntry(records, incoming[0]), incoming[1..], e);
    }
  }

  /** Some incoming entry names `k` and carries `x` in field `f`. */
  ghost predicate Brings(incoming: seq<AdapterEntry>, k: string, f: Field, x: string) {
    exists i :: 0 <= i < |incoming| && incoming[i].kb == k && x in incoming[i].Get(f)
  }

  /** Some incoming entry names `k`. */
  ghost predicate Names(incoming: seq<AdapterEntry>, k: string) {
    exists i :: 0 <= i < |incoming| && incoming[i].kb == k
  }

  lemma NamesCons(incoming: seq<AdapterEntry>)
    requires incoming != []
    ensures forall k :: Names(incoming, k) <==> incoming[0].kb == k || Names(incoming[1..], k)
  {
    forall k
      ensures Names(incoming, k) <==> incoming[0].kb == k || Names(incoming[1..], k)
    {
      if Names(incoming, k) {
        var i :| 0 <= i < |incoming| && incoming[i].kb == k;
        if i > 0 {
          assert incoming[1..][i - 1].kb == k;
        }
      }
      if Names(incoming[1..], k) {
        var i :| 0 <= i < |incoming[1..]| && incoming[1..][i].kb == k;
        assert incoming[i + 1].kb == k;
      }
    }
  }

  lemma BringsCons(incoming: seq<AdapterEntry>)
    requires incoming != []
    ensures forall k, f, x :: Brings(incoming, k, f, x) <==>
              (incoming[0].kb == k && x in incoming[0].Get(f)) || Brings(incoming[1..], k, f, x)
  {
    forall k, f, x
      ensures Brings(incoming, k, f, x) <==>
              (incoming[0].kb == k && x in incoming[0].Get(f)) || Brings(incoming[1..], k, f, x)
    {
      if Brings(incoming, k, f, x) {
        var i :| 0 <= i < |incoming| && incoming[i].kb == k && x in incoming[i].Get(f);
        if i > 0 {
          assert incoming[1..][i - 1] == incoming[i];
        }
      }
      if Brings(incoming[1..], k, f, x) {
        var i :| 0 <= i < |incoming[1..]| && incoming[1..][i].kb == k && x in incoming[1..][i].Get(f);
        assert incoming[i + 1] == incoming[1..][i];
      }
    }
  }

  /** Keys after the merge: the old keys and every truthy incoming KB, nothing else. */
  lemma {:induction false} MergeAllKeys(records: map<string, KbRecord>, incoming: seq<AdapterEntry>)
    ensures forall k :: k in MergeAll(records, incoming) <==> k in records || (k != "" && Names(incoming, k))
    decreases |incoming|
  {
    if incoming != [] {
      MergeAllKeys(MergeEntry(records, incoming[0]), incoming[1..]);
      NamesCons(incoming);
    }
  }

  /** A KB no incoming entry names keeps its record exactly. */
  lemma {:induction false} MergeAllUntouched(records: map<string, KbRecord>, incoming: seq<AdapterEntry>)
    ensures forall k :: k in records && !Names(incoming, k) ==>
              k in MergeAll(records, incoming) && MergeAll(records, incoming)[k] == records[k]
    decreases |incoming|
  {
    if incoming != [] {
      MergeAllUntouched(MergeEntry(records, incoming[0]), incoming[1..]);
      NamesCons(incoming);
    }
  }

  /** A record that existed keeps its KB, its type and all its values, in order, at the front. */
  lemma {:induction false} MergeAllKeeps(records: map<string, KbRecord>, incoming: seq<AdapterEntry>)
    ensures forall k :: k in records ==> k in MergeAll(records, incoming)
    ensures forall k, f :: k in records ==>
              && records[k].Get(f) <= MergeAll(records, incoming)[k].Get(f)
              && MergeAll(records, incoming)[k].updateType == records[k].updateType
              && MergeAll(records, incoming)[k].kb == records[k].kb
    decreases |incoming|
  {
    if incoming != [] {
      var step := MergeEntry(records, incoming[0]);
      MergeAllKeeps(step, incoming[1..]);
      forall k, f | k in records
        ensures records[k].Get(f) <= step[k].Get(f)
      {
      }
    }
  }

  /** Each record holds exactly its old values and the truthy values incoming entries for its KB bring. */
  lemma {:induction false} MergeAllValues(records: map<string, KbRecord>, incoming: seq<AdapterEntry>)
    ensures forall k, f, x :: k in MergeAll(records, incoming) ==>
              (x in MergeAll(records, incoming)[k].Get(f) <==>
                 (k in records && x in records[k].Get(f)) || (x != "" && k != "" && Brings(incoming, k, f, x)))
    decreases |incoming|
  {
    if incoming != [] {
      var e := incoming[0];
      var step := MergeEntry(records, e);
      MergeAllValues(step, incoming[1..]);
      BringsCons(incoming);
      forall k, f, x | k in step
        ensures x in step[k].Get(f) <==>
                  (k in records && x in records[k].Get(f)) || (x != "" && k != "" && e.kb == k && x in e.Get(f))
      {
        if e.kb != "" && k == e.kb {
          assert step[k] == Grow(Target(records, k), e);
        }
      }
    }
  }

  /** The merge keeps the index well formed. */
  lemma {:induction false} MergeAllWellFormed(records: map<string, KbRecord>, incoming: seq<AdapterEntry>)
    requires WellFormed(records)
    ensures WellFormed(MergeAll(records, incoming))
    decreases |incoming|
  {
    if incoming != [] {
      var e := incoming[0];
      var step := MergeEntry(records, e);
      assert WellFormed(step) by {
        forall k | k in step
          ensures step[k].kb == k && k != ""
          ensures forall f :: Distinct(step[k].Get(f)) && "" !in step[k].Get(f)
        {
          if k == e.kb {
            forall f ensures Distinct(step[k].Get(f)) && "" !in step[k].Get(f) {
              assert Distinct(Target(records, e.kb).Get(f));
            }
          }
        }
      }
      MergeAllWellFormed(step, incoming[1..]);
    }
  }

  /**
   * The merge is order-independent at the level of values: merging two
   * batches in either order gives the same keys and the same values per field.
   */
  lemma MergeOrderIrrelevant(records: map<string, KbRecord>, a: seq<AdapterEntry>, b: seq<AdapterEntry>)
    ensures MergeAll(records, a + b).Keys == MergeAll(records, b + a).Keys
    ensures forall k, f, x :: k in MergeAll(records, a + b) ==>
              (x in MergeAll(records, a + b)[k].Get(f) <==> x in MergeAll(records, b + a)[k].Get(f))
  {
    MergeAllKeys(records, a + b);
    MergeAllKeys(records, b + a);
    MergeAllValues(records, a + b);
    MergeAllValues(records, b + a);
    forall k ensures Names(a + b, k) <==> Names(b + a, k) {
      if Names(a + b, k) {
        var i :| 0 <= i < |a + b| && (a + b)[i].kb == k;
        if i < |a| { assert (b + a)[|b| + i] == a[i]; } else { assert (b + a)[i - |a|] == b[i - |a|]; }
      }
      if Names(b + a, k) {
        var i :| 0 <= i < |b + a| && (b + a)[i].kb == k;
        if i < |b| { assert (a + b)[|a| + i] == b[i]; } else { assert (a + b)[i - |b|] == a[i - |b|]; }
      }
    }
    forall k, f, x ensures Brings(a + b, k, f, x) <==> Brings(b + a, k, f, x) {
      if Brings(a + b, k, f, x) {
        var i :| 0 <= i < |a + b| && (a + b)[i].kb == k && x in (a + b)[i].Get(f);
        if i < |a| { assert (b + a)[|b| + i] == a[i]; } else { assert (b + a)[i - |a|] == b[i - |a|]; }
      }
      if Brings(b + a, k, f, x) {
        var i :| 0 <= i < |b + a| && (b + a)[i].kb == k && x in (b + a)[i].Get(f);
        if i < |b| { assert (a + b)[|a| + i] == b[i]; } else { assert (a + b)[i - |b|] == a[i - |b|]; }
      }
    }
  }

  /**
   * The finalisation of one record: each field sorted and deduplicated, then
   * the type set.  The result always carries one of the two final types.
   */
  function Finalized(r: KbRecord): (f: KbRecord)
    ensures f.kb == r.kb && f.updateType in {Standalone, Superseding}
  {
    var supersedes := SortedDistinct(r.supersedes);
    KbRecord(r.kb, SortedDistinct(r.months), SortedDistinct(r.cves), supersedes,
             if supersedes != [] then Superseding else Standalone)
  }

  /**
   * After finalisation every field is sorted and duplicate-free with the same
   * values as before, the KB is kept, and the type is `Superseding` exactly
   * when the record supersedes something, `Standalone` otherwise.
   */
  lemma FinalizedSpec(r: KbRecord)
    ensures Finalized(r).kb == r.kb
    ensures forall f :: StrictlySorted(Finalized(r).Get(f))
    ensures forall f, x :: x in Finalized(r).Get(f) <==> x in r.Get(f)
    ensures Finalized(r).updateType == Superseding <==> r.supersedes != []
    ensures Finalized(r).updateType == Standalone <==> r.supersedes == []
  {
    if r.supersedes != [] {
      assert r.supersedes[0] in Finalized(r).supersedes;
    }
  }

  /** Finalising a well-formed record keeps it well formed: its fields stay duplicate-free and without "". */
  lemma FinalizedWellFormed(r: KbRecord)
    requires forall f :: "" !in r.Get(f)
    ensures forall f :: Distinct(Finalized(r).Get(f)) && "" !in Finalized(r).Get(f)
  {
    forall f
      ensures Distinct(Finalized(r).Get(f)) && "" !in Finalized(r).Get(f)
    {
      var s := Finalized(r).Get(f);
      assert s == SortedDistinct(r.Get(f)) by {
        match f
        case Months =>
        case Cves =>
        case Supersedes =>
      }
      forall i, j | 0 <= i < j < |s|
        ensures s[i] != s[j]
      {
        StrictlySortedDistinct(s, i, j);
      }
    }
  }

  /** Replacing every record of a well-formed index by its finalised form keeps the index well formed. */
  lemma FinalizedAllWellFormed(original: map<string, KbRecord>, finalized: map<string, KbRecord>)
    requires WellFormed(original)
    requires finalized.Keys == original.Keys
    requires forall k :: k in finalized ==> finalized[k] == Finalized(original[k])
    ensures WellFormed(finalized)
  {
    forall k | k in finalized
      ensures finalized[k].kb == k && k != ""
      ensures forall f :: Distinct(finalized[k].Get(f)) && "" !in finalized[k].Get(f)
    {
      FinalizedWellFormed(original[k]);
    }
  }

  /** Finalising twice is finalising once. */
  lemma FinalizedIdempotent(r: KbRecord)
    ensures Finalized(Finalized(r)) == Finalized(r)
  {
    var f := Finalized(r);
    SortedUnique(SortedDistinct(f.months), f.months);
    SortedUnique(SortedDistinct(f.cves), f.cves);
    SortedUnique(SortedDistinct(f.supersedes), f.supersedes);
  }

  lemma ExampleFirstEntry()
    ensures MergeEntry(map[], AdapterEntry("X", ["2024-Jan"], ["V1"], []))
            == map["X" := KbRecord("X", ["2024-Jan"], ["V1"], [], Untyped)]
  {
    assert AppendNew([], ["2024-Jan"]) == ["2024-Jan"];
    assert AppendNew([], ["V1"]) == ["V1"];
    assert AppendNew([], []) == [];
  }

  /** The months of the second entry: "2024-Jan" is already there, "2024-Feb" is appended. */
  lemma ExampleSecondMonths()
    ensures AppendNew(["2024-Jan"], ["2024-Jan", "2024-Feb"]) == ["2024-Jan", "2024-Feb"]
  {
    var jan, feb := "2024-Jan", "2024-Feb";
    assert jan != feb by { assert jan[5] != feb[5]; }
    assert [jan, feb][1..] == [feb];
    assert AppendNew([jan], [jan, feb]) == AppendNew([jan], [feb]);
    assert AppendNew([jan], [feb]) == AppendNew([jan, feb], []);
  }

  lemma ExampleSecondEntry()
    ensures MergeEntry(map["X" := KbRecord("X", ["2024-Jan"], ["V1"], [], Untyped)],
                       AdapterEntry("X", ["2024-Jan", "2024-Feb"], [], ["Y"]))
            == map["X" := KbRecord("X", ["2024-Jan", "2024-Feb"], ["V1"], ["Y"], Untyped)]
  {
    ExampleSecondGrow();
  }

  lemma ExampleSecondGrow()
    ensures Grow(KbRecord("X", ["2024-Jan"], ["V1"], [], Untyped), AdapterEntry("X", ["2024-Jan", "2024-Feb"], [], ["Y"]))
            == KbRecord("X", ["2024-Jan", "2024-Feb"], ["V1"], ["Y"], Untyped)
  {
    ExampleSecondMonths();
    ExampleSingleValues();
  }

  lemma ExampleSingleValues()
    ensures AppendNew([], ["Y"]) == ["Y"] && AppendNew(["V1"], []) == ["V1"]
  {
    assert AppendNew([], ["Y"]) == AppendNew(["Y"], []);
  }

  /**
   * Merging X with months [2024-Jan] and CVE V1, then X with months
   * [2024-Jan, 2024-Feb] superseding Y, gives one X record holding both
   * months, V1 and Y ...
   */
  lemma ExampleMerged()
    ensures MergeAll(map[], [AdapterEntry("X", ["2024-Jan"], ["V1"], []),
                             AdapterEntry("X", ["2024-Jan", "2024-Feb"], [], ["Y"])])
            == map["X" := KbRecord("X", ["2024-Jan", "2024-Feb"], ["V1"], ["Y"], Untyped)]
  {
    var e1 := AdapterEntry("X", ["2024-Jan"], ["V1"], []);
    var e2 := AdapterEntry("X", ["2024-Jan", "2024-Feb"], [], ["Y"]);
    MergeTwo(map[], e1, e2);
    ExampleFirstEntry();
    ExampleSecondEntry();
  }

  lemma MergeTwo(records: map<string, KbRecord>, e1: AdapterEntry, e2: AdapterEntry)
    ensures MergeAll(records, [e1, e2]) == MergeEntry(MergeEntry(records, e1), e2)
  {
    assert [e1, e2][1..] == [e2];
    assert [e2][1..] == [];
    assert MergeAll(records, [e1, e2]) == MergeAll(MergeEntry(records, e1), [e2]);
    assert MergeAll(MergeEntry(records, e1), [e2]) == MergeAll(MergeEntry(MergeEntry(records, e1), e2), []);
  }

  /** ... which finalises to sorted fields typed Superseding. */
  lemma ExampleFinalized()
    ensures Finalized(KbRecord("X", ["2024-Jan", "2024-Feb"], ["V1"], ["Y"], Untyped))
            == KbRecord("X", ["2024-Feb", "2024-Jan"], ["V1"], ["Y"], Superseding)
  {
    ExampleSorted();
  }

  lemma ExampleSorted()
    ensures SortedDistinct(["2024-Jan", "2024-Feb"]) == ["2024-Feb", "2024-Jan"]
    ensures SortedDistinct(["V1"]) == ["V1"]
    ensures SortedDistinct(["Y"]) == ["Y"]
  {
    assert StrLt("2024-Feb", "2024-Jan") by {
      assert "2024-Feb"[1..][1..][1..][1..][1..] == "-Feb"[1..];
    }
    SortedUnique(SortedDistinct(["2024-Jan", "2024-Feb"]), ["2024-Feb", "2024-Jan"]);
    SortedUnique(SortedDistinct(["V1"]), ["V1"]);
    SortedUnique(SortedDistinct(["Y"]), ["Y"]);
  }

  /** The index `main` builds in `merged` and hands to `merge_kb_entries`, then finalises. */
  class KbIndex {
    var records: map<string, KbRecord>

    ghost predicate Valid()
      reads this
    {
      WellFormed(records)
    }

    /** `merged: Dict[str, dict] = {}`. */
    constructor ()
      ensures Valid() && records == map[]
    {
      records := map[];
    }

    /** The innermost loop: appends each truthy value not yet in `target`. */
    static method AppendValues(target: seq<string>, values: seq<string>) returns (r: seq<string>)
      ensures r == AppendNew(target, values)
    {
      r := target;
      var j := 0;
      while j < |values|
        invariant 0 <= j <= |values|
        invariant AppendNew(r, values[j..]) == AppendNew(target, values)
      {
        assert values[j..][1..] == values[j + 1..];
        var value := values[j];
        if value != "" && value !in r {
          r := r + [value];
        }
        j := j + 1;
      }
    }

    /** `merge_kb_entries(self.records, incoming)`. */
    method MergeKbEntries(incoming: seq<AdapterEntry>)
      requires Valid()
      modifies this
      ensures Valid()
      ensures records == MergeAll(old(records), incoming)
    {
      var i := 0;
      while i < |incoming|
        invariant 0 <= i <= |incoming|
        invariant records == MergeAll(old(records), incoming[..i])
      {
        var entry := incoming[i];
        MergeAllSnoc(old(records), incoming[..i], entry);
        assert incoming[..i + 1] == incoming[..i] + [entry];
        if entry.kb != "" {
          var target := Target(records, entry.kb);
          var months := AppendValues(target.months, entry.months);
          var cves := AppendValues(target.cves, entry.cves);
          var supersedes := AppendValues(target.supersedes, entry.supersedes);
          records := records[entry.kb := target.(months := months, cves := cves, supersedes := supersedes)];
        }
        i := i + 1;
      }
      assert incoming[..i] == incoming;
      MergeAllWellFormed(old(records), incoming);
    }

    /** The finalisation loop of `main` (every record sorted, deduplicated and typed in place). */
    method Finalize()
      requires Valid()
      modifies this
      ensures Valid()
      ensures records.Keys == old(records).Keys
      ensures forall k :: k in records ==> records[k] == Finalized(old(records)[k])
    {
      var pending := records.Keys;
      ghost var original := records;
      while pending != {}
        invariant pending <= original.Keys
        invariant records.Keys == original.Keys
        invariant forall k :: k in original && k !in pending ==> records[k] == Finalized(original[k])
        invariant forall k :: k in pending ==> records[k] == original[k]
        decreases pending
      {
        var k :| k in pending;
        records := records[k := Finalized(records[k])];
        pending := pending - {k};
      }
      FinalizedAllWellFormed(original, records);
    }

    /**
     * `list(merged.values())`: one entry per record, each record once.  The
     * records are listed in key order; in a well-formed index that is the
     * order of their KBs.
     */
    function Values(): (entries: seq<KbRecord>)
      reads this
      ensures |entries| == |records|
      ensures forall r :: r in entries <==> r in records.Values
    {
      var m := records;
      var keys := SortedSet(m.Keys);
      var entries := seq(|keys|, i requires 0 <= i < |keys| => m[keys[i]]);
      KeyedEntries(m, entries, keys);
      entries
    }
  }

  /**
   * The entries of a well-formed index come in strictly increasing KB order,
   * so `sorted(kb_entries, key=lambda x: x["KB"])` leaves them as they are.
   */
  lemma ValuesOrder(index: KbIndex)
    requires index.Valid()
    ensures var entries := index.Values();
      forall i, j :: 0 <= i < j < |entries| ==> StrLt(entries[i].kb, entries[j].kb)
  {
    var keys := SortedSet(index.records.Keys);
    var entries := index.Values();
    assert forall i :: 0 <= i < |keys| ==> entries[i].kb == keys[i];
  }

  /** Entries listed by a key order that holds every key once hold exactly the records' values. */
  lemma KeyedEntries(records: map<string, KbRecord>, entries: seq<KbRecord>, keys: seq<string>)
    requires |entries| == |keys|
    requires forall k :: k in records <==> k in keys
    requires forall i :: 0 <= i < |keys| ==> entries[i] == records[keys[i]]
    ensures forall r :: r in entries <==> r in records.Values
  {
    forall r | r in records.Values
      ensures r in entries
    {
      var k :| k in records && records[k] == r;
      var i :| 0 <= i < |keys| && keys[i] == k;
      assert entries[i] == r;
    }
  }
}
