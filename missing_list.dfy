/**
 * The downloader's `build_missing_list`: the scan result's missing KBs,
 * normalised, each with the update type label of its record.
 */
module MissingList {
  import opened Text

  /** One record of the scan result's `KbEntries`, reduced to the two keys read here ("" for absent). */
  datatype ScanEntry = ScanEntry(kb: string, updateType: string)

  datatype MissingKbItem = MissingKbItem(kbId: string, updateType: string)

  /**
   * `str(kb).strip().upper()`: no longer than `kb`, with no white space at
   * either end and no lower-case ASCII letter.
   */
  function NormalizeKb(kb: string): (r: string)
    ensures |r| <= |kb|
    ensures r == [] || (!IsSpace(r[0]) && !IsSpace(r[|r| - 1]))
    ensures forall i :: 0 <= i < |r| ==> !IsAsciiLower(r[i])
  {
    var s := Strip(kb);
    UpperKeepsEnds(s);
    Upper(s)
  }

  /** Upper-casing keeps a string free of white space at both ends. */
  lemma UpperKeepsEnds(s: string)
    requires s == [] || (!IsSpace(s[0]) && !IsSpace(s[|s| - 1]))
    ensures Upper(s) == [] || (!IsSpace(Upper(s)[0]) && !IsSpace(Upper(s)[|s| - 1]))
  {
    if s != [] {
      UpperKeepsSpace(s[0]);
      UpperKeepsSpace(s[|s| - 1]);
    }
  }

  /** Upper-casing a character does not change whether it is white space. */
  lemma UpperKeepsSpace(c: char)
    ensures IsSpace(UpperChar(c)) <==> IsSpace(c)
  {
  }

  /** `kb_index`: each upper-cased non-empty KB to the update type of its last record. */
  function TypeIndex(entries: seq<ScanEntry>): map<string, string>
  {
    if entries == [] then map[]
    else
      var e := entries[|entries| - 1];
      var index := TypeIndex(entries[..|entries| - 1]);
      if e.kb != "" then index[Upper(e.kb) := e.updateType] else index
  }

  /** Index `i` holds the last record with a non-empty KB that upper-cases to `k`. */
  predicate LastFor(entries: seq<ScanEntry>, k: string, i: int) {
    0 <= i < |entries| && entries[i].kb != "" && Upper(entries[i].kb) == k
    && forall j :: i < j < |entries| && entries[j].kb != "" ==> Upper(entries[j].kb) != k
  }

  /** A key of the index is the upper-cased KB of some record with a KB. */
  lemma {:induction false} TypeIndexKeys(entries: seq<ScanEntry>, k: string)
    ensures k in TypeIndex(entries) <==> exists i :: 0 <= i < |entries| && entries[i].kb != "" && Upper(entries[i].kb) == k
    decreases |entries|
  {
    if entries != [] {
      var init := entries[..|entries| - 1];
      TypeIndexKeys(init, k);
      if exists i :: 0 <= i < |entries| && entries[i].kb != "" && Upper(entries[i].kb) == k {
        var i :| 0 <= i < |entries| && entries[i].kb != "" && Upper(entries[i].kb) == k;
        if i < |init| {
          assert init[i] == entries[i];
        }
      }
      if exists i :: 0 <= i < |init| && init[i].kb != "" && Upper(init[i].kb) == k {
        var i :| 0 <= i < |init| && init[i].kb != "" && Upper(init[i].kb) == k;
        assert entries[i] == init[i];
      }
    }
  }

  /** A key of the index maps to the update type of the last record for it. */
  lemma {:induction false} TypeIndexLast(entries: seq<ScanEntry>, k: string)
    requires k in TypeIndex(entries)
    ensures exists i :: LastFor(entries, k, i) && TypeIndex(entries)[k] == entries[i].updateType
    decreases |entries|
  {
    var init := entries[..|entries| - 1];
    var e := entries[|entries| - 1];
    if e.kb != "" && Upper(e.kb) == k {
      assert LastFor(entries, k, |entries| - 1);
    } else {
      TypeIndexLast(init, k);
      var i :| LastFor(init, k, i) && TypeIndex(init)[k] == init[i].updateType;
      assert entries[i] == init[i];
      assert LastFor(entries, k, i);
    }
  }

  /** `str(kb_index.get(kb_id, {}).get("UpdateType") or "Unknown")`. */
  function TypeLabel(index: map<string, string>, kbId: string): (r: string)
    ensures r != ""
    ensures kbId in index && index[kbId] != "" ==> r == index[kbId]
    ensures r == "Unknown" <==> kbId !in index || index[kbId] in {"", "Unknown"}
  {
    if kbId in index && index[kbId] != "" then index[kbId] else "Unknown"
  }

  /** The normalised id of every entry of `missing`. */
  function Normalized(missing: seq<string>): (ids: seq<string>)
    ensures |ids| == |missing| && forall i :: 0 <= i < |missing| ==> ids[i] == NormalizeKb(missing[i])
  {
    seq(|missing|, i requires 0 <= i < |missing| => NormalizeKb(missing[i]))
  }

  /** The items the loop appends for the normalised ids `ids`, in order; blank ids are skipped. */
  function Items(ids: seq<string>, index: map<string, string>): (out: seq<MissingKbItem>)
    ensures |out| <= |ids|
    ensures forall j :: 0 <= j < |out| ==> out[j].kbId != "" && out[j].updateType != ""
  {
    if ids == [] then []
    else
      var out := Items(ids[..|ids| - 1], index);
      var kbId := ids[|ids| - 1];
      if kbId == "" then out else out + [MissingKbItem(kbId, TypeLabel(index, kbId))]
  }

  /** The positions of `ids` that are not blank, in increasing order. */
  function NonBlankPositions(ids: seq<string>): (pos: seq<int>)
    ensures forall j :: 0 <= j < |pos| ==> 0 <= pos[j] < |ids|
    ensures forall j, j' :: 0 <= j < j' < |pos| ==> pos[j] < pos[j']
    ensures forall i :: 0 <= i < |ids| ==> (ids[i] != "" <==> i in pos)
  {
    if ids == [] then []
    else
      var p := NonBlankPositions(ids[..|ids| - 1]);
      if ids[|ids| - 1] == "" then p else p + [|ids| - 1]
  }

  /** Item `j` is the `j`-th non-blank id with that id's label. */
  lemma {:induction false} ItemsAt(ids: seq<string>, index: map<string, string>)
    ensures var out := Items(ids, index); var pos := NonBlankPositions(ids);
      && |out| == |pos|
      && forall j :: 0 <= j < |out| ==> out[j] == MissingKbItem(ids[pos[j]], TypeLabel(index, ids[pos[j]]))
    decreases |ids|
  {
    if ids != [] {
      var init := ids[..|ids| - 1];
      ItemsAt(init, index);
      var p := NonBlankPositions(init);
      assert forall j :: 0 <= j < |p| ==> ids[p[j]] == init[p[j]];
    }
  }

  lemma ItemsStep(ids: seq<string>, i: int, index: map<string, string>)
    requires 0 <= i < |ids|
    ensures Items(ids[..i + 1], index)
         == Items(ids[..i], index) + (if ids[i] == "" then [] else [MissingKbItem(ids[i], TypeLabel(index, ids[i]))])
  {
    assert ids[..i + 1][..i] == ids[..i];
  }

  /**
   * The list `build_missing_list` returns for `missing` against `index`: at
   * most one item per missing KB, each with a non-blank id and a non-empty
   * label.
   */
  function MissingItems(missing: seq<string>, index: map<string, string>): (out: seq<MissingKbItem>)
    ensures |out| <= |missing|
    ensures forall j :: 0 <= j < |out| ==> out[j].kbId != "" && out[j].updateType != ""
  {
    Items(Normalized(missing), index)
  }

  /**
   * The items follow the input order and drop exactly the blank ids: `pos`
   * lists increasingly the positions of `missing` whose normalised id is not
   * blank, and item `j` is the normalised id at `pos[j]` with its label.
   */
  lemma MissingItemsSpec(missing: seq<string>, index: map<string, string>) returns (pos: seq<int>)
    ensures var out := MissingItems(missing, index);
      && |out| == |pos|
      && (forall j, j' :: 0 <= j < j' < |pos| ==> pos[j] < pos[j'])
      && (forall i :: 0 <= i < |missing| ==> (NormalizeKb(missing[i]) != "" <==> i in pos))
      && (forall j :: 0 <= j < |pos| ==>
            (0 <= pos[j] < |missing|
             && out[j] == MissingKbItem(NormalizeKb(missing[pos[j]]), TypeLabel(index, NormalizeKb(missing[pos[j]])))))
  {
    var ids := Normalized(missing);
    pos := NonBlankPositions(ids);
    ItemsAt(ids, index);
  }

  /** `build_missing_list` as the program runs it: the index, then the loop over `missing_kbs`. */
  method BuildMissingList(missing: seq<string>, entries: seq<ScanEntry>) returns (out: seq<MissingKbItem>)
    ensures out == MissingItems(missing, TypeIndex(entries))
  {
    var index := TypeIndex(entries);
    ghost var ids := Normalized(missing);
    out := [];
    for i := 0 to |missing|
      invariant out == Items(ids[..i], index)
    {
      ItemsStep(ids, i, index);
      var kbId := NormalizeKb(missing[i]);
      if kbId == "" {
        continue;
      }
      out := out + [MissingKbItem(kbId, TypeLabel(index, kbId))];
    }
    assert ids[..|missing|] == ids;
  }
}
