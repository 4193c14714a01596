/**
 * The scanner's `compute_supersedence` as the program runs it: the loop that
 * builds `supersedes_map`, one explicit-stack walk per installed KB, and the
 * final sorting of each attribution set.  The definitions it is proved
 * against are in `SupersedenceGraph`.
 */
module Supersedence {
  import opened KbMerge
  import opened Ordering
  import opened SupersedenceGraph

  /** The first loop of `compute_supersedence`. */
  method BuildSupersedesMap(entries: seq<KbRecord>) returns (g: Graph)
    ensures g == SupersedesMap(entries)
  {
    g := map[];
    for i := 0 to |entries|
      invariant g == SupersedesMap(entries[..i])
    {
      var e := entries[i];
      assert entries[..i + 1][..i] == entries[..i];
      for j := 0 to |e.supersedes|
        invariant g == AddEdges(SupersedesMap(entries[..i]), e.kb, e.supersedes[..j])
      {
        assert e.supersedes[..j + 1][..j] == e.supersedes[..j];
        g := g[e.kb := Succ(g, e.kb) + {e.supersedes[j]}];
      }
      assert e.supersedes[..|e.supersedes|] == e.supersedes;
    }
    assert entries[..|entries|] == entries;
  }

  /**
   * The `for old in supersedes_map.get(current, set())` loop: every KB
   * `current` supersedes, in some order `hs`, becomes present and attributed
   * to `root`, and is marked seen and pushed when new.
   */
  method PushTargets(g: Graph, root: string, current: string, stack0: seq<string>, seen0: set<string>,
                     present0: set<string>, sb0: map<string, set<string>>)
    returns (stack: seq<string>, seen: set<string>, present: set<string>, sb: map<string, set<string>>, ghost hs: seq<string>)
    ensures Frontier(stack, seen, present, sb) == VisitAll(Frontier(stack0, seen0, present0, sb0), root, hs)
    ensures Elems(hs) == Succ(g, current)
  {
    stack, seen, present, sb := stack0, seen0, present0, sb0;
    var olds := Succ(g, current);
    hs := [];
    while olds != {}
      invariant forall x :: x in Succ(g, current) <==> x in olds || x in hs
      invariant Frontier(stack, seen, present, sb) == VisitAll(Frontier(stack0, seen0, present0, sb0), root, hs)
      decreases |olds|
    {
      var o :| o in olds;
      assert (hs + [o])[..|hs|] == hs;
      olds := olds - {o};
      present := present + {o};
      sb := sb[o := Get(sb, o) + {root}];
      if o !in seen {
        seen := seen + {o};
        stack := stack + [o];
      }
      hs := hs + [o];
    }
  }

  /**
   * One round of the outer loop of `compute_supersedence`: the explicit-stack
   * walk from `root` with its own `seen` set.  Every KB reachable from `root`
   * becomes logically present and gains `root` in its attribution; nothing
   * else changes.
   */
  method WalkFrom(g: Graph, root: string, present0: set<string>, sb0: map<string, set<string>>)
    returns (present: set<string>, sb: map<string, set<string>>)
    ensures present == present0 + Reachable(g, root)
    ensures AttributedFrom(sb, sb0, Reachable(g, root), root)
  {
    present, sb := present0, sb0;
    var stack := [root];
    var seen := {root};
    ghost var start := Frontier(stack, seen, present, sb);
    ghost var trace: seq<seq<string>> := [];
    ghost var u := Targets(g) + {root};
    while stack != []
      invariant Frontier(stack, seen, present, sb) == Rounds(start, root, trace)
      invariant ValidTrace(g, start, root, trace)
      invariant seen <= u
      decreases |u - seen|, |stack|
    {
      var current := stack[|stack| - 1];
      ghost var f := Frontier(stack, seen, present, sb);
      var rest := stack[..|stack| - 1];
      ghost var hs;
      stack, seen, present, sb, hs := PushTargets(g, root, current, rest, seen, present, sb);
      RoundProgress(g, root, f, hs);
      assert (trace + [hs])[..|trace|] == trace;
      trace := trace + [hs];
      if seen != f.seen {
        SubsetCard(u, f.seen, seen);
      }
    }
    WalkDone(g, root, present0, sb0, trace);
  }

  /** The outer loop of `compute_supersedence`: one walk per installed KB. */
  method AttributeAll(g: Graph, installed: set<string>)
    returns (present: set<string>, sb: map<string, set<string>>)
    ensures present == LogicalPresent(g, installed)
    ensures AttributedAll(g, installed, sb)
  {
    present := installed;
    sb := map[];
    var todo := installed;
    ghost var done: set<string> := {};
    AttributeNothing(g, installed);
    while todo != {}
      invariant AttributeInv(g, installed, todo, done, present, sb)
      decreases |todo|
    {
      var root :| root in todo;
      ghost var present0, sb0 := present, sb;
      present, sb := WalkFrom(g, root, present, sb);
      AttributeStep(g, installed, todo, done, root, present0, sb0, present, sb);
      todo := todo - {root};
      done := done + {root};
    }
    AttributeDone(g, installed, done, present, sb);
  }

  /**
   * `compute_supersedence(kb_entries, installed_kbs)`: the walk terminates,
   * also on cyclic data, and returns `logical_present` and `superseded_by`.
   */
  method ComputeSupersedence(entries: seq<KbRecord>, installed: set<string>)
    returns (present: set<string>, supersededBy: map<string, seq<string>>)
    ensures present == LogicalPresent(SupersedesMap(entries), installed)
    ensures supersededBy == SupersededBy(SupersedesMap(entries), installed)
  {
    var g := BuildSupersedesMap(entries);
    var sb;
    present, sb := AttributeAll(g, installed);
    supersededBy := map k | k in sb :: SortedSet(sb[k]);
    SortedAttribution(g, installed, sb);
  }
}
