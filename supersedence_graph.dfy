/**
 * The definitions behind the scanner's supersedence closure
 * (`compute_supersedence`): the "supersedes" graph, reachability along its
 * edges, and the closed form of what the walk computes: a KB is logically
 * present when it is installed or reached from an installed KB, and each
 * reached KB is attributed to the installed KBs it is reached from.
 */
module SupersedenceGraph {
  import opened KbMerge
  import opened Ordering

  /** `supersedes_map`: each KB to the set of KBs it supersedes. */
  type Graph = map<string, set<string>>

  /** `supersedes_map.get(x, set())`. */
  function Succ(g: Graph, x: string): set<string> {
    if x in g then g[x] else {}
  }

  function Elems(s: seq<string>): set<string> {
    set x | x in s
  }

  /** `d.get(x, set())` for the attribution map while it is built. */
  function Get(d: map<string, set<string>>, x: string): set<string> {
    if x in d then d[x] else {}
  }

  /** The inner loop that builds `supersedes_map`: `setdefault(kb, set()).add(old)` for each old of one entry. */
  function AddEdges(g: Graph, kb: string, olds: seq<string>): (r: Graph)
    ensures r.Keys == g.Keys + (if olds == [] then {} else {kb})
    ensures forall k :: Succ(r, k) == Succ(g, k) + (if k == kb then Elems(olds) else {})
  {
    if olds == [] then g
    else
      var h := AddEdges(g, kb, olds[..|olds| - 1]);
      assert Elems(olds) == Elems(olds[..|olds| - 1]) + {olds[|olds| - 1]} by {
        assert olds == olds[..|olds| - 1] + [olds[|olds| - 1]];
      }
      h[kb := Succ(h, kb) + {olds[|olds| - 1]}]
  }

  /** `supersedes_map` for a list of records: the edges of every record, added in order. */
  function SupersedesMap(entries: seq<KbRecord>): Graph
  {
    if entries == [] then map[]
    else
      var e := entries[|entries| - 1];
      AddEdges(SupersedesMap(entries[..|entries| - 1]), e.kb, e.supersedes)
  }

  /** Some record of `entries` for `kb` lists `o` among the KBs it supersedes. */
  predicate Lists(entries: seq<KbRecord>, kb: string, o: string) {
    exists i :: 0 <= i < |entries| && entries[i].kb == kb && o in entries[i].supersedes
  }

  /** Some record of `entries` for `kb` supersedes at least one KB. */
  predicate HasEdges(entries: seq<KbRecord>, kb: string) {
    exists i :: 0 <= i < |entries| && entries[i].kb == kb && entries[i].supersedes != []
  }

  /** A KB is a key of `supersedes_map` exactly when one of its records supersedes something. */
  lemma {:induction false} SupersedesMapKeys(entries: seq<KbRecord>, kb: string)
    ensures kb in SupersedesMap(entries) <==> HasEdges(entries, kb)
  {
    if entries != [] {
      var init := entries[..|entries| - 1];
      var e := entries[|entries| - 1];
      SupersedesMapKeys(init, kb);
      assert kb in SupersedesMap(entries) <==> kb in SupersedesMap(init) || (kb == e.kb && e.supersedes != []);
      if HasEdges(entries, kb) {
        var i :| 0 <= i < |entries| && entries[i].kb == kb && entries[i].supersedes != [];
        if i < |init| {
          assert init[i] == entries[i];
        }
      }
      if HasEdges(init, kb) {
        var i :| 0 <= i < |init| && init[i].kb == kb && init[i].supersedes != [];
        assert entries[i] == init[i];
      }
    }
  }

  /** A KB supersedes, in `supersedes_map`, exactly the KBs its records list. */
  lemma {:induction false} SupersedesMapSucc(entries: seq<KbRecord>, kb: string, o: string)
    ensures o in Succ(SupersedesMap(entries), kb) <==> Lists(entries, kb, o)
  {
    if entries != [] {
      var init := entries[..|entries| - 1];
      var e := entries[|entries| - 1];
      SupersedesMapSucc(init, kb, o);
      var g := SupersedesMap(init);
      assert Succ(SupersedesMap(entries), kb) == Succ(g, kb) + (if kb == e.kb then Elems(e.supersedes) else {});
      if Lists(entries, kb, o) {
        var i :| 0 <= i < |entries| && entries[i].kb == kb && o in entries[i].supersedes;
        if i < |init| {
          assert init[i] == entries[i];
          assert Lists(init, kb, o);
        }
      }
      if Lists(init, kb, o) {
        var i :| 0 <= i < |init| && init[i].kb == kb && o in init[i].supersedes;
        assert entries[i] == init[i];
      }
    }
  }

  /** Each KB of `p` supersedes the next one. */
  ghost predicate IsPath(g: Graph, p: seq<string>) {
    forall i :: 0 <= i < |p| - 1 ==> p[i + 1] in Succ(g, p[i])
  }

  /** `b` is reached from `a` along one or more "supersedes" edges. */
  ghost predicate Reaches(g: Graph, a: string, b: string) {
    exists p :: |p| >= 2 && p[0] == a && p[|p| - 1] == b && IsPath(g, p)
  }

  /** Every KB some KB supersedes. */
  function Targets(g: Graph): set<string> {
    set k, v | k in g && v in g[k] :: v
  }

  /** The KBs reached from `root` by one or more edges. */
  ghost function Reachable(g: Graph, root: string): set<string> {
    set x | x in Targets(g) && Reaches(g, root, x)
  }

  /** The KBs reached from some root of `roots`. */
  ghost function Covered(g: Graph, roots: set<string>): set<string> {
    set r, x | r in roots && x in Reachable(g, r) :: x
  }

  /** The roots of `roots` from which `x` is reached. */
  ghost function RootsOf(g: Graph, roots: set<string>, x: string): set<string> {
    set r | r in roots && x in Reachable(g, r)
  }

  /** `logical_present`: the installed KBs and everything they supersede, transitively. */
  ghost function LogicalPresent(g: Graph, installed: set<string>): set<string> {
    installed + Covered(g, installed)
  }

  /** `superseded_by` as returned: each covered KB with its roots in sorted order. */
  ghost function SupersededBy(g: Graph, installed: set<string>): map<string, seq<string>> {
    map k | k in Covered(g, installed) :: SortedSet(RootsOf(g, installed, k))
  }

  lemma ReachesTarget(g: Graph, a: string, b: string)
    requires Reaches(g, a, b)
    ensures b in Targets(g)
  {
    var p :| |p| >= 2 && p[0] == a && p[|p| - 1] == b && IsPath(g, p);
    assert p[|p| - 1] in Succ(g, p[|p| - 2]);
  }

  /** One more edge from the root or from a KB reached from it reaches its target. */
  lemma ReachStep(g: Graph, root: string, c: string, o: string)
    requires c == root || c in Reachable(g, root)
    requires o in Succ(g, c)
    ensures o in Reachable(g, root)
  {
    assert o in Targets(g) by {
      assert c in g && o in g[c];
    }
    if c == root {
      var p := [root, o];
      assert IsPath(g, p);
    } else {
      var p :| |p| >= 2 && p[0] == root && p[|p| - 1] == c && IsPath(g, p);
      var q := p + [o];
      assert IsPath(g, q) by {
        forall i | 0 <= i < |q| - 1
          ensures q[i + 1] in Succ(g, q[i])
        {
          if i < |p| - 1 {
            assert q[i] == p[i] && q[i + 1] == p[i + 1];
          }
        }
      }
      assert q[0] == root && q[|q| - 1] == o;
    }
  }

  lemma {:induction false} PathStaysIn(g: Graph, s: set<string>, p: seq<string>, i: nat)
    requires |p| > 0 && p[0] in s && IsPath(g, p)
    requires forall d :: d in s ==> Succ(g, d) <= s
    requires i < |p|
    ensures p[i] in s
  {
    if i > 0 {
      PathStaysIn(g, s, p, i - 1);
      assert p[i] in Succ(g, p[i - 1]);
    }
  }

  /** The KBs superseded by some KB of `s`. */
  function Post(g: Graph, s: set<string>): set<string> {
    set d, x | d in s && x in Succ(g, d) :: x
  }

  lemma PostAdd(g: Graph, s: set<string>, d: string)
    ensures Post(g, s + {d}) == Post(g, s) + Succ(g, d)
  {
  }

  /** Everything the root or a KB reached from it supersedes is reached from the root. */
  lemma SuccReachable(g: Graph, root: string, c: string)
    requires c == root || c in Reachable(g, root)
    ensures Succ(g, c) <= Reachable(g, root)
  {
    forall o | o in Succ(g, c)
      ensures o in Reachable(g, root)
    {
      ReachStep(g, root, c, o);
    }
  }

  /**
   * A set holding the root and closed under the edges reaches nothing beyond
   * what its KBs supersede.
   */
  lemma ClosedCoversReachable(g: Graph, s: set<string>, root: string)
    requires root in s && Post(g, s) <= s
    ensures Reachable(g, root) <= Post(g, s)
  {
    forall d | d in s
      ensures Succ(g, d) <= s
    {
      forall x | x in Succ(g, d)
        ensures x in s
      {
        assert x in Post(g, s);
      }
    }
    forall x | x in Reachable(g, root)
      ensures x in Post(g, s)
    {
      var p :| |p| >= 2 && p[0] == root && p[|p| - 1] == x && IsPath(g, p);
      PathStaysIn(g, s, p, |p| - 2);
      assert p[|p| - 1] in Succ(g, p[|p| - 2]);
    }
  }

  lemma SubsetCard(u: set<string>, a: set<string>, b: set<string>)
    requires a < b <= u
    ensures |u - b| < |u - a|
  {
    var x :| x in b && x !in a;
    CardMono(u - b, (u - a) - {x});
  }

  lemma {:induction false} CardMono(a: set<string>, b: set<string>)
    requires a <= b
    ensures |a| <= |b|
    decreases a
  {
    if a != {} {
      var x :| x in a;
      CardMono(a - {x}, b - {x});
    }
  }

  /**
   * `sb` is `sb0` with `root` added to the attribution of every KB of `hit`
   * (and a fresh entry for those that had none).
   */
  ghost predicate AttributedFrom(sb: map<string, set<string>>, sb0: map<string, set<string>>, hit: set<string>, root: string) {
    && (forall x :: x in sb <==> x in sb0 || x in hit)
    && (forall x, r :: r in Get(sb, x) <==> r in Get(sb0, x) || (r == root && x in hit))
  }

  lemma AttributedNone(sb0: map<string, set<string>>, root: string)
    ensures AttributedFrom(sb0, sb0, {}, root)
  {
  }

  lemma AttributedCompose(sb0: map<string, set<string>>, sb1: map<string, set<string>>, sb2: map<string, set<string>>,
                          h1: set<string>, h2: set<string>, root: string)
    requires AttributedFrom(sb1, sb0, h1, root) && AttributedFrom(sb2, sb1, h2, root)
    ensures AttributedFrom(sb2, sb0, h1 + h2, root)
  {
  }

  /** The state one walk updates: its stack and `seen` set, `logical_present` and `superseded_by`. */
  datatype Frontier = Frontier(stack: seq<string>, seen: set<string>, present: set<string>, sb: map<string, set<string>>)

  /** One pass of the body of `for old in ...`: `old` becomes present and attributed to `root`, and is pushed if new. */
  function Visit(f: Frontier, root: string, o: string): Frontier {
    var present := f.present + {o};
    var sb := f.sb[o := Get(f.sb, o) + {root}];
    if o in f.seen then Frontier(f.stack, f.seen, present, sb)
    else Frontier(f.stack + [o], f.seen + {o}, present, sb)
  }

  /** The passes of the body for the KBs of `hs`, in that order. */
  function VisitAll(f: Frontier, root: string, hs: seq<string>): Frontier {
    if hs == [] then f else Visit(VisitAll(f, root, hs[..|hs| - 1]), root, hs[|hs| - 1])
  }

  lemma ElemsSnoc(s: seq<string>, x: string)
    ensures Elems(s + [x]) == Elems(s) + {x}
  {
  }

  /** The passes add the visited KBs to `seen` and to `logical_present`. */
  lemma {:induction false} VisitAllSets(f: Frontier, root: string, hs: seq<string>)
    ensures VisitAll(f, root, hs).seen == f.seen + Elems(hs)
    ensures VisitAll(f, root, hs).present == f.present + Elems(hs)
  {
    if hs != [] {
      VisitAllSets(f, root, hs[..|hs| - 1]);
      ElemsSnoc(hs[..|hs| - 1], hs[|hs| - 1]);
      assert hs == hs[..|hs| - 1] + [hs[|hs| - 1]];
    }
  }

  /** The passes attribute `root` to every visited KB. */
  lemma {:induction false} VisitAllAttributes(f: Frontier, root: string, hs: seq<string>)
    ensures AttributedFrom(VisitAll(f, root, hs).sb, f.sb, Elems(hs), root)
  {
    if hs != [] {
      var init, o := hs[..|hs| - 1], hs[|hs| - 1];
      VisitAllAttributes(f, root, init);
      ElemsSnoc(init, o);
      assert hs == init + [o];
      var m := VisitAll(f, root, init).sb;
      var m1 := m[o := Get(m, o) + {root}];
      forall x, r
        ensures r in Get(m1, x) <==> r in Get(f.sb, x) || (r == root && x in Elems(hs))
      {
        if x != o {
          assert Get(m1, x) == Get(m, x);
        }
      }
    }
  }

  /**
   * The passes only push onto the stack, push exactly the visited KBs not
   * seen before, and push nothing when all of them were seen.
   */
  lemma {:induction false} VisitAllStack(f: Frontier, root: string, hs: seq<string>)
    ensures f.stack <= VisitAll(f, root, hs).stack
    ensures forall x :: x in Elems(hs) && x !in f.seen ==> x in VisitAll(f, root, hs).stack
    ensures forall x :: x in VisitAll(f, root, hs).stack ==> x in f.stack || x in Elems(hs)
    ensures Elems(hs) <= f.seen ==> VisitAll(f, root, hs).stack == f.stack
  {
    if hs != [] {
      var init, o := hs[..|hs| - 1], hs[|hs| - 1];
      VisitAllStack(f, root, init);
      VisitAllSets(f, root, init);
      ElemsSnoc(init, o);
      assert hs == init + [o];
    }
  }

  /**
   * What one pass of the `for old in ...` loop over the targets of `current`
   * does to the walk state, stated without the order the targets come in.
   */
  ghost predicate Pushed(g: Graph, root: string, current: string,
                         stack0: seq<string>, seen0: set<string>, present0: set<string>, sb0: map<string, set<string>>,
                         stack: seq<string>, seen: set<string>, present: set<string>, sb: map<string, set<string>>)
  {
    && seen == seen0 + Succ(g, current) && present == present0 + Succ(g, current)
    && AttributedFrom(sb, sb0, Succ(g, current), root)
    && stack0 <= stack
    && (forall x :: x in Succ(g, current) && x !in seen0 ==> x in stack)
    && (forall x :: x in stack ==> x in stack0 || x in Succ(g, current))
    && (Succ(g, current) <= seen0 ==> stack == stack0)
  }

  lemma PostTargets(g: Graph, s: set<string>)
    ensures Post(g, s) <= Targets(g)
  {
    forall x | x in Post(g, s)
      ensures x in Targets(g)
    {
      var d :| d in s && x in Succ(g, d);
      assert d in g && x in g[d];
    }
  }

  /** What holds of the walk from `root` each time the `while stack` loop tests its condition. */
  ghost predicate WalkInv(g: Graph, root: string, present0: set<string>, sb0: map<string, set<string>>,
                          stack: seq<string>, seen: set<string>, popped: set<string>,
                          present: set<string>, sb: map<string, set<string>>)
  {
    && seen == {root} + Post(g, popped) && popped <= seen
    && seen <= Targets(g) + {root}
    && (forall x :: x in seen ==> x in popped || x in stack)
    && (forall x :: x in stack ==> x in seen)
    && Post(g, popped) <= Reachable(g, root)
    && present == present0 + Post(g, popped)
    && AttributedFrom(sb, sb0, Post(g, popped), root)
  }

  /** The sets of the walk after popping `current` and pushing its targets. */
  lemma WalkStepSets(g: Graph, root: string, current: string, seen0: set<string>, popped: set<string>,
                     present0: set<string>, present1: set<string>, seen: set<string>, present: set<string>)
    requires seen0 == {root} + Post(g, popped) && popped <= seen0 && seen0 <= Targets(g) + {root}
    requires Post(g, popped) <= Reachable(g, root) && present1 == present0 + Post(g, popped)
    requires current in seen0
    requires seen == seen0 + Succ(g, current) && present == present1 + Succ(g, current)
    ensures seen == {root} + Post(g, popped + {current}) && popped + {current} <= seen
    ensures seen <= Targets(g) + {root}
    ensures Post(g, popped + {current}) <= Reachable(g, root)
    ensures present == present0 + Post(g, popped + {current})
  {
    SuccReachable(g, root, current);
    PostAdd(g, popped, current);
    PostTargets(g, popped + {current});
  }

  /** The stack of the walk after popping `current` and pushing its targets. */
  lemma WalkStepStack(stack1: seq<string>, stack0: seq<string>, current: string, seen0: set<string>,
                      popped: set<string>, succ: set<string>, stack: seq<string>, seen: set<string>)
    requires stack1 != [] && current == stack1[|stack1| - 1] && stack0 == stack1[..|stack1| - 1]
    requires forall x :: x in seen0 ==> x in popped || x in stack1
    requires forall x :: x in stack1 ==> x in seen0
    requires seen == seen0 + succ && stack0 <= stack
    requires forall x :: x in succ && x !in seen0 ==> x in stack
    requires forall x :: x in stack ==> x in stack0 || x in succ
    requires succ <= seen0 ==> stack == stack0
    ensures forall x :: x in seen ==> x in popped + {current} || x in stack
    ensures forall x :: x in stack ==> x in seen
    ensures current in seen0 && (seen0 != seen || |stack| < |stack1|)
  {
    assert stack1 == stack0 + [current];
    forall x | x in seen
      ensures x in popped + {current} || x in stack
    {
      if x in seen0 && x !in popped && x != current {
        assert x in stack0;
      }
    }
  }

  /** Popping `current` and pushing its unseen targets keeps `WalkInv`, and the walk makes progress. */
  lemma WalkStep(g: Graph, root: string, present0: set<string>, sb0: map<string, set<string>>,
                 stack1: seq<string>, stack0: seq<string>, current: string, seen0: set<string>, popped: set<string>,
                 present1: set<string>, sb1: map<string, set<string>>,
                 stack: seq<string>, seen: set<string>, present: set<string>, sb: map<string, set<string>>)
    requires stack1 != [] && current == stack1[|stack1| - 1] && stack0 == stack1[..|stack1| - 1]
    requires WalkInv(g, root, present0, sb0, stack1, seen0, popped, present1, sb1)
    requires Pushed(g, root, current, stack0, seen0, present1, sb1, stack, seen, present, sb)
    ensures WalkInv(g, root, present0, sb0, stack, seen, popped + {current}, present, sb)
    ensures seen0 <= seen <= Targets(g) + {root}
    ensures seen0 != seen || |stack| < |stack1|
  {
    WalkStepStack(stack1, stack0, current, seen0, popped, Succ(g, current), stack, seen);
    WalkStepSets(g, root, current, seen0, popped, present0, present1, seen, present);
    AttributedCompose(sb0, sb1, sb, Post(g, popped), Succ(g, current), root);
  }

  /** One round of the walk: pop the top of the stack and visit what it supersedes, in the order `hs`. */
  function Round(f: Frontier, root: string, hs: seq<string>): Frontier {
    if f.stack == [] then f else VisitAll(f.(stack := f.stack[..|f.stack| - 1]), root, hs)
  }

  /** The rounds of `trace`, one after the other. */
  function Rounds(f: Frontier, root: string, trace: seq<seq<string>>): Frontier
    decreases |trace|
  {
    if trace == [] then f else Round(Rounds(f, root, trace[..|trace| - 1]), root, trace[|trace| - 1])
  }

  /** Each round of `trace` pops a KB and visits exactly what that KB supersedes. */
  ghost predicate ValidTrace(g: Graph, f: Frontier, root: string, trace: seq<seq<string>>)
    decreases |trace|
  {
    trace == [] ||
    (ValidTrace(g, f, root, trace[..|trace| - 1]) &&
     var p := Rounds(f, root, trace[..|trace| - 1]);
     p.stack != [] && Elems(trace[|trace| - 1]) == Succ(g, p.stack[|p.stack| - 1]))
  }

  /** The KBs the rounds of `trace` popped. */
  function Popped(f: Frontier, root: string, trace: seq<seq<string>>): set<string>
    decreases |trace|
  {
    if trace == [] then {}
    else
      var p := Rounds(f, root, trace[..|trace| - 1]);
      Popped(f, root, trace[..|trace| - 1]) + (if p.stack == [] then {} else {p.stack[|p.stack| - 1]})
  }

  /** A round that visits what the popped KB supersedes changes the state as `Pushed` says. */
  lemma RoundPushed(g: Graph, root: string, f: Frontier, hs: seq<string>)
    requires f.stack != [] && Elems(hs) == Succ(g, f.stack[|f.stack| - 1])
    ensures var r := Round(f, root, hs);
      Pushed(g, root, f.stack[|f.stack| - 1], f.stack[..|f.stack| - 1], f.seen, f.present, f.sb, r.stack, r.seen, r.present, r.sb)
  {
    var f0 := f.(stack := f.stack[..|f.stack| - 1]);
    VisitAllSets(f0, root, hs);
    VisitAllAttributes(f0, root, hs);
    VisitAllStack(f0, root, hs);
  }

  /** A round only adds to `seen`, within the KBs of the graph, and adds to it or shortens the stack. */
  lemma RoundProgress(g: Graph, root: string, f: Frontier, hs: seq<string>)
    requires f.stack != [] && Elems(hs) == Succ(g, f.stack[|f.stack| - 1])
    requires f.seen <= Targets(g) + {root}
    ensures var r := Round(f, root, hs);
      f.seen <= r.seen <= Targets(g) + {root} && (f.seen != r.seen || |r.stack| < |f.stack|)
  {
    var c := f.stack[|f.stack| - 1];
    RoundPushed(g, root, f, hs);
    PostTargets(g, {c});
    PostAdd(g, {}, c);
  }

  /** After any valid trace of rounds from the start state the walk invariant holds. */
  lemma {:induction false} RoundsInv(g: Graph, root: string, present0: set<string>, sb0: map<string, set<string>>,
                                     trace: seq<seq<string>>)
    requires ValidTrace(g, Frontier([root], {root}, present0, sb0), root, trace)
    ensures var start := Frontier([root], {root}, present0, sb0);
      var f := Rounds(start, root, trace);
      WalkInv(g, root, present0, sb0, f.stack, f.seen, Popped(start, root, trace), f.present, f.sb)
    decreases |trace|
  {
    var start := Frontier([root], {root}, present0, sb0);
    if trace == [] {
      AttributedNone(sb0, root);
    } else {
      var pre := trace[..|trace| - 1];
      var hs := trace[|trace| - 1];
      RoundsInv(g, root, present0, sb0, pre);
      var p := Rounds(start, root, pre);
      var r := Round(p, root, hs);
      RoundPushed(g, root, p, hs);
      WalkStep(g, root, present0, sb0, p.stack, p.stack[..|p.stack| - 1], p.stack[|p.stack| - 1],
               p.seen, Popped(start, root, pre), p.present, p.sb, r.stack, r.seen, r.present, r.sb);
    }
  }

  /** A walk whose stack is empty has made the reachable KBs present and attributed them to the root. */
  lemma WalkDone(g: Graph, root: string, present0: set<string>, sb0: map<string, set<string>>,
                 trace: seq<seq<string>>)
    requires ValidTrace(g, Frontier([root], {root}, present0, sb0), root, trace)
    requires Rounds(Frontier([root], {root}, present0, sb0), root, trace).stack == []
    ensures var f := Rounds(Frontier([root], {root}, present0, sb0), root, trace);
      f.present == present0 + Reachable(g, root) && AttributedFrom(f.sb, sb0, Reachable(g, root), root)
  {
    var start := Frontier([root], {root}, present0, sb0);
    RoundsInv(g, root, present0, sb0, trace);
    ClosedCoversReachable(g, Popped(start, root, trace), root);
  }

  lemma CoveredAdd(g: Graph, done: set<string>, root: string)
    ensures Covered(g, done + {root}) == Covered(g, done) + Reachable(g, root)
  {
  }

  /**
   * The attribution map in closed form once the roots of `done` are walked:
   * its keys are the KBs they cover, and each KB maps to the roots it is
   * reached from.
   */
  ghost predicate AttributedAll(g: Graph, done: set<string>, sb: map<string, set<string>>) {
    && (forall x :: x in sb <==> x in Covered(g, done))
    && (forall x, r :: r in Get(sb, x) <==> r in done && x in Reachable(g, r))
  }

  /** What holds each time the `for root in installed_kbs` loop takes its next root. */
  ghost predicate AttributeInv(g: Graph, installed: set<string>, todo: set<string>, done: set<string>,
                               present: set<string>, sb: map<string, set<string>>) {
    && todo + done == installed && todo !! done
    && present == installed + Covered(g, done)
    && AttributedAll(g, done, sb)
  }

  lemma AttributeNothing(g: Graph, installed: set<string>)
    ensures AttributeInv(g, installed, installed, {}, installed, map[])
  {
  }

  /** Attributing the walk of one more root keeps the attribution map in its closed form. */
  lemma AttributeRoot(g: Graph, done: set<string>, root: string,
                      sb0: map<string, set<string>>, sb: map<string, set<string>>)
    requires root !in done
    requires AttributedAll(g, done, sb0)
    requires AttributedFrom(sb, sb0, Reachable(g, root), root)
    ensures AttributedAll(g, done + {root}, sb)
  {
    CoveredAdd(g, done, root);
    forall x
      ensures x in sb <==> x in Covered(g, done + {root})
    {
      assert x in sb <==> x in sb0 || x in Reachable(g, root);
    }
    forall x, r
      ensures r in Get(sb, x) <==> r in done + {root} && x in Reachable(g, r)
    {
      assert r in Get(sb, x) <==> r in Get(sb0, x) || (r == root && x in Reachable(g, r));
    }
  }

  /** One walk from a root not yet taken keeps `AttributeInv` with that root moved to `done`. */
  lemma AttributeStep(g: Graph, installed: set<string>, todo: set<string>, done: set<string>, root: string,
                      present0: set<string>, sb0: map<string, set<string>>,
                      present: set<string>, sb: map<string, set<string>>)
    requires AttributeInv(g, installed, todo, done, present0, sb0) && root in todo
    requires present == present0 + Reachable(g, root)
    requires AttributedFrom(sb, sb0, Reachable(g, root), root)
    ensures AttributeInv(g, installed, todo - {root}, done + {root}, present, sb)
  {
    CoveredAdd(g, done, root);
    AttributeRoot(g, done, root, sb0, sb);
  }

  /** Once every installed KB is walked, the state is the closed form of the whole closure. */
  lemma AttributeDone(g: Graph, installed: set<string>, done: set<string>,
                      present: set<string>, sb: map<string, set<string>>)
    requires AttributeInv(g, installed, {}, done, present, sb)
    ensures present == LogicalPresent(g, installed)
    ensures AttributedAll(g, installed, sb)
  {
  }

  /** Sorting each attribution set of the closed form gives `SupersededBy`. */
  lemma SortedAttribution(g: Graph, installed: set<string>, sb: map<string, set<string>>)
    requires AttributedAll(g, installed, sb)
    ensures (map k | k in sb :: SortedSet(sb[k])) == SupersededBy(g, installed)
  {
    var m := map k | k in sb :: SortedSet(sb[k]);
    var spec := SupersededBy(g, installed);
    assert m.Keys == spec.Keys;
    forall k | k in m
      ensures m[k] == spec[k]
    {
      RootsOfAttributed(g, installed, sb, k);
    }
  }

  lemma RootsOfAttributed(g: Graph, installed: set<string>, sb: map<string, set<string>>, k: string)
    requires AttributedAll(g, installed, sb) && k in sb
    ensures sb[k] == RootsOf(g, installed, k)
  {
    forall r
      ensures r in sb[k] <==> r in RootsOf(g, installed, k)
    {
      assert r in Get(sb, k) <==> r in installed && k in Reachable(g, r);
    }
  }

  /**
   * The promises of the closure: installed KBs are present; each attributed KB
   * is present and has a non-empty, sorted, duplicate-free list holding exactly
   * the installed roots it is reached from; a KB is attributed exactly when
   * an installed KB reaches it.
   */
  lemma SupersedenceSpec(g: Graph, installed: set<string>)
    ensures installed <= LogicalPresent(g, installed)
    ensures SupersededBy(g, installed).Keys <= LogicalPresent(g, installed)
    ensures forall k :: k in SupersededBy(g, installed) <==> exists r :: r in installed && Reaches(g, r, k)
    ensures forall k :: k in LogicalPresent(g, installed) <==> k in installed || exists r :: r in installed && Reaches(g, r, k)
    ensures forall k :: k in SupersededBy(g, installed) ==>
              && SupersededBy(g, installed)[k] != []
              && StrictlySorted(SupersededBy(g, installed)[k])
              && (forall r :: r in SupersededBy(g, installed)[k] <==> r in installed && Reaches(g, r, k))
  {
    forall k | exists r :: r in installed && Reaches(g, r, k)
      ensures k in Covered(g, installed)
    {
      var r :| r in installed && Reaches(g, r, k);
      ReachesTarget(g, r, k);
      assert k in Reachable(g, r);
    }
    forall k | k in SupersededBy(g, installed)
      ensures SupersededBy(g, installed)[k] != []
    {
      var r :| r in installed && k in Reachable(g, r);
      assert r in RootsOf(g, installed, k);
    }
    forall k, r | k in SupersededBy(g, installed) && r in installed && Reaches(g, r, k)
      ensures r in SupersededBy(g, installed)[k]
    {
      ReachesTarget(g, r, k);
    }
  }

  /** Two KBs superseding each other. */
  function CycleGraph(): Graph {
    map["A" := {"B"}, "B" := {"A"}]
  }

  /** In the cycle each KB reaches both, itself included. */
  lemma CycleReachable()
    ensures Reachable(CycleGraph(), "A") == {"A", "B"}
  {
    var g := CycleGraph();
    forall v | v in Targets(g)
      ensures v == "A" || v == "B"
    {
      var k :| k in g && v in g[k];
    }
    var p1, p2 := ["A", "B"], ["A", "B", "A"];
    assert IsPath(g, p1) && p1[0] == "A" && p1[|p1| - 1] == "B";
    assert IsPath(g, p2) && p2[0] == "A" && p2[|p2| - 1] == "A";
    assert "B" in g["A"] && "A" in g["B"];
  }

  /** With a single root, the covered KBs are the ones it reaches, each attributed to that root alone. */
  lemma SingleRoot(g: Graph, r: string, x: string)
    ensures Covered(g, {r}) == Reachable(g, r)
    ensures RootsOf(g, {r}, x) == if x in Reachable(g, r) then {r} else {}
  {
    CoveredAdd(g, {}, r);
    assert {} + {r} == {r};
  }

  lemma CycleCovered()
    ensures Covered(CycleGraph(), {"A"}) == {"A", "B"}
    ensures RootsOf(CycleGraph(), {"A"}, "A") == {"A"} && RootsOf(CycleGraph(), {"A"}, "B") == {"A"}
  {
    CycleReachable();
    SingleRoot(CycleGraph(), "A", "A");
    SingleRoot(CycleGraph(), "A", "B");
  }

  /**
   * With only the first KB of the cycle installed, both are present and the
   * installed KB is attributed to itself as well.
   */
  lemma CycleAttribution()
    ensures LogicalPresent(CycleGraph(), {"A"}) == {"A", "B"}
    ensures SupersededBy(CycleGraph(), {"A"}) == map["A" := ["A"], "B" := ["A"]]
  {
    CycleCovered();
    SortedSingleton("A");
    var m := SupersededBy(CycleGraph(), {"A"});
    assert m.Keys == {"A", "B"};
  }
}
