/**
 * The downloader's `score_candidate`: an ordered list of rules over the
 * lower-cased catalog title.  A hard exclusion returns -10000 at once;
 * otherwise the score is 50 for the KB id plus soft bonuses and penalties.
 */
module Scoring {
  import opened Wrappers
  import opened Text
  import opened Catalog
  import opened Constraints

  const Excluded: int := -10000

  /** `re.search(r"\b\d{2}h[12]\b", title)` matches at `i`. */
  predicate YyHnAt(t: string, i: nat) {
    i + 4 <= |t|
    && IsDigit(t[i]) && IsDigit(t[i + 1]) && t[i + 2] == 'h' && (t[i + 3] == '1' || t[i + 3] == '2')
    && (i == 0 || !IsWordChar(t[i - 1]))
    && (i + 4 == |t| || !IsWordChar(t[i + 4]))
  }

  /** The title names a half-year release such as "22h2". */
  predicate HasYyHn(t: string) {
    exists i: nat | i <= |t| :: YyHnAt(t, i)
  }

  /** The first index at or after `k` that is not whitespace (`\s*`). */
  function SkipSpace(s: string, k: nat): (r: nat)
    requires k <= |s|
    ensures k <= r <= |s| && (r < |s| ==> !IsSpace(s[r]))
    ensures forall m :: k <= m < r ==> IsSpace(s[m])
    decreases |s| - k
  {
    if k == |s| || !IsSpace(s[k]) then k else SkipSpace(s, k + 1)
  }

  /** `\(\s*(\d{5})\.` matches at `i`: a "(", optional whitespace, five digits and a ".". */
  predicate BuildAt(t: string, i: nat) {
    i < |t| && t[i] == '(' && var j := SkipSpace(t, i + 1); j + 6 <= |t| && AllDigits(t[j..j + 5]) && t[j + 5] == '.'
  }

  /** The five digits captured by a match at `i`. */
  function BuildGroup(t: string, i: nat): (g: string)
    requires BuildAt(t, i)
    ensures |g| == 5 && AllDigits(g)
  {
    var j := SkipSpace(t, i + 1);
    t[j..j + 5]
  }

  /** Where `re.search` finds the leftmost match at or after `from`. */
  function BuildSearchFrom(t: string, from: nat): (r: Option<nat>)
    ensures r.Some? ==> from <= r.value && BuildAt(t, r.value)
    ensures forall i: nat :: from <= i && (r.None? || i < r.value) ==> !BuildAt(t, i)
    decreases |t| - from
  {
    if from >= |t| then None
    else if BuildAt(t, from) then Some(from)
    else BuildSearchFrom(t, from + 1)
  }

  /** A rival architecture marker for each catalog architecture. */
  function Rivals(arch: string): seq<string> {
    if arch == "x64" then ["arm64-based", "x86-based", "32-bit"]
    else if arch == "arm64" then ["x64-based", "x86-based", "32-bit"]
    else if arch == "x86" then ["x64-based", "arm64-based"]
    else []
  }

  predicate GenMismatch(gen: string, t: string) {
    (gen == "windows 10" && Contains(t, "windows 11")) || (gen == "windows 11" && Contains(t, "windows 10"))
  }

  predicate ServerExcluded(gen: string, t: string) {
    "windows" <= gen && Contains(t, "server")
  }

  predicate ArchExcluded(arch: string, t: string) {
    exists k :: 0 <= k < |Rivals(arch)| && Contains(t, Rivals(arch)[k])
  }

  /** One of the hard exclusions of `score_candidate` holds for the lower-cased title `t`. */
  predicate IsExcluded(t: string, kbId: string, c: BaselineConstraints) {
    !Contains(t, Lower(kbId)) || GenMismatch(c.windowsGen, t) || ServerExcluded(c.windowsGen, t)
    || ArchExcluded(c.catalogArch, t)
  }

  function GenBonus(gen: string, t: string): int {
    if gen != "" && Contains(t, gen) then 40 else 0
  }

  function ArchBonus(arch: string, t: string): int {
    if arch == "x64" && Contains(t, "x64-based") then 25
    else if arch == "arm64" && Contains(t, "arm64-based") then 25
    else if arch == "x86" && (Contains(t, "x86-based") || Contains(t, "32-bit")) then 25
    else 0
  }

  /** +25 for the display version in the title, -15 for another "yyHn" release named instead. */
  function VersionDelta(dv: string, t: string): int {
    if dv == "" then 0
    else if Contains(t, dv) then 25
    else if HasYyHn(t) then -15
    else 0
  }

  /** +10 when the title's "(ddddd." build agrees with the baseline's major build, -5 when it differs. */
  function BuildDelta(buildMajor: string, t: string): int {
    if buildMajor == "" then 0
    else match BuildSearchFrom(t, 0)
      case None => 0
      case Some(i) => if BuildGroup(t, i) == buildMajor then 10 else -5
  }

  /**
   * The score as a sum: -10000 for an excluded title, else 50 plus the four
   * soft terms, which keeps it between 30 and 150.
   */
  function Score(title: string, kbId: string, c: BaselineConstraints): (r: int)
    ensures r == Excluded <==> IsExcluded(Lower(title), kbId, c)
    ensures r != Excluded ==> 30 <= r <= 150
  {
    var t := Lower(title);
    if IsExcluded(t, kbId, c) then Excluded
    else 50 + GenBonus(c.windowsGen, t) + ArchBonus(c.catalogArch, t)
         + VersionDelta(Lower(c.displayVersion), t) + BuildDelta(c.buildMajor, t)
  }

  /** `score_candidate` as the program runs it: rule by rule, returning early on an exclusion. */
  method ScoreCandidate(candidate: CatalogCandidate, kbId: string, c: BaselineConstraints) returns (score: int)
    ensures score == Score(candidate.title, kbId, c)
  {
    var title := Lower(candidate.title);
    score := 0;
    if !Contains(title, Lower(kbId)) {
      return Excluded;
    }
    score := score + 50;
    if c.windowsGen != "" {
      if Contains(title, c.windowsGen) {
        score := score + 40;
      }
      if c.windowsGen == "windows 10" && Contains(title, "windows 11") {
        return Excluded;
      }
      if c.windowsGen == "windows 11" && Contains(title, "windows 10") {
        return Excluded;
      }
    }
    if "windows" <= c.windowsGen && Contains(title, "server") {
      return Excluded;
    }
    assert score == 50 + GenBonus(c.windowsGen, title);
    var rivals := Rivals(c.catalogArch);
    var k := 0;
    while k < |rivals|
      invariant 0 <= k <= |rivals|
      invariant forall m :: 0 <= m < k ==> !Contains(title, rivals[m])
    {
      if Contains(title, rivals[k]) {
        return Excluded;
      }
      k := k + 1;
    }
    score := score + ArchBonus(c.catalogArch, title);
    assert !IsExcluded(title, kbId, c);
    ghost var soft := score;
    var dv := Lower(c.displayVersion);
    if dv != "" {
      if Contains(title, dv) {
        score := score + 25;
      }
      if HasYyHn(title) && !Contains(title, dv) {
        score := score - 15;
      }
    }
    assert score == soft + VersionDelta(dv, title);
    if c.buildMajor != "" {
      var m := BuildSearchFrom(title, 0);
      if m.Some? {
        score := score + (if BuildGroup(title, m.value) == c.buildMajor then 10 else -5);
      }
    }
  }

  /** A title that does not contain the lower-cased KB id scores exactly -10000, whatever the constraints. */
  lemma KbAbsentExcluded(title: string, kbId: string, c: BaselineConstraints)
    requires !Contains(Lower(title), Lower(kbId))
    ensures Score(title, kbId, c) == -10000
  {
  }

  /** A generation mismatch, "server" under a known generation, or a rival architecture marker each give -10000. */
  lemma HardExclusions(title: string, kbId: string, c: BaselineConstraints)
    requires GenMismatch(c.windowsGen, Lower(title)) || ServerExcluded(c.windowsGen, Lower(title))
             || ArchExcluded(c.catalogArch, Lower(title))
    ensures Score(title, kbId, c) == -10000
  {
  }

  /** The version terms: +25 and -15 never both apply, and the build term is 0 without a "(ddddd." group. */
  lemma SoftTerms(dv: string, buildMajor: string, t: string)
    ensures VersionDelta(dv, t) in {25, -15, 0} && BuildDelta(buildMajor, t) in {10, -5, 0}
    ensures VersionDelta(dv, t) == -15 <==> dv != "" && !Contains(t, dv) && HasYyHn(t)
    ensures BuildSearchFrom(t, 0).None? ==> BuildDelta(buildMajor, t) == 0
  {
  }

  /**
   * A candidate that is not excluded scores between 30 and 150, so a score
   * is negative exactly when the candidate was excluded, and then it is
   * exactly -10000.
   */
  lemma ScoreRange(title: string, kbId: string, c: BaselineConstraints)
    ensures !IsExcluded(Lower(title), kbId, c) ==> 30 <= Score(title, kbId, c) <= 150
    ensures Score(title, kbId, c) < 0 <==> IsExcluded(Lower(title), kbId, c)
    ensures Score(title, kbId, c) < 0 ==> Score(title, kbId, c) == -10000
  {
    SoftTerms(Lower(c.displayVersion), c.buildMajor, Lower(title));
  }

  /** On an x86 baseline "32-bit" is the baseline's own marker, not a rival one. */
  lemma X86KeepsThirtyTwoBit()
    ensures !ArchExcluded("x86", "kb1 32-bit")
  {
    var t := "kb1 32-bit";
    var r := Rivals("x86");
    assert r == ["x64-based", "arm64-based"];
    NoStartIn(t, r[0]);
    NoStartIn(t, r[1]);
  }

  /** On an x64 baseline the same "32-bit" marker excludes the candidate. */
  lemma X64RejectsThirtyTwoBit()
    ensures ArchExcluded("x64", "kb1 32-bit")
  {
    var t := "kb1 32-bit";
    var r := Rivals("x64");
    assert r[2] == "32-bit";
    assert t[4..10] == "32-bit";
    assert OccursAt(t, r[2], 4);
  }
}
