/**
 * The installer's pure core: which directory entries are packages and in
 * what order they are listed, the KB label shown for a package, the
 * selection check, the choice between `wusa.exe` and `dism.exe`, and the
 * mapping of the tool's exit code.  The directory listing, the prompt and
 * the process run are inputs.
 */
module Installer {
  import opened Wrappers
  import opened Text
  import opened Ordering
  import opened Decimal

  predicate IsSep(c: char) { c == '\\' || c == '/' }

  /** The index just past the last separator of `p` (0 if there is none). */
  function NameStart(p: string): (r: nat)
    ensures r <= |p| && (r > 0 ==> IsSep(p[r - 1]))
    ensures forall k :: r <= k < |p| ==> !IsSep(p[k])
  {
    if p == [] then 0
    else if IsSep(p[|p| - 1]) then |p|
    else NameStart(p[..|p| - 1])
  }

  /** `os.path.basename(p)`: everything after the last separator. */
  function Basename(p: string): (r: string)
    ensures r == p[NameStart(p)..]
  {
    p[NameStart(p)..]
  }

  /** The index of the last "." of `p` at or after `lo`, if any. */
  function LastDot(p: string, lo: nat): (r: Option<nat>)
    ensures r.Some? ==> lo <= r.value < |p| && p[r.value] == '.'
    ensures forall k :: lo <= k < |p| && (r.None? || r.value < k) ==> p[k] != '.'
    decreases |p|
  {
    if |p| <= lo then None
    else if p[|p| - 1] == '.' then Some(|p| - 1)
    else LastDot(p[..|p| - 1], lo)
  }

  /**
   * `os.path.splitext(p)[1]`: from the last "." of the final component,
   * unless everything before that dot in the component is dots too.
   */
  function Ext(p: string): (r: string)
    ensures r == "" || (|r| <= |p| && r == p[|p| - |r|..] && r[0] == '.' && NameStart(p) < |p| - |r|)
    ensures forall k :: |p| - |r| < k < |p| ==> p[k] != '.'
  {
    var start := NameStart(p);
    match LastDot(p, start)
    case None => ""
    case Some(d) => if exists k :: start <= k < d && p[k] != '.' then p[d..] else ""
  }

  /** One name `os.listdir` returns and whether `os.path.isfile` holds for it. */
  datatype DirEntry = DirEntry(name: string, isFile: bool)

  /** `os.path.join(path, name)` for a relative name without a drive. */
  function JoinPath(path: string, name: string): string {
    if path == [] || IsSep(path[|path| - 1]) then path + name else path + "\\" + name
  }

  /** The filter of `find_packages`: a regular file with a lower-cased ".msu" or ".cab" extension. */
  predicate IsPackage(e: DirEntry) {
    e.isFile && Lower(Ext(e.name)) in {".msu", ".cab"}
  }

  /** The decision the loop of `find_packages` takes for each entry: its full path, or nothing. */
  function Decisions(path: string, entries: seq<DirEntry>): (r: seq<Option<string>>)
    ensures |r| == |entries|
    ensures forall i :: 0 <= i < |entries| ==>
              r[i] == if IsPackage(entries[i]) then Some(JoinPath(path, entries[i].name)) else None
  {
    seq(|entries|, i requires 0 <= i < |entries| =>
      if IsPackage(entries[i]) then Some(JoinPath(path, entries[i].name)) else None)
  }

  /** The full paths the loop of `find_packages` appends, in listing order. */
  function Packages(path: string, entries: seq<DirEntry>): seq<string>
  {
    Somes(Decisions(path, entries))
  }

  /** A path is listed exactly when it is the joined path of some package entry. */
  lemma PackagesMember(path: string, entries: seq<DirEntry>, p: string)
    ensures p in Packages(path, entries) <==>
            exists i :: 0 <= i < |entries| && IsPackage(entries[i]) && p == JoinPath(path, entries[i].name)
  {
    var d := Decisions(path, entries);
    SomesMember(d, p);
    assert Some(p) in d <==>
           exists i :: 0 <= i < |entries| && IsPackage(entries[i]) && p == JoinPath(path, entries[i].name) by {
      if Some(p) in d {
        var i :| 0 <= i < |d| && d[i] == Some(p);
        assert IsPackage(entries[i]);
      }
      if exists i :: 0 <= i < |entries| && IsPackage(entries[i]) && p == JoinPath(path, entries[i].name) {
        var i :| 0 <= i < |entries| && IsPackage(entries[i]) && p == JoinPath(path, entries[i].name);
        assert d[i] == Some(p);
      }
    }
  }

  /** The sort key `os.path.basename(p).lower()`. */
  function SortKey(p: string): string {
    Lower(Basename(p))
  }

  /** `x` is placed before the first entry whose key is not smaller than its own. */
  function InsertByKey(x: string, ys: seq<string>): (r: seq<string>)
    ensures multiset(r) == multiset(ys) + multiset{x}
  {
    if ys == [] || !StrLt(SortKey(ys[0]), SortKey(x)) then [x] + ys
    else
      assert ys == [ys[0]] + ys[1..];
      [ys[0]] + InsertByKey(x, ys[1..])
  }

  /** `sorted(packages, key=...)`: a stable insertion sort by key. */
  function SortByKey(xs: seq<string>): (r: seq<string>)
    ensures multiset(r) == multiset(xs)
  {
    if xs == [] then []
    else
      assert xs == [xs[0]] + xs[1..];
      InsertByKey(xs[0], SortByKey(xs[1..]))
  }

  /** No later key is smaller than an earlier one. */
  predicate KeySorted(xs: seq<string>) {
    forall i, j :: 0 <= i < j < |xs| ==> !StrLt(SortKey(xs[j]), SortKey(xs[i]))
  }

  /** "Not smaller than" is transitive. */
  lemma NotLtTransitive(a: string, b: string, c: string)
    requires !StrLt(a, b) && !StrLt(b, c)
    ensures !StrLt(a, c)
  {
    if a != b && b != c {
      StrLtTotal(a, b);
      StrLtTotal(b, c);
      if StrLt(a, c) {
        StrLtTransitive(b, a, c);
        StrLtAsymmetric(b, c);
      }
    }
  }

  lemma ConsKeySorted(y: string, zs: seq<string>)
    requires KeySorted(zs) && forall z :: z in zs ==> !StrLt(SortKey(z), SortKey(y))
    ensures KeySorted([y] + zs)
  {
    var r := [y] + zs;
    forall i, j | 0 <= i < j < |r|
      ensures !StrLt(SortKey(r[j]), SortKey(r[i]))
    {
      assert r[j] == zs[j - 1];
      if i > 0 {
        assert r[i] == zs[i - 1];
      }
    }
  }

  lemma {:induction false} InsertByKeySorted(x: string, ys: seq<string>)
    requires KeySorted(ys)
    ensures KeySorted(InsertByKey(x, ys))
    decreases |ys|
  {
    if ys == [] || !StrLt(SortKey(ys[0]), SortKey(x)) {
      forall z | z in ys
        ensures !StrLt(SortKey(z), SortKey(x))
      {
        var k :| 0 <= k < |ys| && ys[k] == z;
        if k > 0 {
          NotLtTransitive(SortKey(z), SortKey(ys[0]), SortKey(x));
        }
      }
      ConsKeySorted(x, ys);
    } else {
      var rest := InsertByKey(x, ys[1..]);
      InsertByKeySorted(x, ys[1..]);
      forall z | z in rest
        ensures !StrLt(SortKey(z), SortKey(ys[0]))
      {
        assert z in multiset(rest);
        if z == x {
          StrLtAsymmetric(SortKey(ys[0]), SortKey(x));
        } else {
          assert z in ys[1..];
          var k :| 0 <= k < |ys[1..]| && ys[1..][k] == z;
          assert ys[k + 1] == z;
        }
      }
      ConsKeySorted(ys[0], rest);
    }
  }

  /** The paths of `xs` whose key is `key`, in order. */
  function WithKey(xs: seq<string>, key: string): seq<string>
  {
    if xs == [] then [] else (if SortKey(xs[0]) == key then [xs[0]] else []) + WithKey(xs[1..], key)
  }

  lemma {:induction false} InsertByKeyWithKey(x: string, ys: seq<string>, key: string)
    ensures WithKey(InsertByKey(x, ys), key) == (if SortKey(x) == key then [x] else []) + WithKey(ys, key)
    decreases |ys|
  {
    InsertByKeyUnfold(x, ys);
    if ys == [] || !StrLt(SortKey(ys[0]), SortKey(x)) {
      WithKeyCons(x, ys, key);
    } else {
      InsertByKeyWithKey(x, ys[1..], key);
      StrLtIrreflexive(SortKey(x));
      WithKeyPast(x, ys[0], ys[1..], InsertByKey(x, ys[1..]), key);
    }
  }

  /** Moving `x` past a `y` of a different key leaves each key's paths in the same order. */
  lemma WithKeyPast(x: string, y: string, tail: seq<string>, rest: seq<string>, key: string)
    requires SortKey(y) != SortKey(x)
    requires WithKey(rest, key) == (if SortKey(x) == key then [x] else []) + WithKey(tail, key)
    ensures WithKey([y] + rest, key) == (if SortKey(x) == key then [x] else []) + WithKey([y] + tail, key)
  {
    WithKeyCons(y, rest, key);
    WithKeyCons(y, tail, key);
    var w := WithKey(tail, key);
    if SortKey(x) == key {
      assert WithKey([y] + rest, key) == [x] + w && WithKey([y] + tail, key) == w;
    } else if SortKey(y) == key {
      assert WithKey([y] + rest, key) == [y] + w && WithKey([y] + tail, key) == [y] + w;
    }
  }

  lemma InsertByKeyUnfold(x: string, ys: seq<string>)
    ensures ys == [] || !StrLt(SortKey(ys[0]), SortKey(x)) ==> InsertByKey(x, ys) == [x] + ys
    ensures ys != [] && StrLt(SortKey(ys[0]), SortKey(x)) ==> InsertByKey(x, ys) == [ys[0]] + InsertByKey(x, ys[1..])
  {
  }

  lemma WithKeyCons(x: string, ys: seq<string>, key: string)
    ensures WithKey([x] + ys, key) == (if SortKey(x) == key then [x] else []) + WithKey(ys, key)
  {
    assert ([x] + ys)[1..] == ys;
  }

  /**
   * The sort orders the paths by lower-cased basename, keeps each path as
   * often as it occurs, and is stable: paths with the same key keep their
   * listing order.
   */
  lemma {:induction false} SortByKeySpec(xs: seq<string>)
    ensures KeySorted(SortByKey(xs)) && multiset(SortByKey(xs)) == multiset(xs)
    ensures forall key :: WithKey(SortByKey(xs), key) == WithKey(xs, key)
    decreases |xs|
  {
    if xs != [] {
      SortByKeySpec(xs[1..]);
      InsertByKeySorted(xs[0], SortByKey(xs[1..]));
      forall key
        ensures WithKey(SortByKey(xs), key) == WithKey(xs, key)
      {
        InsertByKeyWithKey(xs[0], SortByKey(xs[1..]), key);
      }
    }
  }

  /** `find_packages(path)` over the listing `entries`: the filtering loop, then the sort. */
  method FindPackages(path: string, entries: seq<DirEntry>) returns (packages: seq<string>)
    ensures packages == SortByKey(Packages(path, entries))
  {
    var found: seq<string> := [];
    ghost var d := Decisions(path, entries);
    for i := 0 to |entries|
      invariant found == Somes(d[..i])
    {
      assert d[..i + 1][..i] == d[..i];
      var e := entries[i];
      if !e.isFile {
        continue;
      }
      if Lower(Ext(e.name)) in {".msu", ".cab"} {
        found := found + [JoinPath(path, e.name)];
      }
    }
    assert d[..|entries|] == d;
    packages := SortByKey(found);
  }

  /** The number of consecutive digits of `s` from `k`. */
  function DigitRun(s: string, k: nat): (n: nat)
    requires k <= |s|
    ensures k + n <= |s| && AllDigits(s[k..k + n]) && (k + n == |s| || !IsDigit(s[k + n]))
    decreases |s| - k
  {
    if k == |s| || !IsDigit(s[k]) then 0
    else
      var n := DigitRun(s, k + 1);
      assert s[k..k + 1 + n] == [s[k]] + s[k + 1..k + 1 + n];
      1 + n
  }

  /** The number of digits `(KB\d{4,8})` takes when it matches at `i`, ignoring case. */
  function KbMatchAt(s: string, i: nat): (r: Option<nat>)
    ensures r.Some? ==> 4 <= r.value <= 8 && i + 2 + r.value <= |s|
  {
    if i + 2 <= |s| && SameLetter(s[i], 'K') && SameLetter(s[i + 1], 'B') then
      var d := DigitRun(s, i + 2);
      if d >= 4 then Some(if d > 8 then 8 else d) else None
    else None
  }

  /** `re.search`: the leftmost position at or after `from` where the KB pattern matches. */
  function FindKb(s: string, from: nat): (r: Option<nat>)
    ensures r.Some? ==> from <= r.value && KbMatchAt(s, r.value).Some?
    ensures forall i: nat :: from <= i && (r.None? || i < r.value) ==> KbMatchAt(s, i).None?
    decreases |s| - from
  {
    if from >= |s| then None
    else if KbMatchAt(s, from).Some? then Some(from)
    else FindKb(s, from + 1)
  }

  /**
   * `extract_kb_label(filename)`: the file name itself when it names no KB,
   * else a label of six to ten characters with no lower-case ASCII letter.
   */
  function ExtractKbLabel(filename: string): (r: string)
    ensures FindKb(filename, 0).None? ==> r == filename
    ensures FindKb(filename, 0).Some? ==> 6 <= |r| <= 10 && forall k :: 0 <= k < |r| ==> !IsAsciiLower(r[k])
  {
    match FindKb(filename, 0)
    case None => filename
    case Some(i) => Upper(filename[i..i + 2 + KbMatchAt(filename, i).value])
  }

  /** A match at `i` taking `n` digits is "KB" in either case and its digits, as many as follow up to 8. */
  lemma KbMatchShape(s: string, i: nat, n: nat)
    requires KbMatchAt(s, i) == Some(n)
    ensures i + 2 + n <= |s| && SameLetter(s[i], 'K') && SameLetter(s[i + 1], 'B')
    ensures AllDigits(s[i + 2..i + 2 + n])
    ensures n < 8 ==> i + 2 + n == |s| || !IsDigit(s[i + 2 + n])
  {
    var d := DigitRun(s, i + 2);
    assert s[i + 2..i + 2 + n] == s[i + 2..i + 2 + d][..n];
  }

  /** The label of a match at `i` taking `n` digits is "KB" followed by those digits. */
  lemma KbLabelShape(s: string, i: nat, n: nat)
    requires KbMatchAt(s, i) == Some(n)
    ensures Upper(s[i..i + 2 + n]) == "KB" + s[i + 2..i + 2 + n]
  {
    KbMatchShape(s, i, n);
    var m := s[i..i + 2 + n];
    var r := Upper(m);
    forall k | 2 <= k < |r|
      ensures r[k] == m[k]
    {
      assert m[k] == s[i + 2..i + 2 + n][k - 2];
    }
    assert r[2..] == s[i + 2..i + 2 + n];
    assert r[..2] == "KB";
    assert r == r[..2] + r[2..];
  }

  /** Without a match the label is the file name itself. */
  lemma ExtractKbLabelNone(filename: string)
    requires FindKb(filename, 0).None?
    ensures ExtractKbLabel(filename) == filename
  {
  }

  /**
   * The leftmost match at `i` takes `n` digits: 4 to 8 of them, as many as
   * follow, up to 8, and no match starts before `i`.
   */
  lemma LeftmostMatch(filename: string, i: nat, n: nat)
    requires FindKb(filename, 0) == Some(i) && KbMatchAt(filename, i) == Some(n)
    ensures 4 <= n <= 8 && i + 2 + n <= |filename| && AllDigits(filename[i + 2..i + 2 + n])
    ensures n < 8 ==> i + 2 + n == |filename| || !IsDigit(filename[i + 2 + n])
    ensures forall k: nat :: k < i ==> KbMatchAt(filename, k).None?
  {
    KbMatchShape(filename, i, n);
  }

  /** With the leftmost match at `i` taking `n` digits, the label is "KB" followed by those digits. */
  lemma ExtractKbLabelFound(filename: string, i: nat, n: nat)
    requires FindKb(filename, 0) == Some(i) && KbMatchAt(filename, i) == Some(n)
    ensures ExtractKbLabel(filename) == "KB" + filename[i + 2..i + 2 + n]
  {
    KbLabelShape(filename, i, n);
  }

  /** What the prompt handling of `main` makes of the typed line. */
  datatype SelectionOutcome = InvalidSelection | OutOfRange | Selected(index: nat)

  /** `raw.strip()`, `raw.isdigit()`, `int(raw)` and the range check against `count` packages. */
  function ParseSelection(raw: string, count: nat): (r: SelectionOutcome)
    ensures r == InvalidSelection <==> Strip(raw) == "" || !AllDigits(Strip(raw))
    ensures r.Selected? ==> r.index < count && DecimalValue(Strip(raw)) == r.index + 1
    ensures r == OutOfRange <==>
              Strip(raw) != "" && AllDigits(Strip(raw)) && !(1 <= DecimalValue(Strip(raw)) <= count)
  {
    var s := Strip(raw);
    if s == "" || !AllDigits(s) then InvalidSelection
    else
      var idx := DecimalValue(s);
      if idx < 1 || idx > count then OutOfRange else Selected(idx - 1)
  }

  /** Every package number the menu prints selects that package. */
  lemma MenuNumbersSelect(count: nat, n: nat)
    requires 1 <= n <= count
    ensures ParseSelection(NatToString(n), count) == Selected(n - 1)
  {
    var s := NatToString(n);
    DecimalRoundTrip(n);
    StripDigits(s);
  }

  /** Stripping leaves a string of digits alone. */
  lemma StripDigits(s: string)
    requires s != [] && AllDigits(s)
    ensures Strip(s) == s
  {
    assert IsDigit(s[0]) && IsDigit(s[|s| - 1]);
    StripNoSpaceEnds(s);
  }

  /** The file's extension is ".msu" in any case. */
  predicate IsMsu(p: string) {
    Lower(Ext(p)) == ".msu"
  }

  /**
   * The installer command for the chosen package: `wusa.exe` with the path
   * for an .msu file in any case, otherwise DISM with a `/packagepath:`
   * argument; both quiet and without a restart.
   */
  function InstallerArgv(chosen: string): (argv: seq<string>)
    ensures 4 <= |argv| && argv[|argv| - 2..] == ["/quiet", "/norestart"]
    ensures argv[0] == "wusa.exe" <==> IsMsu(chosen)
    ensures argv[0] == "wusa.exe" ==> |argv| == 4 && argv[1] == chosen
    ensures argv[0] != "wusa.exe" ==>
              argv[..3] == ["dism.exe", "/online", "/add-package"] && argv[3] == "/packagepath:" + chosen
  {
    if IsMsu(chosen) then ["wusa.exe", chosen, "/quiet", "/norestart"]
    else ["dism.exe", "/online", "/add-package", "/packagepath:" + chosen, "/quiet", "/norestart"]
  }

  /** `0 if code in (0, 3010) else 1`: success, or success pending a restart. */
  function ExitStatus(code: int): (r: int)
    ensures r == 0 <==> code == 0 || code == 3010
    ensures r in {0, 1}
  {
    if code == 0 || code == 3010 then 0 else 1
  }

  /** What `main` does before the installer runs: stop with an exit status, or run a command. */
  datatype Plan = Stop(status: int) | Run(kbLabel: string, argv: seq<string>)

  /**
   * The plan of `main`: it exits 0 only when there is nothing to install, 1
   * on every other stop, and runs the installer only as administrator with
   * a package to choose from.
   */
  function MainPlan(isAdmin: bool, packages: seq<string>, raw: string): (p: Plan)
    ensures p.Stop? ==> p.status in {0, 1} && (p.status == 0 <==> isAdmin && packages == [])
    ensures p.Run? ==> isAdmin && packages != [] && 4 <= |p.argv| && p.argv[|p.argv| - 2..] == ["/quiet", "/norestart"]
  {
    if !isAdmin then Stop(1)
    else if packages == [] then Stop(0)
    else match ParseSelection(raw, |packages|)
      case InvalidSelection => Stop(1)
      case OutOfRange => Stop(1)
      case Selected(i) =>
        var chosen := packages[i];
        Run(ExtractKbLabel(Basename(chosen)), InstallerArgv(chosen))
  }

  /**
   * Without administrator rights `main` stops with 1 before anything else;
   * with no packages it stops with 0; a bad selection stops with 1; a good
   * one runs the installer for package `n` (counted from 1).
   */
  lemma MainPlanSpec(isAdmin: bool, packages: seq<string>, raw: string)
    ensures !isAdmin ==> MainPlan(isAdmin, packages, raw) == Stop(1)
    ensures isAdmin && packages == [] ==> MainPlan(isAdmin, packages, raw) == Stop(0)
    ensures MainPlan(isAdmin, packages, raw).Run? <==>
              isAdmin && packages != [] && ParseSelection(raw, |packages|).Selected?
    ensures MainPlan(isAdmin, packages, raw).Run? ==>
              var i := ParseSelection(raw, |packages|).index;
              MainPlan(isAdmin, packages, raw).argv == InstallerArgv(packages[i])
              && MainPlan(isAdmin, packages, raw).kbLabel == ExtractKbLabel(Basename(packages[i]))
  {
  }
}
