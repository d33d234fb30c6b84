/**
 * The bundle-size check, with file reading and console output stripped: a
 * decision over the `assets` and `modules` records of the bundler's stats
 * that yields per-asset statuses, the total size, the bundle verdict, the
 * largest modules and the process exit code.
 */
module BundleSize {
  import opened Js

  const KIB: nat := 1024
  const MAX_BUNDLE_SIZE: nat := 500 * KIB
  const MAX_ASSET_SIZE: nat := 250 * KIB
  /** `MAX_ASSET_SIZE * 0.8`; the double product is exactly this integer. */
  const ASSET_WARNING_SIZE: nat := MAX_ASSET_SIZE * 8 / 10
  /** `MAX_BUNDLE_SIZE * 0.8`; the double product is exactly this integer. */
  const BUNDLE_WARNING_SIZE: nat := MAX_BUNDLE_SIZE * 8 / 10
  const LARGE_MODULE_SIZE: nat := 50 * KIB
  const LARGEST_MODULES_SHOWN: nat := 5
  const MODULE_NAME_WIDTH: nat := 60
  const UNKNOWN_MODULE: string := "unknown"

  datatype Asset = Asset(name: string, size: nat)

  /** A module record; `name` and `identifier` may be absent. */
  datatype ModuleEntry = ModuleEntry(name: Option<string>, identifier: Option<string>, size: nat)

  /** A stats property that should hold an array: absent (or falsy), present but not an array, or an array. */
  datatype Listing<T> = Missing | NotAnArray | Items(items: seq<T>)

  datatype Stats = Stats(assets: Listing<Asset>, modules: Listing<ModuleEntry>)

  /** The mark printed beside an asset. */
  datatype AssetStatus = Within | Warning | TooLarge

  /** The message printed for the whole bundle. */
  datatype Verdict = BundleWithin | BundleApproaching | BundleExceeds

  /** What happened to the "largest modules" listing. */
  datatype Ranking =
    | NotReached
    | NoModules
    | Ranked(modules: seq<ModuleEntry>, labels: seq<string>)

  datatype Analysis = Analysis(statuses: seq<AssetStatus>, totalSize: nat, verdict: Verdict, ranking: Ranking)

  /** The outcome of a run: the exit code and, when the stats file exists, what was analysed. */
  datatype Report = Report(exitCode: nat, analysis: Option<Analysis>)

  // ------------------------------------------------------------ assets

  /** The sum of the sizes of `assets`. */
  function TotalSize(assets: seq<Asset>): nat {
    if assets == [] then 0 else assets[0].size + TotalSize(assets[1..])
  }

  lemma {:induction false} TotalSizeAppend(assets: seq<Asset>, a: Asset)
    ensures TotalSize(assets + [a]) == TotalSize(assets) + a.size
  {
    if assets == [] {
      assert [] + [a] == [a];
    } else {
      assert (assets + [a])[1..] == assets[1..] + [a];
      TotalSizeAppend(assets[1..], a);
    }
  }

  /** No asset is larger than the whole bundle, so one asset above the bundle limit makes the bundle exceed it. */
  lemma {:induction false} AssetWithinTotal(assets: seq<Asset>, k: nat)
    requires k < |assets|
    ensures assets[k].size <= TotalSize(assets)
    ensures assets[k].size > MAX_BUNDLE_SIZE ==> VerdictOf(TotalSize(assets)) == BundleExceeds
  {
    if k > 0 {
      AssetWithinTotal(assets[1..], k - 1);
      assert assets[1..][k - 1] == assets[k];
    }
  }

  /** Some asset is above the per-asset limit. */
  predicate AnyOversized(assets: seq<Asset>) {
    exists k | 0 <= k < |assets| :: assets[k].size > MAX_ASSET_SIZE
  }

  /** The status an asset of this size is given. */
  function AssetStatusOf(size: nat): (st: AssetStatus)
    ensures st == TooLarge <==> size > MAX_ASSET_SIZE
    ensures st == Warning <==> ASSET_WARNING_SIZE < size <= MAX_ASSET_SIZE
    ensures st == Within <==> size <= ASSET_WARNING_SIZE
  {
    if size > MAX_ASSET_SIZE then TooLarge
    else if size > ASSET_WARNING_SIZE then Warning
    else Within
  }

  /**
   * The pass over the assets array: accumulates the total size and the error
   * flag and assigns each asset its status.
   */
  method AnalyzeAssets(assets: seq<Asset>) returns (totalSize: nat, hasError: bool, statuses: seq<AssetStatus>)
    ensures totalSize == TotalSize(assets)
    ensures hasError == AnyOversized(assets)
    ensures |statuses| == |assets|
    ensures forall k | 0 <= k < |assets| :: statuses[k] == AssetStatusOf(assets[k].size)
  {
    totalSize, hasError, statuses := 0, false, [];
    var i := 0;
    while i < |assets|
      invariant 0 <= i <= |assets|
      invariant totalSize == TotalSize(assets[..i])
      invariant hasError == AnyOversized(assets[..i])
      invariant |statuses| == i
      invariant forall k | 0 <= k < i :: statuses[k] == AssetStatusOf(assets[k].size)
    {
      var size := assets[i].size;
      totalSize := totalSize + size;
      var status := Within;
      if size > MAX_ASSET_SIZE {
        status := TooLarge;
        hasError := true;
      } else if size > ASSET_WARNING_SIZE {
        status := Warning;
      }
      statuses := statuses + [status];
      assert assets[..i + 1] == assets[..i] + [assets[i]];
      TotalSizeAppend(assets[..i], assets[i]);
      i := i + 1;
    }
    assert assets[..i] == assets;
  }

  /** The error flag is set exactly when some asset is marked too large. */
  lemma ErrorFlagIffTooLargeStatus(assets: seq<Asset>)
    ensures AnyOversized(assets) <==> exists k | 0 <= k < |assets| :: AssetStatusOf(assets[k].size) == TooLarge
  {
  }

  // ------------------------------------------------------------ bundle

  /** The verdict for a bundle of this total size. */
  function VerdictOf(totalSize: nat): (v: Verdict)
    ensures v == BundleExceeds <==> totalSize > MAX_BUNDLE_SIZE
    ensures v == BundleApproaching <==> BUNDLE_WARNING_SIZE < totalSize <= MAX_BUNDLE_SIZE
    ensures v == BundleWithin <==> totalSize <= BUNDLE_WARNING_SIZE
  {
    if totalSize > MAX_BUNDLE_SIZE then BundleExceeds
    else if totalSize > BUNDLE_WARNING_SIZE then BundleApproaching
    else BundleWithin
  }

  // ------------------------------------------------------------ modules

  /** What the filter keeps of one entry. */
  function Kept(m: ModuleEntry): seq<ModuleEntry> {
    if m.size > LARGE_MODULE_SIZE then [m] else []
  }

  /** The modules above 50 KiB, in their original order. */
  function LargeModules(ms: seq<ModuleEntry>): (r: seq<ModuleEntry>)
    ensures forall k | 0 <= k < |r| :: r[k].size > LARGE_MODULE_SIZE
    ensures forall m :: multiset(r)[m] == if m.size > LARGE_MODULE_SIZE then multiset(ms)[m] else 0
  {
    if ms == [] then []
    else
      assert ms == [ms[0]] + ms[1..];
      Kept(ms[0]) + LargeModules(ms[1..])
  }

  /** `filter` keeps the input order: the large modules of `a + b` are those of `a` followed by those of `b`. */
  lemma {:induction false} LargeModulesAppend(a: seq<ModuleEntry>, b: seq<ModuleEntry>)
    ensures LargeModules(a + b) == LargeModules(a) + LargeModules(b)
  {
    if a == [] {
      assert a + b == b;
    } else {
      var head := Kept(a[0]);
      assert (a + b)[0] == a[0] && (a + b)[1..] == a[1..] + b;
      LargeModulesAppend(a[1..], b);
      LargeModulesStep(a + b);
      LargeModulesStep(a);
      ConcatAssoc(head, LargeModules(a[1..]), LargeModules(b));
    }
  }

  /** One step of the filter: the first entry is kept or dropped on its own. */
  lemma LargeModulesStep(s: seq<ModuleEntry>)
    requires s != []
    ensures LargeModules(s) == Kept(s[0]) + LargeModules(s[1..])
  {
  }

  /** Concatenation is associative. */
  lemma ConcatAssoc<T>(x: seq<T>, y: seq<T>, z: seq<T>)
    ensures x + (y + z) == (x + y) + z
  {
  }

  predicate SortedBySizeDesc(s: seq<ModuleEntry>) {
    forall i, j | 0 <= i < j < |s| :: s[i].size >= s[j].size
  }

  /** No entry of `s` is larger than `size`. */
  predicate AtMost(s: seq<ModuleEntry>, size: nat) {
    forall k | 0 <= k < |s| :: s[k].size <= size
  }

  lemma PrependSorted(x: ModuleEntry, s: seq<ModuleEntry>)
    requires SortedBySizeDesc(s) && AtMost(s, x.size)
    ensures SortedBySizeDesc([x] + s)
  {
    var t := [x] + s;
    forall i, j | 0 <= i < j < |t| ensures t[i].size >= t[j].size {
      assert t[j] == s[j - 1];
      if i > 0 {
        assert t[i] == s[i - 1];
      }
    }
  }

  /** Inserts `m` before the first entry that is not larger than it. */
  function InsertBySize(m: ModuleEntry, s: seq<ModuleEntry>): (r: seq<ModuleEntry>)
    requires SortedBySizeDesc(s)
    ensures SortedBySizeDesc(r)
    ensures multiset(r) == multiset(s) + multiset{m}
    ensures forall size: nat | AtMost(s, size) && m.size <= size :: AtMost(r, size)
  {
    if s == [] || m.size >= s[0].size then
      PrependSorted(m, s);
      [m] + s
    else
      var rest := InsertBySize(m, s[1..]);
      InsertStep(m, s, rest);
      [s[0]] + rest
  }

  /** Putting the head of `s` in front of `m` inserted into the tail keeps the order, the contents and the bounds. */
  lemma InsertStep(m: ModuleEntry, s: seq<ModuleEntry>, rest: seq<ModuleEntry>)
    requires SortedBySizeDesc(s) && s != [] && m.size < s[0].size
    requires SortedBySizeDesc(rest) && multiset(rest) == multiset(s[1..]) + multiset{m}
    requires forall size: nat | AtMost(s[1..], size) && m.size <= size :: AtMost(rest, size)
    ensures SortedBySizeDesc([s[0]] + rest)
    ensures multiset([s[0]] + rest) == multiset(s) + multiset{m}
    ensures forall size: nat | AtMost(s, size) && m.size <= size :: AtMost([s[0]] + rest, size)
  {
    assert s == [s[0]] + s[1..];
    assert AtMost(s[1..], s[0].size);
    PrependSorted(s[0], rest);
    forall size: nat | AtMost(s, size) && m.size <= size ensures AtMost([s[0]] + rest, size) {
      assert AtMost(s[1..], size);
      assert AtMost(rest, size);
    }
  }

  /** `sort((a, b) => b.size - a.size)`: a stable sort by decreasing size. */
  function SortBySizeDesc(s: seq<ModuleEntry>): (r: seq<ModuleEntry>)
    ensures SortedBySizeDesc(r)
    ensures multiset(r) == multiset(s)
  {
    if s == [] then []
    else
      assert s == [s[0]] + s[1..];
      InsertBySize(s[0], SortBySizeDesc(s[1..]))
  }

  lemma LargeModulesSubset(ms: seq<ModuleEntry>)
    ensures multiset(LargeModules(ms)) <= multiset(ms)
  {
    var large := LargeModules(ms);
    forall m ensures multiset(large)[m] <= multiset(ms)[m] {
    }
  }

  /** Entries drawn from a list of large modules are large. */
  lemma LargeOfSubset(s: seq<ModuleEntry>, t: seq<ModuleEntry>)
    requires multiset(s) <= multiset(t)
    requires forall k | 0 <= k < |t| :: t[k].size > LARGE_MODULE_SIZE
    ensures forall k | 0 <= k < |s| :: s[k].size > LARGE_MODULE_SIZE
  {
    forall k | 0 <= k < |s| ensures s[k].size > LARGE_MODULE_SIZE {
      assert s[k] in multiset(s);
      assert s[k] in t;
    }
  }

  /** The first `n` entries of `s`, or all of them when there are fewer. */
  function Take(s: seq<ModuleEntry>, n: nat): (r: seq<ModuleEntry>)
    ensures |r| == if |s| <= n then |s| else n
    ensures s == r + s[|r|..]
  {
    if |s| <= n then s else s[..n]
  }

  lemma TakeSorted(s: seq<ModuleEntry>, n: nat)
    requires SortedBySizeDesc(s)
    ensures SortedBySizeDesc(Take(s, n))
    ensures multiset(Take(s, n)) <= multiset(s)
    ensures forall k | 0 <= k < |Take(s, n)| :: Take(s, n)[k] == s[k]
  {
    var r := Take(s, n);
    assert s == r + s[|r|..];
  }

  /** The `filter`, `sort` and `slice(0, 5)` chain. */
  function LargestModules(ms: seq<ModuleEntry>): (r: seq<ModuleEntry>)
    ensures |r| <= LARGEST_MODULES_SHOWN
    ensures forall k | 0 <= k < |r| :: r[k].size > LARGE_MODULE_SIZE
    ensures SortedBySizeDesc(r)
    ensures multiset(r) <= multiset(ms)
  {
    var large := LargeModules(ms);
    var sorted := SortBySizeDesc(large);
    TakeSorted(sorted, LARGEST_MODULES_SHOWN);
    LargeModulesSubset(ms);
    var r := Take(sorted, LARGEST_MODULES_SHOWN);
    LargeOfSubset(r, large);
    r
  }

  /**
   * The listing holds as many large modules as there are, up to five, and no
   * large module left out is larger than any listed one.
   */
  lemma LargestModulesAreTheLargest(ms: seq<ModuleEntry>)
    ensures var r := LargestModules(ms);
      && |r| == (if |LargeModules(ms)| <= LARGEST_MODULES_SHOWN then |LargeModules(ms)| else LARGEST_MODULES_SHOWN)
      && forall m | m in multiset(LargeModules(ms)) - multiset(r) :: forall k | 0 <= k < |r| :: m.size <= r[k].size
  {
    var large := LargeModules(ms);
    var sorted := SortBySizeDesc(large);
    assert |sorted| == |large| by {
      assert |multiset(sorted)| == |multiset(large)|;
    }
    TakeLeavesTheSmaller(sorted, LARGEST_MODULES_SHOWN);
  }

  /** Whatever a prefix of a sorted list leaves out is no larger than what it keeps. */
  lemma TakeLeavesTheSmaller(s: seq<ModuleEntry>, n: nat)
    requires SortedBySizeDesc(s)
    ensures forall m | m in multiset(s) - multiset(Take(s, n)) :: forall k | 0 <= k < |Take(s, n)| :: m.size <= Take(s, n)[k].size
  {
    var r := Take(s, n);
    var rest := s[|r|..];
    assert s == r + rest;
    assert multiset(s) == multiset(r) + multiset(rest);
    forall m | m in multiset(s) - multiset(r)
      ensures forall k | 0 <= k < |r| :: m.size <= r[k].size
    {
      assert m in rest;
      var idx :| 0 <= idx < |rest| && rest[idx] == m;
      forall k | 0 <= k < |r| ensures m.size <= r[k].size {
        assert r[k] == s[k] && m == s[|r| + idx];
      }
    }
  }

  /** A module record is labelled by its name, else its identifier, else "unknown"; an empty string counts as absent. */
  function LabelSource(m: ModuleEntry): string {
    if m.name.Some? && m.name.value != [] then m.name.value
    else if m.identifier.Some? && m.identifier.value != [] then m.identifier.value
    else UNKNOWN_MODULE
  }

  /** The label printed for a module: its label source cut to 60 characters. */
  function DisplayName(m: ModuleEntry): (r: string)
    ensures |r| <= MODULE_NAME_WIDTH
    ensures |r| == if |LabelSource(m)| <= MODULE_NAME_WIDTH then |LabelSource(m)| else MODULE_NAME_WIDTH
    ensures r == LabelSource(m)[..|r|]
    ensures r != []
  {
    var s := LabelSource(m);
    if |s| <= MODULE_NAME_WIDTH then s else s[..MODULE_NAME_WIDTH]
  }

  /** Which field the label comes from. */
  lemma DisplayNameSource(m: ModuleEntry)
    ensures m.name.Some? && m.name.value != [] ==> LabelSource(m) == m.name.value
    ensures (m.name.None? || m.name.value == []) && m.identifier.Some? && m.identifier.value != [] ==>
      LabelSource(m) == m.identifier.value
    ensures (m.name.None? || m.name.value == []) && (m.identifier.None? || m.identifier.value == []) ==>
      DisplayName(m) == UNKNOWN_MODULE
  {
  }

  // ------------------------------------------------------------ the run

  function ListedItems<T>(l: Listing<T>): seq<T> {
    if l.Items? then l.items else []
  }

  /** The labels of the listed modules, in order. */
  function Labels(ms: seq<ModuleEntry>): (r: seq<string>)
    ensures |r| == |ms|
    ensures forall k | 0 <= k < |ms| :: r[k] == DisplayName(ms[k])
  {
    if ms == [] then [] else [DisplayName(ms[0])] + Labels(ms[1..])
  }

  /**
   * The whole check. Without a stats file it exits with 0 and analyses
   * nothing. Otherwise it exits with 1 exactly when the bundle exceeds its
   * limit or some asset exceeds the per-asset limit, and an exceeding bundle
   * stops before the module ranking.
   */
  method CheckBundleSize(stats: Option<Stats>) returns (report: Report)
    ensures stats.None? ==> report == Report(0, None)
    ensures stats.Some? ==> report.analysis.Some?
    ensures stats.Some? ==>
      var assets, a := ListedItems(stats.value.assets), report.analysis.value;
      && a.totalSize == TotalSize(assets)
      && |a.statuses| == |assets|
      && (forall k | 0 <= k < |assets| :: a.statuses[k] == AssetStatusOf(assets[k].size))
      && a.verdict == VerdictOf(a.totalSize)
      && (a.verdict == BundleExceeds ==> a.ranking == NotReached)
      && (a.verdict != BundleExceeds && !stats.value.modules.Items? ==> a.ranking == NoModules)
      && (a.verdict != BundleExceeds && stats.value.modules.Items? ==>
            a.ranking == Ranked(LargestModules(stats.value.modules.items), Labels(LargestModules(stats.value.modules.items))))
    ensures report.exitCode == 0 || report.exitCode == 1
    ensures report.exitCode == 1 <==>
      stats.Some? &&
      (TotalSize(ListedItems(stats.value.assets)) > MAX_BUNDLE_SIZE || AnyOversized(ListedItems(stats.value.assets)))
  {
    if stats.None? {
      return Report(0, None);
    }
    var s := stats.value;
    var totalSize, hasError, statuses := 0, false, [];
    if s.assets.Items? {
      totalSize, hasError, statuses := AnalyzeAssets(s.assets.items);
    }
    var verdict := VerdictOf(totalSize);
    if verdict == BundleExceeds {
      return Report(1, Some(Analysis(statuses, totalSize, verdict, NotReached)));
    }
    var ranking := NoModules;
    if s.modules.Items? {
      var largest := LargestModules(s.modules.items);
      ranking := Ranked(largest, Labels(largest));
    }
    report := Report(if hasError then 1 else 0, Some(Analysis(statuses, totalSize, verdict, ranking)));
  }
}
