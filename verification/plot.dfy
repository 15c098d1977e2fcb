/**
 * logic/visualize/plot.go: which entries a bar chart shows, in which order,
 * and the names of an archive's three chart files. Drawing and saving the
 * chart are not part of this model.
 */
module Plot {
  import opened Wrappers
  import opened GoStrings
  import opened StatsTypes

  /** One bar: a key and its count. */
  datatype KV = KV(key: string, value: int)

  /** The order handed to sort.Slice: higher count first, equal counts by key ascending. */
  predicate RankBefore(a: KV, b: KV)
  {
    if a.value == b.value then LexLess(a.key, b.key) else a.value > b.value
  }

  /** Every entry comes strictly before every later one. */
  predicate Ranked(ss: seq<KV>)
  {
    forall i, j :: 0 <= i < j < |ss| ==> RankBefore(ss[i], ss[j])
  }

  predicate DistinctKeys(ss: seq<KV>)
  {
    forall i, j :: 0 <= i < j < |ss| ==> ss[i].key != ss[j].key
  }

  /** Two entries with different keys are ordered one way. */
  lemma RankTotal(a: KV, b: KV)
    requires a.key != b.key
    ensures RankBefore(a, b) || RankBefore(b, a)
  {
    if a.value == b.value {
      LexLessTotal(a.key, b.key);
    }
  }

  /** No two entries are ordered both ways, and no entry comes before itself. */
  lemma RankAsymmetric(a: KV, b: KV)
    ensures !(RankBefore(a, b) && RankBefore(b, a))
  {
    if a.value == b.value && LexLess(a.key, b.key) && LexLess(b.key, a.key) {
      LexLessTransitive(a.key, b.key, a.key);
      LexLessIrreflexive(a.key);
    }
  }

  lemma RankTransitive(a: KV, b: KV, c: KV)
    requires RankBefore(a, b) && RankBefore(b, c)
    ensures RankBefore(a, c)
  {
    if a.value == b.value == c.value {
      LexLessTransitive(a.key, b.key, c.key);
    }
  }

  /** `x` placed into the ranked `ss`. */
  function Insert(x: KV, ss: seq<KV>): (r: seq<KV>)
    ensures multiset(r) == multiset(ss) + multiset{x}
    decreases |ss|
  {
    if ss == [] then [x]
    else if RankBefore(x, ss[0]) then [x] + ss
    else
      assert ss == [ss[0]] + ss[1..];
      [ss[0]] + Insert(x, ss[1..])
  }

  lemma {:induction false} InsertRanked(x: KV, ss: seq<KV>)
    requires Ranked(ss)
    requires forall i :: 0 <= i < |ss| ==> ss[i].key != x.key
    ensures Ranked(Insert(x, ss))
    decreases |ss|
  {
    if ss != [] && RankBefore(x, ss[0]) {
      forall j | 0 < j < |ss|
        ensures RankBefore(x, ss[j])
      {
        RankTransitive(x, ss[0], ss[j]);
      }
    } else if ss != [] {
      InsertRanked(x, ss[1..]);
      RankTotal(x, ss[0]);
      var r := Insert(x, ss);
      var t := Insert(x, ss[1..]);
      assert r == [ss[0]] + t;
      forall j | 0 < j < |r|
        ensures RankBefore(ss[0], r[j])
      {
        assert r[j] == t[j - 1];
        assert t[j - 1] in multiset(ss[1..]) + multiset{x};
        if r[j] != x {
          assert r[j] in ss[1..];
        }
      }
      forall i, j | 0 <= i < j < |r|
        ensures RankBefore(r[i], r[j])
      {
        if i > 0 {
          assert r[i] == t[i - 1] && r[j] == t[j - 1];
        }
      }
    }
  }

  /** The ranking of `ss`: an insertion sort, standing for the result of sort.Slice. */
  function Rank(ss: seq<KV>): (r: seq<KV>)
    ensures multiset(r) == multiset(ss)
    decreases |ss|
  {
    if ss == [] then []
    else
      assert ss == [ss[0]] + ss[1..];
      Insert(ss[0], Rank(ss[1..]))
  }

  /** Entries with distinct keys rank into a strictly ordered permutation. */
  lemma {:induction false} RankSorts(ss: seq<KV>)
    requires DistinctKeys(ss)
    ensures Ranked(Rank(ss)) && multiset(Rank(ss)) == multiset(ss)
    decreases |ss|
  {
    if ss != [] {
      var rest := Rank(ss[1..]);
      RankSorts(ss[1..]);
      forall i | 0 <= i < |rest|
        ensures rest[i].key != ss[0].key
      {
        assert rest[i] in multiset(ss[1..]);
        var j :| 0 <= j < |ss[1..]| && ss[1..][j] == rest[i];
        assert ss[j + 1] == rest[i];
      }
      InsertRanked(ss[0], rest);
    }
  }

  /**
   * A strictly ordered arrangement is unique: sort.Slice is not stable,
   * but under this order every arrangement of the same entries sorts the
   * same way, so the chart does not depend on the map's iteration order.
   */
  lemma {:induction false} RankedUnique(a: seq<KV>, b: seq<KV>)
    requires Ranked(a) && Ranked(b) && multiset(a) == multiset(b)
    ensures a == b
    decreases |a|
  {
    assert |a| == |multiset(a)| == |b|;
    if a != [] {
      SameHead(a, b);
      RankedTail(a);
      RankedTail(b);
      assert multiset(a[1..]) == multiset(a) - multiset{a[0]} by {
        assert a == [a[0]] + a[1..];
      }
      assert multiset(b[1..]) == multiset(b) - multiset{b[0]} by {
        assert b == [b[0]] + b[1..];
      }
      RankedUnique(a[1..], b[1..]);
      assert a == [a[0]] + a[1..] && b == [b[0]] + b[1..];
    }
  }

  /** The first entries of two rankings of the same entries agree. */
  lemma SameHead(a: seq<KV>, b: seq<KV>)
    requires Ranked(a) && Ranked(b) && multiset(a) == multiset(b) && a != [] && b != []
    ensures a[0] == b[0]
  {
    assert a[0] in multiset(b) && b[0] in multiset(a);
    if a[0] != b[0] {
      var i :| 0 <= i < |a| && a[i] == b[0];
      var j :| 0 <= j < |b| && b[j] == a[0];
      RankAsymmetric(a[0], b[0]);
      assert false;
    }
  }

  lemma RankedTail(a: seq<KV>)
    requires Ranked(a) && a != []
    ensures Ranked(a[1..])
  {
    forall i, j | 0 <= i < j < |a| - 1
      ensures RankBefore(a[1..][i], a[1..][j])
    {
      assert a[1..][i] == a[i + 1] && a[1..][j] == a[j + 1];
    }
  }

  /** A chart's labels and bar heights, position by position. */
  datatype Chart = Chart(labels: seq<string>, bars: seq<int>)

  /**
   * What the chart of `stats` shows for `topN`: the `topN` best-ranked
   * entries (all of them when there are fewer), each label with its own
   * count, distinct and in rank order, and every entry left out ranks
   * below every entry shown.
   */
  predicate ShowsTop(stats: map<string, Info>, topN: nat, c: Chart)
  {
    && |c.labels| == |c.bars| == (if topN < |stats| then topN else |stats|)
    && (forall i :: 0 <= i < |c.labels| ==> c.labels[i] in stats && c.bars[i] == stats[c.labels[i]].count)
    && (forall i, j :: 0 <= i < j < |c.labels| ==> c.labels[i] != c.labels[j])
    && (forall i, j :: 0 <= i < j < |c.labels| ==> RankBefore(KV(c.labels[i], c.bars[i]), KV(c.labels[j], c.bars[j])))
    && (forall k, i :: k in stats && k !in c.labels && 0 <= i < |c.labels| ==>
          RankBefore(KV(c.labels[i], c.bars[i]), KV(k, stats[k].count)))
  }

  /**
   * PlotStats, up to drawing: no chart for an empty collection, otherwise
   * a chart showing the top `topN` entries. `stats` is visited in an
   * arbitrary order, as Go iterates a map.
   */
  method PlotStats(stats: map<string, Info>, topN: int) returns (chart: Option<Chart>)
    requires topN >= 0
    ensures chart.None? <==> |stats| == 0
    ensures chart.Some? ==> ShowsTop(stats, topN, chart.value)
  {
    if |stats| == 0 {
      return None;
    }

    var ss := CollectEntries(stats);
    ghost var collected := ss;
    ss := SortEntries(ss);
    SameEntries(collected, ss);
    ghost var full := ss;

    var n := topN;
    if n > |ss| {
      n := |ss|;
    }
    ss := ss[..n];

    var labels, bars := Bars(ss);
    chart := Some(Chart(labels, bars));
    TopEntries(stats, full, topN, chart.value);
  }

  /** The first entries of a ranking of all of `stats`, laid out as labels and bars, show the top of `stats`. */
  lemma TopEntries(stats: map<string, Info>, full: seq<KV>, topN: nat, c: Chart)
    requires Ranked(full) && |full| == |stats|
    requires forall i :: 0 <= i < |full| ==> full[i].key in stats && full[i].value == stats[full[i].key].count
    requires forall k :: k in stats ==> KV(k, stats[k].count) in full
    requires |c.labels| == |c.bars| == (if topN < |stats| then topN else |stats|)
    requires forall i :: 0 <= i < |c.labels| ==> c.labels[i] == full[i].key && c.bars[i] == full[i].value
    ensures ShowsTop(stats, topN, c)
  {
    var n := |c.labels|;
    forall i, j | 0 <= i < j < n
      ensures c.labels[i] != c.labels[j]
    {
      assert RankBefore(full[i], full[j]);
      LexLessIrreflexive(full[i].key);
    }
    forall i, j | 0 <= i < j < n
      ensures RankBefore(KV(c.labels[i], c.bars[i]), KV(c.labels[j], c.bars[j]))
    {
      assert KV(c.labels[i], c.bars[i]) == full[i] && KV(c.labels[j], c.bars[j]) == full[j];
    }
    forall k, i | k in stats && k !in c.labels && 0 <= i < n
      ensures RankBefore(KV(c.labels[i], c.bars[i]), KV(k, stats[k].count))
    {
      var p :| 0 <= p < |full| && full[p] == KV(k, stats[k].count);
      assert n <= p;
      assert KV(c.labels[i], c.bars[i]) == full[i];
    }
  }

  /** The loop filling the bar and label slices from the ranked entries. */
  method Bars(ss: seq<KV>) returns (labels: seq<string>, bars: seq<int>)
    ensures |labels| == |bars| == |ss|
    ensures forall i :: 0 <= i < |ss| ==> labels[i] == ss[i].key && bars[i] == ss[i].value
  {
    var n := |ss|;
    var barValues := new int[n];
    var labelTexts := new string[n];
    for i := 0 to n
      invariant forall j :: 0 <= j < i ==> barValues[j] == ss[j].value && labelTexts[j] == ss[j].key
    {
      barValues[i] := ss[i].value;
      labelTexts[i] := ss[i].key;
    }
    labels, bars := labelTexts[..], barValues[..];
  }

  /** A rearrangement has the same length and the same entries. */
  lemma SameEntries(a: seq<KV>, b: seq<KV>)
    requires multiset(a) == multiset(b)
    ensures |a| == |b|
    ensures forall i :: 0 <= i < |b| ==> b[i] in a
    ensures forall x :: x in a ==> x in b
  {
    assert |a| == |multiset(a)| == |b|;
    forall i | 0 <= i < |b|
      ensures b[i] in a
    {
      assert b[i] in multiset(a);
    }
    forall x | x in a
      ensures x in b
    {
      assert x in multiset(b);
    }
  }

  /** The loop building `ss`: one entry per key with its count, in the map's iteration order. */
  method CollectEntries(stats: map<string, Info>) returns (ss: seq<KV>)
    ensures |ss| == |stats|
    ensures DistinctKeys(ss)
    ensures forall i :: 0 <= i < |ss| ==> ss[i].key in stats && ss[i].value == stats[ss[i].key].count
    ensures forall k :: k in stats ==> KV(k, stats[k].count) in ss
  {
    ss := [];
    var rest := stats.Keys;
    while rest != {}
      invariant rest <= stats.Keys
      invariant |ss| + |rest| == |stats|
      invariant DistinctKeys(ss)
      invariant forall i :: 0 <= i < |ss| ==> ss[i].key in stats && ss[i].key !in rest && ss[i].value == stats[ss[i].key].count
      invariant forall k :: k in stats && k !in rest ==> KV(k, stats[k].count) in ss
      decreases |rest|
    {
      var k :| k in rest;
      ss := ss + [KV(k, stats[k].count)];
      rest := rest - {k};
    }
  }

  /** sort.Slice with RankBefore: the entries, strictly ordered. */
  method SortEntries(ss: seq<KV>) returns (sorted: seq<KV>)
    requires DistinctKeys(ss)
    ensures Ranked(sorted) && multiset(sorted) == multiset(ss)
  {
    RankSorts(ss);
    sorted := Rank(ss);
  }

  /** `path` without its trailing slashes. */
  function TrimTrailingSlashes(path: string): (r: string)
    ensures |r| <= |path| && r == path[..|r|]
    ensures r == [] || r[|r| - 1] != '/'
    ensures forall j :: |r| <= j < |path| ==> path[j] == '/'
    decreases |path|
  {
    if path != [] && path[|path| - 1] == '/' then TrimTrailingSlashes(path[..|path| - 1]) else path
  }

  /**
   * filepath.Base with `/` as the separator: the last element of the path
   * after trailing slashes are dropped; "." for the empty path and "/" for
   * a path of slashes only.
   */
  function Base(path: string): (r: string)
    ensures r != []
    ensures r == "/" || '/' !in r
  {
    if path == [] then "."
    else
      var t := TrimTrailingSlashes(path);
      if t == [] then "/"
      else
        var r := LastSegment(t);
        assert r != [] by {
          assert r == t[|t| - |r|..];
        }
        r
  }

  /** The prefix of an archive's chart files: its base name up to the first `.`. */
  function ChartPrefix(archiveName: string): (r: string)
    ensures '.' !in r
  {
    var r := Before(Base(archiveName), ".");
    forall q | 0 <= q < |r|
      ensures r[q] != '.'
    {
      assert Base(archiveName)[q..q + 1] == [r[q]];
      assert !OccursAt(Base(archiveName), ".", q);
    }
    r
  }

  /** The three chart suffixes keep charts of one prefix apart. */
  lemma ChartSuffixesDiffer(prefix: string)
    ensures prefix + "-stats-base-os.png" != prefix + "-stats-packages.png"
    ensures prefix + "-stats-base-os.png" != prefix + "-stats-runtimes.png"
    ensures prefix + "-stats-packages.png" != prefix + "-stats-runtimes.png"
  {
    assert (prefix + "-stats-packages.png")[|prefix| + 7] == 'p';
    assert (prefix + "-stats-runtimes.png")[|prefix| + 7] == 'r';
  }

  /** The three chart files GenerateReport writes for an archive. */
  function ChartFileNames(archiveName: string): (r: seq<string>)
    ensures |r| == 3 && r[0] != r[1] && r[0] != r[2] && r[1] != r[2]
  {
    var prefix := ChartPrefix(archiveName);
    ChartSuffixesDiffer(prefix);
    [prefix + "-stats-base-os.png", prefix + "-stats-packages.png", prefix + "-stats-runtimes.png"]
  }

  /** The base name of a path is its text after the last `/`. */
  lemma {:induction false} BaseOfFile(dir: string, file: string)
    requires file != [] && '/' !in file
    ensures Base(dir + "/" + file) == file
  {
    var path := dir + "/" + file;
    assert TrimTrailingSlashes(path) == path by {
      assert path[|path| - 1] == file[|file| - 1];
    }
    LastSegmentOfJoin(dir, file);
  }

  /** The first field of `name.ext` split at `.` is `name` when `name` has no `.`. */
  lemma {:induction false} FirstDotField(name: string, ext: string)
    requires '.' !in name
    ensures Before(name + "." + ext, ".") == name
  {
    forall q | 0 <= q < |name|
      ensures !OccursAt(name + "." + ext, ".", q)
    {
      assert (name + "." + ext)[q..q + 1] == [name[q]];
    }
    SplitJoin(name, ".", ext);
  }

  /** The directory does not matter, only the file's name up to its first `.`. */
  lemma ChartPrefixOfFile(dir: string, name: string, ext: string)
    requires name != [] && '/' !in name && '.' !in name
    requires '/' !in ext
    ensures ChartPrefix(dir + "/" + name + "." + ext) == name
  {
    var file := name + "." + ext;
    assert dir + "/" + name + "." + ext == dir + "/" + file;
    BaseOfFile(dir, file);
    FirstDotField(name, ext);
  }

  /** The charts of an archive file are named after the file, whatever its directory and extension. */
  lemma ChartFilesOfArchive(dir: string, name: string, ext: string)
    requires name != [] && '/' !in name && '.' !in name
    requires '/' !in ext
    ensures ChartFileNames(dir + "/" + name + "." + ext)
         == [name + "-stats-base-os.png", name + "-stats-packages.png", name + "-stats-runtimes.png"]
  {
    ChartPrefixOfFile(dir, name, ext);
  }
}
