/**
 * logic/analyze/runtime.go: runtimes found by the install paths of a
 * package's files, with the file sizes summed per runtime in the map of one
 * archive.
 */
module PathRuntime {
  import opened Wrappers
  import opened GoStrings
  import opened GoInts
  import opened StatsTypes
  import opened Sbom

  const JvmDir: string := "/usr/lib/jvm/"

  /**
   * `.*<dir>` matches from `q`: `dir` occurs at `q` or after it with no
   * line break in between, tried left to right.
   */
  predicate DirFrom(path: string, dir: string, q: nat)
    decreases |path| - q
  {
    OccursAt(path, dir, q) || (q < |path| && path[q] != '\n' && DirFrom(path, dir, q + 1))
  }

  /** `/usr/lib/jvm/.*<dir>` matches at some position from `p` on. */
  predicate JvmFrom(path: string, dir: string, p: nat)
    decreases |path| - p
  {
    (OccursAt(path, JvmDir, p) && DirFrom(path, dir, p + |JvmDir|)) || (p < |path| && JvmFrom(path, dir, p + 1))
  }

  /** The pattern `/usr/lib/jvm/.*<dir>` matches somewhere in `path`. */
  predicate JvmThen(path: string, dir: string)
  {
    JvmFrom(path, dir, 0)
  }

  /** The pattern's meaning: the JVM directory, then any text without a line break, then `dir`. */
  ghost predicate JvmMatch(path: string, dir: string, p: int, q: int)
  {
    0 <= p && p + |JvmDir| <= q && OccursAt(path, JvmDir, p) && OccursAt(path, dir, q)
    && '\n' !in path[p + |JvmDir|..q]
  }

  /** DirFrom finds an occurrence of `dir` reached without crossing a line break. */
  lemma {:induction false} DirFromSound(path: string, dir: string, q: nat)
    requires DirFrom(path, dir, q)
    ensures exists e :: q <= e && OccursAt(path, dir, e) && '\n' !in path[q..e]
    decreases |path| - q
  {
    if !OccursAt(path, dir, q) {
      DirFromSound(path, dir, q + 1);
      var e :| q + 1 <= e && OccursAt(path, dir, e) && '\n' !in path[q + 1..e];
      assert path[q..e] == [path[q]] + path[q + 1..e];
    } else {
      assert path[q..q] == [];
    }
  }

  /** ... and every such occurrence is found. */
  lemma {:induction false} DirFromComplete(path: string, dir: string, q: nat, e: int)
    requires q <= e && OccursAt(path, dir, e) && '\n' !in path[q..e]
    ensures DirFrom(path, dir, q)
    decreases |path| - q
  {
    if e > q {
      assert path[q..e][0] == path[q];
      assert path[q + 1..e] == path[q..e][1..];
      DirFromComplete(path, dir, q + 1, e);
    }
  }

  lemma {:induction false} JvmFromIff(path: string, dir: string, p: nat)
    ensures JvmFrom(path, dir, p) <==> exists s :: p <= s && OccursAt(path, JvmDir, s) && DirFrom(path, dir, s + |JvmDir|)
    decreases |path| - p
  {
    if p < |path| {
      JvmFromIff(path, dir, p + 1);
    }
  }

  /** JvmThen holds exactly when the pattern matches somewhere in `path`. */
  lemma JvmThenIff(path: string, dir: string)
    ensures JvmThen(path, dir) <==> exists p, q :: JvmMatch(path, dir, p, q)
  {
    JvmFromIff(path, dir, 0);
    if JvmThen(path, dir) {
      var p :| 0 <= p && OccursAt(path, JvmDir, p) && DirFrom(path, dir, p + |JvmDir|);
      DirFromSound(path, dir, p + |JvmDir|);
      var q :| p + |JvmDir| <= q && OccursAt(path, dir, q) && '\n' !in path[p + |JvmDir|..q];
      assert JvmMatch(path, dir, p, q);
    }
    if exists p, q :: JvmMatch(path, dir, p, q) {
      var p, q :| JvmMatch(path, dir, p, q);
      DirFromComplete(path, dir, p + |JvmDir|, q);
    }
  }

  /** The three install-location patterns; `/usr/bin/python.*` needs only its literal part. */
  predicate IsRuntimePath(path: string)
  {
    JvmThen(path, "/lib/") || JvmThen(path, "/bin/") || Contains(path, "/usr/bin/python")
  }

  /** A path segment that names a runtime distribution. */
  predicate HasMarker(segment: string)
  {
    Contains(segment, "jdk") || Contains(segment, "jre") || Contains(segment, "python")
    || Contains(segment, "rust") || Contains(segment, "golang")
  }

  /**
   * The runtime name after scanning `segments` starting from `current`: the
   * last segment with a marker, or `current` when none has one.
   */
  function LastMarked(segments: seq<string>, current: string): string
    decreases |segments|
  {
    if segments == [] then current
    else LastMarked(segments[1..], if HasMarker(segments[0]) then segments[0] else current)
  }

  /** With no marker in any segment, the name in force stays `current`. */
  lemma {:induction false} LastMarkedNone(segments: seq<string>, current: string)
    requires forall i :: 0 <= i < |segments| ==> !HasMarker(segments[i])
    ensures LastMarked(segments, current) == current
    decreases |segments|
  {
    if segments != [] {
      assert !HasMarker(segments[0]);
      assert forall i :: 0 <= i < |segments| - 1 ==> segments[1..][i] == segments[i + 1];
      LastMarkedNone(segments[1..], current);
    }
  }

  /** The name is the last segment with a marker, whatever came before it. */
  lemma {:induction false} LastMarkedIsLast(segments: seq<string>, current: string, i: int)
    requires 0 <= i < |segments| && HasMarker(segments[i])
    requires forall j :: i < j < |segments| ==> !HasMarker(segments[j])
    ensures LastMarked(segments, current) == segments[i]
    decreases |segments|
  {
    var next := if HasMarker(segments[0]) then segments[0] else current;
    assert forall j :: 0 <= j < |segments| - 1 ==> segments[1..][j] == segments[j + 1];
    if i == 0 {
      LastMarkedNone(segments[1..], next);
    } else {
      LastMarkedIsLast(segments[1..], next, i - 1);
    }
  }

  /** One matching file: the runtime name in force for it, and its size. */
  datatype Hit = Hit(runtime: string, size: int64)

  /**
   * The matching files of `files` in order, each with the runtime name in
   * force after its path was scanned; the name carries over from one
   * matching file to the next.
   */
  function Hits(files: seq<FileEntry>, runtime: string): seq<Hit>
    decreases |files|
  {
    if files == [] then []
    else if IsRuntimePath(files[0].path) then
      var next := LastMarked(Fields(files[0].path, '/'), runtime);
      [Hit(next, files[0].size)] + Hits(files[1..], next)
    else Hits(files[1..], runtime)
  }

  /** There is a hit exactly when some file has a runtime path. */
  lemma {:induction false} NoHitsIffNoMatch(files: seq<FileEntry>, runtime: string)
    ensures (forall i :: 0 <= i < |files| ==> !IsRuntimePath(files[i].path)) <==> Hits(files, runtime) == []
    decreases |files|
  {
    if files != [] {
      var next := if IsRuntimePath(files[0].path) then LastMarked(Fields(files[0].path, '/'), runtime) else runtime;
      NoHitsIffNoMatch(files[1..], next);
      assert forall i :: 0 < i < |files| ==> files[1..][i - 1] == files[i];
    }
  }

  /** Hits seen from file `i` on: the first file's hit, if it matches, then the rest. */
  lemma HitsFrom(files: seq<FileEntry>, i: nat, runtime: string)
    requires i < |files|
    ensures IsRuntimePath(files[i].path) ==>
              var next := LastMarked(Fields(files[i].path, '/'), runtime);
              Hits(files[i..], runtime) == [Hit(next, files[i].size)] + Hits(files[i + 1..], next)
    ensures !IsRuntimePath(files[i].path) ==> Hits(files[i..], runtime) == Hits(files[i + 1..], runtime)
  {
    assert files[i..][1..] == files[i + 1..];
  }

  /** The stored value of a size that parses. */
  function SizeValue(info: Info): int64
    requires ParseInt(info.size).Some?
  {
    ParseInt(info.size).value
  }

  /** `amount` added to a stored size, as an int64 addition. */
  function AddSize(info: Info, amount: int): Info
    requires ParseInt(info.size).Some?
  {
    info.(size := FormatInt(Wrap64(SizeValue(info) + amount)))
  }

  /** A runtime first seen, with `amount` as its size. */
  function NewRuntime(amount: int): Info
  {
    Info(1, FormatInt(Wrap64(amount)), "")
  }

  /**
   * One hit on one archive's map: a new runtime gets count 1 and the decimal
   * file size; a known one gets the file size added to its stored size
   * (64-bit wrap-around) and keeps its count. None when the stored size
   * does not parse.
   */
  function Step(m: map<string, Info>, h: Hit): (r: Option<map<string, Info>>)
    ensures r.Some? ==> r.value.Keys == m.Keys + {h.runtime}
    ensures r.Some? ==> forall k :: k in m && k != h.runtime ==> r.value[k] == m[k]
    ensures r.Some? && h.runtime in m ==> r.value[h.runtime].count == m[h.runtime].count
    ensures r.None? <==> h.runtime in m && ParseInt(m[h.runtime].size).None?
  {
    if h.runtime !in m then Some(m[h.runtime := NewRuntime(h.size)])
    else if ParseInt(m[h.runtime].size).None? then None
    else Some(m[h.runtime := AddSize(m[h.runtime], h.size)])
  }

  /** The state after some hits: the per-archive map, and whether every stored size parsed. */
  datatype Applied = Applied(entries: map<string, Info>, complete: bool)

  /** The hits in order; a stored size that does not parse stops the processing with the map as it stands. */
  function Apply(m: map<string, Info>, hits: seq<Hit>): Applied
    decreases |hits|
  {
    if hits == [] then Applied(m, true)
    else match Step(m, hits[0])
      case None => Applied(m, false)
      case Some(next) => Apply(next, hits[1..])
  }

  /** Apply on a first hit, unfolded once. */
  lemma ApplyFirst(m: map<string, Info>, h: Hit, rest: seq<Hit>)
    ensures Step(m, h).None? ==> Apply(m, [h] + rest) == Applied(m, false)
    ensures Step(m, h).Some? ==> Apply(m, [h] + rest) == Apply(Step(m, h).value, rest)
  {
    assert ([h] + rest)[0] == h && ([h] + rest)[1..] == rest;
  }

  /** Writing a key twice keeps the second value. */
  lemma UpdateTwice<K, V>(m: map<K, V>, k: K, a: V, b: V)
    ensures m[k := a][k := b] == m[k := b]
  {
  }

  /** The inner loop of DetectRuntime: every segment with a marker becomes the runtime name. */
  method LastMarkedSegment(segments: seq<string>, current: string) returns (runtime: string)
    ensures runtime == LastMarked(segments, current)
  {
    runtime := current;
    var j := 0;
    while j < |segments|
      invariant 0 <= j <= |segments|
      invariant LastMarked(segments[j..], runtime) == LastMarked(segments, current)
    {
      assert segments[j..][1..] == segments[j + 1..];
      if HasMarker(segments[j]) {
        runtime := segments[j];
      }
      j := j + 1;
    }
  }

  /**
   * DetectRuntime: process the files of one package into `runtimes[fileName]`.
   * Go panics when it writes into a missing per-archive map, so either that
   * map exists or no file matches.
   */
  method DetectRuntime(packageProperties: Metadata, runtimes: RuntimeMap, fileName: string)
    requires fileName in runtimes.entries
             || forall i :: 0 <= i < |packageProperties.files| ==> !IsRuntimePath(packageProperties.files[i].path)
    modifies runtimes
    ensures fileName !in old(runtimes.entries) ==> runtimes.entries == old(runtimes.entries)
    ensures fileName in old(runtimes.entries) ==>
              runtimes.entries == old(runtimes.entries)[fileName :=
                Apply(old(runtimes.entries)[fileName], Hits(packageProperties.files, "")).entries]
  {
    var files := packageProperties.files;
    ghost var m0 := runtimes.entries;
    if fileName !in runtimes.entries {
      NoHitsIffNoMatch(files, "");
      return;
    }
    ghost var goal := Apply(m0[fileName], Hits(files, ""));
    var runtime := "";
    var i := 0;
    while i < |files|
      invariant 0 <= i <= |files|
      invariant fileName in runtimes.entries
      invariant runtimes.entries == m0[fileName := runtimes.entries[fileName]]
      invariant Apply(runtimes.entries[fileName], Hits(files[i..], runtime)) == goal
    {
      HitsFrom(files, i, runtime);
      var path := files[i].path;
      if JvmThen(path, "/lib/") || JvmThen(path, "/bin/") || Contains(path, "/usr/bin/python") {
        runtime := LastMarkedSegment(Fields(path, '/'), runtime);
        var current := runtimes.entries[fileName];
        ApplyFirst(current, Hit(runtime, files[i].size), Hits(files[i + 1..], runtime));
        ghost var next := Step(current, Hit(runtime, files[i].size));
        if runtime !in current {
          current := current[runtime := Info(1, FormatInt(files[i].size), "")];
        } else {
          var parsed := ParseInt(current[runtime].size);
          if parsed.None? {
            return;
          }
          var info := current[runtime];
          current := current[runtime := info.(size := FormatInt(Wrap64(parsed.value + files[i].size)))];
        }
        assert current == next.value;
        UpdateTwice(m0, fileName, runtimes.entries[fileName], current);
        runtimes.entries := runtimes.entries[fileName := current];
      }
      i := i + 1;
    }
    assert files[i..] == [];
  }

  /** The sizes of the hits for runtime `r`, added up without wrap-around. */
  function SumFor(hits: seq<Hit>, r: string): int
    decreases |hits|
  {
    if hits == [] then 0
    else (if hits[0].runtime == r then hits[0].size as int else 0) + SumFor(hits[1..], r)
  }

  /** The runtime names the hits carry. */
  function RuntimesOf(hits: seq<Hit>): set<string>
    decreases |hits|
  {
    if hits == [] then {} else {hits[0].runtime} + RuntimesOf(hits[1..])
  }

  /** A runtime no hit carries adds nothing. */
  lemma {:induction false} SumForAbsent(hits: seq<Hit>, r: string)
    requires r !in RuntimesOf(hits)
    ensures SumFor(hits, r) == 0
    decreases |hits|
  {
    if hits != [] {
      SumForAbsent(hits[1..], r);
    }
  }

  /** Every stored size is one ParseInt accepts. */
  predicate SizesParse(m: map<string, Info>)
  {
    forall k :: k in m ==> ParseInt(m[k].size).Some?
  }

  /** The size AddSize stores reads back as the wrapped sum. */
  lemma AddSizeParses(info: Info, a: int)
    requires ParseInt(info.size).Some?
    ensures ParseInt(AddSize(info, a).size) == Some(Wrap64(SizeValue(info) + a))
  {
    ParseFormatRoundTrip(Wrap64(SizeValue(info) + a));
  }

  /** Adding twice is adding the sum once, since the stored text reads back as the wrapped value. */
  lemma AddSizeTwice(info: Info, a: int, b: int)
    requires ParseInt(info.size).Some?
    ensures ParseInt(AddSize(info, a).size).Some?
    ensures AddSize(AddSize(info, a), b) == AddSize(info, a + b)
  {
    AddSizeParses(info, a);
    WrapAddRegroups(SizeValue(info), a, b);
  }

  lemma AddToNew(a: int, b: int)
    ensures ParseInt(NewRuntime(a).size).Some?
    ensures AddSize(NewRuntime(a), b) == NewRuntime(a + b)
  {
    var x := Wrap64(a);
    assert NewRuntime(a).size == FormatInt(x);
    ParseFormatRoundTrip(x);
    assert SizeValue(NewRuntime(a)) == x;
    WrapAddAssociates(a, b);
  }

  /**
   * What runtime `k` holds after the hits, in closed form: a runtime
   * already known keeps its count and has the sizes of its hits added to its
   * stored size; a new one has count 1 and the sum of its hits' sizes,
   * however many hits it has.
   */
  function Expected(m: map<string, Info>, hits: seq<Hit>, k: string): Info
    requires SizesParse(m) && (k in m || k in RuntimesOf(hits))
  {
    if k !in RuntimesOf(hits) then m[k]
    else if k in m then AddSize(m[k], SumFor(hits, k))
    else NewRuntime(SumFor(hits, k))
  }

  function Closed(m: map<string, Info>, hits: seq<Hit>): map<string, Info>
    requires SizesParse(m)
  {
    map k | k in m.Keys + RuntimesOf(hits) :: Expected(m, hits, k)
  }

  /** Step in closed form while every stored size parses; the sizes keep parsing. */
  lemma StepClosed(m: map<string, Info>, h: Hit)
    requires SizesParse(m)
    ensures Step(m, h).Some?
    ensures h.runtime in m ==> Step(m, h).value == m[h.runtime := AddSize(m[h.runtime], h.size)]
    ensures h.runtime !in m ==> Step(m, h).value == m[h.runtime := NewRuntime(h.size)]
    ensures SizesParse(Step(m, h).value)
  {
    var r := h.runtime;
    if r in m {
      AddSizeTwice(m[r], h.size, 0);
    } else {
      AddToNew(h.size, 0);
    }
  }

  /** A runtime other than the first hit's: the first hit changes nothing for it. */
  lemma ExpectedStepOther(m: map<string, Info>, hits: seq<Hit>, k: string)
    requires SizesParse(m) && hits != [] && (k in m || k in RuntimesOf(hits)) && k != hits[0].runtime
    requires Step(m, hits[0]).Some? && SizesParse(Step(m, hits[0]).value)
    ensures var m' := Step(m, hits[0]).value;
      (k in m' || k in RuntimesOf(hits[1..])) && Expected(m', hits[1..], k) == Expected(m, hits, k)
  {
    var m' := Step(m, hits[0]).value;
    var rest := hits[1..];
    assert k in m' <==> k in m;
    assert k in m ==> m'[k] == m[k];
    assert k in RuntimesOf(hits) <==> k in RuntimesOf(rest);
    var sum := SumFor(hits, k);
    assert sum == SumFor(rest, k);
  }

  /** The first hit's runtime: its size so far, plus the rest of its hits. */
  lemma ExpectedStepHit(m: map<string, Info>, hits: seq<Hit>)
    requires SizesParse(m) && hits != []
    ensures Step(m, hits[0]).Some? && SizesParse(Step(m, hits[0]).value)
    ensures var m' := Step(m, hits[0]).value;
      var k := hits[0].runtime;
      k in m' && Expected(m', hits[1..], k) == Expected(m, hits, k)
  {
    var h := hits[0];
    var rest := hits[1..];
    var k := h.runtime;
    StepClosed(m, h);
    var m' := Step(m, h).value;
    assert k in RuntimesOf(hits);
    var later := SumFor(rest, k);
    assert SumFor(hits, k) == h.size + later;
    if k !in RuntimesOf(rest) {
      SumForAbsent(rest, k);
      if k in m {
        AddSizeTwice(m[k], h.size, 0);
      } else {
        AddToNew(h.size, 0);
      }
    } else if k in m {
      AddSizeTwice(m[k], h.size, later);
    } else {
      AddToNew(h.size, later);
    }
  }

  /** The first hit moves each runtime's closed form over all hits to its closed form over the rest. */
  lemma ClosedStepAt(m: map<string, Info>, hits: seq<Hit>, k: string)
    requires SizesParse(m) && hits != [] && k in m.Keys + RuntimesOf(hits)
    ensures Step(m, hits[0]).Some? && SizesParse(Step(m, hits[0]).value)
    ensures var m' := Step(m, hits[0]).value;
      k in m'.Keys + RuntimesOf(hits[1..]) && Closed(m', hits[1..])[k] == Closed(m, hits)[k]
  {
    ExpectedStepHit(m, hits);
    if k != hits[0].runtime {
      ExpectedStepOther(m, hits, k);
    }
  }

  /** The first hit moves its runtime from the pending hits into the map. */
  lemma ClosedKeys(m: map<string, Info>, hits: seq<Hit>)
    requires SizesParse(m) && hits != []
    ensures Step(m, hits[0]).Some?
    ensures Step(m, hits[0]).value.Keys + RuntimesOf(hits[1..]) == m.Keys + RuntimesOf(hits)
  {
    StepClosed(m, hits[0]);
  }

  /** The first hit moves the closed form of all hits to the closed form of the rest. */
  lemma ClosedStep(m: map<string, Info>, hits: seq<Hit>)
    requires SizesParse(m) && hits != []
    ensures Step(m, hits[0]).Some? && SizesParse(Step(m, hits[0]).value)
    ensures Closed(Step(m, hits[0]).value, hits[1..]) == Closed(m, hits)
  {
    ExpectedStepHit(m, hits);
    ClosedKeys(m, hits);
    var m' := Step(m, hits[0]).value;
    forall k | k in m.Keys + RuntimesOf(hits)
      ensures Closed(m', hits[1..])[k] == Closed(m, hits)[k]
    {
      ClosedStepAt(m, hits, k);
    }
  }

  /** Apply follows the closed form, and never stops early, while every stored size parses. */
  lemma {:induction false} ApplyClosedForm(m: map<string, Info>, hits: seq<Hit>)
    requires SizesParse(m)
    ensures Apply(m, hits) == Applied(Closed(m, hits), true)
    decreases |hits|
  {
    if hits == [] {
      assert Closed(m, hits) == m;
    } else {
      ClosedStep(m, hits);
      ApplyClosedForm(Step(m, hits[0]).value, hits[1..]);
    }
  }

  /**
   * Starting from an empty per-archive map, every runtime hit is recorded
   * with count 1, however often it is hit, and with the sum of its files'
   * sizes; the parse failure cannot happen.
   */
  lemma ApplyFromEmpty(hits: seq<Hit>)
    ensures Apply(map[], hits).complete
    ensures Apply(map[], hits).entries.Keys == RuntimesOf(hits)
    ensures forall k :: k in RuntimesOf(hits) ==>
              Apply(map[], hits).entries[k] == Info(1, FormatInt(Wrap64(SumFor(hits, k))), "")
  {
    ApplyClosedForm(map[], hits);
    forall k | k in RuntimesOf(hits)
      ensures Apply(map[], hits).entries[k] == NewRuntime(SumFor(hits, k))
    {
      assert Closed(map[], hits)[k] == Expected(map[], hits, k);
    }
  }

  /** Hits processed in two batches, the first complete, are the hits processed at once. */
  lemma {:induction false} ApplyConcat(m: map<string, Info>, a: seq<Hit>, b: seq<Hit>)
    requires Apply(m, a).complete
    ensures Apply(m, a + b) == Apply(Apply(m, a).entries, b)
    decreases |a|
  {
    if a != [] {
      assert (a + b)[0] == a[0] && (a + b)[1..] == a[1..] + b;
      ApplyConcat(Step(m, a[0]).value, a[1..], b);
    } else {
      assert a + b == b;
    }
  }

  /** Every size the closed form stores parses again. */
  lemma ClosedSizesParse(m: map<string, Info>, hits: seq<Hit>)
    requires SizesParse(m)
    ensures SizesParse(Closed(m, hits))
  {
    forall k | k in Closed(m, hits)
      ensures ParseInt(Closed(m, hits)[k].size).Some?
    {
      if k in RuntimesOf(hits) {
        if k in m {
          AddSizeTwice(m[k], SumFor(hits, k), 0);
        } else {
          AddToNew(SumFor(hits, k), 0);
        }
      }
    }
  }
}
