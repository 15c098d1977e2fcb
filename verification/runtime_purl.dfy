/**
 * logic/aggregate/runtime.go: the runtime a package URL stands for, read
 * from substrings of the URL, counted in a flat runtime-to-Info map.
 */
module PurlRuntime {
  import opened GoStrings
  import opened StatsTypes

  /** A Java package: a generic `java/` package or any Maven package. */
  predicate IsJavaFamily(pkgURL: string)
  {
    Contains(pkgURL, "pkg:generic/java/") || Contains(pkgURL, "pkg:maven/")
  }

  predicate IsPythonFamily(pkgURL: string)
  {
    Contains(pkgURL, "pkg:python/")
  }

  /**
   * The runtime a URL names: "Java" for a Java-family URL mentioning `jre`
   * or `jdk`; "Python" for a URL outside the Java family that is a Python
   * package mentioning `cpython`; "" otherwise. The Java test is decided
   * first, so a Java-family URL is never Python.
   */
  function RuntimeOf(pkgURL: string): (runtime: string)
    ensures runtime in {"", "Java", "Python"}
    ensures runtime == "Java" <==> IsJavaFamily(pkgURL) && (Contains(pkgURL, "jre") || Contains(pkgURL, "jdk"))
    ensures runtime == "Python" <==> !IsJavaFamily(pkgURL) && IsPythonFamily(pkgURL) && Contains(pkgURL, "cpython")
  {
    if IsJavaFamily(pkgURL) then
      if Contains(pkgURL, "jre") || Contains(pkgURL, "jdk") then "Java" else ""
    else if IsPythonFamily(pkgURL) then
      if Contains(pkgURL, "cpython") then "Python" else ""
    else ""
  }

  /** The Info a runtime gets on its first detection; its size is not determined. */
  const FirstDetection: Info := Info(1, "0", "")

  /**
   * DetectRuntime: count the runtime of `pkgURL`, if any, in `runtimes`:
   * created with count 1 and size "0", or its count raised by one.
   */
  method DetectRuntime(pkgURL: string, runtimes: InfoMap)
    modifies runtimes
    ensures RuntimeOf(pkgURL) == "" ==> runtimes.entries == old(runtimes.entries)
    ensures RuntimeOf(pkgURL) != "" ==>
              runtimes.entries == Observe(old(runtimes.entries), RuntimeOf(pkgURL), FirstDetection)
  {
    var runtime := "";
    if Contains(pkgURL, "pkg:generic/java/") || Contains(pkgURL, "pkg:maven/") {
      if Contains(pkgURL, "jre") || Contains(pkgURL, "jdk") {
        runtime := "Java";
      }
    } else if Contains(pkgURL, "pkg:python/") {
      if Contains(pkgURL, "cpython") {
        runtime := "Python";
      }
    }

    if runtime != "" {
      if runtime !in runtimes.entries {
        runtimes.entries := runtimes.entries[runtime := FirstDetection];
      } else {
        var info := runtimes.entries[runtime];
        runtimes.entries := runtimes.entries[runtime := info.(count := info.count + 1)];
      }
    }
  }

  /** `sub` occurs in `pre + sub + post`. */
  lemma ContainsJoin(pre: string, sub: string, post: string)
    ensures Contains(pre + sub + post, sub)
  {
    assert (pre + sub + post)[|pre|..|pre| + |sub|] == sub;
    assert OccursAt(pre + sub + post, sub, |pre|);
  }

  /** A Maven package whose URL mentions `jdk` is Java, whatever else it mentions. */
  lemma MavenJdkIsJava(pre: string, mid: string, post: string)
    ensures RuntimeOf(pre + "pkg:maven/" + mid + "jdk" + post) == "Java"
  {
    var u := pre + "pkg:maven/" + mid + "jdk" + post;
    assert u == pre + "pkg:maven/" + (mid + "jdk" + post);
    ContainsJoin(pre, "pkg:maven/", mid + "jdk" + post);
    assert u == (pre + "pkg:maven/" + mid) + "jdk" + post;
    ContainsJoin(pre + "pkg:maven/" + mid, "jdk", post);
  }

  /** A Java-family URL is never counted as Python, even one naming `pkg:python/` and `cpython`. */
  lemma JavaIsNeverPython(pkgURL: string)
    requires IsJavaFamily(pkgURL)
    ensures RuntimeOf(pkgURL) != "Python"
  {
  }
}
