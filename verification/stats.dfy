/**
 * The aggregation state: `Info` per identity and the `Stats` object holding
 * the base-OS, package and per-archive runtime collections. The two Go
 * packages `aggregate` and `analyze` declare the same two types; they are
 * modelled once.
 */
module StatsTypes {

  /**
   * Info. `size` and `installedSize` are text, as in the source: a
   * human-readable size, or a decimal byte count for runtimes. Go's zero
   * value of a string field is "".
   */
  datatype Info = Info(count: int, size: string, installedSize: string)

  /**
   * The create-with-count-1 / increment-only update used for every flat
   * collection: an absent key gets `first`, a present key gets its count
   * raised by one and keeps its sizes; no other key changes.
   */
  function Observe(m: map<string, Info>, key: string, first: Info): (r: map<string, Info>)
    ensures r.Keys == m.Keys + {key}
    ensures key in m ==> r[key].count == m[key].count + 1
    ensures key in m ==> r[key].size == m[key].size && r[key].installedSize == m[key].installedSize
    ensures key !in m ==> r[key] == first
    ensures forall k :: k in m && k != key ==> r[k] == m[k]
  {
    if key in m then m[key := m[key].(count := m[key].count + 1)] else m[key := first]
  }

  /** A Go `map[string]*Info` that a callee updates in place. */
  class InfoMap {
    var entries: map<string, Info>

    constructor ()
      ensures entries == map[]
    {
      entries := map[];
    }
  }

  /** A Go `map[string]map[string]*Info`: archive name to runtime name to Info. */
  class RuntimeMap {
    var entries: map<string, map<string, Info>>

    constructor ()
      ensures entries == map[]
    {
      entries := map[];
    }
  }

  /** Stats. `runtimes` is never reassigned; the map it refers to is updated in place. */
  class Stats {
    var baseOS: map<string, Info>
    var packages: map<string, Info>
    const runtimes: RuntimeMap

    /** NewStats: three empty maps. */
    constructor NewStats()
      ensures baseOS == map[] && packages == map[]
      ensures fresh(runtimes) && runtimes.entries == map[]
    {
      baseOS := map[];
      packages := map[];
      runtimes := new RuntimeMap();
    }
  }
}
