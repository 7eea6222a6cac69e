/** `calculate_cache_ratios` of programs/l1_cache_arm64.py: hit and miss
    percentages of the instruction and data caches, computed from the dict of
    extracted counters. Numbers are exact reals, so the percentages carry no
    rounding. */
module Ratios {
  import opened Options
  import opened Text
  import opened Stats

  /** The three counters the calculation looks for. */
  datatype Kind = Hits | Misses | Accesses

  /** The counter a name is taken for while scanning for cache `ct`: names
      that do not mention the cache are passed over, and `Hits` is tested
      before `Misses`, which is tested before `Accesses`. */
  function KindOf(name: string, ct: string): Option<Kind>
  {
    if !Contains(name, ct) then None
    else if Contains(name, "Hits") then Some(Hits)
    else if Contains(name, "Misses") then Some(Misses)
    else if Contains(name, "Accesses") then Some(Accesses)
    else None
  }

  /** The elif chain in terms of where the substrings occur: a name that does
      not mention the cache is no counter; otherwise `Hits` anywhere makes it a
      hit counter, then `Misses` a miss counter, then `Accesses` an access
      counter. */
  lemma KindOfOccurs(name: string, ct: string)
    ensures KindOf(name, ct).Some? ==> exists i :: OccursAt(name, ct, i)
    ensures KindOf(name, ct) == Some(Hits) <==>
      (exists i :: OccursAt(name, ct, i)) && (exists i :: OccursAt(name, "Hits", i))
    ensures KindOf(name, ct) == Some(Misses) <==>
      && (exists i :: OccursAt(name, ct, i))
      && (forall i :: !OccursAt(name, "Hits", i))
      && (exists i :: OccursAt(name, "Misses", i))
    ensures KindOf(name, ct) == Some(Accesses) <==>
      && (exists i :: OccursAt(name, ct, i))
      && (forall i :: !OccursAt(name, "Hits", i)) && (forall i :: !OccursAt(name, "Misses", i))
      && (exists i :: OccursAt(name, "Accesses", i))
  {
    ContainsIff(name, ct);
    ContainsIff(name, "Hits");
    ContainsIff(name, "Misses");
    ContainsIff(name, "Accesses");
  }

  /** The position of the last entry of `d` taken for counter `k` of cache `ct`. */
  function LastOfKind(d: Dict, ct: string, k: Kind): (r: Option<nat>)
    ensures r.Some? ==> r.value < |d| && KindOf(d[r.value].name, ct) == Some(k)
    ensures r.Some? ==> forall j :: r.value < j < |d| ==> KindOf(d[j].name, ct) != Some(k)
    ensures r.None? ==> forall j :: 0 <= j < |d| ==> KindOf(d[j].name, ct) != Some(k)
    decreases |d|
  {
    if d == [] then None
    else if KindOf(d[|d| - 1].name, ct) == Some(k) then Some(|d| - 1)
    else LastOfKind(d[..|d| - 1], ct, k)
  }

  /** The value of that last entry, if there is one. */
  function LastValue(d: Dict, ct: string, k: Kind): Option<real>
  {
    match LastOfKind(d, ct, k)
    case Some(i) => Some(d[i].value)
    case None => None
  }

  /** The last entry of `d` decides counter `k` when it is of that kind;
      otherwise the entries before it do. */
  lemma LastValueSnoc(d: Dict, ct: string)
    requires d != []
    ensures forall k :: LastValue(d, ct, k) ==
                        (if KindOf(d[|d| - 1].name, ct) == Some(k) then Some(d[|d| - 1].value)
                         else LastValue(d[..|d| - 1], ct, k))
  {
  }

  /** The `hits`, `misses` and `accesses` variables of the scan, `None` until set. */
  datatype Counts = Counts(hits: Option<real>, misses: Option<real>, accesses: Option<real>)
  {
    function Of(k: Kind): Option<real>
    {
      match k
      case Hits => hits
      case Misses => misses
      case Accesses => accesses
    }
  }

  /** The scan of `calculate_cache_ratios` for cache `ct` over the entries of
      `d`, in the dict's order. A later match overwrites an earlier one, so
      each counter ends up holding the value of the last entry of its kind. */
  function Scan(d: Dict, ct: string): (c: Counts)
    ensures forall k :: c.Of(k) == LastValue(d, ct, k)
    decreases |d|
  {
    if d == [] then Counts(None, None, None)
    else
      var c := Scan(d[..|d| - 1], ct);
      var e := d[|d| - 1];
      LastValueSnoc(d, ct);
      match KindOf(e.name, ct)
      case None => c
      case Some(Hits) => c.(hits := Some(e.value))
      case Some(Misses) => c.(misses := Some(e.value))
      case Some(Accesses) => c.(accesses := Some(e.value))
  }

  /** The five values reported for one cache. */
  datatype CacheRatio = CacheRatio(hitRatio: real, missRatio: real, hits: real, misses: real, totalAccesses: real)

  /** Python's truth value of a number that may be `None`. */
  predicate Truthy(x: Option<real>)
  {
    x.Some? && x.value != 0.0
  }

  /** `x` as a percentage of `a`. */
  function Percent(x: real, a: real): (p: real)
    requires a > 0.0
    ensures p * a == 100.0 * x
  {
    x / a * 100.0
  }

  /** The total the calculation divides by: the accesses counter when it was
      found, otherwise the sum of hits and misses when both were found. */
  function Total(c: Counts): (a: Option<real>)
    ensures c.accesses.Some? ==> a == c.accesses
    ensures c.accesses.None? ==> (a.Some? <==> c.hits.Some? && c.misses.Some?)
    ensures c.accesses.None? && a.Some? ==> a.value == c.hits.value + c.misses.value
  {
    if c.accesses.None? && c.hits.Some? && c.misses.Some? then Some(c.hits.value + c.misses.value)
    else c.accesses
  }

  /** The five values for counters `c` and a positive total `a`: a missing or
      zero count reads as 0, and each ratio is that count as a percentage of `a`. */
  function RatioAt(c: Counts, a: real): (q: CacheRatio)
    requires a > 0.0
    ensures q.hits == c.hits.GetOr(0.0) && q.misses == c.misses.GetOr(0.0)
    ensures q.totalAccesses == a
    ensures q.hitRatio * a == 100.0 * q.hits && q.missRatio * a == 100.0 * q.misses
  {
    CacheRatio(
      hitRatio := if Truthy(c.hits) then Percent(c.hits.value, a) else 0.0,
      missRatio := if Truthy(c.misses) then Percent(c.misses.value, a) else 0.0,
      hits := if Truthy(c.hits) then c.hits.value else 0.0,
      misses := if Truthy(c.misses) then c.misses.value else 0.0,
      totalAccesses := a)
  }

  /** The report the calculation makes from the scanned counters `c`:
      nothing unless hits or misses were found; when no accesses counter was
      found but both hits and misses were, the total is their sum; a report
      exactly when that total is positive; a missing or zero count reads as 0,
      and each ratio is that count as a percentage of the total. */
  function RatioOf(c: Counts): (r: Option<CacheRatio>)
    ensures c.hits.None? && c.misses.None? ==> r.None?
    ensures c.accesses.Some? ==> (r.Some? <==> (c.hits.Some? || c.misses.Some?) && c.accesses.value > 0.0)
    ensures c.accesses.None? ==>
      (r.Some? <==> c.hits.Some? && c.misses.Some? && c.hits.value + c.misses.value > 0.0)
    ensures r.Some? ==> r.value.hits == c.hits.GetOr(0.0) && r.value.misses == c.misses.GetOr(0.0)
    ensures r.Some? ==> r.value.totalAccesses > 0.0
    ensures r.Some? && c.accesses.Some? ==> r.value.totalAccesses == c.accesses.value
    ensures r.Some? && c.accesses.None? ==> r.value.totalAccesses == r.value.hits + r.value.misses
    ensures r.Some? ==> r.value.hitRatio * r.value.totalAccesses == 100.0 * r.value.hits
    ensures r.Some? ==> r.value.missRatio * r.value.totalAccesses == 100.0 * r.value.misses
  {
    if c.hits.None? && c.misses.None? then None
    else
      var accesses := Total(c);
      if Truthy(accesses) && accesses.value > 0.0 then Some(RatioAt(c, accesses.value))
      else None
  }

  /** The last hits, misses and accesses counters of cache `ct` in `d`. */
  function LastCounts(d: Dict, ct: string): Counts
  {
    Counts(LastValue(d, ct, Hits), LastValue(d, ct, Misses), LastValue(d, ct, Accesses))
  }

  /** The report for cache `ct`: the one `RatioOf` makes from the last
      counters of each kind the cache has in `d`. */
  function CacheRatioOf(d: Dict, ct: string): (r: Option<CacheRatio>)
    ensures r == RatioOf(LastCounts(d, ct))
  {
    var c := Scan(d, ct);
    assert c.hits == c.Of(Hits) && c.misses == c.Of(Misses) && c.accesses == c.Of(Accesses);
    RatioOf(c)
  }

  /** When the total is the sum of hits and misses, the two percentages add
      up to exactly 100. */
  lemma RatiosSumTo100(c: Counts)
    requires RatioOf(c).Some?
    requires RatioOf(c).value.totalAccesses == RatioOf(c).value.hits + RatioOf(c).value.misses
    ensures RatioOf(c).value.hitRatio + RatioOf(c).value.missRatio == 100.0
  {
    var q := RatioOf(c).value;
    var t := q.totalAccesses;
    calc {
      (q.hitRatio + q.missRatio) * t;
      q.hitRatio * t + q.missRatio * t;
      100.0 * q.hits + 100.0 * q.misses;
      100.0 * t;
    }
  }

  /** Without an accesses counter for cache `ct` but with both hits and misses
      found and a positive sum, the total is backfilled as hits + misses and
      the two percentages add up to 100. */
  lemma BackfilledAccesses(d: Dict, ct: string)
    requires LastValue(d, ct, Accesses).None?
    requires LastValue(d, ct, Hits).Some? && LastValue(d, ct, Misses).Some?
    requires LastValue(d, ct, Hits).value + LastValue(d, ct, Misses).value > 0.0
    ensures CacheRatioOf(d, ct).Some?
    ensures CacheRatioOf(d, ct).value.totalAccesses == LastValue(d, ct, Hits).value + LastValue(d, ct, Misses).value
    ensures CacheRatioOf(d, ct).value.hitRatio + CacheRatioOf(d, ct).value.missRatio == 100.0
  {
    RatiosSumTo100(LastCounts(d, ct));
  }

  /** With neither a hits nor a misses counter for cache `ct`, or with a total
      that is not positive, cache `ct` gets no report. */
  lemma NoReportWithoutCounts(d: Dict, ct: string)
    ensures LastValue(d, ct, Hits).None? && LastValue(d, ct, Misses).None? ==> CacheRatioOf(d, ct).None?
    ensures LastValue(d, ct, Accesses).Some? && LastValue(d, ct, Accesses).value <= 0.0 ==> CacheRatioOf(d, ct).None?
    ensures LastValue(d, ct, Accesses).None? && (LastValue(d, ct, Hits).None? || LastValue(d, ct, Misses).None?) ==>
      CacheRatioOf(d, ct).None?
  {
  }

  /** The five keys reported for cache `ct`. */
  function ReportKeys(ct: string): set<string>
  {
    {ct + "_hit_ratio", ct + "_miss_ratio", ct + "_hits", ct + "_misses", ct + "_total_accesses"}
  }

  /** The report of cache `ct` as it appears in the ratios dict. */
  function Report(ct: string, q: Option<CacheRatio>): (r: map<string, real>)
    ensures q.None? ==> r == map[]
    ensures q.Some? ==> r.Keys == ReportKeys(ct)
  {
    match q
    case None => map[]
    case Some(v) =>
      map[ct + "_hit_ratio" := v.hitRatio, ct + "_miss_ratio" := v.missRatio, ct + "_hits" := v.hits,
          ct + "_misses" := v.misses, ct + "_total_accesses" := v.totalAccesses]
  }

  /** `ratios` reports `q` for cache `ct`: all five keys with their values,
      or none of them. */
  ghost predicate Reports(ratios: map<string, real>, ct: string, q: Option<CacheRatio>)
  {
    match q
    case None => forall key :: key in ReportKeys(ct) ==> key !in ratios
    case Some(v) =>
      && ct + "_hit_ratio" in ratios && ratios[ct + "_hit_ratio"] == v.hitRatio
      && ct + "_miss_ratio" in ratios && ratios[ct + "_miss_ratio"] == v.missRatio
      && ct + "_hits" in ratios && ratios[ct + "_hits"] == v.hits
      && ct + "_misses" in ratios && ratios[ct + "_misses"] == v.misses
      && ct + "_total_accesses" in ratios && ratios[ct + "_total_accesses"] == v.totalAccesses
  }

  /** `calculate_cache_ratios`: the reports of the instruction cache and the
      data cache side by side, and no other keys. */
  function CalculateCacheRatios(d: Dict): (ratios: map<string, real>)
    ensures Reports(ratios, "icache", CacheRatioOf(d, "icache"))
    ensures Reports(ratios, "dcache", CacheRatioOf(d, "dcache"))
    ensures ratios.Keys <= ReportKeys("icache") + ReportKeys("dcache")
  {
    var i := Report("icache", CacheRatioOf(d, "icache"));
    var dc := Report("dcache", CacheRatioOf(d, "dcache"));
    ReportIsReports("icache", CacheRatioOf(d, "icache"));
    ReportIsReports("dcache", CacheRatioOf(d, "dcache"));
    ReportKeysDisjoint();
    ReportsUnion(i, dc, "icache", CacheRatioOf(d, "icache"), ReportKeys("dcache"));
    ReportsUnion(dc, i, "dcache", CacheRatioOf(d, "dcache"), ReportKeys("icache"));
    DisjointUnionCommutes(i, dc);
    i + dc
  }

  /** A report holds exactly its own five keys. */
  lemma ReportIsReports(ct: string, q: Option<CacheRatio>)
    ensures Reports(Report(ct, q), ct, q)
    ensures Report(ct, q).Keys <= ReportKeys(ct)
  {
    if q.Some? {
      // The five keys differ in length, except `_hits` and `_misses` that
      // differ in the character after the underscore.
      assert (ct + "_hits")[|ct| + 1] != (ct + "_misses")[|ct| + 1];
    }
  }

  /** Keys of another report leave this report as it is. */
  lemma ReportsUnion(m: map<string, real>, other: map<string, real>, ct: string, q: Option<CacheRatio>, otherKeys: set<string>)
    requires Reports(m, ct, q) && m.Keys <= ReportKeys(ct)
    requires other.Keys <= otherKeys && ReportKeys(ct) !! otherKeys
    ensures Reports(m + other, ct, q)
  {
  }

  /** Maps with disjoint keys can be merged in either order. */
  lemma DisjointUnionCommutes(a: map<string, real>, b: map<string, real>)
    requires a.Keys !! b.Keys
    ensures a + b == b + a
  {
  }

  /** No key of the instruction cache report is a key of the data cache report. */
  lemma ReportKeysDisjoint()
    ensures ReportKeys("icache") !! ReportKeys("dcache")
  {
    forall a, b | a in ReportKeys("icache") && b in ReportKeys("dcache")
      ensures a != b
    {
      assert a[0] == 'i' && b[0] == 'd';
    }
  }
}
