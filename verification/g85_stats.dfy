/**
 * `getStatistics`: one pass over the die map counting dies, the two reserved
 * codes, and every code's occurrences; the substrate attributes and the header
 * are passed through. The counts do not depend on the order the dies are
 * visited in, so the pass is modelled as taking the remaining positions in any
 * order.
 */
module G85Stats {
  import opened Common
  import opened G85Model

  datatype Statistics = Statistics(
    totalDies: nat,
    defectCount: nat,
    referenceCount: nat,
    binDistribution: map<string, nat>,
    substrateInfo: MapAttributes,
    waferInfo: Header)

  /** The positions among `ks` holding code `c`. */
  ghost function WithCode(dies: map<Coord, string>, ks: set<Coord>, c: string): set<Coord>
  {
    set k | k in ks && k in dies && dies[k] == c
  }

  /** How many dies carry code `c`. */
  ghost function CodeCount(dies: map<Coord, string>, c: string): nat
  {
    |WithCode(dies, dies.Keys, c)|
  }

  /** The codes the dies among `ks` carry. */
  ghost function CodesOf(dies: map<Coord, string>, ks: set<Coord>): set<string>
  {
    set k | k in ks && k in dies :: dies[k]
  }

  /** Visiting one more die adds it to the count of its own code and to no other. */
  lemma WithCodeStep(dies: map<Coord, string>, ks: set<Coord>, k0: Coord, c: string)
    requires k0 in dies && k0 !in ks
    ensures |WithCode(dies, ks + {k0}, c)| == |WithCode(dies, ks, c)| + (if dies[k0] == c then 1 else 0)
  {
    if dies[k0] == c {
      assert WithCode(dies, ks + {k0}, c) == WithCode(dies, ks, c) + {k0};
    } else {
      assert WithCode(dies, ks + {k0}, c) == WithCode(dies, ks, c);
    }
  }

  /**
   * What the statistics of a map are: the total is the number of dies, the
   * defect and reference counts are the numbers of "EF" and "FA" dies, the
   * distribution holds exactly the codes that occur with their number of
   * occurrences, and the substrate attributes and header are handed through.
   */
  ghost predicate Describes(m: MapData, s: Statistics)
  {
    && s.totalDies == |m.dies|
    && s.defectCount == CodeCount(m.dies, DefectCode)
    && s.referenceCount == CodeCount(m.dies, ReferenceCode)
    && s.binDistribution.Keys == m.dies.Values
    && (forall c :: c in s.binDistribution ==> s.binDistribution[c] == CodeCount(m.dies, c))
    && s.substrateInfo == m.mapAttributes && s.waferInfo == m.header
  }

  /** The running counts after visiting the dies at `visited`: each is the count over those dies only. */
  ghost predicate Tally(dies: map<Coord, string>, visited: set<Coord>, total: nat, defects: nat, references: nat, histogram: map<string, nat>)
  {
    && total == |visited|
    && defects == |WithCode(dies, visited, DefectCode)|
    && references == |WithCode(dies, visited, ReferenceCode)|
    && histogram.Keys == CodesOf(dies, visited)
    && (forall c :: c in histogram ==> histogram[c] == |WithCode(dies, visited, c)|)
  }

  /** The distribution after counting one more die of code `status`. */
  function Bump(histogram: map<string, nat>, status: string): map<string, nat>
  {
    histogram[status := if status in histogram then histogram[status] + 1 else 1]
  }

  /** Before any die is counted, every count is zero and the distribution is empty. */
  lemma TallyNone(dies: map<Coord, string>)
    ensures Tally(dies, {}, 0, 0, 0, map[])
  {
    assert CodesOf(dies, {}) == {};
    assert WithCode(dies, {}, DefectCode) == {};
    assert WithCode(dies, {}, ReferenceCode) == {};
  }

  /** Counting one more die keeps the running counts right. */
  lemma TallyStep(dies: map<Coord, string>, visited: set<Coord>, total: nat, defects: nat, references: nat, histogram: map<string, nat>, k: Coord)
    requires Tally(dies, visited, total, defects, references, histogram)
    requires k in dies && k !in visited
    ensures var status := dies[k];
      Tally(dies, visited + {k}, total + 1,
            if status == DefectCode then defects + 1 else defects,
            if status == ReferenceCode then references + 1 else references,
            Bump(histogram, status))
  {
    var status := dies[k];
    WithCodeStep(dies, visited, k, DefectCode);
    WithCodeStep(dies, visited, k, ReferenceCode);
    forall c | c in histogram
      ensures |WithCode(dies, visited + {k}, c)| == |WithCode(dies, visited, c)| + (if status == c then 1 else 0)
    {
      WithCodeStep(dies, visited, k, c);
    }
    if status !in histogram {
      WithCodeStep(dies, visited, k, status);
      assert WithCode(dies, visited, status) == {} by {
        forall j | j in visited && j in dies ensures dies[j] != status {
          assert dies[j] in CodesOf(dies, visited);
        }
      }
    }
    assert CodesOf(dies, visited + {k}) == CodesOf(dies, visited) + {status};
  }

  /** Counts over all the dies are their statistics. */
  lemma TallyDescribes(m: MapData, total: nat, defects: nat, references: nat, histogram: map<string, nat>)
    requires Tally(m.dies, m.dies.Keys, total, defects, references, histogram)
    ensures Describes(m, Statistics(total, defects, references, histogram, m.mapAttributes, m.header))
  {
    assert CodesOf(m.dies, m.dies.Keys) == m.dies.Values;
  }

  /** `getStatistics`: one pass over the dies, in whatever order they come, yields their statistics. */
  method GetStatistics(m: MapData) returns (s: Statistics)
    ensures Describes(m, s)
  {
    var total, defects, references := 0, 0, 0;
    var histogram: map<string, nat> := map[];
    var remaining := m.dies.Keys;
    ghost var visited: set<Coord> := {};
    TallyNone(m.dies);
    while remaining != {}
      invariant remaining <= m.dies.Keys && visited == m.dies.Keys - remaining
      invariant Tally(m.dies, visited, total, defects, references, histogram)
      decreases |remaining|
    {
      var k :| k in remaining;
      var status := m.dies[k];
      TallyStep(m.dies, visited, total, defects, references, histogram, k);
      total := total + 1;
      if status == DefectCode {
        defects := defects + 1;
      } else if status == ReferenceCode {
        references := references + 1;
      }
      histogram := Bump(histogram, status);
      remaining := remaining - {k};
      visited := visited + {k};
    }
    assert visited == m.dies.Keys;
    TallyDescribes(m, total, defects, references, histogram);
    s := Statistics(total, defects, references, histogram, m.mapAttributes, m.header);
  }

  // ---------------------------------------------------------------------------
  // What the counts add up to

  /** The sum of the counts of the codes listed in `cs`. */
  ghost function TotalCount(dies: map<Coord, string>, cs: seq<string>): nat
    decreases |cs|
  {
    if |cs| == 0 then 0 else CodeCount(dies, cs[0]) + TotalCount(dies, cs[1..])
  }

  /** The dies whose code is not `c`. */
  ghost function Without(dies: map<Coord, string>, c: string): map<Coord, string>
  {
    map k | k in dies && dies[k] != c :: dies[k]
  }

  /** Removing the dies of one code leaves the counts of every other code alone. */
  lemma {:induction false} TotalCountWithout(dies: map<Coord, string>, c: string, cs: seq<string>)
    requires c !in cs
    ensures TotalCount(Without(dies, c), cs) == TotalCount(dies, cs)
    decreases |cs|
  {
    if |cs| > 0 {
      assert WithCode(Without(dies, c), Without(dies, c).Keys, cs[0]) == WithCode(dies, dies.Keys, cs[0]);
      TotalCountWithout(dies, c, cs[1..]);
    }
  }

  /** The dies split into those of code `c` and the rest. */
  lemma SplitByCode(dies: map<Coord, string>, c: string)
    ensures |dies| == CodeCount(dies, c) + |Without(dies, c)|
  {
    var mine := WithCode(dies, dies.Keys, c);
    var rest := Without(dies, c).Keys;
    assert dies.Keys == mine + rest;
    assert mine !! rest;
  }

  /** A map without values has no keys. */
  lemma NoValuesNoDies(dies: map<Coord, string>)
    ensures dies.Values == {} ==> dies == map[]
  {
    if dies != map[] {
      var k :| k in dies;
      assert dies[k] in dies.Values;
    }
  }

  /**
   * The distribution accounts for every die exactly once: listing the codes
   * that occur, each once, and adding up their counts gives the number of dies.
   */
  lemma {:induction false} CountsAddUp(dies: map<Coord, string>, cs: seq<string>)
    requires forall i, j :: 0 <= i < j < |cs| ==> cs[i] != cs[j]
    requires (set i | 0 <= i < |cs| :: cs[i]) == dies.Values
    ensures TotalCount(dies, cs) == |dies|
    decreases |cs|
  {
    if |cs| == 0 {
      NoValuesNoDies(dies);
    } else {
      var c, rest := cs[0], cs[1..];
      var smaller := Without(dies, c);
      assert c !in rest by {
        forall j | 0 <= j < |rest| ensures rest[j] != c { assert cs[0] != cs[j + 1]; }
      }
      assert (set i | 0 <= i < |rest| :: rest[i]) == smaller.Values by {
        forall v | v in smaller.Values ensures v in (set i | 0 <= i < |rest| :: rest[i]) {
          var k :| k in smaller && smaller[k] == v;
          assert dies[k] in dies.Values;
          var i :| 0 <= i < |cs| && cs[i] == v;
          assert i > 0 && rest[i - 1] == v;
        }
        forall i | 0 <= i < |rest| ensures rest[i] in smaller.Values {
          assert cs[i + 1] in dies.Values && cs[i + 1] != c;
          var k :| k in dies && dies[k] == cs[i + 1];
          assert k in smaller;
        }
      }
      CountsAddUp(smaller, rest);
      TotalCountWithout(dies, c, rest);
      SplitByCode(dies, c);
    }
  }

  /** The statistics' distribution sums to its die total, whatever order its codes are listed in. */
  lemma DistributionSumsToTotal(m: MapData, s: Statistics, cs: seq<string>)
    requires Describes(m, s)
    requires forall i, j :: 0 <= i < j < |cs| ==> cs[i] != cs[j]
    requires (set i | 0 <= i < |cs| :: cs[i]) == s.binDistribution.Keys
    ensures TotalCount(m.dies, cs) == s.totalDies
  {
    CountsAddUp(m.dies, cs);
  }

  /** Defective and reference dies are among the dies, and never the same die. */
  lemma ReservedWithinTotal(dies: map<Coord, string>)
    ensures CodeCount(dies, DefectCode) + CodeCount(dies, ReferenceCode) <= |dies|
  {
    var ef := WithCode(dies, dies.Keys, DefectCode);
    var fa := WithCode(dies, dies.Keys, ReferenceCode);
    assert ef !! fa;
    assert ef + fa <= dies.Keys;
    assert |ef + fa| == |ef| + |fa|;
    assert |ef + fa| <= |dies.Keys| by { CardinalitySubset(ef + fa, dies.Keys); }
  }

  lemma CardinalitySubset<T>(a: set<T>, b: set<T>)
    requires a <= b
    ensures |a| <= |b|
  {
    assert b == a + (b - a);
  }

  /**
   * For a map the parser built, the counts agree with its defects map: the
   * defect count is the number of "EF" entries there, the reference count the
   * number of "FA" entries, and together they are all of its entries.
   */
  lemma CountsMatchDefects(dies: map<Coord, string>, defects: map<Coord, Defect>)
    requires Classified(dies, defects)
    ensures CodeCount(dies, DefectCode) == |set k | k in defects && defects[k].kind == DefectCode|
    ensures CodeCount(dies, ReferenceCode) == |set k | k in defects && defects[k].kind == ReferenceCode|
    ensures CodeCount(dies, DefectCode) + CodeCount(dies, ReferenceCode) == |defects|
  {
    var ef := WithCode(dies, dies.Keys, DefectCode);
    var fa := WithCode(dies, dies.Keys, ReferenceCode);
    assert ef == set k | k in defects && defects[k].kind == DefectCode;
    assert fa == set k | k in defects && defects[k].kind == ReferenceCode;
    assert defects.Keys == ef + fa;
    assert ef !! fa;
  }

  /**
   * The statistics of a map are determined by it: two passes, in whatever
   * order they visit the dies, give equal results.
   */
  lemma StatisticsDetermined(m: MapData, s1: Statistics, s2: Statistics)
    requires Describes(m, s1) && Describes(m, s2)
    ensures s1 == s2
  {
    assert s1.binDistribution == s2.binDistribution;
  }

  /** The statistics' defect and reference counts never exceed its total. */
  lemma StatisticsBounded(m: MapData, s: Statistics)
    requires Describes(m, s)
    ensures s.defectCount + s.referenceCount <= s.totalDies
    ensures DefectCode in s.binDistribution ==> s.binDistribution[DefectCode] == s.defectCount
    ensures DefectCode !in s.binDistribution ==> s.defectCount == 0
  {
    ReservedWithinTotal(m.dies);
    if DefectCode !in s.binDistribution {
      assert WithCode(m.dies, m.dies.Keys, DefectCode) == {} by {
        forall k | k in m.dies ensures m.dies[k] != DefectCode {
          assert m.dies[k] in m.dies.Values;
        }
      }
    }
  }
}
