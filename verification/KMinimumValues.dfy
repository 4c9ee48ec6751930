/**
 The reference semantics of a theta sketch: the "k minimum values" sample of a set of hashes.
 A sample is a threshold theta and every hash of the set below it.
 */
module KMinimumValues {

  datatype Sample = Sample(entries: set<nat>, theta: nat)

  function Min(a: nat, b: nat): nat { if a <= b then a else b }

  function Below(s: set<nat>, theta: nat): set<nat>
  {
    set h | h in s && h < theta
  }

  /** `t` is the element of `s` that exactly `k` elements of `s` precede. */
  ghost predicate IsCutoff(k: nat, s: set<nat>, t: nat)
  {
    t in s && |Below(s, t)| == k
  }

  ghost function Cutoff(k: nat, s: set<nat>): (t: nat)
    requires |s| > k
    ensures IsCutoff(k, s, t)
  {
    CutoffExists(k, s);
    var t :| IsCutoff(k, s, t);
    t
  }

  /** The sample of capacity `k` of the hashes `s`, starting from the threshold `theta`. */
  ghost function Kmv(k: nat, s: set<nat>, theta: nat): Sample
  {
    var d := Below(s, theta);
    if |d| <= k then Sample(d, theta)
    else var t := Cutoff(k, d); Sample(Below(d, t), t)
  }

  /**
   A threshold `m` that a sketch of capacity `k` may have reached after seeing `s` from the
   starting threshold `start`: it has not moved, or it is a hash that was seen and at least
   `k` seen hashes lie below it.
   */
  ghost predicate Saturated(k: nat, s: set<nat>, start: nat, m: nat)
  {
    m == start || (m < start && m in s && |Below(s, m)| >= k)
  }

  /** The sample is all hashes below the start, or the `k` smallest and as theta the next one. */
  lemma KmvIs(k: nat, s: set<nat>, theta: nat)
    ensures var r := Kmv(k, s, theta);
            && (forall h :: h in r.entries <==> h in s && h < r.theta)
            && if |set h | h in s && h < theta| <= k then r.theta == theta
               else r.theta in s && r.theta < theta && |r.entries| == k
  {
    var d := Below(s, theta);
    assert d == set h | h in s && h < theta;
    if |d| > k {
      assert Below(d, Cutoff(k, d)) == Below(s, Cutoff(k, d));
    }
  }

  // ---- cardinality and order of finite sets ----

  lemma {:induction false} SubsetCard(a: set<nat>, b: set<nat>)
    requires a <= b
    ensures |a| <= |b|
    ensures |a| == |b| ==> a == b
  {
    assert b == a + (b - a);
    assert |b| == |a| + |b - a|;
  }

  lemma {:induction false} MaxExists(s: set<nat>) returns (m: nat)
    requires s != {}
    ensures m in s && forall h :: h in s ==> h <= m
  {
    var x :| x in s;
    if s == {x} {
      m := x;
    } else {
      var y := MaxExists(s - {x});
      m := if x < y then y else x;
      forall h | h in s
        ensures h <= m
      {
        assert h == x || h in s - {x};
      }
    }
  }

  lemma {:induction false} CutoffExists(k: nat, s: set<nat>)
    requires |s| > k
    ensures exists t :: IsCutoff(k, s, t)
    decreases |s|
  {
    var m := MaxExists(s);
    var rest := s - {m};
    assert Below(s, m) == rest;
    if |rest| == k {
      assert IsCutoff(k, s, m);
    } else {
      CutoffExists(k, rest);
      var t :| IsCutoff(k, rest, t);
      assert Below(rest, t) == Below(s, t);
      assert IsCutoff(k, s, t);
    }
  }

  /** Counting below distinguishes thresholds that lie in the set. */
  lemma BelowGrows(s: set<nat>, t: nat, u: nat)
    requires t in s && t < u
    ensures |Below(s, t)| < |Below(s, u)|
  {
    SubsetCard(Below(s, t) + {t}, Below(s, u));
  }

  lemma CutoffUnique(k: nat, s: set<nat>, t: nat, u: nat)
    requires IsCutoff(k, s, t) && IsCutoff(k, s, u)
    ensures t == u
  {
    if t < u {
      BelowGrows(s, t, u);
    } else if u < t {
      BelowGrows(s, u, t);
    }
  }

  lemma BelowBelow(s: set<nat>, t: nat, u: nat)
    ensures Below(Below(s, t), u) == Below(s, Min(t, u))
  {
  }

  // ---- the sample is insensitive to the threshold already reached ----

  /** A cutoff of the hashes below `theta`, if there is one, is the sample's threshold. */
  lemma KmvFromCutoff(k: nat, s: set<nat>, theta: nat, t: nat)
    requires t < theta && IsCutoff(k, s, t)
    ensures Kmv(k, s, theta) == Sample(Below(s, t), t)
  {
    var d := Below(s, theta);
    assert Below(d, t) == Below(s, t);
    BelowGrows(s, t, theta);
    CutoffUnique(k, d, Cutoff(k, d), t);
  }

  /**
   Whatever saturated threshold a sketch stopped at, cutting it to capacity gives the sample
   of everything seen from the starting threshold.
   */
  lemma KmvAtThreshold(k: nat, s: set<nat>, start: nat, m: nat)
    requires Saturated(k, s, start, m)
    ensures Kmv(k, s, m) == Kmv(k, s, start)
    ensures Kmv(k, Below(s, m), m) == Kmv(k, s, start)
  {
    assert Below(Below(s, m), m) == Below(s, m);
    if m < start {
      if |Below(s, m)| == k {
        KmvFromCutoff(k, s, start, m);
      } else {
        var t := Cutoff(k, Below(s, m));
        assert Below(Below(s, m), t) == Below(s, t);
        KmvFromCutoff(k, s, start, t);
        KmvFromCutoff(k, s, m, t);
      }
    }
  }

  /** The sample itself is a saturated state. */
  lemma KmvSaturated(k: nat, s: set<nat>, theta: nat)
    ensures var r := Kmv(k, s, theta);
            Saturated(k, s, theta, r.theta) && r.entries == Below(s, r.theta) && |r.entries| <= k
  {
    var d := Below(s, theta);
    if |d| > k {
      var t := Cutoff(k, d);
      assert Below(d, t) == Below(s, t);
    }
  }

  /** Seeing more hashes, or starting from a lower threshold, keeps a threshold saturated. */
  lemma SaturatedGrows(k: nat, s: set<nat>, start: nat, m: nat, s': set<nat>, start': nat)
    requires Saturated(k, s, start, m)
    requires s <= s' && start' <= start
    ensures Saturated(k, s', start', Min(m, start'))
  {
    if m < start' {
      SubsetCard(Below(s, m), Below(s', m));
    }
  }

  // ---- the algebra of merging ----

  /** Two sampled states of the same capacity merge into the sample of everything they saw. */
  lemma MergeStates(k: nat, a: set<nat>, ta: nat, ma: nat, b: set<nat>, tb: nat, mb: nat)
    requires Saturated(k, a, ta, ma) && Saturated(k, b, tb, mb)
    ensures Kmv(k, Below(a, ma) + Below(b, mb), Min(ma, mb)) == Kmv(k, a + b, Min(ta, tb))
  {
    var m := Min(ma, mb);
    if ma <= mb {
      SaturatedGrows(k, a, ta, ma, a + b, Min(ta, tb));
    } else {
      SaturatedGrows(k, b, tb, mb, a + b, Min(ta, tb));
    }
    assert Saturated(k, a + b, Min(ta, tb), m);
    assert Below(Below(a, ma) + Below(b, mb), m) == Below(a + b, m);
    KmvAtThreshold(k, a + b, Min(ta, tb), m);
  }

  ghost function Merge(k: nat, a: Sample, b: Sample): Sample
  {
    Kmv(k, a.entries + b.entries, Min(a.theta, b.theta))
  }

  lemma MergeOfSamples(k: nat, a: set<nat>, ta: nat, b: set<nat>, tb: nat)
    ensures Merge(k, Kmv(k, a, ta), Kmv(k, b, tb)) == Kmv(k, a + b, Min(ta, tb))
  {
    KmvSaturated(k, a, ta);
    KmvSaturated(k, b, tb);
    MergeStates(k, a, ta, Kmv(k, a, ta).theta, b, tb, Kmv(k, b, tb).theta);
  }

  /** A sample of capacity `k`: at most `k` entries, all below its threshold. */
  ghost predicate IsSample(k: nat, a: Sample)
  {
    |a.entries| <= k && a.entries == Below(a.entries, a.theta)
  }

  lemma SampleIsFixed(k: nat, a: Sample)
    requires IsSample(k, a)
    ensures Kmv(k, a.entries, a.theta) == a
  {
  }

  /** On samples of capacity `k`, merging is a commutative, associative, idempotent operation. */
  lemma MergeLaws(k: nat, a: Sample, b: Sample, c: Sample)
    requires IsSample(k, a) && IsSample(k, b) && IsSample(k, c)
    ensures Merge(k, a, b) == Merge(k, b, a)
    ensures Merge(k, Merge(k, a, b), c) == Merge(k, a, Merge(k, b, c))
    ensures Merge(k, a, a) == a
    ensures IsSample(k, Merge(k, a, b))
  {
    SampleIsFixed(k, a);
    SampleIsFixed(k, c);
    assert a.entries + b.entries == b.entries + a.entries;
    assert a.entries + a.entries == a.entries;
    assert (a.entries + b.entries) + c.entries == a.entries + (b.entries + c.entries);
    KmvSaturated(k, a.entries + b.entries, Min(a.theta, b.theta));
    MergeOfSamples(k, a.entries + b.entries, Min(a.theta, b.theta), c.entries, c.theta);
    MergeOfSamples(k, a.entries, a.theta, b.entries + c.entries, Min(b.theta, c.theta));
  }
}
