/** Pairing student ids with predicted probabilities and ranking them, highest
    probability first, as both prediction front ends do. */
module Ranking {
  import opened Records

  datatype Prediction = Prediction(studentId: int, probability: real)

  /** A trained model as the handlers use it: `model.predict(X)`. Its inside is
      not part of this model. */
  datatype Model = Model(predict: seq<Vector> -> seq<real>)

  /** `X_df["id_student"].tolist()` */
  function StudentIds(fs: seq<FeatureRow>): (ids: seq<int>)
    ensures |ids| == |fs|
    ensures forall i :: 0 <= i < |fs| ==> ids[i] == fs[i].idStudent
  {
    seq(|fs|, i requires 0 <= i < |fs| => fs[i].idStudent)
  }

  /** `X_df.drop(["id_student"], axis=1)`; the categorical retagging is the identity on values. */
  function Matrix(fs: seq<FeatureRow>): (xs: seq<Vector>)
    ensures |xs| == |fs|
    ensures forall i :: 0 <= i < |fs| ==> xs[i] == fs[i].x
  {
    seq(|fs|, i requires 0 <= i < |fs| => fs[i].x)
  }

  /** `zip(student_ids, probs)`: pairs up to the shorter of the two. */
  function Paired(ids: seq<int>, probs: seq<real>): (ps: seq<Prediction>)
    ensures |ps| == if |ids| <= |probs| then |ids| else |probs|
    ensures forall i :: 0 <= i < |ps| ==> ps[i] == Prediction(ids[i], probs[i])
  {
    if ids == [] || probs == [] then []
    else [Prediction(ids[0], probs[0])] + Paired(ids[1..], probs[1..])
  }

  /** The `results.append(...)` loop of the prediction handlers. */
  method PairResults(ids: seq<int>, probs: seq<real>) returns (results: seq<Prediction>)
    ensures results == Paired(ids, probs)
  {
    var n := if |ids| <= |probs| then |ids| else |probs|;
    results := [];
    var i := 0;
    while i < n
      invariant 0 <= i <= n
      invariant |results| == i
      invariant forall k :: 0 <= k < i ==> results[k] == Prediction(ids[k], probs[k])
    {
      results := results + [Prediction(ids[i], probs[i])];
      i := i + 1;
    }
  }

  predicate NonIncreasing(ps: seq<Prediction>) {
    forall i, j :: 0 <= i < j < |ps| ==> ps[i].probability >= ps[j].probability
  }

  /** Places `p` before the first entry whose probability is not above its own. */
  function InsertDesc(p: Prediction, s: seq<Prediction>): (r: seq<Prediction>)
    requires NonIncreasing(s)
    ensures NonIncreasing(r)
    ensures multiset(r) == multiset(s) + multiset{p}
  {
    if s == [] || s[0].probability <= p.probability then
      ConsNonIncreasing(p, s);
      [p] + s
    else
      var t := s[1..];
      assert s == [s[0]] + t;
      assert forall k :: 0 <= k < |t| ==> t[k].probability <= s[0].probability by {
        forall k | 0 <= k < |t| ensures t[k].probability <= s[0].probability {
          assert t[k] == s[k + 1];
        }
      }
      var rest := InsertDesc(p, t);
      UpperBoundKept(rest, t, p, s[0].probability);
      ConsNonIncreasing(s[0], rest);
      [s[0]] + rest
  }

  lemma ConsNonIncreasing(h: Prediction, t: seq<Prediction>)
    requires NonIncreasing(t)
    requires forall k :: 0 <= k < |t| ==> t[k].probability <= h.probability
    ensures NonIncreasing([h] + t)
  {
    var r := [h] + t;
    forall i, j | 0 <= i < j < |r| ensures r[i].probability >= r[j].probability {
      assert r[j] == t[j - 1];
      if i > 0 {
        assert r[i] == t[i - 1];
      }
    }
  }

  /** An upper bound on every probability survives a rearrangement. */
  lemma UpperBoundKept(a: seq<Prediction>, b: seq<Prediction>, x: Prediction, hi: real)
    requires multiset(a) == multiset(b) + multiset{x}
    requires x.probability <= hi
    requires forall k :: 0 <= k < |b| ==> b[k].probability <= hi
    ensures forall k :: 0 <= k < |a| ==> a[k].probability <= hi
  {
    forall k | 0 <= k < |a| ensures a[k].probability <= hi {
      assert a[k] in multiset(a);
      if a[k] != x {
        assert a[k] in multiset(b);
        var j :| 0 <= j < |b| && b[j] == a[k];
      }
    }
  }

  /** `sorted(results, key=probability, reverse=True)`. */
  function SortDesc(ps: seq<Prediction>): (r: seq<Prediction>)
    ensures NonIncreasing(r)
    ensures multiset(r) == multiset(ps)
  {
    if ps == [] then []
    else
      assert ps == [ps[0]] + ps[1..];
      InsertDesc(ps[0], SortDesc(ps[1..]))
  }

  /** The entries with probability `v`, in order. */
  function WithProbability(ps: seq<Prediction>, v: real): seq<Prediction> {
    if ps == [] then []
    else (if ps[0].probability == v then [ps[0]] else []) + WithProbability(ps[1..], v)
  }

  lemma NonIncreasingTail(s: seq<Prediction>)
    requires NonIncreasing(s) && s != []
    ensures NonIncreasing(s[1..])
  {
    forall i, j | 0 <= i < j < |s| - 1 ensures s[1..][i].probability >= s[1..][j].probability {
      assert s[1..][i] == s[i + 1] && s[1..][j] == s[j + 1];
    }
  }

  lemma WithProbabilityCons(h: Prediction, t: seq<Prediction>, v: real)
    ensures WithProbability([h] + t, v) == (if h.probability == v then [h] else []) + WithProbability(t, v)
  {
    var r := [h] + t;
    assert r[0] == h && r[1..] == t;
  }

  lemma {:induction false} InsertDescStable(p: Prediction, s: seq<Prediction>, v: real)
    requires NonIncreasing(s)
    ensures WithProbability(InsertDesc(p, s), v) == (if p.probability == v then [p] else []) + WithProbability(s, v)
  {
    var mine: seq<Prediction> := if p.probability == v then [p] else [];
    if s != [] && s[0].probability > p.probability {
      var t := s[1..];
      NonIncreasingTail(s);
      var rest := InsertDesc(p, t);
      var head: seq<Prediction> := if s[0].probability == v then [s[0]] else [];
      assert head == [] || mine == [];
      calc {
        WithProbability(InsertDesc(p, s), v);
        { assert InsertDesc(p, s) == [s[0]] + rest; }
        WithProbability([s[0]] + rest, v);
        { WithProbabilityCons(s[0], rest, v); }
        head + WithProbability(rest, v);
        { InsertDescStable(p, t, v); }
        head + (mine + WithProbability(t, v));
        mine + (head + WithProbability(t, v));
        { WithProbabilityCons(s[0], t, v); assert s == [s[0]] + t; }
        mine + WithProbability(s, v);
      }
    } else {
      assert InsertDesc(p, s) == [p] + s;
      WithProbabilityCons(p, s, v);
    }
  }

  /** The ranking is stable: entries of equal probability keep their order. */
  lemma {:induction false} SortDescStable(ps: seq<Prediction>, v: real)
    ensures WithProbability(SortDesc(ps), v) == WithProbability(ps, v)
  {
    if ps != [] {
      SortDescStable(ps[1..], v);
      InsertDescStable(ps[0], SortDesc(ps[1..]), v);
    }
  }

  /** The ranked list has one entry per feature row, each id with its own
      probability, in non-increasing order of probability. */
  lemma RankedPairs(ids: seq<int>, probs: seq<real>)
    requires |ids| == |probs|
    ensures |SortDesc(Paired(ids, probs))| == |ids|
    ensures NonIncreasing(SortDesc(Paired(ids, probs)))
    ensures forall p :: p in SortDesc(Paired(ids, probs)) <==>
      exists i :: 0 <= i < |ids| && p == Prediction(ids[i], probs[i])
  {
    var ps := Paired(ids, probs);
    var r := SortDesc(ps);
    assert |r| == |multiset(r)| == |multiset(ps)| == |ps|;
    forall p ensures p in r <==> exists i :: 0 <= i < |ids| && p == Prediction(ids[i], probs[i]) {
      assert p in r <==> p in multiset(r);
      assert p in ps <==> p in multiset(ps);
      if p in ps {
        var i :| 0 <= i < |ps| && ps[i] == p;
      }
      if exists i :: 0 <= i < |ids| && p == Prediction(ids[i], probs[i]) {
        var i :| 0 <= i < |ids| && p == Prediction(ids[i], probs[i]);
        assert ps[i] == p;
      }
    }
  }

  /** With one probability per feature row, the ranking has one entry per row,
      each student with its own probability, highest first. */
  lemma RankedFeatures(model: Model, fs: seq<FeatureRow>)
    requires |model.predict(Matrix(fs))| == |fs|
    ensures var ranked := SortDesc(Paired(StudentIds(fs), model.predict(Matrix(fs))));
      && |ranked| == |fs|
      && NonIncreasing(ranked)
      && forall p :: p in ranked <==>
           exists i :: 0 <= i < |fs| && p == Prediction(fs[i].idStudent, model.predict(Matrix(fs))[i])
  {
    var ids := StudentIds(fs);
    var probs := model.predict(Matrix(fs));
    RankedPairs(ids, probs);
  }
}
