/** What the loop's class-to-area tally amounts to. */
module Tally {
  import opened Outcomes
  import opened Masks
  import opened Predictions
  import opened Pipeline

  /** The area a prediction's mask covers, 0 when the mask cannot be decoded. */
  function AreaOf(p: Prediction, cfg: Config): nat
  {
    match Resolve(p, cfg)
    case Ok(m) => Area(m)
    case Err(_) => 0
  }

  /** What a prediction adds to the total of class `c`. */
  function Contribution(p: Prediction, cfg: Config, c: string): nat
  {
    if Qualifies(p, cfg.threshold) && ClassOf(p) == c then AreaOf(p, cfg) else 0
  }

  /** The sum of the areas of the predictions of class `c` in `ps` that pass the threshold. */
  function ClassTotal(ps: seq<Prediction>, cfg: Config, c: string): nat
  {
    if ps == [] then 0
    else ClassTotal(ps[..|ps| - 1], cfg, c) + Contribution(ps[|ps| - 1], cfg, c)
  }

  /** Some prediction of class `c` in `ps` passes the threshold. */
  predicate Tallied(ps: seq<Prediction>, threshold: real, c: string)
  {
    exists p :: p in ps && Qualifies(p, threshold) && ClassOf(p) == c
  }

  lemma {:induction false} ClassTotalOfUntallied(ps: seq<Prediction>, cfg: Config, c: string)
    requires !Tallied(ps, cfg.threshold, c)
    ensures ClassTotal(ps, cfg, c) == 0
  {
    if ps != [] {
      var init := ps[..|ps| - 1];
      assert ps == init + [ps[|ps| - 1]];
      assert !Tallied(init, cfg.threshold, c);
      ClassTotalOfUntallied(init, cfg, c);
    }
  }

  /** The loop completes exactly when the mask of every prediction that passes the threshold
      can be stripped, decoded and matches the image size. */
  lemma {:induction false} RunOkIff(ps: seq<Prediction>, cfg: Config)
    ensures Run(ps, cfg).Ok? <==> forall p :: p in ps && Qualifies(p, cfg.threshold) ==> Resolve(p, cfg).Ok?
  {
    if ps != [] {
      var init := ps[..|ps| - 1];
      assert ps == init + [ps[|ps| - 1]];
      RunOkIff(init, cfg);
    }
  }

  /** A processed prediction with no mask text (or an empty one) raises when its payload is
      decoded, so the whole loop raises. */
  lemma MissingMaskAborts(ps: seq<Prediction>, p: Prediction, cfg: Config)
    requires RejectsEmptyPayload(cfg.decode)
    requires p in ps && Qualifies(p, cfg.threshold) && MaskOf(p) == ""
    ensures Resolve(p, cfg) == Err(Undecodable)
    ensures Run(ps, cfg).Err?
  {
    RunOkIff(ps, cfg);
  }

  /** When the loop completes, the tally has a key exactly for each class with a prediction
      that passes the threshold, and its value is the sum of those predictions' areas. */
  lemma {:induction false} TallyIsClassTotal(ps: seq<Prediction>, cfg: Config)
    requires Run(ps, cfg).Ok?
    ensures forall c :: c in Run(ps, cfg).value.areas <==> Tallied(ps, cfg.threshold, c)
    ensures forall c :: c in Run(ps, cfg).value.areas ==> Run(ps, cfg).value.areas[c] == ClassTotal(ps, cfg, c)
  {
    if ps != [] {
      var init := ps[..|ps| - 1];
      var p := ps[|ps| - 1];
      assert ps == init + [p];
      TallyIsClassTotal(init, cfg);
      var before := Run(init, cfg).value.areas;
      var after := Run(ps, cfg).value.areas;
      forall c
        ensures c in after <==> Tallied(ps, cfg.threshold, c)
        ensures c in after ==> after[c] == ClassTotal(ps, cfg, c)
      {
        if Tallied(init, cfg.threshold, c) {
          var w :| w in init && Qualifies(w, cfg.threshold) && ClassOf(w) == c;
          assert w in ps;
        }
        if Tallied(ps, cfg.threshold, c) && !Tallied(init, cfg.threshold, c) {
          var w :| w in ps && Qualifies(w, cfg.threshold) && ClassOf(w) == c;
          assert w == p;
        }
        if Qualifies(p, cfg.threshold) && c == ClassOf(p) {
          assert p in ps;
          if c !in before {
            ClassTotalOfUntallied(init, cfg, c);
          }
        }
      }
    }
  }

  lemma {:induction false} ClassTotalConcat(a: seq<Prediction>, b: seq<Prediction>, cfg: Config, c: string)
    ensures ClassTotal(a + b, cfg, c) == ClassTotal(a, cfg, c) + ClassTotal(b, cfg, c)
  {
    if b == [] {
      assert a + b == a;
    } else {
      ClassTotalConcat(a, b[..|b| - 1], cfg, c);
      assert (a + b)[..|a + b| - 1] == a + b[..|b| - 1];
    }
  }

  /** Taking out the `j`th prediction takes out exactly its contribution. */
  lemma ClassTotalRemove(qs: seq<Prediction>, j: nat, cfg: Config, c: string)
    requires j < |qs|
    ensures ClassTotal(qs, cfg, c) ==
      ClassTotal(qs[..j] + qs[j + 1..], cfg, c) + Contribution(qs[j], cfg, c)
  {
    var front, back := qs[..j], qs[j + 1..];
    assert qs == front + [qs[j]] + back;
    ClassTotalConcat(front + [qs[j]], back, cfg, c);
    ClassTotalConcat(front, [qs[j]], cfg, c);
    ClassTotalConcat(front, back, cfg, c);
    assert [qs[j]][..0] == [];
  }

  /** Taking the last element of `ps` and an equal element of `qs` out of two permutations
      leaves two permutations. */
  lemma MultisetRemove(ps: seq<Prediction>, qs: seq<Prediction>, j: nat)
    requires multiset(ps) == multiset(qs) && ps != [] && j < |qs| && qs[j] == ps[|ps| - 1]
    ensures multiset(ps[..|ps| - 1]) == multiset(qs[..j] + qs[j + 1..])
  {
    var x := qs[j];
    var init, front, back := ps[..|ps| - 1], qs[..j], qs[j + 1..];
    assert ps == init + [x];
    assert qs == front + [x] + back;
    assert multiset(ps) == multiset(init) + multiset([x]);
    assert multiset(qs) == multiset(front) + multiset([x]) + multiset(back);
    assert multiset(front + back) == multiset(front) + multiset(back);
    assert multiset(init) == multiset(ps) - multiset([x]);
    assert multiset(front + back) == multiset(qs) - multiset([x]);
  }

  /** A class's total does not depend on the order of the predictions. */
  lemma {:induction false} ClassTotalPermutation(ps: seq<Prediction>, qs: seq<Prediction>, cfg: Config, c: string)
    requires multiset(ps) == multiset(qs)
    ensures ClassTotal(ps, cfg, c) == ClassTotal(qs, cfg, c)
  {
    if ps == [] {
      assert |qs| == |multiset(qs)| == 0;
    } else {
      var x := ps[|ps| - 1];
      assert x in multiset(qs);
      var j :| 0 <= j < |qs| && qs[j] == x;
      MultisetRemove(ps, qs, j);
      ClassTotalPermutation(ps[..|ps| - 1], qs[..j] + qs[j + 1..], cfg, c);
      ClassTotalRemove(qs, j, cfg, c);
    }
  }

  /** Reordering the predictions neither makes the loop fail nor changes the tally (the
      overlay, by contrast, depends on the order). */
  lemma TallyOrderIndependent(ps: seq<Prediction>, qs: seq<Prediction>, cfg: Config)
    requires multiset(ps) == multiset(qs) && Run(ps, cfg).Ok?
    ensures Run(qs, cfg).Ok?
    ensures Run(qs, cfg).value.areas == Run(ps, cfg).value.areas
  {
    assert forall p :: p in ps <==> p in qs by {
      forall p ensures p in ps <==> p in qs {
        assert p in ps <==> p in multiset(ps);
        assert p in qs <==> p in multiset(qs);
      }
    }
    RunOkIff(ps, cfg);
    RunOkIff(qs, cfg);
    TallyIsClassTotal(ps, cfg);
    TallyIsClassTotal(qs, cfg);
    var mp, mq := Run(ps, cfg).value.areas, Run(qs, cfg).value.areas;
    forall c ensures c in mp <==> c in mq {
      if Tallied(ps, cfg.threshold, c) {
        var w :| w in ps && Qualifies(w, cfg.threshold) && ClassOf(w) == c;
        assert w in qs;
      }
      if Tallied(qs, cfg.threshold, c) {
        var w :| w in qs && Qualifies(w, cfg.threshold) && ClassOf(w) == c;
        assert w in ps;
      }
    }
    forall c | c in mp ensures mp[c] == mq[c] {
      ClassTotalPermutation(ps, qs, cfg, c);
    }
    assert mp.Keys == mq.Keys;
  }

  /** A prediction below the threshold changes neither the tally nor the overlay, wherever it
      stands among the predictions. */
  lemma {:induction false} SkippedPredictionIsInert(a: seq<Prediction>, p: Prediction, b: seq<Prediction>, cfg: Config)
    requires !Qualifies(p, cfg.threshold)
    ensures Run(a + [p] + b, cfg) == Run(a + b, cfg)
  {
    if b == [] {
      assert a + [p] + b == a + [p];
      assert (a + [p])[..|a|] == a;
      assert a + b == a;
    } else {
      var init := b[..|b| - 1];
      SkippedPredictionIsInert(a, p, init, cfg);
      assert (a + [p] + b)[..|a + [p] + b| - 1] == a + [p] + init;
      assert (a + b)[..|a + b| - 1] == a + init;
      assert (a + [p] + b)[|a + [p] + b| - 1] == (a + b)[|a + b| - 1];
    }
  }
}
