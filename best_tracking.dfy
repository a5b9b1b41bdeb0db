/**
 How the visualizer keeps its running "largest clique so far": a reported
 clique replaces the best one only when it has strictly more nodes.
 */
module BestTracking {

  /** The size of the largest set in cs, 0 when there is none. */
  function MaxSize(cs: seq<set<int>>): (m: nat)
    ensures forall c :: c in cs ==> |c| <= m
    ensures cs != [] ==> exists c :: c in cs && |c| == m
    ensures cs == [] ==> m == 0
  {
    if cs == [] then 0
    else
      var rest := MaxSize(cs[1..]);
      assert forall c :: c in cs[1..] ==> c in cs;
      if |cs[0]| > rest then |cs[0]| else rest
  }

  /** The best set after the reports rs have been offered, one by one, to the holder of best. */
  function Champion(rs: seq<set<int>>, best: set<int>): (c: set<int>)
    ensures |c| >= |best|
    ensures c == best || c in rs
  {
    if rs == [] then best
    else Champion(rs[1..], if |rs[0]| > |best| then rs[0] else best)
  }

  /** The final best is the initial one or one of the reports, and it is as large as both. */
  lemma {:induction false} ChampionIsLargest(rs: seq<set<int>>, best: set<int>)
    ensures |Champion(rs, best)| == if |best| >= MaxSize(rs) then |best| else MaxSize(rs)
    ensures Champion(rs, best) == best || Champion(rs, best) in rs
    decreases |rs|
  {
    if rs != [] {
      var next := if |rs[0]| > |best| then rs[0] else best;
      ChampionIsLargest(rs[1..], next);
      assert forall c :: c in rs[1..] ==> c in rs;
    }
  }

  /** The reports that replace the running best, in the order they do so. */
  function Records(rs: seq<set<int>>, best: set<int>): (out: seq<set<int>>)
    ensures |out| <= |rs|
    ensures forall c :: c in out ==> c in rs
  {
    if rs == [] then []
    else if |rs[0]| > |best| then [rs[0]] + Records(rs[1..], rs[0])
    else Records(rs[1..], best)
  }

  /**
   Every replacement is one of the reports and beats the initial best; the
   replacements strictly grow, and the last one is the final best.
   */
  lemma {:induction false} RecordsIncrease(rs: seq<set<int>>, best: set<int>)
    ensures forall c :: c in Records(rs, best) ==> c in rs && |c| > |best|
    ensures forall i, j :: 0 <= i < j < |Records(rs, best)| ==> |Records(rs, best)[i]| < |Records(rs, best)[j]|
    ensures Records(rs, best) != [] ==> Records(rs, best)[|Records(rs, best)| - 1] == Champion(rs, best)
    ensures Records(rs, best) == [] ==> Champion(rs, best) == best
    decreases |rs|
  {
    if rs != [] {
      var next := if |rs[0]| > |best| then rs[0] else best;
      RecordsIncrease(rs[1..], next);
      assert forall c :: c in rs[1..] ==> c in rs;
    }
  }

  /**
   Reference definition of the same reports: the ones strictly larger than
   the initial best and than every report before them.
   */
  ghost function Breakers(rs: seq<set<int>>, best: set<int>): seq<set<int>>
  {
    if rs == [] then []
    else
      var init, last := rs[..|rs| - 1], rs[|rs| - 1];
      Breakers(init, best) +
      (if |last| > |best| && forall j :: 0 <= j < |init| ==> |init[j]| < |last| then [last] else [])
  }

  /** Offering a + c is offering a, then c to whatever a left as the best. */
  lemma {:induction false} RecordsAppend(a: seq<set<int>>, c: seq<set<int>>, best: set<int>)
    ensures Records(a + c, best) == Records(a, best) + Records(c, Champion(a, best))
    ensures Champion(a + c, best) == Champion(c, Champion(a, best))
    decreases |a|
  {
    if a == [] {
      assert a + c == c;
    } else {
      assert (a + c)[1..] == a[1..] + c;
      var next := if |a[0]| > |best| then a[0] else best;
      RecordsAppend(a[1..], c, next);
    }
  }

  /** A report beats the best left by init exactly when it beats the initial best and every report of init. */
  lemma BeatsChampion(init: seq<set<int>>, last: set<int>, best: set<int>)
    ensures |last| > |Champion(init, best)| <==>
              |last| > |best| && forall j :: 0 <= j < |init| ==> |init[j]| < |last|
  {
    ChampionIsLargest(init, best);
    if |last| > |Champion(init, best)| {
      forall j | 0 <= j < |init| ensures |init[j]| < |last| {
        assert init[j] in init;
      }
    }
    if init != [] && |last| > |best| && forall j :: 0 <= j < |init| ==> |init[j]| < |last| {
      var m :| m in init && |m| == MaxSize(init);
      var j :| 0 <= j < |init| && init[j] == m;
    }
  }

  /** The fold replaces the best exactly at the record-breaking reports. */
  lemma {:induction false} RecordsAreBreakers(rs: seq<set<int>>, best: set<int>)
    ensures Records(rs, best) == Breakers(rs, best)
    decreases |rs|
  {
    if rs != [] {
      var init, last := rs[..|rs| - 1], rs[|rs| - 1];
      assert rs == init + [last];
      RecordsAppend(init, [last], best);
      RecordsAreBreakers(init, best);
      BeatsChampion(init, last, best);
      var champ := Champion(init, best);
      assert Records([last], champ) == if |last| > |champ| then [last] else [];
    }
  }

  /** Offering the sets to a holder that keeps a set until a strictly larger one comes ends with the first longest. */
  lemma {:induction false} ChampionIsFirstLongest(cs: seq<set<int>>, best: set<int>, k: nat)
    requires k < |cs|
    requires forall j :: 0 <= j < |cs| ==> |cs[j]| <= |cs[k]|
    requires forall j :: 0 <= j < k ==> |cs[j]| < |cs[k]|
    requires |best| < |cs[k]| || best == cs[k]
    ensures Champion(cs, best) == cs[k]
    decreases |cs|
  {
    var next := if |cs[0]| > |best| then cs[0] else best;
    if k == 0 {
      assert next == cs[0];
      ChampionKeeps(cs[1..], next);
    } else {
      ChampionIsFirstLongest(cs[1..], next, k - 1);
    }
  }

  /** A holder at least as large as every offered set keeps what it holds. */
  lemma {:induction false} ChampionKeeps(cs: seq<set<int>>, best: set<int>)
    requires forall j :: 0 <= j < |cs| ==> |cs[j]| <= |best|
    ensures Champion(cs, best) == best
    decreases |cs|
  {
    if cs != [] {
      ChampionKeeps(cs[1..], best);
    }
  }
}
