/** The time columns of every row the analyser can print, for traces whose timestamps
    do not go backwards. */
module Timing {
  import opened OrderedDict
  import opened Analyzer
  import opened History
  import opened Refinement

  ghost predicate NonDecreasing(tr: Trace) {
    forall i, j :: 0 <= i <= j < |tr| ==> tr[i].time <= tr[j].time
  }

  ghost predicate Increasing(tr: Trace) {
    forall i, j :: 0 <= i < j < |tr| ==> tr[i].time < tr[j].time
  }

  /** Lifetime splits into use and free time, whatever the timestamps. */
  predicate Splits(r: Row) {
    r.lifetime == r.useTime + r.freeTime
  }

  predicate Lawful(r: Row) {
    && r.useTime >= 0.0 && r.freeTime >= 0.0 && r.realUseTime <= r.useTime
    && match r.kind
       case FragKind => r.pageFreeTime.Value? && 0.0 <= r.pageFreeTime.v <= r.freeTime
       case KmallocKind => r.pageFreeTime.Dash? && r.realUseTime >= 0.0
  }

  /** A release comes before the free of the page it happened on. */
  lemma {:induction false} ReleasedBeforePageFree(tr: Trace, n: nat, a: nat)
    requires a < n <= |tr| && tr[a].FragAlloc? && LastRelease(tr, n, a) >= 0
    requires PageEnd(tr, n, tr[a].page) < n
    ensures a < LastRelease(tr, n, a) < PageEnd(tr, n, tr[a].page)
  {
    var r, p := LastRelease(tr, n, a), tr[a].page;
    LastReleaseIsLatest(tr, n, a);
    assert LiveFrag(tr, r, a);
    var f := PageEnd(tr, n, p);
    assert Matches(tr[f], FreeOf(p)) && PageStart(tr, n, p) < f;
    StartGrows(tr, r, n, p);
  }

  lemma {:induction false} StartGrows(tr: Trace, m: nat, n: nat, p: Addr)
    requires m <= n <= |tr|
    ensures PageStart(tr, m, p) <= PageStart(tr, n, p)
  {
    var i := PageStart(tr, m, p);
    if i >= 0 { assert Matches(tr[i], AllocOf(p)); }
  }

  lemma {:induction false} FragRowLawful(tr: Trace, n: nat, a: nat)
    requires a < n < |tr| && tr[a].FragAlloc? && PageEnd(tr, n, tr[a].page) < n
    requires LastRelease(tr, n, a) >= 0 && LastWrite(tr, n, a) >= 0
    ensures Splits(FragRowAt(tr, n, a))
    ensures NonDecreasing(tr) ==> Lawful(FragRowAt(tr, n, a))
  {
    hide LastRelease, LastWrite, PageEnd, Attributed;
    ReleasedBeforePageFree(tr, n, a);
  }

  lemma {:induction false} HeadRowLawful(tr: Trace, n: nat, x: Addr)
    requires n < |tr| && LastTrackedFree(tr, n, x) >= 0
    requires LastHeadWrite(tr, LastTrackedFree(tr, n, x), x) >= 0
    ensures Splits(HeadRowAt(tr, n, x))
    ensures NonDecreasing(tr) ==> Lawful(HeadRowAt(tr, n, x))
  {
    hide LastHeadWrite, HeadAt, Attributed, LastTrackedFree;
  }

  lemma {:induction false} FragRowsLawful(tr: Trace, n: nat, p: Addr, ix: seq<nat>, k: nat)
    requires n < |tr| && PageEnd(tr, n, p) < n
    requires forall k :: 0 <= k < |ix| ==> ix[k] < n && FragOn(tr[ix[k]], p)
    requires FirstIncomplete(tr, n, ix).None?
    requires k < |FragRowsAt(tr, n, p, ix)|
    ensures Splits(FragRowsAt(tr, n, p, ix)[k])
    ensures NonDecreasing(tr) ==> Lawful(FragRowsAt(tr, n, p, ix)[k])
  {
    hide FragRowAt, LastRelease, LastWrite, Lawful, Splits;
    var l := |ix| - 1;
    if k < l {
      FragRowsLawful(tr, n, p, ix[..l], k);
    } else {
      assert FragOn(tr[ix[l]], p);
      FragRowLawful(tr, n, ix[l]);
    }
  }

  lemma {:induction false} RowsAtLawful(tr: Trace, n: nat, k: nat)
    requires n < |tr| && Fault(tr, n).None? && k < |RowsAt(tr, n)|
    ensures Splits(RowsAt(tr, n)[k])
    ensures NonDecreasing(tr) ==> Lawful(RowsAt(tr, n)[k])
  {
    hide HeadRowAt, FragRowsAt, Lawful, Splits;
    if tr[n].PageAlloc? {
      FragRowsLawful(tr, n, tr[n].page, PageFrags(tr, n, tr[n].page), k);
    } else {
      HeadRowLawful(tr, n, tr[n].ptr);
    }
  }

  lemma {:induction false} RowsOfLawful(tr: Trace, n: nat, k: nat)
    requires n <= |tr| && Faultless(tr, n) && k < |RowsOf(tr, n)|
    ensures Splits(RowsOf(tr, n)[k])
    ensures NonDecreasing(tr) ==> Lawful(RowsOf(tr, n)[k])
  {
    hide RowsAt, Lawful, Splits, Fault;
    var m := |RowsOf(tr, n - 1)|;
    if k < m { RowsOfLawful(tr, n - 1, k); } else { RowsAtLawful(tr, n - 1, k - m); }
  }

  /** The timing laws of every printed row, for every trace. */
  lemma {:induction false} RowsAreLawful(tr: Trace, n: nat)
    requires n <= |tr|
    ensures Run(tr, n).Running? ==>
              forall k :: 0 <= k < |Run(tr, n).s.rows| ==> Splits(Run(tr, n).s.rows[k])
    ensures Run(tr, n).Running? && NonDecreasing(tr) ==>
              forall k :: 0 <= k < |Run(tr, n).s.rows| ==> Lawful(Run(tr, n).s.rows[k])
  {
    hide Run, RowsOf, Lawful, Splits;
    RunIsExact(tr, n);
    if Run(tr, n).Running? {
      forall k | 0 <= k < |RowsOf(tr, n)|
        ensures Splits(RowsOf(tr, n)[k]) && (NonDecreasing(tr) ==> Lawful(RowsOf(tr, n)[k]))
      {
        RowsOfLawful(tr, n, k);
      }
    }
  }

  // ----- the sign of real use time

  lemma {:induction false} FragRowsIndex(tr: Trace, n: nat, p: Addr, ix: seq<nat>, k: nat)
    requires n < |tr| && PageEnd(tr, n, p) < n
    requires forall k :: 0 <= k < |ix| ==> ix[k] < n && FragOn(tr[ix[k]], p)
    requires FirstIncomplete(tr, n, ix).None? && k < |ix|
    ensures FragOn(tr[ix[k]], p) && LastRelease(tr, n, ix[k]) >= 0 && LastWrite(tr, n, ix[k]) >= 0
    ensures FragRowsAt(tr, n, p, ix)[k] == FragRowAt(tr, n, ix[k])
  {
    hide FragRowAt, LastRelease, LastWrite;
    assert FragOn(tr[ix[k]], p);
    var l := |ix| - 1;
    if k < l { FragRowsIndex(tr, n, p, ix[..l], k); }
  }

  /** When event n reallocates a parked page without raising, its fragment number k becomes
      this row of the run. */
  lemma {:induction false} RowOfFragment(tr: Trace, n: nat, k: nat)
    requires n < |tr| && tr[n].PageAlloc? && PageParked(tr, n, tr[n].page)
    requires k < |PageFrags(tr, n, tr[n].page)|
    ensures Run(tr, n + 1).Running? ==>
              && Run(tr, n).Running?
              && var a, r := PageFrags(tr, n, tr[n].page)[k], |Run(tr, n).s.rows| + k;
                 && FragOn(tr[a], tr[n].page) && PageEnd(tr, n, tr[a].page) < n
                 && LastRelease(tr, n, a) >= 0 && LastWrite(tr, n, a) >= 0
                 && r < |Run(tr, n + 1).s.rows| && Run(tr, n + 1).s.rows[r] == FragRowAt(tr, n, a)
  {
    hide Run, FragRowAt, PageFrags, PageStart, PageLive, PageEnd, LastRelease, LastWrite, FragRowsAt;
    RowsGrow(tr, n);
    if Run(tr, n + 1).Running? {
      ParkedEnds(tr, n, tr[n].page);
      FragRowsIndex(tr, n, tr[n].page, PageFrags(tr, n, tr[n].page), k);
    }
  }

  lemma {:induction false} ParkedEnds(tr: Trace, n: nat, p: Addr)
    requires n <= |tr| && PageParked(tr, n, p)
    ensures PageEnd(tr, n, p) < n
  {
  }

  /** Every finalize that reaches the fragment after its last release carries the release's
      own timestamp. */
  ghost predicate NoLaterFinalize(tr: Trace, n: nat, a: nat)
    requires n <= |tr| && LastRelease(tr, n, a) >= 0
  {
    forall j: nat :: LastRelease(tr, n, a) < j < n && Finalizes(tr, j, a) ==>
      tr[j].time == tr[LastRelease(tr, n, a)].time
  }

  lemma {:induction false} FragRowSign(tr: Trace, n: nat, a: nat)
    requires a < n < |tr| && tr[a].FragAlloc? && PageEnd(tr, n, tr[a].page) < n
    requires LastRelease(tr, n, a) >= 0 && LastWrite(tr, n, a) >= 0 && NonDecreasing(tr)
    ensures FragRowAt(tr, n, a).realUseTime >= 0.0 <==> NoLaterFinalize(tr, n, a)
  {
    hide LastRelease, LastWrite, PageEnd, Attributed, Finalizes, Releases;
    LastWriteIsLatest(tr, n, a);
    var w, r := LastWrite(tr, n, a), LastRelease(tr, n, a);
    assert tr[w].Finalize? && tr[r].FragFree?;
    if tr[w].time <= tr[r].time {
      forall j: nat | r < j < n && Finalizes(tr, j, a) ensures tr[j].time == tr[r].time {
        assert j <= w;
      }
    }
  }

  /** The row a reallocation prints for a fragment has a real use time of at least 0 exactly
      when no finalize later than its last release reached the fragment. */
  lemma {:induction false} RealUseSign(tr: Trace, n: nat, k: nat)
    requires n < |tr| && tr[n].PageAlloc? && PageParked(tr, n, tr[n].page)
    requires k < |PageFrags(tr, n, tr[n].page)| && NonDecreasing(tr)
    ensures Run(tr, n + 1).Running? ==>
              && Run(tr, n).Running?
              && var a, r := PageFrags(tr, n, tr[n].page)[k], |Run(tr, n).s.rows| + k;
                 && r < |Run(tr, n + 1).s.rows| && LastRelease(tr, n, a) >= 0
                 && (Run(tr, n + 1).s.rows[r].realUseTime >= 0.0 <==> NoLaterFinalize(tr, n, a))
  {
    hide Run, FragRowAt, NoLaterFinalize, PageFrags, LastRelease, LastWrite, PageParked, PageEnd;
    RowOfFragment(tr, n, k);
    if Run(tr, n + 1).Running? { FragRowSign(tr, n, PageFrags(tr, n, tr[n].page)[k]); }
  }

  const LATE_FINALIZE: seq<Event> := [
    PageAlloc(0.0, 1), FragAlloc(1.0, 1, 7, "alloc"), FragFree(2.0, 1, 7, 9),
    Finalize(3.0, 7, 9), PageFree(4.0, 1), PageAlloc(5.0, 1)]

  const TAKEN := Frag(7, 1.0, "alloc", None, None)
  const RELEASED := TAKEN.(release := Some(Release(2.0, NOT_FOUND)))
  const REWRITTEN := RELEASED.(write := Some(Write(3.0, 9)))

  function OnePage(f: Frag): State {
    INIT.(activePages := Dict([1], map[1 := Page(0.0, [f])]))
  }

  const PARKED := INIT.(freedPages := Dict([1], map[1 := FreedPage(Page(0.0, [REWRITTEN]), 4.0)]))

  lemma {:induction false} TakenAt2()
    ensures Run(LATE_FINALIZE, 2) == Running(OnePage(TAKEN))
  {
    assert Run(LATE_FINALIZE, 0) == Running(INIT);
    assert Run(LATE_FINALIZE, 1) == Running(INIT.(activePages := Dict([1], map[1 := Page(0.0, [])])));
    assert [] + [TAKEN] == [TAKEN];
  }

  lemma {:induction false} ReleaseIt()
    ensures OnFragFree(OnePage(TAKEN), 2.0, 1, 7, 9) == Running(OnePage(RELEASED))
  {
    assert FindPtr([TAKEN], 7) == 0;
    assert [TAKEN][0 := RELEASED] == [RELEASED];
    assert OnePage(TAKEN).activePages.Put(1, Page(0.0, [RELEASED])) == OnePage(RELEASED).activePages;
  }

  lemma {:induction false} RewriteIt()
    ensures OnFinalize(OnePage(RELEASED), 3.0, 7, 9) == Running(OnePage(REWRITTEN))
  {
    assert FindPtr([RELEASED], 7) == 0;
    assert FindPage(OnePage(RELEASED).activePages, 7, 0) == 0;
    assert [RELEASED][0 := REWRITTEN] == [REWRITTEN];
    assert OnePage(RELEASED).activePages.Put(1, Page(0.0, [REWRITTEN])) == OnePage(REWRITTEN).activePages;
  }

  lemma {:induction false} ParkIt()
    ensures OnPageFree(OnePage(REWRITTEN), 4.0, 1) == Running(PARKED)
  {
    var d := OnePage(REWRITTEN).activePages;
    var page := FreedPage(d.items[1], 4.0);
    assert d.Pop(1) == Empty() by { assert d.Pop(1).keys == [] && d.Pop(1).items == map[]; }
    assert Empty().Put(1, page) == PARKED.freedPages by { assert [] + [1] == [1]; }
  }

  lemma {:induction false} ReuseIt()
    ensures OnPageAlloc(PARKED, 5.0, 1).Running?
    ensures OnPageAlloc(PARKED, 5.0, 1).s.rows == [FragRow(5.0, 1, 4.0, REWRITTEN)]
  {
    assert [REWRITTEN][..0] == [];
    assert FragRows(5.0, 1, 4.0, []) == Rows([]);
    assert FragRows(5.0, 1, 4.0, [REWRITTEN]) == Rows([FragRow(5.0, 1, 4.0, REWRITTEN)]);
  }

  /** Real use time can be negative: the fragment is finalised once more after its release. */
  lemma {:induction false} RealUseCanBeNegative()
    ensures Increasing(LATE_FINALIZE)
    ensures Run(LATE_FINALIZE, 6).Running?
    ensures |Run(LATE_FINALIZE, 6).s.rows| == 1 && Run(LATE_FINALIZE, 6).s.rows[0].realUseTime == -1.0
  {
    hide OnFragFree, OnFinalize, OnPageFree, OnPageAlloc, Increasing, FragRow, Run;
    LateIncreasing();
    TakenAt2();
    ReleaseIt();
    RewriteIt();
    ParkIt();
    ReuseIt();
    FourSteps(LATE_FINALIZE, OnePage(TAKEN), OnePage(RELEASED), OnePage(REWRITTEN), PARKED);
    LateRow();
  }

  lemma {:induction false} FourSteps(tr: Trace, s2: State, s3: State, s4: State, s5: State)
    requires |tr| == 6 && s2.Valid() && s3.Valid() && s4.Valid() && s5.Valid()
    ensures Run(tr, 2) == Running(s2) && Step(s2, tr[2]) == Running(s3)
            && Step(s3, tr[3]) == Running(s4) && Step(s4, tr[4]) == Running(s5)
            ==> Run(tr, 6) == Step(s5, tr[5])
  {
    hide Step;
    assert Run(tr, 2) == Running(s2) ==> Run(tr, 3) == Step(s2, tr[2]);
    assert Run(tr, 3) == Running(s3) ==> Run(tr, 4) == Step(s3, tr[3]);
    assert Run(tr, 4) == Running(s4) ==> Run(tr, 5) == Step(s4, tr[4]);
  }

  lemma {:induction false} LateRow()
    ensures FragRow(5.0, 1, 4.0, REWRITTEN).realUseTime == -1.0
  {
  }

  lemma {:induction false} LateIncreasing()
    ensures Increasing(LATE_FINALIZE)
  {
  }
}
