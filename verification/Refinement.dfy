/** The analyser is exactly what the trace says.  For every trace, `Run` raises at the
    first event `History.Fault` condemns, with that exception, and until then every
    table entry, the table orders and the rows are those `History` reads off the trace. */
module Refinement {
  import opened OrderedDict
  import opened Analyzer
  import opened History
  import opened Tables
  import Pages = PageRefinement
  import Heads = HeadRefinement

  /** What one event must do to a state that matches the first n events. */
  ghost predicate StepExact(tr: Trace, n: nat, s: State)
    requires n < |tr| && s.Valid()
  {
    match Step(s, tr[n])
    case Running(s') =>
      Fault(tr, n).None? && Refines(tr, n + 1, s') && s'.rows == s.rows + RowsAt(tr, n)
    case Crashed(why) => Fault(tr, n) == Some(why)
  }

  // ----- frames: tables an event does not touch

  lemma {:induction false} PagesFrame(tr: Trace, n: nat, s: State)
    requires n < |tr| && Refines(tr, n, s)
    requires !tr[n].PageAlloc? && !tr[n].FragAlloc? && !tr[n].PageFree? && !tr[n].Finalize? && !tr[n].FragFree?
    ensures ActivePagesMatch(tr, n + 1, s.activePages) && FreedPagesMatch(tr, n + 1, s.freedPages)
  {
    hide ActivePagesMatch, FreedPagesMatch, ActiveHeadsMatch, FreedHeadsMatch, ConsumedMatch;
    Pages.ActivePagesFrame(tr, n, s.activePages);
    Pages.FreedPagesFrame(tr, n, s.freedPages);
  }

  lemma {:induction false} HeadsFrame(tr: Trace, n: nat, s: State)
    requires n < |tr| && Refines(tr, n, s)
    requires !tr[n].HeadKmalloc? && !tr[n].Finalize? && !tr[n].SkbWithFrags? && !tr[n].HeadFree? && !tr[n].Kmalloc?
    ensures ActiveHeadsMatch(tr, n + 1, s.activeHeads) && FreedHeadsMatch(tr, n + 1, s.freedHeads)
  {
    hide ActivePagesMatch, FreedPagesMatch, ActiveHeadsMatch, FreedHeadsMatch, ConsumedMatch;
    Heads.ActiveHeadsFrame(tr, n, s.activeHeads);
    Heads.FreedHeadsFrame(tr, n, s.freedHeads);
  }

  lemma {:induction false} ConsumedFrame(tr: Trace, n: nat, s: State)
    requires n < |tr| && Refines(tr, n, s)
    requires !tr[n].Consume? && !tr[n].FragFree?
    requires tr[n].HeadFree? ==> !HeadLive(tr, n, tr[n].ptr)
    ensures ConsumedMatch(tr, n + 1, s.consumed)
  {
    hide ActivePagesMatch, FreedPagesMatch, ActiveHeadsMatch, FreedHeadsMatch, ConsumedMatch;
    Tables.ConsumedFrame(tr, n, s.consumed);
  }

  // ----- rows of a reused page

  lemma {:induction false} FragRowsExact(tr: Trace, n: nat, p: Addr, freed: real, ix: seq<nat>, frags: seq<Frag>)
    requires n < |tr| && tr[n].PageAlloc? && tr[n].page == p && PageEnd(tr, n, p) < n
    requires FragsMatch(tr, n, ix, frags) && freed == tr[PageEnd(tr, n, p)].time
    requires forall k :: 0 <= k < |ix| ==> ix[k] < n && FragOn(tr[ix[k]], p)
    ensures match FragRows(tr[n].time, p, freed, frags)
            case Rows(rows) => FirstIncomplete(tr, n, ix).None? && rows == FragRowsAt(tr, n, p, ix)
            case Missing(line) => FirstIncomplete(tr, n, ix) == Some(KeyMissing(line))
  {
    hide LastRelease, LastWrite, PageEnd, Attributed;
    if ix != [] {
      var l := |ix| - 1;
      assert FragsMatch(tr, n, ix[..l], frags[..l]);
      FragRowsExact(tr, n, p, freed, ix[..l], frags[..l]);
      assert FragOn(tr[ix[l]], p) && frags[l] == FragAt(tr, n, ix[l]);
    }
  }

  lemma {:induction false} ReusedPageExact(tr: Trace, n: nat, s: State)
    requires n < |tr| && tr[n].PageAlloc? && Refines(tr, n, s)
    requires tr[n].page !in s.activePages.items && tr[n].page in s.freedPages.items
    ensures var e := s.freedPages.items[tr[n].page];
            match FragRows(tr[n].time, tr[n].page, e.freeTime, e.page.frags)
            case Rows(rows) => Fault(tr, n).None? && rows == RowsAt(tr, n)
            case Missing(line) => Fault(tr, n) == Some(KeyMissing(line))
  {
    hide PageLive, PageStart, PageEnd, PageFrags, FragsMatch;
    var p := tr[n].page;
    var e := s.freedPages.items[p];
    assert PageMatches(tr, n, p, e.page);
    FragRowsExact(tr, n, p, e.freeTime, PageFrags(tr, n, p), e.page.frags);
  }

  // ----- the branches

  lemma {:induction false} PageKeys(tr: Trace, n: nat, s: State, p: Addr)
    requires n <= |tr| && Refines(tr, n, s)
    ensures p in s.activePages.items <==> PageLive(tr, n, p)
    ensures p in s.freedPages.items <==> PageParked(tr, n, p)
    ensures p in s.activePages.items ==> PageMatches(tr, n, p, s.activePages.items[p])
    ensures p in s.activePages.items ==> p !in s.freedPages.items
  {
    hide PageLive, PageParked, PageStart, PageEnd, PageFrags, PageMatches;
    assert PageParked(tr, n, p) ==> !PageLive(tr, n, p) by { ParkedIsDead(tr, n, p); }
  }

  lemma {:induction false} ParkedIsDead(tr: Trace, n: nat, p: Addr)
    requires n <= |tr|
    ensures PageParked(tr, n, p) ==> !PageLive(tr, n, p)
  {
  }

  lemma {:induction false} HeadKeys(tr: Trace, n: nat, s: State, x: Addr)
    requires n <= |tr| && Refines(tr, n, s)
    ensures x in s.activeHeads.items <==> HeadLive(tr, n, x)
    ensures x in s.freedHeads.items <==> HeadParked(tr, n, x)
    ensures HeadLive(tr, n, x) ==> HeadStart(tr, n, x) >= 0 && s.activeHeads.items[x] == HeadAt(tr, n, x)
    ensures HeadParked(tr, n, x) ==>
              LastTrackedFree(tr, n, x) >= 0 && s.freedHeads.items[x] == ParkedHeadAt(tr, n, x)
  {
    hide HeadAt, HeadLive, HeadStart, HeadBirth, ParkedHeadAt;
  }

  lemma {:induction false} PageAllocExact(tr: Trace, n: nat, s: State)
    requires n < |tr| && tr[n].PageAlloc? && Refines(tr, n, s)
    ensures StepExact(tr, n, s)
  {
    hide ActivePagesMatch, FreedPagesMatch, ActiveHeadsMatch, FreedHeadsMatch, ConsumedMatch;
    hide PageLive, PageParked, PageStart, PageEnd, PageFrags, PageMatches;
    PageKeys(tr, n, s, tr[n].page);
    if tr[n].page !in s.activePages.items {
      HeadsFrame(tr, n, s);
      ConsumedFrame(tr, n, s);
      Pages.PageAllocRefines(tr, n, s.activePages);
      if tr[n].page in s.freedPages.items {
        ReusedPageExact(tr, n, s);
        Pages.FreedPagesReused(tr, n, s.freedPages);
      } else {
        Pages.FreedPagesFrame(tr, n, s.freedPages);
      }
    }
  }

  lemma {:induction false} FragAllocExact(tr: Trace, n: nat, s: State)
    requires n < |tr| && tr[n].FragAlloc? && Refines(tr, n, s)
    ensures StepExact(tr, n, s)
  {
    hide ActivePagesMatch, FreedPagesMatch, ActiveHeadsMatch, FreedHeadsMatch, ConsumedMatch;
    hide PageLive, PageParked, PageStart, PageEnd, PageFrags, PageMatches;
    PageKeys(tr, n, s, tr[n].page);
    HeadsFrame(tr, n, s);
    ConsumedFrame(tr, n, s);
    Pages.FreedPagesFrame(tr, n, s.freedPages);
    if tr[n].page in s.activePages.items {
      Pages.FragAllocRefines(tr, n, s.activePages);
    } else {
      Pages.ActivePagesFrame(tr, n, s.activePages);
    }
  }

  lemma {:induction false} FragFreeExact(tr: Trace, n: nat, s: State)
    requires n < |tr| && tr[n].FragFree? && Refines(tr, n, s)
    ensures StepExact(tr, n, s)
  {
    hide ActivePagesMatch, FreedPagesMatch, ActiveHeadsMatch, FreedHeadsMatch, ConsumedMatch;
    hide PageLive, PageParked, PageStart, PageEnd, PageFrags, PageMatches;
    PageKeys(tr, n, s, tr[n].page);
    HeadsFrame(tr, n, s);
    ConsumedTaken(tr, n, s.consumed);
    Pages.FreedPagesFrame(tr, n, s.freedPages);
    if tr[n].page in s.activePages.items {
      Pages.FindPtrIsTarget(tr, n, s.activePages);
      if FindPtr(s.activePages.items[tr[n].page].frags, tr[n].ptr) >= 0 {
        Pages.FragFreeRefines(tr, n, s.activePages);
      } else {
        Pages.ActivePagesFrame(tr, n, s.activePages);
      }
    } else {
      Pages.ActivePagesFrame(tr, n, s.activePages);
    }
  }

  lemma {:induction false} PageFreeExact(tr: Trace, n: nat, s: State)
    requires n < |tr| && tr[n].PageFree? && Refines(tr, n, s)
    ensures StepExact(tr, n, s)
  {
    hide ActivePagesMatch, FreedPagesMatch, ActiveHeadsMatch, FreedHeadsMatch, ConsumedMatch;
    hide PageLive, PageParked, PageStart, PageEnd, PageFrags, PageMatches;
    HeadsFrame(tr, n, s);
    ConsumedFrame(tr, n, s);
    var p := tr[n].page;
    PageKeys(tr, n, s, p);
    if p in s.activePages.items {
      Pages.PageFreeRefines(tr, n, s.activePages);
      if s.activePages.items[p].frags == [] {
        Pages.UnusedPageVanishes(tr, n, s.freedPages, s.activePages.items[p]);
      } else {
        Pages.PageParks(tr, n, s.freedPages, s.activePages.items[p]);
      }
    } else {
      Pages.ActivePagesFrame(tr, n, s.activePages);
      Pages.FreedPagesFrame(tr, n, s.freedPages);
    }
  }

  lemma {:induction false} FinalizeExact(tr: Trace, n: nat, s: State)
    requires n < |tr| && tr[n].Finalize? && Refines(tr, n, s)
    ensures StepExact(tr, n, s)
  {
    hide ActivePagesMatch, FreedPagesMatch, ActiveHeadsMatch, FreedHeadsMatch, ConsumedMatch;
    hide PageLive, PageParked, PageStart, PageEnd, PageFrags, PageMatches;
    hide HeadAt, HeadLive, HeadParked, HeadStart, HeadBirth;
    ConsumedFrame(tr, n, s);
    Pages.FreedPagesFrame(tr, n, s.freedPages);
    Heads.FreedHeadsFrame(tr, n, s.freedHeads);
    Pages.FindPageIsTarget(tr, n, s.activePages);
    var k := FindPage(s.activePages, tr[n].ptr, 0);
    if k >= 0 {
      PageKeys(tr, n, s, s.activePages.keys[k]);
      Pages.FinalizeRefines(tr, n, s.activePages);
      assert LiveFragAt(tr, n, Pages.FoundAt(tr, n, s.activePages, k, tr[n].ptr), tr[n].ptr);
      Heads.ActiveHeadsFrame(tr, n, s.activeHeads);
    } else {
      Pages.ActivePagesFrame(tr, n, s.activePages);
      if tr[n].ptr in s.activeHeads.items {
        Heads.HeadEditRefines(tr, n, s.activeHeads, tr[n].ptr,
          s.activeHeads.items[tr[n].ptr].(write := Some(Write(tr[n].time, tr[n].skb))));
      } else {
        Heads.ActiveHeadsFrame(tr, n, s.activeHeads);
      }
    }
  }

  lemma {:induction false} HeadKmallocExact(tr: Trace, n: nat, s: State)
    requires n < |tr| && tr[n].HeadKmalloc? && Refines(tr, n, s)
    ensures StepExact(tr, n, s)
  {
    hide ActivePagesMatch, FreedPagesMatch, ActiveHeadsMatch, FreedHeadsMatch, ConsumedMatch;
    hide HeadAt, HeadLive, HeadParked, HeadStart, HeadBirth;
    HeadKeys(tr, n, s, tr[n].ptr);
    PagesFrame(tr, n, s);
    ConsumedFrame(tr, n, s);
    Heads.HeadKmallocRefines(tr, n, s.activeHeads);
    Heads.FreedHeadsFrame(tr, n, s.freedHeads);
  }

  lemma {:induction false} SkbWithFragsExact(tr: Trace, n: nat, s: State)
    requires n < |tr| && tr[n].SkbWithFrags? && Refines(tr, n, s)
    ensures StepExact(tr, n, s)
  {
    hide ActivePagesMatch, FreedPagesMatch, ActiveHeadsMatch, FreedHeadsMatch, ConsumedMatch;
    hide HeadAt, HeadLive, HeadParked, HeadStart, HeadBirth;
    hide Renames, ScanBlocked;
    PagesFrame(tr, n, s);
    ConsumedFrame(tr, n, s);
    Heads.FreedHeadsFrame(tr, n, s.freedHeads);
    Heads.FindHeadIsTarget(tr, n, s.activeHeads);
    match FindHead(s.activeHeads, tr[n].skb, 0)
    case NoSkbField =>
    case NoHead => Heads.ActiveHeadsFrame(tr, n, s.activeHeads);
    case Found(k) =>
      var x := s.activeHeads.keys[k];
      forall q | Renames(tr, n, q) ensures q == x { Heads.OneHeadRenamed(tr, n, q, x); }
      Heads.HeadEditRefines(tr, n, s.activeHeads, x, s.activeHeads.items[x].(allocFunc := tr[n].location));
  }

  lemma {:induction false} HeadFreeExact(tr: Trace, n: nat, s: State)
    requires n < |tr| && tr[n].HeadFree? && Refines(tr, n, s)
    ensures StepExact(tr, n, s)
  {
    hide ActivePagesMatch, FreedPagesMatch, ActiveHeadsMatch, FreedHeadsMatch, ConsumedMatch;
    hide HeadAt, HeadLive, HeadParked, HeadStart, HeadBirth;
    HeadKeys(tr, n, s, tr[n].ptr);
    PagesFrame(tr, n, s);
    if tr[n].ptr in s.activeHeads.items {
      ConsumedTaken(tr, n, s.consumed);
      Heads.HeadFreeRefines(tr, n, s.activeHeads);
      Heads.HeadParks(tr, n, s.freedHeads, s.activeHeads.items[tr[n].ptr]);
    } else {
      ConsumedFrame(tr, n, s);
      Heads.ActiveHeadsFrame(tr, n, s.activeHeads);
      Heads.FreedHeadsFrame(tr, n, s.freedHeads);
    }
  }

  lemma {:induction false} KmallocExact(tr: Trace, n: nat, s: State)
    requires n < |tr| && tr[n].Kmalloc? && Refines(tr, n, s)
    ensures StepExact(tr, n, s)
  {
    hide ActivePagesMatch, FreedPagesMatch, ActiveHeadsMatch, FreedHeadsMatch, ConsumedMatch;
    hide HeadLive, HeadStart, HeadBirth, LastTrackedFree, LastHeadWrite;
    HeadKeys(tr, n, s, tr[n].ptr);
    PagesFrame(tr, n, s);
    ConsumedFrame(tr, n, s);
    Heads.ActiveHeadsFrame(tr, n, s.activeHeads);
    if tr[n].ptr in s.freedHeads.items {
      Heads.HeadReused(tr, n, s.freedHeads);
    } else {
      Heads.FreedHeadsFrame(tr, n, s.freedHeads);
    }
  }

  lemma {:induction false} StepIsExact(tr: Trace, n: nat, s: State)
    requires n < |tr| && Refines(tr, n, s)
    ensures StepExact(tr, n, s)
  {
    hide ActivePagesMatch, FreedPagesMatch, ActiveHeadsMatch, FreedHeadsMatch, ConsumedMatch;
    match tr[n]
    case PageAlloc(_, _) => PageAllocExact(tr, n, s);
    case FragAlloc(_, _, _, _) => FragAllocExact(tr, n, s);
    case Finalize(_, _, _) => FinalizeExact(tr, n, s);
    case FragFree(_, _, _, _) => FragFreeExact(tr, n, s);
    case PageFree(_, _) => PageFreeExact(tr, n, s);
    case HeadKmalloc(_, _, _, _) => HeadKmallocExact(tr, n, s);
    case SkbWithFrags(_, _, _) => SkbWithFragsExact(tr, n, s);
    case HeadFree(_, _, _) => HeadFreeExact(tr, n, s);
    case Kmalloc(_, _) => KmallocExact(tr, n, s);
    case Consume(_, _, _) =>
      PagesFrame(tr, n, s); HeadsFrame(tr, n, s); ConsumedPut(tr, n, s.consumed);
    case Other(_) =>
      PagesFrame(tr, n, s); HeadsFrame(tr, n, s); ConsumedFrame(tr, n, s);
  }

  // ----- whole runs

  /** The first event that raises, for a trace that raises somewhere. */
  ghost predicate FirstFault(tr: Trace, n: nat, j: nat, why: Crash)
    requires n <= |tr|
  {
    j < n && Faultless(tr, j) && Fault(tr, j) == Some(why)
  }

  /** Main theorem: the analyser's outcome on every trace, from the trace alone. */
  lemma {:induction false} RunIsExact(tr: Trace, n: nat)
    requires n <= |tr|
    ensures Run(tr, n).Running? <==> Faultless(tr, n)
    ensures Run(tr, n).Running? ==>
              Refines(tr, n, Run(tr, n).s) && Run(tr, n).s.rows == RowsOf(tr, n)
    ensures Run(tr, n).Crashed? ==> exists j :: FirstFault(tr, n, j, Run(tr, n).why)
  {
    hide Refines, Step, Fault, RowsAt;
    if n == 0 {
      InitRefines(tr);
    } else {
      RunIsExact(tr, n - 1);
      if Run(tr, n - 1).Running? {
        StepIsExact(tr, n - 1, Run(tr, n - 1).s);
        assert Run(tr, n).Crashed? ==> FirstFault(tr, n, n - 1, Run(tr, n).why);
      } else {
        var j :| FirstFault(tr, n - 1, j, Run(tr, n - 1).why);
        assert FirstFault(tr, n, j, Run(tr, n).why);
      }
    }
  }

  /** What one more event adds to the rows of a run. */
  lemma {:induction false} RowsGrow(tr: Trace, n: nat)
    requires n < |tr|
    ensures Run(tr, n + 1).Running? ==>
              && Run(tr, n).Running? && Fault(tr, n).None?
              && Run(tr, n + 1).s.rows == Run(tr, n).s.rows + RowsAt(tr, n)
  {
    hide Run, Fault, RowsAt, Refines, FirstFault;
    RunIsExact(tr, n);
    RunIsExact(tr, n + 1);
    if Run(tr, n + 1).Running? { assert Fault(tr, n).None?; }
  }

  lemma {:induction false} InitRefines(tr: Trace)
    ensures Refines(tr, 0, INIT)
  {
  }
}
