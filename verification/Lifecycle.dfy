/** What the exact refinement says about runs: which assertions can never fail, when the
    two head tables overlap, what unique addresses buy, which release gets which consume
    location, and a lifecycle discipline under which no trace can stop the analyser. */
module Lifecycle {
  import opened OrderedDict
  import opened Analyzer
  import opened History
  import opened Tables
  import opened Refinement
  import Pages = PageRefinement
  import opened Conservation
  import Timing

  // ----- the tables of a run

  /** A page is active iff its last page event is an alloc, and freed iff it was freed since
      its last alloc with a fragment taken before; never both.  Either way its fragments are
      exactly those taken from it since that alloc, in order, with their latest stamps. */
  lemma {:induction false} PageTablesExact(tr: Trace, n: nat, p: Addr)
    requires n <= |tr|
    ensures Run(tr, n).Running? ==>
              var s := Run(tr, n).s;
              && (p in s.activePages.items <==> PageLive(tr, n, p))
              && (p in s.freedPages.items <==> PageParked(tr, n, p))
              && !(p in s.activePages.items && p in s.freedPages.items)
              && (p in s.activePages.items ==> FragsMatch(tr, n, PageFrags(tr, n, p), s.activePages.items[p].frags))
              && (p in s.freedPages.items ==>
                    var frags := s.freedPages.items[p].page.frags;
                    FragsMatch(tr, n, PageFrags(tr, n, p), frags) && frags != [])
  {
    hide Run, RowsOf, PageLive, PageFrags, FragsMatch;
    RunIsExact(tr, n);
    if Run(tr, n).Running? {
      var s := Run(tr, n).s;
      PageKeys(tr, n, s, p);
      if p in s.freedPages.items { ParkedFrags(tr, n, p, s.freedPages.items[p].page); }
    }
  }

  lemma {:induction false} ParkedFrags(tr: Trace, n: nat, p: Addr, e: Page)
    requires n <= |tr| && PageParked(tr, n, p) && PageMatches(tr, n, p, e)
    ensures FragsMatch(tr, n, PageFrags(tr, n, p), e.frags) && e.frags != []
  {
  }

  /** The head tables and the pending locations, by address. */
  lemma {:induction false} HeadTablesExact(tr: Trace, n: nat, x: Addr)
    requires n <= |tr|
    ensures Run(tr, n).Running? ==>
              var s := Run(tr, n).s;
              && s.activeHeads.Get(x) == (if HeadLive(tr, n, x) then Some(HeadAt(tr, n, x)) else None)
              && s.freedHeads.Get(x) == (if HeadParked(tr, n, x) then Some(ParkedHeadAt(tr, n, x)) else None)
              && s.consumed.Get(x) ==
                   (if Pending(tr, n, x) >= 0 then Some(tr[Pending(tr, n, x)].location) else None)
  {
    hide Run, RowsOf, HeadLive, HeadParked, HeadAt, ParkedHeadAt, Pending;
    RunIsExact(tr, n);
    if Run(tr, n).Running? { HeadKeys(tr, n, Run(tr, n).s, x); }
  }

  /** The assertions at lines 103, 107 and 152 hold on every trace. */
  lemma {:induction false} DeadAssertions(tr: Trace, n: nat)
    requires n <= |tr|
    ensures Run(tr, n) != Crashed(AssertionFailed(103))
    ensures Run(tr, n) != Crashed(AssertionFailed(107))
    ensures Run(tr, n) != Crashed(AssertionFailed(152))
  {
    hide Run, RowsOf, Refines, FirstIncomplete;
    RunIsExact(tr, n);
    if Run(tr, n).Crashed? {
      var j: nat :| FirstFault(tr, n, j, Run(tr, n).why);
      if tr[j].PageAlloc? { IncompleteIsKey(tr, j, PageFrags(tr, j, tr[j].page)); }
    }
  }

  lemma {:induction false} IncompleteIsKey(tr: Trace, n: nat, ix: seq<nat>)
    requires n <= |tr|
    ensures FirstIncomplete(tr, n, ix).Some? ==> FirstIncomplete(tr, n, ix).value.KeyMissing?
  {
    if ix != [] { IncompleteIsKey(tr, n, ix[..|ix| - 1]); }
  }

  // ----- overlap of the head tables

  /** A head address is live and parked at once exactly when it was allocated by
      skb_head_kmalloc, but not by kmalloc or the small-head cache, since its last tracked free. */
  lemma {:induction false} OverlapCondition(tr: Trace, n: nat, x: Addr)
    requires n <= |tr|
    ensures HeadLive(tr, n, x) && HeadParked(tr, n, x) <==>
              var f := LastTrackedFree(tr, n, x);
              f >= 0 && HeadStart(tr, n, x) > f && Last(tr, n, ReuseOf(x)) < f
  {
    var f, h := LastTrackedFree(tr, n, x), HeadStart(tr, n, x);
    if f >= 0 {
      assert Matches(tr[f], HeadFreeOf(x));
      if h > f && !HeadLive(tr, n, x) {
        var g := First(tr, h, n, HeadFreeOf(x));
        assert g < n && Matches(tr[g], HeadFreeOf(x));
        assert HeadStart(tr, g, x) == h by { assert Matches(tr[h], HeadAllocOf(x)); }
        assert HeadLive(tr, g, x);
        assert TrackedFree(tr, g, x);
      }
    }
  }

  lemma {:induction false} HeadTablesOverlap(tr: Trace, n: nat, x: Addr)
    requires n <= |tr|
    ensures Run(tr, n).Running? ==>
              (x in Run(tr, n).s.activeHeads.items && x in Run(tr, n).s.freedHeads.items <==>
                 var f := LastTrackedFree(tr, n, x);
                 f >= 0 && HeadStart(tr, n, x) > f && Last(tr, n, ReuseOf(x)) < f)
  {
    hide Run, RowsOf, Refines, HeadLive, HeadParked, LastTrackedFree, Last;
    RunIsExact(tr, n);
    if Run(tr, n).Running? { HeadKeys(tr, n, Run(tr, n).s, x); }
    OverlapCondition(tr, n, x);
  }

  /** Every skb_head_kmalloc of a freed address comes after a kmalloc or small-head event for it. */
  ghost predicate ReuseAnnounced(tr: Trace, n: nat)
    requires n <= |tr|
  {
    forall j: nat :: j < n && tr[j].HeadKmalloc? ==> !HeadParked(tr, j, tr[j].ptr)
  }

  lemma {:induction false} HeadTablesDisjoint(tr: Trace, n: nat, x: Addr)
    requires n <= |tr| && ReuseAnnounced(tr, n)
    ensures Run(tr, n).Running? ==>
              !(x in Run(tr, n).s.activeHeads.items && x in Run(tr, n).s.freedHeads.items)
  {
    hide Run, HeadParked, LastTrackedFree, HeadStart, Last;
    HeadTablesOverlap(tr, n, x);
    OverlapIsUnannounced(tr, n, x);
  }

  lemma {:induction false} OverlapIsUnannounced(tr: Trace, n: nat, x: Addr)
    requires n <= |tr|
    ensures var f, h := LastTrackedFree(tr, n, x), HeadStart(tr, n, x);
            f >= 0 && h > f && Last(tr, n, ReuseOf(x)) < f ==>
              tr[h].HeadKmalloc? && tr[h].ptr == x && HeadParked(tr, h, x)
  {
    var f, h := LastTrackedFree(tr, n, x), HeadStart(tr, n, x);
    if f >= 0 && h > f && Last(tr, n, ReuseOf(x)) < f {
      assert Matches(tr[h], HeadAllocOf(x));
      var i := LastTrackedFree(tr, h, x);
      assert TrackedFree(tr, f, x) && (i >= 0 ==> TrackedFree(tr, i, x));
      var r := Last(tr, h, ReuseOf(x));
      if r >= 0 { assert Matches(tr[r], ReuseOf(x)); }
    }
  }

  // ----- unique addresses

  /** No two live fragments share an address. */
  ghost predicate UniqueFrags(tr: Trace, n: nat)
    requires n <= |tr|
  {
    forall a, b, ptr :: LiveFragAt(tr, n, a, ptr) && LiveFragAt(tr, n, b, ptr) ==> a == b
  }

  /** With unique addresses a live fragment is finalised by every finalize of its
      address and released by every free of its address and page. */
  lemma {:induction false} UniqueTargets(tr: Trace, j: nat, a: nat)
    requires j < |tr| && UniqueFrags(tr, j) && LiveFrag(tr, j, a)
    ensures Finalizes(tr, j, a) <==> tr[j].Finalize? && tr[j].ptr == tr[a].ptr
    ensures Releases(tr, j, a) <==> tr[j].FragFree? && tr[j].ptr == tr[a].ptr && tr[j].page == tr[a].page
  {
    assert LiveFragAt(tr, j, a, tr[a].ptr);
  }

  /** An event that reaches a fragment comes before the end of its page's epoch. */
  lemma {:induction false} LiveUntilEnd(tr: Trace, n: nat, p: Addr, a: nat, j: nat)
    requires j < n <= |tr| && PageStart(tr, n, p) < a && LiveFrag(tr, j, a) && tr[a].page == p
    requires !tr[j].PageFree?
    ensures j < PageEnd(tr, n, p)
  {
    var f := PageEnd(tr, n, p);
    if f < n {
      assert Matches(tr[f], FreeOf(p));
      var i := PageStart(tr, j, p);
      assert Matches(tr[i], AllocOf(p));
    }
  }

  /** Hence the stamps of every fragment of a live or parked page are the latest finalize of
      its address, and the latest free of its address and page, before the page's end. */
  lemma {:induction false} UniqueStamps(tr: Trace, n: nat, p: Addr, a: nat)
    requires n <= |tr| && forall j: nat :: j < n ==> UniqueFrags(tr, j)
    requires PageStart(tr, n, p) >= 0 && a in PageFrags(tr, n, p)
    ensures var w := LastWrite(tr, n, a);
            && (w >= 0 ==> a < w < PageEnd(tr, n, p) && tr[w].Finalize? && tr[w].ptr == tr[a].ptr)
            && forall j: nat :: w < j < PageEnd(tr, n, p) && a < j ==> !(tr[j].Finalize? && tr[j].ptr == tr[a].ptr)
    ensures var r := LastRelease(tr, n, a);
            && (r >= 0 ==> a < r < PageEnd(tr, n, p) && tr[r].FragFree? && tr[r].page == p && tr[r].ptr == tr[a].ptr)
            && forall j: nat :: r < j < PageEnd(tr, n, p) && a < j ==>
                 !(tr[j].FragFree? && tr[j].page == p && tr[j].ptr == tr[a].ptr)
  {
    TakenInEpoch(tr, n, p, a);
    hide Finalizes, Releases, LastWrite, LastRelease, UniqueFrags, PageStart, PageEnd, PageFrags, LiveFrag;
    LastWriteIsLatest(tr, n, a);
    LastReleaseIsLatest(tr, n, a);
    forall j: nat | a < j < PageEnd(tr, n, p)
      ensures Finalizes(tr, j, a) <==> tr[j].Finalize? && tr[j].ptr == tr[a].ptr
      ensures Releases(tr, j, a) <==> tr[j].FragFree? && tr[j].ptr == tr[a].ptr && tr[j].page == p
    {
      TakenTogether(tr, n, p, a, j);
      UniqueTargets(tr, j, a);
    }
    var w, r := LastWrite(tr, n, a), LastRelease(tr, n, a);
    if w >= 0 { Reached(tr, w, a); LiveUntilEnd(tr, n, p, a, w); }
    if r >= 0 { Reached(tr, r, a); LiveUntilEnd(tr, n, p, a, r); }
  }

  lemma {:induction false} TakenInEpoch(tr: Trace, n: nat, p: Addr, a: nat)
    requires n <= |tr| && a in PageFrags(tr, n, p)
    ensures PageStart(tr, n, p) < a < PageEnd(tr, n, p) && FragOn(tr[a], p)
  {
    var k :| 0 <= k < |PageFrags(tr, n, p)| && PageFrags(tr, n, p)[k] == a;
    assert FragOn(tr[PageFrags(tr, n, p)[k]], p);
  }

  lemma {:induction false} Reached(tr: Trace, j: nat, a: nat)
    requires j < |tr| && (Finalizes(tr, j, a) || Releases(tr, j, a))
    ensures LiveFrag(tr, j, a) && !tr[j].PageFree?
  {
  }

  /** All fragments of the table have different addresses. */
  ghost predicate UniqueTable(d: Dict<Page>) {
    forall p, q, i, k ::
      (p in d.items && q in d.items && 0 <= i < |d.items[p].frags| && 0 <= k < |d.items[q].frags|
       && d.items[p].frags[i].ptr == d.items[q].frags[k].ptr) ==> p == q && i == k
  }

  lemma {:induction false} FoundThere(d: Dict<Page>, e: Dict<Page>, ptr: Addr)
    requires d.Valid() && e.Valid() && d.items == e.items && UniqueTable(d)
    requires FindPage(d, ptr, 0) >= 0
    ensures FindPage(e, ptr, 0) >= 0
    ensures d.keys[FindPage(d, ptr, 0)] == e.keys[FindPage(e, ptr, 0)]
  {
    hide FindPage, FindPtr;
    var p := d.keys[FindPage(d, ptr, 0)];
    var i := FindPtr(d.items[p].frags, ptr);
    var j :| 0 <= j < |e.keys| && e.keys[j] == p;
    assert FindPtr(e.items[e.keys[j]].frags, ptr) >= 0;
    assert FindPage(e, ptr, 0) >= 0;
    var q := e.keys[FindPage(e, ptr, 0)];
    var k := FindPtr(e.items[q].frags, ptr);
    assert d.items[p].frags[i].ptr == d.items[q].frags[k].ptr;
  }

  lemma {:induction false} UniqueTableOfRun(tr: Trace, n: nat, d: Dict<Page>)
    requires n <= |tr| && ActivePagesMatch(tr, n, d) && UniqueFrags(tr, n)
    ensures UniqueTable(d)
  {
    hide PageLive, PageFrags, FragAt;
    forall p, i | p in d.items && 0 <= i < |d.items[p].frags|
      ensures i < |PageFrags(tr, n, p)|
      ensures FragOn(tr[PageFrags(tr, n, p)[i]], p)
      ensures LiveFragAt(tr, n, PageFrags(tr, n, p)[i], d.items[p].frags[i].ptr)
    {
      HeldIsLive(tr, n, p, d.items[p], i);
    }
  }

  /** With unique addresses the page search does not depend on dictionary order: any other
      order of the same entries finds the same page, or also none. */
  lemma {:induction false} SearchIgnoresOrder(tr: Trace, n: nat, e: Dict<Page>, ptr: Addr)
    requires n <= |tr| && e.Valid()
    ensures Run(tr, n).Running? && UniqueFrags(tr, n) && e.items == Run(tr, n).s.activePages.items ==>
              var d := Run(tr, n).s.activePages;
              && (FindPage(d, ptr, 0) >= 0 <==> FindPage(e, ptr, 0) >= 0)
              && (FindPage(d, ptr, 0) >= 0 ==> d.keys[FindPage(d, ptr, 0)] == e.keys[FindPage(e, ptr, 0)])
  {
    hide Run, RowsOf, ActivePagesMatch, UniqueFrags, UniqueTable, FindPage;
    RunIsExact(tr, n);
    if Run(tr, n).Running? && UniqueFrags(tr, n) && e.items == Run(tr, n).s.activePages.items {
      var d := Run(tr, n).s.activePages;
      UniqueTableOfRun(tr, n, d);
      assert UniqueTable(e) by { SameEntries(d, e); }
      if FindPage(d, ptr, 0) >= 0 { FoundThere(d, e, ptr); }
      if FindPage(e, ptr, 0) >= 0 { FoundThere(e, d, ptr); }
    }
  }

  lemma {:induction false} SameEntries(d: Dict<Page>, e: Dict<Page>)
    requires UniqueTable(d) && d.items == e.items
    ensures UniqueTable(e)
  {
  }

  lemma {:induction false} HeldIsLive(tr: Trace, n: nat, p: Addr, e: Page, i: nat)
    requires n <= |tr| && PageLive(tr, n, p) && PageMatches(tr, n, p, e) && i < |e.frags|
    ensures i < |PageFrags(tr, n, p)| && FragOn(tr[PageFrags(tr, n, p)[i]], p)
    ensures LiveFragAt(tr, n, PageFrags(tr, n, p)[i], e.frags[i].ptr)
  {
    Pages.LiveFragsOfPage(tr, n, p, PageFrags(tr, n, p)[i]);
  }

  // ----- duplicate addresses on one page

  /** When a page hands out an address twice, the earlier fragment absorbs every update. */
  lemma {:induction false} DuplicateIsDeaf(tr: Trace, n: nat, a: nat, b: nat)
    requires a < b < |tr| && n <= |tr| && LiveFrag(tr, b, a)
    requires tr[b].FragAlloc? && tr[b].page == tr[a].page && tr[b].ptr == tr[a].ptr
    ensures LastWrite(tr, n, b) == -1 && LastRelease(tr, n, b) == -1
  {
    hide Finalizes, Releases, LiveFrag;
    if n > b + 1 {
      DuplicateIsDeaf(tr, n - 1, a, b);
      DuplicateMissed(tr, n - 1, a, b);
    }
  }

  lemma {:induction false} DuplicateMissed(tr: Trace, j: nat, a: nat, b: nat)
    requires a < b < j < |tr| && LiveFrag(tr, b, a)
    requires tr[b].FragAlloc? && tr[b].page == tr[a].page && tr[b].ptr == tr[a].ptr
    ensures !Finalizes(tr, j, b) && !Releases(tr, j, b)
  {
    if LiveFrag(tr, j, b) {
      SameEpoch(tr, j, a, b);
      assert LiveFragAt(tr, j, a, tr[b].ptr);
    }
  }

  lemma {:induction false} SameEpoch(tr: Trace, j: nat, a: nat, b: nat)
    requires a < b < j <= |tr| && LiveFrag(tr, b, a) && LiveFrag(tr, j, b) && tr[a].page == tr[b].page
    ensures LiveFrag(tr, j, a)
  {
    var p := tr[a].page;
    var i, s := PageStart(tr, b, p), PageStart(tr, j, p);
    assert Matches(tr[i], AllocOf(p)) && Matches(tr[s], AllocOf(p));
  }

  lemma {:induction false} IncompleteFound(tr: Trace, n: nat, ix: seq<nat>, k: nat)
    requires n <= |tr| && k < |ix| && (LastRelease(tr, n, ix[k]) < 0 || LastWrite(tr, n, ix[k]) < 0)
    ensures FirstIncomplete(tr, n, ix).Some?
  {
    hide LastRelease, LastWrite;
    if k < |ix| - 1 { IncompleteFound(tr, n, ix[..|ix| - 1], k); }
  }

  /** So reallocating a freed page that handed out an address twice stops the analyser. */
  lemma {:induction false} DuplicateCrashes(tr: Trace, n: nat, k: nat, l: nat)
    requires n < |tr| && tr[n].PageAlloc? && PageParked(tr, n, tr[n].page)
    requires k < l < |PageFrags(tr, n, tr[n].page)|
    requires tr[PageFrags(tr, n, tr[n].page)[k]].ptr == tr[PageFrags(tr, n, tr[n].page)[l]].ptr
    ensures Run(tr, n + 1).Crashed?
  {
    hide Run, RowsOf, Refines, FirstIncomplete, LastWrite, LastRelease;
    var p := tr[n].page;
    var ix := PageFrags(tr, n, p);
    var a, b := ix[k], ix[l];
    assert FragOn(tr[a], p) && FragOn(tr[b], p);
    TakenTogether(tr, n, p, a, b);
    DuplicateIsDeaf(tr, n, a, b);
    IncompleteFound(tr, n, ix, l);
    assert Fault(tr, n).Some?;
    RunIsExact(tr, n + 1);
  }

  lemma {:induction false} TakenTogether(tr: Trace, n: nat, p: Addr, a: nat, b: nat)
    requires n <= |tr| && PageStart(tr, n, p) >= 0
    requires PageStart(tr, n, p) < a < b < PageEnd(tr, n, p) && FragOn(tr[a], p)
    ensures LiveFrag(tr, b, a)
  {
    var s := PageStart(tr, n, p);
    assert Matches(tr[s], AllocOf(p));
    var i := PageStart(tr, b, p);
    assert Matches(tr[i], AllocOf(p));
    var g := Last(tr, b, FreeOf(p));
    if g >= 0 { assert Matches(tr[g], FreeOf(p)); }
  }

  // ----- attribution

  /** A consume location is attributed to at most one release. */
  lemma {:induction false} OneReleasePerConsume(tr: Trace, j: nat, k: nat, skb: Addr)
    requires j < k < |tr| && Takes(tr, j, skb) && Takes(tr, k, skb)
    requires Pending(tr, j, skb) >= 0 && Pending(tr, k, skb) >= 0
    ensures Pending(tr, j, skb) != Pending(tr, k, skb)
  {
    PendingIsLatest(tr, k, skb, Pending(tr, k, skb));
  }

  /** Every consume of the skb before event n was taken by a release before event n. */
  ghost predicate AllTaken(tr: Trace, n: nat, skb: Addr)
    requires n <= |tr|
  {
    forall c: nat :: c < n && tr[c].Consume? && tr[c].skb == skb ==>
      exists j: nat :: c < j < n && Takes(tr, j, skb)
  }

  /** A release finds no location exactly when every consume of its skb was taken before it. */
  lemma {:induction false} NotFoundCondition(tr: Trace, n: nat, skb: Addr)
    requires n <= |tr|
    ensures Pending(tr, n, skb) < 0 <==> AllTaken(tr, n, skb)
  {
    hide Takes;
    if n > 0 {
      NotFoundCondition(tr, n - 1, skb);
    }
  }

  /** The free function shown for a fragment of a reallocated page: the location of the
      latest consume of the releasing skb, or "NOT FOUND" when all were taken before. */
  lemma {:induction false} FragFreeFunction(tr: Trace, n: nat, k: nat, c: nat)
    requires n < |tr| && tr[n].PageAlloc? && PageParked(tr, n, tr[n].page)
    requires k < |PageFrags(tr, n, tr[n].page)|
    ensures Run(tr, n + 1).Running? ==>
              && Run(tr, n).Running?
              && var a, r := PageFrags(tr, n, tr[n].page)[k], |Run(tr, n).s.rows| + k;
                 var f := LastRelease(tr, n, a);
                 && f >= 0 && r < |Run(tr, n + 1).s.rows|
                 && (AllTaken(tr, f, tr[f].skb) ==> Run(tr, n + 1).s.rows[r].freeFunc == "NOT FOUND")
                 && (Pending(tr, f, tr[f].skb) == c ==> Run(tr, n + 1).s.rows[r].freeFunc == tr[c].location)
  {
    hide Run, PageFrags, PageParked, LastRelease, LastWrite, PageEnd, Pending;
    Timing.RowOfFragment(tr, n, k);
    if Run(tr, n + 1).Running? {
      var f := LastRelease(tr, n, PageFrags(tr, n, tr[n].page)[k]);
      NotFoundCondition(tr, f, tr[f].skb);
    }
  }

  /** The same for a head whose address is allocated again. */
  lemma {:induction false} HeadFreeFunction(tr: Trace, n: nat, c: nat)
    requires n < |tr| && tr[n].Kmalloc? && HeadParked(tr, n, tr[n].ptr)
    ensures Run(tr, n + 1).Running? ==>
              && Run(tr, n).Running?
              && var f, r := LastTrackedFree(tr, n, tr[n].ptr), |Run(tr, n).s.rows|;
                 && f >= 0 && tr[f].HeadFree? && |Run(tr, n + 1).s.rows| == r + 1
                 && (AllTaken(tr, f, tr[f].skb) ==> Run(tr, n + 1).s.rows[r].freeFunc == "NOT FOUND")
                 && (Pending(tr, f, tr[f].skb) == c ==> Run(tr, n + 1).s.rows[r].freeFunc == tr[c].location)
  {
    hide Run, LastTrackedFree, LastHeadWrite, Pending, HeadAt;
    RowsGrow(tr, n);
    if Run(tr, n + 1).Running? {
      var f := LastTrackedFree(tr, n, tr[n].ptr);
      NotFoundCondition(tr, f, tr[f].skb);
    }
  }

  // ----- a discipline under which nothing is raised

  ghost predicate FinalizedBetween(tr: Trace, lo: int, hi: nat, ptr: Addr)
    requires -1 <= lo && hi <= |tr|
  {
    exists j: nat :: lo < j < hi && tr[j].Finalize? && tr[j].ptr == ptr
  }

  ghost predicate FreedBetween(tr: Trace, lo: int, hi: nat, page: Addr, ptr: Addr)
    requires -1 <= lo && hi <= |tr|
  {
    exists j: nat :: lo < j < hi && tr[j].FragFree? && tr[j].page == page && tr[j].ptr == ptr
  }

  /** No address is shared by two live fragments, or by a live fragment and a live head. */
  ghost predicate DistinctPtrs(tr: Trace, n: nat)
    requires n <= |tr|
  {
    UniqueFrags(tr, n) && forall a, x :: HeadLive(tr, n, x) ==> !LiveFragAt(tr, n, a, x)
  }

  /** What the discipline asks of event n. */
  ghost predicate Orderly(tr: Trace, n: nat)
    requires n < |tr|
  {
    match tr[n]
    case PageAlloc(_, p) =>
      && !PageLive(tr, n, p)
      && (PageParked(tr, n, p) ==>
            forall k :: 0 <= k < |PageFrags(tr, n, p)| ==>
              var a := PageFrags(tr, n, p)[k];
              && FinalizedBetween(tr, a, PageEnd(tr, n, p), tr[a].ptr)
              && FreedBetween(tr, a, PageEnd(tr, n, p), p, tr[a].ptr))
    case FragAlloc(_, p, _, _) => !PageParked(tr, n, p)
    case FragFree(_, p, _, _) => !PageParked(tr, n, p)
    case HeadKmalloc(_, x, _, _) => !HeadLive(tr, n, x) && !HeadParked(tr, n, x)
    case SkbWithFrags(_, _, _) =>
      forall x :: HeadLive(tr, n, x) ==> FinalizedBetween(tr, HeadStart(tr, n, x), n, x)
    case HeadFree(_, x, _) => !HeadParked(tr, n, x)
    case Kmalloc(_, x) =>
      HeadParked(tr, n, x) ==>
        var f := LastTrackedFree(tr, n, x);
        FinalizedBetween(tr, HeadStart(tr, f, x), f, x)
    case _ => true
  }

  ghost predicate Disciplined(tr: Trace, n: nat)
    requires n <= |tr|
  {
    forall j: nat :: j < n ==> DistinctPtrs(tr, j) && Orderly(tr, j)
  }

  lemma {:induction false} FragComplete(tr: Trace, n: nat, p: Addr, a: nat)
    requires n < |tr| && forall j: nat :: j < n ==> UniqueFrags(tr, j)
    requires PageStart(tr, n, p) >= 0 && PageStart(tr, n, p) < a < n && FragOn(tr[a], p)
    requires FinalizedBetween(tr, a, PageEnd(tr, n, p), tr[a].ptr)
    requires FreedBetween(tr, a, PageEnd(tr, n, p), p, tr[a].ptr)
    ensures LastWrite(tr, n, a) >= 0 && LastRelease(tr, n, a) >= 0
  {
    hide PageStart, PageEnd, UniqueFrags, Finalizes, Releases, LastWrite, LastRelease;
    var w: nat :| a < w < PageEnd(tr, n, p) && tr[w].Finalize? && tr[w].ptr == tr[a].ptr;
    TakenTogether(tr, n, p, a, w);
    UniqueTargets(tr, w, a);
    LastWriteIsLatest(tr, n, a);
    var r: nat :| a < r < PageEnd(tr, n, p) && tr[r].FragFree? && tr[r].page == p && tr[r].ptr == tr[a].ptr;
    TakenTogether(tr, n, p, a, r);
    UniqueTargets(tr, r, a);
    LastReleaseIsLatest(tr, n, a);
  }

  lemma {:induction false} AllComplete(tr: Trace, n: nat, ix: seq<nat>)
    requires n <= |tr|
    requires forall k :: 0 <= k < |ix| ==> LastRelease(tr, n, ix[k]) >= 0 && LastWrite(tr, n, ix[k]) >= 0
    ensures FirstIncomplete(tr, n, ix).None?
  {
    hide LastRelease, LastWrite;
    if ix != [] { AllComplete(tr, n, ix[..|ix| - 1]); }
  }

  lemma {:induction false} HeadStaysLive(tr: Trace, j: nat, n: nat, x: Addr)
    requires j <= n <= |tr| && HeadLive(tr, n, x) && HeadStart(tr, n, x) < j
    ensures HeadLive(tr, j, x)
  {
    var s := HeadStart(tr, n, x);
    assert Matches(tr[s], HeadAllocOf(x));
    var g := Last(tr, j, HeadFreeOf(x));
    if g >= 0 { assert Matches(tr[g], HeadFreeOf(x)); }
  }

  lemma {:induction false} HeadComplete(tr: Trace, n: nat, x: Addr)
    requires n <= |tr| && HeadLive(tr, n, x) && forall j: nat :: j < n ==> DistinctPtrs(tr, j)
    requires FinalizedBetween(tr, HeadStart(tr, n, x), n, x)
    ensures LastHeadWrite(tr, n, x) >= 0
  {
    hide HeadStart, HeadLive, UniqueFrags, HeadWrite;
    var b := HeadStart(tr, n, x);
    var w: nat :| b < w < n && tr[w].Finalize? && tr[w].ptr == x;
    HeadStaysLive(tr, w, n, x);
    assert DistinctPtrs(tr, w);
    assert FinalizesHead(tr, w, x);
    HeadWriteIsLatest(tr, b, n, x);
  }

  lemma {:induction false} OrderlyPageAlloc(tr: Trace, n: nat)
    requires n < |tr| && tr[n].PageAlloc? && Disciplined(tr, n) && Orderly(tr, n)
    ensures Fault(tr, n).None?
  {
    var p := tr[n].page;
    if PageParked(tr, n, p) {
      hide LastWrite, LastRelease, FirstIncomplete, UniqueFrags, FinalizedBetween, FreedBetween;
      var ix := PageFrags(tr, n, p);
      forall j: nat | j < n ensures UniqueFrags(tr, j) { assert DistinctPtrs(tr, j); }
      forall k | 0 <= k < |ix| ensures LastRelease(tr, n, ix[k]) >= 0 && LastWrite(tr, n, ix[k]) >= 0 {
        assert FragOn(tr[ix[k]], p);
        FragComplete(tr, n, p, ix[k]);
      }
      AllComplete(tr, n, ix);
    }
  }

  lemma {:induction false} OrderlyIsFaultless(tr: Trace, n: nat)
    requires n < |tr| && Disciplined(tr, n) && Orderly(tr, n)
    ensures Fault(tr, n).None?
  {
    hide LastHeadWrite, HeadLive, HeadParked, HeadStart, LastTrackedFree;
    hide FirstIncomplete, FinalizedBetween, DistinctPtrs;
    match tr[n]
    case PageAlloc(_, _) => OrderlyPageAlloc(tr, n);
    case SkbWithFrags(_, skb, _) =>
      forall x | HeadLive(tr, n, x) ensures !Unfinalized(tr, n, x) { HeadComplete(tr, n, x); }
    case Kmalloc(_, x) =>
      if HeadParked(tr, n, x) {
        ParkedWasLive(tr, n, x);
        HeadComplete(tr, LastTrackedFree(tr, n, x), x);
      }
    case _ =>
  }

  lemma {:induction false} ParkedWasLive(tr: Trace, n: nat, x: Addr)
    requires n <= |tr| && HeadParked(tr, n, x)
    ensures 0 <= LastTrackedFree(tr, n, x) < n && HeadLive(tr, LastTrackedFree(tr, n, x), x)
  {
  }

  /** Progress: a disciplined trace runs to the end, overwrites no head, and keeps the
      head tables apart. */
  lemma {:induction false} DisciplinedRuns(tr: Trace, n: nat)
    requires n <= |tr| && Disciplined(tr, n)
    ensures Run(tr, n).Running?
    ensures Overwrites(tr, n) == multiset{}
    ensures forall x :: !(x in Run(tr, n).s.activeHeads.items && x in Run(tr, n).s.freedHeads.items)
  {
    hide Run, RowsOf, Refines, Fault, HeadLive, HeadParked;
    forall j: nat | j < n ensures Fault(tr, j).None? { OrderlyIsFaultless(tr, j); }
    RunIsExact(tr, n);
    assert ReuseAnnounced(tr, n) && forall j: nat :: j < n && tr[j].HeadKmalloc? ==> !HeadLive(tr, j, tr[j].ptr) by {
      forall j: nat | j < n && tr[j].HeadKmalloc?
        ensures !HeadLive(tr, j, tr[j].ptr) && !HeadParked(tr, j, tr[j].ptr)
      {
        assert Orderly(tr, j);
      }
    }
    NoOverwrites(tr, n);
    forall x ensures !(x in Run(tr, n).s.activeHeads.items && x in Run(tr, n).s.freedHeads.items) {
      HeadTablesDisjoint(tr, n, x);
    }
  }

  lemma {:induction false} NoOverwrites(tr: Trace, n: nat)
    requires n <= |tr|
    requires forall j: nat :: j < n && tr[j].HeadKmalloc? ==> !HeadLive(tr, j, tr[j].ptr)
    ensures Overwrites(tr, n) == multiset{}
  {
    hide HeadLive;
    if n > 0 { NoOverwrites(tr, n - 1); }
  }
}
