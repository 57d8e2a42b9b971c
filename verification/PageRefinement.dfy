/** The page tables keep up with the trace: the two first-match searches pick the
    fragment that `History` names, and each page branch leaves both page tables exact. */
module PageRefinement {
  import opened OrderedDict
  import opened Analyzer
  import opened History
  import opened Tables

  // ----- live fragments and the first-match searches

  lemma {:induction false} LiveFragsOfPage(tr: Trace, n: nat, p: Addr, a: nat)
    requires n <= |tr| && PageLive(tr, n, p)
    ensures PageEnd(tr, n, p) == n
    ensures a in PageFrags(tr, n, p) <==> LiveFrag(tr, n, a) && tr[a].page == p
  {
    if LiveFrag(tr, n, a) && tr[a].page == p {
      FragsTakenComplete(tr, PageStart(tr, n, p), n, p, a);
    }
  }

  /** The fragment found at position k of the page table, as an event index. */
  ghost function FoundAt(tr: Trace, n: nat, d: Dict<Page>, k: nat, ptr: Addr): (a: nat)
    requires n <= |tr| && ActivePagesMatch(tr, n, d) && k < |d.keys|
    requires FindPtr(d.items[d.keys[k]].frags, ptr) >= 0
    ensures LiveFragAt(tr, n, a, ptr) && tr[a].page == d.keys[k]
  {
    var p := d.keys[k];
    var i := FindPtr(d.items[p].frags, ptr);
    assert PageMatches(tr, n, p, d.items[p]);
    var a := PageFrags(tr, n, p)[i];
    LiveFragsOfPage(tr, n, p, a);
    a
  }

  lemma {:induction false} LiveFragIsHeld(tr: Trace, n: nat, d: Dict<Page>, b: nat) returns (j: nat, l: nat)
    requires n <= |tr| && ActivePagesMatch(tr, n, d) && LiveFrag(tr, n, b)
    ensures j < |d.keys| && d.keys[j] == tr[b].page
    ensures l < |d.items[d.keys[j]].frags| && d.items[d.keys[j]].frags[l].ptr == tr[b].ptr
    ensures l < |PageFrags(tr, n, tr[b].page)| && PageFrags(tr, n, tr[b].page)[l] == b
  {
    var p := tr[b].page;
    LiveFragsOfPage(tr, n, p, b);
    l :| 0 <= l < |PageFrags(tr, n, p)| && PageFrags(tr, n, p)[l] == b;
    assert PageMatches(tr, n, p, d.items[p]);
    assert d.items[p].frags[l] == FragAt(tr, n, PageFrags(tr, n, p)[l]);
    j :| 0 <= j < |d.keys| && d.keys[j] == p;
  }

  lemma {:induction false} FindPageBound(d: Dict<Page>, ptr: Addr, j: nat, l: nat)
    requires d.Valid() && j < |d.keys| && l < |d.items[d.keys[j]].frags|
    requires d.items[d.keys[j]].frags[l].ptr == ptr
    ensures 0 <= FindPage(d, ptr, 0) <= j
    ensures FindPage(d, ptr, 0) == j ==> FindPtr(d.items[d.keys[j]].frags, ptr) <= l
  {
    assert FindPtr(d.items[d.keys[j]].frags, ptr) >= 0;
  }

  /** Table position order is `Precedes`. */
  lemma {:induction false} PositionOrder(tr: Trace, n: nat, d: Dict<Page>, k: nat, i: nat, j: nat, l: nat)
    requires n <= |tr| && ActivePagesMatch(tr, n, d) && k <= j < |d.keys|
    requires i < |PageFrags(tr, n, d.keys[k])| && l < |PageFrags(tr, n, d.keys[j])|
    requires k == j ==> i <= l
    requires LiveFrag(tr, n, PageFrags(tr, n, d.keys[k])[i])
    requires LiveFrag(tr, n, PageFrags(tr, n, d.keys[j])[l])
    ensures Precedes(tr, n, PageFrags(tr, n, d.keys[k])[i], PageFrags(tr, n, d.keys[j])[l])
  {
  }

  lemma {:induction false} FoundPrecedes(tr: Trace, n: nat, d: Dict<Page>, b: nat, ptr: Addr)
    requires n <= |tr| && ActivePagesMatch(tr, n, d) && LiveFragAt(tr, n, b, ptr)
    ensures FindPage(d, ptr, 0) >= 0
    ensures Precedes(tr, n, FoundAt(tr, n, d, FindPage(d, ptr, 0), ptr), b)
  {
    var j, l := LiveFragIsHeld(tr, n, d, b);
    FindPageBound(d, ptr, j, l);
    var k := FindPage(d, ptr, 0);
    var a := FoundAt(tr, n, d, k, ptr);
    PositionOrder(tr, n, d, k, FindPtr(d.items[d.keys[k]].frags, ptr), j, l);
  }

  /** The page scan of finalize_skb_around finds exactly the fragment `Finalizes` names. */
  lemma {:induction false} FindPageIsTarget(tr: Trace, n: nat, d: Dict<Page>)
    requires n < |tr| && tr[n].Finalize? && ActivePagesMatch(tr, n, d)
    ensures var k := FindPage(d, tr[n].ptr, 0);
            if k < 0 then forall a :: !LiveFragAt(tr, n, a, tr[n].ptr)
            else Finalizes(tr, n, FoundAt(tr, n, d, k, tr[n].ptr))
  {
    forall b: nat | LiveFragAt(tr, n, b, tr[n].ptr)
      ensures FindPage(d, tr[n].ptr, 0) >= 0
      ensures Precedes(tr, n, FoundAt(tr, n, d, FindPage(d, tr[n].ptr, 0), tr[n].ptr), b)
    {
      FoundPrecedes(tr, n, d, b, tr[n].ptr);
    }
  }

  lemma {:induction false} FindPtrIsTarget(tr: Trace, n: nat, d: Dict<Page>)
    requires n < |tr| && tr[n].FragFree? && ActivePagesMatch(tr, n, d) && tr[n].page in d.items
    ensures var i := FindPtr(d.items[tr[n].page].frags, tr[n].ptr);
            if i < 0 then forall a :: !Releases(tr, n, a)
            else i < |PageFrags(tr, n, tr[n].page)| && Releases(tr, n, PageFrags(tr, n, tr[n].page)[i])
  {
    hide Attributed, LastWrite, LastRelease, PageFrags, FindPtr;
    var p, ptr := tr[n].page, tr[n].ptr;
    var i := FindPtr(d.items[p].frags, ptr);
    assert PageMatches(tr, n, p, d.items[p]);
    forall b: nat | LiveFragAt(tr, n, b, ptr) && tr[b].page == p
      ensures 0 <= i < |PageFrags(tr, n, p)| && PageFrags(tr, n, p)[i] <= b
    {
      var j, l := LiveFragIsHeld(tr, n, d, b);
      assert 0 <= i <= l;
    }
    if i >= 0 { LiveFragsOfPage(tr, n, p, PageFrags(tr, n, p)[i]); }
  }

  // ----- one event later: pages and fragments

  lemma {:induction false} PageNext(tr: Trace, n: nat, p: Addr)
    requires n < |tr| && !Matches(tr[n], AllocOf(p)) && !Matches(tr[n], FreeOf(p))
    ensures PageStart(tr, n + 1, p) == PageStart(tr, n, p)
    ensures PageLive(tr, n + 1, p) == PageLive(tr, n, p)
    ensures PageLive(tr, n, p) ==>
              PageFrags(tr, n + 1, p) == PageFrags(tr, n, p) + if FragOn(tr[n], p) then [n] else []
  {
    if PageLive(tr, n, p) {
      assert PageEnd(tr, n, p) == n;
      assert PageEnd(tr, n + 1, p) == n + 1;
    }
  }

  /** A page that is not live is not disturbed by anything but its next alloc. */
  lemma {:induction false} DeadPageNext(tr: Trace, n: nat, p: Addr)
    requires n < |tr| && !Matches(tr[n], AllocOf(p)) && !PageLive(tr, n, p)
    ensures PageStart(tr, n + 1, p) == PageStart(tr, n, p)
    ensures !PageLive(tr, n + 1, p)
    ensures PageStart(tr, n, p) >= 0 ==> PageEnd(tr, n + 1, p) == PageEnd(tr, n, p) < n
  {
  }

  lemma {:induction false} PageFreed(tr: Trace, n: nat, p: Addr)
    requires n < |tr| && Matches(tr[n], FreeOf(p)) && PageLive(tr, n, p)
    ensures PageStart(tr, n + 1, p) == PageStart(tr, n, p) && !PageLive(tr, n + 1, p)
    ensures PageEnd(tr, n + 1, p) == n && PageFrags(tr, n + 1, p) == PageFrags(tr, n, p)
  {
    assert PageEnd(tr, n, p) == n;
  }

  lemma {:induction false} FragAtNext(tr: Trace, n: nat, a: nat)
    requires a < n < |tr| && tr[a].FragAlloc?
    ensures FragAt(tr, n + 1, a) ==
            if Finalizes(tr, n, a) then FragAt(tr, n, a).(write := Some(Write(tr[n].time, tr[n].skb)))
            else if Releases(tr, n, a) then
              FragAt(tr, n, a).(release := Some(Release(tr[n].time, Attributed(tr, n, tr[n].skb))))
            else FragAt(tr, n, a)
  {
  }

  lemma {:induction false} FragsFrame(tr: Trace, n: nat, ix: seq<nat>, frags: seq<Frag>)
    requires n < |tr| && FragsMatch(tr, n, ix, frags)
    requires forall k :: 0 <= k < |ix| ==> !Finalizes(tr, n, ix[k]) && !Releases(tr, n, ix[k])
    ensures FragsMatch(tr, n + 1, ix, frags)
  {
    forall k | 0 <= k < |ix| ensures FragAt(tr, n + 1, ix[k]) == FragAt(tr, n, ix[k]) {
      FragAtNext(tr, n, ix[k]);
    }
  }

  lemma {:induction false} FragsFinalized(tr: Trace, n: nat, ix: seq<nat>, frags: seq<Frag>, i: nat)
    requires n < |tr| && FragsMatch(tr, n, ix, frags) && i < |ix|
    requires Finalizes(tr, n, ix[i])
    requires forall k, l :: 0 <= k < l < |ix| ==> ix[k] < ix[l]
    ensures FragsMatch(tr, n + 1, ix, frags[i := frags[i].(write := Some(Write(tr[n].time, tr[n].skb)))])
  {
    var frags' := frags[i := frags[i].(write := Some(Write(tr[n].time, tr[n].skb)))];
    forall k | 0 <= k < |ix| ensures frags'[k] == FragAt(tr, n + 1, ix[k]) {
      FragAtNext(tr, n, ix[k]);
      if k != i && Finalizes(tr, n, ix[k]) {
        OnlyOneFinalized(tr, n, ix[i], ix[k]);
        assert false;
      }
    }
  }

  lemma {:induction false} OnlyOneFinalized(tr: Trace, j: nat, a: nat, b: nat)
    requires j < |tr| && Finalizes(tr, j, a) && Finalizes(tr, j, b)
    ensures a == b
  {
    assert Precedes(tr, j, a, b) && Precedes(tr, j, b, a);
  }

  lemma {:induction false} FragsReleased(tr: Trace, n: nat, ix: seq<nat>, frags: seq<Frag>, i: nat)
    requires n < |tr| && FragsMatch(tr, n, ix, frags) && i < |ix|
    requires Releases(tr, n, ix[i])
    requires forall k, l :: 0 <= k < l < |ix| ==> ix[k] < ix[l]
    ensures FragsMatch(tr, n + 1, ix,
              frags[i := frags[i].(release := Some(Release(tr[n].time, Attributed(tr, n, tr[n].skb))))])
  {
    var release := Release(tr[n].time, Attributed(tr, n, tr[n].skb));
    var frags' := frags[i := frags[i].(release := Some(release))];
    forall k | 0 <= k < |ix| ensures frags'[k] == FragAt(tr, n + 1, ix[k]) {
      FragAtNext(tr, n, ix[k]);
      assert k != i ==> ix[k] != ix[i];
    }
  }

  lemma {:induction false} FreedPagesFrame(tr: Trace, n: nat, d: Dict<FreedPage>)
    requires n < |tr| && FreedPagesMatch(tr, n, d)
    requires forall p :: Matches(tr[n], AllocOf(p)) ==> p !in d.items
    requires forall p :: Matches(tr[n], FreeOf(p)) ==> !PageLive(tr, n, p)
    ensures FreedPagesMatch(tr, n + 1, d)
  {
    forall p
      ensures PageParked(tr, n + 1, p) == PageParked(tr, n, p)
      ensures p in d.items ==>
        && PageMatches(tr, n + 1, p, d.items[p].page)
        && PageEnd(tr, n + 1, p) < n + 1 && d.items[p].freeTime == tr[PageEnd(tr, n + 1, p)].time
    {
      ParkedNext(tr, n, p);
      if p in d.items {
        ParkedMatches(tr, n, p, d.items[p].page);
      }
    }
  }

  lemma {:induction false} ParkedNext(tr: Trace, n: nat, p: Addr)
    requires n < |tr|
    requires Matches(tr[n], AllocOf(p)) ==> !PageParked(tr, n, p)
    requires Matches(tr[n], FreeOf(p)) ==> !PageLive(tr, n, p)
    ensures PageParked(tr, n + 1, p) == PageParked(tr, n, p)
  {
    if Matches(tr[n], AllocOf(p)) {
      assert PageStart(tr, n + 1, p) == n;
      assert PageLive(tr, n + 1, p);
    } else if PageLive(tr, n, p) {
      PageNext(tr, n, p);
    } else {
      DeadPageNext(tr, n, p);
    }
  }

  lemma {:induction false} ParkedMatches(tr: Trace, n: nat, p: Addr, entry: Page)
    requires n < |tr| && PageParked(tr, n, p) && PageMatches(tr, n, p, entry)
    requires !Matches(tr[n], AllocOf(p))
    ensures PageMatches(tr, n + 1, p, entry) && PageEnd(tr, n + 1, p) == PageEnd(tr, n, p) < n
  {
    DeadPageNext(tr, n, p);
    var ix := PageFrags(tr, n, p);
    forall k | 0 <= k < |ix| ensures !Finalizes(tr, n, ix[k]) && !Releases(tr, n, ix[k]) {
      assert !LiveFrag(tr, n, ix[k]);
    }
    FragsFrame(tr, n, ix, entry.frags);
  }

  /** Replacing one live page's entry, when the event is not a page event. */
  lemma {:induction false} ActivePagesPut(tr: Trace, n: nat, d: Dict<Page>, p: Addr, entry: Page)
    requires n < |tr| && ActivePagesMatch(tr, n, d) && p in d.items
    requires !tr[n].PageAlloc? && !tr[n].PageFree?
    requires PageMatches(tr, n + 1, p, entry)
    requires forall q :: q in d.items && q != p ==> PageMatches(tr, n + 1, q, d.items[q])
    ensures ActivePagesMatch(tr, n + 1, d.Put(p, entry))
  {
    hide PageMatches, PageLive, PageStart;
    forall q ensures PageLive(tr, n + 1, q) == PageLive(tr, n, q)
             ensures PageStart(tr, n + 1, q) == PageStart(tr, n, q)
    {
      PageNext(tr, n, q);
    }
  }

  lemma {:induction false} PageFrame(tr: Trace, n: nat, q: Addr, entry: Page)
    requires n < |tr| && PageLive(tr, n, q) && PageMatches(tr, n, q, entry)
    requires !Matches(tr[n], AllocOf(q)) && !Matches(tr[n], FreeOf(q)) && !FragOn(tr[n], q)
    requires forall a: nat :: Finalizes(tr, n, a) || Releases(tr, n, a) ==> tr[a].page != q
    ensures PageMatches(tr, n + 1, q, entry)
  {
    PageNext(tr, n, q);
    var ix := PageFrags(tr, n, q);
    forall k | 0 <= k < |ix| ensures !Finalizes(tr, n, ix[k]) && !Releases(tr, n, ix[k]) {
      assert FragOn(tr[ix[k]], q);
    }
    FragsFrame(tr, n, ix, entry.frags);
  }

  lemma {:induction false} ActivePagesFrame(tr: Trace, n: nat, d: Dict<Page>)
    requires n < |tr| && ActivePagesMatch(tr, n, d)
    requires !tr[n].PageAlloc?
    requires tr[n].PageFree? || tr[n].FragAlloc? ==> tr[n].page !in d.items
    requires forall a :: !Finalizes(tr, n, a) && !Releases(tr, n, a)
    ensures ActivePagesMatch(tr, n + 1, d)
  {
    forall q
      ensures PageLive(tr, n + 1, q) == PageLive(tr, n, q)
      ensures PageStart(tr, n + 1, q) == PageStart(tr, n, q)
      ensures q in d.items ==> PageMatches(tr, n + 1, q, d.items[q])
    {
      if PageLive(tr, n, q) { PageNext(tr, n, q); PageFrame(tr, n, q, d.items[q]); }
      else { DeadPageNext(tr, n, q); }
    }
  }

  // ----- the page branches

  /** The part of `ActivePagesMatch` that concerns the pages other than p. */
  ghost predicate OthersMatch(tr: Trace, n: nat, d: Dict<Page>, p: Addr)
    requires n <= |tr|
  {
    && d.Valid()
    && (forall q :: q != p ==> (q in d.items <==> PageLive(tr, n, q)))
    && (forall q :: q in d.items && q != p ==> PageMatches(tr, n, q, d.items[q]))
    && (forall i, k :: 0 <= i < k < |d.keys| && d.keys[i] != p && d.keys[k] != p ==>
          PageStart(tr, n, d.keys[i]) < PageStart(tr, n, d.keys[k]))
  }

  lemma {:induction false} OthersNext(tr: Trace, n: nat, d: Dict<Page>, p: Addr)
    requires n < |tr| && ActivePagesMatch(tr, n, d)
    requires forall q :: q != p ==> !Matches(tr[n], AllocOf(q)) && !Matches(tr[n], FreeOf(q)) && !FragOn(tr[n], q)
    requires forall a: nat :: Finalizes(tr, n, a) || Releases(tr, n, a) ==> tr[a].page == p
    ensures OthersMatch(tr, n + 1, d, p)
  {
    forall q | q != p
      ensures PageLive(tr, n + 1, q) == PageLive(tr, n, q)
      ensures PageStart(tr, n + 1, q) == PageStart(tr, n, q)
      ensures q in d.items ==> PageMatches(tr, n + 1, q, d.items[q])
    {
      PageNext(tr, n, q);
      if q in d.items { PageFrame(tr, n, q, d.items[q]); }
    }
  }

  lemma {:induction false} ActivePagesInsert(tr: Trace, n: nat, d: Dict<Page>, p: Addr, entry: Page)
    requires n <= |tr| && OthersMatch(tr, n, d, p) && p !in d.items
    requires PageLive(tr, n, p) && PageMatches(tr, n, p, entry)
    requires forall i :: 0 <= i < |d.keys| ==> PageStart(tr, n, d.keys[i]) < PageStart(tr, n, p)
    ensures ActivePagesMatch(tr, n, d.Put(p, entry))
  {
  }

  lemma {:induction false} ActivePagesRemove(tr: Trace, n: nat, d: Dict<Page>, p: Addr)
    requires n <= |tr| && OthersMatch(tr, n, d, p) && p in d.items && !PageLive(tr, n, p)
    ensures ActivePagesMatch(tr, n, d.Pop(p))
  {
    var d' := d.Pop(p);
    forall i, k | 0 <= i < k < |d'.keys|
      ensures PageStart(tr, n, d'.keys[i]) < PageStart(tr, n, d'.keys[k])
    {
      PopOrder(d, p, i, k);
    }
  }

  lemma {:induction false} PageAllocRefines(tr: Trace, n: nat, d: Dict<Page>)
    requires n < |tr| && tr[n].PageAlloc? && tr[n].page !in d.items && ActivePagesMatch(tr, n, d)
    ensures ActivePagesMatch(tr, n + 1, d.Put(tr[n].page, Page(tr[n].time, [])))
  {
    hide PageMatches, PageLive, PageStart, PageFrags, PageEnd;
    var p := tr[n].page;
    OthersNext(tr, n, d, p);
    PageBorn(tr, n);
    forall i | 0 <= i < |d.keys| ensures PageStart(tr, n + 1, d.keys[i]) < n {
      PageNext(tr, n, d.keys[i]);
    }
    ActivePagesInsert(tr, n + 1, d, p, Page(tr[n].time, []));
  }

  lemma {:induction false} PageBorn(tr: Trace, n: nat)
    requires n < |tr| && tr[n].PageAlloc?
    ensures PageStart(tr, n + 1, tr[n].page) == n && PageLive(tr, n + 1, tr[n].page)
    ensures PageMatches(tr, n + 1, tr[n].page, Page(tr[n].time, []))
  {
    var p := tr[n].page;
    assert PageStart(tr, n + 1, p) == n;
    assert PageEnd(tr, n + 1, p) == n + 1;
    assert PageFrags(tr, n + 1, p) == [];
  }

  lemma {:induction false} FreedPagesReused(tr: Trace, n: nat, d: Dict<FreedPage>)
    requires n < |tr| && tr[n].PageAlloc? && FreedPagesMatch(tr, n, d) && tr[n].page in d.items
    ensures FreedPagesMatch(tr, n + 1, d.Pop(tr[n].page))
  {
    var p := tr[n].page;
    assert PageStart(tr, n + 1, p) == n && PageLive(tr, n + 1, p);
    forall q | q != p
      ensures PageParked(tr, n + 1, q) == PageParked(tr, n, q)
      ensures q in d.items ==>
        PageMatches(tr, n + 1, q, d.items[q].page) && PageEnd(tr, n + 1, q) == PageEnd(tr, n, q) < n
    {
      ParkedNext(tr, n, q);
      if q in d.items { ParkedMatches(tr, n, q, d.items[q].page); }
    }
  }

  lemma {:induction false} FragAllocRefines(tr: Trace, n: nat, d: Dict<Page>)
    requires n < |tr| && tr[n].FragAlloc? && tr[n].page in d.items && ActivePagesMatch(tr, n, d)
    ensures var e := d.items[tr[n].page];
            var f := Frag(tr[n].ptr, tr[n].time, tr[n].location, None, None);
            ActivePagesMatch(tr, n + 1, d.Put(tr[n].page, e.(frags := e.frags + [f])))
  {
    var p := tr[n].page;
    var e := d.items[p];
    var f := Frag(tr[n].ptr, tr[n].time, tr[n].location, None, None);
    PageNext(tr, n, p);
    FragsFrame(tr, n, PageFrags(tr, n, p), e.frags);
    assert FragAt(tr, n + 1, n) == f;
    forall q | q in d.items && q != p ensures PageMatches(tr, n + 1, q, d.items[q]) {
      PageFrame(tr, n, q, d.items[q]);
    }
    ActivePagesPut(tr, n, d, p, e.(frags := e.frags + [f]));
  }

  lemma {:induction false} FinalizeRefines(tr: Trace, n: nat, d: Dict<Page>)
    requires n < |tr| && tr[n].Finalize? && ActivePagesMatch(tr, n, d)
    requires FindPage(d, tr[n].ptr, 0) >= 0
    ensures var p := d.keys[FindPage(d, tr[n].ptr, 0)];
            var e := d.items[p];
            var i := FindPtr(e.frags, tr[n].ptr);
            var f := e.frags[i].(write := Some(Write(tr[n].time, tr[n].skb)));
            ActivePagesMatch(tr, n + 1, d.Put(p, e.(frags := e.frags[i := f])))
  {
    hide PageMatches, PageLive, PageStart, PageEnd;
    var k := FindPage(d, tr[n].ptr, 0);
    var p := d.keys[k];
    var e := d.items[p];
    var i := FindPtr(e.frags, tr[n].ptr);
    var a := FoundAt(tr, n, d, k, tr[n].ptr);
    var f := e.frags[i].(write := Some(Write(tr[n].time, tr[n].skb)));
    assert Finalizes(tr, n, a) by { FindPageIsTarget(tr, n, d); }
    FinalizedPage(tr, n, p, e, i);
    forall b: nat | Finalizes(tr, n, b) ensures tr[b].page == p {
      OnlyOneFinalized(tr, n, a, b);
    }
    OthersNext(tr, n, d, p);
    ActivePagesPut(tr, n, d, p, e.(frags := e.frags[i := f]));
  }

  lemma {:induction false} FinalizedPage(tr: Trace, n: nat, p: Addr, e: Page, i: nat)
    requires n < |tr| && PageLive(tr, n, p) && PageMatches(tr, n, p, e)
    requires i < |e.frags| && Finalizes(tr, n, PageFrags(tr, n, p)[i])
    ensures PageMatches(tr, n + 1, p,
              e.(frags := e.frags[i := e.frags[i].(write := Some(Write(tr[n].time, tr[n].skb)))]))
  {
    PageNext(tr, n, p);
    FragsFinalized(tr, n, PageFrags(tr, n, p), e.frags, i);
  }

  lemma {:induction false} FragFreeRefines(tr: Trace, n: nat, d: Dict<Page>)
    requires n < |tr| && tr[n].FragFree? && tr[n].page in d.items && ActivePagesMatch(tr, n, d)
    requires FindPtr(d.items[tr[n].page].frags, tr[n].ptr) >= 0
    ensures var e := d.items[tr[n].page];
            var i := FindPtr(e.frags, tr[n].ptr);
            var f := e.frags[i].(release := Some(Release(tr[n].time, Attributed(tr, n, tr[n].skb))));
            ActivePagesMatch(tr, n + 1, d.Put(tr[n].page, e.(frags := e.frags[i := f])))
  {
    hide PageMatches, PageLive, PageStart, PageEnd;
    var p := tr[n].page;
    var e := d.items[p];
    var i := FindPtr(e.frags, tr[n].ptr);
    var f := e.frags[i].(release := Some(Release(tr[n].time, Attributed(tr, n, tr[n].skb))));
    FindPtrIsTarget(tr, n, d);
    ReleasedPage(tr, n, p, e, i);
    OthersNext(tr, n, d, p);
    ActivePagesPut(tr, n, d, p, e.(frags := e.frags[i := f]));
  }

  lemma {:induction false} ReleasedPage(tr: Trace, n: nat, p: Addr, e: Page, i: nat)
    requires n < |tr| && PageLive(tr, n, p) && PageMatches(tr, n, p, e)
    requires i < |e.frags| && Releases(tr, n, PageFrags(tr, n, p)[i])
    ensures var release := Release(tr[n].time, Attributed(tr, n, tr[n].skb));
            PageMatches(tr, n + 1, p, e.(frags := e.frags[i := e.frags[i].(release := Some(release))]))
  {
    PageNext(tr, n, p);
    FragsReleased(tr, n, PageFrags(tr, n, p), e.frags, i);
  }

  lemma {:induction false} PageFreeRefines(tr: Trace, n: nat, d: Dict<Page>)
    requires n < |tr| && tr[n].PageFree? && tr[n].page in d.items && ActivePagesMatch(tr, n, d)
    ensures ActivePagesMatch(tr, n + 1, d.Pop(tr[n].page))
  {
    hide PageMatches, PageLive, PageStart, PageFrags, PageEnd;
    PageFreed(tr, n, tr[n].page);
    OthersNext(tr, n, d, tr[n].page);
    ActivePagesRemove(tr, n + 1, d, tr[n].page);
  }

  lemma {:induction false} PageParks(tr: Trace, n: nat, d: Dict<FreedPage>, e: Page)
    requires n < |tr| && tr[n].PageFree? && FreedPagesMatch(tr, n, d)
    requires PageLive(tr, n, tr[n].page) && PageMatches(tr, n, tr[n].page, e) && e.frags != []
    ensures FreedPagesMatch(tr, n + 1, d.Put(tr[n].page, FreedPage(e, tr[n].time)))
  {
    hide PageMatches, PageLive, PageStart, PageFrags, PageEnd;
    PageParksSelf(tr, n, e);
    OthersParked(tr, n, d, tr[n].page);
    FreedPagesInsert(tr, n + 1, d, tr[n].page, FreedPage(e, tr[n].time));
  }

  lemma {:induction false} UnusedPageVanishes(tr: Trace, n: nat, d: Dict<FreedPage>, e: Page)
    requires n < |tr| && tr[n].PageFree? && FreedPagesMatch(tr, n, d)
    requires PageLive(tr, n, tr[n].page) && PageMatches(tr, n, tr[n].page, e) && e.frags == []
    ensures FreedPagesMatch(tr, n + 1, d)
  {
    hide PageMatches, PageLive, PageStart, PageFrags, PageEnd;
    assert !PageParked(tr, n, tr[n].page);
    PageParksSelf(tr, n, e);
    OthersParked(tr, n, d, tr[n].page);
    FreedPagesSkip(tr, n + 1, d, tr[n].page);
  }

  lemma {:induction false} FreedPagesSkip(tr: Trace, n: nat, d: Dict<FreedPage>, p: Addr)
    requires n <= |tr| && OthersParkedMatch(tr, n, d, p) && !PageParked(tr, n, p) && p !in d.items
    ensures FreedPagesMatch(tr, n, d)
  {
  }

  lemma {:induction false} FreedPagesInsert(tr: Trace, n: nat, d: Dict<FreedPage>, p: Addr, e: FreedPage)
    requires n <= |tr| && OthersParkedMatch(tr, n, d, p) && PageParked(tr, n, p)
    requires PageMatches(tr, n, p, e.page) && PageEnd(tr, n, p) < n && e.freeTime == tr[PageEnd(tr, n, p)].time
    ensures FreedPagesMatch(tr, n, d.Put(p, e))
  {
  }

  ghost predicate OthersParkedMatch(tr: Trace, n: nat, d: Dict<FreedPage>, p: Addr)
    requires n <= |tr|
  {
    && d.Valid()
    && (forall q :: q != p ==> (q in d.items <==> PageParked(tr, n, q)))
    && (forall q :: q in d.items && q != p ==>
          && PageMatches(tr, n, q, d.items[q].page)
          && PageEnd(tr, n, q) < n && d.items[q].freeTime == tr[PageEnd(tr, n, q)].time)
  }

  lemma {:induction false} PageParksSelf(tr: Trace, n: nat, e: Page)
    requires n < |tr| && tr[n].PageFree?
    requires PageLive(tr, n, tr[n].page) && PageMatches(tr, n, tr[n].page, e)
    ensures PageParked(tr, n + 1, tr[n].page) == (e.frags != [])
    ensures PageMatches(tr, n + 1, tr[n].page, e) && PageEnd(tr, n + 1, tr[n].page) == n
  {
    PageFreed(tr, n, tr[n].page);
    FragsFrame(tr, n, PageFrags(tr, n, tr[n].page), e.frags);
  }

  lemma {:induction false} OthersParked(tr: Trace, n: nat, d: Dict<FreedPage>, p: Addr)
    requires n < |tr| && FreedPagesMatch(tr, n, d)
    requires forall q :: q != p ==> !Matches(tr[n], AllocOf(q)) && !Matches(tr[n], FreeOf(q))
    ensures OthersParkedMatch(tr, n + 1, d, p)
  {
    forall q | q != p
      ensures PageParked(tr, n + 1, q) == PageParked(tr, n, q)
      ensures q in d.items ==>
        PageMatches(tr, n + 1, q, d.items[q].page) && PageEnd(tr, n + 1, q) == PageEnd(tr, n, q) < n
    {
      ParkedNext(tr, n, q);
      if q in d.items { ParkedMatches(tr, n, q, d.items[q].page); }
    }
  }
}
