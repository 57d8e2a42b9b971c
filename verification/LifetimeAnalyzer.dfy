/** The script itself: five dictionaries and ten parallel lists, updated in place event
    by event.  Each method is proved against the step function of `Analyzer`; `Process`
    ties a whole run to `Run`, and so to everything proved about it. */
module LifetimeAnalyzer {
  import opened OrderedDict
  import opened Analyzer

  /** The ten output lists. */
  datatype Columns = Columns(types: seq<Kind>, lifetimes: seq<real>, freeTimes: seq<real>,
                             pageFreeTimes: seq<Cell<real>>, useTimes: seq<real>, ptrs: seq<Addr>,
                             pages: seq<Cell<Addr>>, realUseTimes: seq<real>,
                             allocFuncs: seq<Loc>, freeFuncs: seq<Loc>)

  /** The lists that represent a sequence of rows. */
  ghost function ColumnsOf(rows: seq<Row>): Columns {
    if rows == [] then Columns([], [], [], [], [], [], [], [], [], [])
    else
      var c, r := ColumnsOf(rows[..|rows| - 1]), rows[|rows| - 1];
      Columns(c.types + [r.kind], c.lifetimes + [r.lifetime], c.freeTimes + [r.freeTime],
              c.pageFreeTimes + [r.pageFreeTime], c.useTimes + [r.useTime], c.ptrs + [r.ptr],
              c.pages + [r.page], c.realUseTimes + [r.realUseTime],
              c.allocFuncs + [r.allocFunc], c.freeFuncs + [r.freeFunc])
  }

  lemma {:induction false} ColumnsAppend(rows: seq<Row>, r: Row)
    ensures var c := ColumnsOf(rows);
            ColumnsOf(rows + [r]) ==
            Columns(c.types + [r.kind], c.lifetimes + [r.lifetime], c.freeTimes + [r.freeTime],
                    c.pageFreeTimes + [r.pageFreeTime], c.useTimes + [r.useTime], c.ptrs + [r.ptr],
                    c.pages + [r.page], c.realUseTimes + [r.realUseTime],
                    c.allocFuncs + [r.allocFunc], c.freeFuncs + [r.freeFunc])
  {
    assert (rows + [r])[..|rows|] == rows;
  }

  /** A page and a page free time exactly on fragment rows. */
  predicate WellTyped(r: Row) {
    (r.kind.FragKind? <==> r.pageFreeTime.Value?) && (r.kind.FragKind? <==> r.page.Value?)
  }

  /** Position i of the lists is row i, and the lists have one length. */
  lemma {:induction false} ColumnsAlign(rows: seq<Row>, i: nat)
    ensures var c := ColumnsOf(rows);
            && |c.types| == |c.lifetimes| == |c.freeTimes| == |c.pageFreeTimes| == |c.useTimes| == |rows|
            && |c.ptrs| == |c.pages| == |c.realUseTimes| == |c.allocFuncs| == |c.freeFuncs| == |rows|
            && (i < |rows| ==>
                  rows[i] == Row(c.types[i], c.ptrs[i], c.pages[i], c.lifetimes[i], c.useTimes[i], c.freeTimes[i],
                                 c.pageFreeTimes[i], c.realUseTimes[i], c.allocFuncs[i], c.freeFuncs[i]))
  {
    if rows != [] { ColumnsAlign(rows[..|rows| - 1], i); }
  }

  /** One line of the printed table, with the derived column. */
  datatype TableRow = TableRow(row: Row, nonePageFreeTime: Cell<real>)

  class LifetimeAnalyzer {
    // The output columns, and the rows they represent.
    var types: seq<Kind>
    var lifetimes: seq<real>
    var freeTimes: seq<real>
    var pageFreeTimes: seq<Cell<real>>
    var useTimes: seq<real>
    var ptrs: seq<Addr>
    var pages: seq<Cell<Addr>>
    var realUseTimes: seq<real>
    var allocFuncs: seq<Loc>
    var freeFuncs: seq<Loc>
    ghost var rows: seq<Row>

    // The state.
    var activeSkbPtrs: Dict<Head>
    var activePages: Dict<Page>
    var freedSkbPtrs: Dict<FreedHead>
    var freedPages: Dict<FreedPage>
    var consumeSkbLocations: Dict<Loc>

    ghost predicate Aligned()
      reads this
    {
      var c := ColumnsOf(rows);
      && types == c.types && lifetimes == c.lifetimes && freeTimes == c.freeTimes
      && pageFreeTimes == c.pageFreeTimes && useTimes == c.useTimes && ptrs == c.ptrs && pages == c.pages
      && realUseTimes == c.realUseTimes && allocFuncs == c.allocFuncs && freeFuncs == c.freeFuncs
      && forall i :: 0 <= i < |rows| ==> WellTyped(rows[i])
    }

    ghost predicate Valid()
      reads this
    {
      Aligned() && View().Valid()
    }

    ghost function View(): State
      reads this
    {
      State(activePages, freedPages, activeSkbPtrs, freedSkbPtrs, consumeSkbLocations, rows)
    }

    constructor ()
      ensures Valid() && View() == INIT
    {
      types, lifetimes, freeTimes, pageFreeTimes, useTimes := [], [], [], [], [];
      ptrs, pages, realUseTimes, allocFuncs, freeFuncs, rows := [], [], [], [], [], [];
      activeSkbPtrs, activePages, freedSkbPtrs, freedPages := Empty(), Empty(), Empty(), Empty();
      consumeSkbLocations := Empty();
    }

    /** First fragment with this ptr, or -1. */
    static method IndexCond(frags: seq<Frag>, ptr: Addr) returns (i: int)
      ensures i == FindPtr(frags, ptr)
    {
      i := 0;
      while i < |frags|
        invariant 0 <= i <= |frags|
        invariant forall j :: 0 <= j < i ==> frags[j].ptr != ptr
      {
        if frags[i].ptr == ptr { return i; }
        i := i + 1;
      }
      i := -1;
    }

    /** The search of finalize_skb_around over the active pages. */
    method SearchPages(ptr: Addr) returns (k: int, fragIndex: int)
      requires Valid()
      ensures k == FindPage(activePages, ptr, 0)
      ensures k >= 0 ==> fragIndex == FindPtr(activePages.items[activePages.keys[k]].frags, ptr)
    {
      fragIndex := -1;
      var j := 0;
      while j < |activePages.keys|
        invariant 0 <= j <= |activePages.keys|
        invariant FindPage(activePages, ptr, 0) == FindPage(activePages, ptr, j)
      {
        fragIndex := IndexCond(activePages.items[activePages.keys[j]].frags, ptr);
        if fragIndex != -1 { return j, fragIndex; }
        j := j + 1;
      }
      k := -1;
    }

    /** The scan of alloc_skb_with_frags over the active heads. */
    method SearchHeads(skb: Addr) returns (r: HeadSearch)
      requires Valid()
      ensures r == FindHead(activeSkbPtrs, skb, 0)
    {
      var j := 0;
      while j < |activeSkbPtrs.keys|
        invariant 0 <= j <= |activeSkbPtrs.keys|
        invariant FindHead(activeSkbPtrs, skb, 0) == FindHead(activeSkbPtrs, skb, j)
      {
        var entry := activeSkbPtrs.items[activeSkbPtrs.keys[j]];
        if entry.write.None? { return NoSkbField; }
        if entry.write.value.skb == skb { return Found(j); }
        j := j + 1;
      }
      return NoHead;
    }

    method AppendTimes(r: Row)
      modifies `lifetimes, `freeTimes, `pageFreeTimes, `useTimes, `realUseTimes
      ensures lifetimes == old(lifetimes) + [r.lifetime] && freeTimes == old(freeTimes) + [r.freeTime]
      ensures pageFreeTimes == old(pageFreeTimes) + [r.pageFreeTime] && useTimes == old(useTimes) + [r.useTime]
      ensures realUseTimes == old(realUseTimes) + [r.realUseTime]
    {
      lifetimes := lifetimes + [r.lifetime];
      freeTimes := freeTimes + [r.freeTime];
      pageFreeTimes := pageFreeTimes + [r.pageFreeTime];
      useTimes := useTimes + [r.useTime];
      realUseTimes := realUseTimes + [r.realUseTime];
    }

    method AppendNames(r: Row)
      modifies `types, `ptrs, `pages, `allocFuncs, `freeFuncs
      ensures types == old(types) + [r.kind] && ptrs == old(ptrs) + [r.ptr] && pages == old(pages) + [r.page]
      ensures allocFuncs == old(allocFuncs) + [r.allocFunc] && freeFuncs == old(freeFuncs) + [r.freeFunc]
    {
      types := types + [r.kind];
      pages := pages + [r.page];
      ptrs := ptrs + [r.ptr];
      allocFuncs := allocFuncs + [r.allocFunc];
      freeFuncs := freeFuncs + [r.freeFunc];
    }

    /** One value onto each of the ten lists (lines 63-72 and 192-201). */
    method AppendRow(r: Row)
      requires Aligned() && WellTyped(r)
      modifies `types, `lifetimes, `freeTimes, `pageFreeTimes, `useTimes, `ptrs, `pages, `realUseTimes,
               `allocFuncs, `freeFuncs, `rows
      ensures Aligned() && rows == old(rows) + [r]
    {
      hide ColumnsOf, WellTyped, Dict.Valid;
      ColumnsAppend(rows, r);
      AppendTimes(r);
      AppendNames(r);
      rows := rows + [r];
    }

    /** The loop over the fragments of a freed page that is allocated again. */
    method EmitFrags(t: real, page: Addr, entry: FreedPage) returns (crash: Option<Crash>)
      requires Aligned()
      modifies `types, `lifetimes, `freeTimes, `pageFreeTimes, `useTimes, `ptrs, `pages, `realUseTimes,
               `allocFuncs, `freeFuncs, `rows
      ensures match FragRows(t, page, entry.freeTime, entry.page.frags)
              case Rows(rs) => crash.None? && Aligned() && rows == old(rows) + rs
              case Missing(line) => crash == Some(KeyMissing(line))
    {
      hide ColumnsOf, WellTyped, FragRow;
      var frags := entry.page.frags;
      var k := 0;
      while k < |frags|
        invariant 0 <= k <= |frags| && Aligned()
        invariant FragRows(t, page, entry.freeTime, frags[..k]).Rows?
        invariant rows == old(rows) + FragRows(t, page, entry.freeTime, frags[..k]).rows
      {
        var f := frags[k];
        assert frags[..k + 1][..k] == frags[..k];
        if f.release.None? {
          MissingStays(t, page, entry.freeTime, frags, k + 1);
          return Some(KeyMissing(65));
        }
        if f.write.None? {
          MissingStays(t, page, entry.freeTime, frags, k + 1);
          return Some(KeyMissing(70));
        }
        FragRowWellTyped(t, page, entry.freeTime, f);
        AppendRow(FragRow(t, page, entry.freeTime, f));
        k := k + 1;
      }
      assert frags[..k] == frags;
      return None;
    }

    /** What a branch did: it stopped with the exception of o, or reached the state of o. */
    ghost predicate Did(o: Outcome, crash: Option<Crash>)
      reads this
    {
      match o
      case Running(s) => crash.None? && Valid() && View() == s
      case Crashed(why) => crash == Some(why)
    }

    /** Lines 60-72: the freed entry of a reallocated page turns into rows. */
    method EmitReused(t: real, page: Addr) returns (crash: Option<Crash>)
      requires Valid() && page in freedPages.items
      modifies `types, `lifetimes, `freeTimes, `pageFreeTimes, `useTimes, `ptrs, `pages, `realUseTimes,
               `allocFuncs, `freeFuncs, `rows, `freedPages
      ensures var entry := old(freedPages).items[page];
              match FragRows(t, page, entry.freeTime, entry.page.frags)
              case Rows(rs) =>
                && crash.None? && Valid()
                && View() == old(View()).(freedPages := old(freedPages).Pop(page), rows := old(rows) + rs)
              case Missing(line) => crash == Some(KeyMissing(line))
    {
      hide ColumnsOf, WellTyped, FragRows;
      var entry := freedPages.items[page];
      freedPages := freedPages.Pop(page);
      crash := EmitFrags(t, page, entry);
    }

    method MmPageAlloc(t: real, page: Addr) returns (crash: Option<Crash>)
      requires Valid()
      modifies this
      ensures Did(OnPageAlloc(old(View()), t, page), crash)
    {
      hide ColumnsOf, WellTyped, FragRows, Dict.Valid;
      if page in activePages.items { return Some(AssertionFailed(57)); }
      if page in freedPages.items {
        crash := EmitReused(t, page);
        if crash.Some? { return; }
      }
      activePages := activePages.Put(page, Page(t, []));
      crash := None;
    }

    method AllocFrag(t: real, page: Addr, ptr: Addr, location: Loc) returns (crash: Option<Crash>)
      requires Valid()
      modifies `activePages
      ensures Did(OnFragAlloc(old(View()), t, page, ptr, location), crash)
    {
      hide ColumnsOf, WellTyped, Dict.Valid;
      if page in freedPages.items { return Some(AssertionFailed(81)); }
      if page !in activePages.items { return None; }
      var entry := activePages.items[page];
      activePages := activePages.Put(page, entry.(frags := entry.frags + [Frag(ptr, t, location, None, None)]));
      return None;
    }

    method FinalizeSkbAround(t: real, ptr: Addr, skb: Addr) returns (crash: Option<Crash>)
      requires Valid()
      modifies `activePages, `activeSkbPtrs
      ensures Did(OnFinalize(old(View()), t, ptr, skb), crash)
    {
      hide ColumnsOf, WellTyped, FindPage, FindPtr;
      var k, fragIndex := SearchPages(ptr);
      if k != -1 {
        var page := activePages.keys[k];
        if page in freedPages.items { return Some(AssertionFailed(103)); }
        var entry := activePages.items[page];
        var frag := entry.frags[fragIndex].(write := Some(Write(t, skb)));
        activePages := activePages.Put(page, entry.(frags := entry.frags[fragIndex := frag]));
      } else if ptr in activeSkbPtrs.items {
        activeSkbPtrs := activeSkbPtrs.Put(ptr, activeSkbPtrs.items[ptr].(write := Some(Write(t, skb))));
      }
      return None;
    }

    /** Takes the pending location of an skb out of the table. */
    method TakeLocation(skb: Addr) returns (func: Loc)
      requires Valid()
      modifies `consumeSkbLocations
      ensures func == LocationOf(old(consumeSkbLocations), skb)
      ensures Valid() && consumeSkbLocations == Taken(old(consumeSkbLocations), skb)
    {
      hide ColumnsOf, WellTyped, Dict.Valid;
      if skb in consumeSkbLocations.items {
        func := consumeSkbLocations.items[skb];
        consumeSkbLocations := consumeSkbLocations.Pop(skb);
      } else {
        func := NOT_FOUND;
      }
    }

    method SkbHeadFragFree(t: real, page: Addr, ptr: Addr, skb: Addr) returns (crash: Option<Crash>)
      requires Valid()
      modifies `activePages, `consumeSkbLocations
      ensures Did(OnFragFree(old(View()), t, page, ptr, skb), crash)
    {
      hide ColumnsOf, WellTyped, FindPtr, Taken, LocationOf;
      if page in freedPages.items { return Some(AssertionFailed(122)); }
      var func := TakeLocation(skb);
      if page !in activePages.items { return None; }
      var entry := activePages.items[page];
      var fragIndex := IndexCond(entry.frags, ptr);
      if fragIndex == -1 { return None; }
      var frag := entry.frags[fragIndex].(release := Some(Release(t, func)));
      activePages := activePages.Put(page, entry.(frags := entry.frags[fragIndex := frag]));
      return None;
    }

    method MmPageFree(t: real, page: Addr) returns (crash: Option<Crash>)
      requires Valid()
      modifies `activePages, `freedPages
      ensures Did(OnPageFree(old(View()), t, page), crash)
    {
      hide ColumnsOf, WellTyped, Dict.Valid;
      if page !in activePages.items { return None; }
      var entry := activePages.items[page];
      activePages := activePages.Pop(page);
      if |entry.frags| == 0 { return None; }
      if page in freedPages.items { return Some(AssertionFailed(152)); }
      freedPages := freedPages.Put(page, FreedPage(entry, t));
      return None;
    }

    method SkbHeadKmalloc(t: real, ptr: Addr, len: int, location: Loc) returns (crash: Option<Crash>)
      requires Valid()
      modifies `activeSkbPtrs
      ensures Did(OnHeadKmalloc(old(View()), t, ptr, len, location), crash)
    {
      hide ColumnsOf, WellTyped, Dict.Valid;
      if ptr in activeSkbPtrs.items && ptr in freedSkbPtrs.items { return Some(AssertionFailed(157)); }
      activeSkbPtrs := activeSkbPtrs.Put(ptr, Head(len, t, location, None));
      return None;
    }

    method AllocSkbWithFrags(skb: Addr, location: Loc) returns (crash: Option<Crash>)
      requires Valid()
      modifies `activeSkbPtrs
      ensures Did(OnSkbWithFrags(old(View()), skb, location), crash)
    {
      hide ColumnsOf, WellTyped, FindHead;
      var found := SearchHeads(skb);
      match found
      case NoSkbField => return Some(KeyMissing(167));
      case NoHead => return None;
      case Found(k) =>
        var ptr := activeSkbPtrs.keys[k];
        activeSkbPtrs := activeSkbPtrs.Put(ptr, activeSkbPtrs.items[ptr].(allocFunc := location));
        return None;
    }

    method SkbHeadKfree(t: real, ptr: Addr, skb: Addr) returns (crash: Option<Crash>)
      requires Valid()
      modifies `activeSkbPtrs, `freedSkbPtrs, `consumeSkbLocations
      ensures Did(OnHeadFree(old(View()), t, ptr, skb), crash)
    {
      hide ColumnsOf, WellTyped, Taken, LocationOf, Dict.Valid;
      if ptr in freedSkbPtrs.items { return Some(AssertionFailed(173)); }
      if ptr !in activeSkbPtrs.items { return None; }
      var func := TakeLocation(skb);
      var entry := activeSkbPtrs.items[ptr];
      activeSkbPtrs := activeSkbPtrs.Pop(ptr);
      freedSkbPtrs := freedSkbPtrs.Put(ptr, FreedHead(entry, Release(t, func)));
      return None;
    }

    method KmallocAgain(t: real, ptr: Addr) returns (crash: Option<Crash>)
      requires Valid()
      modifies this
      ensures Did(OnKmalloc(old(View()), t, ptr), crash)
    {
      hide ColumnsOf, WellTyped, HeadRow, Dict.Valid;
      if ptr in freedSkbPtrs.items {
        var entry := freedSkbPtrs.items[ptr];
        freedSkbPtrs := freedSkbPtrs.Pop(ptr);
        if entry.head.write.None? { return Some(KeyMissing(199)); }
        HeadRowWellTyped(t, ptr, entry);
        AppendRow(HeadRow(t, ptr, entry));
      }
      return None;
    }

    method ConsumeSkb(skb: Addr, location: Loc)
      requires Valid()
      modifies `consumeSkbLocations
      ensures Valid() && View() == old(View()).(consumed := old(consumeSkbLocations).Put(skb, location))
    {
      hide ColumnsOf, WellTyped, Dict.Valid;
      consumeSkbLocations := consumeSkbLocations.Put(skb, location);
    }

    /** One trip round the event loop. */
    method ProcessEvent(e: Event) returns (crash: Option<Crash>)
      requires Valid()
      modifies this
      ensures Did(Step(old(View()), e), crash)
    {
      hide Valid, OnPageAlloc, OnFragAlloc, OnFinalize, OnFragFree, OnPageFree, OnHeadKmalloc,
        OnSkbWithFrags, OnHeadFree, OnKmalloc;
      match e
      case PageAlloc(t, page) => crash := MmPageAlloc(t, page);
      case FragAlloc(t, page, ptr, location) => crash := AllocFrag(t, page, ptr, location);
      case Finalize(t, ptr, skb) => crash := FinalizeSkbAround(t, ptr, skb);
      case FragFree(t, page, ptr, skb) => crash := SkbHeadFragFree(t, page, ptr, skb);
      case PageFree(t, page) => crash := MmPageFree(t, page);
      case HeadKmalloc(t, ptr, len, location) => crash := SkbHeadKmalloc(t, ptr, len, location);
      case SkbWithFrags(_, skb, location) => crash := AllocSkbWithFrags(skb, location);
      case HeadFree(t, ptr, skb) => crash := SkbHeadKfree(t, ptr, skb);
      case Kmalloc(t, ptr) => crash := KmallocAgain(t, ptr);
      case Consume(_, skb, location) => ConsumeSkb(skb, location); crash := None;
      case Other(_) => crash := None;
    }

    /** The event loop on a new analyser: it stops at the first exception. */
    method Process(events: seq<Event>) returns (crash: Option<Crash>)
      requires Valid() && View() == INIT
      modifies this
      ensures Did(Run(events, |events|), crash)
    {
      hide Step, Valid, View;
      var i := 0;
      crash := None;
      while i < |events|
        invariant 0 <= i <= |events|
        invariant crash.None? && Did(Run(events, i), crash)
      {
        crash := ProcessEvent(events[i]);
        if crash.Some? {
          CrashStays(events, i + 1, |events|);
          return;
        }
        i := i + 1;
      }
    }

    /** The derived column and the zipped table. */
    method Table() returns (table: seq<TableRow>)
      requires Valid()
      ensures |table| == |rows|
      ensures forall i :: 0 <= i < |table| ==> table[i].row == rows[i]
      ensures forall i :: 0 <= i < |table| ==>
                table[i].nonePageFreeTime ==
                if rows[i].kind.FragKind? then Value(rows[i].freeTime - rows[i].pageFreeTime.v) else Dash
    {
      hide ColumnsOf;
      ColumnsAlign(rows, 0);
      table := [];
      var i := 0;
      while i < |freeTimes|
        invariant 0 <= i <= |freeTimes| == |rows| && |table| == i
        invariant forall j :: 0 <= j < i ==> table[j].row == rows[j]
        invariant forall j :: 0 <= j < i ==>
          table[j].nonePageFreeTime ==
          if rows[j].kind.FragKind? then Value(rows[j].freeTime - rows[j].pageFreeTime.v) else Dash
      {
        ColumnsAlign(rows, i);
        var none := if types[i].FragKind? then Value(freeTimes[i] - pageFreeTimes[i].v) else Dash;
        var row := Row(types[i], ptrs[i], pages[i], lifetimes[i], useTimes[i], freeTimes[i], pageFreeTimes[i],
                       realUseTimes[i], allocFuncs[i], freeFuncs[i]);
        table := table + [TableRow(row, none)];
        i := i + 1;
      }
    }
  }

  lemma {:induction false} CrashStays(tr: seq<Event>, m: nat, n: nat)
    requires m <= n <= |tr| && Run(tr, m).Crashed?
    ensures Run(tr, n) == Run(tr, m)
  {
    hide Step;
    if m < n { CrashStays(tr, m, n - 1); }
  }

  lemma {:induction false} FragRowWellTyped(t: real, page: Addr, freed: real, f: Frag)
    requires f.release.Some? && f.write.Some?
    ensures WellTyped(FragRow(t, page, freed, f))
  {
  }

  lemma {:induction false} HeadRowWellTyped(t: real, ptr: Addr, f: FreedHead)
    requires f.head.write.Some?
    ensures WellTyped(HeadRow(t, ptr, f))
  {
  }

  /** Once a field is missing, the later fragments do not matter. */
  lemma {:induction false} MissingStays(t: real, page: Addr, freed: real, frags: seq<Frag>, k: nat)
    requires k <= |frags| && FragRows(t, page, freed, frags[..k]).Missing?
    ensures FragRows(t, page, freed, frags) == FragRows(t, page, freed, frags[..k])
  {
    if k < |frags| {
      var l := |frags| - 1;
      assert frags[..l][..k] == frags[..k];
      MissingStays(t, page, freed, frags[..l], k);
    } else {
      assert frags[..k] == frags;
    }
  }
}
