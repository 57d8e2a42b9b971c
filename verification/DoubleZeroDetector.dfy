/** The detector script: its two dictionaries, updated in place, with the printed reports
    and warnings collected in fields. */
module DoubleZeroDetector {
  import opened OrderedDict
  import opened DoubleZero

  class DoubleZeroDetector {
    var activePages: Dict<Page>
    var fragRefCount: map<Addr, int>
    var reports: seq<Report>
    var warnings: nat

    ghost predicate Valid()
      reads this
    {
      View().Valid()
    }

    ghost function View(): State
      reads this
    {
      State(activePages, fragRefCount, reports, warnings)
    }

    constructor ()
      ensures Valid() && View() == INIT
    {
      activePages, fragRefCount, reports, warnings := Empty(), map[], [], 0;
    }

    /** The loop that prints the fragments of a freed page that were zeroed more than once. */
    method PrintDoubles(page: Addr, zeroed: Dict<Zeros>)
      requires zeroed.Valid()
      modifies `reports
      ensures reports == old(reports) + Reports(page, zeroed, |zeroed.keys|)
    {
      var k := 0;
      while k < |zeroed.keys|
        invariant 0 <= k <= |zeroed.keys|
        invariant reports == old(reports) + Reports(page, zeroed, k)
      {
        var frag := zeroed.keys[k];
        var zeros := zeroed.items[frag];
        if |zeros| > 1 {
          reports := reports + [Report(frag, page, zeros)];
        }
        k := k + 1;
      }
    }

    /** One trip round the event loop; ok is false when the assertion fails. */
    method ProcessEvent(e: Event) returns (ok: bool)
      requires Valid()
      modifies this
      ensures ok <==> Step(old(View()), e).Running?
      ensures ok ==> Valid() && View() == Step(old(View()), e).s
    {
      hide Dict.Valid, Reports;
      match e {
      case PageAlloc(t, page) =>
        if page in activePages.items { return false; }
        activePages := activePages.Put(page, Page(t, Empty()));
      case PageFree(_, page) =>
        if page in activePages.items {
          var entry := activePages.items[page];
          activePages := activePages.Pop(page);
          PrintDoubles(page, entry.fragsZeroed);
        }
      case Zeroing(t, page, frag) =>
        if page !in activePages.items {
          warnings := warnings + 1;
        } else {
          var entry := activePages.items[page];
          var fz := entry.fragsZeroed;
          var refs := if frag !in fragRefCount then -1 else fragRefCount[frag];
          var zeros := if frag in fz.items then fz.items[frag] else [];
          fz := fz.Put(frag, zeros + [Zero(t, refs)]);
          activePages := activePages.Put(page, entry.(fragsZeroed := fz));
        }
      case Ref(_, frag) =>
        if frag !in fragRefCount { fragRefCount := fragRefCount[frag := 0]; }
        fragRefCount := fragRefCount[frag := fragRefCount[frag] + 1];
      case Unref(_, frag) =>
        if frag in fragRefCount { fragRefCount := fragRefCount[frag := fragRefCount[frag] - 1]; }
      case Other(_) =>
      }
      ok := true;
    }

    /** The event loop on a new detector. */
    method Process(events: seq<Event>) returns (ok: bool)
      requires Valid() && View() == INIT
      modifies this
      ensures ok <==> Run(events, |events|).Running?
      ensures ok ==> Valid() && View() == Run(events, |events|).s
    {
      hide Step, Dict.Valid;
      var i := 0;
      while i < |events|
        invariant 0 <= i <= |events| && Valid()
        invariant Run(events, i) == Running(View())
      {
        ok := ProcessEvent(events[i]);
        if !ok {
          CrashStays(events, i + 1, |events|);
          return;
        }
        i := i + 1;
      }
      ok := true;
    }
  }

  lemma {:induction false} CrashStays(tr: Trace, m: nat, n: nat)
    requires m <= n <= |tr| && Run(tr, m).Crashed?
    ensures Run(tr, n).Crashed?
  {
    hide Step;
    if m < n { CrashStays(tr, m, n - 1); }
  }
}
