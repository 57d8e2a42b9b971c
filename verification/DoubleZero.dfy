/** The double-zero detector: per live page, the zeroings of each fragment together with
    the fragment's reference count at that moment; on page free, a report for every
    fragment zeroed more than once. */
module DoubleZero {
  import opened OrderedDict

  datatype Event =
    | PageAlloc(time: real, page: Addr)
    | PageFree(time: real, page: Addr)
    | Zeroing(time: real, page: Addr, frag: Addr)
    | Ref(time: real, frag: Addr)
    | Unref(time: real, frag: Addr)
    | Other(time: real)

  /** When a fragment was zeroed, and its reference count then. */
  datatype Zero = Zero(time: real, refs: int)
  type Zeros = seq<Zero>
  datatype Page = Page(allocTime: real, fragsZeroed: Dict<Zeros>)
  datatype Report = Report(frag: Addr, page: Addr, zeros: Zeros)

  datatype State = State(activePages: Dict<Page>, refCount: map<Addr, int>,
                         reports: seq<Report>, warnings: nat) {
    ghost predicate Valid() {
      activePages.Valid() && forall p :: p in activePages.items ==> activePages.items[p].fragsZeroed.Valid()
    }
  }

  /** Crashed: the assertion that an allocated page is not active (line 29). */
  datatype Outcome = Running(s: State) | Crashed

  const INIT := State(Empty(), map[], [], 0)

  // ----- the script on values

  /** The reports for the first k fragments of a freed page. */
  function Reports(page: Addr, z: Dict<Zeros>, k: nat): (r: seq<Report>)
    requires z.Valid() && k <= |z.keys|
  {
    if k == 0 then []
    else
      var f := z.keys[k - 1];
      Reports(page, z, k - 1) + if |z.items[f]| > 1 then [Report(f, page, z.items[f])] else []
  }

  function RefsOf(refCount: map<Addr, int>, frag: Addr): (r: int) {
    if frag in refCount then refCount[frag] else -1
  }

  /** The zeroing table with one more record. */
  function Recorded(z: Dict<Zeros>, frag: Addr, r: Zero): (z': Dict<Zeros>)
    requires z.Valid()
    ensures z'.Valid()
  {
    z.Put(frag, (if frag in z.items then z.items[frag] else []) + [r])
  }

  function Step(s: State, e: Event): (o: Outcome)
    requires s.Valid()
    ensures o.Running? ==> o.s.Valid()
  {
    match e
    case PageAlloc(t, p) =>
      if p in s.activePages.items then Crashed
      else Running(s.(activePages := s.activePages.Put(p, Page(t, Empty()))))
    case PageFree(_, p) =>
      if p !in s.activePages.items then Running(s)
      else
        var z := s.activePages.items[p].fragsZeroed;
        Running(s.(activePages := s.activePages.Pop(p), reports := s.reports + Reports(p, z, |z.keys|)))
    case Zeroing(t, p, f) =>
      if p !in s.activePages.items then Running(s.(warnings := s.warnings + 1))
      else
        var page := s.activePages.items[p];
        var z := Recorded(page.fragsZeroed, f, Zero(t, RefsOf(s.refCount, f)));
        Running(s.(activePages := s.activePages.Put(p, page.(fragsZeroed := z))))
    case Ref(_, f) =>
      Running(s.(refCount := s.refCount[f := (if f in s.refCount then s.refCount[f] else 0) + 1]))
    case Unref(_, f) =>
      if f !in s.refCount then Running(s)
      else Running(s.(refCount := s.refCount[f := s.refCount[f] - 1]))
    case Other(_) => Running(s)
  }

  function Run(tr: seq<Event>, n: nat): (o: Outcome)
    requires n <= |tr|
    ensures o.Running? ==> o.s.Valid()
  {
    if n == 0 then Running(INIT)
    else
      match Run(tr, n - 1)
      case Running(s) => Step(s, tr[n - 1])
      case Crashed => Crashed
  }

  // ----- the same, read off the trace

  type Trace = seq<Event>

  function LastAlloc(tr: Trace, n: nat, p: Addr): (i: int)
    requires n <= |tr|
    ensures -1 <= i < n && (i >= 0 ==> tr[i].PageAlloc? && tr[i].page == p)
  {
    if n == 0 then -1
    else if tr[n - 1].PageAlloc? && tr[n - 1].page == p then n - 1 else LastAlloc(tr, n - 1, p)
  }

  function LastFree(tr: Trace, n: nat, p: Addr): (i: int)
    requires n <= |tr|
    ensures -1 <= i < n && (i >= 0 ==> tr[i].PageFree? && tr[i].page == p)
  {
    if n == 0 then -1
    else if tr[n - 1].PageFree? && tr[n - 1].page == p then n - 1 else LastFree(tr, n - 1, p)
  }

  predicate Live(tr: Trace, n: nat, p: Addr)
    requires n <= |tr|
  {
    LastAlloc(tr, n, p) > LastFree(tr, n, p)
  }

  predicate Zeroes(e: Event, p: Addr, f: Addr) {
    e.Zeroing? && e.page == p && e.frag == f
  }

  /** The zeroings of fragment f on page p strictly between i and n, in trace order. */
  function ZeroingsIn(tr: Trace, i: int, n: nat, p: Addr, f: Addr): (ix: seq<nat>)
    requires -1 <= i && n <= |tr|
    ensures forall k :: 0 <= k < |ix| ==> i < ix[k] < n && Zeroes(tr[ix[k]], p, f)
    ensures forall k, l :: 0 <= k < l < |ix| ==> ix[k] < ix[l]
  {
    if n <= i + 1 then []
    else ZeroingsIn(tr, i, n - 1, p, f) + if Zeroes(tr[n - 1], p, f) then [n - 1] else []
  }

  /** They are all of them. */
  lemma {:induction false} ZeroingsComplete(tr: Trace, i: int, n: nat, p: Addr, f: Addr, j: nat)
    requires -1 <= i && n <= |tr|
    ensures j in ZeroingsIn(tr, i, n, p, f) <==> i < j < n && Zeroes(tr[j], p, f)
  {
    if n > i + 1 { ZeroingsComplete(tr, i, n - 1, p, f, j); }
  }

  /** The zeroings of f on p since p's last alloc. */
  function Zeroings(tr: Trace, n: nat, p: Addr, f: Addr): (ix: seq<nat>)
    requires n <= |tr|
    ensures forall k :: 0 <= k < |ix| ==> LastAlloc(tr, n, p) < ix[k] < n && Zeroes(tr[ix[k]], p, f)
    ensures forall k, l :: 0 <= k < l < |ix| ==> ix[k] < ix[l]
  {
    ZeroingsIn(tr, LastAlloc(tr, n, p), n, p, f)
  }

  /** The first of them, or n. */
  function FirstZeroing(tr: Trace, n: nat, p: Addr, f: Addr): (j: nat)
    requires n <= |tr|
    ensures j < n <==> Zeroings(tr, n, p, f) != []
    ensures j <= n
  {
    var ix := Zeroings(tr, n, p, f);
    if ix == [] then n else ix[0]
  }

  /** The first reference to f, or n. */
  function FirstRef(tr: Trace, n: nat, f: Addr): (i: nat)
    requires n <= |tr|
    ensures i <= n && (i < n ==> tr[i].Ref? && tr[i].frag == f)
  {
    if n == 0 then 0
    else
      var i := FirstRef(tr, n - 1, f);
      if i < n - 1 then i else if tr[n - 1].Ref? && tr[n - 1].frag == f then n - 1 else n
  }

  lemma {:induction false} FirstRefIsFirst(tr: Trace, n: nat, f: Addr)
    requires n <= |tr|
    ensures forall j :: 0 <= j < FirstRef(tr, n, f) ==> !(tr[j].Ref? && tr[j].frag == f)
  {
    if n > 0 { FirstRefIsFirst(tr, n - 1, f); }
  }

  function Refs(tr: Trace, lo: nat, hi: nat, f: Addr): (c: nat)
    requires hi <= |tr|
  {
    if hi <= lo then 0
    else Refs(tr, lo, hi - 1, f) + if tr[hi - 1].Ref? && tr[hi - 1].frag == f then 1 else 0
  }

  function Unrefs(tr: Trace, lo: nat, hi: nat, f: Addr): (c: nat)
    requires hi <= |tr|
  {
    if hi <= lo then 0
    else Unrefs(tr, lo, hi - 1, f) + if tr[hi - 1].Unref? && tr[hi - 1].frag == f then 1 else 0
  }

  /** References minus unreferences since f's first reference, or -1 before that. */
  function RefValue(tr: Trace, n: nat, f: Addr): (v: int)
    requires n <= |tr|
  {
    var i := FirstRef(tr, n, f);
    if i == n then -1 else Refs(tr, i, n, f) - Unrefs(tr, i, n, f)
  }

  function Records(tr: Trace, ix: seq<nat>, f: Addr): (z: Zeros)
    requires forall k :: 0 <= k < |ix| ==> ix[k] < |tr|
    ensures |z| == |ix|
    ensures forall k :: 0 <= k < |ix| ==> z[k] == Zero(tr[ix[k]].time, RefValue(tr, ix[k], f))
  {
    if ix == [] then []
    else
      var j := ix[|ix| - 1];
      Records(tr, ix[..|ix| - 1], f) + [Zero(tr[j].time, RefValue(tr, j, f))]
  }

  /** Event j is the first zeroing, since p's last alloc, of a fragment zeroed at least twice. */
  predicate OpensReport(tr: Trace, n: nat, p: Addr, j: nat)
    requires j < n <= |tr|
  {
    && tr[j].Zeroing? && tr[j].page == p
    && FirstZeroing(tr, n, p, tr[j].frag) == j && |Zeroings(tr, n, p, tr[j].frag)| >= 2
  }

  function ReportOn(tr: Trace, n: nat, p: Addr, f: Addr): (r: Report)
    requires n <= |tr|
  {
    Report(f, p, Records(tr, Zeroings(tr, n, p, f), f))
  }

  /** Those reports whose first zeroing lies before m, in trace order. */
  function ReportsBefore(tr: Trace, n: nat, p: Addr, m: nat): (r: seq<Report>)
    requires m <= n <= |tr|
  {
    if m <= LastAlloc(tr, n, p) + 1 then []
    else
      ReportsBefore(tr, n, p, m - 1) +
      if OpensReport(tr, n, p, m - 1) then [ReportOn(tr, n, p, tr[m - 1].frag)] else []
  }

  /** What event n prints. */
  function ReportsAt(tr: Trace, n: nat): (r: seq<Report>)
    requires n < |tr|
  {
    if tr[n].PageFree? && Live(tr, n, tr[n].page) then ReportsBefore(tr, n, tr[n].page, n) else []
  }

  /** All reports of the first n events. */
  function ReportsOf(tr: Trace, n: nat): (r: seq<Report>)
    requires n <= |tr|
  {
    if n == 0 then [] else ReportsOf(tr, n - 1) + ReportsAt(tr, n - 1)
  }

  /** The zeroings of pages that are not live. */
  function WarningsOf(tr: Trace, n: nat): (w: nat)
    requires n <= |tr|
  {
    if n == 0 then 0
    else WarningsOf(tr, n - 1) + if tr[n - 1].Zeroing? && !Live(tr, n - 1, tr[n - 1].page) then 1 else 0
  }

  // ----- what the tables must hold

  ghost predicate ZeroedMatch(tr: Trace, n: nat, p: Addr, z: Dict<Zeros>)
    requires n <= |tr|
  {
    && z.Valid()
    && (forall f :: f in z.items <==> Zeroings(tr, n, p, f) != [])
    && (forall f :: f in z.items ==> z.items[f] == Records(tr, Zeroings(tr, n, p, f), f))
    && (forall i, k :: 0 <= i < k < |z.keys| ==>
          FirstZeroing(tr, n, p, z.keys[i]) < FirstZeroing(tr, n, p, z.keys[k]))
  }

  ghost predicate PagesMatch(tr: Trace, n: nat, d: Dict<Page>)
    requires n <= |tr|
  {
    && d.Valid()
    && (forall p :: p in d.items <==> Live(tr, n, p))
    && (forall p :: p in d.items ==> ZeroedMatch(tr, n, p, d.items[p].fragsZeroed))
    && (forall p :: p in d.items ==> AllocatedAt(tr, n, p, d.items[p].allocTime))
  }

  /** The time of the page's last alloc. */
  ghost predicate AllocatedAt(tr: Trace, n: nat, p: Addr, t: real)
    requires n <= |tr|
  {
    var i := LastAlloc(tr, n, p);
    i >= 0 && tr[i].time == t
  }

  ghost predicate RefsMatch(tr: Trace, n: nat, m: map<Addr, int>)
    requires n <= |tr|
  {
    && (forall f :: f in m <==> FirstRef(tr, n, f) < n)
    && (forall f :: f in m ==> m[f] == RefValue(tr, n, f))
  }

  ghost predicate Refines(tr: Trace, n: nat, s: State)
    requires n <= |tr|
  {
    s.Valid() && PagesMatch(tr, n, s.activePages) && RefsMatch(tr, n, s.refCount)
  }

  // ----- one event later

  lemma {:induction false} RefValueNext(tr: Trace, n: nat, f: Addr)
    requires n < |tr|
    ensures FirstRef(tr, n + 1, f) < n + 1 <==> FirstRef(tr, n, f) < n || tr[n] == Ref(tr[n].time, f)
    ensures RefValue(tr, n + 1, f) ==
            if FirstRef(tr, n, f) == n then (if tr[n] == Ref(tr[n].time, f) then 1 else -1)
            else RefValue(tr, n, f) + (if tr[n] == Ref(tr[n].time, f) then 1
                                       else if tr[n] == Unref(tr[n].time, f) then -1 else 0)
  {
    var i := FirstRef(tr, n, f);
    if i == n && tr[n] == Ref(tr[n].time, f) {
      assert FirstRef(tr, n + 1, f) == n;
      assert Refs(tr, n, n + 1, f) == 1 && Unrefs(tr, n, n + 1, f) == 0;
    } else if i < n {
      assert FirstRef(tr, n + 1, f) == i;
    }
  }

  lemma {:induction false} RefsNext(tr: Trace, n: nat, s: State)
    requires n < |tr| && Refines(tr, n, s) && Step(s, tr[n]).Running?
    ensures RefsMatch(tr, n + 1, Step(s, tr[n]).s.refCount)
  {
    hide PagesMatch, Reports, Recorded, Dict.Valid, FirstRef, RefValue;
    var m := Step(s, tr[n]).s.refCount;
    forall f
      ensures f in m <==> FirstRef(tr, n + 1, f) < n + 1
      ensures f in m ==> m[f] == RefValue(tr, n + 1, f)
    {
      RefValueNext(tr, n, f);
    }
  }

  lemma {:induction false} RefsOfIsRefValue(tr: Trace, n: nat, m: map<Addr, int>, f: Addr)
    requires n <= |tr| && RefsMatch(tr, n, m)
    ensures RefsOf(m, f) == RefValue(tr, n, f)
  {
  }

  lemma {:induction false} ZeroingsNext(tr: Trace, n: nat, p: Addr, f: Addr)
    requires n < |tr| && !(tr[n].PageAlloc? && tr[n].page == p)
    ensures Zeroings(tr, n + 1, p, f) ==
            if Zeroes(tr[n], p, f) then Zeroings(tr, n, p, f) + [n] else Zeroings(tr, n, p, f)
    ensures Zeroings(tr, n, p, f) != [] ==> FirstZeroing(tr, n + 1, p, f) == FirstZeroing(tr, n, p, f)
    ensures Zeroings(tr, n, p, f) == [] && Zeroes(tr[n], p, f) ==> FirstZeroing(tr, n + 1, p, f) == n
  {
  }

  lemma {:induction false} ZeroedFrame(tr: Trace, n: nat, p: Addr, z: Dict<Zeros>)
    requires n < |tr| && ZeroedMatch(tr, n, p, z)
    requires !(tr[n].PageAlloc? && tr[n].page == p) && !(tr[n].Zeroing? && tr[n].page == p)
    ensures ZeroedMatch(tr, n + 1, p, z)
  {
    hide Zeroings, FirstZeroing;
    forall f
      ensures Zeroings(tr, n + 1, p, f) == Zeroings(tr, n, p, f)
      ensures f in z.items ==> FirstZeroing(tr, n + 1, p, f) == FirstZeroing(tr, n, p, f)
    {
      ZeroingsNext(tr, n, p, f);
    }
  }

  lemma {:induction false} RecordsAppend(tr: Trace, ix: seq<nat>, f: Addr, j: nat)
    requires j < |tr| && forall k :: 0 <= k < |ix| ==> ix[k] < |tr|
    ensures Records(tr, ix + [j], f) == Records(tr, ix, f) + [Zero(tr[j].time, RefValue(tr, j, f))]
  {
    assert (ix + [j])[..|ix|] == ix;
  }

  lemma {:induction false} ZeroedRecorded(tr: Trace, n: nat, z: Dict<Zeros>)
    requires n < |tr| && tr[n].Zeroing? && ZeroedMatch(tr, n, tr[n].page, z)
    ensures ZeroedMatch(tr, n + 1, tr[n].page,
              Recorded(z, tr[n].frag, Zero(tr[n].time, RefValue(tr, n, tr[n].frag))))
  {
    hide Zeroings, Records, RefValue, FirstZeroing;
    var p, f := tr[n].page, tr[n].frag;
    var z' := Recorded(z, f, Zero(tr[n].time, RefValue(tr, n, f)));
    forall g
      ensures g in z'.items <==> Zeroings(tr, n + 1, p, g) != []
      ensures g in z'.items ==> z'.items[g] == Records(tr, Zeroings(tr, n + 1, p, g), g)
    {
      ZeroingsNext(tr, n, p, g);
      if g == f { RecordsAppend(tr, Zeroings(tr, n, p, f), f, n); EmptyRecords(tr, f); }
    }
    ZeroedOrder(tr, n, z, z'.keys);
  }

  lemma {:induction false} EmptyRecords(tr: Trace, f: Addr)
    ensures Records(tr, [], f) == []
  {
  }

  lemma {:induction false} ZeroedOrder(tr: Trace, n: nat, z: Dict<Zeros>, keys: seq<Addr>)
    requires n < |tr| && tr[n].Zeroing? && ZeroedMatch(tr, n, tr[n].page, z)
    requires keys == if tr[n].frag in z.items then z.keys else z.keys + [tr[n].frag]
    ensures forall i, k :: 0 <= i < k < |keys| ==>
              FirstZeroing(tr, n + 1, tr[n].page, keys[i]) < FirstZeroing(tr, n + 1, tr[n].page, keys[k])
  {
    hide Zeroings, Records, FirstZeroing;
    var p, f := tr[n].page, tr[n].frag;
    forall i | 0 <= i < |z.keys|
      ensures FirstZeroing(tr, n + 1, p, z.keys[i]) == FirstZeroing(tr, n, p, z.keys[i]) < n
    {
      assert z.keys[i] in z.items;
      ZeroingsNext(tr, n, p, z.keys[i]);
    }
    if f !in z.items { ZeroingsNext(tr, n, p, f); }
  }

  lemma {:induction false} LiveNext(tr: Trace, n: nat, p: Addr)
    requires n < |tr|
    ensures Live(tr, n + 1, p) ==
            if tr[n].PageAlloc? && tr[n].page == p then true
            else if tr[n].PageFree? && tr[n].page == p then false
            else Live(tr, n, p)
  {
  }

  lemma {:induction false} NewPageMatches(tr: Trace, n: nat)
    requires n < |tr| && tr[n].PageAlloc?
    ensures ZeroedMatch(tr, n + 1, tr[n].page, Empty())
  {
    var p, m := tr[n].page, n + 1;
    assert LastAlloc(tr, m, p) == n;
    assert forall f :: |Zeroings(tr, m, p, f)| == 0;
  }

  lemma {:induction false} PageNext(tr: Trace, n: nat, s: State, p: Addr)
    requires n < |tr| && Refines(tr, n, s) && Step(s, tr[n]).Running?
    ensures var d := Step(s, tr[n]).s.activePages;
            && (p in d.items <==> Live(tr, n + 1, p))
            && (p in d.items ==> ZeroedMatch(tr, n + 1, p, d.items[p].fragsZeroed))
            && (p in d.items ==> AllocatedAt(tr, n + 1, p, d.items[p].allocTime))
  {
    hide ZeroedMatch, Live, RefsMatch, Reports, Recorded, Dict.Valid;
    LiveNext(tr, n, p);
    if Live(tr, n + 1, p) {
      if tr[n].PageAlloc? && tr[n].page == p { NewPageMatches(tr, n); }
      else if tr[n].Zeroing? && tr[n].page == p {
        ZeroedRecorded(tr, n, s.activePages.items[p].fragsZeroed);
        RefsOfIsRefValue(tr, n, s.refCount, tr[n].frag);
      }
      else { ZeroedFrame(tr, n, p, s.activePages.items[p].fragsZeroed); }
    }
  }

  lemma {:induction false} PagesNext(tr: Trace, n: nat, s: State)
    requires n < |tr| && Refines(tr, n, s) && Step(s, tr[n]).Running?
    ensures PagesMatch(tr, n + 1, Step(s, tr[n]).s.activePages)
  {
    hide ZeroedMatch, Live, RefsMatch, Step;
    var d := Step(s, tr[n]).s.activePages;
    forall p: Addr
      ensures p in d.items <==> Live(tr, n + 1, p)
      ensures p in d.items ==> ZeroedMatch(tr, n + 1, p, d.items[p].fragsZeroed)
      ensures p in d.items ==> AllocatedAt(tr, n + 1, p, d.items[p].allocTime)
    {
      PageNext(tr, n, s, p);
    }
  }

  ghost predicate NoDoubleAlloc(tr: Trace, n: nat)
    requires n <= |tr|
  {
    forall j: nat :: j < n && tr[j].PageAlloc? ==> !Live(tr, j, tr[j].page)
  }

  // ----- reports and warnings

  /** A key's first zeroing is a zeroing of it. */
  lemma {:induction false} FirstZeroingZeroes(tr: Trace, n: nat, p: Addr, f: Addr)
    requires n <= |tr| && Zeroings(tr, n, p, f) != []
    ensures var j := FirstZeroing(tr, n, p, f);
            LastAlloc(tr, n, p) < j < n && Zeroes(tr[j], p, f)
  {
  }

  /** The first k keys are those whose first zeroing lies before m. */
  ghost predicate Cut(tr: Trace, n: nat, p: Addr, z: Dict<Zeros>, k: nat, m: nat)
    requires n <= |tr|
  {
    k <= |z.keys| && forall i :: 0 <= i < |z.keys| ==> (i < k <==> FirstZeroing(tr, n, p, z.keys[i]) < m)
  }

  /** Walking the fragments in dictionary order prints the reports in trace order. */
  lemma {:induction false} ReportsAreHistory(tr: Trace, n: nat, p: Addr, z: Dict<Zeros>, k: nat, m: nat)
    requires m <= n <= |tr| && ZeroedMatch(tr, n, p, z) && Cut(tr, n, p, z, k, m)
    ensures Reports(p, z, k) == ReportsBefore(tr, n, p, m)
    decreases m
  {
    hide ZeroedMatch, Cut, FirstZeroing, OpensReport, ReportOn;
    ZeroedKeys(tr, n, p, z);
    if m <= LastAlloc(tr, n, p) + 1 {
      NothingBefore(tr, n, p, z, k, m);
    } else if k > 0 && FirstZeroing(tr, n, p, z.keys[k - 1]) == m - 1 {
      IsFirst(tr, n, p, z, k, m - 1);
      ReportsAreHistory(tr, n, p, z, k - 1, m - 1);
    } else {
      NotFirst(tr, n, p, z, k, m - 1);
      ReportsAreHistory(tr, n, p, z, k, m - 1);
    }
  }

  lemma {:induction false} ZeroedKeys(tr: Trace, n: nat, p: Addr, z: Dict<Zeros>)
    requires n <= |tr| && ZeroedMatch(tr, n, p, z)
    ensures z.Valid()
    ensures forall k: nat, m: nat :: Cut(tr, n, p, z, k, m) ==> k <= |z.keys|
  {
  }

  lemma {:induction false} NothingBefore(tr: Trace, n: nat, p: Addr, z: Dict<Zeros>, k: nat, m: nat)
    requires n <= |tr| && ZeroedMatch(tr, n, p, z) && Cut(tr, n, p, z, k, m) && m <= LastAlloc(tr, n, p) + 1
    ensures k == 0
  {
    hide Zeroings, FirstZeroing, Records;
    if k > 0 {
      assert z.keys[0] in z.items;
      FirstZeroingZeroes(tr, n, p, z.keys[0]);
    }
  }

  lemma {:induction false} IsFirst(tr: Trace, n: nat, p: Addr, z: Dict<Zeros>, k: nat, j: nat)
    requires j < n <= |tr| && ZeroedMatch(tr, n, p, z) && Cut(tr, n, p, z, k, j + 1)
    requires k > 0 && FirstZeroing(tr, n, p, z.keys[k - 1]) == j
    ensures Cut(tr, n, p, z, k - 1, j)
    ensures var f := z.keys[k - 1];
            && f in z.items && Zeroes(tr[j], p, f)
            && (OpensReport(tr, n, p, j) <==> |z.items[f]| > 1)
            && ReportOn(tr, n, p, f) == Report(f, p, z.items[f])
  {
    hide Zeroings, FirstZeroing, Records;
    assert z.keys[k - 1] in z.items;
    FirstZeroingZeroes(tr, n, p, z.keys[k - 1]);
  }

  lemma {:induction false} NotFirst(tr: Trace, n: nat, p: Addr, z: Dict<Zeros>, k: nat, j: nat)
    requires j < n <= |tr| && ZeroedMatch(tr, n, p, z) && Cut(tr, n, p, z, k, j + 1)
    requires k == 0 || FirstZeroing(tr, n, p, z.keys[k - 1]) != j
    ensures Cut(tr, n, p, z, k, j)
    ensures !OpensReport(tr, n, p, j)
  {
    hide Zeroings, FirstZeroing, Records;
    forall i | 0 <= i < k ensures FirstZeroing(tr, n, p, z.keys[i]) < j {
      if i < k - 1 { assert FirstZeroing(tr, n, p, z.keys[i]) < FirstZeroing(tr, n, p, z.keys[k - 1]); }
    }
  }

  lemma {:induction false} OutputNext(tr: Trace, n: nat, s: State)
    requires n < |tr| && Refines(tr, n, s) && Step(s, tr[n]).Running?
    ensures Step(s, tr[n]).s.reports == s.reports + ReportsAt(tr, n)
    ensures Step(s, tr[n]).s.warnings == s.warnings + WarningsOf(tr, n + 1) - WarningsOf(tr, n)
  {
    hide RefsMatch, Live, Recorded, Reports, ReportsBefore;
    if tr[n].PageFree? && Live(tr, n, tr[n].page) {
      var p := tr[n].page;
      var z := s.activePages.items[p].fragsZeroed;
      forall i | 0 <= i < |z.keys| ensures FirstZeroing(tr, n, p, z.keys[i]) < n {
        assert z.keys[i] in z.items;
      }
      ReportsAreHistory(tr, n, p, z, |z.keys|, n);
    }
  }

  // ----- whole runs

  /** The detector on every trace: it stops exactly at a double alloc, and until then its
      tables, its reports and its number of warnings are what the trace says. */
  lemma {:induction false} RunIsExact(tr: Trace, n: nat)
    requires n <= |tr|
    ensures Run(tr, n).Running? <==> NoDoubleAlloc(tr, n)
    ensures Run(tr, n).Running? ==>
              && Refines(tr, n, Run(tr, n).s)
              && Run(tr, n).s.reports == ReportsOf(tr, n)
              && Run(tr, n).s.warnings == WarningsOf(tr, n)
  {
    hide PagesMatch, RefsMatch, Live, ZeroedMatch, Step, ReportsAt;
    if n == 0 {
      InitRefines(tr);
    } else {
      RunIsExact(tr, n - 1);
      if Run(tr, n - 1).Running? {
        var s := Run(tr, n - 1).s;
        CrashIsDoubleAlloc(tr, n - 1, s);
        if Step(s, tr[n - 1]).Running? {
          PagesNext(tr, n - 1, s);
          RefsNext(tr, n - 1, s);
          OutputNext(tr, n - 1, s);
        }
      }
    }
  }

  lemma {:induction false} InitRefines(tr: Trace)
    ensures Refines(tr, 0, INIT)
  {
  }

  lemma {:induction false} CrashIsDoubleAlloc(tr: Trace, n: nat, s: State)
    requires n < |tr| && Refines(tr, n, s)
    ensures Step(s, tr[n]).Crashed? <==> tr[n].PageAlloc? && Live(tr, n, tr[n].page)
  {
    hide ZeroedMatch, RefsMatch, Live;
  }

  // ----- what the reports mean

  lemma {:induction false} ReportSource(tr: Trace, n: nat, p: Addr, m: nat, a: nat) returns (j: nat)
    requires m <= n <= |tr| && a < |ReportsBefore(tr, n, p, m)|
    ensures j < m && OpensReport(tr, n, p, j)
    ensures ReportsBefore(tr, n, p, m)[a] == ReportOn(tr, n, p, tr[j].frag)
  {
    hide OpensReport, ReportOn;
    if a < |ReportsBefore(tr, n, p, m - 1)| { j := ReportSource(tr, n, p, m - 1, a); } else { j := m - 1; }
  }

  lemma {:induction false} ReportFound(tr: Trace, n: nat, p: Addr, m: nat, j: nat)
    requires j < m <= n <= |tr| && LastAlloc(tr, n, p) < j && OpensReport(tr, n, p, j)
    ensures ReportOn(tr, n, p, tr[j].frag) in ReportsBefore(tr, n, p, m)
  {
    hide OpensReport, ReportOn;
    if j < m - 1 { ReportFound(tr, n, p, m - 1, j); }
  }

  lemma {:induction false} ReportsSorted(tr: Trace, n: nat, p: Addr, m: nat, a: nat, b: nat)
    requires m <= n <= |tr| && a < b < |ReportsBefore(tr, n, p, m)|
    ensures var r := ReportsBefore(tr, n, p, m);
            FirstZeroing(tr, n, p, r[a].frag) < FirstZeroing(tr, n, p, r[b].frag)
  {
    hide ReportOn, Zeroings, FirstZeroing;
    var init := ReportsBefore(tr, n, p, m - 1);
    if b < |init| {
      ReportsSorted(tr, n, p, m - 1, a, b);
    } else {
      var j := ReportSource(tr, n, p, m - 1, a);
      ReportOf(tr, n, p, tr[j].frag);
      ReportOf(tr, n, p, tr[m - 1].frag);
    }
  }

  lemma {:induction false} ReportOf(tr: Trace, n: nat, p: Addr, f: Addr)
    requires n <= |tr|
    ensures ReportOn(tr, n, p, f).frag == f
  {
  }

  lemma {:induction false} ReportsBeforeAre(tr: Trace, n: nat, p: Addr, r: Report)
    requires n <= |tr|
    ensures r in ReportsBefore(tr, n, p, n) <==>
              && r.page == p && |Zeroings(tr, n, p, r.frag)| >= 2
              && r.zeros == Records(tr, Zeroings(tr, n, p, r.frag), r.frag)
  {
    hide ReportsBefore, Zeroings, Records, FirstZeroing;
    if r in ReportsBefore(tr, n, p, n) {
      var a :| 0 <= a < |ReportsBefore(tr, n, p, n)| && ReportsBefore(tr, n, p, n)[a] == r;
      var j := ReportSource(tr, n, p, n, a);
    }
    if r.page == p && |Zeroings(tr, n, p, r.frag)| >= 2
       && r.zeros == Records(tr, Zeroings(tr, n, p, r.frag), r.frag) {
      FirstZeroingZeroes(tr, n, p, r.frag);
      ReportFound(tr, n, p, n, FirstZeroing(tr, n, p, r.frag));
    }
  }

  /** Soundness and completeness: what a page free adds to the reports is, for a live page,
      a report for exactly those fragments zeroed at least twice on it since its last alloc,
      with the times and reference values of those zeroings; and nothing otherwise. */
  lemma {:induction false} ReportedIffZeroedTwice(tr: Trace, n: nat, r: Report)
    requires n < |tr| && tr[n].PageFree?
    ensures Run(tr, n).Running? ==>
              && Run(tr, n + 1).Running? && Run(tr, n).s.reports <= Run(tr, n + 1).s.reports
              && (r in Run(tr, n + 1).s.reports[|Run(tr, n).s.reports|..] <==>
                    && r.page == tr[n].page && Live(tr, n, r.page)
                    && |Zeroings(tr, n, r.page, r.frag)| >= 2
                    && r.zeros == Records(tr, Zeroings(tr, n, r.page, r.frag), r.frag))
  {
    hide Run, Refines, Live, Zeroings, Records, ReportsBefore;
    NewReports(tr, n);
    ReportsBeforeAre(tr, n, tr[n].page, r);
  }

  lemma {:induction false} NewReports(tr: Trace, n: nat)
    requires n < |tr| && !tr[n].PageAlloc?
    ensures Run(tr, n).Running? ==>
              Run(tr, n + 1).Running? && Run(tr, n + 1).s.reports == Run(tr, n).s.reports + ReportsAt(tr, n)
  {
    hide Run, Refines, ReportsAt, Live;
    RunIsExact(tr, n);
    RunIsExact(tr, n + 1);
  }

  /** Each fragment is reported once per page free, in the order of first zeroing. */
  lemma {:induction false} ReportsByFirstZeroing(tr: Trace, n: nat, a: nat, b: nat)
    requires n < |tr| && tr[n].PageFree? && a < b
    ensures Run(tr, n).Running? ==>
              Run(tr, n + 1).Running? &&
              var before, after, p := |Run(tr, n).s.reports|, Run(tr, n + 1).s.reports, tr[n].page;
              before <= a && b < |after| ==>
                && after[a].frag != after[b].frag
                && FirstZeroing(tr, n, p, after[a].frag) < FirstZeroing(tr, n, p, after[b].frag)
  {
    hide Run, Refines, Live, Zeroings, Records, ReportsBefore, FirstZeroing;
    NewReports(tr, n);
    if Run(tr, n).Running? {
      var before := |Run(tr, n).s.reports|;
      if before <= a && b < |Run(tr, n + 1).s.reports| {
        ReportsSorted(tr, n, tr[n].page, n, a - before, b - before);
      }
    }
  }
}
