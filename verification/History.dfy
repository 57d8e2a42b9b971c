/** What a trace says about pages, fragments, heads and consume locations, as queries
    over event indices.  Nothing here mentions the analyser's tables or their order:
    this is the reference that the analyser is compared with.

    Every query looks at the first n events of a trace; an index of -1 means "none". */
module History {
  import opened OrderedDict
  import opened Analyzer

  type Trace = seq<Event>

  // ----- first and last occurrences of an event

  datatype Pattern = AllocOf(page: Addr) | FreeOf(page: Addr)
                   | HeadAllocOf(ptr: Addr) | HeadFreeOf(ptr: Addr) | ReuseOf(ptr: Addr)

  predicate Matches(e: Event, q: Pattern) {
    match q
    case AllocOf(p) => e.PageAlloc? && e.page == p
    case FreeOf(p) => e.PageFree? && e.page == p
    case HeadAllocOf(x) => e.HeadKmalloc? && e.ptr == x
    case HeadFreeOf(x) => e.HeadFree? && e.ptr == x
    case ReuseOf(x) => e.Kmalloc? && e.ptr == x
  }

  /** The latest match among the first n events. */
  function Last(tr: Trace, n: nat, q: Pattern): (i: int)
    requires n <= |tr|
    ensures -1 <= i < n
    ensures i >= 0 ==> Matches(tr[i], q)
    ensures forall j {:trigger Matches(tr[j], q)} :: i < j < n ==> !Matches(tr[j], q)
  {
    if n == 0 then -1 else if Matches(tr[n - 1], q) then n - 1 else Last(tr, n - 1, q)
  }

  /** The earliest match strictly after index i and before n, or n. */
  function First(tr: Trace, i: int, n: nat, q: Pattern): (f: nat)
    requires -1 <= i && n <= |tr|
    ensures f <= n
    ensures f < n ==> i < f && Matches(tr[f], q)
    ensures forall j {:trigger Matches(tr[j], q)} :: i < j < f ==> !Matches(tr[j], q)
  {
    if n <= i + 1 then n
    else
      var f := First(tr, i, n - 1, q);
      if f < n - 1 then f else if Matches(tr[n - 1], q) then n - 1 else n
  }

  // ----- pages and their fragments

  function PageStart(tr: Trace, n: nat, p: Addr): (i: int)
    requires n <= |tr|
    ensures -1 <= i < n
  {
    Last(tr, n, AllocOf(p))
  }

  /** The page's last alloc/free event is an alloc. */
  predicate PageLive(tr: Trace, n: nat, p: Addr)
    requires n <= |tr|
  {
    PageStart(tr, n, p) > Last(tr, n, FreeOf(p))
  }

  /** The first free after the page's last alloc, or n while there is none. */
  function PageEnd(tr: Trace, n: nat, p: Addr): (f: nat)
    requires n <= |tr|
    ensures f <= n
  {
    First(tr, PageStart(tr, n, p), n, FreeOf(p))
  }

  predicate FragOn(e: Event, p: Addr) {
    e.FragAlloc? && e.page == p
  }

  /** The fragment allocations on page p strictly between i and n, in trace order. */
  function FragsTaken(tr: Trace, i: int, n: nat, p: Addr): (ix: seq<nat>)
    requires -1 <= i && n <= |tr|
    ensures forall k :: 0 <= k < |ix| ==> i < ix[k] < n && FragOn(tr[ix[k]], p)
    ensures forall k, l :: 0 <= k < l < |ix| ==> ix[k] < ix[l]
  {
    if n <= i + 1 then []
    else if FragOn(tr[n - 1], p) then FragsTaken(tr, i, n - 1, p) + [n - 1]
    else FragsTaken(tr, i, n - 1, p)
  }

  lemma {:induction false} FragsTakenComplete(tr: Trace, i: int, n: nat, p: Addr, a: nat)
    requires -1 <= i < a < n <= |tr| && FragOn(tr[a], p)
    ensures a in FragsTaken(tr, i, n, p)
  {
    if a < n - 1 { FragsTakenComplete(tr, i, n - 1, p, a); }
  }

  /** The fragments taken from the page between its last alloc and its first free after that. */
  function PageFrags(tr: Trace, n: nat, p: Addr): (ix: seq<nat>)
    requires n <= |tr|
    ensures forall k :: 0 <= k < |ix| ==> ix[k] < n && FragOn(tr[ix[k]], p)
    ensures forall k, l :: 0 <= k < l < |ix| ==> ix[k] < ix[l]
  {
    FragsTaken(tr, PageStart(tr, n, p), PageEnd(tr, n, p), p)
  }

  /** Freed since its last alloc, with at least one fragment taken in between. */
  predicate PageParked(tr: Trace, n: nat, p: Addr)
    requires n <= |tr|
  {
    PageStart(tr, n, p) >= 0 && !PageLive(tr, n, p) && PageFrags(tr, n, p) != []
  }

  /** Event a took a fragment from a page that has been live ever since. */
  predicate LiveFrag(tr: Trace, n: nat, a: nat)
    requires n <= |tr|
  {
    a < n && tr[a].FragAlloc? && PageLive(tr, n, tr[a].page) && PageStart(tr, n, tr[a].page) < a
  }

  predicate LiveFragAt(tr: Trace, n: nat, a: nat, ptr: Addr)
    requires n <= |tr|
  {
    LiveFrag(tr, n, a) && tr[a].ptr == ptr
  }

  /** Older page first, and within a page older fragment first. */
  predicate Precedes(tr: Trace, n: nat, a: nat, b: nat)
    requires n <= |tr| && LiveFrag(tr, n, a) && LiveFrag(tr, n, b)
  {
    || PageStart(tr, n, tr[a].page) < PageStart(tr, n, tr[b].page)
    || (tr[a].page == tr[b].page && a <= b)
  }

  /** Event j finalises the fragment taken at a. */
  ghost predicate Finalizes(tr: Trace, j: nat, a: nat)
    requires j < |tr|
  {
    && tr[j].Finalize?
    && LiveFragAt(tr, j, a, tr[j].ptr)
    && forall b :: LiveFragAt(tr, j, b, tr[j].ptr) ==> Precedes(tr, j, a, b)
  }

  /** Event j releases the fragment taken at a. */
  ghost predicate Releases(tr: Trace, j: nat, a: nat)
    requires j < |tr|
  {
    && tr[j].FragFree?
    && LiveFragAt(tr, j, a, tr[j].ptr)
    && tr[a].page == tr[j].page
    && forall b: nat :: LiveFragAt(tr, j, b, tr[j].ptr) && tr[b].page == tr[j].page ==> a <= b
  }

  ghost function LastWrite(tr: Trace, n: nat, a: nat): (w: int)
    requires n <= |tr|
    ensures w == -1 || (a < w < n && tr[w].Finalize?)
  {
    if n <= a + 1 then -1
    else if Finalizes(tr, n - 1, a) then n - 1 else LastWrite(tr, n - 1, a)
  }

  lemma {:induction false} LastWriteIsLatest(tr: Trace, n: nat, a: nat)
    requires n <= |tr|
    ensures LastWrite(tr, n, a) >= 0 ==> Finalizes(tr, LastWrite(tr, n, a), a)
    ensures forall j: nat {:trigger Finalizes(tr, j, a)} ::
              LastWrite(tr, n, a) < j < n && a < j ==> !Finalizes(tr, j, a)
  {
    if n > a + 1 && !Finalizes(tr, n - 1, a) { LastWriteIsLatest(tr, n - 1, a); }
  }

  ghost function LastRelease(tr: Trace, n: nat, a: nat): (r: int)
    requires n <= |tr|
    ensures r == -1 || (a < r < n && tr[r].FragFree?)
  {
    if n <= a + 1 then -1
    else if Releases(tr, n - 1, a) then n - 1 else LastRelease(tr, n - 1, a)
  }

  lemma {:induction false} LastReleaseIsLatest(tr: Trace, n: nat, a: nat)
    requires n <= |tr|
    ensures LastRelease(tr, n, a) >= 0 ==> Releases(tr, LastRelease(tr, n, a), a)
    ensures forall j: nat {:trigger Releases(tr, j, a)} ::
              LastRelease(tr, n, a) < j < n && a < j ==> !Releases(tr, j, a)
  {
    if n > a + 1 && !Releases(tr, n - 1, a) { LastReleaseIsLatest(tr, n - 1, a); }
  }

  // ----- kmalloc'ed heads

  function HeadStart(tr: Trace, n: nat, ptr: Addr): (i: int)
    requires n <= |tr|
    ensures -1 <= i < n
  {
    Last(tr, n, HeadAllocOf(ptr))
  }

  /** The ptr's last head event is an skb_head_kmalloc. */
  predicate HeadLive(tr: Trace, n: nat, ptr: Addr)
    requires n <= |tr|
  {
    HeadStart(tr, n, ptr) > Last(tr, n, HeadFreeOf(ptr))
  }

  /** The first skb_head_kmalloc of the ptr since its last skb_head_kfree. */
  function HeadBirth(tr: Trace, n: nat, ptr: Addr): (i: nat)
    requires n <= |tr|
  {
    First(tr, Last(tr, n, HeadFreeOf(ptr)), n, HeadAllocOf(ptr))
  }

  /** Event j finalises the head at ptr: no live fragment has that ptr. */
  ghost predicate FinalizesHead(tr: Trace, j: nat, ptr: Addr)
    requires j < |tr|
  {
    tr[j].Finalize? && tr[j].ptr == ptr && forall a :: !LiveFragAt(tr, j, a, ptr)
  }

  /** The latest event after b and before n that finalises the head at ptr. */
  ghost function HeadWrite(tr: Trace, b: int, n: nat, ptr: Addr): (w: int)
    requires -1 <= b && n <= |tr|
    ensures w == -1 || (b < w < n && tr[w].Finalize?)
  {
    if n <= b + 1 then -1
    else if FinalizesHead(tr, n - 1, ptr) then n - 1 else HeadWrite(tr, b, n - 1, ptr)
  }

  lemma {:induction false} HeadWriteIsLatest(tr: Trace, b: int, n: nat, ptr: Addr)
    requires -1 <= b && n <= |tr|
    ensures HeadWrite(tr, b, n, ptr) >= 0 ==> FinalizesHead(tr, HeadWrite(tr, b, n, ptr), ptr)
    ensures forall j: nat {:trigger FinalizesHead(tr, j, ptr)} ::
              HeadWrite(tr, b, n, ptr) < j < n && b < j ==> !FinalizesHead(tr, j, ptr)
  {
    if n > b + 1 && !FinalizesHead(tr, n - 1, ptr) { HeadWriteIsLatest(tr, b, n - 1, ptr); }
  }

  ghost function LastHeadWrite(tr: Trace, n: nat, ptr: Addr): (w: int)
    requires n <= |tr|
    ensures -1 <= w < n
    ensures w >= 0 ==> HeadStart(tr, n, ptr) < w && tr[w].Finalize?
  {
    HeadWrite(tr, HeadStart(tr, n, ptr), n, ptr)
  }

  /** The live head at ptr currently belongs to this skb. */
  ghost predicate HeadOf(tr: Trace, n: nat, ptr: Addr, skb: Addr)
    requires n <= |tr|
  {
    HeadLive(tr, n, ptr) && LastHeadWrite(tr, n, ptr) >= 0 && tr[LastHeadWrite(tr, n, ptr)].skb == skb
  }

  ghost predicate Unfinalized(tr: Trace, n: nat, ptr: Addr)
    requires n <= |tr|
  {
    HeadLive(tr, n, ptr) && LastHeadWrite(tr, n, ptr) < 0
  }

  /** Event j renames the allocation function of the head at ptr: the oldest live head of that skb. */
  ghost predicate Renames(tr: Trace, j: nat, ptr: Addr)
    requires j < |tr|
  {
    && tr[j].SkbWithFrags?
    && HeadOf(tr, j, ptr, tr[j].skb)
    && forall q :: HeadOf(tr, j, q, tr[j].skb) ==> HeadBirth(tr, j, ptr) <= HeadBirth(tr, j, q)
  }

  ghost function LastRename(tr: Trace, b: int, n: nat, ptr: Addr): (m: int)
    requires -1 <= b && n <= |tr|
    ensures m == -1 || (b < m < n && tr[m].SkbWithFrags?)
  {
    if n <= b + 1 then -1
    else if Renames(tr, n - 1, ptr) then n - 1 else LastRename(tr, b, n - 1, ptr)
  }

  lemma {:induction false} LastRenameIsLatest(tr: Trace, b: int, n: nat, ptr: Addr)
    requires -1 <= b && n <= |tr|
    ensures LastRename(tr, b, n, ptr) >= 0 ==> Renames(tr, LastRename(tr, b, n, ptr), ptr)
    ensures forall j: nat {:trigger Renames(tr, j, ptr)} ::
              LastRename(tr, b, n, ptr) < j < n && b < j ==> !Renames(tr, j, ptr)
  {
    if n > b + 1 && !Renames(tr, n - 1, ptr) { LastRenameIsLatest(tr, b, n - 1, ptr); }
  }

  predicate TrackedFree(tr: Trace, j: nat, ptr: Addr)
    requires j < |tr|
  {
    Matches(tr[j], HeadFreeOf(ptr)) && HeadLive(tr, j, ptr)
  }

  /** The latest skb_head_kfree of the ptr that ended a head seen in the trace. */
  function LastTrackedFree(tr: Trace, n: nat, ptr: Addr): (f: int)
    requires n <= |tr|
    ensures f == -1 || (0 <= f < n && TrackedFree(tr, f, ptr))
    ensures forall j: nat {:trigger TrackedFree(tr, j, ptr)} :: f < j < n ==> !TrackedFree(tr, j, ptr)
  {
    if n == 0 then -1
    else if TrackedFree(tr, n - 1, ptr) then n - 1 else LastTrackedFree(tr, n - 1, ptr)
  }

  /** Freed, and not allocated again by kmalloc or from the small-head cache since. */
  predicate HeadParked(tr: Trace, n: nat, ptr: Addr)
    requires n <= |tr|
  {
    LastTrackedFree(tr, n, ptr) >= 0 && Last(tr, n, ReuseOf(ptr)) < LastTrackedFree(tr, n, ptr)
  }

  // ----- consume locations

  /** Event j takes the pending consume location of this skb: every fragment free does,
      a head free only when the head is tracked. */
  predicate Takes(tr: Trace, j: nat, skb: Addr)
    requires j < |tr|
  {
    || (tr[j].FragFree? && tr[j].skb == skb)
    || (tr[j].HeadFree? && tr[j].skb == skb && HeadLive(tr, j, tr[j].ptr))
  }

  /** The latest consume_skb/kfree_skb of this skb, unless its location was taken since. */
  function Pending(tr: Trace, n: nat, skb: Addr): (c: int)
    requires n <= |tr|
    ensures -1 <= c < n
    ensures c >= 0 ==> tr[c].Consume? && tr[c].skb == skb
  {
    if n == 0 then -1
    else if tr[n - 1].Consume? && tr[n - 1].skb == skb then n - 1
    else if Takes(tr, n - 1, skb) then -1
    else Pending(tr, n - 1, skb)
  }

  lemma {:induction false} PendingIsLatest(tr: Trace, n: nat, skb: Addr, c: nat)
    requires n <= |tr|
    ensures Pending(tr, n, skb) == c <==>
              && c < n && tr[c].Consume? && tr[c].skb == skb
              && forall j: nat :: c < j < n ==> !Takes(tr, j, skb) && !(tr[j].Consume? && tr[j].skb == skb)
  {
    if n > 0 { PendingIsLatest(tr, n - 1, skb, c); }
  }

  /** The function a release at event j is attributed to. */
  function Attributed(tr: Trace, j: nat, skb: Addr): (l: Loc)
    requires j <= |tr|
  {
    if Pending(tr, j, skb) >= 0 then tr[Pending(tr, j, skb)].location else "NOT FOUND"
  }

  // ----- table entries and rows, read off the trace

  ghost function WriteAt(tr: Trace, w: int): Option<Write>
    requires w < |tr|
    requires w >= 0 ==> tr[w].Finalize?
  {
    if w < 0 then None else Some(Write(tr[w].time, tr[w].skb))
  }

  ghost function ReleaseAt(tr: Trace, r: int): Option<Release>
    requires r < |tr|
    requires r >= 0 ==> tr[r].FragFree?
  {
    if r < 0 then None else Some(Release(tr[r].time, Attributed(tr, r, tr[r].skb)))
  }

  /** The fragment taken at event a, as it stands after n events. */
  ghost function FragAt(tr: Trace, n: nat, a: nat): Frag
    requires a < n <= |tr| && tr[a].FragAlloc?
  {
    Frag(tr[a].ptr, tr[a].time, tr[a].location,
         WriteAt(tr, LastWrite(tr, n, a)), ReleaseAt(tr, LastRelease(tr, n, a)))
  }

  /** The head at ptr, as it stands after n events. */
  ghost function HeadAt(tr: Trace, n: nat, ptr: Addr): Head
    requires n <= |tr| && HeadStart(tr, n, ptr) >= 0
  {
    var b := HeadStart(tr, n, ptr);
    var m := LastRename(tr, b, n, ptr);
    Head(tr[b].len, tr[b].time, if m >= 0 then tr[m].location else tr[b].location,
         WriteAt(tr, LastHeadWrite(tr, n, ptr)))
  }

  ghost function ParkedHeadAt(tr: Trace, n: nat, ptr: Addr): FreedHead
    requires n <= |tr| && LastTrackedFree(tr, n, ptr) >= 0
  {
    var f := LastTrackedFree(tr, n, ptr);
    FreedHead(HeadAt(tr, f, ptr), Release(tr[f].time, Attributed(tr, f, tr[f].skb)))
  }

  /** The exception event n raises after n events that raised none. */
  ghost function Fault(tr: Trace, n: nat): Option<Crash>
    requires n < |tr|
  {
    match tr[n]
    case PageAlloc(_, p) =>
      if PageLive(tr, n, p) then Some(AssertionFailed(57))
      else if PageParked(tr, n, p) then FirstIncomplete(tr, n, PageFrags(tr, n, p))
      else None
    case FragAlloc(_, p, _, _) => if PageParked(tr, n, p) then Some(AssertionFailed(81)) else None
    case FragFree(_, p, _, _) => if PageParked(tr, n, p) then Some(AssertionFailed(122)) else None
    case HeadKmalloc(_, x, _, _) =>
      if HeadLive(tr, n, x) && HeadParked(tr, n, x) then Some(AssertionFailed(157)) else None
    case SkbWithFrags(_, skb, _) => if ScanBlocked(tr, n, skb) then Some(KeyMissing(167)) else None
    case HeadFree(_, x, _) => if HeadParked(tr, n, x) then Some(AssertionFailed(173)) else None
    case Kmalloc(_, x) =>
      if HeadParked(tr, n, x) && LastHeadWrite(tr, LastTrackedFree(tr, n, x), x) < 0
      then Some(KeyMissing(199)) else None
    case _ => None
  }

  /** The missing field of the first fragment that was not both released and finalised. */
  ghost function FirstIncomplete(tr: Trace, n: nat, ix: seq<nat>): Option<Crash>
    requires n <= |tr|
  {
    if ix == [] then None
    else
      var a := ix[|ix| - 1];
      var before := FirstIncomplete(tr, n, ix[..|ix| - 1]);
      if before.Some? then before
      else if LastRelease(tr, n, a) < 0 then Some(KeyMissing(65))
      else if LastWrite(tr, n, a) < 0 then Some(KeyMissing(70))
      else None
  }

  /** An unfinalised live head older than every live head of this skb. */
  ghost predicate ScanBlocked(tr: Trace, n: nat, skb: Addr)
    requires n <= |tr|
  {
    exists q :: Unfinalized(tr, n, q) &&
      forall r :: HeadOf(tr, n, r, skb) ==> HeadBirth(tr, n, q) < HeadBirth(tr, n, r)
  }

  /** No event among the first n raises. */
  ghost predicate Faultless(tr: Trace, n: nat)
    requires n <= |tr|
  {
    forall j: nat :: j < n ==> Fault(tr, j).None?
  }

  /** The row of the fragment taken at a, when its page is allocated again at event n. */
  ghost function FragRowAt(tr: Trace, n: nat, a: nat): Row
    requires a < n < |tr| && tr[a].FragAlloc? && PageEnd(tr, n, tr[a].page) < n
    requires LastRelease(tr, n, a) >= 0 && LastWrite(tr, n, a) >= 0
  {
    var now, taken, released, written, freed :=
      tr[n].time, tr[a].time, tr[LastRelease(tr, n, a)].time, tr[LastWrite(tr, n, a)].time,
      tr[PageEnd(tr, n, tr[a].page)].time;
    Row(FragKind, tr[a].ptr, Value(tr[a].page), now - taken, released - taken, now - released,
        Value(now - freed), released - written, tr[a].location,
        Attributed(tr, LastRelease(tr, n, a), tr[LastRelease(tr, n, a)].skb))
  }

  /** The row of the parked head at ptr, when its address is allocated again at event n. */
  ghost function HeadRowAt(tr: Trace, n: nat, ptr: Addr): Row
    requires n < |tr| && LastTrackedFree(tr, n, ptr) >= 0
    requires LastHeadWrite(tr, LastTrackedFree(tr, n, ptr), ptr) >= 0
  {
    var f := LastTrackedFree(tr, n, ptr);
    var now, taken, released, written :=
      tr[n].time, tr[HeadStart(tr, f, ptr)].time, tr[f].time, tr[LastHeadWrite(tr, f, ptr)].time;
    Row(KmallocKind, ptr, Dash, now - taken, released - taken, now - released, Dash,
        released - written, HeadAt(tr, f, ptr).allocFunc, Attributed(tr, f, tr[f].skb))
  }

  /** The rows event n adds. */
  ghost function RowsAt(tr: Trace, n: nat): (rows: seq<Row>)
    requires n < |tr| && Fault(tr, n).None?
  {
    match tr[n]
    case PageAlloc(_, p) =>
      if PageParked(tr, n, p) then FragRowsAt(tr, n, p, PageFrags(tr, n, p)) else []
    case Kmalloc(_, x) => if HeadParked(tr, n, x) then [HeadRowAt(tr, n, x)] else []
    case _ => []
  }

  ghost function FragRowsAt(tr: Trace, n: nat, p: Addr, ix: seq<nat>): (rows: seq<Row>)
    requires n < |tr| && PageEnd(tr, n, p) < n
    requires forall k :: 0 <= k < |ix| ==> ix[k] < n && FragOn(tr[ix[k]], p)
    requires FirstIncomplete(tr, n, ix).None?
    ensures |rows| == |ix|
  {
    if ix == [] then []
    else
      assert FragOn(tr[ix[|ix| - 1]], p);
      FragRowsAt(tr, n, p, ix[..|ix| - 1]) + [FragRowAt(tr, n, ix[|ix| - 1])]
  }

  /** All rows of the first n events. */
  ghost function RowsOf(tr: Trace, n: nat): (rows: seq<Row>)
    requires n <= |tr| && Faultless(tr, n)
  {
    if n == 0 then [] else RowsOf(tr, n - 1) + RowsAt(tr, n - 1)
  }
}
