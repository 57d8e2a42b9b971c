/** The lifetime analyser as a step function on values: five tables, the emitted rows,
    and one branch per kind of trace event.  `Step` either goes on or stops with the
    exception the script would raise (a failed assertion or a missing entry field). */
module Analyzer {
  import opened OrderedDict

  type Loc = string

  const NOT_FOUND: Loc := "NOT FOUND"

  /** One trace line.  Event names that share a branch share a constructor:
      napi_alloc_frag and netdev_alloc_frag are FragAlloc, kmalloc and
      skb_small_head_alloc are Kmalloc, consume_skb and kfree_skb are Consume. */
  datatype Event =
    | PageAlloc(time: real, page: Addr)
    | FragAlloc(time: real, page: Addr, ptr: Addr, location: Loc)
    | Finalize(time: real, ptr: Addr, skb: Addr)
    | FragFree(time: real, page: Addr, ptr: Addr, skb: Addr)
    | PageFree(time: real, page: Addr)
    | HeadKmalloc(time: real, ptr: Addr, len: int, location: Loc)
    | SkbWithFrags(time: real, skb: Addr, location: Loc)
    | HeadFree(time: real, ptr: Addr, skb: Addr)
    | Kmalloc(time: real, ptr: Addr)
    | Consume(time: real, skb: Addr, location: Loc)
    | Other(time: real)

  /** data_write_time and skb_ptr are always assigned together, as are free_time and
      free_func, so each pair is one optional field. */
  datatype Write = Write(time: real, skb: Addr)
  datatype Release = Release(time: real, func: Loc)

  datatype Frag = Frag(ptr: Addr, allocTime: real, allocFunc: Loc,
                       write: Option<Write>, release: Option<Release>)
  datatype Page = Page(allocTime: real, frags: seq<Frag>)
  datatype FreedPage = FreedPage(page: Page, freeTime: real)
  datatype Head = Head(len: int, allocTime: real, allocFunc: Loc, write: Option<Write>)
  datatype FreedHead = FreedHead(head: Head, release: Release)

  datatype Kind = FragKind | KmallocKind
  datatype Cell<T> = Value(v: T) | Dash

  datatype Row = Row(kind: Kind, ptr: Addr, page: Cell<Addr>, lifetime: real, useTime: real,
                     freeTime: real, pageFreeTime: Cell<real>, realUseTime: real,
                     allocFunc: Loc, freeFunc: Loc)

  datatype State = State(activePages: Dict<Page>, freedPages: Dict<FreedPage>,
                         activeHeads: Dict<Head>, freedHeads: Dict<FreedHead>,
                         consumed: Dict<Loc>, rows: seq<Row>) {
    ghost predicate Valid() {
      && activePages.Valid() && freedPages.Valid()
      && activeHeads.Valid() && freedHeads.Valid() && consumed.Valid()
    }
  }

  /** The line of the script that raises, and what it raises there. */
  datatype Crash = AssertionFailed(line: int) | KeyMissing(line: int)
  datatype Outcome = Running(s: State) | Crashed(why: Crash)

  const INIT := State(Empty(), Empty(), Empty(), Empty(), Empty(), [])

  // ----- searches

  /** index_cond with the condition "same ptr". */
  function FindPtr(frags: seq<Frag>, ptr: Addr): (i: int)
    ensures -1 <= i < |frags|
    ensures i >= 0 ==> frags[i].ptr == ptr
    ensures forall j :: 0 <= j < |frags| && (i < 0 || j < i) ==> frags[j].ptr != ptr
  {
    if frags == [] then -1
    else
      var i := FindPtr(frags[..|frags| - 1], ptr);
      if i >= 0 then i else if frags[|frags| - 1].ptr == ptr then |frags| - 1 else -1
  }

  /** Position of the first active page that holds a fragment with this ptr, or -1. */
  function FindPage(d: Dict<Page>, ptr: Addr, from: nat): (k: int)
    requires d.Valid() && from <= |d.keys|
    ensures k == -1 || from <= k < |d.keys|
    ensures k >= 0 ==> FindPtr(d.items[d.keys[k]].frags, ptr) >= 0
    ensures forall j :: from <= j < |d.keys| && (k < 0 || j < k)
                        ==> FindPtr(d.items[d.keys[j]].frags, ptr) < 0
    decreases |d.keys| - from
  {
    if from == |d.keys| then -1
    else if FindPtr(d.items[d.keys[from]].frags, ptr) >= 0 then from
    else FindPage(d, ptr, from + 1)
  }

  datatype HeadSearch = Found(k: nat) | NoHead | NoSkbField

  /** The scan of alloc_skb_with_frags: it reads skb_ptr of each entry in turn, so an
      entry that was never finalised stops it. */
  function FindHead(d: Dict<Head>, skb: Addr, from: nat): (r: HeadSearch)
    requires d.Valid() && from <= |d.keys|
    ensures r.Found? ==>
              && from <= r.k < |d.keys|
              && d.items[d.keys[r.k]].write.Some? && d.items[d.keys[r.k]].write.value.skb == skb
              && forall j :: from <= j < r.k ==>
                    d.items[d.keys[j]].write.Some? && d.items[d.keys[j]].write.value.skb != skb
    ensures r.NoHead? ==>
              forall j :: from <= j < |d.keys| ==>
                d.items[d.keys[j]].write.Some? && d.items[d.keys[j]].write.value.skb != skb
    ensures r.NoSkbField? ==>
              exists k :: from <= k < |d.keys| && d.items[d.keys[k]].write.None? &&
                forall j :: from <= j < k ==>
                  d.items[d.keys[j]].write.Some? && d.items[d.keys[j]].write.value.skb != skb
    decreases |d.keys| - from
  {
    if from == |d.keys| then NoHead
    else
      var w := d.items[d.keys[from]].write;
      if w.None? then NoSkbField
      else if w.value.skb == skb then Found(from)
      else FindHead(d, skb, from + 1)
  }

  // ----- the branches

  datatype Emitted = Rows(rows: seq<Row>) | Missing(line: int)

  /** The rows written when a freed page is allocated again at time t. */
  function FragRows(t: real, page: Addr, freed: real, frags: seq<Frag>): (r: Emitted)
  {
    if frags == [] then Rows([])
    else
      var r := FragRows(t, page, freed, frags[..|frags| - 1]);
      var f := frags[|frags| - 1];
      if r.Missing? then r
      else if f.release.None? then Missing(65)
      else if f.write.None? then Missing(70)
      else Rows(r.rows + [FragRow(t, page, freed, f)])
  }

  function FragRow(t: real, page: Addr, freed: real, f: Frag): (r: Row)
    requires f.release.Some? && f.write.Some?
  {
    var released := f.release.value.time;
    Row(FragKind, f.ptr, Value(page), t - f.allocTime, released - f.allocTime, t - released,
        Value(t - freed), released - f.write.value.time, f.allocFunc, f.release.value.func)
  }

  function OnPageAlloc(s: State, t: real, page: Addr): (o: Outcome)
    requires s.Valid()
    ensures o.Running? ==> o.s.Valid()
  {
    if page in s.activePages.items then Crashed(AssertionFailed(57))
    else
      var active := s.activePages.Put(page, Page(t, []));
      if page in s.freedPages.items then
        var entry := s.freedPages.items[page];
        var r := FragRows(t, page, entry.freeTime, entry.page.frags);
        if r.Missing? then Crashed(KeyMissing(r.line))
        else Running(s.(activePages := active, freedPages := s.freedPages.Pop(page),
                        rows := s.rows + r.rows))
      else Running(s.(activePages := active))
  }

  function OnFragAlloc(s: State, t: real, page: Addr, ptr: Addr, location: Loc): (o: Outcome)
    requires s.Valid()
    ensures o.Running? ==> o.s.Valid()
  {
    if page in s.freedPages.items then Crashed(AssertionFailed(81))
    else if page !in s.activePages.items then Running(s)
    else
      var p := s.activePages.items[page];
      var f := Frag(ptr, t, location, None, None);
      Running(s.(activePages := s.activePages.Put(page, p.(frags := p.frags + [f]))))
  }

  function OnFinalize(s: State, t: real, ptr: Addr, skb: Addr): (o: Outcome)
    requires s.Valid()
    ensures o.Running? ==> o.s.Valid()
  {
    var k := FindPage(s.activePages, ptr, 0);
    if k >= 0 then
      var page := s.activePages.keys[k];
      if page in s.freedPages.items then Crashed(AssertionFailed(103))
      else
        var p := s.activePages.items[page];
        var i := FindPtr(p.frags, ptr);
        if i == -1 then Crashed(AssertionFailed(107))
        else
          var f := p.frags[i].(write := Some(Write(t, skb)));
          Running(s.(activePages := s.activePages.Put(page, p.(frags := p.frags[i := f]))))
    else if ptr !in s.activeHeads.items then Running(s)
    else
      var h := s.activeHeads.items[ptr].(write := Some(Write(t, skb)));
      Running(s.(activeHeads := s.activeHeads.Put(ptr, h)))
  }

  /** The location a release of this skb is attributed to, and the table without it. */
  function LocationOf(consumed: Dict<Loc>, skb: Addr): (l: Loc) {
    if skb in consumed.items then consumed.items[skb] else NOT_FOUND
  }

  function Taken(consumed: Dict<Loc>, skb: Addr): (d: Dict<Loc>)
    requires consumed.Valid()
    ensures d.Valid()
    ensures skb !in d.items
  {
    if skb in consumed.items then consumed.Pop(skb) else consumed
  }

  function OnFragFree(s: State, t: real, page: Addr, ptr: Addr, skb: Addr): (o: Outcome)
    requires s.Valid()
    ensures o.Running? ==> o.s.Valid()
  {
    if page in s.freedPages.items then Crashed(AssertionFailed(122))
    else
      var s1 := s.(consumed := Taken(s.consumed, skb));
      if page !in s.activePages.items then Running(s1)
      else
        var p := s.activePages.items[page];
        var i := FindPtr(p.frags, ptr);
        if i == -1 then Running(s1)
        else
          var f := p.frags[i].(release := Some(Release(t, LocationOf(s.consumed, skb))));
          Running(s1.(activePages := s.activePages.Put(page, p.(frags := p.frags[i := f]))))
  }

  function OnPageFree(s: State, t: real, page: Addr): (o: Outcome)
    requires s.Valid()
    ensures o.Running? ==> o.s.Valid()
  {
    if page !in s.activePages.items then Running(s)
    else
      var p := s.activePages.items[page];
      var s1 := s.(activePages := s.activePages.Pop(page));
      if p.frags == [] then Running(s1)
      else if page in s.freedPages.items then Crashed(AssertionFailed(152))
      else Running(s1.(freedPages := s.freedPages.Put(page, FreedPage(p, t))))
  }

  function OnHeadKmalloc(s: State, t: real, ptr: Addr, len: int, location: Loc): (o: Outcome)
    requires s.Valid()
    ensures o.Running? ==> o.s.Valid()
  {
    if ptr in s.activeHeads.items && ptr in s.freedHeads.items then Crashed(AssertionFailed(157))
    else Running(s.(activeHeads := s.activeHeads.Put(ptr, Head(len, t, location, None))))
  }

  function OnSkbWithFrags(s: State, skb: Addr, location: Loc): (o: Outcome)
    requires s.Valid()
    ensures o.Running? ==> o.s.Valid()
  {
    match FindHead(s.activeHeads, skb, 0)
    case NoSkbField => Crashed(KeyMissing(167))
    case NoHead => Running(s)
    case Found(k) =>
      var ptr := s.activeHeads.keys[k];
      var h := s.activeHeads.items[ptr].(allocFunc := location);
      Running(s.(activeHeads := s.activeHeads.Put(ptr, h)))
  }

  function OnHeadFree(s: State, t: real, ptr: Addr, skb: Addr): (o: Outcome)
    requires s.Valid()
    ensures o.Running? ==> o.s.Valid()
  {
    if ptr in s.freedHeads.items then Crashed(AssertionFailed(173))
    else if ptr !in s.activeHeads.items then Running(s)
    else
      var entry := FreedHead(s.activeHeads.items[ptr], Release(t, LocationOf(s.consumed, skb)));
      Running(s.(activeHeads := s.activeHeads.Pop(ptr), consumed := Taken(s.consumed, skb),
                 freedHeads := s.freedHeads.Put(ptr, entry)))
  }

  function HeadRow(t: real, ptr: Addr, f: FreedHead): (r: Row)
    requires f.head.write.Some?
  {
    var released := f.release.time;
    Row(KmallocKind, ptr, Dash, t - f.head.allocTime, released - f.head.allocTime, t - released,
        Dash, released - f.head.write.value.time, f.head.allocFunc, f.release.func)
  }

  function OnKmalloc(s: State, t: real, ptr: Addr): (o: Outcome)
    requires s.Valid()
    ensures o.Running? ==> o.s.Valid()
  {
    if ptr !in s.freedHeads.items then Running(s)
    else
      var f := s.freedHeads.items[ptr];
      if f.head.write.None? then Crashed(KeyMissing(199))
      else Running(s.(freedHeads := s.freedHeads.Pop(ptr), rows := s.rows + [HeadRow(t, ptr, f)]))
  }

  function Step(s: State, e: Event): (o: Outcome)
    requires s.Valid()
    ensures o.Running? ==> o.s.Valid()
  {
    match e
    case PageAlloc(t, page) => OnPageAlloc(s, t, page)
    case FragAlloc(t, page, ptr, loc) => OnFragAlloc(s, t, page, ptr, loc)
    case Finalize(t, ptr, skb) => OnFinalize(s, t, ptr, skb)
    case FragFree(t, page, ptr, skb) => OnFragFree(s, t, page, ptr, skb)
    case PageFree(t, page) => OnPageFree(s, t, page)
    case HeadKmalloc(t, ptr, len, loc) => OnHeadKmalloc(s, t, ptr, len, loc)
    case SkbWithFrags(_, skb, loc) => OnSkbWithFrags(s, skb, loc)
    case HeadFree(t, ptr, skb) => OnHeadFree(s, t, ptr, skb)
    case Kmalloc(t, ptr) => OnKmalloc(s, t, ptr)
    case Consume(_, skb, loc) => Running(s.(consumed := s.consumed.Put(skb, loc)))
    case Other(_) => Running(s)
  }

  /** The analyser after the first n events of a trace. */
  function Run(tr: seq<Event>, n: nat): (o: Outcome)
    requires n <= |tr|
    ensures o.Running? ==> o.s.Valid()
  {
    if n == 0 then Running(INIT)
    else
      match Run(tr, n - 1)
      case Running(s) => Step(s, tr[n - 1])
      case Crashed(why) => Crashed(why)
  }
}
