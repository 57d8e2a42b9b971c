/** Nothing is lost or invented.  On every run that has not raised, each fragment taken
    from a live page is in exactly one place (a row, an active page, a freed page), and
    each skb_head_kmalloc is in a row, in one of the head tables, or was overwritten. */
module Conservation {
  import opened OrderedDict
  import opened Analyzer
  import opened History
  import opened Tables
  import opened Refinement

  /** What identifies a fragment in a row: page, address and allocating function. */
  datatype Claim = Claim(page: Addr, ptr: Addr, func: Loc)

  type FragTable = map<Addr, seq<Frag>>

  ghost function ClaimsOf(p: Addr, frags: seq<Frag>): multiset<Claim> {
    if frags == [] then multiset{}
    else
      var f := frags[|frags| - 1];
      ClaimsOf(p, frags[..|frags| - 1]) + multiset{Claim(p, f.ptr, f.allocFunc)}
  }

  ghost function Held(keys: seq<Addr>, t: FragTable): multiset<Claim>
    requires forall i :: 0 <= i < |keys| ==> keys[i] in t
  {
    if keys == [] then multiset{}
    else
      var k := keys[|keys| - 1];
      Held(keys[..|keys| - 1], t) + ClaimsOf(k, t[k])
  }

  ghost function ActiveTable(d: Dict<Page>): FragTable { map p | p in d.items :: d.items[p].frags }
  ghost function FreedTable(d: Dict<FreedPage>): FragTable { map p | p in d.items :: d.items[p].page.frags }

  ghost function HeldActive(s: State): multiset<Claim>
    requires s.Valid()
  {
    Held(s.activePages.keys, ActiveTable(s.activePages))
  }

  ghost function HeldFreed(s: State): multiset<Claim>
    requires s.Valid()
  {
    Held(s.freedPages.keys, FreedTable(s.freedPages))
  }

  ghost function FragRowClaims(rows: seq<Row>): multiset<Claim> {
    if rows == [] then multiset{}
    else
      var r := rows[|rows| - 1];
      FragRowClaims(rows[..|rows| - 1]) +
      if r.kind.FragKind? && r.page.Value? then multiset{Claim(r.page.v, r.ptr, r.allocFunc)} else multiset{}
  }

  /** The fragments taken from live pages during the first n events. */
  ghost function TakenClaims(tr: Trace, n: nat): multiset<Claim>
    requires n <= |tr|
  {
    if n == 0 then multiset{}
    else
      TakenClaims(tr, n - 1) + ClaimAt(tr, n - 1)
  }

  ghost function ClaimAt(tr: Trace, j: nat): multiset<Claim>
    requires j < |tr|
  {
    if tr[j].FragAlloc? && PageLive(tr, j, tr[j].page)
    then multiset{Claim(tr[j].page, tr[j].ptr, tr[j].location)} else multiset{}
  }

  // ----- sums over a table

  lemma {:induction false} HeldFrame(keys: seq<Addr>, t: FragTable, u: FragTable)
    requires forall i :: 0 <= i < |keys| ==> keys[i] in t && keys[i] in u
    requires forall i :: 0 <= i < |keys| ==> ClaimsOf(keys[i], t[keys[i]]) == ClaimsOf(keys[i], u[keys[i]])
    ensures Held(keys, t) == Held(keys, u)
  {
    if keys != [] { HeldFrame(keys[..|keys| - 1], t, u); }
  }

  lemma {:induction false} HeldConcat(a: seq<Addr>, b: seq<Addr>, t: FragTable)
    requires forall i :: 0 <= i < |a| ==> a[i] in t
    requires forall i :: 0 <= i < |b| ==> b[i] in t
    ensures Held(a + b, t) == Held(a, t) + Held(b, t)
  {
    hide ClaimsOf;
    if b == [] {
      assert a + b == a;
    } else {
      var l, k, ab := |b| - 1, b[|b| - 1], a + b;
      assert ab[|ab| - 1] == k && ab[..|ab| - 1] == a + b[..l];
      HeldConcat(a, b[..l], t);
      assert Held(ab, t) == Held(a + b[..l], t) + ClaimsOf(k, t[k]);
      assert Held(b, t) == Held(b[..l], t) + ClaimsOf(k, t[k]);
    }
  }

  lemma {:induction false} HeldWithout(keys: seq<Addr>, i: nat, t: FragTable)
    requires i < |keys| && forall j :: 0 <= j < |keys| ==> keys[j] in t
    ensures Held(keys, t) == Held(keys[..i] + keys[i + 1..], t) + ClaimsOf(keys[i], t[keys[i]])
  {
    hide ClaimsOf;
    var a, k, b := keys[..i], [keys[i]], keys[i + 1..];
    assert keys == (a + k) + b;
    HeldConcat(a + k, b, t);
    HeldConcat(a, k, t);
    HeldConcat(a, b, t);
    assert Held(k, t) == Held([], t) + ClaimsOf(keys[i], t[keys[i]]);
  }

  /** Popping a key takes exactly its claims out of the sum. */
  lemma {:induction false} HeldPop<V>(d: Dict<V>, k: Addr, t: FragTable, u: FragTable)
    requires d.Valid() && k in d.items && t.Keys == d.items.Keys && u.Keys == d.Pop(k).items.Keys
    requires forall x :: x in u ==> u[x] == t[x]
    ensures Held(d.keys, t) == Held(d.Pop(k).keys, u) + ClaimsOf(k, t[k])
  {
    HeldWithout(d.keys, IndexOf(d.keys, k), t);
    HeldFrame(d.Pop(k).keys, t, u);
  }

  /** Replacing an entry in place replaces its claims. */
  lemma {:induction false} HeldReplace<V>(d: Dict<V>, k: Addr, t: FragTable, u: FragTable)
    requires d.Valid() && k in d.items && t.Keys == u.Keys == d.items.Keys
    requires forall x :: x in t && x != k ==> u[x] == t[x]
    ensures Held(d.keys, u) + ClaimsOf(k, t[k]) == Held(d.keys, t) + ClaimsOf(k, u[k])
  {
    hide ClaimsOf, Held;
    var i := IndexOf(d.keys, k);
    HeldWithout(d.keys, i, t);
    HeldWithout(d.keys, i, u);
    PopValid(d.keys, i);
    HeldFrame(d.keys[..i] + d.keys[i + 1..], t, u);
  }

  lemma {:induction false} HeldAppend<V>(d: Dict<V>, k: Addr, t: FragTable, u: FragTable)
    requires d.Valid() && k !in d.items && t.Keys == d.items.Keys && u.Keys == d.items.Keys + {k}
    requires forall x :: x in t ==> u[x] == t[x]
    ensures Held(d.keys + [k], u) == Held(d.keys, t) + ClaimsOf(k, u[k])
  {
    hide ClaimsOf;
    assert (d.keys + [k])[..|d.keys|] == d.keys;
    HeldFrame(d.keys, t, u);
  }

  lemma {:induction false} NoClaims(p: Addr)
    ensures ClaimsOf(p, []) == multiset{}
  {
  }

  lemma {:induction false} ClaimsAppend(p: Addr, frags: seq<Frag>, f: Frag)
    ensures ClaimsOf(p, frags + [f]) == ClaimsOf(p, frags) + multiset{Claim(p, f.ptr, f.allocFunc)}
  {
    assert (frags + [f])[..|frags|] == frags;
  }

  lemma {:induction false} ClaimsUpdate(p: Addr, frags: seq<Frag>, i: nat, f: Frag)
    requires i < |frags| && f.ptr == frags[i].ptr && f.allocFunc == frags[i].allocFunc
    ensures ClaimsOf(p, frags[i := f]) == ClaimsOf(p, frags)
  {
    var l := |frags| - 1;
    if i == l {
      assert frags[i := f][..l] == frags[..l];
    } else {
      assert frags[i := f][..l] == frags[..l][i := f];
      ClaimsUpdate(p, frags[..l], i, f);
    }
  }

  lemma {:induction false} RowsConcat(a: seq<Row>, b: seq<Row>)
    ensures FragRowClaims(a + b) == FragRowClaims(a) + FragRowClaims(b)
  {
    if b == [] {
      assert a + b == a;
    } else {
      var l := |b| - 1;
      assert (a + b)[..|a + b| - 1] == a + b[..l];
      RowsConcat(a, b[..l]);
    }
  }

  /** A reused page's rows claim exactly the fragments its entry held. */
  lemma {:induction false} RowsClaim(t: real, p: Addr, freed: real, frags: seq<Frag>)
    requires FragRows(t, p, freed, frags).Rows?
    ensures FragRowClaims(FragRows(t, p, freed, frags).rows) == ClaimsOf(p, frags)
  {
    if frags != [] {
      var l := |frags| - 1;
      RowsClaim(t, p, freed, frags[..l]);
      var rows := FragRows(t, p, freed, frags[..l]).rows;
      var row := FragRow(t, p, freed, frags[l]);
      assert (rows + [row])[..|rows|] == rows;
    }
  }

  // ----- one step

  ghost function Claimed(s: State): multiset<Claim>
    requires s.Valid()
  {
    FragRowClaims(s.rows) + HeldActive(s) + HeldFreed(s)
  }

  ghost function NewClaim(s: State, e: Event): multiset<Claim> {
    if e.FragAlloc? && e.page in s.activePages.items
    then multiset{Claim(e.page, e.ptr, e.location)} else multiset{}
  }

  lemma {:induction false} PageAllocKeeps(s: State, t: real, p: Addr)
    requires s.Valid() && OnPageAlloc(s, t, p).Running?
    ensures Claimed(OnPageAlloc(s, t, p).s) == Claimed(s)
  {
    hide Held, FragRowClaims, FragRows;
    var s' := OnPageAlloc(s, t, p).s;
    assert s'.activePages.keys == s.activePages.keys + [p];
    HeldAppend(s.activePages, p, ActiveTable(s.activePages), ActiveTable(s'.activePages));
    assert ClaimsOf(p, ActiveTable(s'.activePages)[p]) == multiset{};
    if p in s.freedPages.items {
      var e := s.freedPages.items[p];
      RowsClaim(t, p, e.freeTime, e.page.frags);
      RowsConcat(s.rows, FragRows(t, p, e.freeTime, e.page.frags).rows);
      HeldPop(s.freedPages, p, FreedTable(s.freedPages), FreedTable(s'.freedPages));
      assert FreedTable(s.freedPages)[p] == e.page.frags;
    }
  }

  lemma {:induction false} FragAllocKeeps(s: State, t: real, p: Addr, ptr: Addr, loc: Loc)
    requires s.Valid() && OnFragAlloc(s, t, p, ptr, loc).Running?
    ensures Claimed(OnFragAlloc(s, t, p, ptr, loc).s) ==
            Claimed(s) + NewClaim(s, FragAlloc(t, p, ptr, loc))
  {
    hide Held, FragRowClaims, ClaimsOf;
    var s' := OnFragAlloc(s, t, p, ptr, loc).s;
    if p in s.activePages.items {
      var e := s.activePages.items[p];
      var f := Frag(ptr, t, loc, None, None);
      ClaimsAppend(p, e.frags, f);
      HeldReplace(s.activePages, p, ActiveTable(s.activePages), ActiveTable(s'.activePages));
      assert ActiveTable(s.activePages)[p] == e.frags && ActiveTable(s'.activePages)[p] == e.frags + [f];
      Cancel(HeldActive(s'), HeldActive(s) + multiset{Claim(p, ptr, loc)}, ClaimsOf(p, e.frags));
    }
  }

  lemma {:induction false} Cancel(a: multiset<Claim>, b: multiset<Claim>, c: multiset<Claim>)
    requires a + c == b + c
    ensures a == b
  {
    assert forall x :: a[x] == (a + c)[x] - c[x] && b[x] == (b + c)[x] - c[x];
  }

  lemma {:induction false} FragEditKeeps(d: Dict<Page>, p: Addr, i: nat, f: Frag)
    requires d.Valid() && p in d.items && i < |d.items[p].frags|
    requires f.ptr == d.items[p].frags[i].ptr && f.allocFunc == d.items[p].frags[i].allocFunc
    ensures var d' := d.Put(p, d.items[p].(frags := d.items[p].frags[i := f]));
            Held(d'.keys, ActiveTable(d')) == Held(d.keys, ActiveTable(d))
  {
    var e := d.items[p].(frags := d.items[p].frags[i := f]);
    hide Held, ClaimsOf;
    ClaimsUpdate(p, d.items[p].frags, i, f);
    HeldReplace(d, p, ActiveTable(d), ActiveTable(d.Put(p, e)));
    assert ActiveTable(d)[p] == d.items[p].frags && ActiveTable(d.Put(p, e))[p] == e.frags;
    Cancel(Held(d.keys, ActiveTable(d.Put(p, e))), Held(d.keys, ActiveTable(d)), ClaimsOf(p, e.frags));
  }

  lemma {:induction false} FinalizeKeeps(s: State, t: real, ptr: Addr, skb: Addr)
    requires s.Valid() && OnFinalize(s, t, ptr, skb).Running?
    ensures Claimed(OnFinalize(s, t, ptr, skb).s) == Claimed(s)
  {
    hide Held, FragRowClaims, ClaimsOf;
    var k := FindPage(s.activePages, ptr, 0);
    if k >= 0 {
      var p := s.activePages.keys[k];
      var i := FindPtr(s.activePages.items[p].frags, ptr);
      FragEditKeeps(s.activePages, p, i, s.activePages.items[p].frags[i].(write := Some(Write(t, skb))));
    }
  }

  lemma {:induction false} FragFreeKeeps(s: State, t: real, p: Addr, ptr: Addr, skb: Addr)
    requires s.Valid() && OnFragFree(s, t, p, ptr, skb).Running?
    ensures Claimed(OnFragFree(s, t, p, ptr, skb).s) == Claimed(s)
  {
    hide Held, FragRowClaims, ClaimsOf;
    if p in s.activePages.items {
      var i := FindPtr(s.activePages.items[p].frags, ptr);
      if i >= 0 {
        var release := Release(t, LocationOf(s.consumed, skb));
        FragEditKeeps(s.activePages, p, i, s.activePages.items[p].frags[i].(release := Some(release)));
      }
    }
  }

  lemma {:induction false} PageFreeKeeps(s: State, t: real, p: Addr)
    requires s.Valid() && OnPageFree(s, t, p).Running?
    ensures Claimed(OnPageFree(s, t, p).s) == Claimed(s)
  {
    hide Held, FragRowClaims, ClaimsOf;
    if p in s.activePages.items {
      var s' := OnPageFree(s, t, p).s;
      var e := s.activePages.items[p];
      HeldPop(s.activePages, p, ActiveTable(s.activePages), ActiveTable(s'.activePages));
      if e.frags == [] {
        NoClaims(p);
      } else {
        HeldAppend(s.freedPages, p, FreedTable(s.freedPages), FreedTable(s'.freedPages));
        assert FreedTable(s'.freedPages)[p] == ActiveTable(s.activePages)[p] == e.frags;
      }
    }
  }

  lemma {:induction false} KmallocKeeps(s: State, t: real, x: Addr)
    requires s.Valid() && OnKmalloc(s, t, x).Running?
    ensures Claimed(OnKmalloc(s, t, x).s) == Claimed(s)
  {
    if x in s.freedHeads.items {
      var row := HeadRow(t, x, s.freedHeads.items[x]);
      RowsConcat(s.rows, [row]);
      assert FragRowClaims([row]) == FragRowClaims([]);
    }
  }

  lemma {:induction false} StepKeepsClaims(s: State, e: Event)
    requires s.Valid() && Step(s, e).Running?
    ensures Claimed(Step(s, e).s) == Claimed(s) + NewClaim(s, e)
  {
    hide Claimed, OnPageAlloc, OnFragAlloc, OnFinalize, OnFragFree, OnPageFree, OnHeadKmalloc,
      OnSkbWithFrags, OnHeadFree, OnKmalloc;
    match e
    case PageAlloc(t, p) => PageAllocKeeps(s, t, p);
    case FragAlloc(t, p, ptr, loc) => FragAllocKeeps(s, t, p, ptr, loc);
    case Finalize(t, ptr, skb) => FinalizeKeeps(s, t, ptr, skb);
    case FragFree(t, p, ptr, skb) => FragFreeKeeps(s, t, p, ptr, skb);
    case PageFree(t, p) => PageFreeKeeps(s, t, p);
    case Kmalloc(t, x) => KmallocKeeps(s, t, x);
    case _ => HeadEventKeeps(s, e);
  }

  lemma {:induction false} HeadEventKeeps(s: State, e: Event)
    requires s.Valid() && Step(s, e).Running?
    requires e.HeadKmalloc? || e.SkbWithFrags? || e.HeadFree? || e.Consume? || e.Other?
    ensures Claimed(Step(s, e).s) == Claimed(s)
  {
    hide Held, FragRowClaims;
  }

  /** Fragment conservation, for every trace. */
  lemma {:induction false} FragmentsConserved(tr: Trace, n: nat)
    requires n <= |tr|
    ensures Run(tr, n).Running? ==> TakenClaims(tr, n) == Claimed(Run(tr, n).s)
  {
    hide Step, Refines, Claimed, PageLive;
    if n == 0 {
      NoneClaimed();
    } else if Run(tr, n).Running? {
      FragmentsConserved(tr, n - 1);
      var s := Run(tr, n - 1).s;
      assert Claimed(Run(tr, n).s) == Claimed(s) + NewClaim(s, tr[n - 1]) by { StepKeepsClaims(s, tr[n - 1]); }
      assert NewClaim(s, tr[n - 1]) == ClaimAt(tr, n - 1) by { NewClaimIsTaken(tr, n - 1); }
    }
  }

  lemma {:induction false} NoneClaimed()
    ensures Claimed(INIT) == multiset{} && HeadPtrs(INIT) == multiset{}
  {
  }

  lemma {:induction false} NewClaimIsTaken(tr: Trace, n: nat)
    requires n < |tr|
    ensures Run(tr, n).Running? ==> NewClaim(Run(tr, n).s, tr[n]) == ClaimAt(tr, n)
  {
    hide Run, Refines, PageLive;
    RunIsExact(tr, n);
    if Run(tr, n).Running? && tr[n].FragAlloc? { PageKeys(tr, n, Run(tr, n).s, tr[n].page); }
  }

  // ----- heads

  ghost function HeadRowPtrs(rows: seq<Row>): multiset<Addr> {
    if rows == [] then multiset{}
    else
      HeadRowPtrs(rows[..|rows| - 1]) +
      if rows[|rows| - 1].kind.KmallocKind? then multiset{rows[|rows| - 1].ptr} else multiset{}
  }

  /** The addresses of all skb_head_kmalloc events. */
  ghost function HeadAllocs(tr: Trace, n: nat): multiset<Addr>
    requires n <= |tr|
  {
    if n == 0 then multiset{}
    else HeadAllocs(tr, n - 1) + HeadAllocAt(tr[n - 1])
  }

  ghost function HeadAllocAt(e: Event): multiset<Addr> {
    if e.HeadKmalloc? then multiset{e.ptr} else multiset{}
  }

  /** Those that hit an address whose head was still live. */
  ghost function Overwrites(tr: Trace, n: nat): multiset<Addr>
    requires n <= |tr|
  {
    if n == 0 then multiset{}
    else Overwrites(tr, n - 1) + OverwriteAt(tr, n - 1)
  }

  ghost function OverwriteAt(tr: Trace, j: nat): multiset<Addr>
    requires j < |tr|
  {
    if tr[j].HeadKmalloc? && HeadLive(tr, j, tr[j].ptr) then multiset{tr[j].ptr} else multiset{}
  }

  ghost function NewHead(s: State, e: Event): multiset<Addr> {
    if e.HeadKmalloc? && e.ptr !in s.activeHeads.items then multiset{e.ptr} else multiset{}
  }

  ghost function HeadPtrs(s: State): multiset<Addr> {
    HeadRowPtrs(s.rows) + multiset(s.activeHeads.keys) + multiset(s.freedHeads.keys)
  }

  lemma {:induction false} HeadRowsConcat(a: seq<Row>, b: seq<Row>)
    ensures HeadRowPtrs(a + b) == HeadRowPtrs(a) + HeadRowPtrs(b)
  {
    if b == [] {
      assert a + b == a;
    } else {
      var l := |b| - 1;
      assert (a + b)[..|a + b| - 1] == a + b[..l];
      HeadRowsConcat(a, b[..l]);
    }
  }

  lemma {:induction false} FragRowsHoldNoHead(t: real, p: Addr, freed: real, frags: seq<Frag>)
    requires FragRows(t, p, freed, frags).Rows?
    ensures HeadRowPtrs(FragRows(t, p, freed, frags).rows) == multiset{}
  {
    if frags != [] {
      var l := |frags| - 1;
      FragRowsHoldNoHead(t, p, freed, frags[..l]);
      var rows := FragRows(t, p, freed, frags[..l]).rows;
      assert (rows + [FragRow(t, p, freed, frags[l])])[..|rows|] == rows;
    }
  }

  lemma {:induction false} PopKeys<V>(d: Dict<V>, k: Addr)
    requires d.Valid() && k in d.items
    ensures multiset(d.keys) == multiset(d.Pop(k).keys) + multiset{k}
  {
    DropOne(d.keys, IndexOf(d.keys, k));
  }

  lemma {:induction false} DropOne(keys: seq<Addr>, i: nat)
    requires i < |keys|
    ensures multiset(keys) == multiset(keys[..i] + keys[i + 1..]) + multiset{keys[i]}
  {
    var a, b := keys[..i], keys[i + 1..];
    assert keys == a + ([keys[i]] + b);
    assert multiset(a + b) == multiset(a) + multiset(b);
    assert multiset([keys[i]] + b) == multiset{keys[i]} + multiset(b);
  }

  lemma {:induction false} PageAllocKeepsHeads(s: State, t: real, p: Addr)
    requires s.Valid() && OnPageAlloc(s, t, p).Running?
    ensures HeadPtrs(OnPageAlloc(s, t, p).s) == HeadPtrs(s)
  {
    hide HeadRowPtrs, FragRows;
    if p in s.freedPages.items {
      var f := s.freedPages.items[p];
      FragRowsHoldNoHead(t, p, f.freeTime, f.page.frags);
      HeadRowsConcat(s.rows, FragRows(t, p, f.freeTime, f.page.frags).rows);
    }
  }

  lemma {:induction false} HeadKmallocKeeps(s: State, t: real, x: Addr, len: int, loc: Loc)
    requires s.Valid() && OnHeadKmalloc(s, t, x, len, loc).Running?
    ensures HeadPtrs(OnHeadKmalloc(s, t, x, len, loc).s) ==
            HeadPtrs(s) + if x in s.activeHeads.items then multiset{} else multiset{x}
  {
    hide HeadRowPtrs;
  }

  lemma {:induction false} HeadFreeKeeps(s: State, t: real, x: Addr, skb: Addr)
    requires s.Valid() && OnHeadFree(s, t, x, skb).Running?
    ensures HeadPtrs(OnHeadFree(s, t, x, skb).s) == HeadPtrs(s)
  {
    hide HeadRowPtrs;
    if x in s.activeHeads.items { PopKeys(s.activeHeads, x); }
  }

  lemma {:induction false} KmallocKeepsHeads(s: State, t: real, x: Addr)
    requires s.Valid() && OnKmalloc(s, t, x).Running?
    ensures HeadPtrs(OnKmalloc(s, t, x).s) == HeadPtrs(s)
  {
    if x in s.freedHeads.items {
      PopKeys(s.freedHeads, x);
      var row := HeadRow(t, x, s.freedHeads.items[x]);
      HeadRowsConcat(s.rows, [row]);
      assert HeadRowPtrs([row]) == HeadRowPtrs([]) + multiset{x};
    }
  }

  lemma {:induction false} StepKeepsHeads(s: State, e: Event)
    requires s.Valid() && Step(s, e).Running?
    ensures HeadPtrs(Step(s, e).s) == HeadPtrs(s) + NewHead(s, e)
  {
    hide HeadPtrs, OnPageAlloc, OnFragAlloc, OnFinalize, OnFragFree, OnPageFree, OnHeadKmalloc,
      OnSkbWithFrags, OnHeadFree, OnKmalloc;
    match e
    case PageAlloc(t, p) => PageAllocKeepsHeads(s, t, p);
    case HeadKmalloc(t, x, len, loc) => HeadKmallocKeeps(s, t, x, len, loc);
    case HeadFree(t, x, skb) => HeadFreeKeeps(s, t, x, skb);
    case Kmalloc(t, x) => KmallocKeepsHeads(s, t, x);
    case _ => OtherKeepsHeads(s, e);
  }

  lemma {:induction false} OtherKeepsHeads(s: State, e: Event)
    requires s.Valid() && Step(s, e).Running?
    requires !e.PageAlloc? && !e.HeadKmalloc? && !e.HeadFree? && !e.Kmalloc?
    ensures HeadPtrs(Step(s, e).s) == HeadPtrs(s)
  {
    hide HeadRowPtrs, FindHead, FindPage, FindPtr;
  }

  /** Head conservation, for every trace. */
  lemma {:induction false} HeadsConserved(tr: Trace, n: nat)
    requires n <= |tr|
    ensures Run(tr, n).Running? ==> HeadAllocs(tr, n) == HeadPtrs(Run(tr, n).s) + Overwrites(tr, n)
  {
    hide Step, Refines, HeadPtrs, HeadAllocAt, OverwriteAt, NewHead;
    if n == 0 {
      NoneClaimed();
    } else if Run(tr, n).Running? {
      HeadsConserved(tr, n - 1);
      StepKeepsHeads(Run(tr, n - 1).s, tr[n - 1]);
      NewOrOverwrite(tr, n - 1);
    }
  }

  lemma {:induction false} NewOrOverwrite(tr: Trace, n: nat)
    requires n < |tr|
    ensures Run(tr, n).Running? ==> HeadAllocAt(tr[n]) == NewHead(Run(tr, n).s, tr[n]) + OverwriteAt(tr, n)
  {
    hide Run, Refines, HeadLive;
    RunIsExact(tr, n);
    if Run(tr, n).Running? && tr[n].HeadKmalloc? { HeadKeys(tr, n, Run(tr, n).s, tr[n].ptr); }
  }
}
