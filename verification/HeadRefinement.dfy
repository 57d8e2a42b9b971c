/** The head tables keep up with the trace. */
module HeadRefinement {
  import opened OrderedDict
  import opened Analyzer
  import opened History
  import opened Tables

  // ----- one event later: heads

  lemma {:induction false} HeadNext(tr: Trace, n: nat, x: Addr)
    requires n < |tr| && !Matches(tr[n], HeadAllocOf(x)) && !Matches(tr[n], HeadFreeOf(x))
    ensures HeadStart(tr, n + 1, x) == HeadStart(tr, n, x)
    ensures HeadLive(tr, n + 1, x) == HeadLive(tr, n, x)
    ensures HeadLive(tr, n, x) ==> HeadBirth(tr, n + 1, x) == HeadBirth(tr, n, x) < n
    ensures LastTrackedFree(tr, n + 1, x) == LastTrackedFree(tr, n, x)
  {
  }

  lemma {:induction false} HeadAtNext(tr: Trace, n: nat, x: Addr)
    requires n < |tr| && !Matches(tr[n], HeadAllocOf(x)) && HeadStart(tr, n, x) >= 0
    ensures HeadStart(tr, n + 1, x) >= 0
    ensures HeadAt(tr, n + 1, x) ==
            if FinalizesHead(tr, n, x) then HeadAt(tr, n, x).(write := Some(Write(tr[n].time, tr[n].skb)))
            else if Renames(tr, n, x) then HeadAt(tr, n, x).(allocFunc := tr[n].location)
            else HeadAt(tr, n, x)
  {
  }

  lemma {:induction false} HeadBorn(tr: Trace, n: nat)
    requires n < |tr| && tr[n].HeadKmalloc?
    ensures HeadStart(tr, n + 1, tr[n].ptr) == n && HeadLive(tr, n + 1, tr[n].ptr)
    ensures HeadAt(tr, n + 1, tr[n].ptr) == Head(tr[n].len, tr[n].time, tr[n].location, None)
    ensures HeadBirth(tr, n + 1, tr[n].ptr) ==
            if HeadLive(tr, n, tr[n].ptr) then HeadBirth(tr, n, tr[n].ptr) else n
  {
  }

  lemma {:induction false} HeadDies(tr: Trace, n: nat)
    requires n < |tr| && tr[n].HeadFree?
    ensures !HeadLive(tr, n + 1, tr[n].ptr)
    ensures LastTrackedFree(tr, n + 1, tr[n].ptr) ==
            if HeadLive(tr, n, tr[n].ptr) then n else LastTrackedFree(tr, n, tr[n].ptr)
  {
  }

  // ----- the scan over the active heads

  /** The part of `ActiveHeadsMatch` that concerns the heads other than x. */
  ghost predicate OthersMatch(tr: Trace, n: nat, d: Dict<Head>, x: Addr)
    requires n <= |tr|
  {
    && d.Valid()
    && (forall q :: q != x ==> (q in d.items <==> HeadLive(tr, n, q)))
    && (forall q :: q in d.items && q != x ==> HeadStart(tr, n, q) >= 0 && d.items[q] == HeadAt(tr, n, q))
    && (forall i, k :: 0 <= i < k < |d.keys| && d.keys[i] != x && d.keys[k] != x ==>
          HeadBirth(tr, n, d.keys[i]) < HeadBirth(tr, n, d.keys[k]))
  }

  lemma {:induction false} OthersNext(tr: Trace, n: nat, d: Dict<Head>, x: Addr)
    requires n < |tr| && ActiveHeadsMatch(tr, n, d)
    requires forall q :: q != x ==>
      !Matches(tr[n], HeadAllocOf(q)) && !Matches(tr[n], HeadFreeOf(q))
    requires forall q :: q != x && q in d.items ==> !FinalizesHead(tr, n, q) && !Renames(tr, n, q)
    ensures OthersMatch(tr, n + 1, d, x)
  {
    forall q | q != x
      ensures HeadLive(tr, n + 1, q) == HeadLive(tr, n, q)
      ensures q in d.items ==> HeadStart(tr, n + 1, q) >= 0 && d.items[q] == HeadAt(tr, n + 1, q)
      ensures q in d.items ==> HeadBirth(tr, n + 1, q) == HeadBirth(tr, n, q)
    {
      HeadNext(tr, n, q);
      if q in d.items { HeadAtNext(tr, n, q); }
    }
  }

  lemma {:induction false} ActiveHeadsFrame(tr: Trace, n: nat, d: Dict<Head>)
    requires n < |tr| && ActiveHeadsMatch(tr, n, d)
    requires !tr[n].HeadKmalloc? && (tr[n].HeadFree? ==> tr[n].ptr !in d.items)
    requires forall q :: q in d.items ==> !FinalizesHead(tr, n, q) && !Renames(tr, n, q)
    ensures ActiveHeadsMatch(tr, n + 1, d)
  {
    hide HeadAt, HeadLive, HeadBirth, HeadStart;
    forall q
      ensures HeadLive(tr, n + 1, q) == HeadLive(tr, n, q)
      ensures q in d.items ==> HeadStart(tr, n + 1, q) >= 0 && d.items[q] == HeadAt(tr, n + 1, q)
      ensures q in d.items ==> HeadBirth(tr, n + 1, q) == HeadBirth(tr, n, q)
    {
      if Matches(tr[n], HeadFreeOf(q)) { HeadDies(tr, n); } else { HeadNext(tr, n, q); }
      if q in d.items { HeadAtNext(tr, n, q); }
    }
  }

  lemma {:induction false} ActiveHeadsReplace(tr: Trace, n: nat, d: Dict<Head>, x: Addr, h: Head)
    requires n <= |tr| && OthersMatch(tr, n, d, x) && x in d.items
    requires HeadLive(tr, n, x) && HeadStart(tr, n, x) >= 0 && h == HeadAt(tr, n, x)
    requires forall i, k :: 0 <= i < k < |d.keys| ==> HeadBirth(tr, n, d.keys[i]) < HeadBirth(tr, n, d.keys[k])
    ensures ActiveHeadsMatch(tr, n, d.Put(x, h))
  {
    hide HeadAt, HeadLive, HeadBirth;
  }

  lemma {:induction false} ActiveHeadsInsert(tr: Trace, n: nat, d: Dict<Head>, x: Addr, h: Head)
    requires n <= |tr| && OthersMatch(tr, n, d, x) && x !in d.items
    requires HeadLive(tr, n, x) && HeadStart(tr, n, x) >= 0 && h == HeadAt(tr, n, x)
    requires forall i :: 0 <= i < |d.keys| ==> HeadBirth(tr, n, d.keys[i]) < HeadBirth(tr, n, x)
    ensures ActiveHeadsMatch(tr, n, d.Put(x, h))
  {
    hide HeadAt, HeadLive, HeadBirth;
  }

  lemma {:induction false} ActiveHeadsRemove(tr: Trace, n: nat, d: Dict<Head>, x: Addr)
    requires n <= |tr| && OthersMatch(tr, n, d, x) && x in d.items && !HeadLive(tr, n, x)
    ensures ActiveHeadsMatch(tr, n, d.Pop(x))
  {
    var d' := d.Pop(x);
    forall i, k | 0 <= i < k < |d'.keys|
      ensures HeadBirth(tr, n, d'.keys[i]) < HeadBirth(tr, n, d'.keys[k])
    {
      PopOrder(d, x, i, k);
    }
  }

  /** The scan of alloc_skb_with_frags raises exactly when `ScanBlocked` says, and
      otherwise stops at the head `Renames` names. */
  lemma {:induction false} FindHeadIsTarget(tr: Trace, n: nat, d: Dict<Head>)
    requires n < |tr| && tr[n].SkbWithFrags? && ActiveHeadsMatch(tr, n, d)
    ensures FindHead(d, tr[n].skb, 0).NoSkbField? <==> ScanBlocked(tr, n, tr[n].skb)
    ensures FindHead(d, tr[n].skb, 0).Found? ==> Renames(tr, n, d.keys[FindHead(d, tr[n].skb, 0).k])
    ensures FindHead(d, tr[n].skb, 0).NoHead? ==> forall x :: !Renames(tr, n, x)
  {
    hide Renames, ScanBlocked, HeadAt, HeadLive, HeadBirth, HeadStart;
    match FindHead(d, tr[n].skb, 0)
    case Found(k) => FoundHead(tr, n, d, k);
    case NoHead => NoHeadFound(tr, n, d);
    case NoSkbField =>
      var k :| 0 <= k < |d.keys| && d.items[d.keys[k]].write.None? &&
        forall j :: 0 <= j < k ==>
          d.items[d.keys[j]].write.Some? && d.items[d.keys[j]].write.value.skb != tr[n].skb;
      BlockedHead(tr, n, d, k);
  }

  lemma {:induction false} HeadPosition(tr: Trace, n: nat, d: Dict<Head>, x: Addr) returns (j: nat)
    requires n <= |tr| && ActiveHeadsMatch(tr, n, d) && HeadLive(tr, n, x)
    ensures j < |d.keys| && d.keys[j] == x
    ensures d.items[d.keys[j]].write == WriteAt(tr, LastHeadWrite(tr, n, x))
    ensures forall i :: 0 <= i < |d.keys| ==>
      (i < j <==> HeadBirth(tr, n, d.keys[i]) < HeadBirth(tr, n, x))
  {
    j :| 0 <= j < |d.keys| && d.keys[j] == x;
  }

  lemma {:induction false} FoundHead(tr: Trace, n: nat, d: Dict<Head>, k: nat)
    requires n < |tr| && tr[n].SkbWithFrags? && ActiveHeadsMatch(tr, n, d)
    requires k < |d.keys| && d.items[d.keys[k]].write.Some? && d.items[d.keys[k]].write.value.skb == tr[n].skb
    requires forall j :: 0 <= j < k ==>
      d.items[d.keys[j]].write.Some? && d.items[d.keys[j]].write.value.skb != tr[n].skb
    ensures Renames(tr, n, d.keys[k]) && !ScanBlocked(tr, n, tr[n].skb)
  {
    var skb, x := tr[n].skb, d.keys[k];
    assert HeadOf(tr, n, x, skb);
    forall q | HeadOf(tr, n, q, skb) ensures HeadBirth(tr, n, x) <= HeadBirth(tr, n, q) {
      var j := HeadPosition(tr, n, d, q);
    }
    forall q | Unfinalized(tr, n, q) ensures HeadBirth(tr, n, x) <= HeadBirth(tr, n, q) {
      var j := HeadPosition(tr, n, d, q);
    }
  }

  lemma {:induction false} NoHeadFound(tr: Trace, n: nat, d: Dict<Head>)
    requires n < |tr| && tr[n].SkbWithFrags? && ActiveHeadsMatch(tr, n, d)
    requires forall j :: 0 <= j < |d.keys| ==>
      d.items[d.keys[j]].write.Some? && d.items[d.keys[j]].write.value.skb != tr[n].skb
    ensures !ScanBlocked(tr, n, tr[n].skb) && forall x :: !Renames(tr, n, x)
  {
    forall q | HeadLive(tr, n, q)
      ensures !HeadOf(tr, n, q, tr[n].skb) && !Unfinalized(tr, n, q)
    {
      var j := HeadPosition(tr, n, d, q);
    }
  }

  lemma {:induction false} BlockedHead(tr: Trace, n: nat, d: Dict<Head>, k: nat)
    requires n < |tr| && tr[n].SkbWithFrags? && ActiveHeadsMatch(tr, n, d)
    requires k < |d.keys| && d.items[d.keys[k]].write.None?
    requires forall j :: 0 <= j < k ==>
      d.items[d.keys[j]].write.Some? && d.items[d.keys[j]].write.value.skb != tr[n].skb
    ensures ScanBlocked(tr, n, tr[n].skb)
  {
    var skb, x := tr[n].skb, d.keys[k];
    assert Unfinalized(tr, n, x);
    forall q | HeadOf(tr, n, q, skb) ensures HeadBirth(tr, n, x) < HeadBirth(tr, n, q) {
      var j := HeadPosition(tr, n, d, q);
      var i := HeadPosition(tr, n, d, x);
      assert j > k;
    }
  }

  // ----- the head branches

  lemma {:induction false} HeadKmallocRefines(tr: Trace, n: nat, d: Dict<Head>)
    requires n < |tr| && tr[n].HeadKmalloc? && ActiveHeadsMatch(tr, n, d)
    ensures ActiveHeadsMatch(tr, n + 1, d.Put(tr[n].ptr, Head(tr[n].len, tr[n].time, tr[n].location, None)))
  {
    hide ActiveHeadsMatch, HeadAt, HeadLive, HeadStart, HeadBirth;
    var x, h := tr[n].ptr, Head(tr[n].len, tr[n].time, tr[n].location, None);
    OthersNext(tr, n, d, x);
    HeadBorn(tr, n);
    BirthsKept(tr, n, d);
    if x in d.items { ActiveHeadsReplace(tr, n + 1, d, x, h); }
    else { ActiveHeadsInsert(tr, n + 1, d, x, h); }
  }

  lemma {:induction false} BirthsKept(tr: Trace, n: nat, d: Dict<Head>)
    requires n < |tr| && tr[n].HeadKmalloc? && ActiveHeadsMatch(tr, n, d)
    ensures forall i :: 0 <= i < |d.keys| ==> HeadBirth(tr, n + 1, d.keys[i]) < n
    ensures forall i, k :: 0 <= i < k < |d.keys| ==>
              HeadBirth(tr, n + 1, d.keys[i]) < HeadBirth(tr, n + 1, d.keys[k])
    ensures tr[n].ptr !in d.items ==> HeadBirth(tr, n + 1, tr[n].ptr) == n
  {
    hide HeadAt, HeadLive, HeadStart, HeadBirth;
    HeadBorn(tr, n);
    forall i | 0 <= i < |d.keys|
      ensures HeadBirth(tr, n + 1, d.keys[i]) == HeadBirth(tr, n, d.keys[i]) < n
    {
      if d.keys[i] != tr[n].ptr { HeadNext(tr, n, d.keys[i]); } else { LiveBirth(tr, n, tr[n].ptr); }
    }
  }

  /** A live head's entry is rewritten by a finalize or a rename. */
  lemma {:induction false} HeadEditRefines(tr: Trace, n: nat, d: Dict<Head>, x: Addr, h: Head)
    requires n < |tr| && ActiveHeadsMatch(tr, n, d) && x in d.items
    requires !tr[n].HeadKmalloc? && !tr[n].HeadFree?
    requires forall q :: q != x && q in d.items ==> !FinalizesHead(tr, n, q) && !Renames(tr, n, q)
    requires h == if FinalizesHead(tr, n, x) then d.items[x].(write := Some(Write(tr[n].time, tr[n].skb)))
                  else if Renames(tr, n, x) then d.items[x].(allocFunc := tr[n].location) else d.items[x]
    ensures ActiveHeadsMatch(tr, n + 1, d.Put(x, h))
  {
    hide HeadAt, HeadLive, HeadStart, HeadBirth;
    OthersNext(tr, n, d, x);
    HeadNext(tr, n, x);
    HeadAtNext(tr, n, x);
    forall i | 0 <= i < |d.keys| ensures HeadBirth(tr, n + 1, d.keys[i]) == HeadBirth(tr, n, d.keys[i]) {
      HeadNext(tr, n, d.keys[i]);
    }
    ActiveHeadsReplace(tr, n + 1, d, x, h);
  }

  lemma {:induction false} OneHeadRenamed(tr: Trace, j: nat, x: Addr, y: Addr)
    requires j < |tr| && Renames(tr, j, x) && Renames(tr, j, y)
    ensures x == y
  {
    var b := HeadBirth(tr, j, x);
    assert b == HeadBirth(tr, j, y);
    LiveBirth(tr, j, x);
    LiveBirth(tr, j, y);
  }

  lemma {:induction false} LiveBirth(tr: Trace, n: nat, x: Addr)
    requires n <= |tr| && HeadLive(tr, n, x)
    ensures HeadBirth(tr, n, x) < n && Matches(tr[HeadBirth(tr, n, x)], HeadAllocOf(x))
  {
  }

  lemma {:induction false} HeadFreeRefines(tr: Trace, n: nat, d: Dict<Head>)
    requires n < |tr| && tr[n].HeadFree? && tr[n].ptr in d.items && ActiveHeadsMatch(tr, n, d)
    ensures ActiveHeadsMatch(tr, n + 1, d.Pop(tr[n].ptr))
  {
    hide HeadAt, HeadLive, HeadStart, HeadBirth;
    OthersNext(tr, n, d, tr[n].ptr);
    HeadDies(tr, n);
    ActiveHeadsRemove(tr, n + 1, d, tr[n].ptr);
  }

  // ----- freed heads

  lemma {:induction false} ParkedNext(tr: Trace, n: nat, x: Addr)
    requires n < |tr| && !TrackedFree(tr, n, x)
    ensures LastTrackedFree(tr, n + 1, x) == LastTrackedFree(tr, n, x)
    ensures HeadParked(tr, n + 1, x) == (HeadParked(tr, n, x) && !Matches(tr[n], ReuseOf(x)))
    ensures HeadParked(tr, n + 1, x) ==> ParkedHeadAt(tr, n + 1, x) == ParkedHeadAt(tr, n, x)
  {
  }

  lemma {:induction false} FreedHeadsFrame(tr: Trace, n: nat, d: Dict<FreedHead>)
    requires n < |tr| && FreedHeadsMatch(tr, n, d)
    requires tr[n].HeadFree? ==> !HeadLive(tr, n, tr[n].ptr)
    requires tr[n].Kmalloc? ==> tr[n].ptr !in d.items
    ensures FreedHeadsMatch(tr, n + 1, d)
  {
    hide HeadLive, ParkedHeadAt, LastTrackedFree;
    forall x
      ensures HeadParked(tr, n + 1, x) == HeadParked(tr, n, x)
      ensures HeadParked(tr, n, x) ==> ParkedHeadAt(tr, n + 1, x) == ParkedHeadAt(tr, n, x)
    {
      ParkedNext(tr, n, x);
    }
  }

  lemma {:induction false} HeadParksSelf(tr: Trace, n: nat)
    requires n < |tr| && tr[n].HeadFree? && HeadLive(tr, n, tr[n].ptr)
    ensures HeadParked(tr, n + 1, tr[n].ptr)
    ensures ParkedHeadAt(tr, n + 1, tr[n].ptr) ==
            FreedHead(HeadAt(tr, n, tr[n].ptr), Release(tr[n].time, Attributed(tr, n, tr[n].skb)))
  {
  }

  lemma {:induction false} HeadParks(tr: Trace, n: nat, d: Dict<FreedHead>, h: Head)
    requires n < |tr| && tr[n].HeadFree? && FreedHeadsMatch(tr, n, d)
    requires HeadLive(tr, n, tr[n].ptr) && h == HeadAt(tr, n, tr[n].ptr)
    ensures FreedHeadsMatch(tr, n + 1,
              d.Put(tr[n].ptr, FreedHead(h, Release(tr[n].time, Attributed(tr, n, tr[n].skb)))))
  {
    hide HeadLive, HeadAt, ParkedHeadAt, LastTrackedFree;
    HeadParksSelf(tr, n);
    forall q | q != tr[n].ptr
      ensures HeadParked(tr, n + 1, q) == HeadParked(tr, n, q)
      ensures HeadParked(tr, n, q) ==> ParkedHeadAt(tr, n + 1, q) == ParkedHeadAt(tr, n, q)
    {
      ParkedNext(tr, n, q);
    }
  }

  lemma {:induction false} HeadReused(tr: Trace, n: nat, d: Dict<FreedHead>)
    requires n < |tr| && tr[n].Kmalloc? && FreedHeadsMatch(tr, n, d) && tr[n].ptr in d.items
    ensures FreedHeadsMatch(tr, n + 1, d.Pop(tr[n].ptr))
  {
    hide HeadLive, ParkedHeadAt, LastTrackedFree;
    forall q
      ensures HeadParked(tr, n + 1, q) == (q != tr[n].ptr && HeadParked(tr, n, q))
      ensures HeadParked(tr, n + 1, q) ==> ParkedHeadAt(tr, n + 1, q) == ParkedHeadAt(tr, n, q)
    {
      ParkedNext(tr, n, q);
    }
  }
}
