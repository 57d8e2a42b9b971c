/** Every zeroing is accounted for: it raised a warning, is recorded for a live page, or
    was recorded for a page that has been freed since. */
module ZeroingConservation {
  import opened OrderedDict
  import opened DoubleZero

  // ----- sums over a dictionary

  ghost function Sum(keys: seq<Addr>, w: map<Addr, nat>): nat
    requires forall i :: 0 <= i < |keys| ==> keys[i] in w
  {
    if keys == [] then 0 else Sum(keys[..|keys| - 1], w) + w[keys[|keys| - 1]]
  }

  lemma {:induction false} SumFrame(keys: seq<Addr>, w: map<Addr, nat>, v: map<Addr, nat>)
    requires forall i :: 0 <= i < |keys| ==> keys[i] in w && keys[i] in v && w[keys[i]] == v[keys[i]]
    ensures Sum(keys, w) == Sum(keys, v)
  {
    if keys != [] { SumFrame(keys[..|keys| - 1], w, v); }
  }

  lemma {:induction false} SumWithout(keys: seq<Addr>, i: nat, w: map<Addr, nat>)
    requires i < |keys| && forall j :: 0 <= j < |keys| ==> keys[j] in w
    ensures Sum(keys, w) == Sum(keys[..i] + keys[i + 1..], w) + w[keys[i]]
  {
    var l := |keys| - 1;
    var rest := keys[..i] + keys[i + 1..];
    if i == l {
      assert rest == keys[..l];
    } else {
      var front := keys[..l];
      SumWithout(front, i, w);
      assert rest[..l - 1] == front[..i] + front[i + 1..];
      assert rest[l - 1] == keys[l];
    }
  }

  lemma {:induction false} SumPop<V>(d: Dict<V>, k: Addr, w: map<Addr, nat>, v: map<Addr, nat>)
    requires d.Valid() && k in d.items && w.Keys == d.items.Keys && v.Keys == d.Pop(k).items.Keys
    requires forall x :: x in v ==> v[x] == w[x]
    ensures Sum(d.keys, w) == Sum(d.Pop(k).keys, v) + w[k]
  {
    SumWithout(d.keys, IndexOf(d.keys, k), w);
    SumFrame(d.Pop(k).keys, w, v);
  }

  lemma {:induction false} SumReplace<V>(d: Dict<V>, k: Addr, w: map<Addr, nat>, v: map<Addr, nat>)
    requires d.Valid() && k in d.items && w.Keys == v.Keys == d.items.Keys
    requires forall x :: x in w && x != k ==> v[x] == w[x]
    ensures Sum(d.keys, v) + w[k] == Sum(d.keys, w) + v[k]
  {
    hide Sum;
    var i := IndexOf(d.keys, k);
    SumWithout(d.keys, i, w);
    SumWithout(d.keys, i, v);
    PopValid(d.keys, i);
    var rest := d.keys[..i] + d.keys[i + 1..];
    SumFrame(rest, w, v);
  }

  lemma {:induction false} SumAppend<V>(d: Dict<V>, k: Addr, w: map<Addr, nat>, v: map<Addr, nat>)
    requires d.Valid() && k !in d.items && w.Keys == d.items.Keys && v.Keys == d.items.Keys + {k}
    requires forall x :: x in w ==> v[x] == w[x]
    ensures Sum(d.keys + [k], v) == Sum(d.keys, w) + v[k]
  {
    assert (d.keys + [k])[..|d.keys|] == d.keys;
    assert forall i :: 0 <= i < |d.keys| ==> d.keys[i] in w.Keys && d.keys[i] in v.Keys;
    SumFrame(d.keys, w, v);
  }

  // ----- records

  ghost function Lengths(z: Dict<Zeros>): map<Addr, nat> { map f | f in z.items :: |z.items[f]| }

  ghost function RecordsIn(z: Dict<Zeros>): nat
    requires z.Valid()
  {
    Sum(z.keys, Lengths(z))
  }

  ghost function PageCounts(s: State): map<Addr, nat>
    requires s.Valid()
  {
    map p | p in s.activePages.items :: RecordsIn(s.activePages.items[p].fragsZeroed)
  }

  ghost function LiveRecords(s: State): nat
    requires s.Valid()
  {
    Sum(s.activePages.keys, PageCounts(s))
  }

  /** Records of the page an event closes. */
  ghost function ClosedBy(s: State, e: Event): nat
    requires s.Valid()
  {
    if e.PageFree? && e.page in s.activePages.items
    then RecordsIn(s.activePages.items[e.page].fragsZeroed) else 0
  }

  ghost function ClosedRecords(tr: Trace, n: nat): nat
    requires n <= |tr| && Run(tr, n).Running?
  {
    if n == 0 then 0 else ClosedRecords(tr, n - 1) + ClosedBy(Run(tr, n - 1).s, tr[n - 1])
  }

  ghost function ZeroingEvents(tr: Trace, n: nat): nat
    requires n <= |tr|
  {
    if n == 0 then 0 else ZeroingEvents(tr, n - 1) + if tr[n - 1].Zeroing? then 1 else 0
  }

  lemma {:induction false} RecordedAddsOne(z: Dict<Zeros>, f: Addr, r: Zero)
    requires z.Valid()
    ensures RecordsIn(Recorded(z, f, r)) == RecordsIn(z) + 1
  {
    hide Sum;
    var z' := Recorded(z, f, r);
    if f in z.items {
      SumReplace(z, f, Lengths(z), Lengths(z'));
    } else {
      SumAppend(z, f, Lengths(z), Lengths(z'));
    }
  }

  lemma {:induction false} NoRecords()
    ensures RecordsIn(Empty()) == 0
  {
  }

  lemma {:induction false} AllocKeeps(s: State, t: real, p: Addr)
    requires s.Valid() && p !in s.activePages.items
    ensures LiveRecords(Step(s, PageAlloc(t, p)).s) == LiveRecords(s)
  {
    hide Sum, RecordsIn;
    NoRecords();
    SumAppend(s.activePages, p, PageCounts(s), PageCounts(Step(s, PageAlloc(t, p)).s));
  }

  lemma {:induction false} FreeMoves(s: State, t: real, p: Addr)
    requires s.Valid() && p in s.activePages.items
    ensures LiveRecords(s) == LiveRecords(Step(s, PageFree(t, p)).s)
                              + RecordsIn(s.activePages.items[p].fragsZeroed)
  {
    hide Sum, RecordsIn, Reports;
    SumPop(s.activePages, p, PageCounts(s), PageCounts(Step(s, PageFree(t, p)).s));
  }

  lemma {:induction false} ZeroingAdds(s: State, t: real, p: Addr, f: Addr)
    requires s.Valid() && p in s.activePages.items
    ensures LiveRecords(Step(s, Zeroing(t, p, f)).s) == LiveRecords(s) + 1
  {
    hide Sum, RecordsIn, Recorded;
    var s' := Step(s, Zeroing(t, p, f)).s;
    RecordedAddsOne(s.activePages.items[p].fragsZeroed, f, Zero(t, RefsOf(s.refCount, f)));
    SumReplace(s.activePages, p, PageCounts(s), PageCounts(s'));
  }

  lemma {:induction false} StepAccounts(s: State, e: Event)
    requires s.Valid() && Step(s, e).Running?
    ensures var s' := Step(s, e).s;
            s'.warnings + LiveRecords(s') + ClosedBy(s, e) ==
            s.warnings + LiveRecords(s) + if e.Zeroing? then 1 else 0
  {
    hide Sum, RecordsIn, Recorded, Reports;
    match e
    case PageAlloc(t, p) => AllocKeeps(s, t, p);
    case PageFree(t, p) => if p in s.activePages.items { FreeMoves(s, t, p); }
    case Zeroing(t, p, f) =>
      if p in s.activePages.items { ZeroingAdds(s, t, p, f); }
      else { assert PageCounts(Step(s, e).s) == PageCounts(s); }
    case _ => assert PageCounts(Step(s, e).s) == PageCounts(s);
  }

  /** Zeroing conservation, for every trace. */
  lemma {:induction false} ZeroingsConserved(tr: Trace, n: nat)
    requires n <= |tr| && Run(tr, n).Running?
    ensures ZeroingEvents(tr, n) == Run(tr, n).s.warnings + LiveRecords(Run(tr, n).s) + ClosedRecords(tr, n)
  {
    hide Step, ClosedBy;
    if n > 0 {
      ZeroingsConserved(tr, n - 1);
      StepAccounts(Run(tr, n - 1).s, tr[n - 1]);
    }
  }
}
