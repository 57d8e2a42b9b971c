/** What the reference values in the zeroing records mean, and when -1 can be trusted to
    mean "never referenced". */
module ZeroReferences {
  import opened OrderedDict
  import opened DoubleZero

  predicate RefOf(e: Event, f: Addr) {
    e.Ref? && e.frag == f
  }

  /** No reference to f among the first n events. */
  ghost predicate NeverReferenced(tr: Trace, n: nat, f: Addr)
    requires n <= |tr|
  {
    forall i :: 0 <= i < n ==> !RefOf(tr[i], f)
  }

  /** Counted from f's first reference on, unreferences exceed references by exactly one. */
  ghost predicate OneTooMany(tr: Trace, n: nat, f: Addr)
    requires n <= |tr|
  {
    exists i: nat :: i < n && RefOf(tr[i], f) && NeverReferenced(tr, i, f)
                     && Unrefs(tr, i, n, f) == Refs(tr, i, n, f) + 1
  }

  lemma {:induction false} ValueMinusOne(tr: Trace, n: nat, f: Addr)
    requires n <= |tr|
    ensures RefValue(tr, n, f) == -1 <==> NeverReferenced(tr, n, f) || OneTooMany(tr, n, f)
  {
    hide Refs, Unrefs, FirstRef;
    FirstRefIsFirst(tr, n, f);
    var i := FirstRef(tr, n, f);
    if i < n {
      assert RefOf(tr[i], f) && NeverReferenced(tr, i, f);
      if OneTooMany(tr, n, f) {
        var k: nat :| k < n && RefOf(tr[k], f) && NeverReferenced(tr, k, f)
                      && Unrefs(tr, k, n, f) == Refs(tr, k, n, f) + 1;
        assert k == i;
      }
    }
  }

  /** Record k of fragment f on live page p in the state after n events. */
  ghost predicate RecordIs(tr: Trace, n: nat, p: Addr, f: Addr, k: nat, r: Zero)
    requires n <= |tr|
  {
    && Run(tr, n).Running? && p in Run(tr, n).s.activePages.items
    && var z := Run(tr, n).s.activePages.items[p].fragsZeroed;
       f in z.items && k < |z.items[f]| && z.items[f][k] == r
  }

  lemma {:induction false} RecordSource(tr: Trace, n: nat, p: Addr, f: Addr, k: nat, r: Zero)
    requires n <= |tr|
    ensures RecordIs(tr, n, p, f, k, r) ==>
              && k < |Zeroings(tr, n, p, f)|
              && var j := Zeroings(tr, n, p, f)[k];
                 r == Zero(tr[j].time, RefValue(tr, j, f))
  {
    hide Run, RefsMatch, Zeroings, RefValue;
    RunIsExact(tr, n);
    if RecordIs(tr, n, p, f, k, r) {
      assert ZeroedMatch(tr, n, p, Run(tr, n).s.activePages.items[p].fragsZeroed);
    }
  }

  /** On every run, a record carries -1 exactly when no reference to the fragment precedes
      its zeroing, or unreferences exceed references by one by then. */
  lemma {:induction false} RecordedMinusOne(tr: Trace, n: nat, p: Addr, f: Addr, k: nat, r: Zero)
    requires n <= |tr|
    ensures RecordIs(tr, n, p, f, k, r) ==>
              && k < |Zeroings(tr, n, p, f)|
              && var j := Zeroings(tr, n, p, f)[k];
                 (r.refs == -1 <==> NeverReferenced(tr, j, f) || OneTooMany(tr, j, f))
  {
    hide RecordIs, Zeroings, RefValue, NeverReferenced, OneTooMany;
    RecordSource(tr, n, p, f, k, r);
    if RecordIs(tr, n, p, f, k, r) { ValueMinusOne(tr, Zeroings(tr, n, p, f)[k], f); }
  }

  /** Unreferences of f never outnumber references. */
  ghost predicate Balanced(tr: Trace, n: nat, f: Addr)
    requires n <= |tr|
  {
    forall m: nat :: m <= n ==> Unrefs(tr, 0, m, f) <= Refs(tr, 0, m, f)
  }

  lemma {:induction false} CountsSplit(tr: Trace, i: nat, n: nat, f: Addr)
    requires i <= n <= |tr|
    ensures Refs(tr, 0, n, f) == Refs(tr, 0, i, f) + Refs(tr, i, n, f)
    ensures Unrefs(tr, 0, n, f) == Unrefs(tr, 0, i, f) + Unrefs(tr, i, n, f)
  {
    if i < n { CountsSplit(tr, i, n - 1, f); }
  }

  lemma {:induction false} NoRefsCounted(tr: Trace, i: nat, f: Addr)
    requires i <= |tr| && NeverReferenced(tr, i, f)
    ensures Refs(tr, 0, i, f) == 0
  {
    if i > 0 {
      assert !RefOf(tr[i - 1], f);
      NoRefsCounted(tr, i - 1, f);
    }
  }

  lemma {:induction false} BalancedNeverTooMany(tr: Trace, n: nat, f: Addr)
    requires n <= |tr| && Balanced(tr, n, f)
    ensures !OneTooMany(tr, n, f)
  {
    hide Refs, Unrefs;
    forall i: nat | i < n && RefOf(tr[i], f) && NeverReferenced(tr, i, f)
      ensures Unrefs(tr, i, n, f) <= Refs(tr, i, n, f)
    {
      CountsSplit(tr, i, n, f);
      NoRefsCounted(tr, i, f);
      assert Unrefs(tr, 0, i, f) <= Refs(tr, 0, i, f) && Unrefs(tr, 0, n, f) <= Refs(tr, 0, n, f);
    }
  }

  /** When a fragment's unreferences never outnumber its references, a recorded -1 means
      exactly that it had not been referenced. */
  lemma {:induction false} BalancedMinusOne(tr: Trace, n: nat, p: Addr, f: Addr, k: nat, r: Zero)
    requires n <= |tr| && Balanced(tr, n, f)
    ensures RecordIs(tr, n, p, f, k, r) ==>
              && k < |Zeroings(tr, n, p, f)|
              && (r.refs == -1 <==> NeverReferenced(tr, Zeroings(tr, n, p, f)[k], f))
  {
    hide RecordIs, Zeroings, NeverReferenced, OneTooMany;
    RecordedMinusOne(tr, n, p, f, k, r);
    if RecordIs(tr, n, p, f, k, r) {
      var j := Zeroings(tr, n, p, f)[k];
      assert Balanced(tr, j, f);
      BalancedNeverTooMany(tr, j, f);
    }
  }

  const UNREFERENCED_TWICE: seq<Event> :=
    [PageAlloc(0.0, 1), Ref(1.0, 7), Unref(2.0, 7), Unref(3.0, 7), Zeroing(4.0, 1, 7)]

  function WithRefs(refs: map<Addr, int>): State {
    INIT.(activePages := Dict([1], map[1 := Page(0.0, Empty())]), refCount := refs)
  }

  /** Without that condition it need not: here a referenced fragment is recorded with -1. */
  lemma {:induction false} MinusOneAfterReference()
    ensures RefOf(UNREFERENCED_TWICE[1], 7)
    ensures RecordIs(UNREFERENCED_TWICE, 5, 1, 7, 0, Zero(4.0, -1))
  {
    var tr := UNREFERENCED_TWICE;
    assert Run(tr, 0) == Running(INIT);
    assert Run(tr, 1) == Running(WithRefs(map[]));
    assert Run(tr, 2) == Running(WithRefs(map[7 := 1]));
    assert Run(tr, 3) == Running(WithRefs(map[7 := 0]));
    assert Run(tr, 4) == Running(WithRefs(map[7 := -1]));
  }
}
