/** What the trace says each table of the analyser must hold after n events, entry by
    entry and in which order, and how the consume-location table keeps up. */
module Tables {
  import opened OrderedDict
  import opened Analyzer
  import opened History

  // ----- what each table must hold after n events

  ghost predicate FragsMatch(tr: Trace, n: nat, ix: seq<nat>, frags: seq<Frag>)
    requires n <= |tr|
  {
    && |frags| == |ix|
    && forall k :: 0 <= k < |ix| ==>
         ix[k] < n && tr[ix[k]].FragAlloc? && frags[k] == FragAt(tr, n, ix[k])
  }

  ghost predicate PageMatches(tr: Trace, n: nat, p: Addr, entry: Page)
    requires n <= |tr|
  {
    && PageStart(tr, n, p) >= 0
    && entry.allocTime == tr[PageStart(tr, n, p)].time
    && FragsMatch(tr, n, PageFrags(tr, n, p), entry.frags)
  }

  ghost predicate ActivePagesMatch(tr: Trace, n: nat, d: Dict<Page>)
    requires n <= |tr|
  {
    && d.Valid()
    && (forall p :: p in d.items <==> PageLive(tr, n, p))
    && (forall p :: p in d.items ==> PageMatches(tr, n, p, d.items[p]))
    && (forall i, k :: 0 <= i < k < |d.keys| ==> PageStart(tr, n, d.keys[i]) < PageStart(tr, n, d.keys[k]))
  }

  ghost predicate FreedPagesMatch(tr: Trace, n: nat, d: Dict<FreedPage>)
    requires n <= |tr|
  {
    && d.Valid()
    && (forall p :: p in d.items <==> PageParked(tr, n, p))
    && (forall p :: p in d.items ==>
          && PageMatches(tr, n, p, d.items[p].page)
          && PageEnd(tr, n, p) < n && d.items[p].freeTime == tr[PageEnd(tr, n, p)].time)
  }

  ghost predicate ActiveHeadsMatch(tr: Trace, n: nat, d: Dict<Head>)
    requires n <= |tr|
  {
    && d.Valid()
    && (forall x :: x in d.items <==> HeadLive(tr, n, x))
    && (forall x :: x in d.items ==> HeadStart(tr, n, x) >= 0 && d.items[x] == HeadAt(tr, n, x))
    && (forall i, k :: 0 <= i < k < |d.keys| ==> HeadBirth(tr, n, d.keys[i]) < HeadBirth(tr, n, d.keys[k]))
  }

  ghost predicate FreedHeadsMatch(tr: Trace, n: nat, d: Dict<FreedHead>)
    requires n <= |tr|
  {
    && d.Valid()
    && (forall x :: x in d.items <==> HeadParked(tr, n, x))
    && (forall x :: x in d.items ==> d.items[x] == ParkedHeadAt(tr, n, x))
  }

  ghost predicate ConsumedMatch(tr: Trace, n: nat, d: Dict<Loc>)
    requires n <= |tr|
  {
    && d.Valid()
    && (forall skb :: skb in d.items <==> Pending(tr, n, skb) >= 0)
    && (forall skb :: skb in d.items ==> d.items[skb] == tr[Pending(tr, n, skb)].location)
  }

  ghost predicate Refines(tr: Trace, n: nat, s: State)
    requires n <= |tr|
  {
    && s.Valid()
    && ActivePagesMatch(tr, n, s.activePages)
    && FreedPagesMatch(tr, n, s.freedPages)
    && ActiveHeadsMatch(tr, n, s.activeHeads)
    && FreedHeadsMatch(tr, n, s.freedHeads)
    && ConsumedMatch(tr, n, s.consumed)
  }

  // ----- consume locations

  lemma {:induction false} ConsumedFrame(tr: Trace, n: nat, d: Dict<Loc>)
    requires n < |tr| && ConsumedMatch(tr, n, d)
    requires !tr[n].Consume? && forall skb :: !Takes(tr, n, skb)
    ensures ConsumedMatch(tr, n + 1, d)
  {
  }

  lemma {:induction false} ConsumedTaken(tr: Trace, n: nat, d: Dict<Loc>)
    requires n < |tr| && ConsumedMatch(tr, n, d)
    requires tr[n].FragFree? || (tr[n].HeadFree? && HeadLive(tr, n, tr[n].ptr))
    ensures LocationOf(d, tr[n].skb) == Attributed(tr, n, tr[n].skb)
    ensures ConsumedMatch(tr, n + 1, Taken(d, tr[n].skb))
  {
  }

  lemma {:induction false} ConsumedPut(tr: Trace, n: nat, d: Dict<Loc>)
    requires n < |tr| && ConsumedMatch(tr, n, d) && tr[n].Consume?
    ensures ConsumedMatch(tr, n + 1, d.Put(tr[n].skb, tr[n].location))
  {
  }
}
