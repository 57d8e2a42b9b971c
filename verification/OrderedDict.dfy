/** Insertion-ordered dictionaries, as the trace scripts use them: assigning to a
    present key keeps its position, assigning to a new key appends it, and popping a
    key closes the gap.  Keys are the addresses printed in a trace; the scripts only
    ever compare them for equality, so they are integers here. */
module OrderedDict {

  type Addr = int

  datatype Option<+T> = None | Some(value: T)

  datatype Dict<V> = Dict(keys: seq<Addr>, items: map<Addr, V>) {

    ghost predicate Valid() {
      && (forall i, j :: 0 <= i < j < |keys| ==> keys[i] != keys[j])
      && (forall i :: 0 <= i < |keys| ==> keys[i] in items)
      && (forall k :: k in items ==> k in keys)
    }

    function Get(k: Addr): Option<V> {
      if k in items then Some(items[k]) else None
    }

    function Put(k: Addr, v: V): (d: Dict<V>)
      ensures Valid() ==> d.Valid()
    {
      Dict(if k in items then keys else keys + [k], items[k := v])
    }

    function Pop(k: Addr): (d: Dict<V>)
      requires Valid() && k in items
      ensures d.Valid()
    {
      var i := IndexOf(keys, k);
      var d := Dict(keys[..i] + keys[i + 1..], items - {k});
      assert d.Valid() by { PopValid(keys, i); }
      d
    }
  }

  function Empty<V>(): (d: Dict<V>)
    ensures d.Valid()
  {
    Dict([], map[])
  }

  function IndexOf(keys: seq<Addr>, k: Addr): (i: nat)
    requires k in keys
    ensures i < |keys| && keys[i] == k
    ensures k !in keys[..i]
  {
    if keys[0] == k then 0 else 1 + IndexOf(keys[1..], k)
  }

  lemma {:induction false} PopValid(keys: seq<Addr>, i: nat)
    requires i < |keys|
    requires forall a, b :: 0 <= a < b < |keys| ==> keys[a] != keys[b]
    ensures var rest := keys[..i] + keys[i + 1..];
            && (forall a, b :: 0 <= a < b < |rest| ==> rest[a] != rest[b])
            && (forall k :: k in rest <==> k in keys && k != keys[i])
  {
    var rest := keys[..i] + keys[i + 1..];
    forall k | k in keys && k != keys[i]
      ensures k in rest
    {
      var j :| 0 <= j < |keys| && keys[j] == k;
      assert rest[if j < i then j else j - 1] == k;
    }
  }

  /** Popping keeps the remaining keys in order. */
  lemma {:induction false} PopOrder<V>(d: Dict<V>, p: Addr, i: nat, k: nat)
    requires d.Valid() && p in d.items && i < k < |d.Pop(p).keys|
    ensures exists a, b :: 0 <= a < b < |d.keys| && d.keys[a] == d.Pop(p).keys[i] && d.keys[b] == d.Pop(p).keys[k]
                           && d.keys[a] != p && d.keys[b] != p
  {
    var a, b := DropOrder(d.keys, IndexOf(d.keys, p), i, k);
  }

  lemma {:induction false} DropOrder(keys: seq<Addr>, x: nat, i: nat, k: nat) returns (a: nat, b: nat)
    requires x < |keys| && i < k < |keys| - 1
    ensures a < b < |keys| && a != x && b != x
    ensures keys[a] == (keys[..x] + keys[x + 1..])[i] && keys[b] == (keys[..x] + keys[x + 1..])[k]
  {
    a, b := if i < x then i else i + 1, if k < x then k else k + 1;
  }
}
