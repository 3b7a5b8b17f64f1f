/** Small tables keyed by page-directory address, searched linearly and compacted by moving
    the last entry into a removed one's place. */
module Tables {
  import opened Options

  type Table = seq<(nat, nat)>

  ghost predicate UniqueKeys(t: Table) { forall i, j :: 0 <= i < j < |t| ==> t[i].0 != t[j].0 }

  /** The value stored under a key, if any. */
  function Lookup(t: Table, key: nat): Option<nat> {
    if t == [] then None else if t[|t| - 1].0 == key then Some(t[|t| - 1].1) else Lookup(t[..|t| - 1], key)
  }

  lemma {:induction false} LookupAt(t: Table, i: nat)
    requires UniqueKeys(t) && i < |t|
    ensures Lookup(t, t[i].0) == Some(t[i].1)
  {
    if i < |t| - 1 {
      assert t[..|t| - 1][i] == t[i];
      LookupAt(t[..|t| - 1], i);
    }
  }

  lemma {:induction false} LookupNone(t: Table, key: nat)
    requires forall i :: 0 <= i < |t| ==> t[i].0 != key
    ensures Lookup(t, key) == None
  {
    if t != [] { LookupNone(t[..|t| - 1], key); }
  }

  lemma {:induction false} LookupSome(t: Table, key: nat) returns (i: nat)
    requires Lookup(t, key).Some?
    ensures i < |t| && t[i] == (key, Lookup(t, key).value)
  {
    if t[|t| - 1].0 == key { i := |t| - 1; } else { i := LookupSome(t[..|t| - 1], key); }
  }

  /** Two tables with the same entries under a key agree on it. */
  lemma SameEntry(t: Table, t': Table, key: nat)
    requires UniqueKeys(t) && UniqueKeys(t')
    requires forall v :: (key, v) in t <==> (key, v) in t'
    ensures Lookup(t, key) == Lookup(t', key)
  {
    if Lookup(t, key).Some? {
      var i := LookupSome(t, key);
      assert t[i] in t';
      var j :| 0 <= j < |t'| && t'[j] == t[i];
      LookupAt(t', j);
    } else if Lookup(t', key).Some? {
      var j := LookupSome(t', key);
      assert t'[j] in t;
      var i :| 0 <= i < |t| && t[i] == t'[j];
      LookupAt(t, i);
    }
  }

  /** The first index of a key, or the table's length. */
  function Index(t: Table, key: nat): (i: nat)
    ensures i <= |t| && (i < |t| ==> t[i].0 == key) && forall j :: 0 <= j < i ==> t[j].0 != key
  {
    if t == [] || t[0].0 == key then 0 else
    var i := 1 + Index(t[1..], key);
    assert forall j :: 1 <= j < i ==> t[j] == t[1..][j - 1];
    i
  }

  lemma LookupIndex(t: Table, key: nat)
    requires UniqueKeys(t)
    ensures Lookup(t, key) == if Index(t, key) < |t| then Some(t[Index(t, key)].1) else None
  {
    if Index(t, key) < |t| { LookupAt(t, Index(t, key)); } else { LookupNone(t, key); }
  }

  method Find(t: Table, key: nat) returns (i: nat)
    requires UniqueKeys(t)
    ensures i == Index(t, key)
    ensures i <= |t| && (i < |t| ==> t[i].0 == key)
    ensures Lookup(t, key) == if i < |t| then Some(t[i].1) else None
  {
    for k := 0 to |t|
      invariant forall j :: 0 <= j < k ==> t[j].0 != key
    {
      if t[k].0 == key { LookupAt(t, k); return k; }
    }
    LookupNone(t, key);
    return |t|;
  }

  lemma Append(t: Table, key: nat, v: nat)
    requires UniqueKeys(t) && Lookup(t, key) == None
    ensures UniqueKeys(t + [(key, v)])
    ensures forall k :: Lookup(t + [(key, v)], k) == (if k == key then Some(v) else Lookup(t, k))
  {
    var t' := t + [(key, v)];
    assert t'[..|t|] == t;
    forall i | 0 <= i < |t| ensures t[i].0 != key { LookupAt(t, i); }
  }

  lemma Update(t: Table, i: nat, v: nat)
    requires UniqueKeys(t) && i < |t|
    ensures UniqueKeys(t[i := (t[i].0, v)])
    ensures forall k :: Lookup(t[i := (t[i].0, v)], k) == (if k == t[i].0 then Some(v) else Lookup(t, k))
  {
    var t' := t[i := (t[i].0, v)];
    LookupAt(t', i);
    forall k: nat | k != t[i].0 ensures Lookup(t', k) == Lookup(t, k) {
      forall x: nat ensures (k, x) in t <==> (k, x) in t' {
        if (k, x) in t { var j :| 0 <= j < |t| && t[j] == (k, x); assert t'[j] == (k, x); }
      }
      SameEntry(t', t, k);
    }
  }

  /** Moves the last entry into position i. */
  function SwapRemove(t: Table, i: nat): Table
    requires i < |t|
  {
    t[i := t[|t| - 1]][..|t| - 1]
  }

  /** Swap-removal forgets one key and keeps every other binding. */
  lemma Remove(t: Table, i: nat)
    requires UniqueKeys(t) && i < |t|
    ensures UniqueKeys(SwapRemove(t, i)) && |SwapRemove(t, i)| == |t| - 1
    ensures forall k :: Lookup(SwapRemove(t, i), k) == (if k == t[i].0 then None else Lookup(t, k))
  {
    var n, t' := |t| - 1, SwapRemove(t, i);
    assert forall j :: 0 <= j < n ==> t'[j] == (if j == i then t[n] else t[j]);
    LookupNone(t', t[i].0);
    forall k: nat | k != t[i].0 ensures Lookup(t', k) == Lookup(t, k) {
      forall x: nat ensures (k, x) in t <==> (k, x) in t' {
        if (k, x) in t {
          var j :| 0 <= j < |t| && t[j] == (k, x);
          assert t'[if j == n then i else j] == (k, x);
        }
      }
      SameEntry(t', t, k);
    }
  }

  /** Writes v under a key: over its old value, else in a new entry while there is room. */
  function Put(t: Table, key: nat, v: nat, room: nat): Table {
    var i := Index(t, key);
    if i < |t| then t[i := (key, v)] else if |t| < room then t + [(key, v)] else t
  }

  function Delete(t: Table, key: nat): Table {
    if Index(t, key) < |t| then SwapRemove(t, Index(t, key)) else t
  }

  lemma PutKeeps(t: Table, key: nat, v: nat, room: nat)
    requires UniqueKeys(t) && |t| <= room
    ensures UniqueKeys(Put(t, key, v, room)) && |Put(t, key, v, room)| <= room
    ensures Lookup(t, key).None? && |t| == room ==> Put(t, key, v, room) == t
    ensures Lookup(t, key).Some? || |t| < room ==>
              forall k :: Lookup(Put(t, key, v, room), k) == (if k == key then Some(v) else Lookup(t, k))
  {
    hide Lookup, Index;
    LookupIndex(t, key);
    if Index(t, key) < |t| { Update(t, Index(t, key), v); } else { Append(t, key, v); }
  }

  lemma DeleteKeeps(t: Table, key: nat)
    requires UniqueKeys(t)
    ensures UniqueKeys(Delete(t, key)) && |Delete(t, key)| <= |t|
    ensures forall k :: Lookup(Delete(t, key), k) == (if k == key then None else Lookup(t, k))
  {
    hide Lookup, Index;
    LookupIndex(t, key);
    if Index(t, key) < |t| { Remove(t, Index(t, key)); }
  }
}
