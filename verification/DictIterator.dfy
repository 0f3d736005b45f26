/** The iterator of `dict.c`, which may outlive the entry it returned last, and whole walks and runs. */
module DictIterator {
  import opened HashChains
  import opened Dict

  /** The entries in `rest` are the end of the bucket at `pos`; with no current entry there are none. */
  ghost predicate InStep<K, V>(chains: seq<Chain<K, V>>, pos: int, current: bool, rest: Chain<K, V>) {
    && -1 <= pos
    && (!current ==> rest == [])
    && (current ==>
          && 0 <= pos < |chains| && |rest| <= |chains[pos]|
          && rest == chains[pos][|chains[pos]| - |rest|..])
  }

  /** The keys the iterator has still to return. */
  ghost function Remaining<K, V>(index: Index<K, V>, hash: K -> nat, mask: nat, pos: int, rest: Chain<K, V>): set<K> {
    set k | k in index && (And(hash(k), mask) > pos || index[k] in rest)
  }

  /** A step from one bucket to the next leaves the remaining keys as they were. */
  lemma RemainingStep<K, V>(chains: seq<Chain<K, V>>, index: Index<K, V>, hash: K -> nat, mask: nat, pos: int)
    requires Filed(chains, index, hash, mask) && -1 <= pos < |chains| - 1
    ensures Remaining(index, hash, mask, pos, []) == Remaining(index, hash, mask, pos + 1, chains[pos + 1])
  {
    FiledBucket(chains, index, hash, mask, pos + 1);
    hide And, Filed;
    forall k | k in index
      ensures k in Remaining(index, hash, mask, pos, []) <==> k in Remaining(index, hash, mask, pos + 1, chains[pos + 1])
    {
    }
  }

  /** Past the last bucket nothing remains. */
  lemma RemainingNone<K, V>(chains: seq<Chain<K, V>>, index: Index<K, V>, hash: K -> nat, mask: nat, pos: int)
    requires Filed(chains, index, hash, mask) && pos >= |chains| - 1
    ensures Remaining(index, hash, mask, pos, []) == {}
  {
    hide And;
  }

  /** Taking the first entry of the rest of a bucket takes its key, and no other, out of the remaining keys. */
  lemma RemainingTake<K, V>(chains: seq<Chain<K, V>>, index: Index<K, V>, hash: K -> nat, mask: nat, pos: nat, i: nat)
    requires Filed(chains, index, hash, mask) && pos < |chains| && i < |chains[pos]|
    ensures chains[pos][i].key in Remaining(index, hash, mask, pos, chains[pos][i..])
    ensures chains[pos][i].key in index && index[chains[pos][i].key] == chains[pos][i] && chains[pos][i] !in chains[pos][i + 1..]
    ensures Remaining(index, hash, mask, pos, chains[pos][i + 1..])
         == Remaining(index, hash, mask, pos, chains[pos][i..]) - {chains[pos][i].key}
  {
    FiledBucket(chains, index, hash, mask, pos);
    hide And, Filed;
    var c := chains[pos];
    var e := c[i];
    assert e in c && c[i..][0] == e && c[i..] == [e] + c[i + 1..];
    assert e !in c[i + 1..];
    forall k | k in index
      ensures k in Remaining(index, hash, mask, pos, c[i + 1..]) <==> k in Remaining(index, hash, mask, pos, c[i..]) - {e.key}
    {
      assert index[k] == e ==> k == e.key;
      assert index[k] in c[i + 1..] ==> index[k] in c;
    }
  }

  /** Deleting an entry that has been returned disturbs neither the place nor the remaining keys. */
  lemma DeletedBehind<K, V>(chains: seq<Chain<K, V>>, index: Index<K, V>, hash: K -> nat, mask: nat,
                            pos: nat, rest: Chain<K, V>, e: Entry<K, V>)
    requires Filed(chains, index, hash, mask) && pos < |chains| && e in chains[pos] && e !in rest
    requires InStep(chains, pos, true, rest)
    ensures InStep(chains[pos := Without(chains[pos], e)], pos, true, rest)
    ensures Remaining(index - {e.key}, hash, mask, pos, rest) == Remaining(index, hash, mask, pos, rest)
  {
    FiledBucket(chains, index, hash, mask, pos);
    WithoutSuffix(chains[pos], e, |rest|);
    hide And, Filed;
    assert index[e.key] == e;
  }

  class Iterator<K(==,!new), V(!new)> {
    const ht: Dict<K, V>
    var index: int
    var entry: Entry?<K, V>
    var nextEntry: Entry?<K, V>
    ghost var rest: Chain<K, V>

    /** The iterator's place fits the table. */
    ghost predicate Synced()
      reads this, ht
    {
      && InStep(ht.chains, index, entry != null, rest)
      && (entry != null ==> nextEntry == if rest == [] then null else rest[0])
    }

    /** The entry returned last, still in the table. */
    ghost predicate Returned(e: Entry<K, V>)
      reads this, ht
    {
      && Synced() && entry == e && e !in rest
      && 0 <= index < |ht.chains| && e in ht.chains[index]
      && e.key in ht.index && ht.index[e.key] == e && e.key !in Pending()
    }

    ghost function Pending(): set<K>
      reads this, ht
    {
      Remaining(ht.index, ht.hash, ht.sizemask, index, rest)
    }

    /** `dictGetIterator`. */
    constructor (ht: Dict<K, V>)
      requires ht.Valid()
      ensures Synced() && this.ht == ht && Pending() == ht.index.Keys && this !in ht.Repr()
    {
      this.ht := ht;
      index, entry, nextEntry, rest := -1, null, null, [];
    }

    lemma TableShape()
      requires ht.Valid()
      ensures |ht.chains| == ht.size && (ht.size == 0 ==> ht.index == map[])
      ensures ht.size > 0 ==> ht.table != null && ht.table.Length == ht.size && Filed(ht.chains, ht.index, ht.hash, ht.sizemask)
      ensures forall b | 0 <= b < ht.size :: Linked(ht.table[b], ht.chains[b])
    {
      hide And;
    }

    lemma AtEnd(pos: int)
      requires ht.Valid() && pos >= ht.size - 1
      ensures Remaining(ht.index, ht.hash, ht.sizemask, pos, []) == {}
    {
      hide And, Filed, Linked;
      TableShape();
      if ht.size > 0 {
        RemainingNone(ht.chains, ht.index, ht.hash, ht.sizemask, pos);
      }
    }

    /** The next entry is saved before the current one is handed out. */
    method SaveNext()
      requires ht.Valid() && InStep(ht.chains, index, true, rest) && rest != [] && entry == rest[0]
      modifies `nextEntry, `rest
      ensures Synced() && entry.key in old(Pending()) && entry.key in ht.index && ht.index[entry.key] == entry
      ensures Pending() == old(Pending()) - {entry.key} && entry !in rest
      ensures entry in ht.chains[index]
    {
      hide And, Filed, Linked, Remaining;
      TableShape();
      ghost var c := ht.chains[index];
      ghost var i := |c| - |rest|;
      assert c[i] == rest[0];
      LinkedSuffix(ht.table[index], c, i);
      LinkedRest(entry, c, i);
      RemainingTake(ht.chains, ht.index, ht.hash, ht.sizemask, index, i);
      LinkedHead(entry.next, c[i + 1..]);
      nextEntry := entry.next;
      rest := rest[1..];
      assert rest == c[i + 1..];
    }

    /** `dictNext`: an entry that has not been returned yet, or null when there is none. */
    method Next() returns (e: Entry?<K, V>)
      requires ht.Valid() && Synced()
      modifies this
      ensures Synced() && entry == e
      ensures e == null ==> old(Pending()) == {} && Pending() == {}
      ensures e != null ==> Returned(e) && e.key in old(Pending()) && Pending() == old(Pending()) - {e.key}
    {
      hide And, Filed, Linked, Remaining;
      TableShape();
      while true
        invariant Synced() && Pending() == old(Pending())
        decreases if index < ht.size then ht.size - index else 0, if entry == null then 0 else 1
      {
        if entry == null {
          index := index + 1;
          if index >= ht.size {
            AtEnd(index - 1);
            AtEnd(index);
            break;
          }
          entry := ht.table[index];
          rest := ht.chains[index];
          RemainingStep(ht.chains, ht.index, ht.hash, ht.sizemask, index - 1);
          LinkedHead(entry, rest);
        } else {
          entry := nextEntry;
        }
        if entry != null {
          SaveNext();
          return entry;
        }
      }
      return null;
    }

    /** The caller deletes the entry just returned: the rest of the walk is not disturbed. */
    method DeleteReturned(e: Entry<K, V>)
      requires ht.Valid() && Returned(e) && this !in ht.Repr()
      modifies ht, ht.Repr()
      ensures ht.Valid() && ht.Repr() <= old(ht.Repr())
      ensures Synced() && Pending() == old(Pending()) && ht.Contents() == old(ht.Contents()) - {e.key}
    {
      hide *;
      ReturnedBucket(e);
      DeletedBehind(ht.chains, ht.index, ht.hash, ht.sizemask, index, rest, e);
      ghost var remaining := Pending();
      PendingIs(remaining);
      var ok := ht.Delete(e.key);
      StillSynced(remaining);
    }

    lemma PendingIs(keys: set<K>)
      requires keys == Pending()
      ensures keys == Remaining(ht.index, ht.hash, ht.sizemask, index, rest)
    {
    }

    lemma StillSynced(keys: set<K>)
      requires InStep(ht.chains, index, true, rest) && entry != null
      requires nextEntry == if rest == [] then null else rest[0]
      requires keys == Remaining(ht.index, ht.hash, ht.sizemask, index, rest)
      ensures Synced() && Pending() == keys
    {
      hide InStep, Remaining;
    }

    lemma ReturnedBucket(e: Entry<K, V>)
      requires ht.Valid() && Returned(e)
      ensures Filed(ht.chains, ht.index, ht.hash, ht.sizemask) && ht.Bucket(e.key) == index
      ensures Synced() && e.key in ht.index && ht.index[e.key] == e
      ensures 0 <= index < |ht.chains| && e in ht.chains[index] && e !in rest
      ensures InStep(ht.chains, index, true, rest)
      ensures nextEntry == (if rest == [] then null else rest[0]) && entry == e
      ensures e.key in ht.Contents() && ht.Contents()[e.key] == e.val
    {
      hide And, Linked, Remaining;
      FiledBucket(ht.chains, ht.index, ht.hash, ht.sizemask, index);
    }
  }

  /** What has been listed is exactly the part of the map whose keys do not remain, each key once. */
  ghost predicate Listing<K(!new), V(!new)>(seen: seq<(K, V)>, all: map<K, V>, left: set<K>) {
    && (forall k, v :: (k, v) in seen <==> k in all && k !in left && v == all[k])
    && (forall i, j | 0 <= i < j < |seen| :: seen[i].0 != seen[j].0)
  }

  lemma ListingStep<K(!new), V(!new)>(seen: seq<(K, V)>, all: map<K, V>, left: set<K>, k: K)
    requires Listing(seen, all, left) && k in left && k in all
    ensures Listing(seen + [(k, all[k])], all, left - {k})
  {
    var seen' := seen + [(k, all[k])];
    forall i, j | 0 <= i < j < |seen'|
      ensures seen'[i].0 != seen'[j].0
    {
      if j == |seen| {
        assert (seen[i].0, seen[i].1) in seen;
      }
    }
    forall l, v
      ensures (l, v) in seen' <==> l in all && l !in left - {k} && v == all[l]
    {
      assert (l, v) in seen' <==> (l, v) in seen || (l, v) == (k, all[k]);
    }
  }

  /** The part of the map that is left after a walk that deletes the doomed keys it has passed. */
  ghost function Survivors<K, V>(all: map<K, V>, left: set<K>, doomed: K -> bool): map<K, V> {
    map k | k in all && (k in left || !doomed(k)) :: all[k]
  }

  lemma SurvivorsStep<K, V>(all: map<K, V>, left: set<K>, doomed: K -> bool, k: K)
    requires k in left
    ensures Survivors(all, left - {k}, doomed)
         == if doomed(k) then Survivors(all, left, doomed) - {k} else Survivors(all, left, doomed)
  {
  }

  /** A walk over the whole table by a caller who deletes some of the entries just after they are returned. */
  method Walk<K(==,!new), V(!new)>(ht: Dict<K, V>, doomed: K -> bool) returns (seen: seq<(K, V)>)
    requires ht.Valid()
    modifies ht, ht.Repr()
    ensures ht.Valid()
    ensures Listing(seen, old(ht.Contents()), {})
    ensures ht.Contents() == Survivors(old(ht.Contents()), {}, doomed)
  {
    hide *;
    ghost var all := ht.Contents();
    var it := new Iterator(ht);
    seen := [];
    ghost var left := it.Pending();
    StartWalk(ht, doomed);
    var e := it.Next();
    while e != null
      invariant ht.Valid() && ht.Repr() <= old(ht.Repr()) && it !in ht.Repr() && it.ht == ht && it.Synced()
      invariant e != null ==> it.Returned(e) && e.key in left && it.Pending() == left - {e.key}
      invariant e == null ==> left == {} == it.Pending()
      invariant Listing(seen, all, left) && ht.Contents() == Survivors(all, left, doomed)
      decreases left
    {
      it.ReturnedBucket(e);
      SurvivorsStep(all, left, doomed, e.key);
      ListedValue(all, left, doomed, e.key);
      ListingStep(seen, all, left, e.key);
      seen := seen + [(e.key, e.val)];
      if doomed(e.key) {
        it.DeleteReturned(e);
      }
      left := it.Pending();
      e := it.Next();
    }
    // Once it has returned null, the iterator does so again.
    e := it.Next();
    assert e == null;
  }

  lemma ListedValue<K, V>(all: map<K, V>, left: set<K>, doomed: K -> bool, k: K)
    requires k in left && k in Survivors(all, left, doomed)
    ensures k in all && all[k] == Survivors(all, left, doomed)[k]
  {
  }

  lemma StartWalk<K(!new), V(!new)>(ht: Dict<K, V>, doomed: K -> bool)
    ensures Listing([], ht.Contents(), ht.index.Keys)
    ensures ht.Contents() == Survivors(ht.Contents(), ht.index.Keys, doomed)
  {
  }
}
