/**
 The chained hash table of `dict.c`: an array of buckets whose entries are relinked in place. Every
 operation is held to a finite map.
 */
module Dict {
  import opened HashChains

  const INITIAL_SIZE: nat := 4

  /** `i` is the least power of two, from the initial size on, that is not below `size`. */
  ghost predicate Roundup(i: nat, size: nat) {
    && i >= size && i >= INITIAL_SIZE && PowerOfTwo(i)
    && forall p: nat | p >= size && p >= INITIAL_SIZE && PowerOfTwo(p) :: i <= p
  }

  /** `_dictNextPower`. */
  method NextPower(size: nat) returns (i: nat)
    ensures Roundup(i, size) && i >= INITIAL_SIZE
  {
    i := INITIAL_SIZE;
    assert PowerOfTwo(1) && PowerOfTwo(2) && PowerOfTwo(4);
    while i < size
      invariant PowerOfTwo(i) && i >= INITIAL_SIZE
      invariant forall p: nat | p >= size && p >= INITIAL_SIZE && PowerOfTwo(p) :: i <= p
      decreases size - i
    {
      forall p: nat | p >= size && p >= INITIAL_SIZE && PowerOfTwo(p)
        ensures 2 * i <= p
      {
        NoPowerBetween(i, p);
      }
      i := i * 2;
    }
  }

  /** The lists once an entry is the first of its new list. */
  ghost function WithFirst<K, V>(chains: seq<Chain<K, V>>, hash: K -> nat, mask: nat, he: Entry<K, V>): seq<Chain<K, V>>
    requires |chains| == mask + 1
  {
    MaskInRange(hash(he.key), mask);
    var h := And(hash(he.key), mask);
    chains[h := [he] + chains[h]]
  }

  lemma FiledFirst<K, V>(chains: seq<Chain<K, V>>, index: Index<K, V>, hash: K -> nat, mask: nat, he: Entry<K, V>)
    requires Filed(chains, index, hash, mask) && he.key !in index
    ensures |chains| == mask + 1 && Filed(WithFirst(chains, hash, mask, he), index[he.key := he], hash, mask)
  {
    MaskInRange(hash(he.key), mask);
    hide And;
    var h := And(hash(he.key), mask);
    var index' := index[he.key := he];
    forall k | k in index'
      ensures And(hash(k), mask) < |chains| && index'[k] in WithFirst(chains, hash, mask, he)[And(hash(k), mask)]
    {
    }
  }

  /** One entry is unhooked from wherever it was and becomes the first of its new list. */
  method Push<K(!new), V(!new)>(table: array<Entry?<K, V>>, h: nat, he: Entry<K, V>, ghost hash: K -> nat, ghost mask: nat,
                                ghost chains: seq<Chain<K, V>>, ghost index: Index<K, V>)
    requires Hangs(table, chains, index) && Filed(chains, index, hash, mask) && he.key !in index
    requires h == And(hash(he.key), mask) <= mask
    modifies table, he`next
    ensures Hangs(table, WithFirst(chains, hash, mask, he), index[he.key := he])
  {
    hide And, Linked;
    assert forall b, e | 0 <= b < |chains| && e in chains[b] :: e.key in index && index[e.key] == e && e != he;
    hide Filed;
    he.next := table[h];
    assert forall b | 0 <= b < |chains| :: Linked(table[b], chains[b]);
    table[h] := he;
    LinkedFirst(he, chains[h]);
    ghost var index' := index[he.key := he];
    ghost var chains' := WithFirst(chains, hash, mask, he);
    forall b, e | 0 <= b < |chains'| && e in chains'[b]
      ensures e in index'.Values
    {
      assert index'[e.key] == e;
    }
  }

  /** The copying loop may stop early, when the count of the old table is down to zero. */
  lemma AllMoved<K, V>(table: array<Entry?<K, V>>, chains: seq<Chain<K, V>>, done: Index<K, V>,
                       hash: K -> nat, mask: nat, index: Index<K, V>, left: nat, complete: bool)
    requires Partial(table, chains, done, hash, mask, index, left)
    requires complete || left == 0
    requires complete ==> forall k | k in index :: k in done
    ensures left == 0 && Hangs(table, chains, index) && Filed(chains, index, hash, mask)
  {
    hide Hangs, Filed;
    WithinCount(done, index);
    if complete {
      assert done.Keys == index.Keys;
      assert done == index;
    }
  }

  /** The search loop of `dictFind` and `_dictKeyIndex`. */
  method Search<K(==, !new), V(!new)>(head: Entry?<K, V>, key: K, ghost chain: Chain<K, V>) returns (he: Entry?<K, V>)
    requires Linked(head, chain)
    ensures he == null ==> forall e | e in chain :: e.key != key
    ensures he != null ==> he in chain && he.key == key
  {
    hide Linked;
    he := head;
    ghost var j := 0;
    assert chain[0..] == chain;
    LinkedNull(he, chain);
    while he != null
      invariant 0 <= j <= |chain| && Linked(he, chain[j..]) && (he == null <==> j == |chain|)
      invariant forall i | 0 <= i < j :: chain[i].key != key
      decreases |chain| - j
    {
      LinkedRest(he, chain, j);
      if key == he.key {
        return;
      }
      he := he.next;
      j := j + 1;
    }
  }

  lemma RoundupPower(i: nat, size: nat)
    requires Roundup(i, size) && size >= INITIAL_SIZE && PowerOfTwo(size)
    ensures i == size
  {
  }

  lemma FiledWithout<K, V>(chains: seq<Chain<K, V>>, index: Index<K, V>, hash: K -> nat, mask: nat, h: nat, e: Entry<K, V>)
    requires Filed(chains, index, hash, mask) && h < |chains| && e in chains[h]
    ensures Filed(chains[h := Without(chains[h], e)], index - {e.key}, hash, mask)
  {
    FiledBucket(chains, index, hash, mask, h);
    BucketsApart(chains, index, hash, mask, h);
    MembersWithout(chains[h], e);
    hide And, Without, NoDuplicate;
    var chains', index' := chains[h := Without(chains[h], e)], index - {e.key};
    assert forall d | d in chains'[h] :: d in Members(chains'[h]);
    assert forall d | d in Members(chains[h]) - {e} :: d in chains'[h];
    forall k | k in index'
      ensures And(hash(k), mask) < |chains'| && index'[k] in chains'[And(hash(k), mask)]
    {
      assert index[k].key == k;
    }
  }

  /** The unlinking of an entry from its list, given the entry before it. */
  method Unlink<K(!new), V(!new)>(table: array<Entry?<K, V>>, h: nat, prevde: Entry?<K, V>, de: Entry<K, V>,
                                  ghost c: Chain<K, V>, ghost j: nat)
    requires h < table.Length && Linked(table[h], c) && NoDuplicate(c)
    requires j < |c| && de == c[j] && prevde == (if j == 0 then null else c[j - 1])
    modifies table, Members(c)`next
    ensures Linked(table[h], c[..j] + c[j + 1..])
    ensures forall b | 0 <= b < table.Length && b != h :: table[b] == old(table[b])
  {
    ghost var c' := c[..j] + c[j + 1..];
    if prevde != null {
      prevde.next := de.next;
    } else {
      table[h] := de.next;
    }
    forall i | 0 <= i < |c'| - 1
      ensures c'[i].next == c'[i + 1]
    {
      assert c[if i < j then i else i + 1] == c'[i];
    }
  }

  /** The search loop of `dictDelete`, which also keeps the entry before. */
  method Locate<K(==, !new), V(!new)>(head: Entry?<K, V>, key: K, ghost chain: Chain<K, V>)
    returns (de: Entry?<K, V>, prevde: Entry?<K, V>, ghost j: nat)
    requires Linked(head, chain)
    ensures de == null ==> forall e | e in chain :: e.key != key
    ensures de != null ==> j < |chain| && de == chain[j] && prevde == (if j == 0 then null else chain[j - 1]) && de.key == key
  {
    hide Linked;
    de, prevde, j := head, null, 0;
    assert chain[0..] == chain;
    LinkedNull(de, chain);
    while de != null
      invariant 0 <= j <= |chain| && Linked(de, chain[j..]) && (de == null <==> j == |chain|)
      invariant prevde == if j == 0 then null else chain[j - 1]
      invariant forall i | 0 <= i < j :: chain[i].key != key
      decreases |chain| - j
    {
      LinkedRest(de, chain, j);
      if key == de.key {
        return;
      }
      prevde := de;
      de := de.next;
      j := j + 1;
    }
  }

  /** Unlinking leaves every other list alone. */
  method Take<K(!new), V(!new)>(table: array<Entry?<K, V>>, h: nat, prevde: Entry?<K, V>, de: Entry<K, V>, ghost j: nat,
                                ghost hash: K -> nat, ghost mask: nat, ghost chains: seq<Chain<K, V>>, ghost index: Index<K, V>)
    requires Hangs(table, chains, index) && Filed(chains, index, hash, mask) && h < |chains|
    requires j < |chains[h]| && de == chains[h][j] && prevde == (if j == 0 then null else chains[h][j - 1])
    modifies table, index.Values`next
    ensures Hangs(table, chains[h := Without(chains[h], de)], index - {de.key})
  {
    hide And, Without, Linked, NoDuplicate;
    FiledBucket(chains, index, hash, mask, h);
    BucketsApart(chains, index, hash, mask, h);
    FiledWithout(chains, index, hash, mask, h, de);
    WithoutAt(chains[h], j);
    ghost var chains', index' := chains[h := Without(chains[h], de)], index - {de.key};
    forall b, e | 0 <= b < |chains'| && e in chains'[b]
      ensures e in index'.Values
    {
      assert index'[e.key] == e;
    }
    assert forall b | 0 <= b < |chains| :: Linked(table[b], chains[b]);
    hide Filed;
    Unlink(table, h, prevde, de, chains[h], j);
    assert forall b | 0 <= b < |chains| && b != h :: Linked(table[b], chains[b]);
  }

  class Dict<K(==,!new), V(!new)> {
    var table: array?<Entry?<K, V>>
    var size: nat
    var sizemask: nat
    var used: nat
    /** The `hashFunction` of the table's type. */
    const hash: K -> nat
    ghost var chains: seq<Chain<K, V>>
    ghost var index: Index<K, V>

    /** The invariant of the table: every entry is linked in the bucket of its masked hash, and counted. */
    ghost predicate Valid()
      reads this, table, index.Values`next
    {
      && used == |index| && used <= size
      && if table == null then size == 0 && sizemask == 0 && chains == [] && index == map[]
         else && size >= INITIAL_SIZE && PowerOfTwo(size) && sizemask == size - 1
              && Hangs(table, chains, index) && Filed(chains, index, hash, sizemask)
    }

    lemma Counted()
      requires Valid()
      ensures used == |index|
    {
    }

    /** Enough for the invariant of a table that is not empty. */
    lemma Rebuilt(newSize: nat)
      requires table != null && Roundup(size, newSize) && used <= newSize && size > 0 && sizemask == size - 1
      requires Hangs(table, chains, index) && Filed(chains, index, hash, sizemask)
      requires used == |index|
      ensures Valid()
    {
    }

    /** The finite map the table stands for. */
    ghost function Contents(): map<K, V>
      reads `index, index.Values`val
    {
      map k | k in index :: index[k].val
    }

    ghost function Repr(): set<object>
      reads this
    {
      (if table == null then {} else {table}) + index.Values
    }

    constructor (hash: K -> nat)
      ensures Valid() && Contents() == map[] && Repr() == {} && size == 0 && this.hash == hash
    {
      table, size, sizemask, used := null, 0, 0, 0;
      this.hash, chains, index := hash, [], map[];
    }

    // ---------- Growing ----------

    /** The body of the inner loop of `dictExpand`. */
    method MoveOne(newTable: array<Entry?<K, V>>, mask: nat, he: Entry<K, V>,
                   ghost newChains: seq<Chain<K, V>>, ghost done: Index<K, V>)
      returns (ghost newChains': seq<Chain<K, V>>)
      requires Partial(newTable, newChains, done, hash, mask, index, used)
      requires he.key in index && index[he.key] == he && he.key !in done
      modifies `used, newTable, he`next
      ensures Partial(newTable, newChains', done[he.key := he], hash, mask, index, used)
    {
      hide Linked, Filed, Hangs, And;
      FiledFirst(newChains, done, hash, mask, he);
      MaskInRange(hash(he.key), mask);
      var h := And(hash(he.key), mask);
      Push(newTable, h, he, hash, mask, newChains, done);
      newChains' := WithFirst(newChains, hash, mask, he);
      WithinCount(done[he.key := he], index);
      used := used - 1;
    }

    /** The inner loop of `dictExpand`: one old list is taken apart, entry by entry. */
    method MoveChain(newTable: array<Entry?<K, V>>, mask: nat, head: Entry?<K, V>, ghost chain: Chain<K, V>,
                     ghost newChains: seq<Chain<K, V>>, ghost done: Index<K, V>)
      returns (ghost newChains': seq<Chain<K, V>>, ghost done': Index<K, V>)
      requires Linked(head, chain) && NoDuplicate(chain) && Keyed(index)
      requires forall e | e in chain :: e.key in index && index[e.key] == e && e.key !in done
      requires Partial(newTable, newChains, done, hash, mask, index, used)
      modifies `used, newTable, Members(chain)`next
      ensures Partial(newTable, newChains', done', hash, mask, index, used)
      ensures forall k | k in index :: k in done' <==> k in done || index[k] in chain
    {
      hide Linked, Partial;
      var he := head;
      newChains', done' := newChains, done;
      ghost var j := 0;
      assert chain[0..] == chain;
      LinkedNull(he, chain);
      while he != null
        invariant 0 <= j <= |chain| && Linked(he, chain[j..]) && (he == null <==> j == |chain|)
        invariant Partial(newTable, newChains', done', hash, mask, index, used)
        invariant forall k | k in index :: k in done' <==> k in done || index[k] in chain[..j]
        decreases |chain| - j
      {
        LinkedRest(he, chain, j);
        assert he.key !in done';
        var nextHe := he.next;
        newChains' := MoveOne(newTable, mask, he, newChains', done');
        done' := done'[he.key := he];
        he := nextHe;
        j := j + 1;
      }
    }

    /** The lists of the buckets from `i` on are still as they were. */
    ghost predicate Pending(i: nat)
      reads this, table, index.Values`next
    {
      && |chains| == size
      && (size > 0 ==> table != null && table.Length == size && Filed(chains, index, hash, sizemask))
      && (forall b, e | i <= b < size && e in chains[b] :: e in index.Values)
      && (forall b | i <= b < size :: Linked(table[b], chains[b]))
      && (forall k | k in index :: And(hash(k), sizemask) < size)
    }

    /** Of the entries, those of the first `i` buckets have been moved. */
    ghost predicate MovedBelow(done: Index<K, V>, i: nat)
      reads this
    {
      forall k | k in index :: k in done <==> And(hash(k), sizemask) < i
    }

    lemma AllBelow(done: Index<K, V>)
      requires Pending(size) && MovedBelow(done, size)
      ensures forall k | k in index :: k in done
    {
    }

    lemma AllPending()
      requires Valid()
      ensures used == |index| && Pending(0) && MovedBelow(map[], 0)
    {
      hide And;
    }

    /** The body of the outer loop of `dictExpand`. */
    method MoveBucket(newTable: array<Entry?<K, V>>, mask: nat, i: nat,
                      ghost newChains: seq<Chain<K, V>>, ghost done: Index<K, V>)
      returns (ghost newChains': seq<Chain<K, V>>, ghost done': Index<K, V>)
      requires i < size && Pending(i) && newTable != table
      requires Partial(newTable, newChains, done, hash, mask, index, used)
      requires MovedBelow(done, i)
      modifies `used, newTable, index.Values`next
      ensures Partial(newTable, newChains', done', hash, mask, index, used)
      ensures Pending(i + 1)
      ensures MovedBelow(done', i + 1)
    {
      hide And, Linked, Filed, Partial, PowerOfTwo, NoDuplicate;
      FiledBucket(chains, index, hash, sizemask, i);
      BucketsApart(chains, index, hash, sizemask, i);
      newChains', done' := MoveChain(newTable, mask, table[i], chains[i], newChains, done);
    }

    /** The copying loop of `dictExpand`, up to its assertion. */
    method Rehash(newTable: array<Entry?<K, V>>, mask: nat) returns (ghost newChains: seq<Chain<K, V>>)
      requires Valid() && newTable != table && newTable.Length == mask + 1
      requires forall b | 0 <= b <= mask :: newTable[b] == null
      modifies `used, newTable, index.Values`next
      ensures used == 0
      ensures Hangs(newTable, newChains, index) && Filed(newChains, index, hash, mask)
    {
      hide Valid, Hangs, And, Linked, Filed, Partial, Keyed, Pending, MovedBelow, Contents;
      ghost var done: Index<K, V> := map[];
      newChains := seq(mask + 1, _ => []);
      StartPartial(newTable, newChains, hash, mask, index);
      AllPending();
      var i := 0;
      while i < size && used > 0
        invariant 0 <= i <= size && Pending(i)
        invariant Partial(newTable, newChains, done, hash, mask, index, used)
        invariant MovedBelow(done, i)
      {
        newChains, done := MoveBucket(newTable, mask, i, newChains, done);
        i := i + 1;
      }
      if i == size {
        AllBelow(done);
      }
      AllMoved(newTable, newChains, done, hash, mask, index, used, i == size);
    }

    /** `dictExpand`: all entries move to a new table, unless it could not hold them. */
    method Expand(newSize: nat) returns (ok: bool)
      requires Valid()
      modifies this, index.Values`next
      ensures Valid() && index == old(index) && used == old(used)
      ensures ok == (old(used) <= newSize)
      ensures ok ==> fresh(table) && table != null && Roundup(size, newSize)
      ensures !ok ==> size == old(size) && table == old(table) && chains == old(chains)
    {
      hide Valid, Hangs, And, Linked, Filed, PowerOfTwo, Contents, Roundup;
      var realSize := NextPower(newSize);
      if used > newSize {
        return false;
      }
      var newUsed := used;
      var newTable := new Entry?<K, V>[realSize](_ => null);
      Counted();
      ghost var newChains := Rehash(newTable, realSize - 1);
      table, size, sizemask, used := newTable, realSize, realSize - 1, newUsed;
      chains := newChains;
      Rebuilt(newSize);
      return true;
    }

    /** `_dictExpandIfNeeded`: never fails, and leaves room for one more entry. */
    method ExpandIfNeeded() returns (ok: bool)
      requires Valid()
      modifies this, index.Values`next
      ensures ok && Valid() && table != null && index == old(index)
      ensures table == old(table) || fresh(table)
      ensures size == (if old(size) == 0 then INITIAL_SIZE else if old(used == size) then 2 * old(size) else old(size))
      ensures used == old(used) < size
    {
      Counts();
      hide Valid, Roundup;
      if size == 0 {
        ok := Expand(INITIAL_SIZE);
        RoundupPower(size, INITIAL_SIZE);
      } else if used == size {
        ghost var before := size;
        ok := Expand(size * 2);
        RoundupPower(size, 2 * before);
      } else {
        ok := true;
      }
    }

    lemma Counts()
      requires Valid()
      ensures used == |index| && used <= size
      ensures table == null <==> size == 0
      ensures size > 0 ==> PowerOfTwo(2 * size) && 2 * size >= INITIAL_SIZE
    {
      hide Hangs, Filed, Linked, And;
    }

    // ---------- Searching ----------

    /** The key's bucket, in a table that has one. */
    function Bucket(key: K): (h: nat)
      reads this
      ensures h <= sizemask
    {
      MaskInRange(hash(key), sizemask);
      And(hash(key), sizemask)
    }

    /** What the invariant says of the bucket where a key belongs. */
    lemma InBucket(key: K)
      requires Valid() && table != null
      ensures Bucket(key) < table.Length == |chains|
      ensures Linked(table[Bucket(key)], chains[Bucket(key)]) && NoDuplicate(chains[Bucket(key)])
      ensures forall e | e in chains[Bucket(key)] :: e.key in index && index[e.key] == e
      ensures key in index ==> index[key] in chains[Bucket(key)] && index[key].key == key
    {
      hide And;
      FiledBucket(chains, index, hash, sizemask, Bucket(key));
    }

    /** `dictFind`. */
    method Find(key: K) returns (he: Entry?<K, V>)
      requires Valid()
      ensures he == null <==> key !in Contents()
      ensures he != null ==> key in index && he == index[key] && he.key == key && he.val == Contents()[key]
    {
      Counts();
      if size == 0 {
        assert index == map[];
        return null;
      }
      InBucket(key);
      var h := Bucket(key);
      he := Search(table[h], key, chains[h]);
    }

    // ---------- Adding and replacing ----------

    /** `_dictKeyIndex`: the bucket for a new entry, or -1 when the key is there already. The table may grow. */
    method KeyIndex(key: K) returns (i: int)
      requires Valid()
      modifies this, index.Values`next
      ensures Valid() && table != null && index == old(index) && (table == old(table) || fresh(table))
      ensures used == old(used) < size
      ensures i == (if key in index then -1 else Bucket(key))
    {
      hide Valid, And;
      var ok := ExpandIfNeeded();
      InBucket(key);
      var h := Bucket(key);
      var he := Search(table[h], key, chains[h]);
      if he != null {
        return -1;
      }
      return h;
    }

    /** `dictAdd`: fails exactly when the key is there already. */
    method Add(key: K, val: V) returns (ok: bool)
      requires Valid()
      modifies this, Repr()
      ensures Valid() && fresh(Repr() - old(Repr()))
      ensures ok == (key !in old(Contents()))
      ensures Contents() == if ok then old(Contents())[key := val] else old(Contents())
      ensures !ok ==> index == old(index)
    {
      hide Valid, And, Hangs, Filed;
      var i := KeyIndex(key);
      if i == -1 {
        return false;
      }
      var entry := new Entry(key, val, null);
      Link(i, entry);
      return true;
    }

    /** The second half of `dictAdd`: the new entry becomes the first of its list. */
    method Link(i: nat, entry: Entry<K, V>)
      requires Valid() && table != null && i == Bucket(entry.key) && entry.key !in index && used < size
      modifies this, table, entry`next
      ensures Valid() && index == old(index)[entry.key := entry] && table == old(table)
    {
      hide And, Linked, PowerOfTwo, Filed, Hangs, WithFirst;
      FiledFirst(chains, index, hash, sizemask, entry);
      Push(table, i, entry, hash, sizemask, chains, index);
      chains, index := WithFirst(chains, hash, sizemask, entry), index[entry.key := entry];
      used := used + 1;
    }

    /** `dictReplace`: the key's value is set, and the result says whether the key is new. */
    method Replace(key: K, val: V) returns (added: bool)
      requires Valid()
      modifies this, Repr()
      ensures Valid() && fresh(Repr() - old(Repr()))
      ensures added == (key !in old(Contents()))
      ensures Contents() == old(Contents())[key := val]
    {
      hide Valid, Hangs, Filed, Linked, And;
      added := Add(key, val);
      if added {
        return;
      }
      var entry := Find(key);
      SetVal(entry, val);
    }

    /** `dictSetHashVal`. */
    method SetVal(entry: Entry<K, V>, val: V)
      requires Valid() && entry.key in index && index[entry.key] == entry
      modifies entry`val
      ensures Valid() && Contents() == old(Contents())[entry.key := val]
    {
      hide Valid, Hangs, Filed, Linked, And;
      OneKeyEach();
      entry.val := val;
    }

    lemma OneKeyEach()
      requires Valid()
      ensures Keyed(index)
    {
    }

    // ---------- Deleting ----------

    /** `dictDelete`: fails exactly when the key is not there. */
    method Delete(key: K) returns (ok: bool)
      requires Valid()
      modifies this, Repr()
      ensures Valid() && table == old(table) && size == old(size) && sizemask == old(sizemask) && Repr() <= old(Repr())
      ensures ok == (key in old(index))
      ensures index == old(index) - {key} && Contents() == old(Contents()) - {key}
      ensures chains == if !ok then old(chains)
                        else old(chains)[old(Bucket(key)) := Without(old(chains)[old(Bucket(key))], old(index)[key])]
    {
      hide Valid, Hangs, Filed, Linked, And, Bucket, Without, Contents, NoDuplicate, PowerOfTwo;
      Absent(key);
      Counts();
      if size == 0 {
        return false;
      }
      InBucket(key);
      var h := Bucket(key);
      ghost var j: nat;
      var de, prevde;
      de, prevde, j := Locate(table[h], key, chains[h]);
      if de == null {
        return false;
      }
      Remove(h, prevde, de, j);
      return true;
    }

    lemma Absent(key: K)
      ensures key !in index ==> index - {key} == index && Contents() - {key} == Contents()
    {
    }

    /** The found entry is unlinked and no longer counted. */
    method Remove(h: nat, prevde: Entry?<K, V>, de: Entry<K, V>, ghost j: nat)
      requires Valid() && table != null && h == Bucket(de.key) && h < table.Length == |chains|
      requires j < |chains[h]| && de == chains[h][j] && prevde == (if j == 0 then null else chains[h][j - 1])
      requires de.key in index
      modifies this, table, index.Values`next
      ensures Valid() && table == old(table) && size == old(size) && sizemask == old(sizemask)
      ensures index == old(index) - {de.key} && chains == old(chains)[h := Without(old(chains)[h], de)]
      ensures Contents() == old(Contents()) - {de.key}
    {
      hide And, PowerOfTwo, Without, Linked, Filed, Hangs, Bucket;
      FiledWithout(chains, index, hash, sizemask, h, de);
      Take(table, h, prevde, de, j, hash, sizemask, chains, index);
      used := used - 1;
      chains, index := chains[h := Without(chains[h], de)], index - {de.key};
    }

    /** The size and the count of every table. */
    lemma SizeAndCount()
      requires Valid()
      ensures size == 0 || (size >= INITIAL_SIZE && PowerOfTwo(size))
      ensures used == |Contents()| <= size
    {
      hide And, PowerOfTwo, Filed, Hangs, Linked;
      assert Contents().Keys == index.Keys;
    }

    /** In every table each key has one entry, in the list of its hash modulo the size, and nowhere else. */
    lemma Placement(k: K)
      requires Valid() && size > 0
      ensures |chains| == size
      ensures k in Contents() <==> exists e :: e in chains[hash(k) % size] && e.key == k
      ensures forall b, e | 0 <= b < size && e in chains[b] && e.key == k :: b == hash(k) % size && e == index[k]
    {
      hide And, PowerOfTwo, Linked, Hangs, NoDuplicate;
      MaskIsRemainder(hash(k), size);
      FiledBucket(chains, index, hash, sizemask, hash(k) % size);
    }
  }
}
