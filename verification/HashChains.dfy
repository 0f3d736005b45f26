/** The buckets of the hash table of `dict.c` as lists of entries, and how they are linked on the heap. */
module HashChains {
  /** An entry; its key never changes. */
  class Entry<K, V> {
    const key: K
    var val: V
    var next: Entry?<K, V>

    constructor (key: K, val: V, next: Entry?<K, V>)
      ensures this.key == key && this.val == val && this.next == next
    {
      this.key, this.val, this.next := key, val, next;
    }
  }

  type Chain<K, V> = seq<Entry<K, V>>

  // ---------- Masks and sizes ----------

  /** The bitwise conjunction of two unsigned numbers. */
  function And(a: nat, b: nat): nat {
    if a == 0 || b == 0 then 0 else (a % 2) * (b % 2) + 2 * And(a / 2, b / 2)
  }

  predicate PowerOfTwo(n: nat) {
    n == 1 || (n > 0 && n % 2 == 0 && PowerOfTwo(n / 2))
  }

  /** A masked hash is a bucket of the table. */
  lemma {:induction false} MaskInRange(h: nat, mask: nat)
    ensures And(h, mask) <= mask
  {
    if h != 0 && mask != 0 {
      MaskInRange(h / 2, mask / 2);
    }
  }

  lemma HalfPower(size: nat)
    requires PowerOfTwo(size)
    ensures size > 0 && (size > 1 ==> size == 2 * (size / 2) && PowerOfTwo(size / 2))
  {
  }

  lemma AndZero(h: nat, m: nat)
    requires h == 0 || m == 0
    ensures And(h, m) == 0
  {
  }

  /** With a power-of-two size the mask picks the remainder. */
  lemma {:induction false} MaskIsRemainder(h: nat, size: nat)
    requires PowerOfTwo(size)
    ensures And(h, size - 1) == h % size
  {
    hide And, PowerOfTwo;
    HalfPower(size);
    if size > 1 && h != 0 {
      var half := size / 2;
      MaskIsRemainder(h / 2, half);
      AndOdd(h, half - 1);
      HalveRemainder(h, half);
    } else {
      AndZero(h, size - 1);
    }
  }

  lemma AndOdd(h: nat, m: nat)
    requires h != 0
    ensures And(h, 2 * m + 1) == h % 2 + 2 * And(h / 2, m)
  {
    var a := 2 * m + 1;
    assert a % 2 == 1 && a / 2 == m;
  }

  lemma HalveRemainder(h: nat, half: nat)
    requires half > 0
    ensures h % (2 * half) == h % 2 + 2 * ((h / 2) % half)
  {
    var q, r := (h / 2) / half, (h / 2) % half;
    assert h / 2 == half * q + r;
    assert h == (2 * half) * q + (h % 2 + 2 * r);
    RemainderIs(h, 2 * half, q, h % 2 + 2 * r);
  }

  lemma RemainderIs(h: nat, size: nat, q: nat, r: nat)
    requires size > 0 && h == size * q + r && r < size
    ensures h % size == r
  {
    var d := h / size - q;
    assert size * d == r - h % size;
    Multiple(size, d);
  }

  lemma Multiple(size: nat, d: int)
    ensures d > 0 ==> size * d >= size
    ensures d < 0 ==> size * d + size <= 0
  {
  }

  lemma {:induction false} NoPowerBetween(a: nat, b: nat)
    requires PowerOfTwo(a) && PowerOfTwo(b) && a < b
    ensures 2 * a <= b
  {
    if a > 1 {
      NoPowerBetween(a / 2, b / 2);
    }
  }

  // ---------- Lists ----------

  /** The list hangs off `head`. */
  ghost predicate Linked<K, V>(head: Entry?<K, V>, c: Chain<K, V>)
    reads c`next
  {
    && head == (if c == [] then null else c[0])
    && (forall i | 0 <= i < |c| - 1 :: c[i].next == c[i + 1])
    && (c != [] ==> c[|c| - 1].next == null)
  }

  lemma LinkedFirst<K, V>(he: Entry<K, V>, c: Chain<K, V>)
    requires Linked(he.next, c)
    ensures Linked(he, [he] + c)
  {
    assert forall i | 0 <= i < |c| :: ([he] + c)[i + 1] == c[i];
  }

  lemma LinkedHead<K, V>(head: Entry?<K, V>, c: Chain<K, V>)
    requires Linked(head, c)
    ensures head == if c == [] then null else c[0]
  {
  }

  /** Every end piece of a list is itself linked. */
  lemma LinkedSuffix<K, V>(head: Entry?<K, V>, c: Chain<K, V>, i: nat)
    requires i < |c| && Linked(head, c)
    ensures Linked(c[i], c[i..])
  {
    var d := c[i..];
    forall j | 0 <= j < |d| - 1
      ensures d[j].next == d[j + 1]
    {
      assert d[j] == c[i + j] && d[j + 1] == c[i + j + 1];
    }
  }

  lemma LinkedNull<K, V>(head: Entry?<K, V>, c: Chain<K, V>)
    requires Linked(head, c)
    ensures head == null <==> c == []
  {
  }

  /** Every end piece of a list hangs off the entry before it. */
  lemma LinkedRest<K, V>(head: Entry?<K, V>, c: Chain<K, V>, i: nat)
    requires i < |c| && Linked(head, c[i..])
    ensures head == c[i] && Linked(c[i].next, c[i + 1..])
    ensures c[i].next == null <==> i + 1 == |c|
  {
    var d := c[i..];
    assert d[0] == c[i];
    if |d| > 1 {
      assert d[0].next == d[1];
    }
    var rest := c[i + 1..];
    forall j | 0 <= j < |rest| - 1
      ensures rest[j].next == rest[j + 1]
    {
      assert d[j + 1].next == d[j + 2];
    }
  }

  ghost predicate NoDuplicate<T>(c: seq<T>) {
    forall i, j | 0 <= i < j < |c| :: c[i] != c[j]
  }

  /** The entries of a list, as a set. */
  ghost function Members<T>(c: seq<T>): set<T> {
    set e | e in c
  }

  /** A list with one of its entries taken out. */
  ghost function Without<T>(c: seq<T>, e: T): seq<T> {
    if c == [] then [] else if c[0] == e then c[1..] else [c[0]] + Without(c[1..], e)
  }

  lemma {:induction false} WithoutAt<T>(c: seq<T>, i: nat)
    requires i < |c| && NoDuplicate(c)
    ensures Without(c, c[i]) == c[..i] + c[i + 1..]
  {
    if i > 0 {
      WithoutAt(c[1..], i - 1);
      assert c[..i] == [c[0]] + c[1..][..i - 1];
    }
  }

  lemma {:induction false} MembersWithout<T>(c: seq<T>, e: T)
    requires NoDuplicate(c)
    ensures NoDuplicate(Without(c, e))
    ensures Members(Without(c, e)) == Members(c) - {e}
  {
    hide Without, NoDuplicate, Members;
    if e in c {
      var j :| 0 <= j < |c| && c[j] == e;
      WithoutAt(c, j);
      WithoutOne(c, j);
    } else {
      WithoutAbsent(c, e);
      NotMember(c, e);
    }
  }

  lemma NotMember<T>(c: seq<T>, e: T)
    requires e !in c
    ensures Members(c) == Members(c) - {e}
  {
  }

  lemma WithoutOne<T>(c: seq<T>, j: nat)
    requires NoDuplicate(c) && j < |c|
    ensures NoDuplicate(c[..j] + c[j + 1..])
    ensures Members(c[..j] + c[j + 1..]) == Members(c) - {c[j]}
  {
    var front, back := c[..j], c[j + 1..];
    assert forall i | 0 <= i < |front| :: front[i] == c[i];
    assert forall i | 0 <= i < |back| :: back[i] == c[i + j + 1];
    forall d | d in c && d != c[j]
      ensures d in front + back
    {
      var i :| 0 <= i < |c| && c[i] == d;
      assert if i < j then front[i] == d else back[i - j - 1] == d;
    }
  }

  lemma {:induction false} WithoutAbsent<T>(c: seq<T>, e: T)
    requires e !in c
    ensures Without(c, e) == c
  {
    if c != [] {
      WithoutAbsent(c[1..], e);
    }
  }

  /** An end piece that does not hold the entry is still an end piece once the entry is gone. */
  lemma {:induction false} WithoutSuffix<T>(c: seq<T>, e: T, n: nat)
    requires n <= |c| && e !in c[|c| - n..]
    ensures n <= |Without(c, e)| && Without(c, e)[|Without(c, e)| - n..] == c[|c| - n..]
  {
    if c != [] && n < |c| {
      assert c[1..][|c| - 1 - n..] == c[|c| - n..];
      if c[0] != e {
        WithoutSuffix(c[1..], e, n);
      }
    } else if c != [] {
      assert c[0] != e;
      WithoutAbsent(c, e);
    }
  }

  // ---------- Tables ----------

  /** The entries by their keys: hence no two entries have the same key. */
  type Index<K, V> = map<K, Entry<K, V>>

  ghost predicate Keyed<K, V>(index: Index<K, V>) {
    forall k | k in index :: index[k].key == k
  }

  ghost predicate Within<K, V>(part: Index<K, V>, index: Index<K, V>) {
    forall k | k in part :: k in index && part[k] == index[k]
  }

  lemma WithinCount<K, V>(part: Index<K, V>, index: Index<K, V>)
    requires Within(part, index)
    ensures |part| <= |index|
    ensures |part| == |index| ==> part == index
  {
    assert part.Keys <= index.Keys;
    SubsetCount(part.Keys, index.Keys);
  }

  lemma {:induction false} SubsetCount<T>(a: set<T>, b: set<T>)
    requires a <= b
    ensures |a| <= |b|
    ensures |a| == |b| ==> a == b
  {
    if a != {} {
      var x :| x in a;
      SubsetCount(a - {x}, b - {x});
      assert b == (b - {x}) + {x};
      assert a == (a - {x}) + {x};
    }
  }

  /** Every entry is in the list of its masked hash, once, and the lists hold no others. */
  ghost predicate Filed<K, V>(chains: seq<Chain<K, V>>, index: Index<K, V>, hash: K -> nat, mask: nat) {
    && |chains| == mask + 1
    && Keyed(index)
    && (forall b, e | 0 <= b < |chains| && e in chains[b] ::
          e.key in index && index[e.key] == e && And(hash(e.key), mask) == b)
    && (forall k | k in index :: And(hash(k), mask) < |chains| && index[k] in chains[And(hash(k), mask)])
    && (forall b | 0 <= b < |chains| :: NoDuplicate(chains[b]))
  }

  /** What `Filed` says of one bucket. */
  lemma FiledBucket<K, V>(chains: seq<Chain<K, V>>, index: Index<K, V>, hash: K -> nat, mask: nat, b: nat)
    requires Filed(chains, index, hash, mask) && b < |chains|
    ensures NoDuplicate(chains[b]) && Keyed(index)
    ensures forall e | e in chains[b] :: e.key in index && index[e.key] == e && And(hash(e.key), mask) == b
    ensures forall k | k in index :: index[k] in chains[b] <==> And(hash(k), mask) == b
  {
    hide And;
    forall k | k in index
      ensures index[k] in chains[b] <==> And(hash(k), mask) == b
    {
      assert index[k].key == k;
    }
  }

  lemma BucketsApart<K, V>(chains: seq<Chain<K, V>>, index: Index<K, V>, hash: K -> nat, mask: nat, b: nat)
    requires Filed(chains, index, hash, mask) && b < |chains|
    ensures forall c, e | 0 <= c < |chains| && c != b && e in chains[c] :: e !in chains[b]
  {
    forall c, e | 0 <= c < |chains| && c != b && e in chains[c]
      ensures e !in chains[b]
    {
      FiledBucket(chains, index, hash, mask, c);
      FiledBucket(chains, index, hash, mask, b);
    }
  }

  /** Every list hangs off its bucket. */
  ghost predicate Hangs<K, V>(table: array<Entry?<K, V>>, chains: seq<Chain<K, V>>, index: Index<K, V>)
    reads table, index.Values`next
  {
    && table.Length == |chains|
    && (forall b, e | 0 <= b < |chains| && e in chains[b] :: e in index.Values)
    && (forall b | 0 <= b < |chains| :: Linked(table[b], chains[b]))
  }

  /** A table under construction: it holds a part of the entries, and `left` counts the others. */
  ghost predicate Partial<K, V>(table: array<Entry?<K, V>>, chains: seq<Chain<K, V>>, part: Index<K, V>,
                                hash: K -> nat, mask: nat, index: Index<K, V>, left: int)
    reads table, part.Values`next
  {
    && Hangs(table, chains, part) && Filed(chains, part, hash, mask)
    && Within(part, index) && left == |index| - |part|
  }

  lemma StartPartial<K, V>(table: array<Entry?<K, V>>, chains: seq<Chain<K, V>>, hash: K -> nat, mask: nat, index: Index<K, V>)
    requires |chains| == mask + 1 == table.Length
    requires forall b | 0 <= b <= mask :: table[b] == null && chains[b] == []
    ensures Partial(table, chains, map[], hash, mask, index, |index|)
  {
  }
}
