/** Runs of any operations on the hash table of `dict.c`, held to the same run on a finite map. */
module DictRuns {
  import opened ByteStrings
  import opened Dict

  datatype Op<K, V> = AddKey(key: K, val: V) | ReplaceKey(key: K, val: V) | DeleteKey(key: K) | FindKey(key: K)

  datatype Answer<V> = Status(ok: bool) | Found(val: Option<V>)

  /** What an operation does to a map, and what it answers. */
  function Apply<K(==), V>(m: map<K, V>, op: Op<K, V>): (map<K, V>, Answer<V>) {
    match op
    case AddKey(k, v) => if k in m then (m, Status(false)) else (m[k := v], Status(true))
    case ReplaceKey(k, v) => (m[k := v], Status(k !in m))
    case DeleteKey(k) => (m - {k}, Status(k in m))
    case FindKey(k) => (m, Found(if k in m then Some(m[k]) else None))
  }

  function ApplyAll<K(==), V>(m: map<K, V>, ops: seq<Op<K, V>>): (map<K, V>, seq<Answer<V>>) {
    if ops == [] then (m, [])
    else
      var (before, answers) := ApplyAll(m, ops[..|ops| - 1]);
      var (after, answer) := Apply(before, ops[|ops| - 1]);
      (after, answers + [answer])
  }

  method Perform<K(==,!new), V(!new)>(d: Dict<K, V>, op: Op<K, V>) returns (answer: Answer<V>)
    requires d.Valid()
    modifies d, d.Repr()
    ensures d.Valid() && fresh(d.Repr() - old(d.Repr()))
    ensures (d.Contents(), answer) == Apply(old(d.Contents()), op)
  {
    hide Dict.Valid;
    match op {
      case AddKey(k, v) =>
        var ok := d.Add(k, v);
        answer := Status(ok);
      case ReplaceKey(k, v) =>
        var added := d.Replace(k, v);
        answer := Status(added);
      case DeleteKey(k) =>
        var ok := d.Delete(k);
        answer := Status(ok);
      case FindKey(k) =>
        var e := d.Find(k);
        answer := Found(if e == null then None else Some(e.val));
    }
  }

  /** The operations one after another, on any table. */
  method PerformAll<K(==,!new), V(!new)>(d: Dict<K, V>, ops: seq<Op<K, V>>) returns (answers: seq<Answer<V>>)
    requires d.Valid()
    modifies d, d.Repr()
    ensures d.Valid() && fresh(d.Repr() - old(d.Repr()))
    ensures (d.Contents(), answers) == ApplyAll(old(d.Contents()), ops)
    decreases |ops|
  {
    hide Dict.Valid, Dict.Contents, Apply;
    if ops == [] {
      answers := [];
    } else {
      var before := PerformAll(d, ops[..|ops| - 1]);
      var answer := Perform(d, ops[|ops| - 1]);
      answers := before + [answer];
    }
  }

  /** Every run from the empty table answers like the map and ends with its contents. */
  method Run<K(==,!new), V(!new)>(hash: K -> nat, ops: seq<Op<K, V>>) returns (d: Dict<K, V>, answers: seq<Answer<V>>)
    ensures d.Valid()
    ensures (d.Contents(), answers) == ApplyAll(map[], ops)
  {
    d := new Dict(hash);
    answers := PerformAll(d, ops);
  }
}
