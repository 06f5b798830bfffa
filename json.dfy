/** The decoded JSON value a response validator inspects. */
module JsonValues {
  import opened Wrappers

  /** A decoded JSON value. A dict is its list of entries in insertion
      order, as a Python dict keeps them; strings, numbers and booleans are
      never looked into by the validator, so they are one scalar case. */
  datatype Json =
    | JObj(fields: seq<(string, Json)>)
    | JArr(items: seq<Json>)
    | JScalar
    | JNull

  /** No key occurs twice, which holds of every dict a JSON decoder returns. */
  predicate UniqueKeys(fields: seq<(string, Json)>)
  {
    forall i, j :: 0 <= i < j < |fields| ==> fields[i].0 != fields[j].0
  }

  /** `key in d` followed by `d[key]`: the value of the first entry with that key. */
  function Lookup(fields: seq<(string, Json)>, key: string): (r: Option<Json>)
    ensures r.None? <==> forall i :: 0 <= i < |fields| ==> fields[i].0 != key
    ensures r.Some? ==> exists i :: 0 <= i < |fields| && fields[i] == (key, r.value) &&
                                   forall j :: 0 <= j < i ==> fields[j].0 != key
  {
    if fields == [] then None
    else if fields[0].0 == key then Some(fields[0].1)
    else
      var r := Lookup(fields[1..], key);
      assert r.Some? ==> exists i :: 0 <= i < |fields[1..]| && fields[1..][i] == (key, r.value) &&
                                   forall j :: 0 <= j < i ==> fields[1..][j].0 != key;
      r
  }

  /** In a dict without repeated keys, every key finds its own entry. */
  lemma {:induction false} LookupUnique(fields: seq<(string, Json)>, i: nat)
    requires UniqueKeys(fields) && i < |fields|
    ensures Lookup(fields, fields[i].0) == Some(fields[i].1)
  {
  }

  /** Entries appended after a key is already present do not change its value. */
  lemma {:induction false} LookupAppend(fields: seq<(string, Json)>, extra: seq<(string, Json)>, key: string)
    requires Lookup(fields, key).Some?
    ensures Lookup(fields + extra, key) == Lookup(fields, key)
  {
    if fields[0].0 != key {
      assert (fields + extra)[1..] == fields[1..] + extra;
      LookupAppend(fields[1..], extra, key);
    }
  }

  /** Entries around a dict's fields that do not carry the key, before or
      after them, do not change its lookup, present or absent. */
  lemma {:induction false} LookupAmong(pre: seq<(string, Json)>, f: seq<(string, Json)>,
                                       post: seq<(string, Json)>, key: string)
    requires forall i :: 0 <= i < |pre| ==> pre[i].0 != key
    requires forall i :: 0 <= i < |post| ==> post[i].0 != key
    ensures Lookup(pre + f + post, key) == Lookup(f, key)
  {
    if pre == [] {
      assert pre + f + post == f + post;
      if Lookup(f, key).Some? {
        LookupAppend(f, post, key);
      } else {
        forall i | 0 <= i < |f + post| ensures (f + post)[i].0 != key {
          if i >= |f| {
            assert (f + post)[i] == post[i - |f|];
          }
        }
      }
    } else {
      assert (pre + f + post)[1..] == pre[1..] + f + post;
      LookupAmong(pre[1..], f, post, key);
    }
  }
}
