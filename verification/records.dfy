/** JavaScript objects used as string-keyed dictionaries (`Record<string, V>`).
    A record is the sequence of its entries in insertion order, which is the
    order `for…in` and `Object.entries` visit them. */
module Records {
  import opened Wrappers
  import opened Strs

  type Record<V> = seq<(string, V)>

  function Keys<V>(r: Record<V>): (ks: seq<string>)
    ensures |ks| == |r|
    ensures forall i :: 0 <= i < |r| ==> ks[i] == r[i].0
  {
    seq(|r|, i requires 0 <= i < |r| => r[i].0)
  }

  lemma KeysCons<V>(e: (string, V), r: Record<V>)
    ensures Keys([e] + r) == [e.0] + Keys(r)
  {
    var a, b := Keys([e] + r), [e.0] + Keys(r);
    forall i | 0 <= i < |a| ensures a[i] == b[i] {
      if i > 0 { assert ([e] + r)[i] == r[i - 1]; }
    }
  }

  /** An object never holds the same key twice. */
  ghost predicate DistinctKeys<V>(r: Record<V>) {
    forall i, j :: 0 <= i < j < |r| ==> r[i].0 != r[j].0
  }

  /** `r[k]`, with None for `undefined`. */
  function Get<V>(r: Record<V>, k: string): (v: Option<V>)
    ensures v.Some? <==> k in Keys(r)
    ensures v.Some? ==> exists i :: 0 <= i < |r| && r[i] == (k, v.value)
    decreases |r|
  {
    if |r| == 0 then None
    else if r[0].0 == k then Some(r[0].1)
    else
      var v := Get(r[1..], k);
      SplitFirst(r, r[0]);
      KeysCons(r[0], r[1..]);
      if v.Some? then
        ghost var i :| 0 <= i < |r[1..]| && r[1..][i] == (k, v.value);
        assert r[i + 1] == (k, v.value);
        v
      else v
  }

  /** In an object without repeated keys, `r[k]` is the value stored at k. */
  lemma {:induction false} GetAt<V>(r: Record<V>, i: nat)
    requires DistinctKeys(r)
    requires i < |r|
    ensures Get(r, r[i].0) == Some(r[i].1)
  {
    if i > 0 {
      GetAt(r[1..], i - 1);
    }
  }

  /** `r[k] = v`: an existing key keeps its place, a new key goes last. */
  function Put<V>(r: Record<V>, k: string, v: V): (r': Record<V>)
    ensures Keys(r') == if k in Keys(r) then Keys(r) else Keys(r) + [k]
    decreases |r|
  {
    if |r| == 0 then [(k, v)]
    else if r[0].0 == k then [(k, v)] + r[1..]
    else
      var t := Put(r[1..], k, v);
      SplitFirst(r, r[0]);
      KeysCons(r[0], r[1..]);
      KeysCons(r[0], t);
      AppendAssoc([r[0].0], Keys(r[1..]), [k]);
      [r[0]] + t
  }

  /** After `r[k] = v`, reading k gives v and every other key is unchanged. */
  lemma {:induction false} PutGet<V>(r: Record<V>, k: string, v: V, k': string)
    ensures Get(Put(r, k, v), k') == if k' == k then Some(v) else Get(r, k')
    decreases |r|
  {
    if |r| > 0 && r[0].0 != k {
      PutGet(r[1..], k, v, k');
    }
  }

  /** Assignment never introduces a repeated key. */
  lemma PutDistinct<V>(r: Record<V>, k: string, v: V)
    requires DistinctKeys(r)
    ensures DistinctKeys(Put(r, k, v))
  {
    var r' := Put(r, k, v);
    var ks := Keys(r');
    forall i, j | 0 <= i < j < |r'| ensures r'[i].0 != r'[j].0 {
      assert ks[i] == r'[i].0 && ks[j] == r'[j].0;
      if k in Keys(r) {
        assert ks == Keys(r);
        assert r[i].0 != r[j].0;
      } else {
        assert ks == Keys(r) + [k];
        if j < |r| { assert r[i].0 != r[j].0; }
        else { assert ks[i] == Keys(r)[i]; }
      }
    }
  }
}
