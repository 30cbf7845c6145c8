/**
 * A record `Record<string, string>` of the source, as an insertion-ordered
 * association list. Assigning `person[key] = value` keeps the position of an
 * existing key and appends a new one, as a JavaScript object does for
 * non-numeric keys.
 */
module Records {
  import opened Wrappers

  type Record = seq<(string, string)>

  /** The keys in enumeration order. */
  function Keys(r: Record): (ks: seq<string>)
    ensures |ks| == |r|
    ensures forall i :: 0 <= i < |r| ==> ks[i] == r[i].0
  {
    if r == [] then [] else [r[0].0] + Keys(r[1..])
  }

  predicate Distinct(ks: seq<string>) {
    forall i, j :: 0 <= i < j < |ks| ==> ks[i] != ks[j]
  }

  /** `person[k]`: the value bound to `k`, or `undefined`. */
  function Get(r: Record, k: string): Option<string> {
    if r == [] then None else if r[0].0 == k then Some(r[0].1) else Get(r[1..], k)
  }

  /** `person[k] = v`. */
  function Put(r: Record, k: string, v: string): (r': Record)
    ensures Get(r', k) == Some(v)
    ensures forall k' :: k' != k ==> Get(r', k') == Get(r, k')
    ensures Keys(r') == if k in Keys(r) then Keys(r) else Keys(r) + [k]
  {
    if r == [] then [(k, v)]
    else if r[0].0 == k then [(k, v)] + r[1..]
    else [r[0]] + Put(r[1..], k, v)
  }

  /** One `person[k] = v` after another, in the order of `kvs`. */
  function PutAll(r: Record, kvs: seq<(string, string)>): Record
    decreases |kvs|
  {
    if kvs == [] then r else PutAll(Put(r, kvs[0].0, kvs[0].1), kvs[1..])
  }

  /** The keys `ks`, followed by the keys of `more` not seen before, first occurrence first. */
  function Extend(ks: seq<string>, more: seq<string>): seq<string>
    decreases |more|
  {
    if more == [] then ks
    else Extend(if more[0] in ks then ks else ks + [more[0]], more[1..])
  }

  /** The value of the LAST pair of `kvs` with key `k`. */
  function LastValue(kvs: seq<(string, string)>, k: string): Option<string>
    decreases |kvs|
  {
    if kvs == [] then None
    else
      var later := LastValue(kvs[1..], k);
      if later.Some? then later
      else if kvs[0].0 == k then Some(kvs[0].1)
      else None
  }

  lemma {:induction false} LastValueSome(kvs: seq<(string, string)>, k: string)
    ensures LastValue(kvs, k).Some? <==> k in Keys(kvs)
  {
    if kvs != [] {
      LastValueSome(kvs[1..], k);
      assert Keys(kvs) == [kvs[0].0] + Keys(kvs[1..]);
    }
  }

  /**
   * The key order after a run of assignments depends only on the key order
   * before and the keys assigned: new keys go to the end, first time first.
   */
  lemma {:induction false} KeysPutAll(r: Record, kvs: seq<(string, string)>)
    ensures Keys(PutAll(r, kvs)) == Extend(Keys(r), Keys(kvs))
    decreases |kvs|
  {
    if kvs != [] {
      KeysPutAll(Put(r, kvs[0].0, kvs[0].1), kvs[1..]);
      assert Keys(kvs) == [kvs[0].0] + Keys(kvs[1..]);
    }
  }

  /** After a run of assignments the later assignment to a key wins. */
  lemma {:induction false} GetPutAll(r: Record, kvs: seq<(string, string)>, k: string)
    ensures Get(PutAll(r, kvs), k) == if LastValue(kvs, k).Some? then LastValue(kvs, k) else Get(r, k)
    decreases |kvs|
  {
    if kvs != [] {
      GetPutAll(Put(r, kvs[0].0, kvs[0].1), kvs[1..], k);
    }
  }

  /** Extending keeps the keys distinct and keeps the first ones in place. */
  lemma {:induction false} ExtendDistinct(ks: seq<string>, more: seq<string>)
    requires Distinct(ks)
    ensures Distinct(Extend(ks, more))
    ensures |Extend(ks, more)| >= |ks| && Extend(ks, more)[..|ks|] == ks
    decreases |more|
  {
    if more != [] {
      var next := if more[0] in ks then ks else ks + [more[0]];
      ExtendDistinct(next, more[1..]);
      assert next[..|ks|] == ks;
    }
  }

  /** When the assigned keys are distinct and new, they are appended as they come. */
  lemma {:induction false} ExtendFresh(ks: seq<string>, more: seq<string>)
    requires Distinct(more)
    requires forall k :: k in more ==> k !in ks
    ensures Extend(ks, more) == ks + more
    decreases |more|
  {
    if more != [] {
      assert more[0] in more;
      assert forall k :: k in more[1..] ==> k in more && k != more[0];
      ExtendFresh(ks + [more[0]], more[1..]);
      assert ks + [more[0]] + more[1..] == ks + more;
    }
  }

  /** `LastValue` is the value of the pair that no later pair with the same key follows. */
  lemma {:induction false} LastValueAt(kvs: seq<(string, string)>, k: string, j: nat)
    requires j < |kvs| && kvs[j].0 == k
    requires forall j' :: j < j' < |kvs| ==> kvs[j'].0 != k
    ensures LastValue(kvs, k) == Some(kvs[j].1)
    decreases |kvs|
  {
    if j == 0 {
      NoLaterValue(kvs[1..], k);
    } else {
      LastValueAt(kvs[1..], k, j - 1);
    }
  }

  lemma {:induction false} NoLaterValue(kvs: seq<(string, string)>, k: string)
    requires forall j :: 0 <= j < |kvs| ==> kvs[j].0 != k
    ensures LastValue(kvs, k) == None
    decreases |kvs|
  {
    if kvs != [] {
      NoLaterValue(kvs[1..], k);
    }
  }

  /** Assigning a key the record does not have appends it. */
  lemma {:induction false} PutNew(r: Record, k: string, v: string)
    requires k !in Keys(r)
    ensures Put(r, k, v) == r + [(k, v)]
  {
    if r != [] {
      assert Keys(r) == [r[0].0] + Keys(r[1..]);
      PutNew(r[1..], k, v);
      assert [r[0]] + (r[1..] + [(k, v)]) == r + [(k, v)];
    }
  }

  lemma SnocThenRest(r: Record, kvs: seq<(string, string)>)
    requires kvs != []
    ensures (r + [kvs[0]]) + kvs[1..] == r + kvs
  {
    assert kvs == [kvs[0]] + kvs[1..];
  }

  lemma DistinctTail(ks: seq<string>)
    requires ks != [] && Distinct(ks)
    ensures Distinct(ks[1..]) && ks[0] !in ks[1..]
  {
  }

  /** Assigning distinct new keys, one after another, appends the pairs as they come. */
  lemma {:induction false} PutAllFresh(r: Record, kvs: seq<(string, string)>)
    requires Distinct(Keys(kvs))
    requires forall k :: k in Keys(kvs) ==> k !in Keys(r)
    ensures PutAll(r, kvs) == r + kvs
    decreases |kvs|
  {
    if kvs != [] {
      var k := kvs[0].0;
      var ks := Keys(kvs);
      assert ks == [k] + Keys(kvs[1..]);
      DistinctTail(ks);
      assert k in ks;
      PutNew(r, k, kvs[0].1);
      var r' := r + [kvs[0]];
      assert Keys(r') == Keys(r) + [k];
      assert ks[1..] == Keys(kvs[1..]);
      forall k' | k' in Keys(kvs[1..])
        ensures k' !in Keys(r')
      {
        assert k' in ks;
        assert k' != k;
      }
      assert Put(r, kvs[0].0, kvs[0].1) == r';
      assert PutAll(r, kvs) == PutAll(r', kvs[1..]);
      PutAllFresh(r', kvs[1..]);
      SnocThenRest(r, kvs);
    } else {
      assert r + kvs == r;
    }
  }
}
