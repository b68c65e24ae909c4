/** A Python dict from key strings to integer codes, as the ordered list of its
    items. Python dicts iterate in insertion order and never hold a key twice. */
module Dicts {

  datatype Option<T> = None | Some(value: T)

  /** One item of the dict: a key path such as "word/prime/female/adult" and its code. */
  datatype Entry = Entry(key: string, code: int)

  type Dict = seq<Entry>

  /** Every Python dict has this shape: no key occurs twice among its items. */
  ghost predicate KeysDistinct(d: Dict) {
    forall i, j :: 0 <= i < j < |d| ==> d[i].key != d[j].key
  }

  /** No two items carry the same code. */
  ghost predicate CodesDistinct(d: Dict) {
    forall i, j :: 0 <= i < j < |d| ==> d[i].code != d[j].code
  }

  /** `d[key]`: the code stored under `key`, or None where Python raises KeyError. */
  function Get(d: Dict, key: string): (r: Option<int>)
    ensures r.Some? <==> exists i :: 0 <= i < |d| && d[i].key == key
    ensures r.Some? ==> exists i :: 0 <= i < |d| && d[i] == Entry(key, r.value)
  {
    if d == [] then None
    else if d[0].key == key then Some(d[0].code)
    else
      var r := Get(d[1..], key);
      assert r.Some? ==> exists i :: 0 <= i < |d[1..]| && d[1..][i] == Entry(key, r.value);
      r
  }

  /** In a dict, the item at position i is what a lookup of its key finds. */
  lemma {:induction false} GetItem(d: Dict, i: int)
    requires KeysDistinct(d)
    requires 0 <= i < |d|
    ensures Get(d, d[i].key) == Some(d[i].code)
  {
    if i > 0 {
      assert d[0].key != d[i].key;
      assert KeysDistinct(d[1..]) by {
        forall a, b | 0 <= a < b < |d[1..]| ensures d[1..][a].key != d[1..][b].key {
          assert d[1..][a] == d[a + 1] && d[1..][b] == d[b + 1];
        }
      }
      assert d[1..][i - 1] == d[i];
      GetItem(d[1..], i - 1);
    }
  }

  /** Lookup in a dict is exactly membership of the item. */
  lemma GetIff(d: Dict, key: string, code: int)
    requires KeysDistinct(d)
    ensures Get(d, key) == Some(code) <==> Entry(key, code) in d
  {
    if Entry(key, code) in d {
      var i :| 0 <= i < |d| && d[i] == Entry(key, code);
      GetItem(d, i);
    }
  }

  /** A lookup in `a + b` tries `a` first, then `b`. */
  lemma {:induction false} GetAppend(a: Dict, b: Dict, key: string)
    ensures Get(a + b, key) == if Get(a, key).Some? then Get(a, key) else Get(b, key)
  {
    if a != [] {
      assert (a + b)[0] == a[0];
      assert (a + b)[1..] == a[1..] + b;
      GetAppend(a[1..], b, key);
    } else {
      assert a + b == b;
    }
  }

  /** The codes a lookup can return are the codes of the items. */
  lemma GetCode(d: Dict, key: string)
    requires Get(d, key).Some?
    ensures exists i :: 0 <= i < |d| && d[i].code == Get(d, key).value
  {
    var i :| 0 <= i < |d| && d[i] == Entry(key, Get(d, key).value);
  }

  /** Two item lists whose labels are pairwise different. */
  ghost predicate LabelsDisjoint(a: Dict, b: Dict) {
    forall i, j :: 0 <= i < |a| && 0 <= j < |b| ==> a[i].key != b[j].key
  }

  /** Two item lists whose codes are pairwise different. */
  ghost predicate CodesDisjoint(a: Dict, b: Dict) {
    forall i, j :: 0 <= i < |a| && 0 <= j < |b| ==> a[i].code != b[j].code
  }

  lemma KeysDistinctAppend(a: Dict, b: Dict)
    requires KeysDistinct(a) && KeysDistinct(b) && LabelsDisjoint(a, b)
    ensures KeysDistinct(a + b)
  {
    forall i, j | 0 <= i < j < |a + b| ensures (a + b)[i].key != (a + b)[j].key {
      if j < |a| {
        assert (a + b)[i] == a[i] && (a + b)[j] == a[j];
      } else if i < |a| {
        assert (a + b)[i] == a[i] && (a + b)[j] == b[j - |a|];
      } else {
        assert (a + b)[i] == b[i - |a|] && (a + b)[j] == b[j - |a|];
      }
    }
  }

  lemma CodesDistinctAppend(a: Dict, b: Dict)
    requires CodesDistinct(a) && CodesDistinct(b) && CodesDisjoint(a, b)
    ensures CodesDistinct(a + b)
  {
    forall i, j | 0 <= i < j < |a + b| ensures (a + b)[i].code != (a + b)[j].code {
      if j < |a| {
        assert (a + b)[i] == a[i] && (a + b)[j] == a[j];
      } else if i < |a| {
        assert (a + b)[i] == a[i] && (a + b)[j] == b[j - |a|];
      } else {
        assert (a + b)[i] == b[i - |a|] && (a + b)[j] == b[j - |a|];
      }
    }
  }

  lemma LabelsDisjointAppend(a: Dict, b: Dict, c: Dict)
    requires LabelsDisjoint(a, c) && LabelsDisjoint(b, c)
    ensures LabelsDisjoint(a + b, c)
  {
    forall i, j | 0 <= i < |a + b| && 0 <= j < |c| ensures (a + b)[i].key != c[j].key {
      if i < |a| { assert (a + b)[i] == a[i]; } else { assert (a + b)[i] == b[i - |a|]; }
    }
  }

  lemma LabelsDisjointAppendRight(a: Dict, b: Dict, c: Dict)
    requires LabelsDisjoint(a, b) && LabelsDisjoint(a, c)
    ensures LabelsDisjoint(a, b + c)
  {
    forall i, j | 0 <= i < |a| && 0 <= j < |b + c| ensures a[i].key != (b + c)[j].key {
      if j < |b| { assert (b + c)[j] == b[j]; } else { assert (b + c)[j] == c[j - |b|]; }
    }
  }

  /** Every code of `d` lies in `lo..hi`. */
  ghost predicate CodesWithin(d: Dict, lo: int, hi: int) {
    forall i :: 0 <= i < |d| ==> lo <= d[i].code <= hi
  }

  /** Some item of the dict has the code `c`. */
  ghost predicate HasCode(d: Dict, c: int) {
    exists i :: 0 <= i < |d| && d[i].code == c
  }

  /** No code of `d` is in `s`. */
  ghost predicate CodesAvoid(d: Dict, s: set<int>) {
    forall i :: 0 <= i < |d| ==> d[i].code !in s
  }

  lemma RangesSeparate(a: Dict, b: Dict, lo: int, mid: int, hi: int)
    requires CodesWithin(a, lo, mid) && CodesWithin(b, mid + 1, hi)
    ensures CodesDisjoint(a, b)
  {
  }

  lemma CodesAvoidAppend(a: Dict, b: Dict, s: set<int>)
    requires CodesAvoid(a, s) && CodesAvoid(b, s)
    ensures CodesAvoid(a + b, s)
  {
    forall i | 0 <= i < |a + b| ensures (a + b)[i].code !in s {
      if i < |a| { assert (a + b)[i] == a[i]; } else { assert (a + b)[i] == b[i - |a|]; }
    }
  }

  lemma CodesWithinWiden(a: Dict, lo: int, hi: int, lo': int, hi': int)
    requires CodesWithin(a, lo, hi) && lo' <= lo && hi <= hi'
    ensures CodesWithin(a, lo', hi')
  {
  }

  lemma CodesWithinAppend(a: Dict, b: Dict, lo: int, hi: int)
    requires CodesWithin(a, lo, hi) && CodesWithin(b, lo, hi)
    ensures CodesWithin(a + b, lo, hi)
  {
    forall i | 0 <= i < |a + b| ensures lo <= (a + b)[i].code <= hi {
      if i < |a| { assert (a + b)[i] == a[i]; } else { assert (a + b)[i] == b[i - |a|]; }
    }
  }
}
