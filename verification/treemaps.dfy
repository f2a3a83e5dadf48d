/** `java.util.TreeMap<String, Integer>` as a sorted association list: keys
    ascend in `String.compareTo` order, so iterating the list is iterating
    the map's entry set. */
module TreeMaps {
  import opened Results

  /** `a.compareTo(b) < 0`: compare UTF-16 code units from the left; on a
      common prefix the shorter string comes first. */
  predicate Less(a: string, b: string)
    decreases |a|
  {
    if |a| == 0 then |b| > 0
    else if |b| == 0 then false
    else if a[0] != b[0] then a[0] < b[0]
    else Less(a[1..], b[1..])
  }

  lemma {:induction false} LessIrreflexive(a: string)
    ensures !Less(a, a)
    decreases |a|
  {
    if |a| > 0 {
      LessIrreflexive(a[1..]);
    }
  }

  lemma {:induction false} LessTotal(a: string, b: string)
    ensures a == b || Less(a, b) || Less(b, a)
    decreases |a|
  {
    if |a| > 0 && |b| > 0 && a[0] == b[0] {
      LessTotal(a[1..], b[1..]);
      if a[1..] == b[1..] {
        assert a == [a[0]] + a[1..] && b == [b[0]] + b[1..];
      }
    }
  }

  lemma {:induction false} LessAsymmetric(a: string, b: string)
    ensures !(Less(a, b) && Less(b, a))
    decreases |a|
  {
    if |a| > 0 && |b| > 0 && a[0] == b[0] {
      LessAsymmetric(a[1..], b[1..]);
    }
  }

  lemma {:induction false} LessTransitive(a: string, b: string, c: string)
    requires Less(a, b) && Less(b, c)
    ensures Less(a, c)
    decreases |a|
  {
    if |a| > 0 && |b| > 0 && |c| > 0 && a[0] == b[0] && b[0] == c[0] {
      LessTransitive(a[1..], b[1..], c[1..]);
    }
  }

  type TreeMap = seq<(string, int)>

  /** Neighbouring keys ascend strictly. */
  predicate Sorted(m: TreeMap)
    decreases |m|
  {
    |m| <= 1 || (Less(m[0].0, m[1].0) && Sorted(m[1..]))
  }

  function Keys(m: TreeMap): set<string>
    decreases |m|
  {
    if m == [] then {} else {m[0].0} + Keys(m[1..])
  }

  /** TreeMap.get: the value stored under k, if any. */
  function Get(m: TreeMap, k: string): Option<int>
    decreases |m|
  {
    if m == [] then None
    else if m[0].0 == k then Some(m[0].1)
    else Get(m[1..], k)
  }

  /** A key is found exactly when it is one of the keys. */
  lemma {:induction false} GetIffKey(m: TreeMap, k: string)
    ensures Get(m, k).Some? <==> k in Keys(m)
    decreases |m|
  {
    if m != [] && m[0].0 != k {
      GetIffKey(m[1..], k);
    }
  }

  /** TreeMap.put: insert in key order, or replace the value of an existing key. */
  function Put(m: TreeMap, k: string, v: int): (r: TreeMap)
    ensures |r| > 0 && (r[0].0 == k || (|m| > 0 && r[0] == m[0]))
    ensures Sorted(m) ==> Sorted(r)
    ensures forall k' {:trigger Get(r, k')} :: Get(r, k') == if k' == k then Some(v) else Get(m, k')
    ensures Keys(r) == Keys(m) + {k}
    decreases |m|
  {
    if m == [] then [(k, v)]
    else if m[0].0 == k then [(k, v)] + m[1..]
    else if Less(k, m[0].0) then [(k, v)] + m
    else
      LessTotal(k, m[0].0);
      var rest := Put(m[1..], k, v);
      assert ([m[0]] + rest)[1..] == rest;
      [m[0]] + rest
  }

  /** In a sorted map every earlier key is below every later key, so no key repeats. */
  lemma {:induction false} SortedStrictly(m: TreeMap, i: int, j: int)
    requires Sorted(m) && 0 <= i < j < |m|
    ensures Less(m[i].0, m[j].0) && m[i].0 != m[j].0
    decreases |m|
  {
    if i == 0 {
      if j == 1 {
      } else {
        SortedStrictly(m[1..], 0, j - 1);
        LessTransitive(m[0].0, m[1].0, m[j].0);
      }
    } else {
      SortedStrictly(m[1..], i - 1, j - 1);
    }
    LessIrreflexive(m[i].0);
  }
}
