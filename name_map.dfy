/** A std::map<std::string, uint64_t>: an association list kept strictly
    increasing in the lexicographic byte order of its keys, which is the
    order in which the map iterates. */
module NameMap {
  import opened Base

  type Key = seq<byte>
  type Assoc = seq<(Key, nat)>

  /** std::string's operator<: byte-wise, a proper prefix first. */
  predicate LexLess(a: Key, b: Key)
    decreases |a|
  {
    if |a| == 0 then |b| > 0
    else if |b| == 0 then false
    else if a[0] != b[0] then a[0] < b[0]
    else LexLess(a[1..], b[1..])
  }

  lemma {:induction false} LexIrreflexive(a: Key)
    ensures !LexLess(a, a)
    decreases |a|
  {
    if |a| > 0 {
      LexIrreflexive(a[1..]);
    }
  }

  lemma {:induction false} LexTransitive(a: Key, b: Key, c: Key)
    requires LexLess(a, b) && LexLess(b, c)
    ensures LexLess(a, c)
    decreases |a|
  {
    if |a| > 0 && a[0] == b[0] && b[0] == c[0] {
      LexTransitive(a[1..], b[1..], c[1..]);
    }
  }

  lemma {:induction false} LexTotal(a: Key, b: Key)
    ensures a == b || LexLess(a, b) || LexLess(b, a)
    decreases |a|
  {
    if |a| > 0 && |b| > 0 && a[0] == b[0] {
      LexTotal(a[1..], b[1..]);
      if a[1..] == b[1..] {
        assert a == [a[0]] + a[1..] && b == [b[0]] + b[1..];
      }
    }
  }

  /** Keys strictly increase along the list. */
  ghost predicate Sorted(m: Assoc)
  {
    forall i, j :: 0 <= i < j < |m| ==> LexLess(m[i].0, m[j].0)
  }

  /** map::find: the value stored under k, if any. */
  function Lookup(m: Assoc, k: Key): (r: Option<nat>)
    ensures r.Some? <==> exists i :: 0 <= i < |m| && m[i].0 == k
    ensures r.Some? ==> exists i :: 0 <= i < |m| && m[i] == (k, r.value)
  {
    if |m| == 0 then None
    else if m[0].0 == k then Some(m[0].1)
    else
      var r := Lookup(m[1..], k);
      assert forall i :: 1 <= i < |m| ==> m[i] == m[1..][i - 1];
      r
  }

  /** map[k] = v: overwrite the value under k, or add k in key order. */
  function Insert(m: Assoc, k: Key, v: nat): (r: Assoc)
    ensures |r| == |m| || |r| == |m| + 1
  {
    if |m| == 0 then [(k, v)]
    else if m[0].0 == k then [(k, v)] + m[1..]
    else if LexLess(k, m[0].0) then [(k, v)] + m
    else [m[0]] + Insert(m[1..], k, v)
  }

  /** After m[k] = v, k maps to v and every other key keeps its value. */
  lemma {:induction false} LookupInsert(m: Assoc, k: Key, v: nat, k': Key)
    ensures Lookup(Insert(m, k, v), k') == if k' == k then Some(v) else Lookup(m, k')
    decreases |m|
  {
    if |m| > 0 && m[0].0 != k && !LexLess(k, m[0].0) {
      LookupInsert(m[1..], k, v, k');
    }
  }

  /** Every key of Insert(m, k, v) is k or a key of m. */
  lemma {:induction false} InsertKeys(m: Assoc, k: Key, v: nat, i: nat)
    requires i < |Insert(m, k, v)|
    ensures Insert(m, k, v)[i].0 == k || exists j :: 0 <= j < |m| && m[j].0 == Insert(m, k, v)[i].0
    decreases |m|
  {
    var r := Insert(m, k, v);
    if |m| > 0 {
      if m[0].0 == k {
        if i > 0 {
          assert r[i] == m[i];
        }
      } else if LexLess(k, m[0].0) {
        if i > 0 {
          assert r[i] == m[i - 1];
        }
      } else if i > 0 {
        InsertKeys(m[1..], k, v, i - 1);
        var j :| (0 <= j < |m[1..]| && m[1..][j].0 == r[i].0) || r[i].0 == k;
        if r[i].0 != k {
          assert m[j + 1].0 == r[i].0;
        }
      }
    }
  }

  /** Insertion keeps the keys strictly increasing. */
  lemma {:induction false} InsertSorted(m: Assoc, k: Key, v: nat)
    requires Sorted(m)
    ensures Sorted(Insert(m, k, v))
    decreases |m|
  {
    if |m| == 0 {
    } else if m[0].0 == k {
      assert forall i :: 1 <= i < |Insert(m, k, v)| ==> Insert(m, k, v)[i] == m[i];
    } else if LexLess(k, m[0].0) {
      FrontSorted(m, k, v);
    } else {
      LexTotal(k, m[0].0);
      var rest := Insert(m[1..], k, v);
      TailSorted(m);
      InsertSorted(m[1..], k, v);
      forall j | 0 <= j < |rest|
        ensures rest[j].0 == k || exists l :: 0 <= l < |m[1..]| && m[1..][l].0 == rest[j].0
      {
        InsertKeys(m[1..], k, v, j);
      }
      ConsSorted(m, k, rest);
    }
  }

  lemma TailSorted(m: Assoc)
    requires Sorted(m) && |m| > 0
    ensures Sorted(m[1..])
  {
    forall i, j | 0 <= i < j < |m[1..]|
      ensures LexLess(m[1..][i].0, m[1..][j].0)
    {
      assert m[1..][i] == m[i + 1] && m[1..][j] == m[j + 1];
    }
  }

  /** A key below the first key goes in front. */
  lemma FrontSorted(m: Assoc, k: Key, v: nat)
    requires Sorted(m) && |m| > 0 && LexLess(k, m[0].0)
    ensures Sorted([(k, v)] + m)
  {
    var r := [(k, v)] + m;
    forall i, j | 0 <= i < j < |r|
      ensures LexLess(r[i].0, r[j].0)
    {
      if i == 0 {
        if j > 1 {
          LexTransitive(k, m[0].0, m[j - 1].0);
        }
      } else {
        assert r[i] == m[i - 1] && r[j] == m[j - 1];
      }
    }
  }

  /** The first pair, then the sorted insertion into the rest, whose keys
      are k (above the first key) or keys of the rest. */
  lemma ConsSorted(m: Assoc, k: Key, rest: Assoc)
    requires Sorted(m) && |m| > 0 && LexLess(m[0].0, k) && Sorted(rest)
    requires forall j :: 0 <= j < |rest| ==>
               rest[j].0 == k || exists l :: 0 <= l < |m[1..]| && m[1..][l].0 == rest[j].0
    ensures Sorted([m[0]] + rest)
  {
    var r := [m[0]] + rest;
    forall i, j | 0 <= i < j < |r|
      ensures LexLess(r[i].0, r[j].0)
    {
      if i == 0 {
        assert r[j] == rest[j - 1];
        if rest[j - 1].0 != k {
          var l :| 0 <= l < |m[1..]| && m[1..][l].0 == rest[j - 1].0;
          assert m[l + 1].0 == rest[j - 1].0;
        }
      } else {
        assert r[i] == rest[i - 1] && r[j] == rest[j - 1];
      }
    }
  }

  /** A key beyond every key of m is appended at the end. */
  lemma {:induction false} InsertGreatest(m: Assoc, k: Key, v: nat)
    requires forall i :: 0 <= i < |m| ==> LexLess(m[i].0, k)
    ensures Insert(m, k, v) == m + [(k, v)]
    decreases |m|
  {
    if |m| > 0 {
      LexIrreflexive(k);
      assert m[0].0 != k;
      if LexLess(k, m[0].0) {
        LexTransitive(k, m[0].0, k);
        LexIrreflexive(k);
      }
      InsertGreatest(m[1..], k, v);
      assert m == [m[0]] + m[1..];
    }
  }

  /** Inserting the pairs of a sorted list in order, as deserialise does,
      rebuilds the list. */
  function InsertAll(m: Assoc, pairs: Assoc): Assoc
    decreases |pairs|
  {
    if |pairs| == 0 then m else InsertAll(Insert(m, pairs[0].0, pairs[0].1), pairs[1..])
  }

  lemma {:induction false} InsertAllSorted(m: Assoc, pairs: Assoc)
    requires Sorted(m + pairs)
    ensures InsertAll(m, pairs) == m + pairs
    decreases |pairs|
  {
    if |pairs| > 0 {
      var k, v := pairs[0].0, pairs[0].1;
      forall i | 0 <= i < |m|
        ensures LexLess(m[i].0, k)
      {
        assert (m + pairs)[i] == m[i] && (m + pairs)[|m|] == pairs[0];
      }
      InsertGreatest(m, k, v);
      assert m + [(k, v)] + pairs[1..] == m + pairs;
      InsertAllSorted(m + [(k, v)], pairs[1..]);
    }
  }
}
