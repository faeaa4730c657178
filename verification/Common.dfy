/** Small datatypes and sequence facts that every other module uses. */
module Common {

  datatype Option<+T> = None | Some(value: T)

  /** The source's `(value, error)` returns. */
  datatype Result<+T, +E> = Ok(value: T) | Err(error: E)

  /** The elements of a sequence, as a set. */
  function Elements<T(==)>(s: seq<T>): set<T> {
    set x | x in s
  }

  ghost predicate Distinct<T>(s: seq<T>) {
    forall i, j :: 0 <= i < j < |s| ==> s[i] != s[j]
  }

  lemma {:induction false} DistinctSize<T>(s: seq<T>)
    requires Distinct(s)
    ensures |Elements(s)| == |s|
  {
    if s == [] {
    } else {
      var n := |s| - 1;
      DistinctSize(s[..n]);
      assert Elements(s) == Elements(s[..n]) + {s[n]};
      assert s[n] !in Elements(s[..n]);
    }
  }

  lemma {:induction false} SubsetSize<T>(a: set<T>, b: set<T>)
    requires a <= b
    ensures |a| <= |b|
  {
    if a == {} {
    } else {
      var x :| x in a;
      SubsetSize(a - {x}, b - {x});
    }
  }

  /** One step of a loop that visits a set element by element and collects those in `held`. */
  lemma VisitOne<T>(held: set<T>, pending: set<T>, removed: set<T>, x: T)
    requires x in pending && removed == held - pending
    ensures x in held ==> removed + {x} == held - (pending - {x}) && |removed + {x}| == |removed| + 1
    ensures x !in held ==> removed == held - (pending - {x})
  {
  }

  lemma SomeElement<T>(s: set<T>) returns (x: T)
    requires s != {}
    ensures x in s
  {
    x :| x in s;
  }

  /** Two maps agree on every key outside `keys`. */
  ghost predicate SameBut<K, V>(before: map<K, V>, after: map<K, V>, keys: set<K>) {
    before - keys == after - keys
  }

  lemma SameButMeans<K, V>(before: map<K, V>, after: map<K, V>, keys: set<K>, k: K)
    requires SameBut(before, after, keys) && k !in keys
    ensures (k in before <==> k in after) && (k in before ==> after[k] == before[k])
  {
    assert k in before <==> k in before - keys;
    assert k in after <==> k in after - keys;
    if k in before {
      assert (before - keys)[k] == (after - keys)[k];
    }
  }
}
