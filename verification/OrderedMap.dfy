/**
 std::map with string keys, as the sequence of its entries in iteration order: strictly
 ascending by lexicographic comparison of the keys.
 */
module OrderedMap {
  import opened Options

  datatype Entry<V> = Entry(key: string, value: V)

  /** operator< of std::string. */
  predicate Less(a: string, b: string)
  {
    b != "" && (a == "" || a[0] < b[0] || (a[0] == b[0] && Less(a[1..], b[1..])))
  }

  lemma {:induction false} LessIsStrict(a: string, b: string)
    ensures !(Less(a, b) && Less(b, a))
    ensures Less(a, b) || Less(b, a) || a == b
    ensures !Less(a, a)
    decreases |a|
  {
    if a != "" {
      LessIsStrict(a[1..], a[1..]);
      if b != "" {
        LessIsStrict(a[1..], b[1..]);
        if a[0] == b[0] && a[1..] == b[1..] {
          assert a == [a[0]] + a[1..] && b == [b[0]] + b[1..];
        }
      }
    }
  }

  lemma {:induction false} LessIsTransitive(a: string, b: string, c: string)
    requires Less(a, b) && Less(b, c)
    ensures Less(a, c)
  {
    if a != "" && a[0] == b[0] == c[0] {
      LessIsTransitive(a[1..], b[1..], c[1..]);
    }
  }

  /** a and b agree up to their first difference, where a ends or has the smaller character. */
  ghost predicate Precedes(a: string, b: string) {
    exists n: nat :: PrecedesAt(a, b, n)
  }

  predicate PrecedesAt(a: string, b: string, n: nat) {
    n <= |a| && n < |b| && a[..n] == b[..n] && (n == |a| || a[n] < b[n])
  }

  lemma {:induction false} LessIsPrecedes(a: string, b: string)
    ensures Less(a, b) <==> Precedes(a, b)
  {
    if a != "" && b != "" {
      LessIsPrecedes(a[1..], b[1..]);
      if n: nat :| PrecedesAt(a, b, n) && n > 0 {
        assert a[..n][0] == b[..n][0] && a[..n][1..] == b[..n][1..];
        assert a[1..][..n - 1] == a[..n][1..] && b[1..][..n - 1] == b[..n][1..];
        assert PrecedesAt(a[1..], b[1..], n - 1);
      }
      if n: nat :| PrecedesAt(a[1..], b[1..], n) && a[0] == b[0] {
        assert a[..n + 1] == [a[0]] + a[1..][..n] && b[..n + 1] == [b[0]] + b[1..][..n];
        assert PrecedesAt(a, b, n + 1);
      }
      if a[0] < b[0] {
        assert a[..0] == b[..0];
        assert PrecedesAt(a, b, 0);
      }
    } else if b != "" {
      assert a[..0] == b[..0];
      assert PrecedesAt(a, b, 0);
    }
  }

  /** k is smaller than every key of s. */
  predicate Below<V>(k: string, s: seq<Entry<V>>) {
    forall i :: 0 <= i < |s| ==> Less(k, s[i].key)
  }

  predicate Sorted<V>(s: seq<Entry<V>>) {
    s == [] || (Below(s[0].key, s[1..]) && Sorted(s[1..]))
  }

  function Lookup<V>(s: seq<Entry<V>>, k: string): Option<V>
  {
    if s == [] then None else if s[0].key == k then Some(s[0].value) else Lookup(s[1..], k)
  }

  /** `m[k] = v` */
  function Put<V>(s: seq<Entry<V>>, k: string, v: V): seq<Entry<V>>
  {
    if s == [] then [Entry(k, v)]
    else if s[0].key == k then [Entry(k, v)] + s[1..]
    else if Less(k, s[0].key) then [Entry(k, v)] + s
    else [s[0]] + Put(s[1..], k, v)
  }

  lemma {:induction false} LookupBelow<V>(s: seq<Entry<V>>, k: string)
    requires Below(k, s)
    ensures Lookup(s, k) == None
  {
    if s != [] {
      LessIsStrict(k, k);
      LookupBelow(s[1..], k);
    }
  }

  lemma BelowAll<V>(k: string, s: seq<Entry<V>>)
    requires s != [] && Sorted(s) && (Less(k, s[0].key) || k == s[0].key)
    ensures Below(k, s[1..])
    ensures Less(k, s[0].key) ==> Below(k, s)
  {
    if Less(k, s[0].key) {
      forall i | 0 <= i < |s|
        ensures Less(k, s[i].key)
      {
        if i > 0 {
          assert s[i] == s[1..][i - 1];
          LessIsTransitive(k, s[0].key, s[i].key);
        }
      }
    }
  }

  /** Assignment changes the value of its key and nothing else, and keeps the order. */
  lemma {:induction false} PutFacts<V>(s: seq<Entry<V>>, k: string, v: V, j: string)
    requires Sorted(s)
    ensures Sorted(Put(s, k, v))
    ensures Lookup(Put(s, k, v), j) == if j == k then Some(v) else Lookup(s, j)
    ensures Below(j, s) && Less(j, k) ==> Below(j, Put(s, k, v))
  {
    var r := Put(s, k, v);
    if s == [] {
      assert r[1..] == [];
    } else if s[0].key == k || Less(k, s[0].key) {
      BelowAll(k, s);
      LessIsStrict(k, s[0].key);
      assert r[1..] == if s[0].key == k then s[1..] else s;
    } else {
      LessIsStrict(k, s[0].key);
      PutFacts(s[1..], k, v, j);
      PutFacts(s[1..], k, v, s[0].key);
      assert r[1..] == Put(s[1..], k, v);
      if Below(j, s) && Less(j, k) {
        assert forall i :: 0 <= i < |s[1..]| ==> s[1..][i] == s[i + 1];
        assert forall i :: 0 < i < |r| ==> r[i] == r[1..][i - 1];
      }
    }
  }

  /** The keys ascend. */
  lemma {:induction false} KeysAscend<V>(s: seq<Entry<V>>, i: nat, j: nat)
    requires Sorted(s) && i < j < |s|
    ensures Less(s[i].key, s[j].key)
  {
    if i == 0 {
      assert s[j] == s[1..][j - 1];
    } else {
      KeysAscend(s[1..], i - 1, j - 1);
    }
  }

  /** What is found under a key is the value of an entry with this key, and of no other. */
  lemma {:induction false} LookupIsEntry<V>(s: seq<Entry<V>>, k: string)
    requires Sorted(s)
    ensures forall v :: Lookup(s, k) == Some(v) <==> Entry(k, v) in s
  {
    if s != [] {
      LookupIsEntry(s[1..], k);
      LookupBelow(s[1..], s[0].key);
      assert s == [s[0]] + s[1..];
      if s[0].key == k {
        LessIsStrict(k, k);
      }
    }
  }

  /** The last entry, looked up separately. */
  lemma {:induction false} LookupLast<V>(s: seq<Entry<V>>, k: string)
    requires Sorted(s) && s != []
    ensures
      var n := |s| - 1;
      && Sorted(s[..n])
      && Lookup(s, k) == (if s[n].key == k then Some(s[n].value) else Lookup(s[..n], k))
      && (s[n].key == k ==> Lookup(s[..n], k) == None)
  {
    var n := |s| - 1;
    if n > 0 {
      LookupLast(s[1..], k);
      KeysAscend(s, 0, n);
      LessIsStrict(s[0].key, s[n].key);
      assert s[1..][..n - 1] == s[..n][1..];
    }
  }

  lemma HeadIsFound<V>(s: seq<Entry<V>>)
    ensures s != [] ==> Lookup(s, s[0].key) == Some(s[0].value)
  {
  }

  lemma FoundIsNotBelow<V>(s: seq<Entry<V>>, k: string)
    requires Sorted(s) && s != [] && Lookup(s, k).Some?
    ensures !Less(k, s[0].key)
  {
    if Less(k, s[0].key) {
      BelowAll(k, s);
      LookupBelow(s, k);
    }
  }

  lemma LookupTail<V>(s: seq<Entry<V>>, k: string)
    requires Sorted(s) && s != []
    ensures Lookup(s[1..], k) == if k == s[0].key then None else Lookup(s, k)
  {
    LookupBelow(s[1..], s[0].key);
  }

  /** The entries are determined by what the lookups return. */
  lemma {:induction false} SortedUnique<V>(s: seq<Entry<V>>, t: seq<Entry<V>>)
    requires Sorted(s) && Sorted(t)
    requires forall k :: Lookup(s, k) == Lookup(t, k)
    ensures s == t
  {
    HeadIsFound(s);
    HeadIsFound(t);
    if s != [] && t != [] {
      FoundIsNotBelow(t, s[0].key);
      FoundIsNotBelow(s, t[0].key);
      LessIsStrict(s[0].key, t[0].key);
      forall k
        ensures Lookup(s[1..], k) == Lookup(t[1..], k)
      {
        LookupTail(s, k);
        LookupTail(t, k);
      }
      SortedUnique(s[1..], t[1..]);
      assert s == [s[0]] + s[1..] && t == [t[0]] + t[1..];
    }
  }
}
