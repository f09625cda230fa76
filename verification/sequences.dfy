/** Generic sequence operations behind the query interfaces: a filter, an
    offset/limit window, and a descending sort
    on an integer key, with the facts the queries need about each. */
module Sequences {
  import opened Base

  /** Keeps exactly the elements satisfying `p`, with their original
      multiplicity (a SQL `WHERE`). */
  function Filter<T(!new)>(s: seq<T>, p: T -> bool): (r: seq<T>)
    ensures |r| <= |s|
    ensures forall x :: x in r <==> x in s && p(x)
    ensures forall x :: p(x) ==> multiset(r)[x] == multiset(s)[x]
    ensures forall x :: !p(x) ==> multiset(r)[x] == 0
  {
    if s == [] then []
    else
      assert s == [s[0]] + s[1..];
      (if p(s[0]) then [s[0]] else []) + Filter(s[1..], p)
  }

  /** The window `[skip, skip + limit)` of `s`, cut short at its end
      (a SQL `OFFSET skip LIMIT limit`). */
  function Page<T>(s: seq<T>, skip: nat, limit: nat): (r: seq<T>)
    ensures |r| == if skip >= |s| then 0 else Min(limit, |s| - skip)
    ensures forall i :: 0 <= i < |r| ==> r[i] == s[skip + i]
    ensures forall x :: x in r ==> x in s
  {
    if skip >= |s| then [] else s[skip..Min(skip + limit, |s|)]
  }

  /** A page of an ordered sequence is ordered. */
  lemma PageKeepsOrder<T>(s: seq<T>, skip: nat, limit: nat, key: T -> int)
    requires NonIncreasing(s, key)
    ensures NonIncreasing(Page(s, skip, limit), key)
  {
    var r := Page(s, skip, limit);
    forall i, j | 0 <= i < j < |r|
      ensures key(r[i]) >= key(r[j])
    {
      assert r[i] == s[skip + i] && r[j] == s[skip + j];
    }
  }

  /** Two adjacent pages are the page that spans both: paging neither
      skips nor repeats an element. */
  lemma PagesAdjoin<T>(s: seq<T>, skip: nat, a: nat, b: nat)
    ensures Page(s, skip, a) + Page(s, skip + a, b) == Page(s, skip, a + b)
  {
    var left, right, whole := Page(s, skip, a), Page(s, skip + a, b), Page(s, skip, a + b);
    assert |left + right| == |whole|;
    forall i | 0 <= i < |whole|
      ensures (left + right)[i] == whole[i]
    {
      if i < |left| {
      } else {
        assert (left + right)[i] == right[i - |left|];
      }
    }
  }

  /** A page at least as long as the sequence, from offset 0, is all of it. */
  lemma WholePage<T>(s: seq<T>, limit: nat)
    requires |s| <= limit
    ensures Page(s, 0, limit) == s
  {
  }

  /** `s` is ordered by non-increasing `key` (most recent first). */
  predicate NonIncreasing<T>(s: seq<T>, key: T -> int)
  {
    forall i, j :: 0 <= i < j < |s| ==> key(s[i]) >= key(s[j])
  }

  /** No element of `t` has a key above `v`. */
  predicate KeysAtMost<T>(v: int, t: seq<T>, key: T -> int)
  {
    forall j :: 0 <= j < |t| ==> key(t[j]) <= v
  }

  /** A head whose key bounds a non-increasing tail makes a non-increasing
      sequence. */
  lemma ConsNonIncreasing<T>(h: T, t: seq<T>, key: T -> int)
    requires NonIncreasing(t, key) && KeysAtMost(key(h), t, key)
    ensures NonIncreasing([h] + t, key)
  {
    forall i, j | 0 <= i < j < |t| + 1
      ensures key(([h] + t)[i]) >= key(([h] + t)[j])
    {
      assert ([h] + t)[j] == t[j - 1];
      if i > 0 {
        assert ([h] + t)[i] == t[i - 1];
      }
    }
  }

  /** The tail of a non-increasing sequence is non-increasing and bounded by
      the head. */
  lemma TailNonIncreasing<T>(s: seq<T>, key: T -> int)
    requires |s| > 0 && NonIncreasing(s, key)
    ensures NonIncreasing(s[1..], key) && KeysAtMost(key(s[0]), s[1..], key)
  {
    forall i, j | 0 <= i < j < |s| - 1
      ensures key(s[1..][i]) >= key(s[1..][j])
    {
      assert s[1..][i] == s[i + 1] && s[1..][j] == s[j + 1];
    }
    forall j | 0 <= j < |s| - 1
      ensures key(s[1..][j]) <= key(s[0])
    {
      assert s[1..][j] == s[j + 1];
    }
  }

  /** The bound of a sequence holds for every element of its multiset. */
  lemma KeysAtMostMember<T>(v: int, t: seq<T>, key: T -> int, y: T)
    requires KeysAtMost(v, t, key) && y in multiset(t)
    ensures key(y) <= v
  {
    var j :| 0 <= j < |t| && t[j] == y;
  }

  /** Inserts `x` in front of the first element whose key does not exceed
      its own, so `x` precedes any element with an equal key. */
  function InsertDesc<T>(x: T, s: seq<T>, key: T -> int): (r: seq<T>)
    requires NonIncreasing(s, key)
    ensures NonIncreasing(r, key)
    ensures multiset(r) == multiset(s) + multiset{x}
  {
    if s == [] then
      [x]
    else if key(s[0]) <= key(x) then
      TailNonIncreasing(s, key);
      assert KeysAtMost(key(x), s, key) by {
        forall j | 0 <= j < |s|
          ensures key(s[j]) <= key(x)
        {
          if j > 0 {
            assert s[1..][j - 1] == s[j];
          }
        }
      }
      ConsNonIncreasing(x, s, key);
      [x] + s
    else
      TailNonIncreasing(s, key);
      var rest := InsertDesc(x, s[1..], key);
      assert KeysAtMost(key(s[0]), rest, key) by {
        forall j | 0 <= j < |rest|
          ensures key(rest[j]) <= key(s[0])
        {
          assert rest[j] in multiset(rest);
          if rest[j] != x {
            KeysAtMostMember(key(s[0]), s[1..], key, rest[j]);
          }
        }
      }
      ConsNonIncreasing(s[0], rest, key);
      assert s == [s[0]] + s[1..];
      [s[0]] + rest
  }

  /** An insertion sort on non-increasing `key`. */
  function SortDesc<T>(s: seq<T>, key: T -> int): (r: seq<T>)
    ensures NonIncreasing(r, key)
    ensures multiset(r) == multiset(s)
  {
    if s == [] then []
    else
      assert s == [s[0]] + s[1..];
      InsertDesc(s[0], SortDesc(s[1..], key), key)
  }

  /** The keys of `s`, position by position. */
  function Keys<T>(s: seq<T>, key: T -> int): (r: seq<int>)
    ensures |r| == |s|
  {
    if s == [] then [] else [key(s[0])] + Keys(s[1..], key)
  }

  /** The key sequence holds each element's key at its position. */
  lemma {:induction false} KeyAt<T>(s: seq<T>, key: T -> int, i: nat)
    requires i < |s|
    ensures Keys(s, key)[i] == key(s[i])
    decreases i
  {
    if i > 0 {
      KeyAt(s[1..], key, i - 1);
    }
  }

  /** Removing the element at `j` removes one occurrence of it. */
  lemma MultisetRemoveAt<T>(t: seq<T>, j: nat)
    requires j < |t|
    ensures multiset(t[..j] + t[j + 1..]) == multiset(t) - multiset{t[j]}
    ensures multiset(t) == multiset(t[..j] + t[j + 1..]) + multiset{t[j]}
  {
    assert t == t[..j] + [t[j]] + t[j + 1..];
    assert multiset(t) == multiset(t[..j]) + multiset{t[j]} + multiset(t[j + 1..]);
  }

  /** Dropping the head removes one occurrence of it. */
  lemma MultisetTail<T>(t: seq<T>)
    requires |t| > 0
    ensures multiset(t[1..]) == multiset(t) - multiset{t[0]}
    ensures multiset(t) == multiset(t[1..]) + multiset{t[0]}
  {
    assert t == [t[0]] + t[1..];
    assert multiset(t) == multiset{t[0]} + multiset(t[1..]);
  }

  /** An element added to both sides of a multiset equation cancels. */
  lemma Cancel<T>(a: multiset<T>, b: multiset<T>, x: T)
    requires a + multiset{x} == b + multiset{x}
    ensures a == b
  {
    assert a == (a + multiset{x}) - multiset{x};
    assert b == (b + multiset{x}) - multiset{x};
  }

  /** Keys commute with concatenation. */
  lemma {:induction false} KeysOfConcat<T>(a: seq<T>, b: seq<T>, key: T -> int)
    ensures Keys(a + b, key) == Keys(a, key) + Keys(b, key)
    decreases |a|
  {
    if a == [] {
      assert a + b == b;
    } else {
      assert (a + b)[1..] == a[1..] + b;
      KeysOfConcat(a[1..], b, key);
    }
  }

  /** A sequence is its prefix before `j`, its element at `j`, and the rest. */
  lemma SplitAt<T>(t: seq<T>, j: nat)
    requires j < |t|
    ensures t == t[..j] + ([t[j]] + t[j + 1..])
  {
    assert t[..j] + ([t[j]] + t[j + 1..]) == t[..j] + t[j..];
  }

  /** Inserting `x` anywhere adds exactly its key to the multiset of keys. */
  lemma KeysMultisetInsert<T>(a: seq<T>, x: T, b: seq<T>, key: T -> int)
    ensures multiset(Keys(a + ([x] + b), key)) == multiset(Keys(a + b, key)) + multiset{key(x)}
  {
    KeysOfConcat(a, [x] + b, key);
    KeysOfConcat([x], b, key);
    KeysOfConcat(a, b, key);
    var ka, kb := Keys(a, key), Keys(b, key);
    assert Keys([x], key) == [key(x)];
    assert multiset(ka + ([key(x)] + kb)) == multiset(ka) + multiset{key(x)} + multiset(kb);
  }

  /** The keys of `t` are those of `t` without its element at `j`, plus that
      element's key. */
  lemma KeysMultisetRemoveAt<T>(t: seq<T>, j: nat, key: T -> int)
    requires j < |t|
    ensures multiset(Keys(t, key)) == multiset(Keys(t[..j] + t[j + 1..], key)) + multiset{key(t[j])}
  {
    SplitAt(t, j);
    KeysMultisetInsert(t[..j], t[j], t[j + 1..], key);
  }

  /** Permuting a sequence permutes its keys. */
  lemma {:induction false} KeysOfPermutation<T>(s: seq<T>, t: seq<T>, key: T -> int)
    requires multiset(s) == multiset(t)
    ensures multiset(Keys(s, key)) == multiset(Keys(t, key))
    decreases |s|
  {
    if s == [] {
      assert |t| == |multiset(t)| == 0;
    } else {
      assert s[0] in multiset(t);
      var j :| 0 <= j < |t| && t[j] == s[0];
      var t' := t[..j] + t[j + 1..];
      MultisetTail(s);
      MultisetRemoveAt(t, j);
      Cancel(multiset(s[1..]), multiset(t'), s[0]);
      KeysOfPermutation(s[1..], t', key);
      KeysMultisetRemoveAt(t, j, key);
      assert Keys(s, key) == [key(s[0])] + Keys(s[1..], key);
    }
  }

  /** `a` is a non-increasing sequence of integers. */
  predicate Descending(a: seq<int>)
  {
    forall i, j :: 0 <= i < j < |a| ==> a[i] >= a[j]
  }

  /** The head of a non-increasing sequence is its largest element. */
  lemma DescendingHeadIsMax(a: seq<int>, v: int)
    requires Descending(a) && v in multiset(a)
    ensures a[0] >= v
  {
    var j :| 0 <= j < |a| && a[j] == v;
  }

  /** Dropping the head of a non-increasing sequence leaves one. */
  lemma DescendingTail(a: seq<int>)
    requires |a| > 0 && Descending(a)
    ensures Descending(a[1..])
  {
    forall i, j | 0 <= i < j < |a| - 1
      ensures a[1..][i] >= a[1..][j]
    {
      assert a[1..][i] == a[i + 1] && a[1..][j] == a[j + 1];
    }
  }

  /** Two non-increasing arrangements of one multiset start with the same
      element, its maximum. */
  lemma HeadsAgree(a: seq<int>, b: seq<int>)
    requires |a| > 0 && multiset(a) == multiset(b)
    requires Descending(a) && Descending(b)
    ensures |b| > 0 && a[0] == b[0]
  {
    assert a[0] in multiset(a);
    assert |b| == |multiset(b)| == |multiset(a)| == |a|;
    assert b[0] in multiset(b);
    DescendingHeadIsMax(b, a[0]);
    DescendingHeadIsMax(a, b[0]);
  }

  /** A multiset of integers has exactly one non-increasing arrangement. */
  lemma {:induction false} DescendingUnique(a: seq<int>, b: seq<int>)
    requires multiset(a) == multiset(b)
    requires Descending(a) && Descending(b)
    ensures a == b
    decreases |a|
  {
    if a == [] {
      assert |b| == |multiset(b)| == 0;
    } else {
      HeadsAgree(a, b);
      MultisetTail(a);
      MultisetTail(b);
      DescendingTail(a);
      DescendingTail(b);
      DescendingUnique(a[1..], b[1..]);
      assert a == [a[0]] + a[1..];
      assert b == [b[0]] + b[1..];
    }
  }

  /** The keys of a sequence ordered by non-increasing key are descending. */
  lemma KeysDescending<T>(s: seq<T>, key: T -> int)
    requires NonIncreasing(s, key)
    ensures Descending(Keys(s, key))
  {
    forall i, j | 0 <= i < j < |s|
      ensures Keys(s, key)[i] >= Keys(s, key)[j]
    {
      KeyAt(s, key, i);
      KeyAt(s, key, j);
    }
  }

  /** Two non-increasing arrangements of the same elements agree on the key at
      every position: only the order among equal keys can differ. */
  lemma SortedKeysAgree<T>(s: seq<T>, t: seq<T>, key: T -> int)
    requires multiset(s) == multiset(t)
    requires NonIncreasing(s, key) && NonIncreasing(t, key)
    ensures Keys(s, key) == Keys(t, key)
  {
    KeysOfPermutation(s, t, key);
    KeysDescending(s, key);
    KeysDescending(t, key);
    DescendingUnique(Keys(s, key), Keys(t, key));
  }

  /** Keys commute with taking a page. */
  lemma KeysOfPage<T>(s: seq<T>, skip: nat, limit: nat, key: T -> int)
    ensures Keys(Page(s, skip, limit), key) == Page(Keys(s, key), skip, limit)
  {
    if skip < |s| {
      var end := Min(skip + limit, |s|);
      var a, m, b := s[..skip], s[skip..end], s[end..];
      assert s == a + (m + b);
      KeysOfConcat(a, m + b, key);
      KeysOfConcat(m, b, key);
      var ks := Keys(s, key);
      assert ks == Keys(a, key) + (Keys(m, key) + Keys(b, key));
      assert ks[skip..end] == Keys(m, key);
    }
  }
}
