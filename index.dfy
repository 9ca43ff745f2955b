/** The two ways the blog indexes its posts: a stable sort on a date key,
    newest first, and buckets that collect the posts under each of the
    labels (tags or authors) they carry, in the order the posts were found. */
module Index {
  import opened Wrappers

  /** Newest first: no element has a smaller key than one after it. */
  predicate NewestFirst<T>(s: seq<T>, key: T -> int) {
    forall i, j :: 0 <= i < j < |s| ==> key(s[i]) >= key(s[j])
  }

  /** `x` put into a newest-first list after every element whose key is at
      least its own. */
  function Insert<T(==)>(x: T, s: seq<T>, key: T -> int): (r: seq<T>)
    ensures |r| == |s| + 1 && multiset(r) == multiset(s) + multiset{x}
  {
    if s == [] then [x]
    else
      var n := |s| - 1;
      assert s == s[..n] + [s[n]];
      if key(s[n]) >= key(x) then s + [x] else Insert(x, s[..n], key) + [s[n]]
  }

  /** An element of either part is an element of the whole. */
  lemma InAppended<T>(x: T, a: seq<T>, b: seq<T>)
    requires x in a || x in b
    ensures x in a + b
  {
  }

  /** An element with no larger key than any of a newest-first list may
      follow it. */
  lemma AppendNewestFirst<T>(s: seq<T>, y: T, key: T -> int)
    requires NewestFirst(s, key) && forall i :: 0 <= i < |s| ==> key(s[i]) >= key(y)
    ensures NewestFirst(s + [y], key)
  {
  }

  /** Inserting into a newest-first list keeps it newest first. */
  lemma {:induction false} InsertNewestFirst<T>(x: T, s: seq<T>, key: T -> int)
    requires NewestFirst(s, key)
    ensures NewestFirst(Insert(x, s, key), key)
  {
    if s == [] {
    } else {
      var n := |s| - 1;
      var front := s[..n];
      if key(s[n]) >= key(x) {
        AppendNewestFirst(s, x, key);
      } else {
        InsertNewestFirst(x, front, key);
        var f := Insert(x, front, key);
        forall i | 0 <= i < |f| ensures key(f[i]) >= key(s[n]) {
          assert f[i] in multiset(f);
          if f[i] != x {
            assert f[i] in multiset(front);
            var j :| 0 <= j < n && front[j] == f[i];
          }
        }
        AppendNewestFirst(f, s[n], key);
      }
    }
  }

  /** `sorted(s, key=key, reverse=True)`: newest first, the same elements
      (each as often as before). */
  function SortNewestFirst<T(==)>(s: seq<T>, key: T -> int): (r: seq<T>)
    ensures |r| == |s| && multiset(r) == multiset(s)
    ensures NewestFirst(r, key)
  {
    if s == [] then []
    else
      var n := |s| - 1;
      var front := SortNewestFirst(s[..n], key);
      InsertNewestFirst(s[n], front, key);
      assert s == s[..n] + [s[n]];
      Insert(s[n], front, key)
  }

  /** The elements of a list whose key is `d`, in order. */
  function WithKey<T>(s: seq<T>, key: T -> int, d: int): seq<T> {
    if s == [] then [] else WithKey(s[..|s| - 1], key, d) + (if key(s[|s| - 1]) == d then [s[|s| - 1]] else [])
  }

  lemma WithKeyAppend<T>(s: seq<T>, x: T, key: T -> int, d: int)
    ensures WithKey(s + [x], key, d) == WithKey(s, key, d) + (if key(x) == d then [x] else [])
  {
    assert (s + [x])[..|s|] == s;
  }

  /** Inserting puts the new element after the others with its key. */
  lemma {:induction false} InsertWithKey<T>(x: T, s: seq<T>, key: T -> int, d: int)
    ensures WithKey(Insert(x, s, key), key, d) == WithKey(s, key, d) + (if key(x) == d then [x] else [])
  {
    if s == [] {
      WithKeyAppend([], x, key, d);
    } else {
      var n := |s| - 1;
      assert s == s[..n] + [s[n]];
      if key(s[n]) >= key(x) {
        WithKeyAppend(s, x, key, d);
      } else {
        InsertWithKey(x, s[..n], key, d);
        WithKeyAppend(Insert(x, s[..n], key), s[n], key, d);
        WithKeyAppend(s[..n], s[n], key, d);
      }
    }
  }

  /** The sort is stable (as Python's is, also with `reverse=True`):
      elements with the same key keep their order. */
  lemma {:induction false} SortStable<T>(s: seq<T>, key: T -> int, d: int)
    ensures WithKey(SortNewestFirst(s, key), key, d) == WithKey(s, key, d)
  {
    if s != [] {
      var n := |s| - 1;
      SortStable(s[..n], key, d);
      InsertWithKey(s[n], SortNewestFirst(s[..n], key), key, d);
    }
  }

  /** The first element whose name is `name`, as a search that stops at the
      first match finds it. */
  function FirstNamed<T>(s: seq<T>, nameOf: T -> string, name: string): (r: Option<T>)
    ensures r.Some? ==> exists i :: 0 <= i < |s| && s[i] == r.value && nameOf(r.value) == name
                                    && forall j :: 0 <= j < i ==> nameOf(s[j]) != name
    ensures r.None? <==> forall i :: 0 <= i < |s| ==> nameOf(s[i]) != name
  {
    if s == [] then None
    else if nameOf(s[0]) == name then Some(s[0])
    else FirstNamed(s[1..], nameOf, name)
  }

  /** How often `name` is listed in `ls`. */
  function Occurrences(ls: seq<string>, name: string): (n: nat)
    ensures n == 0 <==> name !in ls
  {
    if ls == [] then 0
    else
      assert ls == ls[..|ls| - 1] + [ls[|ls| - 1]];
      Occurrences(ls[..|ls| - 1], name) + (if ls[|ls| - 1] == name then 1 else 0)
  }

  /** `n` copies of `x`. */
  function Repeat<T>(x: T, n: nat): (r: seq<T>)
    ensures |r| == n && forall i :: 0 <= i < n ==> r[i] == x
  {
    if n == 0 then [] else Repeat(x, n - 1) + [x]
  }

  /** The bucket of `name`: the elements in order, each once per time it
      lists the name. */
  function Bucket<T(==, !new)>(s: seq<T>, labels: T -> seq<string>, name: string): (r: seq<T>)
    ensures forall x :: x in r <==> x in s && name in labels(x)
  {
    if s == [] then []
    else
      var n := |s| - 1;
      assert s == s[..n] + [s[n]];
      Bucket(s[..n], labels, name) + Repeat(s[n], Occurrences(labels(s[n]), name))
  }

  /** `buckets[name].append(x)`, creating the bucket when it is missing. */
  function AddTo<T>(buckets: map<string, seq<T>>, name: string, x: T): map<string, seq<T>> {
    buckets[name := (if name in buckets then buckets[name] else []) + [x]]
  }

  /** The loop over one element's labels. */
  function AddLabels<T>(buckets: map<string, seq<T>>, x: T, ls: seq<string>): map<string, seq<T>> {
    if ls == [] then buckets else AddTo(AddLabels(buckets, x, ls[..|ls| - 1]), ls[|ls| - 1], x)
  }

  /** The buckets once every element of `s` has been added in turn. */
  function Buckets<T>(s: seq<T>, labels: T -> seq<string>): map<string, seq<T>> {
    if s == [] then map[]
    else AddLabels(Buckets(s[..|s| - 1], labels), s[|s| - 1], labels(s[|s| - 1]))
  }

  /** One more element is one more round of the loop. */
  lemma BucketsAppend<T>(s: seq<T>, x: T, labels: T -> seq<string>)
    ensures Buckets(s + [x], labels) == AddLabels(Buckets(s, labels), x, labels(x))
  {
    assert (s + [x])[..|s|] == s;
  }

  /** Adding an element's labels creates exactly the missing buckets of its
      labels and appends it to a bucket once per time it lists the name. */
  lemma {:induction false} AddLabelsSpec<T>(buckets: map<string, seq<T>>, x: T, ls: seq<string>)
    ensures forall l :: l in AddLabels(buckets, x, ls) <==> l in buckets || l in ls
    ensures forall l :: l in AddLabels(buckets, x, ls) ==>
              AddLabels(buckets, x, ls)[l] == (if l in buckets then buckets[l] else []) + Repeat(x, Occurrences(ls, l))
  {
    if ls != [] {
      var n := |ls| - 1;
      AddLabelsSpec(buckets, x, ls[..n]);
      assert ls == ls[..n] + [ls[n]];
      forall l | l in AddLabels(buckets, x, ls)
        ensures AddLabels(buckets, x, ls)[l] == (if l in buckets then buckets[l] else []) + Repeat(x, Occurrences(ls, l))
      {
        if l == ls[n] {
          assert AddLabels(buckets, x, ls)[l]
              == (if l in buckets then buckets[l] else []) + Repeat(x, Occurrences(ls[..n], l)) + [x];
        }
      }
    }
  }

  /** The buckets hold a key for every name some element lists and no
      other, and under it that name's bucket, in the order of `s`. */
  lemma {:induction false} BucketsSpec<T(!new)>(s: seq<T>, labels: T -> seq<string>)
    ensures forall l :: l in Buckets(s, labels) <==> Bucket(s, labels, l) != []
    ensures forall l :: l in Buckets(s, labels) ==> Buckets(s, labels)[l] == Bucket(s, labels, l)
  {
    if s != [] {
      var n := |s| - 1;
      var last := s[n];
      BucketsSpec(s[..n], labels);
      AddLabelsSpec(Buckets(s[..n], labels), last, labels(last));
      forall l ensures l in Buckets(s, labels) <==> Bucket(s, labels, l) != [] {
        if Bucket(s[..n], labels, l) == [] && l !in labels(last) {
          assert Bucket(s, labels, l) == [];
        }
      }
    }
  }

  /** The elements listing `name`, each once, in order. */
  function Labelled<T(==, !new)>(s: seq<T>, labels: T -> seq<string>, name: string): (r: seq<T>)
    ensures |r| <= |s| && forall x :: x in r <==> x in s && name in labels(x)
  {
    if s == [] then []
    else
      var n := |s| - 1;
      assert s == s[..n] + [s[n]];
      Labelled(s[..n], labels, name) + (if name in labels(s[n]) then [s[n]] else [])
  }

  /** Sorting first keeps who is in each bucket: an element is listed under
      `name` after the sort exactly when the bucket built before it holds it. */
  lemma BucketsMatchLabelled<T(!new)>(s: seq<T>, key: T -> int, labels: T -> seq<string>, name: string)
    ensures forall x :: x in Labelled(SortNewestFirst(s, key), labels, name) <==>
              (name in Buckets(s, labels) && x in Buckets(s, labels)[name])
  {
    BucketsSpec(s, labels);
    var sorted := SortNewestFirst(s, key);
    forall x ensures x in sorted <==> x in s {
      assert x in sorted <==> x in multiset(sorted);
      assert x in s <==> x in multiset(s);
    }
  }
}
