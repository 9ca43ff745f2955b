/** The repository-wide helpers: exception-guarded calls, an early-exit
    "all" check, Python slicing by an index pair, and nested indexing. */
module RootUtil {
  import opened Wrappers

  /** What calling a Python function did: returned a value or raised. */
  datatype Outcome<T, E> = Returned(value: T) | Raised(exception: E)

  /** `safe_execute(default, exception, function, *args)`: `call` is the
      outcome of `function(*args)`, `handles` says whether a raised
      exception is an instance of the class named by `exception`. */
  function SafeExecute<T, E>(default: T, handles: E -> bool, call: Outcome<T, E>): (r: Outcome<T, E>)
    ensures call.Returned? ==> r == call
    ensures call.Raised? && handles(call.exception) ==> r == Returned(default)
    ensures call.Raised? && !handles(call.exception) ==> r == call
  {
    match call
    case Returned(_) => call
    case Raised(e) => if handles(e) then Returned(default) else call
  }

  /** A handled exception never escapes `safe_execute`. */
  lemma SafeExecuteContains<T, E>(default: T, handles: E -> bool, call: Outcome<T, E>)
    ensures SafeExecute(default, handles, call).Raised? ==> !handles(SafeExecute(default, handles, call).exception)
  {
  }

  /** `all_match_condition(function, iterable)`: walks the elements in order
      and stops at the first that fails; `calls` is how many times the
      predicate ran. */
  method AllMatchCondition<T>(f: T -> bool, s: seq<T>) returns (r: bool, calls: nat)
    ensures r <==> forall i :: 0 <= i < |s| ==> f(s[i])
    ensures r ==> calls == |s|
    ensures !r ==> 1 <= calls <= |s| && !f(s[calls - 1]) && forall i :: 0 <= i < calls - 1 ==> f(s[i])
  {
    var k := 0;
    while k < |s|
      invariant 0 <= k <= |s|
      invariant forall i :: 0 <= i < k ==> f(s[i])
    {
      if !f(s[k]) {
        return false, k + 1;
      }
      k := k + 1;
    }
    return true, |s|;
  }

  /** A Python index `i` into a sequence of length `n`, made absolute and
      clamped into `[0, n]` as slicing does. */
  function ClampIndex(i: int, n: nat): (r: nat)
    ensures r <= n
    ensures 0 <= i <= n ==> r == i
    ensures -(n as int) <= i < 0 ==> r == i + n
    ensures i > n ==> r == n
    ensures i < -(n as int) ==> r == 0
  {
    var k := if i < 0 then i + n else i;
    if k < 0 then 0 else if k > n then n else k
  }

  /** `index_range_from_pair(sequence, (a, b))`, which is `sequence[a:b]`. */
  function IndexRangeFromPair<T>(s: seq<T>, pair: (int, int)): (r: seq<T>)
    ensures 0 <= pair.0 <= pair.1 <= |s| ==> r == s[pair.0..pair.1]
    ensures var a, b := ClampIndex(pair.0, |s|), ClampIndex(pair.1, |s|);
            (b <= a ==> r == []) && (a < b ==> r == s[a..b])
  {
    var a := ClampIndex(pair.0, |s|);
    var b := ClampIndex(pair.1, |s|);
    if b <= a then [] else s[a..b]
  }

  /** Negative bounds count from the end, as in `s[-2:]`. */
  lemma SliceFromEnd<T>(s: seq<T>, k: nat)
    requires 0 < k <= |s|
    ensures IndexRangeFromPair(s, (-(k as int), |s|)) == s[|s| - k..]
  {
  }

  /** A key of a Python list or dict subscript. */
  datatype Key = IntKey(i: int) | StrKey(s: string)

  /** The values a collection holds: lists, dicts, strings and other scalars. */
  datatype Value = List(items: seq<Value>) | Dict(entries: map<Key, Value>) | Str(s: string) | Scalar

  /** The exceptions a subscript raises. */
  datatype IndexError = IndexError | KeyError | TypeError

  /** `value[key]`. */
  function Subscript(v: Value, key: Key): Result<Value, IndexError> {
    match v
    case List(items) =>
      if !key.IntKey? then Err(TypeError)
      else if -|items| <= key.i < 0 then Ok(items[key.i + |items|])
      else if 0 <= key.i < |items| then Ok(items[key.i])
      else Err(IndexError)
    case Dict(entries) =>
      if key in entries then Ok(entries[key]) else Err(KeyError)
    case Str(s) =>
      if !key.IntKey? then Err(TypeError)
      else if -|s| <= key.i < 0 then Ok(Str([s[key.i + |s|]]))
      else if 0 <= key.i < |s| then Ok(Str([s[key.i]]))
      else Err(IndexError)
    case Scalar => Err(TypeError)
  }

  /** The value reached by applying the keys left to right; the first
      failing subscript's exception otherwise. */
  function Traverse(c: Value, index: seq<Key>): Result<Value, IndexError>
    decreases |index|
  {
    if index == [] then Ok(c)
    else
      match Traverse(c, index[..|index| - 1])
      case Ok(v) => Subscript(v, index[|index| - 1])
      case Err(e) => Err(e)
  }

  /** Once a prefix of the keys fails, the whole traversal fails with that exception. */
  lemma {:induction false} TraverseErrSticky(c: Value, index: seq<Key>, k: nat)
    requires k <= |index| && Traverse(c, index[..k]).Err?
    ensures Traverse(c, index) == Traverse(c, index[..k])
    decreases |index| - k
  {
    if k < |index| {
      assert index[..k + 1][..k] == index[..k];
      TraverseErrSticky(c, index, k + 1);
    } else {
      assert index[..k] == index;
    }
  }

  /** Traversing by `a + b` is traversing by `a`, then by `b` from there. */
  lemma {:induction false} TraverseCompose(c: Value, a: seq<Key>, b: seq<Key>)
    ensures Traverse(c, a + b) == (match Traverse(c, a)
                                   case Ok(v) => Traverse(v, b)
                                   case Err(e) => Err(e))
    decreases |b|
  {
    if b == [] {
      assert a + b == a;
    } else {
      var b' := b[..|b| - 1];
      assert (a + b)[..|a + b| - 1] == a + b';
      TraverseCompose(c, a, b');
    }
  }

  /** `traverse_collection(collection, index)`: subscripts `result` with each
      key in turn, stopping at the first exception. */
  method TraverseCollection(collection: Value, index: seq<Key>) returns (r: Result<Value, IndexError>)
    ensures r == Traverse(collection, index)
    ensures index == [] ==> r == Ok(collection)
  {
    var result := collection;
    var k := 0;
    while k < |index|
      invariant 0 <= k <= |index|
      invariant Traverse(collection, index[..k]) == Ok(result)
    {
      assert index[..k + 1][..k] == index[..k];
      var next := Subscript(result, index[k]);
      if next.Err? {
        TraverseErrSticky(collection, index, k + 1);
        return next;
      }
      result := next.value;
      k := k + 1;
    }
    assert index[..k] == index;
    return Ok(result);
  }
}
