/** Generic helpers shared by the model: optional values, results, and the two
    array operations the route handlers lean on, `find` and `filter`. */
module Common {

  datatype Option<T> = None | Some(value: T)

  datatype Result<T, E> = Ok(value: T) | Err(error: E)

  /** Position of the first element satisfying `p`, as `Array.prototype.find`
      locates it (the element itself is `s[r.value]`). */
  function FirstWhere<T>(s: seq<T>, p: T -> bool): (r: Option<nat>)
    ensures r.Some? ==> r.value < |s| && p(s[r.value])
    ensures r.Some? ==> forall k :: 0 <= k < r.value ==> !p(s[k])
    ensures r.None? ==> forall k :: 0 <= k < |s| ==> !p(s[k])
  {
    if s == [] then None
    else if p(s[0]) then Some(0)
    else match FirstWhere(s[1..], p)
      case None => None
      case Some(k) => Some(k + 1)
  }

  /** The first position satisfying `p` is determined by the elements alone. */
  lemma FirstWhereIs<T>(s: seq<T>, p: T -> bool, i: nat)
    requires i < |s| && p(s[i])
    requires forall k :: 0 <= k < i ==> !p(s[k])
    ensures FirstWhere(s, p) == Some(i)
  {
  }

  /** `Array.prototype.filter`: the elements satisfying `p`, in their original order. */
  function Filter<T>(s: seq<T>, p: T -> bool): (r: seq<T>)
    ensures |r| <= |s|
    ensures forall k :: 0 <= k < |r| ==> r[k] in s && p(r[k])
    ensures forall k :: 0 <= k < |s| && p(s[k]) ==> s[k] in r
  {
    if s == [] then []
    else (if p(s[0]) then [s[0]] else []) + Filter(s[1..], p)
  }

  /** Filtering distributes over concatenation: relative order is kept. */
  lemma {:induction false} FilterAppend<T>(s: seq<T>, t: seq<T>, p: T -> bool)
    ensures Filter(s + t, p) == Filter(s, p) + Filter(t, p)
  {
    if s == [] {
      assert s + t == t;
    } else {
      assert (s + t)[1..] == s[1..] + t;
      FilterAppend(s[1..], t, p);
    }
  }

  /** When every element passes, filtering changes nothing. */
  lemma {:induction false} FilterKeepsAll<T>(s: seq<T>, p: T -> bool)
    requires forall k :: 0 <= k < |s| ==> p(s[k])
    ensures Filter(s, p) == s
  {
    if s != [] {
      FilterKeepsAll(s[1..], p);
    }
  }

  /** Filtering twice with the same test is filtering once. */
  lemma FilterIdempotent<T>(s: seq<T>, p: T -> bool)
    ensures Filter(Filter(s, p), p) == Filter(s, p)
  {
    var f := Filter(s, p);
    FilterKeepsAll(f, p);
  }

  /** What holds of every element but the one at `i` holds of every element
      of the tail but the one at `i - 1`. */
  lemma TailExcept<T>(s: seq<T>, p: T -> bool, i: nat)
    requires |s| > 0
    requires forall k :: 0 <= k < |s| && k != i ==> p(s[k])
    ensures forall k :: 0 <= k < |s| - 1 && k + 1 != i ==> p(s[1..][k])
  {
    forall k | 0 <= k < |s| - 1 && k + 1 != i ensures p(s[1..][k]) {
      assert s[1..][k] == s[k + 1];
    }
  }

  /** When exactly the element at `i` fails, filtering drops it and keeps the
      others in place. */
  lemma {:induction false} FilterDropsOne<T>(s: seq<T>, p: T -> bool, i: nat)
    requires i < |s| && !p(s[i])
    requires forall k :: 0 <= k < |s| && k != i ==> p(s[k])
    ensures Filter(s, p) == s[..i] + s[i+1..]
  {
    var t := s[1..];
    TailExcept(s, p, i);
    if i == 0 {
      FilterKeepsAll(t, p);
    } else {
      FilterDropsOne(t, p, i - 1);
      assert s[..i] == [s[0]] + t[..i - 1];
      assert s[i+1..] == t[i..];
    }
  }
}
