/** Small shared vocabulary: an optional value, a counting helper and facts about prefixes. */
module Base {

  /** A value that may be absent (a failed `fopen`, a `find` that hits `npos`). */
  datatype Option<+T> = None | Some(value: T)

  /** How many elements of `s` satisfy `p`. */
  function CountIf<T>(s: seq<T>, p: T -> bool): nat
  {
    if s == [] then 0 else (if p(s[0]) then 1 else 0) + CountIf(s[1..], p)
  }

  lemma {:induction false} CountIfConcat<T>(a: seq<T>, b: seq<T>, p: T -> bool)
    ensures CountIf(a + b, p) == CountIf(a, p) + CountIf(b, p)
  {
    if a != [] {
      assert (a + b)[0] == a[0];
      assert (a + b)[1..] == a[1..] + b;
      CountIfConcat(a[1..], b, p);
    } else {
      assert a + b == b;
    }
  }

  lemma CountIfSingle<T>(x: T, p: T -> bool)
    ensures CountIf([x], p) == if p(x) then 1 else 0
  {
    assert [x][1..] == [];
  }

  /** Prefixes survive a common beginning and any continuation. */
  lemma PrefixConcat<T>(a: seq<T>, b: seq<T>, c: seq<T>, d: seq<T>)
    requires a <= b
    ensures c + a <= c + b + d
    ensures a <= b + d
  {
    assert (c + b + d)[..|c + a|] == c + a;
    assert (b + d)[..|a|] == a;
  }
}
