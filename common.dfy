/** Generic building blocks: optional values, the two API errors, and the
    list-comprehension operations (`[x for x in s if f(x)]`, `len`, `sum`,
    "first document whose key matches") that the handlers are written in. */
module Common {

  datatype Option<T> = None | Some(value: T)

  /** A partial-update field: a supplied (non-null) value replaces the stored one. */
  function Merge<T>(stored: T, supplied: Option<T>): T
  {
    match supplied
    case Some(v) => v
    case None => stored
  }

  /** NotFound is HTTP 404; Conflict is the HTTP 400 of a duplicate progress pair. */
  datatype Error = NotFound | Conflict

  datatype Result<T> = Ok(value: T) | Err(error: Error)

  /** No element occurs twice. */
  ghost predicate Distinct<T>(s: seq<T>)
  {
    forall i, j :: 0 <= i < j < |s| ==> s[i] != s[j]
  }

  /** Position of the first occurrence of `x` in `s` (a `find_one` on a key). */
  function IndexOf<T(==)>(s: seq<T>, x: T): (r: Option<nat>)
    ensures r.Some? ==> r.value < |s| && s[r.value] == x && x !in s[..r.value]
    ensures r.None? <==> x !in s
  {
    if |s| == 0 then None
    else if s[0] == x then Some(0)
    else
      match IndexOf(s[1..], x)
      case None => None
      case Some(k) =>
        assert s[1..][..k] == s[1..k + 1];
        Some(k + 1)
  }

  /** `[x for x in s if f(x)]`: keeps the order of `s`. */
  function Filter<T(!new)>(s: seq<T>, f: T -> bool): (r: seq<T>)
    ensures |r| <= |s|
    ensures forall x :: x in r <==> x in s && f(x)
  {
    if s == [] then []
    else if f(s[0]) then [s[0]] + Filter(s[1..], f)
    else Filter(s[1..], f)
  }

  lemma FilterAppend<T(!new)>(s: seq<T>, t: seq<T>, f: T -> bool)
    ensures Filter(s + t, f) == Filter(s, f) + Filter(t, f)
  {
    if s != [] {
      assert (s + t)[0] == s[0];
      assert (s + t)[1..] == s[1..] + t;
      FilterAppend(s[1..], t, f);
      assert s + t != [];
      if f(s[0]) {
        calc {
          Filter(s + t, f);
          [s[0]] + Filter(s[1..] + t, f);
          [s[0]] + (Filter(s[1..], f) + Filter(t, f));
          ([s[0]] + Filter(s[1..], f)) + Filter(t, f);
        }
      }
    } else {
      assert s + t == t;
    }
  }

  /** Two conditions that agree on every element select the same elements. */
  lemma {:induction false} FilterCongruent<T(!new)>(s: seq<T>, f: T -> bool, g: T -> bool)
    requires forall x :: x in s ==> f(x) == g(x)
    ensures Filter(s, f) == Filter(s, g)
  {
    if s != [] {
      FilterCongruent(s[1..], f, g);
    }
  }

  /** Filtering by a stronger condition keeps no more elements. */
  lemma {:induction false} FilterMonotone<T(!new)>(s: seq<T>, f: T -> bool, g: T -> bool)
    requires forall x :: x in s && f(x) ==> g(x)
    ensures |Filter(s, f)| <= |Filter(s, g)|
  {
    if s != [] {
      FilterMonotone(s[1..], f, g);
    }
  }

  /** Two conditions that never hold together select at most `|s|` elements between them. */
  lemma {:induction false} FilterDisjoint<T(!new)>(s: seq<T>, f: T -> bool, g: T -> bool)
    requires forall x :: x in s ==> !(f(x) && g(x))
    ensures |Filter(s, f)| + |Filter(s, g)| <= |s|
  {
    if s != [] {
      FilterDisjoint(s[1..], f, g);
    }
  }

  lemma {:induction false} FilterDistinct<T(!new)>(s: seq<T>, f: T -> bool)
    requires Distinct(s)
    ensures Distinct(Filter(s, f))
  {
    if s != [] {
      assert Distinct(s[1..]) by {
        forall i, j | 0 <= i < j < |s[1..]| ensures s[1..][i] != s[1..][j] {
          assert s[1..][i] == s[i + 1] && s[1..][j] == s[j + 1];
        }
      }
      FilterDistinct(s[1..], f);
      var rest := Filter(s[1..], f);
      if f(s[0]) {
        assert s[0] !in s[1..];
        assert s[0] !in rest;
        var r := [s[0]] + rest;
        forall i, j | 0 <= i < j < |r| ensures r[i] != r[j] {
          if i == 0 {
            assert r[j] == rest[j - 1];
          } else {
            assert r[i] == rest[i - 1] && r[j] == rest[j - 1];
          }
        }
      }
    }
  }

  function Elements<T(!new)>(s: seq<T>): (r: set<T>)
    ensures forall x :: x in r <==> x in s
  {
    set x | x in s
  }

  /** The set of elements of a sequence without repetition has its length. */
  lemma {:induction false} DistinctCardinality<T(!new)>(s: seq<T>)
    requires Distinct(s)
    ensures |Elements(s)| == |s|
  {
    if s != [] {
      assert Distinct(s[1..]) by {
        forall i, j | 0 <= i < j < |s[1..]| ensures s[1..][i] != s[1..][j] {
          assert s[1..][i] == s[i + 1] && s[1..][j] == s[j + 1];
        }
      }
      DistinctCardinality(s[1..]);
      assert Elements(s) == {s[0]} + Elements(s[1..]);
      assert s[0] !in Elements(s[1..]);
    }
  }

  /** A subset whose size reaches that of its superset is the superset. */
  lemma SubsetSameSize<T>(a: set<T>, b: set<T>)
    requires a <= b && |a| == |b|
    ensures a == b
  {
    assert |b - a| == |b| - |a|;
  }

  function Sum(xs: seq<int>): int
  {
    if xs == [] then 0 else xs[0] + Sum(xs[1..])
  }

  /** `sum(xs) / len(xs) if xs else 0`, exactly (no floating point). */
  function Average(xs: seq<int>): real
  {
    if |xs| > 0 then Sum(xs) as real / |xs| as real else 0.0
  }

  lemma {:induction false} SumBounds(xs: seq<int>, lo: int, hi: int)
    requires forall x :: x in xs ==> lo <= x <= hi
    ensures lo * |xs| <= Sum(xs) <= hi * |xs|
  {
    if xs != [] {
      var rest := xs[1..];
      assert forall x :: x in rest ==> x in xs;
      SumBounds(rest, lo, hi);
      assert lo <= xs[0] <= hi by { assert xs[0] in xs; }
      MulSucc(lo, |xs|, |rest|);
      MulSucc(hi, |xs|, |rest|);
    }
  }

  lemma MulSucc(a: int, m: nat, n: nat)
    requires m == n + 1
    ensures a * m == a + a * n
  {
  }

  /** An average lies between the least and the greatest possible entry. */
  lemma AverageBounds(xs: seq<int>, lo: int, hi: int)
    requires |xs| > 0
    requires forall x :: x in xs ==> lo <= x <= hi
    ensures lo as real <= Average(xs) <= hi as real
  {
    SumBounds(xs, lo, hi);
    var n := |xs| as real;
    RealProduct(lo, |xs|);
    RealProduct(hi, |xs|);
    DivLower(Sum(xs) as real, n, lo as real);
    DivUpper(Sum(xs) as real, n, hi as real);
  }

  lemma RealProduct(a: int, b: int)
    ensures (a * b) as real == a as real * b as real
  {
  }

  lemma DivLower(a: real, n: real, lo: real)
    requires n > 0.0 && a >= lo * n
    ensures a / n >= lo
  {
    assert a / n - lo == (a - lo * n) / n;
  }

  lemma DivUpper(a: real, n: real, hi: real)
    requires n > 0.0 && a <= hi * n
    ensures a / n <= hi
  {
    assert hi - a / n == (hi * n - a) / n;
  }

  /** `part / whole * 100 if whole > 0 else 0`, exactly. */
  function Percentage(part: nat, whole: nat): (r: real)
    requires part <= whole
    ensures 0.0 <= r <= 100.0
    ensures whole == 0 ==> r == 0.0
    ensures whole > 0 ==> (r == 100.0 <==> part == whole)
    ensures whole > 0 ==> (r == 0.0 <==> part == 0)
  {
    if whole > 0 then
      assert part as real / whole as real <= 1.0;
      part as real / whole as real * 100.0
    else 0.0
  }

  /** Appending a new element keeps a sequence free of duplicates. */
  lemma AppendDistinct<T>(s: seq<T>, x: T)
    requires Distinct(s) && x !in s
    ensures Distinct(s + [x])
  {
    var t := s + [x];
    forall i, j | 0 <= i < j < |t| ensures t[i] != t[j] {
      if j == |s| {
        assert t[i] == s[i];
      } else {
        assert t[i] == s[i] && t[j] == s[j];
      }
    }
  }
}
