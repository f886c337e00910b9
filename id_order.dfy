/**
  The order in which `defs_sorted.sort()` puts the identities of one file
  (Python 2 comparison): None before every string, strings lexicographically
  by character, a proper prefix before its extensions.
 */
module IdOrder {
  import opened Wrappers

  predicate StrLess(a: string, b: string)
    decreases |a|
  {
    if |a| == 0 then |b| > 0
    else if |b| == 0 then false
    else if a[0] != b[0] then a[0] < b[0]
    else StrLess(a[1..], b[1..])
  }

  predicate IdLess(a: Option<string>, b: Option<string>) {
    match a
    case None => b.Some?
    case Some(x) => b.Some? && StrLess(x, b.value)
  }

  /** Strictly ascending, so also free of repetitions. */
  predicate StrictlyIncreasing(s: seq<Option<string>>) {
    forall i, j :: 0 <= i < j < |s| ==> IdLess(s[i], s[j])
  }

  lemma {:induction false} StrLessIrreflexive(a: string)
    ensures !StrLess(a, a)
  {
    if |a| > 0 {
      StrLessIrreflexive(a[1..]);
    }
  }

  lemma {:induction false} StrLessTransitive(a: string, b: string, c: string)
    requires StrLess(a, b) && StrLess(b, c)
    ensures StrLess(a, c)
  {
    if |a| > 0 && a[0] == b[0] && b[0] == c[0] {
      StrLessTransitive(a[1..], b[1..], c[1..]);
    }
  }

  lemma {:induction false} StrLessTotal(a: string, b: string)
    requires a != b
    ensures StrLess(a, b) || StrLess(b, a)
  {
    if |a| > 0 && |b| > 0 && a[0] == b[0] {
      assert a == [a[0]] + a[1..] && b == [b[0]] + b[1..];
      StrLessTotal(a[1..], b[1..]);
    }
  }

  lemma IdLessIrreflexive(a: Option<string>)
    ensures !IdLess(a, a)
  {
    if a.Some? {
      StrLessIrreflexive(a.value);
    }
  }

  lemma IdLessTransitive(a: Option<string>, b: Option<string>, c: Option<string>)
    requires IdLess(a, b) && IdLess(b, c)
    ensures IdLess(a, c)
  {
    if a.Some? {
      StrLessTransitive(a.value, b.value, c.value);
    }
  }

  lemma IdLessTotal(a: Option<string>, b: Option<string>)
    requires a != b
    ensures IdLess(a, b) || IdLess(b, a)
  {
    if a.Some? && b.Some? {
      StrLessTotal(a.value, b.value);
    }
  }

  /** `m` is the least element of `ids`. */
  predicate IsLeast(m: Option<string>, ids: set<Option<string>>) {
    m in ids && forall y :: y in ids && y != m ==> IdLess(m, y)
  }

  /** A finite non-empty set of identities has a least element. */
  lemma {:induction false} LeastExists(ids: set<Option<string>>)
    requires ids != {}
    ensures exists m :: IsLeast(m, ids)
  {
    var x :| x in ids;
    var rest := ids - {x};
    if rest == {} {
      assert ids == {x};
      assert IsLeast(x, ids);
    } else {
      LeastExists(rest);
      var m :| IsLeast(m, rest);
      if IdLess(x, m) {
        forall y | y in ids && y != x ensures IdLess(x, y) {
          if y != m {
            IdLessTransitive(x, m, y);
          }
        }
        assert IsLeast(x, ids);
      } else {
        IdLessTotal(x, m);
        assert IsLeast(m, ids);
      }
    }
  }

  /** `sorted(ids)`: the identities of a record in ascending order, each once. */
  method SortIds(ids: set<Option<string>>) returns (r: seq<Option<string>>)
    ensures StrictlyIncreasing(r)
    ensures forall id :: id in r <==> id in ids
  {
    r := [];
    var rest := ids;
    while rest != {}
      invariant rest <= ids
      invariant forall id :: id in r <==> id in ids && id !in rest
      invariant StrictlyIncreasing(r)
      invariant forall i, y :: 0 <= i < |r| && y in rest ==> IdLess(r[i], y)
      decreases rest
    {
      LeastExists(rest);
      var m :| IsLeast(m, rest);
      r := r + [m];
      rest := rest - {m};
    }
  }

}
