/** The order in which `get_dummies` lays out the categories of one field.
    pandas sorts the distinct values of the column; when integers and
    strings are mixed (a recoded column with values outside its table) the
    integers come first in numeric order, then the strings in Python's
    code-point order. */
module Categories {
  import opened Frames

  /** Python's `<` on strings: lexicographic by code point, a proper prefix
      before its extensions. */
  predicate StrLess(a: string, b: string)
    decreases |a|
  {
    if a == [] then b != []
    else b != [] && (a[0] < b[0] || (a[0] == b[0] && StrLess(a[1..], b[1..])))
  }

  predicate ValueLess(a: Value, b: Value) {
    match (a, b)
    case (Int(x), Int(y)) => x < y
    case (Int(_), Str(_)) => true
    case (Str(_), Int(_)) => false
    case (Str(x), Str(y)) => StrLess(x, y)
  }

  lemma {:induction false} StrLessIrreflexive(a: string)
    ensures !StrLess(a, a)
    decreases |a|
  {
    if a != [] {
      StrLessIrreflexive(a[1..]);
    }
  }

  lemma {:induction false} StrLessTransitive(a: string, b: string, c: string)
    requires StrLess(a, b) && StrLess(b, c)
    ensures StrLess(a, c)
    decreases |a|
  {
    if a != [] && a[0] == b[0] && b[0] == c[0] {
      StrLessTransitive(a[1..], b[1..], c[1..]);
    }
  }

  lemma {:induction false} StrLessTrichotomy(a: string, b: string)
    ensures a == b || StrLess(a, b) || StrLess(b, a)
    decreases |a|
  {
    if a != [] && b != [] && a[0] == b[0] {
      StrLessTrichotomy(a[1..], b[1..]);
      if a[1..] == b[1..] {
        assert a == [a[0]] + a[1..] && b == [b[0]] + b[1..];
      }
    }
  }

  /** `ValueLess` is a strict total order. */
  lemma ValueLessStrictTotal(a: Value, b: Value, c: Value)
    ensures !ValueLess(a, a)
    ensures a == b || ValueLess(a, b) || ValueLess(b, a)
    ensures ValueLess(a, b) && ValueLess(b, c) ==> ValueLess(a, c)
  {
    if a.Str? {
      StrLessIrreflexive(a.s);
      if b.Str? {
        StrLessTrichotomy(a.s, b.s);
        if c.Str? && ValueLess(a, b) && ValueLess(b, c) {
          StrLessTransitive(a.s, b.s, c.s);
        }
      }
    }
  }

  predicate StrictlyIncreasing(s: seq<Value>) {
    forall i, j :: 0 <= i < j < |s| ==> ValueLess(s[i], s[j])
  }

  /** Adds `v` to a strictly increasing sequence, keeping it strictly
      increasing; a value already present is not added twice. */
  function InsertCategory(v: Value, xs: seq<Value>): (r: seq<Value>)
    requires StrictlyIncreasing(xs)
    ensures StrictlyIncreasing(r)
    ensures forall w :: w in r <==> w == v || w in xs
  {
    if xs == [] then [v]
    else if v == xs[0] then xs
    else if ValueLess(v, xs[0]) then
      assert forall j :: 0 < j < |xs| ==> ValueLess(v, xs[j]) by {
        forall j | 0 < j < |xs|
          ensures ValueLess(v, xs[j])
        {
          ValueLessStrictTotal(v, xs[0], xs[j]);
        }
      }
      [v] + xs
    else
      ValueLessStrictTotal(v, xs[0], v);
      var rest := InsertCategory(v, xs[1..]);
      assert forall k :: 0 <= k < |rest| ==> ValueLess(xs[0], rest[k]) by {
        forall k | 0 <= k < |rest|
          ensures ValueLess(xs[0], rest[k])
        {
          assert rest[k] in rest;
          if rest[k] != v {
            var j :| 0 <= j < |xs[1..]| && xs[1..][j] == rest[k];
            assert xs[j + 1] == rest[k];
          }
        }
      }
      [xs[0]] + rest
  }

  /** The distinct values of `vs` in category order: the categories
      `get_dummies` makes one indicator column for. */
  function SortedCategories(vs: seq<Value>): (r: seq<Value>)
    ensures StrictlyIncreasing(r)
    ensures forall w :: w in r <==> w in vs
  {
    if vs == [] then []
    else
      assert forall w :: w in vs <==> w == vs[0] || w in vs[1..];
      InsertCategory(vs[0], SortedCategories(vs[1..]))
  }
}
