/** `get_important_features`: rank the columns by the magnitude of their
    correlation with `G3`, keep the ones strictly above a threshold, and
    leave `G3` itself out. The correlations are an input here: computing
    Pearson coefficients is not part of this model. */
module Selection {
  import opened Seqs
  import Cleaning

  /** A correlation coefficient as pandas reports it: a number, or NaN for
      a column that is constant on the training rows. */
  datatype Score = Known(r: real) | NaN

  /** One entry of the correlation series: a column and its coefficient. */
  datatype Entry = Entry(name: string, score: Score)

  /** `Series.abs()`: NaN stays NaN. */
  function Magnitude(s: Score): (m: Score)
    ensures m.NaN? <==> s.NaN?
    ensures m.Known? ==> m.r >= 0.0 && (m.r == s.r || m.r == -s.r)
  {
    match s
    case NaN => NaN
    case Known(r) => Known(if r < 0.0 then -r else r)
  }

  function Magnitudes(corr: seq<Entry>): (r: seq<Entry>)
    ensures |r| == |corr|
    ensures forall i :: 0 <= i < |r| ==> r[i].name == corr[i].name && r[i].score == Magnitude(corr[i].score)
  {
    seq(|corr|, i requires 0 <= i < |corr| => Entry(corr[i].name, Magnitude(corr[i].score)))
  }

  /** The descending order of `sort_values(ascending=False)`: larger
      numbers first, NaN after every number. */
  predicate AtLeast(a: Score, b: Score) {
    b.NaN? || (a.Known? && a.r >= b.r)
  }

  /** `AtLeast` is a total preorder. */
  lemma AtLeastPreorder(a: Score, b: Score, c: Score)
    ensures AtLeast(a, a)
    ensures AtLeast(a, b) || AtLeast(b, a)
    ensures AtLeast(a, b) && AtLeast(b, c) ==> AtLeast(a, c)
  {
  }

  /** Sorted by descending score. */
  predicate Ranked(s: seq<Entry>) {
    forall i, j :: 0 <= i < j < |s| ==> AtLeast(s[i].score, s[j].score)
  }

  /** Puts `e` into a ranked sequence ahead of every entry it is at least
      as large as. */
  function Insert(e: Entry, s: seq<Entry>): (r: seq<Entry>)
    requires Ranked(s)
    ensures Ranked(r)
    ensures multiset(r) == multiset(s) + multiset{e}
  {
    if s == [] then [e]
    else if AtLeast(e.score, s[0].score) then
      assert forall j :: 0 <= j < |s| ==> AtLeast(e.score, s[j].score) by {
        forall j | 0 <= j < |s|
          ensures AtLeast(e.score, s[j].score)
        {
          AtLeastPreorder(e.score, s[0].score, s[j].score);
        }
      }
      [e] + s
    else
      AtLeastPreorder(e.score, s[0].score, s[0].score);
      var rest := Insert(e, s[1..]);
      assert s == [s[0]] + s[1..];
      assert forall k :: 0 <= k < |rest| ==> AtLeast(s[0].score, rest[k].score) by {
        forall k | 0 <= k < |rest|
          ensures AtLeast(s[0].score, rest[k].score)
        {
          assert rest[k] in multiset(rest);
          if rest[k] != e {
            assert rest[k] in s[1..];
          }
        }
      }
      [s[0]] + rest
  }

  /** The correlation series sorted by descending magnitude. pandas' default
      sort does not promise an order among equal scores; this one keeps
      their input order. */
  function Rank(s: seq<Entry>): (r: seq<Entry>)
    ensures Ranked(r)
    ensures multiset(r) == multiset(s)
  {
    if s == [] then []
    else
      assert s == [s[0]] + s[1..];
      Insert(s[0], Rank(s[1..]))
  }

  /** `score > threshold`; a comparison with NaN is false. */
  predicate Exceeds(s: Score, threshold: real) {
    s.Known? && s.r > threshold
  }

  /** `correlations[correlations > threshold]`, order kept. */
  function Above(s: seq<Entry>, threshold: real): (r: seq<Entry>)
    ensures forall e :: e in r <==> e in s && Exceeds(e.score, threshold)
    ensures Ranked(s) ==> Ranked(r)
  {
    if s == [] then []
    else
      assert s == [s[0]] + s[1..];
      var rest := Above(s[1..], threshold);
      if Exceeds(s[0].score, threshold) then
        KeepHead(s, rest);
        [s[0]] + rest
      else rest
  }

  /** Filtering never adds an entry, nor repeats one. */
  lemma {:induction false} AboveShrinks(s: seq<Entry>, threshold: real)
    ensures multiset(Above(s, threshold)) <= multiset(s)
  {
    if s != [] {
      assert s == [s[0]] + s[1..];
      AboveShrinks(s[1..], threshold);
    }
  }

  /** Keeping the head of a ranked sequence in front of entries drawn from
      its tail keeps the result ranked. */
  lemma KeepHead(s: seq<Entry>, rest: seq<Entry>)
    requires s != [] && forall e :: e in rest ==> e in s[1..]
    requires Ranked(s) ==> Ranked(rest)
    ensures Ranked(s) ==> Ranked([s[0]] + rest)
  {
    if Ranked(s) {
      forall k | 0 <= k < |rest|
        ensures AtLeast(s[0].score, rest[k].score)
      {
        assert rest[k] in rest;
        RankedHead(s, rest[k]);
      }
      RankedCons(s[0], rest);
    }
  }

  /** The head of a ranked sequence is at least every later entry. */
  lemma RankedHead(s: seq<Entry>, e: Entry)
    requires Ranked(s) && s != [] && e in s[1..]
    ensures AtLeast(s[0].score, e.score)
  {
    var j :| 0 <= j < |s| - 1 && s[1..][j] == e;
    assert s[j + 1] == e;
  }

  /** An entry at least as large as every entry of a ranked sequence can be
      put in front of it. */
  lemma RankedCons(x: Entry, rest: seq<Entry>)
    requires Ranked(rest)
    requires forall k :: 0 <= k < |rest| ==> AtLeast(x.score, rest[k].score)
    ensures Ranked([x] + rest)
  {
    var r := [x] + rest;
    forall i, j | 0 <= i < j < |r|
      ensures AtLeast(r[i].score, r[j].score)
    {
      assert r[j] == rest[j - 1];
      if i > 0 {
        assert r[i] == rest[i - 1];
      }
    }
  }

  /** `list.remove(n)` guarded by `n in list`: only the first entry called
      `n` goes. */
  function DropFirst(s: seq<Entry>, n: string): (r: seq<Entry>)
    ensures forall e :: e in r ==> e in s
    ensures forall e :: e in s && e.name != n ==> e in r
    ensures Ranked(s) ==> Ranked(r)
  {
    if s == [] then []
    else
      assert s == [s[0]] + s[1..];
      if s[0].name == n then s[1..]
      else
        var rest := DropFirst(s[1..], n);
        KeepHead(s, rest);
        [s[0]] + rest
  }

  /** Removal takes out at most one entry and adds none; it takes one out
      exactly when some entry is called `n`. */
  lemma {:induction false} DropFirstShrinks(s: seq<Entry>, n: string)
    ensures multiset(DropFirst(s, n)) <= multiset(s)
    ensures |s| - 1 <= |DropFirst(s, n)| <= |s|
    ensures |DropFirst(s, n)| == |s| <==> forall e :: e in s ==> e.name != n
    decreases |s|
  {
    if s != [] {
      assert s == [s[0]] + s[1..];
      DropFirstShrinks(s[1..], n);
      assert s[0] in s;
    }
  }

  function Names(s: seq<Entry>): (r: seq<string>)
    ensures |r| == |s| && forall i :: 0 <= i < |s| ==> r[i] == s[i].name
  {
    seq(|s|, i requires 0 <= i < |s| => s[i].name)
  }

  /** What `get_important_features` returns: the selected column names and
      the ranked magnitudes. */
  datatype Selection = Selection(features: seq<string>, ranked: seq<Entry>)

  /** The entries behind the selected names. */
  function Kept(ranked: seq<Entry>, threshold: real): seq<Entry> {
    DropFirst(Above(ranked, threshold), Cleaning.Target)
  }

  /** `get_important_features` given the `G3` column of the correlation
      matrix. The second component is the whole series by descending
      magnitude; the first lists the names the threshold keeps, in that
      order, without `G3`. */
  function ImportantFeatures(corr: seq<Entry>, threshold: real): (r: Selection)
    ensures Ranked(r.ranked) && multiset(r.ranked) == multiset(Magnitudes(corr))
    ensures r.features == Names(Kept(r.ranked, threshold))
  {
    var ranked := Rank(Magnitudes(corr));
    Selection(Names(Kept(ranked, threshold)), ranked)
  }

  /** In a ranked series, once one entry fails the threshold every later
      one does. */
  lemma NoneAbove(s: seq<Entry>, threshold: real)
    requires Ranked(s) && s != [] && !Exceeds(s[0].score, threshold)
    ensures Above(s, threshold) == []
  {
    forall j | 0 <= j < |s|
      ensures !Exceeds(s[j].score, threshold)
    {
      if j > 0 {
        assert AtLeast(s[0].score, s[j].score);
      }
    }
    AllBelow(s, threshold);
  }

  lemma {:induction false} AllBelow(s: seq<Entry>, threshold: real)
    requires forall j :: 0 <= j < |s| ==> !Exceeds(s[j].score, threshold)
    ensures Above(s, threshold) == []
    decreases |s|
  {
    if s != [] {
      AllBelow(s[1..], threshold);
    }
  }

  /** On a ranked series a higher threshold keeps a prefix of what a lower
      one keeps. */
  lemma {:induction false} AbovePrefix(s: seq<Entry>, lo: real, hi: real)
    requires Ranked(s) && lo <= hi
    ensures Above(s, hi) <= Above(s, lo)
    decreases |s|
  {
    if s != [] {
      assert Ranked(s[1..]);
      AbovePrefix(s[1..], lo, hi);
      if !Exceeds(s[0].score, hi) {
        NoneAbove(s, hi);
      }
    }
  }

  /** Dropping the first entry called `n` keeps the prefix relation. */
  lemma {:induction false} DropFirstPrefix(a: seq<Entry>, b: seq<Entry>, n: string)
    requires a <= b
    ensures DropFirst(a, n) <= DropFirst(b, n)
  {
    if a != [] {
      assert a[0] == b[0] && a[1..] <= b[1..];
      DropFirstPrefix(a[1..], b[1..], n);
    }
  }

  /** No two entries share a name. */
  predicate UniqueNames(s: seq<Entry>) {
    forall i, j :: 0 <= i < j < |s| ==> s[i].name != s[j].name
  }

  /** Taking a sub-multiset of entries cannot create a repeated name. */
  lemma UniqueNamesShrink(a: seq<Entry>, b: seq<Entry>)
    requires multiset(a) <= multiset(b) && UniqueNames(b)
    ensures UniqueNames(a)
  {
    forall i, j | 0 <= i < j < |a|
      ensures a[i].name != a[j].name
    {
      if a[i].name == a[j].name {
        assert a[i] in multiset(b) && a[j] in multiset(b);
        var k1 :| 0 <= k1 < |b| && b[k1] == a[i];
        var k2 :| 0 <= k2 < |b| && b[k2] == a[j];
        assert k1 == k2;
        CountTwice(a, i, j);
        CountOnce(b, k1);
        assert false;
      }
    }
  }

  /** When at most one entry is called `n`, dropping the first removes it. */
  lemma DropFirstRemoves(s: seq<Entry>, n: string)
    requires UniqueNames(s)
    ensures n !in Names(DropFirst(s, n))
  {
    var r := DropFirst(s, n);
    DropFirstGone(s, n);
    forall i | 0 <= i < |r|
      ensures Names(r)[i] != n
    {
      assert r[i] in r;
    }
  }

  /** No entry left after the removal is called `n`. */
  lemma {:induction false} DropFirstGone(s: seq<Entry>, n: string)
    requires UniqueNames(s)
    ensures forall e :: e in DropFirst(s, n) ==> e.name != n
    decreases |s|
  {
    if s != [] {
      if s[0].name == n {
        forall e | e in s[1..]
          ensures e.name != n
        {
          var k :| 0 <= k < |s| - 1 && s[1..][k] == e;
          assert s[k + 1] == e;
        }
      } else {
        UniqueNamesTail(s);
        DropFirstGone(s[1..], n);
      }
    }
  }

  /** Dropping the head keeps names unique. */
  lemma UniqueNamesTail(s: seq<Entry>)
    requires UniqueNames(s) && s != []
    ensures UniqueNames(s[1..])
  {
    forall i, j | 0 <= i < j < |s| - 1
      ensures s[1..][i].name != s[1..][j].name
    {
      assert s[1..][i] == s[i + 1] && s[1..][j] == s[j + 1];
    }
  }

  /** The features come in order of non-increasing magnitude: the entries
      behind them are ranked. */
  lemma SelectionOrdered(corr: seq<Entry>, threshold: real)
    ensures var r := ImportantFeatures(corr, threshold);
      Ranked(Kept(r.ranked, threshold)) && r.features == Names(Kept(r.ranked, threshold))
  {
  }

  /** Every name kept from a series belongs to one of its entries above the
      threshold. */
  lemma KeptFrom(ranked: seq<Entry>, threshold: real, n: string)
    requires n in Names(Kept(ranked, threshold))
    ensures exists e :: e in ranked && e.name == n && Exceeds(e.score, threshold)
  {
    var kept := Kept(ranked, threshold);
    var k :| 0 <= k < |kept| && Names(kept)[k] == n;
    var e := kept[k];
    assert e in kept;
    assert e in Above(ranked, threshold);
  }

  /** Every entry above the threshold and not called `G3` is kept. */
  lemma KeptHas(ranked: seq<Entry>, threshold: real, e: Entry)
    requires e in ranked && Exceeds(e.score, threshold) && e.name != Cleaning.Target
    ensures e.name in Names(Kept(ranked, threshold))
  {
    var kept := Kept(ranked, threshold);
    assert e in Above(ranked, threshold);
    var k :| 0 <= k < |kept| && kept[k] == e;
    assert Names(kept)[k] == e.name;
  }

  /** Every selected name belongs to a column whose correlation magnitude is
      strictly above the threshold (so never to a NaN one). */
  lemma SelectionSound(corr: seq<Entry>, threshold: real)
    ensures forall n :: n in ImportantFeatures(corr, threshold).features ==>
      exists i :: 0 <= i < |corr| && corr[i].name == n && Exceeds(Magnitude(corr[i].score), threshold)
  {
    var r := ImportantFeatures(corr, threshold);
    forall n | n in r.features
      ensures exists i :: 0 <= i < |corr| && corr[i].name == n && Exceeds(Magnitude(corr[i].score), threshold)
    {
      KeptFrom(r.ranked, threshold, n);
      var e :| e in r.ranked && e.name == n && Exceeds(e.score, threshold);
      RankedFrom(corr, r.ranked, e);
    }
  }

  /** Every entry of a rearrangement of the magnitudes comes from a column
      of the correlation series. */
  lemma RankedFrom(corr: seq<Entry>, ranked: seq<Entry>, e: Entry)
    requires multiset(ranked) == multiset(Magnitudes(corr)) && e in ranked
    ensures exists i :: 0 <= i < |corr| && corr[i].name == e.name && e.score == Magnitude(corr[i].score)
  {
    var mags := Magnitudes(corr);
    assert e in multiset(ranked);
    assert e in mags;
    var i :| 0 <= i < |mags| && mags[i] == e;
    assert corr[i].name == e.name;
  }

  /** Every column other than `G3` whose correlation magnitude is strictly
      above the threshold is selected. */
  lemma SelectionComplete(corr: seq<Entry>, threshold: real)
    ensures forall i :: 0 <= i < |corr| ==>
      (corr[i].name != Cleaning.Target && Exceeds(Magnitude(corr[i].score), threshold) ==>
        corr[i].name in ImportantFeatures(corr, threshold).features)
  {
    var r := ImportantFeatures(corr, threshold);
    var mags := Magnitudes(corr);
    forall i | 0 <= i < |corr| && corr[i].name != Cleaning.Target && Exceeds(Magnitude(corr[i].score), threshold)
      ensures corr[i].name in r.features
    {
      var e := mags[i];
      assert e in multiset(mags);
      assert e in multiset(r.ranked);
      KeptHas(r.ranked, threshold, e);
    }
  }

  /** With distinct column names, the selection is exactly the columns other
      than `G3` above the threshold, each named once. */
  lemma SelectionExact(corr: seq<Entry>, threshold: real)
    requires Distinct(Names(corr))
    ensures forall n :: n in ImportantFeatures(corr, threshold).features <==>
      n != Cleaning.Target &&
      exists i :: 0 <= i < |corr| && corr[i].name == n && Exceeds(Magnitude(corr[i].score), threshold)
    ensures Distinct(ImportantFeatures(corr, threshold).features)
  {
    var r := ImportantFeatures(corr, threshold);
    var mags := Magnitudes(corr);
    var above := Above(r.ranked, threshold);
    var kept := Kept(r.ranked, threshold);
    assert UniqueNames(mags) by {
      forall i, j | 0 <= i < j < |mags|
        ensures mags[i].name != mags[j].name
      {
        assert Names(corr)[i] == corr[i].name && Names(corr)[j] == corr[j].name;
      }
    }
    AboveShrinks(r.ranked, threshold);
    DropFirstShrinks(above, Cleaning.Target);
    UniqueNamesShrink(above, mags);
    UniqueNamesShrink(kept, above);
    DropFirstRemoves(above, Cleaning.Target);
    SelectionSound(corr, threshold);
    SelectionComplete(corr, threshold);
    forall i, j | 0 <= i < j < |r.features|
      ensures r.features[i] != r.features[j]
    {
      assert r.features[i] == kept[i].name && r.features[j] == kept[j].name;
    }
  }

  /** Raising the threshold can only shorten the selection: the stricter
      selection is a prefix, hence a subset, of the looser one. */
  lemma ThresholdMonotone(corr: seq<Entry>, lo: real, hi: real)
    requires lo <= hi
    ensures ImportantFeatures(corr, hi).features <= ImportantFeatures(corr, lo).features
    ensures forall n :: n in ImportantFeatures(corr, hi).features ==> n in ImportantFeatures(corr, lo).features
  {
    var ranked := ImportantFeatures(corr, lo).ranked;
    assert ImportantFeatures(corr, hi).ranked == ranked;
    AbovePrefix(ranked, lo, hi);
    DropFirstPrefix(Above(ranked, hi), Above(ranked, lo), Cleaning.Target);
    NamesPrefix(Kept(ranked, hi), Kept(ranked, lo));
  }

  /** The names of a prefix are a prefix of the names. */
  lemma NamesPrefix(a: seq<Entry>, b: seq<Entry>)
    requires a <= b
    ensures Names(a) <= Names(b)
    ensures forall n :: n in Names(a) ==> n in Names(b)
  {
    assert Names(a) == Names(b)[..|a|];
  }
}
