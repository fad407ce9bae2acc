/** The hyperparameter grid of the retraining loop and the candidates an
    exhaustive grid search visits: one value for each parameter name, in
    every combination. */
module Grid {

  datatype ParamValue =
    | RealValue(r: real)
    | IntValue(n: int)
    | RangeValue(lo: int, hi: int)
    | TextValue(s: string)

  /** The `parameters` dict, in its literal order: each name with its tuple
      of candidate values. */
  const Parameters: seq<(string, seq<ParamValue>)> := [
    ("vect__max_df", [RealValue(0.5), RealValue(0.75), RealValue(1.0)]),
    ("vect__ngram_range", [RangeValue(1, 1), RangeValue(1, 2)]),
    ("clf__max_iter", [IntValue(20)]),
    ("clf__alpha", [RealValue(0.00001), RealValue(0.000001)]),
    ("clf__penalty", [TextValue("l2"), TextValue("elasticnet")])
  ]

  /** Cross-validation folds per candidate (the search's default). */
  const Folds: nat := 5

  function Names(grid: seq<(string, seq<ParamValue>)>): (names: seq<string>) {
    seq(|grid|, i requires 0 <= i < |grid| => grid[i].0)
  }

  function Choices(grid: seq<(string, seq<ParamValue>)>): (choices: seq<seq<ParamValue>>) {
    seq(|grid|, i requires 0 <= i < |grid| => grid[i].1)
  }

  predicate Distinct<T(==)>(s: seq<T>) {
    forall i, j :: 0 <= i < j < |s| ==> s[i] != s[j]
  }

  function Prepend<T>(x: T, tails: seq<seq<T>>): (r: seq<seq<T>>)
    ensures |r| == |tails| && forall i :: 0 <= i < |tails| ==> r[i] == [x] + tails[i]
  {
    seq(|tails|, i requires 0 <= i < |tails| => [x] + tails[i])
  }

  /** Every value of `xs`, in order, in front of every tail. */
  function Extend<T>(xs: seq<T>, tails: seq<seq<T>>): (r: seq<seq<T>>) {
    if xs == [] then [] else Prepend(xs[0], tails) + Extend(xs[1..], tails)
  }

  /** The Cartesian product of the choice lists: every sequence taking its
      k-th element from `choices[k]`. */
  function Product<T>(choices: seq<seq<T>>): (r: seq<seq<T>>) {
    if choices == [] then [[]] else Extend(choices[0], Product(choices[1..]))
  }

  function SizeProduct<T>(choices: seq<seq<T>>): (n: nat) {
    if choices == [] then 1 else |choices[0]| * SizeProduct(choices[1..])
  }

  /** The candidates of the search: candidate c gives parameter `Names(grid)[k]`
      the value `c[k]`. */
  function Candidates(grid: seq<(string, seq<ParamValue>)>): (cs: seq<seq<ParamValue>>) {
    Product(Choices(grid))
  }

  lemma {:induction false} ExtendLength<T>(xs: seq<T>, tails: seq<seq<T>>)
    ensures |Extend(xs, tails)| == |xs| * |tails|
  {
    if xs != [] {
      ExtendLength(xs[1..], tails);
      calc {
        |Extend(xs, tails)|;
        |tails| + |Extend(xs[1..], tails)|;
        |tails| + (|xs| - 1) * |tails|;
        { assert (|xs| - 1) * |tails| == |xs| * |tails| - |tails|; }
        |xs| * |tails|;
      }
    }
  }

  lemma {:induction false} ProductLength<T>(choices: seq<seq<T>>)
    ensures |Product(choices)| == SizeProduct(choices)
  {
    if choices != [] {
      ProductLength(choices[1..]);
      ExtendLength(choices[0], Product(choices[1..]));
    }
  }

  lemma {:induction false} ExtendMember<T>(xs: seq<T>, tails: seq<seq<T>>, a: seq<T>)
    ensures a in Extend(xs, tails) <==> |a| > 0 && a[0] in xs && a[1..] in tails
  {
    if xs != [] {
      ExtendMember(xs[1..], tails, a);
      var p := Prepend(xs[0], tails);
      if a in p {
        var i :| 0 <= i < |p| && p[i] == a;
        assert a[1..] == tails[i];
      }
      if |a| > 0 && a[0] == xs[0] && a[1..] in tails {
        var i :| 0 <= i < |tails| && tails[i] == a[1..];
        assert p[i] == [a[0]] + a[1..] == a;
      }
      if |a| > 0 {
        assert a[0] in xs <==> a[0] == xs[0] || a[0] in xs[1..] by {
          assert xs == [xs[0]] + xs[1..];
        }
      }
    }
  }

  /** A sequence is a candidate exactly when it has one position per choice
      list and takes each position's value from that list. */
  lemma {:induction false} ProductMember<T>(choices: seq<seq<T>>, a: seq<T>)
    ensures a in Product(choices) <==>
              |a| == |choices| && forall k :: 0 <= k < |a| ==> a[k] in choices[k]
  {
    if choices == [] {
    } else {
      ExtendMember(choices[0], Product(choices[1..]), a);
      if |a| > 0 {
        ProductMember(choices[1..], a[1..]);
        if |a| == |choices| && forall k :: 0 <= k < |a| ==> a[k] in choices[k] {
          forall k | 0 <= k < |a[1..]|
            ensures a[1..][k] in choices[1..][k]
          {
            assert a[k + 1] in choices[k + 1];
          }
        }
        if a[0] in choices[0] && a[1..] in Product(choices[1..]) {
          forall k | 0 <= k < |a|
            ensures a[k] in choices[k]
          {
            if k > 0 {
              assert a[1..][k - 1] in choices[1..][k - 1];
            }
          }
        }
      }
    }
  }

  lemma {:induction false} ExtendDistinct<T>(xs: seq<T>, tails: seq<seq<T>>)
    requires Distinct(xs) && Distinct(tails)
    ensures Distinct(Extend(xs, tails))
  {
    if xs != [] {
      ExtendDistinct(xs[1..], tails);
      var p := Prepend(xs[0], tails);
      var rest := Extend(xs[1..], tails);
      forall i, j | 0 <= i < j < |tails|
        ensures p[i] != p[j]
      {
        assert p[i][1..] == tails[i] && p[j][1..] == tails[j];
      }
      forall i, j | 0 <= i < |p| && 0 <= j < |rest|
        ensures p[i] != rest[j]
      {
        ExtendMember(xs[1..], tails, rest[j]);
        assert rest[j] in rest;
        assert rest[j][0] in xs[1..];
        assert p[i][0] == xs[0];
      }
      var e := p + rest;
      forall i, j | 0 <= i < j < |e|
        ensures e[i] != e[j]
      {
        if j < |p| {
          assert e[i] == p[i] && e[j] == p[j];
        } else if i >= |p| {
          assert e[i] == rest[i - |p|] && e[j] == rest[j - |p|];
        } else {
          assert e[i] == p[i] && e[j] == rest[j - |p|];
        }
      }
    }
  }

  /** No candidate is visited twice when no choice list repeats a value. */
  lemma {:induction false} ProductDistinct<T>(choices: seq<seq<T>>)
    requires forall k :: 0 <= k < |choices| ==> Distinct(choices[k])
    ensures Distinct(Product(choices))
  {
    if choices != [] {
      ProductDistinct(choices[1..]);
      ExtendDistinct(choices[0], Product(choices[1..]));
    }
  }

  /** The five parameter names in their literal order. */
  lemma ParameterNames()
    ensures Names(Parameters)
            == ["vect__max_df", "vect__ngram_range", "clf__max_iter", "clf__alpha", "clf__penalty"]
  {
  }

  /** The grid's candidates are exactly the assignments of one listed value to
      each of the five names. */
  lemma GridCandidates(c: seq<ParamValue>)
    ensures c in Candidates(Parameters) <==>
              |c| == 5 && forall k :: 0 <= k < 5 ==> c[k] in Parameters[k].1
  {
    ProductMember(Choices(Parameters), c);
  }

  /** Each candidate is visited once. */
  lemma GridDistinct()
    ensures Distinct(Candidates(Parameters))
  {
    forall k | 0 <= k < |Parameters|
      ensures Distinct(Choices(Parameters)[k])
    {
    }
    ProductDistinct(Choices(Parameters));
  }

  /** 3 * 2 * 1 * 2 * 2 = 24 candidates, and 5 folds each make 120 fits. */
  lemma GridSize()
    ensures |Candidates(Parameters)| == 24
    ensures |Candidates(Parameters)| * Folds == 120
  {
    var cs := Choices(Parameters);
    ProductLength(cs);
    assert |cs[0]| == 3 && |cs[1]| == 2 && |cs[2]| == 1 && |cs[3]| == 2 && |cs[4]| == 2;
    assert cs[4..][1..] == [];
    assert SizeProduct(cs[4..]) == 2;
    assert cs[3..][1..] == cs[4..];
    assert SizeProduct(cs[3..]) == 4;
    assert cs[2..][1..] == cs[3..];
    assert SizeProduct(cs[2..]) == 4;
    assert cs[1..][1..] == cs[2..];
    assert SizeProduct(cs[1..]) == 8;
    assert SizeProduct(cs) == 24;
  }
}
