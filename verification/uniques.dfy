/** The `uniques` subcommand: every distinct line of the input, printed once,
    at its first occurrence, in input order. Lines arrive already split;
    reading and printing are outside the model, and the hash set of the
    source is a mathematical set. */
module UniqueFilter {

  /** No line occurs twice. */
  predicate Distinct(s: seq<string>)
  {
    forall i, j :: 0 <= i < j < |s| ==> s[i] != s[j]
  }

  /** The 0-based index of the first occurrence of x in xs. */
  function FirstIndex(xs: seq<string>, x: string): (k: nat)
    requires x in xs
    ensures k < |xs| && xs[k] == x
    ensures forall j :: 0 <= j < k ==> xs[j] != x
  {
    if xs[0] == x then 0 else 1 + FirstIndex(xs[1..], x)
  }

  /** Strictly increasing first-occurrence positions in xs. */
  predicate InFirstOccurrenceOrder(ys: seq<string>, xs: seq<string>)
    requires forall y :: y in ys ==> y in xs
  {
    forall i, j :: 0 <= i < j < |ys| ==> FirstIndex(xs, ys[i]) < FirstIndex(xs, ys[j])
  }

  /** What has been printed after the lines xs have streamed past: the last
      line is printed exactly when it was not printed before. */
  function Uniques(xs: seq<string>): (r: seq<string>)
    ensures Distinct(r)
    ensures forall x :: x in r <==> x in xs
    ensures |r| <= |xs|
    decreases |xs|
  {
    if |xs| == 0 then []
    else
      var u := Uniques(xs[..|xs| - 1]);
      var x := xs[|xs| - 1];
      if x in u then u else u + [x]
  }

  /** The loop of rstools' `uniques`: a seen-set consulted before each line, the line
      printed and inserted when absent. */
  method UniqueLines(xs: seq<string>) returns (out: seq<string>)
    ensures out == Uniques(xs)
  {
    var seen: set<string> := {};
    out := [];
    var i := 0;
    while i < |xs|
      invariant i <= |xs|
      invariant out == Uniques(xs[..i])
      invariant forall x :: x in seen <==> x in out
    {
      assert xs[..i + 1][..i] == xs[..i];
      var line := xs[i];
      if line !in seen {
        out := out + [line];
        seen := seen + {line};
      }
      i := i + 1;
    }
    assert xs[..i] == xs;
  }

  /** The first occurrence of a line in a prefix is its first occurrence in
      the whole sequence. */
  lemma {:induction false} FirstIndexPrefix(xs: seq<string>, n: nat, x: string)
    requires n <= |xs| && x in xs[..n]
    ensures FirstIndex(xs[..n], x) == FirstIndex(xs, x)
  {
    var k := FirstIndex(xs[..n], x);
    var k' := FirstIndex(xs, x);
    assert xs[k] == x;
    assert xs[..n][k'] == x;
  }

  /** Lines are printed in the order of their first occurrence. The
      first-occurrence positions are the witness that the output is a
      subsequence of the input: they strictly increase (first ensures), and
      each selects the output line at its rank (second ensures, which also
      follows from FirstIndex's own postcondition). */
  lemma {:induction false} UniquesFirstOccurrenceOrder(xs: seq<string>)
    ensures InFirstOccurrenceOrder(Uniques(xs), xs)
    ensures forall k :: 0 <= k < |Uniques(xs)| ==> xs[FirstIndex(xs, Uniques(xs)[k])] == Uniques(xs)[k]
    decreases |xs|
  {
    if |xs| > 0 {
      var n := |xs| - 1;
      var pre := xs[..n];
      var u, r := Uniques(pre), Uniques(xs);
      UniquesFirstOccurrenceOrder(pre);
      forall k | 0 <= k < |u|
        ensures FirstIndex(pre, u[k]) == FirstIndex(xs, u[k]) < n
      {
        FirstIndexPrefix(xs, n, u[k]);
      }
      if xs[n] !in u {
        assert r == u + [xs[n]];
        assert xs[n] !in pre;
        assert FirstIndex(xs, xs[n]) == n;
      }
      forall i, j | 0 <= i < j < |r|
        ensures FirstIndex(xs, r[i]) < FirstIndex(xs, r[j])
      {
        if j < |u| {
          assert FirstIndex(pre, u[i]) < FirstIndex(pre, u[j]);
        }
      }
    }
  }

  /** An input without repeated lines passes through unchanged. */
  lemma {:induction false} UniquesOfDistinct(xs: seq<string>)
    requires Distinct(xs)
    ensures Uniques(xs) == xs
    decreases |xs|
  {
    if |xs| > 0 {
      var n := |xs| - 1;
      assert Distinct(xs[..n]);
      UniquesOfDistinct(xs[..n]);
      assert xs[n] !in xs[..n];
      assert xs[..n] + [xs[n]] == xs;
    }
  }

  /** Running the filter on its own output returns that output. */
  lemma UniquesIdempotent(xs: seq<string>)
    ensures Uniques(Uniques(xs)) == Uniques(xs)
  {
    UniquesOfDistinct(Uniques(xs));
  }

  /** A non-empty sequence contains its head. */
  lemma EmptyOrHeadMember(s: seq<string>)
    ensures |s| == 0 || s[0] in s
  {
  }

  /** Dropping the head of a duplicate-free ordered sequence keeps it
      duplicate-free and ordered, and removes exactly the head's line. */
  lemma DropHead(s: seq<string>, xs: seq<string>)
    requires |s| > 0 && Distinct(s)
    requires forall y :: y in s ==> y in xs
    requires InFirstOccurrenceOrder(s, xs)
    ensures Distinct(s[1..])
    ensures forall y :: y in s[1..] <==> y in s && y != s[0]
    ensures InFirstOccurrenceOrder(s[1..], xs)
  {
    forall y | y in s[1..]
      ensures y in s && y != s[0]
    {
      var k :| 0 <= k < |s[1..]| && s[1..][k] == y;
      assert s[k + 1] == y;
    }
    forall y | y in s && y != s[0]
      ensures y in s[1..]
    {
      var k :| 0 <= k < |s| && s[k] == y;
      assert s[1..][k - 1] == y;
    }
  }

  /** Two duplicate-free sequences over the same lines, both in
      first-occurrence order with respect to xs, are equal. */
  lemma {:induction false} OrderedDistinctUnique(u: seq<string>, v: seq<string>, xs: seq<string>)
    requires Distinct(u) && Distinct(v)
    requires forall y :: y in u <==> y in v
    requires forall y :: y in u ==> y in xs
    requires InFirstOccurrenceOrder(u, xs) && InFirstOccurrenceOrder(v, xs)
    ensures u == v
    decreases |u|
  {
    if |u| > 0 {
      assert u[0] in v;
      assert v[0] in v;
      var j :| 0 <= j < |v| && v[j] == u[0];
      var i :| 0 <= i < |u| && u[i] == v[0];
      assert FirstIndex(xs, v[0]) <= FirstIndex(xs, v[j]);
      assert FirstIndex(xs, u[0]) <= FirstIndex(xs, u[i]);
      assert u[0] == v[0];
      DropHead(u, xs);
      DropHead(v, xs);
      OrderedDistinctUnique(u[1..], v[1..], xs);
      assert u == [u[0]] + u[1..] && v == [v[0]] + v[1..];
    } else {
      EmptyOrHeadMember(v);
    }
  }

  /** The output is characterised by its properties: any duplicate-free
      sequence holding exactly the lines of xs, in first-occurrence order, is
      what the filter prints. */
  lemma UniquesCharacterised(xs: seq<string>, ys: seq<string>)
    requires Distinct(ys)
    requires forall y :: y in ys <==> y in xs
    requires InFirstOccurrenceOrder(ys, xs)
    ensures ys == Uniques(xs)
  {
    UniquesFirstOccurrenceOrder(xs);
    OrderedDistinctUnique(ys, Uniques(xs), xs);
  }

  /** A worked example: repeated lines are dropped after their first
      occurrence. */
  lemma UniquesExample()
    ensures Uniques(["x", "y", "x", "z", "y"]) == ["x", "y", "z"]
  {
    var xs := ["x", "y", "x", "z", "y"];
    assert xs[..1][..0] == [];
    assert xs[..2][..1] == xs[..1];
    assert xs[..3][..2] == xs[..2];
    assert xs[..4][..3] == xs[..3];
    assert xs[..4] == xs[..5][..4];
    assert xs[..5] == xs;
    assert Uniques(xs[..2]) == ["x", "y"];
  }
}
