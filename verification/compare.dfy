/** The `compare` subcommand: two line sequences walked in lockstep, reporting
    the first position where they differ together with a bounded window of the
    matched pairs that precede it. Lines arrive already split; reading,
    decoding and printing are outside the model. */
module LineComparer {

  /** One line written to standard output. The header "difference found on
      line N" is kept abstract as the line number it reports. */
  datatype OutLine = Header(line: nat) | Text(s: string)

  function Min(x: nat, y: nat): nat
  {
    if x <= y then x else y
  }

  /** A pair of lines as the report prints it: the first, a space, the second. */
  function Joined(s1: string, s2: string): string
  {
    s1 + " " + s2
  }

  /** The joined pairs at 0-based indices lo .. hi-1, oldest first. */
  function Pairs(a: seq<string>, b: seq<string>, lo: nat, hi: nat): seq<string>
    requires lo <= hi <= |a| && hi <= |b|
  {
    seq(hi - lo, k requires 0 <= k < hi - lo => Joined(a[lo + k], b[lo + k]))
  }

  /** The context window once the first i pairs have matched: the most recent
      min(ctx, i) of them, oldest first. */
  function Window(a: seq<string>, b: seq<string>, ctx: nat, i: nat): (w: seq<string>)
    requires i <= |a| && i <= |b|
    ensures |w| == Min(ctx, i) <= ctx
  {
    Pairs(a, b, i - Min(ctx, i), i)
  }

  /** Both sequences agree pairwise on the indices lo .. hi-1. */
  predicate AgreeBetween(a: seq<string>, b: seq<string>, lo: nat, hi: nat)
    requires hi <= |a| && hi <= |b|
  {
    forall j :: lo <= j < hi ==> a[j] == b[j]
  }

  /** Both sequences agree pairwise on their first n indices. */
  predicate AgreeUpTo(a: seq<string>, b: seq<string>, n: nat)
    requires n <= |a| && n <= |b|
  {
    AgreeBetween(a, b, 0, n)
  }

  function Texts(lines: seq<string>): seq<OutLine>
  {
    seq(|lines|, k requires 0 <= k < |lines| => Text(lines[k]))
  }

  /** What is printed for a mismatch: the header, the buffered context, then
      the mismatched pair. */
  function Report(line: nat, context: seq<string>, mismatch: string): (r: seq<OutLine>)
    ensures |r| == |context| + 2
    ensures r[0] == Header(line) && r[|r| - 1] == Text(mismatch)
  {
    [Header(line)] + Texts(context) + [Text(mismatch)]
  }

  /** One matched step on the context buffer: append the new pair, then drop
      the oldest entry if the buffer now holds more than ctx entries. */
  function Push(buf: seq<string>, s: string, ctx: nat): (r: seq<string>)
    ensures |buf| <= ctx ==> |r| == Min(ctx, |buf| + 1)
  {
    var pushed := buf + [s];
    if |pushed| > ctx then pushed[1..] else pushed
  }

  /** The comparison loop from 0-based position i onward, with `buf` the
      context buffer built so far. Running out of either sequence ends it
      silently; otherwise it reports the first mismatch and stops, so from a
      buffer within capacity it prints at most ctx + 2 lines. */
  function Scan(a: seq<string>, b: seq<string>, ctx: nat, i: nat, buf: seq<string>): (r: seq<OutLine>)
    requires i <= |a| && i <= |b|
    ensures |buf| <= ctx ==> |r| <= ctx + 2
    decreases |a| - i
  {
    if i == |a| || i == |b| then []
    else if a[i] != b[i] then Report(i + 1, buf, Joined(a[i], b[i]))
    else Scan(a, b, ctx, i + 1, Push(buf, Joined(a[i], b[i]), ctx))
  }

  /** From position i the loop prints nothing exactly when the remaining
      common pairs agree; otherwise its output starts with a header naming the
      first mismatch after i and ends with that mismatched pair. */
  lemma {:induction false} ScanOutcome(a: seq<string>, b: seq<string>, ctx: nat, i: nat, buf: seq<string>)
    requires i <= |a| && i <= |b|
    ensures var r := Scan(a, b, ctx, i, buf);
            && (r == [] <==> AgreeBetween(a, b, i, Min(|a|, |b|)))
            && (r != [] ==>
                  && 2 <= |r|
                  && r[0].Header?
                  && i < r[0].line <= Min(|a|, |b|)
                  && AgreeBetween(a, b, i, r[0].line - 1)
                  && a[r[0].line - 1] != b[r[0].line - 1]
                  && r[|r| - 1] == Text(Joined(a[r[0].line - 1], b[r[0].line - 1])))
    decreases |a| - i
  {
    if i < |a| && i < |b| {
      if a[i] == b[i] {
        var buf' := Push(buf, Joined(a[i], b[i]), ctx);
        ScanOutcome(a, b, ctx, i + 1, buf');
        assert Scan(a, b, ctx, i, buf) == Scan(a, b, ctx, i + 1, buf');
      } else {
        assert Scan(a, b, ctx, i, buf) == Report(i + 1, buf, Joined(a[i], b[i]));
      }
    } else {
      assert Scan(a, b, ctx, i, buf) == [];
    }
  }

  /** The whole comparison: the loop started at the first pair with an empty
      buffer. */
  function Compare(a: seq<string>, b: seq<string>, ctx: nat): (r: seq<OutLine>)
    ensures |r| <= ctx + 2
    ensures r == [] <==> AgreeUpTo(a, b, Min(|a|, |b|))
    ensures r != [] ==>
              && r[0].Header?
              && 1 <= r[0].line <= Min(|a|, |b|)
              && AgreeUpTo(a, b, r[0].line - 1)
              && a[r[0].line - 1] != b[r[0].line - 1]
  {
    ScanOutcome(a, b, ctx, 0, []);
    Scan(a, b, ctx, 0, [])
  }

  /** A matched step turns the window after i pairs into the window after
      i + 1 pairs: the buffer always holds the most recent min(ctx, i)
      matched pairs, oldest first. */
  lemma PushWindow(a: seq<string>, b: seq<string>, ctx: nat, i: nat)
    requires i < |a| && i < |b|
    ensures Push(Window(a, b, ctx, i), Joined(a[i], b[i]), ctx) == Window(a, b, ctx, i + 1)
  {
    var w := Window(a, b, ctx, i);
    var p := Push(w, Joined(a[i], b[i]), ctx);
    var w' := Window(a, b, ctx, i + 1);
    assert |p| == |w'|;
    forall k | 0 <= k < |p|
      ensures p[k] == w'[k]
    {
      var pushed := w + [Joined(a[i], b[i])];
      assert p[k] == pushed[|w| + 1 - |p| + k];
    }
  }

  /** From any position i up to the first mismatch at 1-based line k, the loop
      with the window after i pairs prints exactly the report for line k. */
  lemma {:induction false} ScanToMismatch(a: seq<string>, b: seq<string>, ctx: nat, i: nat, k: nat)
    requires i < k <= |a| && k <= |b|
    requires AgreeBetween(a, b, i, k - 1)
    requires a[k - 1] != b[k - 1]
    ensures Scan(a, b, ctx, i, Window(a, b, ctx, i))
         == Report(k, Window(a, b, ctx, k - 1), Joined(a[k - 1], b[k - 1]))
    decreases k - i
  {
    var w := Window(a, b, ctx, i);
    if i < k - 1 {
      assert a[i] == b[i];
      PushWindow(a, b, ctx, i);
      ScanToMismatch(a, b, ctx, i + 1, k);
      assert Scan(a, b, ctx, i, w) == Scan(a, b, ctx, i + 1, Push(w, Joined(a[i], b[i]), ctx));
    } else {
      assert Scan(a, b, ctx, i, w) == Report(k, w, Joined(a[i], b[i]));
    }
  }

  /** Inputs that agree on every index both have (identical, or one a prefix
      of the other) print nothing. */
  lemma CompareAgreeing(a: seq<string>, b: seq<string>, ctx: nat)
    requires AgreeUpTo(a, b, Min(|a|, |b|))
    ensures Compare(a, b, ctx) == []
  {
  }

  /** At the first mismatch, 1-based line k, the output is the header for k,
      then the min(ctx, k - 1) matched pairs right before it, oldest first,
      then the mismatched pair, and nothing after. */
  lemma CompareFirstMismatch(a: seq<string>, b: seq<string>, ctx: nat, k: nat)
    requires 1 <= k <= |a| && k <= |b|
    requires AgreeUpTo(a, b, k - 1)
    requires a[k - 1] != b[k - 1]
    ensures Compare(a, b, ctx)
         == [Header(k)] + Texts(Pairs(a, b, k - 1 - Min(ctx, k - 1), k - 1))
            + [Text(Joined(a[k - 1], b[k - 1]))]
    ensures |Compare(a, b, ctx)| == Min(ctx, k - 1) + 2
  {
    assert Window(a, b, ctx, 0) == [];
    ScanToMismatch(a, b, ctx, 0, k);
  }

  /** With no context requested a mismatch prints only the header and the
      mismatched pair. */
  lemma CompareNoContext(a: seq<string>, b: seq<string>, k: nat)
    requires 1 <= k <= |a| && k <= |b|
    requires AgreeUpTo(a, b, k - 1)
    requires a[k - 1] != b[k - 1]
    ensures Compare(a, b, 0) == [Header(k), Text(Joined(a[k - 1], b[k - 1]))]
  {
    CompareFirstMismatch(a, b, 0, k);
  }

  /** A worked example: one matched pair of context before the mismatch on
      line 2, and nothing about line 3. */
  lemma CompareExample()
    ensures Compare(["a", "b", "c"], ["a", "x", "c"], 5) == [Header(2), Text("a a"), Text("b x")]
  {
    var a, b := ["a", "b", "c"], ["a", "x", "c"];
    CompareFirstMismatch(a, b, 5, 2);
    assert Joined("a", "a") == "a a" && Joined("b", "x") == "b x";
    assert Pairs(a, b, 0, 1) == ["a a"];
    assert Texts(["a a"]) == [Text("a a")];
  }

  /** Printing a report: the header, each buffered pair in FIFO order, then
      the mismatched pair. */
  method EmitReport(line: nat, buf: seq<string>, mismatch: string) returns (out: seq<OutLine>)
    ensures out == Report(line, buf, mismatch)
  {
    out := [Header(line)];
    var k := 0;
    while k < |buf|
      invariant k <= |buf|
      invariant out == [Header(line)] + Texts(buf[..k])
    {
      assert Texts(buf[..k + 1]) == Texts(buf[..k]) + [Text(buf[k])];
      out := out + [Text(buf[k])];
      k := k + 1;
    }
    assert buf[..k] == buf;
    out := out + [Text(mismatch)];
  }

  /** The loop of rstools' `compare`: a counter incremented before each pair is
      examined, a FIFO buffer of matched pairs, and an early exit after the
      first report. */
  method CompareLines(a: seq<string>, b: seq<string>, ctx: nat) returns (out: seq<OutLine>)
    ensures out == Compare(a, b, ctx)
  {
    var buf: seq<string> := [];
    var i: nat := 0;
    var n := Min(|a|, |b|);
    out := [];
    while i < n
      invariant i <= n
      invariant buf == Window(a, b, ctx, i)
      invariant Scan(a, b, ctx, 0, []) == Scan(a, b, ctx, i, buf)
      invariant out == []
    {
      var s1, s2 := a[i], b[i];
      PushWindow(a, b, ctx, i);
      i := i + 1;
      var sout := Joined(s1, s2);
      if s1 != s2 {
        out := EmitReport(i, buf, sout);
        assert Scan(a, b, ctx, i - 1, buf) == Report(i, buf, sout);
        return;
      }
      ghost var prev := buf;
      buf := buf + [sout];
      if |buf| > ctx {
        buf := buf[1..];
      }
      assert buf == Push(prev, sout, ctx);
    }
  }
}
