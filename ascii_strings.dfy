/** The printable-string extractor (`extractAsciiStrings`): a left-to-right
    scan of a captured chunk that keeps the maximal runs of printable ASCII
    bytes longer than four bytes, at most ten of them. */
module AsciiStrings {
  import opened Bytes

  /** A run must be longer than this to be kept. */
  const MinRunExclusive: nat := 4
  /** At most this many runs are reported per chunk. */
  const MaxStrings: nat := 10

  /** Printable ASCII: space (32) through tilde (126). */
  predicate IsPrintable(b: byte)
  {
    32 <= b <= 126
  }

  predicate AllPrintable(s: seq<byte>)
  {
    forall i :: 0 <= i < |s| ==> IsPrintable(s[i])
  }

  /** Length of the printable run at the front of `s`. */
  function LeadingRunLength(s: seq<byte>): (n: nat)
    ensures n <= |s|
    ensures AllPrintable(s[..n])
    ensures n < |s| ==> !IsPrintable(s[n])
  {
    if s == [] || !IsPrintable(s[0]) then 0
    else
      var m := LeadingRunLength(s[1..]);
      assert s[..1 + m] == [s[0]] + s[1..][..m];
      1 + m
  }

  /** A run is kept when it is long enough: the result is the run alone, or
      nothing when it has at most four bytes. */
  function Kept(run: seq<byte>): (r: seq<seq<byte>>)
  {
    if |run| > MinRunExclusive then [run] else []
  }

  /** The maximal printable runs of `s` longer than four bytes, in the order
      they occur: the reference definition the scan is proved against. */
  function Runs(s: seq<byte>): (r: seq<seq<byte>>)
    decreases |s|
  {
    if s == [] then []
    else
      var n := LeadingRunLength(s);
      if n == 0 then Runs(s[1..]) else Kept(s[..n]) + Runs(s[n..])
  }

  /** The first `MaxStrings` elements of `runs`. */
  function FirstTen(runs: seq<seq<byte>>): (r: seq<seq<byte>>)
    ensures |r| <= MaxStrings
    ensures |runs| <= MaxStrings ==> r == runs
    ensures |runs| > MaxStrings ==> |r| == MaxStrings
    ensures forall k :: 0 <= k < |r| ==> r[k] == runs[k]
  {
    if |runs| > MaxStrings then runs[..MaxStrings] else runs
  }

  /** `s[lo..hi]` is a printable run that cannot be extended on either side. */
  predicate IsMaximalRun(s: seq<byte>, lo: int, hi: int)
  {
    0 <= lo < hi <= |s| && AllPrintable(s[lo..hi]) &&
    (lo == 0 || !IsPrintable(s[lo - 1])) &&
    (hi == |s| || !IsPrintable(s[hi]))
  }

  /** `run` is the maximal printable run of `s` that starts at `lo`. */
  predicate RunAt(s: seq<byte>, run: seq<byte>, lo: int)
  {
    IsMaximalRun(s, lo, lo + |run|) && s[lo..lo + |run|] == run
  }

  /** The scan of `extractAsciiStrings`: `current` collects the printable bytes seen since
      the last non-printable one, and is flushed into the result when it is long
      enough, at each non-printable byte and once more at the end. */
  method ExtractAsciiStrings(data: seq<byte>) returns (found: seq<seq<byte>>)
    ensures found == FirstTen(Runs(data))
    ensures |found| <= MaxStrings
    ensures forall k :: 0 <= k < |found| ==> |found[k]| > MinRunExclusive && AllPrintable(found[k])
  {
    found := [];
    var current: seq<byte> := [];
    ghost var start := 0;
    for i := 0 to |data|
      invariant 0 <= start <= i
      invariant current == data[start..i]
      invariant AllPrintable(current)
      invariant start == 0 || !IsPrintable(data[start - 1])
      invariant found == Runs(data[..start])
    {
      var b := data[i];
      if 32 <= b <= 126 {
        assert data[start..i + 1] == data[start..i] + [b];
        PrintableSnoc(current, b);
        current := current + [b];
      } else {
        ghost var before := found;
        if |current| > 4 {
          found := found + [current];
        }
        FlushStep(data, start, i, before, found);
        current := [];
        start := i + 1;
      }
    }
    assert current == data[start..];
    FlushAtEnd(data, start);
    if |current| > 4 {
      found := found + [current];
    }
    assert found == Runs(data);
    ExtractedShape(data);
    if |found| > 10 {
      found := found[..10];
    }
  }

  /** A printable run extended by a printable byte is still printable. */
  lemma PrintableSnoc(c: seq<byte>, b: byte)
    requires AllPrintable(c) && IsPrintable(b)
    ensures AllPrintable(c + [b])
  {
    assert forall k :: 0 <= k < |c| ==> (c + [b])[k] == c[k];
  }

  /** The reported strings: at most ten, each longer than four bytes and
      printable. */
  lemma ExtractedShape(data: seq<byte>)
    ensures |FirstTen(Runs(data))| <= MaxStrings
    ensures forall k :: 0 <= k < |FirstTen(Runs(data))| ==>
      |FirstTen(Runs(data))[k]| > MinRunExclusive && AllPrintable(FirstTen(Runs(data))[k])
  {
    RunsShape(data);
  }

  /** A non-printable byte at `i` ends the run that began at `start`. */
  lemma FlushAtNonPrintable(data: seq<byte>, start: int, i: int)
    requires 0 <= start <= i < |data|
    requires AllPrintable(data[start..i]) && !IsPrintable(data[i])
    requires start == 0 || !IsPrintable(data[start - 1])
    ensures Runs(data[..i + 1]) == Runs(data[..start]) + Kept(data[start..i])
  {
    var b := data[i];
    assert data[..i + 1] == data[..start] + (data[start..i] + [b]);
    RunsAppend(data[..start], data[start..i] + [b]);
    RunsAfterPrintable(data[start..i], [b]);
    assert Runs([b]) == Runs([b][1..]);
  }

  /** One flush of the scan at the non-printable byte `i`: the run collected
      since `start` is appended when longer than four bytes, and the strings
      found so far are then the runs of the data up to and including `i`. */
  lemma FlushStep(data: seq<byte>, start: int, i: int, before: seq<seq<byte>>, after: seq<seq<byte>>)
    requires 0 <= start <= i < |data|
    requires AllPrintable(data[start..i]) && !IsPrintable(data[i])
    requires start == 0 || !IsPrintable(data[start - 1])
    requires before == Runs(data[..start])
    requires after == if i - start > MinRunExclusive then before + [data[start..i]] else before
    ensures after == Runs(data[..i + 1])
  {
    FlushAtNonPrintable(data, start, i);
  }

  /** The end of the chunk ends the run that began at `start`. */
  lemma FlushAtEnd(data: seq<byte>, start: int)
    requires 0 <= start <= |data|
    requires AllPrintable(data[start..])
    requires start == 0 || !IsPrintable(data[start - 1])
    ensures Runs(data) == Runs(data[..start]) + Kept(data[start..])
  {
    assert data == data[..start] + data[start..];
    RunsAppend(data[..start], data[start..]);
    RunsAfterPrintable(data[start..], []);
    assert data[start..] + [] == data[start..];
  }

  /** A leading run that stops before the end of `p` is unaffected by what
      follows `p`. */
  lemma {:induction false} LeadingRunOfConcat(p: seq<byte>, q: seq<byte>)
    requires LeadingRunLength(p) < |p|
    ensures LeadingRunLength(p + q) == LeadingRunLength(p)
    decreases |p|
  {
    if IsPrintable(p[0]) {
      assert (p + q)[1..] == p[1..] + q;
      LeadingRunOfConcat(p[1..], q);
    }
  }

  /** An all-printable prefix followed by a non-printable byte (or nothing) is
      exactly the leading run. */
  lemma {:induction false} LeadingRunOfPrintable(c: seq<byte>, q: seq<byte>)
    requires AllPrintable(c)
    requires q == [] || !IsPrintable(q[0])
    ensures LeadingRunLength(c + q) == |c|
    decreases |c|
  {
    if c != [] {
      assert (c + q)[1..] == c[1..] + q;
      LeadingRunOfPrintable(c[1..], q);
    } else {
      assert c + q == q;
    }
  }

  /** Left-to-right order: splitting the chunk right after a non-printable byte
      splits the runs at the same place. */
  lemma {:induction false} RunsAppend(p: seq<byte>, q: seq<byte>)
    requires p == [] || !IsPrintable(p[|p| - 1])
    ensures Runs(p + q) == Runs(p) + Runs(q)
    decreases |p|
  {
    if p == [] {
      assert p + q == q;
    } else {
      var s := p + q;
      if !IsPrintable(p[0]) {
        assert s[1..] == p[1..] + q;
        RunsAppend(p[1..], q);
      } else {
        var n := LeadingRunLength(p);
        LeadingRunOfConcat(p, q);
        assert s[..n] == p[..n];
        assert s[n..] == p[n..] + q;
        RunsAppend(p[n..], q);
      }
    }
  }

  /** A printable run followed by a non-printable byte (or by nothing)
      contributes itself, when long enough, ahead of the runs of the rest. */
  lemma RunsAfterPrintable(c: seq<byte>, q: seq<byte>)
    requires AllPrintable(c)
    requires q == [] || !IsPrintable(q[0])
    ensures Runs(c + q) == Kept(c) + Runs(q)
  {
    if c == [] {
      assert c + q == q;
    } else {
      LeadingRunOfPrintable(c, q);
      assert (c + q)[..|c|] == c;
      assert (c + q)[|c|..] == q;
    }
  }

  /** A run is kept alone exactly when it has more than four bytes, and is
      dropped otherwise. */
  lemma KeptIsRunOrNothing(run: seq<byte>)
    ensures Kept(run) == [run] <==> |run| > MinRunExclusive
    ensures |run| <= MinRunExclusive <==> Kept(run) == []
  {
  }

  /** The reported runs are disjoint and each at least five bytes long, so a
      chunk of n bytes yields at most n / 5 of them. */
  lemma {:induction false} RunsCount(s: seq<byte>)
    ensures |Runs(s)| * (MinRunExclusive + 1) <= |s|
    decreases |s|
  {
    if s != [] {
      var n := LeadingRunLength(s);
      if n == 0 {
        RunsCount(s[1..]);
      } else {
        RunsCount(s[n..]);
        assert |Runs(s)| == |Kept(s[..n])| + |Runs(s[n..])|;
      }
    }
  }

  /** Every run reported is longer than four bytes and entirely printable. */
  lemma {:induction false} RunsShape(s: seq<byte>)
    ensures forall k :: 0 <= k < |Runs(s)| ==> |Runs(s)[k]| > MinRunExclusive && AllPrintable(Runs(s)[k])
    decreases |s|
  {
    if s != [] {
      var n := LeadingRunLength(s);
      if n == 0 {
        RunsShape(s[1..]);
      } else {
        RunsShape(s[n..]);
      }
    }
  }

  /** Soundness: every reported run is a maximal printable run of the chunk. */
  lemma {:induction false} RunsAreMaximal(s: seq<byte>, k: int)
    requires 0 <= k < |Runs(s)|
    ensures exists lo :: RunAt(s, Runs(s)[k], lo)
    decreases |s|, 1
  {
    var n := LeadingRunLength(s);
    if n > 0 && k < |Kept(s[..n])| {
      assert Runs(s) == Kept(s[..n]) + Runs(s[n..]);
      assert Runs(s)[k] == s[..n];
      assert IsMaximalRun(s, 0, n) && s[0..n] == s[..n];
      assert RunAt(s, Runs(s)[k], 0);
    } else {
      RunsAreMaximalBeyond(s, k);
    }
  }

  /** Soundness for a run reported after the leading one. */
  lemma {:induction false} RunsAreMaximalBeyond(s: seq<byte>, k: int)
    requires 0 <= k < |Runs(s)|
    requires LeadingRunLength(s) == 0 || k >= |Kept(s[..LeadingRunLength(s)])|
    ensures exists lo :: RunAt(s, Runs(s)[k], lo)
    decreases |s|, 0
  {
    var n := LeadingRunLength(s);
    var m := if n == 0 then 1 else n;
    var t := s[m..];
    var head := if n == 0 then [] else Kept(s[..n]);
    RunsSplit(s);
    var j := k - |head|;
    var run := Runs(t)[j];
    assert Runs(s)[k] == run;
    RunsAreMaximal(t, j);
    var lo' :| RunAt(t, run, lo');
    assert IsPrintable(t[lo']) by { assert t[lo'..lo' + |run|][0] == t[lo']; }
    if n > 0 {
      assert t[0] == s[n];
    }
    RunAtShift(s, m, run, lo');
    assert RunAt(s, Runs(s)[k], lo' + m);
  }

  /** One unfolding of `Runs` on a non-empty chunk: the leading run (when
      kept) and then the runs of what follows it, or of what follows the first
      byte when that byte is not printable. */
  lemma RunsSplit(s: seq<byte>)
    requires s != []
    ensures var n := LeadingRunLength(s);
      Runs(s) == (if n == 0 then [] else Kept(s[..n])) + Runs(s[if n == 0 then 1 else n..])
  {
  }

  /** A maximal run of a suffix `s[m..]` is a maximal run of `s` as long as it
      does not start right at the cut with a printable byte before it. */
  lemma RunAtShift(s: seq<byte>, m: int, run: seq<byte>, lo: int)
    requires 0 <= m <= |s|
    requires RunAt(s[m..], run, lo)
    requires lo > 0 || m == 0 || !IsPrintable(s[m - 1])
    ensures RunAt(s, run, lo + m)
  {
    var t := s[m..];
    assert lo > 0 ==> s[lo + m - 1] == t[lo - 1];
    assert lo + |run| < |t| ==> s[lo + m + |run|] == t[lo + |run|];
    assert s[lo + m..lo + m + |run|] == t[lo..lo + |run|];
  }

  /** The leading run is cut exactly at the first non-printable byte. */
  lemma LeadingRunIs(s: seq<byte>, n: int)
    requires 0 <= n <= |s| && AllPrintable(s[..n])
    requires n == |s| || !IsPrintable(s[n])
    ensures LeadingRunLength(s) == n
  {
    var m := LeadingRunLength(s);
    assert forall i :: 0 <= i < m ==> s[..m][i] == s[i];
    assert forall i :: 0 <= i < n ==> s[..n][i] == s[i];
  }

  /** The leading run ends at or before any non-printable byte. */
  lemma LeadingRunStopsBefore(s: seq<byte>, j: int)
    requires 0 <= j < |s| && !IsPrintable(s[j])
    ensures LeadingRunLength(s) <= j
  {
    var m := LeadingRunLength(s);
    assert forall i :: 0 <= i < m ==> s[..m][i] == s[i];
  }

  /** A maximal run of `s` at or after the cut `m` is a maximal run of
      `s[m..]`, shifted down by `m`. */
  lemma ShiftRunDown(s: seq<byte>, m: int, lo: int, hi: int)
    requires IsMaximalRun(s, lo, hi) && 0 <= m <= lo
    ensures IsMaximalRun(s[m..], lo - m, hi - m)
    ensures s[m..][lo - m..hi - m] == s[lo..hi]
  {
    var t := s[m..];
    assert lo - m > 0 ==> t[lo - m - 1] == s[lo - 1];
    assert hi - m < |t| ==> t[hi - m] == s[hi];
    assert t[lo - m..hi - m] == s[lo..hi];
  }

  lemma InAppend<T>(x: T, a: seq<T>, b: seq<T>)
    requires x in b
    ensures x in a + b
  {
    var i :| 0 <= i < |b| && b[i] == x;
    assert (a + b)[|a| + i] == x;
  }

  /** Completeness: every maximal printable run longer than four bytes is
      reported. */
  lemma {:induction false} MaximalRunsAreFound(s: seq<byte>, lo: int, hi: int)
    requires IsMaximalRun(s, lo, hi) && hi - lo > MinRunExclusive
    ensures s[lo..hi] in Runs(s)
    decreases |s|, 1
  {
    var n := LeadingRunLength(s);
    if n == 0 {
      FoundAfterBreak(s, lo, hi);
    } else if lo == 0 {
      FoundAtFront(s, hi);
    } else {
      FoundAfterLeadingRun(s, lo, hi);
    }
  }

  /** Completeness when the chunk starts with a non-printable byte. */
  lemma {:induction false} FoundAfterBreak(s: seq<byte>, lo: int, hi: int)
    requires IsMaximalRun(s, lo, hi) && hi - lo > MinRunExclusive
    requires LeadingRunLength(s) == 0
    ensures s[lo..hi] in Runs(s)
    decreases |s|, 0
  {
    assert IsPrintable(s[lo]) by { assert s[lo..hi][0] == s[lo]; }
    assert Runs(s) == Runs(s[1..]);
    ShiftRunDown(s, 1, lo, hi);
    MaximalRunsAreFound(s[1..], lo - 1, hi - 1);
  }

  /** Completeness for the run at the very front of the chunk. */
  lemma FoundAtFront(s: seq<byte>, hi: int)
    requires IsMaximalRun(s, 0, hi) && hi > MinRunExclusive
    ensures s[0..hi] in Runs(s)
  {
    assert s[..hi] == s[0..hi];
    LeadingRunIs(s, hi);
    assert Runs(s) == Kept(s[..hi]) + Runs(s[hi..]);
    assert Runs(s)[0] == s[0..hi];
  }

  /** Completeness for a run after a non-empty leading run. */
  lemma {:induction false} FoundAfterLeadingRun(s: seq<byte>, lo: int, hi: int)
    requires IsMaximalRun(s, lo, hi) && hi - lo > MinRunExclusive
    requires LeadingRunLength(s) > 0 && lo > 0
    ensures s[lo..hi] in Runs(s)
    decreases |s|, 0
  {
    var n := LeadingRunLength(s);
    LeadingRunStopsBefore(s, lo - 1);
    assert Runs(s) == Kept(s[..n]) + Runs(s[n..]);
    ShiftRunDown(s, n, lo, hi);
    MaximalRunsAreFound(s[n..], lo - n, hi - n);
    InAppend(s[lo..hi], Kept(s[..n]), Runs(s[n..]));
  }

  /** A printable run closed by one non-printable byte yields just that run,
      when it is long enough. */
  lemma RunThenBreak(c: seq<byte>, x: byte)
    requires AllPrintable(c) && !IsPrintable(x)
    ensures Runs(c + [x]) == Kept(c)
  {
    RunsAfterPrintable(c, [x]);
    assert Runs([x]) == Runs([x][1..]);
  }

  /** A printable run closed by a non-printable byte comes first, when kept,
      ahead of the runs of whatever follows. */
  lemma RunBreakThen(c: seq<byte>, x: byte, q: seq<byte>)
    requires AllPrintable(c) && !IsPrintable(x)
    ensures Runs(c + [x] + q) == Kept(c) + Runs(q)
  {
    RunsAppend(c + [x], q);
    RunThenBreak(c, x);
  }

  /** A short printable tail yields nothing. */
  lemma ShortTail(c: seq<byte>)
    requires AllPrintable(c) && |c| <= MinRunExclusive
    ensures Runs(c) == []
  {
    assert c + [] == c;
    RunsAfterPrintable(c, []);
  }

  /** Two long runs, each closed by a non-printable byte, followed by a short
      trailing run: the two long runs, in order. */
  lemma TwoRuns(a: seq<byte>, x: byte, b: seq<byte>, y: byte, c: seq<byte>)
    requires AllPrintable(a) && AllPrintable(b) && AllPrintable(c)
    requires !IsPrintable(x) && !IsPrintable(y)
    requires |a| > MinRunExclusive && |b| > MinRunExclusive && |c| <= MinRunExclusive
    ensures Runs(a + [x] + b + [y] + c) == [a, b]
  {
    var rest := b + [y] + c;
    assert a + [x] + b + [y] + c == a + [x] + rest;
    RunBreakThen(a, x, rest);
    RunBreakThen(b, y, c);
    ShortTail(c);
    assert Runs(rest) == [b];
  }

  /** The worked example `"AAAAA\x00BBBBB\x01C"` (65 is 'A', 66 'B', 67 'C'):
      two five-byte runs separated by control bytes, and a one-byte trailing
      run that is too short. */
  lemma TwoRunsExample(data: seq<byte>, a: seq<byte>, b: seq<byte>, c: seq<byte>)
    requires a == [65, 65, 65, 65, 65] && b == [66, 66, 66, 66, 66] && c == [67]
    requires data == a + [0x00] + b + [0x01] + c
    ensures Runs(data) == [a, b]
  {
    TwoRuns(a, 0x00, b, 0x01, c);
  }
}
