/** Properties of the two scanners of header/explode.hpp. */
module ExplodeTheorems {
  import opened Division
  import opened ExplodeSpec

  // ---------------------------------------------------------------- one pass of the outer loop

  /** What a pass at `p` records. */
  function Found(t: string, d: string, p: nat, start: nat): seq<Slice>
    requires p <= |t|
  {
    if Matched(t, d, p) == |d| then [Slice(start, p)] else []
  }

  /** Where the piece under way begins after a pass at `p`. */
  function Start(t: string, d: string, p: nat, start: nat): nat
    requires p <= |t|
  {
    if Matched(t, d, p) == |d| then p + |d| else start
  }

  lemma ScanStep(t: string, d: string, p: nat, start: nat)
    requires d != "" && start <= p < |t|
    ensures Inside(t, d, p) <==> Inside(t, d, Next(t, d, p))
    ensures Start(t, d, p, start) <= Next(t, d, p) && Start(t, d, p, start) <= |t|
    ensures StrSlices(t, d, p, start)
         == Found(t, d, p, start) + StrSlices(t, d, Next(t, d, p), Start(t, d, p, start))
  {
    var next := Next(t, d, p);
    var rest := StrSlices(t, d, next, Start(t, d, p, start));
    assert [] + rest == rest;
  }

  /** The same step behind the pieces `out` already recorded. */
  lemma ScanStepBehind(t: string, d: string, p: nat, start: nat, out: seq<Slice>, all: seq<Slice>)
    requires d != "" && start <= p < |t| && all == out + StrSlices(t, d, p, start)
    ensures Inside(t, d, p) <==> Inside(t, d, Next(t, d, p))
    ensures Start(t, d, p, start) <= Next(t, d, p) && Start(t, d, p, start) <= |t|
    ensures all == out + Found(t, d, p, start)
                 + StrSlices(t, d, Next(t, d, p), Start(t, d, p, start))
  {
    ScanStep(t, d, p, start);
    var rest := StrSlices(t, d, Next(t, d, p), Start(t, d, p, start));
    assert out + (Found(t, d, p, start) + rest) == out + Found(t, d, p, start) + rest;
  }

  lemma ScanEnd(t: string, d: string, p: nat, start: nat, out: seq<Slice>, all: seq<Slice>)
    requires d != "" && start <= p && start <= |t| <= p && all == out + StrSlices(t, d, p, start)
    ensures all == out + [Slice(start, |t|)] && ButLast(all) == out
    ensures Inside(t, d, p) <==> p == |t|
  {
  }

  // ---------------------------------------------------------------- any text that is safe to scan

  /** The pieces cover the text from `start` on, with a true occurrence of `d` between neighbours. */
  ghost predicate Chained(t: string, d: string, ss: seq<Slice>, start: nat) {
    && ss != []
    && ss[0].start == start
    && ss[|ss| - 1].end == |t|
    && Within(t, ss)
    && forall k :: 0 <= k < |ss| - 1 ==>
         Occurs(t, d, ss[k].end) && ss[k + 1].start == ss[k].end + |d|
  }

  lemma ChainedCons(t: string, d: string, s: Slice, ss: seq<Slice>)
    requires Chained(t, d, ss, s.end + |d|) && s.start <= s.end && Occurs(t, d, s.end)
    ensures Chained(t, d, [s] + ss, s.start)
  {
    var all := [s] + ss;
    assert forall k :: 1 <= k < |all| ==> all[k] == ss[k - 1];
  }

  lemma {:induction false} StrSlicesChained(t: string, d: string, p: nat, start: nat)
    requires d != "" && start <= p && start <= |t|
    ensures Chained(t, d, StrSlices(t, d, p, start), start)
    decreases |t| - p
  {
    if p < |t| {
      if Matched(t, d, p) == |d| {
        StrSlicesChained(t, d, p + |d|, p + |d|);
        ChainedCons(t, d, Slice(start, p), StrSlices(t, d, p + |d|, p + |d|));
      } else {
        StrSlicesChained(t, d, Next(t, d, p), start);
      }
    }
  }

  lemma Cut(t: string, a: nat, b: nat, c: nat, e: nat)
    requires a <= b <= c <= e <= |t|
    ensures t[a..e] == t[a..b] + t[b..c] + t[c..e]
  {
  }

  lemma {:induction false} ChainJoins(t: string, d: string, ss: seq<Slice>, start: nat)
    requires Chained(t, d, ss, start)
    ensures Join(Pieces(t, ss), d) == t[start..|t|]
    decreases |ss|
  {
    var fs := Pieces(t, ss);
    if |ss| > 1 {
      ChainTail(t, d, ss, start);
      ChainJoins(t, d, ss[1..], ss[1].start);
      assert fs[1..] == Pieces(t, ss[1..]);
      Cut(t, start, ss[0].end, ss[1].start, |t|);
    }
  }

  lemma ChainTail(t: string, d: string, ss: seq<Slice>, start: nat)
    requires Chained(t, d, ss, start) && |ss| > 1
    ensures Chained(t, d, ss[1..], ss[1].start)
    ensures start <= ss[0].end <= ss[1].start <= |t| && t[ss[0].end..ss[1].start] == d
  {
    assert Occurs(t, d, ss[0].end);
  }

  /** The first `n` pieces, rejoined and closed with `d`, are what precedes piece `n`. */
  lemma {:induction false} ChainJoinsPrefix(t: string, d: string, ss: seq<Slice>, start: nat, n: nat)
    requires Chained(t, d, ss, start) && 0 < n < |ss|
    ensures start <= ss[n].start <= |t|
    ensures Join(Pieces(t, ss[..n]), d) + d == t[start..ss[n].start]
    decreases n
  {
    var fs := Pieces(t, ss[..n]);
    ChainTail(t, d, ss, start);
    if n == 1 {
      Cut(t, start, ss[0].end, ss[1].start, ss[1].start);
    } else {
      ChainJoinsPrefix(t, d, ss[1..], ss[1].start, n - 1);
      assert fs[1..] == Pieces(t, ss[1..][..n - 1]);
      JoinCons(fs, d);
      Cut(t, start, ss[0].end, ss[1].start, ss[n].start);
    }
  }

  lemma JoinCons(fs: seq<string>, d: string)
    requires |fs| > 1
    ensures Join(fs, d) + d == fs[0] + d + (Join(fs[1..], d) + d)
  {
  }

  /** No non-empty proper prefix of `d` is a suffix of `t`: no partial match can be cut off. */
  ghost predicate NoCutOff(t: string, d: string) {
    forall k :: 0 < k < |d| && k <= |t| ==> t[|t| - k..] != d[..k]
  }

  lemma {:induction false} NoCutOffInside(t: string, d: string, p: nat)
    requires d != "" && p <= |t| && NoCutOff(t, d)
    ensures Inside(t, d, p)
    decreases |t| - p
  {
    if p < |t| {
      var m := Matched(t, d, p);
      assert p + m == |t| ==> t[|t| - m..] == d[..m];
      NoCutOffInside(t, d, Next(t, d, p));
    }
  }

  /** The string scanner on any text: the pieces are ordered and separated by true occurrences of
      `d`, and rejoining the first nine gives the whole text when at most eight delimiters were found,
      and otherwise, closed with `d`, a prefix of it. */
  lemma StringScan(t: string, d: string)
    requires d != ""
    ensures Chained(t, d, StrSlices(t, d, 0, 0), 0)
    ensures var ss := StrSlices(t, d, 0, 0);
            && Within(t, Kept(ss))
            && (|ss| <= 9 ==> Join(Pieces(t, Kept(ss)), d) == t)
            && (|ss| > 9 ==> Join(Pieces(t, Kept(ss)), d) + d <= t)
  {
    StrSlicesChained(t, d, 0, 0);
    KeptJoins(t, d, StrSlices(t, d, 0, 0));
  }

  lemma KeptJoins(t: string, d: string, ss: seq<Slice>)
    requires Chained(t, d, ss, 0)
    ensures Within(t, Kept(ss))
    ensures |ss| <= 9 ==> Join(Pieces(t, Kept(ss)), d) == t
    ensures |ss| > 9 ==> Join(Pieces(t, Kept(ss)), d) + d <= t
  {
    if |ss| <= 9 {
      ChainJoins(t, d, ss, 0);
    } else {
      ChainJoinsPrefix(t, d, ss, 0, 9);
    }
  }

  // ---------------------------------------------------------------- every delimiter

  /** Over the characters a pass at `p` matches, the automaton advances with it. */
  lemma {:induction false} MatchAdvances(t: string, d: string, p: nat, k: nat, start: nat)
    requires d != "" && start <= p <= |t| && k <= Matched(t, d, p) && k < |d|
    ensures Automaton(t, d, p, 0, start) == Automaton(t, d, p + k, k, start)
    ensures forall j :: p + k <= j <= |t| ==> Progress(t, d, p, 0, j) == Progress(t, d, p + k, k, j)
    decreases k
  {
    if k > 0 {
      MatchAdvances(t, d, p, k - 1, start);
      assert t[p + k - 1] == d[k - 1];
    }
  }

  /** A pass of the scanner is a run of the automaton back to its initial state. */
  lemma PassAdvances(t: string, d: string, p: nat, start: nat)
    requires d != "" && start <= p < |t|
    ensures var next := Next(t, d, p);
            && (next > |t| ==> Automaton(t, d, p, 0, start) == [Slice(start, |t|)]
                               && Progress(t, d, p, 0, |t|) != 0)
            && (next <= |t| ==>
                  && Automaton(t, d, p, 0, start)
                     == Found(t, d, p, start) + Automaton(t, d, next, 0, Start(t, d, p, start))
                  && forall j :: next <= j <= |t| ==> Progress(t, d, p, 0, j) == Progress(t, d, next, 0, j))
  {
    var m := Matched(t, d, p);
    if m == |d| {
      MatchAdvances(t, d, p, m - 1, start);
      assert t[p + m - 1] == d[m - 1];
    } else {
      MatchAdvances(t, d, p, m, start);
      if p + m < |t| {
        var rest := Automaton(t, d, p + m + 1, 0, start);
        assert [] + rest == rest;
      }
    }
  }

  /** For every text and delimiter the nested loops record what an automaton records that looks at
      each character once, and they stay inside the text exactly when it ends in its initial state. */
  lemma {:induction false} ScannerIsAutomaton(t: string, d: string, p: nat, start: nat)
    requires d != "" && start <= p <= |t|
    ensures StrSlices(t, d, p, start) == Automaton(t, d, p, 0, start)
    ensures Inside(t, d, p) <==> Progress(t, d, p, 0, |t|) == 0
    decreases |t| - p
  {
    if p < |t| {
      var next := Next(t, d, p);
      ScanStep(t, d, p, start);
      PassAdvances(t, d, p, start);
      if next <= |t| {
        ScannerIsAutomaton(t, d, next, Start(t, d, p, start));
      }
    }
  }

  /** A piece with a delimiter behind it ends at `q`. */
  ghost predicate Ends(ss: seq<Slice>, q: nat) {
    exists k :: 0 <= k < |ss| - 1 && ss[k].end == q
  }

  lemma EndsCons(s: Slice, ss: seq<Slice>, q: nat)
    requires ss != []
    ensures Ends([s] + ss, q) <==> s.end == q || Ends(ss, q)
  {
    var all := [s] + ss;
    assert all[0] == s;
    if k :| 0 <= k < |ss| - 1 && ss[k].end == q {
      assert all[k + 1] == ss[k];
    }
    assert forall k :: 1 <= k < |all| ==> all[k] == ss[k - 1];
  }

  lemma {:induction false} EndsBehind(t: string, d: string, p: nat, start: nat, q: nat)
    requires d != "" && start <= p && start <= |t| && q < p
    ensures !Ends(StrSlices(t, d, p, start), q)
    decreases |t| - p
  {
    if p < |t| {
      var next, start' := Next(t, d, p), Start(t, d, p, start);
      var rest := StrSlices(t, d, next, start');
      ScanStep(t, d, p, start);
      EndsBehind(t, d, next, start', q);
      EndsCons(Slice(start, p), rest, q);
      assert [] + rest == rest;
    }
  }

  /** Inside a pass the automaton is on its way through the delimiter. */
  lemma InPass(t: string, d: string, p: nat, q: nat)
    requires d != "" && p < q <= |t| && q < Next(t, d, p)
    ensures Progress(t, d, p, 0, q) == q - p
  {
    MatchAdvances(t, d, p, q - p, p);
  }

  /** Exactly which delimiters the scanner finds: a piece is cut off at `q` if and only if the
      delimiter stands there and the automaton arrives in its initial state. */
  lemma {:induction false} FoundExactly(t: string, d: string, p: nat, start: nat, q: nat)
    requires d != "" && start <= p <= q <= |t|
    ensures Ends(StrSlices(t, d, p, start), q) <==> Occurs(t, d, q) && Progress(t, d, p, 0, q) == 0
    decreases |t| - p
  {
    if p < |t| {
      var next, start' := Next(t, d, p), Start(t, d, p, start);
      var rest := StrSlices(t, d, next, start');
      ScanStep(t, d, p, start);
      PassAdvances(t, d, p, start);
      OccursMatches(t, d, p);
      EndsCons(Slice(start, p), rest, q);
      assert [] + rest == rest;
      if next <= q {
        FoundExactly(t, d, next, start', q);
      } else {
        EndsBehind(t, d, next, start', q);
        if p < q {
          InPass(t, d, p, q);
        }
      }
    }
  }

  /** No non-empty proper prefix of `d` stands directly in front of `q`, from `p` on. */
  ghost predicate Clear(t: string, d: string, p: nat, q: nat)
    requires p <= q <= |t|
  {
    forall k :: 0 < k < |d| && k <= q - p ==> t[q - k..q] != d[..k]
  }

  /** A delimiter is overlooked only directly behind a proper prefix of itself: otherwise it, or one
      that overlaps it from the left, ends a piece. */
  lemma {:induction false} NotOverlooked(t: string, d: string, p: nat, start: nat, q: nat)
    requires d != "" && start <= p <= q && Occurs(t, d, q) && Clear(t, d, p, q)
    ensures exists s :: s in StrSlices(t, d, p, start) && s.end <= q < s.end + |d|
    decreases |t| - p
  {
    var m, next := Matched(t, d, p), Next(t, d, p);
    if m == |d| && q < p + m {
      assert StrSlices(t, d, p, start)[0] == Slice(start, p);
    } else {
      PassStopsShort(t, d, p, q);
      NotOverlooked(t, d, next, Start(t, d, p, start), q);
      ScanStep(t, d, p, start);
    }
  }

  lemma PassStopsShort(t: string, d: string, p: nat, q: nat)
    requires d != "" && p <= q && Occurs(t, d, q) && Clear(t, d, p, q)
    requires Matched(t, d, p) == |d| ==> p + |d| <= q
    ensures Next(t, d, p) <= q
  {
    var m, k := Matched(t, d, p), q - p;
    OccursMatches(t, d, q);
    assert k <= m ==> t[q - k..q] == d[..k];
  }

  /** A text that ends in a non-empty proper prefix of the delimiter, with the first character of the
      delimiter nowhere in front of it, is never scanned safely. */
  lemma CutOffOverruns(u: string, d: string, k: nat)
    requires 0 < k < |d| && d[0] !in u
    ensures !Inside(u + d[..k], d, 0)
  {
    var t := u + d[..k];
    assert t[0..|u|] == u;
    OverrunBehind(t, d, 0, |u|);
  }

  lemma {:induction false} OverrunBehind(t: string, d: string, p: nat, q: nat)
    requires d != "" && p <= q < |t| < q + |d| && d[0] !in t[p..q]
    requires forall i :: q <= i < |t| ==> t[i] == d[i - q]
    ensures !Inside(t, d, p)
    decreases q - p
  {
    if p < q {
      assert t[p] == t[p..q][0];
      assert Matched(t, d, p) == 0;
      OverrunBehind(t, d, p + 1, q);
    } else {
      assert Matched(t, d, p) == |t| - p;
    }
  }

  // ---------------------------------------------------------------- round trip

  lemma OccursAt(t: string, d: string, p: nat)
    ensures Occurs(t, d, p) <==> p + |d| <= |t| && forall i :: 0 <= i < |d| ==> d[i] == t[p + i]
  {
    if p + |d| <= |t| {
      var u := t[p..p + |d|];
      assert forall i :: 0 <= i < |d| ==> u[i] == t[p + i];
    }
  }

  lemma OccursMatches(t: string, d: string, p: nat)
    requires p <= |t|
    ensures Occurs(t, d, p) <==> Matched(t, d, p) == |d|
  {
    OccursAt(t, d, p);
  }

  /** Over characters other than d[0] the scanner just walks. */
  lemma {:induction false} Walk(t: string, d: string, p: nat, q: nat, start: nat)
    requires d != "" && start <= p <= q <= |t|
    requires d[0] !in t[p..q] && Inside(t, d, q)
    ensures Inside(t, d, p) && StrSlices(t, d, p, start) == StrSlices(t, d, q, start)
    decreases q - p
  {
    if p < q {
      assert t[p] == t[p..q][0] && t[p + 1..q] == t[p..q][1..];
      assert Matched(t, d, p) == 0;
      Walk(t, d, p + 1, q, start);
    }
  }

  lemma PiecesCons(t: string, s: Slice, ss: seq<Slice>)
    requires s.start <= s.end <= |t| && Within(t, ss)
    ensures Within(t, [s] + ss) && Pieces(t, [s] + ss) == [t[s.start..s.end]] + Pieces(t, ss)
  {
  }

  /** The scan from `p` on is safe and records `fs`. */
  ghost predicate Records(t: string, d: string, p: nat, fs: seq<string>)
    requires d != ""
  {
    && Inside(t, d, p)
    && Within(t, StrSlices(t, d, p, p))
    && Pieces(t, StrSlices(t, d, p, p)) == fs
  }

  lemma LastField(t: string, d: string, p: nat)
    requires d != "" && p <= |t| && d[0] !in t[p..]
    ensures Records(t, d, p, [t[p..]])
  {
    assert t[p..|t|] == t[p..];
    Walk(t, d, p, |t|, p);
  }

  /** One field and the delimiter behind it: the scanner records the field. */
  lemma NextField(t: string, d: string, p: nat, q: nat, next: nat, fs: seq<string>)
    requires d != "" && p <= q && next == q + |d| <= |t|
    requires d[0] !in t[p..q] && t[q..next] == d && Records(t, d, next, fs)
    ensures Records(t, d, p, [t[p..q]] + fs)
  {
    OccursMatches(t, d, q);
    Walk(t, d, p, q, p);
    PiecesCons(t, Slice(p, q), StrSlices(t, d, next, next));
  }

  lemma JoinParts(fs: seq<string>, d: string, t: string, p: nat)
    requires |fs| > 1 && p <= |t| && t[p..] == Join(fs, d)
    ensures var q := p + |fs[0]|;
            && q + |d| <= |t| && t[p..q] == fs[0] && t[q..q + |d|] == d
            && t[q + |d|..] == Join(fs[1..], d)
  {
    var u := t[p..];
    assert u == fs[0] + d + Join(fs[1..], d);
    assert t[p..p + |fs[0]|] == u[..|fs[0]|];
    assert t[p + |fs[0]|..p + |fs[0]| + |d|] == u[|fs[0]|..|fs[0]| + |d|];
  }

  /** No field contains `c`. */
  predicate FreeOf(fs: seq<string>, c: char) {
    forall i :: 0 <= i < |fs| ==> c !in fs[i]
  }

  lemma NextFieldOfJoin(fs: seq<string>, d: string, t: string, p: nat, next: nat)
    requires d != "" && |fs| > 1 && FreeOf(fs, d[0])
    requires p <= |t| && t[p..] == Join(fs, d)
    requires next == p + |fs[0]| + |d| && Records(t, d, next, fs[1..])
    ensures Records(t, d, p, fs)
  {
    JoinParts(fs, d, t, p);
    NextField(t, d, p, p + |fs[0]|, next, fs[1..]);
    assert [fs[0]] + fs[1..] == fs;
  }

  lemma {:induction false} FieldsFrom(fs: seq<string>, d: string, t: string, p: nat)
    requires d != "" && fs != [] && FreeOf(fs, d[0])
    requires p <= |t| && t[p..] == Join(fs, d)
    ensures Records(t, d, p, fs)
    decreases |fs|
  {
    if |fs| == 1 {
      LastField(t, d, p);
    } else {
      var next := p + |fs[0]| + |d|;
      JoinParts(fs, d, t, p);
      FieldsFrom(fs[1..], d, t, next);
      NextFieldOfJoin(fs, d, t, p, next);
    }
  }

  /** Round trip: exploding the join of any fields that do not contain the first character of the
      delimiter stays inside the text and gives the fields back, empty ones included; the table
      keeps the first nine. */
  lemma StringRoundTrip(fs: seq<string>, d: string)
    requires d != "" && fs != [] && FreeOf(fs, d[0])
    ensures var t := Join(fs, d);
            && Inside(t, d, 0)
            && var ss := StrSlices(t, d, 0, 0);
               && Within(t, ss) && Pieces(t, ss) == fs
               && Within(t, Kept(ss))
               && Pieces(t, Kept(ss)) == if |fs| <= 9 then fs else fs[..9]
  {
    var t := Join(fs, d);
    assert t[0..] == t;
    FieldsFrom(fs, d, t, 0);
  }

  // ---------------------------------------------------------------- one character

  lemma {:induction false} OneCharInside(t: string, c: char, p: nat)
    requires p <= |t|
    ensures Inside(t, [c], p)
    decreases |t| - p
  {
    if p < |t| {
      OneCharMatched(t, c, p);
      OneCharInside(t, c, p + 1);
    }
  }

  lemma OneCharMatched(t: string, c: char, p: nat)
    requires p < |t|
    ensures Matched(t, [c], p) == if t[p] == c then 1 else 0
  {
    var m := Matched(t, [c], p);
    if m == 1 {
      assert t[p..p + 1][0] == [c][..1][0];
    }
  }

  /** The two constructors agree on every one-character delimiter. */
  lemma {:induction false} ConstructorsAgree(t: string, c: char, p: nat, start: nat)
    requires start <= p <= |t|
    ensures Inside(t, [c], p)
    ensures StrSlices(t, [c], p, start) == CharSlices(t, c, p, start)
    decreases |t| - p
  {
    OneCharInside(t, c, p);
    if p < |t| {
      OneCharMatched(t, c, p);
      ConstructorsAgree(t, c, p + 1, if t[p] == c then p + 1 else start);
    }
  }

  lemma {:induction false} SplitAt(t: string, c: char, p: nat, start: nat)
    requires start <= p <= |t|
    ensures var ss, fs := CharSlices(t, c, p, start), Split(t[p..], c);
            Within(t, ss) && Pieces(t, ss) == [t[start..p] + fs[0]] + fs[1..]
    decreases |t| - p
  {
    if p == |t| {
      assert Split(t[p..], c) == [""] && t[start..p] + "" == t[start..p];
    } else {
      var fs := Split(t[p + 1..], c);
      assert t[p..][0] == t[p] && t[p..][1..] == t[p + 1..];
      if t[p] == c {
        SplitAt(t, c, p + 1, p + 1);
        PiecesCons(t, Slice(start, p), CharSlices(t, c, p + 1, p + 1));
        assert t[p + 1..p + 1] + fs[0] == fs[0] && [fs[0]] + fs[1..] == fs;
        assert t[start..p] + "" == t[start..p] && ([""] + fs)[1..] == fs;
      } else {
        SplitAt(t, c, p + 1, start);
        assert t[start..p + 1] + fs[0] == t[start..p] + ([t[p]] + fs[0]);
      }
    }
  }

  function Count(t: string, c: char): nat {
    if t == "" then 0 else (if t[0] == c then 1 else 0) + Count(t[1..], c)
  }

  lemma {:induction false} SplitShape(t: string, c: char)
    ensures |Split(t, c)| == 1 + Count(t, c)
    ensures FreeOf(Split(t, c), c)
  {
    if t != "" {
      SplitShape(t[1..], c);
    }
  }

  /** The character scanner refines the recursive split: one piece more than there are delimiters,
      none of them containing it, and rejoining what the table keeps gives the whole text when there
      are at most eight delimiters, and otherwise, closed with the delimiter, a prefix of it. */
  lemma CharScan(t: string, c: char)
    ensures var ss := CharSlices(t, c, 0, 0);
            && Within(t, ss) && Pieces(t, ss) == Split(t, c)
            && |ss| == 1 + Count(t, c)
            && FreeOf(Pieces(t, ss), c)
            && Within(t, Kept(ss))
            && (Count(t, c) <= 8 ==> Join(Pieces(t, Kept(ss)), [c]) == t)
            && (Count(t, c) > 8 ==> Join(Pieces(t, Kept(ss)), [c]) + [c] <= t)
  {
    SplitAt(t, c, 0, 0);
    assert t[0..] == t;
    SplitShape(t, c);
    ConstructorsAgree(t, c, 0, 0);
    StrSlicesChained(t, [c], 0, 0);
    KeptJoins(t, [c], CharSlices(t, c, 0, 0));
  }

  // ---------------------------------------------------------------- where the string scanner fails

  /** The scanner stays inside every text exactly for delimiters of one character: for a longer one,
      a text that ends after its first character sends it over the terminator. */
  lemma SafeDelimiters(d: string)
    requires d != "" && CString(d)
    ensures (forall t :: CString(t) ==> Inside(t, d, 0)) <==> |d| == 1
  {
    if |d| == 1 {
      forall t | CString(t)
        ensures Inside(t, d, 0)
      {
        assert d == [d[0]];
        OneCharInside(t, d[0], 0);
      }
    } else {
      var t := [d[0]];
      var m := Matched(t, d, 0);
      assert CString(t);
      assert m == 1;
      assert !Inside(t, d, 0);
    }
  }

  /** The length of the run of `c` at the end of `t`. */
  function TrailingRun(t: string, c: char): (r: nat)
    ensures r <= |t|
    ensures forall i :: |t| - r <= i < |t| ==> t[i] == c
    ensures r < |t| ==> t[|t| - r - 1] != c
  {
    if t == "" || t[|t| - 1] != c then 0 else 1 + TrailingRun(t[..|t| - 1], c)
  }

  /** Every proper prefix repeats one character: `d` does, or all of it but the last character. */
  predicate ConstantPrefix(d: string) {
    forall k :: 0 <= k < |d| - 1 ==> d[k] == d[0]
  }

  /** For such delimiters, all those of two characters among them, the scanner stays inside exactly
      the texts that end in a whole number of delimiter lengths of the delimiter's first character. */
  lemma SafeTexts(t: string, d: string)
    requires d != "" && ConstantPrefix(d)
    ensures Inside(t, d, 0) <==> TrailingRun(t, d[0]) % |d| == 0
  {
    var q := |t| - TrailingRun(t, d[0]);
    UpToRun(t, d, 0, q);
    InsideRun(t, d, q);
    WholeIsRem(|t| - q, |d|);
  }

  lemma {:induction false} UpToRun(t: string, d: string, p: nat, q: nat)
    requires d != "" && ConstantPrefix(d) && p <= q <= |t| && (q > 0 ==> t[q - 1] != d[0])
    ensures Inside(t, d, p) <==> Inside(t, d, q)
    decreases q - p
  {
    if p < q {
      RunEntered(t, d, p, q);
      UpToRun(t, d, Next(t, d, p), q);
    }
  }

  /** A multiple of `k`, by subtraction. */
  predicate Whole(n: nat, k: nat)
    requires k > 0
  {
    if n < k then n == 0 else Whole(n - k, k)
  }

  lemma {:induction false} WholeIsRem(n: nat, k: nat)
    requires k > 0
    ensures Whole(n, k) <==> n % k == 0
  {
    if n < k {
      DivMod(n, k, 0, n);
    } else {
      WholeIsRem(n - k, k);
      DivMod(n, k, (n - k) / k + 1, (n - k) % k);
    }
  }

  lemma {:induction false} InsideRun(t: string, d: string, p: nat)
    requires d != "" && ConstantPrefix(d) && p <= |t|
    requires forall i :: p <= i < |t| ==> t[i] == d[0]
    ensures Inside(t, d, p) <==> Whole(|t| - p, |d|)
    decreases |t| - p
  {
    if p < |t| {
      RunStep(t, d, p);
      if |d| <= |t| - p {
        InsideRun(t, d, p + |d|);
      }
    }
  }

  lemma RunStep(t: string, d: string, p: nat)
    requires d != "" && ConstantPrefix(d) && p < |t|
    requires forall i :: p <= i < |t| ==> t[i] == d[0]
    ensures Inside(t, d, p) <==> |d| <= |t| - p && Inside(t, d, p + |d|)
  {
    InRun(t, d, p);
  }

  /** From in front of the last run a pass ends at its start at the latest. */
  lemma RunEntered(t: string, d: string, p: nat, q: nat)
    requires d != "" && ConstantPrefix(d) && p < q <= |t| && t[q - 1] != d[0]
    ensures Next(t, d, p) <= q
  {
    var m := Matched(t, d, p);
    assert q - 1 - p < m ==> d[q - 1 - p] == t[q - 1];
  }

  /** Inside the last run a pass takes a whole delimiter length, or steps over the terminator. */
  lemma InRun(t: string, d: string, p: nat)
    requires d != "" && ConstantPrefix(d) && p < |t|
    requires forall i :: p <= i < |t| ==> t[i] == d[0]
    ensures Next(t, d, p) == if |d| <= |t| - p then p + |d| else |t| + 1
  {
    var m := Matched(t, d, p);
    assert m >= |d| - 1 || p + m == |t|;
  }

  lemma {:induction false} RunOf(t: string, c: char, n: nat)
    requires n <= |t| && (forall i :: |t| - n <= i < |t| ==> t[i] == c)
    requires n < |t| ==> t[|t| - n - 1] != c
    ensures TrailingRun(t, c) == n
  {
  }

  /** The text of the call in main.cpp:61 ends in five bars: its scan for "||" steps over the
      terminator. */
  lemma MainOverruns()
    ensures !Inside("1||23||4||" + "||2.," + "|||||", "||", 0)
  {
    var head, comma, run := "1||23||4||", "||2.,", "|||||";
    var t := head + comma + run;
    assert comma[4] == ',';
    assert forall i :: 15 <= i < |t| ==> t[i] == run[i - 15];
    RunOf(t, '|', 5);
    SafeTexts(t, "||");
  }

  ghost predicate Uniform(d: string) {
    forall k :: 0 <= k < |d| ==> d[k] == d[0]
  }

  /** The scanner finds the leftmost occurrences in every text it can scan safely exactly for
      delimiters that repeat one character: for any other, it overlooks the delimiter after a false
      start. */
  lemma ExactDelimiters(d: string)
    requires d != "" && CString(d)
    ensures (forall t :: CString(t) && Inside(t, d, 0) ==> StrSlices(t, d, 0, 0) == Leftmost(t, d, 0, 0))
       <==> Uniform(d)
  {
    if Uniform(d) {
      forall t | CString(t) && Inside(t, d, 0)
        ensures StrSlices(t, d, 0, 0) == Leftmost(t, d, 0, 0)
      {
        UniformIsExact(t, d, 0, 0);
      }
    } else {
      var t := FalseStart(d);
    }
  }

  lemma UniformStep(t: string, d: string, p: nat, q: nat, start: nat)
    requires d != "" && Uniform(d) && start <= p < |t| && q == Next(t, d, p) <= |t|
    ensures Leftmost(t, d, p, start)
         == if Matched(t, d, p) == |d| then [Slice(start, p)] + Leftmost(t, d, q, q)
            else Leftmost(t, d, q, start)
  {
    OccursMatches(t, d, p);
    if Matched(t, d, p) < |d| {
      assert t[q - 1] != d[0];
      NoneUpTo(t, d, p, q, start);
    }
  }

  lemma {:induction false} UniformIsExact(t: string, d: string, p: nat, start: nat)
    requires d != "" && Uniform(d) && start <= p && Inside(t, d, p)
    ensures StrSlices(t, d, p, start) == Leftmost(t, d, p, start)
    decreases |t| - p
  {
    if p < |t| {
      var q := Next(t, d, p);
      UniformStep(t, d, p, q, start);
      UniformIsExact(t, d, q, if Matched(t, d, p) == |d| then q else start);
    }
  }

  lemma {:induction false} NoneUpTo(t: string, d: string, p: nat, q: nat, start: nat)
    requires d != "" && Uniform(d) && start <= p <= q <= |t|
    requires p < q ==> q - p <= |d| && t[q - 1] != d[0]
    ensures Leftmost(t, d, p, start) == Leftmost(t, d, q, start)
    decreases q - p
  {
    if p < q {
      OccursAt(t, d, p);
      assert t[q - 1] != d[q - 1 - p];
      NoneUpTo(t, d, p + 1, q, start);
    }
  }

  /** A text on which the scanner misses a delimiter: the first character of `d`, then `d`, then
      enough of another character that no partial match is cut off. */
  lemma FalseStart(d: string) returns (t: string)
    requires d != "" && CString(d) && !Uniform(d)
    ensures CString(t) && Inside(t, d, 0) && StrSlices(t, d, 0, 0) != Leftmost(t, d, 0, 0)
  {
    var r :| 0 <= r < |d| && d[r] != d[0];
    var tail := seq(|d|, _ => d[r]);
    t := [d[0]] + d + tail;
    OtherTail(t, d, d[r], |d| + 1);
    NoCutOffInside(t, d, 0);
    assert t[1..1 + |d|] == d;
    SecondMissed(t, d);
  }

  lemma OtherTail(t: string, d: string, c: char, n: nat)
    requires d != "" && c != d[0] && |t| == n + |d| && forall i :: n <= i < |t| ==> t[i] == c
    ensures NoCutOff(t, d)
  {
    forall k | 0 < k < |d| && k <= |t|
      ensures t[|t| - k..] != d[..k]
    {
      assert t[|t| - k..][0] == c;
    }
  }

  lemma SecondMissed(t: string, d: string)
    requires d != "" && !Uniform(d) && |t| > |d| && t[1..1 + |d|] == d && t[0] == d[0]
    requires Inside(t, d, 0)
    ensures StrSlices(t, d, 0, 0) != Leftmost(t, d, 0, 0)
  {
    NotAtStart(t, d);
    assert Leftmost(t, d, 0, 0) == Leftmost(t, d, 1, 0);
    assert Leftmost(t, d, 0, 0)[0] == Slice(0, 1);
    OccursMatches(t, d, 0);
    assert Matched(t, d, 0) > 0;
    FirstSliceBehind(t, d, Next(t, d, 0), 0);
  }

  lemma NotAtStart(t: string, d: string)
    requires d != "" && !Uniform(d) && |t| > |d| && t[1..1 + |d|] == d
    ensures !Occurs(t, d, 0)
  {
    if Occurs(t, d, 0) {
      SameAsBefore(t, d, |d| - 1);
    }
  }

  lemma {:induction false} SameAsBefore(t: string, d: string, n: nat)
    requires n < |d| < |t| && t[1..1 + |d|] == d && t[0..|d|] == d
    ensures forall k :: 0 <= k <= n ==> d[k] == d[0]
  {
    if n > 0 {
      SameAsBefore(t, d, n - 1);
      assert d[n] == t[0..|d|][n] == t[n] == t[1..1 + |d|][n - 1] == d[n - 1];
    }
  }

  lemma {:induction false} FirstSliceBehind(t: string, d: string, p: nat, start: nat)
    requires d != "" && start <= p && Inside(t, d, p)
    ensures StrSlices(t, d, p, start)[0].end >= p
    decreases |t| - p
  {
    if p < |t| && Matched(t, d, p) < |d| {
      FirstSliceBehind(t, d, Next(t, d, p), start);
    }
  }
}
