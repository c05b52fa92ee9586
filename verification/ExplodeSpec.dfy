/** What the scanners of header/explode.hpp record, and what splitting should mean. A C string is the
    sequence of its characters before the terminator; a pointer into it is an index, and index
    `|t|` is the terminator. */
module ExplodeSpec {

  /** A recorded piece: from `start` up to, not including, `end`. */
  datatype Slice = Slice(start: nat, end: nat)

  predicate CString(t: string) {
    '\0' !in t
  }

  /** `*ptr`, for a pointer to a character of the string or to its terminator. */
  function At(t: string, i: nat): char
    requires i <= |t|
  {
    if i < |t| then t[i] else '\0'
  }

  // ---------------------------------------------------------------- the character scanner

  function CharSlices(t: string, c: char, p: nat, start: nat): (ss: seq<Slice>)
    requires start <= p <= |t|
    decreases |t| - p
  {
    if p == |t| then [Slice(start, p)]
    else if t[p] == c then [Slice(start, p)] + CharSlices(t, c, p + 1, p + 1)
    else CharSlices(t, c, p + 1, start)
  }

  // ---------------------------------------------------------------- the string scanner

  /** How many characters of `d` match at `p`: where the inner loop stops. */
  function Matched(t: string, d: string, p: nat): (m: nat)
    requires p <= |t|
    ensures m <= |d| && p + m <= |t|
    ensures forall i :: 0 <= i < m ==> d[i] == t[p + i]
    ensures m < |d| && p + m < |t| ==> t[p + m] != d[m]
  {
    MatchedFrom(t, d, p, 0)
  }

  function MatchedFrom(t: string, d: string, p: nat, k: nat): (m: nat)
    requires k <= |d| && p + k <= |t| && forall i :: 0 <= i < k ==> d[i] == t[p + i]
    ensures k <= m <= |d| && p + m <= |t|
    ensures forall i :: 0 <= i < m ==> d[i] == t[p + i]
    ensures m < |d| && p + m < |t| ==> t[p + m] != d[m]
    decreases |d| - k
  {
    if k < |d| && p + k < |t| && t[p + k] == d[k] then MatchedFrom(t, d, p, k + 1) else k
  }

  /** Where the outer loop goes on after looking at `p`: behind a match, or behind the character
      that ended a partial match. The scanner never backs up. */
  function Next(t: string, d: string, p: nat): nat
    requires p < |t|
  {
    var m := Matched(t, d, p);
    if m == |d| then p + m else p + m + 1
  }

  /** The scan from `p` stops at the terminator and does not step over it. */
  predicate Inside(t: string, d: string, p: nat)
    requires d != ""
    decreases |t| - p
  {
    p == |t| || (p < |t| && Inside(t, d, Next(t, d, p)))
  }

  /** The pieces a scan from `p` cuts the text into, the piece under way having begun at `start`. A
      scan that steps over the terminator does so with the last piece still under way. */
  function StrSlices(t: string, d: string, p: nat, start: nat): (ss: seq<Slice>)
    requires d != "" && start <= p && start <= |t|
    ensures ss != []
    decreases |t| - p
  {
    if p >= |t| then [Slice(start, |t|)]
    else if Matched(t, d, p) == |d| then
      [Slice(start, p)] + StrSlices(t, d, p + |d|, p + |d|)
    else StrSlices(t, d, Next(t, d, p), start)
  }

  // ---------------------------------------------------------------- the string scanner as an automaton

  /** How many characters of `d` the automaton has matched in front of index `j`, having matched `m`
      in front of index `i`: each character of the text either extends the match or is dropped
      together with it, and a complete match starts over. */
  function Progress(t: string, d: string, i: nat, m: nat, j: nat): (k: nat)
    requires i <= j <= |t| && m < |d|
    ensures k < |d|
    decreases j - i
  {
    if i == j then m
    else if t[i] == d[m] && m + 1 < |d| then Progress(t, d, i + 1, m + 1, j)
    else Progress(t, d, i + 1, 0, j)
  }

  /** The pieces the automaton cuts the text into. */
  function Automaton(t: string, d: string, i: nat, m: nat, start: nat): (ss: seq<Slice>)
    requires m < |d| && start + m <= i <= |t|
    ensures ss != []
    decreases |t| - i
  {
    if i == |t| then [Slice(start, |t|)]
    else if t[i] != d[m] then Automaton(t, d, i + 1, 0, start)
    else if m + 1 < |d| then Automaton(t, d, i + 1, m + 1, start)
    else [Slice(start, i - m)] + Automaton(t, d, i + 1, 0, i + 1)
  }

  // ---------------------------------------------------------------- what splitting should mean

  predicate Occurs(t: string, d: string, p: nat) {
    p + |d| <= |t| && t[p..p + |d|] == d
  }

  /** The leftmost, non-overlapping occurrences of `d` from `p` on. */
  function Leftmost(t: string, d: string, p: nat, start: nat): (ss: seq<Slice>)
    requires d != "" && start <= p <= |t|
    decreases |t| - p
  {
    if p == |t| then [Slice(start, p)]
    else if Occurs(t, d, p) then [Slice(start, p)] + Leftmost(t, d, p + |d|, p + |d|)
    else Leftmost(t, d, p + 1, start)
  }

  /** Splitting at a character, by recursion on the text. */
  function Split(t: string, c: char): (fs: seq<string>)
    ensures fs != []
  {
    if t == "" then [""]
    else
      var fs := Split(t[1..], c);
      if t[0] == c then [""] + fs else [[t[0]] + fs[0]] + fs[1..]
  }

  function Join(fs: seq<string>, d: string): string {
    if fs == [] then ""
    else if |fs| == 1 then fs[0]
    else fs[0] + d + Join(fs[1..], d)
  }

  predicate Within(t: string, ss: seq<Slice>) {
    forall k :: 0 <= k < |ss| ==> ss[k].start <= ss[k].end <= |t|
  }

  function Pieces(t: string, ss: seq<Slice>): (fs: seq<string>)
    requires Within(t, ss)
    ensures |fs| == |ss| && forall k :: 0 <= k < |ss| ==> fs[k] == t[ss[k].start..ss[k].end]
  {
    seq(|ss|, k requires 0 <= k < |ss| => t[ss[k].start..ss[k].end])
  }

  /** What the table of ten slots keeps: the first nine. */
  function Kept(ss: seq<Slice>): seq<Slice> {
    if |ss| <= 9 then ss else ss[..9]
  }

  /** The pieces with a delimiter behind them. */
  function ButLast(ss: seq<Slice>): seq<Slice>
    requires ss != []
  {
    ss[..|ss| - 1]
  }
}
