/** The class `Explode` of header/explode.hpp: two scanners that fill a table of ten slots, and a
    pass that copies the pieces out. */
module Explode {
  import opened ExplodeSpec
  import opened ExplodeTheorems
  import opened Wrappers

  /** One slot `_ptrs[i]`: null pointers, or pointers to the start and the end of a piece. */
  datatype Slot = Null | Ptrs(start: nat, end: nat)

  class Explode {
    var copies: array?<array?<char>>
    const ptrs: array<Slot>
    var len: nat
    /** The scan has stepped over the terminator. The source then goes on reading whatever memory is
        behind the text; the model stops there. */
    ghost var overran: bool

    /** The table holds the first nine of the pieces `ss`, and null in every slot behind them. */
    ghost predicate Table(ss: seq<Slice>)
      reads this, ptrs
    {
      && ptrs.Length == 10
      && len == |Kept(ss)|
      && forall k :: 0 <= k < 10 ==>
           ptrs[k] == if k < len then Ptrs(ss[k].start, ss[k].end) else Null
    }

    /** Entry `k` of the copied array is null for an empty piece, and otherwise a NUL-terminated copy. */
    ghost predicate CopiedAt(str: string, ss: seq<Slice>, k: nat)
      reads this, copies, if copies != null && k < copies.Length then {copies[k]} else {}
      requires copies != null && k < copies.Length && k < |ss|
      requires ss[k].start <= ss[k].end <= |str|
    {
      var s := ss[k];
      if s.start == s.end then copies[k] == null
      else copies[k] != null && copies[k][..] == str[s.start..s.end] + ['\0']
    }

    /** What a constructor establishes for a non-empty text whose scan gives `ss`. */
    ghost predicate Exploded(str: string, ss: seq<Slice>)
      reads this, ptrs, copies, if copies != null then set k | 0 <= k < copies.Length :: copies[k] else {}
    {
      && Table(ss)
      && Within(str, ss)
      && copies != null && copies.Length == len
      && forall k :: 0 <= k < len ==> CopiedAt(str, ss, k)
    }

    /** Splitting at a character. A missing or empty text leaves the object empty. */
    constructor Char(delimiter: char, str: Option<string>)
      requires str.Some? ==> CString(str.value)
      ensures !overran
      ensures str == None || str.value == "" ==>
                len == 0 && copies == null && Returns([])
      ensures str.Some? && str.value != "" ==>
                Exploded(str.value, CharSlices(str.value, delimiter, 0, 0))
    {
      copies := null;
      len := 0;
      ptrs := new Slot[10];
      overran := false;
      new;
      if str.Some? && At(str.value, 0) != '\0' {
        ClearTable();
        ghost var ss := ScanChar(delimiter, str.value);
        CharScan(str.value, delimiter);
        Copy(str.value, ss);
      }
    }

    /** Splitting at a string. A missing or empty text, or an empty delimiter, leaves the object
        empty. When the scan steps over the terminator, the table holds the pieces in front of the
        last one, and the copying pass is not reached before memory behind the text is read. */
    constructor String(delimiter: string, str: Option<string>)
      requires CString(delimiter) && (str.Some? ==> CString(str.value))
      ensures str == None || str.value == "" || delimiter == "" ==>
                len == 0 && copies == null && !overran && Returns([])
      ensures str.Some? && str.value != "" && delimiter != "" ==>
                && (overran <==> !Inside(str.value, delimiter, 0))
                && (!overran ==> Exploded(str.value, StrSlices(str.value, delimiter, 0, 0)))
                && (overran ==> copies == null
                                && Table(ButLast(StrSlices(str.value, delimiter, 0, 0))))
    {
      copies := null;
      len := 0;
      ptrs := new Slot[10];
      overran := false;
      new;
      if str.Some? && At(str.value, 0) != '\0' && |delimiter| > 0 {
        ClearTable();
        var inside := ScanString(delimiter, str.value);
        overran := !inside;
        if inside {
          StringScan(str.value, delimiter);
          Copy(str.value, StrSlices(str.value, delimiter, 0, 0));
        }
      }
    }

    /** The loop of the first constructor. */
    method ScanChar(delimiter: char, t: string) returns (ghost all: seq<Slice>)
      requires CString(t) && Table([])
      modifies this`len, ptrs
      ensures all == CharSlices(t, delimiter, 0, 0) && Table(all)
    {
      all := CharSlices(t, delimiter, 0, 0);
      var p: nat, start: nat := 0, 0;
      ghost var out := [];
      while At(t, p) != '\0'
        invariant start <= p <= |t| && Table(out)
        invariant all == out + CharSlices(t, delimiter, p, start)
        decreases |t| - p
      {
        if At(t, p) == delimiter {
          out := Record(start, p, out);
          start := p + 1;
        }
        p := p + 1;
      }
      out := Record(start, p, out);
    }

    /** The outer loop of the second constructor, and the last piece; `inside` says that the loop
        has ended at the terminator. */
    method ScanString(delimiter: string, t: string) returns (inside: bool)
      requires CString(delimiter) && CString(t) && delimiter != "" && Table([])
      modifies this`len, ptrs
      ensures inside <==> Inside(t, delimiter, 0)
      ensures inside ==> Table(StrSlices(t, delimiter, 0, 0))
      ensures !inside ==> Table(ButLast(StrSlices(t, delimiter, 0, 0)))
    {
      ghost var all, out := StrSlices(t, delimiter, 0, 0), [];
      var p: nat, start: nat := 0, 0;
      while p <= |t| && At(t, p) != '\0'
        invariant start <= p && start <= |t| && Table(out)
        invariant Inside(t, delimiter, 0) <==> Inside(t, delimiter, p)
        invariant all == out + StrSlices(t, delimiter, p, start)
        decreases |t| - p
      {
        ScanStepBehind(t, delimiter, p, start, out, all);
        p, start, out := Pass(delimiter, t, p, start, out);
      }
      ScanEnd(t, delimiter, p, start, out, all);
      if p > |t| {
        return false;
      }
      out := Record(start, p, out);
      inside := true;
    }

    /** One pass of the outer loop. */
    method Pass(delimiter: string, t: string, p: nat, start: nat, ghost out: seq<Slice>)
      returns (p': nat, start': nat, ghost out': seq<Slice>)
      requires CString(delimiter) && CString(t) && delimiter != ""
      requires start <= p < |t| && Table(out)
      modifies this`len, ptrs
      ensures p' == Next(t, delimiter, p) && start' == Start(t, delimiter, p, start)
      ensures out' == out + Found(t, delimiter, p, start) && Table(out')
    {
      var dlen := |delimiter|;
      p', start', out' := p, start, out;
      if At(t, p') == At(delimiter, 0) {
        var find;
        p', find := MatchHere(t, delimiter, p');
        if find {
          out' := Record(start', p' - dlen, out');
          start' := p';
          p' := p' - 1;
        }
      }
      p' := p' + 1;
    }

    /** The inner loop: walks text and delimiter together, up to the end of the delimiter or the
        first difference, the terminator of the text included. */
    static method MatchHere(t: string, delimiter: string, from: nat) returns (p: nat, find: bool)
      requires CString(t) && CString(delimiter) && from <= |t|
      ensures p == from + Matched(t, delimiter, from)
      ensures find <==> Matched(t, delimiter, from) == |delimiter|
    {
      ghost var m := Matched(t, delimiter, from);
      var dm := 0;
      p, find := from, true;
      while At(delimiter, dm) != '\0'
        invariant dm <= m && p == from + dm && find
        decreases |delimiter| - dm
      {
        if At(t, p) != At(delimiter, dm) {
          find := false;
          break;
        }
        dm := dm + 1;
        p := p + 1;
      }
    }

    /** `memset` of the whole table. */
    method ClearTable()
      requires ptrs.Length == 10 && len == 0
      modifies ptrs
      ensures Table([])
    {
      forall i | 0 <= i < 10 {
        ptrs[i] := Null;
      }
    }

    /** Adds a piece to the table unless nine are there already. `out` are the pieces found so far. */
    method Record(start: nat, end: nat, ghost out: seq<Slice>) returns (ghost out': seq<Slice>)
      requires Table(out)
      modifies this`len, ptrs
      ensures out' == out + [Slice(start, end)] && Table(out')
    {
      if len < 9 {
        ptrs[len] := Ptrs(start, end);
        len := len + 1;
      }
      out' := out + [Slice(start, end)];
    }

    /** Copies every recorded piece into a string of its own. */
    method Copy(str: string, ghost ss: seq<Slice>)
      requires Table(ss) && Within(str, ss)
      modifies this`copies
      ensures copies != null && fresh(copies)
      ensures Exploded(str, ss)
    {
      var arr := new array?<char>[len];
      copies := arr;
      for i := 0 to 10
        invariant copies == arr && i <= len
        invariant forall k :: 0 <= k < i ==>
                    if ss[k].start == ss[k].end then arr[k] == null
                    else arr[k] != null && arr[k][..] == str[ss[k].start..ss[k].end] + ['\0']
      {
        if ptrs[i] == Null {
          break;
        }
        if ptrs[i].start == ptrs[i].end {
          arr[i] := null;
        } else {
          var dst := CopyPiece(str, ptrs[i].start, ptrs[i].end);
          arr[i] := dst;
        }
      }
    }

    static method CopyPiece(str: string, start: nat, end: nat) returns (dst: array<char>)
      requires start < end <= |str|
      ensures fresh(dst) && dst[..] == str[start..end] + ['\0']
    {
      var n := end - start;
      dst := new char[n + 1];
      var p, j := start, 0;
      while p < end
        invariant start <= p <= end && j == p - start
        invariant dst[..j] == str[start..p]
      {
        dst[j] := str[p];
        p, j := p + 1, j + 1;
      }
      dst[j] := '\0';
    }

    function Length(): nat
      reads this
    {
      len
    }

    /** `operator[]`. */
    function Get(index: nat): array?<char>
      reads this, copies
      requires len > 0 ==> copies != null && copies.Length == len
    {
      if index >= len then null else copies[index]
    }

    /** What a caller sees: the first nine of the fields `fs`, a null pointer for an empty one and
        for every index from the length on. */
    ghost predicate Returns(fs: seq<string>)
      reads this, copies, if copies != null then set k | 0 <= k < copies.Length :: copies[k] else {}
    {
      && (len > 0 ==> copies != null && copies.Length == len)
      && Length() == (if |fs| < 9 then |fs| else 9)
      && (forall i: nat :: i >= len ==> Get(i) == null)
      && forall i :: 0 <= i < len ==>
           && (Get(i) == null <==> fs[i] == "")
           && (Get(i) != null ==> Get(i)[..] == fs[i] + ['\0'])
    }
  }

  lemma ExplodedReturns(e: Explode, str: string, ss: seq<Slice>)
    requires e.Exploded(str, ss)
    ensures e.Returns(Pieces(str, ss))
    ensures forall k :: 0 <= k < 10 ==> (e.ptrs[k] == Null <==> k >= e.len)
  {
    var fs := Pieces(str, ss);
    forall i | 0 <= i < e.len
      ensures && (e.Get(i) == null <==> fs[i] == "")
              && (e.Get(i) != null ==> e.Get(i)[..] == fs[i] + ['\0'])
    {
      assert e.CopiedAt(str, ss, i);
    }
  }

  /** After `Explode(c, str)` the caller sees the recursive split of the text. */
  lemma CharResult(e: Explode, str: string, c: char)
    requires e.Exploded(str, CharSlices(str, c, 0, 0))
    ensures e.Returns(Split(str, c))
    ensures e.Length() == if Count(str, c) <= 8 then 1 + Count(str, c) else 9
  {
    CharScan(str, c);
    ExplodedReturns(e, str, CharSlices(str, c, 0, 0));
  }

  /** After exploding a join, the caller sees the joined fields. */
  lemma JoinResult(e: Explode, fs: seq<string>, d: string)
    requires d != "" && fs != [] && FreeOf(fs, d[0])
    requires e.Exploded(Join(fs, d), StrSlices(Join(fs, d), d, 0, 0))
    ensures e.Returns(fs)
  {
    StringRoundTrip(fs, d);
    ExplodedReturns(e, Join(fs, d), StrSlices(Join(fs, d), d, 0, 0));
  }
}
