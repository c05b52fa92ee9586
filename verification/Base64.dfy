/** `base64_encode` of header/base64.h: the shift-and-mask loop over C chars. */
module Base64 {
  import opened CChar
  import opened Base64Spec

  /** C's `int`; every operation on `i` and `j` below is checked to stay inside it. */
  newtype int32 = x: int | -0x8000_0000 <= x < 0x8000_0000

  const INT_MAX: int := 0x7FFF_FFFF

  /** The longest input whose output positions all fit an `int`. */
  const LONGEST: int := 1610612733

  /** The bound is exact: the last position written, that of the terminator, fits an `int` for an
      input of this length and for no longer one. */
  lemma LongestIsExact(data: seq<byte>)
    ensures |data| <= LONGEST <==> |Encode(data)| <= INT_MAX
  {
    EncodeLength(data);
  }

  function Max0(n: int32): (m: nat)
    ensures n >= 0 ==> m == n as int
    ensures n < 0 ==> m == 0
  {
    if n < 0 then 0 else n as int
  }

  /** `base64char[(int)current]`. */
  function Char(current: bv8): (c: char)
    requires Octet(current) < 64
    ensures c == Digit(Octet(current))
  {
    AlphabetIsDigit(current as int);
    ALPHABET[current as int]
  }

  /** Character `k` of the code for the next group; missing bytes count as zero. */
  function GroupChar(d: seq<byte>, k: int): char
    requires d != [] && 0 <= k < 4
  {
    Digit(Sextets(d[0], if |d| > 1 then d[1] else 0, if |d| > 2 then d[2] else 0)[k])
  }

  /** What the encoder adds for the next one, two or three bytes. */
  lemma EncodeOne(d: seq<byte>)
    requires |d| == 1
    ensures Encode(d) == [GroupChar(d, 0), GroupChar(d, 1), '=', '=']
  {
    var q := Quad(d[0], 0, 0);
    assert q[..2] == [q[0], q[1]];
  }

  lemma EncodeTwo(d: seq<byte>)
    requires |d| == 2
    ensures Encode(d) == [GroupChar(d, 0), GroupChar(d, 1), GroupChar(d, 2), '=']
  {
    var q := Quad(d[0], d[1], 0);
    assert q[..3] == [q[0], q[1], q[2]];
  }

  lemma EncodeThree(d: seq<byte>)
    requires |d| >= 3
    ensures Encode(d) == [GroupChar(d, 0), GroupChar(d, 1), GroupChar(d, 2), GroupChar(d, 3)]
                         + Encode(d[3..])
  {
  }

  // ---------------------------------------------------------------- the assignments to `current`

  method FirstChar(a: bv8, signed: bool, ghost d: seq<byte>) returns (c: char)
    requires d != [] && d[0] == Octet(a)
    ensures c == GroupChar(d, 0)
  {
    var current := U8(Sar(Promote(a, signed), 2));
    current := current & 0x3F;
    ShiftsAndMasks(a, signed);
    Top6(a);
    c := Char(current);
  }

  /** The second sextet as far as the first byte determines it; with no second byte this is all. */
  method SecondHigh(a: bv8, signed: bool) returns (current: bv8)
    ensures current == (a & 3) << 4
  {
    current := U8(Promote(a, signed) << 4) & 0x30;
    ShiftsAndMasks(a, signed);
  }

  method SecondCharAlone(current: bv8, ghost a: bv8, ghost d: seq<byte>) returns (c: char)
    requires current == (a & 3) << 4 && |d| == 1 && d[0] == Octet(a)
    ensures c == GroupChar(d, 1)
  {
    Low2(a);
    c := Char(current);
  }

  method SecondChar(high: bv8, ghost a: bv8, b: bv8, signed: bool, ghost d: seq<byte>) returns (c: char)
    requires high == (a & 3) << 4 && |d| > 1 && d[0] == Octet(a) && d[1] == Octet(b)
    ensures c == GroupChar(d, 1)
  {
    var current := high | (U8(Sar(Promote(b, signed), 4)) & 0x0F);
    ShiftsAndMasks(b, signed);
    Joined(a, b);
    Low2(a);
    Top4(b);
    c := Char(current);
  }

  /** The third sextet as far as the second byte determines it. */
  method ThirdHigh(b: bv8, signed: bool) returns (current: bv8)
    ensures current == (b & 15) << 2
  {
    current := U8(Promote(b, signed) << 2) & 0x3C;
    ShiftsAndMasks(b, signed);
  }

  method ThirdCharAlone(current: bv8, ghost b: bv8, ghost d: seq<byte>) returns (c: char)
    requires current == (b & 15) << 2 && |d| == 2 && d[1] == Octet(b)
    ensures c == GroupChar(d, 2)
  {
    Low4(b);
    c := Char(current);
  }

  method ThirdChar(high: bv8, ghost b: bv8, c: bv8, signed: bool, ghost d: seq<byte>) returns (r: char)
    requires high == (b & 15) << 2 && |d| > 2 && d[1] == Octet(b) && d[2] == Octet(c)
    ensures r == GroupChar(d, 2)
  {
    var current := high | (U8(Sar(Promote(c, signed), 6)) & 0x03);
    ShiftsAndMasks(c, signed);
    Joined(b, c);
    Low4(b);
    Top2(c);
    r := Char(current);
  }

  method FourthChar(c: bv8, signed: bool, ghost d: seq<byte>) returns (r: char)
    requires |d| > 2 && d[2] == Octet(c)
    ensures r == GroupChar(d, 3)
  {
    var current := U8(Promote(c, signed)) & 0x3F;
    ShiftsAndMasks(c, signed);
    Low6(c);
    r := Char(current);
  }

  // ---------------------------------------------------------------- the loop

  /** The buffer `b`, which was `was` on entry, holds `done` and is unchanged behind it. */
  ghost predicate Written(b: array<char>, done: string, was: string)
    reads b
  {
    && |done| <= b.Length == |was|
    && (forall k :: 0 <= k < |done| ==> b[k] == done[k])
    && forall k :: |done| <= k < b.Length ==> b[k] == was[k]
  }

  /** One pass of the loop, for the group at `i`: the four characters it writes. `last` says that it
      broke off with padding. `d` are the bytes still to be encoded. */
  method Group(bindata: seq<bv8>, i: int32, binlength: int32, signed: bool, ghost d: seq<byte>)
    returns (c0: char, c1: char, c2: char, c3: char, last: bool)
    requires 0 <= i < binlength && binlength as int <= |bindata| && binlength as int <= LONGEST
    requires d == Octets(bindata[i..binlength])
    ensures last <==> |d| < 3
    ensures last ==> Encode(d) == [c0, c1, c2, c3]
    ensures !last ==> Encode(d) == [c0, c1, c2, c3] + Encode(d[3..])
  {
    c0 := FirstChar(bindata[i], signed, d);
    var current := SecondHigh(bindata[i], signed);
    if i + 1 >= binlength {
      c1 := SecondCharAlone(current, bindata[i], d);
      EncodeOne(d);
      return c0, c1, '=', '=', true;
    }
    c1 := SecondChar(current, bindata[i], bindata[i + 1], signed, d);
    current := ThirdHigh(bindata[i + 1], signed);
    if i + 2 >= binlength {
      c2 := ThirdCharAlone(current, bindata[i + 1], d);
      EncodeTwo(d);
      return c0, c1, c2, '=', true;
    }
    c2 := ThirdChar(current, bindata[i + 1], bindata[i + 2], signed, d);
    c3 := FourthChar(bindata[i + 2], signed, d);
    EncodeThree(d);
    last := false;
  }

  /** Writes the characters of a group. */
  method Put(base64: array<char>, j: int32, c0: char, c1: char, c2: char, c3: char,
             ghost done: string, ghost was: string)
    returns (j': int32)
    requires j as int == |done| && |done| + 4 < base64.Length && |done| + 4 < INT_MAX
    requires Written(base64, done, was)
    modifies base64
    ensures j' as int == j as int + 4 && Written(base64, done + [c0, c1, c2, c3], was)
  {
    j' := j;
    base64[j'] := c0; j' := j' + 1;
    base64[j'] := c1; j' := j' + 1;
    base64[j'] := c2; j' := j' + 1;
    base64[j'] := c3; j' := j' + 1;
  }

  lemma Associate(a: string, b: string, c: string)
    ensures a + (b + c) == a + b + c
  {
  }

  /** The loop, for a buffer known to be long enough. */
  method Loop(bindata: seq<bv8>, binlength: int32, base64: array<char>, signed: bool, ghost code: string)
    returns (j: int32)
    requires binlength as int <= |bindata| && binlength as int <= LONGEST
    requires code == Encode(Octets(bindata[..Max0(binlength)]))
    requires |code| < base64.Length && |code| < INT_MAX
    modifies base64
    ensures j as int == |code|
    ensures Written(base64, code, old(base64[..]))
  {
    var i: int32 := 0;
    j := 0;
    ghost var was, done, rest := base64[..], [], Octets(bindata[..Max0(binlength)]);
    while i < binlength
      invariant 0 <= i as int <= Max0(binlength) && j as int == |done|
      invariant rest == Octets(bindata[i..Max0(binlength)])
      invariant code == done + Encode(rest)
      invariant Written(base64, done, was)
    {
      EncodeLength(rest);
      var c0, c1, c2, c3, last := Group(bindata, i, binlength, signed, rest);
      j := Put(base64, j, c0, c1, c2, c3, done, was);
      if last {
        done := done + [c0, c1, c2, c3];
        break;
      }
      Associate(done, [c0, c1, c2, c3], Encode(rest[3..]));
      done := done + [c0, c1, c2, c3];
      i := i + 3;
      rest := rest[3..];
    }
  }

  /** base64_encode. `signed` says whether plain char is signed on the platform; the output does not
      depend on it. A negative length encodes nothing. Everything behind the terminator is left as it
      was. */
  method Base64Encode(bindata: seq<bv8>, binlength: int32, base64: array<char>, signed: bool)
    returns (r: array<char>)
    requires binlength as int <= |bindata| && binlength as int <= LONGEST
    requires 4 * ((Max0(binlength) + 2) / 3) < base64.Length
    modifies base64
    ensures r == base64
    ensures binlength < 0 ==> Written(base64, ['\0'], old(base64[..]))
    ensures binlength >= 0 ==>
              var code := Encode(Octets(bindata[..binlength]));
              && |code| == 4 * ((binlength as int + 2) / 3)
              && Written(base64, code + ['\0'], old(base64[..]))
  {
    ghost var code := Encode(Octets(bindata[..Max0(binlength)]));
    EncodeLength(Octets(bindata[..Max0(binlength)]));
    var j := Loop(bindata, binlength, base64, signed, code);
    base64[j] := '\0';
    r := base64;
  }
}
