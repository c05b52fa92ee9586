/** Base64 as section 4 of RFC 4648 describes it: an encoder by 24-bit groups, a strict decoder,
    and the canonical strings, with the proof that the first two are inverse on the third. */
module Base64Spec {

  import opened CChar
  import opened Division
  import opened Wrappers

  const ALPHABET: string := 
    "ABCDEFGHIJKLM" + "NOPQRSTUVWXYZ" + "abcdefghijklm" + "nopqrstuvwxyz" + "0123456789+/"

  /** The digit a character stands for; -1 outside the alphabet. */
  function Value(c: char): int {
    if 'A' <= c <= 'Z' then c as int - 'A' as int
    else if 'a' <= c <= 'z' then c as int - 'a' as int + 26
    else if '0' <= c <= '9' then c as int - '0' as int + 52
    else if c == '+' then 62
    else if c == '/' then 63
    else -1
  }

  /** Digit `v` of the alphabet, by ranges. */
  function Digit(v: int): char
    requires 0 <= v < 64
  {
    if v < 26 then ('A' as int + v) as char
    else if v < 52 then ('a' as int + (v - 26)) as char
    else if v < 62 then ('0' as int + (v - 52)) as char
    else if v == 62 then '+'
    else '/'
  }

  lemma AlphabetIsDigit(v: int)
    requires 0 <= v < 64
    ensures |ALPHABET| == 64 && ALPHABET[v] == Digit(v)
  {
    if v < 13 {
    } else if v < 26 {
    } else if v < 39 {
    } else if v < 52 {
    } else {
    }
  }

  lemma DigitValue(v: int)
    requires 0 <= v < 64
    ensures Value(Digit(v)) == v && Digit(v) != '='
  {
  }

  lemma ValueDigit(c: char)
    ensures Value(c) < 64
    ensures Value(c) >= 0 ==> Digit(Value(c)) == c
  {
  }

  // ---------------------------------------------------------------- encoding

  /** The four sextets of three input bytes, most significant first. */
  function Sextets(a: byte, b: byte, c: byte): (v: seq<int>)
    ensures |v| == 4 && forall i :: 0 <= i < 4 ==> 0 <= v[i] < 64
  {
    [a / 4, a % 4 * 16 + b / 16, b % 16 * 4 + c / 64, c % 64]
  }

  function Quad(a: byte, b: byte, c: byte): (s: string)
    ensures |s| == 4
  {
    var v := Sextets(a, b, c);
    [Digit(v[0]), Digit(v[1]), Digit(v[2]), Digit(v[3])]
  }

  function Encode(data: seq<byte>): string
    decreases |data|
  {
    if |data| == 0 then []
    else if |data| == 1 then Quad(data[0], 0, 0)[..2] + "=="
    else if |data| == 2 then Quad(data[0], data[1], 0)[..3] + "="
    else Quad(data[0], data[1], data[2]) + Encode(data[3..])
  }

  lemma {:induction false} EncodeLength(data: seq<byte>)
    ensures |Encode(data)| == 4 * ((|data| + 2) / 3)
    decreases |data|
  {
    if |data| > 2 {
      EncodeLength(data[3..]);
      assert (|data| + 2) / 3 == (|data[3..]| + 2) / 3 + 1;
    }
  }

  lemma EncodeGroup(a: byte, b: byte, c: byte, rest: seq<byte>)
    ensures Encode([a, b, c] + rest) == Quad(a, b, c) + Encode(rest)
  {
    assert ([a, b, c] + rest)[3..] == rest;
  }

  lemma QuadFoo()
    ensures Quad(102, 111, 111) == "Zm9v"
  {
  }

  lemma QuadBar()
    ensures Quad(98, 97, 114) == "YmFy"
  {
  }

  lemma QuadLast()
    ensures Quad(251, 255, 191) == "+/+/"
  {
  }

  /** Concrete codes: the test vector "foobar" of section 10, the last digits of the alphabet, and the
      padding. */
  lemma TestVectors(a: byte, b: byte)
    ensures Encode([102, 111, 111] + [98, 97, 114]) == "Zm9v" + "YmFy"
    ensures Encode([251, 255, 191]) == "+/+/"
    ensures |Encode([a])| == 4 && Encode([a])[2] == Encode([a])[3] == '='
    ensures |Encode([a, b])| == 4 && Encode([a, b])[3] == '='
  {
    var bar: seq<byte>, last: seq<byte> := [98, 97, 114], [251, 255, 191];
    assert bar + [] == bar && last + [] == last;
    EncodeGroup(102, 111, 111, bar);
    EncodeGroup(98, 97, 114, []);
    EncodeGroup(251, 255, 191, []);
    QuadFoo();
    QuadBar();
    QuadLast();
  }

  // ---------------------------------------------------------------- decoding

  /** The three bytes behind four digits. */
  function Bytes(v0: int, v1: int, v2: int, v3: int): (s: seq<byte>)
    requires 0 <= v0 < 64 && 0 <= v1 < 64 && 0 <= v2 < 64 && 0 <= v3 < 64
    ensures |s| == 3
  {
    [v0 * 4 + v1 / 16, v1 % 16 * 16 + v2 / 4, v2 % 4 * 64 + v3]
  }

  /** A quadruple without padding. */
  function DecodeQuad(s: string): Option<seq<byte>>
    requires |s| == 4
  {
    ValueDigit(s[0]); ValueDigit(s[1]); ValueDigit(s[2]); ValueDigit(s[3]);
    if Value(s[0]) < 0 || Value(s[1]) < 0 || Value(s[2]) < 0 || Value(s[3]) < 0 then None
    else Some(Bytes(Value(s[0]), Value(s[1]), Value(s[2]), Value(s[3])))
  }

  /** The last quadruple, padded or not; the unused bits of a padded one must be zero (section 3.5). */
  function DecodeLast(s: string): Option<seq<byte>>
    requires |s| == 4
  {
    ValueDigit(s[0]); ValueDigit(s[1]); ValueDigit(s[2]);
    var v0, v1, v2 := Value(s[0]), Value(s[1]), Value(s[2]);
    if s[3] != '=' then DecodeQuad(s)
    else if v0 < 0 || v1 < 0 then None
    else if s[2] == '=' then
      if v1 % 16 == 0 then Some(Bytes(v0, v1, 0, 0)[..1]) else None
    else if v2 < 0 || v2 % 4 != 0 then None
    else Some(Bytes(v0, v1, v2, 0)[..2])
  }

  /** The strict decoder: whole quadruples of alphabet characters, the last of which may be padded;
      None for anything else. */
  function Decode(s: string): Option<seq<byte>>
    decreases |s|
  {
    if |s| == 0 then Some([])
    else if |s| < 4 then None
    else if |s| == 4 then DecodeLast(s)
    else
      match (DecodeQuad(s[..4]), Decode(s[4..]))
      case (Some(head), Some(rest)) => Some(head + rest)
      case _ => None
  }

  // ---------------------------------------------------------------- round trip

  /** The sextets are what dividing the 24-bit group by powers of 64 leaves. */
  lemma SextetsOfGroup(a: byte, b: byte, c: byte)
    ensures var g := a * 65536 + b * 256 + c;
            Sextets(a, b, c) == [g / 262144, g / 4096 % 64, g / 64 % 64, g % 64]
  {
    var g := a * 65536 + b * 256 + c;
    var ah, al, bh, bl, ch, cl := a / 4, a % 4, b / 16, b % 16, c / 64, c % 64;
    DivMod(g, 262144, ah, al * 65536 + b * 256 + c);
    DivMod(g, 4096, ah * 64 + (al * 16 + bh), bl * 256 + c);
    DivMod(ah * 64 + (al * 16 + bh), 64, ah, al * 16 + bh);
    DivMod(g, 64, (ah * 64 + al * 16 + bh) * 64 + (bl * 4 + ch), cl);
    DivMod((ah * 64 + al * 16 + bh) * 64 + (bl * 4 + ch), 64, ah * 64 + al * 16 + bh, bl * 4 + ch);
  }

  lemma BytesOfSextets(a: byte, b: byte, c: byte)
    ensures var v := Sextets(a, b, c); Bytes(v[0], v[1], v[2], v[3]) == [a, b, c]
  {
    DivMod(a % 4 * 16 + b / 16, 16, a % 4, b / 16);
    DivMod(b % 16 * 4 + c / 64, 4, b % 16, c / 64);
  }

  lemma Refilled(a: int, b: int, low: int)
    requires 0 <= b < low
    ensures (a * low + b) / low == a && (a * low + b) % low == b
  {
    DivMod(a * low + b, low, a, b);
  }

  lemma SextetsOfBytes(v0: int, v1: int, v2: int, v3: int)
    requires 0 <= v0 < 64 && 0 <= v1 < 64 && 0 <= v2 < 64 && 0 <= v3 < 64
    ensures var d := Bytes(v0, v1, v2, v3); Sextets(d[0], d[1], d[2]) == [v0, v1, v2, v3]
  {
    var d := Bytes(v0, v1, v2, v3);
    assert d[0] / 4 == v0 && d[0] % 4 == v1 / 16 by { Refilled(v0, v1 / 16, 4); }
    assert d[1] / 16 == v1 % 16 && d[1] % 16 == v2 / 4 by { Refilled(v1 % 16, v2 / 4, 16); }
    assert d[2] / 64 == v2 % 4 && d[2] % 64 == v3 by { Refilled(v2 % 4, v3, 64); }
  }

  lemma QuadValues(a: byte, b: byte, c: byte)
    ensures var q, v := Quad(a, b, c), Sextets(a, b, c);
            forall i :: 0 <= i < 4 ==> Value(q[i]) == v[i] && q[i] != '='
  {
    var v := Sextets(a, b, c);
    DigitValue(v[0]); DigitValue(v[1]); DigitValue(v[2]); DigitValue(v[3]);
  }

  lemma QuadDecodes(a: byte, b: byte, c: byte)
    ensures DecodeQuad(Quad(a, b, c)) == Some([a, b, c])
    ensures Quad(a, b, c)[3] != '='
  {
    QuadValues(a, b, c);
    BytesOfSextets(a, b, c);
  }

  lemma OneByteDecodes(a: byte)
    ensures DecodeLast(Quad(a, 0, 0)[..2] + "==") == Some([a])
  {
    var q := Quad(a, 0, 0);
    QuadValues(a, 0, 0);
    BytesOfSextets(a, 0, 0);
    DivMod(a % 4 * 16, 16, a % 4, 0);
    assert q[..2] + "==" == [q[0], q[1], '=', '='];
    assert [a, 0, 0][..1] == [a];
  }

  lemma TwoBytesDecode(a: byte, b: byte)
    ensures DecodeLast(Quad(a, b, 0)[..3] + "=") == Some([a, b])
  {
    var q := Quad(a, b, 0);
    QuadValues(a, b, 0);
    BytesOfSextets(a, b, 0);
    DivMod(b % 16 * 4, 4, b % 16, 0);
    assert q[..3] + "=" == [q[0], q[1], q[2], '='];
    assert [a, b, 0][..2] == [a, b];
  }

  /** Round trip: decoding what was encoded gives the input back, for every input. */
  lemma {:induction false} RoundTrip(data: seq<byte>)
    ensures Decode(Encode(data)) == Some(data)
    decreases |data|
  {
    if |data| == 1 {
      OneByteDecodes(data[0]);
      assert data == [data[0]];
    } else if |data| == 2 {
      TwoBytesDecode(data[0], data[1]);
      assert data == [data[0], data[1]];
    } else if |data| > 2 {
      var q, rest := Quad(data[0], data[1], data[2]), Encode(data[3..]);
      QuadDecodes(data[0], data[1], data[2]);
      RoundTrip(data[3..]);
      assert [data[0], data[1], data[2]] + data[3..] == data;
      if |data| == 3 {
        assert data[3..] == [] && q + rest == q;
        assert Decode(q) == DecodeLast(q) == DecodeQuad(q);
        assert data == [data[0], data[1], data[2]];
      } else {
        EncodeLength(data[3..]);
        assert (q + rest)[..4] == q && (q + rest)[4..] == rest;
      }
    }
  }

  lemma Injective(x: seq<byte>, y: seq<byte>)
    requires Encode(x) == Encode(y)
    ensures x == y
  {
    RoundTrip(x);
    RoundTrip(y);
  }

  // ---------------------------------------------------------------- exact image

  /** How many of the last two characters are padding. */
  function Padding(s: string): nat {
    if |s| < 2 || s[|s| - 1] != '=' then 0
    else if s[|s| - 2] != '=' then 1
    else 2
  }

  /** Canonical base64: whole quadruples, alphabet characters up to the padding, and zero in the
      bits that the padded quadruple does not use. */
  predicate Canonical(s: string) {
    && |s| % 4 == 0
    && (forall i :: 0 <= i < |s| - Padding(s) ==> Value(s[i]) >= 0)
    && (Padding(s) == 1 ==> Value(s[|s| - 2]) % 4 == 0)
    && (Padding(s) == 2 ==> Value(s[|s| - 3]) % 16 == 0)
  }

  lemma CanonicalTail(s: string)
    requires |s| > 4
    ensures Canonical(s)
       <==> (forall i :: 0 <= i < 4 ==> Value(s[i]) >= 0) && Canonical(s[4..])
  {
    var t := s[4..];
    if |s| % 4 == 0 {
      assert Padding(s) == Padding(t);
      assert forall i :: 0 <= i < |t| ==> t[i] == s[i + 4];
    }
  }

  lemma DecodeQuadAccepts(s: string)
    requires |s| == 4
    ensures DecodeQuad(s).Some? <==> forall i :: 0 <= i < 4 ==> Value(s[i]) >= 0
    ensures DecodeQuad(s).Some? ==>
              |DecodeQuad(s).value| == 3
              && Quad(DecodeQuad(s).value[0], DecodeQuad(s).value[1], DecodeQuad(s).value[2]) == s
  {
    ValueDigit(s[0]); ValueDigit(s[1]); ValueDigit(s[2]); ValueDigit(s[3]);
    if DecodeQuad(s).Some? {
      SextetsOfBytes(Value(s[0]), Value(s[1]), Value(s[2]), Value(s[3]));
    }
  }

  lemma UnpaddedQuad(s: string)
    requires |s| == 4 && s[3] != '='
    ensures DecodeLast(s).Some? <==> Canonical(s)
    ensures DecodeLast(s).Some? ==> Encode(DecodeLast(s).value) == s
  {
    DecodeQuadAccepts(s);
    if DecodeQuad(s).Some? {
      assert Encode(DecodeQuad(s).value[3..]) == [];
    }
  }

  lemma OncePadded(s: string)
    requires |s| == 4 && s[3] == '=' && s[2] != '='
    ensures DecodeLast(s).Some? <==> Canonical(s)
    ensures DecodeLast(s).Some? ==> Encode(DecodeLast(s).value) == s
  {
    ValueDigit(s[0]); ValueDigit(s[1]); ValueDigit(s[2]);
    assert Padding(s) == 1;
    if DecodeLast(s).Some? {
      var d := Bytes(Value(s[0]), Value(s[1]), Value(s[2]), 0);
      SextetsOfBytes(Value(s[0]), Value(s[1]), Value(s[2]), 0);
      assert d[2] == 0;
      assert Quad(d[0], d[1], 0)[..3] == s[..3];
    }
  }

  lemma TwicePadded(s: string)
    requires |s| == 4 && s[3] == '=' && s[2] == '='
    ensures DecodeLast(s).Some? <==> Canonical(s)
    ensures DecodeLast(s).Some? ==> Encode(DecodeLast(s).value) == s
  {
    ValueDigit(s[0]); ValueDigit(s[1]);
    assert Padding(s) == 2;
    if DecodeLast(s).Some? {
      var d := Bytes(Value(s[0]), Value(s[1]), 0, 0);
      SextetsOfBytes(Value(s[0]), Value(s[1]), 0, 0);
      assert d[1] == 0 && d[2] == 0;
      assert Quad(d[0], 0, 0)[..2] == s[..2];
    }
  }

  /** The decoder accepts exactly the canonical strings, and encoding what it returns gives the
      string back. */
  lemma {:induction false} DecodeAccepts(s: string)
    ensures Decode(s).Some? <==> Canonical(s)
    ensures Decode(s).Some? ==> Encode(Decode(s).value) == s
    decreases |s|
  {
    if |s| == 4 {
      if s[3] != '=' {
        UnpaddedQuad(s);
      } else if s[2] != '=' {
        OncePadded(s);
      } else {
        TwicePadded(s);
      }
    } else if |s| > 4 {
      CanonicalTail(s);
      DecodeQuadAccepts(s[..4]);
      DecodeAccepts(s[4..]);
      if Decode(s).Some? {
        var d, rest := DecodeQuad(s[..4]).value, Decode(s[4..]).value;
        assert (d + rest)[3..] == rest;
        assert s == s[..4] + s[4..];
      }
    }
  }

  /** Exact image: a string is an output of the encoder if and only if it is canonical. */
  lemma ExactImage(s: string)
    ensures Canonical(s) <==> exists data :: Encode(data) == s
  {
    DecodeAccepts(s);
    if data :| Encode(data) == s {
      RoundTrip(data);
    }
  }
}
