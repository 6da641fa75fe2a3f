/** `DESUtil.toHexString` and `DESUtil.convertHexString`: the hex text
    form in which cipher bytes travel between `encrypt` and `decrypt`.
    A byte is held as its unsigned value `0xff & b`, so the narrowing cast
    `(byte) v` is `v` reduced modulo 256. */
module HexCodec {
  import opened Results
  import opened JavaText
  import opened JavaNumbers

  type Byte = x: int | 0 <= x < 256

  /** The digit `Integer.toHexString` writes for a value below 16. */
  function HexChar(d: nat): (c: char)
    requires d < 16
    ensures IsLowerHexDigit(c)
  {
    if d < 10 then ('0' as int + d) as char else ('a' as int + d - 10) as char
  }

  /** The characters `Character.digit(c, 16)` accepts, on ASCII. */
  predicate IsHexDigit(c: char) {
    '0' <= c <= '9' || 'a' <= c <= 'f' || 'A' <= c <= 'F'
  }

  predicate IsLowerHexDigit(c: char) {
    '0' <= c <= '9' || 'a' <= c <= 'f'
  }

  predicate AllHex(s: string) {
    forall i | 0 <= i < |s| :: IsHexDigit(s[i])
  }

  function HexDigitValue(c: char): (d: nat)
    requires IsHexDigit(c)
    ensures d < 16
  {
    if '0' <= c <= '9' then c as int - '0' as int
    else if 'a' <= c <= 'f' then c as int - 'a' as int + 10
    else c as int - 'A' as int + 10
  }

  /** The value of a run of hex digits, most significant first. */
  function HexValue(s: string): nat
    requires AllHex(s)
    decreases |s|
  {
    if |s| == 0 then 0 else HexValue(s[..|s| - 1]) * 16 + HexDigitValue(s[|s| - 1])
  }

  /** `Integer.parseInt(s, 16)`: an optional `-` or `+`, then at least one
      hex digit in either case, and a value within `int`; anything else is
      a `NumberFormatException`, which carries the text. */
  function ParseRadix16(s: string): (r: Result<int, string>)
    ensures r.Err? ==> r.error == s
    ensures r.Ok? ==> INT_MIN <= r.value <= INT_MAX
  {
    var signed := |s| > 0 && (s[0] == '-' || s[0] == '+');
    var digits := if signed then s[1..] else s;
    if |digits| == 0 || !AllHex(digits) then Err(s)
    else
      var v := if signed && s[0] == '-' then -(HexValue(digits) as int) else HexValue(digits) as int;
      if INT_MIN <= v <= INT_MAX then Ok(v) else Err(s)
  }

  /** `(byte) v`, as the unsigned value `0xff & (byte) v`. */
  function ToByte(v: int): Byte {
    v % 256
  }

  // ---------------------------------------------------------------------
  // Encoding

  /** `Integer.toHexString(v)` for a non-negative `v`: the lowercase
      digits of `v` without leading zeros ("0" for zero). */
  function ToHexText(v: nat): (r: string)
    ensures |r| >= 1 && forall i | 0 <= i < |r| :: IsLowerHexDigit(r[i])
    ensures AllHex(r) && HexValue(r) == v
    ensures r[0] == '0' ==> v == 0
    ensures v < 16 <==> |r| == 1
    decreases v
  {
    if v < 16 then [HexChar(v)]
    else
      var r := ToHexText(v / 16) + [HexChar(v % 16)];
      assert r[..|r| - 1] == ToHexText(v / 16);
      r
  }

  /** The two lowercase digits of a byte, high nibble first. */
  function ByteHex(b: Byte): string {
    [HexChar(b / 16), HexChar(b % 16)]
  }

  /** The text one iteration of `toHexString` appends:
      `Integer.toHexString(0xff & b)`, padded with one `0` when it is a
      single digit. */
  function PaddedHexText(b: Byte): string {
    var t := ToHexText(b);
    if |t| < 2 then "0" + t else t
  }

  /** The padded text is exactly the byte's two digits: two characters,
      the high nibble first. */
  lemma PaddedHexTextIsByteHex(b: Byte)
    ensures PaddedHexText(b) == ByteHex(b)
  {
    var t := ToHexText(b);
    if b < 16 {
      assert t == [HexChar(b)];
    } else {
      assert t == ToHexText(b / 16) + [HexChar(b % 16)];
      assert ToHexText(b / 16) == [HexChar(b / 16)];
    }
  }

  /** The hex text of a byte sequence: each byte's two digits, in
      order. */
  function EncodeHex(b: seq<Byte>): (r: string)
    ensures |r| == 2 * |b|
    decreases |b|
  {
    if |b| == 0 then "" else ByteHex(b[0]) + EncodeHex(b[1..])
  }

  /** Byte `i` is written at positions `2i` and `2i + 1`, high nibble
      first, as lowercase hex digits. */
  lemma EncodeHexPairs(b: seq<Byte>)
    ensures forall i | 0 <= i < |b| ::
              EncodeHex(b)[2 * i] == HexChar(b[i] / 16) && EncodeHex(b)[2 * i + 1] == HexChar(b[i] % 16)
  {
    forall i | 0 <= i < |b|
      ensures EncodeHex(b)[2 * i] == HexChar(b[i] / 16) && EncodeHex(b)[2 * i + 1] == HexChar(b[i] % 16)
    {
      EncodeHexAt(b, i);
    }
  }

  lemma {:induction false} EncodeHexAt(b: seq<Byte>, i: nat)
    requires i < |b|
    ensures EncodeHex(b)[2 * i] == HexChar(b[i] / 16) && EncodeHex(b)[2 * i + 1] == HexChar(b[i] % 16)
    decreases i
  {
    var x := ByteHex(b[0]);
    var t := EncodeHex(b[1..]);
    var h := EncodeHex(b);
    assert h == x + t;
    if i == 0 {
      ConcatLeft(x, t, 0);
      ConcatLeft(x, t, 1);
    } else {
      EncodeHexAt(b[1..], i - 1);
      assert b[1..][i - 1] == b[i];
      ConcatRight(x, t, 2 * i);
      ConcatRight(x, t, 2 * i + 1);
    }
  }

  /** The first two characters of a text with a two-character head. */
  lemma ConcatLeft(x: string, t: string, k: nat)
    requires |x| == 2 && k < 2
    ensures (x + t)[k] == x[k]
  {
  }

  /** Past its first two characters, a text with a two-character head
      is its tail. */
  lemma ConcatRight(x: string, t: string, k: nat)
    requires |x| == 2 && 2 <= k < 2 + |t|
    ensures (x + t)[k] == t[k - 2]
  {
  }

  /** The hex text uses lowercase hex digits only. */
  lemma EncodeHexLowercase(b: seq<Byte>)
    ensures forall k | 0 <= k < |EncodeHex(b)| :: IsLowerHexDigit(EncodeHex(b)[k])
  {
    var r := EncodeHex(b);
    EncodeHexPairs(b);
    forall k | 0 <= k < |r| ensures IsLowerHexDigit(r[k]) {
      var i := k / 2;
      assert k == 2 * i || k == 2 * i + 1;
      assert r[2 * i] == HexChar(b[i] / 16) && r[2 * i + 1] == HexChar(b[i] % 16);
    }
  }

  /** A text of the right length with the right digit pairs is the
      encoding. */
  lemma {:induction false} EncodingByPairs(h: string, b: seq<Byte>)
    requires |h| == 2 * |b|
    requires forall i | 0 <= i < |b| :: h[2 * i] == HexChar(b[i] / 16) && h[2 * i + 1] == HexChar(b[i] % 16)
    ensures h == EncodeHex(b)
    decreases |b|
  {
    if |b| > 0 {
      var t := h[2..];
      forall i | 0 <= i < |b| - 1
        ensures t[2 * i] == HexChar(b[1..][i] / 16) && t[2 * i + 1] == HexChar(b[1..][i] % 16)
      {
        assert t[2 * i] == h[2 * (i + 1)] && t[2 * i + 1] == h[2 * (i + 1) + 1];
        assert b[1..][i] == b[i + 1];
      }
      EncodingByPairs(t, b[1..]);
      assert h[..2] == ByteHex(b[0]);
      assert h == h[..2] + t;
    }
  }

  /** The loop of `toHexString`. */
  method ToHexString(b: seq<Byte>) returns (hex: string)
    ensures hex == EncodeHex(b)
  {
    hex := "";
    var i := 0;
    while i < |b|
      invariant 0 <= i <= |b|
      invariant |hex| == 2 * i
      invariant forall k | 0 <= k < i :: hex[2 * k] == HexChar(b[k] / 16) && hex[2 * k + 1] == HexChar(b[k] % 16)
    {
      var plainText := ToHexText(b[i]);
      if |plainText| < 2 {
        plainText := "0" + plainText;
      }
      PaddedHexTextIsByteHex(b[i]);
      hex := hex + plainText;
      i := i + 1;
    }
    EncodingByPairs(hex, b);
  }

  // ---------------------------------------------------------------------
  // Decoding

  /** The two-character slices `ss.substring(2 * i, 2 * i + 2)`; a
      trailing odd character belongs to none. */
  function Pairs(ss: string): (r: seq<string>)
    ensures |r| == |ss| / 2
    ensures forall i | 0 <= i < |r| :: r[i] == ss[2 * i..2 * i + 2]
  {
    seq(|ss| / 2, i requires 0 <= i < |ss| / 2 => ss[2 * i..2 * i + 2])
  }

  /** The slices laid end to end. */
  function Flatten(ps: seq<string>): string {
    if |ps| == 0 then "" else ps[0] + Flatten(ps[1..])
  }

  /** The slices cover the text in order, without gaps or overlap, and
      leave out only a trailing odd character. */
  lemma {:induction false} PairsCover(ss: string)
    ensures Flatten(Pairs(ss)) == ss[..|ss| - |ss| % 2]
    decreases |ss|
  {
    if |ss| >= 2 {
      var t := ss[2..];
      PairsTail(ss);
      PairsCover(t);
      assert ss[..|ss| - |ss| % 2] == ss[..2] + t[..|t| - |t| % 2];
    } else {
      assert Pairs(ss) == [];
    }
  }

  lemma PairsTail(ss: string)
    requires |ss| >= 2
    ensures Pairs(ss) == [ss[..2]] + Pairs(ss[2..])
  {
    var t := ss[2..];
    forall i | 0 <= i < |t| / 2 ensures Pairs(ss)[i + 1] == Pairs(t)[i] {
      assert t[2 * i..2 * i + 2] == ss[2 * (i + 1)..2 * (i + 1) + 2];
    }
    assert Pairs(ss)[1..] == Pairs(t);
  }

  /** One iteration of `convertHexString`: parse the slice and narrow;
      a slice that does not parse is the error. */
  function DecodeByte(p: string): (r: Result<Byte, string>)
    ensures r.Ok? <==> ParseRadix16(p).Ok?
    ensures r.Ok? ==> r.value == ParseRadix16(p).value % 256
    ensures r.Err? ==> r.error == p
  {
    var v :- ParseRadix16(p);
    Ok(ToByte(v))
  }

  /** What one slice decodes to, by its characters: two hex digits give
      their value, a sign and one hex digit give that digit negated or
      not and narrowed to a byte, and any other slice is the error. */
  lemma DecodeByteSlice(a: char, b: char)
    ensures DecodeByte([a, b]).Ok? <==> IsHexDigit(b) && (IsHexDigit(a) || a == '-' || a == '+')
    ensures DecodeByte([a, b]).Err? ==> DecodeByte([a, b]).error == [a, b]
    ensures IsHexDigit(a) && IsHexDigit(b) ==> DecodeByte([a, b]) == Ok(16 * HexDigitValue(a) + HexDigitValue(b))
    ensures a == '+' && IsHexDigit(b) ==> DecodeByte([a, b]) == Ok(HexDigitValue(b))
    ensures a == '-' && IsHexDigit(b) ==> DecodeByte([a, b]) == Ok((256 - HexDigitValue(b)) % 256)
  {
    PairGrammar(a, b);
  }

  /** `convertHexString`: byte `i` is the radix-16 value of slice `i`,
      narrowed to a byte; the first slice that does not parse aborts the
      conversion. */
  function DecodeHex(ss: string): (r: Result<seq<Byte>, string>)
    ensures r.Ok? <==> forall i | 0 <= i < |ss| / 2 :: ParseRadix16(Pairs(ss)[i]).Ok?
    ensures r.Ok? ==>
              && |r.value| == |ss| / 2
              && forall i | 0 <= i < |ss| / 2 :: r.value[i] == ParseRadix16(Pairs(ss)[i]).value % 256
    ensures r.Err? ==>
              exists i | 0 <= i < |ss| / 2 ::
                && ParseRadix16(Pairs(ss)[i]).Err?
                && r.error == Pairs(ss)[i]
                && forall j | 0 <= j < i :: ParseRadix16(Pairs(ss)[j]).Ok?
  {
    MapAll(Pairs(ss), DecodeByte)
  }

  /** Slices that all parse, read as the given bytes, decode to them. */
  lemma DecodeHexOk(ss: string, b: seq<Byte>)
    requires |b| == |ss| / 2
    requires forall i | 0 <= i < |b| :: ParseRadix16(Pairs(ss)[i]).Ok? && b[i] == ParseRadix16(Pairs(ss)[i]).value % 256
    ensures DecodeHex(ss) == Ok(b)
  {
    var d := DecodeHex(ss);
    assert d.Ok?;
    assert |d.value| == |b|;
    assert forall i | 0 <= i < |b| :: d.value[i] == b[i];
    assert d.value == b;
  }

  /** The first slice that does not parse is the error. */
  lemma FirstBadPair(ss: string, i: nat)
    requires i < |ss| / 2
    requires forall k | 0 <= k < i :: ParseRadix16(Pairs(ss)[k]).Ok?
    requires ParseRadix16(Pairs(ss)[i]).Err?
    ensures DecodeHex(ss) == Err(Pairs(ss)[i])
  {
    var d := DecodeHex(ss);
    var j :| 0 <= j < |ss| / 2 && ParseRadix16(Pairs(ss)[j]).Err? && d.error == Pairs(ss)[j]
             && forall m | 0 <= m < j :: ParseRadix16(Pairs(ss)[m]).Ok?;
    assert j == i;
  }

  /** The loop of `convertHexString`. */
  method ConvertHexString(ss: string) returns (r: Result<seq<Byte>, string>)
    ensures r == DecodeHex(ss)
  {
    var digest: seq<Byte> := [];
    var n := |ss| / 2;
    var ps := Pairs(ss);
    var i := 0;
    while i < n
      invariant 0 <= i <= n
      invariant |digest| == i
      invariant forall k | 0 <= k < i :: ParseRadix16(ps[k]).Ok? && digest[k] == ParseRadix16(ps[k]).value % 256
    {
      var byteString := ss[2 * i..2 * i + 2];
      assert byteString == ps[i];
      var byteValue := ParseRadix16(byteString);
      if byteValue.Err? {
        FirstBadPair(ss, i);
        return Err(byteString);
      }
      digest := digest + [ToByte(byteValue.value)];
      i := i + 1;
    }
    DecodeHexOk(ss, digest);
    r := Ok(digest);
  }

  // ---------------------------------------------------------------------
  // Properties

  /** Exactly which two-character slices parse: two hex digits, or a
      sign and one hex digit; the sign negates. */
  lemma PairGrammar(a: char, b: char)
    ensures ParseRadix16([a, b]).Ok? <==> IsHexDigit(b) && (IsHexDigit(a) || a == '-' || a == '+')
    ensures IsHexDigit(a) && IsHexDigit(b) ==> ParseRadix16([a, b]) == Ok(16 * HexDigitValue(a) + HexDigitValue(b))
    ensures a == '+' && IsHexDigit(b) ==> ParseRadix16([a, b]) == Ok(HexDigitValue(b))
    ensures a == '-' && IsHexDigit(b) ==> ParseRadix16([a, b]) == Ok(-(HexDigitValue(b) as int))
  {
    var s := [a, b];
    if a == '-' || a == '+' {
      assert s[1..] == [b];
      if IsHexDigit(b) {
        assert [b][..0] == [];
        assert HexValue([b]) == HexDigitValue(b);
      }
    } else if IsHexDigit(a) {
      if IsHexDigit(b) {
        assert s[..1] == [a] && [a][..0] == [];
        assert HexValue([a]) == HexDigitValue(a);
        assert HexValue(s) == HexValue([a]) * 16 + HexDigitValue(b);
      } else {
        assert !AllHex(s);
      }
    } else {
      assert !AllHex(s);
    }
  }

  /** A digit written by `HexChar` is read back as its value. */
  lemma HexCharRead(d: nat)
    requires d < 16
    ensures IsHexDigit(HexChar(d)) && HexDigitValue(HexChar(d)) == d
  {
  }

  /** Decoding the encoding gives the bytes back: `decrypt` can read what
      `encrypt` writes. */
  lemma RoundTrip(b: seq<Byte>)
    ensures DecodeHex(EncodeHex(b)) == Ok(b)
  {
    forall i | 0 <= i < |b| ensures ParseRadix16(Pairs(EncodeHex(b))[i]) == Ok(b[i]) {
      EncodedPair(b, i);
    }
    DecodeHexOk(EncodeHex(b), b);
  }

  /** Slice `i` of the encoding reads as byte `i`. */
  lemma EncodedPair(b: seq<Byte>, i: nat)
    requires i < |b|
    ensures ParseRadix16(Pairs(EncodeHex(b))[i]) == Ok(b[i])
  {
    var h := EncodeHex(b);
    EncodeHexPairs(b);
    PairAt(h, i);
    ReadByteHex(Pairs(h)[i], b[i]);
  }

  /** Slice `i` as its two characters. */
  lemma PairAt(h: string, i: nat)
    requires 2 * i + 2 <= |h|
    ensures Pairs(h)[i] == [h[2 * i], h[2 * i + 1]]
  {
    assert Pairs(h)[i] == h[2 * i..2 * i + 2];
  }

  /** A byte's two written digits read back as the byte. */
  lemma ReadByteHex(p: string, x: Byte)
    requires p == [HexChar(x / 16), HexChar(x % 16)]
    ensures ParseRadix16(p) == Ok(x)
  {
    HexCharRead(x / 16);
    HexCharRead(x % 16);
    PairGrammar(HexChar(x / 16), HexChar(x % 16));
  }

  /** Reading a hex digit and writing it back lower-cases it. */
  lemma HexDigitLowered(c: char)
    requires IsHexDigit(c)
    ensures HexChar(HexDigitValue(c)) == LowerChar(c)
  {
  }

  /** Slice `i` of a run of hex digits reads as the two digits' value. */
  lemma HexPairValue(s: string, i: nat)
    requires AllHex(s) && i < |s| / 2
    ensures ParseRadix16(Pairs(s)[i]) == Ok(16 * HexDigitValue(s[2 * i]) + HexDigitValue(s[2 * i + 1]))
  {
    PairAt(s, i);
    PairGrammar(s[2 * i], s[2 * i + 1]);
  }

  /** The value of each two-digit slice of a run of hex digits. */
  function PairValues(s: string): (b: seq<Byte>)
    requires AllHex(s)
    ensures |b| == |s| / 2
  {
    seq(|s| / 2, i requires 0 <= i < |s| / 2 => 16 * HexDigitValue(s[2 * i]) + HexDigitValue(s[2 * i + 1]))
  }

  /** Encoding the decoding of an even-length run of hex digits gives the
      run back in lower case. */
  lemma ReverseRoundTrip(s: string)
    requires |s| % 2 == 0 && AllHex(s)
    ensures DecodeHex(s).Ok?
    ensures EncodeHex(DecodeHex(s).value) == ToLower(s)
  {
    DecodeDigits(s);
    EncodePairValues(s);
  }

  /** A run of hex digits decodes to its pair values. */
  lemma DecodeDigits(s: string)
    requires AllHex(s)
    ensures DecodeHex(s) == Ok(PairValues(s))
  {
    var b := PairValues(s);
    forall i | 0 <= i < |b| ensures ParseRadix16(Pairs(s)[i]).Ok? && b[i] == ParseRadix16(Pairs(s)[i]).value % 256 {
      HexPairValue(s, i);
    }
    DecodeHexOk(s, b);
  }

  /** Re-encoding the pair values of an even-length run of hex digits
      writes the run in lower case. */
  lemma EncodePairValues(s: string)
    requires |s| % 2 == 0 && AllHex(s)
    ensures EncodeHex(PairValues(s)) == ToLower(s)
  {
    var b := PairValues(s);
    var l := ToLower(s);
    forall i | 0 <= i < |b| ensures l[2 * i] == HexChar(b[i] / 16) && l[2 * i + 1] == HexChar(b[i] % 16) {
      LoweredPair(s, i);
    }
    EncodingByPairs(l, b);
  }

  /** Re-encoding the value of slice `i` writes the slice in lower case. */
  lemma LoweredPair(s: string, i: nat)
    requires AllHex(s) && 2 * i + 1 < |s|
    ensures var v := 16 * HexDigitValue(s[2 * i]) + HexDigitValue(s[2 * i + 1]);
      ToLower(s)[2 * i] == HexChar(v / 16) && ToLower(s)[2 * i + 1] == HexChar(v % 16)
  {
    HexDigitLowered(s[2 * i]);
    HexDigitLowered(s[2 * i + 1]);
  }

  /** A trailing odd character is never read. */
  lemma OddTailIgnored(s: string, c: char)
    requires |s| % 2 == 0
    ensures DecodeHex(s + [c]) == DecodeHex(s)
  {
    assert Pairs(s + [c]) == Pairs(s) by {
      forall i | 0 <= i < |s| / 2 ensures Pairs(s + [c])[i] == Pairs(s)[i] {
        assert (s + [c])[2 * i..2 * i + 2] == s[2 * i..2 * i + 2];
      }
    }
  }

  /** A signed slice is narrowed like any negative `int`: `"-1"` becomes
      the byte `0xff`, and `"+f"` the byte `0x0f`. */
  lemma SignedSlices(c: char)
    requires IsHexDigit(c)
    ensures DecodeHex(['-', c]) == Ok([(256 - HexDigitValue(c)) % 256])
    ensures DecodeHex(['+', c]) == Ok([HexDigitValue(c)])
  {
    PairGrammar('-', c);
    PairGrammar('+', c);
    assert ['-', c][0..2] == ['-', c];
    assert ['+', c][0..2] == ['+', c];
    DecodeHexOk(['-', c], [(256 - HexDigitValue(c)) % 256]);
    DecodeHexOk(['+', c], [HexDigitValue(c)]);
  }
}
