/** Base64 with the standard alphabet of section 4 of RFC 4648, configured as
    the codec of src/lib.rs configures it: encoding always emits canonical `=`
    padding; decoding accepts the padding present, partial or absent, and does
    not reject non-zero bits left over in the final symbol. */
module Base64 {
  import opened Bytes
  import opened Wrappers

  /** True for the 64 characters of the standard alphabet (not `=`). */
  predicate IsSymbol(c: char) {
    ('A' <= c <= 'Z') || ('a' <= c <= 'z') || ('0' <= c <= '9') || c == '+' || c == '/'
  }

  predicate AllSymbols(s: string) {
    forall i :: 0 <= i < |s| ==> IsSymbol(s[i])
  }

  const PadChar: char := '='

  /** The symbol for the 6-bit value `v`. */
  function Symbol(v: nat): (c: char)
    requires v < 64
    ensures IsSymbol(c)
  {
    if v < 26 then ('A' as int + v) as char
    else if v < 52 then ('a' as int + (v - 26)) as char
    else if v < 62 then ('0' as int + (v - 52)) as char
    else if v == 62 then '+'
    else '/'
  }

  /** The 6-bit value of a symbol; the inverse of Symbol. */
  function ValueOf(c: char): (v: nat)
    requires IsSymbol(c)
    ensures v < 64 && Symbol(v) == c
  {
    if 'A' <= c <= 'Z' then c as int - 'A' as int
    else if 'a' <= c <= 'z' then c as int - 'a' as int + 26
    else if '0' <= c <= '9' then c as int - '0' as int + 52
    else if c == '+' then 62
    else 63
  }

  lemma ValueOfSymbol(v: nat)
    requires v < 64
    ensures ValueOf(Symbol(v)) == v
  {
  }

  /** The symbols of the encoding without padding: each group of three bytes
      becomes four symbols, a final one or two bytes become two or three. */
  function EncodeSymbols(b: seq<Byte>): (s: string)
    ensures AllSymbols(s)
    decreases |b|
  {
    if |b| == 0 then ""
    else if |b| == 1 then [Symbol(b[0] / 4), Symbol(b[0] % 4 * 16)]
    else if |b| == 2 then
      [Symbol(b[0] / 4), Symbol(b[0] % 4 * 16 + b[1] / 16), Symbol(b[1] % 16 * 4)]
    else
      [Symbol(b[0] / 4), Symbol(b[0] % 4 * 16 + b[1] / 16),
       Symbol(b[1] % 16 * 4 + b[2] / 64), Symbol(b[2] % 64)]
      + EncodeSymbols(b[3..])
  }

  /** `n` padding characters. */
  function Padding(n: nat): (s: string)
    ensures |s| == n && forall i :: 0 <= i < n ==> s[i] == PadChar
  {
    if n == 0 then "" else Padding(n - 1) + [PadChar]
  }

  lemma {:induction false} EncodeSymbolsLength(b: seq<Byte>)
    ensures |EncodeSymbols(b)| == 4 * (|b| / 3) + (if |b| % 3 == 0 then 0 else |b| % 3 + 1)
    decreases |b|
  {
    if |b| >= 3 {
      EncodeSymbolsLength(b[3..]);
    }
  }

  /** Encoding with canonical padding: the length is always a multiple of four
      and the text never contains a `.`, so it can sit between dots. */
  function Encode(b: seq<Byte>): (s: string)
    ensures |s| == 4 * ((|b| + 2) / 3)
    ensures forall i :: 0 <= i < |s| ==> s[i] != '.'
  {
    EncodeSymbolsLength(b);
    PaddedLength(|b|);
    EncodeSymbols(b) + Padding((3 - |b| % 3) % 3)
  }

  /** The text with its trailing run of padding characters removed. */
  function StripPadding(s: string): (body: string)
    ensures |body| <= |s| && body == s[..|body|]
    ensures body == [] || body[|body| - 1] != PadChar
    ensures forall i :: |body| <= i < |s| ==> s[i] == PadChar
  {
    if s != [] && s[|s| - 1] == PadChar then StripPadding(s[..|s| - 1]) else s
  }

  /** Where padding may stand: only in the last group of four, after at least
      two symbols of it, so after 2 symbols up to two `=`, after 3 up to one. */
  predicate PaddingFits(bodyLength: nat, padLength: nat) {
    padLength == 0
    || (bodyLength % 4 == 2 && padLength <= 2)
    || (bodyLength % 4 == 3 && padLength == 1)
  }

  /** The bytes of a run of symbols: four symbols give three bytes, a final
      two or three give one or two; the bits of the final symbol that fall
      beyond the last byte are dropped whatever they are. */
  function DecodeSymbols(s: string): (b: seq<Byte>)
    requires AllSymbols(s)
    decreases |s|
  {
    if |s| <= 1 then []  // a lone final symbol is rejected by Decode beforehand
    else
      var v0, v1 := ValueOf(s[0]), ValueOf(s[1]);
      if |s| == 2 then [v0 * 4 + v1 / 16]
      else
        var v2 := ValueOf(s[2]);
        if |s| == 3 then [v0 * 4 + v1 / 16, v1 % 16 * 16 + v2 / 4]
        else
          var v3 := ValueOf(s[3]);
          [v0 * 4 + v1 / 16, v1 % 16 * 16 + v2 / 4, v2 % 4 * 64 + v3] + DecodeSymbols(s[4..])
  }

  /** Lenient decoding; None is the crate's decode error. */
  function Decode(s: string): (r: Option<seq<Byte>>)
  {
    var body := StripPadding(s);
    if AllSymbols(body) && |body| % 4 != 1 && PaddingFits(|body|, |s| - |body|)
    then Some(DecodeSymbols(body))
    else None
  }

  /** The bit arithmetic of one group: the 6-bit values the encoder makes
      from bytes x, y, z give those bytes back under the decoder's formulas. */
  lemma GroupArithmetic(x: Byte, y: Byte, z: Byte)
    ensures x / 4 * 4 + (x % 4 * 16 + y / 16) / 16 == x
    ensures (x % 4 * 16 + y / 16) % 16 * 16 + (y % 16 * 4 + z / 64) / 4 == y
    ensures (y % 16 * 4 + z / 64) % 4 * 64 + z % 64 == z
  {
  }

  /** The four symbols the encoder emits for a group of three bytes. */
  function GroupSymbols(x: Byte, y: Byte, z: Byte): (s: string)
    ensures |s| == 4 && AllSymbols(s)
  {
    [Symbol(x / 4), Symbol(x % 4 * 16 + y / 16), Symbol(y % 16 * 4 + z / 64), Symbol(z % 64)]
  }

  lemma EncodeFirstGroup(b: seq<Byte>)
    requires |b| >= 3
    ensures EncodeSymbols(b) == GroupSymbols(b[0], b[1], b[2]) + EncodeSymbols(b[3..])
  {
  }

  /** The symbols of one group decode back to its three bytes. */
  lemma DecodeGroup(x: Byte, y: Byte, z: Byte, t: string)
    requires AllSymbols(t)
    ensures AllSymbols(GroupSymbols(x, y, z) + t)
    ensures DecodeSymbols(GroupSymbols(x, y, z) + t) == [x, y, z] + DecodeSymbols(t)
  {
    var s := GroupSymbols(x, y, z) + t;
    assert s[4..] == t && s[..4] == GroupSymbols(x, y, z);
    GroupValues(x, y, z, s);
    DecodeFirstFour(s, x / 4, x % 4 * 16 + y / 16, y % 16 * 4 + z / 64, z % 64);
    GroupArithmetic(x, y, z);
  }

  /** The first four symbols of a run, of values w0..w3, decode to three
      bytes ahead of the rest. */
  lemma DecodeFirstFour(s: string, w0: nat, w1: nat, w2: nat, w3: nat)
    requires AllSymbols(s) && |s| >= 4
    requires ValueOf(s[0]) == w0 && ValueOf(s[1]) == w1 && ValueOf(s[2]) == w2 && ValueOf(s[3]) == w3
    ensures DecodeSymbols(s) == [w0 * 4 + w1 / 16, w1 % 16 * 16 + w2 / 4, w2 % 4 * 64 + w3] + DecodeSymbols(s[4..])
  {
  }

  /** The values of a group's symbols are the encoder's 6-bit values. */
  lemma GroupValues(x: Byte, y: Byte, z: Byte, s: string)
    requires |s| >= 4 && s[..4] == GroupSymbols(x, y, z)
    ensures ValueOf(s[0]) == x / 4 && ValueOf(s[1]) == x % 4 * 16 + y / 16
    ensures ValueOf(s[2]) == y % 16 * 4 + z / 64 && ValueOf(s[3]) == z % 64
  {
    assert s[0] == s[..4][0] && s[1] == s[..4][1] && s[2] == s[..4][2] && s[3] == s[..4][3];
    ValueOfSymbol(x / 4);
    ValueOfSymbol(x % 4 * 16 + y / 16);
    ValueOfSymbol(y % 16 * 4 + z / 64);
    ValueOfSymbol(z % 64);
  }

  /** A final single byte: two symbols that decode back to it. */
  lemma DecodeEncodeOne(x: Byte)
    ensures DecodeSymbols(EncodeSymbols([x])) == [x]
  {
    var w0, w1 := x / 4, x % 4 * 16;
    var e := EncodeSymbols([x]);
    assert e == [Symbol(w0), Symbol(w1)];
    ValueOfSymbol(w0);
    ValueOfSymbol(w1);
    assert DecodeSymbols(e) == [ValueOf(e[0]) * 4 + ValueOf(e[1]) / 16];
    assert w0 * 4 + w1 / 16 == x;
  }

  /** A final pair of bytes: three symbols that decode back to them. */
  lemma DecodeEncodeTwo(x: Byte, y: Byte)
    ensures DecodeSymbols(EncodeSymbols([x, y])) == [x, y]
  {
    var w0, w1, w2 := x / 4, x % 4 * 16 + y / 16, y % 16 * 4;
    var e := EncodeSymbols([x, y]);
    assert e == [Symbol(w0), Symbol(w1), Symbol(w2)];
    ValueOfSymbol(w0);
    ValueOfSymbol(w1);
    ValueOfSymbol(w2);
    assert DecodeSymbols(e) == [ValueOf(e[0]) * 4 + ValueOf(e[1]) / 16, ValueOf(e[1]) % 16 * 16 + ValueOf(e[2]) / 4];
    PairArithmetic(x, y);
  }

  lemma PairArithmetic(x: Byte, y: Byte)
    ensures x / 4 * 4 + (x % 4 * 16 + y / 16) / 16 == x
    ensures (x % 4 * 16 + y / 16) % 16 * 16 + y % 16 * 4 / 4 == y
  {
  }

  /** Decoding undoes the unpadded symbols of the encoding. */
  lemma {:induction false} DecodeEncodeSymbols(b: seq<Byte>)
    ensures DecodeSymbols(EncodeSymbols(b)) == b
    decreases |b|
  {
    if |b| == 1 {
      DecodeEncodeOne(b[0]);
      assert b == [b[0]];
    } else if |b| == 2 {
      DecodeEncodeTwo(b[0], b[1]);
      assert b == [b[0], b[1]];
    } else if |b| >= 3 {
      var rest := b[3..];
      assert b == [b[0], b[1], b[2]] + rest;
      EncodeFirstGroup(b);
      DecodeGroup(b[0], b[1], b[2], EncodeSymbols(rest));
      DecodeEncodeSymbols(rest);
    }
  }

  /** Padding characters appended to a body that does not end in one are
      exactly what StripPadding removes. */
  lemma {:induction false} StripAppendedPadding(body: string, n: nat)
    requires body == [] || body[|body| - 1] != PadChar
    ensures StripPadding(body + Padding(n)) == body
    decreases n
  {
    if n > 0 {
      assert (body + Padding(n))[..|body| + n - 1] == body + Padding(n - 1);
      StripAppendedPadding(body, n - 1);
    }
  }

  /** The unpadded encoding of `b` has a decodable length, and the canonical
      padding for it is padding the decoder admits. */
  lemma EncodedShape(b: seq<Byte>)
    ensures |EncodeSymbols(b)| % 4 != 1
    ensures PaddingFits(|EncodeSymbols(b)|, (3 - |b| % 3) % 3)
  {
    EncodeSymbolsLength(b);
    ShapeArithmetic(|b|);
  }

  lemma ShapeArithmetic(n: nat)
    ensures var m := 4 * (n / 3) + (if n % 3 == 0 then 0 else n % 3 + 1);
      m % 4 != 1 && PaddingFits(m, (3 - n % 3) % 3)
  {
    var q, r := n / 3, n % 3;
    var m := 4 * q + (if r == 0 then 0 else r + 1);
    QuadRemainder(q, if r == 0 then 0 else r + 1);
  }

  /** The remainder of 4q + r by four is r. */
  lemma QuadRemainder(q: nat, r: nat)
    requires r < 4
    ensures (4 * q + r) % 4 == r
  {
  }

  /** The unpadded length plus the canonical padding is four per started
      group of three. */
  lemma PaddedLength(n: nat)
    ensures 4 * (n / 3) + (if n % 3 == 0 then 0 else n % 3 + 1) + (3 - n % 3) % 3 == 4 * ((n + 2) / 3)
  {
    var q, r := n / 3, n % 3;
    assert n + 2 == 3 * q + (r + 2);
    if r == 0 {
      assert (n + 2) / 3 == q;
    } else {
      assert (n + 2) / 3 == q + 1;
    }
  }

  /** Round trip: decoding the padded encoding gives back the bytes. */
  lemma DecodeEncode(b: seq<Byte>)
    ensures Decode(Encode(b)) == Some(b)
  {
    var body, n := EncodeSymbols(b), (3 - |b| % 3) % 3;
    StripAppendedPadding(body, n);
    EncodedShape(b);
    DecodeEncodeSymbols(b);
    assert Encode(b) == body + Padding(n);
    assert |Encode(b)| - |body| == n;
  }

  /** Missing padding is accepted: the unpadded symbols decode alike. */
  lemma DecodeUnpadded(b: seq<Byte>)
    ensures Decode(EncodeSymbols(b)) == Some(b)
  {
    var body := EncodeSymbols(b);
    StripAppendedPadding(body, 0);
    assert body + Padding(0) == body;
    EncodedShape(b);
    DecodeEncodeSymbols(b);
  }

  /** A run of symbols of decodable length decodes, with no padding. */
  lemma UnpaddedDecodes(s: string)
    requires AllSymbols(s) && |s| % 4 != 1
    ensures Decode(s) == Some(DecodeSymbols(s))
  {
    StripAppendedPadding(s, 0);
    assert s + Padding(0) == s;
  }

  /** A character that is neither a symbol nor `=` anywhere in the text is a
      decode error, wherever it stands. */
  lemma ForeignCharacterRejected(s: string, i: nat)
    requires i < |s| && !IsSymbol(s[i]) && s[i] != PadChar
    ensures Decode(s) == None
  {
    var body := StripPadding(s);
    if i < |body| {
      assert body[i] == s[i];
    }
  }

  /** A single symbol, padded or not, is a decode error. */
  lemma LoneSymbolRejected(c: char, n: nat)
    ensures Decode([c] + Padding(n)) == None
  {
    var s := [c] + Padding(n);
    if c == PadChar {
      assert StripPadding(s) == [] by {
        assert forall i :: 0 <= i < |s| ==> s[i] == PadChar;
        EmptyAfterStrip(s);
      }
    } else {
      StripAppendedPadding([c], n);
    }
  }

  /** A text made only of `=` strips to nothing. */
  lemma {:induction false} EmptyAfterStrip(s: string)
    requires forall i :: 0 <= i < |s| ==> s[i] == PadChar
    ensures StripPadding(s) == []
    decreases |s|
  {
    if s != [] {
      EmptyAfterStrip(s[..|s| - 1]);
    }
  }

  /** The first group of four symbols decodes on its own. */
  lemma DecodeSplit(s: string)
    requires AllSymbols(s) && |s| >= 4
    ensures DecodeSymbols(s) == DecodeSymbols(s[..4]) + DecodeSymbols(s[4..])
  {
    var w0, w1, w2, w3 := ValueOf(s[0]), ValueOf(s[1]), ValueOf(s[2]), ValueOf(s[3]);
    DecodeFirstFour(s, w0, w1, w2, w3);
    DecodeFirstFour(s[..4], w0, w1, w2, w3);
    assert s[..4][4..] == [];
  }

  lemma AllSymbolsAppend(t: string, x: string)
    requires AllSymbols(t) && AllSymbols(x)
    ensures AllSymbols(t + x)
  {
    forall i | 0 <= i < |t + x| ensures IsSymbol((t + x)[i]) {
      if i >= |t| { assert (t + x)[i] == x[i - |t|]; }
    }
  }

  /** Decoding works group by group: after whole groups of four symbols, the
      rest decodes on its own. */
  lemma {:induction false} DecodeSymbolsAppend(t: string, x: string)
    requires AllSymbols(t) && AllSymbols(x) && |t| % 4 == 0
    ensures AllSymbols(t + x)
    ensures DecodeSymbols(t + x) == DecodeSymbols(t) + DecodeSymbols(x)
    decreases |t|
  {
    AllSymbolsAppend(t, x);
    if t == [] {
      assert t + x == x;
    } else {
      var s := t + x;
      assert s[..4] == t[..4];
      assert s[4..] == t[4..] + x;
      DecodeSymbolsAppend(t[4..], x);
      DecodeSplit(s);
      DecodeSplit(t);
    }
  }

  /** Padding is accepted whole, partial or absent: a run of symbols of
      decodable length followed by `=` that stays inside its last group
      decodes to the symbols' bytes. */
  lemma PaddingAccepted(body: string, k: nat)
    requires AllSymbols(body) && |body| % 4 != 1 && PaddingFits(|body|, k)
    ensures Decode(body + Padding(k)) == Some(DecodeSymbols(body))
  {
    StripAppendedPadding(body, k);
    assert |body + Padding(k)| - |body| == k;
  }

  /** Whole groups, then a final two or three symbols and the padding that
      fits after them, decode to the groups' bytes and then the tail's. */
  lemma TailDecodes(t: string, x: string, k: nat)
    requires AllSymbols(t) && AllSymbols(x) && |t| % 4 == 0
    requires 2 <= |x| <= 3 && PaddingFits(|x|, k)
    ensures Decode(t + x + Padding(k)) == Some(DecodeSymbols(t) + DecodeSymbols(x))
  {
    QuadRemainder(|t| / 4, |x|);
    assert |t + x| % 4 == |x|;
    DecodeSymbolsAppend(t, x);
    PaddingAccepted(t + x, k);
  }

  lemma DecodePair(a: char, c: char)
    requires IsSymbol(a) && IsSymbol(c)
    ensures DecodeSymbols([a, c]) == [ValueOf(a) * 4 + ValueOf(c) / 16]
  {
  }

  lemma DecodeTriple(a: char, b: char, c: char)
    requires IsSymbol(a) && IsSymbol(b) && IsSymbol(c)
    ensures DecodeSymbols([a, b, c]) == [ValueOf(a) * 4 + ValueOf(b) / 16, ValueOf(b) % 16 * 16 + ValueOf(c) / 4]
  {
  }

  /** Trailing bits are allowed after any whole groups and with any admitted
      padding: two final symbols whose second agrees in its top two bits give
      the same final byte, whatever its low four bits. */
  lemma TrailingBitsIgnored(t: string, a: char, c: char, d: char, k: nat)
    requires AllSymbols(t) && |t| % 4 == 0 && k <= 2
    requires IsSymbol(a) && IsSymbol(c) && IsSymbol(d)
    requires ValueOf(c) / 16 == ValueOf(d) / 16
    ensures Decode(t + [a, c] + Padding(k)) == Decode(t + [a, d] + Padding(k))
    ensures Decode(t + [a, c] + Padding(k)) == Some(DecodeSymbols(t) + [ValueOf(a) * 4 + ValueOf(c) / 16])
  {
    var x, y := [a, c], [a, d];
    assert AllSymbols(x) && AllSymbols(y);
    DecodePair(a, c);
    DecodePair(a, d);
    assert DecodeSymbols(x) == DecodeSymbols(y);
    TailDecodes(t, x, k);
    TailDecodes(t, y, k);
  }

  /** The same for a final three symbols: the last one only has to agree in
      its top four bits, with at most one `=`. */
  lemma TrailingBitsIgnoredThree(t: string, a: char, b: char, c: char, d: char, k: nat)
    requires AllSymbols(t) && |t| % 4 == 0 && k <= 1
    requires IsSymbol(a) && IsSymbol(b) && IsSymbol(c) && IsSymbol(d)
    requires ValueOf(c) / 4 == ValueOf(d) / 4
    ensures Decode(t + [a, b, c] + Padding(k)) == Decode(t + [a, b, d] + Padding(k))
    ensures Decode(t + [a, b, c] + Padding(k))
      == Some(DecodeSymbols(t) + [ValueOf(a) * 4 + ValueOf(b) / 16, ValueOf(b) % 16 * 16 + ValueOf(c) / 4])
  {
    var x, y := [a, b, c], [a, b, d];
    assert AllSymbols(x) && AllSymbols(y);
    DecodeTriple(a, b, c);
    DecodeTriple(a, b, d);
    assert DecodeSymbols(x) == DecodeSymbols(y);
    TailDecodes(t, x, k);
    TailDecodes(t, y, k);
  }

  /** Encoding vectors of the standard alphabet: 00 05 39 is `AAU5`. */
  lemma EncodeThreeBytes()
    ensures Encode([0, 5, 57]) == "AAU5"
  {
  }

  /** One 0xff byte is `/w==`: two symbols and two `=`. */
  lemma EncodeOneByte()
    ensures Encode([0xff]) == "/w=="
  {
  }
}
