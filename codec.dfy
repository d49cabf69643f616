/** The kCTF wire format: a challenge is `s.<b64(difficulty)>.<b64(value)>`
    with the difficulty as four big-endian bytes and the value as its minimal
    big-endian bytes; a solution is `s.<b64(value)>`. Decoding reports the
    first failing check as one of four errors. */
module Codec {
  import opened Wrappers
  import opened Bytes
  import Base64
  import opened StrSplit

  /** The version tag that opens every challenge and solution. */
  const Version: string := "s"

  /** `KctfErrors`. */
  datatype KctfError = UnknownVersion | FormatError | DecodeError | LargeDifficulty

  /** `KctfPow`: a challenge, i.e. a difficulty and a start value. */
  datatype KctfPow = KctfPow(difficulty: U32, value: nat)

  /** `KctfPow::from_difficulty_and_value`. Whatever the two fields, the
      challenge survives serialization and decoding. */
  function FromDifficultyAndValue(difficulty: U32, value: nat): (c: KctfPow)
    ensures c.difficulty == difficulty && c.value == value
    ensures ParseChallenge(SerializeChallenge(c)) == Ok(c)
  {
    var c := KctfPow(difficulty, value);
    ChallengeRoundTrip(c);
    c
  }

  /** `n` zero bytes. */
  function Zeros(n: nat): (z: seq<Byte>)
    ensures |z| == n && forall i :: 0 <= i < n ==> z[i] == 0
  {
    seq(n, _ => 0)
  }

  /** Some byte before the last four is non-zero. */
  predicate HasHighByte(b: seq<Byte>) {
    exists i :: 0 <= i < |b| - 4 && b[i] != 0
  }

  /** The difficulty of a decoded difficulty segment, as src/lib.rs computes
      it: more than four bytes with a non-zero byte before the last four is
      LargeDifficulty; more than four bytes otherwise reads the FIRST four;
      at most four bytes are left-padded with zeros to four. */
  function DifficultyFromBytes(b: seq<Byte>): Result<U32, KctfError>
  {
    if |b| > 4 then
      if HasHighByte(b) then Err(LargeDifficulty) else Ok(FromBeBytes(b[..4]))
    else
      Ok(FromBeBytes(Zeros(4 - |b|) + b))
  }

  /** `KctfPow::from_challenge` as a function of the text: the version piece,
      then the number of remaining pieces, then base64 of both, then the
      difficulty width. */
  function ParseChallenge(challenge: string): Result<KctfPow, KctfError>
  {
    var parts := Split(challenge);
    if parts[0] != Version then Err(UnknownVersion)
    else if |parts| - 1 != 2 then Err(FormatError)
    else
      var difficultyBytes, valueBytes := Base64.Decode(parts[1]), Base64.Decode(parts[2]);
      if difficultyBytes.None? || valueBytes.None? then Err(DecodeError)
      else match DifficultyFromBytes(difficultyBytes.value)
        case Err(e) => Err(e)
        case Ok(difficulty) => Ok(KctfPow(difficulty, FromDigits(valueBytes.value)))
  }

  /** `KctfPow::serialize_challenge`: three dot-separated pieces, the version
      tag, the padded base64 of the four difficulty bytes and the padded
      base64 of the value's minimal bytes. */
  function SerializeChallenge(c: KctfPow): (s: string)
    ensures Split(s) == [Version, Base64.Encode(ToBeBytes(c.difficulty)), Base64.Encode(ToDigits(c.value))]
  {
    var d, v := Base64.Encode(ToBeBytes(c.difficulty)), Base64.Encode(ToDigits(c.value));
    assert [Version, d, v][1..] == [d, v] && [d, v][1..] == [v];
    assert Join([d, v]) == d + [Dot] + v;
    assert Join([Version, d, v]) == Version + [Dot] + d + [Dot] + v;
    SplitJoin([Version, d, v]);
    Version + [Dot] + d + [Dot] + v
  }

  /** The solution text the solver prints for a final value `v`. */
  function SolutionText(v: nat): (s: string)
    ensures Split(s) == [Version, Base64.Encode(ToDigits(v))]
  {
    var e := Base64.Encode(ToDigits(v));
    assert [Version, e][1..] == [e];
    assert Join([Version, e]) == Version + [Dot] + e;
    SplitJoin([Version, e]);
    Version + [Dot] + e
  }

  /** `decode_solution` as a function of the text. A bad second piece is a
      DecodeError even when a third piece follows; the extra piece is
      checked only after decoding. */
  function ParseSolution(solution: string): Result<nat, KctfError>
  {
    var parts := Split(solution);
    if parts[0] != Version then Err(UnknownVersion)
    else if |parts| < 2 then Err(FormatError)
    else match Base64.Decode(parts[1])
      case None => Err(DecodeError)
      case Some(b) => if |parts| > 2 then Err(FormatError) else Ok(FromDigits(b))
  }

  /** `KctfPow::from_challenge`, consuming the split iterator and filling the
      four-byte difficulty buffer as the source does. */
  method FromChallenge(challenge: string) returns (r: Result<KctfPow, KctfError>)
    ensures r == ParseChallenge(challenge)
  {
    var challengeParts := new SplitIter(challenge);
    var version := challengeParts.Next();
    if version != Some(Version) {
      return Err(UnknownVersion);
    }
    var parts := challengeParts.Collect();
    if |parts| != 2 {
      return Err(FormatError);
    }
    var decodedParts: seq<seq<Byte>> := [];
    for k := 0 to 2
      invariant |decodedParts| == k
      invariant forall j :: 0 <= j < k ==> Base64.Decode(parts[j]) == Some(decodedParts[j])
    {
      var decoded := Base64.Decode(parts[k]);
      if decoded.None? {
        return Err(DecodeError);
      }
      decodedParts := decodedParts + [decoded.value];
    }
    var difficulty := DifficultyOf(decodedParts[0]);
    if difficulty.Err? {
      return Err(difficulty.error);
    }
    r := Ok(KctfPow(difficulty.value, FromDigits(decodedParts[1])));
  }

  /** The difficulty block of `from_challenge`: the width check and, for at
      most four bytes, the copy into a zeroed four-byte buffer. */
  method DifficultyOf(decodedDifficulty: seq<Byte>) returns (r: Result<U32, KctfError>)
    ensures r == DifficultyFromBytes(decodedDifficulty)
  {
    if |decodedDifficulty| > 4 {
      var high := AnyNonZero(decodedDifficulty[..|decodedDifficulty| - 4]);
      if high {
        return Err(LargeDifficulty);
      }
      return Ok(FromBeBytes(decodedDifficulty[..4]));
    }
    var difficultyArray := new Byte[4](_ => 0);
    var offset := 4 - |decodedDifficulty|;
    for j := 0 to |decodedDifficulty|
      invariant difficultyArray[..] == Zeros(offset) + decodedDifficulty[..j] + Zeros(4 - offset - j)
    {
      difficultyArray[offset + j] := decodedDifficulty[j];
    }
    assert decodedDifficulty[..|decodedDifficulty|] == decodedDifficulty;
    r := Ok(FromBeBytes(difficultyArray[..]));
  }

  /** `.iter().any(|&x| x != 0)`: whether some byte is non-zero. */
  method AnyNonZero(b: seq<Byte>) returns (found: bool)
    ensures found <==> exists i :: 0 <= i < |b| && b[i] != 0
  {
    found := false;
    var i := 0;
    while i < |b| && !found
      invariant 0 <= i <= |b|
      invariant found <==> exists j :: 0 <= j < i && b[j] != 0
    {
      found := b[i] != 0;
      i := i + 1;
    }
  }

  /** `decode_solution`, taking pieces from the split iterator one at a time. */
  method DecodeSolution(solution: string) returns (r: Result<nat, KctfError>)
    ensures r == ParseSolution(solution)
  {
    var solutionParts := new SplitIter(solution);
    var version := solutionParts.Next();
    if version != Some(Version) {
      return Err(UnknownVersion);
    }
    var encoded := solutionParts.Next();
    if encoded.None? {
      return Err(FormatError);
    }
    var decoded := Base64.Decode(encoded.value);
    if decoded.None? {
      return Err(DecodeError);
    }
    var decodedSolution := FromDigits(decoded.value);
    var extra := solutionParts.Next();
    if extra.Some? {
      return Err(FormatError);
    }
    r := Ok(decodedSolution);
  }

  /** Serialization round trip: decoding a serialized challenge gives it back,
      for every 32-bit difficulty and every natural value. */
  lemma ChallengeRoundTrip(c: KctfPow)
    ensures ParseChallenge(SerializeChallenge(c)) == Ok(c)
  {
    var db, vb := ToBeBytes(c.difficulty), ToDigits(c.value);
    var parts := Split(SerializeChallenge(c));
    assert parts == [Version, Base64.Encode(db), Base64.Encode(vb)];
    Base64.DecodeEncode(db);
    Base64.DecodeEncode(vb);
    assert Base64.Decode(parts[1]) == Some(db) && Base64.Decode(parts[2]) == Some(vb);
    FourBytesDifficulty(c.difficulty);
    FromToDigits(c.value);
  }

  /** The four bytes the serializer emits decode to the same difficulty. */
  lemma FourBytesDifficulty(d: U32)
    ensures DifficultyFromBytes(ToBeBytes(d)) == Ok(d)
  {
    ToFromBeBytes(d);
    assert Zeros(0) + ToBeBytes(d) == ToBeBytes(d);
  }

  /** Solution round trip: the solver's text decodes to its final value. */
  lemma SolutionRoundTrip(v: nat)
    ensures ParseSolution(SolutionText(v)) == Ok(v)
  {
    Base64.DecodeEncode(ToDigits(v));
    FromToDigits(v);
  }

  /** The version check: a text opens with the known version exactly when it
      is `s` alone or starts with `s.`. */
  predicate KnownVersion(text: string) {
    text == Version || (|text| >= 2 && text[0] == Version[0] && text[1] == Dot)
  }

  /** A challenge is refused as UnknownVersion exactly when its version is not
      the known one, whatever follows. */
  lemma ChallengeVersion(challenge: string)
    ensures ParseChallenge(challenge) == Err(UnknownVersion) <==> !KnownVersion(challenge)
  {
    FirstPieceIs(challenge, Version[0]);
  }

  /** A solution is refused as UnknownVersion exactly when its version is not
      the known one, whatever follows. */
  lemma SolutionVersion(solution: string)
    ensures ParseSolution(solution) == Err(UnknownVersion) <==> !KnownVersion(solution)
  {
    FirstPieceIs(solution, Version[0]);
  }

  /** With the right version, a challenge is a FormatError exactly when it
      does not have two dots, i.e. three pieces. */
  lemma ChallengeFormat(challenge: string)
    requires KnownVersion(challenge)
    ensures ParseChallenge(challenge) == Err(FormatError) <==> DotCount(challenge) != 2
  {
    FirstPieceIs(challenge, Version[0]);
    SplitCount(challenge);
  }

  /** With the right version, a solution is a FormatError exactly when it has
      no dot, or has more than one and its second piece decodes: a bad second
      piece is reported as DecodeError before any extra piece is noticed. */
  lemma SolutionFormat(solution: string)
    requires KnownVersion(solution)
    ensures |Split(solution)| == DotCount(solution) + 1
    ensures ParseSolution(solution) == Err(FormatError)
      <==> DotCount(solution) == 0 || (DotCount(solution) >= 2 && Base64.Decode(Split(solution)[1]).Some?)
  {
    FirstPieceIs(solution, Version[0]);
    SplitCount(solution);
  }

  /** With the right version, a solution is a DecodeError exactly when it has
      a second piece and that piece does not decode, whatever follows it. */
  lemma SolutionDecodeError(solution: string)
    requires KnownVersion(solution)
    ensures |Split(solution)| == DotCount(solution) + 1
    ensures ParseSolution(solution) == Err(DecodeError)
      <==> DotCount(solution) >= 1 && Base64.Decode(Split(solution)[1]).None?
  {
    FirstPieceIs(solution, Version[0]);
    SplitCount(solution);
  }

  /** With the right version and two dots, a challenge is a DecodeError
      exactly when either encoded piece does not decode, for any reason. */
  lemma ChallengeDecodeError(challenge: string)
    requires KnownVersion(challenge) && DotCount(challenge) == 2
    ensures |Split(challenge)| == 3
    ensures ParseChallenge(challenge) == Err(DecodeError)
      <==> Base64.Decode(Split(challenge)[1]).None? || Base64.Decode(Split(challenge)[2]).None?
  {
    FirstPieceIs(challenge, Version[0]);
    SplitCount(challenge);
  }

  /** A decoded difficulty of at most four bytes is their big-endian value. */
  lemma DifficultyShort(b: seq<Byte>)
    requires |b| <= 4
    ensures DifficultyFromBytes(b) == Ok(FromDigits(b))
  {
    FromDigitsLeadingZeros(Zeros(4 - |b|), b);
  }

  /** Big-endian value of a decoded difficulty: it is refused as
      LargeDifficulty exactly when it does not fit in 32 bits. */
  lemma DifficultyTooLarge(b: seq<Byte>)
    ensures DifficultyFromBytes(b) == Err(LargeDifficulty) <==> FromDigits(b) >= 0x1_0000_0000
  {
    Pow2Value32();
    if |b| <= 4 {
      DifficultyShort(b);
      Pow2Monotone(8 * |b|, 32);
    } else {
      HighBytesValue(b);
    }
  }

  /** With more than four bytes, a non-zero byte before the last four is
      exactly a value of 2^32 or more. */
  lemma HighBytesValue(b: seq<Byte>)
    requires |b| > 4
    ensures HasHighByte(b) <==> FromDigits(b) >= Pow2(32)
  {
    var high, low := b[..|b| - 4], b[|b| - 4..];
    assert b == high + low;
    HighByteInPrefix(b, high);
    PrefixValue(high, low);
  }

  lemma HighByteInPrefix(b: seq<Byte>, high: seq<Byte>)
    requires |b| > 4 && high == b[..|b| - 4]
    ensures HasHighByte(b) <==> exists i :: 0 <= i < |high| && high[i] != 0
  {
    if HasHighByte(b) {
      var i :| 0 <= i < |b| - 4 && b[i] != 0;
      assert high[i] == b[i];
    }
  }

  lemma Pow2Value32()
    ensures Pow2(32) == 0x1_0000_0000
  {
    Pow2Add(16, 16);
    Pow2Add(8, 8);
    assert Pow2(8) == 256;
  }

  /** The difficulty as the code reads it: with more than four bytes, the
      first four, so [0, 0, 0, 5, 57] (value 1337) gives 5. */
  lemma FirstFourBytesRead()
    ensures FromDigits([0, 0, 0, 5, 57]) == 1337
    ensures DifficultyFromBytes([0, 0, 0, 5, 57]) == Ok(5)
  {
    var b: seq<Byte> := [0, 0, 0, 5, 57];
    assert b[..4] == [0, 0, 0, 5];
    assert !HasHighByte(b);
    assert b[..4][..3] == [0, 0, 0] && b[..3] == [0, 0, 0];
    AllZeroDigits([0, 0, 0]);
    assert FromDigits(b[..4]) == 5;
    assert b[..|b| - 1] == [0, 0, 0, 5];
  }

  /** The difficulty read the way the width check implies: the last four
      bytes, once the bytes before them are known to be zero. */
  function IntendedDifficultyFromBytes(b: seq<Byte>): (r: Result<U32, KctfError>)
    ensures r.Ok? ==> r.value == FromDigits(b)
    ensures r.Err? <==> FromDigits(b) >= 0x1_0000_0000
    ensures r.Err? ==> r.error == LargeDifficulty
  {
    DifficultyTooLarge(b);
    if |b| > 4 then
      if HasHighByte(b) then Err(LargeDifficulty)
      else
        var high, low := b[..|b| - 4], b[|b| - 4..];
        assert b == high + low;
        FromDigitsAppend(high, low);
        assert forall i :: 0 <= i < |high| ==> high[i] == 0 by {
          forall i | 0 <= i < |high| ensures high[i] == 0 {
            assert high[i] == b[i];
          }
        }
        AllZeroDigits(high);
        Ok(FromBeBytes(low))
    else
      DifficultyShort(b);
      Ok(FromBeBytes(Zeros(4 - |b|) + b))
  }

  /** The two readings agree on every segment of at most four bytes, which
      includes every segment the serializer emits. */
  lemma DifficultyReadingsAgree(b: seq<Byte>)
    requires |b| <= 4
    ensures DifficultyFromBytes(b) == IntendedDifficultyFromBytes(b)
  {
  }

  /** The usage example's challenge carries difficulty 1337. */
  lemma ExampleDifficulty()
    ensures Base64.Decode("AAU5") == Some([0, 5, 57])
    ensures DifficultyFromBytes([0, 5, 57]) == Ok(1337)
  {
    var s := "AAU5";
    assert Base64.StripPadding(s) == s;
    assert Base64.AllSymbols(s);
    assert Base64.ValueOf('A') == 0 && Base64.ValueOf('U') == 20 && Base64.ValueOf('5') == 57;
    assert s[4..] == [] && Base64.DecodeSymbols([]) == [];
    assert Base64.DecodeSymbols(s) == [0, 5, 57] + Base64.DecodeSymbols(s[4..]);
    assert Base64.DecodeSymbols(s) == [0, 5, 57];
    assert Base64.PaddingFits(|s|, 0);
    var z: seq<Byte> := Zeros(1) + [0, 5, 57];
    assert z == [0, 0, 5, 57];
  }

  /** The empty text has no known version. */
  lemma EmptyChallenge()
    ensures ParseChallenge("") == Err(UnknownVersion)
  {
    ChallengeVersion("");
  }

  /** A challenge with one encoded piece is malformed. */
  lemma OnePieceChallenge()
    ensures ParseChallenge("s.onlyonepart") == Err(FormatError)
  {
    var t := "s.onlyonepart";
    assert t == Version + [Dot] + "onlyonepart";
    SplitTwo(Version, "onlyonepart");
    assert Split(t) == [Version, "onlyonepart"];
  }

  /** `s.invalid` decodes as a solution, so verifying it gives Ok, not an
      error. */
  lemma InvalidSolutionDecodes()
    ensures ParseSolution(Version + [Dot] + "invalid").Ok?
  {
    Base64.UnpaddedDecodes("invalid");
    OnePieceSolution("invalid");
  }

  /** A solution of one decodable dot-free piece after the version decodes
      to that piece's value. */
  lemma OnePieceSolution(e: string)
    requires NoDot(e) && Base64.Decode(e).Some?
    ensures ParseSolution(Version + [Dot] + e) == Ok(FromDigits(Base64.Decode(e).value))
  {
    SplitTwo(Version, e);
  }

  /** A challenge tagged `v` is refused for its version. */
  lemma ForeignVersionChallenge()
    ensures ParseChallenge("v.AAAR+CA/uJcJHw.AACV7mM375HM8wElUbxsknqD") == Err(UnknownVersion)
  {
    ChallengeVersion("v.AAAR+CA/uJcJHw.AACV7mM375HM8wElUbxsknqD");
  }

  /** A `;` inside the difficulty piece is a decode error (the challenge is
      `s.AAA;[********R+CA/uJcJHw.AACV7mM375HM8wElUbxsknqD`). */
  lemma SemicolonChallenge()
    ensures ParseChallenge(Version + [Dot] + "AAA;[********R+CA/uJcJHw" + [Dot] + "AACV7mM375HM8wElUbxsknqD")
      == Err(DecodeError)
  {
    var d, v := "AAA;[********R+CA/uJcJHw", "AACV7mM375HM8wElUbxsknqD";
    ForeignPieceChallenge(d, v, 3);
  }

  /** A well-shaped challenge with a foreign character (neither an alphabet
      symbol nor `=`) in either encoded piece is a DecodeError. */
  lemma ForeignPieceChallenge(d: string, v: string, i: nat)
    requires NoDot(d) && NoDot(v)
    requires (i < |d| && !Base64.IsSymbol(d[i]) && d[i] != Base64.PadChar)
          || (i < |v| && !Base64.IsSymbol(v[i]) && v[i] != Base64.PadChar)
    ensures ParseChallenge(Version + [Dot] + d + [Dot] + v) == Err(DecodeError)
  {
    var t := Version + [Dot] + d + [Dot] + v;
    assert t == Version + [Dot] + (d + [Dot] + v);
    SplitAfterPiece(Version, d + [Dot] + v);
    SplitTwo(d, v);
    assert Split(t) == [Version, d, v];
    if i < |d| && !Base64.IsSymbol(d[i]) && d[i] != Base64.PadChar {
      Base64.ForeignCharacterRejected(d, i);
    } else {
      Base64.ForeignCharacterRejected(v, i);
    }
  }
}
