/**
 * The Magic class nested in MimeType: an offset and a byte pattern, the
 * decoding of a pattern literal, and the comparison of a pattern with the
 * first bytes of a document.
 */
module Magics {
  import opened Wrappers
  import opened Faults
  import opened SupportUtil

  /** The kind that selects hexadecimal decoding; any other kind means UTF-8 text. */
  const BYTE_KIND: string := "System.Byte"

  /** The contents of a possibly null data array. */
  function View(data: array?<SByte>): (r: Option<seq<SByte>>)
    reads data
    ensures r.None? <==> data == null
    ensures data != null ==> r.value == data[..]
  {
    if data == null then None else Some(data[..])
  }

  /** `Char.ToLower` on the characters that can become hexadecimal digits. */
  function ToLowerAscii(c: char): (r: char)
    ensures 'A' <= c <= 'Z' ==> r as int == c as int + 32
    ensures !('A' <= c <= 'Z') ==> r == c
  {
    if 'A' <= c <= 'Z' then (c as int + 32) as char else c
  }

  function ToLowerString(s: string): (r: string)
    ensures |r| == |s| && forall i :: 0 <= i < |s| ==> r[i] == ToLowerAscii(s[i])
  {
    seq(|s|, i requires 0 <= i < |s| => ToLowerAscii(s[i]))
  }

  /** The digit tests ReadBytes applies to a character of the lower-cased literal. */
  function LowerDigit(l: char): (r: Option<nat>)
    ensures r.Some? <==> ('0' <= l <= '9' || 'a' <= l <= 'f')
    ensures r.Some? ==> r.value < 16
  {
    if '0' <= l <= '9' then Some(l as int - '0' as int)
    else if 'a' <= l <= 'f' then Some(10 + l as int - 'a' as int)
    else None
  }

  /** The digit value ReadBytes gives a character of the literal as written. */
  function HexValue(c: char): (r: Option<nat>)
    ensures r.Some? <==> ('0' <= c <= '9' || 'a' <= c <= 'f' || 'A' <= c <= 'F')
    ensures r.Some? ==> r.value < 16
  {
    LowerDigit(ToLowerAscii(c))
  }

  predicate AllHex(s: string) {
    forall i :: 0 <= i < |s| ==> HexValue(s[i]).Some?
  }

  /** One decoded byte: high nibble first, then the cast `(sbyte)`. */
  function PairByte(hi: char, lo: char): (r: SByte)
    requires HexValue(hi).Some? && HexValue(lo).Some?
  {
    Signed(16 * HexValue(hi).value + HexValue(lo).value)
  }

  /** The bytes an even-length string of hexadecimal digits stands for. */
  function HexDecode(s: string): (r: seq<SByte>)
    requires |s| % 2 == 0 && AllHex(s)
    ensures |r| == |s| / 2
  {
    if s == [] then [] else [PairByte(s[0], s[1])] + HexDecode(s[2..])
  }

  /** Byte k of the decoding comes from characters 2k and 2k+1. */
  lemma {:induction false} HexDecodeAt(s: string, k: nat)
    requires |s| % 2 == 0 && AllHex(s) && k < |s| / 2
    ensures HexDecode(s)[k] == PairByte(s[2 * k], s[2 * k + 1])
  {
    if k > 0 {
      HexDecodeAt(s[2..], k - 1);
    }
  }

  /** What ReadBytes yields: None (a null array) for odd length, a fault for a non-digit. */
  function ReadBytesSpec(magic: string): (r: Result<Option<seq<SByte>>, Fault>)
    ensures r.Failure? ==> r.error == ArgumentException
    ensures r.Success? && r.value.Some? ==> |r.value.value| == |magic| / 2 && |magic| % 2 == 0
  {
    if |magic| % 2 != 0 then Success(None)
    else if AllHex(magic) then Success(Some(HexDecode(magic)))
    else Failure(ArgumentException)
  }

  /** Byte k of a literal, once characters 2k and 2k+1 are known to be digits. */
  ghost function PairAt(magic: string, k: int): SByte
  {
    if 0 <= 2 * k && 2 * k + 1 < |magic| && HexValue(magic[2 * k]).Some? && HexValue(magic[2 * k + 1]).Some?
    then PairByte(magic[2 * k], magic[2 * k + 1])
    else 0
  }

  /** An even-length literal with a non-digit at position i is refused. */
  lemma SpecOfNonDigit(magic: string, i: int)
    requires |magic| % 2 == 0 && 0 <= i < |magic| && HexValue(magic[i]).None?
    ensures ReadBytesSpec(magic) == Failure(ArgumentException)
  {
  }

  /** An even-length literal of digits decodes pair by pair. */
  lemma SpecOfDigits(magic: string)
    requires |magic| % 2 == 0 && AllHex(magic)
    ensures ReadBytesSpec(magic) == Success(Some(HexDecode(magic)))
    ensures forall k :: 0 <= k < |magic| / 2 ==> HexDecode(magic)[k] == PairAt(magic, k)
  {
    forall k | 0 <= k < |magic| / 2
      ensures HexDecode(magic)[k] == PairAt(magic, k)
    {
      HexDecodeAt(magic, k);
    }
  }

  /** Lower-case hexadecimal text for signed bytes, two digits per byte. */
  function HexEncode(bytes: seq<SByte>): (r: string)
    ensures |r| == 2 * |bytes| && AllHex(r)
  {
    if bytes == [] then []
    else
      var u := Unsigned(bytes[0]);
      [Digit(u / 16), Digit(u % 16)] + HexEncode(bytes[1..])
  }

  function Digit(n: nat): (c: char)
    requires n < 16
    ensures HexValue(c) == Some(n)
  {
    if n < 10 then ('0' as int + n) as char else ('a' as int + n - 10) as char
  }

  /** Decoding undoes encoding. */
  lemma {:induction false} HexRoundTrip(bytes: seq<SByte>)
    ensures HexDecode(HexEncode(bytes)) == bytes
  {
    if bytes != [] {
      var e := HexEncode(bytes);
      assert e[2..] == HexEncode(bytes[1..]);
      HexRoundTrip(bytes[1..]);
      var u := Unsigned(bytes[0]);
      assert 16 * (u / 16) + u % 16 == u;
    }
  }

  /** Decoding ignores the case of the digits. */
  lemma {:induction false} HexDecodeIgnoresCase(s: string)
    requires |s| % 2 == 0 && AllHex(s)
    ensures AllHex(ToLowerString(s)) && HexDecode(ToLowerString(s)) == HexDecode(s)
  {
    var l := ToLowerString(s);
    assert forall i :: 0 <= i < |s| ==> HexValue(l[i]) == HexValue(s[i]);
    if s != [] {
      assert ToLowerString(s[2..]) == l[2..];
      HexDecodeIgnoresCase(s[2..]);
    }
  }

  /**
   * ReadBytes: lower-cases the literal and fills a new array two digits at a
   * time, keeping a running byte value; an odd-length literal yields null.
   */
  method ReadBytes(magic: string) returns (r: Result<Option<array<SByte>>, Fault>)
    ensures r.Success? <==> ReadBytesSpec(magic).Success?
    ensures r.Failure? ==> r.error == ReadBytesSpec(magic).error
    ensures r.Success? ==> (r.value.None? <==> ReadBytesSpec(magic).value.None?)
    ensures r.Success? && r.value.Some? ==> r.value.value[..] == ReadBytesSpec(magic).value.value
  {
    var data: array?<SByte> := null;
    if |magic| % 2 == 0 {
      var tmp := ToLowerString(magic);
      var out := new SByte[|tmp| / 2];
      var byteValue := 0;
      for i := 0 to |tmp|
        invariant forall k :: 0 <= k < i ==> HexValue(magic[k]).Some?
        invariant forall k :: 0 <= k < i / 2 ==> out[k] == PairAt(magic, k)
        invariant i % 2 == 1 ==> byteValue == 16 * HexValue(magic[i - 1]).value
      {
        var digit := LowerDigit(tmp[i]);
        if digit.None? {
          SpecOfNonDigit(magic, i);
          return Failure(ArgumentException);
        }
        assert HexValue(magic[i]) == digit;
        var number := digit.value;
        if i % 2 == 0 {
          byteValue := number * 16;
          assert (i + 1) / 2 == i / 2;
        } else {
          byteValue := byteValue + number;
          ghost var h := i / 2;
          assert i == 2 * h + 1 && (i + 1) / 2 == h + 1;
          assert Signed(byteValue) == PairAt(magic, h);
          out[i / 2] := Signed(byteValue);
        }
      }
      SpecOfDigits(magic);
      assert forall k :: 0 <= k < out.Length ==> out[k] == PairAt(magic, k);
      assert out[..] == HexDecode(magic);
      data := out;
    }
    r := Success(if data == null then None else Some(data));
  }

  /** What the Magic constructor stores for a literal of the given kind. */
  function DecodeLiteral(kind: string, literal: string): (r: Result<Option<seq<SByte>>, Fault>)
    ensures kind != BYTE_KIND ==> r == Success(Some(SignedSeq(Utf8Encode(literal))))
    ensures r.Failure? ==> kind == BYTE_KIND && r.error == ArgumentException
    ensures r == Success(None) <==> kind == BYTE_KIND && |literal| % 2 == 1
    ensures kind == BYTE_KIND && |literal| % 2 == 0 ==>
              (r.Success? <==> AllHex(literal))
              && (r.Success? ==> r.value == Some(HexDecode(literal)))
  {
    if kind == BYTE_KIND then ReadBytesSpec(literal)
    else Success(Some(SignedSeq(Utf8Encode(literal))))
  }

  /** Position j of a pattern placed at `offset` is an index of `data`. */
  predicate Within(data: seq<SByte>, offset: int, j: int) {
    0 <= offset + j < |data|
  }

  /** Comparison of `pattern` with `data` from position i on, as the loop in Matches runs it. */
  function CompareFrom(pattern: seq<SByte>, data: seq<SByte>, offset: int, i: nat): (r: Result<bool, Fault>)
    requires i <= |pattern|
    ensures r == Success(true) <==>
              forall j :: i <= j < |pattern| ==> Within(data, offset, j) && data[offset + j] == pattern[j]
    ensures r == Success(false) ==>
              exists j :: i <= j < |pattern| && Within(data, offset, j) && data[offset + j] != pattern[j]
    ensures r.Failure? ==>
              r.error == IndexOutOfRangeException
              && exists j :: i <= j < |pattern| && !Within(data, offset, j)
    decreases |pattern| - i
  {
    if i == |pattern| then Success(true)
    else if !Within(data, offset, i) then Failure(IndexOutOfRangeException)
    else if pattern[i] != data[offset + i] then Success(false)
    else CompareFrom(pattern, data, offset, i + 1)
  }

  /** Within bounds the comparison never faults, and succeeds iff every remaining byte agrees. */
  lemma {:induction false} CompareFromInBounds(pattern: seq<SByte>, data: seq<SByte>, offset: int, i: nat)
    requires i <= |pattern| && 0 <= offset && offset + |pattern| <= |data|
    ensures CompareFrom(pattern, data, offset, i)
            == Success(forall j :: i <= j < |pattern| ==> data[offset + j] == pattern[j])
    decreases |pattern| - i
  {
    if i < |pattern| {
      CompareFromInBounds(pattern, data, offset, i + 1);
    }
  }

  /**
   * A pattern: an offset and the decoded bytes; `pattern` is None when the
   * hexadecimal literal had odd length and ReadBytes returned null.
   */
  datatype Magic = Magic(offset: Int32, pattern: Option<seq<SByte>>) {

    /** Size(): offset + length in 32-bit arithmetic; faults when the pattern is null. */
    function Size(): (r: Result<Int32, Fault>)
      ensures r.Failure? <==> pattern.None?
      ensures r.Failure? ==> r.error == NullReferenceException
      ensures WellFormed() ==> r == Success(offset + |pattern.value|)
    {
      match pattern
      case None => Failure(NullReferenceException)
      case Some(p) => Success(Wrap32(offset + |p|))
    }

    /** A pattern that is present, with an offset where neither overflow nor a negative index happens. */
    predicate WellFormed() {
      pattern.Some? && 0 <= offset && offset + |pattern.value| < 0x8000_0000
    }

    /** The pattern lies inside `data` at its offset, byte for byte. */
    ghost predicate Occurs(data: seq<SByte>)
      requires WellFormed()
    {
      var p := pattern.value;
      offset + |p| <= |data| && forall i :: 0 <= i < |p| ==> data[offset + i] == p[i]
    }

    /** What Matches returns, or the fault it raises. */
    function MatchResult(data: Option<seq<SByte>>): (r: Result<bool, Fault>)
      ensures data.None? ==> r == Success(false)
      ensures r.Failure? ==> data.Some? && !WellFormed()
      ensures r.Failure? ==> (r.error == NullReferenceException <==> pattern.None?)
      ensures r == Success(true) ==>
                data.Some? && pattern.Some?
                && forall j :: 0 <= j < |pattern.value| ==>
                     Within(data.value, offset, j) && data.value[offset + j] == pattern.value[j]
    {
      if data.None? then Success(false)
      else if pattern.None? then Failure(NullReferenceException)
      else if Wrap32(offset + |pattern.value|) > |data.value| then Success(false)
      else CompareFrom(pattern.value, data.value, offset, 0)
    }

    /** Matches: null data never matches; otherwise a bounds check, then a byte-by-byte comparison. */
    method Matches(data: array?<SByte>) returns (r: Result<bool, Fault>)
      ensures r == MatchResult(View(data))
    {
      if data == null {
        return Success(false);
      }
      if pattern.None? {
        return Failure(NullReferenceException);
      }
      var magic := pattern.value;
      var idx: int := offset;
      if Wrap32(idx + |magic|) > data.Length {
        return Success(false);
      }
      for i := 0 to |magic|
        invariant idx == offset + i
        invariant CompareFrom(magic, data[..], offset, 0) == CompareFrom(magic, data[..], offset, i)
      {
        if !(0 <= idx < data.Length) {
          return Failure(IndexOutOfRangeException);
        }
        if magic[i] != data[idx] {
          return Success(false);
        }
        idx := idx + 1;
      }
      return Success(true);
    }
  }

  /** A well-formed pattern never faults: it matches exactly when it occurs in the data. */
  lemma MatchResultWellFormed(m: Magic, data: seq<SByte>)
    requires m.WellFormed()
    ensures m.MatchResult(Some(data)) == Success(m.Occurs(data))
  {
    var p := m.pattern.value;
    if m.offset + |p| <= |data| {
      CompareFromInBounds(p, data, m.offset, 0);
    }
  }

  /** The Magic constructor: decodes the literal according to its kind. */
  method NewMagic(offset: Int32, kind: string, literal: string) returns (r: Result<Magic, Fault>)
    ensures r.Success? <==> DecodeLiteral(kind, literal).Success?
    ensures r.Success? ==> r.value == Magic(offset, DecodeLiteral(kind, literal).value)
    ensures r.Failure? ==> r.error == DecodeLiteral(kind, literal).error
  {
    if kind == BYTE_KIND {
      var bytes := ReadBytes(literal);
      match bytes
      case Failure(e) =>
        return Failure(e);
      case Success(None) =>
        return Success(Magic(offset, None));
      case Success(Some(a)) =>
        return Success(Magic(offset, Some(a[..])));
    } else {
      var utf8 := ToByteArrayFromString(literal);
      var signed := ToSByteArray(utf8);
      return Success(Magic(offset, Some(signed[..])));
    }
  }

  /** A non-empty literal never yields an empty pattern. */
  lemma DecodeLiteralNonEmpty(kind: string, literal: string)
    requires literal != []
    requires DecodeLiteral(kind, literal).Success? && DecodeLiteral(kind, literal).value.Some?
    ensures |DecodeLiteral(kind, literal).value.value| > 0
  {
  }
}
