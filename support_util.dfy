/**
 * SupportUtil: conversions between unsigned and signed byte arrays, the
 * UTF-8 encoding of text-mode magic literals, the unboxing of an object
 * array, and the copy of a collection into an array.
 */
module SupportUtil {
  import opened Wrappers
  import opened Faults

  /** C# `byte`. */
  type Byte = x: int | 0 <= x < 0x100
  /** C# `sbyte`. */
  type SByte = x: int | -0x80 <= x < 0x80
  /** C# `int`. */
  type Int32 = x: int | -0x8000_0000 <= x < 0x8000_0000

  /** C# `int` arithmetic in an unchecked context: the result wraps around modulo 2^32. */
  function Wrap32(x: int): (r: Int32)
    ensures (r - x) % 0x1_0000_0000 == 0
    ensures -0x8000_0000 <= x < 0x8000_0000 ==> r == x
  {
    var m := x % 0x1_0000_0000;
    if m < 0x8000_0000 then m else m - 0x1_0000_0000
  }

  /** `System.Math.Max`. */
  function Max(a: int, b: int): (r: int)
    ensures r >= a && r >= b && (r == a || r == b)
  {
    if a >= b then a else b
  }

  /** The cast `(sbyte)b`: the same eight bits read in two's complement. */
  function Signed(b: Byte): (s: SByte)
    ensures (s - b) % 0x100 == 0
    ensures (s < 0) == (b >= 0x80)
  {
    if b < 0x80 then b else b - 0x100
  }

  /** The cast `(byte)s`: the same eight bits read as unsigned. */
  function Unsigned(s: SByte): (b: Byte)
    ensures (b - s) % 0x100 == 0
    ensures (s < 0) == (b >= 0x80)
  {
    if s < 0 then s + 0x100 else s
  }

  /** Element-wise `(sbyte)`, the specification of ToSByteArray. */
  function SignedSeq(s: seq<Byte>): (r: seq<SByte>)
    ensures |r| == |s|
  {
    if s == [] then [] else [Signed(s[0])] + SignedSeq(s[1..])
  }

  /** Element-wise `(byte)`, the specification of ToByteArray. */
  function UnsignedSeq(s: seq<SByte>): (r: seq<Byte>)
    ensures |r| == |s|
  {
    if s == [] then [] else [Unsigned(s[0])] + UnsignedSeq(s[1..])
  }

  lemma {:induction false} SignedSeqAt(s: seq<Byte>, k: nat)
    requires k < |s|
    ensures SignedSeq(s)[k] == Signed(s[k])
  {
    if k > 0 {
      SignedSeqAt(s[1..], k - 1);
    }
  }

  lemma {:induction false} UnsignedSeqAt(s: seq<SByte>, k: nat)
    requires k < |s|
    ensures UnsignedSeq(s)[k] == Unsigned(s[k])
  {
    if k > 0 {
      UnsignedSeqAt(s[1..], k - 1);
    }
  }

  /** Converting to signed bytes and back gives the original bytes. */
  lemma {:induction false} UnsignedSignedRoundTrip(s: seq<Byte>)
    ensures UnsignedSeq(SignedSeq(s)) == s
  {
    if s != [] {
      UnsignedSignedRoundTrip(s[1..]);
    }
  }

  /** Converting to unsigned bytes and back gives the original signed bytes. */
  lemma {:induction false} SignedUnsignedRoundTrip(s: seq<SByte>)
    ensures SignedSeq(UnsignedSeq(s)) == s
  {
    if s != [] {
      SignedUnsignedRoundTrip(s[1..]);
    }
  }

  /** ToSByteArray: null stays null, otherwise a new array of the reinterpreted bytes. */
  method ToSByteArray(byteArray: array?<Byte>) returns (sbyteArray: array?<SByte>)
    ensures (sbyteArray == null) == (byteArray == null)
    ensures byteArray != null ==> sbyteArray[..] == SignedSeq(byteArray[..])
  {
    sbyteArray := null;
    if byteArray != null {
      var result := new SByte[byteArray.Length];
      for index := 0 to byteArray.Length
        invariant forall k :: 0 <= k < index ==> result[k] == Signed(byteArray[k])
      {
        result[index] := Signed(byteArray[index]);
      }
      forall k | 0 <= k < result.Length
        ensures result[..][k] == SignedSeq(byteArray[..])[k]
      {
        SignedSeqAt(byteArray[..], k);
      }
      sbyteArray := result;
    }
  }

  /** ToByteArray(sbyte[]): null stays null, otherwise a new array of the reinterpreted bytes. */
  method ToByteArray(sbyteArray: array?<SByte>) returns (byteArray: array?<Byte>)
    ensures (byteArray == null) == (sbyteArray == null)
    ensures sbyteArray != null ==> byteArray[..] == UnsignedSeq(sbyteArray[..])
  {
    byteArray := null;
    if sbyteArray != null {
      var result := new Byte[sbyteArray.Length];
      for index := 0 to sbyteArray.Length
        invariant forall k :: 0 <= k < index ==> result[k] == Unsigned(sbyteArray[k])
      {
        result[index] := Unsigned(sbyteArray[index]);
      }
      forall k | 0 <= k < result.Length
        ensures result[..][k] == UnsignedSeq(sbyteArray[..])[k]
      {
        UnsignedSeqAt(sbyteArray[..], k);
      }
      byteArray := result;
    }
  }

  /** An element of a C# `object[]`, as far as an unboxing cast to `byte` can tell. */
  datatype Obj = Null | BoxedByte(b: Byte) | OtherObject

  /** The cast `(byte)o` applied to an object. */
  function Unbox(o: Obj): (r: Result<Byte, Fault>)
    ensures r.Success? <==> o.BoxedByte?
  {
    match o
    case BoxedByte(b) => Success(b)
    case Null => Failure(NullReferenceException)
    case OtherObject => Failure(InvalidCastException)
  }

  /** Unboxing every element in order; the first element that cannot be unboxed decides the fault. */
  function UnboxAll(s: seq<Obj>): (r: Result<seq<Byte>, Fault>)
    ensures r.Success? <==> forall i :: 0 <= i < |s| ==> s[i].BoxedByte?
    ensures r.Success? ==> |r.value| == |s| && forall i :: 0 <= i < |s| ==> r.value[i] == s[i].b
    ensures r.Failure? ==> exists i :: 0 <= i < |s| && Unbox(s[i]) == Failure(r.error)
                                       && forall j :: 0 <= j < i ==> s[j].BoxedByte?
  {
    if s == [] then Success([])
    else
      match Unbox(s[0])
      case Failure(e) => Failure(e)
      case Success(b) =>
        match UnboxAll(s[1..])
        case Failure(e) => Failure(e)
        case Success(rest) => Success([b] + rest)
  }

  /** ToByteArray(object[]): null stays null, otherwise the unboxed elements in order. */
  method ToByteArrayFromObjects(objects: array?<Obj>) returns (r: Result<array?<Byte>, Fault>)
    ensures objects == null ==> r == Success(null)
    ensures objects != null ==> (r.Success? <==> UnboxAll(objects[..]).Success?)
    ensures objects != null && r.Success? ==> r.value != null && r.value[..] == UnboxAll(objects[..]).value
    ensures objects != null && r.Failure? ==> r.error == UnboxAll(objects[..]).error
  {
    if objects == null {
      return Success(null);
    }
    var byteArray := new Byte[objects.Length];
    for index := 0 to objects.Length
      invariant forall k :: 0 <= k < index ==> objects[k].BoxedByte? && byteArray[k] == objects[k].b
    {
      var u := Unbox(objects[index]);
      if u.Failure? {
        ghost var s := objects[..];
        assert forall j :: 0 <= j < index ==> s[j].BoxedByte?;
        assert !s[index].BoxedByte?;
        return Failure(u.error);
      }
      byteArray[index] := u.value;
    }
    assert byteArray[..] == UnboxAll(objects[..]).value;
    return Success(byteArray);
  }

  /** The UTF-8 encoding of one Unicode scalar value. */
  function Utf8Char(c: char): (r: seq<Byte>)
    ensures 1 <= |r| <= 4
    ensures (|r| == 1) == (c as int < 0x80)
    ensures |r| == 1 ==> r[0] == c as int
    ensures |r| > 1 ==> r[0] >= 0xC0 && forall i :: 1 <= i < |r| ==> 0x80 <= r[i] < 0xC0
  {
    var cp := c as int;
    if cp < 0x80 then [cp]
    else if cp < 0x800 then [0xC0 + cp / 0x40, 0x80 + cp % 0x40]
    else if cp < 0x1_0000 then [0xE0 + cp / 0x1000, 0x80 + (cp / 0x40) % 0x40, 0x80 + cp % 0x40]
    else [0xF0 + cp / 0x4_0000, 0x80 + (cp / 0x1000) % 0x40, 0x80 + (cp / 0x40) % 0x40, 0x80 + cp % 0x40]
  }

  /** The UTF-8 encoding of a string, character by character. */
  function Utf8Encode(s: string): (r: seq<Byte>)
    ensures |s| <= |r| <= 4 * |s|
  {
    if s == [] then [] else Utf8Char(s[0]) + Utf8Encode(s[1..])
  }

  /** On ASCII text the UTF-8 encoding is the sequence of character codes. */
  lemma {:induction false} Utf8EncodeAscii(s: string)
    requires forall i :: 0 <= i < |s| ==> s[i] as int < 0x80
    ensures |Utf8Encode(s)| == |s|
    ensures forall i :: 0 <= i < |s| ==> Utf8Encode(s)[i] == s[i] as int
  {
    if s != [] {
      Utf8EncodeAscii(s[1..]);
    }
  }

  /** ToByteArray(string): a new array holding the UTF-8 encoding. */
  method ToByteArrayFromString(sourceString: string) returns (byteArray: array<Byte>)
    ensures byteArray[..] == Utf8Encode(sourceString)
  {
    var bytes := Utf8Encode(sourceString);
    byteArray := new Byte[|bytes|](i requires 0 <= i < |bytes| => bytes[i]);
  }

  /**
   * ToArray: walks the collection into a new array, and copies that array
   * over the front of `objects` when `objects` is large enough.
   */
  method ToArray<T(0)>(c: seq<T>, objects: array<T>) returns (objs: array<T>)
    modifies objects
    ensures fresh(objs) && objs[..] == c
    ensures objects.Length >= |c| ==> objects[..] == c + old(objects[|c|..])
    ensures objects.Length < |c| ==> objects[..] == old(objects[..])
  {
    var index := 0;
    objs := new T[|c|];
    while index < |c|
      invariant 0 <= index <= |c|
      invariant objs[..index] == c[..index]
      modifies objs
    {
      objs[index] := c[index];
      index := index + 1;
    }
    if objects.Length >= |c| {
      forall i | 0 <= i < objs.Length {
        objects[i] := objs[i];
      }
      assert objs[..] == c;
      assert forall i :: 0 <= i < objects.Length ==> objects[i] == (c + old(objects[|c|..]))[i];
    }
  }
}
