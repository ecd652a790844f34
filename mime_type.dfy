/**
 * The MimeType class: a content type with its extensions and magic patterns,
 * both accumulated in place while the registry is built, and the minimum
 * data length its patterns need.
 */
module Descriptors {
  import opened Wrappers
  import opened Faults
  import opened SupportUtil
  import opened TypeNames
  import opened Magics

  /** Marks the start of a file extension. */
  const EXT_SEP: char := '.'

  /** `e` is what follows the last '.' of `name`, and is not empty. */
  predicate IsExtensionOf(name: string, e: string) {
    e != [] && EXT_SEP !in e && |e| < |name|
    && name[|name| - |e| - 1] == EXT_SEP && name[|name| - |e|..] == e
  }

  /** The extension lookups share this: the text after the last '.', unless that '.' ends the name. */
  function ExtensionOf(name: string): (r: Option<string>)
    ensures r.Some? ==> IsExtensionOf(name, r.value)
  {
    var index := LastIndexOf(name, EXT_SEP);
    if index != -1 && index < |name| - 1 then Some(name[index + 1..]) else None
  }

  /** A name has at most one extension, and ExtensionOf finds it. */
  lemma ExtensionOfIff(name: string)
    ensures forall e {:trigger IsExtensionOf(name, e)} :: IsExtensionOf(name, e) <==> ExtensionOf(name) == Some(e)
  {
    forall e | IsExtensionOf(name, e) ensures ExtensionOf(name) == Some(e) {
      var p := |name| - |e| - 1;
      var k := LastIndexOf(name, EXT_SEP);
      assert name[p + 1..] == e;
      assert k == p;
    }
  }

  /** A name without '.', or ending in '.', has no extension. */
  lemma NoExtension(name: string)
    requires EXT_SEP !in name || (name != [] && name[|name| - 1] == EXT_SEP)
    ensures ExtensionOf(name) == None
  {
  }

  /**
   * The minimum length AddMagic accumulates: starting from 0, the maximum
   * with Size() of each pattern whose Size() did not fault.
   */
  function MaxSize(magics: seq<Magic>): (r: Int32)
    ensures r >= 0
    ensures forall i :: 0 <= i < |magics| && magics[i].Size().Success? ==> r >= magics[i].Size().value
    ensures r == 0 || exists i :: 0 <= i < |magics| && magics[i].Size() == Success(r)
  {
    if magics == [] then 0
    else
      var init := magics[..|magics| - 1];
      var last := magics[|magics| - 1];
      var rest := MaxSize(init);
      assert forall i :: 0 <= i < |init| ==> init[i] == magics[i];
      match last.Size()
      case Success(size) => Max(rest, size)
      case Failure(_) => rest
  }

  /** Appending a pattern raises the maximum to its Size(), unless Size() faults. */
  lemma MaxSizeSnoc(magics: seq<Magic>, m: Magic)
    ensures MaxSize(magics + [m]) == (if m.Size().Success? then Max(MaxSize(magics), m.Size().value) else MaxSize(magics))
  {
    assert (magics + [m])[..|magics|] == magics;
  }

  /** Any magic pattern matching: each is tried in order, and the first fault escapes. */
  function AnyMatch(magics: seq<Magic>, data: Option<seq<SByte>>): (r: Result<bool, Fault>)
    ensures r == Success(false) <==> forall i :: 0 <= i < |magics| ==> magics[i].MatchResult(data) == Success(false)
    ensures r == Success(true) ==>
              exists k :: 0 <= k < |magics| && magics[k].MatchResult(data) == Success(true)
                          && forall i :: 0 <= i < k ==> magics[i].MatchResult(data) == Success(false)
    ensures r.Failure? ==>
              exists k :: 0 <= k < |magics| && magics[k].MatchResult(data) == Failure(r.error)
                          && forall i :: 0 <= i < k ==> magics[i].MatchResult(data) == Success(false)
  {
    if magics == [] then Success(false)
    else
      assert forall i :: 1 <= i < |magics| ==> magics[i] == magics[1..][i - 1];
      match magics[0].MatchResult(data)
      case Failure(e) => Failure(e)
      case Success(true) => Success(true)
      case Success(false) =>
        var rest := AnyMatch(magics[1..], data);
        assert rest.Success? && rest.value ==>
          exists k :: 1 <= k < |magics| && magics[k].MatchResult(data) == Success(true)
                      && forall i :: 0 <= i < k ==> magics[i].MatchResult(data) == Success(false);
        assert rest.Failure? ==>
          exists k :: 1 <= k < |magics| && magics[k].MatchResult(data) == Failure(rest.error)
                      && forall i :: 0 <= i < k ==> magics[i].MatchResult(data) == Success(false);
        rest
  }

  /** With well-formed patterns nothing faults: the result says whether some pattern occurs. */
  lemma {:induction false} AnyMatchWellFormed(magics: seq<Magic>, data: seq<SByte>)
    requires forall i :: 0 <= i < |magics| ==> magics[i].WellFormed()
    ensures AnyMatch(magics, Some(data)) == Success(exists i :: 0 <= i < |magics| && magics[i].Occurs(data))
  {
    if magics != [] {
      MatchResultWellFormed(magics[0], data);
      AnyMatchWellFormed(magics[1..], data);
      assert forall i :: 1 <= i < |magics| ==> magics[i] == magics[1..][i - 1];
    }
  }

  /** Null data matches nothing and raises nothing, whatever the patterns. */
  lemma {:induction false} AnyMatchNull(magics: seq<Magic>)
    ensures AnyMatch(magics, None) == Success(false)
  {
    if magics != [] {
      AnyMatchNull(magics[1..]);
    }
  }

  class MimeType {
    const name: string
    const primary: string
    const sub: string
    var extensions: seq<string>
    var magics: seq<Magic>
    var minLength: Int32

    /** The name is the canonical form of two valid halves; minLength is the accumulated maximum. */
    ghost predicate Valid()
      reads this
    {
      TypeName(primary, sub).Valid() && name == TypeName(primary, sub).Name()
      && minLength == MaxSize(magics)
    }

    /** The assignments at the end of Init. */
    constructor Init(tn: TypeName)
      requires tn.Valid()
      ensures Valid()
      ensures name == tn.Name() && primary == tn.primary && sub == tn.sub
      ensures extensions == [] && magics == [] && minLength == 0
    {
      name := tn.Name();
      primary := tn.primary;
      sub := tn.sub;
      extensions := [];
      magics := [];
      minLength := 0;
    }

    /** MimeType(primary, sub): Init's checks, then the assignments. */
    static method FromParts(primary: string, sub: string) returns (r: Result<MimeType, Fault>)
      ensures r.Success? <==> ParseParts(primary, sub).Success?
      ensures r.Failure? ==> r.error == ParseParts(primary, sub).error
      ensures r.Success? ==> fresh(r.value) && r.value.Valid()
                             && r.value.name == ParseParts(primary, sub).value.Name()
                             && r.value.primary == primary && r.value.sub == StripParams(sub)
                             && r.value.extensions == [] && r.value.magics == []
    {
      var primaryOk := IsValid(primary);
      if |primary| <= 0 || !primaryOk {
        return Failure(MimeTypeException(InvalidPrimary));
      }
      var clearedSub := StripParams(sub);
      var subOk := IsValid(clearedSub);
      if |clearedSub| <= 0 || !subOk {
        return Failure(MimeTypeException(InvalidSub));
      }
      var t := new MimeType.Init(TypeName(primary, clearedSub));
      return Success(t);
    }

    /** MimeType(name): refuses an empty name or one without '/', then splits on the first '/'. */
    static method FromName(name: string) returns (r: Result<MimeType, Fault>)
      ensures r.Success? <==> Parse(name).Success?
      ensures r.Failure? ==> r.error == Parse(name).error
      ensures r.Success? ==> fresh(r.value) && r.value.Valid()
                             && r.value.name == Parse(name).value.Name()
                             && r.value.extensions == [] && r.value.magics == []
    {
      if |name| <= 0 {
        return Failure(MimeTypeException(NullOrEmpty));
      }
      var i := IndexOf(name, SEPARATOR);
      if i == -1 {
        return Failure(MimeTypeException(NoSeparator));
      }
      r := FromParts(name[..i], name[i + 1..]);
    }

    /** Equals: the other object is a MimeType with the same name. */
    predicate Equals(other: MimeType?): (b: bool)
      ensures other == null ==> !b
      ensures other == this ==> b
      ensures b ==> other != null && other.name == name
    {
      other != null && other.name == name
    }

    /** AddExtension: appends, without removing duplicates. */
    method AddExtension(ext: string)
      requires Valid()
      modifies this
      ensures Valid()
      ensures extensions == old(extensions) + [ext]
      ensures magics == old(magics) && minLength == old(minLength)
    {
      extensions := extensions + [ext];
    }

    /**
     * AddMagic: an empty literal is ignored; a literal that does not decode
     * faults with nothing changed; an odd-length hexadecimal literal stores a
     * pattern with no bytes and then faults in Size(); any other literal is
     * appended and raises minLength to its Size().
     */
    method AddMagic(offset: Int32, kind: string, magic: string) returns (outcome: Result<(), Fault>)
      requires Valid()
      modifies this
      ensures Valid()
      ensures extensions == old(extensions)
      ensures minLength >= old(minLength)
      ensures magic == [] ==> outcome == Success(()) && magics == old(magics) && minLength == old(minLength)
      ensures magic != [] && DecodeLiteral(kind, magic).Failure? ==>
                outcome == Failure(DecodeLiteral(kind, magic).error)
                && magics == old(magics) && minLength == old(minLength)
      ensures magic != [] && DecodeLiteral(kind, magic) == Success(None) ==>
                outcome == Failure(NullReferenceException)
                && magics == old(magics) + [Magic(offset, None)] && minLength == old(minLength)
      ensures magic != [] && DecodeLiteral(kind, magic).Success? && DecodeLiteral(kind, magic).value.Some? ==>
                var p := DecodeLiteral(kind, magic).value.value;
                outcome == Success(())
                && magics == old(magics) + [Magic(offset, Some(p))]
                && minLength == Max(old(minLength), Wrap32(offset + |p|))
    {
      if |magic| < 1 {
        return Success(());
      }
      var m := NewMagic(offset, kind, magic);
      if m.Failure? {
        return Failure(m.error);
      }
      MaxSizeSnoc(magics, m.value);
      magics := magics + [m.value];
      var size := m.value.Size();
      if size.Failure? {
        return Failure(size.error);
      }
      minLength := Max(minLength, size.value);
      return Success(());
    }

    /** Some pattern has been added; without one no data length is needed. */
    predicate HasMagic(): (b: bool)
      reads this
      ensures b <==> exists m :: m in magics
      ensures !b ==> MaxSize(magics) == 0
    {
      assert |magics| > 0 ==> magics[0] in magics;
      |magics| > 0
    }

    /** Matches(string): the name has an extension and it is one of this type's extensions. */
    function MatchesName(url: string): (b: bool)
      reads this
      ensures b <==> exists e :: IsExtensionOf(url, e) && e in extensions
    {
      ExtensionOfIff(url);
      match ExtensionOf(url)
      case None => false
      case Some(e) => e in extensions
    }

    /** Some pattern occurs in the data. */
    ghost predicate Recognises(data: seq<SByte>)
      reads this
    {
      exists j :: 0 <= j < |magics| && magics[j].WellFormed() && magics[j].Occurs(data)
    }

    /** Every pattern is present, at a non-negative offset, and has a Size() that does not wrap around. */
    ghost predicate PatternsWellFormed()
      reads this
    {
      forall j :: 0 <= j < |magics| ==> magics[j].WellFormed()
    }

    /** What Matches(sbyte[]) returns, or the fault it raises. */
    function MatchResult(data: Option<seq<SByte>>): (r: Result<bool, Fault>)
      reads this
      ensures !HasMagic() ==> r == Success(false)
      ensures r == Success(false) <==> forall i :: 0 <= i < |magics| ==> magics[i].MatchResult(data) == Success(false)
      ensures r == Success(true) ==> exists k :: 0 <= k < |magics| && magics[k].MatchResult(data) == Success(true)
      ensures r.Failure? ==>
                exists k :: 0 <= k < |magics| && !magics[k].WellFormed() && magics[k].MatchResult(data) == Failure(r.error)
                            && forall i :: 0 <= i < k ==> magics[i].MatchResult(data) == Success(false)
    {
      if !HasMagic() then Success(false) else AnyMatch(magics, data)
    }

    /** Matches(sbyte[]): false without patterns, otherwise true as soon as one pattern matches. */
    method MatchesData(data: array?<SByte>) returns (r: Result<bool, Fault>)
      ensures r == MatchResult(View(data))
    {
      if !HasMagic() {
        return Success(false);
      }
      var i := 0;
      while i < |magics|
        invariant 0 <= i <= |magics|
        invariant AnyMatch(magics, View(data)) == AnyMatch(magics[i..], View(data))
      {
        var tested := magics[i];
        var res := tested.Matches(data);
        assert magics[i..][1..] == magics[i + 1..];
        match res {
          case Failure(e) =>
            return Failure(e);
          case Success(true) =>
            return Success(true);
          case Success(false) =>
        }
        i := i + 1;
      }
      return Success(false);
    }

    /** The Extensions property: a new array holding the extensions in order. */
    method Extensions() returns (exts: array<string>)
      ensures fresh(exts) && exts[..] == extensions
    {
      var target := new string[|extensions|];
      exts := ToArray(extensions, target);
    }
  }

  /** With well-formed patterns Matches(sbyte[]) raises nothing, and is true iff some pattern occurs. */
  lemma MatchesDataWellFormed(t: MimeType, data: seq<SByte>)
    requires t.PatternsWellFormed()
    ensures t.MatchResult(Some(data)) == Success(t.Recognises(data))
  {
    AnyMatchWellFormed(t.magics, data);
  }

  /** Equals is decided by the name alone: it is an equivalence on descriptors. */
  lemma EqualsIsEquivalence(a: MimeType, b: MimeType, c: MimeType)
    ensures a.Equals(a)
    ensures a.Equals(b) <==> b.Equals(a)
    ensures a.Equals(b) && b.Equals(c) ==> a.Equals(c)
  {
  }

  /** For valid descriptors, equal names mean the same primary type and sub type. */
  lemma EqualsMeansSameParts(a: MimeType, b: MimeType)
    requires a.Valid() && b.Valid()
    ensures a.Equals(b) <==> a.primary == b.primary && a.sub == b.sub
  {
    if a.Equals(b) {
      NameDeterminesParts(TypeName(a.primary, a.sub), TypeName(b.primary, b.sub));
    }
  }

  /** Matches(string) on a concrete case: the text after the LAST '.' counts. */
  lemma MatchesNameLastDot(t: MimeType)
    requires t.extensions == ["gz"]
    ensures t.MatchesName("a.tar.gz") && !t.MatchesName("a.gz.tar")
  {
    assert t.MatchesName("a.tar.gz") by {
      ExtensionOfIff("a.tar.gz");
      assert IsExtensionOf("a.tar.gz", "gz");
    }
    ExtensionOfIff("a.gz.tar");
    assert IsExtensionOf("a.gz.tar", "tar");
  }

  /** Matches(string) compares extensions case-sensitively. */
  lemma MatchesNameCaseSensitive(t: MimeType)
    requires t.extensions == ["gz"]
    ensures !t.MatchesName("a.GZ")
  {
    ExtensionOfIff("a.GZ");
    assert IsExtensionOf("a.GZ", "GZ");
  }

  /** A name without '.' matches no extension, even one equal to the whole name. */
  lemma MatchesNameNeedsDot(t: MimeType)
    requires t.extensions == ["gz"]
    ensures !t.MatchesName("gz")
  {
    NoExtension("gz");
  }
}
