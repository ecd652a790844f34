/**
 * The name part of MimeType: splitting a content-type name into its primary
 * type and sub type, removing parameters, and validating each half.
 */
module TypeNames {
  import opened Wrappers
  import opened Faults

  /** Separates the primary type from the sub type. */
  const SEPARATOR: char := '/'
  /** Starts the parameters of a sub type. */
  const PARAMS_SEP: char := ';'
  /** Characters not allowed in a type name (the check below skips the first one). */
  const SPECIALS: string := "()<>@,;:\\\"/[]?="

  /** `String.IndexOf(char)`: the first position of `c`, or -1. */
  function IndexOf(s: string, c: char): (r: int)
    ensures -1 <= r < |s|
    ensures r == -1 <==> c !in s
    ensures r >= 0 ==> s[r] == c && c !in s[..r]
  {
    if s == [] then -1
    else if s[0] == c then 0
    else
      var k := IndexOf(s[1..], c);
      if k == -1 then -1
      else
        assert s[..k + 1] == [s[0]] + s[1..][..k];
        k + 1
  }

  /** `String.LastIndexOf(char)`: the last position of `c`, or -1. */
  function LastIndexOf(s: string, c: char): (r: int)
    ensures -1 <= r < |s|
    ensures r == -1 <==> c !in s
    ensures r >= 0 ==> s[r] == c && c !in s[r + 1..]
  {
    if s == [] then -1
    else if s[|s| - 1] == c then |s| - 1
    else
      var k := LastIndexOf(s[..|s| - 1], c);
      assert s == s[..|s| - 1] + [s[|s| - 1]];
      assert k >= 0 ==> s[k + 1..] == s[..|s| - 1][k + 1..] + [s[|s| - 1]];
      k
  }

  /** The characters of SPECIALS that the check can find: all but the first. */
  const REFUSED: string := ")<>@,;:\\\"/[]?="

  /** A character IsValid refuses: a control character up to 0x1A, or one of REFUSED. */
  predicate IsCtrlOrSpecial(c: char) {
    c <= '\U{1A}' || c in REFUSED
  }

  /**
   * The check as written tests `SPECIALS.IndexOf(c) > 0`: a POSITIVE index,
   * so '(' at index 0 is never refused. That test is IsCtrlOrSpecial.
   */
  lemma SpecialsExceptOpenParen(c: char)
    ensures IsCtrlOrSpecial(c) <==> c <= '\U{1A}' || IndexOf(SPECIALS, c) > 0
    ensures !IsCtrlOrSpecial('(') && IndexOf(SPECIALS, '(') == 0
  {
    assert SPECIALS == ['('] + REFUSED;
    assert '(' !in REFUSED;
    var k := IndexOf(SPECIALS, c);
    if c in REFUSED {
      assert c != '(';
      assert k != 0;
    }
    if k > 0 {
      assert SPECIALS[k] in SPECIALS[1..];
    }
  }

  /** HasCtrlOrSpecials: scans the string for a refused character. */
  method HasCtrlOrSpecials(s: string) returns (found: bool)
    ensures found <==> exists i :: 0 <= i < |s| && IsCtrlOrSpecial(s[i])
  {
    var len := |s|;
    var i := 0;
    while i < len
      invariant 0 <= i <= len
      invariant forall k :: 0 <= k < i ==> !IsCtrlOrSpecial(s[k])
    {
      var c := s[i];
      if c <= '\U{1A}' || IndexOf(SPECIALS, c) > 0 {
        SpecialsExceptOpenParen(c);
        return true;
      }
      SpecialsExceptOpenParen(c);
      i := i + 1;
    }
    return false;
  }

  /** `Char.IsWhiteSpace`: the characters `String.Trim` removes. */
  predicate IsWhiteSpace(c: char) {
    ('\t' <= c <= '\r') || c == ' ' || c == '\U{85}' || c == '\U{A0}' || c == '\U{1680}'
    || ('\U{2000}' <= c <= '\U{200A}') || c == '\U{2028}' || c == '\U{2029}'
    || c == '\U{202F}' || c == '\U{205F}' || c == '\U{3000}'
  }

  /** Removes leading white space: what is left is a suffix that starts with a non-white character. */
  function TrimStart(s: string): (r: string)
    ensures |r| <= |s| && r == s[|s| - |r|..]
    ensures forall i :: 0 <= i < |s| - |r| ==> IsWhiteSpace(s[i])
    ensures r == [] || !IsWhiteSpace(r[0])
  {
    if s != [] && IsWhiteSpace(s[0]) then TrimStart(s[1..]) else s
  }

  /** Removes trailing white space: what is left is a prefix that ends with a non-white character. */
  function TrimEnd(s: string): (r: string)
    ensures |r| <= |s| && r == s[..|r|]
    ensures forall i :: |r| <= i < |s| ==> IsWhiteSpace(s[i])
    ensures r == [] || !IsWhiteSpace(r[|r| - 1])
  {
    if s != [] && IsWhiteSpace(s[|s| - 1]) then TrimEnd(s[..|s| - 1]) else s
  }

  /**
   * `String.Trim`: nothing is left exactly when every character is white
   * space; otherwise what is left starts and ends with a non-white character.
   */
  function Trim(s: string): (r: string)
    ensures |r| <= |s|
    ensures r == [] <==> forall i :: 0 <= i < |s| ==> IsWhiteSpace(s[i])
    ensures r == [] || (!IsWhiteSpace(r[0]) && !IsWhiteSpace(r[|r| - 1]))
  {
    TrimEnd(TrimStart(s))
  }

  /** What IsValid accepts: some character is not white space, and none is refused. */
  predicate ValidPart(s: string) {
    (exists i :: 0 <= i < |s| && !IsWhiteSpace(s[i]))
    && forall i :: 0 <= i < |s| ==> !IsCtrlOrSpecial(s[i])
  }

  /** IsValid: the trimmed string is not empty and the untrimmed string has no refused character. */
  method IsValid(s: string) returns (ok: bool)
    ensures ok == ValidPart(s)
  {
    var bad := HasCtrlOrSpecials(s);
    ok := |Trim(s)| > 0 && !bad;
  }

  /** `sub.Split(';')[0]`: everything before the first ';'. */
  function StripParams(s: string): (r: string)
    ensures |r| <= |s| && r == s[..|r|]
    ensures PARAMS_SEP !in r
    ensures |r| < |s| ==> s[|r|] == PARAMS_SEP
  {
    var k := IndexOf(s, PARAMS_SEP);
    if k == -1 then s else s[..k]
  }

  /** A primary type and a sub type; Name() is the canonical `primary/sub`. */
  datatype TypeName = TypeName(primary: string, sub: string) {
    function Name(): (r: string) {
      primary + [SEPARATOR] + sub
    }

    ghost predicate Valid() {
      ValidPart(primary) && ValidPart(sub)
    }
  }

  /** Init: validates the primary type, removes the parameters of the sub type and validates it. */
  function ParseParts(primary: string, sub: string): (r: Result<TypeName, Fault>)
    ensures r.Success? ==> r.value.Valid() && r.value.primary == primary && r.value.sub == StripParams(sub)
    ensures r.Failure? ==> r.error.MimeTypeException?
  {
    if !ValidPart(primary) then Failure(MimeTypeException(InvalidPrimary))
    else
      var clearedSub := StripParams(sub);
      if !ValidPart(clearedSub) then Failure(MimeTypeException(InvalidSub))
      else Success(TypeName(primary, clearedSub))
  }

  /** The MimeType(string) constructor: splits on the first '/' and hands both halves to Init. */
  function Parse(name: string): (r: Result<TypeName, Fault>)
    ensures r.Failure? ==> r.error.MimeTypeException?
  {
    if |name| <= 0 then Failure(MimeTypeException(NullOrEmpty))
    else
      var i := IndexOf(name, SEPARATOR);
      if i == -1 then Failure(MimeTypeException(NoSeparator))
      else ParseParts(name[..i], name[i + 1..])
  }

  /** Clean: the canonical name of a content type, parameters removed. */
  function Clean(contentType: string): (r: Result<string, Fault>)
    ensures r.Success? <==> Parse(contentType).Success?
  {
    match Parse(contentType)
    case Success(tn) => Success(tn.Name())
    case Failure(e) => Failure(e)
  }

  /** An empty name, or one without '/', is refused with the matching reason. */
  lemma ParseRefusesUnsplittable(name: string)
    requires SEPARATOR !in name
    ensures Parse(name) == Failure(MimeTypeException(if name == [] then NullOrEmpty else NoSeparator))
  {
  }

  /**
   * An accepted name consists of the canonical `primary/sub`, possibly
   * followed by ';' and parameters; both halves are valid.
   */
  lemma {:induction false} ParseCanonical(name: string)
    requires Parse(name).Success?
    ensures Parse(name).value.Valid()
    ensures var n := Parse(name).value.Name(); |n| <= |name| && name[..|n|] == n
                                                 && (|n| < |name| ==> name[|n|] == PARAMS_SEP)
  {
    var i := IndexOf(name, SEPARATOR);
    ParseOfSplit(name, i);
    SplitCanonical(name, i);
  }

  /** The halves around a '/' at i, once accepted, name a prefix of the original string. */
  lemma SplitCanonical(name: string, i: int)
    requires 0 <= i < |name| && name[i] == SEPARATOR
    requires ParseParts(name[..i], name[i + 1..]).Success?
    ensures var n := ParseParts(name[..i], name[i + 1..]).value.Name();
              |n| <= |name| && name[..|n|] == n && (|n| < |name| ==> name[|n|] == PARAMS_SEP)
  {
    var tn := ParseParts(name[..i], name[i + 1..]).value;
    var rest := name[i + 1..];
    var m := |tn.sub|;
    SliceJoin(name, i, m);
    assert name[..i + 1 + m] == tn.Name() by { assert rest[..m] == tn.sub; }
    if i + 1 + m < |name| {
      assert name[i + 1 + m] == rest[m];
    }
  }

  /** A prefix of s reaching past position i is the part before i, s[i], and a prefix of the rest. */
  lemma SliceJoin(s: string, i: int, m: int)
    requires 0 <= i < |s| && 0 <= m <= |s| - i - 1
    ensures s[..i + 1 + m] == s[..i] + [s[i]] + s[i + 1..][..m]
  {
  }

  /** Accepted iff: non-empty, has a '/', and both halves, parameters removed, are valid. */
  lemma ParseAcceptsIff(name: string)
    ensures Parse(name).Success? <==>
              exists i :: 0 <= i < |name| && name[i] == SEPARATOR && SEPARATOR !in name[..i]
                          && ValidPart(name[..i]) && ValidPart(StripParams(name[i + 1..]))
  {
    if Parse(name).Success? {
      var k := IndexOf(name, SEPARATOR);
      ParseOfSplit(name, k);
      assert ValidPart(name[..k]) && ValidPart(StripParams(name[k + 1..]));
    }
    if exists i :: 0 <= i < |name| && name[i] == SEPARATOR && SEPARATOR !in name[..i]
                   && ValidPart(name[..i]) && ValidPart(StripParams(name[i + 1..])) {
      var i :| 0 <= i < |name| && name[i] == SEPARATOR && SEPARATOR !in name[..i]
               && ValidPart(name[..i]) && ValidPart(StripParams(name[i + 1..]));
      ParseOfSplit(name, i);
    }
  }

  /** A name whose first '/' is at i is parsed as the halves around i. */
  lemma ParseOfSplit(name: string, i: int)
    requires 0 <= i < |name| && name[i] == SEPARATOR && SEPARATOR !in name[..i]
    ensures Parse(name) == ParseParts(name[..i], name[i + 1..])
  {
    IndexOfFirst(name, SEPARATOR, i);
  }

  /** A position holding `c` with no earlier `c` is what IndexOf returns. */
  lemma IndexOfFirst(s: string, c: char, k: int)
    requires 0 <= k < |s| && s[k] == c && c !in s[..k]
    ensures IndexOf(s, c) == k
  {
  }

  /** A valid name parses back to itself: construction followed by Name is a round trip. */
  lemma ParseRoundTrip(tn: TypeName)
    requires tn.Valid()
    ensures Parse(tn.Name()) == Success(tn)
    ensures Clean(tn.Name()) == Success(tn.Name())
  {
    var n := tn.Name();
    var p := |tn.primary|;
    assert SEPARATOR !in tn.primary;
    assert PARAMS_SEP !in tn.sub;
    assert n[..p] == tn.primary;
    IndexOfFirst(n, SEPARATOR, p);
    assert n[p + 1..] == tn.sub;
    assert StripParams(tn.sub) == tn.sub;
    assert ParseParts(tn.primary, tn.sub) == Success(tn);
  }

  /** Two valid type names with the same Name are the same type name. */
  lemma NameDeterminesParts(a: TypeName, b: TypeName)
    requires a.Valid() && b.Valid()
    requires a.Name() == b.Name()
    ensures a == b
  {
    ParseRoundTrip(a);
    ParseRoundTrip(b);
  }

  /** Clean is idempotent: cleaning a cleaned name changes nothing. */
  lemma CleanIdempotent(contentType: string)
    requires Clean(contentType).Success?
    ensures Clean(Clean(contentType).value) == Clean(contentType)
  {
    var tn := Parse(contentType).value;
    ParseCanonical(contentType);
    ParseRoundTrip(tn);
  }

  /** '(' passes the check, so a name such as `(/x` is accepted. */
  lemma OpenParenAccepted()
    ensures Parse("(/x") == Success(TypeName("(", "x"))
  {
    var tn := TypeName("(", "x");
    assert ValidPart("(") by {
      assert !IsWhiteSpace("("[0]);
      SpecialsExceptOpenParen('(');
    }
    assert ValidPart("x") by {
      assert !IsWhiteSpace("x"[0]);
      assert 'x' !in REFUSED;
    }
    ParseRoundTrip(tn);
    assert tn.Name() == "(/x";
  }
}
