/**
 * The MimeTypes registry: descriptors registered in order, indexed by name,
 * by extension and by whether they carry magic patterns, with the largest
 * minimum length among them.
 */
module Registry {
  import opened Wrappers
  import opened Faults
  import opened SupportUtil
  import opened TypeNames
  import opened Magics
  import opened Descriptors

  /** The registry's five fields, as values. */
  datatype Index = Index(
    types: seq<MimeType>,
    byName: map<string, MimeType>,
    byExt: map<string, seq<MimeType>>,
    magics: seq<MimeType>,
    minLength: Int32)

  /** The state of a registry nothing has been added to. */
  const EMPTY: Index := Index([], map[], map[], [], 0)

  /** The candidate list of an extension; an extension never indexed has none. */
  function Lookup(byExt: map<string, seq<MimeType>>, e: string): (r: seq<MimeType>) {
    if e in byExt then byExt[e] else []
  }

  function Repeat(t: MimeType, n: nat): (r: seq<MimeType>)
    ensures |r| == n && forall i :: 0 <= i < n ==> r[i] == t
  {
    seq(n, _ => t)
  }

  /** What the extension loop of Add does: for each extension in turn, `t` goes to the end of its list. */
  function InsertAll(byExt: map<string, seq<MimeType>>, exts: seq<string>, t: MimeType): (r: map<string, seq<MimeType>>)
    ensures forall e :: e in r <==> e in byExt || e in exts
  {
    if exts == [] then byExt
    else
      var before := InsertAll(byExt, exts[..|exts| - 1], t);
      var e := exts[|exts| - 1];
      before[e := Lookup(before, e) + [t]]
  }

  /** Add(MimeType), as a function of the old state and the descriptor's current fields. */
  function Register(ix: Index, t: MimeType): (r: Index)
    reads t
    ensures r.minLength >= ix.minLength && r.minLength >= t.minLength
  {
    Index(
      ix.types + [t],
      ix.byName[t.name := t],
      InsertAll(ix.byExt, t.extensions, t),
      if t.HasMagic() then ix.magics + [t] else ix.magics,
      Max(ix.minLength, t.minLength))
  }

  /** Add(MimeType[]) on an array without null entries: each descriptor in order. */
  function RegisterAll(ix: Index, ts: seq<MimeType>): (r: Index)
    reads ts
    ensures r.minLength >= ix.minLength
  {
    if ts == [] then ix else Register(RegisterAll(ix, ts[..|ts| - 1]), ts[|ts| - 1])
  }

  /**
   * Add: the name now finds `t` and every other name keeps its entry; the
   * extension index covers the old extensions and the new ones; `t` is a
   * content candidate exactly when it was one or carries patterns.
   */
  lemma RegisterKeeps(ix: Index, t: MimeType)
    ensures t.name in Register(ix, t).byName && Register(ix, t).byName[t.name] == t
    ensures forall n :: n in ix.byName && n != t.name ==>
              n in Register(ix, t).byName && Register(ix, t).byName[n] == ix.byName[n]
    ensures forall e :: e in Register(ix, t).byExt <==> e in ix.byExt || e in t.extensions
    ensures t in Register(ix, t).magics <==> t in ix.magics || t.HasMagic()
    ensures ix.magics <= Register(ix, t).magics
  {
  }

  /** Registering one more descriptor is one more Register step. */
  lemma RegisterAllSnoc(ix: Index, ts: seq<MimeType>, t: MimeType)
    ensures RegisterAll(ix, ts + [t]) == Register(RegisterAll(ix, ts), t)
  {
    assert (ts + [t])[..|ts|] == ts;
  }

  /** The registry invariant: each index only refers to registered descriptors, under their own names. */
  ghost predicate IndexValid(ix: Index) {
    (forall n :: n in ix.byName ==> ix.byName[n].name == n && ix.byName[n] in ix.types)
    && (forall i :: 0 <= i < |ix.types| ==> ix.types[i].name in ix.byName)
    && (forall e :: e in ix.byExt ==> ix.byExt[e] != [] && forall t :: t in ix.byExt[e] ==> t in ix.types)
    && (forall t :: t in ix.magics ==> t in ix.types)
    && ix.minLength >= 0
  }

  /** The extension loop appends `t` once per occurrence of an extension, and touches no other list. */
  lemma {:induction false} InsertAllLookup(byExt: map<string, seq<MimeType>>, exts: seq<string>, t: MimeType, e: string)
    ensures e in InsertAll(byExt, exts, t) <==> e in byExt || e in exts
    ensures Lookup(InsertAll(byExt, exts, t), e) == Lookup(byExt, e) + Repeat(t, multiset(exts)[e])
  {
    if exts != [] {
      var init := exts[..|exts| - 1];
      InsertAllLookup(byExt, init, t, e);
      InsertAllStep(byExt, exts, t, e);
      CountStep(exts, e);
      if exts[|exts| - 1] == e {
        RepeatSnoc(t, multiset(init)[e]);
      }
    }
  }

  /** One step of the extension loop: the list of the last extension gains `t`. */
  lemma InsertAllStep(byExt: map<string, seq<MimeType>>, exts: seq<string>, t: MimeType, e: string)
    requires exts != []
    ensures Lookup(InsertAll(byExt, exts, t), e)
            == Lookup(InsertAll(byExt, exts[..|exts| - 1], t), e) + (if exts[|exts| - 1] == e then [t] else [])
  {
  }

  lemma RepeatSnoc(t: MimeType, n: nat)
    ensures Repeat(t, n) + [t] == Repeat(t, n + 1)
  {
    assert forall i :: 0 <= i < n + 1 ==> (Repeat(t, n) + [t])[i] == t;
  }

  lemma CountStep(exts: seq<string>, e: string)
    requires exts != []
    ensures multiset(exts)[e] == multiset(exts[..|exts| - 1])[e] + (if exts[|exts| - 1] == e then 1 else 0)
  {
    assert exts == exts[..|exts| - 1] + [exts[|exts| - 1]];
  }

  lemma RegisterValid(ix: Index, t: MimeType)
    requires IndexValid(ix)
    ensures IndexValid(Register(ix, t))
  {
    var r := Register(ix, t);
    forall e | e in r.byExt
      ensures r.byExt[e] != [] && forall u :: u in r.byExt[e] ==> u in r.types
    {
      InsertAllLookup(ix.byExt, t.extensions, t, e);
      assert r.byExt[e] == Lookup(ix.byExt, e) + Repeat(t, multiset(t.extensions)[e]);
      if e !in ix.byExt {
        assert e in t.extensions;
      }
    }
  }

  /** Registering any descriptors keeps the invariant. */
  lemma {:induction false} RegisterAllValid(ix: Index, ts: seq<MimeType>)
    requires IndexValid(ix)
    ensures IndexValid(RegisterAll(ix, ts))
  {
    if ts != [] {
      RegisterAllValid(ix, ts[..|ts| - 1]);
      RegisterValid(RegisterAll(ix, ts[..|ts| - 1]), ts[|ts| - 1]);
    }
  }

  /** Every registration is kept in `types`, in order, re-registrations included. */
  lemma {:induction false} RegisterAllTypes(ix: Index, ts: seq<MimeType>)
    ensures RegisterAll(ix, ts).types == ix.types + ts
  {
    if ts != [] {
      var init := ts[..|ts| - 1];
      RegisterAllTypes(ix, init);
      assert RegisterAll(ix, ts).types == RegisterAll(ix, init).types + [ts[|ts| - 1]];
      assert ts == init + [ts[|ts| - 1]];
    }
  }

  /** ts[i] is the last descriptor in `ts` named `n`. */
  predicate LastNamed(ts: seq<MimeType>, n: string, i: int)
    reads ts
  {
    0 <= i < |ts| && ts[i].name == n && forall j :: i < j < |ts| ==> ts[j].name != n
  }

  /** No descriptor in `ts` is named `n`. */
  predicate NoneNamed(ts: seq<MimeType>, n: string)
    reads ts
  {
    forall i :: 0 <= i < |ts| ==> ts[i].name != n
  }

  /** Last registration wins: a name maps to the last descriptor with that name; other names keep their entry. */
  lemma {:induction false} RegisterAllByName(ix: Index, ts: seq<MimeType>, n: string)
    ensures forall i :: LastNamed(ts, n, i) ==> n in RegisterAll(ix, ts).byName && RegisterAll(ix, ts).byName[n] == ts[i]
    ensures NoneNamed(ts, n) ==>
              (n in RegisterAll(ix, ts).byName <==> n in ix.byName)
              && (n in ix.byName ==> RegisterAll(ix, ts).byName[n] == ix.byName[n])
  {
    if ts != [] {
      var init := ts[..|ts| - 1];
      var last := ts[|ts| - 1];
      var before := RegisterAll(ix, init).byName;
      var after := RegisterAll(ix, ts).byName;
      RegisterAllByName(ix, init, n);
      RegisterAllByNameStep(ix, ts);
      assert after == before[last.name := last];
      forall i | LastNamed(ts, n, i)
        ensures n in after && after[n] == ts[i]
      {
        if i < |ts| - 1 {
          assert last.name != n;
          assert init[i] == ts[i];
          assert forall j :: i < j < |init| ==> init[j] == ts[j];
          assert LastNamed(init, n, i);
          assert before[n] == ts[i];
        }
      }
      if NoneNamed(ts, n) {
        assert forall i :: 0 <= i < |init| ==> init[i] == ts[i];
        assert NoneNamed(init, n);
      }
    }
  }

  /** One registration replaces the entry of the registered name. */
  lemma RegisterAllByNameStep(ix: Index, ts: seq<MimeType>)
    requires ts != []
    ensures RegisterAll(ix, ts).byName == RegisterAll(ix, ts[..|ts| - 1]).byName[ts[|ts| - 1].name := ts[|ts| - 1]]
  {
  }

  /** The registry minimum is the largest of the old minimum and the descriptors' minimums. */
  lemma {:induction false} RegisterAllMinLength(ix: Index, ts: seq<MimeType>)
    ensures RegisterAll(ix, ts).minLength >= ix.minLength
    ensures forall i :: 0 <= i < |ts| ==> RegisterAll(ix, ts).minLength >= ts[i].minLength
    ensures RegisterAll(ix, ts).minLength == ix.minLength
            || exists i :: 0 <= i < |ts| && RegisterAll(ix, ts).minLength == ts[i].minLength
  {
    if ts != [] {
      var init := ts[..|ts| - 1];
      RegisterAllMinLength(ix, init);
      assert forall i :: 0 <= i < |init| ==> init[i] == ts[i];
    }
  }

  /** The descriptors that carry magic patterns, in order. */
  function WithMagic(ts: seq<MimeType>): (r: seq<MimeType>)
    reads ts
    ensures forall k :: 0 <= k < |r| ==> r[k] in ts && r[k].HasMagic()
    ensures forall i :: 0 <= i < |ts| && ts[i].HasMagic() ==> ts[i] in r
  {
    if ts == [] then []
    else
      var init := ts[..|ts| - 1];
      var last := ts[|ts| - 1];
      assert forall i :: 0 <= i < |init| ==> init[i] == ts[i];
      WithMagic(init) + (if last.HasMagic() then [last] else [])
  }

  /** A descriptor joins the content candidates exactly when it carries patterns, behind the earlier ones. */
  lemma {:induction false} RegisterAllMagics(ix: Index, ts: seq<MimeType>)
    ensures RegisterAll(ix, ts).magics == ix.magics + WithMagic(ts)
  {
    if ts != [] {
      RegisterAllMagics(ix, ts[..|ts| - 1]);
    }
  }

  /** The candidates an extension gains from `ts`: each descriptor once per occurrence of the extension. */
  function ExtCandidates(ts: seq<MimeType>, e: string): (r: seq<MimeType>)
    reads ts
    ensures forall k :: 0 <= k < |r| ==> exists i :: 0 <= i < |ts| && ts[i] == r[k] && e in ts[i].extensions
    ensures forall i :: 0 <= i < |ts| && e in ts[i].extensions ==> ts[i] in r
  {
    if ts == [] then []
    else
      var init := ts[..|ts| - 1];
      var last := ts[|ts| - 1];
      assert forall i :: 0 <= i < |init| ==> init[i] == ts[i];
      var own := Repeat(last, multiset(last.extensions)[e]);
      assert e in last.extensions ==> multiset(last.extensions)[e] > 0 && own[0] == last;
      ExtCandidates(init, e) + own
  }

  /** The extension index gains exactly those candidates, appended after the existing ones. */
  lemma {:induction false} RegisterAllExt(ix: Index, ts: seq<MimeType>, e: string)
    ensures Lookup(RegisterAll(ix, ts).byExt, e) == Lookup(ix.byExt, e) + ExtCandidates(ts, e)
  {
    if ts != [] {
      var init := ts[..|ts| - 1];
      RegisterAllExt(ix, init, e);
      InsertAllLookup(RegisterAll(ix, init).byExt, ts[|ts| - 1].extensions, ts[|ts| - 1], e);
    }
  }

  /** Into an extension nobody had, the first candidate is the first descriptor listing that extension. */
  lemma {:induction false} FirstCandidate(ts: seq<MimeType>, e: string, k: nat)
    requires k < |ts| && e in ts[k].extensions
    requires forall i :: 0 <= i < k ==> e !in ts[i].extensions
    ensures ExtCandidates(ts, e) != [] && ExtCandidates(ts, e)[0] == ts[k]
  {
    var init := ts[..|ts| - 1];
    var last := ts[|ts| - 1];
    if k < |ts| - 1 {
      FirstCandidate(init, e, k);
    } else {
      assert forall i :: 0 <= i < |init| ==> init[i] == ts[i];
      NoCandidates(init, e);
      assert multiset(last.extensions)[e] > 0;
    }
  }

  lemma {:induction false} NoCandidates(ts: seq<MimeType>, e: string)
    requires forall i :: 0 <= i < |ts| ==> e !in ts[i].extensions
    ensures ExtCandidates(ts, e) == []
  {
    if ts != [] {
      var init := ts[..|ts| - 1];
      assert forall i :: 0 <= i < |init| ==> init[i] == ts[i];
      NoCandidates(init, e);
      assert multiset(ts[|ts| - 1].extensions)[e] == 0;
    }
  }

  /** Every descriptor before position k turns the data down without a fault. */
  predicate AllDecline(ms: seq<MimeType>, data: Option<seq<SByte>>, k: int)
    reads ms
    requires k <= |ms|
  {
    forall i :: 0 <= i < k ==> ms[i].MatchResult(data) == Success(false)
  }

  /** Declining up to k+1 is declining at the front and then up to k in the rest. */
  lemma AllDeclineShift(ms: seq<MimeType>, data: Option<seq<SByte>>)
    requires ms != []
    ensures AllDecline(ms, data, 0)
    ensures forall k :: 0 <= k < |ms| ==>
              (AllDecline(ms, data, k + 1) <==> ms[0].MatchResult(data) == Success(false) && AllDecline(ms[1..], data, k))
  {
    forall k | 0 <= k < |ms|
      ensures AllDecline(ms, data, k + 1) <==> ms[0].MatchResult(data) == Success(false) && AllDecline(ms[1..], data, k)
    {
      assert forall i :: 1 <= i < k + 1 ==> ms[i] == ms[1..][i - 1];
    }
  }

  /**
   * The order of the first match: the earliest descriptor whose Matches(data)
   * is true, or an escaping fault of an earlier one.
   */
  function FirstMatch(ms: seq<MimeType>, data: Option<seq<SByte>>): (r: Result<MimeType?, Fault>)
    reads ms
    ensures r == Success(null) <==> AllDecline(ms, data, |ms|)
    ensures r.Success? && r.value != null ==>
              exists k :: 0 <= k < |ms| && r.value == ms[k] && ms[k].MatchResult(data) == Success(true) && AllDecline(ms, data, k)
    ensures r.Failure? ==>
              exists k :: 0 <= k < |ms| && ms[k].MatchResult(data) == Failure(r.error) && AllDecline(ms, data, k)
  {
    if ms == [] then Success(null)
    else
      AllDeclineShift(ms, data);
      match ms[0].MatchResult(data)
      case Failure(e) => Failure(e)
      case Success(true) => Success(ms[0])
      case Success(false) =>
        FirstMatch(ms[1..], data)
  }

  /** With well-formed patterns no fault escapes, and the earliest recognising descriptor is found. */
  lemma {:induction false} FirstMatchWellFormed(ms: seq<MimeType>, d: seq<SByte>)
    requires forall i :: 0 <= i < |ms| ==> ms[i].PatternsWellFormed()
    ensures FirstMatch(ms, Some(d)).Success?
    ensures FirstMatch(ms, Some(d)).value == null <==> forall i :: 0 <= i < |ms| ==> !ms[i].Recognises(d)
    ensures FirstMatch(ms, Some(d)).value != null ==>
              exists k :: 0 <= k < |ms| && FirstMatch(ms, Some(d)).value == ms[k] && ms[k].Recognises(d)
                          && forall i :: 0 <= i < k ==> !ms[i].Recognises(d)
  {
    forall i | 0 <= i < |ms|
      ensures ms[i].MatchResult(Some(d)) == Success(ms[i].Recognises(d))
    {
      MatchesDataWellFormed(ms[i], d);
    }
  }

  class MimeTypes {
    var types: seq<MimeType>
    var typesIdx: map<string, MimeType>
    var extIdx: map<string, seq<MimeType>>
    var magicsIdx: seq<MimeType>
    var minLength: Int32

    function State(): (r: Index)
      reads this
    {
      Index(types, typesIdx, extIdx, magicsIdx, minLength)
    }

    ghost predicate Valid()
      reads this
    {
      IndexValid(State())
    }

    /** A registry with nothing registered. */
    constructor ()
      ensures Valid() && State() == EMPTY
    {
      types := [];
      typesIdx := map[];
      extIdx := map[];
      magicsIdx := [];
      minLength := 0;
    }

    /** Add(MimeType): the name entry, the list of types, the minimum, the extension lists, the magic list. */
    method Add(t: MimeType)
      requires Valid()
      modifies this
      ensures Valid()
      ensures State() == Register(old(State()), t)
    {
      ghost var s0 := State();
      typesIdx := typesIdx[t.name := t];
      types := types + [t];
      minLength := Max(minLength, t.minLength);
      var exts := t.Extensions();
      assert exts[..] == t.extensions;
      ghost var before := extIdx;
      for i := 0 to exts.Length
        invariant extIdx == InsertAll(before, exts[..i], t)
        invariant types == s0.types + [t] && typesIdx == s0.byName[t.name := t]
        invariant magicsIdx == s0.magics && minLength == Max(s0.minLength, t.minLength)
        modifies this
      {
        assert exts[..i + 1][..i] == exts[..i];
        var list := Lookup(extIdx, exts[i]);
        extIdx := extIdx[exts[i] := list + [t]];
      }
      assert exts[..exts.Length] == t.extensions;
      if t.HasMagic() {
        magicsIdx := magicsIdx + [t];
      }
      RegisterValid(s0, t);
    }

    /** Add(MimeType[]): a null array adds nothing; a null entry faults after the entries before it were added. */
    method AddAll(ts: array?<MimeType?>) returns (outcome: Result<(), Fault>)
      requires Valid()
      modifies this
      ensures Valid()
      ensures ts == null ==> outcome == Success(()) && State() == old(State())
      ensures ts != null ==> (outcome.Success? <==> null !in ts[..])
      ensures ts != null && outcome.Failure? ==> outcome.error == NullReferenceException
      ensures ts != null ==> State() == RegisterAll(old(State()), NonNullPrefix(ts[..]))
    {
      if ts == null {
        return Success(());
      }
      for i := 0 to ts.Length
        invariant Valid()
        invariant null !in ts[..i]
        invariant NonNullPrefix(ts[..i]) == ts[..i]
        invariant State() == RegisterAll(old(State()), NonNullPrefix(ts[..i]))
      {
        var t := ts[i];
        if t == null {
          NonNullPrefixStops(ts[..], i);
          return Failure(NullReferenceException);
        }
        ghost var done := NonNullPrefix(ts[..i]);
        NonNullPrefixGrows(ts[..i], t);
        assert ts[..i + 1] == ts[..i] + [t];
        RegisterAllSnoc(old(State()), done, t);
        Add(t);
      }
      assert ts[..ts.Length] == ts[..];
      return Success(());
    }

    /** ForName: the descriptor registered last under this name, or null. */
    function ForName(name: string): (r: MimeType?)
      reads this
      ensures r != null <==> name in typesIdx
      ensures Valid() && r != null ==> r.name == name && r in types
    {
      if name in typesIdx then typesIdx[name] else null
    }

    /** The MinLength property. */
    function MinLength(): (r: Int32)
      reads this
      ensures Valid() ==> r >= 0
    {
      minLength
    }

    /** The candidates GetMimeTypes returns for a name: the list of its extension, if it has one that is indexed. */
    function Candidates(name: string): (r: Option<seq<MimeType>>)
      reads this
      ensures r.Some? <==> exists e :: IsExtensionOf(name, e) && e in extIdx
      ensures r.Some? ==> exists e :: IsExtensionOf(name, e) && r.value == extIdx[e]
    {
      ExtensionOfIff(name);
      match ExtensionOf(name)
      case None => None
      case Some(e) => if e in extIdx then Some(extIdx[e]) else None
    }

    /** GetMimeTypes: null without candidates, otherwise a new array of them in registration order. */
    method GetMimeTypes(name: string) returns (founds: Option<array<MimeType?>>)
      ensures founds.Some? <==> Candidates(name).Some?
      ensures founds.Some? ==> fresh(founds.value) && founds.value[..] == Candidates(name).value
    {
      var index := LastIndexOf(name, EXT_SEP);
      if index != -1 && index != |name| - 1 {
        var ext := name[index + 1..];
        if ext in extIdx {
          var list := extIdx[ext];
          var target := new MimeType?[|list|];
          var copy := ToArray(list, target);
          return Some(copy);
        }
      }
      return None;
    }

    /** GetMimeType(string): the first candidate, or null. */
    method GetMimeTypeByName(name: string) returns (r: MimeType?)
      ensures Candidates(name).None? ==> r == null
      ensures Candidates(name).Some? && Candidates(name).value != [] ==> r == Candidates(name).value[0]
      ensures Valid() ==> (r != null <==> Candidates(name).Some?)
    {
      var founds := GetMimeTypes(name);
      if founds.None? || founds.value.Length < 1 {
        return null;
      }
      return founds.value[0];
    }

    /** What GetMimeType(sbyte[]) returns, or the fault it raises. */
    function ContentResult(data: Option<seq<SByte>>): (r: Result<MimeType?, Fault>)
      reads this, magicsIdx
      ensures data.None? || |data.value| < 1 ==> r == Success(null)
      ensures r.Success? && r.value != null ==> r.value in magicsIdx && r.value.MatchResult(data) == Success(true)
      ensures data.Some? && |data.value| >= 1 && r == Success(null) ==>
                forall i :: 0 <= i < |magicsIdx| ==> magicsIdx[i].MatchResult(data) == Success(false)
      ensures r.Failure? ==> exists k :: 0 <= k < |magicsIdx| && magicsIdx[k].MatchResult(data) == Failure(r.error)
    {
      if data.None? || |data.value| < 1 then Success(null) else FirstMatch(magicsIdx, data)
    }

    /** GetMimeType(sbyte[]): null for null or empty data, otherwise the first magic candidate that matches. */
    method GetMimeTypeByContent(data: array?<SByte>) returns (r: Result<MimeType?, Fault>)
      ensures r == ContentResult(View(data))
    {
      if data == null || data.Length < 1 {
        return Success(null);
      }
      var i := 0;
      while i < |magicsIdx|
        invariant 0 <= i <= |magicsIdx|
        invariant FirstMatch(magicsIdx, View(data)) == FirstMatch(magicsIdx[i..], View(data))
      {
        var t := magicsIdx[i];
        var m := t.MatchesData(data);
        assert magicsIdx[i..][1..] == magicsIdx[i + 1..];
        if m.Failure? {
          return Failure(m.error);
        }
        if m.value {
          return Success(t);
        }
        i := i + 1;
      }
      return Success(null);
    }

    /** GetMimeType(string, sbyte[]): the first name candidate when there is one, the content otherwise. */
    method GetMimeTypeByNameAndContent(name: string, data: array?<SByte>) returns (r: Result<MimeType?, Fault>)
      requires Valid()
      ensures Candidates(name).Some? ==> r == Success(Candidates(name).value[0])
      ensures Candidates(name).None? ==> r == ContentResult(View(data))
    {
      var mimeTypes := GetMimeTypes(name);
      if mimeTypes.None? {
        r := GetMimeTypeByContent(data);
      } else if mimeTypes.value.Length > 1 {
        r := Success(mimeTypes.value[0]);
      } else {
        r := Success(mimeTypes.value[0]);
      }
    }
  }

  /** The entries of an array up to its first null. */
  function NonNullPrefix(s: seq<MimeType?>): (r: seq<MimeType>)
    ensures |r| <= |s| && r == s[..|r|]
    ensures |r| < |s| ==> s[|r|] == null
  {
    if s == [] || s[0] == null then [] else [s[0]] + NonNullPrefix(s[1..])
  }

  lemma {:induction false} NonNullPrefixGrows(s: seq<MimeType?>, t: MimeType)
    requires null !in s && NonNullPrefix(s) == s
    ensures NonNullPrefix(s + [t]) == s + [t]
  {
    var r := NonNullPrefix(s + [t]);
    assert |r| == |s| + 1;
  }

  lemma NonNullPrefixStops(s: seq<MimeType?>, i: nat)
    requires i < |s| && s[i] == null && null !in s[..i]
    ensures NonNullPrefix(s) == NonNullPrefix(s[..i])
  {
    var r := NonNullPrefix(s);
    assert |r| <= i;
  }

  /**
   * Data at least MinLength long is long enough for every pattern of every
   * registered descriptor: no bounds check turns a match down.
   */
  lemma MinLengthCoversAll(ts: seq<MimeType>, d: seq<SByte>, i: nat, j: nat)
    requires forall k :: 0 <= k < |ts| ==> ts[k].Valid() && ts[k].PatternsWellFormed()
    requires |d| >= RegisterAll(EMPTY, ts).minLength
    requires i < |ts| && j < |ts[i].magics| && ts[i].magics[j].WellFormed()
    ensures ts[i].magics[j].offset + |ts[i].magics[j].pattern.value| <= |d|
    ensures ts[i].magics[j].MatchResult(Some(d)) == Success(ts[i].magics[j].Occurs(d))
  {
    RegisterAllMinLength(EMPTY, ts);
    assert ts[i].magics[j].WellFormed();
    MatchResultWellFormed(ts[i].magics[j], d);
  }

  /**
   * Re-registering a name leaves stale entries: after two descriptors with one
   * name and one extension, the name finds the second and the extension the first.
   */
  lemma StaleEntries(a: MimeType, b: MimeType)
    requires a != b && a.name == b.name
    requires a.extensions == ["x"] && b.extensions == ["x"]
    ensures RegisterAll(EMPTY, [a, b]).byName[a.name] == b
    ensures Lookup(RegisterAll(EMPTY, [a, b]).byExt, "x") == [a, b]
    ensures RegisterAll(EMPTY, [a, b]).types == [a, b]
  {
    assert [a, b][..1] == [a];
    assert [a][..0] == [];
    assert RegisterAll(EMPTY, [a]) == Register(EMPTY, a);
    assert RegisterAll(EMPTY, [a, b]) == Register(Register(EMPTY, a), b);
    InsertAllLookup(EMPTY.byExt, ["x"], a, "x");
    InsertAllLookup(Register(EMPTY, a).byExt, ["x"], b, "x");
  }
}
