# Winista MIME detector, modelled in Dafny

This project models the matching core of the Winista MIME detector (C#).
It has three parts:

- **`MimeType`**: a content-type descriptor.
  - Its name is split on the first `/`, the `;`-parameters are dropped from the sub type, and each half is validated.
  - Extensions and magic patterns are accumulated in place, with the minimum data length the patterns need.
  - It matches a file name by extension and a buffer by its magic patterns.
- **The nested `Magic` class**: an offset and a byte pattern.
  - A pattern comes from a hexadecimal literal or from the UTF-8 encoding of a text literal.
  - It is compared byte for byte with the start of a document.
- **`MimeTypes`**: the registry.
  - It indexes descriptors by name, by extension and by whether they carry patterns.
  - It answers lookups by name, by content, and by name then content.
- **`SupportUtil`**: conversions between `byte[]` and `sbyte[]`, unboxing of an `object[]`, UTF-8 encoding of a string, and a collection-to-array copy.

Modules, one per file:

| file | module | models |
|---|---|---|
| `wrappers.dfy` | `Wrappers` | `Option`, `Result` |
| `faults.dfy` | `Faults` | the exceptions the core raises, as values |
| `support_util.dfy` | `SupportUtil` | `SupportUtil.cs`, C# `byte`/`sbyte`/`int` |
| `type_names.dfy` | `TypeNames` | name parsing and validation in `MimeType.cs` |
| `magic.dfy` | `Magics` | the nested `Magic` class and `ReadBytes` |
| `mime_type.dfy` | `Descriptors` | the `MimeType` class |
| `mime_types.dfy` | `Registry` | the `MimeTypes` class |

How the C# maps to Dafny:

- **Exceptions become values.** Thrown exceptions become `Failure(...)` of a `Result`.
  - `MimeTypeException(reason)` keeps the reason: empty name, no separator, bad primary type, bad sub type.
  - `ArgumentException`, `NullReferenceException`, `IndexOutOfRangeException` and `InvalidCastException` are raised where the source raises them.
- **Null becomes `Option` or `?`.** A `null` return is `None` or a `null` reference of a `?` type. Buffers that may be null are `array?<SByte>`.
- **Integers are mathematical.** A C# `int` is the subset type `Int32`. `Wrap32` writes out the unchecked wrap-around of `offset + length` in `Size()` and in the bounds check of `Magic.Matches`.
- **Objects that change stay objects.** `MimeType` and `MimeTypes` are classes whose methods update their fields, as in the source.
  - Each registry method is proved against `Register`/`RegisterAll`, functions of the old state.
  - Lemmas about those functions state what the source promises.
- **`Magic` is a datatype.** It never changes after construction.

Behaviour the model keeps exactly as the code has it, where a reader might expect otherwise:

- **Odd-length hexadecimal literal.** It is not skipped with a decoding error. `ReadBytes` returns `null` and the `Magic` holding it is appended. `Size()` then raises `NullReferenceException` in `AddMagic`, so `MinLength` is left unchanged.
- **Non-hexadecimal character.** It raises `ArgumentException` out of `AddMagic` with nothing appended. It is not turned into "skip this pattern".
- **`(` in a name.** It is accepted, because the check tests `SPECIALS.IndexOf(c) > 0` and `(` sits at index 0.
- **Trimming.** The halves are checked after trimming but stored untrimmed.
- **Re-registering a name.** Only the name index is overwritten. `types`, the extension lists and the magic list keep the earlier descriptor (`StaleEntries`).

## Model

| member | source | states |
|---|---|---|
| SupportUtil.Wrap32 | src/WinistaMimeDetect/MimeType.cs:366 | unchecked `int` addition: the result is congruent to the exact sum modulo 2^32, and equal to it when the sum fits |
| SupportUtil.Max | src/WinistaMimeDetect/MimeTypes.cs:273 | `Math.Max`: no smaller than either argument and equal to one of them |
| SupportUtil.Signed | src/WinistaMimeDetect/SupportUtil.cs:31 | `(sbyte)b` keeps the eight bits (congruent mod 256) and is negative exactly when b >= 128 |
| SupportUtil.Unsigned | src/WinistaMimeDetect/SupportUtil.cs:100 | `(byte)s` keeps the eight bits and is >= 128 exactly when s is negative |
| SupportUtil.SignedSeq | src/WinistaMimeDetect/SupportUtil.cs:28-32 | element-wise reinterpretation preserves the length |
| SupportUtil.UnsignedSeq | src/WinistaMimeDetect/SupportUtil.cs:98-101 | element-wise reinterpretation preserves the length |
| SupportUtil.SignedSeqAt | src/WinistaMimeDetect/SupportUtil.cs:31 | element i of the signed conversion is `(sbyte)` of element i |
| SupportUtil.UnsignedSeqAt | src/WinistaMimeDetect/SupportUtil.cs:100 | element i of the unsigned conversion is `(byte)` of element i |
| SupportUtil.UnsignedSignedRoundTrip | src/WinistaMimeDetect/SupportUtil.cs:23-35 | converting bytes to sbytes and back is the identity |
| SupportUtil.SignedUnsignedRoundTrip | src/WinistaMimeDetect/SupportUtil.cs:93-103 | converting sbytes to bytes and back is the identity |
| SupportUtil.ToSByteArray | src/WinistaMimeDetect/SupportUtil.cs:23-35 | null iff the input is null; otherwise the array holds the element-wise `(sbyte)` of the input |
| SupportUtil.ToByteArray | src/WinistaMimeDetect/SupportUtil.cs:93-103 | null iff the input is null; otherwise the array holds the element-wise `(byte)` of the input |
| SupportUtil.Unbox | src/WinistaMimeDetect/SupportUtil.cs:59 | the cast `(byte)o` succeeds exactly on a boxed byte; null raises NullReferenceException, any other object InvalidCastException |
| SupportUtil.UnboxAll | src/WinistaMimeDetect/SupportUtil.cs:52-62 | succeeds iff every element is a boxed byte, then with the same length and values in order; otherwise the fault is that of the first element that is not |
| SupportUtil.ToByteArrayFromObjects | src/WinistaMimeDetect/SupportUtil.cs:52-62 | null maps to null; otherwise the array is the in-order unboxing, or the fault of the first element that cannot be unboxed |
| SupportUtil.Utf8Char | src/WinistaMimeDetect/SupportUtil.cs:44 | one character encodes to 1 to 4 bytes, one byte equal to the code exactly for ASCII, and otherwise a lead byte >= 0xC0 followed by continuation bytes |
| SupportUtil.Utf8Encode | src/WinistaMimeDetect/SupportUtil.cs:44 | the encoding has between one and four bytes per character |
| SupportUtil.Utf8EncodeAscii | src/WinistaMimeDetect/SupportUtil.cs:44 | on ASCII text the encoding is the character codes, one byte each |
| SupportUtil.ToByteArrayFromString | src/WinistaMimeDetect/SupportUtil.cs:42-45 | the array holds the UTF-8 encoding of the string |
| SupportUtil.ToArray | src/WinistaMimeDetect/SupportUtil.cs:69-86 | a fresh array with the collection's elements in order; `objects` gets them as a prefix iff it is long enough, and is unchanged otherwise |
| TypeNames.IndexOf | src/WinistaMimeDetect/MimeType.cs:72 | -1 iff the character is absent; otherwise a position holding it with no earlier occurrence |
| TypeNames.LastIndexOf | src/WinistaMimeDetect/MimeType.cs:257 | -1 iff the character is absent; otherwise a position holding it with no later occurrence |
| TypeNames.IndexOfFirst | src/WinistaMimeDetect/MimeType.cs:72 | the first occurrence of a character is where IndexOf finds it |
| TypeNames.SpecialsExceptOpenParen | src/WinistaMimeDetect/MimeType.cs:328 | a character is refused iff it is <= 0x1A or at a positive index of SPECIALS; `(` is at index 0 and is not refused |
| TypeNames.HasCtrlOrSpecials | src/WinistaMimeDetect/MimeType.cs:321-335 | true iff some character of the string is refused |
| TypeNames.TrimStart | src/WinistaMimeDetect/MimeType.cs:317 | removes exactly the leading white space: a suffix, every removed character white, the first kept one not |
| TypeNames.TrimEnd | src/WinistaMimeDetect/MimeType.cs:317 | removes exactly the trailing white space: a prefix, every removed character white, the last kept one not |
| TypeNames.Trim | src/WinistaMimeDetect/MimeType.cs:317 | no longer than the input; empty iff every character is white space; otherwise it starts and ends with a non-white character |
| TypeNames.IsValid | src/WinistaMimeDetect/MimeType.cs:315-318 | accepts iff some character is not white space and no character is refused |
| TypeNames.StripParams | src/WinistaMimeDetect/MimeType.cs:299 | the longest prefix without ';': a prefix, free of ';', followed by ';' when shorter than the input |
| TypeNames.ParseParts | src/WinistaMimeDetect/MimeType.cs:288-312 | on success both halves are valid, the primary is stored untrimmed and the sub type is the parameter-free prefix; failures are MimeTypeExceptions |
| TypeNames.Parse | src/WinistaMimeDetect/MimeType.cs:64-81 | every refusal is a MimeTypeException |
| TypeNames.Clean | src/WinistaMimeDetect/MimeType.cs:181-184 | succeeds exactly when the name parses |
| TypeNames.ParseRefusesUnsplittable | src/WinistaMimeDetect/MimeType.cs:66-78 | a name without '/' is refused, as empty when it is empty and as unsplittable otherwise |
| TypeNames.ParseCanonical | src/WinistaMimeDetect/MimeType.cs:72-80 | an accepted name starts with the canonical `primary/sub`, followed by nothing or by ';', and both halves are valid |
| TypeNames.ParseAcceptsIff | src/WinistaMimeDetect/MimeType.cs:64-81 | a name is accepted iff it has a first '/' with a valid half before it and a valid parameter-free half after it |
| TypeNames.ParseRoundTrip | src/WinistaMimeDetect/MimeType.cs:307-309 | a valid type name parses back from its Name to itself, and Clean leaves that Name unchanged |
| TypeNames.NameDeterminesParts | src/WinistaMimeDetect/MimeType.cs:307 | two valid type names with the same Name have the same halves |
| TypeNames.CleanIdempotent | src/WinistaMimeDetect/MimeType.cs:181-184 | cleaning a cleaned name gives the same name |
| TypeNames.SplitCanonical | src/WinistaMimeDetect/MimeType.cs:72-80 | once the halves around a '/' are accepted, the canonical name is a prefix of the original, followed by nothing or by ';' |
| TypeNames.OpenParenAccepted | src/WinistaMimeDetect/MimeType.cs:328 | `(/x` is accepted with primary type `(` |
| Magics.HexValue | src/WinistaMimeDetect/MimeType.cs:403-416 | a digit value exists exactly for 0-9, a-f and A-F, and is below 16 |
| Magics.HexDecode | src/WinistaMimeDetect/MimeType.cs:399-426 | an even-length digit string decodes to half as many bytes |
| Magics.HexDecodeAt | src/WinistaMimeDetect/MimeType.cs:417-425 | byte k is `(sbyte)(16 * hex(c[2k]) + hex(c[2k+1]))`, high nibble first |
| Magics.ReadBytesSpec | src/WinistaMimeDetect/MimeType.cs:392-429 | the only fault is ArgumentException; a present result has half the literal's length, and only an even length gives one |
| Magics.HexEncode | src/WinistaMimeDetect/MimeType.cs:392-429 | the reference encoding that decoding inverts: two hex digits per byte |
| Magics.Digit | src/WinistaMimeDetect/MimeType.cs:403-416 | the digit character ReadBytes reads back as this value |
| Magics.HexRoundTrip | src/WinistaMimeDetect/MimeType.cs:392-429 | decoding the hexadecimal form of any bytes gives the bytes back |
| Magics.HexDecodeIgnoresCase | src/WinistaMimeDetect/MimeType.cs:398 | decoding gives the same bytes for the literal and its lower-case form |
| Magics.ReadBytes | src/WinistaMimeDetect/MimeType.cs:392-429 | null for odd length, ArgumentException for a non-digit, otherwise a new array holding the decoding |
| Magics.DecodeLiteral | src/WinistaMimeDetect/MimeType.cs:354-361 | a kind other than System.Byte gives the UTF-8 bytes of the literal as sbytes; for System.Byte, an odd length gives a null pattern, and an even length gives the hexadecimal decoding when every character is a digit and ArgumentException otherwise; that is the only fault |
| Magics.CompareFrom | src/WinistaMimeDetect/MimeType.cs:382-388 | the byte loop from position i: true iff every remaining position is inside the data and agrees; false only when an in-range position differs; IndexOutOfRangeException only when a position falls outside the data |
| Magics.CompareFromInBounds | src/WinistaMimeDetect/MimeType.cs:382-388 | inside the buffer the comparison loop never faults, and succeeds iff every byte agrees |
| Magics.Magic.Size | src/WinistaMimeDetect/MimeType.cs:364-367 | faults with NullReferenceException iff the pattern is null; for a well-formed pattern it is offset + length |
| Magics.Magic.MatchResult | src/WinistaMimeDetect/MimeType.cs:369-390 | null data gives false; a fault needs data and an ill-formed pattern, and is NullReferenceException exactly when the pattern is null; true only when every pattern byte lies inside the data at the offset and agrees |
| Magics.Magic.Matches | src/WinistaMimeDetect/MimeType.cs:369-390 | follows MatchResult: false for null data, NullReferenceException for a null pattern, false past the wrapped bounds check, then the byte loop |
| Magics.MatchResultWellFormed | src/WinistaMimeDetect/MimeType.cs:369-390 | a well-formed pattern never faults and matches iff the data holds it at its offset, byte for byte |
| Magics.NewMagic | src/WinistaMimeDetect/MimeType.cs:345-362 | the Magic constructor keeps the offset and stores the decoded literal, or raises the decoding fault |
| Magics.DecodeLiteralNonEmpty | src/WinistaMimeDetect/MimeType.cs:237-241 | a non-empty literal never yields an empty pattern |
| Descriptors.ExtensionOf | src/WinistaMimeDetect/MimeType.cs:257-261 | a found extension is the non-empty text after the last '.' |
| Descriptors.ExtensionOfIff | src/WinistaMimeDetect/MimeType.cs:257-261 | a name has at most one extension, and ExtensionOf returns it |
| Descriptors.NoExtension | src/WinistaMimeDetect/MimeType.cs:258 | a name without '.' or ending with '.' has no extension |
| Descriptors.MaxSize | src/WinistaMimeDetect/MimeType.cs:245 | at least every non-faulting Size() of the patterns, and 0 or one of them |
| Descriptors.MaxSizeSnoc | src/WinistaMimeDetect/MimeType.cs:245 | one more pattern raises the minimum to the maximum with its Size(), or leaves it when Size() faults |
| Descriptors.AnyMatch | src/WinistaMimeDetect/MimeType.cs:274-282 | false iff every pattern declines; true, or a fault, only from a pattern that gives it after every earlier one declined |
| Descriptors.AnyMatchWellFormed | src/WinistaMimeDetect/MimeType.cs:274-282 | with well-formed patterns the loop never faults and is true iff some pattern occurs |
| Descriptors.AnyMatchNull | src/WinistaMimeDetect/MimeType.cs:371-374 | null data matches no pattern and raises nothing |
| Descriptors.MimeType.Init | src/WinistaMimeDetect/MimeType.cs:306-311 | stores `primary/sub` and both halves, with no extensions and no patterns |
| Descriptors.MimeType.FromParts | src/WinistaMimeDetect/MimeType.cs:288-312 | succeeds iff both halves are valid, with the same fault otherwise; stores the untrimmed primary and the parameter-free sub type |
| Descriptors.MimeType.FromName | src/WinistaMimeDetect/MimeType.cs:64-81 | succeeds iff the name parses, with the same fault otherwise; the new descriptor is valid and has the canonical name |
| Descriptors.MimeType.AddExtension | src/WinistaMimeDetect/MimeType.cs:229-232 | appends the extension and changes nothing else |
| Descriptors.MimeType.AddMagic | src/WinistaMimeDetect/MimeType.cs:234-247 | empty literal: no change. Decoding fault: no change. Odd hexadecimal literal: the null pattern is appended, then NullReferenceException with MinLength unchanged. Otherwise: the pattern is appended and MinLength becomes max(old, wrapped offset + length). MinLength never decreases |
| Descriptors.MimeType.HasMagic | src/WinistaMimeDetect/MimeType.cs:249-252 | true iff some pattern has been added; without one the minimum data length is 0 |
| Descriptors.MimeType.Equals | src/WinistaMimeDetect/MimeType.cs:201-211 | false for null, true for the same object, and true only for a descriptor with the same name |
| Descriptors.MimeType.MatchesName | src/WinistaMimeDetect/MimeType.cs:254-264 | true iff the name has an extension after its last '.' and that extension is listed |
| Descriptors.MimeType.MatchResult | src/WinistaMimeDetect/MimeType.cs:266-283 | false without patterns; false iff every pattern declines; true only if some pattern matches; a fault comes from an ill-formed pattern reached after every earlier one declined |
| Descriptors.MimeType.MatchesData | src/WinistaMimeDetect/MimeType.cs:266-283 | false without patterns; otherwise the patterns in order, the first true or the first fault deciding |
| Descriptors.MimeType.Extensions | src/WinistaMimeDetect/MimeType.cs:151-158 | a new array holding the extensions in order |
| Descriptors.MatchesDataWellFormed | src/WinistaMimeDetect/MimeType.cs:266-283 | with well-formed patterns Matches(sbyte[]) never faults and is true iff some pattern occurs in the data |
| Descriptors.EqualsIsEquivalence | src/WinistaMimeDetect/MimeType.cs:201-211 | Equals is reflexive, symmetric and transitive |
| Descriptors.EqualsMeansSameParts | src/WinistaMimeDetect/MimeType.cs:201-211 | two valid descriptors are Equal iff they have the same primary type and sub type |
| Descriptors.MatchesNameLastDot | src/WinistaMimeDetect/MimeType.cs:254-264 | only the text after the last '.' counts: `a.tar.gz` matches gz, `a.gz.tar` does not |
| Descriptors.MatchesNameCaseSensitive | src/WinistaMimeDetect/MimeType.cs:261 | extensions are compared case-sensitively: `a.GZ` does not match gz |
| Descriptors.MatchesNameNeedsDot | src/WinistaMimeDetect/MimeType.cs:257-258 | a name without '.' has no extension: `gz` does not match gz |
| Registry.InsertAll | src/WinistaMimeDetect/MimeTypes.cs:275-290 | afterwards the extension index holds exactly the old extensions and the descriptor's |
| Registry.InsertAllLookup | src/WinistaMimeDetect/MimeTypes.cs:275-290 | every extension is indexed afterwards; each list gains the descriptor at its end once per occurrence of its extension, and other lists are untouched |
| Registry.Register | src/WinistaMimeDetect/MimeTypes.cs:268-296 | the minimum data length is at least the old one and at least the descriptor's |
| Registry.RegisterKeeps | src/WinistaMimeDetect/MimeTypes.cs:268-296 | after Add the name finds the descriptor and every other name keeps its entry; the extension index covers the old and the new extensions; the descriptor is a content candidate iff it was one or has patterns, and no candidate is lost |
| Registry.RegisterValid | src/WinistaMimeDetect/MimeTypes.cs:268-296 | Add keeps the registry invariant: name entries under their own names, non-empty extension lists, every index entry registered |
| Registry.RegisterAll | src/WinistaMimeDetect/MimeTypes.cs:253-263 | the minimum data length never decreases |
| Registry.RegisterAllSnoc | src/WinistaMimeDetect/MimeTypes.cs:259-262 | adding one more descriptor is one more Add |
| Registry.RegisterAllValid | src/WinistaMimeDetect/MimeTypes.cs:253-263 | adding any sequence of descriptors keeps the invariant |
| Registry.RegisterAllTypes | src/WinistaMimeDetect/MimeTypes.cs:271 | `types` gains every added descriptor in order, re-registrations included |
| Registry.RegisterAllByName | src/WinistaMimeDetect/MimeTypes.cs:270 | last registration wins: a name maps to the last added descriptor with that name; names not added keep their entry |
| Registry.RegisterAllMinLength | src/WinistaMimeDetect/MimeTypes.cs:273 | the minimum never decreases, is at least every added MinLength, and equals the old value or one of them |
| Registry.WithMagic | src/WinistaMimeDetect/MimeTypes.cs:292-295 | holds exactly the descriptors that have patterns |
| Registry.RegisterAllMagics | src/WinistaMimeDetect/MimeTypes.cs:292-295 | the magic list gains the added descriptors that have patterns, in order, after the old entries |
| Registry.ExtCandidates | src/WinistaMimeDetect/MimeTypes.cs:278-289 | holds exactly the added descriptors that list the extension |
| Registry.RegisterAllExt | src/WinistaMimeDetect/MimeTypes.cs:275-290 | an extension's list is the old one followed by the new candidates, in registration order |
| Registry.FirstCandidate | src/WinistaMimeDetect/MimeTypes.cs:127-128 | for a new extension the first candidate is the first added descriptor listing it |
| Registry.NoCandidates | src/WinistaMimeDetect/MimeTypes.cs:280-287 | descriptors that do not list an extension add no candidate for it |
| Registry.FirstMatch | src/WinistaMimeDetect/MimeTypes.cs:194-203 | null iff every candidate declines; a descriptor only when it matches and every earlier one declined; a fault only from a candidate that raises it after every earlier one declined |
| Registry.FirstMatchWellFormed | src/WinistaMimeDetect/MimeTypes.cs:194-201 | with well-formed patterns the content scan never faults: null iff no descriptor recognises the data, otherwise the earliest that does |
| Registry.MimeTypes.constructor | src/WinistaMimeDetect/MimeTypes.cs:33-45 | an empty registry satisfies the invariant |
| Registry.MimeTypes.Add | src/WinistaMimeDetect/MimeTypes.cs:268-296 | the new state is Register of the old: name entry overwritten, appended to types, MinLength raised, extensions indexed, magic list extended iff the descriptor has patterns; the invariant is kept |
| Registry.MimeTypes.AddAll | src/WinistaMimeDetect/MimeTypes.cs:253-263 | null adds nothing; otherwise each entry in order until the first null one, which raises NullReferenceException |
| Registry.MimeTypes.ForName | src/WinistaMimeDetect/MimeTypes.cs:245-248 | null iff the name is not indexed; otherwise a registered descriptor with that name |
| Registry.MimeTypes.MinLength | src/WinistaMimeDetect/MimeTypes.cs:70-77 | never negative in a valid registry |
| Registry.MimeTypes.Candidates | src/WinistaMimeDetect/MimeTypes.cs:301-314 | present iff the name has an extension that is indexed, and then that extension's list |
| Registry.MimeTypes.GetMimeTypes | src/WinistaMimeDetect/MimeTypes.cs:301-314 | null without candidates, otherwise a new array of them in registration order |
| Registry.MimeTypes.GetMimeTypeByName | src/WinistaMimeDetect/MimeTypes.cs:117-130 | the first candidate, and null iff there is none |
| Registry.MimeTypes.ContentResult | src/WinistaMimeDetect/MimeTypes.cs:179-204 | null for null or empty data; a returned descriptor is a magic candidate that matches; null for non-empty data only when every candidate declines; a fault comes from some candidate |
| Registry.MimeTypes.GetMimeTypeByContent | src/WinistaMimeDetect/MimeTypes.cs:179-204 | null for null or empty data; otherwise the magic list in order, the first match or the first fault deciding |
| Registry.MimeTypes.GetMimeTypeByNameAndContent | src/WinistaMimeDetect/MimeTypes.cs:218-242 | the first name candidate whenever there is one, whatever the data; the content lookup otherwise |
| Registry.NonNullPrefix | src/WinistaMimeDetect/MimeTypes.cs:259-261 | the entries the loop adds before it meets a null one: a prefix followed by null or the end |
| Registry.NonNullPrefixGrows | src/WinistaMimeDetect/MimeTypes.cs:259-261 | a non-null entry extends the added prefix |
| Registry.NonNullPrefixStops | src/WinistaMimeDetect/MimeTypes.cs:259-261 | the first null entry ends the added prefix |
| Registry.MinLengthCoversAll | src/WinistaMimeDetect/MimeTypes.cs:166-170 | data at least MinLength long gives every pattern of every registered descriptor a full comparison: no bounds check turns it down |
| Registry.StaleEntries | src/WinistaMimeDetect/MimeTypes.cs:270-295 | after two descriptors with one name and one extension, the name finds the second, the extension list holds both, and both stay in `types` |

## Left out

- XML loading (`MimeTypesReader.cs`) is not part of this model. Descriptors are built with the constructors, AddExtension and AddMagic. The pattern kind is the string the reader would pass: `System.Byte` selects hexadecimal decoding.
- `GetMimeTypeFromFile`: file I/O and the URLMon COM fallback.
- `MimeTypes.Get`: a static cache behind a lock, which is concurrency.
- The `MimeTypes()` constructor runs the reader. The model starts from an empty registry and adds descriptors.
- `GetMimeType(Uri)`: it needs `Uri.AbsolutePath`.
- `Description`, `ToString`, `GetHashCode` and the `DEFAULT` constant: they compute nothing the lookups use.
- Null strings are modelled as the empty string wherever the source treats the two alike: the name and parts given to the constructors, and the literal and kind given to AddMagic. A null name passed to ForName would raise ArgumentNullException from the Hashtable indexer (`MimeTypes.cs:247`); a null name or url passed to the other lookups would raise NullReferenceException. Neither is modelled.
- Descriptors.MimeType.AddExtension takes a string, never null. The source stores a null extension, and a later Add then raises ArgumentNullException from the Hashtable indexer at `MimeTypes.cs:280`; that path is not modelled.
- Descriptors.MimeType.Equals takes a MimeType or null. An argument of another class makes the cast fail, which the source catches and answers false.
- SupportUtil.ToArray is not given a null `objects` array: the source would raise NullReferenceException there, and every caller passes a new array.
- SupportUtil.Utf8Char works on Unicode scalar values, while C# strings are UTF-16. Lone surrogates, which `UTF8Encoding` replaces with U+FFFD, are not modelled. A character outside the BMP counts once in the parity test of ReadBytes, where C# counts two code units.
- Magics.ToLowerAscii lowers only A-Z. Culture-specific lower-casing of other letters is not modelled; it maps no character onto a hexadecimal digit, so decoding is unaffected.
- Array lengths are not bounded by 2^31 - 1.
- The owner reference kept by `Magic`, and the ArgumentNullException for a null owner, are left out: the owner is always the calling descriptor.
- Registry.MimeTypes.Add is given a non-null descriptor. A null element reached through AddAll is modelled as its NullReferenceException.
- The per-extension lists in the registry are sequence values. No other code holds a reference to them, so their in-place growth needs no aliasing.
