/** Choosing the latest documentation version (scripts/read-doc-latest.py): the version pattern, the
    sort key, and the selection, against section 11 of Semantic Versioning 2.0.0. */
module Semver {
  import opened Arithmetic
  import opened Lexicographic
  import opened Selection
  import Strings = Text
  import opened Wrappers

  // ----- the version pattern

  predicate IsDigit(c: char) { '0' <= c <= '9' }

  /** [0-9A-Za-z.-] */
  predicate IsTag(c: char) { IsDigit(c) || 'A' <= c <= 'Z' || 'a' <= c <= 'z' || c == '.' || c == '-' }

  predicate All(p: char -> bool, s: string) { forall i :: 0 <= i < |s| ==> p(s[i]) }

  function Decimal(s: string): nat {
    if s == "" then 0
    else Decimal(s[..|s| - 1]) * 10 + DigitOf(s[|s| - 1])
  }

  function DigitOf(c: char): nat { if IsDigit(c) then c as nat - '0' as nat else 0 }

  /** A run of digits denotes the number with these decimal digits, the first the most significant. */
  lemma DecimalDigits(s: string, k: nat)
    requires All(IsDigit, s) && k < |s|
    ensures Decimal(s) < Pow(10, |s|)
    ensures Pow(10, |s| - 1 - k) > 0 && Decimal(s) / Pow(10, |s| - 1 - k) % 10 == DigitOf(s[k])
  {
    DecimalBound(s);
    DecimalDigit(s, k);
  }

  lemma {:induction false} DecimalBound(s: string)
    ensures Decimal(s) < Pow(10, |s|)
  {
    if s != "" {
      DecimalBound(s[..|s| - 1]);
    }
  }

  lemma {:induction false} DecimalDigit(s: string, k: nat)
    requires All(IsDigit, s) && k < |s|
    ensures Pow(10, |s| - 1 - k) > 0 && Decimal(s) / Pow(10, |s| - 1 - k) % 10 == DigitOf(s[k])
  {
    var n := |s| - 1;
    var front, d := s[..n], DigitOf(s[n]);
    if k < n {
      var p := Pow(10, n - 1 - k);
      DecimalDigit(front, k);
      DropDigit(Decimal(front), d, p, 10 * p);
    } else {
      LowDigit(Decimal(front), d);
    }
  }

  lemma LowDigit(x: nat, d: nat)
    requires d < 10
    ensures (x * 10 + d) / 1 % 10 == d
  {
  }

  lemma DropDigit(x: nat, d: nat, p: nat, q: nat)
    requires d < 10 && p > 0 && q == 10 * p
    ensures (x * 10 + d) / q == x / p
  {
    DivideTwice(x * 10 + d, 10, p);
  }

  datatype Version = Version(major: nat, minor: nat, patch: nat, prerelease: Option<string>)

  /** The pattern as a regular expression reads: v, three numbers, a prerelease part, a build part. */
  ghost predicate Spells(s: string, major: string, minor: string, patch: string,
                         prerelease: Option<string>, build: Option<string>) {
    && major != "" && All(IsDigit, major)
    && minor != "" && All(IsDigit, minor)
    && patch != "" && All(IsDigit, patch)
    && (prerelease.Some? ==> prerelease.value != "" && All(IsTag, prerelease.value))
    && (build.Some? ==> build.value != "" && All(IsTag, build.value))
    && s == "v" + (major + ("." + (minor + ("." + (patch + (PrereleasePart(prerelease) + BuildPart(build)))))))
  }

  function PrereleasePart(prerelease: Option<string>): string {
    if prerelease.Some? then "-" + prerelease.value else ""
  }

  function BuildPart(build: Option<string>): string {
    if build.Some? then "+" + build.value else ""
  }

  ghost predicate IsVersion(s: string, v: Version) {
    exists major, minor, patch, build :: Reads(s, v, major, minor, patch, build)
  }

  ghost predicate Reads(s: string, v: Version, major: string, minor: string, patch: string, build: Option<string>) {
    && Spells(s, major, minor, patch, v.prerelease, build)
    && v.major == Decimal(major) && v.minor == Decimal(minor) && v.patch == Decimal(patch)
  }

  // ----- matching it

  /** The length of the longest prefix whose characters satisfy p. */
  function Span(p: char -> bool, s: string): (n: nat)
    ensures n <= |s| && All(p, s[..n])
    ensures n < |s| ==> !p(s[n])
  {
    if s == "" || !p(s[0]) then 0 else 1 + Span(p, s[1..])
  }

  lemma {:induction false} SpanExact(p: char -> bool, token: string, rest: string)
    requires All(p, token) && (rest == "" || !p(rest[0]))
    ensures Span(p, token + rest) == |token|
    ensures (token + rest)[..|token|] == token && (token + rest)[|token|..] == rest
  {
    if token == "" {
      assert token + rest == rest;
    } else {
      SpanExact(p, token[1..], rest);
      TailOfToken(token, rest);
    }
  }

  lemma TailOfToken(token: string, rest: string)
    requires token != ""
    ensures (token + rest)[1..] == token[1..] + rest
  {
  }

  /** A nonempty run of characters and what follows it. */
  function Token(p: char -> bool, s: string): (r: Option<(string, string)>)
    ensures r.Some? ==> r.value.0 != "" && All(p, r.value.0) && s == r.value.0 + r.value.1
  {
    var n := Span(p, s);
    if n == 0 then None else Some((s[..n], s[n..]))
  }

  lemma TokenExact(p: char -> bool, token: string, rest: string)
    requires token != "" && All(p, token) && (rest == "" || !p(rest[0]))
    ensures Token(p, token + rest) == Some((token, rest))
  {
    SpanExact(p, token, rest);
  }

  /** What follows a required character. */
  function After(c: char, s: string): (r: Option<string>)
    ensures r.Some? <==> s != "" && s[0] == c
    ensures r.Some? ==> s == [c] + r.value
  {
    if s != "" && s[0] == c then Some(s[1..]) else None
  }

  /** The part behind `mark`, None when the text starts otherwise, and what follows. */
  function Optional(mark: char, s: string): Option<(Option<string>, string)> {
    if After(mark, s).None? then Some((None, s))
    else
      var token := Token(IsTag, s[1..]);
      if token.None? then None else Some((Some(token.value.0), token.value.1))
  }

  function MatchTail(s: string): Option<Option<string>> {
    var prerelease := Optional('-', s);
    if prerelease.None? then None
    else
      var build := Optional('+', prerelease.value.1);
      if build.None? || build.value.1 != "" then None else Some(prerelease.value.0)
  }

  function Number(s: string): Option<(string, string)> { Token(IsDigit, s) }

  /** A number and the dot behind it. */
  function NumberDot(s: string): Option<(string, string)> {
    var number := Number(s);
    if number.None? || After('.', number.value.1).None? then None
    else Some((number.value.0, number.value.1[1..]))
  }

  /** From the patch number on. */
  function ParsePatch(major: string, minor: string, s: string): Option<Version> {
    var patch := Number(s);
    if patch.None? then None
    else
      var tail := MatchTail(patch.value.1);
      if tail.None? then None
      else Some(Version(Decimal(major), Decimal(minor), Decimal(patch.value.0), tail.value))
  }

  /** From the minor number on. */
  function ParseMinor(major: string, s: string): Option<Version> {
    var minor := NumberDot(s);
    if minor.None? then None else ParsePatch(major, minor.value.0, minor.value.1)
  }

  function ParseVersion(s: string): Option<Version> {
    if After('v', s).None? then None
    else
      var major := NumberDot(s[1..]);
      if major.None? then None else ParseMinor(major.value.0, major.value.1)
  }

  lemma TailSound(s: string) returns (build: Option<string>)
    requires MatchTail(s).Some?
    ensures var prerelease := MatchTail(s).value;
            && (prerelease.Some? ==> prerelease.value != "" && All(IsTag, prerelease.value))
            && (build.Some? ==> build.value != "" && All(IsTag, build.value))
            && s == PrereleasePart(prerelease) + BuildPart(build)
  {
    var (prerelease, rest) := Optional('-', s).value;
    OptionalSound('-', s);
    OptionalSound('+', rest);
    build := Optional('+', rest).value.0;
    assert rest == BuildPart(build) + "";
  }

  lemma OptionalSound(mark: char, s: string)
    requires Optional(mark, s).Some?
    ensures var (part, rest) := Optional(mark, s).value;
            && (part.Some? ==> part.value != "" && All(IsTag, part.value))
            && s == (if part.Some? then [mark] + part.value else "") + rest
  {
  }

  lemma TailComplete(prerelease: Option<string>, build: Option<string>)
    requires prerelease.Some? ==> prerelease.value != "" && All(IsTag, prerelease.value)
    requires build.Some? ==> build.value != "" && All(IsTag, build.value)
    ensures MatchTail(PrereleasePart(prerelease) + BuildPart(build)) == Some(prerelease)
  {
    var rest := BuildPart(build);
    assert rest + "" == rest;
    OptionalExact('+', build, "");
    OptionalExact('-', prerelease, rest);
  }

  /** A part behind its mark, when what follows cannot belong to it. */
  lemma OptionalExact(mark: char, part: Option<string>, rest: string)
    requires part.Some? ==> part.value != "" && All(IsTag, part.value)
    requires rest == "" || (rest[0] != mark && !IsTag(rest[0]))
    ensures Optional(mark, (if part.Some? then [mark] + part.value else "") + rest) == Some((part, rest))
  {
    if part.Some? {
      TokenExact(IsTag, part.value, rest);
      assert ([mark] + part.value + rest)[1..] == part.value + rest;
    } else {
      assert "" + rest == rest;
    }
  }

  lemma NumberDotExact(number: string, rest: string)
    requires number != "" && All(IsDigit, number)
    ensures NumberDot(number + ("." + rest)) == Some((number, rest))
  {
    TokenExact(IsDigit, number, "." + rest);
    assert ("." + rest)[1..] == rest;
  }

  lemma PatchComplete(major: string, minor: string, patch: string, prerelease: Option<string>, build: Option<string>)
    requires patch != "" && All(IsDigit, patch)
    requires prerelease.Some? ==> prerelease.value != "" && All(IsTag, prerelease.value)
    requires build.Some? ==> build.value != "" && All(IsTag, build.value)
    ensures ParsePatch(major, minor, patch + (PrereleasePart(prerelease) + BuildPart(build)))
         == Some(Version(Decimal(major), Decimal(minor), Decimal(patch), prerelease))
  {
    TailComplete(prerelease, build);
    TokenExact(IsDigit, patch, PrereleasePart(prerelease) + BuildPart(build));
  }

  lemma MinorComplete(major: string, minor: string, rest: string)
    requires minor != "" && All(IsDigit, minor)
    ensures ParseMinor(major, minor + ("." + rest)) == ParsePatch(major, minor, rest)
  {
    NumberDotExact(minor, rest);
  }

  lemma MajorComplete(major: string, rest: string)
    requires major != "" && All(IsDigit, major)
    ensures ParseVersion("v" + (major + ("." + rest))) == ParseMinor(major, rest)
  {
    NumberDotExact(major, rest);
    assert ("v" + (major + ("." + rest)))[1..] == major + ("." + rest);
  }

  lemma ParseComplete(s: string, v: Version, major: string, minor: string, patch: string, build: Option<string>)
    requires Reads(s, v, major, minor, patch, build)
    ensures ParseVersion(s) == Some(v)
  {
    var s2 := patch + (PrereleasePart(v.prerelease) + BuildPart(build));
    PatchComplete(major, minor, patch, v.prerelease, build);
    MinorComplete(major, minor, s2);
    MajorComplete(major, minor + ("." + s2));
  }

  lemma NumberDotSound(s: string)
    requires NumberDot(s).Some?
    ensures var (number, rest) := NumberDot(s).value;
            number != "" && All(IsDigit, number) && s == number + ("." + rest)
  {
    var (number, rest) := Number(s).value;
    assert rest == "." + rest[1..];
  }

  lemma ParseSound(s: string)
    ensures ParseVersion(s).Some? ==> IsVersion(s, ParseVersion(s).value)
  {
    if ParseVersion(s).Some? {
      var v := ParseVersion(s).value;
      var (major, s1) := NumberDot(s[1..]).value;
      NumberDotSound(s[1..]);
      var (minor, s2) := NumberDot(s1).value;
      NumberDotSound(s1);
      var (patch, s3) := Number(s2).value;
      var build := TailSound(s3);
      assert s == "v" + (major + ("." + (minor + ("." + (patch + s3)))));
      assert Reads(s, v, major, minor, patch, build);
    }
  }

  /** Matching accepts exactly the strings of the pattern, and the build part leaves no trace. */
  lemma ParseExact(s: string, v: Version)
    ensures ParseVersion(s) == Some(v) <==> IsVersion(s, v)
  {
    ParseSound(s);
    if IsVersion(s, v) {
      var major, minor, patch, build :| Reads(s, v, major, minor, patch, build);
      ParseComplete(s, v, major, minor, patch, build);
    }
  }

  // ----- the sort key

  /** (0, number) or (1, text). */
  datatype Identifier = Numeric(n: nat) | Text(s: string)

  datatype Key = Key(major: nat, minor: nat, patch: nat, identifiers: seq<Identifier>)

  /** `text.split(".")`. */
  function Split(s: string): (parts: seq<string>)
    ensures parts != []
  {
    if s == "" then [""]
    else
      var rest := Split(s[1..]);
      if s[0] == '.' then [""] + rest else [[s[0]] + rest[0]] + rest[1..]
  }

  /** `part.isdigit()`. */
  predicate IsNumeric(part: string) { part != "" && All(IsDigit, part) }

  function ToIdentifier(part: string): Identifier {
    if IsNumeric(part) then Numeric(Decimal(part)) else Text(part)
  }

  function Identifiers(parts: seq<string>): (ids: seq<Identifier>)
    ensures |ids| == |parts|
  {
    if parts == [] then [] else [ToIdentifier(parts[0])] + Identifiers(parts[1..])
  }

  function KeyOf(v: Version): Key {
    Key(v.major, v.minor, v.patch, if v.prerelease.None? then [] else Identifiers(Split(v.prerelease.value)))
  }

  /** `semver_key`. */
  function SemverKey(s: string): Option<Key> {
    var v := ParseVersion(s);
    if v.None? then None else Some(KeyOf(v.value))
  }

  predicate CharLess(a: char, b: char) { a < b }

  /** Tuple order on identifiers: the tag first, then the value. */
  predicate IdentifierLess(a: Identifier, b: Identifier) {
    match (a, b)
    case (Numeric(m), Numeric(n)) => m < n
    case (Numeric(_), Text(_)) => true
    case (Text(_), Numeric(_)) => false
    case (Text(s), Text(t)) => TextLess(s, t)
  }

  /** Python's `<` on strings and on tuples of identifiers. */
  predicate TextLess(s: string, t: string) { Lex(CharLess, s, t) }

  predicate IdentifiersLess(a: seq<Identifier>, b: seq<Identifier>) { Lex(IdentifierLess, a, b) }

  /** Tuple order on keys. */
  predicate KeyLess(a: Key, b: Key) {
    if a.major != b.major then a.major < b.major
    else if a.minor != b.minor then a.minor < b.minor
    else if a.patch != b.patch then a.patch < b.patch
    else IdentifiersLess(a.identifiers, b.identifiers)
  }

  // ----- Semantic Versioning 2.0.0, section 11

  /** Dot-separated identifiers: parts without dots that the dots join to s. */
  ghost predicate Separates(s: string, parts: seq<string>) {
    parts != [] && (forall i :: 0 <= i < |parts| ==> '.' !in parts[i]) && Strings.Join('.', parts) == s
  }

  /** 11.4.1 to 11.4.3: numbers numerically, text in ASCII order, numbers below text. */
  ghost predicate PartPrecedes(a: string, b: string) {
    || (IsNumeric(a) && IsNumeric(b) && Decimal(a) < Decimal(b))
    || (IsNumeric(a) && !IsNumeric(b))
    || (!IsNumeric(a) && !IsNumeric(b) && exists j :: DecidedAt(CharLess, a, b, j))
  }

  predicate SamePart(a: string, b: string) {
    a == b || (IsNumeric(a) && IsNumeric(b) && Decimal(a) == Decimal(b))
  }

  /** 11.4 and 11.4.4: the first difference decides, and with none the larger set is higher. */
  ghost predicate PartsDecidedAt(a: seq<string>, b: seq<string>, j: int) {
    && 0 <= j <= |a| && j < |b|
    && (forall i :: 0 <= i < j ==> SamePart(a[i], b[i]))
    && (j == |a| || PartPrecedes(a[j], b[j]))
  }

  ghost predicate PrereleasePrecedes(p: string, q: string) {
    exists a, b, j :: Separates(p, a) && Separates(q, b) && PartsDecidedAt(a, b, j)
  }

  predicate SameCore(v: Version, w: Version) { v.major == w.major && v.minor == w.minor && v.patch == w.patch }

  /** 11.2 and 11.3: major, minor, patch; then a prerelease is below the normal version. */
  ghost predicate Precedes(v: Version, w: Version) {
    || v.major < w.major
    || (v.major == w.major && v.minor < w.minor)
    || (v.major == w.major && v.minor == w.minor && v.patch < w.patch)
    || (SameCore(v, w) && v.prerelease.Some? &&
        (w.prerelease.None? || PrereleasePrecedes(v.prerelease.value, w.prerelease.value)))
  }

  // ----- the key against it

  lemma {:induction false} SplitSeparates(s: string)
    ensures Separates(s, Split(s))
  {
    if s != "" {
      SplitSeparates(s[1..]);
      var parts, rest := Split(s), Split(s[1..]);
      assert parts[1..] == if s[0] == '.' then rest else rest[1..];
      assert s == [s[0]] + s[1..];
    }
  }

  lemma {:induction false} SeparationUnique(s: string, parts: seq<string>)
    requires Separates(s, parts)
    ensures parts == Split(s)
  {
    var first, others := parts[0], parts[1..];
    assert parts == [first] + others;
    if s == "" {
      assert first == "" && others == [];
    } else if first == "" {
      assert s == "." + Strings.Join('.', others) && s[1..] == Strings.Join('.', others);
      SeparationUnique(s[1..], others);
    } else {
      assert s[0] == first[0] && s[0] in first;
      var shorter := [first[1..]] + others;
      assert shorter[1..] == others;
      assert Strings.Join('.', shorter) == s[1..];
      SeparationUnique(s[1..], shorter);
      assert [s[0]] + first[1..] == first;
    }
  }

  /** Splitting finds the dot-separated identifiers, the only ones there are. */
  lemma SplitExact(s: string, parts: seq<string>)
    ensures parts == Split(s) <==> Separates(s, parts)
  {
    SplitSeparates(s);
    if Separates(s, parts) {
      SeparationUnique(s, parts);
    }
  }

  /** The pair made of an identifier compares as the identifier itself should. */
  lemma PartOrder(a: string, b: string)
    ensures IdentifierLess(ToIdentifier(a), ToIdentifier(b)) <==> PartPrecedes(a, b)
    ensures ToIdentifier(a) == ToIdentifier(b) <==> SamePart(a, b)
  {
    LexMeaning(CharLess, a, b);
  }

  lemma {:induction false} IdentifierAt(parts: seq<string>, i: nat)
    requires i < |parts|
    ensures Identifiers(parts)[i] == ToIdentifier(parts[i])
  {
    if i > 0 {
      IdentifierAt(parts[1..], i - 1);
    }
  }

  lemma DecidedAlike(a: seq<string>, b: seq<string>, j: int)
    ensures DecidedAt(IdentifierLess, Identifiers(a), Identifiers(b), j) <==> PartsDecidedAt(a, b, j)
  {
    if 0 <= j <= |a| && j < |b| {
      var x, y := Identifiers(a), Identifiers(b);
      SamePrefix(x, y, j);
      forall i: nat | i < |a| && i < |b|
        ensures x[i] == y[i] <==> SamePart(a[i], b[i])
        ensures IdentifierLess(x[i], y[i]) <==> PartPrecedes(a[i], b[i])
      {
        IdentifierAt(a, i);
        IdentifierAt(b, i);
        PartOrder(a[i], b[i]);
      }
      IdentifiersStrictTotal();
    }
  }

  lemma SamePrefix(a: seq<Identifier>, b: seq<Identifier>, j: nat)
    requires j <= |a| && j <= |b|
    ensures a[..j] == b[..j] <==> forall i :: 0 <= i < j ==> a[i] == b[i]
  {
    if a[..j] == b[..j] {
      forall i | 0 <= i < j
        ensures a[i] == b[i]
      {
        assert a[..j][i] == b[..j][i];
      }
    }
  }

  /** Split, classified and compared as tuples, prereleases are ordered as section 11.4 orders them. */
  lemma PrereleaseOrder(p: string, q: string)
    ensures IdentifiersLess(Identifiers(Split(p)), Identifiers(Split(q))) <==> PrereleasePrecedes(p, q)
  {
    var a, b := Split(p), Split(q);
    SplitExact(p, a);
    SplitExact(q, b);
    LexMeaning(IdentifierLess, Identifiers(a), Identifiers(b));
    forall j
      ensures DecidedAt(IdentifierLess, Identifiers(a), Identifiers(b), j) <==> PartsDecidedAt(a, b, j)
    {
      DecidedAlike(a, b, j);
    }
    forall parts
      ensures Separates(p, parts) <==> parts == a
      ensures Separates(q, parts) <==> parts == b
    {
      SplitExact(p, parts);
      SplitExact(q, parts);
    }
  }

  /** The key orders versions as section 11 does, except a stable version against a prerelease of the same core. */
  lemma KeyOrderExact(v: Version, w: Version)
    ensures (KeyLess(KeyOf(v), KeyOf(w)) <==> Precedes(v, w))
        <==> !(SameCore(v, w) && v.prerelease.Some? != w.prerelease.Some?)
  {
    if v.prerelease.Some? && w.prerelease.Some? {
      PrereleaseOrder(v.prerelease.value, w.prerelease.value);
    }
  }

  /** Where it differs: v1.0.0 is released after v1.0.0-rc.1, and its key is the smaller one. */
  lemma StableBelowItsPrerelease() returns (v: Version, w: Version)
    ensures IsVersion("v1.0.0", v) && IsVersion("v1.0.0-rc.1", w)
    ensures Precedes(w, v) && KeyLess(KeyOf(v), KeyOf(w))
  {
    var tag := "rc.1";
    v, w := OtherWayRound(tag);
    ExampleStrings(None, w.prerelease);
  }

  lemma ExampleStrings(none: Option<string>, rc: Option<string>)
    requires none == None && rc == Some("rc.1")
    ensures IsVersion("v1.0.0", Version(1, 0, 0, none))
    ensures IsVersion("v1.0.0-rc.1", Version(1, 0, 0, rc))
  {
    assert Reads("v1.0.0", Version(1, 0, 0, none), "1", "0", "0", None);
    assert Reads("v1.0.0-rc.1", Version(1, 0, 0, rc), "1", "0", "0", None);
  }

  lemma OtherWayRound(tag: string) returns (v: Version, w: Version)
    ensures v == Version(1, 0, 0, None) && w == Version(1, 0, 0, Some(tag))
    ensures Precedes(w, v) && KeyLess(KeyOf(v), KeyOf(w))
  {
    v, w := Version(1, 0, 0, None), Version(1, 0, 0, Some(tag));
  }

  // ----- the order is total

  lemma IdentifiersStrictTotal()
    ensures StrictTotal(IdentifierLess)
  {
    LexStrictTotal(CharLess, TextLess);
  }

  lemma KeysStrictTotal()
    ensures StrictTotal(KeyLess)
  {
    IdentifiersStrictTotal();
    LexStrictTotal(IdentifierLess, IdentifiersLess);
  }

  // ----- the selection

  predicate NoIdentifiers(key: Key) { key.identifiers == [] }

  /** `select_latest`. */
  function SelectLatest(versions: seq<string>): string {
    var releases := Keyed(SemverKey, versions);
    var stable := Passing(NoIdentifiers, releases);
    var candidates := if stable != [] then stable else releases;
    if candidates == [] then "main" else MaxBy(KeyLess, candidates).0
  }

  // ----- what is selected

  predicate IsStable(s: string, v: Version) { ParseVersion(s) == Some(v) && v.prerelease.None? }

  predicate IsPrerelease(s: string, v: Version) { ParseVersion(s) == Some(v) && v.prerelease.Some? }

  /** A key without identifiers is that of a version without a prerelease part. */
  lemma StableMeaning(v: Version)
    ensures NoIdentifiers(KeyOf(v)) <==> v.prerelease.None?
  {
  }

  lemma KeyOfEntry(s: string)
    ensures forall v :: IsStable(s, v) || IsPrerelease(s, v) ==> SemverKey(s) == Some(KeyOf(v))
    ensures SemverKey(s).Some? ==> (NoIdentifiers(SemverKey(s).value) <==> exists v :: IsStable(s, v))
    ensures SemverKey(s).Some? ==> (exists v :: IsStable(s, v)) || exists v :: IsPrerelease(s, v)
  {
    if ParseVersion(s).Some? {
      var v := ParseVersion(s).value;
      StableMeaning(v);
      assert IsStable(s, v) || IsPrerelease(s, v);
    }
  }

  /** Among stable versions, and among prereleases, the key order is that of section 11. */
  lemma KeyReflects()
    ensures Reflects(KeyLess, KeyOf, Precedes, IsStable) && Reflects(KeyLess, KeyOf, Precedes, IsPrerelease)
  {
    forall v: Version, w: Version | v.prerelease.Some? == w.prerelease.Some?
      ensures Precedes(v, w) <==> KeyLess(KeyOf(v), KeyOf(w))
    {
      KeyOrderExact(v, w);
    }
  }

  lemma KeysOfEntries()
    ensures Functional(IsStable) && KeysAgree(SemverKey, IsStable, KeyOf)
    ensures Functional(IsPrerelease) && KeysAgree(SemverKey, IsPrerelease, KeyOf)
    ensures forall s :: SemverKey(s).Some? ==> (NoIdentifiers(SemverKey(s).value) <==> exists v :: IsStable(s, v))
    ensures forall s :: SemverKey(s).Some? ==> (exists v :: IsStable(s, v)) || exists v :: IsPrerelease(s, v)
  {
    forall s: string
      ensures forall v :: IsStable(s, v) || IsPrerelease(s, v) ==> SemverKey(s) == Some(KeyOf(v))
      ensures SemverKey(s).Some? ==> (NoIdentifiers(SemverKey(s).value) <==> exists v :: IsStable(s, v))
      ensures SemverKey(s).Some? ==> (exists v :: IsStable(s, v)) || exists v :: IsPrerelease(s, v)
    {
      KeyOfEntry(s);
    }
  }

  lemma StableChosen(versions: seq<string>)
    ensures AnyKept(IsStable, versions) ==> IsFirstGreatest(Precedes, IsStable, versions, SelectLatest(versions))
  {
    KeysOfEntries();
    PassingIsKept(SemverKey, NoIdentifiers, IsStable, KeyOf, versions);
    KeptSome(IsStable, KeyOf, versions);
    if AnyKept(IsStable, versions) {
      KeysStrictTotal();
      KeyReflects();
      var i, v := MaxByIsFirst(KeyLess, KeyOf, Precedes, IsStable, versions);
    }
  }

  lemma PrereleaseChosen(versions: seq<string>)
    requires !AnyKept(IsStable, versions)
    ensures if AnyKept(IsPrerelease, versions)
            then IsFirstGreatest(Precedes, IsPrerelease, versions, SelectLatest(versions))
            else SelectLatest(versions) == "main"
  {
    KeysOfEntries();
    PassingIsKept(SemverKey, NoIdentifiers, IsStable, KeyOf, versions);
    KeptSome(IsStable, KeyOf, versions);
    KeyedIsKept(SemverKey, IsPrerelease, KeyOf, versions);
    KeptSome(IsPrerelease, KeyOf, versions);
    if AnyKept(IsPrerelease, versions) {
      KeysStrictTotal();
      KeyReflects();
      var i, v := MaxByIsFirst(KeyLess, KeyOf, Precedes, IsPrerelease, versions);
    }
  }

  /** The first greatest stable version when there is one, else the first greatest prerelease, else "main". */
  lemma SelectsGreatest(versions: seq<string>)
    ensures var best := SelectLatest(versions);
            if AnyKept(IsStable, versions) then IsFirstGreatest(Precedes, IsStable, versions, best)
            else if AnyKept(IsPrerelease, versions) then IsFirstGreatest(Precedes, IsPrerelease, versions, best)
            else best == "main"
  {
    StableChosen(versions);
    if !AnyKept(IsStable, versions) {
      PrereleaseChosen(versions);
    }
  }
}
