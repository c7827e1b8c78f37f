/** Semantic versions (sdk/src/Version.cpp) and package version strings (lib/src/dsp/DSPRepository.cpp). */
module Versions {
  import opened Bytes
  import opened SafeParser
  import PackageTypes
  import Strings
  import opened Wrappers

  // ----- finding characters -----

  /** The position of the first c, or the length of s. */
  function Find(s: string, c: char): (i: nat)
    ensures i <= |s| && c !in s[..i] && (i < |s| ==> s[i] == c)
  {
    if s == "" || s[0] == c then 0 else 1 + Find(s[1..], c)
  }

  lemma {:induction false} FindSplit(a: string, c: char, b: string)
    requires c !in a
    ensures Find(a + [c] + b, c) == |a|
  {
    if a != "" {
      assert (a + [c] + b)[1..] == a[1..] + [c] + b;
      FindSplit(a[1..], c, b);
    }
  }

  lemma FindNone(s: string, c: char)
    requires c !in s
    ensures Find(s, c) == |s|
  {
  }

  // ----- printing -----

  datatype SemVer = SemVer(major: uint32, minor: uint32, patch: uint32, preRelease: string, buildMetadata: string)

  const ZERO: SemVer := SemVer(0, 0, 0, "", "")

  function Triple(a: nat, b: nat, c: nat): string {
    Print(a, 10) + "." + Print(b, 10) + "." + Print(c, 10)
  }

  function Suffix(mark: char, text: string): string {
    if text == "" then "" else [mark] + text
  }

  function ToString(v: SemVer): string {
    Triple(v.major, v.minor, v.patch) + Suffix('-', v.preRelease) + Suffix('+', v.buildMetadata)
  }

  // ----- parsing -----

  /** The tokens std::getline delivers: a trailing delimiter does not start another token. */
  function Tokens(s: string): seq<string>
    decreases |s|
  {
    if s == "" then []
    else
      var i := Find(s, '.');
      if i == |s| then [s] else [s[..i]] + Tokens(s[i + 1..])
  }

  predicate Numeric(t: string) {
    t != "" && forall i :: 0 <= i < |t| ==> IsDigit(t[i])
  }

  /** strtol saturates at the largest 64-bit long; the result is then cut to 32 bits. */
  function Number(t: string): uint32 {
    var n := Value(t, 10);
    (if n < TWO63 then n else TWO63 - 1) % TWO32
  }

  datatype Parts = Parts(version: string, preRelease: string, buildMetadata: string)

  /** Build metadata follows the first '+'; the pre-release follows the first '-' before that. */
  function Split(s: string): Parts {
    var b := Find(s, '+');
    var front := s[..b];
    var p := Find(front, '-');
    Parts(front[..p], if p < |front| then front[p + 1..] else "", if b < |s| then s[b + 1..] else "")
  }

  predicate ThreeNumbers(tokens: seq<string>) {
    |tokens| == 3 && Numeric(tokens[0]) && Numeric(tokens[1]) && Numeric(tokens[2])
  }

  function Assemble(tokens: seq<string>, p: Parts): SemVer {
    if ThreeNumbers(tokens) then
      SemVer(Number(tokens[0]), Number(tokens[1]), Number(tokens[2]), p.preRelease, p.buildMetadata)
    else ZERO
  }

  function FromString(s: string): SemVer {
    Assemble(Tokens(Split(s).version), Split(s))
  }

  function FirstToken(s: string): string {
    s[..Find(s, '.')]
  }

  function AfterToken(s: string): string {
    var i := Find(s, '.');
    if i < |s| then s[i + 1..] else ""
  }

  lemma NextToken(s: string)
    requires s != ""
    ensures Tokens(s) == [FirstToken(s)] + Tokens(AfterToken(s))
    ensures |AfterToken(s)| < |s|
  {
    var i := Find(s, '.');
    assert i == |s| ==> s[..i] == s;
  }

  /** Whether the tokens so far are at most three numbers, kept in `numbers`. */
  ghost predicate ReadSoFar(done: seq<string>, numbers: seq<uint32>) {
    && |numbers| == |done| <= 3
    && forall k :: 0 <= k < |done| ==> Numeric(done[k]) && numbers[k] == Number(done[k])
  }

  lemma TokenRejected(done: seq<string>, numbers: seq<uint32>, token: string, rest: seq<string>)
    requires ReadSoFar(done, numbers) && (|numbers| > 2 || !Numeric(token))
    ensures !ThreeNumbers(done + ([token] + rest))
  {
    var all := done + ([token] + rest);
    assert all[|done|] == token;
    hide Numeric, Number;
  }

  lemma TokenAccepted(done: seq<string>, numbers: seq<uint32>, token: string, rest: seq<string>)
    requires ReadSoFar(done, numbers) && |numbers| <= 2 && Numeric(token)
    ensures ReadSoFar(done + [token], numbers + [Number(token)])
    ensures done + ([token] + rest) == (done + [token]) + rest
  {
    hide Numeric, Number;
  }

  lemma TokensExhausted(done: seq<string>, numbers: seq<uint32>)
    requires ReadSoFar(done, numbers)
    ensures done + Tokens("") == done
    ensures |numbers| == 3 <==> ThreeNumbers(done)
  {
    hide Numeric, Number;
  }

  /** The token loop: three numbers, or nothing. */
  method ReadNumbers(version: string) returns (ok: bool, numbers: seq<uint32>)
    ensures ok <==> ThreeNumbers(Tokens(version))
    ensures ok ==> ReadSoFar(Tokens(version), numbers)
  {
    var rest := version;
    numbers := [];
    ghost var done: seq<string> := [];
    while rest != ""
      invariant Tokens(version) == done + Tokens(rest)
      invariant ReadSoFar(done, numbers)
      decreases |rest|
    {
      hide *;
      NextToken(rest);
      var token := FirstToken(rest);
      if |numbers| > 2 || !Numeric(token) {
        TokenRejected(done, numbers, token, Tokens(AfterToken(rest)));
        return false, [];
      }
      TokenAccepted(done, numbers, token, Tokens(AfterToken(rest)));
      numbers := numbers + [Number(token)];
      done := done + [token];
      rest := AfterToken(rest);
    }
    hide *;
    TokensExhausted(done, numbers);
    ok := |numbers| == 3;
  }

  method Parse(s: string) returns (v: SemVer)
    ensures v == FromString(s)
  {
    if s == "" {
      return ZERO;
    }
    var p := Split(s);
    if p.version == "" {
      return ZERO;
    }
    var ok, n := ReadNumbers(p.version);
    if !ok {
      return ZERO;
    }
    v := SemVer(n[0], n[1], n[2], p.preRelease, p.buildMetadata);
  }

  // ----- the round trip -----

  lemma PrintedHas(n: nat, c: char)
    requires !IsDigit(c)
    ensures c !in Print(n, 10)
  {
    PrintParses(n, 10);
  }

  lemma TripleHas(a: nat, b: nat, c: nat, x: char)
    requires !IsDigit(x) && x != '.'
    ensures x !in Triple(a, b, c)
  {
    PrintedHas(a, x);
    PrintedHas(b, x);
    PrintedHas(c, x);
  }

  lemma SplitSuffix(front: string, mark: char, text: string)
    requires mark !in front
    ensures var s := front + Suffix(mark, text);
            && Find(s, mark) == |front| && s[..|front|] == front
            && (text == "" ==> |s| == |front|)
            && (text != "" ==> |front| < |s| && s[|front| + 1..] == text)
  {
    hide Find;
    var s := front + Suffix(mark, text);
    if text == "" {
      assert s == front;
      FindNone(s, mark);
    } else {
      assert s == front + [mark] + text;
      FindSplit(front, mark, text);
    }
  }

  /** Splitting a string put together from its parts gives the parts. */
  lemma SplitParts(version: string, pre: string, build: string)
    requires '+' !in version && '-' !in version && '+' !in pre
    ensures Split(version + Suffix('-', pre) + Suffix('+', build)) == Parts(version, pre, build)
  {
    var front := version + Suffix('-', pre);
    assert '+' !in front;
    hide Find, Suffix;
    SplitSuffix(front, '+', build);
    SplitSuffix(version, '-', pre);
  }

  lemma TokenFirst(a: string, rest: string)
    requires '.' !in a
    ensures Tokens(a + "." + rest) == [a] + Tokens(rest)
  {
    var s := a + "." + rest;
    FindSplit(a, '.', rest);
    assert s == a + ['.'] + rest;
    assert s[..|a|] == a && s[|a| + 1..] == rest;
    hide Find;
  }

  lemma TokenLast(a: string)
    requires '.' !in a && a != ""
    ensures Tokens(a) == [a]
  {
    FindNone(a, '.');
  }

  lemma TripleTokens(a: nat, b: nat, c: nat)
    ensures Tokens(Triple(a, b, c)) == [Print(a, 10), Print(b, 10), Print(c, 10)]
  {
    var x, y, z := Print(a, 10), Print(b, 10), Print(c, 10);
    PrintedHas(a, '.');
    PrintedHas(b, '.');
    PrintedHas(c, '.');
    assert Triple(a, b, c) == x + "." + (y + "." + z);
    TokenFirst(x, y + "." + z);
    TokenFirst(y, z);
    TokenLast(z);
    hide Tokens, Print;
  }

  lemma NumberPrinted(n: uint32)
    ensures Numeric(Print(n, 10)) && Number(Print(n, 10)) == n
  {
    PrintParses(n, 10);
    hide Print, Value;
  }

  /** A pre-release without '+' survives printing and parsing together with everything else. */
  lemma RoundTrip(v: SemVer)
    requires '+' !in v.preRelease
    ensures FromString(ToString(v)) == v
  {
    hide Triple, Split, Tokens, Number, Numeric, Print;
    TripleHas(v.major, v.minor, v.patch, '+');
    TripleHas(v.major, v.minor, v.patch, '-');
    SplitParts(Triple(v.major, v.minor, v.patch), v.preRelease, v.buildMetadata);
    TripleTokens(v.major, v.minor, v.patch);
    NumberPrinted(v.major);
    NumberPrinted(v.minor);
    NumberPrinted(v.patch);
  }

  lemma ParsedHasNoPlus(s: string)
    ensures '+' !in FromString(s).preRelease
  {
    var b := Find(s, '+');
    var front := s[..b];
    assert '+' !in front;
    assert '+' !in Split(s).preRelease;
    hide Tokens, Split, Number, Numeric;
  }

  lemma RoundTripIff(v: SemVer)
    ensures FromString(ToString(v)) == v <==> '+' !in v.preRelease
  {
    hide FromString, ToString;
    ParsedHasNoPlus(ToString(v));
    if '+' !in v.preRelease {
      RoundTrip(v);
    }
  }

  /** Printing what was parsed and parsing it again changes nothing, whatever the text was. */
  lemma ParseIsStable(s: string)
    ensures FromString(ToString(FromString(s))) == FromString(s)
  {
    hide FromString, ToString;
    ParsedHasNoPlus(s);
    RoundTrip(FromString(s));
  }

  // ----- what texts mean -----

  /** Numbers from 2^63 on all read as the largest 32-bit number, smaller ones keep their low 32 bits. */
  lemma NumberIs(t: string)
    ensures Value(t, 10) < TWO63 ==> Number(t) == Value(t, 10) % TWO32
    ensures Value(t, 10) >= TWO63 ==> Number(t) == 0xFFFF_FFFF
  {
  }

  /** A number is one or more of the ten digits. */
  lemma NumericIff(t: string)
    ensures Numeric(t) <==> |t| > 0 && forall c :: c in t ==> c in "0123456789"
  {
    forall c ensures IsDigit(c) <==> c in "0123456789" {
      DigitIff(c);
    }
  }

  lemma DigitIff(c: char)
    ensures IsDigit(c) <==> c in "0123456789"
  {
    if IsDigit(c) {
      assert "0123456789"[c as int - '0' as int] == c;
    }
  }

  /** Texts that are not numbers make the version 0.0.0, wherever they stand. */
  lemma NotThreeNumbers(x: string, y: string, z: string)
    requires !Numeric(x) || !Numeric(y) || !Numeric(z)
    requires forall c :: c in x + y + z ==> c !in "+-."
    requires x != "" && y != "" && z != ""
    ensures FromString(x + "." + y + "." + z) == ZERO
  {
    var s := x + "." + (y + "." + z);
    assert s == x + "." + y + "." + z;
    assert forall c :: c in x || c in y || c in z ==> c in x + y + z;
    assert '.' in "+-." && '+' in "+-." && '-' in "+-." by { assert "+-."[0] == '+' && "+-."[1] == '-' && "+-."[2] == '.'; }
    PlainText(s);
    TokenFirst(x, y + "." + z);
    TokenFirst(y, z);
    TokenLast(z);
    hide Tokens, Split, Numeric, Number;
  }

  lemma NumericHasNo(t: string, c: char)
    requires Numeric(t) && !IsDigit(c)
    ensures c !in t
  {
  }

  lemma PlainText(s: string)
    requires '+' !in s && '-' !in s
    ensures Split(s) == Parts(s, "", "")
  {
    SplitParts(s, "", "");
    assert s + Suffix('-', "") + Suffix('+', "") == s;
    hide Split;
  }

  lemma TokensOf(x: string, y: string, z: string)
    requires Numeric(x) && Numeric(y) && Numeric(z)
    ensures Tokens(x + "." + y + "." + z) == [x, y, z]
    ensures Tokens(x + "." + y + "." + z + ".") == [x, y, z]
    ensures Tokens(x + "." + y) == [x, y]
  {
    NumericHasNo(x, '.');
    NumericHasNo(y, '.');
    NumericHasNo(z, '.');
    hide Numeric;
    assert x + "." + y + "." + z == x + "." + (y + "." + z);
    assert x + "." + y + "." + z + "." == x + "." + (y + "." + (z + "." + ""));
    TokenFirst(x, y + "." + z);
    TokenFirst(y, z);
    TokenLast(z);
    TokenFirst(x, y + "." + (z + "." + ""));
    TokenFirst(y, z + "." + "");
    TokenFirst(z, "");
    assert Tokens("") == [];
    TokenFirst(x, y);
    TokenLast(y);
    hide Tokens;
  }

  /** Three digit strings are read left to right as major, minor and patch, leading zeros and one trailing dot
      included; two are not a version. */
  lemma ThreeNumbersRead(x: string, y: string, z: string)
    requires Numeric(x) && Numeric(y) && Numeric(z)
    ensures FromString(x + "." + y + "." + z) == SemVer(Number(x), Number(y), Number(z), "", "")
    ensures FromString(x + "." + y + "." + z + ".") == SemVer(Number(x), Number(y), Number(z), "", "")
    ensures FromString(x + "." + y) == ZERO
  {
    TokensOf(x, y, z);
    NumericHasNo(x, '+'); NumericHasNo(y, '+'); NumericHasNo(z, '+');
    NumericHasNo(x, '-'); NumericHasNo(y, '-'); NumericHasNo(z, '-');
    PlainText(x + "." + y + "." + z);
    PlainText(x + "." + y + "." + z + ".");
    PlainText(x + "." + y);
    hide Tokens, Split, Numeric, Number;
  }

  /** A printed version, spelled out. */
  lemma PrintedExample()
    ensures ToString(SemVer(1, 2, 3, "alpha", "b5")) == "1.2.3-alpha+b5"
    ensures FromString("1.2.3-alpha+b5") == SemVer(1, 2, 3, "alpha", "b5")
  {
    var v := SemVer(1, 2, 3, "alpha", "b5");
    assert Print(1, 10) == "1" && Print(2, 10) == "2" && Print(3, 10) == "3";
    assert Triple(1, 2, 3) == "1.2.3";
    assert ToString(v) == "1.2.3-alpha+b5";
    hide FromString;
    RoundTrip(v);
  }

  // ----- order -----

  function Compare(a: SemVer, b: SemVer): int {
    if a.major != b.major then (if a.major < b.major then -1 else 1)
    else if a.minor != b.minor then (if a.minor < b.minor then -1 else 1)
    else if a.patch != b.patch then (if a.patch < b.patch then -1 else 1)
    else if a.preRelease == "" && b.preRelease != "" then 1
    else if a.preRelease != "" && b.preRelease == "" then -1
    else if a.preRelease != b.preRelease then (if Strings.Less(a.preRelease, b.preRelease) then -1 else 1)
    else 0
  }

  function Core(v: SemVer): nat {
    (v.major * TWO32 + v.minor) * TWO32 + v.patch
  }

  /** The numbers decide first; then a release is above its pre-releases, which are in the order of their texts. */
  ghost predicate Precedes(a: SemVer, b: SemVer) {
    || Core(a) < Core(b)
    || (Core(a) == Core(b) && a.preRelease != "" && (b.preRelease == "" || Strings.Before(a.preRelease, b.preRelease)))
  }

  lemma CompareIsPrecedence(a: SemVer, b: SemVer)
    ensures Compare(a, b) == -1 || Compare(a, b) == 0 || Compare(a, b) == 1
    ensures Compare(a, b) == -1 <==> Precedes(a, b)
    ensures Compare(a, b) == 1 <==> Precedes(b, a)
  {
    hide Strings.Less, Strings.Before, Core;
    Strings.LessTotal(a.preRelease, b.preRelease);
    Strings.LessIff(a.preRelease, b.preRelease);
    Strings.LessIff(b.preRelease, a.preRelease);
    CoreOrder(a, b);
    CoreOrder(b, a);
  }

  lemma CoreOrder(a: SemVer, b: SemVer)
    ensures Core(a) < Core(b) <==>
            a.major < b.major || (a.major == b.major && (a.minor < b.minor ||
                                                         (a.minor == b.minor && a.patch < b.patch)))
  {
  }

  /** Build metadata does not matter, and nothing else is ignored. */
  lemma CompareEqualIff(a: SemVer, b: SemVer)
    ensures Compare(a, b) == 0 <==> a.(buildMetadata := "") == b.(buildMetadata := "")
  {
  }

  lemma CompareAntisymmetric(a: SemVer, b: SemVer)
    ensures Compare(a, b) == -Compare(b, a)
  {
    hide Strings.Less;
    Strings.LessTotal(a.preRelease, b.preRelease);
  }

  lemma CompareTransitive(a: SemVer, b: SemVer, c: SemVer)
    requires Compare(a, b) <= 0 && Compare(b, c) <= 0
    ensures Compare(a, c) <= 0
    ensures Compare(a, b) < 0 || Compare(b, c) < 0 ==> Compare(a, c) < 0
  {
    hide Strings.Less;
    if Strings.Less(a.preRelease, b.preRelease) && Strings.Less(b.preRelease, c.preRelease) {
      Strings.LessTransitive(a.preRelease, b.preRelease, c.preRelease);
    }
    Strings.LessTotal(a.preRelease, b.preRelease);
    Strings.LessTotal(a.preRelease, c.preRelease);
    Strings.LessTotal(b.preRelease, c.preRelease);
  }

  // ----- package versions -----

  function VersionToString(v: PackageTypes.Version): string {
    Triple(v.major, v.minor, v.patch)
  }

  /** A component that does not fit 32 bits keeps the default. */
  function Component(text: string, default: uint32): uint32 {
    var r := FromChars32(text);
    if r.Some? then r.value else default
  }

  /** What the expression (\d+)\.(\d+)\.(\d+) would have to capture: the text before, between and after
      the first two dots. */
  function Groups(s: string): (string, string, string) {
    var i := Find(s, '.');
    var rest := if i < |s| then s[i + 1..] else "";
    var j := Find(rest, '.');
    (s[..i], rest[..j], if j < |rest| then rest[j + 1..] else "")
  }

  /** Anything that is not three groups of digits gives the default version 1.0.0. */
  function StringToVersion(s: string): PackageTypes.Version {
    var (a, b, c) := Groups(s);
    if Numeric(a) && Numeric(b) && Numeric(c) then
      PackageTypes.Version(Component(a, 1), Component(b, 0), Component(c, 0))
    else PackageTypes.Version(1, 0, 0)
  }

  lemma GroupsOf(x: string, y: string, z: string)
    requires '.' !in x && '.' !in y
    ensures Groups(x + "." + y + "." + z) == (x, y, z)
  {
    var rest := y + ['.'] + z;
    var s := x + ['.'] + rest;
    assert x + "." + y + "." + z == s;
    FindSplit(x, '.', rest);
    FindSplit(y, '.', z);
    assert s[..|x|] == x && s[|x| + 1..] == rest;
    assert rest[..|y|] == y && rest[|y| + 1..] == z;
    hide Find;
  }

  lemma ComponentPrinted(n: nat, default: uint32)
    ensures Numeric(Print(n, 10)) && Component(Print(n, 10), default) == if n < TWO32 then n else default
  {
    PrintParses(n, 10);
    Uint32ReadsBack(n);
    hide Print, FromChars32;
  }

  /** A number that does not fit 32 bits is replaced by that of version 1.0.0, the others are kept. */
  lemma PackageVersionRead(a: nat, b: nat, c: nat)
    ensures StringToVersion(Triple(a, b, c)) ==
            PackageTypes.Version(if a < TWO32 then a else 1, if b < TWO32 then b else 0, if c < TWO32 then c else 0)
  {
    hide Groups, Print, Component, Numeric;
    PrintedHas(a, '.');
    PrintedHas(b, '.');
    GroupsOf(Print(a, 10), Print(b, 10), Print(c, 10));
    ComponentPrinted(a, 1);
    ComponentPrinted(b, 0);
    ComponentPrinted(c, 0);
  }

  /** Anything but three numbers is version 1.0.0. */
  lemma MalformedPackageVersion(x: string, y: string, z: string)
    requires '.' !in x && '.' !in y && (!Numeric(x) || !Numeric(y) || !Numeric(z))
    ensures StringToVersion(x + "." + y + "." + z) == PackageTypes.Version(1, 0, 0)
  {
    hide Numeric, Groups, Component;
    GroupsOf(x, y, z);
  }

  lemma PackageVersionRoundTrip(v: PackageTypes.Version)
    ensures StringToVersion(VersionToString(v)) == v
  {
    hide StringToVersion, Triple;
    PackageVersionRead(v.major, v.minor, v.patch);
  }
}
