/** Server versions: the grammar of version strings and the number they are coded as. */
module BuildInfo {
  import opened Strings
  import opened Wrappers

  const UNKNOWN_VERSION_ID := -1
  const MAJOR_VERSION_MULTIPLIER := 10000
  const MINOR_VERSION_MULTIPLIER := 100
  const SNAPSHOT := Ascii("-SNAPSHOT")
  const BETA := Ascii("-BETA-")
  const DOT: CodeUnit := 0x2E
  const DASH: CodeUnit := 0x2D

  // ---------------------------------------------------------------- numbers

  predicate IsDigit(c: CodeUnit) {
    0x30 <= c <= 0x39
  }

  predicate IsWord(c: CodeUnit) {
    IsDigit(c) || 0x61 <= c <= 0x7A || 0x41 <= c <= 0x5A || c == 0x5F
  }

  predicate IsLineEnd(c: CodeUnit) {
    c == 0x0A || c == 0x0D || c == 0x2028 || c == 0x2029
  }

  predicate IsNumber(s: JsString) {
    s != [] && forall i :: 0 <= i < |s| ==> IsDigit(s[i])
  }

  function DigitValue(c: CodeUnit): nat
    requires IsDigit(c)
  {
    c - 0x30
  }

  function Value(s: JsString): nat
    requires IsNumber(s)
  {
    var n := |s| - 1;
    (if n == 0 then 0 else 10 * Value(s[..n])) + DigitValue(s[n])
  }

  function Decimal(n: nat): (s: JsString)
    ensures IsNumber(s)
  {
    var last: JsString := [0x30 + n % 10];
    if n < 10 then last else Decimal(n / 10) + last
  }

  lemma {:induction false} ValueOfDecimal(n: nat)
    ensures Value(Decimal(n)) == n
  {
    if n < 10 {
    } else {
      ValueOfDecimal(n / 10);
      var s := Decimal(n);
      assert s[..|s| - 1] == Decimal(n / 10);
    }
  }

  function TenTo(n: nat): nat {
    if n == 0 then 1 else 10 * TenTo(n - 1)
  }

  lemma TenTimes(x: nat, y: nat)
    ensures x * (10 * y) == 10 * (x * y)
  {
  }

  lemma ValueSnoc(s: JsString, d: CodeUnit)
    requires IsDigit(d) && (s == [] || IsNumber(s))
    ensures IsNumber(s + [d])
    ensures Value(s + [d]) == (if s == [] then 0 else 10 * Value(s)) + (d - 0x30)
  {
    assert (s + [d])[..|s|] == s;
  }

  /**
    Numbers are decimal: a digit stands for itself, and digits behind a number multiply it by
    ten each.
   */
  lemma {:induction false} ValueOfConcat(a: JsString, b: JsString)
    requires IsNumber(a) && IsNumber(b)
    ensures |a| == 1 ==> Value(a) == a[0] - 0x30
    ensures IsNumber(a + b) && Value(a + b) == Value(a) * TenTo(|b|) + Value(b)
    decreases |b|
  {
    var n := |b| - 1;
    var front, d := b[..n], b[n];
    assert b == front + [d];
    ValueSnoc(front, d);
    if n == 0 {
      assert a + b == a + [d];
      ValueSnoc(a, d);
      assert TenTo(1) == 10 * TenTo(0);
    } else {
      ValueOfConcat(a, front);
      assert a + b == (a + front) + [d];
      ValueSnoc(a + front, d);
      TenTimes(Value(a), TenTo(n));
    }
  }

  // ---------------------------------------------------------------- the grammar

  /** One way to read a version string as the pattern does. */
  datatype Reading = Reading(
    major: JsString,
    minor: JsString,
    patch: Option<JsString>,
    word: Option<JsString>,
    snapshot: bool,
    beta: Option<CodeUnit>)

  ghost predicate Digits(s: JsString) {
    s != [] && forall i :: 0 <= i < |s| ==> 0x30 <= s[i] <= 0x39
  }

  /** Letters, digits and the underscore. */
  ghost predicate WordUnits(s: JsString) {
    s != [] && forall i :: 0 <= i < |s| ==>
      0x30 <= s[i] <= 0x39 || 0x61 <= s[i] <= 0x7A || 0x41 <= s[i] <= 0x5A || s[i] == 0x5F
  }

  /** Anything but the ends of lines. */
  ghost predicate InLine(c: CodeUnit) {
    c != 0x0A && c != 0x0D && c != 0x2028 && c != 0x2029
  }

  ghost predicate Proper(r: Reading) {
    && Digits(r.major) && Digits(r.minor) && (r.patch.Some? ==> Digits(r.patch.value))
    && (r.word.Some? ==> WordUnits(r.word.value))
    && (r.beta.Some? ==> InLine(r.beta.value))
  }

  function WordText(word: Option<JsString>): JsString {
    if word.Some? then [0x2D] + word.value else []
  }

  function SnapshotText(snapshot: bool): JsString {
    if snapshot then Ascii("-SNAPSHOT") else []
  }

  function BetaText(beta: Option<CodeUnit>): JsString {
    if beta.Some? then Ascii("-BETA-") + [beta.value] else []
  }

  function SuffixText(r: Reading): JsString {
    WordText(r.word) + SnapshotText(r.snapshot) + BetaText(r.beta)
  }

  function PatchText(patch: Option<JsString>): JsString {
    if patch.Some? then [0x2E] + patch.value else []
  }

  function Text(r: Reading): JsString {
    r.major + ([0x2E] + (r.minor + (PatchText(r.patch) + SuffixText(r))))
  }

  ghost predicate Reads(s: JsString, r: Reading) {
    Proper(r) && s == Text(r)
  }

  /** Length of the longest run of digits at the start. */
  function DigitRun(s: JsString): (n: nat)
    ensures n <= |s| && forall i :: 0 <= i < n ==> IsDigit(s[i])
    ensures n < |s| ==> !IsDigit(s[n])
  {
    if s == [] || !IsDigit(s[0]) then 0 else 1 + DigitRun(s[1..])
  }

  /** A number at the start of a string, as long as possible, and the rest. */
  function TakeNumber(s: JsString): (r: Option<(JsString, JsString)>)
    ensures r.Some? ==> IsNumber(r.value.0) && s == r.value.0 + r.value.1
  {
    var n := DigitRun(s);
    if n == 0 then None else Some((s[..n], s[n..]))
  }

  lemma {:induction false} DigitRunIs(digits: JsString, rest: JsString)
    requires forall i :: 0 <= i < |digits| ==> IsDigit(digits[i])
    requires rest == [] || !IsDigit(rest[0])
    ensures DigitRun(digits + rest) == |digits|
  {
    if digits == [] {
      assert digits + rest == rest;
    } else {
      assert (digits + rest)[1..] == digits[1..] + rest;
      DigitRunIs(digits[1..], rest);
    }
  }

  lemma TakeNumberInverts(digits: JsString, rest: JsString)
    requires IsNumber(digits) && (rest == [] || !IsDigit(rest[0]))
    ensures TakeNumber(digits + rest) == Some((digits, rest))
  {
    DigitRunIs(digits, rest);
    assert (digits + rest)[..|digits|] == digits && (digits + rest)[|digits|..] == rest;
  }

  /** The optional patch and what follows it. */
  function TakePatch(s: JsString): (r: Option<(Option<JsString>, JsString)>)
    ensures r.Some? ==> s == PatchText(r.value.0) + r.value.1 && (r.value.0.Some? ==> IsNumber(r.value.0.value))
  {
    if s == [] || s[0] != DOT then Some((None, s))
    else
      match TakeNumber(s[1..])
      case None => None
      case Some((patch, rest)) =>
        assert s == [DOT] + s[1..];
        Some((Some(patch), rest))
  }

  lemma TakePatchInverts(patch: Option<JsString>, rest: JsString)
    requires patch.Some? ==> IsNumber(patch.value)
    requires rest == [] || rest[0] == DASH
    ensures TakePatch(PatchText(patch) + rest) == Some((patch, rest))
  {
    var s := PatchText(patch) + rest;
    if patch.Some? {
      assert s[1..] == patch.value + rest;
      TakeNumberInverts(patch.value, rest);
    } else {
      assert s == rest;
    }
  }

  /** Major, minor and patch as the digits of the string dictate them, and what is left for the suffix. */
  datatype Split = Split(major: JsString, minor: JsString, patch: Option<JsString>, suffix: JsString)

  function SplitVersion(s: JsString): Option<Split> {
    match TakeNumber(s)
    case None => None
    case Some((major, rest)) =>
      if rest == [] || rest[0] != DOT then None
      else
        match TakeNumber(rest[1..])
        case None => None
        case Some((minor, tail)) =>
          match TakePatch(tail)
          case None => None
          case Some((patch, suffix)) => Some(Split(major, minor, patch, suffix))
  }

  function Joined(sp: Split): JsString {
    sp.major + ([DOT] + (sp.minor + (PatchText(sp.patch) + sp.suffix)))
  }

  /** The suffix starts with a dash or is empty, so it cannot be taken for a patch. */
  lemma SuffixStart(r: Reading)
    ensures SuffixText(r) == [] || SuffixText(r)[0] == DASH
  {
  }

  lemma SplitOfJoined(sp: Split)
    requires IsNumber(sp.major) && IsNumber(sp.minor) && (sp.patch.Some? ==> IsNumber(sp.patch.value))
    requires sp.suffix == [] || sp.suffix[0] == DASH
    ensures SplitVersion(Joined(sp)) == Some(sp)
  {
    var tail := PatchText(sp.patch) + sp.suffix;
    var rest := sp.minor + tail;
    TakeNumberInverts(sp.major, [DOT] + rest);
    assert ([DOT] + rest)[1..] == rest;
    TakeNumberInverts(sp.minor, tail);
    TakePatchInverts(sp.patch, sp.suffix);
  }

  lemma SplitJoins(s: JsString, sp: Split)
    requires SplitVersion(s) == Some(sp)
    ensures IsNumber(sp.major) && IsNumber(sp.minor) && (sp.patch.Some? ==> IsNumber(sp.patch.value))
    ensures s == Joined(sp)
  {
    var (major, rest) := TakeNumber(s).value;
    var dotless := rest[1..];
    var (minor, tail) := TakeNumber(dotless).value;
    var (patch, suffix) := TakePatch(tail).value;
    assert sp == Split(major, minor, patch, suffix);
    assert rest == [DOT] + dotless;
    assert dotless == minor + tail;
  }

  lemma SplitOfReading(r: Reading)
    requires Proper(r)
    ensures SplitVersion(Text(r)) == Some(Split(r.major, r.minor, r.patch, SuffixText(r)))
  {
    SuffixStart(r);
    SplitOfJoined(Split(r.major, r.minor, r.patch, SuffixText(r)));
  }

  /** Although the suffix can be read in several ways, major, minor and patch cannot. */
  lemma ReadingsAgree(s: JsString, r: Reading, q: Reading)
    requires Reads(s, r) && Reads(s, q)
    ensures r.major == q.major && r.minor == q.minor && r.patch == q.patch
  {
    SplitOfReading(r);
    SplitOfReading(q);
  }

  /** A snapshot suffix reads equally well as a word. */
  lemma SuffixIsAmbiguous(r: Reading)
    requires Proper(r) && r.snapshot && r.word.None?
    ensures Reads(Text(r), r) && Reads(Text(r), r.(snapshot := false, word := Some(Ascii("SNAPSHOT"))))
  {
    var q := r.(snapshot := false, word := Some(Ascii("SNAPSHOT")));
    assert WordText(q.word) == SNAPSHOT;
    assert SuffixText(q) == SuffixText(r);
  }

  // ---------------------------------------------------------------- matching the suffix

  predicate IsWordSuffix(t: JsString) {
    t == [] || (|t| > 1 && t[0] == DASH && forall i :: 1 <= i < |t| ==> IsWord(t[i]))
  }

  predicate IsSnapshotSuffix(t: JsString) {
    IsWordSuffix(t) || (EndsWith(t, SNAPSHOT) && IsWordSuffix(t[..|t| - |SNAPSHOT|]))
  }

  predicate IsBetaPart(t: JsString) {
    |t| == |BETA| + 1 && t[..|BETA|] == BETA && !IsLineEnd(t[|BETA|])
  }

  predicate IsSuffix(t: JsString) {
    || IsSnapshotSuffix(t)
    || (var n := |t| - |BETA| - 1; n >= 0 && IsBetaPart(t[n..]) && IsSnapshotSuffix(t[..n]))
  }

  lemma Appended<T>(a: seq<T>, b: seq<T>)
    ensures (a + b)[|a|..] == b && (a + b)[..|a|] == a && |a + b| == |a| + |b|
  {
  }

  lemma SnapshotSuffixOfReading(r: Reading)
    requires Proper(r)
    ensures IsSnapshotSuffix(WordText(r.word) + SnapshotText(r.snapshot))
  {
    var w := WordText(r.word);
    assert IsWordSuffix(w);
    Appended(w, SnapshotText(r.snapshot));
    if !r.snapshot {
      assert w + [] == w;
    }
  }

  lemma SuffixOfReading(r: Reading)
    requires Proper(r)
    ensures IsSuffix(SuffixText(r))
  {
    var front := WordText(r.word) + SnapshotText(r.snapshot);
    SnapshotSuffixOfReading(r);
    Appended(front, BetaText(r.beta));
    if r.beta.Some? {
      Appended(BETA, [r.beta.value]);
      assert IsBetaPart(BetaText(r.beta));
    } else {
      assert front + [] == front;
    }
  }

  lemma ReadingOfWord(t: JsString) returns (word: Option<JsString>)
    requires IsWordSuffix(t)
    ensures t == WordText(word)
    ensures word.Some? ==> WordUnits(word.value)
  {
    if t == [] {
      word := None;
    } else {
      word := Some(t[1..]);
    }
  }

  lemma ReadingOfSnapshot(t: JsString) returns (word: Option<JsString>, snapshot: bool)
    requires IsSnapshotSuffix(t)
    ensures t == WordText(word) + SnapshotText(snapshot)
    ensures word.Some? ==> WordUnits(word.value)
  {
    if IsWordSuffix(t) {
      word := ReadingOfWord(t);
      snapshot := false;
      assert t + [] == t;
    } else {
      var n := |t| - |SNAPSHOT|;
      assert t == t[..n] + t[n..];
      word := ReadingOfWord(t[..n]);
      snapshot := true;
    }
  }

  lemma ReadingOfBeta(t: JsString) returns (beta: Option<CodeUnit>)
    requires IsBetaPart(t)
    ensures t == BetaText(beta) && (beta.Some? ==> InLine(beta.value))
  {
    beta := Some(t[|BETA|]);
    assert t == t[..|BETA|] + [t[|BETA|]];
  }

  lemma ReadingOfSuffix(t: JsString) returns (word: Option<JsString>, snapshot: bool, beta: Option<CodeUnit>)
    requires IsSuffix(t)
    ensures t == WordText(word) + SnapshotText(snapshot) + BetaText(beta)
    ensures word.Some? ==> WordUnits(word.value)
    ensures beta.Some? ==> InLine(beta.value)
  {
    if IsSnapshotSuffix(t) {
      word, snapshot := ReadingOfSnapshot(t);
      beta := None;
    } else {
      var n := |t| - |BETA| - 1;
      var front, back := t[..n], t[n..];
      assert t == front + back;
      word, snapshot := ReadingOfSnapshot(front);
      beta := ReadingOfBeta(back);
    }
  }

  lemma SameDigits(s: JsString)
    ensures IsNumber(s) <==> Digits(s)
  {
  }

  lemma TextOfParts(sp: Split, r: Reading)
    requires r.major == sp.major && r.minor == sp.minor && r.patch == sp.patch && SuffixText(r) == sp.suffix
    ensures Text(r) == Joined(sp)
  {
  }

  lemma ReadingOfSplit(s: JsString, sp: Split) returns (r: Reading)
    requires SplitVersion(s) == Some(sp) && IsSuffix(sp.suffix)
    ensures Reads(s, r)
  {
    var word, snapshot, beta := ReadingOfSuffix(sp.suffix);
    r := Reading(sp.major, sp.minor, sp.patch, word, snapshot, beta);
    SplitJoins(s, sp);
    SameDigits(sp.major);
    SameDigits(sp.minor);
    if sp.patch.Some? {
      SameDigits(sp.patch.value);
    }
    TextOfParts(sp, r);
  }

  // ---------------------------------------------------------------- the code

  function CalculateServerVersion(major: int, minor: int, patch: int): int {
    MAJOR_VERSION_MULTIPLIER * major + MINOR_VERSION_MULTIPLIER * minor + patch
  }

  /** The code of what a reading says; a missing patch counts as zero. */
  function CodeOf(r: Reading): int
    requires IsNumber(r.major) && IsNumber(r.minor) && (r.patch.Some? ==> IsNumber(r.patch.value))
  {
    CalculateServerVersion(Value(r.major), Value(r.minor), if r.patch.Some? then Value(r.patch.value) else 0)
  }

  function CalculateServerVersionFromString(versionString: Option<JsString>): int {
    if versionString.None? then UNKNOWN_VERSION_ID
    else
      match SplitVersion(versionString.value)
      case None => UNKNOWN_VERSION_ID
      case Some(sp) =>
        if !IsSuffix(sp.suffix) then UNKNOWN_VERSION_ID
        else
          assert IsNumber(sp.major) && IsNumber(sp.minor) && (sp.patch.Some? ==> IsNumber(sp.patch.value)) by {
            SplitJoins(versionString.value, sp);
          }
          CalculateServerVersion(Value(sp.major), Value(sp.minor), if sp.patch.Some? then Value(sp.patch.value) else 0)
  }

  /** Every reading of a string gives the code computed from it. */
  lemma CodeOfEveryReading(s: JsString, r: Reading)
    requires Reads(s, r)
    ensures CalculateServerVersionFromString(Some(s)) == CodeOf(r) >= 0
    ensures CodeOf(r) == 10000 * Value(r.major) + 100 * Value(r.minor)
                         + if r.patch.Some? then Value(r.patch.value) else 0
  {
    SplitOfReading(r);
    SuffixOfReading(r);
  }

  /** The unknown version is the answer exactly for no string and for strings outside the grammar. */
  lemma UnknownIffUnreadable(s: Option<JsString>)
    ensures CalculateServerVersionFromString(s) == UNKNOWN_VERSION_ID <==>
              s.None? || forall r :: !Reads(s.value, r)
  {
    if s.Some? {
      if r :| Reads(s.value, r) {
        CodeOfEveryReading(s.value, r);
      }
      var sp := SplitVersion(s.value);
      if sp.Some? && IsSuffix(sp.value.suffix) {
        var r := ReadingOfSplit(s.value, sp.value);
      }
    }
  }

  /** Printing a version and reading it back gives its code, whatever suffix it carries. */
  lemma PrintedVersion(major: nat, minor: nat, patch: nat,
                       word: Option<JsString>, snapshot: bool, beta: Option<CodeUnit>)
    requires Proper(Reading(Decimal(major), Decimal(minor), Some(Decimal(patch)), word, snapshot, beta))
    ensures var r := Reading(Decimal(major), Decimal(minor), Some(Decimal(patch)), word, snapshot, beta);
            CalculateServerVersionFromString(Some(Text(r))) == CalculateServerVersion(major, minor, patch)
  {
    var r := Reading(Decimal(major), Decimal(minor), Some(Decimal(patch)), word, snapshot, beta);
    CodeOfEveryReading(Text(r), r);
    ValueOfDecimal(major);
    ValueOfDecimal(minor);
    ValueOfDecimal(patch);
  }

  datatype Version = Version(major: nat, minor: nat, patch: nat)

  function Code(v: Version): nat {
    CalculateServerVersion(v.major, v.minor, v.patch)
  }

  predicate Codable(v: Version) {
    v.minor < 100 && v.patch < 100
  }

  function Decode(code: nat): Version {
    Version(code / 10000, code / 100 % 100, code % 100)
  }

  lemma TwoDigits(high: nat, low: nat)
    requires low < 100
    ensures (100 * high + low) / 100 == high && (100 * high + low) % 100 == low
  {
  }

  lemma CodeDigits(v: Version)
    requires Codable(v)
    ensures Code(v) / 100 == 100 * v.major + v.minor && Code(v) % 100 == v.patch && Code(v) / 10000 == v.major
  {
    var high := 100 * v.major + v.minor;
    assert Code(v) == 100 * high + v.patch;
    TwoDigits(high, v.patch);
    TwoDigits(v.major, v.minor);
    assert Code(v) / 10000 == Code(v) / 100 / 100;
  }

  /** Taking the code apart gives back the version exactly when minor and patch have at most two digits. */
  lemma DecodeInvertsIffCodable(v: Version)
    ensures Decode(Code(v)) == v <==> Codable(v)
  {
    if Codable(v) {
      CodeDigits(v);
      TwoDigits(v.major, v.minor);
    }
  }

  predicate Less(v: Version, w: Version) {
    || v.major < w.major
    || (v.major == w.major && v.minor < w.minor)
    || (v.major == w.major && v.minor == w.minor && v.patch < w.patch)
  }

  lemma CodesOrderVersions(v: Version, w: Version)
    requires Codable(v) && Codable(w)
    ensures Code(v) < Code(w) <==> Less(v, w)
    ensures Code(v) == Code(w) <==> v == w
  {
  }

  /** Beyond two digits versions collide: every such version shares its code with a codable one. */
  lemma UncodableCollides(v: Version)
    requires !Codable(v)
    ensures Decode(Code(v)) != v && Codable(Decode(Code(v))) && Code(Decode(Code(v))) == Code(v)
  {
  }

  /** No other version has the same code. */
  ghost predicate Unique(v: Version) {
    forall w :: Code(w) == Code(v) ==> w == v
  }

  /** Among all versions only the patches below 0.0.100 have a code of their own. */
  lemma UniqueIffFirstHundred(v: Version)
    ensures Unique(v) <==> v.major == 0 && v.minor == 0 && v.patch < 100
  {
    if v.major > 0 {
      assert Code(Version(v.major - 1, v.minor + 100, v.patch)) == Code(v);
    } else if v.minor > 0 {
      assert Code(Version(0, v.minor - 1, v.patch + 100)) == Code(v);
    } else if v.patch >= 100 {
      assert Code(Version(0, 1, v.patch - 100)) == Code(v);
    }
  }

  /** A version is told from every version of two-digit parts by its code exactly if its own parts have two digits. */
  lemma ToldApartIffCodable(v: Version)
    ensures (forall w :: Codable(w) ==> (Code(v) == Code(w) <==> v == w)) <==> Codable(v)
  {
    if Codable(v) {
      forall w | Codable(w) ensures Code(v) == Code(w) <==> v == w {
        CodesOrderVersions(v, w);
      }
    } else {
      UncodableCollides(v);
    }
  }
}
