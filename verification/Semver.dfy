/**
 The version order of `internal/semver/compare.go`.

 `Compare` is the precedence of section 11 of Semantic Versioning 2.0.0, as the semver library
 computes it.  `IsVersionUpgradable` refines it: on equal precedence it reads build metadata as
 integers, which section 10 says to ignore.
 */
module Semver {
  import opened Wrappers

  /** One dot-separated pre-release identifier. */
  datatype Identifier = Numeric(value: nat) | Alphanumeric(text: string)

  /** A parsed version; `original` is the text it was parsed from. */
  datatype Version = Version(
    major: nat,
    minor: nat,
    patch: nat,
    prerelease: seq<Identifier>,
    metadata: string,
    original: string)

  // ---------------------------------------------------------------- precedence

  function CompareNat(a: nat, b: nat): int {
    if a < b then -1 else if a > b then 1 else 0
  }

  function CompareText(a: string, b: string): int {
    if a == "" || b == "" then CompareNat(|a|, |b|)
    else if a[0] != b[0] then CompareNat(a[0] as nat, b[0] as nat)
    else CompareText(a[1..], b[1..])
  }

  function CompareIdentifier(a: Identifier, b: Identifier): int {
    match (a, b)
    case (Numeric(x), Numeric(y)) => CompareNat(x, y)
    case (Numeric(_), Alphanumeric(_)) => -1
    case (Alphanumeric(_), Numeric(_)) => 1
    case (Alphanumeric(x), Alphanumeric(y)) => CompareText(x, y)
  }

  function CompareIdentifiers(a: seq<Identifier>, b: seq<Identifier>): int {
    if a == [] || b == [] then CompareNat(|a|, |b|)
    else if CompareIdentifier(a[0], b[0]) != 0 then CompareIdentifier(a[0], b[0])
    else CompareIdentifiers(a[1..], b[1..])
  }

  /** A version without pre-release identifiers is above every pre-release of it. */
  function ComparePrerelease(a: seq<Identifier>, b: seq<Identifier>): int {
    if a == [] && b == [] then 0
    else if a == [] then 1
    else if b == [] then -1
    else CompareIdentifiers(a, b)
  }

  function Compare(a: Version, b: Version): int {
    if a.major != b.major then CompareNat(a.major, b.major)
    else if a.minor != b.minor then CompareNat(a.minor, b.minor)
    else if a.patch != b.patch then CompareNat(a.patch, b.patch)
    else ComparePrerelease(a.prerelease, b.prerelease)
  }

  lemma {:induction false} CompareTextOrder(a: string, b: string, c: string)
    ensures CompareText(a, b) == -CompareText(b, a)
    ensures CompareText(a, b) == 0 <==> a == b
    ensures CompareText(a, b) <= 0 && CompareText(b, c) <= 0 ==>
              CompareText(a, c) <= 0 && (CompareText(a, c) == 0 ==> CompareText(a, b) == 0 && CompareText(b, c) == 0)
  {
    if a != "" && b != "" && a[0] == b[0] {
      CompareTextOrder(a[1..], b[1..], if c == "" then "" else c[1..]);
      assert a == [a[0]] + a[1..] && b == [b[0]] + b[1..];
    }
  }

  lemma {:induction false} CompareIdentifiersOrder(a: seq<Identifier>, b: seq<Identifier>, c: seq<Identifier>)
    ensures CompareIdentifiers(a, b) == -CompareIdentifiers(b, a)
    ensures CompareIdentifiers(a, a) == 0
    ensures CompareIdentifiers(a, b) <= 0 && CompareIdentifiers(b, c) <= 0 ==>
              CompareIdentifiers(a, c) <= 0 &&
              (CompareIdentifiers(a, c) == 0 ==> CompareIdentifiers(a, b) == 0 && CompareIdentifiers(b, c) == 0)
  {
    if a != [] {
      CompareIdentifiersOrder(a[1..], if b == [] then [] else b[1..], if c == [] then [] else c[1..]);
      CompareIdentifierOrder(a[0], a[0], a[0]);
      if b != [] {
        CompareIdentifierOrder(a[0], b[0], if c == [] then b[0] else c[0]);
      }
    }
  }

  lemma CompareIdentifierOrder(a: Identifier, b: Identifier, c: Identifier)
    ensures CompareIdentifier(a, b) == -CompareIdentifier(b, a)
    ensures CompareIdentifier(a, a) == 0
    ensures CompareIdentifier(a, b) <= 0 && CompareIdentifier(b, c) <= 0 ==>
              CompareIdentifier(a, c) <= 0 &&
              (CompareIdentifier(a, c) == 0 ==> CompareIdentifier(a, b) == 0 && CompareIdentifier(b, c) == 0)
  {
    var text := (i: Identifier) => if i.Alphanumeric? then i.text else "";
    CompareTextOrder(text(a), text(b), text(c));
    CompareTextOrder(text(a), text(a), text(a));
  }

  /** Precedence is a total preorder: signs mirror, and it is transitive with strictness kept. */
  lemma CompareTotalPreorder(a: Version, b: Version, c: Version)
    ensures Compare(a, b) == -Compare(b, a)
    ensures Compare(a, a) == 0
    ensures Compare(a, b) <= 0 && Compare(b, c) <= 0 ==>
              Compare(a, c) <= 0 && (Compare(a, c) == 0 ==> Compare(a, b) == 0 && Compare(b, c) == 0)
  {
    CompareIdentifiersOrder(a.prerelease, b.prerelease, c.prerelease);
  }

  // ---------------------------------------------------------------- section 11, word by word

  /** At the first difference the character is lower, or the text ends. */
  ghost predicate LowerText(a: string, b: string) {
    exists k :: 0 <= k <= |a| && k < |b| && a[..k] == b[..k] && (k < |a| ==> a[k] < b[k])
  }

  /** Identifiers of digits compare as numbers and are below all others. */
  ghost predicate LowerIdentifier(a: Identifier, b: Identifier) {
    match (a, b)
    case (Numeric(x), Numeric(y)) => x < y
    case (Numeric(_), Alphanumeric(_)) => true
    case (Alphanumeric(_), Numeric(_)) => false
    case (Alphanumeric(x), Alphanumeric(y)) => LowerText(x, y)
  }

  /** At the first difference the identifier is lower, or there are no more of them. */
  ghost predicate LowerIdentifiers(a: seq<Identifier>, b: seq<Identifier>) {
    exists k :: 0 <= k <= |a| && k < |b| && a[..k] == b[..k] && (k < |a| ==> LowerIdentifier(a[k], b[k]))
  }

  /** Section 11 of Semantic Versioning 2.0.0: major, minor, patch, and then a pre-release is lower. */
  ghost predicate LowerPrecedence(a: Version, b: Version) {
    || a.major < b.major
    || (a.major == b.major && a.minor < b.minor)
    || (a.major == b.major && a.minor == b.minor && a.patch < b.patch)
    || (a.major == b.major && a.minor == b.minor && a.patch == b.patch &&
        a.prerelease != [] && (b.prerelease == [] || LowerIdentifiers(a.prerelease, b.prerelease)))
  }

  lemma {:induction false} TextComparesLower(a: string, b: string)
    ensures CompareText(a, b) < 0 <==> LowerText(a, b)
  {
    if a == "" {
      assert b != "" ==> a[..0] == b[..0];
    } else if b != "" && a[0] != b[0] {
      assert a[..0] == b[..0];
      assert forall k :: 0 < k <= |a| && k <= |b| && a[..k] == b[..k] ==> a[..k][0] == b[..k][0];
    } else if b != "" {
      TextComparesLower(a[1..], b[1..]);
      if LowerText(a[1..], b[1..]) {
        var k :| 0 <= k <= |a[1..]| && k < |b[1..]| && a[1..][..k] == b[1..][..k] && (k < |a[1..]| ==> a[1..][k] < b[1..][k]);
        assert a[..k + 1] == [a[0]] + a[1..][..k] && b[..k + 1] == [b[0]] + b[1..][..k];
      }
      if LowerText(a, b) {
        var k :| 0 <= k <= |a| && k < |b| && a[..k] == b[..k] && (k < |a| ==> a[k] < b[k]);
        assert k > 0 && a[1..][..k - 1] == a[..k][1..] && b[1..][..k - 1] == b[..k][1..];
      }
    }
  }

  lemma IdentifierComparesLower(a: Identifier, b: Identifier)
    ensures CompareIdentifier(a, b) < 0 <==> LowerIdentifier(a, b)
    ensures CompareIdentifier(a, b) == 0 <==> a == b
  {
    if a.Alphanumeric? && b.Alphanumeric? {
      TextComparesLower(a.text, b.text);
      CompareTextOrder(a.text, b.text, a.text);
    }
  }

  lemma {:induction false} IdentifiersCompareLower(a: seq<Identifier>, b: seq<Identifier>)
    ensures CompareIdentifiers(a, b) < 0 <==> LowerIdentifiers(a, b)
  {
    if a == [] {
      assert b != [] ==> a[..0] == b[..0];
    } else if b != [] && a[0] != b[0] {
      IdentifierComparesLower(a[0], b[0]);
      assert a[..0] == b[..0];
      assert forall k :: 0 < k <= |a| && k <= |b| && a[..k] == b[..k] ==> a[..k][0] == b[..k][0];
    } else if b != [] {
      IdentifierComparesLower(a[0], b[0]);
      IdentifiersCompareLower(a[1..], b[1..]);
      if LowerIdentifiers(a[1..], b[1..]) {
        var k :| 0 <= k <= |a[1..]| && k < |b[1..]| && a[1..][..k] == b[1..][..k] &&
                 (k < |a[1..]| ==> LowerIdentifier(a[1..][k], b[1..][k]));
        assert a[..k + 1] == [a[0]] + a[1..][..k] && b[..k + 1] == [b[0]] + b[1..][..k];
      }
      if LowerIdentifiers(a, b) {
        var k :| 0 <= k <= |a| && k < |b| && a[..k] == b[..k] && (k < |a| ==> LowerIdentifier(a[k], b[k]));
        assert k > 0;
        assert a[1..][..k - 1] == a[..k][1..] && b[1..][..k - 1] == b[..k][1..];
      }
    }
  }

  /** The comparison is the precedence of section 11. */
  lemma CompareIsPrecedence(a: Version, b: Version)
    ensures Compare(a, b) < 0 <==> LowerPrecedence(a, b)
    ensures Compare(a, b) > 0 <==> LowerPrecedence(b, a)
  {
    IdentifiersCompareLower(a.prerelease, b.prerelease);
    IdentifiersCompareLower(b.prerelease, a.prerelease);
    CompareTotalPreorder(a, b, a);
  }

  // ---------------------------------------------------------------- metadata

  function ParseDigits(s: string, acc: nat): (r: Option<nat>)
  {
    if s == "" then Some(acc)
    else if '0' <= s[0] <= '9' then ParseDigits(s[1..], 10 * acc + (s[0] as nat - '0' as nat))
    else None
  }

  const MAX_INT: int := 0x7fff_ffff_ffff_ffff

  /** `strconv.Atoi` on a 64-bit platform: optional sign, at least one digit, no overflow. */
  function Atoi(s: string): (r: Option<int>)
    ensures r.Some? ==> s != "" && -MAX_INT - 1 <= r.value <= MAX_INT
  {
    var signed := s != "" && (s[0] == '-' || s[0] == '+');
    var digits := if signed then s[1..] else s;
    if digits == "" then None
    else
      match ParseDigits(digits, 0)
      case None => None
      case Some(n) =>
        var value := if signed && s[0] == '-' then 0 - (n as int) else n as int;
        if -MAX_INT - 1 <= value <= MAX_INT then Some(value) else None
  }

  /** A number in decimal digits. */
  function Decimal(n: nat): string {
    if n < 10 then [('0' as nat + n) as char] else Decimal(n / 10) + [('0' as nat + n % 10) as char]
  }

  lemma {:induction false} ParseDigitsConcat(s: string, t: string, acc: nat)
    ensures ParseDigits(s + t, acc) ==
            match ParseDigits(s, acc) case None => None case Some(n) => ParseDigits(t, n)
    decreases |s|
  {
    if s == "" {
      assert s + t == t;
    } else {
      assert (s + t)[0] == s[0] && (s + t)[1..] == s[1..] + t;
      if '0' <= s[0] <= '9' {
        ParseDigitsConcat(s[1..], t, 10 * acc + (s[0] as nat - '0' as nat));
      }
    }
  }

  lemma {:induction false} ParseDecimal(n: nat)
    ensures ParseDigits(Decimal(n), 0) == Some(n)
    ensures Decimal(n) != "" && '0' <= Decimal(n)[0] <= '9'
  {
    var last := [('0' as nat + n % 10) as char];
    assert last[1..] == "";
    if n >= 10 {
      ParseDecimal(n / 10);
      ParseDigitsConcat(Decimal(n / 10), last, 0);
    }
  }

  /** Integers that fit 64 bits are read back from their decimal digits, with or without a sign. */
  lemma AtoiReadsDecimals(n: nat)
    ensures Atoi(Decimal(n)) == Atoi("+" + Decimal(n)) == if n <= MAX_INT then Some(n) else None
    ensures if n <= MAX_INT + 1 then Atoi("-" + Decimal(n)).Some? && Atoi("-" + Decimal(n)).value + n == 0
            else Atoi("-" + Decimal(n)) == None
  {
    ParseDecimal(n);
    SignedDigits('+', Decimal(n));
    SignedDigits('-', Decimal(n));
  }

  lemma SignedDigits(sign: char, digits: string)
    ensures ([sign] + digits)[0] == sign && ([sign] + digits)[1..] == digits
  {
  }

  predicate IsUpgradableMetadata(installed: Version, desired: Version) {
    if desired.metadata == installed.metadata then false
    else if desired.metadata == "" then false
    else if installed.metadata == "" then true
    else
      match (Atoi(desired.metadata), Atoi(installed.metadata))
      case (Some(d), Some(i)) => i < d
      case _ => installed.metadata != desired.metadata
  }

  predicate IsVersionUpgradable(installed: Version, desired: Version) {
    Compare(desired, installed) > 0 ||
    (Compare(desired, installed) == 0 && IsUpgradableMetadata(installed, desired))
  }

  /** The string form; `parse` is the semver library's parser. */
  predicate IsUpgradable(parse: string -> Option<Version>, installed: string, desired: string) {
    match (parse(installed), parse(desired))
    case (Some(i), Some(d)) => IsVersionUpgradable(i, d)
    case _ => installed != desired
  }

  // ---------------------------------------------------------------- what the order is

  /** Metadata that is empty or an integer: the form the repository's packages use. */
  predicate Ordinary(v: Version) {
    v.metadata == "" || Atoi(v.metadata).Some?
  }

  /** The two versions differ only in metadata, and that metadata is not comparable. */
  predicate Clash(a: Version, b: Version) {
    && Compare(a, b) == 0
    && a.metadata != b.metadata
    && a.metadata != "" && b.metadata != ""
    && (Atoi(a.metadata).None? || Atoi(b.metadata).None?)
  }

  /** The order refines precedence: a difference in precedence decides, in one direction only. */
  lemma UpgradeRefinesPrecedence(a: Version, b: Version)
    ensures Compare(a, b) < 0 ==> IsVersionUpgradable(a, b) && !IsVersionUpgradable(b, a)
    ensures IsVersionUpgradable(a, b) ==> Compare(a, b) <= 0
    ensures !IsVersionUpgradable(a, a)
  {
    CompareTotalPreorder(a, b, a);
  }

  /** Each of two versions is an upgrade of the other exactly when their metadata clashes. */
  lemma MutualUpgradeIffClash(a: Version, b: Version)
    ensures IsVersionUpgradable(a, b) && IsVersionUpgradable(b, a) <==> Clash(a, b)
  {
    CompareTotalPreorder(a, b, a);
  }

  /** Textual metadata does clash: 1.0.0+a and 1.0.0+b are upgrades of each other. */
  lemma TextualMetadataClashes()
    ensures exists a, b :: Clash(a, b) && IsVersionUpgradable(a, b) && IsVersionUpgradable(b, a)
  {
    var a := Version(1, 0, 0, [], "a", "1.0.0+a");
    var b := Version(1, 0, 0, [], "b", "1.0.0+b");
    assert Atoi(a.metadata).None? && Atoi(b.metadata).None?;
    MutualUpgradeIffClash(a, b);
  }

  /** Unlike in section 10, builds of one version are ordered by their number; any build is above none. */
  lemma BuildNumbersOrder(a: Version, b: Version, m: nat, n: nat)
    requires Compare(a, b) == 0 && m <= MAX_INT && n <= MAX_INT
    requires a.metadata == Decimal(m) && (b.metadata == Decimal(n) || b.metadata == "")
    ensures b.metadata == Decimal(n) ==> (IsVersionUpgradable(a, b) <==> m < n)
    ensures b.metadata == "" ==> IsVersionUpgradable(b, a) && !IsVersionUpgradable(a, b)
  {
    CompareTotalPreorder(a, b, a);
    AtoiReadsDecimals(m);
    AtoiReadsDecimals(n);
    ParseDecimal(m);
  }

  ghost predicate NotLess(a: Version, b: Version) { !IsVersionUpgradable(a, b) }

  /** Irreflexive, asymmetric and transitive, with transitive incomparability. */
  ghost predicate StrictWeakOrderOn(s: set<Version>) {
    && (forall a :: a in s ==> NotLess(a, a))
    && (forall a, b :: a in s && b in s && IsVersionUpgradable(a, b) ==> NotLess(b, a))
    && (forall a, b, c :: a in s && b in s && c in s && NotLess(a, b) && NotLess(b, c) ==> NotLess(a, c))
  }

  lemma NotLessTransitive(a: Version, b: Version, c: Version)
    requires !Clash(a, b) && !Clash(b, c) && !Clash(a, c)
    ensures NotLess(a, b) && NotLess(b, c) ==> NotLess(a, c)
  {
    CompareTotalPreorder(a, b, c);
    CompareTotalPreorder(c, b, a);
    CompareTotalPreorder(a, c, b);
  }

  /** The order sorts a set of versions exactly when no two of them clash. */
  lemma StrictWeakOrderIffNoClash(s: set<Version>)
    ensures StrictWeakOrderOn(s) <==> forall a, b :: a in s && b in s ==> !Clash(a, b)
  {
    if forall a, b :: a in s && b in s ==> !Clash(a, b) {
      forall a, b | a in s && b in s
        ensures IsVersionUpgradable(a, b) ==> NotLess(b, a)
        ensures NotLess(a, a)
      {
        MutualUpgradeIffClash(a, b);
        UpgradeRefinesPrecedence(a, a);
      }
      forall a, b, c | a in s && b in s && c in s && NotLess(a, b) && NotLess(b, c)
        ensures NotLess(a, c)
      {
        NotLessTransitive(a, b, c);
      }
    } else {
      var a, b :| a in s && b in s && Clash(a, b);
      MutualUpgradeIffClash(a, b);
    }
  }

  /** Versions with empty or integer metadata never clash. */
  lemma OrdinaryVersionsAreOrdered(s: set<Version>)
    requires forall v :: v in s ==> Ordinary(v)
    ensures StrictWeakOrderOn(s)
  {
    StrictWeakOrderIffNoClash(s);
  }
}
