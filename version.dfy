/** Versions as three 32-bit integers: parsing from the configuration
    string, rendering, and the major, minor and patch bumps. */
module Versions {
  import opened Wrappers
  import opened Strings
  import opened Configuration

  const I32Min: int := -0x8000_0000
  const I32Max: int := 0x7FFF_FFFF

  /** Rust's `i32`. */
  type I32 = x: int | -0x8000_0000 <= x < 0x8000_0000

  /** `VersionDesignation`: which part of the version a release bumps. */
  datatype VersionDesignation = Major | Minor | Patch

  /** `Version`. */
  datatype Version = Version(major: I32, minor: I32, patch: I32)

  predicate AllDigits(s: string) {
    forall k :: 0 <= k < |s| ==> IsAsciiDigit(s[k])
  }

  /** The value of a string of decimal digits, most significant first. */
  function DigitsValue(s: string): nat
    requires AllDigits(s)
  {
    if |s| == 0 then 0
    else DigitsValue(s[..|s| - 1]) * 10 + (s[|s| - 1] as int - '0' as int)
  }

  /** `str::parse::<i32>`: an optional `+` or `-`, then one or more ASCII
      digits, with a value inside the 32-bit range. */
  function ParseI32(s: string): Option<I32>
  {
    var negative := |s| > 0 && s[0] == '-';
    var digits := if |s| > 0 && (s[0] == '+' || s[0] == '-') then s[1..] else s;
    if |digits| == 0 || !AllDigits(digits) then None
    else
      var n: int := if negative then 0 - DigitsValue(digits) as int else DigitsValue(digits);
      if I32Min <= n <= I32Max then Some(n) else None
  }

  function Digit(d: nat): (c: char)
    requires d < 10
    ensures IsAsciiDigit(c) && c as int - '0' as int == d
  {
    ('0' as int + d) as char
  }

  /** The decimal digits of `n`, without leading zeros. */
  function NatToString(n: nat): (r: string)
    ensures |r| > 0 && AllDigits(r)
    ensures DigitsValue(r) == n
    ensures r[0] == '0' ==> n == 0
    decreases n
  {
    if n < 10 then [Digit(n)]
    else
      var r := NatToString(n / 10) + [Digit(n % 10)];
      assert r[..|r| - 1] == NatToString(n / 10);
      r
  }

  /** The `Display` text of an integer: a `-` for negatives, then the digits. */
  function IntToString(n: int): (r: string)
    ensures |r| > 0
    ensures forall k :: 0 <= k < |r| ==> IsAsciiDigit(r[k]) || r[k] == '-'
    ensures '.' !in r && '\n' !in r
  {
    if n < 0 then "-" + NatToString(-n) else NatToString(n)
  }

  /** `Display` writes no leading zero: a `-` exactly for a negative number,
      then digits that start with `0` only for zero itself. */
  lemma IntToStringNoLeadingZero(n: int)
    ensures IntToString(n)[0] == '-' <==> n < 0
    ensures IntToString(n)[0] == '0' ==> n == 0
    ensures n < 0 ==> |IntToString(n)| > 1 && IntToString(n)[1] != '0'
  {
  }

  function Magnitude(n: int): nat {
    if n < 0 then -n else n
  }

  /** The last character of a rendered integer is its units digit. */
  lemma LastDigitOf(n: int)
    ensures IntToString(n)[|IntToString(n)| - 1] == Digit(Magnitude(n) % 10)
  {
  }

  lemma NatRendersDigits(n: int)
    requires n >= 0
    ensures AllDigits(IntToString(n)) && |IntToString(n)| > 0
  {
  }

  lemma SmallIntToString(n: int)
    ensures 0 <= n < 10 ==> IntToString(n) == [Digit(n)]
  {
  }

  /** Rendering an `i32` and parsing it back gives the same number. */
  lemma ParseIntToString(n: I32)
    ensures ParseI32(IntToString(n)) == Some(n)
  {
    var s := IntToString(n);
    if n < 0 {
      var m: nat := 0 - n as int;
      assert s[1..] == NatToString(m);
    } else {
      assert IsAsciiDigit(s[0]);
    }
  }

  /** `Display for Version`: `major.minor.patch`. */
  function ToString(v: Version): (r: string)
    ensures Split(r, '.') == [IntToString(v.major), IntToString(v.minor), IntToString(v.patch)]
  {
    var parts := [IntToString(v.major), IntToString(v.minor), IntToString(v.patch)];
    JoinThree(parts[0], parts[1], parts[2], '.');
    SplitJoin(parts, '.');
    IntToString(v.major) + "." + IntToString(v.minor) + "." + IntToString(v.patch)
  }

  /** `Version::new`: the first three `.`-separated parts, each parsed as an
      `i32`; `None` where the indexing or a `parse().unwrap()` panics. */
  function NewVersion(s: string): (r: Option<Version>)
    ensures r.Some? <==>
      && |Split(s, '.')| >= 3
      && ParseI32(Split(s, '.')[0]).Some? && ParseI32(Split(s, '.')[1]).Some? && ParseI32(Split(s, '.')[2]).Some?
    ensures r.Some? ==>
      && Some(r.value.major) == ParseI32(Split(s, '.')[0])
      && Some(r.value.minor) == ParseI32(Split(s, '.')[1])
      && Some(r.value.patch) == ParseI32(Split(s, '.')[2])
  {
    var parts := Split(s, '.');
    if |parts| < 3 then None
    else match (ParseI32(parts[0]), ParseI32(parts[1]), ParseI32(parts[2]))
      case (Some(major), Some(minor), Some(patch)) => Some(Version(major, minor, patch))
      case _ => None
  }

  /** Parsing the rendering of a version gives the version back. */
  lemma NewVersionOfToString(v: Version)
    ensures NewVersion(ToString(v)) == Some(v)
  {
    assert Split(ToString(v), '.') == [IntToString(v.major), IntToString(v.minor), IntToString(v.patch)];
    ParseIntToString(v.major);
    ParseIntToString(v.minor);
    ParseIntToString(v.patch);
  }

  /** Parts after the third are never looked at. */
  lemma NewVersionIgnoresExtraParts(s: string, rest: string)
    requires |Split(s, '.')| >= 3
    ensures NewVersion(s + "." + rest) == NewVersion(s)
  {
    SplitConcat(s, rest, '.');
    var parts := Split(s + "." + rest, '.');
    assert parts[..3] == Split(s, '.')[..3];
  }

  /** Fewer than three parts abort. */
  lemma NewVersionNeedsThreeParts(s: string)
    ensures NewVersion(s).Some? ==> |Split(s, '.')| >= 3
  {
  }

  /** `+= 1` on an `i32` in a release build: wraps at the top. */
  function WrappingIncrement(x: I32): (r: I32)
    ensures x < I32Max ==> r == x + 1
    ensures x == I32Max ==> r == I32Min
  {
    if x == I32Max then I32Min else x + 1
  }

  /** The bump rule of Semantic Versioning 2.0.0, items 6 to 8. */
  function Bumped(v: Version, d: VersionDesignation): (r: Version)
    ensures Bumps(r, d) == WrappingIncrement(Bumps(v, d))
    ensures d == Major ==> r.minor == 0 && r.patch == 0
    ensures d == Minor ==> r.major == v.major && r.patch == 0
    ensures d == Patch ==> r.major == v.major && r.minor == v.minor
  {
    match d
    case Major => Version(WrappingIncrement(v.major), 0, 0)
    case Minor => Version(v.major, WrappingIncrement(v.minor), 0)
    case Patch => Version(v.major, v.minor, WrappingIncrement(v.patch))
  }

  /** Lexicographic order on (major, minor, patch). */
  predicate Less(a: Version, b: Version) {
    || a.major < b.major
    || (a.major == b.major && a.minor < b.minor)
    || (a.major == b.major && a.minor == b.minor && a.patch < b.patch)
  }

  /** The component a designation increments. */
  function Bumps(v: Version, d: VersionDesignation): I32 {
    match d
    case Major => v.major
    case Minor => v.minor
    case Patch => v.patch
  }

  /** Short of overflow, every bump moves the version strictly forward, and
      it moves it by the least step that changes the bumped component: no
      version lies between `v` and its bump that agrees with `v` above it. */
  lemma BumpIncreases(v: Version, d: VersionDesignation, w: Version)
    requires Bumps(v, d) < I32Max
    requires 0 <= v.minor && 0 <= v.patch && 0 <= w.minor && 0 <= w.patch
    ensures Less(v, Bumped(v, d))
    ensures !(Less(v, w) && Less(w, Bumped(v, d)) && Bumps(w, d) != Bumps(v, d))
  {
  }

  /** `increment_version`: parse the configured version, then change its
      fields in place. `None` where `Version::new` panics. */
  method IncrementVersion(config: Config, designation: VersionDesignation) returns (r: Option<Version>)
    ensures NewVersion(config.version).None? ==> r.None?
    ensures NewVersion(config.version).Some? ==> r == Some(Bumped(NewVersion(config.version).value, designation))
  {
    var parsed := NewVersion(config.version);
    if parsed.None? {
      return None;
    }
    var version := parsed.value;
    match designation {
      case Major =>
        version := version.(major := WrappingIncrement(version.major));
        version := version.(minor := 0);
        version := version.(patch := 0);
      case Minor =>
        version := version.(minor := WrappingIncrement(version.minor));
        version := version.(patch := 0);
      case Patch =>
        version := version.(patch := WrappingIncrement(version.patch));
    }
    return Some(version);
  }

  /** The unit tests of `version.rs`, on the default configuration's
      `0.0.1` and on `0.1.1`. */
  lemma IncrementExamples()
    ensures NewVersion(CreateDefault().version) == Some(Version(0, 0, 1))
    ensures Bumped(Version(0, 0, 1), Patch) == Version(0, 0, 2)
    ensures Bumped(Version(0, 0, 1), Minor) == Version(0, 1, 0)
    ensures NewVersion("0.1.1") == Some(Version(0, 1, 1))
    ensures Bumped(Version(0, 1, 1), Major) == Version(1, 0, 0)
  {
    ReadsBack(Version(0, 0, 1), "0.0.1");
    ReadsBack(Version(0, 1, 1), "0.1.1");
  }

  /** A version written with one-digit numbers reads back from its text. */
  lemma ReadsBack(v: Version, text: string)
    requires 0 <= v.major < 10 && 0 <= v.minor < 10 && 0 <= v.patch < 10
    requires text == [Digit(v.major), '.', Digit(v.minor), '.', Digit(v.patch)]
    ensures NewVersion(text) == Some(v)
  {
    SmallIntToString(v.major);
    SmallIntToString(v.minor);
    SmallIntToString(v.patch);
    assert ToString(v) == text;
    NewVersionOfToString(v);
  }

  /** The configuration half of `write_new_version_to_file`: the new
      configuration is the old one with its version replaced, whether or not
      the file could be written, and it reads back as the new version. */
  method WriteNewVersionToFile(config: Config, version: Version) returns (newConfig: Config)
    ensures newConfig.projectRepo == config.projectRepo
    ensures newConfig.versionSyncFiles == config.versionSyncFiles
    ensures newConfig.version == ToString(version)
    ensures NewVersion(newConfig.version) == Some(version)
  {
    newConfig := config;
    newConfig := newConfig.(version := ToString(version));
    NewVersionOfToString(version);
  }
}
