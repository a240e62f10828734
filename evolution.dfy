/**
  The package's version and its exception classes.

  A version is (major, minor, micro, stage, release number, released), where
  the stage is `alpha`, `beta`, `rc` or `final`. It is shown two ways: the
  human-readable version string (`0.7 alpha 0 (dev)`) and the package version
  used for distribution (`0.7alpha0`). Each rendering has a parser that accepts
  exactly the texts the rendering produces, so the round trip holds in both
  directions.
 */
module Evolution {
  import opened Wrappers
  import opened Text

  datatype Version = Version(major: nat, minor: nat, micro: nat, stage: string, number: nat, released: bool)

  /** The version of this release of the package. */
  const VERSION: Version := Version(0, 7, 0, "alpha", 0, false)

  /** The version without its released flag. */
  type VersionInfo = (nat, nat, nat, string, nat)

  /** The version whose first five components are `info`. */
  function FromInfo(info: VersionInfo, released: bool): Version
  {
    Version(info.0, info.1, info.2, info.3, info.4, released)
  }

  /** The version info drops the released flag and nothing else. */
  function Info(v: Version): (info: VersionInfo)
    ensures FromInfo(info, v.released) == v
  {
    (v.major, v.minor, v.micro, v.stage, v.number)
  }

  /** Two versions with the same version info and released flag are the same version. */
  lemma InfoDropsOnlyReleased(a: Version, b: Version)
    requires Info(a) == Info(b) && a.released == b.released
    ensures a == b
  {
    assert FromInfo(Info(a), a.released) == a;
    assert FromInfo(Info(b), b.released) == b;
  }

  /** `major.minor`, then `.micro` when the micro number is not zero. */
  function ReleaseNumber(major: nat, minor: nat, micro: nat): string
  {
    NatToString(major) + "." + NatToString(minor) + (if micro != 0 then "." + NatToString(micro) else "")
  }

  /** Nothing for a final release, ` RC<n>` for a release candidate, ` <stage> <n>` otherwise. */
  function StageSuffix(stage: string, number: nat): string
  {
    if stage == "final" then ""
    else if stage == "rc" then " RC" + NatToString(number)
    else " " + stage + " " + NatToString(number)
  }

  /** The human-readable version, marked ` (dev)` until released. */
  function VersionString(v: Version): (s: string)
    ensures StartsWith(s, NatToString(v.major) + "." + NatToString(v.minor))
  {
    ReleaseNumber(v.major, v.minor, v.micro) + StageSuffix(v.stage, v.number) + (if !v.released then " (dev)" else "")
  }

  /** A version is a release exactly when its version string carries no ` (dev)` marker. */
  predicate IsRelease(v: Version): (r: bool)
    ensures r <==> !EndsWith(VersionString(v), " (dev)")
  {
    DevSuffixIff(v);
    v.released
  }

  /** The distribution version: the stage and its number follow with no separator, unless final. */
  function PackageVersion(v: Version): (s: string)
    ensures StartsWith(s, NatToString(v.major) + "." + NatToString(v.minor))
  {
    ReleaseNumber(v.major, v.minor, v.micro) + (if v.stage != "final" then v.stage + NatToString(v.number) else "")
  }

  /** A stage is a non-empty word of lower-case letters. */
  predicate ValidStage(stage: string)
  {
    stage != [] && forall i :: 0 <= i < |stage| ==> IsLower(stage[i])
  }

  predicate WellFormed(v: Version) { ValidStage(v.stage) }

  /** What the renderings keep of a version: a final release has no release number. */
  function Shown(v: Version): (w: Version)
    ensures w.stage == v.stage && w.released == v.released
    ensures w.number == (if v.stage == "final" then 0 else v.number)
  {
    if v.stage == "final" then v.(number := 0) else v
  }

  // Reading versions back.

  /** A leading decimal number without leading zeros, and the text after it. */
  function ParseNat(s: string): Option<(nat, string)>
  {
    var (digits, rest) := Span(s, IsDigit);
    if digits == [] || (digits[0] == '0' && |digits| > 1) then None
    else Some((DigitsValue(digits), rest))
  }

  /** Major, minor and micro numbers, and the text after them; a shown micro number is never zero. */
  function ParseReleaseNumber(s: string): Option<(nat, nat, nat, string)>
  {
    match ParseNat(s)
    case None => None
    case Some((major, r1)) =>
      if r1 == [] || r1[0] != '.' then None else ParseMinorMicro(major, r1[1..])
  }

  function ParseMinorMicro(major: nat, s: string): Option<(nat, nat, nat, string)>
  {
    match ParseNat(s)
    case None => None
    case Some((minor, r2)) =>
      if r2 != [] && r2[0] == '.' then
        match ParseNat(r2[1..])
        case None => None
        case Some((micro, r3)) => if micro == 0 then None else Some((major, minor, micro, r3))
      else
        Some((major, minor, 0, r2))
  }

  /** A number that is the whole of the text. */
  function ParseWholeNat(s: string): Option<nat>
  {
    match ParseNat(s)
    case Some((n, rest)) => if rest == [] then Some(n) else None
    case None => None
  }

  /** The stage and release number of a version string's stage suffix. */
  function ParseStageSuffix(s: string): Option<(string, nat)>
  {
    if s == [] then Some(("final", 0))
    else if StartsWith(s, " RC") then
      match ParseWholeNat(s[3..])
      case Some(n) => Some(("rc", n))
      case None => None
    else if s[0] == ' ' then
      var (stage, rest) := Span(s[1..], IsLower);
      if stage != [] && stage != "rc" && stage != "final" && rest != [] && rest[0] == ' ' then
        match ParseWholeNat(rest[1..])
        case Some(n) => Some((stage, n))
        case None => None
      else None
    else None
  }

  function ParseVersionString(s: string): Option<Version>
  {
    match ParseReleaseNumber(s)
    case None => None
    case Some((major, minor, micro, rest)) =>
      var released := !EndsWith(rest, " (dev)");
      var suffix := if released then rest else rest[..|rest| - 6];
      match ParseStageSuffix(suffix)
      case None => None
      case Some((stage, number)) => Some(Version(major, minor, micro, stage, number, released))
  }

  function ParsePackageVersion(s: string): Option<VersionInfo>
  {
    match ParseReleaseNumber(s)
    case None => None
    case Some((major, minor, micro, rest)) =>
      if rest == [] then Some((major, minor, micro, "final", 0))
      else
        var (stage, digits) := Span(rest, IsLower);
        if stage == [] || stage == "final" then None
        else
          match ParseWholeNat(digits)
          case Some(n) => Some((major, minor, micro, stage, n))
          case None => None
  }

  // Numbers.

  lemma ParseNatOf(n: nat, rest: string)
    requires rest == [] || !IsDigit(rest[0])
    ensures ParseNat(NatToString(n) + rest) == Some((n, rest))
  {
    SpanAt(NatToString(n), rest, IsDigit);
    DigitsValueOfNatToString(n);
  }

  lemma ParseNatBack(s: string)
    requires ParseNat(s).Some?
    ensures var (n, rest) := ParseNat(s).value;
      s == NatToString(n) + rest && (rest == [] || !IsDigit(rest[0]))
  {
    var (digits, rest) := Span(s, IsDigit);
    NatToStringOfDigits(digits);
  }

  lemma ParseWholeNatOf(n: nat)
    ensures ParseWholeNat(NatToString(n)) == Some(n)
  {
    ParseNatOf(n, []);
    assert NatToString(n) + [] == NatToString(n);
  }

  lemma ParseWholeNatBack(s: string)
    requires ParseWholeNat(s).Some?
    ensures s == NatToString(ParseWholeNat(s).value)
  {
    ParseNatBack(s);
    assert s == NatToString(ParseWholeNat(s).value) + [];
  }

  // Release numbers.

  /** The release numbers are read back from the front of a rendering. */
  lemma ReleaseNumberRoundTrip(major: nat, minor: nat, micro: nat, rest: string)
    requires rest == [] || (rest[0] != '.' && !IsDigit(rest[0]))
    ensures ParseReleaseNumber(ReleaseNumber(major, minor, micro) + rest) == Some((major, minor, micro, rest))
  {
    var m := NatToString(minor);
    var tail := if micro != 0 then m + ("." + (NatToString(micro) + rest)) else m + rest;
    var t := ReleaseNumber(major, minor, micro) + rest;
    assert t == NatToString(major) + ("." + tail) by {
      if micro != 0 {
        MicroGlue(major, minor, micro, tail, "." + (NatToString(micro) + rest), rest);
      } else {
        NoMicroGlue(major, minor, tail, rest);
      }
    }
    assert ParseReleaseNumber(t) == ParseMinorMicro(major, tail) by {
      ParseNatOf(major, "." + tail);
      assert ("." + tail)[1..] == tail;
    }
    if micro != 0 {
      MinorWithMicro(major, minor, micro, rest);
    } else {
      MinorWithoutMicro(major, minor, rest);
    }
  }

  lemma MinorWithMicro(major: nat, minor: nat, micro: nat, rest: string)
    requires micro != 0
    requires rest == [] || !IsDigit(rest[0])
    ensures ParseMinorMicro(major, NatToString(minor) + ("." + (NatToString(micro) + rest)))
         == Some((major, minor, micro, rest))
  {
    var tail := "." + (NatToString(micro) + rest);
    ParseNatOf(minor, tail);
    assert tail[1..] == NatToString(micro) + rest;
    ParseNatOf(micro, rest);
  }

  lemma MinorWithoutMicro(major: nat, minor: nat, rest: string)
    requires rest == [] || (rest[0] != '.' && !IsDigit(rest[0]))
    ensures ParseMinorMicro(major, NatToString(minor) + rest) == Some((major, minor, 0, rest))
  {
    ParseNatOf(minor, rest);
  }

  /**
    Whatever release number is read is exactly the rendering of the numbers
    read: `.micro` is present iff the micro number is not zero.
   */
  lemma ReleaseNumberBack(s: string)
    requires ParseReleaseNumber(s).Some?
    ensures var (major, minor, micro, rest) := ParseReleaseNumber(s).value;
      s == ReleaseNumber(major, minor, micro) + rest
  {
    var (major, r1) := ParseNat(s).value;
    ParseNatBack(s);
    assert s == NatToString(major) + ("." + r1[1..]) by {
      assert r1 == "." + r1[1..];
    }
    MinorMicroBack(major, r1[1..]);
  }

  lemma MinorMicroBack(major: nat, s: string)
    requires ParseMinorMicro(major, s).Some?
    ensures var (ma, minor, micro, rest) := ParseMinorMicro(major, s).value;
      ma == major && NatToString(major) + ("." + s) == ReleaseNumber(major, minor, micro) + rest
  {
    var minor := ParseNat(s).value.0;
    var r2 := ParseNat(s).value.1;
    assert s == NatToString(minor) + r2 by { ParseNatBack(s); }
    if r2 != [] && r2[0] == '.' {
      var micro := ParseNat(r2[1..]).value.0;
      var r3 := ParseNat(r2[1..]).value.1;
      assert r2 == "." + (NatToString(micro) + r3) by {
        ParseNatBack(r2[1..]);
        assert r2 == [r2[0]] + r2[1..];
      }
      assert ParseMinorMicro(major, s) == Some((major, minor, micro, r3));
      MicroGlue(major, minor, micro, s, r2, r3);
    } else {
      assert ParseMinorMicro(major, s) == Some((major, minor, 0, r2));
      NoMicroGlue(major, minor, s, r2);
    }
  }

  lemma MicroGlue(major: nat, minor: nat, micro: nat, s: string, r2: string, r3: string)
    requires micro != 0
    requires s == NatToString(minor) + r2
    requires r2 == "." + (NatToString(micro) + r3)
    ensures NatToString(major) + ("." + s) == ReleaseNumber(major, minor, micro) + r3
  {
  }

  lemma NoMicroGlue(major: nat, minor: nat, s: string, r2: string)
    requires s == NatToString(minor) + r2
    ensures NatToString(major) + ("." + s) == ReleaseNumber(major, minor, 0) + r2
  {
  }


  // Stage suffixes.

  /** A non-empty stage suffix ends in the last digit of the release number. */
  lemma StageSuffixEnd(stage: string, number: nat)
    requires StageSuffix(stage, number) != []
    ensures IsDigit(StageSuffix(stage, number)[|StageSuffix(stage, number)| - 1])
  {
    var n := NatToString(number);
    assert StageSuffix(stage, number)[|StageSuffix(stage, number)| - 1] == n[|n| - 1];
  }

  lemma ReleaseNumberEnd(major: nat, minor: nat, micro: nat)
    ensures var r := ReleaseNumber(major, minor, micro); r != [] && IsDigit(r[|r| - 1])
  {
    var r := ReleaseNumber(major, minor, micro);
    var n := NatToString(if micro != 0 then micro else minor);
    assert r[|r| - 1] == n[|n| - 1];
  }

  /** A well-formed stage and its number are read back from the stage suffix; a final release shows no number. */
  lemma StageSuffixRoundTrip(stage: string, number: nat)
    requires ValidStage(stage)
    ensures ParseStageSuffix(StageSuffix(stage, number)) == Some((stage, if stage == "final" then 0 else number))
  {
    var s := StageSuffix(stage, number);
    var n := NatToString(number);
    if stage == "final" {
    } else if stage == "rc" {
      assert s[..3] == " RC" && s[3..] == n;
      ParseWholeNatOf(number);
    } else {
      assert s[1..] == stage + (" " + n);
      SpanAt(stage, " " + n, IsLower);
      assert (" " + n)[1..] == n;
      ParseWholeNatOf(number);
      assert !StartsWith(s, " RC") by {
        assert s[1] == stage[0];
      }
    }
  }

  /**
    Whatever stage suffix is read is exactly the rendering of the stage and
    number read: a release candidate only as ` RC<n>`, any other stage only as
    ` <stage> <n>`, a final release only as nothing.
   */
  lemma StageSuffixBack(s: string)
    requires ParseStageSuffix(s).Some?
    ensures var (stage, number) := ParseStageSuffix(s).value;
      ValidStage(stage) && (stage == "final" ==> number == 0) && s == StageSuffix(stage, number)
  {
    if s == [] {
    } else if StartsWith(s, " RC") {
      var n := ParseWholeNat(s[3..]).value;
      assert ParseStageSuffix(s) == Some(("rc", n));
      assert s == " RC" + NatToString(n) by {
        ParseWholeNatBack(s[3..]);
        assert s == s[..3] + s[3..];
      }
    } else {
      var (stage, rest) := Span(s[1..], IsLower);
      var n := ParseWholeNat(rest[1..]).value;
      assert ParseStageSuffix(s) == Some((stage, n));
      assert s == " " + stage + " " + NatToString(n) by {
        ParseWholeNatBack(rest[1..]);
        NamedSuffixGlue(s, stage, rest, NatToString(n));
      }
    }
  }

  lemma NamedSuffixGlue(s: string, stage: string, rest: string, n: string)
    requires s != [] && s[0] == ' ' && stage + rest == s[1..]
    requires rest != [] && rest[0] == ' ' && rest[1..] == n
    ensures s == " " + stage + " " + n
  {
    assert rest == " " + n;
    assert s == [s[0]] + s[1..];
  }

  // Version strings.

  /** The version string ends in ` (dev)` exactly when the version is not released. */
  lemma DevSuffixIff(v: Version)
    ensures EndsWith(VersionString(v), " (dev)") <==> !v.released
  {
    var s := VersionString(v);
    var number := ReleaseNumber(v.major, v.minor, v.micro);
    var suffix := StageSuffix(v.stage, v.number);
    if v.released {
      var body := number + suffix;
      assert s == body;
      ReleaseNumberEnd(v.major, v.minor, v.micro);
      if suffix != [] {
        StageSuffixEnd(v.stage, v.number);
        assert body[|body| - 1] == suffix[|suffix| - 1];
      } else {
        assert body == number;
      }
      assert IsDigit(s[|s| - 1]);
    } else {
      assert s[|s| - 6..] == " (dev)";
    }
  }

  /** A well-formed version is read back from its version string, release number aside when final. */
  lemma VersionStringRoundTrip(v: Version)
    requires WellFormed(v)
    ensures ParseVersionString(VersionString(v)) == Some(Shown(v))
  {
    var suffix := StageSuffix(v.stage, v.number);
    var dev := if !v.released then " (dev)" else "";
    var rest := suffix + dev;
    assert VersionString(v) == ReleaseNumber(v.major, v.minor, v.micro) + rest;
    assert rest == [] || rest[0] == ' ';
    ReleaseNumberRoundTrip(v.major, v.minor, v.micro, rest);
    StageSuffixRoundTrip(v.stage, v.number);
    if v.released {
      assert rest == suffix;
      if suffix != [] {
        StageSuffixEnd(v.stage, v.number);
        assert !EndsWith(rest, " (dev)");
      }
    } else {
      assert rest[|rest| - 6..] == " (dev)";
      assert rest[..|rest| - 6] == suffix;
    }
  }

  /** Whatever text is read as a version is exactly the version string of the well-formed version read. */
  lemma VersionStringBack(s: string)
    requires ParseVersionString(s).Some?
    ensures var w := ParseVersionString(s).value;
      WellFormed(w) && Shown(w) == w && VersionString(w) == s
  {
    var (major, minor, micro, rest) := ParseReleaseNumber(s).value;
    var released := !EndsWith(rest, " (dev)");
    var suffix := if released then rest else rest[..|rest| - 6];
    var (stage, number) := ParseStageSuffix(suffix).value;
    var w := Version(major, minor, micro, stage, number, released);
    assert ParseVersionString(s) == Some(w);
    assert WellFormed(w) && Shown(w) == w && suffix == StageSuffix(stage, number) by {
      StageSuffixBack(suffix);
    }
    assert VersionString(w) == s by {
      ReleaseNumberBack(s);
      DevSuffixBack(rest, suffix, released);
    }
  }

  lemma DevSuffixBack(rest: string, suffix: string, released: bool)
    requires released == !EndsWith(rest, " (dev)")
    requires suffix == if released then rest else rest[..|rest| - 6]
    ensures rest == suffix + (if !released then " (dev)" else "")
  {
    if !released {
      assert rest == rest[..|rest| - 6] + rest[|rest| - 6..];
    }
  }

  /** Well-formed versions with the same version string agree on everything the string shows. */
  lemma VersionStringInjective(a: Version, b: Version)
    requires WellFormed(a) && WellFormed(b)
    requires VersionString(a) == VersionString(b)
    ensures Shown(a) == Shown(b)
  {
    VersionStringRoundTrip(a);
    VersionStringRoundTrip(b);
  }

  // Package versions.

  /** A well-formed version's info is read back from its package version, release number aside when final. */
  lemma PackageVersionRoundTrip(v: Version)
    requires WellFormed(v)
    ensures ParsePackageVersion(PackageVersion(v)) == Some(Info(Shown(v)))
  {
    var n := NatToString(v.number);
    var number := ReleaseNumber(v.major, v.minor, v.micro);
    if v.stage == "final" {
      assert PackageVersion(v) == number + [];
      ReleaseNumberRoundTrip(v.major, v.minor, v.micro, []);
    } else {
      var rest := v.stage + n;
      assert PackageVersion(v) == number + rest;
      assert rest[0] == v.stage[0];
      ReleaseNumberRoundTrip(v.major, v.minor, v.micro, rest);
      SpanAt(v.stage, n, IsLower);
      ParseWholeNatOf(v.number);
    }
  }

  /**
    Whatever text is read as a package version is exactly the package version
    of the info read: `.micro` only when not zero, the stage immediately
    followed by its number, and nothing after a final release.
   */
  lemma PackageVersionBack(s: string, released: bool)
    requires ParsePackageVersion(s).Some?
    ensures var w := FromInfo(ParsePackageVersion(s).value, released);
      WellFormed(w) && Shown(w) == w && PackageVersion(w) == s
  {
    ReleaseNumberBack(s);
    var (major, minor, micro, rest) := ParseReleaseNumber(s).value;
    if rest != [] {
      var (stage, digits) := Span(rest, IsLower);
      ParseWholeNatBack(digits);
    }
  }

  /** A character of a package version: a digit, a dot or a lower-case letter. */
  predicate IsPackageChar(c: char) { IsDigit(c) || c == '.' || IsLower(c) }

  /**
    A package version holds only digits, dots and lower-case letters, so it
    never carries the ` (dev)` marker, a space, or the `RC` spelling.
   */
  lemma PackageVersionChars(v: Version)
    requires WellFormed(v)
    ensures forall i :: 0 <= i < |PackageVersion(v)| ==> IsPackageChar(PackageVersion(v)[i])
    ensures '(' !in PackageVersion(v) && ' ' !in PackageVersion(v) && 'R' !in PackageVersion(v)
  {
  }

  /** The package's own version: `0.7 alpha 0 (dev)`, `0.7alpha0`, and version info `(0, 7, 0, "alpha", 0)`. */
  lemma CurrentVersion()
    ensures VersionString(VERSION) == "0.7 alpha 0 (dev)"
    ensures PackageVersion(VERSION) == "0.7alpha0"
    ensures Info(VERSION) == (0, 7, 0, "alpha", 0)
    ensures !IsRelease(VERSION)
  {
    assert NatToString(0) == "0";
    assert NatToString(7) == "7";
  }

  // Exceptions.

  /** The package's exception classes and the built-in classes above them. */
  datatype Class =
    | BaseException | Exception | RuntimeError | NotImplementedError
    | EvolutionException | CannotSimulate | SimulationFailure | EvolutionNotImplementedError

  /** The direct bases of each class, in the order the class statement lists them. */
  function Bases(c: Class): seq<Class>
  {
    match c
    case BaseException => []
    case Exception => [BaseException]
    case RuntimeError => [Exception]
    case NotImplementedError => [RuntimeError]
    case EvolutionException => [Exception]
    case CannotSimulate => [EvolutionException]
    case SimulationFailure => [EvolutionException]
    case EvolutionNotImplementedError => [EvolutionException, NotImplementedError]
  }

  /**
    The method resolution order of each class (Python's C3 linearization, up
    to `BaseException`): the class first, every base after it, and
    `BaseException` last.
   */
  function Mro(c: Class): (mro: seq<Class>)
    ensures |mro| >= 1 && mro[0] == c && mro[|mro| - 1] == BaseException
    ensures forall b :: b in Bases(c) ==> b in mro[1..]
  {
    match c
    case BaseException => [BaseException]
    case Exception => [Exception, BaseException]
    case RuntimeError => [RuntimeError, Exception, BaseException]
    case NotImplementedError => [NotImplementedError, RuntimeError, Exception, BaseException]
    case EvolutionException => [EvolutionException, Exception, BaseException]
    case CannotSimulate => [CannotSimulate, EvolutionException, Exception, BaseException]
    case SimulationFailure => [SimulationFailure, EvolutionException, Exception, BaseException]
    case EvolutionNotImplementedError =>
      [EvolutionNotImplementedError, EvolutionException, NotImplementedError, RuntimeError, Exception, BaseException]
  }

  /** The classes whose own body defines `__str__`. */
  predicate DefinesStr(c: Class) { c == EvolutionException || c == BaseException }

  /** The first class in `mro` that defines `__str__`, which is where an instance finds it. */
  function StrOwnerIn(mro: seq<Class>): (owner: Option<Class>)
    ensures owner.Some? <==> exists i :: 0 <= i < |mro| && DefinesStr(mro[i])
    ensures owner.Some? ==> owner.value in mro && DefinesStr(owner.value)
    ensures owner.Some? ==> forall i :: 0 <= i < |mro| && mro[i] != owner.value && DefinesStr(mro[i]) ==>
              exists j :: 0 <= j < i && mro[j] == owner.value
  {
    if mro == [] then None
    else if DefinesStr(mro[0]) then Some(mro[0])
    else
      var owner := StrOwnerIn(mro[1..]);
      assert forall i :: 1 <= i < |mro| ==> mro[i] == mro[1..][i - 1];
      owner
  }

  function StrOwner(c: Class): Option<Class> { StrOwnerIn(Mro(c)) }

  /** The package's own exception classes: `EvolutionException` and its subclasses. */
  predicate IsEvolutionClass(c: Class)
  {
    c == EvolutionException || c == CannotSimulate || c == SimulationFailure || c == EvolutionNotImplementedError
  }

  /** Every subclass of `EvolutionException` finds `__str__` in `EvolutionException`, not in a built-in class. */
  lemma EvolutionClassesUseOwnStr(c: Class)
    ensures IsEvolutionClass(c) ==> StrOwner(c) == Some(EvolutionException)
  {
    var mro := Mro(c);
    if !IsEvolutionClass(c) {
    } else if c == EvolutionException {
      assert mro[0] == EvolutionException;
    } else {
      assert mro[1] == EvolutionException && !DefinesStr(mro[0]);
      assert StrOwnerIn(mro) == StrOwnerIn(mro[1..]);
    }
  }

  /** An exception instance: its class and the message it was raised with. */
  datatype Instance<M> = Instance(cls: Class, msg: M)

  /**
    `str()` of an instance, given Python's `str` on messages: the `__str__`
    its class finds. Instances of the package's classes show `str(msg)`; the
    built-in `BaseException.__str__` is not modelled and gives `None`.
   */
  function Str<M>(e: Instance<M>, str: M -> string): (r: Option<string>)
    ensures IsEvolutionClass(e.cls) ==> r == Some(str(e.msg))
  {
    EvolutionClassesUseOwnStr(e.cls);
    if StrOwner(e.cls) == Some(EvolutionException) then Some(str(e.msg)) else None
  }
}
