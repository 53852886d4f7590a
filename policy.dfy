/**
 * The compatibility policy (src/index.ts lines 77-82): whether a located block written by an
 * older version of the tool may be replaced without `--force`. Replacement is allowed when the old
 * version string equals the current one, or when both major versions are equal and greater than
 * zero; a major version 0 carries no compatibility promise (item 4 of Semantic Versioning 2.0.0).
 */
module Policy {
  import opened Wrappers
  import opened JsText

  /** `js2frInfo.slice(1, 4).join(".")`: the old version rebuilt from the three captured digits. */
  function OldVersion(major: char, minor: char, patch: char): (v: string)
    ensures v == [major, '.', minor, '.', patch]
  {
    Join([[major], [minor], [patch]], ".")
  }

  /** `parseInt(version.split(".")[0], 10)`: the major version of a version string, `None` for `NaN`. */
  function MajorOf(version: string): Option<int> {
    ParseInt(FirstField(version, '.'))
  }

  /**
   * `canOverwrite`. The old major, `parseInt` of the single captured digit, is that digit's value
   * (`OldMajorIsDigit`); JavaScript's `===` between numbers is false when the new major is `NaN`.
   */
  predicate CanOverwrite(major: char, minor: char, patch: char, current: string)
    requires IsDigit(major)
  {
    var oldMajor := DigitValue(major);
    OldVersion(major, minor, patch) == current
    || (MajorOf(current) == Some(oldMajor) && oldMajor > 0)
  }

  /** `parseInt(js2frInfo[1], 10)` is the value of the captured digit. */
  lemma OldMajorIsDigit(major: char)
    requires IsDigit(major)
    ensures ParseInt([major]) == Some(DigitValue(major))
  {
    ParseIntDigits([major]);
    assert [major][..0] == [];
  }

  /** The major version read back from an old version string is its first digit. */
  lemma MajorOfOldVersion(major: char, minor: char, patch: char)
    requires IsDigit(major)
    ensures MajorOf(OldVersion(major, minor, patch)) == Some(DigitValue(major))
  {
    var v := OldVersion(major, minor, patch);
    var f := FirstField(v, '.');
    assert f == [major] by {
      assert |f| != 0;
      assert f[0] == major;
      assert v[1] == '.';
      assert |f| < 2;
    }
    OldMajorIsDigit(major);
  }

  /** The major version of `major.rest`, for a non-empty run of digits `major`, is its value. */
  lemma MajorOfVersion(major: string, rest: string)
    requires |major| > 0 && AllDigits(major)
    ensures MajorOf(major + "." + rest) == Some(DigitsValue(major))
  {
    FirstFieldOf(major, '.', rest);
    ParseIntDigits(major);
  }

  /** An identical version string may always be replaced. */
  lemma ExactVersionAllowed(major: char, minor: char, patch: char)
    requires IsDigit(major)
    ensures CanOverwrite(major, minor, patch, OldVersion(major, minor, patch))
  {
  }

  /** Same major version above zero: replaced whatever the minor and patch versions are. */
  lemma SameStableMajorAllowed(major: char, minor: char, patch: char, current: string)
    requires IsDigit(major) && major != '0'
    requires MajorOf(current) == Some(DigitValue(major))
    ensures CanOverwrite(major, minor, patch, current)
  {
    var oldMajor := DigitValue(major);
    assert MajorOf(current) == Some(oldMajor) && oldMajor > 0;
  }

  /** A block of major version 0 is replaced only by the very same version. */
  lemma UnstableMajorExactOnly(minor: char, patch: char, current: string)
    ensures CanOverwrite('0', minor, patch, current) <==> current == OldVersion('0', minor, patch)
  {
  }

  /** A different (or unreadable) major version is never replaced automatically. */
  lemma DifferentMajorRefused(major: char, minor: char, patch: char, current: string)
    requires IsDigit(major)
    requires MajorOf(current) != Some(DigitValue(major))
    ensures !CanOverwrite(major, minor, patch, current)
  {
    if current == OldVersion(major, minor, patch) {
      MajorOfOldVersion(major, minor, patch);
    }
  }

  /** Example: the very same version. */
  lemma ExampleExactVersion()
    ensures CanOverwrite('1', '2', '3', "1.2.3")
  {
    ExactVersionAllowed('1', '2', '3');
  }

  /** Example: a block of 2.0.0 is replaced by 2.5.1, the same stable major. */
  lemma ExampleSameMajor()
    ensures CanOverwrite('2', '0', '0', "2.5.1")
  {
    assert FirstField("2.5.1", '.') == "2";
    OldMajorIsDigit('2');
    SameStableMajorAllowed('2', '0', '0', "2.5.1");
  }

  /** Example: a block of 0.1.0 is not replaced by 0.2.0, since major 0 promises nothing. */
  lemma ExampleUnstableMajor()
    ensures !CanOverwrite('0', '1', '0', "0.2.0")
  {
    assert OldVersion('0', '1', '0')[2] != "0.2.0"[2];
    UnstableMajorExactOnly('1', '0', "0.2.0");
  }

  /** Example: no block of major version 1, such as 1.9.0, is replaced by 2.0.0, a new major. */
  lemma ExampleNewMajor(minor: char, patch: char)
    ensures !CanOverwrite('1', minor, patch, "2.0.0")
  {
    assert FirstField("2.0.0", '.') == "2";
    OldMajorIsDigit('2');
    DifferentMajorRefused('1', minor, patch, "2.0.0");
  }

  /** Example: the current version may have components of several digits, as in 1.10.0. */
  lemma ExampleLongMinor()
    ensures CanOverwrite('1', '9', '0', "1.10.0")
  {
    assert FirstField("1.10.0", '.') == "1";
    OldMajorIsDigit('1');
    SameStableMajorAllowed('1', '9', '0', "1.10.0");
  }
}
