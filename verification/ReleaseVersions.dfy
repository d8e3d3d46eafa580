/** What a version tag says, in numbers (scripts/release-github.py). */
module ReleaseVersions {
  import opened Texts
  import opened ReleaseProtocol

  /** The tag is a `v` and three decimal numbers with dots between them, and these are the numbers. */
  ghost predicate HasNumbers(tag: string, major: nat, minor: nat, patch: nat) {
    exists x, y, z ::
      IsDecimal(x) && IsDecimal(y) && IsDecimal(z) && tag == "v" + x + "." + y + "." + z
      && DecimalValue(x) == major && DecimalValue(y) == minor && DecimalValue(z) == patch
  }

  /** The first tag is of the same version as the second or of a later one: a higher major number beats every
      minor and patch, a higher minor number every patch. */
  ghost predicate IsAtLeast(tag: string, other: string) {
    exists a, b, c, x, y, z ::
      HasNumbers(tag, a, b, c) && HasNumbers(other, x, y, z) && (a > x || (a == x && (b > y || (b == y && c >= z))))
  }

  lemma DecimalHoldsNoDot(text: string)
    requires IsDecimal(text)
    ensures '.' !in text
  {
    forall i | 0 <= i < |text| ensures text[i] != '.' {
      assert IsDigit(text[i]);
    }
  }

  lemma ThreePartsJoin(x: string, y: string, z: string)
    ensures JoinWithDots([x, y, z]) == x + "." + y + "." + z
  {
    assert [x, y, z][1..] == [y, z] && [y, z][1..] == [z];
    assert JoinWithDots([y, z]) == y + "." + z;
  }

  /** The tags that are versions are exactly those of three numbers, in this order; leading zeros do not count. */
  lemma TagsAreThreeNumbers(tag: string, major: nat, minor: nat, patch: nat)
    ensures VersionOf(tag) == Some(Version(major, minor, patch)) <==> HasNumbers(tag, major, minor, patch)
  {
    hide SplitAtDots, JoinWithDots, DecimalValue;
    if HasNumbers(tag, major, minor, patch) {
      var x, y, z :| IsDecimal(x) && IsDecimal(y) && IsDecimal(z) && tag == "v" + x + "." + y + "." + z
        && DecimalValue(x) == major && DecimalValue(y) == minor && DecimalValue(z) == patch;
      DecimalHoldsNoDot(x);
      DecimalHoldsNoDot(y);
      DecimalHoldsNoDot(z);
      ThreePartsJoin(x, y, z);
      JoinedPartsAreSplit([x, y, z]);
      assert tag[..1] == "v" && tag[1..] == x + "." + y + "." + z;
    }
    if VersionOf(tag) == Some(Version(major, minor, patch)) {
      var parts := SplitAtDots(tag[1..]);
      SplitPartsJoin(tag[1..]);
      ThreePartsJoin(parts[0], parts[1], parts[2]);
      assert parts == [parts[0], parts[1], parts[2]];
      assert tag == "v" + tag[1..];
      assert tag == "v" + parts[0] + "." + parts[1] + "." + parts[2];
    }
  }

  lemma WrittenTagIsReadBack(major: nat, minor: nat, patch: nat)
    ensures var tag := "v" + Decimal(major) + "." + Decimal(minor) + "." + Decimal(patch);
      HasNumbers(tag, major, minor, patch) && VersionOf(tag) == Some(Version(major, minor, patch))
  {
    hide Decimal, DecimalValue, VersionOf;
    DecimalReadsBack(major);
    DecimalReadsBack(minor);
    DecimalReadsBack(patch);
    TagsAreThreeNumbers("v" + Decimal(major) + "." + Decimal(minor) + "." + Decimal(patch), major, minor, patch);
  }

  /** A strict total order in which the major number counts most and the patch least. */
  lemma NewerIsAnOrder(a: Version, b: Version, c: Version)
    ensures a.major > b.major ==> Newer(a, b)
    ensures a.major == b.major && a.minor > b.minor ==> Newer(a, b)
    ensures a.major == b.major && a.minor == b.minor && a.patch > b.patch ==> Newer(a, b)
    ensures a == b || Newer(a, b) || Newer(b, a)
    ensures Newer(a, b) ==> !Newer(b, a) && a != b
    ensures Newer(a, b) && Newer(b, c) ==> Newer(a, c)
  {
  }

  /** For version tags, one being at least the other is the other not being newer. */
  lemma NotNewerIsAtLeast(tag: string, other: string)
    requires VersionOf(tag).Some? && VersionOf(other).Some?
    ensures IsAtLeast(tag, other) <==> !Newer(VersionOf(other).value, VersionOf(tag).value)
  {
    hide VersionOf, HasNumbers;
    var v, w := VersionOf(tag).value, VersionOf(other).value;
    NewerIsAnOrder(v, w, v);
    TagsAreThreeNumbers(tag, v.major, v.minor, v.patch);
    TagsAreThreeNumbers(other, w.major, w.minor, w.patch);
    forall a, b, c, x, y, z | HasNumbers(tag, a, b, c) && HasNumbers(other, x, y, z)
      ensures v == Version(a, b, c) && w == Version(x, y, z)
    {
      TagsAreThreeNumbers(tag, a, b, c);
      TagsAreThreeNumbers(other, x, y, z);
    }
  }

  /** What stands before a promotion, in numbers: a latest release whose version this one's is not at least. */
  lemma OnlyANewerOneStandsBefore(s: Store, tag: string)
    requires VersionOf(tag).Some? && s.latest.Some? && s.latest.value in s.releases
    requires VersionOf(s.releases[s.latest.value].tag).Some?
    ensures NothingNewerIsLatest(s, VersionOf(tag)) <==> IsAtLeast(tag, s.releases[s.latest.value].tag)
  {
    hide VersionOf, IsAtLeast, Newer;
    NotNewerIsAtLeast(tag, s.releases[s.latest.value].tag);
  }
}
