/**
 * The major/minor gate: the server is at least a given Minecraft release when
 * its (major, minor) pair, read from the first two dot-separated segments of the
 * Bukkit version string, is lexicographically at least the requested pair. The
 * Bukkit version string is an argument.
 */
module VersionChecks {
  import opened Failures
  import opened JavaLang
  import Platform

  /** (srvMajor, srvMinor) is lexicographically at least (major, minor). */
  predicate LexAtLeast(srvMajor: int, srvMinor: int, major: int, minor: int) {
    srvMajor > major || (srvMajor == major && srvMinor >= minor)
  }

  /**
   * isAtLeast(major, minor) as written: split the version on '.', parse the
   * first two pieces with Integer.parseInt (a missing piece is an
   * ArrayIndexOutOfBoundsException, a piece that is not an int a
   * NumberFormatException) and compare the pairs.
   */
  function IsAtLeast(bukkitVersion: string, major: int, minor: int): (r: Result<bool>)
    ensures r.Ok? <==> var parts := Split(bukkitVersion, '.');
                       |parts| >= 2 && ParseInt(parts[0]).Some? && ParseInt(parts[1]).Some?
    ensures r.Ok? ==> var parts := Split(bukkitVersion, '.');
                      r.value == LexAtLeast(ParseInt(parts[0]).value, ParseInt(parts[1]).value, major, minor)
    ensures r.Err? ==> r.error.Unchecked? &&
                       r.error.className in {"ArrayIndexOutOfBoundsException", "NumberFormatException"}
  {
    var parts := Split(bukkitVersion, '.');
    if |parts| == 0 then Err(IndexOutOfBounds(0, 0))
    else
      match ParseInt(parts[0])
      case None => Err(NumberFormat(parts[0]))
      case Some(srvMajor) =>
        if |parts| == 1 then Err(IndexOutOfBounds(1, 1))
        else
          match ParseInt(parts[1])
          case None => Err(NumberFormat(parts[1]))
          case Some(srvMinor) => Ok(LexAtLeast(srvMajor, srvMinor, major, minor))
  }

  /** The server is at least its own release. */
  lemma IsAtLeastReflexive(bukkitVersion: string, srvMajor: int, srvMinor: int)
    requires IsAtLeast(bukkitVersion, srvMajor, srvMinor).Ok?
    requires var parts := Split(bukkitVersion, '.');
             ParseInt(parts[0]) == Some(srvMajor) && ParseInt(parts[1]) == Some(srvMinor)
    ensures IsAtLeast(bukkitVersion, srvMajor, srvMinor) == Ok(true)
  {
  }

  /** A server at least (major, minor) is at least every lexicographically smaller pair. */
  lemma IsAtLeastDownwardClosed(bukkitVersion: string, major: int, minor: int, major': int, minor': int)
    requires IsAtLeast(bukkitVersion, major, minor) == Ok(true)
    requires major' < major || (major' == major && minor' <= minor)
    ensures IsAtLeast(bukkitVersion, major', minor') == Ok(true)
  {
  }

  /** isAtLeast reads nothing but the first two pieces of the split version. */
  lemma SamePiecesSameAnswer(v: string, w: string, major: int, minor: int)
    requires |Split(v, '.')| >= 2 && |Split(w, '.')| >= 2
    requires Split(v, '.')[0] == Split(w, '.')[0] && Split(v, '.')[1] == Split(w, '.')[1]
    ensures IsAtLeast(v, major, minor) == IsAtLeast(w, major, minor)
  {
  }

  /** Splitting "M." followed by a string `rest` whose first field is `m` gives M, then m. */
  lemma LeadingPieces(majorPart: string, rest: string, minorPart: string)
    requires '.' !in majorPart && minorPart != ""
    requires Fields(rest, '.')[0] == minorPart
    ensures var parts := Split(majorPart + ['.'] + rest, '.');
            |parts| >= 2 && parts[0] == majorPart && parts[1] == minorPart
  {
    var v := majorPart + ['.'] + rest;
    assert v[|majorPart|] == '.';
    FieldsPrefix(majorPart, '.', rest);
    var fs := Fields(v, '.');
    assert fs[0] == majorPart && fs[1] == minorPart;
    DropTrailingEmptyKeeps(fs, 1);
    var parts := DropTrailingEmpty(fs);
    assert parts[0] == fs[0];
  }

  /** Only the first two segments are read: whatever follows a second '.' is ignored. */
  lemma OnlyFirstTwoSegmentsRead(majorPart: string, minorPart: string, rest: string, major: int, minor: int)
    requires '.' !in majorPart && '.' !in minorPart && minorPart != ""
    ensures IsAtLeast(majorPart + "." + minorPart + "." + rest, major, minor)
         == IsAtLeast(majorPart + "." + minorPart, major, minor)
  {
    var long, short := majorPart + "." + minorPart + "." + rest, majorPart + "." + minorPart;
    assert long == majorPart + ['.'] + (minorPart + ['.'] + rest);
    assert short == majorPart + ['.'] + minorPart;
    FieldsPrefix(minorPart, '.', rest);
    assert Fields(minorPart, '.') == [minorPart];
    LeadingPieces(majorPart, minorPart + ['.'] + rest, minorPart);
    LeadingPieces(majorPart, minorPart, minorPart);
    SamePiecesSameAnswer(majorPart + "." + minorPart + "." + rest, majorPart + "." + minorPart, major, minor);
  }

  /** A plain "M.m" release with int-sized numbers is read as (M, m). */
  lemma NumericReleaseRead(srvMajor: nat, srvMinor: nat, major: int, minor: int)
    requires srvMajor <= IntMax && srvMinor <= IntMax
    ensures IsAtLeast(NatToString(srvMajor) + "." + NatToString(srvMinor), major, minor)
         == Ok(LexAtLeast(srvMajor, srvMinor, major, minor))
  {
    var majorPart, minorPart := NatToString(srvMajor), NatToString(srvMinor);
    DigitsHaveNoPunctuation(majorPart);
    DigitsHaveNoPunctuation(minorPart);
    assert majorPart + "." + minorPart == majorPart + ['.'] + minorPart;
    assert Fields(minorPart, '.') == [minorPart];
    LeadingPieces(majorPart, minorPart, minorPart);
  }

  /** A run of digits holds neither '.' nor '-'. */
  lemma DigitsHaveNoPunctuation(s: string)
    requires AllDigits(s)
    ensures '.' !in s && '-' !in s
  {
    assert forall i :: 0 <= i < |s| ==> s[i] != '.' && s[i] != '-';
  }

  /**
   * As written, a release without a patch number, whose Bukkit version reads
   * like "1.21-R0.1-SNAPSHOT", makes isAtLeast throw: the second piece is
   * "21-R0", which is not an int.
   */
  lemma {:induction false} PatchlessReleaseThrows(srvMajor: nat, srvMinor: nat, build: string, major: int, minor: int)
    requires srvMajor <= IntMax
    ensures IsAtLeast(NatToString(srvMajor) + "." + NatToString(srvMinor) + "-" + build, major, minor)
         == Err(NumberFormat(Fields(NatToString(srvMinor) + "-" + build, '.')[0]))
  {
    var majorPart, minorPart := NatToString(srvMajor), NatToString(srvMinor);
    DigitsHaveNoPunctuation(majorPart);
    DigitsHaveNoPunctuation(minorPart);
    var tail := minorPart + "-" + build;
    var v := majorPart + "." + minorPart + "-" + build;
    assert v == majorPart + ['.'] + tail;
    assert v[|majorPart|] == '.';
    FieldsPrefix(majorPart, '.', tail);
    var second := Fields(tail, '.')[0];
    SecondPieceKeepsDash(minorPart, build);
    assert second[0] == minorPart[0];
    assert !IsNumeral(second) by {
      assert second[|minorPart|] == '-';
    }
    LeadingPieces(majorPart, tail, second);
  }

  /** The piece of "digits-build" up to the first '.' still holds the digits and the '-'. */
  lemma SecondPieceKeepsDash(digits: string, build: string)
    requires IsNumeral(digits)
    ensures var piece := Fields(digits + "-" + build, '.')[0];
            |piece| > |digits| && piece[..|digits|] == digits && piece[|digits|] == '-'
  {
    var s := digits + "-" + build;
    DigitsHaveNoPunctuation(digits);
    assert forall i :: 0 <= i <= |digits| ==> s[i] != '.';
    var k := IndexOf(s, '.');
    assert k == -1 || k > |digits|;
  }

  /** The digits of 1 and 21, followed by a build suffix, spell "1.21-R0.1-SNAPSHOT". */
  lemma Spell121()
    ensures NatToString(1) + "." + NatToString(21) + "-" + "R0.1-SNAPSHOT" == "1.21-R0.1-SNAPSHOT"
  {
    assert NatToString(1) == "1";
    assert NatToString(2) == "2";
    assert NatToString(21) == NatToString(2) + [DigitChar(1)] == "21";
  }

  /** The case that shows it: a 1.21 server asked whether it is at least 1.20. */
  lemma Release121Throws()
    ensures IsAtLeast("1.21-R0.1-SNAPSHOT", 1, 20).Err?
  {
    PatchlessReleaseThrows(1, 21, "R0.1-SNAPSHOT", 1, 20);
    Spell121();
  }

  /**
   * isAtLeast as evidently intended: the build suffix, from the first '-' on, is
   * dropped before the segments are read, as Platform.atLeast does.
   */
  function IsAtLeastRelease(bukkitVersion: string, major: int, minor: int): (r: Result<bool>)
    ensures '-' !in bukkitVersion ==> r == IsAtLeast(bukkitVersion, major, minor)
  {
    IsAtLeast(Platform.StripBuildSuffix(bukkitVersion), major, minor)
  }

  /** Every "M.m-build" and "M.m.p-build" version with int-sized numbers is read as (M, m). */
  lemma ReleaseVersionsRead(srvMajor: nat, srvMinor: nat, patch: nat, build: string, major: int, minor: int)
    requires srvMajor <= IntMax && srvMinor <= IntMax
    ensures IsAtLeastRelease(NatToString(srvMajor) + "." + NatToString(srvMinor) + "-" + build, major, minor)
         == Ok(LexAtLeast(srvMajor, srvMinor, major, minor))
    ensures IsAtLeastRelease(NatToString(srvMajor) + "." + NatToString(srvMinor) + "." + NatToString(patch) + "-" + build, major, minor)
         == Ok(LexAtLeast(srvMajor, srvMinor, major, minor))
  {
    var majorPart, minorPart, patchPart := NatToString(srvMajor), NatToString(srvMinor), NatToString(patch);
    DigitsHaveNoPunctuation(majorPart);
    DigitsHaveNoPunctuation(minorPart);
    DigitsHaveNoPunctuation(patchPart);
    var short := majorPart + "." + minorPart;
    var long := majorPart + "." + minorPart + "." + patchPart;
    assert '-' !in short;
    assert '-' !in long;
    Platform.BuildSuffixIgnored(short, build);
    Platform.BuildSuffixIgnored(long, build);
    assert short + "-" + build == majorPart + "." + minorPart + "-" + build;
    assert long + "-" + build == majorPart + "." + minorPart + "." + patchPart + "-" + build;
    NumericReleaseRead(srvMajor, srvMinor, major, minor);
    OnlyFirstTwoSegmentsRead(majorPart, minorPart, patchPart, major, minor);
  }

  /** The corrected gate accepts the 1.21 server as at least 1.20. */
  lemma Release121Accepted()
    ensures IsAtLeastRelease("1.21-R0.1-SNAPSHOT", 1, 20) == Ok(true)
  {
    ReleaseVersionsRead(1, 21, 0, "R0.1-SNAPSHOT", 1, 20);
    Spell121();
  }
}
