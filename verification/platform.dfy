/**
 * Version gating: a naive dotted-version comparison. Versions are split on '.',
 * each segment is read as an int (a segment that does not parse counts as 0),
 * the shorter version is padded with zero segments, and the first differing
 * segment decides. The server's version string is an argument.
 */
module Platform {
  import opened Failures
  import opened JavaLang

  /** parse(s): Integer.parseInt, with any failure read as 0. */
  function Parse(s: string): (r: int)
    ensures IntMin <= r <= IntMax
    ensures IsNumeral(s) && NumeralValue(s) <= IntMax ==> r == NumeralValue(s)
    ensures ParseInt(s).None? ==> r == 0
  {
    ParseInt(s).GetOr(0)
  }

  /** Each piece read by parse. */
  function ParseAll(parts: seq<string>): seq<int> {
    seq(|parts|, i requires 0 <= i < |parts| => Parse(parts[i]))
  }

  /** The numeric segments of a version string, one per piece of split("\\."). */
  function Segments(v: string): seq<int> {
    ParseAll(Split(v, '.'))
  }

  /** Segment `i` of a version padded with zeros. */
  function At(xs: seq<int>, i: nat): int {
    if i < |xs| then xs[i] else 0
  }

  /** `j` (at or after `i`) is the first index from `i` on where the padded versions differ. */
  predicate FirstDifference(xs: seq<int>, ys: seq<int>, i: nat, j: nat) {
    i <= j && At(xs, j) != At(ys, j) && forall k: nat :: i <= k < j ==> At(xs, k) == At(ys, k)
  }

  /** The comparison from segment `i` on, as the loop of compare runs it. */
  function CompareFrom(xs: seq<int>, ys: seq<int>, i: nat): int
    decreases Max(|xs|, |ys|) - i
  {
    if i >= Max(|xs|, |ys|) then 0
    else if At(xs, i) != At(ys, i) then (if At(xs, i) < At(ys, i) then -1 else 1)
    else CompareFrom(xs, ys, i + 1)
  }

  /**
   * What the comparison means: -1, 0 or 1, zero exactly when no padded segment
   * from `i` on differs, and otherwise the sign of the first difference.
   */
  lemma {:induction false} CompareFromFirstDifference(xs: seq<int>, ys: seq<int>, i: nat)
    ensures var r := CompareFrom(xs, ys, i);
            -1 <= r <= 1 &&
            (r == 0 <==> forall j: nat :: i <= j < Max(|xs|, |ys|) ==> At(xs, j) == At(ys, j)) &&
            (r != 0 ==> exists j: nat :: j < Max(|xs|, |ys|) && FirstDifference(xs, ys, i, j) &&
                                         (r < 0 <==> At(xs, j) < At(ys, j)))
    decreases Max(|xs|, |ys|) - i
  {
    if i < Max(|xs|, |ys|) {
      if At(xs, i) != At(ys, i) {
        assert FirstDifference(xs, ys, i, i);
      } else {
        CompareFromFirstDifference(xs, ys, i + 1);
        var r := CompareFrom(xs, ys, i + 1);
        if r != 0 {
          var j: nat :| j < Max(|xs|, |ys|) && FirstDifference(xs, ys, i + 1, j) && (r < 0 <==> At(xs, j) < At(ys, j));
          assert FirstDifference(xs, ys, i, j);
        }
      }
    }
  }

  /** compare(a, b) as a function of the two version strings. */
  function CompareVersions(a: string, b: string): int {
    CompareFrom(Segments(a), Segments(b), 0)
  }

  /** compare(a, b): the index loop that returns at the first differing segment. */
  method Compare(a: string, b: string) returns (r: int)
    ensures r == CompareVersions(a, b)
  {
    var aParts := Split(a, '.');
    var bParts := Split(b, '.');
    ghost var xs, ys := ParseAll(aParts), ParseAll(bParts);
    assert |xs| == |aParts| && |ys| == |bParts|;
    var n := Max(|aParts|, |bParts|);
    for i := 0 to n
      invariant CompareFrom(xs, ys, i) == CompareVersions(a, b)
    {
      var ai := if i < |aParts| then Parse(aParts[i]) else 0;
      var bi := if i < |bParts| then Parse(bParts[i]) else 0;
      assert ai == At(xs, i) && bi == At(ys, i);
      CompareFromStep(xs, ys, i);
      if ai != bi {
        return if ai < bi then -1 else 1;
      }
    }
    return 0;
  }

  /** One step of the loop of compare: a differing segment decides, an equal one defers to the next. */
  lemma CompareFromStep(xs: seq<int>, ys: seq<int>, i: nat)
    requires i < Max(|xs|, |ys|)
    ensures At(xs, i) != At(ys, i) ==> CompareFrom(xs, ys, i) == (if At(xs, i) < At(ys, i) then -1 else 1)
    ensures At(xs, i) == At(ys, i) ==> CompareFrom(xs, ys, i) == CompareFrom(xs, ys, i + 1)
  {
  }

  /** The version atLeast compares: everything from the first '-' on is dropped. */
  function StripBuildSuffix(v: string): (r: string)
    ensures '-' !in r
    ensures |r| <= |v| && r == v[..|r|]
    ensures '-' in v ==> v[|r|] == '-'
    ensures '-' !in v ==> r == v
  {
    var dash := IndexOf(v, '-');
    if dash != -1 then v[..dash] else v
  }

  /** atLeast(required) against the server version `serverVersion`. */
  method AtLeast(serverVersion: string, required: string) returns (ok: bool)
    ensures ok <==> CompareVersions(StripBuildSuffix(serverVersion), required) >= 0
  {
    var ver := serverVersion;
    var dash := IndexOf(ver, '-');
    if dash != -1 {
      ver := ver[..dash];
    }
    var c := Compare(ver, required);
    return c >= 0;
  }

  // ---------------------------------------------------------------------------
  // Properties of the comparison
  // ---------------------------------------------------------------------------

  /** Swapping the arguments flips the sign. */
  lemma {:induction false} CompareFromAntisymmetric(xs: seq<int>, ys: seq<int>, i: nat)
    ensures CompareFrom(xs, ys, i) == -CompareFrom(ys, xs, i)
    decreases Max(|xs|, |ys|) - i
  {
    if i < Max(|xs|, |ys|) && At(xs, i) == At(ys, i) {
      CompareFromAntisymmetric(xs, ys, i + 1);
    }
  }

  /** compare(a, b) and compare(b, a) have opposite signs, and compare(a, a) is 0. */
  lemma CompareAntisymmetric(a: string, b: string)
    ensures CompareVersions(a, b) == -CompareVersions(b, a)
    ensures CompareVersions(a, a) == 0
  {
    CompareFromAntisymmetric(Segments(a), Segments(b), 0);
    CompareFromAntisymmetric(Segments(a), Segments(a), 0);
  }

  /** "At least" is transitive from segment `i` on. */
  lemma {:induction false} CompareFromTransitive(xs: seq<int>, ys: seq<int>, zs: seq<int>, i: nat)
    requires CompareFrom(xs, ys, i) >= 0 && CompareFrom(ys, zs, i) >= 0
    ensures CompareFrom(xs, zs, i) >= 0
    decreases Max(Max(|xs|, |ys|), |zs|) - i
  {
    if i < Max(Max(|xs|, |ys|), |zs|) && At(xs, i) == At(ys, i) && At(ys, i) == At(zs, i) {
      CompareFromTransitive(xs, ys, zs, i + 1);
    }
  }

  /** A server at least `r1`, where `r1` is at least `r2`, is at least `r2`. */
  lemma CompareTransitive(a: string, b: string, c: string)
    requires CompareVersions(a, b) >= 0 && CompareVersions(b, c) >= 0
    ensures CompareVersions(a, c) >= 0
  {
    CompareFromTransitive(Segments(a), Segments(b), Segments(c), 0);
  }

  /** Two versions with the same padded segments. */
  ghost predicate SamePadded(xs: seq<int>, ys: seq<int>) {
    forall j: nat :: At(xs, j) == At(ys, j)
  }

  /** The comparison only sees padded segments. */
  lemma {:induction false} CompareFromPadded(xs: seq<int>, xs': seq<int>, ys: seq<int>, i: nat)
    requires SamePadded(xs, xs')
    ensures CompareFrom(xs, ys, i) == CompareFrom(xs', ys, i)
    decreases Max(Max(|xs|, |xs'|), |ys|) - i
  {
    if i < Max(Max(|xs|, |xs'|), |ys|) {
      assert At(xs, i) == At(xs', i);
      CompareFromPadded(xs, xs', ys, i + 1);
    }
  }

  /** Segments of split pieces with trailing empty pieces dropped are the same once padded. */
  lemma {:induction false} DroppedPiecesReadAsZero(fs: seq<string>)
    ensures SamePadded(ParseAll(fs), ParseAll(DropTrailingEmpty(fs)))
  {
    var kept := DropTrailingEmpty(fs);
    var xs, ys := ParseAll(fs), ParseAll(kept);
    forall j: nat
      ensures At(xs, j) == At(ys, j)
    {
      if j < |kept| {
        assert kept[j] == fs[j];
      } else if j < |fs| {
        assert fs[j] == "";
        assert ParseInt("").None?;
      }
    }
  }

  /** Splitting `a + ".0"` gives every field of `a`, then "0". */
  lemma SplitWithZeroPiece(a: string)
    ensures Split(a + ".0", '.') == Fields(a, '.') + ["0"]
  {
    FieldsAppend(a, '.', "0");
    assert a + ".0" == a + ['.'] + "0";
    assert (a + ".0")[|a|] == '.';
  }

  /** The segments of `a + ".0"` are those of `a` once padded. */
  lemma TrailingZeroSegments(a: string)
    ensures SamePadded(Segments(a + ".0"), Segments(a))
  {
    var fs := Fields(a, '.');
    SplitWithZeroPiece(a);
    var xs := Segments(a + ".0");
    var raw := ParseAll(fs);
    assert SamePadded(xs, raw) by {
      forall j: nat
        ensures At(xs, j) == At(raw, j)
      {
        if j == |fs| {
          assert At(xs, j) == Parse("0") == 0;
        }
      }
    }
    if '.' in a {
      DroppedPiecesReadAsZero(fs);
    } else {
      assert fs == [a];
    }
  }

  /** Appending a ".0" segment changes nothing, so "1.20" compares equal to "1.20.0". */
  lemma CompareIgnoresTrailingZero(a: string, b: string)
    ensures CompareVersions(a + ".0", b) == CompareVersions(a, b)
    ensures CompareVersions(a, a + ".0") == 0
  {
    TrailingZeroSegments(a);
    var xs := Segments(a + ".0");
    CompareFromPadded(xs, Segments(a), Segments(b), 0);
    CompareFromPadded(xs, Segments(a), Segments(a), 0);
    CompareAntisymmetric(a, a + ".0");
    CompareAntisymmetric(a, a);
  }

  /** atLeast ignores the build suffix: a server "base-anything" is compared as "base". */
  lemma BuildSuffixIgnored(base: string, suffix: string)
    requires '-' !in base
    ensures StripBuildSuffix(base + "-" + suffix) == base
  {
    var v := base + "-" + suffix;
    IndexOfAfterPrefix(base, '-', suffix);
    assert v[..|base|] == base;
  }
}
