/**
 * The few pieces of the Java standard library the core relies on, written out:
 * Math.max and Math.min, String.indexOf(char), String.split with a one-character
 * literal pattern (as in split("\\.")), Integer.parseInt in radix 10, and the
 * decimal rendering of a non-negative int used in string concatenation.
 */
module JavaLang {
  import opened Failures

  function Max(a: int, b: int): int { if a >= b then a else b }

  function Min(a: int, b: int): int { if a <= b then a else b }

  // ---------------------------------------------------------------------------
  // String.indexOf(char)
  // ---------------------------------------------------------------------------

  /** The index of the first occurrence of `c` in `s`, or -1 when there is none. */
  function IndexOf(s: string, c: char): (r: int)
    ensures -1 <= r < |s|
    ensures r == -1 <==> c !in s
    ensures 0 <= r ==> s[r] == c && c !in s[..r]
  {
    if s == [] then -1
    else if s[0] == c then 0
    else
      var k := IndexOf(s[1..], c);
      if k == -1 then -1
      else
        assert s[..k + 1] == [s[0]] + s[1..][..k];
        k + 1
  }

  /** The first occurrence of `c` in `a + [c] + b` is the one after `a` when `a` has none. */
  lemma IndexOfAfterPrefix(a: string, c: char, b: string)
    requires c !in a
    ensures IndexOf(a + [c] + b, c) == |a|
  {
    var s := a + [c] + b;
    assert s[|a|] == c;
    assert forall i :: 0 <= i < |a| ==> s[i] == a[i];
  }

  // ---------------------------------------------------------------------------
  // String.split on a one-character literal separator
  // ---------------------------------------------------------------------------

  /** All the pieces between separators, empty ones included: what split returns before trailing empty strings are dropped. */
  function Fields(s: string, sep: char): (r: seq<string>)
    ensures |r| >= 1
    ensures forall i :: 0 <= i < |r| ==> sep !in r[i]
    decreases |s|
  {
    var k := IndexOf(s, sep);
    if k == -1 then [s] else [s[..k]] + Fields(s[k + 1..], sep)
  }

  /** The pieces put back together with `sep` between them. */
  function Join(fs: seq<string>, sep: char): string
    requires |fs| >= 1
  {
    if |fs| == 1 then fs[0] else fs[0] + [sep] + Join(fs[1..], sep)
  }

  /** Splitting loses nothing: joining the fields gives back the string. */
  lemma {:induction false} JoinFields(s: string, sep: char)
    ensures Join(Fields(s, sep), sep) == s
    decreases |s|
  {
    var k := IndexOf(s, sep);
    if k != -1 {
      JoinFields(s[k + 1..], sep);
      assert Fields(s, sep)[1..] == Fields(s[k + 1..], sep);
      assert s == s[..k] + [sep] + s[k + 1..];
    }
  }

  /** Joining separator-free fields and splitting again gives back the fields. */
  lemma {:induction false} FieldsJoin(fs: seq<string>, sep: char)
    requires |fs| >= 1
    requires forall i :: 0 <= i < |fs| ==> sep !in fs[i]
    ensures Fields(Join(fs, sep), sep) == fs
  {
    if |fs| > 1 {
      var rest := Join(fs[1..], sep);
      assert Join(fs, sep) == fs[0] + [sep] + rest;
      FieldsPrefix(fs[0], sep, rest);
      assert forall i :: 0 <= i < |fs| - 1 ==> fs[1..][i] == fs[i + 1];
      FieldsJoin(fs[1..], sep);
      assert fs == [fs[0]] + fs[1..];
    }
  }

  /** A leading piece without the separator is the first field. */
  lemma FieldsPrefix(a: string, sep: char, b: string)
    requires sep !in a
    ensures Fields(a + [sep] + b, sep) == [a] + Fields(b, sep)
  {
    var s := a + [sep] + b;
    IndexOfAfterPrefix(a, sep, b);
    assert s[..|a|] == a;
    assert s[|a| + 1..] == b;
  }

  /** Dropping trailing empty strings keeps every field up to the last non-empty one. */
  lemma DropTrailingEmptyKeeps(fs: seq<string>, n: nat)
    requires n < |fs| && fs[n] != ""
    ensures n < |DropTrailingEmpty(fs)| && DropTrailingEmpty(fs)[n] == fs[n]
  {
  }

  /** Appending one more separator and piece appends one more field. */
  lemma FieldsAppend(s: string, sep: char, tail: string)
    requires sep !in tail
    ensures Fields(s + [sep] + tail, sep) == Fields(s, sep) + [tail]
  {
    var fs := Fields(s, sep) + [tail];
    JoinFields(s, sep);
    JoinAppend(Fields(s, sep), sep, tail);
    FieldsJoin(fs, sep);
  }

  lemma {:induction false} JoinAppend(fs: seq<string>, sep: char, tail: string)
    requires |fs| >= 1
    ensures Join(fs + [tail], sep) == Join(fs, sep) + [sep] + tail
  {
    if |fs| > 1 {
      assert (fs + [tail])[1..] == fs[1..] + [tail];
      JoinAppend(fs[1..], sep, tail);
    }
  }

  /** Removes the empty strings at the end of a list of fields. */
  function DropTrailingEmpty(fs: seq<string>): (r: seq<string>)
    ensures |r| <= |fs| && r == fs[..|r|]
    ensures r == [] || r[|r| - 1] != ""
    ensures forall i :: |r| <= i < |fs| ==> fs[i] == ""
  {
    if fs == [] then []
    else if fs[|fs| - 1] == "" then DropTrailingEmpty(fs[..|fs| - 1])
    else fs
  }

  /** The last character of joined pieces is the last character of the last piece. */
  lemma JoinEndsWithLastPiece(fs: seq<string>, sep: char)
    requires |fs| >= 1 && fs[|fs| - 1] != ""
    ensures var j, last := Join(fs, sep), fs[|fs| - 1];
            |j| >= 1 && j[|j| - 1] == last[|last| - 1]
  {
    if |fs| > 1 {
      var pre := fs[..|fs| - 1];
      assert fs == pre + [fs[|fs| - 1]];
      JoinAppend(pre, sep, fs[|fs| - 1]);
    }
  }

  /**
   * Dropping trailing empty fields drops a run of separators from the end of
   * the joined string: what is kept joins to a prefix of it, and everything
   * after that prefix is a separator.
   */
  lemma {:induction false} DropTrailingEmptyJoin(fs: seq<string>, sep: char)
    requires |fs| >= 1
    ensures var r, s := DropTrailingEmpty(fs), Join(fs, sep);
            (r == [] ==> forall i :: 0 <= i < |s| ==> s[i] == sep) &&
            (r != [] ==> var j := Join(r, sep);
                         |j| <= |s| && j == s[..|j|] && forall i :: |j| <= i < |s| ==> s[i] == sep)
  {
    if fs[|fs| - 1] == "" && |fs| > 1 {
      var pre := fs[..|fs| - 1];
      assert fs == pre + [""];
      JoinAppend(pre, sep, "");
      DropTrailingEmptyJoin(pre, sep);
    }
  }

  /**
   * String.split with a one-character literal pattern: a string without the
   * separator splits into itself (so "" gives [""]); otherwise the fields,
   * with the trailing empty strings removed.
   */
  function Split(s: string, sep: char): (r: seq<string>)
    ensures forall i :: 0 <= i < |r| ==> sep !in r[i]
    ensures sep !in s ==> r == [s]
    ensures sep in s ==> r == [] || r[|r| - 1] != ""
  {
    if sep !in s then [s] else DropTrailingEmpty(Fields(s, sep))
  }

  /**
   * What split keeps: when it returns no pieces the string is all separators;
   * otherwise the pieces joined back with the separator are the string with
   * its trailing run of separators removed.
   */
  lemma SplitRejoins(s: string, sep: char)
    ensures var r := Split(s, sep);
            (r == [] ==> forall i :: 0 <= i < |s| ==> s[i] == sep) &&
            (r != [] ==> var j := Join(r, sep);
                         |j| <= |s| && j == s[..|j|] && (forall i :: |j| <= i < |s| ==> s[i] == sep) &&
                         (sep in s ==> |j| >= 1 && j[|j| - 1] != sep))
  {
    if sep in s {
      var fs := Fields(s, sep);
      var r := DropTrailingEmpty(fs);
      assert Split(s, sep) == r;
      JoinFields(s, sep);
      DropTrailingEmptyJoin(fs, sep);
      if r != [] {
        var last := r[|r| - 1];
        JoinEndsWithLastPiece(r, sep);
        assert sep !in last;
      }
    } else {
      assert Join([s], sep) == s;
    }
  }

  // ---------------------------------------------------------------------------
  // Integer.parseInt (radix 10) and Integer.toString
  // ---------------------------------------------------------------------------

  const IntMin: int := -0x8000_0000
  const IntMax: int := 0x7fff_ffff

  predicate IsDigit(c: char) { '0' <= c <= '9' }

  predicate AllDigits(s: string) { forall i :: 0 <= i < |s| ==> IsDigit(s[i]) }

  /** A non-empty run of decimal digits. */
  predicate IsNumeral(s: string) { |s| >= 1 && AllDigits(s) }

  function DigitValue(c: char): nat
    requires IsDigit(c)
  {
    c as int - '0' as int
  }

  function DigitChar(d: nat): (c: char)
    requires d < 10
    ensures IsDigit(c) && DigitValue(c) == d
  {
    ('0' as int + d) as char
  }

  /** The value of a run of decimal digits, most significant first. */
  function NumeralValue(s: string): nat
    requires AllDigits(s)
  {
    if s == [] then 0
    else NumeralValue(s[..|s| - 1]) * 10 + DigitValue(s[|s| - 1])
  }

  /**
   * Integer.parseInt(s): an optional sign followed by at least one digit, whose
   * value fits in a 32-bit int; anything else is a NumberFormatException (None).
   */
  function ParseInt(s: string): (r: Option<int>)
    ensures r.Some? ==> IntMin <= r.value <= IntMax
    ensures IsNumeral(s) && NumeralValue(s) <= IntMax ==> r == Some(NumeralValue(s))
    ensures IsNumeral(s) && NumeralValue(s) > IntMax ==> r == None
    ensures r.Some? ==> IsNumeral(s) || (|s| >= 2 && s[0] in {'-', '+'} && IsNumeral(s[1..]))
  {
    if |s| >= 2 && (s[0] == '-' || s[0] == '+') && IsNumeral(s[1..]) then
      var v: int := if s[0] == '-' then -(NumeralValue(s[1..]) as int) else NumeralValue(s[1..]);
      if IntMin <= v <= IntMax then Some(v) else None
    else if IsNumeral(s) && NumeralValue(s) <= IntMax then Some(NumeralValue(s))
    else None
  }

  /** The NumberFormatException Integer.parseInt throws for `s`. */
  function NumberFormat(s: string): Throwable {
    Unchecked("NumberFormatException", "For input string: \"" + s + "\"", None)
  }

  /** The ArrayIndexOutOfBoundsException for reading `index` of an array of `length` elements. */
  function IndexOutOfBounds(index: nat, length: nat): Throwable {
    Unchecked("ArrayIndexOutOfBoundsException",
              "Index " + NatToString(index) + " out of bounds for length " + NatToString(length), None)
  }

  /** The decimal rendering of a non-negative int (Integer.toString, as used by string concatenation). */
  function NatToString(n: nat): (s: string)
    ensures IsNumeral(s) && NumeralValue(s) == n
    ensures s[0] != '0' || s == "0"
  {
    if n < 10 then [DigitChar(n)]
    else
      var prefix := NatToString(n / 10);
      var s := prefix + [DigitChar(n % 10)];
      assert s[..|s| - 1] == prefix;
      s
  }
}
