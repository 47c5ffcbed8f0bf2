/**
 * The `--resolution` argument parser: `WIDTHxHEIGHT` or `WIDTH:HEIGHT`, with
 * whitespace allowed around each part, and a floor of 150 on both dimensions.
 *
 * The pattern `\s*(\d+)\s*[x:]\s*(\d+)\s*` must match the whole argument. The
 * model reads `\d` as the ASCII digits and `\s` as the ASCII characters that
 * Python's regular expressions treat as whitespace.
 */
module Resolution {
  import opened Wrappers

  /** The smallest width and height accepted. */
  const MinDimension: nat := 150

  datatype ResolutionError =
    | UnableToParse       // the argument does not match the pattern
    | BelowMinimum        // a dimension is smaller than 150

  predicate IsSpace(c: char) {
    var n := c as int;
    n == 32 || 9 <= n <= 13 || 28 <= n <= 31
  }

  predicate IsDigit(c: char) {
    '0' <= c <= '9'
  }

  predicate IsSeparator(c: char) {
    c == 'x' || c == ':'
  }

  predicate AllSpace(s: string) {
    forall i :: 0 <= i < |s| ==> IsSpace(s[i])
  }

  /** A non-empty run of digits: what `(\d+)` captures. */
  predicate IsNumeral(s: string) {
    |s| > 0 && forall i :: 0 <= i < |s| ==> IsDigit(s[i])
  }

  function Pow10(n: nat): (p: nat)
    ensures p >= 1
  {
    if n == 0 then 1 else 10 * Pow10(n - 1)
  }

  /** `int(s)` for a string of decimal digits; leading zeros are allowed. */
  function DigitsValue(s: string): nat
    requires forall i :: 0 <= i < |s| ==> IsDigit(s[i])
  {
    if |s| == 0 then 0
    else
      assert IsDigit(s[|s| - 1]);
      DigitsValue(s[..|s| - 1]) * 10 + (s[|s| - 1] as int - '0' as int)
  }

  /**
   * A string of n digits spells a number below 10^n, and at least 10^(n-1)
   * when it does not start with a zero.
   */
  lemma {:induction false} DigitsValueBounds(s: string)
    requires forall i :: 0 <= i < |s| ==> IsDigit(s[i])
    ensures DigitsValue(s) < Pow10(|s|)
    ensures |s| > 0 && s[0] != '0' ==> Pow10(|s| - 1) <= DigitsValue(s)
  {
    if |s| > 0 {
      var t := s[..|s| - 1];
      DigitsValueBounds(t);
      if |t| > 0 {
        assert t[0] == s[0];
      }
    }
  }

  /** The decimal spelling of a number, without leading zeros. */
  function Decimal(n: nat): (s: string)
    ensures IsNumeral(s) && DigitsValue(s) == n
  {
    var d := ['0' + (n % 10) as char];
    if n < 10 then d
    else
      var s := Decimal(n / 10) + d;
      assert s[..|s| - 1] == Decimal(n / 10);
      s
  }

  /**
   * One way of reading an argument as the pattern: the text matched by each of
   * its seven parts, in order.
   */
  datatype Split = Split(lead: string, width: string, before: string, sep: char,
                         after: string, height: string, trail: string)

  /** Each part of `p` is in the language of its piece of the pattern. */
  predicate WellFormed(p: Split) {
    && AllSpace(p.lead) && IsNumeral(p.width) && AllSpace(p.before)
    && IsSeparator(p.sep)
    && AllSpace(p.after) && IsNumeral(p.height) && AllSpace(p.trail)
  }

  function Join(p: Split): string {
    p.lead + p.width + p.before + [p.sep] + p.after + p.height + p.trail
  }

  /** The end of the longest run of whitespace starting at `i`. */
  function SkipSpace(s: string, i: nat): (j: nat)
    requires i <= |s|
    ensures i <= j <= |s| && (forall k :: i <= k < j ==> IsSpace(s[k]))
    ensures j == |s| || !IsSpace(s[j])
    decreases |s| - i
  {
    if i == |s| || !IsSpace(s[i]) then i else SkipSpace(s, i + 1)
  }

  /** The end of the longest run of digits starting at `i`. */
  function SkipDigits(s: string, i: nat): (j: nat)
    requires i <= |s|
    ensures i <= j <= |s| && (forall k :: i <= k < j ==> IsDigit(s[k]))
    ensures j == |s| || !IsDigit(s[j])
    decreases |s| - i
  {
    if i == |s| || !IsDigit(s[i]) then i else SkipDigits(s, i + 1)
  }

  lemma SlicesJoin(s: string, i1: nat, i2: nat, i3: nat, i4: nat, i5: nat)
    requires i1 <= i2 <= i3 < i4 <= i5 <= |s|
    ensures s[..i1] + s[i1..i2] + s[i2..i3] + [s[i3]] + s[i3 + 1..i4] + s[i4..i5] + s[i5..] == s
  {
    assert s[..i2] == s[..i1] + s[i1..i2];
    assert s[..i3] == s[..i2] + s[i2..i3];
    assert s[..i3 + 1] == s[..i3] + [s[i3]];
    assert s[..i4] == s[..i3 + 1] + s[i3 + 1..i4];
    assert s[..i5] == s[..i4] + s[i4..i5];
    assert s == s[..i5] + s[i5..];
  }

  /** Scans `s` against the pattern from left to right, as a full match. */
  function Scan(s: string): Option<Split> {
    var i1 := SkipSpace(s, 0);
    var i2 := SkipDigits(s, i1);
    if i2 == i1 then None
    else
      var i3 := SkipSpace(s, i2);
      if i3 == |s| || !IsSeparator(s[i3]) then None
      else
        var i4 := SkipSpace(s, i3 + 1);
        var i5 := SkipDigits(s, i4);
        if i5 == i4 then None
        else if SkipSpace(s, i5) != |s| then None
        else Some(Split(s[..i1], s[i1..i2], s[i2..i3], s[i3], s[i3 + 1..i4], s[i4..i5], s[i5..]))
  }

  lemma {:induction false} SkipSpaceTo(s: string, i: nat, j: nat)
    requires i <= j <= |s|
    requires forall k :: i <= k < j ==> IsSpace(s[k])
    requires j == |s| || !IsSpace(s[j])
    ensures SkipSpace(s, i) == j
    decreases j - i
  {
    if i < j {
      SkipSpaceTo(s, i + 1, j);
    }
  }

  lemma {:induction false} SkipDigitsTo(s: string, i: nat, j: nat)
    requires i <= j <= |s|
    requires forall k :: i <= k < j ==> IsDigit(s[k])
    requires j == |s| || !IsDigit(s[j])
    ensures SkipDigits(s, i) == j
    decreases j - i
  {
    if i < j {
      SkipDigitsTo(s, i + 1, j);
    }
  }

  /** Where each part of a split lies in the joined text. */
  lemma JoinLayout(p: Split, s: string, a: nat, b: nat, c: nat, d: nat, e: nat)
    requires s == Join(p) && a == |p.lead| && b == a + |p.width| && c == b + |p.before|
    requires d == c + 1 + |p.after| && e == d + |p.height|
    ensures |s| == e + |p.trail|
    ensures s[..a] == p.lead && s[a..b] == p.width && s[b..c] == p.before && s[c] == p.sep
    ensures s[c + 1..d] == p.after && s[d..e] == p.height && s[e..] == p.trail
  {
    var x1 := p.lead;
    var x2 := x1 + p.width;
    var x3 := x2 + p.before;
    var x4 := x3 + [p.sep];
    var x5 := x4 + p.after;
    var x6 := x5 + p.height;
    assert s == x6 + p.trail;
    assert s[..e] == x6 && s[e..] == p.trail;
    assert x6[..d] == x5 && x6[d..] == p.height;
    assert x5[..c + 1] == x4 && x5[c + 1..] == p.after;
    assert x4[..c] == x3;
    assert x3[..b] == x2 && x3[b..] == p.before;
    assert x2[..a] == x1 && x2[a..] == p.width;
  }

  lemma SkipSpaceOver(s: string, i: nat, j: nat)
    requires i <= j <= |s| && AllSpace(s[i..j]) && (j == |s| || !IsSpace(s[j]))
    ensures SkipSpace(s, i) == j
  {
    forall k | i <= k < j ensures IsSpace(s[k]) { assert s[k] == s[i..j][k - i]; }
    SkipSpaceTo(s, i, j);
  }

  lemma SkipDigitsOver(s: string, i: nat, j: nat)
    requires i <= j <= |s| && IsNumeral(s[i..j]) && (j == |s| || !IsDigit(s[j]))
    ensures SkipDigits(s, i) == j
  {
    forall k | i <= k < j ensures IsDigit(s[k]) { assert s[k] == s[i..j][k - i]; }
    SkipDigitsTo(s, i, j);
  }

  /** `Scan` in terms of the ends of the runs it skips. */
  lemma ScanAt(s: string, a: nat, b: nat, c: nat, d: nat, e: nat)
    requires a < b <= c < d < e <= |s|
    requires SkipSpace(s, 0) == a && SkipDigits(s, a) == b && SkipSpace(s, b) == c
    requires IsSeparator(s[c]) && SkipSpace(s, c + 1) == d && SkipDigits(s, d) == e
    requires SkipSpace(s, e) == |s|
    ensures Scan(s) == Some(Split(s[..a], s[a..b], s[b..c], s[c], s[c + 1..d], s[d..e], s[e..]))
  {
  }

  /**
   * The pattern reads every matching argument in exactly one way, and `Scan`
   * finds that reading: digits, whitespace and separators never overlap.
   */
  lemma ScanFindsSplit(p: Split)
    requires WellFormed(p)
    ensures Scan(Join(p)) == Some(p)
  {
    var s := Join(p);
    var a := |p.lead|;
    var b := a + |p.width|;
    var c := b + |p.before|;
    var d := c + 1 + |p.after|;
    var e := d + |p.height|;
    JoinLayout(p, s, a, b, c, d, e);
    assert s[a] == p.width[0] && s[d] == p.height[0];
    assert s[b] == if |p.before| > 0 then p.before[0] else p.sep;
    assert e == |s| || s[e] == p.trail[0];
    SkipSpaceOver(s, 0, a);
    SkipDigitsOver(s, a, b);
    SkipSpaceOver(s, b, c);
    SkipSpaceOver(s, c + 1, d);
    SkipDigitsOver(s, d, e);
    SkipSpaceOver(s, e, |s|);
    ScanAt(s, a, b, c, d, e);
    assert Split(s[..a], s[a..b], s[b..c], s[c], s[c + 1..d], s[d..e], s[e..]) == p;
  }

  /** The split `Scan` builds from the ends of the runs it skips is a reading of `s`. */
  lemma SplitAtSound(s: string, a: nat, b: nat, c: nat, d: nat, e: nat)
    requires a < b <= c < d < e <= |s|
    requires SkipSpace(s, 0) == a && SkipDigits(s, a) == b && SkipSpace(s, b) == c
    requires IsSeparator(s[c]) && SkipSpace(s, c + 1) == d && SkipDigits(s, d) == e
    requires SkipSpace(s, e) == |s|
    ensures var p := Split(s[..a], s[a..b], s[b..c], s[c], s[c + 1..d], s[d..e], s[e..]);
            WellFormed(p) && Join(p) == s
  {
    SlicesJoin(s, a, b, c, d, e);
    assert AllSpace(s[..a]) && AllSpace(s[b..c]) && AllSpace(s[c + 1..d]) && AllSpace(s[e..]);
    assert IsNumeral(s[a..b]) && IsNumeral(s[d..e]);
  }

  /** Whatever `Scan` returns is a reading of its input as the pattern. */
  lemma ScanSound(s: string)
    ensures Scan(s).Some? ==> WellFormed(Scan(s).value) && Join(Scan(s).value) == s
  {
    if Scan(s).Some? {
      var a := SkipSpace(s, 0);
      var b := SkipDigits(s, a);
      var c := SkipSpace(s, b);
      assert a < b && c < |s| && IsSeparator(s[c]);
      var d := SkipSpace(s, c + 1);
      var e := SkipDigits(s, d);
      assert d < e && SkipSpace(s, e) == |s|;
      ScanAt(s, a, b, c, d, e);
      SplitAtSound(s, a, b, c, d, e);
    }
  }

  /** `resolution(arg)`: the pair (width, height), or the error argparse reports. */
  function ParseResolution(s: string): (r: Result<(nat, nat), ResolutionError>)
    ensures r.Ok? ==> r.value.0 >= MinDimension && r.value.1 >= MinDimension
  {
    match Scan(s)
    case None => Err(UnableToParse)
    case Some(p) =>
      var width, height := DigitsValue(p.width), DigitsValue(p.height);
      if width < MinDimension || height < MinDimension then Err(BelowMinimum)
      else Ok((width, height))
  }

  /**
   * An argument that matches the pattern yields the two numbers it spells,
   * or the "Minimal resolution" error when either is below 150.
   */
  lemma ResolutionOfMatch(p: Split)
    requires WellFormed(p)
    ensures var width, height := DigitsValue(p.width), DigitsValue(p.height);
            ParseResolution(Join(p)) ==
              if width < MinDimension || height < MinDimension then Err(BelowMinimum)
              else Ok((width, height))
  {
    ScanFindsSplit(p);
  }

  /** "Unable to parse" is reported exactly for the arguments that do not match the pattern. */
  lemma ResolutionUnparsable(s: string)
    ensures ParseResolution(s) == Err(UnableToParse) <==> forall p :: WellFormed(p) ==> Join(p) != s
  {
    if ParseResolution(s) != Err(UnableToParse) {
      ScanSound(s);
      assert WellFormed(Scan(s).value) && Join(Scan(s).value) == s;
    } else {
      forall p | WellFormed(p) ensures Join(p) != s {
        ScanFindsSplit(p);
      }
    }
  }

  /** Printing a valid resolution as `WIDTHxHEIGHT` and parsing it gives it back. */
  lemma ResolutionRoundTrip(width: nat, height: nat, sep: char)
    requires width >= MinDimension && height >= MinDimension && IsSeparator(sep)
    ensures ParseResolution(Decimal(width) + [sep] + Decimal(height)) == Ok((width, height))
  {
    var p := Split("", Decimal(width), "", sep, "", Decimal(height), "");
    assert Join(p) == Decimal(width) + [sep] + Decimal(height);
    assert WellFormed(p);
    ResolutionOfMatch(p);
  }

  // Examples. `ResolutionExampleAccepted` receives its digit strings as
  // parameters fixed by a `requires`: written as literals, they would make the
  // verifier unfold `DigitsValue` on every literal slice it meets.

  /** An argument from the option's help: "800x600". */
  lemma ResolutionExampleAccepted(w: string, h: string)
    requires w == "800" && h == "600"
    ensures ParseResolution(w + "x" + h) == Ok((800, 600))
  {
    var p := Split("", w, "", 'x', "", h, "");
    assert Join(p) == w + "x" + h;
    assert DigitsValue(w) == 800 by {
      assert w[..2][..1] == w[..1] && w[..1][..0] == [];
      assert DigitsValue(w[..1]) == 8;
      assert DigitsValue(w[..2]) == 80;
    }
    assert DigitsValue(h) == 600 by {
      assert h[..2][..1] == h[..1] && h[..1][..0] == [];
      assert DigitsValue(h[..1]) == 6;
      assert DigitsValue(h[..2]) == 60;
    }
    ResolutionOfMatch(p);
  }

  /** A width below the floor: "100x200". */
  lemma ResolutionExampleTooSmall()
    ensures ParseResolution("100x200") == Err(BelowMinimum)
  {
    var p := Split("", "100", "", 'x', "", "200", "");
    assert Join(p) == "100x200";
    assert WellFormed(p);
    assert "100"[..2] == "10" && "10"[..1] == "1";
    ResolutionOfMatch(p);
  }

  /** The separator is a lower-case `x` or a colon, nothing else. */
  lemma ResolutionExampleUpperX()
    ensures ParseResolution("1920X1080") == Err(UnableToParse)
  {
    var s := "1920X1080";
    assert SkipSpace(s, 0) == 0;
    assert SkipDigits(s, 4) == 4;
    assert SkipDigits(s, 0) == 4;
    assert SkipSpace(s, 4) == 4;
  }
}
