/** Deterministic artifact names: `gameplay_{i:02d}_frame_{F:04d}.png`.
    Python's `{n:0Wd}` on a non-negative integer writes its decimal digits,
    left-padded with '0' to at least W characters, and never truncates. */
module Naming {
  import opened Optional

  function Max(a: int, b: int): int { if a < b then b else a }

  predicate IsDigit(c: char) { '0' <= c <= '9' }

  predicate AllDigits(s: string) { forall k :: 0 <= k < |s| ==> IsDigit(s[k]) }

  function DigitChar(d: nat): (c: char)
    requires d < 10
  {
    ('0' as int + d) as char
  }

  function DigitValue(c: char): (d: nat)
    requires IsDigit(c)
  {
    c as int - '0' as int
  }

  /** The decimal digits of n, most significant first, with no leading zero. */
  function Decimal(n: nat): (s: string)
    ensures 1 <= |s| && AllDigits(s)
    ensures s[0] == '0' ==> n == 0
    decreases n
  {
    if n < 10 then [DigitChar(n)] else Decimal(n / 10) + [DigitChar(n % 10)]
  }

  /** The number a string of digits denotes, read most significant digit first. */
  function ValueOf(s: string): nat
    requires AllDigits(s)
  {
    if s == [] then 0 else 10 * ValueOf(s[..|s| - 1]) + DigitValue(s[|s| - 1])
  }

  function Zeros(k: nat): (s: string)
    ensures |s| == k && forall j :: 0 <= j < k ==> s[j] == '0'
  {
    if k == 0 then [] else Zeros(k - 1) + ['0']
  }

  function Pow10(w: nat): (p: nat)
    ensures p >= 1
  {
    if w == 0 then 1 else 10 * Pow10(w - 1)
  }

  /** `{n:0<width>d}` for a non-negative n: a string of digits, at least `width`
      characters long, and exactly `width` when n has at most `width` digits. */
  function Pad0(n: nat, width: nat): (r: string)
    ensures |r| == Max(width, |Decimal(n)|)
    ensures AllDigits(r)
  {
    var d := Decimal(n);
    if |d| >= width then d else Zeros(width - |d|) + d
  }

  const Prefix: string := "gameplay_"
  const Middle: string := "_frame_"
  const Suffix: string := ".png"

  /** The file name given to the screenshot with 1-based sequence index i taken
      at frame f. It is never shorter than the fixed text plus the two padded
      widths, and is exactly 26 characters long whenever i has at most two
      digits and f at most four. */
  function ScreenshotName(i: nat, f: nat): (r: string)
    ensures |r| >= |Prefix| + 2 + |Middle| + 4 + |Suffix|
    ensures i < 100 && f < 10000 ==> |r| == 26
  {
    DecimalWidth(i, 2);
    DecimalWidth(f, 4);
    assert Pow10(2) == 100 && Pow10(4) == 10000;
    Prefix + (Pad0(i, 2) + Middle + (Pad0(f, 4) + Suffix))
  }

  // ---------------------------------------------------------------------------
  // Padding: minimum width, no truncation, value preserved

  /** Pad0 is zeros followed by the full decimal form of n: padding never truncates. */
  lemma PadShape(n: nat, width: nat)
    ensures Pad0(n, width) == Zeros(|Pad0(n, width)| - |Decimal(n)|) + Decimal(n)
  {
  }

  /** A number below 10^w has at most w digits. */
  lemma {:induction false} DecimalWidth(n: nat, w: nat)
    ensures 1 <= w && n < Pow10(w) ==> |Decimal(n)| <= w
    decreases n
  {
    if 1 <= w && n < Pow10(w) && n >= 10 {
      assert w >= 2;
      assert n / 10 < Pow10(w - 1);
      DecimalWidth(n / 10, w - 1);
    }
  }

  lemma {:induction false} ValueOfDecimal(n: nat)
    ensures ValueOf(Decimal(n)) == n
    decreases n
  {
    if n >= 10 {
      var s := Decimal(n);
      assert s[..|s| - 1] == Decimal(n / 10);
      ValueOfDecimal(n / 10);
    }
  }

  lemma {:induction false} ValueOfZeros(k: nat)
    ensures ValueOf(Zeros(k)) == 0
  {
    if k > 0 {
      assert Zeros(k)[..k - 1] == Zeros(k - 1);
      ValueOfZeros(k - 1);
    }
  }

  /** Leading zeros do not change the value of a digit string. */
  lemma {:induction false} ValueOfLeadingZeros(k: nat, s: string)
    requires AllDigits(s)
    ensures AllDigits(Zeros(k) + s) && ValueOf(Zeros(k) + s) == ValueOf(s)
    decreases |s|
  {
    var z := Zeros(k) + s;
    if s == [] {
      assert z == Zeros(k);
      ValueOfZeros(k);
    } else {
      assert z[..|z| - 1] == Zeros(k) + s[..|s| - 1];
      ValueOfLeadingZeros(k, s[..|s| - 1]);
    }
  }

  /** Padding never loses information: the padded string still denotes n. */
  lemma PadValue(n: nat, width: nat)
    ensures AllDigits(Pad0(n, width)) && ValueOf(Pad0(n, width)) == n
  {
    ValueOfDecimal(n);
    var d := Decimal(n);
    if |d| < width {
      ValueOfLeadingZeros(width - |d|, d);
    }
  }

  // ---------------------------------------------------------------------------
  // Reading a name back

  /** Length of the run of digits at the front of s. */
  function DigitRun(s: string): (k: nat)
    ensures k <= |s| && AllDigits(s[..k]) && (k < |s| ==> !IsDigit(s[k]))
  {
    if s == [] || !IsDigit(s[0]) then 0
    else
      var k := 1 + DigitRun(s[1..]);
      assert s[..k] == [s[0]] + s[1..][..k - 1];
      k
  }

  /** Inverse of ScreenshotName: the (index, frame) a well-formed name encodes. */
  function ParseName(s: string): Option<(nat, nat)>
  {
    if |s| < |Prefix| || s[..|Prefix|] != Prefix then None
    else ParseNumbers(s[|Prefix|..])
  }

  /** Reads `<digits>_frame_<digits>.png`. */
  function ParseNumbers(s: string): Option<(nat, nat)>
  {
    match NumberBefore(s, Middle)
    case None => None
    case Some((i, rest)) =>
      match NumberBefore(rest, Suffix)
      case None => None
      case Some((f, tail)) => if tail == [] then Some((i, f)) else None
  }

  /** The number written at the front of s, provided it is followed by sep,
      and what follows sep. */
  function NumberBefore(s: string, sep: string): Option<(nat, string)>
  {
    var k := DigitRun(s);
    if k == 0 || |s| < k + |sep| || s[k..k + |sep|] != sep then None
    else Some((ValueOf(s[..k]), s[k + |sep|..]))
  }

  lemma {:induction false} DigitRunOf(d: string, tail: string)
    requires AllDigits(d)
    requires tail != [] && !IsDigit(tail[0])
    ensures DigitRun(d + tail) == |d|
    decreases |d|
  {
    if d == [] {
      assert d + tail == tail;
    } else {
      assert (d + tail)[1..] == d[1..] + tail;
      DigitRunOf(d[1..], tail);
    }
  }

  lemma NumberBeforeOf(d: string, sep: string, tail: string)
    requires AllDigits(d) && d != []
    requires sep != [] && !IsDigit(sep[0])
    ensures NumberBefore(d + sep + tail, sep) == Some((ValueOf(d), tail))
  {
    var s := d + sep + tail;
    assert s == d + (sep + tail);
    DigitRunOf(d, sep + tail);
    assert s[..|d|] == d;
    assert s[|d|..|d| + |sep|] == sep;
    assert s[|d| + |sep|..] == tail;
  }

  lemma ParseAfterPrefix(r: string)
    ensures ParseName(Prefix + r) == ParseNumbers(r)
  {
    var s := Prefix + r;
    assert s[..|Prefix|] == Prefix && s[|Prefix|..] == r;
  }

  lemma ParseNumbersOf(p: string, q: string)
    requires AllDigits(p) && p != [] && AllDigits(q) && q != []
    ensures ParseNumbers(p + Middle + (q + Suffix)) == Some((ValueOf(p), ValueOf(q)))
  {
    NumberBeforeOf(p, Middle, q + Suffix);
    assert q + Suffix == q + Suffix + [];
    NumberBeforeOf(q, Suffix, []);
  }

  /** Every screenshot name reads back as the index and frame it was made from. */
  lemma NameRoundTrip(i: nat, f: nat)
    ensures ParseName(ScreenshotName(i, f)) == Some((i, f))
  {
    PadValue(i, 2);
    PadValue(f, 4);
    ParseAfterPrefix(Pad0(i, 2) + Middle + (Pad0(f, 4) + Suffix));
    ParseNumbersOf(Pad0(i, 2), Pad0(f, 4));
  }

  /** Distinct (index, frame) pairs never share a file name. */
  lemma NameInjective(i: nat, f: nat, j: nat, g: nat)
    requires ScreenshotName(i, f) == ScreenshotName(j, g)
    ensures i == j && f == g
  {
    NameRoundTrip(i, f);
    NameRoundTrip(j, g);
  }

  /** Five concatenated parts can be cut back out at their lengths. */
  lemma FiveParts(a: string, b: string, c: string, d: string, e: string)
    ensures var r, i := a + (b + c + (d + e)), |a|;
      var j := i + |b|; var k := j + |c|; var l := k + |d|;
      r[..i] == a && r[i..j] == b && r[j..k] == c && r[k..l] == d && r[l..] == e
  {
    var r, i := a + (b + c + (d + e)), |a|;
    var j := i + |b|; var k := j + |c|; var l := k + |d|;
    assert r[i..] == b + c + (d + e);
    assert r[j..] == c + (d + e);
    assert r[k..] == d + e;
  }

  /** Unfolds a name whose padded fields are known. */
  lemma NameOf(i: nat, f: nat, p: string, q: string)
    requires Pad0(i, 2) == p && Pad0(f, 4) == q
    ensures ScreenshotName(i, f) == Prefix + p + Middle + q + Suffix
  {
  }

  /** For an index below 100 and a frame below 10000 every field of the name
      sits at a fixed position: the two-wide index at 9..11 and the four-wide
      frame at 18..22. */
  lemma NameFields(i: nat, f: nat)
    requires i < 100 && f < 10000
    ensures var r := ScreenshotName(i, f);
      |r| == 26 && r[..9] == Prefix && r[9..11] == Pad0(i, 2) && r[11..18] == Middle &&
      r[18..22] == Pad0(f, 4) && r[22..] == Suffix
  {
    assert Pow10(2) == 100 && Pow10(4) == 10000;
    DecimalWidth(i, 2);
    DecimalWidth(f, 4);
    FiveParts(Prefix, Pad0(i, 2), Middle, Pad0(f, 4), Suffix);
  }

  /** The padded fields of the first two default captures. */
  lemma PaddedFirst()
    ensures Pad0(1, 2) == "01" && Pad0(60, 4) == "0060"
  {
    assert Decimal(1) == ['1'] && Zeros(1) == ['0'];
    assert Decimal(60) == "60" by {
      assert Decimal(6) == ['6'] && Decimal(60) == Decimal(6) + ['0'];
    }
    assert Zeros(2) == ['0', '0'];
  }

  lemma PaddedSecond()
    ensures Pad0(2, 2) == "02" && Pad0(180, 4) == "0180"
  {
    assert Decimal(2) == ['2'] && Zeros(1) == ['0'];
    assert Decimal(18) == "18" by {
      assert Decimal(1) == ['1'] && Decimal(18) == Decimal(1) + ['8'];
    }
    assert Decimal(180) == Decimal(18) + ['0'];
  }

  /** The first artifact of a default run. */
  lemma FirstDefaultName()
    ensures ScreenshotName(1, 60) == "gameplay_01_frame_0060.png"
  {
    PaddedFirst();
    NameOf(1, 60, "01", "0060");
  }

  /** The second artifact of a default run. */
  lemma SecondDefaultName()
    ensures ScreenshotName(2, 180) == "gameplay_02_frame_0180.png"
  {
    PaddedSecond();
    NameOf(2, 180, "02", "0180");
  }
}
