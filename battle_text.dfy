/**
 * Text handling used by the compiler-comparison driver: Python's `\s`
 * whitespace, `str.split(",")`, `str.strip()`, `int()` of a digit run,
 * `float()` of a `[\d.]+` token, and `re.findall` for the four metric
 * patterns the driver scans the workload's output with.
 */
module BattleText {
  import opened Wrappers

  /** Python's `str.isspace()` / regex `\s` on a `str`. */
  predicate IsSpace(c: char)
  {
    var n := c as int;
    (9 <= n <= 13) || (28 <= n <= 32) || n == 0x85 || n == 0xA0 || n == 0x1680
    || (0x2000 <= n <= 0x200A) || n == 0x2028 || n == 0x2029 || n == 0x202F
    || n == 0x205F || n == 0x3000
  }

  predicate IsDigit(c: char) { '0' <= c <= '9' }

  predicate AllDigits(s: string) { forall i | 0 <= i < |s| :: IsDigit(s[i]) }

  predicate DecimalShaped(s: string) { forall i | 0 <= i < |s| :: IsDigit(s[i]) || s[i] == '.' }

  // ---------------------------------------------------------------------------
  // int() and float() on the captured tokens
  // ---------------------------------------------------------------------------

  /** `int(s)` for a non-empty run of ASCII digits. */
  function DigitsValue(s: string): nat
    requires AllDigits(s)
    decreases |s|
  {
    if s == [] then 0
    else DigitsValue(s[..|s| - 1]) * 10 + (s[|s| - 1] as int - '0' as int)
  }

  function Pow10(n: nat): (r: nat)
    ensures r >= 1
  {
    if n == 0 then 1 else 10 * Pow10(n - 1)
  }

  /** Decimal rendering of a natural number, most significant digit first. */
  function NatToString(n: nat): (s: string)
    ensures |s| >= 1 && AllDigits(s)
  {
    var d := ['0' + (n % 10) as char];
    if n < 10 then d else NatToString(n / 10) + d
  }

  /** Index of the first '.', if any. */
  function FirstDot(s: string): (r: Option<nat>)
    ensures r.Some? ==> r.value < |s| && s[r.value] == '.'
                        && forall i | 0 <= i < r.value :: s[i] != '.'
    ensures r.None? ==> forall i | 0 <= i < |s| :: s[i] != '.'
  {
    if s == [] then None
    else if s[0] == '.' then Some(0)
    else match FirstDot(s[1..])
      case None => None
      case Some(i) => Some(i + 1)
  }

  /**
   * Python's `float(s)` for a token matched by `[\d.]+`: an integer part and
   * an optional fraction around at most one '.', with at least one digit.
   * `None` stands for the `ValueError` Python raises otherwise.
   */
  function ParseFloat(s: string): Option<real>
    requires DecimalShaped(s)
  {
    match FirstDot(s)
    case None =>
      if s == [] then None else Some(DigitsValue(s) as real)
    case Some(d) =>
      var ip, fp := s[..d], s[d + 1..];
      if FirstDot(fp).Some? || |ip| + |fp| == 0 then None
      else Some(DigitsValue(ip) as real + DigitsValue(fp) as real / Pow10(|fp|) as real)
  }

  lemma {:induction false} DigitsValueOfNatToString(n: nat)
    ensures DigitsValue(NatToString(n)) == n
  {
    var s := NatToString(n);
    var d := ['0' + (n % 10) as char];
    if n >= 10 {
      assert s == NatToString(n / 10) + d;
      assert s[..|s| - 1] == NatToString(n / 10);
      DigitsValueOfNatToString(n / 10);
    }
  }

  /** `float(str(n))` gives back `n`. */
  lemma ParseFloatOfNatToString(n: nat)
    ensures DecimalShaped(NatToString(n)) && ParseFloat(NatToString(n)) == Some(n as real)
  {
    DigitsValueOfNatToString(n);
  }

  /** `float(str(n) + "." + str(f))` is `n` plus the fraction `f / 10^len(str(f))`. */
  lemma ParseFloatOfDecimal(n: nat, f: nat)
    ensures var s := NatToString(n) + "." + NatToString(f);
            DecimalShaped(s)
            && ParseFloat(s) == Some(n as real + f as real / Pow10(|NatToString(f)|) as real)
  {
    var a, b := NatToString(n), NatToString(f);
    SplitAtDot(a, b);
    DigitsValueOfNatToString(n);
    DigitsValueOfNatToString(f);
  }

  lemma SplitAtDot(a: string, b: string)
    requires AllDigits(a) && AllDigits(b)
    ensures var s := a + "." + b;
            DecimalShaped(s) && FirstDot(s) == Some(|a|) && FirstDot(b).None?
            && s[..|a|] == a && s[|a| + 1..] == b
  {
    var s := a + "." + b;
    assert FirstDot(a).None? && FirstDot(b).None?;
    FirstDotAfterDotless(a, "." + b);
    assert FirstDot("." + b) == Some(0);
    assert s == a + ("." + b);
  }

  lemma {:induction false} FirstDotAfterDotless(a: string, b: string)
    requires FirstDot(a).None?
    ensures FirstDot(a + b) == match FirstDot(b) case None => None case Some(i) => Some(|a| + i)
  {
    if a != [] {
      assert (a + b)[1..] == a[1..] + b;
      FirstDotAfterDotless(a[1..], b);
    } else {
      assert a + b == b;
    }
  }

  /** `float` rejects exactly the tokens with no digit or with two dots, such as "." or "1.2.3". */
  lemma ParseFloatFails(s: string)
    requires DecimalShaped(s)
    ensures ParseFloat(s).None? <==>
            (forall i | 0 <= i < |s| :: s[i] == '.')
            || (exists i, j :: 0 <= i < j < |s| && s[i] == '.' && s[j] == '.')
  {
    match FirstDot(s)
    case None =>
      if s != [] { assert IsDigit(s[0]); }
    case Some(d) =>
      var fp := s[d + 1..];
      if FirstDot(fp).Some? {
        var j := FirstDot(fp).value;
        assert s[d + 1 + j] == '.';
      } else {
        if |s[..d]| + |fp| == 0 {
          assert |s| == 1;
        } else {
          assert forall j | d < j < |s| :: s[j] == fp[j - d - 1];
          if d > 0 {
            assert s[0] != '.';
          } else {
            assert s[d + 1] == fp[0] && fp[0] != '.';
          }
        }
      }
  }

  // ---------------------------------------------------------------------------
  // str.split(",") and str.strip()
  // ---------------------------------------------------------------------------

  function FirstComma(s: string): (r: Option<nat>)
    ensures r.Some? ==> r.value < |s| && s[r.value] == ',' && ',' !in s[..r.value]
    ensures r.None? ==> ',' !in s
  {
    if s == [] then None
    else if s[0] == ',' then Some(0)
    else match FirstComma(s[1..])
      case None => None
      case Some(i) =>
        assert s[..i + 1] == [s[0]] + s[1..][..i];
        Some(i + 1)
  }

  /** `s.split(",")`: the pieces between commas, at least one, none holding a comma. */
  function SplitComma(s: string): (parts: seq<string>)
    ensures |parts| >= 1
    ensures forall p | p in parts :: ',' !in p
    decreases |s|
  {
    match FirstComma(s)
    case None => [s]
    case Some(i) => [s[..i]] + SplitComma(s[i + 1..])
  }

  /** `",".join(parts)`. */
  function JoinComma(parts: seq<string>): string
  {
    if parts == [] then ""
    else if |parts| == 1 then parts[0]
    else parts[0] + "," + JoinComma(parts[1..])
  }

  /** Splitting loses nothing: joining the pieces back with commas gives the input. */
  lemma {:induction false} JoinSplit(s: string)
    ensures JoinComma(SplitComma(s)) == s
    decreases |s|
  {
    match FirstComma(s)
    case None =>
    case Some(i) =>
      var rest := SplitComma(s[i + 1..]);
      JoinSplit(s[i + 1..]);
      assert SplitComma(s)[1..] == rest;
      assert s == s[..i] + "," + s[i + 1..];
  }

  /** Number of leading whitespace characters of `s`. */
  function LeadingSpace(s: string): (n: nat)
    ensures n <= |s|
    ensures forall i | 0 <= i < n :: IsSpace(s[i])
    ensures n == |s| || !IsSpace(s[n])
  {
    if s == [] || !IsSpace(s[0]) then 0 else 1 + LeadingSpace(s[1..])
  }

  /** Number of trailing whitespace characters of `s`. */
  function TrailingSpace(s: string): (n: nat)
    ensures n <= |s|
    ensures forall i | |s| - n <= i < |s| :: IsSpace(s[i])
    ensures n == |s| || !IsSpace(s[|s| - 1 - n])
  {
    if s == [] || !IsSpace(s[|s| - 1]) then 0 else 1 + TrailingSpace(s[..|s| - 1])
  }

  /** `s.strip()`. */
  function Strip(s: string): string
  {
    var a := LeadingSpace(s);
    var t := s[a..];
    t[..|t| - TrailingSpace(t)]
  }

  /**
   * `strip` removes a whitespace prefix and a whitespace suffix and nothing
   * else: the result neither starts nor ends with whitespace.
   */
  lemma StripSpec(s: string)
    ensures var r := Strip(s);
            (exists a, b :: 0 <= a <= b <= |s| && r == s[a..b]
                            && (forall i | 0 <= i < a :: IsSpace(s[i]))
                            && (forall i | b <= i < |s| :: IsSpace(s[i])))
            && (r != [] ==> !IsSpace(r[0]) && !IsSpace(r[|r| - 1]))
  {
    var a, b := StripWindow(s);
    var r := Strip(s);
    if r != [] {
      assert r[0] == s[a];
      assert r[|r| - 1] == s[b - 1];
    }
  }

  /** The window `strip` keeps: whitespace before it and after it, none at its ends. */
  lemma StripWindow(s: string) returns (a: nat, b: nat)
    ensures a <= b <= |s| && Strip(s) == s[a..b]
    ensures forall i | 0 <= i < a :: IsSpace(s[i])
    ensures forall i | b <= i < |s| :: IsSpace(s[i])
    ensures a < b ==> !IsSpace(s[a]) && !IsSpace(s[b - 1])
  {
    a := LeadingSpace(s);
    var t := s[a..];
    var n := TrailingSpace(t);
    b := |s| - n;
    assert Strip(s) == t[..|t| - n];
    assert t[..|t| - n] == s[a..b] by {
      assert forall k | 0 <= k < b - a :: t[k] == s[a + k];
    }
    forall i | b <= i < |s| ensures IsSpace(s[i]) {
      var j := i - a;
      assert |t| - n <= j < |t| && t[j] == s[i];
    }
    if a < b {
      assert s[b - 1] == t[|t| - 1 - n];
    }
  }

  // ---------------------------------------------------------------------------
  // re.findall for `<prefix>\s+(<capture>)<suffix>`
  // ---------------------------------------------------------------------------

  /** The capture group of a metric pattern. */
  datatype Capture =
    | DigitsOrDots            // ([\d.]+)
    | DigitRun                // (\d+)
    | OneOf(words: seq<string>)  // (w1|w2|...), tried left to right

  datatype Pattern = Pattern(prefix: string, capture: Capture, suffix: string)

  const BalancePattern := Pattern("Balance:", DigitsOrDots, "%")
  const HotspotPattern := Pattern("Hotspot:", OneOf(["YES", "No"]), "")
  const SuspiciousPattern := Pattern("Suspicious:", DigitRun, "")
  const BlockedPattern := Pattern("Blocked:", DigitRun, "")

  predicate InClass(c: Capture, ch: char)
  {
    match c
    case DigitsOrDots => IsDigit(ch) || ch == '.'
    case DigitRun => IsDigit(ch)
    case OneOf(_) => false
  }

  predicate StartsAt(w: string, text: string, i: nat)
  {
    i + |w| <= |text| && text[i..i + |w|] == w
  }

  /** Length of the maximal run of whitespace starting at `j`. */
  function SpaceRun(text: string, j: nat): (n: nat)
    requires j <= |text|
    ensures j + n <= |text|
    ensures forall k | j <= k < j + n :: IsSpace(text[k])
    decreases |text| - j
  {
    if j == |text| || !IsSpace(text[j]) then 0 else 1 + SpaceRun(text, j + 1)
  }

  /** Length of the maximal run of class characters starting at `j` (greedy `+`). */
  function ClassRun(c: Capture, text: string, j: nat): (n: nat)
    requires j <= |text|
    ensures j + n <= |text|
    ensures forall k | j <= k < j + n :: InClass(c, text[k])
    ensures j + n == |text| || !InClass(c, text[j + n])
    decreases |text| - j
  {
    if j == |text| || !InClass(c, text[j]) then 0 else 1 + ClassRun(c, text, j + 1)
  }

  /** The first alternative that occurs at `j`. */
  function FirstWordAt(words: seq<string>, text: string, j: nat): (r: Option<string>)
    ensures r.Some? ==> r.value in words && StartsAt(r.value, text, j)
  {
    if words == [] then None
    else if StartsAt(words[0], text, j) then Some(words[0])
    else FirstWordAt(words[1..], text, j)
  }

  /**
   * The match of `p` starting exactly at `i`: the captured text and the
   * index just past the match. Backtracking never helps these patterns: a
   * whitespace character cannot start the capture, and the character after a
   * maximal class run is not in the class, so the greedy choices are the only
   * ones that can succeed.
   */
  function MatchAt(p: Pattern, text: string, i: nat): (r: Option<(string, nat)>)
    requires i <= |text|
    ensures r.Some? ==> i < r.value.1 <= |text|
  {
    if !StartsAt(p.prefix, text, i) then None
    else
      var j := i + |p.prefix|;
      var w := SpaceRun(text, j);
      if w == 0 then None
      else
        var c := j + w;
        match p.capture
        case OneOf(words) =>
          (match FirstWordAt(words, text, c)
           case None => None
           case Some(word) =>
             if StartsAt(p.suffix, text, c + |word|) then Some((word, c + |word| + |p.suffix|))
             else None)
        case _ =>
          var n := ClassRun(p.capture, text, c);
          if n > 0 && StartsAt(p.suffix, text, c + n) then Some((text[c..c + n], c + n + |p.suffix|))
          else None
  }

  /** `re.findall(p, text[i:])`: matches are scanned left to right and never overlap. */
  function FindAllFrom(p: Pattern, text: string, i: nat): seq<string>
    requires i <= |text|
    decreases |text| - i
  {
    if i == |text| then []
    else match MatchAt(p, text, i)
      case Some((cap, next)) => [cap] + FindAllFrom(p, text, next)
      case None => FindAllFrom(p, text, i + 1)
  }

  function FindAll(p: Pattern, text: string): seq<string>
  {
    FindAllFrom(p, text, 0)
  }

  /** Every capture of a class pattern is a non-empty run of that class. */
  lemma {:induction false} FindAllClassCaptures(p: Pattern, text: string, i: nat)
    requires i <= |text| && !p.capture.OneOf?
    ensures forall s | s in FindAllFrom(p, text, i) ::
              |s| > 0 && forall k | 0 <= k < |s| :: InClass(p.capture, s[k])
    decreases |text| - i
  {
    if i < |text| {
      match MatchAt(p, text, i)
      case Some((cap, next)) => FindAllClassCaptures(p, text, next);
      case None => FindAllClassCaptures(p, text, i + 1);
    }
  }

  /** Every capture of an alternation pattern is one of its words. */
  lemma {:induction false} FindAllWordCaptures(p: Pattern, text: string, i: nat)
    requires i <= |text| && p.capture.OneOf?
    ensures forall s | s in FindAllFrom(p, text, i) :: s in p.capture.words
    decreases |text| - i
  {
    if i < |text| {
      match MatchAt(p, text, i)
      case Some((cap, next)) => FindAllWordCaptures(p, text, next);
      case None => FindAllWordCaptures(p, text, i + 1);
    }
  }

  /** Text in which the pattern's prefix never occurs yields no match. */
  lemma {:induction false} FindAllWithoutPrefix(p: Pattern, text: string, i: nat)
    requires i <= |text|
    requires forall k | i <= k <= |text| :: !StartsAt(p.prefix, text, k)
    ensures FindAllFrom(p, text, i) == []
    decreases |text| - i
  {
    if i < |text| {
      FindAllWithoutPrefix(p, text, i + 1);
    }
  }

  lemma BalanceCapturesAreDecimalShaped(text: string)
    ensures forall s | s in FindAll(BalancePattern, text) :: |s| > 0 && DecimalShaped(s)
  {
    FindAllClassCaptures(BalancePattern, text, 0);
  }

  lemma CountCapturesAreDigits(text: string)
    ensures forall s | s in FindAll(SuspiciousPattern, text) :: |s| > 0 && AllDigits(s)
    ensures forall s | s in FindAll(BlockedPattern, text) :: |s| > 0 && AllDigits(s)
  {
    FindAllClassCaptures(SuspiciousPattern, text, 0);
    FindAllClassCaptures(BlockedPattern, text, 0);
  }
}
