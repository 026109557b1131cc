/**
 * The hexadecimal range check: `is_within_range(range_str, check_hex)`
 * splits "start-end" on '-', strips one optional literal "0x" from each of
 * the three tokens, parses them as base-16 naturals and answers
 * `start <= check <= end`.
 *
 * Python's `int(..., 16)` raises ValueError on a bad literal, and the tuple
 * unpacking of the split raises ValueError when there are not exactly two
 * pieces; both become a `Failure` here.
 */
module HexRange {
  import opened Wrappers

  // ---------------------------------------------------------------------------
  // Hex digits and the positional value of a digit string
  // ---------------------------------------------------------------------------

  predicate IsHexDigit(c: char) {
    ('0' <= c <= '9') || ('a' <= c <= 'f') || ('A' <= c <= 'F')
  }

  predicate AllHex(s: string) {
    forall i :: 0 <= i < |s| ==> IsHexDigit(s[i])
  }

  /** The value of one digit; upper and lower case letters weigh the same. */
  function DigitValue(c: char): (v: nat)
    requires IsHexDigit(c)
    ensures v < 16
    ensures 'a' <= c <= 'f' ==> v == DigitValue(c - 'a' as char + 'A' as char)
  {
    if '0' <= c <= '9' then c as int - '0' as int
    else if 'a' <= c <= 'f' then c as int - 'a' as int + 10
    else c as int - 'A' as int + 10
  }

  /** The lower-case digit of a value below 16. */
  function DigitChar(v: nat): (c: char)
    requires v < 16
    ensures IsHexDigit(c) && DigitValue(c) == v
  {
    if v < 10 then ('0' as int + v) as char else ('a' as int + v - 10) as char
  }

  function Pow16(n: nat): (p: nat)
    ensures p >= 1
  {
    if n == 0 then 1 else 16 * Pow16(n - 1)
  }

  /**
   * The positional reading: digit i (counted from the left) weighs
   * 16^(|s|-1-i). This is the reference meaning of a hex numeral.
   */
  function Positional(s: string): nat
    requires AllHex(s)
  {
    if |s| == 0 then 0 else DigitValue(s[0]) * Pow16(|s| - 1) + Positional(s[1..])
  }

  /** Horner's rule from the left, the way a digit-by-digit parser accumulates. */
  function Horner(s: string): nat
    requires AllHex(s)
  {
    if |s| == 0 then 0 else Horner(s[..|s| - 1]) * 16 + DigitValue(s[|s| - 1])
  }

  lemma AllHexSnoc(s: string, c: char)
    requires AllHex(s) && IsHexDigit(c)
    ensures AllHex(s + [c])
  {
    forall i | 0 <= i < |s + [c]| ensures IsHexDigit((s + [c])[i]) {
      if i < |s| { assert (s + [c])[i] == s[i]; }
    }
  }

  lemma AllHexTail(s: string)
    requires AllHex(s) && |s| > 0
    ensures AllHex(s[1..])
  {
    forall i | 0 <= i < |s[1..]| ensures IsHexDigit(s[1..][i]) {
      assert s[1..][i] == s[i + 1];
    }
  }

  /** Shifting a numeral left by one digit multiplies the weight of its leading digit by 16. */
  lemma ShiftLeading(d: nat, p: nat, rest: nat, e: nat)
    ensures d * (16 * p) + (rest * 16 + e) == (d * p + rest) * 16 + e
  {
    assert d * (16 * p) == (d * p) * 16;
  }

  lemma {:induction false} PositionalSnoc(s: string, c: char)
    requires AllHex(s) && IsHexDigit(c)
    ensures AllHex(s + [c])
    ensures Positional(s + [c]) == Positional(s) * 16 + DigitValue(c)
  {
    AllHexSnoc(s, c);
    if |s| == 0 {
      assert s + [c] == [c];
      assert [c][1..] == [];
    } else {
      var t := s + [c];
      assert t[1..] == s[1..] + [c];
      assert t[0] == s[0];
      AllHexTail(s);
      PositionalSnoc(s[1..], c);
      assert Positional(t) == DigitValue(s[0]) * (16 * Pow16(|s| - 1)) + (Positional(s[1..]) * 16 + DigitValue(c));
      ShiftLeading(DigitValue(s[0]), Pow16(|s| - 1), Positional(s[1..]), DigitValue(c));
    }
  }

  /** Accumulating digit by digit from the left yields the positional value. */
  lemma {:induction false} HornerIsPositional(s: string)
    requires AllHex(s)
    ensures Horner(s) == Positional(s)
  {
    if |s| > 0 {
      var init := s[..|s| - 1];
      assert AllHex(init) by {
        forall i | 0 <= i < |init| ensures IsHexDigit(init[i]) {
          assert init[i] == s[i];
        }
      }
      HornerIsPositional(init);
      PositionalSnoc(init, s[|s| - 1]);
      assert init + [s[|s| - 1]] == s;
    }
  }

  // ---------------------------------------------------------------------------
  // The strict parser
  // ---------------------------------------------------------------------------

  /**
   * A strict reading of `int(token, 16)`: one or more hex digits, nothing
   * else. Succeeds exactly on `[0-9a-fA-F]+` and then yields the positional
   * value of the digits.
   */
  function ParseHex(s: string): (r: Option<nat>)
    ensures r.Some? <==> |s| > 0 && AllHex(s)
    ensures r.Some? ==> r.value == Positional(s)
  {
    if |s| == 0 || !AllHex(s) then None
    else
      HornerIsPositional(s);
      Some(Horner(s))
  }

  /** The lower-case numeral of n without leading zeros ("0" for zero). */
  function ToHex(n: nat): (s: string)
    ensures |s| > 0 && AllHex(s)
    decreases n
  {
    if n < 16 then [DigitChar(n)] else ToHex(n / 16) + [DigitChar(n % 16)]
  }

  /** Parsing the numeral printed for n gives back n. */
  lemma {:induction false} ParseToHex(n: nat)
    ensures ParseHex(ToHex(n)) == Some(n)
    decreases n
  {
    if n >= 16 {
      ParseToHex(n / 16);
      var init, c := ToHex(n / 16), DigitChar(n % 16);
      assert Positional(init) == n / 16;
      PositionalSnoc(init, c);
      assert ToHex(n) == init + [c];
      assert Positional(ToHex(n)) == (n / 16) * 16 + n % 16;
    } else {
      assert ToHex(n)[1..] == [];
    }
  }

  /** Upper-case every letter digit a-f; everything else is kept. */
  function UpperDigits(s: string): (u: string)
    ensures |u| == |s|
    ensures forall i :: 0 <= i < |s| ==> u[i] == (if 'a' <= s[i] <= 'f' then s[i] - 'a' as char + 'A' as char else s[i])
  {
    if |s| == 0 then [] else
      var c := s[0];
      [if 'a' <= c <= 'f' then c - 'a' as char + 'A' as char else c] + UpperDigits(s[1..])
  }

  /** Hex digits are case-insensitive: changing their case changes no parse. */
  lemma {:induction false} ParseIgnoresCase(s: string)
    ensures ParseHex(UpperDigits(s)) == ParseHex(s)
  {
    var u := UpperDigits(s);
    assert AllHex(u) <==> AllHex(s) by {
      if AllHex(s) {
        forall i | 0 <= i < |u| ensures IsHexDigit(u[i]) { assert IsHexDigit(s[i]); }
      }
      if AllHex(u) {
        forall i | 0 <= i < |s| ensures IsHexDigit(s[i]) { assert IsHexDigit(u[i]); }
      }
    }
    if |s| > 0 && AllHex(s) {
      PositionalCaseFree(s, u);
    }
  }

  lemma {:induction false} PositionalCaseFree(s: string, u: string)
    requires AllHex(s) && AllHex(u) && |s| == |u|
    requires forall i :: 0 <= i < |s| ==> DigitValue(u[i]) == DigitValue(s[i])
    ensures Positional(u) == Positional(s)
  {
    if |s| > 0 {
      assert AllHex(s[1..]) by {
        forall i | 0 <= i < |s[1..]| ensures IsHexDigit(s[1..][i]) { assert s[1..][i] == s[i + 1]; }
      }
      assert AllHex(u[1..]) by {
        forall i | 0 <= i < |u[1..]| ensures IsHexDigit(u[1..][i]) { assert u[1..][i] == u[i + 1]; }
      }
      forall i | 0 <= i < |s[1..]| ensures DigitValue(u[1..][i]) == DigitValue(s[1..][i]) {
        assert u[1..][i] == u[i + 1] && s[1..][i] == s[i + 1];
      }
      PositionalCaseFree(s[1..], u[1..]);
      assert DigitValue(u[0]) == DigitValue(s[0]);
    }
  }

  // ---------------------------------------------------------------------------
  // str.split with a one-character separator, and prefix stripping
  // ---------------------------------------------------------------------------

  /** Number of occurrences of c in s. */
  function Count(s: string, c: char): nat {
    if |s| == 0 then 0 else (if s[0] == c then 1 else 0) + Count(s[1..], c)
  }

  lemma {:induction false} CountZero(s: string, c: char)
    ensures Count(s, c) == 0 <==> c !in s
  {
    if |s| > 0 {
      CountZero(s[1..], c);
      assert s == [s[0]] + s[1..];
    }
  }

  /**
   * Python's unlimited `s.split(sep)`: the maximal separator-free pieces,
   * in order, including empty ones at the ends and between adjacent
   * separators.
   */
  function Split(s: string, sep: char): (parts: seq<string>)
    ensures |parts| >= 1
  {
    if |s| == 0 then [""]
    else
      var rest := Split(s[1..], sep);
      if s[0] == sep then [""] + rest else [[s[0]] + rest[0]] + rest[1..]
  }

  /** `sep.join(parts)`. */
  function Join(parts: seq<string>, sep: char): string
    requires |parts| >= 1
  {
    if |parts| == 1 then parts[0] else parts[0] + [sep] + Join(parts[1..], sep)
  }

  /** Splitting yields one more piece than there are separators, none contains one,
      and joining the pieces back gives the original string. */
  lemma {:induction false} SplitFacts(s: string, sep: char)
    ensures |Split(s, sep)| == Count(s, sep) + 1
    ensures forall k :: 0 <= k < |Split(s, sep)| ==> sep !in Split(s, sep)[k]
    ensures Join(Split(s, sep), sep) == s
  {
    if |s| > 0 {
      SplitFacts(s[1..], sep);
      var rest := Split(s[1..], sep);
      var parts := Split(s, sep);
      if s[0] == sep {
        assert parts == [""] + rest;
        assert parts[1..] == rest;
        assert Join(parts, sep) == "" + [sep] + Join(rest, sep);
      } else {
        assert parts == [[s[0]] + rest[0]] + rest[1..];
        forall k | 0 <= k < |parts| ensures sep !in parts[k] {
          if k > 0 { assert parts[k] == rest[k]; }
        }
        if |rest| == 1 {
          assert Join(parts, sep) == [s[0]] + rest[0];
        } else {
          assert parts[1..] == rest[1..];
          assert Join(rest, sep) == rest[0] + [sep] + Join(rest[1..], sep);
        }
      }
      assert s == [s[0]] + s[1..];
    }
  }

  /** A string with exactly one separator is exactly two pieces around it. */
  lemma {:induction false} SplitTwo(a: string, b: string, sep: char)
    requires sep !in a && sep !in b
    ensures Split(a + [sep] + b, sep) == [a, b]
  {
    if |a| == 0 {
      assert a + [sep] + b == [sep] + b;
      assert ([sep] + b)[1..] == b;
      SplitNone(b, sep);
    } else {
      assert (a + [sep] + b)[1..] == a[1..] + [sep] + b;
      assert (a + [sep] + b)[0] == a[0];
      SplitTwo(a[1..], b, sep);
      assert [a[0]] + a[1..] == a;
    }
  }

  lemma {:induction false} SplitNone(s: string, sep: char)
    requires sep !in s
    ensures Split(s, sep) == [s]
  {
    if |s| > 0 {
      assert sep !in s[1..] by { assert forall x :: x in s[1..] ==> x in s; }
      SplitNone(s[1..], sep);
      assert [s[0]] + s[1..] == s;
    }
  }

  /** Drops one leading literal "0x" (lower-case x only), if present. */
  function StripPrefix(s: string): (t: string)
    ensures t == s || "0x" + t == s
    ensures |s| >= 2 && s[..2] == "0x" <==> t != s
  {
    if |s| >= 2 && s[..2] == "0x" then s[2..] else s
  }

  // ---------------------------------------------------------------------------
  // is_within_range
  // ---------------------------------------------------------------------------

  /** The ValueError the Python code would raise. */
  datatype RangeError =
    | UnpackError(pieces: nat)       // split did not give exactly two pieces
    | InvalidLiteral(token: string)  // int(token, 16) rejected the token

  /**
   * `is_within_range(rangeStr, checkHex)`: `Success(false)` when there is no
   * hyphen, a `Failure` on more than one hyphen or on a token that is not a
   * hex numeral (start, end and check are parsed in that order), otherwise
   * the inclusive comparison. Pure: the result depends on the arguments only.
   */
  function IsWithinRange(rangeStr: string, checkHex: string): (r: Result<bool, RangeError>)
    ensures '-' !in rangeStr ==> r == Success(false)
    ensures r.Success? && r.value ==> '-' in rangeStr
  {
    if '-' !in rangeStr then Success(false)
    else
      var parts := Split(rangeStr, '-');
      if |parts| != 2 then Failure(UnpackError(|parts|))
      else
        var startHex := StripPrefix(parts[0]);
        var endHex := StripPrefix(parts[1]);
        var probeHex := StripPrefix(checkHex);
        match ParseHex(startHex)
        case None => Failure(InvalidLiteral(startHex))
        case Some(lo) =>
          match ParseHex(endHex)
          case None => Failure(InvalidLiteral(endHex))
          case Some(hi) =>
            match ParseHex(probeHex)
            case None => Failure(InvalidLiteral(probeHex))
            case Some(v) => Success(lo <= v <= hi)
  }

  /** More than one hyphen is an unpacking error, whatever the tokens. */
  lemma ManyHyphensFail(rangeStr: string, checkHex: string)
    requires Count(rangeStr, '-') >= 2
    ensures IsWithinRange(rangeStr, checkHex) == Failure(UnpackError(Count(rangeStr, '-') + 1))
  {
    SplitFacts(rangeStr, '-');
    CountZero(rangeStr, '-');
  }

  /** A token whose digits are valid, after one optional "0x". */
  predicate ValidToken(t: string) {
    ParseHex(StripPrefix(t)).Some?
  }

  function TokenValue(t: string): nat
    requires ValidToken(t)
  {
    ParseHex(StripPrefix(t)).value
  }

  /**
   * With exactly one hyphen the answer is the inclusive comparison of the
   * positional values when all three tokens are numerals, and a failure
   * (never a plain `false`) when any of them is not.
   */
  lemma InclusiveComparison(a: string, b: string, p: string)
    requires '-' !in a && '-' !in b
    ensures var r := IsWithinRange(a + "-" + b, p);
            && (r.Success? <==> ValidToken(a) && ValidToken(b) && ValidToken(p))
            && (r.Success? ==>
                  r.value == (Positional(StripPrefix(a)) <= Positional(StripPrefix(p)) <= Positional(StripPrefix(b))))
  {
    SplitTwo(a, b, '-');
    assert a + "-" + b == a + ['-'] + b;
    assert '-' in a + "-" + b by { assert (a + "-" + b)[|a|] == '-'; }
  }

  /** A start token above the end token makes every probe fall outside. */
  lemma EmptyRangeNeverWithin(a: string, b: string)
    requires '-' !in a && '-' !in b
    requires ValidToken(a) && ValidToken(b) && TokenValue(a) > TokenValue(b)
    ensures forall p :: IsWithinRange(a + "-" + b, p) != Success(true)
  {
    forall p ensures IsWithinRange(a + "-" + b, p) != Success(true) {
      InclusiveComparison(a, b, p);
    }
  }

  /** An empty start token (a range beginning with '-') raises instead of answering. */
  lemma EmptyStartFails(b: string, p: string)
    requires '-' !in b
    ensures IsWithinRange("-" + b, p) == Failure(InvalidLiteral(""))
  {
    SplitTwo("", b, '-');
    assert "" + ['-'] + b == "-" + b;
    assert ("-" + b)[0] == '-';
  }

  /** One leading "0x" on any token changes nothing. */
  lemma PrefixInsensitive(a: string, b: string, p: string)
    requires AllHex(a) && AllHex(b) && AllHex(p)
    ensures IsWithinRange("0x" + a + "-0x" + b, "0x" + p) == IsWithinRange(a + "-" + b, p)
  {
    HexHasNoHyphen(a);
    HexHasNoHyphen(b);
    assert "0x" + a + "-0x" + b == ("0x" + a) + "-" + ("0x" + b);
    assert '-' !in "0x" + a && '-' !in "0x" + b;
    NoPrefix(a);
    NoPrefix(b);
    NoPrefix(p);
    assert StripPrefix("0x" + a) == a by { assert ("0x" + a)[..2] == "0x"; assert ("0x" + a)[2..] == a; }
    assert StripPrefix("0x" + b) == b by { assert ("0x" + b)[..2] == "0x"; assert ("0x" + b)[2..] == b; }
    assert StripPrefix("0x" + p) == p by { assert ("0x" + p)[..2] == "0x"; assert ("0x" + p)[2..] == p; }
    SplitTwo("0x" + a, "0x" + b, '-');
    assert ("0x" + a) + "-" + ("0x" + b) == ("0x" + a) + ['-'] + ("0x" + b);
    assert '-' in "0x" + a + "-0x" + b by { assert ("0x" + a + "-0x" + b)[|a| + 2] == '-'; }
    SplitTwo(a, b, '-');
    assert a + "-" + b == a + ['-'] + b;
    assert '-' in a + "-" + b by { assert (a + "-" + b)[|a|] == '-'; }
  }

  lemma HexHasNoHyphen(s: string)
    requires AllHex(s)
    ensures '-' !in s
  {
  }

  lemma NoPrefix(s: string)
    requires AllHex(s)
    ensures StripPrefix(s) == s
  {
    if |s| >= 2 {
      assert IsHexDigit(s[1]);
    }
  }

  // ---------------------------------------------------------------------------
  // Example ranges
  // ---------------------------------------------------------------------------

  lemma ParseSmall()
    ensures ParseHex("10") == Some(16) && ParseHex("20") == Some(32) && ParseHex("15") == Some(21)
    ensures ParseHex("a") == Some(10) && ParseHex("f") == Some(15) && ParseHex("C") == Some(12)
  {
    assert "10"[1..] == "0" && "20"[1..] == "0" && "15"[1..] == "5";
    assert "0"[1..] == "" && "5"[1..] == "";
    assert "a"[1..] == "" && "f"[1..] == "" && "C"[1..] == "";
  }

  /** Three prefix-free numerals around one hyphen are compared by value. */
  lemma Numerals(a: string, b: string, p: string)
    requires |a| > 0 && |b| > 0 && |p| > 0 && AllHex(a) && AllHex(b) && AllHex(p)
    ensures IsWithinRange(a + "-" + b, p) == Success(Positional(a) <= Positional(p) <= Positional(b))
  {
    HexHasNoHyphen(a);
    HexHasNoHyphen(b);
    NoPrefix(a);
    NoPrefix(b);
    NoPrefix(p);
    InclusiveComparison(a, b, p);
  }

  /** Letters of either case compare as the same digits. */
  lemma MixedCaseScenario()
    ensures IsWithinRange("a-f", "C") == Success(true)
  {
    ParseSmall();
    Numerals("a", "f", "C");
    assert "a" + "-" + "f" == "a-f";
  }

  /** Range "0x10-0x20" contains probe "0x15", as "10-20" contains "15". */
  lemma PrefixScenario()
    ensures IsWithinRange("0x" + "10" + "-0x" + "20", "0x" + "15") == Success(true)
  {
    ParseSmall();
    PrefixInsensitive("10", "20", "15");
    Numerals("10", "20", "15");
  }

  /** Range "10-20" contains probe "15". */
  lemma InsideScenario()
    ensures IsWithinRange("10-20", "15") == Success(true)
  {
    ParseSmall();
    Numerals("10", "20", "15");
    assert "10" + "-" + "20" == "10-20";
  }

  /** Both bounds belong to the range. */
  lemma BoundaryScenario()
    ensures IsWithinRange("10-20", "10") == Success(true)
    ensures IsWithinRange("10-20", "20") == Success(true)
  {
    ParseSmall();
    Numerals("10", "20", "10");
    Numerals("10", "20", "20");
    assert "10" + "-" + "20" == "10-20";
  }
}
