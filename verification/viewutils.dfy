/** The string helpers of viewutils.js: the clock display `formatTime`,
    the placeholder substitution `String.prototype.format`, and the
    puzzle path `getpuzz`. */
module ViewUtils {
  import opened Decimal
  import opened Strings

  /** A number in decimal, left-padded with zeros to two characters. */
  function Pad2(n: nat): (s: string)
    ensures AllDigits(s) && |s| >= 2 && ParseNat(s) == n
    ensures n < 100 ==> |s| == 2
  {
    ParseNatToString(n);
    ParsePadded(NatToString(n), 2);
    TwoDigits(n);
    PadStart(NatToString(n), 2, '0')
  }

  lemma TwoDigits(n: nat)
    ensures n < 100 ==> |NatToString(n)| <= 2
  {
    if 10 <= n < 100 {
      assert NatToString(n) == NatToString(n / 10) + [DigitChar(n % 10)];
    }
  }

  lemma DigitsHaveNo(s: string, c: char)
    requires AllDigits(s) && !IsDigit(c)
    ensures c !in s
  {
  }

  // ---------------------------------------------------------------------
  // formatTime

  /** Whole hours, the minutes left over, and the seconds left over. */
  function Clock(seconds: nat): (c: (nat, nat, nat))
    ensures c.1 < 60 && c.2 < 60 && seconds == c.0 * 3600 + c.1 * 60 + c.2
  {
    var hours := seconds / 3600;
    var rest := seconds % 3600;
    assert seconds == hours * 3600 + rest;
    (hours, rest / 60, seconds % 60)
  }

  /** The pieces of the clock text for `seconds`: seconds alone below a
      minute; minutes and two-digit seconds below an hour; otherwise hours
      padded to two digits, minutes unpadded, and two-digit seconds. */
  function TimePieces(seconds: nat): (ps: seq<string>)
    ensures 1 <= |ps| <= 3
    ensures forall i :: 0 <= i < |ps| ==> AllDigits(ps[i])
  {
    var c := Clock(seconds);
    ClockPieces(c.0, c.1, c.2)
  }

  /** The pieces for a clock reading of whole hours, minutes and seconds. */
  function ClockPieces(hours: nat, minutes: nat, secs: nat): (ps: seq<string>)
    ensures 1 <= |ps| <= 3
    ensures forall i :: 0 <= i < |ps| ==> AllDigits(ps[i])
  {
    if hours == 0 && minutes == 0 then [NatToString(secs)]
    else if hours == 0 then [NatToString(minutes), Pad2(secs)]
    else [Pad2(hours), NatToString(minutes), Pad2(secs)]
  }

  /** `formatTime(seconds)`: the clock text is its pieces joined by
      colons, and those pieces read back as the number of seconds. */
  function FormatTime(seconds: nat): (s: string)
    ensures Split(s, ':') == TimePieces(seconds)
    ensures TimeValue(Split(s, ':')) == seconds
  {
    var (hours, minutes, secs) := Clock(seconds);
    var s :=
      if hours == 0 && minutes == 0 then NatToString(secs)
      else if hours == 0 then NatToString(minutes) + ":" + Pad2(secs)
      else Pad2(hours) + ":" + NatToString(minutes) + ":" + Pad2(secs);
    var ps := TimePieces(seconds);
    assert s == Join(ps, ':') by {
      if |ps| == 2 {
        JoinTwo(ps[0], ps[1], ':');
      } else if |ps| == 3 {
        JoinThree(ps[0], ps[1], ps[2], ':');
      }
    }
    DigitPiecesSplit(ps, ':');
    TimePiecesValue(seconds);
    s
  }

  /** Pieces made of digits come back whole from a split at a non-digit. */
  lemma DigitPiecesSplit(ps: seq<string>, sep: char)
    requires |ps| >= 1 && !IsDigit(sep)
    requires forall i :: 0 <= i < |ps| ==> AllDigits(ps[i])
    ensures Split(Join(ps, sep), sep) == ps
  {
    forall i | 0 <= i < |ps| ensures sep !in ps[i] {
      DigitsHaveNo(ps[i], sep);
    }
    SplitJoin(ps, sep);
  }

  /** The clock pieces read back as the seconds they came from. */
  lemma TimePiecesValue(seconds: nat)
    ensures TimeValue(TimePieces(seconds)) == seconds
  {
    var (hours, minutes, secs) := Clock(seconds);
    if hours == 0 && minutes == 0 {
      ParseNatToString(secs);
    } else if hours == 0 {
      TwoPiecesValue(minutes, secs);
    } else {
      ThreePiecesValue(hours, minutes, secs);
    }
  }

  lemma TwoPiecesValue(minutes: nat, secs: nat)
    ensures TimeValue([NatToString(minutes), Pad2(secs)]) == minutes * 60 + secs
  {
    ParseNatToString(minutes);
  }

  lemma ThreePiecesValue(hours: nat, minutes: nat, secs: nat)
    ensures TimeValue([Pad2(hours), NatToString(minutes), Pad2(secs)]) == hours * 3600 + minutes * 60 + secs
  {
    ParseNatToString(minutes);
  }

  /** The value of clock pieces read as seconds, minutes:seconds, or
      hours:minutes:seconds. */
  function TimeValue(ps: seq<string>): nat
    requires 1 <= |ps| <= 3 && forall i :: 0 <= i < |ps| ==> AllDigits(ps[i])
  {
    if |ps| == 1 then ParseNat(ps[0])
    else if |ps| == 2 then ParseNat(ps[0]) * 60 + ParseNat(ps[1])
    else ParseNat(ps[0]) * 3600 + ParseNat(ps[1]) * 60 + ParseNat(ps[2])
  }

  /** The clock text is its pieces joined by colons; there is one piece
      below a minute, two below an hour and three from an hour on; and
      reading the pieces back gives the number of seconds. */
  lemma FormatTimeRoundTrip(seconds: nat)
    ensures Split(FormatTime(seconds), ':') == TimePieces(seconds)
    ensures |TimePieces(seconds)| == 1 <==> seconds < 60
    ensures |TimePieces(seconds)| == 2 <==> 60 <= seconds < 3600
    ensures TimeValue(TimePieces(seconds)) == seconds
  {
    var (hours, minutes, secs) := Clock(seconds);
  }

  /** Below a minute the text is the bare number; below an hour the
      seconds always take two digits; from an hour on the minutes are not
      padded, so 3605 seconds read "01:0:05". */
  lemma FormatTimeShapes(seconds: nat)
    ensures seconds < 60 ==> FormatTime(seconds) == NatToString(seconds)
    ensures seconds >= 60 ==> |TimePieces(seconds)[|TimePieces(seconds)| - 1]| == 2
    ensures seconds >= 3600 && Clock(seconds).1 < 10 ==> |TimePieces(seconds)[1]| == 1
  {
    var (hours, minutes, secs) := Clock(seconds);
    var ps := TimePieces(seconds);
    if seconds < 60 {
      assert hours == 0 && minutes == 0 && secs == seconds;
    } else {
      assert hours != 0 || minutes != 0;
      assert ps[|ps| - 1] == Pad2(secs);
    }
  }

  /** An hour and five seconds. */
  lemma FormatTimeHourQuirk()
    ensures FormatTime(3605) == "01:0:05"
  {
    assert Clock(3605) == (1, 0, 5);
    var h := Pad2(1);
    assert NatToString(1) == "1";
    assert h == "01";
    assert Pad2(5) == "05" by {
      assert NatToString(5) == "5";
    }
    assert NatToString(0) == "0";
  }

  // ---------------------------------------------------------------------
  // String.prototype.format

  /** The number of decimal digits `s` starts with. */
  function DigitRun(s: string): (k: nat)
    ensures k <= |s| && AllDigits(s[..k])
    ensures k < |s| ==> !IsDigit(s[k])
  {
    if |s| == 0 || !IsDigit(s[0]) then 0
    else
      var k := 1 + DigitRun(s[1..]);
      assert s[..k] == [s[0]] + s[1..][..k - 1];
      k
  }

  /** The length of the `{digits}` placeholder `s` starts with, or 0. */
  function PlaceholderLen(s: string): (n: nat)
    ensures n == 0 || (3 <= n <= |s| && s[0] == '{' && s[n - 1] == '}' && AllDigits(s[1..n - 1]))
  {
    if |s| > 0 && s[0] == '{' then
      var k := DigitRun(s[1..]);
      if k > 0 && k + 1 < |s| && s[k + 1] == '}' then
        assert s[1..k + 1] == s[1..][..k];
        k + 2
      else 0
    else 0
  }

  /** The argument a placeholder key selects: only a canonical index that
      names an argument does (`"00"` names no argument property). */
  predicate Selects(key: string, nargs: nat)
    requires AllDigits(key)
  {
    NatToString(ParseNat(key)) == key && ParseNat(key) < nargs
  }

  /** `s.format(args...)`: every `{n}` whose `n` selects an argument is
      replaced by it, every other placeholder is kept as it is, and all
      other text is copied; matches are found left to right and do not
      overlap. */
  function Format(s: string, args: seq<string>): (r: string)
    ensures |args| == 0 ==> r == s
    decreases |s|
  {
    if |s| == 0 then ""
    else
      var n := PlaceholderLen(s);
      if n == 0 then
        assert s == [s[0]] + s[1..];
        [s[0]] + Format(s[1..], args)
      else
        var key := s[1..n - 1];
        assert s == s[..n] + s[n..];
        (if Selects(key, |args|) then args[ParseNat(key)] else s[..n]) + Format(s[n..], args)
  }

  /** Text without an opening brace is copied unchanged. */
  lemma {:induction false} FormatPlainText(s: string, args: seq<string>)
    requires '{' !in s
    ensures Format(s, args) == s
    decreases |s|
  {
    if |s| > 0 {
      assert s[0] != '{';
      assert forall x :: x in s[1..] ==> x in s;
      FormatPlainText(s[1..], args);
      assert s == [s[0]] + s[1..];
    }
  }

  /** Plain text followed by the placeholder of argument `i` and more text
      formats to the text, the argument, and the formatted rest. */
  lemma FormatPlaceholder(pre: string, i: nat, post: string, args: seq<string>)
    requires '{' !in pre && i < |args|
    ensures Format(pre + "{" + NatToString(i) + "}" + post, args) == pre + args[i] + Format(post, args)
  {
    var s := "{" + NatToString(i) + "}" + post;
    assert pre + "{" + NatToString(i) + "}" + post == pre + s;
    FormatAfterPlain(pre, s, args);
    FormatLeadingPlaceholder(i, post, args);
  }

  /** The placeholder of argument `i`, then more text. */
  lemma FormatLeadingPlaceholder(i: nat, post: string, args: seq<string>)
    requires i < |args|
    ensures Format("{" + NatToString(i) + "}" + post, args) == args[i] + Format(post, args)
  {
    var s := "{" + NatToString(i) + "}" + post;
    var k := |NatToString(i)|;
    PlaceholderOf(NatToString(i), post);
    ParseNatToString(i);
    assert Selects(s[1..k + 1], |args|);
    assert s[..k + 2] + s[k + 2..] == s;
  }

  /** A placeholder whose key selects no argument stays in the text as
      it is: an index past the last argument, or a key such as `01` that
      is not the canonical text of its number. */
  lemma FormatKeepsPlaceholder(pre: string, d: string, post: string, args: seq<string>)
    requires '{' !in pre && AllDigits(d) && |d| > 0 && !Selects(d, |args|)
    ensures Format(pre + "{" + d + "}" + post, args) == pre + "{" + d + "}" + Format(post, args)
  {
    var s := "{" + d + "}" + post;
    assert pre + "{" + d + "}" + post == pre + s;
    FormatAfterPlain(pre, s, args);
    FormatLeadingKept(d, post, args);
  }

  /** A kept placeholder, then more text. */
  lemma FormatLeadingKept(d: string, post: string, args: seq<string>)
    requires AllDigits(d) && |d| > 0 && !Selects(d, |args|)
    ensures Format("{" + d + "}" + post, args) == "{" + d + "}" + Format(post, args)
  {
    var s := "{" + d + "}" + post;
    var k := |d|;
    PlaceholderOf(d, post);
    assert s[..k + 2] == "{" + d + "}";
    assert s[..k + 2] + s[k + 2..] == s;
  }

  /** The placeholder of an index with no argument is kept. */
  lemma FormatOutOfRange(pre: string, i: nat, post: string, args: seq<string>)
    requires '{' !in pre && i >= |args|
    ensures Format(pre + "{" + NatToString(i) + "}" + post, args) == pre + "{" + NatToString(i) + "}" + Format(post, args)
  {
    ParseNatToString(i);
    FormatKeepsPlaceholder(pre, NatToString(i), post, args);
  }

  /** `"{01}".format("a", "b")` is `"{01}"`: the key `01` names no argument. */
  lemma FormatNonCanonicalKey()
    ensures Format("{01}", ["a", "b"]) == "{01}"
  {
    assert ParseNat("01") == 1;
    assert NatToString(1) == "1";
    assert !Selects("01", 2);
    FormatKeepsPlaceholder("", "01", "", ["a", "b"]);
    assert "" + "{" + "01" + "}" + "" == "{01}";
  }

  /** A brace, digits, a brace: a placeholder of that length and key. */
  lemma PlaceholderOf(d: string, post: string)
    requires AllDigits(d) && |d| > 0
    ensures var s := "{" + d + "}" + post;
            && PlaceholderLen(s) == |d| + 2 && s[1..|d| + 1] == d && s[|d| + 2..] == post
  {
    var s := "{" + d + "}" + post;
    var k := |d|;
    assert DigitRun(s[1..]) == k by {
      DigitRunOf(d, "}" + post);
      assert s[1..] == d + ("}" + post);
    }
    assert s[k + 1] == '}';
    assert s[1..k + 1] == d;
    assert s[k + 2..] == post;
  }

  lemma {:induction false} DigitRunOf(d: string, rest: string)
    requires AllDigits(d) && (|rest| == 0 || !IsDigit(rest[0]))
    ensures DigitRun(d + rest) == |d|
    decreases |d|
  {
    if |d| > 0 {
      assert (d + rest)[1..] == d[1..] + rest;
      DigitRunOf(d[1..], rest);
    } else {
      assert d + rest == rest;
    }
  }

  lemma {:induction false} FormatAfterPlain(pre: string, s: string, args: seq<string>)
    requires '{' !in pre
    ensures Format(pre + s, args) == pre + Format(s, args)
    decreases |pre|
  {
    if |pre| > 0 {
      var t := pre + s;
      assert t[0] == pre[0] != '{';
      assert PlaceholderLen(t) == 0;
      assert Format(t, args) == [t[0]] + Format(t[1..], args);
      assert '{' !in pre[1..] by {
        assert forall x :: x in pre[1..] ==> x in pre;
      }
      assert t[1..] == pre[1..] + s;
      FormatAfterPlain(pre[1..], s, args);
      assert pre == [pre[0]] + pre[1..];
    } else {
      assert pre + s == s;
    }
  }

  // ---------------------------------------------------------------------
  // getpuzz

  /** `getpuzz(date)` for a date in `year`, the zero-based `month` and the
      day of the month: year, two-digit one-based month and two-digit day,
      separated by slashes. */
  function GetPuzz(year: nat, month: nat, day: nat): (s: string)
    ensures var ps := Split(s, '/');
            && |ps| == 3 && AllDigits(ps[0]) && AllDigits(ps[1]) && AllDigits(ps[2])
            && ParseNat(ps[0]) == year && ParseNat(ps[1]) == month + 1 && ParseNat(ps[2]) == day
            && (month + 1 < 100 ==> |ps[1]| == 2) && (day < 100 ==> |ps[2]| == 2)
  {
    var a := NatToString(year);
    var b := Pad2(month + 1);
    var c := Pad2(day);
    var s := a + "/" + b + "/" + c;
    assert Split(s, '/') == [a, b, c] by {
      DigitsHaveNo(a, '/');
      DigitsHaveNo(b, '/');
      DigitsHaveNo(c, '/');
      assert s == a + ['/'] + b + ['/'] + c;
      SplitThree(a, b, c, '/');
    }
    ParseNatToString(year);
    s
  }

  /** The path has three slash-separated parts that read back as the year,
      the one-based month and the day, the last two as exactly two digits
      for calendar dates. */
  lemma GetPuzzRoundTrip(year: nat, month: nat, day: nat)
    requires month < 12 && 1 <= day <= 31
    ensures var ps := Split(GetPuzz(year, month, day), '/');
            && |ps| == 3 && AllDigits(ps[0]) && AllDigits(ps[1]) && AllDigits(ps[2])
            && ParseNat(ps[0]) == year && ParseNat(ps[1]) == month + 1 && ParseNat(ps[2]) == day
            && |ps[1]| == 2 && |ps[2]| == 2
  {
  }
}
