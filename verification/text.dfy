/**
 * Character and string helpers that the rest of the model shares: C-locale
 * lower-casing, first-occurrence search, decimal rendering of a count, and the
 * splitting of a text into lines the way repeated `std::getline` calls do.
 */
module Text {

  /** Lower-cases one character as `std::tolower` does in the "C" locale: only 'A'..'Z' change. */
  function LowerAscii(c: char): (r: char)
    ensures !('A' <= r <= 'Z')
    ensures r != c ==> 'A' <= c <= 'Z' && 'a' <= r <= 'z' && r as int - c as int == 'a' as int - 'A' as int
  {
    if 'A' <= c <= 'Z' then (c as int + 32) as char else c
  }

  function Lower(s: string): string
  {
    seq(|s|, i requires 0 <= i < |s| => LowerAscii(s[i]))
  }

  /** `s.rfind(prefix, 0) == 0`: `s` begins with `prefix`. */
  predicate StartsWith(s: string, prefix: string)
  {
    |prefix| <= |s| && s[..|prefix|] == prefix
  }

  /**
   * The index of the first `c` in `s`, or `|s|` when there is none (the
   * model of `std::string::npos`).
   */
  function IndexOf(s: string, c: char): (r: nat)
    ensures r <= |s|
    ensures r < |s| ==> s[r] == c
    ensures forall j :: 0 <= j < r ==> s[j] != c
  {
    if |s| == 0 then 0
    else if s[0] == c then 0
    else 1 + IndexOf(s[1..], c)
  }

  lemma IndexOfAfterPrefix(a: string, c: char, b: string)
    requires c !in a
    ensures IndexOf(a + [c] + b, c) == |a|
  {
    var s := a + [c] + b;
    assert s[|a|] == c;
    assert forall j :: 0 <= j < |a| ==> s[j] == a[j];
  }

  // ---------------------------------------------------------------------------
  // Decimal rendering (`std::to_string` of an unsigned count)
  // ---------------------------------------------------------------------------

  predicate IsDigit(c: char)
  {
    '0' <= c <= '9'
  }

  function DigitChar(d: nat): (c: char)
    requires d < 10
    ensures IsDigit(c) && c as int - '0' as int == d
  {
    ('0' as int + d) as char
  }

  /** The decimal spelling of `n`, most significant digit first, no leading zeros. */
  function Decimal(n: nat): (s: string)
    ensures |s| >= 1
    ensures forall i :: 0 <= i < |s| ==> IsDigit(s[i])
    ensures |s| > 1 ==> s[0] != '0'
  {
    if n < 10 then [DigitChar(n)] else Decimal(n / 10) + [DigitChar(n % 10)]
  }

  /** The number a string of digits denotes. */
  function DecimalValue(s: string): nat
    requires forall i :: 0 <= i < |s| ==> IsDigit(s[i])
  {
    if |s| == 0 then 0
    else
      assert IsDigit(s[|s| - 1]);
      DecimalValue(s[..|s| - 1]) * 10 + (s[|s| - 1] as int - '0' as int)
  }

  /** Reading back the decimal spelling of `n` gives `n`: the spelling names the count exactly. */
  lemma {:induction false} DecimalRoundTrip(n: nat)
    ensures DecimalValue(Decimal(n)) == n
  {
    var s := Decimal(n);
    if n >= 10 {
      DecimalRoundTrip(n / 10);
      assert s[..|s| - 1] == Decimal(n / 10);
    }
  }

  // ---------------------------------------------------------------------------
  // Lines
  // ---------------------------------------------------------------------------

  /** Writing each line followed by a newline character. */
  function JoinLines(lines: seq<string>): string
  {
    if |lines| == 0 then "" else lines[0] + "\n" + JoinLines(lines[1..])
  }

  /**
   * The written text opens with the first line and its newline and closes
   * with the last line and its newline; no lines give the empty text.
   */
  lemma {:induction false} JoinLinesFraming(lines: seq<string>)
    ensures |lines| > 0 ==> StartsWith(JoinLines(lines), lines[0] + "\n")
    ensures |lines| > 0 ==> var text, last := JoinLines(lines), lines[|lines| - 1] + "\n";
                           |last| <= |text| && text[|text| - |last|..] == last
    ensures |lines| == 0 <==> JoinLines(lines) == ""
  {
    if |lines| > 0 {
      var text := JoinLines(lines);
      var rest := JoinLines(lines[1..]);
      assert text == lines[0] + "\n" + rest;
      assert text[..|lines[0] + "\n"|] == lines[0] + "\n";
      JoinLinesFraming(lines[1..]);
      if |lines| > 1 {
        var last := lines[|lines| - 1] + "\n";
        assert lines[1..][|lines[1..]| - 1] == lines[|lines| - 1];
        assert text[|text| - |last|..] == rest[|rest| - |last|..];
      }
    }
  }

  /** No line contains a newline character. */
  predicate NoNewline(lines: seq<string>)
  {
    forall k :: 0 <= k < |lines| ==> '\n' !in lines[k]
  }

  /**
   * The lines successive `std::getline` calls return: text up to each
   * newline, plus a final unterminated piece when the text does not end
   * with a newline. An empty text has no lines at all.
   */
  function SplitLines(text: string): (lines: seq<string>)
    ensures NoNewline(lines)
    decreases |text|
  {
    if |text| == 0 then []
    else
      var k := IndexOf(text, '\n');
      if k == |text| then [text]
      else [text[..k]] + SplitLines(text[k + 1..])
  }

  /** Reading back written lines gives the same lines, as long as none holds a newline. */
  lemma {:induction false} SplitJoinLines(lines: seq<string>)
    requires NoNewline(lines)
    ensures SplitLines(JoinLines(lines)) == lines
  {
    if |lines| > 0 {
      var rest := JoinLines(lines[1..]);
      var text := JoinLines(lines);
      assert text == lines[0] + "\n" + rest;
      IndexOfAfterPrefix(lines[0], '\n', rest);
      assert text[..|lines[0]|] == lines[0];
      assert text[|lines[0]| + 1..] == rest;
      SplitJoinLines(lines[1..]);
    }
  }
}
