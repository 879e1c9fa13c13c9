/** The pieces of Go's `strings`, `unicode` and `fmt` packages the core
    relies on, over `string` = `seq<char>` (one char per rune). */
module Text {

  /** `unicode.ToLower` restricted to ASCII letters; the only strings the
      core lower-cases are Go field names, which are ASCII. */
  function LowerChar(c: char): (r: char)
    ensures 'A' <= c <= 'Z' ==> 'a' <= r <= 'z'
    ensures !('A' <= c <= 'Z') ==> r == c
  {
    if 'A' <= c <= 'Z' then (c as int - 'A' as int + 'a' as int) as char else c
  }

  /** `strings.ToLower`, character by character. */
  function ToLower(s: string): (r: string)
    ensures |r| == |s|
    ensures forall i :: 0 <= i < |s| ==> r[i] == LowerChar(s[i])
  {
    seq(|s|, i requires 0 <= i < |s| => LowerChar(s[i]))
  }

  /** The representative of a character's simple case-folding orbit, as far
      as it matters when the other side is ASCII: upper-case ASCII letters
      fold to lower case, LATIN SMALL LETTER LONG S (U+017F) folds with 's'
      and KELVIN SIGN (U+212A) folds with 'k'. */
  function CaseFold(c: char): (r: char)
    ensures 'a' <= c <= 'z' || c == '-' ==> r == c
  {
    if 'A' <= c <= 'Z' then LowerChar(c)
    else if c == 'ſ' then 's'
    else if c == 'K' then 'k'
    else c
  }

  /** `strings.EqualFold`: same number of runes, and rune by rune the same
      under simple case folding. */
  predicate EqualFold(s: string, t: string)
  {
    |s| == |t| && forall i :: 0 <= i < |s| ==> CaseFold(s[i]) == CaseFold(t[i])
  }

  /** `strings.HasPrefix`. */
  predicate HasPrefix(s: string, prefix: string)
  {
    |prefix| <= |s| && s[..|prefix|] == prefix
  }

  /** `strings.HasSuffix`. */
  predicate HasSuffix(s: string, suffix: string)
  {
    |suffix| <= |s| && s[|s| - |suffix|..] == suffix
  }

  /** The leading run of non-space characters of `s`. */
  function WordPrefix(s: string): (w: string)
    ensures |w| <= |s| && w == s[..|w|]
    ensures forall i :: 0 <= i < |w| ==> w[i] != ' '
    ensures |w| < |s| ==> s[|w|] == ' '
    ensures |s| > 0 && s[0] != ' ' ==> |w| > 0
  {
    if |s| == 0 || s[0] == ' ' then "" else [s[0]] + WordPrefix(s[1..])
  }

  /** The space-separated words of `s`, as the validator splits a `oneof`
      or `oneofci` parameter: non-empty and free of spaces. */
  function Words(s: string): (r: seq<string>)
    ensures forall k :: 0 <= k < |r| ==> |r[k]| > 0 && forall i :: 0 <= i < |r[k]| ==> r[k][i] != ' '
    decreases |s|
  {
    if |s| == 0 then []
    else if s[0] == ' ' then Words(s[1..])
    else var w := WordPrefix(s); [w] + Words(s[|w|..])
  }

  predicate IsWord(w: string)
  {
    |w| > 0 && forall i :: 0 <= i < |w| ==> w[i] != ' '
  }

  lemma {:induction false} WordPrefixOf(w: string, rest: string)
    requires IsWord(w) && (rest == "" || rest[0] == ' ')
    ensures WordPrefix(w + rest) == w
    decreases |w|
  {
    assert (w + rest)[1..] == w[1..] + rest;
    if |w| > 1 {
      WordPrefixOf(w[1..], rest);
    } else {
      assert w[1..] + rest == rest;
    }
  }

  /** Splitting a word followed by a space and more text. */
  lemma WordsCons(w: string, rest: string)
    requires IsWord(w)
    ensures Words(w + " " + rest) == [w] + Words(rest)
  {
    var s := w + " " + rest;
    assert s == w + (" " + rest);
    WordPrefixOf(w, " " + rest);
    assert s[|w|..] == " " + rest;
    assert (" " + rest)[1..] == rest;
  }

  /** Splitting a single word. */
  lemma WordsOne(w: string)
    requires IsWord(w)
    ensures Words(w) == [w]
  {
    WordPrefixOf(w, "");
    assert w + "" == w;
    assert w[|w|..] == "";
  }

  /** `strings.Join(ws, " ")`. */
  function Join(ws: seq<string>): string
  {
    if |ws| == 0 then "" else if |ws| == 1 then ws[0] else ws[0] + " " + Join(ws[1..])
  }

  /** Splitting undoes joining, as long as every piece is a word. */
  lemma {:induction false} WordsJoin(ws: seq<string>)
    requires forall k :: 0 <= k < |ws| ==> IsWord(ws[k])
    ensures Words(Join(ws)) == ws
  {
    if |ws| == 1 {
      WordsOne(ws[0]);
    } else if |ws| > 1 {
      WordsJoin(ws[1..]);
      WordsCons(ws[0], Join(ws[1..]));
      assert ws == [ws[0]] + ws[1..];
    }
  }

  /** A formatted message ends with the value formatted into it. */
  lemma HasSuffixConcat(a: string, b: string)
    ensures HasSuffix(a + b, b)
  {
    assert (a + b)[|a + b| - |b|..] == b;
  }

  /** A one-character prefix is a check of the first character. */
  lemma HasPrefixChar(s: string, c: char)
    ensures HasPrefix(s, [c]) <==> |s| > 0 && s[0] == c
  {
    if |s| > 0 {
      assert s[..1] == [s[0]];
    }
  }

  /** `strings.TrimPrefix`: drops one leading copy of `prefix`, if any. */
  function TrimPrefix(s: string, prefix: string): (r: string)
    ensures HasPrefix(s, prefix) ==> s == prefix + r
    ensures !HasPrefix(s, prefix) ==> r == s
  {
    if HasPrefix(s, prefix) then s[|prefix|..] else s
  }

  predicate IsDigit(c: char)
  {
    '0' <= c <= '9'
  }

  function Digit(d: nat): (c: char)
    requires d < 10
    ensures IsDigit(c) && c as int - '0' as int == d
  {
    ('0' as int + d) as char
  }

  /** The decimal numeral of `n`, as `fmt` prints a non-negative integer. */
  function NatToDecimal(n: nat): (r: string)
    ensures |r| > 0
    ensures forall i :: 0 <= i < |r| ==> IsDigit(r[i])
    decreases n
  {
    if n < 10 then [Digit(n)] else NatToDecimal(n / 10) + [Digit(n % 10)]
  }

  /** `%d` / `%v` of an integer: a minus sign before negative numbers. */
  function IntToDecimal(n: int): (r: string)
    ensures |r| > 0
    ensures (r[0] == '-') <==> n < 0
  {
    if n < 0 then "-" + NatToDecimal(-n) else NatToDecimal(n)
  }

  /** The value of a numeral made of decimal digits. */
  function DecimalValue(s: string): (n: nat)
    requires forall i :: 0 <= i < |s| ==> IsDigit(s[i])
  {
    if |s| == 0 then 0
    else
      assert IsDigit(s[|s| - 1]);
      DecimalValue(s[..|s| - 1]) * 10 + (s[|s| - 1] as int - '0' as int)
  }

  /** Reading back the numeral recovers the number. */
  lemma {:induction false} DecimalRoundTrip(n: nat)
    ensures DecimalValue(NatToDecimal(n)) == n
    decreases n
  {
    var r := NatToDecimal(n);
    if n >= 10 {
      DecimalRoundTrip(n / 10);
      assert r[..|r| - 1] == NatToDecimal(n / 10);
    }
  }

  /** Distinct integers print as distinct numerals. */
  lemma IntToDecimalInjective(a: int, b: int)
    requires IntToDecimal(a) == IntToDecimal(b)
    ensures a == b
  {
    if a < 0 {
      assert IntToDecimal(a)[1..] == NatToDecimal(-a);
      assert IntToDecimal(b)[1..] == NatToDecimal(-b);
      DecimalRoundTrip(-a);
      DecimalRoundTrip(-b);
    } else {
      DecimalRoundTrip(a);
      DecimalRoundTrip(b);
    }
  }

  const MaxInt64: int := 0x7fff_ffff_ffff_ffff
  const MinInt64: int := -0x8000_0000_0000_0000

  /** The outcome of `strconv.Atoi` on a 64-bit platform: a number, a
      syntax error, or a range error on a numeral too large in magnitude
      (`negative` tells which side). */
  datatype AtoiResult = Parsed(n: int) | SyntaxError | RangeError(negative: bool)

  /** The integer `strconv.Atoi` returns alongside its error: 0 on a syntax
      error, the bound of the overflowed side on a range error. */
  function AtoiValue(r: AtoiResult): (n: int)
    ensures r.Parsed? ==> n == r.n
    ensures r.SyntaxError? ==> n == 0
    ensures r.RangeError? ==> n == if r.negative then MinInt64 else MaxInt64
  {
    match r
    case Parsed(n) => n
    case SyntaxError => 0
    case RangeError(negative) => if negative then MinInt64 else MaxInt64
  }
}
