/**
 * String primitives of the JavaScript runtime that the election scripts rely on:
 * `trim`, `toLowerCase`, `includes`, `startsWith`, the `\s` character class, the
 * e-mail pattern `^[^\s@]+@[^\s@]+\.[^\s@]+$` and `split(/\s+/).filter(Boolean)`.
 */
module Text {
  import opened Wrappers

  /** How a template literal renders a possibly missing string field: a missing one prints as `undefined`. */
  function Show(o: Option<string>): string {
    match o
    case Some(s) => s
    case None => "undefined"
  }

  /** JavaScript truthiness of a possibly missing string field: present and non-empty. */
  predicate Truthy(o: Option<string>) {
    o.Some? && o.value != ""
  }

  /** `a || b` on string fields: `a` when it is truthy, `b` otherwise. */
  function Or(a: Option<string>, b: Option<string>): (r: Option<string>)
    ensures Truthy(a) ==> r == a
    ensures !Truthy(a) ==> r == b
  {
    if Truthy(a) then a else b
  }

  /**
   * The characters JavaScript's `trim` removes and its `\s` class matches: the
   * WhiteSpace and LineTerminator code points of ECMAScript.
   */
  predicate IsSpace(c: char) {
    var n := c as int;
    n == 0x20 || 0x09 <= n <= 0x0D || n == 0xA0 || n == 0x1680 || 0x2000 <= n <= 0x200A
    || n == 0x2028 || n == 0x2029 || n == 0x202F || n == 0x205F || n == 0x3000 || n == 0xFEFF
  }

  predicate AllSpace(s: string) {
    forall i :: 0 <= i < |s| ==> IsSpace(s[i])
  }

  /** Removes leading white space: the result is the suffix of `s` that starts at its first non-space. */
  function TrimStart(s: string): (r: string)
    ensures |r| <= |s| && r == s[|s| - |r|..]
    ensures forall i :: 0 <= i < |s| - |r| ==> IsSpace(s[i])
    ensures |r| == 0 || !IsSpace(r[0])
  {
    if |s| > 0 && IsSpace(s[0]) then TrimStart(s[1..]) else s
  }

  /** Removes trailing white space: the result is the prefix of `s` that ends at its last non-space. */
  function TrimEnd(s: string): (r: string)
    ensures |r| <= |s| && r == s[..|r|]
    ensures forall i :: |r| <= i < |s| ==> IsSpace(s[i])
    ensures |r| == 0 || !IsSpace(r[|r| - 1])
  {
    if |s| > 0 && IsSpace(s[|s| - 1]) then TrimEnd(s[..|s| - 1]) else s
  }

  /** JavaScript's `String.prototype.trim`. */
  function Trim(s: string): string {
    TrimEnd(TrimStart(s))
  }

  /** A string that does not start with white space is its own `TrimStart`. */
  lemma TrimStartFixed(t: string)
    requires |t| == 0 || !IsSpace(t[0])
    ensures TrimStart(t) == t
  {
  }

  /** A string that does not end with white space is its own `TrimEnd`. */
  lemma TrimEndFixed(t: string)
    requires |t| == 0 || !IsSpace(t[|t| - 1])
    ensures TrimEnd(t) == t
  {
  }

  /** Trimming twice trims no more than once. */
  lemma TrimIdempotent(s: string)
    ensures Trim(Trim(s)) == Trim(s)
  {
    var u := TrimStart(s);
    var t := TrimEnd(u);
    if |t| > 0 {
      assert t[0] == u[0];
    }
    TrimStartFixed(t);
    TrimEndFixed(t);
  }

  /** `Array.prototype.join(sep)`; an array's own `toString` joins with `","`. */
  function Join(items: seq<string>, sep: string): (r: string)
    ensures |items| == 0 ==> r == ""
    ensures |items| == 1 ==> r == items[0]
    ensures |items| > 0 ==> StartsWith(r, items[0])
  {
    if |items| == 0 then "" else if |items| == 1 then items[0] else items[0] + sep + Join(items[1..], sep)
  }

  /** A string that is empty once trimmed (the scripts' `!value.trim()`). */
  predicate IsBlank(s: string) {
    Trim(s) == ""
  }

  /** A string is blank exactly when every character of it is white space. */
  lemma BlankIffAllSpace(s: string)
    ensures IsBlank(s) <==> AllSpace(s)
  {
    var t := TrimStart(s);
    if !AllSpace(s) {
      var k :| 0 <= k < |s| && !IsSpace(s[k]);
      assert k >= |s| - |t|;
      assert t[k - (|s| - |t|)] == s[k];
      assert |TrimEnd(t)| > k - (|s| - |t|);
    }
  }

  /** Case folding of one character; only the ASCII letters are folded. */
  function LowerChar(c: char): char {
    if 'A' <= c <= 'Z' then (c as int + 32) as char else c
  }

  /** JavaScript's `toLowerCase`, restricted to ASCII letters. */
  function ToLower(s: string): (r: string)
    ensures |r| == |s|
    ensures forall i :: 0 <= i < |s| ==> r[i] == LowerChar(s[i])
  {
    seq(|s|, i requires 0 <= i < |s| => LowerChar(s[i]))
  }

  predicate IsAsciiAlnum(c: char) {
    ('a' <= c <= 'z') || ('A' <= c <= 'Z') || ('0' <= c <= '9')
  }

  predicate StartsWith(s: string, prefix: string) {
    |prefix| <= |s| && s[..|prefix|] == prefix
  }

  predicate EndsWith(s: string, suffix: string) {
    |suffix| <= |s| && s[|s| - |suffix|..] == suffix
  }

  /** JavaScript's `String.prototype.includes`. */
  predicate Contains(s: string, sub: string)
    decreases |s|
  {
    StartsWith(s, sub) || (|s| > 0 && Contains(s[1..], sub))
  }

  /** The empty string occurs in every string, so an empty search term matches everything. */
  lemma ContainsEmpty(s: string)
    ensures Contains(s, "")
  {
    assert StartsWith(s, "");
  }

  // ---------------------------------------------------------------------------
  // Number.prototype.toString(radix) for whole numbers

  /** A digit of `toString(radix)`: `0`-`9`, then `a`-`z`. */
  function RadixDigit(d: nat): (c: char)
    requires d < 36
    ensures IsRadixChar(c) && (if c <= '9' then c as int - '0' as int else c as int - 'a' as int + 10) == d
  {
    if d < 10 then ('0' as int + d) as char else ('a' as int + d - 10) as char
  }

  predicate IsRadixChar(c: char) {
    '0' <= c <= '9' || 'a' <= c <= 'z'
  }

  /** The value of a digit; inverse of `RadixDigit`. */
  function DigitValue(c: char): (d: nat)
    requires IsRadixChar(c)
    ensures d < 36 && RadixDigit(d) == c
  {
    if c <= '9' then c as int - '0' as int else c as int - 'a' as int + 10
  }

  /** `n.toString(radix)`: the digits of `n`, most significant first. */
  function ToRadix(n: nat, radix: nat): (r: string)
    requires 2 <= radix <= 36
    ensures |r| > 0
    ensures forall i :: 0 <= i < |r| ==> IsRadixChar(r[i]) && DigitValue(r[i]) < radix
    decreases n
  {
    if n < radix then [RadixDigit(n)]
    else
      DivStep(n, radix);
      ToRadix(n / radix, radix) + [RadixDigit(n % radix)]
  }

  /** One step of positional notation: `n` is its quotient's digits followed by its remainder. */
  lemma DivStep(n: nat, radix: nat)
    requires 2 <= radix <= n
    ensures 0 <= n / radix < n && n % radix < radix
    ensures n == (n / radix) * radix + n % radix
  {
    var q, m := n / radix, n % radix;
    assert n == radix * q + m && 0 <= m < radix;
    assert radix * q >= 2 * q by {
      assert radix * q - 2 * q == (radix - 2) * q;
    }
  }

  /** Reads digits back. */
  function ParseRadix(s: string, radix: nat): nat
    requires forall i :: 0 <= i < |s| ==> IsRadixChar(s[i])
  {
    if |s| == 0 then 0 else ParseRadix(s[..|s| - 1], radix) * radix + DigitValue(s[|s| - 1])
  }

  /** The digits determine the number. */
  lemma {:induction false} ParseToRadix(n: nat, radix: nat)
    requires 2 <= radix <= 36
    ensures ParseRadix(ToRadix(n, radix), radix) == n
    decreases n
  {
    var r := ToRadix(n, radix);
    if n >= radix {
      DivStep(n, radix);
      ParseToRadix(n / radix, radix);
      assert r[..|r| - 1] == ToRadix(n / radix, radix);
      assert DigitValue(r[|r| - 1]) == n % radix;
    }
  }

  /** `String(n)` for an integer. */
  function IntText(n: int): (r: string)
    ensures '@' !in r
  {
    if n < 0 then "-" + ToRadix(-n, 10) else ToRadix(n, 10)
  }

  // ---------------------------------------------------------------------------
  // The e-mail pattern ^[^\s@]+@[^\s@]+\.[^\s@]+$

  /** A character of the class `[^\s@]`. */
  predicate Plain(c: char) {
    !IsSpace(c) && c != '@'
  }

  predicate AllPlainExcept(s: string, at: int) {
    forall k :: 0 <= k < |s| && k != at ==> Plain(s[k])
  }

  /**
   * The regular expression's meaning: a non-empty plain local part, one `@`, a
   * non-empty plain host part, a `.`, and a non-empty plain last label.
   */
  ghost predicate MatchesEmailPattern(s: string) {
    exists i, j :: 0 < i && i + 1 < j < |s| - 1 && s[i] == '@' && s[j] == '.' && AllPlainExcept(s, i)
  }

  /** Index of the first occurrence of `c`, or `|s|` when there is none. */
  function IndexOf(s: string, c: char): (r: nat)
    ensures r <= |s|
    ensures r < |s| ==> s[r] == c
    ensures forall k :: 0 <= k < r ==> s[k] != c
  {
    if |s| == 0 then 0
    else if s[0] == c then 0
    else 1 + IndexOf(s[1..], c)
  }

  predicate HasDotIn(s: string, lo: int, hi: int)
    requires 0 <= lo && hi <= |s|
  {
    exists j | lo <= j < hi :: s[j] == '.'
  }

  /** The executable test used by the forms and the bulk upload. */
  predicate IsEmail(s: string) {
    var at := IndexOf(s, '@');
    0 < at && at + 3 < |s| && AllPlainExcept(s, at) && HasDotIn(s, at + 2, |s| - 1)
  }

  /** The executable test accepts exactly the strings the regular expression matches. */
  lemma EmailTestMatchesPattern(s: string)
    ensures IsEmail(s) <==> MatchesEmailPattern(s)
  {
    var at := IndexOf(s, '@');
    if IsEmail(s) {
      var j :| at + 2 <= j < |s| - 1 && s[j] == '.';
      assert 0 < at && at + 1 < j < |s| - 1 && s[at] == '@' && s[j] == '.' && AllPlainExcept(s, at);
    }
    if MatchesEmailPattern(s) {
      var i, j :| 0 < i && i + 1 < j < |s| - 1 && s[i] == '@' && s[j] == '.' && AllPlainExcept(s, i);
      assert at == i;
      assert HasDotIn(s, at + 2, |s| - 1);
    }
  }

  // ---------------------------------------------------------------------------
  // Words: s.split(/\s+/).filter(Boolean)

  /** Length of the run of non-space characters that starts `s`. */
  function WordLength(s: string): (r: nat)
    ensures r <= |s|
    ensures forall k :: 0 <= k < r ==> !IsSpace(s[k])
    ensures r == |s| || IsSpace(s[r])
  {
    if |s| == 0 || IsSpace(s[0]) then 0 else 1 + WordLength(s[1..])
  }

  /** A string without white space. */
  predicate NoSpace(s: string) {
    forall k :: 0 <= k < |s| ==> !IsSpace(s[k])
  }

  /** The maximal runs of non-space characters of `s`, in order. */
  function Words(s: string): (r: seq<string>)
    ensures forall i :: 0 <= i < |r| ==> |r[i]| > 0 && NoSpace(r[i])
    decreases |s|
  {
    if |s| == 0 then []
    else if IsSpace(s[0]) then Words(s[1..])
    else
      var n := WordLength(s);
      [s[..n]] + Words(s[n..])
  }

  /** White space in front of the text does not change its words. */
  lemma {:induction false} WordsSkipSpace(t: string)
    requires |t| > 0 && IsSpace(t[0])
    ensures Words(t) == Words(t[1..])
  {
  }

  /** A maximal run of `m` non-space characters at the front of `t` is exactly one word. */
  lemma {:induction false} WordsFirst(t: string, m: nat)
    requires 0 < m <= |t|
    requires forall k :: 0 <= k < m ==> !IsSpace(t[k])
    requires m == |t| || IsSpace(t[m])
    ensures |Words(t)| == 1 + |Words(t[m..])|
  {
    var n := WordLength(t);
    assert n == m;
  }

  /** Advances from the first character of a word to the end of that word. */
  method SkipWord(s: string, i: nat) returns (j: nat)
    requires i < |s| && !IsSpace(s[i])
    ensures i < j <= |s|
    ensures |Words(s[i..])| == 1 + |Words(s[j..])|
  {
    j := i + 1;
    while j < |s| && !IsSpace(s[j])
      invariant i < j <= |s|
      invariant forall k :: i <= k < j ==> !IsSpace(s[k])
    {
      j := j + 1;
    }
    WordsFirst(s[i..], j - i);
    assert s[i..][j - i..] == s[j..];
  }

  /** Counts the words of `s` in one pass, as the 100-word limit of the CV/bio text needs. */
  method CountWords(s: string) returns (n: nat)
    ensures n == |Words(s)|
  {
    n := 0;
    var i := 0;
    assert s[0..] == s;
    while i < |s|
      invariant 0 <= i <= |s|
      invariant n + |Words(s[i..])| == |Words(s)|
    {
      if IsSpace(s[i]) {
        WordsSkipSpace(s[i..]);
        assert s[i..][1..] == s[i + 1..];
        i := i + 1;
      } else {
        i := SkipWord(s, i);
        n := n + 1;
      }
    }
    assert s[|s|..] == [];
  }
}
