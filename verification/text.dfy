/** The few Python `str` operations the dashboard relies on, restricted to the
    ASCII characters its commands and messages use: `lower()`, `isdigit()`,
    `int()`, `str(n)` for a natural number, `os.path.join`, `os.path.basename`,
    the `in` substring test, and the ordering `sorted()` uses on strings. */
module Text {
  import opened Wrappers

  // ---------------------------------------------------------------------------
  // Ordering of strings (Python compares code point by code point; a proper
  // prefix sorts first).
  // ---------------------------------------------------------------------------

  predicate LexLe(a: string, b: string)
    decreases |a|
  {
    |a| == 0 || (|b| > 0 && (a[0] < b[0] || (a[0] == b[0] && LexLe(a[1..], b[1..]))))
  }

  lemma {:induction false} LexLeTotal(a: string, b: string)
    ensures LexLe(a, b) || LexLe(b, a)
    decreases |a|
  {
    if |a| > 0 && |b| > 0 && a[0] == b[0] {
      LexLeTotal(a[1..], b[1..]);
    }
  }

  lemma {:induction false} LexLeAntisymmetric(a: string, b: string)
    requires LexLe(a, b) && LexLe(b, a)
    ensures a == b
    decreases |a|
  {
    if |a| > 0 {
      LexLeAntisymmetric(a[1..], b[1..]);
      assert a == [a[0]] + a[1..];
      assert b == [b[0]] + b[1..];
    }
  }

  lemma {:induction false} LexLeTransitive(a: string, b: string, c: string)
    requires LexLe(a, b) && LexLe(b, c)
    ensures LexLe(a, c)
    decreases |a|
  {
    if |a| > 0 && a[0] == b[0] && b[0] == c[0] {
      LexLeTransitive(a[1..], b[1..], c[1..]);
    }
  }

  // ---------------------------------------------------------------------------
  // str.lower() on ASCII letters
  // ---------------------------------------------------------------------------

  function LowerChar(c: char): char {
    if 'A' <= c <= 'Z' then (c as int + 32) as char else c
  }

  function Lower(s: string): (r: string)
    ensures |r| == |s|
    ensures forall i :: 0 <= i < |s| ==> r[i] == LowerChar(s[i])
  {
    seq(|s|, i requires 0 <= i < |s| => LowerChar(s[i]))
  }

  /** A one-letter command matches after lowering exactly when it was typed in
      either case. */
  lemma LowerIsLetter(s: string, x: char)
    requires 'a' <= x <= 'z'
    ensures Lower(s) == [x] <==> s == [x] || s == [(x as int - 32) as char]
  {
  }

  // ---------------------------------------------------------------------------
  // str.isdigit(), int() and str() on natural numbers
  // ---------------------------------------------------------------------------

  predicate IsDigit(c: char) {
    '0' <= c <= '9'
  }

  predicate AllDigits(s: string) {
    forall i :: 0 <= i < |s| ==> IsDigit(s[i])
  }

  /** CPython's default limit on the digits `int()` converts from a decimal
      string (`sys.get_int_max_str_digits()`); leading zeros count, and a
      longer numeral raises ValueError. */
  const MaxIntDigits: nat := 4300

  /** `s.isdigit()`: non-empty and digits only. */
  predicate IsDigits(s: string) {
    |s| > 0 && AllDigits(s)
  }

  /** Whatever `isdigit()` accepts within the digit limit, `int()` reads as
      its digit value; beyond the limit `int()` rejects it. */
  lemma IntOfDigits(s: string)
    requires IsDigits(s)
    ensures |s| > MaxIntDigits ==> ParseInt(s).None?
    ensures |s| <= MaxIntDigits ==> ParseInt(s) == Some(DigitsValue(s))
  {
    StripAround("", s, "");
    assert "" + s + "" == s;
    assert Strip(s) == s;
    assert s[0] != '+' && s[0] != '-';
  }

  /** Lowering never touches digits, so a digit string is its own lowering. */
  lemma LowerOfDigits(s: string)
    ensures IsDigits(Lower(s)) <==> IsDigits(s)
    ensures IsDigits(s) ==> Lower(s) == s
  {
  }

  function DigitChar(d: nat): (c: char)
    requires d < 10
  {
    ('0' as int + d) as char
  }

  /** The value of a string of decimal digits, read left to right. */
  function DigitsValue(s: string): nat
    requires AllDigits(s)
    decreases |s|
  {
    if |s| == 0 then 0
    else DigitsValue(s[..|s| - 1]) * 10 + (s[|s| - 1] as int - '0' as int)
  }

  /** `str(n)`: the canonical decimal numeral, without leading zeros. */
  function DecimalString(n: nat): (r: string)
    ensures IsDigits(r)
    ensures r[0] == '0' ==> r == "0"
    decreases n
  {
    if n < 10 then [DigitChar(n)] else DecimalString(n / 10) + [DigitChar(n % 10)]
  }

  /** Reading back the numeral `str(n)` gives `n`. */
  lemma {:induction false} DigitsValueOfDecimal(n: nat)
    ensures DigitsValue(DecimalString(n)) == n
    decreases n
  {
    if n >= 10 {
      var s := DecimalString(n);
      assert s[..|s| - 1] == DecimalString(n / 10);
      DigitsValueOfDecimal(n / 10);
    }
  }

  lemma {:induction false} LeadingDigitPositive(s: string)
    requires IsDigits(s) && s[0] != '0'
    ensures DigitsValue(s) > 0
    decreases |s|
  {
    if |s| > 1 {
      LeadingDigitPositive(s[..|s| - 1]);
    }
  }

  /** Every canonical numeral is `str` of its own value, so `str` is a
      bijection between naturals and canonical digit strings. */
  lemma {:induction false} DecimalOfDigitsValue(s: string)
    requires IsDigits(s) && (s[0] != '0' || |s| == 1)
    ensures DecimalString(DigitsValue(s)) == s
    decreases |s|
  {
    var d := s[|s| - 1] as int - '0' as int;
    if |s| > 1 {
      var p := s[..|s| - 1];
      DecimalOfDigitsValue(p);
      LeadingDigitPositive(p);
      var v := DigitsValue(s);
      assert v == DigitsValue(p) * 10 + d;
      assert v / 10 == DigitsValue(p) && v % 10 == d;
      assert s == p + [s[|s| - 1]];
    }
  }

  lemma DecimalStringInjective(m: nat, n: nat)
    requires DecimalString(m) == DecimalString(n)
    ensures m == n
  {
    DigitsValueOfDecimal(m);
    DigitsValueOfDecimal(n);
  }

  /** The whitespace `int()` strips (ASCII part). */
  predicate IsSpace(c: char) {
    c == ' ' || c == '\t' || c == '\n' || c == '\r' || c == '\U{000B}' || c == '\U{000C}'
  }

  function TrimStart(s: string): (r: string)
    ensures |r| <= |s| && r == s[|s| - |r|..]
    ensures forall i :: 0 <= i < |s| - |r| ==> IsSpace(s[i])
    ensures |r| > 0 ==> !IsSpace(r[0])
    decreases |s|
  {
    if |s| > 0 && IsSpace(s[0]) then TrimStart(s[1..]) else s
  }

  function TrimEnd(s: string): (r: string)
    ensures |r| <= |s| && r == s[..|r|]
    ensures forall i :: |r| <= i < |s| ==> IsSpace(s[i])
    ensures |r| > 0 ==> !IsSpace(r[|r| - 1])
    decreases |s|
  {
    if |s| > 0 && IsSpace(s[|s| - 1]) then TrimEnd(s[..|s| - 1]) else s
  }

  function Strip(s: string): string {
    TrimEnd(TrimStart(s))
  }

  /** `int(s)` for a base-10 string: surrounding whitespace, an optional sign,
      then between one and `MaxIntDigits` digits; anything else is the
      ValueError, here None. */
  function ParseInt(s: string): (r: Option<int>)
    ensures r.Some? ==> exists c :: c in s && IsDigit(c)
  {
    var t := Strip(s);
    if |t| > 0 && (t[0] == '+' || t[0] == '-') then
      if 1 < |t| <= MaxIntDigits + 1 && AllDigits(t[1..]) then
        var v: int := DigitsValue(t[1..]);
        StripKeepsChars(s, 1);
        Some(if t[0] == '-' then -v else v)
      else None
    else if 0 < |t| <= MaxIntDigits && AllDigits(t) then
      StripKeepsChars(s, 0);
      Some(DigitsValue(t))
    else None
  }

  lemma StripKeepsChars(s: string, j: nat)
    requires j < |Strip(s)|
    ensures Strip(s)[j] in s
  {
    var front := TrimStart(s);
    assert Strip(s)[j] == front[j];
    assert front[j] == s[|s| - |front| + j];
  }

  /** `int(str(n)) == n`, also with the whitespace a reply may carry. */
  lemma ParseIntOfDecimal(n: nat, pre: string, post: string)
    requires |DecimalString(n)| <= MaxIntDigits
    requires forall i :: 0 <= i < |pre| ==> IsSpace(pre[i])
    requires forall i :: 0 <= i < |post| ==> IsSpace(post[i])
    ensures ParseInt(pre + DecimalString(n) + post) == Some(n)
  {
    var d := DecimalString(n);
    StripAround(pre, d, post);
    assert IsDigit(d[0]);
    DigitsValueOfDecimal(n);
  }

  lemma ParseIntOfNumeral(n: nat)
    requires |DecimalString(n)| <= MaxIntDigits
    ensures ParseInt(DecimalString(n)) == Some(n)
  {
    ParseIntOfDecimal(n, "", "");
    assert "" + DecimalString(n) + "" == DecimalString(n);
  }

  lemma StripAround(pre: string, d: string, post: string)
    requires forall i :: 0 <= i < |pre| ==> IsSpace(pre[i])
    requires forall i :: 0 <= i < |post| ==> IsSpace(post[i])
    requires IsDigits(d)
    ensures Strip(pre + d + post) == d
  {
    assert !IsSpace(d[0]) && !IsSpace(d[|d| - 1]);
    TrimStartPrefix(pre, d + post);
    assert pre + d + post == pre + (d + post);
    TrimEndSuffix(d, post);
  }

  lemma {:induction false} TrimStartPrefix(pre: string, s: string)
    requires forall i :: 0 <= i < |pre| ==> IsSpace(pre[i])
    requires |s| > 0 && !IsSpace(s[0])
    ensures TrimStart(pre + s) == s
    decreases |pre|
  {
    if |pre| > 0 {
      assert (pre + s)[1..] == pre[1..] + s;
      TrimStartPrefix(pre[1..], s);
    }
  }

  lemma {:induction false} TrimEndSuffix(s: string, post: string)
    requires forall i :: 0 <= i < |post| ==> IsSpace(post[i])
    requires |s| > 0 && !IsSpace(s[|s| - 1])
    ensures TrimEnd(s + post) == s
    decreases |post|
  {
    if |post| > 0 {
      var q := post[..|post| - 1];
      assert (s + post)[..|s + post| - 1] == s + q;
      TrimEndSuffix(s, q);
    } else {
      assert s + post == s;
    }
  }

  // ---------------------------------------------------------------------------
  // Substrings and paths
  // ---------------------------------------------------------------------------

  predicate StartsWith(s: string, p: string) {
    |p| <= |s| && s[..|p|] == p
  }

  /** Python's `p in s` on strings. */
  predicate Contains(s: string, p: string)
    decreases |s|
  {
    StartsWith(s, p) || (|s| > 0 && Contains(s[1..], p))
  }

  /** `os.path.join(dir, name)` for two components. */
  function JoinPath(dir: string, name: string): (r: string)
    ensures !(|name| > 0 && name[0] == '/') ==>
              |r| == |dir| + |name| + (if |dir| == 0 || dir[|dir| - 1] == '/' then 0 else 1)
    ensures |name| <= |r| && r[|r| - |name|..] == name
    ensures |name| > 0 && name[0] == '/' ==> r == name
    ensures !(|name| > 0 && name[0] == '/') ==> StartsWith(r, dir)
    ensures !(|name| > 0 && name[0] == '/') && |r| > |dir| + |name| ==> r[|dir|] == '/'
    ensures |name| > 0 && name[0] != '/' && |r| > |name| ==> r[|r| - |name| - 1] == '/' || r[..|r| - |name|] == dir
  {
    if |name| > 0 && name[0] == '/' then name
    else if |dir| == 0 || dir[|dir| - 1] == '/' then dir + name
    else dir + "/" + name
  }

  /** `os.path.basename(p)`: what follows the last '/'. */
  function Basename(p: string): (r: string)
    ensures |r| <= |p| && r == p[|p| - |r|..]
    ensures '/' !in r
    ensures |r| < |p| ==> p[|p| - |r| - 1] == '/'
    decreases |p|
  {
    if |p| == 0 || p[|p| - 1] == '/' then ""
    else Basename(p[..|p| - 1]) + [p[|p| - 1]]
  }

  lemma {:induction false} BasenameAfterSlash(dir: string, name: string)
    requires |dir| == 0 || dir[|dir| - 1] == '/'
    requires '/' !in name
    ensures Basename(dir + name) == name
    decreases |name|
  {
    if |name| > 0 {
      var q := name[..|name| - 1];
      assert (dir + name)[..|dir + name| - 1] == dir + q;
      BasenameAfterSlash(dir, q);
      assert name == q + [name[|name| - 1]];
    } else {
      assert dir + name == dir;
    }
  }

  /** The name of a listed folder survives joining it to the root and taking
      the basename again. */
  lemma BasenameOfJoin(dir: string, name: string)
    requires '/' !in name
    ensures Basename(JoinPath(dir, name)) == name
  {
    // A name without '/' never starts with one, so joining keeps the root.
    if |dir| == 0 || dir[|dir| - 1] == '/' {
      BasenameAfterSlash(dir, name);
    } else if !(|name| > 0 && name[0] == '/') {
      assert dir + "/" + name == (dir + "/") + name;
      BasenameAfterSlash(dir + "/", name);
    }
  }
}
