/** Python string operations the model needs: `str.strip()`, `str.lower()`,
    `str.isdigit()`, `str.join` and `str.split`, on `string` = `seq<char>`. */
module Text {

  /** U+FEFF, the byte-order mark. */
  const Bom: char := '\U{FEFF}'

  /** The characters Python's `str.isspace()` accepts, hence the ones
      `str.strip()` with no argument removes. */
  predicate IsPySpace(c: char) {
    || '\t' <= c <= '\r'
    || '\U{1C}' <= c <= ' '
    || c == '\U{85}' || c == '\U{A0}' || c == '\U{1680}'
    || '\U{2000}' <= c <= '\U{200A}'
    || c == '\U{2028}' || c == '\U{2029}' || c == '\U{202F}' || c == '\U{205F}'
    || c == '\U{3000}'
  }

  predicate AllSpace(s: string) {
    forall i :: 0 <= i < |s| ==> IsPySpace(s[i])
  }

  /** `s` has no leading and no trailing whitespace. */
  predicate Stripped(s: string) {
    |s| == 0 || (!IsPySpace(s[0]) && !IsPySpace(s[|s| - 1]))
  }

  /** `s.lstrip()` */
  function StripStart(s: string): (r: string)
    ensures |r| <= |s| && r == s[|s| - |r|..]
    ensures AllSpace(s[..|s| - |r|])
    ensures |r| > 0 ==> !IsPySpace(r[0])
  {
    if |s| > 0 && IsPySpace(s[0]) then StripStart(s[1..]) else s
  }

  /** `s.rstrip()` */
  function StripEnd(s: string): (r: string)
    ensures |r| <= |s| && r == s[..|r|]
    ensures AllSpace(s[|r|..])
    ensures |r| > 0 ==> !IsPySpace(r[|r| - 1])
  {
    if |s| > 0 && IsPySpace(s[|s| - 1]) then StripEnd(s[..|s| - 1]) else s
  }

  /** `s.strip()` */
  function Strip(s: string): (r: string)
    ensures Stripped(r)
    ensures |r| <= |s|
  {
    var t := StripStart(s);
    var r := StripEnd(t);
    assert |r| > 0 ==> r[0] == t[0];
    r
  }

  lemma {:induction false} StripStartPadding(pre: string, x: string)
    requires AllSpace(pre) && (|x| == 0 || !IsPySpace(x[0]))
    ensures StripStart(pre + x) == x
  {
    if |pre| > 0 {
      assert (pre + x)[1..] == pre[1..] + x;
      StripStartPadding(pre[1..], x);
    } else {
      assert pre + x == x;
    }
  }

  lemma {:induction false} StripEndPadding(x: string, post: string)
    requires AllSpace(post) && (|x| == 0 || !IsPySpace(x[|x| - 1]))
    ensures StripEnd(x + post) == x
  {
    if |post| > 0 {
      assert (x + post)[..|x + post| - 1] == x + post[..|post| - 1];
      StripEndPadding(x, post[..|post| - 1]);
    } else {
      assert x + post == x;
    }
  }

  /** `strip()` removes exactly the surrounding whitespace: padding a stripped
      string with whitespace on either side and stripping gives it back. */
  lemma StripPadding(pre: string, x: string, post: string)
    requires AllSpace(pre) && AllSpace(post) && Stripped(x)
    ensures Strip(pre + x + post) == x
  {
    if |x| == 0 {
      assert pre + x + post == pre + post;
      assert AllSpace(pre + post);
      StripStartPadding(pre + post, "");
      assert pre + post == pre + post + "";
    } else {
      assert pre + x + post == pre + (x + post);
      StripStartPadding(pre, x + post);
      StripEndPadding(x, post);
    }
  }

  /** `strip()` is idempotent. */
  lemma StripIdempotent(s: string)
    ensures Strip(Strip(s)) == Strip(s)
  {
    var x := Strip(s);
    assert "" + x + "" == x;
    StripPadding("", x, "");
  }

  /** ASCII part of Python's `str.lower()`. */
  function LowerChar(c: char): char {
    if 'A' <= c <= 'Z' then (c as int + 32) as char else c
  }

  predicate IsUpper(c: char) {
    'A' <= c <= 'Z'
  }

  /** `s.lower()`, restricted to ASCII letters. */
  function Lower(s: string): (r: string)
    ensures |r| == |s|
    ensures forall i :: 0 <= i < |s| ==> r[i] == LowerChar(s[i])
    ensures forall i :: 0 <= i < |r| ==> !IsUpper(r[i])
  {
    if |s| == 0 then [] else [LowerChar(s[0])] + Lower(s[1..])
  }

  predicate IsAsciiDigit(c: char) {
    '0' <= c <= '9'
  }

  /** `s.isdigit()` for ASCII strings, checked character by character: true
      exactly for a non-empty string of digits. */
  predicate IsDigits(s: string): (b: bool)
    ensures b <==> |s| > 0 && forall i :: 0 <= i < |s| ==> IsAsciiDigit(s[i])
  {
    |s| > 0 && IsAsciiDigit(s[0]) && (|s| == 1 || IsDigits(s[1..]))
  }

  /** `sep.join(parts)` */
  function Join(sep: string, parts: seq<string>): string {
    if |parts| == 0 then ""
    else if |parts| == 1 then parts[0]
    else parts[0] + sep + Join(sep, parts[1..])
  }

  /** The position of the last occurrence of `c` in `s` (`str.rfind`). */
  function LastIndex(s: string, c: char): (r: int)
    ensures -1 <= r < |s|
    ensures r >= 0 ==> s[r] == c
    ensures forall j :: r < j < |s| ==> s[j] != c
  {
    if |s| == 0 then -1
    else if s[|s| - 1] == c then |s| - 1
    else LastIndex(s[..|s| - 1], c)
  }

  /** The position of the first occurrence of `c` in `s` (`str.find`). */
  function FirstIndex(s: string, c: char): (r: int)
    ensures -1 <= r < |s|
    ensures r >= 0 ==> s[r] == c
    ensures forall j :: 0 <= j < |s| && (r < 0 || j < r) ==> s[j] != c
  {
    if |s| == 0 then -1
    else if s[0] == c then 0
    else
      var k := FirstIndex(s[1..], c);
      if k < 0 then -1 else k + 1
  }

  /** `s.split(sep)` for a one-character separator. */
  function Split(s: string, sep: char): (r: seq<string>)
    ensures |r| > 0
    decreases |s|
  {
    var i := FirstIndex(s, sep);
    if i < 0 then [s] else [s[..i]] + Split(s[i + 1..], sep)
  }

  /** Splitting at the first separator peels off the text before it. */
  lemma SplitFirst(a: string, t: string, sep: char)
    requires sep !in a
    ensures Split(a + [sep] + t, sep) == [a] + Split(t, sep)
  {
    var s := a + [sep] + t;
    assert s[|a|] == sep;
    assert FirstIndex(s, sep) == |a|;
    assert s[..|a|] == a;
    assert s[|a| + 1..] == t;
  }

  /** Text without the separator does not split. */
  lemma SplitNone(a: string, sep: char)
    requires sep !in a
    ensures Split(a, sep) == [a]
  {
  }
}
