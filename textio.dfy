/**
 * Reading a file in Python's text mode with the default `newline=None`:
 * every `\r\n` and every lone `\r` comes back as `\n`.
 */
module TextIO {

  /** The text `io.open(path, 'rt').read()` returns for the raw file contents `s`. */
  function TranslateNewlines(s: string): (r: string)
    ensures |r| <= |s|
    ensures forall k :: 0 <= k < |r| ==> r[k] != '\r'
  {
    if s == [] then []
    else if s[0] == '\r' && |s| > 1 && s[1] == '\n' then "\n" + TranslateNewlines(s[2..])
    else if s[0] == '\r' then "\n" + TranslateNewlines(s[1..])
    else [s[0]] + TranslateNewlines(s[1..])
  }

  /** Text without a carriage return reads back unchanged. */
  lemma {:induction false} TranslateFixesPlainText(s: string)
    requires forall k :: 0 <= k < |s| ==> s[k] != '\r'
    ensures TranslateNewlines(s) == s
  {
    if s != [] {
      TranslateFixesPlainText(s[1..]);
    }
  }

  /**
   * Translation works piece by piece, except across a `\r` at the end of `a`
   * followed by a `\n` at the start of `b`, which together make one newline.
   */
  lemma {:induction false} TranslateConcat(a: string, b: string)
    requires !(a != [] && a[|a| - 1] == '\r' && b != [] && b[0] == '\n')
    ensures TranslateNewlines(a + b) == TranslateNewlines(a) + TranslateNewlines(b)
  {
    var ab := a + b;
    if a == [] {
      assert ab == b;
    } else if a[0] == '\r' && |a| > 1 && a[1] == '\n' {
      assert ab[0] == '\r' && ab[1] == '\n' && ab[2..] == a[2..] + b;
      TranslateConcat(a[2..], b);
      assert TranslateNewlines(ab) == "\n" + TranslateNewlines(a[2..] + b);
      assert TranslateNewlines(a) == "\n" + TranslateNewlines(a[2..]);
    } else if a[0] == '\r' {
      assert ab[0] == '\r' && !(|ab| > 1 && ab[1] == '\n') && ab[1..] == a[1..] + b;
      TranslateConcat(a[1..], b);
      assert TranslateNewlines(ab) == "\n" + TranslateNewlines(a[1..] + b);
      assert TranslateNewlines(a) == "\n" + TranslateNewlines(a[1..]);
    } else {
      assert ab[0] == a[0] && ab[1..] == a[1..] + b;
      TranslateConcat(a[1..], b);
      assert TranslateNewlines(ab) == [a[0]] + TranslateNewlines(a[1..] + b);
      assert TranslateNewlines(a) == [a[0]] + TranslateNewlines(a[1..]);
    }
  }

  /** A Windows line ending reads back as one `\n`. */
  lemma CrLfIsOneNewline(a: string, b: string)
    ensures TranslateNewlines(a + "\r\n" + b) == TranslateNewlines(a) + "\n" + TranslateNewlines(b)
  {
    var t := "\r\n" + b;
    assert a + "\r\n" + b == a + t;
    TranslateConcat(a, t);
    assert t[0] == '\r' && t[1] == '\n' && t[2..] == b;
  }

  /** A carriage return not followed by a line feed reads back as one `\n`. */
  lemma LoneCrIsOneNewline(a: string, b: string)
    requires b == [] || b[0] != '\n'
    ensures TranslateNewlines(a + "\r" + b) == TranslateNewlines(a) + "\n" + TranslateNewlines(b)
  {
    var t := "\r" + b;
    assert a + "\r" + b == a + t;
    TranslateConcat(a, t);
    assert t[0] == '\r' && !(|t| > 1 && t[1] == '\n') && t[1..] == b;
  }
}
