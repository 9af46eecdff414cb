/**
 * The pieces of Python's `str` type that the converter relies on:
 * `str.strip()` with no argument, the `in` substring test, `str.find`,
 * `sep.join(parts)` and `str.split(sep)` with an explicit separator.
 * Strings are sequences of code points.
 */
module PyStr {
  import opened Wrappers

  /** `c.isspace()`: the code points Python 3 treats as white space. */
  predicate IsSpace(c: char) {
    c == ' ' || '\t' <= c <= '\r' || '\U{1C}' <= c <= '\U{1F}' || c == '\U{85}' || c == '\U{A0}' ||
    c == '\U{1680}' || '\U{2000}' <= c <= '\U{200A}' || c == '\U{2028}' || c == '\U{2029}' ||
    c == '\U{202F}' || c == '\U{205F}' || c == '\U{3000}'
  }

  predicate AllSpace(s: string) {
    forall i :: 0 <= i < |s| ==> IsSpace(s[i])
  }

  /** Neither end of `s` is white space: `s` is a fixed point of `Strip`. */
  predicate IsStripped(s: string) {
    s == [] || (!IsSpace(s[0]) && !IsSpace(s[|s| - 1]))
  }

  /** `s.lstrip()`: the suffix left after dropping leading white space. */
  function StripLeft(s: string): (r: string)
    ensures |r| <= |s| && r == s[|s| - |r|..]
    ensures r == [] || !IsSpace(r[0])
  {
    if s != [] && IsSpace(s[0]) then StripLeft(s[1..]) else s
  }

  /** What `StripLeft` drops is white space. */
  lemma {:induction false} StripLeftDropsSpace(s: string)
    ensures AllSpace(s[..|s| - |StripLeft(s)|])
  {
    if s != [] && IsSpace(s[0]) {
      StripLeftDropsSpace(s[1..]);
      assert s[..|s| - |StripLeft(s)|] == [s[0]] + s[1..][..|s[1..]| - |StripLeft(s[1..])|];
    }
  }

  /** `s.rstrip()`: the prefix left after dropping trailing white space. */
  function StripRight(s: string): (r: string)
    ensures |r| <= |s| && r == s[..|r|]
    ensures r == [] || !IsSpace(r[|r| - 1])
  {
    if s != [] && IsSpace(s[|s| - 1]) then StripRight(s[..|s| - 1]) else s
  }

  /** What `StripRight` drops is white space. */
  lemma {:induction false} StripRightDropsSpace(s: string)
    ensures AllSpace(s[|StripRight(s)|..])
  {
    if s != [] && IsSpace(s[|s| - 1]) {
      var t := s[..|s| - 1];
      StripRightDropsSpace(t);
      assert s[|StripRight(s)|..] == t[|StripRight(t)|..] + [s[|s| - 1]];
    }
  }

  /**
   * `s.strip()`: a slice of `s` with no white space at either end, everything
   * cut off on either side being white space.
   */
  function Strip(s: string): (r: string)
    ensures IsStripped(r)
  {
    var l := StripLeft(s);
    var t := StripRight(l);
    assert t == [] || t[0] == l[0];
    t
  }

  /** `Strip` keeps a slice of `s` and cuts only white space off either side. */
  lemma StripIsSlice(s: string) returns (i: nat)
    ensures i + |Strip(s)| <= |s| && s[i..i + |Strip(s)|] == Strip(s)
    ensures AllSpace(s[..i]) && AllSpace(s[i + |Strip(s)|..])
  {
    var l := StripLeft(s);
    var t := StripRight(l);
    StripLeftDropsSpace(s);
    StripRightDropsSpace(l);
    i := |s| - |l|;
    assert s[i..i + |t|] == t;
    assert s[i + |t|..] == l[|t|..];
  }

  /** `rest` after white space loses exactly that white space to `StripLeft`. */
  lemma {:induction false} StripLeftSpaces(w: string, rest: string)
    requires AllSpace(w)
    requires rest == [] || !IsSpace(rest[0])
    ensures StripLeft(w + rest) == rest
  {
    if w != [] {
      assert (w + rest)[1..] == w[1..] + rest;
      StripLeftSpaces(w[1..], rest);
    }
  }

  /** `rest` before white space loses exactly that white space to `StripRight`. */
  lemma {:induction false} StripRightSpaces(rest: string, w: string)
    requires AllSpace(w)
    requires rest == [] || !IsSpace(rest[|rest| - 1])
    ensures StripRight(rest + w) == rest
  {
    if w != [] {
      assert (rest + w)[..|rest + w| - 1] == rest + w[..|w| - 1];
      StripRightSpaces(rest, w[..|w| - 1]);
    }
  }

  /** Stripping undoes any white-space padding of a stripped string. */
  lemma StripPadded(w1: string, t: string, w2: string)
    requires AllSpace(w1) && AllSpace(w2) && IsStripped(t)
    ensures Strip(w1 + t + w2) == t
  {
    if t == [] {
      assert w1 + t + w2 == (w1 + w2) + [];
      StripLeftSpaces(w1 + w2, []);
    } else {
      assert w1 + t + w2 == w1 + (t + w2);
      StripLeftSpaces(w1, t + w2);
      StripRightSpaces(t, w2);
    }
  }

  /** `s.strip().strip() == s.strip()`. */
  lemma StripIdempotent(s: string)
    ensures Strip(Strip(s)) == Strip(s)
  {
  }

  /** `sep` occurs in `s` starting at index `j`. */
  predicate OccursAt(s: string, sep: string, j: int) {
    0 <= j && j + |sep| <= |s| && s[j..j + |sep|] == sep
  }

  /** `s.find(sep)`: the lowest index where `sep` occurs, `None` for Python's -1. */
  function Find(s: string, sep: string): (r: Option<nat>)
    ensures r.Some? ==> OccursAt(s, sep, r.value)
    ensures forall j :: 0 <= j && (r.None? || j < r.value) ==> !OccursAt(s, sep, j)
  {
    if |s| < |sep| then None
    else if sep <= s then Some(0)
    else
      assert !OccursAt(s, sep, 0) by {
        assert s[0..|sep|] == s[..|sep|];
      }
      forall j | 1 <= j ensures OccursAt(s, sep, j) == OccursAt(s[1..], sep, j - 1) {
        if j + |sep| <= |s| {
          var a, b := s[j..j + |sep|], s[1..][j - 1..j - 1 + |sep|];
          assert |a| == |b|;
          forall m | 0 <= m < |sep| ensures a[m] == b[m] {
            assert a[m] == s[j + m];
            assert b[m] == s[1..][j - 1 + m];
          }
          assert a == b;
        }
      }
      match Find(s[1..], sep)
      case None => None
      case Some(k) =>
        assert s[k + 1..k + 1 + |sep|] == s[1..][k..k + |sep|];
        Some(k + 1)
  }

  /** The first occurrence is the only index with an occurrence and none before it. */
  lemma FindIsLeast(s: string, sep: string, i: nat)
    requires OccursAt(s, sep, i)
    requires forall j :: 0 <= j < i ==> !OccursAt(s, sep, j)
    ensures Find(s, sep) == Some(i)
  {
  }

  /** Python's `sep in s`: `sep` occurs somewhere in `s`. */
  predicate Contains(s: string, sep: string)
    ensures Contains(s, sep) <==> exists j :: OccursAt(s, sep, j)
  {
    Find(s, sep).Some?
  }

  /**
   * `sep.join(parts)`: no parts give the empty string; otherwise the result
   * is never shorter than the parts and separators it is made of (`JoinEnds`
   * places the first and last part, `SplitJoin` recovers all of them).
   */
  function Join(sep: string, parts: seq<string>): (r: string)
    ensures parts == [] ==> r == ""
    ensures forall k :: 0 <= k < |parts| ==> |r| >= |parts[k]|
  {
    if parts == [] then ""
    else if |parts| == 1 then parts[0]
    else parts[0] + sep + Join(sep, parts[1..])
  }

  /** A joined string starts with the first part and ends with the last. */
  lemma {:induction false} JoinEnds(sep: string, parts: seq<string>)
    requires parts != []
    ensures |Join(sep, parts)| >= |parts[0]| && |Join(sep, parts)| >= |parts[|parts| - 1]|
    ensures Join(sep, parts)[..|parts[0]|] == parts[0]
    ensures Join(sep, parts)[|Join(sep, parts)| - |parts[|parts| - 1]|..] == parts[|parts| - 1]
  {
    if |parts| > 1 {
      JoinEnds(sep, parts[1..]);
    }
  }

  /** Parts with no white space at the outer ends join into a stripped string. */
  lemma JoinStripped(sep: string, parts: seq<string>)
    requires parts != [] && parts[0] != [] && parts[|parts| - 1] != []
    requires IsStripped(parts[0]) && IsStripped(parts[|parts| - 1])
    ensures IsStripped(Join(sep, parts))
  {
    var j := Join(sep, parts);
    var first, last := parts[0], parts[|parts| - 1];
    JoinEnds(sep, parts);
    assert j[0] == j[..|first|][0] == first[0];
    assert j[|j| - 1] == j[|j| - |last|..][|last| - 1] == last[|last| - 1];
  }

  /** Appending one part to a non-empty list appends the separator and the part. */
  lemma {:induction false} JoinSnoc(sep: string, parts: seq<string>, p: string)
    requires parts != []
    ensures Join(sep, parts + [p]) == Join(sep, parts) + sep + p
  {
    if |parts| == 1 {
      assert parts + [p] == [parts[0], p];
    } else {
      assert (parts + [p])[1..] == parts[1..] + [p];
      JoinSnoc(sep, parts[1..], p);
    }
  }

  /**
   * `s.split(sep)` for a non-empty `sep`: cut at each occurrence, scanning
   * left to right without overlap. No piece contains `sep`; every piece but
   * the last is cut at the first occurrence of `sep` after it; joining the
   * pieces with `sep` gives `s` back. `SplitJoin` shows these facts leave
   * only one possible result.
   */
  function Split(s: string, sep: string): (r: seq<string>)
    requires |sep| > 0
    ensures |r| >= 1
    ensures forall k :: 0 <= k < |r| ==> !Contains(r[k], sep)
    ensures forall k :: 0 <= k < |r| - 1 ==> Delimits(sep, r[k])
    ensures Join(sep, r) == s
    decreases |s|
  {
    match Find(s, sep)
    case None => [s]
    case Some(i) =>
      var head := s[..i];
      var rest := Split(s[i + |sep|..], sep);
      assert forall j :: 0 <= j ==> OccursAt(head, sep, j) ==> OccursAt(s, sep, j) by {
        forall j | 0 <= j && OccursAt(head, sep, j) ensures OccursAt(s, sep, j) {
          assert s[j..j + |sep|] == head[j..j + |sep|];
        }
      }
      assert Delimits(sep, head) by {
        var t := head + sep;
        assert t == s[..i + |sep|];
        assert t[i..i + |sep|] == sep;
        forall j | 0 <= j < i ensures !OccursAt(t, sep, j) {
          assert !OccursAt(s, sep, j);
          if j + |sep| <= |t| {
            assert t[j..j + |sep|] == s[j..j + |sep|];
          }
        }
        FindIsLeast(t, sep, i);
      }
      assert s == head + sep + s[i + |sep|..];
      [head] + rest
  }

  /**
   * `p` followed by `sep` is cut exactly at the end of `p`: the first
   * occurrence of `sep` in `p + sep` is the appended one.
   */
  predicate Delimits(sep: string, p: string) {
    Find(p + sep, sep) == Some(|p|)
  }

  /** A first occurrence in `a` stays the first occurrence in `a + b`. */
  lemma FindExtend(a: string, b: string, sep: string, i: nat)
    requires Find(a, sep) == Some(i)
    ensures Find(a + b, sep) == Some(i)
  {
    assert (a + b)[i..i + |sep|] == a[i..i + |sep|];
    forall j | 0 <= j < i ensures !OccursAt(a + b, sep, j) {
      assert !OccursAt(a, sep, j);
      assert (a + b)[j..j + |sep|] == a[j..j + |sep|];
    }
    FindIsLeast(a + b, sep, i);
  }

  /** A part that `sep` delimits does not contain `sep`. */
  lemma DelimitsExcludesSep(sep: string, p: string)
    requires |sep| > 0 && Delimits(sep, p)
    ensures !Contains(p, sep)
  {
    if Contains(p, sep) {
      var j := Find(p, sep).value;
      assert OccursAt(p, sep, j);
      assert (p + sep)[j..j + |sep|] == p[j..j + |sep|];
      assert OccursAt(p + sep, sep, j) && j < |p|;
    }
  }

  /**
   * Splitting on `sep` recovers parts joined by `sep` when `sep` delimits
   * every part but the last and the last does not contain it. These are the
   * facts `Split` promises of its result, so its result is the only one
   * that has them.
   */
  lemma {:induction false} SplitJoin(sep: string, parts: seq<string>)
    requires |sep| > 0 && parts != []
    requires forall k :: 0 <= k < |parts| - 1 ==> Delimits(sep, parts[k])
    requires !Contains(parts[|parts| - 1], sep)
    ensures Split(Join(sep, parts), sep) == parts
  {
    var p := parts[0];
    if |parts| > 1 {
      var rest := Join(sep, parts[1..]);
      var s := p + sep + rest;
      FindExtend(p + sep, rest, sep, |p|);
      assert s[..|p|] == p;
      assert s[|p| + |sep|..] == rest;
      SplitJoin(sep, parts[1..]);
    }
  }

  /** A single-character separator delimits every part that does not contain it. */
  lemma DelimitsOneChar(sep: string, p: string)
    requires |sep| == 1 && !Contains(p, sep)
    ensures Delimits(sep, p)
  {
    forall j | 0 <= j < |p| ensures !OccursAt(p + sep, sep, j) {
      assert !OccursAt(p, sep, j);
      assert (p + sep)[j..j + 1] == p[j..j + 1];
    }
    assert (p + sep)[|p|..|p| + 1] == sep;
    FindIsLeast(p + sep, sep, |p|);
  }

  /**
   * A separator of white space delimits every non-empty stripped part that
   * does not contain it: such a part cannot end in the separator's first
   * character.
   */
  lemma DelimitsStripped(sep: string, p: string)
    requires |sep| > 0 && AllSpace(sep)
    requires p != [] && IsStripped(p) && !Contains(p, sep)
    ensures Delimits(sep, p)
  {
    var s := p + sep;
    forall j | 0 <= j < |p| ensures !OccursAt(s, sep, j) {
      if j + |sep| <= |p| {
        assert !OccursAt(p, sep, j);
        assert s[j..j + |sep|] == p[j..j + |sep|];
      } else {
        // the window starting at j would put a separator character at p's last index
        assert s[|p| - 1] == p[|p| - 1];
        if j + |sep| <= |s| {
          assert s[j..j + |sep|][|p| - 1 - j] == s[|p| - 1];
        }
      }
    }
    assert s[|p|..|p| + |sep|] == sep;
    FindIsLeast(s, sep, |p|);
  }
}
