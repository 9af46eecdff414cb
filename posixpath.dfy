/** Python's `os.path.join` on POSIX, for the two-argument case (a longer join folds it from the left). */
module PosixPath {

  const Sep: char := '/'

  predicate IsAbsolute(p: string) {
    |p| > 0 && p[0] == Sep
  }

  /**
   * `os.path.join(a, b)`: an absolute `b` replaces `a`; otherwise `b` is
   * appended to `a`, with a `/` in between unless `a` is empty or already
   * ends in one.
   */
  function Join(a: string, b: string): (r: string)
    ensures |r| >= |b| && r[|r| - |b|..] == b
    ensures IsAbsolute(b) ==> r == b
    ensures !IsAbsolute(b) ==> |a| <= |r| && r[..|a|] == a
    ensures !IsAbsolute(b) && (a == [] || a[|a| - 1] == Sep) ==> r == a + b
    ensures !IsAbsolute(b) && a != [] && a[|a| - 1] != Sep ==> r == a + [Sep] + b
  {
    if IsAbsolute(b) then b
    else if a == [] || a[|a| - 1] == Sep then a + b
    else a + [Sep] + b
  }
}
