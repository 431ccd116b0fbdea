/** Strings as the hand-written scanners see them: splitting at a separator, trimming
    spaces, and the part of a buffer before its terminating NUL. */
module Text {
  datatype Option<+T> = None | Some(value: T)

  /** The first position of `x` in `s`, or the length of `s`. */
  function Find<T(==)>(s: seq<T>, x: T): (k: nat)
    ensures k <= |s| && x !in s[..k] && (k < |s| ==> s[k] == x)
  {
    if s == [] || s[0] == x then 0
    else
      var k := Find(s[1..], x);
      assert s[..k + 1] == [s[0]] + s[1..][..k];
      k + 1
  }

  /** The pieces of `s` between separators; there is always at least one. */
  function Split<T(==)>(s: seq<T>, sep: T): (r: seq<seq<T>>)
    ensures |r| >= 1
    decreases |s|
  {
    var k := Find(s, sep);
    if k == |s| then [s] else [s[..k]] + Split(s[k + 1..], sep)
  }

  lemma {:induction false} FindIs<T>(s: seq<T>, x: T, k: nat)
    requires k <= |s| && x !in s[..k] && (k < |s| ==> s[k] == x)
    ensures Find(s, x) == k
  {
    if k > 0 {
      assert s[0] in s[..k];
      assert s[1..][..k - 1] == s[1..k];
      FindIs(s[1..], x, k - 1);
    }
  }

  lemma SplitWhole<T>(s: seq<T>, sep: T)
    requires sep !in s
    ensures Split(s, sep) == [s]
  {
    FindIs(s, sep, |s|);
  }

  lemma SplitCons<T>(a: seq<T>, b: seq<T>, sep: T)
    requires sep !in a
    ensures Split(a + [sep] + b, sep) == [a] + Split(b, sep)
  {
    var s := a + [sep] + b;
    assert s[..|a|] == a && s[|a| + 1..] == b;
    FindIs(s, sep, |a|);
  }

  /** No separator is left inside a piece. */
  lemma {:induction false} PiecesAreClean<T>(s: seq<T>, sep: T, p: seq<T>)
    requires p in Split(s, sep)
    ensures sep !in p
    decreases |s|
  {
    hide Find;
    var k := Find(s, sep);
    if k == |s| {
      assert s[..k] == s;
    } else if p != s[..k] {
      PiecesAreClean(s[k + 1..], sep, p);
    }
  }

  function TrimStart(s: string): (r: string) {
    if s != [] && s[0] == ' ' then TrimStart(s[1..]) else s
  }

  function TrimEnd(s: string): (r: string) {
    if s != [] && s[|s| - 1] == ' ' then TrimEnd(s[..|s| - 1]) else s
  }

  function Trim(s: string): (r: string) {
    TrimEnd(TrimStart(s))
  }

  /** What a C string function sees of a character array. */
  function CString(s: string): (r: string) {
    s[..Find(s, '\0')]
  }

  lemma CStringIs(s: string, k: nat)
    requires k < |s| && '\0' !in s[..k] && s[k] == '\0'
    ensures CString(s) == s[..k]
  {
    FindIs(s, '\0', k);
  }

  function Min(a: nat, b: nat): (r: nat) {
    if a <= b then a else b
  }
}
