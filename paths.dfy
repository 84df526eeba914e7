/**
  The pieces of Python's POSIX path handling and string formatting that the
  notes app relies on: `str.endswith`, `os.path.isabs`, `os.path.join`,
  `os.path.basename`, `os.path.dirname`, `os.path.splitext` and `str(int)`,
  over strings as sequences of characters.
*/
module Paths {

  /** `s.endswith(suffix)`: case-sensitive. */
  predicate EndsWith(s: string, suffix: string) {
    |suffix| <= |s| && s[|s| - |suffix|..] == suffix
  }

  /** The note filter used throughout the app: `path.endswith(".txt")`. */
  predicate HasTxtSuffix(p: string) {
    EndsWith(p, ".txt")
  }

  /** `os.path.isabs` on POSIX: the path starts with a slash. */
  predicate IsAbs(p: string) {
    |p| > 0 && p[0] == '/'
  }

  lemma EndsWithTrans(s: string, t: string, u: string)
    requires EndsWith(s, t) && EndsWith(t, u)
    ensures EndsWith(s, u)
  {
    assert s[|s| - |u|..] == s[|s| - |t|..][|t| - |u|..];
  }

  /** Below a common ending, `s` and `t` end alike. */
  lemma EndsWithTail(s: string, t: string, u: string)
    requires EndsWith(s, t) && |u| <= |t|
    ensures EndsWith(s, u) <==> EndsWith(t, u)
  {
    assert s[|s| - |u|..] == s[|s| - |t|..][|t| - |u|..];
  }

  /** `os.path.join(a, b)`: an absolute `b` replaces `a`; otherwise `b` is put under `a`. */
  function Join(a: string, b: string): (r: string)
    ensures IsAbs(b) ==> r == b
    ensures !IsAbs(b) ==> |a| <= |r| && r[..|a|] == a && EndsWith(r, b)
  {
    if IsAbs(b) then b
    else if a == [] || a[|a| - 1] == '/' then a + b
    else a + "/" + b
  }

  /** Joining keeps the `.txt` suffix of the last component. */
  lemma JoinKeepsTxt(a: string, b: string)
    ensures HasTxtSuffix(b) ==> HasTxtSuffix(Join(a, b))
  {
    if HasTxtSuffix(b) && !IsAbs(b) {
      EndsWithTrans(Join(a, b), b, ".txt");
    }
  }

  /** `s.rfind(c)`: the last index holding `c`, or -1. */
  function RFind(s: string, c: char): (r: int)
    ensures -1 <= r < |s|
    ensures 0 <= r ==> s[r] == c
    ensures forall k :: r < k < |s| ==> s[k] != c
  {
    if s == [] then -1
    else if s[|s| - 1] == c then |s| - 1
    else RFind(s[..|s| - 1], c)
  }

  /** The three properties of RFind pin it down. */
  lemma RFindUnique(s: string, c: char, r: int)
    requires -1 <= r < |s|
    requires 0 <= r ==> s[r] == c
    requires forall k :: r < k < |s| ==> s[k] != c
    ensures RFind(s, c) == r
  {
  }

  /** Appending characters other than `c` does not move the last `c`. */
  lemma RFindAppend(s: string, t: string, c: char)
    requires c !in t
    ensures RFind(s + t, c) == RFind(s, c)
  {
    var r := RFind(s, c);
    var st := s + t;
    forall k | r < k < |st|
      ensures st[k] != c
    {
      if k >= |s| {
        assert st[k] == t[k - |s|];
      }
    }
    RFindUnique(st, c, r);
  }

  /** `os.path.basename`: everything after the last slash. */
  function Basename(p: string): string {
    p[RFind(p, '/') + 1..]
  }

  /** A basename is the slash-free ending of its path that starts the path or follows a slash. */
  lemma BasenameIsLastComponent(p: string)
    ensures EndsWith(p, Basename(p)) && '/' !in Basename(p)
    ensures |Basename(p)| == |p| || p[|p| - |Basename(p)| - 1] == '/'
  {
    var i := RFind(p, '/') + 1;
    forall k | 0 <= k < |p[i..]|
      ensures p[i..][k] != '/'
    {
      assert p[i..][k] == p[i + k];
    }
  }

  /** `head.rstrip('/')`. */
  function TrimTrailingSlashes(s: string): (r: string)
    ensures |r| <= |s| && r == s[..|r|]
    ensures r == [] || r[|r| - 1] != '/'
  {
    if s != [] && s[|s| - 1] == '/' then TrimTrailingSlashes(s[..|s| - 1]) else s
  }

  /**
    `os.path.dirname`: everything up to the last slash, with trailing slashes
    removed unless the head consists of slashes only.
  */
  function Dirname(p: string): string {
    var head := p[..RFind(p, '/') + 1];
    if exists k :: 0 <= k < |head| && head[k] != '/' then TrimTrailingSlashes(head) else head
  }

  /** A file name produced by a directory walk is its own basename once joined. */
  lemma {:induction false} BasenameOfJoin(d: string, f: string)
    requires '/' !in f
    ensures Basename(Join(d, f)) == f
  {
    assert !IsAbs(f) by {
      if |f| > 0 { assert f[0] in f; }
    }
    var j := Join(d, f);
    var r := |j| - |f| - 1;
    if d == [] {
      assert j == f;
    } else if d[|d| - 1] == '/' {
      assert j == d + f;
    } else {
      assert j == d + "/" + f;
    }
    assert j[r + 1..] == f;
    forall k | r < k < |j|
      ensures j[k] != '/'
    {
      assert j[k] == f[k - r - 1];
    }
    RFindUnique(j, '/', r);
  }

  /** ... and the directory it was joined to is its dirname. */
  lemma {:induction false} DirnameOfJoin(d: string, f: string)
    requires '/' !in f
    requires d != [] && d[|d| - 1] != '/'
    ensures Dirname(Join(d, f)) == d
  {
    assert !IsAbs(f) by {
      if |f| > 0 { assert f[0] in f; }
    }
    var j := Join(d, f);
    assert j == d + "/" + f;
    forall k | |d| < k < |j|
      ensures j[k] != '/'
    {
      assert j[k] == f[k - |d| - 1];
    }
    RFindUnique(j, '/', |d|);
    var head := j[..|d| + 1];
    assert head == d + "/";
    assert head[|d| - 1] != '/';
    assert head[..|head| - 1] == d;
    assert TrimTrailingSlashes(d) == d;
    assert TrimTrailingSlashes(head) == d;
  }

  /**
    `os.path.splitext`: the extension starts at the last dot of the last
    path component, unless that component has only dots before it.
  */
  function SplitExt(p: string): (r: (string, string))
    ensures r.0 + r.1 == p
    ensures r.1 == [] || (r.1[0] == '.' && '/' !in r.1 && '.' !in r.1[1..])
  {
    var sep := RFind(p, '/');
    var dot := RFind(p, '.');
    if sep < dot && exists k :: sep < k < dot && p[k] != '.' then
      var ext := p[dot..];
      assert forall k :: 0 <= k < |ext| ==> ext[k] == p[dot + k];
      (p[..dot], ext)
    else
      (p, [])
  }

  /**
    `os.path.splitext` finds an extension exactly when the last path
    component has a dot after some character that is not a dot.
  */
  lemma SplitExtHasExtension(p: string)
    ensures SplitExt(p).1 != [] <==> exists j, k :: RFind(p, '/') < j < k < |p| && p[j] != '.' && p[k] == '.'
  {
  }

  /** One decimal digit. */
  function Digit(d: nat): (c: char)
    requires d < 10
    ensures '0' <= c <= '9'
  {
    (48 + d) as char
  }

  predicate IsDecimal(s: string) {
    forall k :: 0 <= k < |s| ==> '0' <= s[k] <= '9'
  }

  /** `str(n)` for a non-negative integer. */
  function NatToDecimal(n: nat): (r: string)
    ensures r != [] && IsDecimal(r)
  {
    if n < 10 then [Digit(n)] else NatToDecimal(n / 10) + [Digit(n % 10)]
  }

  /** `int(s)` for a string of decimal digits. */
  function DecimalValue(s: string): nat
    requires IsDecimal(s)
  {
    if s == [] then 0 else DecimalValue(s[..|s| - 1]) * 10 + (s[|s| - 1] as int - 48)
  }

  /** Formatting a number and reading it back gives the number. */
  lemma {:induction false} DecimalRoundTrip(n: nat)
    ensures DecimalValue(NatToDecimal(n)) == n
  {
    if n >= 10 {
      DecimalRoundTrip(n / 10);
      var s := NatToDecimal(n);
      assert s[..|s| - 1] == NatToDecimal(n / 10);
    }
  }

  /** Hence `str` is injective on non-negative integers. */
  lemma DecimalInjective(m: nat, n: nat)
    requires NatToDecimal(m) == NatToDecimal(n)
    ensures m == n
  {
    DecimalRoundTrip(m);
    DecimalRoundTrip(n);
  }
}
