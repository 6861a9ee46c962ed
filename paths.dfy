/** The string and POSIX path operations of Python that the converter's
    naming relies on: `str.rfind`, `str.split`, `str.join`, `str.endswith`,
    `os.path.basename` and `os.path.splitext`. */
module Paths {
  import opened Common

  /** Index of the last occurrence of `c` among the first n characters of
      `s`, or -1. */
  function RFindBelow(s: string, c: char, n: nat): (r: int)
    requires n <= |s|
    ensures -1 <= r < n
    ensures r >= 0 ==> s[r] == c
    ensures forall j :: r < j < n ==> s[j] != c
  {
    if n == 0 then -1
    else if s[n - 1] == c then n - 1
    else RFindBelow(s, c, n - 1)
  }

  /** Index of the last occurrence of `c` in `s`, or -1 (Python's `str.rfind`). */
  function RFind(s: string, c: char): (r: int)
    ensures -1 <= r < |s|
    ensures r >= 0 ==> s[r] == c
    ensures forall j :: r < j < |s| ==> s[j] != c
  {
    RFindBelow(s, c, |s|)
  }

  /** A suffix of `s` free of `c`, as a slice. */
  lemma {:induction false} NoCharSlice(s: string, lo: nat, c: char)
    requires lo <= |s|
    requires forall j :: lo <= j < |s| ==> s[j] != c
    ensures NoChar(s[lo..], c)
  {
    forall j | 0 <= j < |s| - lo
      ensures s[lo..][j] != c
    {
      assert s[lo..][j] == s[lo + j];
    }
  }

  /** Nothing after the last occurrence of `c` is a `c`. */
  lemma {:induction false} AfterLast(s: string, c: char)
    ensures NoChar(s[RFind(s, c) + 1..], c)
  {
    NoCharSlice(s, RFind(s, c) + 1, c);
  }

  /** Joins `parts` with `sep` between consecutive elements (Python's `sep.join`). */
  function Join(parts: seq<string>, sep: char): string
    requires |parts| >= 1
  {
    if |parts| == 1 then parts[0] else parts[0] + [sep] + Join(parts[1..], sep)
  }

  /** Python's `s.split(sep)` for a one-character separator: the maximal
      separator-free pieces, empty ones included. */
  function Split(s: string, sep: char): (parts: seq<string>)
    ensures |parts| == CountChar(s, sep) + 1
  {
    if s == [] then [[]]
    else
      var rest := Split(s[1..], sep);
      if s[0] == sep then [[]] + rest
      else [[s[0]] + rest[0]] + rest[1..]
  }

  /** Round trip: joining the pieces with the separator gives back `s`. */
  lemma {:induction false} SplitJoin(s: string, sep: char)
    ensures Join(Split(s, sep), sep) == s
  {
    if s != [] {
      var rest := Split(s[1..], sep);
      SplitJoin(s[1..], sep);
      if s[0] == sep {
        assert Split(s, sep)[1..] == rest;
      } else {
        var parts := Split(s, sep);
        if |rest| > 1 {
          assert parts[1..] == rest[1..];
          assert Join(rest, sep) == rest[0] + [sep] + Join(rest[1..], sep);
        }
      }
    }
  }

  /** A separator-free prefix followed by a separator is the first piece. */
  lemma {:induction false} SplitAfter(a: string, r: string, sep: char)
    requires NoChar(a, sep)
    ensures Split(a + [sep] + r, sep) == [a] + Split(r, sep)
  {
    if a != [] {
      var s := a + [sep] + r;
      assert s[1..] == a[1..] + [sep] + r;
      assert s[0] == a[0] != sep;
      var rest := Split(s[1..], sep);
      assert rest == [a[1..]] + Split(r, sep) by {
        SplitAfter(a[1..], r, sep);
      }
      assert [a[0]] + a[1..] == a;
      assert rest[1..] == Split(r, sep);
    } else {
      assert a + [sep] + r == [sep] + r;
      assert ([sep] + r)[1..] == r;
    }
  }
  /** A separator-free string is a single piece. */
  lemma {:induction false} SplitNone(a: string, sep: char)
    requires NoChar(a, sep)
    ensures Split(a, sep) == [a]
  {
    if a != [] {
      SplitNone(a[1..], sep);
      assert [a[0]] + a[1..] == a;
    }
  }
  /** `RFind` is determined by its contract. */
  lemma {:induction false} RFindUnique(s: string, c: char, r: int)
    requires -1 <= r < |s| && (r >= 0 ==> s[r] == c)
    requires forall j :: r < j < |s| ==> s[j] != c
    ensures RFind(s, c) == r
  {
  }

  /** Splitting at a separator splits the two sides apart: the pieces of
      `a + [sep] + b` are those of `a` followed by those of `b`. */
  lemma {:induction false} SplitConcat(a: string, b: string, sep: char)
    ensures Split(a + [sep] + b, sep) == Split(a, sep) + Split(b, sep)
  {
    if a == [] {
      assert (a + [sep] + b)[1..] == b;
    } else {
      SplitConcat(a[1..], b, sep);
      SplitConcatStep(a, b, sep);
    }
  }

  /** One character in front of `a` keeps the split of `a + [sep] + b` in step. */
  lemma {:induction false} SplitConcatStep(a: string, b: string, sep: char)
    requires a != []
    requires Split(a[1..] + [sep] + b, sep) == Split(a[1..], sep) + Split(b, sep)
    ensures Split(a + [sep] + b, sep) == Split(a, sep) + Split(b, sep)
  {
    var s := a + [sep] + b;
    assert s[0] == a[0] && s[1..] == a[1..] + [sep] + b;
    if a[0] == sep {
      StepSep(a, b, sep, s);
    } else {
      StepOther(a, b, sep, s);
    }
  }

  lemma StepSep(a: string, b: string, sep: char, s: string)
    requires a != [] && a[0] == sep && s != [] && s[0] == a[0]
    requires Split(s[1..], sep) == Split(a[1..], sep) + Split(b, sep)
    ensures Split(s, sep) == Split(a, sep) + Split(b, sep)
  {
    SplitConsSep(s, sep);
    SplitConsSep(a, sep);
    ConsAppend([], Split(a[1..], sep), Split(b, sep));
  }

  lemma StepOther(a: string, b: string, sep: char, s: string)
    requires a != [] && a[0] != sep && s != [] && s[0] == a[0]
    requires Split(s[1..], sep) == Split(a[1..], sep) + Split(b, sep)
    ensures Split(s, sep) == Split(a, sep) + Split(b, sep)
  {
    SplitConsOther(s, sep);
    SplitConsOther(a, sep);
    GlueFirst(a[0], Split(a[1..], sep), Split(b, sep));
  }

  /** A leading separator closes an empty first piece. */
  lemma SplitConsSep(s: string, sep: char)
    requires s != [] && s[0] == sep
    ensures Split(s, sep) == [[]] + Split(s[1..], sep)
  {
  }

  /** Any other leading character joins the first piece. */
  lemma SplitConsOther(s: string, sep: char)
    requires s != [] && s[0] != sep
    ensures var rest := Split(s[1..], sep); Split(s, sep) == [[s[0]] + rest[0]] + rest[1..]
  {
  }

  /** Putting a piece in front commutes with appending pieces. */
  lemma ConsAppend(p: string, ra: seq<string>, rb: seq<string>)
    ensures [p] + (ra + rb) == ([p] + ra) + rb
  {
  }

  /** Gluing a character onto the first piece commutes with appending pieces. */
  lemma GlueFirst(x: char, ra: seq<string>, rb: seq<string>)
    requires ra != []
    ensures [[x] + (ra + rb)[0]] + (ra + rb)[1..] == ([[x] + ra[0]] + ra[1..]) + rb
  {
    assert (ra + rb)[1..] == ra[1..] + rb;
  }

  /** What follows a separator decides the last piece. */
  lemma {:induction false} SplitLastAfter(s: string, k: nat, sep: char)
    requires k < |s| && s[k] == sep
    ensures var parts, tail := Split(s, sep), Split(s[k + 1..], sep);
      parts[|parts| - 1] == tail[|tail| - 1]
  {
    assert s == s[..k] + [sep] + s[k + 1..];
    SplitConcat(s[..k], s[k + 1..], sep);
  }

  /** A string holding the separator splits into at least two pieces. */
  lemma {:induction false} SplitHasTwo(t: string, sep: char)
    requires sep in t
    ensures |Split(t, sep)| >= 2
  {
    CountCharIn(t, sep);
  }

  /** With a separator at r and none after it, the last piece is what follows r. */
  lemma {:induction false} LastPieceAt(s: string, sep: char, r: nat)
    requires r < |s| && s[r] == sep && NoChar(s[r + 1..], sep)
    ensures var parts := Split(s, sep); parts[|parts| - 1] == s[r + 1..]
  {
    SplitNone(s[r + 1..], sep);
    SplitLastAfter(s, r, sep);
  }

  /** The last piece of a split is what follows a final separator that is
      not followed by another. */
  lemma {:induction false} LastPieceAfterSep(a: string, b: string, sep: char)
    requires NoChar(b, sep)
    ensures var parts := Split(a + [sep] + b, sep);
      parts[|parts| - 1] == b
  {
    var s := a + [sep] + b;
    assert s[|a|] == sep && s[|a| + 1..] == b;
    SplitNone(b, sep);
    SplitLastAfter(s, |a|, sep);
  }

  /** The last piece of `Split(s, sep)` is the text after the last separator. */
  lemma {:induction false} LastPiece(s: string, sep: char)
    ensures var parts := Split(s, sep);
      parts[|parts| - 1] == s[RFind(s, sep) + 1..]
  {
    var r := RFind(s, sep);
    var parts := Split(s, sep);
    if r >= 0 {
      assert parts[|parts| - 1] == s[r + 1..] by {
        AfterLast(s, sep);
        LastPieceAt(s, sep, r);
      }
    } else {
      assert parts == [s] by {
        SplitNone(s, sep);
      }
      assert s[r + 1..] == s;
    }
  }

  /** `s` ends with `suffix` (Python's `str.endswith`). */
  predicate EndsWith(s: string, suffix: string) {
    |suffix| <= |s| && s[|s| - |suffix|..] == suffix
  }

  /** Every character of `s` is a dot. */
  predicate AllDots(s: string) {
    s == [] || (s[0] == '.' && AllDots(s[1..]))
  }

  /** `os.path.basename` on a POSIX path: everything after the last '/'. */
  function Basename(p: string): (r: string)
    ensures NoChar(r, '/')
    ensures EndsWith(p, r)
    ensures |r| < |p| ==> p[|p| - |r| - 1] == '/'
  {
    AfterLast(p, '/');
    p[RFind(p, '/') + 1..]
  }

  /** In `p`, whose last '/' is at `sep` and last '.' at `dot`, the dot starts an
      extension: it lies in the last component and a non-dot precedes it there. */
  predicate DotStartsExtension(p: string, sep: int, dot: int)
    requires -1 <= sep < |p| && -1 <= dot < |p|
  {
    dot > sep && !AllDots(p[sep + 1..dot])
  }

  /** A string with a non-dot somewhere is not all dots. */
  lemma {:induction false} NotAllDots(s: string, k: nat)
    requires k < |s| && s[k] != '.'
    ensures !AllDots(s)
  {
    if k > 0 {
      NotAllDots(s[1..], k - 1);
    }
  }

  /** `os.path.splitext` on a POSIX path: the extension starts at the last dot of
      the last path component, provided a non-dot character precedes that dot
      in the component (so ".bashrc" has no extension); otherwise it is empty. */
  function SplitExt(p: string): (r: (string, string))
    ensures r.0 + r.1 == p
    ensures r.1 == [] || (r.1[0] == '.' && NoChar(r.1[1..], '.') && NoChar(r.1, '/'))
  {
    var sep := RFind(p, '/');
    var dot := RFind(p, '.');
    if DotStartsExtension(p, sep, dot) then
      ExtensionAfterLastDot(p, sep, dot);
      (p[..dot], p[dot..])
    else (p, [])
  }

  /** The text from the last '.' on, when that dot follows the last '/', is an
      extension: a dot, then neither '.' nor '/'. */
  lemma {:induction false} ExtensionAfterLastDot(p: string, sep: int, dot: int)
    requires sep == RFind(p, '/') && dot == RFind(p, '.') && sep < dot
    ensures p[..dot] + p[dot..] == p
    ensures p[dot..][0] == '.' && NoChar(p[dot..][1..], '.') && NoChar(p[dot..], '/')
  {
    var ext := p[dot..];
    assert ext[1..] == p[dot + 1..];
    NoCharSlice(p, dot + 1, '.');
    NoCharSlice(p, dot, '/');
  }

  /** `os.path.splitext(os.path.basename(path))[0]`: the file name without its
      last extension. */
  function Stem(path: string): (r: string)
    ensures NoChar(r, '/')
    ensures |r| <= |Basename(path)| && Basename(path)[..|r|] == r
    ensures var ext := Basename(path)[|r|..];
      ext == [] || (ext[0] == '.' && NoChar(ext[1..], '.'))
  {
    var b := Basename(path);
    var stem := SplitExt(b).0;
    NoCharTake(b, |stem|, '/');
    assert b[..|stem|] == stem && b[|stem|..] == SplitExt(b).1;
    stem
  }

  /** For a name without '/', `os.path.splitext` cuts at the last dot as soon as
      some non-dot precedes it. */
  lemma {:induction false} SplitExtAtLastDot(p: string, dot: nat, k: nat)
    requires NoChar(p, '/')
    requires k < dot < |p| && p[dot] == '.' && p[k] != '.'
    requires NoChar(p[dot + 1..], '.')
    ensures SplitExt(p) == (p[..dot], p[dot..])
  {
    forall j | dot < j < |p|
      ensures p[j] != '.'
    {
      assert p[dot + 1..][j - dot - 1] == p[j];
    }
    RFindUnique(p, '.', dot);
    RFindUnique(p, '/', -1);
    NotAllDots(p[0..dot], k);
  }

  /** In a '/'-free name, the dot at `d` is the one `os.path.splitext` cuts
      at: it is the last dot, and some non-dot precedes it. */
  predicate ExtensionDot(name: string, d: int) {
    && 0 <= d < |name| && name[d] == '.'
    && (forall j :: d < j < |name| ==> name[j] != '.')
    && (exists k :: 0 <= k < d && name[k] != '.')
  }

  /** A string that is not all dots has a non-dot. */
  lemma {:induction false} NonDotWitness(s: string)
    requires !AllDots(s)
    ensures exists k :: 0 <= k < |s| && s[k] != '.'
  {
    if s[0] == '.' {
      NonDotWitness(s[1..]);
      var k :| 0 <= k < |s[1..]| && s[1..][k] != '.';
      assert s[k + 1] != '.';
    }
  }

  /** For a '/'-free name with an extension dot, `os.path.splitext` cuts
      there. */
  lemma {:induction false} SplitExtCuts(p: string, d: int)
    requires NoChar(p, '/') && ExtensionDot(p, d)
    ensures SplitExt(p) == (p[..d], p[d..])
  {
    var k :| 0 <= k < d && p[k] != '.';
    NoCharSlice(p, d + 1, '.');
    SplitExtAtLastDot(p, d, k);
  }

  /** For a '/'-free name without an extension dot (no dot, or only dots
      before the last one, as in ".bashrc" or "..x"), `os.path.splitext`
      leaves the name whole and the extension empty. */
  lemma {:induction false} SplitExtWhole(p: string)
    requires NoChar(p, '/') && forall d :: !ExtensionDot(p, d)
    ensures SplitExt(p) == (p, [])
  {
    var sep := RFind(p, '/');
    var dot := RFind(p, '.');
    assert sep == -1;
    if DotStartsExtension(p, sep, dot) {
      NonDotWitness(p[sep + 1..dot]);
      var k :| 0 <= k < |p[sep + 1..dot]| && p[sep + 1..dot][k] != '.';
      assert p[k] != '.';
      assert ExtensionDot(p, dot);
      assert false;
    }
  }

  /** `Stem` removes the last extension: it cuts the base name at its
      extension dot. */
  lemma {:induction false} StemCutsExtension(path: string, d: int)
    requires ExtensionDot(Basename(path), d)
    ensures Stem(path) == Basename(path)[..d]
  {
    SplitExtCuts(Basename(path), d);
  }

  /** Without an extension dot the stem is the whole base name. */
  lemma {:induction false} StemWholeName(path: string)
    requires forall d :: !ExtensionDot(Basename(path), d)
    ensures Stem(path) == Basename(path)
  {
    SplitExtWhole(Basename(path));
  }

  /** `os.path.join(dir, name)` on POSIX: an absolute name replaces the
      directory; otherwise a '/' is inserted unless the directory is empty or
      already ends with one. */
  function JoinPath(dir: string, name: string): (r: string)
    ensures EndsWith(r, name)
    ensures name != [] && name[0] == '/' ==> r == name
    ensures (name == [] || name[0] != '/') ==> |dir| <= |r| && r[..|dir|] == dir
    ensures (name == [] || name[0] != '/') && (dir == [] || dir[|dir| - 1] == '/') ==> |r| == |dir| + |name|
    ensures (name == [] || name[0] != '/') && dir != [] && dir[|dir| - 1] != '/' ==>
      |r| == |dir| + 1 + |name| && r[|dir|] == '/'
  {
    if name != [] && name[0] == '/' then name
    else if dir == [] || dir[|dir| - 1] == '/' then dir + name
    else dir + "/" + name
  }

  /** Round trip with `os.path.basename`: a name without '/' joined to any
      directory is the base name of the result. */
  lemma {:induction false} JoinPathBasename(dir: string, name: string)
    requires NoChar(name, '/')
    ensures Basename(JoinPath(dir, name)) == name
  {
    var r := JoinPath(dir, name);
    var p := |r| - |name|;
    assert r[p..] == name;
    forall j | p <= j < |r|
      ensures r[j] != '/'
    {
      assert r[j] == name[j - p];
    }
    if dir == [] {
      RFindUnique(r, '/', -1);
    } else {
      assert r[p - 1] == '/';
      RFindUnique(r, '/', p - 1);
    }
  }

  /** Joining the same directory to two relative names gives two different
      paths when the names differ. */
  lemma {:induction false} JoinPathInjective(dir: string, a: string, b: string)
    requires a == [] || a[0] != '/'
    requires b == [] || b[0] != '/'
    requires a != b
    ensures JoinPath(dir, a) != JoinPath(dir, b)
  {
    var pre := if dir == [] || dir[|dir| - 1] == '/' then dir else dir + "/";
    assert JoinPath(dir, a) == pre + a;
    assert JoinPath(dir, b) == pre + b;
    assert a == (pre + a)[|pre|..];
    assert b == (pre + b)[|pre|..];
  }
}
