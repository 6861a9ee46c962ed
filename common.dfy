/** Shared vocabulary of the batch converter: optional values, bytes and the
    snapshot of the file system that the converter consults with `os.path.exists`
    and `open`. */
module Common {

  datatype Option<T> = None | Some(value: T)

  newtype byte = x: int | 0 <= x < 256

  /** What a path names on disk: a regular file whose raw bytes can be read,
      or something that exists but cannot be opened for reading
      (a directory, a file without read permission). */
  datatype FileState = Regular(bytes: seq<byte>) | Unopenable

  /** A path exists exactly when it is a key of the map. */
  type FileSystem = map<string, FileState>

  /** `c` does not occur in `s`. */
  predicate NoChar(s: string, c: char) {
    forall j :: 0 <= j < |s| ==> s[j] != c
  }

  lemma {:induction false} NoCharAppend(a: string, b: string, c: char)
    ensures NoChar(a + b, c) <==> NoChar(a, c) && NoChar(b, c)
  {
    if NoChar(a, c) && NoChar(b, c) {
      forall j | 0 <= j < |a + b| ensures (a + b)[j] != c {
        if j >= |a| { assert (a + b)[j] == b[j - |a|]; }
      }
    }
    if NoChar(a + b, c) {
      forall j | 0 <= j < |b| ensures b[j] != c { assert (a + b)[|a| + j] == b[j]; }
      forall j | 0 <= j < |a| ensures a[j] != c { assert (a + b)[j] == a[j]; }
    }
  }

  /** Number of occurrences of `c` in `s`. */
  function CountChar(s: string, c: char): (n: nat)
    ensures n <= |s|
    ensures n == 0 <==> NoChar(s, c)
  {
    if s == [] then 0
    else (if s[0] == c then 1 else 0) + CountChar(s[1..], c)
  }

  /** A `c`-free string has `c`-free suffixes and prefixes. */
  lemma {:induction false} NoCharDrop(s: string, lo: nat, c: char)
    requires NoChar(s, c) && lo <= |s|
    ensures NoChar(s[lo..], c)
  {
    forall j | 0 <= j < |s| - lo
      ensures s[lo..][j] != c
    {
      assert s[lo..][j] == s[lo + j];
    }
  }

  lemma {:induction false} NoCharTake(s: string, hi: nat, c: char)
    requires NoChar(s, c) && hi <= |s|
    ensures NoChar(s[..hi], c)
  {
    forall j | 0 <= j < hi
      ensures s[..hi][j] != c
    {
      assert s[..hi][j] == s[j];
    }
  }

  /** `c in s` exactly when `c` occurs at least once. */
  lemma {:induction false} CountCharIn(s: string, c: char)
    ensures c in s <==> CountChar(s, c) > 0
  {
    if c in s {
      var j :| 0 <= j < |s| && s[j] == c;
      assert !NoChar(s, c);
    }
  }

  /** Concatenation of a sequence of strings, in order. */
  function Concat(parts: seq<string>): (r: string)
    ensures |parts| == 1 ==> r == parts[0]
  {
    if parts == [] then [] else parts[0] + Concat(parts[1..])
  }

  lemma {:induction false} ConcatAppend(a: seq<string>, b: seq<string>)
    ensures Concat(a + b) == Concat(a) + Concat(b)
  {
    if a == [] {
      assert a + b == b;
    } else {
      assert (a + b)[0] == a[0];
      ConcatAppend(a[1..], b);
      assert (a + b)[1..] == a[1..] + b;
    }
  }
}
