/** The duplicate-name loop of `convert_single_file`: when the output path is
    taken, numbered names "<stem>_001.mp3" … "<stem>_100.mp3" are probed in
    order against a snapshot of the files on disk. */
module Collision {
  import opened Common
  import opened Paths

  /** Number of numbered names the loop may produce. */
  const MaxProbe: nat := 100

  /** The decimal digit character for 0 <= d < 10. */
  function Digit(d: nat): (c: char)
    requires d < 10
    ensures '0' <= c <= '9'
  {
    ('0' as int + d) as char
  }

  /** `f"{k:03d}"` for 0 <= k < 1000: three decimal digits, zero-padded on the
      left, that read back as k. */
  function Pad3(k: nat): (s: string)
    requires k < 1000
    ensures |s| == 3 && forall i :: 0 <= i < 3 ==> '0' <= s[i] <= '9'
    ensures DigitsValue(s) == k
  {
    var s := [Digit(k / 100), Digit(k / 10 % 10), Digit(k % 10)];
    assert s[0] as int - '0' as int == k / 100;
    assert s[1] as int - '0' as int == k / 10 % 10;
    assert s[2] as int - '0' as int == k % 10;
    assert k == 100 * (k / 100) + 10 * (k / 10 % 10) + k % 10;
    s
  }

  /** The value three decimal digit characters denote. */
  function DigitsValue(s: string): int
    requires |s| == 3
  {
    100 * (s[0] as int - '0' as int) + 10 * (s[1] as int - '0' as int) + (s[2] as int - '0' as int)
  }

  /** Different numbers give different padded strings. */
  lemma {:induction false} Pad3Injective(a: nat, b: nat)
    requires a < 1000 && b < 1000 && a != b
    ensures Pad3(a) != Pad3(b)
  {
  }

  /** The k-th path the loop may settle on: k = 0 is the original
      `os.path.join(output_dir, filename)`; k in 1..100 is
      `os.path.join(output_dir, f"{base}_{k:03d}.mp3")` with `base` the
      filename without its extension. */
  function Candidate(dir: string, filename: string, k: nat): (path: string)
    requires k <= MaxProbe
    ensures k == 0 ==> EndsWith(path, filename)
    ensures k > 0 ==>
      && |path| >= 8 && path[|path| - 8] == '_' && path[|path| - 4..] == ".mp3"
      && DigitsValue(path[|path| - 7..|path| - 4]) == k
  {
    if k == 0 then JoinPath(dir, filename)
    else
      var path := JoinPath(dir, SplitExt(filename).0 + "_" + Pad3(k) + ".mp3");
      NumberedTail(SplitExt(filename).0, k, path);
      path
  }

  /** A path ending with a numbered name ends with "_", the three digits and
      ".mp3". */
  lemma {:induction false} NumberedTail(base: string, k: nat, path: string)
    requires 1 <= k <= MaxProbe
    requires EndsWith(path, base + "_" + Pad3(k) + ".mp3")
    ensures |path| >= 8 && path[|path| - 8] == '_' && path[|path| - 4..] == ".mp3"
    ensures path[|path| - 7..|path| - 4] == Pad3(k)
  {
    var name := base + "_" + Pad3(k) + ".mp3";
    var d := |path| - |name|;
    assert path[d..] == name;
    assert path[|path| - 8] == name[|name| - 8] == '_';
    assert path[|path| - 7..|path| - 4] == name[|name| - 7..|name| - 4] == Pad3(k);
    assert path[|path| - 4..] == name[|name| - 4..] == ".mp3";
  }

  /** The paths the loop may settle on, in probing order. */
  function Candidates(dir: string, filename: string): (c: seq<string>)
    ensures |c| == MaxProbe + 1
    ensures forall k :: 0 <= k <= MaxProbe ==> c[k] == Candidate(dir, filename, k)
  {
    seq(MaxProbe + 1, k requires 0 <= k <= MaxProbe => Candidate(dir, filename, k))
  }

  /** The index of the path the loop settles on when it is at candidate k:
      the first candidate from k on that is not on disk, or 100 once the loop
      has produced its last numbered name (which it never probes). */
  function FirstFree(disk: set<string>, cands: seq<string>, k: nat): (r: nat)
    requires |cands| == MaxProbe + 1 && k <= MaxProbe
    ensures k <= r <= MaxProbe
    ensures forall j :: k <= j < r ==> cands[j] in disk
    ensures r < MaxProbe ==> cands[r] !in disk
    decreases MaxProbe - k
  {
    if k == MaxProbe || cands[k] !in disk then k
    else FirstFree(disk, cands, k + 1)
  }

  /** The path the loop leaves in `output_file`: one of the candidates, and
      a path already on disk only when all 101 candidates are. */
  function Resolved(disk: set<string>, dir: string, filename: string): (path: string)
    ensures path in Candidates(dir, filename)
    ensures path in disk ==> forall j :: 0 <= j <= MaxProbe ==> Candidates(dir, filename)[j] in disk
  {
    var cands := Candidates(dir, filename);
    var k := FirstFree(disk, cands, 0);
    FirstFreeTaken(disk, cands);
    cands[k]
  }

  /** The loop of `convert_single_file` as written: probe, replace by the next
      numbered name, count, and stop after the hundredth name. */
  method ResolveCollision(disk: set<string>, dir: string, filename: string) returns (path: string)
    ensures path == Resolved(disk, dir, filename)
  {
    ghost var cands := Candidates(dir, filename);
    var counter := 1;
    path := JoinPath(dir, filename);
    var base := SplitExt(filename).0;
    while path in disk
      invariant 1 <= counter <= MaxProbe
      invariant path == cands[counter - 1]
      invariant FirstFree(disk, cands, 0) == FirstFree(disk, cands, counter - 1)
      decreases MaxProbe - counter
    {
      assert FirstFree(disk, cands, counter - 1) == FirstFree(disk, cands, counter);
      var newFilename := base + "_" + Pad3(counter) + ".mp3";
      path := JoinPath(dir, newFilename);
      assert path == Candidate(dir, filename, counter);
      counter := counter + 1;
      if counter > MaxProbe {
        break;
      }
    }
  }

  // ---------------------------------------------------------------------------
  // Properties
  // ---------------------------------------------------------------------------

  /** The probe stops at k exactly when the candidates before k are taken
      and k is free or the last one. */
  lemma {:induction false} FirstFreeAt(disk: set<string>, cands: seq<string>, k: nat)
    requires |cands| == MaxProbe + 1 && k <= MaxProbe
    requires forall j :: 0 <= j < k ==> cands[j] in disk
    requires k < MaxProbe ==> cands[k] !in disk
    ensures FirstFree(disk, cands, 0) == k
  {
  }

  /** A free output path is kept as it is. */
  lemma {:induction false} FreeNameKept(disk: set<string>, dir: string, filename: string)
    requires JoinPath(dir, filename) !in disk
    ensures Resolved(disk, dir, filename) == JoinPath(dir, filename)
  {
  }

  /** A taken output path is replaced by the first numbered candidate not on
      disk, every earlier candidate being on disk. */
  lemma {:induction false} FirstFreeNumberedName(disk: set<string>, dir: string, filename: string, k: nat)
    requires 1 <= k < MaxProbe
    requires forall j :: 0 <= j < k ==> Candidates(dir, filename)[j] in disk
    requires Candidates(dir, filename)[k] !in disk
    ensures Resolved(disk, dir, filename) == Candidates(dir, filename)[k]
  {
    FirstFreeAt(disk, Candidates(dir, filename), k);
  }

  /** When the original name and the first 99 numbered names are all taken,
      the loop gives up with the hundredth numbered name, whether or not it
      exists. */
  lemma {:induction false} ExhaustedGivesLast(disk: set<string>, dir: string, filename: string)
    requires forall j :: 0 <= j < MaxProbe ==> Candidates(dir, filename)[j] in disk
    ensures Resolved(disk, dir, filename) == Candidates(dir, filename)[MaxProbe]
  {
    FirstFreeAt(disk, Candidates(dir, filename), MaxProbe);
  }

  /** The resolved path is the original name or one of its numbered names. */
  lemma {:induction false} ResolvedShape(disk: set<string>, dir: string, filename: string)
    ensures var r := Resolved(disk, dir, filename);
      || r == JoinPath(dir, filename)
      || exists k :: 1 <= k <= MaxProbe && r == JoinPath(dir, SplitExt(filename).0 + "_" + Pad3(k) + ".mp3")
  {
    var cands := Candidates(dir, filename);
    var k := FirstFree(disk, cands, 0);
    assert cands[k] == Candidate(dir, filename, k);
  }

  /** The probe stops on a taken candidate only when all candidates are taken. */
  lemma {:induction false} FirstFreeTaken(disk: set<string>, cands: seq<string>)
    requires |cands| == MaxProbe + 1
    ensures cands[FirstFree(disk, cands, 0)] in disk ==>
      forall j :: 0 <= j <= MaxProbe ==> cands[j] in disk
  {
  }

  /** Adding the candidate the probe stopped on to the disk moves the next
      probe past it, unless the probe had already reached the last candidate. */
  lemma {:induction false} FirstFreeAfterWrite(disk: set<string>, cands: seq<string>)
    requires |cands| == MaxProbe + 1
    ensures var r := FirstFree(disk, cands, 0);
      var r' := FirstFree(disk + {cands[r]}, cands, 0);
      (r < MaxProbe ==> r < r') && (r == MaxProbe ==> r' == MaxProbe)
  {
    var r := FirstFree(disk, cands, 0);
    var disk' := disk + {cands[r]};
    var r' := FirstFree(disk', cands, 0);
    if r == MaxProbe {
      FirstFreeAt(disk', cands, MaxProbe);
    }
  }

  /** The numbered names of two different numbers differ. */
  lemma {:induction false} NumberedDistinct(base: string, i: nat, j: nat)
    requires 1 <= i <= MaxProbe && 1 <= j <= MaxProbe && i != j
    ensures base + "_" + Pad3(i) + ".mp3" != base + "_" + Pad3(j) + ".mp3"
  {
    var a := base + "_" + Pad3(i) + ".mp3";
    var b := base + "_" + Pad3(j) + ".mp3";
    Pad3Injective(i, j);
    assert a[|base| + 1..|base| + 4] == Pad3(i);
    assert b[|base| + 1..|base| + 4] == Pad3(j);
  }

  /** A numbered name built from a '/'-free base is relative. */
  lemma {:induction false} NumberedRelative(base: string, k: nat)
    requires NoChar(base, '/') && 1 <= k <= MaxProbe
    ensures (base + "_" + Pad3(k) + ".mp3")[0] != '/'
  {
    var n := base + "_" + Pad3(k) + ".mp3";
    if base == [] {
      assert n[0] == '_';
    } else {
      assert n[0] == base[0];
    }
  }

  /** A file name is never one of its own numbered names: the numbered name's
      extension would start with '_' rather than '.'. */
  lemma {:induction false} NumberedIsNotOriginal(filename: string, k: nat)
    requires 1 <= k <= MaxProbe
    ensures filename != SplitExt(filename).0 + "_" + Pad3(k) + ".mp3"
  {
    var base := SplitExt(filename).0;
    var ext := SplitExt(filename).1;
    var n := base + "_" + Pad3(k) + ".mp3";
    assert n[|base|] == '_';
  }

  /** For a '/'-free name, the candidates are pairwise different paths. */
  lemma {:induction false} CandidatesDistinct(dir: string, filename: string, i: nat, j: nat)
    requires NoChar(filename, '/')
    requires i <= MaxProbe && j <= MaxProbe && i != j
    ensures Candidates(dir, filename)[i] != Candidates(dir, filename)[j]
  {
    var base := SplitExt(filename).0;
    NoCharAppend(base, SplitExt(filename).1, '/');
    if i != 0 && j != 0 {
      NumberedDistinct(base, i, j);
      NumberedRelative(base, i);
      NumberedRelative(base, j);
      JoinPathInjective(dir, base + "_" + Pad3(i) + ".mp3", base + "_" + Pad3(j) + ".mp3");
    } else {
      var k := if i == 0 then j else i;
      NumberedRelative(base, k);
      NumberedIsNotOriginal(filename, k);
      assert filename == [] || filename[0] != '/';
      JoinPathInjective(dir, filename, base + "_" + Pad3(k) + ".mp3");
    }
  }

  /** Over any list of pairwise different candidates: once the chosen
      candidate is on disk, the next probe settles on a different path,
      unless the first 100 candidates were all taken. */
  lemma {:induction false} NextFreeDiffers(disk: set<string>, cands: seq<string>)
    requires |cands| == MaxProbe + 1
    requires forall i, j :: 0 <= i < j <= MaxProbe ==> cands[i] != cands[j]
    ensures var r := FirstFree(disk, cands, 0);
      var r' := FirstFree(disk + {cands[r]}, cands, 0);
      (cands[r'] == cands[r] <==> forall j :: 0 <= j < MaxProbe ==> cands[j] in disk)
  {
    FirstFreeAfterWrite(disk, cands);
  }

  /** Once a file has been written at the resolved path, resolving the same
      name again gives a different path, unless the original name and the
      first 99 numbered names were all taken: then the hundredth numbered name
      comes back and the file there is overwritten. */
  lemma {:induction false} NextResolutionDiffers(disk: set<string>, dir: string, filename: string)
    requires NoChar(filename, '/')
    ensures var first := Resolved(disk, dir, filename);
      var second := Resolved(disk + {first}, dir, filename);
      (second == first <==> forall j :: 0 <= j < MaxProbe ==> Candidates(dir, filename)[j] in disk)
  {
    var cands := Candidates(dir, filename);
    forall i, j | 0 <= i < j <= MaxProbe
      ensures cands[i] != cands[j]
    {
      CandidatesDistinct(dir, filename, i, j);
    }
    NextFreeDiffers(disk, cands);
  }
}
