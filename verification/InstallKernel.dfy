/**
 The backup rotation of installkernel: before new files are installed, each old
 file b is moved to b~, an old b~ to b~~, and so on.  The script keeps its work on
 the stack of positional parameters.  All names are of regular files.
 */
module InstallKernel {

  type Files = map<string, string>

  /** `name` with `k` tildes. */
  function Tilde(name: string, k: nat): (r: string)
    ensures |r| == |name| + k && r[..|name|] == name
    decreases k
  {
    if k == 0 then name
    else
      var r := Tilde(name + "~", k - 1);
      assert r[..|name|] == r[..|name| + 1][..|name|];
      r
  }

  lemma {:induction false} TildeOfTilde(name: string, i: nat, j: nat)
    ensures Tilde(Tilde(name, i), j) == Tilde(name, i + j)
    decreases i
  {
    if i > 0 {
      TildeOfTilde(name + "~", i - 1, j);
    }
  }

  lemma {:induction false} TildeIs(name: string, k: nat)
    ensures Tilde(name, k) == name + seq(k, i => '~')
    decreases k
  {
    if k == 0 {
      assert name + seq(0, i => '~') == name;
    } else {
      TildeIs(name + "~", k - 1);
      assert name + "~" + seq(k - 1, i => '~') == name + seq(k, i => '~');
    }
  }

  /** Names at least as long as `n`: there are finitely many, so every chain of backups ends. */
  function Longer(fs: Files, n: nat): set<string> {
    set name | name in fs && n <= |name|
  }

  lemma ChainEnds(fs: Files, name: string)
    requires name in fs
    ensures |Longer(fs, |name| + 1)| < |Longer(fs, |name|)|
  {
    var a, b := Longer(fs, |name| + 1), Longer(fs, |name|);
    assert name in b && name !in a && a <= b;
    assert a <= b - {name};
    SubsetSize(a, b - {name});
  }

  lemma {:induction false} SubsetSize(a: set<string>, b: set<string>)
    requires a <= b
    ensures |a| <= |b|
  {
    if a != {} {
      var x :| x in a;
      SubsetSize(a - {x}, b - {x});
    }
  }

  /** How many of b, b~, b~~, ... exist without a gap. */
  function ChainLength(fs: Files, b: string): nat
    decreases |Longer(fs, |b|)|
  {
    if b !in fs then 0
    else
      ChainEnds(fs, b);
      1 + ChainLength(fs, b + "~")
  }

  /** The files after the chain of `b` has been moved up by one. */
  function Rotated(fs: Files, b: string): Files
    decreases |Longer(fs, |b|)|
  {
    if b !in fs then fs
    else
      ChainEnds(fs, b);
      Rotated(fs, b + "~")[b + "~" := fs[b]] - {b}
  }

  function RotateAll(fs: Files, names: seq<string>): Files
    decreases |names|
  {
    if names == [] then fs else RotateAll(Rotated(fs, names[0]), names[1..])
  }

  // ---------- what the rotation does to each name ----------

  /** What was the k-th backup of `b` is the next one in `g`. */
  ghost predicate MovedUp(fs: Files, g: Files, b: string, k: nat) {
    Tilde(b, k + 1) in g && Tilde(b, k) in fs && g[Tilde(b, k + 1)] == fs[Tilde(b, k)]
  }

  /** `g` is `fs` with the chain of `b` moved up by one, which frees `b`. */
  ghost predicate Shifted(fs: Files, g: Files, b: string) {
    b !in g && forall k: nat | k < ChainLength(fs, b) :: MovedUp(fs, g, b, k)
  }

  /** The chain moves up by one, `b` becomes free, and the name behind the chain was free. */
  lemma {:induction false} RotationShifts(fs: Files, b: string)
    ensures Shifted(fs, Rotated(fs, b), b) && Tilde(b, ChainLength(fs, b)) !in fs
    decreases |Longer(fs, |b|)|
  {
    if b in fs {
      ChainEnds(fs, b);
      RotationShifts(fs, b + "~");
      var g := Rotated(fs, b);
      forall k: nat | k < ChainLength(fs, b)
        ensures MovedUp(fs, g, b, k)
      {
        assert |Tilde(b, k + 1)| > |b|;
        if k == 0 {
          assert Tilde(b, 1) == b + "~" && Tilde(b, 0) == b;
        } else {
          assert MovedUp(fs, Rotated(fs, b + "~"), b + "~", k - 1);
          assert Tilde(b, k + 1) == Tilde(b + "~", k) && Tilde(b, k) == Tilde(b + "~", k - 1);
          assert |Tilde(b, k + 1)| > |b + "~"|;
        }
      }
    }
  }

  lemma {:induction false} RotationFrames(fs: Files, b: string, name: string)
    requires forall k: nat | k <= ChainLength(fs, b) :: name != Tilde(b, k)
    ensures name in Rotated(fs, b) <==> name in fs
    ensures name in fs ==> Rotated(fs, b)[name] == fs[name]
    decreases |Longer(fs, |b|)|
  {
    if b in fs {
      ChainEnds(fs, b);
      assert Tilde(b, 0) == b && Tilde(b, 1) == b + "~";
      forall k: nat | k <= ChainLength(fs, b + "~")
        ensures name != Tilde(b + "~", k)
      {
        assert Tilde(b + "~", k) == Tilde(b, k + 1);
      }
      RotationFrames(fs, b + "~", name);
    }
  }

  // ---------- independent chains ----------

  /** No backup of one name is a backup of the other. */
  ghost predicate Independent(a: string, b: string) {
    forall i: nat, j: nat :: Tilde(a, i) != Tilde(b, j)
  }

  lemma {:induction false} ChainLengthFrames(fs: Files, g: Files, b: string)
    requires forall k: nat :: (Tilde(b, k) in g <==> Tilde(b, k) in fs)
    ensures ChainLength(g, b) == ChainLength(fs, b)
    decreases |Longer(fs, |b|)|
  {
    assert Tilde(b, 0) == b;
    if b in fs {
      ChainEnds(fs, b);
      forall k: nat
        ensures Tilde(b + "~", k) in g <==> Tilde(b + "~", k) in fs
      {
        assert Tilde(b + "~", k) == Tilde(b, k + 1);
      }
      ChainLengthFrames(fs, g, b + "~");
    }
  }

  /** Rotating one chain leaves an independent one as it was. */
  lemma IndependentChain(fs: Files, a: string, b: string)
    requires Independent(a, b)
    ensures ChainLength(Rotated(fs, a), b) == ChainLength(fs, b)
    ensures forall k: nat :: Tilde(b, k) in Rotated(fs, a) <==> Tilde(b, k) in fs
    ensures forall k: nat | Tilde(b, k) in fs :: Rotated(fs, a)[Tilde(b, k)] == fs[Tilde(b, k)]
  {
    forall k: nat
      ensures Tilde(b, k) in Rotated(fs, a) <==> Tilde(b, k) in fs
      ensures Tilde(b, k) in fs ==> Rotated(fs, a)[Tilde(b, k)] == fs[Tilde(b, k)]
    {
      RotationFrames(fs, a, Tilde(b, k));
    }
    ChainLengthFrames(fs, Rotated(fs, a), b);
  }

  ghost predicate AllIndependent(bases: seq<string>) {
    forall i, j | 0 <= i < j < |bases| :: Independent(bases[i], bases[j]) && Independent(bases[j], bases[i])
  }

  lemma ShiftedElsewhere(fs: Files, g: Files, h: Files, b: string)
    requires ChainLength(g, b) == ChainLength(fs, b) && Shifted(g, h, b)
    requires forall k: nat :: Tilde(b, k) in g <==> Tilde(b, k) in fs
    requires forall k: nat | Tilde(b, k) in fs :: g[Tilde(b, k)] == fs[Tilde(b, k)]
    ensures Shifted(fs, h, b)
  {
    forall k: nat | k < ChainLength(fs, b)
      ensures MovedUp(fs, h, b, k)
    {
      assert MovedUp(g, h, b, k);
    }
  }

  lemma ShiftedThenFramed(fs: Files, g: Files, h: Files, b: string)
    requires Shifted(fs, g, b)
    requires forall k: nat :: Tilde(b, k) in h <==> Tilde(b, k) in g
    requires forall k: nat | Tilde(b, k) in g :: h[Tilde(b, k)] == g[Tilde(b, k)]
    ensures Shifted(fs, h, b)
  {
    assert Tilde(b, 0) == b;
    forall k: nat | k < ChainLength(fs, b)
      ensures MovedUp(fs, h, b, k)
    {
      assert MovedUp(fs, g, b, k);
    }
  }

  lemma {:induction false} RotateAllFrames(fs: Files, bases: seq<string>, b: string)
    requires forall a | a in bases :: Independent(a, b)
    ensures forall k: nat :: Tilde(b, k) in RotateAll(fs, bases) <==> Tilde(b, k) in fs
    ensures forall k: nat | Tilde(b, k) in fs :: RotateAll(fs, bases)[Tilde(b, k)] == fs[Tilde(b, k)]
    decreases |bases|
  {
    if bases != [] {
      IndependentChain(fs, bases[0], b);
      RotateAllFrames(Rotated(fs, bases[0]), bases[1..], b);
    }
  }

  /** Each of several independent chains is moved up by one, as if it were alone. */
  lemma {:induction false} AllChainsShift(fs: Files, bases: seq<string>)
    requires AllIndependent(bases)
    ensures forall b | b in bases :: Shifted(fs, RotateAll(fs, bases), b)
    decreases |bases|
  {
    if bases != [] {
      var first, rest := bases[0], bases[1..];
      var g, h := Rotated(fs, first), RotateAll(fs, bases);
      assert forall i | 0 <= i < |rest| :: rest[i] == bases[i + 1];
      RotationShifts(fs, first);
      RotateAllFrames(g, rest, first);
      ShiftedThenFramed(fs, g, h, first);
      AllChainsShift(g, rest);
      forall b | b in rest
        ensures Shifted(fs, h, b)
      {
        IndependentChain(fs, first, b);
        ShiftedElsewhere(fs, g, h, b);
      }
    }
  }

  /** A name outside all the chains is not touched. */
  lemma {:induction false} OthersUnchanged(fs: Files, bases: seq<string>, name: string)
    requires AllIndependent(bases)
    requires forall b, k: nat | b in bases && k <= ChainLength(fs, b) :: name != Tilde(b, k)
    ensures name in RotateAll(fs, bases) <==> name in fs
    ensures name in fs ==> RotateAll(fs, bases)[name] == fs[name]
    decreases |bases|
  {
    if bases != [] {
      var g := Rotated(fs, bases[0]);
      RotationFrames(fs, bases[0], name);
      forall i | 0 <= i < |bases[1..]|
        ensures ChainLength(g, bases[1..][i]) == ChainLength(fs, bases[1..][i])
      {
        IndependentChain(fs, bases[0], bases[i + 1]);
      }
      OthersUnchanged(g, bases[1..], name);
    }
  }

  /** The three names the script rotates. */
  function KernelFiles(path: string, version: string): seq<string> {
    [path + "/bzImage-" + version, path + "/System.map-" + version, path + "/config-" + version]
  }

  lemma DifferentLetter(a: string, b: string, at: nat)
    requires at < |a| && at < |b| && a[at] != b[at]
    ensures Independent(a, b) && Independent(b, a)
  {
    forall i: nat, j: nat
      ensures Tilde(a, i) != Tilde(b, j)
    {
      assert Tilde(a, i)[at] == Tilde(a, i)[..|a|][at] && Tilde(b, j)[at] == Tilde(b, j)[..|b|][at];
    }
  }

  lemma KernelFilesAreIndependent(path: string, version: string)
    ensures AllIndependent(KernelFiles(path, version))
    ensures forall i | 0 <= i < 3 :: KernelFiles(path, version)[i] != ""
  {
    var names := KernelFiles(path, version);
    var at := |path| + 1;
    assert names[0][at] == 'b' && names[1][at] == 'S' && names[2][at] == 'c';
    DifferentLetter(names[0], names[1], at);
    DifferentLetter(names[0], names[2], at);
    DifferentLetter(names[1], names[2], at);
  }

  // ---------- the program ----------

  class FileSystem {
    var files: Files
    ghost var overwritten: seq<string>

    constructor (files: Files)
      ensures this.files == files && overwritten == []
    {
      this.files, overwritten := files, [];
    }

    /** `mv -f -- from to`, with a record of the files it destroys. */
    method Move(from: string, to: string)
      requires from in files && from != to
      modifies this
      ensures files == old(files)[to := old(files)[from]] - {from}
      ensures overwritten == old(overwritten) + if to in old(files) then [to] else []
    {
      if to in files {
        overwritten := overwritten + [to];
      }
      files := files[to := files[from]] - {from};
    }
  }

  /** How many turns of the loop the chain of `b` takes. */
  function Turns(fs: Files, b: string): nat
    decreases |Longer(fs, |b|)|
  {
    if b in fs && b + "~" in fs then ChainEnds(fs, b); Turns(fs, b + "~") + 2 else 1
  }

  function TurnsAll(fs: Files, names: seq<string>): nat
    decreases |names|
  {
    if names == [] then 0 else Turns(fs, names[0]) + TurnsAll(Rotated(fs, names[0]), names[1..])
  }

  /** Pushing b~ before b changes neither the result nor, but for one turn, the work. */
  lemma PushBackup(fs: Files, b: string, rest: seq<string>)
    requires b in fs && b + "~" in fs
    ensures RotateAll(fs, [b + "~", b] + rest) == RotateAll(fs, [b] + rest)
    ensures TurnsAll(fs, [b + "~", b] + rest) + 1 == TurnsAll(fs, [b] + rest)
  {
    var up := Rotated(fs, b + "~");
    ChainEnds(fs, b);
    RotationShifts(fs, b + "~");
    forall k: nat | k <= ChainLength(fs, b + "~")
      ensures b != Tilde(b + "~", k)
    {
      assert |Tilde(b + "~", k)| > |b|;
    }
    RotationFrames(fs, b + "~", b);
    assert Rotated(up, b) == Rotated(fs, b) && Turns(up, b) == 1;
    assert ([b + "~", b] + rest)[1..] == [b] + rest && ([b] + rest)[1..] == rest;
  }

  /** The rotation loop: it ends, overwrites nothing, and rotates the chain of every base. */
  method Rotate(fs: FileSystem, bases: seq<string>)
    requires forall i | 0 <= i < |bases| :: bases[i] != ""
    modifies fs
    ensures fs.files == RotateAll(old(fs.files), bases)
    ensures fs.overwritten == old(fs.overwritten)
  {
    var args := bases;
    while args != [] && args[0] != ""
      invariant forall i | 0 <= i < |args| :: args[i] != ""
      invariant RotateAll(fs.files, args) == RotateAll(old(fs.files), bases)
      invariant fs.overwritten == old(fs.overwritten)
      decreases TurnsAll(fs.files, args)
    {
      var name, rest := args[0], args[1..];
      assert args == [name] + rest;
      if name in fs.files {
        if name + "~" in fs.files {
          PushBackup(fs.files, name, rest);
          args := [name + "~", name] + rest;
          continue;
        }
        assert Rotated(fs.files, name + "~") == fs.files;
        fs.Move(name, name + "~");
      }
      args := rest;
    }
  }

  /** What the script does to the three old kernel files before it installs new ones. */
  method RotateKernelFiles(fs: FileSystem, path: string, version: string)
    modifies fs
    ensures forall b | b in KernelFiles(path, version) :: Shifted(old(fs.files), fs.files, b)
    ensures forall name | !Involved(old(fs.files), KernelFiles(path, version), name) ::
              (name in fs.files <==> name in old(fs.files)) &&
              (name in fs.files ==> fs.files[name] == old(fs.files)[name])
    ensures forall b |
              b in [path + "/bzImage-" + version, path + "/System.map-" + version, path + "/config-" + version] ::
              b !in fs.files &&
              (b in old(fs.files) ==> b + "~" in fs.files && fs.files[b + "~"] == old(fs.files)[b])
    ensures fs.overwritten == old(fs.overwritten)
  {
    var names := KernelFiles(path, version);
    KernelFilesAreIndependent(path, version);
    AllChainsShift(fs.files, names);
    forall name | !Involved(fs.files, names, name)
      ensures name in RotateAll(fs.files, names) <==> name in fs.files
      ensures name in fs.files ==> RotateAll(fs.files, names)[name] == fs.files[name]
    {
      OthersUnchanged(fs.files, names, name);
    }
    forall b | b in names
      ensures var g := RotateAll(fs.files, names);
              b !in g && (b in fs.files ==> b + "~" in g && g[b + "~"] == fs.files[b])
    {
      FirstMoved(fs.files, RotateAll(fs.files, names), b);
    }
    Rotate(fs, names);
  }

  lemma FirstMoved(fs: Files, g: Files, b: string)
    requires Shifted(fs, g, b)
    ensures b !in g && (b in fs ==> b + "~" in g && g[b + "~"] == fs[b])
  {
    assert Tilde(b, 0) == b && Tilde(b, 1) == b + "~";
    if b in fs {
      ChainEnds(fs, b);
      assert ChainLength(fs, b) > 0 && MovedUp(fs, g, b, 0);
    }
  }

  /** `name` is in one of the chains, or right behind it. */
  ghost predicate Involved(fs: Files, bases: seq<string>, name: string) {
    exists b, k: nat | b in bases && k <= ChainLength(fs, b) :: name == Tilde(b, k)
  }
}
