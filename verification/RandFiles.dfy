/**
 rand-files.pl: a random set of files whose total size stays within a limit.
 Sizes are counted in blocks of 4 KiB, ranks are exact reals, and each random
 number is a real in [0, 1) that the caller supplies.
 */
module RandFiles {
  import opened Common

  const BLOCK := 4096
  const BLOCKS_PER_MIB := 256

  /** What `stat` and the rules say about one input line; no rank means the rules gave none. */
  datatype Entry = Entry(name: string, size: nat, regular: bool, rank: Option<real>)

  datatype File = File(name: string, size: nat, blocks: nat, rank: real)

  function BlocksFor(size: nat): nat {
    (size + (BLOCK - 1)) / BLOCK
  }

  predicate IsEligible(e: Entry, left: nat) {
    0 < BlocksFor(e.size) <= left && e.regular && e.rank.Some? && e.rank.value > 0.0
  }

  function FileOf(e: Entry): File
    requires e.rank.Some?
  {
    File(e.name, e.size, BlocksFor(e.size), e.rank.value)
  }

  /** The files that may be chosen, in input order. */
  function Eligible(entries: seq<Entry>, left: nat): seq<File> {
    if entries == [] then []
    else
      var e := entries[|entries| - 1];
      Eligible(entries[..|entries| - 1], left) + if IsEligible(e, left) then [FileOf(e)] else []
  }

  function RankSum(files: seq<File>): real {
    if files == [] then 0.0 else RankSum(files[..|files| - 1]) + files[|files| - 1].rank
  }

  function BlockSum(files: seq<File>): nat {
    if files == [] then 0 else BlockSum(files[..|files| - 1]) + files[|files| - 1].blocks
  }

  function ByteSum(files: seq<File>): nat {
    if files == [] then 0 else ByteSum(files[..|files| - 1]) + files[|files| - 1].size
  }

  function Names(files: seq<File>): seq<string> {
    if files == [] then [] else Names(files[..|files| - 1]) + [files[|files| - 1].name]
  }

  lemma RankSumOfPrefix(files: seq<File>, n: nat)
    requires n < |files|
    ensures RankSum(files[..n + 1]) == RankSum(files[..n]) + files[n].rank
  {
    assert files[..n + 1][..n] == files[..n];
  }

  lemma {:induction false} RankSumAppends(a: seq<File>, b: seq<File>)
    ensures RankSum(a + b) == RankSum(a) + RankSum(b)
    decreases |b|
  {
    if b == [] {
      assert a + b == a;
    } else {
      assert (a + b)[..|a + b| - 1] == a + b[..|b| - 1];
      RankSumAppends(a, b[..|b| - 1]);
    }
  }

  predicate Positive(files: seq<File>) {
    forall f | f in files :: 0 < f.blocks && f.rank > 0.0
  }

  predicate Rounded(files: seq<File>) {
    forall f | f in files :: f.blocks == BlocksFor(f.size)
  }

  predicate Ascending(files: seq<File>) {
    forall i, j | 0 <= i < j < |files| :: files[i].blocks <= files[j].blocks
  }

  /** The numeric sort by size; like Perl's it keeps the order of equal elements. */
  function Insert(f: File, files: seq<File>): seq<File> {
    if files == [] || f.blocks <= files[0].blocks then [f] + files
    else [files[0]] + Insert(f, files[1..])
  }

  function Sort(files: seq<File>): seq<File> {
    if files == [] then [] else Insert(files[0], Sort(files[1..]))
  }

  lemma AscendingCons(f: File, files: seq<File>)
    requires Ascending(files) && (files != [] ==> f.blocks <= files[0].blocks)
    ensures Ascending([f] + files)
  {
  }

  lemma {:induction false} InsertAscends(f: File, files: seq<File>)
    requires Ascending(files)
    ensures Ascending(Insert(f, files))
    ensures Insert(f, files)[0] == f || (files != [] && Insert(f, files)[0] == files[0])
  {
    if files == [] || f.blocks <= files[0].blocks {
      AscendingCons(f, files);
    } else {
      InsertAscends(f, files[1..]);
      AscendingCons(files[0], Insert(f, files[1..]));
    }
  }

  lemma {:induction false} InsertAdds(f: File, files: seq<File>)
    ensures multiset(Insert(f, files)) == multiset{f} + multiset(files)
    ensures RankSum(Insert(f, files)) == f.rank + RankSum(files)
  {
    if files == [] || f.blocks <= files[0].blocks {
      RankSumCons(f, files);
    } else {
      InsertAdds(f, files[1..]);
      RankSumCons(files[0], Insert(f, files[1..]));
      RankSumCons(files[0], files[1..]);
      assert [files[0]] + files[1..] == files;
    }
  }

  /** The sort keeps the files and the sum of their ranks. */
  lemma {:induction false} SortKeeps(files: seq<File>)
    ensures Ascending(Sort(files)) && multiset(Sort(files)) == multiset(files)
    ensures RankSum(Sort(files)) == RankSum(files)
  {
    if files != [] {
      SortKeeps(files[1..]);
      InsertAscends(files[0], Sort(files[1..]));
      InsertAdds(files[0], Sort(files[1..]));
      RankSumCons(files[0], files[1..]);
      assert [files[0]] + files[1..] == files;
    }
  }

  lemma RankSumCons(f: File, files: seq<File>)
    ensures RankSum([f] + files) == f.rank + RankSum(files)
  {
    RankSumAppends([f], files);
    assert RankSum([f]) == f.rank;
  }

  // ---------- weighted choice ----------

  /** `r` falls into the share of file `i`: an interval as long as its rank. */
  predicate InShare(files: seq<File>, i: nat, r: real)
    requires i < |files|
  {
    RankSum(files[..i]) <= r < RankSum(files[..i]) + files[i].rank
  }

  lemma {:induction false} PrefixGrows(files: seq<File>, i: nat, j: nat)
    requires i <= j <= |files| && Positive(files)
    ensures RankSum(files[..i]) <= RankSum(files[..j])
    decreases j
  {
    if i < j {
      PrefixGrows(files, i, j - 1);
      RankSumOfPrefix(files, j - 1);
      assert files[j - 1] in files;
    }
  }

  /** The shares do not overlap, so the choice is exactly proportional to the ranks. */
  lemma SharesAreDisjoint(files: seq<File>, i: nat, j: nat, r: real)
    requires i < |files| && j < |files| && Positive(files)
    requires InShare(files, i, r) && InShare(files, j, r)
    ensures i == j
  {
    RankSumOfPrefix(files, i);
    RankSumOfPrefix(files, j);
    if i < j {
      PrefixGrows(files, i + 1, j);
    } else if j < i {
      PrefixGrows(files, j + 1, i);
    }
  }

  /** The k-th call of `rand` returns `rand(k, sum)`. */
  type Rand = (nat, real) -> real

  ghost predicate IsRand(rand: Rand) {
    forall k: nat, sum: real | 0.0 < sum :: 0.0 <= rand(k, sum) < sum
  }

  /** One round: what there was to choose from, the index chosen, and how many files still fit afterwards. */
  datatype Round = Round(files: seq<File>, left: int, idx: nat, fitting: nat)

  function Picked(r: Round): File
    requires r.idx < |r.files|
  {
    r.files[r.idx]
  }

  /** The draw selects the file, and exactly the first `fitting` files fit into what is left then. */
  ghost predicate IsRound(r: Round, draw: real) {
    && r.idx < |r.files| && InShare(r.files, r.idx, draw) && r.fitting <= |r.files|
    && forall i | 0 <= i < |r.files| :: r.files[i].blocks > r.left - Picked(r).blocks <==> r.fitting <= i
  }

  /** The second round starts where the first has ended. */
  predicate Follows(r: Round, files: seq<File>, left: int)
    requires r.idx < |r.files| && r.fitting <= |r.files|
  {
    files == Remaining(r.files, r.fitting, r.idx) && left == r.left - Picked(r).blocks
  }

  /** The rounds of a run, in which the k-th draw decides the k-th round. */
  ghost predicate IsRun(rounds: seq<Round>, rand: Rand) {
    && (forall k: nat | k < |rounds| :: IsRound(rounds[k], rand(k, RankSum(rounds[k].files))))
    && (forall k: nat | 0 < k < |rounds| :: Follows(rounds[k - 1], rounds[k].files, rounds[k].left))
  }

  /** The rounds so far have led from the start `(files0, left0)` to `(files, left)` and chosen `chosen`. */
  ghost predicate Leads(rounds: seq<Round>, rand: Rand, files0: seq<File>, left0: int,
                        files: seq<File>, left: int, chosen: seq<File>) {
    && IsRun(rounds, rand) && |rounds| == |chosen|
    && (forall k | 0 <= k < |chosen| :: chosen[k] == Picked(rounds[k]))
    && (if rounds == [] then files == files0 && left == left0
        else rounds[0].files == files0 && rounds[0].left == left0 && Follows(rounds[|rounds| - 1], files, left))
  }

  /** Adding a round that follows. */
  lemma RunGrows(rounds: seq<Round>, r: Round, rand: Rand)
    requires IsRun(rounds, rand) && IsRound(r, rand(|rounds|, RankSum(r.files)))
    requires rounds != [] ==> Follows(rounds[|rounds| - 1], r.files, r.left)
    ensures IsRun(rounds + [r], rand)
  {
    var all := rounds + [r];
    assert forall k: nat | k < |rounds| :: all[k] == rounds[k];
  }

  lemma LeadsOn(rounds: seq<Round>, r: Round, rand: Rand, files0: seq<File>, left0: int,
                chosen: seq<File>, files: seq<File>, left: int)
    requires Leads(rounds, rand, files0, left0, r.files, r.left, chosen)
    requires IsRound(r, rand(|rounds|, RankSum(r.files))) && Follows(r, files, left)
    ensures Leads(rounds + [r], rand, files0, left0, files, left, chosen + [Picked(r)])
  {
    RunGrows(rounds, r, rand);
    var all := rounds + [r];
    assert forall k: nat | k < |rounds| :: all[k] == rounds[k];
  }

  lemma {:induction false} RankSumIsPositive(files: seq<File>)
    requires Positive(files)
    ensures 0.0 <= RankSum(files) && (files != [] ==> 0.0 < RankSum(files))
    decreases |files|
  {
    if files != [] {
      assert files[|files| - 1] in files;
      RankSumIsPositive(files[..|files| - 1]);
    }
  }

  /** The index loop: a draw below the sum of the ranks always lands in some file's share. */
  method PickIndex(files: seq<File>, draw: real) returns (idx: nat)
    requires 0.0 <= draw < RankSum(files)
    ensures idx < |files| && InShare(files, idx, draw)
  {
    idx := 0;
    var r := draw;
    while idx < |files| && r >= files[idx].rank
      invariant idx <= |files| && 0.0 <= r == draw - RankSum(files[..idx])
    {
      RankSumOfPrefix(files, idx);
      r := r - files[idx].rank;
      idx := idx + 1;
    }
    assert files[..|files|] == files;
  }

  // ---------- the pool ----------

  /** The input loop. */
  method ReadEntries(entries: seq<Entry>, left: nat) returns (files: seq<File>, ranksSum: real)
    ensures files == Eligible(entries, left) && ranksSum == RankSum(files)
  {
    files, ranksSum := [], 0.0;
    for i := 0 to |entries|
      invariant files == Eligible(entries[..i], left) && ranksSum == RankSum(files)
    {
      var e := entries[i];
      assert entries[..i + 1][..i] == entries[..i];
      var blocks := BlocksFor(e.size);
      if blocks > 0 && blocks <= left && e.regular {
        if e.rank.Some? && e.rank.value > 0.0 {
          RankSumSnoc(files, FileOf(e));
          files := files + [FileOf(e)];
          ranksSum := ranksSum + e.rank.value;
        }
      }
    }
    assert entries[..|entries|] == entries;
  }

  lemma RankSumSnoc(files: seq<File>, f: File)
    ensures RankSum(files + [f]) == RankSum(files) + f.rank
  {
    assert (files + [f])[..|files|] == files;
  }

  lemma {:induction false} EligibleFits(entries: seq<Entry>, left: nat)
    ensures Positive(Eligible(entries, left)) && forall f | f in Eligible(entries, left) :: f.blocks <= left
    decreases |entries|
  {
    if entries != [] {
      EligibleFits(entries[..|entries| - 1], left);
    }
  }

  lemma Balanced(chosen: multiset<File>, files: multiset<File>, dropped: multiset<File>, all: multiset<File>,
                 f: File, remaining: multiset<File>, gone: multiset<File>)
    requires chosen + files + dropped == all && multiset{f} + remaining + gone == files
    ensures (chosen + multiset{f}) + remaining + (dropped + gone) == all
  {
  }

  class Packer {
    var files: seq<File>
    var ranksSum: real
    var left: int
    var pool: seq<string>
    ghost var chosen: seq<File>
    ghost var dropped: multiset<File>

    /** What holds whenever the main loop starts a round, for input files `all`. */
    ghost predicate Valid(all: seq<File>, budget: nat)
      reads this
    {
      && Positive(files) && Ascending(files) && ranksSum == RankSum(files)
      && (forall f | f in files :: f.blocks <= left)
      && Accounts(all, budget)
    }

    /** Every input file is in exactly one place, and the budget is accounted for. */
    ghost predicate Accounts(all: seq<File>, budget: nat)
      reads this
    {
      && multiset(chosen) + multiset(files) + dropped == multiset(all)
      && (forall f | f in dropped :: f.blocks > left)
      && 0 <= left && BlockSum(chosen) + left == budget
      && pool == Names(chosen)
    }

    /** The input and the sort. */
    constructor (entries: seq<Entry>, megabytes: nat)
      ensures Valid(Eligible(entries, megabytes * BLOCKS_PER_MIB), megabytes * BLOCKS_PER_MIB) && chosen == []
    {
      var budget := megabytes * BLOCKS_PER_MIB;
      var found, sum := ReadEntries(entries, budget);
      EligibleFits(entries, budget);
      SortKeeps(found);
      SameMembers(Sort(found), found);
      left := budget;
      pool, chosen, dropped := [], [], multiset{};
      files, ranksSum := Sort(found), sum;
    }

    /** Removes the files that no longer fit from the end of the sorted list. */
    method Trim() returns (n: nat)
      requires Ascending(files) && ranksSum == RankSum(files)
      modifies this`ranksSum
      ensures n <= |files| && ranksSum == RankSum(files[..n])
      ensures forall i | 0 <= i < |files| :: files[i].blocks > left <==> n <= i
    {
      n := |files|;
      assert files[..n] == files;
      while n > 0 && files[n - 1].blocks > left
        invariant n <= |files| && ranksSum == RankSum(files[..n])
        invariant forall i | n <= i < |files| :: files[i].blocks > left
      {
        RankSumOfPrefix(files, n - 1);
        n := n - 1;
        ranksSum := ranksSum - files[n].rank;
      }
    }

    /** One round of the main loop; true when nothing fits any more. */
    method PlayRound(draw: real, ghost all: seq<File>, ghost budget: nat) returns (done: bool, ghost r: Round)
      requires Valid(all, budget) && files != [] && 0.0 <= draw < ranksSum
      modifies this
      ensures Accounts(all, budget)
      ensures if done then files == [] else Valid(all, budget) && |files| < old(|files|)
      ensures r.files == old(files) && r.left == old(left) && IsRound(r, draw)
      ensures chosen == old(chosen) + [Picked(r)] && Follows(r, files, left)
    {
      var idx := PickIndex(files, draw);
      Take(files[idx], all, budget);
      ghost var was, passed := files, dropped;
      ghost var gone, n;
      done, gone, n := Clean(idx);
      r := Round(was, old(left), idx, n);
      Balanced(multiset(old(chosen)), multiset(was), passed, multiset(all), was[idx], multiset(files), gone);
    }

    /** The end of a round: without the chosen file and all that no longer fit. */
    method Clean(idx: nat) returns (done: bool, ghost gone: multiset<File>, ghost n: nat)
      requires Positive(files) && Ascending(files) && ranksSum == RankSum(files) && idx < |files|
      modifies this`files, this`ranksSum, this`dropped
      ensures Positive(files) && Ascending(files) && ranksSum == RankSum(files)
      ensures (forall f | f in files :: f.blocks <= left) && (forall f | f in gone :: f.blocks > left)
      ensures dropped == old(dropped) + gone
      ensures multiset{old(files)[idx]} + multiset(files) + gone == multiset(old(files))
      ensures |files| < old(|files|) && (done ==> files == [])
      ensures n <= |old(files)| && done == (n == 0) && files == Remaining(old(files), n, idx)
      ensures forall i | 0 <= i < |old(files)| :: old(files)[i].blocks > left <==> n <= i
    {
      var kept := Trim();
      n := kept;
      CleanedUp(files, n, idx, left);
      gone := Gone(files, n, idx);
      dropped := dropped + gone;
      done := kept == 0;
      Cut(kept, idx);
    }

    /** Shortens the list to `n` files and removes file `idx` if it is still there. */
    method Cut(n: nat, idx: nat)
      requires n <= |files| && idx < |files|
      modifies this`files, this`ranksSum
      ensures files == Remaining(old(files), n, idx)
      ensures ranksSum == old(ranksSum) - if idx < n then old(files)[idx].rank else 0.0
    {
      files := files[..n];
      if idx < n {
        ranksSum := ranksSum - files[idx].rank;
        files := files[..idx] + files[idx + 1..];
      }
    }

    /** Adds a file that fits to the pool. */
    method Take(f: File, ghost all: seq<File>, ghost budget: nat)
      requires Accounts(all, budget) && f.blocks <= left
      modifies this`pool, this`left, this`chosen
      ensures chosen == old(chosen) + [f] && pool == Names(chosen)
      ensures 0 <= left == old(left) - f.blocks && BlockSum(chosen) + left == budget
    {
      pool := pool + [f.name];
      left := left - f.blocks;
      chosen := chosen + [f];
      assert chosen[..|chosen| - 1] == old(chosen);
    }

    /**
     The main loop: the pool is within the limit, nothing eligible that was left out
     still fits, and each file was selected by its draw.
     */
    method ChoosePool(rand: Rand, ghost all: seq<File>, ghost budget: nat) returns (ghost rounds: seq<Round>)
      requires Valid(all, budget) && IsRand(rand) && chosen == []
      modifies this
      ensures pool == Names(chosen) && multiset(chosen) <= multiset(all)
      ensures BlockSum(chosen) <= budget
      ensures forall f | f in multiset(all) - multiset(chosen) :: BlockSum(chosen) + f.blocks > budget
      ensures Leads(rounds, rand, old(files), old(left), files, left, chosen)
    {
      var k := 0;
      rounds := [];
      while files != []
        invariant Accounts(all, budget) && (files != [] ==> Valid(all, budget))
        invariant k == |rounds| && Leads(rounds, rand, old(files), old(left), files, left, chosen)
        decreases |files|
      {
        RankSumIsPositive(files);
        ghost var before := chosen;
        var done;
        ghost var r;
        done, r := PlayRound(rand(k, ranksSum), all, budget);
        LeadsOn(rounds, r, rand, old(files), old(left), before, files, left);
        rounds := rounds + [r];
        k := k + 1;
        if done {
          break;
        }
      }
    }
  }

  lemma SameMembers(a: seq<File>, b: seq<File>)
    requires multiset(a) == multiset(b)
    ensures forall f :: f in a <==> f in b
  {
    forall f
      ensures f in a <==> f in b
    {
      assert f in multiset(a) <==> f in multiset(b);
    }
  }

  /** The list after a round: the first `n` files, without file `idx` if it is one of them. */
  function Remaining(files: seq<File>, n: nat, idx: nat): (r: seq<File>)
    requires n <= |files| && idx < |files|
    ensures |r| < |files|
  {
    if idx < n then files[..n][..idx] + files[..n][idx + 1..] else files[..n]
  }

  lemma WithoutOne(files: seq<File>, idx: nat)
    requires idx < |files|
    ensures multiset(files[..idx] + files[idx + 1..]) + multiset{files[idx]} == multiset(files)
  {
    assert files == files[..idx] + [files[idx]] + files[idx + 1..];
  }

  lemma RankWithoutOne(files: seq<File>, idx: nat)
    requires idx < |files|
    ensures RankSum(files[..idx] + files[idx + 1..]) + files[idx].rank == RankSum(files)
  {
    assert files[..idx] + files[idx..] == files;
    RankSumAppends(files[..idx], files[idx..]);
    assert [files[idx]] + files[idx + 1..] == files[idx..];
    RankSumCons(files[idx], files[idx + 1..]);
    RankSumAppends(files[..idx], files[idx + 1..]);
  }

  /** The big files a round leaves behind. */
  function Gone(files: seq<File>, n: nat, idx: nat): multiset<File>
    requires n <= |files| && idx < |files|
  {
    if idx < n then multiset(files[n..]) else multiset(files[n..]) - multiset{files[idx]}
  }

  /** A round takes out the chosen file and the big ones, and no other. */
  lemma Recount(files: seq<File>, n: nat, idx: nat)
    requires n <= |files| && idx < |files|
    ensures multiset{files[idx]} + multiset(Remaining(files, n, idx)) + Gone(files, n, idx) == multiset(files)
  {
    assert files == files[..n] + files[n..];
    if idx < n {
      WithoutOne(files[..n], idx);
    } else {
      assert files[idx] == files[n..][idx - n];
    }
  }

  lemma RemainingMembers(files: seq<File>, n: nat, idx: nat)
    requires n <= |files| && idx < |files|
    ensures forall f | f in Remaining(files, n, idx) :: f in files[..n]
  {
  }

  lemma RemainingAscends(files: seq<File>, n: nat, idx: nat)
    requires n <= |files| && idx < |files| && Ascending(files)
    ensures Ascending(Remaining(files, n, idx))
  {
  }

  lemma RemainingRanks(files: seq<File>, n: nat, idx: nat)
    requires n <= |files| && idx < |files|
    ensures RankSum(Remaining(files, n, idx)) == RankSum(files[..n]) - if idx < n then files[idx].rank else 0.0
  {
    if idx < n {
      RankWithoutOne(files[..n], idx);
    }
  }

  /** What is left fits, what is gone does not. */
  lemma RemainingFits(files: seq<File>, n: nat, idx: nat, left: int)
    requires n <= |files| && idx < |files| && Positive(files)
    requires forall i | 0 <= i < |files| :: files[i].blocks > left <==> n <= i
    ensures Positive(Remaining(files, n, idx)) && forall f | f in Remaining(files, n, idx) :: f.blocks <= left
    ensures forall f | f in Gone(files, n, idx) :: f.blocks > left
  {
    RemainingMembers(files, n, idx);
    assert forall f | f in files[..n] :: f in files && f.blocks <= left;
    assert forall f | f in Gone(files, n, idx) :: f in files[n..];
  }

  /** All that a round promises about the list it leaves. */
  lemma CleanedUp(files: seq<File>, n: nat, idx: nat, left: int)
    requires n <= |files| && idx < |files| && Positive(files) && Ascending(files)
    requires forall i | 0 <= i < |files| :: files[i].blocks > left <==> n <= i
    ensures var r := Remaining(files, n, idx);
            && Positive(r) && Ascending(r) && (forall f | f in r :: f.blocks <= left)
            && |r| < |files| && (n == 0 ==> r == [])
            && RankSum(r) == RankSum(files[..n]) - (if idx < n then files[idx].rank else 0.0)
            && multiset{files[idx]} + multiset(r) + Gone(files, n, idx) == multiset(files)
    ensures forall f | f in Gone(files, n, idx) :: f.blocks > left
  {
    RemainingAscends(files, n, idx);
    RemainingRanks(files, n, idx);
    RemainingFits(files, n, idx, left);
    Recount(files, n, idx);
  }

  /** Within the block limit, the bytes are within the limit in MiB. */
  lemma {:induction false} BlocksCoverBytes(files: seq<File>)
    requires Rounded(files)
    ensures ByteSum(files) <= BLOCK * BlockSum(files)
    decreases |files|
  {
    if files != [] {
      assert files[|files| - 1] in files;
      BlocksCoverBytes(files[..|files| - 1]);
    }
  }

  lemma {:induction false} EligibleIsRounded(entries: seq<Entry>, left: nat)
    ensures Rounded(Eligible(entries, left))
    decreases |entries|
  {
    if entries != [] {
      EligibleIsRounded(entries[..|entries| - 1], left);
    }
  }

  /** What a finished pool promises the user: at most `megabytes` MiB. */
  lemma PoolFitsInMegabytes(entries: seq<Entry>, megabytes: nat, chosen: seq<File>)
    requires var budget := megabytes * BLOCKS_PER_MIB;
             multiset(chosen) <= multiset(Eligible(entries, budget)) && BlockSum(chosen) <= budget
    ensures ByteSum(chosen) <= megabytes * 1024 * 1024
  {
    var all := Eligible(entries, megabytes * BLOCKS_PER_MIB);
    EligibleIsRounded(entries, megabytes * BLOCKS_PER_MIB);
    forall f | f in chosen
      ensures f.blocks == BlocksFor(f.size)
    {
      assert f in multiset(chosen) && f in multiset(all);
    }
    BlocksCoverBytes(chosen);
  }

  // ---------- which files may be chosen, in bytes ----------

  /** A block is 4 KiB, and the last one may be filled in part. */
  lemma BlocksRoundUp(size: nat)
    ensures 4096 * BlocksFor(size) - 4096 < size <= 4096 * BlocksFor(size)
  {
  }

  /** A regular file with a positive rank that is neither empty nor beyond the limit. */
  predicate Selectable(e: Entry, megabytes: nat) {
    e.regular && e.rank.Some? && e.rank.value > 0.0 && 0 < e.size <= megabytes * 1048576
  }

  /** Each line of the input is judged on its own. */
  lemma EligibleOne(e: Entry, megabytes: nat)
    ensures Eligible([e], megabytes * 256) ==
            if Selectable(e, megabytes) then [File(e.name, e.size, (e.size + 4095) / 4096, e.rank.value)] else []
  {
    BlocksRoundUp(e.size);
    assert [e][..0] == [];
  }

  lemma {:induction false} EligibleAppends(a: seq<Entry>, b: seq<Entry>, left: nat)
    ensures Eligible(a + b, left) == Eligible(a, left) + Eligible(b, left)
    decreases |b|
  {
    if b == [] {
      assert a + b == a;
    } else {
      assert (a + b)[..|a + b| - 1] == a + b[..|b| - 1];
      EligibleAppends(a, b[..|b| - 1], left);
    }
  }

  /** Every file that qualifies takes part. */
  lemma SelectableTakesPart(entries: seq<Entry>, megabytes: nat, e: Entry)
    requires e in entries && Selectable(e, megabytes)
    ensures FileOf(e) in Eligible(entries, megabytes * 256)
  {
    var i :| 0 <= i < |entries| && entries[i] == e;
    assert entries == entries[..i] + [e] + entries[i + 1..];
    EligibleAppends(entries[..i] + [e], entries[i + 1..], megabytes * 256);
    EligibleAppends(entries[..i], [e], megabytes * 256);
    EligibleOne(e, megabytes);
  }

  /** No other takes part. */
  lemma {:induction false} PartTakersQualify(entries: seq<Entry>, megabytes: nat, f: File)
    requires f in Eligible(entries, megabytes * 256)
    ensures exists e :: e in entries && Selectable(e, megabytes) && f == FileOf(e)
    decreases |entries|
  {
    var front, e := entries[..|entries| - 1], entries[|entries| - 1];
    if f in Eligible(front, megabytes * 256) {
      PartTakersQualify(front, megabytes, f);
    } else {
      assert entries == front + [e];
      EligibleAppends(front, [e], megabytes * 256);
      EligibleOne(e, megabytes);
    }
  }

  /**
   A finished pool holds nothing but files that qualify, and every one that it does
   not hold is too big for the blocks that are left.
   */
  lemma PoolIsMaximal(entries: seq<Entry>, megabytes: nat, chosen: seq<File>, e: Entry)
    requires multiset(chosen) <= multiset(Eligible(entries, megabytes * BLOCKS_PER_MIB))
    requires forall f | f in multiset(Eligible(entries, megabytes * BLOCKS_PER_MIB)) - multiset(chosen) ::
               BlockSum(chosen) + f.blocks > megabytes * BLOCKS_PER_MIB
    ensures forall f | f in chosen :: exists e :: e in entries && Selectable(e, megabytes) && f == FileOf(e)
    ensures e in entries && Selectable(e, megabytes) && FileOf(e) !in chosen ==>
              4096 * BlockSum(chosen) + e.size > megabytes * 1048576
  {
    var all := Eligible(entries, megabytes * BLOCKS_PER_MIB);
    forall f | f in chosen
      ensures exists e :: e in entries && Selectable(e, megabytes) && f == FileOf(e)
    {
      assert f in multiset(chosen) && f in multiset(all);
      PartTakersQualify(entries, megabytes, f);
    }
    if e in entries && Selectable(e, megabytes) && FileOf(e) !in chosen {
      SelectableTakesPart(entries, megabytes, e);
      assert FileOf(e) in multiset(all) - multiset(chosen);
      BlocksRoundUp(e.size);
    }
  }

  /** The names that are printed, in the order of the choice. */
  lemma {:induction false} NamesInOrder(files: seq<File>, k: nat)
    requires k < |files|
    ensures |Names(files)| == |files| && Names(files)[k] == files[k].name
    decreases |files|
  {
    if |files| > 1 {
      NamesInOrder(files[..|files| - 1], if k < |files| - 1 then k else 0);
    }
  }
}
