/** `remove_excess_files`: the retention policy of the recording archive. The directory
    listing is a sequence of distinct names; each round keeps the `.wav` names, sorts them,
    and while more than 168 remain removes the first in sorted order and starts over.
    The function returns the listing left behind. */
module Archive {

  import opened NameOrder

  /** One week of hourly recordings. */
  const MaxArchived: nat := 168

  predicate EndsWith(s: string, suffix: string)
  {
    |suffix| <= |s| && s[|s| - |suffix|..] == suffix
  }

  predicate IsWav(name: string)
  {
    EndsWith(name, ".wav")
  }

  /** Names in a directory listing occur once. */
  predicate Distinct(dir: seq<string>)
  {
    forall x :: x in dir ==> multiset(dir)[x] <= 1
  }

  /** The names of the listing that end in `.wav`, in listing order. */
  function WavFiles(dir: seq<string>): seq<string>
  {
    if |dir| == 0 then []
    else (if IsWav(dir[0]) then [dir[0]] else []) + WavFiles(dir[1..])
  }

  /** The `.wav` filter keeps exactly the `.wav` names, each as often as in the listing. */
  lemma {:induction false} WavFilesCount(dir: seq<string>)
    ensures forall x :: multiset(WavFiles(dir))[x] == if IsWav(x) then multiset(dir)[x] else 0
  {
    if |dir| > 0 {
      WavFilesCount(dir[1..]);
      assert dir == [dir[0]] + dir[1..];
    }
  }

  /** The listing once `name` is deleted. */
  function Without(dir: seq<string>, name: string): seq<string>
  {
    if |dir| == 0 then []
    else (if dir[0] == name then [] else [dir[0]]) + Without(dir[1..], name)
  }

  /** Deleting `name` takes away all its copies and leaves every other name as it was. */
  lemma {:induction false} WithoutCount(dir: seq<string>, name: string)
    ensures multiset(Without(dir, name)) == multiset(dir)[name := 0]
  {
    if |dir| > 0 {
      var rest := Without(dir[1..], name);
      WithoutCount(dir[1..], name);
      assert dir == [dir[0]] + dir[1..];
      assert multiset(dir) == multiset{dir[0]} + multiset(dir[1..]);
      if dir[0] == name {
        assert Without(dir, name) == rest;
      } else {
        assert Without(dir, name) == [dir[0]] + rest;
        assert multiset(Without(dir, name)) == multiset{dir[0]} + multiset(rest);
      }
    }
  }

  /** Dropping the single copy of `name` from a multiset removes one element. */
  lemma DropSingle(a: multiset<string>, name: string)
    requires a[name] == 1
    ensures a[name := 0] == a - multiset{name}
    ensures |a[name := 0]| == |a| - 1
  {
  }

  /** Filtering `.wav` names commutes with deleting a name. */
  lemma {:induction false} WavFilesWithout(dir: seq<string>, name: string)
    ensures WavFiles(Without(dir, name)) == Without(WavFiles(dir), name)
  {
    if |dir| > 0 {
      var head := dir[0];
      var tail := dir[1..];
      WavFilesWithout(tail, name);
      if head == name {
        assert Without(dir, name) == Without(tail, name);
        if IsWav(head) {
          assert WavFiles(dir) == [head] + WavFiles(tail);
          assert Without(WavFiles(dir), name) == Without(WavFiles(tail), name);
        } else {
          assert WavFiles(dir) == WavFiles(tail);
        }
      } else {
        var rest := Without(tail, name);
        assert Without(dir, name) == [head] + rest;
        assert ([head] + rest)[0] == head && ([head] + rest)[1..] == rest;
        if IsWav(head) {
          assert WavFiles([head] + rest) == [head] + WavFiles(rest);
          assert WavFiles(dir) == [head] + WavFiles(tail);
          var wt := WavFiles(tail);
          assert ([head] + wt)[0] == head && ([head] + wt)[1..] == wt;
        } else {
          assert WavFiles([head] + rest) == WavFiles(rest);
          assert WavFiles(dir) == WavFiles(tail);
        }
      }
    }
  }

  /** Membership in the filtered listings. */
  lemma Membership(dir: seq<string>, name: string)
    ensures forall x :: x in WavFiles(dir) <==> x in dir && IsWav(x)
    ensures forall x :: x in Without(dir, name) <==> x in dir && x != name
  {
    WavFilesCount(dir);
    WithoutCount(dir, name);
    forall x
      ensures x in WavFiles(dir) <==> x in dir && IsWav(x)
      ensures x in Without(dir, name) <==> x in dir && x != name
    {
      assert x in WavFiles(dir) <==> x in multiset(WavFiles(dir));
      assert x in Without(dir, name) <==> x in multiset(Without(dir, name));
      assert x in dir <==> x in multiset(dir);
    }
  }

  /** A name occurs in the sorted `.wav` names exactly when it is a `.wav` name of the
      listing. */
  lemma InSortedWavs(dir: seq<string>, x: string)
    ensures x in Sort(WavFiles(dir)) <==> x in dir && IsWav(x)
  {
    var sorted := Sort(WavFiles(dir));
    assert x in sorted <==> x in multiset(sorted);
    Membership(dir, x);
    assert x in WavFiles(dir) <==> x in multiset(WavFiles(dir));
  }

  /** Deleting one `.wav` name of a listing removes exactly that name: the listing and its
      `.wav` names each shrink by one, and the names stay distinct. */
  lemma StepRemovesOne(dir: seq<string>, name: string)
    requires Distinct(dir) && name in dir && IsWav(name)
    ensures multiset(Without(dir, name)) == multiset(dir) - multiset{name}
    ensures multiset(WavFiles(Without(dir, name))) == multiset(WavFiles(dir)) - multiset{name}
    ensures |Without(dir, name)| == |dir| - 1
    ensures |WavFiles(Without(dir, name))| == |WavFiles(dir)| - 1
    ensures Distinct(Without(dir, name))
  {
    var next := Without(dir, name);
    assert multiset(dir)[name] == 1;
    WithoutCount(dir, name);
    DropSingle(multiset(dir), name);
    assert |next| == |multiset(next)|;
    WavFilesCount(dir);
    WavFilesWithout(dir, name);
    WithoutCount(WavFiles(dir), name);
    DropSingle(multiset(WavFiles(dir)), name);
    assert |WavFiles(next)| == |multiset(WavFiles(next))|;
    Membership(dir, name);
    forall x | x in next
      ensures multiset(next)[x] <= 1
    {
      assert x in dir;
    }
  }

  /** The first of the sorted `.wav` names is a `.wav` name of the listing. */
  lemma SmallestIsWav(dir: seq<string>)
    requires |WavFiles(dir)| > 0
    ensures Sort(WavFiles(dir))[0] in dir && IsWav(Sort(WavFiles(dir))[0])
  {
    InSortedWavs(dir, Sort(WavFiles(dir))[0]);
  }

  /** The first `.wav` name in sorted order: the one a round deletes. */
  function Smallest(dir: seq<string>): string
    requires |WavFiles(dir)| > 0
  {
    Sort(WavFiles(dir))[0]
  }

  /** The listing after one round of `remove_excess_files`. */
  function Step(dir: seq<string>): seq<string>
    requires |WavFiles(dir)| > 0
  {
    Without(dir, Smallest(dir))
  }

  /** One round deletes exactly the smallest `.wav` name: the listing stays distinct and
      has one `.wav` name fewer. */
  lemma StepShrinks(dir: seq<string>)
    requires Distinct(dir) && |WavFiles(dir)| > 0
    ensures Distinct(Step(dir))
    ensures |WavFiles(Step(dir))| == |WavFiles(dir)| - 1
    ensures forall x :: x in Step(dir) <==> x in dir && x != Smallest(dir)
  {
    SmallestIsWav(dir);
    StepRemovesOne(dir, Smallest(dir));
    Membership(dir, Smallest(dir));
  }

  /** The recursion of `remove_excess_files`. Names that are not `.wav` stay, nothing is
      added, no more than 168 `.wav` names remain, and a listing with at most 168 of them
      is left as it is. */
  function RemoveExcessFiles(dir: seq<string>): (after: seq<string>)
    requires Distinct(dir)
    ensures Distinct(after)
    ensures forall x :: x in after ==> x in dir
    ensures forall x :: x in dir && !IsWav(x) ==> x in after
    ensures |WavFiles(after)| == if |WavFiles(dir)| <= MaxArchived then |WavFiles(dir)| else MaxArchived
    ensures |WavFiles(dir)| <= MaxArchived ==> after == dir
    decreases |WavFiles(dir)|
  {
    if |WavFiles(dir)| > MaxArchived then
      SmallestIsWav(dir);
      StepShrinks(dir);
      RemoveExcessFiles(Step(dir))
    else
      dir
  }

  /** The `.wav` names sorted after one round are the old ones minus their head. */
  lemma SortAfterStep(dir: seq<string>)
    requires Distinct(dir) && |WavFiles(dir)| > 0
    ensures Sort(WavFiles(Step(dir))) == Sort(WavFiles(dir))[1..]
  {
    var sorted := Sort(WavFiles(dir));
    var m := sorted[0];
    SmallestIsWav(dir);
    StepRemovesOne(dir, m);
    var rest := Sort(WavFiles(Step(dir)));
    assert multiset(rest) == multiset(WavFiles(dir)) - multiset{m};
    TailMultiset(sorted);
    assert multiset(rest) == multiset(sorted[1..]);
    SortedTail(sorted);
    SortedUnique(rest, sorted[1..]);
  }

  /** The names kept are the greatest ones: sorted, the remaining `.wav` names are the
      last min(n, 168) of the original `n` in sorted order. */
  lemma {:induction false} RetainsGreatest(dir: seq<string>)
    requires Distinct(dir)
    ensures Sort(WavFiles(RemoveExcessFiles(dir))) == Sort(WavFiles(dir))[Excess(|WavFiles(dir)|)..]
    decreases |WavFiles(dir)|
  {
    var sorted := Sort(WavFiles(dir));
    var n := |WavFiles(dir)|;
    if n > MaxArchived {
      var next := Step(dir);
      StepShrinks(dir);
      assert RemoveExcessFiles(dir) == RemoveExcessFiles(next);
      RetainsGreatest(next);
      SortAfterStep(dir);
      assert Excess(|WavFiles(next)|) + 1 == Excess(n);
      DropThenDrop(sorted, Excess(n - 1));
    } else {
      assert RemoveExcessFiles(dir) == dir;
      assert sorted[0..] == sorted;
    }
  }

  /** Dropping the head and then `k` more is dropping `k + 1`. */
  lemma DropThenDrop<T>(s: seq<T>, k: nat)
    requires k < |s|
    ensures s[1..][k..] == s[k + 1..]
  {
  }

  /** Number of `.wav` names the policy deletes from a listing with `n` of them. */
  function Excess(n: nat): (e: nat)
    ensures e <= n
    ensures n - e == if n <= MaxArchived then n else MaxArchived
  {
    if n <= MaxArchived then 0 else n - MaxArchived
  }

  /** A `.wav` name that is gone sits before the cut in the sorted `.wav` names. */
  lemma RemovedBeforeCut(dir: seq<string>, removed: string) returns (i: nat)
    requires Distinct(dir)
    requires removed in dir && IsWav(removed) && removed !in RemoveExcessFiles(dir)
    ensures i < Excess(|WavFiles(dir)|) <= |Sort(WavFiles(dir))|
    ensures Sort(WavFiles(dir))[i] == removed
  {
    var after := RemoveExcessFiles(dir);
    var sorted := Sort(WavFiles(dir));
    var keptSorted := Sort(WavFiles(after));
    assert keptSorted == sorted[Excess(|sorted|)..] by { RetainsGreatest(dir); }
    assert removed in sorted by { InSortedWavs(dir, removed); }
    assert removed !in keptSorted by { InSortedWavs(after, removed); }
    i :| 0 <= i < |sorted| && sorted[i] == removed;
  }

  /** A `.wav` name that is kept sits at or after the cut in the sorted `.wav` names. */
  lemma KeptAfterCut(dir: seq<string>, kept: string) returns (p: nat)
    requires Distinct(dir)
    requires kept in RemoveExcessFiles(dir) && IsWav(kept)
    ensures Excess(|WavFiles(dir)|) <= p < |Sort(WavFiles(dir))|
    ensures Sort(WavFiles(dir))[p] == kept
  {
    var after := RemoveExcessFiles(dir);
    var sorted := Sort(WavFiles(dir));
    var c := Excess(|sorted|);
    var keptSorted := Sort(WavFiles(after));
    assert keptSorted == sorted[c..] by { RetainsGreatest(dir); }
    assert kept in keptSorted by { InSortedWavs(after, kept); }
    var q :| 0 <= q < |keptSorted| && keptSorted[q] == kept;
    p := c + q;
    assert sorted[p] == keptSorted[q];
  }

  /** Every `.wav` name removed sorts before every `.wav` name kept. */
  lemma RemovesSmallest(dir: seq<string>)
    requires Distinct(dir)
    ensures forall removed, kept ::
              && removed in dir && IsWav(removed) && removed !in RemoveExcessFiles(dir)
              && kept in RemoveExcessFiles(dir) && IsWav(kept)
              ==> NotAfter(removed, kept)
  {
    forall removed, kept |
      && removed in dir && IsWav(removed) && removed !in RemoveExcessFiles(dir)
      && kept in RemoveExcessFiles(dir) && IsWav(kept)
      ensures NotAfter(removed, kept)
    {
      var i := RemovedBeforeCut(dir, removed);
      var p := KeptAfterCut(dir, kept);
      assert i < p;
    }
  }
}
