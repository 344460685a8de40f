/**
 The collection pass of the discography collector: over the root listing,
 count the song folders and the candidate bounces, copy each folder's newest
 bounce into the output directory, and count the copies.

 The output directory is a map from file name to the path of the file last
 copied under that name; it starts with whatever the directory held already.
 */
module ExtractDiscography {
  import opened Bounces

  /** A copy into the output directory: the original file name and the path copied from. */
  datatype Copy = Copy(name: string, source: string)

  /** The copy the pass makes for one root entry: none for a non-directory or a
      folder without a pick, otherwise the folder's newest bounce. */
  function Selected(e: Entry): (r: Option<Copy>)
    ensures r.Some? <==> e.Dir? && Newest(e.path, e.children).Some?
    ensures r.Some? ==> exists i: nat :: (IsNewestAt(e.path, e.children, i)
      && r.value == Copy(e.children[i].name, SubPath(e.path, e.children[i])))
  {
    match e
    case NonDir => None
    case Dir(path, cs) =>
      match Newest(path, cs)
      case None => None
      case Some(i) =>
        NewestCorrect(path, cs);
        Some(Copy(cs[i].name, SubPath(path, cs[i])))
  }

  /** Copying a folder's pick into the output: only the key of that pick
      changes, and a folder without a pick leaves the output as it was. */
  function CopyOut(out: map<string, string>, e: Entry): (r: map<string, string>)
    ensures Selected(e).None? ==> r == out
    ensures Selected(e).Some? ==> (r.Keys == out.Keys + {Selected(e).value.name}
      && r[Selected(e).value.name] == Selected(e).value.source)
    ensures forall k :: k in out && (Selected(e).None? || k != Selected(e).value.name) ==> k in r && r[k] == out[k]
  {
    match Selected(e)
    case None => out
    case Some(c) => out[c.name := c.source]
  }

  /** The folder counter after the pass: one per directory entry of the root. */
  function FolderCount(items: seq<Entry>): (r: nat)
    ensures r <= |items|
  {
    if items == [] then 0
    else FolderCount(items[..|items| - 1]) + (if items[|items| - 1].Dir? then 1 else 0)
  }

  /** The bounce counter after the pass: each folder adds its candidates.
      A copy needs a candidate, so there are never fewer bounces than copies. */
  function BounceCount(items: seq<Entry>): (r: nat)
    ensures r >= FoundCount(items)
  {
    if items == [] then 0
    else
      var last := items[|items| - 1];
      var added :=
        if last.Dir? then NewestHasCandidate(last.path, last.children); |Candidates(last.path, last.children)|
        else 0;
      BounceCount(items[..|items| - 1]) + added
  }

  /** The copy counter after the pass: one per folder with a pick, so never
      more than the folder counter. */
  function FoundCount(items: seq<Entry>): (r: nat)
    ensures r <= FolderCount(items)
  {
    if items == [] then 0
    else FoundCount(items[..|items| - 1]) + (if Selected(items[|items| - 1]).Some? then 1 else 0)
  }

  /** The output directory after the pass over `items`: no existing name is
      removed, since copies only add or overwrite. */
  function Output(items: seq<Entry>, existing: map<string, string>): (r: map<string, string>)
    ensures existing.Keys <= r.Keys
  {
    if items == [] then existing
    else CopyOut(Output(items[..|items| - 1], existing), items[|items| - 1])
  }

  /** One iteration of the outer loop: a directory entry bumps the folder
      counter, has its listing scanned, and has its pick, if any, copied and
      counted; any other entry leaves everything as it was. */
  method VisitEntry(item: Entry, folders: nat, bounces: nat, found: nat, out: map<string, string>)
    returns (folders': nat, bounces': nat, found': nat, out': map<string, string>)
    ensures folders' == folders + (if item.Dir? then 1 else 0)
    ensures bounces' == bounces + (if item.Dir? then |Candidates(item.path, item.children)| else 0)
    ensures found' == found + (if Selected(item).Some? then 1 else 0)
    ensures out' == CopyOut(out, item)
  {
    folders', bounces', found', out' := folders, bounces, found, out;
    if item.Dir? {
      folders' := folders' + 1;
      var n, pick := ScanFolder(item.path, item.children);
      SelectedOfScan(item, pick);
      bounces' := bounces' + n;
      if pick.Some? {
        var bounce := item.children[pick.value];
        out' := out'[bounce.name := item.path + "/" + bounce.name];
        found' := found' + 1;
      }
    }
  }

  /** The pass over the root listing: the three counters start at 0 and the
      output directory with its existing contents, and each entry is visited
      in listing order. */
  method Collect(items: seq<Entry>, existing: map<string, string>)
    returns (folderCount: nat, bounceCount: nat, foundCount: nat, output: map<string, string>)
    ensures folderCount == FolderCount(items)
    ensures bounceCount == BounceCount(items)
    ensures foundCount == FoundCount(items)
    ensures output == Output(items, existing)
    ensures foundCount <= folderCount && foundCount <= bounceCount
  {
    folderCount, bounceCount, foundCount := 0, 0, 0;
    output := existing;
    for k := 0 to |items|
      invariant folderCount == FolderCount(items[..k])
      invariant bounceCount == BounceCount(items[..k])
      invariant foundCount == FoundCount(items[..k])
      invariant output == Output(items[..k], existing)
    {
      assert items[..k + 1] == items[..k] + [items[k]];
      PassAppend(items[..k], items[k], existing);
      folderCount, bounceCount, foundCount, output := VisitEntry(items[k], folderCount, bounceCount, foundCount, output);
    }
    assert items[..|items|] == items;
  }

  /** The copy of a folder, in terms of the index its scan picked. */
  lemma SelectedOfScan(e: Entry, pick: Option<nat>)
    requires e.Dir? && pick == Newest(e.path, e.children)
    ensures pick.None? ==> Selected(e).None?
    ensures pick.Some? ==> (pick.value < |e.children| &&
      Selected(e) == Some(Copy(e.children[pick.value].name, e.path + "/" + e.children[pick.value].name)))
  {
  }

  /** What one more root entry adds to the counters and the output. */
  lemma PassAppend(items: seq<Entry>, e: Entry, existing: map<string, string>)
    ensures FolderCount(items + [e]) == FolderCount(items) + (if e.Dir? then 1 else 0)
    ensures BounceCount(items + [e]) == BounceCount(items) + (if e.Dir? then |Candidates(e.path, e.children)| else 0)
    ensures FoundCount(items + [e]) == FoundCount(items) + (if Selected(e).Some? then 1 else 0)
    ensures Output(items + [e], existing) == CopyOut(Output(items, existing), e)
  {
    assert (items + [e])[..|items|] == items;
  }

  /** The indices of the root entries that are directories. */
  function DirIndices(items: seq<Entry>): set<nat> {
    set i: nat | i < |items| && items[i].Dir?
  }

  /** The folder counter is the number of directory entries of the root. */
  lemma {:induction false} FolderCountIsDirectoryCount(items: seq<Entry>)
    ensures FolderCount(items) == |DirIndices(items)|
  {
    if items != [] {
      var n := |items| - 1;
      var pre := items[..n];
      FolderCountIsDirectoryCount(pre);
      if items[n].Dir? {
        assert DirIndices(items) == DirIndices(pre) + {n};
      } else {
        assert DirIndices(items) == DirIndices(pre);
      }
    }
  }

  /** A non-directory anywhere in the root listing changes no counter and no output. */
  lemma {:induction false} NonDirectoryIgnored(a: seq<Entry>, b: seq<Entry>, existing: map<string, string>)
    ensures FolderCount(a + [NonDir] + b) == FolderCount(a + b)
    ensures BounceCount(a + [NonDir] + b) == BounceCount(a + b)
    ensures FoundCount(a + [NonDir] + b) == FoundCount(a + b)
    ensures Output(a + [NonDir] + b, existing) == Output(a + b, existing)
  {
    var x, y := a + [NonDir] + b, a + b;
    if b == [] {
      assert x == a + [NonDir] && y == a;
      PassAppend(a, NonDir, existing);
    } else {
      var b', e := b[..|b| - 1], b[|b| - 1];
      var x', y' := a + [NonDir] + b', a + b';
      NonDirectoryIgnored(a, b', existing);
      assert x == x' + [e];
      assert y == y' + [e];
      PassAppend(x', e, existing);
      PassAppend(y', e, existing);
    }
  }

  /** A name that some folder picks ends up holding the copy of the LAST
      folder that picked it: later copies overwrite earlier ones. */
  lemma {:induction false} OutputLastPickWins(items: seq<Entry>, existing: map<string, string>, i: nat)
    requires i < |items| && Selected(items[i]).Some?
    requires forall j :: i < j < |items| && Selected(items[j]).Some? ==>
      Selected(items[j]).value.name != Selected(items[i]).value.name
    ensures Selected(items[i]).value.name in Output(items, existing)
    ensures Output(items, existing)[Selected(items[i]).value.name] == Selected(items[i]).value.source
  {
    var n := |items| - 1;
    if i < n {
      OutputLastPickWins(items[..n], existing, i);
    }
  }

  /** A name that no folder picks keeps whatever the output directory held. */
  lemma {:induction false} OutputUnpickedKey(items: seq<Entry>, existing: map<string, string>, name: string)
    requires forall j :: 0 <= j < |items| && Selected(items[j]).Some? ==> Selected(items[j]).value.name != name
    ensures name in Output(items, existing) <==> name in existing
    ensures name in existing ==> Output(items, existing)[name] == existing[name]
  {
    if items != [] {
      OutputUnpickedKey(items[..|items| - 1], existing, name);
    }
  }

  /** The pass overrides the existing output with the copies it makes, the
      same copies whatever the output held before. */
  lemma {:induction false} OutputOverrides(items: seq<Entry>, existing: map<string, string>)
    ensures Output(items, existing) == existing + Output(items, map[])
  {
    if items != [] {
      var n := |items| - 1;
      OutputOverrides(items[..n], existing);
      match Selected(items[n])
      case None =>
      case Some(c) =>
        var m := Output(items[..n], map[]);
        assert (existing + m)[c.name := c.source] == existing + m[c.name := c.source];
    }
  }

  /** Running the pass twice over the same listing leaves the output as one run does. */
  lemma OutputIdempotent(items: seq<Entry>, existing: map<string, string>)
    ensures Output(items, Output(items, existing)) == Output(items, existing)
  {
    OutputOverrides(items, existing);
    OutputOverrides(items, Output(items, existing));
    var m := Output(items, map[]);
    assert existing + m + m == existing + m;
  }

  /** A song folder with two takes of increasing birth times, and one with only notes. */
  const SongA: Entry := Dir("r/SongA", [Child("take1.wav", true, 1.0), Child("take2.wav", true, 2.0)])
  const SongB: Entry := Dir("r/SongB", [Child("notes.txt", true, 3.0)])

  lemma SongACandidates()
    ensures IsCandidate(SongA.path, SongA.children[0]) && IsCandidate(SongA.path, SongA.children[1])
  {
    var a := SongA.children;
    assert SubPath(SongA.path, a[0])[13..] == ".wav";
    assert SubPath(SongA.path, a[1])[13..] == ".wav";
  }

  lemma SongANewest()
    ensures Newest(SongA.path, SongA.children) == Some(1)
  {
    SongACandidates();
    NewestOfIncreasing(SongA.path, SongA.children, 1);
  }

  lemma SongAAllCandidates()
    ensures Candidates(SongA.path, SongA.children) == SongA.children
  {
    var dir, a := SongA.path, SongA.children;
    SongACandidates();
    assert a[..1] == [a[0]] && a[..1][..0] == [];
    assert Candidates(dir, a[..1]) == [a[0]];
  }

  lemma SongAScan()
    ensures |Candidates(SongA.path, SongA.children)| == 2
    ensures Selected(SongA) == Some(Copy("take2.wav", "r/SongA/take2.wav"))
  {
    SongAAllCandidates();
    SongANewest();
    assert SubPath(SongA.path, SongA.children[1]) == "r/SongA/take2.wav";
  }

  lemma SongBScan()
    ensures |Candidates(SongB.path, SongB.children)| == 0
    ensures Selected(SongB) == None
  {
    var b := SongB.children;
    var p := SubPath(SongB.path, b[0]);
    assert |p| == 17 && p[12] == 's' && p[13] == '.' && p[14] == 't';
    assert !IsCandidate(SongB.path, b[0]);
    assert Candidates(SongB.path, b) == [];
    NewestIff(SongB.path, b, 0);
  }

  /** Two folders, two candidate takes, one copy: the newer take. */
  lemma TwoFolderScenario()
    ensures FolderCount([SongA, SongB]) == 2
    ensures BounceCount([SongA, SongB]) == 2
    ensures FoundCount([SongA, SongB]) == 1
    ensures Output([SongA, SongB], map[]) == map["take2.wav" := "r/SongA/take2.wav"]
  {
    SongAScan();
    SongBScan();
    var items := [SongA, SongB];
    assert items[..1] == [SongA];
    assert [SongA][..0] == [];
    assert FolderCount([SongA]) == 1 && BounceCount([SongA]) == 2 && FoundCount([SongA]) == 1;
    assert Output([SongA], map[]) == map["take2.wav" := "r/SongA/take2.wav"];
  }
}
