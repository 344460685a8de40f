/**
 The per-folder part of the discography collector: what a song folder's
 listing looks like, which of its children are audio bounces, and which
 bounce is the newest one, the file the collector copies out of the folder.
 */
module Bounces {

  datatype Option<T> = None | Some(value: T)

  /** A direct child of a song folder: its file name, whether it is a regular
      file, and its birth time (only ever compared, never computed with). */
  datatype Child = Child(name: string, isFile: bool, birthTime: real)

  /** An entry of the root directory: a song folder, with its path and its
      listing in enumeration order, or anything that is not a directory. */
  datatype Entry = NonDir | Dir(path: string, children: seq<Child>)

  predicate EndsWith(s: string, suffix: string) {
    |suffix| <= |s| && s[|s| - |suffix|..] == suffix
  }

  /** The tuple of recognised audio extensions. */
  const AudioExtensions: seq<string> := [".mp3", ".wav", ".flac", ".ogg"]

  /** The path ends in one of the audio extensions, matched case-sensitively,
      as `endswith` does when given a tuple. */
  predicate IsAudioPath(p: string)
  {
    assert AudioExtensions[0] == ".mp3" && AudioExtensions[1] == ".wav";
    assert AudioExtensions[2] == ".flac" && AudioExtensions[3] == ".ogg";
    EndsWith(p, ".mp3") || EndsWith(p, ".wav") || EndsWith(p, ".flac") || EndsWith(p, ".ogg")
  }

  /** The path string of a child of the folder at `dir`. */
  function SubPath(dir: string, c: Child): string {
    dir + "/" + c.name
  }

  /** A bounce candidate: a regular file whose full path ends in an audio
      extension; nothing that is not a regular file is ever one. */
  predicate IsCandidate(dir: string, c: Child)
    ensures IsCandidate(dir, c) ==> c.isFile
  {
    c.isFile && IsAudioPath(SubPath(dir, c))
  }

  /** Behind a separator, a suffix free of separators is a suffix of the last component. */
  lemma EndsWithAfterSeparator(dir: string, name: string, e: string)
    requires '/' !in e
    ensures EndsWith(dir + "/" + name, e) <==> EndsWith(name, e)
  {
    var s := dir + "/" + name;
    if |e| <= |name| {
      assert s[|s| - |e|..] == name[|name| - |e|..];
    } else if |e| <= |s| {
      var k := |s| - |e|;
      assert s[|dir|] == '/';
      assert s[k..][|dir| - k] == '/' != e[|dir| - k];
    }
  }

  /** Testing the full path is the same as testing the file name itself:
      since no extension holds a separator, a child is a candidate exactly
      when it is a file whose NAME ends in an extension, whatever the folder. */
  lemma CandidateByName(dir: string, c: Child)
    ensures IsCandidate(dir, c) <==> c.isFile && IsAudioPath(c.name)
  {
    EndsWithAfterSeparator(dir, c.name, ".mp3");
    EndsWithAfterSeparator(dir, c.name, ".wav");
    EndsWithAfterSeparator(dir, c.name, ".flac");
    EndsWithAfterSeparator(dir, c.name, ".ogg");
  }

  /** Upper-case extensions and names that only contain an extension elsewhere do not count. */
  lemma CaseSensitiveMatch()
    ensures IsAudioPath("song/take.wav") && IsAudioPath("song/take.flac")
    ensures !IsAudioPath("song/take.WAV") && !IsAudioPath("song/take.Mp3")
    ensures !IsAudioPath("song/take.wav.txt")
  {
  }

  /** The candidates of a folder, in listing order. */
  function Candidates(dir: string, cs: seq<Child>): (r: seq<Child>)
    ensures |r| <= |cs|
    ensures forall c :: c in r <==> c in cs && IsCandidate(dir, c)
  {
    if cs == [] then []
    else
      var prev := Candidates(dir, cs[..|cs| - 1]);
      var last := cs[|cs| - 1];
      assert cs == cs[..|cs| - 1] + [last];
      if IsCandidate(dir, last) then prev + [last] else prev
  }

  /** The positions of a folder's listing that hold candidates. */
  function CandidateIndices(dir: string, cs: seq<Child>): set<nat> {
    set i: nat | i < |cs| && IsCandidate(dir, cs[i])
  }

  /** Extending a listing by one child adds its position exactly when it is a candidate. */
  lemma CandidateIndicesStep(dir: string, cs: seq<Child>)
    requires cs != []
    ensures CandidateIndices(dir, cs) ==
      CandidateIndices(dir, cs[..|cs| - 1]) + (if IsCandidate(dir, cs[|cs| - 1]) then {|cs| - 1} else {})
  {
    var n := |cs| - 1;
    var pre := cs[..n];
    forall i | i in CandidateIndices(dir, cs) ensures i in CandidateIndices(dir, pre) || i == n {
      if i < n { assert pre[i] == cs[i]; }
    }
    forall i | i in CandidateIndices(dir, pre) ensures i in CandidateIndices(dir, cs) {
      assert pre[i] == cs[i];
    }
  }

  /** A folder contributes exactly as many candidates as its listing has
      positions holding a candidate file. */
  lemma {:induction false} CandidateCount(dir: string, cs: seq<Child>)
    ensures |Candidates(dir, cs)| == |CandidateIndices(dir, cs)|
  {
    if cs != [] {
      var n := |cs| - 1;
      CandidateCount(dir, cs[..n]);
      CandidateIndicesStep(dir, cs);
      assert n !in CandidateIndices(dir, cs[..n]);
    }
  }

  /** The timestamp held by the running maximum: 0 while nothing is picked. */
  function TimeAt(cs: seq<Child>, pick: Option<nat>): real
    requires pick.Some? ==> pick.value < |cs|
  {
    if pick.Some? then cs[pick.value].birthTime else 0.0
  }

  /** The index of the newest bounce of a folder, as the scan over its listing
      leaves it: a candidate replaces the current pick only when its time is
      strictly greater than the pick's time, or than 0 while there is none. */
  function Newest(dir: string, cs: seq<Child>): (r: Option<nat>)
    ensures r.Some? ==> r.value < |cs| && IsCandidate(dir, cs[r.value]) && cs[r.value].birthTime > 0.0
  {
    if cs == [] then None
    else
      var prev := Newest(dir, cs[..|cs| - 1]);
      var last := cs[|cs| - 1];
      if IsCandidate(dir, last) && last.birthTime > TimeAt(cs, prev) then Some(|cs| - 1) else prev
  }

  /** Index i is the newest bounce: a candidate with a positive time, no older
      than any candidate, and strictly newer than every candidate before it. */
  predicate IsNewestAt(dir: string, cs: seq<Child>, i: nat) {
    && i < |cs|
    && IsCandidate(dir, cs[i])
    && cs[i].birthTime > 0.0
    && (forall j :: 0 <= j < |cs| && IsCandidate(dir, cs[j]) ==> cs[j].birthTime <= cs[i].birthTime)
    && (forall j :: 0 <= j < i && IsCandidate(dir, cs[j]) ==> cs[j].birthTime < cs[i].birthTime)
  }

  /** No candidate of the folder has a positive birth time. */
  predicate NoPositiveCandidate(dir: string, cs: seq<Child>) {
    forall j :: 0 <= j < |cs| && IsCandidate(dir, cs[j]) ==> cs[j].birthTime <= 0.0
  }

  /** No candidate of the listing is newer than the running maximum, which is
      0 while nothing is picked. */
  lemma {:induction false} NewestBound(dir: string, cs: seq<Child>)
    ensures Newest(dir, cs).Some? ==> Newest(dir, cs).value < |cs|
    ensures forall j :: 0 <= j < |cs| && IsCandidate(dir, cs[j]) ==> cs[j].birthTime <= TimeAt(cs, Newest(dir, cs))
  {
    if cs != [] {
      var n := |cs| - 1;
      var pre := cs[..n];
      NewestBound(dir, pre);
      var prev := Newest(dir, pre);
      assert TimeAt(pre, prev) == TimeAt(cs, prev);
      forall j | 0 <= j < |cs| && IsCandidate(dir, cs[j])
        ensures cs[j].birthTime <= TimeAt(cs, Newest(dir, cs))
      {
        if j < n {
          assert pre[j] == cs[j];
        }
      }
    }
  }

  /** Every candidate before the running pick is strictly older than it. */
  lemma {:induction false} NewestEarliest(dir: string, cs: seq<Child>)
    ensures Newest(dir, cs).Some? ==> forall j :: 0 <= j < Newest(dir, cs).value && IsCandidate(dir, cs[j]) ==>
      cs[j].birthTime < cs[Newest(dir, cs).value].birthTime
  {
    if cs != [] {
      var n := |cs| - 1;
      var pre := cs[..n];
      var prev := Newest(dir, pre);
      if Newest(dir, cs) == Some(n) {
        NewestBound(dir, pre);
        assert TimeAt(pre, prev) == TimeAt(cs, prev);
        forall j | 0 <= j < n && IsCandidate(dir, cs[j]) ensures cs[j].birthTime < cs[n].birthTime {
          assert pre[j] == cs[j];
        }
      } else {
        NewestEarliest(dir, pre);
        if prev.Some? {
          forall j | 0 <= j < prev.value && IsCandidate(dir, cs[j])
            ensures cs[j].birthTime < cs[prev.value].birthTime
          {
            assert pre[j] == cs[j];
          }
        }
      }
    }
  }

  lemma NewestCorrect(dir: string, cs: seq<Child>)
    ensures Newest(dir, cs).None? ==> NoPositiveCandidate(dir, cs)
    ensures Newest(dir, cs).Some? ==> IsNewestAt(dir, cs, Newest(dir, cs).value)
  {
    NewestBound(dir, cs);
    NewestEarliest(dir, cs);
  }

  /** At most one index has the newest-bounce property. */
  lemma NewestUnique(dir: string, cs: seq<Child>, i: nat, k: nat)
    requires IsNewestAt(dir, cs, i) && IsNewestAt(dir, cs, k)
    ensures i == k
  {
  }

  /** The newest bounce is unique: the scan's pick is exactly the index with
      the declarative property, and there is none exactly when no candidate
      has a positive time (the running maximum starts at 0). */
  lemma NewestIff(dir: string, cs: seq<Child>, i: nat)
    ensures Newest(dir, cs) == Some(i) <==> IsNewestAt(dir, cs, i)
    ensures Newest(dir, cs) == None <==> NoPositiveCandidate(dir, cs)
  {
    NewestCorrect(dir, cs);
    if IsNewestAt(dir, cs, i) && Newest(dir, cs).Some? {
      NewestUnique(dir, cs, i, Newest(dir, cs).value);
    }
  }

  /** With strictly increasing candidate times, the last candidate is picked
      (provided its time is positive, as a real birth time is). */
  lemma NewestOfIncreasing(dir: string, cs: seq<Child>, k: nat)
    requires k < |cs| && IsCandidate(dir, cs[k]) && cs[k].birthTime > 0.0
    requires forall j :: k < j < |cs| ==> !IsCandidate(dir, cs[j])
    requires forall i, j :: 0 <= i < j < |cs| && IsCandidate(dir, cs[i]) && IsCandidate(dir, cs[j]) ==>
      cs[i].birthTime < cs[j].birthTime
    ensures Newest(dir, cs) == Some(k)
  {
    assert IsNewestAt(dir, cs, k);
    NewestIff(dir, cs, k);
  }

  /** A folder with a pick has at least one candidate. */
  lemma NewestHasCandidate(dir: string, cs: seq<Child>)
    ensures Newest(dir, cs).Some? ==> |Candidates(dir, cs)| >= 1
  {
    if Newest(dir, cs).Some? {
      assert cs[Newest(dir, cs).value] in Candidates(dir, cs);
    }
  }

  /** What one more child of the listing does to the candidates and the pick. */
  lemma ScanStep(dir: string, cs: seq<Child>, i: nat)
    requires i < |cs|
    ensures Candidates(dir, cs[..i + 1]) ==
      Candidates(dir, cs[..i]) + (if IsCandidate(dir, cs[i]) then [cs[i]] else [])
    ensures var prev := Newest(dir, cs[..i]);
      prev.Some? ==> prev.value < i
    ensures var prev := Newest(dir, cs[..i]);
      Newest(dir, cs[..i + 1]) ==
        if IsCandidate(dir, cs[i]) && cs[i].birthTime > TimeAt(cs, prev) then Some(i) else prev
  {
    assert cs[..i + 1][..i] == cs[..i];
  }

  /** The inner scan of one song folder: counts its candidates and keeps a
      running maximum of their birth times that starts at 0 and is replaced
      only by a strictly greater time. */
  method ScanFolder(dir: string, cs: seq<Child>) returns (count: nat, pick: Option<nat>)
    ensures count == |Candidates(dir, cs)|
    ensures pick == Newest(dir, cs)
    ensures pick.Some? ==> IsNewestAt(dir, cs, pick.value)
    ensures pick.None? <==> NoPositiveCandidate(dir, cs)
  {
    count := 0;
    pick := None;
    var latest: real := 0.0;
    for i := 0 to |cs|
      invariant count == |Candidates(dir, cs[..i])|
      invariant pick == Newest(dir, cs[..i])
      invariant pick.Some? ==> pick.value < i
      invariant latest == TimeAt(cs, pick)
    {
      ScanStep(dir, cs, i);
      var c := cs[i];
      if c.isFile && IsAudioPath(dir + "/" + c.name) {
        count := count + 1;
        var t := c.birthTime;
        if t > latest {
          latest := t;
          pick := Some(i);
        }
      }
    }
    assert cs[..|cs|] == cs;
    NewestCorrect(dir, cs);
    NewestIff(dir, cs, 0);
  }
}
