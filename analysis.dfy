/** The folder analysis of advisor.cpp (analyze_folder).

    The recursive directory iterator is abstracted as the finite sequence of
    entries it yields. For every regular file the analysis increments a file
    count and replaces the running largest size only when the new size is
    strictly greater. Nothing else is computed: there is no total size. */
module FolderAnalysis {

  /** One entry yielded by the directory walk, classified as
      `is_regular_file()` classifies it: symbolic links are followed, so a link
      to a regular file is a RegularFile carrying its target's size. Directories
      and every other kind (sockets, devices, links to anything that is not a
      regular file, dangling links) are skipped. */
  datatype Entry = RegularFile(size: nat) | Directory | Other

  /** The two locals of analyze_folder: file_count and largest_file. */
  datatype Tally = Tally(fileCount: nat, largestFile: nat)

  /** The three numbers the analysis prints: the file count, the bytes it says
      would be freed, and the largest file size. The source passes largest_file
      for both of the last two. */
  datatype Notice = Notice(files: nat, freedBytes: nat, largestBytes: nat)

  datatype Option<T> = None | Some(value: T)

  /** The tally before the first entry. */
  const Empty := Tally(0, 0)

  /** The effect of one loop iteration on the tally. */
  function Step(t: Tally, e: Entry): Tally {
    match e
    case RegularFile(size) =>
      Tally(t.fileCount + 1, if size > t.largestFile then size else t.largestFile)
    case _ => t
  }

  /** The tally after visiting `entries` in order: a left fold of Step, written
      on the last element so that it follows the loop one iteration at a time. */
  function Fold(entries: seq<Entry>): Tally
    decreases |entries|
  {
    if entries == [] then Empty
    else Step(Fold(entries[..|entries| - 1]), entries[|entries| - 1])
  }

  /** The sizes of the regular files among `entries`, in order: the reference
      against which the tally is judged. */
  function RegularSizes(entries: seq<Entry>): (sizes: seq<nat>)
    ensures sizes == [] <==> forall k :: 0 <= k < |entries| ==> !entries[k].RegularFile?
  {
    if entries == [] then []
    else (if entries[0].RegularFile? then [entries[0].size] else []) + RegularSizes(entries[1..])
  }

  /** `m` is the largest element of `s`, or 0 when `s` is empty. */
  ghost predicate IsMaxOrZero(m: nat, s: seq<nat>) {
    && (forall k :: 0 <= k < |s| ==> s[k] <= m)
    && (m == 0 || m in s)
  }

  /** The printed summary of a finished tally. */
  function NoticeOf(t: Tally): Notice {
    Notice(t.fileCount, t.largestFile, t.largestFile)
  }

  /** analyze_folder: the loop over the walk, with file_count and largest_file
      as the method's locals and results. */
  method AnalyzeFolder(entries: seq<Entry>) returns (fileCount: nat, largestFile: nat)
    ensures Tally(fileCount, largestFile) == Fold(entries)
    ensures fileCount == |RegularSizes(entries)|
    ensures IsMaxOrZero(largestFile, RegularSizes(entries))
    ensures entries == [] ==> fileCount == 0 && largestFile == 0
  {
    fileCount, largestFile := 0, 0;
    for i := 0 to |entries|
      invariant Tally(fileCount, largestFile) == Fold(entries[..i])
    {
      assert entries[..i + 1][..i] == entries[..i];
      match entries[i]
      case RegularFile(size) =>
        fileCount := fileCount + 1;
        if size > largestFile {
          largestFile := size;
        }
      case _ =>
    }
    assert entries[..|entries|] == entries;
    FoldCountsRegularFiles(entries);
    FoldIsMaximum(entries);
  }

  /** For every walk, the printed summary gives the number of regular files,
      and both byte figures are the largest regular-file size (or 0): the
      "would free up" figure is that maximum, not a sum. */
  lemma NoticeOfWalk(entries: seq<Entry>)
    ensures NoticeOf(Fold(entries)).files == |RegularSizes(entries)|
    ensures NoticeOf(Fold(entries)).freedBytes == NoticeOf(Fold(entries)).largestBytes
    ensures IsMaxOrZero(NoticeOf(Fold(entries)).largestBytes, RegularSizes(entries))
  {
    FoldCountsRegularFiles(entries);
    FoldIsMaximum(entries);
  }

  /** RegularSizes distributes over concatenation. */
  lemma {:induction false} RegularSizesAppend(a: seq<Entry>, b: seq<Entry>)
    ensures RegularSizes(a + b) == RegularSizes(a) + RegularSizes(b)
    decreases |a|
  {
    if a != [] {
      assert (a + b)[1..] == a[1..] + b;
      RegularSizesAppend(a[1..], b);
    } else {
      assert a + b == b;
    }
  }

  /** After the walk, the file count is the number of regular-file entries. */
  lemma {:induction false} FoldCountsRegularFiles(entries: seq<Entry>)
    ensures Fold(entries).fileCount == |RegularSizes(entries)|
    decreases |entries|
  {
    if entries != [] {
      var n := |entries| - 1;
      assert entries == entries[..n] + [entries[n]];
      RegularSizesAppend(entries[..n], [entries[n]]);
      FoldCountsRegularFiles(entries[..n]);
    }
  }

  /** After the walk, the largest size is at least every regular file's size,
      and is one of those sizes unless it is still 0. */
  lemma {:induction false} FoldIsMaximum(entries: seq<Entry>)
    ensures IsMaxOrZero(Fold(entries).largestFile, RegularSizes(entries))
    decreases |entries|
  {
    if entries != [] {
      var n := |entries| - 1;
      assert entries == entries[..n] + [entries[n]];
      RegularSizesAppend(entries[..n], [entries[n]]);
      FoldIsMaximum(entries[..n]);
    }
  }

  /** The largest size stays 0 exactly when no regular file has a positive
      size (in particular when there is no regular file at all). */
  lemma LargestZeroIff(entries: seq<Entry>)
    ensures Fold(entries).largestFile == 0
        <==> forall k :: 0 <= k < |RegularSizes(entries)| ==> RegularSizes(entries)[k] == 0
  {
    FoldIsMaximum(entries);
    var m, s := Fold(entries).largestFile, RegularSizes(entries);
    if m == 0 {
      assert forall k :: 0 <= k < |s| ==> s[k] == 0;
    } else {
      var k :| 0 <= k < |s| && s[k] == m;
      assert RegularSizes(entries)[k] != 0;
      assert !(forall i :: 0 <= i < |RegularSizes(entries)| ==> RegularSizes(entries)[i] == 0);
    }
  }

  /** An entry that is not a regular file, inserted anywhere in the walk,
      changes neither the file count nor the largest size. */
  lemma {:induction false} NonRegularIgnored(a: seq<Entry>, e: Entry, b: seq<Entry>)
    requires !e.RegularFile?
    ensures Fold(a + [e] + b) == Fold(a + b)
    decreases |b|
  {
    if b == [] {
      assert (a + [e] + b)[..|a|] == a;
      assert a + b == a;
    } else {
      var n := |b| - 1;
      assert (a + [e] + b)[..|a| + 1 + n] == a + [e] + b[..n];
      assert (a + b)[..|a| + n] == a + b[..n];
      NonRegularIgnored(a, e, b[..n]);
    }
  }

  /** Neither counter ever decreases as the walk goes on. */
  lemma {:induction false} FoldMonotone(a: seq<Entry>, b: seq<Entry>)
    ensures Fold(a).fileCount <= Fold(a + b).fileCount
    ensures Fold(a).largestFile <= Fold(a + b).largestFile
    decreases |b|
  {
    if b == [] {
      assert a + b == a;
    } else {
      var n := |b| - 1;
      assert (a + b)[..|a| + n] == a + b[..n];
      FoldMonotone(a, b[..n]);
    }
  }

  /** The position of the entry whose size the largest size last took, if any:
      the last iteration at which the strict comparison held. */
  function Holder(entries: seq<Entry>): Option<nat>
    decreases |entries|
  {
    if entries == [] then None
    else
      var n := |entries| - 1;
      if entries[n].RegularFile? && entries[n].size > Fold(entries[..n]).largestFile
      then Some(n)
      else Holder(entries[..n])
  }

  /** The strict comparison makes the first regular file of maximal size win:
      the largest size was last taken from a regular file that has it, and every
      regular file before that one is strictly smaller. It is taken from no
      entry exactly when it is still 0. */
  lemma {:induction false} FirstMaximumWins(entries: seq<Entry>)
    ensures Holder(entries).None? <==> Fold(entries).largestFile == 0
    ensures Holder(entries).Some? ==>
      var k := Holder(entries).value;
      && k < |entries|
      && entries[k].RegularFile?
      && entries[k].size == Fold(entries).largestFile
      && forall j :: 0 <= j < k && entries[j].RegularFile? ==> entries[j].size < entries[k].size
    decreases |entries|
  {
    if entries != [] {
      var n := |entries| - 1;
      var prev := entries[..n];
      FirstMaximumWins(prev);
      if entries[n].RegularFile? && entries[n].size > Fold(prev).largestFile {
        forall j | 0 <= j < n && entries[j].RegularFile?
          ensures entries[j].size < entries[n].size
        {
          assert prev[j] == entries[j];
          RegularFileBelowLargest(prev, j);
        }
      } else {
        if Holder(prev).Some? {
          var k := Holder(prev).value;
          forall j | 0 <= j < k && entries[j].RegularFile?
            ensures entries[j].size < entries[k].size
          {
            assert prev[j] == entries[j];
          }
        }
      }
    }
  }

  /** Every regular file of a walk is no larger than the walk's largest size. */
  lemma {:induction false} RegularFileBelowLargest(entries: seq<Entry>, j: nat)
    requires j < |entries| && entries[j].RegularFile?
    ensures entries[j].size <= Fold(entries).largestFile
    decreases |entries|
  {
    var n := |entries| - 1;
    if j < n {
      assert entries[..n][j] == entries[j];
      RegularFileBelowLargest(entries[..n], j);
    }
  }
}
