/** The rotating logger: every line goes to standard output and to the active
    file `<base>.log`; after a write that leaves the active file at `maxSize`
    characters or more, the backups `<base>.log.1` .. `<base>.log.<maxFiles>`
    are shifted up by one, the active file becomes backup 1 and a fresh empty
    active file is opened at the same path.

    The family of files is a map from index to contents: key 0 is the active
    file, key i > 0 is `<base>.log.<i>`. Paths.ActivePathRebuilt shows the
    rotation's `dirname`/`basename` give back the logger's directory and base
    name, so every name it builds is one of these, and
    Paths.FileNameInjective shows the names are distinct, so keying by index
    loses nothing. */
module Logger {

  import opened Wrappers
  import Text
  import Paths

  type Family = map<nat, string>

  // ---------------------------------------------------------------------------
  // Line format

  /** One log line: `[timestamp] [level] message` and a newline. */
  function FormatLine(timestamp: string, level: string, message: string): (line: string)
    ensures |line| == |timestamp| + |level| + |message| + 7
    ensures line[0] == '[' && line[|line| - 1] == '\n'
    ensures line[1..|timestamp| + 1] == timestamp
  {
    "[" + timestamp + "] [" + level + "] " + message + "\n"
  }

  /** The line the rotation writes into the fresh active file. */
  function RotationNotice(timestamp: string): string {
    FormatLine(timestamp, "INFO", "Log rotated due to size limit")
  }

  function IndexOf(s: string, c: char): (k: int)
    ensures -1 <= k < |s|
    ensures k >= 0 ==> s[k] == c
    ensures forall j :: 0 <= j < |s| && (k < 0 || j < k) ==> s[j] != c
  {
    if |s| == 0 then -1
    else if s[0] == c then 0
    else
      var k := IndexOf(s[1..], c);
      if k < 0 then -1 else k + 1
  }

  /** Splits a line back into its timestamp, level and message. */
  function ParseLine(line: string): Option<(string, string, string)> {
    if |line| < 7 || line[0] != '[' || line[|line| - 1] != '\n' then None
    else
      var rest := line[1..|line| - 1];
      var a := IndexOf(rest, ']');
      if a < 0 || |rest| < a + 3 || rest[a..a + 3] != "] [" then None
      else
        var tail := rest[a + 3..];
        var b := IndexOf(tail, ']');
        if b < 0 || |tail| < b + 2 || tail[b..b + 2] != "] " then None
        else Some((rest[..a], tail[..b], tail[b + 2..]))
  }

  lemma {:induction false} IndexOfAfterFree(prefix: string, c: char, suffix: string)
    requires c !in prefix
    ensures IndexOf(prefix + [c] + suffix, c) == |prefix|
    decreases |prefix|
  {
    if |prefix| > 0 {
      assert (prefix + [c] + suffix)[1..] == prefix[1..] + [c] + suffix;
      IndexOfAfterFree(prefix[1..], c, suffix);
    }
  }

  /** How a formatted line splits at the two closing brackets. */
  lemma LineShape(timestamp: string, level: string, message: string)
    ensures var line := FormatLine(timestamp, level, message);
            var tail := level + [']'] + (" " + message);
            var rest := timestamp + [']'] + (" [" + tail);
            var a := |timestamp|;
            && line[1..|line| - 1] == rest
            && rest[a..a + 3] == "] [" && rest[..a] == timestamp && rest[a + 3..] == tail
            && tail[|level|..|level| + 2] == "] " && tail[..|level|] == level
            && tail[|level| + 2..] == message
  {
    var line := FormatLine(timestamp, level, message);
    var tail := level + [']'] + (" " + message);
    var rest := timestamp + [']'] + (" [" + tail);
    assert line == "[" + rest + "\n";
  }

  /** A line whose timestamp and level hold no ']' reads back to exactly the
      timestamp, level and message it was written from. */
  lemma FormatLineRoundTrip(timestamp: string, level: string, message: string)
    requires ']' !in timestamp && ']' !in level
    ensures ParseLine(FormatLine(timestamp, level, message)) == Some((timestamp, level, message))
  {
    var line := FormatLine(timestamp, level, message);
    var tail := level + [']'] + (" " + message);
    LineShape(timestamp, level, message);
    IndexOfAfterFree(timestamp, ']', " [" + tail);
    IndexOfAfterFree(level, ']', " " + message);
    assert IndexOf(line[1..|line| - 1], ']') == |timestamp|;
  }

  // ---------------------------------------------------------------------------
  // Rotation, specified on the family

  /** Whether the index just below `k` holds a file. */
  predicate FilledBelow(fs: Family, k: int) {
    (k - 1) in fs
  }

  /** The family after the rename loop has handled the indices from `n - 1` down
      to `lo`: every present index `j` with `lo <= j < n` has been renamed to
      `j + 1` (replacing what was there); everything else is where it was. */
  function Shifted(fs: Family, n: int, lo: int): Family {
    var kept := set k | k in fs && !(lo <= k < n);
    var moved := set k: nat | lo < k <= n && FilledBelow(fs, k);
    map k | k in kept + moved :: if lo < k <= n && (k - 1) in fs then fs[k - 1] else fs[k]
  }

  /** The family after a rotation with `maxFiles` backups: the loop shifts
      indices `maxFiles - 1` .. 0, and the active file is then opened afresh
      (and empty) at index 0. */
  function Rotated(fs: Family, maxFiles: int): Family {
    Shifted(fs, maxFiles, 0)[0 := ""]
  }

  /** One step of the descending loop: renaming index `i` (when present) turns
      the family shifted down to `i + 1` into the family shifted down to `i`.
      Index `i` has not been touched yet, so it still holds its original file. */
  lemma ShiftStep(fs: Family, n: int, i: nat)
    requires i < n
    ensures var m := Shifted(fs, n, i + 1);
            && (i in m <==> i in fs)
            && (i in fs ==> m[i] == fs[i])
            && Shifted(fs, n, i) == if i in fs then m[i + 1 := m[i]] - {i} else m
  {
    var m := Shifted(fs, n, i + 1);
    var m' := Shifted(fs, n, i);
    var e := if i in fs then m[i + 1 := m[i]] - {i} else m;
    forall k: nat
      ensures k in m' <==> k in e
      ensures k in m' ==> m'[k] == e[k]
    {
      if k in fs && !(i <= k < n) {
        assert k in m';
      }
      if k in fs && i <= k < n {
        assert k + 1 in m';
      }
      if k in fs && !(i + 1 <= k < n) {
        assert k in m;
      }
      if k in fs && i + 1 <= k < n {
        assert k + 1 in m;
      }
    }
  }

  /** When no index is left to move, the family is unchanged. */
  lemma ShiftedNothing(fs: Family, n: int, lo: int)
    requires n <= lo
    ensures Shifted(fs, n, lo) == fs
  {
    var m := Shifted(fs, n, lo);
    forall k | k in fs ensures k in m {
    }
  }

  /** Where the rotation puts the file found at index `k`. */
  function Destination(k: nat, maxFiles: int): nat {
    if k < maxFiles then k + 1 else k
  }

  /** The active file becomes backup 1, and each backup i below maxFiles becomes
      backup i + 1 with the same contents: the descending loop moves a file
      before anything is renamed onto its index. */
  lemma RotationShifts(fs: Family, maxFiles: int, i: nat)
    requires i < maxFiles && i in fs
    ensures var r := Rotated(fs, maxFiles);
            i + 1 in r && r[i + 1] == fs[i]
  {
    assert i + 1 in Shifted(fs, maxFiles, 0);
  }

  /** After a rotation the active file exists and is empty. */
  lemma RotationEmptiesActive(fs: Family, maxFiles: int)
    ensures var r := Rotated(fs, maxFiles);
            0 in r && r[0] == ""
  {
  }

  /** A missing backup below the last slot is skipped: nothing appears at the
      index above it. */
  lemma RotationSkipsGaps(fs: Family, maxFiles: int, i: nat)
    requires i + 1 < maxFiles && i !in fs
    ensures i + 1 !in Rotated(fs, maxFiles)
  {
  }

  /** No index above maxFiles is created; any file already there is left alone. */
  lemma RotationStaysInBound(fs: Family, maxFiles: int, k: nat)
    requires k > maxFiles && k > 0
    ensures k in Rotated(fs, maxFiles) <==> k in fs
    ensures k in fs ==> Rotated(fs, maxFiles)[k] == fs[k]
  {
    if k in fs {
      assert k in Shifted(fs, maxFiles, 0);
    }
  }

  /** The oldest slot `maxFiles` is overwritten exactly when `maxFiles - 1`
      existed; otherwise whatever was at `maxFiles` survives. */
  lemma RotationEvictsOldest(fs: Family, maxFiles: nat)
    requires maxFiles >= 1
    ensures var r := Rotated(fs, maxFiles);
            && ((maxFiles - 1) in fs ==> maxFiles in r && r[maxFiles] == fs[maxFiles - 1])
            && ((maxFiles - 1) !in fs ==> (maxFiles in r <==> maxFiles in fs))
            && ((maxFiles - 1) !in fs && maxFiles in fs ==> r[maxFiles] == fs[maxFiles])
  {
    var s := Shifted(fs, maxFiles, 0);
    if (maxFiles - 1) in fs {
      assert maxFiles in s;
    } else if maxFiles in fs {
      assert maxFiles in s;
    }
  }

  /** With at least one backup slot, rotation is a permutation with eviction:
      every file reappears at its destination with the same contents, except
      the oldest backup when the slot below it was occupied; and every backup
      after rotation is some earlier file moved there. */
  lemma RotationLosesOnlyTheOldest(fs: Family, maxFiles: nat)
    requires maxFiles >= 1
    ensures var r := Rotated(fs, maxFiles);
            forall k :: k in fs && !(k == maxFiles && (maxFiles - 1) in fs) ==>
              Destination(k, maxFiles) in r && r[Destination(k, maxFiles)] == fs[k]
    ensures var r := Rotated(fs, maxFiles);
            forall k :: k in r && k != 0 ==>
              exists j :: j in fs && Destination(j, maxFiles) == k && r[k] == fs[j]
  {
    var r := Rotated(fs, maxFiles);
    var s := Shifted(fs, maxFiles, 0);
    forall k | k in fs && !(k == maxFiles && (maxFiles - 1) in fs)
      ensures Destination(k, maxFiles) in r && r[Destination(k, maxFiles)] == fs[k]
    {
      if k < maxFiles {
        assert k + 1 in s;
      } else {
        assert k in s;
      }
    }
    forall k | k in r && k != 0
      ensures exists j :: j in fs && Destination(j, maxFiles) == k && r[k] == fs[j]
    {
      if k <= maxFiles && (k - 1) in fs {
        assert Destination(k - 1, maxFiles) == k;
      } else {
        assert Destination(k, maxFiles) == k;
      }
    }
  }

  /** Rotation keeps the family within `maxFiles` backups. */
  lemma RotationKeepsBound(fs: Family, maxFiles: nat)
    requires forall k :: k in fs ==> k <= maxFiles
    ensures forall k :: k in Rotated(fs, maxFiles) ==> k <= maxFiles
  {
  }

  /** With no backup slot (maxFiles <= 0) the loop renames nothing and the
      active file is truncated in place: its contents are lost. */
  lemma RotationWithoutSlotsTruncates(fs: Family, maxFiles: int)
    requires maxFiles <= 0
    ensures Rotated(fs, maxFiles) == fs[0 := ""]
  {
    ShiftedNothing(fs, maxFiles, 0);
  }

  // ---------------------------------------------------------------------------
  // The logger's state

  class Logger {
    const dir: string
    const baseName: string
    const maxSize: int
    const maxFiles: int
    /** The path of the active file. */
    var logFile: string
    /** The files `<baseName>.log` (key 0) and `<baseName>.log.<i>` (key i). */
    var files: Family
    /** The lines written to standard output. */
    var console: seq<string>

    ghost predicate Valid()
      reads this
    {
      && logFile == Paths.Join(dir, Paths.FileName(baseName, 0))
      && |baseName| > 0 && '/' !in baseName
      && 0 in files
    }

    /** Sets the logger up for the day: the directory `<cwd>/<logDir>`, the base
        name `form-script-YYYY-MM-DD`, and the active file opened for appending
        (created empty when it does not exist yet). `existing` is the part of
        the family already on disk. */
    constructor (cwd: string, logDir: string, year: nat, month: nat, day: nat,
                 existing: Family, maxSize: int, maxFiles: int)
      ensures Valid()
      ensures dir == Paths.Join(cwd, logDir)
      ensures baseName == "form-script-" + Text.DateStamp(year, month, day)
      ensures logFile == Paths.Join(Paths.Join(cwd, logDir), baseName + ".log")
      ensures files == if 0 in existing then existing else existing[0 := ""]
      ensures console == []
      ensures this.maxSize == maxSize && this.maxFiles == maxFiles
    {
      var logDirPath := Paths.Join(cwd, logDir);
      var stamp := Text.DateStamp(year, month, day);
      var base := "form-script-" + stamp;
      Text.DateStampNoSlash(year, month, day);
      assert '/' !in base;
      assert Paths.FileName(base, 0) == base + ".log";
      dir := logDirPath;
      baseName := base;
      this.maxSize := maxSize;
      this.maxFiles := maxFiles;
      logFile := Paths.Join(logDirPath, base + ".log");
      files := if 0 in existing then existing else existing[0 := ""];
      console := [];
    }

    /** The size check and rotation run after a write. When the active file has
        reached `maxSize`, the backups are shifted by the descending rename loop,
        a fresh empty active file is opened at the same path, and the rotation
        notice (stamped `noticeStamp`) is logged into it. */
    method RotateIfNeeded(noticeStamp: string) returns (rotated: bool)
      requires Valid()
      modifies this
      ensures Valid()
      ensures rotated <==> 0 in old(files) && |old(files)[0]| >= maxSize
      ensures logFile == old(logFile)
      ensures files == if rotated then Rotated(old(files), maxFiles)[0 := RotationNotice(noticeStamp)]
                       else old(files)
      ensures console == if rotated then old(console) + [RotationNotice(noticeStamp)] else old(console)
    {
      rotated := false;
      if 0 in files {
        if |files[0]| >= maxSize {
          rotated := true;
          var base := Paths.BaseName(logFile, ".log");
          var parent := Paths.DirName(logFile);
          ghost var before := files;
          ShiftBackups();
          Paths.ActivePathRebuilt(dir, baseName);
          logFile := Paths.Join(parent, Paths.FileName(base, 0));
          files := files[0 := ""];
          assert files == Rotated(before, maxFiles);
          var notice := RotationNotice(noticeStamp);
          console := console + [notice];
          files := files[0 := files[0] + notice];
          assert files[0] == notice;
        }
      }
    }

    /** The rename loop of the rotation: for i from maxFiles - 1 down to 0, the
        file at index i (when it exists) is renamed to index i + 1, replacing
        whatever was there. */
    method ShiftBackups()
      modifies this`files
      ensures files == Shifted(old(files), maxFiles, 0)
    {
      ghost var before := files;
      var i := maxFiles - 1;
      ShiftedNothing(before, maxFiles, maxFiles);
      while i >= 0
        invariant i <= maxFiles - 1 && (-1 <= i || i == maxFiles - 1)
        invariant files == Shifted(before, maxFiles, i + 1)
      {
        // Index i still holds its original file here (ShiftStep), and renaming
        // it moves the family one step down; the step keeps this proof short.
        ShiftStep(before, maxFiles, i);
        ghost var m := files;
        if i in files {
          files := files[i + 1 := files[i]] - {i};
        }
        assert files == if i in before then m[i + 1 := m[i]] - {i} else m;
        i := i - 1;
      }
      if maxFiles <= 0 {
        ShiftedNothing(before, maxFiles, i + 1);
        ShiftedNothing(before, maxFiles, 0);
      }
    }

    /** Writes one line to standard output and appends the same line to the
        active file, then runs the size check (which may rotate). */
    method Log(timestamp: string, level: string, message: string, noticeStamp: string)
      returns (rotated: bool)
      requires Valid()
      modifies this
      ensures Valid() && logFile == old(logFile)
      ensures var line := FormatLine(timestamp, level, message);
              var written := old(files)[0 := old(files)[0] + line];
              && (rotated <==> |written[0]| >= maxSize)
              && files == (if rotated then Rotated(written, maxFiles)[0 := RotationNotice(noticeStamp)]
                           else written)
              && console == old(console) + [line] + (if rotated then [RotationNotice(noticeStamp)] else [])
    {
      var line := FormatLine(timestamp, level, message);
      console := console + [line];
      files := files[0 := files[0] + line];
      rotated := RotateIfNeeded(noticeStamp);
    }
  }
}
