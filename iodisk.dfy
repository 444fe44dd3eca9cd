/** The I/O controller disk test, `iodisktest`: collect the partitions of
    /proc/partitions and the mounted filesystems of /etc/mtab, credit each
    filesystem to the first partition it lives on, write a random string to
    a new file on every matched filesystem not mounted read-only and read it
    back, and finally warn about IDE controllers that only carry read-only
    filesystems. */
module IoDisk {
  import opened Process

  /** Capacity of the `partitions` and `fs_info` pointer arrays; the loops
      over them stop at the first NULL slot. */
  const MAXINDEX: nat := 100

  /** `part_rec`: a partition name and what was credited to it. */
  datatype PartRec = PartRec(name: string, rwCount: nat, roCount: nat, assoc: bool)

  /** `fs_rec`: device name, mount point and mount options of a mounted
      filesystem. */
  datatype FsRec = FsRec(fsName: string, mntPt: string, fsOpt: string)

  /** A line of /proc/partitions as `fgets` returned it, with the fourth
      field `sscanf` extracted from it. */
  datatype PartLine = PartLine(text: string, token: string)

  /** `get_io_ctrl`: the controller of an IDE partition from the third
      letter of its name; a and b are controller 1, c and d controller 2, and
      so on up to y and z, controller 13. Any other character, including the
      terminating NUL of a two-letter name, gives 0. */
  function GetIoCtrl(name: string): (c: int)
    ensures 0 <= c <= 13
    ensures |name| >= 3 && 'a' <= name[2] <= 'z' ==> c == (name[2] as int - 'a' as int) / 2 + 1
    ensures !(|name| >= 3 && 'a' <= name[2] <= 'z') ==> c == 0
  {
    if |name| < 3 then 0
    else
      match name[2]
      case 'a' | 'b' => 1
      case 'c' | 'd' => 2
      case 'e' | 'f' => 3
      case 'g' | 'h' => 4
      case 'i' | 'j' => 5
      case 'k' | 'l' => 6
      case 'm' | 'n' => 7
      case 'o' | 'p' => 8
      case 'q' | 'r' => 9
      case 's' | 't' => 10
      case 'u' | 'v' => 11
      case 'w' | 'x' => 12
      case 'y' | 'z' => 13
      case _ => 0
  }

  /** The two drives of one controller get the same number, and the
      numbering grows with the letter. */
  lemma IoCtrlPairsAndOrder(n1: string, n2: string)
    requires |n1| >= 3 && |n2| >= 3
    requires 'a' <= n1[2] <= 'z' && 'a' <= n2[2] <= 'z'
    ensures (n1[2] as int - 'a' as int) / 2 == (n2[2] as int - 'a' as int) / 2 ==> GetIoCtrl(n1) == GetIoCtrl(n2)
    ensures n1[2] <= n2[2] ==> 1 <= GetIoCtrl(n1) <= GetIoCtrl(n2)
  {
  }

  /** `strstr(s, pat) != NULL`: pat occurs in s (the empty pattern always
      does). */
  predicate Contains(s: string, pat: string)
    decreases |s|
  {
    |pat| <= |s| && (s[..|pat|] == pat || Contains(s[1..], pat))
  }

  /** pat occurs in s at offset i. */
  predicate OccursAt(s: string, pat: string, i: int)
  {
    0 <= i <= |s| - |pat| && s[i..i + |pat|] == pat
  }

  /** Contains means an occurrence at some offset, and conversely. */
  lemma {:induction false} ContainsIffOccurs(s: string, pat: string)
    ensures Contains(s, pat) <==> exists i :: OccursAt(s, pat, i)
    decreases |s|
  {
    if |pat| <= |s| && s[..|pat|] != pat {
      ContainsIffOccurs(s[1..], pat);
      if exists i :: OccursAt(s, pat, i) {
        var i :| OccursAt(s, pat, i);
        assert i > 0;
        assert s[1..][i - 1..i - 1 + |pat|] == s[i..i + |pat|];
        assert OccursAt(s[1..], pat, i - 1);
      }
      if Contains(s[1..], pat) {
        var i :| OccursAt(s[1..], pat, i);
        assert s[i + 1..i + 1 + |pat|] == s[1..][i..i + |pat|];
        assert OccursAt(s, pat, i + 1);
      }
    } else if |pat| <= |s| {
      assert OccursAt(s, pat, 0);
    }
  }

  /** A line becomes a partition record unless it is blank or is the header
      line containing "major". */
  predicate KeptLine(line: PartLine)
  {
    !(|line.text| > 0 && line.text[0] == '\n') && !Contains(line.text, "major")
  }

  /** The records the /proc/partitions loop stores: one per kept line, named
      by its token, counters at 0. */
  function Partitions(lines: seq<PartLine>): (ps: seq<PartRec>)
    ensures |ps| <= |lines|
    ensures forall k :: 0 <= k < |ps| ==> ps[k].rwCount == 0 && ps[k].roCount == 0 && !ps[k].assoc
  {
    if |lines| == 0 then []
    else
      var last := lines[|lines| - 1];
      Partitions(lines[..|lines| - 1]) + (if KeptLine(last) then [PartRec(last.token, 0, 0, false)] else [])
  }

  /** Some record of ps is named t. */
  predicate NamedIn(ps: seq<PartRec>, t: string)
  {
    exists k :: 0 <= k < |ps| && ps[k].name == t
  }

  /** Some kept line of lines has token t. */
  predicate KeptToken(lines: seq<PartLine>, t: string)
  {
    exists l :: l in lines && KeptLine(l) && l.token == t
  }

  /** The partition names are exactly the tokens of the kept lines. */
  lemma {:induction false} PartitionsAreKeptLines(lines: seq<PartLine>, t: string)
    ensures NamedIn(Partitions(lines), t) <==> KeptToken(lines, t)
  {
    if |lines| > 0 {
      var init := lines[..|lines| - 1];
      var last := lines[|lines| - 1];
      PartitionsAreKeptLines(init, t);
      assert lines == init + [last];
      var ps := Partitions(lines);
      var pi := Partitions(init);
      assert ps == pi + (if KeptLine(last) then [PartRec(last.token, 0, 0, false)] else []);
      if KeptToken(lines, t) {
        var l :| l in lines && KeptLine(l) && l.token == t;
        if l in init {
          assert KeptToken(init, t);
          var k :| 0 <= k < |pi| && pi[k].name == t;
          assert ps[k] == pi[k];
        } else {
          assert ps[|ps| - 1].name == t;
        }
      }
      if NamedIn(ps, t) {
        var k :| 0 <= k < |ps| && ps[k].name == t;
        if k < |pi| {
          assert ps[k] == pi[k];
          assert NamedIn(pi, t);
          var l :| l in init && KeptLine(l) && l.token == t;
          assert l in lines;
        } else {
          assert last in lines;
        }
      }
    }
  }

  const EMPTY_SLOT: PartRec := PartRec("", 0, 0, false)

  /** The /proc/partitions loop: `partitions[m++]` for every kept line.
      Slots from m on stay NULL. */
  method CollectPartitions(lines: seq<PartLine>) returns (parts: array<PartRec>, m: nat)
    requires |Partitions(lines)| < MAXINDEX
    ensures fresh(parts) && parts.Length == MAXINDEX
    ensures m == |Partitions(lines)| && parts[..m] == Partitions(lines)
    ensures forall k :: m <= k < MAXINDEX ==> parts[k] == EMPTY_SLOT
  {
    parts := new PartRec[MAXINDEX](_ => EMPTY_SLOT);
    m := 0;
    var i := 0;
    while i < |lines|
      invariant 0 <= i <= |lines|
      invariant |Partitions(lines[..i])| <= |Partitions(lines)|
      invariant m == |Partitions(lines[..i])| && parts.Length == MAXINDEX
      invariant parts[..m] == Partitions(lines[..i])
      invariant forall k :: m <= k < MAXINDEX ==> parts[k] == EMPTY_SLOT
    {
      var line := lines[i];
      PartitionsStep(lines, i);
      if |line.text| > 0 && line.text[0] == '\n' {
        i := i + 1;
        continue;
      }
      if !Contains(line.text, "major") {
        parts[m] := PartRec(line.token, 0, 0, false);
        m := m + 1;
      }
      i := i + 1;
    }
    assert lines[..i] == lines;
  }

  /** The records of one more line. */
  lemma PartitionsStep(lines: seq<PartLine>, i: nat)
    requires i < |lines|
    ensures Partitions(lines[..i + 1])
      == Partitions(lines[..i]) + (if KeptLine(lines[i]) then [PartRec(lines[i].token, 0, 0, false)] else [])
    ensures |Partitions(lines[..i + 1])| <= |Partitions(lines)|
  {
    PartitionsGrow(lines, i + 1);
    assert lines[..i + 1][..i] == lines[..i];
  }

  /** More lines never give fewer records. */
  lemma {:induction false} PartitionsGrow(lines: seq<PartLine>, n: nat)
    requires n <= |lines|
    ensures |Partitions(lines[..n])| <= |Partitions(lines)|
    decreases |lines| - n
  {
    if n < |lines| {
      PartitionsGrow(lines, n + 1);
      assert lines[..n + 1][..n] == lines[..n];
    } else {
      assert lines[..n] == lines;
    }
  }

  /** A partition can hold the filesystem: its name has exactly three
      characters and occurs in the filesystem's device name. */
  predicate Matches(p: PartRec, fsName: string)
  {
    |p.name| == 3 && Contains(fsName, p.name)
  }

  /** The first partition from k on that matches the filesystem. */
  function FirstMatchFrom(ps: seq<PartRec>, fsName: string, k: nat): (f: Option<nat>)
    requires k <= |ps|
    ensures f.Some? ==> k <= f.value < |ps| && Matches(ps[f.value], fsName)
    ensures f.Some? ==> forall j :: k <= j < f.value ==> !Matches(ps[j], fsName)
    ensures f.None? ==> forall j :: k <= j < |ps| ==> !Matches(ps[j], fsName)
    decreases |ps| - k
  {
    if k == |ps| then None
    else if Matches(ps[k], fsName) then Some(k)
    else FirstMatchFrom(ps, fsName, k + 1)
  }

  function FirstMatch(ps: seq<PartRec>, fsName: string): Option<nat>
  {
    FirstMatchFrom(ps, fsName, 0)
  }

  /** The matched partition's update: associated, and one more rw (ro)
      filesystem when the options contain "rw" ("ro"). */
  function Bump(p: PartRec, opt: string): PartRec
  {
    p.(assoc := true,
       rwCount := p.rwCount + (if Contains(opt, "rw") then 1 else 0),
       roCount := p.roCount + (if Contains(opt, "ro") then 1 else 0))
  }

  /** Crediting one filesystem: only its first matching partition is
      updated. */
  function Credit(ps: seq<PartRec>, fs: FsRec): seq<PartRec>
  {
    match FirstMatch(ps, fs.fsName)
    case None => ps
    case Some(k) => ps[k := Bump(ps[k], fs.fsOpt)]
  }

  /** The inner `for (k = 0; partitions[k] != NULL; k++)` loop for one
      filesystem: credit the first matching partition and `break`. */
  method CreditFilesystem(parts: array<PartRec>, m: nat, fs: FsRec) returns (found: bool)
    requires m <= parts.Length
    modifies parts
    ensures parts[..m] == Credit(old(parts[..m]), fs)
    ensures parts[m..] == old(parts[m..])
    ensures found <==> FirstMatch(old(parts[..m]), fs.fsName).Some?
  {
    ghost var ps := parts[..m];
    found := false;
    var k := 0;
    while k < m
      invariant 0 <= k <= m
      invariant parts[..] == old(parts[..])
      invariant FirstMatch(ps, fs.fsName) == FirstMatchFrom(ps, fs.fsName, k)
    {
      if |parts[k].name| == 3 {
        if Contains(fs.fsName, parts[k].name) {
          found := true;
          var p := parts[k];
          parts[k] := p.(assoc := true);
          if Contains(fs.fsOpt, "rw") {
            parts[k] := parts[k].(rwCount := parts[k].rwCount + 1);
          }
          if Contains(fs.fsOpt, "ro") {
            parts[k] := parts[k].(roCount := parts[k].roCount + 1);
          }
          assert parts[k] == Bump(p, fs.fsOpt);
          assert parts[..m] == ps[k := Bump(ps[k], fs.fsOpt)];
          return;
        }
      }
      k := k + 1;
    }
  }

  /** Crediting keeps the partition names and number. */
  lemma CreditKeepsNames(ps: seq<PartRec>, fs: FsRec)
    ensures |Credit(ps, fs)| == |ps|
    ensures forall k :: 0 <= k < |ps| ==> Credit(ps, fs)[k].name == ps[k].name
  {
  }

  /** Partitions with the same names match the same filesystems. */
  lemma {:induction false} FirstMatchByNames(ps: seq<PartRec>, qs: seq<PartRec>, fsName: string, k: nat)
    requires |ps| == |qs| && k <= |ps|
    requires forall j :: 0 <= j < |ps| ==> ps[j].name == qs[j].name
    ensures FirstMatchFrom(ps, fsName, k) == FirstMatchFrom(qs, fsName, k)
    decreases |ps| - k
  {
    if k < |ps| {
      FirstMatchByNames(ps, qs, fsName, k + 1);
    }
  }

  /** Exactly the first matching partition changes: it keeps its name,
      becomes associated, and gains one rw (ro) filesystem when the options
      contain "rw" ("ro") and keeps its count otherwise; every other record
      is untouched. */
  lemma CreditChangesFirstMatchOnly(ps: seq<PartRec>, fs: FsRec)
    ensures FirstMatch(ps, fs.fsName).None? ==> Credit(ps, fs) == ps
    ensures FirstMatch(ps, fs.fsName).Some? ==>
      var k := FirstMatch(ps, fs.fsName).value;
      && (forall j :: 0 <= j < |ps| && j != k ==> Credit(ps, fs)[j] == ps[j])
      && Credit(ps, fs)[k].assoc
      && Credit(ps, fs)[k].name == ps[k].name
      && Credit(ps, fs)[k].rwCount == ps[k].rwCount + (if Contains(fs.fsOpt, "rw") then 1 else 0)
      && Credit(ps, fs)[k].roCount == ps[k].roCount + (if Contains(fs.fsOpt, "ro") then 1 else 0)
  {
  }

  /** The write/verify test runs for a filesystem iff it matched a partition
      and its options do not contain "ro". */
  predicate Eligible(ps: seq<PartRec>, fs: FsRec)
  {
    FirstMatch(ps, fs.fsName).Some? && !Contains(fs.fsOpt, "ro")
  }

  /** The options are searched for the substrings "rw" and "ro", not for
      whole options: a read-write filesystem mounted with
      "rw,errors=remount-ro" counts as both rw and ro, and never gets the
      write test. */
  lemma RemountRoCountsBothAndIsNeverWritten(ps: seq<PartRec>, fs: FsRec)
    requires fs.fsOpt == "rw,errors=remount-ro"
    ensures Contains(fs.fsOpt, "rw") && Contains(fs.fsOpt, "ro")
    ensures !Eligible(ps, fs)
  {
    ContainsIffOccurs(fs.fsOpt, "rw");
    ContainsIffOccurs(fs.fsOpt, "ro");
    assert OccursAt(fs.fsOpt, "rw", 0);
    assert OccursAt(fs.fsOpt, "ro", 18);
  }

  /** `strncpy(dst, src, n)` as a C string: at most n characters of src. */
  function StrNCpy(src: string, n: int): (r: string)
    ensures r <= src && (n >= 0 ==> |r| <= n)
    ensures n >= |src| ==> r == src
    ensures 0 <= n < |src| ==> |r| == n
  {
    if n <= 0 then [] else if n >= |src| then src else src[..n]
  }

  /** `strncat(dst, src, n)`: appends at most n characters of src. */
  function StrNCat(dst: string, src: string, n: int): (r: string)
    ensures dst <= r && r[|dst|..] <= src && (n >= 0 ==> |r| <= |dst| + n)
    ensures n >= |src| ==> r == dst + src
  {
    dst + StrNCpy(src, n)
  }

  /** The `mkstemp` template: into `strlen(mnt_pt) + 9` bytes, the last
      forced to NUL, copy the mount point and append "/" and "XXXXXX",
      each bounded by the room left in the first `strlen(mnt_pt) + 8`. The
      template is the mount point followed by "/XXXXXX", and it and its
      NUL fit in the allocation. */
  function Template(mnt: string): (t: string)
    ensures t == mnt + "/XXXXXX"
    ensures |t| + 1 <= |mnt| + 9
  {
    var size := |mnt| + 9 - 1;
    var t0 := StrNCpy(mnt, size);
    var t1 := StrNCat(t0, "/", size - |t0|);
    StrNCat(t1, "XXXXXX", size - |t1|)
  }

  /** The read-back loop: compare each character read with the one written
      at the same position (a character past the end of the written string
      never counts as equal), stop at the first difference, then require as
      many characters read as written. The file passes exactly when it
      reads back the written string. */
  method VerifyReadBack(read: string, written: string) returns (ok: bool)
    ensures ok <==> read == written
  {
    var n := 0;
    var numOfChars := 0;
    while n < |read|
      invariant 0 <= n <= |read| && numOfChars == n
      invariant n <= |written| && read[..n] == written[..n]
    {
      if n >= |written| || read[n] != written[n] {
        return false;
      }
      n := n + 1;
      numOfChars := numOfChars + 1;
    }
    if numOfChars != |written| {
      return false;
    }
    assert read == read[..n] && written == written[..n];
    return true;
  }

  /** What happened to the file of one filesystem's write test: a step from
      `mkstemp` to the re-open failed, or the file read back as `data`. */
  datatype WriteRun = IoFailure | ReadBack(data: string)

  /** A warning for a partition: associated, only read-only filesystems
      credited, not a floppy, SCSI or CD device, on a known IDE
      controller. */
  predicate Warned(p: PartRec)
  {
    && p.assoc && p.rwCount == 0 && p.roCount > 0
    && !Contains(p.name, "fd") && !Contains(p.name, "sd") && !Contains(p.name, "cd")
    && GetIoCtrl(p.name) != 0
  }

  /** A warning as issued: the controller number and the partition name. */
  datatype Warning = Warning(ioCtrl: int, partition: string)

  function Warnings(ps: seq<PartRec>): (ws: seq<Warning>)
    ensures |ws| <= |ps|
  {
    if |ps| == 0 then []
    else
      var last := ps[|ps| - 1];
      Warnings(ps[..|ps| - 1]) + (if Warned(last) then [Warning(GetIoCtrl(last.name), last.name)] else [])
  }

  /** Each warning names a warned partition with its controller, and every
      warned partition gets one. */
  lemma {:induction false} WarningsAreWarnedPartitions(ps: seq<PartRec>)
    ensures forall w :: w in Warnings(ps) ==>
      exists k :: 0 <= k < |ps| && Warned(ps[k]) && w == Warning(GetIoCtrl(ps[k].name), ps[k].name)
    ensures forall k :: 0 <= k < |ps| && Warned(ps[k]) ==> Warning(GetIoCtrl(ps[k].name), ps[k].name) in Warnings(ps)
  {
    if |ps| > 0 {
      var init := ps[..|ps| - 1];
      WarningsAreWarnedPartitions(init);
      forall w | w in Warnings(ps)
        ensures exists k :: 0 <= k < |ps| && Warned(ps[k]) && w == Warning(GetIoCtrl(ps[k].name), ps[k].name)
      {
        if w in Warnings(init) {
          var k :| 0 <= k < |init| && Warned(init[k]) && w == Warning(GetIoCtrl(init[k].name), init[k].name);
          assert ps[k] == init[k];
        } else {
          assert Warned(ps[|ps| - 1]);
        }
      }
      forall k | 0 <= k < |ps| && Warned(ps[k])
        ensures Warning(GetIoCtrl(ps[k].name), ps[k].name) in Warnings(ps)
      {
        if k < |init| {
          assert ps[k] == init[k];
        }
      }
    }
  }

  /** The final warning loop over the first m partitions. */
  method EmitWarnings(parts: array<PartRec>, m: nat) returns (ws: seq<Warning>)
    requires m <= parts.Length
    ensures ws == Warnings(parts[..m])
  {
    ws := [];
    var k := 0;
    while k < m
      invariant 0 <= k <= m
      invariant ws == Warnings(parts[..k])
    {
      assert parts[..k + 1][..k] == parts[..k];
      var p := parts[k];
      if p.assoc && p.rwCount == 0 && p.roCount > 0
        && !Contains(p.name, "fd") && !Contains(p.name, "sd") && !Contains(p.name, "cd")
      {
        var ioCtrl := GetIoCtrl(p.name);
        if ioCtrl != 0 {
          ws := ws + [Warning(ioCtrl, p.name)];
        }
      }
      k := k + 1;
    }
  }

  /** The filesystem loop from the first of `fss` on, with the partitions
      credited so far: None if a write test fails (the test returns -1 at
      once), else the partitions after crediting every filesystem. The
      write runs are used in order, one per eligible filesystem. */
  function DiskFrom(ps: seq<PartRec>, fss: seq<FsRec>, runs: seq<WriteRun>, written: string): Option<seq<PartRec>>
    requires |fss| <= |runs|
    decreases |fss|
  {
    if |fss| == 0 then Some(ps)
    else if Eligible(ps, fss[0]) then
      if runs[0] != ReadBack(written) then None
      else DiskFrom(Credit(ps, fss[0]), fss[1..], runs[1..], written)
    else DiskFrom(Credit(ps, fss[0]), fss[1..], runs, written)
  }

  /** Crediting every filesystem in order. */
  function CreditAll(ps: seq<PartRec>, fss: seq<FsRec>): seq<PartRec>
    decreases |fss|
  {
    if |fss| == 0 then ps else CreditAll(Credit(ps, fss[0]), fss[1..])
  }

  /** How many of the filesystems are eligible (eligibility only looks at
      partition names, which crediting keeps). */
  function NumEligible(ps: seq<PartRec>, fss: seq<FsRec>): (n: nat)
    ensures n <= |fss|
    decreases |fss|
  {
    if |fss| == 0 then 0 else (if Eligible(ps, fss[0]) then 1 else 0) + NumEligible(ps, fss[1..])
  }

  /** Eligibility does not change when a filesystem is credited. */
  lemma EligibleAfterCredit(ps: seq<PartRec>, fs: FsRec, fs': FsRec)
    ensures Eligible(Credit(ps, fs), fs') == Eligible(ps, fs')
  {
    CreditKeepsNames(ps, fs);
    FirstMatchByNames(Credit(ps, fs), ps, fs'.fsName, 0);
  }

  lemma {:induction false} NumEligibleAfterCredit(ps: seq<PartRec>, fs: FsRec, fss: seq<FsRec>)
    ensures NumEligible(Credit(ps, fs), fss) == NumEligible(ps, fss)
    decreases |fss|
  {
    if |fss| > 0 {
      EligibleAfterCredit(ps, fs, fss[0]);
      NumEligibleAfterCredit(ps, fs, fss[1..]);
    }
  }

  /** The filesystem loop completes exactly when the file of every eligible
      filesystem read back the written string, and then the partitions are
      credited with every filesystem. */
  lemma {:induction false} DiskPassesIffAllReadBack(ps: seq<PartRec>, fss: seq<FsRec>, runs: seq<WriteRun>, written: string)
    requires |fss| <= |runs|
    ensures DiskFrom(ps, fss, runs, written).Some? <==>
      forall j :: 0 <= j < NumEligible(ps, fss) ==> runs[j] == ReadBack(written)
    ensures DiskFrom(ps, fss, runs, written).Some? ==> DiskFrom(ps, fss, runs, written).value == CreditAll(ps, fss)
    decreases |fss|
  {
    if |fss| > 0 {
      var ps' := Credit(ps, fss[0]);
      NumEligibleAfterCredit(ps, fss[0], fss[1..]);
      if Eligible(ps, fss[0]) {
        DiskPassesIffAllReadBack(ps', fss[1..], runs[1..], written);
        if runs[0] == ReadBack(written) {
          forall j | 0 <= j < NumEligible(ps, fss) && j > 0
            ensures runs[j] == ReadBack(written) <==> runs[1..][j - 1] == ReadBack(written)
          {
          }
        }
      } else {
        DiskPassesIffAllReadBack(ps', fss[1..], runs, written);
      }
    }
  }

  /** The outcome of the disk test and the warnings it issued. */
  datatype DiskResult = DiskResult(end: TestEnd, warnings: seq<Warning>)

  /** `iodisktest`. `partLines` are the lines read from /proc/partitions
      (None: it could not be opened), `mtab` the entries of /etc/mtab (None:
      it could not be opened), `written` the random string written to every
      test file and `runs` what each successive write test saw. A failed
      step or a mismatching read-back returns -1 at once; otherwise the
      warnings are issued and the test returns 0. */
  method IoDiskTest(partLines: Option<seq<PartLine>>, mtab: Option<seq<FsRec>>, written: string, runs: seq<WriteRun>)
    returns (r: DiskResult)
    requires partLines.Some? ==> |Partitions(partLines.value)| < MAXINDEX
    requires mtab.Some? ==> |mtab.value| < MAXINDEX && |mtab.value| <= |runs|
    ensures partLines.None? || mtab.None? ==> r == DiskResult(Returned(MINUS_ONE), [])
    ensures partLines.Some? && mtab.Some? ==>
      match DiskFrom(Partitions(partLines.value), mtab.value, runs, written)
      case None => r == DiskResult(Returned(MINUS_ONE), [])
      case Some(final) => r == DiskResult(Returned(ZERO), Warnings(final))
  {
    if partLines.None? {
      return DiskResult(Returned(MINUS_ONE), []);
    }
    var parts, m := CollectPartitions(partLines.value);
    if mtab.None? {
      return DiskResult(Returned(MINUS_ONE), []);
    }
    var fss := mtab.value;
    ghost var spec := DiskFrom(parts[..m], fss, runs, written);
    var used := 0;
    var l := 0;
    while l < |fss|
      invariant 0 <= l <= |fss| && 0 <= used <= |runs| && |fss| - l <= |runs| - used
      invariant m <= parts.Length
      invariant spec == DiskFrom(parts[..m], fss[l..], runs[used..], written)
    {
      var fs := fss[l];
      ghost var before := parts[..m];
      assert fss[l..][1..] == fss[l + 1..];
      var found := CreditFilesystem(parts, m, fs);
      if !Contains(fs.fsOpt, "ro") {
        if found {
          var template := Template(fs.mntPt);
          var run := runs[used];
          assert runs[used..][1..] == runs[used + 1..];
          used := used + 1;
          if run.IoFailure? {
            return DiskResult(Returned(MINUS_ONE), []);
          }
          var ok := VerifyReadBack(run.data, written);
          if !ok {
            return DiskResult(Returned(MINUS_ONE), []);
          }
        }
      }
      l := l + 1;
    }
    assert fss[l..] == [];
    var ws := EmitWarnings(parts, m);
    return DiskResult(Returned(ZERO), ws);
  }
}
