/**
  ZipInstaller::extractToStaging: which entries an archive may have, and the counting of bytes
  while they are decompressed. The decompressor and the disk are parameters: whatever they do,
  the limits hold after every single write.
 */
module ZipExtract {
  import Crc32

  datatype Limits = Limits(total: nat, entry: nat, count: nat, ratio: nat)

  datatype Stat = Stat(name: string, isDirectory: bool, encrypted: bool, supported: bool, method_: nat,
                       externalAttr: nat, uncompSize: nat, compSize: nat, crc32: bv32)

  // ---------- names ----------

  predicate Separator(c: char) { c == '/' || c == '\\' }

  /** The pieces of a path between separators. */
  function Segments(s: string): (r: seq<string>)
    ensures |r| >= 1
  {
    if s == "" then [""]
    else
      var n := |s| - 1;
      var rest := Segments(s[..n]);
      if Separator(s[n]) then rest + [""] else rest[|rest| - 1 := rest[|rest| - 1] + [s[n]]]
  }

  /** isSafeRelativePath. Empty pieces are skipped, which never makes a difference. */
  predicate SafePath(s: string) {
    && s != ""
    && !Separator(s[0])
    && !(|s| >= 2 && s[1] == ':')
    && forall seg <- Segments(s) :: seg != ".."
  }

  datatype Place = Outside | Inside(dir: seq<string>)

  /** Where a path leads, one piece at a time, from a directory it must not leave. */
  function Walk(dir: seq<string>, segs: seq<string>): Place
    decreases |segs|
  {
    if segs == [] then Inside(dir)
    else if segs[0] == "" || segs[0] == "." then Walk(dir, segs[1..])
    else if segs[0] == ".." then (if dir == [] then Outside else Walk(dir[..|dir| - 1], segs[1..]))
    else Walk(dir + [segs[0]], segs[1..])
  }

  /** A safe path leads to somewhere at or below where it starts, at every step. */
  lemma {:induction false} SafeStays(dir: seq<string>, segs: seq<string>, k: nat)
    requires k <= |segs| && forall seg <- segs :: seg != ".."
    ensures Walk(dir, segs[..k]).Inside? && dir <= Walk(dir, segs[..k]).dir
    decreases k
  {
    if k > 0 {
      assert segs[..k][0] == segs[0] && segs[0] in segs;
      assert segs[..k][1..] == segs[1..][..k - 1];
      assert forall seg <- segs[1..] :: seg in segs;
      SafeStays(if segs[0] == "" || segs[0] == "." then dir else dir + [segs[0]], segs[1..], k - 1);
    }
  }

  /** A name that says itself where it begins: at the root of a file system, or at a drive. */
  predicate Rooted(name: string) {
    name != "" && (name[0] == '/' || name[0] == '\\' || (|name| >= 2 && name[1] == ':'))
  }

  /** Where QDir::filePath leads: from the directory on, unless the name says where it begins. */
  function FilePath(staging: seq<string>, name: string): Place {
    Walk(if Rooted(name) then [] else staging, Segments(name))
  }

  /** An entry whose path is safe is extracted below the staging directory, wherever that is. */
  lemma SafeInside(name: string, staging: seq<string>)
    requires SafePath(name)
    ensures FilePath(staging, name).Inside? && staging <= FilePath(staging, name).dir
  {
    var segs := Segments(name);
    SafeStays(staging, segs, |segs|);
    assert segs[..|segs|] == segs;
  }

  // ---------- which names are safe, character by character ----------

  /** From i to j there is a piece: no separator within, and one, or nothing at all, on either side. */
  ghost predicate PieceAt(s: string, i: nat, j: nat) {
    && i <= j <= |s| && (forall k :: i <= k < j ==> !Separator(s[k]))
    && (i == 0 || Separator(s[i - 1])) && (j == |s| || Separator(s[j]))
  }

  /** A piece with this text that has a separator behind it. */
  ghost predicate Closed(s: string, x: string) {
    exists i: nat, j: nat :: i <= j < |s| && PieceAt(s, i, j) && s[i..j] == x
  }

  lemma OnePiece(s: string, i: nat, i': nat, j: nat)
    requires PieceAt(s, i, j) && PieceAt(s, i', j)
    ensures i == i'
  {
  }

  lemma PieceInside(s: string, c: char, i: nat, j: nat)
    requires j < |s|
    ensures PieceAt(s + [c], i, j) <==> PieceAt(s, i, j)
    ensures i <= j ==> (s + [c])[i..j] == s[i..j]
  {
    assert forall k :: 0 <= k < |s| ==> (s + [c])[k] == s[k];
  }

  lemma PieceAtEnd(s: string, c: char, i: nat)
    ensures PieceAt(s + [c], i, |s|) <==> PieceAt(s, i, |s|) && Separator(c)
  {
    assert forall k :: 0 <= k < |s| ==> (s + [c])[k] == s[k];
  }

  /** The pieces of a path are those between its separators; the last one is given by where it begins. */
  lemma {:induction false} SegmentsExact(s: string) returns (last: nat)
    ensures PieceAt(s, last, |s|) && Segments(s)[|Segments(s)| - 1] == s[last..]
    ensures forall x: string :: x in Segments(s)[..|Segments(s)| - 1] <==> Closed(s, x)
  {
    if s == "" {
      last := 0;
    } else {
      var n := |s| - 1;
      var t, c := s[..n], s[n];
      var at := SegmentsExact(t);
      assert s == t + [c];
      SegmentsNext(t, c, at);
      last := if Separator(c) then n + 1 else at;
      if !Separator(c) { assert s[last..] == t[at..] + [c]; }
    }
  }

  lemma SegmentsNext(t: string, c: char, last: nat)
    requires PieceAt(t, last, |t|) && Segments(t)[|Segments(t)| - 1] == t[last..]
    requires forall x: string :: x in Segments(t)[..|Segments(t)| - 1] <==> Closed(t, x)
    ensures forall x: string :: x in Segments(t + [c])[..|Segments(t + [c])| - 1] <==> Closed(t + [c], x)
  {
    var s := t + [c];
    assert s[..|t|] == t && s[|t|] == c;
    var before, rest := Segments(t)[..|Segments(t)| - 1], Segments(t);
    if Separator(c) {
      assert Segments(s)[..|Segments(s)| - 1] == rest == before + [t[last..]];
    } else {
      assert Segments(s)[..|Segments(s)| - 1] == before;
    }
    forall x: string ensures Closed(s, x) <==> Closed(t, x) || (Separator(c) && x == t[last..]) {
      ClosedNext(t, c, last, x);
    }
  }

  lemma ClosedNext(t: string, c: char, last: nat, x: string)
    requires PieceAt(t, last, |t|)
    ensures Closed(t + [c], x) <==> Closed(t, x) || (Separator(c) && x == t[last..])
  {
    hide PieceAt;
    var s := t + [c];
    PieceAtEnd(t, c, last);
    PieceBounds(t, last, |t|);
    assert s[last..|t|] == t[last..];
    if Closed(s, x) {
      var i: nat, j: nat :| i <= j < |s| && PieceAt(s, i, j) && s[i..j] == x;
      if j == |t| {
        PieceAtEnd(t, c, i);
        OnePiece(t, i, last, |t|);
      } else {
        PieceInside(t, c, i, j);
      }
    }
    if Closed(t, x) {
      var i: nat, j: nat :| i <= j < |t| && PieceAt(t, i, j) && t[i..j] == x;
      PieceInside(t, c, i, j);
    }
  }

  lemma PieceBounds(s: string, i: nat, j: nat)
    requires PieceAt(s, i, j)
    ensures i <= j <= |s|
  {
  }

  /** Two dots that make up a whole piece. */
  ghost predicate UpAt(s: string, i: nat) {
    && i + 2 <= |s| && s[i] == '.' && s[i + 1] == '.'
    && (i == 0 || s[i - 1] == '/' || s[i - 1] == '\\')
    && (i + 2 == |s| || s[i + 2] == '/' || s[i + 2] == '\\')
  }

  lemma UpIsPiece(s: string, i: nat)
    ensures UpAt(s, i) <==> PieceAt(s, i, i + 2) && s[i..i + 2] == ".."
  {
    if PieceAt(s, i, i + 2) && s[i..i + 2] == ".." {
      assert s[i..i + 2][0] == '.' && s[i..i + 2][1] == '.';
    }
  }

  lemma UpFound(s: string)
    requires ".." in Segments(s)
    ensures exists i: nat :: UpAt(s, i)
  {
    hide UpAt, PieceAt, Closed, Segments;
    var last := SegmentsExact(s);
    var segs := Segments(s);
    PieceBounds(s, last, |s|);
    assert segs == segs[..|segs| - 1] + [segs[|segs| - 1]];
    if Closed(s, "..") {
      UpClosed(s);
    } else {
      assert s[last..] == s[last..|s|];
      UpIsPiece(s, last);
    }
  }

  lemma UpClosed(s: string)
    requires Closed(s, "..")
    ensures exists i: nat :: UpAt(s, i)
  {
    hide UpAt, PieceAt;
    var i: nat, j: nat :| i <= j < |s| && PieceAt(s, i, j) && s[i..j] == "..";
    assert j == i + 2;
    UpIsPiece(s, i);
  }

  lemma UpIsFound(s: string, i: nat)
    requires UpAt(s, i)
    ensures ".." in Segments(s)
  {
    hide UpAt, PieceAt;
    var last := SegmentsExact(s);
    PieceBounds(s, last, |s|);
    UpIsPiece(s, i);
    PieceBounds(s, i, i + 2);
    if i + 2 == |s| {
      OnePiece(s, i, last, |s|);
      assert s[last..] == s[i..i + 2];
    } else {
      assert Closed(s, "..");
    }
  }

  /** Which names are safe, exactly. */
  lemma SafeExactly(s: string)
    ensures SafePath(s) <==>
        && s != "" && s[0] != '/' && s[0] != '\\' && !(|s| >= 2 && s[1] == ':')
        && forall i: nat :: !UpAt(s, i)
  {
    hide UpAt;
    if ".." in Segments(s) { UpFound(s); }
    if i: nat :| UpAt(s, i) { UpIsFound(s, i); }
  }

  /** isSymlinkEntry: the Unix file type in the upper half of the attributes. */
  predicate Symlink(externalAttr: nat) {
    externalAttr / 0x1_0000 / 0x1000 % 16 == 10
  }

  // ---------- checks on the headers ----------

  /** An entry that passes every check made before anything is extracted. */
  predicate Acceptable(limits: Limits, e: Stat) {
    && !e.encrypted && e.supported && SafePath(e.name) && !Symlink(e.externalAttr)
    && e.uncompSize <= limits.entry
    && (e.uncompSize > 0 ==> e.compSize > 0)
    && (e.compSize > 0 ==> e.uncompSize / e.compSize <= limits.ratio)
  }

  /**
    The same with every check written out: the name character by character, the file type as a range
    of the attributes, and the ratio as a product.
   */
  lemma AcceptableExactly(limits: Limits, e: Stat)
    ensures Acceptable(limits, e) <==>
        && !e.encrypted && e.supported
        && (e.name != "" && e.name[0] != '/' && e.name[0] != '\\' && !(|e.name| >= 2 && e.name[1] == ':')
            && forall i: nat :: !UpAt(e.name, i))
        && !(0xA000_0000 <= e.externalAttr % 0x1_0000_0000 < 0xB000_0000)
        && e.uncompSize <= limits.entry
        && (if e.compSize == 0 then e.uncompSize == 0 else e.uncompSize < (limits.ratio + 1) * e.compSize)
  {
    hide SafePath, UpAt;
    SafeExactly(e.name);
    SymlinkRange(e.externalAttr);
    if e.compSize > 0 { RatioBound(e.uncompSize, e.compSize, limits.ratio); }
  }

  lemma SymlinkRange(a: nat)
    ensures Symlink(a) <==> 0xA000_0000 <= a % 0x1_0000_0000 < 0xB000_0000
  {
    var b, hi := a % 0x1_0000_0000, a / 0x1_0000_0000;
    assert a / 0x1000_0000 == b / 0x1000_0000 + 16 * hi;
    assert a / 0x1_0000 / 0x1000 == a / 0x1000_0000;
  }

  lemma RatioBound(n: nat, c: nat, r: nat)
    requires c > 0
    ensures n / c <= r <==> n < (r + 1) * c
  {
    var q := n / c;
    assert n == q * c + n % c;
    if q <= r { assert (r - q) * c >= 0; } else { assert (q - r - 1) * c >= 0; }
  }

  // ---------- extraction ----------

  datatype TinflStatus = TinflDone | TinflFailed | NeedsInput | HasOutput

  /** One round of the extraction loop: what reading, decompressing and writing did. */
  datatype Step = Step(readOk: bool, status: TinflStatus, out: seq<bv8>, written: nat)

  /** Everything some rounds hand over. */
  function Output(steps: seq<Step>): seq<bv8> {
    if steps == [] then [] else Output(steps[..|steps| - 1]) + steps[|steps| - 1].out
  }

  /** A round that reads what it wants, and whose output is written. */
  predicate Smooth(step: Step) {
    step.readOk && |step.out| <= step.written
  }

  /** The decompressor wants to go on until the n-th round, and then is done. */
  ghost predicate Finished(steps: seq<Step>, n: nat) {
    && 0 < n <= |steps| && (forall k :: 0 <= k < n ==> Smooth(steps[k]))
    && (forall k :: 0 <= k < n - 1 ==> steps[k].status == NeedsInput || steps[k].status == HasOutput)
    && steps[n - 1].status == TinflDone
  }

  /** A stored entry arrives in n pieces of 64 KiB, the last of which may be shorter. */
  ghost predicate Copied(size: nat, steps: seq<Step>, n: nat) {
    && n <= |steps| && n == (size + 0xFFFF) / 0x1_0000
    && forall k :: 0 <= k < n ==>
        Smooth(steps[k]) && |steps[k].out| == if k < n - 1 then 0x1_0000 else size - 0x1_0000 * (n - 1)
  }

  /** All of an entry has been handed over after n rounds. */
  ghost predicate Ends(e: Stat, steps: seq<Step>, n: nat) {
    n <= |steps| && if e.method_ == 0 then Copied(e.compSize, steps, n) else Finished(steps, n)
  }

  /** So many bytes more stay within both limits. */
  predicate Room(limits: Limits, before: nat, size: nat) {
    size <= limits.entry && before + size <= limits.total
  }

  /**
    What reading, decompressing and writing do makes a good entry of data: all of it is handed over
    and written, it has the declared size and checksum, and it stays within the limits, when before
    it so many bytes have been written.
   */
  ghost predicate GoodEntry(limits: Limits, before: nat, e: Stat, headerOk: bool, steps: seq<Step>, data: seq<bv8>) {
    if e.isDirectory || e.compSize == 0 then data == []
    else
      && headerOk
      && (exists n: nat :: Ends(e, steps, n) && data == Output(steps[..n]))
      && |data| == e.uncompSize && Crc32.Crc(0, data) == e.crc32 && Room(limits, before, |data|)
  }

  function TotalSize(files: seq<seq<bv8>>): nat {
    if files == [] then 0 else TotalSize(files[..|files| - 1]) + |files[|files| - 1]|
  }

  /** What the directory of an archive declares its files to add up to. */
  function Declared(entries: seq<Stat>): nat {
    if entries == [] then 0
    else Declared(entries[..|entries| - 1]) + if entries[|entries| - 1].isDirectory then 0
        else entries[|entries| - 1].uncompSize
  }

  /** The entries a file is written for, in order. */
  function Files(entries: seq<Stat>): seq<Stat> {
    if entries == [] then []
    else Files(entries[..|entries| - 1]) + if entries[|entries| - 1].isDirectory then [] else [entries[|entries| - 1]]
  }

  /**
    A file has the size its entry declares, and the checksum; that of an entry without compressed
    data is not looked at.
   */
  ghost predicate AsDeclared(f: seq<bv8>, e: Stat) {
    |f| == e.uncompSize && (e.compSize > 0 ==> Crc32.Crc(0, f) == e.crc32)
  }

  ghost predicate AllAsDeclared(files: seq<seq<bv8>>, entries: seq<Stat>) {
    |files| == |entries| && forall k :: 0 <= k < |files| ==> AsDeclared(files[k], entries[k])
  }

  /** The state of an extraction: LiveExtractContext, and what is on the disk. */
  class Extraction {
    const limits: Limits
    var entryBytes: nat              // entryBytesSoFar
    var total: nat                   // liveTotalBytes
    var limitExceeded: bool
    var files: seq<seq<bv8>>         // what was written, entry by entry (a name used twice is one file on disk)
    var dest: seq<bv8>               // the file being written
    ghost var sizes: seq<(nat, nat)> // after every write: the size of the file, and of everything

    /** The limits held after every write there has been, and hold now. */
    ghost predicate Within()
      reads this
    {
      && |dest| <= limits.entry && TotalSize(files) + |dest| <= limits.total
      && (forall f <- files :: |f| <= limits.entry)
      && (forall p <- sizes :: p.0 <= limits.entry && p.1 <= limits.total)
    }

    /** The counters agree with what is on the disk. */
    ghost predicate Exact()
      reads this
    {
      entryBytes == |dest| && total == TotalSize(files) + |dest|
    }

    constructor (limits: Limits)
      ensures Within() && Exact() && files == [] && dest == [] && total == 0 && !limitExceeded && this.limits == limits
          && sizes == []
    {
      this.limits := limits;
      entryBytes, total, limitExceeded, files, dest, sizes := 0, 0, false, [], [], [];
    }

    /** Opening the next file. */
    method Open()
      requires Within() && total == TotalSize(files) && dest == []
      modifies this`entryBytes, this`limitExceeded
      ensures Within() && Exact() && !limitExceeded
    {
      entryBytes, limitExceeded := 0, false;
    }

    /** Closing it. */
    method Close()
      requires Within() && Exact()
      modifies this`files, this`dest
      ensures Within() && files == old(files) + [old(dest)] && dest == [] && total == TotalSize(files)
    {
      assert (files + [dest])[..|files|] == files;
      files, dest := files + [dest], [];
    }

    /** liveExtractWriteCallback: count first, then write, and nothing is written past a limit. */
    method WriteCallback(chunk: seq<bv8>, written: nat) returns (n: nat)
      requires Within() && Exact() && !limitExceeded && chunk != []
      modifies this
      ensures Within() && files == old(files) && (n == 0 || n == |chunk|)
      ensures n == |chunk| ==> Exact() && dest == old(dest) + chunk
      ensures n == |chunk| <==>
              |old(dest)| + |chunk| <= limits.entry && old(total) + |chunk| <= limits.total
              && |chunk| <= written
      ensures entryBytes == old(entryBytes) + |chunk| && total == old(total) + |chunk|
      ensures limitExceeded <==> |old(dest)| + |chunk| > limits.entry || old(total) + |chunk| > limits.total
    {
      entryBytes := entryBytes + |chunk|;
      total := total + |chunk|;
      if entryBytes > limits.entry || total > limits.total {
        limitExceeded := true;
        return 0;
      }
      var w := if written < |chunk| then written else |chunk|;
      dest := dest + chunk[..w];
      sizes := sizes + [(|dest|, TotalSize(files) + |dest|)];
      if w != |chunk| {
        limitExceeded := false;
        return 0;
      }
      assert chunk[..w] == chunk;
      return |chunk|;
    }

    /** The file being written is exactly what has been handed over so far, and its checksum is known. */
    ghost predicate Going(ofs: nat, crc: bv32)
      reads this
    {
      Within() && Exact() && !limitExceeded && ofs == |dest| && crc == Crc32.Crc(0, dest)
    }

    /** One chunk: its bytes to the callback, and into the checksum. */
    method Chunk(chunk: seq<bv8>, written: nat, ofs: nat, crc: bv32) returns (ok: bool, ofs': nat, crc': bv32)
      requires Going(ofs, crc) && chunk != []
      modifies this
      ensures Within() && files == old(files) && (ok ==> Going(ofs', crc') && dest == old(dest) + chunk)
      ensures ok <==> |chunk| <= written && Room(limits, TotalSize(files), |old(dest) + chunk|)
      ensures !ok && limitExceeded ==> entryBytes > limits.entry || total > limits.total
    {
      hide Crc32.Crc;
      Crc32.CrcAppend(0, dest, chunk);
      var n := WriteCallback(chunk, written);
      ok := n == |chunk|;
      crc' := Crc32.Crc32(crc, chunk);
      ofs' := ofs + |chunk|;
    }

    /** A stored entry is copied in pieces of up to 64 KiB: all of them, or not all arrive or fit. */
    method CopyStored(e: Stat, steps: seq<Step>) returns (ok: bool, ofs: nat, crc: bv32)
      requires Going(0, 0)
      modifies this
      ensures Within() && files == old(files) && (ok ==> Going(ofs, crc))
      ensures ok ==> exists n: nat :: Copied(e.compSize, steps, n) && dest == Output(steps[..n])
      ensures !ok ==> forall n: nat :: Copied(e.compSize, steps, n) ==>
                        !Room(limits, TotalSize(files), |Output(steps[..n])|)
      ensures !ok && limitExceeded ==> entryBytes > limits.entry || total > limits.total
    {
      hide Crc32.Crc, Room, Output;
      ok, ofs, crc := true, 0, 0;
      var remaining, k := e.compSize, 0;
      NothingOut(steps);
      while remaining > 0
        invariant Going(ofs, crc) && files == old(files) && k <= |steps| && dest == Output(steps[..k]) && ok
        invariant remaining == if 0x1_0000 * k <= e.compSize then e.compSize - 0x1_0000 * k else 0
        invariant remaining == 0 ==> k == (e.compSize + 0xFFFF) / 0x1_0000
        invariant forall j :: 0 <= j < k ==>
            Smooth(steps[j])
            && |steps[j].out| == if 0x1_0000 * (j + 1) <= e.compSize then 0x1_0000 else e.compSize - 0x1_0000 * j
      {
        var avail := if remaining < 0x1_0000 then remaining else 0x1_0000;
        if k == |steps| || !steps[k].readOk || |steps[k].out| != avail {
          NotCopied(e.compSize, steps, k, avail);
          return false, ofs, crc;
        }
        OutputNext(steps, k);
        ok, ofs, crc := Chunk(steps[k].out, steps[k].written, ofs, crc);
        if !ok {
          NoRoom(limits, TotalSize(files), steps, k);
          return;
        }
        remaining, k := remaining - avail, k + 1;
      }
    }

    /** A compressed entry: whatever the decompressor produces, round after round. */
    method Inflate(e: Stat, steps: seq<Step>) returns (ok: bool, ofs: nat, crc: bv32)
      requires Going(0, 0)
      modifies this
      ensures Within() && files == old(files) && (ok ==> Going(ofs, crc))
      ensures ok ==> exists n: nat :: Finished(steps, n) && dest == Output(steps[..n])
      ensures !ok ==> forall n: nat :: Finished(steps, n) ==>
                        |Output(steps[..n])| > e.uncompSize
                        || !Room(limits, TotalSize(files), |Output(steps[..n])|)
      ensures !ok && limitExceeded ==> entryBytes > limits.entry || total > limits.total
    {
      hide Crc32.Crc, Room, Output;
      ok, ofs, crc := false, 0, 0;
      var k := 0;
      NothingOut(steps);
      while k < |steps|
        invariant Going(ofs, crc) && files == old(files) && k <= |steps| && dest == Output(steps[..k])
        invariant forall j :: 0 <= j < k ==>
            Smooth(steps[j]) && (steps[j].status == NeedsInput || steps[j].status == HasOutput)
      {
        var step := steps[k];
        if !step.readOk {
          return false, ofs, crc;
        }
        OutputNext(steps, k);
        if step.out != [] {
          ok, ofs, crc := Chunk(step.out, step.written, ofs, crc);
          if !ok {
            NoRoom(limits, TotalSize(files), steps, k);
            return;
          }
          if ofs > e.uncompSize {
            forall n: nat | Finished(steps, n) ensures |Output(steps[..n])| > e.uncompSize {
              OutputGrows(steps, k + 1, n);
            }
            return false, ofs, crc;
          }
        }
        if !step.status.NeedsInput? && !step.status.HasOutput? {
          assert step.status.TinflDone? ==> Finished(steps, k + 1);
          return step.status.TinflDone?, ofs, crc;
        }
        k := k + 1;
      }
      ok := false;
    }

    /**
      mz_zip_reader_extract_to_callback: it succeeds exactly on a good entry, and then the file is
      what was handed over.
     */
    method Extract(e: Stat, headerOk: bool, steps: seq<Step>) returns (ok: bool)
      requires Within() && Exact() && dest == [] && !limitExceeded
      modifies this
      ensures Within() && files == old(files)
      ensures ok <==> exists data :: GoodEntry(limits, old(total), e, headerOk, steps, data)
      ensures ok ==> GoodEntry(limits, old(total), e, headerOk, steps, dest)
      ensures ok ==> Exact()
      ensures ok && (e.isDirectory || e.compSize == 0) ==> dest == []
      ensures ok && !(e.isDirectory || e.compSize == 0) ==> |dest| == e.uncompSize && Crc32.Crc(0, dest) == e.crc32
      ensures !ok && limitExceeded ==> entryBytes > limits.entry || total > limits.total
    {
      if e.isDirectory || e.compSize == 0 {
        assert GoodEntry(limits, total, e, headerOk, steps, dest);
        return true;
      }
      if !headerOk {
        return false;
      }
      hide Crc32.Crc, Output, Finished, Copied;
      NoBytesCrc();
      var ofs, crc;
      if e.method_ == 0 {
        ok, ofs, crc := CopyStored(e, steps);
      } else {
        ok, ofs, crc := Inflate(e, steps);
      }
      if ok {
        ghost var n: nat :| Ends(e, steps, n) && dest == Output(steps[..n]);
        OnlyGood(limits, old(total), e, headerOk, steps, n);
      } else {
        NoneGood(limits, old(total), e, headerOk, steps);
      }
      if ok && (ofs != e.uncompSize || crc != e.crc32) {
        ok := false;
      }
    }

    /** A failure removes the staging directory. */
    method Clean()
      requires Within()
      modifies this`files, this`dest
      ensures Within() && files == [] && dest == []
    {
      files, dest := [], [];
    }
  }

  lemma NothingOut(steps: seq<Step>)
    ensures Output(steps[..0]) == []
  {
  }

  lemma OutputNext(steps: seq<Step>, k: nat)
    requires k < |steps|
    ensures Output(steps[..k + 1]) == Output(steps[..k]) + steps[k].out
  {
    assert steps[..k + 1][..k] == steps[..k];
  }

  lemma {:induction false} OutputGrows(steps: seq<Step>, k: nat, n: nat)
    requires k <= n <= |steps|
    ensures |Output(steps[..k])| <= |Output(steps[..n])|
  {
    if k < n {
      OutputGrows(steps, k, n - 1);
      OutputNext(steps, n - 1);
    }
  }

  /** What does not fit after some rounds does not fit after more of them. */
  lemma NoRoom(limits: Limits, before: nat, steps: seq<Step>, k: nat)
    requires k < |steps|
    requires !(|steps[k].out| <= steps[k].written && Room(limits, before, |Output(steps[..k + 1])|))
    ensures forall n: nat :: k < n <= |steps| && Smooth(steps[k]) ==> !Room(limits, before, |Output(steps[..n])|)
  {
    forall n: nat | k < n <= |steps| && Smooth(steps[k]) ensures !Room(limits, before, |Output(steps[..n])|) {
      OutputGrows(steps, k + 1, n);
    }
  }

  lemma OneEnd(e: Stat, steps: seq<Step>, m: nat, n: nat)
    requires Ends(e, steps, m) && Ends(e, steps, n)
    ensures m == n
  {
  }

  lemma OnlyGood(limits: Limits, before: nat, e: Stat, headerOk: bool, steps: seq<Step>, n: nat)
    requires !e.isDirectory && e.compSize > 0 && headerOk && Ends(e, steps, n)
    ensures forall data :: GoodEntry(limits, before, e, headerOk, steps, data) <==>
              && data == Output(steps[..n]) && |data| == e.uncompSize && Crc32.Crc(0, data) == e.crc32
              && Room(limits, before, |data|)
  {
    hide Crc32.Crc, Output, Ends, Room;
    forall m: nat | Ends(e, steps, m) ensures m == n { OneEnd(e, steps, m, n); }
  }

  lemma NoneGood(limits: Limits, before: nat, e: Stat, headerOk: bool, steps: seq<Step>)
    requires !e.isDirectory && e.compSize > 0
    requires forall n: nat :: Ends(e, steps, n) ==>
               |Output(steps[..n])| > e.uncompSize || !Room(limits, before, |Output(steps[..n])|)
    ensures forall data :: !GoodEntry(limits, before, e, headerOk, steps, data)
  {
    hide Crc32.Crc, Output, Ends, Room;
  }

  /** With a piece missing or of the wrong size the entry does not arrive. */
  lemma NotCopied(size: nat, steps: seq<Step>, k: nat, avail: nat)
    requires 0x1_0000 * k < size && avail == if size - 0x1_0000 * k < 0x1_0000 then size - 0x1_0000 * k else 0x1_0000
    requires k <= |steps| && (k == |steps| || !steps[k].readOk || |steps[k].out| != avail)
    ensures forall n: nat :: !Copied(size, steps, n)
  {
  }

  lemma NoBytesCrc()
    ensures Crc32.Crc(0, []) == 0
  {
    hide Crc32.Not;
    assert Crc32.FeedAll(Crc32.Not(0), []) == Crc32.Not(0);
    Crc32.NotTwice(0);
  }

  // ---------- the whole archive ----------

  /** An entry, and what the file system and the archive do when it is extracted. */
  datatype Job = Job(stat: Stat, statOk: bool, dirOk: bool, openOk: bool, headerOk: bool, steps: seq<Step>)

  datatype Outcome = Staged | TooManyEntries | Unreadable | Encrypted | Unsupported | UnsafePath | SymlinkEntry
    | EntryTooLarge | NoCompressedBytes | RatioTooHigh | DiskError | LimitExceeded | ExtractFailed

  function Stats(jobs: seq<Job>): seq<Stat> {
    if jobs == [] then [] else Stats(jobs[..|jobs| - 1]) + [jobs[|jobs| - 1].stat]
  }

  /** The checks on one header, in order. */
  method CheckEntry(limits: Limits, job: Job) returns (r: Outcome)
    ensures (r.Staged? <==> job.statOk && Acceptable(limits, job.stat)) && !r.LimitExceeded?
    ensures r.Unreadable? <==> !job.statOk
    ensures r.Encrypted? <==> job.statOk && job.stat.encrypted
    ensures r.Unsupported? <==> job.statOk && !job.stat.encrypted && !job.stat.supported
    ensures r.UnsafePath? <==> job.statOk && !job.stat.encrypted && job.stat.supported && !SafePath(job.stat.name)
    ensures r.SymlinkEntry? ==> Symlink(job.stat.externalAttr)
    ensures r.EntryTooLarge? ==> job.stat.uncompSize > limits.entry
    ensures r.NoCompressedBytes? ==> job.stat.uncompSize > 0 && job.stat.compSize == 0
    ensures r.RatioTooHigh? ==> job.stat.compSize > 0 && job.stat.uncompSize / job.stat.compSize > limits.ratio
  {
    var e := job.stat;
    if !job.statOk { return Unreadable; }
    if e.encrypted { return Encrypted; }
    if !e.supported { return Unsupported; }
    if !SafePath(e.name) { return UnsafePath; }
    if Symlink(e.externalAttr) { return SymlinkEntry; }
    if e.uncompSize > limits.entry { return EntryTooLarge; }
    if e.uncompSize > 0 && e.compSize == 0 { return NoCompressedBytes; }
    if e.compSize > 0 {
      var ratio := e.uncompSize / e.compSize;
      if ratio > limits.ratio { return RatioTooHigh; }
    }
    return Staged;
  }

  /** Everything goes well with an entry, and its file, if it gets one, is to be data. */
  ghost predicate GoodJob(limits: Limits, before: nat, job: Job, data: seq<bv8>) {
    && job.statOk && Acceptable(limits, job.stat) && job.dirOk
    && (!job.stat.isDirectory ==> job.openOk)
    && GoodEntry(limits, before, job.stat, job.headerOk, job.steps, data)
  }

  ghost predicate GoesWell(limits: Limits, before: nat, job: Job) {
    exists data :: GoodJob(limits, before, job, data)
  }

  /** These files are what the entries are to be, in order; every entry finds written what those before it declare. */
  ghost predicate FilesFor(limits: Limits, jobs: seq<Job>, files: seq<seq<bv8>>) {
    if jobs == [] then files == []
    else
      var n, m := |jobs| - 1, |files| - 1;
      if jobs[n].stat.isDirectory then FilesFor(limits, jobs[..n], files)
      else
        && m >= 0 && FilesFor(limits, jobs[..n], files[..m])
        && GoodJob(limits, Declared(Stats(jobs[..n])), jobs[n], files[m])
  }

  lemma FilesForNext(limits: Limits, jobs: seq<Job>, i: nat, files: seq<seq<bv8>>, f: seq<bv8>)
    requires i < |jobs| && FilesFor(limits, jobs[..i], files)
    ensures jobs[i].stat.isDirectory ==> FilesFor(limits, jobs[..i + 1], files)
    ensures !jobs[i].stat.isDirectory && GoodJob(limits, Declared(Stats(jobs[..i])), jobs[i], f) ==>
              FilesFor(limits, jobs[..i + 1], files + [f])
  {
    assert jobs[..i + 1][..i] == jobs[..i] && (files + [f])[..|files|] == files;
  }

  /** One turn of the entry loop: it goes on exactly when everything goes well with the entry. */
  method ExtractEntry(x: Extraction, job: Job) returns (r: Outcome)
    requires x.Within() && x.total == TotalSize(x.files) && x.dest == []
    modifies x
    ensures r.Staged? <==> GoesWell(x.limits, old(x.total), job)
    ensures r.Staged? && !job.stat.isDirectory ==>
              exists f :: x.files == old(x.files) + [f] && GoodJob(x.limits, old(x.total), job, f)
                  && AsDeclared(f, job.stat)
    ensures x.Within() && (r.Staged? ==> x.dest == [] && x.total == TotalSize(x.files))
    ensures r.Staged? ==> job.statOk && Acceptable(x.limits, job.stat)
    ensures r.Staged? ==> x.total == old(x.total) + if job.stat.isDirectory then 0 else job.stat.uncompSize
    ensures r.Staged? && job.stat.isDirectory ==> x.files == old(x.files)
    ensures r.LimitExceeded? ==> x.entryBytes > x.limits.entry || x.total > x.limits.total
  {
    hide SafePath, Crc32.Crc, GoodEntry, TotalSize;
    r := CheckEntry(x.limits, job);
    if !r.Staged? {
      return;
    }
    if !job.dirOk {
      return DiskError;
    }
    if job.stat.isDirectory {
      DirectoryGood(x.limits, x.total, job);
      return;
    }
    if !job.openOk {
      return DiskError;
    }
    x.Open();
    var ok := x.Extract(job.stat, job.headerOk, job.steps);
    if !ok {
      return if x.limitExceeded then LimitExceeded else ExtractFailed;
    }
    ghost var f := x.dest;
    GoodSize(x.limits, old(x.total), job, f);
    x.Close();
    assert x.files == old(x.files) + [f];
    assert GoodJob(x.limits, old(x.total), job, f);
  }

  lemma DirectoryGood(limits: Limits, before: nat, job: Job)
    requires job.statOk && Acceptable(limits, job.stat) && job.dirOk && job.stat.isDirectory
    ensures GoodJob(limits, before, job, [])
  {
    hide Acceptable;
  }

  lemma GoodSize(limits: Limits, before: nat, job: Job, f: seq<bv8>)
    requires GoodEntry(limits, before, job.stat, job.headerOk, job.steps, f) && Acceptable(limits, job.stat)
    ensures !job.stat.isDirectory ==> AsDeclared(f, job.stat)
  {
    hide Output, Crc32.Crc, SafePath, Symlink;
  }

  /**
    The entry loop of extractToStaging. The limits hold after every write whatever happens; for
    an archive that is staged one file has been written for every entry that is not a directory,
    with the size and the checksum it declares, and one that is not leaves nothing behind.
   */
  method ExtractAll(limits: Limits, jobs: seq<Job>) returns (r: Outcome, x: Extraction)
    ensures fresh(x) && x.limits == limits && x.Within()
    ensures r.Staged? ==>
            |jobs| <= limits.count && x.total == TotalSize(x.files) ==
            Declared(Stats(jobs)) <= limits.total
    ensures r.Staged? <==> |jobs| <= limits.count && forall i: nat :: i < |jobs| ==>
                                                        GoesWell(limits, Declared(Stats(jobs[..i])), jobs[i])
    ensures r.Staged? ==> FilesFor(limits, jobs, x.files) && AllAsDeclared(x.files, Files(Stats(jobs)))
    ensures r.Staged? ==> forall job <- jobs :: job.statOk && Acceptable(limits, job.stat)
    ensures !r.Staged? ==> x.files == [] && x.dest == []
    ensures |jobs| > limits.count ==> r.TooManyEntries?
  {
    hide Acceptable, SafePath, TotalSize, Declared, Stats, Files, AsDeclared, GoodEntry, FilesFor, GoesWell;
    NoneDeclared();
    x := new Extraction(limits);
    r := Staged;
    if |jobs| > limits.count {
      return TooManyEntries, x;
    }
    var i := 0;
    assert jobs[..0] == [];
    while i < |jobs|
      invariant i <= |jobs| && fresh(x) && x.limits == limits && x.Within() && x.dest == [] && r.Staged?
      invariant x.total == TotalSize(x.files) == Declared(Stats(jobs[..i]))
          && AllAsDeclared(x.files, Files(Stats(jobs[..i]))) && FilesFor(limits, jobs[..i], x.files)
      invariant forall k: nat :: k < i ==> GoesWell(limits, Declared(Stats(jobs[..k])), jobs[k])
      invariant forall k :: 0 <= k < i ==> jobs[k].statOk && Acceptable(limits, jobs[k].stat)
    {
      StatsNext(jobs, i);
      ghost var before := x.files;
      r := ExtractEntry(x, jobs[i]);
      if !r.Staged? {
        x.Clean();
        return;
      }
      if jobs[i].stat.isDirectory {
        FilesForNext(limits, jobs, i, before, []);
      } else {
        ghost var f :| x.files == before + [f] && GoodJob(limits, Declared(Stats(jobs[..i])), jobs[i], f)
            && AsDeclared(f, jobs[i].stat);
        FilesForNext(limits, jobs, i, before, f);
      }
      i := i + 1;
    }
    assert jobs[..i] == jobs;
  }

  lemma NoneDeclared()
    ensures Declared(Stats([])) == TotalSize([]) == 0 && Files(Stats([])) == []
    ensures forall limits: Limits :: FilesFor(limits, [], [])
  {
  }

  lemma StatsNext(jobs: seq<Job>, i: nat)
    requires i < |jobs|
    ensures Declared(Stats(jobs[..i + 1])) == Declared(Stats(jobs[..i])) + if jobs[i].stat.isDirectory then 0
        else jobs[i].stat.uncompSize
    ensures Files(Stats(jobs[..i + 1])) == Files(Stats(jobs[..i])) + if jobs[i].stat.isDirectory then []
        else [jobs[i].stat]
  {
    assert jobs[..i + 1][..i] == jobs[..i];
    var s := Stats(jobs[..i]);
    assert (s + [jobs[i].stat])[..|s|] == s;
  }
}
