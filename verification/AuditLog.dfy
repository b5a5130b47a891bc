/** The rotating audit log file (crates/server/src/audit.rs).

    The directory is a map from index to contents: 0 is the current file, i > 0 the file with
    suffix .i.  A writer may start on a directory that earlier writers have left.  File operations
    succeed.
 */
module AuditLog {
  import opened Common

  /** One serialized line, with its line feed. */
  type Entry = line: seq<u8> | line != [] witness [10]
  type Files = map<nat, seq<Entry>>

  datatype Config = Config(maxSizeMb: Option<u32>, maxEntries: Option<u64>, maxFiles: Option<u32>) {
    function MaxFiles(): nat {
      if maxFiles.Some? then maxFiles.value else 5
    }

    predicate LimitsPositive() {
      (maxSizeMb.Some? ==> maxSizeMb.value > 0) && (maxEntries.Some? ==> maxEntries.value > 0)
    }
  }

  datatype Writer = Writer(config: Config, files: Files, isOpen: bool, entriesWritten: nat, currentFileSize: nat)

  function Bytes(entries: seq<Entry>): nat {
    if entries == [] then 0 else Bytes(entries[..|entries| - 1]) + |entries[|entries| - 1]|
  }

  function Contents(files: Files, i: nat): seq<Entry> {
    if i in files then files[i] else []
  }

  /** Opens for appending, creating the file if need be. */
  function Opened(w: Writer): Writer {
    w.(files := w.files[0 := Contents(w.files, 0)], isOpen := true, entriesWritten := 0,
       currentFileSize := Bytes(Contents(w.files, 0)))
  }

  predicate ShouldRotate(w: Writer) {
    || (w.config.maxSizeMb.Some? && w.currentFileSize >= w.config.maxSizeMb.value * 1024 * 1024)
    || (w.config.maxEntries.Some? && w.entriesWritten >= w.config.maxEntries.value)
  }

  /** One turn of the renaming loop. */
  function ShiftOne(files: Files, maxFiles: nat, i: nat): Files {
    if i !in files then files
    else if i + 1 >= maxFiles then files - {i}
    else files[i + 1 := files[i]] - {i}
  }

  /** The turns for i, i - 1, ..., 1. */
  function ShiftDown(files: Files, maxFiles: nat, i: nat): Files
    decreases i
  {
    if i == 0 then files else ShiftDown(ShiftOne(files, maxFiles, i), maxFiles, i - 1)
  }

  function RotatedFiles(files: Files, maxFiles: nat): Files {
    var shifted := ShiftDown(files, maxFiles, if maxFiles == 0 then 0 else maxFiles - 1);
    if 0 in shifted then shifted[1 := shifted[0]] - {0} else shifted
  }

  function Rotated(w: Writer): Writer {
    Opened(w.(files := RotatedFiles(w.files, w.config.MaxFiles()), isOpen := false))
  }

  function Appended(w: Writer, e: Entry): Writer {
    w.(files := w.files[0 := Contents(w.files, 0) + [e]],
       entriesWritten := w.entriesWritten + 1,
       currentFileSize := w.currentFileSize + |e|)
  }

  function Ready(w: Writer): Writer {
    if w.isOpen then w else Opened(w)
  }

  function Written(w: Writer, e: Entry): Writer {
    var after := Appended(Ready(w), e);
    if ShouldRotate(after) then Rotated(after) else after
  }

  // ---------- Runs ----------

  datatype Message = Log(entry: Entry) | Rotate

  function Handle(w: Writer, m: Message): Writer {
    match m
    case Log(e) => Written(w, e)
    case Rotate => Rotated(w)
  }

  function Run(w: Writer, messages: seq<Message>): Writer {
    if messages == [] then w else Handle(Run(w, messages[..|messages| - 1]), messages[|messages| - 1])
  }

  function Entries(messages: seq<Message>): seq<Entry> {
    if messages == [] then []
    else
      var last := messages[|messages| - 1];
      Entries(messages[..|messages| - 1]) + (if last.Log? then [last.entry] else [])
  }

  /** A writer that starts on this directory. */
  function New(config: Config, before: Files): Writer {
    Writer(config, before, false, 0, 0)
  }

  predicate Rotates(w: Writer, m: Message) {
    m.Rotate? || ShouldRotate(Appended(Ready(w), m.entry))
  }

  predicate HasRotated(w: Writer, messages: seq<Message>) {
    messages != []
    && var front := messages[..|messages| - 1];
       HasRotated(w, front) || Rotates(Run(w, front), messages[|messages| - 1])
  }

  // ---------- Rotation, file by file ----------

  /** The highest index that rotation works on. */
  function TopIndex(maxFiles: nat): nat {
    if maxFiles <= 2 then 1 else maxFiles - 1
  }

  function Get(files: Files, i: nat): Option<seq<Entry>> {
    if i in files then Some(files[i]) else None
  }

  /** What the turns i, ..., 1 leave at index j: the file one below, with the topmost deleted. */
  function AfterShift(files: Files, maxFiles: nat, i: nat, j: nat): Option<seq<Entry>> {
    if j == 0 || j > i + 1 || (j == i + 1 && j >= maxFiles) then Get(files, j)
    else if j == 1 then None
    else Get(files, j - 1)
  }

  lemma {:induction false} ShiftDownExact(files: Files, maxFiles: nat, i: nat, j: nat)
    requires i < maxFiles && (i + 1 < maxFiles ==> i + 1 !in files)
    ensures Get(ShiftDown(files, maxFiles, i), j) == AfterShift(files, maxFiles, i, j)
    decreases i
  {
    if i > 0 {
      ShiftDownExact(ShiftOne(files, maxFiles, i), maxFiles, i - 1, j);
    }
  }

  /** After a rotation every file has moved up by one, the current file included; the oldest is gone.
      Files with a higher index, left over from a larger max_files, stay as they are. */
  lemma RotatedFilesExact(files: Files, maxFiles: nat, j: nat)
    ensures Get(RotatedFiles(files, maxFiles), j) == AfterRotation(files, maxFiles, j)
  {
    var top := if maxFiles == 0 then 0 else maxFiles - 1;
    if maxFiles > 0 {
      ShiftDownExact(files, maxFiles, top, j);
      ShiftDownExact(files, maxFiles, top, 0);
    }
  }

  function AfterRotation(files: Files, maxFiles: nat, j: nat): Option<seq<Entry>> {
    if j == 0 then None
    else if j > TopIndex(maxFiles) then Get(files, j)
    else if j == 1 && 0 !in files then (if maxFiles >= 2 then None else Get(files, 1))
    else Get(files, j - 1)
  }

  // ---------- What is kept ----------

  /** Files i, ..., 1 and the current one, oldest first. */
  function Kept(files: Files, i: nat): seq<Entry> {
    Contents(files, i) + (if i == 0 then [] else Kept(files, i - 1))
  }

  lemma {:induction false} KeptMoved(files: Files, moved: Files, i: nat)
    requires forall j :: 1 <= j <= i + 1 ==> Get(moved, j) == Get(files, j - 1)
    requires 0 !in moved
    ensures Kept(moved, i + 1) == Kept(files, i)
  {
    assert Get(moved, i + 1) == Get(files, i);
    if i > 0 {
      KeptMoved(files, moved, i - 1);
    }
  }

  predicate IsSuffix(s: seq<Entry>, t: seq<Entry>) {
    |s| <= |t| && t[|t| - |s|..] == s
  }

  lemma SuffixSteps(s: seq<Entry>, front: seq<Entry>, t: seq<Entry>, e: seq<Entry>)
    ensures IsSuffix(front + s, t) ==> IsSuffix(s, t)
    ensures IsSuffix(s, t) ==> IsSuffix(s + e, t + e)
  {
    if IsSuffix(front + s, t) {
      assert s == (front + s)[|front|..];
    }
  }

  lemma RotationMoves(files: Files, maxFiles: nat, i: nat)
    requires i + 1 <= TopIndex(maxFiles) && (maxFiles >= 2 || 0 in files)
    ensures Kept(RotatedFiles(files, maxFiles), i + 1) == Kept(files, i)
  {
    var moved := RotatedFiles(files, maxFiles);
    forall j | 1 <= j <= i + 1
      ensures Get(moved, j) == Get(files, j - 1)
    {
      RotatedFilesExact(files, maxFiles, j);
    }
    NoCurrentFile(files, maxFiles);
    KeptMoved(files, moved, i);
  }

  lemma NoCurrentFile(files: Files, maxFiles: nat)
    ensures 0 !in RotatedFiles(files, maxFiles)
  {
    RotatedFilesExact(files, maxFiles, 0);
  }

  /** A rotation keeps all but the entries of the topmost file. */
  lemma RotationKeeps(files: Files, maxFiles: nat)
    ensures var top := TopIndex(maxFiles);
            && 0 !in RotatedFiles(files, maxFiles)
            && Kept(RotatedFiles(files, maxFiles), top)
               == if maxFiles >= 2 || 0 in files then Kept(files, top - 1) else Kept(files, top)
  {
    var top, moved := TopIndex(maxFiles), RotatedFiles(files, maxFiles);
    NoCurrentFile(files, maxFiles);
    if maxFiles >= 2 || 0 in files {
      RotationMoves(files, maxFiles, top - 1);
    } else {
      RotatedFilesExact(files, maxFiles, 1);
      assert Get(moved, 1) == Get(files, 1);
    }
  }

  lemma {:induction false} KeptWithCurrent(files: Files, i: nat, current: seq<Entry>)
    ensures Kept(files[0 := Contents(files, 0) + current], i) == Kept(files, i) + current
  {
    var files' := files[0 := Contents(files, 0) + current];
    if i > 0 {
      var older, newer := Contents(files, i), Kept(files, i - 1);
      assert Kept(files', i - 1) == newer + current by {
        KeptWithCurrent(files, i - 1, current);
      }
      assert Kept(files', i) == older + (newer + current);
      assert Kept(files, i) == older + newer;
      Associate(older, newer, current);
    } else {
      assert Kept(files', 0) == Contents(files, 0) + current && Kept(files, 0) == Contents(files, 0);
    }
  }

  lemma Associate(a: seq<Entry>, b: seq<Entry>, c: seq<Entry>)
    ensures a + (b + c) == (a + b) + c
  {
  }

  // ---------- Over runs ----------

  /** All files outside the reach of rotation are those of the directory found at the start. */
  ghost predicate BeyondUntouched(files: Files, before: Files, maxFiles: nat) {
    forall j :: j > TopIndex(maxFiles) ==> Get(files, j) == Get(before, j)
  }

  /** The newest entries are kept, and the size is that of the current file. */
  ghost predicate Sound(w: Writer, before: Files, log: seq<Entry>) {
    var top := TopIndex(w.config.MaxFiles());
    && BeyondUntouched(w.files, before, w.config.MaxFiles())
    && IsSuffix(Kept(w.files, top), Kept(before, top) + log)
    && (w.isOpen ==> 0 in w.files && w.currentFileSize == Bytes(w.files[0]))
  }

  lemma OpenKeepsFiles(w: Writer, i: nat)
    ensures Kept(Opened(w).files, i) == Kept(w.files, i)
    ensures forall j :: j > 0 ==> Get(Opened(w).files, j) == Get(w.files, j)
  {
    KeptWithCurrent(w.files, i, []);
    assert Contents(w.files, 0) + [] == Contents(w.files, 0);
  }

  lemma OpenSound(w: Writer, before: Files, log: seq<Entry>)
    requires BeyondUntouched(w.files, before, w.config.MaxFiles())
    requires IsSuffix(Kept(w.files, TopIndex(w.config.MaxFiles())), Kept(before, TopIndex(w.config.MaxFiles())) + log)
    ensures Sound(Opened(w), before, log) && Opened(w).isOpen
  {
    OpenKeepsFiles(w, TopIndex(w.config.MaxFiles()));
  }

  lemma RotationKeepsSuffix(files: Files, maxFiles: nat, all: seq<Entry>)
    requires IsSuffix(Kept(files, TopIndex(maxFiles)), all)
    ensures IsSuffix(Kept(RotatedFiles(files, maxFiles), TopIndex(maxFiles)), all)
  {
    var top := TopIndex(maxFiles);
    RotationKeeps(files, maxFiles);
    SuffixSteps(Kept(files, top - 1), Contents(files, top), all, []);
  }

  lemma RotateSound(w: Writer, before: Files, log: seq<Entry>)
    requires Sound(w, before, log)
    ensures Sound(Rotated(w), before, log)
    ensures Rotated(w).currentFileSize == 0 && Rotated(w).entriesWritten == 0 && Rotated(w).files[0] == []
  {
    var maxFiles := w.config.MaxFiles();
    var top, moved := TopIndex(maxFiles), RotatedFiles(w.files, maxFiles);
    RotationKeepsSuffix(w.files, maxFiles, Kept(before, top) + log);
    NoCurrentFile(w.files, maxFiles);
    forall j | j > top
      ensures Get(moved, j) == Get(before, j)
    {
      RotatedFilesExact(w.files, maxFiles, j);
    }
    OpenSound(w.(files := moved, isOpen := false), before, log);
  }

  lemma AppendSound(w: Writer, e: Entry, before: Files, log: seq<Entry>)
    requires Sound(w, before, log) && w.isOpen
    ensures Sound(Appended(w, e), before, log + [e])
  {
    var top := TopIndex(w.config.MaxFiles());
    KeptWithCurrent(w.files, top, [e]);
    SuffixSteps(Kept(w.files, top), [], Kept(before, top) + log, [e]);
    Associate(Kept(before, top), log, [e]);
  }

  /** The entry is in the current file; a rotation may be due. */
  lemma ReadySound(w: Writer, e: Entry, before: Files, log: seq<Entry>)
    requires Sound(w, before, log)
    ensures Sound(Appended(Ready(w), e), before, log + [e]) && Ready(w).isOpen
  {
    if !w.isOpen {
      OpenSound(w, before, log);
    }
    AppendSound(Ready(w), e, before, log);
  }

  lemma WriteSound(w: Writer, e: Entry, before: Files, log: seq<Entry>)
    requires Sound(w, before, log)
    ensures Sound(Written(w, e), before, log + [e]) && Written(w, e).isOpen
    ensures !ShouldRotate(Written(w, e)) <==> w.config.LimitsPositive()
  {
    var after := Appended(Ready(w), e);
    ReadySound(w, e, before, log);
    if ShouldRotate(after) {
      RotateSound(after, before, log + [e]);
      assert Written(w, e) == Rotated(after);
    } else {
      assert Written(w, e) == after;
    }
  }

  lemma {:induction false} RunSound(config: Config, before: Files, messages: seq<Message>)
    ensures var w := Run(New(config, before), messages);
            Sound(w, before, Entries(messages)) && w.config == config
  {
    if messages == [] {
      assert Kept(before, TopIndex(config.MaxFiles())) + [] == Kept(before, TopIndex(config.MaxFiles()));
    } else {
      var front, last := messages[..|messages| - 1], messages[|messages| - 1];
      RunSound(config, before, front);
      var w := Run(New(config, before), front);
      match last
      case Log(e) => WriteSound(w, e, before, Entries(front));
      case Rotate =>
        RotateSound(w, before, Entries(front));
        assert Entries(messages) == Entries(front);
    }
  }

  /** After any run from any directory the files, oldest first, hold a suffix of what they held before
      and everything logged since: each entry once, in order, and only the oldest ones lost.  Files
      beyond the reach of rotation are left alone. */
  lemma OnlyOldestLost(config: Config, before: Files, messages: seq<Message>)
    ensures var w, top := Run(New(config, before), messages), TopIndex(config.MaxFiles());
            && IsSuffix(Kept(w.files, top), Kept(before, top) + Entries(messages))
            && forall j :: j > top ==> Get(w.files, j) == Get(before, j)
  {
    RunSound(config, before, messages);
  }

  // ---------- The limits of the current file ----------

  /** The entry counter starts at zero although `carried` entries are already in the file. */
  predicate Counts(w: Writer, carried: nat) {
    |Contents(w.files, 0)| == carried + w.entriesWritten
  }

  lemma HandleCounts(w: Writer, m: Message, before: Files, log: seq<Entry>, carried: nat)
    requires Sound(w, before, log) && Counts(w, carried) && (!w.isOpen ==> w.entriesWritten == 0)
    ensures Counts(Handle(w, m), if Rotates(w, m) then 0 else carried) && Handle(w, m).isOpen
    ensures !Rotates(w, m) ==> Handle(w, m).entriesWritten == w.entriesWritten + 1
  {
    if m.Rotate? {
      RotateSound(w, before, log);
    } else {
      ReadySound(w, m.entry, before, log);
      if Rotates(w, m) {
        RotateSound(Appended(Ready(w), m.entry), before, log + [m.entry]);
      }
    }
  }

  /** Until the first rotation the entries found at the start are in the current file but not counted. */
  lemma {:induction false} RunCounts(config: Config, before: Files, messages: seq<Message>)
    ensures var w0 := New(config, before);
            var w := Run(w0, messages);
            && Counts(w, if HasRotated(w0, messages) then 0 else |Contents(before, 0)|)
            && (!HasRotated(w0, messages) ==> w.entriesWritten == |messages|)
            && (!w.isOpen ==> w.entriesWritten == 0)
  {
    if messages != [] {
      var front := messages[..|messages| - 1];
      RunCounts(config, before, front);
      RunSound(config, before, front);
      HandleCounts(Run(New(config, before), front), messages[|messages| - 1], before, Entries(front),
                   if HasRotated(New(config, before), front) then 0 else |Contents(before, 0)|);
    }
  }

  lemma RunOneMore(w: Writer, messages: seq<Message>, m: Message)
    ensures Run(w, messages + [m]) == Handle(Run(w, messages), m)
  {
    assert (messages + [m])[..|messages|] == messages;
  }

  /** When a rotation is due, on every run from any directory: an entry fills the current file up to the
      size limit, or it is the last that the entry limit allows, not counting those found at the start.
      Otherwise the entry is appended and nothing else happens to the files. */
  lemma RotatesExact(config: Config, before: Files, messages: seq<Message>, e: Entry)
    ensures var w0 := New(config, before);
            var w := Run(w0, messages);
            var current := Contents(w.files, 0);
            var uncounted := if HasRotated(w0, messages) then 0 else |Contents(before, 0)|;
            && (Rotates(w, Log(e))
                <==> || (config.maxSizeMb.Some? && Bytes(current) + |e| >= config.maxSizeMb.value * 1_048_576)
                     || (config.maxEntries.Some? && |current| + 1 - uncounted >= config.maxEntries.value))
            && (!Rotates(w, Log(e)) ==> Run(w0, messages + [Log(e)]).files == w.files[0 := current + [e]])
  {
    RunOneMore(New(config, before), messages, Log(e));
    RunCounts(config, before, messages);
    RunSound(config, before, messages);
  }

  lemma CounterBelowLimit(w: Writer, e: Entry)
    ensures var limit := w.config.maxEntries;
            limit.Some? && limit.value > 0 ==> Written(w, e).entriesWritten < limit.value
  {
  }

  /** After any entry, from any directory, the current file is below the size limit exactly when that
      is positive.  It is below the entry limit exactly when that is positive and the file has been
      rotated, or had few enough entries at the start; it exceeds the limit by those at most. */
  lemma CurrentFileBelowLimits(config: Config, before: Files, messages: seq<Message>, e: Entry)
    ensures var w0, all := New(config, before), messages + [Log(e)];
            var w, carried := Run(w0, all), |Contents(before, 0)|;
            && 0 in w.files
            && (config.maxSizeMb.Some? ==>
                  (Bytes(w.files[0]) < config.maxSizeMb.value * 1024 * 1024 <==> config.maxSizeMb.value > 0))
            && (config.maxEntries.Some? ==>
                  var n := config.maxEntries.value;
                  && (|w.files[0]| < n <==> n > 0 && (HasRotated(w0, all) || carried + |all| < n))
                  && (n > 0 ==> |w.files[0]| < n + carried))
  {
    var all := messages + [Log(e)];
    var last := Run(New(config, before), messages);
    RunOneMore(New(config, before), messages, Log(e));
    RunSound(config, before, messages);
    RunSound(config, before, all);
    RunCounts(config, before, all);
    WriteSound(last, e, before, Entries(messages));
    CounterBelowLimit(last, e);
    SizeBelowLimit(last, e, before, Entries(messages));
  }

  lemma SizeBelowLimit(w: Writer, e: Entry, before: Files, log: seq<Entry>)
    requires Sound(w, before, log)
    ensures var limit := w.config.maxSizeMb;
            limit.Some? && limit.value > 0 ==> Written(w, e).currentFileSize < limit.value * 1024 * 1024
  {
    ReadySound(w, e, before, log);
    if ShouldRotate(Appended(Ready(w), e)) {
      RotateSound(Appended(Ready(w), e), before, log + [e]);
    }
  }

  predicate BelowLimits(config: Config, current: seq<Entry>) {
    && (config.maxSizeMb.Some? ==> Bytes(current) < config.maxSizeMb.value * 1024 * 1024)
    && (config.maxEntries.Some? ==> |current| < config.maxEntries.value)
  }

  /** Without entries found at the start, both limits hold after every entry exactly when both are positive. */
  lemma FreshFileBelowLimits(config: Config, before: Files, messages: seq<Message>, e: Entry)
    requires Contents(before, 0) == []
    ensures var w := Run(New(config, before), messages + [Log(e)]);
            0 in w.files && (BelowLimits(config, w.files[0]) <==> config.LimitsPositive())
  {
    CurrentFileBelowLimits(config, before, messages, e);
  }

  /** After a restart the entry limit is missed: a file one short of it takes another entry and is not
      rotated, for every limit of 2 or more. */
  lemma RestartExceedsEntryLimit(config: Config, before: Files, e: Entry)
    requires config.maxEntries.Some? && config.maxEntries.value >= 2
    requires |Contents(before, 0)| >= config.maxEntries.value - 1
    requires config.maxSizeMb.Some? ==> Bytes(Contents(before, 0)) + |e| < config.maxSizeMb.value * 1024 * 1024
    ensures var w := Run(New(config, before), [Log(e)]);
            && w.files == before[0 := Contents(before, 0) + [e]] && |w.files[0]| >= config.maxEntries.value
            && !ShouldRotate(w)
  {
    RunOneMore(New(config, before), [], Log(e));
    assert [] + [Log(e)] == [Log(e)];
  }

  // ---------- How much is kept ----------

  /** After q rotations by the entry limit n and r entries since. */
  predicate Filled(w: Writer, n: nat, q: nat, r: nat) {
    && w.entriesWritten == r < n && |Contents(w.files, 0)| >= r
    && (!w.isOpen ==> r == 0)
    && forall i :: 1 <= i <= TopIndex(w.config.MaxFiles()) && i <= q ==> |Contents(w.files, i)| >= n
  }

  /** n * q, added up. */
  function Times(n: nat, q: nat): nat {
    if q == 0 then 0 else Times(n, q - 1) + n
  }

  lemma {:induction false} TimesIsProduct(n: nat, q: nat)
    ensures Times(n, q) == n * q
  {
    if q > 0 {
      TimesIsProduct(n, q - 1);
    }
  }

  predicate OnlyEntryLimit(config: Config, n: nat) {
    n > 0 && config.maxEntries == Some(n) && config.maxSizeMb == None && config.MaxFiles() >= 2
  }

  lemma RotationFills(w: Writer, n: nat, q: nat)
    requires w.config.MaxFiles() >= 2 && |Contents(w.files, 0)| >= n > 0
    requires forall i :: 1 <= i <= TopIndex(w.config.MaxFiles()) && i <= q ==> |Contents(w.files, i)| >= n
    ensures Filled(Rotated(w), n, q + 1, 0)
  {
    var maxFiles := w.config.MaxFiles();
    forall i | 1 <= i <= TopIndex(maxFiles) && i <= q + 1
      ensures |Contents(Rotated(w).files, i)| >= n
    {
      RotatedFilesExact(w.files, maxFiles, i);
      assert |Contents(w.files, i - 1)| >= n;
      assert Get(Rotated(w).files, i) == Get(RotatedFiles(w.files, maxFiles), i) == Get(w.files, i - 1);
    }
  }

  lemma WriteFills(w: Writer, e: Entry, n: nat, q: nat, r: nat)
    requires OnlyEntryLimit(w.config, n) && Filled(w, n, q, r)
    ensures if r + 1 < n then Filled(Written(w, e), n, q, r + 1) else Filled(Written(w, e), n, q + 1, 0)
  {
    var after := Appended(Ready(w), e);
    forall i | i >= 1
      ensures Contents(after.files, i) == Contents(w.files, i)
    {
      assert Get(after.files, i) == Get(w.files, i);
    }
    if r + 1 == n {
      RotationFills(after, n, q);
    }
  }

  lemma {:induction false} RunKeepsConfig(w: Writer, messages: seq<Message>)
    ensures Run(w, messages).config == w.config
  {
    if messages != [] {
      RunKeepsConfig(w, messages[..|messages| - 1]);
    }
  }

  lemma {:induction false} RunFills(config: Config, before: Files, messages: seq<Message>, n: nat)
    returns (q: nat, r: nat)
    requires OnlyEntryLimit(config, n) && forall m :: m in messages ==> m.Log?
    ensures Filled(Run(New(config, before), messages), n, q, r)
    ensures |messages| == |Entries(messages)| == Times(n, q) + r
  {
    if messages == [] {
      q, r := 0, 0;
    } else {
      var front, last := messages[..|messages| - 1], messages[|messages| - 1];
      var w := Run(New(config, before), front);
      q, r := RunFills(config, before, front, n);
      assert w.config == config by {
        RunKeepsConfig(New(config, before), front);
      }
      assert Run(New(config, before), messages) == Written(w, last.entry);
      WriteFills(w, last.entry, n, q, r);
      if r + 1 < n {
        r := r + 1;
      } else {
        q, r := q + 1, 0;
      }
    }
  }

  lemma {:induction false} KeptAtLeast(files: Files, i: nat, n: nat, q: nat, r: nat)
    requires |Contents(files, 0)| >= r
    requires forall j :: 1 <= j <= i && j <= q ==> |Contents(files, j)| >= n
    ensures |Kept(files, i)| >= r + Times(n, Min(i, q))
  {
    if i > 0 {
      KeptAtLeast(files, i - 1, n, q, r);
      if i <= q {
      }
    }
  }

  lemma EnoughIsKept(config: Config, before: Files, messages: seq<Message>, n: nat)
    requires OnlyEntryLimit(config, n) && forall m :: m in messages ==> m.Log?
    ensures |Kept(Run(New(config, before), messages).files, TopIndex(config.MaxFiles()))|
            >= Min(|Entries(messages)|, Times(n, config.MaxFiles() - 1))
  {
    var q, r := RunFills(config, before, messages, n);
    RunKeepsConfig(New(config, before), messages);
    KeptAtLeast(Run(New(config, before), messages).files, TopIndex(config.MaxFiles()), n, q, r);
  }

  /** s ends with the last k entries of the log. */
  predicate KeepsLast(s: seq<Entry>, log: seq<Entry>, k: nat) {
    k <= |log| && IsSuffix(log[|log| - k..], s)
  }

  lemma LastAreKept(config: Config, before: Files, messages: seq<Message>, k: nat)
    requires k <= |Entries(messages)|
    requires k <= |Kept(Run(New(config, before), messages).files, TopIndex(config.MaxFiles()))|
    ensures KeepsLast(Kept(Run(New(config, before), messages).files, TopIndex(config.MaxFiles())), Entries(messages), k)
  {
    var w, log, top := Run(New(config, before), messages), Entries(messages), TopIndex(config.MaxFiles());
    OnlyOldestLost(config, before, messages);
    EndOfSuffix(Kept(w.files, top), Kept(before, top), log, k);
  }

  /** With an entry limit n alone and max_files of at least 2, every run of entries leaves the last
      n * (max_files - 1) of them in the files, or all if there are fewer. */
  lemma NewestAreKept(config: Config, before: Files, messages: seq<Message>, n: nat)
    requires OnlyEntryLimit(config, n) && forall m :: m in messages ==> m.Log?
    ensures var w, log := Run(New(config, before), messages), Entries(messages);
            var k := Min(|log|, n * (config.MaxFiles() - 1));
            KeepsLast(Kept(w.files, TopIndex(config.MaxFiles())), log, k)
  {
    TimesIsProduct(n, config.MaxFiles() - 1);
    EnoughIsKept(config, before, messages, n);
    LastAreKept(config, before, messages, Min(|Entries(messages)|, Times(n, config.MaxFiles() - 1)));
  }

  lemma EndOfSuffix(s: seq<Entry>, old': seq<Entry>, log: seq<Entry>, k: nat)
    requires IsSuffix(s, old' + log) && k <= |log| && k <= |s|
    ensures KeepsLast(s, log, k)
  {
    var all := old' + log;
    assert all[|all| - k..] == log[|log| - k..];
    assert s[|s| - k..] == all[|all| - |s|..][|s| - k..];
  }

  // ---------- How many bytes are kept ----------

  predicate OnlySizeLimit(config: Config, size: nat) {
    config.maxSizeMb.Some? && config.maxSizeMb.value > 0 && size == config.maxSizeMb.value * 1024 * 1024
    && config.maxEntries == None && config.MaxFiles() >= 2
  }

  lemma {:induction false} BytesConcat(a: seq<Entry>, b: seq<Entry>)
    ensures Bytes(a + b) == Bytes(a) + Bytes(b)
    decreases |b|
  {
    if b == [] {
      assert a + b == a;
    } else {
      var n := |b| - 1;
      assert (a + b)[..|a + b| - 1] == a + b[..n] && (a + b)[|a + b| - 1] == b[n];
      BytesConcat(a, b[..n]);
    }
  }

  /** After q rotations by the size limit: every rotated file is full, and until one is lost, the files
      from the q-th on hold at least what was logged. */
  ghost predicate Loaded(w: Writer, log: seq<Entry>, size: nat, q: nat) {
    && (forall i :: 1 <= i <= TopIndex(w.config.MaxFiles()) && i <= q ==> Bytes(Contents(w.files, i)) >= size)
    && (q <= TopIndex(w.config.MaxFiles()) ==> Bytes(Kept(w.files, q)) >= Bytes(log))
  }

  lemma AppendLoads(w: Writer, e: Entry, log: seq<Entry>, size: nat, q: nat)
    requires Loaded(w, log, size, q)
    ensures Loaded(Appended(Ready(w), e), log + [e], size, q)
  {
    var after := Appended(Ready(w), e);
    forall i | i >= 1
      ensures Contents(after.files, i) == Contents(w.files, i)
    {
      assert Get(after.files, i) == Get(w.files, i);
    }
    OpenKeepsFiles(w, q);
    KeptWithCurrent(Ready(w).files, q, [e]);
    BytesConcat(Kept(w.files, q), [e]);
    BytesConcat(log, [e]);
  }

  lemma RotationLoads(w: Writer, log: seq<Entry>, size: nat, q: nat)
    requires Loaded(w, log, size, q) && w.config.MaxFiles() >= 2 && Bytes(Contents(w.files, 0)) >= size > 0
    ensures Loaded(Rotated(w), log, size, q + 1)
  {
    var maxFiles := w.config.MaxFiles();
    forall i | 1 <= i <= TopIndex(maxFiles) && i <= q + 1
      ensures Bytes(Contents(Rotated(w).files, i)) >= size
    {
      MovedUp(w, i);
      assert Bytes(Contents(w.files, i - 1)) >= size;
    }
    if q + 1 <= TopIndex(maxFiles) {
      RotationKeepsUpTo(w, q);
    }
  }

  lemma MovedUp(w: Writer, i: nat)
    requires 0 in w.files && 1 <= i <= TopIndex(w.config.MaxFiles())
    ensures Contents(Rotated(w).files, i) == Contents(w.files, i - 1)
  {
    RotatedFilesExact(w.files, w.config.MaxFiles(), i);
    assert Get(Rotated(w).files, i) == Get(RotatedFiles(w.files, w.config.MaxFiles()), i) == Get(w.files, i - 1);
  }

  lemma RotationKeepsUpTo(w: Writer, q: nat)
    requires 0 in w.files && q + 1 <= TopIndex(w.config.MaxFiles())
    ensures Kept(Rotated(w).files, q + 1) == Kept(w.files, q)
  {
    RotationMoves(w.files, w.config.MaxFiles(), q);
    OpenKeepsFiles(w.(files := RotatedFiles(w.files, w.config.MaxFiles()), isOpen := false), q + 1);
  }

  /** A file is rotated when it is full. */
  lemma RotationIsFull(w: Writer, e: Entry, before: Files, log: seq<Entry>, size: nat)
    requires Sound(w, before, log) && OnlySizeLimit(w.config, size)
    ensures ShouldRotate(Appended(Ready(w), e)) ==> Bytes(Contents(Appended(Ready(w), e).files, 0)) >= size
  {
    ReadySound(w, e, before, log);
  }

  lemma WriteLoads(w: Writer, e: Entry, before: Files, log: seq<Entry>, size: nat, q: nat) returns (q': nat)
    requires Sound(w, before, log) && OnlySizeLimit(w.config, size) && Loaded(w, log, size, q)
    ensures Loaded(Written(w, e), log + [e], size, q')
  {
    var after := Appended(Ready(w), e);
    assert Loaded(after, log + [e], size, q) by {
      AppendLoads(w, e, log, size, q);
    }
    q' := q;
    if ShouldRotate(after) {
      q' := q + 1;
      assert Loaded(Rotated(after), log + [e], size, q') by {
        RotationIsFull(w, e, before, log, size);
        RotationLoads(after, log + [e], size, q);
      }
    }
  }

  lemma {:induction false} RunLoads(config: Config, before: Files, messages: seq<Message>, size: nat) returns (q: nat)
    requires OnlySizeLimit(config, size) && forall m :: m in messages ==> m.Log?
    ensures Loaded(Run(New(config, before), messages), Entries(messages), size, q)
  {
    if messages == [] {
      q := 0;
    } else {
      var front, last := messages[..|messages| - 1], messages[|messages| - 1];
      q := RunLoads(config, before, front, size);
      RunSound(config, before, front);
      q := WriteLoads(Run(New(config, before), front), last.entry, before, Entries(front), size, q);
    }
  }

  /** The bytes of files i, ..., 1 and the current one. */
  function BytesUpTo(files: Files, i: nat): nat {
    Bytes(Contents(files, i)) + (if i == 0 then 0 else BytesUpTo(files, i - 1))
  }

  lemma {:induction false} KeptBytes(files: Files, i: nat)
    ensures Bytes(Kept(files, i)) == BytesUpTo(files, i)
  {
    if i > 0 {
      KeptBytes(files, i - 1);
      BytesConcat(Contents(files, i), Kept(files, i - 1));
    } else {
      assert Kept(files, 0) == Contents(files, 0);
    }
  }

  lemma {:induction false} BytesGrow(files: Files, q: nat, i: nat)
    requires q <= i
    ensures BytesUpTo(files, i) >= BytesUpTo(files, q)
    decreases i
  {
    if q < i {
      BytesGrow(files, q, i - 1);
    }
  }

  lemma {:induction false} FullFilesAddUp(files: Files, i: nat, size: nat)
    requires forall j :: 1 <= j <= i ==> Bytes(Contents(files, j)) >= size
    ensures BytesUpTo(files, i) >= Times(size, i)
  {
    if i > 0 {
      FullFilesAddUp(files, i - 1, size);
    }
  }

  lemma EnoughBytesKept(config: Config, before: Files, messages: seq<Message>, size: nat)
    requires OnlySizeLimit(config, size) && forall m :: m in messages ==> m.Log?
    ensures Bytes(Kept(Run(New(config, before), messages).files, TopIndex(config.MaxFiles())))
            >= Min(Bytes(Entries(messages)), Times(size, config.MaxFiles() - 1))
  {
    var q := RunLoads(config, before, messages, size);
    RunKeepsConfig(New(config, before), messages);
    var files, top := Run(New(config, before), messages).files, TopIndex(config.MaxFiles());
    KeptBytes(files, top);
    if q <= top {
      KeptBytes(files, q);
      BytesGrow(files, q, top);
    } else {
      FullFilesAddUp(files, top, size);
    }
  }

  lemma {:induction false} BytesCountEntries(s: seq<Entry>)
    ensures Bytes(s) >= |s|
  {
    if s != [] {
      BytesCountEntries(s[..|s| - 1]);
    }
  }

  /** Of two ends of the same list the one with at least as many bytes contains the other. */
  lemma LargerEnd(s: seq<Entry>, old': seq<Entry>, log: seq<Entry>, k: nat)
    requires IsSuffix(s, old' + log) && k <= |log| && Bytes(log[k..]) <= Bytes(s)
    ensures IsSuffix(log[k..], s)
  {
    var end := log[k..];
    if |end| > |s| {
      var more := end[..|end| - |s|];
      EndOfSuffix(end, old', log, 0);
      assert end == more + s by {
        assert (old' + log)[|old' + log| - |s|..] == end[|end| - |s|..];
      }
      BytesConcat(more, s);
      BytesCountEntries(more);
    } else {
      EndOfSuffix(s, old', log, |end|);
    }
  }

  lemma EndIsKept(config: Config, before: Files, messages: seq<Message>, k: nat)
    requires k <= |Entries(messages)|
    requires Bytes(Entries(messages)[k..])
             <= Bytes(Kept(Run(New(config, before), messages).files, TopIndex(config.MaxFiles())))
    ensures IsSuffix(Entries(messages)[k..],
                     Kept(Run(New(config, before), messages).files, TopIndex(config.MaxFiles())))
  {
    var w, log, top := Run(New(config, before), messages), Entries(messages), TopIndex(config.MaxFiles());
    OnlyOldestLost(config, before, messages);
    LargerEnd(Kept(w.files, top), Kept(before, top), log, k);
  }

  lemma EndIsSmaller(log: seq<Entry>, k: nat)
    requires k <= |log|
    ensures Bytes(log[k..]) <= Bytes(log)
  {
    assert log[..k] + log[k..] == log;
    BytesConcat(log[..k], log[k..]);
  }

  /** With a size limit alone and max_files of at least 2, every run of entries leaves the newest ones in
      the files, as many as take up to (max_files - 1) times the limit. */
  lemma NewestBytesAreKept(config: Config, before: Files, messages: seq<Message>, size: nat, k: nat)
    requires OnlySizeLimit(config, size) && forall m :: m in messages ==> m.Log?
    requires k <= |Entries(messages)| && Bytes(Entries(messages)[k..]) <= size * (config.MaxFiles() - 1)
    ensures IsSuffix(Entries(messages)[k..],
                     Kept(Run(New(config, before), messages).files, TopIndex(config.MaxFiles())))
  {
    TimesIsProduct(size, config.MaxFiles() - 1);
    EnoughBytesKept(config, before, messages, size);
    EndIsSmaller(Entries(messages), k);
    EndIsKept(config, before, messages, k);
  }

  // ---------- The number of rotated files ----------

  lemma {:induction false} SizeUpTo(s: set<nat>, top: nat)
    requires forall i :: i in s ==> 1 <= i <= top
    ensures |s| <= top
  {
    if top > 0 {
      SizeUpTo(s - {top}, top - 1);
    } else {
      assert s == {};
    }
  }

  /** The directory has the current file and those numbered below max_files. */
  ghost predicate Regular(files: Files, config: Config) {
    forall i :: i in files && i > 0 ==> i < config.MaxFiles()
  }

  ghost predicate RotatedFilesWithin(config: Config) {
    forall before: Files, messages: seq<Message> :: Regular(before, config) ==>
      |Run(New(config, before), messages).files.Keys - {0}| <= config.MaxFiles() - 1
  }

  lemma TwoRotations(config: Config)
    requires config.MaxFiles() <= 1
    ensures 1 in Run(New(config, map[]), [Rotate, Rotate]).files
  {
    RunOneMore(New(config, map[]), [], Rotate);
    RunOneMore(New(config, map[]), [Rotate], Rotate);
    assert [] + [Rotate] == [Rotate] && [Rotate] + [Rotate] == [Rotate, Rotate];
    var once := Run(New(config, map[]), [Rotate]);
    assert Run(New(config, map[]), [Rotate, Rotate]) == Handle(once, Rotate);
    RotatedFilesExact(map[], config.MaxFiles(), 0);
    RotatedFilesExact(once.files, config.MaxFiles(), 1);
  }

  lemma StaysRegular(config: Config, before: Files, messages: seq<Message>)
    requires config.MaxFiles() >= 2 && Regular(before, config)
    ensures Regular(Run(New(config, before), messages).files, config)
  {
    RunSound(config, before, messages);
    var files := Run(New(config, before), messages).files;
    forall i | i in files && i > 0
      ensures i < config.MaxFiles()
    {
      if i > TopIndex(config.MaxFiles()) {
        assert Get(files, i) == Get(before, i);
      }
    }
  }

  /** Without max_files there are at most four rotated files. */
  lemma FourByDefault(config: Config, before: Files, messages: seq<Message>)
    requires config.maxFiles == None && Regular(before, config)
    ensures |Run(New(config, before), messages).files.Keys - {0}| <= 4
  {
    StaysRegular(config, before, messages);
    SizeUpTo(Run(New(config, before), messages).files.Keys - {0}, 4);
  }

  /** And an entry limit of n then keeps the newest 4 * n entries. */
  lemma DefaultKeepsFour(config: Config, before: Files, messages: seq<Message>, n: nat)
    requires config.maxFiles == None && OnlyEntryLimit(config, n) && forall m :: m in messages ==> m.Log?
    ensures KeepsLast(Kept(Run(New(config, before), messages).files, 4), Entries(messages),
                      Min(|Entries(messages)|, 4 * n))
  {
    assert config.MaxFiles() == 5 && TopIndex(5) == 4;
    NewestAreKept(config, before, messages, n);
  }

  /** No run from a regular directory leaves more than max_files - 1 rotated files, exactly when
      max_files is at least 2. */
  lemma RotatedFilesExactlyBounded(config: Config)
    ensures RotatedFilesWithin(config) <==> config.MaxFiles() >= 2
  {
    if config.MaxFiles() >= 2 {
      forall before: Files, messages: seq<Message> | Regular(before, config)
        ensures |Run(New(config, before), messages).files.Keys - {0}| <= config.MaxFiles() - 1
      {
        StaysRegular(config, before, messages);
        SizeUpTo(Run(New(config, before), messages).files.Keys - {0}, TopIndex(config.MaxFiles()));
      }
    } else {
      TwoRotations(config);
      var files := Run(New(config, map[]), [Rotate, Rotate]).files;
      assert 1 in files.Keys - {0};
      assert Regular(map[], config);
    }
  }
}
