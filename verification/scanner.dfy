/** The directory scan of TestVectorDirectoryParser.parse: the manifest is
    loaded once; then, once per configured extension, every file of the walk
    whose name ends with that extension is either audited against its stored
    row (already known) or recorded as a new row. The walk, the file sizes,
    the MD5 digest and the GB conversion are inputs. */
module Scanner {
  import opened Wrappers
  import opened Strings
  import opened Manifest
  import opened Grammar

  /** One file of `os.walk`: its directory, its bare name and its size in
      bits (8 per byte; 0 when the path is not a regular file). */
  datatype FileEntry = FileEntry(root: string, name: string, bits: nat)

  /** What the scan asks of code it cannot see: the MD5 hex digest of a
      file (`None` when reading it fails), DataConversions' bits-to-GB
      conversion, and `str` of the resulting float. */
  datatype Host = Host(
    md5Of: string -> Option<string>,
    toGB: nat -> real,
    showGB: real -> string)

  /** `os.path.join(root, name)` on POSIX. */
  function PathJoin(root: string, name: string): (p: string)
    ensures EndsWith(p, name)
  {
    if |name| > 0 && name[0] == '/' then name
    else if |root| == 0 || root[|root| - 1] == '/' then root + name
    else root + "/" + name
  }

  /** What WriteAsCSV reports: `(True, gb)` with the row it appended, or
      `(False, 0)` with nothing appended. */
  datatype WriteResult = Appended(rec: ManifestRecord, sizeGB: real) | NotWritten
  {
    /** The GB figure of the returned pair. */
    function SizeGB(): real
    {
      if Appended? then sizeGB else 0.0
    }
  }

  /** WriteAsCSV: a row is appended only for a file of positive size whose
      digest can be computed; it holds the name's fields in column order
      (batch before type), the path, the size in bits and in GB, and the
      digest, and the GB figure is returned with it. */
  function WriteAsCsv(f: NameFields, path: string, parent: string, name: string,
                      bits: nat, host: Host): (w: WriteResult)
    ensures w.Appended? <==> bits > 0 && host.md5Of(path).Some?
    ensures w.NotWritten? ==> w.SizeGB() == 0.0
    ensures w.Appended? ==>
      && w.sizeGB == host.toGB(bits)
      && w.rec.filename == name && w.rec.path == path && w.rec.parent == parent
      && w.rec.batch == f.batch && w.rec.kind == f.kind && w.rec.period == f.period
      && w.rec.dm == f.dm && w.rec.z == f.z && w.rec.snr == f.snr
      && w.rec.profile == f.profile && w.rec.freq == f.freq
      && w.rec.bits == bits && w.rec.sizeGB == host.showGB(w.sizeGB)
      && w.rec.md5 == host.md5Of(path).value
  {
    if bits > 0 then
      match host.md5Of(path)
      case None => NotWritten
      case Some(digest) =>
        var gb := host.toGB(bits);
        Appended(ManifestRecord(name, f.batch, f.kind, f.period, f.dm, f.z, f.snr,
                                f.profile, f.freq, path, parent, bits,
                                host.showGB(gb), digest),
                 gb)
    else NotWritten
  }

  /** `record`: `None` when the name has 7 or fewer components, or when the
      output format is neither 1 (CSV) nor 2 (JSON, which writes CSV too). */
  function Record(path: string, parent: string, name: string, format: int,
                  bits: nat, host: Host): (r: Option<WriteResult>)
    ensures r.None? <==> |Split(name, '_')| <= 7 || (format != 1 && format != 2)
    ensures r.Some? ==> (r.value.Appended? <==> bits > 0 && host.md5Of(path).Some?)
    ensures r.Some? && r.value.Appended? ==>
      && r.value.rec.filename == name && r.value.rec.bits == bits
      && r.value.rec.path == path && r.value.rec.parent == parent
      && r.value.sizeGB == host.toGB(bits)
  {
    match ParseName(name)
    case None => None
    case Some(f) =>
      if format == 1 || format == 2 then Some(WriteAsCsv(f, path, parent, name, bits, host))
      else None
  }

  /** The row `record` writes for a conventionally named `.fil` file carries
      the vector's columns and its profile id. */
  lemma RecordOfConventionalName(v: VectorName, path: string, parent: string, format: int,
                                 bits: nat, host: Host)
    requires Conventional(v)
    requires format == 1 || format == 2
    requires bits > 0 && host.md5Of(path).Some?
    ensures var r := Record(path, parent, FileNameOf(v, ".fil"), format, bits, host);
      && r.Some? && r.value.Appended?
      && r.value.rec == ManifestRecord(FileNameOf(v, ".fil"), v.batch, v.kind, v.period, v.dm,
                                       v.z, v.snr, ProfileIdOf(v), v.freq, path, parent, bits,
                                       host.showGB(host.toGB(bits)), host.md5Of(path).value)
  {
    NameRoundTrip(v);
  }

  /** `record` applied to a file of the walk. */
  function RecordEntry(e: FileEntry, format: int, host: Host): Option<WriteResult>
  {
    Record(PathJoin(e.root, e.name), e.root, e.name, format, e.bits, host)
  }

  /** The host's digests and GB texts hold neither a comma nor a newline. */
  ghost predicate CleanHost(host: Host)
  {
    && (forall p :: host.md5Of(p).Some? ==> CleanText(host.md5Of(p).value))
    && (forall g :: CleanText(host.showGB(g)))
  }

  /** A row written for a file whose directory and name are clean is clean. */
  lemma RecordEntryClean(e: FileEntry, format: int, host: Host)
    requires CleanText(e.root) && CleanText(e.name) && CleanHost(host)
    requires RecordEntry(e, format, host).Some? && RecordEntry(e, format, host).value.Appended?
    ensures Clean(RecordEntry(e, format, host).value.rec)
  {
    ParseNameAvoids(e.name, {',', '\n'});
    var path := PathJoin(e.root, e.name);
    assert CleanText(path) by {
      assert CleanText("/");
      AvoidsConcat(e.root, e.name, {',', '\n'});
      AvoidsConcat(e.root, "/", {',', '\n'});
      AvoidsConcat(e.root + "/", e.name, {',', '\n'});
    }
  }

  /** What recording a file the manifest does not know yields. The scan is
      stated for any such operation; `RecorderOf` is the one `parse` uses. */
  type Recorder = FileEntry -> Option<WriteResult>

  function RecorderOf(format: int, host: Host): Recorder
  {
    e => RecordEntry(e, format, host)
  }

  /** A recorder that, like `record`, writes a row only for a file of
      positive size, naming the file, with its size, and reports the GB
      the host computes for that size. */
  ghost predicate Sound(record: Recorder, host: Host)
  {
    forall e :: record(e).Some? && record(e).value.Appended? ==>
      && record(e).value.rec.filename == e.name
      && record(e).value.rec.bits == e.bits && e.bits > 0
      && record(e).value.sizeGB == host.toGB(e.bits)
  }

  lemma RecorderOfSound(format: int, host: Host)
    ensures Sound(RecorderOf(format, host), host)
  {
  }

  // ---------------------------------------------------------------------
  // Scan state
  // ---------------------------------------------------------------------

  /** The counters of `parse` and what it has written: files matched, new
      rows, size changes seen, GB of every matched file and of the new ones,
      the changed files with their stored columns, and the rows appended. */
  datatype Report = Report(
    total: nat,
    newCount: nat,
    changedCount: nat,
    totalGB: real,
    newGB: real,
    changed: Known,
    appended: seq<ManifestRecord>)

  const Initial: Report := Report(0, 0, 0, 0.0, 0.0, map[], [])

  /** Why a run stops early. Each is an exception the source does not catch:
      a manifest line that is not an entry (line 135), a stored size that
      `int` rejects (line 205), and `record` returning `None` (line 213). */
  datatype Failure =
    | MalformedManifestLine(line: string)
    | SizeNotInteger(name: string, stored: string)
    | NoRecordResult(name: string)

  datatype Progress = Running(report: Report) | Halted(report: Report, reason: Failure)

  /** A known file whose live size differs from the size stored for it. */
  predicate Drifted(known: Known, e: FileEntry)
    requires WellFormed(known)
  {
    e.name in known && ParseInt(known[e.name][10]) != Some(e.bits)
  }

  /** From `r` to `r'` counters only grow, every matched file adds to at most
      one of new/changed, one row is appended per new file, and earlier rows
      and changed entries stay. */
  predicate Grows(r: Report, r': Report)
  {
    && r.total <= r'.total && r.newCount <= r'.newCount && r.changedCount <= r'.changedCount
    && (r'.newCount - r.newCount) + (r'.changedCount - r.changedCount) <= r'.total - r.total
    && |r.appended| <= |r'.appended|
    && r'.appended[..|r.appended|] == r.appended
    && |r'.appended| - |r.appended| == r'.newCount - r.newCount
    && r.changed.Keys <= r'.changed.Keys
  }

  /** One matched file. Known: count it, add its live GB, and record it as
      changed when its live size differs from the stored one. New: call
      `record`, add the GB it returns, and count it as new when it wrote. */
  function Step(known: Known, host: Host, record: Recorder, r: Report, e: FileEntry): (p: Progress)
    requires WellFormed(known)
    ensures p.report.total == r.total + 1
    ensures Grows(r, p.report)
    ensures p.Halted? ==> !p.reason.MalformedManifestLine?
    ensures p.Halted? <==>
      if e.name in known then ParseInt(known[e.name][10]).None?
      else record(e).None?
    ensures e.name in known ==>
      && p.report.newCount == r.newCount && p.report.appended == r.appended
      && (p.Running? ==> (p.report.changedCount == r.changedCount + 1 <==> Drifted(known, e)))
    ensures e.name !in known ==>
      && p.report.changedCount == r.changedCount && p.report.changed == r.changed
      && (p.Running? ==> (p.report.newCount == r.newCount + 1 <==> record(e).value.Appended?))
  {
    var counted := r.(total := r.total + 1);
    if e.name in known then
      var stored := known[e.name];
      var seen := counted.(totalGB := counted.totalGB + host.toGB(e.bits));
      match ParseInt(stored[10])
      case None => Halted(seen, SizeNotInteger(e.name, stored[10]))
      case Some(previous) =>
        if e.bits != previous then
          Running(seen.(changedCount := seen.changedCount + 1, changed := seen.changed[e.name := stored]))
        else Running(seen)
    else
      match record(e)
      case None => Halted(counted, NoRecordResult(e.name))
      case Some(w) =>
        var added := counted.(totalGB := counted.totalGB + w.SizeGB());
        if w.Appended? then
          Running(added.(newCount := added.newCount + 1, newGB := added.newGB + w.sizeGB,
                         appended := added.appended + [w.rec]))
        else Running(added)
  }

  lemma GrowsTransitive(r1: Report, r2: Report, r3: Report)
    requires Grows(r1, r2) && Grows(r2, r3)
    ensures Grows(r1, r3)
  {
    assert r3.appended[..|r1.appended|] == r3.appended[..|r2.appended|][..|r1.appended|];
  }

  /** The matched files, in order, from left to right. */
  function ScanFrom(known: Known, host: Host, record: Recorder, r: Report, ms: seq<FileEntry>): (p: Progress)
    requires WellFormed(known)
    ensures Grows(r, p.report)
    ensures p.Halted? ==> !p.reason.MalformedManifestLine?
    ensures p.report.total <= r.total + |ms|
    ensures p.Running? ==> p.report.total == r.total + |ms|
    decreases |ms|
  {
    if |ms| == 0 then Running(r)
    else
      match Step(known, host, record, r, ms[0])
      case Halted(r1, why) => Halted(r1, why)
      case Running(r1) =>
        var p := ScanFrom(known, host, record, r1, ms[1..]);
        GrowsTransitive(r, r1, p.report);
        p
  }

  /** The files of the walk whose name ends with `ext`, in walk order. */
  function Filter(walk: seq<FileEntry>, ext: string): (ms: seq<FileEntry>)
    ensures forall e :: e in ms <==> e in walk && EndsWith(e.name, ext)
    decreases |walk|
  {
    if |walk| == 0 then []
    else (if EndsWith(walk[0].name, ext) then [walk[0]] else []) + Filter(walk[1..], ext)
  }

  /** The outer loop of `parse`: the whole walk once per extension. */
  function Matches(exts: seq<string>, walk: seq<FileEntry>): (ms: seq<FileEntry>)
    ensures forall e :: e in ms <==> e in walk && exists i :: 0 <= i < |exts| && EndsWith(e.name, exts[i])
    decreases |exts|
  {
    if |exts| == 0 then []
    else
      var ms := Filter(walk, exts[0]) + Matches(exts[1..], walk);
      assert forall i :: 1 <= i < |exts| ==> exts[i] == exts[1..][i - 1];
      assert forall i :: 0 <= i < |exts[1..]| ==> exts[1..][i] == exts[i + 1];
      ms
  }

  /** How a run of `parse` ends. */
  datatype RunResult =
    | Aborted(appended: seq<ManifestRecord>, reason: Failure)
    | NoDirectory
    | Completed(report: Report)

  function Finish(p: Progress): RunResult
  {
    match p
    case Running(r) => Completed(r)
    case Halted(r, why) => Aborted(r.appended, why)
  }

  /** `parse`: load the manifest, then scan the walk once per extension. */
  function Run(manifest: string, dirExists: bool, exts: seq<string>, walk: seq<FileEntry>,
               format: int, host: Host): (res: RunResult)
    ensures Load(manifest).Failure? <==> res.Aborted? && res.reason.MalformedManifestLine?
    ensures Load(manifest).Failure? ==> res.appended == []
    ensures res.NoDirectory? <==> Load(manifest).Success? && !dirExists
    ensures res.Completed? ==>
      && res.report.total == |Matches(exts, walk)|
      && res.report.newCount + res.report.changedCount <= res.report.total
      && |res.report.appended| == res.report.newCount
  {
    match Load(manifest)
    case Failure(line) => Aborted([], MalformedManifestLine(line))
    case Success(known) =>
      assert WellFormed(map[]);
      if !dirExists then NoDirectory
      else
        var p := ScanFrom(known, host, RecorderOf(format, host), Initial, Matches(exts, walk));
        Finish(p)
  }

  /** The manifest text after a run: the rows appended, in order, follow the
      original text (rows appended before an abort stay). */
  function ManifestAfter(manifest: string, res: RunResult): string
  {
    match res
    case Aborted(rs, _) => manifest + Concat(CsvLines(rs))
    case NoDirectory => manifest
    case Completed(r) => manifest + Concat(CsvLines(r.appended))
  }

  // ---------------------------------------------------------------------
  // The loop as written
  // ---------------------------------------------------------------------

  /** One file of the walk: a file with the extension comes first in the
      matches from it on, any other file is skipped. */
  lemma FilterAt(walk: seq<FileEntry>, j: nat, ext: string, tail: seq<FileEntry>)
    requires j < |walk|
    ensures EndsWith(walk[j].name, ext) ==>
      Filter(walk[j..], ext) + tail == [walk[j]] + (Filter(walk[j + 1..], ext) + tail)
    ensures !EndsWith(walk[j].name, ext) ==>
      Filter(walk[j..], ext) + tail == Filter(walk[j + 1..], ext) + tail
  {
    assert walk[j..][0] == walk[j];
    assert walk[j..][1..] == walk[j + 1..];
  }

  /** The outer loop moves on to the next extension once the walk is done. */
  lemma NextExtension(exts: seq<string>, i: nat, walk: seq<FileEntry>)
    requires i < |exts|
    ensures Matches(exts[i..], walk) == Filter(walk[0..], exts[i]) + Matches(exts[i + 1..], walk)
    ensures Filter(walk[|walk|..], exts[i]) + Matches(exts[i + 1..], walk) == Matches(exts[i + 1..], walk)
  {
    assert exts[i..][0] == exts[i];
    assert exts[i..][1..] == exts[i + 1..];
    assert walk[0..] == walk;
    assert walk[|walk|..] == [];
  }

  /** `parse` with its nested loops: for each extension, for each file of the
      walk, audit or record the files whose name ends with it. */
  method Parse(manifest: string, dirExists: bool, exts: seq<string>, walk: seq<FileEntry>,
               format: int, host: Host) returns (res: RunResult)
    ensures res == Run(manifest, dirExists, exts, walk, format, host)
  {
    var loaded := Load(manifest);
    if loaded.Failure? {
      return Aborted([], MalformedManifestLine(loaded.error));
    }
    var known := loaded.value;
    assert WellFormed(map[]);
    if !dirExists {
      return NoDirectory;
    }
    var record := RecorderOf(format, host);
    ghost var goal := ScanFrom(known, host, record, Initial, Matches(exts, walk));
    var report := Initial;
    var i := 0;
    assert exts[0..] == exts;
    while i < |exts|
      invariant 0 <= i <= |exts|
      invariant goal == ScanFrom(known, host, record, report, Matches(exts[i..], walk))
    {
      var ext := exts[i];
      NextExtension(exts, i, walk);
      ghost var later := Matches(exts[i + 1..], walk);
      var j := 0;
      ghost var rest := Filter(walk[j..], ext) + later;
      while j < |walk|
        invariant 0 <= j <= |walk|
        invariant rest == Filter(walk[j..], ext) + later
        invariant goal == ScanFrom(known, host, record, report, rest)
      {
        var e := walk[j];
        FilterAt(walk, j, ext, later);
        rest := Filter(walk[j + 1..], ext) + later;
        if EndsWith(e.name, ext) {
          var p := Step(known, host, record, report, e);
          if p.Halted? {
            return Aborted(p.report.appended, p.reason);
          }
          report := p.report;
        }
        j := j + 1;
      }
      i := i + 1;
    }
    assert exts[|exts|..] == [];
    return Completed(report);
  }

  // ---------------------------------------------------------------------
  // What a scan amounts to, stated without the loop
  // ---------------------------------------------------------------------

  /** The rows the matched files produce: one per file the manifest does not
      know and `record` writes, in match order; a file matched twice yields
      its row twice. */
  function Written(known: Known, record: Recorder, ms: seq<FileEntry>): seq<ManifestRecord>
    decreases |ms|
  {
    if |ms| == 0 then [] else WrittenBy(known, record, ms[0]) + Written(known, record, ms[1..])
  }

  /** The row one matched file contributes, if any. */
  function WrittenBy(known: Known, record: Recorder, e: FileEntry): seq<ManifestRecord>
  {
    var w := record(e);
    if e.name !in known && w.Some? && w.value.Appended? then [w.value.rec] else []
  }

  /** How many matched files (with repetition) have a live size that differs
      from the stored one. */
  function CountDrifted(known: Known, ms: seq<FileEntry>): nat
    requires WellFormed(known)
    decreases |ms|
  {
    if |ms| == 0 then 0
    else (if Drifted(known, ms[0]) then 1 else 0) + CountDrifted(known, ms[1..])
  }

  /** The names of the matched files whose size drifted. */
  function DriftedNames(known: Known, ms: seq<FileEntry>): set<string>
    requires WellFormed(known)
  {
    set e | e in ms && Drifted(known, e) :: e.name
  }

  /** Every changed entry holds the stored columns of a known file. */
  predicate ChangedFromKnown(known: Known, r: Report)
  {
    forall k :: k in r.changed ==> k in known && r.changed[k] == known[k]
  }

  /** The GB total of some rows. */
  function GBSum(host: Host, rs: seq<ManifestRecord>): real
    decreases |rs|
  {
    if |rs| == 0 then 0.0 else host.toGB(rs[0].bits) + GBSum(host, rs[1..])
  }
}
