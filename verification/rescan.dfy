/** Running `parse` a second time over the same directory tree, against the
    manifest the first run extended, adds nothing: every file the first run
    wrote is now known with the size it was written with, so the second run
    writes no row and reports the same changed files as the first. */
module Rescan {
  import opened Wrappers
  import opened Strings
  import opened Manifest
  import opened Scanner
  import opened ScanFacts

  /** No directory or file name of the walk holds a comma or a newline. */
  ghost predicate CleanWalk(walk: seq<FileEntry>)
  {
    forall e :: e in walk ==> CleanText(e.root) && CleanText(e.name)
  }

  /** Files of the same name have the same size (the tree does not change
      between the runs, and a name listed twice is one file). */
  predicate SizesAgree(walk: seq<FileEntry>)
  {
    forall e1, e2 :: e1 in walk && e2 in walk && e1.name == e2.name ==> e1.bits == e2.bits
  }

  /** A name the first run did not know but stored holds the size of every
      matched file of that name. */
  lemma NewNameStored(known: Known, host: Host, record: Recorder, ms: seq<FileEntry>, e: FileEntry)
    requires Sound(record, host) && SizesAgree(ms)
    requires e in ms && e.name !in known
    requires e.name in Absorb(known, Written(known, record, ms))
    ensures |Absorb(known, Written(known, record, ms))[e.name]| == 13
    ensures ParseInt(Absorb(known, Written(known, record, ms))[e.name][10]) == Some(e.bits)
  {
    var rows := Written(known, record, ms);
    AbsorbKeys(known, rows);
    AbsorbRecordValue(known, rows, e.name);
    var j :| 0 <= j < |rows| && rows[j].filename == e.name
             && Absorb(known, rows)[e.name] == StoredValue(rows[j]);
    WrittenProvenance(known, host, record, ms);
    assert rows[j] in rows;
    var e' :| e' in ms && e'.name == rows[j].filename
              && record(e') == Some(Appended(rows[j], host.toGB(rows[j].bits)));
    SoundAt(record, host, e');
    assert e'.bits == e.bits;
    StoredSize(rows[j]);
  }

  lemma SoundAt(record: Recorder, host: Host, e: FileEntry)
    requires Sound(record, host)
    requires record(e).Some? && record(e).value.Appended?
    ensures record(e).value.rec.bits == e.bits
  {
  }

  /** A name the first run knew keeps its stored columns: no row is written
      for it. */
  lemma KnownNameKept(known: Known, host: Host, record: Recorder, ms: seq<FileEntry>, k: string)
    requires Sound(record, host) && k in known
    ensures k in Absorb(known, Written(known, record, ms))
    ensures Absorb(known, Written(known, record, ms))[k] == known[k]
  {
    var rows := Written(known, record, ms);
    WrittenProvenance(known, host, record, ms);
    assert forall i :: 0 <= i < |rows| ==> rows[i].filename != k by {
      forall i | 0 <= i < |rows| ensures rows[i].filename != k {
        assert rows[i] in rows;
      }
    }
    AbsorbOtherValue(known, rows, k);
  }

  /** One matched file, scanned against the extended manifest: it proceeds
      if it did the first time, writes nothing, and drifts exactly when it
      drifted the first time. */
  lemma RescanFile(known: Known, host: Host, record: Recorder, ms: seq<FileEntry>, i: nat)
    requires WellFormed(known) && Sound(record, host) && SizesAgree(ms)
    requires i < |ms| && Proceeds(known, record, ms[i])
    ensures WellFormed(Absorb(known, Written(known, record, ms)))
    ensures var known2 := Absorb(known, Written(known, record, ms));
      && Proceeds(known2, record, ms[i])
      && WrittenBy(known2, record, ms[i]) == []
      && (Drifted(known2, ms[i]) <==> Drifted(known, ms[i]))
  {
    var rows := Written(known, record, ms);
    var known2 := Absorb(known, rows);
    AbsorbWellFormed(known, rows);
    var e := ms[i];
    if e.name in known {
      KnownNameKept(known, host, record, ms, e.name);
    } else if e.name in known2 {
      NewNameStored(known, host, record, ms, e);
    } else if record(e).Some? && record(e).value.Appended? {
      WrittenHas(known, record, ms, i);
      AbsorbKeys(known, rows);
      assert false;
    }
  }

  /** The rows of the first run are clean, so they load back. */
  lemma WrittenRowsClean(known: Known, ms: seq<FileEntry>, format: int, host: Host)
    requires CleanHost(host)
    requires forall e :: e in ms ==> CleanText(e.root) && CleanText(e.name)
    ensures forall rec :: rec in Written(known, RecorderOf(format, host), ms) ==> Clean(rec)
  {
    var record := RecorderOf(format, host);
    RecorderOfSound(format, host);
    WrittenProvenance(known, host, record, ms);
    forall rec | rec in Written(known, record, ms) ensures Clean(rec) {
      var e :| e in ms && e.name == rec.filename
               && record(e) == Some(Appended(rec, host.toGB(rec.bits)));
      RecordEntryClean(e, format, host);
    }
  }

  /** The manifest the first run leaves behind loads as the first manifest
      with the new rows stored. */
  lemma GrownManifestLoads(manifest: string, exts: seq<string>, walk: seq<FileEntry>, format: int, host: Host)
    requires |manifest| == 0 || manifest[|manifest| - 1] == '\n'
    requires CleanHost(host) && CleanWalk(walk)
    requires Run(manifest, true, exts, walk, format, host).Completed?
    ensures Load(manifest).Success?
    ensures var first := Run(manifest, true, exts, walk, format, host);
      var known := Load(manifest).value;
      && WellFormed(known)
      && first.report.appended == Written(known, RecorderOf(format, host), Matches(exts, walk))
      && Load(ManifestAfter(manifest, first)) ==
         Success(Absorb(known, Written(known, RecorderOf(format, host), Matches(exts, walk))))
  {
    var known := Load(manifest).value;
    assert WellFormed(map[]);
    var ms := Matches(exts, walk);
    var record := RecorderOf(format, host);
    ScanWrites(known, host, record, Initial, ms);
    assert Initial.appended + Written(known, record, ms) == Written(known, record, ms);
    var rows := Written(known, record, ms);
    WrittenRowsClean(known, ms, format, host);
    assert forall i :: 0 <= i < |rows| ==> Clean(rows[i]) by {
      forall i | 0 <= i < |rows| ensures Clean(rows[i]) { assert rows[i] in rows; }
    }
    AppendThenLoad(manifest, rows);
  }

  /** Every matched file, scanned against the extended manifest. */
  lemma RescanFiles(known: Known, host: Host, record: Recorder, ms: seq<FileEntry>)
    requires WellFormed(known) && Sound(record, host) && SizesAgree(ms)
    requires forall i :: 0 <= i < |ms| ==> Proceeds(known, record, ms[i])
    ensures WellFormed(Absorb(known, Written(known, record, ms)))
    ensures forall i :: 0 <= i < |ms| ==>
      && Proceeds(Absorb(known, Written(known, record, ms)), record, ms[i])
      && WrittenBy(Absorb(known, Written(known, record, ms)), record, ms[i]) == []
      && (Drifted(Absorb(known, Written(known, record, ms)), ms[i]) <==> Drifted(known, ms[i]))
  {
    AbsorbWellFormed(known, Written(known, record, ms));
    forall i | 0 <= i < |ms|
      ensures Proceeds(Absorb(known, Written(known, record, ms)), record, ms[i])
      ensures WrittenBy(Absorb(known, Written(known, record, ms)), record, ms[i]) == []
      ensures Drifted(Absorb(known, Written(known, record, ms)), ms[i]) <==> Drifted(known, ms[i])
    {
      RescanFile(known, host, record, ms, i);
    }
  }

  /** The scan against the extended manifest runs through and writes
      nothing. */
  lemma RescanWritesNothing(known: Known, host: Host, record: Recorder, ms: seq<FileEntry>)
    requires WellFormed(known) && Sound(record, host) && SizesAgree(ms)
    requires ScanFrom(known, host, record, Initial, ms).Running?
    ensures WellFormed(Absorb(known, Written(known, record, ms)))
    ensures var p2 := ScanFrom(Absorb(known, Written(known, record, ms)), host, record, Initial, ms);
      && p2.Running?
      && p2.report.appended == []
      && p2.report.total == ScanFrom(known, host, record, Initial, ms).report.total
  {
    var known2 := Absorb(known, Written(known, record, ms));
    ScanRunsThrough(known, host, record, Initial, ms);
    RescanFiles(known, host, record, ms);
    ScanRunsThrough(known2, host, record, Initial, ms);
    WrittenNone(known2, record, ms);
    ScanWrites(known2, host, record, Initial, ms);
  }

  /** The scan against the extended manifest counts and records the same
      changes as the first. */
  lemma RescanSameChanges(known: Known, host: Host, record: Recorder, ms: seq<FileEntry>)
    requires WellFormed(known) && Sound(record, host) && SizesAgree(ms)
    requires ScanFrom(known, host, record, Initial, ms).Running?
    requires WellFormed(Absorb(known, Written(known, record, ms)))
    requires ScanFrom(Absorb(known, Written(known, record, ms)), host, record, Initial, ms).Running?
    ensures var p1 := ScanFrom(known, host, record, Initial, ms);
      var p2 := ScanFrom(Absorb(known, Written(known, record, ms)), host, record, Initial, ms);
      && p2.report.changedCount == p1.report.changedCount
      && p2.report.changed == p1.report.changed
  {
    var known2 := Absorb(known, Written(known, record, ms));
    ScanRunsThrough(known, host, record, Initial, ms);
    RescanFiles(known, host, record, ms);
    DriftAgrees(known, known2, ms);
    ScanChanges(known, host, record, Initial, ms);
    ScanChanges(known2, host, record, Initial, ms);
    var c1 := ScanFrom(known, host, record, Initial, ms).report.changed;
    var c2 := ScanFrom(known2, host, record, Initial, ms).report.changed;
    assert c1.Keys == c2.Keys;
    forall k | k in c1 ensures c2[k] == c1[k] {
      KnownNameKept(known, host, record, ms, k);
    }
    MapsEqual(c2, c1);
  }

  lemma MapsEqual<K, V>(a: map<K, V>, b: map<K, V>)
    requires a.Keys == b.Keys && forall k :: k in a ==> a[k] == b[k]
    ensures a == b
  {
  }

  /** A run over an existing directory is the scan of the loaded manifest. */
  lemma RunScans(manifest: string, exts: seq<string>, walk: seq<FileEntry>, format: int, host: Host)
    requires Load(manifest).Success?
    ensures WellFormed(Load(manifest).value)
    ensures Run(manifest, true, exts, walk, format, host) ==
      Finish(ScanFrom(Load(manifest).value, host, RecorderOf(format, host), Initial, Matches(exts, walk)))
  {
    assert WellFormed(map[]);
  }

  /** Rescanning is idempotent: a second run over the same tree, against the
      manifest the first completed run extended, completes too, writes no
      row, leaves the manifest as it is, matches as many files and reports
      the same changed files with the same count. */
  lemma RescanIsIdempotent(manifest: string, exts: seq<string>, walk: seq<FileEntry>, format: int, host: Host)
    requires |manifest| == 0 || manifest[|manifest| - 1] == '\n'
    requires CleanHost(host) && CleanWalk(walk) && SizesAgree(walk)
    requires Run(manifest, true, exts, walk, format, host).Completed?
    ensures var first := Run(manifest, true, exts, walk, format, host);
      var grown := ManifestAfter(manifest, first);
      var second := Run(grown, true, exts, walk, format, host);
      && second.Completed?
      && second.report.appended == [] && second.report.newCount == 0
      && ManifestAfter(grown, second) == grown
      && second.report.total == first.report.total
      && second.report.changedCount == first.report.changedCount
      && second.report.changed == first.report.changed
  {
    var first := Run(manifest, true, exts, walk, format, host);
    var grown := ManifestAfter(manifest, first);
    GrownManifestLoads(manifest, exts, walk, format, host);
    var known := Load(manifest).value;
    var ms := Matches(exts, walk);
    var record := RecorderOf(format, host);
    RecorderOfSound(format, host);
    assert SizesAgree(ms);
    RunScans(manifest, exts, walk, format, host);
    RunScans(grown, exts, walk, format, host);
    RescanWritesNothing(known, host, record, ms);
    RescanSameChanges(known, host, record, ms);
    assert CsvLines([]) == [];
    assert grown + Concat([]) == grown;
  }
}
