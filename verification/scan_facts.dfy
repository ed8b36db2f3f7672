/** Properties of the directory scan: what the rows appended, the changed
    entries, the counters and the GB figures of a scan amount to, stated
    against definitions that do not follow the loop. */
module ScanFacts {
  import opened Wrappers
  import opened Strings
  import opened Manifest
  import opened Grammar
  import opened Scanner

  lemma {:induction false} GBSumAppend(host: Host, a: seq<ManifestRecord>, b: seq<ManifestRecord>)
    ensures GBSum(host, a + b) == GBSum(host, a) + GBSum(host, b)
    decreases |a|
  {
    if |a| > 0 {
      assert (a + b)[0] == a[0];
      assert (a + b)[1..] == a[1..] + b;
      GBSumAppend(host, a[1..], b);
    } else {
      assert a + b == b;
    }
  }

  /** A row is written only for a file the manifest did not know, with a
      positive size, and it is the row `record` builds for some matched file
      of that name. */
  lemma {:induction false} WrittenProvenance(known: Known, host: Host, record: Recorder, ms: seq<FileEntry>)
    requires Sound(record, host)
    ensures forall rec :: rec in Written(known, record, ms) ==>
      && rec.filename !in known && rec.bits > 0
      && exists e :: e in ms && e.name == rec.filename
                  && record(e) == Some(Appended(rec, host.toGB(rec.bits)))
    decreases |ms|
  {
    if |ms| > 0 {
      WrittenProvenance(known, host, record, ms[1..]);
      forall rec | rec in Written(known, record, ms)
        ensures && rec.filename !in known && rec.bits > 0
          && exists e :: e in ms && e.name == rec.filename
                      && record(e) == Some(Appended(rec, host.toGB(rec.bits)))
      {
        if rec in Written(known, record, ms[1..]) {
          var e :| e in ms[1..] && e.name == rec.filename
                   && record(e) == Some(Appended(rec, host.toGB(rec.bits)));
          assert e in ms;
        } else {
          assert ms[0] in ms;
        }
      }
    }
  }

  lemma SliceTwice<T>(a: seq<T>, b: seq<T>, c: seq<T>)
    requires |a| <= |b| <= |c| && b[..|a|] == a && c[..|b|] == b
    ensures c[|a|..] == b[|a|..] + c[|b|..]
  {
    assert c == b + c[|b|..];
  }

  /** The scan of a non-empty match list: its first step, then the rest. */
  lemma ScanNext(known: Known, host: Host, record: Recorder, r: Report, ms: seq<FileEntry>)
    requires WellFormed(known) && |ms| > 0
    ensures Step(known, host, record, r, ms[0]).Halted? ==>
      ScanFrom(known, host, record, r, ms) == Step(known, host, record, r, ms[0])
    ensures Step(known, host, record, r, ms[0]).Running? ==>
      ScanFrom(known, host, record, r, ms) ==
      ScanFrom(known, host, record, Step(known, host, record, r, ms[0]).report, ms[1..])
  {
  }

  lemma WrittenUnfold(known: Known, record: Recorder, ms: seq<FileEntry>)
    requires |ms| > 0
    ensures Written(known, record, ms) ==
      WrittenBy(known, record, ms[0]) + Written(known, record, ms[1..])
  {
  }

  lemma WrittenCons(known: Known, record: Recorder, e: FileEntry, ms: seq<FileEntry>)
    ensures Written(known, record, [e] + ms) ==
      WrittenBy(known, record, e) + Written(known, record, ms)
  {
    assert ([e] + ms)[0] == e;
    assert ([e] + ms)[1..] == ms;
  }

  /** `after` is `before` followed by a prefix of `w`. */
  ghost predicate Extends<T>(before: seq<T>, after: seq<T>, w: seq<T>)
  {
    |before| <= |after| <= |before| + |w| && after == before + w[..|after| - |before|]
  }

  lemma ExtendsCompose<T>(a: seq<T>, b: seq<T>, c: seq<T>, w1: seq<T>, w2: seq<T>)
    requires b == a + w1 && Extends(b, c, w2)
    ensures Extends(a, c, w1 + w2)
  {
    assert (w1 + w2)[..|c| - |a|] == w1 + w2[..|c| - |b|];
  }

  lemma ExtendsWithin<T>(a: seq<T>, b: seq<T>, w1: seq<T>, w2: seq<T>)
    requires Extends(a, b, w1)
    ensures Extends(a, b, w1 + w2)
  {
    assert (w1 + w2)[..|b| - |a|] == w1[..|b| - |a|];
  }

  /** One step appends the row its file writes, if any. */
  lemma StepWrites(known: Known, host: Host, record: Recorder, r: Report, e: FileEntry)
    requires WellFormed(known)
    ensures Extends(r.appended, Step(known, host, record, r, e).report.appended, WrittenBy(known, record, e))
    ensures Step(known, host, record, r, e).Running? ==>
      Step(known, host, record, r, e).report.appended == r.appended + WrittenBy(known, record, e)
  {
  }

  /** The rows a scan appends are exactly `Written`: all of them when the scan
      runs to the end, a prefix of them when it stops early. */
  lemma {:induction false} ScanWrites(known: Known, host: Host, record: Recorder, r: Report, ms: seq<FileEntry>)
    requires WellFormed(known)
    ensures Extends(r.appended, ScanFrom(known, host, record, r, ms).report.appended, Written(known, record, ms))
    ensures ScanFrom(known, host, record, r, ms).Running? ==>
      ScanFrom(known, host, record, r, ms).report.appended == r.appended + Written(known, record, ms)
    decreases |ms|
  {
    if |ms| > 0 {
      var head := WrittenBy(known, record, ms[0]);
      var rest := Written(known, record, ms[1..]);
      WrittenUnfold(known, record, ms);
      var s := Step(known, host, record, r, ms[0]);
      StepWrites(known, host, record, r, ms[0]);
      ScanNext(known, host, record, r, ms);
      if s.Running? {
        ScanWrites(known, host, record, s.report, ms[1..]);
        var p := ScanFrom(known, host, record, s.report, ms[1..]);
        assert ScanFrom(known, host, record, r, ms) == p;
        ExtendsCompose(r.appended, s.report.appended, p.report.appended, head, rest);
        if p.Running? {
          AppendAssoc(r.appended, head, rest);
        }
      } else {
        assert ScanFrom(known, host, record, r, ms) == s;
        ExtendsWithin(r.appended, s.report.appended, head, rest);
      }
    } else {
      assert Written(known, record, ms) == [];
      assert ScanFrom(known, host, record, r, ms) == Running(r);
      assert r.appended + [] == r.appended;
    }
  }

  /** One step adds the GB of the row it writes to the new-GB figure, and at
      least that much to the total. */
  lemma StepGB(known: Known, host: Host, record: Recorder, r: Report, e: FileEntry)
    requires WellFormed(known)
    requires Sound(record, host)
    requires forall n: nat :: host.toGB(n) >= 0.0
    ensures var p := Step(known, host, record, r, e);
      && p.report.newGB == r.newGB + GBSum(host, p.report.appended[|r.appended|..])
      && r.totalGB <= p.report.totalGB
      && p.report.newGB - r.newGB <= p.report.totalGB - r.totalGB
  {
    var p := Step(known, host, record, r, e);
    var added := p.report.appended[|r.appended|..];
    if |added| == 1 {
      assert added[1..] == [];
    } else {
      assert added == [];
    }
  }

  /** The GB of the new files is the sum over the rows appended, and never
      exceeds the GB of all matched files when sizes are non-negative. */
  lemma {:induction false} ScanGB(known: Known, host: Host, record: Recorder, r: Report, ms: seq<FileEntry>)
    requires WellFormed(known)
    requires Sound(record, host)
    requires forall n: nat :: host.toGB(n) >= 0.0
    ensures ScanFrom(known, host, record, r, ms).report.newGB ==
      r.newGB + GBSum(host, ScanFrom(known, host, record, r, ms).report.appended[|r.appended|..])
    ensures r.totalGB <= ScanFrom(known, host, record, r, ms).report.totalGB
    ensures ScanFrom(known, host, record, r, ms).report.newGB - r.newGB <=
      ScanFrom(known, host, record, r, ms).report.totalGB - r.totalGB
    decreases |ms|
  {
    if |ms| > 0 {
      var s := Step(known, host, record, r, ms[0]);
      StepGB(known, host, record, r, ms[0]);
      ScanNext(known, host, record, r, ms);
      if s.Running? {
        ScanGB(known, host, record, s.report, ms[1..]);
        var p := ScanFrom(known, host, record, s.report, ms[1..]);
        assert ScanFrom(known, host, record, r, ms) == p;
        var added := s.report.appended[|r.appended|..];
        var later := p.report.appended[|s.report.appended|..];
        SliceTwice(r.appended, s.report.appended, p.report.appended);
        GBSumAppend(host, added, later);
      } else {
        assert ScanFrom(known, host, record, r, ms) == s;
      }
    } else {
      assert ms == [];
      assert r.appended[|r.appended|..] == [];
    }
  }

  lemma UnionAssoc<T>(a: set<T>, b: set<T>, c: set<T>)
    ensures a + b + c == a + (b + c)
  {
  }

  /** The names a drifted file adds to the changed entries. */
  function DriftedName(known: Known, e: FileEntry): set<string>
    requires WellFormed(known)
  {
    if Drifted(known, e) then {e.name} else {}
  }

  lemma DriftedNamesUnfold(known: Known, ms: seq<FileEntry>)
    requires WellFormed(known) && |ms| > 0
    ensures DriftedNames(known, ms) == DriftedName(known, ms[0]) + DriftedNames(known, ms[1..])
  {
    assert forall e :: e in ms <==> e == ms[0] || e in ms[1..];
  }

  /** One step records its file as changed exactly when it drifted. */
  lemma StepChanges(known: Known, host: Host, record: Recorder, r: Report, e: FileEntry)
    requires WellFormed(known)
    requires ChangedFromKnown(known, r)
    ensures ChangedFromKnown(known, Step(known, host, record, r, e).report)
    ensures Step(known, host, record, r, e).Running? ==>
      && Step(known, host, record, r, e).report.changed.Keys == r.changed.Keys + DriftedName(known, e)
      && Step(known, host, record, r, e).report.changedCount == r.changedCount + (if Drifted(known, e) then 1 else 0)
  {
  }

  /** The changed entries are exactly the drifted known files, each with its
      stored columns, and the changed counter counts every drifted match
      (a file matched twice counts twice, but is one entry). */
  lemma {:induction false} ScanChanges(known: Known, host: Host, record: Recorder, r: Report, ms: seq<FileEntry>)
    requires WellFormed(known)
    requires ChangedFromKnown(known, r)
    ensures ChangedFromKnown(known, ScanFrom(known, host, record, r, ms).report)
    ensures ScanFrom(known, host, record, r, ms).Running? ==>
      && ScanFrom(known, host, record, r, ms).report.changed.Keys == r.changed.Keys + DriftedNames(known, ms)
      && ScanFrom(known, host, record, r, ms).report.changedCount == r.changedCount + CountDrifted(known, ms)
    decreases |ms|
  {
    if |ms| > 0 {
      var s := Step(known, host, record, r, ms[0]);
      StepChanges(known, host, record, r, ms[0]);
      ScanNext(known, host, record, r, ms);
      if s.Running? {
        ScanChanges(known, host, record, s.report, ms[1..]);
        DriftedNamesUnfold(known, ms);
        var p := ScanFrom(known, host, record, s.report, ms[1..]);
        assert ScanFrom(known, host, record, r, ms) == p;
        UnionAssoc(r.changed.Keys, DriftedName(known, ms[0]), DriftedNames(known, ms[1..]));
      } else {
        assert ScanFrom(known, host, record, r, ms) == s;
      }
    } else {
      assert DriftedNames(known, ms) == {};
      assert ScanFrom(known, host, record, r, ms) == Running(r);
      assert r.changed.Keys + {} == r.changed.Keys;
    }
  }

  /** A completed run, in full: its rows are those the matched files write,
      its changed entries are the drifted files with their stored columns,
      its counters count those, and its new-GB figure sums the new rows. */
  lemma RunSummary(manifest: string, exts: seq<string>, walk: seq<FileEntry>, format: int, host: Host)
    requires forall n: nat :: host.toGB(n) >= 0.0
    requires Run(manifest, true, exts, walk, format, host).Completed?
    ensures Load(manifest).Success?
    ensures var known := Load(manifest).value;
      var ms := Matches(exts, walk);
      var r := Run(manifest, true, exts, walk, format, host).report;
      && r.appended == Written(known, RecorderOf(format, host), ms)
      && r.newCount == |Written(known, RecorderOf(format, host), ms)|
      && r.newGB == GBSum(host, r.appended)
      && r.newGB <= r.totalGB
      && r.changed.Keys == DriftedNames(known, ms)
      && r.changedCount == CountDrifted(known, ms)
      && (forall k :: k in r.changed ==> r.changed[k] == known[k])
  {
    var known := Load(manifest).value;
    assert WellFormed(map[]);
    var ms := Matches(exts, walk);
    var record := RecorderOf(format, host);
    RecorderOfSound(format, host);
    ScanWrites(known, host, record, Initial, ms);
    ScanGB(known, host, record, Initial, ms);
    ScanChanges(known, host, record, Initial, ms);
    assert Initial.appended + Written(known, record, ms) == Written(known, record, ms);
    var r := ScanFrom(known, host, record, Initial, ms).report;
    assert r.appended[|Initial.appended|..] == r.appended;
  }

  lemma WrittenPair(known: Known, record: Recorder, e: FileEntry)
    requires e.name !in known
    requires record(e).Some? && record(e).value.Appended?
    ensures Written(known, record, [e, e]) ==
      [record(e).value.rec, record(e).value.rec]
  {
    assert WrittenBy(known, record, e) == [record(e).value.rec];
    WrittenCons(known, record, e, []);
    WrittenCons(known, record, e, [e]);
    assert [e] + [e] == [e, e];
    assert [e] + [] == [e];
    assert Written(known, record, []) == [];
  }

  /** A new file matched twice, because its name ends with both configured
      extensions or the walk lists it twice, is written twice. */
  lemma DuplicateWrittenTwice(known: Known, record: Recorder, e: FileEntry,
                              exts: seq<string>)
    requires e.name !in known
    requires record(e).Some? && record(e).value.Appended?
    requires |exts| == 2 && EndsWith(e.name, exts[0]) && EndsWith(e.name, exts[1])
    ensures var rec := record(e).value.rec;
      && Written(known, record, Matches(exts, [e])) == [rec, rec]
      && Written(known, record, Matches(exts[..1], [e, e])) == [rec, rec]
  {
    assert [e][1..] == [];
    assert [e, e][1..] == [e];
    assert Filter([e], exts[0]) == [e];
    assert Filter([e], exts[1]) == [e];
    assert exts[1..][0] == exts[1] && exts[1..][1..] == [];
    assert Matches(exts[1..], [e]) == [e];
    assert Matches(exts, [e]) == [e, e];
    assert exts[..1][0] == exts[0] && exts[..1][1..] == [];
    assert Filter([e, e], exts[0]) == [e, e];
    assert Matches(exts[..1], [e, e]) == [e, e];
    WrittenPair(known, record, e);
  }

  // ---------------------------------------------------------------------
  // When a scan runs through
  // ---------------------------------------------------------------------

  /** A matched file does not stop the scan: its stored size column parses
      when the manifest knows it, and `record` gives a result when not. */
  predicate Proceeds(known: Known, record: Recorder, e: FileEntry)
    requires WellFormed(known)
  {
    if e.name in known then ParseInt(known[e.name][10]).Some? else record(e).Some?
  }

  /** A scan runs to the end exactly when every matched file proceeds. */
  lemma {:induction false} ScanRunsThrough(known: Known, host: Host, record: Recorder, r: Report, ms: seq<FileEntry>)
    requires WellFormed(known)
    ensures ScanFrom(known, host, record, r, ms).Running? <==>
      forall i :: 0 <= i < |ms| ==> Proceeds(known, record, ms[i])
    decreases |ms|
  {
    if |ms| > 0 {
      ScanNext(known, host, record, r, ms);
      var s := Step(known, host, record, r, ms[0]);
      if s.Running? {
        ScanRunsThrough(known, host, record, s.report, ms[1..]);
        assert forall i :: 1 <= i < |ms| ==> ms[i] == ms[1..][i - 1];
      }
    }
  }

  /** No matched file contributes a row, so none is written. */
  lemma {:induction false} WrittenNone(known: Known, record: Recorder, ms: seq<FileEntry>)
    requires forall i :: 0 <= i < |ms| ==> WrittenBy(known, record, ms[i]) == []
    ensures Written(known, record, ms) == []
    decreases |ms|
  {
    if |ms| > 0 {
      assert forall i :: 0 <= i < |ms| - 1 ==> ms[1..][i] == ms[i + 1];
      WrittenNone(known, record, ms[1..]);
      WrittenUnfold(known, record, ms);
    }
  }

  /** Every new file that `record` writes has its row among the written ones. */
  lemma {:induction false} WrittenHas(known: Known, record: Recorder, ms: seq<FileEntry>, i: nat)
    requires i < |ms| && ms[i].name !in known
    requires record(ms[i]).Some? && record(ms[i]).value.Appended?
    ensures record(ms[i]).value.rec in Written(known, record, ms)
    decreases i
  {
    WrittenUnfold(known, record, ms);
    if i > 0 {
      assert ms[1..][i - 1] == ms[i];
      WrittenHas(known, record, ms[1..], i - 1);
    }
  }

  /** Two manifests on which the same matched files drift give the same
      drift count and the same drifted names. */
  lemma {:induction false} DriftAgrees(k1: Known, k2: Known, ms: seq<FileEntry>)
    requires WellFormed(k1) && WellFormed(k2)
    requires forall i :: 0 <= i < |ms| ==> (Drifted(k1, ms[i]) <==> Drifted(k2, ms[i]))
    ensures CountDrifted(k1, ms) == CountDrifted(k2, ms)
    ensures DriftedNames(k1, ms) == DriftedNames(k2, ms)
    decreases |ms|
  {
    if |ms| > 0 {
      assert forall i :: 0 <= i < |ms| - 1 ==> ms[1..][i] == ms[i + 1];
      DriftAgrees(k1, k2, ms[1..]);
      DriftedNamesUnfold(k1, ms);
      DriftedNamesUnfold(k2, ms);
    } else {
      assert DriftedNames(k1, ms) == {} == DriftedNames(k2, ms);
    }
  }
}
