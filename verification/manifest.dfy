/** The test-vector database file ("manifest") of TestVectorDirectoryParser:
    one comma-separated line of 14 fields per recorded file, keyed by the
    file name, and the loader that turns the file back into a dictionary. */
module Manifest {
  import opened Wrappers
  import opened Strings

  /** One manifest row, fields in the order WriteAsCSV writes them:
      file name, batch, type, period, DM, Z, S/N, profile id, frequency,
      full path, parent directory, size in bits, size in GB, MD5 digest. */
  datatype ManifestRecord = ManifestRecord(
    filename: string,
    batch: string,
    kind: string,
    period: string,
    dm: string,
    z: string,
    snr: string,
    profile: string,
    freq: string,
    path: string,
    parent: string,
    bits: nat,
    sizeGB: string,
    md5: string)

  /** The 14 columns of a row as text; the size in bits is written with `str`. */
  function Fields(r: ManifestRecord): seq<string>
  {
    [r.filename, r.batch, r.kind, r.period, r.dm, r.z, r.snr, r.profile,
     r.freq, r.path, r.parent, NatToString(r.bits), r.sizeGB, r.md5]
  }

  /** The line WriteAsCSV appends for a record: the columns joined by commas,
      terminated by a newline. */
  function CsvLine(r: ManifestRecord): string
  {
    Join(Fields(r), ',') + "\n"
  }

  /** The lines appended for a sequence of records, in order. */
  function CsvLines(rs: seq<ManifestRecord>): seq<string>
  {
    seq(|rs|, i requires 0 <= i < |rs| => CsvLine(rs[i]))
  }

  /** Text that neither splits a CSV column nor a line. */
  predicate CleanText(s: string)
  {
    Avoids(s, {',', '\n'})
  }

  /** Every text column of the record is clean. */
  predicate Clean(r: ManifestRecord)
  {
    && CleanText(r.filename) && CleanText(r.batch) && CleanText(r.kind)
    && CleanText(r.period) && CleanText(r.dm) && CleanText(r.z) && CleanText(r.snr)
    && CleanText(r.profile) && CleanText(r.freq) && CleanText(r.path)
    && CleanText(r.parent) && CleanText(r.sizeGB) && CleanText(r.md5)
  }

  /** A loaded row: the file name and the 13 remaining columns. */
  datatype Entry = Entry(key: string, value: seq<string>)

  /** The dictionary the scan consults: file name to the 13 stored columns
      (index 10 holds the size in bits). */
  type Known = map<string, seq<string>>

  predicate WellFormed(m: Known)
  {
    forall k :: k in m ==> |m[k]| == 13
  }

  /** getTestVectorEntry: a line is an entry exactly when it splits into 14
      comma-separated fields; `None` otherwise. The entry and the line carry
      the same text. */
  function GetTestVectorEntry(line: string): (r: Option<Entry>)
    ensures r.Some? <==> |Split(line, ',')| == 14
    ensures r.Some? ==> |r.value.value| == 13 && Join([r.value.key] + r.value.value, ',') == line
  {
    var c := Split(line, ',');
    if |c| != 14 then None
    else
      SplitThenJoin(line, ',');
      assert [c[0]] + c[1..] == c;
      Some(Entry(c[0], c[1..]))
  }

  /** The 13 columns the loader stores for a record written by CsvLine: the
      MD5 column keeps the line's newline. */
  function StoredValue(r: ManifestRecord): seq<string>
  {
    Fields(r)[1..13] + [r.md5 + "\n"]
  }

  lemma NatTextIsClean(n: nat)
    ensures CleanText(NatToString(n))
  {
    var s := NatToString(n);
    forall k | 0 <= k < |s| ensures s[k] !in {',', '\n'} {
      assert IsDigit(s[k]);
    }
  }

  /** A clean record's line splits on commas into its 14 columns, the last
      one carrying the newline. */
  lemma CsvSplit(r: ManifestRecord)
    requires Clean(r)
    ensures Split(CsvLine(r), ',') == Fields(r)[..13] + [r.md5 + "\n"]
  {
    var fs := Fields(r);
    var parts := fs[..13] + [r.md5 + "\n"];
    JoinExtendLast(fs, ',', "\n");
    NatTextIsClean(r.bits);
    forall i | 0 <= i < |parts| ensures ',' !in parts[i] {
      if i == 13 {
        assert Avoids(r.md5 + "\n", {','}) by { AvoidsConcat(r.md5, "\n", {','}); }
      } else {
        assert parts[i] == fs[i];
        assert CleanText(fs[i]);
      }
    }
    JoinThenSplit(parts, ',');
  }

  /** A clean record's line is a single line, ending with the newline. */
  lemma CsvLineIsLine(r: ManifestRecord)
    requires Clean(r)
    ensures ReadLines(CsvLine(r)) == [CsvLine(r)]
    ensures IsLine(CsvLine(r)) && EndsWith(CsvLine(r), "\n")
  {
    var fs := Fields(r);
    NatTextIsClean(r.bits);
    var body := Join(fs, ',');
    assert '\n' !in body by {
      forall i | 0 <= i < |fs| ensures Avoids(fs[i], {'\n'}) {
        assert CleanText(fs[i]);
      }
      JoinAvoids(fs, ',', {'\n'});
    }
    ReadOneLine(body);
    var line := CsvLine(r);
    assert line[|line| - 1..] == "\n";
    forall k | 0 <= k < |line| - 1 ensures line[k] != '\n' {
      assert line[k] == body[k];
    }
  }

  /** Round trip of the line format: a clean record's line reads back as a
      single line whose entry is keyed by the file name and whose column 10
      parses (with `int`) to the size in bits. */
  lemma CsvRoundTrip(r: ManifestRecord)
    requires Clean(r)
    ensures GetTestVectorEntry(CsvLine(r)) == Some(Entry(r.filename, StoredValue(r)))
    ensures StoredValue(r)[10] == NatToString(r.bits)
    ensures ParseInt(StoredValue(r)[10]) == Some(r.bits)
    ensures ReadLines(CsvLine(r)) == [CsvLine(r)]
    ensures IsLine(CsvLine(r)) && EndsWith(CsvLine(r), "\n")
  {
    CsvSplit(r);
    var parts := Split(CsvLine(r), ',');
    assert parts[0] == r.filename;
    assert parts[1..] == StoredValue(r);
    ParseIntOfNat(r.bits);
    CsvLineIsLine(r);
  }

  // ---------------------------------------------------------------------
  // Loading the file
  // ---------------------------------------------------------------------

  /** The loop of `parse` over the manifest lines: each entry is stored under
      its key, a later line overwriting an earlier one; the first line that is
      not an entry ends the load with that line (in the source the `None` it
      yields cannot be unpacked, which raises). */
  function LoadFrom(m: Known, lines: seq<string>): (r: Result<Known, string>)
    ensures r.Failure? <==> exists i :: 0 <= i < |lines| && |Split(lines[i], ',')| != 14
    ensures r.Failure? ==> r.error in lines && |Split(r.error, ',')| != 14
    ensures r.Success? && WellFormed(m) ==> WellFormed(r.value)
    ensures r.Success? ==> m.Keys <= r.value.Keys
    decreases |lines|
  {
    if |lines| == 0 then Success(m)
    else
      match GetTestVectorEntry(lines[0])
      case None => Failure(lines[0])
      case Some(e) =>
        var r := LoadFrom(m[e.key := e.value], lines[1..]);
        assert forall i :: 1 <= i < |lines| ==> lines[i] == lines[1..][i - 1];
        assert forall i :: 0 <= i < |lines[1..]| ==> lines[1..][i] == lines[i + 1];
        r
  }

  /** The dictionary loaded from the manifest text (empty for an absent or
      empty file). */
  function Load(content: string): Result<Known, string>
  {
    LoadFrom(map[], ReadLines(content))
  }

  /** The key of a line: its first comma-separated field. */
  function KeyOf(line: string): string
  {
    Split(line, ',')[0]
  }

  /** The stored columns of a line: all fields after the first. */
  function ValueOf(line: string): seq<string>
  {
    Split(line, ',')[1..]
  }

  /** Line `i` is the last line keyed `k`. */
  predicate LastWith(lines: seq<string>, k: string, i: int)
  {
    0 <= i < |lines| && KeyOf(lines[i]) == k &&
    forall j :: i < j < |lines| ==> KeyOf(lines[j]) != k
  }

  /** What a successful load holds: exactly the old keys and the line keys;
      a key's value comes from its last line, or is the old one when no line
      carries that key. */
  lemma {:induction false} LoadFromSpec(m: Known, lines: seq<string>)
    requires LoadFrom(m, lines).Success?
    ensures var m' := LoadFrom(m, lines).value;
      && (forall k :: k in m' <==> k in m || exists i :: 0 <= i < |lines| && KeyOf(lines[i]) == k)
      && (forall k, i :: LastWith(lines, k, i) ==> k in m' && m'[k] == ValueOf(lines[i]))
      && (forall k :: k in m && (forall i :: 0 <= i < |lines| ==> KeyOf(lines[i]) != k) ==> m'[k] == m[k])
    decreases |lines|
  {
    if |lines| > 0 {
      var e := GetTestVectorEntry(lines[0]).value;
      assert e.key == KeyOf(lines[0]) && e.value == ValueOf(lines[0]);
      var m1 := m[e.key := e.value];
      var rest := lines[1..];
      LoadFromSpec(m1, rest);
      var m' := LoadFrom(m, lines).value;
      assert m' == LoadFrom(m1, rest).value;
      forall k
        ensures k in m' <==> k in m || exists i :: 0 <= i < |lines| && KeyOf(lines[i]) == k
      {
        if exists i :: 0 <= i < |rest| && KeyOf(rest[i]) == k {
          var i :| 0 <= i < |rest| && KeyOf(rest[i]) == k;
          assert KeyOf(lines[i + 1]) == k;
        }
        if exists i :: 0 <= i < |lines| && KeyOf(lines[i]) == k {
          var i :| 0 <= i < |lines| && KeyOf(lines[i]) == k;
          if i > 0 { assert KeyOf(rest[i - 1]) == k; }
        }
      }
      forall k, i | LastWith(lines, k, i)
        ensures k in m' && m'[k] == ValueOf(lines[i])
      {
        if i > 0 {
          assert LastWith(rest, k, i - 1);
        } else {
          assert forall j :: 0 <= j < |rest| ==> KeyOf(rest[j]) != k by {
            forall j | 0 <= j < |rest| ensures KeyOf(rest[j]) != k {
              assert rest[j] == lines[j + 1];
            }
          }
        }
      }
      forall k | k in m && (forall i :: 0 <= i < |lines| ==> KeyOf(lines[i]) != k)
        ensures m'[k] == m[k]
      {
        assert KeyOf(lines[0]) != k;
        assert forall j :: 0 <= j < |rest| ==> KeyOf(rest[j]) != k by {
          forall j | 0 <= j < |rest| ensures KeyOf(rest[j]) != k {
            assert rest[j] == lines[j + 1];
          }
        }
      }
    }
  }

  /** Loading two runs of lines is loading the first, then the second on top. */
  lemma {:induction false} LoadFromAppend(m: Known, a: seq<string>, b: seq<string>)
    ensures LoadFrom(m, a + b) ==
      match LoadFrom(m, a)
      case Failure(e) => Failure(e)
      case Success(m1) => LoadFrom(m1, b)
    decreases |a|
  {
    if |a| == 0 {
      assert a + b == b;
    } else {
      assert (a + b)[0] == a[0];
      assert (a + b)[1..] == a[1..] + b;
      match GetTestVectorEntry(a[0])
      case None =>
      case Some(e) =>
        LoadFromAppend(m[e.key := e.value], a[1..], b);
    }
  }

  /** The dictionary after storing the rows of `rs`, in order, on top of `m`. */
  function Absorb(m: Known, rs: seq<ManifestRecord>): Known
    decreases |rs|
  {
    if |rs| == 0 then m
    else Absorb(m[rs[0].filename := StoredValue(rs[0])], rs[1..])
  }

  /** Loading lines written for clean records stores each record's columns
      under its file name. */
  lemma {:induction false} LoadWrittenLines(m: Known, rs: seq<ManifestRecord>)
    requires forall i :: 0 <= i < |rs| ==> Clean(rs[i])
    ensures LoadFrom(m, CsvLines(rs)) == Success(Absorb(m, rs))
    decreases |rs|
  {
    if |rs| > 0 {
      CsvRoundTrip(rs[0]);
      assert CsvLines(rs)[0] == CsvLine(rs[0]);
      assert CsvLines(rs)[1..] == CsvLines(rs[1..]);
      LoadWrittenLines(m[rs[0].filename := StoredValue(rs[0])], rs[1..]);
    }
  }

  /** The keys after Absorb: the old keys and the record names. */
  lemma {:induction false} AbsorbKeys(m: Known, rs: seq<ManifestRecord>)
    ensures forall k :: k in Absorb(m, rs) <==> k in m || exists i :: 0 <= i < |rs| && rs[i].filename == k
    decreases |rs|
  {
    if |rs| > 0 {
      var m1 := m[rs[0].filename := StoredValue(rs[0])];
      var rest := rs[1..];
      AbsorbKeys(m1, rest);
      assert Absorb(m, rs) == Absorb(m1, rest);
      forall k
        ensures k in Absorb(m, rs) <==> k in m || exists i :: 0 <= i < |rs| && rs[i].filename == k
      {
        if exists i :: 0 <= i < |rest| && rest[i].filename == k {
          var i :| 0 <= i < |rest| && rest[i].filename == k;
          assert rs[i + 1].filename == k;
        }
        if exists i :: 0 <= i < |rs| && rs[i].filename == k {
          var i :| 0 <= i < |rs| && rs[i].filename == k;
          if i > 0 { assert rest[i - 1].filename == k; }
        }
      }
    }
  }

  /** A record name maps, after Absorb, to the columns of the LAST record of
      that name: a later assignment to a key replaces an earlier one. */
  lemma {:induction false} AbsorbRecordValue(m: Known, rs: seq<ManifestRecord>, k: string)
    requires exists i :: 0 <= i < |rs| && rs[i].filename == k
    ensures k in Absorb(m, rs)
    ensures exists i :: 0 <= i < |rs| && rs[i].filename == k
                        && (forall j :: i < j < |rs| ==> rs[j].filename != k)
                        && Absorb(m, rs)[k] == StoredValue(rs[i])
    decreases |rs|
  {
    var m1 := m[rs[0].filename := StoredValue(rs[0])];
    var rest := rs[1..];
    assert Absorb(m, rs) == Absorb(m1, rest);
    if exists i :: 0 <= i < |rest| && rest[i].filename == k {
      AbsorbRecordValue(m1, rest, k);
      var i :| 0 <= i < |rest| && rest[i].filename == k
               && (forall j :: i < j < |rest| ==> rest[j].filename != k)
               && Absorb(m1, rest)[k] == StoredValue(rest[i]);
      assert rs[i + 1] == rest[i];
      forall j | i + 1 < j < |rs| ensures rs[j].filename != k {
        assert rs[j] == rest[j - 1];
      }
    } else {
      assert forall j :: 1 <= j < |rs| ==> rs[j].filename != k by {
        forall j | 1 <= j < |rs| ensures rs[j].filename != k { assert rs[j] == rest[j - 1]; }
      }
      assert rs[0].filename == k;
      AbsorbOtherValue(m1, rest, k);
    }
  }

  /** A key no record names keeps its value through Absorb. */
  lemma {:induction false} AbsorbOtherValue(m: Known, rs: seq<ManifestRecord>, k: string)
    requires k in m
    requires forall i :: 0 <= i < |rs| ==> rs[i].filename != k
    ensures k in Absorb(m, rs) && Absorb(m, rs)[k] == m[k]
    decreases |rs|
  {
    if |rs| > 0 {
      var m1 := m[rs[0].filename := StoredValue(rs[0])];
      var rest := rs[1..];
      assert Absorb(m, rs) == Absorb(m1, rest);
      assert rs[0].filename != k;
      assert forall j :: 0 <= j < |rest| ==> rest[j].filename != k by {
        forall j | 0 <= j < |rest| ensures rest[j].filename != k {
          assert rest[j] == rs[j + 1];
        }
      }
      AbsorbOtherValue(m1, rest, k);
    }
  }

  /** Appending the lines of clean records to a manifest text that ends with
      a newline (or is empty) and loading the result is loading the text,
      then storing the records' columns on top, in order. */
  lemma AppendThenLoad(content: string, rs: seq<ManifestRecord>)
    requires |content| == 0 || content[|content| - 1] == '\n'
    requires Load(content).Success?
    requires forall i :: 0 <= i < |rs| ==> Clean(rs[i])
    ensures Load(content + Concat(CsvLines(rs))) == Success(Absorb(Load(content).value, rs))
  {
    var lines := CsvLines(rs);
    forall i | 0 <= i < |lines| ensures IsLine(lines[i]) && EndsWith(lines[i], "\n") {
      CsvLineIsLine(rs[i]);
    }
    ReadLinesOfConcat(lines);
    ReadLinesAppend(content, Concat(lines));
    LoadFromAppend(map[], ReadLines(content), lines);
    LoadWrittenLines(Load(content).value, rs);
  }

  /** The stored size column of a written row is the record's size. */
  lemma StoredSize(r: ManifestRecord)
    ensures |StoredValue(r)| == 13
    ensures ParseInt(StoredValue(r)[10]) == Some(r.bits)
  {
    assert StoredValue(r)[10] == NatToString(r.bits);
    ParseIntOfNat(r.bits);
  }

  /** Storing written rows keeps every entry at thirteen columns. */
  lemma {:induction false} AbsorbWellFormed(m: Known, rs: seq<ManifestRecord>)
    requires WellFormed(m)
    ensures WellFormed(Absorb(m, rs))
    decreases |rs|
  {
    if |rs| > 0 {
      StoredSize(rs[0]);
      AbsorbWellFormed(m[rs[0].filename := StoredValue(rs[0])], rs[1..]);
    }
  }
}
