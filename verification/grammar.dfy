/** The test-vector file-name grammar read by TestVectorDirectoryParser.record:

      <Type>_<Batch>_<Period>_<DM>_<Z>_<S/N>_<Pulsar>_<Freq>[_<Index>].fil

    The name is split on `_`; the profile id names the pulse-profile file
    (`<Pulsar>_<Freq>[_<Index>].asc`) whose shape was injected. */
module Grammar {
  import opened Wrappers
  import opened Strings

  /** The columns `record` takes from a file name. */
  datatype NameFields = NameFields(
    kind: string,
    batch: string,
    period: string,
    dm: string,
    z: string,
    snr: string,
    profile: string,
    freq: string)

  /** `s.replace('.fil', '')`: every occurrence of `.fil` goes, whatever
      extension the scan was configured with. */
  function StripFil(s: string): string
  {
    Replace(s, ".fil", "")
  }

  /** The name-splitting part of `record`: no fields for 7 or fewer
      components; otherwise the first six components, the frequency with
      `.fil` removed, and a profile id that depends on the component count. */
  function ParseName(name: string): (r: Option<NameFields>)
    ensures r.None? <==> |Split(name, '_')| <= 7
  {
    var c := Split(name, '_');
    if |c| <= 7 then None
    else
      var freq := StripFil(c[7]);
      var profile :=
        if |c| == 8 then c[6] + "_" + freq
        else if |c| == 9 then c[6] + "_" + freq + "_" + StripFil(c[8])
        else c[6];
      Some(NameFields(c[0], c[1], c[2], c[3], c[4], c[5], profile, freq))
  }

  /** The fields of a name hold only characters of the name (and the `_`
      that joins the profile id's parts). */
  lemma ParseNameAvoids(name: string, banned: set<char>)
    requires Avoids(name, banned) && '_' !in banned
    requires ParseName(name).Some?
    ensures var f := ParseName(name).value;
      && Avoids(f.kind, banned) && Avoids(f.batch, banned) && Avoids(f.period, banned)
      && Avoids(f.dm, banned) && Avoids(f.z, banned) && Avoids(f.snr, banned)
      && Avoids(f.profile, banned) && Avoids(f.freq, banned)
  {
    var c := Split(name, '_');
    SplitPartsAvoid(name, '_', banned);
    assert forall i :: 0 <= i < |c| ==> Avoids(c[i], banned);
    assert Avoids("", banned) && Avoids("_", banned);
    var freq := StripFil(c[7]);
    ReplaceAvoids(c[7], ".fil", "", banned);
    AvoidsConcat(c[6], "_", banned);
    AvoidsConcat(c[6] + "_", freq, banned);
    if |c| == 9 {
      ReplaceAvoids(c[8], ".fil", "", banned);
      AvoidsConcat(c[6] + "_" + freq, "_", banned);
      AvoidsConcat(c[6] + "_" + freq + "_", StripFil(c[8]), banned);
    }
  }

  // ---------------------------------------------------------------------
  // The naming convention, stated forwards
  // ---------------------------------------------------------------------

  /** What a test-vector generator puts into a file name. */
  datatype VectorName = VectorName(
    kind: string,
    batch: string,
    period: string,
    dm: string,
    z: string,
    snr: string,
    pulsar: string,
    freq: string,
    index: Option<string>)

  /** The underscore-separated components of a name, before the extension. */
  function Components(v: VectorName): seq<string>
  {
    [v.kind, v.batch, v.period, v.dm, v.z, v.snr, v.pulsar, v.freq]
      + (if v.index.Some? then [v.index.value] else [])
  }

  /** The file name the convention gives a vector, with extension `ext`. */
  function FileNameOf(v: VectorName, ext: string): string
  {
    Join(Components(v), '_') + ext
  }

  /** The profile id of a vector: pulsar and frequency, plus the index that
      tells several profiles at one frequency apart. */
  function ProfileIdOf(v: VectorName): string
  {
    v.pulsar + "_" + v.freq + (if v.index.Some? then "_" + v.index.value else "")
  }

  /** No component holds `_`; the frequency and the index hold no `.` (the
      period, DM, Z and S/N may: `0.1`, `0.0`). */
  predicate Conventional(v: VectorName)
  {
    && '_' !in v.kind && '_' !in v.batch && '_' !in v.period && '_' !in v.dm
    && '_' !in v.z && '_' !in v.snr && '_' !in v.pulsar && '_' !in v.freq
    && '.' !in v.freq
    && (v.index.Some? ==> '_' !in v.index.value && '.' !in v.index.value)
  }

  lemma StripFilKeeps(s: string)
    requires '.' !in s
    ensures StripFil(s) == s
  {
    NoFirstCharAbsent(s, ".fil");
    ReplaceAbsent(s, ".fil", "");
  }

  lemma StripFilSuffix(s: string)
    requires '.' !in s
    ensures StripFil(s + ".fil") == s
  {
    NoMatchInPrefix(s, ".fil", "");
    ReplaceFirst(s, ".fil", "", "");
    assert s + ".fil" + "" == s + ".fil";
    assert s + "" + Replace("", ".fil", "") == s;
  }

  /** The file name of a well-formed vector splits back into its components,
      with the extension glued to the last one. */
  lemma SplitFileName(v: VectorName, ext: string)
    requires Conventional(v)
    requires '_' !in ext
    ensures var cs := Components(v);
      Split(FileNameOf(v, ext), '_') == cs[..|cs| - 1] + [cs[|cs| - 1] + ext]
  {
    var cs := Components(v);
    var parts := cs[..|cs| - 1] + [cs[|cs| - 1] + ext];
    JoinExtendLast(cs, '_', ext);
    forall i | 0 <= i < |parts| ensures '_' !in parts[i] {
      if i == |cs| - 1 {
        assert Avoids(parts[i], {'_'}) by {
          AvoidsConcat(cs[|cs| - 1], ext, {'_'});
        }
      } else {
        assert parts[i] == cs[i];
      }
    }
    JoinThenSplit(parts, '_');
  }

  /** Parsing inverts the naming convention: a well-formed `.fil` name gives
      back its fields, its frequency and the profile id `Pulsar_Freq` (eight
      components) or `Pulsar_Freq_Index` (nine). */
  lemma NameRoundTrip(v: VectorName)
    requires Conventional(v)
    ensures ParseName(FileNameOf(v, ".fil")) ==
      Some(NameFields(v.kind, v.batch, v.period, v.dm, v.z, v.snr, ProfileIdOf(v), v.freq))
  {
    SplitFileName(v, ".fil");
    var c := Split(FileNameOf(v, ".fil"), '_');
    if v.index.None? {
      assert c[7] == v.freq + ".fil";
      StripFilSuffix(v.freq);
      assert ProfileIdOf(v) == v.pulsar + "_" + v.freq;
    } else {
      assert c[7] == v.freq;
      assert c[8] == v.index.value + ".fil";
      StripFilKeeps(v.freq);
      StripFilSuffix(v.index.value);
      assert c[6] == v.pulsar;
      assert ProfileIdOf(v) == v.pulsar + "_" + v.freq + "_" + v.index.value;
    }
  }

  /** A name with one component past the index (ten in all) no longer
      carries the frequency in its profile id: the id is the pulsar alone,
      and the frequency column is the eighth component, untouched. */
  lemma {:induction false} ExtraComponentProfile(v: VectorName, extra: string)
    requires Conventional(v) && v.index.Some?
    requires '_' !in extra && '.' !in extra
    ensures ParseName(Join(Components(v) + [extra], '_') + ".fil") ==
      Some(NameFields(v.kind, v.batch, v.period, v.dm, v.z, v.snr, v.pulsar, v.freq))
  {
    var cs := Components(v) + [extra];
    var parts := cs[..|cs| - 1] + [extra + ".fil"];
    JoinExtendLast(cs, '_', ".fil");
    forall i | 0 <= i < |parts| ensures '_' !in parts[i] {
      if i == |cs| - 1 {
        assert Avoids(parts[i], {'_'}) by {
          AvoidsConcat(extra, ".fil", {'_'});
        }
      } else {
        assert parts[i] == cs[i];
      }
    }
    JoinThenSplit(parts, '_');
    var c := Split(Join(cs, '_') + ".fil", '_');
    assert |c| == 10;
    assert c[6] == v.pulsar && c[7] == v.freq;
    StripFilKeeps(v.freq);
  }

  /** Only `.fil` is stripped: with another extension (a single leading dot,
      not starting `.fil`) the frequency column and the profile id keep it. */
  lemma ForeignExtensionKept(v: VectorName, ext: string)
    requires Conventional(v) && v.index.None?
    requires |ext| > 0 && ext[0] == '.' && '.' !in ext[1..] && '_' !in ext
    requires !StartsWith(ext, ".fil")
    ensures ParseName(FileNameOf(v, ext)).Some?
    ensures ParseName(FileNameOf(v, ext)).value.freq == v.freq + ext
    ensures ParseName(FileNameOf(v, ext)).value.profile == v.pulsar + "_" + v.freq + ext
  {
    SplitFileName(v, ext);
    var c := Split(FileNameOf(v, ext), '_');
    assert c[7] == v.freq + ext;
    var s := v.freq + ext;
    forall i | 0 <= i <= |s|
      ensures !MatchAt(s, ".fil", i)
    {
      if i + 4 <= |s| {
        if i < |v.freq| {
          assert s[i] == v.freq[i];
          assert s[i..i + 4][0] != '.';
        } else if i == |v.freq| {
          assert s[i..i + 4] == ext[..4];
        } else {
          assert s[i] == ext[1..][i - |v.freq| - 1];
          assert s[i..i + 4][0] != '.';
        }
      }
    }
    ReplaceAbsent(s, ".fil", "");
  }
}
