/** Building the table of known hashes: all versions that share a class are kept in one string. */
module VersionHashes {
  import opened Options
  import opened ArchiveScan
  import Text

  datatype Entry = Entry(name: string, version: string, cve: string)

  predicate VersionAlreadyExist(version: string, versions: seq<string>) {
    version in versions
  }

  function AddVersion(stored: string, version: string): string {
    if VersionAlreadyExist(version, Text.Split(stored, VERSION_SEPARATOR)) then stored
    else stored + VERSION_SEPARATOR + version
  }

  function NameOf(f: Finding): string {
    f.path + PATH_SEPARATOR + f.fileName
  }

  /** One library of the file; two CVEs for one hash stop the program. */
  function Load(table: map<string, Entry>, f: Finding): Option<map<string, Entry>> {
    if f.hash !in table then Some(table[f.hash := Entry(NameOf(f), f.version, f.cve)])
    else if table[f.hash].cve != f.cve then None
    else Some(table[f.hash := Entry(NameOf(f), AddVersion(table[f.hash].version, f.version), f.cve)])
  }

  function Loaded(fs: seq<Finding>): Option<map<string, Entry>> {
    if fs == [] then Some(map[])
    else
      var table := Loaded(fs[..|fs| - 1]);
      if table.None? then None else Load(table.value, fs[|fs| - 1])
  }

  method LoadVersionHashes(vulnerableLibraries: seq<Finding>) returns (hashLookup: Option<map<string, Entry>>)
    ensures hashLookup == Loaded(vulnerableLibraries)
  {
    var table: map<string, Entry> := map[];
    for i := 0 to |vulnerableLibraries|
      invariant Loaded(vulnerableLibraries[..i]) == Some(table)
    {
      var f := vulnerableLibraries[i];
      assert vulnerableLibraries[..i + 1][..i] == vulnerableLibraries[..i];
      if f.hash in table {
        var existing := table[f.hash];
        if existing.cve != f.cve {
          StaysStopped(vulnerableLibraries, i + 1);
          return None;
        }
        var versions := Text.Split(existing.version, VERSION_SEPARATOR);
        var newVersion := existing.version;
        if !VersionAlreadyExist(f.version, versions) { newVersion := newVersion + VERSION_SEPARATOR + f.version; }
        table := table[f.hash := Entry(NameOf(f), newVersion, f.cve)];
      } else {
        table := table[f.hash := Entry(NameOf(f), f.version, f.cve)];
      }
    }
    assert vulnerableLibraries[..|vulnerableLibraries|] == vulnerableLibraries;
    hashLookup := Some(table);
  }

  lemma {:induction false} StaysStopped(fs: seq<Finding>, n: nat)
    requires n <= |fs| && Loaded(fs[..n]).None?
    ensures Loaded(fs).None?
    decreases |fs| - n
  {
    if n == |fs| {
      assert fs[..n] == fs;
    } else {
      assert fs[..n + 1][..n] == fs[..n];
      StaysStopped(fs, n + 1);
    }
  }

  // ----- what the table says -----

  /** The versions listed for one hash, in order. */
  function VersionsOf(fs: seq<Finding>, hash: string): seq<string> {
    if fs == [] then []
    else VersionsOf(fs[..|fs| - 1], hash) + if fs[|fs| - 1].hash == hash then [fs[|fs| - 1].version] else []
  }

  /** The elements without repetition, in the order first seen. */
  function FirstSeen(vs: seq<string>): seq<string> {
    if vs == [] then []
    else
      var before, last := FirstSeen(vs[..|vs| - 1]), vs[|vs| - 1];
      if last in before then before else before + [last]
  }

  /** Exactly one CVE is carried by all libraries with one hash. */
  ghost predicate OneCvePerHash(fs: seq<Finding>) {
    forall f, g :: f in fs && g in fs && f.hash == g.hash ==> f.cve == g.cve
  }

  lemma {:induction false} FirstSeenSet(vs: seq<string>)
    ensures forall v :: v in FirstSeen(vs) <==> v in vs
    ensures forall i, j :: 0 <= i < j < |FirstSeen(vs)| ==> FirstSeen(vs)[i] != FirstSeen(vs)[j]
  {
    if vs != [] {
      FirstSeenSet(vs[..|vs| - 1]);
      assert vs == vs[..|vs| - 1] + [vs[|vs| - 1]];
    }
  }

  /** Loading succeeds exactly when no hash has two CVEs; each hash then carries the CVE of its libraries. */
  lemma {:induction false} LoadsIffOneCve(fs: seq<Finding>)
    ensures Loaded(fs).Some? <==> OneCvePerHash(fs)
    ensures Loaded(fs).Some? ==> forall h :: h in Loaded(fs).value <==> exists f :: f in fs && f.hash == h
    ensures Loaded(fs).Some? ==>
      forall f :: f in fs ==> f.hash in Loaded(fs).value && Loaded(fs).value[f.hash].cve == f.cve
  {
    if fs != [] {
      var init, last := fs[..|fs| - 1], fs[|fs| - 1];
      assert fs == init + [last];
      LoadsIffOneCve(init);
      assert OneCvePerHash(fs) ==> OneCvePerHash(init);
      if Loaded(init).Some? && last.hash in Loaded(init).value {
        var g :| g in init && g.hash == last.hash;
        assert g in fs && last in fs;
      }
    }
  }

  lemma {:induction false} VersionsOfMember(fs: seq<Finding>, hash: string)
    ensures VersionsOf(fs, hash) == [] <==> forall f :: f in fs ==> f.hash != hash
  {
    if fs != [] {
      VersionsOfMember(fs[..|fs| - 1], hash);
      assert fs == fs[..|fs| - 1] + [fs[|fs| - 1]];
    }
  }

  ghost predicate Separable(vs: seq<string>) {
    forall v :: v in vs ==> Text.FreeOf(v, VERSION_SEPARATOR)
  }

  lemma {:induction false} JoinNext(parts: seq<string>, part: string, sep: string)
    requires parts != []
    ensures Text.Join(parts + [part], sep) == Text.Join(parts, sep) + sep + part
  {
    if |parts| == 1 {
      assert (parts + [part])[1..] == [part];
    } else {
      assert (parts + [part])[1..] == parts[1..] + [part];
      JoinNext(parts[1..], part, sep);
    }
  }

  /** As long as no version contains the separator, the stored string is the versions first seen, joined. */
  lemma {:induction false} StoredIsJoined(fs: seq<Finding>, hash: string)
    requires Loaded(fs).Some? && hash in Loaded(fs).value && Separable(VersionsOf(fs, hash))
    ensures VersionsOf(fs, hash) != []
    ensures Loaded(fs).value[hash].version == Text.Join(FirstSeen(VersionsOf(fs, hash)), VERSION_SEPARATOR)
  {
    LoadsIffOneCve(fs);
    VersionsOfMember(fs, hash);
    var init, last := fs[..|fs| - 1], fs[|fs| - 1];
    LoadsIffOneCve(init);
    VersionsOfMember(init, hash);
    var before, vs := VersionsOf(init, hash), VersionsOf(fs, hash);
    if last.hash != hash {
      assert vs == before;
      StoredIsJoined(init, hash);
    } else {
      assert vs == before + [last.version] && vs[..|before|] == before;
      if hash in Loaded(init).value {
        assert forall v :: v in before ==> v in vs;
        StoredIsJoined(init, hash);
        FirstSeenSet(before);
        assert FirstSeen(before) != [] by { assert before[0] in FirstSeen(before); }
        Text.SplitJoin(FirstSeen(before), VERSION_SEPARATOR);
        JoinNext(FirstSeen(before), last.version, VERSION_SEPARATOR);
      } else {
        assert before == [] && FirstSeen(before) == [];
        assert FirstSeen(vs) == [last.version];
      }
    }
  }

  lemma SeparatorFree(v: string)
    requires forall i :: 0 <= i <= |v| ==> !Text.OccursAt(v, VERSION_SEPARATOR, i)
    ensures Text.FreeOf(v, VERSION_SEPARATOR)
  {
    var s := v + VERSION_SEPARATOR[..1];
    forall i | 0 <= i < |v| ensures !Text.OccursAt(s, VERSION_SEPARATOR, i) {
      if i + 2 <= |v| {
        assert s[i..i + 2] == v[i..i + 2];
        assert !Text.OccursAt(v, VERSION_SEPARATOR, i);
      } else {
        assert s[i..i + 2][1] == ',';
      }
    }
  }

  /** Splitting the stored string gives exactly the versions of the hash, without repetition and in the order
      first seen, if and only if none of them contains the separator. */
  lemma StoredVersionsReadBackIff(fs: seq<Finding>, hash: string)
    requires Loaded(fs).Some? && hash in Loaded(fs).value
    ensures Text.Split(Loaded(fs).value[hash].version, VERSION_SEPARATOR) == FirstSeen(VersionsOf(fs, hash))
      <==> Separable(VersionsOf(fs, hash))
  {
    var stored, vs := Loaded(fs).value[hash].version, VersionsOf(fs, hash);
    FirstSeenSet(vs);
    if Text.Split(stored, VERSION_SEPARATOR) == FirstSeen(vs) {
      Text.SplitPartsAbsent(stored, VERSION_SEPARATOR);
      forall v | v in vs ensures Text.FreeOf(v, VERSION_SEPARATOR) {
        assert v in Text.Split(stored, VERSION_SEPARATOR);
        SeparatorFree(v);
      }
    }
    if Separable(vs) {
      StoredIsJoined(fs, hash);
      assert vs[0] in FirstSeen(vs);
      Text.SplitJoin(FirstSeen(vs), VERSION_SEPARATOR);
    }
  }

  /** One library whose version is "1, 2" is read back as two versions. */
  lemma VersionWithSeparatorSplits(f: Finding)
    requires f.version == "1, 2"
    ensures Loaded([f]) == Some(map[f.hash := Entry(NameOf(f), "1, 2", f.cve)])
    ensures FirstSeen(VersionsOf([f], f.hash)) == ["1, 2"] && Text.Split("1, 2", VERSION_SEPARATOR) == ["1", "2"]
  {
    hide Text.Split;
    assert [f][..0] == [] && VersionsOf([], f.hash) == [] && VersionsOf([f], f.hash) == ["1, 2"];
    assert ["1, 2"][..0] == [] && FirstSeen([]) == [];
    forall v | v in ["1", "2"] ensures Text.FreeOf(v, VERSION_SEPARATOR) { SeparatorFree(v); }
    Text.SplitJoin(["1", "2"], VERSION_SEPARATOR);
    assert ["1", "2"][1..] == ["2"] && Text.Join(["1", "2"], VERSION_SEPARATOR) == "1" + VERSION_SEPARATOR + "2";
    assert "1" + VERSION_SEPARATOR + "2" == "1, 2";
  }

  /** An entry names the last library with its hash. */
  lemma {:induction false} EntryNamesLast(fs: seq<Finding>, hash: string)
    requires Loaded(fs).Some? && hash in Loaded(fs).value
    ensures exists i :: IsLast(fs, hash, i) && Loaded(fs).value[hash].name == fs[i].path + "::" + fs[i].fileName
  {
    var n := |fs| - 1;
    if fs[n].hash == hash {
      assert IsLast(fs, hash, n);
    } else {
      EntryNamesLast(fs[..n], hash);
      var i :| IsLast(fs[..n], hash, i)
        && Loaded(fs[..n]).value[hash].name == fs[..n][i].path + "::" + fs[..n][i].fileName;
      assert IsLast(fs, hash, i);
    }
  }

  ghost predicate IsLast(fs: seq<Finding>, hash: string, i: int) {
    0 <= i < |fs| && fs[i].hash == hash && forall j :: i < j < |fs| ==> fs[j].hash != hash
  }
}
