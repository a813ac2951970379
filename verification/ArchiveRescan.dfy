/** What a scan reports after an archive has been patched. */
module ArchiveRescan {
  import opened Options
  import opened Archive
  import opened ArchiveScan
  import opened ZipNames

  /** A finding in the patched archive goes when its version is patchable or it is the removed class;
      otherwise it stays, without a JndiLookup hash. */
  function AfterPatchOne(sc: Scanner, where: seq<string>, l: Located): seq<Located> {
    if l.where != where then [l]
    else if l.finding.fileName == JNDI_LOOKUP || Patchable(sc, l.finding.version) then []
    else [Located(l.where, l.finding.(jndiLookupHash := ""))]
  }

  function AfterPatch(sc: Scanner, where: seq<string>, ls: seq<Located>): seq<Located> {
    if ls == [] then [] else AfterPatchOne(sc, where, ls[0]) + AfterPatch(sc, where, ls[1..])
  }

  lemma {:induction false} AfterPatchAppend(sc: Scanner, where: seq<string>, a: seq<Located>, b: seq<Located>)
    ensures AfterPatch(sc, where, a + b) == AfterPatch(sc, where, a) + AfterPatch(sc, where, b)
  {
    if a == [] {
      assert a + b == b;
    } else {
      assert (a + b)[0] == a[0] && (a + b)[1..] == a[1..] + b;
      AfterPatchAppend(sc, where, a[1..], b);
    }
  }

  lemma {:induction false} AfterPatchElsewhere(sc: Scanner, where: seq<string>, ls: seq<Located>)
    requires forall l :: l in ls ==> l.where != where
    ensures AfterPatch(sc, where, ls) == ls
  {
    if ls != [] { AfterPatchElsewhere(sc, where, ls[1..]); }
  }

  predicate IsImpostor(m: Member) {
    !m.isDir && m.name != JNDI_LOOKUP && ListedName(m.name) == JNDI_LOOKUP
  }

  /** Some file that is not named JndiLookup.class is listed under that name: the scanner takes it for the class,
      the patcher does not. */
  ghost predicate HasImpostor(ms: seq<Member>) {
    exists m :: m in ms && IsImpostor(m)
  }

  lemma ListedAsTarget(m: Member)
    requires !m.isDir && ListedName(m.name) == JNDI_LOOKUP && !IsImpostor(m)
    ensures IsTarget(m)
  {
  }

  lemma {:induction false} NoneListed(ms: seq<Member>, name: string)
    requires forall m :: m in ms && !m.isDir ==> ListedName(m.name) != name
    ensures Listed(ms, name) == []
  {
    hide ListedName;
    if ms != [] { NoneListed(ms[1..], name); }
  }

  lemma NoTargetLeft(ms: seq<Member>)
    requires !HasImpostor(ms)
    ensures Open(Without(ms, IsTarget), JNDI_LOOKUP) == []
  {
    hide ListedName, ValidPath, Text.Join;
    forall m | m in Without(ms, IsTarget) && !m.isDir ensures ListedName(m.name) != JNDI_LOOKUP {
      MemberOfWithout(ms, IsTarget, m);
      if ListedName(m.name) == JNDI_LOOKUP { ListedAsTarget(m); }
    }
    NoneListed(Without(ms, IsTarget), JNDI_LOOKUP);
  }

  /** An archive with an impostor does not hold the class itself, so that a patch leaves it as it is. */
  lemma ImpostorMeansNoTarget(ms: seq<Member>)
    requires Tidy(ms) && HasImpostor(ms)
    ensures forall m :: m in ms ==> !IsTarget(m)
  {
    hide Text.Join;
    JndiLookupIsProper();
    var n :| n in ms && IsImpostor(n);
    forall m | m in ms ensures !IsTarget(m) {
      if IsTarget(m) { UniqueMember(ms, m, n); }
    }
  }

  /** The archive that was patched itself. */
  lemma {:induction false} RescanHere(sc: Scanner, where: seq<string>, all: seq<Member>, ms: seq<Member>)
    requires HashNeverEmpty(sc) && !HasImpostor(all)
    ensures ScanArchive(sc, where, Without(all, IsTarget), Without(ms, IsTarget))
      == AfterPatch(sc, where, ScanArchive(sc, where, all, ms))
    decreases ms
  {
    hide Identify, FileExt, Text.Join;
    if ms != [] {
      RescanHere(sc, where, all, ms[1..]);
      AfterPatchAppend(sc, where, ScanMember(sc, where, all, ms[0]), ScanArchive(sc, where, all, ms[1..]));
      RescanMemberHere(sc, where, all, ms[0]);
      if !IsTarget(ms[0]) {
        assert Without(ms, IsTarget)[0] == ms[0] && Without(ms, IsTarget)[1..] == Without(ms[1..], IsTarget);
      }
    }
  }

  lemma RescanMemberHere(sc: Scanner, where: seq<string>, all: seq<Member>, m: Member)
    requires HashNeverEmpty(sc) && !HasImpostor(all)
    ensures AfterPatch(sc, where, ScanMember(sc, where, all, m))
      == if IsTarget(m) then [] else ScanMember(sc, where, Without(all, IsTarget), m)
  {
    hide FileExt, Open, Text.Join, HasImpostor;
    NoTargetLeft(all);
    JndiLookupIsClass();
    if !IsClassName(m.name) {
      ScanMemberUnder(sc, where, all, m);
      forall l | l in ScanMember(sc, where, all, m) ensures l.where != where {
        assert where + [m.name] <= l.where;
      }
      AfterPatchElsewhere(sc, where, ScanMember(sc, where, all, m));
    }
  }

  /** Below the top a patch changes archives only, none of which is listed as the class. */
  lemma {:induction false} OpenAfter(ms: seq<Member>, path: seq<string>)
    requires path != [] && ArchivePath(path)
    ensures Listed(RemoveAt(ms, path, IsTarget), JNDI_LOOKUP) == Listed(ms, JNDI_LOOKUP)
  {
    if ms != [] {
      hide ListedName, FileExt, RemoveAt, Text.Join;
      assert path[0] in path;
      RemoveBelow(ms, path, IsTarget);
      OpenAfter(ms[1..], path);
      if Entered(ms[0], path[0]) { ArchiveIsNotListedAsTarget(ms[0].name); }
    }
  }

  /** A scan of the patched tree gives the findings of the tree before, with those at the patched
      archive settled and all others as they were, in the same order. */
  lemma {:induction false} RescanAfterRemove(sc: Scanner, where: seq<string>, path: seq<string>, all: seq<Member>,
      ms: seq<Member>)
    requires HashNeverEmpty(sc) && ArchivePath(path) && Tidy(ms)
    requires !HasImpostor(if path == [] then all else MembersAt(ms, path))
    ensures ScanArchive(sc, where, RemoveAt(all, path, IsTarget), RemoveAt(ms, path, IsTarget))
      == AfterPatch(sc, where + path, ScanArchive(sc, where, all, ms))
    decreases |path|, |ms|
  {
    hide HasImpostor, FileExt, Identify, Text.Join;
    if path == [] {
      assert where + path == where;
      RemoveAtHere(all, IsTarget);
      RemoveAtHere(ms, IsTarget);
      RescanHere(sc, where, all, ms);
    } else if ms != [] {
      NoImpostorBelow(ms, path);
      RescanAfterRemove(sc, where, path, all, ms[1..]);
      AfterPatchAppend(sc, where + path, ScanMember(sc, where, all, ms[0]), ScanArchive(sc, where, all, ms[1..]));
      RemoveBelow(ms, path, IsTarget);
      RescanMember(sc, where, path, all, ms[0]);
    }
  }

  lemma TidyRest(ms: seq<Member>)
    requires Tidy(ms) && ms != []
    ensures Tidy(ms[1..]) && (forall n :: n in ms[1..] ==> n.name != ms[0].name)
    ensures ms[0].body.Zip? ==> Tidy(ms[0].body.members)
  {
    hide ListedName;
  }

  lemma {:induction false} NoSecondEntry(ms: seq<Member>, path: seq<string>, name: string)
    requires path != [] && path[0] == name && forall m :: m in ms ==> m.name != name
    ensures MembersAt(ms, path) == []
  {
    if ms != [] { NoSecondEntry(ms[1..], path, name); }
  }

  lemma NoImpostorBelow(ms: seq<Member>, path: seq<string>)
    requires Tidy(ms) && ms != [] && path != [] && !HasImpostor(MembersAt(ms, path))
    ensures Tidy(ms[1..]) && !HasImpostor(MembersAt(ms[1..], path))
    ensures Entered(ms[0], path[0]) ==>
      Tidy(ms[0].body.members) && !HasImpostor(MembersAt(ms[0].body.members, path[1..]))
  {
    hide IsImpostor;
    TidyRest(ms);
    if Entered(ms[0], path[0]) { NoSecondEntry(ms[1..], path, ms[0].name); }
  }

  lemma {:induction false} RescanMember(sc: Scanner, where: seq<string>, path: seq<string>, all: seq<Member>, m: Member)
    requires HashNeverEmpty(sc) && ArchivePath(path) && path != []
    requires Entered(m, path[0]) ==>
      Tidy(m.body.members) && !HasImpostor(MembersAt(m.body.members, path[1..]))
    ensures |Act(m, path, IsTarget)| == 1
    ensures ScanMember(sc, where, RemoveAt(all, path, IsTarget), Act(m, path, IsTarget)[0])
      == AfterPatch(sc, where + path, ScanMember(sc, where, all, m))
    decreases |path|, 0
  {
    hide AfterPatch, Identify, FileExt, RemoveAt, HasImpostor, Tidy, Text.Join;
    assert path[0] in path;
    if IsClassName(m.name) {
      RescanClass(sc, where, path, all, m);
    } else if Entered(m, path[0]) {
      EmptyPathMembers(m.body.members);
      RescanAfterRemove(sc, where + [m.name], path[1..], m.body.members, m.body.members);
      assert path == [m.name] + path[1..];
      assert where + [m.name] + path[1..] == where + path;
    } else if IsArchiveName(m.name) {
      ElsewhereInMember(sc, where, path, all, m);
      AfterPatchElsewhere(sc, where + path, ScanMember(sc, where, all, m));
    } else {
      AfterPatchElsewhere(sc, where + path, []);
    }
  }

  lemma EmptyPathMembers(ms: seq<Member>)
    ensures MembersAt(ms, []) == ms
  {
  }

  lemma RescanClass(sc: Scanner, where: seq<string>, path: seq<string>, all: seq<Member>, m: Member)
    requires ArchivePath(path) && path != [] && IsClassName(m.name)
    ensures Act(m, path, IsTarget) == [m] || (Entered(m, path[0]) && IsArchiveName(m.name))
    ensures ScanMember(sc, where, RemoveAt(all, path, IsTarget), m)
      == AfterPatch(sc, where + path, ScanMember(sc, where, all, m))
  {
    hide FileExt, RemoveAt, AfterPatch, ListedName, ValidPath, Text.Join;
    OpenAfter(all, path);
    assert path[0] in path;
    assert where != where + path;
    AfterPatchElsewhere(sc, where + path, ScanMember(sc, where, all, m));
  }

  lemma ElsewhereInMember(sc: Scanner, where: seq<string>, path: seq<string>, all: seq<Member>, m: Member)
    requires path != [] && IsArchiveName(m.name) && !IsClassName(m.name) && !Entered(m, path[0])
    ensures forall l :: l in ScanMember(sc, where, all, m) ==> l.where != where + path
  {
    ScanMemberUnder(sc, where, all, m);
    forall l | l in ScanMember(sc, where, all, m) ensures l.where != where + path {
      if Entered(m, m.name) {
        assert where + [m.name] <= l.where;
        assert l.where[|where|] == m.name && (where + path)[|where|] == path[0];
      }
    }
  }
}
