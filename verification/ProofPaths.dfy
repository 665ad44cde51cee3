/** Which proof files survive: sanitizing names for the file system is not injective, so two functions
    can share a sidecar path and two rules a proof file. */
module ProofPaths {
  import opened Wrappers
  import opened Sidecars

  // --- Names that share a path -----------------------------------------------------------------------

  /** Written as an underscore. */
  predicate Underscored(c: char) {
    c == '_' || !SafeChar(c)
  }

  /** The name a segment is made from; an empty one is replaced. */
  function Named(s: string): string {
    if s == "" then "unknown" else s
  }

  /** Equal, up to the characters written as underscores. */
  predicate Alike(a: string, b: string) {
    var (x, y) := (Named(a), Named(b));
    |x| == |y| && forall i :: 0 <= i < |x| ==> x[i] == y[i] || (Underscored(x[i]) && Underscored(y[i]))
  }

  /** Two names share a path segment if and only if they are alike. */
  lemma SamePathIff(a: string, b: string)
    ensures SanitizePath(a) == SanitizePath(b) <==> Alike(a, b)
  {
    hide SanitizePath;
    NamedPath(a);
    NamedPath(b);
    var (x, y, p, q) := (Named(a), Named(b), SanitizePath(a), SanitizePath(b));
    if Alike(a, b) {
      assert p == q;
    }
    if p == q {
      forall i | 0 <= i < |x| ensures x[i] == y[i] || (Underscored(x[i]) && Underscored(y[i])) { assert p[i] == q[i]; }
    }
  }

  lemma NamedPath(s: string)
    ensures |SanitizePath(s)| == |Named(s)|
    ensures forall i :: 0 <= i < |Named(s)| ==>
              SanitizePath(s)[i] == if SafeChar(Named(s)[i]) then Named(s)[i] else '_'
  {
    SanitizeSafe(s);
    ReplacedSafe(s);
  }

  // --- Sidecars ------------------------------------------------------------------------------------------

  datatype Content = Lowering(group: Group) | TrustCert(group: Group)

  type Disk = map<string, Content>

  function LoweringPath(name: string): string {
    SanitizePath(name) + ".lowering.json"
  }

  function TrustPath(name: string): string {
    SanitizePath(name) + ".trust-proof-cert.json"
  }

  lemma PathsApart(f: string, g: string)
    ensures LoweringPath(f) != TrustPath(g)
    ensures LoweringPath(f) == LoweringPath(g) <==> Alike(f, g)
    ensures TrustPath(f) == TrustPath(g) <==> Alike(f, g)
  {
    hide SanitizePath, Alike;
    SamePathIff(f, g);
    var (p, q, x, t) := (SanitizePath(f), SanitizePath(g), ".lowering.json", ".trust-proof-cert.json");
    assert (p + x)[|p + x| - 6] == 'g' && (q + t)[|q + t| - 6] == 't';
    assert p + x == q + x ==> (p + x)[..|p|] == (q + x)[..|q|];
    assert p + t == q + t ==> (p + t)[..|p|] == (q + t)[..|q|];
  }

  function AfterWrites(groups: seq<Group>): Disk {
    if groups == [] then map[]
    else
      var (front, last) := (groups[..|groups| - 1], groups[|groups| - 1]);
      AfterWrites(front)[LoweringPath(last.functionName) := Lowering(last)][
        TrustPath(last.functionName) := TrustCert(last)]
  }

  /** The writing loop of `emit_proof_files_with_lowering_sidecars`: it counts every write, also one that
      replaces an earlier file. */
  method WriteSidecars(groups: seq<Group>) returns (disk: Disk, loweringWritten: nat, trustWritten: nat)
    ensures disk == AfterWrites(groups) && loweringWritten == trustWritten == |groups|
  {
    disk, loweringWritten, trustWritten := map[], 0, 0;
    for i := 0 to |groups|
      invariant disk == AfterWrites(groups[..i]) && loweringWritten == trustWritten == i
    {
      assert groups[..i + 1][..i] == groups[..i];
      var g := groups[i];
      disk := disk[LoweringPath(g.functionName) := Lowering(g)];
      loweringWritten := loweringWritten + 1;
      disk := disk[TrustPath(g.functionName) := TrustCert(g)];
      trustWritten := trustWritten + 1;
    }
    assert groups[..|groups|] == groups;
  }

  /** Both files of a group are on disk with its own contents. */
  predicate OnDisk(disk: Disk, g: Group) {
    && LoweringPath(g.functionName) in disk && disk[LoweringPath(g.functionName)] == Lowering(g)
    && TrustPath(g.functionName) in disk && disk[TrustPath(g.functionName)] == TrustCert(g)
  }

  /** A group's sidecars survive if and only if no later group of another content has an alike name. */
  lemma {:induction false} SurvivesIff(groups: seq<Group>, k: nat)
    requires k < |groups|
    requires forall i, j :: 0 <= i < j < |groups| ==> groups[i] != groups[j]
    ensures OnDisk(AfterWrites(groups), groups[k]) <==>
            forall j :: k < j < |groups| ==> !Alike(groups[k].functionName, groups[j].functionName)
  {
    hide Alike, LoweringPath, TrustPath;
    var n := |groups| - 1;
    var (front, last, g) := (groups[..n], groups[n], groups[k]);
    PathsApart(g.functionName, last.functionName);
    PathsApart(last.functionName, g.functionName);
    if k < n {
      SurvivesIff(front, k);
      assert forall j :: k < j < n ==> front[j] == groups[j];
      assert last != g;
    }
  }

  /** Every function keeps its sidecars if and only if no two functions have alike names. */
  lemma EverySidecarSurvivesIff(db: Database, certs: seq<Certificate>)
    ensures var (groups, fs) := (GroupsOf(db, certs), FunctionsOf(certs));
            (forall k :: 0 <= k < |groups| ==> OnDisk(AfterWrites(groups), groups[k])) <==>
            forall i, j :: 0 <= i < j < |fs| ==> !Alike(fs[i], fs[j])
  {
    hide Alike, OnDisk, FunctionsOf, AfterWrites;
    var (groups, fs) := (GroupsOf(db, certs), FunctionsOf(certs));
    FunctionsDistinct(certs);
    assert forall k :: 0 <= k < |fs| ==> groups[k].functionName == fs[k];
    forall k | 0 <= k < |groups|
      ensures OnDisk(AfterWrites(groups), groups[k]) <==> forall j :: k < j < |fs| ==> !Alike(fs[k], fs[j])
    {
      SurvivesIff(groups, k);
    }
  }

  // --- Proof files of rules -----------------------------------------------------------------------------------

  /** The certificate's rule has a proof file of its own. */
  ghost predicate Filed(db: Database, certs: seq<Certificate>, c: Certificate) {
    exists f <- FilesOf(db, certs) :: f.key == KeyOf(db, c) && f.cert.ruleName == c.ruleName
  }

  /** The directory a certificate's files go to, before sanitizing. */
  function Directory(db: Database, c: Certificate): string {
    if c.ruleName in db.index then db.index[c.ruleName].1 else c.category
  }

  lemma SameKeyIff(db: Database, a: Certificate, b: Certificate)
    ensures KeyOf(db, a) == KeyOf(db, b) <==> Alike(Directory(db, a), Directory(db, b)) && Alike(a.ruleName, b.ruleName)
  {
    hide Alike, SanitizePath;
    SamePathIff(Directory(db, a), Directory(db, b));
    SamePathIff(a.ruleName, b.ruleName);
  }

  lemma {:induction false} KeyHasFile(db: Database, certs: seq<Certificate>, c: Certificate)
    requires c in certs
    ensures exists f <- FilesOf(db, certs) :: f.key == KeyOf(db, c)
  {
    hide KeyOf, TagOf;
    var n := |certs| - 1;
    if c in certs[..n] {
      KeyHasFile(db, certs[..n], c);
      var f :| f in FilesOf(db, certs[..n]) && f.key == KeyOf(db, c);
      assert f in FilesOf(db, certs);
    } else {
      assert c == certs[n];
      var key := KeyOf(db, c);
      if key in KeysOf(db, certs[..n]) {
        KeysExact(db, certs[..n], key);
        var d :| d in certs[..n] && KeyOf(db, d) == key;
        KeyHasFile(db, certs[..n], d);
      } else {
        assert ProofFile(key, c, TagOf(db, c)) in FilesOf(db, certs);
      }
    }
  }

  lemma OneFilePerKey(db: Database, certs: seq<Certificate>, f: ProofFile, g: ProofFile)
    requires f in FilesOf(db, certs) && g in FilesOf(db, certs) && f.key == g.key
    ensures f == g
  {
    hide FilesOf, KeyOf, TagOf;
    FirstCertificateWins(db, certs, f);
    FirstCertificateWins(db, certs, g);
    var i: nat :| FirstOfKey(db, certs, i, f);
    var j: nat :| FirstOfKey(db, certs, j, g);
    assert i == j;
  }

  /** Every rule has a proof file of its own if and only if no two different rules have alike names and
      alike directories. */
  lemma EveryRuleFiledIff(db: Database, certs: seq<Certificate>)
    ensures (forall c <- certs :: Filed(db, certs, c)) <==>
            forall a <- certs, b <- certs ::
              Alike(Directory(db, a), Directory(db, b)) && Alike(a.ruleName, b.ruleName) ==> a.ruleName == b.ruleName
  {
    hide FilesOf, KeyOf, Alike, Directory;
    forall a, b | a in certs && b in certs
      ensures KeyOf(db, a) == KeyOf(db, b) <==>
              Alike(Directory(db, a), Directory(db, b)) && Alike(a.ruleName, b.ruleName)
    {
      SameKeyIff(db, a, b);
    }
    if forall c <- certs :: Filed(db, certs, c) {
      forall a, b | a in certs && b in certs && KeyOf(db, a) == KeyOf(db, b)
        ensures a.ruleName == b.ruleName
      {
        var f :| f in FilesOf(db, certs) && f.key == KeyOf(db, a) && f.cert.ruleName == a.ruleName;
        var g :| g in FilesOf(db, certs) && g.key == KeyOf(db, b) && g.cert.ruleName == b.ruleName;
        OneFilePerKey(db, certs, f, g);
      }
    }
    if forall a <- certs, b <- certs :: KeyOf(db, a) == KeyOf(db, b) ==> a.ruleName == b.ruleName {
      forall c | c in certs
        ensures Filed(db, certs, c)
      {
        KeyHasFile(db, certs, c);
        var f :| f in FilesOf(db, certs) && f.key == KeyOf(db, c);
        FirstCertificateWins(db, certs, f);
        var i: nat :| FirstOfKey(db, certs, i, f);
        assert certs[i] in certs;
      }
    }
  }
}
