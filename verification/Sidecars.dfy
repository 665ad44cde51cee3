/** Grouping codegen certificates into lowering sidecars, and the per-rule proof files
    (`emit_proofs.rs`). Files are the entries written; certificate generation and hashing are not
    modelled. */
module Sidecars {
  import opened Wrappers

  datatype Certificate = Certificate(ruleName: string, functionName: string, category: string, verified: bool)

  datatype Obligation = Obligation(name: string, category: Option<string>)

  /** The proof database: rule name to position and category, and the obligations. */
  datatype Database = Database(index: map<string, (nat, string)>, all: seq<Obligation>)

  ghost predicate ValidDatabase(db: Database) {
    forall rule <- db.index :: db.index[rule].0 < |db.all|
  }

  datatype Group = Group(functionName: string, obligations: seq<Obligation>)

  datatype SidecarError =
    | Unverified(ruleName: string, functionName: string)
    | NoObligation(ruleName: string, functionName: string)
    | NoCheckKind(ruleName: string, functionName: string)

  datatype Result<T> = Ok(value: T) | Err(error: SidecarError)

  /** Certificates that take no part in the function-level sidecars. */
  predicate Exempt(cert: Certificate) {
    || cert.category == "relocation_inventory"
    || cert.category == "covered_elsewhere"
    || "RECONSTRUCTED " <= cert.ruleName
  }

  function ObligationOf(db: Database, rule: string): Option<Obligation> {
    if rule in db.index && db.index[rule].0 < |db.all| then Some(db.all[db.index[rule].0]) else None
  }

  /** What is wrong with one certificate, if anything. */
  function CertError(db: Database, cert: Certificate): Option<SidecarError> {
    if !cert.verified then Some(Unverified(cert.ruleName, cert.functionName))
    else if Exempt(cert) then None
    else
      match ObligationOf(db, cert.ruleName)
      case None => Some(NoObligation(cert.ruleName, cert.functionName))
      case Some(ob) => if ob.category.None? then Some(NoCheckKind(cert.ruleName, cert.functionName)) else None
  }

  // --- The specification: first appearances --------------------------------------------------------

  function Needed(certs: seq<Certificate>): seq<Certificate> {
    if certs == [] then []
    else
      var (front, last) := (Needed(certs[..|certs| - 1]), certs[|certs| - 1]);
      if Exempt(last) then front else front + [last]
  }

  /** The distinct functions, in order of first appearance. */
  function FunctionsOf(certs: seq<Certificate>): seq<string> {
    if certs == [] then []
    else
      var (front, last) := (FunctionsOf(certs[..|certs| - 1]), certs[|certs| - 1]);
      if last.functionName in front then front else front + [last.functionName]
  }

  /** The distinct rules of one function, in order of first appearance. */
  function RulesOf(certs: seq<Certificate>, f: string): seq<string> {
    if certs == [] then []
    else
      var (front, last) := (RulesOf(certs[..|certs| - 1], f), certs[|certs| - 1]);
      if last.functionName != f || last.ruleName in front then front else front + [last.ruleName]
  }

  function ObligationsOf(db: Database, rules: seq<string>): seq<Obligation> {
    if rules == [] then []
    else
      var (front, last) := (ObligationsOf(db, rules[..|rules| - 1]), ObligationOf(db, rules[|rules| - 1]));
      if last.None? then front else front + [last.value]
  }

  function GroupOf(db: Database, certs: seq<Certificate>, f: string): Group {
    Group(f, ObligationsOf(db, RulesOf(certs, f)))
  }

  function GroupsOf(db: Database, certs: seq<Certificate>): seq<Group> {
    var fs := FunctionsOf(certs);
    seq(|fs|, i requires 0 <= i < |fs| => GroupOf(db, certs, fs[i]))
  }

  /** The first bad certificate decides the error. */
  function FirstError(db: Database, certs: seq<Certificate>): Option<SidecarError> {
    if certs == [] then None
    else
      var front := FirstError(db, certs[..|certs| - 1]);
      if front.Some? then front else CertError(db, certs[|certs| - 1])
  }

  // --- What first appearance means ------------------------------------------------------------------

  /** `f` is listed before `g` exactly when some certificate of `f` comes before every one of `g`. */
  ghost predicate AppearsBefore(certs: seq<Certificate>, f: string, g: string) {
    exists i :: 0 <= i < |certs| && certs[i].functionName == f && forall k :: 0 <= k <= i ==> certs[k].functionName != g
  }

  lemma {:induction false} FunctionsExact(certs: seq<Certificate>, f: string)
    ensures f in FunctionsOf(certs) <==> exists c <- certs :: c.functionName == f
  {
    if certs == [] {
    } else {
      var n := |certs| - 1;
      FunctionsExact(certs[..n], f);
      assert certs == certs[..n] + [certs[n]];
    }
  }

  /** No function has two groups, and groups come in order of first appearance. */
  lemma {:induction false} FunctionsInOrder(certs: seq<Certificate>, i: nat, j: nat)
    requires i < j < |FunctionsOf(certs)|
    ensures FunctionsOf(certs)[i] != FunctionsOf(certs)[j]
    ensures AppearsBefore(certs, FunctionsOf(certs)[i], FunctionsOf(certs)[j])
  {
    var n := |certs| - 1;
    var (before, last) := (certs[..n], certs[n]);
    var front := FunctionsOf(before);
    assert certs == before + [last];
    if j < |front| {
      FunctionsInOrder(before, i, j);
      var k :| 0 <= k < |before| && before[k].functionName == front[i] && forall l :: 0 <= l <= k ==>
          before[l].functionName != front[j];
      assert certs[k] == before[k];
    } else {
      FunctionsExact(before, front[i]);
      FunctionsExact(before, last.functionName);
      var c :| c in before && c.functionName == front[i];
      var k :| 0 <= k < |before| && before[k] == c;
      assert forall l :: 0 <= l <= k ==> before[l] in before;
      assert certs[k] == before[k] && forall l :: 0 <= l <= k ==> certs[l] == before[l];
    }
  }

  /** A function's rules are exactly those of its certificates, each once. */
  lemma {:induction false} RulesExact(certs: seq<Certificate>, f: string, rule: string)
    ensures rule in RulesOf(certs, f) <==> exists c <- certs :: c.functionName == f && c.ruleName == rule
    ensures forall i, j :: 0 <= i < j < |RulesOf(certs, f)| ==> RulesOf(certs, f)[i] != RulesOf(certs, f)[j]
  {
    if certs == [] {
    } else {
      var n := |certs| - 1;
      RulesExact(certs[..n], f, rule);
      assert certs == certs[..n] + [certs[n]];
    }
  }

  /** `rule` of function `f` is first seen before any certificate of `other`. */
  ghost predicate RuleBefore(certs: seq<Certificate>, f: string, rule: string, other: string) {
    exists i :: 0 <= i < |certs| && certs[i].functionName == f && certs[i].ruleName == rule &&
      forall k :: 0 <= k <= i ==> certs[k].functionName != f || certs[k].ruleName != other
  }

  lemma {:induction false} RulesInOrder(certs: seq<Certificate>, f: string, i: nat, j: nat)
    requires i < j < |RulesOf(certs, f)|
    ensures RuleBefore(certs, f, RulesOf(certs, f)[i], RulesOf(certs, f)[j])
  {
    var n := |certs| - 1;
    var (before, last) := (certs[..n], certs[n]);
    var front := RulesOf(before, f);
    assert certs == before + [last];
    if j < |front| {
      RulesInOrder(before, f, i, j);
      var k :| 0 <= k < |before| && before[k].functionName == f && before[k].ruleName == front[i] &&
               forall l :: 0 <= l <= k ==> before[l].functionName != f || before[l].ruleName != front[j];
      assert certs[k] == before[k] && forall l :: 0 <= l <= k ==> certs[l] == before[l];
    } else {
      RulesExact(before, f, front[i]);
      RulesExact(before, f, last.ruleName);
      var c :| c in before && c.functionName == f && c.ruleName == front[i];
      var k :| 0 <= k < |before| && before[k] == c;
      assert forall l :: 0 <= l <= k ==> before[l] in before;
      assert certs[k] == before[k] && forall l :: 0 <= l <= k ==> certs[l] == before[l];
    }
  }

  lemma {:induction false} NeededExact(certs: seq<Certificate>, c: Certificate)
    ensures c in Needed(certs) <==> c in certs && !Exempt(c)
  {
    if certs == [] {
    } else {
      NeededExact(certs[..|certs| - 1], c);
      assert certs == certs[..|certs| - 1] + [certs[|certs| - 1]];
    }
  }

  /** The exempt certificates, by what their fields read. */
  lemma ExemptIff(c: Certificate)
    ensures Exempt(c) <==>
            || c.category == "relocation_inventory" || c.category == "covered_elsewhere"
            || exists rest: string :: c.ruleName == "RECONSTRUCTED " + rest
  {
    if "RECONSTRUCTED " <= c.ruleName {
      assert c.ruleName == "RECONSTRUCTED " + c.ruleName[|"RECONSTRUCTED "|..];
    }
  }

  /** The database has an obligation for the rule, with a check kind. */
  predicate Categorised(db: Database, rule: string)
    requires ValidDatabase(db)
  {
    rule in db.index && db.all[db.index[rule].0].category.Some?
  }

  /** Unverified, or needed and without a categorised obligation. */
  predicate Bad(db: Database, c: Certificate)
    requires ValidDatabase(db)
  {
    !c.verified || (!Exempt(c) && !Categorised(db, c.ruleName))
  }

  /** What is said of a bad certificate. */
  predicate Describes(db: Database, c: Certificate, e: SidecarError)
    requires ValidDatabase(db)
  {
    match e
    case Unverified(r, f) => !c.verified && r == c.ruleName && f == c.functionName
    case NoObligation(r, f) =>
      c.verified && !Exempt(c) && c.ruleName !in db.index && r == c.ruleName && f == c.functionName
    case NoCheckKind(r, f) =>
      && c.verified && !Exempt(c) && c.ruleName in db.index && !Categorised(db, c.ruleName)
      && r == c.ruleName && f == c.functionName
  }

  lemma CertErrorIff(db: Database, c: Certificate, e: SidecarError)
    requires ValidDatabase(db)
    ensures CertError(db, c).Some? <==> Bad(db, c)
    ensures CertError(db, c) == Some(e) <==> Describes(db, c, e)
  {
    hide Exempt;
  }

  /** The certificate at `i` is the first bad one, and the error describes it. */
  ghost predicate FirstBad(db: Database, certs: seq<Certificate>, i: nat, e: SidecarError)
    requires ValidDatabase(db)
  {
    i < |certs| && Describes(db, certs[i], e) && forall j :: 0 <= j < i ==> !Bad(db, certs[j])
  }

  /** Sidecars are refused if and only if some certificate is unverified, or is needed and has no
      categorised obligation. */
  lemma {:induction false} RefusedIff(db: Database, certs: seq<Certificate>)
    requires ValidDatabase(db)
    ensures FirstError(db, certs).Some? <==> exists c <- certs :: Bad(db, c)
  {
    hide CertError, Bad;
    if certs == [] {
    } else {
      var last := certs[|certs| - 1];
      RefusedIff(db, certs[..|certs| - 1]);
      CertErrorIff(db, last, NoObligation("", ""));
      assert certs == certs[..|certs| - 1] + [last];
    }
  }

  /** The error is that of the first bad certificate. */
  lemma {:induction false} FirstErrorIff(db: Database, certs: seq<Certificate>, e: SidecarError)
    requires ValidDatabase(db)
    ensures FirstError(db, certs) == Some(e) <==> exists i: nat :: FirstBad(db, certs, i, e)
  {
    hide CertError, Bad, Describes;
    if certs != [] {
      var n := |certs| - 1;
      var front := certs[..n];
      FirstErrorIff(db, front, e);
      RefusedIff(db, front);
      CertErrorIff(db, certs[n], e);
      assert forall i :: 0 <= i < n ==> front[i] == certs[i];
      if FirstError(db, front).Some? {
        FirstBadStays(db, certs, n, e);
      } else {
        NoneBadBefore(db, certs, n, e);
      }
    }
  }

  lemma FirstBadStays(db: Database, certs: seq<Certificate>, n: nat, e: SidecarError)
    requires ValidDatabase(db) && n < |certs| && exists c <- certs[..n] :: Bad(db, c)
    ensures (exists i: nat :: FirstBad(db, certs, i, e)) <==> exists i: nat :: FirstBad(db, certs[..n], i, e)
  {
    hide Describes, Bad;
    var c :| c in certs[..n] && Bad(db, c);
    var k :| 0 <= k < n && certs[k] == c;
    forall i: nat ensures FirstBad(db, certs, i, e) <==> FirstBad(db, certs[..n], i, e) {
      if i < n { assert forall j :: 0 <= j <= i ==> certs[..n][j] == certs[j]; }
    }
  }

  lemma NoneBadBefore(db: Database, certs: seq<Certificate>, n: nat, e: SidecarError)
    requires ValidDatabase(db) && n == |certs| - 1 && forall c <- certs[..n] :: !Bad(db, c)
    ensures (exists i: nat :: FirstBad(db, certs, i, e)) <==> Describes(db, certs[n], e)
  {
    hide Bad;
    assert forall j :: 0 <= j < n ==> certs[j] in certs[..n];
    if Describes(db, certs[n], e) { assert FirstBad(db, certs, n, e); }
    if i: nat :| FirstBad(db, certs, i, e) {
      DescribedIsBad(db, certs[i], e);
      assert i == n;
    }
  }

  lemma DescribedIsBad(db: Database, c: Certificate, e: SidecarError)
    requires ValidDatabase(db) && Describes(db, c, e)
    ensures Bad(db, c)
  {
  }

  /** When nothing is refused, every rule kept for a function contributes its own obligation, in
      order and with a check kind. */
  lemma {:induction false} ObligationsMatchRules(db: Database, certs: seq<Certificate>, f: string)
    requires ValidDatabase(db) && FirstError(db, certs).None?
    ensures var (rules, obs) := (RulesOf(Needed(certs), f), ObligationsOf(db, RulesOf(Needed(certs), f)));
            |obs| == |rules| && forall i :: 0 <= i < |rules| ==>
              ObligationOf(db, rules[i]) == Some(obs[i]) && obs[i].category.Some?
  {
    var rules := RulesOf(Needed(certs), f);
    forall r | r in rules
      ensures ObligationOf(db, r).Some? && ObligationOf(db, r).value.category.Some?
    {
      RulesExact(Needed(certs), f, r);
      var c :| c in Needed(certs) && c.functionName == f && c.ruleName == r;
      NeededExact(certs, c);
      RefusedIff(db, certs);
      assert !Bad(db, c);
    }
    AllFound(db, rules);
  }

  lemma {:induction false} AllFound(db: Database, rules: seq<string>)
    requires forall r <- rules :: ObligationOf(db, r).Some? && ObligationOf(db, r).value.category.Some?
    ensures var obs := ObligationsOf(db, rules);
            |obs| == |rules| && forall i :: 0 <= i < |rules| ==>
              ObligationOf(db, rules[i]) == Some(obs[i]) && obs[i].category.Some?
  {
    hide ObligationOf;
    if rules == [] {
    } else {
      AllFound(db, rules[..|rules| - 1]);
    }
  }

  // --- The loop -----------------------------------------------------------------------------------------

  function SeenRules(seen: map<string, set<string>>, f: string): set<string> {
    if f in seen then seen[f] else {}
  }

  /** The three collections agree with the certificates processed so far. */
  ghost predicate Tracks(db: Database, certs: seq<Certificate>, groups: seq<Group>, indices: map<string, nat>,
                         seen: map<string, set<string>>) {
    && groups == GroupsOf(db, certs)
    && indices.Keys == (set f | f in FunctionsOf(certs))
    && (forall f <- indices :: indices[f] < |groups| && FunctionsOf(certs)[indices[f]] == f)
    && (forall f :: SeenRules(seen, f) == set r | r in RulesOf(certs, f))
  }

  /** A rule already seen for its function changes nothing. */
  lemma RepeatedRule(db: Database, certs: seq<Certificate>, c: Certificate)
    requires c.ruleName in RulesOf(certs, c.functionName)
    ensures FunctionsOf(certs + [c]) == FunctionsOf(certs) && forall f :: RulesOf(certs + [c], f) == RulesOf(certs, f)
    ensures GroupsOf(db, certs + [c]) == GroupsOf(db, certs)
  {
    assert (certs + [c])[..|certs|] == certs;
    RulesExact(certs, c.functionName, c.ruleName);
    FunctionsExact(certs, c.functionName);
  }

  /** A new rule adds its obligation at the end of its function's group, which is new if need be. */
  lemma NewRule(db: Database, certs: seq<Certificate>, c: Certificate, ob: Obligation)
    requires c.ruleName !in RulesOf(certs, c.functionName) && ObligationOf(db, c.ruleName) == Some(ob)
    ensures RulesOf(certs + [c], c.functionName) == RulesOf(certs, c.functionName) + [c.ruleName]
    ensures forall f :: f != c.functionName ==> RulesOf(certs + [c], f) == RulesOf(certs, f)
    ensures GroupOf(db, certs + [c], c.functionName) ==
        Group(c.functionName, ObligationsOf(db, RulesOf(certs, c.functionName)) + [ob])
    ensures FunctionsOf(certs + [c]) ==
            if c.functionName in FunctionsOf(certs) then FunctionsOf(certs) else FunctionsOf(certs) + [c.functionName]
  {
    assert (certs + [c])[..|certs|] == certs;
    var rules := RulesOf(certs, c.functionName);
    assert (rules + [c.ruleName])[..|rules|] == rules;
  }

  lemma {:induction false} FunctionsDistinct(certs: seq<Certificate>)
    ensures forall i, j :: 0 <= i < j < |FunctionsOf(certs)| ==> FunctionsOf(certs)[i] != FunctionsOf(certs)[j]
  {
    if certs != [] { FunctionsDistinct(certs[..|certs| - 1]); }
  }

  lemma NoRulesYet(certs: seq<Certificate>, f: string)
    requires f !in FunctionsOf(certs)
    ensures RulesOf(certs, f) == []
  {
    FunctionsExact(certs, f);
    if RulesOf(certs, f) != [] {
      RulesExact(certs, f, RulesOf(certs, f)[0]);
    }
  }

  /** `build_lowering_sidecars`, up to the groups: one pass that updates the group list, the index of
      each function's group and the rules already seen for each function. */
  method BuildGroups(certs: seq<Certificate>, db: Database) returns (r: Result<seq<Group>>)
    requires ValidDatabase(db)
    ensures match FirstError(db, certs)
            case Some(e) => r == Err(e)
            case None => r == Ok(GroupsOf(db, Needed(certs)))
    ensures r.Ok? <==> forall c <- certs :: !Bad(db, c)
    ensures r.Err? ==> exists i: nat :: FirstBad(db, certs, i, r.error)
  {
    RefusedIff(db, certs);
    if FirstError(db, certs).Some? { FirstErrorIff(db, certs, FirstError(db, certs).value); }
    hide GroupsOf, FunctionsOf, RulesOf, ObligationsOf, Exempt, Bad, FirstBad;
    var groups: seq<Group> := [];
    var groupIndices: map<string, nat> := map[];
    var seenRules: map<string, set<string>> := map[];
    TracksNothing(db);
    for i := 0 to |certs|
      invariant FirstError(db, certs[..i]).None?
      invariant Tracks(db, Needed(certs[..i]), groups, groupIndices, seenRules)
    {
      hide Tracks;
      var cert := certs[i];
      ghost var before := Needed(certs[..i]);
      assert certs[..i + 1][..i] == certs[..i];
      ErrorAt(db, certs, i);
      if !cert.verified { return Err(Unverified(cert.ruleName, cert.functionName)); }
      if Exempt(cert) { continue; }
      assert Needed(certs[..i + 1]) == before + [cert];
      if cert.ruleName !in db.index { return Err(NoObligation(cert.ruleName, cert.functionName)); }
      var obligation := db.all[db.index[cert.ruleName].0];
      if obligation.category.None? { return Err(NoCheckKind(cert.ruleName, cert.functionName)); }

      var rules := SeenRules(seenRules, cert.functionName);
      if cert.ruleName in rules {
        TrackRepeated(db, before, groups, groupIndices, seenRules, cert);
        continue;
      }
      TrackNew(db, before, groups, groupIndices, seenRules, cert, obligation);
      seenRules := seenRules[cert.functionName := rules + {cert.ruleName}];
      if cert.functionName in groupIndices {
        var k := groupIndices[cert.functionName];
        groups := groups[k := Group(groups[k].functionName, groups[k].obligations + [obligation])];
      } else {
        groupIndices := groupIndices[cert.functionName := |groups|];
        groups := groups + [Group(cert.functionName, [obligation])];
      }
    }
    assert certs[..|certs|] == certs;
    return Ok(groups);
  }

  lemma TracksNothing(db: Database)
    ensures Tracks(db, Needed([]), [], map[], map[])
  {
  }

  /** An error at one certificate, after clean ones, is the first error of the whole list. */
  lemma ErrorAt(db: Database, certs: seq<Certificate>, i: nat)
    requires i < |certs| && FirstError(db, certs[..i]).None?
    ensures FirstError(db, certs[..i + 1]) == CertError(db, certs[i])
    ensures CertError(db, certs[i]).Some? ==> FirstError(db, certs) == CertError(db, certs[i])
  {
    hide CertError;
    assert certs[..i + 1][..i] == certs[..i];
    if CertError(db, certs[i]).Some? {
      ErrorStays(db, certs, i + 1);
    }
  }

  lemma {:induction false} ErrorStays(db: Database, certs: seq<Certificate>, n: nat)
    requires n <= |certs| && FirstError(db, certs[..n]).Some?
    ensures FirstError(db, certs) == FirstError(db, certs[..n])
    decreases |certs|
  {
    hide CertError;
    if n == |certs| {
      assert certs[..n] == certs;
    } else {
      assert certs[..|certs| - 1][..n] == certs[..n];
      ErrorStays(db, certs[..|certs| - 1], n);
    }
  }

  lemma TrackRepeated(db: Database, certs: seq<Certificate>, groups: seq<Group>, indices: map<string, nat>,
                      seen: map<string, set<string>>, c: Certificate)
    requires Tracks(db, certs, groups, indices, seen) && c.ruleName in SeenRules(seen, c.functionName)
    ensures Tracks(db, certs + [c], groups, indices, seen)
  {
    RepeatedRule(db, certs, c);
    hide GroupsOf, FunctionsOf, RulesOf;
  }

  function TrackedGroups(groups: seq<Group>, indices: map<string, nat>, f: string, ob: Obligation): seq<Group>
    requires f in indices ==> indices[f] < |groups|
  {
    if f in indices
    then var k := indices[f]; groups[k := Group(groups[k].functionName, groups[k].obligations + [ob])]
    else groups + [Group(f, [ob])]
  }

  lemma TrackNew(db: Database, certs: seq<Certificate>, groups: seq<Group>, indices: map<string, nat>,
                 seen: map<string, set<string>>, c: Certificate, ob: Obligation)
    requires Tracks(db, certs, groups, indices, seen) && c.ruleName !in SeenRules(seen, c.functionName)
    requires ObligationOf(db, c.ruleName) == Some(ob)
    ensures c.functionName in indices ==> indices[c.functionName] < |groups|
    ensures Tracks(db, certs + [c], TrackedGroups(groups, indices, c.functionName, ob),
                   if c.functionName in indices then indices else indices[c.functionName := |groups|],
                   seen[c.functionName := SeenRules(seen, c.functionName) + {c.ruleName}])
  {
    var f := c.functionName;
    NewRule(db, certs, c, ob);
    GroupsTracked(db, certs, indices, c, ob);
    SeenTracked(certs, seen, c);
    hide GroupsOf, FunctionsOf, RulesOf, ObligationsOf, GroupOf;
    GroupsLength(db, certs);
  }

  lemma GroupsLength(db: Database, certs: seq<Certificate>)
    ensures |GroupsOf(db, certs)| == |FunctionsOf(certs)|
  {
  }

  lemma SeenTracked(certs: seq<Certificate>, seen: map<string, set<string>>, c: Certificate)
    requires forall f :: SeenRules(seen, f) == set r | r in RulesOf(certs, f)
    requires RulesOf(certs + [c], c.functionName) == RulesOf(certs, c.functionName) + [c.ruleName]
    requires forall f :: f != c.functionName ==> RulesOf(certs + [c], f) == RulesOf(certs, f)
    ensures forall f :: SeenRules(seen[c.functionName := SeenRules(seen, c.functionName) + {c.ruleName}], f) ==
              set r | r in RulesOf(certs + [c], f)
  {
    hide RulesOf;
  }

  lemma GroupsTracked(db: Database, certs: seq<Certificate>, indices: map<string, nat>, c: Certificate, ob: Obligation)
    requires c.ruleName !in RulesOf(certs, c.functionName) && ObligationOf(db, c.ruleName) == Some(ob)
    requires indices.Keys == set f | f in FunctionsOf(certs)
    requires forall f <- indices :: indices[f] < |FunctionsOf(certs)| && FunctionsOf(certs)[indices[f]] == f
    ensures c.functionName in indices ==> indices[c.functionName] < |GroupsOf(db, certs)|
    ensures GroupsOf(db, certs + [c]) == TrackedGroups(GroupsOf(db, certs), indices, c.functionName, ob)
  {
    NewRule(db, certs, c, ob);
    FunctionsDistinct(certs);
    var (f, fs) := (c.functionName, FunctionsOf(certs));
    if f !in fs { NoRulesYet(certs, f); }
    hide FunctionsOf, RulesOf, ObligationOf;
    var (before, after) := (GroupsOf(db, certs), GroupsOf(db, certs + [c]));
    var tracked := TrackedGroups(before, indices, f, ob);
    assert f in indices <==> f in fs;
    if f in fs {
      var k := indices[f];
      forall i | 0 <= i < |fs|
        ensures after[i] == tracked[i]
      {
        if i != k { assert fs[i] != f; }
      }
    } else {
      assert ObligationsOf(db, []) + [ob] == [ob];
      forall i | 0 <= i < |fs|
        ensures after[i] == before[i]
      {
        assert fs[i] != f;
      }
    }
    assert after == tracked;
  }

  // --- Per-rule proof files ------------------------------------------------------------------------------

  predicate SafeChar(c: char) {
    'a' <= c <= 'z' || 'A' <= c <= 'Z' || '0' <= c <= '9' || c == '_' || c == '-' || c == '.'
  }

  /** The safe characters, by code: ASCII digits and letters, hyphen, dot and underscore. */
  lemma SafeCharIff(c: char)
    ensures SafeChar(c) <==>
            var n := c as int; 48 <= n <= 57 || 65 <= n <= 90 || 97 <= n <= 122 || n == 45 || n == 46 || n == 95
  {
  }

  function Replaced(s: string): string {
    if s == "" then "" else [if SafeChar(s[0]) then s[0] else '_'] + Replaced(s[1..])
  }

  function SanitizePath(s: string): string {
    if Replaced(s) == "" then "unknown" else Replaced(s)
  }

  /** A sanitized segment is never empty, holds only safe characters, is left alone by a second pass,
      and differs from the name only in its unsafe characters. */
  lemma SanitizeSafe(s: string)
    ensures SanitizePath(s) != "" && (forall c <- SanitizePath(s) :: SafeChar(c)) &&
        SanitizePath(SanitizePath(s)) == SanitizePath(s)
    ensures s != "" ==> |SanitizePath(s)| == |s| && forall i :: 0 <= i < |s| ==>
        SanitizePath(s)[i] == if SafeChar(s[i]) then s[i] else '_'
  {
    ReplacedSafe(s);
    assert forall c <- "unknown" :: SafeChar(c);
    SafeUnchanged(SanitizePath(s));
  }

  lemma {:induction false} ReplacedSafe(s: string)
    ensures forall c <- Replaced(s) :: SafeChar(c)
    ensures |Replaced(s)| == |s| && forall i :: 0 <= i < |s| ==> Replaced(s)[i] == if SafeChar(s[i]) then s[i] else '_'
  {
    if s != "" { ReplacedSafe(s[1..]); }
  }

  lemma {:induction false} SafeUnchanged(s: string)
    requires forall c <- s :: SafeChar(c)
    ensures Replaced(s) == s
  {
    if s != "" { SafeUnchanged(s[1..]); }
  }

  type Key = (string, string)

  /** Where the files of one certificate go: category directory and stem. */
  function KeyOf(db: Database, cert: Certificate): Key {
    (SanitizePath(if cert.ruleName in db.index then db.index[cert.ruleName].1 else cert.category),
        SanitizePath(cert.ruleName))
  }

  function KeysOf(db: Database, certs: seq<Certificate>): set<Key> {
    if certs == [] then {} else KeysOf(db, certs[..|certs| - 1]) + {KeyOf(db, certs[|certs| - 1])}
  }

  /** The keys are those of the certificates. */
  lemma {:induction false} KeysExact(db: Database, certs: seq<Certificate>, key: Key)
    ensures key in KeysOf(db, certs) <==> exists c <- certs :: KeyOf(db, c) == key
  {
    hide KeyOf;
    if certs == [] {
    } else {
      KeysExact(db, certs[..|certs| - 1], key);
      assert certs == certs[..|certs| - 1] + [certs[|certs| - 1]];
    }
  }

  datatype Tag = TagVerified | TagFailed | TagEvalOnly

  /** One `.cert` file, with an `.smt2` beside it unless the tag is eval-only. */
  datatype ProofFile = ProofFile(key: Key, cert: Certificate, tag: Tag)

  datatype Summary = Summary(smt2Written: nat, certWritten: nat, skippedNoObligation: nat)

  function TagOf(db: Database, cert: Certificate): Tag {
    if cert.ruleName !in db.index then TagEvalOnly else if cert.verified then TagVerified else TagFailed
  }

  /** The files of the first certificate of each key, in order. */
  function FilesOf(db: Database, certs: seq<Certificate>): seq<ProofFile> {
    if certs == [] then []
    else
      var (front, last) := (certs[..|certs| - 1], certs[|certs| - 1]);
      if KeyOf(db, last) in KeysOf(db, front) then FilesOf(db, front)
      else FilesOf(db, front) + [ProofFile(KeyOf(db, last), last, TagOf(db, last))]
  }

  function CountSmt2(files: seq<ProofFile>): nat {
    if files == [] then 0
    else CountSmt2(files[..|files| - 1]) + if files[|files| - 1].tag == TagEvalOnly then 0 else 1
  }

  function FileKeys(files: seq<ProofFile>): set<Key> {
    if files == [] then {} else FileKeys(files[..|files| - 1]) + {files[|files| - 1].key}
  }

  lemma FilesStep(db: Database, certs: seq<Certificate>, c: Certificate)
    ensures KeysOf(db, certs + [c]) == KeysOf(db, certs) + {KeyOf(db, c)}
    ensures FilesOf(db, certs + [c]) ==
            if KeyOf(db, c) in KeysOf(db, certs) then FilesOf(db, certs)
            else FilesOf(db, certs) + [ProofFile(KeyOf(db, c), c, TagOf(db, c))]
  {
    hide KeyOf, TagOf;
    assert (certs + [c])[..|certs|] == certs;
  }

  lemma CountsStep(files: seq<ProofFile>, f: ProofFile)
    ensures FileKeys(files + [f]) == FileKeys(files) + {f.key}
    ensures CountSmt2(files + [f]) == CountSmt2(files) + if f.tag == TagEvalOnly then 0 else 1
  {
    assert (files + [f])[..|files|] == files;
  }

  /** One file per key: none lost, none written twice. */
  lemma {:induction false} FilesExact(db: Database, certs: seq<Certificate>)
    ensures |FilesOf(db, certs)| == |KeysOf(db, certs)| && FileKeys(FilesOf(db, certs)) == KeysOf(db, certs)
  {
    hide KeysOf, KeyOf, TagOf, FilesOf, FileKeys, CountSmt2;
    if certs == [] {
      NoFiles(db);
    } else {
      var (front, c) := (certs[..|certs| - 1], certs[|certs| - 1]);
      assert certs == front + [c];
      FilesExact(db, front);
      FilesStep(db, front, c);
      OneMoreFile(FilesOf(db, front), KeysOf(db, front), ProofFile(KeyOf(db, c), c, TagOf(db, c)));
    }
  }

  lemma NoFiles(db: Database)
    ensures KeysOf(db, []) == {} && FilesOf(db, []) == [] && FileKeys([]) == {} && CountSmt2([]) == 0
  {
  }

  lemma OneMoreFile(files: seq<ProofFile>, keys: set<Key>, f: ProofFile)
    requires |files| == |keys| && FileKeys(files) == keys
    ensures f.key in keys ==> keys + {f.key} == keys
    ensures f.key !in keys ==> |files + [f]| == |keys + {f.key}| && FileKeys(files + [f]) == keys + {f.key}
  {
    hide FileKeys;
    CountsStep(files, f);
  }

  /** The file of the certificate at `i`, which is the first with its key. */
  ghost predicate FirstOfKey(db: Database, certs: seq<Certificate>, i: nat, f: ProofFile) {
    && i < |certs| && f == ProofFile(KeyOf(db, certs[i]), certs[i], TagOf(db, certs[i]))
    && forall j :: 0 <= j < i ==> KeyOf(db, certs[j]) != f.key
  }

  /** Each file is written for the first certificate that has its key, with that certificate's tag. */
  lemma {:induction false} FirstCertificateWins(db: Database, certs: seq<Certificate>, f: ProofFile)
    requires f in FilesOf(db, certs)
    ensures exists i: nat :: FirstOfKey(db, certs, i, f)
  {
    hide KeyOf, KeysOf, TagOf;
    var n := |certs| - 1;
    if f in FilesOf(db, certs[..n]) {
      FirstCertificateWins(db, certs[..n], f);
      var i: nat :| FirstOfKey(db, certs[..n], i, f);
      assert forall j :: 0 <= j <= i ==> certs[j] == certs[..n][j];
      assert FirstOfKey(db, certs, i, f);
    } else {
      forall j | 0 <= j < n
        ensures KeyOf(db, certs[j]) != f.key
      {
        KeysExact(db, certs[..n], f.key);
        assert certs[..n][j] in certs[..n];
      }
      assert FirstOfKey(db, certs, n, f);
    }
  }

  /** The files whose certificate has an obligation, or has none. */
  function Provable(db: Database, files: seq<ProofFile>, has: bool): set<ProofFile> {
    set f | f in files && (f.cert.ruleName in db.index) == has
  }

  /** The SMT count is that of the files with an obligation, and the others are those without. */
  lemma {:induction false} CountsAre(db: Database, certs: seq<Certificate>)
    ensures var files := FilesOf(db, certs);
            && CountSmt2(files) == |Provable(db, files, true)|
            && |files| - CountSmt2(files) == |Provable(db, files, false)|
  {
    hide KeyOf, KeysOf, TagOf, FilesOf, CountSmt2;
    if certs == [] {
      NoFiles(db);
    } else {
      var (front, c) := (certs[..|certs| - 1], certs[|certs| - 1]);
      assert certs == front + [c];
      CountsAre(db, front);
      FilesStep(db, front, c);
      var f := ProofFile(KeyOf(db, c), c, TagOf(db, c));
      if f.key !in KeysOf(db, front) {
        if f in FilesOf(db, front) { FiledHasKey(db, front, f); }
        CountsStep(FilesOf(db, front), f);
        TagIsEvalOnly(db, c);
        OneMoreProvable(db, FilesOf(db, front), f);
      }
    }
  }

  lemma TagIsEvalOnly(db: Database, c: Certificate)
    ensures TagOf(db, c) == TagEvalOnly <==> c.ruleName !in db.index
  {
  }

  lemma OneMoreProvable(db: Database, files: seq<ProofFile>, f: ProofFile)
    requires f !in files
    ensures var has := f.cert.ruleName in db.index;
            && |Provable(db, files + [f], has)| == |Provable(db, files, has)| + 1
            && Provable(db, files + [f], !has) == Provable(db, files, !has)
  {
    var has := f.cert.ruleName in db.index;
    assert Provable(db, files + [f], has) == Provable(db, files, has) + {f};
  }

  lemma FiledHasKey(db: Database, certs: seq<Certificate>, f: ProofFile)
    requires f in FilesOf(db, certs)
    ensures f.key in KeysOf(db, certs)
  {
    hide KeyOf, KeysOf, TagOf, FilesOf;
    FirstCertificateWins(db, certs, f);
    var i: nat :| FirstOfKey(db, certs, i, f);
    KeysExact(db, certs, f.key);
    assert certs[i] in certs;
  }

  /** What each file is tagged. */
  lemma TagsAre(db: Database, certs: seq<Certificate>, f: ProofFile)
    requires f in FilesOf(db, certs)
    ensures f.tag == TagVerified <==> f.cert.verified && f.cert.ruleName in db.index
    ensures f.tag == TagFailed <==> !f.cert.verified && f.cert.ruleName in db.index
    ensures f.tag == TagEvalOnly <==> f.cert.ruleName !in db.index
    ensures f.cert in certs && f.key == KeyOf(db, f.cert)
  {
    hide FilesOf, KeyOf;
    FirstCertificateWins(db, certs, f);
    var i: nat :| FirstOfKey(db, certs, i, f);
    assert certs[i] in certs;
  }

  /** `emit_per_rule_proof_files`: duplicates of a key are skipped; every file written is counted
      once, and the SMT and skipped counts split the certificates written. */
  method EmitPerRuleProofFiles(certs: seq<Certificate>, db: Database) returns (files: seq<ProofFile>, summary: Summary)
    ensures files == FilesOf(db, certs)
    ensures summary.smt2Written + summary.skippedNoObligation == summary.certWritten == |KeysOf(db, certs)|
    ensures summary.smt2Written == |Provable(db, files, true)|
    ensures summary.skippedNoObligation == |Provable(db, files, false)|
  {
    hide KeyOf, KeysOf, FilesOf, CountSmt2, FileKeys, Provable;
    files, summary := [], Summary(0, 0, 0);
    var seen: set<Key> := {};
    NoFiles(db);
    assert certs[..0] == [];
    for i := 0 to |certs|
      invariant files == FilesOf(db, certs[..i]) && seen == KeysOf(db, certs[..i])
      invariant summary.smt2Written + summary.skippedNoObligation == summary.certWritten == |files|
      invariant summary.smt2Written == CountSmt2(files)
    {
      var cert := certs[i];
      assert certs[..i + 1] == certs[..i] + [cert];
      FilesStep(db, certs[..i], cert);
      var key := KeyOf(db, cert);
      if key in seen {
        assert seen + {key} == seen;
        continue;
      }
      seen := seen + {key};
      var tag: Tag;
      if cert.ruleName in db.index {
        summary := summary.(smt2Written := summary.smt2Written + 1);
        tag := if cert.verified then TagVerified else TagFailed;
      } else {
        tag := TagEvalOnly;
      }
      CountsStep(files, ProofFile(key, cert, tag));
      files := files + [ProofFile(key, cert, tag)];
      summary := summary.(certWritten := summary.certWritten + 1);
      if cert.ruleName !in db.index {
        summary := summary.(skippedNoObligation := summary.skippedNoObligation + 1);
      }
    }
    assert certs[..|certs|] == certs;
    FilesExact(db, certs);
    CountsAre(db, certs);
  }
}
