/** The driver of main.py (lines 41-214): for every dataset row it visits
    every program, every project and every grant, applies the rules of one
    kind and appends one yes/no record per pair to the result list of that
    kind. */
module Driver {
  import opened Text
  import opened Normalize
  import opened Rules
  import opened Evidence

  // ---------------------------------------------------------------------------
  // Input rows

  /** A row of the dataset table. The title, description and PI name are
      used as text by main.py and so are present strings here. */
  datatype DatasetRow = DatasetRow(title: string, description: string, fundingSource: Cell, piName: string)

  /** A row of the program table. */
  datatype ProgramRow = ProgramRow(name: string, id: Cell, nofo: Cell, award: Cell, acronym: string, contactPi: Cell)

  /** A row of the project table: only the fields the records and the org
      rule read. */
  datatype ProjectRow = ProjectRow(orgName: Cell, id: Cell, programId: Cell)

  /** A row of the grant table. */
  datatype GrantRow = GrantRow(id: Cell, projectId: Cell, principalInvestigators: Cell,
                               opportunityNumber: Cell, orgName: Cell)

  /** What main.py derives from a dataset row once, before its inner loops
      (main.py:43-50). */
  datatype DatasetView = DatasetView(title: string, description: string, fundingSource: Cell,
                                     pi: string, fundingSources: seq<string>)

  /** The dataset's values as the rules see them: the description
      lower-cased, the PI stripped and lower-cased, the funding source split
      into tokens, the title and the raw funding source as given. */
  function ViewOf(d: DatasetRow): (v: DatasetView)
    ensures v.title == d.title && v.fundingSource == d.fundingSource
    ensures |v.description| == |d.description| && IsLower(v.description)
    ensures Stripped(v.pi) && IsLower(v.pi) && (v.pi == "" <==> AllSpace(d.piName))
    ensures forall k :: 0 <= k < |v.fundingSources| ==> IsToken(v.fundingSources[k])
  {
    LowerIsLower(d.description);
    DatasetView(d.title, Lower(d.description), d.fundingSource, NormalizeScalar(d.piName),
                FundingSourceList(d.fundingSource))
  }

  // ---------------------------------------------------------------------------
  // Output records

  /** A flag as main.py writes it. */
  function YesNo(b: bool): (s: string)
    ensures s == "yes" <==> b
    ensures s == "no" <==> !b
  {
    if b then "yes" else "no"
  }

  datatype ProgramRecord = ProgramRecord(datasets: string, program: string, programId: Cell,
                                         fundingMatching: string, nameMatching: string, piMatching: string)

  datatype ProjectRecord = ProjectRecord(datasets: string, programId: Cell, projectId: Cell,
                                         descriptionMatching: string, orgMatching: string)

  datatype GrantRecord = GrantRecord(datasets: string, grantId: Cell, projectId: Cell,
                                     piMatching: string, fundingMatching: string, orgMatching: string)

  /** Rules 1-3 on one dataset and one program (main.py:55-116). The
      record names the dataset by its title and the program by its name and
      identifier, every flag is "yes" or "no", and PI matching needs a
      dataset PI. */
  function ProgramRecordOf(v: DatasetView, p: ProgramRow): (r: ProgramRecord)
    ensures r.datasets == v.title && r.program == p.name && r.programId == p.id
    ensures r.fundingMatching in {"yes", "no"} && r.nameMatching in {"yes", "no"} && r.piMatching in {"yes", "no"}
    ensures r.piMatching == "yes" ==> v.pi != ""
  {
    var nofos := ListField(p.nofo);
    var awards := ListField(p.award);
    var pis := ListField(p.contactPi);
    ProgramRecord(v.title, p.name, p.id,
                  YesNo(FundingRule(v.description, v.fundingSources, nofos, awards)),
                  YesNo(NameRule(v.description, v.title, p.name, Lower(p.acronym))),
                  YesNo(ProgramPiRule(v.pi, pis)))
  }

  /** Rule 4 on one dataset and one project (main.py:121-157). The semantic
      rule 5 is switched off in main.py, so its flag is always "no". */
  function ProjectRecordOf(v: DatasetView, p: ProjectRow): (r: ProjectRecord)
    ensures r.datasets == v.title && r.programId == p.programId && r.projectId == p.id
    ensures r.descriptionMatching == "no"
    ensures r.orgMatching in {"yes", "no"} && (p.orgName.Missing? ==> r.orgMatching == "no")
  {
    ProjectRecord(v.title, p.programId, p.id, YesNo(false), YesNo(ProjectOrgRule(p.orgName, v.description)))
  }

  /** Rules 6-8 on one dataset and one grant (main.py:162-214). PI matching
      can only say yes for an empty dataset PI, funding matching needs both
      raw cells, and organisation matching needs a non-blank name. */
  function GrantRecordOf(v: DatasetView, g: GrantRow): (r: GrantRecord)
    ensures r.datasets == v.title && r.grantId == g.id && r.projectId == g.projectId
    ensures r.piMatching == "yes" ==> v.pi == ""
    ensures r.fundingMatching == "yes" ==> g.opportunityNumber.Present? && v.fundingSource.Present?
    ensures r.orgMatching == "yes" ==> g.orgName.Present? && !AllSpace(g.orgName.text)
  {
    var pis := ListField(g.principalInvestigators);
    GrantRecord(v.title, g.id, g.projectId,
                YesNo(GrantPiRule(v.pi, pis)),
                YesNo(GrantFundingRule(g.opportunityNumber, v.fundingSource)),
                YesNo(GrantOrgRule(OrgName(g.orgName), v.description)))
  }

  function ProgramPair(d: DatasetRow, p: ProgramRow): ProgramRecord
  {
    ProgramRecordOf(ViewOf(d), p)
  }

  function ProjectPair(d: DatasetRow, p: ProjectRow): ProjectRecord
  {
    ProjectRecordOf(ViewOf(d), p)
  }

  function GrantPair(d: DatasetRow, g: GrantRow): GrantRecord
  {
    GrantRecordOf(ViewOf(d), g)
  }

  // ---------------------------------------------------------------------------
  // The order of the records

  /** The records one dataset makes against a list of entities, in entity
      order. */
  function Row<D, E, R>(d: D, es: seq<E>, f: (D, E) -> R): seq<R>
  {
    if es == [] then [] else Row(d, es[..|es| - 1], f) + [f(d, es[|es| - 1])]
  }

  /** The records of the nested loops: dataset-major, entity-minor. */
  function CrossProduct<D, E, R>(ds: seq<D>, es: seq<E>, f: (D, E) -> R): seq<R>
  {
    if ds == [] then [] else CrossProduct(ds[..|ds| - 1], es, f) + Row(ds[|ds| - 1], es, f)
  }

  /** One dataset's records: one per entity, the j-th for the j-th entity. */
  lemma {:induction false} RowAt<D, E, R>(d: D, es: seq<E>, f: (D, E) -> R)
    ensures |Row(d, es, f)| == |es|
    ensures forall j :: 0 <= j < |es| ==> Row(d, es, f)[j] == f(d, es[j])
  {
    if es != [] {
      RowAt(d, es[..|es| - 1], f);
    }
  }

  /** For D datasets and E entities there are exactly D * E records, and
      record i * E + j pairs dataset i with entity j. */
  lemma CrossProductAt<D, E, R>(ds: seq<D>, es: seq<E>, f: (D, E) -> R)
    ensures |CrossProduct(ds, es, f)| == |ds| * |es|
    ensures forall i, j :: 0 <= i < |ds| && 0 <= j < |es| ==>
      CrossProduct(ds, es, f)[i * |es| + j] == f(ds[i], es[j])
  {
    CrossProductLength(ds, es, f);
    forall i, j | 0 <= i < |ds| && 0 <= j < |es|
      ensures i * |es| + j < |CrossProduct(ds, es, f)| && CrossProduct(ds, es, f)[i * |es| + j] == f(ds[i], es[j])
    {
      CrossProductCell(ds, es, f, i, j);
    }
  }

  lemma {:induction false} CrossProductLength<D, E, R>(ds: seq<D>, es: seq<E>, f: (D, E) -> R)
    ensures |CrossProduct(ds, es, f)| == |ds| * |es|
  {
    if ds != [] {
      CrossProductLength(ds[..|ds| - 1], es, f);
      RowAt(ds[|ds| - 1], es, f);
      MulSucc(|ds| - 1, |es|);
    }
  }

  /** The records of the first m datasets come first. */
  lemma {:induction false} CrossProductPrefix<D, E, R>(ds: seq<D>, es: seq<E>, f: (D, E) -> R, m: int)
    requires 0 <= m <= |ds|
    ensures CrossProduct(ds[..m], es, f) <= CrossProduct(ds, es, f)
  {
    if m < |ds| {
      var init := ds[..|ds| - 1];
      CrossProductPrefix(init, es, f, m);
      assert init[..m] == ds[..m];
    } else {
      assert ds[..m] == ds;
    }
  }

  /** Record i * E + j pairs dataset i with entity j. */
  lemma CrossProductCell<D, E, R>(ds: seq<D>, es: seq<E>, f: (D, E) -> R, i: int, j: int)
    requires 0 <= i < |ds| && 0 <= j < |es|
    ensures i * |es| + j < |CrossProduct(ds, es, f)| && CrossProduct(ds, es, f)[i * |es| + j] == f(ds[i], es[j])
  {
    var before := CrossProduct(ds[..i], es, f);
    var upTo := CrossProduct(ds[..i + 1], es, f);
    CrossProductLength(ds[..i], es, f);
    CrossProductPrefix(ds, es, f, i + 1);
    assert ds[..i + 1][..i] == ds[..i];
    assert upTo == before + Row(ds[i], es, f);
    RowAt(ds[i], es, f);
    AppendRight(before, Row(ds[i], es, f), j);
    assert upTo[|before| + j] == f(ds[i], es[j]);
  }

  lemma MulSucc(n: int, width: int)
    ensures (n + 1) * width == n * width + width
  {
  }

  lemma AppendRight<R>(a: seq<R>, b: seq<R>, k: int)
    requires 0 <= k < |b|
    ensures (a + b)[|a| + k] == b[k]
  {
  }

  /** Every record of the cross product comes from some dataset and some
      entity. */
  lemma {:induction false} CrossProductMembers<D, E, R>(ds: seq<D>, es: seq<E>, f: (D, E) -> R, r: R)
    requires r in CrossProduct(ds, es, f)
    ensures exists i, j :: 0 <= i < |ds| && 0 <= j < |es| && r == f(ds[i], es[j])
  {
    var n := |ds| - 1;
    if r in CrossProduct(ds[..n], es, f) {
      CrossProductMembers(ds[..n], es, f, r);
      var i, j :| 0 <= i < n && 0 <= j < |es| && r == f(ds[..n][i], es[j]);
      assert ds[..n][i] == ds[i];
    } else {
      RowAt(ds[n], es, f);
      var j :| 0 <= j < |es| && Row(ds[n], es, f)[j] == r;
    }
  }

  // ---------------------------------------------------------------------------
  // The nested loops

  /** One inner loop of main.py (the program loop at lines 53-116, the
      project loop at 119-157, the grant loop at 160-214): for each entity in
      turn, the record of the dataset's view and that entity is appended to
      the result list. */
  method AppendRecords<V, E, R>(results0: seq<R>, v: V, es: seq<E>, record: (V, E) -> R)
    returns (results: seq<R>)
    ensures results == results0 + Row(v, es, record)
  {
    results := results0;
    for j := 0 to |es|
      invariant results == results0 + Row(v, es[..j], record)
    {
      assert es[..j + 1][..j] == es[..j];
      results := results + [record(v, es[j])];
    }
    assert es[..|es|] == es;
  }

  /** Computing the records from the view of a dataset gives the records of
      the dataset itself. */
  lemma {:induction false} RowThroughView<D, V, E, R>(d: D, v: V, es: seq<E>, pair: (D, E) -> R, record: (V, E) -> R)
    requires forall e :: pair(d, e) == record(v, e)
    ensures Row(d, es, pair) == Row(v, es, record)
  {
    if es != [] {
      RowThroughView(d, v, es[..|es| - 1], pair, record);
    }
  }

  /** The records of one dataset row are the records of its view, for each
      kind of entity. */
  lemma RowsThroughView(d: DatasetRow, programs: seq<ProgramRow>, projects: seq<ProjectRow>, grants: seq<GrantRow>)
    ensures Row(d, programs, ProgramPair) == Row(ViewOf(d), programs, ProgramRecordOf)
    ensures Row(d, projects, ProjectPair) == Row(ViewOf(d), projects, ProjectRecordOf)
    ensures Row(d, grants, GrantPair) == Row(ViewOf(d), grants, GrantRecordOf)
  {
    RowThroughView(d, ViewOf(d), programs, ProgramPair, ProgramRecordOf);
    RowThroughView(d, ViewOf(d), projects, ProjectPair, ProjectRecordOf);
    RowThroughView(d, ViewOf(d), grants, GrantPair, GrantRecordOf);
  }

  /** One more dataset appends its row of records. */
  lemma CrossProductStep<D, E, R>(ds: seq<D>, i: int, es: seq<E>, f: (D, E) -> R)
    requires 0 <= i < |ds|
    ensures CrossProduct(ds[..i + 1], es, f) == CrossProduct(ds[..i], es, f) + Row(ds[i], es, f)
  {
    assert ds[..i + 1][..i] == ds[..i];
  }

  /** The whole script between loading the tables and writing the results
      (main.py:24, 41-214): three result lists, each the cross product of the
      datasets with one kind of entity. */
  method Evaluate(datasets: seq<DatasetRow>, programs: seq<ProgramRow>, projects: seq<ProjectRow>, grants: seq<GrantRow>)
    returns (programResults: seq<ProgramRecord>, projectResults: seq<ProjectRecord>, grantResults: seq<GrantRecord>)
    ensures programResults == CrossProduct(datasets, programs, ProgramPair)
    ensures projectResults == CrossProduct(datasets, projects, ProjectPair)
    ensures grantResults == CrossProduct(datasets, grants, GrantPair)
  {
    programResults, projectResults, grantResults := [], [], [];
    for i := 0 to |datasets|
      invariant programResults == CrossProduct(datasets[..i], programs, ProgramPair)
      invariant projectResults == CrossProduct(datasets[..i], projects, ProjectPair)
      invariant grantResults == CrossProduct(datasets[..i], grants, GrantPair)
    {
      var d := datasets[i];
      var v := ViewOf(d);
      CrossProductStep(datasets, i, programs, ProgramPair);
      CrossProductStep(datasets, i, projects, ProjectPair);
      CrossProductStep(datasets, i, grants, GrantPair);
      RowsThroughView(d, programs, projects, grants);
      programResults := AppendRecords(programResults, v, programs, ProgramRecordOf);
      projectResults := AppendRecords(projectResults, v, projects, ProjectRecordOf);
      grantResults := AppendRecords(grantResults, v, grants, GrantRecordOf);
    }
    assert datasets[..|datasets|] == datasets;
  }

  // ---------------------------------------------------------------------------
  // What the records say

  /** Every record names its dataset and its entity as the tables gave them. */
  lemma RecordsEcho(d: DatasetRow, p: ProgramRow, q: ProjectRow, g: GrantRow)
    ensures ProgramPair(d, p).datasets == d.title && ProgramPair(d, p).program == p.name
      && ProgramPair(d, p).programId == p.id
    ensures ProjectPair(d, q).datasets == d.title && ProjectPair(d, q).programId == q.programId
      && ProjectPair(d, q).projectId == q.id
    ensures GrantPair(d, g).datasets == d.title && GrantPair(d, g).grantId == g.id
      && GrantPair(d, g).projectId == g.projectId
  {
  }

  /** "Funding Source Matching" is "yes" exactly when some notice or award of
      the program occurs in the lower-cased description or in some
      funding-source token. */
  lemma ProgramFundingFlag(d: DatasetRow, p: ProgramRow)
    ensures var desc := Lower(d.description);
      var fsl := FundingSourceList(d.fundingSource);
      ProgramPair(d, p).fundingMatching == "yes" <==>
        exists x :: x in ListField(p.nofo) + ListField(p.award) &&
          (Contains(desc, x) || exists fs :: fs in fsl && Contains(fs, x))
  {
    var desc := Lower(d.description);
    var fsl := FundingSourceList(d.fundingSource);
    var nofos := ListField(p.nofo);
    var awards := ListField(p.award);
    assert ProgramPair(d, p).fundingMatching == YesNo(FundingRule(desc, fsl, nofos, awards));
    FundingRuleAnyIdentifier(desc, fsl, nofos, awards);
  }

  /** The inline funding rule and the evidence-producing funding function
      agree: the flag is "yes" exactly when the funding dictionary built from
      the same normalised values is non-empty. */
  lemma ProgramFundingAgreesWithEvidence(d: DatasetRow, p: ProgramRow)
    ensures ProgramPair(d, p).fundingMatching == "yes" <==>
      FundingSpec(Lower(d.description), FundingSourceList(d.fundingSource),
                  ListField(p.award), ListField(p.nofo)) != map[]
  {
    var desc := Lower(d.description);
    var fsl := FundingSourceList(d.fundingSource);
    var nofos := ListField(p.nofo);
    var awards := ListField(p.award);
    ProgramFundingFlag(d, p);
    FundingSpecEmpty(desc, fsl, awards, nofos);
    if exists x :: x in nofos + awards && Mentioned(desc, fsl, x) {
      var x :| x in nofos + awards && Mentioned(desc, fsl, x);
      assert x in awards + nofos;
    }
    if exists x :: x in awards + nofos && Mentioned(desc, fsl, x) {
      var x :| x in awards + nofos && Mentioned(desc, fsl, x);
      assert x in nofos + awards;
    }
  }

  /** "Acronym/Name Matching" is "yes" exactly when the program name, as
      given, or the lower-cased acronym occurs in the lower-cased description
      or the lower-cased title. */
  lemma ProgramNameFlag(d: DatasetRow, p: ProgramRow)
    ensures var desc := Lower(d.description);
      var title := Lower(d.title);
      var acr := Lower(p.acronym);
      ProgramPair(d, p).nameMatching == "yes" <==>
        Contains(desc, p.name) || Contains(title, p.name) || Contains(desc, acr) || Contains(title, acr)
  {
    var desc := Lower(d.description);
    var acr := Lower(p.acronym);
    assert ProgramPair(d, p).nameMatching == YesNo(NameRule(desc, d.title, p.name, acr));
    NameRuleFourTests(desc, d.title, p.name, acr);
  }

  /** The inline name rule and the evidence-producing name function agree
      when the name function is given the values main.py compares. */
  lemma ProgramNameAgreesWithEvidence(d: DatasetRow, p: ProgramRow)
    ensures ProgramPair(d, p).nameMatching == "yes" <==>
      NameSpec(Lower(d.description), Lower(d.title), Lower(p.acronym), p.name) != map[]
  {
    ProgramNameFlag(d, p);
    NameSpecEmpty(Lower(d.description), Lower(d.title), Lower(p.acronym), p.name);
  }

  /** A program without acronym always gets "yes" for the name rule. */
  lemma EmptyAcronymFlag(d: DatasetRow, p: ProgramRow)
    requires p.acronym == ""
    ensures ProgramPair(d, p).nameMatching == "yes"
  {
    EmptyAcronymMatches(Lower(d.description), d.title, p.name);
  }

  /** Program "PI Matching" is "no" when the normalised dataset PI or the
      program PI list is empty, and otherwise "yes" exactly when some program
      PI occurs in the whole dataset PI string. */
  lemma ProgramPiFlag(d: DatasetRow, p: ProgramRow)
    ensures var pi := NormalizeScalar(d.piName);
      var pis := ListField(p.contactPi);
      && (pi == "" || pis == [] ==> ProgramPair(d, p).piMatching == "no")
      && (pi != "" && pis != [] ==>
            (ProgramPair(d, p).piMatching == "yes" <==> exists x :: x in pis && Contains(pi, x)))
  {
  }

  /** The inline PI rule and the PI function of the checks module agree in
      one direction only: a dataset PI equal to a program PI passes both, but
      the inline rule also fires on a program PI found inside a longer
      dataset PI string, which the checks function, comparing for equality,
      does not report. */
  lemma ProgramPiVersusEvidence(pi: string, pis: seq<string>)
    ensures pi != "" && PiMatches([pi], pis) != [] ==> ProgramPiRule(pi, pis)
    ensures ProgramPiRule("ann lee", ["ann"]) && PiMatches(["ann lee"], ["ann"]) == []
  {
    PiMatchesEmpty([pi], pis);
    ContainsMiddle("", "ann", " lee");
    assert "" + "ann" + " lee" == "ann lee";
    PiMatchesEmpty(["ann lee"], ["ann"]);
  }

  /** A missing "nan" word occurs inside ordinary words and names. */
  lemma NanInsideWords()
    ensures Contains("financial", "nan") && Contains("nancy drew", "nan")
  {
    ContainsMiddle("fi", "nan", "cial");
    assert "fi" + "nan" + "cial" == "financial";
    ContainsMiddle("", "nan", "cy drew");
    assert "" + "nan" + "cy drew" == "nancy drew";
  }

  /** A program whose contact PI cell is missing gets the PI token "nan", so
      any dataset PI containing "nan" (such as "nancy drew") matches it. */
  lemma MissingContactPiFlag(d: DatasetRow, p: ProgramRow)
    requires p.contactPi.Missing? && Contains(NormalizeScalar(d.piName), "nan")
    ensures ProgramPair(d, p).piMatching == "yes"
  {
    MissingListField();
    assert "nan" in ListField(p.contactPi);
  }

  /** A program whose award cell is missing gets the award token "nan", so
      any description containing "nan" (such as "financial") gives a funding
      match. */
  lemma MissingAwardFlag(d: DatasetRow, p: ProgramRow)
    requires p.award.Missing? && Contains(Lower(d.description), "nan")
    ensures ProgramPair(d, p).fundingMatching == "yes"
  {
    MissingListField();
    assert "nan" in ListField(p.nofo) + ListField(p.award);
  }

  /** "Description Matching" is always "no": the semantic rule is off. */
  lemma DescriptionAlwaysNo(d: DatasetRow, q: ProjectRow)
    ensures ProjectPair(d, q).descriptionMatching == "no"
  {
  }

  /** Project "Org Matching" is "yes" exactly when the organisation cell is
      present and its normalised text occurs in the normalised description;
      a present but blank name always matches. */
  lemma ProjectOrgFlag(d: DatasetRow, q: ProjectRow)
    ensures ProjectPair(d, q).orgMatching == "yes" <==>
      q.orgName.Present? && Contains(NormalizeScalar(Lower(d.description)), NormalizeScalar(q.orgName.text))
    ensures q.orgName.Present? && AllSpace(q.orgName.text) ==> ProjectPair(d, q).orgMatching == "yes"
  {
    if q.orgName.Present? && AllSpace(q.orgName.text) {
      BlankProjectOrgMatches(q.orgName.text, Lower(d.description));
    }
  }

  /** Grant "PI Matching" is always "no". */
  lemma GrantPiAlwaysNo(d: DatasetRow, g: GrantRow)
    ensures GrantPair(d, g).piMatching == "no"
  {
    GrantPiNeverFires(NormalizeScalar(d.piName), ListField(g.principalInvestigators));
  }

  /** Grant "Funding Matching" is "yes" exactly when the opportunity number
      is present and not empty, the funding source is present, and the raw
      number occurs in the raw funding-source text. */
  lemma GrantFundingFlag(d: DatasetRow, g: GrantRow)
    ensures GrantPair(d, g).fundingMatching == "yes" <==>
      g.opportunityNumber.Present? && g.opportunityNumber.text != "" && d.fundingSource.Present? &&
      Contains(d.fundingSource.text, g.opportunityNumber.text)
  {
    GrantFundingGuard(g.opportunityNumber, d.fundingSource);
  }

  /** Grant "Org Matching" is "yes" exactly when the normalised organisation
      name is not empty and occurs in the lower-cased description. */
  lemma GrantOrgFlag(d: DatasetRow, g: GrantRow)
    ensures GrantPair(d, g).orgMatching == "yes" <==>
      OrgName(g.orgName) != "" && Contains(Lower(d.description), OrgName(g.orgName))
  {
  }

  /** Every grant record of a run says "no" for PI matching, and every
      project record says "no" for description matching. */
  lemma RunFlagsAlwaysNo(datasets: seq<DatasetRow>, projects: seq<ProjectRow>, grants: seq<GrantRow>)
    ensures forall r :: r in CrossProduct(datasets, grants, GrantPair) ==> r.piMatching == "no"
    ensures forall r :: r in CrossProduct(datasets, projects, ProjectPair) ==> r.descriptionMatching == "no"
  {
    forall r | r in CrossProduct(datasets, grants, GrantPair) ensures r.piMatching == "no" {
      CrossProductMembers(datasets, grants, GrantPair, r);
      var i, j :| 0 <= i < |datasets| && 0 <= j < |grants| && r == GrantPair(datasets[i], grants[j]);
      GrantPiAlwaysNo(datasets[i], grants[j]);
    }
    forall r | r in CrossProduct(datasets, projects, ProjectPair) ensures r.descriptionMatching == "no" {
      CrossProductMembers(datasets, projects, ProjectPair, r);
    }
  }
}
