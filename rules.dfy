/** The eight match rules main.py applies to one dataset and one program,
    project or grant. Each rule is a yes/no test over the normalised fields. */
module Rules {
  import opened Text
  import opened Normalize

  /** `ident in desc or any(ident in fs for fs in fsl)`: the identifier
      occurs in the description or in one of the funding-source tokens. */
  predicate Mentioned(desc: string, fsl: seq<string>, ident: string)
  {
    Contains(desc, ident) || exists fs :: fs in fsl && Contains(fs, ident)
  }

  /** RULE 1, funding source (main.py:71-74): some notice of funding
      opportunity or some award of the program is mentioned by the dataset.
      A program without identifiers never matches, and any identifier found
      in the description is enough. */
  function FundingRule(desc: string, fsl: seq<string>, nofos: seq<string>, awards: seq<string>): (fires: bool)
    ensures fires ==> nofos + awards != []
    ensures (exists x :: x in nofos + awards && Contains(desc, x)) ==> fires
  {
    || (exists nofo :: nofo in nofos && Mentioned(desc, fsl, nofo))
    || (exists award :: award in awards && Mentioned(desc, fsl, award))
  }

  /** RULE 2, name or acronym (main.py:87): the program name or the
      (lower-cased) acronym occurs in the description or the lower-cased
      title. Because the title is lower-cased, a lower-case keyword that
      occurs in the title in any letter case matches. */
  function NameRule(desc: string, title: string, name: string, acronym: string): (fires: bool)
    ensures IsLower(name) && Contains(title, name) ==> fires
    ensures IsLower(acronym) && Contains(title, acronym) ==> fires
  {
    ContainsLower(title, name);
    ContainsLower(title, acronym);
    LowerIsLower(name);
    LowerIsLower(acronym);
    exists keyword :: keyword in [name, acronym] && (Contains(desc, keyword) || Contains(Lower(title), keyword))
  }

  /** RULE 3, program PI (main.py:98-100): the dataset PI is one string, so
      each program PI is looked for as a piece of that string. */
  function ProgramPiRule(datasetPi: string, programPis: seq<string>): (fires: bool)
    ensures fires ==> datasetPi != "" && programPis != []
    ensures datasetPi != "" && datasetPi in programPis ==> fires
  {
    if !(|datasetPi| == 0 || |programPis| == 0) then
      exists pi :: pi in programPis && Contains(datasetPi, pi)
    else
      false
  }

  /** RULE 4, project organisation (main.py:129): a present organisation
      name, stripped and lower-cased, occurs in the description. There is no
      guard against a blank name. */
  function ProjectOrgRule(orgName: Cell, desc: string): (fires: bool)
    ensures orgName.Missing? ==> !fires
    ensures fires ==> orgName.Present? && |NormalizeScalar(orgName.text)| <= |desc|
  {
    match orgName
    case Missing => false
    case Present(org) => Contains(NormalizeScalar(desc), NormalizeScalar(org))
  }

  /** RULE 6, grant PI (main.py:173-175), with its guard as written: the
      test runs only when the dataset PI string IS empty. */
  function GrantPiRule(datasetPi: string, grantPis: seq<string>): (fires: bool)
    ensures datasetPi != "" ==> !fires
    ensures grantPis == [] ==> !fires
  {
    if !(datasetPi != "" || |grantPis| == 0) then
      exists pi :: pi in grantPis && Contains(datasetPi, pi)
    else
      false
  }

  /** RULE 7, grant funding number (main.py:184-188): the raw opportunity
      number occurs, case for case, in the raw funding-source cell. */
  function GrantFundingRule(opportunity: Cell, fundingSource: Cell): (fires: bool)
    ensures fires ==> opportunity.Present? && opportunity.text != "" && fundingSource.Present?
    ensures fires ==> |opportunity.text| <= |fundingSource.text|
  {
    if opportunity != Present("") then
      if opportunity.Present? && fundingSource.Present? then
        Contains(fundingSource.text, opportunity.text)
      else
        false
    else
      false
  }

  /** RULE 8, grant organisation (main.py:197-199): a non-empty normalised
      organisation name occurs in the description. */
  function GrantOrgRule(orgName: string, desc: string): (fires: bool)
    ensures fires ==> orgName != "" && |orgName| <= |desc|
  {
    if orgName != "" then Contains(desc, orgName) else false
  }

  // ---------------------------------------------------------------------------
  // What the rules decide

  /** The funding rule looks at notices and awards alike: it fires exactly
      when some identifier of either list is mentioned. */
  lemma FundingRuleAnyIdentifier(desc: string, fsl: seq<string>, nofos: seq<string>, awards: seq<string>)
    ensures FundingRule(desc, fsl, nofos, awards) <==>
      exists x :: x in nofos + awards && (Contains(desc, x) || exists fs :: fs in fsl && Contains(fs, x))
  {
    if FundingRule(desc, fsl, nofos, awards) {
      if exists x :: x in nofos && Mentioned(desc, fsl, x) {
        var x :| x in nofos && Mentioned(desc, fsl, x);
        assert x in nofos + awards;
      } else {
        var x :| x in awards && Mentioned(desc, fsl, x);
        assert x in nofos + awards;
      }
    }
    if exists x :: x in nofos + awards && Mentioned(desc, fsl, x) {
      var x :| x in nofos + awards && Mentioned(desc, fsl, x);
      assert x in nofos || x in awards;
    }
  }

  /** The name rule is four substring tests: name and acronym, each against
      the description and the lower-cased title. */
  lemma NameRuleFourTests(desc: string, title: string, name: string, acronym: string)
    ensures NameRule(desc, title, name, acronym) <==>
      Contains(desc, name) || Contains(Lower(title), name) || Contains(desc, acronym) || Contains(Lower(title), acronym)
  {
    if Contains(desc, acronym) || Contains(Lower(title), acronym) {
      assert acronym in [name, acronym];
    }
    if Contains(desc, name) || Contains(Lower(title), name) {
      assert name in [name, acronym];
    }
  }

  /** An empty acronym is a piece of every description, so the name rule
      always says yes for a program without acronym. */
  lemma EmptyAcronymMatches(desc: string, title: string, name: string)
    ensures NameRule(desc, title, name, "")
  {
    assert "" in [name, ""] && Contains(desc, "");
  }

  /** The program name is compared as given: when the description and the
      title are lower case (as main.py makes them), a name with a capital
      letter never matches, and only the acronym can make the rule fire. */
  lemma CapitalisedNameNeverMatches(desc: string, title: string, name: string, acronym: string)
    requires IsLower(desc) && !IsLower(name)
    ensures NameRule(desc, title, name, acronym) <==> Contains(desc, acronym) || Contains(Lower(title), acronym)
  {
    LowerIsLower(title);
    if Contains(desc, name) {
      ContainsKeepsLower(desc, name);
    }
    if Contains(Lower(title), name) {
      ContainsKeepsLower(Lower(title), name);
    }
    if Contains(desc, acronym) || Contains(Lower(title), acronym) {
      assert acronym in [name, acronym];
    }
  }

  /** The program PI rule is a substring test: a program PI found anywhere
      inside the dataset's PI string, even inside a longer name or next to
      other names, makes it fire. */
  lemma ProgramPiMatchesInside(pre: string, pi: string, post: string, programPis: seq<string>)
    requires pi in programPis && pre + pi + post != ""
    ensures ProgramPiRule(pre + pi + post, programPis)
  {
    ContainsMiddle(pre, pi, post);
  }

  /** The project organisation rule says yes for a present but blank name:
      it strips to the empty string, which occurs everywhere. */
  lemma BlankProjectOrgMatches(org: string, desc: string)
    requires AllSpace(org)
    ensures ProjectOrgRule(Present(org), desc)
  {
    StripEmptyIffAllSpace(org);
  }

  /** The grant organisation rule, by contrast, says no for a blank or
      missing name. */
  lemma BlankGrantOrgNeverMatches(org: Cell, desc: string)
    requires org.Present? ==> AllSpace(org.text)
    ensures !GrantOrgRule(OrgName(org), desc)
  {
    if org.Present? {
      StripEmptyIffAllSpace(org.text);
    }
  }

  /** The grant PI rule can only fire on an empty grant PI token. */
  lemma GrantPiNeedsEmptyToken(datasetPi: string, grantPis: seq<string>)
    requires GrantPiRule(datasetPi, grantPis)
    ensures "" in grantPis
  {
    var pi :| pi in grantPis && Contains(datasetPi, pi);
    ContainsInEmpty(pi);
  }

  /** Normalised grant PI lists hold no empty token, so the grant PI rule
      never fires. */
  lemma GrantPiNeverFires(datasetPi: string, grantPis: seq<string>)
    requires forall k :: 0 <= k < |grantPis| ==> IsToken(grantPis[k])
    ensures !GrantPiRule(datasetPi, grantPis)
  {
    if GrantPiRule(datasetPi, grantPis) {
      GrantPiNeedsEmptyToken(datasetPi, grantPis);
      assert false;
    }
  }

  /** The grant funding rule fires exactly when both cells are present, the
      opportunity number is not empty and occurs in the funding source. */
  lemma GrantFundingGuard(opportunity: Cell, fundingSource: Cell)
    ensures GrantFundingRule(opportunity, fundingSource) <==>
      opportunity.Present? && opportunity.text != "" && fundingSource.Present? &&
      Contains(fundingSource.text, opportunity.text)
  {
  }

  /** The grant funding rule compares raw text: an opportunity number with a
      capital letter matches the raw funding source that holds it, though no
      lower-cased funding-source token could ever hold it. */
  lemma GrantFundingUsesRawText(pre: string, number: string, post: string)
    requires number != "" && !IsLower(number)
    ensures GrantFundingRule(Present(number), Present(pre + number + post))
    ensures forall k :: 0 <= k < |FundingSourceList(Present(pre + number + post))| ==>
      !Contains(FundingSourceList(Present(pre + number + post))[k], number)
  {
    ContainsMiddle(pre, number, post);
    var fsl := FundingSourceList(Present(pre + number + post));
    forall k | 0 <= k < |fsl|
      ensures !Contains(fsl[k], number)
    {
      if Contains(fsl[k], number) {
        ContainsKeepsLower(fsl[k], number);
      }
    }
  }
}
