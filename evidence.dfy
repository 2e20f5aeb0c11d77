/** The evidence-producing rule functions of checks/dataset_program_checks.py:
    instead of a yes/no flag, each returns what made the rule match. */
module Evidence {
  import opened Text

  // ---------------------------------------------------------------------------
  // Funding evidence (get_dataset_program_funding_matches)

  /** The four keys of the dictionary the funding function returns. */
  datatype FundingCategory = AwardsToDesc | AwardsToFs | NofosToDesc | NofosToFs
  {
    /** The key as it is spelled in the returned dictionary. */
    function Key(): string
    {
      match this
      case AwardsToDesc => "awards_to_desc"
      case AwardsToFs => "awards_to_fs"
      case NofosToDesc => "nofos_to_desc"
      case NofosToFs => "nofos_to_fs"
    }
  }

  /** One `{"program_award" (or "program_nofo"): id, "dataset_funding_source": fs}`
      entry. */
  datatype SourceHit = SourceHit(id: string, fundingSource: string)

  /** What is stored under a key: for `*_to_desc`, the matching identifiers
      ("program_awards" or "nofos") with the description they were found in;
      for `*_to_fs`, a list of identifier/funding-source entries. */
  datatype FundingEvidence =
    | DescriptionHits(ids: seq<string>, description: string)
    | SourceHits(hits: seq<SourceHit>)

  type FundingMatches = map<FundingCategory, FundingEvidence>

  /** The identifiers that occur in the description, in list order and with
      duplicates: each identifier is kept as often as it is listed when it
      occurs in the description, and never otherwise. */
  function DescHits(desc: string, ids: seq<string>): seq<string>
  {
    if ids == [] then []
    else
      var last := ids[|ids| - 1];
      DescHits(desc, ids[..|ids| - 1]) + (if Contains(desc, last) then [last] else [])
  }

  /** The entries one identifier makes against the funding sources, in
      funding-source order. */
  function SourceHitsOf(id: string, fsl: seq<string>): seq<SourceHit>
  {
    if fsl == [] then []
    else
      var fs := fsl[|fsl| - 1];
      SourceHitsOf(id, fsl[..|fsl| - 1]) + (if Contains(fs, id) then [SourceHit(id, fs)] else [])
  }

  /** Every (identifier, funding source) match, identifier-major and
      funding-source-minor: the order in which the loops meet them. */
  function AllSourceHits(fsl: seq<string>, ids: seq<string>): seq<SourceHit>
  {
    if ids == [] then []
    else AllSourceHits(fsl, ids[..|ids| - 1]) + SourceHitsOf(ids[|ids| - 1], fsl)
  }

  /** The entries one identifier list adds under its two keys: every
      identifier found in the description, but only the LAST identifier and
      funding-source match, because the source resets `*_to_fs` to an empty
      list on every match before appending to it. */
  function Entries(descKey: FundingCategory, sourceKey: FundingCategory, desc: string,
                   descHits: seq<string>, sourceHits: seq<SourceHit>): FundingMatches
  {
    var m := if descHits == [] then map[] else map[descKey := DescriptionHits(descHits, desc)];
    if sourceHits == [] then m else m[sourceKey := SourceHits([sourceHits[|sourceHits| - 1]])]
  }

  /** What one identifier list contributes to the funding dictionary. */
  function CategoryEvidence(desc: string, fsl: seq<string>, ids: seq<string>,
                            descKey: FundingCategory, sourceKey: FundingCategory): FundingMatches
  {
    Entries(descKey, sourceKey, desc, DescHits(desc, ids), AllSourceHits(fsl, ids))
  }

  /** The funding dictionary: the awards' entries and the notices' entries.
      A `*_to_desc` key holds a non-empty list of identifiers with the
      description; a `*_to_fs` key holds exactly one entry; an empty
      identifier list adds neither of its keys. */
  function FundingSpec(desc: string, fsl: seq<string>, awards: seq<string>, nofos: seq<string>): (m: FundingMatches)
    ensures forall c :: c in m ==> (m[c].DescriptionHits? <==> c.AwardsToDesc? || c.NofosToDesc?)
    ensures forall c :: c in m && m[c].DescriptionHits? ==> m[c].ids != [] && m[c].description == desc
    ensures forall c :: c in m && m[c].SourceHits? ==> |m[c].hits| == 1
    ensures awards == [] ==> AwardsToDesc !in m && AwardsToFs !in m
    ensures nofos == [] ==> NofosToDesc !in m && NofosToFs !in m
  {
    CategoryEvidence(desc, fsl, awards, AwardsToDesc, AwardsToFs)
      + CategoryEvidence(desc, fsl, nofos, NofosToDesc, NofosToFs)
  }

  /** Recording one more description match in the dictionary. */
  lemma EntriesAddDesc(m0: FundingMatches, descKey: FundingCategory, sourceKey: FundingCategory, desc: string,
                       descHits: seq<string>, sourceHits: seq<SourceHit>, id: string)
    requires descKey != sourceKey && descKey !in m0 && sourceKey !in m0
    ensures var m := m0 + Entries(descKey, sourceKey, desc, descHits, sourceHits);
      && (descKey in m <==> descHits != [])
      && (descKey in m ==> m[descKey] == DescriptionHits(descHits, desc))
      && m[descKey := DescriptionHits(descHits + [id], desc)]
         == m0 + Entries(descKey, sourceKey, desc, descHits + [id], sourceHits)
  {
  }

  /** Recording the funding-source matches of one more identifier: only the
      last of all matches so far is kept. */
  lemma EntriesAddSources(m0: FundingMatches, descKey: FundingCategory, sourceKey: FundingCategory, desc: string,
                          descHits: seq<string>, sourceHits: seq<SourceHit>, more: seq<SourceHit>)
    requires descKey != sourceKey && descKey !in m0 && sourceKey !in m0
    ensures var m := m0 + Entries(descKey, sourceKey, desc, descHits, sourceHits);
      (if more == [] then m else m[sourceKey := SourceHits([more[|more| - 1]])])
      == m0 + Entries(descKey, sourceKey, desc, descHits, sourceHits + more)
  {
    if more == [] {
      assert sourceHits + more == sourceHits;
    } else {
      assert (sourceHits + more)[|sourceHits + more| - 1] == more[|more| - 1];
    }
  }

  lemma DescHitsStep(desc: string, ids: seq<string>, i: nat)
    requires i < |ids|
    ensures DescHits(desc, ids[..i + 1])
            == DescHits(desc, ids[..i]) + (if Contains(desc, ids[i]) then [ids[i]] else [])
  {
    assert ids[..i + 1][..i] == ids[..i];
  }

  lemma SourceHitsStep(id: string, fsl: seq<string>, j: nat)
    requires j < |fsl|
    ensures SourceHitsOf(id, fsl[..j + 1])
            == SourceHitsOf(id, fsl[..j]) + (if Contains(fsl[j], id) then [SourceHit(id, fsl[j])] else [])
  {
    assert fsl[..j + 1][..j] == fsl[..j];
  }

  lemma AllSourceHitsStep(fsl: seq<string>, ids: seq<string>, i: nat)
    requires i < |ids|
    ensures AllSourceHits(fsl, ids[..i + 1]) == AllSourceHits(fsl, ids[..i]) + SourceHitsOf(ids[i], fsl)
  {
    assert ids[..i + 1][..i] == ids[..i];
  }

  /** The inner loop over the funding sources for one identifier
      (checks/dataset_program_checks.py:26-35, 47-56): on every match the
      entry under `sourceKey` is reset and then holds only that match, so
      afterwards it holds the identifier's last match, if any. */
  method ScanSources(m0: FundingMatches, fsl: seq<string>, id: string, sourceKey: FundingCategory)
    returns (m: FundingMatches)
    ensures var hits := SourceHitsOf(id, fsl);
      m == if hits == [] then m0 else m0[sourceKey := SourceHits([hits[|hits| - 1]])]
  {
    m := m0;
    for j := 0 to |fsl|
      invariant var hits := SourceHitsOf(id, fsl[..j]);
        m == if hits == [] then m0 else m0[sourceKey := SourceHits([hits[|hits| - 1]])]
    {
      SourceHitsStep(id, fsl, j);
      var fundingSource := fsl[j];
      if !Contains(fundingSource, id) {
        continue;
      }
      m := m[sourceKey := SourceHits([])];
      assert m[sourceKey].hits + [SourceHit(id, fundingSource)] == [SourceHit(id, fundingSource)];
      m := m[sourceKey := SourceHits(m[sourceKey].hits + [SourceHit(id, fundingSource)])];
    }
    assert fsl[..|fsl|] == fsl;
  }

  /** Recording an identifier found in the description
      (checks/dataset_program_checks.py:18-24, 39-45): the key is created
      with an empty list on first use, then the identifier is appended. */
  method AddDescHit(m0: FundingMatches, desc: string, id: string, descKey: FundingCategory)
    returns (m: FundingMatches)
    requires descKey in m0 ==> m0[descKey].DescriptionHits?
    ensures m == m0[descKey := DescriptionHits((if descKey in m0 then m0[descKey].ids else []) + [id], desc)]
  {
    m := m0;
    if descKey !in m {
      m := m[descKey := DescriptionHits([], desc)];
    }
    m := m[descKey := DescriptionHits(m[descKey].ids + [id], desc)];
  }

  /** One pass of the funding function's loops over an identifier list
      (checks/dataset_program_checks.py:16-35 for awards, 37-56 for notices),
      adding to the dictionary built so far. */
  method ScanIds(m0: FundingMatches, desc: string, fsl: seq<string>, ids: seq<string>,
                 descKey: FundingCategory, sourceKey: FundingCategory)
    returns (m: FundingMatches)
    requires descKey != sourceKey && descKey !in m0 && sourceKey !in m0
    ensures m == m0 + CategoryEvidence(desc, fsl, ids, descKey, sourceKey)
  {
    m := m0;
    ghost var descHits: seq<string> := [];
    ghost var sourceHits: seq<SourceHit> := [];
    for i := 0 to |ids|
      invariant descHits == DescHits(desc, ids[..i])
      invariant sourceHits == AllSourceHits(fsl, ids[..i])
      invariant m == m0 + Entries(descKey, sourceKey, desc, descHits, sourceHits)
    {
      var id := ids[i];
      DescHitsStep(desc, ids, i);
      AllSourceHitsStep(fsl, ids, i);
      if Contains(desc, id) {
        EntriesAddDesc(m0, descKey, sourceKey, desc, descHits, sourceHits, id);
        m := AddDescHit(m, desc, id, descKey);
        descHits := descHits + [id];
      }
      assert m == m0 + Entries(descKey, sourceKey, desc, descHits, sourceHits);
      EntriesAddSources(m0, descKey, sourceKey, desc, descHits, sourceHits, SourceHitsOf(id, fsl));
      m := ScanSources(m, fsl, id, sourceKey);
      sourceHits := sourceHits + SourceHitsOf(id, fsl);
    }
    assert ids[..|ids|] == ids;
  }

  /** get_dataset_program_funding_matches (checks/dataset_program_checks.py:14-67). */
  method FundingMatchesOf(desc: string, fsl: seq<string>, awards: seq<string>, nofos: seq<string>)
    returns (matches: FundingMatches)
    ensures matches == FundingSpec(desc, fsl, awards, nofos)
  {
    matches := map[];
    matches := ScanIds(matches, desc, fsl, awards, AwardsToDesc, AwardsToFs);
    matches := ScanIds(matches, desc, fsl, nofos, NofosToDesc, NofosToFs);
  }

  // ---------------------------------------------------------------------------
  // What the funding dictionary holds

  /** An identifier is among the description hits exactly when it is listed
      and occurs in the description. */
  lemma {:induction false} DescHitsMembers(desc: string, ids: seq<string>)
    ensures forall x :: x in DescHits(desc, ids) <==> x in ids && Contains(desc, x)
  {
    if ids != [] {
      var init := ids[..|ids| - 1];
      DescHitsMembers(desc, init);
      assert ids == init + [ids[|ids| - 1]];
    }
  }

  /** Duplicates are kept: a matching identifier appears as often as it is
      listed. */
  lemma {:induction false} DescHitsCount(desc: string, ids: seq<string>)
    ensures forall x :: multiset(DescHits(desc, ids))[x] == if Contains(desc, x) then multiset(ids)[x] else 0
  {
    if ids != [] {
      var init := ids[..|ids| - 1];
      DescHitsCount(desc, init);
      assert ids == init + [ids[|ids| - 1]];
    }
  }

  /** List order is kept: the hits of `a + b` are the hits of `a` followed by
      those of `b`. */
  lemma {:induction false} DescHitsAppend(desc: string, a: seq<string>, b: seq<string>)
    ensures DescHits(desc, a + b) == DescHits(desc, a) + DescHits(desc, b)
  {
    if b == [] {
      assert a + b == a;
    } else {
      var init := b[..|b| - 1];
      DescHitsAppend(desc, a, init);
      assert (a + b)[..|a + b| - 1] == a + init;
    }
  }

  /** The entries of one identifier are exactly its matches. */
  lemma {:induction false} SourceHitsOfMembers(id: string, fsl: seq<string>)
    ensures forall h :: h in SourceHitsOf(id, fsl) <==> h.id == id && h.fundingSource in fsl && Contains(h.fundingSource, id)
  {
    if fsl != [] {
      var init := fsl[..|fsl| - 1];
      SourceHitsOfMembers(id, init);
      assert fsl == init + [fsl[|fsl| - 1]];
    }
  }

  /** The collected entries are exactly the matching pairs. */
  lemma {:induction false} AllSourceHitsMembers(fsl: seq<string>, ids: seq<string>)
    ensures forall h :: h in AllSourceHits(fsl, ids) <==> h.id in ids && h.fundingSource in fsl && Contains(h.fundingSource, h.id)
  {
    if ids != [] {
      var init := ids[..|ids| - 1];
      AllSourceHitsMembers(fsl, init);
      SourceHitsOfMembers(ids[|ids| - 1], fsl);
      assert ids == init + [ids[|ids| - 1]];
    }
  }

  /** `(i, j)` is the last pair, in identifier-major and funding-source-minor
      order, whose identifier occurs in its funding source. */
  predicate IsLastMatch(fsl: seq<string>, ids: seq<string>, i: int, j: int)
  {
    && 0 <= i < |ids| && 0 <= j < |fsl| && Contains(fsl[j], ids[i])
    && (forall j' :: j < j' < |fsl| ==> !Contains(fsl[j'], ids[i]))
    && (forall i', j' :: i < i' < |ids| && 0 <= j' < |fsl| ==> !Contains(fsl[j'], ids[i']))
  }

  /** Funding source `j` holds `id`, and no later funding source does. */
  predicate IsLastSource(id: string, fsl: seq<string>, j: int)
  {
    0 <= j < |fsl| && Contains(fsl[j], id) && forall j' :: j < j' < |fsl| ==> !Contains(fsl[j'], id)
  }

  /** The last entry of one identifier is its last matching funding source. */
  lemma {:induction false} SourceHitsOfLast(id: string, fsl: seq<string>)
    requires SourceHitsOf(id, fsl) != []
    ensures var hits := SourceHitsOf(id, fsl);
      exists j :: IsLastSource(id, fsl, j) && hits[|hits| - 1] == SourceHit(id, fsl[j])
  {
    var n := |fsl|;
    var init := fsl[..n - 1];
    var hits := SourceHitsOf(id, fsl);
    if Contains(fsl[n - 1], id) {
      assert hits == SourceHitsOf(id, init) + [SourceHit(id, fsl[n - 1])];
      assert IsLastSource(id, fsl, n - 1);
    } else {
      assert hits == SourceHitsOf(id, init);
      SourceHitsOfLast(id, init);
      var j :| IsLastSource(id, init, j) && hits[|hits| - 1] == SourceHit(id, init[j]);
      LastSourceSkip(id, fsl, j);
    }
  }

  /** A last matching source stays the last one when a source that does not
      hold the identifier is appended. */
  lemma LastSourceSkip(id: string, fsl: seq<string>, j: int)
    requires fsl != [] && IsLastSource(id, fsl[..|fsl| - 1], j) && !Contains(fsl[|fsl| - 1], id)
    ensures IsLastSource(id, fsl, j) && fsl[j] == fsl[..|fsl| - 1][j]
  {
    var init := fsl[..|fsl| - 1];
    forall j' | j < j' < |fsl| ensures !Contains(fsl[j'], id) {
      if j' < |fsl| - 1 {
        assert fsl[j'] == init[j'];
      }
    }
  }

  /** An identifier has no entries exactly when no funding source holds it. */
  lemma SourceHitsOfEmpty(id: string, fsl: seq<string>)
    ensures SourceHitsOf(id, fsl) == [] <==> forall j :: 0 <= j < |fsl| ==> !Contains(fsl[j], id)
  {
    SourceHitsOfMembers(id, fsl);
    if SourceHitsOf(id, fsl) != [] {
      var h := SourceHitsOf(id, fsl)[0];
      assert h in SourceHitsOf(id, fsl);
      var j :| 0 <= j < |fsl| && fsl[j] == h.fundingSource;
    } else {
      forall j | 0 <= j < |fsl| ensures !Contains(fsl[j], id) {
        assert SourceHit(id, fsl[j]) !in SourceHitsOf(id, fsl);
      }
    }
  }

  /** A last match among the first identifiers stays the last match when the
      next identifier matches no funding source. */
  lemma ExtendLastMatch(fsl: seq<string>, ids: seq<string>, i: int, j: int)
    requires ids != [] && IsLastMatch(fsl, ids[..|ids| - 1], i, j)
    requires SourceHitsOf(ids[|ids| - 1], fsl) == []
    ensures IsLastMatch(fsl, ids, i, j) && ids[i] == ids[..|ids| - 1][i]
  {
    SourceHitsOfEmpty(ids[|ids| - 1], fsl);
    var n := |ids|;
    var init := ids[..n - 1];
    assert ids[i] == init[i];
    forall i', j' | i < i' < n && 0 <= j' < |fsl|
      ensures !Contains(fsl[j'], ids[i'])
    {
      if i' < n - 1 {
        assert ids[i'] == init[i'];
      }
    }
  }

  /** The last entry of the last identifier, when it has one, is the last
      match overall. */
  lemma LastMatchOfLastId(fsl: seq<string>, ids: seq<string>)
    requires ids != [] && SourceHitsOf(ids[|ids| - 1], fsl) != []
    ensures var hits := AllSourceHits(fsl, ids);
      hits != [] && exists i, j :: IsLastMatch(fsl, ids, i, j) && hits[|hits| - 1] == SourceHit(ids[i], fsl[j])
  {
    var n := |ids|;
    var id := ids[n - 1];
    SourceHitsOfLast(id, fsl);
    var own := SourceHitsOf(id, fsl);
    var hits := AllSourceHits(fsl, ids);
    var j :| IsLastSource(id, fsl, j) && own[|own| - 1] == SourceHit(id, fsl[j]);
    assert hits[|hits| - 1] == own[|own| - 1];
    assert IsLastMatch(fsl, ids, n - 1, j);
  }

  /** Last match wins: the last collected entry is the last matching pair in
      the order the loops visit the pairs. */
  lemma {:induction false} AllSourceHitsLast(fsl: seq<string>, ids: seq<string>)
    requires AllSourceHits(fsl, ids) != []
    ensures var hits := AllSourceHits(fsl, ids);
      exists i, j :: IsLastMatch(fsl, ids, i, j) && hits[|hits| - 1] == SourceHit(ids[i], fsl[j])
  {
    var n := |ids|;
    var init := ids[..n - 1];
    var id := ids[n - 1];
    if SourceHitsOf(id, fsl) != [] {
      LastMatchOfLastId(fsl, ids);
    } else {
      var hits := AllSourceHits(fsl, ids);
      var before := AllSourceHits(fsl, init);
      assert hits == before + [];
      AllSourceHitsLast(fsl, init);
      var i, j :| IsLastMatch(fsl, init, i, j) && before[|before| - 1] == SourceHit(init[i], fsl[j]);
      ExtendLastMatch(fsl, ids, i, j);
    }
  }

  /** The description key of one identifier list is present exactly when some
      identifier occurs in the description, and then holds all of them. */
  lemma DescEntryMeaning(desc: string, fsl: seq<string>, ids: seq<string>,
                         descKey: FundingCategory, sourceKey: FundingCategory)
    requires descKey != sourceKey
    ensures var m := CategoryEvidence(desc, fsl, ids, descKey, sourceKey);
      && (descKey in m <==> exists x :: x in ids && Contains(desc, x))
      && (descKey in m ==> m[descKey] == DescriptionHits(DescHits(desc, ids), desc))
  {
    var hits := DescHits(desc, ids);
    DescHitsMembers(desc, ids);
    if hits != [] {
      assert hits[0] in hits;
    }
  }

  /** The funding-source key of one identifier list is present exactly when
      some identifier occurs in some funding source, and then holds the last
      such pair only. */
  lemma SourceEntryMeaning(desc: string, fsl: seq<string>, ids: seq<string>,
                           descKey: FundingCategory, sourceKey: FundingCategory)
    requires descKey != sourceKey
    ensures var m := CategoryEvidence(desc, fsl, ids, descKey, sourceKey);
      && (sourceKey in m <==> exists h: SourceHit :: h.id in ids && h.fundingSource in fsl && Contains(h.fundingSource, h.id))
      && (sourceKey in m ==> exists i, j :: IsLastMatch(fsl, ids, i, j) && m[sourceKey] == SourceHits([SourceHit(ids[i], fsl[j])]))
  {
    var all := AllSourceHits(fsl, ids);
    AllSourceHitsMembers(fsl, ids);
    if all != [] {
      assert all[0] in all;
      AllSourceHitsLast(fsl, ids);
    }
  }

  /** What one identifier list contributes: its description key holds all
      identifiers found in the description, its funding-source key only the
      last identifier/funding-source match, and there is no other key. */
  lemma CategoryEvidenceMeaning(desc: string, fsl: seq<string>, ids: seq<string>,
                                descKey: FundingCategory, sourceKey: FundingCategory)
    requires descKey != sourceKey
    ensures var m := CategoryEvidence(desc, fsl, ids, descKey, sourceKey);
      && m.Keys <= {descKey, sourceKey}
      && (descKey in m <==> exists x :: x in ids && Contains(desc, x))
      && (descKey in m ==> m[descKey] == DescriptionHits(DescHits(desc, ids), desc))
      && (sourceKey in m <==> exists h: SourceHit :: h.id in ids && h.fundingSource in fsl && Contains(h.fundingSource, h.id))
      && (sourceKey in m ==> exists i, j :: IsLastMatch(fsl, ids, i, j) && m[sourceKey] == SourceHits([SourceHit(ids[i], fsl[j])]))
  {
    DescEntryMeaning(desc, fsl, ids, descKey, sourceKey);
    SourceEntryMeaning(desc, fsl, ids, descKey, sourceKey);
  }

  /** No funding evidence at all exactly when no award and no notice occurs
      in the description or in any funding source. */
  lemma FundingSpecEmpty(desc: string, fsl: seq<string>, awards: seq<string>, nofos: seq<string>)
    ensures FundingSpec(desc, fsl, awards, nofos) == map[] <==>
      forall x :: x in awards + nofos ==> !Contains(desc, x) && forall fs :: fs in fsl ==> !Contains(fs, x)
  {
    var m := FundingSpec(desc, fsl, awards, nofos);
    CategoryEvidenceMeaning(desc, fsl, awards, AwardsToDesc, AwardsToFs);
    CategoryEvidenceMeaning(desc, fsl, nofos, NofosToDesc, NofosToFs);
    var ma := CategoryEvidence(desc, fsl, awards, AwardsToDesc, AwardsToFs);
    var mn := CategoryEvidence(desc, fsl, nofos, NofosToDesc, NofosToFs);
    if m == map[] {
      assert AwardsToDesc !in ma && AwardsToFs !in ma && NofosToDesc !in mn && NofosToFs !in mn;
      forall x | x in awards + nofos
        ensures !Contains(desc, x) && forall fs :: fs in fsl ==> !Contains(fs, x)
      {
        forall fs | fs in fsl ensures !Contains(fs, x) {
          assert SourceHit(x, fs).id == x;
        }
      }
    } else {
      var k :| k in m;
      if k in ma {
        if k == AwardsToFs {
          var h: SourceHit :| h.id in awards && h.fundingSource in fsl && Contains(h.fundingSource, h.id);
          assert h.id in awards + nofos;
        } else {
          var x :| x in awards && Contains(desc, x);
          assert x in awards + nofos;
        }
      } else {
        assert k in mn;
        if k == NofosToFs {
          var h: SourceHit :| h.id in nofos && h.fundingSource in fsl && Contains(h.fundingSource, h.id);
          assert h.id in awards + nofos;
        } else {
          var x :| x in nofos && Contains(desc, x);
          assert x in awards + nofos;
        }
      }
    }
  }

  /** A program without awards and notices yields no funding evidence. */
  lemma NoIdentifiersNoEvidence(desc: string, fsl: seq<string>)
    ensures FundingSpec(desc, fsl, [], []) == map[]
  {
    FundingSpecEmpty(desc, fsl, [], []);
  }

  // ---------------------------------------------------------------------------
  // Name evidence (get_dataset_program_name_matches)

  /** The four keys of the dictionary the name function returns. */
  datatype NameCategory = AcrToDesc | AcrToTitle | NameToDesc | NameToTitle
  {
    /** The key as it is spelled in the returned dictionary. */
    function Key(): string
    {
      match this
      case AcrToDesc => "acr_to_desc"
      case AcrToTitle => "acr_to_title"
      case NameToDesc => "name_to_desc"
      case NameToTitle => "name_to_title"
    }

    /** The key under which the payload echoes the program's value. */
    function NeedleKey(): string
    {
      if this.AcrToDesc? || this.AcrToTitle? then "program_acronym" else "program_name"
    }

    /** The key under which the payload echoes the dataset's value. */
    function HaystackKey(): string
    {
      if this.AcrToDesc? || this.NameToDesc? then "dataset_description" else "dataset_title"
    }

    /** The program value this category looks for: the acronym or the name. */
    function Needle(acronym: string, name: string): string
    {
      if this.AcrToDesc? || this.AcrToTitle? then acronym else name
    }

    /** The dataset value this category looks in: the description or the title. */
    function Haystack(desc: string, title: string): string
    {
      if this.AcrToDesc? || this.NameToDesc? then desc else title
    }
  }

  /** The four funding keys are spelled differently, so a map over the
      categories is a dictionary over the keys. */
  lemma FundingKeysDistinct()
    ensures forall a: FundingCategory, b: FundingCategory :: a.Key() == b.Key() ==> a == b
  {
  }

  /** The four name keys are spelled differently, and in every payload the
      program value and the dataset value are stored under different keys. */
  lemma NameKeysDistinct()
    ensures forall a: NameCategory, b: NameCategory :: a.Key() == b.Key() ==> a == b
    ensures forall c: NameCategory :: c.NeedleKey() != c.HaystackKey()
    ensures forall c: NameCategory :: (c.NeedleKey() == "program_acronym") == (c.AcrToDesc? || c.AcrToTitle?)
    ensures forall c: NameCategory :: (c.HaystackKey() == "dataset_description") == (c.AcrToDesc? || c.NameToDesc?)
  {
  }

  const NameCategories: set<NameCategory> := {AcrToDesc, AcrToTitle, NameToDesc, NameToTitle}

  /** A payload: the two compared values, exactly as they were given. */
  datatype Echo = Echo(needle: string, haystack: string)

  type NameMatches = map<NameCategory, Echo>

  /** The name dictionary: every category whose own substring test holds, on
      the inputs exactly as given, echoing the two compared values. An echoed
      program value is never longer than the dataset value it was found in,
      and the acronym keys and the name keys agree when the two values do. */
  function NameSpec(desc: string, title: string, acronym: string, name: string): (m: NameMatches)
    ensures forall c :: c in m ==> |m[c].needle| <= |m[c].haystack|
    ensures acronym == name ==> (AcrToDesc in m <==> NameToDesc in m) && (AcrToTitle in m <==> NameToTitle in m)
  {
    map c | c in NameCategories && Contains(c.Haystack(desc, title), c.Needle(acronym, name))
      :: Echo(c.Needle(acronym, name), c.Haystack(desc, title))
  }

  /** The name function: four independent substring tests, each adding its
      key when it holds. */
  method NameMatchesOf(desc: string, title: string, acronym: string, name: string)
    returns (matches: NameMatches)
    ensures matches == NameSpec(desc, title, acronym, name)
  {
    matches := map[];
    if Contains(desc, acronym) {
      matches := matches[AcrToDesc := Echo(acronym, desc)];
    }
    if Contains(title, acronym) {
      matches := matches[AcrToTitle := Echo(acronym, title)];
    }
    if Contains(desc, name) {
      matches := matches[NameToDesc := Echo(name, desc)];
    }
    if Contains(title, name) {
      matches := matches[NameToTitle := Echo(name, title)];
    }
    SameNameMatches(matches, desc, title, acronym, name);
  }

  /** A dictionary with exactly the keys whose tests hold, each echoing its
      two values, is the name dictionary. */
  lemma SameNameMatches(m: NameMatches, desc: string, title: string, acronym: string, name: string)
    requires AcrToDesc in m <==> Contains(desc, acronym)
    requires AcrToTitle in m <==> Contains(title, acronym)
    requires NameToDesc in m <==> Contains(desc, name)
    requires NameToTitle in m <==> Contains(title, name)
    requires forall c :: c in m ==> m[c] == Echo(c.Needle(acronym, name), c.Haystack(desc, title))
    ensures m == NameSpec(desc, title, acronym, name)
  {
    var spec := NameSpec(desc, title, acronym, name);
    NameSpecMeaning(desc, title, acronym, name);
    forall c ensures c in m <==> c in spec {
      match c
      case AcrToDesc =>
      case AcrToTitle =>
      case NameToDesc =>
      case NameToTitle =>
    }
    assert m.Keys == spec.Keys;
    forall c | c in m ensures m[c] == spec[c] {
    }
  }

  /** Each key is present exactly when its own test holds, and then echoes
      the program value and the dataset value it compared. */
  lemma NameSpecMeaning(desc: string, title: string, acronym: string, name: string)
    ensures var m := NameSpec(desc, title, acronym, name);
      && (AcrToDesc in m <==> Contains(desc, acronym))
      && (AcrToTitle in m <==> Contains(title, acronym))
      && (NameToDesc in m <==> Contains(desc, name))
      && (NameToTitle in m <==> Contains(title, name))
      && (forall c :: c in m ==> m[c] == Echo(c.Needle(acronym, name), c.Haystack(desc, title)))
  {
  }

  /** No name evidence exactly when neither the acronym nor the name occurs
      in the description or the title. */
  lemma NameSpecEmpty(desc: string, title: string, acronym: string, name: string)
    ensures NameSpec(desc, title, acronym, name) == map[] <==>
      !Contains(desc, acronym) && !Contains(title, acronym) && !Contains(desc, name) && !Contains(title, name)
  {
    var m := NameSpec(desc, title, acronym, name);
    if Contains(desc, acronym) {
      assert AcrToDesc in m;
    } else if Contains(title, acronym) {
      assert AcrToTitle in m;
    } else if Contains(desc, name) {
      assert NameToDesc in m;
    } else if Contains(title, name) {
      assert NameToTitle in m;
    }
  }

  /** An empty acronym is found in every description and every title. */
  lemma EmptyAcronymEvidence(desc: string, title: string, name: string)
    ensures var m := NameSpec(desc, title, "", name);
      AcrToDesc in m && AcrToTitle in m && m[AcrToDesc] == Echo("", desc)
  {
  }

  /** The name function folds no case: a capital in the acronym keeps it
      from matching a lower-case description. */
  lemma NameEvidenceIsCaseSensitive(desc: string, title: string, acronym: string, name: string)
    requires IsLower(desc) && !IsLower(acronym)
    ensures AcrToDesc !in NameSpec(desc, title, acronym, name)
  {
    if Contains(desc, acronym) {
      ContainsKeepsLower(desc, acronym);
    }
  }

  // ---------------------------------------------------------------------------
  // PI evidence (get_dataset_program_pi_matches)

  /** `[pi for pi in dataset_pi if pi in program_pi_list]`: the dataset PIs
      that are also program PIs, compared for equality. Each such PI is kept
      as often as the dataset lists it, and no other PI is kept. */
  function PiMatches(datasetPis: seq<string>, programPis: seq<string>): (r: seq<string>)
    ensures forall x :: multiset(r)[x] == if x in programPis then multiset(datasetPis)[x] else 0
  {
    if datasetPis == [] then []
    else
      var rest := PiMatches(datasetPis[1..], programPis);
      assert datasetPis == [datasetPis[0]] + datasetPis[1..];
      if datasetPis[0] in programPis then [datasetPis[0]] + rest else rest
  }

  /** What `for pi in dataset_pi` meets when `dataset_pi` is a `str`, as the
      function's docstring types it: its single characters, each as a
      one-character string. */
  function Characters(s: string): (cs: seq<string>)
    ensures |cs| == |s|
    ensures forall k :: 0 <= k < |s| ==> cs[k] == [s[k]]
  {
    seq(|s|, k requires 0 <= k < |s| => [s[k]])
  }

  /** Given a string, the PI function compares single characters with the
      program PIs, so it finds nothing unless some program PI is one
      character long. */
  lemma StringPiArgument(s: string, programPis: seq<string>)
    requires forall p :: p in programPis ==> |p| != 1
    ensures PiMatches(Characters(s), programPis) == []
  {
    PiMatchesEmpty(Characters(s), programPis);
    forall x | x in Characters(s) ensures x !in programPis {
      var k :| 0 <= k < |s| && Characters(s)[k] == x;
    }
  }

  /** The comprehension keeps dataset order: matching a concatenation is
      matching each part. */
  lemma {:induction false} PiMatchesAppend(a: seq<string>, b: seq<string>, programPis: seq<string>)
    ensures PiMatches(a + b, programPis) == PiMatches(a, programPis) + PiMatches(b, programPis)
  {
    if a == [] {
      assert a + b == b;
    } else {
      assert (a + b)[1..] == a[1..] + b;
      PiMatchesAppend(a[1..], b, programPis);
    }
  }

  /** The result is empty exactly when no dataset PI is a program PI; in
      particular when either list is empty. */
  lemma PiMatchesEmpty(datasetPis: seq<string>, programPis: seq<string>)
    ensures PiMatches(datasetPis, programPis) == [] <==> forall x :: x in datasetPis ==> x !in programPis
  {
    var r := PiMatches(datasetPis, programPis);
    if r != [] {
      assert multiset(r)[r[0]] > 0;
    }
    forall x | x in datasetPis && x in programPis ensures r != [] {
      assert multiset(datasetPis)[x] > 0;
      assert multiset(r)[x] > 0;
    }
  }

  /** Matching against the program list a second time changes nothing. */
  lemma {:induction false} PiMatchesIdempotent(datasetPis: seq<string>, programPis: seq<string>)
    ensures PiMatches(PiMatches(datasetPis, programPis), programPis) == PiMatches(datasetPis, programPis)
  {
    if datasetPis != [] {
      PiMatchesIdempotent(datasetPis[1..], programPis);
      var rest := PiMatches(datasetPis[1..], programPis);
      if datasetPis[0] in programPis {
        assert ([datasetPis[0]] + rest)[1..] == rest;
      }
    }
  }
}
