# Dataset-to-funding-entity matching engine, in Dafny

This project models the matching engine of the CCDI dataset-linking scripts.
The engine takes four tables: datasets, programs, projects and grants. For
every dataset it decides, rule by rule, whether the dataset is related to
each program, project and grant, and it writes one yes/no record per pair.

The engine has two parts, and both are modelled:

- **The inline rules of `main.py`** (lines 41-214):
  - the normaliser, which splits a list cell on `;`, strips each piece,
    lower-cases it and drops blank pieces;
  - rules 1-3 for programs: funding identifiers, name/acronym and PI;
  - rule 4 for projects: organisation name;
  - rule 5 for projects: the semantic rule, which is switched off;
  - rules 6-8 for grants: PI, opportunity number and organisation name;
  - the nested loops that build the three result lists.
- **The evidence-producing rule functions of
  `checks/dataset_program_checks.py`.** They do not return a flag. They return
  what made the rule match:
  - the funding dictionary (`awards_to_desc`, `awards_to_fs`, `nofos_to_desc`,
    `nofos_to_fs`);
  - the name dictionary (`acr_to_desc`, `acr_to_title`, `name_to_desc`,
    `name_to_title`);
  - the list of matching PIs.

The modules are:

- `Text` (`text.dfy`) — Python's string primitives on `seq<char>`:
  - `s in t` as `Contains`, with an offset-based reference definition;
  - `str.split(';')` as `Split`, whose pieces join back to the input;
  - `str.strip()` over Python's white-space set;
  - `str.lower()` on ASCII letters.
- `Normalize` (`normalize.dfy`) — table cells (`Missing` for NaN, or text) and
  the three normaliser comprehensions.
- `Rules` (`rules.dfy`) — rules 1-4 and 6-8 as predicates, with lemmas about
  what each decides.
- `Evidence` (`evidence.dfy`) — the three rule functions of the checks module.
  The funding function's nested loops over a local dictionary are methods,
  proved against a declarative specification of the dictionary.
- `Driver` (`driver.dfy`) — rows, records and the nested loops of `main.py`:
  - `Evaluate` is proved to produce exactly the dataset-major cross product of
    records;
  - lemmas state what each yes/no column means;
  - lemmas show that the inline funding and name rules agree with the
    evidence functions;
  - the inline PI rule and the PI function agree in one direction only. The
    rule looks for each program PI inside the dataset PI string
    (main.py:100). The function keeps the dataset PIs that are equal to a
    program PI (checks/dataset_program_checks.py:123).
    `ProgramPiVersusEvidence` proves that an equal PI passes both, and shows
    a PI that only the rule accepts.

The code behaves as follows in places where a reader might expect
otherwise, and the model keeps each behaviour as written:

- A program or grant list cell goes through `str(...)` before it is split
  (main.py:58, 61, 65, 165). A missing cell is therefore the text `"nan"`, and
  it yields the single token `"nan"`, not an empty list (`MissingListField`).
  A program with no contact PI therefore matches every dataset PI that holds
  "nan", such as "nancy drew" (`MissingContactPiFlag`). A program with no
  award matches every description that holds "nan", such as "financial"
  (`MissingAwardFlag`).
- The program PI rule (main.py:98-100) looks for each program PI token as a
  substring of the whole normalised dataset PI string. `dataset_pi` is a
  string there, not a list.
- The grant PI rule (main.py:174) runs its test only when the dataset PI IS
  empty. Grant PI tokens are never empty, so the rule never fires
  (`GrantPiNeverFires`).
- The PI function of the checks module (line 123) keeps the dataset's PIs in
  dataset order, not the program list's order.
- The model gives that PI function a list of dataset PIs. Its docstring
  (checks/dataset_program_checks.py:119) types `dataset_pi` as a `str`.
  Iterating a `str` yields its single characters, so with a string argument
  the function finds nothing unless some program PI is one character long
  (`StringPiArgument`).
- The project organisation rule (main.py:129) has no guard against a blank
  name. A present but blank name strips to `""`, which occurs in every
  description, so the rule says yes.

## Model

| member | source | states |
|---|---|---|
| Text.ContainsIffOccurs | main.py:72 | Python's `s in t` holds exactly when `s` occurs in `t` at some offset; the empty string occurs in every text |
| Text.ContainsInEmpty | main.py:175 | nothing but the empty string is a substring of the empty string |
| Text.Contains | main.py:72 | Python's `s in t` on strings: the empty string occurs in every text, and a text that occurs is never longer than the text it occurs in |
| Text.ContainsLower | main.py:87 | what occurs in a text occurs, lower-cased, in the lower-cased text |
| Text.ContainsKeepsLower | main.py:87 | every substring of a lower-case text is lower case, so a text with a capital never occurs in a lower-cased text |
| Text.ContainsMiddle | main.py:100 | a text occurs in any text that surrounds it |
| Text.Split | main.py:49 | `str.split(';')` returns at least one piece; no piece holds `;`; joining the pieces with `;` gives the input back |
| Text.SplitJoin | main.py:49 | splitting inverts joining for non-empty lists of `;`-free pieces |
| Text.SplitAround | main.py:49 | the pieces of `a;b` are the pieces of `a` followed by the pieces of `b` |
| Text.StripLeft | main.py:49 | what is left is a suffix of the input, the removed prefix is all white space, and the result starts with a non-space |
| Text.StripRight | main.py:49 | what is left is a prefix of the input, the removed suffix is all white space, and the result ends with a non-space |
| Text.Strip | main.py:49 | `str.strip()` has no white space at either end, and the input is white space, then the result, then white space |
| Text.StripStripped | main.py:49 | strip leaves a text with no white space at either end unchanged |
| Text.StripEmptyIffAllSpace | main.py:49 | `fs.strip()` is falsy exactly when the piece is all white space |
| Text.Lower | main.py:44 | `str.lower()` keeps the length and lower-cases each character in place |
| Text.LowerIsLower | main.py:44 | lower-casing leaves no capital and leaves lower-case text alone |
| Text.LowerKeepsStripped | main.py:49 | lower-casing keeps a stripped text stripped |
| Text.LowerKeepsSep | main.py:49 | lower-casing neither adds nor removes `;` |
| Text.NormalizeScalar | main.py:46 | `s.strip().lower()` has no white space at either end and no capital, is no longer than `s`, and is empty exactly when `s` is all white space |
| Text.NormalizeScalarIdempotent | main.py:46 | `s.strip().lower()` applied twice is applied once |
| Normalize.NormalizedPieceHasNoSep | main.py:49 | a normalised `;`-free piece holds no `;` |
| Normalize.Clean | main.py:49 | the comprehension keeps at most one element per piece and never yields an empty string |
| Normalize.CleanEmptyIffBlank | main.py:49 | the comprehension gives nothing exactly when every piece strips to "" |
| Normalize.PieceToken | main.py:49 | a non-blank piece normalises to a non-empty, stripped, lower-case, `;`-free token |
| Normalize.CleanGivesTokens | main.py:49 | the comprehension over the split pieces yields tokens only |
| Normalize.Tokens | main.py:48-50 | every element of a normalised list field is a non-empty, stripped, lower-case token without `;` |
| Normalize.FundingSourceList | main.py:48-50 | a missing funding source gives the empty list; a present one gives the tokens of its text; every element is a non-empty, stripped, lower-case token without `;` |
| Normalize.ListField | main.py:57-66 | the program and grant list fields yield tokens only |
| Normalize.MissingListField | main.py:58 | a missing list cell is stringified to "nan" and yields the single token "nan" |
| Normalize.OrgName | main.py:168-169 | the grant organisation name is "" exactly when the cell is missing or all white space, which is what the guard of rule 8 tests; it is always stripped and lower case |
| Normalize.CleanAppend | main.py:49 | the comprehension works piece by piece: cleaning a concatenation cleans each part |
| Normalize.TokensAround | main.py:48-50 | the tokens of `a;b` are the tokens of `a` followed by the tokens of `b`; order and duplicates are kept |
| Normalize.TokensOfPiece | main.py:49 | a `;`-free piece gives no token when blank, and otherwise exactly its normalised self |
| Normalize.NormalizeToken | main.py:49 | a token is already normalised |
| Normalize.CleanTokens | main.py:49 | a list of tokens is its own clean-up |
| Normalize.TokensOfToken | main.py:49 | a single token is its own token list |
| Normalize.TokensOfEmpty | main.py:49 | the empty field has no tokens |
| Normalize.TokensOfJoin | main.py:49 | joining a non-empty token list with `;` and normalising again gives the same tokens |
| Normalize.TokensIdempotent | main.py:48-50 | normalisation is idempotent: re-joining the tokens and normalising again changes nothing |
| Rules.FundingRule | main.py:71-74 | rule 1 never fires for a program without notices and awards, and fires whenever one of them occurs in the description |
| Rules.NameRule | main.py:87 | rule 2 fires whenever a lower-case name or acronym occurs in the title in any letter case, because the title is lower-cased |
| Rules.ProgramPiRule | main.py:98-100 | rule 3 fires only for a non-empty dataset PI and a non-empty program PI list, and always fires when the dataset PI is itself a program PI |
| Rules.ProjectOrgRule | main.py:129 | rule 4 never fires for a missing organisation, and when it fires the normalised name is no longer than the description |
| Rules.GrantPiRule | main.py:173-175 | rule 6 never fires for a non-empty dataset PI or an empty grant PI list |
| Rules.GrantFundingRule | main.py:184-188 | rule 7 fires only for a present, non-empty opportunity number and a present funding source, and the number is then no longer than the source |
| Rules.GrantOrgRule | main.py:197-199 | rule 8 fires only for a non-empty organisation name no longer than the description |
| Rules.FundingRuleAnyIdentifier | main.py:71-74 | rule 1 fires exactly when some notice or award occurs in the description or in some funding-source token |
| Rules.NameRuleFourTests | main.py:87 | rule 2 is four substring tests: name or acronym, in the description or the lower-cased title |
| Rules.EmptyAcronymMatches | main.py:87 | an empty acronym makes rule 2 fire |
| Rules.CapitalisedNameNeverMatches | main.py:55-87 | the name is not lower-cased: with a lower-case description, a name with a capital never matches, and only the acronym decides |
| Rules.ProgramPiMatchesInside | main.py:98-100 | rule 3 is a substring test: a program PI anywhere inside the dataset PI string makes it fire |
| Rules.BlankProjectOrgMatches | main.py:129 | rule 4 has no blank guard: a present all-white-space organisation name always matches |
| Rules.BlankGrantOrgNeverMatches | main.py:168-199 | rule 8 never fires for a missing or blank organisation name |
| Rules.GrantPiNeedsEmptyToken | main.py:173-175 | rule 6 can fire only when an empty PI token is listed |
| Rules.GrantPiNeverFires | main.py:164-175 | with normalised grant PI tokens, rule 6 never fires |
| Rules.GrantFundingGuard | main.py:184-188 | rule 7 fires exactly when both cells are present, the opportunity number is non-empty, and it occurs in the raw funding source |
| Rules.GrantFundingUsesRawText | main.py:184-188 | rule 7 is case-sensitive on raw text: a number with a capital matches the raw cell, though no lower-cased funding-source token holds it |
| Evidence.FundingSpec | checks/dataset_program_checks.py:14-67 | a `*_to_desc` key holds a non-empty identifier list with the description, a `*_to_fs` key holds exactly one entry, and an empty identifier list adds neither of its keys |
| Evidence.FundingKeysDistinct | checks/dataset_program_checks.py:18-51 | the four funding keys are spelled differently, so a map over the categories is the string-keyed dictionary |
| Evidence.AddDescHit | checks/dataset_program_checks.py:18-24 | the `*_to_desc` entry is created with an empty list on first use, and the identifier is appended to its list |
| Evidence.ScanSources | checks/dataset_program_checks.py:26-35 | the inner funding-source loop resets `*_to_fs` on each match, so afterwards it holds only the identifier's last match, and nothing changes when there is no match |
| Evidence.ScanIds | checks/dataset_program_checks.py:16-35 | one pass over an identifier list adds exactly that list's description and funding-source entries to the dictionary |
| Evidence.FundingMatchesOf | checks/dataset_program_checks.py:14-67 | the funding function returns the awards' entries together with the notices' entries |
| Evidence.DescHitsMembers | checks/dataset_program_checks.py:17-24 | the `program_awards`/`nofos` payload holds exactly the identifiers that occur in the description |
| Evidence.DescHitsCount | checks/dataset_program_checks.py:17-24 | each matching identifier is kept as often as it is listed, and no other one is kept |
| Evidence.DescHitsAppend | checks/dataset_program_checks.py:16-24 | the payload keeps list order: collecting over a concatenation collects over each part in turn |
| Evidence.SourceHitsOfMembers | checks/dataset_program_checks.py:26-35 | an identifier's funding-source entries are exactly its (identifier, source) pairs with the identifier inside the source |
| Evidence.AllSourceHitsMembers | checks/dataset_program_checks.py:16-35 | the matches the loops meet are exactly the (identifier, source) pairs with the identifier inside the source |
| Evidence.SourceHitsOfLast | checks/dataset_program_checks.py:26-35 | the last entry of one identifier is its last matching funding source |
| Evidence.AllSourceHitsLast | checks/dataset_program_checks.py:16-35 | the last match met is the last matching pair in identifier-major, source-minor order |
| Evidence.DescEntryMeaning | checks/dataset_program_checks.py:17-24 | `*_to_desc` is present exactly when some identifier occurs in the description, and then it holds all such identifiers and the unchanged description |
| Evidence.SourceEntryMeaning | checks/dataset_program_checks.py:26-35 | `*_to_fs` is present exactly when some identifier occurs in some funding source, and then it holds one entry: the last matching pair |
| Evidence.CategoryEvidenceMeaning | checks/dataset_program_checks.py:16-56 | one identifier list adds no key other than its two, each with the meaning above |
| Evidence.FundingSpecEmpty | checks/dataset_program_checks.py:14-67 | the funding dictionary is empty exactly when no award or notice occurs in the description or in any funding source |
| Evidence.NoIdentifiersNoEvidence | checks/dataset_program_checks.py:14-67 | a program with no awards and no notices yields an empty dictionary |
| Evidence.NameSpec | checks/dataset_program_checks.py:79-103 | every echoed program value is no longer than the dataset value it was found in, and the acronym keys and name keys agree when acronym and name are equal |
| Evidence.NameKeysDistinct | checks/dataset_program_checks.py:81-103 | the four name keys are spelled differently, and each payload stores the program value and the dataset value under different keys, named for what they hold |
| Evidence.NameMatchesOf | checks/dataset_program_checks.py:79-103 | the name function's four conditional inserts build exactly the declarative name dictionary |
| Evidence.NameSpecMeaning | checks/dataset_program_checks.py:79-103 | each name key is present exactly when its own substring test holds on the inputs as given, and its payload echoes the two compared values |
| Evidence.NameSpecEmpty | checks/dataset_program_checks.py:79-113 | the name dictionary is empty exactly when none of the four tests holds |
| Evidence.EmptyAcronymEvidence | checks/dataset_program_checks.py:81-91 | an empty acronym is always reported against both the description and the title |
| Evidence.NameEvidenceIsCaseSensitive | checks/dataset_program_checks.py:81-85 | no case folding: an acronym with a capital is never found in a lower-case description |
| Evidence.PiMatches | checks/dataset_program_checks.py:123 | each dataset PI that is also a program PI is kept as often as the dataset lists it, and no other PI is kept |
| Evidence.PiMatchesAppend | checks/dataset_program_checks.py:123 | the result keeps dataset order: matching a concatenation matches each part in turn |
| Evidence.PiMatchesEmpty | checks/dataset_program_checks.py:123-131 | the result is empty exactly when no dataset PI is a program PI, so in particular when either list is empty |
| Evidence.PiMatchesIdempotent | checks/dataset_program_checks.py:123 | matching the result against the program list again changes nothing |
| Evidence.Characters | checks/dataset_program_checks.py:119-123 | iterating a `str` yields one one-character string per character, in order |
| Evidence.StringPiArgument | checks/dataset_program_checks.py:119-123 | given a string, the PI function finds nothing unless some program PI is one character long |
| Driver.ViewOf | main.py:43-50 | the description is lower-cased with its length kept, the PI is stripped and lower case and empty exactly when the PI cell is all white space, and the funding-source list holds tokens only |
| Driver.ProgramRecordOf | main.py:55-116 | a program record names the dataset title and the program's name and identifier, each flag is "yes" or "no", and PI matching needs a non-empty dataset PI |
| Driver.ProjectRecordOf | main.py:121-157 | a project record names the dataset title and the project's identifiers, description matching is "no", and a missing organisation gives "no" |
| Driver.GrantRecordOf | main.py:162-214 | PI matching says yes only for an empty dataset PI, funding matching needs both raw cells, and organisation matching needs a present, non-blank name |
| Driver.RowAt | main.py:53-116 | one dataset yields one record per entity, and record j is for entity j |
| Driver.CrossProductAt | main.py:41-214 | D datasets and E entities yield exactly D·E records, and record i·E+j pairs dataset i with entity j |
| Driver.CrossProductPrefix | main.py:41-214 | dataset-major order: the records of the first m datasets come before those of any later dataset |
| Driver.CrossProductMembers | main.py:41-214 | every record comes from some dataset and some entity |
| Driver.AppendRecords | main.py:53-116 | an inner loop appends, in entity order, the record of the dataset's view and each entity |
| Driver.RowThroughView | main.py:43-50 | records computed from the per-dataset values are the records of the dataset row itself |
| Driver.Evaluate | main.py:24-214 | the three result lists are exactly the dataset-major, entity-minor cross products of the datasets with the programs, projects and grants |
| Driver.RecordsEcho | main.py:109-210 | every record names its dataset title and its entity's identifiers as the tables gave them |
| Driver.ProgramFundingFlag | main.py:71-113 | "Funding Source Matching" is "yes" exactly when some notice or award occurs in the lower-cased description or in some funding-source token |
| Driver.ProgramFundingAgreesWithEvidence | main.py:71-74 | the inline funding flag is "yes" exactly when the checks module's funding dictionary, built from the same values, is non-empty |
| Driver.ProgramNameFlag | main.py:55-114 | "Acronym/Name Matching" is "yes" exactly when the name as given, or the lower-cased acronym, occurs in the lower-cased description or the lower-cased title |
| Driver.ProgramNameAgreesWithEvidence | main.py:87 | the inline name flag is "yes" exactly when the checks module's name dictionary, given the values main.py compares, is non-empty |
| Driver.EmptyAcronymFlag | main.py:63-87 | a program without acronym always gets "yes" for name matching |
| Driver.ProgramPiFlag | main.py:98-115 | program "PI Matching" is "no" when the dataset PI or the program PI list is empty, and otherwise "yes" exactly when some program PI occurs in the dataset PI string |
| Driver.ProgramPiVersusEvidence | main.py:100 | a dataset PI equal to a program PI passes both the inline rule and the PI function; "ann lee" against "ann" passes the rule but not the function |
| Driver.MissingContactPiFlag | main.py:64-100 | a program with a missing contact PI matches every dataset PI that holds "nan" |
| Driver.MissingAwardFlag | main.py:60-74 | a program with a missing award matches every description that holds "nan" |
| Driver.DescriptionAlwaysNo | main.py:139-155 | "Description Matching" is always "no" |
| Driver.ProjectOrgFlag | main.py:129-156 | project "Org Matching" is "yes" exactly when the organisation is present and its normalised text occurs in the normalised description; a blank one always matches |
| Driver.GrantPiAlwaysNo | main.py:164-211 | grant "PI Matching" is always "no" |
| Driver.GrantFundingFlag | main.py:184-212 | grant "Funding Matching" is "yes" exactly when the opportunity number is present and non-empty, the funding source is present, and the raw number occurs in it |
| Driver.GrantOrgFlag | main.py:168-213 | grant "Org Matching" is "yes" exactly when the normalised organisation name is non-empty and occurs in the lower-cased description |
| Driver.RunFlagsAlwaysNo | main.py:139-214 | across a whole run, every grant record says "no" for PI matching and every project record says "no" for description matching |

## Left out

- Loading the four CSV tables with pandas (main.py:18-21). The tables are the
  parameters of `Evaluate`.
- Writing the three result lists to time-stamped Excel files (main.py:216-225).
  This is I/O and the clock.
- All logging (main.py:7-11 and throughout, and the `logger.info` calls of the
  checks module). It has no effect on the results.
- The sentence-transformer model and the cosine similarity of rule 5
  (main.py:28-35, 141-144). This is a foreign model with floating-point
  scores. `doSemantic` is `False` in the script, so only that path is
  modelled, and on it "Description Matching" is always "no".
- NaN is modelled as the `Missing` cell. The description, title, PI name,
  program name and acronym are present strings, so these crashes are not
  modelled:
  - a NaN description fails at `.lower()` (main.py:44);
  - a NaN PI name fails at `.strip()` (main.py:46);
  - a NaN acronym fails at `.lower()` (main.py:63);
  - a NaN title fails at `dataset_title.lower()` (main.py:87), but only when
    that operand is reached, because `or` and `any` stop at the first true
    test;
  - a NaN program name fails at its `in` test (main.py:87), with the same
    short-circuit.
- Numeric cells are modelled as their text, so these crashes are not
  modelled:
  - a numeric opportunity number raises TypeError at main.py:187;
  - a numeric program name raises TypeError at main.py:87;
  - a numeric project organisation name raises AttributeError at main.py:129;
  - a numeric grant organisation name raises AttributeError at main.py:169.
  A numeric identifier in a list field goes through `str` and is modelled as
  that text. A missing identifier is carried into the records as `Missing`.
- Evidence.PiMatches: takes the dataset PIs as a list of strings, not the
  `str` of its docstring; `StringPiArgument` covers the string case.
- Text.Lower: lower-cases ASCII letters only, not the full Unicode mapping of
  `str.lower()`.
- The insertion order of Python dictionaries. The funding and name
  dictionaries are modelled as maps from key to payload.
- The project title and abstract are read only by the switched-off semantic
  rule, so project rows do not carry them.
