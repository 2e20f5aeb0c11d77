/** The normaliser of main.py: how raw table cells become the strings and
    token lists the match rules compare. */
module Normalize {
  import opened Text

  /** A table cell as the table reader hands it over: missing (NaN) or text. */
  datatype Cell = Missing | Present(text: string)

  /** Python's `str(value)` on a cell: a missing value prints as "nan". */
  function CellText(c: Cell): string
  {
    match c
    case Missing => "nan"
    case Present(s) => s
  }

  /** What the normaliser produces for a list field: a non-empty, stripped,
      lower-case token that holds no separator. */
  predicate IsToken(t: string)
  {
    t != "" && Stripped(t) && IsLower(t) && Sep !in t
  }

  /** A stripped slice of a separator-free string is separator-free, and so
      is its lower-cased form. */
  lemma NormalizedPieceHasNoSep(p: string)
    requires Sep !in p
    ensures Sep !in NormalizeScalar(p)
  {
    var r := Strip(p);
    StripKeepsOut(p, r, Sep);
    LowerKeepsSep(r);
  }

  /** A character absent from a text is absent from any trimmed form of it. */
  lemma StripKeepsOut(s: string, r: string, c: char)
    requires Trims(s, r) && c !in s
    ensures c !in r
  {
    var i :| 0 <= i <= |s| - |r| && s[i..i + |r|] == r && AllSpace(s[..i]) && AllSpace(s[i + |r|..]);
    forall k | 0 <= k < |r| ensures r[k] != c {
      assert r[k] == s[i + k];
    }
  }

  /** The comprehension `[p.strip().lower() for p in parts if p.strip()]`:
      blank pieces are dropped, every other piece is kept, normalised, in
      order. */
  function Clean(parts: seq<string>): (cleaned: seq<string>)
    ensures |cleaned| <= |parts|
    ensures "" !in cleaned
  {
    if parts == [] then []
    else if Strip(parts[0]) == "" then Clean(parts[1..])
    else
      StripEmptyIffAllSpace(parts[0]);
      [NormalizeScalar(parts[0])] + Clean(parts[1..])
  }

  /** The comprehension gives nothing exactly when every piece is blank. */
  lemma {:induction false} CleanEmptyIffBlank(parts: seq<string>)
    ensures Clean(parts) == [] <==> forall p :: p in parts ==> Strip(p) == ""
  {
    if parts != [] {
      CleanEmptyIffBlank(parts[1..]);
      assert forall p :: p in parts <==> p == parts[0] || p in parts[1..];
    }
  }

  /** A non-blank, separator-free piece normalises to a token. */
  lemma PieceToken(p: string)
    requires Sep !in p && Strip(p) != ""
    ensures IsToken(NormalizeScalar(p))
  {
    LowerKeepsStripped(Strip(p));
    LowerIsLower(Strip(p));
    NormalizedPieceHasNoSep(p);
  }

  /** Cleaning separator-free pieces yields tokens only. */
  lemma {:induction false} CleanGivesTokens(parts: seq<string>)
    requires forall k :: 0 <= k < |parts| ==> Sep !in parts[k]
    ensures forall k :: 0 <= k < |Clean(parts)| ==> IsToken(Clean(parts)[k])
  {
    if parts != [] {
      var rest := Clean(parts[1..]);
      CleanGivesTokens(parts[1..]);
      if Strip(parts[0]) != "" {
        var t := NormalizeScalar(parts[0]);
        PieceToken(parts[0]);
        assert Clean(parts) == [t] + rest;
        forall k | 0 <= k < |Clean(parts)| ensures IsToken(Clean(parts)[k]) {
          if k > 0 {
            assert Clean(parts)[k] == rest[k - 1];
          }
        }
      } else {
        assert Clean(parts) == rest;
      }
    }
  }

  /** A `;`-delimited field split into its normalised tokens. */
  function Tokens(s: string): (tokens: seq<string>)
    ensures forall k :: 0 <= k < |tokens| ==> IsToken(tokens[k])
  {
    CleanGivesTokens(Split(s));
    Clean(Split(s))
  }

  /** The dataset's funding-source list (main.py:48-50): a missing cell gives
      the empty list; text is split into tokens, so every element is a
      non-empty, stripped, lower-case token without separator. */
  function FundingSourceList(c: Cell): (tokens: seq<string>)
    ensures c.Missing? ==> tokens == []
    ensures c.Present? ==> tokens == Tokens(c.text)
    ensures forall k :: 0 <= k < |tokens| ==> IsToken(tokens[k])
  {
    if c.Present? then Tokens(c.text) else []
  }

  /** A program or grant list field (main.py:57-66, 164-166): the cell goes
      through `str` first, so a missing cell is the text "nan". */
  function ListField(c: Cell): (tokens: seq<string>)
    ensures forall k :: 0 <= k < |tokens| ==> IsToken(tokens[k])
  {
    Tokens(CellText(c))
  }

  /** A missing program or grant list field yields the single token "nan". */
  lemma MissingListField()
    ensures ListField(Missing) == ["nan"]
  {
    assert IsToken("nan");
    TokensOfToken("nan");
  }

  /** The grant's organisation name (main.py:168-169): missing gives "".
      The result is empty exactly when the cell is missing or all white
      space, which is what the `!= ""` guard of rule 8 tests, and otherwise
      it is stripped and lower case. */
  function OrgName(c: Cell): (r: string)
    ensures c.Missing? ==> r == ""
    ensures c.Present? ==> r == NormalizeScalar(c.text)
    ensures r == "" <==> c.Missing? || AllSpace(c.text)
    ensures Stripped(r) && IsLower(r)
  {
    if c.Present? then NormalizeScalar(c.text) else ""
  }

  // ---------------------------------------------------------------------------
  // What the token list looks like

  lemma {:induction false} CleanAppend(a: seq<string>, b: seq<string>)
    ensures Clean(a + b) == Clean(a) + Clean(b)
  {
    if a == [] {
      assert a + b == b;
    } else {
      assert (a + b)[1..] == a[1..] + b;
      CleanAppend(a[1..], b);
    }
  }

  /** The tokens of `a;b` are those of `a` followed by those of `b`:
      order and duplicates are kept. */
  lemma TokensAround(a: string, b: string)
    ensures Tokens(a + [Sep] + b) == Tokens(a) + Tokens(b)
  {
    SplitAround(a, b);
    CleanAppend(Split(a), Split(b));
  }

  /** A piece without separator gives no token when blank, otherwise its
      normalised self. */
  lemma TokensOfPiece(p: string)
    requires Sep !in p
    ensures Tokens(p) == if Strip(p) == "" then [] else [NormalizeScalar(p)]
  {
    SplitJoin([p]);
    assert Split(p) == [p];
    CleanOne(p);
  }

  lemma CleanOne(p: string)
    ensures Clean([p]) == if Strip(p) == "" then [] else [NormalizeScalar(p)]
  {
    assert [p][1..] == [];
  }

  /** A token is already normalised. */
  lemma NormalizeToken(t: string)
    requires IsToken(t)
    ensures Strip(t) != "" && NormalizeScalar(t) == t
  {
    StripStripped(t);
    LowerIsLower(t);
  }

  /** A list of tokens is its own clean-up. */
  lemma {:induction false} CleanTokens(ts: seq<string>)
    requires forall k :: 0 <= k < |ts| ==> IsToken(ts[k])
    ensures Clean(ts) == ts
  {
    if ts != [] {
      var rest := ts[1..];
      assert ts == [ts[0]] + rest;
      CleanTokens(rest);
      NormalizeToken(ts[0]);
      assert Clean(ts) == [ts[0]] + Clean(rest);
    }
  }

  /** A single token is its own token list. */
  lemma TokensOfToken(t: string)
    requires IsToken(t)
    ensures Tokens(t) == [t]
  {
    TokensOfPiece(t);
    NormalizeToken(t);
  }

  /** The empty field has no tokens. */
  lemma TokensOfEmpty()
    ensures Tokens("") == []
  {
    assert Split("") == [""];
    CleanOne("");
  }

  /** Joining a non-empty list of tokens and splitting it again gives the
      same tokens. */
  lemma TokensOfJoin(ts: seq<string>)
    requires ts != [] && forall k :: 0 <= k < |ts| ==> IsToken(ts[k])
    ensures Tokens(Join(ts)) == ts
  {
    SplitJoin(ts);
    CleanTokens(ts);
  }

  /** Normalising is idempotent on list fields: joining the tokens back with
      the separator and normalising again gives the same tokens. */
  lemma TokensIdempotent(s: string)
    ensures Tokens(Join(Tokens(s))) == Tokens(s)
  {
    if Tokens(s) == [] {
      TokensOfEmpty();
    } else {
      TokensOfJoin(Tokens(s));
    }
  }
}
