/** The string primitives the matching engine is built from: Python's
    substring test `s in t`, `str.split(';')`, `str.strip()` and
    `str.lower()`, on strings modelled as `seq<char>`. */
module Text {

  /** `s` occurs in `t` starting at offset `i`. */
  predicate OccursAt(t: string, s: string, i: nat)
  {
    i + |s| <= |t| && t[i..i + |s|] == s
  }

  /** Python's `s in t` for strings: `s` is a contiguous piece of `t`.
      The empty string is a piece of every string, and a piece is never
      longer than the text it occurs in. */
  function Contains(t: string, s: string): (found: bool)
    ensures s == [] ==> found
    ensures found ==> |s| <= |t|
  {
    s <= t || (t != [] && Contains(t[1..], s))
  }

  /** Contains agrees with the offset-based definition of a substring. */
  lemma {:induction false} ContainsIffOccurs(t: string, s: string)
    ensures Contains(t, s) <==> exists i: nat :: OccursAt(t, s, i)
  {
    if s <= t {
      assert OccursAt(t, s, 0);
    } else if t != [] {
      ContainsIffOccurs(t[1..], s);
      if Contains(t[1..], s) {
        var i: nat :| OccursAt(t[1..], s, i);
        assert t[i + 1..i + 1 + |s|] == t[1..][i..i + |s|];
        assert OccursAt(t, s, i + 1);
      }
      if exists i: nat :: OccursAt(t, s, i) {
        var i: nat :| OccursAt(t, s, i);
        if i > 0 {
          assert t[1..][i - 1..i - 1 + |s|] == t[i..i + |s|];
          assert OccursAt(t[1..], s, i - 1);
        }
      }
    }
  }

  /** Nothing but the empty string occurs in the empty string. */
  lemma ContainsInEmpty(s: string)
    ensures Contains("", s) <==> s == ""
  {
  }

  /** Lower-casing both sides keeps a piece a piece: what occurs in a text
      occurs, lower-cased, in the lower-cased text. */
  lemma ContainsLower(t: string, s: string)
    ensures Contains(t, s) ==> Contains(Lower(t), Lower(s))
  {
    if Contains(t, s) {
      ContainsIffOccurs(t, s);
      var i: nat :| OccursAt(t, s, i);
      assert Lower(t)[i..i + |s|] == Lower(s) by {
        forall k | 0 <= k < |s| ensures Lower(t)[i..i + |s|][k] == Lower(s)[k] {
          assert s[k] == t[i + k];
        }
      }
      assert OccursAt(Lower(t), Lower(s), i);
      ContainsIffOccurs(Lower(t), Lower(s));
    }
  }

  // ---------------------------------------------------------------------------
  // str.split(';') and ';'.join(...)

  const Sep: char := ';'

  /** Python's `';'.join(parts)`. */
  function Join(parts: seq<string>): string
  {
    if parts == [] then ""
    else if |parts| == 1 then parts[0]
    else parts[0] + [Sep] + Join(parts[1..])
  }

  /** Python's `s.split(';')`: always at least one piece, no piece holds the
      separator, and joining the pieces with the separator gives `s` back. */
  function Split(s: string): (parts: seq<string>)
    ensures |parts| >= 1
    ensures forall k :: 0 <= k < |parts| ==> Sep !in parts[k]
    ensures Join(parts) == s
  {
    if s == [] then [""]
    else
      var rest := Split(s[1..]);
      if s[0] == Sep then
        assert s == [Sep] + s[1..];
        [""] + rest
      else
        var head := [s[0]] + rest[0];
        if |rest| == 1 then
          assert s == [s[0]] + s[1..];
          [head]
        else
          assert Join(rest) == rest[0] + [Sep] + Join(rest[1..]);
          assert s == [s[0]] + s[1..];
          assert ([head] + rest[1..])[1..] == rest[1..];
          [head] + rest[1..]
  }

  /** Splitting a text that starts with a separator-free piece `p`. */
  lemma {:induction false} SplitAfterPiece(p: string, r: string)
    requires Sep !in p
    ensures Split(p + r) == [p + Split(r)[0]] + Split(r)[1..]
  {
    if p != [] {
      assert (p + r)[1..] == p[1..] + r;
      assert (p + r)[0] == p[0] != Sep;
      SplitAfterPiece(p[1..], r);
      var rest := Split(p[1..] + r);
      assert rest[0] == p[1..] + Split(r)[0];
      assert rest[1..] == Split(r)[1..];
      assert [p[0]] + (p[1..] + Split(r)[0]) == p + Split(r)[0];
    } else {
      assert p + r == r;
      assert p + Split(r)[0] == Split(r)[0];
      assert Split(r) == [Split(r)[0]] + Split(r)[1..];
    }
  }

  /** Splitting inverts joining, as long as no piece holds the separator. */
  lemma {:induction false} SplitJoin(parts: seq<string>)
    requires |parts| >= 1
    requires forall k :: 0 <= k < |parts| ==> Sep !in parts[k]
    ensures Split(Join(parts)) == parts
  {
    if |parts| == 1 {
      SplitAfterPiece(parts[0], "");
      assert parts[0] + "" == parts[0];
      assert Split("") == [""];
    } else {
      SplitJoin(parts[1..]);
      assert parts[0] + [Sep] + Join(parts[1..]) == parts[0] + ([Sep] + Join(parts[1..]));
      var r := [Sep] + Join(parts[1..]);
      SplitAfterPiece(parts[0], r);
      assert r[1..] == Join(parts[1..]);
      assert Split(r) == [""] + parts[1..];
      assert parts[0] + "" == parts[0];
      assert parts == [parts[0]] + parts[1..];
    }
  }

  /** Splitting a text that starts with the character `c`: a separator
      opens a new piece, any other character joins the first piece. */
  lemma SplitCons(c: char, t: string)
    ensures Split([c] + t) == if c == Sep then [""] + Split(t) else [[c] + Split(t)[0]] + Split(t)[1..]
  {
    assert ([c] + t)[1..] == t;
    assert ([c] + t)[0] == c;
    var rest := Split(t);
    if c != Sep && |rest| == 1 {
      assert rest[1..] == [];
    }
  }

  /** Splitting `a;b` gives the pieces of `a` followed by those of `b`. */
  lemma {:induction false} SplitAround(a: string, b: string)
    ensures Split(a + [Sep] + b) == Split(a) + Split(b)
  {
    if a == [] {
      assert a + [Sep] + b == [Sep] + b;
      SplitCons(Sep, b);
    } else {
      var c := a[0];
      var t := a[1..];
      assert a + [Sep] + b == [c] + (t + [Sep] + b);
      SplitAround(t, b);
      SplitAroundStep(c, t, b);
      assert a == [c] + t;
    }
  }

  /** The inductive step of SplitAround: one more leading character. */
  lemma SplitAroundStep(c: char, t: string, b: string)
    requires Split(t + [Sep] + b) == Split(t) + Split(b)
    ensures Split([c] + (t + [Sep] + b)) == Split([c] + t) + Split(b)
  {
    if c == Sep {
      SplitAroundSep(t + [Sep] + b, Split(t), Split(b));
      SplitCons(c, t);
    } else {
      SplitAroundChar(c, t + [Sep] + b, Split(t), Split(b));
      SplitCons(c, t);
    }
  }

  lemma SplitAroundSep(x: string, st: seq<string>, sb: seq<string>)
    requires Split(x) == st + sb
    ensures Split([Sep] + x) == [""] + st + sb
  {
    SplitCons(Sep, x);
  }

  lemma SplitAroundChar(c: char, x: string, st: seq<string>, sb: seq<string>)
    requires c != Sep && st != [] && Split(x) == st + sb
    ensures Split([c] + x) == [[c] + st[0]] + st[1..] + sb
  {
    SplitCons(c, x);
    assert (st + sb)[0] == st[0];
    assert (st + sb)[1..] == st[1..] + sb;
  }

  // ---------------------------------------------------------------------------
  // str.strip()

  /** The characters for which Python's `str.isspace()` holds, and which
      `str.strip()` with no argument removes. */
  predicate IsSpace(c: char)
  {
    || ('\t' <= c <= '\r')
    || ('\U{1C}' <= c <= '\U{1F}')
    || c == ' '
    || c == '\U{85}'
    || c == '\U{A0}'
    || c == '\U{1680}'
    || ('\U{2000}' <= c <= '\U{200A}')
    || c == '\U{2028}'
    || c == '\U{2029}'
    || c == '\U{202F}'
    || c == '\U{205F}'
    || c == '\U{3000}'
  }

  predicate AllSpace(s: string)
  {
    forall k :: 0 <= k < |s| ==> IsSpace(s[k])
  }

  /** Neither end of `s` is white space. */
  predicate Stripped(s: string)
  {
    s == [] || (!IsSpace(s[0]) && !IsSpace(s[|s| - 1]))
  }

  /** Removes the leading white space: what is left is a suffix of `s`, the
      removed prefix is all white space, and what is left starts with a
      non-space character (or is empty). */
  function StripLeft(s: string): (r: string)
    ensures |r| <= |s| && r == s[|s| - |r|..]
    ensures AllSpace(s[..|s| - |r|])
    ensures r == [] || !IsSpace(r[0])
  {
    if s != [] && IsSpace(s[0]) then StripLeft(s[1..]) else s
  }

  /** Removes the trailing white space, symmetrically to StripLeft. */
  function StripRight(s: string): (r: string)
    ensures |r| <= |s| && r == s[..|r|]
    ensures AllSpace(s[|r|..])
    ensures r == [] || !IsSpace(r[|r| - 1])
  {
    if s != [] && IsSpace(s[|s| - 1]) then
      var init := s[..|s| - 1];
      var r := StripRight(init);
      assert init[..|r|] == s[..|r|];
      assert s[|r|..] == init[|r|..] + [s[|s| - 1]];
      r
    else s
  }

  /** `r` is `s` with white space around it removed: `s` is white space,
      then `r`, then white space. */
  predicate Trims(s: string, r: string)
  {
    exists i :: 0 <= i <= |s| - |r| && s[i..i + |r|] == r && AllSpace(s[..i]) && AllSpace(s[i + |r|..])
  }

  /** Python's `s.strip()`: `s` is white space, then the result, then white
      space, and the result has no white space at either end. */
  function Strip(s: string): (r: string)
    ensures Stripped(r) && Trims(s, r)
  {
    var left := StripLeft(s);
    var r := StripRight(left);
    StripSlices(s, left, r);
    r
  }

  /** Where the two halves of Strip cut the input. */
  lemma StripSlices(s: string, left: string, r: string)
    requires left == StripLeft(s) && r == StripRight(left)
    ensures Trims(s, r)
  {
    var i := |s| - |left|;
    assert s[i..i + |r|] == left[..|r|];
    assert s[i + |r|..] == left[|r|..];
    assert 0 <= i <= |s| - |r| && s[i..i + |r|] == r && AllSpace(s[..i]) && AllSpace(s[i + |r|..]);
  }

  /** A string with no white space at either end is left alone by Strip. */
  lemma StripStripped(s: string)
    requires Stripped(s)
    ensures Strip(s) == s
  {
  }

  /** Strip gives the empty string exactly for all-white-space input. */
  lemma StripEmptyIffAllSpace(s: string)
    ensures Strip(s) == "" <==> AllSpace(s)
  {
  }

  // ---------------------------------------------------------------------------
  // str.lower()

  /** Lower-cases one character (ASCII letters only). */
  function LowerChar(c: char): char
  {
    if 'A' <= c <= 'Z' then (c as int - 'A' as int + 'a' as int) as char else c
  }

  /** `str.lower()` on ASCII letters: same length, each character lower-cased. */
  function Lower(s: string): (r: string)
    ensures |r| == |s|
    ensures forall k :: 0 <= k < |s| ==> r[k] == LowerChar(s[k])
  {
    seq(|s|, k requires 0 <= k < |s| => LowerChar(s[k]))
  }

  /** No upper-case ASCII letter is left in a lower-cased string. */
  predicate IsLower(s: string)
  {
    forall k :: 0 <= k < |s| ==> !('A' <= s[k] <= 'Z')
  }

  /** Lower-casing leaves no capital behind, and leaves lower-case text alone. */
  lemma LowerIsLower(s: string)
    ensures IsLower(Lower(s))
    ensures IsLower(s) ==> Lower(s) == s
  {
  }

  /** Lower-casing neither adds nor removes white space, so it keeps a
      stripped string stripped and commutes with Strip. */
  lemma LowerKeepsStripped(s: string)
    requires Stripped(s)
    ensures Stripped(Lower(s))
  {
  }

  /** Lower-casing never introduces or removes the separator. */
  lemma LowerKeepsSep(s: string)
    ensures Sep in Lower(s) <==> Sep in s
  {
    if Sep in s {
      var k :| 0 <= k < |s| && s[k] == Sep;
      assert Lower(s)[k] == Sep;
    }
    if Sep in Lower(s) {
      var k :| 0 <= k < |s| && Lower(s)[k] == Sep;
      assert s[k] == Sep;
    }
  }

  /** Every piece of a lower-case text is lower case: a text holding a
      capital letter never occurs in a lower-cased one. */
  lemma ContainsKeepsLower(t: string, s: string)
    requires IsLower(t) && Contains(t, s)
    ensures IsLower(s)
  {
    ContainsIffOccurs(t, s);
    var i: nat :| OccursAt(t, s, i);
    assert forall k :: 0 <= k < |s| ==> s[k] == t[i + k];
  }

  /** A text occurs in any text that surrounds it. */
  lemma ContainsMiddle(pre: string, s: string, post: string)
    ensures Contains(pre + s + post, s)
  {
    ContainsIffOccurs(pre + s + post, s);
    assert (pre + s + post)[|pre|..|pre| + |s|] == s;
    assert OccursAt(pre + s + post, s, |pre|);
  }

  /** The scalar normaliser `s.strip().lower()`: the result has no white
      space at either end and no capital, is no longer than the input, and
      is empty exactly when the input is all white space. */
  function NormalizeScalar(s: string): (r: string)
    ensures Stripped(r) && IsLower(r)
    ensures r == "" <==> AllSpace(s)
    ensures |r| <= |s|
  {
    var t := Strip(s);
    LowerKeepsStripped(t);
    LowerIsLower(t);
    StripEmptyIffAllSpace(s);
    Lower(t)
  }

  /** Normalising twice is normalising once. */
  lemma NormalizeScalarIdempotent(s: string)
    ensures NormalizeScalar(NormalizeScalar(s)) == NormalizeScalar(s)
  {
    var t := Strip(s);
    LowerKeepsStripped(t);
    StripStripped(Lower(t));
    LowerIsLower(t);
    LowerIsLower(Lower(t));
  }
}
