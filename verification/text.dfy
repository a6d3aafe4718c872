/** The string operations the language lookup relies on, with the meaning
    Go's `strings.TrimSpace`, `strings.Replace(s, "_", "-", -1)` and
    `strings.LastIndex(s, "-")` give them. Strings are sequences of code
    points. */
module Text {
  import opened Wrappers

  /** Go's `unicode.IsSpace`: the Latin-1 white space characters and the
      Unicode White_Space code points above Latin-1. */
  predicate IsSpace(c: char)
  {
    var x := c as int;
    x == 0x09 || x == 0x0A || x == 0x0B || x == 0x0C || x == 0x0D || x == 0x20
    || x == 0x85 || x == 0xA0 || x == 0x1680 || (0x2000 <= x <= 0x200A)
    || x == 0x2028 || x == 0x2029 || x == 0x202F || x == 0x205F || x == 0x3000
  }

  /** Drops the leading white space: the result is a suffix of `s` that is
      empty or starts with a non-space, and everything dropped is space. */
  function TrimLeft(s: string): (r: string)
    ensures |r| <= |s| && r == s[|s| - |r|..]
    ensures forall j :: 0 <= j < |s| - |r| ==> IsSpace(s[j])
    ensures |r| == 0 || !IsSpace(r[0])
  {
    if |s| > 0 && IsSpace(s[0]) then
      var r := TrimLeft(s[1..]);
      assert s[1..][|s| - 1 - |r|..] == s[|s| - |r|..];
      r
    else
      s
  }

  /** Drops the trailing white space: the result is a prefix of `s` that is
      empty or ends with a non-space, and everything dropped is space. */
  function TrimRight(s: string): (r: string)
    ensures |r| <= |s| && r == s[..|r|]
    ensures forall j :: |r| <= j < |s| ==> IsSpace(s[j])
    ensures |r| == 0 || !IsSpace(r[|r| - 1])
  {
    if |s| > 0 && IsSpace(s[|s| - 1]) then TrimRight(s[..|s| - 1]) else s
  }

  /** `t` is the slice of `s` starting at `a`, and everything of `s` before
      and after it is white space. */
  predicate TrimmedAt(s: string, a: nat, t: string)
  {
    && a + |t| <= |s| && t == s[a..a + |t|]
    && (forall j :: 0 <= j < a ==> IsSpace(s[j]))
    && (forall j :: a + |t| <= j < |s| ==> IsSpace(s[j]))
  }

  /** Go's `strings.TrimSpace`: the slice of `s` left when the white space at
      both ends is dropped. */
  function TrimSpace(s: string): (r: string)
    ensures exists a: nat :: TrimmedAt(s, a, r)
    ensures |r| == 0 || (!IsSpace(r[0]) && !IsSpace(r[|r| - 1]))
  {
    TrimBothEnds(s);
    TrimRight(TrimLeft(s))
  }

  /** Trimming the front and then the back leaves the slice of `s` starting
      where the front's white space ends. */
  lemma TrimBothEnds(s: string)
    ensures TrimmedAt(s, |s| - |TrimLeft(s)|, TrimRight(TrimLeft(s)))
  {
    TrimmedOfParts(s, TrimLeft(s), TrimRight(TrimLeft(s)));
  }

  /** A white-space-free front cut `l` of `s`, then a white-space-free back
      cut `r` of `l`, together leave a slice of `s` with only white space
      around it. */
  lemma TrimmedOfParts(s: string, l: string, r: string)
    requires |l| <= |s| && l == s[|s| - |l|..]
    requires forall j :: 0 <= j < |s| - |l| ==> IsSpace(s[j])
    requires |r| <= |l| && r == l[..|r|]
    requires forall j :: |r| <= j < |l| ==> IsSpace(l[j])
    ensures TrimmedAt(s, |s| - |l|, r)
  {
    var a := |s| - |l|;
    assert r == s[a..a + |r|];
    forall j | a + |r| <= j < |s|
      ensures IsSpace(s[j])
    {
      assert s[j] == l[j - a];
    }
  }

  /** Trimming is determined by its contract: a slice of `s` with only white
      space around it and none at either of its own ends is `TrimSpace(s)`. */
  lemma TrimSpaceUnique(s: string, a: nat, t: string)
    requires TrimmedAt(s, a, t)
    requires |t| == 0 || (!IsSpace(t[0]) && !IsSpace(t[|t| - 1]))
    ensures t == TrimSpace(s)
  {
    var r := TrimSpace(s);
    var b: nat :| TrimmedAt(s, b, r);
    TrimmedAtUnique(s, a, t, b, r);
  }

  /** Two slices of `s`, each with only white space around it and none at
      its own ends, are the same slice. */
  lemma TrimmedAtUnique(s: string, a: nat, t: string, b: nat, r: string)
    requires TrimmedAt(s, a, t) && (|t| == 0 || (!IsSpace(t[0]) && !IsSpace(t[|t| - 1])))
    requires TrimmedAt(s, b, r) && (|r| == 0 || (!IsSpace(r[0]) && !IsSpace(r[|r| - 1])))
    ensures t == r
  {
    if |t| == 0 {
      if |r| > 0 {
        assert false;
      }
    } else {
      assert s[a] == t[0] && s[a + |t| - 1] == t[|t| - 1];
      if |r| == 0 {
        assert false;
      } else {
        assert s[b] == r[0] && s[b + |r| - 1] == r[|r| - 1];
        assert a == b;
        assert a + |t| == b + |r|;
      }
    }
  }

  /** The character `c` becomes once `_` is replaced by `-`. */
  function Dash(c: char): char
  {
    if c == '_' then '-' else c
  }

  /** Every `_` of `s` replaced by `-`, all other characters kept in place. */
  function ReplaceUnderscores(s: string): (r: string)
    ensures |r| == |s|
    ensures forall j :: 0 <= j < |s| ==> r[j] == Dash(s[j])
  {
    if |s| == 0 then "" else ReplaceUnderscores(s[..|s| - 1]) + [Dash(s[|s| - 1])]
  }

  /** The position of the last occurrence of `c` in `s`, if any. */
  function LastIndex(s: string, c: char): (r: Option<nat>)
    ensures r.Some? ==> r.value < |s| && s[r.value] == c
    ensures r.Some? ==> forall j :: r.value < j < |s| ==> s[j] != c
    ensures r.None? ==> forall j :: 0 <= j < |s| ==> s[j] != c
  {
    if |s| == 0 then None
    else if s[|s| - 1] == c then Some(|s| - 1)
    else LastIndex(s[..|s| - 1], c)
  }

  /** The last occurrence is the one with no occurrence after it. */
  lemma {:induction false} LastIndexAt(s: string, c: char, e: nat)
    requires e < |s| && s[e] == c
    requires forall j :: e < j < |s| ==> s[j] != c
    ensures LastIndex(s, c) == Some(e)
    decreases |s|
  {
    if e < |s| - 1 {
      LastIndexAt(s[..|s| - 1], c, e);
    }
  }

  /** A string with no `_` and no white space at either end: the form every
      identifier takes after normalisation. */
  predicate IsNormalized(s: string)
  {
    && (forall j :: 0 <= j < |s| ==> s[j] != '_')
    && (|s| == 0 || (!IsSpace(s[0]) && !IsSpace(s[|s| - 1])))
  }

  /** Surrounding white space trimmed and `_` replaced by `-`, as the
      language lookup does on entry. */
  function Normalize(s: string): (r: string)
    ensures |r| <= |s|
    ensures IsNormalized(r)
  {
    var t := TrimSpace(s);
    var r := ReplaceUnderscores(t);
    assert |r| == 0 || (r[0] == Dash(t[0]) && r[|r| - 1] == Dash(t[|t| - 1]));
    r
  }

  /** The normal form of `s` is a slice of `s` with each `_` turned into
      `-`, and only white space lies before and after that slice. */
  lemma NormalizeSlice(s: string)
    ensures exists a: nat :: NormalizedAt(s, a, Normalize(s))
  {
    var t := TrimSpace(s);
    var a: nat :| TrimmedAt(s, a, t);
    assert NormalizedAt(s, a, Normalize(s));
  }

  /** `r` is the slice of `s` starting at `a` with each `_` turned into `-`,
      and everything of `s` before and after that slice is white space. */
  predicate NormalizedAt(s: string, a: nat, r: string)
  {
    && a + |r| <= |s|
    && (forall j :: 0 <= j < a ==> IsSpace(s[j]))
    && (forall j :: a + |r| <= j < |s| ==> IsSpace(s[j]))
    && (forall j :: 0 <= j < |r| ==> r[j] == Dash(s[a + j]))
  }

  /** Normalising is idempotent: a normalised string is its own normal form. */
  lemma {:induction false} NormalizeFixesNormalized(s: string)
    requires IsNormalized(s)
    ensures Normalize(s) == s
  {
    assert TrimLeft(s) == s;
    assert TrimRight(s) == s;
    var r := ReplaceUnderscores(s);
    assert forall j :: 0 <= j < |s| ==> r[j] == s[j];
  }

  /** Cutting a normalised string at any position and normalising again only
      trims the white space the cut exposed at the end. */
  lemma {:induction false} NormalizePrefix(n: string, e: nat)
    requires IsNormalized(n)
    requires e <= |n|
    ensures Normalize(n[..e]) == TrimRight(n[..e])
  {
    var p := n[..e];
    assert TrimLeft(p) == p;
    var q := TrimRight(p);
    var r := ReplaceUnderscores(q);
    assert forall j :: 0 <= j < |q| ==> q[j] == n[j];
    assert forall j :: 0 <= j < |q| ==> r[j] == q[j];
  }
}
