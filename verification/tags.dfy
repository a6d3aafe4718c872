/** Resolving a language identifier, an Accept-Language header or a file
    name to a registered language. */
module Tags {
  import opened Wrappers
  import opened Text
  import opened Languages

  /** The language registered for `languageId`: the identifier is trimmed
      and its `_` become `-`; an exact match wins; otherwise the part after
      the last `-` is dropped and the rest resolved again; with no `-` left
      there is no language. */
  function Lookup(reg: Registry, languageId: string): (r: Option<Language>)
    ensures Normalize(languageId) in reg ==> r == Some(reg[Normalize(languageId)])
    ensures r.Some? ==> exists k :: k in reg && r == Some(reg[k])
    decreases |languageId|
  {
    var id := Normalize(languageId);
    if id in reg then Some(reg[id])
    else
      match LastIndex(id, '-')
      case Some(end) => Lookup(reg, id[..end])
      case None => None
  }

  // ---------------------------------------------------------------------
  // Lookup, described without recursion: the candidate keys of a normalised
  // identifier n are n itself and, for every `-` in n, the part before that
  // `-` with trailing white space trimmed; the longest candidate that is
  // registered is the answer.

  /** Position k is a place where n may be cut: its end, or a `-`. */
  predicate IsCut(n: string, k: nat)
  {
    k == |n| || (k < |n| && n[k] == '-')
  }

  /** The key tried when n is cut at k. */
  function CandidateKey(n: string, k: nat): string
    requires k <= |n|
  {
    TrimRight(n[..k])
  }

  /** Some candidate key of n is registered. */
  ghost predicate HasRegisteredCandidate(reg: Registry, n: string)
  {
    exists k: nat :: k <= |n| && IsCut(n, k) && CandidateKey(n, k) in reg
  }

  /** k is the longest cut of n whose candidate key is registered. */
  ghost predicate ResolvesAt(reg: Registry, n: string, k: nat)
  {
    && k <= |n| && IsCut(n, k) && CandidateKey(n, k) in reg
    && forall j: nat :: k < j <= |n| && IsCut(n, j) ==> CandidateKey(n, j) !in reg
  }

  /** A normalised identifier that is registered resolves to its own entry. */
  lemma LookupExact(reg: Registry, id: string)
    requires IsNormalized(id) && id in reg
    ensures Lookup(reg, id) == Some(reg[id])
  {
    NormalizeFixesNormalized(id);
  }

  /** A normalised identifier that is not registered resolves as the part
      before its last `-` does. */
  lemma LookupDropsLastSubtag(reg: Registry, id: string, e: nat)
    requires IsNormalized(id) && id !in reg
    requires e < |id| && id[e] == '-'
    requires forall j :: e < j < |id| ==> id[j] != '-'
    ensures Lookup(reg, id) == Lookup(reg, id[..e])
  {
    NormalizeFixesNormalized(id);
    LastIndexAt(id, '-', e);
  }

  /** A normalised identifier with no `-` that is not registered resolves to
      nothing. */
  lemma LookupGivesUp(reg: Registry, id: string)
    requires IsNormalized(id) && id !in reg
    requires forall j :: 0 <= j < |id| ==> id[j] != '-'
    ensures Lookup(reg, id).None?
  {
    NormalizeFixesNormalized(id);
  }

  /** Lookup finds a language exactly when some candidate key is registered,
      and then it is the language of the longest such candidate. */
  lemma {:induction false} LookupFallback(reg: Registry, languageId: string)
    ensures Lookup(reg, languageId).Some? <==> HasRegisteredCandidate(reg, Normalize(languageId))
    ensures Lookup(reg, languageId).Some? ==>
      exists k: nat :: ResolvesAt(reg, Normalize(languageId), k)
        && Lookup(reg, languageId) == Some(reg[CandidateKey(Normalize(languageId), k)])
    decreases |languageId|
  {
    var n := Normalize(languageId);
    NormalizeFixesNormalized(n);
    var r := Lookup(reg, languageId);
    if n in reg {
      WholeCandidate(reg, n, r);
    } else {
      match LastIndex(n, '-')
      case None =>
        assert r.None?;
        NoCandidateWithoutDash(reg, n);
      case Some(e) =>
        assert r == Lookup(reg, n[..e]);
        NormalizePrefix(n, e);
        LookupFallback(reg, n[..e]);
        FallbackStep(reg, n, e, r);
    }
  }

  /** A registered normalised identifier is its own longest candidate. */
  lemma WholeCandidate(reg: Registry, n: string, r: Option<Language>)
    requires IsNormalized(n) && n in reg
    requires r == Some(reg[n])
    ensures HasRegisteredCandidate(reg, n)
    ensures ResolvesAt(reg, n, |n|) && r == Some(reg[CandidateKey(n, |n|)])
  {
    assert n[..|n|] == n;
    assert CandidateKey(n, |n|) == n;
  }

  /** Without a `-`, an unregistered normalised identifier has no registered
      candidate. */
  lemma NoCandidateWithoutDash(reg: Registry, n: string)
    requires IsNormalized(n) && n !in reg
    requires forall j :: 0 <= j < |n| ==> n[j] != '-'
    ensures !HasRegisteredCandidate(reg, n)
  {
    assert n[..|n|] == n;
    assert CandidateKey(n, |n|) == n;
  }

  /** The inductive step of the fallback: what the lookup of the part before
      the last `-` answers, in terms of that part's candidates, is the answer
      for n in terms of n's candidates, once n itself is not registered. */
  lemma FallbackStep(reg: Registry, n: string, e: nat, r: Option<Language>)
    requires IsNormalized(n) && n !in reg
    requires e < |n| && n[e] == '-'
    requires forall j :: e < j < |n| ==> n[j] != '-'
    requires r.Some? <==> HasRegisteredCandidate(reg, TrimRight(n[..e]))
    requires r.Some? ==>
      exists k: nat :: ResolvesAt(reg, TrimRight(n[..e]), k) && r == Some(reg[CandidateKey(TrimRight(n[..e]), k)])
    ensures r.Some? <==> HasRegisteredCandidate(reg, n)
    ensures r.Some? ==> exists k: nat :: ResolvesAt(reg, n, k) && r == Some(reg[CandidateKey(n, k)])
  {
    var m := TrimRight(n[..e]);
    CandidatesOfPrefix(reg, n, e, m);
    if r.Some? {
      var km: nat :| ResolvesAt(reg, m, km) && r == Some(reg[CandidateKey(m, km)]);
      FallbackFound(reg, n, e, m, km);
    } else {
      FallbackMissed(reg, n, e, m);
    }
  }

  /** The longest registered candidate of the prefix is the longest of n. */
  lemma FallbackFound(reg: Registry, n: string, e: nat, m: string, km: nat)
    requires IsNormalized(n) && n !in reg
    requires e < |n| && n[e] == '-'
    requires m == TrimRight(n[..e])
    requires CandidateKey(m, |m|) == CandidateKey(n, e)
    requires forall k: nat :: k < |m| ==> (IsCut(m, k) <==> IsCut(n, k))
    requires forall k: nat :: k < |m| ==> CandidateKey(m, k) == CandidateKey(n, k)
    requires forall k: nat :: |m| <= k < e || e < k < |n| ==> !IsCut(n, k)
    requires ResolvesAt(reg, m, km)
    ensures ResolvesAt(reg, n, if km == |m| then e else km)
    ensures CandidateKey(n, if km == |m| then e else km) == CandidateKey(m, km)
  {
    assert CandidateKey(n, |n|) == n by {
      assert n[..|n|] == n;
    }
  }

  /** No registered candidate of the prefix means none of n. */
  lemma FallbackMissed(reg: Registry, n: string, e: nat, m: string)
    requires IsNormalized(n) && n !in reg
    requires e < |n| && n[e] == '-'
    requires m == TrimRight(n[..e])
    requires CandidateKey(m, |m|) == CandidateKey(n, e)
    requires forall k: nat :: k < |m| ==> (IsCut(m, k) <==> IsCut(n, k))
    requires forall k: nat :: k < |m| ==> CandidateKey(m, k) == CandidateKey(n, k)
    requires forall k: nat :: |m| <= k < e || e < k < |n| ==> !IsCut(n, k)
    requires !HasRegisteredCandidate(reg, m)
    ensures !HasRegisteredCandidate(reg, n)
  {
    assert CandidateKey(n, |n|) == n by {
      assert n[..|n|] == n;
    }
    forall k: nat | k <= |n| && IsCut(n, k) ensures CandidateKey(n, k) !in reg {
      if k < |m| {
        assert IsCut(m, k);
      } else if k == e {
        assert IsCut(m, |m|);
      }
    }
  }

  /** One step of the fallback: when n is cut at its last `-` (position e)
      and the rest normalised to m, the cuts of m below its end are the cuts
      of n below |m| with the same keys, the end of m stands for the cut at
      e, and no cut of n lies strictly between |m| and e or above e but
      below |n|. */
  lemma CandidatesOfPrefix(reg: Registry, n: string, e: nat, m: string)
    requires IsNormalized(n)
    requires e < |n| && n[e] == '-'
    requires forall j :: e < j < |n| ==> n[j] != '-'
    requires m == TrimRight(n[..e])
    ensures CandidateKey(m, |m|) == CandidateKey(n, e)
    ensures forall k: nat :: k < |m| ==> (IsCut(m, k) <==> IsCut(n, k))
    ensures forall k: nat :: k < |m| ==> CandidateKey(m, k) == CandidateKey(n, k)
    ensures forall k: nat :: |m| <= k < e || e < k < |n| ==> !IsCut(n, k)
  {
    assert m[..|m|] == m;
    TrimRightIdempotent(m);
    forall k: nat | k < |m| ensures CandidateKey(m, k) == CandidateKey(n, k) {
      assert m[..k] == n[..k];
    }
    forall k: nat | |m| <= k < e ensures !IsCut(n, k) {
      assert IsSpace(n[..e][k]);
    }
  }

  /** Trimming a string that already ends in a non-space changes nothing. */
  lemma TrimRightIdempotent(s: string)
    requires |s| == 0 || !IsSpace(s[|s| - 1])
    ensures TrimRight(s) == s
  {
  }

  /** Resolving an identifier and resolving its normal form agree. */
  lemma LookupIgnoresSpelling(reg: Registry, languageId: string)
    ensures Lookup(reg, languageId) == Lookup(reg, Normalize(languageId))
  {
    NormalizeFixesNormalized(Normalize(languageId));
  }

  /** After a language is registered under a normalised identifier, looking
      that identifier up finds exactly the new language. */
  lemma LookupAfterRegister(reg: Registry, l: Language)
    requires IsNormalized(l.id)
    ensures Lookup(Register(reg, l), l.id) == Some(l)
  {
    LookupExact(Register(reg, l), l.id);
  }

  /** In a well-formed registry, whatever a lookup finds declares every
      category its rule can return. */
  lemma LookupFindsDeclaringLanguage(reg: Registry, languageId: string)
    requires WellFormed(reg)
    requires Lookup(reg, languageId).Some?
    ensures Declares(Lookup(reg, languageId).value)
  {
    var k :| k in reg && Lookup(reg, languageId) == Some(reg[k]);
  }

  // ---------------------------------------------------------------------
  // Parse: scanning a header or a path for a candidate identifier.

  /** `,` `;` and `.` end a candidate identifier. */
  predicate IsTerminator(c: char)
  {
    c == ',' || c == ';' || c == '.'
  }

  /** `/` and `\` end a path segment, which is discarded unexamined. */
  predicate IsSeparator(c: char)
  {
    c == '/' || c == '\\'
  }

  /** Either kind of delimiter: each starts a new candidate. */
  predicate IsDelimiter(c: char)
  {
    IsTerminator(c) || IsSeparator(c)
  }

  /** Where the segment ending at `end` starts: just past the last delimiter
      before `end`, or at 0 when there is none. */
  ghost function SegmentStart(lang: string, end: nat): (start: nat)
    requires end <= |lang|
    ensures start <= end
    ensures forall j :: start <= j < end ==> !IsDelimiter(lang[j])
    ensures start > 0 ==> IsDelimiter(lang[start - 1])
  {
    if end == 0 then 0
    else if IsDelimiter(lang[end - 1]) then end
    else SegmentStart(lang, end - 1)
  }

  /** The candidate ending at `end`. */
  ghost function Segment(lang: string, end: nat): string
    requires end <= |lang|
  {
    lang[SegmentStart(lang, end)..end]
  }

  /** Position e holds a terminator whose candidate resolves. */
  ghost predicate Hit(reg: Registry, lang: string, e: nat)
  {
    e < |lang| && IsTerminator(lang[e]) && Lookup(reg, Segment(lang, e)).Some?
  }

  /** No terminator before `end` has a candidate that resolves. */
  ghost predicate NoHitBefore(reg: Registry, lang: string, end: nat)
  {
    forall e: nat :: e < end ==> !Hit(reg, lang, e)
  }

  /** `lang` holds a delimiter somewhere. */
  ghost predicate HasDelimiter(lang: string)
  {
    exists j :: 0 <= j < |lang| && IsDelimiter(lang[j])
  }

  /** What parsing `lang` answers, stated without the scan: the language of
      the first candidate that resolves; failing that, nothing when `lang`
      holds any delimiter at all (the text after the last delimiter is never
      tried); and only for a string without delimiters, the lookup of the
      whole string. */
  ghost predicate ParseResult(reg: Registry, lang: string, r: Option<Language>)
  {
    if exists e: nat :: Hit(reg, lang, e) then
      exists e: nat :: Hit(reg, lang, e) && NoHitBefore(reg, lang, e) && r == Lookup(reg, Segment(lang, e))
    else if HasDelimiter(lang) then
      r.None?
    else
      r == Lookup(reg, lang)
  }

  /** The scan from position `end`, where the current candidate began at
      `start`: the loop of the parser, one character per step. Once a
      delimiter has been passed, a scan with no terminator ahead of it
      answers nothing: the text after the last delimiter is never tried. */
  function Scan(reg: Registry, lang: string, start: nat, end: nat): (r: Option<Language>)
    requires start <= end <= |lang|
    ensures start > 0 && (forall j :: end <= j < |lang| ==> !IsTerminator(lang[j])) ==> r.None?
    decreases |lang| - end
  {
    if end == |lang| then
      if start > 0 then None else Lookup(reg, lang)
    else if IsTerminator(lang[end]) then
      var found := Lookup(reg, lang[start..end]);
      if found.Some? then found else Scan(reg, lang, end + 1, end + 1)
    else if IsSeparator(lang[end]) then
      Scan(reg, lang, end + 1, end + 1)
    else
      Scan(reg, lang, start, end + 1)
  }

  /** The scan keeps its invariant: when the candidate starts just past the
      last delimiter and no earlier candidate resolved, what the rest of the
      scan answers is the answer parsing is described to give. */
  lemma {:induction false} ScanMeetsParseResult(reg: Registry, lang: string, start: nat, end: nat)
    requires start <= end <= |lang|
    requires start == SegmentStart(lang, end) && NoHitBefore(reg, lang, end)
    ensures ParseResult(reg, lang, Scan(reg, lang, start, end))
    decreases |lang| - end
  {
    if end == |lang| {
      ScanAtEnd(reg, lang, start);
    } else if IsTerminator(lang[end]) && Lookup(reg, lang[start..end]).Some? {
      assert Segment(lang, end) == lang[start..end];
      FirstHitDecides(reg, lang, end);
    } else {
      var next := if IsDelimiter(lang[end]) then end + 1 else start;
      ScanStep(reg, lang, start, end);
      ScanMeetsParseResult(reg, lang, next, end + 1);
    }
  }

  /** A character that does not end a resolving candidate moves the scan on
      by one and keeps its invariant. */
  lemma ScanStep(reg: Registry, lang: string, start: nat, end: nat)
    requires start <= end < |lang|
    requires start == SegmentStart(lang, end) && NoHitBefore(reg, lang, end)
    requires !(IsTerminator(lang[end]) && Lookup(reg, lang[start..end]).Some?)
    ensures var next := if IsDelimiter(lang[end]) then end + 1 else start;
      && Scan(reg, lang, start, end) == Scan(reg, lang, next, end + 1)
      && next == SegmentStart(lang, end + 1)
      && NoHitBefore(reg, lang, end + 1)
  {
    assert Segment(lang, end) == lang[start..end];
    assert !Hit(reg, lang, end);
  }

  /** At the end of the string with no candidate resolved, the answer is
      nothing after a delimiter and the lookup of the whole string otherwise. */
  lemma ScanAtEnd(reg: Registry, lang: string, start: nat)
    requires start <= |lang|
    requires start == SegmentStart(lang, |lang|) && NoHitBefore(reg, lang, |lang|)
    ensures ParseResult(reg, lang, if start > 0 then None else Lookup(reg, lang))
  {
    assert !exists e: nat :: Hit(reg, lang, e);
    if start > 0 {
      assert IsDelimiter(lang[start - 1]);
    }
  }

  /** The first terminator whose candidate resolves decides the answer. */
  lemma FirstHitDecides(reg: Registry, lang: string, e: nat)
    requires Hit(reg, lang, e) && NoHitBefore(reg, lang, e)
    ensures ParseResult(reg, lang, Lookup(reg, Segment(lang, e)))
  {
  }

  /** The first supported language named in an identifier, an
      Accept-Language header or a file name, if any. */
  function Parse(reg: Registry, lang: string): (r: Option<Language>)
    ensures ParseResult(reg, lang, r)
  {
    ScanMeetsParseResult(reg, lang, 0, 0);
    Scan(reg, lang, 0, 0)
  }

  /** At most one answer satisfies the description of parsing, so it
      determines `Parse` completely. */
  lemma ParseResultUnique(reg: Registry, lang: string, r1: Option<Language>, r2: Option<Language>)
    requires ParseResult(reg, lang, r1) && ParseResult(reg, lang, r2)
    ensures r1 == r2
  {
    if exists e: nat :: Hit(reg, lang, e) {
      var e1: nat :| Hit(reg, lang, e1) && NoHitBefore(reg, lang, e1) && r1 == Lookup(reg, Segment(lang, e1));
      var e2: nat :| Hit(reg, lang, e2) && NoHitBefore(reg, lang, e2) && r2 == Lookup(reg, Segment(lang, e2));
      assert e1 == e2;
    }
  }

  /** When the terminator at e ends the first candidate that resolves,
      parsing answers that candidate's language. */
  lemma ParseFirstCandidate(reg: Registry, lang: string, e: nat)
    requires Hit(reg, lang, e) && NoHitBefore(reg, lang, e)
    ensures Parse(reg, lang) == Lookup(reg, Segment(lang, e))
  {
    FirstHitDecides(reg, lang, e);
    ParseResultUnique(reg, lang, Parse(reg, lang), Lookup(reg, Segment(lang, e)));
  }

  /** When no candidate resolves and the string holds a delimiter, parsing
      answers nothing, whatever the text after the last delimiter names. */
  lemma ParseGivesUp(reg: Registry, lang: string, d: nat)
    requires d < |lang| && IsDelimiter(lang[d])
    requires NoHitBefore(reg, lang, |lang|)
    ensures Parse(reg, lang).None?
  {
    assert !exists e: nat :: Hit(reg, lang, e);
  }

  datatype ParseError = UnableToParse(lang: string)

  /** Parse, failing instead of answering nothing. */
  function MustParse(reg: Registry, lang: string): (r: Result<Language, ParseError>)
    ensures r.Success? ==> ParseResult(reg, lang, Some(r.value))
    ensures r.Failure? ==> ParseResult(reg, lang, None) && r.error == UnableToParse(lang)
  {
    match Parse(reg, lang)
    case Some(l) => Success(l)
    case None => Failure(UnableToParse(lang))
  }
}
