/** Worked cases of identifier resolution, over any registry holding (or not
    holding) the identifiers involved. */
module TagExamples {
  import opened Wrappers
  import opened Text
  import opened Languages
  import opened Tags

  /** The identifier "pt-BR-x": normalised, its last `-` at position 5. */
  lemma RegionVariantString()
    ensures IsNormalized("pt-BR-x") && "pt-BR-x"[5] == '-' && "pt-BR-x"[6] != '-' && "pt-BR-x"[..5] == "pt-BR"
    ensures IsNormalized("pt-BR")
  {
  }

  /** "pt_BR" normalises to "pt-BR". */
  lemma UnderscoreString()
    ensures Normalize("pt_BR") == "pt-BR"
  {
    UnderscoreUntrimmed();
    UnderscoreReplaced();
  }

  /** "pt_BR" has no white space to trim. */
  lemma UnderscoreUntrimmed()
    ensures TrimSpace("pt_BR") == "pt_BR"
  {
    assert !IsSpace('p') && !IsSpace('R');
    assert TrimLeft("pt_BR") == "pt_BR";
    assert TrimRight("pt_BR") == "pt_BR";
  }

  /** Replacing the `_` of "pt_BR" gives "pt-BR". */
  lemma UnderscoreReplaced()
    ensures ReplaceUnderscores("pt_BR") == "pt-BR"
  {
    var r := ReplaceUnderscores("pt_BR");
    assert r[0] == 'p' && r[1] == 't' && r[2] == '-' && r[3] == 'B' && r[4] == 'R';
  }

  /** " pt-BR\n" normalises to "pt-BR". */
  lemma PaddedString()
    ensures Normalize(" pt-BR\n") == "pt-BR"
  {
    LeadingSpaceTrimmed();
    TrailingNewlineTrimmed();
    assert IsNormalized("pt-BR");
    NormalizeFixesNormalized("pt-BR");
  }

  /** Trimming the front of " pt-BR\n" drops the one space. */
  lemma LeadingSpaceTrimmed()
    ensures TrimLeft(" pt-BR\n") == "pt-BR\n"
  {
    var s := " pt-BR\n";
    assert s[1..] == "pt-BR\n";
    NoLeadingSpace();
    assert TrimLeft(s) == TrimLeft(s[1..]);
  }

  /** "pt-BR\n" starts with a letter, so its front stays. */
  lemma NoLeadingSpace()
    ensures TrimLeft("pt-BR\n") == "pt-BR\n"
  {
    assert "pt-BR\n"[0] == 'p' && !IsSpace('p');
  }

  /** Trimming the end of "pt-BR\n" drops the newline. */
  lemma TrailingNewlineTrimmed()
    ensures TrimRight("pt-BR\n") == "pt-BR"
  {
    assert "pt-BR\n"[..5] == "pt-BR";
  }

  /** "xx-yy-zz": normalised, its last `-` at position 5. */
  lemma UnknownVariantString()
    ensures IsNormalized("xx-yy-zz") && "xx-yy-zz"[5] == '-' && "xx-yy-zz"[6] != '-' && "xx-yy-zz"[7] != '-'
    ensures "xx-yy-zz"[..5] == "xx-yy"
  {
  }

  /** "xx-yy": normalised, its last `-` at position 2. */
  lemma UnknownRegionString()
    ensures IsNormalized("xx-yy") && "xx-yy"[2] == '-' && "xx-yy"[3] != '-' && "xx-yy"[4] != '-'
    ensures "xx-yy"[..2] == "xx"
  {
  }

  /** "xx": normalised, without a `-`. */
  lemma UnknownLanguageString()
    ensures IsNormalized("xx") && "xx"[0] != '-' && "xx"[1] != '-'
  {
  }

  /** "en-US": normalised, its last `-` at position 2, and "en" before it. */
  lemma EnglishRegionStrings()
    ensures IsNormalized("en-US") && "en-US"[2] == '-' && "en-US"[3] != '-' && "en-US"[4] != '-'
    ensures "en-US"[..2] == "en" && IsNormalized("en")
  {
  }

  /** "pt-BR-x" falls back to "pt-BR". */
  lemma LookupTruncatesToRegion(reg: Registry)
    requires "pt-BR-x" !in reg && "pt-BR" in reg
    ensures Lookup(reg, "pt-BR-x") == Some(reg["pt-BR"])
  {
    RegionVariantString();
    LookupDropsLastSubtag(reg, "pt-BR-x", 5);
    LookupExact(reg, "pt-BR");
  }

  /** An underscore separates subtags like a dash, and surrounding white
      space is ignored. */
  lemma LookupNormalizes(reg: Registry)
    requires "pt-BR" in reg
    ensures Lookup(reg, "pt_BR") == Some(reg["pt-BR"])
    ensures Lookup(reg, " pt-BR\n") == Some(reg["pt-BR"])
  {
    UnderscoreString();
    PaddedString();
  }

  /** With no registered ancestor the lookup answers nothing. */
  lemma LookupNoAncestor(reg: Registry)
    requires "xx-yy-zz" !in reg && "xx-yy" !in reg && "xx" !in reg
    ensures Lookup(reg, "xx-yy-zz").None?
  {
    UnknownVariantString();
    LookupDropsLastSubtag(reg, "xx-yy-zz", 5);
    LookupUnknownLanguage(reg);
  }

  /** "xx-yy" falls back to "xx", which is not registered either. */
  lemma LookupUnknownLanguage(reg: Registry)
    requires "xx-yy" !in reg && "xx" !in reg
    ensures Lookup(reg, "xx-yy").None?
  {
    UnknownRegionString();
    LookupDropsLastSubtag(reg, "xx-yy", 2);
    UnknownLanguageLookup(reg);
  }

  /** "xx" has no `-` to fall back on. */
  lemma UnknownLanguageLookup(reg: Registry)
    requires "xx" !in reg
    ensures Lookup(reg, "xx").None?
  {
    UnknownLanguageString();
    LookupGivesUp(reg, "xx");
  }

  /** A region the registry lacks falls back to its language. */
  lemma LookupEnglishRegion(reg: Registry)
    requires "en-US" !in reg && "en" in reg
    ensures Lookup(reg, "en-US") == Some(reg["en"])
  {
    EnglishRegionStrings();
    LookupDropsLastSubtag(reg, "en-US", 2);
    LookupExact(reg, "en");
  }

  /** The header "en-US,fr;q=0.9": its first candidate is "en-US". */
  lemma HeaderString()
    ensures IsTerminator("en-US,fr;q=0.9"[5])
    ensures forall e :: 0 <= e < 5 ==> !IsDelimiter("en-US,fr;q=0.9"[e])
    ensures Segment("en-US,fr;q=0.9", 5) == "en-US"
  {
    var lang := "en-US,fr;q=0.9";
    assert forall e :: 0 <= e < 5 ==> !IsDelimiter(lang[e]);
    assert SegmentStart(lang, 5) == 0;
    assert lang[0..5] == "en-US";
  }

  /** An Accept-Language header resolves through its first entry, which here
      falls back from the region to the language. */
  lemma ParseAcceptLanguage(reg: Registry)
    requires "en-US" !in reg && "en" in reg
    ensures Parse(reg, "en-US,fr;q=0.9") == Some(reg["en"])
  {
    var lang := "en-US,fr;q=0.9";
    HeaderString();
    LookupEnglishRegion(reg);
    assert Hit(reg, lang, 5);
    ParseFirstCandidate(reg, lang, 5);
  }

  /** The string "x,en": one terminator, at position 1. */
  lemma ListString()
    ensures IsTerminator("x,en"[1]) && Segment("x,en", 1) == "x"
    ensures forall e :: 0 <= e < 4 && e != 1 ==> !IsDelimiter("x,en"[e])
  {
    var lang := "x,en";
    assert SegmentStart(lang, 1) == 0;
    assert lang[0..1] == "x";
  }

  /** An unregistered one-letter identifier resolves to nothing. */
  lemma SingleLetterLookup(reg: Registry)
    requires "x" !in reg
    ensures Lookup(reg, "x").None?
  {
    assert IsNormalized("x") && "x"[0] != '-';
    LookupGivesUp(reg, "x");
  }

  /** A string whose only terminator, at d, names nothing answers nothing. */
  lemma OnlyTerminatorMisses(reg: Registry, lang: string, d: nat)
    requires d < |lang| && IsTerminator(lang[d])
    requires forall e :: 0 <= e < |lang| && e != d ==> !IsDelimiter(lang[e])
    requires Lookup(reg, Segment(lang, d)).None?
    ensures Parse(reg, lang).None?
  {
    assert NoHitBefore(reg, lang, |lang|);
    ParseGivesUp(reg, lang, d);
  }

  /** Once a delimiter has been seen, the text after the last one is never
      tried: "x,en" answers nothing even when "en" is registered. */
  lemma ParseSkipsTrailingSegment(reg: Registry)
    requires "x" !in reg
    ensures Parse(reg, "x,en").None?
  {
    ListString();
    SingleLetterLookup(reg);
    OnlyTerminatorMisses(reg, "x,en", 1);
  }

  /** A path whose last segment names a language but has no extension
      answers nothing, whatever the registry holds. */
  lemma ParseIgnoresPathTail(reg: Registry)
    ensures Parse(reg, "locales/en").None?
  {
    var lang := "locales/en";
    assert forall e :: 0 <= e < |lang| ==> !IsTerminator(lang[e]);
    assert NoHitBefore(reg, lang, |lang|);
    ParseGivesUp(reg, lang, 7);
  }

  /** The file name "locales/pt-BR.json": the directory is discarded and
      the candidate "pt-BR" ends at the `.`. */
  lemma FileNameString()
    ensures IsTerminator("locales/pt-BR.json"[13])
    ensures forall e :: 0 <= e < 13 ==> !IsTerminator("locales/pt-BR.json"[e])
    ensures Segment("locales/pt-BR.json", 13) == "pt-BR"
  {
    var lang := "locales/pt-BR.json";
    FileNameSegmentStart();
    assert lang[8..13] == "pt-BR";
  }

  /** The candidate ending at the `.` of "locales/pt-BR.json" starts just
      past the `/`. */
  lemma FileNameSegmentStart()
    ensures SegmentStart("locales/pt-BR.json", 13) == 8
  {
    var lang := "locales/pt-BR.json";
    assert IsSeparator(lang[7]);
    assert forall e :: 8 <= e < 13 ==> !IsDelimiter(lang[e]);
  }

  /** A translation file name resolves to the language it is named after. */
  lemma ParseFileName(reg: Registry)
    requires "pt-BR" in reg
    ensures Parse(reg, "locales/pt-BR.json") == Some(reg["pt-BR"])
  {
    var lang := "locales/pt-BR.json";
    FileNameString();
    RegionVariantString();
    LookupExact(reg, "pt-BR");
    assert Hit(reg, lang, 13);
    ParseFirstCandidate(reg, lang, 13);
  }
}
