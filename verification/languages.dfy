/** Languages, the built-in language table and the registry operations:
    registration and the plural category of a number in a language. The
    registry is an explicit map value from identifier to language. */
module Languages {
  import opened Wrappers
  import opened Plural
  import opened Rules

  /** A written human language: its RFC 5646 identifier, the plural
      categories it declares, and its plural rule. */
  datatype Language = Language(id: string, categories: set<Category>, rule: Rule)

  type Registry = map<string, Language>

  /** The set holding exactly the listed categories. */
  function NewSet(cats: seq<Category>): (s: set<Category>)
    ensures forall c :: c in s <==> c in cats
    ensures |s| <= |cats|
  {
    if |cats| == 0 then {} else NewSet(cats[..|cats| - 1]) + {cats[|cats| - 1]}
  }

  const ArabicLanguage := Language("ar", NewSet([Zero, One, Two, Few, Many, Other]), Arabic)
  const CatalanLanguage := Language("ca", NewSet([One, Other]), Catalan)
  const ChineseLanguage := Language("zh", NewSet([Other]), Chinese)
  const CzechLanguage := Language("cs", NewSet([One, Few, Many, Other]), Czech)
  const DanishLanguage := Language("da", NewSet([One, Other]), Danish)
  const DutchLanguage := Language("nl", NewSet([One, Other]), Dutch)
  const EnglishLanguage := Language("en", NewSet([One, Other]), English)
  const FrenchLanguage := Language("fr", NewSet([One, Other]), French)
  const GermanLanguage := Language("de", NewSet([One, Other]), German)
  const ItalianLanguage := Language("it", NewSet([One, Other]), Italian)
  const JapaneseLanguage := Language("ja", NewSet([Other]), Japanese)
  const LithuanianLanguage := Language("lt", NewSet([One, Few, Many, Other]), Lithuanian)
  const PortugueseLanguage := Language("pt", NewSet([One, Other]), Portuguese)
  const BrazilianPortugueseLanguage := Language("pt-BR", NewSet([One, Other]), BrazilianPortuguese)
  const SpanishLanguage := Language("es", NewSet([One, Other]), Spanish)

  /** The languages available before any registration. */
  const Builtin: Registry := map[
    "ar" := ArabicLanguage,
    "ca" := CatalanLanguage,
    "zh" := ChineseLanguage,
    "cs" := CzechLanguage,
    "da" := DanishLanguage,
    "nl" := DutchLanguage,
    "en" := EnglishLanguage,
    "fr" := FrenchLanguage,
    "de" := GermanLanguage,
    "it" := ItalianLanguage,
    "ja" := JapaneseLanguage,
    "lt" := LithuanianLanguage,
    "pt" := PortugueseLanguage,
    "pt-BR" := BrazilianPortugueseLanguage,
    "es" := SpanishLanguage
  ]

  /** The language's rule only ever answers categories the language declares. */
  ghost predicate Declares(l: Language)
  {
    forall ops: Operands :: Eval(l.rule, ops) in l.categories
  }

  /** Every entry is filed under its own identifier and declares its rule's
      answers. */
  ghost predicate WellFormed(reg: Registry)
  {
    forall k :: k in reg ==> reg[k].id == k && Declares(reg[k])
  }

  /** The declared set of the one/other languages holds exactly two
      categories. */
  lemma OneOtherSet()
    ensures NewSet([One, Other]) == {One, Other}
  {
    assert [One, Other][..1] == [One];
    assert [One][..0] == [];
  }

  /** The rules that answer only one or other. */
  predicate IsOneOtherRule(rule: Rule)
  {
    InIntegerOneFamily(rule) || rule.Danish? || rule.French? || rule.BrazilianPortuguese? || rule.Spanish?
  }

  /** A language with a one/other rule that declares one and other declares
      every answer of its rule. */
  lemma DeclaresOneOther(l: Language)
    requires l.categories == NewSet([One, Other])
    requires IsOneOtherRule(l.rule)
    ensures Declares(l)
  {
    OneOtherSet();
    forall ops: Operands ensures Eval(l.rule, ops) in {One, Other} {
      if InIntegerOneFamily(l.rule) {
        IntegerOneFamily(l.rule, ops);
      }
    }
  }

  /** The one/other languages declare both categories their rule can return. */
  lemma OneOtherLanguagesDeclare()
    ensures Declares(CatalanLanguage) && Declares(DanishLanguage) && Declares(DutchLanguage)
    ensures Declares(EnglishLanguage) && Declares(FrenchLanguage) && Declares(GermanLanguage)
    ensures Declares(ItalianLanguage) && Declares(PortugueseLanguage)
    ensures Declares(BrazilianPortugueseLanguage) && Declares(SpanishLanguage)
  {
    DeclaresOneOther(CatalanLanguage);
    DeclaresOneOther(DanishLanguage);
    DeclaresOneOther(DutchLanguage);
    DeclaresOneOther(EnglishLanguage);
    DeclaresOneOther(FrenchLanguage);
    DeclaresOneOther(GermanLanguage);
    DeclaresOneOther(ItalianLanguage);
    DeclaresOneOther(PortugueseLanguage);
    DeclaresOneOther(BrazilianPortugueseLanguage);
    DeclaresOneOther(SpanishLanguage);
  }

  /** Chinese and Japanese declare the single category their rule returns. */
  lemma NoPluralLanguagesDeclare()
    ensures Declares(ChineseLanguage) && Declares(JapaneseLanguage)
  {
    assert Other in NewSet([Other]) by {
      assert Other in [Other];
    }
  }

  /** Arabic declares all six categories. */
  lemma ArabicDeclares()
    ensures Declares(ArabicLanguage)
  {
    forall c | c in [Zero, One, Two, Few, Many, Other] ensures c in ArabicLanguage.categories {
    }
  }

  /** The declared set of Czech and Lithuanian holds exactly four categories. */
  lemma FourCategorySet()
    ensures NewSet([One, Few, Many, Other]) == {One, Few, Many, Other}
  {
    assert [One, Few, Many, Other][..3] == [One, Few, Many];
    assert [One, Few, Many][..2] == [One, Few];
    assert [One, Few][..1] == [One];
    assert [One][..0] == [];
  }

  /** Czech declares one, few, many and other. */
  lemma CzechDeclares()
    ensures Declares(CzechLanguage)
  {
    FourCategorySet();
    forall ops: Operands ensures Eval(CzechLanguage.rule, ops) in CzechLanguage.categories {
      CzechAnswers(ops);
    }
  }

  /** The Czech rule answers one of its four categories for every operand
      record. */
  lemma CzechAnswers(ops: Operands)
    ensures Eval(Czech, ops) in {One, Few, Many, Other}
  {
    var c := CzechRule(ops);
    assert c == One || c == Few || c == Many || c == Other;
  }

  /** Lithuanian declares one, few, many and other. */
  lemma LithuanianDeclares()
    ensures Declares(LithuanianLanguage)
  {
    FourCategorySet();
    forall ops: Operands ensures Eval(LithuanianLanguage.rule, ops) in LithuanianLanguage.categories {
      LithuanianAnswers(ops);
    }
  }

  /** The Lithuanian rule answers one of its four categories for every
      operand record. */
  lemma LithuanianAnswers(ops: Operands)
    ensures Eval(Lithuanian, ops) in {One, Few, Many, Other}
  {
    var c := LithuanianRule(ops);
    assert c == One || c == Few || c == Many || c == Other;
  }

  /** Adds `l` to the registry under its identifier, replacing any language
      already filed there; no other entry changes. */
  function Register(reg: Registry, l: Language): (r: Registry)
    ensures r.Keys == reg.Keys + {l.id}
    ensures r[l.id] == l
    ensures forall k :: k in reg && k != l.id ==> r[k] == reg[k]
  {
    reg[l.id := l]
  }

  /** Registration keeps the registry well formed when the new language
      declares its own rule's answers. */
  lemma RegisterPreservesWellFormed(reg: Registry, l: Language)
    requires WellFormed(reg)
    requires Declares(l)
    ensures WellFormed(Register(reg, l))
  {
  }

  /** Last write wins: a second registration under the same identifier
      leaves no trace of the first. */
  lemma RegisterLastWriteWins(reg: Registry, first: Language, second: Language)
    requires first.id == second.id
    ensures Register(Register(reg, first), second) == Register(reg, second)
  {
  }

  /** Every built-in language is filed under its identifier and declares
      every category its rule can return. The table is rebuilt entry by entry
      in its own order, each step a registration that keeps the invariant. */
  lemma BuiltinWellFormed()
    ensures WellFormed(Builtin)
  {
    ArabicDeclares();
    CzechDeclares();
    LithuanianDeclares();
    NoPluralLanguagesDeclare();
    OneOtherLanguagesDeclare();
    var m: Registry := map[];
    RegisterPreservesWellFormed(m, ArabicLanguage);
    m := Register(m, ArabicLanguage);
    RegisterPreservesWellFormed(m, CatalanLanguage);
    m := Register(m, CatalanLanguage);
    RegisterPreservesWellFormed(m, ChineseLanguage);
    m := Register(m, ChineseLanguage);
    RegisterPreservesWellFormed(m, CzechLanguage);
    m := Register(m, CzechLanguage);
    RegisterPreservesWellFormed(m, DanishLanguage);
    m := Register(m, DanishLanguage);
    RegisterPreservesWellFormed(m, DutchLanguage);
    m := Register(m, DutchLanguage);
    RegisterPreservesWellFormed(m, EnglishLanguage);
    m := Register(m, EnglishLanguage);
    RegisterPreservesWellFormed(m, FrenchLanguage);
    m := Register(m, FrenchLanguage);
    RegisterPreservesWellFormed(m, GermanLanguage);
    m := Register(m, GermanLanguage);
    RegisterPreservesWellFormed(m, ItalianLanguage);
    m := Register(m, ItalianLanguage);
    RegisterPreservesWellFormed(m, JapaneseLanguage);
    m := Register(m, JapaneseLanguage);
    RegisterPreservesWellFormed(m, LithuanianLanguage);
    m := Register(m, LithuanianLanguage);
    RegisterPreservesWellFormed(m, PortugueseLanguage);
    m := Register(m, PortugueseLanguage);
    RegisterPreservesWellFormed(m, BrazilianPortugueseLanguage);
    m := Register(m, BrazilianPortugueseLanguage);
    RegisterPreservesWellFormed(m, SpanishLanguage);
    m := Register(m, SpanishLanguage);
    assert m == Builtin;
  }

  /** The plural category of `number` in language `l`. Operand extraction is
      the `newOperands` parameter: when it fails, the answer is `Invalid`
      together with its error; otherwise it is the language's rule applied to
      the operands, with no error. */
  function PluralCategory<N>(l: Language, newOperands: N -> Result<Operands, OperandsError>, number: N)
    : (r: (Category, Option<OperandsError>))
    ensures newOperands(number).Failure? ==> r == (Invalid, Some(newOperands(number).error))
    ensures newOperands(number).Success? ==> r.1.None? && r.0 == Eval(l.rule, newOperands(number).value)
    ensures Declares(l) && newOperands(number).Success? ==> r.0 in l.categories
    ensures !l.rule.Custom? ==> (r.0 == Invalid <==> r.1.Some?)
  {
    match newOperands(number)
    case Failure(err) => (Invalid, Some(err))
    case Success(ops) => (Eval(l.rule, ops), None)
  }
}
