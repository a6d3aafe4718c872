/** The per-language plural rules of the built-in table. Each rule is a
    branch-ordered decision procedure over the operands; its contract states
    the same rule the way the Unicode CLDR Language Plural Rules chart states
    it, one independent condition per category, so that every ensures below is
    a check that the branch order picks the category CLDR names. Where CLDR
    speaks of the real operand n, an integer value of n is written with the
    integer operands (n = 1 is i = 1 with no non-zero fraction digits). */
module Rules {
  import opened Plural

  /** Which rule a language uses: one constructor per built-in language,
      plus `Custom` for a language registered at run time with a rule
      function of its own. */
  datatype Rule =
    | Arabic
    | Catalan
    | Chinese
    | Czech
    | Danish
    | Dutch
    | English
    | French
    | German
    | Italian
    | Japanese
    | Lithuanian
    | Portuguese
    | BrazilianPortuguese
    | Spanish
    | Custom(f: Operands -> Category)

  /** Arabic: zero, one and two for the integers 0, 1, 2; few when n % 100 is
      3..10; many when n % 100 is 11..99; other otherwise, and for every
      number with non-zero fraction digits. */
  function ArabicRule(ops: Operands): (c: Category)
    ensures c == Zero <==> ops.w == 0 && ops.i == 0
    ensures c == One <==> ops.w == 0 && ops.i == 1
    ensures c == Two <==> ops.w == 0 && ops.i == 2
    ensures c == Few <==> ops.w == 0 && 3 <= ops.i % 100 <= 10
    ensures c == Many <==> ops.w == 0 && 11 <= ops.i % 100
    ensures c == Other <==> ops.w != 0 || (ops.i >= 3 && ops.i % 100 <= 2)
  {
    if ops.w == 0 then
      match ops.i
      case 0 => Zero
      case 1 => One
      case 2 => Two
      case _ =>
        var mod100 := ops.i % 100;
        if mod100 >= 3 && mod100 <= 10 then Few
        else if mod100 >= 11 then Many
        else Other
    else
      Other
  }

  /** The rule shared by Catalan, Dutch, English, German, Italian and
      European Portuguese: one for the integer 1 written without fraction
      digits, other otherwise. */
  function IntegerOneRule(ops: Operands): (c: Category)
    ensures c == One <==> ops.i == 1 && ops.v == 0
    ensures c == One || c == Other
  {
    if ops.i == 1 && ops.v == 0 then One else Other
  }

  /** Chinese and Japanese make no plural distinction. */
  function NoPluralRule(ops: Operands): (c: Category)
    ensures c == Other
  {
    Other
  }

  /** Czech: one for 1, few for 2..4 (both without fraction digits), many for
      any number with visible fraction digits, other for the other integers. */
  function CzechRule(ops: Operands): (c: Category)
    ensures c == One <==> ops.i == 1 && ops.v == 0
    ensures c == Few <==> 2 <= ops.i <= 4 && ops.v == 0
    ensures c == Many <==> ops.v != 0
    ensures c == Other <==> ops.v == 0 && !(1 <= ops.i <= 4)
  {
    if ops.i == 1 && ops.v == 0 then One
    else if ops.i >= 2 && ops.i <= 4 && ops.v == 0 then Few
    else if ops.v > 0 then Many
    else Other
  }

  /** Danish, in CLDR's words "n = 1 or t != 0 and i = 0,1". */
  function DanishRule(ops: Operands): (c: Category)
    ensures c == One <==> (ops.i == 1 && ops.t == 0) || (ops.t != 0 && (ops.i == 0 || ops.i == 1))
    ensures c == One || c == Other
  {
    if ops.i == 1 || (ops.i == 0 && ops.t != 0) then One else Other
  }

  /** French: one when the integer digits are 0 or 1, whatever the fraction. */
  function FrenchRule(ops: Operands): (c: Category)
    ensures c == One <==> ops.i <= 1
    ensures c == One || c == Other
  {
    if ops.i == 0 || ops.i == 1 then One else Other
  }

  /** Lithuanian: many for every number with a non-zero fraction digit; for
      the others one when the last digit is 1 and few when it is 2..9, both
      only outside the teens 11..19; other for a last digit 0 and the teens. */
  function LithuanianRule(ops: Operands): (c: Category)
    ensures c == Many <==> ops.f != 0
    ensures c == One <==> ops.f == 0 && ops.i % 10 == 1 && !(11 <= ops.i % 100 <= 19)
    ensures c == Few <==> ops.f == 0 && 2 <= ops.i % 10 <= 9 && !(11 <= ops.i % 100 <= 19)
    ensures c == Other <==> ops.f == 0 && (ops.i % 10 == 0 || 11 <= ops.i % 100 <= 19)
  {
    if ops.f != 0 then Many
    else
      var mod100 := ops.i % 100;
      if mod100 < 11 || mod100 > 19 then
        match ops.i % 10
        case 0 => Other
        case 1 => One
        case _ => Few
      else
        Other
  }

  /** Brazilian Portuguese: one for the integer 1 without fraction digits and
      for 0.1, 0.10, ... (i = 0 and t = 1). */
  function BrazilianPortugueseRule(ops: Operands): (c: Category)
    ensures c == One <==> (ops.i == 1 && ops.v == 0) || (ops.i == 0 && ops.t == 1)
    ensures c == One || c == Other
  {
    if (ops.i == 1 && ops.v == 0) || (ops.i == 0 && ops.t == 1) then One else Other
  }

  /** Spanish: one exactly for the value 1, with or without trailing zeros
      (1, 1.0, 1.00). */
  function SpanishRule(ops: Operands): (c: Category)
    ensures c == One <==> ops.i == 1 && ops.w == 0
    ensures c == One || c == Other
  {
    if ops.i == 1 && ops.w == 0 then One else Other
  }

  /** Applies a rule to operands: the one `match` through which every
      language's plural function is dispatched. A built-in rule never
      answers `Invalid`. */
  function Eval(rule: Rule, ops: Operands): (c: Category)
    ensures !rule.Custom? ==> c != Invalid
  {
    match rule
    case Arabic => ArabicRule(ops)
    case Catalan => IntegerOneRule(ops)
    case Chinese => NoPluralRule(ops)
    case Czech => CzechRule(ops)
    case Danish => DanishRule(ops)
    case Dutch => IntegerOneRule(ops)
    case English => IntegerOneRule(ops)
    case French => FrenchRule(ops)
    case German => IntegerOneRule(ops)
    case Italian => IntegerOneRule(ops)
    case Japanese => NoPluralRule(ops)
    case Lithuanian => LithuanianRule(ops)
    case Portuguese => IntegerOneRule(ops)
    case BrazilianPortuguese => BrazilianPortugueseRule(ops)
    case Spanish => SpanishRule(ops)
    case Custom(f) => f(ops)
  }

  /** The languages whose table entries carry the "one for a bare 1" rule. */
  predicate InIntegerOneFamily(rule: Rule)
  {
    rule.Catalan? || rule.Dutch? || rule.English? || rule.German? || rule.Italian? || rule.Portuguese?
  }

  /** Catalan, Dutch, English, German, Italian and European Portuguese answer
      one exactly for i = 1 with v = 0, and other for everything else. */
  lemma IntegerOneFamily(rule: Rule, ops: Operands)
    requires InIntegerOneFamily(rule)
    ensures Eval(rule, ops) == One <==> ops.i == 1 && ops.v == 0
    ensures Eval(rule, ops) in {One, Other}
  {
  }

  /** Chinese and Japanese answer other for every operand record. */
  lemma NoPluralFamily(rule: Rule, ops: Operands)
    requires rule.Chinese? || rule.Japanese?
    ensures Eval(rule, ops) == Other
  {
  }

  /** The Arabic boundary cases at the edges of the few and many ranges. */
  lemma ArabicExamples()
    ensures ArabicRule(Operands(0, 0, 0, 0, 0)) == Zero
    ensures ArabicRule(Operands(1, 0, 0, 0, 0)) == One
    ensures ArabicRule(Operands(2, 0, 0, 0, 0)) == Two
    ensures ArabicRule(Operands(103, 0, 0, 0, 0)) == Few
    ensures ArabicRule(Operands(111, 0, 0, 0, 0)) == Many
    ensures ArabicRule(Operands(102, 0, 0, 0, 0)) == Other
    ensures ArabicRule(Operands(3, 1, 1, 5, 5)) == Other
  {
  }

  /** Lithuanian: a non-zero fraction digit decides before the integer part. */
  lemma LithuanianExamples()
    ensures LithuanianRule(Operands(1, 1, 1, 5, 5)) == Many
    ensures LithuanianRule(Operands(21, 0, 0, 0, 0)) == One
    ensures LithuanianRule(Operands(22, 0, 0, 0, 0)) == Few
    ensures LithuanianRule(Operands(10, 0, 0, 0, 0)) == Other
    ensures LithuanianRule(Operands(11, 0, 0, 0, 0)) == Other
    ensures LithuanianRule(Operands(1, 1, 0, 0, 0)) == One
  {
  }
}
