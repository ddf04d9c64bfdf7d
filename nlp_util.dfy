/**
 * Locale helpers of NlpUtil: truncating a locale code, and choosing a stemmer
 * and a tokenizer for a locale. The stemming and tokenizing algorithms belong
 * to a foreign library, so the choice is modelled as a tag naming the algorithm.
 * A missing locale (`undefined` or `null` in JavaScript) is `None`.
 */
module NlpUtil {
  import opened Wrappers
  import Text

  function Min(a: nat, b: nat): nat {
    if a <= b then a else b
  }

  /**
   * The first two characters of the locale, lower-cased; absent when the
   * locale is missing or empty.
   */
  function TruncatedLocale(locale: Option<string>): (r: Option<string>)
    ensures r.None? <==> (locale.None? || locale.value == [])
    ensures r.Some? ==> |r.value| == Min(2, |locale.value|) && Text.IsLowerCase(r.value)
    ensures r.Some? ==> forall i :: 0 <= i < |r.value| ==> r.value[i] == Text.LowerChar(locale.value[i])
  {
    match locale
    case None => None
    case Some(l) =>
      if l == [] then None else Some(Text.Lower(l[..Min(2, |l|)]))
  }

  /** Truncating a truncated locale changes nothing. */
  lemma TruncatedLocaleIdempotent(locale: Option<string>)
    ensures TruncatedLocale(TruncatedLocale(locale)) == TruncatedLocale(locale)
  {
    if TruncatedLocale(locale).Some? {
      var t := TruncatedLocale(locale).value;
      assert t[..Min(2, |t|)] == t;
      Text.LowerIsLowerCase(locale.value[..Min(2, |locale.value|)]);
    }
  }

  /** A present locale comes back unchanged exactly when it is already a short lower-case code. */
  lemma TruncatedLocaleFixedPoints(l: string)
    ensures TruncatedLocale(Some(l)) == Some(l) <==> (1 <= |l| <= 2 && Text.IsLowerCase(l))
  {
    if 1 <= |l| <= 2 && Text.IsLowerCase(l) {
      assert l[..Min(2, |l|)] == l;
      Text.LowerFixedPoints(l);
    }
  }

  /** The stemmers the library offers, named as the library names them. */
  datatype Stemmer =
    | PorterStemmer | PorterStemmerFa | PorterStemmerFr | PorterStemmerRu
    | PorterStemmerEs | PorterStemmerIt | PorterStemmerNo | PorterStemmerPt
    | PorterStemmerSv | PorterStemmerNl | PorterStemmerId | StemmerJa
    | DanishStemmer | FinnishStemmer | GermanStemmer | HungarianStemmer
    | RomanianStemmer | TurkishStemmer
    // the alternative (Snowball-style) stemmers
    | EnglishStemmer | FrenchStemmer | RussianStemmer | SpanishStemmer
    | ItalianStemmer | NorwegianStemmer | PortugueseStemmer | SwedishStemmer
    | DutchStemmer
  {
    /** True for the stemmers only chosen when the alternative flag is set. */
    predicate IsAlternative() {
      this in {EnglishStemmer, FrenchStemmer, RussianStemmer, SpanishStemmer,
               ItalianStemmer, NorwegianStemmer, PortugueseStemmer, SwedishStemmer,
               DutchStemmer}
    }

    /** The one locale a stemmer was written for (the inverse of the stemmer table). */
    function Language(): string {
      match this
      case PorterStemmer => "en"       case EnglishStemmer => "en"
      case PorterStemmerFa => "fa"
      case PorterStemmerFr => "fr"     case FrenchStemmer => "fr"
      case PorterStemmerRu => "ru"     case RussianStemmer => "ru"
      case PorterStemmerEs => "es"     case SpanishStemmer => "es"
      case PorterStemmerIt => "it"     case ItalianStemmer => "it"
      case PorterStemmerNo => "no"     case NorwegianStemmer => "no"
      case PorterStemmerPt => "pt"     case PortugueseStemmer => "pt"
      case PorterStemmerSv => "sv"     case SwedishStemmer => "sv"
      case PorterStemmerNl => "nl"     case DutchStemmer => "nl"
      case PorterStemmerId => "id"
      case StemmerJa => "ja"
      case DanishStemmer => "da"
      case FinnishStemmer => "fi"
      case GermanStemmer => "de"
      case HungarianStemmer => "hu"
      case RomanianStemmer => "ro"
      case TurkishStemmer => "tr"
    }
  }

  /** The stemmer used for each supported locale when no alternative is asked for. */
  const DefaultStemmers: map<string, Stemmer> := map[
    "en" := PorterStemmer, "fa" := PorterStemmerFa, "fr" := PorterStemmerFr,
    "ru" := PorterStemmerRu, "es" := PorterStemmerEs, "it" := PorterStemmerIt,
    "no" := PorterStemmerNo, "pt" := PorterStemmerPt, "sv" := PorterStemmerSv,
    "nl" := PorterStemmerNl, "id" := PorterStemmerId, "ja" := StemmerJa,
    "da" := DanishStemmer, "fi" := FinnishStemmer, "de" := GermanStemmer,
    "hu" := HungarianStemmer, "ro" := RomanianStemmer, "tr" := TurkishStemmer]

  /** The stemmer used instead when the locale's alternative flag is set. */
  const AlternativeStemmers: map<string, Stemmer> := map[
    "en" := EnglishStemmer, "fr" := FrenchStemmer, "ru" := RussianStemmer,
    "es" := SpanishStemmer, "it" := ItalianStemmer, "no" := NorwegianStemmer,
    "pt" := PortugueseStemmer, "sv" := SwedishStemmer, "nl" := DutchStemmer]

  /**
   * The stemmer for a locale. `useAlternative` is the set of locales whose
   * alternative flag is set (a global flag map in the library). Unknown,
   * empty and missing locales get the Porter stemmer; nothing fails.
   */
  function GetStemmer(locale: Option<string>, useAlternative: set<string>): (r: Stemmer)
    ensures (locale.None? || locale.value !in DefaultStemmers.Keys) ==> r == PorterStemmer
    ensures locale.Some? && locale.value in DefaultStemmers.Keys ==> r.Language() == locale.value
    ensures r.IsAlternative() <==>
      (locale.Some? && locale.value in AlternativeStemmers.Keys && locale.value in useAlternative)
  {
    DefaultStemmersTable();
    AlternativeStemmersTable();
    AlternativeLocalesHaveDefaults();
    match locale
    case None => PorterStemmer
    case Some(l) =>
      if l in useAlternative && l in AlternativeStemmers then AlternativeStemmers[l]
      else if l in DefaultStemmers then DefaultStemmers[l]
      else PorterStemmer
  }

  /** Each default stemmer is written for the locale it is listed under, and none is an alternative one. */
  lemma DefaultStemmersTable()
    ensures forall l :: l in DefaultStemmers ==>
      DefaultStemmers[l].Language() == l && !DefaultStemmers[l].IsAlternative()
  {
  }

  /** Each alternative stemmer is an alternative one, written for the locale it is listed under. */
  lemma AlternativeStemmersTable()
    ensures forall l :: l in AlternativeStemmers ==>
      AlternativeStemmers[l].Language() == l && AlternativeStemmers[l].IsAlternative()
  {
  }

  /** Every locale with an alternative stemmer also has a default one. */
  lemma AlternativeLocalesHaveDefaults()
    ensures AlternativeStemmers.Keys <= DefaultStemmers.Keys
  {
  }

  /** The alternative flag matters only for the locales that have an alternative stemmer. */
  lemma AlternativeFlagOnlyForAlternativeLocales(locale: string, useAlternative: set<string>)
    requires locale !in AlternativeStemmers.Keys || locale !in useAlternative
    ensures GetStemmer(Some(locale), useAlternative) == GetStemmer(Some(locale), {})
  {
  }

  /** Without flags, distinct supported locales get distinct stemmers. */
  lemma DefaultStemmersDistinct(l1: string, l2: string)
    requires l1 in DefaultStemmers.Keys && l2 in DefaultStemmers.Keys && l1 != l2
    ensures GetStemmer(Some(l1), {}) != GetStemmer(Some(l2), {})
  {
    assert GetStemmer(Some(l1), {}).Language() == l1;
  }

  /** The tokenizers the library offers, named as the library names them. */
  datatype Tokenizer =
    | AggressiveTokenizer | AggressiveTokenizerFa | AggressiveTokenizerFr
    | AggressiveTokenizerRu | AggressiveTokenizerEs | AggressiveTokenizerIt
    | AggressiveTokenizerNl | AggressiveTokenizerNo | AggressiveTokenizerPt
    | AggressiveTokenizerPl | AggressiveTokenizerSv | AggressiveTokenizerId
    | TokenizerJa | TreebankWordTokenizer
  {
    /** The locale a language-specific tokenizer was written for; absent for the generic one. */
    function Language(): Option<string> {
      match this
      case AggressiveTokenizer => Some("en")
      case AggressiveTokenizerFa => Some("fa")
      case AggressiveTokenizerFr => Some("fr")
      case AggressiveTokenizerRu => Some("ru")
      case AggressiveTokenizerEs => Some("es")
      case AggressiveTokenizerIt => Some("it")
      case AggressiveTokenizerNl => Some("nl")
      case AggressiveTokenizerNo => Some("no")
      case AggressiveTokenizerPt => Some("pt")
      case AggressiveTokenizerPl => Some("pl")
      case AggressiveTokenizerSv => Some("sv")
      case AggressiveTokenizerId => Some("id")
      case TokenizerJa => Some("ja")
      case TreebankWordTokenizer => None
    }
  }

  /** The locales with a tokenizer of their own. */
  const Tokenizers: map<string, Tokenizer> := map[
    "en" := AggressiveTokenizer, "fa" := AggressiveTokenizerFa, "fr" := AggressiveTokenizerFr,
    "ru" := AggressiveTokenizerRu, "es" := AggressiveTokenizerEs, "it" := AggressiveTokenizerIt,
    "nl" := AggressiveTokenizerNl, "no" := AggressiveTokenizerNo, "pt" := AggressiveTokenizerPt,
    "pl" := AggressiveTokenizerPl, "sv" := AggressiveTokenizerSv, "id" := AggressiveTokenizerId,
    "ja" := TokenizerJa]

  /**
   * The tokenizer for a locale: its own one where it has one, the Treebank
   * word tokenizer for every other locale, including empty and missing ones.
   */
  function GetTokenizer(locale: Option<string>): (r: Tokenizer)
    ensures r == TreebankWordTokenizer <==> (locale.None? || locale.value !in Tokenizers.Keys)
    ensures r != TreebankWordTokenizer ==> r.Language() == Some(locale.value)
  {
    match locale
    case None => TreebankWordTokenizer
    case Some(l) => if l in Tokenizers then Tokenizers[l] else TreebankWordTokenizer
  }
}
