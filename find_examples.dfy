/**
 * The findEntities cases of the manager's tests, proved end to end: the
 * registry the tests build, the utterances they search, and the
 * occurrences the finder reports for each. Every registered text is
 * settled on its own: no placement of it scores above the threshold, or
 * its match is exact, or it lies under a reported occurrence that goes
 * before it.
 *
 * The proofs about an utterance work on any string that reads like it
 * (`ReadsSawSpiderman` and its siblings); each case then instantiates
 * them with the utterance itself.
 */
module FindExamples {
  import opened Wrappers
  import opened SimilarSearch
  import opened NamedEntities
  import opened EntityExtraction
  import Text

  /** The hero entity of the tests: three options, each with its texts under `en`. */
  const Hero: NamedEntity := NamedEntity("hero", [
    EntityOption("spiderman", map["en" := ["Spiderman", "Spider-man"]]),
    EntityOption("iron man", map["en" := ["iron man", "iron-man"]]),
    EntityOption("thor", map["en" := ["Thor"]])])

  /** The food entity of the several-entities case. */
  const Food: NamedEntity := NamedEntity("food", [
    EntityOption("burguer", map["en" := ["Burguer", "Hamburguer"]]),
    EntityOption("pizza", map["en" := ["pizza"]]),
    EntityOption("pasta", map["en" := ["Pasta", "spaghetti"]])])

  const Heroes := [Hero]
  const HeroesAndFood := [Hero, Food]

  // ---------------------------------------------------------------------------
  // The utterances, in pieces that keep indexing into them cheap

  const SawSpiderman := "I saw " + "spiderman " + "in the city"
  const SawSpederman := "I saw " + "spederman in the city"
  const SawSpererman := "I saw " + "spererman in the city"
  const SawSpidermanEating := "I saw " + "spiderman " + "eating " + "spaghetti in the city"

  /** What the finder reports in `I saw spiderman in the city`. */
  const SawSpidermanFound: seq<EntityOccurrence> := [EntityOccurrence(6, 15, 0, 1.0, "hero", "spiderman", "Spiderman", "spiderman")]
  /** What the finder reports in `I saw spederman in the city`. */
  const SawSpedermanFound: seq<EntityOccurrence> := [EntityOccurrence(6, 15, 1, 8.0 / 9.0, "hero", "spiderman", "Spiderman", "spederman")]
  /** What the finder reports in `I saw spererman in the city`. */
  const SawSperermanFound: seq<EntityOccurrence> := []
  /** What the finder reports in `I saw spiderman eating spaghetti in the city`. */
  const SawSpidermanEatingFound: seq<EntityOccurrence> := [EntityOccurrence(6, 15, 0, 1.0, "hero", "spiderman", "Spiderman", "spiderman"),
    EntityOccurrence(23, 32, 0, 1.0, "food", "pasta", "spaghetti", "spaghetti")]

  /** The entities of `Heroes`, their options and their texts under `en`. */
  lemma HeroesTexts()
    ensures |Heroes| == 1
    ensures Heroes[0].name == "hero" && |Heroes[0].options| == 3
    ensures Heroes[0].options[0].name == "spiderman" && Bucket(Heroes[0].options[0].texts, "en") == ["Spiderman", "Spider-man"]
    ensures Heroes[0].options[1].name == "iron man" && Bucket(Heroes[0].options[1].texts, "en") == ["iron man", "iron-man"]
    ensures Heroes[0].options[2].name == "thor" && Bucket(Heroes[0].options[2].texts, "en") == ["Thor"]
  {
  }

  /** How many entities `Heroes` has, and how many options each. */
  lemma HeroesShape()
    ensures |Heroes| == 1
    ensures |Heroes[0].options| == 3
  {
  }

  /** Entity by entity, the matches of every text of `Heroes` are accounted for. */
  lemma HeroesSettled(u: string, th: real, ms: seq<EntityOccurrence>)
    requires forall k :: 0 <= k < |Bucket(Heroes[0].options[0].texts, "en")| ==>
      AccountedFor(ms, MatchText(u, Words(u), Heroes[0].name, Heroes[0].options[0].name, Bucket(Heroes[0].options[0].texts, "en")[k], th))
    requires forall k :: 0 <= k < |Bucket(Heroes[0].options[1].texts, "en")| ==>
      AccountedFor(ms, MatchText(u, Words(u), Heroes[0].name, Heroes[0].options[1].name, Bucket(Heroes[0].options[1].texts, "en")[k], th))
    requires forall k :: 0 <= k < |Bucket(Heroes[0].options[2].texts, "en")| ==>
      AccountedFor(ms, MatchText(u, Words(u), Heroes[0].name, Heroes[0].options[2].name, Bucket(Heroes[0].options[2].texts, "en")[k], th))
    ensures forall i, j, k :: (0 <= i < |Heroes| && 0 <= j < |Heroes[i].options| &&
      0 <= k < |Bucket(Heroes[i].options[j].texts, "en")|) ==>
      AccountedFor(ms, MatchText(u, Words(u), Heroes[i].name, Heroes[i].options[j].name,
                                 Bucket(Heroes[i].options[j].texts, "en")[k], th))
  {
    HeroesShape();
    forall i, j, k | (0 <= i < |Heroes| && 0 <= j < |Heroes[i].options| &&
      0 <= k < |Bucket(Heroes[i].options[j].texts, "en")|)
      ensures AccountedFor(ms, MatchText(u, Words(u), Heroes[i].name, Heroes[i].options[j].name,
                                 Bucket(Heroes[i].options[j].texts, "en")[k], th))
    {
      assert i == 0;
      if j == 0 {
        assert AccountedFor(ms, MatchText(u, Words(u), Heroes[0].name, Heroes[0].options[0].name,
                                 Bucket(Heroes[0].options[0].texts, "en")[k], th));
      } else if j == 1 {
        assert AccountedFor(ms, MatchText(u, Words(u), Heroes[0].name, Heroes[0].options[1].name,
                                 Bucket(Heroes[0].options[1].texts, "en")[k], th));
      } else {
        assert AccountedFor(ms, MatchText(u, Words(u), Heroes[0].name, Heroes[0].options[2].name,
                                 Bucket(Heroes[0].options[2].texts, "en")[k], th));
      }
    }
  }

  /** Occurrences that account for every match in `Heroes`, and are their own texts' matches, are what the finder reports. */
  lemma HeroesFound(u: string, th: real, ms: seq<EntityOccurrence>)
    requires Chain(ms) && NonEmptySpans(ms)
    requires forall m :: m in ms ==> IsSurfaceText(Heroes, m.entity, m.option, "en", m.sourceText)
    requires OwnMatches(u, Words(u), th, ms)
    requires forall k :: 0 <= k < |Bucket(Heroes[0].options[0].texts, "en")| ==>
      AccountedFor(ms, MatchText(u, Words(u), Heroes[0].name, Heroes[0].options[0].name, Bucket(Heroes[0].options[0].texts, "en")[k], th))
    requires forall k :: 0 <= k < |Bucket(Heroes[0].options[1].texts, "en")| ==>
      AccountedFor(ms, MatchText(u, Words(u), Heroes[0].name, Heroes[0].options[1].name, Bucket(Heroes[0].options[1].texts, "en")[k], th))
    requires forall k :: 0 <= k < |Bucket(Heroes[0].options[2].texts, "en")| ==>
      AccountedFor(ms, MatchText(u, Words(u), Heroes[0].name, Heroes[0].options[2].name, Bucket(Heroes[0].options[2].texts, "en")[k], th))
    ensures FindEntities(Heroes, th, u, "en") == ms
  {
    HeroesSettled(u, th, ms);
    FindEntitiesByIndex(Heroes, th, u, "en", ms);
  }

  /** The entities of `HeroesAndFood`, their options and their texts under `en`. */
  lemma HeroesAndFoodTexts()
    ensures |HeroesAndFood| == 2
    ensures HeroesAndFood[0].name == "hero" && |HeroesAndFood[0].options| == 3
    ensures HeroesAndFood[0].options[0].name == "spiderman" && Bucket(HeroesAndFood[0].options[0].texts, "en") == ["Spiderman", "Spider-man"]
    ensures HeroesAndFood[0].options[1].name == "iron man" && Bucket(HeroesAndFood[0].options[1].texts, "en") == ["iron man", "iron-man"]
    ensures HeroesAndFood[0].options[2].name == "thor" && Bucket(HeroesAndFood[0].options[2].texts, "en") == ["Thor"]
    ensures HeroesAndFood[1].name == "food" && |HeroesAndFood[1].options| == 3
    ensures HeroesAndFood[1].options[0].name == "burguer" && Bucket(HeroesAndFood[1].options[0].texts, "en") == ["Burguer", "Hamburguer"]
    ensures HeroesAndFood[1].options[1].name == "pizza" && Bucket(HeroesAndFood[1].options[1].texts, "en") == ["pizza"]
    ensures HeroesAndFood[1].options[2].name == "pasta" && Bucket(HeroesAndFood[1].options[2].texts, "en") == ["Pasta", "spaghetti"]
  {
  }

  /** How many entities `HeroesAndFood` has, and how many options each. */
  lemma HeroesAndFoodShape()
    ensures |HeroesAndFood| == 2
    ensures |HeroesAndFood[0].options| == 3
    ensures |HeroesAndFood[1].options| == 3
  {
  }

  /** Option by option, the matches of every text of `hero` in `HeroesAndFood` are accounted for. */
  lemma HeroesAndFoodHeroSettled(u: string, th: real, ms: seq<EntityOccurrence>)
    requires forall k :: 0 <= k < |Bucket(HeroesAndFood[0].options[0].texts, "en")| ==>
      AccountedFor(ms, MatchText(u, Words(u), HeroesAndFood[0].name, HeroesAndFood[0].options[0].name, Bucket(HeroesAndFood[0].options[0].texts, "en")[k], th))
    requires forall k :: 0 <= k < |Bucket(HeroesAndFood[0].options[1].texts, "en")| ==>
      AccountedFor(ms, MatchText(u, Words(u), HeroesAndFood[0].name, HeroesAndFood[0].options[1].name, Bucket(HeroesAndFood[0].options[1].texts, "en")[k], th))
    requires forall k :: 0 <= k < |Bucket(HeroesAndFood[0].options[2].texts, "en")| ==>
      AccountedFor(ms, MatchText(u, Words(u), HeroesAndFood[0].name, HeroesAndFood[0].options[2].name, Bucket(HeroesAndFood[0].options[2].texts, "en")[k], th))
    ensures forall j, k :: (0 <= j < |HeroesAndFood[0].options| &&
      0 <= k < |Bucket(HeroesAndFood[0].options[j].texts, "en")|) ==>
      AccountedFor(ms, MatchText(u, Words(u), HeroesAndFood[0].name, HeroesAndFood[0].options[j].name,
                                 Bucket(HeroesAndFood[0].options[j].texts, "en")[k], th))
  {
    HeroesAndFoodShape();
    forall j, k | (0 <= j < |HeroesAndFood[0].options| && 0 <= k < |Bucket(HeroesAndFood[0].options[j].texts, "en")|)
      ensures AccountedFor(ms, MatchText(u, Words(u), HeroesAndFood[0].name, HeroesAndFood[0].options[j].name,
                                 Bucket(HeroesAndFood[0].options[j].texts, "en")[k], th))
    {
      if j == 0 {
        assert AccountedFor(ms, MatchText(u, Words(u), HeroesAndFood[0].name, HeroesAndFood[0].options[0].name,
                                 Bucket(HeroesAndFood[0].options[0].texts, "en")[k], th));
      } else if j == 1 {
        assert AccountedFor(ms, MatchText(u, Words(u), HeroesAndFood[0].name, HeroesAndFood[0].options[1].name,
                                 Bucket(HeroesAndFood[0].options[1].texts, "en")[k], th));
      } else {
        assert AccountedFor(ms, MatchText(u, Words(u), HeroesAndFood[0].name, HeroesAndFood[0].options[2].name,
                                 Bucket(HeroesAndFood[0].options[2].texts, "en")[k], th));
      }
    }
  }

  /** Option by option, the matches of every text of `food` in `HeroesAndFood` are accounted for. */
  lemma HeroesAndFoodFoodSettled(u: string, th: real, ms: seq<EntityOccurrence>)
    requires forall k :: 0 <= k < |Bucket(HeroesAndFood[1].options[0].texts, "en")| ==>
      AccountedFor(ms, MatchText(u, Words(u), HeroesAndFood[1].name, HeroesAndFood[1].options[0].name, Bucket(HeroesAndFood[1].options[0].texts, "en")[k], th))
    requires forall k :: 0 <= k < |Bucket(HeroesAndFood[1].options[1].texts, "en")| ==>
      AccountedFor(ms, MatchText(u, Words(u), HeroesAndFood[1].name, HeroesAndFood[1].options[1].name, Bucket(HeroesAndFood[1].options[1].texts, "en")[k], th))
    requires forall k :: 0 <= k < |Bucket(HeroesAndFood[1].options[2].texts, "en")| ==>
      AccountedFor(ms, MatchText(u, Words(u), HeroesAndFood[1].name, HeroesAndFood[1].options[2].name, Bucket(HeroesAndFood[1].options[2].texts, "en")[k], th))
    ensures forall j, k :: (0 <= j < |HeroesAndFood[1].options| &&
      0 <= k < |Bucket(HeroesAndFood[1].options[j].texts, "en")|) ==>
      AccountedFor(ms, MatchText(u, Words(u), HeroesAndFood[1].name, HeroesAndFood[1].options[j].name,
                                 Bucket(HeroesAndFood[1].options[j].texts, "en")[k], th))
  {
    HeroesAndFoodShape();
    forall j, k | (0 <= j < |HeroesAndFood[1].options| && 0 <= k < |Bucket(HeroesAndFood[1].options[j].texts, "en")|)
      ensures AccountedFor(ms, MatchText(u, Words(u), HeroesAndFood[1].name, HeroesAndFood[1].options[j].name,
                                 Bucket(HeroesAndFood[1].options[j].texts, "en")[k], th))
    {
      if j == 0 {
        assert AccountedFor(ms, MatchText(u, Words(u), HeroesAndFood[1].name, HeroesAndFood[1].options[0].name,
                                 Bucket(HeroesAndFood[1].options[0].texts, "en")[k], th));
      } else if j == 1 {
        assert AccountedFor(ms, MatchText(u, Words(u), HeroesAndFood[1].name, HeroesAndFood[1].options[1].name,
                                 Bucket(HeroesAndFood[1].options[1].texts, "en")[k], th));
      } else {
        assert AccountedFor(ms, MatchText(u, Words(u), HeroesAndFood[1].name, HeroesAndFood[1].options[2].name,
                                 Bucket(HeroesAndFood[1].options[2].texts, "en")[k], th));
      }
    }
  }

  /** Entity by entity, the matches of every text of `HeroesAndFood` are accounted for. */
  lemma HeroesAndFoodSettled(u: string, th: real, ms: seq<EntityOccurrence>)
    requires forall j, k :: (0 <= j < |HeroesAndFood[0].options| &&
      0 <= k < |Bucket(HeroesAndFood[0].options[j].texts, "en")|) ==>
      AccountedFor(ms, MatchText(u, Words(u), HeroesAndFood[0].name, HeroesAndFood[0].options[j].name,
                                 Bucket(HeroesAndFood[0].options[j].texts, "en")[k], th))
    requires forall j, k :: (0 <= j < |HeroesAndFood[1].options| &&
      0 <= k < |Bucket(HeroesAndFood[1].options[j].texts, "en")|) ==>
      AccountedFor(ms, MatchText(u, Words(u), HeroesAndFood[1].name, HeroesAndFood[1].options[j].name,
                                 Bucket(HeroesAndFood[1].options[j].texts, "en")[k], th))
    ensures forall i, j, k :: (0 <= i < |HeroesAndFood| && 0 <= j < |HeroesAndFood[i].options| &&
      0 <= k < |Bucket(HeroesAndFood[i].options[j].texts, "en")|) ==>
      AccountedFor(ms, MatchText(u, Words(u), HeroesAndFood[i].name, HeroesAndFood[i].options[j].name,
                                 Bucket(HeroesAndFood[i].options[j].texts, "en")[k], th))
  {
    HeroesAndFoodShape();
  }

  /** Occurrences that account for every match in `HeroesAndFood`, and are their own texts' matches, are what the finder reports. */
  lemma HeroesAndFoodFound(u: string, th: real, ms: seq<EntityOccurrence>)
    requires Chain(ms) && NonEmptySpans(ms)
    requires forall m :: m in ms ==> IsSurfaceText(HeroesAndFood, m.entity, m.option, "en", m.sourceText)
    requires OwnMatches(u, Words(u), th, ms)
    requires forall k :: 0 <= k < |Bucket(HeroesAndFood[0].options[0].texts, "en")| ==>
      AccountedFor(ms, MatchText(u, Words(u), HeroesAndFood[0].name, HeroesAndFood[0].options[0].name, Bucket(HeroesAndFood[0].options[0].texts, "en")[k], th))
    requires forall k :: 0 <= k < |Bucket(HeroesAndFood[0].options[1].texts, "en")| ==>
      AccountedFor(ms, MatchText(u, Words(u), HeroesAndFood[0].name, HeroesAndFood[0].options[1].name, Bucket(HeroesAndFood[0].options[1].texts, "en")[k], th))
    requires forall k :: 0 <= k < |Bucket(HeroesAndFood[0].options[2].texts, "en")| ==>
      AccountedFor(ms, MatchText(u, Words(u), HeroesAndFood[0].name, HeroesAndFood[0].options[2].name, Bucket(HeroesAndFood[0].options[2].texts, "en")[k], th))
    requires forall k :: 0 <= k < |Bucket(HeroesAndFood[1].options[0].texts, "en")| ==>
      AccountedFor(ms, MatchText(u, Words(u), HeroesAndFood[1].name, HeroesAndFood[1].options[0].name, Bucket(HeroesAndFood[1].options[0].texts, "en")[k], th))
    requires forall k :: 0 <= k < |Bucket(HeroesAndFood[1].options[1].texts, "en")| ==>
      AccountedFor(ms, MatchText(u, Words(u), HeroesAndFood[1].name, HeroesAndFood[1].options[1].name, Bucket(HeroesAndFood[1].options[1].texts, "en")[k], th))
    requires forall k :: 0 <= k < |Bucket(HeroesAndFood[1].options[2].texts, "en")| ==>
      AccountedFor(ms, MatchText(u, Words(u), HeroesAndFood[1].name, HeroesAndFood[1].options[2].name, Bucket(HeroesAndFood[1].options[2].texts, "en")[k], th))
    ensures FindEntities(HeroesAndFood, th, u, "en") == ms
  {
    HeroesAndFoodHeroSettled(u, th, ms);
    HeroesAndFoodFoodSettled(u, th, ms);
    HeroesAndFoodSettled(u, th, ms);
    FindEntitiesByIndex(HeroesAndFood, th, u, "en", ms);
  }

  /**
   * What the proofs below use of `I saw spiderman in the city`: its length, where its
   * words begin and end, and how its spans read.
   */
  ghost predicate ReadsSawSpiderman(u: string) {
    && |u| == 27
    && (forall w :: WordAligned(u, w) ==> w.start in {0, 2, 6, 16, 19, 23} && w.end in {1, 5, 15, 18, 22, 27})
    && WordAligned(u, Window(6, 15))
    && Text.FoldsToAt(u, 0, "i saw", 0)
    && Text.FoldsToAt(u, 2, "saw", 0)
    && Text.FoldsToAt(u, 6, "spiderman", 0)
    && Text.FoldsToAt(u, 16, "in", 0)
    && Text.FoldsToAt(u, 16, "in the", 0)
    && Text.FoldsToAt(u, 16, "in the city", 0)
    && Text.FoldsToAt(u, 19, "the", 0)
    && Text.FoldsToAt(u, 19, "the city", 0)
    && Text.FoldsToAt(u, 23, "city", 0)
    && Text.SpellsAt(u, 6, "spiderman", 0)
  }

  /** The boundaries of the words of `I saw spiderman in the city`. */
  lemma SawSpidermanWords(w: Window)
    requires WordAligned(SawSpiderman, w)
    ensures w.start in {0, 2, 6, 16, 19, 23} && w.end in {1, 5, 15, 18, 22, 27}
  {
  }

  /** How the spans of `I saw spiderman in the city` from 0 on read, case folded. */
  lemma SawSpidermanFoldsAt0()
    ensures Text.FoldsToAt(SawSpiderman, 0, "i saw", 0)
  {
  }

  /** How the spans of `I saw spiderman in the city` from 2 on read, case folded. */
  lemma SawSpidermanFoldsAt2()
    ensures Text.FoldsToAt(SawSpiderman, 2, "saw", 0)
  {
  }

  /** How the spans of `I saw spiderman in the city` from 6 on read, case folded. */
  lemma SawSpidermanFoldsAt6()
    ensures Text.FoldsToAt(SawSpiderman, 6, "spiderman", 0)
  {
    assert Text.FoldsToAt(SawSpiderman, 6, "spiderman", 8);
    assert Text.FoldsToAt(SawSpiderman, 6, "spiderman", 7);
    assert Text.FoldsToAt(SawSpiderman, 6, "spiderman", 6);
    assert Text.FoldsToAt(SawSpiderman, 6, "spiderman", 5);
    assert Text.FoldsToAt(SawSpiderman, 6, "spiderman", 4);
    assert Text.FoldsToAt(SawSpiderman, 6, "spiderman", 3);
    assert Text.FoldsToAt(SawSpiderman, 6, "spiderman", 2);
    assert Text.FoldsToAt(SawSpiderman, 6, "spiderman", 1);
  }

  /** How the spans of `I saw spiderman in the city` from 16 on read, case folded. */
  lemma SawSpidermanFoldsAt16()
    ensures Text.FoldsToAt(SawSpiderman, 16, "in", 0)
    ensures Text.FoldsToAt(SawSpiderman, 16, "in the", 0)
    ensures Text.FoldsToAt(SawSpiderman, 16, "in the city", 0)
  {
    assert Text.FoldsToAt(SawSpiderman, 16, "in the city", 10);
    assert Text.FoldsToAt(SawSpiderman, 16, "in the city", 9);
    assert Text.FoldsToAt(SawSpiderman, 16, "in the city", 8);
    assert Text.FoldsToAt(SawSpiderman, 16, "in the city", 7);
    assert Text.FoldsToAt(SawSpiderman, 16, "in the city", 6);
    assert Text.FoldsToAt(SawSpiderman, 16, "in the city", 5);
    assert Text.FoldsToAt(SawSpiderman, 16, "in the city", 4);
    assert Text.FoldsToAt(SawSpiderman, 16, "in the city", 3);
    assert Text.FoldsToAt(SawSpiderman, 16, "in the city", 2);
    assert Text.FoldsToAt(SawSpiderman, 16, "in the city", 1);
  }

  /** How the spans of `I saw spiderman in the city` from 19 on read, case folded. */
  lemma SawSpidermanFoldsAt19()
    ensures Text.FoldsToAt(SawSpiderman, 19, "the", 0)
    ensures Text.FoldsToAt(SawSpiderman, 19, "the city", 0)
  {
    assert Text.FoldsToAt(SawSpiderman, 19, "the city", 7);
    assert Text.FoldsToAt(SawSpiderman, 19, "the city", 6);
    assert Text.FoldsToAt(SawSpiderman, 19, "the city", 5);
    assert Text.FoldsToAt(SawSpiderman, 19, "the city", 4);
    assert Text.FoldsToAt(SawSpiderman, 19, "the city", 3);
    assert Text.FoldsToAt(SawSpiderman, 19, "the city", 2);
    assert Text.FoldsToAt(SawSpiderman, 19, "the city", 1);
  }

  /** How the spans of `I saw spiderman in the city` from 23 on read, case folded. */
  lemma SawSpidermanFoldsAt23()
    ensures Text.FoldsToAt(SawSpiderman, 23, "city", 0)
  {
  }

  /** Where the matches of `I saw spiderman in the city` sit, and how they are spelled. */
  lemma SawSpidermanLayout()
    ensures WordAligned(SawSpiderman, Window(6, 15))
    ensures Text.SpellsAt(SawSpiderman, 6, "spiderman", 0)
  {
  }

  lemma SawSpidermanReads()
    ensures ReadsSawSpiderman(SawSpiderman)
  {
    forall w | WordAligned(SawSpiderman, w)
      ensures w.start in {0, 2, 6, 16, 19, 23} && w.end in {1, 5, 15, 18, 22, 27}
    {
      SawSpidermanWords(w);
    }
    SawSpidermanFoldsAt0();
    SawSpidermanFoldsAt2();
    SawSpidermanFoldsAt6();
    SawSpidermanFoldsAt16();
    SawSpidermanFoldsAt19();
    SawSpidermanFoldsAt23();
    SawSpidermanLayout();
  }

  /**
   * What the proofs below use of `I saw spederman in the city`: its length, where its
   * words begin and end, and how its spans read.
   */
  ghost predicate ReadsSawSpederman(u: string) {
    && |u| == 27
    && (forall w :: WordAligned(u, w) ==> w.start in {0, 2, 6, 16, 19, 23} && w.end in {1, 5, 15, 18, 22, 27})
    && WordAligned(u, Window(6, 15))
    && Text.FoldsToAt(u, 0, "i saw", 0)
    && Text.FoldsToAt(u, 2, "saw", 0)
    && Text.FoldsToAt(u, 6, "spederman", 0)
    && Text.FoldsToAt(u, 6, "spederman in", 0)
    && Text.FoldsToAt(u, 16, "in", 0)
    && Text.FoldsToAt(u, 16, "in the", 0)
    && Text.FoldsToAt(u, 16, "in the city", 0)
    && Text.FoldsToAt(u, 19, "the", 0)
    && Text.FoldsToAt(u, 19, "the city", 0)
    && Text.FoldsToAt(u, 23, "city", 0)
    && Text.SpellsAt(u, 6, "spederman", 0)
  }

  /** The boundaries of the words of `I saw spederman in the city`. */
  lemma SawSpedermanWords(w: Window)
    requires WordAligned(SawSpederman, w)
    ensures w.start in {0, 2, 6, 16, 19, 23} && w.end in {1, 5, 15, 18, 22, 27}
  {
  }

  /** How the spans of `I saw spederman in the city` from 0 on read, case folded. */
  lemma SawSpedermanFoldsAt0()
    ensures Text.FoldsToAt(SawSpederman, 0, "i saw", 0)
  {
  }

  /** How the spans of `I saw spederman in the city` from 2 on read, case folded. */
  lemma SawSpedermanFoldsAt2()
    ensures Text.FoldsToAt(SawSpederman, 2, "saw", 0)
  {
  }

  /** How the spans of `I saw spederman in the city` from 6 on read, case folded. */
  lemma SawSpedermanFoldsAt6()
    ensures Text.FoldsToAt(SawSpederman, 6, "spederman", 0)
    ensures Text.FoldsToAt(SawSpederman, 6, "spederman in", 0)
  {
    assert Text.FoldsToAt(SawSpederman, 6, "spederman in", 11);
    assert Text.FoldsToAt(SawSpederman, 6, "spederman in", 10);
    assert Text.FoldsToAt(SawSpederman, 6, "spederman in", 9);
    assert Text.FoldsToAt(SawSpederman, 6, "spederman in", 8);
    assert Text.FoldsToAt(SawSpederman, 6, "spederman in", 7);
    assert Text.FoldsToAt(SawSpederman, 6, "spederman in", 6);
    assert Text.FoldsToAt(SawSpederman, 6, "spederman in", 5);
    assert Text.FoldsToAt(SawSpederman, 6, "spederman in", 4);
    assert Text.FoldsToAt(SawSpederman, 6, "spederman in", 3);
    assert Text.FoldsToAt(SawSpederman, 6, "spederman in", 2);
    assert Text.FoldsToAt(SawSpederman, 6, "spederman in", 1);
  }

  /** How the spans of `I saw spederman in the city` from 16 on read, case folded. */
  lemma SawSpedermanFoldsAt16()
    ensures Text.FoldsToAt(SawSpederman, 16, "in", 0)
    ensures Text.FoldsToAt(SawSpederman, 16, "in the", 0)
    ensures Text.FoldsToAt(SawSpederman, 16, "in the city", 0)
  {
    assert Text.FoldsToAt(SawSpederman, 16, "in the city", 10);
    assert Text.FoldsToAt(SawSpederman, 16, "in the city", 9);
    assert Text.FoldsToAt(SawSpederman, 16, "in the city", 8);
    assert Text.FoldsToAt(SawSpederman, 16, "in the city", 7);
    assert Text.FoldsToAt(SawSpederman, 16, "in the city", 6);
    assert Text.FoldsToAt(SawSpederman, 16, "in the city", 5);
    assert Text.FoldsToAt(SawSpederman, 16, "in the city", 4);
    assert Text.FoldsToAt(SawSpederman, 16, "in the city", 3);
    assert Text.FoldsToAt(SawSpederman, 16, "in the city", 2);
    assert Text.FoldsToAt(SawSpederman, 16, "in the city", 1);
  }

  /** How the spans of `I saw spederman in the city` from 19 on read, case folded. */
  lemma SawSpedermanFoldsAt19()
    ensures Text.FoldsToAt(SawSpederman, 19, "the", 0)
    ensures Text.FoldsToAt(SawSpederman, 19, "the city", 0)
  {
    assert Text.FoldsToAt(SawSpederman, 19, "the city", 7);
    assert Text.FoldsToAt(SawSpederman, 19, "the city", 6);
    assert Text.FoldsToAt(SawSpederman, 19, "the city", 5);
    assert Text.FoldsToAt(SawSpederman, 19, "the city", 4);
    assert Text.FoldsToAt(SawSpederman, 19, "the city", 3);
    assert Text.FoldsToAt(SawSpederman, 19, "the city", 2);
    assert Text.FoldsToAt(SawSpederman, 19, "the city", 1);
  }

  /** How the spans of `I saw spederman in the city` from 23 on read, case folded. */
  lemma SawSpedermanFoldsAt23()
    ensures Text.FoldsToAt(SawSpederman, 23, "city", 0)
  {
  }

  /** Where the matches of `I saw spederman in the city` sit, and how they are spelled. */
  lemma SawSpedermanLayout()
    ensures WordAligned(SawSpederman, Window(6, 15))
    ensures Text.SpellsAt(SawSpederman, 6, "spederman", 0)
  {
  }

  lemma SawSpedermanReads()
    ensures ReadsSawSpederman(SawSpederman)
  {
    forall w | WordAligned(SawSpederman, w)
      ensures w.start in {0, 2, 6, 16, 19, 23} && w.end in {1, 5, 15, 18, 22, 27}
    {
      SawSpedermanWords(w);
    }
    SawSpedermanFoldsAt0();
    SawSpedermanFoldsAt2();
    SawSpedermanFoldsAt6();
    SawSpedermanFoldsAt16();
    SawSpedermanFoldsAt19();
    SawSpedermanFoldsAt23();
    SawSpedermanLayout();
  }

  /**
   * What the proofs below use of `I saw spererman in the city`: its length, where its
   * words begin and end, and how its spans read.
   */
  ghost predicate ReadsSawSpererman(u: string) {
    && |u| == 27
    && (forall w :: WordAligned(u, w) ==> w.start in {0, 2, 6, 16, 19, 23} && w.end in {1, 5, 15, 18, 22, 27})
    && Text.FoldsToAt(u, 0, "i saw", 0)
    && Text.FoldsToAt(u, 2, "saw", 0)
    && Text.FoldsToAt(u, 6, "spererman", 0)
    && Text.FoldsToAt(u, 6, "spererman in", 0)
    && Text.FoldsToAt(u, 16, "in", 0)
    && Text.FoldsToAt(u, 16, "in the", 0)
    && Text.FoldsToAt(u, 16, "in the city", 0)
    && Text.FoldsToAt(u, 19, "the", 0)
    && Text.FoldsToAt(u, 19, "the city", 0)
    && Text.FoldsToAt(u, 23, "city", 0)
  }

  /** The boundaries of the words of `I saw spererman in the city`. */
  lemma SawSperermanWords(w: Window)
    requires WordAligned(SawSpererman, w)
    ensures w.start in {0, 2, 6, 16, 19, 23} && w.end in {1, 5, 15, 18, 22, 27}
  {
  }

  /** How the spans of `I saw spererman in the city` from 0 on read, case folded. */
  lemma SawSperermanFoldsAt0()
    ensures Text.FoldsToAt(SawSpererman, 0, "i saw", 0)
  {
  }

  /** How the spans of `I saw spererman in the city` from 2 on read, case folded. */
  lemma SawSperermanFoldsAt2()
    ensures Text.FoldsToAt(SawSpererman, 2, "saw", 0)
  {
  }

  /** How the spans of `I saw spererman in the city` from 6 on read, case folded. */
  lemma SawSperermanFoldsAt6()
    ensures Text.FoldsToAt(SawSpererman, 6, "spererman", 0)
    ensures Text.FoldsToAt(SawSpererman, 6, "spererman in", 0)
  {
    assert Text.FoldsToAt(SawSpererman, 6, "spererman in", 11);
    assert Text.FoldsToAt(SawSpererman, 6, "spererman in", 10);
    assert Text.FoldsToAt(SawSpererman, 6, "spererman in", 9);
    assert Text.FoldsToAt(SawSpererman, 6, "spererman in", 8);
    assert Text.FoldsToAt(SawSpererman, 6, "spererman in", 7);
    assert Text.FoldsToAt(SawSpererman, 6, "spererman in", 6);
    assert Text.FoldsToAt(SawSpererman, 6, "spererman in", 5);
    assert Text.FoldsToAt(SawSpererman, 6, "spererman in", 4);
    assert Text.FoldsToAt(SawSpererman, 6, "spererman in", 3);
    assert Text.FoldsToAt(SawSpererman, 6, "spererman in", 2);
    assert Text.FoldsToAt(SawSpererman, 6, "spererman in", 1);
  }

  /** How the spans of `I saw spererman in the city` from 16 on read, case folded. */
  lemma SawSperermanFoldsAt16()
    ensures Text.FoldsToAt(SawSpererman, 16, "in", 0)
    ensures Text.FoldsToAt(SawSpererman, 16, "in the", 0)
    ensures Text.FoldsToAt(SawSpererman, 16, "in the city", 0)
  {
    assert Text.FoldsToAt(SawSpererman, 16, "in the city", 10);
    assert Text.FoldsToAt(SawSpererman, 16, "in the city", 9);
    assert Text.FoldsToAt(SawSpererman, 16, "in the city", 8);
    assert Text.FoldsToAt(SawSpererman, 16, "in the city", 7);
    assert Text.FoldsToAt(SawSpererman, 16, "in the city", 6);
    assert Text.FoldsToAt(SawSpererman, 16, "in the city", 5);
    assert Text.FoldsToAt(SawSpererman, 16, "in the city", 4);
    assert Text.FoldsToAt(SawSpererman, 16, "in the city", 3);
    assert Text.FoldsToAt(SawSpererman, 16, "in the city", 2);
    assert Text.FoldsToAt(SawSpererman, 16, "in the city", 1);
  }

  /** How the spans of `I saw spererman in the city` from 19 on read, case folded. */
  lemma SawSperermanFoldsAt19()
    ensures Text.FoldsToAt(SawSpererman, 19, "the", 0)
    ensures Text.FoldsToAt(SawSpererman, 19, "the city", 0)
  {
    assert Text.FoldsToAt(SawSpererman, 19, "the city", 7);
    assert Text.FoldsToAt(SawSpererman, 19, "the city", 6);
    assert Text.FoldsToAt(SawSpererman, 19, "the city", 5);
    assert Text.FoldsToAt(SawSpererman, 19, "the city", 4);
    assert Text.FoldsToAt(SawSpererman, 19, "the city", 3);
    assert Text.FoldsToAt(SawSpererman, 19, "the city", 2);
    assert Text.FoldsToAt(SawSpererman, 19, "the city", 1);
  }

  /** How the spans of `I saw spererman in the city` from 23 on read, case folded. */
  lemma SawSperermanFoldsAt23()
    ensures Text.FoldsToAt(SawSpererman, 23, "city", 0)
  {
  }

  lemma SawSperermanReads()
    ensures ReadsSawSpererman(SawSpererman)
  {
    forall w | WordAligned(SawSpererman, w)
      ensures w.start in {0, 2, 6, 16, 19, 23} && w.end in {1, 5, 15, 18, 22, 27}
    {
      SawSperermanWords(w);
    }
    SawSperermanFoldsAt0();
    SawSperermanFoldsAt2();
    SawSperermanFoldsAt6();
    SawSperermanFoldsAt16();
    SawSperermanFoldsAt19();
    SawSperermanFoldsAt23();
  }

  /**
   * What the proofs below use of `I saw spiderman eating spaghetti in the city`: its length, where its
   * words begin and end, and how its spans read.
   */
  ghost predicate ReadsSawSpidermanEating(u: string) {
    && |u| == 44
    && (forall w :: WordAligned(u, w) ==> w.start in {0, 2, 6, 16, 23, 33, 36, 40} && w.end in {1, 5, 15, 22, 32, 35, 39, 44})
    && WordAligned(u, Window(6, 15))
    && WordAligned(u, Window(23, 32))
    && Text.FoldsToAt(u, 0, "i saw", 0)
    && Text.FoldsToAt(u, 2, "saw", 0)
    && Text.FoldsToAt(u, 6, "spiderman", 0)
    && Text.FoldsToAt(u, 16, "eating", 0)
    && Text.FoldsToAt(u, 23, "spaghetti", 0)
    && Text.FoldsToAt(u, 23, "spaghetti in", 0)
    && Text.FoldsToAt(u, 33, "in", 0)
    && Text.FoldsToAt(u, 33, "in the", 0)
    && Text.FoldsToAt(u, 33, "in the city", 0)
    && Text.FoldsToAt(u, 36, "the", 0)
    && Text.FoldsToAt(u, 36, "the city", 0)
    && Text.FoldsToAt(u, 40, "city", 0)
    && Text.SpellsAt(u, 6, "spiderman", 0)
    && Text.SpellsAt(u, 23, "spaghetti", 0)
  }

  /** The boundaries of the words of `I saw spiderman eating spaghetti in the city`. */
  lemma SawSpidermanEatingWords(w: Window)
    requires WordAligned(SawSpidermanEating, w)
    ensures w.start in {0, 2, 6, 16, 23, 33, 36, 40} && w.end in {1, 5, 15, 22, 32, 35, 39, 44}
  {
  }

  /** How the spans of `I saw spiderman eating spaghetti in the city` from 0 on read, case folded. */
  lemma SawSpidermanEatingFoldsAt0()
    ensures Text.FoldsToAt(SawSpidermanEating, 0, "i saw", 0)
  {
  }

  /** How the spans of `I saw spiderman eating spaghetti in the city` from 2 on read, case folded. */
  lemma SawSpidermanEatingFoldsAt2()
    ensures Text.FoldsToAt(SawSpidermanEating, 2, "saw", 0)
  {
  }

  /** How the spans of `I saw spiderman eating spaghetti in the city` from 6 on read, case folded. */
  lemma SawSpidermanEatingFoldsAt6()
    ensures Text.FoldsToAt(SawSpidermanEating, 6, "spiderman", 0)
  {
    assert Text.FoldsToAt(SawSpidermanEating, 6, "spiderman", 8);
    assert Text.FoldsToAt(SawSpidermanEating, 6, "spiderman", 7);
    assert Text.FoldsToAt(SawSpidermanEating, 6, "spiderman", 6);
    assert Text.FoldsToAt(SawSpidermanEating, 6, "spiderman", 5);
    assert Text.FoldsToAt(SawSpidermanEating, 6, "spiderman", 4);
    assert Text.FoldsToAt(SawSpidermanEating, 6, "spiderman", 3);
    assert Text.FoldsToAt(SawSpidermanEating, 6, "spiderman", 2);
    assert Text.FoldsToAt(SawSpidermanEating, 6, "spiderman", 1);
  }

  /** How the spans of `I saw spiderman eating spaghetti in the city` from 16 on read, case folded. */
  lemma SawSpidermanEatingFoldsAt16()
    ensures Text.FoldsToAt(SawSpidermanEating, 16, "eating", 0)
  {
  }

  /** How the spans of `I saw spiderman eating spaghetti in the city` from 23 on read, case folded. */
  lemma SawSpidermanEatingFoldsAt23()
    ensures Text.FoldsToAt(SawSpidermanEating, 23, "spaghetti", 0)
    ensures Text.FoldsToAt(SawSpidermanEating, 23, "spaghetti in", 0)
  {
    assert Text.FoldsToAt(SawSpidermanEating, 23, "spaghetti in", 11);
    assert Text.FoldsToAt(SawSpidermanEating, 23, "spaghetti in", 10);
    assert Text.FoldsToAt(SawSpidermanEating, 23, "spaghetti in", 9);
    assert Text.FoldsToAt(SawSpidermanEating, 23, "spaghetti in", 8);
    assert Text.FoldsToAt(SawSpidermanEating, 23, "spaghetti in", 7);
    assert Text.FoldsToAt(SawSpidermanEating, 23, "spaghetti in", 6);
    assert Text.FoldsToAt(SawSpidermanEating, 23, "spaghetti in", 5);
    assert Text.FoldsToAt(SawSpidermanEating, 23, "spaghetti in", 4);
    assert Text.FoldsToAt(SawSpidermanEating, 23, "spaghetti in", 3);
    assert Text.FoldsToAt(SawSpidermanEating, 23, "spaghetti in", 2);
    assert Text.FoldsToAt(SawSpidermanEating, 23, "spaghetti in", 1);
  }

  /** How the spans of `I saw spiderman eating spaghetti in the city` from 33 on read, case folded. */
  lemma SawSpidermanEatingFoldsAt33()
    ensures Text.FoldsToAt(SawSpidermanEating, 33, "in", 0)
    ensures Text.FoldsToAt(SawSpidermanEating, 33, "in the", 0)
    ensures Text.FoldsToAt(SawSpidermanEating, 33, "in the city", 0)
  {
    assert Text.FoldsToAt(SawSpidermanEating, 33, "in the city", 10);
    assert Text.FoldsToAt(SawSpidermanEating, 33, "in the city", 9);
    assert Text.FoldsToAt(SawSpidermanEating, 33, "in the city", 8);
    assert Text.FoldsToAt(SawSpidermanEating, 33, "in the city", 7);
    assert Text.FoldsToAt(SawSpidermanEating, 33, "in the city", 6);
    assert Text.FoldsToAt(SawSpidermanEating, 33, "in the city", 5);
    assert Text.FoldsToAt(SawSpidermanEating, 33, "in the city", 4);
    assert Text.FoldsToAt(SawSpidermanEating, 33, "in the city", 3);
    assert Text.FoldsToAt(SawSpidermanEating, 33, "in the city", 2);
    assert Text.FoldsToAt(SawSpidermanEating, 33, "in the city", 1);
  }

  /** How the spans of `I saw spiderman eating spaghetti in the city` from 36 on read, case folded. */
  lemma SawSpidermanEatingFoldsAt36()
    ensures Text.FoldsToAt(SawSpidermanEating, 36, "the", 0)
    ensures Text.FoldsToAt(SawSpidermanEating, 36, "the city", 0)
  {
    assert Text.FoldsToAt(SawSpidermanEating, 36, "the city", 7);
    assert Text.FoldsToAt(SawSpidermanEating, 36, "the city", 6);
    assert Text.FoldsToAt(SawSpidermanEating, 36, "the city", 5);
    assert Text.FoldsToAt(SawSpidermanEating, 36, "the city", 4);
    assert Text.FoldsToAt(SawSpidermanEating, 36, "the city", 3);
    assert Text.FoldsToAt(SawSpidermanEating, 36, "the city", 2);
    assert Text.FoldsToAt(SawSpidermanEating, 36, "the city", 1);
  }

  /** How the spans of `I saw spiderman eating spaghetti in the city` from 40 on read, case folded. */
  lemma SawSpidermanEatingFoldsAt40()
    ensures Text.FoldsToAt(SawSpidermanEating, 40, "city", 0)
  {
  }

  /** Where the matches of `I saw spiderman eating spaghetti in the city` sit, and how they are spelled. */
  lemma SawSpidermanEatingLayout()
    ensures WordAligned(SawSpidermanEating, Window(6, 15))
    ensures WordAligned(SawSpidermanEating, Window(23, 32))
    ensures Text.SpellsAt(SawSpidermanEating, 6, "spiderman", 0)
    ensures Text.SpellsAt(SawSpidermanEating, 23, "spaghetti", 0)
  {
  }

  lemma SawSpidermanEatingReads()
    ensures ReadsSawSpidermanEating(SawSpidermanEating)
  {
    forall w | WordAligned(SawSpidermanEating, w)
      ensures w.start in {0, 2, 6, 16, 23, 33, 36, 40} && w.end in {1, 5, 15, 22, 32, 35, 39, 44}
    {
      SawSpidermanEatingWords(w);
    }
    SawSpidermanEatingFoldsAt0();
    SawSpidermanEatingFoldsAt2();
    SawSpidermanEatingFoldsAt6();
    SawSpidermanEatingFoldsAt16();
    SawSpidermanEatingFoldsAt23();
    SawSpidermanEatingFoldsAt33();
    SawSpidermanEatingFoldsAt36();
    SawSpidermanEatingFoldsAt40();
    SawSpidermanEatingLayout();
  }

  // ---------------------------------------------------------------------------
  // Bounds that rule a placement out

  /** Accuracy falls as the distance grows. */
  lemma AccuracyAntitone(k: nat, l: nat, n: nat, m: nat)
    requires n > 0 || m > 0
    requires k <= l
    ensures Accuracy(l, n, m) <= Accuracy(k, n, m)
  {
    var x := Max(n, m) as real;
    var p, q := (k as real) / x, (l as real) / x;
    assert p * x == k as real && q * x == l as real;
    if q < p {
      assert q * x < p * x;
    }
  }

  /** A distance of `k` brings the accuracy down to `d` tenths once `k` is `1 - d/10` of the longer length. */
  lemma AccuracyAtMostTenths(k: nat, n: nat, m: nat, d: nat)
    requires n > 0 || m > 0
    requires d <= 10 && (10 - d) * Max(n, m) <= 10 * k
    ensures Accuracy(k, n, m) <= d as real / 10.0
  {
    var c: int, l: nat := 10 - d, Max(n, m);
    assert (c * l) as real == c as real * l as real;
    TenthsStep(k as real, l as real, d as real);
  }

  lemma TenthsStep(k: real, l: real, d: real)
    requires l > 0.0 && (10.0 - d) * l <= 10.0 * k
    ensures 1.0 - k / l <= d / 10.0
  {
    var q := k / l;
    assert q * l == k;
    var e := (10.0 - d) - 10.0 * q;
    assert e * l <= 0.0;
  }

  /**
   * `k` characters have no partner: characters of the span text `a` that
   * occur nowhere in the folded text `b`, or, `fromText`, the other way round.
   */
  predicate Unpartnered(a: string, b: string, k: nat, fromText: bool) {
    if fromText then k <= UnmatchedBound(b, a) else k <= UnmatchedBound(a, b)
  }

  /**
   * The span of `u` at `s` that lower-cases to `a` is at least `k` edits
   * from a text `t` that lower-cases to `b`, when characters without a
   * partner account for `k` edits.
   */
  lemma SpanAtLeast(u: string, s: nat, a: string, t: string, b: string, k: nat, fromText: bool)
    requires s + |a| <= |u| && Text.FoldsToAt(u, s, a, 0)
    requires |t| == |b| && Text.FoldsToAt(t, 0, b, 0)
    requires Unpartnered(a, b, k, fromText)
    ensures k <= Levenshtein(Text.Lower(u[s..s + |a|]), Text.Lower(t))
    ensures k <= SpanDistance(Text.Lower(u), Text.Lower(t), Window(s, s + |a|))
  {
    Text.FoldsToSlice(u, s, a);
    Text.FoldsToWhole(t, b);
    if fromText {
      LevenshteinAtLeastUnmatchedOfSecond(a, b);
    } else {
      LevenshteinAtLeastUnmatched(a, b);
    }
    FoldedSpanDistance(u, t, Window(s, s + |a|));
  }

  /** An occurrence of `t` placed on that span has at least that distance. */
  lemma OccurrenceAtLeast(u: string, o: EntityOccurrence, s: nat, a: string, t: string, b: string, k: nat, fromText: bool)
    requires Placed(u, o) && o.start == s && o.end == s + |a| && o.sourceText == t
    requires s + |a| <= |u| && Text.FoldsToAt(u, s, a, 0)
    requires |t| == |b| && Text.FoldsToAt(t, 0, b, 0)
    requires Unpartnered(a, b, k, fromText)
    requires o.levenshtein == Levenshtein(Text.Lower(o.utteranceText), Text.Lower(o.sourceText))
    ensures k <= o.levenshtein
  {
    SpanAtLeast(u, s, a, t, b, k, fromText);
    assert o.utteranceText == u[s..s + |a|];
  }

  /**
   * A span text `a` is far apart from a registered text `t`, which folds
   * to `b`: `k` of their characters have no partner, and `k` edits
   * already bring the accuracy down to `d` tenths.
   */
  predicate FarApart(a: string, t: string, b: string, k: nat, d: nat, fromText: bool) {
    && |a| > 0 && |t| == |b| && Text.FoldsToAt(t, 0, b, 0)
    && Unpartnered(a, b, k, fromText)
    && d <= 10 && (10 - d) * Max(|b|, |a|) <= 10 * k
  }

  /** An occurrence of `t` placed on a span far apart from it does not score above `d` tenths. */
  lemma Unscored(u: string, d: nat, o: EntityOccurrence, s: nat, a: string, t: string, b: string, k: nat, fromText: bool)
    requires Placed(u, o) && o.start == s && o.end == s + |a| && o.sourceText == t
    requires s + |a| <= |u| && Text.FoldsToAt(u, s, a, 0)
    requires FarApart(a, t, b, k, d, fromText)
    ensures !Scored(d as real / 10.0, o)
  {
    if Scored(d as real / 10.0, o) {
      OccurrenceAtLeast(u, o, s, a, t, b, k, fromText);
      AccuracyAntitone(k, o.levenshtein, |b|, |a|);
      AccuracyAtMostTenths(k, |b|, |a|, d);
    }
  }

  /** Two occurrences that are each their own text's match. */
  lemma OwnPair(u: string, words: seq<Window>, th: real, c0: EntityOccurrence, c1: EntityOccurrence)
    requires forall k :: 0 <= k < |words| ==> IsWord(u, words[k].start, words[k].end)
    requires MatchText(u, words, c0.entity, c0.option, c0.sourceText, th) == Some(c0)
    requires MatchText(u, words, c1.entity, c1.option, c1.sourceText, th) == Some(c1)
    ensures OwnMatches(u, words, th, [c0, c1])
  {
  }

  /**
   * A text whose folded form `a` sits on whole words at `s`, and on no
   * earlier run of whole words of its length, is matched exactly there.
   */
  lemma ExactSpan(u: string, entity: string, option: string, t: string, th: real, s: nat, a: string)
    requires th < 1.0
    requires s + |a| <= |u| && WordAligned(u, Window(s, s + |a|))
    requires Text.FoldsToAt(u, s, a, 0) && |t| == |a| && Text.FoldsToAt(t, 0, a, 0)
    requires forall w {:trigger Text.Lower(u[w.start..w.end])} ::
      WordAligned(u, w) && w.start < s && w.end == w.start + |a| ==> Text.Lower(u[w.start..w.end]) != a
    ensures var m := MatchText(u, Words(u), entity, option, t, th);
      m.Some? && m.value.start == s && m.value.end == s + |a| &&
      m.value.levenshtein == 0 && m.value.accuracy == 1.0
  {
    Text.FoldsToSlice(u, s, a);
    Text.FoldsToWhole(t, a);
    ExactTextMatched(u, entity, option, t, th, Window(s, s + |a|));
    var m := MatchText(u, Words(u), entity, option, t, th);
    ExactPlacement(u, m.value, s, a);
  }

  /** A placed occurrence that reads `a`, starting no later than `s`, where no earlier run of whole words does, starts at `s`. */
  lemma ExactPlacement(u: string, c: EntityOccurrence, s: nat, a: string)
    requires Placed(u, c) && c.start <= s && Text.Lower(c.utteranceText) == a
    requires forall w {:trigger Text.Lower(u[w.start..w.end])} ::
      WordAligned(u, w) && w.start < s && w.end == w.start + |a| ==> Text.Lower(u[w.start..w.end]) != a
    ensures c.start == s && c.end == s + |a|
  {
    assert |c.utteranceText| == |a| && c.end == c.start + |a|;
    assert Text.Lower(u[c.start..c.end]) == a;
    if c.start < s {
      assert false;
    }
  }

  /** An exact match placed at `s` over `raw` is the occurrence built from those. */
  lemma ExactOccurrence(u: string, entity: string, option: string, t: string, th: real, s: nat, raw: string)
    requires var m := MatchText(u, Words(u), entity, option, t, th);
      m.Some? && m.value.start == s && m.value.end == s + |raw| &&
      m.value.levenshtein == 0 && m.value.accuracy == 1.0
    requires s + |raw| <= |u| && Text.SpellsAt(u, s, raw, 0)
    ensures MatchText(u, Words(u), entity, option, t, th) ==
      Some(EntityOccurrence(s, s + |raw|, 0, 1.0, entity, option, t, raw))
  {
    var m := MatchText(u, Words(u), entity, option, t, th);
    OccurrenceIs(m.value, u, s, raw, entity, option, t);
  }

  /** An occurrence is determined by its fields. */
  lemma OccurrenceIs(c: EntityOccurrence, u: string, s: nat, raw: string, entity: string, option: string, t: string)
    requires c.start == s && c.end == s + |raw| <= |u| && c.levenshtein == 0 && c.accuracy == 1.0
    requires c.entity == entity && c.option == option && c.sourceText == t
    requires c.utteranceText == u[c.start..c.end] && Text.SpellsAt(u, s, raw, 0)
    ensures c == EntityOccurrence(s, s + |raw|, 0, 1.0, entity, option, t, raw)
  {
    Text.SpellsSlice(u, s, raw);
  }

  // ---------------------------------------------------------------------------
  // Settling every registered text

  /**
   * A match that starts with the first reported occurrence, scores below
   * it and ends before the next one is accounted for.
   */
  lemma UnderFirst(ms: seq<EntityOccurrence>, c: Option<EntityOccurrence>)
    requires |ms| > 0 && Chain(ms) && NonEmptySpans(ms)
    requires c.Some? ==> ms[0].start == c.value.start < c.value.end && c.value.accuracy < ms[0].accuracy
    requires c.Some? ==> forall q :: 0 < q < |ms| ==> c.value.end <= ms[q].start
    ensures AccountedFor(ms, c)
  {
    if c.Some? {
      assert ms[0] in ms && Overlap(c.value, ms[0]);
      forall m | m in ms && Overlap(c.value, m) ensures Precedes(m, c.value) {
        var q :| 0 <= q < |ms| && ms[q] == m;
      }
    }
  }

  /** The finder's result, with the registered texts taken by position. */
  lemma FindEntitiesByIndex(entities: seq<NamedEntity>, threshold: real, u: string, locale: string,
                            ms: seq<EntityOccurrence>)
    requires Chain(ms) && NonEmptySpans(ms)
    requires forall m :: m in ms ==> IsSurfaceText(entities, m.entity, m.option, locale, m.sourceText)
    requires OwnMatches(u, Words(u), threshold, ms)
    requires forall i, j, k :: (0 <= i < |entities| && 0 <= j < |entities[i].options| &&
      0 <= k < |Bucket(entities[i].options[j].texts, locale)|) ==>
      AccountedFor(ms, MatchText(u, Words(u), entities[i].name, entities[i].options[j].name,
                                 Bucket(entities[i].options[j].texts, locale)[k], threshold))
    ensures FindEntities(entities, threshold, u, locale) == ms
  {
    forall i, j, t | 0 <= i < |entities| && 0 <= j < |entities[i].options| &&
      t in Bucket(entities[i].options[j].texts, locale)
      ensures AccountedFor(ms, MatchText(u, Words(u), entities[i].name, entities[i].options[j].name, t, threshold))
    {
      var texts := Bucket(entities[i].options[j].texts, locale);
      var k :| 0 <= k < |texts| && texts[k] == t;
    }
    FindEntitiesExactly(entities, threshold, u, locale, ms);
  }

  // ---------------------------------------------------------------------------
  // Spans too far from a registered text: the count of characters without a
  // partner, from the last position back to the first

  lemma SpidermanFarFromInTheCityLate()
    ensures Unmatched("in the city", "spiderman", 5) == 4
  {
    var x, y := "in the city", "spiderman";
    assert Unmatched(x, y, 10) == 1;
    assert Unmatched(x, y, 9) == 2;
    assert Unmatched(x, y, 8) == 2;
    assert Unmatched(x, y, 7) == 3;
    assert Unmatched(x, y, 6) == 4;
    assert Unmatched(x, y, 5) == 4;
  }

  lemma SpidermanFarFromInTheCityCount()
    ensures Unmatched("in the city", "spiderman", 0) == 7
  {
    var x, y := "in the city", "spiderman";
    SpidermanFarFromInTheCityLate();
    assert Unmatched(x, y, 4) == 5;
    assert Unmatched(x, y, 3) == 6;
    assert Unmatched(x, y, 2) == 7;
    assert Unmatched(x, y, 1) == 7;
    assert Unmatched(x, y, 0) == 7;
  }

  lemma SpidermanFarFromInTheCity()
    ensures Unpartnered("in the city", "spiderman", 2, false)
    ensures FarApart("in the city", "Spiderman", "spiderman", 3, 8, false)
  {
    SpidermanFarFromInTheCityCount();
  }

  lemma SpidermanFarFromSperermanLate()
    ensures Unmatched("spiderman", "spererman", 4) == 0
  {
    var x, y := "spiderman", "spererman";
    assert Unmatched(x, y, 8) == 0;
    assert Unmatched(x, y, 7) == 0;
    assert Unmatched(x, y, 6) == 0;
    assert Unmatched(x, y, 5) == 0;
    assert Unmatched(x, y, 4) == 0;
  }

  lemma SpidermanFarFromSperermanCount()
    ensures Unmatched("spiderman", "spererman", 0) == 2
  {
    var x, y := "spiderman", "spererman";
    SpidermanFarFromSperermanLate();
    assert Unmatched(x, y, 3) == 1;
    assert Unmatched(x, y, 2) == 2;
    assert Unmatched(x, y, 1) == 2;
    assert Unmatched(x, y, 0) == 2;
  }

  lemma SpidermanFarFromSpererman()
    ensures FarApart("spererman", "Spiderman", "spiderman", 2, 8, true)
  {
    SpidermanFarFromSperermanCount();
  }

  lemma SpidermanFarFromTheCityLate()
    ensures Unmatched("the city", "spiderman", 4) == 3
  {
    var x, y := "the city", "spiderman";
    assert Unmatched(x, y, 7) == 1;
    assert Unmatched(x, y, 6) == 2;
    assert Unmatched(x, y, 5) == 2;
    assert Unmatched(x, y, 4) == 3;
  }

  lemma SpidermanFarFromTheCityCount()
    ensures Unmatched("the city", "spiderman", 0) == 6
  {
    var x, y := "the city", "spiderman";
    SpidermanFarFromTheCityLate();
    assert Unmatched(x, y, 3) == 4;
    assert Unmatched(x, y, 2) == 4;
    assert Unmatched(x, y, 1) == 5;
    assert Unmatched(x, y, 0) == 6;
  }

  lemma SpidermanFarFromTheCity()
    ensures Unpartnered("the city", "spiderman", 2, false)
    ensures FarApart("the city", "Spiderman", "spiderman", 2, 8, false)
  {
    SpidermanFarFromTheCityCount();
  }

  lemma SpiderHyphenManFarFromInTheCityLate()
    ensures Unmatched("in the city", "spider-man", 5) == 4
  {
    var x, y := "in the city", "spider-man";
    assert Unmatched(x, y, 10) == 1;
    assert Unmatched(x, y, 9) == 2;
    assert Unmatched(x, y, 8) == 2;
    assert Unmatched(x, y, 7) == 3;
    assert Unmatched(x, y, 6) == 4;
    assert Unmatched(x, y, 5) == 4;
  }

  lemma SpiderHyphenManFarFromInTheCityCount()
    ensures Unmatched("in the city", "spider-man", 0) == 7
  {
    var x, y := "in the city", "spider-man";
    SpiderHyphenManFarFromInTheCityLate();
    assert Unmatched(x, y, 4) == 5;
    assert Unmatched(x, y, 3) == 6;
    assert Unmatched(x, y, 2) == 7;
    assert Unmatched(x, y, 1) == 7;
    assert Unmatched(x, y, 0) == 7;
  }

  lemma SpiderHyphenManFarFromInTheCity()
    ensures FarApart("in the city", "Spider-man", "spider-man", 6, 5, false)
    ensures FarApart("in the city", "Spider-man", "spider-man", 3, 8, false)
  {
    SpiderHyphenManFarFromInTheCityCount();
  }

  lemma SpiderHyphenManFarFromSpaghettiLate()
    ensures Unmatched("spaghetti", "spider-man", 4) == 3
  {
    var x, y := "spaghetti", "spider-man";
    assert Unmatched(x, y, 8) == 0;
    assert Unmatched(x, y, 7) == 1;
    assert Unmatched(x, y, 6) == 2;
    assert Unmatched(x, y, 5) == 2;
    assert Unmatched(x, y, 4) == 3;
  }

  lemma SpiderHyphenManFarFromSpaghettiCount()
    ensures Unmatched("spaghetti", "spider-man", 0) == 4
  {
    var x, y := "spaghetti", "spider-man";
    SpiderHyphenManFarFromSpaghettiLate();
    assert Unmatched(x, y, 3) == 4;
    assert Unmatched(x, y, 2) == 4;
    assert Unmatched(x, y, 1) == 4;
    assert Unmatched(x, y, 0) == 4;
  }

  lemma SpiderHyphenManFarFromSpaghetti()
    ensures FarApart("spaghetti", "Spider-man", "spider-man", 5, 5, false)
  {
    SpiderHyphenManFarFromSpaghettiCount();
  }

  lemma SpiderHyphenManFarFromSpaghettiInLate()
    ensures Unmatched("spider-man", "spaghetti in", 5) == 3
  {
    var x, y := "spider-man", "spaghetti in";
    assert Unmatched(x, y, 9) == 0;
    assert Unmatched(x, y, 8) == 0;
    assert Unmatched(x, y, 7) == 1;
    assert Unmatched(x, y, 6) == 2;
    assert Unmatched(x, y, 5) == 3;
  }

  lemma SpiderHyphenManFarFromSpaghettiInCount()
    ensures Unmatched("spider-man", "spaghetti in", 0) == 4
  {
    var x, y := "spider-man", "spaghetti in";
    SpiderHyphenManFarFromSpaghettiInLate();
    assert Unmatched(x, y, 4) == 3;
    assert Unmatched(x, y, 3) == 4;
    assert Unmatched(x, y, 2) == 4;
    assert Unmatched(x, y, 1) == 4;
    assert Unmatched(x, y, 0) == 4;
  }

  lemma SpiderHyphenManFarFromSpaghettiIn()
    ensures FarApart("spaghetti in", "Spider-man", "spider-man", 6, 5, true)
  {
    SpiderHyphenManFarFromSpaghettiInCount();
  }

  lemma SpiderHyphenManFarFromSpedermanLate()
    ensures Unmatched("spider-man", "spederman", 5) == 1
  {
    var x, y := "spider-man", "spederman";
    assert Unmatched(x, y, 9) == 0;
    assert Unmatched(x, y, 8) == 0;
    assert Unmatched(x, y, 7) == 0;
    assert Unmatched(x, y, 6) == 1;
    assert Unmatched(x, y, 5) == 1;
  }

  lemma SpiderHyphenManFarFromSpedermanCount()
    ensures Unmatched("spider-man", "spederman", 0) == 2
  {
    var x, y := "spider-man", "spederman";
    SpiderHyphenManFarFromSpedermanLate();
    assert Unmatched(x, y, 4) == 1;
    assert Unmatched(x, y, 3) == 1;
    assert Unmatched(x, y, 2) == 2;
    assert Unmatched(x, y, 1) == 2;
    assert Unmatched(x, y, 0) == 2;
  }

  lemma SpiderHyphenManFarFromSpederman()
    ensures FarApart("spederman", "Spider-man", "spider-man", 2, 8, true)
  {
    SpiderHyphenManFarFromSpedermanCount();
  }

  lemma SpiderHyphenManFarFromSpedermanInLate()
    ensures Unmatched("spider-man", "spederman in", 5) == 1
  {
    var x, y := "spider-man", "spederman in";
    assert Unmatched(x, y, 9) == 0;
    assert Unmatched(x, y, 8) == 0;
    assert Unmatched(x, y, 7) == 0;
    assert Unmatched(x, y, 6) == 1;
    assert Unmatched(x, y, 5) == 1;
  }

  lemma SpiderHyphenManFarFromSpedermanInCount()
    ensures Unmatched("spider-man", "spederman in", 0) == 1
  {
    var x, y := "spider-man", "spederman in";
    SpiderHyphenManFarFromSpedermanInLate();
    assert Unmatched(x, y, 4) == 1;
    assert Unmatched(x, y, 3) == 1;
    assert Unmatched(x, y, 2) == 1;
    assert Unmatched(x, y, 1) == 1;
    assert Unmatched(x, y, 0) == 1;
  }

  lemma SpiderHyphenManFarFromSpedermanIn()
    ensures FarApart("spederman in", "Spider-man", "spider-man", 3, 8, true)
  {
    SpiderHyphenManFarFromSpedermanInCount();
  }

  lemma SpiderHyphenManFarFromSperermanLate()
    ensures Unmatched("spider-man", "spererman", 5) == 1
  {
    var x, y := "spider-man", "spererman";
    assert Unmatched(x, y, 9) == 0;
    assert Unmatched(x, y, 8) == 0;
    assert Unmatched(x, y, 7) == 0;
    assert Unmatched(x, y, 6) == 1;
    assert Unmatched(x, y, 5) == 1;
  }

  lemma SpiderHyphenManFarFromSperermanCount()
    ensures Unmatched("spider-man", "spererman", 0) == 3
  {
    var x, y := "spider-man", "spererman";
    SpiderHyphenManFarFromSperermanLate();
    assert Unmatched(x, y, 4) == 1;
    assert Unmatched(x, y, 3) == 2;
    assert Unmatched(x, y, 2) == 3;
    assert Unmatched(x, y, 1) == 3;
    assert Unmatched(x, y, 0) == 3;
  }

  lemma SpiderHyphenManFarFromSpererman()
    ensures FarApart("spererman", "Spider-man", "spider-man", 2, 8, true)
  {
    SpiderHyphenManFarFromSperermanCount();
  }

  lemma SpiderHyphenManFarFromSperermanInLate()
    ensures Unmatched("spider-man", "spererman in", 5) == 1
  {
    var x, y := "spider-man", "spererman in";
    assert Unmatched(x, y, 9) == 0;
    assert Unmatched(x, y, 8) == 0;
    assert Unmatched(x, y, 7) == 0;
    assert Unmatched(x, y, 6) == 1;
    assert Unmatched(x, y, 5) == 1;
  }

  lemma SpiderHyphenManFarFromSperermanInCount()
    ensures Unmatched("spider-man", "spererman in", 0) == 2
  {
    var x, y := "spider-man", "spererman in";
    SpiderHyphenManFarFromSperermanInLate();
    assert Unmatched(x, y, 4) == 1;
    assert Unmatched(x, y, 3) == 2;
    assert Unmatched(x, y, 2) == 2;
    assert Unmatched(x, y, 1) == 2;
    assert Unmatched(x, y, 0) == 2;
  }

  lemma SpiderHyphenManFarFromSperermanIn()
    ensures FarApart("spererman in", "Spider-man", "spider-man", 3, 8, true)
  {
    SpiderHyphenManFarFromSperermanInCount();
  }

  lemma SpiderHyphenManFarFromTheCityLate()
    ensures Unmatched("the city", "spider-man", 4) == 3
  {
    var x, y := "the city", "spider-man";
    assert Unmatched(x, y, 7) == 1;
    assert Unmatched(x, y, 6) == 2;
    assert Unmatched(x, y, 5) == 2;
    assert Unmatched(x, y, 4) == 3;
  }

  lemma SpiderHyphenManFarFromTheCityCount()
    ensures Unmatched("the city", "spider-man", 0) == 6
  {
    var x, y := "the city", "spider-man";
    SpiderHyphenManFarFromTheCityLate();
    assert Unmatched(x, y, 3) == 4;
    assert Unmatched(x, y, 2) == 4;
    assert Unmatched(x, y, 1) == 5;
    assert Unmatched(x, y, 0) == 6;
  }

  lemma SpiderHyphenManFarFromTheCity()
    ensures FarApart("the city", "Spider-man", "spider-man", 5, 5, false)
    ensures FarApart("the city", "Spider-man", "spider-man", 2, 8, false)
  {
    SpiderHyphenManFarFromTheCityCount();
  }

  lemma IronManFarFromEating()
    ensures FarApart("eating", "iron man", "iron man", 4, 5, false)
  {
    var x, y := "eating", "iron man";
    assert Unmatched(x, y, 5) == 1;
    assert Unmatched(x, y, 4) == 1;
    assert Unmatched(x, y, 3) == 1;
    assert Unmatched(x, y, 2) == 2;
    assert Unmatched(x, y, 1) == 2;
    assert Unmatched(x, y, 0) == 3;
  }

  lemma IronManFarFromInThe()
    ensures FarApart("in the", "iron man", "iron man", 4, 5, false)
    ensures FarApart("in the", "iron man", "iron man", 2, 8, false)
  {
    var x, y := "in the", "iron man";
    assert Unmatched(x, y, 5) == 1;
    assert Unmatched(x, y, 4) == 2;
    assert Unmatched(x, y, 3) == 3;
    assert Unmatched(x, y, 2) == 3;
    assert Unmatched(x, y, 1) == 3;
    assert Unmatched(x, y, 0) == 3;
  }

  lemma IronManFarFromSpaghettiLate()
    ensures Unmatched("spaghetti", "iron man", 4) == 4
  {
    var x, y := "spaghetti", "iron man";
    assert Unmatched(x, y, 8) == 0;
    assert Unmatched(x, y, 7) == 1;
    assert Unmatched(x, y, 6) == 2;
    assert Unmatched(x, y, 5) == 3;
    assert Unmatched(x, y, 4) == 4;
  }

  lemma IronManFarFromSpaghettiCount()
    ensures Unmatched("spaghetti", "iron man", 0) == 7
  {
    var x, y := "spaghetti", "iron man";
    IronManFarFromSpaghettiLate();
    assert Unmatched(x, y, 3) == 5;
    assert Unmatched(x, y, 2) == 5;
    assert Unmatched(x, y, 1) == 6;
    assert Unmatched(x, y, 0) == 7;
  }

  lemma IronManFarFromSpaghetti()
    ensures FarApart("spaghetti", "iron man", "iron man", 5, 5, false)
  {
    IronManFarFromSpaghettiCount();
  }

  lemma IronManFarFromSpedermanLate()
    ensures Unmatched("spederman", "iron man", 4) == 1
  {
    var x, y := "spederman", "iron man";
    assert Unmatched(x, y, 8) == 0;
    assert Unmatched(x, y, 7) == 0;
    assert Unmatched(x, y, 6) == 0;
    assert Unmatched(x, y, 5) == 0;
    assert Unmatched(x, y, 4) == 1;
  }

  lemma IronManFarFromSpedermanCount()
    ensures Unmatched("spederman", "iron man", 0) == 5
  {
    var x, y := "spederman", "iron man";
    IronManFarFromSpedermanLate();
    assert Unmatched(x, y, 3) == 2;
    assert Unmatched(x, y, 2) == 3;
    assert Unmatched(x, y, 1) == 4;
    assert Unmatched(x, y, 0) == 5;
  }

  lemma IronManFarFromSpederman()
    ensures FarApart("spederman", "iron man", "iron man", 2, 8, false)
  {
    IronManFarFromSpedermanCount();
  }

  lemma IronManFarFromSperermanLate()
    ensures Unmatched("spererman", "iron man", 4) == 1
  {
    var x, y := "spererman", "iron man";
    assert Unmatched(x, y, 8) == 0;
    assert Unmatched(x, y, 7) == 0;
    assert Unmatched(x, y, 6) == 0;
    assert Unmatched(x, y, 5) == 0;
    assert Unmatched(x, y, 4) == 1;
  }

  lemma IronManFarFromSperermanCount()
    ensures Unmatched("spererman", "iron man", 0) == 4
  {
    var x, y := "spererman", "iron man";
    IronManFarFromSperermanLate();
    assert Unmatched(x, y, 3) == 1;
    assert Unmatched(x, y, 2) == 2;
    assert Unmatched(x, y, 1) == 3;
    assert Unmatched(x, y, 0) == 4;
  }

  lemma IronManFarFromSpererman()
    ensures FarApart("spererman", "iron man", "iron man", 2, 8, false)
  {
    IronManFarFromSperermanCount();
  }

  lemma IronManFarFromTheCityLate()
    ensures Unmatched("the city", "iron man", 4) == 3
  {
    var x, y := "the city", "iron man";
    assert Unmatched(x, y, 7) == 1;
    assert Unmatched(x, y, 6) == 2;
    assert Unmatched(x, y, 5) == 2;
    assert Unmatched(x, y, 4) == 3;
  }

  lemma IronManFarFromTheCityCount()
    ensures Unmatched("the city", "iron man", 0) == 6
  {
    var x, y := "the city", "iron man";
    IronManFarFromTheCityLate();
    assert Unmatched(x, y, 3) == 3;
    assert Unmatched(x, y, 2) == 4;
    assert Unmatched(x, y, 1) == 5;
    assert Unmatched(x, y, 0) == 6;
  }

  lemma IronManFarFromTheCity()
    ensures FarApart("the city", "iron man", "iron man", 4, 5, false)
    ensures FarApart("the city", "iron man", "iron man", 2, 8, false)
  {
    IronManFarFromTheCityCount();
  }

  lemma IronHyphenManFarFromEating()
    ensures FarApart("eating", "iron-man", "iron-man", 4, 5, false)
  {
    var x, y := "eating", "iron-man";
    assert Unmatched(x, y, 5) == 1;
    assert Unmatched(x, y, 4) == 1;
    assert Unmatched(x, y, 3) == 1;
    assert Unmatched(x, y, 2) == 2;
    assert Unmatched(x, y, 1) == 2;
    assert Unmatched(x, y, 0) == 3;
  }

  lemma IronHyphenManFarFromInThe()
    ensures FarApart("in the", "iron-man", "iron-man", 4, 5, false)
    ensures FarApart("in the", "iron-man", "iron-man", 2, 8, false)
  {
    var x, y := "in the", "iron-man";
    assert Unmatched(x, y, 5) == 1;
    assert Unmatched(x, y, 4) == 2;
    assert Unmatched(x, y, 3) == 3;
    assert Unmatched(x, y, 2) == 4;
    assert Unmatched(x, y, 1) == 4;
    assert Unmatched(x, y, 0) == 4;
  }

  lemma IronHyphenManFarFromSpaghettiLate()
    ensures Unmatched("spaghetti", "iron-man", 4) == 4
  {
    var x, y := "spaghetti", "iron-man";
    assert Unmatched(x, y, 8) == 0;
    assert Unmatched(x, y, 7) == 1;
    assert Unmatched(x, y, 6) == 2;
    assert Unmatched(x, y, 5) == 3;
    assert Unmatched(x, y, 4) == 4;
  }

  lemma IronHyphenManFarFromSpaghettiCount()
    ensures Unmatched("spaghetti", "iron-man", 0) == 7
  {
    var x, y := "spaghetti", "iron-man";
    IronHyphenManFarFromSpaghettiLate();
    assert Unmatched(x, y, 3) == 5;
    assert Unmatched(x, y, 2) == 5;
    assert Unmatched(x, y, 1) == 6;
    assert Unmatched(x, y, 0) == 7;
  }

  lemma IronHyphenManFarFromSpaghetti()
    ensures FarApart("spaghetti", "iron-man", "iron-man", 5, 5, false)
  {
    IronHyphenManFarFromSpaghettiCount();
  }

  lemma IronHyphenManFarFromSpedermanLate()
    ensures Unmatched("spederman", "iron-man", 4) == 1
  {
    var x, y := "spederman", "iron-man";
    assert Unmatched(x, y, 8) == 0;
    assert Unmatched(x, y, 7) == 0;
    assert Unmatched(x, y, 6) == 0;
    assert Unmatched(x, y, 5) == 0;
    assert Unmatched(x, y, 4) == 1;
  }

  lemma IronHyphenManFarFromSpedermanCount()
    ensures Unmatched("spederman", "iron-man", 0) == 5
  {
    var x, y := "spederman", "iron-man";
    IronHyphenManFarFromSpedermanLate();
    assert Unmatched(x, y, 3) == 2;
    assert Unmatched(x, y, 2) == 3;
    assert Unmatched(x, y, 1) == 4;
    assert Unmatched(x, y, 0) == 5;
  }

  lemma IronHyphenManFarFromSpederman()
    ensures FarApart("spederman", "iron-man", "iron-man", 2, 8, false)
  {
    IronHyphenManFarFromSpedermanCount();
  }

  lemma IronHyphenManFarFromSperermanLate()
    ensures Unmatched("spererman", "iron-man", 4) == 1
  {
    var x, y := "spererman", "iron-man";
    assert Unmatched(x, y, 8) == 0;
    assert Unmatched(x, y, 7) == 0;
    assert Unmatched(x, y, 6) == 0;
    assert Unmatched(x, y, 5) == 0;
    assert Unmatched(x, y, 4) == 1;
  }

  lemma IronHyphenManFarFromSperermanCount()
    ensures Unmatched("spererman", "iron-man", 0) == 4
  {
    var x, y := "spererman", "iron-man";
    IronHyphenManFarFromSperermanLate();
    assert Unmatched(x, y, 3) == 1;
    assert Unmatched(x, y, 2) == 2;
    assert Unmatched(x, y, 1) == 3;
    assert Unmatched(x, y, 0) == 4;
  }

  lemma IronHyphenManFarFromSpererman()
    ensures FarApart("spererman", "iron-man", "iron-man", 2, 8, false)
  {
    IronHyphenManFarFromSperermanCount();
  }

  lemma IronHyphenManFarFromTheCityLate()
    ensures Unmatched("the city", "iron-man", 4) == 3
  {
    var x, y := "the city", "iron-man";
    assert Unmatched(x, y, 7) == 1;
    assert Unmatched(x, y, 6) == 2;
    assert Unmatched(x, y, 5) == 2;
    assert Unmatched(x, y, 4) == 3;
  }

  lemma IronHyphenManFarFromTheCityCount()
    ensures Unmatched("the city", "iron-man", 0) == 7
  {
    var x, y := "the city", "iron-man";
    IronHyphenManFarFromTheCityLate();
    assert Unmatched(x, y, 3) == 4;
    assert Unmatched(x, y, 2) == 5;
    assert Unmatched(x, y, 1) == 6;
    assert Unmatched(x, y, 0) == 7;
  }

  lemma IronHyphenManFarFromTheCity()
    ensures FarApart("the city", "iron-man", "iron-man", 4, 5, false)
    ensures FarApart("the city", "iron-man", "iron-man", 2, 8, false)
  {
    IronHyphenManFarFromTheCityCount();
  }

  lemma ThorFarFromCity()
    ensures FarApart("city", "Thor", "thor", 2, 5, false)
    ensures FarApart("city", "Thor", "thor", 1, 8, false)
  {
    var x, y := "city", "thor";
    assert Unmatched(x, y, 3) == 1;
    assert Unmatched(x, y, 2) == 1;
    assert Unmatched(x, y, 1) == 2;
    assert Unmatched(x, y, 0) == 3;
  }

  lemma ThorFarFromEating()
    ensures FarApart("eating", "Thor", "thor", 3, 5, false)
  {
    var x, y := "eating", "thor";
    assert Unmatched(x, y, 5) == 1;
    assert Unmatched(x, y, 4) == 2;
    assert Unmatched(x, y, 3) == 3;
    assert Unmatched(x, y, 2) == 3;
    assert Unmatched(x, y, 1) == 4;
    assert Unmatched(x, y, 0) == 5;
  }

  lemma ThorFarFromISaw()
    ensures FarApart("i saw", "Thor", "thor", 3, 5, false)
    ensures FarApart("i saw", "Thor", "thor", 1, 8, false)
  {
    var x, y := "i saw", "thor";
    assert Unmatched(x, y, 4) == 1;
    assert Unmatched(x, y, 3) == 2;
    assert Unmatched(x, y, 2) == 3;
    assert Unmatched(x, y, 1) == 4;
    assert Unmatched(x, y, 0) == 5;
  }

  lemma ThorFarFromIn()
    ensures FarApart("in", "Thor", "thor", 2, 5, false)
    ensures FarApart("in", "Thor", "thor", 1, 8, false)
  {
    var x, y := "in", "thor";
    assert Unmatched(x, y, 1) == 1;
    assert Unmatched(x, y, 0) == 2;
  }

  lemma ThorFarFromInThe()
    ensures FarApart("in the", "Thor", "thor", 3, 5, false)
    ensures FarApart("in the", "Thor", "thor", 2, 8, false)
  {
    var x, y := "in the", "thor";
    assert Unmatched(x, y, 5) == 1;
    assert Unmatched(x, y, 4) == 1;
    assert Unmatched(x, y, 3) == 1;
    assert Unmatched(x, y, 2) == 2;
    assert Unmatched(x, y, 1) == 3;
    assert Unmatched(x, y, 0) == 4;
  }

  lemma ThorFarFromSaw()
    ensures FarApart("saw", "Thor", "thor", 2, 5, false)
    ensures FarApart("saw", "Thor", "thor", 1, 8, false)
  {
    var x, y := "saw", "thor";
    assert Unmatched(x, y, 2) == 1;
    assert Unmatched(x, y, 1) == 2;
    assert Unmatched(x, y, 0) == 3;
  }

  lemma ThorFarFromThe()
    ensures FarApart("the", "Thor", "thor", 2, 5, false)
    ensures FarApart("the", "Thor", "thor", 1, 8, false)
  {
    var x, y := "the", "thor";
    assert Unmatched(x, y, 2) == 1;
    assert Unmatched(x, y, 1) == 1;
    assert Unmatched(x, y, 0) == 1;
  }

  lemma BurguerFarFromEating()
    ensures FarApart("eating", "Burguer", "burguer", 4, 5, false)
  {
    var x, y := "eating", "burguer";
    assert Unmatched(x, y, 5) == 0;
    assert Unmatched(x, y, 4) == 1;
    assert Unmatched(x, y, 3) == 2;
    assert Unmatched(x, y, 2) == 3;
    assert Unmatched(x, y, 1) == 4;
    assert Unmatched(x, y, 0) == 4;
  }

  lemma BurguerFarFromISaw()
    ensures FarApart("i saw", "Burguer", "burguer", 4, 5, false)
  {
    var x, y := "i saw", "burguer";
    assert Unmatched(x, y, 4) == 1;
    assert Unmatched(x, y, 3) == 2;
    assert Unmatched(x, y, 2) == 3;
    assert Unmatched(x, y, 1) == 4;
    assert Unmatched(x, y, 0) == 5;
  }

  lemma BurguerFarFromInThe()
    ensures FarApart("in the", "Burguer", "burguer", 4, 5, false)
  {
    var x, y := "in the", "burguer";
    assert Unmatched(x, y, 5) == 0;
    assert Unmatched(x, y, 4) == 1;
    assert Unmatched(x, y, 3) == 2;
    assert Unmatched(x, y, 2) == 3;
    assert Unmatched(x, y, 1) == 4;
    assert Unmatched(x, y, 0) == 5;
  }

  lemma BurguerFarFromSpaghettiLate()
    ensures Unmatched("spaghetti", "burguer", 4) == 4
  {
    var x, y := "spaghetti", "burguer";
    assert Unmatched(x, y, 8) == 1;
    assert Unmatched(x, y, 7) == 2;
    assert Unmatched(x, y, 6) == 3;
    assert Unmatched(x, y, 5) == 3;
    assert Unmatched(x, y, 4) == 4;
  }

  lemma BurguerFarFromSpaghettiCount()
    ensures Unmatched("spaghetti", "burguer", 0) == 7
  {
    var x, y := "spaghetti", "burguer";
    BurguerFarFromSpaghettiLate();
    assert Unmatched(x, y, 3) == 4;
    assert Unmatched(x, y, 2) == 5;
    assert Unmatched(x, y, 1) == 6;
    assert Unmatched(x, y, 0) == 7;
  }

  lemma BurguerFarFromSpaghetti()
    ensures FarApart("spaghetti", "Burguer", "burguer", 5, 5, false)
  {
    BurguerFarFromSpaghettiCount();
  }

  lemma BurguerFarFromSpidermanLate()
    ensures Unmatched("spiderman", "burguer", 4) == 3
  {
    var x, y := "spiderman", "burguer";
    assert Unmatched(x, y, 8) == 1;
    assert Unmatched(x, y, 7) == 2;
    assert Unmatched(x, y, 6) == 3;
    assert Unmatched(x, y, 5) == 3;
    assert Unmatched(x, y, 4) == 3;
  }

  lemma BurguerFarFromSpidermanCount()
    ensures Unmatched("spiderman", "burguer", 0) == 7
  {
    var x, y := "spiderman", "burguer";
    BurguerFarFromSpidermanLate();
    assert Unmatched(x, y, 3) == 4;
    assert Unmatched(x, y, 2) == 5;
    assert Unmatched(x, y, 1) == 6;
    assert Unmatched(x, y, 0) == 7;
  }

  lemma BurguerFarFromSpiderman()
    ensures FarApart("spiderman", "Burguer", "burguer", 5, 5, false)
  {
    BurguerFarFromSpidermanCount();
  }

  lemma BurguerFarFromTheCityLate()
    ensures Unmatched("the city", "burguer", 4) == 4
  {
    var x, y := "the city", "burguer";
    assert Unmatched(x, y, 7) == 1;
    assert Unmatched(x, y, 6) == 2;
    assert Unmatched(x, y, 5) == 3;
    assert Unmatched(x, y, 4) == 4;
  }

  lemma BurguerFarFromTheCityCount()
    ensures Unmatched("the city", "burguer", 0) == 7
  {
    var x, y := "the city", "burguer";
    BurguerFarFromTheCityLate();
    assert Unmatched(x, y, 3) == 5;
    assert Unmatched(x, y, 2) == 5;
    assert Unmatched(x, y, 1) == 6;
    assert Unmatched(x, y, 0) == 7;
  }

  lemma BurguerFarFromTheCity()
    ensures FarApart("the city", "Burguer", "burguer", 4, 5, false)
  {
    BurguerFarFromTheCityCount();
  }

  lemma HamburguerFarFromInTheCityLate()
    ensures Unmatched("in the city", "hamburguer", 5) == 5
  {
    var x, y := "in the city", "hamburguer";
    assert Unmatched(x, y, 10) == 1;
    assert Unmatched(x, y, 9) == 2;
    assert Unmatched(x, y, 8) == 3;
    assert Unmatched(x, y, 7) == 4;
    assert Unmatched(x, y, 6) == 5;
    assert Unmatched(x, y, 5) == 5;
  }

  lemma HamburguerFarFromInTheCityCount()
    ensures Unmatched("in the city", "hamburguer", 0) == 9
  {
    var x, y := "in the city", "hamburguer";
    HamburguerFarFromInTheCityLate();
    assert Unmatched(x, y, 4) == 5;
    assert Unmatched(x, y, 3) == 6;
    assert Unmatched(x, y, 2) == 7;
    assert Unmatched(x, y, 1) == 8;
    assert Unmatched(x, y, 0) == 9;
  }

  lemma HamburguerFarFromInTheCity()
    ensures FarApart("in the city", "Hamburguer", "hamburguer", 6, 5, false)
  {
    HamburguerFarFromInTheCityCount();
  }

  lemma HamburguerFarFromSpaghettiLate()
    ensures Unmatched("spaghetti", "hamburguer", 4) == 3
  {
    var x, y := "spaghetti", "hamburguer";
    assert Unmatched(x, y, 8) == 1;
    assert Unmatched(x, y, 7) == 2;
    assert Unmatched(x, y, 6) == 3;
    assert Unmatched(x, y, 5) == 3;
    assert Unmatched(x, y, 4) == 3;
  }

  lemma HamburguerFarFromSpaghettiCount()
    ensures Unmatched("spaghetti", "hamburguer", 0) == 5
  {
    var x, y := "spaghetti", "hamburguer";
    HamburguerFarFromSpaghettiLate();
    assert Unmatched(x, y, 3) == 3;
    assert Unmatched(x, y, 2) == 3;
    assert Unmatched(x, y, 1) == 4;
    assert Unmatched(x, y, 0) == 5;
  }

  lemma HamburguerFarFromSpaghetti()
    ensures FarApart("spaghetti", "Hamburguer", "hamburguer", 5, 5, false)
  {
    HamburguerFarFromSpaghettiCount();
  }

  lemma HamburguerFarFromSpaghettiInLate()
    ensures Unmatched("spaghetti in", "hamburguer", 6) == 6
  {
    var x, y := "spaghetti in", "hamburguer";
    assert Unmatched(x, y, 11) == 1;
    assert Unmatched(x, y, 10) == 2;
    assert Unmatched(x, y, 9) == 3;
    assert Unmatched(x, y, 8) == 4;
    assert Unmatched(x, y, 7) == 5;
    assert Unmatched(x, y, 6) == 6;
  }

  lemma HamburguerFarFromSpaghettiInCount()
    ensures Unmatched("spaghetti in", "hamburguer", 0) == 8
  {
    var x, y := "spaghetti in", "hamburguer";
    HamburguerFarFromSpaghettiInLate();
    assert Unmatched(x, y, 5) == 6;
    assert Unmatched(x, y, 4) == 6;
    assert Unmatched(x, y, 3) == 6;
    assert Unmatched(x, y, 2) == 6;
    assert Unmatched(x, y, 1) == 7;
    assert Unmatched(x, y, 0) == 8;
  }

  lemma HamburguerFarFromSpaghettiIn()
    ensures FarApart("spaghetti in", "Hamburguer", "hamburguer", 6, 5, false)
  {
    HamburguerFarFromSpaghettiInCount();
  }

  lemma HamburguerFarFromSpidermanLate()
    ensures Unmatched("spiderman", "hamburguer", 4) == 1
  {
    var x, y := "spiderman", "hamburguer";
    assert Unmatched(x, y, 8) == 1;
    assert Unmatched(x, y, 7) == 1;
    assert Unmatched(x, y, 6) == 1;
    assert Unmatched(x, y, 5) == 1;
    assert Unmatched(x, y, 4) == 1;
  }

  lemma HamburguerFarFromSpidermanCount()
    ensures Unmatched("spiderman", "hamburguer", 0) == 5
  {
    var x, y := "spiderman", "hamburguer";
    HamburguerFarFromSpidermanLate();
    assert Unmatched(x, y, 3) == 2;
    assert Unmatched(x, y, 2) == 3;
    assert Unmatched(x, y, 1) == 4;
    assert Unmatched(x, y, 0) == 5;
  }

  lemma HamburguerFarFromSpiderman()
    ensures FarApart("spiderman", "Hamburguer", "hamburguer", 5, 5, false)
  {
    HamburguerFarFromSpidermanCount();
  }

  lemma HamburguerFarFromTheCityLate()
    ensures Unmatched("the city", "hamburguer", 4) == 4
  {
    var x, y := "the city", "hamburguer";
    assert Unmatched(x, y, 7) == 1;
    assert Unmatched(x, y, 6) == 2;
    assert Unmatched(x, y, 5) == 3;
    assert Unmatched(x, y, 4) == 4;
  }

  lemma HamburguerFarFromTheCityCount()
    ensures Unmatched("the city", "hamburguer", 0) == 6
  {
    var x, y := "the city", "hamburguer";
    HamburguerFarFromTheCityLate();
    assert Unmatched(x, y, 3) == 5;
    assert Unmatched(x, y, 2) == 5;
    assert Unmatched(x, y, 1) == 5;
    assert Unmatched(x, y, 0) == 6;
  }

  lemma HamburguerFarFromTheCity()
    ensures FarApart("the city", "Hamburguer", "hamburguer", 5, 5, false)
  {
    HamburguerFarFromTheCityCount();
  }

  lemma PizzaFarFromCity()
    ensures FarApart("city", "pizza", "pizza", 3, 5, false)
  {
    var x, y := "city", "pizza";
    assert Unmatched(x, y, 3) == 1;
    assert Unmatched(x, y, 2) == 2;
    assert Unmatched(x, y, 1) == 2;
    assert Unmatched(x, y, 0) == 3;
  }

  lemma PizzaFarFromEating()
    ensures FarApart("eating", "pizza", "pizza", 3, 5, false)
  {
    var x, y := "eating", "pizza";
    assert Unmatched(x, y, 5) == 1;
    assert Unmatched(x, y, 4) == 2;
    assert Unmatched(x, y, 3) == 2;
    assert Unmatched(x, y, 2) == 3;
    assert Unmatched(x, y, 1) == 3;
    assert Unmatched(x, y, 0) == 4;
  }

  lemma PizzaFarFromISaw()
    ensures FarApart("i saw", "pizza", "pizza", 3, 5, false)
  {
    var x, y := "i saw", "pizza";
    assert Unmatched(x, y, 4) == 1;
    assert Unmatched(x, y, 3) == 1;
    assert Unmatched(x, y, 2) == 2;
    assert Unmatched(x, y, 1) == 3;
    assert Unmatched(x, y, 0) == 3;
  }

  lemma PizzaFarFromInThe()
    ensures FarApart("in the", "pizza", "pizza", 3, 5, false)
  {
    var x, y := "in the", "pizza";
    assert Unmatched(x, y, 5) == 1;
    assert Unmatched(x, y, 4) == 2;
    assert Unmatched(x, y, 3) == 3;
    assert Unmatched(x, y, 2) == 4;
    assert Unmatched(x, y, 1) == 5;
    assert Unmatched(x, y, 0) == 5;
  }

  lemma PizzaFarFromSaw()
    ensures FarApart("saw", "pizza", "pizza", 3, 5, false)
  {
    var x, y := "saw", "pizza";
    assert Unmatched(x, y, 2) == 1;
    assert Unmatched(x, y, 1) == 1;
    assert Unmatched(x, y, 0) == 2;
  }

  lemma PizzaFarFromThe()
    ensures FarApart("the", "pizza", "pizza", 3, 5, false)
  {
    var x, y := "the", "pizza";
    assert Unmatched(x, y, 2) == 1;
    assert Unmatched(x, y, 1) == 2;
    assert Unmatched(x, y, 0) == 3;
  }

  lemma PastaFarFromCity()
    ensures FarApart("city", "Pasta", "pasta", 3, 5, false)
  {
    var x, y := "city", "pasta";
    assert Unmatched(x, y, 3) == 1;
    assert Unmatched(x, y, 2) == 1;
    assert Unmatched(x, y, 1) == 2;
    assert Unmatched(x, y, 0) == 3;
  }

  lemma PastaFarFromEating()
    ensures FarApart("eating", "Pasta", "pasta", 3, 5, false)
  {
    var x, y := "eating", "pasta";
    assert Unmatched(x, y, 5) == 1;
    assert Unmatched(x, y, 4) == 2;
    assert Unmatched(x, y, 3) == 3;
    assert Unmatched(x, y, 2) == 3;
    assert Unmatched(x, y, 1) == 3;
    assert Unmatched(x, y, 0) == 4;
  }

  lemma PastaFarFromISaw()
    ensures FarApart("i saw", "Pasta", "pasta", 3, 5, false)
  {
    var x, y := "i saw", "pasta";
    assert Unmatched(x, y, 4) == 1;
    assert Unmatched(x, y, 3) == 1;
    assert Unmatched(x, y, 2) == 1;
    assert Unmatched(x, y, 1) == 2;
    assert Unmatched(x, y, 0) == 3;
  }

  lemma PastaFarFromInThe()
    ensures FarApart("in the", "Pasta", "pasta", 3, 5, false)
  {
    var x, y := "in the", "pasta";
    assert Unmatched(x, y, 5) == 1;
    assert Unmatched(x, y, 4) == 2;
    assert Unmatched(x, y, 3) == 2;
    assert Unmatched(x, y, 2) == 3;
    assert Unmatched(x, y, 1) == 4;
    assert Unmatched(x, y, 0) == 5;
  }

  lemma PastaFarFromSaw()
    ensures FarApart("saw", "Pasta", "pasta", 3, 5, false)
  {
    var x, y := "saw", "pasta";
    assert Unmatched(x, y, 2) == 1;
    assert Unmatched(x, y, 1) == 1;
    assert Unmatched(x, y, 0) == 1;
  }

  lemma PastaFarFromThe()
    ensures FarApart("the", "Pasta", "pasta", 3, 5, false)
  {
    var x, y := "the", "pasta";
    assert Unmatched(x, y, 2) == 1;
    assert Unmatched(x, y, 1) == 2;
    assert Unmatched(x, y, 0) == 2;
  }

  // ---------------------------------------------------------------------------
  // I saw spiderman in the city, threshold 0.5

  /** `Spiderman` is matched exactly at 6..15 of `I saw spiderman in the city`. */
  lemma SpidermanExactInSawSpiderman(u: string, entity: string, option: string, t: string)
    requires ReadsSawSpiderman(u) && t == "Spiderman"
    ensures MatchText(u, Words(u), entity, option, t, 0.5) ==
      Some(EntityOccurrence(6, 15, 0, 1.0, entity, option, t, "spiderman"))
  {
    ExactSpan(u, entity, option, "Spiderman", 0.5, 6, "spiderman");
    ExactOccurrence(u, entity, option, "Spiderman", 0.5, 6, "spiderman");
  }

  /**
   * A placement of `Spider-man` in `I saw spiderman in the city` that scores above 0.5
   * starts at 6, ends by 18, and is not exact.
   */
  lemma SpiderHyphenManOverlapsInSawSpiderman(u: string, o: EntityOccurrence)
    requires ReadsSawSpiderman(u) && Placed(u, o) && Scored(0.5, o) && o.sourceText == "Spider-man"
    ensures o.start == 6 && o.end <= 18 && o.accuracy < 1.0
  {
    if o.start == 16 && o.end == 27 {
      SpiderHyphenManFarFromInTheCity();
      Unscored(u, 5, o, 16, "in the city", "Spider-man", "spider-man", 6, false);
    } else if o.start == 19 && o.end == 27 {
      SpiderHyphenManFarFromTheCity();
      Unscored(u, 5, o, 19, "the city", "Spider-man", "spider-man", 5, false);
    }
    OccurrenceScores(u, 0.5, o);
  }

  /** The match of `Spider-man` in `I saw spiderman in the city` is accounted for by the reported occurrences. */
  lemma SpiderHyphenManSettledInSawSpiderman(u: string, entity: string, option: string, t: string)
    requires ReadsSawSpiderman(u) && t == "Spider-man"
    ensures AccountedFor(SawSpidermanFound, MatchText(u, Words(u), entity, option, t, 0.5))
  {
    var m := MatchText(u, Words(u), entity, option, t, 0.5);
    if m.Some? {
      SpiderHyphenManOverlapsInSawSpiderman(u, m.value);
      UnderSawSpiderman(m.value);
    }
  }

  /**
   * A placement of `iron man` in `I saw spiderman in the city` that scores above 0.5
   * starts at 6, ends by 15, and is not exact.
   */
  lemma IronManOverlapsInSawSpiderman(u: string, o: EntityOccurrence)
    requires ReadsSawSpiderman(u) && Placed(u, o) && Scored(0.5, o) && o.sourceText == "iron man"
    ensures o.start == 6 && o.end <= 15 && o.accuracy < 1.0
  {
    if o.start == 16 && o.end == 22 {
      IronManFarFromInThe();
      Unscored(u, 5, o, 16, "in the", "iron man", "iron man", 4, false);
    } else if o.start == 19 && o.end == 27 {
      IronManFarFromTheCity();
      Unscored(u, 5, o, 19, "the city", "iron man", "iron man", 4, false);
    }
    OccurrenceScores(u, 0.5, o);
  }

  /** The match of `iron man` in `I saw spiderman in the city` is accounted for by the reported occurrences. */
  lemma IronManSettledInSawSpiderman(u: string, entity: string, option: string, t: string)
    requires ReadsSawSpiderman(u) && t == "iron man"
    ensures AccountedFor(SawSpidermanFound, MatchText(u, Words(u), entity, option, t, 0.5))
  {
    var m := MatchText(u, Words(u), entity, option, t, 0.5);
    if m.Some? {
      IronManOverlapsInSawSpiderman(u, m.value);
      UnderSawSpiderman(m.value);
    }
  }

  /**
   * A placement of `iron-man` in `I saw spiderman in the city` that scores above 0.5
   * starts at 6, ends by 15, and is not exact.
   */
  lemma IronHyphenManOverlapsInSawSpiderman(u: string, o: EntityOccurrence)
    requires ReadsSawSpiderman(u) && Placed(u, o) && Scored(0.5, o) && o.sourceText == "iron-man"
    ensures o.start == 6 && o.end <= 15 && o.accuracy < 1.0
  {
    if o.start == 16 && o.end == 22 {
      IronHyphenManFarFromInThe();
      Unscored(u, 5, o, 16, "in the", "iron-man", "iron-man", 4, false);
    } else if o.start == 19 && o.end == 27 {
      IronHyphenManFarFromTheCity();
      Unscored(u, 5, o, 19, "the city", "iron-man", "iron-man", 4, false);
    }
    OccurrenceScores(u, 0.5, o);
  }

  /** The match of `iron-man` in `I saw spiderman in the city` is accounted for by the reported occurrences. */
  lemma IronHyphenManSettledInSawSpiderman(u: string, entity: string, option: string, t: string)
    requires ReadsSawSpiderman(u) && t == "iron-man"
    ensures AccountedFor(SawSpidermanFound, MatchText(u, Words(u), entity, option, t, 0.5))
  {
    var m := MatchText(u, Words(u), entity, option, t, 0.5);
    if m.Some? {
      IronHyphenManOverlapsInSawSpiderman(u, m.value);
      UnderSawSpiderman(m.value);
    }
  }

  /** No placement of `Thor` in `I saw spiderman in the city` scores above 0.5. */
  lemma ThorNotInSawSpiderman(u: string, o: EntityOccurrence)
    requires ReadsSawSpiderman(u) && Placed(u, o) && o.sourceText == "Thor"
    ensures !Scored(0.5, o)
  {
    if o.start == 0 && o.end == 5 {
      ThorFarFromISaw();
      Unscored(u, 5, o, 0, "i saw", "Thor", "thor", 3, false);
    } else if o.start == 2 && o.end == 5 {
      ThorFarFromSaw();
      Unscored(u, 5, o, 2, "saw", "Thor", "thor", 2, false);
    } else if o.start == 16 && o.end == 18 {
      ThorFarFromIn();
      Unscored(u, 5, o, 16, "in", "Thor", "thor", 2, false);
    } else if o.start == 16 && o.end == 22 {
      ThorFarFromInThe();
      Unscored(u, 5, o, 16, "in the", "Thor", "thor", 3, false);
    } else if o.start == 19 && o.end == 22 {
      ThorFarFromThe();
      Unscored(u, 5, o, 19, "the", "Thor", "thor", 2, false);
    } else if o.start == 23 && o.end == 27 {
      ThorFarFromCity();
      Unscored(u, 5, o, 23, "city", "Thor", "thor", 2, false);
    }
  }

  /** The match of `Thor` in `I saw spiderman in the city` is accounted for by the reported occurrences. */
  lemma ThorSettledInSawSpiderman(u: string, entity: string, option: string, t: string)
    requires ReadsSawSpiderman(u) && t == "Thor"
    ensures AccountedFor(SawSpidermanFound, MatchText(u, Words(u), entity, option, t, 0.5))
  {
    var m := MatchText(u, Words(u), entity, option, t, 0.5);
    if m.Some? {
      ThorNotInSawSpiderman(u, m.value);
    }
  }

  /** A lower-scoring match that starts with the first reported occurrence and ends before the next is accounted for. */
  lemma UnderSawSpiderman(c: EntityOccurrence)
    requires c.start == 6 < c.end && c.accuracy < 1.0
    ensures AccountedFor(SawSpidermanFound, Some(c))
  {
    UnderFirst(SawSpidermanFound, Some(c));
  }

  /** The matches of the texts of `spiderman` in `I saw spiderman in the city` are accounted for. */
  lemma SpidermanTextsSettledInSawSpiderman(u: string)
    requires ReadsSawSpiderman(u)
    ensures forall k :: 0 <= k < |Bucket(Heroes[0].options[0].texts, "en")| ==>
      AccountedFor(SawSpidermanFound, MatchText(u, Words(u), Heroes[0].name, Heroes[0].options[0].name, Bucket(Heroes[0].options[0].texts, "en")[k], 0.5))
  {
    forall k | 0 <= k < |Bucket(Heroes[0].options[0].texts, "en")|
      ensures AccountedFor(SawSpidermanFound, MatchText(u, Words(u), Heroes[0].name, Heroes[0].options[0].name, Bucket(Heroes[0].options[0].texts, "en")[k], 0.5))
    {
      HeroesTexts();
      if k == 0 {
        SpidermanExactInSawSpiderman(u, Heroes[0].name, Heroes[0].options[0].name, Bucket(Heroes[0].options[0].texts, "en")[k]);
      } else {
        SpiderHyphenManSettledInSawSpiderman(u, Heroes[0].name, Heroes[0].options[0].name, Bucket(Heroes[0].options[0].texts, "en")[k]);
      }
    }
  }

  /** The matches of the texts of `iron man` in `I saw spiderman in the city` are accounted for. */
  lemma IronManTextsSettledInSawSpiderman(u: string)
    requires ReadsSawSpiderman(u)
    ensures forall k :: 0 <= k < |Bucket(Heroes[0].options[1].texts, "en")| ==>
      AccountedFor(SawSpidermanFound, MatchText(u, Words(u), Heroes[0].name, Heroes[0].options[1].name, Bucket(Heroes[0].options[1].texts, "en")[k], 0.5))
  {
    forall k | 0 <= k < |Bucket(Heroes[0].options[1].texts, "en")|
      ensures AccountedFor(SawSpidermanFound, MatchText(u, Words(u), Heroes[0].name, Heroes[0].options[1].name, Bucket(Heroes[0].options[1].texts, "en")[k], 0.5))
    {
      HeroesTexts();
      if k == 0 {
        IronManSettledInSawSpiderman(u, Heroes[0].name, Heroes[0].options[1].name, Bucket(Heroes[0].options[1].texts, "en")[k]);
      } else {
        IronHyphenManSettledInSawSpiderman(u, Heroes[0].name, Heroes[0].options[1].name, Bucket(Heroes[0].options[1].texts, "en")[k]);
      }
    }
  }

  /** The matches of the texts of `thor` in `I saw spiderman in the city` are accounted for. */
  lemma ThorTextsSettledInSawSpiderman(u: string)
    requires ReadsSawSpiderman(u)
    ensures forall k :: 0 <= k < |Bucket(Heroes[0].options[2].texts, "en")| ==>
      AccountedFor(SawSpidermanFound, MatchText(u, Words(u), Heroes[0].name, Heroes[0].options[2].name, Bucket(Heroes[0].options[2].texts, "en")[k], 0.5))
  {
    forall k | 0 <= k < |Bucket(Heroes[0].options[2].texts, "en")|
      ensures AccountedFor(SawSpidermanFound, MatchText(u, Words(u), Heroes[0].name, Heroes[0].options[2].name, Bucket(Heroes[0].options[2].texts, "en")[k], 0.5))
    {
      HeroesTexts();
      ThorSettledInSawSpiderman(u, Heroes[0].name, Heroes[0].options[2].name, Bucket(Heroes[0].options[2].texts, "en")[k]);
    }
  }

  /** The occurrences reported in `I saw spiderman in the city` go left to right, are not empty, and are registered texts. */
  lemma SawSpidermanFoundInOrder()
    ensures Chain(SawSpidermanFound) && NonEmptySpans(SawSpidermanFound)
    ensures forall m :: m in SawSpidermanFound ==> IsSurfaceText(Heroes, m.entity, m.option, "en", m.sourceText)
  {
    HeroesTexts();
    forall m | m in SawSpidermanFound
      ensures IsSurfaceText(Heroes, m.entity, m.option, "en", m.sourceText)
    {
      assert Heroes[0].name == "hero" && Heroes[0].options[0].name == "spiderman" &&
          "Spiderman" in Bucket(Heroes[0].options[0].texts, "en");
    }
  }

  /** Each occurrence reported in `I saw spiderman in the city` is its own text's match there. */
  lemma SawSpidermanFoundOwn(u: string)
    requires ReadsSawSpiderman(u)
    ensures OwnMatches(u, Words(u), 0.5, SawSpidermanFound)
  {
    SpidermanExactInSawSpiderman(u, "hero", "spiderman", "Spiderman");
  }

  /** `I saw spiderman in the city`, threshold 0.5: `Spiderman` at 6..15, exactly, and nothing else. */
  lemma FindsSpiderman()
    ensures FindEntities(Heroes, 0.5, SawSpiderman, "en") ==
      [EntityOccurrence(6, 15, 0, 1.0, "hero", "spiderman", "Spiderman", "spiderman")]
  {
    SawSpidermanReads();
    FindsSpidermanWhen(SawSpiderman);
  }

  lemma FindsSpidermanWhen(u: string)
    requires ReadsSawSpiderman(u)
    ensures FindEntities(Heroes, 0.5, u, "en") == SawSpidermanFound
  {
    SpidermanTextsSettledInSawSpiderman(u);
    IronManTextsSettledInSawSpiderman(u);
    ThorTextsSettledInSawSpiderman(u);
    SawSpidermanFoundInOrder();
    SawSpidermanFoundOwn(u);
    HeroesFound(u, 0.5, SawSpidermanFound);
  }

  // ---------------------------------------------------------------------------
  // I saw spederman in the city, threshold 0.8

  /** In `I saw spederman in the city`, the window 6..15 is one edit from `Spiderman`, and every other window at least two. */
  lemma SpidermanClosestInSawSpederman(u: string)
    requires ReadsSawSpederman(u)
    ensures SpanDistance(Text.Lower(u), Text.Lower("Spiderman"), Window(6, 15)) == 1
    ensures forall v :: WordAligned(u, v) && InBand(v.end - v.start, 9) && v != Window(6, 15) ==>
      1 < SpanDistance(Text.Lower(u), Text.Lower("Spiderman"), v)
  {
    Text.SpellsSlice(u, 6, "spederman");
    SpedermanLetters("spederman", "Spiderman");
    FoldedOneSubstitution("spederman", "Spiderman", 2);
    FoldedSpanDistance(u, "Spiderman", Window(6, 15));
    forall v | WordAligned(u, v) && InBand(v.end - v.start, 9) && v != Window(6, 15)
      ensures 1 < SpanDistance(Text.Lower(u), Text.Lower("Spiderman"), v)
    {
      if v.start == 16 && v.end == 27 {
        SpidermanFarFromInTheCity();
        SpanAtLeast(u, 16, "in the city", "Spiderman", "spiderman", 2, false);
      } else if v.start == 19 && v.end == 27 {
        SpidermanFarFromTheCity();
        SpanAtLeast(u, 19, "the city", "Spiderman", "spiderman", 2, false);
      }
    }
  }

  /** In `I saw spederman in the city`, `Spiderman` is matched at 6..15, one edit away, with accuracy 8/9. */
  lemma SpidermanCloseInSawSpederman(u: string, entity: string, option: string, t: string)
    requires ReadsSawSpederman(u) && t == "Spiderman"
    ensures MatchText(u, Words(u), entity, option, t, 0.8) ==
      Some(EntityOccurrence(6, 15, 1, 8.0 / 9.0, entity, option, t, "spederman"))
  {
    SpidermanClosestInSawSpederman(u);
    assert 0.8 < Accuracy(1, 9, 9);
    ClosestWindowMatched(u, entity, option, "Spiderman", 0.8, Window(6, 15));
    var c := MatchText(u, Words(u), entity, option, "Spiderman", 0.8).value;
    Text.SpellsSlice(u, 6, "spederman");
    SpedermanScore(u, 0.8, c);
  }

  /** No placement of `Spider-man` in `I saw spederman in the city` scores above 0.8. */
  lemma SpiderHyphenManNotInSawSpederman(u: string, o: EntityOccurrence)
    requires ReadsSawSpederman(u) && Placed(u, o) && o.sourceText == "Spider-man"
    ensures !Scored(0.8, o)
  {
    if o.start == 6 && o.end == 15 {
      SpiderHyphenManFarFromSpederman();
      Unscored(u, 8, o, 6, "spederman", "Spider-man", "spider-man", 2, true);
    } else if o.start == 6 && o.end == 18 {
      SpiderHyphenManFarFromSpedermanIn();
      Unscored(u, 8, o, 6, "spederman in", "Spider-man", "spider-man", 3, true);
    } else if o.start == 16 && o.end == 27 {
      SpiderHyphenManFarFromInTheCity();
      Unscored(u, 8, o, 16, "in the city", "Spider-man", "spider-man", 3, false);
    } else if o.start == 19 && o.end == 27 {
      SpiderHyphenManFarFromTheCity();
      Unscored(u, 8, o, 19, "the city", "Spider-man", "spider-man", 2, false);
    }
  }

  /** The match of `Spider-man` in `I saw spederman in the city` is accounted for by the reported occurrences. */
  lemma SpiderHyphenManSettledInSawSpederman(u: string, entity: string, option: string, t: string)
    requires ReadsSawSpederman(u) && t == "Spider-man"
    ensures AccountedFor(SawSpedermanFound, MatchText(u, Words(u), entity, option, t, 0.8))
  {
    var m := MatchText(u, Words(u), entity, option, t, 0.8);
    if m.Some? {
      SpiderHyphenManNotInSawSpederman(u, m.value);
    }
  }

  /** No placement of `iron man` in `I saw spederman in the city` scores above 0.8. */
  lemma IronManNotInSawSpederman(u: string, o: EntityOccurrence)
    requires ReadsSawSpederman(u) && Placed(u, o) && o.sourceText == "iron man"
    ensures !Scored(0.8, o)
  {
    if o.start == 6 && o.end == 15 {
      IronManFarFromSpederman();
      Unscored(u, 8, o, 6, "spederman", "iron man", "iron man", 2, false);
    } else if o.start == 16 && o.end == 22 {
      IronManFarFromInThe();
      Unscored(u, 8, o, 16, "in the", "iron man", "iron man", 2, false);
    } else if o.start == 19 && o.end == 27 {
      IronManFarFromTheCity();
      Unscored(u, 8, o, 19, "the city", "iron man", "iron man", 2, false);
    }
  }

  /** The match of `iron man` in `I saw spederman in the city` is accounted for by the reported occurrences. */
  lemma IronManSettledInSawSpederman(u: string, entity: string, option: string, t: string)
    requires ReadsSawSpederman(u) && t == "iron man"
    ensures AccountedFor(SawSpedermanFound, MatchText(u, Words(u), entity, option, t, 0.8))
  {
    var m := MatchText(u, Words(u), entity, option, t, 0.8);
    if m.Some? {
      IronManNotInSawSpederman(u, m.value);
    }
  }

  /** No placement of `iron-man` in `I saw spederman in the city` scores above 0.8. */
  lemma IronHyphenManNotInSawSpederman(u: string, o: EntityOccurrence)
    requires ReadsSawSpederman(u) && Placed(u, o) && o.sourceText == "iron-man"
    ensures !Scored(0.8, o)
  {
    if o.start == 6 && o.end == 15 {
      IronHyphenManFarFromSpederman();
      Unscored(u, 8, o, 6, "spederman", "iron-man", "iron-man", 2, false);
    } else if o.start == 16 && o.end == 22 {
      IronHyphenManFarFromInThe();
      Unscored(u, 8, o, 16, "in the", "iron-man", "iron-man", 2, false);
    } else if o.start == 19 && o.end == 27 {
      IronHyphenManFarFromTheCity();
      Unscored(u, 8, o, 19, "the city", "iron-man", "iron-man", 2, false);
    }
  }

  /** The match of `iron-man` in `I saw spederman in the city` is accounted for by the reported occurrences. */
  lemma IronHyphenManSettledInSawSpederman(u: string, entity: string, option: string, t: string)
    requires ReadsSawSpederman(u) && t == "iron-man"
    ensures AccountedFor(SawSpedermanFound, MatchText(u, Words(u), entity, option, t, 0.8))
  {
    var m := MatchText(u, Words(u), entity, option, t, 0.8);
    if m.Some? {
      IronHyphenManNotInSawSpederman(u, m.value);
    }
  }

  /** No placement of `Thor` in `I saw spederman in the city` scores above 0.8. */
  lemma ThorNotInSawSpederman(u: string, o: EntityOccurrence)
    requires ReadsSawSpederman(u) && Placed(u, o) && o.sourceText == "Thor"
    ensures !Scored(0.8, o)
  {
    if o.start == 0 && o.end == 5 {
      ThorFarFromISaw();
      Unscored(u, 8, o, 0, "i saw", "Thor", "thor", 1, false);
    } else if o.start == 2 && o.end == 5 {
      ThorFarFromSaw();
      Unscored(u, 8, o, 2, "saw", "Thor", "thor", 1, false);
    } else if o.start == 16 && o.end == 18 {
      ThorFarFromIn();
      Unscored(u, 8, o, 16, "in", "Thor", "thor", 1, false);
    } else if o.start == 16 && o.end == 22 {
      ThorFarFromInThe();
      Unscored(u, 8, o, 16, "in the", "Thor", "thor", 2, false);
    } else if o.start == 19 && o.end == 22 {
      ThorFarFromThe();
      Unscored(u, 8, o, 19, "the", "Thor", "thor", 1, false);
    } else if o.start == 23 && o.end == 27 {
      ThorFarFromCity();
      Unscored(u, 8, o, 23, "city", "Thor", "thor", 1, false);
    }
  }

  /** The match of `Thor` in `I saw spederman in the city` is accounted for by the reported occurrences. */
  lemma ThorSettledInSawSpederman(u: string, entity: string, option: string, t: string)
    requires ReadsSawSpederman(u) && t == "Thor"
    ensures AccountedFor(SawSpedermanFound, MatchText(u, Words(u), entity, option, t, 0.8))
  {
    var m := MatchText(u, Words(u), entity, option, t, 0.8);
    if m.Some? {
      ThorNotInSawSpederman(u, m.value);
    }
  }

  /** The matches of the texts of `spiderman` in `I saw spederman in the city` are accounted for. */
  lemma SpidermanTextsSettledInSawSpederman(u: string)
    requires ReadsSawSpederman(u)
    ensures forall k :: 0 <= k < |Bucket(Heroes[0].options[0].texts, "en")| ==>
      AccountedFor(SawSpedermanFound, MatchText(u, Words(u), Heroes[0].name, Heroes[0].options[0].name, Bucket(Heroes[0].options[0].texts, "en")[k], 0.8))
  {
    forall k | 0 <= k < |Bucket(Heroes[0].options[0].texts, "en")|
      ensures AccountedFor(SawSpedermanFound, MatchText(u, Words(u), Heroes[0].name, Heroes[0].options[0].name, Bucket(Heroes[0].options[0].texts, "en")[k], 0.8))
    {
      HeroesTexts();
      if k == 0 {
        SpidermanCloseInSawSpederman(u, Heroes[0].name, Heroes[0].options[0].name, Bucket(Heroes[0].options[0].texts, "en")[k]);
      } else {
        SpiderHyphenManSettledInSawSpederman(u, Heroes[0].name, Heroes[0].options[0].name, Bucket(Heroes[0].options[0].texts, "en")[k]);
      }
    }
  }

  /** The matches of the texts of `iron man` in `I saw spederman in the city` are accounted for. */
  lemma IronManTextsSettledInSawSpederman(u: string)
    requires ReadsSawSpederman(u)
    ensures forall k :: 0 <= k < |Bucket(Heroes[0].options[1].texts, "en")| ==>
      AccountedFor(SawSpedermanFound, MatchText(u, Words(u), Heroes[0].name, Heroes[0].options[1].name, Bucket(Heroes[0].options[1].texts, "en")[k], 0.8))
  {
    forall k | 0 <= k < |Bucket(Heroes[0].options[1].texts, "en")|
      ensures AccountedFor(SawSpedermanFound, MatchText(u, Words(u), Heroes[0].name, Heroes[0].options[1].name, Bucket(Heroes[0].options[1].texts, "en")[k], 0.8))
    {
      HeroesTexts();
      if k == 0 {
        IronManSettledInSawSpederman(u, Heroes[0].name, Heroes[0].options[1].name, Bucket(Heroes[0].options[1].texts, "en")[k]);
      } else {
        IronHyphenManSettledInSawSpederman(u, Heroes[0].name, Heroes[0].options[1].name, Bucket(Heroes[0].options[1].texts, "en")[k]);
      }
    }
  }

  /** The matches of the texts of `thor` in `I saw spederman in the city` are accounted for. */
  lemma ThorTextsSettledInSawSpederman(u: string)
    requires ReadsSawSpederman(u)
    ensures forall k :: 0 <= k < |Bucket(Heroes[0].options[2].texts, "en")| ==>
      AccountedFor(SawSpedermanFound, MatchText(u, Words(u), Heroes[0].name, Heroes[0].options[2].name, Bucket(Heroes[0].options[2].texts, "en")[k], 0.8))
  {
    forall k | 0 <= k < |Bucket(Heroes[0].options[2].texts, "en")|
      ensures AccountedFor(SawSpedermanFound, MatchText(u, Words(u), Heroes[0].name, Heroes[0].options[2].name, Bucket(Heroes[0].options[2].texts, "en")[k], 0.8))
    {
      HeroesTexts();
      ThorSettledInSawSpederman(u, Heroes[0].name, Heroes[0].options[2].name, Bucket(Heroes[0].options[2].texts, "en")[k]);
    }
  }

  /** The occurrences reported in `I saw spederman in the city` go left to right, are not empty, and are registered texts. */
  lemma SawSpedermanFoundInOrder()
    ensures Chain(SawSpedermanFound) && NonEmptySpans(SawSpedermanFound)
    ensures forall m :: m in SawSpedermanFound ==> IsSurfaceText(Heroes, m.entity, m.option, "en", m.sourceText)
  {
    HeroesTexts();
    forall m | m in SawSpedermanFound
      ensures IsSurfaceText(Heroes, m.entity, m.option, "en", m.sourceText)
    {
      assert Heroes[0].name == "hero" && Heroes[0].options[0].name == "spiderman" &&
          "Spiderman" in Bucket(Heroes[0].options[0].texts, "en");
    }
  }

  /** Each occurrence reported in `I saw spederman in the city` is its own text's match there. */
  lemma SawSpedermanFoundOwn(u: string)
    requires ReadsSawSpederman(u)
    ensures OwnMatches(u, Words(u), 0.8, SawSpedermanFound)
  {
    SpidermanCloseInSawSpederman(u, "hero", "spiderman", "Spiderman");
  }

  /** `I saw spederman in the city`, threshold 0.8: `Spiderman` at 6..15, one edit away with accuracy 8/9, and nothing else. */
  lemma FindsSpederman()
    ensures FindEntities(Heroes, 0.8, SawSpederman, "en") ==
      [EntityOccurrence(6, 15, 1, 8.0 / 9.0, "hero", "spiderman", "Spiderman", "spederman")]
  {
    SawSpedermanReads();
    FindsSpedermanWhen(SawSpederman);
  }

  lemma FindsSpedermanWhen(u: string)
    requires ReadsSawSpederman(u)
    ensures FindEntities(Heroes, 0.8, u, "en") == SawSpedermanFound
  {
    SpidermanTextsSettledInSawSpederman(u);
    IronManTextsSettledInSawSpederman(u);
    ThorTextsSettledInSawSpederman(u);
    SawSpedermanFoundInOrder();
    SawSpedermanFoundOwn(u);
    HeroesFound(u, 0.8, SawSpedermanFound);
  }

  // ---------------------------------------------------------------------------
  // I saw spererman in the city, threshold 0.8

  /** No placement of `Spiderman` in `I saw spererman in the city` scores above 0.8. */
  lemma SpidermanNotInSawSpererman(u: string, o: EntityOccurrence)
    requires ReadsSawSpererman(u) && Placed(u, o) && o.sourceText == "Spiderman"
    ensures !Scored(0.8, o)
  {
    if o.start == 6 && o.end == 15 {
      SpidermanFarFromSpererman();
      Unscored(u, 8, o, 6, "spererman", "Spiderman", "spiderman", 2, true);
    } else if o.start == 16 && o.end == 27 {
      SpidermanFarFromInTheCity();
      Unscored(u, 8, o, 16, "in the city", "Spiderman", "spiderman", 3, false);
    } else if o.start == 19 && o.end == 27 {
      SpidermanFarFromTheCity();
      Unscored(u, 8, o, 19, "the city", "Spiderman", "spiderman", 2, false);
    }
  }

  /** The match of `Spiderman` in `I saw spererman in the city` is accounted for by the reported occurrences. */
  lemma SpidermanSettledInSawSpererman(u: string, entity: string, option: string, t: string)
    requires ReadsSawSpererman(u) && t == "Spiderman"
    ensures AccountedFor(SawSperermanFound, MatchText(u, Words(u), entity, option, t, 0.8))
  {
    var m := MatchText(u, Words(u), entity, option, t, 0.8);
    if m.Some? {
      SpidermanNotInSawSpererman(u, m.value);
    }
  }

  /** No placement of `Spider-man` in `I saw spererman in the city` scores above 0.8. */
  lemma SpiderHyphenManNotInSawSpererman(u: string, o: EntityOccurrence)
    requires ReadsSawSpererman(u) && Placed(u, o) && o.sourceText == "Spider-man"
    ensures !Scored(0.8, o)
  {
    if o.start == 6 && o.end == 15 {
      SpiderHyphenManFarFromSpererman();
      Unscored(u, 8, o, 6, "spererman", "Spider-man", "spider-man", 2, true);
    } else if o.start == 6 && o.end == 18 {
      SpiderHyphenManFarFromSperermanIn();
      Unscored(u, 8, o, 6, "spererman in", "Spider-man", "spider-man", 3, true);
    } else if o.start == 16 && o.end == 27 {
      SpiderHyphenManFarFromInTheCity();
      Unscored(u, 8, o, 16, "in the city", "Spider-man", "spider-man", 3, false);
    } else if o.start == 19 && o.end == 27 {
      SpiderHyphenManFarFromTheCity();
      Unscored(u, 8, o, 19, "the city", "Spider-man", "spider-man", 2, false);
    }
  }

  /** The match of `Spider-man` in `I saw spererman in the city` is accounted for by the reported occurrences. */
  lemma SpiderHyphenManSettledInSawSpererman(u: string, entity: string, option: string, t: string)
    requires ReadsSawSpererman(u) && t == "Spider-man"
    ensures AccountedFor(SawSperermanFound, MatchText(u, Words(u), entity, option, t, 0.8))
  {
    var m := MatchText(u, Words(u), entity, option, t, 0.8);
    if m.Some? {
      SpiderHyphenManNotInSawSpererman(u, m.value);
    }
  }

  /** No placement of `iron man` in `I saw spererman in the city` scores above 0.8. */
  lemma IronManNotInSawSpererman(u: string, o: EntityOccurrence)
    requires ReadsSawSpererman(u) && Placed(u, o) && o.sourceText == "iron man"
    ensures !Scored(0.8, o)
  {
    if o.start == 6 && o.end == 15 {
      IronManFarFromSpererman();
      Unscored(u, 8, o, 6, "spererman", "iron man", "iron man", 2, false);
    } else if o.start == 16 && o.end == 22 {
      IronManFarFromInThe();
      Unscored(u, 8, o, 16, "in the", "iron man", "iron man", 2, false);
    } else if o.start == 19 && o.end == 27 {
      IronManFarFromTheCity();
      Unscored(u, 8, o, 19, "the city", "iron man", "iron man", 2, false);
    }
  }

  /** The match of `iron man` in `I saw spererman in the city` is accounted for by the reported occurrences. */
  lemma IronManSettledInSawSpererman(u: string, entity: string, option: string, t: string)
    requires ReadsSawSpererman(u) && t == "iron man"
    ensures AccountedFor(SawSperermanFound, MatchText(u, Words(u), entity, option, t, 0.8))
  {
    var m := MatchText(u, Words(u), entity, option, t, 0.8);
    if m.Some? {
      IronManNotInSawSpererman(u, m.value);
    }
  }

  /** No placement of `iron-man` in `I saw spererman in the city` scores above 0.8. */
  lemma IronHyphenManNotInSawSpererman(u: string, o: EntityOccurrence)
    requires ReadsSawSpererman(u) && Placed(u, o) && o.sourceText == "iron-man"
    ensures !Scored(0.8, o)
  {
    if o.start == 6 && o.end == 15 {
      IronHyphenManFarFromSpererman();
      Unscored(u, 8, o, 6, "spererman", "iron-man", "iron-man", 2, false);
    } else if o.start == 16 && o.end == 22 {
      IronHyphenManFarFromInThe();
      Unscored(u, 8, o, 16, "in the", "iron-man", "iron-man", 2, false);
    } else if o.start == 19 && o.end == 27 {
      IronHyphenManFarFromTheCity();
      Unscored(u, 8, o, 19, "the city", "iron-man", "iron-man", 2, false);
    }
  }

  /** The match of `iron-man` in `I saw spererman in the city` is accounted for by the reported occurrences. */
  lemma IronHyphenManSettledInSawSpererman(u: string, entity: string, option: string, t: string)
    requires ReadsSawSpererman(u) && t == "iron-man"
    ensures AccountedFor(SawSperermanFound, MatchText(u, Words(u), entity, option, t, 0.8))
  {
    var m := MatchText(u, Words(u), entity, option, t, 0.8);
    if m.Some? {
      IronHyphenManNotInSawSpererman(u, m.value);
    }
  }

  /** No placement of `Thor` in `I saw spererman in the city` scores above 0.8. */
  lemma ThorNotInSawSpererman(u: string, o: EntityOccurrence)
    requires ReadsSawSpererman(u) && Placed(u, o) && o.sourceText == "Thor"
    ensures !Scored(0.8, o)
  {
    if o.start == 0 && o.end == 5 {
      ThorFarFromISaw();
      Unscored(u, 8, o, 0, "i saw", "Thor", "thor", 1, false);
    } else if o.start == 2 && o.end == 5 {
      ThorFarFromSaw();
      Unscored(u, 8, o, 2, "saw", "Thor", "thor", 1, false);
    } else if o.start == 16 && o.end == 18 {
      ThorFarFromIn();
      Unscored(u, 8, o, 16, "in", "Thor", "thor", 1, false);
    } else if o.start == 16 && o.end == 22 {
      ThorFarFromInThe();
      Unscored(u, 8, o, 16, "in the", "Thor", "thor", 2, false);
    } else if o.start == 19 && o.end == 22 {
      ThorFarFromThe();
      Unscored(u, 8, o, 19, "the", "Thor", "thor", 1, false);
    } else if o.start == 23 && o.end == 27 {
      ThorFarFromCity();
      Unscored(u, 8, o, 23, "city", "Thor", "thor", 1, false);
    }
  }

  /** The match of `Thor` in `I saw spererman in the city` is accounted for by the reported occurrences. */
  lemma ThorSettledInSawSpererman(u: string, entity: string, option: string, t: string)
    requires ReadsSawSpererman(u) && t == "Thor"
    ensures AccountedFor(SawSperermanFound, MatchText(u, Words(u), entity, option, t, 0.8))
  {
    var m := MatchText(u, Words(u), entity, option, t, 0.8);
    if m.Some? {
      ThorNotInSawSpererman(u, m.value);
    }
  }

  /** The matches of the texts of `spiderman` in `I saw spererman in the city` are accounted for. */
  lemma SpidermanTextsSettledInSawSpererman(u: string)
    requires ReadsSawSpererman(u)
    ensures forall k :: 0 <= k < |Bucket(Heroes[0].options[0].texts, "en")| ==>
      AccountedFor(SawSperermanFound, MatchText(u, Words(u), Heroes[0].name, Heroes[0].options[0].name, Bucket(Heroes[0].options[0].texts, "en")[k], 0.8))
  {
    forall k | 0 <= k < |Bucket(Heroes[0].options[0].texts, "en")|
      ensures AccountedFor(SawSperermanFound, MatchText(u, Words(u), Heroes[0].name, Heroes[0].options[0].name, Bucket(Heroes[0].options[0].texts, "en")[k], 0.8))
    {
      HeroesTexts();
      if k == 0 {
        SpidermanSettledInSawSpererman(u, Heroes[0].name, Heroes[0].options[0].name, Bucket(Heroes[0].options[0].texts, "en")[k]);
      } else {
        SpiderHyphenManSettledInSawSpererman(u, Heroes[0].name, Heroes[0].options[0].name, Bucket(Heroes[0].options[0].texts, "en")[k]);
      }
    }
  }

  /** The matches of the texts of `iron man` in `I saw spererman in the city` are accounted for. */
  lemma IronManTextsSettledInSawSpererman(u: string)
    requires ReadsSawSpererman(u)
    ensures forall k :: 0 <= k < |Bucket(Heroes[0].options[1].texts, "en")| ==>
      AccountedFor(SawSperermanFound, MatchText(u, Words(u), Heroes[0].name, Heroes[0].options[1].name, Bucket(Heroes[0].options[1].texts, "en")[k], 0.8))
  {
    forall k | 0 <= k < |Bucket(Heroes[0].options[1].texts, "en")|
      ensures AccountedFor(SawSperermanFound, MatchText(u, Words(u), Heroes[0].name, Heroes[0].options[1].name, Bucket(Heroes[0].options[1].texts, "en")[k], 0.8))
    {
      HeroesTexts();
      if k == 0 {
        IronManSettledInSawSpererman(u, Heroes[0].name, Heroes[0].options[1].name, Bucket(Heroes[0].options[1].texts, "en")[k]);
      } else {
        IronHyphenManSettledInSawSpererman(u, Heroes[0].name, Heroes[0].options[1].name, Bucket(Heroes[0].options[1].texts, "en")[k]);
      }
    }
  }

  /** The matches of the texts of `thor` in `I saw spererman in the city` are accounted for. */
  lemma ThorTextsSettledInSawSpererman(u: string)
    requires ReadsSawSpererman(u)
    ensures forall k :: 0 <= k < |Bucket(Heroes[0].options[2].texts, "en")| ==>
      AccountedFor(SawSperermanFound, MatchText(u, Words(u), Heroes[0].name, Heroes[0].options[2].name, Bucket(Heroes[0].options[2].texts, "en")[k], 0.8))
  {
    forall k | 0 <= k < |Bucket(Heroes[0].options[2].texts, "en")|
      ensures AccountedFor(SawSperermanFound, MatchText(u, Words(u), Heroes[0].name, Heroes[0].options[2].name, Bucket(Heroes[0].options[2].texts, "en")[k], 0.8))
    {
      HeroesTexts();
      ThorSettledInSawSpererman(u, Heroes[0].name, Heroes[0].options[2].name, Bucket(Heroes[0].options[2].texts, "en")[k]);
    }
  }

  /** `I saw spererman in the city`, threshold 0.8: nothing, as `spererman` is two edits from `Spiderman`. */
  lemma FindsNoSpererman()
    ensures FindEntities(Heroes, 0.8, SawSpererman, "en") ==
      []
  {
    SawSperermanReads();
    FindsNoSperermanWhen(SawSpererman);
  }

  lemma FindsNoSperermanWhen(u: string)
    requires ReadsSawSpererman(u)
    ensures FindEntities(Heroes, 0.8, u, "en") == SawSperermanFound
  {
    SpidermanTextsSettledInSawSpererman(u);
    IronManTextsSettledInSawSpererman(u);
    ThorTextsSettledInSawSpererman(u);
    HeroesFound(u, 0.8, SawSperermanFound);
  }

  // ---------------------------------------------------------------------------
  // I saw spiderman eating spaghetti in the city, threshold 0.5

  /** `Spiderman` is matched exactly at 6..15 of `I saw spiderman eating spaghetti in the city`. */
  lemma SpidermanExactInSawSpidermanEating(u: string, entity: string, option: string, t: string)
    requires ReadsSawSpidermanEating(u) && t == "Spiderman"
    ensures MatchText(u, Words(u), entity, option, t, 0.5) ==
      Some(EntityOccurrence(6, 15, 0, 1.0, entity, option, t, "spiderman"))
  {
    ExactSpan(u, entity, option, "Spiderman", 0.5, 6, "spiderman");
    ExactOccurrence(u, entity, option, "Spiderman", 0.5, 6, "spiderman");
  }

  /**
   * A placement of `Spider-man` in `I saw spiderman eating spaghetti in the city` that scores above 0.5
   * starts at 6, ends by 15, and is not exact.
   */
  lemma SpiderHyphenManOverlapsInSawSpidermanEating(u: string, o: EntityOccurrence)
    requires ReadsSawSpidermanEating(u) && Placed(u, o) && Scored(0.5, o) && o.sourceText == "Spider-man"
    ensures o.start == 6 && o.end <= 15 && o.accuracy < 1.0
  {
    if o.start == 23 && o.end == 32 {
      SpiderHyphenManFarFromSpaghetti();
      Unscored(u, 5, o, 23, "spaghetti", "Spider-man", "spider-man", 5, false);
    } else if o.start == 23 && o.end == 35 {
      SpiderHyphenManFarFromSpaghettiIn();
      Unscored(u, 5, o, 23, "spaghetti in", "Spider-man", "spider-man", 6, true);
    } else if o.start == 33 && o.end == 44 {
      SpiderHyphenManFarFromInTheCity();
      Unscored(u, 5, o, 33, "in the city", "Spider-man", "spider-man", 6, false);
    } else if o.start == 36 && o.end == 44 {
      SpiderHyphenManFarFromTheCity();
      Unscored(u, 5, o, 36, "the city", "Spider-man", "spider-man", 5, false);
    }
    OccurrenceScores(u, 0.5, o);
  }

  /** The match of `Spider-man` in `I saw spiderman eating spaghetti in the city` is accounted for by the reported occurrences. */
  lemma SpiderHyphenManSettledInSawSpidermanEating(u: string, entity: string, option: string, t: string)
    requires ReadsSawSpidermanEating(u) && t == "Spider-man"
    ensures AccountedFor(SawSpidermanEatingFound, MatchText(u, Words(u), entity, option, t, 0.5))
  {
    var m := MatchText(u, Words(u), entity, option, t, 0.5);
    if m.Some? {
      SpiderHyphenManOverlapsInSawSpidermanEating(u, m.value);
      UnderSawSpidermanEating(m.value);
    }
  }

  /**
   * A placement of `iron man` in `I saw spiderman eating spaghetti in the city` that scores above 0.5
   * starts at 6, ends by 15, and is not exact.
   */
  lemma IronManOverlapsInSawSpidermanEating(u: string, o: EntityOccurrence)
    requires ReadsSawSpidermanEating(u) && Placed(u, o) && Scored(0.5, o) && o.sourceText == "iron man"
    ensures o.start == 6 && o.end <= 15 && o.accuracy < 1.0
  {
    if o.start == 16 && o.end == 22 {
      IronManFarFromEating();
      Unscored(u, 5, o, 16, "eating", "iron man", "iron man", 4, false);
    } else if o.start == 23 && o.end == 32 {
      IronManFarFromSpaghetti();
      Unscored(u, 5, o, 23, "spaghetti", "iron man", "iron man", 5, false);
    } else if o.start == 33 && o.end == 39 {
      IronManFarFromInThe();
      Unscored(u, 5, o, 33, "in the", "iron man", "iron man", 4, false);
    } else if o.start == 36 && o.end == 44 {
      IronManFarFromTheCity();
      Unscored(u, 5, o, 36, "the city", "iron man", "iron man", 4, false);
    }
    OccurrenceScores(u, 0.5, o);
  }

  /** The match of `iron man` in `I saw spiderman eating spaghetti in the city` is accounted for by the reported occurrences. */
  lemma IronManSettledInSawSpidermanEating(u: string, entity: string, option: string, t: string)
    requires ReadsSawSpidermanEating(u) && t == "iron man"
    ensures AccountedFor(SawSpidermanEatingFound, MatchText(u, Words(u), entity, option, t, 0.5))
  {
    var m := MatchText(u, Words(u), entity, option, t, 0.5);
    if m.Some? {
      IronManOverlapsInSawSpidermanEating(u, m.value);
      UnderSawSpidermanEating(m.value);
    }
  }

  /**
   * A placement of `iron-man` in `I saw spiderman eating spaghetti in the city` that scores above 0.5
   * starts at 6, ends by 15, and is not exact.
   */
  lemma IronHyphenManOverlapsInSawSpidermanEating(u: string, o: EntityOccurrence)
    requires ReadsSawSpidermanEating(u) && Placed(u, o) && Scored(0.5, o) && o.sourceText == "iron-man"
    ensures o.start == 6 && o.end <= 15 && o.accuracy < 1.0
  {
    if o.start == 16 && o.end == 22 {
      IronHyphenManFarFromEating();
      Unscored(u, 5, o, 16, "eating", "iron-man", "iron-man", 4, false);
    } else if o.start == 23 && o.end == 32 {
      IronHyphenManFarFromSpaghetti();
      Unscored(u, 5, o, 23, "spaghetti", "iron-man", "iron-man", 5, false);
    } else if o.start == 33 && o.end == 39 {
      IronHyphenManFarFromInThe();
      Unscored(u, 5, o, 33, "in the", "iron-man", "iron-man", 4, false);
    } else if o.start == 36 && o.end == 44 {
      IronHyphenManFarFromTheCity();
      Unscored(u, 5, o, 36, "the city", "iron-man", "iron-man", 4, false);
    }
    OccurrenceScores(u, 0.5, o);
  }

  /** The match of `iron-man` in `I saw spiderman eating spaghetti in the city` is accounted for by the reported occurrences. */
  lemma IronHyphenManSettledInSawSpidermanEating(u: string, entity: string, option: string, t: string)
    requires ReadsSawSpidermanEating(u) && t == "iron-man"
    ensures AccountedFor(SawSpidermanEatingFound, MatchText(u, Words(u), entity, option, t, 0.5))
  {
    var m := MatchText(u, Words(u), entity, option, t, 0.5);
    if m.Some? {
      IronHyphenManOverlapsInSawSpidermanEating(u, m.value);
      UnderSawSpidermanEating(m.value);
    }
  }

  /** No placement of `Thor` in `I saw spiderman eating spaghetti in the city` scores above 0.5. */
  lemma ThorNotInSawSpidermanEating(u: string, o: EntityOccurrence)
    requires ReadsSawSpidermanEating(u) && Placed(u, o) && o.sourceText == "Thor"
    ensures !Scored(0.5, o)
  {
    if o.start == 0 && o.end == 5 {
      ThorFarFromISaw();
      Unscored(u, 5, o, 0, "i saw", "Thor", "thor", 3, false);
    } else if o.start == 2 && o.end == 5 {
      ThorFarFromSaw();
      Unscored(u, 5, o, 2, "saw", "Thor", "thor", 2, false);
    } else if o.start == 16 && o.end == 22 {
      ThorFarFromEating();
      Unscored(u, 5, o, 16, "eating", "Thor", "thor", 3, false);
    } else if o.start == 33 && o.end == 35 {
      ThorFarFromIn();
      Unscored(u, 5, o, 33, "in", "Thor", "thor", 2, false);
    } else if o.start == 33 && o.end == 39 {
      ThorFarFromInThe();
      Unscored(u, 5, o, 33, "in the", "Thor", "thor", 3, false);
    } else if o.start == 36 && o.end == 39 {
      ThorFarFromThe();
      Unscored(u, 5, o, 36, "the", "Thor", "thor", 2, false);
    } else if o.start == 40 && o.end == 44 {
      ThorFarFromCity();
      Unscored(u, 5, o, 40, "city", "Thor", "thor", 2, false);
    }
  }

  /** The match of `Thor` in `I saw spiderman eating spaghetti in the city` is accounted for by the reported occurrences. */
  lemma ThorSettledInSawSpidermanEating(u: string, entity: string, option: string, t: string)
    requires ReadsSawSpidermanEating(u) && t == "Thor"
    ensures AccountedFor(SawSpidermanEatingFound, MatchText(u, Words(u), entity, option, t, 0.5))
  {
    var m := MatchText(u, Words(u), entity, option, t, 0.5);
    if m.Some? {
      ThorNotInSawSpidermanEating(u, m.value);
    }
  }

  /** No placement of `Burguer` in `I saw spiderman eating spaghetti in the city` scores above 0.5. */
  lemma BurguerNotInSawSpidermanEating(u: string, o: EntityOccurrence)
    requires ReadsSawSpidermanEating(u) && Placed(u, o) && o.sourceText == "Burguer"
    ensures !Scored(0.5, o)
  {
    if o.start == 0 && o.end == 5 {
      BurguerFarFromISaw();
      Unscored(u, 5, o, 0, "i saw", "Burguer", "burguer", 4, false);
    } else if o.start == 6 && o.end == 15 {
      BurguerFarFromSpiderman();
      Unscored(u, 5, o, 6, "spiderman", "Burguer", "burguer", 5, false);
    } else if o.start == 16 && o.end == 22 {
      BurguerFarFromEating();
      Unscored(u, 5, o, 16, "eating", "Burguer", "burguer", 4, false);
    } else if o.start == 23 && o.end == 32 {
      BurguerFarFromSpaghetti();
      Unscored(u, 5, o, 23, "spaghetti", "Burguer", "burguer", 5, false);
    } else if o.start == 33 && o.end == 39 {
      BurguerFarFromInThe();
      Unscored(u, 5, o, 33, "in the", "Burguer", "burguer", 4, false);
    } else if o.start == 36 && o.end == 44 {
      BurguerFarFromTheCity();
      Unscored(u, 5, o, 36, "the city", "Burguer", "burguer", 4, false);
    }
  }

  /** The match of `Burguer` in `I saw spiderman eating spaghetti in the city` is accounted for by the reported occurrences. */
  lemma BurguerSettledInSawSpidermanEating(u: string, entity: string, option: string, t: string)
    requires ReadsSawSpidermanEating(u) && t == "Burguer"
    ensures AccountedFor(SawSpidermanEatingFound, MatchText(u, Words(u), entity, option, t, 0.5))
  {
    var m := MatchText(u, Words(u), entity, option, t, 0.5);
    if m.Some? {
      BurguerNotInSawSpidermanEating(u, m.value);
    }
  }

  /** No placement of `Hamburguer` in `I saw spiderman eating spaghetti in the city` scores above 0.5. */
  lemma HamburguerNotInSawSpidermanEating(u: string, o: EntityOccurrence)
    requires ReadsSawSpidermanEating(u) && Placed(u, o) && o.sourceText == "Hamburguer"
    ensures !Scored(0.5, o)
  {
    if o.start == 6 && o.end == 15 {
      HamburguerFarFromSpiderman();
      Unscored(u, 5, o, 6, "spiderman", "Hamburguer", "hamburguer", 5, false);
    } else if o.start == 23 && o.end == 32 {
      HamburguerFarFromSpaghetti();
      Unscored(u, 5, o, 23, "spaghetti", "Hamburguer", "hamburguer", 5, false);
    } else if o.start == 23 && o.end == 35 {
      HamburguerFarFromSpaghettiIn();
      Unscored(u, 5, o, 23, "spaghetti in", "Hamburguer", "hamburguer", 6, false);
    } else if o.start == 33 && o.end == 44 {
      HamburguerFarFromInTheCity();
      Unscored(u, 5, o, 33, "in the city", "Hamburguer", "hamburguer", 6, false);
    } else if o.start == 36 && o.end == 44 {
      HamburguerFarFromTheCity();
      Unscored(u, 5, o, 36, "the city", "Hamburguer", "hamburguer", 5, false);
    }
  }

  /** The match of `Hamburguer` in `I saw spiderman eating spaghetti in the city` is accounted for by the reported occurrences. */
  lemma HamburguerSettledInSawSpidermanEating(u: string, entity: string, option: string, t: string)
    requires ReadsSawSpidermanEating(u) && t == "Hamburguer"
    ensures AccountedFor(SawSpidermanEatingFound, MatchText(u, Words(u), entity, option, t, 0.5))
  {
    var m := MatchText(u, Words(u), entity, option, t, 0.5);
    if m.Some? {
      HamburguerNotInSawSpidermanEating(u, m.value);
    }
  }

  /** No placement of `pizza` in `I saw spiderman eating spaghetti in the city` scores above 0.5. */
  lemma PizzaNotInSawSpidermanEating(u: string, o: EntityOccurrence)
    requires ReadsSawSpidermanEating(u) && Placed(u, o) && o.sourceText == "pizza"
    ensures !Scored(0.5, o)
  {
    if o.start == 0 && o.end == 5 {
      PizzaFarFromISaw();
      Unscored(u, 5, o, 0, "i saw", "pizza", "pizza", 3, false);
    } else if o.start == 2 && o.end == 5 {
      PizzaFarFromSaw();
      Unscored(u, 5, o, 2, "saw", "pizza", "pizza", 3, false);
    } else if o.start == 16 && o.end == 22 {
      PizzaFarFromEating();
      Unscored(u, 5, o, 16, "eating", "pizza", "pizza", 3, false);
    } else if o.start == 33 && o.end == 39 {
      PizzaFarFromInThe();
      Unscored(u, 5, o, 33, "in the", "pizza", "pizza", 3, false);
    } else if o.start == 36 && o.end == 39 {
      PizzaFarFromThe();
      Unscored(u, 5, o, 36, "the", "pizza", "pizza", 3, false);
    } else if o.start == 40 && o.end == 44 {
      PizzaFarFromCity();
      Unscored(u, 5, o, 40, "city", "pizza", "pizza", 3, false);
    }
  }

  /** The match of `pizza` in `I saw spiderman eating spaghetti in the city` is accounted for by the reported occurrences. */
  lemma PizzaSettledInSawSpidermanEating(u: string, entity: string, option: string, t: string)
    requires ReadsSawSpidermanEating(u) && t == "pizza"
    ensures AccountedFor(SawSpidermanEatingFound, MatchText(u, Words(u), entity, option, t, 0.5))
  {
    var m := MatchText(u, Words(u), entity, option, t, 0.5);
    if m.Some? {
      PizzaNotInSawSpidermanEating(u, m.value);
    }
  }

  /** No placement of `Pasta` in `I saw spiderman eating spaghetti in the city` scores above 0.5. */
  lemma PastaNotInSawSpidermanEating(u: string, o: EntityOccurrence)
    requires ReadsSawSpidermanEating(u) && Placed(u, o) && o.sourceText == "Pasta"
    ensures !Scored(0.5, o)
  {
    if o.start == 0 && o.end == 5 {
      PastaFarFromISaw();
      Unscored(u, 5, o, 0, "i saw", "Pasta", "pasta", 3, false);
    } else if o.start == 2 && o.end == 5 {
      PastaFarFromSaw();
      Unscored(u, 5, o, 2, "saw", "Pasta", "pasta", 3, false);
    } else if o.start == 16 && o.end == 22 {
      PastaFarFromEating();
      Unscored(u, 5, o, 16, "eating", "Pasta", "pasta", 3, false);
    } else if o.start == 33 && o.end == 39 {
      PastaFarFromInThe();
      Unscored(u, 5, o, 33, "in the", "Pasta", "pasta", 3, false);
    } else if o.start == 36 && o.end == 39 {
      PastaFarFromThe();
      Unscored(u, 5, o, 36, "the", "Pasta", "pasta", 3, false);
    } else if o.start == 40 && o.end == 44 {
      PastaFarFromCity();
      Unscored(u, 5, o, 40, "city", "Pasta", "pasta", 3, false);
    }
  }

  /** The match of `Pasta` in `I saw spiderman eating spaghetti in the city` is accounted for by the reported occurrences. */
  lemma PastaSettledInSawSpidermanEating(u: string, entity: string, option: string, t: string)
    requires ReadsSawSpidermanEating(u) && t == "Pasta"
    ensures AccountedFor(SawSpidermanEatingFound, MatchText(u, Words(u), entity, option, t, 0.5))
  {
    var m := MatchText(u, Words(u), entity, option, t, 0.5);
    if m.Some? {
      PastaNotInSawSpidermanEating(u, m.value);
    }
  }

  /** `spaghetti` is matched exactly at 23..32 of `I saw spiderman eating spaghetti in the city`. */
  lemma SpaghettiExactInSawSpidermanEating(u: string, entity: string, option: string, t: string)
    requires ReadsSawSpidermanEating(u) && t == "spaghetti"
    ensures MatchText(u, Words(u), entity, option, t, 0.5) ==
      Some(EntityOccurrence(23, 32, 0, 1.0, entity, option, t, "spaghetti"))
  {
    forall w | WordAligned(u, w) && w.start < 23 && w.end == w.start + 9
      ensures Text.Lower(u[w.start..w.end]) != "spaghetti"
    {
      if w.start == 6 {
        Text.FoldsToSlice(u, 6, "spiderman");
        assert "spiderman"[2] != "spaghetti"[2];
      }
    }
    ExactSpan(u, entity, option, "spaghetti", 0.5, 23, "spaghetti");
    ExactOccurrence(u, entity, option, "spaghetti", 0.5, 23, "spaghetti");
  }

  /** A lower-scoring match that starts with the first reported occurrence and ends before the next is accounted for. */
  lemma UnderSawSpidermanEating(c: EntityOccurrence)
    requires c.start == 6 < c.end <= 15 && c.accuracy < 1.0
    ensures AccountedFor(SawSpidermanEatingFound, Some(c))
  {
    UnderFirst(SawSpidermanEatingFound, Some(c));
  }

  /** The matches of the texts of `spiderman` in `I saw spiderman eating spaghetti in the city` are accounted for. */
  lemma SpidermanTextsSettledInSawSpidermanEating(u: string)
    requires ReadsSawSpidermanEating(u)
    ensures forall k :: 0 <= k < |Bucket(HeroesAndFood[0].options[0].texts, "en")| ==>
      AccountedFor(SawSpidermanEatingFound, MatchText(u, Words(u), HeroesAndFood[0].name, HeroesAndFood[0].options[0].name, Bucket(HeroesAndFood[0].options[0].texts, "en")[k], 0.5))
  {
    forall k | 0 <= k < |Bucket(HeroesAndFood[0].options[0].texts, "en")|
      ensures AccountedFor(SawSpidermanEatingFound, MatchText(u, Words(u), HeroesAndFood[0].name, HeroesAndFood[0].options[0].name, Bucket(HeroesAndFood[0].options[0].texts, "en")[k], 0.5))
    {
      HeroesAndFoodTexts();
      if k == 0 {
        SpidermanExactInSawSpidermanEating(u, HeroesAndFood[0].name, HeroesAndFood[0].options[0].name, Bucket(HeroesAndFood[0].options[0].texts, "en")[k]);
      } else {
        SpiderHyphenManSettledInSawSpidermanEating(u, HeroesAndFood[0].name, HeroesAndFood[0].options[0].name, Bucket(HeroesAndFood[0].options[0].texts, "en")[k]);
      }
    }
  }

  /** The matches of the texts of `iron man` in `I saw spiderman eating spaghetti in the city` are accounted for. */
  lemma IronManTextsSettledInSawSpidermanEating(u: string)
    requires ReadsSawSpidermanEating(u)
    ensures forall k :: 0 <= k < |Bucket(HeroesAndFood[0].options[1].texts, "en")| ==>
      AccountedFor(SawSpidermanEatingFound, MatchText(u, Words(u), HeroesAndFood[0].name, HeroesAndFood[0].options[1].name, Bucket(HeroesAndFood[0].options[1].texts, "en")[k], 0.5))
  {
    forall k | 0 <= k < |Bucket(HeroesAndFood[0].options[1].texts, "en")|
      ensures AccountedFor(SawSpidermanEatingFound, MatchText(u, Words(u), HeroesAndFood[0].name, HeroesAndFood[0].options[1].name, Bucket(HeroesAndFood[0].options[1].texts, "en")[k], 0.5))
    {
      HeroesAndFoodTexts();
      if k == 0 {
        IronManSettledInSawSpidermanEating(u, HeroesAndFood[0].name, HeroesAndFood[0].options[1].name, Bucket(HeroesAndFood[0].options[1].texts, "en")[k]);
      } else {
        IronHyphenManSettledInSawSpidermanEating(u, HeroesAndFood[0].name, HeroesAndFood[0].options[1].name, Bucket(HeroesAndFood[0].options[1].texts, "en")[k]);
      }
    }
  }

  /** The matches of the texts of `thor` in `I saw spiderman eating spaghetti in the city` are accounted for. */
  lemma ThorTextsSettledInSawSpidermanEating(u: string)
    requires ReadsSawSpidermanEating(u)
    ensures forall k :: 0 <= k < |Bucket(HeroesAndFood[0].options[2].texts, "en")| ==>
      AccountedFor(SawSpidermanEatingFound, MatchText(u, Words(u), HeroesAndFood[0].name, HeroesAndFood[0].options[2].name, Bucket(HeroesAndFood[0].options[2].texts, "en")[k], 0.5))
  {
    forall k | 0 <= k < |Bucket(HeroesAndFood[0].options[2].texts, "en")|
      ensures AccountedFor(SawSpidermanEatingFound, MatchText(u, Words(u), HeroesAndFood[0].name, HeroesAndFood[0].options[2].name, Bucket(HeroesAndFood[0].options[2].texts, "en")[k], 0.5))
    {
      HeroesAndFoodTexts();
      ThorSettledInSawSpidermanEating(u, HeroesAndFood[0].name, HeroesAndFood[0].options[2].name, Bucket(HeroesAndFood[0].options[2].texts, "en")[k]);
    }
  }

  /** The matches of the texts of `burguer` in `I saw spiderman eating spaghetti in the city` are accounted for. */
  lemma BurguerTextsSettledInSawSpidermanEating(u: string)
    requires ReadsSawSpidermanEating(u)
    ensures forall k :: 0 <= k < |Bucket(HeroesAndFood[1].options[0].texts, "en")| ==>
      AccountedFor(SawSpidermanEatingFound, MatchText(u, Words(u), HeroesAndFood[1].name, HeroesAndFood[1].options[0].name, Bucket(HeroesAndFood[1].options[0].texts, "en")[k], 0.5))
  {
    forall k | 0 <= k < |Bucket(HeroesAndFood[1].options[0].texts, "en")|
      ensures AccountedFor(SawSpidermanEatingFound, MatchText(u, Words(u), HeroesAndFood[1].name, HeroesAndFood[1].options[0].name, Bucket(HeroesAndFood[1].options[0].texts, "en")[k], 0.5))
    {
      HeroesAndFoodTexts();
      if k == 0 {
        BurguerSettledInSawSpidermanEating(u, HeroesAndFood[1].name, HeroesAndFood[1].options[0].name, Bucket(HeroesAndFood[1].options[0].texts, "en")[k]);
      } else {
        HamburguerSettledInSawSpidermanEating(u, HeroesAndFood[1].name, HeroesAndFood[1].options[0].name, Bucket(HeroesAndFood[1].options[0].texts, "en")[k]);
      }
    }
  }

  /** The matches of the texts of `pizza` in `I saw spiderman eating spaghetti in the city` are accounted for. */
  lemma PizzaTextsSettledInSawSpidermanEating(u: string)
    requires ReadsSawSpidermanEating(u)
    ensures forall k :: 0 <= k < |Bucket(HeroesAndFood[1].options[1].texts, "en")| ==>
      AccountedFor(SawSpidermanEatingFound, MatchText(u, Words(u), HeroesAndFood[1].name, HeroesAndFood[1].options[1].name, Bucket(HeroesAndFood[1].options[1].texts, "en")[k], 0.5))
  {
    forall k | 0 <= k < |Bucket(HeroesAndFood[1].options[1].texts, "en")|
      ensures AccountedFor(SawSpidermanEatingFound, MatchText(u, Words(u), HeroesAndFood[1].name, HeroesAndFood[1].options[1].name, Bucket(HeroesAndFood[1].options[1].texts, "en")[k], 0.5))
    {
      HeroesAndFoodTexts();
      PizzaSettledInSawSpidermanEating(u, HeroesAndFood[1].name, HeroesAndFood[1].options[1].name, Bucket(HeroesAndFood[1].options[1].texts, "en")[k]);
    }
  }

  /** The matches of the texts of `pasta` in `I saw spiderman eating spaghetti in the city` are accounted for. */
  lemma PastaTextsSettledInSawSpidermanEating(u: string)
    requires ReadsSawSpidermanEating(u)
    ensures forall k :: 0 <= k < |Bucket(HeroesAndFood[1].options[2].texts, "en")| ==>
      AccountedFor(SawSpidermanEatingFound, MatchText(u, Words(u), HeroesAndFood[1].name, HeroesAndFood[1].options[2].name, Bucket(HeroesAndFood[1].options[2].texts, "en")[k], 0.5))
  {
    forall k | 0 <= k < |Bucket(HeroesAndFood[1].options[2].texts, "en")|
      ensures AccountedFor(SawSpidermanEatingFound, MatchText(u, Words(u), HeroesAndFood[1].name, HeroesAndFood[1].options[2].name, Bucket(HeroesAndFood[1].options[2].texts, "en")[k], 0.5))
    {
      HeroesAndFoodTexts();
      if k == 0 {
        PastaSettledInSawSpidermanEating(u, HeroesAndFood[1].name, HeroesAndFood[1].options[2].name, Bucket(HeroesAndFood[1].options[2].texts, "en")[k]);
      } else {
        SpaghettiExactInSawSpidermanEating(u, HeroesAndFood[1].name, HeroesAndFood[1].options[2].name, Bucket(HeroesAndFood[1].options[2].texts, "en")[k]);
      }
    }
  }

  /** The occurrences reported in `I saw spiderman eating spaghetti in the city` go left to right, are not empty, and are registered texts. */
  lemma SawSpidermanEatingFoundInOrder()
    ensures Chain(SawSpidermanEatingFound) && NonEmptySpans(SawSpidermanEatingFound)
    ensures forall m :: m in SawSpidermanEatingFound ==> IsSurfaceText(HeroesAndFood, m.entity, m.option, "en", m.sourceText)
  {
    HeroesAndFoodTexts();
    forall m | m in SawSpidermanEatingFound
      ensures IsSurfaceText(HeroesAndFood, m.entity, m.option, "en", m.sourceText)
    {
      if m == SawSpidermanEatingFound[0] {
        assert HeroesAndFood[0].name == "hero" && HeroesAndFood[0].options[0].name == "spiderman" &&
          "Spiderman" in Bucket(HeroesAndFood[0].options[0].texts, "en");
      } else {
        assert m == SawSpidermanEatingFound[1];
        assert HeroesAndFood[1].name == "food" && HeroesAndFood[1].options[2].name == "pasta" &&
          "spaghetti" in Bucket(HeroesAndFood[1].options[2].texts, "en");
      }
    }
  }

  /** Each occurrence reported in `I saw spiderman eating spaghetti in the city` is its own text's match there. */
  lemma SawSpidermanEatingFoundOwn(u: string)
    requires ReadsSawSpidermanEating(u)
    ensures OwnMatches(u, Words(u), 0.5, SawSpidermanEatingFound)
  {
    SpidermanExactInSawSpidermanEating(u, "hero", "spiderman", "Spiderman");
    SpaghettiExactInSawSpidermanEating(u, "food", "pasta", "spaghetti");
    OwnPair(u, Words(u), 0.5, SawSpidermanEatingFound[0], SawSpidermanEatingFound[1]);
  }

  /** `I saw spiderman eating spaghetti in the city`, threshold 0.5, heroes and food: `Spiderman` at 6..15, then `spaghetti` for the option `pasta` at 23..32. */
  lemma FindsSpidermanAndSpaghetti()
    ensures FindEntities(HeroesAndFood, 0.5, SawSpidermanEating, "en") ==
      [EntityOccurrence(6, 15, 0, 1.0, "hero", "spiderman", "Spiderman", "spiderman"),
       EntityOccurrence(23, 32, 0, 1.0, "food", "pasta", "spaghetti", "spaghetti")]
  {
    SawSpidermanEatingReads();
    FindsSpidermanAndSpaghettiWhen(SawSpidermanEating);
  }

  lemma FindsSpidermanAndSpaghettiWhen(u: string)
    requires ReadsSawSpidermanEating(u)
    ensures FindEntities(HeroesAndFood, 0.5, u, "en") == SawSpidermanEatingFound
  {
    SpidermanTextsSettledInSawSpidermanEating(u);
    IronManTextsSettledInSawSpidermanEating(u);
    ThorTextsSettledInSawSpidermanEating(u);
    BurguerTextsSettledInSawSpidermanEating(u);
    PizzaTextsSettledInSawSpidermanEating(u);
    PastaTextsSettledInSawSpidermanEating(u);
    SawSpidermanEatingFoundInOrder();
    SawSpidermanEatingFoundOwn(u);
    HeroesAndFoodFound(u, 0.5, SawSpidermanEatingFound);
  }
}
