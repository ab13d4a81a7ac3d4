/** The record-level behaviour the test suite describes (test/slug_test.rb),
    stated on the set_slug specification: each scenario fixes the stored
    slugs and the source value and derives the slug that is written. */
module SlugScenarios {
  import opened SlugText
  import opened Diacritics
  import opened Normalizer
  import opened Sequencer
  import opened Slug
  import opened SlugExamples

  /** An ASCII source value that does not start with white space is left
      alone by the stripper and goes straight to the normalizer. */
  lemma PlainTitle(title: string)
    requires forall i :: 0 <= i < |title| ==> title[i] < '\U{0080}'
    requires title != [] && !IsBlankChar(title[0])
    ensures StripStage(Some(title)) == Some(title)
    ensures NormalizeStage(Some(title)) == Some(Normalized(title))
  {
    AsciiIsPlain(title);
  }

  /** A slug made of slug characters is not blank. */
  lemma NotBlank(v: string)
    requires |v| > 0 && IsSlugChar(v[0])
    ensures !Blank(Some(v))
  {
  }

  lemma TestHeadlineSource()
    ensures NormalizeStage(StripStage(Some("Test Headline"))) == Some("test-headline")
  {
    PlainTitle("Test Headline");
    HeadlineExample();
  }

  /** The first "Test Headline" is stored without a suffix
      (test/slug_test.rb:228-231). */
  lemma FirstInstanceScenario(after: Option<string>)
    ensures SetSlugSpec(None, Some("Test Headline"), {}, false, after) <==> after == Some("test-headline")
  {
    TestHeadlineSource();
    NotBlank("test-headline");
    SetSlugStoresLeastFree(None, Some("Test Headline"), {}, false, "test-headline", 0, after);
  }

  lemma SecondInstanceFree()
    ensures IsLeastFree("test-headline", {"test-headline"}, 1)
    ensures Candidate("test-headline", 1) == "test-headline-1"
  {
    assert DecimalString(1) == "1";
    assert Candidate("test-headline", 0) == "test-headline";
  }

  /** The second "Test Headline" gets the suffix "-1"
      (test/slug_test.rb:233-237). */
  lemma SecondInstanceScenario(after: Option<string>)
    ensures SetSlugSpec(None, Some("Test Headline"), {"test-headline"}, false, after) <==> after == Some("test-headline-1")
  {
    TestHeadlineSource();
    NotBlank("test-headline");
    SecondInstanceFree();
    SetSlugStoresLeastFree(None, Some("Test Headline"), {"test-headline"}, false, "test-headline", 1, after);
  }

  lemma ThirteenthHeadline()
    ensures Candidate("test-headline", 12) == "test-headline-12"
  {
    ThirteenthInstance("test-headline");
    assert "test-headline" + "-12" == "test-headline-12";
  }

  /** The thirteenth "Test Headline" gets the suffix "-12"
      (test/slug_test.rb:259-263). */
  lemma ThirteenthInstanceScenario(after: Option<string>)
    ensures SetSlugSpec(None, Some("Test Headline"), Run("test-headline", 12), false, after) <==> after == Some("test-headline-12")
  {
    TestHeadlineSource();
    NotBlank("test-headline");
    ThirteenthInstance("test-headline");
    ThirteenthHeadline();
    SetSlugStoresLeastFree(None, Some("Test Headline"), Run("test-headline", 12), false, "test-headline", 12, after);
  }

  lemma NumericNormalized()
    ensures Normalized("11111") == "11111"
  {
    NormalizedFixesCleanSlug("11111");
  }

  lemma NumericSource()
    ensures NormalizeStage(StripStage(Some("11111"))) == Some("11111")
  {
    PlainTitle("11111");
    NumericNormalized();
  }

  /** The third "11111" gets the suffix "-2", the numeric base being no
      obstacle (test/slug_test.rb:239-243). */
  lemma NumericThirdScenario(after: Option<string>)
    ensures SetSlugSpec(None, Some("11111"), {"11111", "11111-1"}, false, after) <==> after == Some("11111-2")
  {
    NumericSource();
    NotBlank("11111");
    NumericBaseThird();
    SetSlugStoresLeastFree(None, Some("11111"), {"11111", "11111-1"}, false, "11111", 2, after);
  }

  lemma CleanRap() ensures Word("Rap", "rap") {
    assert Downcase("Rap") == "rap";
    CleanLowerWord("rap");
  }

  lemma RapNormalized()
    ensures Normalized("Rap") == "rap"
  {
    CleanRap();
    Title1("Rap", "rap");
  }

  lemma RapSource()
    ensures NormalizeStage(StripStage(Some("Rap"))) == Some("rap")
  {
    PlainTitle("Rap");
    RapNormalized();
  }

  /** "Rap" is stored as "rap" although "rap-metal" is taken
      (test/slug_test.rb:251-257). */
  lemma PartialMatchScenario(after: Option<string>)
    ensures SetSlugSpec(None, Some("Rap"), {"rap-metal"}, false, after) <==> after == Some("rap")
  {
    RapSource();
    NotBlank("rap");
    PartialMatchIsFree();
    SetSlugStoresLeastFree(None, Some("Rap"), {"rap-metal"}, false, "rap", 0, after);
  }

  /** A slug given on creation is kept (test/slug_test.rb:88-91), and so is
      one already set when the source changes (test/slug_test.rb:57-61). */
  lemma PresetSlugScenario(source: Option<string>, existing: set<string>, after: Option<string>)
    ensures SetSlugSpec(Some("slug1"), source, existing, false, after) <==> after == Some("slug1")
  {
    NotBlank("slug1");
    KeepsSlugWithoutForce(Some("slug1"), source, existing, after);
  }

  /** A missing source value leaves the slug blank, and a blank slug fails
      validation (test/slug_test.rb:45-49). */
  lemma MissingSourceScenario(existing: set<string>, after: Option<string>)
    ensures SetSlugSpec(None, None, existing, false, after) <==> after == None
    ensures !ValidSlug(None, existing)
  {
  }

  lemma DollarsSource()
    ensures NormalizeStage(StripStage(Some("$$$"))) == Some("")
  {
    PlainTitle("$$$");
    NothingLeftExample();
  }

  /** "$$$" normalizes to the empty slug, which is stored as it is and fails
      validation (test/slug_test.rb:51-55). */
  lemma NothingLeftScenario(existing: set<string>, after: Option<string>)
    ensures SetSlugSpec(None, Some("$$$"), existing, false, after) <==> after == Some("")
    ensures !ValidSlug(Some(""), existing)
  {
    DollarsSource();
  }

  /** A slug that is not in slug format fails validation
      (test/slug_test.rb:63-69). */
  lemma BadFormatScenario(existing: set<string>)
    ensures !ValidSlug(Some("A BAD $LUG."), existing)
  {
    assert !IsSlugChar("A BAD $LUG."[0]);
  }

  /** A slug another row holds fails validation (test/slug_test.rb:71-78). */
  lemma TakenSlugScenario()
    ensures !ValidSlug(Some("test-headline"), {"test-headline"})
  {
  }

  lemma LowerHeadlineText()
    ensures "test" + " " + "headline" == "test headline"
    ensures "test" + "-" + "headline" == "test-headline"
  {
  }

  lemma LowerHeadlineNormalized()
    ensures Normalized("test headline") == "test-headline"
  {
    LowerWord("test");
    LowerWord("headline");
    Title2("test", "headline", "test", "headline");
    LowerHeadlineText();
  }

  lemma LowerHeadlineSource()
    ensures NormalizeStage(StripStage(Some("test headline"))) == Some("test-headline")
  {
    PlainTitle("test headline");
    LowerHeadlineNormalized();
  }

  /** Resetting with the source unchanged keeps the slug, although the slug
      is itself stored (test/slug_test.rb:100-103). */
  lemma ResetUnchangedScenario(after: Option<string>)
    ensures SetSlugSpec(Some("test-headline"), Some("test headline"), {"test-headline"}, true, after)
            <==> after == Some("test-headline")
  {
    LowerHeadlineSource();
    ResetKeepsUnchangedSlug(Some("test-headline"), Some("test headline"), {"test-headline"}, after);
  }

  lemma DonkeySource()
    ensures NormalizeStage(StripStage(Some("donkey"))) == Some("donkey")
  {
    NormalizedFixesCleanSlug("donkey");
    PlainTitle("donkey");
  }

  /** Resetting after the source changed to "donkey" changes the slug
      (test/slug_test.rb:105-109). */
  lemma ResetChangedScenario(after: Option<string>)
    ensures SetSlugSpec(Some("test-headline"), Some("donkey"), {"test-headline"}, true, after)
            <==> after == Some("donkey")
  {
    DonkeySource();
    NotBlank("donkey");
    SetSlugStoresLeastFree(Some("test-headline"), Some("donkey"), {"test-headline"}, true, "donkey", 0, after);
  }

  lemma WorldCupText()
    ensures "world" + " " + "cup" == "world cup"
    ensures "world" + "-" + "cup" == "world-cup"
  {
  }

  lemma WorldCupNormalized()
    ensures Normalized("world cup") == "world-cup"
  {
    LowerWord("world");
    LowerWord("cup");
    Title2("world", "cup", "world", "cup");
    WorldCupText();
  }

  lemma WorldCupSource()
    ensures NormalizeStage(StripStage(Some("world cup"))) == Some("world-cup")
  {
    PlainTitle("world cup");
    WorldCupNormalized();
  }

  lemma WorldCupInstances()
    ensures Candidate("world-cup", 0) == "world-cup"
    ensures Candidate("world-cup", 1) == "world-cup-1"
    ensures Candidate("world-cup", 2) == "world-cup-2"
  {
    assert DecimalString(1) == "1" && DecimalString(2) == "2";
  }

  lemma WorldCupFree()
    ensures IsLeastFree("world-cup", {"test-headline", "world-cup"}, 1)
    ensures Candidate("world-cup", 1) == "world-cup-1"
  {
    WorldCupInstances();
    assert "world-cup-1" != "test-headline" && "world-cup-1" != "world-cup";
  }

  lemma WorldCupMoved()
    ensures IsLeastFree("world-cup", {"world-cup", "world-cup-1"}, 2)
    ensures Candidate("world-cup", 2) == "world-cup-2"
  {
    WorldCupInstances();
    assert "world-cup-2"[10] != "world-cup-1"[10];
    assert |"world-cup-2"| != |"world-cup"|;
  }

  /** Resetting to a taken value sequences it: "world cup" becomes
      "world-cup-1" next to the stored "world-cup" (test/slug_test.rb:111-116). */
  lemma ResetSequencesScenario(after: Option<string>)
    ensures SetSlugSpec(Some("test-headline"), Some("world cup"), {"test-headline", "world-cup"}, true, after)
            <==> after == Some("world-cup-1")
  {
    WorldCupSource();
    NotBlank("world-cup");
    WorldCupFree();
    SetSlugStoresLeastFree(Some("test-headline"), Some("world cup"), {"test-headline", "world-cup"}, true,
                           "world-cup", 1, after);
  }

  /** The unchanged-source guard compares with the sequenced slug: resetting
      "world-cup-1" with its source unchanged moves it to "world-cup-2",
      since its own slug counts as taken. */
  lemma ResetMovesSequencedSlug(after: Option<string>)
    ensures SetSlugSpec(Some("world-cup-1"), Some("world cup"), {"world-cup", "world-cup-1"}, true, after)
            <==> after == Some("world-cup-2")
  {
    WorldCupSource();
    NotBlank("world-cup");
    WorldCupMoved();
    SetSlugStoresLeastFree(Some("world-cup-1"), Some("world cup"), {"world-cup", "world-cup-1"}, true,
                           "world-cup", 2, after);
  }
}
