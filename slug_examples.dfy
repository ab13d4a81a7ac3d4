/** The concrete scenarios of the test suite (test/slug_test.rb), proved about
    the model. Each literal fact is kept in a lemma of its own, and each
    example follows from general lemmas about the rewrites. */
module SlugExamples {
  import opened SlugText
  import opened AsciiApproximations
  import opened Diacritics
  import opened Normalizer

  // ----- the stripper -----

  /** Three code points are stripped one after the other. */
  lemma StrippedThree(a: char, b: char, c: char)
    ensures Stripped([a, b, c]) == Emit(a) + Emit(b) + Emit(c)
  {
    StrippedSnoc([], a);
    assert [] + [a] == [a];
    StrippedSnoc([a], b);
    assert [a] + [b] == [a, b];
    StrippedSnoc([a, b], c);
    assert [a, b] + [c] == [a, b, c];
  }

  lemma AcaiEmits()
    ensures Emit('a') == "a" && Emit('c') == "c" && Emit('i') == "i"
    ensures Emit('\U{0327}') == [] && Emit('\U{0301}') == []
  {
    ApproximationKeys('a' as int);
    ApproximationKeys('c' as int);
    ApproximationKeys('i' as int);
    ApproximationKeys(0x327);
    ApproximationKeys(0x301);
  }

  lemma AcaiText()
    ensures "ac\U{0327}" + "ai\U{0301}" == "ac\U{0327}ai\U{0301}"
    ensures "ac" + "ai" == "acai"
  {
  }

  /** "açaí", decomposed, becomes "acai" (test/slug_test.rb:210-214). */
  lemma AcaiExample()
    ensures Stripped("ac\U{0327}ai\U{0301}") == "acai"
  {
    AcaiEmits();
    StrippedThree('a', 'c', '\U{0327}');
    StrippedThree('a', 'i', '\U{0301}');
    StrippedConcat("ac\U{0327}", "ai\U{0301}");
    AcaiText();
  }

  /** The letters without a decomposition in the Latin-1 test string,
      capitals then small letters, become "AEDOTh", "ss" and "aedoth"
      (test/slug_test.rb:216-224). */
  lemma TableLettersExample()
    ensures Stripped("\U{00C6}\U{00D0}\U{00D8}") == "AEDO"
    ensures Stripped("\U{00DE}\U{00DF}\U{00E6}") == "Thssae"
    ensures Stripped("\U{00F0}\U{00F8}\U{00FE}") == "doth"
  {
    LatinSubstitutes();
    StrippedThree('\U{00C6}', '\U{00D0}', '\U{00D8}');
    StrippedThree('\U{00DE}', '\U{00DF}', '\U{00E6}');
    StrippedThree('\U{00F0}', '\U{00F8}', '\U{00FE}');
  }

  // ----- what the normalizer keeps of a word -----

  /** Small letters and digits survive the deletion. */
  lemma AllKept(s: string)
    requires forall i :: 0 <= i < |s| ==> IsSlugChar(s[i])
    ensures DeleteDisallowed(s) == s
  {
    DeleteDisallowedKeeps(s);
  }

  lemma DeleteDisallowedCons(c: char, s: string)
    ensures DeleteDisallowed([c] + s) == (if Kept(c) then [c] else []) + DeleteDisallowed(s)
  {
    assert ([c] + s)[1..] == s;
  }

  /** One character outside `[a-z0-9\s-]` between two clean parts is deleted. */
  lemma DropBetween(x: string, c: char, y: string)
    requires forall i :: 0 <= i < |x| ==> IsSlugChar(x[i])
    requires forall i :: 0 <= i < |y| ==> IsSlugChar(y[i])
    requires !Kept(c)
    ensures DeleteDisallowed(x + ([c] + y)) == x + y
  {
    DeleteDisallowedConcat(x, [c] + y);
    DeleteDisallowedCons(c, y);
    AllKept(x);
    AllKept(y);
  }

  /** An acronym written with a period after each letter. */
  function Dotted(x: string): string {
    if x == [] then [] else [x[0], '.'] + Dotted(x[1..])
  }

  /** The periods of an acronym are deleted. */
  lemma {:induction false} DottedDeleted(x: string)
    requires forall i :: 0 <= i < |x| ==> IsSlugChar(x[i])
    ensures DeleteDisallowed(Dotted(x)) == x
  {
    if x != [] {
      DottedDeleted(x[1..]);
      var d := Dotted(x);
      assert d[1..][1..] == Dotted(x[1..]);
    }
  }

  // ----- titles of words -----

  /** Words separated by single spaces, given what the normalizer keeps of
      each, become those kept parts joined by dashes. */
  lemma NormalizedTitle(ws: seq<string>, clean: seq<string>)
    requires |ws| > 0 && |clean| == |ws|
    requires forall i :: 0 <= i < |ws| ==> IsWord(ws[i]) && CleanWord(ws[i]) == clean[i] && clean[i] != []
    ensures Normalized(Join(ws, ' ')) == Join(clean, '-')
  {
    NormalizedWords(ws);
    assert DeleteDisallowedWords(DowncaseWords(ws)) == clean;
  }

  lemma JoinTwo(a: string, b: string, sep: char)
    ensures Join([a, b], sep) == a + [sep] + b
  {
    assert [a, b][1..] == [b];
  }

  lemma JoinThree(a: string, b: string, c: string, sep: char)
    ensures Join([a, b, c], sep) == a + [sep] + b + [sep] + c
  {
    assert [a, b, c][1..] == [b, c];
    JoinTwo(b, c, sep);
    assert a + [sep] + (b + [sep] + c) == a + [sep] + b + [sep] + c;
  }

  lemma JoinFour(a: string, b: string, c: string, d: string, sep: char)
    ensures Join([a, b, c, d], sep) == a + [sep] + b + [sep] + c + [sep] + d
  {
    assert [a, b, c, d][1..] == [b, c, d];
    JoinThree(b, c, d, sep);
    assert a + [sep] + (b + [sep] + c + [sep] + d) == a + [sep] + b + [sep] + c + [sep] + d;
  }

  lemma JoinFive(a: string, b: string, c: string, d: string, e: string, sep: char)
    ensures Join([a, b, c, d, e], sep) == a + [sep] + b + [sep] + c + [sep] + d + [sep] + e
  {
    assert [a, b, c, d, e][1..] == [b, c, d, e];
    JoinFour(b, c, d, e, sep);
    assert a + [sep] + (b + [sep] + c + [sep] + d + [sep] + e) == a + [sep] + b + [sep] + c + [sep] + d + [sep] + e;
  }

  /** `w` is one word, and `c` is what the normalizer keeps of it. */
  predicate Word(w: string, c: string) {
    IsWord(w) && CleanWord(w) == c && c != []
  }

  lemma Title1(a: string, ca: string)
    requires Word(a, ca)
    ensures Normalized(a) == ca
  {
    NormalizedTitle([a], [ca]);
  }

  lemma Title2(a: string, b: string, ca: string, cb: string)
    requires Word(a, ca)
    requires Word(b, cb)
    ensures Normalized(a + " " + b) == ca + "-" + cb
  {
    NormalizedTitle([a, b], [ca, cb]);
    JoinTwo(a, b, ' ');
    JoinTwo(ca, cb, '-');
  }

  lemma Title3(a: string, b: string, c: string, ca: string, cb: string, cc: string)
    requires Word(a, ca)
    requires Word(b, cb)
    requires Word(c, cc)
    ensures Normalized(a + " " + b + " " + c) == ca + "-" + cb + "-" + cc
  {
    NormalizedTitle([a, b, c], [ca, cb, cc]);
    JoinThree(a, b, c, ' ');
    JoinThree(ca, cb, cc, '-');
  }

  lemma Title5(a: string, b: string, c: string, d: string, e: string,
               ca: string, cb: string, cc: string, cd: string, ce: string)
    requires Word(a, ca)
    requires Word(b, cb)
    requires Word(c, cc)
    requires Word(d, cd)
    requires Word(e, ce)
    ensures Normalized(a + " " + b + " " + c + " " + d + " " + e) == ca + "-" + cb + "-" + cc + "-" + cd + "-" + ce
  {
    NormalizedTitle([a, b, c, d, e], [ca, cb, cc, cd, ce]);
    JoinFive(a, b, c, d, e, ' ');
    JoinFive(ca, cb, cc, cd, ce, '-');
  }

  lemma CleanAbC() ensures Word("AbC", "abc") {
    assert Downcase("AbC") == "abc";
    AllKept("abc");
  }

  /** Capitals are lower-cased (test/slug_test.rb:126-130). */
  lemma LowercasesExample()
    ensures Normalized("AbC") == "abc"
  {
    CleanAbC();
    Title1("AbC", "abc");
  }

  /** Small letters and digits are kept as they are. */
  lemma CleanLowerWord(w: string)
    requires forall i :: 0 <= i < |w| ==> IsSlugChar(w[i])
    ensures CleanWord(w) == w
  {
    DowncaseIdentity(w);
    AllKept(w);
  }

  /** A nonempty run of small letters and digits is a word kept whole. */
  lemma LowerWord(w: string)
    requires w != [] && forall i :: 0 <= i < |w| ==> 'a' <= w[i] <= 'z' || '0' <= w[i] <= '9'
    ensures Word(w, w)
  {
    CleanLowerWord(w);
  }

  /** A capital followed by small letters and digits: only the capital changes. */
  lemma CapitalizedWord(u: char, rest: string)
    requires IsUpper(u)
    requires forall i :: 0 <= i < |rest| ==> 'a' <= rest[i] <= 'z' || '0' <= rest[i] <= '9'
    ensures Word([u] + rest, [LowerChar(u)] + rest)
  {
    CapitalizedDowncase(u, rest);
    CapitalizedKept(u, rest);
    CapitalizedIsWord(u, rest);
  }

  lemma CapitalizedDowncase(u: char, rest: string)
    requires forall i :: 0 <= i < |rest| ==> 'a' <= rest[i] <= 'z' || '0' <= rest[i] <= '9'
    ensures Downcase([u] + rest) == [LowerChar(u)] + rest
  {
    DowncaseConcat([u], rest);
    DowncaseIdentity(rest);
    assert Downcase([u]) == [LowerChar(u)];
  }

  lemma CapitalizedKept(u: char, rest: string)
    requires IsUpper(u)
    requires forall i :: 0 <= i < |rest| ==> 'a' <= rest[i] <= 'z' || '0' <= rest[i] <= '9'
    ensures DeleteDisallowed([LowerChar(u)] + rest) == [LowerChar(u)] + rest
  {
    var c := [LowerChar(u)] + rest;
    forall i | 0 <= i < |c| ensures IsSlugChar(c[i]) {
      if i > 0 {
        assert c[i] == rest[i - 1];
      }
    }
    AllKept(c);
  }

  lemma CapitalizedIsWord(u: char, rest: string)
    requires IsUpper(u)
    requires forall i :: 0 <= i < |rest| ==> 'a' <= rest[i] <= 'z' || '0' <= rest[i] <= '9'
    ensures IsWord([u] + rest)
  {
    var w := [u] + rest;
    forall i | 0 <= i < |w| ensures !IsTrailingStrip(w[i]) && w[i] != '-' {
      if i > 0 {
        assert w[i] == rest[i - 1];
      }
    }
  }

  lemma SpaceText() ensures "a" + " " + "b" == "a b" && "a" + "-" + "b" == "a-b" {
  }

  /** A space becomes a dash (test/slug_test.rb:132-136). */
  lemma SpaceExample()
    ensures Normalized("a b") == "a-b"
  {
    LowerWord("a");
    LowerWord("b");
    Title2("a", "b", "a", "b");
    SpaceText();
  }

  lemma CleanTest() ensures Word("Test", "test") {
    CapitalizedWord('T', "est");
    assert ['T'] + "est" == "Test" && ['t'] + "est" == "test";
  }

  lemma CleanHeadline() ensures Word("Headline", "headline") {
    CapitalizedWord('H', "eadline");
    assert ['H'] + "eadline" == "Headline" && ['h'] + "eadline" == "headline";
  }

  lemma HeadlineText()
    ensures "Test" + " " + "Headline" == "Test Headline"
    ensures "test" + "-" + "headline" == "test-headline"
  {
  }

  /** "Test Headline" becomes "test-headline" (test/slug_test.rb:11-14). */
  lemma HeadlineExample()
    ensures Normalized("Test Headline") == "test-headline"
  {
    CleanTest();
    CleanHeadline();
    Title2("Test", "Headline", "test", "headline");
    HeadlineText();
  }

  lemma CleanElection() ensures Word("Election", "election") {
    CapitalizedWord('E', "lection");
    assert ['E'] + "lection" == "Election" && ['e'] + "lection" == "election";
  }

  lemma NumbersText()
    ensures "2010" + " " + "Election" == "2010 Election"
    ensures "2010" + "-" + "election" == "2010-election"
  {
  }

  /** Digits are kept: "2010 Election" becomes "2010-election"
      (test/slug_test.rb:198-202). */
  lemma NumbersExample()
    ensures Normalized("2010 Election") == "2010-election"
  {
    LowerWord("2010");
    CleanElection();
    Title2("2010", "Election", "2010", "election");
    NumbersText();
  }

  lemma DottedNYPD() ensures Dotted("nypd") == "n.y.p.d." {
  }

  lemma DottedNSA() ensures Dotted("nsa") == "n.s.a." {
  }

  lemma DottedFBI() ensures Dotted("fbi") == "f.b.i." {
  }

  lemma CleanNYPD() ensures Word("N.Y.P.D.", "nypd") {
    assert Downcase("N.Y.P.D.") == "n.y.p.d.";
    DottedNYPD();
    DottedDeleted("nypd");
  }

  lemma CleanNSA() ensures Word("N.S.A.", "nsa") {
    assert Downcase("N.S.A.") == "n.s.a.";
    DottedNSA();
    DottedDeleted("nsa");
  }

  lemma CleanFBI() ensures Word("F.B.I.", "fbi") {
    assert Downcase("F.B.I.") == "f.b.i.";
    DottedFBI();
    DottedDeleted("fbi");
  }

  lemma VsDeleted() ensures DeleteDisallowed("vs.") == "vs" {
    assert "vs" + ("." + []) == "vs.";
    DropBetween("vs", '.', []);
    assert "vs" + [] == "vs";
  }

  lemma CleanVs() ensures Word("vs.", "vs") {
    DowncaseIdentity("vs.");
    VsDeleted();
  }

  lemma AcronymsText()
    ensures "N.Y.P.D." + " " + "vs." + " " + "N.S.A." + " " + "vs." + " " + "F.B.I." == "N.Y.P.D. vs. N.S.A. vs. F.B.I."
    ensures "nypd" + "-" + "vs" + "-" + "nsa" + "-" + "vs" + "-" + "fbi" == "nypd-vs-nsa-vs-fbi"
  {
  }

  /** Periods in acronyms leave no dash behind (test/slug_test.rb:186-190). */
  lemma AcronymsExample()
    ensures Normalized("N.Y.P.D. vs. N.S.A. vs. F.B.I.") == "nypd-vs-nsa-vs-fbi"
  {
    CleanNYPD();
    CleanVs();
    CleanNSA();
    CleanFBI();
    Title5("N.Y.P.D.", "vs.", "N.S.A.", "vs.", "F.B.I.", "nypd", "vs", "nsa", "vs", "fbi");
    AcronymsText();
  }

  lemma CleanThomas() ensures Word("Thomas", "thomas") {
    CapitalizedWord('T', "homas");
    assert ['T'] + "homas" == "Thomas" && ['t'] + "homas" == "thomas";
  }

  lemma CleanJeffersons() ensures Word("Jefferson's", "jeffersons") {
    assert Downcase("Jefferson's") == "jefferson's";
    assert "jefferson" + ("'" + "s") == "jefferson's";
    DropBetween("jefferson", '\'', "s");
    assert "jefferson" + "s" == "jeffersons";
  }

  lemma CleanPapers() ensures Word("Papers", "papers") {
    CapitalizedWord('P', "apers");
    assert ['P'] + "apers" == "Papers" && ['p'] + "apers" == "papers";
  }

  lemma ApostropheText()
    ensures "Thomas" + " " + "Jefferson's" + " " + "Papers" == "Thomas Jefferson's Papers"
    ensures "thomas" + "-" + "jeffersons" + "-" + "papers" == "thomas-jeffersons-papers"
  {
  }

  /** An apostrophe leaves no dash behind (test/slug_test.rb:192-196). */
  lemma ApostropheExample()
    ensures Normalized("Thomas Jefferson's Papers") == "thomas-jeffersons-papers"
  {
    CleanThomas();
    CleanJeffersons();
    CleanPapers();
    Title3("Thomas", "Jefferson's", "Papers", "thomas", "jeffersons", "papers");
    ApostropheText();
  }

  // ----- white space and dashes at the edges -----

  lemma AbClean() ensures Normalized("ab") == "ab" {
    NormalizedFixesCleanSlug("ab");
  }

  lemma PaddedText() ensures " " + "ab" + [] == " ab" && [] + "ab" + " " == "ab " {
  }

  /** Leading white space is stripped (test/slug_test.rb:156-160). */
  lemma LeadingSpaceExample()
    ensures Normalized(" ab") == "ab"
  {
    NormalizedPadded(" ", "ab", []);
    PaddedText();
    AbClean();
  }

  /** Trailing white space is stripped (test/slug_test.rb:150-154). */
  lemma TrailingSpaceExample()
    ensures Normalized("ab ") == "ab"
  {
    NormalizedPadded([], "ab", " ");
    PaddedText();
    AbClean();
  }

  lemma TwoSpacesText() ensures "a" + "  " + "b" == "a  b" {
  }

  /** A run of two spaces becomes one dash (test/slug_test.rb:138-142). */
  lemma TwoSpacesExample()
    ensures Normalized("a  b") == "a-b"
  {
    NormalizedSpaceRun("a", "  ", "b");
    TwoSpacesText();
    SpaceText();
  }

  lemma TrailingDashText() ensures "ab" + "-" == "ab-" {
  }

  /** A trailing dash is removed (test/slug_test.rb:162-166). */
  lemma TrailingDashExample()
    ensures Normalized("ab-") == "ab"
  {
    NormalizedTrailingDash("ab");
    TrailingDashText();
  }

  /** A leading dash is kept: the source removes dashes at the end only, so
      "-ab" keeps its dash, which the test's substring match allows
      (test/slug_test.rb:168-172). */
  lemma LeadingDashExample()
    ensures Normalized("-ab") == "-ab"
  {
    NormalizedFixesCleanSlug("-ab");
  }

  /** A valid slug is left as it is (test/slug_test.rb:180-184). */
  lemma ValidSlugExample()
    ensures Normalized("a-b-c-d") == "a-b-c-d"
  {
    NormalizedFixesCleanSlug("a-b-c-d");
  }

  lemma CollapseTwoRuns() ensures CollapseDashes("a--b--c") == "a-b-c" {
    CollapseDashesJoin("b", "--", "c");
    assert "b" + "--" + "c" == "b--c";
    CollapseDashesIdentity("c");
    CollapseDashesJoin("a", "--", "b--c");
    assert "a" + "--" + "b--c" == "a--b--c";
  }

  /** Runs of dashes become one dash (test/slug_test.rb:174-178). */
  lemma DoubleDashesExample()
    ensures Normalized("a--b--c") == "a-b-c"
  {
    NormalizedSlugChars("a--b--c");
    CollapseTwoRuns();
  }

  /** Text with no character of `[a-z0-9\s-]` is deleted entirely. */
  lemma {:induction false} NoneKept(s: string)
    requires forall i :: 0 <= i < |s| ==> !Kept(s[i])
    ensures DeleteDisallowed(s) == []
  {
    if s != [] {
      NoneKept(s[1..]);
    }
  }

  lemma DollarsStages()
    ensures Downcase("$$$") == "$$$" && Strip("$$$") == "$$$" && DeleteDisallowed("$$$") == []
  {
    DowncaseIdentity("$$$");
    StripAround([], "$$$", []);
    assert [] + "$$$" + [] == "$$$";
    NoneKept("$$$");
  }

  /** `Normalized` is the six rewrites in a row. */
  lemma NormalizedStages(s: string, a: string, b: string, c: string, d: string, e: string, f: string)
    requires Downcase(s) == a && Strip(a) == b && DeleteDisallowed(b) == c
    requires DashSpaceRuns(c) == d && ChompDash(d) == e && CollapseDashes(e) == f
    ensures Normalized(s) == f
  {
  }

  /** Nothing sluggable is left of "$$$": the slug comes out empty, which
      the presence validation then rejects (test/slug_test.rb:51-55). */
  lemma NothingLeftExample()
    ensures Normalized("$$$") == ""
  {
    DollarsStages();
    NormalizedStages("$$$", "$$$", "$$$", [], [], [], []);
  }

  /** The punctuation title of test/slug_test.rb:144-148 after "abc", in
      three parts: ASCII marks, nine symbols that have no decomposition and
      are not in the table, and ASCII brackets and marks ending in a slash. */
  const Marks: string := "!@#$%^&*"
  const Symbols: string := "\U{2022}\U{00B6}\U{00A7}\U{221E}\U{00A2}\U{00A3}\U{00A3}\U{00A1}\U{00BF}"
  const Brackets: string := "()><?\"\"':;][]\\.,/"
  const Punctuation: string := Marks + Symbols + Brackets

  /** Stripping leaves three parts alone when it leaves each alone. */
  lemma StrippedParts(x: string, y: string, z: string)
    requires Stripped(x) == x && Stripped(y) == y && Stripped(z) == z
    ensures Stripped(x + y + z) == x + y + z
  {
    StrippedConcat(x, y);
    StrippedConcat(x + y, z);
  }

  /** The deletion removes three parts when it removes each. */
  lemma DeletedParts(x: string, y: string, z: string)
    requires DeleteDisallowed(x) == [] && DeleteDisallowed(y) == [] && DeleteDisallowed(z) == []
    ensures DeleteDisallowed(x + y + z) == []
  {
    DeleteDisallowedConcat(x, y);
    DeleteDisallowedConcat(x + y, z);
  }

  lemma SymbolsPlain()
    ensures Stripped(Symbols) == Symbols
  {
    StrippedIdentity(Symbols);
  }

  lemma PunctuationPlain()
    ensures Stripped("abc" + Punctuation) == "abc" + Punctuation
  {
    AsciiIsPlain("abc" + Marks);
    SymbolsPlain();
    AsciiIsPlain(Brackets);
    StrippedParts("abc" + Marks, Symbols, Brackets);
    assert "abc" + Marks + Symbols + Brackets == "abc" + Punctuation;
  }

  lemma PunctuationLower()
    ensures Downcase("abc" + Punctuation) == "abc" + Punctuation
  {
    DowncaseIdentity("abc" + Punctuation);
  }

  lemma PunctuationUnpadded()
    ensures Strip("abc" + Punctuation) == "abc" + Punctuation
  {
    var t := "abc" + Punctuation;
    StripAround([], t, []);
    assert [] + t + [] == t;
  }

  lemma MarksDeleted() ensures DeleteDisallowed(Marks) == [] {
    NoneKept(Marks);
  }

  lemma SymbolsDeleted() ensures DeleteDisallowed(Symbols) == [] {
    NoneKept(Symbols);
  }

  lemma BracketsDeleted() ensures DeleteDisallowed(Brackets) == [] {
    NoneKept(Brackets);
  }

  lemma PunctuationDeleted()
    ensures DeleteDisallowed("abc" + Punctuation) == "abc"
  {
    MarksDeleted();
    SymbolsDeleted();
    BracketsDeleted();
    DeletedParts(Marks, Symbols, Brackets);
    DeleteDisallowedConcat("abc", Punctuation);
    SlugCharsPassThrough("abc");
  }

  /** The punctuation title keeps its symbols through the stripper, and
      only "abc" survives normalizing, which the test's match on "abc"
      allows (test/slug_test.rb:144-148). */
  lemma PunctuationExample()
    ensures Stripped("abc" + Punctuation) == "abc" + Punctuation
    ensures Normalized("abc" + Punctuation) == "abc"
  {
    PunctuationPlain();
    PunctuationLower();
    PunctuationUnpadded();
    PunctuationDeleted();
    SlugCharsPassThrough("abc");
    assert Normalized("abc" + Punctuation) == Normalized("abc");
    NormalizedFixesCleanSlug("abc");
  }

  lemma SpaceDashesKept()
    ensures Downcase("ab --") == "ab --" && Strip("ab --") == "ab --" && DeleteDisallowed("ab --") == "ab --"
  {
    DowncaseIdentity("ab --");
    StripAround([], "ab --", []);
    assert [] + "ab --" + [] == "ab --";
    DeleteDisallowedIdentity("ab --");
  }

  lemma SpaceDashesRun() ensures DashSpaceRuns("ab --") == "ab---" {
    DashSpaceRunsJoin("ab", " ", "--");
    assert "ab" + " " + "--" == "ab --";
    DashSpaceRunsIdentity("--");
    assert "ab" + "-" + "--" == "ab---";
  }

  lemma ChompThreeDashes() ensures ChompDash("ab---") == "ab--" {
    assert "ab---"[..4] == "ab--";
  }

  lemma CollapseTrailingRun() ensures CollapseDashes("ab--") == "ab-" {
    CollapseDashesJoin("ab", "--", []);
    assert "ab" + "--" + [] == "ab--";
    assert "ab" + "-" + [] == "ab-";
  }

  /** The trailing dash is removed before runs of dashes are collapsed, so a
      title ending in white space and dashes keeps one dash, and normalizing
      that result again removes it: the normalizer is not idempotent. */
  lemma NotIdempotentExample()
    ensures Normalized("ab --") == "ab-"
    ensures Normalized(Normalized("ab --")) == "ab"
  {
    SpaceDashesKept();
    SpaceDashesRun();
    ChompThreeDashes();
    CollapseTrailingRun();
    NormalizedStages("ab --", "ab --", "ab --", "ab --", "ab---", "ab--", "ab-");
    NormalizedTwice("ab --");
    assert "ab-"[..2] == "ab";
  }

  lemma NulPaddedStrip()
    ensures Downcase("ab- \0") == "ab- \0" && Strip("ab- \0") == "ab-"
  {
    DowncaseIdentity("ab- \0");
    StripAround([], "ab-", " \0");
    assert [] + "ab-" + " \0" == "ab- \0";
  }

  /** `strip!` also removes NUL characters at the end, so a dash before
      trailing white space and NUL is the value's last character and is
      removed. */
  lemma TrailingNulExample()
    ensures Normalized("ab- \0") == "ab"
  {
    NulPaddedStrip();
    SlugCharsPassThrough("ab-");
    assert Normalized("ab- \0") == Normalized("ab-");
    TrailingDashExample();
  }
}
