/** The orchestrator (lib/slug/slug.rb, InstanceMethods): a record whose slug
    column `set_slug` fills from its source column by stripping diacritics,
    normalizing and sequencing, each stage rewriting the column in turn.

    Rails' dynamic dispatch is modelled by two flags (does the source reader
    exist, does the slug writer exist) and the value the source reader
    returns. The slugs already stored in the table are a parameter of the
    operations that consult them. */
module Slug {
  import opened SlugText
  import opened Diacritics
  import opened Normalizer
  import opened Sequencer

  /** The two ArgumentErrors of validate_slug_columns. */
  datatype SlugError = SourceColumnMissing | SlugColumnMissing

  /** The column after strip_diacritics_from_slug: a blank value is left
      alone. */
  function StripStage(v: Option<string>): Option<string> {
    if Blank(v) then v else Some(Stripped(v.value))
  }

  /** The column after normalize_slug: a blank value is left alone. */
  function NormalizeStage(v: Option<string>): Option<string> {
    if Blank(v) then v else Some(Normalized(v.value))
  }

  /** The column after assign_slug_sequence: a blank value is left alone,
      any other becomes the first free instance of itself. */
  ghost predicate SequencedFrom(v: Option<string>, existing: set<string>, after: Option<string>) {
    if Blank(v) then after == v
    else exists n: nat :: IsLeastFree(v.value, existing, n) && after == Some(Candidate(v.value, n))
  }

  /** What set_slug does to the column once the columns are known to exist:
      nothing when the slug is already set and `force` is off; otherwise the
      source value stripped and normalized, then sequenced unless it equals
      the slug it replaces. */
  ghost predicate SetSlugSpec(before: Option<string>, source: Option<string>, existing: set<string>, force: bool, after: Option<string>) {
    if !Blank(before) && !force then after == before
    else
      var nv := NormalizeStage(StripStage(source));
      if nv == before then after == nv else SequencedFrom(nv, existing, after)
  }

  class SluggedRecord {
    /** `self[slug_column]`. */
    var slug: Option<string>
    /** What `send(slug_source)` returns. */
    var source: Option<string>
    /** `respond_to?(slug_source)`. */
    const hasSourceReader: bool
    /** `respond_to?("#{slug_column}=")`. */
    const hasSlugWriter: bool

    constructor (slug: Option<string>, source: Option<string>, hasSourceReader: bool, hasSlugWriter: bool)
      ensures this.slug == slug && this.source == source
      ensures this.hasSourceReader == hasSourceReader && this.hasSlugWriter == hasSlugWriter
    {
      this.slug := slug;
      this.source := source;
      this.hasSourceReader := hasSourceReader;
      this.hasSlugWriter := hasSlugWriter;
    }

    /** validate_slug_columns: the source reader is checked first, then the
        slug writer. */
    function ValidateSlugColumns(): (r: Option<SlugError>)
      ensures r.None? <==> hasSourceReader && hasSlugWriter
      ensures r == Some(SourceColumnMissing) <==> !hasSourceReader
      ensures r == Some(SlugColumnMissing) <==> hasSourceReader && !hasSlugWriter
    {
      if !hasSourceReader then Some(SourceColumnMissing)
      else if !hasSlugWriter then Some(SlugColumnMissing)
      else None
    }

    /** strip_diacritics_from_slug. */
    method StripDiacriticsFromSlug()
      modifies this`slug
      ensures slug == StripStage(old(slug))
    {
      if Blank(slug) {
        return;
      }
      var s := StripDiacritics(slug.value);
      slug := Some(s);
    }

    /** normalize_slug: the six rewrites applied in turn to a local copy. */
    method NormalizeSlug()
      modifies this`slug
      ensures slug == NormalizeStage(old(slug))
    {
      if Blank(slug) {
        return;
      }
      var s := slug.value;
      s := Downcase(s);
      s := Strip(s);
      s := DeleteDisallowed(s);
      s := DashSpaceRuns(s);
      s := ChompDash(s);
      s := CollapseDashes(s);
      slug := Some(s);
    }

    /** assign_slug_sequence: appends "-n" for the first free instance n > 0. */
    method AssignSlugSequence(existing: set<string>)
      modifies this`slug
      ensures SequencedFrom(old(slug), existing, slug)
    {
      if Blank(slug) {
        return;
      }
      var idx := NextSlugSequence(slug.value, existing);
      if idx > 0 {
        slug := Some(slug.value + "-" + DecimalString(idx));
      }
    }

    /** set_slug: raises before touching anything when a column is missing. */
    method SetSlug(force: bool, existing: set<string>) returns (err: Option<SlugError>)
      modifies this`slug
      ensures err == ValidateSlugColumns()
      ensures err.Some? ==> slug == old(slug)
      ensures err.None? ==> SetSlugSpec(old(slug), source, existing, force, slug)
    {
      err := ValidateSlugColumns();
      if err.Some? {
        return;
      }
      if !(Blank(slug) || force) {
        return;
      }
      var originalSlug := slug;
      slug := source;
      StripDiacriticsFromSlug();
      NormalizeSlug();
      if slug != originalSlug {
        AssignSlugSequence(existing);
      }
    }

    /** reset_slug: set_slug with `force` on. */
    method ResetSlug(existing: set<string>) returns (err: Option<SlugError>)
      modifies this`slug
      ensures err == ValidateSlugColumns()
      ensures err.Some? ==> slug == old(slug)
      ensures err.None? ==> SetSlugSpec(old(slug), source, existing, true, slug)
    {
      err := SetSlug(true, existing);
    }
  }

  // ----- what set_slug promises -----

  /** Without `force`, a slug that is already set is never replaced. */
  lemma KeepsSlugWithoutForce(before: Option<string>, source: Option<string>, existing: set<string>, after: Option<string>)
    requires !Blank(before)
    ensures SetSlugSpec(before, source, existing, false, after) <==> after == before
  {
  }

  /** Resetting when the source still gives the current slug leaves it as it
      is, even though that slug is itself stored. */
  lemma ResetKeepsUnchangedSlug(before: Option<string>, source: Option<string>, existing: set<string>, after: Option<string>)
    requires NormalizeStage(StripStage(source)) == before
    ensures SetSlugSpec(before, source, existing, true, after) <==> after == before
  {
  }

  /** The sequenced value is determined: there is exactly one. */
  lemma SequencedFromUnique(v: Option<string>, existing: set<string>, a: Option<string>, b: Option<string>)
    requires SequencedFrom(v, existing, a) && SequencedFrom(v, existing, b)
    ensures a == b
  {
    if !Blank(v) {
      var m: nat :| IsLeastFree(v.value, existing, m) && a == Some(Candidate(v.value, m));
      var n: nat :| IsLeastFree(v.value, existing, n) && b == Some(Candidate(v.value, n));
      LeastFreeUnique(v.value, existing, m, n);
    }
  }

  /** A value that is not taken is stored as it is; a taken one gets a
      suffix "-n" with n >= 1 and is then not taken. */
  lemma SequencedSlugShape(v: string, existing: set<string>, after: Option<string>)
    requires !Blank(Some(v)) && SequencedFrom(Some(v), existing, after)
    ensures v !in existing ==> after == Some(v)
    ensures v in existing ==> exists n: nat :: n >= 1 && after == Some(v + "-" + DecimalString(n))
    ensures after.Some? && after.value !in existing
  {
    var n: nat :| IsLeastFree(v, existing, n) && after == Some(Candidate(v, n));
    if v !in existing {
      LeastFreeUnique(v, existing, 0, n);
    }
  }

  /** set_slug never stores a slug that is already taken unless it keeps the
      slug it had, or the slug comes out blank. */
  lemma SetSlugAvoidsTaken(before: Option<string>, source: Option<string>, existing: set<string>, force: bool, after: Option<string>)
    requires SetSlugSpec(before, source, existing, force, after)
    ensures after == before || Blank(after) || after.value !in existing
  {
    var nv := NormalizeStage(StripStage(source));
    if (Blank(before) || force) && nv != before && !Blank(nv) {
      SequencedSlugShape(nv.value, existing, after);
    }
  }

  // ----- the format validation -----

  /** The intended format `\A[a-z0-9-]+\z`: the whole value is one or more
      slug characters. */
  predicate SlugFormat(s: string) {
    |s| > 0 && forall i :: 0 <= i < |s| ==> IsSlugChar(s[i])
  }

  /** `s =~ /^[a-z0-9-]+$/` as Ruby reads it: `^` and `$` match at line
      boundaries, so one non-empty line of slug characters is enough. */
  predicate FormatRegexMatches(s: string) {
    exists i, j | 0 <= i < j <= |s| :: SlugLine(s, i, j)
  }

  /** s[i..j] is a whole, non-empty line of slug characters. */
  predicate SlugLine(s: string, i: int, j: int) {
    0 <= i < j <= |s| && (i == 0 || s[i - 1] == '\n') && (j == |s| || s[j] == '\n')
      && forall k :: i <= k < j ==> IsSlugChar(s[k])
  }

  /** A value in the intended format also matches the regex, and on a value
      of one line the two agree. */
  lemma FormatRegexOnOneLine(s: string)
    ensures SlugFormat(s) ==> FormatRegexMatches(s)
    ensures (forall k :: 0 <= k < |s| ==> s[k] != '\n') ==> (FormatRegexMatches(s) <==> SlugFormat(s))
  {
    if SlugFormat(s) {
      assert SlugLine(s, 0, |s|);
    }
    if (forall k :: 0 <= k < |s| ==> s[k] != '\n') && FormatRegexMatches(s) {
      var i: int, j: int :| 0 <= i < j <= |s| && SlugLine(s, i, j);
      assert i == 0 && j == |s|;
    }
  }

  /** The regex lets a value with a bad second line through: the invalid
      slug of the format test, after one good line, is accepted. */
  lemma FormatRegexAcceptsSecondLine()
    ensures FormatRegexMatches("ok\nA BAD $LUG.")
    ensures !SlugFormat("ok\nA BAD $LUG.")
  {
    var s := "ok\nA BAD $LUG.";
    assert SlugLine(s, 0, 2);
    assert !IsSlugChar(s[3]);
  }

  /** The slug validations of the model, the format check in its intended
      reading: present, not taken by another row, and in slug format. */
  predicate ValidSlug(slug: Option<string>, others: set<string>) {
    !Blank(slug) && slug.value !in others && SlugFormat(slug.value)
  }

  /** Decimal numerals are made of slug characters. */
  lemma CandidateFormat(base: string, n: nat)
    requires SlugFormat(base)
    ensures SlugFormat(Candidate(base, n))
  {
    if n > 0 {
      var c := Candidate(base, n);
      forall i | 0 <= i < |c| ensures IsSlugChar(c[i]) {
        if i < |base| {
          assert c[i] == base[i];
        } else if i > |base| {
          assert c[i] == DecimalString(n)[i - |base| - 1];
        }
      }
    }
  }

  /** Whenever set_slug writes a new, non-blank slug, the slug passes the
      format and uniqueness validations. */
  lemma SetSlugIsValid(before: Option<string>, source: Option<string>, existing: set<string>, force: bool, after: Option<string>)
    requires SetSlugSpec(before, source, existing, force, after)
    requires after != before && !Blank(after)
    ensures ValidSlug(after, existing)
  {
    SetSlugAvoidsTaken(before, source, existing, force, after);
    var nv := NormalizeStage(StripStage(source));
    assert !Blank(nv);
    var v := nv.value;
    assert v == Normalized(StripStage(source).value);
    NormalizedIsSlugText(StripStage(source).value);
    assert |v| > 0;
    var n: nat :| IsLeastFree(v, existing, n) && after == Some(Candidate(v, n));
    CandidateFormat(v, n);
  }

  /** When the slug is to be replaced and the recomputed value differs from
      it, set_slug stores instance n of that value, n being the first free
      one. */
  lemma SetSlugStoresLeastFree(before: Option<string>, source: Option<string>, existing: set<string>, force: bool,
                               v: string, n: nat, after: Option<string>)
    requires Blank(before) || force
    requires NormalizeStage(StripStage(source)) == Some(v) && !Blank(Some(v)) && Some(v) != before
    requires IsLeastFree(v, existing, n)
    ensures SetSlugSpec(before, source, existing, force, after) <==> after == Some(Candidate(v, n))
  {
    if after == Some(Candidate(v, n)) {
      assert SequencedFrom(Some(v), existing, after);
    }
    if SetSlugSpec(before, source, existing, force, after) {
      var m: nat :| IsLeastFree(v, existing, m) && after == Some(Candidate(v, m));
      LeastFreeUnique(v, existing, m, n);
    }
  }
}
