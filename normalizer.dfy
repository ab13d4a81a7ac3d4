/** The normalizer (lib/slug/slug.rb, normalize_slug): six rewrites of the
    slug text, applied in the source's order. Each rewrite is one of Ruby's
    string operations and is modelled as a function; the method that applies
    them in place to the slug column is `Slug.SluggedRecord.NormalizeSlug`.

    The compatibility composition (NFKC) the source applies first is not
    modelled: it is taken to be the identity, which it is on ASCII text. */
module Normalizer {
  import opened SlugText

  predicate IsUpper(c: char) {
    'A' <= c <= 'Z'
  }

  function LowerChar(c: char): char {
    if IsUpper(c) then (c as int + 32) as char else c
  }

  /** `downcase!` on ASCII text; `DowncaseSpec` states what it does. */
  function Downcase(s: string): string {
    seq(|s|, i requires 0 <= i < |s| => LowerChar(s[i]))
  }

  /** Every ASCII capital becomes its small letter and nothing else changes. */
  lemma DowncaseSpec(s: string)
    ensures |Downcase(s)| == |s|
    ensures forall i :: 0 <= i < |s| ==> !IsUpper(Downcase(s)[i])
    ensures forall i :: 0 <= i < |s| ==>
      Downcase(s)[i] == s[i] || (IsUpper(s[i]) && Downcase(s)[i] as int == s[i] as int + 32)
  {
  }

  /** Drops the leading run of white space. */
  function TrimLeading(s: string): string {
    if s != [] && IsSpace(s[0]) then TrimLeading(s[1..]) else s
  }

  /** `s` is a run of white space followed by `TrimLeading(s)`, which does not
      start with white space. */
  lemma {:induction false} TrimLeadingSpec(s: string)
    ensures |TrimLeading(s)| <= |s| && TrimLeading(s) == s[|s| - |TrimLeading(s)|..]
    ensures forall i :: 0 <= i < |s| - |TrimLeading(s)| ==> IsSpace(s[i])
    ensures TrimLeading(s) == [] || !IsSpace(TrimLeading(s)[0])
  {
    if s != [] && IsSpace(s[0]) {
      var r := TrimLeading(s[1..]);
      TrimLeadingSpec(s[1..]);
      assert s[1..][|s| - 1 - |r|..] == s[|s| - |r|..];
      forall i | 1 <= i < |s| - |r| ensures IsSpace(s[i]) {
        assert s[i] == s[1..][i - 1];
      }
    }
  }

  /** What `String#strip` removes at the end: white space, and also NUL. */
  predicate IsTrailingStrip(c: char) {
    IsSpace(c) || c == '\0'
  }

  predicate AllTrailingStrip(s: string) {
    forall i :: 0 <= i < |s| ==> IsTrailingStrip(s[i])
  }

  /** Drops the trailing run of white space and NUL characters. */
  function TrimTrailing(s: string): string {
    if s != [] && IsTrailingStrip(s[|s| - 1]) then TrimTrailing(s[..|s| - 1]) else s
  }

  /** `s` is `TrimTrailing(s)` followed by a run of white space and NUL
      characters, and `TrimTrailing(s)` ends in neither. */
  lemma {:induction false} TrimTrailingSpec(s: string)
    ensures |TrimTrailing(s)| <= |s| && TrimTrailing(s) == s[..|TrimTrailing(s)|]
    ensures forall i :: |TrimTrailing(s)| <= i < |s| ==> IsTrailingStrip(s[i])
    ensures TrimTrailing(s) == [] || !IsTrailingStrip(TrimTrailing(s)[|TrimTrailing(s)| - 1])
  {
    if s != [] && IsTrailingStrip(s[|s| - 1]) {
      var r := TrimTrailing(s[..|s| - 1]);
      TrimTrailingSpec(s[..|s| - 1]);
      assert s[..|s| - 1][..|r|] == s[..|r|];
      forall i | |r| <= i < |s| - 1 ensures IsTrailingStrip(s[i]) {
        assert s[i] == s[..|s| - 1][i];
      }
    }
  }

  predicate AllSpace(s: string) {
    forall i :: 0 <= i < |s| ==> IsSpace(s[i])
  }

  /** `strip!`; `StripSpec` states what it removes. */
  function Strip(s: string): string {
    TrimTrailing(TrimLeading(s))
  }

  /** Strip removes the white space at the start and the white space and NUL
      characters at the end, and only those. */
  lemma StripSpec(s: string)
    ensures var r := Strip(s);
      r == [] || (!IsSpace(r[0]) && !IsTrailingStrip(r[|r| - 1]))
    ensures var r := Strip(s);
      exists i :: 0 <= i <= |s| - |r| && AllSpace(s[..i]) && r == s[i..i + |r|] && AllTrailingStrip(s[i + |r|..])
  {
    var t := TrimLeading(s);
    var r := TrimTrailing(t);
    TrimLeadingSpec(s);
    TrimTrailingSpec(t);
    if r != [] {
      assert r[0] == t[0];
    }
    var i := |s| - |t|;
    assert r == s[i..i + |r|] by {
      assert t == s[i..];
      assert r == t[..|r|];
    }
    assert AllSpace(s[..i]) by {
      forall k | 0 <= k < i ensures IsSpace(s[..i][k]) {
        assert s[..i][k] == s[k];
      }
    }
    var u := s[i + |r|..];
    assert AllTrailingStrip(u) by {
      forall k | 0 <= k < |u| ensures IsTrailingStrip(u[k]) {
        assert u[k] == t[|r| + k];
      }
    }
  }

  /** The characters `[a-z0-9\s-]`, which the third rewrite keeps. */
  predicate Kept(c: char) {
    IsSlugChar(c) || IsSpace(c)
  }

  /** `gsub!(/[^a-z0-9\s-]/, '')`: deletes every character outside
      `[a-z0-9\s-]`; `DeleteDisallowedKeeps` states what it keeps. */
  function DeleteDisallowed(s: string): string {
    if s == [] then []
    else if Kept(s[0]) then [s[0]] + DeleteDisallowed(s[1..])
    else DeleteDisallowed(s[1..])
  }

  /** The deletion keeps exactly the characters of `[a-z0-9\s-]`, and leaves
      text made only of them unchanged. */
  lemma DeleteDisallowedKeeps(s: string)
    ensures |DeleteDisallowed(s)| <= |s|
    ensures forall c :: c in DeleteDisallowed(s) <==> c in s && Kept(c)
    ensures (forall i :: 0 <= i < |s| ==> Kept(s[i])) ==> DeleteDisallowed(s) == s
  {
    DeleteDisallowedChars(s);
    if forall i :: 0 <= i < |s| ==> Kept(s[i]) {
      DeleteDisallowedIdentity(s);
    }
  }

  lemma {:induction false} DeleteDisallowedChars(s: string)
    ensures |DeleteDisallowed(s)| <= |s|
    ensures forall c :: c in DeleteDisallowed(s) <==> c in s && Kept(c)
  {
    if s != [] {
      DeleteDisallowedChars(s[1..]);
      assert forall c :: c in s <==> c == s[0] || c in s[1..];
    }
  }

  lemma {:induction false} DeleteDisallowedIdentity(s: string)
    requires forall i :: 0 <= i < |s| ==> Kept(s[i])
    ensures DeleteDisallowed(s) == s
  {
    if s != [] {
      DeleteDisallowedIdentity(s[1..]);
      assert s == [s[0]] + s[1..];
    }
  }

  /** The deletion works character by character: it distributes over
      concatenation. */
  lemma {:induction false} DeleteDisallowedConcat(x: string, y: string)
    ensures DeleteDisallowed(x + y) == DeleteDisallowed(x) + DeleteDisallowed(y)
  {
    if x == [] {
      assert x + y == y;
    } else {
      assert (x + y)[1..] == x[1..] + y;
      DeleteDisallowedConcat(x[1..], y);
    }
  }

  lemma Assoc(a: string, b: string, c: string)
    ensures a + b + c == a + (b + c)
  {
  }

  /** `gsub!(/\s+/, '-')`: each maximal run of white space becomes one dash.
      Written one character at a time: white space followed by more white
      space is dropped, and the last character of each run becomes the dash.
      `DashSpaceRunsJoin` states the run-by-run reading. */
  function DashSpaceRuns(s: string): string {
    if s == [] then []
    else if |s| > 1 && IsSpace(s[0]) && IsSpace(s[1]) then DashSpaceRuns(s[1..])
    else [if IsSpace(s[0]) then '-' else s[0]] + DashSpaceRuns(s[1..])
  }

  /** The replacement leaves no white space, and every other character it
      produces is a dash or comes from `s`. */
  lemma {:induction false} DashSpaceRunsAlphabet(s: string)
    ensures forall c :: c in DashSpaceRuns(s) ==> !IsSpace(c) && (c == '-' || c in s)
  {
    if s != [] {
      DashSpaceRunsAlphabet(s[1..]);
      assert forall c :: c in s[1..] ==> c in s;
    }
  }

  /** Text without white space has no run to replace. */
  lemma {:induction false} DashSpaceRunsIdentity(s: string)
    requires forall i :: 0 <= i < |s| ==> !IsSpace(s[i])
    ensures DashSpaceRuns(s) == s
  {
    if s != [] {
      DashSpaceRunsIdentity(s[1..]);
      assert s == [s[0]] + s[1..];
    }
  }

  /** The replacement works run by run: it distributes over a concatenation
      that does not cut a run of white space in two. */
  lemma {:induction false} DashSpaceRunsConcat(x: string, y: string)
    requires x == [] || y == [] || !(IsSpace(x[|x| - 1]) && IsSpace(y[0]))
    ensures DashSpaceRuns(x + y) == DashSpaceRuns(x) + DashSpaceRuns(y)
  {
    if x == [] {
      assert x + y == y;
    } else {
      assert (x + y)[1..] == x[1..] + y;
      DashSpaceRunsConcat(x[1..], y);
    }
  }

  /** A whole run of white space before text that does not start with white
      space becomes exactly one dash. */
  lemma {:induction false} SpaceRunToDash(w: string, y: string)
    requires w != [] && forall i :: 0 <= i < |w| ==> IsSpace(w[i])
    requires y == [] || !IsSpace(y[0])
    ensures DashSpaceRuns(w + y) == "-" + DashSpaceRuns(y)
  {
    assert (w + y)[1..] == w[1..] + y;
    if |w| > 1 {
      SpaceRunToDash(w[1..], y);
    } else {
      assert w[1..] + y == y;
    }
  }

  /** A space-free head passes through the replacement unchanged. */
  lemma DashSpaceRunsAfterSpaceFree(x: string, z: string)
    requires forall i :: 0 <= i < |x| ==> !IsSpace(x[i])
    ensures DashSpaceRuns(x + z) == x + DashSpaceRuns(z)
  {
    assert x == [] || !IsSpace(x[|x| - 1]);
    DashSpaceRunsConcat(x, z);
    DashSpaceRunsIdentity(x);
  }

  /** One run of white space between a space-free head and a tail that does
      not start with white space becomes exactly one dash. */
  lemma DashSpaceRunsJoin(x: string, w: string, y: string)
    requires forall i :: 0 <= i < |x| ==> !IsSpace(x[i])
    requires w != [] && forall i :: 0 <= i < |w| ==> IsSpace(w[i])
    requires y == [] || !IsSpace(y[0])
    ensures DashSpaceRuns(x + w + y) == x + "-" + DashSpaceRuns(y)
  {
    Assoc(x, w, y);
    DashSpaceRunsAfterSpaceFree(x, w + y);
    SpaceRunToDash(w, y);
    Assoc(x, "-", DashSpaceRuns(y));
  }

  /** `gsub!(/-\z/, '')`: removes one dash at the very end, if there is one. */
  function ChompDash(s: string): (r: string)
    ensures s == r || s == r + "-"
    ensures s == r <==> (s == [] || s[|s| - 1] != '-')
  {
    if s != [] && s[|s| - 1] == '-' then s[..|s| - 1] else s
  }

  /** No two dashes in a row. */
  predicate NoDoubleDash(s: string) {
    forall i :: 0 <= i < |s| - 1 ==> !(s[i] == '-' && s[i + 1] == '-')
  }

  /** `gsub!(/-+/, '-')`: each maximal run of dashes becomes one dash. Written
      one character at a time: a dash followed by a dash is dropped.
      `CollapseDashesJoin` states the run-by-run reading. */
  function CollapseDashes(s: string): string {
    if s == [] then []
    else if |s| > 1 && s[0] == '-' && s[1] == '-' then CollapseDashes(s[1..])
    else [s[0]] + CollapseDashes(s[1..])
  }

  /** The collapse keeps the first character. */
  lemma {:induction false} CollapseDashesHead(s: string)
    requires s != []
    ensures CollapseDashes(s) != [] && CollapseDashes(s)[0] == s[0]
  {
    if |s| > 1 && s[0] == '-' && s[1] == '-' {
      CollapseDashesHead(s[1..]);
    }
  }

  /** The collapse leaves no two dashes in a row. */
  lemma {:induction false} CollapseDashesNoDoubleDash(s: string)
    ensures NoDoubleDash(CollapseDashes(s))
  {
    if s != [] {
      CollapseDashesNoDoubleDash(s[1..]);
      if !(|s| > 1 && s[0] == '-' && s[1] == '-') && |s| > 1 {
        CollapseDashesHead(s[1..]);
      }
    }
  }

  /** The collapse uses only characters of `s`. */
  lemma {:induction false} CollapseDashesChars(s: string)
    ensures forall c :: c in CollapseDashes(s) ==> c in s
  {
    if s != [] {
      CollapseDashesChars(s[1..]);
      assert forall c :: c in s[1..] ==> c in s;
    }
  }

  /** Text without a double dash has no run to collapse. */
  lemma {:induction false} CollapseDashesIdentity(s: string)
    requires NoDoubleDash(s)
    ensures CollapseDashes(s) == s
  {
    if s != [] {
      CollapseDashesIdentity(s[1..]);
      assert s == [s[0]] + s[1..];
    }
  }

  /** The collapse works run by run: it distributes over a concatenation
      that does not cut a run of dashes in two. */
  lemma {:induction false} CollapseDashesConcat(x: string, y: string)
    requires x == [] || y == [] || !(x[|x| - 1] == '-' && y[0] == '-')
    ensures CollapseDashes(x + y) == CollapseDashes(x) + CollapseDashes(y)
  {
    if x == [] {
      assert x + y == y;
    } else {
      assert (x + y)[1..] == x[1..] + y;
      CollapseDashesConcat(x[1..], y);
    }
  }

  /** A whole run of dashes before text that does not start with a dash
      becomes exactly one dash. */
  lemma {:induction false} DashRunToDash(d: string, y: string)
    requires d != [] && forall i :: 0 <= i < |d| ==> d[i] == '-'
    requires y == [] || y[0] != '-'
    ensures CollapseDashes(d + y) == "-" + CollapseDashes(y)
  {
    assert (d + y)[1..] == d[1..] + y;
    if |d| > 1 {
      DashRunToDash(d[1..], y);
    } else {
      assert d[1..] + y == y;
    }
  }

  /** Text without a dash is left as it is and does not end in one. */
  lemma DashFreeCollapse(x: string)
    requires forall i :: 0 <= i < |x| ==> x[i] != '-'
    ensures CollapseDashes(x) == x && (x == [] || x[|x| - 1] != '-')
  {
    assert NoDoubleDash(x);
    CollapseDashesIdentity(x);
  }

  /** A dash-free head passes through the collapse unchanged. */
  lemma CollapseAfterDashFree(x: string, z: string)
    requires forall i :: 0 <= i < |x| ==> x[i] != '-'
    ensures CollapseDashes(x + z) == x + CollapseDashes(z)
  {
    DashFreeCollapse(x);
    CollapseDashesConcat(x, z);
  }

  /** One run of dashes between a dash-free head and a tail that does not
      start with a dash becomes exactly one dash. */
  lemma CollapseDashesJoin(x: string, d: string, y: string)
    requires forall i :: 0 <= i < |x| ==> x[i] != '-'
    requires d != [] && forall i :: 0 <= i < |d| ==> d[i] == '-'
    requires y == [] || y[0] != '-'
    ensures CollapseDashes(x + d + y) == x + "-" + CollapseDashes(y)
  {
    Assoc(x, d, y);
    CollapseAfterDashFree(x, d + y);
    DashRunToDash(d, y);
    Assoc(x, "-", CollapseDashes(y));
  }

  /** The six rewrites of normalize_slug, in the source's order. */
  function Normalized(s: string): string {
    CollapseDashes(ChompDash(DashSpaceRuns(DeleteDisallowed(Strip(Downcase(s))))))
  }

  /** A normalized value is made of `a-z`, `0-9` and `-` only and has no two
      dashes in a row, because the collapse runs last. */
  lemma NormalizedIsSlugText(s: string)
    ensures forall i :: 0 <= i < |Normalized(s)| ==> IsSlugChar(Normalized(s)[i])
    ensures NoDoubleDash(Normalized(s))
  {
    var d := DeleteDisallowed(Strip(Downcase(s)));
    var w := DashSpaceRuns(d);
    var c := ChompDash(w);
    DeleteDisallowedKeeps(Strip(Downcase(s)));
    DashSpaceRunsAlphabet(d);
    CollapseDashesNoDoubleDash(c);
    CollapseDashesChars(c);
    forall i | 0 <= i < |w| ensures IsSlugChar(w[i]) {
      assert w[i] in w;
    }
    forall i | 0 <= i < |c| ensures IsSlugChar(c[i]) {
      assert c[i] == w[i];
    }
    forall i | 0 <= i < |Normalized(s)| ensures IsSlugChar(Normalized(s)[i]) {
      assert Normalized(s)[i] in Normalized(s);
      var k :| 0 <= k < |c| && c[k] == Normalized(s)[i];
    }
  }

  /** A value that is already a clean slug (slug characters only, no double
      dash, no trailing dash) normalizes to itself; "a-b-c-d" is one. */
  lemma NormalizedFixesCleanSlug(s: string)
    requires forall i :: 0 <= i < |s| ==> IsSlugChar(s[i])
    requires NoDoubleDash(s)
    requires s == [] || s[|s| - 1] != '-'
    ensures Normalized(s) == s
  {
    SlugCharsPassThrough(s);
    assert ChompDash(s) == s;
    CollapseDashesIdentity(s);
  }

  /** Text made of slug characters only comes through the first four
      rewrites unchanged. */
  lemma SlugCharsPassThrough(s: string)
    requires forall i :: 0 <= i < |s| ==> IsSlugChar(s[i])
    ensures Downcase(s) == s && Strip(s) == s
    ensures DeleteDisallowed(s) == s && DashSpaceRuns(s) == s
  {
    assert forall i :: 0 <= i < |s| ==> Kept(s[i]) && !IsSpace(s[i]);
    SlugCharsNotUpper(s);
    SlugCharsNotPadded(s);
    DeleteDisallowedKeeps(s);
    DashSpaceRunsIdentity(s);
  }

  lemma SlugCharsNotUpper(s: string)
    requires forall i :: 0 <= i < |s| ==> IsSlugChar(s[i])
    ensures Downcase(s) == s
  {
    assert Downcase(s) == s;
  }

  lemma SlugCharsNotPadded(s: string)
    requires forall i :: 0 <= i < |s| ==> IsSlugChar(s[i])
    ensures Strip(s) == s
  {
    StripAround([], s, []);
    assert [] + s + [] == s;
  }

  /** Normalizing a normalized value only removes a trailing dash, which the
      first pass can leave behind since it removes one dash before collapsing
      the runs: normalizing is idempotent exactly on values that do not end
      with a dash. */
  lemma NormalizedTwice(s: string)
    ensures Normalized(Normalized(s)) == ChompDash(Normalized(s))
  {
    var n := Normalized(s);
    NormalizedIsSlugText(s);
    if n == [] || n[|n| - 1] != '-' {
      NormalizedFixesCleanSlug(n);
    } else if n == "-" {
      NormalizedLoneDash();
    } else {
      assert |n| >= 2;
      var m := n[..|n| - 1];
      assert n == m + "-";
      assert m[|m| - 1] == n[|n| - 2];
      assert m[|m| - 1] != '-';
      assert NoDoubleDash(m) by {
        forall i | 0 <= i < |m| - 1 ensures !(m[i] == '-' && m[i + 1] == '-') {
          assert m[i] == n[i] && m[i + 1] == n[i + 1];
        }
      }
      NormalizedTrailingDash(m);
    }
  }

  lemma NormalizedLoneDash()
    ensures Normalized("-") == [] && ChompDash("-") == []
  {
    SlugCharsPassThrough("-");
    assert ChompDash("-") == [];
  }

  /** Lower-casing leaves white space alone and maps other characters to
      other characters than white space. */
  lemma DowncasePadded(w: string, x: string, v: string)
    requires AllSpace(w) && AllSpace(v)
    ensures Downcase(w + x + v) == w + Downcase(x) + v
    ensures forall i :: 0 <= i < |x| ==> (IsSpace(Downcase(x)[i]) <==> IsSpace(x[i]))
  {
    DowncaseConcat(w + x, v);
    DowncaseConcat(w, x);
    assert Downcase(w) == w;
    assert Downcase(v) == v;
  }

  /** White space around the value makes no difference: "ab " and " ab"
      normalize as "ab" does. */
  lemma NormalizedPadded(w: string, x: string, v: string)
    requires AllSpace(w) && AllSpace(v)
    requires x == [] || (!IsSpace(x[0]) && !IsTrailingStrip(x[|x| - 1]))
    ensures Normalized(w + x + v) == Normalized(x)
  {
    var d := Downcase(x);
    DowncasePadded(w, x, v);
    assert d == [] || (!IsSpace(d[0]) && !IsTrailingStrip(d[|d| - 1]));
    assert Strip(w + d + v) == d by {
      StripAround(w, d, v);
    }
    assert Strip(d) == d by {
      StripAround([], d, []);
      assert [] + d + [] == d;
    }
  }

  /** Text without capitals is its own lower-casing. */
  lemma DowncaseIdentity(s: string)
    requires forall i :: 0 <= i < |s| ==> !IsUpper(s[i])
    ensures Downcase(s) == s
  {
    assert Downcase(s) == s;
  }

  /** The first three rewrites leave two clean words with white space
      between them as they are. */
  lemma SpaceRunKept(x: string, w: string, y: string)
    requires x != [] && forall i :: 0 <= i < |x| ==> IsSlugChar(x[i]) && x[i] != '-'
    requires AllSpace(w)
    requires y != [] && forall i :: 0 <= i < |y| ==> IsSlugChar(y[i]) && y[i] != '-'
    ensures DeleteDisallowed(Strip(Downcase(x + w + y))) == x + w + y
  {
    var s := x + w + y;
    assert forall i :: 0 <= i < |s| ==> !IsUpper(s[i]) && Kept(s[i]);
    DowncaseIdentity(s);
    StripAround([], s, []);
    assert [] + s + [] == s;
    DeleteDisallowedKeeps(s);
  }

  /** A run of white space between two clean words becomes a single dash:
      "a  b" becomes "a-b". */
  lemma NormalizedSpaceRun(x: string, w: string, y: string)
    requires x != [] && forall i :: 0 <= i < |x| ==> IsSlugChar(x[i]) && x[i] != '-'
    requires w != [] && AllSpace(w)
    requires y != [] && forall i :: 0 <= i < |y| ==> IsSlugChar(y[i]) && y[i] != '-'
    ensures Normalized(x + w + y) == x + "-" + y
  {
    var j := x + "-" + y;
    SpaceRunKept(x, w, y);
    assert DashSpaceRuns(x + w + y) == j by {
      DashSpaceRunsJoin(x, w, y);
      DashSpaceRunsIdentity(y);
    }
    assert ChompDash(j) == j;
    assert NoDoubleDash(j) by {
      assert forall i :: 0 <= i < |j| ==> j[i] == '-' ==> i == |x|;
    }
    CollapseDashesIdentity(j);
  }

  /** Text of slug characters only is only collapsed, when it does not end
      with a dash. */
  lemma NormalizedSlugChars(s: string)
    requires forall i :: 0 <= i < |s| ==> IsSlugChar(s[i])
    requires s == [] || s[|s| - 1] != '-'
    ensures Normalized(s) == CollapseDashes(s)
  {
    SlugCharsPassThrough(s);
    assert ChompDash(s) == s;
  }

  /** A clean slug followed by one dash loses the dash: "ab-" becomes "ab". */
  lemma NormalizedTrailingDash(s: string)
    requires s != [] && forall i :: 0 <= i < |s| ==> IsSlugChar(s[i])
    requires NoDoubleDash(s) && s[|s| - 1] != '-'
    ensures Normalized(s + "-") == s
  {
    var t := s + "-";
    assert forall i :: 0 <= i < |t| ==> IsSlugChar(t[i]);
    SlugCharsPassThrough(t);
    assert t[..|t| - 1] == s;
    assert ChompDash(t) == s;
    CollapseDashesIdentity(s);
  }

  lemma {:induction false} TrimLeadingSpaces(w: string, y: string)
    requires forall i :: 0 <= i < |w| ==> IsSpace(w[i])
    requires y == [] || !IsSpace(y[0])
    ensures TrimLeading(w + y) == y
  {
    if w != [] {
      assert (w + y)[1..] == w[1..] + y;
      TrimLeadingSpaces(w[1..], y);
    } else {
      assert w + y == y;
    }
  }

  lemma {:induction false} TrimTrailingSpaces(x: string, v: string)
    requires x == [] || !IsTrailingStrip(x[|x| - 1])
    requires AllTrailingStrip(v)
    ensures TrimTrailing(x + v) == x
  {
    if v != [] {
      assert (x + v)[..|x + v| - 1] == x + v[..|v| - 1];
      TrimTrailingSpaces(x, v[..|v| - 1]);
    } else {
      assert x + v == x;
    }
  }

  /** Stripping white space before, and white space and NUL after, text that
      starts with neither gives back exactly that text. */
  lemma StripAround(w: string, x: string, v: string)
    requires AllSpace(w) && AllTrailingStrip(v)
    requires x == [] || (!IsSpace(x[0]) && !IsTrailingStrip(x[|x| - 1]))
    ensures Strip(w + x + v) == x
  {
    if x == [] {
      var s := w + v;
      assert w + x + v == s;
      var r := TrimLeading(s);
      TrimLeadingSpec(s);
      assert AllTrailingStrip(r) by {
        forall k | 0 <= k < |r| ensures IsTrailingStrip(r[k]) {
          assert r[k] == s[|s| - |r| + k];
        }
      }
      TrimTrailingSpaces([], r);
      assert [] + r == r;
    } else {
      assert w + x + v == w + (x + v);
      TrimLeadingSpaces(w, x + v);
      TrimTrailingSpaces(x, v);
    }
  }

  /** The words of `ws` with `sep` between each two of them. */
  function Join(ws: seq<string>, sep: char): string {
    if |ws| == 0 then []
    else if |ws| == 1 then ws[0]
    else ws[0] + [sep] + Join(ws[1..], sep)
  }

  /** A word of a title: not empty, with no white space, no dash and no NUL. */
  predicate IsWord(w: string) {
    w != [] && forall i :: 0 <= i < |w| ==> !IsTrailingStrip(w[i]) && w[i] != '-'
  }

  /** What the normalizer keeps of one word: its small letters and digits. */
  function CleanWord(w: string): string {
    DeleteDisallowed(Downcase(w))
  }

  function DowncaseWords(ws: seq<string>): (r: seq<string>)
    ensures |r| == |ws| && forall i :: 0 <= i < |ws| ==> r[i] == Downcase(ws[i])
  {
    if ws == [] then [] else [Downcase(ws[0])] + DowncaseWords(ws[1..])
  }

  function DeleteDisallowedWords(ws: seq<string>): (r: seq<string>)
    ensures |r| == |ws| && forall i :: 0 <= i < |ws| ==> r[i] == DeleteDisallowed(ws[i])
  {
    if ws == [] then [] else [DeleteDisallowed(ws[0])] + DeleteDisallowedWords(ws[1..])
  }

  lemma DowncaseConcat(x: string, y: string)
    ensures Downcase(x + y) == Downcase(x) + Downcase(y)
  {
  }

  lemma {:induction false} DowncaseJoin(ws: seq<string>)
    ensures Downcase(Join(ws, ' ')) == Join(DowncaseWords(ws), ' ')
  {
    if |ws| > 1 {
      DowncaseJoin(ws[1..]);
      DowncaseConcat(ws[0] + [' '], Join(ws[1..], ' '));
      DowncaseConcat(ws[0], [' ']);
      assert DowncaseWords(ws)[1..] == DowncaseWords(ws[1..]);
    }
  }

  lemma {:induction false} DeleteDisallowedJoin(ws: seq<string>)
    ensures DeleteDisallowed(Join(ws, ' ')) == Join(DeleteDisallowedWords(ws), ' ')
  {
    if |ws| > 1 {
      DeleteDisallowedJoin(ws[1..]);
      DeleteDisallowedConcat(ws[0] + [' '], Join(ws[1..], ' '));
      DeleteDisallowedConcat(ws[0], [' ']);
      assert DeleteDisallowed([' ']) == [' '];
      assert DeleteDisallowedWords(ws)[1..] == DeleteDisallowedWords(ws[1..]);
    }
  }

  /** Joining non-empty words starts with the first word's first character
      and ends with the last word's last character. */
  lemma {:induction false} JoinEnds(ws: seq<string>, sep: char)
    requires |ws| > 0 && forall i :: 0 <= i < |ws| ==> ws[i] != []
    ensures Join(ws, sep) != []
    ensures Join(ws, sep)[0] == ws[0][0]
    ensures Join(ws, sep)[|Join(ws, sep)| - 1] == ws[|ws| - 1][|ws[|ws| - 1]| - 1]
  {
    if |ws| > 1 {
      JoinEnds(ws[1..], sep);
    }
  }

  /** Words joined by single spaces: each space becomes a dash. */
  lemma {:induction false} DashSpaceRunsJoinWords(ws: seq<string>)
    requires forall i :: 0 <= i < |ws| ==> ws[i] != [] && forall k :: 0 <= k < |ws[i]| ==> !IsSpace(ws[i][k])
    ensures DashSpaceRuns(Join(ws, ' ')) == Join(ws, '-')
  {
    if |ws| == 1 {
      DashSpaceRunsIdentity(ws[0]);
    } else if |ws| > 1 {
      DashSpaceRunsJoinWords(ws[1..]);
      JoinEnds(ws[1..], ' ');
      DashSpaceRunsJoin(ws[0], " ", Join(ws[1..], ' '));
      assert ws[0] + [' '] + Join(ws[1..], ' ') == ws[0] + " " + Join(ws[1..], ' ');
    }
  }

  /** Dash-free words joined by single dashes have no double dash. */
  lemma {:induction false} JoinNoDoubleDash(ws: seq<string>)
    requires forall i :: 0 <= i < |ws| ==> ws[i] != [] && forall k :: 0 <= k < |ws[i]| ==> ws[i][k] != '-'
    ensures NoDoubleDash(Join(ws, '-'))
  {
    if |ws| > 1 {
      JoinNoDoubleDash(ws[1..]);
      JoinEnds(ws[1..], '-');
      var x, t := ws[0] + ['-'], Join(ws[1..], '-');
      forall i | 0 <= i < |x + t| - 1 ensures !((x + t)[i] == '-' && (x + t)[i + 1] == '-') {
        if i < |x| - 1 {
          assert (x + t)[i] == ws[0][i];
        } else if i == |x| - 1 {
          assert (x + t)[i + 1] == t[0];
        } else {
          assert (x + t)[i] == t[i - |x|] && (x + t)[i + 1] == t[i - |x| + 1];
        }
      }
    }
  }

  /** Lower-casing keeps a word a word. */
  lemma DowncaseWordsAreWords(ws: seq<string>)
    requires forall i :: 0 <= i < |ws| ==> IsWord(ws[i])
    ensures forall i :: 0 <= i < |ws| ==> IsWord(DowncaseWords(ws)[i])
  {
    var lower := DowncaseWords(ws);
    forall i | 0 <= i < |ws| ensures IsWord(lower[i]) {
      forall k | 0 <= k < |lower[i]| ensures !IsSpace(lower[i][k]) && lower[i][k] != '-' {
        assert lower[i][k] == ws[i][k] || IsUpper(ws[i][k]);
      }
    }
  }

  /** What the deletion keeps of a word is made of small letters and digits. */
  lemma DeleteDisallowedWordChars(w: string)
    requires IsWord(w)
    ensures forall k :: 0 <= k < |DeleteDisallowed(w)| ==> IsSlugChar(DeleteDisallowed(w)[k]) && DeleteDisallowed(w)[k] != '-'
  {
    var d := DeleteDisallowed(w);
    DeleteDisallowedKeeps(w);
    forall k | 0 <= k < |d| ensures IsSlugChar(d[k]) && d[k] != '-' {
      assert d[k] in d;
      var j :| 0 <= j < |w| && w[j] == d[k];
    }
  }

  /** What the normalizer keeps of each word is again a word. */
  lemma CleanWordsAreWords(ws: seq<string>)
    requires forall i :: 0 <= i < |ws| ==> IsWord(ws[i]) && CleanWord(ws[i]) != []
    ensures forall i :: 0 <= i < |ws| ==> IsWord(DeleteDisallowedWords(DowncaseWords(ws))[i])
  {
    var lower := DowncaseWords(ws);
    DowncaseWordsAreWords(ws);
    forall i | 0 <= i < |ws| ensures IsWord(DeleteDisallowed(lower[i])) {
      DeleteDisallowedWordChars(lower[i]);
    }
  }

  /** Words joined by spaces neither start nor end with white space. */
  lemma TitleNotPadded(ws: seq<string>)
    requires |ws| > 0
    requires forall i :: 0 <= i < |ws| ==> IsWord(ws[i])
    ensures Strip(Join(ws, ' ')) == Join(ws, ' ')
  {
    var t := Join(ws, ' ');
    JoinEnds(ws, ' ');
    StripAround([], t, []);
    assert [] + t + [] == t;
  }

  /** The first three rewrites of a title of words: each word lower-cased
      and stripped of what is not kept, still separated by single spaces. */
  lemma CleanTitle(ws: seq<string>)
    requires |ws| > 0
    requires forall i :: 0 <= i < |ws| ==> IsWord(ws[i])
    ensures DeleteDisallowed(Strip(Downcase(Join(ws, ' ')))) == Join(DeleteDisallowedWords(DowncaseWords(ws)), ' ')
  {
    DowncaseWordsAreWords(ws);
    DowncaseJoin(ws);
    TitleNotPadded(DowncaseWords(ws));
    DeleteDisallowedJoin(DowncaseWords(ws));
  }

  /** The last three rewrites of cleaned words separated by single spaces:
      the words joined by single dashes. */
  lemma DashTitle(ws: seq<string>)
    requires |ws| > 0
    requires forall i :: 0 <= i < |ws| ==> IsWord(ws[i])
    ensures CollapseDashes(ChompDash(DashSpaceRuns(Join(ws, ' ')))) == Join(ws, '-')
  {
    var j := Join(ws, '-');
    assert DashSpaceRuns(Join(ws, ' ')) == j by { DashSpaceRunsJoinWords(ws); }
    assert ChompDash(j) == j by { JoinEnds(ws, '-'); }
    JoinNoDoubleDash(ws);
    CollapseDashesIdentity(j);
  }

  /** A title made of words separated by single spaces, each word keeping at
      least one letter or digit, becomes the kept part of each word, in small
      letters, joined by single dashes: "Test Headline" becomes
      "test-headline". */
  lemma NormalizedWords(ws: seq<string>)
    requires |ws| > 0
    requires forall i :: 0 <= i < |ws| ==> IsWord(ws[i]) && CleanWord(ws[i]) != []
    ensures Normalized(Join(ws, ' ')) == Join(DeleteDisallowedWords(DowncaseWords(ws)), '-')
  {
    CleanTitle(ws);
    CleanWordsAreWords(ws);
    DashTitle(DeleteDisallowedWords(DowncaseWords(ws)));
  }
}
