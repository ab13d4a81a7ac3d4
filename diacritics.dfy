/** The diacritic stripper (lib/slug/slug.rb, strip_diacritics_from_slug).

    The source first takes the compatibility decomposition (NFKD) of the text;
    that foreign step is not modelled, and the text given to `Stripped` is
    taken to be decomposed already. The fold then walks the code points. */
module Diacritics {
  import opened SlugText
  import opened AsciiApproximations

  /** U+0300..U+036F, the combining diacritical marks. */
  predicate IsCombiningMark(c: char) {
    '\U{0300}' <= c <= '\U{036F}'
  }

  /** What the fold appends for one code point: its table substitute, nothing
      for a combining mark, the code point itself otherwise. */
  function Emit(c: char): string {
    match Approximation(c as int)
    case Some(sub) => sub
    case None => if c < '\U{0300}' || c > '\U{036F}' then [c] else []
  }

  /** Appends `f` of each code point of `s` in turn, from the left. */
  function FlatMap(s: string, f: char -> string): string {
    if s == [] then [] else FlatMap(s[..|s| - 1], f) + f(s[|s| - 1])
  }

  /** The fold distributes over concatenation. */
  lemma {:induction false} FlatMapConcat(x: string, y: string, f: char -> string)
    ensures FlatMap(x + y, f) == FlatMap(x, f) + FlatMap(y, f)
  {
    if y == [] {
      assert x + y == x;
    } else {
      var z := y[..|y| - 1];
      var e := f(y[|y| - 1]);
      assert (x + y)[..|x + y| - 1] == x + z;
      assert (x + y)[|x + y| - 1] == y[|y| - 1];
      assert FlatMap(x + y, f) == FlatMap(x + z, f) + e;
      FlatMapConcat(x, z, f);
      assert FlatMap(x, f) + FlatMap(z, f) + e == FlatMap(x, f) + (FlatMap(z, f) + e);
    }
  }

  /** The text the stripper builds: `Emit` of each code point, in order. */
  function Stripped(s: string): string {
    FlatMap(s, Emit)
  }

  /** The `inject` loop: appends to an accumulator, code point by code point. */
  method StripDiacritics(s: string) returns (a: string)
    ensures a == Stripped(s)
  {
    a := [];
    var i := 0;
    while i < |s|
      invariant 0 <= i <= |s|
      invariant a == Stripped(s[..i])
    {
      var u := s[i];
      assert s[..i + 1][..i] == s[..i];
      match Approximation(u as int) {
        case Some(sub) =>
          a := a + sub;
        case None =>
          if u < '\U{0300}' || u > '\U{036F}' {
            a := a + [u];
          }
      }
      i := i + 1;
    }
    assert s[..i] == s;
  }

  /** Stripping works code point by code point: it distributes over concatenation. */
  lemma StrippedConcat(x: string, y: string)
    ensures Stripped(x + y) == Stripped(x) + Stripped(y)
  {
    FlatMapConcat(x, y, Emit);
  }

  /** Each table code point becomes its substitute, each combining mark
      disappears, and every other code point stays where it was. */
  lemma StrippedCons(c: char, s: string)
    ensures Approximation(c as int).Some? ==> Stripped([c] + s) == Approximation(c as int).value + Stripped(s)
    ensures IsCombiningMark(c) ==> Stripped([c] + s) == Stripped(s)
    ensures Approximation(c as int).None? && !IsCombiningMark(c) ==> Stripped([c] + s) == [c] + Stripped(s)
  {
    StrippedConcat([c], s);
    StrippedSnoc([], c);
    assert [] + [c] == [c];
    ApproximationKeys(c as int);
  }

  /** A code point the stripper leaves alone: neither a table key nor a mark. */
  predicate Plain(c: char) {
    Approximation(c as int).None? && !IsCombiningMark(c)
  }

  /** Text with no table key and no combining mark, pure ASCII for one, comes
      out unchanged. */
  lemma {:induction false} StrippedIdentity(s: string)
    requires forall i :: 0 <= i < |s| ==> Plain(s[i])
    ensures Stripped(s) == s
  {
    if s != [] {
      var p := s[..|s| - 1];
      StrippedIdentity(p);
      assert s == p + [s[|s| - 1]];
    }
  }

  lemma AsciiIsPlain(s: string)
    requires forall i :: 0 <= i < |s| ==> s[i] < '\U{0080}'
    ensures Stripped(s) == s
  {
    forall i | 0 <= i < |s|
      ensures Plain(s[i])
    {
      ApproximationKeys(s[i] as int);
    }
    StrippedIdentity(s);
  }

  /** The output holds no table key and no combining mark. */
  lemma {:induction false} StrippedIsPlain(s: string)
    ensures forall i :: 0 <= i < |Stripped(s)| ==> Plain(Stripped(s)[i])
  {
    if s != [] {
      var p := s[..|s| - 1];
      StrippedIsPlain(p);
      var e := Emit(s[|s| - 1]);
      assert Stripped(s) == Stripped(p) + e;
      forall i | 0 <= i < |e| ensures Plain(e[i]) {
        assert IsAsciiLetter(e[i]) || e == [s[|s| - 1]];
      }
    }
  }

  /** Stripping twice is stripping once. */
  lemma StrippedIdempotent(s: string)
    ensures Stripped(Stripped(s)) == Stripped(s)
  {
    StrippedIsPlain(s);
    StrippedIdentity(Stripped(s));
  }

  /** One more code point appends exactly what `Emit` gives for it. */
  lemma StrippedSnoc(s: string, c: char)
    ensures Stripped(s + [c]) == Stripped(s) + Emit(c)
  {
    assert (s + [c])[..|s|] == s;
  }
}
