/** The frozen table of ASCII substitutes for letters that have no canonical
    decomposition (lib/slug/ascii_approximations.rb). Being a `const`, it can
    never be modified. */
module AsciiApproximations {
  import opened SlugText

  /** Code point to ASCII substitute. */
  const Table: map<int, string> := map[
    198 := "AE",
    208 := "D",
    216 := "O",
    222 := "Th",
    223 := "ss",
    230 := "ae",
    240 := "d",
    248 := "o",
    254 := "th"
  ]

  predicate IsAsciiLetter(c: char) {
    'A' <= c <= 'Z' || 'a' <= c <= 'z'
  }

  /** `ASCII_APPROXIMATIONS[u]`: the substitute for code point `u`, or `nil`.
      Exactly the nine listed code points have one, and each substitute is one
      or two ASCII letters. */
  function Approximation(u: int): (r: Option<string>)
    ensures r.Some? ==> 1 <= |r.value| <= 2
    ensures r.Some? ==> forall i :: 0 <= i < |r.value| ==> IsAsciiLetter(r.value[i])
  {
    if u in Table then Some(Table[u]) else None
  }

  /** Exactly nine code points have a substitute, all in Latin-1. */
  lemma ApproximationKeys(u: int)
    ensures Approximation(u).Some? <==> u in {198, 208, 216, 222, 223, 230, 240, 248, 254}
  {
  }

  /** No key is a combining diacritical mark (U+0300..U+036F), so the table
      lookup and the mark removal never compete for a code point. */
  lemma NoKeyIsCombiningMark(u: int)
    requires Approximation(u).Some?
    ensures u < 0x300 || u > 0x36F
  {
    ApproximationKeys(u);
  }

  /** The substitutes the Latin-1 test string depends on. */
  lemma LatinSubstitutes()
    ensures Approximation(198) == Some("AE") && Approximation(230) == Some("ae")
    ensures Approximation(208) == Some("D") && Approximation(240) == Some("d")
    ensures Approximation(216) == Some("O") && Approximation(248) == Some("o")
    ensures Approximation(222) == Some("Th") && Approximation(254) == Some("th")
    ensures Approximation(223) == Some("ss")
  {
  }
}
