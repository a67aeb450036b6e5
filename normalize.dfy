/** Accent- and case-insensitive form of a text, as the search box compares it:
    canonical decomposition, removal of the combining diacritical marks
    U+0300..U+036F, then lower-casing. The decomposition and the lower-casing
    are modelled for ASCII and Latin-1 letters (the letters of Portuguese and
    the other western European languages); every other character is its own
    decomposition and its own lower case here. */
module TextNormalize {

  /** A code point of the block "Combining Diacritical Marks", U+0300..U+036F. */
  predicate IsCombiningMark(c: char) {
    '\U{0300}' <= c <= '\U{036F}'
  }

  /** Upper-case letters whose lower case is 32 code points above:
      A..Z and the Latin-1 letters U+00C0..U+00DE except the sign U+00D7. */
  predicate IsUpper(c: char) {
    'A' <= c <= 'Z' || ('\U{00C0}' <= c <= '\U{00DE}' && c != '\U{00D7}')
  }

  /** Canonical decomposition of one character: a precomposed Latin-1 letter
      becomes its base letter followed by its combining mark. */
  function Decompose(c: char): (r: seq<char>)
    ensures 1 <= |r| <= 2
    ensures |r| == 2 ==> r[0] < '\U{0080}' && IsCombiningMark(r[1])
    ensures |r| == 1 ==> r[0] == c
  {
    match c
    case 'À' => ['A', '\U{0300}'] case 'Á' => ['A', '\U{0301}'] case 'Â' => ['A', '\U{0302}']
    case 'Ã' => ['A', '\U{0303}'] case 'Ä' => ['A', '\U{0308}'] case 'Å' => ['A', '\U{030A}']
    case 'Ç' => ['C', '\U{0327}']
    case 'È' => ['E', '\U{0300}'] case 'É' => ['E', '\U{0301}'] case 'Ê' => ['E', '\U{0302}']
    case 'Ë' => ['E', '\U{0308}']
    case 'Ì' => ['I', '\U{0300}'] case 'Í' => ['I', '\U{0301}'] case 'Î' => ['I', '\U{0302}']
    case 'Ï' => ['I', '\U{0308}']
    case 'Ñ' => ['N', '\U{0303}']
    case 'Ò' => ['O', '\U{0300}'] case 'Ó' => ['O', '\U{0301}'] case 'Ô' => ['O', '\U{0302}']
    case 'Õ' => ['O', '\U{0303}'] case 'Ö' => ['O', '\U{0308}']
    case 'Ù' => ['U', '\U{0300}'] case 'Ú' => ['U', '\U{0301}'] case 'Û' => ['U', '\U{0302}']
    case 'Ü' => ['U', '\U{0308}']
    case 'Ý' => ['Y', '\U{0301}']
    case 'à' => ['a', '\U{0300}'] case 'á' => ['a', '\U{0301}'] case 'â' => ['a', '\U{0302}']
    case 'ã' => ['a', '\U{0303}'] case 'ä' => ['a', '\U{0308}'] case 'å' => ['a', '\U{030A}']
    case 'ç' => ['c', '\U{0327}']
    case 'è' => ['e', '\U{0300}'] case 'é' => ['e', '\U{0301}'] case 'ê' => ['e', '\U{0302}']
    case 'ë' => ['e', '\U{0308}']
    case 'ì' => ['i', '\U{0300}'] case 'í' => ['i', '\U{0301}'] case 'î' => ['i', '\U{0302}']
    case 'ï' => ['i', '\U{0308}']
    case 'ñ' => ['n', '\U{0303}']
    case 'ò' => ['o', '\U{0300}'] case 'ó' => ['o', '\U{0301}'] case 'ô' => ['o', '\U{0302}']
    case 'õ' => ['o', '\U{0303}'] case 'ö' => ['o', '\U{0308}']
    case 'ù' => ['u', '\U{0300}'] case 'ú' => ['u', '\U{0301}'] case 'û' => ['u', '\U{0302}']
    case 'ü' => ['u', '\U{0308}']
    case 'ý' => ['y', '\U{0301}'] case 'ÿ' => ['y', '\U{0308}']
    case _ => [c]
  }

  /** A character that canonical decomposition leaves alone. */
  predicate Canonical(c: char) {
    Decompose(c) == [c]
  }

  /** ASCII characters and combining marks have no decomposition. */
  lemma PlainCanonical(c: char)
    requires c < '\U{0080}' || IsCombiningMark(c)
    ensures Canonical(c)
  {
  }

  /** Decomposition is complete after one step. */
  lemma DecomposeCanonical(c: char)
    ensures forall i | 0 <= i < |Decompose(c)| :: Canonical(Decompose(c)[i])
  {
    var d := Decompose(c);
    if |d| == 2 {
      PlainCanonical(d[0]);
      PlainCanonical(d[1]);
    }
  }

  /** A character that normalization maps to itself. */
  predicate Settled(c: char) {
    Canonical(c) && !IsCombiningMark(c) && !IsUpper(c)
  }

  /** `text.normalize('NFD')`, for the characters modelled here. */
  function Nfd(s: string): (r: string)
    ensures |r| >= |s|
  {
    if s == [] then [] else Decompose(s[0]) + Nfd(s[1..])
  }

  /** Every character of a decomposed text is canonical. */
  lemma {:induction false} NfdCanonical(s: string)
    ensures forall i | 0 <= i < |Nfd(s)| :: Canonical(Nfd(s)[i])
  {
    if s != [] {
      DecomposeCanonical(s[0]);
      NfdCanonical(s[1..]);
    }
  }

  /** Removal of every code point U+0300..U+036F, keeping the other
      characters in order. */
  function StripMarks(s: string): (r: string)
    ensures |r| <= |s|
  {
    if s == [] then []
    else if IsCombiningMark(s[0]) then StripMarks(s[1..])
    else [s[0]] + StripMarks(s[1..])
  }

  /** What is left has no combining mark, and every character of it comes
      from the input. */
  lemma {:induction false} StripMarksSpec(s: string)
    ensures forall i | 0 <= i < |StripMarks(s)| :: !IsCombiningMark(StripMarks(s)[i]) && StripMarks(s)[i] in s
  {
    if s != [] {
      StripMarksSpec(s[1..]);
    }
  }

  /** Only combining marks are removed: a text without any is kept whole. */
  lemma {:induction false} StripMarksKeeps(s: string)
    requires forall i | 0 <= i < |s| :: !IsCombiningMark(s[i])
    ensures StripMarks(s) == s
  {
    if s != [] {
      StripMarksKeeps(s[1..]);
    }
  }

  function LowerChar(c: char): (r: char)
    ensures !IsUpper(r)
    ensures !IsUpper(c) ==> r == c
  {
    if IsUpper(c) then (c as int + 32) as char else c
  }

  /** `.toLowerCase()`, for the letters modelled here. */
  function Lower(s: string): (r: string)
    ensures |r| == |s|
  {
    if s == [] then [] else [LowerChar(s[0])] + Lower(s[1..])
  }

  /** Lower-casing works character by character. */
  lemma {:induction false} LowerSpec(s: string)
    ensures forall i | 0 <= i < |s| :: Lower(s)[i] == LowerChar(s[i])
  {
    if s != [] {
      LowerSpec(s[1..]);
    }
  }

  /** normalizeText: decompose, strip the combining marks, lower-case. */
  function Normalize(s: string): string {
    Lower(StripMarks(Nfd(s)))
  }

  lemma {:induction false} NfdConcat(a: string, b: string)
    ensures Nfd(a + b) == Nfd(a) + Nfd(b)
  {
    if a == [] {
      assert a + b == b;
    } else {
      assert (a + b)[0] == a[0];
      assert (a + b)[1..] == a[1..] + b;
      NfdConcat(a[1..], b);
    }
  }

  lemma {:induction false} StripMarksConcat(a: string, b: string)
    ensures StripMarks(a + b) == StripMarks(a) + StripMarks(b)
  {
    if a == [] {
      assert a + b == b;
    } else {
      assert (a + b)[0] == a[0];
      assert (a + b)[1..] == a[1..] + b;
      StripMarksConcat(a[1..], b);
    }
  }

  lemma {:induction false} LowerConcat(a: string, b: string)
    ensures Lower(a + b) == Lower(a) + Lower(b)
  {
    if a == [] {
      assert a + b == b;
    } else {
      assert (a + b)[0] == a[0];
      assert (a + b)[1..] == a[1..] + b;
      LowerConcat(a[1..], b);
    }
  }

  /** Normalization works character by character, so it distributes over
      concatenation. */
  lemma NormalizeConcat(a: string, b: string)
    ensures Normalize(a + b) == Normalize(a) + Normalize(b)
  {
    NfdConcat(a, b);
    StripMarksConcat(Nfd(a), Nfd(b));
    LowerConcat(StripMarks(Nfd(a)), StripMarks(Nfd(b)));
  }

  /** Lower-casing a decomposed letter that is not a mark gives a character
      normalization leaves alone. */
  lemma LowerSettles(c: char)
    requires Canonical(c) && !IsCombiningMark(c)
    ensures Settled(LowerChar(c))
  {
  }

  /** Every character of a normalized text is settled: no combining mark, no
      upper-case letter, nothing left to decompose. */
  lemma NormalizeSettled(s: string)
    ensures forall i | 0 <= i < |Normalize(s)| :: Settled(Normalize(s)[i])
  {
    var d := Nfd(s);
    var t := StripMarks(d);
    NfdCanonical(s);
    StripMarksSpec(d);
    LowerSpec(t);
    forall i | 0 <= i < |t|
      ensures Settled(LowerChar(t[i]))
    {
      assert t[i] in d;
      LowerSettles(t[i]);
    }
  }

  /** A text made only of settled characters is its own normal form. */
  lemma {:induction false} NormalizeOfSettled(s: string)
    requires forall i | 0 <= i < |s| :: Settled(s[i])
    ensures Normalize(s) == s
  {
    if s != [] {
      NormalizeOfSettled(s[1..]);
      NormalizeConcat([s[0]], s[1..]);
      assert [s[0]] + s[1..] == s;
    }
  }

  /** normalizeText is idempotent. */
  lemma NormalizeIdempotent(s: string)
    ensures Normalize(Normalize(s)) == Normalize(s)
  {
    NormalizeSettled(s);
    NormalizeOfSettled(Normalize(s));
  }

  /** On a text that is already decomposed, normalization removes exactly the
      combining marks and lower-cases every other character. */
  lemma {:induction false} NormalizeDecomposed(s: string)
    requires forall i | 0 <= i < |s| :: Canonical(s[i])
    ensures Normalize(s) == Lower(StripMarks(s))
  {
    NfdOfCanonical(s);
  }

  lemma {:induction false} NfdOfCanonical(s: string)
    requires forall i | 0 <= i < |s| :: Canonical(s[i])
    ensures Nfd(s) == s
  {
    if s != [] {
      NfdOfCanonical(s[1..]);
      assert [s[0]] + s[1..] == s;
    }
  }

  /** A character that decomposition leaves alone and that is not a mark
      normalizes to its lower case. */
  lemma NormalizePlainChar(c: char)
    requires Canonical(c) && !IsCombiningMark(c)
    ensures Normalize([c]) == [LowerChar(c)]
  {
    assert [c][1..] == [];
    assert Nfd([c]) == [c];
    assert StripMarks([c]) == [c];
  }

  /** A precomposed letter normalizes as its base letter does: the accent
      goes, the case folds. */
  lemma NormalizeAccented(c: char)
    requires |Decompose(c)| == 2
    ensures Normalize([c]) == Normalize([Decompose(c)[0]])
  {
    var d := Decompose(c);
    assert [c][1..] == [];
    assert Nfd([c]) == d;
    assert d[1..][1..] == [];
    assert StripMarks(d[1..]) == [];
    assert StripMarks(d) == [d[0]];
    PlainCanonical(d[0]);
    NormalizePlainChar(d[0]);
  }

  /** Lower-casing a precomposed capital gives the precomposed small letter
      with the same mark: the case changes on the base letter only. */
  lemma DecomposeOfLower(c: char)
    requires IsUpper(c)
    ensures |Decompose(LowerChar(c))| == |Decompose(c)|
    ensures |Decompose(c)| == 2 ==>
      Decompose(LowerChar(c)) == [LowerChar(Decompose(c)[0]), Decompose(c)[1]]
  {
    if c <= 'Z' {
      PlainCanonical(c);
      PlainCanonical(LowerChar(c));
    } else if c <= '\U{00C7}' {
      DecomposeOfLowerA(c);
    } else if c <= '\U{00CF}' {
      DecomposeOfLowerE(c);
    } else if c <= '\U{00D6}' {
      DecomposeOfLowerO(c);
    } else {
      DecomposeOfLowerU(c);
    }
  }

  /** The same for the capitals U+00C0..U+00C7 (A with a mark, Æ, Ç). */
  lemma DecomposeOfLowerA(c: char)
    requires '\U{00C0}' <= c <= '\U{00C7}'
    ensures |Decompose(LowerChar(c))| == |Decompose(c)|
    ensures |Decompose(c)| == 2 ==>
      Decompose(LowerChar(c)) == [LowerChar(Decompose(c)[0]), Decompose(c)[1]]
  {
  }

  /** The same for U+00C8..U+00CF (E and I with a mark). */
  lemma DecomposeOfLowerE(c: char)
    requires '\U{00C8}' <= c <= '\U{00CF}'
    ensures |Decompose(LowerChar(c))| == |Decompose(c)|
    ensures |Decompose(c)| == 2 ==>
      Decompose(LowerChar(c)) == [LowerChar(Decompose(c)[0]), Decompose(c)[1]]
  {
  }

  /** The same for U+00D0..U+00D6 (Ð, N and O with a mark). */
  lemma DecomposeOfLowerO(c: char)
    requires '\U{00D0}' <= c <= '\U{00D6}'
    ensures |Decompose(LowerChar(c))| == |Decompose(c)|
    ensures |Decompose(c)| == 2 ==>
      Decompose(LowerChar(c)) == [LowerChar(Decompose(c)[0]), Decompose(c)[1]]
  {
  }

  /** The same for U+00D8..U+00DE (Ø, U and Y with a mark, Þ). */
  lemma DecomposeOfLowerU(c: char)
    requires '\U{00D8}' <= c <= '\U{00DE}'
    ensures |Decompose(LowerChar(c))| == |Decompose(c)|
    ensures |Decompose(c)| == 2 ==>
      Decompose(LowerChar(c)) == [LowerChar(Decompose(c)[0]), Decompose(c)[1]]
  {
  }

  /** A character normalizes as its lower case does. */
  lemma NormalizeIgnoresCaseChar(c: char)
    ensures Normalize([c]) == Normalize([LowerChar(c)])
  {
    if IsUpper(c) {
      var l := LowerChar(c);
      DecomposeOfLower(c);
      if |Decompose(c)| == 2 {
        var b := Decompose(c)[0];
        NormalizeAccented(c);
        NormalizeAccented(l);
        PlainCanonical(b);
        PlainCanonical(LowerChar(b));
        NormalizePlainChar(b);
        NormalizePlainChar(LowerChar(b));
      } else {
        NormalizePlainChar(c);
        NormalizePlainChar(l);
      }
    }
  }

  /** Case does not matter: a text normalizes as its lower-cased copy does. */
  lemma NormalizeIgnoresCase(s: string)
    ensures Normalize(Lower(s)) == Normalize(s)
  {
    LowerSpec(s);
    forall i | 0 <= i < |s|
      ensures Normalize([Lower(s)[i]]) == Normalize([s[i]])
    {
      NormalizeIgnoresCaseChar(s[i]);
    }
    NormalizeCharwise(Lower(s), s);
  }

  /** Normalization is decided character by character: two texts whose
      characters normalize alike, position by position, normalize alike. */
  lemma {:induction false} NormalizeCharwise(s: string, t: string)
    requires |s| == |t|
    requires forall i | 0 <= i < |s| :: Normalize([s[i]]) == Normalize([t[i]])
    ensures Normalize(s) == Normalize(t)
  {
    if s != [] {
      NormalizeCharwise(s[1..], t[1..]);
      NormalizeConcat([s[0]], s[1..]);
      NormalizeConcat([t[0]], t[1..]);
      assert [s[0]] + s[1..] == s;
      assert [t[0]] + t[1..] == t;
    }
  }
}
