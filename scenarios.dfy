/** Worked cases of a filter pass on small collections: a query with a
    leading space, a query spanning two fields, and two spellings of one
    word that differ in accents and case. */
module Scenarios {
  import opened TextNormalize
  import opened Matching
  import opened ResultText
  import opened FilterSpec

  /** A text of lower-case ASCII letters and spaces is its own normal form. */
  lemma PlainTextNormal(s: string)
    requires forall i | 0 <= i < |s| :: 'a' <= s[i] <= 'z' || s[i] == ' '
    ensures Normalize(s) == s
  {
    forall i | 0 <= i < |s|
      ensures Settled(s[i])
    {
      PlainCanonical(s[i]);
    }
    NormalizeOfSettled(s);
  }

  /** The query " abc" passes the blank test, but is then searched with its
      leading space: it misses the link titled "abc", which "abc" finds. */
  lemma LeadingSpaceIsSearched(l: Link, query: string)
    requires l == Link(Present("abc"), Present("x"), "y", "z", Absent) && query == " abc"
    ensures !IsBlank(Normalize(query)) && Normalize(query) == query
    ensures Matches(l, query[1..]) && !Matches(l, query)
  {
    PlainTextNormal(query);
    assert !IsJsWhitespace(query[1]);
    BlankIffAllWhitespace(query);
    ExampleText(l);
    ExampleSearch(SearchableText(l), query);
  }

  lemma ExampleText(l: Link)
    requires l == Link(Present("abc"), Present("x"), "y", "z", Absent)
    ensures SearchableText(l) == "abc x y z"
  {
    PlainTextNormal(OrEmpty(l.title));
    PlainTextNormal(OrEmpty(l.alias));
    PlainTextNormal(l.name);
    PlainTextNormal(l.desc);
    SearchableFields(l);
  }

  lemma ExampleSearch(text: string, query: string)
    requires text == "abc x y z" && query == " abc"
    ensures Includes(text, query[1..]) && !Includes(text, query)
  {
    assert OccursAt(text, query[1..], 0);
    IncludesIff(text, query[1..]);
    forall k: nat | k + 4 <= |text|
      ensures !OccursAt(text, query, k)
    {
      assert query[1] == 'a';
      assert k == 0 || text[k + 1] != 'a';
    }
    IncludesIff(text, query);
  }

  /** "direito penal" finds any link titled "direito" whose data-search
      text is "penal": the query runs across the space that joins the
      fields. */
  lemma QuerySpansTitleAndAlias(l: Link, title: string, alias: string, query: string)
    requires title == "direito" && alias == "penal" && query == "direito penal"
    requires l.title == Present(title) && l.alias == Present(alias)
    ensures Matches(l, query)
  {
    PlainTextNormal(title);
    PlainTextNormal(alias);
    assert query == title + " " + alias;
    SpanningMatch(l, title, alias);
  }

  /** "fra" finds the link whose description is "Frações": the capital
      folds and the accents after the match do not matter. */
  lemma FractionsFoundByPrefix(l: Link, query: string)
    requires l == Link(Absent, Absent, "Matemática Básica", "Frações", Present("G1")) && query == "fra"
    ensures Matches(l, query)
  {
    FractionsPrefix(l.desc, query);
    OccursIncludes(Normalize(l.desc), query, 0);
    FieldMatches(l, query);
  }

  lemma FractionsPrefix(d: string, query: string)
    requires d == "Frações" && query == "fra"
    ensures OccursAt(Normalize(d), query, 0)
  {
    var head, rest := "Fra", "ções";
    assert d == head + rest;
    NormalizeConcat(head, rest);
    FraNormal(head, query);
  }

  lemma FraNormal(head: string, query: string)
    requires head == "Fra" && query == "fra"
    ensures Normalize(head) == query
  {
    NormalizeConcat([head[0]], head[1..]);
    assert [head[0]] + head[1..] == head;
    NormalizePlainChar(head[0]);
    PlainTextNormal(head[1..]);
  }

  /** A collection of two modules: module G1 holds
      "Matemática Básica" (description "Frações") and "História", module G2
      holds "Química". The query "fra" highlights the first link only, hides
      the other two, hides G2 but not G1, and reports one result. */
  lemma FractionsPass(page: Page, isMobile: bool, v: PageView, query: string)
    requires page == Page([Link(Absent, Absent, "Matemática Básica", "Frações", Present("G1")),
                           Link(Absent, Absent, "História", "", Present("G1")),
                           Link(Absent, Absent, "Química", "", Present("G2"))],
                          [Present("G1"), Present("G2")])
    requires query == "fra"
    ensures var r := Pass(page, isMobile, v, query);
      r.linkHighlight == [true, false, false] && r.linkHidden == [false, true, true]
      && r.moduleHidden == [false, true]
      && r.resultsDisplay == DisplayBlock && r.countText == ResultMessage(1)
  {
    PlainTextNormal(query);
    assert !IsJsWhitespace(query[0]);
    BlankIffAllWhitespace(query);
    var hits := FractionsHits(page.links, query);
    FractionsCounts(Keys(page.links), hits);
  }

  /** Of the three links, "fra" matches the first only. */
  lemma FractionsHits(links: seq<Link>, query: string) returns (hits: seq<bool>)
    requires links == [Link(Absent, Absent, "Matemática Básica", "Frações", Present("G1")),
                       Link(Absent, Absent, "História", "", Present("G1")),
                       Link(Absent, Absent, "Química", "", Present("G2"))]
    requires query == "fra"
    ensures hits == Hits(links, query) && hits == [true, false, false]
    ensures Keys(links) == ["G1", "G1", "G2"]
  {
    hits := Hits(links, query);
    FractionsFoundByPrefix(links[0], query);
    OtherNamesMiss(links[1], query);
    OtherNamesMiss(links[2], query);
    HitsAt(links, query, 0);
    HitsAt(links, query, 1);
    HitsAt(links, query, 2);
  }

  /** One match in G1 and none in G2: G1 counts one, G2 has no entry. */
  lemma FractionsCounts(keys: seq<string>, hits: seq<bool>)
    requires keys == ["G1", "G1", "G2"] && hits == [true, false, false]
    ensures CountHits(hits, 3) == 1 && ModuleCounts(keys, hits, 3) == map["G1" := 1]
  {
    assert CountHits(hits, 3) == CountHits(hits, 2) == CountHits(hits, 1) == 1;
    var once := Tally(map[], keys[0]);
    assert once == map["G1" := 1];
    assert ModuleCounts(keys, hits, 1) == once;
    assert ModuleCounts(keys, hits, 3) == ModuleCounts(keys, hits, 2) == once;
  }

  /** "História" and "Química" have no "f": "fra" misses both links. */
  lemma OtherNamesMiss(l: Link, query: string)
    requires l == Link(Absent, Absent, "História", "", Present("G1"))
          || l == Link(Absent, Absent, "Química", "", Present("G2"))
    requires query == "fra"
    ensures !Matches(l, query)
  {
    var n := NameNormal(l.name);
    NoLetterF(n);
    NameLacksLetter(l, query);
  }

  /** The normal forms of the two other names of the example. */
  lemma NameNormal(w: string) returns (n: string)
    requires w == "História" || w == "Química"
    ensures n == Normalize(w)
    ensures w == "História" ==> n == "historia"
    ensures w == "Química" ==> n == "quimica"
  {
    if w == "História" {
      AccentedWord(w, "Hist", 'ó', "ria");
    } else {
      AccentedWord(w, "Qu", 'í', "mica");
    }
    n := Normalize(w);
  }

  /** Neither normal form has an "f". */
  lemma NoLetterF(n: string)
    requires n == "historia" || n == "quimica"
    ensures forall i | 0 <= i < |n| :: n[i] != 'f'
  {
  }

  /** A capitalised word with one accented letter in its middle normalizes
      to its letters in lower case without the accent. */
  lemma AccentedWord(w: string, head: string, c: char, tail: string)
    requires w == head + [c] + tail && |head| > 0 && 'A' <= head[0] <= 'Z'
    requires forall i | 1 <= i < |head| :: 'a' <= head[i] <= 'z'
    requires |Decompose(c)| == 2 && 'a' <= Decompose(c)[0] <= 'z'
    requires forall i | 0 <= i < |tail| :: 'a' <= tail[i] <= 'z'
    ensures Normalize(w) == [LowerChar(head[0])] + head[1..] + [Decompose(c)[0]] + tail
  {
    NormalizeConcat(head + [c], tail);
    NormalizeConcat(head, [c]);
    CapitalizedNormal(head);
    AccentNormal(c);
    PlainTextNormal(tail);
  }

  lemma CapitalizedNormal(head: string)
    requires |head| > 0 && 'A' <= head[0] <= 'Z'
    requires forall i | 1 <= i < |head| :: 'a' <= head[i] <= 'z'
    ensures Normalize(head) == [LowerChar(head[0])] + head[1..]
  {
    assert [head[0]] + head[1..] == head;
    NormalizeConcat([head[0]], head[1..]);
    NormalizePlainChar(head[0]);
    PlainTextNormal(head[1..]);
  }

  lemma AccentNormal(c: char)
    requires |Decompose(c)| == 2 && 'a' <= Decompose(c)[0] <= 'z'
    ensures Normalize([c]) == [Decompose(c)[0]]
  {
    NormalizeAccented(c);
    PlainTextNormal([Decompose(c)[0]]);
  }

  /** A link with only a name, whose normal form lacks the first letter of
      the query, does not match a query that starts with a letter. */
  lemma NameLacksLetter(l: Link, query: string)
    requires l.title == Absent && l.alias == Absent && l.desc == ""
    requires |query| > 0 && query[0] != ' '
    requires forall i | 0 <= i < |Normalize(l.name)| :: Normalize(l.name)[i] != query[0]
    ensures !Matches(l, query)
  {
    var n := Normalize(l.name);
    assert Normalize("") == "" by {
      NormalizeOfSettled("");
    }
    SearchableFields(l);
    var text := SearchableText(l);
    assert text == "  " + n + " ";
    forall i | 0 <= i < |text|
      ensures text[i] != query[0]
    {
      if 2 <= i < 2 + |n| {
        assert text[i] == n[i - 2];
      }
    }
    FirstLetterMissing(text, query);
  }

  /** A text without the first letter of a pattern does not contain it. */
  lemma FirstLetterMissing(text: string, pattern: string)
    requires |pattern| > 0 && forall i | 0 <= i < |text| :: text[i] != pattern[0]
    ensures !Includes(text, pattern)
  {
    forall k: nat | k + |pattern| <= |text|
      ensures !OccursAt(text, pattern, k)
    {
      assert text[k..k + |pattern|][0] == text[k];
    }
    IncludesIff(text, pattern);
  }

  /** "Ação" and "acao" normalize alike, so a pass gives the same page for
      either query. */
  lemma AccentAndCaseIgnored(page: Page, isMobile: bool, v: PageView, s: string, t: string)
    requires s == "Ação" && t == "acao"
    ensures Normalize(s) == Normalize(t)
    ensures Pass(page, isMobile, v, s) == Pass(page, isMobile, v, t)
  {
    SameLetters(s, t);
  }

  lemma SameLetters(s: string, t: string)
    requires s == "Ação" && t == "acao"
    ensures Normalize(s) == Normalize(t)
  {
    SameLettersCharwise(s, t);
    forall i | 0 <= i < |s|
      ensures Normalize([s[i]]) == Normalize([t[i]])
    {
      assert i == 0 || i == 1 || i == 2 || i == 3;
    }
    NormalizeCharwise(s, t);
  }

  lemma SameLettersCharwise(s: string, t: string)
    requires s == "Ação" && t == "acao"
    ensures |s| == |t| == 4
    ensures Normalize([s[0]]) == Normalize([t[0]]) && Normalize([s[1]]) == Normalize([t[1]])
    ensures Normalize([s[2]]) == Normalize([t[2]]) && Normalize([s[3]]) == Normalize([t[3]])
  {
    CapitalFolds('A', 'a');
    AccentFolds('ç', 'c');
    AccentFolds('ã', 'a');
  }

  lemma CapitalFolds(c: char, d: char)
    requires c == 'A' && d == 'a'
    ensures Normalize([c]) == Normalize([d])
  {
    NormalizePlainChar(c);
    NormalizePlainChar(d);
  }

  lemma AccentFolds(c: char, d: char)
    requires (c == 'ç' && d == 'c') || (c == 'ã' && d == 'a')
    ensures Normalize([c]) == Normalize([d])
  {
    NormalizeAccented(c);
  }
}
