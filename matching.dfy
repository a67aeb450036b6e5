/** What one filter pass compares and counts: the subject links of the page,
    the text each one is searched by, the substring test, the blank-query
    test, and the tallies of matches per module and in all. */
module Matching {
  import opened TextNormalize

  /** An attribute that an element may lack (getAttribute then gives null). */
  datatype Attr = Absent | Present(value: string)

  /** An attribute read with `|| ''`: a missing one reads as the empty text. */
  function OrEmpty(a: Attr): string {
    match a
    case Absent => ""
    case Present(v) => v
  }

  /** The key under which a data-module value indexes a plain object:
      property keys are strings, and a missing attribute (null) becomes the
      key "null". */
  function PropertyKey(a: Attr): string {
    match a
    case Absent => "null"
    case Present(v) => v
  }

  /** One subject link (`.materia-link`): its data-title and data-search
      attributes, the texts of its `.materia-name` and `.materia-desc`
      children, and the data-module attribute of the module it sits in. */
  datatype Link = Link(title: Attr, alias: Attr, name: string, desc: string, moduleAttr: Attr)

  /** The four fields joined by single spaces, then normalized. */
  function SearchableText(l: Link): string {
    Normalize(OrEmpty(l.title) + " " + OrEmpty(l.alias) + " " + l.name + " " + l.desc)
  }

  // ---------------------------------------------------------------------
  // Substring test (String.prototype.includes)

  /** `pattern` occurs in `text` starting at position `i`. */
  predicate OccursAt(text: string, pattern: string, i: nat) {
    i + |pattern| <= |text| && text[i..i + |pattern|] == pattern
  }

  /** `text.includes(pattern)`, scanning the start positions left to right. */
  function Includes(text: string, pattern: string): bool
    decreases |text|
  {
    if |pattern| <= |text| && text[..|pattern|] == pattern then true
    else if text == [] then false
    else Includes(text[1..], pattern)
  }

  /** The scan finds the pattern exactly when it occurs somewhere. */
  lemma IncludesIff(text: string, pattern: string)
    ensures Includes(text, pattern) <==> exists i: nat :: OccursAt(text, pattern, i)
  {
    if Includes(text, pattern) {
      var i := IncludesWitness(text, pattern);
    }
    if i: nat :| OccursAt(text, pattern, i) {
      OccursIncludes(text, pattern, i);
    }
  }

  /** A position where the scan finds the pattern. */
  lemma {:induction false} IncludesWitness(text: string, pattern: string) returns (i: nat)
    requires Includes(text, pattern)
    ensures OccursAt(text, pattern, i)
    decreases |text|
  {
    if |pattern| <= |text| && text[..|pattern|] == pattern {
      i := 0;
    } else {
      var rest := text[1..];
      var j := IncludesWitness(rest, pattern);
      assert text[j + 1..j + 1 + |pattern|] == rest[j..j + |pattern|];
      i := j + 1;
    }
  }

  /** The scan reaches every position where the pattern occurs. */
  lemma {:induction false} OccursIncludes(text: string, pattern: string, i: nat)
    requires OccursAt(text, pattern, i)
    ensures Includes(text, pattern)
    decreases i
  {
    if i > 0 && !(|pattern| <= |text| && text[..|pattern|] == pattern) {
      var rest := text[1..];
      assert rest[i - 1..i - 1 + |pattern|] == text[i..i + |pattern|];
      OccursIncludes(rest, pattern, i - 1);
    }
  }

  /** The empty text occurs in every text. */
  lemma IncludesEmpty(text: string)
    ensures Includes(text, [])
  {
  }

  /** A text found inside a part of a longer text is found in the whole. */
  lemma IncludesInfix(a: string, b: string, c: string, pattern: string)
    requires Includes(b, pattern)
    ensures Includes(a + b + c, pattern)
  {
    IncludesIff(b, pattern);
    var i: nat :| OccursAt(b, pattern, i);
    var whole := a + b + c;
    assert whole[|a| + i..|a| + i + |pattern|] == b[i..i + |pattern|];
    assert OccursAt(whole, pattern, |a| + i);
    IncludesIff(whole, pattern);
  }

  // ---------------------------------------------------------------------
  // Blank test (`!s.trim()`)

  /** The characters String.prototype.trim removes: WhiteSpace and
      LineTerminator of ECMAScript (section 12.2 and 12.3 of ECMA-262). */
  predicate IsJsWhitespace(c: char) {
    c == '\t' || c == '\n' || c == '\U{000B}' || c == '\U{000C}' || c == '\r' || c == ' '
    || c == '\U{00A0}' || c == '\U{1680}' || ('\U{2000}' <= c <= '\U{200A}')
    || c == '\U{2028}' || c == '\U{2029}' || c == '\U{202F}' || c == '\U{205F}'
    || c == '\U{3000}' || c == '\U{FEFF}'
  }

  /** Removes the leading whitespace: the result is the suffix of `s` that
      starts at its first non-whitespace character. */
  function TrimStart(s: string): (r: string)
    ensures |r| <= |s| && r == s[|s| - |r|..]
    ensures forall i | 0 <= i < |s| - |r| :: IsJsWhitespace(s[i])
    ensures r != [] ==> !IsJsWhitespace(r[0])
  {
    if s != [] && IsJsWhitespace(s[0]) then TrimStart(s[1..]) else s
  }

  /** Removes the trailing whitespace: the result is the prefix of `s` that
      ends at its last non-whitespace character. */
  function TrimEnd(s: string): (r: string)
    ensures |r| <= |s| && r == s[..|r|]
    ensures forall i | |r| <= i < |s| :: IsJsWhitespace(s[i])
    ensures r != [] ==> !IsJsWhitespace(r[|r| - 1])
  {
    if s != [] && IsJsWhitespace(s[|s| - 1]) then TrimEnd(s[..|s| - 1]) else s
  }

  function Trim(s: string): string {
    TrimEnd(TrimStart(s))
  }

  /** `!s.trim()`: the trimmed text is the empty string, the one falsy string. */
  predicate IsBlank(s: string) {
    Trim(s) == []
  }

  /** A text is blank exactly when every character of it is whitespace. */
  lemma BlankIffAllWhitespace(s: string)
    ensures IsBlank(s) <==> forall i | 0 <= i < |s| :: IsJsWhitespace(s[i])
  {
    var t := TrimStart(s);
    if IsBlank(s) {
      assert t == [];
    }
  }

  // ---------------------------------------------------------------------
  // Matching

  /** A link matches when the normalized query, as it is (not trimmed),
      occurs in the link's searchable text. */
  predicate Matches(l: Link, normalizedQuery: string) {
    Includes(SearchableText(l), normalizedQuery)
  }

  /** The searchable text is the four fields normalized one by one and
      joined by single spaces. */
  lemma SearchableFields(l: Link)
    ensures SearchableText(l)
         == Normalize(OrEmpty(l.title)) + " " + Normalize(OrEmpty(l.alias)) + " "
            + Normalize(l.name) + " " + Normalize(l.desc)
  {
    var t, a, n, d := OrEmpty(l.title), OrEmpty(l.alias), l.name, l.desc;
    assert Normalize(" ") == " " by {
      NormalizeOfSettled(" ");
    }
    NormalizeConcat(t + " " + a + " " + n + " ", d);
    NormalizeConcat(t + " " + a + " " + n, " ");
    NormalizeConcat(t + " " + a + " ", n);
    NormalizeConcat(t + " " + a, " ");
    NormalizeConcat(t + " ", a);
    NormalizeConcat(t, " ");
  }

  /** A query found in one field, once normalized, matches the link. */
  lemma FieldMatches(l: Link, normalizedQuery: string)
    requires Includes(Normalize(OrEmpty(l.title)), normalizedQuery)
          || Includes(Normalize(OrEmpty(l.alias)), normalizedQuery)
          || Includes(Normalize(l.name), normalizedQuery)
          || Includes(Normalize(l.desc), normalizedQuery)
    ensures Matches(l, normalizedQuery)
  {
    SearchableFields(l);
    IncludesInJoined(Normalize(OrEmpty(l.title)), Normalize(OrEmpty(l.alias)),
                     Normalize(l.name), Normalize(l.desc), normalizedQuery);
  }

  lemma IncludesInJoined(t: string, a: string, n: string, d: string, q: string)
    requires Includes(t, q) || Includes(a, q) || Includes(n, q) || Includes(d, q)
    ensures Includes(t + " " + a + " " + n + " " + d, q)
  {
    var text := t + " " + a + " " + n + " " + d;
    if Includes(t, q) {
      IncludesInfix([], t, " " + a + " " + n + " " + d, q);
      assert [] + t + (" " + a + " " + n + " " + d) == text;
    } else if Includes(a, q) {
      IncludesInfix(t + " ", a, " " + n + " " + d, q);
      assert t + " " + a + (" " + n + " " + d) == text;
    } else if Includes(n, q) {
      IncludesInfix(t + " " + a + " ", n, " " + d, q);
      assert t + " " + a + " " + n + (" " + d) == text;
    } else {
      IncludesInfix(t + " " + a + " " + n + " ", d, [], q);
      assert t + " " + a + " " + n + " " + d + [] == text;
    }
  }

  /** The separators let a query span two fields: the end of the title, a
      space, and the start of the data-search text match the link although
      neither field holds the query. */
  lemma SpanningMatch(l: Link, tail: string, head: string)
    requires |tail| <= |Normalize(OrEmpty(l.title))|
    requires Normalize(OrEmpty(l.title))[|Normalize(OrEmpty(l.title))| - |tail|..] == tail
    requires |head| <= |Normalize(OrEmpty(l.alias))| && Normalize(OrEmpty(l.alias))[..|head|] == head
    ensures Matches(l, tail + " " + head)
  {
    SearchableFields(l);
    IncludesAcross(Normalize(OrEmpty(l.title)), Normalize(OrEmpty(l.alias)),
                   Normalize(l.name), Normalize(l.desc), tail, head);
  }

  lemma IncludesAcross(t: string, a: string, n: string, d: string, tail: string, head: string)
    requires |tail| <= |t| && t[|t| - |tail|..] == tail
    requires |head| <= |a| && a[..|head|] == head
    ensures Includes(t + " " + a + " " + n + " " + d, tail + " " + head)
  {
    OccursAcross(t, a, n, d, tail, head);
    IncludesIff(t + " " + a + " " + n + " " + d, tail + " " + head);
  }

  lemma OccursAcross(t: string, a: string, n: string, d: string, tail: string, head: string)
    requires |tail| <= |t| && t[|t| - |tail|..] == tail
    requires |head| <= |a| && a[..|head|] == head
    ensures OccursAt(t + " " + a + " " + n + " " + d, tail + " " + head, |t| - |tail|)
  {
    var q := tail + " " + head;
    var u := t + " " + a;
    var text := t + " " + a + " " + n + " " + d;
    var i := |t| - |tail|;
    assert u[i..|t|] == tail;
    assert u[|t|..|t| + 1] == " ";
    assert u[|t| + 1..|t| + 1 + |head|] == head;
    assert u[i..i + |q|] == u[i..|t|] + u[|t|..|t| + 1] + u[|t| + 1..|t| + 1 + |head|];
    assert text == u + (" " + n + " " + d);
    assert text[i..i + |q|] == u[i..i + |q|];
  }

  /** The outcome of the substring test for each link, in document order. */
  function Hits(links: seq<Link>, normalizedQuery: string): (r: seq<bool>)
    ensures |r| == |links|
  {
    if links == [] then []
    else
      var n := |links| - 1;
      Hits(links[..n], normalizedQuery) + [Matches(links[n], normalizedQuery)]
  }

  /** The outcome at position `i` is the test on the `i`-th link. */
  lemma {:induction false} HitsAt(links: seq<Link>, normalizedQuery: string, i: nat)
    requires i < |links|
    ensures Hits(links, normalizedQuery)[i] == Matches(links[i], normalizedQuery)
  {
    var n := |links| - 1;
    assert Hits(links, normalizedQuery) == Hits(links[..n], normalizedQuery) + [Matches(links[n], normalizedQuery)];
    if i < n {
      HitsAt(links[..n], normalizedQuery, i);
    }
  }

  /** The module key of each link, in document order. */
  function Keys(links: seq<Link>): (r: seq<string>)
    ensures |r| == |links|
  {
    seq(|links|, i requires 0 <= i < |links| => PropertyKey(links[i].moduleAttr))
  }

  // ---------------------------------------------------------------------
  // Counting: the running total and the per-module tally of the match loop,
  // over the outcomes `hits` of the links visited so far and their module
  // keys `keys`.

  /** `totalResults` after the match loop has seen the first `i` links. */
  function CountHits(hits: seq<bool>, i: nat): nat
    requires i <= |hits|
  {
    if i == 0 then 0 else CountHits(hits, i - 1) + (if hits[i - 1] then 1 else 0)
  }

  /** One step of the per-module tally: a missing or zero entry is first set
      to 0, then the entry is incremented. */
  function Tally(counts: map<string, nat>, key: string): (r: map<string, nat>)
    ensures r.Keys == counts.Keys + {key}
    ensures r[key] == (if key in counts then counts[key] else 0) + 1
    ensures forall k | k in counts && k != key :: r[k] == counts[k]
  {
    var base := if key !in counts || counts[key] == 0 then 0 else counts[key];
    counts[key := base + 1]
  }

  /** `moduleResults` after the match loop has seen the first `i` links,
      the links having module keys `keys`. */
  function ModuleCounts(keys: seq<string>, hits: seq<bool>, i: nat): map<string, nat>
    requires |keys| == |hits| && i <= |hits|
  {
    if i == 0 then map[]
    else
      var m := ModuleCounts(keys, hits, i - 1);
      if hits[i - 1] then Tally(m, keys[i - 1]) else m
  }

  /** `moduleResults[key] === 0 || !moduleResults[key]`. */
  predicate ModuleUnmatched(counts: map<string, nat>, key: string) {
    key !in counts || counts[key] == 0
  }

  /** The positions among the first `i` that hit. */
  ghost function HitIndices(hits: seq<bool>, i: nat): set<nat>
    requires i <= |hits|
  {
    set j: nat | j < i && hits[j]
  }

  /** The positions among the first `i` that hit and have module key `key`. */
  ghost function KeyHitIndices(keys: seq<string>, hits: seq<bool>, i: nat, key: string): set<nat>
    requires |keys| == |hits| && i <= |hits|
  {
    set j: nat | j < i && keys[j] == key && hits[j]
  }

  /** The running total counts the hits. */
  lemma {:induction false} CountHitsIsHits(hits: seq<bool>, i: nat)
    requires i <= |hits|
    ensures CountHits(hits, i) == |HitIndices(hits, i)|
  {
    if i > 0 {
      CountHitsIsHits(hits, i - 1);
      var last: set<nat> := if hits[i - 1] then {i - 1} else {};
      assert HitIndices(hits, i) == HitIndices(hits, i - 1) + last;
    }
  }

  lemma KeyHitIndicesStep(keys: seq<string>, hits: seq<bool>, i: nat, key: string)
    requires |keys| == |hits| && 0 < i <= |hits|
    ensures KeyHitIndices(keys, hits, i, key)
         == KeyHitIndices(keys, hits, i - 1, key) + (if hits[i - 1] && keys[i - 1] == key then {i - 1} else {})
  {
  }

  /** A module key has an entry in the tally exactly when one of its links
      hit, and the entry counts those links. */
  lemma {:induction false} ModuleCountsSpec(keys: seq<string>, hits: seq<bool>, i: nat, key: string)
    requires |keys| == |hits| && i <= |hits|
    ensures key in ModuleCounts(keys, hits, i) <==> KeyHitIndices(keys, hits, i, key) != {}
    ensures key in ModuleCounts(keys, hits, i) ==> ModuleCounts(keys, hits, i)[key] == |KeyHitIndices(keys, hits, i, key)|
  {
    if i > 0 {
      ModuleCountsSpec(keys, hits, i - 1, key);
      var before := KeyHitIndices(keys, hits, i - 1, key);
      var last: set<nat> := if hits[i - 1] && keys[i - 1] == key then {i - 1} else {};
      KeyHitIndicesStep(keys, hits, i, key);
      assert i - 1 !in before;
    }
  }

  /** The tally never holds a zero entry, so "zero" and "absent" coincide, and
      a module is unmatched exactly when no link with its key hit. */
  lemma ModuleUnmatchedIff(keys: seq<string>, hits: seq<bool>, key: string)
    requires |keys| == |hits|
    ensures ModuleUnmatched(ModuleCounts(keys, hits, |hits|), key)
        <==> forall i | 0 <= i < |hits| :: !(keys[i] == key && hits[i])
  {
    ModuleCountsSpec(keys, hits, |hits|, key);
    var s := KeyHitIndices(keys, hits, |hits|, key);
    if s != {} {
      var i :| i in s;
      assert 0 <= i < |hits| && keys[i] == key && hits[i];
    } else {
      forall i | 0 <= i < |hits|
        ensures !(keys[i] == key && hits[i])
      {
        assert i !in s;
      }
    }
  }

  // ---------------------------------------------------------------------
  // Sum of the per-module tally

  /** The sum of the values of a map. */
  ghost function SumValues(m: map<string, nat>): nat
    decreases |m.Keys|
  {
    if m == map[] then 0
    else
      var k :| k in m;
      m[k] + SumValues(m - {k})
  }

  /** The sum can be taken starting from any key. */
  lemma {:induction false} SumValuesRemove(m: map<string, nat>, k: string)
    requires k in m
    ensures SumValues(m) == m[k] + SumValues(m - {k})
    decreases |m.Keys|
  {
    var j :| j in m && SumValues(m) == m[j] + SumValues(m - {j});
    if j != k {
      SumValuesRemove(m - {j}, k);
      SumValuesRemove(m - {k}, j);
      assert m - {j} - {k} == m - {k} - {j};
    }
  }

  /** Replacing one entry changes the sum by the difference. */
  lemma SumValuesUpdate(m: map<string, nat>, k: string, v: nat)
    ensures SumValues(m[k := v]) + (if k in m then m[k] else 0) == SumValues(m) + v
  {
    SumValuesRemove(m[k := v], k);
    assert m[k := v] - {k} == m - {k};
    if k in m {
      SumValuesRemove(m, k);
    } else {
      assert m - {k} == m;
    }
  }

  /** The per-module tallies add up to the total number of hits. */
  lemma {:induction false} ModuleCountsSum(keys: seq<string>, hits: seq<bool>, i: nat)
    requires |keys| == |hits| && i <= |hits|
    ensures SumValues(ModuleCounts(keys, hits, i)) == CountHits(hits, i)
  {
    if i > 0 {
      ModuleCountsSum(keys, hits, i - 1);
      if hits[i - 1] {
        var m := ModuleCounts(keys, hits, i - 1);
        var key := keys[i - 1];
        var base := if key !in m || m[key] == 0 then 0 else m[key];
        SumValuesUpdate(m, key, base + 1);
      }
    }
  }
}
