/** The state a filter pass leaves on the page, as a function of the query,
    the static collection and the state before the pass; and what that
    state means. */
module FilterSpec {
  import opened TextNormalize
  import opened Matching
  import opened ResultText

  /** The inline `style.display` of an element: not set by the script yet
      (the stylesheet decides), 'none' or 'block'. */
  datatype Display = Unset | DisplayNone | DisplayBlock

  /** The static collection: the subject links and the data-module
      attribute of each `.modulo` element, both in document order. */
  datatype Page = Page(links: seq<Link>, modules: seq<Attr>)

  /** What the search box changes on the page: the `hidden` and `highlight`
      classes of each link, the `hidden` class of each module, the display
      of the results panel and of the clear button, the text of the results
      count, and whether the search input has the focus. */
  datatype PageView = PageView(
    linkHidden: seq<bool>,
    linkHighlight: seq<bool>,
    moduleHidden: seq<bool>,
    resultsDisplay: Display,
    clearDisplay: Display,
    countText: string,
    inputFocused: bool)

  /** The view has one flag per link and one per module. */
  predicate Fits(page: Page, v: PageView) {
    |v.linkHidden| == |page.links| && |v.linkHighlight| == |page.links|
    && |v.moduleHidden| == |page.modules|
  }

  function AllFalse(n: nat): (r: seq<bool>)
    ensures |r| == n && forall i | 0 <= i < n :: !r[i]
  {
    seq(n, _ => false)
  }

  function Negate(s: seq<bool>): (r: seq<bool>)
    ensures |r| == |s| && forall i | 0 <= i < |s| :: r[i] == !s[i]
  {
    seq(|s|, i requires 0 <= i < |s| => !s[i])
  }

  /** The module flags after the module loop: a module is hidden when its
      key has a zero or missing tally. */
  function ModuleFlags(modules: seq<Attr>, counts: map<string, nat>): (r: seq<bool>)
    ensures |r| == |modules|
  {
    seq(|modules|, j requires 0 <= j < |modules| => ModuleUnmatched(counts, PropertyKey(modules[j])))
  }

  /** performSearch(searchTerm): the view after one pass. Every flag is
      cleared first; a blank normalized query then hides the panel and the
      clear button (and, on a mobile device, takes the focus off the input)
      and leaves the count text alone; any other query highlights the
      matching links, hides the rest, hides the modules whose key has no
      match, and shows the panel with the count message. */
  function Pass(page: Page, isMobile: bool, v: PageView, searchTerm: string): (r: PageView)
    ensures Fits(page, r)
  {
    var normalizedSearch := Normalize(searchTerm);
    if IsBlank(normalizedSearch) then
      PageView(AllFalse(|page.links|), AllFalse(|page.links|), AllFalse(|page.modules|),
               DisplayNone, DisplayNone, v.countText, v.inputFocused && !isMobile)
    else
      var hits := Hits(page.links, normalizedSearch);
      var counts := ModuleCounts(Keys(page.links), hits, |hits|);
      PageView(Negate(hits), hits, ModuleFlags(page.modules, counts),
               DisplayBlock, DisplayBlock, ResultMessage(CountHits(hits, |hits|)), v.inputFocused)
  }

  /** The positions of the highlighted links. */
  ghost function Highlighted(v: PageView): set<nat> {
    set i: nat | i < |v.linkHighlight| && v.linkHighlight[i]
  }

  // ---------------------------------------------------------------------
  // What a pass guarantees

  /** A blank query (empty or whitespace only after normalization) shows
      everything: no link hidden or highlighted, no module hidden, the panel
      and the clear button hidden, the count text untouched. */
  lemma PassBlank(page: Page, isMobile: bool, v: PageView, searchTerm: string)
    requires forall i | 0 <= i < |Normalize(searchTerm)| :: IsJsWhitespace(Normalize(searchTerm)[i])
    ensures var r := Pass(page, isMobile, v, searchTerm);
      (forall i | 0 <= i < |page.links| :: !r.linkHidden[i] && !r.linkHighlight[i])
      && (forall j | 0 <= j < |page.modules| :: !r.moduleHidden[j])
      && r.resultsDisplay == DisplayNone && r.clearDisplay == DisplayNone
      && r.countText == v.countText
  {
    BlankIffAllWhitespace(Normalize(searchTerm));
  }

  /** For any other query, a link is highlighted exactly when the untrimmed
      normalized query occurs in its searchable text, and hidden exactly
      when it does not. */
  lemma PassMatches(page: Page, isMobile: bool, v: PageView, searchTerm: string, i: nat)
    requires !IsBlank(Normalize(searchTerm))
    requires i < |page.links|
    ensures var r := Pass(page, isMobile, v, searchTerm);
      (r.linkHighlight[i] <==> exists k: nat :: OccursAt(SearchableText(page.links[i]), Normalize(searchTerm), k))
      && r.linkHidden[i] == !r.linkHighlight[i]
  {
    HitsAt(page.links, Normalize(searchTerm), i);
    IncludesIff(SearchableText(page.links[i]), Normalize(searchTerm));
  }

  /** No link is ever both hidden and highlighted; after a non-blank query
      every link is exactly one of the two. */
  lemma PassExclusive(page: Page, isMobile: bool, v: PageView, searchTerm: string)
    ensures var r := Pass(page, isMobile, v, searchTerm);
      (forall i | 0 <= i < |page.links| :: !(r.linkHidden[i] && r.linkHighlight[i]))
      && (!IsBlank(Normalize(searchTerm)) ==>
            forall i | 0 <= i < |page.links| :: r.linkHidden[i] != r.linkHighlight[i])
  {
  }

  /** After a non-blank query the count text reports the number of
      highlighted links, and the per-module tallies add up to that number. */
  lemma PassCounts(page: Page, isMobile: bool, v: PageView, searchTerm: string)
    requires !IsBlank(Normalize(searchTerm))
    ensures var r := Pass(page, isMobile, v, searchTerm);
      var hits := Hits(page.links, Normalize(searchTerm));
      r.countText == ResultMessage(|Highlighted(r)|)
      && SumValues(ModuleCounts(Keys(page.links), hits, |hits|)) == |Highlighted(r)|
  {
    var hits := Hits(page.links, Normalize(searchTerm));
    var r := Pass(page, isMobile, v, searchTerm);
    CountHitsIsHits(hits, |hits|);
    assert Highlighted(r) == HitIndices(hits, |hits|);
    ModuleCountsSum(Keys(page.links), hits, |hits|);
  }

  /** After a non-blank query a module is hidden exactly when no
      highlighted link carries its module key. */
  lemma PassModuleHidden(page: Page, isMobile: bool, v: PageView, searchTerm: string, j: nat)
    requires !IsBlank(Normalize(searchTerm))
    requires j < |page.modules|
    ensures var r := Pass(page, isMobile, v, searchTerm);
      r.moduleHidden[j] <==>
        forall i | 0 <= i < |page.links| ::
          !(PropertyKey(page.links[i].moduleAttr) == PropertyKey(page.modules[j]) && r.linkHighlight[i])
  {
    var hits := Hits(page.links, Normalize(searchTerm));
    var keys := Keys(page.links);
    var r := Pass(page, isMobile, v, searchTerm);
    assert r.linkHighlight == hits;
    assert r.moduleHidden == ModuleFlags(page.modules, ModuleCounts(keys, hits, |hits|));
    ModuleFlagsIff(page.modules, keys, hits, j);
    assert forall i | 0 <= i < |page.links| :: keys[i] == PropertyKey(page.links[i].moduleAttr);
  }

  lemma ModuleFlagsIff(modules: seq<Attr>, keys: seq<string>, hits: seq<bool>, j: nat)
    requires |keys| == |hits| && j < |modules|
    ensures ModuleFlags(modules, ModuleCounts(keys, hits, |hits|))[j]
        <==> forall i | 0 <= i < |hits| :: !(keys[i] == PropertyKey(modules[j]) && hits[i])
  {
    ModuleUnmatchedIff(keys, hits, PropertyKey(modules[j]));
  }

  /** The panel and the clear button are shown after every non-blank query,
      with or without results, and the message has one of three forms. */
  lemma PassMessage(page: Page, isMobile: bool, v: PageView, searchTerm: string)
    requires !IsBlank(Normalize(searchTerm))
    ensures var r := Pass(page, isMobile, v, searchTerm);
      var n := |Highlighted(r)|;
      r.resultsDisplay == DisplayBlock && r.clearDisplay == DisplayBlock
      && (n == 0 ==> r.countText == "Nenhum resultado encontrado")
      && (n == 1 ==> r.countText == "1 resultado encontrado")
      && (n > 1 ==> r.countText == Decimal(n) + " resultados encontrados")
  {
    PassCounts(page, isMobile, v, searchTerm);
  }

  /** Running the pass again with the same query changes nothing. */
  lemma PassIdempotent(page: Page, isMobile: bool, v: PageView, searchTerm: string)
    ensures Pass(page, isMobile, Pass(page, isMobile, v, searchTerm), searchTerm)
         == Pass(page, isMobile, v, searchTerm)
  {
  }

  /** The flags and the displays a pass leaves depend on the query and the
      collection only, whatever the state before. */
  lemma PassForgetsPriorState(page: Page, isMobile: bool, v: PageView, w: PageView, searchTerm: string)
    ensures var a, b := Pass(page, isMobile, v, searchTerm), Pass(page, isMobile, w, searchTerm);
      a.linkHidden == b.linkHidden && a.linkHighlight == b.linkHighlight
      && a.moduleHidden == b.moduleHidden
      && a.resultsDisplay == b.resultsDisplay && a.clearDisplay == b.clearDisplay
      && (!IsBlank(Normalize(searchTerm)) ==> a.countText == b.countText)
  {
  }

  /** Case does not matter: a query and its lower-cased copy leave the same
      page ("ALGEBRA" finds what "algebra" finds). */
  lemma PassIgnoresCase(page: Page, isMobile: bool, v: PageView, searchTerm: string)
    ensures Pass(page, isMobile, v, Lower(searchTerm)) == Pass(page, isMobile, v, searchTerm)
  {
    NormalizeIgnoresCase(searchTerm);
  }

  /** Clearing the query (the clear button, or a swipe) is a pass with the
      empty query, and shows everything. */
  lemma ClearShowsAll(page: Page, isMobile: bool, v: PageView)
    ensures var r := Pass(page, isMobile, v, "");
      r.linkHidden == AllFalse(|page.links|) && r.linkHighlight == AllFalse(|page.links|)
      && r.moduleHidden == AllFalse(|page.modules|)
      && r.resultsDisplay == DisplayNone && r.clearDisplay == DisplayNone
  {
    PassBlank(page, isMobile, v, "");
  }
}
