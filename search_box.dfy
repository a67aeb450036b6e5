/** The search box of the study portal: the page state it updates in place
    (the classes of the links and modules, the results panel, the clear
    button, the input) and the handlers that run a filter pass. */
module SearchBox {
  import opened TextNormalize
  import opened Matching
  import opened ResultText
  import opened FilterSpec

  /** The horizontal distance, in pixels, below which a touch that ends to
      the left of where it started counts as a swipe that clears. */
  const SwipeClearDistance: int := -50

  /** A touch that ends at `endX` after starting at `startX` clears a
      non-empty input. */
  predicate SwipeClears(startX: int, endX: int, inputValue: string) {
    endX - startX < SwipeClearDistance && inputValue != ""
  }

  class SearchBox {
    /** The static collection and the device kind, fixed at load time. */
    const page: Page
    const isMobile: bool

    /** The `hidden` and `highlight` classes of each link, and the `hidden`
        class of each module, in document order. */
    const linkHidden: array<bool>
    const linkHighlight: array<bool>
    const moduleHidden: array<bool>

    var resultsDisplay: Display
    var clearDisplay: Display
    var countText: string
    var inputFocused: bool
    var inputValue: string

    /** Debounce state: the timers scheduled and not yet cancelled or run,
        the id held in `searchTimeout` (0 while it is undefined), and the id
        the next setTimeout returns. */
    var pendingTimers: set<nat>
    var searchTimeout: nat
    var nextTimerId: nat

    /** Where the last touch on the input started. */
    var touchStartX: int

    ghost predicate Valid()
      reads this
    {
      linkHidden.Length == |page.links| && linkHighlight.Length == |page.links|
      && moduleHidden.Length == |page.modules|
      && linkHidden != linkHighlight && moduleHidden != linkHidden && moduleHidden != linkHighlight
      && pendingTimers <= {searchTimeout} && 0 !in pendingTimers
      && 0 < nextTimerId && searchTimeout < nextTimerId
    }

    /** At most one filter pass is waiting to run. */
    ghost predicate AtMostOnePending()
      reads this
    {
      forall t, u | t in pendingTimers && u in pendingTimers :: t == u
    }

    function View(): PageView
      reads this, linkHidden, linkHighlight, moduleHidden
    {
      PageView(linkHidden[..], linkHighlight[..], moduleHidden[..],
               resultsDisplay, clearDisplay, countText, inputFocused)
    }

    /** The page as loaded: no class set on any link or module, no inline
        display, an empty unfocused input, no timer. */
    constructor (page: Page, isMobile: bool, countText: string)
      ensures Valid() && AtMostOnePending()
      ensures this.page == page && this.isMobile == isMobile
      ensures View() == PageView(AllFalse(|page.links|), AllFalse(|page.links|),
                                 AllFalse(|page.modules|), Unset, Unset, countText, false)
      ensures inputValue == "" && pendingTimers == {} && searchTimeout == 0 && touchStartX == 0
      ensures fresh(linkHidden) && fresh(linkHighlight) && fresh(moduleHidden)
    {
      this.page := page;
      this.isMobile := isMobile;
      linkHidden := new bool[|page.links|](_ => false);
      linkHighlight := new bool[|page.links|](_ => false);
      moduleHidden := new bool[|page.modules|](_ => false);
      resultsDisplay, clearDisplay := Unset, Unset;
      this.countText := countText;
      inputFocused, inputValue := false, "";
      pendingTimers, searchTimeout, nextTimerId := {}, 0, 1;
      touchStartX := 0;
    }

    /** performSearch: clears every flag, stops on a blank query, then
        highlights or hides each link, tallies the matches per module, hides
        the modules without a match and writes the count message. */
    method PerformSearch(searchTerm: string)
      requires Valid()
      modifies this`resultsDisplay, this`clearDisplay, this`countText, this`inputFocused
      modifies linkHidden, linkHighlight, moduleHidden
      ensures Valid()
      ensures View() == Pass(page, isMobile, old(View()), searchTerm)
    {
      var normalizedSearch := Normalize(searchTerm);
      ResetFlags();

      if IsBlank(normalizedSearch) {
        resultsDisplay, clearDisplay := DisplayNone, DisplayNone;
        if isMobile && inputFocused {
          inputFocused := false;
        }
        return;
      }

      var totalResults, moduleResults := MarkLinks(normalizedSearch);
      HideUnmatchedModules(moduleResults);

      if totalResults > 0 {
        var plural := if totalResults != 1 then "s" else "";
        countText := Decimal(totalResults) + " resultado" + plural + " encontrado" + plural;
        resultsDisplay, clearDisplay := DisplayBlock, DisplayBlock;
      } else {
        countText := "Nenhum resultado encontrado";
        resultsDisplay, clearDisplay := DisplayBlock, DisplayBlock;
      }
      assert countText == ResultMessage(totalResults);
    }

    /** The reset loops of performSearch: every link loses its `hidden` and
        `highlight` classes, every module its `hidden` class. */
    method ResetFlags()
      requires Valid()
      modifies linkHidden, linkHighlight, moduleHidden
      ensures linkHidden[..] == AllFalse(|page.links|) && linkHighlight[..] == AllFalse(|page.links|)
      ensures moduleHidden[..] == AllFalse(|page.modules|)
    {
      var n, m := linkHidden.Length, moduleHidden.Length;
      for i := 0 to n
        invariant forall k | 0 <= k < i :: !linkHidden[k] && !linkHighlight[k]
      {
        linkHidden[i], linkHighlight[i] := false, false;
      }
      for j := 0 to m
        invariant forall k | 0 <= k < j :: !moduleHidden[k]
        invariant forall k | 0 <= k < n :: !linkHidden[k] && !linkHighlight[k]
      {
        moduleHidden[j] := false;
      }
    }

    /** The match loop of performSearch, over links whose flags are clear:
        highlights the links that contain the query, hides the others, and
        returns the number of matches and their tally per module key. */
    method MarkLinks(normalizedSearch: string) returns (totalResults: nat, moduleResults: map<string, nat>)
      requires linkHidden.Length == |page.links| && linkHighlight.Length == |page.links| && linkHidden != linkHighlight
      requires forall k | 0 <= k < linkHidden.Length :: !linkHidden[k] && !linkHighlight[k]
      modifies linkHidden, linkHighlight
      ensures linkHighlight[..] == Hits(page.links, normalizedSearch)
      ensures linkHidden[..] == Negate(Hits(page.links, normalizedSearch))
      ensures totalResults == CountHits(Hits(page.links, normalizedSearch), |page.links|)
      ensures moduleResults == ModuleCounts(Keys(page.links), Hits(page.links, normalizedSearch), |page.links|)
    {
      totalResults, moduleResults := 0, map[];
      var n := linkHidden.Length;
      ghost var hits := Hits(page.links, normalizedSearch);
      ghost var keys := Keys(page.links);
      for i := 0 to n
        invariant totalResults == CountHits(hits, i)
        invariant moduleResults == ModuleCounts(keys, hits, i)
        invariant forall k | 0 <= k < n ::
          if k < i then linkHighlight[k] == hits[k] && linkHidden[k] == !hits[k]
          else !linkHidden[k] && !linkHighlight[k]
      {
        totalResults, moduleResults := MarkLink(i, normalizedSearch, hits, keys, totalResults, moduleResults);
      }
    }

    /** The body of the match loop for the `i`-th link, whose flags are
        clear: highlight it and count it if it matches, hide it otherwise. */
    method MarkLink(i: nat, normalizedSearch: string, ghost hits: seq<bool>, ghost keys: seq<string>,
                    totalResults: nat, moduleResults: map<string, nat>)
      returns (total: nat, counts: map<string, nat>)
      requires linkHidden.Length == |page.links| && linkHighlight.Length == |page.links| && linkHidden != linkHighlight
      requires hits == Hits(page.links, normalizedSearch) && keys == Keys(page.links)
      requires i < |page.links| && !linkHidden[i] && !linkHighlight[i]
      requires totalResults == CountHits(hits, i) && moduleResults == ModuleCounts(keys, hits, i)
      modifies linkHidden, linkHighlight
      ensures linkHighlight[i] == hits[i] && linkHidden[i] == !hits[i]
      ensures forall k | 0 <= k < linkHidden.Length && k != i ::
        linkHidden[k] == old(linkHidden[k]) && linkHighlight[k] == old(linkHighlight[k])
      ensures total == CountHits(hits, i + 1) && counts == ModuleCounts(keys, hits, i + 1)
    {
      var link := page.links[i];
      var found := LinkMatches(page.links, i, normalizedSearch);
      var moduleName := PropertyKey(link.moduleAttr);
      total, counts := totalResults, moduleResults;
      if found {
        linkHighlight[i] := true;
        total := total + 1;
        counts := CountMatch(counts, moduleName);
      } else {
        linkHidden[i] := true;
      }
    }

    /** The test the match loop makes on one link: its data-title,
        data-search, name and description joined by spaces and normalized,
        searched for the normalized query. */
    static method LinkMatches(links: seq<Link>, i: nat, normalizedSearch: string) returns (found: bool)
      requires i < |links|
      ensures found == Hits(links, normalizedSearch)[i]
    {
      var link := links[i];
      var title := OrEmpty(link.title);
      var searchData := OrEmpty(link.alias);
      var searchableText := Normalize(title + " " + searchData + " " + link.name + " " + link.desc);
      found := Includes(searchableText, normalizedSearch);
      HitsAt(links, normalizedSearch, i);
    }

    /** The tally step of the match loop: a missing or zero entry is set to
        0, then incremented. */
    static method CountMatch(moduleResults: map<string, nat>, moduleName: string)
      returns (counts: map<string, nat>)
      ensures counts == Tally(moduleResults, moduleName)
    {
      counts := moduleResults;
      if moduleName !in counts || counts[moduleName] == 0 {
        counts := counts[moduleName := 0];
      }
      counts := counts[moduleName := counts[moduleName] + 1];
    }

    /** The module loop of performSearch, over modules whose flags are
        clear: hides each module whose key has a zero or missing tally. */
    method HideUnmatchedModules(moduleResults: map<string, nat>)
      requires Valid()
      requires moduleHidden[..] == AllFalse(|page.modules|)
      modifies moduleHidden
      ensures moduleHidden[..] == ModuleFlags(page.modules, moduleResults)
    {
      var m := moduleHidden.Length;
      for j := 0 to m
        invariant forall k | 0 <= k < j :: moduleHidden[k] == ModuleUnmatched(moduleResults, PropertyKey(page.modules[k]))
        invariant forall k | j <= k < m :: !moduleHidden[k]
      {
        var moduleName := PropertyKey(page.modules[j]);
        if ModuleUnmatched(moduleResults, moduleName) {
          moduleHidden[j] := true;
        }
      }
    }

    /** An input event: the input now holds `value`; the pending pass, if
        any, is cancelled and a new one is scheduled. */
    method OnInput(value: string)
      requires Valid()
      modifies this`inputValue, this`pendingTimers, this`searchTimeout, this`nextTimerId
      ensures Valid() && AtMostOnePending()
      ensures inputValue == value
      ensures pendingTimers == {old(nextTimerId)} && searchTimeout == old(nextTimerId)
      ensures nextTimerId == old(nextTimerId) + 1
    {
      inputValue := value;
      pendingTimers := pendingTimers - {searchTimeout};
      searchTimeout := nextTimerId;
      pendingTimers := pendingTimers + {searchTimeout};
      nextTimerId := nextTimerId + 1;
    }

    /** The event loop runs the callback of timer `id`: if the timer is
        still pending, it runs a pass on what the input holds now. */
    method OnTimerFired(id: nat)
      requires Valid()
      modifies this`pendingTimers, this`resultsDisplay, this`clearDisplay, this`countText, this`inputFocused
      modifies linkHidden, linkHighlight, moduleHidden
      ensures Valid() && AtMostOnePending()
      ensures id in old(pendingTimers) ==>
        pendingTimers == {} && View() == Pass(page, isMobile, old(View()), inputValue)
      ensures id !in old(pendingTimers) ==>
        pendingTimers == old(pendingTimers) && View() == old(View())
    {
      if id in pendingTimers {
        pendingTimers := pendingTimers - {id};
        PerformSearch(inputValue);
      }
    }

    /** A keypress on the input: Enter cancels the pending pass, runs one at
        once and, on a mobile device, takes the focus off the input. */
    method OnKeyPress(key: string)
      requires Valid()
      modifies this`pendingTimers, this`resultsDisplay, this`clearDisplay, this`countText, this`inputFocused
      modifies linkHidden, linkHighlight, moduleHidden
      ensures Valid() && AtMostOnePending()
      ensures key == "Enter" ==>
        pendingTimers == {}
        && View() == Pass(page, isMobile, old(View()), inputValue).(inputFocused := !isMobile && old(inputFocused))
      ensures key != "Enter" ==> pendingTimers == old(pendingTimers) && View() == old(View())
    {
      if key == "Enter" {
        pendingTimers := pendingTimers - {searchTimeout};
        PerformSearch(inputValue);
        if isMobile {
          inputFocused := false;
        }
      }
    }

    /** The clear button: empties the input, runs a pass on the empty query
        and gives the focus back to the input. */
    method OnClearClick()
      requires Valid()
      modifies this`inputValue, this`resultsDisplay, this`clearDisplay, this`countText, this`inputFocused
      modifies linkHidden, linkHighlight, moduleHidden
      ensures Valid()
      ensures inputValue == ""
      ensures View() == Pass(page, isMobile, old(View()), "").(inputFocused := true)
    {
      inputValue := "";
      PerformSearch("");
      inputFocused := true;
    }

    /** The input gains the focus by a tap or a click. The focus listener on
        a mobile device only scrolls the input into view. */
    method OnFocus()
      requires Valid()
      modifies this`inputFocused
      ensures Valid()
      ensures View() == old(View()).(inputFocused := true)
    {
      inputFocused := true;
    }

    /** The input loses the focus because the user moves away from it. */
    method OnBlur()
      requires Valid()
      modifies this`inputFocused
      ensures Valid()
      ensures View() == old(View()).(inputFocused := false)
    {
      inputFocused := false;
    }

    /** A keydown on the document: Ctrl+K or Cmd+K focuses the input on a
        desktop device; anything else changes nothing. */
    method OnKeyDown(key: string, ctrlKey: bool, metaKey: bool)
      requires Valid()
      modifies this`inputFocused
      ensures Valid()
      ensures !isMobile && (ctrlKey || metaKey) && key == "k" ==>
        View() == old(View()).(inputFocused := true)
      ensures !(!isMobile && (ctrlKey || metaKey) && key == "k") ==> View() == old(View())
    {
      if !isMobile && (ctrlKey || metaKey) && key == "k" {
        inputFocused := true;
      }
    }

    method OnTouchStart(x: int)
      requires Valid()
      modifies this`touchStartX
      ensures Valid() && touchStartX == x
    {
      touchStartX := x;
    }

    /** The end of a touch: a leftward swipe of more than 50 pixels on a
        non-empty input empties it and runs a pass on the empty query. */
    method OnTouchEnd(x: int)
      requires Valid()
      modifies this`inputValue, this`resultsDisplay, this`clearDisplay, this`countText, this`inputFocused
      modifies linkHidden, linkHighlight, moduleHidden
      ensures Valid()
      ensures SwipeClears(touchStartX, x, old(inputValue)) ==>
        inputValue == "" && View() == Pass(page, isMobile, old(View()), "")
      ensures !SwipeClears(touchStartX, x, old(inputValue)) ==>
        inputValue == old(inputValue) && View() == old(View())
    {
      var swipeDistance := x - touchStartX;
      if swipeDistance < SwipeClearDistance && inputValue != "" {
        inputValue := "";
        PerformSearch("");
      }
    }
  }
}
