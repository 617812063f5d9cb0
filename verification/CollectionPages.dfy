/**
 Collection search: a generator that filters each page on the client as far as the server
 does not, skips pages that filter to nothing and cuts the last page at the cap.
 */
module CollectionPages {
  import opened Wrappers
  import opened PageChain

  function Collections(p: Page): seq<Doc> {
    p.collections
  }

  // What the server filters by itself, and the client's two matchers: with every parameter,
  // and with the free text only.
  datatype Mode = Mode(searchEnabled: bool, freeTextEnabled: bool, hasText: bool,
                       matches: Doc -> bool, matchesText: Doc -> bool)
  {
    // Some collections of a page may be dropped on the client.
    predicate FiltersOnClient() {
      !searchEnabled || (!freeTextEnabled && hasText)
    }

    function Keep(): Doc -> bool {
      if !searchEnabled then matches
      else if !freeTextEnabled && hasText then matchesText
      else _ => true
    }
  }

  // The generator. No cap is None; 0 counts as no cap.
  class CollectionStream {
    const source: PageSource
    const url: Link
    const mode: Mode
    const maxItems: Option<nat>
    var num: nat
    var stopped: bool
    ghost const bound: nat      // a number of pages within which the search settles
    ghost var seen: nat         // pages pulled that had collections
    ghost var out: seq<Doc>     // collections yielded so far

    function Cap(): Option<nat> {
      if maxItems == Some(0) then None else maxItems
    }

    ghost function Parts(n: nat): seq<seq<Doc>> {
      PageChain.Parts(source.server, Collections, Some(url), n)
    }

    ghost function Found(n: nat): seq<Doc> {
      PageChain.Found(source.server, Collections, mode.Keep(), Some(url), n)
    }

    ghost predicate Settled(n: nat) {
      PageChain.Settled(source.server, Collections, mode.Keep(), Some(url), Cap(), n)
    }

    // The whole result: the collections kept, in order, up to the cap.
    ghost function Result(): seq<Doc> {
      Take(Cap(), Found(bound))
    }

    predicate Full()
      reads this
    {
      Cap().Some? && num >= Cap().value
    }

    // The k-th request follows the chain's k-th link, and was made below the cap.
    ghost predicate RequestFits(k: nat, link: Link) {
      LinkAt(source.server, Some(url), k) == Some(link) && (Cap().Some? ==> |Found(k)| < Cap().value)
    }

    ghost predicate RequestsFit()
      reads this, source
    {
      && seen <= |source.requested| <= seen + 1
      && forall k :: 0 <= k < |source.requested| ==> RequestFits(k, source.requested[k])
    }

    ghost predicate Valid()
      reads this, source
    {
      && Settled(bound)
      && |Parts(seen)| == seen && num == |Found(seen)| && out == Take(Cap(), Found(seen))
      && RequestsFit()
      && (if stopped then Full() || |Parts(seen + 1)| == seen
          else source.pending == LinkAt(source.server, Some(url), seen) && |source.requested| == seen)
    }

    constructor (source: PageSource, url: Link, mode: Mode, maxItems: Option<nat>, ghost bound: nat)
      requires source.pending == Some(url) && source.requested == []
      requires PageChain.Settled(source.server, Collections, mode.Keep(), Some(url),
                                 if maxItems == Some(0) then None else maxItems, bound)
      ensures Valid() && !stopped && out == []
      ensures this.source == source && this.url == url && this.mode == mode && this.maxItems == maxItems
      ensures this.bound == bound
    {
      this.source, this.url, this.mode, this.maxItems := source, url, mode, maxItems;
      num, stopped := 0, false;
      this.bound, seen, out := bound, 0, [];
    }

    // The page is the chain's k-th, up to its list of collections.
    ghost predicate IsPage(k: nat, page: Page) {
      var link := LinkAt(source.server, Some(url), k);
      link.Some? && page.(collections := []) == source.server(link.value).(collections := [])
    }

    // Client-side filtering of one page.
    method FilterPage(all: seq<Doc>) returns (kept: seq<Doc>)
      ensures kept == Filter(mode.Keep(), all)
      ensures !mode.FiltersOnClient() ==> kept == all
    {
      kept := all;
      if !mode.searchEnabled {
        kept := Filter(mode.matches, all);
      } else if !mode.freeTextEnabled && mode.hasText {
        kept := Filter(mode.matchesText, all);
      } else {
        FilterAll(mode.Keep(), all);
      }
    }

    // Pulls one page and places it in the chain.
    method Pull() returns (pulled: Option<Page>)
      requires Valid() && !stopped && !Full()
      modifies source
      ensures RequestsFit()
      ensures if pulled.Some? && pulled.value.collections != [] then
                && |Parts(seen + 1)| == seen + 1 == |source.requested|
                && source.pending == LinkAt(source.server, Some(url), seen + 1)
                && Found(seen + 1) == Found(seen) + Filter(mode.Keep(), pulled.value.collections)
              else |Parts(seen + 1)| == seen
      ensures pulled.Some? ==> IsPage(seen, pulled.value)
    {
      FoundNext(source.server, Collections, mode.Keep(), Some(url), seen);
      pulled := source.Next();
    }

    // The chain's next page with collections has been pulled and not counted yet.
    ghost predicate Holding(collections: seq<Doc>)
      reads this, source
    {
      && Settled(bound) && !stopped && !Full()
      && |Parts(seen)| == seen && num == |Found(seen)| && out == Take(Cap(), Found(seen))
      && RequestsFit()
      && |Parts(seen + 1)| == seen + 1 == |source.requested|
      && source.pending == LinkAt(source.server, Some(url), seen + 1)
      && Found(seen + 1) == Found(seen) + collections
    }

    // Counts a page that filtered to something, cut at the cap.
    method Count(collections: seq<Doc>) returns (kept: seq<Doc>)
      requires Holding(collections) && collections != []
      modifies this
      ensures Valid() && !stopped && seen == old(seen) + 1
      ensures kept != [] && out == old(out) + kept
    {
      CutAtCap(Cap(), Found(seen), collections,
               if Cap().Some? && num + |collections| > Cap().value
               then SliceTo(collections, -(num + |collections| - Cap().value)) else collections);
      num := num + |collections|;
      if Cap().Some? && num > Cap().value {
        kept := SliceTo(collections, -(num - Cap().value));
      } else {
        kept := collections;
      }
      out, seen := out + kept, seen + 1;
    }

    // One turn of the loop: pull, filter, and yield, skip or end.
    method Turn() returns (page: Option<Page>)
      requires Valid() && !stopped && !Full()
      modifies this, source
      ensures Valid() && seen >= old(seen)
      ensures page.Some? ==> page.value.collections != [] && out == old(out) + page.value.collections
      ensures page.Some? ==> !stopped && seen == old(seen) + 1 <= bound && IsPage(old(seen), page.value)
      ensures page.None? ==> out == old(out) && (!stopped ==> !Full() && seen == old(seen) + 1 <= bound)
      ensures page.None? && !mode.FiltersOnClient() ==> stopped
    {
      NotSettledYet();
      var pulled := Pull();
      if pulled.None? {
        stopped := true;
        return None;
      }
      var collections := FilterPage(pulled.value.collections);
      if collections != [] {
        var kept := Count(collections);
        return Some(pulled.value.(collections := kept));
      } else if |pulled.value.collections| > 0 {
        seen := seen + 1;
      } else {
        stopped := true;
      }
      return None;
    }

    method Next() returns (page: Option<Page>)
      requires Valid()
      modifies this, source
      ensures Valid()
      ensures page.Some? ==> page.value.collections != [] && out == old(out) + page.value.collections
      ensures page.Some? ==> !stopped && old(seen) < seen <= bound && IsPage(seen - 1, page.value)
      ensures page.None? ==> stopped && out == old(out)
      // without filtering on the client no page is skipped
      ensures page.Some? && !mode.FiltersOnClient() ==> seen == old(seen) + 1
    {
      if !stopped {
        if Full() {
          stopped := true;
        } else {
          NotSettledYet();
        }
      }
      page := None;
      while !stopped && page.None?
        invariant Valid() && seen >= old(seen)
        invariant page.None? ==> out == old(out) && (!stopped ==> !Full() && seen <= bound)
        invariant page.Some? ==> page.value.collections != [] && out == old(out) + page.value.collections
        invariant page.Some? ==> !stopped && old(seen) < seen <= bound && IsPage(seen - 1, page.value)
        invariant !mode.FiltersOnClient() && !stopped ==> seen == old(seen) + if page.Some? then 1 else 0
        decreases page.None?, !stopped, bound - seen
      {
        page := Turn();
      }
    }

    lemma NotSettledYet()
      requires Valid() && !stopped && !Full()
      ensures seen < bound
    {
      if bound <= seen {
        SettledStays(source.server, Collections, mode.Keep(), Some(url), Cap(), bound, seen);
      }
    }

    // Without filtering on the client, a first page with collections is not dropped.
    lemma FirstPageCounts()
      requires Valid() && !mode.FiltersOnClient() && source.server(url).collections != []
      ensures Result() != []
    {
      FoundNext(source.server, Collections, mode.Keep(), Some(url), 0);
      FilterAll(mode.Keep(), source.server(url).collections);
      assert bound > 0;
      FoundPrefix(source.server, Collections, mode.Keep(), Some(url), 1, bound);
    }

    // By what the server does itself, the first collections of all pages that pass the whole
    // match, or that pass the text match, or all of them, as many as wanted.
    ghost predicate IsWholeResult(docs: seq<Doc>) {
      var all := Concat(Parts(bound));
      var kept := if !mode.searchEnabled then Filter(mode.matches, all)
                  else if !mode.freeTextEnabled && mode.hasText then Filter(mode.matchesText, all)
                  else all;
      && docs <= kept
      && (|docs| == |kept| || (maxItems.Some? && 0 < maxItems.value == |docs| < |kept|))
      && (maxItems.Some? && 0 < maxItems.value ==> |docs| <= maxItems.value)
    }

    lemma ResultIsWhole()
      ensures IsWholeResult(Result())
    {
      if mode.searchEnabled && (mode.freeTextEnabled || !mode.hasText) {
        FilterAll(mode.Keep(), Concat(Parts(bound)));
      }
    }

    // When the generator ends, the pages it yielded are the whole result.
    lemma StoppedIsComplete()
      requires Valid() && stopped
      ensures out == Result() && IsWholeResult(out)
    {
      ResultIsWhole();
      FoundNext(source.server, Collections, mode.Keep(), Some(url), seen);
      if Full() {
        SettledAgree(source.server, Collections, mode.Keep(), Some(url), Cap(), seen, bound);
      } else {
        SettledAgree(source.server, Collections, mode.Keep(), Some(url), Cap(), seen + 1, bound);
      }
    }
  }

  // The documents of all pages the generator yields.
  method CollectionList(stream: CollectionStream) returns (collections: seq<Doc>)
    requires stream.Valid() && stream.out == []
    modifies stream, stream.source
    ensures collections == stream.Result() && stream.IsWholeResult(collections)
    ensures stream.Valid() && stream.stopped
  {
    collections := [];
    var page := stream.Next();
    while page.Some?
      invariant stream.Valid()
      invariant page.Some? ==> !stream.stopped && stream.seen <= stream.bound
      invariant page.Some? ==> stream.out == collections + page.value.collections
      invariant page.None? ==> stream.stopped && stream.out == collections
      decreases page.Some?, stream.bound - stream.seen
    {
      collections := collections + page.value.collections;
      page := stream.Next();
    }
    stream.StoppedIsComplete();
  }

  // The number of matches: what the server says on the first page when it filters everything
  // itself and says something, and otherwise a count of the collections in all pages.
  method Matched(stream: CollectionStream) returns (found: int)
    requires stream.Valid() && !stream.stopped && stream.seen == 0
    modifies stream, stream.source
    ensures var first := stream.source.server(stream.url);
            found == if stream.mode.searchEnabled && stream.mode.freeTextEnabled && first.collections != [] &&
                        first.matched.Some? && first.matched.value != 0
                     then first.matched.value else |stream.Result()|
  {
    if stream.mode.searchEnabled && stream.mode.freeTextEnabled && stream.source.server(stream.url).collections != [] {
      stream.FirstPageCounts();
    }
    var page := stream.Next();
    if page.None? {
      stream.StoppedIsComplete();
      return 0;
    }
    if stream.mode.searchEnabled && stream.mode.freeTextEnabled {
      assert stream.IsPage(0, page.value);
      assert |stream.Parts(1)| == 1;
      if page.value.matched.Some? && page.value.matched.value != 0 {
        return page.value.matched.value;
      }
    }
    found := |page.value.collections|;
    page := stream.Next();
    while page.Some?
      invariant stream.Valid()
      invariant page.Some? ==> !stream.stopped && stream.seen <= stream.bound
      invariant page.None? ==> stream.stopped
      invariant |stream.out| == found + if page.Some? then |page.value.collections| else 0
      decreases page.Some?, stream.bound - stream.seen
    {
      found := found + |page.value.collections|;
      page := stream.Next();
    }
    stream.StoppedIsComplete();
  }
}
