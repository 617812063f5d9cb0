// Item search: the pages of the chain as they come, the last one cut at the cap.
module ItemPages {
  import opened Wrappers
  import opened PageChain

  function Features(p: Page): seq<Doc> {
    p.features
  }

  function Any(d: Doc): bool {
    true
  }

  function FeaturesOf(pages: seq<Page>): seq<seq<Doc>> {
    seq(|pages|, i requires 0 <= i < |pages| => pages[i].features)
  }

  // All features of the chain's first n pages.
  ghost function Chain(server: Server, url: Link, n: nat): seq<Doc> {
    Concat(Parts(server, Features, Some(url), n))
  }

  // The chain has fewer than n pages with features, or the cap is met within n pages.
  ghost predicate SettledAt(server: Server, url: Link, cap: Option<nat>, n: nat) {
    |Parts(server, Features, Some(url), n)| < n || (cap.Some? && |Chain(server, url, n)| >= cap.value)
  }

  // The k-th request follows the chain's k-th link, and was made below the cap.
  ghost predicate RequestFits(server: Server, url: Link, cap: Option<nat>, k: nat, link: Link) {
    LinkAt(server, Some(url), k) == Some(link) && (cap.Some? ==> |Chain(server, url, k)| < cap.value)
  }

  ghost predicate RequestedInOrder(server: Server, url: Link, cap: Option<nat>, requested: seq<Link>) {
    forall k :: 0 <= k < |requested| ==> RequestFits(server, url, cap, k, requested[k])
  }

  lemma RequestedNext(server: Server, url: Link, cap: Option<nat>, requested: seq<Link>, link: Link)
    requires RequestedInOrder(server, url, cap, requested) && RequestFits(server, url, cap, |requested|, link)
    ensures RequestedInOrder(server, url, cap, requested + [link])
  {
  }

  lemma FoundIsChain(server: Server, url: Link, n: nat)
    ensures Found(server, Features, Any, Some(url), n) == Chain(server, url, n)
  {
    FilterAll(Any, Chain(server, url, n));
  }

  lemma ChainNext(server: Server, url: Link, n: nat)
    requires |Parts(server, Features, Some(url), n)| == n
    ensures var l := LinkAt(server, Some(url), n);
            if l.None? || server(l.value).features == [] then
              |Parts(server, Features, Some(url), n + 1)| == n && Chain(server, url, n + 1) == Chain(server, url, n)
            else
              && |Parts(server, Features, Some(url), n + 1)| == n + 1
              && LinkAt(server, Some(url), n + 1) == server(l.value).next
              && Chain(server, url, n + 1) == Chain(server, url, n) + server(l.value).features
  {
    FoundNext(server, Features, Any, Some(url), n);
    FoundIsChain(server, url, n);
    FoundIsChain(server, url, n + 1);
    var l := LinkAt(server, Some(url), n);
    if l.Some? {
      FilterAll(Any, server(l.value).features);
    }
  }

  // All settled numbers of pages give one result.
  lemma ResultIsOne(server: Server, url: Link, cap: Option<nat>, n: nat, m: nat)
    requires SettledAt(server, url, cap, n) && SettledAt(server, url, cap, m)
    ensures Take(cap, Chain(server, url, n)) == Take(cap, Chain(server, url, m))
  {
    FoundIsChain(server, url, n);
    FoundIsChain(server, url, m);
    SettledAgree(server, Features, Any, Some(url), cap, n, m);
  }

  lemma NotSettledYet(server: Server, url: Link, cap: Option<nat>, n: nat, bound: nat)
    requires SettledAt(server, url, cap, bound) && !SettledAt(server, url, cap, n)
    ensures n < bound
  {
    FoundIsChain(server, url, n);
    FoundIsChain(server, url, bound);
    if bound <= n {
      SettledStays(server, Features, Any, Some(url), cap, bound, n);
    }
  }

  // The pages so far hold the features of the chain's first n pages, up to the cap.
  ghost predicate Gathered(server: Server, url: Link, cap: Option<nat>, pages: seq<Page>, n: nat) {
    && Concat(FeaturesOf(pages)) == Take(cap, Chain(server, url, n))
    && forall page <- pages :: page.features != []
  }

  // The chain's next page, cut at the cap.
  lemma GatheredNext(server: Server, url: Link, cap: Option<nat>, pages: seq<Page>, page: Page, kept: seq<Doc>)
    requires Gathered(server, url, cap, pages, |pages|) && page.features != []
    requires Chain(server, url, |pages| + 1) == Chain(server, url, |pages|) + page.features
    requires cap.Some? ==> |Chain(server, url, |pages|)| < cap.value
    requires var num := |Chain(server, url, |pages|)| + |page.features|;
             kept == if cap.Some? && num > cap.value then SliceTo(page.features, -(num - cap.value)) else page.features
    ensures Gathered(server, url, cap, pages + [page.(features := kept)], |pages| + 1)
  {
    CutAtCap(cap, Chain(server, url, |pages|), page.features, kept);
    AppendPage(pages, page.(features := kept));
  }

  method PagesAsDicts(source: PageSource, url: Link, maxItems: Option<nat>, ghost bound: nat) returns (pages: seq<Page>)
    requires source.pending == Some(url) && source.requested == []
    requires SettledAt(source.server, url, if maxItems == Some(0) then None else maxItems, bound)
    modifies source
    // the pages hold the chain's features, in order, up to the wanted number; 0 wants all of them
    ensures Concat(FeaturesOf(pages)) <= Chain(source.server, url, bound)
    ensures maxItems.None? || maxItems.value == 0 ==> Concat(FeaturesOf(pages)) == Chain(source.server, url, bound)
    ensures maxItems.Some? && maxItems.value > 0 ==>
              |Concat(FeaturesOf(pages))| == if |Chain(source.server, url, bound)| <= maxItems.value
                                             then |Chain(source.server, url, bound)| else maxItems.value
    ensures forall page <- pages :: page.features != []
    // the chain's links were requested in order, none of them after that number was met
    ensures RequestedInOrder(source.server, url, if maxItems == Some(0) then None else maxItems, source.requested)
  {
    pages := [];
    var numItems := 0;
    var cap := if maxItems == Some(0) then None else maxItems;
    ghost var server := source.server;
    while true
      invariant |Parts(server, Features, Some(url), |pages|)| == |pages| == |source.requested|
      invariant source.pending == LinkAt(server, Some(url), |pages|)
      invariant numItems == |Chain(server, url, |pages|)| && (cap.Some? ==> numItems < cap.value)
      invariant Gathered(server, url, cap, pages, |pages|)
      invariant RequestedInOrder(server, url, cap, source.requested)
      decreases bound - |pages|
    {
      ghost var n := |pages|;
      NotSettledYet(server, url, cap, n, bound);
      ChainNext(server, url, n);
      if source.pending.Some? {
        RequestedNext(server, url, cap, source.requested, source.pending.value);
      }
      var page := source.Next();
      if page.None? || page.value.features == [] {
        ResultIsOne(server, url, cap, n + 1, bound);
        return;
      }
      var features := page.value.features;
      numItems := numItems + |features|;
      if cap.Some? && numItems > cap.value {
        features := SliceTo(features, -(numItems - cap.value));
      }
      GatheredNext(server, url, cap, pages, page.value, features);
      pages := pages + [page.value.(features := features)];
      if cap.Some? && numItems >= cap.value {
        ResultIsOne(server, url, cap, n + 1, bound);
        return;
      }
    }
  }

  lemma AppendPage(pages: seq<Page>, page: Page)
    ensures Concat(FeaturesOf(pages + [page])) == Concat(FeaturesOf(pages)) + page.features
  {
    assert FeaturesOf(pages + [page]) == FeaturesOf(pages) + [page.features];
    ConcatAppend(FeaturesOf(pages), page.features);
  }
}
