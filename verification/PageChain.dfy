/**
 Pages of search results and the generator that follows their links.

 A server answers every link with a page. The specification speaks of the pages met by
 following next links up to the first page without documents, and of the documents in them.
 */
module PageChain {
  import opened Wrappers
  import opened Sequences

  type Link = string
  type Doc = string

  // matched: the count the page reports, in either place it may stand.
  datatype Page = Page(features: seq<Doc>, collections: seq<Doc>, next: Option<Link>, matched: Option<int>)

  type Server = Link -> Page

  function Filter(keep: Doc -> bool, s: seq<Doc>): (r: seq<Doc>)
    ensures |r| <= |s|
  {
    if s == [] then []
    else if keep(s[0]) then [s[0]] + Filter(keep, s[1..])
    else Filter(keep, s[1..])
  }

  function Concat(parts: seq<seq<Doc>>): seq<Doc> {
    if parts == [] then [] else parts[0] + Concat(parts[1..])
  }

  function Take(cap: Option<nat>, s: seq<Doc>): (r: seq<Doc>)
    ensures r <= s
    ensures |r| == |s| || (cap.Some? && |r| == cap.value < |s|)
    ensures cap.Some? ==> |r| <= cap.value
  {
    if cap.Some? && cap.value < |s| then s[..cap.value] else s
  }

  lemma FilterFirst(keep: Doc -> bool, d: Doc, s: seq<Doc>)
    ensures Filter(keep, [d] + s) == if keep(d) then [d] + Filter(keep, s) else Filter(keep, s)
  {
    assert ([d] + s)[1..] == s;
  }

  lemma {:induction false} FilterAppend(keep: Doc -> bool, s: seq<Doc>, t: seq<Doc>)
    ensures Filter(keep, s + t) == Filter(keep, s) + Filter(keep, t)
  {
    if s == [] {
      assert s + t == t;
    } else {
      var first, rest := s[0], s[1..];
      assert s == [first] + rest && s + t == [first] + (rest + t);
      FilterAppend(keep, rest, t);
      FilterAppendNext(keep, first, rest, t);
    }
  }

  lemma FilterAppendNext(keep: Doc -> bool, first: Doc, rest: seq<Doc>, t: seq<Doc>)
    requires Filter(keep, rest + t) == Filter(keep, rest) + Filter(keep, t)
    ensures Filter(keep, [first] + (rest + t)) == Filter(keep, [first] + rest) + Filter(keep, t)
  {
    FilterFirst(keep, first, rest);
    FilterFirst(keep, first, rest + t);
    if keep(first) {
      ConcatIsAssociative([first], Filter(keep, rest), Filter(keep, t));
    }
  }

  // Filtering keeps the documents that pass, and with FilterAppend their order.
  lemma {:induction false} FilterKeeps(keep: Doc -> bool, s: seq<Doc>, d: Doc)
    ensures d in Filter(keep, s) <==> d in s && keep(d)
    ensures Filter(keep, [d]) == if keep(d) then [d] else []
  {
    if s != [] {
      FilterKeeps(keep, s[1..], d);
    }
  }

  lemma {:induction false} FilterAll(keep: Doc -> bool, s: seq<Doc>)
    requires forall d :: keep(d)
    ensures Filter(keep, s) == s
  {
    if s != [] {
      FilterAll(keep, s[1..]);
    }
  }

  lemma {:induction false} ConcatAppend(parts: seq<seq<Doc>>, more: seq<Doc>)
    ensures Concat(parts + [more]) == Concat(parts) + more
  {
    if parts == [] {
      assert Concat([more]) == more + Concat([]);
    } else {
      assert (parts + [more])[1..] == parts[1..] + [more];
      ConcatAppend(parts[1..], more);
    }
  }

  // ---- The chain of pages ----

  // The link that the n-th request follows.
  ghost function LinkAt(server: Server, link: Option<Link>, n: nat): Option<Link>
    decreases n
  {
    if n == 0 || link.None? then link else LinkAt(server, server(link.value).next, n - 1)
  }

  // The documents of the first pages, at most n, up to the first page without any.
  ghost function Parts(server: Server, docs: Page -> seq<Doc>, link: Option<Link>, n: nat): (p: seq<seq<Doc>>)
    ensures |p| <= n
    decreases n
  {
    if n == 0 || link.None? || docs(server(link.value)) == [] then []
    else [docs(server(link.value))] + Parts(server, docs, server(link.value).next, n - 1)
  }

  // The k-th part holds the documents of the page behind the chain's k-th link; a page without
  // documents, or a missing link, ends them.
  lemma {:induction false} PartsAre(server: Server, docs: Page -> seq<Doc>, link: Option<Link>, n: nat, k: nat)
    ensures var parts := Parts(server, docs, link, n);
            && (k < |parts| ==>
                  var l := LinkAt(server, link, k);
                  l.Some? && parts[k] == docs(server(l.value)) && parts[k] != [])
            && (k == |parts| < n ==>
                  var l := LinkAt(server, link, k);
                  l.None? || docs(server(l.value)) == [])
    decreases n
  {
    if n > 0 && link.Some? && docs(server(link.value)) != [] && k > 0 {
      PartsAre(server, docs, server(link.value).next, n - 1, k - 1);
    }
  }

  // What the first n pages hold that is kept.
  ghost function Found(server: Server, docs: Page -> seq<Doc>, keep: Doc -> bool, link: Option<Link>, n: nat)
    : seq<Doc>
  {
    Filter(keep, Concat(Parts(server, docs, link, n)))
  }

  // The chain holds fewer than n pages with documents, or the cap is met within n pages.
  ghost predicate Settled(server: Server, docs: Page -> seq<Doc>, keep: Doc -> bool, link: Option<Link>,
                          cap: Option<nat>, n: nat) {
    |Parts(server, docs, link, n)| < n || (cap.Some? && |Found(server, docs, keep, link, n)| >= cap.value)
  }

  lemma {:induction false} LinkAtNext(server: Server, link: Option<Link>, n: nat)
    ensures LinkAt(server, link, 0) == link
    ensures LinkAt(server, link, n).Some? ==>
              LinkAt(server, link, n + 1) == server(LinkAt(server, link, n).value).next
    ensures LinkAt(server, link, n).None? ==> LinkAt(server, link, n + 1).None?
    decreases n
  {
    if n > 0 && link.Some? {
      LinkAtNext(server, server(link.value).next, n - 1);
    }
  }

  // One more page: either the chain goes on with the page behind the next link, or it ended.
  lemma {:induction false} PartsNext(server: Server, docs: Page -> seq<Doc>, link: Option<Link>, n: nat)
    requires |Parts(server, docs, link, n)| == n
    ensures var l := LinkAt(server, link, n);
            Parts(server, docs, link, n + 1) ==
            Parts(server, docs, link, n) +
            if l.None? || docs(server(l.value)) == [] then [] else [docs(server(l.value))]
    decreases n
  {
    if n > 0 {
      PartsNext(server, docs, server(link.value).next, n - 1);
    }
  }

  lemma {:induction false} PartsPrefix(server: Server, docs: Page -> seq<Doc>, link: Option<Link>, n: nat, m: nat)
    requires n <= m
    ensures Parts(server, docs, link, n) <= Parts(server, docs, link, m)
    ensures |Parts(server, docs, link, n)| < n ==> Parts(server, docs, link, m) == Parts(server, docs, link, n)
    decreases n
  {
    if n > 0 && link.Some? && docs(server(link.value)) != [] {
      PartsPrefix(server, docs, server(link.value).next, n - 1, m - 1);
    }
  }

  lemma {:induction false} ConcatPrefix(parts: seq<seq<Doc>>, parts': seq<seq<Doc>>)
    requires parts <= parts'
    ensures Concat(parts) <= Concat(parts')
  {
    if parts != [] {
      ConcatPrefix(parts[1..], parts'[1..]);
    }
  }

  lemma FilterPrefix(keep: Doc -> bool, s: seq<Doc>, t: seq<Doc>)
    requires s <= t
    ensures Filter(keep, s) <= Filter(keep, t)
  {
    assert t == s + t[|s|..];
    FilterAppend(keep, s, t[|s|..]);
  }

  lemma FoundPrefix(server: Server, docs: Page -> seq<Doc>, keep: Doc -> bool, link: Option<Link>, n: nat, m: nat)
    requires n <= m
    ensures Found(server, docs, keep, link, n) <= Found(server, docs, keep, link, m)
  {
    PartsPrefix(server, docs, link, n, m);
    ConcatPrefix(Parts(server, docs, link, n), Parts(server, docs, link, m));
    FilterPrefix(keep, Concat(Parts(server, docs, link, n)), Concat(Parts(server, docs, link, m)));
  }

  // The chain's next page, judged after n pages that all had documents.
  lemma FoundNext(server: Server, docs: Page -> seq<Doc>, keep: Doc -> bool, link: Option<Link>, n: nat)
    requires |Parts(server, docs, link, n)| == n
    ensures var l := LinkAt(server, link, n);
            if l.None? || docs(server(l.value)) == [] then
              && Parts(server, docs, link, n + 1) == Parts(server, docs, link, n)
              && Found(server, docs, keep, link, n + 1) == Found(server, docs, keep, link, n)
            else
              && |Parts(server, docs, link, n + 1)| == n + 1
              && LinkAt(server, link, n + 1) == server(l.value).next
              && Found(server, docs, keep, link, n + 1) ==
                 Found(server, docs, keep, link, n) + Filter(keep, docs(server(l.value)))
  {
    PartsNext(server, docs, link, n);
    LinkAtNext(server, link, n);
    var l := LinkAt(server, link, n);
    if l.Some? {
      ConcatAppend(Parts(server, docs, link, n), docs(server(l.value)));
      FilterAppend(keep, Concat(Parts(server, docs, link, n)), docs(server(l.value)));
    }
  }

  // Pages beyond a settled number change nothing in the result.
  lemma SettledStays(server: Server, docs: Page -> seq<Doc>, keep: Doc -> bool, link: Option<Link>,
                     cap: Option<nat>, n: nat, m: nat)
    requires Settled(server, docs, keep, link, cap, n) && n <= m
    ensures Settled(server, docs, keep, link, cap, m)
    ensures Take(cap, Found(server, docs, keep, link, m)) == Take(cap, Found(server, docs, keep, link, n))
  {
    PartsPrefix(server, docs, link, n, m);
    FoundPrefix(server, docs, keep, link, n, m);
  }

  // Two settled numbers of pages give the same result.
  lemma SettledAgree(server: Server, docs: Page -> seq<Doc>, keep: Doc -> bool, link: Option<Link>,
                     cap: Option<nat>, n: nat, m: nat)
    requires Settled(server, docs, keep, link, cap, n) && Settled(server, docs, keep, link, cap, m)
    ensures Take(cap, Found(server, docs, keep, link, m)) == Take(cap, Found(server, docs, keep, link, n))
  {
    if n <= m {
      SettledStays(server, docs, keep, link, cap, n, m);
    } else {
      SettledStays(server, docs, keep, link, cap, m, n);
    }
  }

  // Python's s[0:stop], where a negative stop counts from the end.
  function SliceTo(s: seq<Doc>, stop: int): seq<Doc> {
    if stop >= |s| then s else if stop >= 0 then s[..stop] else if |s| + stop >= 0 then s[..|s| + stop] else []
  }

  // Slicing the page that passes the cap cuts the result exactly there.
  lemma CutAtCap(cap: Option<nat>, before: seq<Doc>, page: seq<Doc>, kept: seq<Doc>)
    requires cap.Some? ==> |before| < cap.value
    requires var num := |before| + |page|;
             kept == if cap.Some? && num > cap.value then SliceTo(page, -(num - cap.value)) else page
    ensures Take(cap, before) + kept == Take(cap, before + page)
    ensures page != [] ==> kept != []
  {
  }

  // ---- get_pages ----

  predicate IsEmpty(p: Page) {
    p.features == [] && p.collections == []
  }

  // A generator of pages: one request per page pulled, ending at the first empty page.
  class PageSource {
    const server: Server
    var pending: Option<Link>
    ghost var requested: seq<Link>

    constructor (server: Server, url: Link)
      ensures this.server == server && pending == Some(url) && requested == []
    {
      this.server := server;
      pending := Some(url);
      requested := [];
    }

    method Next() returns (page: Option<Page>)
      modifies this
      ensures old(pending).None? ==> page.None? && pending.None? && requested == old(requested)
      ensures old(pending).Some? ==>
                var p := server(old(pending).value);
                && requested == old(requested) + [old(pending).value]
                && (if p.features == [] && p.collections == [] then page.None? && pending.None?
                    else page == Some(p) && pending == p.next)
    {
      if pending.None? {
        return None;
      }
      var p := server(pending.value);
      requested := requested + [pending.value];
      if IsEmpty(p) {
        pending := None;
        return None;
      }
      pending := p.next;
      return Some(p);
    }
  }
}
