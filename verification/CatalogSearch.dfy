/**
 The catalogue tool's own search loop. It follows "next" links, remembers the ones it has
 followed, stops at a limit, and reports whether the result may be incomplete.

 The server may answer the same link differently each time: its reply depends on the number
 of the request too. Only the finiteness of the set of links keeps the loop from running on.
 */
module CatalogSearch {
  import opened Wrappers

  type Link = string  // the link object's canonical JSON text, used as its signature

  datatype Feature = Feature(id: string, text: string)

  // Entries that are not objects are skipped, as are links that are not "next" links.
  datatype Entry = Object(feature: Feature) | Malformed
  datatype LinkEntry = Next(link: Link) | Other
  datatype Document = Document(entries: seq<Entry>, links: seq<LinkEntry>, matched: Option<int>)

  // The reply to the n-th request; the first one has no link.
  type Server = (nat, Option<Link>) -> Document

  function Features(entries: seq<Entry>): seq<Feature> {
    if entries == [] then []
    else if entries[0].Object? then [entries[0].feature] + Features(entries[1..])
    else Features(entries[1..])
  }

  function NextLinks(links: seq<LinkEntry>): seq<Link> {
    if links == [] then []
    else if links[0].Next? then [links[0].link] + NextLinks(links[1..])
    else NextLinks(links[1..])
  }

  lemma FirstEntry(e: Entry, entries: seq<Entry>)
    ensures Features([e] + entries) == (if e.Object? then [e.feature] else []) + Features(entries)
  {
    assert ([e] + entries)[1..] == entries;
  }

  // A list of entries yields its objects, all of them and in order.
  lemma {:induction false} FeaturesAppend(entries: seq<Entry>, more: seq<Entry>)
    ensures Features(entries + more) == Features(entries) + Features(more)
  {
    if entries == [] {
      assert entries + more == more;
    } else {
      var e, rest := entries[0], entries[1..];
      FeaturesAppend(rest, more);
      FirstEntry(e, rest);
      FirstEntry(e, rest + more);
      assert [e] + rest == entries && [e] + (rest + more) == entries + more;
    }
  }

  lemma {:induction false} FeaturesAreObjects(entries: seq<Entry>, f: Feature)
    ensures f in Features(entries) <==> Object(f) in entries
    ensures Features([Object(f)]) == [f]
  {
    if entries != [] {
      FeaturesAreObjects(entries[1..], f);
    }
  }

  // The index of the first "next" link.
  ghost predicate IsFirstNext(links: seq<LinkEntry>, i: nat) {
    i < |links| && links[i].Next? && forall j :: 0 <= j < i ==> links[j].Other?
  }

  lemma {:induction false} FirstNextLink(links: seq<LinkEntry>)
    ensures NextLinks(links) == [] <==> forall e <- links :: e.Other?
    ensures NextLinks(links) != [] ==> exists i: nat :: IsFirstNext(links, i) && links[i].link == NextLinks(links)[0]
  {
    if links != [] && links[0].Other? {
      FirstNextLink(links[1..]);
      if NextLinks(links[1..]) != [] {
        var i: nat :| IsFirstNext(links[1..], i) && links[1..][i].link == NextLinks(links[1..])[0];
        assert IsFirstNext(links, i + 1);
      }
    } else if links != [] {
      assert IsFirstNext(links, 0);
    }
  }

  // ---- The chain of documents ----

  function Follow(server: Server, n: nat, d: Option<Document>): Option<Document> {
    if d.None? || NextLinks(d.value.links) == [] then None
    else Some(server(n, Some(NextLinks(d.value.links)[0])))
  }

  // The n-th document of the chain, if it has that many.
  ghost function Chain(server: Server, n: nat): Option<Document> {
    if n == 0 then Some(server(0, None)) else Follow(server, n, Chain(server, n - 1))
  }

  function PageOf(d: Option<Document>): seq<Feature> {
    if d.None? then [] else Features(d.value.entries)
  }

  // The features of the first n documents.
  ghost function FeaturesUpTo(server: Server, n: nat): seq<Feature> {
    if n == 0 then [] else FeaturesUpTo(server, n - 1) + PageOf(Chain(server, n - 1))
  }

  // The link out of the n-th document.
  ghost function LinkFrom(server: Server, n: nat): Option<Link> {
    var d := Chain(server, n);
    if d.None? || NextLinks(d.value.links) == [] then None else Some(NextLinks(d.value.links)[0])
  }

  // The chain begins with the first reply and follows the first "next" link of each document.
  lemma ChainFollowsLinks(server: Server, n: nat)
    ensures Chain(server, 0) == Some(server(0, None))
    ensures LinkFrom(server, n).None? ==> Chain(server, n + 1).None?
    ensures LinkFrom(server, n).Some? ==> Chain(server, n + 1) == Some(server(n + 1, LinkFrom(server, n)))
    ensures Chain(server, n).Some? ==>
              if forall e <- Chain(server, n).value.links :: e.Other? then LinkFrom(server, n).None?
              else exists i: nat :: IsFirstNext(Chain(server, n).value.links, i) &&
                                    LinkFrom(server, n) == Some(Chain(server, n).value.links[i].link)
  {
    if Chain(server, n).Some? {
      FirstNextLink(Chain(server, n).value.links);
    }
  }

  // Every object of every document of the chain is among the chain's features.
  lemma ObjectsAreFound(server: Server, n: nat, f: Feature)
    requires Chain(server, n).Some? && Object(f) in Chain(server, n).value.entries
    ensures f in FeaturesUpTo(server, n + 1)
  {
    FeaturesAreObjects(Chain(server, n).value.entries, f);
    assert f in PageOf(Chain(server, n));
  }

  lemma {:induction false} ChainHasNoGaps(server: Server, n: nat, m: nat)
    requires n <= m && Chain(server, m).Some?
    ensures Chain(server, n).Some?
    decreases m
  {
    if n < m {
      ChainHasNoGaps(server, n, m - 1);
    }
  }

  lemma {:induction false} FeaturesGrow(server: Server, n: nat, m: nat)
    requires n <= m
    ensures FeaturesUpTo(server, n) <= FeaturesUpTo(server, m)
    ensures Chain(server, n).None? ==> FeaturesUpTo(server, m) == FeaturesUpTo(server, n)
    decreases m
  {
    if n < m {
      FeaturesGrow(server, n, m - 1);
      if Chain(server, m - 1).Some? {
        ChainHasNoGaps(server, n, m - 1);
      }
    }
  }

  // The chain ends after exactly n documents, following no link twice and never standing at
  // the limit, or past it, with a link still to follow.
  ghost predicate EndsCleanly(server: Server, limit: nat, n: nat) {
    && n > 0 && Chain(server, n - 1).Some? && Chain(server, n).None?
    && (forall k: nat :: 0 < k < n ==> |FeaturesUpTo(server, k)| < limit)
    && |FeaturesUpTo(server, n)| <= limit
    && (forall i: nat, j: nat :: i < j < n ==> LinkFrom(server, i) != LinkFrom(server, j))
  }

  function Truncate(limit: nat, s: seq<Feature>): seq<Feature> {
    if |s| <= limit then s else s[..limit]
  }

  // Every document the server can send links only within a finite set.
  ghost predicate LinksWithin(server: Server, universe: set<Link>) {
    forall n: nat, l: Option<Link> :: forall next <- NextLinks(server(n, l).links) :: next in universe
  }

  // A document before the n-th had the same link out.
  ghost predicate RepeatsLink(server: Server, n: nat) {
    exists i: nat :: i < n && LinkFrom(server, i) == LinkFrom(server, n)
  }

  // Up to the n-th document all links are different and the limit is not met, and there the
  // chain ends, the limit is met or a link repeats.
  ghost predicate ReadsUpTo(server: Server, limit: nat, n: nat) {
    && Chain(server, n).Some?
    && (forall k: nat :: k < n ==> LinkFrom(server, k).Some? && !RepeatsLink(server, k))
    && (forall k: nat :: 0 < k <= n ==> |FeaturesUpTo(server, k)| < limit)
    && (LinkFrom(server, n).None? || |FeaturesUpTo(server, n + 1)| >= limit || RepeatsLink(server, n))
  }

  // There is one such document, so a result that ends with it is determined.
  lemma ReadsUpToOne(server: Server, limit: nat, n: nat, m: nat)
    requires ReadsUpTo(server, limit, n) && ReadsUpTo(server, limit, m)
    ensures n == m
  {
  }

  // ---- The loop's own view of this ----

  // The links it has followed, and that it went on n times.
  ghost function SeenLinks(server: Server, n: nat): set<Link> {
    if n == 0 then {}
    else SeenLinks(server, n - 1) + match LinkFrom(server, n - 1) case None => {} case Some(l) => {l}
  }

  ghost predicate GoesOn(server: Server, limit: nat, n: nat) {
    n == 0 ||
    (&& GoesOn(server, limit, n - 1) && |FeaturesUpTo(server, n)| < limit
     && LinkFrom(server, n - 1).Some? && LinkFrom(server, n - 1).value !in SeenLinks(server, n - 1))
  }

  ghost predicate Stops(server: Server, limit: nat, n: nat) {
    || LinkFrom(server, n).None?
    || |FeaturesUpTo(server, n + 1)| >= limit
    || LinkFrom(server, n).value in SeenLinks(server, n)
  }

  lemma {:induction false} SeenLinksAre(server: Server, n: nat, l: Link)
    ensures l in SeenLinks(server, n) <==> exists k: nat :: k < n && LinkFrom(server, k) == Some(l)
  {
    if n > 0 {
      SeenLinksAre(server, n - 1, l);
      if k: nat :| k < n && LinkFrom(server, k) == Some(l) {
        assert k == n - 1 || k < n - 1;
      }
    }
  }

  lemma {:induction false} WentOn(server: Server, limit: nat, n: nat, k: nat)
    requires GoesOn(server, limit, n) && k <= n
    ensures 0 < k ==> |FeaturesUpTo(server, k)| < limit
    ensures k < n ==> LinkFrom(server, k).Some? && LinkFrom(server, k).value !in SeenLinks(server, k)
  {
    if k < n {
      WentOn(server, limit, n - 1, k);
    }
  }

  lemma StopsWhereItReads(server: Server, limit: nat, n: nat)
    requires GoesOn(server, limit, n) && Stops(server, limit, n)
    ensures ReadsUpTo(server, limit, n)
  {
    forall k: nat | k < n ensures LinkFrom(server, k).Some? && !RepeatsLink(server, k) {
      WentOn(server, limit, n, k);
      SeenLinksAre(server, k, LinkFrom(server, k).value);
    }
    forall k: nat | 0 < k <= n ensures |FeaturesUpTo(server, k)| < limit {
      WentOn(server, limit, n, k);
    }
    if LinkFrom(server, n).Some? {
      SeenLinksAre(server, n, LinkFrom(server, n).value);
    }
    assert n > 0 ==> LinkFrom(server, n - 1).Some?;
  }

  // If the chain ends cleanly at all, it ends with the document read last.
  lemma CleanEndIsHere(server: Server, limit: nat, n: nat, m: nat)
    requires ReadsUpTo(server, limit, n) && EndsCleanly(server, limit, m)
    ensures m == n + 1
  {
    if m <= n {
      ChainHasNoGaps(server, m, n);
    } else if m > n + 1 {
      ChainHasNoGaps(server, n + 1, m - 1);
    }
  }

  lemma EndsHere(server: Server, limit: nat, n: nat)
    requires ReadsUpTo(server, limit, n) && LinkFrom(server, n).None? && |FeaturesUpTo(server, n + 1)| <= limit
    ensures EndsCleanly(server, limit, n + 1)
  {
    forall i: nat, j: nat | i < j < n + 1 ensures LinkFrom(server, i) != LinkFrom(server, j) {
      assert LinkFrom(server, i).Some?;
      assert j < n ==> !RepeatsLink(server, j);
    }
  }

  lemma CleanEnd(server: Server, limit: nat, n: nat)
    requires ReadsUpTo(server, limit, n)
    ensures (exists m: nat :: EndsCleanly(server, limit, m)) <==>
            LinkFrom(server, n).None? && |FeaturesUpTo(server, n + 1)| <= limit
  {
    if m: nat :| EndsCleanly(server, limit, m) {
      CleanEndIsHere(server, limit, n, m);
      assert Chain(server, n + 1) == Follow(server, n + 1, Chain(server, n));
    }
    if LinkFrom(server, n).None? && |FeaturesUpTo(server, n + 1)| <= limit {
      EndsHere(server, limit, n);
    }
  }

  // Unless a link repeats, later documents would not change the first features.
  lemma FirstFeatures(server: Server, limit: nat, n: nat, m: nat)
    requires ReadsUpTo(server, limit, n) && !RepeatsLink(server, n) && n < m
    ensures Truncate(limit, FeaturesUpTo(server, m)) == Truncate(limit, FeaturesUpTo(server, n + 1))
  {
    FeaturesGrow(server, n + 1, m);
  }

  lemma NothingBeyond(server: Server, n: nat)
    requires Chain(server, n).None?
    ensures forall m: nat :: FeaturesUpTo(server, m) <= FeaturesUpTo(server, n)
  {
    forall m: nat ensures FeaturesUpTo(server, m) <= FeaturesUpTo(server, n) {
      if m <= n {
        FeaturesGrow(server, m, n);
      } else {
        FeaturesGrow(server, n, m);
      }
    }
  }

  // What holds when the loop stops after document n.
  lemma SearchEnds(server: Server, limit: nat, n: nat)
    requires GoesOn(server, limit, n) && Stops(server, limit, n)
    ensures ReadsUpTo(server, limit, n)
    ensures (exists m: nat :: EndsCleanly(server, limit, m)) <==>
            LinkFrom(server, n).None? && |FeaturesUpTo(server, n + 1)| <= limit
    ensures LinkFrom(server, n).None? ==> forall m: nat :: FeaturesUpTo(server, m) <= FeaturesUpTo(server, n + 1)
    ensures !RepeatsLink(server, n) ==>
              forall m: nat :: n < m ==>
                Truncate(limit, FeaturesUpTo(server, n + 1)) == Truncate(limit, FeaturesUpTo(server, m))
  {
    StopsWhereItReads(server, limit, n);
    CleanEnd(server, limit, n);
    if LinkFrom(server, n).None? {
      NothingBeyond(server, n + 1);
    }
    forall m: nat | n < m && !RepeatsLink(server, n)
      ensures Truncate(limit, FeaturesUpTo(server, n + 1)) == Truncate(limit, FeaturesUpTo(server, m))
    {
      FirstFeatures(server, limit, n, m);
    }
  }

  // The flag is off exactly when the chain ends cleanly, with no fewer features than the first
  // document says there are.
  ghost predicate IsFlag(server: Server, limit: nat, count: nat, truncated: bool) {
    !truncated <==>
      && (exists n: nat :: EndsCleanly(server, limit, n))
      && (server(0, None).matched.Some? ==> server(0, None).matched.value <= count)
  }

  method SearchAll(server: Server, limit: nat, ghost universe: set<Link>)
    returns (features: seq<Feature>, matched: Option<int>, truncated: bool, ghost read: nat)
    requires LinksWithin(server, universe)
    // the features of the chain up to its end, the limit or the first repeated link
    ensures ReadsUpTo(server, limit, read) && features == Truncate(limit, FeaturesUpTo(server, read + 1))
    ensures |features| <= limit && features <= FeaturesUpTo(server, read + 1)
    ensures |features| == limit || LinkFrom(server, read).None? || RepeatsLink(server, read)
    // unless a link repeats, the first features of the whole chain
    ensures !RepeatsLink(server, read) ==>
              forall m: nat :: read < m ==> features == Truncate(limit, FeaturesUpTo(server, m))
    // nothing is missing exactly when the flag is off; the first document says how many there are
    ensures matched == server(0, None).matched && IsFlag(server, limit, |features|, truncated)
    ensures !truncated ==> forall n: nat :: FeaturesUpTo(server, n) <= features
  {
    var document := server(0, None);
    features := [];
    matched := document.matched;
    var seen: set<Link> := {};
    truncated := false;
    var n := 0;
    while true
      invariant Chain(server, n) == Some(document) && features == FeaturesUpTo(server, n)
      invariant |features| <= limit && !truncated && matched == server(0, None).matched
      invariant GoesOn(server, limit, n) && seen == SeenLinks(server, n) && seen <= universe
      decreases universe - seen
    {
      var page := Features(document.entries);
      var remaining := limit - |features|;
      features := features + if |page| <= remaining then page else page[..remaining];
      var nextLinks := NextLinks(document.links);
      if |page| > remaining {
        truncated := true;
        break;
      }
      if nextLinks == [] {
        break;
      }
      if |features| >= limit {
        truncated := true;
        break;
      }
      var link := nextLinks[0];
      if link in seen {
        truncated := true;
        break;
      }
      seen := seen + {link};
      document := server(n + 1, Some(link));
      n := n + 1;
    }
    read := n;
    SearchEnds(server, limit, n);
    if matched.Some? && matched.value > |features| {
      truncated := true;
    }
  }

  // ---- Reporting requested ids ----

  ghost predicate HasId(features: seq<Feature>, id: string) {
    exists f <- features :: f.id == id
  }

  function NotIn(ids: seq<string>, found: set<string>): seq<string> {
    if ids == [] then []
    else if ids[0] in found then NotIn(ids[1..], found)
    else [ids[0]] + NotIn(ids[1..], found)
  }

  lemma {:induction false} NotInMembers(ids: seq<string>, found: set<string>, id: string)
    ensures id in NotIn(ids, found) <==> id in ids && id !in found
  {
    if ids != [] {
      NotInMembers(ids[1..], found, id);
    }
  }

  lemma {:induction false} NotInKeepsOrder(ids: seq<string>, more: seq<string>, found: set<string>, id: string)
    ensures NotIn(ids + more, found) == NotIn(ids, found) + NotIn(more, found)
    ensures NotIn([id], found) == if id in found then [] else [id]
  {
    if ids == [] {
      assert ids + more == more;
    } else {
      NotInKeepsOrder(ids[1..], more, found, id);
      assert (ids + more)[1..] == ids[1..] + more;
    }
  }

  // No document of the chain has an object with this id.
  ghost predicate OccursNowhere(server: Server, id: string) {
    forall n: nat, e :: Chain(server, n).Some? && e in Chain(server, n).value.entries ==>
                          !e.Object? || e.feature.id != id
  }

  // What is missing among all features of the chain.
  lemma NotFoundOccursNowhere(server: Server, features: seq<Feature>, id: string)
    requires (forall n: nat :: FeaturesUpTo(server, n) <= features) && !HasId(features, id)
    ensures OccursNowhere(server, id)
  {
    forall n: nat, e | Chain(server, n).Some? && e in Chain(server, n).value.entries && e.Object?
      ensures e.feature.id != id
    {
      assert e == Object(e.feature);
      ObjectsAreFound(server, n, e.feature);
      assert FeaturesUpTo(server, n + 1) <= features && e.feature in features;
    }
  }

  // The requested ids that no feature has, in the order of the request.
  method Missing(features: seq<Feature>, selected: seq<string>) returns (missing: seq<string>)
    ensures missing == NotIn(selected, set f <- features :: f.id)
    ensures forall id :: id in missing <==> id in selected && !HasId(features, id)
  {
    var returned: set<string> := {};
    for i := 0 to |features|
      invariant forall id :: id in returned <==> HasId(features[..i], id)
    {
      returned := returned + {features[i].id};
      assert features[..i + 1] == features[..i] + [features[i]];
    }
    assert features[..|features|] == features;
    assert returned == set f <- features :: f.id;
    missing := NotIn(selected, returned);
    forall id ensures id in missing <==> id in selected && !HasId(features, id) {
      NotInMembers(selected, returned, id);
    }
  }

  // A search for given ids. An id reported as not found occurs nowhere in the chain; when
  // the result may be incomplete, missing ids are only called unresolved. Both keep the order
  // of the request.
  method SearchIds(server: Server, limit: nat, selected: seq<string>, ghost universe: set<Link>)
    returns (features: seq<Feature>, notFound: seq<string>, unresolved: seq<string>, truncated: bool, ghost read: nat)
    requires LinksWithin(server, universe)
    ensures ReadsUpTo(server, limit, read) && features == Truncate(limit, FeaturesUpTo(server, read + 1))
    ensures IsFlag(server, limit, |features|, truncated)
    ensures forall id <- notFound :: id in selected && OccursNowhere(server, id)
    ensures forall id <- selected :: HasId(features, id) || id in notFound || id in unresolved
    ensures forall id <- unresolved :: id in selected && !HasId(features, id)
    ensures if truncated then notFound == [] else unresolved == []
    ensures notFound + unresolved == NotIn(selected, set f <- features :: f.id)
  {
    var matched;
    features, matched, truncated, read := SearchAll(server, limit, universe);
    var missing := Missing(features, selected);
    notFound := if truncated then [] else missing;
    unresolved := if truncated then missing else [];
    forall id | id in notFound ensures OccursNowhere(server, id) {
      NotFoundOccursNowhere(server, features, id);
    }
  }
}
