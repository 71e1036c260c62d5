/** The RSS article view's image cache and the part of its resource loader
    that decides what to answer before any download. The cache is a list of
    entries, most recently used first, and a url-to-node map; each list node
    has an identity (`node`), standing for the list iterator the map holds.
    Time is an explicit clock reading in milliseconds. */
module HtmlBrowser {
  import opened Common

  /** The clean timer's period and an entry's lifetime, in milliseconds. */
  const CLEAN_TIMEOUT := 100000
  /** QTextDocument::ImageResource. */
  const IMAGE_RESOURCE := 2

  /** A QUrl: scheme, authority, path, and the rest (query and fragment),
      which url equality compares as well. */
  datatype Url = Url(scheme: string, authority: string, path: string, rest: string)

  /** A decoded image; the default-constructed QImage is `NullImage`. */
  datatype Image = NullImage | Pixels(data: seq<byte>)

  /** One list node: its identity, the url and image it holds, and the
      clock reading its timer was last started at. */
  datatype Entry = Entry(node: nat, url: Url, image: Image, since: int)

  /** QElapsedTimer::hasExpired: more than the timeout has elapsed. */
  predicate Expired(e: Entry, now: int)
  {
    now - e.since > CLEAN_TIMEOUT
  }

  function Urls(list: seq<Entry>): set<Url>
  {
    set k | 0 <= k < |list| :: list[k].url
  }

  ghost predicate DistinctUrls(list: seq<Entry>)
  {
    forall i, j :: 0 <= i < j < |list| ==> list[i].url != list[j].url
  }

  /** The list without the entries for `url`, the others in their order. */
  function Erase(list: seq<Entry>, url: Url): (r: seq<Entry>)
  {
    if |list| == 0 then []
    else (if list[0].url == url then [] else [list[0]]) + Erase(list[1..], url)
  }

  /** The image of the first entry for `url`, or the null image. */
  function ImageOf(list: seq<Entry>, url: Url): Image
  {
    if |list| == 0 then NullImage
    else if list[0].url == url then list[0].image
    else ImageOf(list[1..], url)
  }

  /** Erasing a url removes exactly that url and keeps every other url's
      image. */
  lemma {:induction false} EraseSpec(list: seq<Entry>, url: Url)
    ensures Urls(Erase(list, url)) == Urls(list) - {url}
    ensures forall other :: other != url ==> ImageOf(Erase(list, url), other) == ImageOf(list, other)
    ensures DistinctUrls(list) ==> DistinctUrls(Erase(list, url))
    ensures |Erase(list, url)| <= |list|
    decreases |list|
  {
    if |list| > 0 {
      EraseSpec(list[1..], url);
      UrlsCons(list);
      var r := Erase(list, url);
      var tail := Erase(list[1..], url);
      if list[0].url != url {
        assert r == [list[0]] + tail;
        UrlsCons(r);
        assert r[1..] == tail;
        if DistinctUrls(list) {
          assert DistinctUrls(list[1..]) by {
            forall i, j | 0 <= i < j < |list[1..]| ensures list[1..][i].url != list[1..][j].url {
              assert list[1..][i] == list[i + 1] && list[1..][j] == list[j + 1];
            }
          }
          HeadNotInTail(list);
          forall i, j | 0 <= i < j < |r| ensures r[i].url != r[j].url {
            if i == 0 {
              assert r[j].url in Urls(tail);
            } else {
              assert r[i] == tail[i - 1] && r[j] == tail[j - 1];
            }
          }
        }
      } else {
        assert r == tail;
        if DistinctUrls(list) {
          forall i, j | 0 <= i < j < |list[1..]| ensures list[1..][i].url != list[1..][j].url {
            assert list[1..][i] == list[i + 1] && list[1..][j] == list[j + 1];
          }
        }
      }
    }
  }

  /** With distinct urls, the first entry's url occurs nowhere after it. */
  lemma HeadNotInTail(list: seq<Entry>)
    requires |list| > 0 && DistinctUrls(list)
    ensures list[0].url !in Urls(list[1..])
  {
    forall k | 0 <= k < |list[1..]| ensures list[1..][k].url != list[0].url {
      assert list[1..][k] == list[k + 1];
    }
  }

  lemma UrlsCons(list: seq<Entry>)
    requires |list| > 0
    ensures Urls(list) == {list[0].url} + Urls(list[1..])
  {
    forall u | u in Urls(list) ensures u in {list[0].url} + Urls(list[1..]) {
      var k :| 0 <= k < |list| && list[k].url == u;
      if k > 0 { assert list[1..][k - 1].url == u; }
    }
    forall u | u in Urls(list[1..]) ensures u in Urls(list) {
      var k :| 0 <= k < |list[1..]| && list[1..][k].url == u;
      assert list[k + 1].url == u;
    }
  }

  /** In a list of distinct urls, cutting out the one entry for a url is
      erasing that url. */
  lemma {:induction false} CutIsErase(list: seq<Entry>, i: nat)
    requires DistinctUrls(list) && i < |list|
    ensures list[..i] + list[i + 1..] == Erase(list, list[i].url)
    decreases |list|
  {
    var url := list[i].url;
    assert DistinctUrls(list[1..]) by {
      forall a, b | 0 <= a < b < |list[1..]| ensures list[1..][a].url != list[1..][b].url {
        assert list[1..][a] == list[a + 1] && list[1..][b] == list[b + 1];
      }
    }
    if i == 0 {
      HeadNotInTail(list);
      EraseAbsent(list[1..], url);
      assert list[..0] + list[1..] == list[1..];
    } else {
      assert list[0].url != url;
      CutIsErase(list[1..], i - 1);
      assert list[1..][i - 1] == list[i];
      assert list[1..][..i - 1] + list[1..][i..] == list[1..i] + list[i + 1..];
      assert list[..i] + list[i + 1..] == [list[0]] + (list[1..i] + list[i + 1..]);
    }
  }

  /** Erasing a url that is not there changes nothing. */
  lemma {:induction false} EraseAbsent(list: seq<Entry>, url: Url)
    requires url !in Urls(list)
    ensures Erase(list, url) == list
    decreases |list|
  {
    if |list| > 0 {
      UrlsCons(list);
      EraseAbsent(list[1..], url);
      assert [list[0]] + list[1..] == list;
    }
  }

  /** After a url's entry is replaced by a fresh one at the front, looking
      the url up gives the new image and every other url its old one. */
  lemma ReplaceLookup(list: seq<Entry>, e: Entry, other: Url)
    ensures ImageOf([e] + Erase(list, e.url), e.url) == e.image
    ensures other != e.url ==> ImageOf([e] + Erase(list, e.url), other) == ImageOf(list, other)
  {
    var r := [e] + Erase(list, e.url);
    assert r[1..] == Erase(list, e.url);
    EraseSpec(list, e.url);
  }

  /** The position of the node `node` in the list. */
  function NodeIndex(list: seq<Entry>, node: nat): (i: int)
    ensures i == -1 || (0 <= i < |list| && list[i].node == node)
    ensures i == -1 <==> forall k :: 0 <= k < |list| ==> list[k].node != node
  {
    if |list| == 0 then -1
    else if list[|list| - 1].node == node then |list| - 1
    else NodeIndex(list[..|list| - 1], node)
  }

  /** clean's result: entries dropped from the back while the back one has
      expired. */
  function Cleaned(list: seq<Entry>, now: int): seq<Entry>
  {
    if |list| > 0 && Expired(list[|list| - 1], now) then Cleaned(list[..|list| - 1], now)
    else list
  }

  /** clean keeps a prefix of the list, drops only expired entries, and
      stops at the first entry from the back that has not expired. */
  lemma {:induction false} CleanedSpec(list: seq<Entry>, now: int)
    ensures |Cleaned(list, now)| <= |list| && Cleaned(list, now) == list[..|Cleaned(list, now)|]
    ensures forall k :: |Cleaned(list, now)| <= k < |list| ==> Expired(list[k], now)
    ensures |Cleaned(list, now)| > 0 ==> !Expired(Cleaned(list, now)[|Cleaned(list, now)| - 1], now)
    decreases |list|
  {
    if |list| > 0 && Expired(list[|list| - 1], now) {
      var shorter := list[..|list| - 1];
      CleanedSpec(shorter, now);
      var c := Cleaned(list, now);
      assert c == Cleaned(shorter, now);
      assert shorter[..|c|] == list[..|c|];
      forall k | |c| <= k < |list| ensures Expired(list[k], now) {
        if k < |list| - 1 { assert list[k] == shorter[k]; }
      }
    } else {
      assert list[..|list|] == list;
    }
  }

  /** The map's keys are the list's urls, each once; each key leads to the
      node that holds it; node identities are distinct and below `next`. */
  ghost predicate Linked(list: seq<Entry>, nodes: map<Url, nat>, next: nat)
  {
    && DistinctUrls(list)
    && nodes.Keys == Urls(list)
    && (forall k :: 0 <= k < |list| ==> list[k].url in nodes && nodes[list[k].url] == list[k].node)
    && (forall k :: 0 <= k < |list| ==> list[k].node < next)
    && (forall i, j :: 0 <= i < j < |list| ==> list[i].node != list[j].node)
  }

  /** Cutting out a url's node keeps the list and the map linked. */
  lemma CutLinked(list: seq<Entry>, nodes: map<Url, nat>, next: nat, i: nat)
    requires Linked(list, nodes, next) && i < |list|
    ensures Linked(list[..i] + list[i + 1..], nodes - {list[i].url}, next)
  {
    var url := list[i].url;
    var r := list[..i] + list[i + 1..];
    CutIsErase(list, i);
    EraseSpec(list, url);
    CutNodes(list, nodes, next, i);
  }

  lemma CutNodes(list: seq<Entry>, nodes: map<Url, nat>, next: nat, i: nat)
    requires Linked(list, nodes, next) && i < |list|
    ensures var r, m := list[..i] + list[i + 1..], nodes - {list[i].url};
      && (forall j :: 0 <= j < |r| ==> r[j].url in m && m[r[j].url] == r[j].node && r[j].node < next)
      && (forall a, b :: 0 <= a < b < |r| ==> r[a].node != r[b].node)
  {
    var r, m := list[..i] + list[i + 1..], nodes - {list[i].url};
    forall j | 0 <= j < |r| ensures r[j] == list[if j < i then j else j + 1] {
    }
    forall j | 0 <= j < |r| ensures r[j].url in m && m[r[j].url] == r[j].node && r[j].node < next {
      var src := if j < i then j else j + 1;
      assert r[j] == list[src];
      assert src != i;
    }
  }

  /** A fresh node for a url not in the map, pushed at the front, keeps the
      list and the map linked. */
  lemma PushLinked(list: seq<Entry>, nodes: map<Url, nat>, next: nat, e: Entry)
    requires Linked(list, nodes, next) && e.url !in nodes && e.node == next
    ensures Linked([e] + list, nodes[e.url := next], next + 1)
  {
    var r := [e] + list;
    UrlsCons(r);
    assert r[1..] == list;
    forall i, j | 0 <= i < j < |r| ensures r[i].url != r[j].url && r[i].node != r[j].node {
      assert r[j] == list[j - 1];
      if i == 0 { assert list[j - 1].url in Urls(list); } else { assert r[i] == list[i - 1]; }
    }
    forall k | 0 <= k < |r| ensures r[k].url in nodes[e.url := next] && nodes[e.url := next][r[k].url] == r[k].node {
      if k > 0 {
        assert r[k] == list[k - 1];
        assert list[k - 1].url in Urls(list);
      }
    }
  }

  /** The node the map gives for a url is that url's place in the list. */
  lemma NodeOfUrl(list: seq<Entry>, nodes: map<Url, nat>, next: nat, url: Url)
    requires Linked(list, nodes, next) && url in nodes
    ensures 0 <= NodeIndex(list, nodes[url]) < |list| && list[NodeIndex(list, nodes[url])].url == url
  {
    var k :| 0 <= k < |list| && list[k].url == url;
    assert list[k].node == nodes[url];
  }

  class ImageCache {
    /** Most recently used first. */
    var list: seq<Entry>
    /** Each cached url's node. */
    var nodes: map<Url, nat>
    /** The identity the next list node gets. */
    var nextNode: nat

    ghost predicate Valid()
      reads this
    {
      Linked(list, nodes, nextNode)
    }

    constructor ()
      ensures Valid() && list == [] && nodes == map[]
    {
      list := [];
      nodes := map[];
      nextNode := 0;
    }

    /** The image cached for `url`, as the list holds it. */
    ghost function Lookup(url: Url): Image
      reads this
    {
      ImageOf(list, url)
    }

    /** contains: the url has an entry in the list. */
    function Contains(url: Url): (r: bool)
      reads this
      requires Valid()
      ensures r <==> url in Urls(list)
    {
      url in nodes
    }

    /** Takes the entry for `url` out of the list (by the node the map
        gives) and out of the map. */
    method Unlink(url: Url)
      requires Valid() && url in nodes
      modifies this
      ensures Valid() && url !in nodes && nextNode == old(nextNode)
      ensures list == Erase(old(list), url) && nodes == old(nodes) - {url}
      ensures forall other :: other != url ==> ImageOf(list, other) == ImageOf(old(list), other)
    {
      NodeOfUrl(list, nodes, nextNode, url);
      var i := NodeIndex(list, nodes[url]);
      CutLinked(list, nodes, nextNode, i);
      CutIsErase(list, i);
      EraseSpec(list, url);
      list := list[..i] + list[i + 1..];
      nodes := nodes - {url};
    }

    /** Puts a fresh node at the front of the list for `url`. */
    method PushFront(url: Url, image: Image, now: int)
      requires Valid() && url !in nodes
      modifies this
      ensures Valid()
      ensures list == [Entry(old(nextNode), url, image, now)] + old(list)
      ensures nodes == old(nodes)[url := old(nextNode)] && nextNode == old(nextNode) + 1
    {
      var e := Entry(nextNode, url, image, now);
      PushLinked(list, nodes, nextNode, e);
      list := [e] + list;
      nodes := nodes[url := nextNode];
      nextNode := nextNode + 1;
    }

    /** insert: the url's old entry, if any, goes; the new one is the most
        recent. */
    method Insert(url: Url, image: Image, now: int)
      requires Valid()
      modifies this
      ensures Valid()
      ensures list == [Entry(old(nextNode), url, image, now)] + Erase(old(list), url)
      ensures Lookup(url) == image
      ensures forall other :: other != url ==> Lookup(other) == old(Lookup(other))
    {
      if url in nodes {
        Unlink(url);
      } else {
        EraseAbsent(list, url);
        EraseSpec(list, url);
      }
      PushFront(url, image, now);
    }

    /** value: the null image for an unknown url, and nothing changes;
        otherwise the cached image, whose entry becomes the most recent with
        its timer restarted. */
    method Value(url: Url, now: int) returns (image: Image)
      requires Valid()
      modifies this
      ensures Valid()
      ensures url !in old(nodes) ==> image == NullImage && list == old(list) && nodes == old(nodes)
      ensures url in old(nodes) ==>
        && image == old(Lookup(url))
        && list == [Entry(old(nextNode), url, image, now)] + Erase(old(list), url)
      ensures forall u :: Lookup(u) == old(Lookup(u))
    {
      if url !in nodes {
        return NullImage;
      }
      assert url in Urls(list);
      image := ImageOf(list, url);
      Unlink(url);
      PushFront(url, image, now);
    }

    /** clean: drops expired entries from the back, and their urls from the
        map, until the back entry is still live. */
    method Clean(now: int)
      requires Valid()
      modifies this
      ensures Valid()
      ensures list == Cleaned(old(list), now) && nextNode == old(nextNode)
    {
      while |list| > 0 && Expired(list[|list| - 1], now)
        invariant Valid() && nextNode == old(nextNode)
        invariant Cleaned(list, now) == Cleaned(old(list), now)
        decreases |list|
      {
        var back := list[|list| - 1];
        CutLinked(list, nodes, nextNode, |list| - 1);
        assert list[..|list| - 1] + list[|list|..] == list[..|list| - 1];
        nodes := nodes - {back.url};
        list := list[..|list| - 1];
      }
    }
  }

  /** What loadResource answers: nothing yet, a cached image, or the text
      browser's own loading for resources other than images. */
  datatype Resource = NoResource | CachedImage(image: Image) | Inherited

  /** An image url without a scheme is fetched over http. */
  function WithScheme(url: Url): (r: Url)
    ensures r.scheme != "" && r.authority == url.authority && r.path == url.path && r.rest == url.rest
    ensures url.scheme != "" ==> r == url
    ensures url.scheme == "" ==> r.scheme == "http"
  {
    if url.scheme == "" then url.(scheme := "http") else url
  }

  /** GIF images are not shown: a path ending in ".gif", in any case. */
  predicate IsGif(url: Url)
  {
    EndsWithIgnoreCase(url.path, ".gif")
  }

  /** The part of HtmlBrowser that loadResource uses: the image cache, the
      urls whose downloaded data is being decoded, the urls being
      downloaded, and (as ghost state) the downloads started, in order. */
  class HtmlBrowser {
    const cache: ImageCache
    var queue: set<Url>
    var activeRequests: set<Url>
    ghost var requested: seq<Url>

    constructor ()
      ensures fresh(cache) && cache.Valid() && cache.list == []
      ensures queue == {} && activeRequests == {} && requested == []
    {
      cache := new ImageCache();
      queue := {};
      activeRequests := {};
      requested := [];
    }

    /** loadResource up to the download: a GIF or a url being decoded gets
        nothing; a cached image is answered from the cache before any
        download; otherwise a download starts unless one is running, and
        nothing is answered yet. */
    method LoadResource(kind: int, name: Url, now: int) returns (r: Resource)
      requires cache.Valid()
      modifies this, cache
      ensures cache.Valid()
      ensures queue == old(queue)
      ensures kind != IMAGE_RESOURCE ==>
        r == Inherited && unchanged(cache) && activeRequests == old(activeRequests) && requested == old(requested)
      ensures kind == IMAGE_RESOURCE && IsGif(WithScheme(name)) ==>
        r == NoResource && unchanged(cache) && activeRequests == old(activeRequests) && requested == old(requested)
      ensures kind == IMAGE_RESOURCE && !IsGif(WithScheme(name)) && WithScheme(name) in old(cache.nodes) ==>
        var url := WithScheme(name);
        && r == CachedImage(old(cache.Lookup(url)))
        && cache.list == [Entry(old(cache.nextNode), url, r.image, now)] + Erase(old(cache.list), url)
        && activeRequests == old(activeRequests) && requested == old(requested)
      ensures kind == IMAGE_RESOURCE && !IsGif(WithScheme(name)) && WithScheme(name) !in old(cache.nodes) ==>
        var url := WithScheme(name);
        && r == NoResource && unchanged(cache)
        && (url in queue ==> activeRequests == old(activeRequests) && requested == old(requested))
        && (url !in queue ==>
              && activeRequests == old(activeRequests) + {url}
              && requested == old(requested) + (if url in old(activeRequests) then [] else [url]))
    {
      if kind != IMAGE_RESOURCE {
        return Inherited;
      }
      var url := WithScheme(name);
      if IsGif(url) {
        return NoResource;
      }
      if cache.Contains(url) {
        var image := cache.Value(url, now);
        return CachedImage(image);
      }
      if url in queue {
        return NoResource;
      }
      if url !in activeRequests {
        activeRequests := activeRequests + {url};
        requested := requested + [url];
      }
      r := NoResource;
    }
  }
}
