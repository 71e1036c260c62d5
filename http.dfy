/** The HTTP request/response values the streaming server exchanges, and the
    header map. Http::HeaderMap is a QMap<QString, QString>, so it iterates in
    ascending key order; it is modelled as a list of headers kept strictly
    sorted by name. */
module Http {
  import opened Common

  // Header names and values used by the core (base/http/types.h).
  const HEADER_CONNECTION: string := "connection"
  const HEADER_CONTENT_LENGTH: string := "content-length"
  const HEADER_CONTENT_TYPE: string := "content-type"
  const HEADER_DATE: string := "date"
  const HEADER_RANGE: string := "range"
  const METHOD_GET: string := "GET"
  const METHOD_HEAD: string := "HEAD"
  const CONTENT_TYPE_TXT: string := "text/plain; charset=UTF-8"
  const CRLF: string := "\r\n"

  datatype Header = Header(name: string, value: string)
  type HeaderMap = seq<Header>

  datatype Status = Status(code: int, text: string)

  datatype Request = Request(verb: string, path: string, headers: HeaderMap)

  /** A response built by the connection itself (413, 400), serialised by the
      response generator. */
  datatype Response = Response(status: Status, headers: HeaderMap)

  /** QString ordering: lexicographic on characters. */
  predicate StrLess(a: string, b: string)
    decreases |a|
  {
    if |a| == 0 then |b| > 0
    else if |b| == 0 then false
    else if a[0] != b[0] then a[0] < b[0]
    else StrLess(a[1..], b[1..])
  }

  lemma {:induction false} StrLessIrreflexive(a: string)
    ensures !StrLess(a, a)
    decreases |a|
  {
    if |a| > 0 { StrLessIrreflexive(a[1..]); }
  }

  lemma {:induction false} StrLessTransitive(a: string, b: string, c: string)
    requires StrLess(a, b) && StrLess(b, c)
    ensures StrLess(a, c)
    decreases |a|
  {
    if |a| > 0 && |b| > 0 && |c| > 0 && a[0] == b[0] && b[0] == c[0] {
      StrLessTransitive(a[1..], b[1..], c[1..]);
    }
  }

  lemma {:induction false} StrLessTotal(a: string, b: string)
    requires a != b
    ensures StrLess(a, b) || StrLess(b, a)
    decreases |a|
  {
    if |a| > 0 && |b| > 0 && a[0] == b[0] {
      StrLessTotal(a[1..], b[1..]);
    }
  }

  ghost predicate Sorted(h: HeaderMap)
  {
    forall i, j :: 0 <= i < j < |h| ==> StrLess(h[i].name, h[j].name)
  }

  function Names(h: HeaderMap): set<string>
  {
    set k | 0 <= k < |h| :: h[k].name
  }

  /** QMap::value(key, default). */
  function Get(h: HeaderMap, name: string): (r: Option<string>)
    ensures r.Some? <==> name in Names(h)
    ensures r.Some? ==> exists k :: 0 <= k < |h| && h[k] == Header(name, r.value)
  {
    if |h| == 0 then None
    else if h[0].name == name then Some(h[0].value)
    else
      var r := Get(h[1..], name);
      NamesCons(h);
      if r.Some? then
        var k :| 0 <= k < |h[1..]| && h[1..][k] == Header(name, r.value);
        assert h[k + 1] == Header(name, r.value);
        r
      else r
  }

  function ValueOr(h: HeaderMap, name: string, default: string): string
  {
    match Get(h, name)
    case Some(v) => v
    case None => default
  }

  /** `headers[name] = value`: replaces the value of an existing key or
      inserts the key at its sorted position (see InsertSpec). */
  function Insert(h: HeaderMap, name: string, value: string): (r: HeaderMap)
    ensures |r| > 0
  {
    if |h| == 0 then [Header(name, value)]
    else if h[0].name == name then [Header(name, value)] + h[1..]
    else if StrLess(name, h[0].name) then [Header(name, value)] + h
    else [h[0]] + Insert(h[1..], name, value)
  }

  /** Inserting into a sorted map keeps it sorted, adds exactly the key, maps
      it to the new value, and leaves every other key's value alone. */
  lemma {:induction false} InsertSpec(h: HeaderMap, name: string, value: string)
    requires Sorted(h)
    ensures Sorted(Insert(h, name, value))
    ensures Names(Insert(h, name, value)) == Names(h) + {name}
    ensures Get(Insert(h, name, value), name) == Some(value)
    ensures forall other :: other != name ==> Get(Insert(h, name, value), other) == Get(h, other)
    decreases |h|
  {
    if |h| == 0 {
      NamesCons(Insert(h, name, value));
    } else if h[0].name == name {
      InsertReplace(h, name, value);
    } else if StrLess(name, h[0].name) {
      InsertBefore(h, name, value);
    } else {
      InsertSpec(h[1..], name, value);
      InsertAfter(h, name, value);
    }
  }

  lemma InsertReplace(h: HeaderMap, name: string, value: string)
    requires Sorted(h) && |h| > 0 && h[0].name == name
    ensures Sorted(Insert(h, name, value))
    ensures Names(Insert(h, name, value)) == Names(h) + {name}
    ensures Get(Insert(h, name, value), name) == Some(value)
    ensures forall other :: other != name ==> Get(Insert(h, name, value), other) == Get(h, other)
  {
    var r := Insert(h, name, value);
    assert r == [Header(name, value)] + h[1..];
    NamesCons(h);
    NamesCons(r);
    assert r[1..] == h[1..];
    assert Sorted(r) by {
      forall i, j | 0 <= i < j < |r| ensures StrLess(r[i].name, r[j].name) {
        assert r[j] == h[j];
        if i > 0 { assert r[i] == h[i]; }
      }
    }
  }

  lemma InsertAfter(h: HeaderMap, name: string, value: string)
    requires Sorted(h) && |h| > 0 && h[0].name != name && !StrLess(name, h[0].name)
    requires Sorted(Insert(h[1..], name, value))
    requires Names(Insert(h[1..], name, value)) == Names(h[1..]) + {name}
    requires Get(Insert(h[1..], name, value), name) == Some(value)
    requires forall other :: other != name ==> Get(Insert(h[1..], name, value), other) == Get(h[1..], other)
    ensures Sorted(Insert(h, name, value))
    ensures Names(Insert(h, name, value)) == Names(h) + {name}
    ensures Get(Insert(h, name, value), name) == Some(value)
    ensures forall other :: other != name ==> Get(Insert(h, name, value), other) == Get(h, other)
  {
    var rt := Insert(h[1..], name, value);
    var r := Insert(h, name, value);
    assert r == [h[0]] + rt;
    assert r[1..] == rt;
    NamesCons(r);
    NamesCons(h);
    InsertAfterSorted(h, name, rt);
  }

  lemma InsertAfterSorted(h: HeaderMap, name: string, rt: HeaderMap)
    requires Sorted(h) && |h| > 0 && h[0].name != name && !StrLess(name, h[0].name)
    requires Sorted(rt) && Names(rt) == Names(h[1..]) + {name}
    ensures Sorted([h[0]] + rt)
  {
    StrLessTotal(name, h[0].name);
    var t := h[1..];
    var r := [h[0]] + rt;
    forall j | 0 <= j < |rt| ensures StrLess(h[0].name, rt[j].name) {
      assert rt[j].name in Names(rt);
      if rt[j].name != name {
        var k :| 0 <= k < |t| && t[k].name == rt[j].name;
        assert h[k + 1].name == t[k].name;
      }
    }
    forall i, j | 0 <= i < j < |r| ensures StrLess(r[i].name, r[j].name) {
      assert r[j] == rt[j - 1];
      if i > 0 { assert r[i] == rt[i - 1]; }
    }
  }

  lemma InsertBefore(h: HeaderMap, name: string, value: string)
    requires Sorted(h) && |h| > 0 && StrLess(name, h[0].name)
    ensures Insert(h, name, value) == [Header(name, value)] + h
    ensures Sorted(Insert(h, name, value))
    ensures Names(Insert(h, name, value)) == Names(h) + {name}
    ensures Get(Insert(h, name, value), name) == Some(value)
    ensures forall other :: other != name ==> Get(Insert(h, name, value), other) == Get(h, other)
  {
    var x := Header(name, value);
    var r := [x] + h;
    StrLessIrreflexive(name);
    assert Insert(h, name, value) == r;
    SortedCons(x, h);
    NamesCons(r);
    assert r[1..] == h;
    forall other { GetCons(x, h, other); }
  }

  /** A header whose name sorts before a sorted map's first one can be put
      in front of it. */
  lemma SortedCons(x: Header, t: HeaderMap)
    requires Sorted(t) && |t| > 0 && StrLess(x.name, t[0].name)
    ensures Sorted([x] + t)
  {
    var r := [x] + t;
    forall i, j | 0 <= i < j < |r| ensures StrLess(r[i].name, r[j].name) {
      if i == 0 {
        assert r[j] == t[j - 1];
        if j > 1 { StrLessTransitive(x.name, t[0].name, t[j - 1].name); }
      } else {
        assert r[i] == t[i - 1] && r[j] == t[j - 1];
      }
    }
  }

  /** A lookup in a map with a header in front of it. */
  lemma GetCons(x: Header, t: HeaderMap, name: string)
    ensures Get([x] + t, name) == if x.name == name then Some(x.value) else Get(t, name)
  {
    assert ([x] + t)[1..] == t;
  }

  /** In a sorted map, the first header's name does not occur again, so
      replacing the first header leaves every other lookup unchanged. */
  lemma GetSortedTail(h: HeaderMap, name: string)
    requires Sorted(h) && |h| > 0 && h[0].name == name
    ensures name !in Names(h[1..])
  {
    if name in Names(h[1..]) {
      var k :| 0 <= k < |h[1..]| && h[1..][k].name == name;
      assert StrLess(h[0].name, h[k + 1].name);
      StrLessIrreflexive(name);
    }
  }

  lemma NamesCons(h: HeaderMap)
    requires |h| > 0
    ensures Names(h) == {h[0].name} + Names(h[1..])
  {
    forall n | n in Names(h) ensures n in {h[0].name} + Names(h[1..]) {
      var k :| 0 <= k < |h| && h[k].name == n;
      if k > 0 { assert h[1..][k - 1].name == n; }
    }
    forall n | n in Names(h[1..]) ensures n in Names(h) {
      var k :| 0 <= k < |h[1..]| && h[1..][k].name == n;
      assert h[k + 1].name == n;
    }
  }

  /** One serialised header field, "name: value" CRLF. */
  function HeaderLine(h: Header): string
  {
    h.name + ": " + h.value + CRLF
  }

  /** The header fields in map order. */
  function HeaderLines(h: HeaderMap): string
  {
    if |h| == 0 then "" else HeaderLines(h[..|h| - 1]) + HeaderLine(h[|h| - 1])
  }

  /** "HTTP/1.1 <code> <text>" CRLF. */
  function StatusLine(s: Status): string
  {
    "HTTP/1.1 " + Number(s.code) + " " + s.text + CRLF
  }
}
