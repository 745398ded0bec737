/**
 * The query-string part of Http::perform: http_build_query, parse_str,
 * parse_url/http_build_url on a URL with a '?', and the merge itself. The
 * encoding is "key=value" pairs joined by '&', without percent-encoding.
 */
module Query {
  import opened Wrappers
  import opened PhpStrings
  import opened Assoc

  /** Query or form parameters: an ordered string-keyed PHP array. */
  type Params = seq<(string, string)>

  function Pieces(e: Params): (ps: seq<string>)
    ensures |ps| == |e|
    ensures forall i :: 0 <= i < |e| ==> ps[i] == e[i].0 + "=" + e[i].1
  {
    seq(|e|, i requires 0 <= i < |e| => e[i].0 + "=" + e[i].1)
  }

  /** http_build_query($e): "k1=v1&k2=v2…" in array order, "" for an empty array. */
  function BuildQuery(e: Params): string
  {
    Implode(Pieces(e), '&')
  }

  /** One '&'-separated piece of a query string: split at its first '='. */
  function PieceOf(p: string): (kv: (string, string))
    ensures '=' !in kv.0
    ensures p == kv.0 + "=" + kv.1 || (p == kv.0 && kv.1 == "")
  {
    match SplitFirst(p, '=')
    case Some((k, v)) => (k, v)
    case None => (p, "")
  }

  /** The spaces parse_str ignores at the start of a name. */
  function DropLeadingSpaces(k: string): (r: string)
    ensures |r| <= |k| && r == k[|k| - |r|..]
    ensures r == [] || r[0] != ' '
  {
    if k != [] && k[0] == ' ' then DropLeadingSpaces(k[1..]) else k
  }

  /** Each '.' and ' ' of a name becomes '_'. */
  function Underscored(k: string): (r: string)
    ensures |r| == |k|
    ensures forall i :: 0 <= i < |k| ==> r[i] == if k[i] == '.' || k[i] == ' ' then '_' else k[i]
  {
    seq(|k|, i requires 0 <= i < |k| => if k[i] == '.' || k[i] == ' ' then '_' else k[i])
  }

  /**
   * The name parse_str registers a parameter under: leading spaces dropped,
   * then every remaining '.' and ' ' turned into '_'.
   */
  function VarName(k: string): string
  {
    Underscored(DropLeadingSpaces(k))
  }

  /** A name parse_str keeps as it is: no '.' and no ' '. */
  predicate PlainName(k: string) {
    '.' !in k && ' ' !in k
  }

  /** A registered name is plain, and a character other than '_' gets into it only from the name written. */
  lemma VarNameChars(k: string, c: char)
    ensures PlainName(VarName(k))
    ensures c !in k && c != '_' ==> c !in VarName(k)
  {
    var d := DropLeadingSpaces(k);
    assert forall i :: 0 <= i < |d| ==> d[i] == k[|k| - |d| + i];
  }

  /** parse_str keeps a name exactly when the name is plain. */
  lemma VarNameFixed(k: string)
    ensures VarName(k) == k <==> PlainName(k)
  {
    VarNameChars(k, ' ');
    if PlainName(k) {
      assert k == [] || k[0] != ' ';
      assert DropLeadingSpaces(k) == k;
      assert Underscored(k) == k;
    }
  }

  /** What parse_str does with one piece: a piece whose registered name is empty is dropped. */
  function AddPiece(a: Params, p: string): Params
  {
    var (k, v) := PieceOf(p);
    var name := VarName(k);
    if name == "" then a else Set(a, name, v)
  }

  function ParsePieces(ps: seq<string>): Params
  {
    if ps == [] then [] else AddPiece(ParsePieces(ps[..|ps| - 1]), ps[|ps| - 1])
  }

  /** Parsed names are distinct, non-empty, plain and free of '='. */
  lemma {:induction false} ParsePiecesNames(ps: seq<string>)
    ensures DistinctKeys(ParsePieces(ps))
    ensures forall j :: 0 <= j < |ParsePieces(ps)| ==>
      ParsePieces(ps)[j].0 != "" && '=' !in ParsePieces(ps)[j].0 && PlainName(ParsePieces(ps)[j].0)
  {
    if ps != [] {
      var a := ParsePieces(ps[..|ps| - 1]);
      ParsePiecesNames(ps[..|ps| - 1]);
      var (k, v) := PieceOf(ps[|ps| - 1]);
      var name := VarName(k);
      VarNameChars(k, '=');
      if name != "" {
        SetDistinct(a, name, v);
        SetEntries(a, name, v);
      }
    }
  }

  /** A character absent from every piece is absent from every parsed name and value. */
  lemma {:induction false} ParsePiecesAvoid(ps: seq<string>, c: char)
    requires c != '_'
    requires forall i :: 0 <= i < |ps| ==> c !in ps[i]
    ensures forall j :: 0 <= j < |ParsePieces(ps)| ==> c !in ParsePieces(ps)[j].0 && c !in ParsePieces(ps)[j].1
  {
    if ps != [] {
      var init := ps[..|ps| - 1];
      ParsePiecesAvoid(init, c);
      var p := ps[|ps| - 1];
      var (k, v) := PieceOf(p);
      var name := VarName(k);
      if name != "" {
        SetEntries(ParsePieces(init), name, v);
      }
      assert c !in p;
      assert c !in k && c !in v by {
        if p == k + "=" + v {
          assert forall x :: x in k ==> x in p;
          assert forall x :: x in v ==> x in p;
        }
      }
      VarNameChars(k, c);
    }
  }

  /** parse_str($q, $params), on the same simplified encoding, with its renaming of names. */
  function ParseStr(q: string): (r: Params)
  {
    ParsePieces(Explode(q, '&'))
  }

  /** Parameters that BuildQuery writes and ParseStr reads back unchanged. */
  predicate Encodable(e: Params) {
    && DistinctKeys(e)
    && forall i :: 0 <= i < |e| ==>
         e[i].0 != "" && '=' !in e[i].0 && '&' !in e[i].0 && '&' !in e[i].1 && PlainName(e[i].0)
  }

  /** What parse_str produces is always encodable again. */
  lemma ParseStrEncodable(q: string)
    ensures Encodable(ParseStr(q))
  {
    ParsePiecesNames(Explode(q, '&'));
    ParsePiecesAvoid(Explode(q, '&'), '&');
  }

  /** No '#' anywhere in the parameters, which would otherwise start a fragment. */
  predicate NoHash(e: Params) {
    forall i :: 0 <= i < |e| ==> '#' !in e[i].0 && '#' !in e[i].1
  }

  lemma ParseStrNoHash(q: string)
    requires '#' !in q
    ensures NoHash(ParseStr(q))
  {
    var ps := Explode(q, '&');
    assert Implode(ps, '&') == q by {
      ImplodeExplode(q, '&');
    }
    forall i | 0 <= i < |ps| ensures '#' !in ps[i] {
      ImplodeContains(ps, '&', i);
    }
    ParsePiecesAvoid(ps, '#');
  }

  lemma {:induction false} ParsePairs(e: Params)
    requires Encodable(e)
    ensures ParsePieces(Pieces(e)) == e
  {
    if e != [] {
      var n := |e| - 1;
      EncodablePrefix(e, n);
      ParsePairs(e[..n]);
      PiecesLast(e, n);
      FreshKey(e, n);
      var (k, v) := e[n];
      assert k != "" && '=' !in k && PlainName(k);
      ParseSnoc(Pieces(e), e[..n], k, v);
      SnocLast(e);
    }
  }

  lemma SnocLast<T>(s: seq<T>)
    requires s != []
    ensures s[..|s| - 1] + [s[|s| - 1]] == s
  {
  }

  /** Reading one more piece "k=v" with a fresh name k appends (k, v). */
  lemma ParseSnoc(ps: seq<string>, a: Params, k: string, v: string)
    requires ps != [] && ParsePieces(ps[..|ps| - 1]) == a && ps[|ps| - 1] == k + "=" + v
    requires k != "" && '=' !in k && PlainName(k) && Lookup(a, k).None?
    ensures ParsePieces(ps) == a + [(k, v)]
  {
    AddFreshPiece(a, k, v);
  }

  lemma PiecesLast(e: Params, n: nat)
    requires n == |e| - 1
    ensures Pieces(e)[..n] == Pieces(e[..n]) && Pieces(e)[n] == e[n].0 + "=" + e[n].1
  {
  }

  lemma AddFreshPiece(a: Params, k: string, v: string)
    requires k != "" && '=' !in k && PlainName(k) && Lookup(a, k).None?
    ensures AddPiece(a, k + "=" + v) == a + [(k, v)]
  {
    VarNameFixed(k);
    assert k + "=" + v == k + ['='] + v;
    SplitFirstAt(k, '=', v);
    SetNew(a, k, v);
  }

  lemma EncodablePrefix(e: Params, n: nat)
    requires Encodable(e) && n <= |e|
    ensures Encodable(e[..n])
  {
    assert forall i :: 0 <= i < n ==> e[..n][i] == e[i];
  }

  lemma FreshKey(e: Params, n: nat)
    requires DistinctKeys(e) && n < |e|
    ensures Lookup(e[..n], e[n].0).None?
  {
    forall i | 0 <= i < n ensures e[..n][i].0 != e[n].0 {
      assert e[..n][i] == e[i];
    }
    LookupNone(e[..n], e[n].0);
  }

  /** parse_str reads back what http_build_query writes. */
  lemma ParseBuild(e: Params)
    requires Encodable(e)
    ensures ParseStr(BuildQuery(e)) == e
  {
    if e == [] {
      assert Explode("", '&') == [""];
      assert [""][..0] == [];
    } else {
      forall i | 0 <= i < |e| ensures '&' !in Pieces(e)[i] {
        var (k, v) := e[i];
        assert Pieces(e)[i] == k + "=" + v;
      }
      ExplodeImplode(Pieces(e), '&');
      ParsePairs(e);
    }
  }

  /**
   * What parse_url gives for a URL holding a '?': the text before the first
   * '?', the query up to the first '#' after it, and the fragment.
   */
  datatype Components = Components(base: string, query: string, fragment: Option<string>)

  function ParseUrl(url: string): (c: Components)
    requires '?' in url
    ensures '?' !in c.base && '#' !in c.query
  {
    var (base, rest) := SplitFirst(url, '?').value;
    var (q, f) := SplitFragment(rest);
    Components(base, q, f)
  }

  /** The query and the fragment of what follows the '?', split at the first '#'. */
  function SplitFragment(rest: string): (qf: (string, Option<string>))
    ensures '#' !in qf.0
  {
    match SplitFirst(rest, '#')
    case None => (rest, None)
    case Some((q, f)) => (q, Some(f))
  }

  /** The fragment as written after the query: "#f", or nothing. */
  function FragmentText(f: Option<string>): string
  {
    match f
    case None => ""
    case Some(f) => "#" + f
  }

  /** http_build_url of such components. */
  function BuildUrl(c: Components): string
  {
    c.base + "?" + c.query + FragmentText(c.fragment)
  }

  lemma JoinFragment(rest: string)
    ensures SplitFragment(rest).0 + FragmentText(SplitFragment(rest).1) == rest
  {
    var r := SplitFirst(rest, '#');
    if r.Some? {
      var q, f := r.value.0, r.value.1;
      assert SplitFragment(rest) == (q, Some(f));
      assert rest == q + ['#'] + f;
      assert FragmentText(Some(f)) == ['#'] + f;
      assert q + (['#'] + f) == rest;
    } else {
      assert SplitFragment(rest) == (rest, None);
    }
  }


  lemma BuildParts(c: Components, rest: string)
    requires c.query + FragmentText(c.fragment) == rest
    ensures BuildUrl(c) == c.base + "?" + rest
  {
  }

  /** Reassembling a decomposed URL gives the URL back. */
  lemma BuildParseUrl(url: string)
    requires '?' in url
    ensures BuildUrl(ParseUrl(url)) == url
  {
    var (base, rest) := SplitFirst(url, '?').value;
    JoinFragment(rest);
    BuildParts(ParseUrl(url), rest);
  }

  /** Decomposing an assembled URL gives the components back. */
  lemma ParseBuildUrl(c: Components)
    requires '?' !in c.base && '#' !in c.query
    ensures ParseUrl(BuildUrl(c)) == c
  {
    var tail := c.query + FragmentText(c.fragment);
    assert BuildUrl(c) == c.base + ['?'] + tail;
    SplitFirstAt(c.base, '?', tail);
    match c.fragment
    case None =>
      assert tail == c.query;
    case Some(f) =>
      assert tail == c.query + ['#'] + f;
      SplitFirstAt(c.query, '#', f);
  }

  /**
   * The URL Http::perform requests: unchanged for an empty query; with the
   * parameters already in the URL merged as `$params + $query` when it holds
   * a '?'; with "?" and the encoded query appended otherwise.
   */
  function MergeQuery(url: string, query: Params): string
  {
    if query == [] then url
    else if '?' in url then
      var c := ParseUrl(url);
      BuildUrl(c.(query := BuildQuery(Union(ParseStr(c.query), query))))
    else url + "?" + BuildQuery(query)
  }

  /** The parameters already in the URL, as parse_str reads them (none without a '?'). */
  function Existing(url: string): Params
  {
    if '?' in url then ParseStr(ParseUrl(url).query) else []
  }

  /** The everything-before-the-query part Http::perform keeps. */
  function Base(url: string): string
  {
    if '?' in url then ParseUrl(url).base else url
  }

  /** An empty query leaves the URL as it is. */
  lemma EmptyQueryKeepsUrl(url: string)
    ensures MergeQuery(url, []) == url
  {
  }

  /** Without a '?' in the URL, the encoded query is appended after a '?'. */
  lemma PlainUrlGetsQuery(url: string, query: Params)
    requires query != [] && '?' !in url
    ensures MergeQuery(url, query) == url + "?" + BuildQuery(query)
  {
  }

  lemma BuildQueryNoHash(e: Params)
    requires NoHash(e)
    ensures '#' !in BuildQuery(e)
  {
    forall i | 0 <= i < |e| ensures '#' !in Pieces(e)[i] {
      assert Pieces(e)[i] == e[i].0 + "=" + e[i].1;
    }
    ImplodeAvoid(Pieces(e), '&', '#');
  }

  lemma UnionKeepsForm(a: Params, b: Params)
    requires Encodable(a) && Encodable(b) && NoHash(a) && NoHash(b)
    ensures Encodable(Union(a, b)) && NoHash(Union(a, b))
  {
    var u := Union(a, b);
    UnionDistinct(a, b);
    UnionEntries(a, b);
    forall j | 0 <= j < |u|
      ensures u[j].0 != "" && '=' !in u[j].0 && '&' !in u[j].0 && '&' !in u[j].1 && PlainName(u[j].0)
      ensures '#' !in u[j].0 && '#' !in u[j].1
    {
      if u[j] in a {
        var i :| 0 <= i < |a| && a[i] == u[j];
      } else {
        var i :| 0 <= i < |b| && b[i] == u[j];
      }
    }
  }

  /**
   * Reading the query back from the merged URL gives `$params + $query`: a
   * parameter already in the URL keeps the URL's value, and every caller
   * parameter the URL lacks is added with the caller's value. The part before
   * the query and any fragment are kept.
   */
  lemma MergeKeepsUrlValues(url: string, query: Params)
    requires query != [] && Encodable(query) && NoHash(query)
    requires '#' !in Base(url)
    ensures '?' in MergeQuery(url, query)
    ensures ParseUrl(MergeQuery(url, query)).base == Base(url)
    ensures ParseStr(ParseUrl(MergeQuery(url, query)).query) == Union(Existing(url), query)
    ensures forall k :: Lookup(ParseStr(ParseUrl(MergeQuery(url, query)).query), k)
                     == if Lookup(Existing(url), k).Some? then Lookup(Existing(url), k) else Lookup(query, k)
    ensures '?' in url ==> ParseUrl(MergeQuery(url, query)).fragment == ParseUrl(url).fragment
  {
    if '?' in url {
      MergeIntoQuery(url, query);
    } else {
      MergeIntoPlain(url, query);
    }
  }

  lemma MergeIntoQuery(url: string, query: Params)
    requires query != [] && Encodable(query) && NoHash(query) && '?' in url
    ensures '?' in MergeQuery(url, query)
    ensures ParseUrl(MergeQuery(url, query)) == ParseUrl(url).(query := BuildQuery(Union(Existing(url), query)))
    ensures ParseStr(ParseUrl(MergeQuery(url, query)).query) == Union(Existing(url), query)
  {
    var c := ParseUrl(url);
    ParseStrEncodable(c.query);
    ParseStrNoHash(c.query);
    var u := Union(ParseStr(c.query), query);
    UnionKeepsForm(ParseStr(c.query), query);
    ParseBuild(u);
    MergedQueryWritten(url, query);
  }

  /**
   * Whatever the caller's names, a URL holding a '?' keeps its base and
   * fragment, and its query becomes the encoding of `$params + $query`,
   * with `$params` the URL's parameters under the names parse_str gave them.
   */
  lemma MergedQueryWritten(url: string, query: Params)
    requires query != [] && NoHash(query) && '?' in url
    ensures '?' in MergeQuery(url, query)
    ensures ParseUrl(MergeQuery(url, query)) == ParseUrl(url).(query := BuildQuery(Union(Existing(url), query)))
  {
    var c := ParseUrl(url);
    ParseStrNoHash(c.query);
    var u := Union(ParseStr(c.query), query);
    UnionEntries(ParseStr(c.query), query);
    assert NoHash(u) by {
      forall j | 0 <= j < |u| ensures '#' !in u[j].0 && '#' !in u[j].1 {
        if u[j] in ParseStr(c.query) {
          var i :| 0 <= i < |ParseStr(c.query)| && ParseStr(c.query)[i] == u[j];
        } else {
          var i :| 0 <= i < |query| && query[i] == u[j];
        }
      }
    }
    BuildQueryNoHash(u);
    ParseBuildUrl(c.(query := BuildQuery(u)));
  }

  lemma MergeIntoPlain(url: string, query: Params)
    requires query != [] && Encodable(query) && NoHash(query) && '?' !in url && '#' !in url
    ensures '?' in MergeQuery(url, query)
    ensures ParseUrl(MergeQuery(url, query)) == Components(url, BuildQuery(query), None)
    ensures ParseStr(ParseUrl(MergeQuery(url, query)).query) == Union(Existing(url), query)
  {
    BuildQueryNoHash(query);
    ParseBuild(query);
    var c := Components(url, BuildQuery(query), None);
    ParseBuildUrl(c);
    assert BuildUrl(c) == url + "?" + BuildQuery(query);
    UnionEmptyLeft(query);
  }

  /**
   * `$params + $query` with "a=1" already in the URL and a=2, b=3 from the
   * caller: a keeps the URL's 1, b is added, and the query written is "a=1&b=3".
   */
  lemma UrlValueWinsExample()
    ensures Union([("a", "1")], [("a", "2"), ("b", "3")]) == [("a", "1"), ("b", "3")]
    ensures BuildQuery([("a", "1"), ("b", "3")]) == "a=1&b=3"
  {
    assert Missing([("b", "3")], [("a", "1")]) == [("b", "3")];
    var pieces := ["a" + "=" + "1", "b" + "=" + "3"];
    assert Pieces([("a", "1"), ("b", "3")]) == pieces;
    assert Implode(pieces, '&') == pieces[0] + ['&'] + pieces[1];
    assert "a" + "=" + "1" + ['&'] + ("b" + "=" + "3") == "a=1&b=3";
  }

  /**
   * The collision through the whole merge: "base?k=v" merged with k=w and
   * k2=w2 is requested as "base?k=v&k2=w2", the URL's v kept and k2 added.
   */
  lemma UrlValueWins(base: string, k: string, v: string, w: string, k2: string, w2: string)
    requires '?' !in base
    requires '#' !in k && '#' !in v && '&' !in k && '&' !in v && '=' !in k
    requires k != "" && PlainName(k) && k2 != k
    ensures MergeQuery(base + "?" + k + "=" + v, [(k, w), (k2, w2)])
         == base + "?" + (k + "=" + v + "&" + k2 + "=" + w2)
  {
    var rest := k + "=" + v;
    var url := base + "?" + rest;
    assert base + "?" + k + "=" + v == url;
    assert '#' !in rest;
    UrlWithQuery(base, rest);
    var c := Components(base, rest, None);
    VarNameFixed(k);
    ParseOnePair(k, v);
    UnionOfShared(k, v, w, k2, w2);
    var q := k + "=" + v + "&" + k2 + "=" + w2;
    assert BuildQuery(Union(ParseStr(rest), [(k, w), (k2, w2)])) == q by {
      BuildTwo((k, v), (k2, w2));
    }
    assert MergeQuery(url, [(k, w), (k2, w2)]) == BuildUrl(c.(query := q));
    assert BuildUrl(c.(query := q)) == base + "?" + q;
  }

  /**
   * parse_str renames a name holding '.' or ' ' (after any leading spaces)
   * in the URL, so the caller's parameter of the same written name is a
   * different key and is added: "base?k=v" merged with k=w is requested as
   * "base?k'=v&k=w", with k' the renamed name.
   */
  lemma RenamedNameKept(base: string, k: string, v: string, w: string)
    requires '?' !in base
    requires '#' !in k && '#' !in v && '&' !in k && '&' !in v && '=' !in k
    requires VarName(k) != "" && !PlainName(k)
    ensures MergeQuery(base + "?" + k + "=" + v, [(k, w)])
         == base + "?" + (VarName(k) + "=" + v + "&" + k + "=" + w)
  {
    var rest, n := k + "=" + v, VarName(k);
    var url := base + "?" + rest;
    assert base + "?" + k + "=" + v == url;
    assert '#' !in rest;
    UrlWithQuery(base, rest);
    var c := Components(base, rest, None);
    ParseOnePair(k, v);
    VarNameFixed(k);
    UnionOfFresh(n, v, k, w);
    var q := n + "=" + v + "&" + k + "=" + w;
    assert BuildQuery(Union(ParseStr(rest), [(k, w)])) == q by {
      BuildTwo((n, v), (k, w));
    }
    assert MergeQuery(url, [(k, w)]) == BuildUrl(c.(query := q));
    assert BuildUrl(c.(query := q)) == base + "?" + q;
  }

  lemma UrlWithQuery(base: string, rest: string)
    requires '?' !in base && '#' !in rest
    ensures '?' in base + "?" + rest
    ensures ParseUrl(base + "?" + rest) == Components(base, rest, None)
    ensures BuildUrl(Components(base, rest, None)) == base + "?" + rest
  {
    assert base + "?" + rest == base + ['?'] + rest;
    SplitFirstAt(base, '?', rest);
  }

  lemma ParseOnePair(k: string, v: string)
    requires '&' !in k && '&' !in v && '=' !in k && VarName(k) != ""
    ensures ParseStr(k + "=" + v) == [(VarName(k), v)]
  {
    var rest := k + "=" + v;
    assert '&' !in rest;
    assert Explode(rest, '&') == [rest];
    assert rest == k + ['='] + v;
    SplitFirstAt(k, '=', v);
    assert PieceOf(rest) == (k, v);
    assert [rest][..0] == [];
    assert ParsePieces([rest]) == AddPiece([], rest);
    SetNew([], VarName(k), v);
  }

  lemma UnionOfFresh(n: string, v: string, k: string, w: string)
    requires n != k
    ensures Union([(n, v)], [(k, w)]) == [(n, v), (k, w)]
  {
    assert Lookup([(n, v)], k).None?;
    assert [(k, w)][1..] == [];
    assert Missing([(k, w)], [(n, v)]) == [(k, w)] + Missing([], [(n, v)]);
  }

  lemma UnionOfShared(k: string, v: string, w: string, k2: string, w2: string)
    requires k2 != k
    ensures Union([(k, v)], [(k, w), (k2, w2)]) == [(k, v), (k2, w2)]
  {
    var a, b := [(k, v)], [(k, w), (k2, w2)];
    assert Lookup(a, k).Some?;
    assert Lookup(a, k2).None?;
    assert b[1..] == [(k2, w2)] && b[1..][1..] == [];
    assert Missing(b, a) == Missing(b[1..], a);
    assert Missing(b[1..], a) == [(k2, w2)] + Missing([], a);
  }

  lemma BuildTwo(a: (string, string), b: (string, string))
    ensures BuildQuery([a, b]) == a.0 + "=" + a.1 + "&" + b.0 + "=" + b.1
  {
    var pieces := [a.0 + "=" + a.1, b.0 + "=" + b.1];
    assert Pieces([a, b]) == pieces;
    assert Implode(pieces, '&') == pieces[0] + ['&'] + pieces[1];
  }

  /** parse_str reads the name "a.b" as "a_b". */
  lemma DotRenamed()
    ensures VarName("a.b") == "a_b"
  {
    assert DropLeadingSpaces("a.b") == "a.b";
  }
}
