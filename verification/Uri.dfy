/** URIs as src/URI.cpp builds and parses them (section 3 of RFC 2396). */
module Uris {

  // ----- strings: find and substr, with npos written as -1

  const NPOS := -1

  predicate Occurs(s: string, pat: string, at: nat)
    requires at + |pat| <= |s|
  {
    forall j :: 0 <= j < |pat| ==> s[at + j] == pat[j]
  }

  /** The first place at or after `start` where pat occurs. */
  function Find(s: string, pat: string, start: nat): (r: int)
    requires pat != []
    ensures r == NPOS || start <= r <= |s| - |pat|
    decreases |s| - start
  {
    if start + |pat| > |s| then NPOS
    else if Occurs(s, pat, start) then start
    else Find(s, pat, start + 1)
  }

  /** substr(from, to - from), where `to` may be npos: the count is then clamped to the end. */
  function Cut(s: string, from: nat, to: int): string
    requires from <= |s| && (to == NPOS || from <= to <= |s|)
  {
    if to == NPOS then s[from..] else s[from..to]
  }

  lemma {:induction false} FindAt(s: string, pat: string, start: nat, k: nat)
    requires |pat| == 1 && start <= k < |s| && s[k] == pat[0] && forall j :: start <= j < k ==> s[j] != pat[0]
    ensures Find(s, pat, start) == k
    decreases k - start
  {
    if start < k {
      assert s[start + 0] != pat[0];
      FindAt(s, pat, start + 1, k);
    } else {
      assert s[k + 0] == pat[0];
    }
  }

  lemma {:induction false} FindSome(s: string, pat: string, start: nat, k: nat)
    requires |pat| == 1 && start <= k < |s| && s[k] == pat[0]
    ensures Find(s, pat, start) != NPOS
    decreases k - start
  {
    if start < k {
      FindSome(s, pat, start + 1, k);
    } else {
      assert s[k + 0] == pat[0];
    }
  }

  lemma {:induction false} FindBeyond(s: string, pat: string, start: nat, k: nat)
    requires |pat| == 1 && start <= k <= |s| && forall j :: start <= j < k ==> s[j] != pat[0]
    ensures Find(s, pat, start) == NPOS || k <= Find(s, pat, start)
    decreases k - start
  {
    if start < k {
      assert s[start + 0] != pat[0];
      FindBeyond(s, pat, start + 1, k);
    }
  }

  /** The first delimiter from `start` on ends the piece a, which has none. */
  lemma FindPiece(s: string, start: nat, a: string, pat: string, b: string)
    requires start <= |s| && s[start..] == a + pat + b && |pat| == 1 && pat[0] !in a
    ensures var k := start + |a|;
      k < |s| && Find(s, pat, start) == k && s[start..k] == a && s[k + 1..] == b
  {
    var k, t := start + |a|, s[start..];
    assert s[k] == t[|a|] == pat[0];
    forall j | start <= j < k ensures s[j] != pat[0] {
      assert s[j] == t[j - start] == a[j - start];
    }
    FindAt(s, pat, start, k);
    assert t[..|a|] == a;
    assert t[|a| + 1..] == b;
  }

  lemma FindNoPiece(s: string, start: nat, a: string, pat: string)
    requires start <= |s| && s[start..] == a && |pat| == 1 && pat[0] !in a
    ensures Find(s, pat, start) == NPOS
  {
    forall j | start <= j < |s| ensures s[j] != pat[0] {
      assert s[j] == a[j - start];
    }
    FindBeyond(s, pat, start, |s|);
  }

  lemma Assoc(a: string, b: string, c: string)
    ensures a + b + c == a + (b + c)
  {
  }

  // ----- the query

  datatype QueryParam = QueryParam(key: string, param: string)

  datatype Pairs = Pairs(ok: bool, params: seq<QueryParam>)

  function Join(ps: seq<QueryParam>): string {
    if ps == [] then ""
    else
      var first := ps[0].key + "=" + ps[0].param;
      if |ps| == 1 then first else first + ("&" + Join(ps[1..]))
  }

  /** The pairs of a query from `start`: a key runs to the next '=', its value to the next '&', and text behind
      the last '=' and '&' is dropped. */
  function ParsePairs(q: string, start: nat): Pairs
    requires start <= |q|
    decreases |q| - start
  {
    var eq := Find(q, "=", start);
    if eq == NPOS then Pairs(false, [])
    else
      var amp := Find(q, "&", eq + 1);
      var pair := QueryParam(q[start..eq], Cut(q, eq + 1, amp));
      if amp == NPOS || Find(q, "=", amp + 1) == NPOS then Pairs(true, [pair])
      else
        var rest := ParsePairs(q, amp + 1);
        Pairs(rest.ok, [pair] + rest.params)
  }

  function ParseQueryText(q: string): Pairs {
    if q == "" then Pairs(true, []) else ParsePairs(q, 0)
  }

  /** Parsing fails exactly when a query holds text but no '='. */
  lemma QueryFailsIff(q: string)
    ensures !ParseQueryText(q).ok <==> q != "" && '=' !in q
  {
    PairsOk(q, 0);
    if '=' in q {
      var k :| 0 <= k < |q| && q[k] == '=';
      FindSome(q, "=", 0, k);
    } else {
      FindBeyond(q, "=", 0, |q|);
    }
  }

  lemma {:induction false} PairsOk(q: string, start: nat)
    requires start <= |q|
    ensures ParsePairs(q, start).ok <==> Find(q, "=", start) != NPOS
    decreases |q| - start
  {
    hide Find;
    var eq := Find(q, "=", start);
    if eq != NPOS {
      var amp := Find(q, "&", eq + 1);
      if amp != NPOS {
        PairsOk(q, amp + 1);
      }
    }
  }

  predicate ParamOk(p: QueryParam) {
    '=' !in p.key && '&' !in p.param
  }

  /** A pair key=param& sits at `start`, and these are the first delimiters. */
  predicate PairBefore(q: string, start: nat, key: string, param: string) {
    var eq := start + |key|;
    var amp := eq + 1 + |param|;
    && amp < |q|
    && Find(q, "=", start) == eq && q[start..eq] == key
    && Find(q, "&", eq + 1) == amp && q[eq + 1..amp] == param
  }

  /** The whole text from `start` on reads as the pairs ps. */
  predicate ParsesTo(q: string, start: nat, ps: seq<QueryParam>) {
    start <= |q| && ParsePairs(q, start) == Pairs(true, ps)
  }

  lemma PairBeforeParses(q: string, start: nat, k: string, v: string, next: nat, rest: seq<QueryParam>)
    requires PairBefore(q, start, k, v) && next == start + |k| + 1 + |v| + 1 && ParsesTo(q, next, rest)
    ensures ParsesTo(q, start, [QueryParam(k, v)] + rest)
  {
    hide Find;
  }

  /** A pair key=param sits at `start` and ends the query. */
  predicate PairAtEnd(q: string, start: nat, key: string, param: string) {
    var eq := start + |key|;
    && eq < |q|
    && Find(q, "=", start) == eq && q[start..eq] == key
    && Find(q, "&", eq + 1) == NPOS && q[eq + 1..] == param
  }

  lemma PairAtEndParses(q: string, start: nat, k: string, v: string)
    requires PairAtEnd(q, start, k, v)
    ensures ParsesTo(q, start, [QueryParam(k, v)])
  {
  }

  lemma DelimitersBefore(q: string, start: nat, k: string, v: string, t: string)
    requires ParamOk(QueryParam(k, v)) && start <= |q| && q[start..] == k + "=" + v + ("&" + t)
    ensures PairBefore(q, start, k, v) && q[start + |k| + 1 + |v| + 1..] == t
  {
    hide Find;
    Assoc(k + "=", v, "&" + t);
    FindPiece(q, start, k, "=", v + ("&" + t));
    Assoc(v, "&", t);
    FindPiece(q, start + |k| + 1, v, "&", t);
  }

  lemma DelimitersAtEnd(q: string, start: nat, k: string, v: string)
    requires ParamOk(QueryParam(k, v)) && start <= |q| && q[start..] == k + "=" + v
    ensures PairAtEnd(q, start, k, v)
  {
    FindPiece(q, start, k, "=", v);
    FindNoPiece(q, start + |k| + 1, v, "&");
  }

  /** A query joined from parameters parses back to them, wherever in the text it starts. */
  lemma {:induction false} PairsRoundTrip(q: string, start: nat, ps: seq<QueryParam>)
    requires ps != [] && forall p :: p in ps ==> ParamOk(p)
    requires start <= |q| && q[start..] == Join(ps)
    ensures ParsesTo(q, start, ps)
    decreases |ps|
  {
    hide Find, ParsePairs;
    var k, v := ps[0].key, ps[0].param;
    assert ParamOk(ps[0]);
    if |ps| == 1 {
      DelimitersAtEnd(q, start, k, v);
      PairAtEndParses(q, start, k, v);
      assert ps == [ps[0]];
    } else {
      DelimitersBefore(q, start, k, v, Join(ps[1..]));
      var next := start + |k| + 1 + |v| + 1;
      PairsRoundTrip(q, next, ps[1..]);
      PairBeforeParses(q, start, k, v, next, ps[1..]);
      assert ps == [ps[0]] + ps[1..];
    }
  }

  // ----- the whole URI

  datatype Parts = Parts(
    scheme: string, authority: string, path: string, params: seq<QueryParam>, fragment: string, relative: bool)

  /** What parsing leaves in a cleared object. */
  datatype ParsedUri = ParsedUri(ok: bool, parts: Parts, query: string)

  /** What comes before the path. */
  function Prefix(scheme: string, authority: string): string {
    (if scheme == "" then "" else scheme + ":")
    + (if authority == "" then "" else Slashes(scheme) + authority)
  }

  function Slashes(scheme: string): string {
    if scheme == "mailto" || scheme == "news" then "" else "//"
  }

  function Tail(path: string, query: string, fragment: string): string {
    path + (if query == "" then "" else "?" + query) + (if fragment == "" then "" else "#" + fragment)
  }

  function BuildText(scheme: string, authority: string, path: string, query: string, fragment: string): string {
    Prefix(scheme, authority) + Tail(path, query, fragment)
  }

  function Build(u: Parts): string {
    BuildText(u.scheme, u.authority, u.path, Join(u.params), u.fragment)
  }

  /** parseString on a cleared object, in its three strides: scheme, authority, rest. */
  function Parse(s: string): ParsedUri {
    var colon := Find(s, ":", 0);
    if colon == NPOS then ParseAuthority(s, 0, "") else ParseAuthority(s, colon + 1, s[..colon])
  }

  /** An authority follows "//", or at once a scheme without '/'; a URI with neither and no root is relative. */
  function ParseAuthority(s: string, start: nat, scheme: string): ParsedUri
    requires start <= |s|
  {
    var unrooted := Find(s, "/", start) != start;
    if Find(s, "//", start) == start then ReadAuthority(s, start + 2, scheme)
    else if unrooted && scheme != "" then ReadAuthority(s, start, scheme)
    else ParsePath(s, start, scheme, "", unrooted)
  }

  function ReadAuthority(s: string, from: nat, scheme: string): ParsedUri
    requires from <= |s|
  {
    var off := Find(s, "/", from);
    ParsePath(s, if off == NPOS then |s| else off, scheme, Cut(s, from, off), false)
  }

  function ParsePath(s: string, start: nat, scheme: string, authority: string, relative: bool): ParsedUri
    requires start <= |s|
  {
    if start == |s| then ParsedUri(true, Parts(scheme, authority, "", [], "", relative), "")
    else
      var mark := Find(s, "?", start);
      var path := Cut(s, start, mark);
      if mark == NPOS then ParsedUri(true, Parts(scheme, authority, path, [], "", relative), "")
      else ParseQueryOn(s, mark + 1, Parts(scheme, authority, path, [], "", relative))
  }

  /** The query and the fragment, once the components before them are known. */
  function ParseQueryOn(s: string, start: nat, front: Parts): ParsedUri
    requires start <= |s|
  {
    var hash := Find(s, "#", start);
    var query := Cut(s, start, hash);
    var pairs := ParseQueryText(query);
    var fragment := if hash == NPOS || !pairs.ok then "" else s[hash + 1..];
    ParsedUri(pairs.ok, front.(params := pairs.params, fragment := fragment), query)
  }

  /** No component holds the delimiter that ends it. */
  predicate Printable(u: Parts) {
    && ':' !in u.scheme && '/' !in u.authority && '?' !in u.path
    && forall p :: p in u.params ==> ParamOk(p) && '#' !in p.key && '#' !in p.param
  }

  lemma {:induction false} JoinHasNoHash(ps: seq<QueryParam>)
    requires forall p :: p in ps ==> '#' !in p.key && '#' !in p.param
    ensures '#' !in Join(ps)
  {
    if ps != [] {
      assert '#' !in ps[0].key && '#' !in ps[0].param;
      JoinHasNoHash(ps[1..]);
    }
  }

  // ----- from the path on

  /** A path sits at `start`, ended by the first '?' after it. */
  predicate PathDelimited(s: string, start: nat, path: string) {
    var mark := start + |path|;
    mark < |s| && Find(s, "?", start) == mark && s[start..mark] == path
  }

  /** A query sits at `from`, ended by the first '#' and the fragment after it, or by the end. */
  predicate QueryDelimited(s: string, from: nat, q: string, fragment: string) {
    var hash := from + |q|;
    && from <= |s|
    && if fragment == "" then Find(s, "#", from) == NPOS && s[from..] == q
       else hash < |s| && Find(s, "#", from) == hash && s[from..hash] == q && s[hash + 1..] == fragment
  }

  lemma DelimitedParses(s: string, start: nat, u: Parts, q: string)
    requires PathDelimited(s, start, u.path) && QueryDelimited(s, start + |u.path| + 1, q, u.fragment)
    requires ParseQueryText(q) == Pairs(true, u.params)
    ensures ParsePath(s, start, u.scheme, u.authority, u.relative) == ParsedUri(true, u, q)
  {
    hide Find, ParseQueryOn;
    QueryParses(s, start + |u.path| + 1, u, q);
  }

  lemma QueryParses(s: string, from: nat, u: Parts, q: string)
    requires QueryDelimited(s, from, q, u.fragment) && ParseQueryText(q) == Pairs(true, u.params)
    ensures ParseQueryOn(s, from, u.(params := [], fragment := "")) == ParsedUri(true, u, q)
  {
    assert Cut(s, from, Find(s, "#", from)) == q;
  }

  lemma TailDelimited(s: string, start: nat, path: string, q: string, fragment: string)
    requires q != "" && '?' !in path && '#' !in q && start <= |s| && s[start..] == Tail(path, q, fragment)
    ensures PathDelimited(s, start, path) && QueryDelimited(s, start + |path| + 1, q, fragment)
  {
    var h := if fragment == "" then "" else "#" + fragment;
    assert path + ("?" + q) + h == path + "?" + (q + h) by {
      Assoc(path, "?" + q, h);
      Assoc("?", q, h);
      Assoc(path, "?", q + h);
    }
    FindPiece(s, start, path, "?", q + h);
    QueryEnds(s, start + |path| + 1, q, fragment);
  }

  lemma QueryEnds(s: string, from: nat, q: string, fragment: string)
    requires '#' !in q && from <= |s| && s[from..] == q + if fragment == "" then "" else "#" + fragment
    ensures QueryDelimited(s, from, q, fragment)
  {
    if fragment == "" {
      assert q + "" == q;
      FindNoPiece(s, from, q, "#");
    } else {
      Assoc(q, "#", fragment);
      FindPiece(s, from, q, "#", fragment);
    }
  }

  lemma TailWithQuery(s: string, start: nat, u: Parts)
    requires Printable(u) && u.params != []
    requires start <= |s| && s[start..] == Tail(u.path, Join(u.params), u.fragment)
    ensures ParsePath(s, start, u.scheme, u.authority, u.relative) == ParsedUri(true, u, Join(u.params))
  {
    hide Find, ParsePairs, ParsePath, Tail;
    var q := Join(u.params);
    PairsRoundTrip(q, 0, u.params);
    JoinHasNoHash(u.params);
    TailDelimited(s, start, u.path, q, u.fragment);
    DelimitedParses(s, start, u, q);
  }

  lemma TailWithoutQuery(s: string, start: nat, u: Parts)
    requires Printable(u) && u.params == []
    requires start <= |s| && s[start..] == Tail(u.path, "", u.fragment)
    ensures var r := ParsePath(s, start, u.scheme, u.authority, u.relative);
      (r.parts == u <==> u.fragment == "") && (u.fragment == "" ==> r == ParsedUri(true, u, ""))
  {
    var k, t := start + |u.path| + 1, Tail(u.path, "", u.fragment);
    if u.fragment == "" {
      assert s[start..] == u.path;
      FindNoPiece(s, start, u.path, "?");
    } else {
      assert t == u.path + "#" + u.fragment;
      forall j | start <= j < k ensures s[j] != '?' {
        assert s[j] == t[j - start];
      }
      FindBeyond(s, "?", start, k);
    }
  }

  /** A fragment comes back only behind a query. */
  predicate Kept(u: Parts) {
    u.fragment != "" ==> u.params != []
  }

  /** Read from where it was printed, the tail gives back path, parameters and fragment. */
  predicate TailGivesBack(r: ParsedUri, u: Parts) {
    && (r.parts == u <==> Kept(u))
    && (r.parts == u ==> r == ParsedUri(true, u, Join(u.params)))
  }

  lemma PathParses(s: string, start: nat, u: Parts)
    requires Printable(u)
    requires start <= |s| && s[start..] == Tail(u.path, Join(u.params), u.fragment)
    ensures TailGivesBack(ParsePath(s, start, u.scheme, u.authority, u.relative), u)
  {
    if u.params == [] {
      TailWithoutQuery(s, start, u);
    } else {
      TailWithQuery(s, start, u);
    }
  }

  lemma ParsePathKeeps(s: string, start: nat, scheme: string, authority: string, relative: bool)
    requires start <= |s|
    ensures var u := ParsePath(s, start, scheme, authority, relative).parts;
      u.scheme == scheme && u.authority == authority && u.relative == relative
  {
  }

  /** How the tail opens, and so what the parser takes it for. */
  lemma TailOpens(u: Parts)
    requires Printable(u)
    ensures var t := Tail(u.path, Join(u.params), u.fragment);
      if u.path != "" then t != "" && t[0] == u.path[0]
      else if u.params != [] then t != "" && t[0] == '?'
      else if u.fragment != "" then t != "" && t[0] == '#'
      else t == ""
  {
    var q := if Join(u.params) == "" then "" else "?" + Join(u.params);
    var f := if u.fragment == "" then "" else "#" + u.fragment;
    Assoc(u.path, q, f);
  }

  /** Where the path ends: at a '?' if there are parameters, else at the '#' of a fragment, or with the text. */
  lemma PathEnds(s: string, start: nat, u: Parts)
    requires Printable(u)
    requires start <= |s| && s[start..] == Tail(u.path, Join(u.params), u.fragment)
    ensures var e := start + |u.path|;
      && e <= |s| && s[start..e] == u.path
      && (u.params != [] ==> e < |s| && s[e] == '?')
      && (u.params == [] && u.fragment != "" ==> e < |s| && s[e] == '#' && |s| - e - 1 == |u.fragment|)
      && (u.params == [] && u.fragment == "" ==> e == |s|)
  {
    var w, e := s[start..], start + |u.path|;
    assert w[..|u.path|] == u.path;
    if e < |s| {
      assert s[e] == w[|u.path|];
    }
  }

  // ----- what is read from a later place is lost

  lemma {:induction false} FindNoLater(s: string, pat: string, start: nat, k: nat)
    requires |pat| == 1 && start <= k < |s| && s[k] == pat[0]
    ensures start <= Find(s, pat, start) <= k
    decreases k - start
  {
    if start < k {
      FindNoLater(s, pat, start + 1, k);
    } else {
      assert s[k + 0] == pat[0];
    }
  }

  lemma PathIsShorter(s: string, x: nat, e: nat, scheme: string, authority: string, relative: bool)
    requires x <= e <= |s| && (e < |s| ==> s[e] == '?')
    ensures |ParsePath(s, x, scheme, authority, relative).parts.path| <= e - x
  {
    if e < |s| {
      FindNoLater(s, "?", x, e);
    }
  }

  lemma FragmentIsShorter(s: string, x: nat, e: nat, scheme: string, authority: string, relative: bool)
    requires x <= e < |s| - 1 && forall j :: x <= j <= e ==> s[j] != '?'
    ensures |ParsePath(s, x, scheme, authority, relative).parts.fragment| < |s| - e - 1
  {
    FindBeyond(s, "?", x, e + 1);
    var mark := Find(s, "?", x);
    if mark != NPOS {
      QueryKeepsBehind(s, mark + 1, Parts(scheme, authority, Cut(s, x, mark), [], "", relative));
    }
  }

  lemma QueryKeepsBehind(s: string, start: nat, front: Parts)
    requires start <= |s|
    ensures var f := ParseQueryOn(s, start, front).parts.fragment; f == "" || |f| < |s| - start
  {
    hide ParseQueryText;
  }

  /** Read from behind its beginning, the path or the fragment comes out too short. */
  lemma LaterPathLost(s: string, x: nat, start: nat, u: Parts, scheme: string, authority: string, relative: bool)
    requires Printable(u) && start <= |s| && s[start..] == Tail(u.path, Join(u.params), u.fragment)
    requires start < x <= start + |u.path|
    ensures x <= |s| && ParsePath(s, x, scheme, authority, relative).parts != u
  {
    hide ParsePath, Tail, Join;
    PathEnds(s, start, u);
    var e := start + |u.path|;
    if Kept(u) {
      PathIsShorter(s, x, e, scheme, authority, relative);
    } else {
      forall j | x <= j <= e ensures s[j] != '?' {
        if j < e {
          assert s[j] == s[start..e][j - start];
        }
      }
      FragmentIsShorter(s, x, e, scheme, authority, relative);
    }
  }

  // ----- the authority

  /** '/' first occurs right after the authority, or nowhere and nothing follows. */
  predicate AuthorityEnds(s: string, from: nat, authority: string) {
    var off := from + |authority|;
    && off <= |s| && s[from..off] == authority
    && (if off == |s| then Find(s, "/", from) == NPOS else Find(s, "/", from) == off)
  }

  lemma AuthorityFound(s: string, from: nat, authority: string, t: string)
    requires '/' !in authority && from <= |s| && s[from..] == authority + t && (t == "" || t[0] == '/')
    ensures AuthorityEnds(s, from, authority) && s[from + |authority|..] == t
  {
    var off, w := from + |authority|, s[from..];
    assert w[..|authority|] == authority && w[|authority|..] == t;
    forall j | from <= j < off ensures s[j] != '/' {
      assert s[j] == w[j - from] == authority[j - from];
    }
    FindBeyond(s, "/", from, off);
    if t != "" {
      assert s[off] == w[|authority|] == t[0];
      FindAt(s, "/", from, off);
    }
  }

  lemma AuthorityRead(s: string, from: nat, authority: string, scheme: string)
    requires AuthorityEnds(s, from, authority)
    ensures ReadAuthority(s, from, scheme) == ParsePath(s, from + |authority|, scheme, authority, false)
  {
    assert Cut(s, from, Find(s, "/", from)) == authority;
  }

  /** What does not start with '/' is taken for a part of the authority. */
  lemma AuthoritySwallows(s: string, from: nat, authority: string, t: string, scheme: string)
    requires '/' !in authority && from <= |s| && s[from..] == authority + t && t != "" && t[0] != '/'
    ensures |ReadAuthority(s, from, scheme).parts.authority| > |authority|
  {
    var w, k := s[from..], from + |authority| + 1;
    forall j | from <= j < k ensures s[j] != '/' {
      assert s[j] == w[j - from];
    }
    FindBeyond(s, "/", from, k);
  }

  lemma ReadAuthorityIsAbsolute(s: string, from: nat, scheme: string)
    requires from <= |s|
    ensures !ReadAuthority(s, from, scheme).parts.relative
  {
    hide ParsePath;
    var off := Find(s, "/", from);
    ParsePathKeeps(s, if off == NPOS then |s| else off, scheme, Cut(s, from, off), false);
  }

  lemma FoundHere(s: string, pat: string, start: nat)
    requires pat != []
    ensures Find(s, pat, start) == start <==> start + |pat| <= |s| && Occurs(s, pat, start)
  {
  }

  lemma NoSlashesHere(s: string, start: nat, t: string)
    requires start <= |s| && s[start..] == t && (t == "" || t[0] != '/')
    ensures Find(s, "//", start) != start && Find(s, "/", start) != start
  {
    if t != "" {
      assert s[start + 0] == t[0] != "//"[0];
    }
    FoundHere(s, "//", start);
    FoundHere(s, "/", start);
  }

  lemma SlashesHere(s: string, start: nat, t: string)
    requires start <= |s| && s[start..] == "//" + t
    ensures Find(s, "//", start) == start && start + 2 <= |s| && s[start + 2..] == t
  {
    var w := s[start..];
    assert forall j :: 0 <= j < 2 ==> s[start + j] == w[j] == "//"[j];
    assert w[2..] == t;
  }

  lemma OneSlashHere(s: string, start: nat)
    requires start < |s| && s[start] == '/' && (start + 1 < |s| ==> s[start + 1] != '/')
    ensures Find(s, "//", start) != start && Find(s, "/", start) == start
  {
    if start + 1 < |s| {
      assert s[start + 1] != "//"[1];
    }
    FoundHere(s, "//", start);
    FoundHere(s, "/", start);
  }

  /** The authority starts behind the slashes, or at once for the schemes that have none. */
  lemma AuthorityStarts(s: string, start: nat, u: Parts, t: string)
    requires Printable(u) && u.authority != "" && start <= |s| && s[start..] == Slashes(u.scheme) + u.authority + t
    ensures var from := start + |Slashes(u.scheme)|;
      && from <= |s| && s[from..] == u.authority + t
      && ParseAuthority(s, start, u.scheme) == ReadAuthority(s, from, u.scheme)
  {
    if Slashes(u.scheme) == "" {
      assert Slashes(u.scheme) + u.authority + t == u.authority + t;
      NoSlashesHere(s, start, u.authority + t);
    } else {
      Assoc("//", u.authority, t);
      SlashesHere(s, start, u.authority + t);
    }
  }

  predicate DoubleSlash(path: string) {
    |path| >= 2 && path[0] == '/' && path[1] == '/'
  }

  /** The components are taken apart where they were put together: behind an authority a path is
      empty or rooted; without one a path does not pass for it, and a URI is relative exactly
      when its path is not rooted. */
  predicate Shaped(u: Parts) {
    var rooted := u.path != "" && u.path[0] == '/';
    if u.authority != "" then !u.relative && (rooted || (u.path == "" && u.params == []))
    else if u.scheme != "" then !u.relative && ((rooted && !DoubleSlash(u.path)) || (u.path == "" && u.params == []))
    else !DoubleSlash(u.path) && (u.relative <==> !rooted)
  }

  predicate GivesBack(r: ParsedUri, u: Parts) {
    && (r.parts == u <==> Shaped(u) && Kept(u))
    && (r.parts == u ==> r == ParsedUri(true, u, Join(u.params)))
  }

  lemma WithAuthority(s: string, start: nat, u: Parts)
    requires Printable(u) && u.authority != "" && start <= |s|
    requires s[start..] == Slashes(u.scheme) + u.authority + Tail(u.path, Join(u.params), u.fragment)
    ensures GivesBack(ParseAuthority(s, start, u.scheme), u)
  {
    hide Find, ReadAuthority, ParseAuthority, ParsePath, Tail, Join;
    var t, from := Tail(u.path, Join(u.params), u.fragment), start + |Slashes(u.scheme)|;
    AuthorityStarts(s, start, u, t);
    TailOpens(u);
    if u.relative {
      ReadAuthorityIsAbsolute(s, from, u.scheme);
    } else if t != "" && t[0] != '/' {
      AuthoritySwallows(s, from, u.authority, t, u.scheme);
    } else {
      AuthorityFound(s, from, u.authority, t);
      AuthorityRead(s, from, u.authority, u.scheme);
      PathParses(s, from + |u.authority|, u);
    }
  }

  lemma NoAuthorityRead(s: string, x: nat, scheme: string)
    requires x <= |s|
    ensures var r := ReadAuthority(s, x, scheme);
      r.parts.authority != "" || r == ParsePath(s, x, scheme, "", false)
  {
    hide ReadAuthority, ParsePath;
    var w := s[x..];
    assert w == "" + w;
    if w != "" && w[0] != '/' {
      AuthoritySwallows(s, x, "", w, scheme);
    } else {
      AuthorityFound(s, x, "", w);
      AuthorityRead(s, x, "", scheme);
    }
  }

  /** An authority read from behind the beginning of the path. */
  lemma LateAuthorityLost(s: string, x: nat, start: nat, u: Parts, scheme: string)
    requires Printable(u) && u.authority == "" && start <= |s| && s[start..] == Tail(u.path, Join(u.params), u.fragment)
    requires start < x <= start + |u.path|
    ensures x <= |s| && ReadAuthority(s, x, scheme).parts != u
  {
    hide Find, ReadAuthority, ParsePath, Tail, Join;
    LaterPathLost(s, x, start, u, scheme, "", false);
    NoAuthorityRead(s, x, scheme);
  }

  lemma PathHere(s: string, start: nat, u: Parts)
    requires Printable(u) && start <= |s| && s[start..] == Tail(u.path, Join(u.params), u.fragment)
    requires u.path != "" && u.path[0] == '/'
    ensures if DoubleSlash(u.path) then Find(s, "//", start) == start
            else Find(s, "//", start) != start && Find(s, "/", start) == start
  {
    hide Find, Tail, Join;
    PathEnds(s, start, u);
    var e := start + |u.path|;
    assert s[start] == s[start..e][0];
    if |u.path| >= 2 {
      assert s[start + 1] == s[start..e][1];
    }
    if DoubleSlash(u.path) {
      assert s[start..] == "//" + s[start + 2..];
      SlashesHere(s, start, s[start + 2..]);
    } else {
      OneSlashHere(s, start);
    }
  }

  lemma RootedWithoutAuthority(s: string, start: nat, u: Parts)
    requires Printable(u) && u.authority == "" && start <= |s|
    requires s[start..] == Tail(u.path, Join(u.params), u.fragment)
    requires u.path != "" && u.path[0] == '/'
    ensures GivesBack(ParseAuthority(s, start, u.scheme), u)
  {
    hide Find, ReadAuthority, ParsePath, Tail, Join;
    PathHere(s, start, u);
    if DoubleSlash(u.path) {
      LateAuthorityLost(s, start + 2, start, u, u.scheme);
    } else {
      ParsePathKeeps(s, start, u.scheme, "", false);
      if !u.relative {
        PathParses(s, start, u);
      }
    }
  }

  lemma UnrootedWithoutAuthority(s: string, start: nat, u: Parts)
    requires Printable(u) && u.authority == "" && start <= |s|
    requires s[start..] == Tail(u.path, Join(u.params), u.fragment)
    requires u.path == "" || u.path[0] != '/'
    ensures GivesBack(ParseAuthority(s, start, u.scheme), u)
  {
    hide Find, ReadAuthority, ParsePath, Tail, Join;
    var t := s[start..];
    TailOpens(u);
    NoSlashesHere(s, start, t);
    if u.scheme == "" {
      ParsePathKeeps(s, start, "", "", true);
      if u.relative {
        PathParses(s, start, u);
      }
    } else if t != "" {
      assert t == "" + t;
      AuthoritySwallows(s, start, "", t, u.scheme);
    } else {
      assert t == "" + t;
      AuthorityFound(s, start, "", t);
      AuthorityRead(s, start, "", u.scheme);
      ParsePathKeeps(s, start, u.scheme, "", false);
      if !u.relative {
        PathParses(s, start, u);
      }
    }
  }

  lemma RestParses(s: string, start: nat, u: Parts)
    requires Printable(u) && start <= |s|
    requires s[start..] == Front(u) + Tail(u.path, Join(u.params), u.fragment)
    ensures GivesBack(ParseAuthority(s, start, u.scheme), u)
  {
    hide ParseAuthority, Tail, Join, GivesBack;
    var t := Tail(u.path, Join(u.params), u.fragment);
    if u.authority != "" {
      WithAuthority(s, start, u);
    } else {
      assert "" + t == t;
      if u.path != "" && u.path[0] == '/' {
        RootedWithoutAuthority(s, start, u);
      } else {
        UnrootedWithoutAuthority(s, start, u);
      }
    }
  }

  function Front(u: Parts): string {
    if u.authority == "" then "" else Slashes(u.scheme) + u.authority
  }

  // ----- the scheme

  lemma SchemeEnds(u: Parts)
    requires Printable(u) && u.scheme != ""
    ensures var s, n := Build(u), |u.scheme|;
      && n < |s| && Find(s, ":", 0) == n && s[..n] == u.scheme
      && s[n + 1..] == Front(u) + Tail(u.path, Join(u.params), u.fragment)
  {
    var s, a, t := Build(u), Front(u), Tail(u.path, Join(u.params), u.fragment);
    Assoc(u.scheme + ":", a, t);
    FindPiece(s, 0, u.scheme, ":", a + t);
  }

  /** Without a scheme, a ':' behind the first byte is taken for the end of one. */
  lemma ColonMeansScheme(s: string)
    requires s != "" && s[0] != ':' && ':' in s
    ensures Parse(s).parts.scheme != ""
  {
    var k :| 0 <= k < |s| && s[k] == ':';
    FindBeyond(s, ":", 0, 1);
    FindSome(s, ":", 0, k);
  }

  /** A path that starts with ':' loses it. */
  lemma ColonFirstLost(u: Parts)
    requires Printable(u) && u.scheme == "" && Build(u) != "" && Build(u)[0] == ':'
    ensures Parse(Build(u)).parts != u
  {
    hide ParseAuthority, Tail, Join;
    var s, t := Build(u), Tail(u.path, Join(u.params), u.fragment);
    TailOpens(u);
    assert s == "" + Front(u) + t;
    assert u.authority == "" && s == t == s[0..] && u.path != "";
    FindAt(s, ":", 0, 0);
    assert s[..0] == "";
    BehindColonLost(s, u);
  }

  lemma BehindColonLost(s: string, u: Parts)
    requires Printable(u) && u.authority == "" && u.path != "" && s[0..] == Tail(u.path, Join(u.params), u.fragment)
    ensures 1 <= |s| && ParseAuthority(s, 1, "").parts != u
  {
    hide Find, ReadAuthority, ParsePath, Tail, Join;
    PathEnds(s, 0, u);
    FoundHere(s, "//", 1);
    if Find(s, "//", 1) == 1 {
      assert s[1 + 0] == "//"[0] && s[1 + 1] == "//"[1];
      LateAuthorityLost(s, 3, 0, u, "");
    } else {
      LaterPathLost(s, 1, 0, u, "", "", Find(s, "/", 1) != 1);
    }
  }

  // ----- what parsing gives holds no delimiter

  lemma {:induction false} NoneBefore(s: string, pat: string, start: nat)
    requires |pat| == 1
    ensures var k := Find(s, pat, start);
      forall j :: start <= j < (if k == NPOS then |s| else k) ==> s[j] != pat[0]
    decreases |s| - start
  {
    if start < |s| {
      if Occurs(s, pat, start) {
        assert Find(s, pat, start) == start;
      } else {
        NoneBefore(s, pat, start + 1);
        assert s[start + 0] != pat[0];
      }
    }
  }

  /** A piece cut off at the first delimiter does not hold it. */
  lemma CutHasNone(s: string, pat: string, from: nat)
    requires |pat| == 1 && from <= |s|
    ensures pat[0] !in Cut(s, from, Find(s, pat, from))
  {
    NoneBefore(s, pat, from);
    var t := Cut(s, from, Find(s, pat, from));
    forall j | 0 <= j < |t| ensures t[j] != pat[0] {
      assert t[j] == s[from + j];
    }
  }

  predicate ParamPrintable(p: QueryParam) {
    ParamOk(p) && '#' !in p.key && '#' !in p.param
  }

  lemma {:induction false} PairsArePrintable(q: string, start: nat)
    requires start <= |q| && '#' !in q
    ensures forall p :: p in ParsePairs(q, start).params ==> ParamPrintable(p)
    decreases |q| - start
  {
    hide Find;
    var eq := Find(q, "=", start);
    if eq != NPOS {
      var amp := Find(q, "&", eq + 1);
      CutHasNone(q, "=", start);
      CutHasNone(q, "&", eq + 1);
      assert ParamPrintable(QueryParam(q[start..eq], Cut(q, eq + 1, amp)));
      if amp != NPOS {
        PairsArePrintable(q, amp + 1);
      }
    }
  }

  lemma QueryIsPrintable(s: string, start: nat, front: Parts)
    requires start <= |s| && ':' !in front.scheme && '/' !in front.authority && '?' !in front.path
    ensures Printable(ParseQueryOn(s, start, front).parts)
  {
    hide Find, ParsePairs;
    var query := Cut(s, start, Find(s, "#", start));
    CutHasNone(s, "#", start);
    PairsArePrintable(query, 0);
    forall p | p in ParseQueryText(query).params ensures ParamOk(p) && '#' !in p.key && '#' !in p.param {
      assert ParamPrintable(p);
    }
  }

  lemma PathIsPrintable(s: string, start: nat, scheme: string, authority: string, relative: bool)
    requires start <= |s| && ':' !in scheme && '/' !in authority
    ensures Printable(ParsePath(s, start, scheme, authority, relative).parts)
  {
    hide Find, ParseQueryOn;
    var mark := Find(s, "?", start);
    CutHasNone(s, "?", start);
    if mark != NPOS {
      QueryIsPrintable(s, mark + 1, Parts(scheme, authority, Cut(s, start, mark), [], "", relative));
    }
  }

  lemma AuthorityIsPrintable(s: string, from: nat, scheme: string)
    requires from <= |s| && ':' !in scheme
    ensures Printable(ReadAuthority(s, from, scheme).parts)
  {
    hide Find, ParsePath, Printable;
    var off := Find(s, "/", from);
    CutHasNone(s, "/", from);
    PathIsPrintable(s, if off == NPOS then |s| else off, scheme, Cut(s, from, off), false);
  }

  lemma RestIsPrintable(s: string, start: nat, scheme: string)
    requires start <= |s| && ':' !in scheme
    ensures Printable(ParseAuthority(s, start, scheme).parts)
  {
    hide Find, ParsePath, ReadAuthority, Printable;
    if Find(s, "//", start) == start {
      AuthorityIsPrintable(s, start + 2, scheme);
    } else {
      AuthorityIsPrintable(s, start, scheme);
      PathIsPrintable(s, start, scheme, "", Find(s, "/", start) != start);
    }
  }

  /** Whatever the text, no component that parsing gives holds the delimiter that ends it. */
  lemma ParsedIsPrintable(s: string)
    ensures Printable(Parse(s).parts)
  {
    hide Find, ParseAuthority, Printable;
    var colon := Find(s, ":", 0);
    CutHasNone(s, ":", 0);
    if colon == NPOS {
      RestIsPrintable(s, 0, "");
    } else {
      assert s[0..colon] == s[..colon];
      RestIsPrintable(s, colon + 1, s[..colon]);
    }
  }

  /**
   * What printing must not hide: the delimiters and the shapes above, a fragment that is only looked for behind a
   * query, and the first ':' of the text, which is taken for the end of a scheme.
   */
  predicate Recoverable(u: Parts) {
    Printable(u) && Shaped(u) && Kept(u) && (u.scheme == "" ==> ':' !in Build(u))
  }

  /** Parsing what was printed gives back every component, exactly for the recoverable URIs. */
  lemma RoundTrip(u: Parts)
    ensures Parse(Build(u)).parts == u <==> Recoverable(u)
    ensures Recoverable(u) ==> Parse(Build(u)) == ParsedUri(true, u, Join(u.params))
  {
    hide Parse, Build, Shaped, Kept;
    if Printable(u) {
      PrintableRoundTrip(u);
    } else {
      ParsedIsPrintable(Build(u));
    }
  }

  lemma PrintableRoundTrip(u: Parts)
    requires Printable(u)
    ensures Parse(Build(u)).parts == u <==> Recoverable(u)
    ensures Recoverable(u) ==> Parse(Build(u)) == ParsedUri(true, u, Join(u.params))
  {
    hide ParseAuthority, Tail, Join;
    var s := Build(u);
    if u.scheme != "" {
      SchemeEnds(u);
      RestParses(s, |u.scheme| + 1, u);
    } else if ':' in s {
      if s[0] == ':' {
        ColonFirstLost(u);
      } else {
        ColonMeansScheme(s);
      }
    } else {
      assert s == Front(u) + Tail(u.path, Join(u.params), u.fragment);
      FindBeyond(s, ":", 0, |s|);
      RestParses(s, 0, u);
    }
  }

  /** A '?' in a path ends it early, though the URI has every other property asked for. */
  lemma QuestionMarkIsLost()
    ensures var u := Parts("h", "a", "/?", [], "", false);
      Shaped(u) && Kept(u) && u.scheme != "" && Parse(Build(u)).parts != u
  {
    var u := Parts("h", "a", "/?", [], "", false);
    assert u.path[1] == '?';
    RoundTrip(u);
  }

  // ----- what is printed, letter by letter

  /** Only mailto and news do without "//". */
  lemma PrintedText(u: Parts)
    ensures Build(u) ==
      (if u.scheme == "" then "" else u.scheme + ":")
      + (if u.authority == "" then ""
         else if u.scheme == "mailto" || u.scheme == "news" then u.authority else "//" + u.authority)
      + u.path
      + (if u.params == [] then "" else "?" + Join(u.params))
      + (if u.fragment == "" then "" else "#" + u.fragment)
  {
    TailAppended(Prefix(u.scheme, u.authority), u.path, Join(u.params), u.fragment);
  }

  lemma MailtoText(authority: string, relative: bool)
    requires authority != ""
    ensures Build(Parts("mailto", authority, "", [], "", relative)) == "mailto:" + authority
    ensures Build(Parts("http", authority, "", [], "", relative)) == "http://" + authority
  {
    assert "mailto" + ":" == "mailto:" && "http" + ":" == "http:" && "http:" + "//" == "http://";
    Assoc("http:", "//", authority);
  }

  // ----- what is parsed is all of the text

  lemma CutJoins(s: string, pat: string, from: nat)
    requires |pat| == 1 && from <= |s|
    ensures var k := Find(s, pat, from);
      s[from..] == Cut(s, from, k) + if k == NPOS then "" else pat + s[k + 1..]
  {
    var k := Find(s, pat, from);
    if k != NPOS {
      FoundIsThere(s, pat, from);
      assert s[k..] == pat + s[k + 1..];
      assert s[from..] == s[from..k] + s[k..];
    }
  }

  lemma {:induction false} FoundIsThere(s: string, pat: string, start: nat)
    requires |pat| == 1 && Find(s, pat, start) != NPOS
    ensures s[Find(s, pat, start)] == pat[0]
    decreases |s| - start
  {
    if Occurs(s, pat, start) {
      assert s[start + 0] == pat[0];
    } else {
      FoundIsThere(s, pat, start + 1);
    }
  }

  /** The text from `start` is the pair read there and, behind an '&', what is left. */
  lemma FirstPair(q: string, start: nat)
    requires start <= |q| && Find(q, "=", start) != NPOS
    ensures var eq := Find(q, "=", start); var amp := Find(q, "&", eq + 1);
      q[start..] == q[start..eq] + "=" + Cut(q, eq + 1, amp) + if amp == NPOS then "" else "&" + q[amp + 1..]
  {
    hide Find;
    var eq := Find(q, "=", start);
    var amp := Find(q, "&", eq + 1);
    CutJoins(q, "=", start);
    CutJoins(q, "&", eq + 1);
    RegroupText(q[start..eq], Cut(q, eq + 1, amp), if amp == NPOS then "" else "&" + q[amp + 1..]);
  }

  /** A query is its pairs and, if anything, a rest behind an '&' that holds no '='. */
  lemma {:induction false} PairsRecompose(q: string, start: nat) returns (rest: string)
    requires start <= |q| && ParsePairs(q, start).ok
    ensures q[start..] == Join(ParsePairs(q, start).params) + rest && ParsePairs(q, start).params != []
    ensures rest != "" ==> rest[0] == '&' && '=' !in rest
    decreases |q| - start
  {
    hide Find;
    PairsOk(q, start);
    FirstPair(q, start);
    var eq := Find(q, "=", start);
    var amp := Find(q, "&", eq + 1);
    var pair := QueryParam(q[start..eq], Cut(q, eq + 1, amp));
    if amp == NPOS {
      rest := "";
    } else if Find(q, "=", amp + 1) == NPOS {
      rest := "&" + q[amp + 1..];
      NoneFrom(q, "=", amp + 1);
    } else {
      PairsOk(q, amp + 1);
      rest := PairsRecompose(q, amp + 1);
      JoinWithRest(pair, ParsePairs(q, amp + 1).params, rest);
    }
  }

  lemma JoinWithRest(pair: QueryParam, ps: seq<QueryParam>, rest: string)
    requires ps != []
    ensures Join([pair] + ps) + rest == pair.key + "=" + pair.param + ("&" + (Join(ps) + rest))
  {
    var first := pair.key + "=" + pair.param;
    assert ([pair] + ps)[1..] == ps;
    Assoc(first, "&" + Join(ps), rest);
    Assoc("&", Join(ps), rest);
  }

  lemma NoneFrom(s: string, pat: string, from: nat)
    requires |pat| == 1 && from <= |s| && Find(s, pat, from) == NPOS
    ensures pat[0] !in s[from..]
  {
    NoneBefore(s, pat, from);
  }

  lemma RegroupText(key: string, param: string, rest: string)
    ensures key + ("=" + (param + rest)) == key + "=" + param + rest
  {
  }

  /** The path, and behind it what there is of a query and a fragment. */
  function TailText(r: ParsedUri, asked: bool, hashed: bool): string {
    r.parts.path + (if asked then "?" + r.query else "") + (if hashed then "#" + r.parts.fragment else "")
  }

  ghost predicate TailTaken(t: string, r: ParsedUri, asked: bool, hashed: bool) {
    && (r.ok ==> t == TailText(r, asked, hashed))
    && (!asked ==> r.query == "" && r.parts.params == [] && !hashed) && (!hashed ==> r.parts.fragment == "")
  }

  lemma QueryRecomposes(s: string, start: nat, front: Parts) returns (hashed: bool)
    requires start <= |s|
    ensures var r := ParseQueryOn(s, start, front);
      && (r.ok ==> s[start..] == r.query + if hashed then "#" + r.parts.fragment else "")
      && (!hashed ==> r.parts.fragment == "") && r.parts.path == front.path
  {
    hide Find, ParseQueryText;
    CutJoins(s, "#", start);
    hashed := Find(s, "#", start) != NPOS;
  }

  lemma PathRecomposes(s: string, start: nat, scheme: string, authority: string, relative: bool)
      returns (asked: bool, hashed: bool)
    requires start <= |s|
    ensures TailTaken(s[start..], ParsePath(s, start, scheme, authority, relative), asked, hashed)
    ensures var path := ParsePath(s, start, scheme, authority, relative).parts.path;
      if start < |s| && s[start] != '?' then path != "" && path[0] == s[start] && path <= s[start..] else path == ""
  {
    hide Find, ParseQueryOn;
    asked, hashed := false, false;
    if start < |s| {
      var mark := Find(s, "?", start);
      CutJoins(s, "?", start);
      if s[start] == '?' {
        FindAt(s, "?", start, start);
      }
      if mark != NPOS {
        asked := true;
        FoundIsThere(s, "?", start);
        var front := Parts(scheme, authority, Cut(s, start, mark), [], "", relative);
        hashed := QueryRecomposes(s, mark + 1, front);
        var r := ParseQueryOn(s, mark + 1, front);
        Assoc("?", r.query, if hashed then "#" + r.parts.fragment else "");
        Assoc(front.path, "?" + r.query, if hashed then "#" + r.parts.fragment else "");
      }
    }
  }

  lemma AuthorityRecomposes(s: string, from: nat, scheme: string) returns (asked: bool, hashed: bool)
    requires from <= |s|
    ensures var r := ReadAuthority(s, from, scheme);
      && (r.ok ==> s[from..] == r.parts.authority + TailText(r, asked, hashed))
      && TailTaken(TailText(r, asked, hashed), r, asked, hashed)
      && (r.parts.path != "" ==> r.parts.path[0] == '/') && !r.parts.relative && r.parts.scheme == scheme
      && (r.parts.authority == "" ==> from == |s| || s[from] == '/') && (from == |s| ==> r.parts.path == "")
  {
    hide Find, ParsePath;
    var off := Find(s, "/", from);
    CutJoins(s, "/", from);
    var at := if off == NPOS then |s| else off;
    asked, hashed := PathRecomposes(s, at, scheme, Cut(s, from, off), false);
    ParsePathKeeps(s, at, scheme, Cut(s, from, off), false);
    assert s[from..] == Cut(s, from, off) + s[at..];
    if off != NPOS {
      FoundIsThere(s, "/", from);
    }
  }

  /** What tells the parts from one another, beside the delimiters they do not hold. */
  ghost predicate Apart(r: ParsedUri, slashes: bool, asked: bool, hashed: bool) {
    var u := r.parts;
    && (!asked ==> r.query == "" && u.params == [] && !hashed) && (!hashed ==> u.fragment == "")
    && (slashes || u.authority != "" ==> u.path == "" || u.path[0] == '/')
    && (!slashes && u.authority != "" ==> u.scheme != "")
    && (!slashes && u.authority == "" ==> !DoubleSlash(u.path))
    && (u.relative <==> !slashes && u.scheme == "" && (u.path == "" || u.path[0] != '/'))
  }

  /** The text behind a scheme, taken apart. */
  ghost predicate RestTaken(t: string, r: ParsedUri, slashes: bool, asked: bool, hashed: bool) {
    && (r.ok ==> t == (if slashes then "//" else "") + (r.parts.authority + TailText(r, asked, hashed)))
    && Apart(r, slashes, asked, hashed)
  }

  lemma RestRecomposes(s: string, start: nat, scheme: string) returns (slashes: bool, asked: bool, hashed: bool)
    requires start <= |s|
    ensures RestTaken(s[start..], ParseAuthority(s, start, scheme), slashes, asked, hashed)
    ensures ParseAuthority(s, start, scheme).parts.scheme == scheme
  {
    hide Find, ReadAuthority, ParsePath, TailText;
    FoundHere(s, "//", start);
    FoundHere(s, "/", start);
    slashes := Find(s, "//", start) == start;
    var unrooted := Find(s, "/", start) != start;
    if slashes {
      asked, hashed := AuthorityRecomposes(s, start + 2, scheme);
      assert s[start + 0] == "//"[0] && s[start + 1] == "//"[1];
      assert s[start..] == "//" + s[start + 2..];
    } else {
      RestWithoutSlashes(s, start, scheme);
      if unrooted && scheme != "" {
        asked, hashed := AuthorityRecomposes(s, start, scheme);
      } else {
        asked, hashed := PathRecomposes(s, start, scheme, "", unrooted);
        ParsePathKeeps(s, start, scheme, "", unrooted);
      }
      var r := ParseAuthority(s, start, scheme);
      assert "" + (r.parts.authority + TailText(r, asked, hashed)) == r.parts.authority + TailText(r, asked, hashed);
      assert r.parts.authority == "" ==> "" + TailText(r, asked, hashed) == TailText(r, asked, hashed);
    }
  }

  lemma RestWithoutSlashes(s: string, start: nat, scheme: string)
    requires start <= |s|
    ensures Find(s, "/", start) == start <==> start < |s| && s[start] == '/'
    ensures Find(s, "//", start) == start <==> start + 1 < |s| && s[start] == '/' && s[start + 1] == '/'
  {
    FoundHere(s, "//", start);
    FoundHere(s, "/", start);
    if start + 1 < |s| && s[start] == '/' && s[start + 1] == '/' {
      assert Occurs(s, "//", start);
    }
    if Find(s, "//", start) == start {
      assert s[start + 0] == "//"[0] && s[start + 1] == "//"[1];
    }
    if Find(s, "/", start) == start {
      assert s[start + 0] == "/"[0];
    }
  }

  /** Every text is its parts with their delimiters, none lost and none made up, if its query parses. */
  lemma TextIsItsParts(s: string) returns (slashes: bool, asked: bool, hashed: bool)
    ensures var r := Parse(s); var u := r.parts;
      && (r.ok ==>
          s == (if ':' in s then u.scheme + ":" else "") + ((if slashes then "//" else "") + (u.authority
             + (u.path + (if asked then "?" + r.query else "") + (if hashed then "#" + u.fragment else "")))))
      && (':' !in s ==> u.scheme == "") && Apart(r, slashes, asked, hashed)
  {
    hide Find, ParseAuthority, RestTaken, Apart;
    var colon := Find(s, ":", 0);
    CutJoins(s, ":", 0);
    assert s[0..] == s;
    if colon == NPOS {
      NoneFrom(s, ":", 0);
      slashes, asked, hashed := RestRecomposes(s, 0, "");
      RestText(s, Parse(s), slashes, asked, hashed);
    } else {
      FoundIsThere(s, ":", 0);
      assert s[0..colon] == s[..colon];
      slashes, asked, hashed := RestRecomposes(s, colon + 1, s[..colon]);
      RestText(s[colon + 1..], Parse(s), slashes, asked, hashed);
      Assoc(s[..colon], ":", s[colon + 1..]);
    }
  }

  lemma RestText(t: string, r: ParsedUri, slashes: bool, asked: bool, hashed: bool)
    requires RestTaken(t, r, slashes, asked, hashed)
    ensures Apart(r, slashes, asked, hashed)
    ensures r.ok ==> t == (if slashes then "//" else "") + (r.parts.authority + TailText(r, asked, hashed))
  {
  }

  /** The query of a text that parses is its parameters and, if anything, a rest behind an '&'
      without '='; one that does not parse leaves neither parameters nor a fragment. */
  lemma QueryIsItsParams(s: string) returns (rest: string)
    ensures var r := Parse(s);
      if r.ok then r.query == Join(r.parts.params) + rest && (rest != "" ==> rest[0] == '&' && '=' !in rest)
      else r.query != "" && '=' !in r.query && r.parts.params == [] && r.parts.fragment == ""
  {
    hide Find, ParsePairs, Parse, Join;
    var r := Parse(s);
    ParamsAreOfQuery(s);
    QueryFailsIff(r.query);
    rest := "";
    if !r.ok {
      PairsFail(r.query);
    } else if r.query != "" {
      rest := PairsRecompose(r.query, 0);
      assert r.query[0..] == r.query;
    } else {
      JoinNothing();
    }
  }

  lemma JoinNothing()
    ensures Join([]) + "" == ""
  {
  }

  lemma PairsFail(q: string)
    ensures !ParsePairs(q, 0).ok ==> ParsePairs(q, 0).params == []
  {
    hide Find;
    PairsOk(q, 0);
  }

  lemma ParamsAreOfQuery(s: string)
    ensures var r := Parse(s);
      && r.ok == ParseQueryText(r.query).ok && r.parts.params == ParseQueryText(r.query).params
      && (!r.ok ==> r.parts.fragment == "")
  {
    hide Find, ParsePairs;
  }

  // ----- the class

  function Pair(p: QueryParam): string {
    p.key + "=" + p.param
  }

  /** Appending a parameter appends to the joined text. */
  lemma {:induction false} JoinAppends(ps: seq<QueryParam>, p: QueryParam)
    ensures Join(ps + [p]) == Join(ps) + ((if ps == [] then "" else "&") + (p.key + "=" + p.param))
  {
    if ps == [] {
      assert ps + [p] == [p];
    } else {
      var rest := ps[1..];
      assert (ps + [p])[1..] == rest + [p];
      JoinAppends(rest, p);
      if rest != [] {
        Assoc("&", Join(rest), "&" + Pair(p));
        Assoc(Pair(ps[0]), "&" + Join(rest), "&" + Pair(p));
      }
    }
  }

  /** Where the parsing loop stands: `done` is read, and what is left from `start` on completes the target. */
  ghost predicate PairsLeft(q: string, start: nat, off: int, done: seq<QueryParam>, target: Pairs) {
    && start <= |q|
    && if off == NPOS then target == Pairs(true, done)
       else target == Pairs(ParsePairs(q, start).ok, done + ParsePairs(q, start).params)
  }

  lemma NoPairLeft(q: string, start: nat, done: seq<QueryParam>, target: Pairs)
    requires PairsLeft(q, start, 0, done, target) && Find(q, "=", start) == NPOS
    ensures target == Pairs(false, done)
  {
    assert done + [] == done;
  }

  lemma PairStep(q: string, start: nat, eq: nat, pair: QueryParam, done: seq<QueryParam>, target: Pairs)
    requires PairsLeft(q, start, 0, done, target) && Find(q, "=", start) == eq
    requires pair == QueryParam(q[start..eq], Cut(q, eq + 1, Find(q, "&", eq + 1)))
    ensures var amp := Find(q, "&", eq + 1);
      PairsLeft(q, if amp == NPOS then eq + 1 else amp + 1, if amp == NPOS then NPOS else Find(q, "=", amp + 1),
                done + [pair], target)
  {
    hide Find, ParsePairs;
    var amp := Find(q, "&", eq + 1);
    if amp == NPOS || Find(q, "=", amp + 1) == NPOS {
      PairIsLast(q, start, eq, amp, pair);
    } else {
      var rest := ParsePairs(q, amp + 1);
      PairIsFirst(q, start, eq, amp, pair, rest);
      Regroup(done, pair, rest.params);
    }
  }

  lemma PairIsLast(q: string, start: nat, eq: nat, amp: int, pair: QueryParam)
    requires start <= |q| && eq == Find(q, "=", start) && amp == Find(q, "&", eq + 1)
    requires pair == QueryParam(q[start..eq], Cut(q, eq + 1, amp)) && (amp == NPOS || Find(q, "=", amp + 1) == NPOS)
    ensures ParsePairs(q, start) == Pairs(true, [pair])
  {
  }

  lemma PairIsFirst(q: string, start: nat, eq: nat, amp: nat, pair: QueryParam, rest: Pairs)
    requires start <= |q| && eq == Find(q, "=", start) && amp == Find(q, "&", eq + 1)
    requires pair == QueryParam(q[start..eq], Cut(q, eq + 1, amp)) && Find(q, "=", amp + 1) != NPOS
    requires rest == ParsePairs(q, amp + 1)
    ensures ParsePairs(q, start) == Pairs(rest.ok, [pair] + rest.params)
  {
    hide Find;
  }

  lemma Regroup(done: seq<QueryParam>, pair: QueryParam, rest: seq<QueryParam>)
    ensures done + ([pair] + rest) == done + [pair] + rest
  {
  }

  /** Appending path, query and fragment one by one appends the tail. */
  lemma TailAppended(front: string, path: string, query: string, fragment: string)
    ensures front + path + (if query == "" then "" else "?" + query) + (if fragment == "" then "" else "#" + fragment)
         == front + Tail(path, query, fragment)
  {
  }

  lemma QueryFollows(s: string, start: nat, front: Parts)
    requires start < |s| && Find(s, "?", start) != NPOS && front.params == [] && front.fragment == ""
    requires front.path == Cut(s, start, Find(s, "?", start))
    ensures ParsePath(s, start, front.scheme, front.authority, front.relative)
         == ParseQueryOn(s, Find(s, "?", start) + 1, front)
  {
  }

  /** One turn of the parsing loop: the pair at `start`, whose '=' is at eq, and where the next one stands. */
  method ReadPair(q: string, start: nat, eq: nat, ghost done: seq<QueryParam>, ghost target: Pairs)
    returns (pair: QueryParam, next: nat, off: int)
    requires PairsLeft(q, start, 0, done, target) && eq == Find(q, "=", start)
    ensures start < next <= |q| && PairsLeft(q, next, off, done + [pair], target)
  {
    hide Find, ParsePairs;
    var key := q[start..eq];
    next := eq + 1;
    off := Find(q, "&", next);
    pair := QueryParam(key, Cut(q, next, off));
    PairStep(q, start, eq, pair, done, target);
    if off != NPOS {
      next := off + 1;
      off := Find(q, "=", next);
    }
  }

  class URI {
    var relative: bool
    var modified: bool
    var modifiedQuery: bool
    var fullString: string
    var queryString: string
    var scheme: string
    var authority: string
    var path: string
    var fragment: string
    var params: seq<QueryParam>

    ghost function Value(): Parts
      reads this
    {
      Parts(scheme, authority, path, params, fragment, relative)
    }

    /** The two cached texts are what the components print as, unless marked stale. */
    ghost predicate Coherent()
      reads this
    {
      && (!modifiedQuery ==> queryString == Join(params))
      && (!modified ==> !modifiedQuery && fullString == Build(Value()))
    }

    constructor ()
      ensures Coherent() && Value() == Parts("", "", "", [], "", false) && !modified
    {
      relative, modified, modifiedQuery := false, false, false;
      fullString, queryString, scheme, authority, path, fragment, params := "", "", "", "", "", "", [];
    }

    method Clear()
      modifies this
      ensures Coherent() && Value() == Parts("", "", "", [], "", false) && !modified
      ensures fullString == "" && queryString == ""
    {
      relative, modified, modifiedQuery := false, false, false;
      fullString, queryString, scheme, authority, path, fragment, params := "", "", "", "", "", "", [];
    }

    method SetScheme(s: string)
      modifies this`modified, this`scheme
      ensures Value() == old(Value()).(scheme := s) && modified && (old(Coherent()) ==> Coherent())
    {
      modified, scheme := true, s;
    }

    method SetAuthority(a: string)
      modifies this`modified, this`authority
      ensures Value() == old(Value()).(authority := a) && modified && (old(Coherent()) ==> Coherent())
    {
      modified, authority := true, a;
    }

    /** An absolute path always starts with '/'; an empty text counts as not starting with it. */
    method SetPath(p: string, rel: bool)
      modifies this`modified, this`path, this`relative
      ensures Value() == old(Value()).(path := path, relative := rel) && modified && (old(Coherent()) ==> Coherent())
      ensures !rel ==> path != "" && path[0] == '/'
      ensures path == p || (path == "/" + p && !rel && (p == "" || p[0] != '/'))
    {
      modified := true;
      path := if (p == "" || p[0] != '/') && !rel then "/" + p else p;
      relative := rel;
    }

    method SetFragment(f: string)
      modifies this`modified, this`fragment
      ensures Value() == old(Value()).(fragment := f) && modified && (old(Coherent()) ==> Coherent())
    {
      modified, fragment := true, f;
    }

    method AppendQueryParam(key: string, value: string)
      modifies this`params, this`modified, this`modifiedQuery
      ensures Value() == old(Value()).(params := old(params) + [QueryParam(key, value)])
      ensures modified && modifiedQuery && Coherent()
    {
      params := params + [QueryParam(key, value)];
      modifiedQuery, modified := true, true;
    }

    method BuildQuery()
      modifies this`queryString, this`modifiedQuery
      ensures !modifiedQuery && queryString == if old(modifiedQuery) then Join(params) else old(queryString)
      ensures old(Coherent()) ==> Coherent()
    {
      if !modifiedQuery {
        return;
      }
      var str, i := "", 0;
      while i < |params|
        invariant 0 <= i <= |params| && str == Join(params[..i])
      {
        JoinAppends(params[..i], params[i]);
        assert params[..i] + [params[i]] == params[..i + 1];
        if i != 0 {
          str := str + ("&" + Pair(params[i]));
        } else {
          str := str + Pair(params[i]);
        }
        i := i + 1;
      }
      assert params[..i] == params;
      queryString := str;
      modifiedQuery := false;
    }

    method GetQuery() returns (r: string)
      modifies this`queryString, this`modifiedQuery
      ensures r == queryString && (old(Coherent()) ==> Coherent() && r == Join(params))
    {
      BuildQuery();
      r := queryString;
    }

    method BuildString()
      modifies this`fullString, this`modified, this`queryString, this`modifiedQuery
      ensures !modified
      ensures !old(modified) ==> fullString == old(fullString) && queryString == old(queryString)
      ensures old(modified) ==> fullString == BuildText(scheme, authority, path, queryString, fragment)
      ensures old(Coherent()) ==> Coherent()
    {
      hide Join;
      if !modified {
        return;
      }
      var str := PrintPrefix();
      BuildQuery();
      str := str + path;
      if queryString != "" {
        str := str + ("?" + queryString);
      }
      if fragment != "" {
        str := str + ("#" + fragment);
      }
      TailAppended(Prefix(scheme, authority), path, queryString, fragment);
      fullString := str;
      modified := false;
    }

    /** The scheme and the authority, with "//" between them but for mailto and news. */
    method PrintPrefix() returns (str: string)
      ensures str == Prefix(scheme, authority)
    {
      str := "";
      if scheme != "" {
        str := str + scheme + ":";
      }
      if authority != "" {
        if scheme != "mailto" && scheme != "news" {
          str := str + ("//" + authority);
        } else {
          str := str + authority;
        }
      }
    }

    /** The text of a coherent URI is what its components print as, whatever setters ran before. */
    method GetString() returns (r: string)
      modifies this`fullString, this`modified, this`queryString, this`modifiedQuery
      ensures r == fullString && !modified
      ensures !old(modified) ==> r == old(fullString)
      ensures old(Coherent()) ==> Coherent() && r == Build(Value())
      ensures old(Coherent()) ==>
        r == (if scheme == "" then "" else scheme + ":")
          + (if authority == "" then "" else if scheme in ["mailto", "news"] then authority else "//" + authority)
          + path + (if params == [] then "" else "?" + Join(params)) + (if fragment == "" then "" else "#" + fragment)
    {
      BuildString();
      r := fullString;
      PrintedText(Value());
    }

    /** Appends the pairs of the query text. */
    method ParseQuery() returns (ok: bool)
      modifies this`params, this`modifiedQuery
      ensures !modifiedQuery && ok == ParseQueryText(queryString).ok
      ensures params == if queryString == "" then [] else old(params) + ParseQueryText(queryString).params
    {
      modifiedQuery := false;
      if queryString == "" {
        params := [];
        return true;
      }
      var q := queryString;
      ghost var all := ParsePairs(q, 0);
      ghost var target := Pairs(all.ok, params + all.params);
      var start: nat, off := 0, 0;
      while off != NPOS
        invariant !modifiedQuery && PairsLeft(q, start, off, params, target)
        decreases if off == NPOS then 0 else |q| + 1 - start
      {
        off := Find(q, "=", start);
        if off == NPOS {
          NoPairLeft(q, start, params, target);
          return false;
        }
        var pair;
        pair, start, off := ReadPair(q, start, off, params, target);
        params := params + [pair];
      }
      return true;
    }

    /** Reads the components out of the text of a cleared object. */
    method ParseString() returns (ok: bool)
      requires Value() == Parts("", "", "", [], "", false) && queryString == "" && !modifiedQuery
      modifies this
      ensures fullString == old(fullString) && !modified && !modifiedQuery
      ensures ParsedUri(ok, Value(), queryString) == Parse(fullString)
    {
      hide Find, ParseAuthority;
      modified, relative := false, false;
      var start, off := 0, Find(fullString, ":", 0);
      if off != NPOS {
        scheme := fullString[..off];
        off := off + 1;
        start := off;
      }
      ok := ParseAuthorityOn(start);
    }

    method ParseAuthorityOn(from: nat) returns (ok: bool)
      requires from <= |fullString| && authority == "" && path == "" && params == [] && fragment == ""
      requires queryString == "" && !relative && !modifiedQuery
      modifies this`relative, this`authority, this`path, this`queryString, this`params, this`modifiedQuery
      modifies this`fragment
      ensures !modifiedQuery
      ensures ParsedUri(ok, Value(), queryString) == ParseAuthority(fullString, from, scheme)
    {
      hide Find, ParsePath;
      var start, hasAuth := from, false;
      if Find(fullString, "//", start) == start {
        hasAuth := true;
        start := start + 2;
      } else if Find(fullString, "/", start) != start {
        if scheme == "" {
          relative := true;
        } else {
          hasAuth := true;
        }
      }
      if hasAuth {
        var off := Find(fullString, "/", start);
        authority := Cut(fullString, start, off);
        start := if off == NPOS then |fullString| else off;
      }
      ok := ParsePathOn(start);
    }

    method ParsePathOn(from: nat) returns (ok: bool)
      requires from <= |fullString| && path == "" && params == [] && fragment == ""
      requires queryString == "" && !modifiedQuery
      modifies this`path, this`queryString, this`params, this`modifiedQuery, this`fragment
      ensures !modifiedQuery
      ensures ParsedUri(ok, Value(), queryString) == ParsePath(fullString, from, scheme, authority, relative)
    {
      hide Find, ParseQueryOn;
      if from < |fullString| {
        var off := Find(fullString, "?", from);
        path := Cut(fullString, from, off);
        if off != NPOS {
          QueryFollows(fullString, from, Value());
          ok := ParseQueryFrom(off + 1);
          return;
        }
      }
      return true;
    }

    method ParseQueryFrom(start: nat) returns (ok: bool)
      requires start <= |fullString| && params == [] && fragment == ""
      modifies this`queryString, this`params, this`modifiedQuery, this`fragment
      ensures !modifiedQuery
      ensures ParsedUri(ok, Value(), queryString) == ParseQueryOn(fullString, start, old(Value()))
    {
      hide Find, ParsePairs;
      var off := Find(fullString, "#", start);
      queryString := Cut(fullString, start, off);
      ok := ParseQuery();
      if !ok {
        return false;
      }
      if off != NPOS {
        fragment := fullString[off + 1..];
      }
    }

    /** Reading back a printed URI leaves its components, with both cached texts up to date. */
    method SetString(uri: string) returns (ok: bool)
      modifies this
      ensures ParsedUri(ok, Value(), queryString) == Parse(uri) && fullString == uri && !modified && !modifiedQuery
      ensures forall u :: Recoverable(u) && uri == Build(u) ==> ok && Value() == u && Coherent()
    {
      Clear();
      fullString := uri;
      ok := ParseString();
      forall u | Recoverable(u) && uri == Build(u) ensures ok && Value() == u && Coherent() {
        RoundTrip(u);
      }
    }

    /** The first parameter with the key, or -1. */
    method FindParam(key: string) returns (r: int)
      ensures r == -1 ==> forall j :: 0 <= j < |params| ==> params[j].key != key
      ensures r != -1 ==> 0 <= r < |params| && params[r].key == key && forall j :: 0 <= j < r ==> params[j].key != key
    {
      var i := 0;
      while i < |params|
        invariant 0 <= i <= |params| && forall j :: 0 <= j < i ==> params[j].key != key
      {
        if params[i].key == key {
          return i;
        }
        i := i + 1;
      }
      return -1;
    }

    method GetQueryParam(key: string) returns (r: string)
      ensures (exists j :: 0 <= j < |params| && params[j] == QueryParam(key, r)
                && forall i :: 0 <= i < j ==> params[i].key != key)
           || (r == "" && forall j :: 0 <= j < |params| ==> params[j].key != key)
    {
      var i := FindParam(key);
      r := if i != -1 then params[i].param else "";
      assert i != -1 ==> params[i] == QueryParam(key, r);
    }
  }
}
