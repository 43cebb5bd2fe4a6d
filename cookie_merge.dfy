/** Cookie records as the browser's cookie store reports them, and the
    merge of two fetched lists through a `Map` keyed by
    `${name}-${domain}-${path}` that background.js (twice) and popup.js
    (once) perform. */
module CookieMerge {
  import opened Wrappers

  /** A cookie as `chrome.cookies.getAll` returns it. `sameSite` is the
      attribute's text, with "" standing for an absent value;
      `expirationDate` is absent for session cookies. */
  datatype Cookie = Cookie(
    name: string,
    value: string,
    domain: string,
    path: string,
    secure: bool,
    httpOnly: bool,
    sameSite: string,
    expirationDate: Option<real>,
    hostOnly: bool,
    session: bool,
    storeId: string)

  /** The map key: the three fields joined by '-' into one string. */
  function Key(c: Cookie): string
  {
    c.name + "-" + c.domain + "-" + c.path
  }

  /** The key of each cookie, in list order. */
  function KeysOf(cs: seq<Cookie>): (ks: seq<string>)
    ensures |ks| == |cs|
  {
    seq(|cs|, i requires 0 <= i < |cs| => Key(cs[i]))
  }

  predicate Distinct(ks: seq<string>)
  {
    forall i, j :: 0 <= i < j < |ks| ==> ks[i] != ks[j]
  }

  /** The keys of `cs` in the order in which each first appears: the key
      order of a `Map` that was `set` with every cookie of `cs` in turn. */
  function FirstKeys(cs: seq<Cookie>): (ks: seq<string>)
    decreases |cs|
  {
    if cs == [] then []
    else
      var ks := FirstKeys(cs[..|cs| - 1]);
      var k := Key(cs[|cs| - 1]);
      if k in ks then ks else ks + [k]
  }

  /** The first-appearance order holds each key of `cs` exactly once. */
  lemma {:induction false} FirstKeysFacts(cs: seq<Cookie>)
    ensures Distinct(FirstKeys(cs))
    ensures forall k :: k in FirstKeys(cs) <==> k in KeysOf(cs)
    decreases |cs|
  {
    if cs != [] {
      var init, c := cs[..|cs| - 1], cs[|cs| - 1];
      FirstKeysFacts(init);
      assert cs == init + [c];
      KeysOfAppend(init, c);
    }
  }

  /** The position of the last cookie of `cs` whose key is `k`: the value a
      `Map` holds for `k` after every cookie of `cs` was `set`. */
  function LastIndex(cs: seq<Cookie>, k: string): (j: nat)
    requires k in KeysOf(cs)
    ensures j < |cs| && Key(cs[j]) == k
    ensures forall m :: j < m < |cs| ==> Key(cs[m]) != k
    decreases |cs|
  {
    var n := |cs| - 1;
    if Key(cs[n]) == k then n
    else
      assert KeysOf(cs) == KeysOf(cs[..n]) + [Key(cs[n])];
      LastIndex(cs[..n], k)
  }

  /** `Array.from(map.values())` after the fold over `cs`: one cookie per key,
      in first-appearance order, each the last cookie with that key. */
  function Merged(cs: seq<Cookie>): (r: seq<Cookie>)
    ensures |r| == |FirstKeys(cs)|
  {
    FirstKeysFacts(cs);
    var ks := FirstKeys(cs);
    seq(|ks|, i requires 0 <= i < |ks| => cs[LastIndex(cs, ks[i])])
  }

  /** The map's contents after the fold over `cs`: each key of `cs` bound to
      its last cookie. */
  function TableOf(cs: seq<Cookie>): (t: map<string, Cookie>)
    ensures forall k :: k in t <==> k in KeysOf(cs)
  {
    map k | k in KeysOf(cs) :: cs[LastIndex(cs, k)]
  }

  /** One `map.set(Key(c), c)`: a new key goes to the end of the key order,
      and the key of `c` is now bound to `c`. */
  lemma SetStepOrder(cs: seq<Cookie>, c: Cookie)
    ensures FirstKeys(cs + [c]) == if Key(c) in FirstKeys(cs) then FirstKeys(cs) else FirstKeys(cs) + [Key(c)]
  {
    assert (cs + [c])[..|cs|] == cs;
  }

  lemma SetStepTable(cs: seq<Cookie>, c: Cookie)
    ensures TableOf(cs + [c]) == TableOf(cs)[Key(c) := c]
  {
    var t, t' := TableOf(cs), TableOf(cs + [c]);
    TableKeysAppend(cs, c);
    TableNewValue(cs, c);
    forall k | k in t' ensures t'[k] == t[Key(c) := c][k] {
      if k != Key(c) {
        LastIndexAppend(cs, c, k);
      }
    }
  }

  lemma TableKeysAppend(cs: seq<Cookie>, c: Cookie)
    ensures TableOf(cs + [c]).Keys == TableOf(cs).Keys + {Key(c)}
  {
    KeysOfAppend(cs, c);
  }

  lemma TableNewValue(cs: seq<Cookie>, c: Cookie)
    ensures Key(c) in TableOf(cs + [c]) && TableOf(cs + [c])[Key(c)] == c
  {
    KeysOfAppend(cs, c);
    assert LastIndex(cs + [c], Key(c)) == |cs|;
  }

  lemma KeysOfAppend(cs: seq<Cookie>, c: Cookie)
    ensures KeysOf(cs + [c]) == KeysOf(cs) + [Key(c)]
  {
  }

  /** Appending a cookie with another key leaves the last index of `k`. */
  lemma LastIndexAppend(cs: seq<Cookie>, c: Cookie, k: string)
    requires k in KeysOf(cs) && k != Key(c)
    ensures k in KeysOf(cs + [c]) && LastIndex(cs + [c], k) == LastIndex(cs, k)
  {
    KeysOfAppend(cs, c);
    assert (cs + [c])[..|cs|] == cs;
  }

  /** One turn of the fold: the key order and the map after `map.set(Key(c), c)`. */
  lemma FoldStep(cs: seq<Cookie>, c: Cookie, order: seq<string>, table: map<string, Cookie>)
    requires order == FirstKeys(cs) && table == TableOf(cs)
    ensures (if Key(c) in table then order else order + [Key(c)]) == FirstKeys(cs + [c])
    ensures table[Key(c) := c] == TableOf(cs + [c])
  {
    FirstKeysFacts(cs);
    SetStepOrder(cs, c);
    SetStepTable(cs, c);
  }

  /** The map's values listed in the given key order. */
  function ReadOut(order: seq<string>, table: map<string, Cookie>): seq<Cookie>
    requires forall k :: k in order ==> k in table
  {
    seq(|order|, j requires 0 <= j < |order| => table[order[j]])
  }

  /** The merged list reads the fold's map in the fold's key order. */
  lemma MergedIsReadOut(cs: seq<Cookie>)
    ensures forall k :: k in FirstKeys(cs) ==> k in TableOf(cs)
    ensures Merged(cs) == ReadOut(FirstKeys(cs), TableOf(cs))
  {
    FirstKeysFacts(cs);
    var ks, t := FirstKeys(cs), TableOf(cs);
    forall j | 0 <= j < |ks| ensures ks[j] in t && t[ks[j]] == Merged(cs)[j] {
      assert ks[j] in ks;
    }
  }

  /** The fold itself: every cookie of the domain list and then of the URL
      list is `set` under its key in a map that keeps insertion order. */
  method MergeCookies(domainCookies: seq<Cookie>, urlCookies: seq<Cookie>) returns (merged: seq<Cookie>)
    ensures merged == Merged(domainCookies + urlCookies)
  {
    var all := domainCookies + urlCookies;
    var order: seq<string> := [];
    var table: map<string, Cookie> := map[];
    var i := 0;
    while i < |all|
      invariant 0 <= i <= |all|
      invariant order == FirstKeys(all[..i])
      invariant table == TableOf(all[..i])
    {
      var c := all[i];
      var k := Key(c);
      assert all[..i + 1] == all[..i] + [c];
      FoldStep(all[..i], c, order, table);
      if k !in table {
        order := order + [k];
      }
      table := table[k := c];
      i := i + 1;
    }
    assert all[..i] == all;
    MergedIsReadOut(all);
    merged := ReadOut(order, table);
  }

  /** The merged list holds exactly one cookie per distinct key string. */
  lemma MergedOnePerKey(cs: seq<Cookie>)
    ensures KeysOf(Merged(cs)) == FirstKeys(cs)
    ensures Distinct(KeysOf(Merged(cs)))
    ensures forall k :: k in KeysOf(Merged(cs)) <==> k in KeysOf(cs)
  {
    FirstKeysFacts(cs);
    var r := Merged(cs);
    var ks := FirstKeys(cs);
    forall i | 0 <= i < |r| ensures KeysOf(r)[i] == ks[i] {
      assert r[i] == cs[LastIndex(cs, ks[i])];
    }
  }

  /** Each merged cookie is the last cookie of the input with its key. */
  lemma MergedIsLastOccurrence(cs: seq<Cookie>, i: nat)
    requires i < |Merged(cs)|
    ensures exists j :: (0 <= j < |cs| && Merged(cs)[i] == cs[j]
      && forall m :: j < m < |cs| ==> Key(cs[m]) != Key(cs[j]))
  {
    FirstKeysFacts(cs);
    var ks := FirstKeys(cs);
    var j := LastIndex(cs, ks[i]);
    assert Merged(cs)[i] == cs[j];
  }

  /** Appending more cookies never moves a key already present: the key order
      of a prefix is a prefix of the key order of the whole. */
  lemma {:induction false} FirstKeysPrefix(a: seq<Cookie>, b: seq<Cookie>)
    ensures |FirstKeys(a)| <= |FirstKeys(a + b)|
    ensures FirstKeys(a + b)[..|FirstKeys(a)|] == FirstKeys(a)
    decreases |b|
  {
    if b == [] {
      assert a + b == a;
    } else {
      var b' := b[..|b| - 1];
      FirstKeysPrefix(a, b');
      assert (a + b)[..|a + b| - 1] == a + b';
    }
  }

  /** A cookie of the URL list overrides every domain-list cookie with the
      same key, while the key keeps the place it had among the domain
      cookies. */
  lemma UrlListOverrides(domainCookies: seq<Cookie>, urlCookies: seq<Cookie>, k: string)
    requires k in KeysOf(urlCookies)
    ensures var all := domainCookies + urlCookies;
      && k in KeysOf(all)
      && LastIndex(all, k) == |domainCookies| + LastIndex(urlCookies, k)
      && all[LastIndex(all, k)] == urlCookies[LastIndex(urlCookies, k)]
  {
    var all := domainCookies + urlCookies;
    var d := |domainCookies|;
    var j := LastIndex(urlCookies, k);
    assert all[d + j] == urlCookies[j];
    assert KeysOf(all)[d + j] == k;
  }

  /** The position of a key in the merged list is where it first appears:
      among the domain cookies when it is one of their keys. */
  lemma DomainOrderKept(domainCookies: seq<Cookie>, urlCookies: seq<Cookie>, i: nat)
    requires i < |FirstKeys(domainCookies)|
    ensures i < |Merged(domainCookies + urlCookies)|
    ensures Key(Merged(domainCookies + urlCookies)[i]) == FirstKeys(domainCookies)[i]
  {
    FirstKeysPrefix(domainCookies, urlCookies);
    MergedOnePerKey(domainCookies + urlCookies);
    assert KeysOf(Merged(domainCookies + urlCookies))[i] == FirstKeys(domainCookies + urlCookies)[i];
  }

  /** The set of key strings occurring in `cs`. */
  function KeySet(cs: seq<Cookie>): set<string>
  {
    set k | k in KeysOf(cs)
  }

  lemma {:induction false} DistinctCardinality(ks: seq<string>)
    requires Distinct(ks)
    ensures |set k | k in ks| == |ks|
    decreases |ks|
  {
    if ks != [] {
      var init := ks[..|ks| - 1];
      var last := ks[|ks| - 1];
      DistinctCardinality(init);
      assert (set k | k in ks) == (set k | k in init) + {last};
      assert last !in init;
    }
  }

  /** The size of the map is the number of distinct key strings. */
  lemma MergedSize(cs: seq<Cookie>)
    ensures |Merged(cs)| == |KeySet(cs)|
  {
    FirstKeysFacts(cs);
    var ks := FirstKeys(cs);
    DistinctCardinality(ks);
    assert (set k | k in ks) == KeySet(cs);
  }

  /** Keys are strings, not triples: a name containing '-' can collide with
      another cookie's domain, and then only the later cookie survives. */
  lemma KeyCollision(x: Cookie, y: Cookie)
    requires x.name == "a-b" && x.domain == "c" && y.name == "a" && y.domain == "b-c"
    requires x.path == y.path
    ensures Key(x) == Key(y)
    ensures Merged([x, y]) == [y]
  {
    assert Key(x) == "a-b-c-" + x.path;
    assert Key(y) == "a-b-c-" + y.path;
    assert [x, y][..1] == [x];
    assert FirstKeys([x]) == [Key(x)];
    assert FirstKeys([x, y]) == [Key(x)];
    assert KeysOf([x, y])[1] == Key(y);
    assert LastIndex([x, y], Key(x)) == 1;
  }

  /** Domain list [A, B] and URL list [B, C], with the keys of A, B and C
      pairwise different, merge into exactly three cookies, A, B and C. */
  lemma MergeThree(a: Cookie, b: Cookie, c: Cookie)
    requires Key(a) != Key(b) && Key(b) != Key(c) && Key(a) != Key(c)
    ensures Merged([a, b] + [b, c]) == [a, b, c]
  {
    var all := [a, b] + [b, c];
    FirstKeysOfThree(a, b, c);
    assert KeysOf(all) == [Key(a), Key(b), Key(b), Key(c)];
    var ia, ib, ic := LastIndex(all, Key(a)), LastIndex(all, Key(b)), LastIndex(all, Key(c));
    assert ia == 0 && ib == 2 && ic == 3;
    var r := Merged(all);
    assert r[0] == a && r[1] == b && r[2] == c;
  }

  lemma FirstKeysOfThree(a: Cookie, b: Cookie, c: Cookie)
    requires Key(a) != Key(b) && Key(b) != Key(c) && Key(a) != Key(c)
    ensures FirstKeys([a, b] + [b, c]) == [Key(a), Key(b), Key(c)]
  {
    FirstKeysOfTwo(a, b);
    SetStepOrder([a, b], b);
    assert [a, b] + [b] == [a, b, b];
    SetStepOrder([a, b, b], c);
    assert [a, b, b] + [c] == [a, b] + [b, c];
  }

  lemma FirstKeysOfTwo(a: Cookie, b: Cookie)
    requires Key(a) != Key(b)
    ensures FirstKeys([a, b]) == [Key(a), Key(b)]
  {
    SetStepOrder([], a);
    assert [] + [a] == [a];
    SetStepOrder([a], b);
    assert [a] + [b] == [a, b];
  }
}
