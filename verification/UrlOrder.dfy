/** The order of URLs and duplicate-free sorting. */
module UrlOrder {
  import opened StoreModel

  /** The order of the URLs' strings, by scalar value. */
  predicate Before(a: Url, b: Url) {
    b != [] && (a == [] || a[0] < b[0] || (a[0] == b[0] && Before(a[1..], b[1..])))
  }

  ghost predicate StrictlySorted(urls: seq<Url>) {
    forall i, j :: 0 <= i < j < |urls| ==> Before(urls[i], urls[j])
  }

  /** One URL comes before another exactly when it is a proper prefix, or smaller at the first difference. */
  lemma {:induction false} BeforeIff(a: Url, b: Url)
    ensures Before(a, b) <==> exists k :: 0 <= k <= |a| && DiffersAt(a, b, k)
  {
    if a == [] {
      assert b != [] ==> DiffersAt(a, b, 0);
    } else if b != [] && a[0] == b[0] {
      BeforeIff(a[1..], b[1..]);
      assert a == [a[0]] + a[1..] && b == [b[0]] + b[1..];
      if Before(a[1..], b[1..]) {
        var k :| 0 <= k < |a| && DiffersAt(a[1..], b[1..], k);
        assert a[..k + 1] == [a[0]] + a[1..][..k] && b[..k + 1] == [b[0]] + b[1..][..k];
        assert DiffersAt(a, b, k + 1);
      }
      if k :| 0 <= k <= |a| && DiffersAt(a, b, k) {
        assert k > 0;
        assert a[1..][..k - 1] == a[..k][1..] && b[1..][..k - 1] == b[..k][1..];
        assert DiffersAt(a[1..], b[1..], k - 1);
      }
    } else if b != [] {
      assert a[0] < b[0] ==> DiffersAt(a, b, 0);
    }
  }

  /** The URLs agree up to `k`, where the first ends or has the smaller scalar value. */
  predicate DiffersAt(a: Url, b: Url, k: nat) {
    k <= |a| && k < |b| && a[..k] == b[..k] && (k == |a| || a[k] < b[k])
  }

  lemma {:induction false} BeforeTransitive(a: Url, b: Url, c: Url)
    requires Before(a, b) && Before(b, c)
    ensures Before(a, c)
  {
    if a != [] && a[0] == b[0] == c[0] {
      BeforeTransitive(a[1..], b[1..], c[1..]);
    }
  }

  lemma {:induction false} BeforeTotal(a: Url, b: Url)
    ensures a == b || Before(a, b) || Before(b, a)
    ensures !(Before(a, b) && Before(b, a))
  {
    if a != [] && b != [] {
      BeforeTotal(a[1..], b[1..]);
      assert a == [a[0]] + a[1..] && b == [b[0]] + b[1..];
    }
  }

  /** A strictly sorted list is determined by its elements. */
  lemma {:induction false} SortedUnique(a: seq<Url>, b: seq<Url>)
    requires StrictlySorted(a) && StrictlySorted(b) && SetOf(a) == SetOf(b)
    ensures a == b
  {
    assert a != [] ==> a[0] in SetOf(a);
    assert b != [] ==> b[0] in SetOf(b);
    if a != [] && b != [] {
      BeforeTotal(a[0], b[0]);
      TailSet(a);
      TailSet(b);
      SortedUnique(a[1..], b[1..]);
    }
  }

  lemma TailSet(a: seq<Url>)
    requires a != [] && StrictlySorted(a)
    ensures SetOf(a[1..]) == SetOf(a) - {a[0]}
  {
    BeforeTotal(a[0], a[0]);
    forall u | u in SetOf(a) - {a[0]} ensures u in SetOf(a[1..]) {
      var i :| 0 <= i < |a| && a[i] == u;
      assert a[1..][i - 1] == u;
    }
    forall i | 0 < i < |a| ensures a[i] != a[0] {
      BeforeTotal(a[0], a[i]);
    }
  }

  /** Insertion into a sorted list; a URL already there is not inserted again. */
  function InsertUrl(u: Url, urls: seq<Url>): seq<Url> {
    if urls == [] then [u]
    else if u == urls[0] then urls
    else if Before(u, urls[0]) then [u] + urls
    else [urls[0]] + InsertUrl(u, urls[1..])
  }

  lemma {:induction false} InsertUrlSorts(u: Url, urls: seq<Url>)
    requires StrictlySorted(urls)
    ensures StrictlySorted(InsertUrl(u, urls))
    ensures SetOf(InsertUrl(u, urls)) == SetOf(urls) + {u}
  {
    var r := InsertUrl(u, urls);
    if urls != [] && u != urls[0] {
      if Before(u, urls[0]) {
        forall i | 0 < i < |urls| ensures Before(u, urls[i]) {
          BeforeTransitive(u, urls[0], urls[i]);
        }
      } else {
        BeforeTotal(u, urls[0]);
        InsertUrlSorts(u, urls[1..]);
        forall i | 0 < i < |r| ensures Before(r[0], r[i]) {
          assert r[i] in SetOf(InsertUrl(u, urls[1..]));
        }
        assert SetOf(r) == {urls[0]} + SetOf(r[1..]);
        assert SetOf(urls) == {urls[0]} + SetOf(urls[1..]);
      }
    }
  }

  /** The URLs of a list, deduplicated and sorted. */
  method SortUrls(urls: seq<Url>) returns (sorted: seq<Url>)
    ensures StrictlySorted(sorted) && SetOf(sorted) == SetOf(urls)
  {
    sorted := [];
    for i := 0 to |urls|
      invariant StrictlySorted(sorted) && SetOf(sorted) == SetOf(urls[..i])
    {
      InsertUrlSorts(urls[i], sorted);
      sorted := InsertUrl(urls[i], sorted);
      assert urls[..i + 1] == urls[..i] + [urls[i]];
    }
    assert urls[..|urls|] == urls;
  }

  /** The keys of a map, sorted. */
  method SortedKeys<V>(m: map<Url, V>) returns (sorted: seq<Url>)
    ensures StrictlySorted(sorted) && SetOf(sorted) == m.Keys
  {
    sorted := [];
    var left := m.Keys;
    while left != {}
      invariant left <= m.Keys && StrictlySorted(sorted) && SetOf(sorted) == m.Keys - left
    {
      var u :| u in left;
      InsertUrlSorts(u, sorted);
      sorted := InsertUrl(u, sorted);
      left := left - {u};
    }
  }
}
