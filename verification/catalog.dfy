/** The adapter's immutable snapshot of declared services: each service
    name maps to its details, of which name resolution reads the image. */
module ServiceCatalog {
  import opened Options

  /** The part of a declared service's details document the adapter uses. */
  datatype Details = Details(image: string)

  /** Service name to details, loaded once when the adapter is built. */
  type Catalog = map<string, Details>

  /** A Go `range` over a map visits every key exactly once, in an order the
      language leaves unspecified; `order` is one such visit order. */
  predicate IsIterationOrder(order: seq<string>, c: Catalog) {
    && (forall i :: 0 <= i < |order| ==> order[i] in c)
    && (forall k :: k in c ==> k in order)
    && Distinct(order)
  }

  predicate Distinct(s: seq<string>) {
    forall i, j :: 0 <= i < j < |s| ==> s[i] != s[j]
  }

  /** No two declared services expect the same image. */
  ghost predicate UniqueImages(c: Catalog) {
    forall k1, k2 :: k1 in c && k2 in c && c[k1].image == c[k2].image ==> k1 == k2
  }

  /** Some declared service expects `image`. */
  ghost predicate Declares(c: Catalog, image: string) {
    exists k :: k in c && c[k].image == image
  }

  /** Visits the keys in `order` and returns the first one whose image is
      `image`, or None when no visited key matches. */
  function FindByImage(c: Catalog, order: seq<string>, image: string): (r: Option<string>)
    requires forall i :: 0 <= i < |order| ==> order[i] in c
    ensures r.Some? ==> r.value in order && r.value in c && c[r.value].image == image
    ensures r.None? ==> forall i :: 0 <= i < |order| ==> c[order[i]].image != image
    ensures r.Some? ==> exists i :: 0 <= i < |order| && order[i] == r.value
                                    && forall j :: 0 <= j < i ==> c[order[j]].image != image
  {
    if |order| == 0 then None
    else if c[order[0]].image == image then Some(order[0])
    else
      var r := FindByImage(c, order[1..], image);
      if r.Some? then
        var i :| 0 <= i < |order[1..]| && order[1..][i] == r.value
                 && forall j :: 0 <= j < i ==> c[order[1..][j]].image != image;
        assert order[i + 1] == r.value;
        assert forall j :: 0 <= j < i + 1 ==> c[order[j]].image != image by {
          forall j | 0 <= j < i + 1 ensures c[order[j]].image != image {
            if j > 0 {
              assert order[j] == order[1..][j - 1];
            }
          }
        }
        r
      else
        r
  }

  /** Over a complete iteration order the search succeeds exactly when some
      declared service expects the image. */
  lemma FindByImageComplete(c: Catalog, order: seq<string>, image: string)
    requires IsIterationOrder(order, c)
    ensures FindByImage(c, order, image).Some? <==> Declares(c, image)
  {
    var r := FindByImage(c, order, image);
    if Declares(c, image) {
      var k :| k in c && c[k].image == image;
      var i :| 0 <= i < |order| && order[i] == k;
      assert c[order[i]].image == image;
    }
  }

  /** When images are unique every iteration order finds the same service,
      so the unspecified Go map order cannot change the outcome. */
  lemma FindByImageOrderIndependent(c: Catalog, o1: seq<string>, o2: seq<string>, image: string)
    requires UniqueImages(c)
    requires IsIterationOrder(o1, c) && IsIterationOrder(o2, c)
    ensures FindByImage(c, o1, image) == FindByImage(c, o2, image)
  {
    FindByImageComplete(c, o1, image);
    FindByImageComplete(c, o2, image);
  }

  /** `s` with every occurrence of `x` removed, order otherwise kept. */
  function Without(s: seq<string>, x: string): (r: seq<string>)
    ensures forall y :: y in r <==> y in s && y != x
    ensures Distinct(s) ==> Distinct(r)
  {
    if |s| == 0 then []
    else if s[0] == x then Without(s[1..], x)
    else
      var rest := Without(s[1..], x);
      assert Distinct(s) ==> s[0] !in s[1..];
      [s[0]] + rest
  }

  /** Any declared service whose image matches can be the one found: moving
      it to the front of an iteration order gives another iteration order
      under which the search returns it. */
  lemma {:induction false} EveryMatchReachable(c: Catalog, order: seq<string>, k: string)
    requires IsIterationOrder(order, c)
    requires k in c
    ensures IsIterationOrder([k] + Without(order, k), c)
    ensures FindByImage(c, [k] + Without(order, k), c[k].image) == Some(k)
  {
    var o := [k] + Without(order, k);
    forall i | 0 <= i < |o| ensures o[i] in c {
      if i > 0 {
        assert o[i] in Without(order, k);
      }
    }
    forall k' | k' in c ensures k' in o {
      if k' != k {
        assert k' in Without(order, k);
      }
    }
    assert Distinct(o) by {
      assert Distinct(Without(order, k));
      assert k !in Without(order, k);
      forall i, j | 0 <= i < j < |o| ensures o[i] != o[j] {
        if i == 0 {
          assert o[j] in Without(order, k);
        } else {
          assert o[i] == Without(order, k)[i - 1];
          assert o[j] == Without(order, k)[j - 1];
        }
      }
    }
  }
}
