/** The searcher's page cache: a `LinkedHashMap` in access order whose
    `removeEldestEntry` drops the least recently accessed page once more than
    ten are held. The access order is kept as a sequence of page ids, eldest
    first. */
module Cache {
  import opened Wrappers
  import opened Utf

  const CACHE_CAPACITY: int := 10

  datatype PageCache = PageCache(order: seq<int>, pages: map<int, seq<Byte>>)

  predicate Distinct(s: seq<int>)
  {
    forall i, j :: 0 <= i < j < |s| ==> s[i] != s[j]
  }

  /** The order lists each cached id once, and no more than ten are held. */
  ghost predicate CacheWellFormed(c: PageCache)
  {
    Distinct(c.order) && (forall id :: id in c.pages <==> id in c.order) && |c.order| <= CACHE_CAPACITY
  }

  function EmptyCache(): (c: PageCache)
    ensures CacheWellFormed(c) && c.pages == map[]
  {
    PageCache([], map[])
  }

  /** `s` without `x`, the rest in order. */
  function Remove(s: seq<int>, x: int): (r: seq<int>)
    ensures forall y :: y in r <==> y in s && y != x
    ensures Distinct(s) ==> Distinct(r)
    ensures x in s && Distinct(s) ==> |r| == |s| - 1
    ensures x !in s ==> r == s
  {
    if |s| == 0 then []
    else
      var rest := Remove(s[1..], x);
      if s[0] == x then
        assert Distinct(s) ==> x !in s[1..] by {
          if Distinct(s) {
            forall j | 0 <= j < |s[1..]| ensures s[1..][j] != x {
              assert s[1..][j] == s[j + 1];
            }
          }
        }
        rest
      else
        assert Distinct(s) ==> Distinct(s[1..]) by {
          if Distinct(s) {
            forall i, j | 0 <= i < j < |s[1..]| ensures s[1..][i] != s[1..][j] {
              assert s[1..][i] == s[i + 1] && s[1..][j] == s[j + 1];
            }
          }
        }
        var r := [s[0]] + rest;
        assert Distinct(s) ==> Distinct(r) by {
          if Distinct(s) {
            assert s[0] !in s[1..] by {
              forall j | 0 <= j < |s[1..]| ensures s[1..][j] != s[0] {
                assert s[1..][j] == s[j + 1];
              }
            }
            forall i, j | 0 <= i < j < |r| ensures r[i] != r[j] {
              if i == 0 { assert r[j] in rest; }
              else { assert r[i] == rest[i - 1] && r[j] == rest[j - 1]; }
            }
          }
        }
        r
  }

  /** An access: `id` becomes the most recently used. */
  function Touch(order: seq<int>, id: int): seq<int>
  {
    Remove(order, id) + [id]
  }

  /** `get`: a hit returns the stored page and counts as an access; a miss
      changes nothing. */
  function CacheGet(c: PageCache, id: int): (r: (Option<seq<Byte>>, PageCache))
  {
    if id in c.pages then (Some(c.pages[id]), c.(order := Touch(c.order, id))) else (None, c)
  }

  /** `put` of a new page: it becomes the most recent, and when more than ten
      are then held the eldest is dropped. */
  function CachePut(c: PageCache, id: int, data: seq<Byte>): PageCache
  {
    var order := c.order + [id];
    var pages := c.pages[id := data];
    if |order| > CACHE_CAPACITY then PageCache(order[1..], pages - {order[0]}) else PageCache(order, pages)
  }

  /** A hit returns the stored page, moves it to the most recent place and
      keeps every page and every other access in order; a miss leaves the
      cache as it was. */
  lemma CacheGetFacts(c: PageCache, id: int)
    requires CacheWellFormed(c)
    ensures var (r, c2) := CacheGet(c, id);
      CacheWellFormed(c2) && c2.pages == c.pages &&
      (r.Some? <==> id in c.pages) &&
      (id in c.pages ==> r.value == c.pages[id] && c2.order == Remove(c.order, id) + [id]) &&
      (id !in c.pages ==> c2 == c)
  {
    if id in c.pages {
      var o := Touch(c.order, id);
      assert Distinct(o) by {
        forall i, j | 0 <= i < j < |o| ensures o[i] != o[j] {
          if j == |o| - 1 { assert o[i] in Remove(c.order, id); }
          else { assert o[i] == Remove(c.order, id)[i] && o[j] == Remove(c.order, id)[j]; }
        }
      }
      assert forall x :: x in o <==> x in c.order;
    }
  }

  /** Putting a new page makes it the most recent; when the cache was full the
      least recently accessed page is the one dropped, and every other page
      stays. */
  lemma CachePutFacts(c: PageCache, id: int, data: seq<Byte>)
    requires CacheWellFormed(c) && id !in c.pages
    ensures var c2 := CachePut(c, id, data);
      CacheWellFormed(c2) &&
      id in c2.pages && c2.pages[id] == data && c2.order[|c2.order| - 1] == id &&
      (|c.order| < CACHE_CAPACITY ==> c2.order == c.order + [id] && c2.pages == c.pages[id := data]) &&
      (|c.order| == CACHE_CAPACITY ==>
        c2.order == c.order[1..] + [id] && c2.pages == c.pages[id := data] - {c.order[0]})
  {
    var order := c.order + [id];
    assert Distinct(order) by {
      forall i, j | 0 <= i < j < |order| ensures order[i] != order[j] {
        if j == |order| - 1 { assert order[i] in c.order; }
        else { assert order[i] == c.order[i] && order[j] == c.order[j]; }
      }
    }
    if |order| > CACHE_CAPACITY {
      var o2 := order[1..];
      assert o2 == c.order[1..] + [id];
      assert Distinct(o2) by {
        forall i, j | 0 <= i < j < |o2| ensures o2[i] != o2[j] {
          assert o2[i] == order[i + 1] && o2[j] == order[j + 1];
        }
      }
      assert order[0] !in o2 by {
        forall j | 0 <= j < |o2| ensures o2[j] != order[0] {
          assert o2[j] == order[j + 1];
        }
      }
      assert forall x :: x in o2 <==> x in order && x != order[0] by {
        forall x ensures x in o2 <==> x in order && x != order[0] {
          if x in order && x != order[0] {
            var j :| 0 <= j < |order| && order[j] == x;
            assert o2[j - 1] == x;
          }
        }
      }
    }
  }
}
