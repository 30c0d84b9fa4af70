/** The content-height map shared by every content region of a sheet:
    route key -> region name -> measured height. Writers never mutate an
    inner map; they rebuild the outer and the inner map with one entry
    replaced (the object-spread copy in the components). */
module ContentHeights {

  type HeightMap = map<string, map<string, real>>

  /** The region name under which a scrollable list reports its height. */
  const LIST_REGION: string := "list"

  /** The height recorded for `region` of `route`; a missing route or a
      missing region reads as 0, as `map[route]?.[region] || 0` does. */
  function Entry(m: HeightMap, route: string, region: string): (h: real)
    ensures route in m && region in m[route] ==> h == m[route][region]
    ensures !(route in m && region in m[route]) ==> h == 0.0
  {
    if route in m && region in m[route] then m[route][region] else 0.0
  }

  /** The copy of `m` in which `[route][region]` is `h`: a route without a
      map starts from an empty one (spreading `undefined` adds nothing). */
  function WithEntry(m: HeightMap, route: string, region: string, h: real): (r: HeightMap)
    ensures route in r && region in r[route] && r[route][region] == h
    ensures r.Keys == m.Keys + {route}
    ensures forall k :: k in m && k != route ==> r[k] == m[k]
    ensures route in m ==> r[route].Keys == m[route].Keys + {region}
    ensures route !in m ==> r[route].Keys == {region}
    ensures forall n :: n in r[route] && n != region ==> r[route][n] == m[route][n]
  {
    m[route := (if route in m then m[route] else map[])[region := h]]
  }

  /** Reading back a written map: only the written cell changed. */
  lemma EntryOfWithEntry(m: HeightMap, route: string, region: string, h: real, route': string, region': string)
    ensures Entry(WithEntry(m, route, region, h), route', region') ==
            if route' == route && region' == region then h else Entry(m, route', region')
  {
  }

  /** Writing the same height twice leaves the map as the first write did. */
  lemma WithEntryIdempotent(m: HeightMap, route: string, region: string, h: real)
    ensures WithEntry(WithEntry(m, route, region, h), route, region, h) == WithEntry(m, route, region, h)
  {
    WithEntryLastWriteWins(m, route, region, h, h);
  }

  /** Two writes to one cell: the later one wins and the earlier one leaves no trace. */
  lemma WithEntryLastWriteWins(m: HeightMap, route: string, region: string, h1: real, h2: real)
    ensures WithEntry(WithEntry(m, route, region, h1), route, region, h2) == WithEntry(m, route, region, h2)
  {
    var a := WithEntry(WithEntry(m, route, region, h1), route, region, h2);
    var b := WithEntry(m, route, region, h2);
    assert a[route] == b[route];
  }

  /** Writes to two different cells commute, so regions reporting in either
      order produce the same map. */
  lemma WithEntryCommutes(m: HeightMap, r1: string, n1: string, h1: real, r2: string, n2: string, h2: real)
    requires r1 != r2 || n1 != n2
    ensures WithEntry(WithEntry(m, r1, n1, h1), r2, n2, h2) == WithEntry(WithEntry(m, r2, n2, h2), r1, n1, h1)
  {
    var a := WithEntry(WithEntry(m, r1, n1, h1), r2, n2, h2);
    var b := WithEntry(WithEntry(m, r2, n2, h2), r1, n1, h1);
    assert a.Keys == b.Keys;
    forall k | k in a
      ensures a[k] == b[k]
    {
      if k == r1 || k == r2 {
        assert a[k].Keys == b[k].Keys;
      }
    }
  }

  /** The holder of the map: `current` is the ref every writer reads and
      rebuilds, `published` is the shared value the sheet observes, and
      `publications` counts the assignments to that shared value (each one
      hands its observers a new map object, equal contents or not). */
  class HeightMapRef {
    var current: HeightMap
    var published: HeightMap
    var publications: nat

    constructor (initial: HeightMap)
      ensures current == initial && published == initial && publications == 0
    {
      current := initial;
      published := initial;
      publications := 0;
    }

    /** `ref.current = next; shared.value = ref.current`. */
    method Publish(next: HeightMap)
      modifies this
      ensures current == next && published == next
      ensures publications == old(publications) + 1
    {
      current := next;
      published := current;
      publications := publications + 1;
    }
  }
}
