/**
  The paged connection registry of connections.go: a growable list of
  `ConnectionInfo` records kept as fixed-capacity pages, so that appending
  never moves a record that is already stored.
 */
module Registry {
  import opened Wrappers
  import opened Common

  /** One worker slot; `connected == false` marks a free slot. */
  datatype ConnectionInfo = ConnectionInfo(connected: bool, interIP: string, outerIP: string, count: uint32)

  /** Go's zero value `ConnectionInfo{}`. */
  const Zero := ConnectionInfo(false, "", "", 0)

  type Page = seq<ConnectionInfo>

  /**
    The `Connections` struct: `pages[p]` is `*datas[p]`, the current page is
    `pages[currentMapIndex]` (Go's `currentSlice`), and `count` is the logical
    length.
   */
  datatype Connections = Connections(pages: seq<Page>, currentMapIndex: int, capacity: int, count: int)

  /** The records of all pages, in index order. */
  ghost function Flatten(pages: seq<Page>): seq<ConnectionInfo>
  {
    if |pages| == 0 then [] else Flatten(pages[..|pages| - 1]) + pages[|pages| - 1]
  }

  /**
    The paging invariant: the map holds pages 0 to `currentMapIndex`, every
    page before the current one is full, the current one is not over-full and
    is empty only while it is the first page, and `count` is the number of
    records stored (see `PagingCount` for the arithmetic form).
   */
  ghost predicate Valid(c: Connections)
  {
    && c.capacity > 0
    && 0 <= c.currentMapIndex
    && |c.pages| == c.currentMapIndex + 1
    && (forall p :: 0 <= p < c.currentMapIndex ==> |c.pages[p]| == c.capacity)
    && |c.pages[c.currentMapIndex]| <= c.capacity
    && (c.currentMapIndex > 0 ==> |c.pages[c.currentMapIndex]| > 0)
    && c.count == |Flatten(c.pages)|
  }

  /** The flattened view: record `i` of the registry is `Elements(c)[i]`. */
  ghost function Elements(c: Connections): seq<ConnectionInfo>
  {
    Flatten(c.pages)
  }

  lemma MulMonotone(a: int, b: int, k: int)
    requires a <= b && k >= 0
    ensures a * k <= b * k
  {
  }

  /** Positions `p * cap + o` with `o < cap` are ordered by page first, then by offset. */
  lemma PageOrder(p: int, o: int, q: int, l: int, cap: int)
    requires cap > 0 && p >= 0 && q >= 0 && 0 <= o < cap && 0 <= l <= cap
    ensures p * cap + o < q * cap + l <==> (p < q || (p == q && o < l))
  {
    if p < q {
      MulMonotone(p + 1, q, cap);
      assert (p + 1) * cap == p * cap + cap;
    } else if p > q {
      MulMonotone(q + 1, p, cap);
      assert (q + 1) * cap == q * cap + cap;
    }
  }

  /** The pages before the last one hold `cap` records each. */
  lemma {:induction false} FlattenLength(pages: seq<Page>, cap: int)
    requires cap > 0 && |pages| > 0
    requires forall p :: 0 <= p < |pages| - 1 ==> |pages[p]| == cap
    ensures |Flatten(pages)| == (|pages| - 1) * cap + |pages[|pages| - 1]|
  {
    var n := |pages|;
    if n > 1 {
      var init := pages[..n - 1];
      FlattenLength(init, cap);
      assert (n - 2) * cap + cap == (n - 1) * cap;
    }
  }

  /** Page `p`, offset `o` sits at index `p * cap + o` of the flattened view. */
  lemma {:induction false} FlattenAt(pages: seq<Page>, cap: int, p: int, o: int)
    requires cap > 0 && |pages| > 0
    requires forall q :: 0 <= q < |pages| - 1 ==> |pages[q]| == cap
    requires 0 <= p < |pages| && 0 <= o < |pages[p]|
    ensures p * cap + o < |Flatten(pages)|
    ensures Flatten(pages)[p * cap + o] == pages[p][o]
  {
    var n := |pages|;
    FlattenLength(pages, cap);
    if n > 1 {
      var init := pages[..n - 1];
      FlattenLength(init, cap);
      var base := |Flatten(init)|;
      assert base == (n - 2) * cap + cap == (n - 1) * cap;
      assert Flatten(pages) == Flatten(init) + pages[n - 1];
      if p < n - 1 {
        assert init[p] == pages[p];
        FlattenAt(init, cap, p, o);
      }
    }
  }

  /** `count == currentMapIndex * capacity + len(currentSlice)`. */
  lemma PagingCount(c: Connections)
    requires Valid(c)
    ensures c.count == c.currentMapIndex * c.capacity + |c.pages[c.currentMapIndex]|
  {
    FlattenLength(c.pages, c.capacity);
  }

  /** Index `k` of the flattened view is at page `k / capacity`, offset `k % capacity`. */
  lemma Locate(c: Connections, k: int)
    requires Valid(c) && 0 <= k < c.count
    ensures k / c.capacity <= c.currentMapIndex
    ensures k % c.capacity < |c.pages[k / c.capacity]|
    ensures Elements(c)[k] == c.pages[k / c.capacity][k % c.capacity]
  {
    var cap, cur := c.capacity, c.currentMapIndex;
    InRange(c, k);
    var p, o := k / cap, k % cap;
    assert k == p * cap + o;
    if p < cur {
      assert |c.pages[p]| == cap;
    }
    FlattenAt(c.pages, cap, p, o);
  }

  /** `NewConnections(capacity)`: an empty registry with one empty page at map index 0. */
  function NewConnections(capacity: int): (r: Connections)
    requires capacity > 0
    ensures Valid(r) && r.capacity == capacity
    ensures Elements(r) == [] && r.count == 0
    ensures r.currentMapIndex == 0 && r.pages == [[]]
  {
    Connections([[]], 0, capacity, 0)
  }

  /** `Count()`: the logical length of the registry. */
  function Count(c: Connections): (r: int)
    requires Valid(c)
    ensures r == |Elements(c)|
    ensures r == c.currentMapIndex * c.capacity + |c.pages[c.currentMapIndex]|
  {
    PagingCount(c);
    c.count
  }

  /**
    `Append(ci)`: the record lands at index `count`; a new page is opened
    exactly when the current one is full, so every record already stored keeps
    its page and offset.
   */
  function Append(c: Connections, ci: ConnectionInfo): (r: Connections)
    requires Valid(c)
    ensures Valid(r) && r.capacity == c.capacity
    ensures r.count == c.count + 1
    ensures Elements(r) == Elements(c) + [ci]
    ensures |c.pages| <= |r.pages| <= |c.pages| + 1
    ensures |r.pages| > |c.pages| <==> |c.pages[c.currentMapIndex]| == c.capacity
    ensures forall p :: 0 <= p < |c.pages| ==> c.pages[p] <= r.pages[p]
  {
    var cur := c.currentMapIndex;
    if |c.pages[cur]| == c.capacity then
      var r := Connections(c.pages + [[ci]], cur + 1, c.capacity, c.count + 1);
      assert r.pages[..|r.pages| - 1] == c.pages;
      r
    else
      var r := Connections(c.pages[cur := c.pages[cur] + [ci]], cur, c.capacity, c.count + 1);
      assert r.pages[..cur] == c.pages[..cur];
      r
  }

  /** `At(index)`: the record at `index`, or nil when `index` is not below `count`. */
  function At(c: Connections, index: int): (r: Option<ConnectionInfo>)
    requires Valid(c) && index >= 0
    ensures r.Some? <==> index < Count(c)
    ensures r.Some? ==> r.value == Elements(c)[index]
  {
    InRange(c, index);
    var i1 := index / c.capacity;
    if i1 > c.currentMapIndex then
      None
    else
      var i2 := index % c.capacity;
      if i1 == c.currentMapIndex && i2 >= |c.pages[c.currentMapIndex]| then
        None
      else
        Locate(c, index);
        Some(c.pages[i1][i2])
  }

  /** The two page/offset tests of `At` together say exactly that `index` is below `count`. */
  lemma InRange(c: Connections, index: int)
    requires Valid(c) && index >= 0
    ensures index < c.count <==>
      (index / c.capacity < c.currentMapIndex ||
       (index / c.capacity == c.currentMapIndex && index % c.capacity < |c.pages[c.currentMapIndex]|))
  {
    var cap, cur := c.capacity, c.currentMapIndex;
    var p, o := index / cap, index % cap;
    assert index == p * cap + o;
    PagingCount(c);
    PageOrder(p, o, cur, |c.pages[cur]|, cap);
  }

  /** After `Append(ci)` the new last index holds `ci` and every older index holds what it held before. */
  lemma AppendAt(c: Connections, ci: ConnectionInfo, i: int)
    requires Valid(c) && 0 <= i
    ensures At(Append(c, ci), Count(c)) == Some(ci)
    ensures i < Count(c) ==> At(Append(c, ci), i) == At(c, i)
    ensures At(Append(c, ci), i).Some? <==> i <= Count(c)
  {
  }

  /**
    `*c.At(index) = v`: overwrites one record in place; the page layout and
    every other record stay as they were.
   */
  function Set(c: Connections, index: int, v: ConnectionInfo): (r: Connections)
    requires Valid(c) && 0 <= index < Count(c)
    ensures Valid(r)
    ensures r.capacity == c.capacity && r.count == c.count && r.currentMapIndex == c.currentMapIndex
    ensures forall p :: 0 <= p < |c.pages| ==> |r.pages[p]| == |c.pages[p]|
    ensures Elements(r) == Elements(c)[index := v]
  {
    var i1, i2 := index / c.capacity, index % c.capacity;
    PageOf(c, index);
    PageStart(c, index);
    FlattenUpdate(c.pages, i1, i2, v);
    c.(pages := c.pages[i1 := c.pages[i1][i2 := v]])
  }

  /** Page `index / capacity` exists and holds offset `index % capacity`. */
  lemma PageOf(c: Connections, index: int)
    requires Valid(c) && 0 <= index < c.count
    ensures index / c.capacity <= c.currentMapIndex
    ensures index % c.capacity < |c.pages[index / c.capacity]|
  {
    var i1 := index / c.capacity;
    InRange(c, index);
    if i1 < c.currentMapIndex {
      assert |c.pages[i1]| == c.capacity;
    }
  }

  /** Page `index / capacity` starts `index % capacity` records before `index`. */
  lemma PageStart(c: Connections, index: int)
    requires Valid(c) && 0 <= index
    requires index / c.capacity <= c.currentMapIndex
    ensures |Flatten(c.pages[..index / c.capacity])| + index % c.capacity == index
  {
    var i1, i2 := index / c.capacity, index % c.capacity;
    PrefixLength(c.pages, c.capacity, i1);
    assert index == i1 * c.capacity + i2;
  }

  /** Overwriting one record of one page overwrites one position of the flattened view. */
  lemma {:induction false} FlattenUpdate(pages: seq<Page>, p: int, o: int, v: ConnectionInfo)
    requires 0 <= p < |pages| && 0 <= o < |pages[p]|
    ensures |Flatten(pages[..p])| + o < |Flatten(pages)|
    ensures Flatten(pages[p := pages[p][o := v]]) == Flatten(pages)[|Flatten(pages[..p])| + o := v]
  {
    var n := |pages|;
    var pages' := pages[p := pages[p][o := v]];
    var init := pages[..n - 1];
    assert Flatten(pages) == Flatten(init) + pages[n - 1];
    if p == n - 1 {
      assert pages'[..n - 1] == init;
      assert pages[..p] == init;
    } else {
      assert pages'[..n - 1] == init[p := init[p][o := v]];
      assert init[..p] == pages[..p];
      FlattenUpdate(init, p, o, v);
    }
  }

  /** The pages before page `p` hold `p * cap` records. */
  lemma PrefixLength(pages: seq<Page>, cap: int, p: int)
    requires cap > 0 && 0 <= p < |pages|
    requires forall q :: 0 <= q < |pages| - 1 ==> |pages[q]| == cap
    ensures |Flatten(pages[..p])| == p * cap
  {
    if p > 0 {
      FlattenLength(pages[..p], cap);
      assert (p - 1) * cap + cap == p * cap;
    }
  }

  /**
    Two registries of one capacity that hold the same records are identical:
    the page layout is determined by the capacity and the number of records.
   */
  lemma {:induction false} Canonical(a: Connections, b: Connections)
    requires Valid(a) && Valid(b) && a.capacity == b.capacity
    requires Elements(a) == Elements(b)
    ensures a == b
  {
    var cap := a.capacity;
    SameCountSameLayout(a, b);
    forall p | 0 <= p < |a.pages|
      ensures a.pages[p] == b.pages[p]
    {
      assert |a.pages[p]| == |b.pages[p]|;
      forall o | 0 <= o < |a.pages[p]|
        ensures a.pages[p][o] == b.pages[p][o]
      {
        FlattenAt(a.pages, cap, p, o);
        FlattenAt(b.pages, cap, p, o);
      }
    }
  }

  /** The number of records determines the current map index and the page lengths. */
  lemma SameCountSameLayout(a: Connections, b: Connections)
    requires Valid(a) && Valid(b) && a.capacity == b.capacity && a.count == b.count
    ensures a.currentMapIndex == b.currentMapIndex
    ensures forall p :: 0 <= p < |a.pages| ==> |a.pages[p]| == |b.pages[p]|
  {
    var cap := a.capacity;
    PagingCount(a);
    PagingCount(b);
    if a.currentMapIndex < b.currentMapIndex {
      MulMonotone(a.currentMapIndex + 1, b.currentMapIndex, cap);
      assert false;
    }
    if b.currentMapIndex < a.currentMapIndex {
      MulMonotone(b.currentMapIndex + 1, a.currentMapIndex, cap);
      assert false;
    }
  }

  /** Writing `a[i]` at position `i` of `a[..i] + b[i..]` extends the copied prefix by one. */
  lemma SpliceStep<T>(a: seq<T>, b: seq<T>, i: int)
    requires 0 <= i < |b| <= |a|
    ensures (a[..i] + b[i..])[i := a[i]] == a[..i + 1] + b[i + 1..]
  {
    var x, y := (a[..i] + b[i..])[i := a[i]], a[..i + 1] + b[i + 1..];
    assert |x| == |y|;
    forall k | 0 <= k < |x|
      ensures x[k] == y[k]
    {
    }
  }

  /**
    `c.Copy(src)`: overwrites the records `c` already has, appends the rest of
    `src`, and then adopts `src`'s current page and count. With equal
    capacities and `c` no longer than `src`, the result equals `src`.
   */
  method Copy(c: Connections, src: Connections) returns (r: Connections)
    requires Valid(c) && Valid(src)
    requires c.capacity == src.capacity && Count(c) <= Count(src)
    ensures Valid(r) && r == src
    ensures Count(r) == Count(src) && Count(r) >= Count(c)
    ensures forall i :: 0 <= i < Count(src) ==> At(r, i) == At(src, i)
  {
    r := OverwritePrefix(c, src);
    r := AppendRest(r, src);
    Canonical(r, src);
    r := r.(currentMapIndex := src.currentMapIndex, count := src.count);
  }

  /** The first loop of `Copy`: `*(c.At(i)) = *(src.At(i))` for every index `c` already has. */
  method OverwritePrefix(c: Connections, src: Connections) returns (r: Connections)
    requires Valid(c) && Valid(src) && c.count <= src.count
    ensures Valid(r) && r.capacity == c.capacity && r.count == c.count
    ensures Elements(r) == Elements(src)[..c.count]
  {
    r := c;
    var i := 0;
    while i < c.count
      invariant 0 <= i <= c.count
      invariant Valid(r) && r.capacity == c.capacity && r.count == c.count
      invariant Elements(r) == Elements(src)[..i] + Elements(c)[i..]
    {
      var v := At(src, i).value;
      r := Set(r, i, v);
      SpliceStep(Elements(src), Elements(c), i);
      i := i + 1;
    }
  }

  /** The second loop of `Copy`: appends `src`'s records from index `c.count` on. */
  method AppendRest(c: Connections, src: Connections) returns (r: Connections)
    requires Valid(c) && Valid(src) && c.count <= src.count
    requires Elements(c) == Elements(src)[..c.count]
    ensures Valid(r) && r.capacity == c.capacity
    ensures Elements(r) == Elements(src)
  {
    r := c;
    var i := c.count;
    while i < src.count
      invariant c.count <= i <= src.count
      invariant Valid(r) && r.capacity == c.capacity && r.count == i
      invariant Elements(r) == Elements(src)[..i]
    {
      var v := At(src, i).value;
      r := Append(r, v);
      assert Elements(src)[..i + 1] == Elements(src)[..i] + [v];
      i := i + 1;
    }
  }

  /** Go's `Less`: records are ordered by their client count. */
  ghost predicate SortedByCount(s: seq<ConnectionInfo>)
  {
    forall i, j :: 0 <= i < j < |s| ==> s[i].count <= s[j].count
  }

  function Insert(x: ConnectionInfo, s: seq<ConnectionInfo>): (r: seq<ConnectionInfo>)
    requires SortedByCount(s)
    ensures SortedByCount(r)
    ensures multiset(r) == multiset(s) + multiset{x}
    ensures |r| == |s| + 1
    ensures r[0] == x || (|s| > 0 && r[0] == s[0])
  {
    if |s| == 0 then [x]
    else if x.count <= s[0].count then [x] + s
    else
      assert s == [s[0]] + s[1..];
      [s[0]] + Insert(x, s[1..])
  }

  /** The sort that `sort.Sort` performs on the detached slice (here an insertion sort). */
  function SortByCount(s: seq<ConnectionInfo>): (r: seq<ConnectionInfo>)
    ensures SortedByCount(r)
    ensures multiset(r) == multiset(s)
    ensures |r| == |s|
  {
    if |s| == 0 then []
    else
      assert s == [s[0]] + s[1..];
      Insert(s[0], SortByCount(s[1..]))
  }

  /**
    `Sort()`: with fewer than two records nothing happens; otherwise the
    records are copied out, sorted by count, and written back index by index,
    so the registry keeps its pages and count and its records become a
    permutation of the old ones in non-decreasing count order.
   */
  method Sort(c: Connections) returns (r: Connections)
    requires Valid(c)
    ensures Valid(r)
    ensures r.capacity == c.capacity && r.currentMapIndex == c.currentMapIndex && Count(r) == Count(c)
    ensures Count(c) <= 1 ==> r == c
    ensures SortedByCount(Elements(r))
    ensures multiset(Elements(r)) == multiset(Elements(c))
  {
    if c.count <= 1 {
      return c;
    }
    var temp := ReadAll(c);
    temp := SortByCount(temp);
    r := WriteAll(c, temp);
  }

  /** The detached copy `tempSlice[i] = *c.At(i)` of every record. */
  method ReadAll(c: Connections) returns (temp: seq<ConnectionInfo>)
    requires Valid(c)
    ensures temp == Elements(c)
  {
    ghost var s := Elements(c);
    temp := [];
    var i := 0;
    while i < Count(c)
      invariant 0 <= i <= Count(c)
      invariant temp == s[..i]
    {
      var x := At(c, i).value;
      assert s[..i + 1] == s[..i] + [x];
      temp := temp + [x];
      i := i + 1;
    }
    assert s[..i] == s;
  }

  /** The write-back `*c.At(i) = tempSlice[i]` of every record, in place. */
  method WriteAll(c: Connections, temp: seq<ConnectionInfo>) returns (r: Connections)
    requires Valid(c) && |temp| == c.count
    ensures Valid(r)
    ensures r.capacity == c.capacity && r.currentMapIndex == c.currentMapIndex && r.count == c.count
    ensures Elements(r) == temp
  {
    r := c;
    var i := 0;
    while i < c.count
      invariant 0 <= i <= c.count
      invariant Valid(r) && r.capacity == c.capacity && r.currentMapIndex == c.currentMapIndex && r.count == c.count
      invariant Elements(r) == temp[..i] + Elements(c)[i..]
    {
      r := Set(r, i, temp[i]);
      SpliceStep(temp, Elements(c), i);
      i := i + 1;
    }
    assert Elements(r) == temp;
  }
}
