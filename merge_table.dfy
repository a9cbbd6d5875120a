/**
 * The `merged_cells` dictionary of `TextGrid` (piltext/text_grid.py) and the
 * pure operations over it: merging regions, listing the distinct regions in
 * key order, and resolving what `get_grid` is asked for.
 */
module MergeTable {
  import opened Wrappers
  import opened PyLib
  import opened GridGeometry

  /** A Python dict from address to region: its keys in insertion order, and the mapping itself. */
  datatype Table = Table(keys: seq<Addr>, regions: map<Addr, Region>)

  ghost predicate Valid(t: Table)
  {
    NoDup(t.keys) && (forall a :: a in t.regions <==> a in t.keys)
  }

  /** `merged_cells = {}`. */
  const Empty: Table := Table([], map[])

  /** `d[a] = g`: a new key goes to the end, an existing key keeps its place. */
  function Put(t: Table, a: Addr, g: Region): (r: Table)
    ensures Valid(t) ==> Valid(r)
    ensures r.regions == t.regions[a := g]
    ensures t.keys <= r.keys
  {
    if a in t.regions then t.(regions := t.regions[a := g])
    else
      var r := Table(t.keys + [a], t.regions[a := g]);
      assert forall i :: 0 <= i < |t.keys| ==> r.keys[i] == t.keys[i];
      r
  }

  /** The assignments of `merge`'s loop body, one listed cell after another. */
  function MergeCells(t: Table, cells: seq<Addr>, g: Region): (r: Table)
    ensures Valid(t) ==> Valid(r)
  {
    if cells == [] then t
    else Put(MergeCells(t, cells[..|cells| - 1], g), cells[|cells| - 1], g)
  }

  /** One more listed cell is one more assignment. */
  lemma MergeCellsSnoc(t: Table, cells: seq<Addr>, g: Region, i: nat)
    requires Valid(t) && i < |cells|
    ensures MergeCells(t, cells[..i + 1], g) == Put(MergeCells(t, cells[..i], g), cells[i], g)
  {
    assert cells[..i + 1][..i] == cells[..i];
  }

  /** After every cell of `g`, the table is `Merge(t, g)`, and a consistent table stays consistent. */
  lemma MergeCellsDone(t: Table, cells: seq<Addr>, g: Region)
    requires Valid(t) && Consistent(t) && cells == Cells(g)
    ensures MergeCells(t, cells[..|cells|], g) == Merge(t, g) && Consistent(Merge(t, g))
  {
    assert cells[..|cells|] == cells;
    MergeKeepsConsistent(t, g);
  }

  /** `merge(start, end)`: every cell of the rectangle, row-major, is mapped to `(start, end)`. */
  function Merge(t: Table, g: Region): (r: Table)
    ensures Valid(t) ==> Valid(r)
  {
    MergeCells(t, Cells(g), g)
  }

  /** The listed cells now map to `g`, every other key keeps its region, and old keys keep their places. */
  lemma {:induction false} MergeCellsAt(t: Table, cells: seq<Addr>, g: Region, a: Addr)
    requires Valid(t)
    ensures var r := MergeCells(t, cells, g);
      (a in r.regions <==> a in t.regions || a in cells) &&
      (a in cells ==> r.regions[a] == g) &&
      (a !in cells && a in t.regions ==> r.regions[a] == t.regions[a]) &&
      t.keys <= r.keys
    decreases |cells|
  {
    if cells != [] {
      var init := cells[..|cells| - 1];
      assert cells == init + [cells[|cells| - 1]];
      MergeCellsAt(t, init, g, a);
    }
  }

  /**
   * `merge` maps exactly the cells of the rectangle to the region, leaves
   * every other entry as it was, and moves no existing key.
   */
  lemma MergeAt(t: Table, g: Region, a: Addr)
    requires Valid(t)
    ensures var r := Merge(t, g);
      (a in r.regions <==> a in t.regions || InRegion(a, g)) &&
      (InRegion(a, g) ==> r.regions[a] == g) &&
      (!InRegion(a, g) && a in t.regions ==> r.regions[a] == t.regions[a]) &&
      t.keys <= r.keys
  {
    MergeCellsAt(t, Cells(g), g, a);
  }

  /** `merge_bulk(list)`: the merges applied in list order. */
  function MergeAll(t: Table, list: seq<Region>): (r: Table)
    requires Valid(t)
    ensures Valid(r)
  {
    if list == [] then t else Merge(MergeAll(t, list[..|list| - 1]), list[|list| - 1])
  }

  /** The last region of the list that covers `a`, if any. */
  function LastCover(list: seq<Region>, a: Addr): (r: Option<Region>)
    ensures r.Some? ==> r.value in list && InRegion(a, r.value)
    ensures r.None? ==> forall i :: 0 <= i < |list| ==> !InRegion(a, list[i])
  {
    if list == [] then None
    else if InRegion(a, list[|list| - 1]) then Some(list[|list| - 1])
    else LastCover(list[..|list| - 1], a)
  }

  /** After `merge_bulk`, a cell maps to the last listed region covering it (last write wins), otherwise to what it had. */
  lemma {:induction false} MergeAllAt(t: Table, list: seq<Region>, a: Addr)
    requires Valid(t)
    ensures var r := MergeAll(t, list);
      (a in r.regions <==> a in t.regions || LastCover(list, a).Some?) &&
      (LastCover(list, a).Some? ==> r.regions[a] == LastCover(list, a).value) &&
      (LastCover(list, a).None? && a in t.regions ==> r.regions[a] == t.regions[a])
    decreases |list|
  {
    if list != [] {
      var init := list[..|list| - 1];
      MergeAllAt(t, init, a);
      MergeAt(MergeAll(t, init), list[|list| - 1], a);
    }
  }

  /** The elements of `s` with later repeats dropped, as the source's "not in values()" loops build them. */
  function Dedup<T(==,!new)>(s: seq<T>): (d: seq<T>)
    ensures NoDup(d)
    ensures forall x :: x in d <==> x in s
  {
    if s == [] then []
    else
      var p := Dedup(s[..|s| - 1]);
      var x := s[|s| - 1];
      assert forall y :: y in s <==> y in s[..|s| - 1] || y == x by {
        assert s == s[..|s| - 1] + [x];
      }
      if x in p then p else p + [x]
  }

  /** A prefix one longer adds its last element when the shorter prefix lacks it. */
  lemma DedupPrefix(s: seq<Region>, n: nat)
    requires 0 < n <= |s|
    ensures Dedup(s[..n]) == if s[n - 1] in Dedup(s[..n - 1]) then Dedup(s[..n - 1]) else Dedup(s[..n - 1]) + [s[n - 1]]
  {
    assert s[..n][..n - 1] == s[..n - 1];
  }

  /** The position of the first occurrence of `x` in `s`. */
  function FirstIndex<T(==,!new)>(s: seq<T>, x: T): (i: nat)
    requires x in s
    ensures i < |s| && s[i] == x
    ensures forall j :: 0 <= j < i ==> s[j] != x
  {
    var p := s[..|s| - 1];
    if x in p then FirstIndex(p, x) else |s| - 1
  }

  /** Every element of `d` occurs in `s`, and `d` lists them in the order of their first occurrence in `s`. */
  ghost predicate InFirstOccurrenceOrder<T(!new)>(s: seq<T>, d: seq<T>)
  {
    (forall x :: x in d ==> x in s) &&
    forall i, j :: 0 <= i < j < |d| ==> FirstIndex(s, d[i]) < FirstIndex(s, d[j])
  }

  /** `Dedup` keeps the order of first occurrences. */
  lemma {:induction false} DedupOrder<T(!new)>(s: seq<T>)
    ensures InFirstOccurrenceOrder(s, Dedup(s))
    decreases |s|
  {
    if s != [] {
      var p := s[..|s| - 1];
      var x := s[|s| - 1];
      var dp := Dedup(p);
      DedupOrder(p);
      forall y | y in p
        ensures FirstIndex(s, y) == FirstIndex(p, y)
      {
      }
      var d := Dedup(s);
      forall i, j | 0 <= i < j < |d|
        ensures FirstIndex(s, d[i]) < FirstIndex(s, d[j])
      {
        assert d[i] == dp[i] && dp[i] in p;
        if j < |dp| {
          assert d[j] == dp[j] && dp[j] in p;
          assert FirstIndex(p, dp[i]) < FirstIndex(p, dp[j]);
        } else {
          assert d[j] == x && x !in p;
        }
      }
    }
  }

  /** The values of `merged_cells` in key order. */
  function Values(t: Table): (vs: seq<Region>)
    requires Valid(t)
    ensures |vs| == |t.keys|
    ensures forall i :: 0 <= i < |vs| ==> vs[i] == t.regions[t.keys[i]]
  {
    seq(|t.keys|, i requires 0 <= i < |t.keys| => t.regions[t.keys[i]])
  }

  /** A value is among the dictionary's values exactly when some key maps to it. */
  lemma ValuesHold(t: Table, v: Region)
    requires Valid(t)
    ensures v in Values(t) <==> v in t.regions.Values
  {
    if v in t.regions.Values {
      var k :| k in t.regions && t.regions[k] == v;
      var i :| 0 <= i < |t.keys| && t.keys[i] == k;
      assert Values(t)[i] == v;
    }
  }

  /** Storing under a new key appends its value. */
  lemma PutValues(t: Table, a: Addr, g: Region)
    requires Valid(t) && a !in t.regions
    ensures Values(Put(t, a, g)) == Values(t) + [g]
  {
  }

  /** `get_merged_cells_list()`: the distinct values of `merged_cells`, each where its first key is. */
  function MergedList(t: Table): seq<Region>
    requires Valid(t)
  {
    Dedup(Values(t))
  }

  /**
   * The merged list has no repeated region, holds exactly the values of the
   * table, and orders them by the first key holding each one.
   */
  lemma MergedListSpec(t: Table)
    requires Valid(t)
    ensures var ml := MergedList(t);
      NoDup(ml) &&
      (forall g :: g in ml <==> exists k :: k in t.regions && t.regions[k] == g) &&
      InFirstOccurrenceOrder(Values(t), ml)
  {
    var vs := Values(t);
    forall g
      ensures g in vs <==> exists k :: k in t.regions && t.regions[k] == g
    {
      if g in vs {
        var i :| 0 <= i < |vs| && vs[i] == g;
        assert t.keys[i] in t.regions;
      }
      if exists k :: k in t.regions && t.regions[k] == g {
        var k :| k in t.regions && t.regions[k] == g;
        var i :| 0 <= i < |t.keys| && t.keys[i] == k;
        assert vs[i] == g;
      }
    }
    DedupOrder(vs);
  }

  /** `get_merged_cells()`: the entries of the first `n` keys whose value no earlier key holds. */
  function FirstHolders(t: Table, n: nat): (d: Table)
    requires Valid(t) && n <= |t.keys|
  {
    if n == 0 then Empty
    else
      var d := FirstHolders(t, n - 1);
      var k := t.keys[n - 1];
      if t.regions[k] in d.regions.Values then d
      else Put(d, k, t.regions[k])
  }

  /** The dictionary built over the first `n` keys is well formed and holds some of those keys, each with its own region. */
  lemma {:induction false} FirstHoldersSub(t: Table, n: nat)
    requires Valid(t) && n <= |t.keys|
    ensures var d := FirstHolders(t, n);
      Valid(d) && forall k :: k in d.regions ==> k in t.keys[..n] && d.regions[k] == t.regions[k]
    decreases n
  {
    if n > 0 {
      FirstHoldersSub(t, n - 1);
      assert t.keys[..n] == t.keys[..n - 1] + [t.keys[n - 1]];
    }
  }

  /**
   * One more key: the dictionary stores its value exactly when it does not
   * hold it yet, and then that value joins the end of its values.
   */
  lemma FirstHoldersNext(t: Table, i: nat, d: Table)
    requires Valid(t) && i < |t.keys| && d == FirstHolders(t, i)
    ensures Valid(d) && Valid(FirstHolders(t, i + 1))
    ensures var k := t.keys[i]; var v := t.regions[k];
      (v in d.regions.Values ==> FirstHolders(t, i + 1) == d) &&
      (v !in d.regions.Values ==> FirstHolders(t, i + 1) == Put(d, k, v) && Values(Put(d, k, v)) == Values(d) + [v])
  {
    var k := t.keys[i];
    FirstHoldersSub(t, i);
    assert k !in t.keys[..i] by {
      forall j | 0 <= j < i
        ensures t.keys[..i][j] != k
      {
        assert t.keys[j] != t.keys[i];
      }
    }
    if t.regions[k] !in d.regions.Values {
      PutValues(d, k, t.regions[k]);
    }
  }

  /** `get_merged_cells()` on the whole table. */
  function MergedDict(t: Table): (d: Table)
    requires Valid(t)
    ensures Valid(d)
  {
    FirstHoldersSub(t, |t.keys|);
    FirstHolders(t, |t.keys|)
  }

  /** The dictionary's values, in its key order, are exactly the merged list: the two accessors agree. */
  lemma {:induction false} FirstHoldersValues(t: Table, n: nat)
    requires Valid(t) && n <= |t.keys|
    ensures Valid(FirstHolders(t, n)) && Values(FirstHolders(t, n)) == Dedup(Values(t)[..n])
    decreases n
  {
    if n == 0 {
      FirstHoldersSub(t, n);
    } else {
      var d := FirstHolders(t, n - 1);
      FirstHoldersValues(t, n - 1);
      FirstHoldersNext(t, n - 1, d);
      var vs := Values(t);
      DedupPrefix(vs, n);
      ValuesHold(d, vs[n - 1]);
    }
  }

  lemma MergedDictValues(t: Table)
    requires Valid(t)
    ensures Values(MergedDict(t)) == MergedList(t)
  {
    FirstHoldersValues(t, |t.keys|);
    assert Values(t)[..|t.keys|] == Values(t);
  }

  /** A cell's region: the one `merged_cells` records for it, or the cell alone when it is unmerged. */
  function Resolve(t: Table, a: Addr): Region
  {
    if a in t.regions then t.regions[a] else Region(a, a)
  }

  /** What `get_grid` is given as `start`: a `(row, col)` tuple, an integer index, or anything else (such as `None`). */
  datatype Target = Cell(addr: Addr) | Index(i: int) | Missing

  /** The exceptions `get_grid` and its callers raise. */
  datatype GridError = ValueError | IndexError | TypeError

  /**
   * `get_grid(start, end)` without pixel conversion: an explicit end is taken
   * verbatim, a tuple resolves through `merged_cells` (itself when unmerged),
   * an integer indexes `get_merged_cells_list()` Python-style, and anything
   * else is a `ValueError`.
   */
  function GetGrid(t: Table, start: Target, end: Option<Addr>): (r: Result<Region, GridError>)
    requires Valid(t)
  {
    match end
    case Some(e) =>
      (match start
       case Cell(s) => Ok(Region(s, e))
       case Index(_) => Err(TypeError)
       case Missing => Err(ValueError))
    case None =>
      (match start
       case Cell(s) => Ok(Resolve(t, s))
       case Index(i) =>
         var ml := MergedList(t);
         (match PyIndex(|ml|, i)
          case Some(j) => Ok(ml[j])
          case None => Err(IndexError))
       case Missing => Err(ValueError))
  }

  /** Every key lies inside the region it maps to. */
  ghost predicate Consistent(t: Table)
  {
    forall k :: k in t.regions ==> InRegion(k, t.regions[k])
  }

  /**
   * The regions tile their cells: every key lies in its region, and every
   * cell of that region maps to the same region. Non-overlapping merges keep
   * a table closed.
   */
  ghost predicate Closed(t: Table)
  {
    Consistent(t) &&
    forall k, a :: k in t.regions && InRegion(a, t.regions[k]) ==> a in t.regions && t.regions[a] == t.regions[k]
  }

  /** Every table built by merges from the empty one is consistent: a merge only writes cells of its own region. */
  lemma MergeKeepsConsistent(t: Table, g: Region)
    requires Valid(t) && Consistent(t)
    ensures Consistent(Merge(t, g))
  {
    forall k | k in Merge(t, g).regions
      ensures InRegion(k, Merge(t, g).regions[k])
    {
      MergeAt(t, g, k);
    }
  }

  /** Resolving a cell through a consistent table gives a region that contains the cell. */
  lemma ResolveCovers(t: Table, a: Addr)
    requires Valid(t) && Consistent(t)
    ensures GetGrid(t, Cell(a), None).Ok?
    ensures InRegion(a, GetGrid(t, Cell(a), None).value)
  {
  }

  /**
   * In a closed table every cell of a cell's region resolves to that same
   * region; in particular the region's own top-left cell does, and two cells'
   * regions are either equal or share no cell.
   */
  lemma ClosedResolveMember(t: Table, a: Addr, c: Addr)
    requires Closed(t)
    requires InRegion(c, Resolve(t, a))
    ensures Resolve(t, c) == Resolve(t, a)
  {
    if a !in t.regions {
      assert c == a;
    }
  }

  lemma ClosedResolveStart(t: Table, a: Addr)
    requires Closed(t)
    ensures Resolve(t, Resolve(t, a).start) == Resolve(t, a)
  {
    var g := Resolve(t, a);
    assert InRegion(a, g);
    ClosedResolveMember(t, a, g.start);
  }

  /**
   * An integer index succeeds exactly for `-n <= i < n` over the `n` merged
   * regions, a negative index counts from the end, and every other index is
   * an `IndexError`.
   */
  lemma IndexLookup(t: Table, i: int)
    requires Valid(t)
    ensures var ml := MergedList(t);
      var r := GetGrid(t, Index(i), None);
      (r.Ok? <==> -|ml| <= i < |ml|) &&
      (0 <= i < |ml| ==> r == Ok(ml[i])) &&
      (-|ml| <= i < 0 ==> r == Ok(ml[|ml| + i])) &&
      (r.Err? ==> r.error == IndexError)
  {
  }

  /**
   * In a closed table, the `i`-th merged region resolves back to itself from
   * its top-left cell, by either spelling of its index.
   */
  lemma IndexRoundTrip(t: Table, i: int)
    requires Valid(t) && Closed(t)
    requires 0 <= i < |MergedList(t)|
    ensures var g := MergedList(t)[i];
      GetGrid(t, Index(i), None) == Ok(g) &&
      GetGrid(t, Index(i - |MergedList(t)|), None) == Ok(g) &&
      GetGrid(t, Cell(g.start), None) == Ok(g)
  {
    var ml := MergedList(t);
    var g := ml[i];
    MergedListSpec(t);
    assert g in ml;
    var k :| k in t.regions && t.regions[k] == g;
    assert InRegion(k, g);
    assert InRegion(g.start, t.regions[k]);
  }

  /** In a closed table, each cell of a key's region is a key with that same region. */
  lemma ClosedAt(t: Table, k: Addr, a: Addr)
    requires Closed(t) && k in t.regions && InRegion(a, t.regions[k])
    ensures a in t.regions && t.regions[a] == t.regions[k]
  {
  }

  /** Merging a region that no existing key falls in keeps a closed table closed. */
  lemma MergeKeepsClosed(t: Table, g: Region)
    requires Valid(t) && Closed(t) && NonEmpty(g)
    requires forall k :: k in t.regions ==> !InRegion(k, g)
    ensures Closed(Merge(t, g))
  {
    var r := Merge(t, g);
    forall k | k in r.regions
      ensures InRegion(k, r.regions[k])
    {
      MergeAt(t, g, k);
    }
    forall k, a | k in r.regions && InRegion(a, r.regions[k])
      ensures a in r.regions && r.regions[a] == r.regions[k]
    {
      MergeKeepsClosedAt(t, g, k, a);
    }
  }

  lemma MergeKeepsClosedAt(t: Table, g: Region, k: Addr, a: Addr)
    requires Valid(t) && Closed(t) && NonEmpty(g)
    requires forall k :: k in t.regions ==> !InRegion(k, g)
    requires k in Merge(t, g).regions && InRegion(a, Merge(t, g).regions[k])
    ensures a in Merge(t, g).regions && Merge(t, g).regions[a] == Merge(t, g).regions[k]
  {
    var r := Merge(t, g);
    MergeAt(t, g, k);
    MergeAt(t, g, a);
    if InRegion(k, g) {
      assert r.regions[k] == g;
    } else {
      var h := t.regions[k];
      assert r.regions[k] == h;
      ClosedAt(t, k, a);
      assert !InRegion(a, g);
    }
  }

  /**
   * Overlapping merges are last-write-wins, and the earlier region strands:
   * after merging (0,0)-(1,1) and then (1,1)-(2,2), cell (0,0) still maps to
   * the first region although its cell (1,1) now belongs to the second, so
   * the table is no longer closed.
   */
  lemma OverlapStrands()
    ensures var g1 := Region(Addr(0, 0), Addr(1, 1));
      var g2 := Region(Addr(1, 1), Addr(2, 2));
      var t := Merge(Merge(Empty, g1), g2);
      Addr(0, 0) in t.regions && t.regions[Addr(0, 0)] == g1 &&
      Addr(1, 1) in t.regions && t.regions[Addr(1, 1)] == g2 && !Closed(t)
  {
    var g1 := Region(Addr(0, 0), Addr(1, 1));
    var g2 := Region(Addr(1, 1), Addr(2, 2));
    var t1 := Merge(Empty, g1);
    var t := Merge(t1, g2);
    MergeAt(Empty, g1, Addr(0, 0));
    MergeAt(Empty, g1, Addr(1, 1));
    MergeAt(t1, g2, Addr(0, 0));
    MergeAt(t1, g2, Addr(1, 1));
    assert InRegion(Addr(1, 1), t.regions[Addr(0, 0)]);
  }
}
