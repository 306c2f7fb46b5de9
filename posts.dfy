/**
 * The grid-sampling query over stored posts: the rectangle between two
 * corners is cut into `horizontal` by `vertical` cells, one single-result
 * query is issued per cell, and the answers are assembled in cell order.
 *
 * The store is a sequence of posts and the per-cell query a pure function
 * over it; the concurrent fan-out of the source becomes a sequential loop.
 */
module Posts {
  import opened Wrappers
  import opened Grid

  /** A stored post: its identity (ordered like insertion), its point and its message. */
  datatype Post = Post(id: nat, location: Coord, message: string)

  /**
   * The query issued for one cell: the posts within the polygon, sorted by
   * descending id, limited to one. The answer is empty exactly when no post
   * lies within the polygon, and otherwise holds one such post whose id no
   * other post within the polygon exceeds.
   */
  function FetchPost(store: seq<Post>, ring: Ring): (r: seq<Post>)
    ensures |r| <= 1
    ensures r == [] <==> forall p :: p in store ==> !Within(p.location, ring)
    ensures r != [] ==> r[0] in store && Within(r[0].location, ring)
    ensures r != [] ==> forall p :: p in store && Within(p.location, ring) ==> p.id <= r[0].id
    decreases |store|
  {
    if store == [] then []
    else
      var rest := FetchPost(store[1..], ring);
      assert forall p :: p in store <==> p == store[0] || p in store[1..];
      if !Within(store[0].location, ring) then rest
      else if rest == [] || rest[0].id <= store[0].id then [store[0]]
      else rest
  }

  /**
   * The answer is the first stored post of highest id within the ring: every
   * post within the ring stored before it has a strictly smaller id, so on an
   * id tie the post stored first wins.
   */
  lemma {:induction false} FetchPostFirstHighest(store: seq<Post>, ring: Ring)
    ensures FetchPost(store, ring) != [] ==>
      exists i :: 0 <= i < |store| && store[i] == FetchPost(store, ring)[0] &&
        forall m :: 0 <= m < i && Within(store[m].location, ring) ==> store[m].id < store[i].id
  {
    if store == [] {
      return;
    }
    var tail := store[1..];
    var rest := FetchPost(tail, ring);
    var answer := FetchPost(store, ring);
    if answer == [store[0]] && Within(store[0].location, ring) {
      assert store[0] == answer[0];
    } else if rest != [] {
      assert answer == rest;
      FetchPostFirstHighest(tail, ring);
      var t :| 0 <= t < |tail| && tail[t] == rest[0] &&
        forall m :: 0 <= m < t && Within(tail[m].location, ring) ==> tail[m].id < tail[t].id;
      ShiftedEarlier(store, ring, t);
    }
  }

  /** Moving a witness from `store[1..]` to `store` when the head lost to it or lies outside the ring. */
  lemma ShiftedEarlier(store: seq<Post>, ring: Ring, t: nat)
    requires 0 < |store| && t < |store| - 1
    requires forall m :: 0 <= m < t && Within(store[1..][m].location, ring) ==> store[1..][m].id < store[1..][t].id
    requires Within(store[0].location, ring) ==> store[0].id < store[t + 1].id
    ensures forall m :: 0 <= m < t + 1 && Within(store[m].location, ring) ==> store[m].id < store[t + 1].id
  {
    forall m | 0 < m < t + 1
      ensures store[m] == store[1..][m - 1]
    {
    }
  }

  /**
   * The entry kept for a query answer: its first post, if there is one. It is
   * taken from the answer, and for an answer of at most one post (the query's
   * limit) nothing is lost: the answer can be rebuilt from the entry.
   */
  function First(answer: seq<Post>): (r: Option<Post>)
    ensures r.Some? ==> r.value in answer
    ensures |answer| <= 1 ==> answer == (if r.None? then [] else [r.value])
  {
    if answer == [] then None else Some(answer[0])
  }

  /**
   * The entry of one cell: absent exactly when no stored post lies within the
   * cell's ring, and otherwise a stored post within it of highest id.
   */
  lemma FirstOfFetchPost(store: seq<Post>, ring: Ring)
    ensures First(FetchPost(store, ring)).None? <==> forall p :: p in store ==> !Within(p.location, ring)
    ensures First(FetchPost(store, ring)).Some? ==>
      var d := First(FetchPost(store, ring)).value;
      d in store && Within(d.location, ring) &&
      forall p :: p in store && Within(p.location, ring) ==> p.id <= d.id
  {
  }

  /**
   * Runs the grid query. `docs` holds one entry per cell, in the order the
   * cells are issued: column by column and, within a column, row by row.
   * The ghost `polygons` records the cell rings issued, for the contract.
   */
  method FetchPostsWithin(store: seq<Post>, c0: Coord, c1: Coord, horizontal: nat, vertical: nat)
    returns (ghost polygons: seq<Ring>, docs: seq<Option<Post>>)
    requires 1 <= horizontal <= 10 && 1 <= vertical <= 10
    ensures polygons == Cells(c0, c1, horizontal, vertical)
    ensures |polygons| == |docs| == horizontal * vertical
    ensures Answers(store, polygons, docs)
    ensures forall i :: 0 <= i < |docs| && docs[i].Some? ==>
      docs[i].value in store && InBox(docs[i].value.location, c0, c1)
    ensures (exists p :: p in store && InBox(p.location, c0, c1)) ==>
      exists i :: 0 <= i < |docs| && docs[i].Some?
  {
    var promises;
    polygons, promises := IssueQueries(store, c0, c1, horizontal, vertical);
    docs := AssembleDocs(promises);
    CellsCount(c0, c1, horizontal, vertical);
    DocsInBox(store, c0, c1, horizontal, vertical, docs);
    NonEmptyBoxYieldsDoc(store, c0, c1, horizontal, vertical, docs);
  }

  /**
   * The nested loop of the grid query: for each column, then each row, build
   * the cell's ring from the column's longitudes and the row's latitudes and
   * issue its query. `promises[i]` is the answer for `polygons[i]`.
   */
  method IssueQueries(store: seq<Post>, c0: Coord, c1: Coord, horizontal: nat, vertical: nat)
    returns (ghost polygons: seq<Ring>, promises: seq<seq<Post>>)
    requires horizontal > 0 && vertical > 0
    ensures polygons == Cells(c0, c1, horizontal, vertical)
    ensures |promises| == |Cells(c0, c1, horizontal, vertical)|
    ensures forall i :: 0 <= i < |promises| ==> promises[i] == FetchPost(store, Cells(c0, c1, horizontal, vertical)[i])
  {
    var fromLong, toLong := c0.long, c1.long;
    var fromLat, toLat := c0.lat, c1.lat;
    var k, j := horizontal, vertical;
    promises := [];
    polygons := [];
    var col := 0;
    while col < horizontal
      invariant 0 <= col <= horizontal
      invariant polygons == Columns(c0, c1, k, j, col)
      invariant |promises| == |polygons|
      invariant forall i :: 0 <= i < |promises| ==> promises[i] == FetchPost(store, polygons[i])
    {
      var long := [
        Interp(fromLong, toLong, col + 0, k),
        Interp(fromLong, toLong, col + 1, k),
        Interp(fromLong, toLong, col + 1, k),
        Interp(fromLong, toLong, col + 0, k),
        Interp(fromLong, toLong, col + 0, k)
      ];
      var row := 0;
      while row < vertical
        invariant 0 <= row <= vertical
        invariant polygons == Columns(c0, c1, k, j, col) + Column(c0, c1, k, j, col, row)
        invariant |promises| == |polygons|
        invariant forall i :: 0 <= i < |promises| ==> promises[i] == FetchPost(store, polygons[i])
      {
        var lat := [
          Interp(fromLat, toLat, row + 0, j),
          Interp(fromLat, toLat, row + 0, j),
          Interp(fromLat, toLat, row + 1, j),
          Interp(fromLat, toLat, row + 1, j),
          Interp(fromLat, toLat, row + 0, j)
        ];
        var rectangle := [
          Coord(long[0], lat[0]),
          Coord(long[1], lat[1]),
          Coord(long[2], lat[2]),
          Coord(long[3], lat[3]),
          Coord(long[4], lat[4])
        ];
        assert rectangle == CellRing(c0, c1, k, j, col, row);
        var promise := FetchPost(store, rectangle);
        polygons := polygons + [rectangle];
        promises := promises + [promise];
        row := row + 1;
      }
      col := col + 1;
    }
  }

  /** The assembly loop: one entry per answered query, in issue order, the post if there is one. */
  method AssembleDocs(promises: seq<seq<Post>>) returns (docs: seq<Option<Post>>)
    ensures |docs| == |promises|
    ensures forall i :: 0 <= i < |docs| ==> docs[i] == First(promises[i])
  {
    docs := [];
    var i := 0;
    while i < |promises|
      invariant 0 <= i <= |promises|
      invariant |docs| == i
      invariant forall m :: 0 <= m < i ==> docs[m] == First(promises[m])
    {
      docs := docs + [First(promises[i])];
      i := i + 1;
    }
  }

  /** `docs` holds, index by index, the first answer of the query for each polygon. */
  ghost predicate Answers(store: seq<Post>, polygons: seq<Ring>, docs: seq<Option<Post>>)
  {
    |docs| == |polygons| && forall i :: 0 <= i < |docs| ==> docs[i] == First(FetchPost(store, polygons[i]))
  }

  /** Every post a grid query returns is a stored post inside the rectangle. */
  lemma DocsInBox(store: seq<Post>, c0: Coord, c1: Coord, horizontal: nat, vertical: nat, docs: seq<Option<Post>>)
    requires horizontal > 0 && vertical > 0
    requires Answers(store, Cells(c0, c1, horizontal, vertical), docs)
    ensures forall i :: 0 <= i < |docs| && docs[i].Some? ==>
      docs[i].value in store && InBox(docs[i].value.location, c0, c1)
  {
    CellsCount(c0, c1, horizontal, vertical);
    forall m | 0 <= m < |docs| && docs[m].Some?
      ensures docs[m].value in store && InBox(docs[m].value.location, c0, c1)
    {
      var col, row := CellOfIndex(m, horizontal, vertical);
      var i := CellIndex(c0, c1, horizontal, vertical, col, row);
      CellInBox(c0, c1, horizontal, vertical, col, row, docs[m].value.location);
    }
  }

  /** If some stored post lies inside the rectangle, the grid query returns at least one post. */
  lemma NonEmptyBoxYieldsDoc(store: seq<Post>, c0: Coord, c1: Coord, horizontal: nat, vertical: nat,
                             docs: seq<Option<Post>>)
    requires horizontal > 0 && vertical > 0
    requires Answers(store, Cells(c0, c1, horizontal, vertical), docs)
    ensures (exists p :: p in store && InBox(p.location, c0, c1)) ==>
      exists i :: 0 <= i < |docs| && docs[i].Some?
  {
    if exists p :: p in store && InBox(p.location, c0, c1) {
      var p :| p in store && InBox(p.location, c0, c1);
      GridCovers(c0, c1, horizontal, vertical, p.location);
      var col: nat, row: nat :| col < horizontal && row < vertical
        && Within(p.location, CellRing(c0, c1, horizontal, vertical, col, row));
      var i := CellIndex(c0, c1, horizontal, vertical, col, row);
      assert FetchPost(store, Cells(c0, c1, horizontal, vertical)[i]) != [];
      assert docs[i].Some?;
    }
  }

  /** The posts present in a grid answer, in cell order, with empty cells omitted. */
  function Present(docs: seq<Option<Post>>): (r: seq<Post>)
    ensures |r| <= |docs|
    ensures forall x :: x in r <==> Some(x) in docs
  {
    if docs == [] then []
    else
      var rest := Present(docs[1..]);
      assert forall x :: Some(x) in docs <==> docs[0] == Some(x) || Some(x) in docs[1..];
      match docs[0]
      case None => rest
      case Some(x) => [x] + rest
  }

  /** `Present` keeps order and multiplicity: the posts of a joined answer are the posts of each part, in turn. */
  lemma {:induction false} PresentAppend(a: seq<Option<Post>>, b: seq<Option<Post>>)
    ensures Present(a + b) == Present(a) + Present(b)
  {
    if a == [] {
      assert a + b == b;
    } else {
      assert (a + b)[0] == a[0];
      assert (a + b)[1..] == a[1..] + b;
      PresentAppend(a[1..], b);
    }
  }

  /** A single cell contributes nothing when empty and exactly its post otherwise. */
  lemma PresentCell(d: Option<Post>)
    ensures d.None? ==> Present([d]) == []
    ensures d.Some? ==> Present([d]) == [d.value]
  {
  }

  /** A `horizontal` by `vertical` grid query returns at most `horizontal * vertical` posts. */
  lemma PresentAtMostCells(docs: seq<Option<Post>>, horizontal: nat, vertical: nat)
    requires |docs| == horizontal * vertical
    ensures |Present(docs)| <= horizontal * vertical
  {
  }

  /** Every post in the features of a grid query is a stored post inside the rectangle. */
  lemma PresentInBox(store: seq<Post>, c0: Coord, c1: Coord, horizontal: nat, vertical: nat, docs: seq<Option<Post>>)
    requires horizontal > 0 && vertical > 0
    requires Answers(store, Cells(c0, c1, horizontal, vertical), docs)
    ensures forall x :: x in Present(docs) ==> x in store && InBox(x.location, c0, c1)
  {
    DocsInBox(store, c0, c1, horizontal, vertical, docs);
    forall x | x in Present(docs)
      ensures x in store && InBox(x.location, c0, c1)
    {
      var i :| 0 <= i < |docs| && docs[i] == Some(x);
    }
  }
}
