# Grid sampling of geotagged posts

This project models the core of a small location-based posting service. The
service stores posts, each with a point position (longitude, latitude). It
answers "sample this rectangle" requests by cutting the rectangle into a
regular grid and returning at most one post per grid cell. Two modules carry
that core:

- `Grid` and `Posts` (from `controllers/posts.js`). `FetchPostsWithin`
  receives two corner positions and a horizontal and vertical resolution.
  It walks the columns and, inside each column, the rows. For each cell it
  builds a closed five-point polygon ring by linear interpolation between
  the corners and issues one query: posts within the ring, sorted by
  descending id, limited to one. It then assembles one entry per cell, in
  the order the cells were issued. The store is a sequence of posts. The
  per-cell query is the pure function `FetchPost`: an empty answer, or the
  post with the highest id within the cell.
- `DataValidator` (from `data-validator.js`). `IsLat` and `IsLong` accept an
  input only if it is a float, and then only if it lies in [-90, 90] or
  [-180, 180], bounds included. The library's float test and `parseFloat`
  are folded into one input of type `Option<real>`. `None` means "not a
  float".

Coordinates are exact `real`s. The corners may come in either order, so
every range statement uses `Between`, which spans an interval in either
direction. A query polygon contains a position when the position lies in
the closed box spanned by the ring's first and third positions. For the
axis-aligned rings this core builds, that box is the polygon itself in the
plane. The store's 2dsphere index treats polygon edges as geodesics, so
`Posts.DocsInBox`, `Posts.PresentInBox` and `Posts.NonEmptyBoxYieldsDoc`
hold for the planar box, not for the store's spherical polygon. The tests
at test/api.js:422-425 allow a tenth of a degree of slack.

The main results:
- exactly `h·v` cells, numbered column by column;
- every ring closed, with its corners aligned to the column and row
  fractions;
- neighbouring cells share their edges exactly;
- the grid starts at the first corner and ends at the second;
- every cell lies inside the rectangle;
- the cells cover the rectangle with no gap, and overlap only on shared
  edges;
- one answer entry per cell, and each entry is a stored post inside the
  rectangle;
- at least one post comes back whenever some stored post lies inside the
  rectangle.

Where the code and its intended behaviour differ: the assembly loop at
`controllers/posts.js:139-141` reads `promises[promise][0]` from the promise
objects, not from their resolved values. As written, every entry would be
`undefined`, and the test at `test/api.js:445-456` requires real entries.
The model assembles from the resolved per-cell answers instead. An empty
cell becomes `None`. A non-empty cell becomes `Some(post)`, holding the
first (and only) post of the answer.

## Model

| member | source | states |
|---|---|---|
| `DataValidator.IsLat` | data-validator.js:3-10 | true exactly when the input is a float `v` with `-90 <= v <= 90`; false for a non-float |
| `DataValidator.IsLong` | data-validator.js:11-17 | true exactly when the input is a float `v` with `-180 <= v <= 180`; false for a non-float |
| `DataValidator.BoundsAreInclusive` | data-validator.js:8-16 | ±90 passes `IsLat` and ±180 passes `IsLong`; ±90.1 and ±180.1 are refused |
| `DataValidator.NonFloatRejected` | data-validator.js:4-6 | an input that is not a float fails both validators, before any range check |
| `DataValidator.LatitudeIsLongitude` | data-validator.js:8-16 | every input `IsLat` accepts is also accepted by `IsLong` |
| `DataValidator.LongitudeNotAlwaysLatitude` | data-validator.js:8-16 | the converse fails: 91 is a valid longitude but not a valid latitude |
| `Grid.InterpEnds` | controllers/posts.js:107-121 | subdivision point 0 is the first corner's coordinate and point `n` the second's |
| `Grid.InterpMonotone` | controllers/posts.js:107-121 | subdivision points move monotonically from the first corner towards the second, strictly if the corners differ |
| `Grid.InterpBetween` | controllers/posts.js:107-121 | every subdivision point `0..n` lies between the two corners' coordinates |
| `Grid.SegmentsCover` | controllers/posts.js:106-121 | along one axis, the first `m` segments cover the interval up to point `m`, with no gap |
| `Grid.SegmentsMeetOnlyAtSharedPoint` | controllers/posts.js:106-121 | along one axis, two distinct segments of a non-degenerate subdivision meet only if adjacent, and only at their shared point |
| `Grid.CellRingShape` | controllers/posts.js:107-130 | each ring has 5 points and ends where it starts; corners 0,3,4 sit at longitude fraction `col/k` and 1,2 at `(col+1)/k`; corners 0,1,4 sit at latitude fraction `row/j` and 2,3 at `(row+1)/j` |
| `Grid.NeighboursShareEdges` | controllers/posts.js:108-119 | the right edge of cell (col,row) is the left edge of cell (col+1,row); its second-latitude edge is the first-latitude edge of cell (col,row+1) |
| `Grid.GridCorners` | controllers/posts.js:99-121 | the first corner of cell (0,0) is `coordinates[0]`; the opposite corner of cell (k-1,j-1) is `coordinates[1]` |
| `Grid.SingleCellIsRectangle` | controllers/posts.js:99-121 | the ring of a 1×1 grid is the rectangle spanned by the two input corners |
| `Grid.SingleCellGrid` | controllers/posts.js:106-134 | a 1×1 grid issues exactly one ring, that rectangle |
| `Grid.CornersInBox` | controllers/posts.js:99-121 | every corner of every cell lies within the two input longitudes and within the two input latitudes, whatever their order |
| `Grid.CellInBox` | controllers/posts.js:99-121 | every position within a cell lies inside the input rectangle |
| `Grid.GridCovers` | controllers/posts.js:106-134 | every position inside the input rectangle lies within some cell |
| `Grid.CellsOverlapOnlyOnEdges` | controllers/posts.js:106-121 | for a rectangle of nonzero width and height, a position within two different cells lies on the line between two neighbouring columns or rows |
| `Grid.OffsetIsProduct` | controllers/posts.js:106-114 | in column-major order, column `col` starts at index `col*j` |
| `Grid.CellsCount` | controllers/posts.js:106-134 | a `k`×`j` grid yields exactly `k*j` rings |
| `Grid.CellIndex` | controllers/posts.js:106-132 | cell (col,row) is issued at index `col*j+row` |
| `Grid.CellOfIndex` | controllers/posts.js:106-132 | every index below `k*j` is `col*j+row` for some column `col < k` and row `row < j` |
| `Grid.CellsLayout` | controllers/posts.js:106-132 | all `k*j` cells are issued column-major, cell (col,row) at index `col*j+row` |
| `Posts.FetchPost` | controllers/posts.js:6-26 | at most one post (`limit: 1`); empty exactly when no stored post lies within the ring; otherwise a stored post within the ring whose id no other post within the ring exceeds (`sort: {_id: -1}`) |
| `Posts.First` | controllers/posts.js:139-141 | the entry holds a post of the answer, if any; for an answer of at most one post (`limit: 1`) nothing is lost: the answer is `[]` when the entry is absent and `[post]` when it holds `post` |
| `Posts.FirstOfFetchPost` | controllers/posts.js:8-18 | a cell's entry is absent exactly when no stored post lies within its ring, and otherwise is a stored post within the ring of highest id |
| `Posts.IssueQueries` | controllers/posts.js:105-134 | issues exactly the grid's rings, in column-major order, plus the store's answer for each ring, index-aligned |
| `Posts.AssembleDocs` | controllers/posts.js:136-143 | one entry per answer, in issue order, each the first post of its answer if any |
| `Posts.FetchPostsWithin` | controllers/posts.js:98-145 | with `1 <= h, v <= 10`: issues the grid's `h*v` rings; returns `h*v` entries aligned with them, each the query answer for its cell; every returned post is stored and inside the rectangle; some post is returned whenever a stored post lies inside the rectangle |
| `Posts.DocsInBox` | controllers/posts.js:98-145 | every entry of a grid answer is a stored post inside the input rectangle |
| `Posts.NonEmptyBoxYieldsDoc` | controllers/posts.js:98-145 | if a stored post lies inside the rectangle, at least one cell's entry is present |
| `Grid.Within` | controllers/posts.js:8-14 | the model of `$geoWithin` on a query polygon: a position is within a ring of at least three positions when it lies in the closed box between the ring's first and third positions |
| `Grid.Interp` | controllers/posts.js:108-120 | the interpolation `from + (i/n)*(to-from)` that gives every corner coordinate |
| `Grid.CellRing` | controllers/posts.js:107-130 | the five-point `rectangle` ring of cell (col,row), built from the column's `long` and the row's `lat` values |
| `Grid.Column` | controllers/posts.js:114-133 | the rings the inner loop issues for the first `m` rows of one column, in row order |
| `Grid.Columns` | controllers/posts.js:106-134 | the rings the outer loop issues for the first `n` columns, column after column |
| `Grid.Cells` | controllers/posts.js:106-134 | all rings of a `k`×`j` grid in the order they are pushed to `promises` |
| `Posts.Answers` | controllers/posts.js:131-143 | entry `i` of the result is the first post of the answer to the query for cell ring `i` |
| `Posts.FetchPostFirstHighest` | controllers/posts.js:17-18 | a non-empty answer is some stored post `store[i]` such that every post within the ring stored before it has a strictly smaller id; with `FetchPost`'s max-id clause, the answer is the first stored post of highest id within the ring |
| `Posts.Present` | test/api.js:361-380 | the posts of an answer, empty cells omitted: no more than there are cells, and exactly the present entries |
| `Posts.PresentAppend` | controllers/posts.js:139-142 | the posts of a joined answer are the posts of its first part followed by those of its second: cell order and multiplicity are kept |
| `Posts.PresentCell` | test/api.js:445-456 | an empty cell contributes no post and a present cell exactly its post, so no `null` entry reaches the features |
| `Posts.PresentAtMostCells` | test/api.js:361-380 | a `h`×`v` grid query returns at most `h*v` posts |
| `Posts.PresentInBox` | test/api.js:415-429 | every returned post is a stored post inside the requested rectangle |

## Left out

- Database access (`dbPosts.find`, the 2dsphere index) is not modelled. The store is a sequence of posts, and `$geoWithin` is containment in the closed axis-aligned box of the ring. Spherical geometry is not modelled. A post exactly on an edge shared by two cells can be the answer for both.
- `Posts.FetchPost`: among posts within the ring that share the highest id, it picks the first in store order, as `Posts.FetchPostFirstHighest` proves. Stored ids are unique, so this case does not arise in the source.
- A rectangle with equal longitudes or equal latitudes gives rings with repeated vertices, which the source sends to the store unchanged. How the store treats such a degenerate polygon is not modelled: the model still returns posts lying on that line.
- `Posts.Present`: the route that builds `features` from the per-cell entries is not part of this model. `callback(null, docs)` at controllers/posts.js:143 passes one entry per cell. That the route drops empty cells is an assumption, backed by the tests at test/api.js:361-380 and test/api.js:445-456.
- `fetchPostsNearby` (controllers/posts.js:35-56) and `fetch_posts_nearby` (posts.js:11-32) are not modelled. They only forward their arguments to the store's `$near` query.
- The empty stub `fetch_posts_within` in posts.js is not modelled.
- The concurrent fan-out through `Q.ninvoke`/`Q.all` is modelled as a sequential loop, and the callback as a return value. There is no rejection handler on `Q.all`: on a store error the callback never runs. That error path is not modelled.
- The read of promise objects instead of resolved values at controllers/posts.js:139-141 is not reproduced, for the reason given above.
- IEEE double rounding in the interpolation is not modelled: coordinates are exact reals.
- The route-level parameter parsing is not part of this model. It enforces resolution bounds and limits and supplies defaults. `Posts.FetchPostsWithin` takes `1 <= h, v <= 10` as a precondition, because the tests at test/api.js:433-444 assert these bounds.
- The library's `isFloat` and `parseFloat` are foreign code. They appear only as the `Option<real>` input of the validators.
- HTTP and middleware plumbing, API-key lookup, OAuth, documentation wiring, the git-revision route, the old CRUD routes, monitoring configuration and the Python stubs are outside the modelled core.
