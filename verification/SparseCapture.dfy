/** Holes from allocated ranges, in one pass or page by page (src/native_sparse.zig). */
module SparseCapture {
  import opened Wire
  import opened Holes

  datatype SparseError = InvalidExtents | ExtentReadFailed | QueryFailed

  /** An allocated range as the operating system reports it, signed. */
  datatype Range = Range(offset: i64, length: i64) {
    function End(): (e: int) { offset + length }
  }

  const PAGE: nat := 128
  const I64_MAX: nat := 0x7fff_ffff_ffff_ffff

  /* ---------- One pass ---------- */

  /** Positive ranges that start inside the file and do not overlap, in order. */
  predicate RangesOk(size: u64, ranges: seq<Range>) {
    && (forall i :: 0 <= i < |ranges| ==> 0 <= ranges[i].offset < size && ranges[i].length > 0)
    && (forall i, j :: 0 <= i < j < |ranges| ==> ranges[i].End() <= ranges[j].offset)
  }

  ghost predicate Allocated(ranges: seq<Range>, x: nat) {
    exists i :: 0 <= i < |ranges| && ranges[i].offset <= x < ranges[i].End()
  }

  /** `holes` and the ranges, clipped to the file, split its offsets between them. */
  ghost predicate Complements(size: u64, ranges: seq<Range>, holes: seq<Hole>) {
    forall x: nat :: Covered(holes, x) <==> x < size && !Allocated(ranges, x)
  }

  /** The offsets below `cursor` once `n` ranges have been passed. */
  ghost predicate Passed(size: u64, ranges: seq<Range>, n: nat, cursor: nat, holes: seq<Hole>) {
    && n <= |ranges| && RangesOk(size, ranges[..n]) && Proper(holes) && Separated(holes)
    && cursor == (if n == 0 then 0 else if ranges[n - 1].End() < size then ranges[n - 1].End() else size)
    && (forall x: nat :: Covered(holes, x) <==> x < cursor && !Allocated(ranges[..n], x))
    && (holes != [] ==> n > 0 && holes[|holes| - 1].End() <= ranges[n - 1].offset)
  }

  lemma AllocatedSnoc(ranges: seq<Range>, r: Range, x: nat)
    ensures Allocated(ranges + [r], x) <==> Allocated(ranges, x) || r.offset <= x < r.End()
  {
    var all := ranges + [r];
    if Allocated(ranges, x) {
      var i :| 0 <= i < |ranges| && ranges[i].offset <= x < ranges[i].End();
      assert all[i].offset <= x < all[i].End();
    }
    if r.offset <= x < r.End() {
      assert all[|ranges|].offset <= x < all[|ranges|].End();
    }
  }

  /** The next range is acceptable exactly when the ranges so far stay in order. */
  lemma NextRange(size: u64, ranges: seq<Range>, n: nat, cursor: nat, holes: seq<Hole>)
    requires Passed(size, ranges, n, cursor, holes) && n < |ranges|
    ensures RangesOk(size, ranges[..n + 1]) <==>
            ranges[n].offset >= 0 && ranges[n].length > 0 && cursor <= ranges[n].offset < size
  {
    var before, all := ranges[..n], ranges[..n + 1];
    assert all == before + [ranges[n]];
    if ranges[n].offset >= 0 && ranges[n].length > 0 && cursor <= ranges[n].offset < size {
      forall i, j | 0 <= i < j < |all| ensures all[i].End() <= all[j].offset {
        if j == n && i < n - 1 {
          assert before[i].End() <= before[n - 1].offset;
        }
      }
    }
    if RangesOk(size, all) && n > 0 {
      assert all[n - 1].End() <= all[n].offset;
    }
  }

  lemma PassedHole(size: u64, ranges: seq<Range>, n: nat, cursor: u64, holes: seq<Hole>)
    requires Passed(size, ranges, n, cursor, holes) && n < |ranges| && RangesOk(size, ranges[..n + 1])
    ensures cursor <= ranges[n].offset
    ensures var kept := if ranges[n].offset > cursor then holes + [Hole(cursor, ranges[n].offset - cursor)] else holes;
            Passed(size, ranges, n + 1, if ranges[n].End() < size then ranges[n].End() else size, kept)
  {
    hide Covered, Allocated, RangesOk;
    NextRange(size, ranges, n, cursor, holes);
    var r := ranges[n];
    var next := if r.End() < size then r.End() else size;
    var kept := if r.offset > cursor then holes + [Hole(cursor, r.offset - cursor)] else holes;
    forall x: nat ensures Covered(kept, x) <==> x < next && !Allocated(ranges[..n + 1], x) {
      PassedCover(size, ranges, n, cursor, holes, x);
    }
    if holes != [] {
      LastBelow(size, ranges, n, cursor, holes);
    }
    if r.offset > cursor {
      SeparatedSnoc(holes, Hole(cursor, r.offset - cursor));
    }
  }

  lemma PassedCover(size: u64, ranges: seq<Range>, n: nat, cursor: u64, holes: seq<Hole>, x: nat)
    requires Passed(size, ranges, n, cursor, holes) && n < |ranges|
    requires ranges[n].offset >= 0 && ranges[n].length > 0 && cursor <= ranges[n].offset < size
    ensures var kept := if ranges[n].offset > cursor then holes + [Hole(cursor, ranges[n].offset - cursor)] else holes;
            Covered(kept, x) <==>
            x < (if ranges[n].End() < size then ranges[n].End() else size) && !Allocated(ranges[..n + 1], x)
  {
    hide Covered, Allocated, RangesOk, Separated, Proper;
    var r := ranges[n];
    assert ranges[..n + 1] == ranges[..n] + [r];
    AllocatedSnoc(ranges[..n], r, x);
    if r.offset > cursor {
      CoveredSnoc(holes, Hole(cursor, r.offset - cursor), x);
    }
    if Allocated(ranges[..n], x) && x < size {
      BelowCursor(size, ranges, n, cursor, holes, x);
    }
  }

  lemma BelowCursor(size: u64, ranges: seq<Range>, n: nat, cursor: nat, holes: seq<Hole>, x: nat)
    requires Passed(size, ranges, n, cursor, holes) && Allocated(ranges[..n], x) && x < size
    ensures x < cursor
  {
    var before := ranges[..n];
    var i :| 0 <= i < |before| && before[i].offset <= x < before[i].End();
    if i < n - 1 {
      assert before[i].End() <= before[n - 1].offset;
    }
  }

  lemma LastBelow(size: u64, ranges: seq<Range>, n: nat, cursor: nat, holes: seq<Hole>)
    requires Passed(size, ranges, n, cursor, holes) && holes != []
    ensures holes[|holes| - 1].End() < cursor
  {
    assert ranges[..n][n - 1] == ranges[n - 1];
  }

  /**
   `holesFromAllocated` accepts exactly the ordered, disjoint, in-file ranges, and returns their
   exact complement, already in canonical form.
   */
  method HolesFromAllocated(size: u64, ranges: seq<Range>) returns (r: Result<seq<Hole>, SparseError>)
    ensures r.Ok? <==> RangesOk(size, ranges)
    ensures r.Ok? ==> Proper(r.value) && Separated(r.value) && Complements(size, ranges, r.value)
    ensures r.Err? ==> r.error == InvalidExtents
  {
    hide Complements, Passed, RangesOk, Proper, Separated;
    var holes: seq<Hole>, cursor: u64 := [], 0;
    PassedNothing(size, ranges);
    for i := 0 to |ranges|
      invariant Passed(size, ranges, i, cursor, holes) && cursor <= size
    {
      var range := ranges[i];
      NextRange(size, ranges, i, cursor, holes);
      if range.offset < 0 || range.length <= 0 || range.offset < cursor || range.offset >= size {
        PrefixOk(size, ranges, i + 1);
        return Err(InvalidExtents);
      }
      PassedHole(size, ranges, i, cursor, holes);
      if range.offset > cursor {
        holes := holes + [Hole(cursor, range.offset - cursor)];
      }
      cursor := if range.End() < size then range.End() else size;
    }
    LastHole(size, ranges, cursor, holes);
    if cursor < size {
      holes := holes + [Hole(cursor, size - cursor)];
    }
    r := Ok(holes);
  }

  lemma PassedNothing(size: u64, ranges: seq<Range>)
    ensures Passed(size, ranges, 0, 0, [])
  {
  }

  lemma PrefixOk(size: u64, ranges: seq<Range>, n: nat)
    requires n <= |ranges|
    ensures RangesOk(size, ranges) ==> RangesOk(size, ranges[..n])
  {
  }

  lemma LastHole(size: u64, ranges: seq<Range>, cursor: u64, holes: seq<Hole>)
    requires Passed(size, ranges, |ranges|, cursor, holes) && cursor <= size
    ensures var kept := if cursor < size then holes + [Hole(cursor, size - cursor)] else holes;
            RangesOk(size, ranges) && Proper(kept) && Separated(kept) && Complements(size, ranges, kept)
  {
    assert ranges[..|ranges|] == ranges;
    var kept := if cursor < size then holes + [Hole(cursor, size - cursor)] else holes;
    forall x: nat ensures Covered(kept, x) <==> x < size && !Allocated(ranges, x) {
      if cursor < size {
        CoveredSnoc(holes, Hole(cursor, size - cursor), x);
      }
      if Allocated(ranges, x) && x < size {
        BelowCursor(size, ranges, |ranges|, cursor, holes, x);
      }
    }
    if cursor < size && holes != [] {
      LastBelow(size, ranges, |ranges|, cursor, holes);
    }
    if cursor < size {
      SeparatedSnoc(holes, Hole(cursor, size - cursor));
    }
  }

  /** The complement is unique: no other canonical list covers the same offsets. */
  lemma ComplementUnique(size: u64, ranges: seq<Range>, a: seq<Hole>, b: seq<Hole>)
    requires Complements(size, ranges, a) && Proper(a) && Separated(a)
    requires Complements(size, ranges, b) && Proper(b) && Separated(b)
    ensures a == b
  {
    SeparatedUnique(a, b);
  }

  /* ---------- Page by page ---------- */

  /** What one query may come back with. */
  datatype Reply = Failed | Unsupported | Page(items: seq<Range>, more: bool)

  /** A query port: the reply to each call may depend on how many came before and where it starts. */
  type Port = (nat, nat) -> Reply

  datatype Collected = NotSupported | Ranges(all: seq<Range>)

  /** Where the next query starts, if the page makes progress inside the file. */
  function NextCursor(size: nat, cursor: nat, items: seq<Range>): (r: Result<nat, SparseError>)
    ensures r.Ok? ==> cursor < r.value <= size
  {
    if items == [] then Err(InvalidExtents)
    else
      var last := items[|items| - 1];
      if last.offset < 0 || last.length <= 0 then Err(InvalidExtents)
      else if last.End() <= cursor || last.End() > size then Err(InvalidExtents)
      else Ok(last.End())
  }

  /** Every range the port returns from `cursor` on; `size - cursor` goes down with each page. */
  function Collect(size: nat, port: Port, call: nat, cursor: nat): (r: Result<Collected, SparseError>)
    decreases size - cursor
  {
    if cursor >= size then Ok(Ranges([]))
    else
      match port(call, cursor)
      case Failed => Err(QueryFailed)
      case Unsupported => if cursor != 0 then Err(ExtentReadFailed) else Ok(NotSupported)
      case Page(items, more) =>
        if |items| > PAGE then Err(InvalidExtents)
        else if !more then Ok(Ranges(items))
        else
          var next :- NextCursor(size, cursor, items);
          var rest :- Collect(size, port, call + 1, next);
          match rest
          case NotSupported => Ok(NotSupported)
          case Ranges(more) => Ok(Ranges(items + more))
  }

  lemma {:induction false} LaterPagesSupported(size: nat, port: Port, call: nat, cursor: nat)
    requires cursor > 0
    ensures Collect(size, port, call, cursor) != Ok(NotSupported)
    decreases size - cursor
  {
    if cursor < size && port(call, cursor).Page? {
      var Page(items, more) := port(call, cursor);
      var next := NextCursor(size, cursor, items);
      if next.Ok? {
        LaterPagesSupported(size, port, call + 1, next.value);
      }
    }
  }

  /** What the pages before this one turn a later result into. */
  function Prepend(done: seq<Range>, r: Result<Collected, SparseError>): Result<Collected, SparseError> {
    if r.Ok? && r.value.Ranges? then Ok(Ranges(done + r.value.all)) else r
  }

  lemma CollectStep(size: nat, port: Port, call: nat, cursor: nat, done: seq<Range>, items: seq<Range>)
    requires cursor < size && port(call, cursor) == Page(items, true) && |items| <= PAGE
    requires NextCursor(size, cursor, items).Ok?
    ensures Prepend(done, Collect(size, port, call, cursor))
         == Prepend(done + items, Collect(size, port, call + 1, NextCursor(size, cursor, items).value))
  {
    var rest := Collect(size, port, call + 1, NextCursor(size, cursor, items).value);
    if rest.Ok? && rest.value.Ranges? {
      assert done + (items + rest.value.all) == done + items + rest.value.all;
    }
  }

  /** The collecting loop of `captureRanges`. */
  method CollectRanges(size: nat, port: Port) returns (r: Result<Collected, SparseError>)
    ensures r == Collect(size, port, 0, 0)
  {
    var ranges: seq<Range>, cursor, call := [], 0, 0;
    ghost var goal := Collect(size, port, 0, 0);
    assert goal.Ok? && goal.value.Ranges? ==> [] + goal.value.all == goal.value.all;
    while cursor < size
      invariant 0 <= cursor <= size && 0 <= call
      invariant goal == Prepend(ranges, Collect(size, port, call, cursor))
      decreases size - cursor
    {
      var reply := port(call, cursor);
      match reply {
        case Failed => return Err(QueryFailed);
        case Unsupported =>
          if cursor != 0 { return Err(ExtentReadFailed); }
          return Ok(NotSupported);
        case Page(items, more) =>
          if |items| > PAGE { return Err(InvalidExtents); }
          if !more { return Ok(Ranges(ranges + items)); }
          var next := NextCursor(size, cursor, items);
          if next.Err? { return Err(next.error); }
          CollectStep(size, port, call, cursor, ranges, items);
          ranges, cursor, call := ranges + items, next.value, call + 1;
      }
    }
    assert ranges + [] == ranges;
    r := Ok(Ranges(ranges));
  }

  /** The outcome for what was collected: its error, no holes where holes cannot be asked for, or the complement. */
  ghost predicate Captured(size: u64, collected: Result<Collected, SparseError>, r: Result<seq<Hole>, SparseError>) {
    if collected.Err? then r == Err(collected.error)
    else if collected.value.NotSupported? then r == Ok([])
    else if RangesOk(size, collected.value.all) then
      r.Ok? && Proper(r.value) && Separated(r.value) && Complements(size, collected.value.all, r.value)
    else r == Err(InvalidExtents)
  }

  /** `captureRanges`: one pass over everything the pages returned. */
  method CaptureRanges(size: u64, port: Port) returns (r: Result<seq<Hole>, SparseError>)
    requires size <= I64_MAX
    ensures Captured(size, Collect(size, port, 0, 0), r)
  {
    hide Collect;
    var collected := CollectRanges(size, port);
    if collected.Err? { return Err(collected.error); }
    match collected.value
    case NotSupported => r := Ok([]);
    case Ranges(all) => r := HolesFromAllocated(size, all);
  }

  /* ---------- Any way of paging gives the same ranges ---------- */

  function CursorAt(all: seq<Range>, k: nat): (c: int)
    requires k <= |all|
  {
    if k == 0 then 0 else all[k - 1].End()
  }

  /** From range `k` on, the port returns some non-empty run and says whether more follow. */
  ghost predicate ServesFrom(port: Port, all: seq<Range>, call: nat, k: nat, m: nat)
    requires k <= |all| && CursorAt(all, k) >= 0
  {
    k <= m <= |all| && m - k <= PAGE && (m < |all| ==> k < m)
    && port(call, CursorAt(all, k)) == Page(all[k..m], m < |all|)
  }

  ghost predicate ServesAt(port: Port, all: seq<Range>, call: nat, k: nat) {
    k <= |all| && CursorAt(all, k) >= 0 ==> exists m: nat :: ServesFrom(port, all, call, k, m)
  }

  ghost predicate Serves(port: Port, all: seq<Range>) {
    forall call: nat, k: nat :: ServesAt(port, all, call, k)
  }

  /** However the pages are cut, collecting them gives the whole list. */
  lemma {:induction false} PagedIsWhole(size: u64, port: Port, all: seq<Range>, call: nat, k: nat)
    requires RangesOk(size, all) && Serves(port, all) && k <= |all| && CursorAt(all, k) >= 0
    requires k < |all| || (k == 0 && size > 0)
    ensures Collect(size, port, call, CursorAt(all, k)) == Ok(Ranges(all[k..]))
    decreases |all| - k
  {
    assert CursorAt(all, k) < size by {
      if k > 0 {
        assert all[k - 1].End() <= all[k].offset;
      }
    }
    assert ServesAt(port, all, call, k);
    var m: nat :| ServesFrom(port, all, call, k, m);
    var items := all[k..m];
    if m < |all| {
      assert items[|items| - 1] == all[m - 1];
      assert all[m - 1].End() <= all[m].offset;
      assert k > 0 ==> all[k - 1].End() <= all[m - 1].offset;
      assert NextCursor(size, CursorAt(all, k), items) == Ok(CursorAt(all, m));
      PagedIsWhole(size, port, all, call + 1, m);
      assert all[k..m] + all[m..] == all[k..];
    } else {
      assert all[k..m] == all[k..];
    }
  }
}
