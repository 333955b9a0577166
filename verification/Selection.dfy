/** Filtering a snapshot by rules, with the ancestors of every included path (src/directory_fs.zig). */
module Selection {
  import opened Wire
  import opened ByteOrder
  import opened Snapshots
  import opened PathFilter
  import opened Paths
  import Structure

  /** `a` is `b` itself or a directory above it. */
  predicate Covers(a: bytes, b: bytes) {
    a == b || (|a| < |b| && b[|a|] == SLASH && b[..|a|] == a)
  }

  lemma CoversTransitive(a: bytes, b: bytes, c: bytes)
    requires Covers(a, b) && Covers(b, c)
    ensures Covers(a, c)
  {
    if a != b && b != c {
      assert c[..|b|][..|a|] == c[..|a|];
      assert c[..|b|][|a|] == c[|a|];
    }
  }

  ghost predicate Wants(f: Filter, path: bytes) {
    IncludesSpec(f, path) == Ok(true)
  }

  /** Included by the rules, or needed to reach something that is. */
  ghost predicate Selected(raw: seq<Entry>, f: Filter, path: bytes) {
    exists j :: 0 <= j < |raw| && Wants(f, raw[j].path) && Covers(path, raw[j].path)
  }

  function Pick(raw: seq<Entry>, flags: seq<bool>): (out: seq<Entry>)
    requires |flags| == |raw|
    ensures |out| <= |raw|
  {
    if raw == [] then []
    else
      var n := |raw| - 1;
      Pick(raw[..n], flags[..n]) + if flags[n] then [raw[n]] else []
  }

  ghost function SelectedFlags(raw: seq<Entry>, f: Filter): (flags: seq<bool>)
    ensures |flags| == |raw|
    ensures forall i :: 0 <= i < |raw| ==> flags[i] == Selected(raw, f, raw[i].path)
  {
    seq(|raw|, i requires 0 <= i < |raw| => Selected(raw, f, raw[i].path))
  }

  /** The filtered snapshot. */
  ghost function Chosen(raw: seq<Entry>, f: Filter): (out: seq<Entry>)
    ensures |out| <= |raw|
  {
    Pick(raw, SelectedFlags(raw, f))
  }

  /* ---------- What a selection keeps ---------- */

  lemma {:induction false} PickedFrom(raw: seq<Entry>, flags: seq<bool>)
    requires |flags| == |raw|
    ensures forall e :: e in Pick(raw, flags) ==> exists i :: 0 <= i < |raw| && flags[i] && raw[i] == e
    ensures forall i :: 0 <= i < |raw| && flags[i] ==> raw[i] in Pick(raw, flags)
  {
    if raw != [] {
      var n := |raw| - 1;
      PickedFrom(raw[..n], flags[..n]);
      forall e | e in Pick(raw, flags) ensures exists i :: 0 <= i < |raw| && flags[i] && raw[i] == e {
        if e in Pick(raw[..n], flags[..n]) {
          var i :| 0 <= i < n && flags[..n][i] && raw[..n][i] == e;
          assert flags[i] && raw[i] == e;
        } else {
          assert flags[n] && raw[n] == e;
        }
      }
      forall i | 0 <= i < |raw| && flags[i] ensures raw[i] in Pick(raw, flags) {
        if i < n {
          assert flags[..n][i] && raw[..n][i] == raw[i];
        }
      }
    }
  }

  lemma {:induction false} PickIncreasing(raw: seq<Entry>, flags: seq<bool>)
    requires |flags| == |raw| && Increasing(EntryPaths(raw))
    ensures Increasing(EntryPaths(Pick(raw, flags)))
  {
    hide Lt;
    if raw != [] {
      var n := |raw| - 1;
      assert EntryPaths(raw[..n]) == EntryPaths(raw)[..n];
      PickIncreasing(raw[..n], flags[..n]);
      hide Increasing;
      var before := Pick(raw[..n], flags[..n]);
      if flags[n] {
        LastPickedBelow(raw, flags);
        IncreasingSnoc(EntryPaths(before), raw[n].path);
        assert EntryPaths(before + [raw[n]]) == EntryPaths(before) + [raw[n].path];
      } else {
        assert before + [] == before;
      }
    }
  }

  lemma LastPickedBelow(raw: seq<Entry>, flags: seq<bool>)
    requires |flags| == |raw| && raw != [] && Increasing(EntryPaths(raw))
    ensures var n := |raw| - 1;
            var before := Pick(raw[..n], flags[..n]);
            before != [] ==> Lt(EntryPaths(before)[|before| - 1], raw[n].path)
  {
    hide Lt, Pick;
    var n := |raw| - 1;
    var before := Pick(raw[..n], flags[..n]);
    if before != [] {
      PickedFrom(raw[..n], flags[..n]);
      var last := before[|before| - 1];
      assert last in before;
      var i :| 0 <= i < n && flags[..n][i] && raw[..n][i] == last;
      assert Lt(EntryPaths(raw)[i], EntryPaths(raw)[n]);
    }
  }

  lemma PathIsPosition(out: seq<Entry>, k: nat, q: nat)
    requires Increasing(EntryPaths(out)) && k < |out| && q < |out| && Lt(out[q].path, out[k].path)
    ensures q < k
  {
    var paths := EntryPaths(out);
    LtAsymmetric(paths[q], paths[k]);
  }

  /** An ancestor of a selected entry is selected, earlier and a directory. */
  lemma AncestorSelected(raw: seq<Entry>, f: Filter, k: nat, c: nat)
    requires Structure.WellFormed(Records(raw)) && k < |Chosen(raw, f)|
    requires c < |Chosen(raw, f)[k].path| && Chosen(raw, f)[k].path[c] == SLASH
    ensures Structure.HasDirectory(Records(Chosen(raw, f)), k, Chosen(raw, f)[k].path[..c])
  {
    hide Selected, Structure.RecordOk, IncludesSpec;
    var out, flags, rs := Chosen(raw, f), SelectedFlags(raw, f), Records(raw);
    var path := out[k].path;
    PickedFrom(raw, flags);
    assert out[k] in out;
    var i :| 0 <= i < |raw| && flags[i] && raw[i] == out[k];
    assert Structure.AncestorsPrecede(rs, i);
    assert rs[i].path == path && Structure.HasDirectory(rs, i, path[..c]);
    var m :| 0 <= m < i && rs[m].path == path[..c] && rs[m].kind.Directory?;
    SelectedUpwards(raw, f, raw[m].path, path);
    assert flags[m];
    assert raw[m] in out;
    var q :| 0 <= q < |out| && out[q] == raw[m];
    PrefixLt(path[..c], path);
    IncreasingPaths(raw);
    PickIncreasing(raw, flags);
    PathIsPosition(out, k, q);
    assert Records(out)[q].path == path[..c] && Records(out)[q].kind.Directory?;
  }

  lemma IncreasingPaths(raw: seq<Entry>)
    requires Structure.WellFormed(Records(raw))
    ensures Increasing(EntryPaths(raw))
  {
    assert Structure.PathsOf(Records(raw))[..|raw|] == EntryPaths(raw);
  }

  lemma SelectedUpwards(raw: seq<Entry>, f: Filter, above: bytes, path: bytes)
    requires Selected(raw, f, path) && Covers(above, path)
    ensures Selected(raw, f, above)
  {
    var j :| 0 <= j < |raw| && Wants(f, raw[j].path) && Covers(path, raw[j].path);
    CoversTransitive(above, path, raw[j].path);
  }

  /** Filtering a well-formed tree leaves a well-formed tree. */
  lemma ChosenWellFormed(raw: seq<Entry>, f: Filter)
    requires Structure.WellFormed(Records(raw))
    ensures Structure.WellFormed(Records(Chosen(raw, f)))
  {
    hide Structure.RecordOk, Selected, Lt;
    var out := Chosen(raw, f);
    var rs := Records(out);
    IncreasingPaths(raw);
    PickIncreasing(raw, SelectedFlags(raw, f));
    PickedFrom(raw, SelectedFlags(raw, f));
    assert Structure.PathsOf(rs)[..|rs|] == EntryPaths(out);
    forall k | 0 <= k < |rs| ensures Structure.RecordOk(rs[k]) && Structure.AncestorsPrecede(rs, k) {
      assert out[k] in out;
      var i :| 0 <= i < |raw| && SelectedFlags(raw, f)[i] && raw[i] == out[k];
      assert Structure.RecordOk(Records(raw)[i]);
      forall c | 0 <= c < |rs[k].path| && rs[k].path[c] == SLASH
        ensures Structure.HasDirectory(rs, k, rs[k].path[..c]) {
        AncestorSelected(raw, f, k, c);
      }
    }
  }

  /**
   An entry is left exactly when it was there and a path that the rules include is its own or
   continues it behind a separator; the entries left keep their order.
   */
  lemma ChosenMeans(raw: seq<Entry>, f: Filter)
    requires Increasing(EntryPaths(raw))
    ensures forall e :: e in Chosen(raw, f) <==>
              && e in raw
              && exists x :: x in raw && IncludesSpec(f, x.path) == Ok(true)
                             && (x.path == e.path || e.path + [SLASH] <= x.path)
    ensures Increasing(EntryPaths(Chosen(raw, f)))
  {
    hide IncludesSpec, Lt;
    var flags := SelectedFlags(raw, f);
    PickedFrom(raw, flags);
    PickIncreasing(raw, flags);
    forall e ensures e in Chosen(raw, f) <==> e in raw && Selected(raw, f, e.path) {
      if e in raw && Selected(raw, f, e.path) {
        var i :| 0 <= i < |raw| && raw[i] == e;
        assert flags[i];
      }
    }
    forall e: Entry
      ensures Selected(raw, f, e.path) <==>
              exists x :: x in raw && IncludesSpec(f, x.path) == Ok(true)
                          && (x.path == e.path || e.path + [SLASH] <= x.path)
    {
      forall x: Entry ensures Covers(e.path, x.path) <==> x.path == e.path || e.path + [SLASH] <= x.path {
        CoversMeans(e.path, x.path);
      }
      if Selected(raw, f, e.path) {
        var j :| 0 <= j < |raw| && Wants(f, raw[j].path) && Covers(e.path, raw[j].path);
        assert raw[j] in raw;
      }
      if x :| x in raw && IncludesSpec(f, x.path) == Ok(true) && (x.path == e.path || e.path + [SLASH] <= x.path) {
        var j :| 0 <= j < |raw| && raw[j] == x;
        assert Wants(f, raw[j].path) && Covers(e.path, raw[j].path);
      }
    }
  }

  lemma CoversMeans(a: bytes, b: bytes)
    ensures Covers(a, b) <==> b == a || a + [SLASH] <= b
  {
    if |a| < |b| {
      assert b[..|a| + 1] == b[..|a|] + [b[|a|]];
      assert a + [SLASH] <= b <==> b[..|a| + 1] == a + [SLASH];
      assert (a + [SLASH])[..|a|] == a;
    }
  }

  /* ---------- The selecting loop ---------- */

  /** The flags once the first `n` entries have been looked at. */
  ghost predicate MarkedUpTo(raw: seq<Entry>, f: Filter, flags: seq<bool>, n: nat) {
    && |flags| == |raw| && n <= |raw|
    && forall i :: 0 <= i < |raw| ==>
         (flags[i] <==> exists j :: 0 <= j < n && Wants(f, raw[j].path) && Covers(raw[i].path, raw[j].path))
  }

  /** While climbing from entry `n`: everything at least as long as `height` above it is marked too. */
  ghost predicate Climbing(raw: seq<Entry>, f: Filter, flags: seq<bool>, n: nat, height: nat) {
    && |flags| == |raw| && n < |raw|
    && forall i :: 0 <= i < |raw| ==>
         (flags[i] <==> || (exists j :: 0 <= j < n && Wants(f, raw[j].path) && Covers(raw[i].path, raw[j].path))
                        || (Covers(raw[i].path, raw[n].path) && |raw[i].path| >= height))
  }

  lemma ClimbStart(raw: seq<Entry>, f: Filter, flags: seq<bool>, n: nat)
    requires MarkedUpTo(raw, f, flags, n) && n < |raw| && Increasing(EntryPaths(raw))
    ensures Climbing(raw, f, flags[n := true], n, |raw[n].path|)
  {
    hide Wants;
    forall i | 0 <= i < |raw| && raw[i].path == raw[n].path ensures i == n {
      FindPathUnique(raw, i);
      FindPathUnique(raw, n);
    }
  }

  lemma ClimbStep(raw: seq<Entry>, f: Filter, flags: seq<bool>, n: nat, parent: bytes, slash: nat, m: nat)
    requires Climbing(raw, f, flags, n, |parent|) && Increasing(EntryPaths(raw))
    requires Covers(parent, raw[n].path) && Structure.LastSlash(parent) == Some(slash)
    requires m < |raw| && raw[m].path == parent[..slash]
    ensures Climbing(raw, f, flags[m := true], n, slash) && Covers(parent[..slash], raw[n].path)
  {
    hide Wants, Lt;
    var next, path := flags[m := true], raw[n].path;
    assert path[..|parent|] == parent;
    assert path[..slash] == parent[..slash] && path[slash] == SLASH;
    forall i | 0 <= i < |raw|
      ensures next[i] <==> || (exists j :: 0 <= j < n && Wants(f, raw[j].path) && Covers(raw[i].path, raw[j].path))
                           || (Covers(raw[i].path, path) && |raw[i].path| >= slash)
    {
      if Covers(raw[i].path, path) && slash <= |raw[i].path| < |parent| {
        assert path[|raw[i].path|] == SLASH == parent[|raw[i].path|];
        assert |raw[i].path| == slash;
        assert raw[i].path == parent[..slash];
        FindPathUnique(raw, i);
        FindPathUnique(raw, m);
      }
    }
  }

  lemma ClimbEnd(raw: seq<Entry>, f: Filter, flags: seq<bool>, n: nat, parent: bytes)
    requires Climbing(raw, f, flags, n, |parent|) && Wants(f, raw[n].path)
    requires Covers(parent, raw[n].path) && SLASH !in parent
    ensures MarkedUpTo(raw, f, flags, n + 1)
  {
    hide Wants;
    forall i | 0 <= i < |raw| && Covers(raw[i].path, raw[n].path) ensures |raw[i].path| >= |parent| {
      TopReached(raw[i].path, parent, raw[n].path);
    }
  }

  /** Nothing above `path` is shorter than its first component. */
  lemma TopReached(above: bytes, parent: bytes, path: bytes)
    requires Covers(above, path) && Covers(parent, path) && SLASH !in parent
    ensures |above| >= |parent|
  {
    assert path[..|parent|] == parent;
    assert forall c :: 0 <= c < |parent| ==> path[c] == parent[c] && parent[c] in parent;
  }

  /** Mark an included entry and then each directory above it, found by binary search. */
  method MarkWithAncestors(raw: seq<Entry>, ghost f: Filter, n: nat, selected: array<bool>)
    requires Structure.WellFormed(Records(raw)) && n < |raw| && selected.Length == |raw|
    requires MarkedUpTo(raw, f, selected[..], n) && Wants(f, raw[n].path)
    modifies selected
    ensures MarkedUpTo(raw, f, selected[..], n + 1)
  {
    hide Structure.RecordOk, Structure.LastSlash, Lt, Wants, MarkedUpTo, Climbing;
    IncreasingPaths(raw);
    ClimbStart(raw, f, selected[..], n);
    ghost var before := selected[..];
    selected[n] := true;
    assert selected[..] == before[n := true];
    var parent := raw[n].path;
    var slash := Structure.LastSlash(parent);
    while slash.Some?
      invariant slash == Structure.LastSlash(parent)
      invariant Covers(parent, raw[n].path) && Climbing(raw, f, selected[..], n, |parent|)
      decreases |parent|
    {
      ghost var child := parent;
      AncestorPresent(raw, n, parent, slash.value);
      parent := parent[..slash.value];
      var index := BinarySearch(EntryPaths(raw), parent);
      before := selected[..];
      ClimbStep(raw, f, before, n, child, slash.value, index.value);
      selected[index.value] := true;
      assert selected[..] == before[index.value := true];
      slash := Structure.LastSlash(parent);
    }
    ClimbEnd(raw, f, selected[..], n, parent);
  }

  lemma AncestorPresent(raw: seq<Entry>, n: nat, child: bytes, slash: nat)
    requires Structure.WellFormed(Records(raw)) && n < |raw|
    requires Covers(child, raw[n].path) && slash < |child| && child[slash] == SLASH
    ensures child[..slash] in EntryPaths(raw)
  {
    hide Structure.RecordOk;
    var rs, path := Records(raw), raw[n].path;
    assert path[..|child|] == child;
    assert path[..slash] == child[..slash] && path[slash] == SLASH;
    assert Structure.AncestorsPrecede(rs, n);
    assert rs[n].path == path && Structure.HasDirectory(rs, n, path[..slash]);
    var k :| 0 <= k < n && rs[k].path == path[..slash] && rs[k].kind.Directory?;
    assert EntryPaths(raw)[k] == child[..slash];
  }

  lemma ValidPaths(raw: seq<Entry>)
    requires Structure.WellFormed(Records(raw))
    ensures forall i :: 0 <= i < |raw| ==> ValidPath(raw[i].path)
  {
    forall i | 0 <= i < |raw| ensures ValidPath(raw[i].path) {
      assert Structure.RecordOk(Records(raw)[i]);
    }
  }

  lemma Skipped(raw: seq<Entry>, f: Filter, flags: seq<bool>, n: nat)
    requires MarkedUpTo(raw, f, flags, n) && n < |raw| && !Wants(f, raw[n].path)
    ensures MarkedUpTo(raw, f, flags, n + 1)
  {
    hide Wants;
  }

  lemma AllMarked(raw: seq<Entry>, f: Filter, flags: seq<bool>)
    requires MarkedUpTo(raw, f, flags, |raw|)
    ensures flags == SelectedFlags(raw, f)
  {
    hide Wants;
  }

  /** `selectEntries`: on a valid snapshot no parent is ever missing, and exactly the wanted tree is left. */
  method SelectEntries(raw: seq<Entry>, f: Filter) returns (output: seq<Entry>)
    requires Structure.WellFormed(Records(raw))
    ensures output == Chosen(raw, f)
  {
    hide Structure.WellFormed, MarkedUpTo, Structure.RecordOk, ValidPath;
    var selected := new bool[|raw|](_ => false);
    NothingMarked(raw, f, selected[..]);
    ValidPaths(raw);
    for index := 0 to |raw|
      invariant MarkedUpTo(raw, f, selected[..], index)
    {
      var included := Includes(f, raw[index].path);
      WantsMeans(f, raw[index].path);
      if included == Ok(true) {
        MarkWithAncestors(raw, f, index, selected);
      } else {
        Skipped(raw, f, selected[..], index);
      }
    }
    AllMarked(raw, f, selected[..]);
    output := Gather(raw, selected[..]);
  }

  lemma NothingMarked(raw: seq<Entry>, f: Filter, flags: seq<bool>)
    requires |flags| == |raw| && forall i :: 0 <= i < |raw| ==> !flags[i]
    ensures MarkedUpTo(raw, f, flags, 0)
  {
  }

  lemma WantsMeans(f: Filter, path: bytes)
    requires ValidPath(path)
    ensures IncludesSpec(f, path).Ok? && (Wants(f, path) <==> IncludesSpec(f, path) == Ok(true))
  {
  }

  method Gather(raw: seq<Entry>, flags: seq<bool>) returns (output: seq<Entry>)
    requires |flags| == |raw|
    ensures output == Pick(raw, flags)
  {
    output := [];
    for i := 0 to |raw|
      invariant output == Pick(raw[..i], flags[..i])
    {
      assert raw[..i + 1][..i] == raw[..i] && flags[..i + 1][..i] == flags[..i];
      if flags[i] {
        output := output + [raw[i]];
      }
    }
    assert raw[..|raw|] == raw && flags[..|raw|] == flags;
  }
}
