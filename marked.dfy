/** The `v.erase(std::remove_if(begin(v), end(v), pred), end(v))` idiom the
    Delaunay driver uses to compact its vectors: every element whose flag is
    set is dropped and the others close up in their original order. The
    flags are given as a sequence parallel to the elements. */
module Marked {

  /** The number of set flags. */
  function Count(m: seq<bool>): (c: nat)
    ensures c <= |m|
    decreases |m|
  {
    if m == [] then 0 else Count(m[..|m| - 1]) + (if m[|m| - 1] then 1 else 0)
  }

  /** The elements whose flag is clear, in order. */
  function RemoveMarked<T>(xs: seq<T>, m: seq<bool>): (r: seq<T>)
    requires |m| == |xs|
    ensures |r| == |xs| - Count(m)
    decreases |xs|
  {
    if xs == [] then []
    else RemoveMarked(xs[..|xs| - 1], m[..|m| - 1]) + (if m[|m| - 1] then [] else [xs[|xs| - 1]])
  }

  /** The elements whose flag is set, in order: what `RemoveMarked` drops. */
  function Select<T>(xs: seq<T>, m: seq<bool>): (r: seq<T>)
    requires |m| == |xs|
    ensures |r| == Count(m)
    decreases |xs|
  {
    if xs == [] then []
    else Select(xs[..|xs| - 1], m[..|m| - 1]) + (if m[|m| - 1] then [xs[|xs| - 1]] else [])
  }

  /** Appending one flagged element extends the result by that element if
      and only if its flag is clear. */
  lemma RemoveMarkedSnoc<T>(xs: seq<T>, m: seq<bool>, x: T, b: bool)
    requires |m| == |xs|
    ensures RemoveMarked(xs + [x], m + [b]) == RemoveMarked(xs, m) + (if b then [] else [x])
    ensures Select(xs + [x], m + [b]) == Select(xs, m) + (if b then [x] else [])
  {
    assert (xs + [x])[..|xs|] == xs;
    assert (m + [b])[..|m|] == m;
  }

  /** Compaction keeps the relative order: compacting a concatenation is the
      concatenation of the compacted parts. */
  lemma {:induction false} RemoveMarkedAppend<T>(a: seq<T>, ma: seq<bool>, b: seq<T>, mb: seq<bool>)
    requires |ma| == |a| && |mb| == |b|
    ensures RemoveMarked(a + b, ma + mb) == RemoveMarked(a, ma) + RemoveMarked(b, mb)
    decreases |b|
  {
    if b == [] {
      assert a + b == a && ma + mb == ma;
    } else {
      var b', mb' := b[..|b| - 1], mb[..|mb| - 1];
      var x, f := b[|b| - 1], mb[|mb| - 1];
      var tail := if f then [] else [x];
      assert b == b' + [x] && mb == mb' + [f];
      calc {
        RemoveMarked(a + b, ma + mb);
        { assert a + b == (a + b') + [x] && ma + mb == (ma + mb') + [f]; }
        RemoveMarked((a + b') + [x], (ma + mb') + [f]);
        { RemoveMarkedSnoc(a + b', ma + mb', x, f); }
        RemoveMarked(a + b', ma + mb') + tail;
        { RemoveMarkedAppend(a, ma, b', mb'); }
        RemoveMarked(a, ma) + RemoveMarked(b', mb') + tail;
        { RemoveMarkedSnoc(b', mb', x, f); }
        RemoveMarked(a, ma) + RemoveMarked(b, mb);
      }
    }
  }

  /** An element survives compaction exactly when it stands somewhere with
      a clear flag. */
  lemma {:induction false} RemoveMarkedMembers<T>(xs: seq<T>, m: seq<bool>, x: T)
    requires |m| == |xs|
    ensures x in RemoveMarked(xs, m) <==> exists i :: 0 <= i < |xs| && !m[i] && xs[i] == x
    decreases |xs|
  {
    if xs != [] {
      var n := |xs| - 1;
      var pre, mpre := xs[..n], m[..n];
      RemoveMarkedMembers(pre, mpre, x);
      if x in RemoveMarked(xs, m) {
        if x in RemoveMarked(pre, mpre) {
          var i :| 0 <= i < n && !mpre[i] && pre[i] == x;
          assert !m[i] && xs[i] == x;
        } else {
          assert !m[n] && xs[n] == x;
        }
      } else {
        forall i | 0 <= i < |xs| && !m[i] ensures xs[i] != x {
          if i < n {
            assert pre[i] == xs[i] && mpre[i] == m[i];
          }
        }
      }
    }
  }

  /** An element is dropped by compaction exactly when it stands somewhere
      with a set flag. */
  lemma {:induction false} SelectMembers<T>(xs: seq<T>, m: seq<bool>, x: T)
    requires |m| == |xs|
    ensures x in Select(xs, m) <==> exists i :: 0 <= i < |xs| && m[i] && xs[i] == x
    decreases |xs|
  {
    if xs != [] {
      var n := |xs| - 1;
      var pre, mpre := xs[..n], m[..n];
      SelectMembers(pre, mpre, x);
      if x in Select(xs, m) {
        if x in Select(pre, mpre) {
          var i :| 0 <= i < n && mpre[i] && pre[i] == x;
          assert m[i] && xs[i] == x;
        } else {
          assert m[n] && xs[n] == x;
        }
      } else {
        forall i | 0 <= i < |xs| && m[i] ensures xs[i] != x {
          if i < n {
            assert pre[i] == xs[i] && mpre[i] == m[i];
          }
        }
      }
    }
  }

  /** Compaction splits the elements into the kept and the dropped ones:
      together they are the original elements, counted with multiplicity. */
  lemma {:induction false} Partition<T>(xs: seq<T>, m: seq<bool>)
    requires |m| == |xs|
    ensures multiset(RemoveMarked(xs, m)) + multiset(Select(xs, m)) == multiset(xs)
    ensures |RemoveMarked(xs, m)| + |Select(xs, m)| == |xs|
    decreases |xs|
  {
    if xs != [] {
      var n := |xs| - 1;
      Partition(xs[..n], m[..n]);
      assert xs == xs[..n] + [xs[n]];
    }
  }
}
