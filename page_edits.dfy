/**
 * Page edits of js/pdf-operations.js: `deletePages`, which sorts the
 * caller's index array in place, largest first, and then removes the pages
 * one index at a time; and the labels `addPageNumbers` draws.
 *
 * A document is its sequence of pages; pdf-lib's `removePage(i)` is
 * deletion at index i, refused (an exception, here `None`) when i is not a
 * page of the current document.
 */
module PageEdits {
  import opened JsBuiltins

  // ---------------------------------------------------------------------
  // Index lists
  // ---------------------------------------------------------------------

  predicate SortedDesc(s: seq<int>) {
    forall i, j :: 0 <= i < j < |s| ==> s[i] >= s[j]
  }

  predicate StrictlyDesc(s: seq<int>) {
    forall i, j :: 0 <= i < j < |s| ==> s[i] > s[j]
  }

  predicate Distinct(s: seq<int>) {
    forall i, j :: 0 <= i < j < |s| ==> s[i] != s[j]
  }

  predicate AllInRange(s: seq<int>, n: int) {
    forall i :: 0 <= i < |s| ==> 0 <= s[i] < n
  }

  function Elements(s: seq<int>): set<int>
  {
    set x | x in s
  }

  /**
   * `pagesToDelete.sort((a, b) => b - a)`: the caller's array, sorted in
   * place, largest first.
   */
  method SortDescending(a: array<int>)
    modifies a
    ensures SortedDesc(a[..])
    ensures multiset(a[..]) == multiset(old(a[..]))
  {
    if a.Length == 0 {
      return;
    }
    var i := 1;
    while i < a.Length
      invariant 1 <= i <= a.Length
      invariant SortedDesc(a[..i])
      invariant multiset(a[..]) == multiset(old(a[..]))
    {
      InsertDescending(a, i);
      i := i + 1;
    }
    assert a[..] == a[..a.Length];
  }

  /** One insertion step: a[i] sinks left into the sorted prefix a[..i]. */
  method InsertDescending(a: array<int>, i: int)
    requires 0 < i < a.Length
    requires SortedDesc(a[..i])
    modifies a
    ensures SortedDesc(a[..i + 1])
    ensures a[i + 1..] == old(a[i + 1..])
    ensures multiset(a[..]) == multiset(old(a[..]))
  {
    var j := i;
    SinkStart(a[..], i);
    while j > 0 && a[j - 1] < a[j]
      invariant 0 <= j <= i
      invariant Sinking(a[..], i, j)
      invariant a[i + 1..] == old(a[i + 1..])
      invariant multiset(a[..]) == multiset(old(a[..]))
    {
      ghost var before := a[..];
      a[j - 1], a[j] := a[j], a[j - 1];
      assert a[..] == before[j - 1 := before[j]][j := before[j - 1]];
      SinkStep(before, i, j);
      j := j - 1;
    }
    SinkDone(a[..], i, j);
  }

  /**
   * While s[j] sinks through s[..i + 1]: the other elements are in
   * descending order and s[j] is at least everything after it.
   */
  predicate Sinking(s: seq<int>, i: int, j: int)
    requires 0 <= j <= i < |s|
  {
    (forall x, y :: 0 <= x < y <= i && x != j && y != j ==> s[x] >= s[y]) &&
    (forall y :: j < y <= i ==> s[j] >= s[y])
  }

  lemma SinkStart(s: seq<int>, i: int)
    requires 0 < i < |s|
    requires SortedDesc(s[..i])
    ensures Sinking(s, i, i)
  {
    forall x, y | 0 <= x < y <= i && x != i && y != i
      ensures s[x] >= s[y]
    {
      assert s[..i][x] == s[x] && s[..i][y] == s[y];
    }
  }

  lemma SinkStep(s: seq<int>, i: int, j: int)
    requires 0 < j <= i < |s|
    requires Sinking(s, i, j) && s[j - 1] < s[j]
    ensures Sinking(s[j - 1 := s[j]][j := s[j - 1]], i, j - 1)
    ensures multiset(s[j - 1 := s[j]][j := s[j - 1]]) == multiset(s)
  {
    SwapKeepsMultiset(s, j);
  }

  lemma SinkDone(s: seq<int>, i: int, j: int)
    requires 0 <= j <= i < |s|
    requires Sinking(s, i, j)
    requires j == 0 || s[j - 1] >= s[j]
    ensures SortedDesc(s[..i + 1])
  {
    var t := s[..i + 1];
    forall x, y | 0 <= x < y < |t|
      ensures t[x] >= t[y]
    {
      if x == j {
      } else if y == j {
        assert s[x] >= s[j - 1];
      }
    }
  }

  lemma SwapKeepsMultiset(s: seq<int>, j: int)
    requires 0 < j < |s|
    ensures multiset(s[j - 1 := s[j]][j := s[j - 1]]) == multiset(s)
  {
  }

  /**
   * Sorting largest first is determined by the values alone: two
   * descending arrangements of the same indices are equal, so the model of
   * the engine's sort is exact whatever algorithm the engine uses.
   */
  lemma {:induction false} DescendingOrderUnique(a: seq<int>, b: seq<int>)
    requires SortedDesc(a) && SortedDesc(b)
    requires multiset(a) == multiset(b)
    ensures a == b
  {
    if a != [] {
      assert |b| == |multiset(b)| == |multiset(a)| == |a|;
      HeadIsLargest(a, b[0]);
      HeadIsLargest(b, a[0]);
      SameTails(a, b);
      DescendingOrderUnique(a[1..], b[1..]);
      assert a == [a[0]] + a[1..];
      assert b == [b[0]] + b[1..];
    }
  }

  lemma HeadIsLargest(a: seq<int>, x: int)
    requires SortedDesc(a) && x in multiset(a)
    ensures a != [] && x <= a[0]
  {
    var i :| 0 <= i < |a| && a[i] == x;
    if i > 0 {
      assert a[0] >= a[i];
    }
  }

  lemma SameTails(a: seq<int>, b: seq<int>)
    requires a != [] && b != [] && a[0] == b[0] && multiset(a) == multiset(b)
    ensures multiset(a[1..]) == multiset(b[1..])
  {
    assert a == [a[0]] + a[1..];
    assert b == [b[0]] + b[1..];
    assert multiset(a[1..]) == multiset(a) - multiset{a[0]};
    assert multiset(b[1..]) == multiset(b) - multiset{b[0]};
  }

  // ---------------------------------------------------------------------
  // Removing pages one index at a time
  // ---------------------------------------------------------------------

  /** `removePage(i)`: the document without its page i. */
  function RemoveAt<P>(doc: seq<P>, i: int): (r: seq<P>)
    requires 0 <= i < |doc|
    ensures |r| == |doc| - 1
  {
    doc[..i] + doc[i + 1..]
  }

  /** `removePage` for each index in turn; `None` once an index is not a page. */
  function RemovePagesInOrder<P>(doc: seq<P>, idxs: seq<int>): (r: Option<seq<P>>)
    ensures r.Some? ==> |r.value| == |doc| - |idxs|
    ensures |idxs| > |doc| ==> r.None?
  {
    if idxs == [] then Some(doc)
    else if 0 <= idxs[0] < |doc| then RemovePagesInOrder(RemoveAt(doc, idxs[0]), idxs[1..])
    else None
  }

  /** The `forEach` over the sorted indices. */
  method RemoveInOrder<P>(doc: seq<P>, idxs: seq<int>) returns (r: Option<seq<P>>)
    ensures r == RemovePagesInOrder(doc, idxs)
  {
    var pages := doc;
    var k := 0;
    while k < |idxs|
      invariant 0 <= k <= |idxs|
      invariant RemovePagesInOrder(pages, idxs[k..]) == RemovePagesInOrder(doc, idxs)
    {
      assert idxs[k..][0] == idxs[k] && idxs[k..][1..] == idxs[k + 1..];
      if !(0 <= idxs[k] < |pages|) {
        return None;
      }
      pages := RemoveAt(pages, idxs[k]);
      k := k + 1;
    }
    assert idxs[k..] == [];
    return Some(pages);
  }

  /** deletePages: sort the caller's indices largest first, then remove them in that order. */
  method DeletePages<P>(doc: seq<P>, pagesToDelete: array<int>) returns (r: Option<seq<P>>)
    modifies pagesToDelete
    ensures SortedDesc(pagesToDelete[..])
    ensures multiset(pagesToDelete[..]) == multiset(old(pagesToDelete[..]))
    ensures r == RemovePagesInOrder(doc, pagesToDelete[..])
    ensures Distinct(old(pagesToDelete[..])) && AllInRange(old(pagesToDelete[..]), |doc|) ==>
      r == Some(Survivors(doc, Elements(old(pagesToDelete[..]))))
  {
    ghost var original := pagesToDelete[..];
    SortDescending(pagesToDelete);
    r := RemoveInOrder(doc, pagesToDelete[..]);
    if Distinct(original) && AllInRange(original, |doc|) {
      PermutationKeeps(original, pagesToDelete[..], |doc|);
      SortedDistinctDeletes(doc, pagesToDelete[..]);
    }
  }

  // ---------------------------------------------------------------------
  // What is left: the pages whose original index was not named
  // ---------------------------------------------------------------------

  /** The pages of `s`, numbered from `base`, whose number is not in D, in their order. */
  function KeepFrom<P>(s: seq<P>, D: set<int>, base: int): seq<P>
  {
    if s == [] then [] else (if base in D then [] else [s[0]]) + KeepFrom(s[1..], D, base + 1)
  }

  /** The pages of `doc` whose 0-based index is not in D, in document order. */
  function Survivors<P>(doc: seq<P>, D: set<int>): seq<P>
  {
    KeepFrom(doc, D, 0)
  }

  lemma {:induction false} KeepConcat<P>(a: seq<P>, b: seq<P>, D: set<int>, base: int)
    ensures KeepFrom(a + b, D, base) == KeepFrom(a, D, base) + KeepFrom(b, D, base + |a|)
  {
    if a == [] {
      assert a + b == b;
    } else {
      assert (a + b)[0] == a[0];
      assert (a + b)[1..] == a[1..] + b;
      KeepConcat(a[1..], b, D, base + 1);
    }
  }

  lemma {:induction false} KeepSame<P>(s: seq<P>, D: set<int>, E: set<int>, base: int)
    requires forall p :: base <= p < base + |s| ==> (p in D <==> p in E)
    ensures KeepFrom(s, D, base) == KeepFrom(s, E, base)
  {
    if s != [] {
      KeepSame(s[1..], D, E, base + 1);
    }
  }

  lemma {:induction false} KeepAll<P>(s: seq<P>, D: set<int>, base: int)
    requires forall p :: p in D ==> p < base
    ensures KeepFrom(s, D, base) == s
  {
    if s != [] {
      KeepAll(s[1..], D, base + 1);
      assert s == [s[0]] + s[1..];
    }
  }

  /**
   * Removing page i first leaves every lower page where it was: what
   * survives removing the lower indices R afterwards is what survives
   * removing R and i from the original.
   */
  lemma RemoveAtSurvivors<P>(doc: seq<P>, i: int, R: set<int>)
    requires 0 <= i < |doc|
    requires forall r :: r in R ==> r < i
    ensures Survivors(RemoveAt(doc, i), R) == Survivors(doc, R + {i})
  {
    var front, back := doc[..i], doc[i + 1..];
    var kept := KeepFrom(front, R, 0);
    assert RemoveAt(doc, i) == front + back;
    KeepConcat(front, back, R, 0);
    KeepAll(back, R, i);
    assert Survivors(RemoveAt(doc, i), R) == kept + back;
    var tail := [doc[i]] + back;
    assert doc == front + tail;
    KeepConcat(front, tail, R + {i}, 0);
    KeepSame(front, R, R + {i}, 0);
    assert tail[1..] == back;
    assert KeepFrom(tail, R + {i}, i) == KeepFrom(back, R + {i}, i + 1);
    KeepAll(back, R + {i}, i + 1);
    assert Survivors(doc, R + {i}) == kept + back;
  }

  /**
   * Removing strictly descending, in-range indices one at a time deletes
   * exactly the pages they originally named; the rest keep their order.
   */
  lemma {:induction false} DescendingRemovalDeletesExactly<P>(doc: seq<P>, idxs: seq<int>)
    requires StrictlyDesc(idxs) && AllInRange(idxs, |doc|)
    ensures RemovePagesInOrder(doc, idxs) == Some(Survivors(doc, Elements(idxs)))
    decreases |idxs|
  {
    if idxs == [] {
      assert Elements(idxs) == {};
      KeepAll(doc, {}, 0);
    } else {
      var i, rest := idxs[0], idxs[1..];
      var smaller := RemoveAt(doc, i);
      assert forall k :: 0 <= k < |rest| ==> rest[k] == idxs[k + 1];
      assert AllInRange(rest, |smaller|);
      DescendingRemovalDeletesExactly(smaller, rest);
      assert forall r :: r in Elements(rest) ==> r < i;
      RemoveAtSurvivors(doc, i, Elements(rest));
      assert Elements(idxs) == Elements(rest) + {i};
    }
  }

  /** Sorted largest first and free of repeats, the indices delete exactly the pages they name. */
  lemma SortedDistinctDeletes<P>(doc: seq<P>, idxs: seq<int>)
    requires SortedDesc(idxs) && Distinct(idxs) && AllInRange(idxs, |doc|)
    ensures RemovePagesInOrder(doc, idxs) == Some(Survivors(doc, Elements(idxs)))
  {
    DescendingRemovalDeletesExactly(doc, idxs);
  }

  lemma {:induction false} DistinctCounts(s: seq<int>)
    requires Distinct(s)
    ensures forall x :: multiset(s)[x] <= 1
  {
    if s != [] {
      DistinctCounts(s[1..]);
      assert s == [s[0]] + s[1..];
      assert s[0] !in s[1..] by {
        forall k | 0 <= k < |s[1..]| ensures s[1..][k] != s[0] {
          assert s[1..][k] == s[k + 1];
        }
      }
    }
  }

  lemma RepeatCounts(s: seq<int>, i: int, j: int)
    requires 0 <= i < j < |s| && s[i] == s[j]
    ensures multiset(s)[s[i]] >= 2
  {
    assert s == s[..j] + s[j..];
    assert s[i] in s[..j];
    assert s[j..][0] == s[j];
  }

  /** A rearrangement keeps the indices distinct, in range, and the same set. */
  lemma PermutationKeeps(a: seq<int>, b: seq<int>, n: int)
    requires multiset(a) == multiset(b)
    requires Distinct(a) && AllInRange(a, n)
    ensures Distinct(b) && AllInRange(b, n) && Elements(b) == Elements(a)
  {
    DistinctCounts(a);
    forall i, j | 0 <= i < j < |b| ensures b[i] != b[j] {
      if b[i] == b[j] {
        RepeatCounts(b, i, j);
      }
    }
    forall k | 0 <= k < |b| ensures 0 <= b[k] < n {
      assert b[k] in multiset(a);
    }
    forall x ensures x in Elements(b) <==> x in Elements(a) {
      assert x in b <==> x in multiset(b);
      assert x in a <==> x in multiset(a);
    }
  }

  // ---------------------------------------------------------------------
  // Why the order matters
  // ---------------------------------------------------------------------

  /** Removing ascending indices would shift the later ones: [0, 1] removes pages 0 and 2. */
  lemma AscendingOrderMisdeletes()
    ensures RemovePagesInOrder([10, 11, 12], [0, 1]) == Some([11])
    ensures Survivors([10, 11, 12], {0, 1}) == [12]
  {
    assert RemoveAt([10, 11, 12], 0) == [11, 12];
    assert RemoveAt([11, 12], 1) == [11];
  }

  /** A repeated index removes two different pages: [2, 2] removes pages 2 and 3. */
  lemma RepeatedIndexOverdeletes()
    ensures RemovePagesInOrder([10, 11, 12, 13], [2, 2]) == Some([10, 11])
    ensures Survivors([10, 11, 12, 13], {2}) == [10, 11, 13]
  {
    assert RemoveAt([10, 11, 12, 13], 2) == [10, 11, 13];
    assert RemoveAt([10, 11, 13], 2) == [10, 11];
  }

  /** An index past the last page makes removePage throw. */
  lemma OutOfRangeFails()
    ensures RemovePagesInOrder([10, 11], [2]) == None
  {
  }

  // ---------------------------------------------------------------------
  // addPageNumbers
  // ---------------------------------------------------------------------

  /** `${start + idx}` for each page idx. */
  function PageLabels(start: int, count: nat): (r: seq<string>)
    ensures |r| == count
  {
    seq(count, idx requires 0 <= idx < count => IntToString(start + idx))
  }

  /** Each label reads back as its page's number. */
  lemma PageLabelReadsBack(start: int, count: nat, idx: int)
    requires 0 <= idx < count
    ensures ParseInt(PageLabels(start, count)[idx]) == Some(start + idx)
  {
    ParseIntOfIntToString(start + idx, []);
    assert IntToString(start + idx) + [] == IntToString(start + idx);
  }

  /** No two pages carry the same label. */
  lemma PageLabelsDistinct(start: int, count: nat, i: int, j: int)
    requires 0 <= i < count && 0 <= j < count && i != j
    ensures PageLabels(start, count)[i] != PageLabels(start, count)[j]
  {
    if PageLabels(start, count)[i] == PageLabels(start, count)[j] {
      IntToStringInjective(start + i, start + j);
    }
  }
}
