/**
 * The list edits shared by the slide deck and the quiz: removing the element under the
 * cursor (`list.filter((_, index) => index !== current)`), exchanging two neighbours
 * (`[a[i], a[j]] = [a[j], a[i]]` on a copy), and where the cursor goes after a removal.
 */
module OrderedList {

  /** The list without its element at `i`; the others keep their order. */
  function RemoveAt<T>(s: seq<T>, i: nat): (r: seq<T>)
    requires i < |s|
    ensures |r| == |s| - 1
    ensures forall k :: 0 <= k < i ==> r[k] == s[k]
    ensures forall k :: i <= k < |r| ==> r[k] == s[k + 1]
  {
    s[..i] + s[i + 1..]
  }

  /** Filtering by index, element by element: the reference RemoveAt is checked against. */
  function FilterIndex<T>(s: seq<T>, i: nat): seq<T> {
    if s == [] then [] else (if i == 0 then [] else [s[0]]) + FilterIndex(s[1..], if i == 0 then |s| else i - 1)
  }

  /** RemoveAt is the index filter of the source. */
  lemma {:induction false} RemoveAtFilters<T>(s: seq<T>, i: nat)
    requires i < |s|
    ensures RemoveAt(s, i) == FilterIndex(s, i)
  {
    if i == 0 {
      FilterKeepsAll(s[1..], |s|);
    } else {
      RemoveAtFilters(s[1..], i - 1);
      assert RemoveAt(s, i) == [s[0]] + RemoveAt(s[1..], i - 1);
    }
  }

  /** An index filter for an index past the end keeps everything. */
  lemma {:induction false} FilterKeepsAll<T>(s: seq<T>, i: nat)
    requires i >= |s|
    ensures FilterIndex(s, i) == s
  {
    if s != [] {
      FilterKeepsAll(s[1..], i - 1);
      assert [s[0]] + s[1..] == s;
    }
  }

  /** Removing an element takes exactly that one out of the multiset. */
  lemma RemoveAtMultiset<T>(s: seq<T>, i: nat)
    requires i < |s|
    ensures multiset(RemoveAt(s, i)) == multiset(s) - multiset{s[i]}
  {
    assert s == s[..i] + [s[i]] + s[i + 1..];
  }

  /** The list with its elements at `i` and `j` exchanged. */
  function Swap<T>(s: seq<T>, i: nat, j: nat): (r: seq<T>)
    requires i < |s| && j < |s|
    ensures |r| == |s| && r[i] == s[j] && r[j] == s[i]
    ensures forall k :: 0 <= k < |s| && k != i && k != j ==> r[k] == s[k]
  {
    s[i := s[j]][j := s[i]]
  }

  /** An exchange keeps every element, as often as before. */
  lemma SwapMultiset<T>(s: seq<T>, i: nat, j: nat)
    requires i < |s| && j < |s|
    ensures multiset(Swap(s, i, j)) == multiset(s)
  {
    var t := s[i := s[j]];
    assert multiset(t) == multiset(s) - multiset{s[i]} + multiset{s[j]};
    assert multiset(t[j := s[i]]) == multiset(t) - multiset{t[j]} + multiset{s[i]};
  }

  /** Exchanging the same two places twice restores the list: a move up undoes a move down. */
  lemma SwapUndo<T>(s: seq<T>, i: nat, j: nat)
    requires i < |s| && j < |s|
    ensures Swap(Swap(s, i, j), i, j) == s
  {
  }

  /** The cursor after a removal: `if (current >= newLength) current = newLength - 1`. */
  function CursorAfterRemove(current: nat, newLength: nat): (r: nat)
    requires newLength >= 1
    ensures r < newLength || r == current
    ensures current < newLength + 1 ==> r < newLength
    ensures r == current || r == newLength - 1
  {
    if current >= newLength then newLength - 1 else current
  }

  /** `list.filter(keep)`: the elements that pass, in their order. Every element of the
      result passes, and the result is never longer than the list. */
  function Filter<T>(s: seq<T>, keep: T -> bool): (r: seq<T>)
    ensures |r| <= |s|
    ensures forall i :: 0 <= i < |r| ==> keep(r[i])
  {
    if s == [] then [] else Kept(s[0], keep) + Filter(s[1..], keep)
  }

  function Kept<T>(x: T, keep: T -> bool): seq<T> {
    if keep(x) then [x] else []
  }

  /** The filter keeps exactly the elements that pass. */
  lemma {:induction false} FilterMembers<T>(s: seq<T>, keep: T -> bool)
    ensures |Filter(s, keep)| <= |s|
    ensures forall x :: x in Filter(s, keep) <==> x in s && keep(x)
  {
    if s != [] {
      FilterMembers(s[1..], keep);
      assert forall x :: x in s <==> x == s[0] || x in s[1..];
    }
  }

  /** Filtering keeps order: filtering two stretches one after the other is filtering their
      concatenation. */
  lemma {:induction false} FilterConcat<T>(a: seq<T>, b: seq<T>, keep: T -> bool)
    ensures Filter(a + b, keep) == Filter(a, keep) + Filter(b, keep)
  {
    if a == [] {
      assert a + b == b;
    } else {
      var ab := a + b;
      calc {
        Filter(ab, keep);
        Kept(ab[0], keep) + Filter(ab[1..], keep);
        { assert ab[0] == a[0] && ab[1..] == a[1..] + b; }
        Kept(a[0], keep) + Filter(a[1..] + b, keep);
        { FilterConcat(a[1..], b, keep); }
        Kept(a[0], keep) + (Filter(a[1..], keep) + Filter(b, keep));
        (Kept(a[0], keep) + Filter(a[1..], keep)) + Filter(b, keep);
      }
    }
  }

  /** A filter every element passes changes nothing. */
  lemma {:induction false} FilterKeepsPassing<T>(s: seq<T>, keep: T -> bool)
    requires forall k :: 0 <= k < |s| ==> keep(s[k])
    ensures Filter(s, keep) == s
  {
    if s != [] {
      FilterKeepsPassing(s[1..], keep);
      assert [s[0]] + s[1..] == s;
    }
  }

  /** A filter that one element fails and every other passes removes just that one. */
  lemma {:induction false} FilterDropsOne<T>(s: seq<T>, i: nat, keep: T -> bool)
    requires i < |s| && !keep(s[i])
    requires forall k :: 0 <= k < |s| && k != i ==> keep(s[k])
    ensures Filter(s, keep) == RemoveAt(s, i)
  {
    var pre, post := s[..i], s[i + 1..];
    assert s == pre + ([s[i]] + post);
    assert Filter(pre, keep) == pre by {
      assert forall k :: 0 <= k < |pre| ==> pre[k] == s[k];
      FilterKeepsPassing(pre, keep);
    }
    assert Filter(post, keep) == post by {
      assert forall k :: 0 <= k < |post| ==> post[k] == s[i + 1 + k];
      FilterKeepsPassing(post, keep);
    }
    assert Filter([s[i]] + post, keep) == Filter(post, keep) by {
      assert ([s[i]] + post)[1..] == post;
      assert Kept(s[i], keep) == [];
    }
    FilterConcat(pre, [s[i]] + post, keep);
  }

  /** A filter that fails at most one element shortens the list by at most one. */
  lemma {:induction false} FilterLosesAtMostOne<T>(s: seq<T>, keep: T -> bool)
    requires forall i, j :: 0 <= i < |s| && 0 <= j < |s| && i != j && !keep(s[i]) ==> keep(s[j])
    ensures |Filter(s, keep)| >= |s| - 1
  {
    if s != [] {
      if keep(s[0]) {
        assert forall i :: 0 <= i < |s[1..]| ==> s[1..][i] == s[i + 1];
        FilterLosesAtMostOne(s[1..], keep);
      } else {
        assert forall i :: 0 <= i < |s[1..]| ==> keep(s[1..][i]) by {
          forall i | 0 <= i < |s[1..]| ensures keep(s[1..][i]) {
            assert s[1..][i] == s[i + 1];
          }
        }
        FilterKeepsPassing(s[1..], keep);
      }
    }
  }
}
