/** Types shared by every part of the model. */
module Common {

  /** Python's `None`-or-value, used for "player not placed yet" and for search results. */
  datatype Option<T> = None | Some(value: T)

  /** A board coordinate `(row, col)`, a Python pair of ints. */
  type Cell = (int, int)

  /** Python's ordering of pairs of ints: lexicographic, row first. */
  predicate LexLess(a: Cell, b: Cell)
  {
    a.0 < b.0 || (a.0 == b.0 && a.1 < b.1)
  }

  /** Strictly increasing under `LexLess`: what `sorted` produces on distinct cells. */
  predicate StrictlyAscending(s: seq<Cell>)
  {
    forall i, j :: 0 <= i < j < |s| ==> LexLess(s[i], s[j])
  }

  /** Strictly decreasing under `LexLess`. */
  predicate StrictlyDescending(s: seq<Cell>)
  {
    forall i, j :: 0 <= i < j < |s| ==> LexLess(s[j], s[i])
  }

  function Reverse<T>(s: seq<T>): (r: seq<T>)
    ensures |r| == |s|
    ensures forall i :: 0 <= i < |s| ==> r[i] == s[|s| - 1 - i]
  {
    if s == [] then [] else Reverse(s[1..]) + [s[0]]
  }

  /**
   * Python's `sorted` on a list of distinct cells that arrives in strictly
   * descending order: the result is strictly ascending and holds the same cells.
   */
  function SortedFromDescending(s: seq<Cell>): (r: seq<Cell>)
    requires StrictlyDescending(s)
    ensures StrictlyAscending(r)
    ensures multiset(r) == multiset(s)
  {
    ReverseSameMultiset(s);
    Reverse(s)
  }

  lemma {:induction false} ReverseSameMultiset<T>(s: seq<T>)
    ensures multiset(Reverse(s)) == multiset(s)
  {
    if s != [] {
      ReverseSameMultiset(s[1..]);
      assert s == [s[0]] + s[1..];
    }
  }

  /** A sequence whose neighbours are in order is strictly ascending, `LexLess` being transitive. */
  lemma {:induction false} AscendingByNeighbours(s: seq<Cell>)
    requires forall i :: 0 <= i < |s| - 1 ==> LexLess(s[i], s[i + 1])
    ensures StrictlyAscending(s)
  {
    if |s| > 1 {
      var t := s[1..];
      assert forall i :: 0 <= i < |t| ==> t[i] == s[i + 1];
      AscendingByNeighbours(t);
      forall i, j | 0 <= i < j < |s| ensures LexLess(s[i], s[j]) {
        if i > 0 {
          assert LexLess(t[i - 1], t[j - 1]);
        } else if j > 1 {
          assert LexLess(t[0], t[j - 1]);
        }
      }
    }
  }

  /** The head of a strictly ascending sequence is below every other member. */
  lemma HeadIsLeast(a: seq<Cell>, c: Cell)
    requires StrictlyAscending(a) && c in a && c != a[0]
    ensures LexLess(a[0], c)
  {
    var k :| 0 <= k < |a| && a[k] == c;
  }

  /** Two strictly ascending sequences with the same members are the same sequence. */
  lemma {:induction false} AscendingUnique(a: seq<Cell>, b: seq<Cell>)
    requires StrictlyAscending(a) && StrictlyAscending(b)
    requires forall c :: c in a <==> c in b
    ensures a == b
  {
    assert a != [] ==> a[0] in a;
    assert b != [] ==> b[0] in b;
    if a != [] && b != [] {
      assert a[0] in a && b[0] in b;
      if a[0] != b[0] {
        HeadIsLeast(a, b[0]);
        HeadIsLeast(b, a[0]);
        assert false;
      }
      forall c ensures c in a[1..] <==> c in b[1..] {
        if c in a[1..] {
          var k :| 1 <= k < |a| && a[k] == c;
          assert LexLess(a[0], c);
          assert c in a;
          assert c in b;
          var m :| 0 <= m < |b| && b[m] == c;
          assert b[1..][m - 1] == c;
        }
        if c in b[1..] {
          var k :| 1 <= k < |b| && b[k] == c;
          assert LexLess(b[0], c);
          assert c in b;
          assert c in a;
          var m :| 0 <= m < |a| && a[m] == c;
          assert a[1..][m - 1] == c;
        }
      }
      AscendingUnique(a[1..], b[1..]);
    }
  }
}
