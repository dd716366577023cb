/** Ranking players by value, highest first
    (`sort_values(by = scoring, ascending = False)`). */
module Ranking {
  import opened Roster

  /** Values never increase along the sequence. */
  ghost predicate Descending(s: seq<Player>)
  {
    forall i, j :: 0 <= i < j < |s| ==> s[i].value >= s[j].value
  }

  /** Inserts `x` before the first player worth at most `x`, so `x` goes
      ahead of players of equal value. */
  function Insert(x: Player, t: seq<Player>): (r: seq<Player>)
    ensures |r| == |t| + 1
    ensures multiset(r) == multiset(t) + multiset{x}
  {
    if t == [] || x.value >= t[0].value then [x] + t
    else
      assert t == [t[0]] + t[1..];
      [t[0]] + Insert(x, t[1..])
  }

  lemma {:induction false} InsertDescending(x: Player, t: seq<Player>)
    requires Descending(t)
    ensures Descending(Insert(x, t))
  {
    if t == [] || x.value >= t[0].value {
      var r := [x] + t;
      forall i, j | 0 <= i < j < |r| ensures r[i].value >= r[j].value {
        if i > 0 {
          assert r[i] == t[i - 1] && r[j] == t[j - 1];
        }
      }
    } else {
      var rest := Insert(x, t[1..]);
      InsertDescending(x, t[1..]);
      var r := [t[0]] + rest;
      assert r == Insert(x, t);
      forall i, j | 0 <= i < j < |r| ensures r[i].value >= r[j].value {
        if i == 0 {
          var y := rest[j - 1];
          assert y in multiset(rest);
          assert y == x || y in multiset(t[1..]);
          if y != x {
            var m :| 0 <= m < |t[1..]| && t[1..][m] == y;
            assert t[m + 1] == y;
          }
        } else {
          assert r[i] == rest[i - 1] && r[j] == rest[j - 1];
        }
      }
    }
  }

  /** A stable descending sort: the model's choice where the source's sort
      leaves the order of equal values unspecified. */
  function SortDesc(s: seq<Player>): (r: seq<Player>)
    ensures |r| == |s|
    ensures multiset(r) == multiset(s)
    ensures Descending(r)
  {
    if s == [] then []
    else
      assert s == [s[0]] + s[1..];
      InsertDescending(s[0], SortDesc(s[1..]));
      Insert(s[0], SortDesc(s[1..]))
  }

  /** In a descending sequence every player before a cut point is worth at
      least as much as every player after it. */
  lemma CutIsRanked(s: seq<Player>, k: nat)
    requires Descending(s)
    requires k <= |s|
    ensures forall x, y :: x in s[..k] && y in s[k..] ==> x.value >= y.value
  {
    forall x, y | x in s[..k] && y in s[k..]
      ensures x.value >= y.value
    {
      var i :| 0 <= i < k && s[i] == x;
      var j :| k <= j < |s| && s[j] == y;
    }
  }
}
