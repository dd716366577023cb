/** Roster data model: positions, valued players, roster rows and the
    filters and sums that the lineup and scoring code is built from. */
module Roster {

  datatype Option<T> = None | Some(value: T)

  /** The six positions of the ranking table's "Pos" column. */
  datatype Pos = QB | RB | WR | TE | K | DST

  /** One valued player: canonical name, position and the points value of
      the active scoring format. */
  datatype Player = Player(name: string, pos: Pos, value: real)

  /** A row of a valued roster. A roster name whose fuzzy match was rejected
      survives the left merge with the ranking table as a row whose name,
      position and value are all missing: `Unmatched`. */
  datatype Entry = Matched(player: Player) | Unmatched

  /** The matched players of a roster, in roster order. */
  function Players(rows: seq<Entry>): (ps: seq<Player>)
    ensures |ps| <= |rows|
    ensures forall p :: p in ps <==> Matched(p) in rows
  {
    if rows == [] then []
    else match rows[0]
      case Matched(p) => [p] + Players(rows[1..])
      case Unmatched => Players(rows[1..])
  }

  /** Players as roster rows. */
  function AsEntries(ps: seq<Player>): (rows: seq<Entry>)
    ensures |rows| == |ps|
    ensures forall i :: 0 <= i < |ps| ==> rows[i] == Matched(ps[i])
  {
    seq(|ps|, i requires 0 <= i < |ps| => Matched(ps[i]))
  }

  /** The players at one position, in their original order
      (`df[df['Pos'] == p]`). */
  function OfPos(ps: seq<Player>, p: Pos): (r: seq<Player>)
    ensures |r| <= |ps|
  {
    if ps == [] then []
    else if ps[0].pos == p then [ps[0]] + OfPos(ps[1..], p)
    else OfPos(ps[1..], p)
  }

  /** The players at `p` are the roster's players whose position is `p`. */
  lemma {:induction false} OfPosMembers(ps: seq<Player>, p: Pos)
    ensures forall x :: x in OfPos(ps, p) <==> x in ps && x.pos == p
  {
    if ps != [] {
      OfPosMembers(ps[1..], p);
      assert ps == [ps[0]] + ps[1..];
    }
  }

  /** A player's multiplicity at position `p` is its roster multiplicity
      when it plays `p`, and zero otherwise. */
  lemma {:induction false} OfPosMultiplicity(ps: seq<Player>, p: Pos, x: Player)
    ensures multiset(OfPos(ps, p))[x] == if x.pos == p then multiset(ps)[x] else 0
  {
    if ps != [] {
      OfPosMultiplicity(ps[1..], p, x);
      assert multiset(ps) == multiset{ps[0]} + multiset(ps[1..]) by {
        assert ps == [ps[0]] + ps[1..];
      }
      if ps[0].pos == p {
        assert OfPos(ps, p) == [ps[0]] + OfPos(ps[1..], p);
        assert multiset(OfPos(ps, p)) == multiset{ps[0]} + multiset(OfPos(ps[1..], p));
      } else {
        assert OfPos(ps, p) == OfPos(ps[1..], p);
      }
    }
  }

  /** Sum of the values of a sequence of players (`df[scoring].sum()`). */
  function SumValues(ps: seq<Player>): real
  {
    if ps == [] then 0.0 else ps[0].value + SumValues(ps[1..])
  }

  /** The names of a sequence of players (`[*df['Player Name']]`). */
  function Names(ps: seq<Player>): (ns: seq<string>)
    ensures |ns| == |ps|
    ensures forall i :: 0 <= i < |ps| ==> ns[i] == ps[i].name
  {
    seq(|ps|, i requires 0 <= i < |ps| => ps[i].name)
  }

  /** The rows whose name is in `names` (`df[df['Player Name'].isin(names)]`). */
  function WithNames(ps: seq<Player>, names: seq<string>): (r: seq<Player>)
    ensures |r| <= |ps|
    ensures forall x :: x in r <==> x in ps && x.name in names
  {
    if ps == [] then []
    else if ps[0].name in names then [ps[0]] + WithNames(ps[1..], names)
    else WithNames(ps[1..], names)
  }

  /** The rows whose name is not in `names` (`df[~df['Player Name'].isin(names)]`). */
  function WithoutNames(ps: seq<Player>, names: seq<string>): (r: seq<Player>)
    ensures |r| <= |ps|
    ensures forall x :: x in r <==> x in ps && x.name !in names
  {
    if ps == [] then []
    else if ps[0].name !in names then [ps[0]] + WithoutNames(ps[1..], names)
    else WithoutNames(ps[1..], names)
  }

  function Min(a: nat, b: nat): nat { if a <= b then a else b }

  /** Positional slice `s[0:n]` as pandas and Python clip it. */
  function Take<T>(s: seq<T>, n: nat): seq<T>
  {
    s[..Min(n, |s|)]
  }

  /** Positional slice `s[n:]` as pandas and Python clip it. */
  function Drop<T>(s: seq<T>, n: nat): seq<T>
  {
    s[Min(n, |s|)..]
  }

  lemma TakeDrop<T>(s: seq<T>, n: nat)
    ensures Take(s, n) + Drop(s, n) == s
    ensures multiset(Take(s, n)) + multiset(Drop(s, n)) == multiset(s)
  {
    assert Take(s, n) + Drop(s, n) == s;
  }

  /** The roster splits by position: every player sits at exactly one of
      the six positions. */
  lemma {:induction false} SplitByPos(ps: seq<Player>)
    ensures multiset(ps) == multiset(OfPos(ps, QB)) + multiset(OfPos(ps, RB))
      + multiset(OfPos(ps, WR)) + multiset(OfPos(ps, TE))
      + multiset(OfPos(ps, K)) + multiset(OfPos(ps, DST))
  {
    var rhs := multiset(OfPos(ps, QB)) + multiset(OfPos(ps, RB))
      + multiset(OfPos(ps, WR)) + multiset(OfPos(ps, TE))
      + multiset(OfPos(ps, K)) + multiset(OfPos(ps, DST));
    forall x | true
      ensures multiset(ps)[x] == rhs[x]
    {
      OfPosMultiplicity(ps, QB, x);
      OfPosMultiplicity(ps, RB, x);
      OfPosMultiplicity(ps, WR, x);
      OfPosMultiplicity(ps, TE, x);
      OfPosMultiplicity(ps, K, x);
      OfPosMultiplicity(ps, DST, x);
    }
    assert multiset(ps) == rhs;
  }

  lemma {:induction false} SumValuesAppend(a: seq<Player>, b: seq<Player>)
    ensures SumValues(a + b) == SumValues(a) + SumValues(b)
  {
    if a == [] {
      assert a + b == b;
    } else {
      assert (a + b)[1..] == a[1..] + b;
      SumValuesAppend(a[1..], b);
    }
  }

  lemma {:induction false} PlayersAppend(a: seq<Entry>, b: seq<Entry>)
    ensures Players(a + b) == Players(a) + Players(b)
  {
    if a == [] {
      assert a + b == b;
    } else {
      assert (a + b)[1..] == a[1..] + b;
      PlayersAppend(a[1..], b);
    }
  }

  lemma {:induction false} PlayersOfEntries(ps: seq<Player>)
    ensures Players(AsEntries(ps)) == ps
  {
    if ps != [] {
      assert AsEntries(ps)[1..] == AsEntries(ps[1..]);
      PlayersOfEntries(ps[1..]);
    }
  }

  /** A player's multiplicity among the rows equals its multiplicity among
      the matched players. */
  lemma {:induction false} PlayersMultiplicity(rows: seq<Entry>, p: Player)
    ensures multiset(Players(rows))[p] == multiset(rows)[Matched(p)]
  {
    if rows != [] {
      PlayersMultiplicity(rows[1..], p);
      assert rows == [rows[0]] + rows[1..];
    }
  }

  lemma {:induction false} EntriesMultiplicity(ps: seq<Player>, e: Entry)
    ensures multiset(AsEntries(ps))[e] == if e.Matched? then multiset(ps)[e.player] else 0
  {
    if ps != [] {
      EntriesMultiplicity(ps[1..], e);
      var rest := AsEntries(ps[1..]);
      assert AsEntries(ps) == [Matched(ps[0])] + rest;
      assert multiset(AsEntries(ps)) == multiset{Matched(ps[0])} + multiset(rest);
      assert ps == [ps[0]] + ps[1..];
      assert multiset(ps) == multiset{ps[0]} + multiset(ps[1..]);
    }
  }

  /** Players contained in a roster's matched players are, as rows,
      contained in the roster. */
  lemma EntriesIncluded(ps: seq<Player>, rows: seq<Entry>)
    requires multiset(ps) <= multiset(Players(rows))
    ensures multiset(AsEntries(ps)) <= multiset(rows)
  {
    forall e | true
      ensures multiset(AsEntries(ps))[e] <= multiset(rows)[e]
    {
      EntriesMultiplicity(ps, e);
      if e.Matched? {
        PlayersMultiplicity(rows, e.player);
      }
    }
  }
}
