/** Trade recomposition, free-agent moves, the headcount signal and the
    verdict that compares the team score before and after. */
module Trade {
  import opened Roster
  import opened Ranking
  import opened Lineup
  import opened Weighting

  /** A team's rows for trading: its starters, then its bench rows that
      survived the merge with the weight table (matched rows only). */
  function RosterRows(l: Lineup): (ps: seq<Player>)
    ensures |ps| == |l.starters| + |Players(l.bench)|
  {
    StarterPlayers(l.starters) + Players(l.bench)
  }

  /** A team's tradeable rows never hold a player more often than its
      roster does; with pairwise different (name, value) keys they are
      exactly its matched rows. Rows whose key repeats in the roster may be
      missing, as `drop_duplicates(keep=False)` removes every copy. */
  lemma RosterRowsFromRoster(rows: seq<Entry>, c: SlotConfig)
    ensures multiset(RosterRows(Allocate(rows, c))) <= multiset(Players(rows))
    ensures DistinctKeys(rows) ==> multiset(RosterRows(Allocate(rows, c))) == multiset(Players(rows))
  {
    var l := Allocate(rows, c);
    var sr := AsEntries(StarterPlayers(l.starters));
    StarterRowsInRoster(rows, c);
    BenchIsRosterRows(rows, c);
    forall x ensures multiset(sr)[x] + multiset(l.bench)[x] <= multiset(rows)[x] {
      StartersAndBenchAt(sr, rows, x);
    }
    if DistinctKeys(rows) {
      StartersAndBenchPartitionRoster(rows, c);
    }
    forall p ensures multiset(RosterRows(l))[p]
      == multiset(sr)[Matched(p)] + multiset(l.bench)[Matched(p)]
    {
      EntriesMultiplicity(StarterPlayers(l.starters), Matched(p));
      PlayersMultiplicity(l.bench, p);
    }
    forall p ensures multiset(Players(rows))[p] == multiset(rows)[Matched(p)] {
      PlayersMultiplicity(rows, p);
    }
  }

  /** A row stacked under its roster either starts or is kept by the
      deduplication, never both, and never more often than the roster has it. */
  lemma StartersAndBenchAt(sr: seq<Entry>, rows: seq<Entry>, x: Entry)
    requires multiset(sr) <= multiset(rows)
    ensures multiset(sr)[x] + multiset(KeepUnique(rows, sr + rows))[x] <= multiset(rows)[x]
  {
    KeepUniqueMultiplicity(rows, sr + rows, x);
    if x in sr {
      assert x in multiset(rows);
      KeyCountPositive(sr, x);
      KeyCountPositive(rows, x);
      KeyCountAppend(sr, rows, Key(x));
    }
  }

  /** Two copies of one row with no starting slot: both copies leave the
      table, since neither key is unique. */
  lemma DuplicateRowsLeaveTable(x: Player)
    ensures RosterRows(Allocate([Matched(x), Matched(x)], SlotConfig(0, 0, 0, 0, 0, 0, 0, 0, 0))) == []
  {
    var rows := [Matched(x), Matched(x)];
    var c := SlotConfig(0, 0, 0, 0, 0, 0, 0, 0, 0);
    var st := Starters(Players(rows), c);
    StarterCount(Players(rows), c);
    assert st == [];
    assert AsEntries(StarterPlayers(st)) + rows == rows;
    var one := [Matched(x)];
    assert rows == one + one;
    KeyCountAppend(one, one, Key(Matched(x)));
    KeyCountPositive(one, Matched(x));
    KeepUniqueNone(rows, rows);
  }

  /** `[x for x in ns if x not in out]`. */
  function NamesWithout(ns: seq<string>, out: seq<string>): (r: seq<string>)
    ensures |r| <= |ns|
    ensures forall n :: n in r <==> n in ns && n !in out
  {
    if ns == [] then []
    else if ns[0] !in out then [ns[0]] + NamesWithout(ns[1..], out)
    else NamesWithout(ns[1..], out)
  }

  /** The names a team keeps: its own names not traded away, then the
      names it receives. */
  function KeptNames(mine: seq<Player>, given: seq<string>, received: seq<string>): seq<string>
  {
    NamesWithout(Names(mine), given) + received
  }

  /** A team's roster after the trade: its own rows whose names it keeps,
      then the partner's rows whose names it receives. The partner's roster
      is `PostTrade(theirs, mine, received, given)`. */
  function PostTrade(mine: seq<Player>, theirs: seq<Player>, given: seq<string>, received: seq<string>): seq<Player>
  {
    WithNames(mine, KeptNames(mine, given, received)) + WithNames(theirs, received)
  }

  /** The free-agent table, sorted by value, highest first. */
  function FreeAgentTable(pool: seq<Entry>): seq<Player>
  {
    SortDesc(Players(pool))
  }

  /** The free-agent rows picked up. */
  function FreeAgentRows(pool: seq<Entry>, adds: seq<string>): seq<Player>
  {
    WithNames(FreeAgentTable(pool), adds)
  }

  /** Free agents appended to the post-trade roster, then dropped names
      removed (from the free agents too). */
  function ApplyFreeAgents(post: seq<Player>, pool: seq<Entry>, adds: seq<string>, drops: seq<string>): seq<Player>
  {
    WithoutNames(post + FreeAgentRows(pool, adds), drops)
  }

  /** Players still to cut (positive) or to gain (negative) to keep the
      roster size: incoming minus outgoing. */
  function Imbalance(adds: seq<string>, received: seq<string>, drops: seq<string>, given: seq<string>): int
  {
    (|adds| + |received|) - (|drops| + |given|)
  }

  datatype Verdict = Even | Winning | Losing

  /** Compares the original rounded score with the new one. */
  function Judge(before: real, after: real): (v: Verdict)
    ensures v == Even <==> before == after
    ensures v == Winning <==> before < after
    ensures v == Losing <==> before > after
  {
    if before == after then Even
    else if before < after then Winning
    else Losing
  }

  datatype Outcome = Outcome(myBefore: real, theirBefore: real, myAfter: real, theirAfter: real,
                             myRoster: seq<Player>, theirRoster: seq<Player>,
                             imbalance: int, verdict: Verdict)

  /** The whole trade evaluation: value both teams, rebuild both rosters,
      re-allocate and re-score them, and judge my side. */
  function Simulate(myRows: seq<Entry>, theirRows: seq<Entry>, pool: seq<Entry>, c: SlotConfig,
                    given: seq<string>, received: seq<string>,
                    adds: seq<string>, drops: seq<string>): Outcome
  {
    var mine, theirs := Allocate(myRows, c), Allocate(theirRows, c);
    var myPost := ApplyFreeAgents(PostTrade(RosterRows(mine), RosterRows(theirs), given, received), pool, adds, drops);
    var theirPost := PostTrade(RosterRows(theirs), RosterRows(mine), received, given);
    var before, after := TeamScore(mine, c), Evaluate(AsEntries(myPost), c);
    Outcome(before, TeamScore(theirs, c), after, Evaluate(AsEntries(theirPost), c),
            myPost, theirPost, Imbalance(adds, received, drops, given), Judge(before, after))
  }

  // ---------------------------------------------------------------------
  // Who ends up where

  lemma NameOf(ps: seq<Player>, x: Player)
    requires x in ps
    ensures x.name in Names(ps)
  {
    var i :| 0 <= i < |ps| && ps[i] == x;
    assert Names(ps)[i] == x.name;
  }

  lemma NamedRow(ps: seq<Player>, n: string) returns (x: Player)
    requires n in Names(ps)
    ensures x in ps && x.name == n
  {
    var i :| 0 <= i < |Names(ps)| && Names(ps)[i] == n;
    x := ps[i];
  }

  /** A row of mine stays exactly when its name is not traded away or is
      also received; a partner's row arrives exactly when its name is
      received. */
  lemma PostTradeMembers(mine: seq<Player>, theirs: seq<Player>, given: seq<string>, received: seq<string>)
    ensures forall x :: x in PostTrade(mine, theirs, given, received) <==>
      (x in mine && (x.name !in given || x.name in received)) || (x in theirs && x.name in received)
  {
    forall x | x in mine {
      NameOf(mine, x);
    }
  }

  /** With nothing traded, each team keeps exactly its roster. */
  lemma {:induction false} NoTradeKeepsRoster(mine: seq<Player>, theirs: seq<Player>)
    ensures PostTrade(mine, theirs, [], []) == mine
  {
    var ns := Names(mine);
    assert KeptNames(mine, [], []) == NamesWithout(ns, []) + [];
    NamesWithoutNothing(ns);
    assert KeptNames(mine, [], []) == ns;
    forall x | x in mine ensures x.name in ns {
      NameOf(mine, x);
    }
    WithAllNames(mine, ns);
    WithNoNames(theirs);
  }

  lemma {:induction false} WithNoNames(ps: seq<Player>)
    ensures WithNames(ps, []) == []
  {
    if ps != [] {
      WithNoNames(ps[1..]);
    }
  }

  lemma {:induction false} NamesWithoutNothing(ns: seq<string>)
    ensures NamesWithout(ns, []) == ns
  {
    if ns != [] {
      NamesWithoutNothing(ns[1..]);
    }
  }

  lemma {:induction false} WithAllNames(ps: seq<Player>, ns: seq<string>)
    requires forall x :: x in ps ==> x.name in ns
    ensures WithNames(ps, ns) == ps
  {
    if ps != [] {
      WithAllNames(ps[1..], ns);
    }
  }

  /** After the free-agent moves my roster holds the post-trade rows and
      the picked-up free agents, minus every dropped name. */
  lemma FreeAgentMembers(post: seq<Player>, pool: seq<Entry>, adds: seq<string>, drops: seq<string>)
    ensures forall x :: x in ApplyFreeAgents(post, pool, adds, drops) <==>
      (x in post || (Matched(x) in pool && x.name in adds)) && x.name !in drops
  {
    forall x ensures x in FreeAgentTable(pool) <==> Matched(x) in pool {
      assert multiset(FreeAgentTable(pool)) == multiset(Players(pool));
      assert x in FreeAgentTable(pool) <==> x in multiset(Players(pool));
    }
  }

  /** The picked-up free agents come in the table's order: by value, highest
      first. */
  lemma FreeAgentsRanked(pool: seq<Entry>, adds: seq<string>)
    ensures Descending(FreeAgentRows(pool, adds))
  {
    FilterDescending(FreeAgentTable(pool), adds);
  }

  lemma {:induction false} FilterDescending(ps: seq<Player>, ns: seq<string>)
    requires Descending(ps)
    ensures Descending(WithNames(ps, ns))
  {
    if ps != [] {
      DescendingTail(ps);
      FilterDescending(ps[1..], ns);
      if ps[0].name in ns {
        var r := WithNames(ps[1..], ns);
        forall y | y in r ensures ps[0].value >= y.value {
          HeadIsLargest(ps, y);
        }
        DescendingCons(ps[0], r);
      }
    }
  }

  lemma DescendingTail(ps: seq<Player>)
    requires Descending(ps) && ps != []
    ensures Descending(ps[1..])
  {
    forall i, j | 0 <= i < j < |ps[1..]| ensures ps[1..][i].value >= ps[1..][j].value {
      assert ps[1..][i] == ps[i + 1] && ps[1..][j] == ps[j + 1];
    }
  }

  lemma HeadIsLargest(ps: seq<Player>, y: Player)
    requires Descending(ps) && ps != [] && y in ps[1..]
    ensures ps[0].value >= y.value
  {
    var m :| 0 <= m < |ps[1..]| && ps[1..][m] == y;
    assert ps[m + 1] == y;
  }

  lemma DescendingCons(x: Player, r: seq<Player>)
    requires Descending(r)
    requires forall y :: y in r ==> x.value >= y.value
    ensures Descending([x] + r)
  {
    var t := [x] + r;
    forall i, j | 0 <= i < j < |t| ensures t[i].value >= t[j].value {
      if i == 0 {
        assert t[j] == r[j - 1];
        assert t[j] in r;
      } else {
        assert t[i] == r[i - 1] && t[j] == r[j - 1];
      }
    }
  }

  // ---------------------------------------------------------------------
  // The headcount signal

  /** No name occurs twice. */
  predicate NoDup(ns: seq<string>)
  {
    ns == [] || (ns[0] !in ns[1..] && NoDup(ns[1..]))
  }

  /** No two rows share a name. */
  predicate DistinctNames(ps: seq<Player>)
  {
    ps == [] || (ps[0].name !in Names(ps[1..]) && DistinctNames(ps[1..]))
  }

  /** No row of `a` shares its name with a row of `b`. */
  ghost predicate Apart(a: seq<Player>, b: seq<Player>)
  {
    forall x, y :: x in a && y in b ==> x.name != y.name
  }

  lemma {:induction false} WithAndWithout(ps: seq<Player>, ns: seq<string>)
    ensures |WithNames(ps, ns)| + |WithoutNames(ps, ns)| == |ps|
  {
    if ps != [] {
      WithAndWithout(ps[1..], ns);
    }
  }

  /** Two name tests that agree on every row select the same rows. */
  lemma {:induction false} WithNamesAgree(ps: seq<Player>, a: seq<string>, b: seq<string>)
    requires forall x :: x in ps ==> (x.name in a <==> x.name in b)
    ensures WithNames(ps, a) == WithNames(ps, b)
  {
    if ps != [] {
      WithNamesAgree(ps[1..], a, b);
    }
  }

  lemma {:induction false} WithNamesIsWithout(ps: seq<Player>, a: seq<string>, b: seq<string>)
    requires forall x :: x in ps ==> (x.name in a <==> x.name !in b)
    ensures WithNames(ps, a) == WithoutNames(ps, b)
  {
    if ps != [] {
      WithNamesIsWithout(ps[1..], a, b);
    }
  }

  lemma {:induction false} NamesWithoutNoDup(ns: seq<string>, out: seq<string>)
    requires NoDup(ns)
    ensures NoDup(NamesWithout(ns, out))
  {
    if ns != [] {
      NamesWithoutNoDup(ns[1..], out);
    }
  }

  lemma {:induction false} NamesWithoutOne(ns: seq<string>, n: string)
    requires NoDup(ns) && n in ns
    ensures |NamesWithout(ns, [n])| == |ns| - 1
  {
    if ns[0] != n {
      NamesWithoutOne(ns[1..], n);
    } else {
      NamesWithoutAbsent(ns[1..], [n]);
    }
  }

  lemma {:induction false} NamesWithoutAbsent(ns: seq<string>, out: seq<string>)
    requires forall n :: n in out ==> n !in ns
    ensures NamesWithout(ns, out) == ns
  {
    if ns != [] {
      NamesWithoutAbsent(ns[1..], out);
    }
  }

  lemma NoneFromNothing(ns: seq<string>, m: seq<string>)
    requires forall n :: n in ns ==> n in m
    ensures m == [] ==> ns == []
  {
    if ns != [] {
      assert ns[0] in m;
    }
  }

  /** Among rows with distinct names, a duplicate-free list of their names
      selects exactly as many rows as it has names. */
  lemma {:induction false} WithNamesCount(ps: seq<Player>, ns: seq<string>)
    requires DistinctNames(ps) && NoDup(ns)
    requires forall n :: n in ns ==> n in Names(ps)
    ensures |WithNames(ps, ns)| == |ns|
  {
    if ps == [] {
      NoneFromNothing(ns, Names(ps));
    } else {
      var head, rest := ps[0], ps[1..];
      assert Names(ps) == [head.name] + Names(rest);
      if head.name in ns {
        var ns' := NamesWithout(ns, [head.name]);
        NamesWithoutNoDup(ns, [head.name]);
        NamesWithoutOne(ns, head.name);
        forall x | x in rest ensures x.name in ns <==> x.name in ns' {
          NameOf(rest, x);
        }
        WithNamesAgree(rest, ns, ns');
        WithNamesCount(rest, ns');
      } else {
        WithNamesCount(rest, ns);
      }
    }
  }

  lemma {:induction false} WithoutNamesCount(ps: seq<Player>, ns: seq<string>)
    requires DistinctNames(ps) && NoDup(ns)
    requires forall n :: n in ns ==> n in Names(ps)
    ensures |WithoutNames(ps, ns)| == |ps| - |ns|
  {
    WithAndWithout(ps, ns);
    WithNamesCount(ps, ns);
  }

  lemma NotNamedInPart(ps: seq<Player>, part: seq<Player>, n: string)
    requires n !in Names(ps)
    requires forall x :: x in part ==> x in ps
    ensures n !in Names(part)
  {
    if n in Names(part) {
      var x := NamedRow(part, n);
      NameOf(ps, x);
    }
  }

  lemma {:induction false} WithNamesDistinct(ps: seq<Player>, ns: seq<string>)
    requires DistinctNames(ps)
    ensures DistinctNames(WithNames(ps, ns))
  {
    if ps != [] {
      WithNamesDistinct(ps[1..], ns);
      if ps[0].name in ns {
        NotNamedInPart(ps[1..], WithNames(ps[1..], ns), ps[0].name);
        assert WithNames(ps, ns)[1..] == WithNames(ps[1..], ns);
      }
    }
  }

  lemma {:induction false} WithoutNamesDistinct(ps: seq<Player>, ns: seq<string>)
    requires DistinctNames(ps)
    ensures DistinctNames(WithoutNames(ps, ns))
  {
    if ps != [] {
      WithoutNamesDistinct(ps[1..], ns);
      if ps[0].name !in ns {
        NotNamedInPart(ps[1..], WithoutNames(ps[1..], ns), ps[0].name);
        assert WithoutNames(ps, ns)[1..] == WithoutNames(ps[1..], ns);
      }
    }
  }

  lemma {:induction false} DistinctAppend(a: seq<Player>, b: seq<Player>)
    requires DistinctNames(a) && DistinctNames(b) && Apart(a, b)
    ensures DistinctNames(a + b)
  {
    if a == [] {
      assert a + b == b;
    } else {
      assert (a + b)[1..] == a[1..] + b;
      DistinctAppend(a[1..], b);
      if a[0].name in Names(a[1..] + b) {
        var x := NamedRow(a[1..] + b, a[0].name);
        if x in a[1..] {
          NameOf(a[1..], x);
        }
      }
    }
  }

  /** If every name is distinct across my roster, the partner's roster and
      the free-agent table, nothing is traded or dropped twice, and every
      traded, received, added or dropped name is one offered for that
      choice, then the final roster is the original plus the imbalance:
      a positive imbalance is exactly the number of players still to cut. */
  lemma Headcount(mine: seq<Player>, theirs: seq<Player>, pool: seq<Entry>,
                  given: seq<string>, received: seq<string>, adds: seq<string>, drops: seq<string>)
    requires DistinctNames(mine) && DistinctNames(theirs) && DistinctNames(FreeAgentTable(pool))
    requires Apart(mine, theirs) && Apart(mine, FreeAgentTable(pool)) && Apart(theirs, FreeAgentTable(pool))
    requires NoDup(given) && NoDup(received) && NoDup(adds) && NoDup(drops)
    requires forall n :: n in given ==> n in Names(mine)
    requires forall n :: n in received ==> n in Names(theirs)
    requires forall n :: n in adds ==> n in Names(FreeAgentTable(pool))
    requires forall n :: n in drops ==> (n in Names(mine) && n !in given) || n in received
    ensures |ApplyFreeAgents(PostTrade(mine, theirs, given, received), pool, adds, drops)|
      == |mine| + Imbalance(adds, received, drops, given)
  {
    var all := PostTrade(mine, theirs, given, received) + FreeAgentRows(pool, adds);
    GatheredRows(mine, theirs, pool, given, received, adds);
    KeptIsWithoutGiven(mine, theirs, given, received);
    DropsAreNamed(mine, theirs, given, received, all, drops);
    WithoutNamesCount(all, drops);
  }

  /** Before the drops, the post-trade rows and the added free agents have
      distinct names and number my roster, minus what I give, plus what I
      receive and add. */
  lemma GatheredRows(mine: seq<Player>, theirs: seq<Player>, pool: seq<Entry>,
                     given: seq<string>, received: seq<string>, adds: seq<string>)
    requires DistinctNames(mine) && DistinctNames(theirs) && DistinctNames(FreeAgentTable(pool))
    requires Apart(mine, theirs) && Apart(mine, FreeAgentTable(pool)) && Apart(theirs, FreeAgentTable(pool))
    requires NoDup(given) && NoDup(received) && NoDup(adds)
    requires forall n :: n in given ==> n in Names(mine)
    requires forall n :: n in received ==> n in Names(theirs)
    requires forall n :: n in adds ==> n in Names(FreeAgentTable(pool))
    ensures var all := PostTrade(mine, theirs, given, received) + FreeAgentRows(pool, adds);
      DistinctNames(all) && |all| == |mine| - |given| + |received| + |adds|
  {
    var table := FreeAgentTable(pool);
    var kept := WithNames(mine, KeptNames(mine, given, received));
    var got := WithNames(theirs, received);
    var fa := FreeAgentRows(pool, adds);
    KeptIsWithoutGiven(mine, theirs, given, received);
    WithoutNamesCount(mine, given);
    WithNamesCount(theirs, received);
    WithNamesCount(table, adds);
    WithoutNamesDistinct(mine, given);
    WithNamesDistinct(theirs, received);
    WithNamesDistinct(table, adds);
    ApartParts(mine, theirs, WithoutNames(mine, given), got);
    DistinctAppend(kept, got);
    ApartParts(mine, table, kept, fa);
    ApartParts(theirs, table, got, fa);
    ApartAppend(kept, got, fa);
    DistinctAppend(kept + got, fa);
  }

  /** When no received name is one of mine, the rows of mine I keep are my
      rows minus the names traded away. */
  lemma KeptIsWithoutGiven(mine: seq<Player>, theirs: seq<Player>, given: seq<string>, received: seq<string>)
    requires Apart(mine, theirs)
    requires forall n :: n in received ==> n in Names(theirs)
    ensures WithNames(mine, KeptNames(mine, given, received)) == WithoutNames(mine, given)
  {
    forall x | x in mine
      ensures x.name in KeptNames(mine, given, received) <==> x.name !in given
    {
      NameOf(mine, x);
      if x.name in received {
        var y := NamedRow(theirs, x.name);
      }
    }
    WithNamesIsWithout(mine, KeptNames(mine, given, received), given);
  }

  lemma ApartParts(a: seq<Player>, b: seq<Player>, a': seq<Player>, b': seq<Player>)
    requires Apart(a, b)
    requires forall x :: x in a' ==> x in a
    requires forall y :: y in b' ==> y in b
    ensures Apart(a', b')
  {
  }

  lemma ApartAppend(a: seq<Player>, b: seq<Player>, c: seq<Player>)
    requires Apart(a, c) && Apart(b, c)
    ensures Apart(a + b, c)
  {
  }

  /** Every name offered for dropping names a row of the post-trade roster. */
  lemma DropsAreNamed(mine: seq<Player>, theirs: seq<Player>, given: seq<string>, received: seq<string>,
                      all: seq<Player>, drops: seq<string>)
    requires forall x :: x in mine && x.name !in given ==> x in all
    requires forall y :: y in theirs && y.name in received ==> y in all
    requires forall n :: n in given ==> n in Names(mine)
    requires forall n :: n in drops ==> (n in Names(mine) && n !in given) || n in received
    requires forall n :: n in received ==> n in Names(theirs)
    ensures forall n :: n in drops ==> n in Names(all)
  {
    forall n | n in drops ensures n in Names(all) {
      if n in received {
        var y := NamedRow(theirs, n);
        NameOf(all, y);
      } else {
        var x := NamedRow(mine, n);
        NameOf(all, x);
      }
    }
  }

  // ---------------------------------------------------------------------
  // The verdict

  /** The verdict, read on rounded scores, never contradicts the unrounded
      ones: winning means the raw score went up, losing that it went down,
      and an unchanged raw score is an even trade. */
  lemma VerdictSound(before: real, after: real)
    ensures Judge(Round2(before), Round2(after)) == Winning ==> before < after
    ensures Judge(Round2(before), Round2(after)) == Losing ==> after < before
    ensures before == after ==> Judge(Round2(before), Round2(after)) == Even
  {
    if after <= before {
      Round2Monotone(after, before);
    }
    if before <= after {
      Round2Monotone(before, after);
    }
  }

  /** The simulated verdict judges my roster's raw score before and after. */
  lemma SimulateVerdict(myRows: seq<Entry>, theirRows: seq<Entry>, pool: seq<Entry>, c: SlotConfig,
                        given: seq<string>, received: seq<string>, adds: seq<string>, drops: seq<string>)
    ensures var o := Simulate(myRows, theirRows, pool, c, given, received, adds, drops);
      var before := RawScore(Allocate(myRows, c), c);
      var after := RawScore(Allocate(AsEntries(o.myRoster), c), c);
      (o.verdict == Winning ==> before < after) && (o.verdict == Losing ==> after < before)
      && (before == after ==> o.verdict == Even)
      && o.imbalance == Imbalance(adds, received, drops, given)
  {
    var o := Simulate(myRows, theirRows, pool, c, given, received, adds, drops);
    VerdictSound(RawScore(Allocate(myRows, c), c), RawScore(Allocate(AsEntries(o.myRoster), c), c));
  }
}
