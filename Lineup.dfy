/** The lineup allocator: fixed-position starters, FLEX and SuperFlex
    starters, and the bench left by `drop_duplicates(keep=False)`. */
module Lineup {
  import opened Roster
  import opened Ranking

  /** The roster format: starting slots per kind, plus bench spots. */
  datatype SlotConfig = SlotConfig(qb: nat, rb: nat, wr: nat, te: nat, flex: nat,
                                   superflex: nat, k: nat, dst: nat, bench: nat)

  /** The "New Pos" label a starter carries. */
  datatype Slot = Fixed(pos: Pos) | Flex | SuperFlex

  datatype Starter = Starter(player: Player, slot: Slot)

  /** The outcome of allocation: starters in lineup order and the bench. */
  datatype Lineup = Lineup(starters: seq<Starter>, bench: seq<Entry>)

  /** Starting slots reserved for one position. */
  function FixedSlots(c: SlotConfig, p: Pos): nat
  {
    match p
    case QB => c.qb
    case RB => c.rb
    case WR => c.wr
    case TE => c.te
    case K => c.k
    case DST => c.dst
  }

  /** Which positions may fill which slot: a fixed slot takes its own
      position, FLEX takes RB, WR or TE, SuperFlex also takes QB. */
  predicate Eligible(s: Slot, p: Pos)
  {
    match s
    case Fixed(q) => p == q
    case Flex => p == RB || p == WR || p == TE
    case SuperFlex => p == QB || p == RB || p == WR || p == TE
  }

  /** The players at a position, best first. */
  function Ranked(ps: seq<Player>, p: Pos): seq<Player>
  {
    SortDesc(OfPos(ps, p))
  }

  /** `df[df['Pos'] == p].sort_values(...)[0:s_p]` */
  function FixedStarters(ps: seq<Player>, c: SlotConfig, p: Pos): seq<Player>
  {
    Take(Ranked(ps, p), FixedSlots(c, p))
  }

  /** `df[df['Pos'] == p].sort_values(...)[s_p:count_p]` */
  function Leftover(ps: seq<Player>, c: SlotConfig, p: Pos): seq<Player>
  {
    Drop(Ranked(ps, p), FixedSlots(c, p))
  }

  function FlexPool(ps: seq<Player>, c: SlotConfig): seq<Player>
  {
    Leftover(ps, c, RB) + Leftover(ps, c, WR) + Leftover(ps, c, TE)
  }

  /** The merged pool re-sorted and cut to `s_flex`. */
  function FlexStarters(ps: seq<Player>, c: SlotConfig): seq<Player>
  {
    Take(SortDesc(FlexPool(ps, c)), c.flex)
  }

  /** Leftover QBs followed by `starting_flex[s_flex:]`, not re-sorted. */
  function SuperFlexPool(ps: seq<Player>, c: SlotConfig): seq<Player>
  {
    Leftover(ps, c, QB) + Drop(FlexStarters(ps, c), c.flex)
  }

  function SuperFlexStarters(ps: seq<Player>, c: SlotConfig): seq<Player>
  {
    Take(SuperFlexPool(ps, c), c.superflex)
  }

  /** Overwrites the "New Pos" column of every row with `s`. */
  function Label(ps: seq<Player>, s: Slot): (r: seq<Starter>)
    ensures |r| == |ps|
    ensures forall i :: 0 <= i < |ps| ==> r[i] == Starter(ps[i], s)
  {
    seq(|ps|, i requires 0 <= i < |ps| => Starter(ps[i], s))
  }

  /** `final_starters`: QB, RB, WR, TE, FLEX, SuperFlex and D/ST starters
      in that order. The kicker starters are computed by the source but
      not part of this concatenation. */
  function Starters(ps: seq<Player>, c: SlotConfig): seq<Starter>
  {
    Label(FixedStarters(ps, c, QB), Fixed(QB))
    + Label(FixedStarters(ps, c, RB), Fixed(RB))
    + Label(FixedStarters(ps, c, WR), Fixed(WR))
    + Label(FixedStarters(ps, c, TE), Fixed(TE))
    + Label(FlexStarters(ps, c), Flex)
    + Label(SuperFlexStarters(ps, c), SuperFlex)
    + Label(FixedStarters(ps, c, DST), Fixed(DST))
  }

  function StarterPlayers(st: seq<Starter>): (ps: seq<Player>)
    ensures |ps| == |st|
    ensures forall i :: 0 <= i < |st| ==> ps[i] == st[i].player
  {
    seq(|st|, i requires 0 <= i < |st| => st[i].player)
  }

  /** The `["Player Name", scoring]` key of a row; the missing name and
      value of an unmatched row compare equal to each other. */
  function Key(e: Entry): Option<(string, real)>
  {
    match e
    case Matched(p) => Some((p.name, p.value))
    case Unmatched => None
  }

  function KeyCount(rows: seq<Entry>, key: Option<(string, real)>): nat
  {
    if rows == [] then 0
    else (if Key(rows[0]) == key then 1 else 0) + KeyCount(rows[1..], key)
  }

  /** The rows of `part` whose key occurs exactly once in `whole`. */
  function KeepUnique(part: seq<Entry>, whole: seq<Entry>): (r: seq<Entry>)
    ensures |r| <= |part|
    ensures forall e :: e in r <==> e in part && KeyCount(whole, Key(e)) == 1
  {
    if part == [] then []
    else if KeyCount(whole, Key(part[0])) == 1 then [part[0]] + KeepUnique(part[1..], whole)
    else KeepUnique(part[1..], whole)
  }

  /** `drop_duplicates(subset = ["Player Name", scoring], keep=False)` */
  function DropDuplicates(rows: seq<Entry>): seq<Entry>
  {
    KeepUnique(rows, rows)
  }

  /** `bench_df`: deduplicate the starters stacked on the whole roster. */
  function Bench(starters: seq<Starter>, rows: seq<Entry>): seq<Entry>
  {
    DropDuplicates(AsEntries(StarterPlayers(starters)) + rows)
  }

  /** Starters and bench of a valued roster. */
  function Allocate(rows: seq<Entry>, c: SlotConfig): Lineup
  {
    var st := Starters(Players(rows), c);
    Lineup(st, Bench(st, rows))
  }

  // ---------------------------------------------------------------------
  // Fixed starters

  lemma LabelMembers(ps: seq<Player>, s: Slot)
    ensures forall st :: st in Label(ps, s) <==> st.slot == s && st.player in ps
  {
    forall st: Starter | st.slot == s && st.player in ps ensures st in Label(ps, s) {
      var i :| 0 <= i < |ps| && ps[i] == st.player;
      assert Label(ps, s)[i] == st;
    }
  }

  lemma LabelPlayers(ps: seq<Player>, s: Slot)
    ensures StarterPlayers(Label(ps, s)) == ps
  {
  }

  lemma StarterPlayersAppend(a: seq<Starter>, b: seq<Starter>)
    ensures StarterPlayers(a + b) == StarterPlayers(a) + StarterPlayers(b)
  {
  }

  /** Fixed starters and leftovers at `p` are players of `p`. */
  lemma FixedStartersOfPos(ps: seq<Player>, c: SlotConfig, p: Pos)
    ensures forall x :: x in FixedStarters(ps, c, p) ==> x in ps && x.pos == p
    ensures forall x :: x in Leftover(ps, c, p) ==> x in ps && x.pos == p
  {
    var r := Ranked(ps, p);
    OfPosMembers(ps, p);
    forall x | x in FixedStarters(ps, c, p) ensures x in ps && x.pos == p {
      assert x in r;
      assert x in multiset(r);
    }
    forall x | x in Leftover(ps, c, p) ensures x in ps && x.pos == p {
      assert x in r;
      assert x in multiset(r);
    }
  }

  /** Together the fixed starters and the leftovers at `p` are exactly the
      players of `p`; there are min(s_p, count_p) fixed starters. */
  lemma FixedStartersSplit(ps: seq<Player>, c: SlotConfig, p: Pos)
    ensures |FixedStarters(ps, c, p)| == Min(FixedSlots(c, p), |OfPos(ps, p)|)
    ensures |Leftover(ps, c, p)| == |OfPos(ps, p)| - Min(FixedSlots(c, p), |OfPos(ps, p)|)
    ensures multiset(FixedStarters(ps, c, p)) + multiset(Leftover(ps, c, p)) == multiset(OfPos(ps, p))
  {
    TakeDrop(Ranked(ps, p), FixedSlots(c, p));
  }

  /** No fixed starter at `p` is worth less than a player of `p` left out. */
  lemma FixedStartersRanked(ps: seq<Player>, c: SlotConfig, p: Pos)
    ensures forall x, y :: x in FixedStarters(ps, c, p) && y in Leftover(ps, c, p) ==> x.value >= y.value
  {
    var r := Ranked(ps, p);
    CutIsRanked(r, Min(FixedSlots(c, p), |r|));
  }

  /** The fixed starters at `p` are min(s_p, count_p) players of `p`, none
      worth less than any player of `p` left out; together with the
      leftovers they are exactly the players of `p`. */
  lemma FixedStartersAreTop(ps: seq<Player>, c: SlotConfig, p: Pos)
    ensures |FixedStarters(ps, c, p)| == Min(FixedSlots(c, p), |OfPos(ps, p)|)
    ensures forall x :: x in FixedStarters(ps, c, p) ==> x in ps && x.pos == p
    ensures forall x, y :: x in FixedStarters(ps, c, p) && y in Leftover(ps, c, p) ==> x.value >= y.value
    ensures multiset(FixedStarters(ps, c, p)) + multiset(Leftover(ps, c, p)) == multiset(OfPos(ps, p))
  {
    FixedStartersSplit(ps, c, p);
    FixedStartersOfPos(ps, c, p);
    FixedStartersRanked(ps, c, p);
  }

  // ---------------------------------------------------------------------
  // FLEX and SuperFlex

  lemma FlexStartersFromPool(ps: seq<Player>, c: SlotConfig)
    ensures multiset(FlexStarters(ps, c)) <= multiset(FlexPool(ps, c))
  {
    TakeDrop(SortDesc(FlexPool(ps, c)), c.flex);
  }

  /** FLEX starters are RB, WR or TE players beyond their position's fixed
      starters. */
  lemma FlexStartersOfPos(ps: seq<Player>, c: SlotConfig)
    ensures forall x :: x in FlexStarters(ps, c) ==>
      x in Leftover(ps, c, RB) || x in Leftover(ps, c, WR) || x in Leftover(ps, c, TE)
    ensures forall x :: x in FlexStarters(ps, c) ==> x in ps && (x.pos == RB || x.pos == WR || x.pos == TE)
  {
    FlexStartersFromPool(ps, c);
    FixedStartersOfPos(ps, c, RB);
    FixedStartersOfPos(ps, c, WR);
    FixedStartersOfPos(ps, c, TE);
    forall x | x in FlexStarters(ps, c)
      ensures x in Leftover(ps, c, RB) || x in Leftover(ps, c, WR) || x in Leftover(ps, c, TE)
    {
      assert x in multiset(FlexStarters(ps, c));
      assert x in multiset(FlexPool(ps, c));
    }
  }

  /** FLEX starters are the top min(s_flex, pool size) of the pool of
      leftover RB, WR and TE players, all labelled FLEX. */
  lemma FlexStartersAreTopOfPool(ps: seq<Player>, c: SlotConfig)
    ensures |FlexStarters(ps, c)| == Min(c.flex, |FlexPool(ps, c)|)
    ensures multiset(FlexStarters(ps, c)) <= multiset(FlexPool(ps, c))
    ensures forall x :: x in FlexStarters(ps, c) ==>
      x in Leftover(ps, c, RB) || x in Leftover(ps, c, WR) || x in Leftover(ps, c, TE)
    ensures forall x :: x in FlexStarters(ps, c) ==> x in ps && (x.pos == RB || x.pos == WR || x.pos == TE)
    ensures forall x, y ::
      x in FlexStarters(ps, c) && y in Drop(SortDesc(FlexPool(ps, c)), c.flex) ==> x.value >= y.value
    ensures forall st :: st in Label(FlexStarters(ps, c), Flex) ==> st.slot == Flex
  {
    var pool := SortDesc(FlexPool(ps, c));
    CutIsRanked(pool, Min(c.flex, |pool|));
    FlexStartersFromPool(ps, c);
    FlexStartersOfPos(ps, c);
    LabelMembers(FlexStarters(ps, c), Flex);
  }

  /** `starting_flex` already has at most `s_flex` rows, so its tail
      `starting_flex[s_flex:]` is empty. */
  lemma FlexRemainderEmpty(ps: seq<Player>, c: SlotConfig)
    ensures Drop(FlexStarters(ps, c), c.flex) == []
  {
  }

  /** SuperFlex starters are the first min(s_sflex, count_QB - s_QB)
      leftover QBs in value order, so only QBs ever fill SuperFlex. */
  lemma SuperFlexTakesLeftoverQBs(ps: seq<Player>, c: SlotConfig)
    ensures SuperFlexStarters(ps, c) == Take(Leftover(ps, c, QB), c.superflex)
    ensures |SuperFlexStarters(ps, c)|
      == Min(c.superflex, |OfPos(ps, QB)| - Min(c.qb, |OfPos(ps, QB)|))
    ensures forall x :: x in SuperFlexStarters(ps, c) ==> x in ps && x.pos == QB
    ensures forall x, y ::
      x in FixedStarters(ps, c, QB) && y in SuperFlexStarters(ps, c) ==> x.value >= y.value
  {
    FlexRemainderEmpty(ps, c);
    assert SuperFlexPool(ps, c) == Leftover(ps, c, QB);
    FixedStartersSplit(ps, c, QB);
    FixedStartersOfPos(ps, c, QB);
    FixedStartersRanked(ps, c, QB);
  }

  // ---------------------------------------------------------------------
  // The whole lineup

  /** A starter comes from one of the seven groups of the concatenation. */
  lemma StarterGroups(ps: seq<Player>, c: SlotConfig, st: Starter)
    requires st in Starters(ps, c)
    ensures || (st.slot == Fixed(QB) && st.player in FixedStarters(ps, c, QB))
            || (st.slot == Fixed(RB) && st.player in FixedStarters(ps, c, RB))
            || (st.slot == Fixed(WR) && st.player in FixedStarters(ps, c, WR))
            || (st.slot == Fixed(TE) && st.player in FixedStarters(ps, c, TE))
            || (st.slot == Flex && st.player in FlexStarters(ps, c))
            || (st.slot == SuperFlex && st.player in SuperFlexStarters(ps, c))
            || (st.slot == Fixed(DST) && st.player in FixedStarters(ps, c, DST))
  {
    LabelMembers(FixedStarters(ps, c, QB), Fixed(QB));
    LabelMembers(FixedStarters(ps, c, RB), Fixed(RB));
    LabelMembers(FixedStarters(ps, c, WR), Fixed(WR));
    LabelMembers(FixedStarters(ps, c, TE), Fixed(TE));
    LabelMembers(FlexStarters(ps, c), Flex);
    LabelMembers(SuperFlexStarters(ps, c), SuperFlex);
    LabelMembers(FixedStarters(ps, c, DST), Fixed(DST));
  }

  /** Every starter is a roster player in a slot that accepts its
      position, and no slot is a kicker slot. */
  lemma StartersEligible(ps: seq<Player>, c: SlotConfig)
    ensures forall st :: st in Starters(ps, c) ==>
      st.player in ps && Eligible(st.slot, st.player.pos) && st.slot != Fixed(K)
  {
    forall st | st in Starters(ps, c)
      ensures st.player in ps && Eligible(st.slot, st.player.pos) && st.slot != Fixed(K)
    {
      StarterGroups(ps, c, st);
      match st.slot {
        case Fixed(p) => FixedStartersOfPos(ps, c, p);
        case Flex => FlexStartersOfPos(ps, c);
        case SuperFlex => SuperFlexTakesLeftoverQBs(ps, c);
      }
    }
  }

  /** Kickers never start: `starting_ks` is left out of the concatenation. */
  lemma KickersNeverStart(ps: seq<Player>, c: SlotConfig)
    ensures forall st :: st in Starters(ps, c) ==> st.player.pos != K
  {
    StartersEligible(ps, c);
  }

  /** The seven groups of the lineup, as players. */
  lemma StarterPlayersGroups(ps: seq<Player>, c: SlotConfig)
    ensures StarterPlayers(Starters(ps, c))
      == FixedStarters(ps, c, QB) + FixedStarters(ps, c, RB) + FixedStarters(ps, c, WR)
       + FixedStarters(ps, c, TE) + FlexStarters(ps, c) + SuperFlexStarters(ps, c)
       + FixedStarters(ps, c, DST)
  {
    var a, b, d, e := Label(FixedStarters(ps, c, QB), Fixed(QB)), Label(FixedStarters(ps, c, RB), Fixed(RB)),
      Label(FixedStarters(ps, c, WR), Fixed(WR)), Label(FixedStarters(ps, c, TE), Fixed(TE));
    var f, g, h := Label(FlexStarters(ps, c), Flex), Label(SuperFlexStarters(ps, c), SuperFlex),
      Label(FixedStarters(ps, c, DST), Fixed(DST));
    assert Starters(ps, c) == a + b + d + e + f + g + h;
    StarterPlayersAppend(a, b);
    StarterPlayersAppend(a + b, d);
    StarterPlayersAppend(a + b + d, e);
    StarterPlayersAppend(a + b + d + e, f);
    StarterPlayersAppend(a + b + d + e + f, g);
    StarterPlayersAppend(a + b + d + e + f + g, h);
    LabelPlayers(FixedStarters(ps, c, QB), Fixed(QB));
    LabelPlayers(FixedStarters(ps, c, RB), Fixed(RB));
    LabelPlayers(FixedStarters(ps, c, WR), Fixed(WR));
    LabelPlayers(FixedStarters(ps, c, TE), Fixed(TE));
    LabelPlayers(FlexStarters(ps, c), Flex);
    LabelPlayers(SuperFlexStarters(ps, c), SuperFlex);
    LabelPlayers(FixedStarters(ps, c, DST), Fixed(DST));
  }

  lemma StarterGroupLengths(ps: seq<Player>, c: SlotConfig)
    ensures |Starters(ps, c)| == |FixedStarters(ps, c, QB)| + |FixedStarters(ps, c, RB)|
      + |FixedStarters(ps, c, WR)| + |FixedStarters(ps, c, TE)| + |FlexStarters(ps, c)|
      + |SuperFlexStarters(ps, c)| + |FixedStarters(ps, c, DST)|
  {
  }

  /** The number of starters, slot kind by slot kind; it never exceeds the
      configured starting slots. */
  lemma StarterCount(ps: seq<Player>, c: SlotConfig)
    ensures var nQB := |OfPos(ps, QB)|;
      |Starters(ps, c)| == Min(c.qb, nQB) + Min(c.rb, |OfPos(ps, RB)|)
        + Min(c.wr, |OfPos(ps, WR)|) + Min(c.te, |OfPos(ps, TE)|)
        + Min(c.flex, |FlexPool(ps, c)|) + Min(c.superflex, nQB - Min(c.qb, nQB))
        + Min(c.dst, |OfPos(ps, DST)|)
    ensures |Starters(ps, c)| <= c.qb + c.rb + c.wr + c.te + c.flex + c.superflex + c.dst
  {
    StarterGroupLengths(ps, c);
    FixedStartersSplit(ps, c, QB);
    FixedStartersSplit(ps, c, RB);
    FixedStartersSplit(ps, c, WR);
    FixedStartersSplit(ps, c, TE);
    FixedStartersSplit(ps, c, DST);
    SuperFlexTakesLeftoverQBs(ps, c);
    MinsBound(c, |OfPos(ps, QB)|, |OfPos(ps, RB)|, |OfPos(ps, WR)|, |OfPos(ps, TE)|,
              |FlexPool(ps, c)|, |OfPos(ps, DST)|);
  }

  lemma MinsBound(c: SlotConfig, nQB: nat, nRB: nat, nWR: nat, nTE: nat, nFlex: nat, nDST: nat)
    ensures Min(c.qb, nQB) + Min(c.rb, nRB) + Min(c.wr, nWR) + Min(c.te, nTE)
      + Min(c.flex, nFlex) + Min(c.superflex, nQB - Min(c.qb, nQB)) + Min(c.dst, nDST)
      <= c.qb + c.rb + c.wr + c.te + c.flex + c.superflex + c.dst
  {
  }

  /** Fixed QB starters and SuperFlex starters share the QBs. */
  lemma QuarterbackStartersBound(ps: seq<Player>, c: SlotConfig)
    ensures multiset(FixedStarters(ps, c, QB)) + multiset(SuperFlexStarters(ps, c))
      <= multiset(OfPos(ps, QB))
  {
    FixedStartersSplit(ps, c, QB);
    SuperFlexTakesLeftoverQBs(ps, c);
    TakeDrop(Leftover(ps, c, QB), c.superflex);
  }

  /** Fixed RB, WR and TE starters and FLEX starters share those players. */
  lemma FlexEligibleStartersBound(ps: seq<Player>, c: SlotConfig)
    ensures multiset(FixedStarters(ps, c, RB)) + multiset(FixedStarters(ps, c, WR))
      + multiset(FixedStarters(ps, c, TE)) + multiset(FlexStarters(ps, c))
      <= multiset(OfPos(ps, RB)) + multiset(OfPos(ps, WR)) + multiset(OfPos(ps, TE))
  {
    FixedStartersSplit(ps, c, RB);
    FixedStartersSplit(ps, c, WR);
    FixedStartersSplit(ps, c, TE);
    FlexStartersFromPool(ps, c);
  }

  /** No player starts more often than the roster holds it. */
  lemma StartersFromRoster(ps: seq<Player>, c: SlotConfig)
    ensures multiset(StarterPlayers(Starters(ps, c))) <= multiset(ps)
  {
    StarterPlayersGroups(ps, c);
    QuarterbackStartersBound(ps, c);
    FlexEligibleStartersBound(ps, c);
    FixedStartersSplit(ps, c, DST);
    SplitByPos(ps);
    MultisetBound(FixedStarters(ps, c, QB), FixedStarters(ps, c, RB), FixedStarters(ps, c, WR),
      FixedStarters(ps, c, TE), FlexStarters(ps, c), SuperFlexStarters(ps, c),
      FixedStarters(ps, c, DST), ps);
  }

  lemma MultisetBound(fqb: seq<Player>, frb: seq<Player>, fwr: seq<Player>, fte: seq<Player>,
                      fl: seq<Player>, sf: seq<Player>, fdst: seq<Player>, ps: seq<Player>)
    requires multiset(fqb) + multiset(sf) <= multiset(OfPos(ps, QB))
    requires multiset(frb) + multiset(fwr) + multiset(fte) + multiset(fl)
      <= multiset(OfPos(ps, RB)) + multiset(OfPos(ps, WR)) + multiset(OfPos(ps, TE))
    requires multiset(fdst) <= multiset(OfPos(ps, DST))
    requires multiset(ps) == multiset(OfPos(ps, QB)) + multiset(OfPos(ps, RB))
      + multiset(OfPos(ps, WR)) + multiset(OfPos(ps, TE))
      + multiset(OfPos(ps, K)) + multiset(OfPos(ps, DST))
    ensures multiset(fqb + frb + fwr + fte + fl + sf + fdst) <= multiset(ps)
  {
    assert multiset(fqb + frb + fwr + fte + fl + sf + fdst)
      == (multiset(fqb) + multiset(sf)) + (multiset(frb) + multiset(fwr) + multiset(fte) + multiset(fl))
       + multiset(fdst);
  }

  // ---------------------------------------------------------------------
  // Bench

  lemma {:induction false} KeyCountAppend(a: seq<Entry>, b: seq<Entry>, key: Option<(string, real)>)
    ensures KeyCount(a + b, key) == KeyCount(a, key) + KeyCount(b, key)
  {
    if a == [] {
      assert a + b == b;
    } else {
      assert (a + b)[1..] == a[1..] + b;
      KeyCountAppend(a[1..], b, key);
    }
  }

  lemma {:induction false} KeyCountPositive(rows: seq<Entry>, e: Entry)
    requires e in rows
    ensures KeyCount(rows, Key(e)) >= 1
  {
    if rows[0] != e {
      KeyCountPositive(rows[1..], e);
    }
  }

  lemma {:induction false} KeyCountZero(rows: seq<Entry>, key: Option<(string, real)>)
    requires forall e :: e in rows ==> Key(e) != key
    ensures KeyCount(rows, key) == 0
  {
    if rows != [] {
      assert rows[0] in rows;
      KeyCountZero(rows[1..], key);
    }
  }

  lemma {:induction false} KeepUniqueAppend(a: seq<Entry>, b: seq<Entry>, whole: seq<Entry>)
    ensures KeepUnique(a + b, whole) == KeepUnique(a, whole) + KeepUnique(b, whole)
  {
    if a == [] {
      assert a + b == b;
    } else {
      assert (a + b)[1..] == a[1..] + b;
      KeepUniqueAppend(a[1..], b, whole);
    }
  }

  lemma {:induction false} KeepUniqueMultiplicity(part: seq<Entry>, whole: seq<Entry>, x: Entry)
    ensures multiset(KeepUnique(part, whole))[x]
      == if KeyCount(whole, Key(x)) == 1 then multiset(part)[x] else 0
  {
    if part != [] {
      KeepUniqueMultiplicity(part[1..], whole, x);
      assert part == [part[0]] + part[1..];
    }
  }

  /** Every starter's row is also a roster row. */
  lemma StarterRowsInRoster(rows: seq<Entry>, c: SlotConfig)
    ensures multiset(AsEntries(StarterPlayers(Starters(Players(rows), c)))) <= multiset(rows)
  {
    StartersFromRoster(Players(rows), c);
    EntriesIncluded(StarterPlayers(Starters(Players(rows), c)), rows);
  }

  /** Stacked on rows that contain them, starter rows never have a unique
      key, so none of them survives the deduplication. */
  lemma StarterRowsDropped(sr: seq<Entry>, rows: seq<Entry>)
    requires multiset(sr) <= multiset(rows)
    ensures KeepUnique(sr, sr + rows) == []
  {
    forall e | e in sr ensures KeyCount(sr + rows, Key(e)) >= 2 {
      KeyCountAppend(sr, rows, Key(e));
      KeyCountPositive(sr, e);
      assert e in multiset(sr);
      assert e in multiset(rows);
      KeyCountPositive(rows, e);
    }
    KeepUniqueNone(sr, sr + rows);
  }

  lemma {:induction false} KeepUniqueNone(part: seq<Entry>, whole: seq<Entry>)
    requires forall e :: e in part ==> KeyCount(whole, Key(e)) != 1
    ensures KeepUnique(part, whole) == []
  {
    if part != [] {
      assert part[0] in part;
      KeepUniqueNone(part[1..], whole);
    }
  }

  /** The bench is the roster rows, in roster order, whose key occurs once
      among the starters stacked on the roster. */
  lemma BenchIsRosterRows(rows: seq<Entry>, c: SlotConfig)
    ensures var st := Starters(Players(rows), c);
      Bench(st, rows) == KeepUnique(rows, AsEntries(StarterPlayers(st)) + rows)
  {
    var st := Starters(Players(rows), c);
    var sr := AsEntries(StarterPlayers(st));
    KeepUniqueAppend(sr, rows, sr + rows);
    StarterRowsInRoster(rows, c);
    StarterRowsDropped(sr, rows);
  }

  lemma {:induction false} KeyCountWitness(rows: seq<Entry>, key: Option<(string, real)>)
    requires KeyCount(rows, key) != 0
    ensures exists e :: e in rows && Key(e) == key
  {
    if Key(rows[0]) != key {
      KeyCountWitness(rows[1..], key);
      var e :| e in rows[1..] && Key(e) == key;
      assert e in rows;
    }
  }

  /** A key that no starter row holds, seen from the starters. */
  lemma StarterKeys(st: seq<Starter>, key: Option<(string, real)>)
    ensures KeyCount(AsEntries(StarterPlayers(st)), key) == 0
      <==> forall s :: s in st ==> Key(Matched(s.player)) != key
  {
    var sr := AsEntries(StarterPlayers(st));
    if KeyCount(sr, key) != 0 {
      KeyCountWitness(sr, key);
      var e :| e in sr && Key(e) == key;
      var i :| 0 <= i < |sr| && sr[i] == e;
      assert st[i] in st && Key(Matched(st[i].player)) == key;
    } else {
      forall s | s in st ensures Key(Matched(s.player)) != key {
        var i :| 0 <= i < |st| && st[i] == s;
        assert sr[i] == Matched(s.player);
        if Key(sr[i]) == key {
          KeyCountPositive(sr, sr[i]);
        }
      }
    }
  }

  /** The bench holds exactly the roster rows whose key is held by no
      starter and by no other roster row. */
  lemma BenchMembers(rows: seq<Entry>, c: SlotConfig)
    ensures var st := Starters(Players(rows), c);
      forall e :: e in Bench(st, rows) <==>
        e in rows && KeyCount(rows, Key(e)) == 1
        && forall s :: s in st ==> Key(Matched(s.player)) != Key(e)
  {
    var st := Starters(Players(rows), c);
    var sr := AsEntries(StarterPlayers(st));
    BenchIsRosterRows(rows, c);
    forall e ensures e in Bench(st, rows) <==>
        e in rows && KeyCount(rows, Key(e)) == 1
        && forall s :: s in st ==> Key(Matched(s.player)) != Key(e)
    {
      KeyCountAppend(sr, rows, Key(e));
      StarterKeys(st, Key(e));
      if e in rows {
        KeyCountPositive(rows, e);
      }
    }
  }

  /** No starter is on the bench, and a row whose key is shared with
      another roster row (several unmatched rows, say) is on neither. */
  lemma BenchExcludesStartersAndDuplicates(rows: seq<Entry>, c: SlotConfig)
    ensures var l := Allocate(rows, c);
      forall s :: s in l.starters ==> Matched(s.player) !in l.bench
    ensures var l := Allocate(rows, c);
      forall e :: e in rows && KeyCount(rows, Key(e)) >= 2 ==> e !in l.bench
    ensures var l := Allocate(rows, c);
      forall e :: e in l.bench ==> e in rows
  {
    BenchMembers(rows, c);
  }

  /** Rows with pairwise different keys. */
  ghost predicate DistinctKeys(rows: seq<Entry>)
  {
    forall i, j :: 0 <= i < j < |rows| ==> Key(rows[i]) != Key(rows[j])
  }

  lemma {:induction false} DistinctKeysCount(rows: seq<Entry>, x: Entry)
    requires DistinctKeys(rows)
    requires x in rows
    ensures KeyCount(rows, Key(x)) == 1
    ensures multiset(rows)[x] == 1
  {
    assert rows == [rows[0]] + rows[1..];
    if rows[0] == x {
      forall e | e in rows[1..] ensures Key(e) != Key(x) {
        var j :| 0 <= j < |rows[1..]| && rows[1..][j] == e;
        assert Key(rows[0]) != Key(rows[j + 1]);
      }
      KeyCountZero(rows[1..], Key(x));
      assert x !in multiset(rows[1..]);
    } else {
      var j :| 0 <= j < |rows| && rows[j] == x;
      assert Key(rows[0]) != Key(rows[j]);
      DistinctKeysCount(rows[1..], x);
    }
  }

  /** KeyCount of a key one row holds, when no other row shares it. */
  lemma {:induction false} KeyCountIsMultiplicity(rows: seq<Entry>, x: Entry)
    requires forall e :: e in rows && Key(e) == Key(x) ==> e == x
    ensures KeyCount(rows, Key(x)) == multiset(rows)[x]
  {
    if rows != [] {
      assert rows == [rows[0]] + rows[1..];
      assert rows[0] in rows;
      KeyCountIsMultiplicity(rows[1..], x);
    }
  }

  /** With pairwise different keys, every roster row is either a starter
      or on the bench, and never both. */
  lemma StartersAndBenchPartitionRoster(rows: seq<Entry>, c: SlotConfig)
    requires DistinctKeys(rows)
    ensures var l := Allocate(rows, c);
      multiset(AsEntries(StarterPlayers(l.starters))) + multiset(l.bench) == multiset(rows)
  {
    var st := Starters(Players(rows), c);
    var sr := AsEntries(StarterPlayers(st));
    StarterRowsInRoster(rows, c);
    BenchIsRosterRows(rows, c);
    forall x ensures multiset(sr)[x] + multiset(Bench(st, rows))[x] == multiset(rows)[x] {
      PartitionAt(sr, rows, x);
    }
    assert multiset(sr) + multiset(Bench(st, rows)) == multiset(rows);
  }

  lemma PartitionAt(sr: seq<Entry>, rows: seq<Entry>, x: Entry)
    requires DistinctKeys(rows)
    requires multiset(sr) <= multiset(rows)
    ensures multiset(sr)[x] + multiset(KeepUnique(rows, sr + rows))[x] == multiset(rows)[x]
  {
    KeepUniqueMultiplicity(rows, sr + rows, x);
    if x in rows {
      DistinctKeysCount(rows, x);
      KeyCountAppend(sr, rows, Key(x));
      forall e | e in sr && Key(e) == Key(x) ensures e == x {
        assert e in multiset(sr);
        assert e in multiset(rows);
        var i :| 0 <= i < |rows| && rows[i] == e;
        var j :| 0 <= j < |rows| && rows[j] == x;
        assert Key(rows[i]) == Key(rows[j]);
      }
      KeyCountIsMultiplicity(sr, x);
    } else {
      assert multiset(rows)[x] == 0;
    }
  }
}
