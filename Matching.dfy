/** From the league's text to valued roster rows: cleaning the printed
    names, extracting a free agent's name, accepting a fuzzy match and
    joining the accepted names with the ranking table. */
module Matching {
  import opened Roster

  datatype Result<T> = Success(value: T) | Failure

  // ---------------------------------------------------------------------
  // Text cleaning with `str.replace`

  /** `s.replace(pat, "")`: scans left to right and removes every
      non-overlapping occurrence of `pat`. */
  function RemoveAll(s: string, pat: string): (r: string)
    requires |pat| > 0
    ensures |r| <= |s|
    decreases |s|
  {
    if |s| == 0 then ""
    else if |pat| <= |s| && s[..|pat|] == pat then RemoveAll(s[|pat|..], pat)
    else [s[0]] + RemoveAll(s[1..], pat)
  }

  /** Removing a one-character pattern leaves none of that character. */
  lemma {:induction false} RemoveAllChar(s: string, c: char)
    ensures c !in RemoveAll(s, [c])
    decreases |s|
  {
    if |s| > 0 {
      if s[..1] == [c] {
        RemoveAllChar(s[1..], c);
      } else {
        RemoveAllChar(s[1..], c);
        assert s[0] != c;
      }
    }
  }

  /** `m` occurs in `s` at position `p`. */
  ghost predicate MatchAt(s: string, m: string, p: nat)
  {
    p + |m| <= |s| && s[p..p + |m|] == m
  }

  /** `pat` does not occur anywhere in `s`. */
  ghost predicate Absent(s: string, pat: string)
  {
    forall i: nat :: !MatchAt(s, pat, i)
  }

  /** Removing a pattern that does not occur changes nothing. */
  lemma {:induction false} RemoveAllAbsent(s: string, pat: string)
    requires |pat| > 0 && Absent(s, pat)
    ensures RemoveAll(s, pat) == s
    decreases |s|
  {
    if |s| > 0 {
      assert !MatchAt(s, pat, 0);
      assert |pat| <= |s| ==> s[..|pat|] == s[0..|pat|];
      forall i: nat ensures !MatchAt(s[1..], pat, i) {
        if i + |pat| <= |s[1..]| {
          assert s[1..][i..i + |pat|] == s[i + 1..i + 1 + |pat|];
          assert !MatchAt(s, pat, i + 1);
        }
      }
      RemoveAllAbsent(s[1..], pat);
      assert s == [s[0]] + s[1..];
    }
  }

  /** A closing parenthesis after a text free of `pat` adds no occurrence,
      when `pat` itself ends in something else. */
  lemma AbsentThenClose(x: string, pat: string)
    requires |pat| > 0 && pat[|pat| - 1] != ')' && Absent(x, pat)
    ensures Absent(x + ")", pat)
  {
    var s := x + ")";
    forall i: nat ensures !MatchAt(s, pat, i) {
      if i + |pat| <= |x| {
        assert s[i..i + |pat|] == x[i..i + |pat|];
        assert !MatchAt(x, pat, i);
      } else if i + |pat| == |s| {
        assert s[i..i + |pat|][|pat| - 1] == ')';
      }
    }
  }

  /** `str(obj).replace(prefix, "").replace(")", "")`, as used for team
      and player labels. */
  function CleanWrapped(s: string, prefix: string): (r: string)
    requires |prefix| > 0
    ensures ')' !in r
  {
    RemoveAllChar(RemoveAll(s, prefix), ')');
    RemoveAll(RemoveAll(s, prefix), ")")
  }

  const TeamPrefix: string := "Team("
  const PlayerPrefix: string := "Player("

  function CleanTeam(s: string): string { CleanWrapped(s, TeamPrefix) }
  function CleanPlayer(s: string): string { CleanWrapped(s, PlayerPrefix) }

  /** Cleaning gives back the wrapped text when that text holds no closing
      parenthesis and no copy of the prefix. */
  lemma CleanRoundTrip(prefix: string, x: string)
    requires |prefix| > 0 && ')' !in prefix
    requires ')' !in x && Absent(x, prefix)
    ensures CleanWrapped(prefix + x + ")", prefix) == x
  {
    var s := prefix + x + ")";
    assert s[..|prefix|] == prefix;
    assert s[|prefix|..] == x + ")";
    assert prefix[|prefix| - 1] in prefix;
    AbsentThenClose(x, prefix);
    RemoveAllAbsent(x + ")", prefix);
    assert RemoveAll(s, prefix) == x + ")";
    assert (x + ")")[..1] != ")" || |x| == 0 by {
      if |x| > 0 {
        assert (x + ")")[0] == x[0];
        assert x[0] in x;
      }
    }
    RemoveCloseAfter(x);
  }

  lemma {:induction false} RemoveCloseAfter(x: string)
    requires ')' !in x
    ensures RemoveAll(x + ")", ")") == x
    decreases |x|
  {
    if |x| == 0 {
      assert x + ")" == ")";
      assert ")"[..1] == ")" && ")"[1..] == "";
    } else {
      var s := x + ")";
      assert s[0] == x[0] && x[0] in x;
      assert s[1..] == x[1..] + ")";
      assert x == [x[0]] + x[1..];
      RemoveCloseAfter(x[1..]);
    }
  }

  /** The two labels the program cleans. */
  lemma CleanLabels(name: string)
    requires ')' !in name && Absent(name, TeamPrefix) && Absent(name, PlayerPrefix)
    ensures CleanTeam("Team(" + name + ")") == name
    ensures CleanPlayer("Player(" + name + ")") == name
  {
    CleanRoundTrip(TeamPrefix, name);
    CleanRoundTrip(PlayerPrefix, name);
  }

  // ---------------------------------------------------------------------
  // Extracting a free agent's name with regular expressions

  /** The lazy `(.*?)m` search anchored at `i`: the first position from `i`
      where `m` occurs, provided no line break lies before it (`.` does not
      match a line break). */
  function FindLazy(s: string, m: string, i: nat): (r: Option<nat>)
    requires i <= |s|
    ensures r.Some? ==> i <= r.value && MatchAt(s, m, r.value)
    ensures r.Some? ==> forall k :: i <= k < r.value ==> s[k] != '\n' && !MatchAt(s, m, k)
    ensures r.None? ==> forall p :: i <= p <= |s| && MatchAt(s, m, p) ==> exists k :: i <= k < p && s[k] == '\n'
    decreases |s| - i
  {
    if i + |m| <= |s| && s[i..i + |m|] == m then Some(i)
    else if i == |s| || s[i] == '\n' then None
    else FindLazy(s, m, i + 1)
  }

  /** `re.sub(r'^Player\((.*?)\)', r'\1', s)`: at the very start, drops
      `Player(` and the first `)` after it; otherwise leaves `s` as it is. */
  function StripPlayerWrapper(s: string): (r: string)
    ensures |r| <= |s|
    ensures forall c :: c in r ==> c in s
  {
    if |s| >= 7 && s[..7] == PlayerPrefix then
      match FindLazy(s, ")", 7)
      case Some(j) => s[7..j] + s[j + 1..]
      case None => s
    else s
  }

  const PointsMarker: string := ", points"

  /** `extract_player_name`: the wrapper removed, the text before the first
      ", points". `re.match` finding nothing makes `.group(1)` raise,
      which is `Failure`. */
  function ExtractPlayerName(s: string): (r: Result<string>)
    ensures r.Success? ==> |r.value| < |s|
  {
    var t := StripPlayerWrapper(s);
    match FindLazy(t, PointsMarker, 0)
    case Some(p) => Success(t[..p])
    case None => Failure
  }

  lemma {:induction false} FindLazyAt(s: string, m: string, i: nat, p: nat)
    requires i <= p && MatchAt(s, m, p)
    requires forall k :: i <= k < p ==> s[k] != '\n' && !MatchAt(s, m, k)
    ensures FindLazy(s, m, i) == Some(p)
    decreases p - i
  {
    if i < p {
      assert !MatchAt(s, m, i);
      FindLazyAt(s, m, i + 1, p);
    }
  }

  /** The free-agent form `Player(<name>, points=<points>)` gives back the
      name, for names free of commas, parentheses and line breaks and
      points text free of line breaks. */
  lemma ExtractRoundTrip(name: string, points: string)
    requires ',' !in name && ')' !in name && '\n' !in name
    requires '\n' !in points
    ensures ExtractPlayerName("Player(" + name + ", points=" + points + ")") == Success(name)
  {
    var t := StripFreeAgent(name, points);
    NameBeforeMarker(t, name);
  }

  /** Stripping the wrapper of the free-agent form leaves the name and the
      marker in front. */
  lemma StripFreeAgent(name: string, points: string) returns (t: string)
    requires ')' !in name && '\n' !in name && '\n' !in points
    ensures StripPlayerWrapper("Player(" + name + ", points=" + points + ")") == t
    ensures |name| + 8 <= |t| && t[..|name| + 8] == name + PointsMarker
  {
    FreeAgentForm(name, points);
    t := StripWrapped("Player(" + name + ", points=" + points + ")", name, 7 + |name| + 9 + |points|);
  }

  /** Any text of the free-agent shape loses its wrapper and keeps the name
      and the marker in front. */
  lemma StripWrapped(s: string, name: string, close: nat) returns (t: string)
    requires ')' !in name
    requires 7 + |name| + 9 <= close && |s| == close + 1
    requires s[..7] == PlayerPrefix && MatchAt(s, ")", close)
    requires s[7..7 + |name| + 9] == name + ", points="
    requires s[7..7 + |name| + 8] == name + PointsMarker
    requires forall k :: 7 <= k < close ==> s[k] != '\n'
    ensures StripPlayerWrapper(s) == t
    ensures |name| + 8 <= |t| && t[..|name| + 8] == name + PointsMarker
  {
    var j := FirstClose(s, close);
    NoCloseBefore(s, name, j);
    t := s[7..j] + s[j + 1..];
    assert t[..|name| + 8] == s[7..7 + |name| + 8];
  }

  /** The printed free-agent form: the wrapper prefix, the name and the
      marker in front, a closing parenthesis at the end, and no line break
      before it. */
  lemma FreeAgentForm(name: string, points: string)
    requires '\n' !in name && '\n' !in points
    ensures var s := "Player(" + name + ", points=" + points + ")";
      var close := 7 + |name| + 9 + |points|;
      |s| == close + 1 && s[..7] == PlayerPrefix && MatchAt(s, ")", close)
      && 7 + |name| + 9 <= close && s[7..7 + |name| + 9] == name + ", points="
      && s[7..7 + |name| + 8] == name + PointsMarker
      && forall k :: 7 <= k < close ==> s[k] != '\n'
  {
    var s := "Player(" + name + ", points=" + points + ")";
    var close := 7 + |name| + 9 + |points|;
    assert s[..7] == PlayerPrefix;
    assert s[close..close + 1] == ")";
    assert s[7..7 + |name| + 9] == name + ", points=";
    assert s[7..7 + |name| + 8] == name + PointsMarker;
    forall k | 7 <= k < close ensures s[k] != '\n' {
      if k < 7 + |name| {
        assert s[k] == name[k - 7];
      } else if k >= 7 + |name| + 9 {
        assert s[k] == points[k - 16 - |name|];
      }
    }
  }

  lemma NoCloseBefore(s: string, name: string, j: nat)
    requires ')' !in name
    requires |s| >= 7 + |name| + 9 && s[7..7 + |name| + 9] == name + ", points="
    requires 7 <= j && MatchAt(s, ")", j)
    ensures j >= 7 + |name| + 9
  {
    assert s[j..j + 1][0] == s[j];
    forall k | 7 <= k < 7 + |name| + 9 ensures s[k] != ')' {
      assert s[k] == s[7..7 + |name| + 9][k - 7];
      if k < 7 + |name| {
        assert s[k] == name[k - 7] && name[k - 7] in name;
      }
    }
  }

  /** Text starting with a comma-free, single-line name followed by the
      marker yields that name. */
  lemma NameBeforeMarker(t: string, name: string)
    requires ',' !in name && '\n' !in name
    requires |name| + 8 <= |t| && t[..|name| + 8] == name + PointsMarker
    ensures FindLazy(t, PointsMarker, 0) == Some(|name|)
    ensures t[..|name|] == name
  {
    assert t[|name|..|name| + 8] == t[..|name| + 8][|name|..];
    forall k | 0 <= k < |name| ensures t[k] != '\n' && !MatchAt(t, PointsMarker, k) {
      assert t[k] == t[..|name| + 8][k] == name[k];
      assert name[k] in name;
      if k + 8 <= |t| {
        assert t[k..k + 8][0] == t[k];
      }
    }
    FindLazyAt(t, PointsMarker, 0, |name|);
    assert t[..|name|] == t[..|name| + 8][..|name|];
  }

  /** The first closing parenthesis from position 7 is found by the lazy
      search when no line break precedes the known one at `close`. */
  lemma FirstClose(s: string, close: nat) returns (j: nat)
    requires 7 <= close && MatchAt(s, ")", close)
    requires forall k :: 7 <= k < close ==> s[k] != '\n'
    ensures FindLazy(s, ")", 7) == Some(j) && j <= close
  {
    var r := FindLazy(s, ")", 7);
    assert r.Some?;
    j := r.value;
  }

  /** The extraction fails (the source raises) exactly when every `, points`
      in the unwrapped text comes after a line break, or there is none. */
  lemma ExtractFailsWithoutMarker(s: string)
    ensures var t := StripPlayerWrapper(s);
      ExtractPlayerName(s).Failure? <==>
        forall p :: 0 <= p <= |t| && MatchAt(t, PointsMarker, p) ==> exists k :: 0 <= k < p && t[k] == '\n'
  {
    var t := StripPlayerWrapper(s);
    match FindLazy(t, PointsMarker, 0)
    case Some(p) =>
      assert MatchAt(t, PointsMarker, p);
      assert forall k :: 0 <= k < p ==> t[k] != '\n';
    case None =>
  }

  // ---------------------------------------------------------------------
  // Accepting a fuzzy match

  /** The thresholds the program applies: a 0-100 score for the rostered
      players, a 0-1 ratio for the free agents. */
  const RosterThreshold: real := 85.0
  const FreeAgentThreshold: real := 0.85

  /** A scorer's best guess: a candidate name (none when nothing is close)
      and its similarity score. */
  datatype Candidate = Candidate(name: Option<string>, score: real)

  /** `x[0] if x[1] >= t else None`. */
  function Gate(best: Candidate, t: real): (r: Option<string>)
    ensures r.Some? ==> best.score >= t && r == best.name
    ensures best.score >= t ==> r == best.name
    ensures best.score < t ==> r.None?
  {
    if best.score >= t then best.name else None
  }

  /** Raising the threshold never admits a match the lower one rejected. */
  lemma GateMonotone(best: Candidate, lo: real, hi: real)
    requires lo <= hi
    ensures Gate(best, hi).Some? ==> Gate(best, lo) == Gate(best, hi)
  {
  }

  /** A match scoring exactly the threshold is accepted. */
  lemma GateBoundary(name: string)
    ensures Gate(Candidate(Some(name), RosterThreshold), RosterThreshold) == Some(name)
    ensures Gate(Candidate(Some(name), 84.99), RosterThreshold) == None
    ensures Gate(Candidate(Some(name), FreeAgentThreshold), FreeAgentThreshold) == Some(name)
  {
  }

  /** `find_best_match_simple`: `close` is the list returned by
      `get_close_matches(name, choices, n=1, cutoff=0.85)`, and `ratio(m)`
      is `SequenceMatcher(None, name, m).ratio()`. `get_close_matches`
      applies its cutoff to the ratio with the two strings the other way
      round, which may differ, so `ratio` is a separate oracle from the one
      that produced `close`. */
  function SimpleBest(close: seq<string>, ratio: string -> real): (c: Candidate)
    ensures close == [] ==> c == Candidate(None, 0.0)
    ensures close != [] ==> c.name == Some(close[0])
  {
    if close == [] then Candidate(None, 0.0) else Candidate(Some(close[0]), ratio(close[0]))
  }

  /** The free-agent gate keeps the first close match exactly when its
      ratio, taken name first, reaches 0.85; with no close match it keeps
      nothing. A close match whose ratio is lower this way round is
      rejected. */
  lemma SimpleGateKeepsCloseMatch(close: seq<string>, ratio: string -> real)
    ensures Gate(SimpleBest(close, ratio), FreeAgentThreshold).Some?
      <==> close != [] && ratio(close[0]) >= FreeAgentThreshold
    ensures Gate(SimpleBest(close, ratio), FreeAgentThreshold).Some? ==>
      Gate(SimpleBest(close, ratio), FreeAgentThreshold) == Some(close[0])
  {
  }

  // ---------------------------------------------------------------------
  // Joining with the ranking table

  /** The six points columns of the ranking table. */
  datatype Format = PPR | HPPR | Std | TEPremium | SixPtPass | DK

  datatype Points = Points(ppr: real, hppr: real, std: real, tePremium: real, sixPtPass: real, dk: real)

  /** One row of the ranking table. */
  datatype Ranked = Ranked(name: string, team: string, pos: Pos, points: Points)

  function PointsIn(p: Points, f: Format): real
  {
    match f
    case PPR => p.ppr
    case HPPR => p.hppr
    case Std => p.std
    case TEPremium => p.tePremium
    case SixPtPass => p.sixPtPass
    case DK => p.dk
  }

  /** A ranking row valued in the league's format. */
  function Valued(r: Ranked, f: Format): Player
  {
    Player(r.name, r.pos, PointsIn(r.points, f))
  }

  /** The ranking rows named `n`, valued in format `f`. */
  function RowsNamed(table: seq<Ranked>, n: string, f: Format): (ps: seq<Player>)
    ensures forall p :: p in ps ==> exists r :: r in table && r.name == n && p == Valued(r, f)
    ensures forall r :: r in table && r.name == n ==> Valued(r, f) in ps
  {
    if table == [] then []
    else if table[0].name == n then [Valued(table[0], f)] + RowsNamed(table[1..], n, f)
    else RowsNamed(table[1..], n, f)
  }

  /** The left merge for one roster name: the valued table rows named by the
      accepted match, or one unmatched row when the match was rejected or
      names no table row. */
  function JoinOne(matched: Option<string>, table: seq<Ranked>, f: Format): (rows: seq<Entry>)
    ensures |rows| >= 1
    ensures matched.None? ==> rows == [Unmatched]
    ensures matched.Some? && RowsNamed(table, matched.value, f) == [] ==> rows == [Unmatched]
    ensures matched.Some? && RowsNamed(table, matched.value, f) != [] ==>
      Unmatched !in rows && Players(rows) == RowsNamed(table, matched.value, f)
  {
    match matched
    case None => [Unmatched]
    case Some(n) =>
      var hits := RowsNamed(table, n, f);
      if hits == [] then [Unmatched]
      else
        PlayersOfEntries(hits);
        AsEntries(hits)
  }

  /** Values a roster: every name goes through the scorer `best`, the gate at
      threshold `t`, then the left merge with the ranking table. */
  function Valuate(names: seq<string>, best: string -> Candidate, t: real, table: seq<Ranked>, f: Format): (rows: seq<Entry>)
    ensures |rows| >= |names|
  {
    if names == [] then []
    else JoinOne(Gate(best(names[0]), t), table, f) + Valuate(names[1..], best, t, table, f)
  }

  /** Every ranking row named by an accepted match of a roster name appears,
      valued in the league's format, among the valued rows. */
  lemma {:induction false} ValuateComplete(names: seq<string>, best: string -> Candidate, t: real,
                                           table: seq<Ranked>, f: Format, n: string, r: Ranked)
    requires n in names && r in table && Gate(best(n), t) == Some(r.name)
    ensures Matched(Valued(r, f)) in Valuate(names, best, t, table, f)
  {
    var head := JoinOne(Gate(best(names[0]), t), table, f);
    var tail := Valuate(names[1..], best, t, table, f);
    assert Valuate(names, best, t, table, f) == head + tail;
    if names[0] == n {
      var hits := RowsNamed(table, r.name, f);
      assert Valued(r, f) in hits;
      var i :| 0 <= i < |hits| && hits[i] == Valued(r, f);
      assert head == AsEntries(hits);
      assert head[i] == Matched(Valued(r, f));
    } else {
      assert n in names[1..];
      ValuateComplete(names[1..], best, t, table, f, n, r);
    }
  }

  /** Every matched row is a ranking row valued in the league's format and
      named by an accepted match of some roster name. */
  lemma {:induction false} ValuateMatchedRows(names: seq<string>, best: string -> Candidate, t: real,
                                              table: seq<Ranked>, f: Format, p: Player)
    requires Matched(p) in Valuate(names, best, t, table, f)
    ensures exists r :: r in table && p == Valued(r, f)
    ensures exists n :: n in names && Gate(best(n), t) == Some(p.name)
  {
    var head := JoinOne(Gate(best(names[0]), t), table, f);
    var tail := Valuate(names[1..], best, t, table, f);
    if Matched(p) in head {
      var m := Gate(best(names[0]), t);
      var hits := RowsNamed(table, m.value, f);
      var i :| 0 <= i < |head| && head[i] == Matched(p);
      assert p == hits[i] && p in hits;
      var r :| r in table && r.name == m.value && p == Valued(r, f);
      assert names[0] in names;
    } else {
      assert Matched(p) in tail;
      ValuateMatchedRows(names[1..], best, t, table, f, p);
      var n :| n in names[1..] && Gate(best(n), t) == Some(p.name);
      assert n in names;
    }
  }

  /** A roster name whose best score is below the threshold contributes
      exactly one unmatched row. */
  lemma RejectedIsUnmatched(name: string, best: string -> Candidate, t: real, table: seq<Ranked>, f: Format)
    requires best(name).score < t
    ensures Valuate([name], best, t, table, f) == [Unmatched]
  {
    assert Valuate([name], best, t, table, f) == JoinOne(None, table, f) + Valuate([], best, t, table, f);
  }

  /** When the ranking table has one row per name, the valued roster has
      exactly one row per roster name. */
  lemma {:induction false} ValuateOneRowEach(names: seq<string>, best: string -> Candidate, t: real,
                                             table: seq<Ranked>, f: Format)
    requires forall i, j :: 0 <= i < j < |table| ==> table[i].name != table[j].name
    ensures |Valuate(names, best, t, table, f)| == |names|
  {
    if names != [] {
      ValuateOneRowEach(names[1..], best, t, table, f);
      var m := Gate(best(names[0]), t);
      if m.Some? {
        AtMostOneNamed(table, m.value, f);
      }
    }
  }

  lemma {:induction false} AtMostOneNamed(table: seq<Ranked>, n: string, f: Format)
    requires forall i, j :: 0 <= i < j < |table| ==> table[i].name != table[j].name
    ensures |RowsNamed(table, n, f)| <= 1
  {
    if table != [] {
      assert forall i, j :: 0 <= i < j < |table[1..]| ==> table[1..][i].name != table[1..][j].name by {
        forall i, j | 0 <= i < j < |table[1..]| ensures table[1..][i].name != table[1..][j].name {
          assert table[1..][i] == table[i + 1] && table[1..][j] == table[j + 1];
        }
      }
      AtMostOneNamed(table[1..], n, f);
      if table[0].name == n {
        NoneNamed(table[1..], n, f);
      }
    }
  }

  lemma {:induction false} NoneNamed(table: seq<Ranked>, n: string, f: Format)
    requires forall r :: r in table ==> r.name != n
    ensures RowsNamed(table, n, f) == []
  {
    if table != [] {
      assert table[0] in table;
      NoneNamed(table[1..], n, f);
    }
  }

  /** The free agents' names, or `Failure` when any one cannot be extracted
      (the source raises on it). */
  function FreeAgentNames(printed: seq<string>): (r: Result<seq<string>>)
    ensures r.Success? ==> |r.value| == |printed|
  {
    if printed == [] then Success([])
    else
      var head, tail := ExtractPlayerName(printed[0]), FreeAgentNames(printed[1..]);
      if head.Success? && tail.Success? then Success([head.value] + tail.value) else Failure
  }

  /** The step fails exactly when some extraction fails. */
  lemma {:induction false} FreeAgentNamesSucceed(printed: seq<string>)
    ensures FreeAgentNames(printed).Success? <==>
      forall i :: 0 <= i < |printed| ==> ExtractPlayerName(printed[i]).Success?
  {
    if printed != [] {
      var tail := printed[1..];
      FreeAgentNamesSucceed(tail);
      if ExtractPlayerName(printed[0]).Success? && FreeAgentNames(tail).Success? {
        forall i | 0 <= i < |printed| ensures ExtractPlayerName(printed[i]).Success? {
          if i > 0 {
            assert printed[i] == tail[i - 1];
          }
        }
      } else if FreeAgentNames(tail).Failure? {
        var j :| 0 <= j < |tail| && !ExtractPlayerName(tail[j]).Success?;
        assert printed[j + 1] == tail[j];
      }
    }
  }

  /** The names are extracted one per printed free agent, in order, and the
      step fails exactly when some extraction fails. */
  lemma {:induction false} FreeAgentNamesExtracted(printed: seq<string>)
    ensures FreeAgentNames(printed).Success? <==>
      forall i :: 0 <= i < |printed| ==> ExtractPlayerName(printed[i]).Success?
    ensures FreeAgentNames(printed).Success? ==>
      forall i :: 0 <= i < |printed| ==> ExtractPlayerName(printed[i]) == Success(FreeAgentNames(printed).value[i])
  {
    FreeAgentNamesSucceed(printed);
    if printed != [] && FreeAgentNames(printed).Success? {
      var tail := printed[1..];
      FreeAgentNamesExtracted(tail);
      var head, rest := ExtractPlayerName(printed[0]), FreeAgentNames(tail);
      var v := [head.value] + rest.value;
      assert FreeAgentNames(printed) == Success(v);
      forall i | 0 <= i < |printed|
        ensures ExtractPlayerName(printed[i]) == Success(v[i])
      {
        if i > 0 {
          assert printed[i] == tail[i - 1];
          assert v[i] == rest.value[i - 1];
        }
      }
    }
  }

  /** The valued free-agent pool: the names extracted from the printed free
      agents, each matched with `find_best_match_simple` (its close matches
      `close(n)` and its ratio `ratio(n)`), gated at 0.85 and joined with
      the ranking table; no pool when some name cannot be extracted. */
  function FreeAgentPool(printed: seq<string>, close: string -> seq<string>, ratio: string -> string -> real,
                         table: seq<Ranked>, f: Format): (r: Result<seq<Entry>>)
    ensures r.Success? <==> FreeAgentNames(printed).Success?
  {
    match FreeAgentNames(printed)
    case Success(names) =>
      Success(Valuate(names, n => SimpleBest(close(n), ratio(n)), FreeAgentThreshold, table, f))
    case Failure => Failure
  }

  /** Every matched free agent in the pool is a ranking row valued in the
      league's format, named by the first close match of a name extracted
      from some printed free agent, whose ratio reached 0.85. */
  lemma FreeAgentPoolMatched(printed: seq<string>, close: string -> seq<string>, ratio: string -> string -> real,
                             table: seq<Ranked>, f: Format, x: Player)
    requires FreeAgentPool(printed, close, ratio, table, f).Success?
    requires Matched(x) in FreeAgentPool(printed, close, ratio, table, f).value
    ensures exists r :: r in table && x == Valued(r, f)
    ensures exists i :: 0 <= i < |printed| && ExtractPlayerName(printed[i]).Success? &&
                        (var n := ExtractPlayerName(printed[i]).value;
                         close(n) != [] && close(n)[0] == x.name && ratio(n)(close(n)[0]) >= FreeAgentThreshold)
  {
    var names := FreeAgentNames(printed).value;
    var best := n => SimpleBest(close(n), ratio(n));
    ValuateMatchedRows(names, best, FreeAgentThreshold, table, f, x);
    var n :| n in names && Gate(best(n), FreeAgentThreshold) == Some(x.name);
    SimpleGateKeepsCloseMatch(close(n), ratio(n));
    FreeAgentNamesExtracted(printed);
    var i :| 0 <= i < |names| && names[i] == n;
    assert ExtractPlayerName(printed[i]) == Success(n);
  }
}
