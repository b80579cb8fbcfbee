/**
 * The per-player Tic-Tac-Toe statistics ledger: records are created zeroed on
 * first reference, a win scores 3 points, a draw 1 point each, a loss nothing,
 * and every game played bumps the games counter.
 */
module Stats {
  type PlayerId = string

  datatype Record = Record(wins: nat, losses: nat, draws: nat, games: nat, points: nat)

  /** The record a player gets on first reference. */
  const Zero := Record(0, 0, 0, 0, 0)

  type Table = map<PlayerId, Record>

  /** The record of `id`, zeroed when the player has none yet. */
  function Get(m: Table, id: PlayerId): Record {
    if id in m then m[id] else Zero
  }

  /**
   * What one finished game adds to a participant's record. A player can be both
   * the winner and the loser argument at once; then both shares land on the one record.
   */
  function Credit(r: Record, asWinner: bool, asLoser: bool, isDraw: bool): Record {
    var w := if asWinner then 1 else 0;
    var l := if asLoser then 1 else 0;
    if isDraw then
      r.(draws := r.draws + w + l, games := r.games + w + l, points := r.points + w + l)
    else
      r.(wins := r.wins + w, losses := r.losses + l, games := r.games + w + l, points := r.points + 3 * w)
  }

  /** The ledger after one recorded game: each participant credited, every other record as before. */
  function AfterGame(m: Table, winnerId: PlayerId, loserId: PlayerId, isDraw: bool): (m': Table)
    ensures m'.Keys == m.Keys + {winnerId, loserId}
    ensures forall id :: id in m && id != winnerId && id != loserId ==> m'[id] == m[id]
  {
    map id | id in m.Keys + {winnerId, loserId} :: Credit(Get(m, id), id == winnerId, id == loserId, isDraw)
  }

  /** Every counter of `after` is at least the one of `before`. */
  predicate NoDecrease(before: Record, after: Record) {
    before.wins <= after.wins && before.losses <= after.losses && before.draws <= after.draws &&
    before.games <= after.games && before.points <= after.points
  }

  /** A record's games are its wins, losses and draws. */
  predicate Balanced(r: Record) {
    r.games == r.wins + r.losses + r.draws
  }

  /** A record's points are three per win and one per draw. */
  predicate Scored(r: Record) {
    r.points == 3 * r.wins + r.draws
  }

  /** The two invariants hold of every record of the ledger. */
  predicate Consistent(m: Table) {
    forall id :: id in m ==> Balanced(m[id]) && Scored(m[id])
  }

  /** A win between two players: the winner gets a win, a game and 3 points, the loser a loss and a game. */
  lemma WinScoring(m: Table, winnerId: PlayerId, loserId: PlayerId)
    requires winnerId != loserId
    ensures var m', w, l := AfterGame(m, winnerId, loserId, false), Get(m, winnerId), Get(m, loserId);
      m'[winnerId] == Record(w.wins + 1, w.losses, w.draws, w.games + 1, w.points + 3) &&
      m'[loserId] == Record(l.wins, l.losses + 1, l.draws, l.games + 1, l.points)
  {
  }

  /** A draw between two players: each gets a draw, a game and a point, wins and losses unchanged. */
  lemma DrawScoring(m: Table, a: PlayerId, b: PlayerId)
    requires a != b
    ensures var m', ra, rb := AfterGame(m, a, b, true), Get(m, a), Get(m, b);
      m'[a] == Record(ra.wins, ra.losses, ra.draws + 1, ra.games + 1, ra.points + 1) &&
      m'[b] == Record(rb.wins, rb.losses, rb.draws + 1, rb.games + 1, rb.points + 1)
  {
  }

  /** The same id as winner and loser of a decided game gets both shares on one record. */
  lemma SelfGame(m: Table, id: PlayerId)
    ensures var r := Get(m, id);
      AfterGame(m, id, id, false)[id] == Record(r.wins + 1, r.losses + 1, r.draws, r.games + 2, r.points + 3) &&
      AfterGame(m, id, id, true)[id] == Record(r.wins, r.losses, r.draws + 2, r.games + 2, r.points + 2)
  {
  }

  /** No counter of any record ever decreases. */
  lemma Monotone(m: Table, winnerId: PlayerId, loserId: PlayerId, isDraw: bool)
    ensures forall id :: id in m ==> NoDecrease(m[id], AfterGame(m, winnerId, loserId, isDraw)[id])
    ensures forall id :: id in AfterGame(m, winnerId, loserId, isDraw) ==> NoDecrease(Get(m, id), AfterGame(m, winnerId, loserId, isDraw)[id])
  {
  }

  /** A recorded game keeps every record balanced and scored. */
  lemma PreservesConsistent(m: Table, winnerId: PlayerId, loserId: PlayerId, isDraw: bool)
    requires Consistent(m)
    ensures Consistent(AfterGame(m, winnerId, loserId, isDraw))
  {
    var m' := AfterGame(m, winnerId, loserId, isDraw);
    forall id | id in m' ensures Balanced(m'[id]) && Scored(m'[id]) {
      if id == winnerId || id == loserId {
        CreditKeeps(Get(m, id), id == winnerId, id == loserId, isDraw);
      } else {
        assert m'[id] == m[id];
      }
    }
  }

  /** Crediting a balanced, scored record leaves it balanced and scored. */
  lemma CreditKeeps(r: Record, asWinner: bool, asLoser: bool, isDraw: bool)
    requires Balanced(r) && Scored(r)
    ensures Balanced(Credit(r, asWinner, asLoser, isDraw)) && Scored(Credit(r, asWinner, asLoser, isDraw))
  {
  }

  /** One finished game as the caller reports it. */
  datatype Game = Game(winnerId: PlayerId, loserId: PlayerId, isDraw: bool)

  /** The ledger after recording `games` in order. */
  function Replay(m: Table, games: seq<Game>): Table
    decreases |games|
  {
    if games == [] then m
    else
      var g := games[|games| - 1];
      AfterGame(Replay(m, games[..|games| - 1]), g.winnerId, g.loserId, g.isDraw)
  }

  /** How often `id` is named in `games`, as winner and as loser both counting. */
  function Appearances(games: seq<Game>, id: PlayerId): nat
    decreases |games|
  {
    if games == [] then 0
    else
      var g := games[|games| - 1];
      Appearances(games[..|games| - 1], id) + (if g.winnerId == id then 1 else 0) + (if g.loserId == id then 1 else 0)
  }

  /** After any sequence of games every record is still balanced and scored. */
  lemma {:induction false} ReplayConsistent(m: Table, games: seq<Game>)
    requires Consistent(m)
    ensures Consistent(Replay(m, games))
    decreases |games|
  {
    if games != [] {
      var g := games[|games| - 1];
      ReplayConsistent(m, games[..|games| - 1]);
      PreservesConsistent(Replay(m, games[..|games| - 1]), g.winnerId, g.loserId, g.isDraw);
    }
  }

  /** A player's games counter grows by exactly the number of times the player is named. */
  lemma {:induction false} ReplayGames(m: Table, games: seq<Game>, id: PlayerId)
    ensures Get(Replay(m, games), id).games == Get(m, id).games + Appearances(games, id)
    decreases |games|
  {
    if games != [] {
      ReplayGames(m, games[..|games| - 1], id);
    }
  }

  /** `AfterGame` as the two map updates it amounts to, after the zeroed records are in place. */
  lemma AfterGameByUpdates(m: Table, winnerId: PlayerId, loserId: PlayerId, isDraw: bool)
    ensures var base := m[winnerId := Get(m, winnerId)][loserId := Get(m, loserId)];
      AfterGame(m, winnerId, loserId, isDraw) ==
        if winnerId == loserId then base[winnerId := Credit(base[winnerId], true, true, isDraw)]
        else base[winnerId := Credit(base[winnerId], true, false, isDraw)][loserId := Credit(base[loserId], false, true, isDraw)]
  {
  }

  /** A table that agrees with `base` off the two ids and holds the credited records on them is the two updates. */
  lemma CreditedAs(base: Table, after: Table, winnerId: PlayerId, loserId: PlayerId, isDraw: bool)
    requires winnerId in base && loserId in base
    requires after.Keys == base.Keys
    requires forall id :: id in base && id != winnerId && id != loserId ==> after[id] == base[id]
    requires after[winnerId] == Credit(base[winnerId], true, winnerId == loserId, isDraw)
    requires after[loserId] == Credit(base[loserId], winnerId == loserId, true, isDraw)
    ensures after ==
      if winnerId == loserId then base[winnerId := Credit(base[winnerId], true, true, isDraw)]
      else base[winnerId := Credit(base[winnerId], true, false, isDraw)][loserId := Credit(base[loserId], false, true, isDraw)]
  {
  }

  /** The statistics store: one record per player id, updated in place after each game. */
  class StatsLedger {
    var stats: Table

    constructor ()
      ensures stats == map[]
    {
      stats := map[];
    }

    /** Records a finished game: a draw between the two ids, or a win of `winnerId` over `loserId`. */
    method UpdateHistory(winnerId: PlayerId, loserId: PlayerId, isDraw: bool)
      modifies this
      ensures stats == AfterGame(old(stats), winnerId, loserId, isDraw)
    {
      ghost var before := stats;
      var t := stats;
      if winnerId !in t { t := t[winnerId := Zero]; }
      if loserId !in t { t := t[loserId := Zero]; }
      ghost var base := t;
      assert base == before[winnerId := Get(before, winnerId)][loserId := Get(before, loserId)];
      if isDraw {
        t := t[winnerId := t[winnerId].(draws := t[winnerId].draws + 1)];
        t := t[loserId := t[loserId].(draws := t[loserId].draws + 1)];
        t := t[winnerId := t[winnerId].(games := t[winnerId].games + 1)];
        t := t[loserId := t[loserId].(games := t[loserId].games + 1)];
        t := t[winnerId := t[winnerId].(points := t[winnerId].points + 1)];
        t := t[loserId := t[loserId].(points := t[loserId].points + 1)];
        CreditedAs(base, t, winnerId, loserId, isDraw);
      } else {
        t := t[winnerId := t[winnerId].(wins := t[winnerId].wins + 1)];
        t := t[winnerId := t[winnerId].(games := t[winnerId].games + 1)];
        t := t[winnerId := t[winnerId].(points := t[winnerId].points + 3)];
        t := t[loserId := t[loserId].(losses := t[loserId].losses + 1)];
        t := t[loserId := t[loserId].(games := t[loserId].games + 1)];
        CreditedAs(base, t, winnerId, loserId, isDraw);
      }
      stats := t;
      AfterGameByUpdates(before, winnerId, loserId, isDraw);
    }
  }
}
