/**
 * The authoritative game state of the two-player card duel (server.py):
 * the per-player table, the connection registry, `game_started`, and the
 * handlers that change them. The model treats each handler as one atomic
 * step; the server's lock covers only parts of them.
 */
module CardDuel {
  import opened Options
  import Rps

  const InitialHp := 100
  const BaseDamagePerRound := 10
  const PowerAttackDamage := 20
  const CounterDamage := 5
  const CardsInHand := 3

  /** A player identity. */
  type Pid = i: int | 0 <= i < 2

  /** A live connection (socket); only its identity matters. */
  type Conn = nat

  /** A card's effect; any other effect text behaves like `none`, since the server only compares against the two names. */
  datatype Effect = NoEffect | PowerAttack | CounterDamage5

  /** A card as clients send it back: `rps_value` (0 Rock, 1 Paper, 2 Scissors) and `effect`. */
  datatype Card = Card(rps: int, effect: Effect)

  /** `ALL_POSSIBLE_CARDS`: every rank with every effect. */
  const AllCards: seq<Card> := [
    Card(0, NoEffect), Card(1, NoEffect), Card(2, NoEffect),
    Card(0, PowerAttack), Card(1, PowerAttack), Card(2, PowerAttack),
    Card(0, CounterDamage5), Card(1, CounterDamage5), Card(2, CounterDamage5)
  ]

  /** What `random.sample(ALL_POSSIBLE_CARDS, NUM_CARDS_IN_HAND)` can return: three distinct catalog cards. */
  predicate IsHand(h: seq<Card>) {
    && |h| == CardsInHand
    && (forall i :: 0 <= i < |h| ==> h[i] in AllCards)
    && (forall i, j :: 0 <= i < j < |h| ==> h[i] != h[j])
  }

  /** One entry of `player_data`. */
  datatype Player = Player(username: string, ready: bool, hp: int, choice: Option<Card>, hand: seq<Card>)

  function DefaultName(pid: Pid): string {
    if pid == 0 then "Player 0" else "Player 1"
  }

  /** A player as a new game finds it. */
  function FreshPlayer(pid: Pid): Player {
    Player(DefaultName(pid), false, InitialHp, None, [])
  }

  function FreshPlayers(): seq<Player> {
    [FreshPlayer(0), FreshPlayer(1)]
  }

  // ---------------------------------------------------------------------
  // Round resolution
  // ---------------------------------------------------------------------

  /**
   * `winner_id`: -1 for equal ranks; otherwise 0 when player 0's rank beats
   * player 1's by the rule table, and 1 in every other case (including a
   * rank the table does not know).
   */
  function RoundWinner(c0: Card, c1: Card): (w: int)
    ensures w == -1 || w == 0 || w == 1
    ensures w == -1 <==> c0.rps == c1.rps
    ensures w == 0 <==> Rps.Defeats(c0.rps, c1.rps)
    ensures Rps.IsRank(c0.rps) && Rps.IsRank(c1.rps) ==> (w == 1 <==> Rps.Defeats(c1.rps, c0.rps))
  {
    Rps.BeatenIsDefeats(c0.rps, c1.rps);
    if c0.rps == c1.rps then -1
    else if c1.rps in Rps.Beaten(c0.rps) then 0
    else 1
  }

  /** Damage the loser takes: doubled by the winner's power attack. */
  function DamageToLoser(winnerCard: Card): int {
    if winnerCard.effect == PowerAttack then PowerAttackDamage else BaseDamagePerRound
  }

  /** Damage the winner takes back from the loser's counter card. */
  function DamageToWinner(loserCard: Card): int {
    if loserCard.effect == CounterDamage5 then CounterDamage else 0
  }

  /** `max(0, x)` */
  function Clamp(x: int): int {
    if x < 0 then 0 else x
  }

  /** The result message, by kind (the exact wording is not modelled). */
  datatype Announcement =
    | Tie
    | RoundWon(winner: Pid, damage: int, counter: int)
    | GameWon(winner: Pid)
    | BothKnockedOut

  /** The `round_result` broadcast. */
  datatype RoundResult = RoundResult(
    choice0: Card, choice1: Card, rpsWinner: int,
    hp0: int, hp1: int, message: Announcement, gameOver: bool)

  /**
   * `process_round_end` once both choices are in: compare ranks, apply the
   * damage of the round clamped at 0, and decide whether the game is over
   * and how.
   */
  function Resolve(hp0: int, hp1: int, c0: Card, c1: Card): (r: RoundResult)
    ensures r.choice0 == c0 && r.choice1 == c1 && r.rpsWinner == RoundWinner(c0, c1)
    // a tie deals no damage
    ensures r.rpsWinner == -1 ==> r.hp0 == hp0 && r.hp1 == hp1
    // the loser takes 20 after a power attack, else 10; the winner takes 5 back from a counter card
    ensures r.rpsWinner == 0 ==>
      r.hp1 == Clamp(hp1 - (if c0.effect == PowerAttack then 20 else 10)) &&
      r.hp0 == Clamp(hp0 - (if c1.effect == CounterDamage5 then 5 else 0))
    ensures r.rpsWinner == 1 ==>
      r.hp0 == Clamp(hp0 - (if c1.effect == PowerAttack then 20 else 10)) &&
      r.hp1 == Clamp(hp1 - (if c0.effect == CounterDamage5 then 5 else 0))
    // health never rises and never goes below 0
    ensures 0 <= hp0 ==> 0 <= r.hp0 <= hp0
    ensures 0 <= hp1 ==> 0 <= r.hp1 <= hp1
    // the game is over exactly when someone is out of health
    ensures r.gameOver <==> r.hp0 <= 0 || r.hp1 <= 0
    ensures r.message == BothKnockedOut <==> r.hp0 <= 0 && r.hp1 <= 0
    ensures r.message == GameWon(0) <==> r.hp0 > 0 && r.hp1 <= 0
    ensures r.message == GameWon(1) <==> r.hp1 > 0 && r.hp0 <= 0
    ensures !r.gameOver ==> (r.message == Tie <==> r.rpsWinner == -1)
    ensures !r.gameOver && r.rpsWinner != -1 ==> r.message.RoundWon? && r.message.winner == r.rpsWinner
    // the announcement reports the damage dealt to the loser and the counter-damage to the winner
    ensures r.message.RoundWon? ==>
      var winnerCard := if r.message.winner == 0 then c0 else c1;
      var loserCard := if r.message.winner == 0 then c1 else c0;
      && r.message.damage == (if winnerCard.effect == PowerAttack then 20 else 10)
      && r.message.counter == (if loserCard.effect == CounterDamage5 then 5 else 0)
  {
    var w := RoundWinner(c0, c1);
    var h0 :=
      if w == -1 then hp0
      else if w == 0 then Clamp(hp0 - DamageToWinner(c1))
      else Clamp(hp0 - DamageToLoser(c1));
    var h1 :=
      if w == -1 then hp1
      else if w == 0 then Clamp(hp1 - DamageToLoser(c0))
      else Clamp(hp1 - DamageToWinner(c0));
    var roundMessage :=
      if w == -1 then Tie
      else if w == 0 then RoundWon(0, DamageToLoser(c0), DamageToWinner(c1))
      else RoundWon(1, DamageToLoser(c1), DamageToWinner(c0));
    var over := h0 <= 0 || h1 <= 0;
    var message :=
      if !over then roundMessage
      else if h0 <= 0 && h1 <= 0 then BothKnockedOut
      else if h0 <= 0 then GameWon(1)
      else GameWon(0);
    RoundResult(c0, c1, w, h0, h1, message, over)
  }

  /**
   * With the opponent already at 0 health, as `insta_win` leaves it, the
   * round always ends the game: the opponent stays at 0 and the requester
   * either wins the game or both are knocked out.
   */
  lemma ForcedRoundEndsGame(hp0: int, hp1: int, c0: Card, c1: Card, requester: Pid)
    requires (if requester == 0 then hp1 else hp0) == 0
    ensures var r := Resolve(hp0, hp1, c0, c1);
      && r.gameOver
      && (if requester == 0 then r.hp1 else r.hp0) == 0
      && (r.message == GameWon(requester) || r.message == BothKnockedOut)
  {
  }

  // ---------------------------------------------------------------------
  // Identity assignment
  // ---------------------------------------------------------------------

  /** `0 if 0 not in current_pids else 1`: the lowest identity not in use. */
  function LowestFreeId(used: set<Pid>): (id: Pid)
    ensures id == 0 <==> 0 !in used
    ensures |used| < 2 ==> id !in used
  {
    if 0 !in used then 0
    else
      assert |used| < 2 ==> 1 !in used by {
        if 1 in used && |used| < 2 {
          assert {0, 1} <= used;
          SubsetCardinality({0, 1}, used);
        }
      }
      1
  }

  lemma {:induction false} SubsetCardinality<T>(a: set<T>, b: set<T>)
    requires a <= b
    ensures |a| <= |b|
    decreases |b|
  {
    if a != {} {
      var x :| x in a;
      SubsetCardinality(a - {x}, b - {x});
    }
  }

  /** A registry of fewer than two connections uses fewer than two identities. */
  lemma SmallRegistry(m: map<Conn, Pid>)
    requires |m| < 2
    ensures |m.Values| < 2
  {
    if |m| == 1 {
      assert m != map[];
      var c :| c in m.Keys;
      assert m.Keys == {c} by {
        forall d | d in m ensures d == c {
          if d != c {
            SubsetCardinality({c, d}, m.Keys);
          }
        }
      }
      assert m.Values == {m[c]};
    } else {
      assert m == map[];
    }
  }

  // ---------------------------------------------------------------------
  // The server state
  // ---------------------------------------------------------------------

  /**
   * What `start_server` does with a new connection; `Blocked`: the accept
   * loop waits for ever for the clients lock.
   */
  datatype Admission = Admitted(pid: Pid) | ServerFull | Blocked

  /** `ready`: a supplied non-empty name replaces the username. */
  function WithName(p: Player, name: Option<string>): Player {
    if name.Some? && name.value != "" then p.(username := name.value) else p
  }

  /** A (re)joining player keeps health and hand; readiness, choice and name are reset. */
  function Rejoined(p: Player, pid: Pid): Player {
    p.(ready := false, choice := None, username := DefaultName(pid))
  }

  /** `after` is `before` with a freshly dealt hand. */
  predicate Redealt(before: Player, after: Player) {
    after == before.(hand := after.hand) && IsHand(after.hand)
  }

  /** `insta_win` fills a missing choice with a placeholder card. */
  function OrPlaceholder(choice: Option<Card>, placeholder: Card): Card {
    if choice.Some? then choice.value else placeholder
  }

  class DuelServer {
    /** `player_data[0]` and `player_data[1]` */
    var players: seq<Player>
    /** `clients`: connection to identity */
    var clients: map<Conn, Pid>
    var gameStarted: bool
    /**
     * A handler thread waits for ever while holding `clients_lock`, so every
     * later attempt to take the lock waits too. Only the disconnect handler
     * as written gets here.
     */
    var hung: bool

    /**
     * The invariants every step keeps, except in the middle of a round
     * where both choices are briefly present.
     */
    ghost predicate Consistent()
      reads this
    {
      && |players| == 2
      && |clients| <= 2
      && (forall c, d :: c in clients && d in clients && c != d ==> clients[c] != clients[d])
      && 0 <= players[0].hp <= InitialHp
      && 0 <= players[1].hp <= InitialHp
      && (gameStarted ==> |clients| == 2 && IsHand(players[0].hand) && IsHand(players[1].hand))
      && (hung ==> !gameStarted)
    }

    /** Between steps: a round never stays with both choices made. */
    ghost predicate Valid()
      reads this
    {
      Consistent() && (players[0].choice.None? || players[1].choice.None?)
    }

    /** The state after a resolved round: a reset on game over, else cleared choices and new hands. */
    ghost predicate RoundApplied(before: seq<Player>, startedBefore: bool, r: RoundResult)
      requires |before| == 2
      reads this
    {
      && |players| == 2
      && if r.gameOver then !gameStarted && players == FreshPlayers()
         else
           && gameStarted == startedBefore
           && Redealt(before[0].(hp := r.hp0, choice := None), players[0])
           && Redealt(before[1].(hp := r.hp1, choice := None), players[1])
    }

    constructor ()
      ensures Valid()
      ensures players == FreshPlayers() && clients == map[] && !gameStarted && !hung
    {
      players := FreshPlayers();
      clients := map[];
      gameStarted := false;
      hung := false;
    }

    /** `deal_cards`: each player gets a fresh sample of three distinct catalog cards. */
    method DealCards()
      requires |players| == 2
      modifies this
      ensures |players| == 2 && Redealt(old(players)[0], players[0]) && Redealt(old(players)[1], players[1])
      ensures clients == old(clients) && gameStarted == old(gameStarted) && hung == old(hung)
    {
      for i := 0 to 2
        invariant |players| == 2
        invariant forall j :: 0 <= j < i ==> Redealt(old(players)[j], players[j])
        invariant forall j :: i <= j < 2 ==> players[j] == old(players)[j]
        invariant clients == old(clients) && gameStarted == old(gameStarted) && hung == old(hung)
      {
        assert IsHand(AllCards[..CardsInHand]);
        var hand: seq<Card> :| IsHand(hand);
        players := players[i := players[i].(hand := hand)];
      }
    }

    /**
     * Accepting a connection: register it with the lowest free identity
     * while fewer than two are connected. With the lock held for ever,
     * nobody is admitted again.
     */
    method Accept(conn: Conn) returns (outcome: Admission)
      requires Valid() && conn !in clients
      modifies this
      ensures Valid() && gameStarted == old(gameStarted) && hung == old(hung)
      ensures old(hung) ==>
        outcome == Blocked && clients == old(clients) && players == old(players)
      ensures !old(hung) && |old(clients)| < 2 ==>
        && outcome == Admitted(LowestFreeId(old(clients).Values))
        && clients == old(clients)[conn := outcome.pid]
        && players == old(players)[outcome.pid := Rejoined(old(players)[outcome.pid], outcome.pid)]
      ensures !old(hung) && |old(clients)| >= 2 ==>
        outcome == ServerFull && clients == old(clients) && players == old(players)
    {
      if hung {
        outcome := Blocked;
      } else if |clients| < 2 {
        SmallRegistry(clients);
        var pid := LowestFreeId(clients.Values);
        clients := clients[conn := pid];
        players := players[pid := Rejoined(players[pid], pid)];
        outcome := Admitted(pid);
      } else {
        outcome := ServerFull;
      }
    }

    /**
     * `handle_disconnect` with its broadcast moved after the lock is
     * released: a registered connection leaves, both players start over,
     * and the server stays live.
     */
    method Disconnect(conn: Conn)
      requires Valid()
      modifies this
      ensures Valid() && hung == old(hung)
      ensures !old(hung) && conn in old(clients) ==>
        clients == old(clients) - {conn} && !gameStarted && players == FreshPlayers()
      ensures old(hung) || conn !in old(clients) ==>
        clients == old(clients) && players == old(players) && gameStarted == old(gameStarted)
    {
      if !hung && conn in clients {
        SubsetCardinality((clients - {conn}).Keys, clients.Keys);
        clients := clients - {conn};
        gameStarted := false;
        players := FreshPlayers();
      }
    }

    /**
     * `handle_disconnect` as written: the reset happens, then the broadcast
     * inside the `with clients_lock` block asks again for the lock the
     * handler already holds, which a plain lock never grants.
     */
    method DisconnectAsWritten(conn: Conn)
      requires Valid()
      modifies this
      ensures Valid()
      ensures !old(hung) && conn in old(clients) ==>
        clients == old(clients) - {conn} && !gameStarted && players == FreshPlayers() && hung
      ensures old(hung) || conn !in old(clients) ==>
        clients == old(clients) && players == old(players) && gameStarted == old(gameStarted) && hung == old(hung)
    {
      var registered := !hung && conn in clients;
      Disconnect(conn);
      if registered {
        hung := true;
      }
    }

    /**
     * The `ready` message: record name and readiness; with two clients both
     * ready, start the game. With the lock held for ever, the handler
     * stops at its broadcast, after recording.
     */
    method Ready(pid: Pid, name: Option<string>) returns (started: bool)
      requires Valid()
      modifies this
      ensures Valid() && clients == old(clients) && hung == old(hung)
      ensures var marked := old(players)[pid := WithName(old(players)[pid], name).(ready := true)];
        && started == (!hung && |clients| == 2 && marked[0].ready && marked[1].ready)
        && (!started ==> players == marked && gameStarted == old(gameStarted))
        && (started ==>
              && gameStarted
              && Redealt(marked[0].(ready := false), players[0])
              && Redealt(marked[1].(ready := false), players[1]))
    {
      players := players[pid := WithName(players[pid], name).(ready := true)];
      started := !hung && |clients| == 2 && players[0].ready && players[1].ready;
      if started {
        gameStarted := true;
        players := [players[0].(ready := false), players[1].(ready := false)];
        DealCards();
      }
    }

    /**
     * `process_round_end`: nothing happens unless both choices are in;
     * otherwise the round is resolved and applied.
     */
    method ProcessRoundEnd() returns (result: Option<RoundResult>)
      requires Consistent()
      modifies this
      ensures Valid() && clients == old(clients) && hung == old(hung)
      ensures old(players[0].choice).None? || old(players[1].choice).None? ==>
        result == None && players == old(players) && gameStarted == old(gameStarted)
      ensures old(players[0].choice).Some? && old(players[1].choice).Some? ==>
        && result == Some(Resolve(old(players[0].hp), old(players[1].hp),
                                  old(players[0].choice).value, old(players[1].choice).value))
        && RoundApplied(old(players), old(gameStarted), result.value)
    {
      if players[0].choice.None? || players[1].choice.None? {
        return None;
      }
      var r := Resolve(players[0].hp, players[1].hp, players[0].choice.value, players[1].choice.value);
      players := [players[0].(hp := r.hp0), players[1].(hp := r.hp1)];
      if r.gameOver {
        gameStarted := false;
        players := FreshPlayers();
      } else {
        players := [players[0].(choice := None), players[1].(choice := None)];
        DealCards();
      }
      result := Some(r);
    }

    /**
     * The `choice` message: honoured only while a game runs and only as the
     * player's first choice this round; the second choice of a round
     * resolves it.
     */
    method Choice(pid: Pid, card: Card) returns (result: Option<RoundResult>)
      requires Valid()
      modifies this
      ensures Valid() && clients == old(clients) && hung == old(hung)
      ensures !old(gameStarted) || old(players[pid].choice).Some? ==>
        result == None && players == old(players) && gameStarted == old(gameStarted)
      ensures old(gameStarted) && old(players[pid].choice).None? && old(players[1 - pid].choice).None? ==>
        result == None && gameStarted && players == old(players)[pid := old(players[pid]).(choice := Some(card))]
      ensures old(gameStarted) && old(players[pid].choice).None? && old(players[1 - pid].choice).Some? ==>
        var chosen := old(players)[pid := old(players[pid]).(choice := Some(card))];
        && result == Some(Resolve(chosen[0].hp, chosen[1].hp, chosen[0].choice.value, chosen[1].choice.value))
        && RoundApplied(chosen, true, result.value)
    {
      result := None;
      if gameStarted && players[pid].choice.None? {
        players := players[pid := players[pid].(choice := Some(card))];
        if players[0].choice.Some? && players[1].choice.Some? {
          result := ProcessRoundEnd();
        }
      }
    }

    /**
     * The `insta_win` message while a game runs: the opponent drops to 0
     * health, missing choices become Rock (requester) and Scissors
     * (opponent), and the round is resolved, which always ends the game
     * in the requester's favour or in a draw.
     */
    method InstaWin(pid: Pid) returns (result: Option<RoundResult>)
      requires Valid()
      modifies this
      ensures Valid() && clients == old(clients) && hung == old(hung)
      ensures !old(gameStarted) ==>
        result == None && players == old(players) && gameStarted == old(gameStarted)
      ensures old(gameStarted) ==>
        var mine := OrPlaceholder(old(players[pid].choice), Card(Rps.Rock, NoEffect));
        var theirs := OrPlaceholder(old(players[1 - pid].choice), Card(Rps.Scissors, NoEffect));
        var c0 := if pid == 0 then mine else theirs;
        var c1 := if pid == 0 then theirs else mine;
        var hp0 := if pid == 0 then old(players[0].hp) else 0;
        var hp1 := if pid == 0 then 0 else old(players[1].hp);
        && result == Some(Resolve(hp0, hp1, c0, c1))
        && result.value.gameOver
        && (result.value.message == GameWon(pid) || result.value.message == BothKnockedOut)
        && !gameStarted && players == FreshPlayers()
    {
      if !gameStarted {
        return None;
      }
      var opponent: Pid := 1 - pid;
      // A player who has not chosen yet plays Rock; a silent opponent plays Scissors.
      var mine := OrPlaceholder(players[pid].choice, Card(Rps.Rock, NoEffect));
      var theirs := OrPlaceholder(players[opponent].choice, Card(Rps.Scissors, NoEffect));
      players := players[pid := players[pid].(choice := Some(mine))]
                        [opponent := players[opponent].(hp := 0, choice := Some(theirs))];
      ForcedRoundEndsGame(players[0].hp, players[1].hp, players[0].choice.value, players[1].choice.value, pid);
      result := ProcessRoundEnd();
    }
  }

  /**
   * As written: two players join, one leaves, and the server never admits
   * anyone again; the remaining player's `ready` never starts a game.
   */
  method DeadlockAfterDisconnect() returns (later: Admission, started: bool)
    ensures later == Blocked && !started
  {
    var server := new DuelServer();
    var first := server.Accept(1);
    var second := server.Accept(2);
    server.DisconnectAsWritten(2);
    later := server.Accept(3);
    started := server.Ready(0, None);
  }

  /**
   * With the broadcast outside the lock: after the same disconnect a new
   * client takes the free identity, and a new game can start.
   */
  method RejoinAfterDisconnect() returns (later: Admission, started: bool)
    ensures later == Admitted(1) && started
  {
    var server := new DuelServer();
    var first := server.Accept(1);
    var second := server.Accept(2);
    server.Disconnect(2);
    assert server.clients == map[1 := 0];
    assert server.clients.Values == {0};
    later := server.Accept(3);
    assert |server.clients| == 2 && !server.hung;
    var unused := server.Ready(0, None);
    assert server.players[0].ready && |server.clients| == 2 && !server.hung;
    started := server.Ready(1, None);
  }
}
