/**
 * The earlier score-keeping rock-paper-scissors server (PROGJARiz/server.py):
 * `determine_winner`, the shared game state (`player_choices`,
 * `player_scores`, `player_ready_count`, `game_started`), the handling of
 * newline-delimited messages, the disconnect reset and the alternating
 * identity assignment.
 */
module ScoreGame {
  import Rps

  /** A player identity. */
  type Pid = i: int | 0 <= i < 2

  /** A live connection; only its identity matters. */
  type Conn = nat

  // ---------------------------------------------------------------------
  // Round winner
  // ---------------------------------------------------------------------

  /**
   * `determine_winner`: 0 when the first choice beats the second by the rule
   * table, 1 when the second beats the first, and -1 otherwise (equal
   * choices, or a value the table does not know).
   */
  function DetermineWinner(c0: int, c1: int): (w: int)
    ensures w == -1 || w == 0 || w == 1
    ensures w == 0 <==> Rps.Defeats(c0, c1)
    ensures w == 1 <==> Rps.Defeats(c1, c0)
    ensures w == -1 <==> c0 == c1 || !Rps.IsRank(c0) || !Rps.IsRank(c1)
  {
    Rps.BeatenIsDefeats(c0, c1);
    Rps.BeatenIsDefeats(c1, c0);
    if c0 == c1 then -1
    else if c1 in Rps.Beaten(c0) then 0
    else if c0 in Rps.Beaten(c1) then 1
    else -1
  }

  /** Swapping the players swaps the verdict: 0 for (a, b) is 1 for (b, a), and a tie stays a tie. */
  lemma WinnerIsAntisymmetric(a: int, b: int)
    ensures DetermineWinner(a, b) == 0 <==> DetermineWinner(b, a) == 1
    ensures DetermineWinner(a, b) == -1 <==> DetermineWinner(b, a) == -1
  {
  }

  // ---------------------------------------------------------------------
  // Game state and one message
  // ---------------------------------------------------------------------

  /** `player_scores`: one counter per identity. */
  datatype Score = Score(zero: nat, one: nat)
  {
    function Of(pid: Pid): nat {
      if pid == 0 then zero else one
    }

    /** `player_scores[pid] += 1` */
    function Inc(pid: Pid): (s: Score)
      ensures s.Of(pid) == Of(pid) + 1
      ensures s.Of(1 - pid) == Of(1 - pid)
    {
      if pid == 0 then this.(zero := zero + 1) else this.(one := one + 1)
    }

    function Total(): nat {
      zero + one
    }
  }

  /** The shared game state of the server. */
  datatype Table = Table(choices: map<Pid, int>, scores: Score, readyCount: nat, started: bool)

  /** The state at start-up and after every disconnect. */
  function Initial(): Table {
    Table(map[], Score(0, 0), 0, false)
  }

  /**
   * A decoded message. `Other` stands for anything the handler does not
   * act on: an unknown type, a `choice` without a `choice` field, text
   * that is not JSON.
   */
  datatype Msg = Choose(value: int) | Ready | NextRound | Other

  /** The broadcasts a message can cause. */
  datatype Event = Silent | GameStart | RoundOver(choice0: int, choice1: int, winner: int)

  datatype Outcome = Outcome(table: Table, event: Event)

  /** Both identities have a recorded choice (`len(player_choices) == 2`). */
  predicate BothChosen(choices: map<Pid, int>) {
    0 in choices && 1 in choices
  }

  /** The states the server can be in. */
  predicate Inv(t: Table) {
    && t.readyCount <= 2
    && (t.started <==> t.readyCount == 2)
    && (!t.started ==> t.choices == map[])
  }

  /**
   * One message from player `pid`, as the handler processes it. A choice
   * outside 0..2 is recorded, and then the lookup of its name fails, which
   * abandons the rest of that message, so the round is not resolved.
   */
  function Step(t: Table, pid: Pid, msg: Msg): (o: Outcome)
    // a choice counts only while a game runs and only once per round
    ensures msg.Choose? && (!t.started || pid in t.choices) ==> o == Outcome(t, Silent)
    ensures msg.Choose? && t.started && pid !in t.choices && !BothChosen(t.choices[pid := msg.value]) ==>
      o == Outcome(t.(choices := t.choices[pid := msg.value]), Silent)
    // a choice outside 0..2 is recorded but never resolves the round
    ensures msg.Choose? && t.started && pid !in t.choices && !Rps.IsRank(msg.value) ==>
      o == Outcome(t.(choices := t.choices[pid := msg.value]), Silent)
    // a valid choice that completes the pair always resolves the round
    ensures msg.Choose? && t.started && pid !in t.choices && Rps.IsRank(msg.value) && BothChosen(t.choices[pid := msg.value]) ==>
      o.event.RoundOver?
    // the second valid choice resolves the round: the winner scores one, a tie nobody, and the choices are cleared
    ensures o.event.RoundOver? ==>
      && msg.Choose? && t.started && pid !in t.choices
      && o.event.choice0 == t.choices[pid := msg.value][0]
      && o.event.choice1 == t.choices[pid := msg.value][1]
      && o.event.winner == DetermineWinner(o.event.choice0, o.event.choice1)
      && o.table == t.(choices := map[], scores := if o.event.winner == -1 then t.scores else t.scores.Inc(o.event.winner))
    // scores move only when a round is resolved
    ensures !o.event.RoundOver? ==> o.table.scores == t.scores
    // ready counts only before the game has started; the game starts exactly when the count reaches 2
    ensures msg == Ready ==> o.table == (if t.started then t else t.(readyCount := t.readyCount + 1, started := t.readyCount + 1 == 2))
    ensures o.event == GameStart <==> msg == Ready && !t.started && t.readyCount == 1
    ensures msg == NextRound || msg == Other ==> o == Outcome(t, Silent)
  {
    match msg
    case Choose(v) =>
      if !t.started || pid in t.choices then Outcome(t, Silent)
      else
        var chosen := t.choices[pid := v];
        if !Rps.IsRank(v) then Outcome(t.(choices := chosen), Silent)
        else if BothChosen(chosen) then
          var w := DetermineWinner(chosen[0], chosen[1]);
          var scores := if w == -1 then t.scores else t.scores.Inc(w);
          Outcome(t.(choices := map[], scores := scores), RoundOver(chosen[0], chosen[1], w))
        else Outcome(t.(choices := chosen), Silent)
    case Ready =>
      if t.started then Outcome(t, Silent)
      else
        var count := t.readyCount + 1;
        Outcome(t.(readyCount := count, started := count == 2), if count == 2 then GameStart else Silent)
    case NextRound => Outcome(t, Silent)
    case Other => Outcome(t, Silent)
  }

  /** Every message keeps the state reachable. */
  lemma StepKeepsInv(t: Table, pid: Pid, msg: Msg)
    requires Inv(t)
    ensures Inv(Step(t, pid, msg).table)
  {
  }

  /** A message from one player, in arrival order. */
  datatype Input = Input(pid: Pid, msg: Msg)

  /**
   * The state after a sequence of messages, handled one at a time in
   * arrival order. Before the game starts only `ready` has any effect.
   */
  function Run(t: Table, inputs: seq<Input>): (r: Table)
    ensures !t.started && (forall i :: 0 <= i < |inputs| ==> inputs[i].msg != Ready) ==> r == t
    decreases |inputs|
  {
    if inputs == [] then t
    else Run(Step(t, inputs[0].pid, inputs[0].msg).table, inputs[1..])
  }

  lemma {:induction false} RunKeepsInv(t: Table, inputs: seq<Input>)
    requires Inv(t)
    ensures Inv(Run(t, inputs))
    decreases |inputs|
  {
    if inputs != [] {
      StepKeepsInv(t, inputs[0].pid, inputs[0].msg);
      RunKeepsInv(Step(t, inputs[0].pid, inputs[0].msg).table, inputs[1..]);
    }
  }

  /** Between disconnects no score ever decreases, and all scores together grow by at most one per message. */
  lemma {:induction false} RunScoresGrow(t: Table, inputs: seq<Input>)
    ensures Run(t, inputs).scores.zero >= t.scores.zero
    ensures Run(t, inputs).scores.one >= t.scores.one
    ensures Run(t, inputs).scores.Total() <= t.scores.Total() + |inputs|
    decreases |inputs|
  {
    if inputs != [] {
      var next := Step(t, inputs[0].pid, inputs[0].msg).table;
      assert next.scores.Total() <= t.scores.Total() + 1;
      RunScoresGrow(next, inputs[1..]);
    }
  }

  /** The ready count counts messages, not players: one player sending `ready` twice starts the game alone. */
  lemma OnePlayerCanStartGame(pid: Pid)
    ensures Run(Initial(), [Input(pid, Ready), Input(pid, Ready)]).started
  {
    var once := Step(Initial(), pid, Ready).table;
    assert once.readyCount == 1;
    assert Run(Initial(), [Input(pid, Ready), Input(pid, Ready)]) == Run(once, [Input(pid, Ready)]);
  }

  /**
   * A game with both choices recorded but unresolved accepts no further
   * choice and ignores `ready`: nothing but a disconnect changes it again.
   */
  lemma {:induction false} StalledRoundStaysStalled(t: Table, inputs: seq<Input>)
    requires t.started && BothChosen(t.choices)
    ensures Run(t, inputs) == t
    decreases |inputs|
  {
    if inputs != [] {
      assert Step(t, inputs[0].pid, inputs[0].msg).table == t;
      StalledRoundStaysStalled(t, inputs[1..]);
    }
  }

  /** An out-of-range second choice is recorded without resolving the round, which leaves the game stalled. */
  lemma InvalidSecondChoiceStalls(t: Table, pid: Pid, v: int, later: seq<Input>)
    requires t.started && pid !in t.choices && (1 - pid) in t.choices && !Rps.IsRank(v)
    ensures var stalled := Step(t, pid, Choose(v));
      && stalled.event == Silent
      && BothChosen(stalled.table.choices)
      && Run(stalled.table, later) == stalled.table
  {
    StalledRoundStaysStalled(Step(t, pid, Choose(v)).table, later);
  }

  /** The evident intent: a choice outside 0..2 is ignored, as a repeated choice is. */
  function StepValidated(t: Table, pid: Pid, msg: Msg): (o: Outcome)
    ensures msg.Choose? && !Rps.IsRank(msg.value) ==> o == Outcome(t, Silent)
    ensures !(msg.Choose? && !Rps.IsRank(msg.value)) ==> o == Step(t, pid, msg)
  {
    if msg.Choose? && !Rps.IsRank(msg.value) then Outcome(t, Silent) else Step(t, pid, msg)
  }

  /** Recorded choices are all valid, and no round is left with both choices unresolved. */
  predicate Healthy(t: Table) {
    && Inv(t)
    && (forall p :: p in t.choices ==> Rps.IsRank(t.choices[p]))
    && !BothChosen(t.choices)
  }

  /** With validation, the second choice of a round always resolves it, and the game never stalls. */
  lemma ValidatedRoundsResolve(t: Table, pid: Pid, v: int)
    requires Healthy(t) && t.started && pid !in t.choices && (1 - pid) in t.choices && Rps.IsRank(v)
    ensures StepValidated(t, pid, Choose(v)).event.RoundOver?
    ensures Healthy(StepValidated(t, pid, Choose(v)).table)
  {
  }

  lemma ValidatedStepKeepsHealthy(t: Table, pid: Pid, msg: Msg)
    requires Healthy(t)
    ensures Healthy(StepValidated(t, pid, msg).table)
  {
  }

  // ---------------------------------------------------------------------
  // Newline-delimited messages
  // ---------------------------------------------------------------------

  /** The characters Python's `str.strip()` removes. */
  predicate IsPySpace(c: char) {
    var n := c as int;
    || (9 <= n <= 13) || (0x1C <= n <= 0x20) || n == 0x85 || n == 0xA0 || n == 0x1680
    || (0x2000 <= n <= 0x200A) || n == 0x2028 || n == 0x2029 || n == 0x202F || n == 0x205F || n == 0x3000
  }

  /** `str.lstrip()`: drops the leading white space and nothing else. */
  function StripLeft(s: string): (r: string)
    ensures |r| <= |s| && r == s[|s| - |r|..]
    ensures forall i :: 0 <= i < |s| - |r| ==> IsPySpace(s[i])
    ensures r == [] || !IsPySpace(r[0])
  {
    if s != [] && IsPySpace(s[0]) then StripLeft(s[1..]) else s
  }

  /** `str.rstrip()`: drops the trailing white space and nothing else. */
  function StripRight(s: string): (r: string)
    ensures |r| <= |s| && r == s[..|r|]
    ensures forall i :: |r| <= i < |s| ==> IsPySpace(s[i])
    ensures r == [] || !IsPySpace(r[|r| - 1])
  {
    if s != [] && IsPySpace(s[|s| - 1]) then StripRight(s[..|s| - 1]) else s
  }

  /** `r` is `s[i..]` cut short, with only white space before and after it in `s`. */
  predicate StripsTo(s: string, i: nat, r: string) {
    && i + |r| <= |s| && r == s[i..i + |r|]
    && (forall k :: 0 <= k < i ==> IsPySpace(s[k]))
    && (forall k :: i + |r| <= k < |s| ==> IsPySpace(s[k]))
  }

  /** `str.strip()`: the text between the leading and the trailing white space. */
  function Strip(s: string): (r: string)
    ensures exists i :: StripsTo(s, i, r)
    ensures r == [] || (!IsPySpace(r[0]) && !IsPySpace(r[|r| - 1]))
  {
    StripBoth(s);
    StripRight(StripLeft(s))
  }

  lemma StripBoth(s: string)
    ensures StripsTo(s, |s| - |StripLeft(s)|, StripRight(StripLeft(s)))
  {
    StripsToParts(s, StripLeft(s), StripRight(StripLeft(s)));
  }

  /** Dropping white space at the start, then at the end, strips the text. */
  lemma StripsToParts(s: string, left: string, r: string)
    requires |left| <= |s| && left == s[|s| - |left|..]
    requires forall k :: 0 <= k < |s| - |left| ==> IsPySpace(s[k])
    requires |r| <= |left| && r == left[..|r|]
    requires forall k :: |r| <= k < |left| ==> IsPySpace(left[k])
    ensures StripsTo(s, |s| - |left|, r)
  {
    var i := |s| - |left|;
    assert r == s[i..i + |r|];
    forall k | i + |r| <= k < |s|
      ensures IsPySpace(s[k])
    {
      assert s[k] == left[k - i];
    }
  }

  /** The first line break in `s`. */
  function IndexOfNewline(s: string): (i: nat)
    requires '\n' in s
    ensures i < |s| && s[i] == '\n' && '\n' !in s[..i]
  {
    if s[0] == '\n' then 0
    else
      assert s == [s[0]] + s[1..];
      var i := IndexOfNewline(s[1..]) + 1;
      assert s[..i] == [s[0]] + s[1..][..i - 1];
      i
  }

  /** The pieces joined back with line breaks. */
  function JoinLines(pieces: seq<string>): string
    requires |pieces| >= 1
  {
    if |pieces| == 1 then pieces[0] else pieces[0] + "\n" + JoinLines(pieces[1..])
  }

  /** `str.split('\n')`: the pieces between line breaks, which joined back give the text. */
  function SplitLines(s: string): (r: seq<string>)
    ensures |r| >= 1
    ensures forall i :: 0 <= i < |r| ==> '\n' !in r[i]
    ensures JoinLines(r) == s
    decreases |s|
  {
    if '\n' !in s then [s]
    else
      var i := IndexOfNewline(s);
      var rest := SplitLines(s[i + 1..]);
      assert s == s[..i] + "\n" + s[i + 1..];
      [s[..i]] + rest
  }

  /** Splitting undoes joining, for pieces without line breaks. */
  lemma {:induction false} SplitJoin(pieces: seq<string>)
    requires |pieces| >= 1
    requires forall i :: 0 <= i < |pieces| ==> '\n' !in pieces[i]
    ensures SplitLines(JoinLines(pieces)) == pieces
    decreases |pieces|
  {
    if |pieces| > 1 {
      SplitAtFirst(pieces[0], JoinLines(pieces[1..]));
      SplitJoin(pieces[1..]);
    }
  }

  /** The first piece ends at the first line break. */
  lemma SplitAtFirst(p: string, rest: string)
    requires '\n' !in p
    ensures SplitLines(p + "\n" + rest) == [p] + SplitLines(rest)
  {
    var s := p + "\n" + rest;
    assert s[|p|] == '\n';
    var i := IndexOfNewline(s);
    assert i == |p|;
    assert s[..i] == p;
    assert s[i + 1..] == rest;
  }

  /** The pieces that are not empty, in order. */
  function NonEmpty(pieces: seq<string>): (r: seq<string>)
    ensures |r| <= |pieces|
    ensures forall i :: 0 <= i < |r| ==> r[i] != [] && r[i] in pieces
  {
    if pieces == [] then []
    else if pieces[0] == [] then NonEmpty(pieces[1..])
    else [pieces[0]] + NonEmpty(pieces[1..])
  }

  /** Skipping empty pieces distributes over concatenation. */
  lemma {:induction false} NonEmptyAppend(a: seq<string>, b: seq<string>)
    ensures NonEmpty(a + b) == NonEmpty(a) + NonEmpty(b)
    decreases |a|
  {
    if a == [] {
      assert a + b == b;
    } else {
      assert (a + b)[1..] == a[1..] + b;
      NonEmptyAppend(a[1..], b);
    }
  }

  /** A single piece is kept exactly when it is not empty. */
  lemma NonEmptySingle(p: string)
    ensures NonEmpty([p]) == if p == [] then [] else [p]
  {
    assert [p][1..] == [];
  }

  /** `data.strip().split('\n')` with the empty pieces skipped. */
  function Pieces(data: string): (r: seq<string>)
    ensures forall i :: 0 <= i < |r| ==> r[i] != [] && '\n' !in r[i]
  {
    NonEmpty(SplitLines(Strip(data)))
  }

  /** An empty line between two messages is skipped. */
  lemma BlankLineSkipped()
    ensures Pieces("a\n\nb\n") == ["a", "b"]
  {
    StripExample();
    SplitExample();
    NonEmptyExample();
  }

  lemma StripExample()
    ensures Strip("a\n\nb\n") == "a\n\nb"
  {
    var text := "a\n\nb";
    assert "a\n\nb\n" == text + "\n";
    StripLeftKeeps(text + "\n");
    StripRightDropsNewline(text);
  }

  lemma SplitExample()
    ensures SplitLines("a\n\nb") == ["a", "", "b"]
  {
    var lines: seq<string> := ["a", "", "b"];
    assert JoinLines(lines) == "a\n\nb" by {
      assert lines[1..] == ["", "b"];
      assert lines[1..][1..] == ["b"];
    }
    SplitJoin(lines);
  }

  lemma NonEmptyExample()
    ensures NonEmpty(["a", "", "b"]) == ["a", "b"]
  {
    assert ["a", "", "b"] == ["a"] + ([""] + ["b"]);
    NonEmptyAppend(["a"], [""] + ["b"]);
    NonEmptyAppend([""], ["b"]);
    NonEmptySingle("a");
    NonEmptySingle("");
    NonEmptySingle("b");
  }

  /** What clients send: each message text followed by a line break. */
  function Lines(messages: seq<string>): string {
    if messages == [] then "" else messages[0] + "\n" + Lines(messages[1..])
  }

  /** A message text as `json.dumps` makes it: non-empty, one line, no surrounding white space. */
  predicate IsMessageText(m: string) {
    m != [] && '\n' !in m && !IsPySpace(m[0]) && !IsPySpace(m[|m| - 1])
  }

  lemma {:induction false} LinesAsJoin(messages: seq<string>)
    requires |messages| >= 1
    ensures Lines(messages) == JoinLines(messages) + "\n"
    decreases |messages|
  {
    if |messages| > 1 {
      LinesAsJoin(messages[1..]);
      assert Lines(messages) == messages[0] + "\n" + (JoinLines(messages[1..]) + "\n");
    }
  }

  lemma {:induction false} NonEmptyKeeps(pieces: seq<string>)
    requires forall i :: 0 <= i < |pieces| ==> pieces[i] != []
    ensures NonEmpty(pieces) == pieces
    decreases |pieces|
  {
    if pieces != [] {
      NonEmptyKeeps(pieces[1..]);
      assert [pieces[0]] + pieces[1..] == pieces;
    }
  }

  /** A chunk holding whole messages yields exactly those messages, in order. */
  lemma PiecesOfLines(messages: seq<string>)
    requires forall i :: 0 <= i < |messages| ==> IsMessageText(messages[i])
    ensures Pieces(Lines(messages)) == messages
  {
    if messages == [] {
      assert Strip("") == "";
    } else {
      StripOfLines(messages);
      SplitJoin(messages);
      NonEmptyKeeps(messages);
    }
  }

  /** Stripping a chunk of whole messages removes just the final line break. */
  lemma StripOfLines(messages: seq<string>)
    requires |messages| >= 1
    requires forall i :: 0 <= i < |messages| ==> IsMessageText(messages[i])
    ensures Strip(Lines(messages)) == JoinLines(messages)
  {
    LinesAsJoin(messages);
    var joined := JoinLines(messages);
    JoinStartsWithFirst(messages);
    JoinEndsWithLast(messages);
    var last := messages[|messages| - 1];
    assert joined[|joined| - 1] == last[|last| - 1] by {
      assert joined[|joined| - |last|..][|last| - 1] == last[|last| - 1];
    }
    StripLeftKeeps(joined + "\n");
    StripRightDropsNewline(joined);
  }

  lemma StripLeftKeeps(s: string)
    requires s != [] && !IsPySpace(s[0])
    ensures StripLeft(s) == s
  {
  }

  lemma StripRightDropsNewline(j: string)
    requires j != [] && !IsPySpace(j[|j| - 1])
    ensures StripRight(j + "\n") == j
  {
    var s := j + "\n";
    assert s[..|s| - 1] == j;
  }

  lemma {:induction false} JoinStartsWithFirst(pieces: seq<string>)
    requires |pieces| >= 1 && pieces[0] != []
    ensures JoinLines(pieces) != [] && JoinLines(pieces)[0] == pieces[0][0]
  {
  }

  lemma {:induction false} JoinEndsWithLast(pieces: seq<string>)
    requires |pieces| >= 1 && pieces[|pieces| - 1] != []
    ensures var j := JoinLines(pieces); var last := pieces[|pieces| - 1];
      |j| >= |last| && j[|j| - |last|..] == last
    decreases |pieces|
  {
    if |pieces| > 1 {
      JoinEndsWithLast(pieces[1..]);
    }
  }

  /** The messages of one chunk, as decoded by `parse` (JSON decoding is not modelled). */
  function Decoded(pid: Pid, pieces: seq<string>, parse: string -> Msg): (r: seq<Input>)
    ensures |r| == |pieces|
    ensures forall i :: 0 <= i < |r| ==> r[i] == Input(pid, parse(pieces[i]))
  {
    if pieces == [] then [] else [Input(pid, parse(pieces[0]))] + Decoded(pid, pieces[1..], parse)
  }

  lemma {:induction false} RunAppend(t: Table, a: seq<Input>, b: seq<Input>)
    ensures Run(t, a + b) == Run(Run(t, a), b)
    decreases |a|
  {
    if a == [] {
      assert a + b == b;
    } else {
      assert (a + b)[1..] == a[1..] + b;
      RunAppend(Step(t, a[0].pid, a[0].msg).table, a[1..], b);
    }
  }

  lemma RunSnoc(t: Table, a: seq<Input>, x: Input)
    ensures Run(t, a + [x]) == Step(Run(t, a), x.pid, x.msg).table
  {
    RunAppend(t, a, [x]);
  }

  lemma TakeOneMore<T>(s: seq<T>, k: nat)
    requires k < |s|
    ensures s[..k + 1] == s[..k] + [s[k]]
  {
  }

  lemma TakeAll<T>(s: seq<T>)
    ensures s[..|s|] == s
  {
  }

  // ---------------------------------------------------------------------
  // The server
  // ---------------------------------------------------------------------

  /** At most two connections, none listed twice, each with the identity its handler was started with. */
  ghost predicate Registered(connected: seq<Conn>, ids: map<Conn, Pid>) {
    && |connected| <= 2
    && (forall i, j :: 0 <= i < j < |connected| ==> connected[i] != connected[j])
    && (forall c :: c in ids <==> c in connected)
  }

  class ScoreServer {
    /** `connected_players`, in connection order */
    var connected: seq<Conn>
    /** the identity each connection's handler was started with */
    var ids: map<Conn, Pid>
    /** `next_player_id` */
    var nextId: Pid
    var choices: map<Pid, int>
    var scores: Score
    var readyCount: nat
    var gameStarted: bool

    function Snapshot(): Table
      reads this
    {
      Table(choices, scores, readyCount, gameStarted)
    }

    ghost predicate Valid()
      reads this
    {
      Registered(connected, ids) && Inv(Snapshot())
    }

    constructor ()
      ensures Valid()
      ensures connected == [] && ids == map[] && nextId == 0 && Snapshot() == Initial()
    {
      connected := [];
      ids := map[];
      nextId := 0;
      choices := map[];
      scores := Score(0, 0);
      readyCount := 0;
      gameStarted := false;
    }

    /** `start_server`: admit a connection while fewer than two are connected, handing out 0, 1, 0, ... in turn. */
    method Accept(conn: Conn) returns (id: Pid, admitted: bool)
      requires Valid() && conn !in connected
      modifies this
      ensures Valid() && Snapshot() == old(Snapshot())
      ensures admitted == (|old(connected)| < 2)
      ensures admitted ==>
        && id == old(nextId)
        && connected == old(connected) + [conn]
        && ids == old(ids)[conn := id]
        && nextId == 1 - old(nextId)
      ensures !admitted ==> connected == old(connected) && ids == old(ids) && nextId == old(nextId)
    {
      id := nextId;
      admitted := |connected| < 2;
      if admitted {
        connected := connected + [conn];
        ids := ids[conn := id];
        nextId := if nextId == 0 then 1 else 0;
      }
    }

    /** One decoded message from player `pid`. */
    method HandleMessage(pid: Pid, msg: Msg) returns (event: Event)
      requires Valid()
      modifies this
      ensures Valid()
      ensures Snapshot() == Step(old(Snapshot()), pid, msg).table
      ensures event == Step(old(Snapshot()), pid, msg).event
      ensures connected == old(connected) && ids == old(ids) && nextId == old(nextId)
    {
      StepKeepsInv(Snapshot(), pid, msg);
      event := Silent;
      match msg {
        case Choose(v) =>
          if gameStarted && pid !in choices {
            choices := choices[pid := v];
            if Rps.IsRank(v) && BothChosen(choices) {
              var w := DetermineWinner(choices[0], choices[1]);
              if w != -1 {
                scores := scores.Inc(w);
              }
              event := RoundOver(choices[0], choices[1], w);
              ResetRound();
            }
          }
        case Ready =>
          if !gameStarted {
            readyCount := readyCount + 1;
            if readyCount == 2 {
              gameStarted := true;
              event := GameStart;
            }
          }
        case NextRound =>
        case Other =>
      }
    }

    /** `reset_round` */
    method ResetRound()
      modifies this
      ensures choices == map[]
      ensures scores == old(scores) && readyCount == old(readyCount) && gameStarted == old(gameStarted)
      ensures connected == old(connected) && ids == old(ids) && nextId == old(nextId)
    {
      choices := map[];
    }

    /** One received chunk from player `pid`: its non-empty lines, decoded by `parse`, are handled in order. */
    method HandleChunk(pid: Pid, data: string, parse: string -> Msg)
      requires Valid()
      modifies this
      ensures Valid()
      ensures Snapshot() == Run(old(Snapshot()), Decoded(pid, Pieces(data), parse))
      ensures connected == old(connected) && ids == old(ids) && nextId == old(nextId)
    {
      var inputs := Decoded(pid, Pieces(data), parse);
      ghost var start := Snapshot();
      for k := 0 to |inputs|
        invariant Valid()
        invariant Snapshot() == Run(start, inputs[..k])
        invariant connected == old(connected) && ids == old(ids) && nextId == old(nextId)
      {
        var _ := HandleMessage(inputs[k].pid, inputs[k].msg);
        RunSnoc(start, inputs[..k], inputs[k]);
        TakeOneMore(inputs, k);
      }
      TakeAll(inputs);
    }

    /** The handler's clean-up: the connection leaves the list and the whole game starts over. */
    method Disconnect(conn: Conn)
      requires Valid()
      modifies this
      ensures Valid()
      ensures Snapshot() == Initial()
      ensures conn !in old(connected) ==> connected == old(connected)
      ensures conn in old(connected) ==>
        (exists i :: 0 <= i < |old(connected)| && old(connected)[i] == conn &&
           connected == old(connected)[..i] + old(connected)[i + 1..])
      ensures ids == old(ids) - {conn} && nextId == old(nextId)
    {
      var conns := connected;
      var i := 0;
      while i < |conns| && conns[i] != conn
        invariant 0 <= i <= |conns|
        invariant conn !in conns[..i]
      {
        i := i + 1;
      }
      if i < |conns| {
        RemoveKeepsRegistered(conns, ids, i);
        conns := conns[..i] + conns[i + 1..];
      } else {
        assert conns[..i] == conns;
      }
      connected, ids := conns, ids - {conn};
      gameStarted, readyCount, scores, choices := false, 0, Score(0, 0), map[];
    }
  }

  /** Removing the entry at `i` keeps the registry consistent. */
  lemma RemoveKeepsRegistered(s: seq<Conn>, ids: map<Conn, Pid>, i: nat)
    requires i < |s| && Registered(s, ids)
    ensures Registered(s[..i] + s[i + 1..], ids - {s[i]})
  {
    var r := s[..i] + s[i + 1..];
    forall j | 0 <= j < |r|
      ensures r[j] == if j < i then s[j] else s[j + 1]
    {
    }
  }

  /**
   * The alternation hands out an identity still in use: A gets 0, B gets 1,
   * B leaves, and the next client C gets 0 again while A keeps 0.
   */
  method DuplicateIdScenario() returns (idA: Pid, idC: Pid)
    ensures idA == idC == 0
  {
    var server := new ScoreServer();
    var a, b, c: Conn := 1, 2, 3;
    var admittedA, admittedB, admittedC;
    idA, admittedA := server.Accept(a);
    var idB;
    idB, admittedB := server.Accept(b);
    server.Disconnect(b);
    assert server.connected == [a];
    idC, admittedC := server.Accept(c);
    assert server.ids[a] == server.ids[c] == 0;
  }
}
