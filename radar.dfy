/**
 * The radar server's state and its two updates: processing a parsed demo
 * into the published roster and a drawn frame, and selecting the player to
 * highlight. The parsed demo is its game state, reduced to the playing
 * participants and the bomb; the drawn image is reduced to what it shows.
 */
module Radar {
  import opened Wrappers
  import opened Seqs
  import opened Strconv
  import opened Roster

  /** A playing participant as the demo parser reports it. */
  datatype Participant = Participant(name: seq<uint8>, health: int, team: int, alive: bool, userId: int)

  /** The bomb, with the user id of the player carrying it, if anyone is. */
  datatype Bomb = Bomb(carrier: Option<int>)

  /** The parser's game state at the end of the demo. */
  datatype GameState = GameState(playing: seq<Participant>, bomb: Option<Bomb>)

  /** A player's dot on the radar: its fill colour, its label and whether it is ringed as the selection. */
  datatype Dot = Dot(userId: int, color: Rgba, text: seq<uint8>, highlighted: bool)

  /** What the drawn radar image shows: the dots in drawing order and whether the C4 marker is drawn. */
  datatype Frame = Frame(dots: seq<Dot>, bombMarker: bool)

  /** The `playersData` record of a participant. */
  function Record(p: Participant): PlayerData {
    PlayerData(p.name, p.health, p.team, p.alive, p.userId)
  }

  function Records(ps: seq<Participant>): (r: seq<PlayerData>)
    ensures |r| == |ps|
    ensures forall i :: 0 <= i < |ps| ==> r[i] == Record(ps[i])
  {
    seq(|ps|, i requires 0 <= i < |ps| => Record(ps[i]))
  }

  /** The dot a participant gets, given the selected user id: none when dead. */
  function DotOf(highlight: int): Participant -> Option<Dot> {
    (p: Participant) => if p.alive then Some(Dot(p.userId, DotColor(p.team), Label(p.name), p.userId == highlight)) else None
  }

  /** The dots drawn for the participants, in their order. */
  function Dots(ps: seq<Participant>, highlight: int): seq<Dot> {
    Collect(ps, DotOf(highlight))
  }

  /** A participant when it is alive. */
  function Living(p: Participant): Option<Participant> {
    if p.alive then Some(p) else None
  }

  /** The indices of the participants that are alive, in increasing order. */
  function AliveIndices(ps: seq<Participant>): seq<nat> {
    Picks(ps, Living)
  }

  /** The C4 marker is drawn for a bomb that lies on the ground. */
  predicate BombMarker(bomb: Option<Bomb>) {
    bomb.Some? && bomb.value.carrier.None?
  }

  function FrameOf(state: GameState, highlight: int): Frame {
    Frame(Dots(state.playing, highlight), BombMarker(state.bomb))
  }

  class Server {
    /** `playersData`, served as JSON by `/players`. */
    var players: seq<PlayerData>
    /** `highlightID`, set by `/select`. */
    var highlightId: int
    /** `lastMapImg`, served by `/map`: the last frame drawn, none before the first. */
    var frame: Option<Frame>

    constructor()
      ensures players == [] && highlightId == 0 && frame == None
    {
      players := [];
      highlightId := 0;
      frame := None;
    }

    /** `/select?id=...`: the highlight moves only when the id parses as an integer. */
    method Select(idStr: string)
      modifies this`highlightId
      ensures Atoi(idStr).Some? ==> highlightId == Atoi(idStr).value
      ensures Atoi(idStr).None? ==> highlightId == old(highlightId)
    {
      var id := Atoi(idStr);
      if id.Some? {
        highlightId := id.value;
      }
    }

    /**
     * `processDemo`: without a radar image for the map nothing changes;
     * otherwise the roster becomes the records of all playing participants,
     * stably sorted by team and user id, and the frame shows the alive
     * players' dots and the bomb marker.
     */
    method ProcessDemo(state: GameState, hasRadar: bool)
      modifies this`players, this`frame
      ensures !hasRadar ==> players == old(players) && frame == old(frame)
      ensures hasRadar ==> players == SortedRoster(Records(state.playing))
      ensures hasRadar ==> frame == Some(FrameOf(state, highlightId))
    {
      if !hasRadar {
        return;
      }
      var roster, dots := Scan(state.playing, highlightId);
      var bombShown := state.bomb.Some? && state.bomb.value.carrier.None?;
      var buffer := new PlayerData[|roster|](k requires 0 <= k < |roster| => roster[k]);
      assert buffer[..] == roster;
      SortPlayers(buffer);
      players := buffer[..];
      frame := Some(Frame(dots, bombShown));
    }
  }

  /**
   * The loop of `processDemo` over the playing participants: every one
   * gets a record, and the alive ones get a dot.
   */
  method Scan(playing: seq<Participant>, highlight: int) returns (roster: seq<PlayerData>, dots: seq<Dot>)
    ensures roster == Records(playing)
    ensures dots == Dots(playing, highlight)
  {
    roster := [];
    dots := [];
    for i := 0 to |playing|
      invariant roster == Records(playing[..i])
      invariant dots == Dots(playing[..i], highlight)
    {
      var p := playing[i];
      RecordsPrefix(playing, i);
      CollectPrefix(playing, i, DotOf(highlight));
      roster := roster + [PlayerData(p.name, p.health, p.team, p.alive, p.userId)];
      if !p.alive {
        continue;
      }
      dots := dots + [Dot(p.userId, DotColor(p.team), Label(p.name), p.userId == highlight)];
    }
    assert playing[..|playing|] == playing;
  }

  lemma RecordsPrefix(ps: seq<Participant>, i: nat)
    requires i < |ps|
    ensures Records(ps[..i + 1]) == Records(ps[..i]) + [Record(ps[i])]
  {
  }

  /**
   * The published roster has one record per playing participant, dead ones
   * included, ordered by team then user id, with participants of equal
   * (team, user id) in the parser's order.
   */
  lemma PublishedRoster(state: GameState)
    ensures var r := SortedRoster(Records(state.playing));
      |r| == |state.playing| &&
      multiset(r) == multiset(Records(state.playing)) &&
      Sorted(r) &&
      forall k :: WithKey(r, k) == WithKey(Records(state.playing), k)
  {
    var s := Records(state.playing);
    SortedRosterPermutes(s);
    SortedRosterSorted(s);
    forall k ensures WithKey(SortedRoster(s), k) == WithKey(s, k) {
      SortedRosterStable(s, k);
    }
  }

  /** Every playing participant, alive or dead, has its record in the roster. */
  lemma EveryParticipantListed(state: GameState, i: nat)
    requires i < |state.playing|
    ensures Record(state.playing[i]) in SortedRoster(Records(state.playing))
  {
    var s := Records(state.playing);
    SortedRosterPermutes(s);
    assert s[i] in multiset(s);
  }

  /**
   * The dots belong to the alive participants, one each and in their order:
   * the k-th dot is that of the k-th alive participant, filled opaque in its
   * team's colour, with its label, ringed exactly when it is the selected
   * user id.
   */
  lemma DotsOfAlive(ps: seq<Participant>, highlight: int)
    ensures |Dots(ps, highlight)| == |AliveIndices(ps)|
    ensures forall k :: 0 <= k < |AliveIndices(ps)| ==>
      var p := ps[AliveIndices(ps)[k]];
      p.alive && Dots(ps, highlight)[k] == Dot(p.userId, DotColor(p.team), Label(p.name), p.userId == highlight)
  {
    CollectAtPicks(ps, DotOf(highlight));
    PicksAgree(ps, DotOf(highlight), Living);
  }

  /** A participant is among those with a dot exactly when it is alive. */
  lemma AliveIndicesExact(ps: seq<Participant>, i: nat)
    requires i < |ps|
    ensures i in AliveIndices(ps) <==> ps[i].alive
  {
    var idx := AliveIndices(ps);
    if i in idx {
      var k :| 0 <= k < |idx| && idx[k] == i;
    }
  }

  /** Only a bomb on the ground gets the marker: none without a bomb, none while it is carried. */
  lemma BombMarkerCases(bomb: Option<Bomb>)
    ensures bomb.None? ==> !BombMarker(bomb)
    ensures bomb.Some? && bomb.value.carrier.Some? ==> !BombMarker(bomb)
    ensures bomb.Some? && bomb.value.carrier.None? ==> BombMarker(bomb)
  {
  }
}
