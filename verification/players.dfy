/** Players and the roster (src/types/index.ts). A player is identified by its
    `id`; every comparison the application makes between players is a
    comparison of ids. */
module Players {
  import opened Wrappers

  /** Number of players in a complete team (`TOTAL_PLAYERS`). */
  const TOTAL_PLAYERS: nat := 11

  datatype PlayerRole = Batsman | Bowler | AllRounder

  /** `'Fast' | 'Spin' | 'none'` */
  datatype BowlingStyle = Fast | Spin | NoBowling

  /** A roster entry. The floating-point `stats` and the unused `isCaptain`
      flag are not modelled. */
  datatype Player = Player(
    id: string,
    name: string,
    country: string,
    role: PlayerRole,
    bowlingStyle: BowlingStyle,
    imageUrl: Option<string>)

  /** The ids of a list of players, in order (`players.map(p => p.id)`). */
  function Ids(ps: seq<Player>): seq<string> {
    seq(|ps|, i requires 0 <= i < |ps| => ps[i].id)
  }

  /** `ps.some(p => p.id === id)` */
  predicate HasId(ps: seq<Player>, id: string) {
    exists i | 0 <= i < |ps| :: ps[i].id == id
  }

  /** No two entries share an id. */
  predicate UniqueIds(ps: seq<Player>) {
    forall i, j | 0 <= i < j < |ps| :: ps[i].id != ps[j].id
  }

  /** `roster.find(p => p.id === id)`: the first entry carrying `id`, if any. */
  function FindById(roster: seq<Player>, id: string): (r: Option<Player>)
    ensures r.Some? <==> HasId(roster, id)
    ensures r.Some? ==> r.value in roster && r.value.id == id
    ensures r.Some? ==> exists k | 0 <= k < |roster| :: roster[k] == r.value && !HasId(roster[..k], id)
  {
    if |roster| == 0 then None
    else if roster[0].id == id then
      assert roster[..0] == [];
      Some(roster[0])
    else
      var r := FindById(roster[1..], id);
      if r.Some? then
        var k :| 0 <= k < |roster[1..]| && roster[1..][k] == r.value && !HasId(roster[1..][..k], id);
        assert roster[..k + 1] == [roster[0]] + roster[1..][..k];
        r
      else
        r
  }

  /** In a roster with unique ids, looking up a member's id finds that member. */
  lemma FindMember(roster: seq<Player>, p: Player)
    requires UniqueIds(roster)
    requires p in roster
    ensures FindById(roster, p.id) == Some(p)
  {
    var r := FindById(roster, p.id);
    var k :| 0 <= k < |roster| && roster[k] == r.value && !HasId(roster[..k], p.id);
    var j :| 0 <= j < |roster| && roster[j] == p;
  }

  /** Dropping the first entry keeps the ids unique. */
  lemma UniqueTail(ps: seq<Player>)
    requires |ps| > 0 && UniqueIds(ps)
    ensures UniqueIds(ps[1..])
  {
    forall i, j | 0 <= i < j < |ps[1..]| ensures ps[1..][i].id != ps[1..][j].id {
      assert ps[1..][i] == ps[i + 1] && ps[1..][j] == ps[j + 1];
    }
  }
}
