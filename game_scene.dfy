/**
 * The scene of one game: the maze built from a level file, the player sprite,
 * the score and the game-over flag, and the responses to the physics
 * engine's contact reports. Sprite identity (the engine compares nodes by
 * reference) is an `id` the scene hands out from a counter.
 */
module GameScene {
  import opened Wrappers
  import opened NodeTypes
  import opened LevelText

  /** A gravity vector as the physics engine takes it. */
  datatype Vector = Vector(dx: real, dy: real)

  datatype PhysicsBody = PhysicsBody(category: Mask, collision: Mask, contact: Mask, isDynamic: bool)

  /** A sprite node with a physics body; a node nobody named has no name. */
  datatype Node = Node(id: nat, name: Option<string>, position: Point, body: PhysicsBody)

  /** Where every new player sprite starts. */
  const PlayerStart: Point := Point(96, 672)

  /** A body carrying a kind's three masks. */
  function KindBody(kind: NodeType, isDynamic: bool): PhysicsBody {
    PhysicsBody(CategoryBitMask(kind), CollisionBitMask(kind), ContactBitMask(kind), isDynamic)
  }

  /** The static maze node a level tile becomes. */
  function TileNode(id: nat, kind: NodeType, position: Point): Node {
    Node(id, Some(Name(kind)), position, KindBody(kind, false))
  }

  /** A fresh player sprite at the start point, moved by gravity. The player sprite is never given a name. */
  function PlayerNode(id: nat): Node {
    Node(id, None, PlayerStart, KindBody(Player, true))
  }

  /** The maze nodes that a level's placements become, numbered from `firstId` in scan order. */
  function Materialize(firstId: nat, ps: seq<Placement>): seq<Node> {
    seq(|ps|, j requires 0 <= j < |ps| => TileNode(firstId + j, ps[j].kind, ps[j].position))
  }

  /**
   * Materializing one more placement adds its node, numbered next, at the end
   * of a maze grown from `base`; a space adds nothing.
   */
  lemma MaterializeStep(base: seq<Node>, before: seq<Node>, firstId: nat, ps: seq<Placement>,
                        kind: NodeType, row: nat, column: nat, letter: char)
    requires before == base + Materialize(firstId, ps)
    ensures kind == Space ==> before == base + Materialize(firstId, ps + PlaceCell(kind, Cell(row, column, letter)))
    ensures kind != Space ==>
      (before + [TileNode(firstId + |ps|, kind, CellPosition(row, column))] ==
       base + Materialize(firstId, ps + PlaceCell(kind, Cell(row, column, letter))))
  {
    var qs := ps + PlaceCell(kind, Cell(row, column, letter));
    if kind == Space {
      assert qs == ps;
    } else {
      assert Materialize(firstId, qs) == Materialize(firstId, ps) + [TileNode(firstId + |ps|, kind, CellPosition(row, column))];
    }
  }

  /** A maze grown by one row's tiles, numbered on from the rows below, is the maze of all those rows. */
  lemma MaterializeAppend(base: seq<Node>, before: seq<Node>, firstId: nat, nextId: nat, ps: seq<Placement>, qs: seq<Placement>)
    requires before == base + Materialize(firstId, ps) && nextId == firstId + |ps|
    ensures before + Materialize(nextId, qs) == base + Materialize(firstId, ps + qs)
  {
    assert Materialize(firstId, ps + qs) == Materialize(firstId, ps) + Materialize(nextId, qs);
  }

  /**
   * Every node of a loaded maze is a static sprite for the letter at its cell:
   * it is named after that letter's kind, sits at the cell's centre and carries
   * exactly that kind's category, collision and contact masks.
   */
  lemma LoadedNodeOrigin(text: string, firstId: nat, j: nat)
    requires LevelPlacements(text).Ok? && j < |LevelPlacements(text).value|
    ensures var lines, node := Split(text), Materialize(firstId, LevelPlacements(text).value)[j];
      && node.id == firstId + j
      && exists i, c :: 0 <= i < |lines| && 0 <= c < |lines[i]| && FromChar(lines[i][c]).Some?
           && FromChar(lines[i][c]).value != Space
           && node.name == Some(Name(FromChar(lines[i][c]).value))
           && node.position == CellPosition(|lines| - 1 - i, c)
           && node.body == PhysicsBody(CategoryBitMask(FromChar(lines[i][c]).value),
                CollisionBitMask(FromChar(lines[i][c]).value), ContactBitMask(FromChar(lines[i][c]).value), false)
  {
    var lines, ps := Split(text), LevelPlacements(text).value;
    PlacementOrigin(text, ps[j]);
    var i, c :| 0 <= i < |lines| && 0 <= c < |lines[i]| && lines[i][c] != ' '
      && FromChar(lines[i][c]).Some? && ps[j] == Placement(FromChar(lines[i][c]).value, CellPosition(|lines| - 1 - i, c));
    var k := FromChar(lines[i][c]).value;
    assert k != Space;
    MaterializedAt(firstId, ps, j, k, CellPosition(|lines| - 1 - i, c));
  }

  /** The node made from the placement at index `j` carries that placement's kind and position. */
  lemma MaterializedAt(firstId: nat, ps: seq<Placement>, j: nat, kind: NodeType, position: Point)
    requires j < |ps| && ps[j] == Placement(kind, position)
    ensures Materialize(firstId, ps)[j] == TileNode(firstId + j, kind, position)
  {
  }

  predicate UniqueIds(nodes: seq<Node>) {
    forall i, j :: 0 <= i < j < |nodes| ==> nodes[i].id != nodes[j].id
  }

  /** Maze nodes and player have pairwise distinct identities, all below `nextId`. */
  predicate DistinctSprites(maze: seq<Node>, player: Option<Node>, nextId: nat) {
    && UniqueIds(maze)
    && (forall i :: 0 <= i < |maze| ==> maze[i].id < nextId)
    && (player.Some? ==>
          player.value.id < nextId && forall i :: 0 <= i < |maze| ==> maze[i].id != player.value.id)
  }

  /** Tiles numbered from `nextId` on keep every identity distinct. */
  lemma FreshTilesKeepDistinct(maze: seq<Node>, player: Option<Node>, nextId: nat, ps: seq<Placement>)
    requires DistinctSprites(maze, player, nextId)
    ensures DistinctSprites(maze + Materialize(nextId, ps), player, nextId + |ps|)
  {
    var all := maze + Materialize(nextId, ps);
    forall i | 0 <= i < |all|
      ensures all[i].id < nextId + |ps| && (i >= |maze| ==> all[i].id == nextId + i - |maze|)
    {
    }
  }

  /** `nodes` without the node with identity `id` (removing a node from its parent). */
  function RemoveNode(nodes: seq<Node>, id: nat): seq<Node> {
    if nodes == [] then []
    else
      var n := |nodes| - 1;
      var rest := RemoveNode(nodes[..n], id);
      if nodes[n].id == id then rest else rest + [nodes[n]]
  }

  /** Removal keeps exactly the nodes with another identity. */
  lemma {:induction false} RemoveNodeMembers(nodes: seq<Node>, id: nat, x: Node)
    ensures x in RemoveNode(nodes, id) <==> x in nodes && x.id != id
  {
    if nodes != [] {
      var n := |nodes| - 1;
      RemoveNodeMembers(nodes[..n], id, x);
      assert nodes == nodes[..n] + [nodes[n]];
    }
  }

  /** Removing an identity that is not present changes nothing. */
  lemma {:induction false} RemoveAbsentNode(nodes: seq<Node>, id: nat)
    requires forall i :: 0 <= i < |nodes| ==> nodes[i].id != id
    ensures RemoveNode(nodes, id) == nodes
  {
    if nodes != [] {
      var n := |nodes| - 1;
      RemoveAbsentNode(nodes[..n], id);
      assert nodes == nodes[..n] + [nodes[n]];
    }
  }

  /** Removal keeps identities unique. */
  lemma {:induction false} RemoveNodeKeepsUnique(nodes: seq<Node>, id: nat)
    requires UniqueIds(nodes)
    ensures UniqueIds(RemoveNode(nodes, id))
  {
    if nodes != [] {
      var n := |nodes| - 1;
      var front := nodes[..n];
      assert UniqueIds(front);
      RemoveNodeKeepsUnique(front, id);
      var rest := RemoveNode(front, id);
      if nodes[n].id != id {
        forall k | 0 <= k < |rest|
          ensures rest[k].id != nodes[n].id
        {
          RemoveNodeMembers(front, id, rest[k]);
          var j :| 0 <= j < |front| && front[j] == rest[k];
          assert front[j] == nodes[j];
        }
        var r := rest + [nodes[n]];
        forall i, j | 0 <= i < j < |r|
          ensures r[i].id != r[j].id
        {
          if j == |rest| {
            assert r[i] == rest[i];
          } else {
            assert r[i] == rest[i] && r[j] == rest[j];
          }
        }
      }
    }
  }

  /** Taking a node out of the maze keeps every identity distinct. */
  lemma RemoveNodeKeepsDistinct(maze: seq<Node>, player: Option<Node>, nextId: nat, id: nat)
    requires DistinctSprites(maze, player, nextId)
    ensures DistinctSprites(RemoveNode(maze, id), player, nextId)
  {
    var r := RemoveNode(maze, id);
    RemoveNodeKeepsUnique(maze, id);
    forall k | 0 <= k < |r|
      ensures r[k].id < nextId && (player.Some? ==> r[k].id != player.value.id)
    {
      RemoveNodeMembers(maze, id, r[k]);
    }
  }

  lemma {:induction false} RemoveNodeAt(nodes: seq<Node>, i: nat)
    requires UniqueIds(nodes) && i < |nodes|
    ensures RemoveNode(nodes, nodes[i].id) == nodes[..i] + nodes[i + 1..]
  {
    var n := |nodes| - 1;
    var id := nodes[i].id;
    var front := nodes[..n];
    assert UniqueIds(front);
    if i == n {
      assert forall j :: 0 <= j < |front| ==> front[j].id != id;
      RemoveAbsentNode(front, id);
      assert RemoveNode(nodes, id) == RemoveNode(front, id);
      assert nodes[i + 1..] == [];
    } else {
      assert front[i] == nodes[i];
      assert nodes[n].id != id;
      assert RemoveNode(nodes, id) == RemoveNode(front, id) + [nodes[n]];
      RemoveNodeAt(front, i);
      assert front[..i] == nodes[..i];
      assert front[i + 1..] + [nodes[n]] == nodes[i + 1..];
    }
  }

  /**
   * The node a contact report asks the player to respond to: body B when body A
   * is the player, else body A when body B is the player, else none. A report
   * whose either body has no node is ignored.
   */
  function ContactPartner(player: Option<Node>, a: Option<Node>, b: Option<Node>): (r: Option<Node>)
    ensures r.Some? <==> (a.Some? && b.Some? && player.Some?
      && (a.value.id == player.value.id || b.value.id == player.value.id))
    ensures r.Some? && a.value.id == player.value.id ==> r == b
    ensures r.Some? && a.value.id != player.value.id ==> r == a
  {
    if a.None? || b.None? || player.None? then None
    else if a.value.id == player.value.id then b
    else if b.value.id == player.value.id then a
    else None
  }

  class Scene {
    var maze: seq<Node>
    var player: Option<Node>
    var score: int
    var isGameOver: bool
    var gravity: Vector
    /** The identity the next sprite will get. */
    var nextId: nat
    /** Vortex death animations started whose completion is still due. */
    var pendingRespawns: nat

    /** Every sprite has its own identity, below `nextId`. */
    predicate Valid()
      reads this
    {
      DistinctSprites(maze, player, nextId)
    }

    /** A new scene: empty maze, no player yet, score 0, the engine's default gravity, and identities starting at 0. */
    constructor ()
      ensures Valid()
      ensures maze == [] && player == None && score == 0 && !isGameOver
      ensures gravity == Vector(0.0, -9.8) && pendingRespawns == 0 && nextId == 0
    {
      maze, player, score, isGameOver := [], None, 0, false;
      gravity := Vector(0.0, -9.8);
      nextId, pendingRespawns := 0, 0;
    }

    /**
     * The response to the player touching `node`, chosen by the node's name:
     * a vortex halts the player, costs a point and ends the game until its
     * animation completes; a star is taken out of the maze and scores a point;
     * anything else changes nothing.
     */
    twostate predicate RespondedTo(node: Node)
      reads this
    {
      && nextId == old(nextId) && gravity == old(gravity)
      && if node.name == Some(Name(Vortex)) then
           && old(player).Some?
           && player == Some(old(player).value.(body := old(player).value.body.(isDynamic := false)))
           && score == old(score) - 1 && isGameOver
           && maze == old(maze) && pendingRespawns == old(pendingRespawns) + 1
         else if node.name == Some(Name(Star)) then
           && score == old(score) + 1 && maze == RemoveNode(old(maze), node.id)
           && player == old(player) && isGameOver == old(isGameOver)
           && pendingRespawns == old(pendingRespawns)
         else
           && score == old(score) && maze == old(maze) && player == old(player)
           && isGameOver == old(isGameOver) && pendingRespawns == old(pendingRespawns)
    }

    /** Adds the static node of one tile to the maze; a space adds nothing. */
    method LoadNode(kind: NodeType, position: Point)
      modifies this
      ensures kind == Space ==> maze == old(maze) && nextId == old(nextId)
      ensures kind != Space ==>
        maze == old(maze) + [TileNode(old(nextId), kind, position)] && nextId == old(nextId) + 1
      ensures player == old(player) && score == old(score) && isGameOver == old(isGameOver)
      ensures gravity == old(gravity) && pendingRespawns == old(pendingRespawns)
    {
      if kind == Space {
        return;
      }
      var node := TileNode(nextId, kind, position);
      nextId := nextId + 1;
      maze := maze + [node];
    }

    /**
     * Builds the maze from the level text, bottom line first. An unknown
     * letter is fatal: the first one met in scan order is returned and
     * nothing after it is loaded.
     */
    method LoadLevel(text: string) returns (failure: Option<char>)
      requires Valid()
      modifies this
      ensures failure.None? ==> Valid()
      ensures failure.Some? <==> LevelPlacements(text).Err?
      ensures failure.Some? ==> LevelPlacements(text) == Err(failure.value)
      ensures failure.None? ==>
        && maze == old(maze) + Materialize(old(nextId), LevelPlacements(text).value)
        && nextId == old(nextId) + |LevelPlacements(text).value|
      ensures player == old(player) && score == old(score) && isGameOver == old(isGameOver)
      ensures gravity == old(gravity) && pendingRespawns == old(pendingRespawns)
    {
      var rows := Reverse(Split(text));
      assert LevelPlacements(text) == Place(GridCells(rows));
      failure := LoadRows(rows);
      if failure.None? {
        FreshTilesKeepDistinct(old(maze), player, old(nextId), LevelPlacements(text).value);
      }
    }

    /** Loads the rows bottom first, stopping at the first unknown letter. */
    method LoadRows(rows: seq<string>) returns (failure: Option<char>)
      modifies this
      ensures failure.Some? <==> Place(GridCells(rows)).Err?
      ensures failure.Some? ==> Place(GridCells(rows)) == Err(failure.value)
      ensures failure.None? ==>
        && maze == old(maze) + Materialize(old(nextId), Place(GridCells(rows)).value)
        && nextId == old(nextId) + |Place(GridCells(rows)).value|
      ensures player == old(player) && score == old(score) && isGameOver == old(isGameOver)
      ensures gravity == old(gravity) && pendingRespawns == old(pendingRespawns)
    {
      ghost var start, base := nextId, maze;
      ghost var ps: seq<Placement> := [];
      var row := 0;
      while row < |rows|
        invariant row <= |rows|
        invariant Place(GridCells(rows[..row])) == Ok(ps)
        invariant maze == base + Materialize(start, ps) && nextId == start + |ps|
        invariant player == old(player) && score == old(score) && isGameOver == old(isGameOver)
        invariant gravity == old(gravity) && pendingRespawns == old(pendingRespawns)
      {
        RowScanned(rows, row, ps);
        ghost var before, firstId := maze, nextId;
        failure := LoadLine(row, rows[row]);
        if failure.Some? {
          return;
        }
        ghost var qs := Place(RowCells(row, rows[row])).value;
        MaterializeAppend(base, before, start, firstId, ps, qs);
        ps := ps + qs;
        row := row + 1;
      }
      assert rows[..row] == rows;
      failure := None;
    }

    /** Loads one line of the level as grid row `row`, left to right, stopping at the first unknown letter. */
    method LoadLine(row: nat, line: string) returns (failure: Option<char>)
      modifies this
      ensures failure.Some? <==> Place(RowCells(row, line)).Err?
      ensures failure.Some? ==> Place(RowCells(row, line)) == Err(failure.value)
      ensures failure.None? ==>
        && maze == old(maze) + Materialize(old(nextId), Place(RowCells(row, line)).value)
        && nextId == old(nextId) + |Place(RowCells(row, line)).value|
      ensures player == old(player) && score == old(score) && isGameOver == old(isGameOver)
      ensures gravity == old(gravity) && pendingRespawns == old(pendingRespawns)
    {
      ghost var ps: seq<Placement> := [];
      var column := 0;
      assert line[..column] == [];
      while column < |line|
        invariant column <= |line|
        invariant Place(RowCells(row, line[..column])) == Ok(ps)
        invariant maze == old(maze) + Materialize(old(nextId), ps) && nextId == old(nextId) + |ps|
        invariant player == old(player) && score == old(score) && isGameOver == old(isGameOver)
        invariant gravity == old(gravity) && pendingRespawns == old(pendingRespawns)
      {
        var letter := line[column];
        var kind := FromChar(letter);
        if kind.None? {
          PlaceLineFails(row, line, column, ps);
          return Some(letter);
        }
        PlaceLineStep(row, line, column, ps, kind.value);
        MaterializeStep(old(maze), maze, old(nextId), ps, kind.value, row, column, letter);
        LoadNode(kind.value, CellPosition(row, column));
        ps := ps + PlaceCell(kind.value, Cell(row, column, letter));
        column := column + 1;
      }
      assert line[..column] == line;
      return None;
    }

    /** A new player sprite at the start point becomes the scene's player. */
    method CreatePlayer()
      requires Valid()
      modifies this
      ensures Valid()
      ensures player == Some(PlayerNode(old(nextId))) && nextId == old(nextId) + 1
      ensures maze == old(maze) && score == old(score) && isGameOver == old(isGameOver)
      ensures gravity == old(gravity) && pendingRespawns == old(pendingRespawns)
    {
      player := Some(PlayerNode(nextId));
      nextId := nextId + 1;
    }

    /**
     * The scene appears: gravity is switched off, the level is loaded and the
     * player is created. A level that fails to load stops here.
     */
    method DidMove(text: string) returns (failure: Option<char>)
      requires Valid()
      modifies this
      ensures failure.None? ==> Valid()
      ensures gravity == Vector(0.0, 0.0)
      ensures failure.Some? <==> LevelPlacements(text).Err?
      ensures failure.Some? ==> LevelPlacements(text) == Err(failure.value)
      ensures failure.None? ==>
        && maze == old(maze) + Materialize(old(nextId), LevelPlacements(text).value)
        && player == Some(PlayerNode(old(nextId) + |LevelPlacements(text).value|))
        && nextId == old(nextId) + |LevelPlacements(text).value| + 1
      ensures score == old(score) && isGameOver == old(isGameOver) && pendingRespawns == old(pendingRespawns)
    {
      gravity := Vector(0.0, 0.0);
      failure := LoadLevel(text);
      if failure.Some? {
        return;
      }
      CreatePlayer();
    }

    /** Responds to the player touching `node`. Only the vortex branch touches the player sprite. */
    method PlayerCollided(node: Node)
      requires Valid()
      requires node.name == Some(Name(Vortex)) ==> player.Some?
      modifies this
      ensures Valid()
      ensures RespondedTo(node)
    {
      if node.name == Some(Name(Vortex)) {
        player := Some(player.value.(body := player.value.body.(isDynamic := false)));
        isGameOver := true;
        score := score - 1;
        pendingRespawns := pendingRespawns + 1;
      } else if node.name == Some(Name(Star)) {
        RemoveNodeKeepsDistinct(maze, player, nextId, node.id);
        maze := RemoveNode(maze, node.id);
        score := score + 1;
      }
    }

    /** The completion of a vortex death animation: a new player at the start point, and play resumes. */
    method OnVortexAnimationDone()
      requires Valid() && pendingRespawns > 0
      modifies this
      ensures Valid()
      ensures player == Some(PlayerNode(old(nextId))) && nextId == old(nextId) + 1 && !isGameOver
      ensures pendingRespawns == old(pendingRespawns) - 1
      ensures maze == old(maze) && score == old(score) && gravity == old(gravity)
    {
      CreatePlayer();
      isGameOver := false;
      pendingRespawns := pendingRespawns - 1;
    }

    /** A contact report from the physics engine, dispatched to the player's response when the player is one of the two bodies. */
    method DidBegin(a: Option<Node>, b: Option<Node>)
      requires Valid()
      modifies this
      ensures Valid()
      ensures ContactPartner(old(player), a, b).None? ==>
        && maze == old(maze) && player == old(player) && score == old(score)
        && isGameOver == old(isGameOver) && pendingRespawns == old(pendingRespawns)
        && gravity == old(gravity) && nextId == old(nextId)
      ensures ContactPartner(old(player), a, b).Some? ==> RespondedTo(ContactPartner(old(player), a, b).value)
    {
      if a.None? || b.None? {
        return;
      }
      var nodeA, nodeB := a.value, b.value;
      if player.Some? && nodeA.id == player.value.id {
        PlayerCollided(nodeB);
      } else if player.Some? && nodeB.id == player.value.id {
        PlayerCollided(nodeA);
      }
    }

    /** Once per frame: while the game is over nothing changes; otherwise the frame's input, when there is any, sets gravity. */
    method Update(input: Option<Vector>)
      modifies this
      ensures old(isGameOver) ==> gravity == old(gravity)
      ensures !old(isGameOver) ==> gravity == (if input.Some? then input.value else old(gravity))
      ensures maze == old(maze) && player == old(player) && score == old(score)
      ensures isGameOver == old(isGameOver) && nextId == old(nextId) && pendingRespawns == old(pendingRespawns)
    {
      if isGameOver {
        return;
      }
      if input.Some? {
        gravity := input.value;
      }
    }
  }
}
