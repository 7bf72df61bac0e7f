# MarbleMaze — a Dafny model of the tile catalogue, the level loader and the contact responses

MarbleMaze is a tilt-to-roll marble game. A level is a text file with one
character per 64 × 64 cell:

- `x` is a block;
- `v` is a vortex;
- `s` is a star;
- `f` is the finish;
- `p` is a player tile;
- a space is empty floor.

The scene builds a maze of static sprites from that text and creates the
player's marble at a fixed start point. It then reacts to the physics engine's
contact reports. A star scores a point and disappears. A vortex costs a point,
freezes the marble and ends play until its death animation has finished, after
which a fresh marble appears at the start. Gravity follows the device's input
only while play is on.

The project has four modules:

- `Wrappers` (`wrappers.dfy`): `Option` and `Result`.
- `NodeTypes` (`node_type.dfy`): the tile catalogue. It is a datatype of the
  six kinds with total functions for the raw symbol, the sprite name and the
  three 32-bit physics masks (modelled as `bv32`), a partial construction from
  a character, and lemmas about how the masks fit together.
- `LevelText` (`level_text.dfy`): the pure half of level loading. It covers:
  - splitting at newlines, and the inverse `Join`;
  - numbering rows from the last line up;
  - the cell-centre formula;
  - classifying the grid in scan order into tile placements or the first
    unknown letter.

  Its lemmas tie the result back to the text itself: which character lands
  where, when loading fails, how many tiles are placed, and what a trailing
  newline does.
- `GameScene` (`game_scene.dfy`): the class `Scene`. Its fields are the maze
  as `seq<Node>`, the player as `Option<Node>`, `score`, `isGameOver`, the
  world's gravity, an identity counter and the number of vortex completions
  still due. Its methods mirror the scene's:
  - `DidMove`, `LoadLevel` and `LoadNode`;
  - `CreatePlayer`, `PlayerCollided` and `DidBegin`;
  - `Update`.

  The loading methods keep the loops of the original. Each is proved against
  `LevelText.LevelPlacements`: the maze they build is exactly the
  materialisation of the placements that function computes.

The engine compares sprites by reference. The model gives every sprite an `id`
from the counter `nextId`, and `Scene.Valid()` states that identities are
distinct and below the counter. The vortex animation's completion closure
(`GameScene.swift` lines 148-151) is the separate method
`OnVortexAnimationDone`. `pendingRespawns` counts the closures scheduled but
not yet completed.

The model follows the code as written:

- The finish tile does nothing on contact; `playerCollided` has an empty case for it.
- Blank lines are not filtered: `components(separatedBy: "\n")` keeps every
  empty piece. A trailing newline therefore adds an empty row 0 and lifts every
  real row by 64 points (`TrailingNewlineRaisesLevel`).
- A `p` in the level is loaded as one more static maze node. The real player is
  created separately at (96, 672).
- Contact responses are not gated by `isGameOver`; only `update` is. A second
  vortex contact during the death animation costs another point.
- The player sprite is never given a name, so its `name` is `None`.

## Model

| member | source | states |
|---|---|---|
| NodeTypes.RawValue | MarbleMaze/NodeType.swift:10-17 | every kind's raw value is one of the six tile symbols |
| NodeTypes.FromChar | MarbleMaze/NodeType.swift:10-17 | construction from a character succeeds exactly for `p x v s f` and space, and then yields the kind whose raw value is that character |
| NodeTypes.RawValueRoundTrip | MarbleMaze/NodeType.swift:10-17 | constructing from a kind's raw value gives the kind back |
| NodeTypes.Name | MarbleMaze/NodeType.swift:19-34 | the name is empty exactly for the space |
| NodeTypes.NameIdentifiesKind | MarbleMaze/NodeType.swift:19-34 | equal names mean equal kinds, which is what dispatch by name relies on |
| NodeTypes.CategoryBitMask | MarbleMaze/NodeType.swift:36-51 | the category is zero exactly for the space and otherwise a single bit |
| NodeTypes.CategoriesDisjoint | MarbleMaze/NodeType.swift:36-51 | distinct kinds have disjoint categories, and a material kind's category identifies it |
| NodeTypes.CollisionBitMask | MarbleMaze/NodeType.swift:53-62 | the collision mask is zero exactly for vortex, star and finish; the player's is the block's category; block and space fall to 1 |
| NodeTypes.ContactBitMask | MarbleMaze/NodeType.swift:64-73 | pick-ups report contact with the player's category; the player's mask meets a kind's category exactly when that kind is a pick-up; block and space fall to 1 |
| NodeTypes.MutualContact | MarbleMaze/NodeType.swift:64-73 | for each pick-up, the player's contact mask holds its category and its contact mask holds the player's |
| NodeTypes.PlayerContacts | MarbleMaze/NodeType.swift:64-73 | the player's contact mask excludes the block, yet the engine reports the player touching every material kind but another player |
| NodeTypes.PlayerStoppedOnlyByBlocks | MarbleMaze/NodeType.swift:53-62 | only blocks stop the player, and pick-ups are stopped by nothing |
| LevelText.Split | MarbleMaze/GameScene.swift:108 | the text splits into at least one line, and no line contains a newline |
| LevelText.JoinSplit | MarbleMaze/GameScene.swift:108 | joining the lines with newlines gives the text back |
| LevelText.SplitJoin | MarbleMaze/GameScene.swift:108 | splitting newline-joined, newline-free lines gives the lines back |
| LevelText.SplitTrailingNewline | MarbleMaze/GameScene.swift:108 | a trailing newline adds one empty last line and changes no other line |
| LevelText.SplitLetters | MarbleMaze/GameScene.swift:108 | a character is on some line exactly when it is in the text and is not a newline |
| LevelText.Rows | MarbleMaze/GameScene.swift:111 | there are as many rows as lines |
| LevelText.CellPositionCentre | MarbleMaze/GameScene.swift:113 | a cell's position lies at the exact centre of its 64 × 64 square, so row and column can be read back |
| LevelText.CellPositionInjective | MarbleMaze/GameScene.swift:113 | distinct cells get distinct positions |
| LevelText.GridCellsMembers | MarbleMaze/GameScene.swift:111-112 | the scan visits exactly the grid's (row, column, letter) triples |
| LevelText.PlaceOutcome | MarbleMaze/GameScene.swift:111-118 | the scan succeeds exactly when every letter is a tile symbol; a failure names a foreign letter of the scan; a success places one tile per non-space cell and never a space |
| LevelText.PlaceMembers | MarbleMaze/GameScene.swift:111-118 | a placement is in the result exactly when some non-space cell's kind sits at that cell's centre |
| LevelText.PlaceAppend | MarbleMaze/GameScene.swift:111-118 | scanning two stretches of cells: the first failure wins, otherwise the placements are concatenated |
| LevelText.PlaceErrPersists | MarbleMaze/GameScene.swift:114-116 | once a prefix of the scan fails, the whole scan fails with the same letter |
| LevelText.LevelFailsIffForeignLetter | MarbleMaze/GameScene.swift:114-116 | loading fails exactly when the text holds a character other than a newline that is no tile symbol, and the reported letter is such a character |
| LevelText.LevelNodeCount | MarbleMaze/GameScene.swift:111-118 | a level that loads places exactly as many tiles as the text has characters other than spaces and newlines |
| LevelText.LetterPlacement | MarbleMaze/GameScene.swift:108-117 | the character at line i, column c of a loading level places its kind at (64c+32, 64(lines−1−i)+32) |
| LevelText.PlacementOrigin | MarbleMaze/GameScene.swift:108-117 | every placement comes from a non-space character of the text, at that character's cell centre |
| LevelText.TrailingNewlineRaisesLevel | MarbleMaze/GameScene.swift:108-111 | appending a newline leaves the outcome the same except that every tile moves up by 64 points |
| LevelText.TwoLineLevel | MarbleMaze/GameScene.swift:108-117 | the level "f s\nx p" gives block and player tiles at height 32 and finish and star tiles at height 96 |
| GameScene.LoadedNodeOrigin | MarbleMaze/GameScene.swift:72-97 | every node of a loaded maze is static, has the next identity in scan order, and comes from a non-space letter of the text: it is named after that letter's kind, sits at the letter's cell centre and carries exactly that kind's category, collision and contact masks |
| GameScene.MaterializeStep | MarbleMaze/GameScene.swift:71-98 | loading one more cell appends its tile's node, numbered next, or nothing for a space |
| GameScene.MaterializeAppend | MarbleMaze/GameScene.swift:111-119 | a maze grown row by row is the materialisation of all rows' placements |
| GameScene.FreshTilesKeepDistinct | MarbleMaze/GameScene.swift:97 | nodes numbered on from the counter keep every sprite identity distinct |
| GameScene.RemoveNodeMembers | MarbleMaze/GameScene.swift:153 | removing a node keeps exactly the maze nodes with another identity |
| GameScene.RemoveAbsentNode | MarbleMaze/GameScene.swift:153 | removing a node that is not in the maze changes nothing |
| GameScene.RemoveNodeKeepsUnique | MarbleMaze/GameScene.swift:153 | removal keeps identities unique |
| GameScene.RemoveNodeKeepsDistinct | MarbleMaze/GameScene.swift:153 | removal keeps the scene's identity invariant |
| GameScene.RemoveNodeAt | MarbleMaze/GameScene.swift:153 | removing the node at index i leaves the nodes before and after it, in order |
| GameScene.ContactPartner | MarbleMaze/GameScene.swift:182-191 | a report gets a response exactly when both bodies have nodes and one is the player: body B's when A is the player, otherwise body A's |
| GameScene.Scene.constructor | MarbleMaze/GameScene.swift:15-26 | a new scene has no maze, no player, score 0 and play on, and hands out identities from 0 |
| GameScene.Scene.LoadNode | MarbleMaze/GameScene.swift:71-98 | a space adds nothing; any other kind appends one static node with its name, position and masks |
| GameScene.Scene.LoadLevel | MarbleMaze/GameScene.swift:100-121 | fails exactly when `LevelPlacements` fails, with its letter; on success the maze grows by exactly the materialised placements and the identity invariant holds |
| GameScene.Scene.LoadRows | MarbleMaze/GameScene.swift:111-119 | the row loop builds exactly the placements of the rows, bottom first, or stops at the first unknown letter |
| GameScene.Scene.LoadLine | MarbleMaze/GameScene.swift:112-118 | the column loop builds exactly the placements of one row, or stops at its first unknown letter |
| GameScene.Scene.CreatePlayer | MarbleMaze/GameScene.swift:123-135 | a fresh dynamic player with the player's masks at (96, 672) becomes the player; the maze is untouched |
| GameScene.Scene.DidMove | MarbleMaze/GameScene.swift:30-53 | gravity is switched off, then the level is loaded; on success the player is created after the maze, taking the identity after the maze's last node |
| GameScene.Scene.PlayerCollided | MarbleMaze/GameScene.swift:137-160 | a vortex freezes the player, costs a point and ends play; a star is removed and scores a point; anything else changes nothing; the identity invariant is kept |
| GameScene.Scene.OnVortexAnimationDone | MarbleMaze/GameScene.swift:148-151 | the completion creates a player with a fresh identity at the start point and resumes play |
| GameScene.Scene.DidBegin | MarbleMaze/GameScene.swift:182-191 | the player's response goes to the other body when one body is the player; otherwise nothing changes |
| GameScene.Scene.Update | MarbleMaze/GameScene.swift:55-67 | while play is over nothing changes; otherwise the frame's input, if any, becomes gravity |

## Left out

- Rendering is not modelled: the background, the score label and its text (updated on every score change), z-positions, and adding sprites to the scene graph.
- SpriteKit actions are not modelled: the vortex's endless rotation, and the move, scale and removal of the dying player. Only the completion's effect is kept, as `OnVortexAnimationDone`.
- Physics body shapes (a rectangle for blocks, circles otherwise), `allowsRotation` and `linearDamping` are not modelled. They are engine configuration over floating-point sizes.
- The gravity computation from the touch offset or the accelerometer is floating-point and CoreMotion work. It becomes the `input` parameter of `Update`. The touch handlers that record the touch position are left out.
- Finding and reading the level file from the app bundle is I/O. The level text is an input, and the `level` field that names the file is not modelled.
- `[weak self]` capture in the completion closure is left out. It only matters once the scene is gone.
- GameScene.Scene.LoadLevel: the original stops the app with `fatalError` on an unknown letter. The model instead returns that letter. It leaves the maze in an unspecified partial state and does not promise `Valid()` afterwards.
- GameScene.Scene.DidMove: on a failed load, nothing is promised about the maze or about `Valid()`, for the same reason.
- GameScene.Scene.PlayerCollided: it requires a player for a vortex contact, because the original dereferences the implicitly unwrapped `player` there and would crash without one.
- The score is an unbounded integer. The original's 64-bit `Int` would trap on overflow, which needs about 2^63 contacts.
- Characters are Dafny `char`s. Swift's grapheme clusters (a `\r\n` pair is one `Character`) are not modelled, so text with Windows line endings is classified character by character.
- The world's gravity before `DidMove` is SpriteKit's default (0, −9.8), taken as the constructor's value.
