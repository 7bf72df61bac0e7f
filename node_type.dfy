/**
 * The tile catalogue of the maze: one kind per level-file symbol, each with
 * the name of its sprite and the three 32-bit physics masks the engine reads.
 */
module NodeTypes {
  import opened Wrappers

  /** The physics engine's masks are unsigned 32-bit words. */
  type Mask = bv32

  datatype NodeType = Player | Block | Vortex | Star | Finish | Space

  /** The level-file symbol of each kind (the enum's raw value). */
  function RawValue(t: NodeType): (c: char)
    ensures IsTileSymbol(c)
  {
    match t
    case Player => 'p'
    case Block => 'x'
    case Vortex => 'v'
    case Star => 's'
    case Finish => 'f'
    case Space => ' '
  }

  /** The symbols that denote a tile; every other character is foreign to a level file. */
  predicate IsTileSymbol(c: char) {
    c == 'p' || c == 'x' || c == 'v' || c == 's' || c == 'f' || c == ' '
  }

  /** Construction from a raw value: defined exactly for the six tile symbols. */
  function FromChar(c: char): (r: Option<NodeType>)
    ensures r.Some? <==> IsTileSymbol(c)
    ensures r.Some? ==> RawValue(r.value) == c
  {
    match c
    case 'p' => Some(Player)
    case 'x' => Some(Block)
    case 'v' => Some(Vortex)
    case 's' => Some(Star)
    case 'f' => Some(Finish)
    case ' ' => Some(Space)
    case _ => None
  }

  /** Each kind's symbol constructs that kind again. */
  lemma RawValueRoundTrip(t: NodeType)
    ensures FromChar(RawValue(t)) == Some(t)
  {
  }

  /** Sprite image name, also used as the node's name when a contact is dispatched. */
  function Name(t: NodeType): (r: string)
    ensures r == "" <==> t == Space
  {
    match t
    case Player => "player"
    case Block => "block"
    case Vortex => "vortex"
    case Star => "star"
    case Finish => "finish"
    case Space => ""
  }

  /** The kinds a contact with the player is meant to report. */
  predicate IsPickup(t: NodeType) {
    t == Vortex || t == Star || t == Finish
  }

  /** The body's own bit: one distinct bit per material kind, none for a space. */
  function CategoryBitMask(t: NodeType): (r: Mask)
    ensures r == 0 <==> t == Space
    ensures r & (r - 1) == 0
  {
    match t
    case Player => 1
    case Block => 2
    case Vortex => 4
    case Star => 8
    case Finish => 16
    case Space => 0
  }

  /** The categories that physically stop this body. */
  function CollisionBitMask(t: NodeType): (r: Mask)
    ensures r == 0 <==> IsPickup(t)
    ensures t == Player ==> r == CategoryBitMask(Block)
    ensures t == Block || t == Space ==> r == 1
  {
    match t
    case Vortex | Star | Finish => 0
    case Player => CategoryBitMask(Block)
    case _ => 1
  }

  /** The categories whose touch this body wants reported. */
  function ContactBitMask(t: NodeType): (r: Mask)
    ensures IsPickup(t) ==> r == CategoryBitMask(Player)
    ensures t == Player ==> forall k :: r & CategoryBitMask(k) != 0 <==> IsPickup(k)
    ensures !IsPickup(t) && t != Player ==> r == 1
  {
    match t
    case Vortex | Star | Finish => CategoryBitMask(Player)
    case Player => CategoryBitMask(Star) | CategoryBitMask(Vortex) | CategoryBitMask(Finish)
    case _ => 1
  }

  /** The engine reports a contact between two bodies when either one's contact mask meets the other's category. */
  predicate ContactReported(a: NodeType, b: NodeType) {
    ContactBitMask(a) & CategoryBitMask(b) != 0 || ContactBitMask(b) & CategoryBitMask(a) != 0
  }

  /** Body `a` is stopped by body `b` when `a`'s collision mask meets `b`'s category. */
  predicate StoppedBy(a: NodeType, b: NodeType) {
    CollisionBitMask(a) & CategoryBitMask(b) != 0
  }

  /** Distinct kinds never share a category bit, so each category mask identifies its kind. */
  lemma CategoriesDisjoint(a: NodeType, b: NodeType)
    requires a != b
    ensures CategoryBitMask(a) & CategoryBitMask(b) == 0
    ensures a != Space ==> CategoryBitMask(a) != CategoryBitMask(b)
  {
  }

  /** Names tell the material kinds apart, which is what dispatch by name relies on. */
  lemma NameIdentifiesKind(a: NodeType, b: NodeType)
    requires Name(a) == Name(b)
    ensures a == b
  {
  }

  /**
   * Player and each pick-up name each other: the player's contact mask holds the
   * pick-up's category and the pick-up's contact mask holds the player's.
   */
  lemma MutualContact(k: NodeType)
    requires IsPickup(k)
    ensures ContactBitMask(Player) & CategoryBitMask(k) != 0
    ensures ContactBitMask(k) & CategoryBitMask(Player) != 0
  {
  }

  /**
   * The player's contact mask leaves out the block, yet a block's generic contact
   * mask 1 is the player's category, so the engine still reports player/block
   * touches; it never reports the player touching another player.
   */
  lemma PlayerContacts(k: NodeType)
    requires k != Space
    ensures ContactBitMask(Player) & CategoryBitMask(Block) == 0
    ensures ContactReported(Player, k) <==> k != Player
  {
  }

  /** Only blocks stop the player, and pick-ups stop nothing. */
  lemma PlayerStoppedOnlyByBlocks(k: NodeType)
    ensures StoppedBy(Player, k) <==> k == Block
    ensures IsPickup(k) ==> forall other :: !StoppedBy(k, other)
  {
  }
}
