/** The voxel type table: the type-id constants and the definitions array
    indexed by them. */
module VoxelTypes {
  import opened Geometry

  /** C#'s `byte`: the storage type of a voxel. */
  type byte = b: int | 0 <= b < 256

  const Air: byte := 0
  const Dirt: byte := 1
  const Stone: byte := 2
  const Grass: byte := 3
  const Water: byte := 4

  datatype VoxelDefinition = VoxelDefinition(name: string, voxelColor: Color, isSolid: bool)

  const DirtColor := Rgba(0.54, 0.27, 0.07, 1.0)

  /** The definitions table, indexed by type id. Entries 3 and 4 carry the name
      and colour of Dirt, as the table is written. */
  const Definitions: seq<VoxelDefinition> := [
    VoxelDefinition("Air", Rgba(0.0, 0.0, 0.0, 0.0), false),
    VoxelDefinition("Dirt", DirtColor, true),
    VoxelDefinition("Stone", Rgba(0.5, 0.5, 0.5, 1.0), true),
    VoxelDefinition("Dirt", DirtColor, true),
    VoxelDefinition("Dirt", DirtColor, true)
  ]

  /** A type id that names an entry of the table. */
  predicate IsDeclared(t: int) { 0 <= t < |Definitions| }

  /** Whether a declared type id is solid according to the table: every type
      except Air, Water included. */
  function IsSolid(t: byte): (solid: bool)
    requires IsDeclared(t)
    ensures solid <==> t != Air
  {
    Definitions[t].isSolid
  }

  /** The colour of every declared type, in id order: the palette the mesher
      is handed when a chunk is meshed. */
  function Palette(): (palette: seq<Color>)
    ensures |palette| == |Definitions|
    ensures forall t :: IsDeclared(t) ==> palette[t] == Definitions[t].voxelColor
  {
    seq(|Definitions|, t requires 0 <= t < |Definitions| => Definitions[t].voxelColor)
  }

  /** The five ids are pairwise distinct, all declared, and Air is the id 0
      that both meshers treat as empty. */
  lemma IdsDistinctAndDeclared()
    ensures |{Air, Dirt, Stone, Grass, Water}| == 5
    ensures forall t :: t in {Air, Dirt, Stone, Grass, Water} <==> IsDeclared(t)
    ensures Air == 0
  {
  }

  /** Grass and Water carry the name and colour of Dirt in the table. */
  lemma GrassAndWaterLookLikeDirt()
    ensures Definitions[Grass].name == Definitions[Water].name == Definitions[Dirt].name == "Dirt"
    ensures Palette()[Grass] == Palette()[Water] == Palette()[Dirt]
  {
  }
}
