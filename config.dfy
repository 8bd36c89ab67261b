/**
  The plugin's configuration surface: the raid start order to look for, the
  eleven "include room" flags, the wanted room count and the three overlay
  toggles, with the defaults declared on the configuration interface.
 */
module CoxMegaScaleConfig {

  /**
    The raid start order selection. Its enumeration is not part of this model:
    ANY stands for "no preference", and every other value is known only by the
    string its toString gives, which is what the matcher compares.
   */
  datatype RaidStartOrder = Any | Order(code: string)
  {
    /** toString of a definite start order. */
    function ToString(): string
      requires Order?
    {
      code
    }
  }

  /** The wanted number of counted rooms. */
  datatype RoomCount = Any | Five | Six
  {
    /** The display name each constant is declared with. */
    function ToString(): string
    {
      match this
      case Any => "Any"
      case Five => "5"
      case Six => "6"
    }
  }

  datatype Config = Config(
    raidStartOrder: RaidStartOrder,
    includeMystics: bool,
    includeShamans: bool,
    includeVasa: bool,
    includeTightrope: bool,
    includeThieving: bool,
    includeIceDemon: bool,
    includeGuardians: bool,
    includeVespula: bool,
    includeTekton: bool,
    includeVanguards: bool,
    includeMuttadiles: bool,
    roomCount: RoomCount,
    enableSuppliesCalculationOverlay: bool,
    enablePointsOverlay: bool,
    enableDropChanceOverlay: bool)

  /** The value every configuration item has until the user changes it. */
  const Default: Config := Config(
    RaidStartOrder.Any,
    false, false, false, false, false, false, false, false, false, false, false,
    RoomCount.Any,
    true, true, true)

  /** The eleven include flags in declaration order, Mystics first and Muttadiles last. */
  function IncludeFlags(c: Config): (flags: seq<bool>)
    ensures |flags| == 11
  {
    [c.includeMystics, c.includeShamans, c.includeVasa, c.includeTightrope,
     c.includeThieving, c.includeIceDemon, c.includeGuardians, c.includeVespula,
     c.includeTekton, c.includeVanguards, c.includeMuttadiles]
  }

  /** The defaults: any start order, no room included, any room count, every overlay on. */
  lemma DefaultValues()
    ensures Default.raidStartOrder == RaidStartOrder.Any
    ensures forall i :: 0 <= i < 11 ==> !IncludeFlags(Default)[i]
    ensures Default.roomCount == RoomCount.Any
    ensures Default.enableSuppliesCalculationOverlay
    ensures Default.enablePointsOverlay
    ensures Default.enableDropChanceOverlay
  {
  }

  /** The three room-count constants print as "Any", "5" and "6", three different names. */
  lemma RoomCountNamesDistinct(a: RoomCount, b: RoomCount)
    ensures RoomCount.Any.ToString() == "Any" && RoomCount.Five.ToString() == "5" && RoomCount.Six.ToString() == "6"
    ensures a.ToString() == b.ToString() <==> a == b
  {
  }
}
