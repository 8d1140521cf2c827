/**
 * The floor-plan data model of the wayfinder: points, walls, points of
 * interest, floors and the map itself.
 *
 * Coordinates are integers: every wall end and POI position in the shipped
 * floor plans is a whole number of feet, and so is the grid pitch.
 */
module Types {

  datatype Option<+T> = None | Some(value: T)

  /** A location in a floor's local coordinate space. */
  datatype Point = Point(x: int, y: int, floorId: Option<string>)

  /** The categories of points of interest. */
  datatype POIType =
    | Department | Entrance | Elevator | Stairs | Restroom
    | Cafe | Info | Pharmacy | Wards | Theatre

  /** The string value each enumerator carries at run time. */
  function TypeValue(t: POIType): (s: string)
    ensures |s| > 0
    ensures forall i :: 0 <= i < |s| ==> 'a' <= s[i] <= 'z'
  {
    match t
    case Department => "department"
    case Entrance => "entrance"
    case Elevator => "elevator"
    case Stairs => "stairs"
    case Restroom => "restroom"
    case Cafe => "cafe"
    case Info => "info"
    case Pharmacy => "pharmacy"
    case Wards => "wards"
    case Theatre => "theatre"
  }

  datatype POI = POI(id: string, name: string, position: Point, poiType: Option<POIType>, floorId: string)

  /** An impassable line segment. */
  datatype Wall = Wall(start: Point, end: Point, floorId: string)

  datatype Floor = Floor(id: string, name: string, level: int, pois: seq<POI>, walls: seq<Wall>)

  datatype MapData = MapData(width: int, height: int, floors: seq<Floor>, gridResolution: int)

  /** Math.min and Math.max on the exact reals that stand for the source's numbers. */
  function Min(a: real, b: real): real { if a <= b then a else b }

  function Max(a: real, b: real): real { if a >= b then a else b }
}
